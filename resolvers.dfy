/** The GraphQL resolvers: one query that lists the table and three
    mutations that change it, each in its own unit of work that commits
    at most once. */
module Resolvers {
  import opened Wrappers
  import opened Decimal
  import opened Records
  import opened Table

  /** The reply of `delete_cart` when no row has the id. */
  const NotFoundMessage: string := "Carrito no encontrado."

  /** The reply of `delete_cart` after it removed row `id`. */
  function DeletedMessage(id: int): (s: string)
    ensures s != NotFoundMessage
    ensures |s| > 19 && s[8..|s| - 11] == IntToString(id)
  {
    var s := "Carrito " + IntToString(id) + " eliminado.";
    assert s[8] == IntToString(id)[0];
    assert s[8..|s| - 11] == IntToString(id);
    s
  }

  /** Distinct ids give distinct success replies. */
  lemma DeletedMessageInjective(a: int, b: int)
    ensures DeletedMessage(a) == DeletedMessage(b) ==> a == b
  {
    if DeletedMessage(a) == DeletedMessage(b) {
      IntToStringInjective(a, b);
    }
  }

  /** The reply `delete_cart` gives for `id` on table `rows`. */
  function DeleteReply(rows: Rows, id: int): (s: string)
    ensures s == NotFoundMessage <==> id !in rows
  {
    if id in rows then DeletedMessage(id) else NotFoundMessage
  }

  /** A second delete of the same id reports that nothing was found, and
      the first one reported the removal of exactly that id. */
  lemma SecondDeleteNotFound(rows: Rows, id: int)
    ensures DeleteReply(Apply(rows, Delete(id)), id) == NotFoundMessage
    ensures id in rows ==> DeleteReply(rows, id) == DeletedMessage(id)
  {
  }

  /** Why a mutation produced no object. */
  datatype Error = NotFound(id: int)

  /** The `carts` table as the resolvers see it: the committed rows by key. */
  class CartsTable {
    var carts: Rows

    ghost predicate Valid()
      reads this
    {
      KeyedById(carts)
    }

    /** A freshly created, empty table. */
    constructor ()
      ensures Valid() && carts == map[]
    {
      carts := map[];
    }

    /** `all_carts`: reads every row and returns its copies; changes nothing. */
    method AllCarts() returns (r: seq<CartType>)
      requires Valid()
      ensures r == Listing(carts)
      ensures |r| == |carts|
      ensures forall i :: 0 <= i < |r| ==> r[i].id in carts && r[i] == ToCartType(carts[r[i].id])
      ensures forall k :: k in carts ==> exists i :: 0 <= i < |r| && r[i].id == k
    {
      var rows := carts;
      r := Listing(rows);
      ListingCopiesRows(rows);
      ListingIsComplete(rows);
    }

    /** `create_cart`: inserts a row under a fresh id. The two clock readings
        are the values of the two `utcnow` column defaults, taken in column
        order at insert time. The returned object is the stored row as read
        back after the commit. */
    method CreateCart(nombre: string, precio: Price, cantidad: int,
                      creado: Timestamp, actualizado: Timestamp) returns (r: CartType)
      requires Valid()
      modifies this
      ensures Valid()
      ensures r.id !in old(carts)
      ensures carts == Apply(old(carts), Create(r.id, nombre, precio, cantidad, creado, actualizado))
      ensures carts.Keys == old(carts).Keys + {r.id}
      ensures forall k :: k in old(carts) ==> carts[k] == old(carts)[k]
      ensures r == ToCartType(carts[r.id])
      ensures r.nombre == nombre && r.precio == precio && r.cantidad == cantidad
      ensures r.fechaCreacion == creado && r.fechaActualizacion == actualizado
      ensures Ordered(old(carts)) && NotAfter(old(carts), creado) && creado <= actualizado ==>
        Ordered(carts) && NotAfter(carts, actualizado)
    {
      UnusedIdExists(carts);
      var id :| id !in carts;
      var newCart := Cart(id, nombre, precio, cantidad, creado, actualizado);
      carts := Insert(carts, newCart);
      var stored := Lookup(carts, id);
      r := ToCartType(stored.value);
    }

    /** `update_cart`: overwrites the three data fields of row `id` and its
        update time with the clock reading `now`. A missing id fails before
        anything is committed. */
    method UpdateCart(id: int, nombre: string, precio: Price, cantidad: int, now: Timestamp)
      returns (r: Result<CartType, Error>)
      requires Valid()
      modifies this
      ensures Valid()
      ensures carts == Apply(old(carts), Update(id, nombre, precio, cantidad, now))
      ensures r.Failure? <==> id !in old(carts)
      ensures r.Failure? ==> r.error == NotFound(id) && carts == old(carts)
      ensures r.Success? ==>
        && r.value == ToCartType(carts[id])
        && r.value.id == id
        && r.value.fechaCreacion == old(carts)[id].fechaCreacion
        && r.value.nombre == nombre && r.value.precio == precio
        && r.value.cantidad == cantidad && r.value.fechaActualizacion == now
      ensures forall k :: k in old(carts) && k != id ==> carts[k] == old(carts)[k]
      ensures Ordered(old(carts)) && NotAfter(old(carts), now) ==> Ordered(carts) && NotAfter(carts, now)
    {
      var found := Lookup(carts, id);
      if found.None? {
        return Failure(NotFound(id));
      }
      var cart := found.value;
      cart := cart.(nombre := nombre);
      cart := cart.(precio := precio);
      cart := cart.(cantidad := cantidad);
      cart := cart.(fechaActualizacion := now);
      carts := Overwrite(carts, id, cart);
      r := Success(ToCartType(carts[id]));
    }

    /** `delete_cart`: removes row `id` if there is one and says which
        happened. */
    method DeleteCart(id: int) returns (msg: string)
      requires Valid()
      modifies this
      ensures Valid()
      ensures carts == Apply(old(carts), Delete(id))
      ensures carts.Keys == old(carts).Keys - {id}
      ensures forall k :: k in carts ==> carts[k] == old(carts)[k]
      ensures msg == DeleteReply(old(carts), id)
      ensures id in old(carts) ==> msg == DeletedMessage(id)
      ensures id !in old(carts) ==> msg == NotFoundMessage && carts == old(carts)
      ensures Ordered(old(carts)) ==> Ordered(carts)
    {
      var found := Lookup(carts, id);
      if found.Some? {
        carts := Remove(carts, id);
        return DeletedMessage(id);
      }
      return NotFoundMessage;
    }
  }

  /** A session against a new table: create a row, update it, delete it
      twice, and list the table, with the clock moving forward. */
  method Walkthrough(p1: Price, p2: Price, t0: Timestamp, t1: Timestamp)
    requires t0 < t1
  {
    var table := new CartsTable();
    var created := table.CreateCart("Producto 1", p1, 2, t0, t0);
    assert created.nombre == "Producto 1" && created.cantidad == 2;
    assert created.fechaCreacion == created.fechaActualizacion == t0;
    var id := created.id;

    var updated := table.UpdateCart(id, "Producto 1 Modificado", p2, 3, t1);
    assert updated.Success?;
    assert updated.value.id == id && updated.value.nombre == "Producto 1 Modificado";
    assert updated.value.fechaCreacion == t0 < t1 == updated.value.fechaActualizacion;

    var first := table.DeleteCart(id);
    assert first == DeletedMessage(id);
    var second := table.DeleteCart(id);
    assert second == NotFoundMessage;

    var missing := table.UpdateCart(id, "Producto 1", p1, 2, t1);
    assert missing == Failure(NotFound(id));

    var all := table.AllCarts();
    assert all == [];
  }
}

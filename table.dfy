/** The `carts` table as a map from primary key to row, the four state
    changes the resolvers commit, and the invariants a history of committed
    changes keeps. */
module Table {
  import opened Wrappers
  import opened Records

  type Rows = map<int, Cart>

  /** Primary-key integrity: every row is stored under its own id. */
  predicate KeyedById(rows: Rows) {
    forall k :: k in rows ==> rows[k].id == k
  }

  /** No row was last updated before it was created. */
  predicate Ordered(rows: Rows) {
    forall k :: k in rows ==> rows[k].fechaCreacion <= rows[k].fechaActualizacion
  }

  /** No timestamp in the table is later than the clock reading `t`. */
  predicate NotAfter(rows: Rows, t: Timestamp) {
    forall k :: k in rows ==> rows[k].fechaCreacion <= t && rows[k].fechaActualizacion <= t
  }

  /** `query(Cart).filter(Cart.id == id).first()`: the row with that id, or
      nothing. Absence is an ordinary outcome. */
  function Lookup(rows: Rows, id: int): (r: Option<Cart>)
    ensures r.Some? <==> id in rows
    ensures r.Some? ==> r.value == rows[id]
    ensures r.Some? && KeyedById(rows) ==> r.value.id == id
  {
    if id in rows then Some(rows[id]) else None
  }

  /** `add` and `commit` of a new row under a key not yet in use. */
  function Insert(rows: Rows, c: Cart): (r: Rows)
    requires c.id !in rows
    ensures r.Keys == rows.Keys + {c.id} && |r| == |rows| + 1
    ensures r[c.id] == c
    ensures forall k :: k in rows ==> r[k] == rows[k]
  {
    rows[c.id := c]
  }

  /** Attribute assignments on the fetched row with key `id` followed by
      `commit`. */
  function Overwrite(rows: Rows, id: int, c: Cart): (r: Rows)
    requires id in rows
    ensures r.Keys == rows.Keys && |r| == |rows|
    ensures r[id] == c
    ensures forall k :: k in rows && k != id ==> r[k] == rows[k]
  {
    rows[id := c]
  }

  /** `delete` and `commit` of the row with key `id`, if there is one. */
  function Remove(rows: Rows, id: int): (r: Rows)
    ensures r.Keys == rows.Keys - {id}
    ensures |r| == if id in rows then |rows| - 1 else |rows|
    ensures forall k :: k in r ==> r[k] == rows[k]
  {
    rows - {id}
  }

  /** Some integer is not yet used as a key, so an insert can always be
      given a fresh id. */
  lemma UnusedIdExists(rows: Rows)
    ensures exists id :: id !in rows
  {
    var b := UpperBound(rows.Keys);
    assert b !in rows;
  }

  lemma NonEmptyHasElement(s: set<int>)
    requires s != {}
    ensures exists y :: y in s
  {
    if forall y :: y !in s {
      assert false;
    }
  }

  /** An integer above every element of `s`. */
  ghost function UpperBound(s: set<int>): (b: int)
    ensures forall x :: x in s ==> x < b
  {
    if s == {} then 0
    else
      NonEmptyHasElement(s);
      var y :| y in s;
      var b := UpperBound(s - {y});
      assert forall x :: x in s ==> x == y || x in s - {y};
      if y < b then b else y + 1
  }

  predicate IsLeast(s: set<int>, m: int) {
    m in s && forall x :: x in s ==> m <= x
  }

  lemma LeastExists(s: set<int>)
    requires s != {}
    ensures exists m :: IsLeast(s, m)
  {
    NonEmptyHasElement(s);
    var y :| y in s;
    if s == {y} {
      assert IsLeast(s, y);
    } else {
      var rest := s - {y};
      LeastExists(rest);
      var m :| IsLeast(rest, m);
      var least := if y < m then y else m;
      forall x | x in s ensures least <= x {
        if x != y { assert x in rest; }
      }
      assert IsLeast(s, least);
    }
  }

  /** The keys of the table in ascending order: the order of a full scan of
      a rowid table. */
  function SortedIds(s: set<int>): (r: seq<int>)
    ensures |r| == |s|
    ensures forall i :: 0 <= i < |r| ==> r[i] in s
    ensures forall k :: k in s ==> k in r
    ensures forall i, j :: 0 <= i < j < |r| ==> r[i] < r[j]
  {
    if s == {} then []
    else
      LeastExists(s);
      var m :| IsLeast(s, m);
      [m] + SortedIds(s - {m})
  }

  /** `session.query(Cart).all()` followed by the copy of every row into a
      `CartType`, in ascending id order. */
  function Listing(rows: Rows): (r: seq<CartType>)
    ensures |r| == |rows|
    ensures forall i :: 0 <= i < |r| ==> r[i] == ToCartType(rows[SortedIds(rows.Keys)[i]])
  {
    var ids := SortedIds(rows.Keys);
    seq(|ids|, i requires 0 <= i < |ids| => ToCartType(rows[ids[i]]))
  }

  /** Each object of the listing is the unchanged copy of the row stored
      under its id. */
  lemma ListingCopiesRows(rows: Rows)
    requires KeyedById(rows)
    ensures forall i :: 0 <= i < |Listing(rows)| ==>
      Listing(rows)[i].id in rows && Listing(rows)[i] == ToCartType(rows[Listing(rows)[i].id])
  {
    var r, ids := Listing(rows), SortedIds(rows.Keys);
    forall i | 0 <= i < |r| ensures r[i].id in rows && r[i] == ToCartType(rows[r[i].id]) {
      assert r[i] == ToCartType(rows[ids[i]]);
      assert r[i].id == ids[i];
    }
  }

  /** Every row of the table appears in the listing. */
  lemma ListingIsComplete(rows: Rows)
    requires KeyedById(rows)
    ensures forall k :: k in rows ==> exists i :: 0 <= i < |Listing(rows)| && Listing(rows)[i].id == k
  {
    var r, ids := Listing(rows), SortedIds(rows.Keys);
    forall k | k in rows ensures exists i :: 0 <= i < |r| && r[i].id == k {
      var i :| 0 <= i < |ids| && ids[i] == k;
      assert r[i].id == k;
    }
  }

  /** The listing is in strictly ascending id order, so no row appears twice. */
  lemma ListingIsAscending(rows: Rows)
    requires KeyedById(rows)
    ensures forall i, j :: 0 <= i < j < |Listing(rows)| ==> Listing(rows)[i].id < Listing(rows)[j].id
  {
    var r, ids := Listing(rows), SortedIds(rows.Keys);
    forall i, j | 0 <= i < j < |r| ensures r[i].id < r[j].id {
      assert r[i].id == ids[i] && r[j].id == ids[j];
    }
  }

  /** The fields `update_cart` assigns on the fetched row. */
  function Updated(c: Cart, nombre: string, precio: Price, cantidad: int, now: Timestamp): Cart {
    c.(nombre := nombre, precio := precio, cantidad := cantidad, fechaActualizacion := now)
  }

  /** A committed change, with the id the store chose for a new row and the
      clock readings the change took. */
  datatype Mutation =
    | Create(id: int, nombre: string, precio: Price, cantidad: int,
             creado: Timestamp, actualizado: Timestamp)
    | Update(id: int, nombre: string, precio: Price, cantidad: int, now: Timestamp)
    | Delete(id: int)

  /** The store only inserts under a key not yet in use. */
  predicate Enabled(rows: Rows, m: Mutation) {
    m.Create? ==> m.id !in rows
  }

  /** The table after the resolver for `m` has run; an update or delete of a
      missing id commits nothing. */
  function Apply(rows: Rows, m: Mutation): (r: Rows)
    requires Enabled(rows, m)
    ensures forall k :: k in r && k != m.id ==> k in rows && r[k] == rows[k]
    ensures forall k :: k in rows && k != m.id ==> k in r
    ensures m.Create? ==>
      m.id in r && r[m.id] == Cart(m.id, m.nombre, m.precio, m.cantidad, m.creado, m.actualizado)
    ensures m.Update? ==> r.Keys == rows.Keys
    ensures m.Update? && m.id in rows ==>
      && r[m.id].id == rows[m.id].id
      && r[m.id].fechaCreacion == rows[m.id].fechaCreacion
      && r[m.id].nombre == m.nombre && r[m.id].precio == m.precio
      && r[m.id].cantidad == m.cantidad && r[m.id].fechaActualizacion == m.now
    ensures m.Update? && m.id !in rows ==> r == rows
    ensures m.Delete? ==> m.id !in r && (m.id !in rows <==> r == rows)
  {
    match m
    case Create(id, nombre, precio, cantidad, creado, actualizado) =>
      Insert(rows, Cart(id, nombre, precio, cantidad, creado, actualizado))
    case Update(id, nombre, precio, cantidad, now) =>
      if id in rows then Overwrite(rows, id, Updated(rows[id], nombre, precio, cantidad, now)) else rows
    case Delete(id) =>
      Remove(rows, id)
  }

  /** The clock readings of `m` come in order and none is earlier than `t`. */
  predicate TickOk(t: Timestamp, m: Mutation) {
    match m
    case Create(_, _, _, _, creado, actualizado) => t <= creado <= actualizado
    case Update(_, _, _, _, now) => t <= now
    case Delete(_) => true
  }

  /** The latest clock reading once `m` has run. */
  function After(t: Timestamp, m: Mutation): (t': Timestamp)
    ensures TickOk(t, m) ==> t <= t'
  {
    match m
    case Create(_, _, _, _, _, actualizado) => actualizado
    case Update(_, _, _, _, now) => now
    case Delete(_) => t
  }

  /** Every mutation of `ms` is one the store can perform in turn. */
  predicate Admissible(rows: Rows, ms: seq<Mutation>)
    decreases |ms|
  {
    ms == [] || (Enabled(rows, ms[0]) && Admissible(Apply(rows, ms[0]), ms[1..]))
  }

  /** The table after the mutations of `ms`, in order. */
  function Run(rows: Rows, ms: seq<Mutation>): Rows
    requires Admissible(rows, ms)
    decreases |ms|
  {
    if ms == [] then rows else Run(Apply(rows, ms[0]), ms[1..])
  }

  /** The clock never runs backwards across the mutations of `ms`, starting
      from reading `t`. */
  predicate ClockFrom(t: Timestamp, ms: seq<Mutation>)
    decreases |ms|
  {
    ms == [] || (TickOk(t, ms[0]) && ClockFrom(After(t, ms[0]), ms[1..]))
  }

  /** One committed change keeps primary-key integrity and the order of the
      two timestamps of every row, when the clock does not run backwards. */
  lemma ApplyPreservesInvariants(rows: Rows, m: Mutation, t: Timestamp)
    requires KeyedById(rows) && Ordered(rows) && NotAfter(rows, t)
    requires Enabled(rows, m) && TickOk(t, m)
    ensures KeyedById(Apply(rows, m)) && Ordered(Apply(rows, m))
    ensures NotAfter(Apply(rows, m), After(t, m))
  {
    var r := Apply(rows, m);
    forall k | k in r
      ensures r[k].id == k && r[k].fechaCreacion <= r[k].fechaActualizacion
      ensures r[k].fechaCreacion <= After(t, m) && r[k].fechaActualizacion <= After(t, m)
    {
      if k != m.id {
        assert r[k] == rows[k];
      }
    }
  }

  /** Any history of committed changes under a clock that does not run
      backwards keeps every row's `fecha_creacion <= fecha_actualizacion`. */
  lemma {:induction false} RunPreservesInvariants(rows: Rows, ms: seq<Mutation>, t: Timestamp)
    requires KeyedById(rows) && Ordered(rows) && NotAfter(rows, t)
    requires Admissible(rows, ms) && ClockFrom(t, ms)
    ensures KeyedById(Run(rows, ms)) && Ordered(Run(rows, ms))
    decreases |ms|
  {
    if ms != [] {
      ApplyPreservesInvariants(rows, ms[0], t);
      RunPreservesInvariants(Apply(rows, ms[0]), ms[1..], After(t, ms[0]));
    }
  }

  /** From the empty table, every reachable table has both invariants. */
  lemma TimestampsOrderedFromEmpty(ms: seq<Mutation>, t: Timestamp)
    requires Admissible(map[], ms) && ClockFrom(t, ms)
    ensures KeyedById(Run(map[], ms)) && Ordered(Run(map[], ms))
  {
    RunPreservesInvariants(map[], ms, t);
  }

  /** `Delete(k)` does not occur in `ms`. */
  predicate NeverDeletes(ms: seq<Mutation>, k: int) {
    forall i :: 0 <= i < |ms| ==> !(ms[i].Delete? && ms[i].id == k)
  }

  /** A row that is never deleted keeps its id and its creation time
      through any history of committed changes. */
  lemma {:induction false} IdentityStable(rows: Rows, ms: seq<Mutation>, k: int)
    requires Admissible(rows, ms) && k in rows && NeverDeletes(ms, k)
    ensures k in Run(rows, ms)
    ensures Run(rows, ms)[k].id == rows[k].id
    ensures Run(rows, ms)[k].fechaCreacion == rows[k].fechaCreacion
    decreases |ms|
  {
    if ms != [] {
      var r := Apply(rows, ms[0]);
      assert !(ms[0].Delete? && ms[0].id == k);
      assert k in r && r[k].id == rows[k].id && r[k].fechaCreacion == rows[k].fechaCreacion;
      assert NeverDeletes(ms[1..], k) by {
        forall i | 0 <= i < |ms[1..]| ensures !(ms[1..][i].Delete? && ms[1..][i].id == k) {
          assert ms[1..][i] == ms[i + 1];
        }
      }
      IdentityStable(r, ms[1..], k);
    }
  }

  /** Deleting removes the row for good: a lookup finds nothing and a second
      delete commits nothing. */
  lemma DeleteIsTerminal(rows: Rows, id: int)
    ensures Lookup(Apply(rows, Delete(id)), id) == None
    ensures Apply(Apply(rows, Delete(id)), Delete(id)) == Apply(rows, Delete(id))
  {
  }
}

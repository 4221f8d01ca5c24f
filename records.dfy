/** The stored `carts` row, the `CartType` object the API returns, and the
    copy between them that every resolver performs. */
module Records {
  import opened Wrappers

  /** A reading of the UTC wall clock (a naive `datetime`), as an instant on
      a discrete time line. */
  type Timestamp = int

  /** A `Float` column value. It is only stored and copied, never computed
      with, so the model keeps it opaque. */
  datatype Price = Price(bits: bv64)

  /** One row of the `carts` table. */
  datatype Cart = Cart(
    id: int,
    nombre: string,
    precio: Price,
    cantidad: int,
    fechaCreacion: Timestamp,
    fechaActualizacion: Timestamp)

  /** The GraphQL object type the resolvers return. */
  datatype CartType = CartType(
    id: int,
    nombre: string,
    precio: Price,
    cantidad: int,
    fechaCreacion: Timestamp,
    fechaActualizacion: Timestamp)

  /** A value held in an instance's attribute dictionary. */
  datatype Value =
    | IntValue(i: int)
    | TextValue(s: string)
    | PriceValue(p: Price)
    | TimeValue(t: Timestamp)
    | InstanceState

  /** The ORM's bookkeeping attribute, present on every mapped instance. */
  const InstanceStateKey: string := "_sa_instance_state"

  /** The keyword parameters of the `CartType` constructor. */
  const FieldNames: set<string> :=
    {"id", "nombre", "precio", "cantidad", "fecha_creacion", "fecha_actualizacion"}

  /** `vars(cart)` of a mapped instance whose six columns are all loaded. */
  function InstanceVars(c: Cart): (d: map<string, Value>)
    ensures d.Keys == FieldNames + {InstanceStateKey}
    ensures d[InstanceStateKey] == InstanceState
  {
    map[
      "id" := IntValue(c.id),
      "nombre" := TextValue(c.nombre),
      "precio" := PriceValue(c.precio),
      "cantidad" := IntValue(c.cantidad),
      "fecha_creacion" := TimeValue(c.fechaCreacion),
      "fecha_actualizacion" := TimeValue(c.fechaActualizacion),
      InstanceStateKey := InstanceState]
  }

  /** The dict comprehension that drops the bookkeeping attribute. */
  function WithoutInstanceState(d: map<string, Value>): (r: map<string, Value>)
    ensures r.Keys == d.Keys - {InstanceStateKey}
    ensures forall k :: k in r ==> r[k] == d[k]
  {
    map k | k in d && k != InstanceStateKey :: d[k]
  }

  /** Every keyword carries a value of the kind its field holds. */
  predicate WellTagged(kwargs: map<string, Value>)
    requires kwargs.Keys == FieldNames
  {
    && kwargs["id"].IntValue?
    && kwargs["nombre"].TextValue?
    && kwargs["precio"].PriceValue?
    && kwargs["cantidad"].IntValue?
    && kwargs["fecha_creacion"].TimeValue?
    && kwargs["fecha_actualizacion"].TimeValue?
  }

  /** `CartType(**kwargs)`: the keywords must be exactly the six field names
      (an unknown or a missing keyword is a TypeError), and each field takes
      the value passed under its name. The generated constructor does not
      check value types; here a value of the wrong kind has no `CartType`
      field to go into, so it is reported as a failure too. */
  function CartTypeOf(kwargs: map<string, Value>): (r: Option<CartType>)
    ensures r.Some? <==> kwargs.Keys == FieldNames && WellTagged(kwargs)
    ensures r.Some? ==> WithoutInstanceState(InstanceVars(ToCart(r.value))) == kwargs
  {
    if kwargs.Keys == FieldNames && WellTagged(kwargs) then
      var t := CartType(
        kwargs["id"].i,
        kwargs["nombre"].s,
        kwargs["precio"].p,
        kwargs["cantidad"].i,
        kwargs["fecha_creacion"].t,
        kwargs["fecha_actualizacion"].t);
      assert WithoutInstanceState(InstanceVars(ToCart(t))).Keys == kwargs.Keys;
      Some(t)
    else
      None
  }

  /** The statically typed row-to-object mapping: a copy of all six
      columns, from which the row can be rebuilt. */
  function ToCartType(c: Cart): (t: CartType)
    ensures ToCart(t) == c
  {
    CartType(c.id, c.nombre, c.precio, c.cantidad, c.fechaCreacion, c.fechaActualizacion)
  }

  /** The reflective copy the resolvers perform, `CartType(**{k: v for k, v
      in vars(cart).items() if k != '_sa_instance_state'})`, never fails and
      yields the same object as the typed mapping. */
  lemma ReflectiveCopyAgrees(c: Cart)
    ensures CartTypeOf(WithoutInstanceState(InstanceVars(c))) == Some(ToCartType(c))
  {
    var kwargs := WithoutInstanceState(InstanceVars(c));
    assert kwargs.Keys == FieldNames;
  }

  /** The inverse of the copy: the row an API object was copied from. */
  function ToCart(t: CartType): Cart {
    Cart(t.id, t.nombre, t.precio, t.cantidad, t.fechaCreacion, t.fechaActualizacion)
  }
}

# Cart items: a verified model of the `carts` table and its GraphQL resolvers

The service keeps shopping-cart line items in one table, `carts`. Each row
has an `id`, a name (`nombre`), a unit price (`precio`), a quantity
(`cantidad`), a creation time (`fecha_creacion`) and a last-update time
(`fecha_actualizacion`). A GraphQL schema exposes one query and three
mutations over it:

- `all_carts` lists every row;
- `create_cart` inserts a row;
- `update_cart` overwrites a row;
- `delete_cart` removes a row and replies with a message.

Each resolver copies the rows it returns into a `CartType` object.

The model has five modules, one file each:

- `wrappers.dfy` (`Wrappers`): `Option` and `Result`.
- `decimal.dfy` (`Decimal`): Python's `str(int)`. The delete reply uses it to
  print the id. It comes with its inverse and a round-trip proof.
- `records.dfy` (`Records`): the stored row `Cart`, the API object
  `CartType`, and the copy between them. The copy is modelled twice: once as
  the attribute-dictionary comprehension the resolvers actually run, and once
  as a typed mapping. A lemma proves the two agree.
- `table.dfy` (`Table`): the table as a map from primary key to row. It
  defines the lookup, insert, overwrite and delete that the ORM session
  performs, and the committed change each mutation makes (`Apply`). It also
  defines histories of such changes under a clock that never runs
  backwards, with the invariants those histories keep.
- `resolvers.dfy` (`Resolvers`): class `CartsTable`, whose field `carts`
  holds the committed rows. Its four methods follow the four resolvers
  statement by statement. Each method's `ensures` ties the new table to
  `Table.Apply` and says what the method returns. A closing `Walkthrough`
  runs create, update, delete, delete again, and list against a fresh table.

These become parameters or are left out:

- Clock readings (`datetime.utcnow()`) are parameters. `create_cart` takes
  two, one for each column default, in column order.
- The price is an opaque 64-bit value. It is only stored and copied.
- The new id is any key not yet in the table.

`update_cart` does not check the lookup result. On a missing id,
`cart.nombre = …` (app.py:74) raises before any commit. The model returns
`Failure(NotFound(id))` and leaves the table unchanged.

## Model

| member | source | states |
|---|---|---|
| `Records.InstanceVars` | app.py:21-29 | The attribute dictionary of a loaded `Cart` instance holds exactly the six column names and the ORM's `_sa_instance_state` bookkeeping entry. |
| `Records.WithoutInstanceState` | app.py:53 | The comprehension keeps every attribute except `_sa_instance_state`, each with its value unchanged. |
| `Records.CartTypeOf` | app.py:35-42 | Building `CartType(**kwargs)` succeeds exactly when the keywords are the six field names, each carrying a value of its field's kind. The object built holds each keyword's value in the field of that name: copying it back out gives the keywords again. |
| `Records.ToCartType` | app.py:36-42 | The typed row-to-object mapping copies all six columns: the row can be rebuilt from the object. |
| `Records.ReflectiveCopyAgrees` | app.py:53 | The reflective copy the resolvers use (filter `vars(cart)`, then construct from keywords) never fails, and it gives the same object as the typed mapping. |
| `Table.Lookup` | app.py:73 | `query(...).filter(id).first()` finds something exactly when the id is a key, and then returns the stored row, whose own id is that id. |
| `Table.Insert` | app.py:61-63 | `add` plus `commit` adds exactly one key, the new row's id, stores the row there, and leaves every existing row unchanged. |
| `Table.Overwrite` | app.py:74-78 | Assigning fields of a fetched row and committing keeps the key set, stores the new row under that id, and leaves every other row unchanged. |
| `Table.Remove` | app.py:89-90 | `delete` plus `commit` removes exactly the given key, and only if it is present; every remaining row is unchanged. |
| `Table.UnusedIdExists` | app.py:24 | Some integer is always unused as a key, so an insert can always be given a fresh primary key. |
| `Table.SortedIds` | app.py:51 | The keys in strictly ascending order, each exactly once. |
| `Table.Listing` | app.py:51-53 | The listing has one object per row: the copy of the row at the matching position of the ascending key order. |
| `Table.ListingCopiesRows` | app.py:50-53 | Every listed object is the unchanged copy of the row stored under its id. |
| `Table.ListingIsComplete` | app.py:50-53 | Every row of the table appears in the listing. |
| `Table.ListingIsAscending` | app.py:51-53 | The listing is in strictly ascending id order, so no row appears twice. |
| `Table.Apply` | app.py:59-94 | The committed effect of each mutation. Create stores the new row under its fresh id. Update on a present id rewrites name, price and quantity and sets the update time to now; it keeps the id and creation time and the set of keys. Update on an absent id changes nothing. Delete removes the id, and changes nothing when the id is absent. No other row is touched by any of them. |
| `Table.ApplyPreservesInvariants` | app.py:28-29 | If the clock does not run backwards, one committed change keeps primary-key integrity, keeps `fecha_creacion <= fecha_actualizacion` for every row, and leaves no timestamp later than the newest clock reading. The update time it relies on is set at app.py:77. |
| `Table.RunPreservesInvariants` | app.py:28-29 | Any history of committed changes under a clock that does not run backwards keeps primary-key integrity and keeps `fecha_creacion <= fecha_actualizacion` for every row. The update time it relies on is set at app.py:77. |
| `Table.TimestampsOrderedFromEmpty` | app.py:28-31 | Starting from the empty table that `create_all` makes, every reachable table has both invariants. |
| `Table.IdentityStable` | app.py:74-77 | A row that is never deleted keeps its id and its creation time through any history: an update assigns neither of them. |
| `Table.DeleteIsTerminal` | app.py:87-92 | After a delete, a lookup of that id finds nothing, and a second delete commits nothing. |
| `Decimal.NatToString` | app.py:92 | The decimal digits of a natural number: at least one digit, no leading zero. |
| `Decimal.IntToString` | app.py:92 | `str(id)`: a minus sign exactly for negative ids, followed by digits only. |
| `Decimal.NatToStringRoundTrip` | app.py:92 | Reading back the digits gives the number again. |
| `Decimal.IntToStringRoundTrip` | app.py:92 | Reading back `str(id)` gives the id again. |
| `Decimal.IntToStringInjective` | app.py:92 | Distinct ids print differently. |
| `Resolvers.DeletedMessage` | app.py:92 | The success reply `"Carrito {id} eliminado."` embeds `str(id)` and always differs from the not-found reply. |
| `Resolvers.DeletedMessageInjective` | app.py:92 | Distinct ids give distinct success replies. |
| `Resolvers.DeleteReply` | app.py:88-94 | The reply is `"Carrito no encontrado."` exactly when the id is absent. |
| `Resolvers.SecondDeleteNotFound` | app.py:87-94 | After a delete, deleting the same id again replies "not found". When the row was present, the first delete replied with the success message for that id. |
| `Resolvers.CartsTable.constructor` | app.py:31 | A newly created table is empty. |
| `Resolvers.CartsTable.AllCarts` | app.py:48-53 | Returns `Listing` of the table: one unchanged copy per row, each under its id, with every row present. The table is not changed. |
| `Resolvers.CartsTable.CreateCart` | app.py:58-67 | Chooses an id not in the table and adds exactly that one row. Every other row is unchanged. Returns the stored row as re-read: the given name, price and quantity, the new id, and the two default timestamps. If the table's timestamps were ordered and not later than the clock readings, which are taken in order, they stay so. |
| `Resolvers.CartsTable.UpdateCart` | app.py:70-81 | On a present id: overwrites name, price and quantity, sets the update time to now, keeps id and creation time, leaves other rows unchanged, and returns the updated row. On an absent id: fails with `NotFound(id)` and leaves the table unchanged. If no timestamp in the table was later than `now` and each row's were ordered, they stay so. |
| `Resolvers.CartsTable.DeleteCart` | app.py:84-94 | On a present id: removes exactly that row and replies `"Carrito {id} eliminado."`. On an absent id: leaves the table unchanged and replies `"Carrito no encontrado."`. Ordered timestamps stay ordered. |

## Left out

- Flask setup, the `/graphql` route, the HTML help page and `app.run`: HTTP plumbing and static presentation.
- The engine, the session factory, the database URL and `create_all`: configuration and I/O. The constructor models only the empty table `create_all` creates on a new database. Opening an existing database file is not modelled.
- Session internals: autoflush, expiry after commit, the mechanics of `refresh`, and closing the session. Only "committed or not" is modelled. The failing `update_cart` path never reaches `session.close()`. That leaks a session but does not change the table, so it is not modelled.
- SQLite's id allocation. Without `AUTOINCREMENT`, SQLite gives a new row the largest id plus one, so the id of a deleted last row can come back. The model picks any unused id. It therefore neither proves nor rules out reuse of a deleted id.
- `Resolvers.CartsTable.CreateCart`: does not state that the new id is positive, as SQLite's allocation makes it, because the model leaves the allocation policy open.
- Integer widths: SQLite stores a 64-bit `INTEGER`, and GraphQL `Int` is 32 bits, checked by the schema layer before a resolver runs. The model uses unbounded integers for `id` and `cantidad`.
- `precio` as a floating-point number: it is only stored and copied, so it is an opaque 64-bit value. SQLite stores a NaN as NULL, and its REAL affinity may store an integral float such as -0.0 as the integer 0, so -0.0 would read back as 0.0. Neither case is modelled.
- `Records.CartTypeOf`: fails on a value of the wrong kind, where Python's generated dataclass constructor would accept it unchecked. The typed `Value` datatype gives such a value no field to go into. The resolvers only ever pass values of the right kind (`Records.ReflectiveCopyAgrees`), so the case does not arise there.
- GraphQL argument type checking, camelCase field renaming, and the text of the error the schema layer reports for a failed `update_cart`: library behaviour.
- Wall-clock semantics of `datetime.utcnow`: readings are integer instants supplied by the caller. Properties that need a clock that does not run backwards assume it through `Table.ClockFrom` and `Table.TickOk`.
- Concurrent requests racing on the same row: the storage engine handles that, not this code.
- The row order of `all_carts`: the query has no `ORDER BY`. The model returns ascending id order, the order of a full scan of a rowid table.

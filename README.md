# Supabase storage boundary of the warehouse application

This project models in Dafny the storage layer of the warehouse ("almoxarifado")
application, `src/services/supabase.provider.ts`. That layer sits between the
application's in-memory database and a remote Postgres store reached through the
Supabase client. The model covers:

- **The key codec** (`keys.dfy`, `codec.dfy`). The store names columns in
  snake_case and the application names fields in camelCase. `snakeToCamel`
  rewrites every `_x` (x in a-z) of a key to `X`. `camelToSnake` rewrites every
  capital `X` to `_x`. Both recurse through arrays and objects. `camelToSnake`
  has one exception: the value under `poNumber` goes to `po_number` without
  conversion.
  - JSON values are a datatype (`json.dfy`).
  - Objects are association lists.
  - The `reduce` that builds each converted object is modelled as property
    assignment, so when two keys collide the later property wins.
- **The table map** (`tables.dfy`). This covers `collectionToTableMap`, the
  twelve tables, and the three orders in which the provider visits them: load,
  delete and insert.
- **The store** (`store.dfy`). The model keeps only the part of the store the
  provider depends on:
  - tables of rows;
  - the four kinds of request the provider makes, each on one table with at
    most one filter;
  - the `{ data, error }` response.

  A `Backend` object holds the current tables and the log of requests received.
  Whether the store refuses a request is a parameter of the backend, a fault
  table from request to error message. It is fixed when the backend is built. A
  refused request changes nothing.
- **`getInitialData`** (`snapshot.dfy`). It sends twelve selects. If any of them
  fails, or a category row is `null` (reading its `name` throws), the
  application starts from the empty database. Otherwise each collection is the
  camelCase image of its table, and `categories` is the list of the rows'
  `name` fields.
- **`replaceAllData`** (`snapshot.dfy`).
  - It deletes every row of the twelve tables in the fixed delete order. The
    categories table is filtered on `name`; every other table is filtered on `id`.
  - It stops at the first refused delete and rejects with
    `"Falha na restauração do banco de dados: "` followed by the store's message.
  - Otherwise it inserts each non-empty collection, in the reverse order. The
    inserts' errors are never looked at.
  - The records are converted by `db.<collection>.map(this.camelToSnake)`,
    which passes the method detached from its object. Inside it `this` is
    `undefined`, so the call throws a `TypeError` as soon as it recurses: on a
    non-empty array, or on an object with any key other than `poNumber`. The
    throw is caught and the call rejects with the prefix and the `TypeError`'s
    message. The inserts of that collection and of every later one are never
    sent. The model follows the code as written. The restore the authors
    evidently intended, with a bound `camelToSnake`, is kept beside it as
    `BoundReplaceOps`/`BoundReplaceOutcome` (see "## Findings").
- **`deleteCategory`** (`categories.dfy`).
  - It sends three requests in sequence: fetch the items of the category, move
    them to `"Outros"` when there are any, and delete the category row.
  - It then returns a new state computed locally from the snapshot the caller
    passed in. Reading `i.category` of a `null` item throws a `TypeError`, so
    a `null` item in that snapshot makes the call reject after all three
    requests were accepted.
- **`addMovement` and `adjustItemQuantity`** (`rpc.dfy`). The model covers only
  how each wrapper turns the stored procedure's answer into its own result.

The `Backend` methods `GetInitialData`, `ReplaceAllData` and `DeleteCategory` are
proved against specification functions. Each of these functions gives the
requests the operation sends and the result it settles with:

- `LoadSnapshot`/`LoadAnswers`;
- `ReplaceOps`/`ReplaceOutcome`;
- `DeleteCategoryOps`/`DeleteCategoryResult`.

The lemmas then prove what the source promises about those functions.

Rejections (`throw`) are modelled as values: `Outcome.Failed` for
`replaceAllData` and `Result.Err` for the others.

## Model

| member | source | states |
|---|---|---|
| KeyCodec.SnakeKey | src/services/supabase.provider.ts:249 | the camelToSnake key rule, by its definition: left to right, each ASCII capital becomes `_` followed by its lower-case letter, and every other character is kept; its properties are the `SnakeKey` lemmas below |
| KeyCodec.CamelKey | src/services/supabase.provider.ts:235 | the snakeToCamel key rule, by its definition: scanning left to right without overlap, each `_` followed by a lower-case ASCII letter becomes that letter in upper case, and every other character is kept; its properties are the `CamelKey` lemmas below |
| KeyCodec.SnakeKeyNoUpper | src/services/supabase.provider.ts:249 | the camelToSnake key rule leaves no capital letter in the key |
| KeyCodec.SnakeKeyLength | src/services/supabase.provider.ts:249 | the snake key is exactly one character longer per capital letter of the key |
| KeyCodec.SnakeKeyFixpoint | src/services/supabase.provider.ts:249 | the rule leaves a key unchanged if and only if the key has no capital letter |
| KeyCodec.SnakeKeyIdempotent | src/services/supabase.provider.ts:249 | applying the camelToSnake key rule twice gives the same key as once |
| KeyCodec.CamelKeyNoHump | src/services/supabase.provider.ts:235 | after the snakeToCamel key rule no `_` is followed by a lower-case letter |
| KeyCodec.CamelKeyLength | src/services/supabase.provider.ts:235 | the camel key is never longer than the key, and has the same length exactly when the key has no `_x` hump |
| KeyCodec.CamelKeyFixpoint | src/services/supabase.provider.ts:235 | the rule leaves a key unchanged if and only if the key has no `_x` hump |
| KeyCodec.CamelKeyIdempotent | src/services/supabase.provider.ts:235 | applying the snakeToCamel key rule twice gives the same key as once |
| KeyCodec.CamelOfSnake | src/services/supabase.provider.ts:235-249 | a key with no `_x` hump survives camelToSnake and then snakeToCamel |
| KeyCodec.SnakeOfCamel | src/services/supabase.provider.ts:235-249 | a key with no capital survives snakeToCamel and then camelToSnake |
| KeyCodec.SnakeKeyInjective | src/services/supabase.provider.ts:249 | two hump-free keys with the same snake key are the same key |
| KeyCodec.CamelKeyInjective | src/services/supabase.provider.ts:235 | two keys without capitals that have the same camel key are the same key |
| KeyCodec.SnakeKeyCollision | src/services/supabase.provider.ts:249 | the keys `aB` and `a_b` both become `a_b`, so the codec is not injective on every key |
| KeyCodec.PoNumberKeys | src/services/supabase.provider.ts:249-252 | the special column `po_number` is what the general rule makes of `poNumber`, and snakeToCamel takes it back |
| JsonValue.PutGet | src/services/supabase.provider.ts:236 | after `acc[k] = v`, reading `k` gives `v` and every other key reads as before |
| JsonValue.PutKeys | src/services/supabase.provider.ts:236 | an assignment adds its key to the object's keys and keeps the keys distinct |
| JsonValue.AssembleKeys | src/services/supabase.provider.ts:234-238 | the object built by the reduce has distinct keys, and they are exactly the keys assigned |
| JsonValue.AssembleGet | src/services/supabase.provider.ts:234-238 | each key of the built object holds the value assigned to it last |
| JsonValue.AssembleDistinct | src/services/supabase.provider.ts:234-238 | when no two assigned keys collide, the built object is the assignments in order |
| CaseCodec.ToCamel | src/services/supabase.provider.ts:227-239 | primitives and null come back unchanged; arrays are converted element by element; an object has distinct keys that are the camel image of its keys |
| CaseCodec.ToSnake | src/services/supabase.provider.ts:241-258 | primitives and null come back unchanged; arrays are converted element by element; an object has distinct keys that are the snake image of its keys |
| CaseCodec.SnakePairs | src/services/supabase.provider.ts:248-257 | each property gets its snake key, and the value under `poNumber` is copied without conversion |
| CaseCodec.CamelPairs | src/services/supabase.provider.ts:234-238 | the assignments the reduce of snakeToCamel makes, one per property in property order: the i-th key is the camel image of the i-th property's key, and the assigned keys are the camel images of the object's keys |
| CaseCodec.ToCamelIsClean | src/services/supabase.provider.ts:227-239 | every result of snakeToCamel is camel-clean: at every depth, distinct keys and no `_x` hump in any key |
| CaseCodec.ToCamelOfClean | src/services/supabase.provider.ts:227-239 | snakeToCamel leaves a camel-clean value unchanged |
| CaseCodec.ToCamelIdempotent | src/services/supabase.provider.ts:227-239 | applying snakeToCamel twice gives the same value as once |
| CaseCodec.CamelOfSnakeValue | src/services/supabase.provider.ts:227-258 | a camel-clean value survives camelToSnake and then snakeToCamel, the `poNumber` exception included |
| CaseCodec.SnakeOfCamelValue | src/services/supabase.provider.ts:227-258 | a snake-clean value survives snakeToCamel and then camelToSnake |
| CaseCodec.ToSnakeInOrder | src/services/supabase.provider.ts:248-257 | when no snake keys collide, camelToSnake keeps the property order and converts every value except the one under `poNumber` |
| CaseCodec.CamelInOrder | src/services/supabase.provider.ts:234-238 | when no camel keys collide, snakeToCamel keeps the property order and converts every value |
| CaseCodec.ToCamelLastWins | src/services/supabase.provider.ts:234-238 | for colliding keys, the converted object holds the value of the last property |
| CaseCodec.ToSnakeNotIdempotent | src/services/supabase.provider.ts:251-254 | a concrete value for which applying camelToSnake twice differs from applying it once, because of the unconverted `poNumber` value |
| CaseCodec.PoNumberValueNotRestored | src/services/supabase.provider.ts:251-252 | a snake_case object stored under `po_number` does not survive snakeToCamel and then camelToSnake |
| Tables.KeyColumn | src/services/supabase.provider.ts:69 | the delete filter column is `name` for categories and `id` for every other table |
| Tables.InsertIsReverseOfDelete | src/services/supabase.provider.ts:64-86 | the insert order is exactly the delete order reversed |
| Tables.OrdersArePermutations | src/services/supabase.provider.ts:40-86 | the load, delete and insert orders each list all twelve tables exactly once |
| Tables.TableMapEntries | src/services/supabase.provider.ts:8-20 | every collection except `categories` maps to its own table, and `categories` is not mapped |
| Tables.TableNameFollowsKeyRule | src/services/supabase.provider.ts:8-20 | every table name is the camelToSnake key rule applied to its collection name, and snakeToCamel turns it back |
| Tables.TableMapFollowsKeyRule | src/services/supabase.provider.ts:8-20 | each entry of `collectionToTableMap` is the key rule applied to its collection; snakeToCamel recovers the collection; no two collections share a table |
| Store.Backend.Execute | src/services/supabase.provider.ts:165-175 | one request to the store, as each `await supabase.from(...)` call sends: it is appended to the log, the tables become what the request does to them (nothing, if the store refuses it), and the answer is the store's answer computed from the tables before the request |
| Store.KeepAll | src/services/supabase.provider.ts:70 | a delete filtered by `neq(key, fresh uuid)` removes every row of the table |
| Snapshot.Camelized | src/services/supabase.provider.ts:50 | a response without data gives no rows; otherwise one row per row of data, in order, each the snakeToCamel image of its row and so camel-clean |
| Snapshot.Names | src/services/supabase.provider.ts:53 | one entry per categories row, in order, each the row's `name` field |
| Snapshot.LoadAnswers | src/services/supabase.provider.ts:41-44 | twelve answers, the i-th being the store's answer to `select('*')` on the i-th table of the load order |
| Snapshot.LoadSnapshot | src/services/supabase.provider.ts:46-58 | any failed result, or a `null` category row, gives the empty database; otherwise each collection is the results' rows in camelCase, and the categories are their `name` fields |
| Snapshot.LoadShape | src/services/supabase.provider.ts:39-60 | one refused select, or one `null` row in the categories table, empties the whole loaded database; otherwise each collection is its table row for row in camelCase, and the categories are the rows' names |
| Snapshot.LoadRefused | src/services/supabase.provider.ts:46-58 | a single refused select makes the load give the empty database |
| Snapshot.LoadNullCategory | src/services/supabase.provider.ts:53-58 | with every select answered, a `null` category row makes the load give the empty database |
| Snapshot.GetInitialData | src/services/supabase.provider.ts:39-60 | sends exactly the twelve `select('*')` requests in load order, changes no table, and returns the shaping of the store's answers |
| Snapshot.SelectAll | src/services/supabase.provider.ts:41-44 | each result is the store's answer to the corresponding select, and no table changes |
| Snapshot.FirstRefused | src/services/supabase.provider.ts:68-72 | the position of the first refused delete: every delete before it is accepted, and the one there is refused |
| Snapshot.InsertRows | src/services/supabase.provider.ts:75-86 | categories are written as `{ name }` rows and every other collection record by record through camelToSnake |
| CaseCodec.ConvertsUnbound | src/services/supabase.provider.ts:241-258 | by its definition, the values on which camelToSnake returns before it reaches `this.camelToSnake`: null, primitives, empty arrays, and objects whose every key is `poNumber` |
| CaseCodec.UnboundToSnake | src/services/supabase.provider.ts:241-258 | called with `this` undefined, camelToSnake succeeds exactly on null, primitives, empty arrays and objects whose only key is `poNumber`, and then gives what the bound method gives; otherwise it throws the `TypeError` "Cannot read properties of undefined (reading 'camelToSnake')" |
| Snapshot.WrittenRows | src/services/supabase.provider.ts:76-86 | `map(this.camelToSnake)` gives every record in snake_case exactly when no record throws, and otherwise the `TypeError` message |
| Snapshot.FirstThrowing | src/services/supabase.provider.ts:75-86 | the position of the first table whose records throw: no table before it throws, and the one there does |
| Snapshot.ReplaceOps | src/services/supabase.provider.ts:62-95 | by its definition, the requests of the restore as written: the deletes in delete order up to and including the first refused one; when all are accepted, then one insert per non-empty collection in insert order, up to the first collection whose records throw |
| Snapshot.ReplaceOutcome | src/services/supabase.provider.ts:62-95 | by its definition, how the restore as written settles: rejected with the prefixed message of the first refused delete; when all deletes are accepted, rejected with the prefixed `TypeError` of the first collection whose records throw; otherwise resolved |
| Snapshot.ReplaceAllData | src/services/supabase.provider.ts:62-95 | settles with the restore outcome as written (a refused delete or a thrown conversion rejects), sends exactly the restore's requests, and leaves the tables as those requests make them |
| Snapshot.Restore | src/services/supabase.provider.ts:66-93 | the try body of `replaceAllData` for given delete and insert orders: the delete loop then the insert phase; it settles with the restore outcome for those orders and sends exactly the restore's requests |
| Snapshot.DeleteTables | src/services/supabase.provider.ts:68-72 | sends the deletes up to and including the first refused one, and reports its message, or none when all are accepted |
| Snapshot.InsertCollections | src/services/supabase.provider.ts:75-86 | sends one insert per non-empty collection, in order, whatever the store answers, until converting a collection's records throws; then it sends nothing more and reports the thrown message |
| Snapshot.ReplaceSucceedsIff | src/services/supabase.provider.ts:66-93 | the restore succeeds if and only if the store accepts all twelve deletes and no record throws in conversion; with the deletes accepted, a record that throws makes it reject with the prefixed `TypeError` message |
| Snapshot.BoundReplaceSucceedsIff | src/services/supabase.provider.ts:66-93 | the intended restore succeeds if and only if the store accepts all twelve deletes |
| Snapshot.RestorableAgrees | src/services/supabase.provider.ts:62-95 | when no record throws, the restore as written sends the same requests and settles the same way as the intended one |
| Snapshot.CompleteOps | src/services/supabase.provider.ts:68-93 | with every delete accepted, the restore sends the twelve deletes and the inserts up to the first collection that throws, and rejects exactly when one throws |
| Snapshot.InsertRefusalsIgnored | src/services/supabase.provider.ts:75-89 | refusing any insert changes neither the restore's outcome nor the requests it sends |
| Snapshot.AbortOps | src/services/supabase.provider.ts:68-72 | when the k-th delete is refused, the first k+1 deletes are sent, then nothing, and the rejection carries the prefixed message |
| Snapshot.RestoreAbort | src/services/supabase.provider.ts:68-93 | after a refused delete, the rejection carries the prefixed store message, the tables before it are empty, the rest are untouched, and no insert is sent |
| Snapshot.DeletesEmpty | src/services/supabase.provider.ts:68-72 | after the accepted deletes of a list of tables, each of those tables is empty and every other table is unchanged |
| Snapshot.InsertStepsShape | src/services/supabase.provider.ts:75-86 | in an insert phase where nothing throws, every insert request is for a listed table with a non-empty collection and carries that collection's rows, and each such table gets one |
| Snapshot.InsertsSentShape | src/services/supabase.provider.ts:75-86 | every insert sent is for a non-empty table before the first one that throws and carries its rows; each such table gets one; no insert is sent for the table that throws or any later one |
| Snapshot.BoundRestoreWrites | src/services/supabase.provider.ts:62-95 | when the store accepts every request, the intended restore succeeds and each table holds exactly the rows written for its collection |
| Snapshot.RestoreWrites | src/services/supabase.provider.ts:62-95 | when the store accepts every request and no record throws, the restore succeeds and each table holds exactly the rows written for its collection |
| Snapshot.RestoreStopsAtRecord | src/services/supabase.provider.ts:75-93 | when the store accepts every request but a record throws, the restore rejects with the prefixed `TypeError` message, the tables before that collection in insert order hold their rows, and it and every later table are empty |
| Snapshot.LostFromRecord | src/services/supabase.provider.ts:39-93 | after such a restore, the collection that threw and every later one load back empty |
| Snapshot.BoundRestoreThenLoad | src/services/supabase.provider.ts:39-95 | restoring a clean snapshot as intended and then loading gives the snapshot back, when no request is refused |
| Snapshot.RestoreThenLoad | src/services/supabase.provider.ts:39-95 | restoring a clean snapshot none of whose records throws, and then loading, gives the snapshot back, when no request is refused |
| Snapshot.OrdinaryRecordNotRestored | src/services/supabase.provider.ts:76-93 | a snapshot holding one audit record `{ id, action }`, with every request accepted, is rejected with the `TypeError` after the twelve deletes, no insert is sent, and loading afterwards does not give it back, although it meets every condition of `BoundRestoreThenLoad` |
| CategoryDeletion.InCategory | src/services/supabase.provider.ts:178 | by its definition, `i.category === categoryToDelete`: the item's `category` field is the deleted name as a string; a missing field or a non-object item never matches |
| CategoryDeletion.Reassign | src/services/supabase.provider.ts:178 | a `null` item throws the `TypeError` "Cannot read properties of null (reading 'category')"; an item of the category gets `category: 'Outros'` with every other field kept; any other item is unchanged |
| CategoryDeletion.ReassignCategory | src/services/supabase.provider.ts:178 | fails with that `TypeError` if and only if some item is `null`; otherwise keeps the item order and length, moves the category's items to `Outros` with their other fields kept, leaves the others alone, and leaves no item in the deleted category |
| CategoryDeletion.RemoveCategory | src/services/supabase.provider.ts:179 | a name is kept if and only if it was there and is not the deleted category |
| CategoryDeletion.DeleteCategoryOps | src/services/supabase.provider.ts:165-175 | by its definition, the requests `deleteCategory` sends: the fetch alone if it is refused; the fetch and the delete if it finds nothing; the fetch and the move if the move is refused; otherwise fetch, move and delete |
| CategoryDeletion.DeleteCategoryResult | src/services/supabase.provider.ts:165-181 | by its definition, how `deleteCategory` settles: the first refused request's message; once every request is accepted, the `TypeError` of a `null` caller item; otherwise the state with the caller's items reassigned, its red-shelf items, and its categories without the deleted one |
| CategoryDeletion.DeleteCategory | src/services/supabase.provider.ts:162-182 | sends fetch, move (only when items were found) and delete, each only after the previous one was accepted; settles with the first refusal, else with the `TypeError` of a `null` caller item, else with the new state; and leaves the tables as those requests make them |
| CategoryDeletion.FoundIff | src/services/supabase.provider.ts:165-168 | the fetch finds rows if and only if some item is in the category |
| CategoryDeletion.MoveSentIff | src/services/supabase.provider.ts:165-171 | the move is sent if and only if the fetch is accepted and finds an item |
| CategoryDeletion.SucceedsIffAllAccepted | src/services/supabase.provider.ts:165-181 | the call resolves if and only if every request it sends is accepted and no item in the caller's snapshot is `null`; with every request accepted, a `null` item makes it reject with the `TypeError` |
| CategoryDeletion.ReturnedState | src/services/supabase.provider.ts:178-181 | on success, the returned items are the caller's items reassigned (none of them being `null`), keeping their count; the red-shelf items are the caller's; the categories are the caller's without the deleted one, which no longer appears in them; and, unless the deleted category is `Outros` itself, no returned item is left in it |
| CategoryDeletion.ReassignNone | src/services/supabase.provider.ts:178 | when no item is in the category, the item list comes back unchanged, or the `TypeError` when an item is `null` |
| CategoryDeletion.ReassignIsStoreUpdate | src/services/supabase.provider.ts:169-178 | on rows none of which is `null`, the local reassignment succeeds and equals what the store's `update(...).eq('category', ...)` does to the same rows |
| CategoryDeletion.RemoveAppend | src/services/supabase.provider.ts:179 | removing a category from a concatenation is removing it from each part |
| CategoryDeletion.RemoveAbsent | src/services/supabase.provider.ts:179 | removing a category that is not listed changes nothing |
| CategoryDeletion.RemoveIsStoreDelete | src/services/supabase.provider.ts:174-179 | the local filter equals the names left after the store's `delete().eq('name', ...)` |
| CategoryDeletion.AcceptedWithoutMove | src/services/supabase.provider.ts:165-175 | with the fetch and the delete accepted and nothing found, the items table is as it was, the categories table loses exactly the rows named after the category, and every other table is unchanged |
| CategoryDeletion.AcceptedWithMove | src/services/supabase.provider.ts:165-175 | with the fetch, move and delete accepted, every stored item of the category gets `category: 'Outros'` and the other rows are kept, the categories table loses exactly the rows named after the category, and every other table is unchanged |
| CategoryDeletion.StoreAgreesOnSuccess | src/services/supabase.provider.ts:165-181 | on success, the stored items are the local reassignment of the rows read (no stored row being `null`); the stored category names are the filtered names; the other tables are unchanged |
| CategoryDeletion.RefusedDeleteLeavesItemsMoved | src/services/supabase.provider.ts:163-175 | if the final delete is refused after an accepted move, the call rejects, yet the items stay moved (as the local reassignment of the rows read, no stored row being `null`) and the categories unchanged |
| StoredProcedures.ChangedRecords | src/services/supabase.provider.ts:200-203 | both records of a procedure's answer come back camel-clean, and converting them again changes nothing |
| StoredProcedures.ChangedRecordsOfClean | src/services/supabase.provider.ts:200-203 | the two records are the answer's `newMovement` and `updatedItem` fields: a field that is already camel-clean comes back exactly as the procedure returned it |
| StoredProcedures.AddMovementReply | src/services/supabase.provider.ts:194-204 | reports success if and only if there is no error; on error, the store's message and no records; otherwise the fixed message and the two converted records |
| StoredProcedures.AdjustQuantityReply | src/services/supabase.provider.ts:215-223 | rejects if and only if there is an error, with the store's message; otherwise returns the two converted records |
| StoredProcedures.WrappersAgree | src/services/supabase.provider.ts:194-223 | given the same answer, `addMovement` succeeds exactly when `adjustItemQuantity` resolves, with the same records, and fails with the message the other rejects with |

## Left out

- Store semantics beyond rows and filters are not modelled: row-level security, constraints, foreign keys, triggers, store-generated columns, and transactions. A refused request is modelled as changing nothing. An accepted insert appends its rows as given.
- What the stored procedures `add_movement` and `adjust_quantity` do inside the store is not modelled. Neither is the packing of their parameters (lines 185-192 and 208-213). Their answers are parameters of `AddMovementReply` and `AdjustQuantityReply`.
- Snapshot.GetInitialData: `Promise.all` sends the twelve selects at once. The model issues them one after another, in the results' order. The answers are the same, because selects change no table.
- Snapshot.InsertCollections: the twelve insert statements are modelled as one loop over the insert order, with the same conditions. The category rows are built by an arrow function and never throw. Every other collection goes through the detached `camelToSnake`, so its rows are sent only when no record throws.
- `handleResponse` (lines 25-37) is not modelled: no operation in the modelled core calls it. Console logging is left out.
- The single-record operations are not modelled: `addItem`, `updateItem`, `updateMultipleItems`, `deleteItem`, `deleteMultipleItems`, `addMultipleItems`, `logAction`, `addCategory` and `addCategories` (lines 97-160). They are the only readers of `collectionToTableMap`, whose entries are covered by the `Tables` lemmas.
- `crypto.randomUUID()` is not modelled. The delete filter `neq(key, fresh uuid)` stands for "every row", on the understanding that no stored key equals a freshly drawn identifier. Postgres does not delete a row whose key column is NULL, since `NULL <> uuid` is not true; the model assumes every stored key is set.
- Numbers are integers (`JNum`). Floating point is not modelled.
- `undefined` is not distinguished from `null`.
- `Object.keys` lists integer-like keys before others. The model keeps insertion order for every key.
- The special `__proto__` key is not modelled.
- Snapshot.LoadSnapshot: a result with neither data nor error yields an empty collection, as `r.data?.map(...) || []` does.
  - A category row that is `null` makes `c.name` throw, which empties the whole load; this is modelled.
  - A category row without a `name` field, or one that is a primitive, reads `name` as `undefined`, which the model gives as `null`.
  - Other rows that are not objects are passed through `snakeToCamel` unchanged.
- CaseCodec.UnboundToSnake: the `TypeError` message is the one V8 writes. Other JavaScript engines word it differently.
- A snapshot always has all twelve collections. A missing collection, which the `?.length` guards of the insert phase allow for, is not modelled; it behaves like an empty one.
- Exceptions thrown by the client library itself, rather than an `{ error }` answer, are not modelled.
- An RPC answer whose `data` is `null` with no error would make the TypeScript throw on `data.newMovement`. The model reads the missing fields as `null` instead.
- CategoryDeletion.Reassign: `undefined` items are modelled as `null`. For them V8 writes "of undefined" in place of "of null" in the `TypeError`; the model keeps the one message.
- CategoryDeletion.StoreAgreesOnSuccess: a Postgres row is never `null`, so these store lemmas state the items table only for stored rows that are not `null`. The model's store does not rule out a `null` row.
- CategoryDeletion.DeleteCategory: only the number of rows from `select('id')` is used, so the projection to `id` is not modelled. The fetch returns whole rows.
- User interface, routes, the data-provider selection and bootstrap code are outside this storage layer.

## Findings

| source | as written | input that shows it | evidently intended | confidence | as-written member | corrected member |
|---|---|---|---|---|---|---|
| src/services/supabase.provider.ts:76-86 | `db.<collection>.map(this.camelToSnake)` passes the method unbound, so `this` is `undefined` inside it. The recursive `this.camelToSnake(...)` at lines 246 and 254 throws for any non-empty array and for any key other than `poNumber`. The throw is caught at lines 91-93, and the restore rejects after the deletes have emptied every table | a snapshot that is empty except for one audit record `{ id: "1", action: "x" }`, with every request accepted | every record converted to snake_case and inserted (`map(r => this.camelToSnake(r))`), so that a clean snapshot loads back unchanged | not executed | Snapshot.OrdinaryRecordNotRestored | Snapshot.BoundRestoreThenLoad |

# Local replica and todo list of the sync client

This project models, in Dafny, the two stateful pieces of the browser client
of a local-first todo application:

- **The replica** (`assets/src/lib/sync_db.js`). An object that owns an
  IndexedDB database with one object store per synchronised table, each
  store keyed by the record's `id` field. `insert` and `update` both upsert
  with `put`, `delete` removes by key, and `all` lists a store. After every
  successful write the replica dispatches a `<table>:inserted`,
  `<table>:updated` or `<table>:deleted` event on the document. The server
  reaches it over a Phoenix socket in two ways:
  - the reply to the `sync` push after joining carries the snapshot rows and
    the `lsn`/`snapmin` cursor;
  - pushed `commit` messages carry ops to apply in order. Only messages whose
    topic starts with `sync:todos:` are looked at.
- **The todo list** (`assets/src/lib/todos_store.js`). A list of todo
  records with `add`, `update(id, callback)` and `delete(id)`. Every todo
  entering the list passes through `decodeTypes`, which turns a `done` of
  `"t"`/`"f"` into a boolean.

Modules:

- `Wrappers`: `Option` and `Result`.
- `JsValues`: primitive JavaScript values, records as field maps, truthiness,
  and IndexedDB's key validity and key order.
- `Replica`: a pure specification of the database (the stores and the log of
  notifications). It defines put, delete, ordered application of server ops,
  the snapshot inserts and store creation, and proves the lemmas below.
- `SyncDb`: class `SyncDb`, the replica object. Its fields are the ones the
  source reassigns (`db`, `socket`, `channel`, `lsn`, `snapmin`). A ghost log
  records the dispatched events. Every method's `ensures` ties the new
  database and log to the `Replica` functions applied to the old ones.
- `TodosStore`: `DecodeTypes`, the filter and the replace-by-id loop, and
  class `TodoList` with its `items` field.

I/O becomes synchronous. IndexedDB requests become updates of a map held in
the `db` field. A write whose promise is rejected leaves the database as it
was, and nobody awaits it, so the ops after it still run. The model keeps
IndexedDB's own error cases:
- a store that does not exist gives `NotFound`;
- an `id` that is not a number or a string gives `DataError`;
- a null `db` gives `NotOpen`;
- `createObjectStore` on an existing name gives `ConstraintError`.

## Notes on the code

- `handleCommit` (sync_db.js:16-27) never assigns `this.lsn`. Only the sync
  reply sets the cursor (lines 47-48). `HandleCommit` therefore leaves `lsn`
  and `snapmin` alone (its `modifies` clause excludes them).
- `onupgradeneeded` (lines 73-78) calls `createObjectStore` for every listed
  table. So an upgrade over a database that already holds one of them throws
  `ConstraintError`, and the upgrade is aborted. `Replica.CreateStoresSpec`
  proves when the upgrade succeeds: every listed name is new and listed
  once.
- The `sync` push always sends `snapmin: 0` (line 42).
- The channel joined is `sync:todos` (line 31). The message filter requires
  the prefix `sync:todos:` (line 33), which has one more `:`. So a commit sent
  on the channel's own topic is ignored (`SyncDb.ChannelTopicIgnored`).

## Model

| member | source | states |
|---|---|---|
| `SyncDb.SyncDb.constructor` | assets/src/lib/sync_db.js:5-14 | A fresh replica keeps `vsn`, `tables` and the CSRF token. It has no db, socket or channel. Its `lsn` and `snapmin` are 0 and no event has been dispatched. |
| `SyncDb.SyncDb.Upgrade` | assets/src/lib/sync_db.js:73-78 | Creates the listed stores in order. On success, `db` holds exactly `CreateStores(onDisk, tables)`. On a `ConstraintError` the result is that error and no usable database remains. The id keying of the stores is preserved. |
| `Replica.CreateStores` | assets/src/lib/sync_db.js:75-77 | On success every existing store is kept unchanged and every listed name holds an empty store. A failure is a `ConstraintError` naming one of the listed tables. |
| `Replica.CreateStoresKeys` | assets/src/lib/sync_db.js:75-77 | After a successful upgrade the store names are exactly the old ones plus the listed ones. |
| `Replica.CreateStoresSucceeds` | assets/src/lib/sync_db.js:75-77 | The upgrade succeeds iff the listed names are distinct and none exists yet. |
| `Replica.CreateStoresSpec` | assets/src/lib/sync_db.js:73-78 | The upgrade succeeds iff the listed names are distinct and none exists yet. It then adds exactly one empty store per listed name and keeps every existing store unchanged. |
| `SyncDb.SyncDb.Connect` | assets/src/lib/sync_db.js:30-31 | Creating the socket and the channel sets both fields and changes nothing else. |
| `SyncDb.SyncDb.JoinReplyAction` | assets/src/lib/sync_db.js:39-57 | A join `ok` pushes `sync` with `snapmin` 0, and only an `ok` does. An `error` rejects with its reason and a `timeout` rejects with `"timeout"`. It reads no field, so the reply cannot depend on the cursor and changes neither the tables nor the cursor. |
| `SyncDb.SyncDb.All` | assets/src/lib/sync_db.js:82-91 | No db gives `NotOpen` and an unknown store gives `NotFound`. Otherwise the result lists every stored record exactly once, each under its own id, in strictly ascending key order. |
| `Replica.ListingHeadLeast` | assets/src/lib/sync_db.js:86 | The first row All returns has the least key of the store. |
| `Replica.ListingUnique` | assets/src/lib/sync_db.js:86 | Two lists that both meet All's contract are equal, so the contract fixes the result. |
| `Replica.Put` | assets/src/lib/sync_db.js:93-119 | A put succeeds iff the database is open, the store exists and the record's `id` is a valid key. |
| `SyncDb.SyncDb.PutRecord` | assets/src/lib/sync_db.js:93-119 | The database and event log become `Put` of the old ones. On success it resolves with the record's id. On failure it rejects with the error and changes nothing. |
| `SyncDb.SyncDb.Insert` | assets/src/lib/sync_db.js:93-105 | An upsert that, on success, logs one `Inserted` event carrying the record and resolves with its id. |
| `SyncDb.SyncDb.Update` | assets/src/lib/sync_db.js:107-119 | The same upsert, logging one `Updated` event instead. |
| `Replica.PutUpserts` | assets/src/lib/sync_db.js:95-101 | A successful put stores the record under its id. Every other key of that store and every other store stay unchanged, the set of stores stays the same, and exactly one event is appended, named `<table>:inserted` for an insert and `<table>:updated` for an update. |
| `Replica.PutExistingReplaces` | assets/src/lib/sync_db.js:76 | Putting a record whose id is already stored replaces that row: the store keeps its size. |
| `Replica.PutIdempotent` | assets/src/lib/sync_db.js:97 | Putting the same record a second time (by insert or update) succeeds and leaves the stores exactly as the first put did: one row, not two. |
| `Replica.Delete` | assets/src/lib/sync_db.js:121-133 | A delete succeeds iff the database is open, the store exists and the id is a valid key. A missing row is not an error. |
| `SyncDb.SyncDb.Delete` | assets/src/lib/sync_db.js:121-133 | The database and event log become `Replica.Delete` of the old ones. It resolves with undefined or rejects with the error, changing nothing. |
| `Replica.DeleteRemoves` | assets/src/lib/sync_db.js:123-129 | After a successful delete, no row with that id remains. Every other row and store is unchanged and exactly one `Deleted` event, named `<table>:deleted`, is appended. |
| `Replica.DeleteIdempotent` | assets/src/lib/sync_db.js:125 | Deleting the same id again succeeds and changes no store. |
| `Replica.Apply` | assets/src/lib/sync_db.js:19-25 | An op whose `op` is not insert, update or delete changes nothing. Any op appends at most one event to the log. It never opens or closes the database, never adds or removes a store, and keeps every row stored under its own id. |
| `Replica.ApplyAll` | assets/src/lib/sync_db.js:18-26 | Applying a list of ops only extends the log. It keeps the database open or closed as it was, keeps the same set of stores, and keeps every row stored under its own id. |
| `SyncDb.SyncDb.HandleCommit` | assets/src/lib/sync_db.js:16-27 | The database and event log become `ApplyAll` of the commit's ops: each op is dispatched to insert, update or delete in list order, and a rejected op does not stop the ones after it. |
| `Replica.ApplyRow` | assets/src/lib/sync_db.js:19-25 | One op changes row `k` of an existing store only if it touches that row, and then leaves what the op means: the record for an insert or update, no row for a delete. |
| `Replica.ApplyAllAppend` | assets/src/lib/sync_db.js:18-26 | Applying two lists of ops one after the other equals applying their concatenation. |
| `Replica.LastWriteWins` | assets/src/lib/sync_db.js:16-27 | After the ops run, each row of an existing store holds what the last op on that row left. That is the record for an insert or update, and no row for a delete. A row no op touches keeps its old value. |
| `Replica.StoredUntilOverwritten` | assets/src/lib/sync_db.js:18-22 | A record that an insert or update stored, and that no later op overwrote or deleted, is what the store holds under its id at the end. |
| `Replica.UnknownOpsIgnored` | assets/src/lib/sync_db.js:19-25 | Ops whose `op` is not insert, update or delete have no effect. Applying the ops equals applying only the known ones. |
| `Replica.SchemaIgnored` | assets/src/lib/sync_db.js:18 | Replacing every op's `schema` does not change the outcome. |
| `Replica.OneNotificationPerWrite` | assets/src/lib/sync_db.js:93-133 | Applying ops only appends to the event log. It appends exactly one event per op that succeeds and none for the others. |
| `SyncDb.SyncDb.OnMessage` | assets/src/lib/sync_db.js:32-38 | Only a message whose topic starts with `sync:todos:` and whose event is `commit` can change the database and log: it applies the payload's ops. Any other message changes nothing, and the cursor is never touched. |
| `SyncDb.Accepts` | assets/src/lib/sync_db.js:33-35 | A message passes the filter iff its topic has `sync:todos:` as a prefix and its event is `commit`. |
| `SyncDb.ChannelTopicIgnored` | assets/src/lib/sync_db.js:31-33 | A `commit` on the joined channel's own topic `sync:todos` fails the filter. |
| `SyncDb.SyncDb.InsertRows` | assets/src/lib/sync_db.js:45 | Inserting the rows of one pair equals applying one insert op per row, in row order. |
| `SyncDb.SyncDb.ApplySyncResponse` | assets/src/lib/sync_db.js:42-49 | The database and log become the inserts of every row of every `[table, rows]` pair, in order. Afterwards `lsn` and `snapmin` equal the reply's values. |
| `Replica.InsertOps` | assets/src/lib/sync_db.js:45 | The ops for one `[table, rows]` pair are one insert per row, in row order: op `i` inserts `rows[i]` into `table`. |
| `Replica.SyncOps` | assets/src/lib/sync_db.js:44-46 | The ops derived from a sync reply number exactly as many as its rows, and all are inserts. |
| `Replica.SyncOpsAt` | assets/src/lib/sync_db.js:44-46 | Row `j` of pair `i` becomes the op at position (rows of the pairs before `i`) + `j`: an insert of that row into that pair's table. |
| `Replica.SyncOpsFrom` | assets/src/lib/sync_db.js:44-46 | Every position of the derived ops is the position that `SyncOpsAt` gives some row of some pair, so every op comes from a row of the reply. |
| `Replica.RowCountMonotone` | assets/src/lib/sync_db.js:44-46 | The positions of a pair's rows all come before those of any later pair. |
| `Replica.SyncRowStored` | assets/src/lib/sync_db.js:42-49 | A snapshot row with a valid id, in an existing store, that no later row of the same table shares an id with, is what that store holds under its id after the reply is applied. |
| `Replica.SyncOpsAreInserts` | assets/src/lib/sync_db.js:44-46 | Every op derived from a sync reply inserts a row of one of its pairs into that pair's table. |
| `TodosStore.DateOk` | assets/src/lib/todos_store.js:9 | A timestamp field is harmless iff it is a string or falsy (undefined, null, `false`, 0). Any other value makes `endsWith` throw. |
| `TodosStore.DecodeDone` | assets/src/lib/todos_store.js:11 | `"t"` becomes `true` and `"f"` becomes `false`. Every other value is left as it is. |
| `TodosStore.FirstBadDate` | assets/src/lib/todos_store.js:7-10 | Finds the first timestamp field, in visiting order, whose truthy non-string value makes `endsWith` throw, or reports that none does. |
| `TodosStore.DecodeTypes` | assets/src/lib/todos_store.js:6-13 | Throws iff a timestamp field holds a truthy non-string. The error names the first such field. Otherwise the result has the same fields plus `done`, with `done` decoded and every other field unchanged. |
| `TodosStore.DecodeKeepsTimestamps` | assets/src/lib/todos_store.js:7-10 | `inserted_at`, `updated_at`, `_deleted_at` and `id` come out unchanged: no `"Z"` is ever written back. |
| `TodosStore.DecodeIdempotent` | assets/src/lib/todos_store.js:6-13 | Decoding an already decoded todo gives the same todo. |
| `TodosStore.TodoList.constructor` | assets/src/lib/todos_store.js:15-16 | The list starts empty. |
| `TodosStore.TodoList.Add` | assets/src/lib/todos_store.js:17-19 | On success, `items` is the old list with the decoded todo appended at the end. If decoding throws, the error propagates and `items` is unchanged. |
| `TodosStore.LastMatch` | assets/src/lib/todos_store.js:21-30 | Finds the index of the last item with that id (no later item has it), or reports that no item has it. |
| `TodosStore.Found` | assets/src/lib/todos_store.js:21-30 | The value `update` returns is undefined iff no item has the id. Otherwise it is the replacement of an item with that id after which no item has it: the last match. |
| `TodosStore.MapMatching` | assets/src/lib/todos_store.js:22-29 | The `map` throws iff some matching item's replacement fails to decode, and then with the first such error. Otherwise it returns a list of the same length, where every item with that id becomes `decodeTypes(callback(item))` and every other item is unchanged. The found value is the replacement of the last match, or undefined. |
| `TodosStore.UpdateAbsent` | assets/src/lib/todos_store.js:20-31 | When no item has the id, the list comes back equal and nothing is found. |
| `TodosStore.TodoList.Update` | assets/src/lib/todos_store.js:20-31 | `items` becomes the replaced list and the call returns the last replacement or undefined. If decoding throws, `items` is unchanged and the first error propagates. |
| `TodosStore.Without` | assets/src/lib/todos_store.js:33 | No item of the result has that id, and the result is no longer than the input. |
| `TodosStore.WithoutAppend` | assets/src/lib/todos_store.js:33 | Filtering distributes over concatenation, so the surviving items keep their relative order. |
| `TodosStore.WithoutKeeps` | assets/src/lib/todos_store.js:33 | Every item with a different id survives. |
| `TodosStore.WithoutAbsent` | assets/src/lib/todos_store.js:33 | A list with no item of that id is returned whole. |
| `TodosStore.WithoutIdempotent` | assets/src/lib/todos_store.js:32-34 | Deleting the same id twice equals deleting it once. |
| `TodosStore.TodoList.Delete` | assets/src/lib/todos_store.js:32-34 | `items` becomes the old list without the items of that id. |

## Left out

- The Phoenix socket and channel are modelled only as two flags and as the
  decision taken on a join reply (`JoinReplyAction`). Connecting, joining,
  pushing and the timing of replies are network I/O.
- `sync()` opening the database (`indexedDB.open`, the version check,
  `onsuccess`, `onerror`) is foreign storage plumbing. Only the
  `onupgradeneeded` body is modelled.
- Promises are settled synchronously, in call order. IndexedDB runs
  read-write transactions on one store in creation order, so ops take effect
  in list order as modelled. In the source, `lsn`/`snapmin` are assigned and
  `sync()` resolves before the snapshot puts commit. The model stores the
  cursor after them.
- `SyncDb.SyncDb.Upgrade`: after an aborted upgrade, `this.db` still refers
  to the closed connection. The model sets `db` to None, because every later
  request then fails the same way as with no database.
- Storage failures other than the four modelled errors are left out:
  quota, a failed structured clone, a transaction abort.
- Numbers are unbounded integers: no floating point, `NaN` or `-0`. Dates,
  arrays and nested objects are not modelled as field values or keys.
- Strings are ordered by Unicode scalar value. IndexedDB orders them by
  UTF-16 code unit, and the two differ only for characters outside the
  Basic Multilingual Plane.
- Records are values, so aliasing is not modelled. In the source,
  `decodeTypes` mutates the object it is given, so `add` and `update` change
  the caller's object. IndexedDB stores a structured clone.
- The `update` callback is a total pure function. A callback that throws or
  has side effects is not modelled.
- `SyncDb.SyncDb.HandleCommit`: malformed payloads are not modelled. In the
  source, a payload without `ops` throws at `ops.forEach` (sync_db.js:18),
  and a delete op whose `data` is null or undefined throws at `data.id`
  (line 24). That aborts the `forEach`, so the later ops are skipped. The
  model's "a rejected op does not stop the ones after it" holds only for
  writes that IndexedDB rejects.
- `Replica.OneNotificationPerWrite`: the ghost log appends events in op
  order. In the source, each event is dispatched from its own transaction's
  success callback (sync_db.js:101, 115, 129). Writes to different stores run
  in separate transactions, so their events need not fire in list order.
- `console.log`/`console.error` calls are not modelled. `document.dispatchEvent`
  is reduced to a ghost log of events.
- The svelte `writable` wrapper (todos_store.js:37-58: `subscribe`, `reset`
  and the forwarding `add`, `update`, `delete`) comes from an external
  library and is left out; the model covers the inner `todos` object.
- `assets/js/socket.js`, `assets/src/lib/utils.js`, the build and the
  styling configuration are not part of this model.

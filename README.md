# In-memory todo repository

A Dafny model of the storage core of a small todo service: the `Todo`
record, the create and update payloads with their text-length rules, and
the in-memory repository `TodoRepositoryForMemory`, which keeps a
hash map from id to todo and offers create, find, all, update and delete.

- `entities.dfy` (module `Entities`): `Todo` and `NewTodo`, the payloads
  `CreateTodo` and `UpdateTodo`, and validation. Ids are a 32-bit
  `int32` newtype. A validation result is the sequence of messages of the
  rules the text breaks. The empty sequence means the payload is accepted.
  Text length counts characters. Dafny's `char` is a Unicode scalar value,
  which is what the validator counts.
- `repositories.dfy` (module `Repositories`): the error kinds
  `NotFound(id)` and `Unexpected(message)`, and one function per operation
  on the table's value (`CreateIn`, `FindIn`, `UpdateIn`, `DeleteIn`, and
  the predicate `ListsStore` for `all`). The class
  `TodoRepositoryForMemory` holds the table in a `map` field. Its methods
  change that field in place and are proved equal to those functions.
  Its invariant `Valid()` says every entry is filed under its own id.

The new id is the table's size plus one. After a delete it can
therefore be an id that is still in use. The insert then replaces that live
entry, and the table does not grow. The model keeps this behaviour as the
code has it:
- `WithoutDeletesNoCreateOverwrites` proves a create never overwrites as long as nothing is deleted.
- `DeleteThenCreateOverwrites` proves that deleting any id below the largest makes the next create overwrite the largest.
- `ReusedIdScenario` walks through create, create, delete 1, create.

## Model

| member | source | states |
|---|---|---|
| `Entities.NewTodo` | backend/axum/src/repositories.rs:37-43 | the new record has the given id and text and is not completed |
| `Entities.TextErrors` | backend/axum/src/repositories.rs:49-50 | no message exactly when 1 <= length <= 100; length 0 gives only "Can not be empty"; length over 100 gives only "Over text length"; never more than one message |
| `Entities.ValidateCreate` | backend/axum/src/repositories.rs:48-52 | a create payload passes exactly when its text has length 1 to 100, with the two messages for the two failures |
| `Entities.ValidateUpdate` | backend/axum/src/repositories.rs:55-59 | an absent text always passes; a present text passes exactly when its length is 1 to 100, with the same messages |
| `Repositories.CreateIn` | backend/axum/src/repositories.rs:83-88 | create returns a not-completed todo with the payload's text and id = size + 1; the table maps that id to it, replacing any entry there; all other entries stay; size grows by one only if the id was free; entries stay filed under their own ids |
| `Repositories.FindIn` | backend/axum/src/repositories.rs:90-94 | find succeeds exactly when the id is present, returning the stored todo; otherwise it fails with NotFound(id) |
| `Repositories.UpdateIn` | backend/axum/src/repositories.rs:99-106 | on an absent id: NotFound(id) and the table unchanged; on a present id: each field is the payload's if given, else the stored one; the result is stored at the same id; keys, size and every other entry are unchanged |
| `Repositories.DeleteIn` | backend/axum/src/repositories.rs:108-112 | on an absent id: NotFound(id) and the table unchanged; on a present id: exactly that key is removed, size drops by one, other entries stay |
| `Repositories.TodoRepositoryForMemory.constructor` | backend/axum/src/repositories.rs:70-72 | a new repository holds an empty table |
| `Repositories.TodoRepositoryForMemory.Create` | backend/axum/src/repositories.rs:83-89 | the new table and the result are those of `CreateIn` on the old table; the invariant is kept |
| `Repositories.TodoRepositoryForMemory.Find` | backend/axum/src/repositories.rs:90-94 | returns what `FindIn` gives on the current table; the method cannot modify anything |
| `Repositories.TodoRepositoryForMemory.All` | backend/axum/src/repositories.rs:95-98 | the returned sequence lists every stored todo exactly once, in some order, and nothing else; its length is the table's size; the method cannot modify anything |
| `Repositories.TodoRepositoryForMemory.Update` | backend/axum/src/repositories.rs:99-107 | the new table and the result are those of `UpdateIn` on the old table; the invariant is kept |
| `Repositories.TodoRepositoryForMemory.Delete` | backend/axum/src/repositories.rs:108-112 | the new table and the result are those of `DeleteIn` on the old table; the invariant is kept |
| `Repositories.FindAfterCreate` | backend/axum/src/repositories.rs:83-94 | find on the id create just returned yields exactly the created todo |
| `Repositories.FindAfterUpdate` | backend/axum/src/repositories.rs:90-106 | find after a successful update yields exactly the merged todo |
| `Repositories.FindAfterDelete` | backend/axum/src/repositories.rs:90-112 | after delete(id), find(id) fails with NotFound(id) |
| `Repositories.EmptyUpdateKeepsStore` | backend/axum/src/repositories.rs:99-106 | an update with neither field leaves the table identical and returns the stored todo |
| `Repositories.UpdateIdempotent` | backend/axum/src/repositories.rs:99-106 | repeating the same update gives the same table and the same result as doing it once |
| `Repositories.OnlyNotFound` | backend/axum/src/repositories.rs:14-19 | find, update and delete on this table fail only with NotFound(id), never Unexpected |
| `Repositories.ListingsArePermutations` | backend/axum/src/repositories.rs:95-98 | any two results of all on the same table are permutations of each other: only the order is unspecified |
| `Repositories.Apply` | backend/axum/src/repositories.rs:83-112 | one create adds at most one entry; an update or a delete never adds one |
| `Repositories.Run` | backend/axum/src/repositories.rs:83-112 | running a sequence of creates, updates and deletes adds at most one entry per create |
| `Repositories.ApplyKeepsDense` | backend/axum/src/repositories.rs:83-106 | when the live ids are exactly 1..n, a create adds id n + 1 and an update keeps the ids |
| `Repositories.WithoutDeletesNoCreateOverwrites` | backend/axum/src/repositories.rs:85-87 | starting from live ids 1..n and with no delete, the ids stay 1..m and the table grows by exactly the number of creates |
| `Repositories.DeleteThenCreateOverwrites` | backend/axum/src/repositories.rs:85-110 | with live ids 1..n, deleting any id below n makes the next create hand out n, which is still live; the entry is overwritten and the table ends with n - 1 entries |
| `Repositories.ReusedIdScenario` | backend/axum/src/repositories.rs:83-112 | create, create, delete(1), create leaves only id 2, holding the third item |
| `Repositories.CreateUpdateDeleteScenario` | backend/axum/src/repositories.rs:83-112 | create "buy milk" gives id 1, not completed; update(1, completed = true) keeps the text; delete(1) succeeds; find(1) then reports NotFound(1) |

## Left out

- `TodoRepositoryForDb` (repositories.rs:115-193): every operation is a Postgres query. Its ids, its order and its errors come from the database, which this model does not include.
- The `TodoRepository` trait (repositories.rs:21-28): only its in-memory implementation is modelled.
- `Arc<RwLock<…>>`, `async_trait` and `anyhow` wrapping: each operation is one atomic method on a single-threaded object. `anyhow` error contexts are reduced to the `RepositoryError` they carry.
- Repositories.TodoRepositoryForMemory.Create: the `as i32` cast of `len() + 1` is not modelled as wrap-around. The method instead requires the table to hold fewer than 2^31 - 1 entries, so the id always fits.
- Repositories.CreateIn: requires fewer than 2^31 - 1 entries, for the same reason as `Create`.
- Repositories.NextId: requires fewer than 2^31 - 1 entries, for the same reason as `Create`.
- Repositories.Apply: requires fewer than 2^31 - 1 entries only for a create. Updates and deletes compute no id and need no bound.
- Repositories.Run: requires the table size plus the number of creates in the sequence to stay below 2^31 - 1, so that every create along the way stays within the bound.
- The validator crate's error structure (field names, error codes, parameters): a validation result is only the list of messages.
- The HTTP handlers and the status-code mapping: the handlers module is not part of this model. So the 400 on a failed validation is not modelled either. Validation is modelled, but it is not connected to `Create` or `Update`, which themselves accept any text.
- backend/axum/src/main.rs (configuration, database pool, router, CORS, server) and the frontend components: I/O and framework wiring.
- Cloning of records: Dafny datatypes are values, so no stored record is shared with a caller.

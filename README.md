# Task manager API — a Dafny model

This project models the core of a small task-management REST API: the `Task` entity and its
validation constraints, the controller's create / show / update / delete / list-all endpoints
acting on the task table, and the repository's filtered, paginated query `findWithFilters`.

Modules, one per source file (plus a one-datatype helper):

- `Wrappers` (`wrappers.dfy`): `Option`, used for nullable fields and absent request keys.
- `TaskEntity` (`task.dfy`): the `Task` record, with every field nullable as in the entity.
  It holds the validator's verdict `Valid`, built from `NotBlank`, `Length(6, 255)` and
  `Choice`. It holds one function per setter. `SetterCall`/`CallAll` model any sequence of
  setter calls, to state that the id never changes and that each getter returns what its
  setter last stored.
- `TaskRepository` (`task_repository.dfy`): `FindAll` and `FindWithFilters`, pure functions
  of the table (a `map<int, Task>` from id to row). `FindWithFilters` does the following:
  - keeps the rows whose status equals the argument, unless the argument is null or empty;
  - sorts them newest first by `createdAt` (insertion sort);
  - takes the window that starts at `(page - 1) * limit` and holds up to `limit` rows.
  Being functions of the table, both are read-only: no call can change the stored rows.
- `TaskController` (`task_controller.dfy`): a `TaskStore` class with the table, the next id
  and a ghost set of every id ever issued. It has one method per endpoint, and each
  returns an `Outcome`: `Created`, `Ok`, `Deleted`, `BadRequest`, `NotFound` or `Failure`.
  `Valid()` is the table invariant. Every row is keyed by its own id, stamped, has a status
  and passes validation. Every id lies below the next id, so an id is never reused.
  `GroceriesScenario` walks through create, status update, delete and show. It uses only
  the methods' contracts.

Timestamps are naturals read from a clock the caller passes in. Create takes two readings
(`createdNow`, `updatedNow`), because the entity is stamped by two separate `new \DateTime()`
calls, so the model does not claim the two timestamps are equal. The boolean `persistFails`
stands for `persist`/`flush`/`remove` throwing. That is the `catch (\Exception)` path. It
answers `Failure` and leaves the table unchanged.

Notes on what the code does:

- The list endpoint calls `findAll` and returns `{data, total}` without filtering or
  pagination (`src/Controller/TaskController.php:41-46`). `FindWithFilters` is modelled on
  its own.
- There is no clamping of `page` or `limit` anywhere. `FindWithFilters` requires
  `page >= 1` and `limit >= 1`.
- `NotBlank` has no normaliser, so a title of six spaces passes validation. Only null and
  the empty string are blank.
- Update writes a key only when it is present and non-null (`isset`), so it cannot clear
  the description.

## Model

| member | source | states |
|---|---|---|
| `TaskEntity.Valid` | src/Entity/Task.php:20-33 | A task passes validation exactly when its title is non-null with 6 to 255 characters, and its status is null or one of created, in_progress, completed |
| `TaskEntity.ValidDependsOnTitleAndStatus` | src/Entity/Task.php:14-41 | Description, id and timestamps carry no constraint: tasks that agree on title and status get the same verdict |
| `TaskEntity.SetTitle` | src/Entity/Task.php:48-58 | getTitle returns what setTitle stored; every other field is unchanged |
| `TaskEntity.SetDescription` | src/Entity/Task.php:60-70 | getDescription returns what setDescription stored, null included; every other field is unchanged |
| `TaskEntity.SetStatus` | src/Entity/Task.php:72-82 | getStatus returns what setStatus stored; every other field is unchanged |
| `TaskEntity.SetCreatedAt` | src/Entity/Task.php:84-94 | getCreatedAt returns what setCreatedAt stored; every other field is unchanged |
| `TaskEntity.SetUpdatedAt` | src/Entity/Task.php:96-106 | getUpdatedAt returns what setUpdatedAt stored; every other field is unchanged |
| `TaskEntity.CallAllKeepsId` | src/Entity/Task.php:14-46 | No sequence of setter calls changes the id: there is no setter for it |
| `TaskEntity.CallAllUntouched` | src/Entity/Task.php:53-106 | A field that no call in a sequence targets keeps its value |
| `TaskEntity.LastWriteWins` | src/Entity/Task.php:48-106 | After any calls, each getter returns the argument of the last setter call on its field |
| `TaskRepository.FindAll` | src/Controller/TaskController.php:41 | findAll yields one entry per row: as many entries as rows, exactly the stored tasks, and no task twice when rows are keyed by id |
| `TaskRepository.FilterByStatus` | src/Repository/TaskRepository.php:24-27 | Every kept row has the requested status; each row with that status is kept as often as it occurs; a null or empty status keeps the rows unchanged |
| `TaskRepository.SortNewestFirst` | src/Repository/TaskRepository.php:21-22 | The result is ordered by createdAt descending and is a permutation of the input (ties in any order) |
| `TaskRepository.Window` | src/Repository/TaskRepository.php:30-31 | Up to count rows starting at offset, none when the offset is past the end; row i of the result is row offset + i of the input |
| `TaskRepository.Ordered` | src/Repository/TaskRepository.php:21-22 | The selected rows, before offset and limit, come newest first |
| `TaskRepository.OrderedCounts` | src/Repository/TaskRepository.php:21-27 | The selection holds, with multiplicity, exactly the stored rows that pass the status condition |
| `TaskRepository.FindWithFilters` | src/Repository/TaskRepository.php:19-34 | At most limit rows, newest first, each a stored row that passes the status condition |
| `TaskRepository.FindWithFiltersWindow` | src/Repository/TaskRepository.php:30-31 | The result is the window of the ordered selection that starts at offset (page - 1) * limit, with its exact length |
| `TaskRepository.OrderedSelects` | src/Repository/TaskRepository.php:24-27 | A task is selected if and only if it is stored and, when the status argument is non-null and non-empty, has that status |
| `TaskRepository.UnfilteredIsPermutation` | src/Repository/TaskRepository.php:24 | With a null or empty status no filter applies: the selection is a permutation of all rows |
| `TaskRepository.DefaultArguments` | src/Repository/TaskRepository.php:19 | With the defaults (null, 1, 10) the result is the first min(10, number of rows) rows of the newest-first ordering of the whole table |
| `TaskController.Overlay` | src/Controller/TaskController.php:100-108 | A field is overwritten only when its key is present and non-null; otherwise it keeps its value; id and timestamps are untouched |
| `TaskController.Candidate` | src/Controller/TaskController.php:63-71 | The candidate deserialised from the title, description and status keys has no id and no timestamps, and passes validation exactly when the body has a title of 6 to 255 characters and a status that is absent or allowed |
| `TaskController.Stamped` | src/Controller/TaskController.php:73-76 | Both timestamps are set from the clock; status defaults to created only when absent and is kept as given otherwise; title and description are kept; a valid candidate stays valid |
| `TaskController.Patched` | src/Controller/TaskController.php:100-110 | Present keys overwrite their fields, absent ones keep the stored values; updatedAt is refreshed; id and createdAt never change |
| `TaskController.DescriptionOnlyUpdate` | src/Controller/TaskController.php:100-110 | An update carrying only a description keeps title and status, stores the description, and keeps a valid task valid |
| `TaskController.TaskStore.Create` | src/Controller/TaskController.php:59-91 | An invalid candidate gives BadRequest with the table unchanged. A valid one is stamped, defaulted and inserted under a never-issued id, giving Created. A persistence failure gives Failure with the table unchanged |
| `TaskController.TaskStore.Show` | src/Controller/TaskController.php:50-56 | A stored id gives Ok with that (valid) task; any other gives NotFound |
| `TaskController.TaskStore.Update` | src/Controller/TaskController.php:94-133 | An unknown id gives NotFound. Otherwise the patched task replaces the stored one only when it is valid and the flush succeeds. An invalid patch gives BadRequest with the table unchanged |
| `TaskController.TaskStore.Delete` | src/Controller/TaskController.php:136-153 | An unknown id gives NotFound; otherwise exactly that row is removed, or Failure leaves the table unchanged |
| `TaskController.TaskStore.AllTasks` | src/Controller/TaskController.php:38-47 | Returns every stored task exactly once, and total equals the number returned |

## Left out

- HTTP routing, the welcome endpoint, JSON responses, serializer groups and message strings are not modelled. The validator's error text is not modelled either. A request body is a `Body` whose keys are present or absent.
- JSON decoding is not modelled. Create's deserialiser can raise errors for malformed JSON or non-string values, which leads to a 500. Update's `json_decode` returns null for a malformed body, which behaves as an empty body. PHP's coercion of non-string values to strings is also not modelled.
- A null title or status in a create body is not distinguished from an absent key. The real serialiser rejects null for the non-nullable setters.
- The framework resolves `{id}` to an entity before the handler runs. Here that step is modelled as a `NotFound` outcome.
- Doctrine's unit of work, transactions and SQL generation are not modelled. The table is a map, and a failed flush is an abstract `Failure` that leaves it unchanged.
- The status comparison is exact string equality. A case-insensitive database collation is not modelled.
- The order of `findAll` is not promised by the contracts; `FindAll` happens to list rows in ascending id order. The order of rows with equal `createdAt` in `findWithFilters` is not determined, so only sortedness and permutation are stated.
- Wall-clock time is a natural-number parameter. The invariant `updatedAt >= createdAt` depends on the clock being monotone, so it is not stated.
- Concurrency between requests is not modelled. That includes the race between loading and flushing.
- `TaskController.Candidate`: is built from the title, description and status keys only. The deserialiser would also apply a `createdAt` or `updatedAt` key, since both setters are public (`src/Entity/Task.php:89`, `:101`). Create then overwrites both timestamps (`src/Controller/TaskController.php:73-74`) before persisting, so the stored task is the same. What the model loses is the 500 answer that a malformed date in such a key causes inside `deserialize` (`src/Controller/TaskController.php:63`, `86-90`).

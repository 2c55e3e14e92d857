# Task store: a Dafny model

A model of the core of a small task-tracking service: the `Task` entity and its factory,
the repository contract, the in-memory repository behind it, and the service that runs
the create, read, update, delete and filter use cases. The HTTP layer is not modelled.

Files and modules:

- `wrappers.dfy` (`Wrappers`): `Option` for Python's `None`-or-value results and `Result`
  for operations that raise `ValueError`.
- `text.dfy` (`Text`): `str.strip()` and `str.lower()` on ASCII text, with their defining
  properties.
- `task.dfy` (`TaskDomain`): `TaskStatus`, `Task` and the subset type `ValidTask` (the tasks
  that passed the after-construction check), `to_dict`, `mark_as_done`, `update_title`,
  `TaskFactory.create` and `TaskFactory.from_dict`, as pure functions.
- `task_repository.dfy` (`TaskRepositoryPort`): the abstract repository. Its six operations
  become contract predicates over the store seen from outside, a map from id to task, and
  lemmas give their consequences.
- `memory_task_repository.dfy` (`MemoryRepository`): the class `MemoryTaskRepository`. Its
  state is the `_tasks` map plus the key insertion order that a Python dict keeps and that
  `find_all` exposes. Each method is proved to meet the matching port contract and states
  the new key order.
- `task_service.dfy` (`TaskServices`, `ServiceScenario`): the class `TaskService` over one
  repository, the merge rule of `update_task` and the status filter as functions, and a
  create, read, update, delete scenario.

The identifier that `uuid.uuid4()` generates is a parameter, `freshId`. A freshness
condition, `freshId` not yet stored, shows up only where a property depends on it: the
task count grows by one.

## Model

| member | source | states |
|---|---|---|
| `Text.Strip` | app/domain/task.py:95 | `strip()` yields the empty string exactly when the input is blank; otherwise the result neither starts nor ends with whitespace |
| `Text.StripPadded` | app/domain/task.py:95 | reference definition: blank padding around a core with no whitespace at its ends strips to exactly that core |
| `Text.StripIdempotent` | app/domain/task.py:95 | stripping twice is stripping once, so titles the factory built are already stripped |
| `Text.Lower` | app/domain/task.py:84 | `lower()` keeps the length, lowers each ASCII letter and leaves no upper-case letter |
| `Text.LowerIdempotent` | app/application/services/task_service.py:125 | lower-casing twice is lower-casing once |
| `TaskDomain.StatusValue` | app/domain/task.py:13-14 | `status.value`: "pending" for pending and "done" for done; `StatusOf` inverts it and `LowerStatusValue` shows it lower case |
| `TaskDomain.StatusOf` | app/domain/task.py:11-14 | `TaskStatus(v)` finds a member exactly for "pending" and "done", and that member's value is `v` |
| `TaskDomain.LowerStatusValue` | app/domain/task.py:13-14 | both status values are lower case already |
| `TaskDomain.NewTask` | app/domain/task.py:27-33 | construction succeeds iff the title is not blank; otherwise `EmptyTitle`; on success the fields are kept verbatim |
| `TaskDomain.ToDict` | app/domain/task.py:35-41 | the record has exactly the keys id, title and status; id and title are copied; the status value is lower case and looks up the task's status |
| `TaskDomain.MarkAsDone` | app/domain/task.py:43-49 | same id and title, status done; the argument is a value and stays as it was |
| `TaskDomain.UpdateTitle` | app/domain/task.py:51-57 | fails with `EmptyTitle` iff the new title is blank; otherwise keeps id and status and takes the title unstripped |
| `TaskDomain.Create` | app/domain/task.py:67-97 | `InvalidStatus` iff the lower-cased status is neither pending nor done, whatever the title; `EmptyTitle` iff the status is good and the title blank; on success the id is the supplied one or else `freshId`, the title is the stripped input and the status value is the lower-cased input |
| `TaskDomain.CreateChecksStatusFirst` | app/domain/task.py:83-97 | `create("", "invalid")` reports the status error, not the title error |
| `TaskDomain.CreateIgnoresCase` | app/domain/task.py:84 | `create(title, "DONE")` gives a done task with a generated id and the stripped title |
| `TaskDomain.CreateBlankTitle` | app/domain/task.py:29-30 | `create("   ", "pending")` fails with `EmptyTitle` |
| `TaskDomain.Get` | app/domain/task.py:111-113 | `data.get(key, default)`: the stored value when the key is present, the default otherwise |
| `TaskDomain.FromDict` | app/domain/task.py:99-114 | `InvalidStatus` iff the record's status (default "pending") is not a status name, whatever the title; `EmptyTitle` iff the status is good and the title (default "") is blank; success iff neither; on success the title is the stripped record title and the status value the lower-cased record status; a record without a title fails; without a status the task is pending; the id is the record's id when it has one, else `freshId` |
| `TaskDomain.ToDictFields` | app/domain/task.py:35-41 | what `from_dict` reads from a task's record: the task's id, title and status value |
| `TaskDomain.StatusValueIsName` | app/domain/task.py:13-14 | every status value is a status string the factory accepts |
| `TaskDomain.FromDictExample` | tests/test_task_api.py:45-51 | `from_dict({"title": "From Dict", "status": "pending"})` is a pending task titled "From Dict" with the generated id |
| `TaskDomain.DictRoundTrip` | app/domain/task.py:35-41 | `from_dict(to_dict(t))` gives back `t` for every task whose title is stripped |
| `TaskDomain.CreatedRoundTrip` | app/domain/task.py:110-114 | every task the factory builds survives `to_dict` followed by `from_dict` |
| `TaskDomain.PaddedTitle` | app/domain/task.py:95 | " x " is not blank and strips to "x" |
| `TaskDomain.UpdatedTitleNotRoundTripped` | app/domain/task.py:51-57 | a task from `update_title(" x ")` comes back from the record trip with title "x", so the trip is not the identity on it |
| `TaskRepositoryPort.Lookup` | app/application/ports/task_repository.py:42-51 | `find_by_id` on a store: present exactly when the id is stored, and then the stored task |
| `TaskRepositoryPort.SaveContract` | app/application/ports/task_repository.py:19-28 | `save` returns the task and the store afterwards is the store before with the task at its id |
| `TaskRepositoryPort.FindAllContract` | app/application/ports/task_repository.py:32-38 | `find_all` lists one stored task per stored id, every stored task, each under its own id, as many as there are ids |
| `TaskRepositoryPort.FindByIdContract` | app/application/ports/task_repository.py:42-51 | `find_by_id` returns the stored task or absent |
| `TaskRepositoryPort.UpdateContract` | app/application/ports/task_repository.py:55-64 | `update` of a stored id overwrites and returns the task; of an unknown id returns absent and changes nothing |
| `TaskRepositoryPort.DeleteContract` | app/application/ports/task_repository.py:68-77 | `delete` reports whether the id was stored and removes it |
| `TaskRepositoryPort.ClearContract` | app/application/ports/task_repository.py:81-85 | `clear` leaves the store empty |
| `TaskRepositoryPort.SaveThenFind` | app/application/ports/task_repository.py:19-28 | after `save` the task is returned, `find_by_id` of its id finds it, and every other id reads as before |
| `TaskRepositoryPort.SaveConsistent` | app/application/ports/task_repository.py:19-28 | `save` keeps every task filed under its own id |
| `TaskRepositoryPort.UpdateKeepsKeys` | app/application/ports/task_repository.py:55-64 | `update` never changes the key set; when it succeeds the new task is found; other ids read as before |
| `TaskRepositoryPort.DeleteTwice` | app/application/ports/task_repository.py:68-77 | after `delete` the id is absent and others are untouched; a second delete of it returns false and changes nothing |
| `TaskRepositoryPort.ClearEmpties` | app/application/ports/task_repository.py:81-85 | after `clear` the listing is empty and every lookup is absent |
| `TaskRepositoryPort.TwoSavesListTwo` | app/application/ports/task_repository.py:32-38 | saving two tasks with distinct ids into an empty store lists two tasks |
| `MemoryRepository.Values` | app/adapters/persistence/memory_task_repository.py:41 | `dict.values()`: one task per key, in key order |
| `MemoryRepository.Without` | app/adapters/persistence/memory_task_repository.py:82 | the key order after `del`: the key is gone, the others stay, without repetitions, one shorter when the key was there |
| `MemoryRepository.WithoutConcat` | app/adapters/persistence/memory_task_repository.py:82 | `del` keeps the order of the remaining keys: removing a key from a concatenation concatenates the parts with the key removed |
| `MemoryRepository.WithoutAt` | app/adapters/persistence/memory_task_repository.py:82 | in a key list without repetitions, removing the key at position i leaves the keys before i followed by the keys after it |
| `MemoryRepository.ValuesAppend` | app/adapters/persistence/memory_task_repository.py:31-41 | inserting a new key at the end of the order appends its task to the listing and leaves the earlier entries as they were |
| `MemoryRepository.ValuesSkip` | app/adapters/persistence/memory_task_repository.py:41 | dropping the key at position i from the order drops the listing's entry at position i |
| `MemoryRepository.DistinctCard` | app/adapters/persistence/memory_task_repository.py:41 | a key list without repetitions is as long as the key set |
| `MemoryRepository.OverwriteKeepsPosition` | app/adapters/persistence/memory_task_repository.py:31 | overwriting a stored key keeps its place in the listing and changes only that entry |
| `MemoryRepository.ReinsertGoesLast` | app/adapters/persistence/memory_task_repository.py:31-32 | after a delete and a re-insert of the id at position i, the listing is the old listing without its entry i, followed by the new task |
| `MemoryRepository.MemoryTaskRepository.constructor` | app/adapters/persistence/memory_task_repository.py:17-19 | storage starts empty |
| `MemoryRepository.MemoryTaskRepository.Save` | app/adapters/persistence/memory_task_repository.py:21-32 | meets the save contract; a new key is appended to the order, an existing one keeps its place |
| `MemoryRepository.MemoryTaskRepository.FindAll` | app/adapters/persistence/memory_task_repository.py:34-41 | meets the find_all contract: one task per stored id, as many as there are ids, no id twice, in insertion order |
| `MemoryRepository.MemoryTaskRepository.FindById` | app/adapters/persistence/memory_task_repository.py:43-53 | the stored task under the id if any, otherwise absent |
| `MemoryRepository.MemoryTaskRepository.Update` | app/adapters/persistence/memory_task_repository.py:55-69 | meets the update contract: absent and no change for an unknown id, otherwise replaced in place and returned; the key order is unchanged |
| `MemoryRepository.MemoryTaskRepository.Delete` | app/adapters/persistence/memory_task_repository.py:71-84 | meets the delete contract: true and removed when present, false and no change otherwise |
| `MemoryRepository.MemoryTaskRepository.Clear` | app/adapters/persistence/memory_task_repository.py:86-90 | storage and key order are empty |
| `TaskServices.Merge` | app/application/services/task_service.py:87-96 | the merged task keeps the id; `InvalidStatus` iff a supplied status is bad; `EmptyTitle` iff a supplied title is blank with a good status; fields not supplied never fail validation; title and status come from the argument when given, else from the stored task |
| `TaskServices.TitleOnlyUpdate` | app/application/services/task_service.py:88-89 | a title-only update keeps the stored status |
| `TaskServices.StatusOnlyUpdate` | app/application/services/task_service.py:88-89 | a status-only update keeps a stripped stored title |
| `TaskServices.Matching` | app/application/services/task_service.py:125 | the filter is no longer than its input and keeps only tasks whose status value is the given one |
| `TaskServices.MatchingCounts` | app/application/services/task_service.py:125 | each task occurs in the filtered list as often as in the input if it matches, never otherwise |
| `TaskServices.MatchingConcat` | app/application/services/task_service.py:125 | the filter keeps order: filtering a concatenation concatenates the filtered parts |
| `TaskServices.MatchingPartition` | app/application/services/task_service.py:125 | the pending and done filters together have as many tasks as the input |
| `TaskServices.MatchingUnknown` | app/application/services/task_service.py:125 | a value that is not a status value matches nothing |
| `TaskServices.TaskService.constructor` | app/application/services/task_service.py:17-24 | the service holds the repository it is given |
| `TaskServices.TaskService.CreateTask` | app/application/services/task_service.py:26-44 | the result is the factory's; on success the task is stored under `freshId`, and a fresh id grows the count by one; on failure the repository is unchanged |
| `TaskServices.TaskService.GetAllTasks` | app/application/services/task_service.py:46-53 | the repository's listing |
| `TaskServices.TaskService.GetTaskById` | app/application/services/task_service.py:55-65 | the repository's lookup |
| `TaskServices.TaskService.UpdateTask` | app/application/services/task_service.py:67-99 | absent and no change for an unknown id; otherwise the merged task is written in place and returned, or the validation error comes back with no change |
| `TaskServices.TaskService.DeleteTask` | app/application/services/task_service.py:101-111 | the repository's delete, with its result and effect |
| `TaskServices.TaskService.GetTasksByStatus` | app/application/services/task_service.py:113-125 | the listed tasks whose status value equals the lower-cased argument, in listing order; empty for an unrecognised status |
| `ServiceScenario.CreateReadUpdateDelete` | tests/test_task_api.py:195-216 | create "Buy milk" pending, read it back, update the status only to done, delete it (true) and find it gone |

## Left out

- The HTTP adapter (`app/adapters/http/fastapi_app.py`): framework wiring, request
  schemas, module-level singletons and the mapping of errors to status codes.
- Identifier generation (`uuid.uuid4()`): randomness; the generated id is the parameter `freshId`.
- Unicode in `str.strip()` and `str.lower()`: only ASCII whitespace (space, 9 to 13, 28 to 31) and ASCII letters are modelled.
- Error message strings: only the two error kinds, `InvalidStatus` and `EmptyTitle`, are modelled.
- The status type check in `__post_init__` (`isinstance(self.status, TaskStatus)`): a Dafny status is always a member of the enumeration.
- Polymorphism over storage: Dafny traits are not used, so the port is a set of contract
  predicates that the in-memory class is proved to meet. The service holds that class
  directly.
- Aliasing of task objects: the source's dataclass is not frozen, so a caller could change
  a stored task through a reference it kept. Tasks here are values.
- Loosely typed records: `from_dict` takes a map from strings to strings, so `None` or
  non-string values in the dictionary, and the errors they cause, are not modelled.
- Concurrency: the source has no synchronisation and the model is sequential.
- The reply to an unrecognised status filter: the service returns an empty list for it,
  and the client error that the HTTP interface describes for that case belongs to the
  HTTP layer, which is not modelled.

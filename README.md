# Task store: a verified Dafny model

This project models the task component of a small NestJS back end. It has three parts:

- **`TaskEntity`** (`task_entity.dfy`). The task record `Task` holds an id, a title, a description and a status. The status enumeration `TaskStatus` has the members `OPEN`, `IN_PROGRESS` and `DONE`. Each member's string value is its own name. `StatusName` converts a status to its name and `ParseStatus` converts a name back to a status.
- **`TaskDto`** (`task_dto.dfy`). These are the request bodies and the validation rules their decorators declare.
  - A create request is accepted exactly when its title is a string of at least four characters. Its description has no rule.
  - An update request has three optional fields. It is accepted exactly when its status is absent or is one of the three names.
  - A valid update request becomes a typed `TaskPatch` through `ToPatch`. `FromPatch` is its inverse.
- **`TaskStore`** (`tasks_service.dfy`). This is the in-memory service. A value-level specification comes first:
  - `FirstIndex` and `FindById` model `find`.
  - `Without` models `filter`.
  - `ApplyPatch` models `Object.assign` of a patch onto a task.

  The class `TasksService` follows. It holds the task list in a `seq<Task>` field. Its methods change that field in place, and each method is proved against the functions above. The linear scans of `find` and `filter` are `while` loops with invariants. The store keeps the invariant `Valid()`: ids are pairwise distinct. Create (given a fresh id), delete and update preserve it.

`Wrappers` (`wrappers.dfy`) provides `Option` (for absent fields and failed lookups) and `Result` (for the failing update).

Points where the code's behaviour is easy to misread:

- **Update of a missing id.** `updateTask` passes the `undefined` that `find` returns to `Object.assign`, which throws a TypeError. The model returns `Err(TargetUndefined)` and leaves the store unchanged, because nothing was written before the throw.
- **Type of the id.** The entity declares `id: number`, but the service stores the string `'1'` and `uuid()` strings. Ids are strings here.
- **Which record an update changes.** Update patches only the FIRST record with the id, because `find` returns the first match. The `this.task.map(...)` that follows has no effect, because its result is discarded.

## Model

| member | source | states |
|---|---|---|
| TaskEntity.StatusName | src/tasks/task.entity.ts:1-5 | every status's string value is one of the three member names |
| TaskEntity.ParseStatus | src/tasks/task.entity.ts:1-5 | a string parses to a status iff it is one of the three names, and the parsed status's name is that string |
| TaskEntity.StatusCount | src/tasks/task.entity.ts:1-5 | every status is one of OPEN, IN_PROGRESS, DONE, and there are exactly three |
| TaskEntity.StatusNameInjective | src/tasks/task.entity.ts:2-4 | distinct members have distinct string values |
| TaskEntity.StatusRoundTrip | src/tasks/task.entity.ts:2-4 | parsing a status's string value gives back that status |
| TaskEntity.ParseRejectsOtherNames | src/tasks/task.entity.ts:1-5 | any string other than the three names parses to no status |
| TaskDto.CreateTaskDtoValid | src/tasks/dto/task.dto.ts:10-16 | a create request is valid iff its title is present and at least 4 characters long (IsString, IsNotEmpty, MinLength(4) together) |
| TaskDto.CreateRejectsShortTitle | src/tasks/dto/task.dto.ts:11-14 | an absent, empty or 1-3 character title is rejected |
| TaskDto.CreateDescriptionUnconstrained | src/tasks/dto/task.dto.ts:15 | the description, present or absent, never affects whether a create request is accepted |
| TaskDto.UpdateTaskDtoValid | src/tasks/dto/task.dto.ts:18-26 | an update request is valid iff its status is absent or parses to a TaskStatus |
| TaskDto.UpdateWithoutStatusAccepted | src/tasks/dto/task.dto.ts:19-23 | with no status, any title (including one shorter than 4) and any description are accepted |
| TaskDto.UpdateStatusMembership | src/tasks/dto/task.dto.ts:22-25 | with a status, the request is valid iff the status is "OPEN", "IN_PROGRESS" or "DONE" |
| TaskDto.ToPatch | src/tasks/dto/task.dto.ts:18-26 | a valid request yields a patch with the same title and description and the status whose name the request carries; the patch has no id field |
| TaskDto.FromPatch | src/tasks/dto/task.dto.ts:18-26 | every patch is written as a request with the same fields and the status by name |
| TaskDto.PatchRoundTrip | src/tasks/dto/task.dto.ts:18-26 | the request written from a patch is valid and checks back to that same patch |
| TaskDto.DtoRoundTrip | src/tasks/dto/task.dto.ts:18-26 | checking a valid request and writing the patch back gives the same request |
| TaskStore.FirstIndex | src/tasks/tasks.service.ts:32-34 | the result is the least position holding the id, or the length when no task has it |
| TaskStore.FindById | src/tasks/tasks.service.ts:32-34 | lookup finds nothing iff no task has the id; what it finds is a stored task with that id, at a position before which no task has the id |
| TaskStore.FindUnique | src/tasks/tasks.service.ts:32-34 | with distinct ids, looking up a stored task's id finds exactly that task |
| TaskStore.Without | src/tasks/tasks.service.ts:36-38 | the filtered list holds exactly the tasks whose id differs and is no longer than the original |
| TaskStore.WithoutConcat | src/tasks/tasks.service.ts:37 | filtering distributes over concatenation, so kept tasks keep their relative order |
| TaskStore.WithoutSnoc | src/tasks/tasks.service.ts:37 | one step of the filter keeps the next task exactly when its id differs |
| TaskStore.WithoutAbsent | src/tasks/tasks.service.ts:36-38 | deleting an id no task has leaves the list unchanged |
| TaskStore.WithoutIds | src/tasks/tasks.service.ts:36-38 | after a delete the ids are exactly the old ids minus the deleted one |
| TaskStore.WithoutIdempotent | src/tasks/tasks.service.ts:36-38 | deleting the same id twice is the same as deleting it once |
| TaskStore.WithoutDistinct | src/tasks/tasks.service.ts:36-38 | deleting keeps ids pairwise distinct |
| TaskStore.WithoutRemovesOne | src/tasks/tasks.service.ts:36-38 | with distinct ids, deleting a present id removes exactly one task |
| TaskStore.FindAfterDelete | src/tasks/tasks.service.ts:32-38 | after deleting an id, looking it up finds nothing |
| TaskStore.FindAfterCreate | src/tasks/tasks.service.ts:20-34 | a task appended under a fresh id is what looking up that id finds |
| TaskStore.AppendFreshDistinct | src/tasks/tasks.service.ts:20-27 | appending under a fresh id keeps ids distinct and adds exactly that id |
| TaskStore.ApplyPatch | src/tasks/tasks.service.ts:42 | fields present in the patch overwrite, absent fields are kept, the id never changes |
| TaskStore.EmptyPatchIsIdentity | src/tasks/tasks.service.ts:42 | a patch with no fields leaves the task as it is |
| TaskStore.ApplyPatchIdempotent | src/tasks/tasks.service.ts:42 | applying the same patch twice equals applying it once |
| TaskStore.ApplyPatchCompose | src/tasks/tasks.service.ts:42 | two successive patches equal one merged patch in which the later fields win |
| TaskStore.PatchAtKeepsIds | src/tasks/tasks.service.ts:40-44 | patching one stored task keeps the set of ids and their distinctness |
| TaskStore.TasksService.constructor | src/tasks/tasks.service.ts:8-15 | a new store holds exactly the seed task ('1', 'Do something', DONE), and its ids are distinct |
| TaskStore.TasksService.GetAllTasks | src/tasks/tasks.service.ts:17-19 | returns the stored list in insertion order and changes nothing |
| TaskStore.TasksService.CreateTask | src/tasks/tasks.service.ts:20-30 | appends exactly one OPEN task with the given id, title and description at the end, returns it, and keeps ids distinct |
| TaskStore.TasksService.FindIndex | src/tasks/tasks.service.ts:33 | the scan stops at the first position holding the id, or at the end |
| TaskStore.TasksService.GetTaskById | src/tasks/tasks.service.ts:32-34 | returns the first task with the id, or nothing, and changes nothing |
| TaskStore.TasksService.DeleteTask | src/tasks/tasks.service.ts:36-38 | the new list is the old one without every task with that id, and keeps ids distinct |
| TaskStore.TasksService.UpdateTask | src/tasks/tasks.service.ts:40-47 | for a present id, patches the first task with it in place, returns the merged task, and leaves every other position, the length and the ids unchanged; for a missing id, fails and changes nothing |

## Left out

- `uuid()` (src/tasks/tasks.service.ts:3,22) is random and comes from a library. `CreateTask` takes the id as a parameter and requires it to be fresh. The model assumes uuid freshness rather than proving it.
- Aliasing is not modelled. `getAllTasks` returns the live array, and `createTask`, `getTaskById` and `updateTask` return the stored object itself. Later updates are therefore visible through references returned earlier. The model returns values, and an update replaces the record at its position.
- Raw JSON values are not modelled. `None` stands only for an absent field. Non-string values (such as `{status: 42}`, which `IsString` rejects), `null`, explicit `undefined` and extra properties are outside the model. Extra properties matter because `Object.assign` would copy an extra `id` property. The patch type has no `id` field, so a well-typed patch cannot change an id.
- TaskDto.UpdateTaskDtoValid: does not model a `null` status. `IsOptional` (src/tasks/dto/task.dto.ts:23) lets `{status: null}` through, and `Object.assign` (src/tasks/tasks.service.ts:42) then stores `null` as the task's status. "A task's status is always one of the three members" therefore holds only in the model, not in the source.
- TaskDto.CreateTaskDtoValid: counts the title's length in characters. The validation library's own rules for surrogate pairs and variation selectors are not part of this model.
- The class-validator decorator machinery and the NestJS dependency injection (`@Injectable`, `@Controller`) are left out. Only the predicates that the decorators declare are modelled.
- `src/tasks/tasks.controller.ts` is left out. Its only handler returns a constant greeting and never calls the service.
- The discarded `this.task.map(...)` (src/tasks/tasks.service.ts:44) has no effect, so it has no counterpart in the model.
- The commented-out sample at src/tasks/task.entity.ts:14-18 is not modelled.
- Concurrency is left out. Each operation runs to completion before the next one starts.

# apiToDo task list — a Dafny model

The repository is a small ASP.NET Core API over an in-memory task list
("Tarefas"). This project models its two parts:

- **the task store** (class `Tarefas`, module `Tarefas` in `tarefas.dfy`): a list of
  `TarefaDTO` records `(ID_TAREFA, DS_TAREFA)`, seeded with three tasks. `InserirTarefa`
  appends without checking for a duplicate id. `DeletarTarefa` removes the first record
  with a given id and does nothing when no record has it. The model keeps the list as an
  immutable `seq<Task>` and turns each mutating method into a pure function from the old
  store to the new one. `DeletarTarefa` follows the code closely. The `FirstOrDefault`
  on line 66 is computed and never used. The `Where(...).FirstOrDefault()` on line 67
  finds the record. `List.Remove(item)` on line 68 removes the first record *equal* to
  that item, which is `IndexOf` followed by `RemoveAt`, and a null item removes nothing.
  The contract of `Delete` states that this chain removes exactly the record at the
  first position whose id matches.
- **the endpoint decisions** (class `TarefasController`, module `TarefasController` in
  `controller.dfy`): each handler is a pure function from the store and the request
  input to `Response(status, store', payload)`. A body that may be null is an
  `Option<Task>`. A fresh controller owns a freshly seeded store (`NewController`), so
  the store is passed in as an explicit parameter.

`wrappers.dfy` holds the `Option` type.

Where the code does something other than its messages and names suggest, the model follows the code:

- The list endpoint checks the list for null, not for emptiness. The store's list is
  never null, so an empty store still gets 200. The 400 branch ("no task registered")
  exists but cannot be reached.
- The update endpoint never checks its body for null. A null body faults when
  `Request.ID_TAREFA` is dereferenced, before the store is touched. The catch block turns
  that fault into 400, so the store is left unchanged.
- The update endpoint's route has an id segment, but the action takes no parameter for it.
  Only the body's id matters.
- The delete endpoint is a stub. It always answers 200 and deletes nothing.

## Model

| member | source | states |
|---|---|---|
| Tarefas.Seed | apiToDo/Models/Tarefas.cs:12-34 | a new store holds exactly three tasks, with ids 1, 2, 3 in that order and the three fixed descriptions |
| Tarefas.ListAll | apiToDo/Models/Tarefas.cs:36-48 | `lstTarefas` is never null and hands back the current list unchanged |
| Tarefas.Insert | apiToDo/Models/Tarefas.cs:51-61 | the new list is one longer, the old list is its unchanged prefix, and its last element is the inserted record |
| Tarefas.MatchingAppend | apiToDo/Models/Tarefas.cs:67 | `Where` keeps store order: filtering a store made of two parts gives the first part's matches followed by the second part's |
| Tarefas.InsertMatching | apiToDo/Models/Tarefas.cs:55 | insert adds exactly one record under the inserted id, at the end of that id's records, and leaves every other id's records as they were |
| Tarefas.InsertDuplicateId | apiToDo/Models/Tarefas.cs:55 | nothing checks for uniqueness: inserting an id that is already present leaves at least two records with that id |
| Tarefas.FirstIndex | apiToDo/Models/Tarefas.cs:66 | the first position whose id matches: it holds the id and no earlier position does, and the result is absent exactly when no record has the id |
| Tarefas.FirstOrDefault | apiToDo/Models/Tarefas.cs:66 | the lookup on line 66 gives null exactly when no record has the id, and otherwise the record at the first matching position |
| Tarefas.Matching | apiToDo/Models/Tarefas.cs:67 | `Where` by id returns exactly the stored records that carry the id: every record it returns is in the store with that id, every such stored record is returned, and the result is empty exactly when no record has the id |
| Tarefas.MatchingMultiset | apiToDo/Models/Tarefas.cs:67 | `Where` by id returns each record with the id as many times as the store holds it, and no other record |
| Tarefas.MatchingHeadIsFirst | apiToDo/Controllers/TarefasController.cs:110-133 | the first record `Where` returns is the record at the first matching position |
| Tarefas.WhereFirstOrDefault | apiToDo/Models/Tarefas.cs:66-67 | the lookup on line 67 always finds the same record as the unused lookup on line 66, the first record with the id, or null when there is none; so dropping line 66 changes nothing |
| Tarefas.IndexOf | apiToDo/Models/Tarefas.cs:68 | `List.Remove` finds the first position equal to the item, and finds none exactly when the item is not in the list |
| Tarefas.RemoveAt | apiToDo/Models/Tarefas.cs:68 | removing position i shortens the list by one, keeps everything before i, and shifts everything after i down by one |
| Tarefas.Remove | apiToDo/Models/Tarefas.cs:68 | removing a null item, or an item that is not present, leaves the list unchanged. Removing a present item removes the first record equal to it and keeps the rest in order |
| Tarefas.Delete | apiToDo/Models/Tarefas.cs:62-74 | removing by equality the record that the id lookup finds: with an absent id the store is unchanged; with a present id exactly the record at the first matching position is removed and the others keep their order |
| Tarefas.DeleteMatching | apiToDo/Models/Tarefas.cs:66-68 | even with duplicates, delete lowers the number of records with that id by exactly one, and keeps every other id's records in order |
| Tarefas.DeleteMultiset | apiToDo/Models/Tarefas.cs:66-68 | delete with a present id removes one copy of the first matching record and nothing else |
| TarefasController.NewController | apiToDo/Controllers/TarefasController.cs:20-23 | every controller starts from the three-task seed |
| TarefasController.ListTasks | apiToDo/Controllers/TarefasController.cs:42-59 | listing always gives 200 with the whole store, even an empty one, and does not change the store |
| TarefasController.SearchTask | apiToDo/Controllers/TarefasController.cs:90-133 | 200 exactly when the id is positive and present. A non-positive id gives 400 (invalid id), and a positive absent id gives 400 (not found). On 200 the payload is the first record with the id. The store never changes |
| TarefasController.InsertTask | apiToDo/Controllers/TarefasController.cs:159-181 | a null body gives 400 and leaves the store unchanged; any other body gives 200 with the body appended and the updated list as payload |
| TarefasController.UpdateTask | apiToDo/Controllers/TarefasController.cs:201-231 | a null body gives 400 with the store unchanged. Any other body gives 200: the first record with the body's id is deleted, the body is appended, and the resulting list is the payload |
| TarefasController.UpdateIgnoresRouteId | apiToDo/Controllers/TarefasController.cs:201-202 | the route id has no influence on the outcome of an update |
| TarefasController.UpdateMatching | apiToDo/Controllers/TarefasController.cs:213-214 | after an update, the body's id has as many records as before, or one if it was absent, and the body is the last of them; every other id keeps exactly its records |
| TarefasController.UpdateReplacesUnique | apiToDo/Controllers/TarefasController.cs:213-221 | if the body's id appeared exactly once, afterwards the only record with that id is the body, and the previous record is gone |
| TarefasController.DeleteTask | apiToDo/Controllers/TarefasController.cs:237-243 | the delete endpoint always gives 200 with no payload and never changes the store, whatever the id |
| TarefasController.FreshList | apiToDo/Models/Tarefas.cs:12-34 | listing a fresh controller gives 200 with the three seeded tasks in order |
| TarefasController.FreshSearch | apiToDo/Controllers/TarefasController.cs:90-133 | on a fresh controller, ids 0 and -1 give 400, id 999 gives 400 not-found, and id 1 gives 200 with the "Fazer Compras" task |
| TarefasController.FreshInsert | apiToDo/Controllers/TarefasController.cs:159-181 | inserting task 4 into a fresh controller gives four tasks, the last of them task 4 |
| TarefasController.FreshUpdate | apiToDo/Controllers/TarefasController.cs:213-221 | updating task 1 of a fresh controller leaves tasks 2 and 3 followed by the new task 1 |

## Left out

- The web framework glue: routing attributes, `ActionResult`, `Ok`/`BadRequest`/`Problem`/`StatusCode` objects, JSON binding and serialisation, and the unused authorization import. Only the status code and the payload are modelled.
- The Portuguese error messages: each is replaced by an `ErrorTag`.
- The `catch (Exception)` blocks that answer 500 (`Problem`), and the one in the delete stub that answers 400. No operation in the pure model can fault, so those branches cannot be reached. The only reachable fault is the null dereference in the update endpoint, and it is modelled through `Option`.
- The `catch { throw ex; }` rethrows in `Tarefas`: no store operation can fault in the model.
- Controller lifetime and dependency injection: a new controller re-seeds its store (`NewController`), and the store is otherwise an explicit parameter. State is not kept across requests.
- Concurrency: no state is shared between requests and there is no locking.
- The `TarefaDTO` class itself is not part of this model. It is modelled as a value record `(id, desc)`. Reference equality and value equality give the same result here, because `List.Remove` on the first id-match always removes that same position, as the contract of `Delete` shows.
- A null record inside the store: every route into the store checks the body for null, or dereferences it first, so a store never holds one.
- Ids are 32-bit `int` (`int32`). They are only compared, never computed, so the model has no overflow to represent.

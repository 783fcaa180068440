/**
  The endpoint decisions of `TarefasController`, with the web framework
  stripped away.  Each handler is a pure function from the store (and the
  request's input) to a `Response`: the status code, the store after the
  request, and the payload the handler returns.  A request body that may be
  null is an `Option<Task>`.
*/
module TarefasController {
  import opened Wrappers
  import opened Tarefas

  /** The status codes the handlers can reach: `Ok` is 200, `BadRequest` is 400. */
  datatype Status = Ok | BadRequest

  /** Which of the handlers' static error messages was returned. */
  datatype ErrorTag = NoTasks | InvalidId | NotFound | InvalidBody | UpdateFailed

  datatype Payload = NoContent | TaskList(tasks: Store) | OneTask(task: Task) | Error(tag: ErrorTag)

  datatype Response = Response(status: Status, store: Store, payload: Payload)

  /** A fresh controller works on a freshly seeded store. */
  function NewController(): (s: Store)
    ensures s == Seed()
    ensures |s| == 3
  {
    Seed()
  }

  /**
    GET lstTarefas.  The guard tests the list for null, not for empty, and the
    list is never null: every store, the empty one included, gives 200.
  */
  function ListTasks(store: Store): (r: Response)
    ensures r.status == Ok
    ensures r.store == store
    ensures r.payload.TaskList? && r.payload.tasks == store
  {
    match ListAll(store)
    case None => Response(BadRequest, store, Error(NoTasks))
    case Some(tasks) => Response(Ok, store, TaskList(tasks))
  }

  /**
    GET PesquisarTarefas/{id}.  A non-positive id is refused before the store
    is consulted; otherwise the first record with the id is returned, or 400
    when there is none.
  */
  function SearchTask(store: Store, id: int32): (r: Response)
    ensures r.store == store
    ensures r.status == Ok <==> id > 0 && exists i :: 0 <= i < |store| && store[i].id == id
    ensures id <= 0 ==> r.payload == Error(InvalidId)
    ensures id > 0 && r.status == BadRequest ==> r.payload == Error(NotFound)
    ensures r.status == Ok ==>
              r.payload.OneTask? &&
              exists i :: 0 <= i < |store| && store[i] == r.payload.task && store[i].id == id
                          && forall j :: 0 <= j < i ==> store[j].id != id
  {
    if id <= 0 then Response(BadRequest, store, Error(InvalidId))
    else
      var found := Matching(store, id);
      if |found| == 0 then Response(BadRequest, store, Error(NotFound))
      else
        MatchingHeadIsFirst(store, id);
        Response(Ok, store, OneTask(found[0]))
  }

  /** POST InserirTarefas.  A null body is refused; any other body is appended. */
  function InsertTask(store: Store, body: Option<Task>): (r: Response)
    ensures body.None? ==> r == Response(BadRequest, store, Error(InvalidBody))
    ensures body.Some? ==> r.status == Ok && r.payload == TaskList(r.store)
    ensures body.Some? ==> |r.store| == |store| + 1 && r.store[..|store|] == store
                           && r.store[|store|] == body.value
  {
    match body
    case None => Response(BadRequest, store, Error(InvalidBody))
    case Some(t) =>
      var store' := Insert(store, t);
      Response(Ok, store', TaskList(store'))
  }

  /**
    PUT AtualizarTarefa/{id}.  The route has an id segment, but the action
    takes no parameter for it: the record replaced is the first one with the
    body's id, which is deleted and then the body is appended.  A null body faults at the first
    dereference, before anything is changed, and the fault becomes 400.
  */
  function UpdateTask(store: Store, routeId: int32, body: Option<Task>): (r: Response)
    ensures body.None? ==> r == Response(BadRequest, store, Error(UpdateFailed))
    ensures body.Some? ==> r.status == Ok && r.payload == TaskList(r.store)
    ensures body.Some? ==> r.store == Insert(Delete(store, body.value.id), body.value)
  {
    match body
    case None => Response(BadRequest, store, Error(UpdateFailed))
    case Some(t) =>
      var store' := Insert(Delete(store, t.id), t);
      Response(Ok, store', TaskList(store'))
  }

  /** GET DeletarTarefa?ID_TAREFA=id: a stub that deletes nothing. */
  function DeleteTask(store: Store, id: int32): (r: Response)
    ensures r.status == Ok && r.store == store && r.payload == NoContent
  {
    Response(Ok, store, NoContent)
  }

  // ---------------------------------------------------------------------
  // Properties across handlers
  // ---------------------------------------------------------------------

  /** Update depends only on the body: any two route ids give the same response. */
  lemma UpdateIgnoresRouteId(store: Store, a: int32, b: int32, body: Option<Task>)
    ensures UpdateTask(store, a, body) == UpdateTask(store, b, body)
  {
  }

  /**
    After an update, the body's id is carried by as many records as before,
    or by one if it was absent; the body is the last of them; every other id
    keeps exactly its records, in order.
  */
  lemma UpdateMatching(store: Store, routeId: int32, t: Task, other: int32)
    ensures var r := UpdateTask(store, routeId, Some(t));
            var n := |Matching(store, t.id)|;
            && |Matching(r.store, t.id)| == (if n == 0 then 1 else n)
            && Matching(r.store, t.id)[|Matching(r.store, t.id)| - 1] == t
            && (other != t.id ==> Matching(r.store, other) == Matching(store, other))
  {
    var d := Delete(store, t.id);
    DeleteMatching(store, t.id, other);
    InsertMatching(d, t, t.id);
    InsertMatching(d, t, other);
    if FirstIndex(store, t.id).None? {
      assert |Matching(store, t.id)| == 0;
    }
  }

  /**
    When the body's id was carried by exactly one record, the update leaves
    exactly one record with that id, and it is the body: the old record is
    gone unless it equalled the body.
  */
  lemma UpdateReplacesUnique(store: Store, routeId: int32, t: Task)
    requires |Matching(store, t.id)| == 1
    ensures var r := UpdateTask(store, routeId, Some(t)).store;
            && Matching(r, t.id) == [t]
            && forall k :: 0 <= k < |r| && r[k].id == t.id ==> r[k] == t
  {
    var d := Delete(store, t.id);
    DeleteMatching(store, t.id, t.id);
    InsertMatching(d, t, t.id);
    OnlyMatch(Insert(d, t), t);
  }

  // ---------------------------------------------------------------------
  // Examples on a freshly seeded controller
  // ---------------------------------------------------------------------

  /** Listing a fresh controller gives the three seeded tasks, in order. */
  lemma FreshList()
    ensures ListTasks(NewController()) ==
              Response(Ok, Seed(), TaskList([ Task(1, "Fazer Compras"),
                                              Task(2, "Fazer Atividad Faculdade"),
                                              Task(3, "Subir Projeto de Teste no GitHub") ]))
  {
  }

  /** Searching a fresh controller: 0 and -1 are invalid, 999 is absent, 1 is the first seed. */
  lemma FreshSearch()
    ensures SearchTask(NewController(), 0).status == BadRequest
    ensures SearchTask(NewController(), -1).status == BadRequest
    ensures SearchTask(NewController(), 999) == Response(BadRequest, Seed(), Error(NotFound))
    ensures SearchTask(NewController(), 1) == Response(Ok, Seed(), OneTask(Task(1, "Fazer Compras")))
  {
    assert forall j :: 0 <= j < |Seed()| ==> Seed()[j].id != 999;
  }

  /** Inserting task 4 into a fresh controller gives four tasks, the last of them task 4. */
  lemma FreshInsert()
    ensures var r := InsertTask(NewController(), Some(Task(4, "X")));
            r.status == Ok && |r.store| == 4 && r.store[3] == Task(4, "X")
  {
  }

  /** Updating task 1 of a fresh controller leaves one task 1, the new one, at the end. */
  lemma FreshUpdate()
    ensures var r := UpdateTask(NewController(), 1, Some(Task(1, "Y")));
            && r.status == Ok
            && r.store == [ Task(2, "Fazer Atividad Faculdade"),
                            Task(3, "Subir Projeto de Teste no GitHub"),
                            Task(1, "Y") ]
  {
    var s := Seed();
    assert FirstIndex(s, 1) == Some(0);
    assert Delete(s, 1) == s[1..];
  }
}

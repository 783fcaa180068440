/**
  The in-memory task store of the API (class `Tarefas`).

  The store is a `List<TarefaDTO>`; here it is an immutable sequence of
  `Task` records and every mutating method becomes a pure function from the
  old store to the new one.  A store never holds a null record: the only
  ways in are the seed and the two controller paths that insert a body
  after it has been checked (or dereferenced) for null.
*/
module Tarefas {
  import opened Wrappers

  /** C#'s `int`.  Ids are only compared, never computed, so no wrap-around arises. */
  newtype int32 = x: int | -0x8000_0000 <= x < 0x8000_0000

  /** A `TarefaDTO`: `ID_TAREFA` and `DS_TAREFA`. */
  datatype Task = Task(id: int32, desc: string)

  type Store = seq<Task>

  /** The three records every new `Tarefas` instance starts with, in this order. */
  function Seed(): (r: Store)
    ensures |r| == 3
    ensures forall i :: 0 <= i < |r| ==> r[i].id as int == i + 1
    ensures r[0].desc == "Fazer Compras"
    ensures r[1].desc == "Fazer Atividad Faculdade"
    ensures r[2].desc == "Subir Projeto de Teste no GitHub"
  {
    [ Task(1, "Fazer Compras"),
      Task(2, "Fazer Atividad Faculdade"),
      Task(3, "Subir Projeto de Teste no GitHub") ]
  }

  /** `lstTarefas`: hands out the live list, which is never null. */
  function ListAll(s: Store): (r: Option<Store>)
    ensures r.Some? && r.value == s
  {
    Some(s)
  }

  /** `InserirTarefa`: `List.Add`, with no check on the id already being present. */
  function Insert(s: Store, t: Task): (r: Store)
    ensures |r| == |s| + 1
    ensures r[..|s|] == s
    ensures r[|s|] == t
  {
    s + [t]
  }

  // ---------------------------------------------------------------------
  // Searching by id
  // ---------------------------------------------------------------------

  /** The position of the first record carrying `id`: the reference meaning of "first match". */
  function FirstIndex(s: Store, id: int32): (r: Option<nat>)
    ensures r.Some? ==> r.value < |s| && s[r.value].id == id
    ensures r.Some? ==> forall j :: 0 <= j < r.value ==> s[j].id != id
    ensures r.None? <==> forall j :: 0 <= j < |s| ==> s[j].id != id
  {
    if |s| == 0 then None
    else if s[0].id == id then Some(0)
    else
      match FirstIndex(s[1..], id)
      case None => None
      case Some(i) => Some(i + 1)
  }

  /** `Where(x => x.ID_TAREFA == id)`: the records carrying `id`, in store order. */
  function Matching(s: Store, id: int32): (r: Store)
    ensures |r| <= |s|
    ensures forall i :: 0 <= i < |r| ==> r[i].id == id
    ensures forall x :: x in r <==> x in s && x.id == id
    ensures |r| == 0 <==> forall j :: 0 <= j < |s| ==> s[j].id != id
  {
    if |s| == 0 then []
    else (if s[0].id == id then [s[0]] else []) + Matching(s[1..], id)
  }

  /** `FirstOrDefault(x => x.ID_TAREFA == id)`, null being `None`. */
  function FirstOrDefault(s: Store, id: int32): (r: Option<Task>)
    ensures r.None? <==> forall j :: 0 <= j < |s| ==> s[j].id != id
    ensures r.Some? ==> exists i :: 0 <= i < |s| && s[i] == r.value && s[i].id == id
                                    && forall j :: 0 <= j < i ==> s[j].id != id
  {
    match FirstIndex(s, id)
    case None => None
    case Some(i) => Some(s[i])
  }

  /**
    `Where` keeps every record carrying `id` as often as the store holds it,
    and no other record.
  */
  lemma {:induction false} MatchingMultiset(s: Store, id: int32)
    ensures forall x :: multiset(Matching(s, id))[x] == if x.id == id then multiset(s)[x] else 0
  {
    if |s| > 0 {
      MatchingMultiset(s[1..], id);
      assert s == [s[0]] + s[1..];
    }
  }

  /** The head of the filtered records is the record at the first matching position. */
  lemma {:induction false} MatchingHeadIsFirst(s: Store, id: int32)
    ensures FirstIndex(s, id).Some? ==> Matching(s, id)[0] == s[FirstIndex(s, id).value]
  {
    if |s| > 0 && s[0].id != id {
      MatchingHeadIsFirst(s[1..], id);
      assert Matching(s, id) == Matching(s[1..], id);
    }
  }

  /**
    `Where(x => x.ID_TAREFA == id).FirstOrDefault()`, the lookup `DeletarTarefa`
    acts on.  It finds the same record as the `FirstOrDefault` computed (and
    dropped) just before it, so dropping that earlier lookup changes nothing.
  */
  function WhereFirstOrDefault(s: Store, id: int32): (r: Option<Task>)
    ensures r == FirstOrDefault(s, id)
  {
    MatchingHeadIsFirst(s, id);
    var found := Matching(s, id);
    if |found| == 0 then None else Some(found[0])
  }

  // ---------------------------------------------------------------------
  // Removing
  // ---------------------------------------------------------------------

  /** `List.IndexOf(item)`: the first position holding a record equal to `x`. */
  function IndexOf(s: Store, x: Task): (r: Option<nat>)
    ensures r.Some? ==> r.value < |s| && s[r.value] == x
    ensures r.Some? ==> forall j :: 0 <= j < r.value ==> s[j] != x
    ensures r.None? <==> x !in s
  {
    if |s| == 0 then None
    else if s[0] == x then Some(0)
    else
      match IndexOf(s[1..], x)
      case None => None
      case Some(i) => Some(i + 1)
  }

  /** `List.RemoveAt(i)`. */
  function RemoveAt(s: Store, i: nat): (r: Store)
    requires i < |s|
    ensures |r| == |s| - 1
    ensures forall j :: 0 <= j < i ==> r[j] == s[j]
    ensures forall j :: i <= j < |r| ==> r[j] == s[j + 1]
  {
    s[..i] + s[i + 1..]
  }

  /** `List.Remove(item)`: drops the first record equal to `item`; a null item matches nothing. */
  function Remove(s: Store, item: Option<Task>): (r: Store)
    ensures item.None? ==> r == s
    ensures item.Some? && item.value !in s ==> r == s
    ensures item.Some? && item.value in s ==> |r| == |s| - 1
    ensures item.Some? && item.value in s ==> r == RemoveAt(s, IndexOf(s, item.value).value)
  {
    match item
    case None => s
    case Some(x) =>
      match IndexOf(s, x)
      case None => s
      case Some(i) => RemoveAt(s, i)
  }

  /**
    `DeletarTarefa`.  The `FirstOrDefault` on the first line of the method is
    computed and dropped, so it has no effect; the record removed is the one
    found by `Where(...).FirstOrDefault()`, removed by equality.  Since no
    earlier record can equal it (it would carry the same id), this removes
    exactly the first record with the id.
  */
  function Delete(s: Store, id: int32): (r: Store)
    ensures FirstIndex(s, id).None? ==> r == s
    ensures FirstIndex(s, id).Some? ==> r == RemoveAt(s, FirstIndex(s, id).value)
  {
    var item := WhereFirstOrDefault(s, id);
    Remove(s, item)
  }

  // ---------------------------------------------------------------------
  // What insert and delete do to the records of each id
  // ---------------------------------------------------------------------

  /** Filtering by id distributes over concatenation. */
  lemma {:induction false} MatchingAppend(a: Store, b: Store, id: int32)
    ensures Matching(a + b, id) == Matching(a, id) + Matching(b, id)
  {
    if |a| == 0 {
      assert a + b == b;
    } else {
      assert (a + b)[1..] == a[1..] + b;
      MatchingAppend(a[1..], b, id);
    }
  }

  /**
    Insert adds one record of the inserted id, even when that id is already
    present, and leaves the records of every other id as they were.
  */
  lemma InsertMatching(s: Store, t: Task, id: int32)
    ensures id == t.id ==> Matching(Insert(s, t), id) == Matching(s, id) + [t]
    ensures id != t.id ==> Matching(Insert(s, t), id) == Matching(s, id)
  {
    MatchingAppend(s, [t], id);
    assert Matching([t], id) == (if t.id == id then [t] else []) + Matching([], id);
  }

  /** With no uniqueness check, inserting an id already present leaves two records with it. */
  lemma InsertDuplicateId(s: Store, t: Task)
    requires exists i :: 0 <= i < |s| && s[i].id == t.id
    ensures |Matching(Insert(s, t), t.id)| >= 2
  {
    InsertMatching(s, t, t.id);
  }

  /** The records of `id` among a single record. */
  lemma MatchingSingle(t: Task, id: int32)
    ensures Matching([t], id) == if t.id == id then [t] else []
  {
    assert [t][1..] == [];
  }

  /** Splitting the store around position `i` splits its records of each id the same way. */
  lemma MatchingAround(s: Store, i: nat, id: int32)
    requires i < |s|
    ensures Matching(s, id) == Matching(s[..i], id) + Matching([s[i]], id) + Matching(s[i + 1..], id)
    ensures Matching(RemoveAt(s, i), id) == Matching(s[..i], id) + Matching(s[i + 1..], id)
  {
    assert s == s[..i] + ([s[i]] + s[i + 1..]);
    MatchingAppend(s[..i], [s[i]] + s[i + 1..], id);
    MatchingAppend([s[i]], s[i + 1..], id);
    MatchingAppend(s[..i], s[i + 1..], id);
  }

  /** Removing a record of `id` drops exactly one of `id`'s records. */
  lemma RemoveAtMatchingSame(s: Store, i: nat, id: int32)
    requires i < |s| && s[i].id == id
    ensures |Matching(RemoveAt(s, i), id)| == |Matching(s, id)| - 1
  {
    MatchingAround(s, i, id);
    MatchingSingle(s[i], id);
  }

  /** Removing a record of `id` keeps the records of every other id, in order. */
  lemma RemoveAtMatchingOther(s: Store, i: nat, id: int32, other: int32)
    requires i < |s| && s[i].id == id && other != id
    ensures Matching(RemoveAt(s, i), other) == Matching(s, other)
  {
    MatchingAround(s, i, other);
    MatchingSingle(s[i], other);
  }

  /**
    Delete lowers the number of records carrying `id` by exactly one when
    there is one (duplicates included), and keeps the records of every other
    id, in order.
  */
  lemma DeleteMatching(s: Store, id: int32, other: int32)
    ensures FirstIndex(s, id).Some? ==> |Matching(Delete(s, id), id)| == |Matching(s, id)| - 1
    ensures other != id ==> Matching(Delete(s, id), other) == Matching(s, other)
  {
    var fi := FirstIndex(s, id);
    if fi.Some? {
      RemoveAtMatchingSame(s, fi.value, id);
      if other != id {
        RemoveAtMatchingOther(s, fi.value, id, other);
      }
    }
  }

  /** Removing position `i` takes exactly one copy of `s[i]` out of the store's contents. */
  lemma RemoveAtMultiset(s: Store, i: nat)
    requires i < |s|
    ensures multiset(RemoveAt(s, i)) + multiset{s[i]} == multiset(s)
  {
    assert s == s[..i] + [s[i]] + s[i + 1..];
  }

  /** Delete with a present id removes exactly one copy of the first matching record. */
  lemma DeleteMultiset(s: Store, id: int32)
    ensures FirstIndex(s, id).Some? ==>
              multiset(Delete(s, id)) + multiset{s[FirstIndex(s, id).value]} == multiset(s)
  {
    var fi := FirstIndex(s, id);
    if fi.Some? {
      RemoveAtMultiset(s, fi.value);
    }
  }

  /** When `t` is the only record carrying its id, every stored record with that id is `t`. */
  lemma OnlyMatch(s: Store, t: Task)
    requires Matching(s, t.id) == [t]
    ensures forall k :: 0 <= k < |s| && s[k].id == t.id ==> s[k] == t
  {
    forall k | 0 <= k < |s| && s[k].id == t.id
      ensures s[k] == t
    {
      assert s[k] in Matching(s, t.id);
    }
  }
}

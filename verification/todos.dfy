/**
 * The "todos" table and the five Convex handlers over it (convex/todos.ts).
 * The table is an immutable value held newest first; each handler is a pure
 * function from the table before the call to the table after it, or to the
 * error the handler throws. Each handler is one atomic step.
 */
module Todos {
  import opened Wrappers

  /** A document id of the table. The database assigns `_id` and
      `_creationTime` itself; here both are one number drawn from a counter,
      so a larger id always means a later insert. */
  type Id = nat

  /** One document `{ _id, text, isCompleted }`. */
  datatype Todo = Todo(id: Id, text: string, isCompleted: bool)

  /** The table, newest record first, and the id the next insert receives. */
  datatype Store = Store(todos: seq<Todo>, nextId: Id)

  /** What a handler can throw. */
  datatype StoreError =
    | TodoNotFound         // the ConvexError raised by toggleTodos
    | NonexistentDocument  // the database's own error when deleting a missing id

  /** The table before anything has been inserted. */
  const Empty: Store := Store([], 0)

  /** Ids strictly decrease along the sequence: newest first, no id twice. */
  predicate NewestFirst(ts: seq<Todo>) {
    forall i, j :: 0 <= i < j < |ts| ==> ts[i].id > ts[j].id
  }

  /** The database's own guarantee: records newest first, every id already handed out. */
  predicate Valid(s: Store) {
    && NewestFirst(s.todos)
    && forall i :: 0 <= i < |s.todos| ==> s.todos[i].id < s.nextId
  }

  /** No record carries the id. */
  predicate Absent(ts: seq<Todo>, id: Id) {
    forall i :: 0 <= i < |ts| ==> ts[i].id != id
  }

  /** Position of the first record with the given id, or `|ts|` when there is none
      (the lookup behind `ctx.db.get`, `ctx.db.patch` and `ctx.db.delete`). */
  function Find(ts: seq<Todo>, id: Id): (k: nat)
    ensures k <= |ts|
    ensures k < |ts| ==> ts[k].id == id
    ensures forall j :: 0 <= j < k ==> ts[j].id != id
    ensures k == |ts| <==> Absent(ts, id)
  {
    if ts == [] then 0
    else if ts[0].id == id then 0
    else 1 + Find(ts[1..], id)
  }

  /** The records whose id differs from `id`, in their original order. */
  function Without(ts: seq<Todo>, id: Id): (r: seq<Todo>)
    ensures |r| <= |ts|
    ensures forall t :: t in r <==> t in ts && t.id != id
  {
    if ts == [] then []
    else (if ts[0].id == id then [] else [ts[0]]) + Without(ts[1..], id)
  }

  /** `getTodos`: every record, in descending creation order. */
  function GetTodos(s: Store): (r: seq<Todo>)
    ensures multiset(r) == multiset(s.todos)
    ensures Valid(s) ==> NewestFirst(r)
  {
    s.todos
  }

  /** `addTodos`: insert `{ text, isCompleted: false }` under a fresh id. The
      argument validator accepts every string, the empty one included. */
  function AddTodos(s: Store, text: string): (r: Store)
    ensures |r.todos| == |s.todos| + 1
    ensures r.todos[0].text == text && !r.todos[0].isCompleted
    ensures r.todos[1..] == s.todos
    ensures Valid(s) ==> Absent(s.todos, r.todos[0].id) && Valid(r)
  {
    Store([Todo(s.nextId, text, false)] + s.todos, s.nextId + 1)
  }

  /** `toggleTodos`: flip `isCompleted` of the record with the given id, or throw
      "Todo not found". The `isCompleted` argument is required and never read. */
  function ToggleTodos(s: Store, id: Id, isCompleted: bool): (r: Result<Store, StoreError>)
    ensures r.Failure? <==> Absent(s.todos, id)
    ensures r.Failure? ==> r.error == TodoNotFound
    ensures r.Success? ==> |r.value.todos| == |s.todos| && r.value.nextId == s.nextId
    ensures r.Success? ==> forall i :: 0 <= i < |s.todos| ==>
              r.value.todos[i].id == s.todos[i].id && r.value.todos[i].text == s.todos[i].text
    ensures r.Success? && Valid(s) ==> forall i :: 0 <= i < |s.todos| ==>
              r.value.todos[i].isCompleted == (s.todos[i].isCompleted != (s.todos[i].id == id))
    ensures r.Success? && Valid(s) ==> Valid(r.value)
  {
    var k := Find(s.todos, id);
    if k == |s.todos| then Failure(TodoNotFound)
    else
      var todo := s.todos[k];
      Success(s.(todos := s.todos[k := todo.(isCompleted := !todo.isCompleted)]))
  }

  /** `deleteTask`: remove the record with the given id; the database throws
      when there is none. */
  function DeleteTask(s: Store, id: Id): (r: Result<Store, StoreError>)
    ensures r.Failure? <==> Absent(s.todos, id)
    ensures r.Failure? ==> r.error == NonexistentDocument
    ensures r.Success? ==> |r.value.todos| == |s.todos| - 1 && r.value.nextId == s.nextId
    ensures r.Success? && Valid(s) ==> r.value.todos == Without(s.todos, id) && Valid(r.value)
  {
    var k := Find(s.todos, id);
    if k == |s.todos| then Failure(NonexistentDocument)
    else
      SpliceKeepsOrder(s.todos, k);
      SpliceIsWithout(s.todos, k);
      Success(s.(todos := s.todos[..k] + s.todos[k + 1..]))
  }

  /** Cutting out one record shifts the later ones down by one position and
      keeps newest-first order. */
  lemma SpliceKeepsOrder(ts: seq<Todo>, k: nat)
    requires k < |ts|
    ensures forall i :: 0 <= i < |ts| - 1 ==>
              (ts[..k] + ts[k + 1..])[i] == if i < k then ts[i] else ts[i + 1]
    ensures NewestFirst(ts) ==> NewestFirst(ts[..k] + ts[k + 1..])
  {
    var r := ts[..k] + ts[k + 1..];
    assert forall i :: 0 <= i < |r| ==> r[i] == if i < k then ts[i] else ts[i + 1];
  }

  /** In a newest-first sequence, cutting out the record at `k` is the same as
      filtering out its id. */
  lemma {:induction false} SpliceIsWithout(ts: seq<Todo>, k: nat)
    requires k < |ts|
    ensures NewestFirst(ts) ==> ts[..k] + ts[k + 1..] == Without(ts, ts[k].id)
  {
    if NewestFirst(ts) {
      var id := ts[k].id;
      if k == 0 {
        NoMatchWithoutIsIdentity(ts[1..], id);
        assert ts[..0] + ts[1..] == ts[1..];
      } else {
        var tail := ts[1..];
        assert tail[k - 1] == ts[k];
        SpliceIsWithout(tail, k - 1);
        assert ts[0].id != id;
        SpliceOfTail(ts, k);
      }
    }
  }

  /** Cutting position `k > 0` out of a sequence keeps its head in front of the
      tail with position `k - 1` cut out. */
  lemma SpliceOfTail(ts: seq<Todo>, k: nat)
    requires 0 < k < |ts|
    ensures ts[..k] + ts[k + 1..] == [ts[0]] + (ts[1..][..k - 1] + ts[1..][k..])
  {
    assert ts[..k] == [ts[0]] + ts[1..][..k - 1];
    assert ts[k + 1..] == ts[1..][k..];
  }

  lemma {:induction false} NoMatchWithoutIsIdentity(ts: seq<Todo>, id: Id)
    requires forall i :: 0 <= i < |ts| ==> ts[i].id != id
    ensures Without(ts, id) == ts
  {
    if ts != [] {
      NoMatchWithoutIsIdentity(ts[1..], id);
    }
  }

  /** Deleting the newest record leaves the rest of the table. */
  lemma DeleteFirst(s: Store)
    ensures s.todos != [] ==> DeleteTask(s, s.todos[0].id) == Success(Store(s.todos[1..], s.nextId))
  {
    if s.todos != [] {
      var id := s.todos[0].id;
      assert Find(s.todos, id) == 0;
      assert s.todos[..0] + s.todos[1..] == s.todos[1..];
    }
  }

  /** What `clearAllTodos` returns besides the emptied table. */
  datatype Cleared = Cleared(store: Store, deleteCount: nat)

  /** Delete the records of `batch` one after another; the first failing delete
      fails the whole batch. A batch that lists the newest records of the table
      in order deletes exactly those. */
  function DeleteEach(s: Store, batch: seq<Todo>): (r: Result<Store, StoreError>)
    ensures |batch| <= |s.todos| && batch == s.todos[..|batch|] ==>
              r == Success(Store(s.todos[|batch|..], s.nextId))
    decreases |batch|
  {
    if batch == [] then Success(s)
    else
      match DeleteTask(s, batch[0].id)
      case Failure(e) => Failure(e)
      case Success(rest) =>
        DeleteEachStep(s, batch, rest);
        DeleteEach(rest, batch[1..])
  }

  /** One step of `DeleteEach` on a batch that lists the newest records. */
  lemma DeleteEachStep(s: Store, batch: seq<Todo>, rest: Store)
    requires batch != [] && DeleteTask(s, batch[0].id) == Success(rest)
    ensures |batch| <= |s.todos| && batch == s.todos[..|batch|] ==>
              && rest == Store(s.todos[1..], s.nextId)
              && |batch[1..]| <= |rest.todos| && batch[1..] == rest.todos[..|batch| - 1]
              && rest.todos[|batch| - 1..] == s.todos[|batch|..]
  {
  }

  /** `clearAllTodos`: collect every record, delete each one, and report how
      many were collected. */
  function ClearAllTodos(s: Store): (r: Result<Cleared, StoreError>)
    ensures r.Success?
    ensures r.value.store.todos == [] && r.value.store.nextId == s.nextId
    ensures r.value.deleteCount == |s.todos|
  {
    var todos := GetTodos(s);
    match DeleteEach(s, todos)
    case Failure(e) => Failure(e)
    case Success(emptied) => Success(Cleared(emptied, |todos|))
  }

  /** A mutation as the client issues it. */
  datatype Mutation =
    | Add(text: string)
    | Toggle(id: Id, isCompleted: bool)
    | Delete(id: Id)
    | ClearAll

  /** The table once a handler has settled: a mutation that throws is a
      transaction that rolls back, so the table is the one before the call. */
  function Committed(s: Store, r: Result<Store, StoreError>): (t: Store)
    ensures r.Failure? ==> t == s
    ensures r.Success? ==> t == r.value
  {
    match r
    case Success(after) => after
    case Failure(_) => s
  }

  function Apply(s: Store, m: Mutation): (r: Store)
    ensures Valid(s) ==> Valid(r)
  {
    match m
    case Add(text) => AddTodos(s, text)
    case Toggle(id, c) => Committed(s, ToggleTodos(s, id, c))
    case Delete(id) => Committed(s, DeleteTask(s, id))
    case ClearAll =>
      match ClearAllTodos(s)
      case Success(c) => c.store
      case Failure(_) => s
  }

  /** The table after a sequence of mutations, first to last. */
  function Run(s: Store, ms: seq<Mutation>): (r: Store)
    ensures Valid(s) ==> Valid(r)
    ensures r.nextId >= s.nextId
    decreases |ms|
  {
    if ms == [] then s else Run(Apply(s, ms[0]), ms[1..])
  }

  /** Every table the handlers can produce from the empty one keeps the
      database's guarantee: unique ids, newest first. */
  lemma ReachableTablesAreValid(ms: seq<Mutation>)
    ensures Valid(Run(Empty, ms))
  {
  }

  /** The records a run of inserts creates, as the listing shows them: the
      first text, under id `first`, comes last. */
  function Inserted(first: Id, texts: seq<string>): (r: seq<Todo>)
    ensures |r| == |texts|
    decreases |texts|
  {
    if texts == [] then []
    else Inserted(first + 1, texts[1..]) + [Todo(first, texts[0], false)]
  }

  /** Position `i` of `Inserted` holds the `i`-th latest insert: text verbatim,
      not completed, ids counting down from the last one handed out. */
  lemma {:induction false} InsertedLatestFirst(first: Id, texts: seq<string>)
    ensures forall i :: 0 <= i < |texts| ==>
      Inserted(first, texts)[i] == Todo(first + |texts| - 1 - i, texts[|texts| - 1 - i], false)
    decreases |texts|
  {
    if texts != [] {
      var n := |texts|;
      InsertedLatestFirst(first + 1, texts[1..]);
      forall i | 0 <= i < n - 1
        ensures Inserted(first, texts)[i] == Todo(first + n - 1 - i, texts[n - 1 - i], false)
      {
        assert texts[1..][n - 2 - i] == texts[n - 1 - i];
      }
    }
  }

  /** Listing after a run of inserts shows them latest first, ahead of the
      records that were there before, which keep their order. */
  lemma {:induction false} ListingShowsLatestInsertFirst(s: Store, texts: seq<string>)
    ensures GetTodos(Run(s, Adds(texts))) == Inserted(s.nextId, texts) + s.todos
    decreases |texts|
  {
    if texts == [] {
      assert Adds(texts) == [];
      assert Inserted(s.nextId, texts) + s.todos == s.todos;
    } else {
      var s1 := AddTodos(s, texts[0]);
      var head := [Todo(s.nextId, texts[0], false)];
      var later := Inserted(s.nextId + 1, texts[1..]);
      calc {
        GetTodos(Run(s, Adds(texts)));
      == { RunAddsStep(s, texts); }
        GetTodos(Run(s1, Adds(texts[1..])));
      == { ListingShowsLatestInsertFirst(s1, texts[1..]); }
        Inserted(s1.nextId, texts[1..]) + s1.todos;
      == { assert s1 == Store(head + s.todos, s.nextId + 1); }
        later + (head + s.todos);
      == { assert later + (head + s.todos) == (later + head) + s.todos; }
        Inserted(s.nextId, texts) + s.todos;
      }
    }
  }

  /** Running a sequence of inserts is inserting the first and running the rest. */
  lemma RunAddsStep(s: Store, texts: seq<string>)
    requires texts != []
    ensures Run(s, Adds(texts)) == Run(AddTodos(s, texts[0]), Adds(texts[1..]))
  {
    assert Adds(texts)[1..] == Adds(texts[1..]);
    assert Apply(s, Adds(texts)[0]) == AddTodos(s, texts[0]);
  }

  /** The mutations inserting `texts`, in order. */
  function Adds(texts: seq<string>): (ms: seq<Mutation>)
    ensures |ms| == |texts|
    ensures forall i :: 0 <= i < |texts| ==> ms[i] == Add(texts[i])
  {
    seq(|texts|, i requires 0 <= i < |texts| => Add(texts[i]))
  }

  /** Deleting the record an insert has just created gives back the records
      that were there before; its id is not handed out again. */
  lemma DeleteUndoesAdd(s: Store, text: string)
    ensures DeleteTask(AddTodos(s, text), s.nextId) == Success(s.(nextId := s.nextId + 1))
  {
    var a := Store([Todo(s.nextId, text, false)] + s.todos, s.nextId + 1);
    assert AddTodos(s, text) == a;
    DeleteFirst(a);
    assert a.todos[1..] == s.todos;
  }

  /** Toggling the same record twice restores the table. */
  lemma ToggleTwiceRestores(s: Store, id: Id, first: bool, second: bool)
    requires ToggleTodos(s, id, first).Success?
    ensures ToggleTodos(ToggleTodos(s, id, first).value, id, second) == Success(s)
  {
    var k := Find(s.todos, id);
    var t := ToggleTodos(s, id, first).value;
    assert t.todos[k].id == id;
    assert t.todos[k := s.todos[k]] == s.todos;
  }

  /** Toggling or deleting an id no record carries fails with the handler's
      error, and the settled table is the one before the call. */
  lemma MissingIdLeavesTable(s: Store, id: Id, flag: bool)
    requires Absent(s.todos, id)
    ensures ToggleTodos(s, id, flag) == Failure(TodoNotFound)
    ensures DeleteTask(s, id) == Failure(NonexistentDocument)
    ensures Apply(s, Toggle(id, flag)) == s && Apply(s, Delete(id)) == s
  {
  }

  /** The `isCompleted` argument of `toggleTodos` does not influence the outcome. */
  lemma ToggleIgnoresFlagArgument(s: Store, id: Id)
    ensures ToggleTodos(s, id, true) == ToggleTodos(s, id, false)
  {
  }
}

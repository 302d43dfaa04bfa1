/**
 * The progress statistics of the screen header (components/Header.tsx):
 * completed count, total count and completion percentage over the listing,
 * which is absent while the query is still loading.
 */
module Header {
  import opened Wrappers
  import opened Todos

  predicate AllCompleted(ts: seq<Todo>) {
    forall i :: 0 <= i < |ts| ==> ts[i].isCompleted
  }

  predicate NoneCompleted(ts: seq<Todo>) {
    forall i :: 0 <= i < |ts| ==> !ts[i].isCompleted
  }

  /** Positions of the completed records: a reference for what is counted. */
  function CompletedPositions(ts: seq<Todo>): set<nat> {
    set i: nat | i < |ts| && ts[i].isCompleted
  }

  /** `todos.filter((todo) => todo.isCompleted)`. */
  function Completed(ts: seq<Todo>): (r: seq<Todo>)
    ensures |r| <= |ts|
    ensures forall t :: t in r <==> t in ts && t.isCompleted
    ensures |r| == |ts| <==> AllCompleted(ts)
    ensures |r| == 0 <==> NoneCompleted(ts)
  {
    if ts == [] then []
    else
      var last := ts[|ts| - 1];
      SplitLast(ts);
      Completed(ts[..|ts| - 1]) + (if last.isCompleted then [last] else [])
  }

  /** A non-empty sequence is its prefix plus its last record, for membership
      and for both completion predicates. */
  lemma SplitLast(ts: seq<Todo>)
    requires ts != []
    ensures var init, last := ts[..|ts| - 1], ts[|ts| - 1];
      && ts == init + [last]
      && (AllCompleted(ts) <==> AllCompleted(init) && last.isCompleted)
      && (NoneCompleted(ts) <==> NoneCompleted(init) && !last.isCompleted)
  {
    var init := ts[..|ts| - 1];
    assert forall i :: 0 <= i < |init| ==> init[i] == ts[i];
  }

  /** The filter keeps exactly one record per completed position. */
  lemma {:induction false} CompletedCountsPositions(ts: seq<Todo>)
    ensures |Completed(ts)| == |CompletedPositions(ts)|
  {
    if ts != [] {
      var n := |ts| - 1;
      CompletedCountsPositions(ts[..n]);
      PositionsOfLast(ts);
      assert n !in CompletedPositions(ts[..n]);
    }
  }

  /** The completed positions of a sequence are those of all but its last
      record, plus the last position when that record is completed. */
  lemma PositionsOfLast(ts: seq<Todo>)
    requires ts != []
    ensures var n := |ts| - 1;
      CompletedPositions(ts)
        == CompletedPositions(ts[..n]) + (if ts[n].isCompleted then {n} else {})
  {
    var n := |ts| - 1;
    var init := ts[..n];
    forall i: nat | i < n
      ensures ts[i] == init[i]
    {
    }
  }

  /** `completedCount`: the number of completed tasks, 0 while loading. */
  function CompletedCount(todos: Option<seq<Todo>>): (n: nat)
    ensures todos.None? ==> n == 0
    ensures todos.Some? ==> n == |CompletedPositions(todos.value)|
  {
    match todos
    case None => 0
    case Some(ts) => CompletedCountsPositions(ts); |Completed(ts)|
  }

  /** `totalCount`: the number of tasks, 0 while loading; never below the
      completed count. */
  function TotalCount(todos: Option<seq<Todo>>): (n: nat)
    ensures todos.Some? ==> n == |todos.value|
    ensures todos.None? ==> n == 0
    ensures CompletedCount(todos) <= n
  {
    match todos
    case None => 0
    case Some(ts) => |ts|
  }

  /** `progressPercentage`, with exact rational arithmetic in place of floating
      point: no division when there are no tasks, always within [0, 100],
      100 exactly when there is work and all of it is done. */
  function ProgressPercentage(todos: Option<seq<Todo>>): (p: real)
    ensures TotalCount(todos) == 0 ==> p == 0.0
    ensures 0.0 <= p <= 100.0
    ensures p == 100.0 <==> todos.Some? && |todos.value| > 0 && AllCompleted(todos.value)
    ensures p == 0.0 <==> todos.None? || NoneCompleted(todos.value)
    ensures todos.Some? && |todos.value| > 0 ==>
              PercentOf(p, |CompletedPositions(todos.value)|, |todos.value|)
  {
    var completed := CompletedCount(todos);
    var total := TotalCount(todos);
    if total > 0 then
      assert todos.Some? && completed == |Completed(todos.value)|;
      Percent(completed, total)
    else 0.0
  }

  /** `p` is `part` expressed as a percentage of `whole`. */
  predicate PercentOf(p: real, part: nat, whole: nat)
  {
    p * (whole as real) == 100.0 * (part as real)
  }

  /** `part` as a percentage of `whole`: within [0, 100], and at the ends
      exactly when nothing or everything is counted. */
  function Percent(part: nat, whole: nat): (p: real)
    requires 0 < whole && part <= whole
    ensures 0.0 <= p <= 100.0
    ensures p == 100.0 <==> part == whole
    ensures p == 0.0 <==> part == 0
    ensures PercentOf(p, part, whole)
  {
    (part as real / whole as real) * 100.0
  }

  /** Flipping the record at one position moves the number of completed
      positions by one, in the direction of the flip. */
  lemma FlipMovesCompletedPositions(ts: seq<Todo>, k: nat)
    requires k < |ts|
    ensures var flipped := ts[k := ts[k].(isCompleted := !ts[k].isCompleted)];
      |CompletedPositions(flipped)| == if ts[k].isCompleted then |CompletedPositions(ts)| - 1
                                       else |CompletedPositions(ts)| + 1
  {
    var flipped := ts[k := ts[k].(isCompleted := !ts[k].isCompleted)];
    var before := CompletedPositions(ts);
    var after := CompletedPositions(flipped);
    if ts[k].isCompleted {
      assert after == before - {k};
    } else {
      assert after == before + {k};
    }
  }

  /** Toggling one task moves the completed count by exactly one, in the
      direction of the flip, and leaves the total alone. */
  lemma ToggleShiftsCompletedCount(s: Store, id: Id, flag: bool)
    requires ToggleTodos(s, id, flag).Success?
    ensures var before := Some(GetTodos(s));
      var after := Some(GetTodos(ToggleTodos(s, id, flag).value));
      var wasCompleted := s.todos[Find(s.todos, id)].isCompleted;
      && TotalCount(after) == TotalCount(before)
      && CompletedCount(after) == if wasCompleted then CompletedCount(before) - 1
                                   else CompletedCount(before) + 1
  {
    var k := Find(s.todos, id);
    var t := ToggleTodos(s, id, flag).value;
    assert t.todos == s.todos[k := s.todos[k].(isCompleted := !s.todos[k].isCompleted)];
    FlipMovesCompletedPositions(s.todos, k);
  }
}

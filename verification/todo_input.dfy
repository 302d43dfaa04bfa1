/**
 * The add row of the to-do screen (components/TodoInput.tsx): a text buffer,
 * a button that is disabled while the trimmed buffer is empty, and a submit
 * handler that sends the buffer as typed and clears it only once the add has
 * succeeded.
 */
module TodoInput {
  import opened Wrappers
  import opened JsString
  import Todos

  /** How the last press of the add button ended. */
  datatype Outcome =
    | Idle       // nothing submitted yet
    | Added      // the awaited add resolved
    | AddFailed  // the awaited add rejected; the user is told "Failed to add todo"

  /** The row's state: the buffer `newTodo` and the last submit outcome. */
  datatype InputState = InputState(newTodo: string, outcome: Outcome)

  const Initial: InputState := InputState("", Idle)

  /** How the awaited `addTodo` call settles. */
  datatype CallResult = Resolved | Rejected

  /** The row after a press, and the text sent to the store if a call was made. */
  datatype Submission = Submission(state: InputState, sent: Option<string>)

  /** `onChangeText={setNewTodo}`: typing replaces the buffer and nothing else. */
  function ChangeText(st: InputState, text: string): (r: InputState)
    ensures r.newTodo == text && r.outcome == st.outcome
  {
    st.(newTodo := text)
  }

  /** `disabled={!newTodo.trim()}`. */
  function AddDisabled(newTodo: string): (disabled: bool)
    ensures disabled <==> AllWhitespace(newTodo)
  {
    !Truthy(Trim(newTodo))
  }

  /** The guard `if (newTodo.trim())` of `handleAddTodo`. */
  function SubmitAllowed(newTodo: string): (allowed: bool)
    ensures allowed <==> !AllWhitespace(newTodo)
  {
    Truthy(Trim(newTodo))
  }

  /** The button is disabled on exactly the buffers the handler would ignore. */
  lemma DisabledExactlyWhenGuardRejects(newTodo: string)
    ensures AddDisabled(newTodo) <==> !SubmitAllowed(newTodo)
  {
  }

  /** The synchronous part of `handleAddTodo`, up to the `await`: an
      all-whitespace buffer sends nothing; otherwise the buffer is sent as
      typed. The row itself does not change, so the button stays enabled
      while the call is pending. */
  function Press(st: InputState): (r: Submission)
    ensures r.state == st
    ensures r.sent.Some? <==> !AllWhitespace(st.newTodo)
    ensures r.sent.Some? ==> r.sent.value == st.newTodo
  {
    if SubmitAllowed(st.newTodo) then Submission(st, Some(st.newTodo))
    else Submission(st, None)
  }

  /** The rest of `handleAddTodo`, once the awaited call settles, applied to
      the row as it is then: on resolve `setNewTodo("")` empties the buffer
      whatever it holds by now; on reject the buffer is left as it is. */
  function Settle(st: InputState, call: CallResult): (r: InputState)
    ensures call == Resolved ==> r.newTodo == "" && r.outcome == Added
    ensures call == Rejected ==> r.newTodo == st.newTodo && r.outcome == AddFailed
  {
    match call
    case Resolved => InputState("", Added)
    case Rejected => st.(outcome := AddFailed)
  }

  /** `handleAddTodo` when nothing happens between the press and the settling
      of its call: an all-whitespace buffer changes nothing and sends nothing;
      otherwise the untrimmed buffer is sent, and it is cleared only when the
      call resolves. */
  function HandleAddTodo(st: InputState, call: CallResult): (r: Submission)
    ensures AllWhitespace(st.newTodo) ==> r == Submission(st, None)
    ensures !AllWhitespace(st.newTodo) ==> r.sent == Some(st.newTodo)
    ensures !AllWhitespace(st.newTodo) && call == Resolved ==> r.state == InputState("", Added)
    ensures !AllWhitespace(st.newTodo) && call == Rejected ==> r.state == InputState(st.newTodo, AddFailed)
  {
    var pressed := Press(st);
    match pressed.sent
    case None => pressed
    case Some(_) => Submission(Settle(pressed.state, call), pressed.sent)
  }

  /** The row starts with an empty buffer and a disabled button, and a press
      on it sends nothing. */
  lemma InitiallyDisabled()
    ensures AddDisabled(Initial.newTodo)
    ensures Press(Initial) == Submission(Initial, None)
  {
  }

  /** Nothing disables the button while an add is pending: a second press
      before the first call settles sends the same buffer again, and both
      calls reaching `addTodos` store two records with that text under two
      different ids. */
  lemma SecondPressWhilePendingResends(st: InputState, s: Todos.Store)
    requires !AllWhitespace(st.newTodo)
    ensures var first := Press(st);
      var second := Press(first.state);
      && !AddDisabled(first.state.newTodo)
      && first.sent == second.sent == Some(st.newTodo)
    ensures var twice := Todos.AddTodos(Todos.AddTodos(s, st.newTodo), st.newTodo);
      && twice.todos[0].text == twice.todos[1].text == st.newTodo
      && twice.todos[0].id != twice.todos[1].id
      && twice.todos[2..] == s.todos
  {
  }

  /** Text typed while an add is pending is wiped when that add resolves, and
      kept when it rejects. */
  lemma TypingWhilePendingIsWiped(st: InputState, typed: string)
    requires !AllWhitespace(st.newTodo)
    ensures Settle(ChangeText(Press(st).state, typed), Resolved).newTodo == ""
    ensures Settle(ChangeText(Press(st).state, typed), Rejected).newTodo == typed
  {
  }

  /** One press of the add button against the table. When `delivered`, the sent
      text reaches `addTodos` and the call resolves; otherwise the call rejects
      before the handler runs and the table is untouched. The delivered case
      assumes the input component's `addTodo` call reaches the backend's `addTodos`: with
      the names as written (components/TodoInput.tsx:28 against
      convex/todos.ts:13) only `delivered == false` occurs, and every press on
      a non-blank buffer ends in `AddFailed`. */
  function SubmitToStore(st: InputState, s: Todos.Store, delivered: bool): (r: (Submission, Todos.Store))
    ensures AllWhitespace(st.newTodo) ==> r == (Submission(st, None), s)
    ensures !delivered ==> r.1 == s && r.0.state.newTodo == st.newTodo
    ensures !AllWhitespace(st.newTodo) ==> r.0.sent == Some(st.newTodo)
    ensures !AllWhitespace(st.newTodo) && !delivered ==> r.0.state.outcome == AddFailed
    ensures !AllWhitespace(st.newTodo) && delivered ==>
              && |r.1.todos| == |s.todos| + 1
              && r.1.todos[0].text == st.newTodo
              && !r.1.todos[0].isCompleted
              && r.1.todos[1..] == s.todos
              && r.0.state == InputState("", Added)
  {
    var sub := HandleAddTodo(st, if delivered then Resolved else Rejected);
    match sub.sent
    case None => (sub, s)
    case Some(text) => (sub, if delivered then Todos.AddTodos(s, text) else s)
  }

  /** A delivered press on a buffer with content stores the buffer exactly as
      typed, not completed, at the head of the listing, and empties the buffer. */
  lemma SubmitStoresBufferAsTyped(st: InputState, s: Todos.Store)
    requires !AllWhitespace(st.newTodo)
    ensures var (sub, after) := SubmitToStore(st, s, true);
      && Todos.GetTodos(after)[0].text == st.newTodo
      && !Todos.GetTodos(after)[0].isCompleted
      && Todos.GetTodos(after)[1..] == Todos.GetTodos(s)
      && sub.state.newTodo == ""
  {
  }

  /** A press that fails keeps the buffer as typed and leaves the table alone. */
  lemma FailedSubmitKeepsBuffer(st: InputState, s: Todos.Store)
    ensures var (sub, after) := SubmitToStore(st, s, false);
      && sub.state.newTodo == st.newTodo
      && after == s
      && (sub.sent.Some? ==> sub.state.outcome == AddFailed)
  {
  }

  /** The stored text keeps its surrounding whitespace: for the buffer
      " milk " the listing shows " milk ", not its trimmed form "milk". */
  lemma StoredTextIsNotTrimmed(s: Todos.Store)
    ensures Todos.GetTodos(SubmitToStore(InputState(" milk ", Idle), s, true).1)[0].text == " milk "
    ensures Trim(" milk ") == "milk"
  {
    var buffer := " milk ";
    assert SkipLeading(buffer, 1) == 1;
    assert SkipLeading(buffer, 0) == 1;
    assert SkipTrailing(buffer, 1, 5) == 5;
    assert SkipTrailing(buffer, 1, 6) == 5;
    SubmitStoresBufferAsTyped(InputState(buffer, Idle), s);
  }
}

/**
 The newline-delimited JSON-RPC client of the round-trip benchmark against a
 server process. Lines the server has written and the client has not read wait in
 a pipe. The server may write noise at any time; it answers each request id once
 and only after the request, as sections 4 and 5 of JSON-RPC 2.0 have it.
 */
module JsonRpc {
  import opened Common

  /** What one line of the server's output turns out to be; a message may carry an unsigned id. */
  datatype Line = Blank | NotJson | Message(id: Option<nat>, body: string)

  datatype State = State(
    nextId: nat,
    sent: seq<nat>,
    waiting: Option<nat>,
    pipe: seq<Line>,
    closed: bool,
    answers: map<nat, string>,
    results: seq<string>,
    panicked: bool)

  datatype Action =
    | Call
    | Write(line: Line)
    | Close
    | Read

  const INIT := State(1, [], None, [], false, map[], [], false)

  predicate Answers(line: Line, id: nat) {
    line.Message? && line.id == Some(id)
  }

  predicate Enabled(s: State, a: Action) {
    && !s.panicked
    && match a
       case Call => s.waiting.None?
       case Write(line) =>
         && !s.closed
         && (line.Message? && line.id.Some? ==> line.id.value in s.sent && line.id.value !in s.answers)
       case Close => !s.closed
       case Read => s.waiting.Some? && (s.pipe != [] || s.closed)
  }

  function Step(s: State, a: Action): State
    requires Enabled(s, a)
  {
    match a
    case Call => s.(nextId := s.nextId + 1, sent := s.sent + [s.nextId], waiting := Some(s.nextId))
    case Write(line) =>
      s.(pipe := s.pipe + [line],
         answers := if line.Message? && line.id.Some? then s.answers[line.id.value := line.body] else s.answers)
    case Close => s.(closed := true)
    case Read =>
      if s.pipe == [] then s.(panicked := true)
      else if Answers(s.pipe[0], s.waiting.value) then
        s.(pipe := s.pipe[1..], waiting := None, results := s.results + [s.pipe[0].body])
      else s.(pipe := s.pipe[1..])
  }

  predicate CanRun(s: State, actions: seq<Action>)
    decreases |actions|
  {
    |actions| == 0 || (Enabled(s, actions[0]) && CanRun(Step(s, actions[0]), actions[1..]))
  }

  function Run(s: State, actions: seq<Action>): State
    requires CanRun(s, actions)
    decreases |actions|
  {
    if |actions| == 0 then s else Run(Step(s, actions[0]), actions[1..])
  }

  // ------------------------------------------------------------------------
  // Invariant

  /** Ids are handed out in order from 1, and the call in progress has the newest. */
  predicate IdsInOrder(s: State) {
    && s.nextId == |s.sent| + 1
    && (forall i :: 0 <= i < |s.sent| ==> s.sent[i] == i + 1)
    && |s.sent| == |s.results| + (if s.waiting.Some? then 1 else 0)
    && (s.waiting.Some? ==> s.waiting.value == |s.sent|)
  }

  /** Only requests are answered, and what the pipe holds is what was answered. */
  predicate AnswersRecorded(s: State) {
    && (forall id :: id in s.answers ==> 1 <= id <= |s.sent|)
    && (forall i :: 0 <= i < |s.pipe| && s.pipe[i].Message? && s.pipe[i].id.Some? ==>
          s.pipe[i].id.value in s.answers && s.pipe[i].body == s.answers[s.pipe[i].id.value])
  }

  predicate InPipe(s: State, id: nat) {
    exists i :: 0 <= i < |s.pipe| && Answers(s.pipe[i], id)
  }

  predicate ResultsMatch(s: State) {
    forall id :: 1 <= id <= |s.results| ==> id in s.answers && s.results[id - 1] == s.answers[id]
  }

  /** An answer to the call in progress is never lost. */
  predicate NothingLost(s: State) {
    && (s.waiting.Some? && s.waiting.value in s.answers ==> InPipe(s, s.waiting.value))
    && (s.panicked ==> s.closed && s.pipe == [] && s.waiting.Some? && s.waiting.value !in s.answers)
  }

  predicate Inv(s: State) {
    IdsInOrder(s) && AnswersRecorded(s) && ResultsMatch(s) && NothingLost(s)
  }

  lemma CallInv(s: State)
    requires Inv(s) && Enabled(s, Call)
    ensures Inv(Step(s, Call))
  {
    assert s.nextId !in s.answers;
  }

  lemma WriteInv(s: State, line: Line)
    requires Inv(s) && Enabled(s, Write(line))
    ensures Inv(Step(s, Write(line)))
  {
    var t := Step(s, Write(line));
    assert forall i :: 0 <= i < |s.pipe| ==> t.pipe[i] == s.pipe[i];
    assert t.pipe[|s.pipe|] == line;
    if s.waiting.Some? && s.waiting.value in s.answers {
      var i :| 0 <= i < |s.pipe| && Answers(s.pipe[i], s.waiting.value);
      assert Answers(t.pipe[i], s.waiting.value);
    }
  }

  lemma ReadInv(s: State)
    requires Inv(s) && Enabled(s, Read)
    ensures Inv(Step(s, Read))
  {
    var t := Step(s, Read);
    if s.pipe != [] {
      assert forall i :: 0 <= i < |t.pipe| ==> t.pipe[i] == s.pipe[i + 1];
      if t.waiting.Some? && t.waiting.value in t.answers {
        var i :| 0 <= i < |s.pipe| && Answers(s.pipe[i], s.waiting.value);
        assert Answers(t.pipe[i - 1], t.waiting.value);
      }
    }
  }

  lemma StepInv(s: State, a: Action)
    requires Inv(s) && Enabled(s, a)
    ensures Inv(Step(s, a))
  {
    match a
    case Call => CallInv(s);
    case Write(line) => WriteInv(s, line);
    case Close =>
    case Read => ReadInv(s);
  }

  lemma {:induction false} RunInv(s: State, actions: seq<Action>)
    requires Inv(s) && CanRun(s, actions)
    ensures Inv(Run(s, actions))
    decreases |actions|
  {
    if |actions| > 0 {
      StepInv(s, actions[0]);
      RunInv(Step(s, actions[0]), actions[1..]);
    }
  }

  // ------------------------------------------------------------------------
  // Whole sessions

  /**
   In every session the k-th call returned the server's answer to the k-th
   request, no id was used twice, and the client gave up only on a server that
   closed its output without answering.
   */
  lemma CallsMatchAnswers(actions: seq<Action>)
    requires CanRun(INIT, actions)
    ensures var s := Run(INIT, actions);
            && |s.results| <= |s.sent|
            && (forall k :: 0 <= k < |s.results| ==> s.sent[k] in s.answers && s.results[k] == s.answers[s.sent[k]])
            && (forall i, j :: 0 <= i < j < |s.sent| ==> s.sent[i] != s.sent[j])
            && (s.panicked ==> s.closed && |s.results| < |s.sent| && s.sent[|s.results|] !in s.answers)
  {
    RunInv(INIT, actions);
    var s := Run(INIT, actions);
    forall k | 0 <= k < |s.results| ensures s.sent[k] in s.answers && s.results[k] == s.answers[s.sent[k]] {
      var id := k + 1;
      assert id in s.answers;
    }
  }

  function Reads(n: nat): seq<Action> {
    seq(n, i requires 0 <= i => Read)
  }

  /** The position of the first answer in a list of lines. */
  function FirstAnswer(lines: seq<Line>, id: nat): (i: nat)
    ensures i <= |lines|
    ensures i < |lines| ==> Answers(lines[i], id)
    ensures forall j :: 0 <= j < i ==> !Answers(lines[j], id)
  {
    if |lines| == 0 || Answers(lines[0], id) then 0 else 1 + FirstAnswer(lines[1..], id)
  }

  /** The client itself; `pipe` is everything the server writes from now on, up to the end of its output. */
  class McpClient {
    var nextId: nat
    var sent: seq<nat>
    var pipe: seq<Line>

    constructor (output: seq<Line>)
      ensures nextId == 1 && sent == [] && pipe == output
    {
      nextId, sent, pipe := 1, [], output;
    }

    /** Skips everything up to the answer; `None` is the panic at the end of the output. */
    method ReadForId(id: nat) returns (result: Option<string>)
      modifies this`pipe
      ensures var i := FirstAnswer(old(pipe), id);
              if i < |old(pipe)| then result == Some(old(pipe)[i].body) && pipe == old(pipe)[i + 1..]
              else result == None && pipe == []
    {
      while true
        invariant |pipe| <= |old(pipe)| && pipe == old(pipe)[|old(pipe)| - |pipe|..]
        invariant FirstAnswer(old(pipe), id) == |old(pipe)| - |pipe| + FirstAnswer(pipe, id)
        decreases |pipe|
      {
        if |pipe| == 0 {
          return None;
        }
        var line := pipe[0];
        pipe := pipe[1..];
        if line.Blank? {
          continue;
        }
        if line.NotJson? {
          continue;
        }
        if line.id == Some(id) {
          return Some(line.body);
        }
      }
    }

    method CallTool() returns (result: Option<string>)
      modifies this
      ensures nextId == old(nextId) + 1 && sent == old(sent) + [old(nextId)]
      ensures var i := FirstAnswer(old(pipe), old(nextId));
              if i < |old(pipe)| then result == Some(old(pipe)[i].body) && pipe == old(pipe)[i + 1..]
              else result == None && pipe == []
    {
      var id := nextId;
      nextId := nextId + 1;
      sent := sent + [id];
      result := ReadForId(id);
    }
  }

  lemma FirstAnswerExists(lines: seq<Line>, id: nat)
    requires exists i :: 0 <= i < |lines| && Answers(lines[i], id)
    ensures FirstAnswer(lines, id) < |lines|
  {
  }

  lemma ReadsSplit(s: State, n: nat)
    requires Enabled(s, Read) && CanRun(Step(s, Read), Reads(n))
    ensures CanRun(s, Reads(n + 1)) && Run(s, Reads(n + 1)) == Run(Step(s, Read), Reads(n))
  {
    assert Reads(n + 1)[1..] == Reads(n);
  }

  ghost predicate Returned(s: State, t: State, i: nat)
    requires s.waiting.Some? && s.waiting.value in s.answers && i < |s.pipe|
  {
    t.waiting == None && t.pipe == s.pipe[i + 1..] && t.results == s.results + [s.answers[s.waiting.value]]
  }

  /**
   A call whose answer is already in the pipe returns it after reading as far as
   the first matching line, whatever lies in front: the client is never stuck.
   */
  lemma {:induction false} AnsweredCallReturns(s: State)
    requires Inv(s) && !s.panicked && s.waiting.Some? && s.waiting.value in s.answers
    ensures var i := FirstAnswer(s.pipe, s.waiting.value);
            i < |s.pipe| && CanRun(s, Reads(i + 1)) && Returned(s, Run(s, Reads(i + 1)), i)
    decreases |s.pipe|
  {
    var id := s.waiting.value;
    FirstAnswerExists(s.pipe, id);
    var i, t := FirstAnswer(s.pipe, id), Step(s, Read);
    if i == 0 {
      assert Run(t, Reads(0)) == t;
      ReadsSplit(s, 0);
    } else {
      ReadInv(s);
      AnsweredCallReturns(t);
      ReadsSplit(s, i);
      assert t.pipe[i..] == s.pipe[i + 1..];
    }
  }
}

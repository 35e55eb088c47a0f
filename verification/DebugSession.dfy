// The debug session protocol. A virtual machine in its own thread and a request
// handler exchange events and commands over two FIFO channels; every receive may
// time out. A run is any interleaving of the steps of the two threads.
module DebugSession {
  import opened Wrappers

  datatype Event = Paused(at: nat) | Finished | Error

  datatype Command = Continue | StepInto | StepOver | StepOut

  // The machine's thread: setting up, executing, blocked in `on_pause`, past its
  // last event, and gone with its channel ends dropped.
  datatype Vm = Starting | Running | Waiting | Done | Gone

  // The handler: in the two receives of `start`, between calls, in the receive of
  // `send_and_wait`, and after the session ended or failed to start.
  datatype Handler = AwaitHandle | AwaitFirst | Idle | AwaitEvent | Closed

  datatype State = State(
    vm: Vm,
    handler: Handler,
    handleReady: bool,                // the breakpoint handle is in its channel
    events: seq<Event>,
    commands: seq<Command>,
    lastPaused: Option<nat>,
    // What happened so far.
    setupFailed: bool,
    sent: seq<Event>,
    received: seq<Event>,
    issued: seq<Command>,
    executed: seq<Command>,
    taken: seq<nat>,                  // events sent when the machine took each command
    late: seq<nat>,                   // its timeouts by then
    vmTimeouts: nat,
    returned: seq<Option<nat>>,       // position of the event each call returned, if any
    early: seq<nat>,                  // calls that had timed out before each call
    callTimeouts: nat)

  datatype Action =
    | SetupFails | SetupDone | Pause(at: nat) | TakeCommand | VmTimeout | Finish(ok: bool) | Exit
    | GetHandle | HandleFails | GetFirst | FirstTimeout
    | Send(cmd: Command) | SendFails | GetEvent | EventTimeout | Close

  const INIT := State(Starting, AwaitHandle, false, [], [], None, false, [], [], [], [], [], [], 0, [], [], 0)

  predicate IsTerminal(e: Event) {
    !e.Paused?
  }

  // Sending reaches the channel unless its receiver is gone.
  function SendEvent(s: State, e: Event): State {
    if s.handler == Closed then s else s.(events := s.events + [e], sent := s.sent + [e])
  }

  function Receive(s: State): State
    requires s.events != []
  {
    var e := s.events[0];
    s.(events := s.events[1..], received := s.received + [e],
       lastPaused := if e.Paused? then Some(e.at) else s.lastPaused, handler := Idle)
  }

  // A receive times out only on an empty channel.
  predicate Enabled(s: State, a: Action) {
    match a
    case SetupFails => s.vm == Starting
    case SetupDone => s.vm == Starting
    case Pause(_) => s.vm == Running
    case TakeCommand => s.vm == Waiting && s.commands != []
    case VmTimeout => s.vm == Waiting && s.commands == []
    case Finish(_) => s.vm == Running
    case Exit => s.vm == Done
    case GetHandle => s.handler == AwaitHandle && s.handleReady
    case HandleFails => s.handler == AwaitHandle && !s.handleReady
    case GetFirst => s.handler == AwaitFirst && s.events != []
    case FirstTimeout => s.handler == AwaitFirst && s.events == []
    case Send(_) => s.handler == Idle && s.vm != Gone
    case SendFails => s.handler == Idle && s.vm == Gone
    case GetEvent => s.handler == AwaitEvent && s.events != []
    case EventTimeout => s.handler == AwaitEvent && s.events == []
    case Close => s.handler == Idle
  }

  function Next(s: State, a: Action): State
    requires Enabled(s, a)
  {
    match a
    case SetupFails => SendEvent(s, Error).(vm := Done, setupFailed := true)
    case SetupDone => s.(vm := Running, handleReady := true)
    case Pause(at) => if s.handler == Closed then s else SendEvent(s, Paused(at)).(vm := Waiting)
    case TakeCommand =>
      s.(vm := Running, commands := s.commands[1..], executed := s.executed + [s.commands[0]],
         taken := s.taken + [|s.sent|], late := s.late + [s.vmTimeouts])
    case VmTimeout => s.(vm := Running, vmTimeouts := s.vmTimeouts + 1)
    case Finish(ok) => SendEvent(s, if ok then Finished else Error).(vm := Done)
    case Exit => s.(vm := Gone)
    case GetHandle => s.(handler := AwaitFirst)
    case HandleFails => s.(handler := Closed)
    case GetFirst => Receive(s)
    case FirstTimeout => s.(handler := Closed)
    case Send(cmd) => s.(commands := s.commands + [cmd], issued := s.issued + [cmd], handler := AwaitEvent)
    case SendFails => s
    case GetEvent => Receive(s).(returned := s.returned + [Some(|s.received|)], early := s.early + [s.callTimeouts])
    case EventTimeout =>
      s.(handler := Idle, returned := s.returned + [None], early := s.early + [s.callTimeouts],
         callTimeouts := s.callTimeouts + 1)
    case Close => s.(handler := Closed)
  }

  // The state after a run, when every action of the run was enabled in its turn.
  function After(run: seq<Action>): Option<State> {
    if run == [] then Some(INIT)
    else
      var s := After(run[..|run| - 1]);
      if s.Some? && Enabled(s.value, run[|run| - 1]) then Some(Next(s.value, run[|run| - 1])) else None
  }

  // ---- What holds in every state ----

  function LastPaused(events: seq<Event>): Option<nat> {
    if events == [] then None
    else
      var e := events[|events| - 1];
      if e.Paused? then Some(e.at) else LastPaused(events[..|events| - 1])
  }

  // Nothing is lost or reordered.
  predicate Fifo(s: State) {
    && s.received + s.events == s.sent
    && s.executed + s.commands == s.issued
    && s.lastPaused == LastPaused(s.received)
  }

  predicate EndsTerminal(events: seq<Event>) {
    events != [] && IsTerminal(events[|events| - 1])
  }

  // A terminal event is the last one, and a machine that is done has sent it if
  // the handler was there to receive it.
  predicate EndsOnce(s: State) {
    && (forall i | 0 <= i < |s.sent| - 1 :: s.sent[i].Paused?)
    && (EndsTerminal(s.sent) ==> s.vm == Done || s.vm == Gone)
    && ((s.vm == Done || s.vm == Gone) && s.handler != Closed ==> EndsTerminal(s.sent))
  }

  // The machine answers each pause once, with a command or after a timeout.
  predicate VmAccount(s: State) {
    && |s.taken| == |s.late| == |s.executed|
    && (forall n | 0 <= n < |s.taken| :: s.taken[n] == n + 1 + s.late[n])
    && (forall n | 0 <= n < |s.late| :: s.late[n] <= s.vmTimeouts)
    && |s.sent| <= |s.taken| + s.vmTimeouts + 1
    && (s.vm == Starting ==> s.sent == [] && s.taken == [] && s.vmTimeouts == 0 && !s.handleReady)
    && (s.vm == Running ==> |s.sent| == |s.taken| + s.vmTimeouts)
    && (s.vm == Waiting ==> |s.sent| == |s.taken| + s.vmTimeouts + 1)
  }

  // Each call takes the next event off the channel or times out.
  predicate CallAccount(s: State) {
    && (s.handler == AwaitHandle || s.handler == AwaitFirst ==>
          s.received == [] && s.returned == [] && s.callTimeouts == 0)
    && (s.handler == Idle || s.handler == AwaitEvent ==> |s.received| + s.callTimeouts == 1 + |s.returned|)
    && |s.taken| + |s.commands| == |s.returned| + (if s.handler == AwaitEvent then 1 else 0)
  }

  // The events come in order, one to each call that did not time out.
  predicate CallPositions(s: State) {
    && |s.early| == |s.returned|
    && (forall n | 0 <= n < |s.returned| :: s.early[n] <= s.callTimeouts)
    && (forall n | 0 <= n < |s.returned| :: s.returned[n].None? ==> s.callTimeouts > 0)
    && (forall n | 0 <= n < |s.returned| :: s.returned[n].Some? ==>
          s.returned[n].value + s.early[n] == n + 1 && s.returned[n].value < |s.received|)
  }

  // Without a handle, `start` does not get to its first event.
  predicate SetupAccount(s: State) {
    && (s.setupFailed ==> (s.vm == Done || s.vm == Gone) && !s.handleReady)
    && (!s.handleReady ==>
          s.received == [] && s.returned == [] && (s.handler == AwaitHandle || s.handler == Closed))
  }

  predicate Inv(s: State) {
    Fifo(s) && EndsOnce(s) && VmAccount(s) && CallAccount(s) && CallPositions(s) && SetupAccount(s)
  }

  lemma ReceiveIsFifo(s: State)
    requires Fifo(s) && s.events != []
    ensures Fifo(Receive(s))
  {
    var t := Receive(s);
    assert s.events == [s.events[0]] + s.events[1..];
    assert t.received[..|t.received| - 1] == s.received;
  }

  lemma SendIsFifo(s: State, e: Event)
    requires Fifo(s)
    ensures Fifo(SendEvent(s, e))
  {
    assert s.received + (s.events + [e]) == (s.received + s.events) + [e];
  }

  lemma StaysFifo(s: State, a: Action)
    requires Fifo(s) && Enabled(s, a)
    ensures Fifo(Next(s, a))
  {
    match a
    case SetupFails => SendIsFifo(s, Error);
    case Pause(at) => SendIsFifo(s, Paused(at));
    case Finish(ok) => SendIsFifo(s, if ok then Finished else Error);
    case GetFirst => ReceiveIsFifo(s);
    case GetEvent => ReceiveIsFifo(s);
    case TakeCommand => assert s.commands == [s.commands[0]] + s.commands[1..];
    case Send(cmd) => assert s.executed + (s.commands + [cmd]) == (s.executed + s.commands) + [cmd];
    case _ =>
  }

  lemma EndsAtMostOnce(s: State, a: Action)
    requires EndsOnce(s) && Enabled(s, a)
    ensures EndsOnce(Next(s, a))
  {
  }

  lemma TakingStaysBalanced(s: State)
    requires VmAccount(s) && Enabled(s, TakeCommand)
    ensures VmAccount(Next(s, TakeCommand))
  {
  }

  lemma VmStaysBalanced(s: State, a: Action)
    requires VmAccount(s) && Enabled(s, a) && !a.TakeCommand?
    ensures VmAccount(Next(s, a))
  {
    var t := Next(s, a);
    assert t.taken == s.taken && t.late == s.late && t.executed == s.executed && t.vmTimeouts >= s.vmTimeouts;
  }

  lemma CallsStayBalanced(s: State, a: Action)
    requires CallAccount(s) && Enabled(s, a)
    ensures CallAccount(Next(s, a))
  {
  }

  // Only the two outcomes of a call change what calls returned.
  lemma ReturnsStay(s: State, a: Action)
    requires Enabled(s, a) && !a.GetEvent? && !a.EventTimeout?
    ensures var t := Next(s, a);
            t.returned == s.returned && t.early == s.early && t.callTimeouts == s.callTimeouts &&
            |t.received| >= |s.received|
  {
  }

  lemma PositionsStayInOrder(s: State, a: Action)
    requires CallAccount(s) && CallPositions(s) && Enabled(s, a)
    ensures CallPositions(Next(s, a))
  {
    if !a.GetEvent? && !a.EventTimeout? {
      ReturnsStay(s, a);
    }
  }

  lemma SetupStaysBalanced(s: State, a: Action)
    requires SetupAccount(s) && VmAccount(s) && Enabled(s, a)
    ensures SetupAccount(Next(s, a))
  {
  }

  lemma StepKeepsInv(s: State, a: Action)
    requires Inv(s) && Enabled(s, a)
    ensures Inv(Next(s, a))
  {
    StaysFifo(s, a);
    EndsAtMostOnce(s, a);
    if a.TakeCommand? {
      TakingStaysBalanced(s);
    } else {
      VmStaysBalanced(s, a);
    }
    CallsStayBalanced(s, a);
    PositionsStayInOrder(s, a);
    SetupStaysBalanced(s, a);
  }

  lemma {:induction false} InvHolds(run: seq<Action>)
    requires After(run).Some?
    ensures Inv(After(run).value)
  {
    if run != [] {
      InvHolds(run[..|run| - 1]);
      StepKeepsInv(After(run[..|run| - 1]).value, run[|run| - 1]);
    }
  }

  // ---- Safety in all runs ----

  // The handler receives a prefix of what was sent, and the last pause it saw is
  // the one it reports.
  lemma ReceivedIsPrefix(run: seq<Action>)
    requires After(run).Some?
    ensures var s := After(run).value;
            s.received <= s.sent && s.lastPaused == LastPaused(s.received)
  {
    InvHolds(run);
  }

  lemma OneMore(run: seq<Action>, s: State, a: Action)
    requires After(run) == Some(s)
    ensures CanFollow(run, a) <==> Enabled(s, a)
  {
    var longer := run + [a];
    assert longer[..|longer| - 1] == run;
  }

  lemma {:induction false} GoneAfterExit(run: seq<Action>)
    requires After(run).Some?
    ensures After(run).value.vm == Gone <==> Exit in run
  {
    if run != [] {
      var before, a := run[..|run| - 1], run[|run| - 1];
      GoneAfterExit(before);
      ExitIsForGood(After(before).value, a);
      assert run == before + [a];
    }
  }

  lemma ExitIsForGood(s: State, a: Action)
    requires Enabled(s, a)
    ensures Next(s, a).vm == Gone <==> s.vm == Gone || a == Exit
  {
  }

  lemma StillQueued(run: seq<Action>, s: State)
    requires After(run) == Some(s)
    ensures |s.events| == |s.sent| - |s.received| && |s.commands| == |s.issued| - |s.executed|
  {
    InvHolds(run);
    assert |s.received + s.events| == |s.sent| && |s.executed + s.commands| == |s.issued|;
  }

  // The action `a` can come after a run.
  predicate CanFollow(run: seq<Action>, a: Action) {
    After(run + [a]).Some?
  }

  // A call gets an event exactly when one was sent that was not received, and times
  // out exactly when there is none; so it is for the first event.
  lemma CallsTimeOutWithNothingSent(run: seq<Action>, s: State)
    requires After(run) == Some(s)
    ensures CanFollow(run, GetEvent) <==> s.handler == AwaitEvent && |s.received| < |s.sent|
    ensures CanFollow(run, EventTimeout) <==> s.handler == AwaitEvent && |s.received| == |s.sent|
    ensures CanFollow(run, GetFirst) <==> s.handler == AwaitFirst && |s.received| < |s.sent|
    ensures CanFollow(run, FirstTimeout) <==> s.handler == AwaitFirst && |s.received| == |s.sent|
  {
    StillQueued(run, s);
    OneMore(run, s, GetEvent);
    OneMore(run, s, EventTimeout);
    OneMore(run, s, GetFirst);
    OneMore(run, s, FirstTimeout);
  }

  // Likewise for the machine and its commands.
  lemma MachineTimesOutWithNothingIssued(run: seq<Action>, s: State)
    requires After(run) == Some(s)
    ensures CanFollow(run, TakeCommand) <==> s.vm == Waiting && |s.executed| < |s.issued|
    ensures CanFollow(run, VmTimeout) <==> s.vm == Waiting && |s.executed| == |s.issued|
  {
    StillQueued(run, s);
    OneMore(run, s, TakeCommand);
    OneMore(run, s, VmTimeout);
  }

  // A command can be sent between calls, and fails exactly when the machine is gone.
  lemma SendFailsOnceGone(run: seq<Action>, s: State, cmd: Command)
    requires After(run) == Some(s)
    ensures CanFollow(run, Send(cmd)) <==> s.handler == Idle && Exit !in run
    ensures CanFollow(run, SendFails) <==> s.handler == Idle && Exit in run
  {
    GoneAfterExit(run);
    OneMore(run, s, Send(cmd));
    OneMore(run, s, SendFails);
  }

  predicate SessionIsOver(s: State) {
    EndsTerminal(s.received)
  }

  // Once a terminal event was received, no later call returns an event.
  lemma {:induction false} NothingAfterTheEnd(run: seq<Action>, more: seq<Action>)
    requires After(run).Some? && SessionIsOver(After(run).value) && After(run + more).Some?
    ensures var s, t := After(run).value, After(run + more).value;
            t.received == s.received && SessionIsOver(t) &&
            |s.returned| <= |t.returned| && forall n | |s.returned| <= n < |t.returned| :: t.returned[n] == None
  {
    if more == [] {
      assert run + more == run;
    } else {
      var before, a := more[..|more| - 1], more[|more| - 1];
      assert (run + more)[..|run + more| - 1] == run + before;
      NothingAfterTheEnd(run, before);
      InvHolds(run + before);
      OverStaysOver(After(run + before).value, a);
    }
  }

  lemma OverStaysOver(s: State, a: Action)
    requires Inv(s) && SessionIsOver(s) && Enabled(s, a)
    ensures s.events == [] && !a.GetEvent? && !a.GetFirst?
    ensures Next(s, a).received == s.received
  {
    var k := |s.received| - 1;
    assert s.sent[k] == s.received[k];
    assert k == |s.sent| - 1;
  }

  // When the pipeline itself cannot be built, the error it reports is never received:
  // `start` gives up waiting for the breakpoint handle.
  lemma SetupErrorIsLost(run: seq<Action>)
    requires After(run).Some? && After(run).value.setupFailed
    ensures var s := After(run).value;
            s.received == [] && s.returned == [] && (s.handler == AwaitHandle || s.handler == Closed)
  {
    InvHolds(run);
  }

  lemma SetupCanFail() returns (s: State)
    ensures After([SetupFails, HandleFails]) == Some(s)
    ensures s.setupFailed && s.sent == [Error] && s.received == [] && s.handler == Closed
  {
    var run: seq<Action>;
    run, s := Extend([], INIT, SetupFails);
    run, s := Extend(run, s, HandleFails);
    assert run == [SetupFails, HandleFails];
  }

  // A program that does not compile is another matter: the handle was sent by
  // then, and `start` returns the error as the first event.
  lemma CompileErrorIsReceived() returns (s: State)
    ensures After([SetupDone, Finish(false), GetHandle, GetFirst]) == Some(s)
    ensures s.received == [Error] && s.handler == Idle && !s.setupFailed
  {
    var run: seq<Action>;
    run, s := Extend([], INIT, SetupDone);
    run, s := Extend(run, s, Finish(false));
    run, s := Extend(run, s, GetHandle);
    run, s := Extend(run, s, GetFirst);
    assert run == [SetupDone, Finish(false), GetHandle, GetFirst];
  }

  // A session that pauses once, goes on, and runs to its end.
  lemma ProgramFinishes() returns (run: seq<Action>, s: State)
    ensures After(run) == Some(s) && Finish(true) in run && forall a <- run :: !IsTimeout(a)
    ensures s.received == [Paused(1), Finished] && s.executed == [StepOver] && s.returned == [Some(1)]
    ensures s.lastPaused == Some(1) && s.vm == Done && s.handler == Idle
  {
    run, s := FirstCommand();
    run, s := Extend(run, s, Finish(true));
    run, s := Extend(run, s, GetEvent);
  }

  // The first command is sent and taken.
  lemma FirstCommand() returns (run: seq<Action>, s: State)
    ensures After(run) == Some(s) && forall a <- run :: !IsTimeout(a)
    ensures s == INIT.(vm := Running, handler := AwaitEvent, handleReady := true, lastPaused := Some(1),
                       sent := [Paused(1)], received := [Paused(1)], issued := [StepOver], executed := [StepOver],
                       taken := [1], late := [0])
  {
    run, s := FirstPause();
    run, s := Extend(run, s, Send(StepOver));
    run, s := Extend(run, s, TakeCommand);
  }

  // The last event tells whether the program ran to its end.
  lemma FinishTellsTheOutcome(run: seq<Action>, ok: bool)
    requires After(run).Some? && After(run + [Finish(ok)]).Some? && After(run).value.handler != Closed
    ensures After(run + [Finish(ok)]).value.sent == After(run).value.sent + [if ok then Finished else Error]
  {
    assert (run + [Finish(ok)])[..|run|] == run;
  }

  // No pause comes after the one at `i`.
  predicate IsLastPause(events: seq<Event>, i: nat) {
    i < |events| && events[i].Paused? && forall j | i < j < |events| :: !events[j].Paused?
  }

  lemma {:induction false} LastPauseIs(events: seq<Event>, i: nat)
    requires IsLastPause(events, i)
    ensures LastPaused(events) == Some(events[i].at)
  {
    var before := events[..|events| - 1];
    if i < |before| {
      assert before[i] == events[i];
      LastPauseIs(before, i);
    }
  }

  lemma {:induction false} SomePauseIsLast(events: seq<Event>) returns (i: nat)
    requires exists k :: 0 <= k < |events| && events[k].Paused?
    ensures IsLastPause(events, i)
  {
    i := |events| - 1;
    if !events[i].Paused? {
      var k :| 0 <= k < |events| && events[k].Paused?;
      assert events[..i][k] == events[k];
      i := SomePauseIsLast(events[..i]);
      assert events[i].Paused?;
    }
  }

  lemma {:induction false} NoPauseNoLast(events: seq<Event>)
    requires forall k | 0 <= k < |events| :: !events[k].Paused?
    ensures LastPaused(events) == None
  {
    if events != [] {
      NoPauseNoLast(events[..|events| - 1]);
    }
  }

  // The last pause among some events, if there is one.
  lemma LastPausedExactly(events: seq<Event>, at: nat)
    ensures LastPaused(events) == Some(at) <==> exists i: nat :: IsLastPause(events, i) && events[i].at == at
    ensures LastPaused(events) == None <==> forall k | 0 <= k < |events| :: !events[k].Paused?
  {
    if k: nat :| k < |events| && events[k].Paused? {
      var i := SomePauseIsLast(events);
      LastPauseIs(events, i);
      forall l: nat | IsLastPause(events, l) ensures LastPaused(events) == Some(events[l].at) {
        LastPauseIs(events, l);
      }
    } else {
      NoPauseNoLast(events);
    }
  }

  // ---- Which event answers which command ----

  // The position of the first event sent after the machine took command n: the
  // reaction to it. While it was not taken, no event sent so far is.
  function Reaction(s: State, n: nat): nat {
    if n < |s.taken| then s.taken[n] else |s.sent|
  }

  // The machine's timeouts before it took command n, if it did.
  function LateBefore(s: State, n: nat): nat {
    if n < |s.late| then s.late[n] else s.vmTimeouts
  }

  // A call that returns an event returns the reaction to its own command exactly
  // when nothing timed out before, in an earlier call or in the machine; otherwise
  // it returns an older event, even if its command is never taken.
  lemma CallGetsItsOwnAnswer(run: seq<Action>, n: nat)
    requires After(run).Some?
    requires var s := After(run).value; n < |s.returned| && s.returned[n].Some?
    ensures var s := After(run).value;
            && |s.early| == |s.returned| && |s.executed| == |s.taken| && s.executed <= s.issued
            && s.returned[n].value <= Reaction(s, n)
            && (s.returned[n].value == Reaction(s, n) <==> s.early[n] == 0 && LateBefore(s, n) == 0)
  {
    InvHolds(run);
  }

  lemma AnswerInOrder(s: State, n: nat)
    requires Inv(s) && s.callTimeouts == 0 && s.vmTimeouts == 0 && n < |s.returned|
    ensures n < |s.taken| && s.returned[n] == Some(n + 1) && s.taken[n] == n + 1
  {
    assert s.early[n] == 0 && s.returned[n] == Some(n + 1);
  }

  // Without timeouts, every call returns an event, and the k-th command is
  // answered by the (k+1)-th event.
  lemma AnswersComeInOrder(run: seq<Action>)
    requires After(run).Some? && forall a <- run :: !IsTimeout(a)
    ensures var s := After(run).value;
            && |s.returned| <= |s.taken|
            && forall n | 0 <= n < |s.returned| :: s.returned[n] == Some(n + 1) && s.taken[n] == n + 1
  {
    InvHolds(run);
    NoTimeouts(run);
    var s := After(run).value;
    forall n | 0 <= n < |s.returned|
      ensures n < |s.taken| && s.returned[n] == Some(n + 1) && s.taken[n] == n + 1
    {
      AnswerInOrder(s, n);
    }
  }

  predicate IsTimeout(a: Action) {
    a.VmTimeout? || a.EventTimeout?
  }

  lemma {:induction false} NoTimeouts(run: seq<Action>)
    requires After(run).Some? && forall a <- run :: !IsTimeout(a)
    ensures After(run).value.callTimeouts == 0 && After(run).value.vmTimeouts == 0
  {
    if run != [] {
      assert run[|run| - 1] in run && forall a <- run[..|run| - 1] :: a in run;
      NoTimeouts(run[..|run| - 1]);
    }
  }

  lemma Extend(run: seq<Action>, s: State, a: Action) returns (longer: seq<Action>, t: State)
    requires After(run) == Some(s) && Enabled(s, a)
    ensures longer == run + [a] && t == Next(s, a) && After(longer) == Some(t)
  {
    longer, t := run + [a], Next(s, a);
    assert longer[..|run|] == run;
  }

  // The session has paused once, and waits for its first command.
  lemma FirstPause() returns (run: seq<Action>, s: State)
    ensures After(run) == Some(s) && forall a <- run :: !IsTimeout(a)
    ensures s == INIT.(vm := Waiting, handler := Idle, handleReady := true, lastPaused := Some(1),
                       sent := [Paused(1)], received := [Paused(1)])
  {
    run, s := SessionStarts();
    run, s := Extend(run, s, Pause(1));
    run, s := Extend(run, s, GetFirst);
  }

  lemma SessionStarts() returns (run: seq<Action>, s: State)
    ensures After(run) == Some(s) && forall a <- run :: !IsTimeout(a)
    ensures s == INIT.(vm := Running, handler := AwaitFirst, handleReady := true)
  {
    run, s := Extend([], INIT, SetupDone);
    run, s := Extend(run, s, GetHandle);
  }

  // The machine gives up waiting for that command, goes on, and pauses again before
  // the command comes.
  lemma MachineGoesOn() returns (run: seq<Action>, s: State)
    ensures After(run) == Some(s) && forall a <- run :: !a.EventTimeout?
    ensures s == INIT.(vm := Waiting, handler := Idle, handleReady := true, lastPaused := Some(1),
                       events := [Paused(2)], sent := [Paused(1), Paused(2)], received := [Paused(1)],
                       vmTimeouts := 1)
  {
    run, s := FirstPause();
    run, s := Extend(run, s, VmTimeout);
    run, s := Extend(run, s, Pause(2));
  }

  // A run in which no call times out, and the first one returns a pause that came
  // before its command was taken.
  lemma AnswersCanShift() returns (run: seq<Action>, s: State)
    ensures After(run) == Some(s) && forall a <- run :: !a.EventTimeout?
    ensures s.executed == [Continue] && s.taken == [2] && s.returned == [Some(1)]
  {
    run, s := MachineGoesOn();
    run, s := Extend(run, s, Send(Continue));
    run, s := Extend(run, s, GetEvent);
    run, s := Extend(run, s, TakeCommand);
  }

  // ---- Sessions in the server ----

  // The server drops a session when a call on it times out, so that no command
  // follows.
  predicate DropsOnTimeout(run: seq<Action>) {
    forall i, j | 0 <= i < j < |run| :: run[i].EventTimeout? ==> !run[j].Send?
  }

  lemma {:induction false} TimedOutOnce(run: seq<Action>)
    requires After(run).Some?
    ensures After(run).value.callTimeouts > 0 ==> exists i | 0 <= i < |run| :: run[i].EventTimeout?
  {
    if run != [] && !run[|run| - 1].EventTimeout? {
      TimedOutOnce(run[..|run| - 1]);
    }
  }

  // No call began after one that timed out.
  predicate NoneEarly(s: State) {
    && (s.callTimeouts > 0 ==> s.handler != AwaitEvent)
    && forall n | 0 <= n < |s.early| :: s.early[n] == 0
  }

  lemma StepKeepsNoneEarly(s: State, a: Action)
    requires NoneEarly(s) && Enabled(s, a) && (a.Send? ==> s.callTimeouts == 0)
    ensures NoneEarly(Next(s, a))
  {
  }

  lemma {:induction false} NoCallAfterTimeout(run: seq<Action>)
    requires After(run).Some? && DropsOnTimeout(run)
    ensures NoneEarly(After(run).value)
  {
    if run != [] {
      var before, a := run[..|run| - 1], run[|run| - 1];
      NoCallAfterTimeout(before);
      if a.Send? {
        TimedOutOnce(before);
      }
      StepKeepsNoneEarly(After(before).value, a);
    }
  }

  // There it is the machine's own timeouts alone that shift the answers.
  lemma ServerCallGetsItsOwnAnswer(run: seq<Action>, n: nat)
    requires After(run).Some? && DropsOnTimeout(run)
    requires var s := After(run).value; n < |s.returned| && s.returned[n].Some?
    ensures var s := After(run).value;
            s.returned[n].value == Reaction(s, n) <==> LateBefore(s, n) == 0
  {
    CallGetsItsOwnAnswer(run, n);
    NoCallAfterTimeout(run);
  }

  // ---- Runs without timeouts ----

  // The handler gives up starting the session, or closes it.
  predicate GivesUp(a: Action) {
    a.HandleFails? || a.FirstTimeout? || a.Close?
  }

  predicate VmRuns(s: State) { s.vm == Starting || s.vm == Running }
  predicate EventQueued(s: State) { s.events != [] }
  predicate HandlersTurn(s: State) { s.handler == Idle }
  predicate CommandQueued(s: State) { s.commands != [] }

  // Who has the turn, and what that means for everyone else.
  predicate InTurn(s: State) {
    && s.handler != Closed && |s.events| <= 1 && |s.commands| <= 1
    && if VmRuns(s) then s.events == [] && s.commands == [] && s.handler != Idle
       else if s.events != [] then s.commands == [] && s.handler != Idle
       else if s.handler == Idle then s.vm == Waiting && s.commands == []
       else s.vm == Waiting && s.commands != [] && s.handler == AwaitEvent
  }

  lemma StepKeepsTurn(s: State, a: Action)
    requires Inv(s) && Enabled(s, a) && !IsTimeout(a) && !GivesUp(a) && !SessionIsOver(s) && InTurn(s)
    ensures SessionIsOver(Next(s, a)) || InTurn(Next(s, a))
  {
    match a
    case GetFirst => ReceiveKeepsTurn(s);
    case GetEvent => ReceiveKeepsTurn(s);
    case _ => OtherStepKeepsTurn(s, a);
  }

  lemma OtherStepKeepsTurn(s: State, a: Action)
    requires Enabled(s, a) && !IsTimeout(a) && !GivesUp(a) && InTurn(s) && !a.GetFirst? && !a.GetEvent?
    ensures InTurn(Next(s, a))
  {
  }

  lemma ReceiveKeepsTurn(s: State)
    requires Inv(s) && s.events != [] && InTurn(s)
    ensures SessionIsOver(Receive(s)) || InTurn(Receive(s))
  {
    var e := s.events[0];
    assert s.sent == s.received + [e];
    assert s.sent[|s.sent| - 1] == e;
  }

  lemma {:induction false} OverForGood(run: seq<Action>)
    requires run != [] && After(run).Some? && !SessionIsOver(After(run).value)
    ensures !SessionIsOver(After(run[..|run| - 1]).value)
  {
    var before := run[..|run| - 1];
    InvHolds(before);
    if SessionIsOver(After(before).value) {
      OverStaysOver(After(before).value, run[|run| - 1]);
    }
  }

  lemma {:induction false} TurnIsKept(run: seq<Action>)
    requires After(run).Some? && forall a <- run :: !IsTimeout(a) && !GivesUp(a)
    requires !SessionIsOver(After(run).value)
    ensures InTurn(After(run).value)
  {
    if run != [] {
      var before := run[..|run| - 1];
      assert run[|run| - 1] in run && forall a <- before :: a in run;
      OverForGood(run);
      TurnIsKept(before);
      InvHolds(before);
      StepKeepsTurn(After(before).value, run[|run| - 1]);
    }
  }

  function Turns(s: State): seq<bool> {
    [VmRuns(s), EventQueued(s), HandlersTurn(s), CommandQueued(s)]
  }

  predicate ExactlyOne(s: seq<bool>) {
    exists i | 0 <= i < |s| :: s[i] && forall j | 0 <= j < |s| :: s[j] ==> j == i
  }

  lemma OneTurn(s: State)
    requires InTurn(s)
    ensures ExactlyOne(Turns(s))
  {
    var i := if VmRuns(s) then 0 else if EventQueued(s) then 1 else if HandlersTurn(s) then 2 else 3;
    assert Turns(s)[i] && forall j | 0 <= j < 4 :: Turns(s)[j] ==> j == i;
  }

  // Without a timeout, until the terminal event arrives or the session is closed,
  // exactly one of four holds: the machine runs, an event is queued, it is the
  // handler's turn, or a command is queued.
  lemma OneTurnAtATime(run: seq<Action>)
    requires After(run).Some? && forall a <- run :: !IsTimeout(a) && !GivesUp(a)
    requires !SessionIsOver(After(run).value)
    ensures InTurn(After(run).value) && ExactlyOne(Turns(After(run).value))
  {
    TurnIsKept(run);
    OneTurn(After(run).value);
  }
}

/** The upload block of `deploy_ova` and the `_LeaseProgress` thread beside it,
    as interleaved steps.

    The main thread starts the ping thread, uploads the files one by one, marks
    100 percent, stops the ping thread and completes the lease; any of these
    steps may fault, and then a handler stops the thread and aborts the lease; the
    handler's stop and the abort may fault as well. The ping
    thread checks the stop event, loads the percentage, sends it to the lease
    and waits. A step of either thread may come at any time, joining the ping
    thread may time out, and the log keeps what the lease and its server see. */
module LeaseProtocol {
  import opened Basics
  import opened OvaSizes

  /** How the upload block ends; the last two leave the lease open. */
  datatype Ending = Completed | Aborted | AbortFaulted | HandlerLeft

  datatype MainPc =
    | Starting
    | NextFile
    | Uploading
    | MarkingFull
    | Stopping
    | Joining
    | Completing
    | HandlerStopping
    | HandlerJoining
    | Aborting
    | Finished(how: Ending)

  datatype PingPc = NotStarted | Checking | Loading | Pinging(percent: nat) | Waiting | Exited

  datatype Event =
    | PutAnswered(file: nat, status: nat)
    | PingStarted(percent: nat)
    | StopSet
    | CompleteCalled(returned: bool)
    | AbortCalled(returned: bool)

  /** `file` and `sent` are the loop's position and `bytes_sent`, `read` what the
      current file's reader has counted, `percent` the field both threads share. */
  datatype State = State(main: MainPc, ping: PingPc, file: nat, sent: nat, read: nat,
                         percent: nat, stop: bool, log: seq<Event>)

  datatype Action =
    | StartThread
    | OpenFile
    | ReadChunk(n: nat)
    | PutReturns(status: nat)
    | LoopEnds
    | MarkFull
    | SetStop
    | JoinReturns
    | CompleteReturns
    | Fault
    | HandlerFault
    | AbortReturns(ok: bool)
    | PingChecks
    | PingLoads
    | PingStarts
    | WaitTimesOut
    | WaitSignalled

  const INITIAL := State(Starting, NotStarted, 0, 0, 0, 0, false, [])

  predicate InTryBlock(pc: MainPc) {
    pc.Starting? || pc.NextFile? || pc.Uploading? || pc.MarkingFull? || pc.Stopping? || pc.Joining? || pc.Completing?
  }

  predicate Enabled(files: seq<FileItem>, s: State, a: Action) {
    match a
    case StartThread => s.main.Starting?
    case OpenFile => s.main.NextFile? && s.file < |files| && files[s.file].available
    case ReadChunk(n) => s.main.Uploading? && s.file < |files| && 1 <= n <= files[s.file].member - s.read
    case PutReturns(_) => s.main.Uploading? && s.file < |files|
    case LoopEnds => s.main.NextFile? && s.file == |files|
    case MarkFull => s.main.MarkingFull?
    case SetStop => s.main.Stopping? || s.main.HandlerStopping?
    case JoinReturns => s.main.Joining? || s.main.HandlerJoining?
    case CompleteReturns => s.main.Completing?
    case Fault => InTryBlock(s.main)
    case HandlerFault => s.main.HandlerStopping? || s.main.HandlerJoining?
    case AbortReturns(_) => s.main.Aborting?
    case PingChecks => s.ping.Checking?
    case PingLoads => s.ping.Loading?
    case PingStarts => s.ping.Pinging?
    case WaitTimesOut => s.ping.Waiting?
    case WaitSignalled => s.ping.Waiting? && s.stop
  }

  function Step(files: seq<FileItem>, s: State, a: Action): State
    requires Enabled(files, s, a)
  {
    match a
    case StartThread => s.(main := NextFile, ping := Checking)
    case OpenFile => s.(main := Uploading, read := 0)
    case ReadChunk(n) => s.(read := s.read + n, percent := Percent(s.sent + (s.read + n), Total(files)))
    case PutReturns(status) =>
      var log := s.log + [PutAnswered(s.file, status)];
      if status >= 400 then s.(main := HandlerStopping, log := log)
      else s.(main := NextFile, file := s.file + 1, sent := s.sent + Effective(files[s.file]), log := log)
    case LoopEnds => s.(main := MarkingFull)
    case MarkFull => s.(main := Stopping, percent := 100)
    case SetStop =>
      s.(main := if s.main.Stopping? then Joining else HandlerJoining, stop := true, log := s.log + [StopSet])
    case JoinReturns => s.(main := if s.main.Joining? then Completing else Aborting)
    case CompleteReturns => s.(main := Finished(Completed), log := s.log + [CompleteCalled(true)])
    case Fault =>
      s.(main := HandlerStopping, log := if s.main.Completing? then s.log + [CompleteCalled(false)] else s.log)
    case HandlerFault => s.(main := Finished(HandlerLeft))
    case AbortReturns(ok) =>
      s.(main := Finished(if ok then Aborted else AbortFaulted), log := s.log + [AbortCalled(ok)])
    case PingChecks => s.(ping := if s.stop then Exited else Loading)
    case PingLoads => s.(ping := Pinging(s.percent))
    case PingStarts => s.(ping := Waiting, log := s.log + [PingStarted(s.ping.percent)])
    case WaitTimesOut => s.(ping := Checking)
    case WaitSignalled => s.(ping := Exited)
  }

  // ----- runs -----

  ghost predicate Runs(files: seq<FileItem>, s: State, acts: seq<Action>, t: State)
    decreases |acts|
  {
    if acts == [] then s == t
    else Enabled(files, s, acts[0]) && Runs(files, Step(files, s, acts[0]), acts[1..], t)
  }

  ghost predicate Reachable(files: seq<FileItem>, t: State) {
    exists acts :: Runs(files, INITIAL, acts, t)
  }

  lemma {:induction false} RunsJoin(files: seq<FileItem>, s: State, a: seq<Action>, t: State, b: seq<Action>, u: State)
    requires Runs(files, s, a, t) && Runs(files, t, b, u)
    ensures Runs(files, s, a + b, u)
    decreases |a|
  {
    if a == [] {
      assert a + b == b;
    } else {
      assert (a + b)[1..] == a[1..] + b;
      RunsJoin(files, Step(files, s, a[0]), a[1..], t, b, u);
    }
  }

  // ----- what the log says -----

  /** `pings`: the percentages sent to the lease, in order; `accepted`: the files
      whose PUT was answered below 400, in order; `completions`: completion calls
      that returned; `aborts`: abort calls, and `released` those that returned;
      `late`: pings that started after the stop event was first set, and
      `trailing` those that started after the lease was completed or its abort
      called; `ordered`: every completion call came after all `n` files were
      accepted and the event was set, every abort call after the event was set. */
  datatype Reading = Reading(pings: seq<int>, accepted: seq<nat>, stopped: bool, completions: nat, aborts: nat,
                             released: nat, late: nat, trailing: nat, ordered: bool)

  function UpTo(n: nat): seq<nat> {
    seq(n, i => i)
  }

  function Note(n: nat, r: Reading, e: Event): Reading {
    match e
    case PutAnswered(file, status) => if status < 400 then r.(accepted := r.accepted + [file]) else r
    case PingStarted(percent) =>
      r.(pings := r.pings + [percent],
         late := if r.stopped then r.late + 1 else r.late,
         trailing := if r.completions + r.aborts > 0 then r.trailing + 1 else r.trailing)
    case StopSet => r.(stopped := true)
    case CompleteCalled(returned) =>
      r.(completions := if returned then r.completions + 1 else r.completions,
         ordered := r.ordered && r.stopped && r.accepted == UpTo(n))
    case AbortCalled(returned) =>
      r.(aborts := r.aborts + 1, released := if returned then r.released + 1 else r.released,
         ordered := r.ordered && r.stopped)
  }

  function Read(n: nat, log: seq<Event>): Reading {
    if log == [] then Reading([], [], false, 0, 0, 0, 0, 0, true)
    else Note(n, Read(n, log[..|log| - 1]), log[|log| - 1])
  }

  lemma LogGrows(n: nat, log: seq<Event>, e: Event)
    ensures Read(n, log + [e]) == Note(n, Read(n, log), e)
  {
    var more := log + [e];
    assert more[..|more| - 1] == log && more[|more| - 1] == e;
  }

  function Pings(files: seq<FileItem>, s: State): seq<int> {
    Read(|files|, s.log).pings
  }

  // ----- the invariant of every interleaving -----

  ghost predicate LoopInv(files: seq<FileItem>, s: State) {
    && s.file <= |files|
    && s.sent == PriorSent(files, s.file)
    && (s.main.Uploading? ==> s.file < |files|)
    && (s.main.MarkingFull? || s.main.Stopping? || s.main.Joining? || s.main.Completing? ||
        s.main == Finished(Completed)
        ==> s.file == |files|)
  }

  ghost predicate LogInv(n: nat, s: State) {
    var r := Read(n, s.log);
    && s.stop == r.stopped
    && (s.main.Joining? || s.main.Completing? || s.main.HandlerJoining? || s.main.Aborting? ==> s.stop)
    && (s.main.Finished? && s.main.how != HandlerLeft ==> s.stop)
    && r.accepted == UpTo(s.file)
    && r.completions == (if s.main == Finished(Completed) then 1 else 0)
    && r.aborts == (if s.main == Finished(Aborted) || s.main == Finished(AbortFaulted) then 1 else 0)
    && r.released == (if s.main == Finished(Aborted) then 1 else 0)
    && r.trailing <= r.late && (r.completions + r.aborts == 0 ==> r.trailing == 0)
    && r.late + (if s.stop && (s.ping.Loading? || s.ping.Pinging?) then 1 else 0) <= 1
    && (!s.stop ==> r.late == 0)
    && r.ordered
  }

  ghost predicate Inv(files: seq<FileItem>, s: State) {
    LoopInv(files, s) && LogInv(|files|, s)
  }

  lemma UpToGrows(n: nat)
    ensures UpTo(n) + [n] == UpTo(n + 1)
  {
  }

  lemma QuietKeepsInv(files: seq<FileItem>, s: State, a: Action)
    requires Inv(files, s) && Enabled(files, s, a) && Step(files, s, a).log == s.log
    ensures LogInv(|files|, Step(files, s, a))
  {
    hide Percent, Total, Effective, PriorSent, Read;
  }

  lemma LoudKeepsInv(files: seq<FileItem>, s: State, a: Action, e: Event)
    requires Inv(files, s) && Enabled(files, s, a) && Step(files, s, a).log == s.log + [e]
    ensures LogInv(|files|, Step(files, s, a))
  {
    hide Percent, Total, Effective, PriorSent, Read, UpTo;
    LogGrows(|files|, s.log, e);
    UpToGrows(s.file);
    assert (s.log + [e])[|s.log|] == e;
  }

  lemma StepKeepsInv(files: seq<FileItem>, s: State, a: Action)
    requires Inv(files, s) && Enabled(files, s, a)
    ensures Inv(files, Step(files, s, a))
  {
    hide LogInv;
    var log := Step(files, s, a).log;
    if log == s.log {
      QuietKeepsInv(files, s, a);
    } else {
      LoudKeepsInv(files, s, a, log[|log| - 1]);
    }
  }

  lemma {:induction false} RunKeepsInv(files: seq<FileItem>, s: State, acts: seq<Action>, t: State)
    requires Inv(files, s) && Runs(files, s, acts, t)
    ensures Inv(files, t)
    decreases |acts|
  {
    if acts == [] {
    } else {
      StepKeepsInv(files, s, acts[0]);
      RunKeepsInv(files, Step(files, s, acts[0]), acts[1..], t);
    }
  }

  // ----- lease discipline -----

  /** In every interleaving and for every failure point: completion is only
      called once every file was accepted and the ping thread was told to stop;
      a finished block either completed the lease, or had its abort return, or
      leaves the lease open because the abort faulted or the handler was left
      before it; never two of these. At most one ping starts after the stop event
      is set. */
  lemma LeaseDiscipline(files: seq<FileItem>, t: State)
    requires Reachable(files, t)
    ensures var r := Read(|files|, t.log);
      && r.ordered
      && r.late <= 1
      && r.accepted == UpTo(t.file)
      && (t.main.Finished? ==>
            && r.completions == (if t.main.how == Completed then 1 else 0)
            && r.released == (if t.main.how == Aborted then 1 else 0)
            && r.aborts == (if t.main.how == Aborted || t.main.how == AbortFaulted then 1 else 0))
      && (!t.main.Finished? ==> r.completions == 0 && r.aborts == 0)
    ensures t.file <= |files| && t.sent == PriorSent(files, t.file)
  {
    var acts :| Runs(files, INITIAL, acts, t);
    assert Inv(files, INITIAL);
    RunKeepsInv(files, INITIAL, acts, t);
  }

  /** A run from the start, extended by one step. */
  lemma Do(files: seq<FileItem>, s: State, before: seq<Action>, a: Action) returns (acts: seq<Action>, t: State)
    requires Runs(files, INITIAL, before, s) && Enabled(files, s, a)
    ensures Runs(files, INITIAL, acts, t) && t == Step(files, s, a)
  {
    t := Step(files, s, a);
    assert [a][1..] == [] && Runs(files, t, [], t);
    assert Runs(files, s, [a], t);
    RunsJoin(files, INITIAL, before, s, [a], t);
    acts := before + [a];
  }

  /** A fault can come wherever the main thread is before the end: within the block it
      leads to the handler, leaving everything else as it is but for a completion
      call that was under way; within the handler it ends the call with the lease open. */
  lemma FaultsAnywhere(files: seq<FileItem>, s: State) returns (t: State)
    requires Reachable(files, s) && !s.main.Finished?
    ensures Reachable(files, t)
    ensures t ==
      match s.main
      case HandlerStopping => s.(main := Finished(HandlerLeft))
      case HandlerJoining => s.(main := Finished(HandlerLeft))
      case Aborting => s.(main := Finished(AbortFaulted), log := s.log + [AbortCalled(false)])
      case Completing => s.(main := HandlerStopping, log := s.log + [CompleteCalled(false)])
      case _ => s.(main := HandlerStopping)
  {
    var acts :| Runs(files, INITIAL, acts, s);
    match s.main {
      case HandlerStopping => acts, t := Do(files, s, acts, HandlerFault);
      case HandlerJoining => acts, t := Do(files, s, acts, HandlerFault);
      case Aborting => acts, t := Do(files, s, acts, AbortReturns(false));
      case _ => acts, t := Do(files, s, acts, Fault);
    }
  }

  /** For any files the lease may be left open in either way. */
  lemma LeaseLeftOpen(files: seq<FileItem>) returns (t: State, u: State)
    ensures Reachable(files, t) && t.main == Finished(AbortFaulted)
    ensures Reachable(files, u) && u.main == Finished(HandlerLeft)
  {
    assert Runs(files, INITIAL, [], INITIAL);
    var acts, s := Do(files, INITIAL, [], Fault);
    var left;
    left, u := Do(files, s, acts, HandlerFault);
    acts, t := Do(files, s, acts, SetStop);
    acts, t := Do(files, t, acts, JoinReturns);
    acts, t := Do(files, t, acts, AbortReturns(false));
  }

  // ----- the ping thread ends -----

  predicate PingAction(a: Action) {
    a.PingChecks? || a.PingLoads? || a.PingStarts? || a.WaitTimesOut? || a.WaitSignalled?
  }

  /** The most steps the ping thread still takes once the event is set. */
  function StepsLeft(pc: PingPc): nat {
    match pc
    case Loading => 4
    case Pinging(_) => 3
    case Waiting => 2
    case Checking => 1
    case _ => 0
  }

  lemma {:induction false} StepsRunOut(files: seq<FileItem>, s: State, acts: seq<Action>, t: State)
    requires s.stop && !s.main.Starting? && Runs(files, s, acts, t)
    ensures |Filter(PingAction, acts)| + StepsLeft(t.ping) <= StepsLeft(s.ping)
    decreases |acts|
  {
    hide Percent, Total, Effective;
    if acts == [] {
    } else {
      StepsRunOut(files, Step(files, s, acts[0]), acts[1..], t);
    }
  }

  /** Once the stop event is set, however the threads interleave, the ping thread takes
      at most four more steps; and when it can take none, it has ended or never began. */
  lemma PingThreadEnds(files: seq<FileItem>, s: State, acts: seq<Action>, t: State)
    requires s.stop && !s.main.Starting? && Runs(files, s, acts, t)
    ensures |Filter(PingAction, acts)| <= 4
    ensures t.ping in {NotStarted, Exited} <==> forall a :: Enabled(files, t, a) ==> !PingAction(a)
  {
    StepsRunOut(files, s, acts, t);
    assert t.ping.Checking? ==> Enabled(files, t, PingChecks);
    assert t.ping.Loading? ==> Enabled(files, t, PingLoads);
    assert t.ping.Pinging? ==> Enabled(files, t, PingStarts);
    assert t.ping.Waiting? ==> Enabled(files, t, WaitTimesOut);
  }

  // ----- a ping after the end: exactly when -----

  /** The ping thread is past its check of the stop event and will start a ping. */
  predicate PingUnderway(s: State) {
    s.ping.Loading? || s.ping.Pinging?
  }

  /** The upload is over, the event is set and no ping is under way. */
  predicate Calm(s: State) {
    && s.stop && !PingUnderway(s)
    && (s.main.Completing? || s.main.HandlerStopping? || s.main.HandlerJoining? || s.main.Aborting? || s.main.Finished?)
  }

  lemma OnlyPingsTrail(n: nat, log: seq<Event>, e: Event)
    requires !e.PingStarted?
    ensures Read(n, log + [e]).trailing == Read(n, log).trailing
  {
    LogGrows(n, log, e);
  }

  lemma {:induction false} RunKeepsCalm(files: seq<FileItem>, s: State, acts: seq<Action>, t: State)
    requires Calm(s) && Runs(files, s, acts, t)
    ensures Calm(t) && Read(|files|, t.log).trailing == Read(|files|, s.log).trailing
    decreases |acts|
  {
    hide Read, Percent, Total, Effective;
    if acts == [] {
    } else {
      var s' := Step(files, s, acts[0]);
      RunKeepsCalm(files, s', acts[1..], t);
      if s'.log != s.log {
        OnlyPingsTrail(|files|, s.log, s'.log[|s.log|]);
      }
    }
  }

  lemma OneStep(files: seq<FileItem>, s: State, before: seq<Action>, t: State, a: Action)
    returns (acts: seq<Action>, u: State)
    requires Runs(files, s, before, t) && Enabled(files, t, a)
    ensures Runs(files, s, acts, u) && u == Step(files, t, a)
  {
    u := Step(files, t, a);
    assert [a][1..] == [] && Runs(files, u, [], u);
    assert Runs(files, t, [a], u);
    RunsJoin(files, s, before, t, [a], u);
    acts := before + [a];
  }

  /** A ping under way after the lease has ended, started. */
  lemma FinishPing(files: seq<FileItem>, s: State, before: seq<Action>, t: State) returns (acts: seq<Action>, u: State)
    requires Runs(files, s, before, t) && PingUnderway(t)
    requires Read(|files|, t.log).completions + Read(|files|, t.log).aborts > 0
    ensures Runs(files, s, acts, u) && Read(|files|, u.log).trailing > 0 && u.main == t.main
  {
    hide Runs, Read;
    acts, u := before, t;
    if t.ping.Loading? {
      acts, u := OneStep(files, s, acts, u, PingLoads);
    }
    LogGrows(|files|, u.log, PingStarted(u.ping.percent));
    acts, u := OneStep(files, s, acts, u, PingStarts);
  }

  /** From a state that is about to complete or abort the lease with a ping under
      way, a run in which the ping starts after that call. */
  lemma TrailingPing(files: seq<FileItem>, s: State) returns (acts: seq<Action>, t: State)
    requires s.main.Completing? || s.main.Aborting?
    requires PingUnderway(s)
    ensures Runs(files, s, acts, t) && Read(|files|, t.log).trailing > 0
    ensures t.main == Finished(if s.main.Completing? then Completed else Aborted)
  {
    assert Runs(files, s, [], s);
    hide Runs, Read;
    var a, e := if s.main.Completing? then CompleteReturns else AbortReturns(true),
                if s.main.Completing? then CompleteCalled(true) else AbortCalled(true);
    acts, t := OneStep(files, s, [], s, a);
    LogGrows(|files|, s.log, e);
    acts, t := FinishPing(files, s, acts, t);
  }

  lemma QuietEnd(files: seq<FileItem>, s: State)
    requires Inv(files, s) && (s.main.Completing? || s.main.Aborting?) && !PingUnderway(s)
    ensures Calm(s) && Read(|files|, s.log).trailing == 0
  {
  }

  lemma OneLatePing(files: seq<FileItem>, s: State)
    requires Inv(files, s)
    ensures Read(|files|, s.log).trailing <= 1
  {
  }

  /** When the lease is about to be completed or aborted, a ping can still start
      after that call if and only if the ping thread is past its check of the
      stop event, which means that joining it timed out; and then only one. */
  lemma PingAfterTheEnd(files: seq<FileItem>, s: State)
    requires Reachable(files, s) && (s.main.Completing? || s.main.Aborting?)
    ensures (exists acts, t :: Runs(files, s, acts, t) && Read(|files|, t.log).trailing > 0) <==> PingUnderway(s)
    ensures forall acts, t :: Runs(files, s, acts, t) ==> Read(|files|, t.log).trailing <= 1
  {
    assert Inv(files, INITIAL);
    hide Runs, Read, Inv, PingUnderway;
    var before :| Runs(files, INITIAL, before, s);
    RunKeepsInv(files, INITIAL, before, s);
    if PingUnderway(s) {
      var acts, t := TrailingPing(files, s);
    } else {
      QuietEnd(files, s);
      forall acts, t | Runs(files, s, acts, t)
        ensures Read(|files|, t.log).trailing == 0
      {
        RunKeepsCalm(files, s, acts, t);
      }
    }
    forall acts, t | Runs(files, s, acts, t)
      ensures Read(|files|, t.log).trailing <= 1
    {
      RunKeepsInv(files, s, acts, t);
      OneLatePing(files, t);
    }
  }

  /** With no files at all, a run whose ping thread is past its check when the event is set. */
  lemma StopRacesPing() returns (acts: seq<Action>, s: State)
    ensures Runs([], INITIAL, acts, s) && s.main.Stopping? && s.ping.Loading?
  {
    assert Runs([], INITIAL, [], INITIAL);
    hide Runs;
    acts, s := Do([], INITIAL, [], StartThread);
    acts, s := Do([], s, acts, LoopEnds);
    acts, s := Do([], s, acts, MarkFull);
    acts, s := Do([], s, acts, PingChecks);
  }

  /** A ping after the end does happen: one starts after the lease has been
      completed, because the join times out. */
  lemma PingAfterCompletion() returns (t: State)
    ensures Reachable([], t) && t.main == Finished(Completed) && Read(0, t.log).trailing == 1
  {
    hide Runs, Read;
    var acts, s := StopRacesPing();
    acts, s := Do([], s, acts, SetStop);
    acts, s := Do([], s, acts, JoinReturns);
    var more;
    more, t := TrailingPing([], s);
    PingAfterTheEnd([], s);
    RunsJoin([], INITIAL, acts, s, more, t);
  }

  // ----- the percentages never decrease: exactly when -----

  /** Reading all of file `i` reports more than the first byte of the later file `j`. */
  ghost predicate Regresses(files: seq<FileItem>, i: nat, j: nat) {
    && i < j < |files|
    && (forall k :: 0 <= k <= j ==> files[k].available)
    && files[i].member > 0 && files[j].member > 0
    && Percent(PriorSent(files, i) + files[i].member, Total(files)) > Percent(PriorSent(files, j) + 1, Total(files))
  }

  ghost predicate Steady(files: seq<FileItem>) {
    forall i: nat, j: nat :: !Regresses(files, i, j)
  }

  /** Some earlier file explains the current percentage. */
  ghost predicate ReportedEarlier(files: seq<FileItem>, file: nat, percent: nat) {
    exists i :: 0 <= i < file && i < |files| && files[i].member > 0
      && percent <= Percent(PriorSent(files, i) + files[i].member, Total(files))
  }

  /** While files are uploaded, the percentage is explained by what was read. */
  ghost predicate SourceInv(files: seq<FileItem>, s: State) {
    && (forall k :: 0 <= k < s.file && k < |files| ==> files[k].available)
    && (s.main.Uploading? && s.file < |files| ==> files[s.file].available && s.read <= files[s.file].member)
    && (s.main.Starting? || s.main.NextFile? || s.main.Uploading? ==>
          || s.percent == 0
          || (s.main.Uploading? && s.read > 0 && s.percent == Percent(s.sent + s.read, Total(files)))
          || ReportedEarlier(files, s.file, s.percent))
  }

  /** The pings so far are in order and none exceeds what is sent next. */
  ghost predicate PingsInv(files: seq<FileItem>, s: State) {
    var pings := Pings(files, s);
    && s.percent <= 100
    && (s.ping.Pinging? ==> s.ping.percent <= s.percent)
    && Sorted(pings)
    && (forall i :: 0 <= i < |pings| ==> 0 <= pings[i] <= if s.ping.Pinging? then s.ping.percent else s.percent)
  }

  ghost predicate PercentInv(files: seq<FileItem>, s: State) {
    SourceInv(files, s) && PingsInv(files, s)
  }

  lemma ReadRaisesPercent(files: seq<FileItem>, s: State, n: nat)
    requires Steady(files) && LoopInv(files, s) && SourceInv(files, s) && Enabled(files, s, ReadChunk(n))
    ensures s.percent <= Percent(s.sent + (s.read + n), Total(files))
  {
    var total := Total(files);
    PercentMonotone(s.sent + s.read, s.sent + (s.read + n), total);
    PercentMonotone(s.sent + 1, s.sent + (s.read + n), total);
    if ReportedEarlier(files, s.file, s.percent) {
      var i :| 0 <= i < s.file && i < |files| && files[i].member > 0
        && s.percent <= Percent(PriorSent(files, i) + files[i].member, total);
      assert !Regresses(files, i, s.file);
    }
  }

  lemma PutKeepsSourceInv(files: seq<FileItem>, s: State, status: nat)
    requires LoopInv(files, s) && SourceInv(files, s) && Enabled(files, s, PutReturns(status))
    ensures SourceInv(files, Step(files, s, PutReturns(status)))
  {
    if status < 400 {
      if ReportedEarlier(files, s.file, s.percent) {
        assert ReportedEarlier(files, s.file + 1, s.percent);
      } else if s.percent != 0 {
        PercentMonotone(s.sent + s.read, s.sent + files[s.file].member, Total(files));
        assert ReportedEarlier(files, s.file + 1, s.percent);
      }
    }
  }

  lemma StepKeepsSourceInv(files: seq<FileItem>, s: State, a: Action)
    requires LoopInv(files, s) && SourceInv(files, s) && Enabled(files, s, a)
    ensures SourceInv(files, Step(files, s, a))
  {
    if a.PutReturns? {
      PutKeepsSourceInv(files, s, a.status);
    }
  }

  lemma PingKeepsPingsInv(files: seq<FileItem>, s: State)
    requires PingsInv(files, s) && s.ping.Pinging?
    ensures PingsInv(files, Step(files, s, PingStarts))
  {
    LogGrows(|files|, s.log, PingStarted(s.ping.percent));
    assert Pings(files, Step(files, s, PingStarts)) == Pings(files, s) + [s.ping.percent];
  }

  lemma SamePingsKeepInv(files: seq<FileItem>, s: State, a: Action)
    requires PingsInv(files, s) && Enabled(files, s, a) && s.percent <= Step(files, s, a).percent
    requires !a.PingStarts? && Pings(files, Step(files, s, a)) == Pings(files, s)
    ensures PingsInv(files, Step(files, s, a))
  {
  }

  lemma StepKeepsPingsInv(files: seq<FileItem>, s: State, a: Action)
    requires PingsInv(files, s) && Enabled(files, s, a) && s.percent <= Step(files, s, a).percent
    ensures PingsInv(files, Step(files, s, a))
  {
    var log := Step(files, s, a).log;
    if a.PingStarts? {
      PingKeepsPingsInv(files, s);
    } else {
      if log != s.log {
        LogGrows(|files|, s.log, log[|log| - 1]);
      }
      SamePingsKeepInv(files, s, a);
    }
  }

  lemma StepKeepsPercentInv(files: seq<FileItem>, s: State, a: Action)
    requires Steady(files) && LoopInv(files, s) && PercentInv(files, s) && Enabled(files, s, a)
    ensures PercentInv(files, Step(files, s, a))
  {
    if a.ReadChunk? {
      ReadRaisesPercent(files, s, a.n);
    }
    StepKeepsSourceInv(files, s, a);
    StepKeepsPingsInv(files, s, a);
  }

  lemma {:induction false} RunKeepsPercentInv(files: seq<FileItem>, s: State, acts: seq<Action>, t: State)
    requires Steady(files) && Inv(files, s) && PercentInv(files, s) && Runs(files, s, acts, t)
    ensures PercentInv(files, t)
    decreases |acts|
  {
    if acts == [] {
    } else {
      StepKeepsPercentInv(files, s, acts[0]);
      StepKeepsInv(files, s, acts[0]);
      RunKeepsPercentInv(files, Step(files, s, acts[0]), acts[1..], t);
    }
  }

  /** A run in which the current file's PUT is accepted. */
  lemma AcceptFile(files: seq<FileItem>, s: State, before: seq<Action>) returns (acts: seq<Action>, t: State)
    requires Runs(files, INITIAL, before, s) && s.main.Uploading? && s.file < |files|
    ensures Runs(files, INITIAL, acts, t)
    ensures t.main.NextFile? && t.file == s.file + 1 && t.ping == s.ping && t.stop == s.stop
    ensures Pings(files, t) == Pings(files, s)
  {
    LogGrows(|files|, s.log, PutAnswered(s.file, 200));
    acts, t := Do(files, s, before, PutReturns(200));
  }

  /** A run that uploads whole files up to file `b`, leaving the ping thread where it is. */
  lemma UploadFiles(files: seq<FileItem>, s: State, before: seq<Action>, b: nat)
    returns (acts: seq<Action>, t: State)
    requires Runs(files, INITIAL, before, s)
    requires s.main.NextFile? && s.file <= b <= |files|
    requires forall k :: 0 <= k < b ==> files[k].available
    ensures Runs(files, INITIAL, acts, t)
    ensures t.main.NextFile? && t.file == b && t.ping == s.ping && t.stop == s.stop
    ensures Pings(files, t) == Pings(files, s)
    decreases b - s.file
  {
    if s.file == b {
      return before, s;
    }
    var size := files[s.file].member;
    var acts', s' := Do(files, s, before, OpenFile);
    if size > 0 {
      acts', s' := Do(files, s', acts', ReadChunk(size));
    }
    acts', s' := AcceptFile(files, s', acts');
    acts, t := UploadFiles(files, s', acts', b);
  }

  /** A run that opens the next file and reads `n` bytes of it. */
  lemma OpenAndRead(files: seq<FileItem>, s: State, before: seq<Action>, n: nat) returns (acts: seq<Action>, t: State)
    requires Runs(files, INITIAL, before, s)
    requires s.main.NextFile? && s.file < |files| && files[s.file].available && 1 <= n <= files[s.file].member
    ensures Runs(files, INITIAL, acts, t)
    ensures t == s.(main := Uploading, read := n, percent := Percent(s.sent + n, Total(files)))
  {
    acts, t := Do(files, s, before, OpenFile);
    acts, t := Do(files, t, acts, ReadChunk(n));
  }

  /** A run in which the ping thread reports the current percentage. */
  lemma ReportOnce(files: seq<FileItem>, s: State, before: seq<Action>) returns (acts: seq<Action>, t: State)
    requires Runs(files, INITIAL, before, s) && s.ping.Checking? && !s.stop
    ensures Runs(files, INITIAL, acts, t)
    ensures t == s.(ping := Waiting, log := t.log) && Pings(files, t) == Pings(files, s) + [s.percent]
  {
    acts, t := Do(files, s, before, PingChecks);
    acts, t := Do(files, t, acts, PingLoads);
    LogGrows(|files|, t.log, PingStarted(s.percent));
    acts, t := Do(files, t, acts, PingStarts);
  }

  /** A run that uploads the files before `k`, reads `n` bytes of it and reports them. */
  lemma ReadAndReport(files: seq<FileItem>, s: State, before: seq<Action>, k: nat, n: nat)
    returns (acts: seq<Action>, t: State)
    requires Runs(files, INITIAL, before, s)
    requires s.main.NextFile? && !s.stop && (s.ping.Checking? || s.ping.Waiting?)
    requires s.file <= k < |files| && 1 <= n <= files[k].member
    requires forall m :: 0 <= m <= k ==> files[m].available
    ensures Runs(files, INITIAL, acts, t)
    ensures t.main.Uploading? && !t.stop && t.ping.Waiting? && t.file == k
    ensures Pings(files, t) == Pings(files, s) + [Percent(PriorSent(files, k) + n, Total(files))]
  {
    hide Runs, Percent, Total;
    assert Runs(files, INITIAL, before, s);
    acts, t := UploadFiles(files, s, before, k);
    assert Inv(files, INITIAL);
    RunKeepsInv(files, INITIAL, acts, t);
    acts, t := OpenAndRead(files, t, acts, n);
    if t.ping.Waiting? {
      acts, t := Do(files, t, acts, WaitTimesOut);
    }
    acts, t := ReportOnce(files, t, acts);
  }

  // ----- 100 percent before the last file: exactly when -----

  /** An available file before the last that reaches the total when read to its end. */
  ghost predicate FullEarly(files: seq<FileItem>, k: int) {
    && 0 <= k < |files| - 1 && (forall j :: 0 <= j <= k ==> files[j].available)
    && files[k].member > 0 && PriorSent(files, k) + files[k].member >= Total(files)
  }

  lemma {:induction false} RunKeepsSourceInv(files: seq<FileItem>, s: State, acts: seq<Action>, t: State)
    requires Inv(files, s) && SourceInv(files, s) && Runs(files, s, acts, t)
    ensures Inv(files, t) && SourceInv(files, t)
    decreases |acts|
  {
    if acts == [] {
    } else {
      StepKeepsSourceInv(files, s, acts[0]);
      StepKeepsInv(files, s, acts[0]);
      RunKeepsSourceInv(files, Step(files, s, acts[0]), acts[1..], t);
    }
  }

  lemma BelowFull(files: seq<FileItem>, s: State)
    requires Inv(files, s) && SourceInv(files, s) && s.main.Uploading? && s.file < |files| - 1
    requires forall k :: !FullEarly(files, k)
    ensures s.percent < 100
  {
    var total := Total(files);
    if s.percent == 0 {
    } else if s.read > 0 && s.percent == Percent(s.sent + s.read, total) {
      assert !FullEarly(files, s.file);
      PercentFull(s.sent + s.read, total);
    } else {
      var i :| 0 <= i < s.file && i < |files| && files[i].member > 0
        && s.percent <= Percent(PriorSent(files, i) + files[i].member, total);
      assert !FullEarly(files, i);
      PercentFull(PriorSent(files, i) + files[i].member, total);
    }
  }

  lemma InitialInvs(files: seq<FileItem>)
    ensures Inv(files, INITIAL) && SourceInv(files, INITIAL)
  {
  }

  /** A run that reports 100 percent while such a file is uploaded. */
  lemma ReachFullEarly(files: seq<FileItem>, k: nat) returns (s: State)
    requires FullEarly(files, k)
    ensures Reachable(files, s) && s.main.Uploading? && s.file == k < |files| - 1 && s.percent == 100
  {
    assert Runs(files, INITIAL, [], INITIAL);
    var acts;
    acts, s := Do(files, INITIAL, [], StartThread);
    acts, s := UploadFiles(files, s, acts, k);
    assert Inv(files, INITIAL);
    RunKeepsInv(files, INITIAL, acts, s);
    acts, s := OpenAndRead(files, s, acts, files[k].member);
    PercentFull(PriorSent(files, k) + files[k].member, Total(files));
  }

  /** In every interleaving the percentage stays below 100 until the last file is
      uploaded, if and only if no file before it reaches the total. */
  lemma FullOnlyAtTheEnd(files: seq<FileItem>)
    ensures (forall s :: Reachable(files, s) && s.main.Uploading? && s.file < |files| - 1 ==> s.percent < 100)
      <==> forall k :: !FullEarly(files, k)
  {
    hide Runs, Inv, SourceInv;
    if k: int :| FullEarly(files, k) {
      var s := ReachFullEarly(files, k);
    } else {
      forall s | Reachable(files, s) && s.main.Uploading? && s.file < |files| - 1
        ensures s.percent < 100
      {
        InitialInvs(files);
        var acts :| Runs(files, INITIAL, acts, s);
        RunKeepsSourceInv(files, INITIAL, acts, s);
        BelowFull(files, s);
      }
    }
  }

  /** Once the upload is over, the percentage is 100. */
  ghost predicate FullInv(s: State) {
    s.main.Stopping? || s.main.Joining? || s.main.Completing? ==> s.percent == 100
  }

  lemma {:induction false} RunKeepsFullInv(files: seq<FileItem>, s: State, acts: seq<Action>, t: State)
    requires FullInv(s) && Runs(files, s, acts, t)
    ensures FullInv(t)
    decreases |acts|
  {
    if acts == [] {
    } else {
      RunKeepsFullInv(files, Step(files, s, acts[0]), acts[1..], t);
    }
  }

  /** In every interleaving the thread is stopped and the lease completed at 100 percent. */
  lemma CompletesAtFull(files: seq<FileItem>, s: State)
    requires Reachable(files, s) && (s.main.Stopping? || s.main.Joining? || s.main.Completing?)
    ensures s.percent == 100
  {
    var acts :| Runs(files, INITIAL, acts, s);
    RunKeepsFullInv(files, INITIAL, acts, s);
  }

  // ----- the range of the percentages, whatever the files -----

  ghost predicate RangeInv(files: seq<FileItem>, s: State) {
    && 0 <= s.percent <= 100 && (s.ping.Pinging? ==> s.ping.percent <= 100)
    && forall p :: p in Pings(files, s) ==> 0 <= p <= 100
  }

  /** A step sends a percentage to the lease only if it starts a ping. */
  lemma PingsAfter(files: seq<FileItem>, s: State, a: Action)
    requires Enabled(files, s, a)
    ensures Pings(files, Step(files, s, a)) ==
      if a.PingStarts? then Pings(files, s) + [s.ping.percent] else Pings(files, s)
  {
    hide Read, Percent, Total, Effective;
    var log := Step(files, s, a).log;
    if log != s.log {
      LogGrows(|files|, s.log, log[|log| - 1]);
    }
  }

  lemma StepKeepsRangeInv(files: seq<FileItem>, s: State, a: Action)
    requires RangeInv(files, s) && Enabled(files, s, a)
    ensures RangeInv(files, Step(files, s, a))
  {
    PingsAfter(files, s, a);
    hide Pings;
  }

  lemma {:induction false} RunKeepsRangeInv(files: seq<FileItem>, s: State, acts: seq<Action>, t: State)
    requires RangeInv(files, s) && Runs(files, s, acts, t)
    ensures RangeInv(files, t)
    decreases |acts|
  {
    if acts == [] {
    } else {
      StepKeepsRangeInv(files, s, acts[0]);
      RunKeepsRangeInv(files, Step(files, s, acts[0]), acts[1..], t);
    }
  }

  /** From a regressing pair of files, an interleaving whose pings decrease. */
  lemma RegressionIsSeen(files: seq<FileItem>, i: nat, j: nat) returns (t: State)
    requires Regresses(files, i, j)
    ensures Reachable(files, t) && !Sorted(Pings(files, t))
  {
    assert Runs(files, INITIAL, [], INITIAL);
    var acts, s := Do(files, INITIAL, [], StartThread);
    acts, s := ReadAndReport(files, s, acts, i, files[i].member);
    acts, s := AcceptFile(files, s, acts);
    acts, t := ReadAndReport(files, s, acts, j, 1);
    var pings := Pings(files, t);
    assert |pings| == 2 && pings[0] > pings[1];
  }

  /** In every interleaving and for every failure point the percentages the lease
      receives stay within 0..100; and they never decrease if and only if no file
      read to its end reports more than the first byte of a later one. */
  lemma PingsNeverDecreaseIffSteady(files: seq<FileItem>)
    ensures Steady(files) <==> forall t :: Reachable(files, t) ==> Sorted(Pings(files, t))
    ensures forall t, p :: Reachable(files, t) && p in Pings(files, t) ==> 0 <= p <= 100
  {
    forall t | Reachable(files, t)
      ensures RangeInv(files, t)
    {
      var acts :| Runs(files, INITIAL, acts, t);
      RunKeepsRangeInv(files, INITIAL, acts, t);
    }
    if Steady(files) {
      forall t | Reachable(files, t)
        ensures PercentInv(files, t)
      {
        var acts :| Runs(files, INITIAL, acts, t);
        RunKeepsPercentInv(files, INITIAL, acts, t);
      }
    } else {
      var i: nat, j: nat :| Regresses(files, i, j);
      var t := RegressionIsSeen(files, i, j);
    }
  }

  /** Files that are no longer than their announced size never regress. */
  lemma WithinDeclaredIsSteady(files: seq<FileItem>)
    requires forall k :: 0 <= k < |files| ==> files[k].member <= Effective(files[k])
    ensures Steady(files)
  {
    forall i: nat, j: nat | i < j < |files|
      ensures !Regresses(files, i, j)
    {
      PriorMonotone(files, i + 1, j);
      assert PriorSent(files, i + 1) == PriorSent(files, i) + Effective(files[i]);
      PercentMonotone(PriorSent(files, i) + files[i].member, PriorSent(files, j) + 1, Total(files));
    }
  }

  /** A file longer than declared can make the percentages fall: a first file
      of 3 bytes declared as 1, before one of 4, reports 60 percent and then 40. */
  lemma OverlongFileRegresses() returns (files: seq<FileItem>)
    ensures !Steady(files)
  {
    var first, second := FileItem(Some(1), 3, true), FileItem(Some(4), 4, true);
    files := [first, second];
    assert files[1..] == [second] && [second][1..] == [];
    assert DeclaredSum([second]) == 4;
    assert Total(files) == 5 && PriorSent(files, 1) == 1;
    assert Regresses(files, 0, 1);
  }
}

/** The two models of the upload block agree: what the main thread of a finished
    run of `LeaseProtocol` calls is what `OvaDeploy` plans for the block and its
    handler. */
module LeaseRefinement {
  import opened LeaseProtocol
  import opened OvaSizes
  import D = OvaDeploy

  /** The call the main thread is in. */
  function CallAt(pc: MainPc): D.Op {
    match pc
    case Starting => D.StartPings
    case MarkingFull => D.MarkFull
    case Stopping => D.StopPings
    case Joining => D.StopPings
    case Completing => D.CompleteLease
    case _ => D.UploadDisks
  }

  /** The call of the block or its handler that a step brings to its end, if any. */
  function Ended(s: State, a: Action): seq<D.Event> {
    match a
    case StartThread => [D.Event(D.StartPings, D.Ok)]
    case PutReturns(status) => if status >= 400 then [D.Event(D.UploadDisks, D.Fault)] else []
    case LoopEnds => [D.Event(D.UploadDisks, D.Ok)]
    case MarkFull => [D.Event(D.MarkFull, D.Ok)]
    case JoinReturns => [D.Event(D.StopPings, D.Ok)]
    case CompleteReturns => [D.Event(D.CompleteLease, D.Ok)]
    case Fault => [D.Event(CallAt(s.main), D.Fault)]
    case HandlerFault => [D.Event(D.StopPings, D.Fault)]
    case AbortReturns(ok) => [D.Event(D.AbortLease, if ok then D.Ok else D.Fault)]
    case _ => []
  }

  /** The calls the main thread makes in a run, with how they end. */
  function MainCalls(files: seq<FileItem>, s: State, acts: seq<Action>): seq<D.Event>
    decreases |acts|
  {
    if acts == [] || !Enabled(files, s, acts[0]) then []
    else Ended(s, acts[0]) + MainCalls(files, Step(files, s, acts[0]), acts[1..])
  }

  /** The first `k` calls of the block, all returned. */
  function Returned(k: nat): seq<D.Event>
    requires k <= |D.BLOCK|
  {
    seq(k, i requires 0 <= i < k => D.Event(D.BLOCK[i], D.Ok))
  }

  /** `c` ends with call `j` of the block faulting. */
  function Faulted(j: nat): seq<D.Event>
    requires j < |D.BLOCK|
  {
    Returned(j) + [D.Event(D.BLOCK[j], D.Fault)]
  }

  /** What the handler has called when the main thread is at `pc`. */
  function HandlerCalls(pc: MainPc): seq<D.Event> {
    match pc
    case Aborting => [D.Event(D.StopPings, D.Ok)]
    case Finished(Aborted) => [D.Event(D.StopPings, D.Ok), D.Event(D.AbortLease, D.Ok)]
    case Finished(AbortFaulted) => [D.Event(D.StopPings, D.Ok), D.Event(D.AbortLease, D.Fault)]
    case Finished(HandlerLeft) => [D.Event(D.StopPings, D.Fault)]
    case _ => []
  }

  /** The position in the block of a main thread that has met no fault. */
  function Position(pc: MainPc): nat
    ensures Position(pc) <= |D.BLOCK|
  {
    match pc
    case Starting => 0
    case MarkingFull => 2
    case Stopping => 3
    case Joining => 3
    case Completing => 4
    case Finished(_) => 5
    case _ => 1
  }

  predicate InHandler(pc: MainPc) {
    pc.HandlerStopping? || pc.HandlerJoining? || pc.Aborting? || (pc.Finished? && pc.how != Completed)
  }

  /** What has been called by the time the main thread is at `pc`. */
  ghost predicate CallsSoFar(pc: MainPc, c: seq<D.Event>) {
    if InHandler(pc) then exists j: nat :: j < |D.BLOCK| && c == Faulted(j) + HandlerCalls(pc)
    else c == Returned(Position(pc))
  }

  lemma NothingReturned()
    ensures Returned(0) == []
  {
  }

  lemma FaultedOutcomes(j: nat)
    requires j < |D.BLOCK|
    ensures |Faulted(j)| == j + 1 && Faulted(j)[j].outcome == D.Fault
    ensures forall i :: 0 <= i < j ==> Faulted(j)[i].outcome == D.Ok
  {
  }

  lemma ReturnedOutcomes(k: nat)
    requires k <= |D.BLOCK|
    ensures |Returned(k)| == k && forall i :: 0 <= i < k ==> Returned(k)[i].outcome == D.Ok
  {
  }

  lemma PlainStep(files: seq<FileItem>, s: State, a: Action)
    requires Enabled(files, s, a) && !InHandler(s.main) && !InHandler(Step(files, s, a).main)
    ensures Returned(Position(s.main)) + Ended(s, a) == Returned(Position(Step(files, s, a).main))
  {
    hide Percent, Total, Effective;
  }

  lemma FaultStep(files: seq<FileItem>, s: State, a: Action)
    requires Enabled(files, s, a) && !InHandler(s.main) && InHandler(Step(files, s, a).main)
    ensures Position(s.main) < |D.BLOCK| && Ended(s, a) == [D.Event(D.BLOCK[Position(s.main)], D.Fault)]
    ensures HandlerCalls(Step(files, s, a).main) == []
  {
    hide Percent, Total, Effective;
  }

  lemma HandlerStep(files: seq<FileItem>, s: State, a: Action)
    requires Enabled(files, s, a) && InHandler(s.main)
    ensures InHandler(Step(files, s, a).main)
    ensures HandlerCalls(s.main) + Ended(s, a) == HandlerCalls(Step(files, s, a).main)
  {
    hide Percent, Total, Effective;
  }

  lemma StepCalls(files: seq<FileItem>, s: State, a: Action, c: seq<D.Event>)
    requires Enabled(files, s, a) && CallsSoFar(s.main, c)
    ensures CallsSoFar(Step(files, s, a).main, c + Ended(s, a))
  {
    hide Step, Enabled, Ended, HandlerCalls, Returned, Position, InHandler;
    var pc := Step(files, s, a).main;
    if InHandler(s.main) {
      var j: nat :| j < |D.BLOCK| && c == Faulted(j) + HandlerCalls(s.main);
      HandlerStep(files, s, a);
      assert Faulted(j) + HandlerCalls(s.main) + Ended(s, a) == Faulted(j) + (HandlerCalls(s.main) + Ended(s, a));
    } else if InHandler(pc) {
      FaultStep(files, s, a);
      assert c + Ended(s, a) == Faulted(Position(s.main)) + HandlerCalls(pc);
    } else {
      PlainStep(files, s, a);
    }
  }

  lemma {:induction false} RunCalls(files: seq<FileItem>, s: State, acts: seq<Action>, t: State, c: seq<D.Event>)
    requires Runs(files, s, acts, t) && CallsSoFar(s.main, c)
    ensures CallsSoFar(t.main, c + MainCalls(files, s, acts))
    decreases |acts|
  {
    hide CallsSoFar, Ended, Step, Enabled;
    if acts == [] {
      assert c + [] == c;
    } else {
      StepCalls(files, s, acts[0], c);
      RunCalls(files, Step(files, s, acts[0]), acts[1..], t, c + Ended(s, acts[0]));
      assert c + Ended(s, acts[0]) + MainCalls(files, Step(files, s, acts[0]), acts[1..]) ==
        c + MainCalls(files, s, acts);
    }
  }

  /** The block as planned, with the handler after a failure. */
  function Planned(oracle: nat -> D.Outcome): seq<D.Event> {
    var body := D.Attempt(oracle, 0, D.BLOCK);
    body + if body != [] && body[|body| - 1].outcome != D.Ok then D.Handler(oracle, |body|) else []
  }

  lemma AllReturn(oracle: nat -> D.Outcome)
    requires forall n :: 0 <= n < |D.BLOCK| ==> oracle(n) == D.Ok
    ensures Planned(oracle) == Returned(|D.BLOCK|)
  {
    hide D.Attempt;
    D.AttemptShape(oracle, 0, D.BLOCK);
    D.AttemptOutcomes(oracle, 0, D.BLOCK);
  }

  lemma OneFaults(oracle: nat -> D.Outcome, j: nat)
    requires j < |D.BLOCK| && oracle(j) == D.Fault && forall n :: 0 <= n < j ==> oracle(n) == D.Ok
    ensures Planned(oracle) == Faulted(j) + D.Handler(oracle, j + 1)
  {
    hide D.Attempt, D.Handler;
    D.AttemptFails(oracle, 0, D.BLOCK, j);
    D.AttemptShape(oracle, 0, D.BLOCK);
    assert D.Attempt(oracle, 0, D.BLOCK) == Faulted(j);
  }

  lemma HandledAsPlanned(oracle: nat -> D.Outcome, base: nat, pc: MainPc)
    requires pc.Finished? && pc.how != Completed
    requires var handled := HandlerCalls(pc);
      forall i :: 0 <= i < |handled| ==> oracle(base + i) == handled[i].outcome
    ensures D.Handler(oracle, base) == HandlerCalls(pc)
  {
    var handled := HandlerCalls(pc);
    assert oracle(base + 0) == handled[0].outcome;
    assert |handled| > 1 ==> oracle(base + 1) == handled[1].outcome;
  }

  lemma FaultedIsPlanned(oracle: nat -> D.Outcome, j: nat, pc: MainPc, c: seq<D.Event>)
    requires j < |D.BLOCK| && pc.Finished? && c == Faulted(j) + HandlerCalls(pc)
    requires forall n :: 0 <= n < |c| ==> oracle(n) == c[n].outcome
    requires pc.how != Completed
    ensures c == Planned(oracle)
  {
    hide Faulted, Planned, HandlerCalls, D.Handler, D.Attempt;
    var handled := HandlerCalls(pc);
    FaultedOutcomes(j);
    assert c[j] == Faulted(j)[j] && forall i :: 0 <= i < j ==> c[i] == Faulted(j)[i];
    OneFaults(oracle, j);
    forall i | 0 <= i < |handled|
      ensures oracle(j + 1 + i) == handled[i].outcome
    {
      assert c[j + 1 + i] == handled[i];
    }
    HandledAsPlanned(oracle, j + 1, pc);
  }

  /** The calls of every finished run, with a fault at any point and in every
      interleaving, are those of the block and its handler under some oracle. */
  lemma FinishedRunIsPlanned(files: seq<FileItem>, acts: seq<Action>, t: State) returns (oracle: nat -> D.Outcome)
    requires Runs(files, INITIAL, acts, t) && t.main.Finished?
    ensures MainCalls(files, INITIAL, acts) == Planned(oracle)
  {
    hide MainCalls, Runs, Returned, Planned, Faulted, HandlerCalls, D.Handler;
    var c := MainCalls(files, INITIAL, acts);
    NothingReturned();
    assert Returned(0) == [] && [] + c == c;
    RunCalls(files, INITIAL, acts, t, []);
    oracle := (n: nat) => if n < |c| then c[n].outcome else D.Ok;
    if t.main.how == Completed {
      ReturnedOutcomes(|D.BLOCK|);
      AllReturn(oracle);
    } else {
      var j: nat :| j < |D.BLOCK| && c == Faulted(j) + HandlerCalls(t.main);
      FaultedIsPlanned(oracle, j, t.main, c);
    }
  }
}

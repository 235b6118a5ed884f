/** The try/except/finally structure of `deploy_ova`, with a failure possible at
    every call it makes.

    Each call ends in one of three ways: it returns, it raises an `Exception`
    (a fault), or it raises a `BaseException` that is none (an interrupt, which
    `except Exception` lets through). */
module OvaDeploy {
  datatype Op =
    | Connect
    | ResolveTargets
    | MakeTemp
    | Download
    | FindLocal
    | OpenArchive
    | ReadDescriptor
    | CreateSpec
    | ImportVApp
    | WaitReady
    | StartPings
    | UploadDisks
    | MarkFull
    | StopPings
    | CompleteLease
    | AbortLease
    | Unlink
    | PowerOn
    | WaitPowered
    | Disconnect

  datatype Outcome = Ok | Fault | Interrupt

  datatype Event = Event(op: Op, outcome: Outcome)

  datatype Result = Returned(poweredOn: bool) | Raised(how: Outcome)

  /** Everything outside `deploy_ova`: call number `n` ends with `oracle(n)`. */
  class World {
    const oracle: nat -> Outcome
    var log: seq<Event>

    constructor (oracle: nat -> Outcome)
      ensures log == [] && this.oracle == oracle
    {
      this.oracle := oracle;
      log := [];
    }

    method Do(op: Op) returns (o: Outcome)
      modifies this
      ensures log == old(log) + [Event(op, o)] && o == oracle(|old(log)|)
    {
      o := oracle(|log|);
      log := log + [Event(op, o)];
    }
  }

  // ----- the trace a deployment leaves -----

  function Fetch(url: bool): seq<Op> {
    if url then [MakeTemp, Download] else [FindLocal]
  }

  const IMPORT := [OpenArchive, ReadDescriptor, CreateSpec, ImportVApp, WaitReady]

  const BLOCK := [StartPings, UploadDisks, MarkFull, StopPings, CompleteLease]

  function AfterFetch(url: bool): seq<Op> {
    IMPORT + BLOCK + if url then [Unlink] else []
  }

  /** The calls of a deployment in which nothing fails, up to the final disconnect. */
  function Plan(url: bool, powerOn: bool): seq<Op> {
    [Connect, ResolveTargets] + Fetch(url) + AfterFetch(url) + if powerOn then [PowerOn, WaitPowered] else []
  }

  /** `ops` in order, up to and including the first that does not return. */
  function Attempt(oracle: nat -> Outcome, base: nat, ops: seq<Op>): seq<Event>
    decreases |ops|
  {
    if ops == [] then []
    else if oracle(base) != Ok then [Event(ops[0], oracle(base))]
    else [Event(ops[0], Ok)] + Attempt(oracle, base + 1, ops[1..])
  }

  ghost predicate Failed(body: seq<Event>) {
    body != [] && body[|body| - 1].outcome != Ok
  }

  /** After a call of the upload block failed: stop the pings and, if that
      returns, abort the lease. */
  function Handler(oracle: nat -> Outcome, base: nat): seq<Event> {
    Attempt(oracle, base, [StopPings, AbortLease])
  }

  /** The downloaded file is there to be removed when `last`, which failed, is
      the download (if it only faulted) or anything before the removal itself. */
  predicate LeavesTemp(url: bool, last: Event) {
    url && (last.op in IMPORT || last.op in BLOCK || last == Event(Download, Fault))
  }

  /** What handlers and finally clauses do before the disconnect, after the
      planned calls ended with `last`, which failed. */
  function Releases(oracle: nat -> Outcome, base: nat, url: bool, last: Event): seq<Event> {
    var handler := if last.op in BLOCK then Handler(oracle, base) else [];
    handler + if LeavesTemp(url, last) then [Event(Unlink, oracle(base + |handler|))] else []
  }

  /** What is done after the planned calls came to an end with `body`. */
  function Cleanup(oracle: nat -> Outcome, base: nat, url: bool, body: seq<Event>): seq<Event>
    requires body != []
  {
    var last := body[|body| - 1];
    if last.outcome != Ok && last.op == Connect then []
    else
      var releases := if last.outcome == Ok then [] else Releases(oracle, base, url, last);
      releases + [Event(Disconnect, oracle(base + |releases|))]
  }

  function Trace(oracle: nat -> Outcome, base: nat, url: bool, powerOn: bool): seq<Event> {
    var body := Attempt(oracle, base, Plan(url, powerOn));
    assert body != [];
    body + Cleanup(oracle, base + |body|, url, body)
  }

  predicate Passes(e: Event) {
    e.outcome == Ok || (e.outcome == Fault && (e.op == AbortLease || e.op == Disconnect))
  }

  /** What the trace amounts to for the caller: how the last call that raised
      ended, faults of the abort and of the disconnect apart; Ok if none did. */
  function Verdict(trace: seq<Event>): Outcome {
    if trace == [] then Ok
    else
      var last := trace[|trace| - 1];
      if Passes(last) then Verdict(trace[..|trace| - 1]) else last.outcome
  }

  lemma VerdictSnoc(trace: seq<Event>, e: Event)
    ensures Verdict(trace + [e]) == if Passes(e) then Verdict(trace) else e.outcome
  {
    assert (trace + [e])[..|trace|] == trace;
  }

  // ----- the code -----

  lemma {:induction false} AttemptSnoc(oracle: nat -> Outcome, base: nat, ops: seq<Op>, op: Op)
    ensures var a := Attempt(oracle, base, ops);
      && (!Failed(a) ==> |a| == |ops|)
      && Attempt(oracle, base, ops + [op]) == a + if Failed(a) then [] else [Event(op, oracle(base + |ops|))]
    decreases |ops|
  {
    if ops == [] {
      assert [op][1..] == [];
    } else {
      assert (ops + [op])[1..] == ops[1..] + [op];
      AttemptSnoc(oracle, base + 1, ops[1..], op);
      if oracle(base) == Ok {
        var rest := Attempt(oracle, base + 1, ops[1..]);
        var a := [Event(ops[0], Ok)] + rest;
        assert rest != [] ==> a[|a| - 1] == rest[|rest| - 1];
      }
    }
  }

  /** The control state of the running code: the planned calls `done` have been
      attempted after `pre`, `extra` was appended by handlers, and `r` is the
      exception in flight, or Ok. */
  ghost predicate InFlight(w: World, pre: seq<Event>, done: seq<Op>, extra: seq<Event>, r: Outcome)
    reads w
  {
    var body := Attempt(w.oracle, |pre|, done);
    && w.log == pre + body + extra
    && (r == Ok <==> !Failed(body))
    && (r == Ok ==> extra == [])
    && Verdict(body + extra) == r
  }

  ghost function LastEvent(w: World, pre: seq<Event>, done: seq<Op>): Event
    requires Failed(Attempt(w.oracle, |pre|, done))
  {
    var body := Attempt(w.oracle, |pre|, done);
    body[|body| - 1]
  }

  /** Once an exception is in flight, the rest of the plan is skipped. */
  lemma {:induction false} AttemptStops(oracle: nat -> Outcome, base: nat, ops: seq<Op>, rest: seq<Op>)
    requires Failed(Attempt(oracle, base, ops))
    ensures Attempt(oracle, base, ops + rest) == Attempt(oracle, base, ops)
    decreases |rest|
  {
    if rest == [] {
      assert ops + rest == ops;
    } else {
      AttemptSnoc(oracle, base, ops, rest[0]);
      assert Attempt(oracle, base, ops) + [] == Attempt(oracle, base, ops);
      assert ops + rest == (ops + [rest[0]]) + rest[1..];
      AttemptStops(oracle, base, ops + [rest[0]], rest[1..]);
    }
  }

  /** `InFlight`, and a failure has been followed by exactly the releases it calls for. */
  ghost predicate Settled(w: World, pre: seq<Event>, ops: seq<Op>, url: bool, extra: seq<Event>, r: Outcome)
    reads w
  {
    && InFlight(w, pre, ops, extra, r)
    && (r != Ok ==>
          && LastEvent(w, pre, ops).op != Connect
          && extra == Releases(w.oracle, |pre| + |Attempt(w.oracle, |pre|, ops)|, url, LastEvent(w, pre, ops)))
  }

  lemma SkipRest(w: World, pre: seq<Event>, ops: seq<Op>, rest: seq<Op>, url: bool, extra: seq<Event>, r: Outcome)
    requires Settled(w, pre, ops, url, extra, r) && r != Ok
    ensures Settled(w, pre, ops + rest, url, extra, r)
  {
    AttemptStops(w.oracle, |pre|, ops, rest);
  }

  /** The next statement of straight-line code: skipped while an exception is in flight. */
  method Then(w: World, prev: Outcome, op: Op, ghost pre: seq<Event>, ghost done: seq<Op>, ghost extra: seq<Event>)
    returns (r: Outcome)
    requires InFlight(w, pre, done, extra, prev)
    requires op != AbortLease && op != Disconnect
    modifies w
    ensures InFlight(w, pre, done + [op], extra, r)
    ensures prev != Ok ==> r == prev && Attempt(w.oracle, |pre|, done + [op]) == Attempt(w.oracle, |pre|, done)
    ensures prev == Ok && r != Ok ==> LastEvent(w, pre, done + [op]) == Event(op, r)
  {
    AttemptSnoc(w.oracle, |pre|, done, op);
    r := prev;
    ghost var body := Attempt(w.oracle, |pre|, done);
    assert body + [] == body;
    if r == Ok {
      r := w.Do(op);
      ghost var more := body + [Event(op, r)];
      VerdictSnoc(body, Event(op, r));
      assert body + extra == body && more + extra == more;
      assert pre + body + extra + [Event(op, r)] == pre + more + extra;
      assert Failed(more) <==> r != Ok;
    }
  }

  /** One more call, made by a handler or a finally clause whatever is in flight. */
  method AlsoDo(w: World, prev: Outcome, op: Op, ghost pre: seq<Event>, ghost trace: seq<Event>)
    returns (o: Outcome, r: Outcome)
    requires w.log == pre + trace && Verdict(trace) == prev
    modifies w
    ensures o == w.oracle(|pre| + |trace|)
    ensures w.log == pre + (trace + [Event(op, o)]) && r == Verdict(trace + [Event(op, o)])
    ensures r == Ok <==> prev == Ok && Passes(Event(op, o))
  {
    o := w.Do(op);
    VerdictSnoc(trace, Event(op, o));
    r := if Passes(Event(op, o)) then prev else o;
    assert pre + trace + [Event(op, o)] == pre + (trace + [Event(op, o)]);
  }

  method HandleFailure(w: World, failed: Outcome, ghost pre: seq<Event>, ghost body: seq<Event>)
    returns (r: Outcome, ghost extra: seq<Event>)
    requires failed != Ok && w.log == pre + body + [] && Verdict(body + []) == failed
    modifies w
    ensures w.log == pre + body + extra && r == Verdict(body + extra) && r != Ok
    ensures extra == Handler(w.oracle, |pre| + |body|)
  {
    assert body + [] == body && pre + body + [] == pre + body;
    var stopped, aborted;
    stopped, r := AlsoDo(w, failed, StopPings, pre, body);
    extra := [Event(StopPings, stopped)];
    assert pre + (body + extra) == pre + body + extra;
    if stopped == Ok {
      aborted, r := AlsoDo(w, r, AbortLease, pre, body + extra);
      extra := [Event(StopPings, stopped), Event(AbortLease, aborted)];
      assert body + [Event(StopPings, stopped)] + [Event(AbortLease, aborted)] == body + extra;
      assert pre + (body + extra) == pre + body + extra;
    }
  }

  /** The try/except around the upload. */
  method UploadBlock(w: World, ghost pre: seq<Event>, ghost done: seq<Op>) returns (r: Outcome, ghost extra: seq<Event>)
    requires InFlight(w, pre, done, [], Ok)
    modifies w
    ensures InFlight(w, pre, done + BLOCK, extra, r)
    ensures r == Ok ==> extra == []
    ensures r != Ok ==> LastEvent(w, pre, done + BLOCK).op in BLOCK
    ensures r != Ok ==> extra == Handler(w.oracle, |pre| + |Attempt(w.oracle, |pre|, done + BLOCK)|)
  {
    hide Attempt, Verdict, Handler;
    extra := [];
    r := Then(w, Ok, StartPings, pre, done, []);
    r := Then(w, r, UploadDisks, pre, done + [StartPings], []);
    r := Then(w, r, MarkFull, pre, done + [StartPings] + [UploadDisks], []);
    r := Then(w, r, StopPings, pre, done + [StartPings] + [UploadDisks] + [MarkFull], []);
    r := Then(w, r, CompleteLease, pre, done + [StartPings] + [UploadDisks] + [MarkFull] + [StopPings], []);
    assert done + [StartPings] + [UploadDisks] + [MarkFull] + [StopPings] + [CompleteLease] == done + BLOCK;
    if r != Ok {
      r, extra := HandleFailure(w, r, pre, Attempt(w.oracle, |pre|, done + BLOCK));
    }
  }

  /** `_materialize_ova`: a download that faulted is removed here, one that was
      interrupted is not. */
  method Materialize(w: World, url: bool, ghost pre: seq<Event>, ghost done: seq<Op>)
    returns (r: Outcome, cleanup: bool, ghost extra: seq<Event>)
    requires InFlight(w, pre, done, [], Ok)
    modifies w
    ensures Settled(w, pre, done + Fetch(url), url, extra, r)
    ensures r == Ok ==> cleanup == url
  {
    hide Attempt, Verdict;
    extra, cleanup := [], false;
    if url {
      var made := Then(w, Ok, MakeTemp, pre, done, []);
      r := Then(w, made, Download, pre, done + [MakeTemp], []);
      assert done + [MakeTemp] + [Download] == done + Fetch(url);
      ghost var body := Attempt(w.oracle, |pre|, done + Fetch(url));
      if made == Ok && r == Fault {
        assert pre + body + [] == pre + body && body + [] == body;
        var o;
        o, r := AlsoDo(w, r, Unlink, pre, body);
        extra := [Event(Unlink, o)];
        assert pre + (body + extra) == pre + body + extra;
      }
      cleanup := true;
    } else {
      r := Then(w, Ok, FindLocal, pre, done, []);
    }
  }

  method UnlinkInFlight(w: World, prev: Outcome, ghost pre: seq<Event>, ghost ops: seq<Op>, ghost before: seq<Event>)
    returns (r: Outcome, ghost extra: seq<Event>)
    requires InFlight(w, pre, ops, before, prev) && prev != Ok
    modifies w
    ensures InFlight(w, pre, ops + [Unlink], extra, r) && r != Ok
    ensures Attempt(w.oracle, |pre|, ops + [Unlink]) == Attempt(w.oracle, |pre|, ops)
    ensures extra == before + [Event(Unlink, w.oracle(|pre| + |Attempt(w.oracle, |pre|, ops)| + |before|))]
  {
    hide Attempt, Verdict;
    AttemptStops(w.oracle, |pre|, ops, [Unlink]);
    ghost var body := Attempt(w.oracle, |pre|, ops);
    assert pre + body + before == pre + (body + before);
    var o;
    o, r := AlsoDo(w, prev, Unlink, pre, body + before);
    assert body + before + [Event(Unlink, o)] == body + (before + [Event(Unlink, o)]);
    extra := before + [Event(Unlink, o)];
    assert pre + (body + extra) == pre + body + extra;
  }

  method Import(w: World, ghost pre: seq<Event>, ghost done: seq<Op>) returns (r: Outcome)
    requires InFlight(w, pre, done, [], Ok)
    modifies w
    ensures InFlight(w, pre, done + IMPORT, [], r)
    ensures r != Ok ==> LastEvent(w, pre, done + IMPORT).op in IMPORT
  {
    hide Attempt, Verdict;
    r := Then(w, Ok, OpenArchive, pre, done, []);
    r := Then(w, r, ReadDescriptor, pre, done + [OpenArchive], []);
    r := Then(w, r, CreateSpec, pre, done + [OpenArchive] + [ReadDescriptor], []);
    r := Then(w, r, ImportVApp, pre, done + [OpenArchive] + [ReadDescriptor] + [CreateSpec], []);
    r := Then(w, r, WaitReady, pre, done + [OpenArchive] + [ReadDescriptor] + [CreateSpec] + [ImportVApp], []);
    assert done + [OpenArchive] + [ReadDescriptor] + [CreateSpec] + [ImportVApp] + [WaitReady] == done + IMPORT;
  }

  /** The inner try/finally: import, wait for the lease, upload; then remove the
      downloaded file, whatever happened. */
  method WithArchive(w: World, cleanup: bool, ghost pre: seq<Event>, ghost done: seq<Op>)
    returns (r: Outcome, ghost extra: seq<Event>)
    requires InFlight(w, pre, done, [], Ok)
    modifies w
    ensures Settled(w, pre, done + AfterFetch(cleanup), cleanup, extra, r)
  {
    hide Attempt, Verdict, Handler;
    extra := [];
    r := Import(w, pre, done);
    if r == Ok {
      r, extra := UploadBlock(w, pre, done + IMPORT);
    } else {
      AttemptStops(w.oracle, |pre|, done + IMPORT, BLOCK);
    }
    if cleanup {
      // The finally clause, on the normal path and with an exception in flight.
      if r == Ok {
        r := Then(w, r, Unlink, pre, done + IMPORT + BLOCK, []);
      } else {
        r, extra := UnlinkInFlight(w, r, pre, done + IMPORT + BLOCK, extra);
      }
      assert done + IMPORT + BLOCK + [Unlink] == done + AfterFetch(cleanup);
    } else {
      assert done + IMPORT + BLOCK == done + AfterFetch(cleanup);
    }
  }

  /** The body of the outer try up to the upload. */
  method FetchAndImport(w: World, url: bool, ghost pre: seq<Event>) returns (r: Outcome, ghost extra: seq<Event>)
    requires InFlight(w, pre, [Connect], [], Ok)
    modifies w
    ensures Settled(w, pre, [Connect, ResolveTargets] + Fetch(url) + AfterFetch(url), url, extra, r)
  {
    hide Attempt, Verdict, Handler, Fetch, AfterFetch;
    extra := [];
    var cleanup;
    r := Then(w, Ok, ResolveTargets, pre, [Connect], []);
    assert [Connect] + [ResolveTargets] == [Connect, ResolveTargets];
    if r != Ok {
      SkipRest(w, pre, [Connect, ResolveTargets], Fetch(url), url, [], r);
      SkipRest(w, pre, [Connect, ResolveTargets] + Fetch(url), AfterFetch(url), url, [], r);
      return;
    }
    r, cleanup, extra := Materialize(w, url, pre, [Connect, ResolveTargets]);
    if r != Ok {
      SkipRest(w, pre, [Connect, ResolveTargets] + Fetch(url), AfterFetch(url), url, extra, r);
      return;
    }
    r, extra := WithArchive(w, cleanup, pre, [Connect, ResolveTargets] + Fetch(url));
  }

  /** The body of the outer try. */
  method WithSession(w: World, url: bool, powerOn: bool, ghost pre: seq<Event>)
    returns (r: Outcome, ghost extra: seq<Event>)
    requires InFlight(w, pre, [Connect], [], Ok)
    modifies w
    ensures Settled(w, pre, Plan(url, powerOn), url, extra, r)
  {
    hide Attempt, Verdict, Handler, Fetch, AfterFetch;
    r, extra := FetchAndImport(w, url, pre);
    ghost var done := [Connect, ResolveTargets] + Fetch(url) + AfterFetch(url);
    if powerOn {
      r := Then(w, r, PowerOn, pre, done, extra);
      r := Then(w, r, WaitPowered, pre, done + [PowerOn], extra);
      assert done + [PowerOn] + [WaitPowered] == Plan(url, powerOn);
    } else {
      assert done == Plan(url, powerOn);
    }
  }

  lemma FirstAttempt(oracle: nat -> Outcome, base: nat, url: bool, powerOn: bool)
    ensures var body := Attempt(oracle, base, Plan(url, powerOn));
      body != [] && body[0] == Event(Connect, oracle(base))
  {
    assert Plan(url, powerOn)[0] == Connect;
  }

  /** The outer finally. */
  method Leave(w: World, prev: Outcome, url: bool, powerOn: bool, ghost pre: seq<Event>, ghost extra: seq<Event>)
    returns (r: Outcome)
    requires Settled(w, pre, Plan(url, powerOn), url, extra, prev)
    modifies w
    ensures w.log == pre + Trace(w.oracle, |pre|, url, powerOn)
    ensures r == Verdict(Trace(w.oracle, |pre|, url, powerOn))
  {
    hide Attempt, Plan, Verdict, Handler, Releases;
    ghost var body := Attempt(w.oracle, |pre|, Plan(url, powerOn));
    FirstAttempt(w.oracle, |pre|, url, powerOn);
    assert pre + body + extra == pre + (body + extra);
    var o;
    o, r := AlsoDo(w, prev, Disconnect, pre, body + extra);
    assert body + extra + [Event(Disconnect, o)] == body + (extra + [Event(Disconnect, o)]);
  }

  /** For every way each call may end, the log is exactly the trace: the planned
      calls up to the first that fails, then the handlers and finally clauses
      that apply, then the disconnect; and the result is the trace's verdict. */
  method DeployOva(w: World, url: bool, powerOn: bool) returns (result: Result)
    modifies w
    ensures w.log == old(w.log) + Trace(w.oracle, |old(w.log)|, url, powerOn)
    ensures var v := Verdict(Trace(w.oracle, |old(w.log)|, url, powerOn));
      result == if v == Ok then Returned(powerOn) else Raised(v)
  {
    ghost var pre := w.log;
    assert Attempt(w.oracle, |pre|, []) == [] && pre + [] + [] == pre;
    var r := Then(w, Ok, Connect, pre, [], []);
    assert [] + [Connect] == [Connect];
    if r != Ok {
      assert Plan(url, powerOn) == [Connect] + Plan(url, powerOn)[1..];
      AttemptStops(w.oracle, |pre|, [Connect], Plan(url, powerOn)[1..]);
      return Raised(r);
    }
    ghost var extra;
    r, extra := WithSession(w, url, powerOn, pre);
    r := Leave(w, r, url, powerOn, pre, extra);
    result := if r == Ok then Returned(powerOn) else Raised(r);
  }

  // ----- what every trace satisfies -----

  lemma {:induction false} AttemptShape(oracle: nat -> Outcome, base: nat, ops: seq<Op>)
    ensures var a := Attempt(oracle, base, ops);
      && |a| <= |ops|
      && (ops != [] ==> a != [])
      && (forall i :: 0 <= i < |a| ==> a[i].op == ops[i])
      && (forall i :: 0 <= i < |a| - 1 ==> a[i].outcome == Ok)
      && (!Failed(a) ==> |a| == |ops|)
    decreases |ops|
  {
    if ops != [] && oracle(base) == Ok {
      AttemptShape(oracle, base + 1, ops[1..]);
    }
  }

  /** The position after the fetch. */
  function Fetched(url: bool): nat {
    if url then 4 else 3
  }

  /** The call at position `i` of a plan. */
  function Slot(url: bool, i: nat): Op {
    if i == 0 then Connect
    else if i == 1 then ResolveTargets
    else if i < Fetched(url) then (if !url then FindLocal else if i == 2 then MakeTemp else Download)
    else
      match i - Fetched(url)
      case 0 => OpenArchive
      case 1 => ReadDescriptor
      case 2 => CreateSpec
      case 3 => ImportVApp
      case 4 => WaitReady
      case 5 => StartPings
      case 6 => UploadDisks
      case 7 => MarkFull
      case 8 => StopPings
      case 9 => CompleteLease
      case j => if url && j == 10 then Unlink else if j == (if url then 11 else 10) then PowerOn else WaitPowered
  }

  lemma PlanSlotsLocal(powerOn: bool)
    ensures |Plan(false, powerOn)| == 13 + (if powerOn then 2 else 0)
    ensures forall i :: 0 <= i < |Plan(false, powerOn)| ==> Plan(false, powerOn)[i] == Slot(false, i)
  {
    assert Plan(false, powerOn) == [Connect, ResolveTargets, FindLocal, OpenArchive, ReadDescriptor, CreateSpec,
      ImportVApp, WaitReady, StartPings, UploadDisks, MarkFull, StopPings, CompleteLease]
      + if powerOn then [PowerOn, WaitPowered] else [];
  }

  lemma PlanSlots(url: bool, powerOn: bool)
    ensures |Plan(url, powerOn)| == Fetched(url) + 10 + (if url then 1 else 0) + (if powerOn then 2 else 0)
    ensures forall i :: 0 <= i < |Plan(url, powerOn)| ==> Plan(url, powerOn)[i] == Slot(url, i)
  {
    if url {
    } else {
      PlanSlotsLocal(powerOn);
    }
  }

  ghost predicate Called(trace: seq<Event>, op: Op) {
    exists i :: 0 <= i < |trace| && trace[i].op == op
  }

  function Calls(trace: seq<Event>, op: Op): nat {
    if trace == [] then 0 else (if trace[0].op == op then 1 else 0) + Calls(trace[1..], op)
  }

  lemma {:induction false} CallsJoin(a: seq<Event>, b: seq<Event>, op: Op)
    ensures Calls(a + b, op) == Calls(a, op) + Calls(b, op)
  {
    if a == [] {
      assert a + b == b;
    } else {
      assert (a + b)[1..] == a[1..] + b;
      CallsJoin(a[1..], b, op);
    }
  }

  /** The planned calls that were made, and how they ended. */
  lemma Body(oracle: nat -> Outcome, base: nat, url: bool, powerOn: bool) returns (body: seq<Event>, n: nat)
    ensures body == Attempt(oracle, base, Plan(url, powerOn)) && n == |body|
    ensures 1 <= n <= |Plan(url, powerOn)|
    ensures |Plan(url, powerOn)| == Fetched(url) + 10 + (if url then 1 else 0) + (if powerOn then 2 else 0)
    ensures forall i :: 0 <= i < n ==> body[i].op == Slot(url, i)
    ensures forall i :: 0 <= i < n - 1 ==> body[i].outcome == Ok
    ensures body[n - 1].outcome == Ok ==> n == |Plan(url, powerOn)|
    ensures body[0] == Event(Connect, oracle(base))
    ensures Trace(oracle, base, url, powerOn) == body + Cleanup(oracle, base + n, url, body)
  {
    hide Plan, Attempt, Cleanup, Slot;
    body := Attempt(oracle, base, Plan(url, powerOn));
    n := |body|;
    FirstAttempt(oracle, base, url, powerOn);
    PlanSlots(url, powerOn);
    AttemptShape(oracle, base, Plan(url, powerOn));
  }

  /** The stop in the handler did not return, so the abort after it was skipped. */
  ghost predicate HandlerStopFailed(trace: seq<Event>) {
    exists i :: 0 < i < |trace| && trace[i - 1].op in BLOCK && trace[i - 1].outcome != Ok
      && trace[i].op == StopPings && trace[i].outcome != Ok
  }

  ghost predicate WaitReadyFailed(trace: seq<Event>) {
    Event(WaitReady, Fault) in trace || Event(WaitReady, Interrupt) in trace
  }

  ghost predicate AbortFailed(trace: seq<Event>) {
    Event(AbortLease, Fault) in trace || Event(AbortLease, Interrupt) in trace
  }

  lemma NotAborted(t: seq<Event>)
    ensures !Called(t, AbortLease) ==> Event(AbortLease, Ok) !in t && !AbortFailed(t)
  {
  }

  ghost predicate Quiet(c: seq<Event>, from: nat) {
    forall i :: from <= i < |c| ==> c[i].op == Unlink || c[i].op == Disconnect
  }

  /** Completed and not aborted, or aborted and not completed, or left in one of three ways. */
  ghost predicate ReleasedOrLeft(t: seq<Event>) {
    && !(Event(CompleteLease, Ok) in t && Called(t, AbortLease))
    && (Event(ImportVApp, Ok) in t ==>
          (Event(CompleteLease, Ok) !in t && Event(AbortLease, Ok) !in t
           <==> WaitReadyFailed(t) || HandlerStopFailed(t) || AbortFailed(t)))
  }

  /** The handler's stop comes first, its abort next if the stop returns, and after
      them only what is quiet. */
  ghost predicate Handled(c: seq<Event>) {
    && c != [] && c[0].op == StopPings
    && (c[0].outcome == Ok ==> |c| > 1 && c[1].op == AbortLease)
    && Quiet(c, if c[0].outcome == Ok then 2 else 1)
  }

  /** `body` holds the calls of a plan up to the first that failed. */
  ghost predicate Planned(url: bool, body: seq<Event>) {
    && body != []
    && (forall i :: 0 <= i < |body| ==> body[i].op == Slot(url, i))
    && (forall i :: 0 <= i < |body| - 1 ==> body[i].outcome == Ok)
  }

  lemma SlotFacts(url: bool, n: nat)
    ensures forall i :: 0 <= i < n ==>
      var f, op := Fetched(url), Slot(url, i);
      && (op in IMPORT <==> f <= i < f + 5)
      && (op == ImportVApp <==> i == f + 3)
      && (op == WaitReady <==> i == f + 4)
      && (op in BLOCK <==> f + 5 <= i < f + 10)
      && (op == StopPings <==> i == f + 8)
      && (op == CompleteLease <==> i == f + 9)
      && (op == Connect <==> i == 0)
      && (op == MakeTemp <==> url && i == 2)
      && (op == Download <==> url && i == 3)
      && (op == Unlink <==> url && i == f + 10)
      && (op == PowerOn ==> i >= f + 10)
      && op != AbortLease && op != Disconnect
  {
  }

  lemma CompletedTrace(url: bool, body: seq<Event>, c: seq<Event>)
    requires Planned(url, body) && |body| > Fetched(url) + 9 && body[Fetched(url) + 9].outcome == Ok
    requires Quiet(c, 0)
    ensures Event(CompleteLease, Ok) in body + c && !Called(body + c, AbortLease)
    ensures !WaitReadyFailed(body + c) && !HandlerStopFailed(body + c)
  {
    hide Slot;
    SlotFacts(url, |body|);
    var f := Fetched(url);
    assert (body + c)[f + 9] == body[f + 9] && body[f + 9].op == Slot(url, f + 9);
    assert body[|body| - 1].op in BLOCK ==> |body| - 1 == f + 9;
  }

  lemma BlockFailedCalls(body: seq<Event>, c: seq<Event>)
    requires forall i :: 0 <= i < |body| ==>
      && body[i].op != AbortLease && body[i] != Event(CompleteLease, Ok)
      && (body[i].op == WaitReady ==> body[i].outcome == Ok)
    requires Handled(c)
    ensures Event(CompleteLease, Ok) !in body + c
    ensures Event(AbortLease, Ok) in body + c <==> c[0].outcome == Ok && c[1].outcome == Ok
    ensures AbortFailed(body + c) <==> c[0].outcome == Ok && c[1].outcome != Ok
    ensures !WaitReadyFailed(body + c)
  {
    var t, n := body + c, |body|;
    assert forall j :: 0 <= j < n ==> t[j] == body[j];
    assert forall j :: n <= j < |t| ==> t[j] == c[j - n];
    if c[0].outcome == Ok {
      assert t[n + 1] == c[1];
    }
  }

  lemma HandlerStopSeen(body: seq<Event>, c: seq<Event>)
    requires body != [] && body[|body| - 1].op in BLOCK && body[|body| - 1].outcome != Ok
    requires forall i :: 0 <= i < |body| - 1 ==> body[i].outcome == Ok
    requires c != [] && c[0].op == StopPings && forall i :: 0 < i < |c| ==> c[i].op != StopPings
    ensures HandlerStopFailed(body + c) <==> c[0].outcome != Ok
  {
    var t, n := body + c, |body|;
    assert forall j :: 0 <= j < n ==> t[j] == body[j];
    assert forall j :: n <= j < |t| ==> t[j] == c[j - n];
    if HandlerStopFailed(t) {
      var i :| 0 < i < |t| && t[i - 1].op in BLOCK && t[i - 1].outcome != Ok && t[i].op == StopPings &&
        t[i].outcome != Ok;
      assert i == n;
    } else {
      assert t[n - 1] == body[n - 1] && t[n] == c[0];
    }
  }

  lemma BlockFailedTrace(url: bool, body: seq<Event>, c: seq<Event>)
    requires Planned(url, body) && Fetched(url) + 5 < |body| <= Fetched(url) + 10
    requires body[|body| - 1].outcome != Ok
    requires Handled(c)
    ensures Event(CompleteLease, Ok) !in body + c
    ensures Event(AbortLease, Ok) in body + c <==> c[0].outcome == Ok && c[1].outcome == Ok
    ensures AbortFailed(body + c) <==> c[0].outcome == Ok && c[1].outcome != Ok
    ensures !WaitReadyFailed(body + c)
    ensures HandlerStopFailed(body + c) <==> c[0].outcome != Ok
  {
    hide Slot;
    SlotFacts(url, |body|);
    assert body[|body| - 1].op == Slot(url, |body| - 1);
    HandlerStopSeen(body, c);
    BlockFailedCalls(body, c);
  }

  lemma BlockFailedReleased(url: bool, body: seq<Event>, c: seq<Event>)
    requires Planned(url, body) && Fetched(url) + 5 < |body| <= Fetched(url) + 10
    requires body[|body| - 1].outcome != Ok
    requires Handled(c)
    ensures ReleasedOrLeft(body + c)
  {
    hide Slot, Planned, Called, WaitReadyFailed, HandlerStopFailed, AbortFailed;
    BlockFailedTrace(url, body, c);
  }

  lemma EarlierTrace(url: bool, body: seq<Event>, c: seq<Event>)
    requires Planned(url, body) && |body| <= Fetched(url) + 5
    requires body[|body| - 1].outcome != Ok
    requires Quiet(c, 0)
    ensures Event(CompleteLease, Ok) !in body + c && !Called(body + c, AbortLease)
    ensures Event(ImportVApp, Ok) in body + c ==> WaitReadyFailed(body + c)
  {
    hide Slot;
    SlotFacts(url, |body|);
    var t, n, f := body + c, |body|, Fetched(url);
    assert body[n - 1].op == Slot(url, n - 1);
    assert t[n - 1] == body[n - 1];
    if Event(ImportVApp, Ok) in t {
      var i :| 0 <= i < |t| && t[i] == Event(ImportVApp, Ok);
      assert i < n && body[i].op == Slot(url, i);
    }
  }

  lemma CleanupShape(oracle: nat -> Outcome, base: nat, url: bool, body: seq<Event>)
    requires body != []
    ensures var c := Cleanup(oracle, base, url, body); var last := body[|body| - 1];
      && (last.outcome == Ok || last.op !in BLOCK ==> Quiet(c, 0))
      && (last.outcome != Ok && last.op in BLOCK ==> Handled(c) && c[0] == Event(StopPings, oracle(base)))
  {
  }

  /** A granted lease is never both completed and aborted; it is left open, with
      neither call returned, exactly when waiting for it to become ready failed,
      or stopping the ping thread failed in the handler, or the abort failed. */
  lemma LeaseReleased(oracle: nat -> Outcome, base: nat, url: bool, powerOn: bool)
    ensures var t := Trace(oracle, base, url, powerOn);
      && !(Event(CompleteLease, Ok) in t && Called(t, AbortLease))
      && (Event(ImportVApp, Ok) in t ==>
            (Event(CompleteLease, Ok) !in t && Event(AbortLease, Ok) !in t
             <==> WaitReadyFailed(t) || HandlerStopFailed(t) || AbortFailed(t)))
  {
    hide Attempt, Plan, Cleanup, Slot, Handler, Trace, Verdict, Called, Quiet;
    hide WaitReadyFailed, HandlerStopFailed, AbortFailed, Handled;
    var body, n := Body(oracle, base, url, powerOn);
    var c := Cleanup(oracle, base + n, url, body);
    SlotFacts(url, n);
    assert body[n - 1].op == Slot(url, n - 1);
    CleanupShape(oracle, base + n, url, body);
    NotAborted(body + c);
    if n > Fetched(url) + 9 && body[Fetched(url) + 9].outcome == Ok {
      CompletedTrace(url, body, c);
    } else if n > Fetched(url) + 5 {
      BlockFailedReleased(url, body, c);
    } else {
      EarlierTrace(url, body, c);
    }
  }

  lemma {:induction false} AttemptOutcomes(oracle: nat -> Outcome, base: nat, ops: seq<Op>)
    ensures var a := Attempt(oracle, base, ops); forall i :: 0 <= i < |a| ==> a[i].outcome == oracle(base + i)
    decreases |ops|
  {
    if ops == [] {
    } else if oracle(base) == Ok {
      AttemptOutcomes(oracle, base + 1, ops[1..]);
      forall i | 0 <= i < |Attempt(oracle, base, ops)|
        ensures Attempt(oracle, base, ops)[i].outcome == oracle(base + i)
      {
        if i > 0 {
          assert Attempt(oracle, base + 1, ops[1..])[i - 1].outcome == oracle(base + 1 + (i - 1));
        }
      }
    }
  }

  /** The first call of a plan that fails is the last one made. */
  lemma {:induction false} AttemptFails(oracle: nat -> Outcome, base: nat, ops: seq<Op>, k: nat)
    requires k < |ops| && oracle(base + k) != Ok && forall n :: base <= n < base + k ==> oracle(n) == Ok
    ensures |Attempt(oracle, base, ops)| == k + 1
    ensures Attempt(oracle, base, ops)[k] == Event(ops[k], oracle(base + k))
    decreases k
  {
    if k == 0 {
    } else {
      AttemptFails(oracle, base + 1, ops[1..], k - 1);
    }
  }

  lemma FailedBlockCleanup(oracle: nat -> Outcome, base: nat, url: bool, body: seq<Event>)
    requires body != [] && body[|body| - 1].outcome != Ok && body[|body| - 1].op in BLOCK && oracle(base) == Ok
    ensures var c := Cleanup(oracle, base, url, body);
      |c| > 1 && c[0] == Event(StopPings, Ok) && c[1] == Event(AbortLease, oracle(base + 1)) && Quiet(c, 2)
  {
  }

  /** A lease left open by its abort: the upload faults and so does the abort,
      while waiting for the lease and stopping the ping thread return. */
  lemma FaultedAbortLeavesLease() returns (oracle: nat -> Outcome)
    ensures var t := Trace(oracle, 0, false, true);
      && Event(ImportVApp, Ok) in t && Event(CompleteLease, Ok) !in t && Event(AbortLease, Ok) !in t
      && !WaitReadyFailed(t) && !HandlerStopFailed(t)
  {
    oracle := n => if n == 9 || n == 11 then Fault else Ok;
    hide Attempt, Plan, Cleanup, Slot, Calls, Called, WaitReadyFailed, HandlerStopFailed;
    PlanSlots(false, true);
    AttemptFails(oracle, 0, Plan(false, true), 9);
    var body, n := Body(oracle, 0, false, true);
    var c := Cleanup(oracle, n, false, body);
    SlotFacts(false, n);
    assert body[9].op == Slot(false, 9);
    FailedBlockCleanup(oracle, n, false, body);
    BlockFailedTrace(false, body, c);
    assert body[6].op == Slot(false, 6) && (body + c)[6] == body[6];
  }

  /** A cleanup ends with the only disconnect, right after the only removal if there is one. */
  lemma CleanupEnds(oracle: nat -> Outcome, base: nat, url: bool, body: seq<Event>)
    requires body != []
    ensures var c := Cleanup(oracle, base, url, body); var last := body[|body| - 1];
      if last.outcome != Ok && last.op == Connect then c == []
      else
        && c != []
        && (forall i :: 0 <= i < |c| ==> (c[i].op == Disconnect <==> i == |c| - 1))
        && (forall i :: 0 <= i < |c| ==> c[i].op != MakeTemp && c[i].op != Download)
        && (last.outcome != Ok && LeavesTemp(url, last) ==> |c| >= 2)
        && (forall i :: 0 <= i < |c| ==>
              (c[i].op == Unlink <==> last.outcome != Ok && LeavesTemp(url, last) && i == |c| - 2))
  {
  }

  lemma {:induction false} NoCalls(s: seq<Event>, op: Op)
    requires forall i :: 0 <= i < |s| ==> s[i].op != op
    ensures Calls(s, op) == 0
  {
    if s == [] {
    } else {
      NoCalls(s[1..], op);
    }
  }

  lemma OneCall(s: seq<Event>, op: Op, k: nat)
    requires k < |s| && forall i :: 0 <= i < |s| ==> (s[i].op == op <==> i == k)
    ensures Calls(s, op) == 1
  {
    NoCalls(s[..k], op);
    NoCalls(s[k + 1..], op);
    assert s[k..][1..] == s[k + 1..] && s == s[..k] + s[k..];
    CallsJoin(s[..k], s[k..], op);
  }

  lemma DisconnectedOnce(body: seq<Event>, c: seq<Event>)
    requires forall i :: 0 <= i < |body| ==> body[i].op != Disconnect
    requires c != [] && forall i :: 0 <= i < |c| ==> (c[i].op == Disconnect <==> i == |c| - 1)
    ensures Calls(body + c, Disconnect) == 1 && (body + c)[|body + c| - 1].op == Disconnect
  {
    NoCalls(body, Disconnect);
    CallsJoin(body, c, Disconnect);
    OneCall(c, Disconnect, |c| - 1);
  }

  /** Once connected, the session is disconnected exactly once, as the very last
      call, on every path; a failed connect is the only call made. */
  lemma SessionClosed(oracle: nat -> Outcome, base: nat, url: bool, powerOn: bool)
    ensures var t := Trace(oracle, base, url, powerOn);
      if oracle(base) == Ok then t[0] == Event(Connect, Ok) && t[|t| - 1].op == Disconnect && Calls(t, Disconnect) == 1
      else t == [Event(Connect, oracle(base))]
  {
    hide Attempt, Plan, Cleanup, Slot, Handler, Trace, Calls;
    var body, n := Body(oracle, base, url, powerOn);
    var c := Cleanup(oracle, base + n, url, body);
    SlotFacts(url, n);
    CleanupEnds(oracle, base + n, url, body);
    assert body[n - 1].op == Slot(url, n - 1);
    if oracle(base) == Ok {
      assert body[n - 1].outcome == Ok || body[n - 1].op != Connect;
      DisconnectedOnce(body, c);
    }
  }

  lemma RemovedInPlan(body: seq<Event>, c: seq<Event>)
    requires Planned(true, body) && |body| > 14 && forall i :: 0 <= i < |c| ==> c[i].op != Unlink && c[i].op != Download
    ensures Calls(body, Unlink) == 1 && Calls(c, Unlink) == 0
    ensures Event(MakeTemp, Ok) in body + c && Event(Download, Interrupt) !in body + c
  {
    hide Slot;
    SlotFacts(true, |body|);
    OneCall(body, Unlink, 14);
    NoCalls(c, Unlink);
    assert body[2].op == Slot(true, 2) && body[3].op == Slot(true, 3);
    assert (body + c)[2] == Event(MakeTemp, Ok);
  }

  lemma RemovedInCleanup(body: seq<Event>, c: seq<Event>)
    requires Planned(true, body) && |body| <= 14 && body[|body| - 1].outcome != Ok && LeavesTemp(true, body[|body| - 1])
    requires |c| >= 2 && forall i :: 0 <= i < |c| ==> (c[i].op == Unlink <==> i == |c| - 2) && c[i].op != Download
    ensures Calls(body, Unlink) == 0 && Calls(c, Unlink) == 1
    ensures Event(MakeTemp, Ok) in body + c && Event(Download, Interrupt) !in body + c
  {
    hide Slot, Calls;
    SlotFacts(true, |body|);
    NoCalls(body, Unlink);
    OneCall(c, Unlink, |c| - 2);
    var n := |body|;
    assert body[n - 1].op == Slot(true, n - 1);
    assert body[2].op == Slot(true, 2) && body[3].op == Slot(true, 3);
    assert (body + c)[2] == Event(MakeTemp, Ok);
  }

  lemma NothingToRemove(url: bool, body: seq<Event>, c: seq<Event>)
    requires Planned(url, body) && (url ==> |body| <= 14 && body[|body| - 1].outcome != Ok)
    requires body[|body| - 1].outcome == Ok || !LeavesTemp(url, body[|body| - 1])
    requires forall i :: 0 <= i < |c| ==> c[i].op != Unlink && c[i].op != MakeTemp
    ensures Calls(body, Unlink) == 0 && Calls(c, Unlink) == 0
    ensures Event(MakeTemp, Ok) in body + c ==> Event(Download, Interrupt) in body + c
  {
    hide Slot, Calls;
    SlotFacts(url, |body|);
    NoCalls(body, Unlink);
    NoCalls(c, Unlink);
    var n, t := |body|, body + c;
    if Event(MakeTemp, Ok) in t {
      var i :| 0 <= i < |t| && t[i] == Event(MakeTemp, Ok);
      assert i < n && body[i].op == Slot(url, i);
      assert body[n - 1].op == Slot(url, n - 1);
      assert t[n - 1] == Event(Download, Interrupt);
    }
  }

  /** A downloaded file is removed exactly once on every path, except that an
      interrupted download leaves it behind; without a download nothing is removed. */
  lemma TempRemoved(oracle: nat -> Outcome, base: nat, url: bool, powerOn: bool)
    ensures var t := Trace(oracle, base, url, powerOn);
      Calls(t, Unlink) == if Event(MakeTemp, Ok) in t && Event(Download, Interrupt) !in t then 1 else 0
  {
    hide Attempt, Plan, Cleanup, Slot, Handler, Trace, Calls;
    var body, n := Body(oracle, base, url, powerOn);
    var c := Cleanup(oracle, base + n, url, body);
    SlotFacts(url, n);
    CleanupEnds(oracle, base + n, url, body);
    CallsJoin(body, c, Unlink);
    assert body[n - 1].op == Slot(url, n - 1);
    if url && n > Fetched(url) + 10 {
      RemovedInPlan(body, c);
    } else if body[n - 1].outcome != Ok && LeavesTemp(url, body[n - 1]) {
      RemovedInCleanup(body, c);
    } else {
      NothingToRemove(url, body, c);
    }
  }

  /** A download that is interrupted leaves its file behind. */
  lemma InterruptedDownloadStays() returns (oracle: nat -> Outcome)
    ensures var t := Trace(oracle, 0, true, true); Event(MakeTemp, Ok) in t && Calls(t, Unlink) == 0
  {
    oracle := n => if n == 3 then Interrupt else Ok;
    hide Attempt, Plan, Cleanup, Calls;
    PlanSlots(true, true);
    AttemptFails(oracle, 0, Plan(true, true), 3);
    var body, n := Body(oracle, 0, true, true);
    var t := Trace(oracle, 0, true, true);
    assert t[2] == body[2] && t[3] == body[3];
    TempRemoved(oracle, 0, true, true);
  }

  /** Power-on is only called after the lease was completed, every call before it having returned. */
  lemma PowerOnAfterCompletion(oracle: nat -> Outcome, base: nat, url: bool, powerOn: bool, i: nat)
    requires i < |Trace(oracle, base, url, powerOn)|
    requires Trace(oracle, base, url, powerOn)[i].op == PowerOn
    ensures var t := Trace(oracle, base, url, powerOn);
      Event(CompleteLease, Ok) in t[..i] && forall j :: 0 <= j < i ==> t[j].outcome == Ok
  {
    hide Attempt, Plan, Cleanup, Slot, Handler;
    var body, n := Body(oracle, base, url, powerOn);
    var c := Cleanup(oracle, base + n, url, body);
    var t := Trace(oracle, base, url, powerOn);
    CleanupShape(oracle, base + n, url, body);
    assert forall j :: n <= j < |t| ==> t[j] == c[j - n];
    assert i < n;
    assert t[i] == body[i] && body[i].op == Slot(url, i);
    SlotFacts(url, n);
    var k := Fetched(url) + 9;
    assert body[k].op == Slot(url, k);
    assert t[..i][k] == Event(CompleteLease, Ok);
  }

  lemma {:induction false} VerdictOk(t: seq<Event>)
    ensures Verdict(t) == Ok <==> forall i :: 0 <= i < |t| ==> Passes(t[i])
  {
    if t == [] {
    } else {
      VerdictOk(t[..|t| - 1]);
      assert t == t[..|t| - 1] + [t[|t| - 1]];
    }
  }

  lemma OkCleanup(oracle: nat -> Outcome, base: nat, url: bool, body: seq<Event>)
    requires body != [] && body[|body| - 1].outcome == Ok
    ensures Cleanup(oracle, base, url, body) == [Event(Disconnect, oracle(base))]
  {
  }

  /** The deployment returns a result exactly when every call returned, a fault
      of the final disconnect apart; and then nothing was aborted. */
  lemma ReturnsIffAllReturned(oracle: nat -> Outcome, base: nat, url: bool, powerOn: bool)
    ensures var t := Trace(oracle, base, url, powerOn);
      Verdict(t) == Ok <==>
        forall i :: 0 <= i < |t| ==> t[i].outcome == Ok || t[i] == Event(Disconnect, Fault)
  {
    hide Attempt, Plan, Cleanup, Slot, Handler, Verdict;
    var body, n := Body(oracle, base, url, powerOn);
    var t, c := Trace(oracle, base, url, powerOn), Cleanup(oracle, base + n, url, body);
    VerdictOk(t);
    SlotFacts(url, n);
    CleanupShape(oracle, base + n, url, body);
    assert body[n - 1].op == Slot(url, n - 1);
    assert t[n - 1] == body[n - 1];
    if body[n - 1].outcome == Ok {
      assert c == [Event(Disconnect, oracle(base + n))] by {
        OkCleanup(oracle, base + n, url, body);
      }
      assert forall i :: 0 <= i < n ==> t[i] == body[i] && body[i].outcome == Ok;
      assert |t| == n + 1 && t[n] == c[0];
    } else {
      assert !Passes(t[n - 1]) && t[n - 1].op != Disconnect;
    }
  }
}

/** The task waiters: `sddc_tasks.wait`, `installer_bringup.wait` and
    `installer_bringup.wait_validation`, over arbitrary response traces. */
module TaskWaiters {
  import opened Basics
  import opened PollClock

  datatype Waiter = SddcTask | Bringup | Validation

  /** The fields of a task record that the waiters look at. */
  datatype Record = Record(status: Option<string>, executionStatus: Option<string>, resultStatus: Option<string>)

  /** One poll: a record, or an HTTP error, which every waiter lets through. */
  datatype Reply = Body(record: Record) | HttpError

  datatype Poll = Poll(reply: Reply, clock: int)

  datatype Outcome =
    | Finished(record: Record)
    | Unsuccessful(record: Record)
    | TimedOut(last: Record)
    | Raised
    | StillWaiting

  const RUNNING: set<string> := {"IN_PROGRESS", "PENDING", "QUEUED"}

  /** Python's `a or b` on optional text. */
  function Either(a: Option<string>, b: Option<string>): Option<string> {
    if a.Or("") != "" then a else b
  }

  /** The SDDC waiter knows its three final statuses and waits on any other; the
      two installer waiters know three running states and end on any other. */
  predicate Terminal(w: Waiter, r: Record) {
    match w
    case SddcTask => r.status in {Some("Successful"), Some("Failed"), Some("Cancelled")}
    case Bringup => !(r.status.Some? && r.status.value in RUNNING)
    case Validation =>
      var state := Either(r.executionStatus, r.status);
      !(state.Some? && state.value in RUNNING)
  }

  predicate Successful(w: Waiter, r: Record) {
    match w
    case SddcTask => r.status == Some("Successful")
    case Bringup => r.status in {Some("COMPLETED_WITH_SUCCESS"), Some("SUCCEEDED"), Some("COMPLETED")}
    case Validation => Either(r.resultStatus, r.status) in {Some("SUCCEEDED"), Some("COMPLETED"), Some("PASSED")}
  }

  /** Every poll before the last saw a running task before the deadline; the
      last one ended the wait with the outcome given: the record of a successful
      task, or the failure. */
  ghost predicate Waited(w: Waiter, polls: seq<Poll>, start: int, timeout: int, outcome: Outcome, n: nat) {
    && n <= |polls|
    && (outcome == StillWaiting ==> n == |polls|)
    && (forall i :: 0 <= i < (if outcome == StillWaiting then n else n - 1) ==>
          polls[i].reply.Body? && !Terminal(w, polls[i].reply.record) && polls[i].clock < start + timeout)
    && (outcome != StillWaiting ==>
          && n > 0
          && (outcome.TimedOut? ==> polls[n - 1].clock >= start + timeout)
          && outcome == match polls[n - 1].reply
                        case HttpError => Raised
                        case Body(r) =>
                          if !Terminal(w, r) then TimedOut(r)
                          else if Successful(w, r) then Finished(r)
                          else Unsuccessful(r))
  }

  method Wait(w: Waiter, polls: seq<Poll>, start: int, timeout: int) returns (outcome: Outcome, n: nat)
    ensures Waited(w, polls, start, timeout, outcome, n)
  {
    var deadline := start + timeout;
    for i := 0 to |polls|
      invariant forall j :: 0 <= j < i ==>
        polls[j].reply.Body? && !Terminal(w, polls[j].reply.record) && polls[j].clock < deadline
    {
      if polls[i].reply == HttpError {
        return Raised, i + 1;
      }
      var record := polls[i].reply.record;
      if Terminal(w, record) {
        if !Successful(w, record) {
          return Unsuccessful(record), i + 1;
        }
        return Finished(record), i + 1;
      }
      if polls[i].clock >= deadline {
        return TimedOut(record), i + 1;
      }
    }
    return StillWaiting, |polls|;
  }

  /** The SDDC waiter ends with the first status of three: it returns the record when
      that is Successful and fails when it is Failed or Cancelled; any other status,
      and a missing one, it waits on until the deadline. */
  lemma SddcOutcomes(polls: seq<Poll>, start: int, timeout: int, outcome: Outcome, n: nat, r: Record)
    requires Waited(SddcTask, polls, start, timeout, outcome, n) && outcome != StillWaiting
    ensures n > 0 && polls[n - 1].reply == Body(r) ==>
      && (outcome == Finished(r) <==> r.status == Some("Successful"))
      && (outcome == Unsuccessful(r) <==> r.status == Some("Failed") || r.status == Some("Cancelled"))
      && (outcome == TimedOut(r) <==> r.status !in {Some("Successful"), Some("Failed"), Some("Cancelled")})
      && (outcome == TimedOut(r) ==> polls[n - 1].clock >= start + timeout)
    ensures n > 0 && polls[n - 1].reply == HttpError ==> outcome == Raised
    ensures forall i :: 0 <= i < n - 1 ==>
      polls[i].reply.Body? && polls[i].reply.record.status !in {Some("Successful"), Some("Failed"), Some("Cancelled")}
  {
  }

  /** The bringup waiter waits on three statuses and ends on any other, well on three. */
  lemma BringupOutcomes(polls: seq<Poll>, start: int, timeout: int, outcome: Outcome, n: nat, r: Record)
    requires Waited(Bringup, polls, start, timeout, outcome, n) && outcome != StillWaiting
    ensures n > 0 && polls[n - 1].reply == Body(r) ==>
      && (outcome == Finished(r) <==>
          r.status in {Some("COMPLETED_WITH_SUCCESS"), Some("SUCCEEDED"), Some("COMPLETED")})
      && (outcome == TimedOut(r) <==> r.status in {Some("IN_PROGRESS"), Some("PENDING"), Some("QUEUED")})
      && (outcome in {Finished(r), Unsuccessful(r), TimedOut(r)})
    ensures forall i :: 0 <= i < n - 1 ==>
      polls[i].reply.Body? && polls[i].reply.record.status in {Some("IN_PROGRESS"), Some("PENDING"), Some("QUEUED")}
  {
  }

  /** `text` is what the first of two fields shows, or the second when the first is
      missing or empty. */
  ghost predicate Shows(first: Option<string>, second: Option<string>, text: string) {
    (text != "" && first == Some(text)) || (first in {None, Some("")} && second == Some(text))
  }

  lemma EitherShows(texts: set<string>)
    requires "" !in texts
    ensures forall a, b :: (Either(a, b).Some? && Either(a, b).value in texts) <==>
      exists text :: text in texts && Shows(a, b, text)
  {
    forall a, b
      ensures (Either(a, b).Some? && Either(a, b).value in texts) <==>
        exists text :: text in texts && Shows(a, b, text)
    {
      if Either(a, b).Some? && Either(a, b).value in texts {
        assert Shows(a, b, Either(a, b).value);
      }
    }
  }

  /** The validation waiter looks at the execution status before the status while it
      waits, and at the result status before the status once it has ended. */
  lemma ValidationOutcomes(polls: seq<Poll>, start: int, timeout: int, outcome: Outcome, n: nat, r: Record)
    requires Waited(Validation, polls, start, timeout, outcome, n) && outcome != StillWaiting
    ensures n > 0 && polls[n - 1].reply == Body(r) ==>
      && (outcome == TimedOut(r) <==>
          exists text :: text in {"IN_PROGRESS", "PENDING", "QUEUED"} && Shows(r.executionStatus, r.status, text))
      && (outcome != TimedOut(r) ==>
            && outcome in {Finished(r), Unsuccessful(r)}
            && (outcome == Finished(r) <==>
                exists text :: text in {"SUCCEEDED", "COMPLETED", "PASSED"} && Shows(r.resultStatus, r.status, text)))
    ensures forall i :: 0 <= i < n - 1 ==>
      polls[i].reply.Body? && var r := polls[i].reply.record;
      exists text :: text in {"IN_PROGRESS", "PENDING", "QUEUED"} && Shows(r.executionStatus, r.status, text)
  {
    EitherShows(RUNNING);
    EitherShows({"SUCCEEDED", "COMPLETED", "PASSED"});
  }

  /** With sleeps of at least `pace` a waiter polls at least once and at most
      ceil(timeout / pace) + 1 times, and on any longer trace it has come to an end. */
  lemma WaitIsBounded(w: Waiter, polls: seq<Poll>, start: int, timeout: int, pace: int, outcome: Outcome, n: nat)
    requires pace > 0
    requires Paced(seq(|polls|, i requires 0 <= i < |polls| => polls[i].clock), start, pace)
    requires Waited(w, polls, start, timeout, outcome, n)
    ensures n <= AtLeast(Ceil(timeout, pace) + 1, 1)
    ensures polls != [] ==> n >= 1
    ensures |polls| > AtLeast(Ceil(timeout, pace) + 1, 1) ==> outcome != StillWaiting
  {
    var all := seq(|polls|, i requires 0 <= i < |polls| => polls[i].clock);
    assert Paced(all[..n], start, pace);
    InclusiveDeadline(all[..n], start, timeout, pace);
  }
}

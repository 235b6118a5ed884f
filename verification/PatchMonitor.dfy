/** The poll loops of `vc_patch`: `monitor_stage`, `monitor_install` and
    `wait_for_staged_update`, over arbitrary traces of server responses. */
module PatchMonitor {
  import opened Basics
  import opened VersionMatch
  import opened PollClock

  const TRANSIENT_STATUS_CODES: set<int> := {401, 403, 404, 500, 502, 503}

  /** An update status: a record with a record under `value`, a record without
      one, or no record at all. */
  datatype StatusDoc = Nested(outer: Option<string>, inner: Option<string>) | Flat(outer: Option<string>) | NoRecord

  function ExtractState(d: StatusDoc): Option<string> {
    match d
    case Nested(_, inner) => inner
    case Flat(outer) => outer
    case NoRecord => None
  }

  /** Responses; `Breaks` is any exception that is not an HTTP error. */
  datatype StagedRead = StagedBody(staged: Staged) | StagedHttpError | StagedBreaks

  datatype StatusRead = StatusBody(doc: StatusDoc) | StatusHttpError(code: Option<int>) | StatusBreaks

  /** What one round of a loop meets, should it come that far. */
  datatype Round = Round(staged: StagedRead, status: StatusRead, clock: int)

  datatype Outcome =
    | Staged(staged: VersionMatch.Staged, lastStatus: Option<StatusDoc>)
    | UpToDate(status: StatusDoc)
    | Failed(status: StatusDoc)
    | TooManyErrors(last: int)
    | HttpError(code: Option<int>)
    | TimedOut(lastStatus: Option<StatusDoc>)
    | NeverStaged(lastRead: Option<VersionMatch.Staged>)
    | Broken
    | StillPolling

  datatype Verdict = GoOn | Stop(outcome: Outcome)

  predicate Transient(s: StatusRead) {
    s.StatusHttpError? && s.code.Some? && s.code.value in TRANSIENT_STATUS_CODES
  }

  predicate Matches(r: Round, version: Option<string>) {
    r.staged.StagedBody? && StagedMatches(r.staged.staged, version)
  }

  /** Length of the run of transient status failures that ends just before round `n`. */
  function ErrorRun(rounds: seq<Round>, n: nat): nat
    requires n <= |rounds|
  {
    if n > 0 && Transient(rounds[n - 1].status) then ErrorRun(rounds, n - 1) + 1 else 0
  }

  /** The last status that was read before round `n`. */
  function LastStatus(rounds: seq<Round>, n: nat): Option<StatusDoc>
    requires n <= |rounds|
  {
    if n == 0 then None
    else if rounds[n - 1].status.StatusBody? then Some(rounds[n - 1].status.doc)
    else LastStatus(rounds, n - 1)
  }

  /** The last staged update that was read before round `n`. */
  function LastStaged(rounds: seq<Round>, n: nat): Option<VersionMatch.Staged>
    requires n <= |rounds|
  {
    if n == 0 then None
    else if rounds[n - 1].staged.StagedBody? then Some(rounds[n - 1].staged.staged)
    else LastStaged(rounds, n - 1)
  }

  /** Transient failures among the first `n` rounds. */
  function TransientCount(rounds: seq<Round>, n: nat): nat
    requires n <= |rounds|
  {
    if n == 0 then 0 else TransientCount(rounds, n - 1) + if Transient(rounds[n - 1].status) then 1 else 0
  }

  // ----- one round, judged by the whole trace -----

  /** The part both monitors share: a status failure in round `i`. */
  function ErrorVerdict(rounds: seq<Round>, i: nat, maxErrors: int): Verdict
    requires i < |rounds| && rounds[i].status.StatusHttpError?
  {
    if !Transient(rounds[i].status) then Stop(HttpError(rounds[i].status.code))
    else if ErrorRun(rounds, i + 1) >= maxErrors then Stop(TooManyErrors(rounds[i].status.code.value))
    else GoOn
  }

  function OrTimedOut(v: Verdict, rounds: seq<Round>, i: nat, deadline: int): Verdict
    requires i < |rounds|
  {
    if v == GoOn && rounds[i].clock > deadline then Stop(TimedOut(LastStatus(rounds, i + 1))) else v
  }

  function StageVerdict(rounds: seq<Round>, i: nat, version: Option<string>, deadline: int, maxErrors: int): Verdict
    requires i < |rounds|
  {
    if rounds[i].staged.StagedBreaks? then Stop(Broken)
    else if Matches(rounds[i], version) then Stop(Staged(rounds[i].staged.staged, LastStatus(rounds, i)))
    else
      OrTimedOut(
        match rounds[i].status
        case StatusBody(d) =>
          if ExtractState(d) in {Some("STAGE_FAILED"), Some("INSTALL_FAILED")} then Stop(Failed(d)) else GoOn
        case StatusHttpError(_) => ErrorVerdict(rounds, i, maxErrors)
        case StatusBreaks => Stop(Broken),
        rounds, i, deadline)
  }

  function InstallVerdict(rounds: seq<Round>, i: nat, deadline: int, maxErrors: int): Verdict
    requires i < |rounds|
  {
    OrTimedOut(
      match rounds[i].status
      case StatusBody(d) =>
        if ExtractState(d) == Some("UP_TO_DATE") then Stop(UpToDate(d))
        else if ExtractState(d) == Some("INSTALL_FAILED") then Stop(Failed(d))
        else GoOn
      case StatusHttpError(_) => ErrorVerdict(rounds, i, maxErrors)
      case StatusBreaks => Stop(Broken),
      rounds, i, deadline)
  }

  function WaitVerdict(rounds: seq<Round>, i: nat, version: Option<string>, deadline: int): Verdict
    requires i < |rounds|
  {
    if rounds[i].staged.StagedBreaks? then Stop(Broken)
    else if Matches(rounds[i], version) then Stop(Staged(rounds[i].staged.staged, None))
    else if rounds[i].clock > deadline then Stop(NeverStaged(LastStaged(rounds, i + 1)))
    else GoOn
  }

  function StageVerdicts(rounds: seq<Round>, version: Option<string>, deadline: int, maxErrors: int): nat --> Verdict {
    i requires 0 <= i < |rounds| => StageVerdict(rounds, i, version, deadline, maxErrors)
  }

  function InstallVerdicts(rounds: seq<Round>, deadline: int, maxErrors: int): nat --> Verdict {
    i requires 0 <= i < |rounds| => InstallVerdict(rounds, i, deadline, maxErrors)
  }

  function WaitVerdicts(rounds: seq<Round>, version: Option<string>, deadline: int): nat --> Verdict {
    i requires 0 <= i < |rounds| => WaitVerdict(rounds, i, version, deadline)
  }

  /** `outcome` after `polls` rounds is that of the first round with a verdict. */
  ghost predicate FirstStop(rounds: seq<Round>, verdict: nat --> Verdict, outcome: Outcome, polls: nat)
    requires forall i: nat :: i < |rounds| ==> verdict.requires(i)
  {
    && polls <= |rounds|
    && (outcome == StillPolling ==> polls == |rounds|)
    && (outcome != StillPolling ==> polls > 0 && verdict(polls - 1) == Stop(outcome))
    && forall i :: 0 <= i < (if outcome == StillPolling then polls else polls - 1) ==> verdict(i) == GoOn
  }

  // ----- the loops -----

  /** The outcome is the verdict of the first round that has one, the session is
      invalidated once for each transient failure that was met, and the trace
      may end first (`StillPolling`). */
  method MonitorStage(rounds: seq<Round>, version: Option<string>, start: int, timeout: int, maxErrors: int)
    returns (outcome: Outcome, polls: nat, invalidations: nat)
    ensures FirstStop(rounds, StageVerdicts(rounds, version, start + timeout, maxErrors), outcome, polls)
    ensures invalidations == TransientCount(rounds, if outcome.Staged? || outcome.Broken? then polls - 1 else polls)
  {
    hide StagedMatches;
    var deadline := start + timeout;
    var lastStatus: Option<StatusDoc> := None;
    var transientErrors := 0;
    invalidations := 0;
    for n := 0 to |rounds|
      invariant forall i :: 0 <= i < n ==> StageVerdict(rounds, i, version, deadline, maxErrors) == GoOn
      invariant transientErrors == ErrorRun(rounds, n)
      invariant n > 0 && transientErrors > 0 ==> transientErrors < maxErrors
      invariant lastStatus == LastStatus(rounds, n)
      invariant invalidations == TransientCount(rounds, n)
    {
      polls := n + 1;
      match rounds[n].staged {
        case StagedBody(staged) =>
          if StagedMatches(staged, version) {
            return Staged(staged, lastStatus), polls, invalidations;
          }
        case StagedHttpError =>
        case StagedBreaks =>
          return Broken, polls, invalidations;
      }
      match rounds[n].status {
        case StatusBody(doc) =>
          lastStatus := Some(doc);
          transientErrors := 0;
          var state := ExtractState(doc);
          if state == Some("STAGE_FAILED") || state == Some("INSTALL_FAILED") {
            return Failed(doc), polls, invalidations;
          }
        case StatusHttpError(code) =>
          if !Transient(rounds[n].status) {
            return HttpError(code), polls, invalidations;
          }
          transientErrors := transientErrors + 1;
          invalidations := invalidations + 1;
          if transientErrors >= maxErrors {
            return TooManyErrors(code.value), polls, invalidations;
          }
        case StatusBreaks =>
          return Broken, polls, invalidations;
      }
      if rounds[n].clock > deadline {
        return TimedOut(lastStatus), polls, invalidations;
      }
    }
    return StillPolling, |rounds|, invalidations;
  }

  method MonitorInstall(rounds: seq<Round>, start: int, timeout: int, maxErrors: int)
    returns (outcome: Outcome, polls: nat, invalidations: nat)
    ensures FirstStop(rounds, InstallVerdicts(rounds, start + timeout, maxErrors), outcome, polls)
    ensures invalidations == TransientCount(rounds, polls)
  {
    var deadline := start + timeout;
    var lastStatus: Option<StatusDoc> := None;
    var transientErrors := 0;
    invalidations := 0;
    for n := 0 to |rounds|
      invariant forall i :: 0 <= i < n ==> InstallVerdict(rounds, i, deadline, maxErrors) == GoOn
      invariant transientErrors == ErrorRun(rounds, n)
      invariant n > 0 && transientErrors > 0 ==> transientErrors < maxErrors
      invariant lastStatus == LastStatus(rounds, n)
      invariant invalidations == TransientCount(rounds, n)
    {
      polls := n + 1;
      match rounds[n].status {
        case StatusBody(doc) =>
          lastStatus := Some(doc);
          transientErrors := 0;
          var state := ExtractState(doc);
          if state == Some("UP_TO_DATE") {
            return UpToDate(doc), polls, invalidations;
          }
          if state == Some("INSTALL_FAILED") {
            return Failed(doc), polls, invalidations;
          }
        case StatusHttpError(code) =>
          if !Transient(rounds[n].status) {
            return HttpError(code), polls, invalidations;
          }
          transientErrors := transientErrors + 1;
          invalidations := invalidations + 1;
          if transientErrors >= maxErrors {
            return TooManyErrors(code.value), polls, invalidations;
          }
        case StatusBreaks =>
          return Broken, polls, invalidations;
      }
      if rounds[n].clock > deadline {
        return TimedOut(lastStatus), polls, invalidations;
      }
    }
    return StillPolling, |rounds|, invalidations;
  }

  /** `wait_for_staged_update` reads no status and tolerates every HTTP error. */
  method WaitForStaged(rounds: seq<Round>, version: Option<string>, start: int, timeout: int)
    returns (outcome: Outcome, polls: nat)
    ensures FirstStop(rounds, WaitVerdicts(rounds, version, start + timeout), outcome, polls)
  {
    var deadline := start + timeout;
    var last: Option<VersionMatch.Staged> := None;
    for n := 0 to |rounds|
      invariant forall i :: 0 <= i < n ==> WaitVerdict(rounds, i, version, deadline) == GoOn
      invariant last == LastStaged(rounds, n)
    {
      match rounds[n].staged {
        case StagedBody(staged) =>
          last := Some(staged);
          if StagedMatches(staged, version) {
            return Staged(staged, None), n + 1;
          }
        case StagedHttpError =>
        case StagedBreaks =>
          return Broken, n + 1;
      }
      if rounds[n].clock > deadline {
        return NeverStaged(last), n + 1;
      }
    }
    return StillPolling, |rounds|;
  }

  // ----- what the verdicts mean -----

  /** As long as every round goes on, the run of transient failures is shorter
      than the maximum; the round after that fails with too many errors exactly
      when its failure makes the run reach the maximum. */
  lemma StageErrorLimit(rounds: seq<Round>, i: nat, version: Option<string>, deadline: int, maxErrors: int)
    requires maxErrors >= 1 && i < |rounds|
    requires forall j :: 0 <= j < i ==> StageVerdict(rounds, j, version, deadline, maxErrors) == GoOn
    ensures ErrorRun(rounds, i) < maxErrors
    ensures var v := StageVerdict(rounds, i, version, deadline, maxErrors);
      v.Stop? && v.outcome.TooManyErrors? <==>
        rounds[i].staged != StagedBreaks && !Matches(rounds[i], version) && ErrorRun(rounds, i + 1) == maxErrors
  {
    if i > 0 && ErrorRun(rounds, i) > 0 {
      assert StageVerdict(rounds, i - 1, version, deadline, maxErrors) == GoOn;
    }
  }

  lemma InstallErrorLimit(rounds: seq<Round>, i: nat, deadline: int, maxErrors: int)
    requires maxErrors >= 1 && i < |rounds|
    requires forall j :: 0 <= j < i ==> InstallVerdict(rounds, j, deadline, maxErrors) == GoOn
    ensures ErrorRun(rounds, i) < maxErrors
    ensures var v := InstallVerdict(rounds, i, deadline, maxErrors);
      v.Stop? && v.outcome.TooManyErrors? <==> ErrorRun(rounds, i + 1) == maxErrors
  {
    if i > 0 && ErrorRun(rounds, i) > 0 {
      assert InstallVerdict(rounds, i - 1, deadline, maxErrors) == GoOn;
    }
  }

  /** The run counted is the longest one: `ErrorRun` transient failures in a row
      end before round `n`, and what came before them was none. */
  lemma {:induction false} ErrorRunIsMaximal(rounds: seq<Round>, n: nat)
    requires n <= |rounds|
    ensures var k := ErrorRun(rounds, n);
      && k <= n
      && (forall i :: n - k <= i < n ==> Transient(rounds[i].status))
      && (k < n ==> !Transient(rounds[n - k - 1].status))
  {
    if n > 0 && Transient(rounds[n - 1].status) {
      ErrorRunIsMaximal(rounds, n - 1);
    }
  }

  ghost predicate Says(read: StatusRead, state: string) {
    read == StatusBody(Flat(Some(state))) || exists outer :: read == StatusBody(Nested(outer, Some(state)))
  }

  /** The status read is one of the states: a record under `value` says so itself,
      whatever is around it, and without one the outer record does. */
  ghost predicate InState(r: Round, states: set<string>) {
    exists s :: s in states && Says(r.status, s)
  }

  lemma StateRead(r: Round, states: set<string>)
    ensures InState(r, states) <==>
      r.status.StatusBody? && ExtractState(r.status.doc).Some? && ExtractState(r.status.doc).value in states
  {
    if r.status.StatusBody? && ExtractState(r.status.doc).Some? {
      var s := ExtractState(r.status.doc).value;
      assert r.status.doc.Nested? ==> r.status == StatusBody(Nested(r.status.doc.outer, Some(s)));
      assert Says(r.status, s);
    }
  }

  const STAGE_FAILURES: set<string> := {"STAGE_FAILED", "INSTALL_FAILED"}

  /** The last of `n` rounds read a status, or met an error that is not one too many. */
  predicate Tolerated(rounds: seq<Round>, n: nat, maxErrors: int)
    requires 0 < n <= |rounds|
  {
    rounds[n - 1].status.StatusBody? || (Transient(rounds[n - 1].status) && ErrorRun(rounds, n) < maxErrors)
  }

  lemma StageWentOn(rounds: seq<Round>, i: nat, version: Option<string>, deadline: int, maxErrors: int)
    requires maxErrors >= 1 && i < |rounds| && StageVerdict(rounds, i, version, deadline, maxErrors) == GoOn
    ensures rounds[i].clock <= deadline && !Matches(rounds[i], version)
    ensures !InState(rounds[i], STAGE_FAILURES) && ErrorRun(rounds, i + 1) < maxErrors
  {
    hide InState, StagedMatches;
    StateRead(rounds[i], STAGE_FAILURES);
  }

  /** What the outcome of `monitor_stage` says of the whole trace. Success is the
      first match, and no status before it was a failure; a failed state is the
      first one; a timeout comes in the first round past the deadline, after a
      status that was no failure or a tolerated error, and carries the last status
      read; too many errors are raised exactly when the run of transient failures
      reaches the maximum; the last round decides between these and the two other
      errors, and no poll before it was any of them. */
  lemma StageOutcomes(rounds: seq<Round>, version: Option<string>, deadline: int, maxErrors: int, o: Outcome,
                      polls: nat)
    requires maxErrors >= 1 && o != StillPolling
    requires FirstStop(rounds, StageVerdicts(rounds, version, deadline, maxErrors), o, polls)
    ensures forall i :: 0 <= i < polls - 1 ==>
      && rounds[i].clock <= deadline && !Matches(rounds[i], version)
      && !InState(rounds[i], STAGE_FAILURES) && ErrorRun(rounds, i + 1) < maxErrors
    ensures polls > 0 && polls <= |rounds|
    ensures o.Staged? <==> Matches(rounds[polls - 1], version)
    ensures o.Staged? ==> o.staged == rounds[polls - 1].staged.staged && o.lastStatus == LastStatus(rounds, polls - 1)
    ensures o.Failed? <==>
      rounds[polls - 1].staged != StagedBreaks && !Matches(rounds[polls - 1], version) &&
        InState(rounds[polls - 1], STAGE_FAILURES)
    ensures o.TooManyErrors? <==>
      rounds[polls - 1].staged != StagedBreaks && !Matches(rounds[polls - 1], version) &&
        ErrorRun(rounds, polls) == maxErrors
    ensures o.HttpError? <==>
      && rounds[polls - 1].staged != StagedBreaks && !Matches(rounds[polls - 1], version)
      && rounds[polls - 1].status.StatusHttpError? && !Transient(rounds[polls - 1].status)
    ensures o == Broken <==>
      rounds[polls - 1].staged == StagedBreaks ||
        (!Matches(rounds[polls - 1], version) && rounds[polls - 1].status == StatusBreaks)
    ensures o.TimedOut? <==>
      && rounds[polls - 1].staged != StagedBreaks && !Matches(rounds[polls - 1], version)
      && Tolerated(rounds, polls, maxErrors) && !InState(rounds[polls - 1], STAGE_FAILURES)
    ensures o.TimedOut? ==> rounds[polls - 1].clock > deadline && o.lastStatus == LastStatus(rounds, polls)
    ensures (o.HttpError? ==> rounds[polls - 1].status == StatusHttpError(o.code))
            && (o.TooManyErrors? ==> rounds[polls - 1].status == StatusHttpError(Some(o.last)))
            && (o.Failed? ==> rounds[polls - 1].status == StatusBody(o.status))
    ensures !o.UpToDate? && !o.NeverStaged?
  {
    hide InState, StagedMatches;
    var verdict := StageVerdicts(rounds, version, deadline, maxErrors);
    forall i | 0 <= i < polls - 1
      ensures StageVerdict(rounds, i, version, deadline, maxErrors) == GoOn
    {
      assert verdict(i) == GoOn;
    }
    forall i | 0 <= i < polls - 1
      ensures && rounds[i].clock <= deadline && !Matches(rounds[i], version)
              && !InState(rounds[i], STAGE_FAILURES) && ErrorRun(rounds, i + 1) < maxErrors
    {
      StageWentOn(rounds, i, version, deadline, maxErrors);
    }
    assert verdict(polls - 1) == Stop(o);
    StateRead(rounds[polls - 1], STAGE_FAILURES);
    StageErrorLimit(rounds, polls - 1, version, deadline, maxErrors);
  }

  /** The same for `monitor_install`, whose success is the first `UP_TO_DATE`. */
  lemma InstallOutcomes(rounds: seq<Round>, deadline: int, maxErrors: int, o: Outcome, polls: nat)
    requires maxErrors >= 1 && o != StillPolling
    requires FirstStop(rounds, InstallVerdicts(rounds, deadline, maxErrors), o, polls)
    ensures forall i :: 0 <= i < polls - 1 ==>
      && rounds[i].clock <= deadline && !InState(rounds[i], {"UP_TO_DATE", "INSTALL_FAILED"})
      && ErrorRun(rounds, i + 1) < maxErrors
    ensures polls > 0 && polls <= |rounds|
    ensures o.UpToDate? <==> InState(rounds[polls - 1], {"UP_TO_DATE"})
    ensures o.UpToDate? ==> o.status == rounds[polls - 1].status.doc
    ensures o.Failed? <==> InState(rounds[polls - 1], {"INSTALL_FAILED"})
    ensures o.TooManyErrors? <==> ErrorRun(rounds, polls) == maxErrors
    ensures o.HttpError? <==> rounds[polls - 1].status.StatusHttpError? && !Transient(rounds[polls - 1].status)
    ensures o == Broken <==> rounds[polls - 1].status == StatusBreaks
    ensures o.TimedOut? <==>
      Tolerated(rounds, polls, maxErrors) && !InState(rounds[polls - 1], {"UP_TO_DATE", "INSTALL_FAILED"})
    ensures o.TimedOut? ==> rounds[polls - 1].clock > deadline && o.lastStatus == LastStatus(rounds, polls)
    ensures (o.HttpError? ==> rounds[polls - 1].status == StatusHttpError(o.code))
            && (o.TooManyErrors? ==> rounds[polls - 1].status == StatusHttpError(Some(o.last)))
            && (o.Failed? ==> rounds[polls - 1].status == StatusBody(o.status))
    ensures !o.Staged? && !o.NeverStaged?
  {
    hide InState;
    var verdict := InstallVerdicts(rounds, deadline, maxErrors);
    forall i | 0 <= i < polls - 1
      ensures rounds[i].clock <= deadline && !InState(rounds[i], {"UP_TO_DATE", "INSTALL_FAILED"})
      ensures ErrorRun(rounds, i + 1) < maxErrors && InstallVerdict(rounds, i, deadline, maxErrors) == GoOn
    {
      assert verdict(i) == GoOn;
      StateRead(rounds[i], {"UP_TO_DATE", "INSTALL_FAILED"});
    }
    assert verdict(polls - 1) == Stop(o);
    StateRead(rounds[polls - 1], {"UP_TO_DATE"});
    StateRead(rounds[polls - 1], {"INSTALL_FAILED"});
    StateRead(rounds[polls - 1], {"UP_TO_DATE", "INSTALL_FAILED"});
    InstallErrorLimit(rounds, polls - 1, deadline, maxErrors);
  }

  /** The round reads this status and its staged update does not end the loop before. */
  ghost predicate ReadsUnstaged(r: Round, version: Option<string>, doc: StatusDoc) {
    r.staged != StagedBreaks && !Matches(r, version) && r.status == StatusBody(doc)
  }

  /** Which record of a nested status counts: the inner one, whatever the outer one
      says; a status without a record under `value` counts itself. The installation
      ends in success or in failure in the first round whose counting state says so,
      and does not end so for any other. */
  lemma InstallStates(rounds: seq<Round>, deadline: int, maxErrors: int, o: Outcome, polls: nat,
                      outer: Option<string>, inner: Option<string>, doc: StatusDoc)
    requires maxErrors >= 1 && o != StillPolling
    requires FirstStop(rounds, InstallVerdicts(rounds, deadline, maxErrors), o, polls)
    requires doc in {Nested(outer, inner), Flat(inner)}
    ensures polls > 0 && rounds[polls - 1].status == StatusBody(doc) ==>
      && (inner == Some("UP_TO_DATE") <==> o == UpToDate(doc))
      && (inner == Some("INSTALL_FAILED") <==> o == Failed(doc))
      && (inner !in {Some("UP_TO_DATE"), Some("INSTALL_FAILED")} <==> o.TimedOut?)
    ensures forall i :: 0 <= i < polls - 1 && rounds[i].status == StatusBody(doc) ==>
      inner !in {Some("UP_TO_DATE"), Some("INSTALL_FAILED")}
  {
    InstallOutcomes(rounds, deadline, maxErrors, o, polls);
    forall i | 0 <= i < polls - 1 && rounds[i].status == StatusBody(doc)
      ensures inner !in {Some("UP_TO_DATE"), Some("INSTALL_FAILED")}
    {
      assert InstallVerdicts(rounds, deadline, maxErrors)(i) == GoOn;
    }
  }

  /** The same for the failures of the staging. */
  lemma StageStates(rounds: seq<Round>, version: Option<string>, deadline: int, maxErrors: int, o: Outcome,
                    polls: nat, outer: Option<string>, inner: Option<string>, doc: StatusDoc)
    requires maxErrors >= 1 && o != StillPolling
    requires FirstStop(rounds, StageVerdicts(rounds, version, deadline, maxErrors), o, polls)
    requires doc in {Nested(outer, inner), Flat(inner)}
    ensures polls > 0 && ReadsUnstaged(rounds[polls - 1], version, doc) ==>
      && (inner in {Some("STAGE_FAILED"), Some("INSTALL_FAILED")} <==> o == Failed(doc))
      && (inner !in {Some("STAGE_FAILED"), Some("INSTALL_FAILED")} <==> o.TimedOut?)
    ensures forall i :: 0 <= i < polls - 1 && rounds[i].status == StatusBody(doc) ==>
      inner !in {Some("STAGE_FAILED"), Some("INSTALL_FAILED")}
  {
    StageOutcomes(rounds, version, deadline, maxErrors, o, polls);
    forall i | 0 <= i < polls - 1 && rounds[i].status == StatusBody(doc)
      ensures inner !in {Some("STAGE_FAILED"), Some("INSTALL_FAILED")}
    {
      assert StageVerdicts(rounds, version, deadline, maxErrors)(i) == GoOn;
    }
  }

  /** A status that is no record is no state at all: such a round ends neither loop
      but by its clock, or by a match. */
  lemma NoRecordGoesOn(rounds: seq<Round>, i: nat, version: Option<string>, deadline: int, maxErrors: int)
    requires i < |rounds| && ReadsUnstaged(rounds[i], version, NoRecord)
    ensures var late := rounds[i].clock > deadline;
      StageVerdict(rounds, i, version, deadline, maxErrors) == InstallVerdict(rounds, i, deadline, maxErrors)
      == if late then Stop(TimedOut(Some(NoRecord))) else GoOn
  {
  }

  /** Statuses and staged updates that are remembered: those of the last round that read one. */
  lemma {:induction false} LastReads(rounds: seq<Round>, n: nat)
    requires n <= |rounds|
    ensures LastStatus(rounds, n) == None <==> forall i :: 0 <= i < n ==> !rounds[i].status.StatusBody?
    ensures LastStatus(rounds, n).Some? ==>
      exists i :: 0 <= i < n && rounds[i].status == StatusBody(LastStatus(rounds, n).value)
        && forall j :: i < j < n ==> !rounds[j].status.StatusBody?
    ensures LastStaged(rounds, n) == None <==> forall i :: 0 <= i < n ==> !rounds[i].staged.StagedBody?
    ensures LastStaged(rounds, n).Some? ==>
      exists i :: 0 <= i < n && rounds[i].staged == StagedBody(LastStaged(rounds, n).value)
        && forall j :: i < j < n ==> !rounds[j].staged.StagedBody?
  {
    if n > 0 {
      LastReads(rounds, n - 1);
    }
  }

  /** The rounds before round `n` whose status request met one of six HTTP codes. */
  ghost function MetTransient(rounds: seq<Round>, n: nat): set<nat>
    requires n <= |rounds|
  {
    set i | 0 <= i < n && rounds[i].status.StatusHttpError?
            && rounds[i].status.code in {Some(401), Some(403), Some(404), Some(500), Some(502), Some(503)}
  }

  /** Sessions are invalidated once for each of these rounds. */
  lemma {:induction false} TransientCountIs(rounds: seq<Round>, n: nat)
    requires n <= |rounds|
    ensures TransientCount(rounds, n) == |MetTransient(rounds, n)|
  {
    if n > 0 {
      TransientCountIs(rounds, n - 1);
      var met := MetTransient(rounds, n - 1);
      if Transient(rounds[n - 1].status) {
        assert MetTransient(rounds, n) == met + {n - 1};
      } else {
        assert MetTransient(rounds, n) == met;
      }
    }
  }

  /** The fallback wait ends with the first match, or in the first round past the
      deadline with the last update that was read, or with an exception that is
      no HTTP error. */
  lemma WaitOutcomes(rounds: seq<Round>, version: Option<string>, deadline: int, o: Outcome, polls: nat)
    requires o != StillPolling
    requires FirstStop(rounds, WaitVerdicts(rounds, version, deadline), o, polls)
    ensures forall i :: 0 <= i < polls - 1 ==> rounds[i].clock <= deadline && !Matches(rounds[i], version)
    ensures polls > 0 && polls <= |rounds|
    ensures o.Staged? <==> Matches(rounds[polls - 1], version)
    ensures o.Staged? ==> o.lastStatus == None && rounds[polls - 1].staged == StagedBody(o.staged)
    ensures o.NeverStaged? <==> rounds[polls - 1].staged != StagedBreaks && !Matches(rounds[polls - 1], version)
    ensures o.NeverStaged? ==> rounds[polls - 1].clock > deadline && o.lastRead == LastStaged(rounds, polls)
    ensures o == Broken <==> rounds[polls - 1].staged == StagedBreaks
    ensures o.Staged? || o.NeverStaged? || o == Broken
  {
    var verdict := WaitVerdicts(rounds, version, deadline);
    forall i | 0 <= i < polls - 1
      ensures rounds[i].clock <= deadline && !Matches(rounds[i], version)
    {
      assert verdict(i) == GoOn;
    }
    assert verdict(polls - 1) == Stop(o);
  }

  // ----- how long the loops can run -----

  function Clocks(rounds: seq<Round>, n: nat): seq<int>
    requires n <= |rounds|
  {
    seq(n, i requires 0 <= i < n => rounds[i].clock)
  }

  /** With sleeps of at least `pace`, none of the three loops polls more often
      than the deadline allows, however the server answers; so on any longer
      trace it has stopped. */
  lemma PollsAreBounded(rounds: seq<Round>, version: Option<string>, start: int, timeout: int, pace: int,
                        maxErrors: int, verdict: nat --> Verdict, outcome: Outcome, polls: nat)
    requires pace > 0 && Paced(Clocks(rounds, |rounds|), start, pace)
    requires || verdict == StageVerdicts(rounds, version, start + timeout, maxErrors)
             || verdict == InstallVerdicts(rounds, start + timeout, maxErrors)
             || verdict == WaitVerdicts(rounds, version, start + timeout)
    requires FirstStop(rounds, verdict, outcome, polls)
    ensures polls <= AtLeast(timeout / pace + 2, 1)
    ensures rounds != [] ==> polls >= 1
    ensures |rounds| > AtLeast(timeout / pace + 2, 1) ==> outcome != StillPolling
  {
    var clocks := Clocks(rounds, polls);
    assert Paced(clocks, start, pace) by {
      var all := Clocks(rounds, |rounds|);
      assert forall i :: 0 <= i < polls ==> clocks[i] == all[i];
    }
    forall i | 0 <= i < |clocks| - 1
      ensures clocks[i] <= start + timeout
    {
      assert verdict(i) == GoOn;
    }
    StrictDeadline(clocks, start, timeout, pace);
  }
}

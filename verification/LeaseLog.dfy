/** What the reading of a log in `LeaseProtocol` means, in terms of the events in it. */
module LeaseLog {
  import opened Basics
  import opened LeaseProtocol

  lemma FilterSnoc(keep: Event -> bool, log: seq<Event>, e: Event)
    ensures Filter(keep, log + [e]) == Filter(keep, log) + if keep(e) then [e] else []
  {
    FilterAppend(keep, log, [e]);
    assert [e][1..] == [];
  }

  /** What is counted and collected are the events of a kind, in their order. */
  lemma {:induction false} ReadingIs(n: nat, log: seq<Event>)
    ensures Read(n, log).stopped <==> StopSet in log
    ensures Read(n, log).completions == |Filter(e => e == CompleteCalled(true), log)|
    ensures Read(n, log).aborts == |Filter((e: Event) => e.AbortCalled?, log)|
    ensures Read(n, log).released == |Filter(e => e == AbortCalled(true), log)|
    ensures var took := Filter((e: Event) => e.PutAnswered? && e.status < 400, log);
      && |Read(n, log).accepted| == |took|
      && forall i :: 0 <= i < |took| ==> took[i].PutAnswered? && took[i].file == Read(n, log).accepted[i]
    ensures var sent := Filter((e: Event) => e.PingStarted?, log);
      && |Read(n, log).pings| == |sent|
      && forall i :: 0 <= i < |sent| ==> sent[i].PingStarted? && sent[i].percent == Read(n, log).pings[i]
  {
    if log == [] {
    } else {
      var front, e := log[..|log| - 1], log[|log| - 1];
      assert log == front + [e];
      ReadingIs(n, front);
      LogGrows(n, front, e);
      FilterSnoc(e => e == CompleteCalled(true), front, e);
      FilterSnoc((e: Event) => e.AbortCalled?, front, e);
      FilterSnoc(e => e == AbortCalled(true), front, e);
      FilterSnoc((e: Event) => e.PutAnswered? && e.status < 400, front, e);
      FilterSnoc((e: Event) => e.PingStarted?, front, e);
      hide Read, Filter;
    }
  }

  /** The lease is completed or its abort called. */
  predicate EndsLease(e: Event) {
    e.AbortCalled? || (e.CompleteCalled? && e.returned)
  }

  ghost predicate LeaseEnded(log: seq<Event>) {
    exists i :: 0 <= i < |log| && EndsLease(log[i])
  }

  /** The calls that end the lease come when they should. */
  ghost predicate EndsInOrder(n: nat, log: seq<Event>) {
    forall i :: 0 <= i < |log| ==>
      && (log[i].AbortCalled? ==> StopSet in log[..i])
      && (log[i].CompleteCalled? ==> StopSet in log[..i] && Read(n, log[..i]).accepted == UpTo(n))
  }

  lemma BeforeLast(front: seq<Event>, e: Event)
    ensures forall i :: 0 <= i <= |front| ==> (front + [e])[..i] == front[..i]
  {
  }

  lemma EndedSnoc(front: seq<Event>, e: Event)
    ensures LeaseEnded(front + [e]) <==> LeaseEnded(front) || EndsLease(e)
  {
    hide EndsLease;
    var log := front + [e];
    assert log[|front|] == e && forall i :: 0 <= i < |front| ==> log[i] == front[i];
  }

  lemma OrderSnoc(n: nat, front: seq<Event>, e: Event)
    ensures EndsInOrder(n, front + [e]) <==>
      && EndsInOrder(n, front) && (e.AbortCalled? ==> StopSet in front)
      && (e.CompleteCalled? ==> StopSet in front && Read(n, front).accepted == UpTo(n))
  {
    hide Read, UpTo;
    BeforeLast(front, e);
    assert front[..|front|] == front && (front + [e])[|front|] == e;
    assert forall i :: 0 <= i < |front| ==> (front + [e])[i] == front[i];
  }

  lemma NoteEnds(n: nat, r: Reading, e: Event)
    ensures Note(n, r, e).completions + Note(n, r, e).aborts > 0 <==> r.completions + r.aborts > 0 || EndsLease(e)
  {
  }

  lemma {:induction false} EndedIs(n: nat, log: seq<Event>)
    ensures Read(n, log).completions + Read(n, log).aborts > 0 <==> LeaseEnded(log)
  {
    if log == [] {
    } else {
      hide Read, LeaseEnded, Note, EndsLease;
      var front, e := log[..|log| - 1], log[|log| - 1];
      assert log == front + [e];
      EndedIs(n, front);
      LogGrows(n, front, e);
      NoteEnds(n, Read(n, front), e);
      EndedSnoc(front, e);
    }
  }

  /** The log is ordered when no completion came before the event and all files, and
      no abort before the event. */
  lemma {:induction false} OrderIs(n: nat, log: seq<Event>)
    ensures Read(n, log).ordered <==> EndsInOrder(n, log)
  {
    if log == [] {
    } else {
      hide Read, EndsInOrder, UpTo;
      var front, e := log[..|log| - 1], log[|log| - 1];
      assert log == front + [e];
      OrderIs(n, front);
      LogGrows(n, front, e);
      ReadingIs(n, front);
      OrderSnoc(n, front, e);
    }
  }

  /** Pings, as the lease and its server see them. */
  function PingsIn(log: seq<Event>): seq<Event> {
    Filter((e: Event) => e.PingStarted?, log)
  }

  lemma NoPings()
    ensures PingsIn([]) == []
  {
  }

  lemma {:induction false} LateBefore(n: nat, a: seq<Event>)
    requires StopSet !in a
    ensures Read(n, a).late == 0
  {
    if a != [] {
      var front, e := a[..|a| - 1], a[|a| - 1];
      assert a == front + [e];
      LateBefore(n, front);
      ReadingIs(n, front);
    }
  }

  /** Late pings are those after the first time the stop event is set. */
  lemma {:induction false} LateIs(n: nat, a: seq<Event>, b: seq<Event>)
    requires StopSet !in a
    ensures Read(n, a).late == 0
    ensures Read(n, a + [StopSet] + b).late == |PingsIn(b)|
    decreases |a| + |b|
  {
    hide Filter, Read;
    if b != [] {
      var front, e := b[..|b| - 1], b[|b| - 1];
      LateIs(n, a, front);
      assert a + [StopSet] + b == a + [StopSet] + front + [e] && b == front + [e];
      LogGrows(n, a + [StopSet] + front, e);
      ReadingIs(n, a + [StopSet] + front);
      assert (a + [StopSet] + front)[|a|] == StopSet;
      FilterSnoc((e: Event) => e.PingStarted?, front, e);
    } else {
      LateBefore(n, a);
      assert a + [StopSet] + [] == a + [StopSet];
      LogGrows(n, a, StopSet);
      NoPings();
    }
  }

  lemma EndedWithin(a: seq<Event>, end: Event, b: seq<Event>)
    requires EndsLease(end)
    ensures LeaseEnded(a + [end] + b)
  {
    assert (a + [end] + b)[|a|] == end;
  }

  lemma {:induction false} TrailingBefore(n: nat, a: seq<Event>)
    requires !LeaseEnded(a)
    ensures Read(n, a).trailing == 0
  {
    if a != [] {
      var front, e := a[..|a| - 1], a[|a| - 1];
      assert a == front + [e];
      EndedSnoc(front, e);
      TrailingBefore(n, front);
      EndedIs(n, front);
    }
  }

  /** Trailing pings are those after the first call that completed the lease or
      aborted it. */
  lemma {:induction false} TrailingIs(n: nat, a: seq<Event>, end: Event, b: seq<Event>)
    requires !LeaseEnded(a) && EndsLease(end)
    ensures Read(n, a).trailing == 0
    ensures Read(n, a + [end] + b).trailing == |PingsIn(b)|
    decreases |b|
  {
    hide Filter, LeaseEnded, Read;
    if b != [] {
      var front, e := b[..|b| - 1], b[|b| - 1];
      TrailingIs(n, a, end, front);
      assert a + [end] + b == a + [end] + front + [e] && b == front + [e];
      LogGrows(n, a + [end] + front, e);
      EndedIs(n, a + [end] + front);
      EndedWithin(a, end, front);
      FilterSnoc((e: Event) => e.PingStarted?, front, e);
    } else {
      TrailingBefore(n, a);
      assert a + [end] + [] == a + [end];
      LogGrows(n, a, end);
      NoPings();
    }
  }
}

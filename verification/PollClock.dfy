/** How often a deadline loop can go round. A loop polls, stops if the clock is
    past the deadline, and otherwise sleeps at least `pace`. */
module PollClock {
  import opened Basics

  /** The clock readings of consecutive rounds: none before `start`, each at
      least `pace` after the one before. */
  ghost predicate Paced(clocks: seq<int>, start: int, pace: int) {
    && (|clocks| > 0 ==> clocks[0] >= start)
    && (forall i :: 0 < i < |clocks| ==> clocks[i] >= clocks[i - 1] + pace)
  }

  lemma {:induction false} PacedGrows(clocks: seq<int>, start: int, pace: int, i: nat)
    requires Paced(clocks, start, pace) && i < |clocks|
    ensures clocks[i] >= start + i * pace
  {
    if i == 0 {
    } else {
      PacedGrows(clocks, start, pace, i - 1);
      assert i * pace == (i - 1) * pace + pace;
    }
  }

  function Ceil(t: int, p: int): int
    requires p > 0
  {
    (t + p - 1) / p
  }

  function AtLeast(n: int, low: int): int {
    if n < low then low else n
  }

  lemma QuotientBound(k: nat, p: int, t: int)
    requires p > 0 && k * p <= t
    ensures k <= t / p
  {
    var q := t / p;
    assert t < (q + 1) * p;
    if q + 1 <= k {
      MulMonotone(q + 1, k, p);
    }
  }

  /** A loop that goes on while `clock <= start + timeout` does so for at most
      floor(timeout / pace) + 1 rounds, so it makes at most two polls more than
      the quotient, or a single one. */
  lemma StrictDeadline(clocks: seq<int>, start: int, timeout: int, pace: int)
    requires pace > 0 && Paced(clocks, start, pace)
    requires forall i :: 0 <= i < |clocks| - 1 ==> clocks[i] <= start + timeout
    ensures |clocks| <= AtLeast(timeout / pace + 2, 1)
  {
    var n := |clocks|;
    if n >= 2 {
      PacedGrows(clocks, start, pace, n - 2);
      QuotientBound(n - 2, pace, timeout);
    }
  }

  /** A loop that goes on while `clock < start + timeout` makes at most
      ceil(timeout / pace) + 1 polls, or a single one. */
  lemma InclusiveDeadline(clocks: seq<int>, start: int, timeout: int, pace: int)
    requires pace > 0 && Paced(clocks, start, pace)
    requires forall i :: 0 <= i < |clocks| - 1 ==> clocks[i] < start + timeout
    ensures |clocks| <= AtLeast(Ceil(timeout, pace) + 1, 1)
  {
    var n := |clocks|;
    if n >= 2 {
      PacedGrows(clocks, start, pace, n - 2);
      assert (n - 1) * pace == (n - 2) * pace + pace;
      QuotientBound(n - 1, pace, timeout + pace - 1);
    }
  }

  lemma StepsApart(clocks: seq<int>, start: int, pace: int)
    requires forall i :: 0 <= i < |clocks| ==> clocks[i] == start + i * pace
    ensures Paced(clocks, start, pace)
  {
    forall i | 0 < i < |clocks|
      ensures clocks[i] >= clocks[i - 1] + pace
    {
      assert i * pace == (i - 1) * pace + pace;
    }
  }

  lemma StepFits(i: nat, q: int, pace: int, t: int)
    requires pace > 0 && i <= q && q == t / pace
    ensures i * pace <= t
  {
    assert q * pace <= t;
    assert (q - i) * pace >= 0;
    assert q * pace == i * pace + (q - i) * pace;
  }

  /** Both bounds are reached by a clock that advances by exactly the pace. */
  lemma BoundsAreReached(start: int, timeout: int, pace: int) returns (strict: seq<int>, inclusive: seq<int>)
    requires pace > 0
    ensures Paced(strict, start, pace) && |strict| == AtLeast(timeout / pace + 2, 1)
    ensures forall i :: 0 <= i < |strict| - 1 ==> strict[i] <= start + timeout
    ensures Paced(inclusive, start, pace) && |inclusive| == AtLeast(Ceil(timeout, pace) + 1, 1)
    ensures forall i :: 0 <= i < |inclusive| - 1 ==> inclusive[i] < start + timeout
  {
    strict := seq(AtLeast(timeout / pace + 2, 1), i => start + i * pace);
    inclusive := seq(AtLeast(Ceil(timeout, pace) + 1, 1), i => start + i * pace);
    StepsApart(strict, start, pace);
    StepsApart(inclusive, start, pace);
    forall i | 0 <= i < |strict| - 1
      ensures strict[i] <= start + timeout
    {
      StepFits(i, timeout / pace, pace, timeout);
    }
    forall i | 0 <= i < |inclusive| - 1
      ensures inclusive[i] < start + timeout
    {
      StepFits(i + 1, Ceil(timeout, pace), pace, timeout + pace - 1);
      assert (i + 1) * pace == i * pace + pace;
    }
  }
}

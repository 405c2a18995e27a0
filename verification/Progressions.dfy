/** The index loop of parse_period in src/bin/systemd-crontab-generator.cpp: where machine-word
    addition takes it, and when it leaves. */
module Progressions {
  import opened Text
  import opened CronFields

  /** `m` steps from `first`. */
  function Nth(first: nat, step: nat, m: nat): (v: nat)
    ensures v >= first && (m > 0 ==> v >= first + step)
  {
    if m == 0 then first else Nth(first, step, m - 1) + step
  }

  lemma {:induction false} NthIs(first: nat, step: nat, m: nat)
    ensures Nth(first, step, m) == first + m * step
  {
    if m > 0 {
      NthIs(first, step, m - 1);
      assert (m - 1) * step + step == m * step;
    }
  }

  lemma {:induction false} NthFrom(first: nat, shift: nat, step: nat, m: nat)
    ensures Nth(first + shift, step, m) == Nth(first, step, m) + shift
  {
    if m > 0 {
      NthFrom(first, shift, step, m - 1);
    }
  }

  /** Reached from `first` by whole steps. */
  ghost predicate OnStep(first: nat, step: nat, v: nat) {
    exists m: nat :: v == Nth(first, step, m)
  }

  lemma OnStepNext(i: nat, step: nat, k: nat)
    requires step >= 1
    ensures OnStep(i, step, k) <==> k == i || OnStep(i + step, step, k)
  {
    if OnStep(i, step, k) && k != i {
      var m: nat :| k == Nth(i, step, m);
      NthFrom(i, step, step, m - 1);
      assert k == Nth(i + step, step, m - 1);
    }
    if OnStep(i + step, step, k) {
      var m: nat :| k == Nth(i + step, step, m);
      NthFrom(i, step, step, m);
      assert k == Nth(i, step, m + 1);
    }
    assert i == Nth(i, step, 0);
  }

  ghost function Progression(kind: Kind, i: nat, end: nat, step: nat): set<nat> {
    set k | 0 <= k < end && OnStep(i, step, k) :: At(kind, k)
  }

  lemma ProgressionStep(kind: Kind, i: nat, end: nat, step: nat)
    requires i < end && step >= 1
    ensures Progression(kind, i, end, step) == {At(kind, i)} + Progression(kind, i + step, end, step)
  {
    forall k | 0 <= k < end
      ensures OnStep(i, step, k) <==> k == i || OnStep(i + step, step, k)
    {
      OnStepNext(i, step, k);
    }
  }

  lemma CollectNext(kind: Kind, i: nat, end: nat, step: nat)
    requires i < end <= 60 && 1 <= step < WORD && i + step < WORD
    ensures Collect(kind, i, end, step) == {At(kind, i)} + if i + step < end then Collect(kind, i + step, end, step) else {}
  {
    assert Plus(i, step) == i + step;
  }

  lemma SameUnion(a: set<nat>, b: set<nat>, x: nat, c: set<nat>, d: set<nat>)
    requires a == {x} + c && b == {x} + d && c == d
    ensures a == b
  {
  }

  lemma LastEntry(kind: Kind, i: nat, end: nat, step: nat)
    requires i < end <= 60 && 1 <= step < WORD && end <= i + step < WORD
    ensures Collect(kind, i, end, step) == Progression(kind, i, end, step)
  {
    CollectNext(kind, i, end, step);
    ProgressionStep(kind, i, end, step);
    NothingBefore(kind, i + step, end, step);
  }

  lemma {:induction false} CollectSteps(kind: Kind, i: nat, end: nat, step: nat)
    requires i < end <= 60 && 1 <= step < WORD && i + step < WORD
    ensures Collect(kind, i, end, step) == Progression(kind, i, end, step)
    decreases end - i
  {
    if i + step >= end {
      LastEntry(kind, i, end, step);
    } else {
      CollectSteps(kind, i + step, end, step);
      CollectNext(kind, i, end, step);
      ProgressionStep(kind, i, end, step);
      SameUnion(Collect(kind, i, end, step), Progression(kind, i, end, step), At(kind, i),
                Collect(kind, i + step, end, step), Progression(kind, i + step, end, step));
    }
  }

  lemma NothingBefore(kind: Kind, i: nat, end: nat, step: nat)
    requires i >= end
    ensures Progression(kind, i, end, step) == {}
  {
    forall k: nat | OnStep(i, step, k)
      ensures k >= i
    {
      var m: nat :| k == Nth(i, step, m);
    }
  }

  lemma ShiftOnStep(i: nat, step: nat, k: nat, base: nat)
    ensures OnStep(i, step, k) <==> OnStep(i + base, step, k + base)
  {
    if OnStep(i, step, k) {
      var m: nat :| k == Nth(i, step, m);
      NthFrom(i, base, step, m);
      assert k + base == Nth(i + base, step, m);
    }
    if OnStep(i + base, step, k + base) {
      var m: nat :| k + base == Nth(i + base, step, m);
      NthFrom(i, base, step, m);
      assert k == Nth(i, step, m);
    }
  }

  lemma OnlyItself(i: nat, step: nat, k: nat)
    requires OnStep(i, step, k) && k < i + step
    ensures k == i
  {
    var m: nat :| k == Nth(i, step, m);
  }

  /** No addition wraps around, or only from one Sunday to the other. */
  predicate StaysAbove(kind: Kind, i: nat, step: nat) {
    i + step < WORD || (kind.Dow? && i == 7 && step == WORD - 7)
  }

  lemma WrapGoesBelow(kind: Kind, i: nat, end: nat, step: nat)
    requires i < end <= Count(kind) && step < WORD && !StaysAbove(kind, i, step)
    ensures Collect(kind, i, end, step) != Progression(kind, i, end, step)
  {
    var next := Plus(i, step);
    var low := At(kind, next);
    assert next < i && low in Collect(kind, next, end, step);
    assert low in Collect(kind, i, end, step);
    forall k: nat | k < end && OnStep(i, step, k)
      ensures At(kind, k) != low
    {
      OnlyItself(i, step, k);
    }
    assert low !in Progression(kind, i, end, step);
  }

  lemma BothSundays(end: nat, step: nat)
    requires end == 8 && step == WORD - 7
    ensures Collect(Dow, 7, end, step) == Progression(Dow, 7, end, step) == {0}
  {
    assert Plus(7, step) == 0 && Plus(0, step) == step >= end;
    assert Collect(Dow, 0, end, step) == {0};
    ProgressionStep(Dow, 7, end, step);
    NothingBefore(Dow, 7 + step, end, step);
  }

  /** The loop keeps to the steps from its start just if it never goes below it. */
  lemma CollectExactly(kind: Kind, i: nat, end: nat, step: nat)
    requires i < end <= Count(kind) && 1 <= step < WORD
    ensures Collect(kind, i, end, step) == Progression(kind, i, end, step) <==> StaysAbove(kind, i, step)
  {
    if i + step < WORD {
      CollectSteps(kind, i, end, step);
    } else if StaysAbove(kind, i, step) {
      BothSundays(end, step);
    } else {
      WrapGoesBelow(kind, i, end, step);
    }
  }

  /** Wrapping around or not, the loop leaves nothing out. */
  lemma ProgressionCollected(kind: Kind, i: nat, end: nat, step: nat)
    requires i < end <= Count(kind) && 1 <= step < WORD
    ensures Progression(kind, i, end, step) <= Collect(kind, i, end, step)
  {
    if i + step < WORD {
      CollectSteps(kind, i, end, step);
    } else {
      assert At(kind, i) in Collect(kind, i, end, step);
      forall k: nat | k < end && OnStep(i, step, k)
        ensures k == i
      {
        OnlyItself(i, step, k);
      }
    }
  }

  /** The entries at `i`, `i + step`, `i + 2 * step`, ... below `end`. */
  ghost function Arithmetic(kind: Kind, i: nat, end: nat, step: nat): set<nat> {
    set m | 0 <= m < end && i + m * step < end :: At(kind, i + m * step)
  }

  lemma ArithmeticIsProgression(kind: Kind, i: nat, end: nat, step: nat)
    requires step >= 1
    ensures Arithmetic(kind, i, end, step) == Progression(kind, i, end, step)
  {
    forall x | x in Arithmetic(kind, i, end, step)
      ensures x in Progression(kind, i, end, step)
    {
      var m: nat :| m < end && i + m * step < end && x == At(kind, i + m * step);
      NthIs(i, step, m);
      assert OnStep(i, step, i + m * step);
    }
    forall x | x in Progression(kind, i, end, step)
      ensures x in Arithmetic(kind, i, end, step)
    {
      var k: nat :| k < end && OnStep(i, step, k) && x == At(kind, k);
      var m: nat :| k == Nth(i, step, m);
      NthIs(i, step, m);
      NthAtLeast(i, step, m);
    }
  }

  lemma {:induction false} NthAtLeast(first: nat, step: nat, m: nat)
    requires step >= 1
    ensures Nth(first, step, m) >= first + m
  {
    if m > 0 {
      NthAtLeast(first, step, m - 1);
    }
  }

  /** The loop visits exactly an arithmetic progression just if no addition wraps around, save
      for the one step of 2^64 - 7 from the second Sunday to the first. */
  lemma CollectIsProgression(kind: Kind, i: nat, end: nat, step: nat)
    requires i < end <= Count(kind) && 1 <= step < WORD
    ensures Collect(kind, i, end, step) == Arithmetic(kind, i, end, step) <==> StaysAbove(kind, i, step)
  {
    CollectExactly(kind, i, end, step);
    ArithmeticIsProgression(kind, i, end, step);
  }

  // ---------------------------------------------------------------- when it leaves

  lemma {:induction false} RoundsFirst(i: nat, step: nat, n: nat)
    requires i < WORD && step < WORD
    ensures Rounds(i, step, n + 1) == Rounds(Plus(i, step), step, n)
  {
    if n > 0 {
      RoundsFirst(i, step, n - 1);
    }
  }

  lemma {:induction false} Leaves(i: nat, end: nat, step: nat) returns (n: nat)
    requires i < WORD && end <= 60 && 1 <= step < WORD
    ensures Rounds(i, step, n) >= end
    decreases if i >= end then 0 else if step < WORD / 2 then 1 + end - i else 1 + i
  {
    if i >= end {
      n := 0;
    } else {
      var m := Leaves(Plus(i, step), end, step);
      RoundsFirst(i, step, m);
      n := m + 1;
    }
  }

  /** The index gets to the end of the table, or past it by wrapping around, unless the step is
      zero. */
  lemma LoopEnds(i: nat, end: nat, step: nat)
    requires i < end <= 60 && step < WORD
    ensures (exists n: nat :: Rounds(i, step, n) >= end) <==> step != 0
  {
    if step == 0 {
      forall n: nat
        ensures Rounds(i, step, n) < end
      {
        ZeroStepNeverEnds(i, n);
      }
    } else {
      var n := Leaves(i, end, step);
    }
  }

  /** An element hangs the generator just if its loop is entered and never reaches its end. */
  lemma HangsExactly(kind: Kind, first: nat, last: nat, step: nat)
    requires first < WORD && last < WORD && step < WORD
    ensures var i, end := StartIndex(kind, first), EndIndex(kind, last, Count(kind));
            Between(kind, first, last, step) == Hangs <==> i < end && forall n: nat :: Rounds(i, step, n) < end
    ensures StarOutcome(kind, step) == Hangs <==> forall n: nat :: Rounds(0, step, n) < Count(kind)
  {
    var i, end := StartIndex(kind, first), EndIndex(kind, last, Count(kind));
    if i < end {
      LoopEnds(i, end, step);
    }
    LoopEnds(0, Count(kind), step);
  }
}

/** Random ranges `a~b`, either end of which may be left out: what they can draw, against what
    crontab(5) promises. */
module CronRandom {
  import opened Basics
  import opened Text
  import opened CronFields
  import opened CronSyntax

  /** What may stand on either side of the `~`: a number, a name, nothing, or anything else. */
  predicate Side(s: string) {
    '~' !in s && '/' !in s
  }

  function RangeOf(a: string, b: string): string {
    a + ['~'] + b
  }

  /** A step may follow; it is read, and then not used. */
  function TextOf(a: string, b: string, step: Option<string>): string {
    if step.Some? then RangeOf(a, b) + ['/'] + step.value else RangeOf(a, b)
  }

  /** The step, if any, is a number. */
  predicate StepReads(step: Option<string>) {
    step.Some? ==> '/' !in step.value && !IntMap(step.value, false).err
  }

  // ---------------------------------------------------------------- what is drawn

  /** What the lookups return, whether or not they set the error. */
  function FirstTaken(kind: Kind, a: string): (v: nat)
    ensures v < WORD
  {
    Map(kind, a, false, false).value
  }

  function LastTaken(kind: Kind, a: string, b: string): (v: nat)
    ensures v < WORD
  {
    Map(kind, b, a != [] && Map(kind, a, false, false).err, true).value
  }

  /** The code begins one value late when the start is omitted in a field that begins with 1. */
  function FirstDrawn(kind: Kind, a: string): nat {
    if a == [] then Lowest(kind) + Base(kind) else FirstTaken(kind, a)
  }

  /** It goes on to one past the end, unless that wraps around to the first index. */
  function LastOf(kind: Kind, taken: nat): nat {
    if taken + Shift(kind) >= WORD then Lowest(kind) else Least(taken + 1, Highest(kind))
  }

  function LastDrawn(kind: Kind, a: string, b: string): nat {
    if b == [] then Highest(kind) else LastOf(kind, LastTaken(kind, a, b))
  }

  predicate Accepted(kind: Kind, a: string, b: string) {
    Lowest(kind) <= FirstDrawn(kind, a) <= LastDrawn(kind, a, b)
  }

  lemma RandomReads(kind: Kind, a: string, b: string, step: nat, draw: nat)
    requires Side(a) && Side(b) && step < WORD
    ensures Unstepped(kind, RangeOf(a, b), step, draw) == RandomOutcome(kind, a, b, draw)
  {
    var text := RangeOf(a, b);
    HasIsMember(b, '~');
    HalvesOf(a, '~', b);
    assert text[|a|] == '~';
  }

  lemma StepIgnored(kind: Kind, a: string, b: string, step: Option<string>, draw: nat)
    requires Side(a) && Side(b) && StepReads(step)
    ensures Period(kind, TextOf(a, b, step), draw) == RandomOutcome(kind, a, b, draw)
  {
    var range := RangeOf(a, b);
    if step.Some? {
      HalvesOf(range, '/', step.value);
      HasIsMember(step.value, '/');
      RandomReads(kind, a, b, IntMap(step.value, false).value, draw);
    } else {
      HasIsMember(range, '/');
      RandomReads(kind, a, b, 1, draw);
    }
  }

  lemma DrawnShifted(i: nat, j: nat, base: nat, draw: nat)
    requires i <= j
    ensures Drawn(i + base, j + base, draw) == Drawn(i, j, draw) + base
  {
  }

  lemma LotMeaning(kind: Kind, i: nat, j: nat, draw: nat)
    requires i <= j < Count(kind)
    ensures Lot(kind, i, j, draw) == Added({Normal(kind, Drawn(i + Base(kind), j + Base(kind), draw))}, true)
  {
    DrawnShifted(i, j, Base(kind), draw);
    EntryIsNormal(kind, Drawn(i, j, draw));
  }

  lemma FirstIndex(kind: Kind, a: string, i: nat)
    requires i == if a == [] then Base(kind) else StartIndex(kind, FirstTaken(kind, a))
    ensures Lowest(kind) <= FirstDrawn(kind, a) ==> i + Base(kind) == FirstDrawn(kind, a)
    ensures !(Lowest(kind) <= FirstDrawn(kind, a) <= Highest(kind)) ==> i >= Count(kind)
  {
    TakenIndex(kind, FirstTaken(kind, a));
  }

  lemma TakenIndex(kind: Kind, taken: nat)
    requires taken < WORD
    ensures Lowest(kind) <= taken ==> StartIndex(kind, taken) + Base(kind) == taken
    ensures !(Lowest(kind) <= taken <= Highest(kind)) ==> StartIndex(kind, taken) >= Count(kind)
  {
  }

  lemma LastIndex(kind: Kind, taken: nat)
    requires taken < WORD
    ensures EndIndex(kind, taken, Count(kind) - 1) + Base(kind) == LastOf(kind, taken)
  {
  }

  lemma LotBetween(kind: Kind, i: nat, j: nat, first: nat, last: nat, draw: nat)
    requires j < Count(kind) && j + Base(kind) == last
    requires if Lowest(kind) <= first <= Highest(kind) then i + Base(kind) == first else i >= Count(kind)
    ensures Lot(kind, i, j, draw) ==
              if Lowest(kind) <= first <= last then Added({Normal(kind, Drawn(first, last, draw))}, true) else Rejected(OutOfRange)
  {
    if Lowest(kind) <= first <= last {
      LotMeaning(kind, i, j, draw);
    }
  }

  lemma LotOf(kind: Kind, a: string, b: string, i: nat, j: nat, draw: nat)
    requires i == if a == [] then Base(kind) else StartIndex(kind, FirstTaken(kind, a))
    requires j == if b == [] then Count(kind) - 1 else EndIndex(kind, LastTaken(kind, a, b), Count(kind) - 1)
    ensures Lot(kind, i, j, draw) ==
              if Accepted(kind, a, b) then Added({Normal(kind, Drawn(FirstDrawn(kind, a), LastDrawn(kind, a, b), draw))}, true)
              else Rejected(OutOfRange)
  {
    FirstIndex(kind, a, i);
    LastIndex(kind, LastTaken(kind, a, b));
    LotBetween(kind, i, j, FirstDrawn(kind, a), LastDrawn(kind, a, b), draw);
  }

  /** For any sides at all: one of the values from the first to the last, or rejected. */
  lemma PeriodDraws(kind: Kind, a: string, b: string, step: Option<string>, draw: nat)
    requires Side(a) && Side(b) && StepReads(step)
    ensures Period(kind, TextOf(a, b, step), draw) ==
              if Accepted(kind, a, b) then Added({Normal(kind, Drawn(FirstDrawn(kind, a), LastDrawn(kind, a, b), draw))}, true)
              else Rejected(OutOfRange)
  {
    StepIgnored(kind, a, b, step, draw);
    var i := if a == [] then Base(kind) else StartIndex(kind, FirstTaken(kind, a));
    var j := if b == [] then Count(kind) - 1 else EndIndex(kind, LastTaken(kind, a, b), Count(kind) - 1);
    LotOf(kind, a, b, i, j, draw);
  }

  lemma EveryDraw(first: nat, last: nat, v: nat)
    requires first <= v <= last
    ensures Drawn(first, last, v - first) == v
  {
  }

  /** Some draw adds this value. */
  ghost predicate CanAdd(kind: Kind, text: string, x: nat) {
    exists draw: nat :: Period(kind, text, draw) == Added({x}, true)
  }

  /** Some number from `first` to `last` stands for this value. */
  ghost predicate Among(kind: Kind, first: nat, last: nat, x: nat) {
    exists v: nat :: first <= v <= last && x == Normal(kind, v)
  }

  lemma AddedWasDrawn(kind: Kind, a: string, b: string, step: Option<string>, x: nat)
    requires Side(a) && Side(b) && StepReads(step) && Accepted(kind, a, b) && CanAdd(kind, TextOf(a, b, step), x)
    ensures Among(kind, FirstDrawn(kind, a), LastDrawn(kind, a, b), x)
  {
    var draw: nat :| Period(kind, TextOf(a, b, step), draw) == Added({x}, true);
    PeriodDraws(kind, a, b, step, draw);
    var v := Drawn(FirstDrawn(kind, a), LastDrawn(kind, a, b), draw);
    assert x in {Normal(kind, v)};
  }

  lemma DrawCanBeAdded(kind: Kind, text: string, first: nat, last: nat, v: nat)
    requires first <= v <= last && Period(kind, text, v - first) == Added({Normal(kind, Drawn(first, last, v - first))}, true)
    ensures CanAdd(kind, text, Normal(kind, v))
  {
    EveryDraw(first, last, v);
  }

  lemma DrawnIsAdded(kind: Kind, a: string, b: string, step: Option<string>, v: nat)
    requires Side(a) && Side(b) && StepReads(step) && Accepted(kind, a, b)
    requires FirstDrawn(kind, a) <= v <= LastDrawn(kind, a, b)
    ensures CanAdd(kind, TextOf(a, b, step), Normal(kind, v))
  {
    PeriodDraws(kind, a, b, step, v - FirstDrawn(kind, a));
    DrawCanBeAdded(kind, TextOf(a, b, step), FirstDrawn(kind, a), LastDrawn(kind, a, b), v);
  }

  /** What can be drawn, exactly. */
  lemma DrawsExactly(kind: Kind, a: string, b: string, step: Option<string>, x: nat)
    requires Side(a) && Side(b) && StepReads(step) && Accepted(kind, a, b)
    ensures CanAdd(kind, TextOf(a, b, step), x) <==> Among(kind, FirstDrawn(kind, a), LastDrawn(kind, a, b), x)
  {
    if CanAdd(kind, TextOf(a, b, step), x) {
      AddedWasDrawn(kind, a, b, step, x);
    }
    if Among(kind, FirstDrawn(kind, a), LastDrawn(kind, a, b), x) {
      var v: nat :| FirstDrawn(kind, a) <= v <= LastDrawn(kind, a, b) && x == Normal(kind, v);
      DrawnIsAdded(kind, a, b, step, v);
    }
  }

  // ---------------------------------------------------------------- ranges of values

  /** One range of numbers stands for values of another; either Sunday will do for the other. */
  predicate Inside(kind: Kind, a: nat, b: nat, c: nat, d: nat) {
    if a > b then true
    else if !kind.Dow? then c <= a && b <= d
    else
      var sunday := c <= d && (c == 0 || d == 7);
      var a', b' := if a == 0 && sunday then 1 else a, if b == 7 && sunday then b - 1 else b;
      a' > b' || (c <= a' && b' <= d)
  }

  lemma InsideExactly(kind: Kind, a: nat, b: nat, c: nat, d: nat)
    requires b <= Highest(kind) && d <= Highest(kind)
    ensures (forall x: nat :: Among(kind, a, b, x) ==> Among(kind, c, d, x)) <==> Inside(kind, a, b, c, d)
  {
    if Inside(kind, a, b, c, d) {
      forall x: nat | Among(kind, a, b, x)
        ensures Among(kind, c, d, x)
      {
        var v: nat :| a <= v <= b && x == Normal(kind, v);
        InsideOne(kind, a, b, c, d, v);
      }
    } else {
      var v := Outside(kind, a, b, c, d);
      assert Among(kind, a, b, Normal(kind, v));
    }
  }

  lemma InsideOne(kind: Kind, a: nat, b: nat, c: nat, d: nat, v: nat)
    requires b <= Highest(kind) && d <= Highest(kind) && Inside(kind, a, b, c, d) && a <= v <= b
    ensures Among(kind, c, d, Normal(kind, v))
  {
    if c <= v <= d {
      assert Normal(kind, v) == Normal(kind, v);
    } else if c == 0 {
      assert c <= 0 <= d && Normal(kind, v) == Normal(kind, 0);
    } else {
      assert c <= 7 <= d && Normal(kind, v) == Normal(kind, 7);
    }
  }

  lemma Outside(kind: Kind, a: nat, b: nat, c: nat, d: nat) returns (v: nat)
    requires b <= Highest(kind) && d <= Highest(kind) && !Inside(kind, a, b, c, d)
    ensures a <= v <= b && !Among(kind, c, d, Normal(kind, v))
  {
    var sunday := kind.Dow? && c <= d && (c == 0 || d == 7);
    var a', b' := if a == 0 && sunday then 1 else a, if b == 7 && sunday then b - 1 else b;
    v := if a' < c || a' > d then a' else b';
  }

  // ---------------------------------------------------------------- against the promise

  /** An end that means something: nothing, a number, or a name of the field. */
  predicate End(kind: Kind, s: string) {
    s == [] || (Bound(s) && Meaningful(kind, s))
  }

  /** crontab(5): both ends are included, and an omitted one is the field's limit; what is beyond
      the field is left out. */
  function WrittenFirst(kind: Kind, a: string): nat
    requires End(kind, a)
  {
    if a == [] || Number(kind, a) < Lowest(kind) then Lowest(kind) else Number(kind, a)
  }

  function WrittenLast(kind: Kind, b: string): nat
    requires End(kind, b)
  {
    if b == [] then Highest(kind) else Least(EndNumber(kind, b), Highest(kind))
  }

  ghost predicate Promised(kind: Kind, a: string, b: string, x: nat)
    requires End(kind, a) && End(kind, b)
  {
    Among(kind, WrittenFirst(kind, a), WrittenLast(kind, b), x)
  }

  lemma BadStepRejected(kind: Kind, a: string, b: string, step: Option<string>, draw: nat)
    requires Side(a) && Side(b) && !StepReads(step)
    ensures Period(kind, TextOf(a, b, step), draw).Rejected?
  {
    HalvesOf(RangeOf(a, b), '/', step.value);
    HasIsMember(step.value, '/');
  }

  /** A random range, whatever stands on its sides, is rejected just if its step is no number or
      there is nothing from the first value it can draw to the last. Otherwise, if its ends mean something, every value it
      can add was promised just if what it draws is inside of what was written, and every value
      promised can be added just if what was written is inside of what it draws. */
  lemma RandomMeaning(kind: Kind, a: string, b: string, step: Option<string>)
    requires Side(a) && Side(b)
    ensures !StepReads(step) || !Accepted(kind, a, b) ==> forall draw: nat :: Period(kind, TextOf(a, b, step), draw).Rejected?
    ensures StepReads(step) && Accepted(kind, a, b) ==>
              && (forall draw: nat :: Period(kind, TextOf(a, b, step), draw).Added?)
              && (forall x: nat :: CanAdd(kind, TextOf(a, b, step), x) <==> Among(kind, FirstDrawn(kind, a), LastDrawn(kind, a, b), x))
    ensures StepReads(step) && Accepted(kind, a, b) && End(kind, a) && End(kind, b) ==>
              var first, last, from, to := FirstDrawn(kind, a), LastDrawn(kind, a, b), WrittenFirst(kind, a), WrittenLast(kind, b);
              && ((forall x: nat :: CanAdd(kind, TextOf(a, b, step), x) ==> Promised(kind, a, b, x)) <==> Inside(kind, first, last, from, to))
              && ((forall x: nat :: Promised(kind, a, b, x) ==> CanAdd(kind, TextOf(a, b, step), x)) <==> Inside(kind, from, to, first, last))
  {
    if StepReads(step) {
      forall draw: nat {
        PeriodDraws(kind, a, b, step, draw);
      }
    } else {
      forall draw: nat {
        BadStepRejected(kind, a, b, step, draw);
      }
    }
    if StepReads(step) && Accepted(kind, a, b) {
      forall x: nat {
        DrawsExactly(kind, a, b, step, x);
      }
      if End(kind, a) && End(kind, b) {
        AgainstThePromise(kind, a, b, step);
      }
    }
  }

  lemma AgainstThePromise(kind: Kind, a: string, b: string, step: Option<string>)
    requires StepReads(step) && Accepted(kind, a, b) && End(kind, a) && End(kind, b)
    requires forall x: nat :: CanAdd(kind, TextOf(a, b, step), x) <==> Among(kind, FirstDrawn(kind, a), LastDrawn(kind, a, b), x)
    ensures var first, last, from, to := FirstDrawn(kind, a), LastDrawn(kind, a, b), WrittenFirst(kind, a), WrittenLast(kind, b);
            && ((forall x: nat :: CanAdd(kind, TextOf(a, b, step), x) ==> Promised(kind, a, b, x)) <==> Inside(kind, first, last, from, to))
            && ((forall x: nat :: Promised(kind, a, b, x) ==> CanAdd(kind, TextOf(a, b, step), x)) <==> Inside(kind, from, to, first, last))
  {
    InsideExactly(kind, FirstDrawn(kind, a), LastDrawn(kind, a, b), WrittenFirst(kind, a), WrittenLast(kind, b));
    InsideExactly(kind, WrittenFirst(kind, a), WrittenLast(kind, b), FirstDrawn(kind, a), LastDrawn(kind, a, b));
  }

  // ---------------------------------------------------------------- numbers

  /** What is taken for a number that does not fit: the error is not asked for. */
  function Taken(kind: Kind, s: string): (v: nat)
    requires Numeral(s)
    ensures v < WORD
  {
    if Value(s) < WORD then Value(s) else if kind.Month? then 0 else WORD - 1
  }

  /** Without an earlier error, or outside the months, a number is taken as such. */
  lemma MapTakes(kind: Kind, s: string, err: bool, to: bool)
    requires Numeral(s) && (err ==> !kind.Month?)
    ensures Map(kind, s, err, to).value == Taken(kind, s) && (Map(kind, s, err, to).err <==> err || Value(s) >= WORD)
  {
    IntMapNumeral(s, err);
    NumeralIsNoName(s);
    DayFound(s);
    MonthFound(s);
  }

  lemma NumbersTaken(kind: Kind, a: string, b: string)
    requires (a == [] || Numeral(a)) && (b == [] || Numeral(b)) && Accepted(kind, a, b)
    ensures a != [] ==> FirstTaken(kind, a) == Taken(kind, a) == Value(a)
    ensures b != [] ==> LastTaken(kind, a, b) == Taken(kind, b)
  {
    if a != [] {
      MapTakes(kind, a, false, false);
    }
    if b != [] {
      MapTakes(kind, b, false, true);
    }
  }

  /** The end is not overrun: there is none, it is the field's, or what is past it is a Sunday
      that was written anyway. */
  predicate EndKept(kind: Kind, a: string, b: string)
    requires (a == [] || Numeral(a)) && (b == [] || Numeral(b))
  {
    b == [] || Highest(kind) <= Value(b) || (kind.Dow? && (a == [] || Value(a) == 0) && Value(b) == 6)
  }

  /** The end is reached: there is none, or it does not wrap around; in the day field it cannot. */
  predicate EndReached(kind: Kind, b: string)
    requires b == [] || Numeral(b)
  {
    b == [] || Value(b) + Shift(kind) < WORD || kind.Day?
  }

  /** With numbers for ends: nothing is added that was not promised just if the end is kept, and
      everything promised can be added just if the end is reached and the start was given or the
      field begins with 0. With the start left out, the first day and month are never drawn. */
  lemma NumericRanges(kind: Kind, a: string, b: string)
    requires (a == [] || Numeral(a)) && (b == [] || Numeral(b)) && Accepted(kind, a, b)
    ensures var first, last, from, to := FirstDrawn(kind, a), LastDrawn(kind, a, b), WrittenFirst(kind, a), WrittenLast(kind, b);
            && (Inside(kind, first, last, from, to) <==> EndKept(kind, a, b))
            && (Inside(kind, from, to, first, last) <==> EndReached(kind, b) && (a != [] || Base(kind) == 0))
  {
    NumbersTaken(kind, a, b);
    NothingUnpromised(kind, a, b);
    EverythingPromised(kind, a, b);
  }

  lemma NothingUnpromised(kind: Kind, a: string, b: string)
    requires (a == [] || Numeral(a)) && (b == [] || Numeral(b)) && Accepted(kind, a, b)
    requires (a != [] ==> FirstTaken(kind, a) == Value(a)) && (b != [] ==> LastTaken(kind, a, b) == Taken(kind, b))
    ensures Inside(kind, FirstDrawn(kind, a), LastDrawn(kind, a, b), WrittenFirst(kind, a), WrittenLast(kind, b)) <==> EndKept(kind, a, b)
  {
  }

  lemma EverythingPromised(kind: Kind, a: string, b: string)
    requires (a == [] || Numeral(a)) && (b == [] || Numeral(b)) && Accepted(kind, a, b)
    requires (a != [] ==> FirstTaken(kind, a) == Value(a)) && (b != [] ==> LastTaken(kind, a, b) == Taken(kind, b))
    ensures Inside(kind, WrittenFirst(kind, a), WrittenLast(kind, b), FirstDrawn(kind, a), LastDrawn(kind, a, b))
            <==> EndReached(kind, b) && (a != [] || Base(kind) == 0)
  {
  }

  // ---------------------------------------------------------------- names

  lemma NameMapped(kind: Kind, s: string, err: bool, to: bool)
    requires IsName(s) && (kind.Month? || kind.Dow?) && Meaningful(kind, s)
    ensures Map(kind, s, err, to).value == if to then EndNumber(kind, s) else Number(kind, s)
  {
    assert IsLetter(s[0]);
    IntMapLetter(s, err);
    DayFound(s);
    MonthFound(s);
  }

  lemma NamesTaken(kind: Kind, a: string, b: string)
    requires IsName(a) && IsName(b) && (kind.Month? || kind.Dow?) && Meaningful(kind, a) && Meaningful(kind, b)
    ensures FirstTaken(kind, a) == Number(kind, a) && LastTaken(kind, a, b) == EndNumber(kind, b)
  {
    NameMapped(kind, a, false, false);
    NameMapped(kind, b, Map(kind, a, false, false).err, true);
  }

  lemma NameIsSide(s: string)
    requires IsName(s)
    ensures Side(s) && s != []
  {
    BoundLacks(s, '~');
    BoundLacks(s, '/');
  }

  /** Names of months, which are of no use elsewhere, do work in random ranges: from the first one on
      to one past the last, or to December. */
  lemma MonthRange(a: string, i: nat, b: string, j: nat, draw: nat)
    requires IsName(a) && IsName(b) && 1 <= i <= j <= 12
    requires var names := ["jan", "feb", "mar", "apr", "may", "jun", "jul", "aug", "sep", "oct", "nov", "dec"];
             Begins(a, names[i - 1]) && Begins(b, names[j - 1])
    ensures Period(Month, RangeOf(a, b), draw) == Added({Drawn(i, if j < 12 then j + 1 else 12, draw)}, true)
  {
    MonthNamed(a, i);
    MonthNamed(b, j);
    MonthsDrawn(a, i, b, j);
    DrawsBetween(Month, a, b, i, if j < 12 then j + 1 else 12, draw);
  }

  lemma MonthsDrawn(a: string, i: nat, b: string, j: nat)
    requires IsName(a) && IsName(b) && 1 <= i <= j <= 12 && MonthOf(a) == Some(i) && MonthOf(b) == Some(j)
    ensures Side(a) && Side(b) && Accepted(Month, a, b)
    ensures FirstDrawn(Month, a) == i && LastDrawn(Month, a, b) == if j < 12 then j + 1 else 12
  {
    NamesTaken(Month, a, b);
    NameIsSide(a);
    NameIsSide(b);
    NotNumerals(a, b);
  }

  lemma NotNumerals(a: string, b: string)
    requires IsName(a) && IsName(b)
    ensures !Numeral(a) && !Numeral(b)
  {
    assert IsLetter(a[0]) && IsLetter(b[0]);
  }

  lemma MonthNamed(s: string, m: nat)
    requires 1 <= m <= 12
    requires var names := ["jan", "feb", "mar", "apr", "may", "jun", "jul", "aug", "sep", "oct", "nov", "dec"]; Begins(s, names[m - 1])
    ensures MonthOf(s) == Some(m)
  {
  }

  lemma NumberNotTaken(a: string, b: string)
    requires IsName(a) && Numeral(b)
    ensures Map(Month, a, false, false).err && LastTaken(Month, a, b) == 0
  {
    assert IsLetter(a[0]);
    IntMapLetter(a, false);
    NumeralIsNoName(b);
    MonthFound(b);
  }

  lemma DrawsBetween(kind: Kind, a: string, b: string, first: nat, last: nat, draw: nat)
    requires Side(a) && Side(b) && first == FirstDrawn(kind, a) && last == LastDrawn(kind, a, b)
    ensures Period(kind, RangeOf(a, b), draw) ==
              if Lowest(kind) <= first <= last then Added({Normal(kind, Drawn(first, last, draw))}, true) else Rejected(OutOfRange)
  {
    PeriodDraws(kind, a, b, None, draw);
  }

  lemma MonthThenNumber(a: string, b: string, i: nat)
    requires IsName(a) && MonthOf(a) == Some(i) && Numeral(b)
    ensures FirstDrawn(Month, a) == i >= 1 && LastDrawn(Month, a, b) == 1
  {
    MonthFound(a);
    NameMapped(Month, a, false, false);
    NumberNotTaken(a, b);
    NotNumerals(a, a);
  }

  lemma OnlyTheFirst(kind: Kind, i: nat, draw: nat, o: Outcome)
    requires Lowest(kind) == 1 <= i
    requires o == if Lowest(kind) <= i <= 1 then Added({Normal(kind, Drawn(i, 1, draw))}, true) else Rejected(OutOfRange)
    ensures o == if i == 1 then Added({1}, true) else Rejected(OutOfRange)
  {
  }

  lemma NumeralIsSide(s: string)
    requires Numeral(s)
    ensures Side(s)
  {
    NumeralLacks(s, '~');
    NumeralLacks(s, '/');
  }

  /** A number after a month's name is not read as one: only January is ever drawn, and from no other
      name on anything. */
  lemma NameThenNumber(a: string, i: nat, b: string, draw: nat)
    requires IsName(a) && MonthOf(a) == Some(i) && Numeral(b)
    ensures Period(Month, RangeOf(a, b), draw) == if i == 1 then Added({1}, true) else Rejected(OutOfRange)
  {
    MonthThenNumber(a, b, i);
    NameIsSide(a);
    NumeralIsSide(b);
    DrawsBetween(Month, a, b, i, 1, draw);
    OnlyTheFirst(Month, i, draw, Period(Month, RangeOf(a, b), draw));
  }
}

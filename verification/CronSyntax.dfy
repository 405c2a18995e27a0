/** Time fields as crontab(5) describes them - numbers, names, ranges, steps, lists - with the set
    of values each stands for, and the proof of when the parser finds exactly that set. */
module CronSyntax {
  import opened Basics
  import opened Text
  import opened CronFields
  import opened Progressions

  /** `*`, a number or name, or a range. */
  datatype Range = All | One(a: string) | Span(a: string, b: string)

  datatype Element = Element(range: Range, step: Option<string>)

  predicate IsLetter(c: char) {
    'a' <= c <= 'z' || 'A' <= c <= 'Z'
  }

  /** At least three letters. */
  predicate IsName(s: string) {
    |s| >= 3 && forall i :: 0 <= i < |s| ==> IsLetter(s[i])
  }

  /** Numbers are digit strings, leading zeros and all. */
  predicate Bound(s: string) {
    Numeral(s) || IsName(s)
  }

  predicate WellWritten(e: Element) {
    && (!e.range.All? ==> Bound(e.range.a))
    && (e.range.Span? ==> Bound(e.range.b))
    && (e.step.Some? ==> Numeral(e.step.value))
  }

  function RangeText(r: Range): string {
    match r
    case All => "*"
    case One(a) => a
    case Span(a, b) => a + ['-'] + b
  }

  function Render(e: Element): string {
    if e.step.Some? then RangeText(e.range) + ['/'] + e.step.value else RangeText(e.range)
  }

  // ---------------------------------------------------------------- meaning

  /** Minutes 0 to 59, hours 0 to 23, days 1 to 31, months 1 to 12, weekdays 0 to 7. */
  function Lowest(kind: Kind): nat {
    if kind == Day || kind == Month then 1 else 0
  }

  function Highest(kind: Kind): nat {
    match kind
    case Minute => 59
    case Hour => 23
    case Day => 31
    case Month => 12
    case Dow => 7
  }

  /** A lower-case letter, or that letter in upper case. */
  predicate Letter(c: char, letter: char) {
    c == letter || c as int + 32 == letter as int
  }

  /** The first three letters of a name, in either case. */
  predicate Begins(s: string, name: string) {
    |s| >= 3 && |name| == 3 && Letter(s[0], name[0]) && Letter(s[1], name[1]) && Letter(s[2], name[2])
  }

  /** The weekday and the month of a name. */
  function DayOf(s: string): Option<nat> {
    if Begins(s, "sun") then Some(0)
    else if Begins(s, "mon") then Some(1)
    else if Begins(s, "tue") then Some(2)
    else if Begins(s, "wed") then Some(3)
    else if Begins(s, "thu") then Some(4)
    else if Begins(s, "fri") then Some(5)
    else if Begins(s, "sat") then Some(6)
    else None
  }

  function MonthOf(s: string): Option<nat> {
    if Begins(s, "jan") then Some(1)
    else if Begins(s, "feb") then Some(2)
    else if Begins(s, "mar") then Some(3)
    else if Begins(s, "apr") then Some(4)
    else if Begins(s, "may") then Some(5)
    else if Begins(s, "jun") then Some(6)
    else if Begins(s, "jul") then Some(7)
    else if Begins(s, "aug") then Some(8)
    else if Begins(s, "sep") then Some(9)
    else if Begins(s, "oct") then Some(10)
    else if Begins(s, "nov") then Some(11)
    else if Begins(s, "dec") then Some(12)
    else None
  }

  /** Names are for months and weekdays. */
  predicate Meaningful(kind: Kind, s: string) {
    Numeral(s) || (kind.Dow? && DayOf(s).Some?) || (kind.Month? && MonthOf(s).Some?)
  }

  function Number(kind: Kind, s: string): nat
    requires Bound(s)
  {
    if Numeral(s) then Value(s)
    else if kind.Month? then (if MonthOf(s).Some? then MonthOf(s).value else 0)
    else if DayOf(s).Some? then DayOf(s).value
    else 0
  }

  /** At the end of a range, Sunday is 7. */
  function EndNumber(kind: Kind, s: string): nat
    requires Bound(s)
  {
    if !Numeral(s) && kind.Dow? && Number(kind, s) == 0 then 7 else Number(kind, s)
  }

  predicate Named(kind: Kind, e: Element) {
    && (!e.range.All? ==> Meaningful(kind, e.range.a))
    && (e.range.Span? ==> Meaningful(kind, e.range.b))
  }

  function First(kind: Kind, e: Element): nat
    requires WellWritten(e)
  {
    if e.range.All? then Lowest(kind) else Number(kind, e.range.a)
  }

  function Last(kind: Kind, e: Element): nat
    requires WellWritten(e)
  {
    match e.range
    case All => Highest(kind)
    case One(a) => Number(kind, a)
    case Span(_, b) => EndNumber(kind, b)
  }

  function Step(e: Element): nat
    requires WellWritten(e)
  {
    if e.step.Some? then Value(e.step.value) else 1
  }

  /** Both 0 and 7 are Sunday. */
  function Normal(kind: Kind, v: nat): nat {
    if kind.Dow? then v % 7 else v
  }

  /** The values of the field's range between two numbers, by whole steps from the first. */
  ghost predicate Within(kind: Kind, first: nat, last: nat, step: nat, v: nat) {
    Lowest(kind) <= v <= Highest(kind) && v <= last && OnStep(first, step, v)
  }

  ghost function Selected(kind: Kind, first: nat, last: nat, step: nat): set<nat> {
    set v | Lowest(kind) <= v <= Highest(kind) && Within(kind, first, last, step, v) :: Normal(kind, v)
  }

  /** What an element selects. */
  ghost function Denote(kind: Kind, e: Element): set<nat>
    requires WellWritten(e)
  {
    Selected(kind, First(kind, e), Last(kind, e), Step(e))
  }

  /** The element means something, starts within the field's range and selects something. */
  ghost predicate Sensible(kind: Kind, e: Element)
    requires WellWritten(e)
  {
    Named(kind, e) && Lowest(kind) <= First(kind, e) && Denote(kind, e) != {}
  }

  // ---------------------------------------------------------------- what the code can do

  /** A number that fits a word, or the name of a weekday; a month's name is never accepted. */
  predicate Parses(kind: Kind, s: string) {
    if Numeral(s) then Value(s) < 0x1_0000_0000_0000_0000 else kind.Dow? && DayOf(s).Some?
  }

  /** The code takes a lone number or name for a range from itself to itself. */
  function CodeEnd(kind: Kind, e: Element): nat
    requires WellWritten(e) && !e.range.All?
  {
    EndNumber(kind, if e.range.One? then e.range.a else e.range.b)
  }

  /** The name of Sunday by itself is a range from 0 to 7. */
  predicate LoneSunday(kind: Kind, e: Element)
    requires WellWritten(e)
  {
    kind.Dow? && e.range.One? && !Numeral(e.range.a) && Number(kind, e.range.a) == 0
  }

  /** The step is a positive machine word, below 2^63 after `*`; all ends can be parsed; the last
      index does not wrap around to zero; and the loop neither goes below its start nor, for a
      lone Sunday, through the week. */
  predicate Manageable(kind: Kind, e: Element)
    requires WellWritten(e)
  {
    && 1 <= Step(e) < WORD
    && if e.range.All? then Step(e) < WORD / 2
       else
         && Parses(kind, e.range.a) && (e.range.Span? ==> Parses(kind, e.range.b))
         && CodeEnd(kind, e) + Shift(kind) < WORD
         && if LoneSunday(kind, e) then Step(e) >= 7
            else Base(kind) <= First(kind, e) && StaysAbove(kind, First(kind, e) - Base(kind), Step(e))
  }

  // ---------------------------------------------------------------- values and indexes

  lemma IndexSelected(kind: Kind, first: nat, last: nat, step: nat, end: nat, k: nat)
    requires Lowest(kind) <= first && end == Least(last + Shift(kind), Count(kind))
    ensures Within(kind, first, last, step, k + Base(kind)) <==> k < end && OnStep(first - Base(kind), step, k)
  {
    ShiftOnStep(first - Base(kind), step, k, Base(kind));
  }

  lemma EntryIsNormal(kind: Kind, k: nat)
    ensures At(kind, k) == Normal(kind, k + Base(kind))
  {
  }

  lemma IndexInSelected(kind: Kind, first: nat, last: nat, step: nat, end: nat, k: nat)
    requires Lowest(kind) <= first && end == Least(last + Shift(kind), Count(kind))
    requires k < end && OnStep(first - Base(kind), step, k)
    ensures At(kind, k) in Selected(kind, first, last, step)
  {
    IndexSelected(kind, first, last, step, end, k);
    EntryIsNormal(kind, k);
    var v := k + Base(kind);
    assert Lowest(kind) <= v <= Highest(kind) && Within(kind, first, last, step, v);
  }

  lemma SelectedInProgression(kind: Kind, first: nat, last: nat, step: nat, end: nat, v: nat)
    requires Lowest(kind) <= first && end == Least(last + Shift(kind), Count(kind))
    requires Within(kind, first, last, step, v)
    ensures Normal(kind, v) in Progression(kind, first - Base(kind), end, step)
  {
    var k := v - Base(kind);
    IndexSelected(kind, first, last, step, end, k);
    EntryIsNormal(kind, k);
    assert 0 <= k < end && OnStep(first - Base(kind), step, k);
  }

  /** In terms of the field's own values. */
  lemma ProgressionIsSelected(kind: Kind, first: nat, last: nat, step: nat, end: nat)
    requires Lowest(kind) <= first && end == Least(last + Shift(kind), Count(kind))
    ensures Progression(kind, first - Base(kind), end, step) == Selected(kind, first, last, step)
  {
    var start := first - Base(kind);
    forall x | x in Progression(kind, start, end, step)
      ensures x in Selected(kind, first, last, step)
    {
      var k: nat :| k < end && OnStep(start, step, k) && x == At(kind, k);
      IndexInSelected(kind, first, last, step, end, k);
    }
    forall x | x in Selected(kind, first, last, step)
      ensures x in Progression(kind, start, end, step)
    {
      var v: nat :| Lowest(kind) <= v <= Highest(kind) && Within(kind, first, last, step, v) && x == Normal(kind, v);
      SelectedInProgression(kind, first, last, step, end, v);
    }
  }

  lemma SomethingSelected(kind: Kind, first: nat, last: nat, step: nat)
    requires Lowest(kind) <= first
    ensures Selected(kind, first, last, step) != {} <==> first <= Highest(kind) && first <= last
  {
    if first <= Highest(kind) && first <= last {
      assert first == Nth(first, step, 0);
      assert Within(kind, first, last, step, first);
      assert Normal(kind, first) in Selected(kind, first, last, step);
    }
    forall v: nat | Within(kind, first, last, step, v)
      ensures v >= first
    {
      StepsUp(first, step, v);
    }
  }

  lemma StepsUp(first: nat, step: nat, v: nat)
    requires OnStep(first, step, v)
    ensures v >= first
  {
    var m: nat :| v == Nth(first, step, m);
  }

  lemma FirstAlone(kind: Kind, first: nat, step: nat)
    requires Lowest(kind) <= first <= Highest(kind)
    ensures Selected(kind, first, first, step) == {Normal(kind, first)}
  {
    SomethingSelected(kind, first, first, step);
    forall v: nat | Within(kind, first, first, step, v)
      ensures v == first
    {
      StepsUp(first, step, v);
    }
  }

  lemma BetweenCollects(kind: Kind, first: nat, last: nat, step: nat, end: nat)
    requires Lowest(kind) <= first <= Highest(kind) && first <= last < WORD && 1 <= step < WORD
    requires last + Shift(kind) < WORD && end == Least(last + Shift(kind), Count(kind))
    ensures first - Base(kind) < end && Between(kind, first, last, step) == Added(Collect(kind, first - Base(kind), end, step), false)
  {
  }

  lemma BetweenFails(kind: Kind, first: nat, last: nat, step: nat)
    requires Lowest(kind) <= first <= Highest(kind) && first <= last < WORD && step < WORD
    requires step == 0 || last + Shift(kind) >= WORD
    ensures !Between(kind, first, last, step).Added?
  {
  }

  lemma SameSets(o: Outcome, collected: set<nat>, progression: set<nat>, selected: set<nat>, above: bool)
    requires o == Added(collected, false) && progression == selected && (collected == progression <==> above)
    ensures o == Added(selected, false) <==> above
  {
  }

  /** The code's range is what it should be just if it stays above its start, and its end does not
      wrap around to zero. */
  lemma BetweenExactly(kind: Kind, first: nat, last: nat, step: nat)
    requires Lowest(kind) <= first <= Highest(kind) && first <= last < WORD && step < WORD
    ensures Between(kind, first, last, step) == Added(Selected(kind, first, last, step), false)
            <==> 1 <= step && last + Shift(kind) < WORD && StaysAbove(kind, first - Base(kind), step)
  {
    if 1 <= step && last + Shift(kind) < WORD {
      var end := Least(last + Shift(kind), Count(kind));
      var i := first - Base(kind);
      BetweenCollects(kind, first, last, step, end);
      ProgressionIsSelected(kind, first, last, step, end);
      CollectExactly(kind, i, end, step);
      SameSets(Between(kind, first, last, step), Collect(kind, i, end, step), Progression(kind, i, end, step),
               Selected(kind, first, last, step), StaysAbove(kind, i, step));
    } else {
      BetweenFails(kind, first, last, step);
    }
  }

  lemma BetweenRejects(kind: Kind, first: nat, last: nat, step: nat)
    requires first < WORD && last < WORD && step < WORD
    requires first < Lowest(kind) || first > Highest(kind) || first > last
    ensures Between(kind, first, last, step) == Rejected(OutOfRange)
  {
  }

  // ---------------------------------------------------------------- reading the text

  lemma NumeralLacks(s: string, c: char)
    requires Numeral(s) && !IsDigit(c)
    ensures c !in s
  {
  }

  lemma HasIsMember(s: string, c: char)
    ensures Has(s, c) <==> c in s
  {
    if c !in s {
      assert s[..|s|] == s;
      FindAt(s, c, |s|);
    }
  }

  lemma HalvesOf(a: string, c: char, b: string)
    requires c !in a
    ensures Has(a + [c] + b, c) && Halves(a + [c] + b, c) == (a, b)
  {
    var s := a + [c] + b;
    assert s[..|a|] == a && s[|a| + 1..] == b;
    FindAt(s, c, |a|);
  }

  lemma BoundLacks(s: string, c: char)
    requires Bound(s) && !IsDigit(c) && !IsLetter(c)
    ensures c !in s
  {
  }

  lemma ShortIs(s: string, name: string)
    requires |name| == 3 && 'a' <= name[0] <= 'z' && 'a' <= name[1] <= 'z' && 'a' <= name[2] <= 'z'
    ensures Short(s) == name <==> Begins(s, name)
  {
    if |s| >= 3 {
      assert Short(s) == name <==> Lower(s[0]) == name[0] && Lower(s[1]) == name[1] && Lower(s[2]) == name[2];
    }
  }

  lemma {:induction false} FoundAt(table: seq<string>, name: string, i: nat, k: nat)
    requires i <= k <= |table| && (k < |table| ==> table[k] == name) && forall j :: i <= j < k ==> table[j] != name
    ensures IndexOf(table, name, i) == k
    decreases k - i
  {
    if i < k {
      FoundAt(table, name, i + 1, k);
    }
  }

  /** The code's table has the names of the weekdays where they belong. */
  lemma DayFound(s: string)
    ensures var d := DayOf(s);
            && IndexOf(DOWS, Short(s), 0) == (if d.Some? then d.value else 8)
            && IndexOf(DOWS, Short(s), 1) == (if d == Some(0) then 7 else if d.Some? then d.value else 8)
            && (d.Some? ==> d.value < 7)
  {
    forall j | 0 <= j < 8
      ensures |DOWS[j]| == 3 && (Short(s) == DOWS[j] <==> Begins(s, DOWS[j]))
    {
      ShortIs(s, DOWS[j]);
    }
    assert DOWS[0] == "sun" && DOWS[1] == "mon" && DOWS[2] == "tue" && DOWS[3] == "wed" && DOWS[4] == "thu";
    assert DOWS[5] == "fri" && DOWS[6] == "sat" && DOWS[7] == "sun";
    var d := DayOf(s);
    FoundAt(DOWS, Short(s), 0, if d.Some? then d.value else 8);
    FoundAt(DOWS, Short(s), 1, if d == Some(0) then 7 else if d.Some? then d.value else 8);
  }

  lemma MonthFound(s: string)
    ensures var m := MonthOf(s);
            && IndexOf(MONTHS, Short(s), 0) == (if m.Some? then m.value - 1 else 12)
            && (m.Some? ==> 1 <= m.value <= 12)
  {
    forall j | 0 <= j < 12
      ensures |MONTHS[j]| == 3 && (Short(s) == MONTHS[j] <==> Begins(s, MONTHS[j]))
    {
      ShortIs(s, MONTHS[j]);
    }
    assert MONTHS[0] == "jan" && MONTHS[1] == "feb" && MONTHS[2] == "mar" && MONTHS[3] == "apr" && MONTHS[4] == "may";
    assert MONTHS[5] == "jun" && MONTHS[6] == "jul" && MONTHS[7] == "aug" && MONTHS[8] == "sep" && MONTHS[9] == "oct";
    assert MONTHS[10] == "nov" && MONTHS[11] == "dec";
    var m := MonthOf(s);
    FoundAt(MONTHS, Short(s), 0, if m.Some? then m.value - 1 else 12);
  }

  lemma NumeralIsNoName(s: string)
    requires Numeral(s)
    ensures DayOf(s) == None && MonthOf(s) == None
  {
    assert IsDigit(s[0]);
  }

  lemma MapNumeral(kind: Kind, s: string, err: bool, to: bool)
    requires Numeral(s)
    ensures var m := Map(kind, s, err, to); m.err == (err || Value(s) >= WORD) && (!m.err ==> m.value == Value(s))
  {
    IntMapNumeral(s, err);
    NumeralIsNoName(s);
    DayFound(s);
  }

  lemma MapName(kind: Kind, s: string, err: bool, to: bool)
    requires IsName(s)
    ensures var m := Map(kind, s, err, to); m.err == (err || !Parses(kind, s))
    ensures Parses(kind, s) ==> Map(kind, s, err, to).value == if to then EndNumber(kind, s) else Number(kind, s)
  {
    assert IsLetter(s[0]);
    IntMapLetter(s, err);
    DayFound(s);
  }

  lemma MapBound(kind: Kind, s: string, err: bool, to: bool)
    requires Bound(s)
    ensures var m := Map(kind, s, err, to); m.err == (err || !Parses(kind, s))
    ensures !Map(kind, s, err, to).err ==> Map(kind, s, err, to).value == if to then EndNumber(kind, s) else Number(kind, s)
  {
    if Numeral(s) {
      MapNumeral(kind, s, err, to);
    } else {
      MapName(kind, s, err, to);
    }
  }

  lemma ParsedFits(kind: Kind, s: string)
    requires Bound(s) && Parses(kind, s)
    ensures Meaningful(kind, s) && Number(kind, s) < WORD && EndNumber(kind, s) < WORD
  {
  }

  lemma RangeReads(kind: Kind, a: string, b: string, step: nat)
    requires Bound(a) && Bound(b) && step < WORD
    ensures if Parses(kind, a) && Parses(kind, b)
            then Number(kind, a) < WORD && EndNumber(kind, b) < WORD
                 && RangeOutcome(kind, a, b, step) == Between(kind, Number(kind, a), EndNumber(kind, b), step)
            else RangeOutcome(kind, a, b, step) == Rejected(OutOfRange)
  {
    MapBound(kind, a, false, false);
    MapBound(kind, b, Map(kind, a, false, false).err, true);
    if Parses(kind, a) && Parses(kind, b) {
      ParsedFits(kind, a);
      ParsedFits(kind, b);
    }
  }

  lemma BoundIsPlain(a: string)
    requires Bound(a)
    ensures !Has(a, '~') && !Has(a, '-') && a != "*"
  {
    BoundLacks(a, '~');
    BoundLacks(a, '-');
    HasIsMember(a, '~');
    HasIsMember(a, '-');
    assert a[0] != '*';
  }

  lemma SpanReads(a: string, b: string)
    requires Bound(a) && Bound(b)
    ensures var text := a + ['-'] + b;
            text != "*" && !Has(text, '~') && Has(text, '-') && Halves(text, '-') == (a, b)
  {
    BoundLacks(a, '~');
    BoundLacks(b, '~');
    BoundLacks(a, '-');
    HasIsMember(a + ['-'] + b, '~');
    HalvesOf(a, '-', b);
    assert |a| > 0;
  }

  /** An element other than `*` is read as a range from its first bound to its last. */
  lemma UnsteppedReads(kind: Kind, e: Element, step: nat, draw: nat)
    requires WellWritten(e) && !e.range.All? && step < WORD
    ensures Unstepped(kind, RangeText(e.range), step, draw) ==
              RangeOutcome(kind, e.range.a, if e.range.One? then e.range.a else e.range.b, step)
  {
    if e.range.One? {
      BoundIsPlain(e.range.a);
    } else {
      SpanReads(e.range.a, e.range.b);
      BoundIsPlain(e.range.b);
    }
  }

  lemma RangeTextLacksSlash(e: Element)
    requires WellWritten(e)
    ensures '/' !in RangeText(e.range)
  {
    match e.range {
      case All =>
      case One(a) => BoundLacks(a, '/');
      case Span(a, b) => BoundLacks(a, '/'); BoundLacks(b, '/');
    }
  }

  lemma PeriodReads(kind: Kind, e: Element, draw: nat)
    requires WellWritten(e)
    ensures Period(kind, Render(e), draw) ==
              if Step(e) < WORD then Unstepped(kind, RangeText(e.range), Step(e), draw) else Rejected(BadStep)
  {
    RangeTextLacksSlash(e);
    if e.step.Some? {
      HalvesOf(RangeText(e.range), '/', e.step.value);
      NumeralLacks(e.step.value, '/');
      HasIsMember(e.step.value, '/');
      IntMapNumeral(e.step.value, false);
    } else {
      HasIsMember(RangeText(e.range), '/');
    }
  }

  // ---------------------------------------------------------------- exactly when it is right

  /** A lone Sunday: from 0 to 7. */
  lemma LoneSundayExactly(kind: Kind, e: Element)
    requires WellWritten(e) && LoneSunday(kind, e) && Parses(kind, e.range.a) && Step(e) < WORD
    ensures CodeEnd(kind, e) == 7 && Denote(kind, e) == {0}
    ensures Between(kind, 0, 7, Step(e)) == Added({0}, false) <==> Step(e) >= 7
  {
    DayFound(e.range.a);
    FirstAlone(kind, 0, Step(e));
    if Step(e) >= 1 {
      SevenDays(Step(e), 8);
    }
  }

  lemma SevenDays(step: nat, end: nat)
    requires 1 <= step < WORD && end == 8
    ensures Collect(Dow, 0, end, step) == {0} <==> step >= 7
  {
    CollectNext(Dow, 0, end, step);
    if step < 7 {
      CollectNext(Dow, step, end, step);
      assert At(Dow, step) == step;
      assert step in Collect(Dow, 0, end, step);
    } else if step == 7 {
      CollectNext(Dow, 7, end, step);
      assert Collect(Dow, 7, end, step) == {0};
    }
  }

  lemma SensibleExactly(kind: Kind, e: Element, draw: nat)
    requires WellWritten(e) && Sensible(kind, e)
    ensures Period(kind, Render(e), draw) == Added(Denote(kind, e), false) <==> Manageable(kind, e)
  {
    PeriodReads(kind, e, draw);
    if Step(e) < WORD {
      if e.range.All? {
        StarExactly(kind, e, draw);
      } else {
        UnsteppedReads(kind, e, Step(e), draw);
        RangeExactly(kind, e);
      }
    }
  }

  lemma StarExactly(kind: Kind, e: Element, draw: nat)
    requires WellWritten(e) && e.range.All? && Step(e) < WORD
    ensures Unstepped(kind, RangeText(e.range), Step(e), draw) == Added(Denote(kind, e), false) <==> Manageable(kind, e)
  {
    StarSelects(kind, Step(e));
  }

  lemma StarSelects(kind: Kind, step: nat)
    requires step < WORD
    ensures StarOutcome(kind, step) == Added(Selected(kind, Lowest(kind), Highest(kind), step), false) <==> 1 <= step < WORD / 2
  {
    if 1 <= step < WORD / 2 {
      var lowest, highest, end := Lowest(kind), Highest(kind), Count(kind);
      ProgressionIsSelected(kind, lowest, highest, step, end);
      CollectExactly(kind, 0, end, step);
      SameSets(StarOutcome(kind, step), Collect(kind, 0, end, step), Progression(kind, 0, end, step),
               Selected(kind, lowest, highest, step), true);
    }
  }

  /** But for a lone Sunday, code and meaning end at the same number. */
  lemma SameEnd(kind: Kind, e: Element)
    requires WellWritten(e) && !e.range.All? && Parses(kind, e.range.a) && !LoneSunday(kind, e)
    ensures CodeEnd(kind, e) == Last(kind, e)
  {
    DayFound(e.range.a);
  }

  lemma OrdinaryExactly(kind: Kind, e: Element)
    requires WellWritten(e) && Sensible(kind, e) && !e.range.All? && Step(e) < WORD && !LoneSunday(kind, e)
    requires Parses(kind, e.range.a) && (e.range.Span? ==> Parses(kind, e.range.b))
    ensures First(kind, e) < WORD && CodeEnd(kind, e) < WORD
    ensures Between(kind, First(kind, e), CodeEnd(kind, e), Step(e)) == Added(Denote(kind, e), false) <==> Manageable(kind, e)
  {
    ParsedFits(kind, e.range.a);
    if e.range.Span? {
      ParsedFits(kind, e.range.b);
    }
    SameEnd(kind, e);
    SomethingSelected(kind, First(kind, e), Last(kind, e), Step(e));
    BetweenExactly(kind, First(kind, e), Last(kind, e), Step(e));
  }

  lemma RangeExactly(kind: Kind, e: Element)
    requires WellWritten(e) && Sensible(kind, e) && !e.range.All? && Step(e) < WORD
    ensures RangeOutcome(kind, e.range.a, if e.range.One? then e.range.a else e.range.b, Step(e)) == Added(Denote(kind, e), false)
            <==> Manageable(kind, e)
  {
    var a, b := e.range.a, if e.range.One? then e.range.a else e.range.b;
    RangeReads(kind, a, b, Step(e));
    if Parses(kind, a) && Parses(kind, b) {
      if LoneSunday(kind, e) {
        LoneSundayExactly(kind, e);
      } else {
        OrdinaryExactly(kind, e);
      }
    }
  }

  lemma SenselessRejected(kind: Kind, e: Element, draw: nat)
    requires WellWritten(e) && !Sensible(kind, e)
    ensures Period(kind, Render(e), draw).Rejected?
  {
    PeriodReads(kind, e, draw);
    if e.range.All? {
      SomethingSelected(kind, Lowest(kind), Highest(kind), Step(e));
    } else if Step(e) < WORD {
      var a, b := e.range.a, if e.range.One? then e.range.a else e.range.b;
      UnsteppedReads(kind, e, Step(e), draw);
      RangeReads(kind, a, b, Step(e));
      if Parses(kind, a) && Parses(kind, b) {
        NothingBetween(kind, e, b);
      }
    }
  }

  lemma NothingBetween(kind: Kind, e: Element, b: string)
    requires WellWritten(e) && !Sensible(kind, e) && !e.range.All? && Step(e) < WORD
    requires b == (if e.range.One? then e.range.a else e.range.b) && Parses(kind, e.range.a) && Parses(kind, b)
    ensures First(kind, e) < WORD && EndNumber(kind, b) < WORD
    ensures Between(kind, First(kind, e), EndNumber(kind, b), Step(e)) == Rejected(OutOfRange)
  {
    ParsedFits(kind, e.range.a);
    ParsedFits(kind, b);
    if LoneSunday(kind, e) {
      LoneSundayExactly(kind, e);
    } else {
      SameEnd(kind, e);
      if Lowest(kind) <= First(kind, e) {
        SomethingSelected(kind, First(kind, e), Last(kind, e), Step(e));
      }
      BetweenRejects(kind, First(kind, e), EndNumber(kind, b), Step(e));
    }
  }

  /** Range refinement, for every element and with no limit on its numbers: what makes no sense is
      rejected; of the rest, the parser adds exactly the values that an element selects just if
      the element is manageable. */
  lemma ElementMeaning(kind: Kind, e: Element, draw: nat)
    requires WellWritten(e)
    ensures if Sensible(kind, e) then Period(kind, Render(e), draw) == Added(Denote(kind, e), false) <==> Manageable(kind, e)
            else Period(kind, Render(e), draw).Rejected?
  {
    if Sensible(kind, e) {
      SensibleExactly(kind, e, draw);
    } else {
      SenselessRejected(kind, e, draw);
    }
  }

  // ---------------------------------------------------------------- what is added otherwise

  /** An element is endless if its step is zero, or too large for the signed index of `*`. */
  predicate Endless(e: Element)
    requires WellWritten(e)
  {
    Step(e) == 0 || (e.range.All? && WORD / 2 <= Step(e) < WORD)
  }

  /** The code adds something: all that makes an element manageable but for where its loop goes. */
  predicate Addable(kind: Kind, e: Element)
    requires WellWritten(e)
  {
    && 1 <= Step(e) < WORD
    && if e.range.All? then Step(e) < WORD / 2
       else Parses(kind, e.range.a) && (e.range.Span? ==> Parses(kind, e.range.b)) && CodeEnd(kind, e) + Shift(kind) < WORD
  }

  function CodeLast(kind: Kind, e: Element): nat
    requires WellWritten(e)
  {
    if e.range.All? then Highest(kind) else CodeEnd(kind, e)
  }

  function Visited(kind: Kind, first: nat, last: nat, step: nat): set<nat>
    requires Lowest(kind) <= first < WORD && 1 <= step < WORD
  {
    Collect(kind, first - Base(kind), Least(last + Shift(kind), Count(kind)), step)
  }

  /** What it adds then. */
  function CodeSet(kind: Kind, e: Element): set<nat>
    requires WellWritten(e) && Addable(kind, e) && Lowest(kind) <= First(kind, e) < WORD
  {
    Visited(kind, First(kind, e), CodeLast(kind, e), Step(e))
  }

  lemma RangeNumbers(kind: Kind, e: Element)
    requires WellWritten(e) && Sensible(kind, e) && !e.range.All?
    requires Parses(kind, e.range.a) && (e.range.Span? ==> Parses(kind, e.range.b))
    ensures Lowest(kind) <= First(kind, e) <= Highest(kind)
    ensures First(kind, e) <= Last(kind, e) <= CodeEnd(kind, e) < WORD
  {
    ParsedFits(kind, e.range.a);
    if e.range.Span? {
      ParsedFits(kind, e.range.b);
    }
    SomethingSelected(kind, First(kind, e), Last(kind, e), Step(e));
    LastIsEarlier(kind, e);
  }

  lemma RangeAdds(kind: Kind, e: Element)
    requires WellWritten(e) && Sensible(kind, e) && !e.range.All? && Addable(kind, e)
    ensures First(kind, e) < WORD && CodeEnd(kind, e) < WORD
    ensures Between(kind, First(kind, e), CodeEnd(kind, e), Step(e)) == Added(CodeSet(kind, e), false)
    ensures Denote(kind, e) <= CodeSet(kind, e)
  {
    var first, last, end, step := First(kind, e), Last(kind, e), CodeEnd(kind, e), Step(e);
    RangeNumbers(kind, e);
    BetweenAdds(kind, first, last, end, step);
    assert CodeSet(kind, e) == Visited(kind, first, end, step);
    assert Denote(kind, e) == Selected(kind, first, last, step);
  }

  lemma RangeFails(kind: Kind, e: Element)
    requires WellWritten(e) && Sensible(kind, e) && !e.range.All? && Step(e) < WORD && !Addable(kind, e)
    requires Parses(kind, e.range.a) && (e.range.Span? ==> Parses(kind, e.range.b))
    ensures First(kind, e) < WORD && CodeEnd(kind, e) < WORD
    ensures var o := Between(kind, First(kind, e), CodeEnd(kind, e), Step(e)); !o.Added? && (o.Rejected? || Step(e) == 0)
  {
    RangeNumbers(kind, e);
    BetweenFails(kind, First(kind, e), CodeEnd(kind, e), Step(e));
  }

  lemma BetweenAdds(kind: Kind, first: nat, last: nat, more: nat, step: nat)
    requires Lowest(kind) <= first <= Highest(kind) && first <= last <= more && more + Shift(kind) < WORD && 1 <= step < WORD
    ensures Between(kind, first, more, step) == Added(Visited(kind, first, more, step), false)
    ensures Selected(kind, first, last, step) <= Visited(kind, first, more, step)
  {
    var end := Least(more + Shift(kind), Count(kind));
    BetweenCollects(kind, first, more, step, end);
    ProgressionIsSelected(kind, first, more, step, end);
    ProgressionCollected(kind, first - Base(kind), end, step);
    SelectedGrows(kind, first, last, more, step);
  }

  lemma LastIsEarlier(kind: Kind, e: Element)
    requires WellWritten(e) && !e.range.All? && Parses(kind, e.range.a)
    ensures Last(kind, e) <= CodeEnd(kind, e)
  {
    DayFound(e.range.a);
  }

  lemma SelectedGrows(kind: Kind, first: nat, last: nat, more: nat, step: nat)
    requires last <= more
    ensures Selected(kind, first, last, step) <= Selected(kind, first, more, step)
  {
    forall x | x in Selected(kind, first, last, step)
      ensures x in Selected(kind, first, more, step)
    {
      var v: nat :| Lowest(kind) <= v <= Highest(kind) && Within(kind, first, last, step, v) && x == Normal(kind, v);
      assert Within(kind, first, more, step, v);
    }
  }

  lemma StarVisits(kind: Kind, step: nat)
    requires 1 <= step < WORD / 2
    ensures StarOutcome(kind, step) == Added(Visited(kind, Lowest(kind), Highest(kind), step), false)
  {
    assert Least(Highest(kind) + Shift(kind), Count(kind)) == Count(kind);
  }

  lemma StarAdds(kind: Kind, e: Element)
    requires WellWritten(e) && e.range.All? && Step(e) < WORD
    ensures var o := StarOutcome(kind, Step(e));
            if Addable(kind, e) then o == Added(CodeSet(kind, e), false) && Denote(kind, e) <= CodeSet(kind, e)
            else !o.Added?
  {
    if Addable(kind, e) {
      var step := Step(e);
      StarVisits(kind, step);
      BetweenAdds(kind, Lowest(kind), Highest(kind), Highest(kind), step);
      StarSets(kind, e);
    }
  }

  lemma StarSets(kind: Kind, e: Element)
    requires WellWritten(e) && e.range.All? && Addable(kind, e)
    ensures CodeSet(kind, e) == Visited(kind, Lowest(kind), Highest(kind), Step(e))
    ensures Denote(kind, e) == Selected(kind, Lowest(kind), Highest(kind), Step(e))
  {
  }

  /** An element that makes sense is added just if it is addable, with at least what it selects;
      otherwise it is rejected or endless. */
  lemma SensibleAdds(kind: Kind, e: Element, draw: nat)
    requires WellWritten(e) && Sensible(kind, e)
    ensures var o := Period(kind, Render(e), draw);
            if Addable(kind, e) then First(kind, e) < WORD && o == Added(CodeSet(kind, e), false) && Denote(kind, e) <= CodeSet(kind, e)
            else !o.Added? && (o.Rejected? || Endless(e))
  {
    PeriodReads(kind, e, draw);
    if Step(e) < WORD {
      if e.range.All? {
        StarAdds(kind, e);
      } else {
        var b := if e.range.One? then e.range.a else e.range.b;
        UnsteppedReads(kind, e, Step(e), draw);
        RangeReads(kind, e.range.a, b, Step(e));
        if Addable(kind, e) {
          RangeAdds(kind, e);
        } else if Parses(kind, e.range.a) && Parses(kind, b) {
          RangeFails(kind, e);
        }
      }
    }
  }

  // ---------------------------------------------------------------- any text at all

  lemma SplitOnce(s: string, c: char)
    ensures if !Has(s, c) then Split(s, c) == [s]
            else Split(s, c)[0] == Halves(s, c).0 && (|Split(s, c)| <= 2 <==> !Has(Halves(s, c).1, c))
  {
    if Has(s, c) {
      var rest := Halves(s, c).1;
      assert Split(s, c) == [Halves(s, c).0] + Split(rest, c);
    }
  }

  /** Whatever the text of an element, nothing with a second slash is accepted, nothing with a second
      `~` before the slash, and nothing else with a second dash. */
  lemma AcceptedForms(kind: Kind, value: string, draw: nat)
    requires Period(kind, value, draw).Added?
    ensures |Split(value, '/')| <= 2
    ensures var range := Split(value, '/')[0];
            |Split(range, '~')| <= 2 && ('~' !in range ==> |Split(range, '-')| <= 2)
  {
    SplitOnce(value, '/');
    var range := Split(value, '/')[0];
    SplitOnce(range, '~');
    SplitOnce(range, '-');
    HasIsMember(range, '~');
    HasIsMember(range, '-');
  }

  // ---------------------------------------------------------------- names

  /** crontab(5) allows names of months, but the parser rejects every element with a name for one
      of its bounds: the lookup leaves the error set that sent it there. */
  lemma MonthNamesRejected(e: Element, draw: nat)
    requires WellWritten(e) && !e.range.All? && (!Numeral(e.range.a) || (e.range.Span? && !Numeral(e.range.b)))
    ensures Period(Month, Render(e), draw).Rejected?
  {
    PeriodReads(Month, e, draw);
    if Step(e) < WORD {
      UnsteppedReads(Month, e, Step(e), draw);
      RangeReads(Month, e.range.a, if e.range.One? then e.range.a else e.range.b, Step(e));
    }
  }

  lemma CollectOne(i: nat)
    requires i < 8
    ensures Collect(Dow, i, i + 1, 1) == {At(Dow, i)}
  {
  }

  lemma {:induction false} CollectWeek(i: nat)
    requires i <= 8
    ensures forall k :: i <= k < 8 ==> At(Dow, k) in Collect(Dow, i, 8, 1)
    ensures forall x :: x in Collect(Dow, i, 8, 1) ==> x < 7
    decreases 8 - i
  {
    if i < 8 {
      CollectWeek(i + 1);
    }
  }

  lemma WeekCollected(end: nat, step: nat)
    requires end == 8 && step == 1
    ensures Collect(Dow, 0, end, step) == {0, 1, 2, 3, 4, 5, 6}
  {
    CollectWeek(0);
    var week := Collect(Dow, 0, end, step);
    forall k | 0 <= k < 7
      ensures k in week
    {
      assert At(Dow, k) == k;
    }
  }

  /** A weekday's name selects that weekday alone, unless it is Sunday: as a range from index 0
      to index 7, a lone `sun` selects the whole week. */
  lemma DowNameMeaning(s: string, d: nat, draw: nat)
    requires IsName(s) && DayOf(s) == Some(d)
    ensures Period(Dow, s, draw) == Added(if d == 0 then {0, 1, 2, 3, 4, 5, 6} else {d}, false)
  {
    var e := Element(One(s), None);
    PeriodReads(Dow, e, draw);
    UnsteppedReads(Dow, e, 1, draw);
    DayFound(s);
    RangeReads(Dow, s, s, 1);
    NamedDay(d, if d == 0 then 7 else d, 1);
  }

  lemma NamedDay(first: nat, last: nat, step: nat)
    requires first < 7 && last == (if first == 0 then 7 else first) && step == 1
    ensures Between(Dow, first, last, step) == Added(if first == 0 then {0, 1, 2, 3, 4, 5, 6} else {first}, false)
  {
    if first == 0 {
      WeekCollected(8, step);
    } else {
      CollectOne(first);
    }
  }

  // ---------------------------------------------------------------- whole fields

  function Renderings(elements: seq<Element>): (texts: seq<string>)
    ensures |texts| == |elements|
    ensures forall i :: 0 <= i < |elements| ==> texts[i] == Render(elements[i])
  {
    seq(|elements|, i requires 0 <= i < |elements| => Render(elements[i]))
  }

  /** A field: a lone `*`, or a list. */
  datatype Field = Star | List(elements: seq<Element>)

  predicate Proper(f: Field) {
    f.List? ==> f.elements != [] && forall i :: 0 <= i < |f.elements| ==> WellWritten(f.elements[i])
  }

  /** The text is this field: any number of commas between elements, before and after them. */
  predicate Writes(text: string, f: Field) {
    if f.Star? then text == "*" else text != "*" && TokensOf(text, ",") == Renderings(f.elements)
  }

  ghost function Denotations(kind: Kind, f: Field): (sets: seq<set<nat>>)
    requires Proper(f) && f.List?
    ensures |sets| == |f.elements|
    ensures forall i :: 0 <= i < |sets| ==> sets[i] == Denote(kind, f.elements[i])
  {
    seq(|f.elements|, i requires 0 <= i < |f.elements| => Denote(kind, f.elements[i]))
  }

  ghost predicate FieldSensible(kind: Kind, f: Field)
    requires Proper(f)
  {
    f.List? ==> forall i :: 0 <= i < |f.elements| ==> Sensible(kind, f.elements[i])
  }

  /** Whether a field selects a value: everything for `*`, the union of its elements for a list. */
  ghost predicate Matches(kind: Kind, f: Field, v: nat)
    requires Proper(f)
  {
    f.Star? || exists i :: 0 <= i < |Denotations(kind, f)| && v in Denotations(kind, f)[i]
  }

  /** What an element adds besides what it selects is selected by the others. */
  ghost predicate Covered(kind: Kind, f: Field, e: Element)
    requires Proper(f) && WellWritten(e)
  {
    && Addable(kind, e) && Lowest(kind) <= First(kind, e) < WORD
    && forall v :: v in CodeSet(kind, e) ==> Matches(kind, f, v)
  }

  /** Every element is manageable, or what it adds does no harm. */
  ghost predicate FieldKept(kind: Kind, f: Field)
    requires Proper(f)
  {
    f.List? ==> forall i :: 0 <= i < |f.elements| ==> Manageable(kind, f.elements[i]) || Covered(kind, f, f.elements[i])
  }

  predicate FieldCalm(f: Field)
    requires Proper(f)
  {
    f.List? ==> forall i :: 0 <= i < |f.elements| ==> !Endless(f.elements[i])
  }

  // ---------------------------------------------------------------- its text

  lemma RenderIsPlain(e: Element)
    requires WellWritten(e)
    ensures Render(e) != [] && ',' !in Render(e)
    ensures e != Element(All, None) ==> Render(e) != "*"
  {
    match e.range {
      case All =>
      case One(a) => BoundLacks(a, ','); BoundLacks(a, '*');
      case Span(a, b) => BoundLacks(a, ','); BoundLacks(b, ','); BoundLacks(a, '*');
    }
    if e.step.Some? {
      NumeralLacks(e.step.value, ',');
    }
  }

  lemma ListIsNoStar(texts: seq<string>)
    requires |texts| > 0 && forall i :: 0 <= i < |texts| ==> texts[i] != []
    requires |texts| == 1 ==> texts[0] != "*"
    ensures Join(texts, ',') != "*"
  {
  }

  /** With single commas, every field but the list of a lone `*` can be written. */
  lemma JoinWrites(f: Field)
    requires Proper(f) && f.List? && f.elements != [Element(All, None)]
    ensures Writes(Join(Renderings(f.elements), ','), f)
  {
    var texts := Renderings(f.elements);
    forall i | 0 <= i < |texts|
      ensures texts[i] != [] && ',' !in texts[i]
    {
      RenderIsPlain(f.elements[i]);
    }
    if |texts| == 1 {
      RenderIsPlain(f.elements[0]);
      assert f.elements[0] != Element(All, None) by {
        assert f.elements == [f.elements[0]];
      }
    }
    ListIsNoStar(texts);
    TokensOfList(texts, ',');
  }

  // ---------------------------------------------------------------- its meaning

  /** What the parser makes of the elements of a field that makes sense. */
  lemma ElementOutcome(kind: Kind, f: Field, draws: nat -> nat, i: nat)
    requires Proper(f) && f.List? && i < |f.elements|
    ensures var o, e := Outcomes(kind, Renderings(f.elements), draws)[i], f.elements[i];
            if Sensible(kind, e) then
              if Addable(kind, e) then First(kind, e) < WORD && o == Added(CodeSet(kind, e), false) && Denote(kind, e) <= CodeSet(kind, e)
              else !o.Added? && (o.Rejected? || Endless(e))
            else o.Rejected?
  {
    var e := f.elements[i];
    if Sensible(kind, e) {
      SensibleAdds(kind, e, draws(i));
    } else {
      SenselessRejected(kind, e, draws(i));
    }
  }

  /** A manageable element is addable, and adds what it selects. */
  lemma ManageableAdds(kind: Kind, e: Element)
    requires WellWritten(e) && Sensible(kind, e) && Manageable(kind, e)
    ensures Addable(kind, e) && First(kind, e) < WORD && CodeSet(kind, e) == Denote(kind, e)
  {
    SensibleExactly(kind, e, 0);
    SensibleAdds(kind, e, 0);
  }

  lemma KeptIsAdded(kind: Kind, f: Field, i: nat)
    requires Proper(f) && f.List? && FieldSensible(kind, f) && FieldKept(kind, f) && i < |f.elements|
    ensures var e := f.elements[i];
            Addable(kind, e) && First(kind, e) < WORD && forall v :: v in CodeSet(kind, e) ==> Matches(kind, f, v)
  {
    var e := f.elements[i];
    assert Sensible(kind, e);
    if Manageable(kind, e) {
      ManageableAdds(kind, e);
      forall v | v in CodeSet(kind, e)
        ensures Matches(kind, f, v)
      {
        assert v in Denotations(kind, f)[i];
      }
    }
  }

  lemma MatchedIsAdded(kind: Kind, f: Field, draws: nat -> nat, v: nat)
    requires Proper(f) && f.List? && FieldSensible(kind, f) && Matches(kind, f, v)
    requires AllAdded(Outcomes(kind, Renderings(f.elements), draws), 0)
    ensures AddedFrom(Outcomes(kind, Renderings(f.elements), draws), 0, v)
  {
    var i :| 0 <= i < |f.elements| && v in Denotations(kind, f)[i];
    var o := Outcomes(kind, Renderings(f.elements), draws)[i];
    assert Sensible(kind, f.elements[i]) && o.Added?;
    ElementOutcome(kind, f, draws, i);
    assert v in o.values;
  }

  /** A field that is kept is added, and adds only what it selects. */
  lemma KeptAdds(kind: Kind, f: Field, draws: nat -> nat)
    requires Proper(f) && f.List? && FieldSensible(kind, f) && FieldKept(kind, f)
    ensures var outcomes := Outcomes(kind, Renderings(f.elements), draws);
            AllAdded(outcomes, 0) && forall v: nat :: AddedFrom(outcomes, 0, v) ==> Matches(kind, f, v)
  {
    var outcomes := Outcomes(kind, Renderings(f.elements), draws);
    forall i | 0 <= i < |outcomes|
      ensures outcomes[i].Added? && forall v :: v in outcomes[i].values ==> Matches(kind, f, v)
    {
      KeptIsAdded(kind, f, i);
      assert Sensible(kind, f.elements[i]);
      ElementOutcome(kind, f, draws, i);
    }
  }

  /** And if it is added and adds only what it selects, it is kept. */
  lemma AddsKept(kind: Kind, f: Field, draws: nat -> nat)
    requires Proper(f) && f.List? && FieldSensible(kind, f)
    requires var outcomes := Outcomes(kind, Renderings(f.elements), draws);
             AllAdded(outcomes, 0) && forall v: nat :: AddedFrom(outcomes, 0, v) ==> Matches(kind, f, v)
    ensures FieldKept(kind, f)
  {
    var outcomes := Outcomes(kind, Renderings(f.elements), draws);
    forall i | 0 <= i < |f.elements|
      ensures Covered(kind, f, f.elements[i])
    {
      assert outcomes[i].Added? && Sensible(kind, f.elements[i]);
      ElementOutcome(kind, f, draws, i);
      forall v | v in CodeSet(kind, f.elements[i])
        ensures Matches(kind, f, v)
      {
        assert v in outcomes[i].values;
        assert AddedFrom(outcomes, 0, v);
      }
    }
  }

  lemma SenselessField(kind: Kind, f: Field, draws: nat -> nat)
    requires Proper(f) && f.List? && !FieldSensible(kind, f)
    ensures !AllAdded(Outcomes(kind, Renderings(f.elements), draws), 0)
  {
    var i :| 0 <= i < |f.elements| && !Sensible(kind, f.elements[i]);
    ElementOutcome(kind, f, draws, i);
  }

  lemma CalmField(kind: Kind, f: Field, draws: nat -> nat)
    requires Proper(f) && f.List? && FieldCalm(f)
    ensures NoneStuck(Outcomes(kind, Renderings(f.elements), draws), 0)
  {
    var outcomes := Outcomes(kind, Renderings(f.elements), draws);
    forall i | 0 <= i < |outcomes|
      ensures outcomes[i].Added? || outcomes[i].Rejected?
    {
      ElementOutcome(kind, f, draws, i);
    }
  }

  /** A whole field, however its commas are put. What makes no sense has no values, and is invalid
      unless something in it is endless. What makes sense never loses a value, and has exactly the
      values that its elements select just if every element is manageable or adds only what others
      select. */
  lemma FieldMeaning(kind: Kind, f: Field, text: string, draws: nat -> nat)
    requires Proper(f) && Writes(text, f)
    ensures var r := CronFields.Field(kind, text, draws);
            && (f.Star? ==> r == Values({ASTERISK}, false))
            && (!FieldSensible(kind, f) ==> !r.Values?)
            && (FieldCalm(f) ==> !r.Stuck?)
            && (f.List? && FieldSensible(kind, f) ==>
                  && (r.Values? ==> forall v: nat :: Matches(kind, f, v) ==> v in r.values)
                  && (r.Values? && (forall v: nat :: v in r.values ==> Matches(kind, f, v)) <==> FieldKept(kind, f)))
  {
    if f.List? {
      var outcomes := Outcomes(kind, Renderings(f.elements), draws);
      MergeIsUnion(outcomes, 0, {}, false);
      if FieldCalm(f) {
        CalmField(kind, f, draws);
      }
      if FieldSensible(kind, f) {
        SensibleField(kind, f, draws, CronFields.Field(kind, text, draws));
      } else {
        SenselessField(kind, f, draws);
      }
    }
  }

  lemma SensibleField(kind: Kind, f: Field, draws: nat -> nat, r: Parsed)
    requires Proper(f) && f.List? && FieldSensible(kind, f)
    requires var outcomes := Outcomes(kind, Renderings(f.elements), draws);
             && (r.Values? <==> AllAdded(outcomes, 0))
             && (r.Values? ==> forall v: nat :: v in r.values <==> AddedFrom(outcomes, 0, v))
    ensures r.Values? ==> forall v: nat :: Matches(kind, f, v) ==> v in r.values
    ensures r.Values? && (forall v: nat :: v in r.values ==> Matches(kind, f, v)) <==> FieldKept(kind, f)
  {
    if r.Values? {
      forall v: nat | Matches(kind, f, v)
        ensures v in r.values
      {
        MatchedIsAdded(kind, f, draws, v);
      }
    }
    if FieldKept(kind, f) {
      KeptAdds(kind, f, draws);
    } else if r.Values? && forall v: nat :: v in r.values ==> Matches(kind, f, v) {
      AddsKept(kind, f, draws);
    }
  }
}

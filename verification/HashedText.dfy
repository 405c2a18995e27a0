/** What is hashed into the name of a persistent job, in terms of its line: which lines share it. */
module HashedText {
  import opened Basics
  import opened Text
  import F = CronFields
  import Y = CronSyntax
  import R = CronRandom
  import opened Schedule
  import opened CronLine
  import M = CronMeaning
  import U = UnitNames

  // ---------------------------------------------------------------- which fields are random

  lemma TokenChars(text: string, n: nat, c: char)
    requires n < |TokensOf(text, ",")| && c in TokensOf(text, ",")[n]
    ensures c in text
  {
    TokensAreRuns(text, ",", 0, n);
  }

  lemma NumberIsPlain(s: string, v: nat)
    requires IsNumber(s, v)
    ensures '~' !in s
  {
    var blanks, sign, digits :| Reads(blanks, sign, digits, v) && s == Signed(blanks, sign, digits);
    Y.NumeralLacks(digits, '~');
  }

  lemma StepIsPlain(rest: string)
    requires '\0' !in rest && !IntMap(rest, false).err
    ensures '~' !in rest
  {
    IntMapExactly(rest, [], IntMap(rest, false).value);
    NumberIsPlain(rest, IntMap(rest, false).value);
  }

  lemma UnsteppedRandom(kind: F.Kind, range: string, step: nat, draw: nat)
    requires step < WORD && F.Unstepped(kind, range, step, draw).Added?
    ensures F.Unstepped(kind, range, step, draw).random <==> '~' in range
  {
    Y.HasIsMember(range, '~');
  }

  lemma HalvesJoin(s: string, c: char)
    requires F.Has(s, c)
    ensures s == F.Halves(s, c).0 + [c] + F.Halves(s, c).1
  {
  }

  /** An element that is accepted is random just if there is a `~` in it. */
  lemma ElementRandom(kind: F.Kind, value: string, draw: nat)
    requires '\0' !in value && F.Period(kind, value, draw).Added?
    ensures F.Period(kind, value, draw).random <==> '~' in value
  {
    if F.Has(value, '/') {
      var (range, rest) := F.Halves(value, '/');
      HalvesJoin(value, '/');
      StepIsPlain(rest);
      UnsteppedRandom(kind, range, IntMap(rest, false).value, draw);
    } else {
      UnsteppedRandom(kind, value, 1, draw);
    }
  }

  lemma TildeInToken(text: string) returns (n: nat)
    requires '~' in text
    ensures n < |TokensOf(text, ",")| && '~' in TokensOf(text, ",")[n]
  {
    var k :| 0 <= k < |text| && text[k] == '~';
    n := M.TokenHolds(text, k);
  }

  /** A field with values is random just if there is a `~` in it. */
  lemma RandomExactly(kind: F.Kind, word: string, draws: nat -> nat)
    requires '\0' !in word && F.Field(kind, word, draws).Values?
    ensures F.Field(kind, word, draws).random <==> '~' in word
  {
    if word != "*" {
      var elements := TokensOf(word, ",");
      var outcomes := F.Outcomes(kind, elements, draws);
      F.MergeIsUnion(outcomes, 0, {}, false);
      forall n | 0 <= n < |elements|
        ensures outcomes[n].random <==> '~' in elements[n]
      {
        assert '\0' !in elements[n] by {
          if '\0' in elements[n] {
            TokenChars(word, n, '\0');
          }
        }
        ElementRandom(kind, elements[n], draws(n));
      }
      if '~' in word {
        var n := TildeInToken(word);
        assert outcomes[n].random;
      } else if n: nat :| n < |elements| && outcomes[n].random {
        TokenChars(word, n, '~');
      }
    }
  }

  // ---------------------------------------------------------------- what is hashed

  /** Words of a line hold no blank, and no NUL here. */
  predicate IsWord(s: string) {
    ' ' !in s && '\0' !in s
  }

  predicate Proper(l: Line) {
    IsWord(l.minute) && IsWord(l.hour) && IsWord(l.days) && IsWord(l.months) && IsWord(l.dows)
  }

  /** A random field as it is written, any other as the list of its values. */
  function Part(word: string, values: set<nat>): string {
    if '~' in word then word else CommaList(values)
  }

  function DowPart(word: string, sp: Spec): string {
    if '~' in word then word else if sp.dow == {ASTERISK} then "" else WeekdayText(sp) + " "
  }

  lemma RawIs(kind: F.Kind, word: string, draws: nat -> nat)
    requires IsWord(word) && F.Field(kind, word, draws).Values?
    ensures Raw(true, word, F.Field(kind, word, draws)) == if '~' in word then Some(word) else None
  {
    RandomExactly(kind, word, draws);
  }

  lemma WordsAreProper(l: Line)
    requires Proper(l)
    ensures IsWord(DaysWord(l)) && IsWord(DowsWord(l))
  {
  }

  lemma RawsAre(l: Line, draws: Draws)
    requires Proper(l) && Compile(l, true, draws).Ready?
    ensures var raws := Compile(l, true, draws).raws;
            && raws.minute == (if '~' in l.minute then Some(l.minute) else None)
            && raws.hour == (if '~' in l.hour then Some(l.hour) else None)
            && raws.dom == (if '~' in DaysWord(l) then Some(DaysWord(l)) else None)
            && raws.dow == (if '~' in DowsWord(l) then Some(DowsWord(l)) else None)
            && raws.month == (if '~' in l.months then Some(l.months) else None)
  {
    WordsAreProper(l);
    M.ReadyIsParsed(l, true, draws);
    RawIs(F.Minute, l.minute, draws.minute);
    RawIs(F.Hour, l.hour, draws.hour);
    RawIs(F.Day, DaysWord(l), draws.dom);
    RawIs(F.Dow, DowsWord(l), draws.dow);
    RawIs(F.Month, l.months, draws.month);
  }

  lemma Parts(l: Line, sp: Spec, raws: Raws)
    requires raws.minute == (if '~' in l.minute then Some(l.minute) else None)
    requires raws.hour == (if '~' in l.hour then Some(l.hour) else None)
    requires raws.dom == (if '~' in DaysWord(l) then Some(DaysWord(l)) else None)
    requires raws.dow == (if '~' in DowsWord(l) then Some(DowsWord(l)) else None)
    requires raws.month == (if '~' in l.months then Some(l.months) else None)
    ensures RawList(sp.minute, raws.minute) == Part(l.minute, sp.minute) && RawList(sp.hour, raws.hour) == Part(l.hour, sp.hour)
    ensures RawList(sp.dom, raws.dom) == Part(DaysWord(l), sp.dom) && RawList(sp.month, raws.month) == Part(l.months, sp.month)
    ensures RawWeekdays(sp, raws.dow) == DowPart(DowsWord(l), sp)
  {
  }

  /** The hashed text of a persistent job: weekdays, month, day, hour and minute, each with a `~` as it
      stands in the line and without one as in the schedule. */
  lemma HashedTextIs(l: Line, draws: Draws)
    requires Proper(l) && Compile(l, true, draws).Ready?
    ensures var c := Compile(l, true, draws); var sp := c.sp;
            RawSchedule(sp, c.raws) ==
              DowPart(DowsWord(l), sp) + "*-" + Part(l.months, sp.month) + (if sp.lastDow || sp.lastDom then "~" else "-")
              + Part(DaysWord(l), sp.dom) + (if sp.lastDow then "/1" else "")
              + " " + Part(l.hour, sp.hour) + ":" + Part(l.minute, sp.minute) + ":00"
  {
    RawsAre(l, draws);
    Parts(l, Compile(l, true, draws).sp, Compile(l, true, draws).raws);
  }

  predicate Fixed(l: Line) {
    '~' !in l.minute && '~' !in l.hour && '~' !in l.days && '~' !in l.months && '~' !in l.dows
  }

  lemma Spread(dows: string, month: string, fromEnd: bool, day: string, lastDow: bool, hour: string, minute: string)
    ensures dows + (DateText(month, fromEnd, day + if lastDow then "/1" else "") + [' '] + TimeText(hour, minute))
            == RawText(dows, month, fromEnd, day, lastDow, hour, minute)
  {
    SpreadDate(dows, month, fromEnd, day, lastDow);
    SpreadTime(dows, DateText(month, fromEnd, day + if lastDow then "/1" else ""), hour, minute);
  }

  lemma SpreadDate(dows: string, month: string, fromEnd: bool, day: string, lastDow: bool)
    ensures dows + DateText(month, fromEnd, day + if lastDow then "/1" else "")
            == dows + "*-" + month + (if fromEnd then "~" else "-") + day + (if lastDow then "/1" else "")
  {
  }

  lemma SpreadTime(dows: string, date: string, hour: string, minute: string)
    ensures dows + (date + [' '] + TimeText(hour, minute)) == dows + date + " " + hour + ":" + minute + ":00"
  {
  }

  lemma ScheduleIs(sp: Spec)
    ensures ScheduleText(sp) ==
              RawText(if sp.dow == {ASTERISK} then "" else WeekdayText(sp) + " ", CommaList(sp.month), sp.lastDow || sp.lastDom,
                      CommaList(sp.dom), sp.lastDow, CommaList(sp.hour), CommaList(sp.minute))
  {
    var dows := if sp.dow == {ASTERISK} then "" else WeekdayText(sp) + " ";
    Spread(dows, CommaList(sp.month), sp.lastDow || sp.lastDom, CommaList(sp.dom), sp.lastDow, CommaList(sp.hour), CommaList(sp.minute));
    ScheduleBegins(sp, dows);
  }

  lemma ScheduleBegins(sp: Spec, dows: string)
    requires dows == if sp.dow == {ASTERISK} then "" else WeekdayText(sp) + " "
    ensures ScheduleText(sp) == dows + DateAndTime(sp)
  {
    assert sp.dow != {ASTERISK} ==> WeekdayText(sp) + [' '] == dows;
  }

  /** With no `~` in the line, the hashed text is the schedule. */
  lemma FixedIsSchedule(l: Line, draws: Draws)
    requires Proper(l) && Fixed(l) && Compile(l, true, draws).Ready?
    ensures RawSchedule(Compile(l, true, draws).sp, Compile(l, true, draws).raws) == ScheduleText(Compile(l, true, draws).sp)
  {
    FixedWords(l);
    RawsAre(l, draws);
    Parts(l, Compile(l, true, draws).sp, Compile(l, true, draws).raws);
    ScheduleIs(Compile(l, true, draws).sp);
  }

  lemma FixedWords(l: Line)
    requires Fixed(l)
    ensures '~' !in DaysWord(l) && '~' !in DowsWord(l)
  {
  }

  // ---------------------------------------------------------------- taking it apart

  lemma FirstCut(a: string, b: string, a': string, b': string, c: char)
    requires a + [c] + b == a' + [c] + b' && c !in a && c !in a'
    ensures a == a' && b == b'
  {
    SplitAt(a, c, b);
    SplitAt(a', c, b');
    assert |a| == |a'|;
  }

  lemma LastCut(a: string, b: string, a': string, b': string, c: char)
    requires a + [c] + b == a' + [c] + b' && c !in b && c !in b'
    ensures a == a' && b == b'
  {
    SplitAt(a, c, b);
    SplitAt(a', c, b');
    assert |a| == |a'|;
  }

  lemma SplitAt(a: string, c: char, b: string)
    ensures var s := a + [c] + b;
            && |s| == |a| + 1 + |b| && s[|a|] == c && s[..|a|] == a && s[|a| + 1..] == b
            && (forall i :: 0 <= i < |a| ==> s[i] == a[i]) && (forall i :: |a| < i < |s| ==> s[i] == b[i - |a| - 1])
  {
  }

  predicate StarDashAt(s: string, i: nat) {
    i + 1 < |s| && s[i] == '*' && s[i + 1] == '-'
  }

  /** Cut at the first `*-`. */
  lemma StarCut(a: string, b: string, a': string, b': string)
    requires a + "*-" + b == a' + "*-" + b' && (forall i :: !StarDashAt(a, i)) && (forall i :: !StarDashAt(a', i))
    ensures a == a' && b == b'
  {
    var s := a + "*-" + b;
    StarDashIn(a, b);
    StarDashIn(a', b');
    if |a| < |a'| {
      NoneSooner(a', b', |a|);
    } else if |a'| < |a| {
      NoneSooner(a, b, |a'|);
    }
  }

  lemma StarDashIn(a: string, b: string)
    ensures var s := a + "*-" + b; StarDashAt(s, |a|) && s[..|a|] == a && s[|a| + 2..] == b
  {
  }

  lemma NoneSooner(a: string, b: string, i: nat)
    requires i < |a| && forall j :: !StarDashAt(a, j)
    ensures !StarDashAt(a + "*-" + b, i)
  {
    var s := a + "*-" + b;
    assert s[i] == a[i];
    assert i + 1 < |a| ==> s[i + 1] == a[i + 1];
    assert i + 1 == |a| ==> s[i + 1] == '*';
    assert !StarDashAt(a, i);
  }

  /** The pieces of the text. */
  datatype Pieces = Pieces(dow: string, month: string, fromEnd: bool, dom: string, lastDow: bool, hour: string, minute: string)

  function Date(p: Pieces): string {
    p.month + [if p.fromEnd then '~' else '-'] + (p.dom + if p.lastDow then "/1" else "")
  }

  function Front(p: Pieces): string {
    p.dow + "*-" + Date(p)
  }

  function Time(p: Pieces): string {
    p.hour + [':'] + (p.minute + ":00")
  }

  function TextOf(p: Pieces): string {
    RawText(p.dow, p.month, p.fromEnd, p.dom, p.lastDow, p.hour, p.minute)
  }

  lemma TextIs(p: Pieces)
    ensures TextOf(p) == Front(p) + [' '] + Time(p)
  {
    FrontIs(p);
    var front := Front(p);
    assert front + " " + p.hour + ":" + p.minute + ":00" == front + [' '] + Time(p);
  }

  lemma FrontIs(p: Pieces)
    ensures Front(p) == p.dow + "*-" + p.month + (if p.fromEnd then "~" else "-") + p.dom + (if p.lastDow then "/1" else "")
  {
  }

  /** Weekdays are a word without `*-`, or a list and a blank. */
  ghost predicate CleanDow(dow: string) {
    if ' ' in dow then ' ' !in dow[..|dow| - 1] && dow[|dow| - 1] == ' ' else forall i :: !StarDashAt(dow, i)
  }

  /** No piece holds what separates it from the next. */
  ghost predicate Clean(p: Pieces) {
    && CleanDow(p.dow) && '-' !in p.month && ':' !in p.hour
    && ' ' !in p.month && ' ' !in p.dom && ' ' !in p.hour && ' ' !in p.minute
    && (p.fromEnd ==> '-' !in p.dom && '~' !in p.dom && '/' !in p.dom)
    && (p.lastDow ==> p.fromEnd)
  }

  lemma TimeCut(p: Pieces, q: Pieces)
    requires Time(p) == Time(q) && ':' !in p.hour && ':' !in q.hour
    ensures p.hour == q.hour && p.minute == q.minute
  {
    FirstCut(p.hour, p.minute + ":00", q.hour, q.minute + ":00", ':');
    assert (p.minute + ":00")[..|p.minute|] == p.minute && (q.minute + ":00")[..|q.minute|] == q.minute;
  }

  lemma DayCut(dom: string, lastDow: bool, dom': string, lastDow': bool)
    requires dom + (if lastDow then "/1" else "") == dom' + (if lastDow' then "/1" else "")
    requires lastDow != lastDow' ==> '/' !in dom && '/' !in dom'
    ensures dom == dom' && lastDow == lastDow'
  {
    var t, t' := dom + (if lastDow then "/1" else ""), dom' + (if lastDow' then "/1" else "");
    assert t[..|dom|] == dom && t'[..|dom'|] == dom';
    assert lastDow ==> t[|dom|] == '/';
    assert lastDow' ==> t'[|dom'|] == '/';
  }

  lemma NoDash(p: Pieces)
    requires Clean(p) && p.fromEnd
    ensures '-' !in Date(p)
  {
  }

  lemma HasDash(p: Pieces)
    requires !p.fromEnd
    ensures '-' in Date(p)
  {
    assert Date(p)[|p.month|] == '-';
  }

  lemma DateCut(p: Pieces, q: Pieces)
    requires Clean(p) && Clean(q) && Date(p) == Date(q)
    ensures p.month == q.month && p.fromEnd == q.fromEnd && p.dom == q.dom && p.lastDow == q.lastDow
  {
    var day, day' := p.dom + (if p.lastDow then "/1" else ""), q.dom + (if q.lastDow then "/1" else "");
    if p.fromEnd && q.fromEnd {
      LastCut(p.month, day, q.month, day', '~');
    } else if !p.fromEnd && !q.fromEnd {
      FirstCut(p.month, day, q.month, day', '-');
    } else if p.fromEnd {
      NoDash(p);
      HasDash(q);
    } else {
      NoDash(q);
      HasDash(p);
    }
    DayCut(p.dom, p.lastDow, q.dom, q.lastDow);
  }

  lemma DateHasNoBlank(p: Pieces)
    requires Clean(p)
    ensures ' ' !in "*-" + Date(p) && ' ' !in Time(p)
  {
  }

  lemma FrontCut(p: Pieces, q: Pieces)
    requires Clean(p) && Clean(q) && Front(p) == Front(q)
    ensures p.dow == q.dow && Date(p) == Date(q)
  {
    DateHasNoBlank(p);
    DateHasNoBlank(q);
    Regroup(p.dow, "*-", Date(p));
    Regroup(q.dow, "*-", Date(q));
    if ' ' in p.dow || ' ' in q.dow {
      BlankIn(p.dow, "*-" + Date(p));
      BlankIn(q.dow, "*-" + Date(q));
      var w, w' := p.dow[..|p.dow| - 1], q.dow[..|q.dow| - 1];
      assert p.dow == w + [' '] && q.dow == w' + [' '];
      FirstCut(w, "*-" + Date(p), w', "*-" + Date(q), ' ');
      assert ("*-" + Date(p))[2..] == Date(p) && ("*-" + Date(q))[2..] == Date(q);
    } else {
      StarCut(p.dow, Date(p), q.dow, Date(q));
    }
  }

  lemma BlankIn(a: string, b: string)
    requires ' ' !in b
    ensures ' ' in a + b <==> ' ' in a
  {
    forall i | 0 <= i < |a|
      ensures (a + b)[i] == a[i]
    {
    }
  }

  /** The text determines its pieces. */
  lemma PiecesTold(p: Pieces, q: Pieces)
    requires Clean(p) && Clean(q) && TextOf(p) == TextOf(q)
    ensures p == q
  {
    TextIs(p);
    TextIs(q);
    DateHasNoBlank(p);
    DateHasNoBlank(q);
    LastCut(Front(p), Time(p), Front(q), Time(q), ' ');
    TimeCut(p, q);
    FrontCut(p, q);
    DateCut(p, q);
  }

  // ---------------------------------------------------------------- pieces and fields

  lemma CommaListTells(s: set<nat>, t: set<nat>)
    requires Plain(s) && Plain(t) && CommaList(s) == CommaList(t)
    ensures s == t
  {
    ReadCommaList(s);
    ReadCommaList(t);
    assert forall v: nat :: In(s, v) <==> In(t, v);
    if s == {ASTERISK} || t == {ASTERISK} {
      assert In(s, ASTERISK + 1) && In(t, ASTERISK + 1);
    } else {
      assert forall v: nat :: v in s <==> In(s, v);
      assert forall v: nat :: v in t <==> In(t, v);
    }
  }

  /** The same random word, or the same values. */
  predicate SameField(word: string, s: set<nat>, other: string, t: set<nat>) {
    ('~' in word <==> '~' in other) && if '~' in word then word == other else s == t
  }

  predicate SameWeek(word: string, sp: Spec, other: string, sq: Spec) {
    && ('~' in word <==> '~' in other)
    && if '~' in word then word == other else sp.dow == sq.dow && Weekdays(sp) == Weekdays(sq)
  }

  lemma PartTells(word: string, s: set<nat>, other: string, t: set<nat>)
    requires Plain(s) && Plain(t)
    ensures Part(word, s) == Part(other, t) <==> SameField(word, s, other, t)
  {
    CommaListIsHarmless(s);
    CommaListIsHarmless(t);
    if '~' !in word && '~' !in other && CommaList(s) == CommaList(t) {
      CommaListTells(s, t);
    }
  }

  lemma SomeText(ds: seq<nat>)
    requires forall i :: 0 <= i < |ds| ==> ds[i] < 7
    ensures Join(DayNames(ds), ',') == [] <==> ds == []
  {
    if ds != [] {
      var w := DOWS_SET;
      assert w[0] == "Sun" && w[1] == "Mon" && w[2] == "Tue" && w[3] == "Wed" && w[4] == "Thu" && w[5] == "Fri" && w[6] == "Sat";
      assert |w[ds[0]]| == 3 && DayNames(ds)[0] == w[ds[0]];
      M.FirstOfJoin(DayNames(ds));
    } else {
      assert DayNames(ds) == [];
    }
  }

  lemma WeekdayTextTells(sp: Spec, sq: Spec)
    requires WeekdayText(sp) == WeekdayText(sq)
    ensures Weekdays(sp) == Weekdays(sq)
  {
    SomeText(Weekdays(sp));
    SomeText(Weekdays(sq));
    if Weekdays(sp) != [] {
      ReadWeekdayList(Weekdays(sp));
      ReadWeekdayList(Weekdays(sq));
    }
  }

  lemma WeekdayTextIsPlain(sp: Spec)
    ensures ' ' !in WeekdayText(sp) && '~' !in WeekdayText(sp)
  {
    var names := DayNames(Weekdays(sp));
    var w := DOWS_SET;
    assert w[0] == "Sun" && w[1] == "Mon" && w[2] == "Tue" && w[3] == "Wed" && w[4] == "Thu" && w[5] == "Fri" && w[6] == "Sat";
    forall i | 0 <= i < |names|
      ensures ' ' !in names[i] && '~' !in names[i]
    {
      assert names[i] == w[Weekdays(sp)[i]];
    }
    JoinLacks(names, ',', ' ');
    JoinLacks(names, ',', '~');
  }

  /** Weekdays as they can be parsed. */
  predicate Weekly(sp: Spec) {
    sp.dow == {ASTERISK} || M.Legal(F.Dow, sp.dow)
  }

  lemma SameDays(sp: Spec, sq: Spec)
    requires Weekly(sp) && Weekly(sq) && sp.dow != {ASTERISK} && sq.dow != {ASTERISK} && Weekdays(sp) == Weekdays(sq)
    ensures sp.dow == sq.dow
  {
    assert forall d: nat :: d in sp.dow <==> d in Weekdays(sp);
    assert forall d: nat :: d in sq.dow <==> d in Weekdays(sq);
  }

  lemma DowPartTells(word: string, sp: Spec, other: string, sq: Spec)
    requires Weekly(sp) && Weekly(sq)
    ensures DowPart(word, sp) == DowPart(other, sq) <==> SameWeek(word, sp, other, sq)
  {
    WeekdayTextIsPlain(sp);
    WeekdayTextIsPlain(sq);
    if '~' !in word && '~' !in other && DowPart(word, sp) == DowPart(other, sq) {
      if sp.dow != {ASTERISK} && sq.dow != {ASTERISK} {
        assert (WeekdayText(sp) + " ")[..|WeekdayText(sp)|] == WeekdayText(sp);
        assert (WeekdayText(sq) + " ")[..|WeekdayText(sq)|] == WeekdayText(sq);
        WeekdayTextTells(sp, sq);
        SameDays(sp, sq);
      } else {
        NoWeekdays(sp);
        NoWeekdays(sq);
      }
    }
  }

  lemma NoWeekdays(sp: Spec)
    requires sp.dow == {ASTERISK}
    ensures Weekdays(sp) == []
  {
    ChosenNone(WeekOrder(sp.sundayIsSeven), ASTERISK);
  }

  // ---------------------------------------------------------------- lines that share it

  /** No random field's word holds what separates it from the next piece. */
  ghost predicate Separable(l: Line) {
    && ('~' in l.months ==> '-' !in l.months)
    && ('~' in l.hour ==> ':' !in l.hour)
    && ('~' in l.dows ==> forall i :: !StarDashAt(l.dows, i))
  }

  function PiecesOf(l: Line, sp: Spec): Pieces {
    Pieces(DowPart(DowsWord(l), sp), Part(l.months, sp.month), sp.lastDow || sp.lastDom, Part(DaysWord(l), sp.dom), sp.lastDow,
           Part(l.hour, sp.hour), Part(l.minute, sp.minute))
  }

  /** What the fields of an accepted line can be. */
  predicate Parsed(l: Line, sp: Spec) {
    && Plain(sp.minute) && Plain(sp.hour) && Plain(sp.dom) && Plain(sp.month) && Weekly(sp)
    && sp.lastDom == LastDom(l) && sp.lastDow == LastDow(l)
  }

  lemma UsableIsPlain(kind: F.Kind, s: set<nat>)
    requires M.Usable(kind, s)
    ensures Plain(s)
  {
  }

  lemma AcceptedIsParsed(l: Line, draws: Draws)
    requires Compile(l, true, draws).Ready?
    ensures Parsed(l, Compile(l, true, draws).sp)
  {
    var sp := Compile(l, true, draws).sp;
    M.AcceptedIsReadable(l, true, draws);
    UsableIsPlain(F.Month, sp.month);
    UsableIsPlain(F.Day, sp.dom);
    UsableIsPlain(F.Hour, sp.hour);
    UsableIsPlain(F.Minute, sp.minute);
    M.AcceptedDow(l, true, draws);
    M.FieldLegal(F.Dow, DowsWord(l), draws.dow);
  }

  lemma PartIsClean(word: string, s: set<nat>)
    requires ' ' !in word
    ensures ' ' !in Part(word, s)
    ensures '~' !in word ==> Harmless(Part(word, s))
  {
    CommaListIsHarmless(s);
  }

  lemma DowIsClean(word: string, sp: Spec)
    requires ' ' !in word && ('~' in word ==> forall i :: !StarDashAt(word, i))
    ensures CleanDow(DowPart(word, sp))
  {
    WeekdayTextIsPlain(sp);
    if '~' !in word && sp.dow != {ASTERISK} {
      var text := WeekdayText(sp) + " ";
      assert text[..|text| - 1] == WeekdayText(sp) && text[|text| - 1] == ' ';
    }
  }

  lemma FixedDay(l: Line)
    requires LastDom(l) || LastDow(l)
    ensures '~' !in DaysWord(l)
  {
  }

  lemma DowsPrefix(l: Line)
    requires Proper(l) && Separable(l)
    ensures '~' in DowsWord(l) ==> forall i :: !StarDashAt(DowsWord(l), i)
  {
    forall i | StarDashAt(DowsWord(l), i)
      ensures StarDashAt(l.dows, i)
    {
    }
  }

  lemma LineIsClean(l: Line, sp: Spec)
    requires Proper(l) && Separable(l) && Parsed(l, sp)
    ensures Clean(PiecesOf(l, sp))
  {
    WordsAreProper(l);
    PartIsClean(l.months, sp.month);
    PartIsClean(l.hour, sp.hour);
    PartIsClean(l.minute, sp.minute);
    PartIsClean(DaysWord(l), sp.dom);
    DowsPrefix(l);
    DowIsClean(DowsWord(l), sp);
    if LastDom(l) || LastDow(l) {
      FixedDay(l);
    }
  }

  lemma HashedPieces(l: Line, draws: Draws)
    requires Proper(l) && Compile(l, true, draws).Ready?
    ensures RawSchedule(Compile(l, true, draws).sp, Compile(l, true, draws).raws) == TextOf(PiecesOf(l, Compile(l, true, draws).sp))
  {
    RawsAre(l, draws);
    Parts(l, Compile(l, true, draws).sp, Compile(l, true, draws).raws);
  }

  /** Two lines of the same form with the same word in every random field and the same values, in the
      same order, in every other. */
  predicate SameFields(l: Line, sp: Spec, k: Line, sq: Spec) {
    && LastDom(l) == LastDom(k) && LastDow(l) == LastDow(k)
    && SameField(l.minute, sp.minute, k.minute, sq.minute) && SameField(l.hour, sp.hour, k.hour, sq.hour)
    && SameField(DaysWord(l), sp.dom, DaysWord(k), sq.dom) && SameField(l.months, sp.month, k.months, sq.month)
    && SameWeek(DowsWord(l), sp, DowsWord(k), sq)
  }

  /** Day 1 from the end is not day 7 from the end and on. */
  lemma SameForm(l: Line, sp: Spec, k: Line, sq: Spec)
    requires Parsed(l, sp) && Parsed(k, sq) && PiecesOf(l, sp) == PiecesOf(k, sq)
    requires M.ReadableDates(sp) && M.ReadableDates(sq)
    ensures LastDow(l) == LastDow(k) && LastDom(l) == LastDom(k)
  {
    assert LastDow(l) == PiecesOf(l, sp).lastDow == LastDow(k);
    if LastDow(l) {
      FixedDay(l);
      FixedDay(k);
      PartTells(DaysWord(l), sp.dom, DaysWord(k), sq.dom);
      assert sp.dom == sq.dom;
      assert {1} != {7} by {
        assert 7 !in {1};
      }
    } else {
      assert LastDom(l) == PiecesOf(l, sp).fromEnd == LastDom(k);
    }
  }

  lemma PiecesTellFields(l: Line, sp: Spec, k: Line, sq: Spec)
    requires Parsed(l, sp) && Parsed(k, sq) && M.ReadableDates(sp) && M.ReadableDates(sq)
    ensures PiecesOf(l, sp) == PiecesOf(k, sq) <==> SameFields(l, sp, k, sq)
  {
    PartTells(l.minute, sp.minute, k.minute, sq.minute);
    PartTells(l.hour, sp.hour, k.hour, sq.hour);
    PartTells(DaysWord(l), sp.dom, DaysWord(k), sq.dom);
    PartTells(l.months, sp.month, k.months, sq.month);
    DowPartTells(DowsWord(l), sp, DowsWord(k), sq);
    if PiecesOf(l, sp) == PiecesOf(k, sq) {
      SameForm(l, sp, k, sq);
    }
  }

  /** Two persistent lines have the same hashed text just if they are of the same form, with the same
      words in all random fields and the same values in all others, as long as no random field
      holds what separates it from the next. */
  lemma SameHashedText(l: Line, k: Line, x: Draws, y: Draws)
    requires Proper(l) && Proper(k) && Separable(l) && Separable(k)
    requires Compile(l, true, x).Ready? && Compile(k, true, y).Ready?
    ensures var c, d := Compile(l, true, x), Compile(k, true, y);
            RawSchedule(c.sp, c.raws) == RawSchedule(d.sp, d.raws) <==> SameFields(l, c.sp, k, d.sp)
  {
    var sp, sq := Compile(l, true, x).sp, Compile(k, true, y).sp;
    HashedPieces(l, x);
    HashedPieces(k, y);
    AcceptedIsParsed(l, x);
    AcceptedIsParsed(k, y);
    M.AcceptedIsReadable(l, true, x);
    M.AcceptedIsReadable(k, true, y);
    LineIsClean(l, sp);
    LineIsClean(k, sq);
    PiecesTellFields(l, sp, k, sq);
    if TextOf(PiecesOf(l, sp)) == TextOf(PiecesOf(k, sq)) {
      PiecesTold(PiecesOf(l, sp), PiecesOf(k, sq));
    }
  }

  /** So they get the same bytes hashed, and for the same jobid and command the same name, just then,
      unless MD5 collides. */
  lemma PersistentNames(l: Line, k: Line, jobid: string, unique: bool, words: seq<string>, x: Draws, y: Draws)
    requires Proper(l) && Proper(k) && Separable(l) && Separable(k)
    requires Compile(l, true, x).Ready? && Compile(k, true, y).Ready?
    requires forall i :: 0 <= i < |words| ==> '\0' !in words[i]
    ensures var r, q := U.RequestFor(l, jobid, true, unique, words, x), U.RequestFor(k, jobid, true, unique, words, y);
            U.Preimage(r.scheduleRaw, r.words) == U.Preimage(q.scheduleRaw, q.words)
            <==> SameFields(l, Compile(l, true, x).sp, k, Compile(k, true, y).sp)
  {
    SameHashedText(l, k, x, y);
    U.ScheduleRawHasNoNul(l, true, x);
    U.ScheduleRawHasNoNul(k, true, y);
    U.PreimageInjective(U.ScheduleRaw(Compile(l, true, x), true), words, U.ScheduleRaw(Compile(k, true, y), true), words);
  }

  // ---------------------------------------------------------------- two jobs of one name

  lemma DigitRange(kind: F.Kind, a: char, b: char, draw: nat)
    requires IsDigit(a) && IsDigit(b) && Y.Lowest(kind) <= a as int - '0' as int <= b as int - '0' as int <= 7
    ensures F.Period(kind, [a, '-', b], draw).Added?
  {
    var e := Y.Element(Y.Span([a], [b]), None);
    M.DigitValue([a]);
    M.DigitValue([b]);
    assert Y.Render(e) == [a, '-', b];
    Y.SomethingSelected(kind, Y.First(kind, e), Y.Last(kind, e), 1);
    Y.SensibleAdds(kind, e, draw);
  }

  lemma DigitAlone(kind: F.Kind, a: char, draw: nat)
    requires IsDigit(a) && Y.Lowest(kind) <= a as int - '0' as int <= 7
    ensures F.Period(kind, [a], draw).Added?
  {
    var e := Y.Element(Y.One([a]), None);
    M.DigitValue([a]);
    M.OneSelects(kind, e);
    Y.ElementMeaning(kind, e, draw);
  }

  lemma DigitDraws(kind: F.Kind, a: char, b: char, draw: nat)
    requires IsDigit(a) && IsDigit(b) && Y.Lowest(kind) <= a as int - '0' as int <= b as int - '0' as int <= 7
    ensures F.Period(kind, [a, '~', b], draw).Added?
  {
    DigitsTaken(kind, a, b);
    R.PeriodDraws(kind, [a], [b], None, draw);
    assert R.TextOf([a], [b], None) == [a, '~', b];
  }

  lemma DigitsTaken(kind: F.Kind, a: char, b: char)
    requires IsDigit(a) && IsDigit(b) && Y.Lowest(kind) <= a as int - '0' as int <= b as int - '0' as int <= 7
    ensures R.Side([a]) && R.Side([b]) && R.Accepted(kind, [a], [b])
  {
    M.DigitValue([a]);
    M.DigitValue([b]);
    R.MapTakes(kind, [a], false, false);
    R.MapTakes(kind, [b], false, true);
    FirstBeforeLast(kind, a as int - '0' as int, b as int - '0' as int);
  }

  lemma FirstBeforeLast(kind: F.Kind, first: nat, last: nat)
    requires first <= last <= 7
    ensures first <= R.LastOf(kind, last)
  {
  }

  lemma TwoElements(kind: F.Kind, a: string, b: string, draws: nat -> nat)
    requires AlwaysAdded(kind, a) && AlwaysAdded(kind, b)
    ensures Accepted(kind, a + [','] + b, draws)
  {
    var word := a + [','] + b;
    TokensOne(b, ',');
    TokensCons(a, ',', b);
    assert TokensOf(word, ",") == [a, b];
    assert word != "*" by {
      assert |word| > 1;
    }
    F.MergeIsUnion(F.Outcomes(kind, [a, b], draws), 0, {}, false);
    M.FieldLegal(kind, word, draws);
    M.LegalIsPlain(kind, F.Field(kind, word, draws).values);
  }

  lemma ZeroField(kind: F.Kind, draws: nat -> nat)
    requires kind == F.Minute || kind == F.Hour
    ensures F.Field(kind, "0", draws) == F.Values({0}, false)
  {
    M.DigitValue("0");
    M.OneField(kind, Y.Element(Y.One("0"), None), draws);
  }

  ghost predicate AlwaysAdded(kind: F.Kind, element: string) {
    element != [] && ',' !in element && forall draw: nat :: F.Period(kind, element, draw).Added?
  }

  lemma Digits(kind: F.Kind, a: char, b: char)
    requires '1' <= a <= b <= '7'
    ensures AlwaysAdded(kind, [a, '~', b]) && AlwaysAdded(kind, [a, '-', b]) && AlwaysAdded(kind, [a])
  {
    forall draw: nat
      ensures F.Period(kind, [a, '~', b], draw).Added? && F.Period(kind, [a, '-', b], draw).Added? && F.Period(kind, [a], draw).Added?
    {
      DigitDraws(kind, a, b, draw);
      DigitRange(kind, a, b, draw);
      DigitAlone(kind, a, draw);
    }
  }

  lemma TwoAccepted(kind: F.Kind, a: string, b: string, word: string, draws: nat -> nat)
    requires AlwaysAdded(kind, a) && AlwaysAdded(kind, b) && word == a + [','] + b
    ensures Accepted(kind, word, draws)
  {
    TwoElements(kind, a, b, draws);
  }

  lemma MonthsAccepted(draws: nat -> nat)
    ensures Accepted(F.Month, "1~2,3-4", draws) && Accepted(F.Month, "1~2,3", draws)
  {
    Digits(F.Month, '1', '2');
    Digits(F.Month, '3', '4');
    TwoAccepted(F.Month, "1~2", "3-4", "1~2,3-4", draws);
    TwoAccepted(F.Month, "1~2", "3", "1~2,3", draws);
  }

  lemma FirstDays(draws: nat -> nat)
    ensures Accepted(F.Day, "5,6~7", draws)
  {
    Digits(F.Day, '5', '5');
    Digits(F.Day, '6', '7');
    TwoAccepted(F.Day, "5", "6~7", "5,6~7", draws);
  }

  lemma SecondDays(draws: nat -> nat)
    ensures Accepted(F.Day, "4-5,6~7", draws)
  {
    Digits(F.Day, '4', '5');
    Digits(F.Day, '6', '7');
    TwoAccepted(F.Day, "4-5", "6~7", "4-5,6~7", draws);
  }

  predicate Accepted(kind: F.Kind, word: string, draws: nat -> nat) {
    var p := F.Field(kind, word, draws);
    p.Values? && p.values != {} && (F.Base(kind) == 1 ==> p.values - {0} != {})
  }

  lemma AllAccepted(l: Line, draws: Draws)
    requires Accepted(F.Minute, l.minute, draws.minute) && Accepted(F.Hour, l.hour, draws.hour)
    requires Accepted(F.Day, l.days, draws.dom) && Accepted(F.Month, l.months, draws.month)
    requires l.days != "L" && l.dows == "*"
    ensures Compile(l, true, draws).Ready?
  {
    assert Effective(l) == l;
  }

  /** Alike but for month and day, which are random in both. */
  predicate AlikeButDates(l: Line, k: Line) {
    && l.(days := k.days, months := k.months) == k && !LastDow(l) && !LastDom(l) && !LastDom(k)
    && '~' in l.days && '~' in k.days && '~' in l.months && '~' in k.months
  }

  lemma SameWordSamePart(kind: F.Kind, word: string, x: nat -> nat, y: nat -> nat)
    requires IsWord(word) && F.Field(kind, word, x).Values? && F.Field(kind, word, y).Values?
    ensures '~' !in word ==> F.Field(kind, word, x).values == F.Field(kind, word, y).values
  {
    FieldAlike(kind, word, x, y);
    RandomExactly(kind, word, x);
  }

  lemma OthersAlike(l: Line, k: Line, x: Draws, y: Draws)
    requires Proper(l) && Proper(k) && AlikeButDates(l, k) && Compile(l, true, x).Ready? && Compile(k, true, y).Ready?
    ensures var p, q := PiecesOf(l, Compile(l, true, x).sp), PiecesOf(k, Compile(k, true, y).sp);
            && p.(month := q.month, dom := q.dom) == q && !p.fromEnd && !p.lastDow
            && p.month == l.months && p.dom == l.days && q.month == k.months && q.dom == k.days
  {
    M.ReadyIsParsed(l, true, x);
    M.ReadyIsParsed(k, true, y);
    SameWordSamePart(F.Minute, l.minute, x.minute, y.minute);
    SameWordSamePart(F.Hour, l.hour, x.hour, y.hour);
    SameWordSamePart(F.Dow, l.dows, x.dow, y.dow);
  }

  lemma DateDecides(p: Pieces, q: Pieces)
    requires p.(month := q.month, dom := q.dom) == q && !p.fromEnd && !p.lastDow
    ensures TextOf(p) == TextOf(q) <==> p.month + "-" + p.dom == q.month + "-" + q.dom
  {
    TextIs(p);
    TextIs(q);
    assert Date(p) == p.month + "-" + p.dom && Date(q) == q.month + "-" + q.dom;
    if TextOf(p) == TextOf(q) {
      Between(p.dow + "*-", Date(p), [' '] + Time(p));
      Between(q.dow + "*-", Date(q), [' '] + Time(q));
      Regroup(Front(p), [' '], Time(p));
      Regroup(Front(q), [' '], Time(q));
    }
  }

  lemma Between(a: string, b: string, c: string)
    ensures |a + b + c| == |a| + |b| + |c| && (a + b + c)[|a|..|a| + |b|] == b
  {
  }

  /** Without that condition a dash in a random month can be taken for the one between month and day:
      lines alike but for random months and days have the same hashed text just if month, dash and
      day are the same when run together. */
  lemma DashIsAmbiguous(l: Line, k: Line, x: Draws, y: Draws)
    requires Proper(l) && Proper(k) && AlikeButDates(l, k) && Compile(l, true, x).Ready? && Compile(k, true, y).Ready?
    ensures var c, d := Compile(l, true, x), Compile(k, true, y);
            RawSchedule(c.sp, c.raws) == RawSchedule(d.sp, d.raws) <==> l.months + "-" + l.days == k.months + "-" + k.days
  {
    HashedPieces(l, x);
    HashedPieces(k, y);
    OthersAlike(l, k, x, y);
    DateDecides(PiecesOf(l, Compile(l, true, x).sp), PiecesOf(k, Compile(k, true, y).sp));
  }

  lemma AtMidnight(days: string, months: string, draws: Draws)
    requires Accepted(F.Day, days, draws.dom) && Accepted(F.Month, months, draws.month) && days != "L"
    ensures Compile(Line("0", "0", days, months, "*"), true, draws).Ready?
  {
    ZeroField(F.Minute, draws.minute);
    ZeroField(F.Hour, draws.hour);
    AllAccepted(Line("0", "0", days, months, "*"), draws);
  }

  lemma LinesAccepted(x: Draws, y: Draws)
    ensures Compile(Line("0", "0", "5,6~7", "1~2,3-4", "*"), true, x).Ready?
    ensures Compile(Line("0", "0", "4-5,6~7", "1~2,3", "*"), true, y).Ready?
  {
    MonthsAccepted(x.month);
    FirstDays(x.dom);
    AtMidnight("5,6~7", "1~2,3-4", x);
    MonthsAccepted(y.month);
    SecondDays(y.dom);
    AtMidnight("4-5,6~7", "1~2,3", y);
  }

  lemma WordsAreRandom()
    ensures '~' in "5,6~7" && '~' in "1~2,3-4" && '~' in "4-5,6~7" && '~' in "1~2,3"
  {
    assert "5,6~7"[3] == '~' && "1~2,3-4"[1] == '~' && "4-5,6~7"[5] == '~' && "1~2,3"[1] == '~';
  }

  lemma LinesAreProper()
    ensures Proper(Line("0", "0", "5,6~7", "1~2,3-4", "*")) && Proper(Line("0", "0", "4-5,6~7", "1~2,3", "*"))
  {
  }

  lemma RunTogether()
    ensures "1~2,3-4" + "-" + "5,6~7" == "1~2,3" + "-" + "4-5,6~7"
  {
  }

  /** So these two lines, which are due in different months and on different days, get the same name,
      whatever is drawn. */
  lemma SharedByDifferentLines(x: Draws, y: Draws)
    ensures var l, k := Line("0", "0", "5,6~7", "1~2,3-4", "*"), Line("0", "0", "4-5,6~7", "1~2,3", "*");
            var c, d := Compile(l, true, x), Compile(k, true, y);
            c.Ready? && d.Ready? && RawSchedule(c.sp, c.raws) == RawSchedule(d.sp, d.raws)
  {
    LinesAccepted(x, y);
    LinesAreProper();
    WordsAreRandom();
    RunTogether();
    DashIsAmbiguous(Line("0", "0", "5,6~7", "1~2,3-4", "*"), Line("0", "0", "4-5,6~7", "1~2,3", "*"), x, y);
  }
}

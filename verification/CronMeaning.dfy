/** What a whole crontab line means, and that the schedule compiled from it means the same. */
module CronMeaning {
  import opened Basics
  import Tokens
  import opened Text
  import F = CronFields
  import Y = CronSyntax
  import C = Calendar
  import opened Schedule
  import opened CronLine

  // ---------------------------------------------------------------- every accepted line

  /** Values that a field of this kind can have. */
  predicate Legal(kind: F.Kind, s: set<nat>) {
    forall v :: v in s ==> Y.Lowest(kind) <= v <= if kind.Dow? then 6 else Y.Highest(kind)
  }

  lemma {:induction false} CollectLegal(kind: F.Kind, i: nat, end: nat, step: nat)
    requires end <= F.Count(kind) && i < WORD && 1 <= step < WORD
    ensures Legal(kind, F.Collect(kind, i, end, step))
    ensures i < end ==> F.At(kind, i) in F.Collect(kind, i, end, step)
    decreases if step < WORD / 2 then (if i < end then end - i else 0) else i
  {
    var next := F.Plus(i, step);
    if i < end && next < end {
      CollectLegal(kind, next, end, step);
    }
  }

  lemma UnsteppedLegal(kind: F.Kind, range: string, step: nat, draw: nat)
    requires step < WORD
    ensures var o := F.Unstepped(kind, range, step, draw); o.Added? ==> o.values != {} && Legal(kind, o.values)
  {
    var o := F.Unstepped(kind, range, step, draw);
    if range == "*" {
      if step != 0 {
        CollectLegal(kind, 0, F.Count(kind), step);
      }
    } else if !F.Has(range, '~') {
      var (start, end) := if F.Has(range, '-') then F.Halves(range, '-') else (range, range);
      RangeLegal(kind, start, end, step);
    }
  }

  lemma RangeLegal(kind: F.Kind, start: string, end: string, step: nat)
    requires step < WORD
    ensures var o := F.RangeOutcome(kind, start, end, step); o.Added? ==> o.values != {} && Legal(kind, o.values)
  {
    var s := F.Map(kind, start, false, false);
    var e := F.Map(kind, end, s.err, true);
    if step != 0 {
      CollectLegal(kind, F.StartIndex(kind, s.value), F.EndIndex(kind, e.value, F.Count(kind)), step);
    }
  }

  lemma PeriodLegal(kind: F.Kind, value: string, draw: nat)
    ensures var o := F.Period(kind, value, draw); o.Added? ==> o.values != {} && Legal(kind, o.values)
  {
    if F.Has(value, '/') {
      var (range, rest) := F.Halves(value, '/');
      UnsteppedLegal(kind, range, IntMap(rest, false).value, draw);
    } else {
      UnsteppedLegal(kind, value, 1, draw);
    }
  }

  lemma {:induction false} MergeLegal(kind: F.Kind, os: seq<F.Outcome>, n: nat, soFar: set<nat>, random: bool)
    requires n <= |os| && forall i :: 0 <= i < |os| ==> os[i].Added? ==> os[i].values != {} && Legal(kind, os[i].values)
    requires Legal(kind, soFar)
    ensures var r := F.Merge(os, n, soFar, random);
            r.Values? ==> Legal(kind, r.values) && soFar <= r.values && (n < |os| ==> r.values != {})
    decreases |os| - n
  {
    if n < |os| && os[n].Added? {
      MergeLegal(kind, os, n + 1, soFar + os[n].values, random || os[n].random);
    }
  }

  /** Any field that is accepted: `*`, or legal values, and none at all just if it is all commas. */
  lemma FieldLegal(kind: F.Kind, value: string, draws: nat -> nat)
    ensures var r := F.Field(kind, value, draws);
            r.Values? ==> if value == "*" then r.values == {ASTERISK}
                          else Legal(kind, r.values) && (r.values == {} <==> TokensOf(value, ",") == [])
  {
    if value != "*" {
      var elements := TokensOf(value, ",");
      var os := F.Outcomes(kind, elements, draws);
      forall i | 0 <= i < |os|
        ensures os[i].Added? ==> os[i].values != {} && Legal(kind, os[i].values)
      {
        PeriodLegal(kind, elements[i], draws(i));
      }
      MergeLegal(kind, os, 0, {}, false);
    }
  }

  predicate AllCommas(s: string) {
    forall i :: 0 <= i < |s| ==> s[i] == ','
  }

  lemma NoTokens(value: string)
    ensures TokensOf(value, ",") == [] <==> AllCommas(value)
  {
    var lo := Tokens.FirstNotOf(value, ",", 0);
    assert forall c :: c in "," <==> c == ',';
  }

  /** A single small number, perhaps with a step, selects itself. */
  lemma OneSelects(kind: F.Kind, e: Y.Element)
    requires Y.WellWritten(e) && e.range.One? && Numeral(e.range.a) && 1 <= Y.Step(e) < WORD / 2
    requires Y.Lowest(kind) <= Value(e.range.a) <= Y.Highest(kind)
    ensures Y.Denote(kind, e) == {Y.Normal(kind, Value(e.range.a))} && Y.Sensible(kind, e) && Y.Manageable(kind, e)
  {
    Y.FirstAlone(kind, Value(e.range.a), Y.Step(e));
  }

  lemma OneWrites(e: Y.Element)
    requires Y.WellWritten(e) && !e.range.All?
    ensures Y.Writes(Y.Render(e), Y.List([e]))
  {
    var f := Y.List([e]);
    assert f.elements[0] == e;
    assert Y.Renderings(f.elements)[0] == Y.Render(e);
    Y.JoinWrites(f);
  }

  lemma OneField(kind: F.Kind, e: Y.Element, draws: nat -> nat)
    requires Y.WellWritten(e) && e.range.One? && Numeral(e.range.a) && 1 <= Y.Step(e) < WORD / 2
    requires Y.Lowest(kind) <= Value(e.range.a) <= Y.Highest(kind)
    ensures F.Field(kind, Y.Render(e), draws) == F.Values({Y.Normal(kind, Value(e.range.a))}, false)
  {
    OneWrites(e);
    OneSelects(kind, e);
    Y.SensibleExactly(kind, e, draws(0));
    var outcomes := F.Outcomes(kind, [Y.Render(e)], draws);
    assert Y.Renderings([e]) == [Y.Render(e)];
    F.MergeIsUnion(outcomes, 0, {}, false);
    assert outcomes[0] == F.Added(Y.Denote(kind, e), false);
  }

  lemma DigitValue(s: string)
    requires |s| == 1 && IsDigit(s[0])
    ensures Numeral(s) && Value(s) == s[0] as int - '0' as int
  {
    assert s[..0] == [];
  }

  lemma DayField(e: Y.Element, v: nat, draws: nat -> nat)
    requires Y.WellWritten(e) && e.range.One? && Numeral(e.range.a) && Value(e.range.a) == v && 1 <= v <= 7 && Y.Step(e) == 1
    ensures F.Field(F.Day, Y.Render(e), draws) == F.Values({v}, false)
  {
    OneField(F.Day, e, draws);
  }

  /** The days put in place of `L` and of `L` after a weekday. */
  lemma FixedDays(draws: nat -> nat)
    ensures F.Field(F.Day, "1", draws) == F.Values({1}, false)
    ensures F.Field(F.Day, "7/1", draws) == F.Values({7}, false)
  {
    DigitValue("1");
    DigitValue("7");
    DayField(Y.Element(Y.One("1"), None), 1, draws);
    DayField(Y.Element(Y.One("7"), Some("1")), 7, draws);
    assert "7" + ['/'] + "1" == "7/1";
  }

  /** The asterisk, or values of the field. */
  predicate Usable(kind: F.Kind, s: set<nat>) {
    s != {} && (s == {ASTERISK} || Legal(kind, s))
  }

  /** A parsed field that may be written out. */
  lemma FieldUsable(kind: F.Kind, word: string, draws: nat -> nat)
    requires F.Field(kind, word, draws).Values?
    ensures var s := F.Field(kind, word, draws).values;
            && (s - {0} != {} ==> Usable(kind, s - {0}))
            && (s != {} ==> Usable(kind, s))
  {
    FieldLegal(kind, word, draws);
  }

  /** All but the weekdays can be read. */
  predicate ReadableDates(sp: Spec) {
    && Usable(F.Month, sp.month) && Usable(F.Day, sp.dom) && Usable(F.Hour, sp.hour) && Usable(F.Minute, sp.minute)
    && (sp.lastDom ==> sp.dom == {1})
    && (sp.lastDow && !sp.lastDom ==> sp.dom == {7})
  }

  lemma AcceptedIsReadable(l: Line, persistent: bool, draws: Draws)
    requires Compile(l, persistent, draws).Ready?
    ensures ReadableDates(Compile(l, persistent, draws).sp)
  {
    FixedDays(draws.dom);
    FieldUsable(F.Month, l.months, draws.month);
    FieldUsable(F.Day, DaysWord(l), draws.dom);
    FieldUsable(F.Hour, l.hour, draws.hour);
    FieldUsable(F.Minute, l.minute, draws.minute);
  }

  lemma SomeWeekday(sp: Spec)
    requires Legal(F.Dow, sp.dow)
    ensures Weekdays(sp) == [] <==> sp.dow == {}
  {
    if d :| d in sp.dow {
      assert d in Weekdays(sp);
    } else if Weekdays(sp) != [] {
      assert Weekdays(sp)[0] in Weekdays(sp);
    }
  }

  lemma AcceptedDow(l: Line, persistent: bool, draws: Draws)
    requires Compile(l, persistent, draws).Ready?
    ensures var r := F.Field(F.Dow, DowsWord(l), draws.dow);
            r.Values? && Compile(l, persistent, draws).sp.dow == r.values
  {
  }

  lemma WeekdaysOfWord(sp: Spec, word: string, draws: nat -> nat)
    requires var r := F.Field(F.Dow, word, draws); r.Values? && r.values == sp.dow
    ensures (sp.dow == {ASTERISK} || Weekdays(sp) != []) <==> !AllCommas(word)
  {
    FieldLegal(F.Dow, word, draws);
    NoTokens(word);
    if word != "*" {
      SomeWeekday(sp);
      assert sp.dow == {ASTERISK} ==> ASTERISK in sp.dow;
    }
  }

  lemma AcceptedWeekdays(l: Line, persistent: bool, draws: Draws)
    requires Compile(l, persistent, draws).Ready?
    ensures var sp := Compile(l, persistent, draws).sp;
            (sp.dow == {ASTERISK} || Weekdays(sp) != []) <==> !AllCommas(DowsWord(l))
  {
    AcceptedDow(l, persistent, draws);
    WeekdaysOfWord(Compile(l, persistent, draws).sp, DowsWord(l), draws.dow);
  }

  lemma TextBegins(sp: Spec)
    requires sp.dow == {ASTERISK} || Weekdays(sp) != []
    ensures TrimLeft(ScheduleText(sp)) == ScheduleText(sp)
  {
    if sp.dow == {ASTERISK} {
      DateBegins(CommaList(sp.month), sp.lastDow || sp.lastDom, DayText(sp), TimeText(CommaList(sp.hour), CommaList(sp.minute)));
    } else {
      var names := DayNames(Weekdays(sp));
      var w := DOWS_SET;
      assert w[0] == "Sun" && w[1] == "Mon" && w[2] == "Tue" && w[3] == "Wed" && w[4] == "Thu" && w[5] == "Fri" && w[6] == "Sat";
      assert names[0] == w[Weekdays(sp)[0]];
      FirstOfJoin(names);
      NoBlank(WeekdayText(sp), [' '] + DateAndTime(sp));
      assert ScheduleText(sp) == WeekdayText(sp) + ([' '] + DateAndTime(sp));
    }
  }

  lemma NoBlank(text: string, rest: string)
    requires text != [] && !IsSpace(text[0])
    ensures TrimLeft(text + rest) == text + rest
  {
  }

  lemma FirstOfJoin(names: seq<string>)
    requires |names| > 0 && names[0] != []
    ensures Join(names, ',') != [] && Join(names, ',')[0] == names[0][0]
  {
  }

  function EveryWeekday(sp: Spec): Spec {
    sp.(dow := {ASTERISK})
  }

  lemma DateBegins(month: string, fromEnd: bool, day: string, time: string)
    ensures var text := DateText(month, fromEnd, day) + [' '] + time; text != [] && text[0] == '*'
  {
  }

  lemma OneBlank(text: string, days: string)
    requires text != [] && text[0] == '*' && days == []
    ensures TrimLeft(days + [' '] + text) == text
  {
    var all := days + [' '] + text;
    assert all[0] == ' ' && all[1] == '*' && all[1..] == text;
    assert SpaceEnd(all, 0) == SpaceEnd(all, 1) == 1;
  }

  /** Without weekdays there is only the blank after them, which is not read. */
  lemma BlankIsDropped(sp: Spec)
    requires sp.dow != {ASTERISK} && Weekdays(sp) == []
    ensures TrimLeft(ScheduleText(sp)) == ScheduleText(EveryWeekday(sp))
  {
    assert DayNames(Weekdays(sp)) == [];
    DateBegins(CommaList(sp.month), sp.lastDow || sp.lastDom, DayText(sp), TimeText(CommaList(sp.hour), CommaList(sp.minute)));
    OneBlank(DateAndTime(sp), WeekdayText(sp));
    assert DateAndTime(sp) == DateAndTime(EveryWeekday(sp));
  }

  lemma SomeValue(kind: F.Kind, s: set<nat>) returns (v: nat)
    requires Usable(kind, s) && !kind.Dow?
    ensures In(s, v) && Y.Lowest(kind) <= v <= Y.Highest(kind)
  {
    if s == {ASTERISK} {
      v := Y.Lowest(kind);
    } else {
      v :| v in s;
    }
  }

  /** Every accepted line with no care for the weekday is due at some time. */
  lemma SomeMoment(sp: Spec) returns (m: C.Moment)
    requires ReadableDates(sp) && sp.dow == {ASTERISK}
    ensures C.Real(m) && Due(sp, m)
  {
    var month := SomeValue(F.Month, sp.month);
    var day := SomeValue(F.Day, sp.dom);
    var hour := SomeValue(F.Hour, sp.hour);
    var minute := SomeValue(F.Minute, sp.minute);
    m := C.Moment(month, if sp.lastDom || sp.lastDow then 31 else day, 31, 0, hour, minute, 0);
  }

  /** What is read of an accepted specification. */
  lemma SettingReadsBack(sp: Spec)
    requires ReadableDates(sp)
    ensures var e, run := C.ReadSetting(ScheduleText(sp)), if sp.dow != {ASTERISK} && Weekdays(sp) == [] then EveryWeekday(sp) else sp;
            e.Some? && forall m :: C.Real(m) ==> (C.Occurs(e.value, m) <==> Due(run, m))
  {
    if sp.dow != {ASTERISK} && Weekdays(sp) == [] {
      BlankIsDropped(sp);
      DatesReadable(EveryWeekday(sp));
      ScheduleReadsBack(EveryWeekday(sp));
    } else {
      TextBegins(sp);
      DatesReadable(sp);
      ScheduleReadsBack(sp);
    }
  }

  lemma DatesReadable(sp: Spec)
    requires ReadableDates(sp) && (sp.dow == {ASTERISK} || Weekdays(sp) != [])
    ensures Readable(sp)
  {
  }

  /** For every line that the generator accepts, whatever its fields: what is read of the emitted
      setting occurs exactly when all five parsed fields say so, just if the weekday field is more
      than commas; if it is not, as if it were `*`. */
  lemma AcceptedReadsBack(l: Line, persistent: bool, draws: Draws)
    requires Compile(l, persistent, draws).Ready?
    ensures var sp := Compile(l, persistent, draws).sp;
            var e := C.ReadSetting(ScheduleText(sp));
            && e.Some?
            && (forall m :: C.Real(m) ==>
                  (C.Occurs(e.value, m) <==> Due(if AllCommas(DowsWord(l)) then EveryWeekday(sp) else sp, m)))
            && ((forall m :: C.Real(m) ==> (C.Occurs(e.value, m) <==> Due(sp, m))) <==> !AllCommas(DowsWord(l)))
  {
    var sp := Compile(l, persistent, draws).sp;
    AcceptedIsReadable(l, persistent, draws);
    AcceptedWeekdays(l, persistent, draws);
    SettingReadsBack(sp);
    if AllCommas(DowsWord(l)) {
      var m := SomeMoment(EveryWeekday(sp));
      NeverDue(sp, m);
    }
  }

  lemma NeverDue(sp: Spec, m: C.Moment)
    requires sp.dow != {ASTERISK} && Weekdays(sp) == [] && C.Real(m)
    ensures !Due(sp, m)
  {
    assert m.weekday in sp.dow ==> m.weekday in Weekdays(sp);
  }

  // ---------------------------------------------------------------- lines as crontab(5) has them

  /** Which days: by day and weekday, the last day of the month, or the last of a weekday. */
  datatype Days =
    | Both(dom: Y.Field, dow: Y.Field)
    | LastDay(dow: Y.Field)
    | LastWeekday(digit: char)

  datatype Cron = Cron(minute: Y.Field, hour: Y.Field, days: Days, month: Y.Field)

  function One(digit: char): Y.Field {
    Y.List([Y.Element(Y.One([digit]), None)])
  }

  function SevenOn(): Y.Element {
    Y.Element(Y.One("7"), Some("1"))
  }

  /** The day field as it is parsed. */
  function DomField(d: Days): Y.Field {
    match d
    case Both(dom, _) => dom
    case LastDay(_) => One('1')
    case LastWeekday(_) => Y.List([SevenOn()])
  }

  function DowField(d: Days): Y.Field {
    match d
    case Both(_, dow) => dow
    case LastDay(dow) => dow
    case LastWeekday(digit) => One(digit)
  }

  predicate ProperCron(c: Cron) {
    && Y.Proper(c.minute) && Y.Proper(c.hour) && Y.Proper(c.month)
    && (c.days.LastWeekday? ==> IsDigit(c.days.digit))
    && Y.Proper(DomField(c.days)) && Y.Proper(DowField(c.days))
  }

  /** The five words say this; after a weekday with `L` the day field is not looked at. */
  predicate Spells(l: Line, c: Cron) {
    && Y.Writes(l.minute, c.minute) && Y.Writes(l.hour, c.hour) && Y.Writes(l.months, c.month)
    && match c.days
       case Both(dom, dow) => Y.Writes(l.days, dom) && Y.Writes(l.dows, dow)
       case LastDay(dow) => l.days == "L" && Y.Writes(l.dows, dow)
       case LastWeekday(digit) => l.days != "L" && l.dows == [digit, 'L']
  }

  ghost predicate CronSensible(c: Cron)
    requires ProperCron(c)
  {
    && Y.FieldSensible(F.Minute, c.minute) && Y.FieldSensible(F.Hour, c.hour) && Y.FieldSensible(F.Month, c.month)
    && Y.FieldSensible(F.Day, DomField(c.days)) && Y.FieldSensible(F.Dow, DowField(c.days))
  }

  ghost predicate CronKept(c: Cron)
    requires ProperCron(c)
  {
    && Y.FieldKept(F.Minute, c.minute) && Y.FieldKept(F.Hour, c.hour) && Y.FieldKept(F.Month, c.month)
    && Y.FieldKept(F.Day, DomField(c.days)) && Y.FieldKept(F.Dow, DowField(c.days))
  }

  predicate CronCalm(c: Cron)
    requires ProperCron(c)
  {
    && Y.FieldCalm(c.minute) && Y.FieldCalm(c.hour) && Y.FieldCalm(c.month)
    && Y.FieldCalm(DomField(c.days)) && Y.FieldCalm(DowField(c.days))
  }

  ghost predicate DayDue(d: Days, m: C.Moment)
    requires Y.Proper(DomField(d)) && Y.Proper(DowField(d))
  {
    match d
    case Both(dom, dow) => Y.Matches(F.Day, dom, m.day) && Y.Matches(F.Dow, dow, m.weekday)
    case LastDay(dow) => m.day == m.monthLength && Y.Matches(F.Dow, dow, m.weekday)
    case LastWeekday(digit) => m.day + 7 > m.monthLength && Y.Matches(F.Dow, One(digit), m.weekday)
  }

  /** When the five fields together are due. */
  ghost predicate CronDue(c: Cron, m: C.Moment)
    requires ProperCron(c)
  {
    && Y.Matches(F.Minute, c.minute, m.minute) && Y.Matches(F.Hour, c.hour, m.hour) && m.second == 0
    && Y.Matches(F.Month, c.month, m.month) && DayDue(c.days, m)
  }

  // ---------------------------------------------------------------- the forms with L

  lemma RenderHasL(e: Y.Element)
    requires Y.WellWritten(e) && 'L' in Y.Render(e)
    ensures |Y.Render(e)| >= 3
  {
    if e.step.Some? {
      Y.NumeralLacks(e.step.value, 'L');
    }
    if !e.range.All? && Numeral(e.range.a) {
      Y.NumeralLacks(e.range.a, 'L');
    }
    if e.range.Span? && Numeral(e.range.b) {
      Y.NumeralLacks(e.range.b, 'L');
    }
  }

  lemma RunHolds(text: string, delim: string, k: nat) returns (n: nat)
    requires k < |text| && text[k] !in delim
    ensures n < |Tokens.Runs(text, delim, 0)| && Tokens.InText(text, Tokens.Runs(text, delim, 0)[n])
    ensures Tokens.Runs(text, delim, 0)[n].lo <= k < Tokens.Runs(text, delim, 0)[n].hi
  {
    var runs := Tokens.Runs(text, delim, 0);
    Tokens.RunsTokenise(text, delim, 0);
    assert Tokens.Covered(runs, k);
    n :| 0 <= n < |runs| && runs[n].lo <= k < runs[n].hi;
    assert Tokens.MaximalRun(text, delim, 0, runs[n]);
  }

  /** Every character that is no comma is in some token, which is no longer than the text. */
  lemma TokenHolds(text: string, k: nat) returns (n: nat)
    requires k < |text| && text[k] !in ","
    ensures n < |TokensOf(text, ",")| && text[k] in TokensOf(text, ",")[n] && |TokensOf(text, ",")[n]| <= |text|
  {
    n := RunHolds(text, ",", k);
    TokensAreRuns(text, ",", 0, n);
    ViewHolds(text, Tokens.Runs(text, ",", 0)[n], k);
  }

  lemma ViewHolds(text: string, v: Tokens.View, k: nat)
    requires Tokens.InText(text, v) && v.lo <= k < v.hi
    ensures text[k] in Tokens.Chars(text, v) && |Tokens.Chars(text, v)| <= |text|
  {
    assert Tokens.Chars(text, v)[k - v.lo] == text[k];
  }

  /** An `L` is part of a name, which is too long for the forms with L. */
  lemma NoFormWithL(text: string, f: Y.Field)
    requires Y.Proper(f) && Y.Writes(text, f)
    ensures text != "L" && !(|text| == 2 && text[1] == 'L')
  {
    if k: nat :| k < |text| && text[k] == 'L' {
      if f.List? {
        var n := TokenHolds(text, k);
        RenderHasL(f.elements[n]);
      }
    }
    var lone := "L";
    assert lone[0] == 'L';
  }

  /** The code takes a line for the form it was meant as. */
  lemma FormsRecognised(l: Line, c: Cron)
    requires ProperCron(c) && Spells(l, c)
    ensures (LastDom(l) <==> c.days.LastDay?) && (LastDow(l) <==> c.days.LastWeekday?)
    ensures Y.Writes(DaysWord(l), DomField(c.days)) && Y.Writes(DowsWord(l), DowField(c.days))
  {
    match c.days {
      case Both(dom, dow) =>
        NoFormWithL(l.days, dom);
        NoFormWithL(l.dows, dow);
      case LastDay(dow) =>
        NoFormWithL(l.dows, dow);
        OneWrites(Y.Element(Y.One("1"), None));
        assert One('1') == Y.List([Y.Element(Y.One("1"), None)]);
      case LastWeekday(digit) =>
        OneWrites(Y.Element(Y.One([digit]), None));
        assert l.dows[..1] == [digit];
        OneWrites(SevenOn());
        assert "7" + ['/'] + "1" == "7/1";
    }
  }

  // ---------------------------------------------------------------- what a field gives

  lemma MatchesLegal(kind: F.Kind, f: Y.Field, v: nat)
    requires Y.Proper(f) && f.List? && Y.Matches(kind, f, v)
    ensures Y.Lowest(kind) <= v <= if kind.Dow? then 6 else Y.Highest(kind)
  {
    var i :| 0 <= i < |f.elements| && v in Y.Denotations(kind, f)[i];
  }

  lemma MatchedValue(kind: F.Kind, f: Y.Field) returns (v: nat)
    requires Y.Proper(f) && Y.FieldSensible(kind, f)
    ensures Y.Matches(kind, f, v) && Y.Lowest(kind) <= v <= if kind.Dow? then 6 else Y.Highest(kind)
  {
    if f.Star? {
      v := Y.Lowest(kind);
    } else {
      assert Y.Sensible(kind, f.elements[0]);
      v :| v in Y.Denotations(kind, f)[0];
      assert Y.Matches(kind, f, v);
      MatchesLegal(kind, f, v);
    }
  }

  /** A field that has values: usable, unchanged by striking zero, with every value it matches. */
  lemma FieldGives(kind: F.Kind, f: Y.Field, text: string, draws: nat -> nat)
    requires Y.Proper(f) && Y.Writes(text, f) && F.Field(kind, text, draws).Values?
    ensures var s := F.Field(kind, text, draws).values;
            && Y.FieldSensible(kind, f) && s != {} && (F.Base(kind) == 1 ==> s - {0} == s)
            && (if f.Star? then s == {ASTERISK} else Legal(kind, s) && s != {ASTERISK})
            && (forall v: nat :: Y.Matches(kind, f, v) ==> In(s, v))
            && ((forall v: nat :: In(s, v) ==> Y.Matches(kind, f, v)) <==> Y.FieldKept(kind, f))
  {
    Y.FieldMeaning(kind, f, text, draws);
    FieldLegal(kind, text, draws);
    if f.List? {
      var some := MatchedValue(kind, f);
      ListGives(kind, f, F.Field(kind, text, draws).values, some);
    }
  }

  lemma LegalIsPlain(kind: F.Kind, s: set<nat>)
    requires Legal(kind, s)
    ensures ASTERISK !in s && (F.Base(kind) == 1 ==> s - {0} == s)
  {
  }

  lemma ListGives(kind: F.Kind, f: Y.Field, s: set<nat>, some: nat)
    requires Y.Proper(f) && f.List? && Legal(kind, s) && some in s
    requires forall v: nat :: Y.Matches(kind, f, v) ==> v in s
    requires (forall v: nat :: v in s ==> Y.Matches(kind, f, v)) <==> Y.FieldKept(kind, f)
    ensures s != {} && s != {ASTERISK} && (F.Base(kind) == 1 ==> s - {0} == s)
    ensures forall v: nat :: Y.Matches(kind, f, v) ==> In(s, v)
    ensures (forall v: nat :: In(s, v) ==> Y.Matches(kind, f, v)) <==> Y.FieldKept(kind, f)
  {
    LegalIsPlain(kind, s);
    assert forall v: nat :: In(s, v) <==> v in s;
  }

  lemma ExtraValue(kind: F.Kind, f: Y.Field, s: set<nat>) returns (v: nat)
    requires Y.Proper(f) && (s == {ASTERISK} || Legal(kind, s))
    requires s == {ASTERISK} ==> f.Star?
    requires !forall v: nat :: In(s, v) ==> Y.Matches(kind, f, v)
    ensures In(s, v) && !Y.Matches(kind, f, v) && Y.Lowest(kind) <= v <= if kind.Dow? then 6 else Y.Highest(kind)
  {
    v :| In(s, v) && !Y.Matches(kind, f, v);
  }

  /** A value for each field: one that it matches, and if the field is not kept, one that it has
      all the same. */
  lemma TellingValue(kind: F.Kind, f: Y.Field, text: string, draws: nat -> nat) returns (v: nat)
    requires Y.Proper(f) && Y.Writes(text, f) && F.Field(kind, text, draws).Values?
    ensures In(F.Field(kind, text, draws).values, v) && Y.Lowest(kind) <= v <= if kind.Dow? then 6 else Y.Highest(kind)
    ensures Y.Matches(kind, f, v) <==> Y.FieldKept(kind, f)
  {
    FieldGives(kind, f, text, draws);
    if Y.FieldKept(kind, f) {
      v := MatchedValue(kind, f);
    } else {
      v := ExtraValue(kind, f, F.Field(kind, text, draws).values);
    }
  }

  // ---------------------------------------------------------------- the theorem

  /** The parsed fields of a line, and whether they are all there. */
  predicate AllParsed(l: Line, draws: Draws) {
    && F.Field(F.Minute, l.minute, draws.minute).Values? && F.Field(F.Hour, l.hour, draws.hour).Values?
    && F.Field(F.Day, DaysWord(l), draws.dom).Values? && F.Field(F.Dow, DowsWord(l), draws.dow).Values?
    && F.Field(F.Month, l.months, draws.month).Values?
  }

  /** A specification has the parsed values. */
  predicate HasValues(l: Line, draws: Draws, sp: Spec) {
    && AllParsed(l, draws)
    && sp.minute == F.Field(F.Minute, l.minute, draws.minute).values && sp.hour == F.Field(F.Hour, l.hour, draws.hour).values
    && sp.dom == F.Field(F.Day, DaysWord(l), draws.dom).values && sp.dow == F.Field(F.Dow, DowsWord(l), draws.dow).values
    && sp.month == F.Field(F.Month, l.months, draws.month).values
  }

  lemma ReadyIsParsed(l: Line, persistent: bool, draws: Draws)
    requires Compile(l, persistent, draws).Ready?
    ensures AllParsed(l, draws)
  {
  }

  lemma GatherMeans(w: Line, lastDom: bool, lastDow: bool, persistent: bool, minute: F.Parsed, hour: F.Parsed,
                    dom: F.Parsed, dow: F.Parsed, month: F.Parsed)
    requires minute.Values? && hour.Values? && dom.Values? && dow.Values? && month.Values?
    requires minute.values != {} && hour.values != {} && dom.values != {} && month.values != {}
    requires dom.values - {0} == dom.values && month.values - {0} == month.values
    ensures var r := Gather(w, lastDom, lastDow, persistent, minute, hour, dom, dow, month);
            r.Ready? && r.sp == Spec(minute.values, hour.values, dom.values, month.values, dow.values,
                                     SundayIsSeven(w.dows), lastDom, lastDow)
  {
  }

  /** A line all of whose fields have values is accepted, with those values. */
  lemma ParsedIsReady(l: Line, c: Cron, persistent: bool, draws: Draws)
    requires ProperCron(c) && Spells(l, c) && AllParsed(l, draws)
    ensures var r := Compile(l, persistent, draws);
            && CronSensible(c) && r.Ready? && HasValues(l, draws, r.sp)
            && r.sp.lastDom == LastDom(l) && r.sp.lastDow == LastDow(l)
  {
    FormsRecognised(l, c);
    FieldGives(F.Minute, c.minute, l.minute, draws.minute);
    FieldGives(F.Hour, c.hour, l.hour, draws.hour);
    FieldGives(F.Month, c.month, l.months, draws.month);
    FieldGives(F.Day, DomField(c.days), DaysWord(l), draws.dom);
    FieldGives(F.Dow, DowField(c.days), DowsWord(l), draws.dow);
    GatherMeans(Effective(l), LastDom(l), LastDow(l), persistent, F.Field(F.Minute, l.minute, draws.minute),
                F.Field(F.Hour, l.hour, draws.hour), F.Field(F.Day, DaysWord(l), draws.dom),
                F.Field(F.Dow, DowsWord(l), draws.dow), F.Field(F.Month, l.months, draws.month));
  }

  /** A specification that stands for the line. */
  lemma SpecMeans(c: Cron, sp: Spec, m: C.Moment)
    requires ProperCron(c) && C.Real(m)
    requires (sp.lastDom <==> c.days.LastDay?) && (sp.lastDow <==> c.days.LastWeekday?)
    requires In(sp.minute, m.minute) <==> Y.Matches(F.Minute, c.minute, m.minute)
    requires In(sp.hour, m.hour) <==> Y.Matches(F.Hour, c.hour, m.hour)
    requires In(sp.month, m.month) <==> Y.Matches(F.Month, c.month, m.month)
    requires In(sp.dom, m.day) <==> Y.Matches(F.Day, DomField(c.days), m.day)
    requires In(sp.dow, m.weekday) <==> Y.Matches(F.Dow, DowField(c.days), m.weekday)
    ensures Due(sp, m) <==> CronDue(c, m)
  {
  }

  lemma TimesMean(l: Line, c: Cron, draws: Draws, sp: Spec, m: C.Moment)
    requires ProperCron(c) && Spells(l, c) && HasValues(l, draws, sp) && CronKept(c)
    ensures In(sp.minute, m.minute) <==> Y.Matches(F.Minute, c.minute, m.minute)
    ensures In(sp.hour, m.hour) <==> Y.Matches(F.Hour, c.hour, m.hour)
    ensures In(sp.month, m.month) <==> Y.Matches(F.Month, c.month, m.month)
  {
    FieldGives(F.Minute, c.minute, l.minute, draws.minute);
    FieldGives(F.Hour, c.hour, l.hour, draws.hour);
    FieldGives(F.Month, c.month, l.months, draws.month);
  }

  lemma DaysMean(l: Line, c: Cron, draws: Draws, sp: Spec, m: C.Moment)
    requires ProperCron(c) && Spells(l, c) && HasValues(l, draws, sp) && CronKept(c)
    ensures In(sp.dom, m.day) <==> Y.Matches(F.Day, DomField(c.days), m.day)
    ensures In(sp.dow, m.weekday) <==> Y.Matches(F.Dow, DowField(c.days), m.weekday)
  {
    FormsRecognised(l, c);
    FieldGives(F.Day, DomField(c.days), DaysWord(l), draws.dom);
    FieldGives(F.Dow, DowField(c.days), DowsWord(l), draws.dow);
  }

  /** Every field has exactly the values it should. */
  lemma KeptMeans(l: Line, c: Cron, draws: Draws, sp: Spec, m: C.Moment)
    requires ProperCron(c) && Spells(l, c) && HasValues(l, draws, sp) && CronKept(c) && C.Real(m)
    requires (sp.lastDom <==> c.days.LastDay?) && (sp.lastDow <==> c.days.LastWeekday?)
    ensures Due(sp, m) <==> CronDue(c, m)
  {
    TimesMean(l, c, draws, sp, m);
    DaysMean(l, c, draws, sp, m);
    SpecMeans(c, sp, m);
  }

  lemma KeptIsParsed(l: Line, c: Cron, draws: Draws)
    requires ProperCron(c) && Spells(l, c) && CronSensible(c) && CronKept(c)
    ensures AllParsed(l, draws)
  {
    FormsRecognised(l, c);
    Y.FieldMeaning(F.Minute, c.minute, l.minute, draws.minute);
    Y.FieldMeaning(F.Hour, c.hour, l.hour, draws.hour);
    Y.FieldMeaning(F.Month, c.month, l.months, draws.month);
    Y.FieldMeaning(F.Day, DomField(c.days), DaysWord(l), draws.dom);
    Y.FieldMeaning(F.Dow, DowField(c.days), DowsWord(l), draws.dow);
  }

  lemma FixedKept(c: Cron)
    requires ProperCron(c) && !c.days.Both?
    ensures Y.FieldKept(F.Day, DomField(c.days))
  {
    var e := if c.days.LastDay? then Y.Element(Y.One("1"), None) else SevenOn();
    DigitValue("1");
    DigitValue("7");
    OneSelects(F.Day, e);
    assert DomField(c.days).elements == [e];
  }

  /** Values of the field that it can have. */
  predicate InRange(kind: F.Kind, v: nat) {
    match kind
    case Minute => v < 60
    case Hour => v < 24
    case Day => 1 <= v <= 31
    case Month => 1 <= v <= 12
    case Dow => v < 7
  }

  lemma TellingIn(kind: F.Kind, f: Y.Field, text: string, draws: nat -> nat, s: set<nat>) returns (v: nat)
    requires Y.Proper(f) && Y.Writes(text, f) && F.Field(kind, text, draws).Values? && s == F.Field(kind, text, draws).values
    ensures In(s, v) && InRange(kind, v) && (Y.Matches(kind, f, v) <==> Y.FieldKept(kind, f))
  {
    v := TellingValue(kind, f, text, draws);
  }

  lemma TellingTimes(l: Line, c: Cron, draws: Draws, sp: Spec) returns (minute: nat, hour: nat, month: nat)
    requires ProperCron(c) && Spells(l, c) && HasValues(l, draws, sp)
    ensures In(sp.minute, minute) && minute < 60 && (Y.Matches(F.Minute, c.minute, minute) <==> Y.FieldKept(F.Minute, c.minute))
    ensures In(sp.hour, hour) && hour < 24 && (Y.Matches(F.Hour, c.hour, hour) <==> Y.FieldKept(F.Hour, c.hour))
    ensures In(sp.month, month) && 1 <= month <= 12 && (Y.Matches(F.Month, c.month, month) <==> Y.FieldKept(F.Month, c.month))
  {
    minute := TellingIn(F.Minute, c.minute, l.minute, draws.minute, sp.minute);
    hour := TellingIn(F.Hour, c.hour, l.hour, draws.hour, sp.hour);
    month := TellingIn(F.Month, c.month, l.months, draws.month, sp.month);
  }

  lemma TellingDay(l: Line, c: Cron, draws: Draws, sp: Spec) returns (day: nat)
    requires ProperCron(c) && Spells(l, c) && HasValues(l, draws, sp)
    ensures In(sp.dom, day) && 1 <= day <= 31 && (Y.Matches(F.Day, DomField(c.days), day) <==> Y.FieldKept(F.Day, DomField(c.days)))
  {
    FormsRecognised(l, c);
    day := TellingIn(F.Day, DomField(c.days), DaysWord(l), draws.dom, sp.dom);
  }

  lemma TellingWeekday(l: Line, c: Cron, draws: Draws, sp: Spec) returns (weekday: nat)
    requires ProperCron(c) && Spells(l, c) && HasValues(l, draws, sp)
    ensures In(sp.dow, weekday) && weekday < 7 && (Y.Matches(F.Dow, DowField(c.days), weekday) <==> Y.FieldKept(F.Dow, DowField(c.days)))
  {
    FormsRecognised(l, c);
    weekday := TellingIn(F.Dow, DowField(c.days), DowsWord(l), draws.dow, sp.dow);
  }

  /** If a field is not kept, there is a time when the schedule is due and the line is not. */
  lemma TellingMoment(l: Line, c: Cron, draws: Draws, sp: Spec) returns (m: C.Moment)
    requires ProperCron(c) && Spells(l, c) && HasValues(l, draws, sp) && !CronKept(c)
    requires (sp.lastDom <==> c.days.LastDay?) && (sp.lastDow <==> c.days.LastWeekday?)
    ensures C.Real(m) && Due(sp, m) && !CronDue(c, m)
  {
    var minute, hour, month := TellingTimes(l, c, draws, sp);
    var day := TellingDay(l, c, draws, sp);
    var weekday := TellingWeekday(l, c, draws, sp);
    m := C.Moment(month, if c.days.Both? then day else 31, 31, weekday, hour, minute, 0);
    if !c.days.Both? {
      FixedKept(c);
    }
    Tells(c, sp, m, day);
  }

  lemma Tells(c: Cron, sp: Spec, m: C.Moment, day: nat)
    requires ProperCron(c) && m.monthLength == 31 && m.second == 0 && m.day == if c.days.Both? then day else 31
    requires (sp.lastDom <==> c.days.LastDay?) && (sp.lastDow <==> c.days.LastWeekday?)
    requires In(sp.minute, m.minute) && In(sp.hour, m.hour) && In(sp.month, m.month) && In(sp.dom, day) && In(sp.dow, m.weekday)
    requires !c.days.Both? ==> Y.FieldKept(F.Day, DomField(c.days))
    requires Y.Matches(F.Minute, c.minute, m.minute) <==> Y.FieldKept(F.Minute, c.minute)
    requires Y.Matches(F.Hour, c.hour, m.hour) <==> Y.FieldKept(F.Hour, c.hour)
    requires Y.Matches(F.Month, c.month, m.month) <==> Y.FieldKept(F.Month, c.month)
    requires Y.Matches(F.Day, DomField(c.days), day) <==> Y.FieldKept(F.Day, DomField(c.days))
    requires Y.Matches(F.Dow, DowField(c.days), m.weekday) <==> Y.FieldKept(F.Dow, DowField(c.days))
    ensures Due(sp, m) && (CronDue(c, m) <==> CronKept(c))
  {
  }

  lemma TextIsNotCommas(text: string, f: Y.Field)
    requires Y.Proper(f) && Y.Writes(text, f)
    ensures !AllCommas(text)
  {
    if f.List? {
      NoTokens(text);
    } else {
      assert text[0] == '*';
    }
  }

  /** What is read of the setting occurs exactly when the line is due. */
  ghost predicate Means(r: Compiled, c: Cron)
    requires ProperCron(c)
  {
    && r.Ready?
    && var e := C.ReadSetting(ScheduleText(r.sp));
       e.Some? && forall m :: C.Real(m) ==> (C.Occurs(e.value, m) <==> CronDue(c, m))
  }

  lemma ReadyMeans(l: Line, c: Cron, persistent: bool, draws: Draws)
    requires ProperCron(c) && Spells(l, c) && Compile(l, persistent, draws).Ready?
    ensures CronSensible(c) && (Means(Compile(l, persistent, draws), c) <==> CronKept(c))
  {
    ReadyIsParsed(l, persistent, draws);
    ParsedIsReady(l, c, persistent, draws);
    FormsRecognised(l, c);
    TextIsNotCommas(DowsWord(l), DowField(c.days));
    AcceptedReadsBack(l, persistent, draws);
    if CronKept(c) {
      forall m | C.Real(m)
        ensures Due(Compile(l, persistent, draws).sp, m) <==> CronDue(c, m)
      {
        KeptMeans(l, c, draws, Compile(l, persistent, draws).sp, m);
      }
    } else {
      var m := TellingMoment(l, c, draws, Compile(l, persistent, draws).sp);
    }
  }

  lemma CalmEnds(l: Line, c: Cron, persistent: bool, draws: Draws)
    requires ProperCron(c) && Spells(l, c) && CronCalm(c)
    ensures !Compile(l, persistent, draws).Endless?
  {
    FormsRecognised(l, c);
    Y.FieldMeaning(F.Minute, c.minute, l.minute, draws.minute);
    Y.FieldMeaning(F.Hour, c.hour, l.hour, draws.hour);
    Y.FieldMeaning(F.Month, c.month, l.months, draws.month);
    Y.FieldMeaning(F.Day, DomField(c.days), DaysWord(l), draws.dom);
    Y.FieldMeaning(F.Dow, DowField(c.days), DowsWord(l), draws.dow);
  }

  /** Schedule compilation: for every line of numbers, names, ranges, steps and lists, or with one
      of the L forms, the emitted setting reads back as an event that occurs exactly when the five
      fields together are due, just if all fields make sense and are kept. A line that makes no
      sense is never accepted, and is found invalid unless something in it is endless. */
  lemma CompilationPreservesMeaning(l: Line, c: Cron, persistent: bool, draws: Draws)
    requires ProperCron(c) && Spells(l, c)
    ensures var r := Compile(l, persistent, draws);
            && (Means(r, c) <==> CronSensible(c) && CronKept(c))
            && (!CronSensible(c) ==> !r.Ready? && (CronCalm(c) ==> r == BadLine))
  {
    var r := Compile(l, persistent, draws);
    if r.Ready? {
      ReadyMeans(l, c, persistent, draws);
    } else if CronSensible(c) && CronKept(c) {
      KeptIsParsed(l, c, draws);
      ParsedIsReady(l, c, persistent, draws);
    }
    if CronCalm(c) {
      CalmEnds(l, c, persistent, draws);
    }
  }

  // ---------------------------------------------------------------- the two day fields

  /** The rule of crontab(5): restricted both ways, a job runs on days that either field matches. */
  ghost predicate EitherDay(dom: Y.Field, dow: Y.Field, m: C.Moment)
    requires Y.Proper(dom) && Y.Proper(dow)
  {
    var byDay, byWeekday := Y.Matches(F.Day, dom, m.day), Y.Matches(F.Dow, dow, m.weekday);
    if dom.Star? || dow.Star? then byDay && byWeekday else byDay || byWeekday
  }

  ghost predicate WholeMonth(dom: Y.Field)
    requires Y.Proper(dom)
  {
    forall day: nat :: 1 <= day <= 31 ==> Y.Matches(F.Day, dom, day)
  }

  ghost predicate WholeWeek(dow: Y.Field)
    requires Y.Proper(dow)
  {
    forall weekday: nat :: weekday < 7 ==> Y.Matches(F.Dow, dow, weekday)
  }

  function OnDate(day: nat, weekday: nat): C.Moment {
    C.Moment(1, day, 31, weekday, 0, 0, 0)
  }

  /** The schedule takes the days that both fields match. That is the documented rule just if
      one of the fields is `*`, or neither leaves out any day. */
  lemma EitherDayRule(dom: Y.Field, dow: Y.Field)
    requires Y.Proper(dom) && Y.Proper(dow) && Y.FieldSensible(F.Day, dom) && Y.FieldSensible(F.Dow, dow)
    ensures (forall m :: C.Real(m) ==> (DayDue(Both(dom, dow), m) <==> EitherDay(dom, dow, m)))
            <==> dom.Star? || dow.Star? || (WholeMonth(dom) && WholeWeek(dow))
  {
    if dom.List? && dow.List? && forall m :: C.Real(m) ==> (DayDue(Both(dom, dow), m) <==> EitherDay(dom, dow, m)) {
      var someDay := MatchedValue(F.Day, dom);
      var someWeekday := MatchedValue(F.Dow, dow);
      forall day: nat | 1 <= day <= 31
        ensures Y.Matches(F.Day, dom, day)
      {
        assert C.Real(OnDate(day, someWeekday));
      }
      forall weekday: nat | weekday < 7
        ensures Y.Matches(F.Dow, dow, weekday)
      {
        assert C.Real(OnDate(someDay, weekday));
      }
    }
  }

  // ---------------------------------------------------------------- last weekday of the month

  /** The weekday of a day in a month that begins on the weekday `first`. */
  function WeekdayOf(first: nat, day: nat): (w: nat)
    requires day >= 1
    ensures w < 7
  {
    (first + day - 1) % 7
  }

  /** The weekday that a digit stands for; 0 and 7 are Sunday. */
  function DigitDay(digit: char): (d: nat)
    requires '0' <= digit <= '7'
    ensures d < 7
  {
    if digit == '7' then 0 else digit as int - '0' as int
  }

  lemma DigitMatches(digit: char, v: nat)
    requires '0' <= digit <= '7'
    ensures Y.Matches(F.Dow, One(digit), v) <==> v == DigitDay(digit)
  {
    var e := Y.Element(Y.One([digit]), None);
    assert [digit][..0] == [];
    assert Value([digit]) == digit as int - '0' as int;
    assert Y.Step(e) == 1;
    OneSelects(F.Dow, e);
    assert Y.Denotations(F.Dow, One(digit))[0] == Y.Denote(F.Dow, e);
  }

  lemma DayBefore(first: nat, day: nat)
    requires day >= 1
    ensures WeekdayOf(first, day) == if WeekdayOf(first, day + 1) == 0 then 6 else WeekdayOf(first, day + 1) - 1
  {
  }

  /** The weekday some days before, of which there are fewer than seven. */
  function Earlier(w: nat, k: nat): int {
    if k <= w then w - k else w - k + 7
  }

  lemma {:induction false} DaysBefore(first: nat, day: nat, k: nat)
    requires k < 7 && k < day
    ensures WeekdayOf(first, day - k) == Earlier(WeekdayOf(first, day), k)
  {
    if k > 0 {
      DaysBefore(first, day, k - 1);
      DayBefore(first, day - k);
    }
  }

  /** Of the last seven days of a month exactly one has a given weekday. */
  lemma LastSuchDay(first: nat, length: nat, target: nat) returns (last: nat)
    requires length >= 7 && target < 7
    ensures 1 <= last <= length < last + 7 && WeekdayOf(first, last) == target
    ensures forall day :: 1 <= day <= length < day + 7 && WeekdayOf(first, day) == target ==> day == last
  {
    var w := WeekdayOf(first, length);
    var back := if target <= w then w - target else w - target + 7;
    last := length - back;
    DaysBefore(first, length, back);
    forall day | 1 <= day <= length < day + 7 && WeekdayOf(first, day) == target
      ensures day == last
    {
      DaysBefore(first, length, length - day);
    }
  }

  /** In every month, whatever its length and first weekday, a weekday with `L` is due on exactly
      one day, and that is the last day of the month with this weekday. */
  lemma LastWeekdayIsUnique(digit: char, first: nat, length: nat) returns (last: nat)
    requires '0' <= digit <= '7' && 28 <= length <= 31
    ensures 1 <= last <= length && WeekdayOf(first, last) == DigitDay(digit)
    ensures forall day :: last < day <= length ==> WeekdayOf(first, day) != DigitDay(digit)
    ensures forall m :: C.Real(m) && m.monthLength == length && m.weekday == WeekdayOf(first, m.day) ==>
              (DayDue(LastWeekday(digit), m) <==> m.day == last)
  {
    last := LastSuchDay(first, length, DigitDay(digit));
    forall m | C.Real(m) && m.monthLength == length && m.weekday == WeekdayOf(first, m.day)
      ensures DayDue(LastWeekday(digit), m) <==> m.day == last
    {
      DigitMatches(digit, m.weekday);
    }
  }

  /** The last day of the month and the last of a weekday together are not accepted. */
  lemma NotBothLast(l: Line, persistent: bool, draws: Draws)
    requires l.days == "L" && |l.dows| == 2 && IsDigit(l.dows[0]) && l.dows[1] == 'L'
    ensures !Compile(l, persistent, draws).Ready?
  {
    DigitAndL(l.dows, draws.dow(0));
    TokensOne(l.dows, ',');
    var outcomes := F.Outcomes(F.Dow, [l.dows], draws.dow);
    assert outcomes[0] == F.Period(F.Dow, l.dows, draws.dow(0));
    assert l.dows != "*";
    F.MergeIsUnion(outcomes, 0, {}, false);
    assert !F.Field(F.Dow, DowsWord(l), draws.dow).Values?;
  }

  lemma DigitAndL(s: string, draw: nat)
    requires |s| == 2 && IsDigit(s[0]) && s[1] == 'L'
    ensures F.Period(F.Dow, s, draw).Rejected?
  {
    Y.HasIsMember(s, '/');
    Y.HasIsMember(s, '~');
    Y.HasIsMember(s, '-');
    Y.DayFound(s);
    NoNumber(s, false);
    assert s != "*";
  }

  lemma NoNumber(s: string, err: bool)
    requires |s| == 2 && IsDigit(s[0]) && s[1] == 'L'
    ensures IntMap(s, err).err
  {
    assert s[..2] == s;
    FindAt(s, '\0', 2);
    assert DigitsEnd(s, 1) == 1 && DigitsEnd(s, 0) == 1;
  }

  // ---------------------------------------------------------------- names of weekdays

  lemma DayNamed(s: string, d: nat)
    requires d < 7
    requires var names := ["sun", "mon", "tue", "wed", "thu", "fri", "sat"]; Y.Begins(s, names[d])
    ensures Y.DayOf(s) == Some(d)
  {
  }

  /** A field that is one weekday's name. */
  lemma NameField(s: string, d: nat, draws: nat -> nat)
    requires Y.IsName(s) && Y.DayOf(s) == Some(d)
    ensures F.Field(F.Dow, s, draws) == F.Values(if d == 0 then {0, 1, 2, 3, 4, 5, 6} else {d}, false)
  {
    Y.BoundLacks(s, ',');
    TokensOne(s, ',');
    Y.DowNameMeaning(s, d, draws(0));
    var outcomes := F.Outcomes(F.Dow, [s], draws);
    assert outcomes[0] == F.Period(F.Dow, s, draws(0));
    F.MergeIsUnion(outcomes, 0, {}, false);
    var week := if d == 0 then {0, 1, 2, 3, 4, 5, 6} else {d};
    assert forall v: nat :: F.AddedFrom(outcomes, 0, v) <==> v in week;
  }

  lemma NamedSpec(l: Line, d: nat, persistent: bool, draws: Draws)
    requires Y.IsName(l.dows) && Y.DayOf(l.dows) == Some(d) && Compile(l, persistent, draws).Ready?
    ensures var r, q := Compile(l, persistent, draws), Compile(l.(dows := "*"), persistent, draws);
            q.Ready? && q.sp == r.sp.(dow := {ASTERISK}, sundayIsSeven := q.sp.sundayIsSeven)
            && r.sp.dow == if d == 0 then {0, 1, 2, 3, 4, 5, 6} else {d}
  {
    NameField(l.dows, d, draws.dow);
    var k := l.(dows := "*");
    assert F.Field(F.Dow, "*", draws.dow) == F.Values({ASTERISK}, false);
    assert Effective(k) == Effective(l).(dows := "*");
  }

  lemma OneName(d: nat)
    requires d < 7
    ensures Join(DayNames([d]), ',') == DOWS_SET[d]
  {
    assert DayNames([d]) == [DOWS_SET[d]];
  }

  lemma OneWeekday(sp: Spec, d: nat)
    requires sp.dow == {d} && d < 7
    ensures WeekdayText(sp) == DOWS_SET[d]
  {
    var ds := Weekdays(sp);
    assert d in ds && forall i :: 0 <= i < |ds| ==> ds[i] in ds;
    if |ds| > 1 {
      WeekAscends(sp, 0, 1);
    }
    assert ds == [d];
    OneName(d);
  }

  /** An event occurs just when another does and it is a certain weekday. */
  ghost predicate OnlyOn(e: C.Event, every: C.Event, d: nat) {
    forall m :: C.Real(m) ==> (C.Occurs(e, m) <==> C.Occurs(every, m) && m.weekday == d)
  }

  ghost predicate Alike(e: C.Event, every: C.Event) {
    forall m :: C.Real(m) ==> (C.Occurs(e, m) <==> C.Occurs(every, m))
  }

  lemma NamedOccurs(r: Spec, q: Spec, d: nat, e: C.Event, every: C.Event)
    requires d < 7 && q == r.(dow := {ASTERISK}, sundayIsSeven := q.sundayIsSeven)
    requires r.dow == if d == 0 then {0, 1, 2, 3, 4, 5, 6} else {d}
    requires forall m :: C.Real(m) ==> (C.Occurs(e, m) <==> Due(r, m))
    requires forall m :: C.Real(m) ==> (C.Occurs(every, m) <==> Due(q, m))
    ensures if d == 0 then Alike(e, every) else OnlyOn(e, every, d)
  {
  }

  lemma NamedText(r: Spec, q: Spec, d: nat)
    requires 0 < d < 7 && q == r.(dow := {ASTERISK}, sundayIsSeven := q.sundayIsSeven) && r.dow == {d}
    ensures ScheduleText(r) == ["Sun", "Mon", "Tue", "Wed", "Thu", "Fri", "Sat"][d] + [' '] + ScheduleText(q)
  {
    OneWeekday(r, d);
    assert DateAndTime(r) == DateAndTime(q);
    assert ASTERISK !in r.dow;
  }

  /** What is read of an accepted line whose weekdays are more than commas. */
  lemma AcceptedOccurs(l: Line, persistent: bool, draws: Draws) returns (e: C.Event)
    requires Compile(l, persistent, draws).Ready? && !AllCommas(DowsWord(l))
    ensures C.ReadSetting(ScheduleText(Compile(l, persistent, draws).sp)) == Some(e)
    ensures forall m :: C.Real(m) ==> (C.Occurs(e, m) <==> Due(Compile(l, persistent, draws).sp, m))
  {
    AcceptedReadsBack(l, persistent, draws);
    e := C.ReadSetting(ScheduleText(Compile(l, persistent, draws).sp)).value;
  }

  lemma NotCommas(l: Line)
    requires Y.IsName(l.dows)
    ensures !AllCommas(DowsWord(l)) && !AllCommas(DowsWord(l.(dows := "*")))
  {
    NameIsNotCommas(l.dows);
    assert "*"[0] == '*';
  }

  lemma NamedEvents(l: Line, d: nat, persistent: bool, draws: Draws, r: Spec, q: Spec) returns (e: C.Event, every: C.Event)
    requires Y.IsName(l.dows) && Y.DayOf(l.dows) == Some(d) && d < 7
    requires Compile(l, persistent, draws).Ready? && r == Compile(l, persistent, draws).sp
    requires Compile(l.(dows := "*"), persistent, draws).Ready? && q == Compile(l.(dows := "*"), persistent, draws).sp
    ensures C.ReadSetting(ScheduleText(r)) == Some(e) && C.ReadSetting(ScheduleText(q)) == Some(every)
    ensures if d == 0 then Alike(e, every) else OnlyOn(e, every, d)
  {
    NotCommas(l);
    NamedSpec(l, d, persistent, draws);
    e := AcceptedOccurs(l, persistent, draws);
    every := AcceptedOccurs(l.(dows := "*"), persistent, draws);
    NamedOccurs(r, q, d, e, every);
  }

  /** A weekday by its name, in any case, from the line to the setting: what is read occurs exactly
      at the times of the same line with `*` that fall on that day, and the setting begins with its
      name; a lone Sunday leaves out no day. */
  lemma WeekdayNameKept(l: Line, d: nat, persistent: bool, draws: Draws) returns (r: Spec, q: Spec, e: C.Event, every: C.Event)
    requires d < 7 && Y.IsName(l.dows) && Compile(l, persistent, draws).Ready?
    requires var names := ["sun", "mon", "tue", "wed", "thu", "fri", "sat"]; Y.Begins(l.dows, names[d])
    ensures r == Compile(l, persistent, draws).sp
    ensures Compile(l.(dows := "*"), persistent, draws).Ready? && q == Compile(l.(dows := "*"), persistent, draws).sp
    ensures C.ReadSetting(ScheduleText(r)) == Some(e) && C.ReadSetting(ScheduleText(q)) == Some(every)
    ensures if d == 0 then Alike(e, every) else OnlyOn(e, every, d)
    ensures d != 0 ==> ScheduleText(r) == ["Sun", "Mon", "Tue", "Wed", "Thu", "Fri", "Sat"][d] + [' '] + ScheduleText(q)
  {
    DayNamed(l.dows, d);
    NamedSpec(l, d, persistent, draws);
    r, q := Compile(l, persistent, draws).sp, Compile(l.(dows := "*"), persistent, draws).sp;
    e, every := NamedEvents(l, d, persistent, draws, r, q);
    if d != 0 {
      NamedText(r, q, d);
    }
  }

  lemma NameIsNotCommas(s: string)
    requires Y.IsName(s)
    ensures !AllCommas(s)
  {
    assert Y.IsLetter(s[0]);
  }

  /** A weekday field that ends with 7 or with the name of Sunday. */
  predicate EndsOnSunday(dows: string) {
    dows != [] && (dows[|dows| - 1] == '7' || (|dows| >= 3 && Y.Begins(dows[|dows| - 3..], "sun")))
  }

  /** The weekdays of a setting are in order, with Sunday at the end just if it is last in the line. */
  lemma WeekIsOrdered(l: Line, persistent: bool, draws: Draws, i: nat, j: nat)
    requires Compile(l, persistent, draws).Ready? && i < j < |Weekdays(Compile(l, persistent, draws).sp)|
    ensures var ds := Weekdays(Compile(l, persistent, draws).sp);
            if EndsOnSunday(DowsWord(l)) then ds[j] == 0 || 0 < ds[i] < ds[j] else ds[i] < ds[j]
  {
    var sp := Compile(l, persistent, draws).sp;
    WeekAscends(sp, i, j);
    if |DowsWord(l)| >= 3 {
      Y.ShortIs(DowsWord(l)[|DowsWord(l)| - 3..], "sun");
    }
    assert sp.sundayIsSeven == EndsOnSunday(DowsWord(l));
    assert Weekdays(sp)[i] < 7 && Weekdays(sp)[j] < 7;
  }
}

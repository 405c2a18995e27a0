/** A whole crontab line's time specification, from its five words to the schedule and to the
    text that is hashed into the unit's name. */
module CronLine {
  import opened Basics
  import opened Text
  import F = CronFields
  import opened Schedule

  /** The five words, in the order of the line. */
  datatype Line = Line(minute: string, hour: string, days: string, months: string, dows: string)

  /** What the random engine gives for the elements of each field. */
  datatype Draws = Draws(minute: nat -> nat, hour: nat -> nat, dom: nat -> nat, dow: nat -> nat, month: nat -> nat)

  /** Fields copied into the hashed text because they draw at random. */
  datatype Raws = Raws(minute: Option<string>, hour: Option<string>, dom: Option<string>,
                       dow: Option<string>, month: Option<string>)

  datatype Compiled = Ready(sp: Spec, raws: Raws) | BadLine | Endless

  predicate LastDom(l: Line) {
    l.days == "L"
  }

  predicate LastDow(l: Line) {
    |l.dows| == 2 && l.dows[1] == 'L'
  }

  function DaysWord(l: Line): string {
    if LastDom(l) then "1" else if LastDow(l) then "7/1" else l.days
  }

  function DowsWord(l: Line): string {
    if !LastDom(l) && LastDow(l) then l.dows[..1] else l.dows
  }

  /** The weekdays end with a 7 or with some spelling of "sun". */
  predicate SundayIsSeven(dows: string) {
    dows != [] && (dows[|dows| - 1] == '7' || (|dows| >= 3 && F.Short(dows[|dows| - 3..]) == "sun"))
  }

  function Raw(persistent: bool, word: string, p: F.Parsed): Option<string> {
    if persistent && p.Values? && p.random then Some(word) else None
  }

  /** The words as they are parsed, the last-day forms replaced. */
  function Effective(l: Line): Line {
    l.(days := DaysWord(l), dows := DowsWord(l))
  }

  /** The end of parse_crontab_timespec, and the test for empty fields. */
  function Gather(w: Line, lastDom: bool, lastDow: bool, persistent: bool,
                  minute: F.Parsed, hour: F.Parsed, dom: F.Parsed, dow: F.Parsed, month: F.Parsed): Compiled {
    if minute.Stuck? || hour.Stuck? || dom.Stuck? || dow.Stuck? || month.Stuck? then Endless
    else if minute.Invalid? || hour.Invalid? || dom.Invalid? || dow.Invalid? || month.Invalid? then BadLine
    else if month.values - {0} == {} || dom.values - {0} == {} || hour.values == {} || minute.values == {} then BadLine
    else Ready(Spec(minute.values, hour.values, dom.values - {0}, month.values - {0}, dow.values,
                    SundayIsSeven(w.dows), lastDom, lastDow),
               Raws(Raw(persistent, w.minute, minute), Raw(persistent, w.hour, hour), Raw(persistent, w.days, dom),
                    Raw(persistent, w.dows, dow), Raw(persistent, w.months, month)))
  }

  function CompileWords(w: Line, lastDom: bool, lastDow: bool, persistent: bool, draws: Draws): Compiled {
    Gather(w, lastDom, lastDow, persistent,
           F.Field(F.Minute, w.minute, draws.minute), F.Field(F.Hour, w.hour, draws.hour),
           F.Field(F.Day, w.days, draws.dom), F.Field(F.Dow, w.dows, draws.dow),
           F.Field(F.Month, w.months, draws.month))
  }

  /** parse_crontab_timespec. */
  function Compile(l: Line, persistent: bool, draws: Draws): Compiled {
    CompileWords(Effective(l), LastDom(l), LastDow(l), persistent, draws)
  }

  // ---------------------------------------------------------------- the hashed text

  function RawList(s: set<nat>, raw: Option<string>): string {
    if raw.Some? then raw.value else CommaList(s)
  }

  function RawWeekdays(sp: Spec, raw: Option<string>): string {
    if raw.Some? then raw.value else if sp.dow == {ASTERISK} then [] else WeekdayText(sp) + " "
  }

  function RawText(dow: string, month: string, fromEnd: bool, dom: string, lastDow: bool, hour: string, minute: string): string {
    dow + "*-" + month + (if fromEnd then "~" else "-") + dom + (if lastDow then "/1" else "")
    + " " + hour + ":" + minute + ":00"
  }

  /** schedule_raw of a persistent job: random fields as written, the others as compiled. */
  function RawSchedule(sp: Spec, raws: Raws): string {
    RawText(RawWeekdays(sp, raws.dow), RawList(sp.month, raws.month), sp.lastDow || sp.lastDom,
            RawList(sp.dom, raws.dom), sp.lastDow, RawList(sp.hour, raws.hour), RawList(sp.minute, raws.minute))
  }

  /** A value the field can really have; zero is struck from days and months. */
  predicate Present(kind: F.Kind, s: set<nat>) {
    exists v :: v in s && v >= F.Base(kind)
  }

  /** Two outcomes, or two parses, that differ at most in what was drawn. */
  predicate AlikeOutcomes(kind: F.Kind, a: F.Outcome, b: F.Outcome) {
    if a.Added? && b.Added?
    then a.random == b.random && if a.random then Present(kind, a.values) && Present(kind, b.values) else a == b
    else a == b
  }

  predicate Alike(kind: F.Kind, p: F.Parsed, q: F.Parsed) {
    if p.Values? && q.Values?
    then p.random == q.random && if p.random then Present(kind, p.values) && Present(kind, q.values) else p == q
    else p == q
  }

  lemma LotAlike(kind: F.Kind, iStart: nat, iEnd: nat, x: nat, y: nat)
    requires iEnd < F.Count(kind)
    ensures AlikeOutcomes(kind, F.Lot(kind, iStart, iEnd, x), F.Lot(kind, iStart, iEnd, y))
  {
    if iStart <= iEnd {
      assert F.At(kind, F.Drawn(iStart, iEnd, x)) in F.Lot(kind, iStart, iEnd, x).values;
      assert F.At(kind, F.Drawn(iStart, iEnd, y)) in F.Lot(kind, iStart, iEnd, y).values;
    }
  }

  lemma RandomAlike(kind: F.Kind, start: string, end: string, x: nat, y: nat)
    ensures AlikeOutcomes(kind, F.RandomOutcome(kind, start, end, x), F.RandomOutcome(kind, start, end, y))
  {
    var max := F.Count(kind) - 1;
    var s := F.Map(kind, start, false, false).value;
    var e := F.Map(kind, end, start != [] && F.Map(kind, start, false, false).err, true).value;
    LotAlike(kind, if start == [] then F.Base(kind) else F.StartIndex(kind, s), if end == [] then max else F.EndIndex(kind, e, max), x, y);
  }

  lemma UnsteppedAlike(kind: F.Kind, range: string, step: nat, x: nat, y: nat)
    requires step < WORD
    ensures AlikeOutcomes(kind, F.Unstepped(kind, range, step, x), F.Unstepped(kind, range, step, y))
  {
    if range != "*" && F.Has(range, '~') {
      RandomAlike(kind, F.Halves(range, '~').0, F.Halves(range, '~').1, x, y);
    } else {
      assert F.Unstepped(kind, range, step, x) == F.Unstepped(kind, range, step, y);
    }
  }

  lemma PeriodAlike(kind: F.Kind, value: string, x: nat, y: nat)
    ensures AlikeOutcomes(kind, F.Period(kind, value, x), F.Period(kind, value, y))
  {
    if F.Has(value, '/') {
      UnsteppedAlike(kind, F.Halves(value, '/').0, IntMap(F.Halves(value, '/').1, false).value, x, y);
    } else {
      UnsteppedAlike(kind, value, 1, x, y);
    }
  }

  lemma {:induction false} MergeAlike(kind: F.Kind, a: seq<F.Outcome>, b: seq<F.Outcome>, n: nat,
                                      s: set<nat>, t: set<nat>, random: bool)
    requires n <= |a| == |b| && forall i :: 0 <= i < |a| ==> AlikeOutcomes(kind, a[i], b[i])
    requires if random then Present(kind, s) && Present(kind, t) else s == t
    ensures Alike(kind, F.Merge(a, n, s, random), F.Merge(b, n, t, random))
    decreases |a| - n
  {
    if n < |a| && a[n].Added? {
      assert AlikeOutcomes(kind, a[n], b[n]);
      var s', t' := s + a[n].values, t + b[n].values;
      assert Present(kind, s) || Present(kind, a[n].values) ==> Present(kind, s');
      assert Present(kind, t) || Present(kind, b[n].values) ==> Present(kind, t');
      MergeAlike(kind, a, b, n + 1, s', t', random || a[n].random);
    } else if n < |a| {
      assert AlikeOutcomes(kind, a[n], b[n]);
    }
  }

  lemma FieldAlike(kind: F.Kind, value: string, x: nat -> nat, y: nat -> nat)
    ensures Alike(kind, F.Field(kind, value, x), F.Field(kind, value, y))
  {
    if value != "*" {
      var elements := TokensOf(value, ",");
      var a, b := F.Outcomes(kind, elements, x), F.Outcomes(kind, elements, y);
      forall i | 0 <= i < |a|
        ensures AlikeOutcomes(kind, a[i], b[i])
      {
        PeriodAlike(kind, elements[i], x(i), y(i));
      }
      MergeAlike(kind, a, b, 0, {}, {}, false);
    }
  }

  /** A present value survives the striking of zero. */
  lemma AlikeEmpty(kind: F.Kind, p: F.Parsed, q: F.Parsed)
    requires Alike(kind, p, q) && p.Values?
    ensures q.Values? && (p.values == {} <==> q.values == {})
    ensures F.Base(kind) == 1 ==> (p.values - {0} == {} <==> q.values - {0} == {})
  {
    if p.random {
      var u :| u in p.values && u >= F.Base(kind);
      var v :| v in q.values && v >= F.Base(kind);
      assert F.Base(kind) == 1 ==> u in p.values - {0} && v in q.values - {0};
    }
  }

  lemma RawListAlike(kind: F.Kind, word: string, p: F.Parsed, q: F.Parsed, struck: set<nat>)
    requires Alike(kind, p, q) && p.Values?
    ensures q.Values?
    ensures RawList(p.values - struck, Raw(true, word, p)) == RawList(q.values - struck, Raw(true, word, q))
  {
  }

  lemma GatherReady(w: Line, lastDom: bool, lastDow: bool, a: seq<F.Parsed>, b: seq<F.Parsed>)
    requires |a| == |b| == 5
    requires Alike(F.Minute, a[0], b[0]) && Alike(F.Hour, a[1], b[1]) && Alike(F.Day, a[2], b[2])
    requires Alike(F.Dow, a[3], b[3]) && Alike(F.Month, a[4], b[4])
    requires var r := Gather(w, lastDom, lastDow, true, a[0], a[1], a[2], a[3], a[4]);
             var q := Gather(w, lastDom, lastDow, true, b[0], b[1], b[2], b[3], b[4]); r.Ready? && q.Ready?
    ensures var r := Gather(w, lastDom, lastDow, true, a[0], a[1], a[2], a[3], a[4]);
            var q := Gather(w, lastDom, lastDow, true, b[0], b[1], b[2], b[3], b[4]);
            RawSchedule(r.sp, r.raws) == RawSchedule(q.sp, q.raws)
  {
    RawListAlike(F.Minute, w.minute, a[0], b[0], {});
    RawListAlike(F.Hour, w.hour, a[1], b[1], {});
    RawListAlike(F.Day, w.days, a[2], b[2], {0});
    RawListAlike(F.Month, w.months, a[4], b[4], {0});
    assert a[0].values - {} == a[0].values && b[0].values - {} == b[0].values;
    assert a[1].values - {} == a[1].values && b[1].values - {} == b[1].values;
    var r := Gather(w, lastDom, lastDow, true, a[0], a[1], a[2], a[3], a[4]);
    var q := Gather(w, lastDom, lastDow, true, b[0], b[1], b[2], b[3], b[4]);
    assert RawWeekdays(r.sp, r.raws.dow) == RawWeekdays(q.sp, q.raws.dow);
  }

  lemma GatherAlike(w: Line, lastDom: bool, lastDow: bool, a: seq<F.Parsed>, b: seq<F.Parsed>)
    requires |a| == |b| == 5
    requires Alike(F.Minute, a[0], b[0]) && Alike(F.Hour, a[1], b[1]) && Alike(F.Day, a[2], b[2])
    requires Alike(F.Dow, a[3], b[3]) && Alike(F.Month, a[4], b[4])
    ensures var r, q := Gather(w, lastDom, lastDow, true, a[0], a[1], a[2], a[3], a[4]), Gather(w, lastDom, lastDow, true, b[0], b[1], b[2], b[3], b[4]);
            if r.Ready? then q.Ready? && RawSchedule(r.sp, r.raws) == RawSchedule(q.sp, q.raws) else q == r
  {
    if a[0].Values? && a[1].Values? && a[2].Values? && a[4].Values? {
      AlikeEmpty(F.Minute, a[0], b[0]);
      AlikeEmpty(F.Hour, a[1], b[1]);
      AlikeEmpty(F.Day, a[2], b[2]);
      AlikeEmpty(F.Month, a[4], b[4]);
    }
    var r := Gather(w, lastDom, lastDow, true, a[0], a[1], a[2], a[3], a[4]);
    var q := Gather(w, lastDom, lastDow, true, b[0], b[1], b[2], b[3], b[4]);
    if r.Ready? && q.Ready? {
      GatherReady(w, lastDom, lastDow, a, b);
    }
  }

  lemma WordsAlike(w: Line, lastDom: bool, lastDow: bool, x: Draws, y: Draws)
    ensures var r, q := CompileWords(w, lastDom, lastDow, true, x), CompileWords(w, lastDom, lastDow, true, y);
            if r.Ready? then q.Ready? && RawSchedule(r.sp, r.raws) == RawSchedule(q.sp, q.raws) else q == r
  {
    FieldAlike(F.Minute, w.minute, x.minute, y.minute);
    FieldAlike(F.Hour, w.hour, x.hour, y.hour);
    FieldAlike(F.Day, w.days, x.dom, y.dom);
    FieldAlike(F.Dow, w.dows, x.dow, y.dow);
    FieldAlike(F.Month, w.months, x.month, y.month);
    GatherAlike(w, lastDom, lastDow,
      [F.Field(F.Minute, w.minute, x.minute), F.Field(F.Hour, w.hour, x.hour), F.Field(F.Day, w.days, x.dom),
       F.Field(F.Dow, w.dows, x.dow), F.Field(F.Month, w.months, x.month)],
      [F.Field(F.Minute, w.minute, y.minute), F.Field(F.Hour, w.hour, y.hour), F.Field(F.Day, w.days, y.dom),
       F.Field(F.Dow, w.dows, y.dow), F.Field(F.Month, w.months, y.month)]);
  }

  /** Name stability: for a persistent job, two runs of the generator that draw differently
      agree on whether the line is valid and on the text that is hashed into its name. */
  lemma NameIsStable(l: Line, x: Draws, y: Draws)
    ensures var r, q := Compile(l, true, x), Compile(l, true, y);
            if r.Ready? then q.Ready? && RawSchedule(r.sp, r.raws) == RawSchedule(q.sp, q.raws) else q == r
  {
    WordsAlike(Effective(l), LastDom(l), LastDow(l), x, y);
  }
}

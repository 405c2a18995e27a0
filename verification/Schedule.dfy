/** parse_crontab_timespec and generate_schedule_from_timespec of
    src/bin/systemd-crontab-generator.cpp: five fields become an OnCalendar= text. */
module Schedule {
  import opened Basics
  import opened Text
  import F = CronFields
  import Y = CronSyntax
  import C = Calendar

  const ASTERISK := F.ASTERISK

  /** The parsed time specification. */
  datatype Spec = Spec(minute: set<nat>, hour: set<nat>, dom: set<nat>, month: set<nat>, dow: set<nat>,
                       sundayIsSeven: bool, lastDom: bool, lastDow: bool)

  /** The names that are written; the code's table has "Sun" once more at its end. */
  const DOWS_SET := ["Sun", "Mon", "Tue", "Wed", "Thu", "Fri", "Sat"]

  // ---------------------------------------------------------------- the text

  /** Every std::uint8_t, in the order in which a std::set iterates. */
  function Bytes(): (bs: seq<nat>)
    ensures |bs| == 256 && forall v :: 0 <= v < 256 ==> bs[v] == v
  {
    seq(256, i requires 0 <= i < 256 => i)
  }

  /** The values of a sequence that are in a set, in the sequence's order. */
  function Chosen(from: seq<nat>, s: set<nat>): (vs: seq<nat>)
    ensures forall v :: v in vs <==> v in from && v in s
  {
    if from == [] then [] else (if from[0] in s then [from[0]] else []) + Chosen(from[1..], s)
  }

  function Ascending(s: set<nat>): seq<nat> {
    Chosen(Bytes(), s)
  }

  lemma AscendingHas(s: set<nat>, v: nat)
    ensures v in Ascending(s) <==> v in s && v <= ASTERISK
  {
    if v <= ASTERISK {
      assert Bytes()[v] == v;
    }
  }

  lemma {:induction false} ChosenInOrder(from: seq<nat>, s: set<nat>, order: nat -> nat, i: nat, j: nat)
    requires forall k, l :: 0 <= k < l < |from| ==> order(from[k]) < order(from[l])
    requires i < j < |Chosen(from, s)|
    ensures order(Chosen(from, s)[i]) < order(Chosen(from, s)[j])
  {
    if from[0] !in s {
      ChosenInOrder(from[1..], s, order, i, j);
    } else if i > 0 {
      ChosenInOrder(from[1..], s, order, i - 1, j - 1);
    } else {
      var rest := Chosen(from[1..], s);
      assert Chosen(from, s)[j] == rest[j - 1] && rest[j - 1] in rest;
    }
  }

  /** A list is written in ascending order, each value once. */
  lemma ListAscends(s: set<nat>, i: nat, j: nat)
    requires i < j < |Ascending(s)|
    ensures Ascending(s)[i] < Ascending(s)[j]
  {
    ChosenInOrder(Bytes(), s, v => v, i, j);
  }

  function Name(v: nat): string {
    if v == ASTERISK then "*" else Decimal(v)
  }

  function Names(vs: seq<nat>): (names: seq<string>)
    ensures |names| == |vs| && forall i :: 0 <= i < |vs| ==> names[i] == Name(vs[i])
  {
    seq(|vs|, i requires 0 <= i < |vs| => Name(vs[i]))
  }

  /** timespec_comma. */
  function CommaList(s: set<nat>): string {
    Join(Names(Ascending(s)), ',')
  }

  /** DOWS_SET without its last "Sun", or without its first. */
  function WeekOrder(sundayIsSeven: bool): seq<nat> {
    if sundayIsSeven then [1, 2, 3, 4, 5, 6, 0] else [0, 1, 2, 3, 4, 5, 6]
  }

  function DayNames(ds: seq<nat>): (names: seq<string>)
    requires forall i :: 0 <= i < |ds| ==> ds[i] < 7
    ensures |names| == |ds| && forall i :: 0 <= i < |ds| ==> names[i] == DOWS_SET[ds[i]]
  {
    seq(|ds|, i requires 0 <= i < |ds| => DOWS_SET[ds[i]])
  }

  function Weekdays(sp: Spec): (ds: seq<nat>)
    ensures forall i :: 0 <= i < |ds| ==> ds[i] < 7
    ensures forall d :: d in ds <==> d < 7 && d in sp.dow
  {
    var ds := Chosen(WeekOrder(sp.sundayIsSeven), sp.dow);
    assert forall i :: 0 <= i < |ds| ==> ds[i] in ds;
    ds
  }

  /** Where a weekday stands in the week. */
  function Place(sundayIsSeven: bool, d: nat): nat {
    if d == 0 && sundayIsSeven then 7 else d
  }

  /** Weekdays are written in order, Sunday before or after the others, each once. */
  lemma WeekAscends(sp: Spec, i: nat, j: nat)
    requires i < j < |Weekdays(sp)|
    ensures Place(sp.sundayIsSeven, Weekdays(sp)[i]) < Place(sp.sundayIsSeven, Weekdays(sp)[j])
  {
    ChosenInOrder(WeekOrder(sp.sundayIsSeven), sp.dow, d => Place(sp.sundayIsSeven, d), i, j);
  }

  function WeekdayText(sp: Spec): string {
    Join(DayNames(Weekdays(sp)), ',')
  }

  function DayText(sp: Spec): string {
    CommaList(sp.dom) + if sp.lastDow then "/1" else ""
  }

  /** `*-month-day`, or `*-month~day`. */
  function DateText(month: string, fromEnd: bool, day: string): string {
    "*" + ['-'] + (month + [if fromEnd then '~' else '-'] + day)
  }

  function TimeText(hour: string, minute: string): string {
    hour + [':'] + (minute + [':'] + "00")
  }

  function DateAndTime(sp: Spec): string {
    DateText(CommaList(sp.month), sp.lastDow || sp.lastDom, DayText(sp)) + [' ']
    + TimeText(CommaList(sp.hour), CommaList(sp.minute))
  }

  /** The OnCalendar= text. */
  function ScheduleText(sp: Spec): string {
    if sp.dow == {ASTERISK} then DateAndTime(sp) else WeekdayText(sp) + [' '] + DateAndTime(sp)
  }

  // ---------------------------------------------------------------- reading a list back

  /** What the fields hold: just the asterisk, or some smaller numbers. */
  predicate Plain(s: set<nat>) {
    s != {} && (s == {ASTERISK} || forall v :: v in s ==> v < ASTERISK)
  }

  /** The value is selected by a field's set. */
  predicate In(s: set<nat>, v: nat) {
    s == {ASTERISK} || v in s
  }

  predicate Harmless(s: string) {
    ' ' !in s && ':' !in s && '-' !in s && '~' !in s && '/' !in s
  }

  lemma NameIsHarmless(v: nat)
    ensures Harmless(Name(v)) && ',' !in Name(v) && Name(v) != []
    ensures v != ASTERISK ==> Name(v) != "*"
  {
    if v != ASTERISK {
      assert Numeral(Decimal(v));
      assert IsDigit(Decimal(v)[0]);
    }
  }

  lemma CommaListIsHarmless(s: set<nat>)
    ensures Harmless(CommaList(s))
  {
    var names := Names(Ascending(s));
    forall i | 0 <= i < |names|
      ensures Harmless(names[i])
    {
      NameIsHarmless(Ascending(s)[i]);
    }
    JoinLacks(names, ',', ' ');
    JoinLacks(names, ',', ':');
    JoinLacks(names, ',', '-');
    JoinLacks(names, ',', '~');
    JoinLacks(names, ',', '/');
  }

  function ItemsOf(vs: seq<nat>): (items: seq<C.Item>)
    ensures |items| == |vs| && forall i :: 0 <= i < |vs| ==> items[i] == C.Item(vs[i], 0)
  {
    seq(|vs|, i requires 0 <= i < |vs| => C.Item(vs[i], 0))
  }

  lemma ReadItemOfName(v: nat)
    requires v != ASTERISK
    ensures C.ReadItem(Name(v)) == Some(C.Item(v, 0))
  {
    NameIsHarmless(v);
    SplitWhole(Name(v), '/');
  }

  lemma {:induction false} ReadItemsOfNames(vs: seq<nat>)
    requires ASTERISK !in vs
    ensures C.ReadItems(Names(vs)) == Some(ItemsOf(vs))
  {
    if vs != [] {
      ReadItemOfName(vs[0]);
      ReadItemsOfNames(vs[1..]);
      assert Names(vs)[1..] == Names(vs[1..]);
      assert ItemsOf(vs) == [C.Item(vs[0], 0)] + ItemsOf(vs[1..]);
    }
  }

  lemma {:induction false} ChosenNone(from: seq<nat>, v: nat)
    requires v !in from
    ensures Chosen(from, {v}) == []
  {
    if from != [] {
      ChosenNone(from[1..], v);
    }
  }

  lemma {:induction false} ChosenOnce(before: seq<nat>, v: nat, after: seq<nat>)
    requires v !in before && v !in after
    ensures Chosen(before + [v] + after, {v}) == [v]
    decreases |before|
  {
    var from := before + [v] + after;
    if before == [] {
      assert from[1..] == after;
      ChosenNone(after, v);
    } else {
      assert from[1..] == before[1..] + [v] + after;
      ChosenOnce(before[1..], v, after);
    }
  }

  lemma AscendingOne(v: nat)
    requires v <= ASTERISK
    ensures Ascending({v}) == [v]
  {
    var bs := Bytes();
    assert bs == bs[..v] + [v] + bs[v + 1..];
    ChosenOnce(bs[..v], v, bs[v + 1..]);
  }

  lemma ReadNames(vs: seq<nat>)
    requires vs != [] && ASTERISK !in vs
    ensures C.ReadComponent(Join(Names(vs), ',')) == Some(C.Items(ItemsOf(vs)))
  {
    var names := Names(vs);
    forall i | 0 <= i < |names|
      ensures ',' !in names[i] && names[i] != [] && names[i] != "*"
    {
      assert vs[i] in vs;
      NameIsHarmless(vs[i]);
    }
    SplitJoin(names, ',');
    Y.ListIsNoStar(names);
    ReadItemsOfNames(vs);
  }

  lemma ItemsMatch(vs: seq<nat>, v: nat)
    ensures C.Matches(C.Items(ItemsOf(vs)), v) <==> v in vs
  {
    var c := C.Items(ItemsOf(vs));
    if v in vs {
      var i :| 0 <= i < |vs| && vs[i] == v;
      assert C.Hits(c.items[i], v, c.items[i].value);
    }
    if C.Matches(c, v) {
      var i :| 0 <= i < |c.items| && C.Hits(c.items[i], v, c.items[i].value);
      assert vs[i] == v;
    }
  }

  /** A list reads back as a component that matches exactly the set's values. */
  lemma ReadCommaList(s: set<nat>)
    requires Plain(s)
    ensures C.ReadComponent(CommaList(s)).Some?
    ensures forall v :: C.Matches(C.ReadComponent(CommaList(s)).value, v) <==> In(s, v)
  {
    var vs := Ascending(s);
    if s == {ASTERISK} {
      AscendingOne(ASTERISK);
    } else {
      var some :| some in s;
      AscendingHas(s, some);
      AscendingHas(s, ASTERISK);
      ReadNames(vs);
      forall v: nat
        ensures C.Matches(C.Items(ItemsOf(vs)), v) <==> In(s, v)
      {
        ItemsMatch(vs, v);
        AscendingHas(s, v);
      }
    }
  }

  // ---------------------------------------------------------------- reading the schedule back

  lemma WeekdayNumberOf(d: nat, i: nat)
    requires i <= d < 7
    ensures C.WeekdayNumber(DOWS_SET[d], i) == Some(d)
    decreases d - i
  {
    var w := DOWS_SET;
    assert w == C.WEEKDAYS;
    assert w[0] == "Sun" && w[1] == "Mon" && w[2] == "Tue" && w[3] == "Wed" && w[4] == "Thu" && w[5] == "Fri" && w[6] == "Sat";
    assert w[0][1] == 'u' && w[2][1] == 'u' && w[4][1] == 'h' && w[6][1] == 'a';
    assert w[0][0] == 'S' && w[1][0] == 'M' && w[2][0] == 'T' && w[3][0] == 'W' && w[4][0] == 'T' && w[5][0] == 'F' && w[6][0] == 'S';
    if i < d {
      WeekdayNumberOf(d, i + 1);
    }
  }

  lemma WeekdayIsPlain(d: nat)
    requires d < 7
    ensures ',' !in DOWS_SET[d] && ' ' !in DOWS_SET[d]
  {
    var w := DOWS_SET;
    assert w[0] == "Sun" && w[1] == "Mon" && w[2] == "Tue" && w[3] == "Wed" && w[4] == "Thu" && w[5] == "Fri" && w[6] == "Sat";
  }

  lemma {:induction false} ReadDayNames(ds: seq<nat>)
    requires forall i :: 0 <= i < |ds| ==> ds[i] < 7
    ensures C.ReadWeekdays(DayNames(ds)) == Some(ds)
  {
    if ds != [] {
      WeekdayNumberOf(ds[0], 0);
      ReadDayNames(ds[1..]);
      assert DayNames(ds)[1..] == DayNames(ds[1..]);
      assert [ds[0]] + ds[1..] == ds;
    }
  }

  /** The weekday list reads back as the weekdays, and holds no blank. */
  lemma ReadWeekdayList(ds: seq<nat>)
    requires ds != [] && forall i :: 0 <= i < |ds| ==> ds[i] < 7
    ensures var text := Join(DayNames(ds), ',');
            ' ' !in text && C.ReadWeekdays(Split(text, ',')) == Some(ds)
  {
    var names := DayNames(ds);
    forall i | 0 <= i < |names|
      ensures ',' !in names[i] && ' ' !in names[i]
    {
      WeekdayIsPlain(ds[i]);
    }
    SplitJoin(names, ',');
    JoinLacks(names, ',', ' ');
    ReadDayNames(ds);
  }

  lemma DayTextIsHarmless(sp: Spec)
    ensures ' ' !in DayText(sp) && '-' !in DayText(sp) && '~' !in DayText(sp)
  {
    CommaListIsHarmless(sp.dom);
  }

  lemma ReadDateText(month: string, fromEnd: bool, day: string)
    requires Harmless(month) && ' ' !in day && '-' !in day && '~' !in day
    ensures C.ReadDate(DateText(month, fromEnd, day)) == Some((month, fromEnd, day))
    ensures ' ' !in DateText(month, fromEnd, day)
  {
    if fromEnd {
      SplitTwo("*", month + ['~'] + day, '-');
      SplitTwo(month, day, '~');
    } else {
      SplitThree("*", month, day, '-');
    }
  }

  lemma ReadTimeText(hour: string, minute: string)
    requires Harmless(hour) && Harmless(minute)
    ensures Split(TimeText(hour, minute), ':') == [hour, minute, "00"]
    ensures ' ' !in TimeText(hour, minute)
  {
    SplitThree(hour, minute, "00", ':');
  }

  lemma ReadOneItem(s: string, item: C.Item)
    requires ',' !in s && s != "*" && C.ReadItem(s) == Some(item)
    ensures C.ReadComponent(s) == Some(C.Items([item]))
  {
    SplitWhole(s, ',');
    var parts := [s];
    assert parts[1..] == [];
    assert C.ReadItems(parts[1..]) == Some([]);
    var none: seq<C.Item> := [];
    assert [item] + none == [item];
  }

  lemma ReadZeros()
    ensures C.ReadComponent("00") == Some(C.Items([C.Item(0, 0)]))
  {
    SplitWhole("00", '/');
    assert "00"[..1] == "0" && "0"[..0] == "";
    assert Value("0") == 0 && Value("00") == 0;
    ReadOneItem("00", C.Item(0, 0));
  }

  lemma DateAndTimeWords(sp: Spec)
    ensures var date, time := DateText(CommaList(sp.month), sp.lastDow || sp.lastDom, DayText(sp)),
                              TimeText(CommaList(sp.hour), CommaList(sp.minute));
            && Split(DateAndTime(sp), ' ') == [date, time]
            && C.ReadDate(date) == Some((CommaList(sp.month), sp.lastDow || sp.lastDom, DayText(sp)))
            && Split(time, ':') == [CommaList(sp.hour), CommaList(sp.minute), "00"]
  {
    CommaListIsHarmless(sp.month);
    CommaListIsHarmless(sp.hour);
    CommaListIsHarmless(sp.minute);
    DayTextIsHarmless(sp);
    ReadDateText(CommaList(sp.month), sp.lastDow || sp.lastDom, DayText(sp));
    ReadTimeText(CommaList(sp.hour), CommaList(sp.minute));
    SplitTwo(DateText(CommaList(sp.month), sp.lastDow || sp.lastDom, DayText(sp)),
             TimeText(CommaList(sp.hour), CommaList(sp.minute)), ' ');
  }

  // ---------------------------------------------------------------- what the schedule means

  /** What the fields can hold after parsing: `~` forms carry the one day they need. */
  predicate Readable(sp: Spec) {
    && Plain(sp.month) && Plain(sp.dom) && Plain(sp.hour) && Plain(sp.minute)
    && (sp.dow == {ASTERISK} || Weekdays(sp) != [])
    && (sp.lastDom ==> sp.dom == {1})
    && (sp.lastDow && !sp.lastDom ==> sp.dom == {7})
  }

  predicate OnWeekday(sp: Spec, m: C.Moment) {
    sp.dow == {ASTERISK} || m.weekday in sp.dow
  }

  /** The last day of the month, the last seven days, or the listed days. */
  predicate OnDay(sp: Spec, m: C.Moment) {
    if sp.lastDom then m.day == m.monthLength
    else if sp.lastDow then m.day + 7 > m.monthLength
    else In(sp.dom, m.day)
  }

  predicate Due(sp: Spec, m: C.Moment) {
    && OnWeekday(sp, m) && In(sp.month, m.month) && OnDay(sp, m)
    && In(sp.hour, m.hour) && In(sp.minute, m.minute) && m.second == 0
  }

  lemma ReadDayText(sp: Spec)
    requires Readable(sp)
    ensures C.ReadComponent(DayText(sp)).Some?
    ensures forall m :: C.Real(m) ==>
              var c := C.ReadComponent(DayText(sp)).value;
              (OnDay(sp, m) <==> if sp.lastDow || sp.lastDom then C.MatchesFromEnd(c, m.day, m.monthLength)
                                 else C.Matches(c, m.day))
  {
    if sp.lastDow {
      var n := if sp.lastDom then 1 else 7;
      ReadLastDays(n);
      AscendingOne(n);
      assert DayText(sp) == Decimal(n) + "/1";
    } else if sp.lastDom {
      ReadLastOne();
      AscendingOne(1);
      assert DayText(sp) == Decimal(1);
    } else {
      ReadCommaList(sp.dom);
      assert DayText(sp) == CommaList(sp.dom);
    }
  }

  lemma DecimalDigit(v: nat)
    requires v < 10
    ensures Decimal(v) == [(v + '0' as int) as char]
  {
  }

  /** From the n-th day before the end, every day. */
  lemma ReadLastDays(n: nat)
    requires 1 <= n < 10
    ensures C.ReadComponent(Decimal(n) + "/1") == Some(C.Items([C.Item(n, 1)]))
    ensures forall day: nat, length: nat ::
              day <= length ==> (C.MatchesFromEnd(C.Items([C.Item(n, 1)]), day, length) <==> day + n > length)
  {
    DecimalDigit(n);
    var text := Decimal(n) + "/1";
    assert text == Decimal(n) + ['/'] + "1" && text[0] == Decimal(n)[0] && |text| == 3;
    SplitTwo(Decimal(n), "1", '/');
    assert "1"[..0] == "";
    assert Value("1") == 1;
    ReadOneItem(text, C.Item(n, 1));
    var c := C.Items([C.Item(n, 1)]);
    forall day: nat, length: nat | day <= length
      ensures C.MatchesFromEnd(c, day, length) <==> day + n > length
    {
      if day + n > length {
        assert C.Hits(c.items[0], day, length + 1 - c.items[0].value);
      }
    }
  }

  lemma ReadLastOne()
    ensures C.ReadComponent(Decimal(1)) == Some(C.Items([C.Item(1, 0)]))
    ensures forall day: nat, length: nat ::
              C.MatchesFromEnd(C.Items([C.Item(1, 0)]), day, length) <==> day == length
  {
    DecimalDigit(1);
    SplitWhole("1", '/');
    assert "1"[..0] == "";
    assert Value("1") == 1;
    ReadOneItem("1", C.Item(1, 0));
    var c := C.Items([C.Item(1, 0)]);
    forall day: nat, length: nat
      ensures C.MatchesFromEnd(c, day, length) <==> day == length
    {
      if day == length {
        assert C.Hits(c.items[0], day, length + 1 - c.items[0].value);
      }
    }
  }

  /** The five components, read back. */
  ghost predicate Components(sp: Spec, e: C.Event) {
    && C.ReadComponent(CommaList(sp.month)) == Some(e.month)
    && C.ReadComponent(DayText(sp)) == Some(e.day)
    && C.ReadComponent(CommaList(sp.hour)) == Some(e.hour)
    && C.ReadComponent(CommaList(sp.minute)) == Some(e.minute)
    && C.ReadComponent("00") == Some(e.second)
    && e.fromEnd == (sp.lastDow || sp.lastDom)
  }

  lemma ComponentsMean(sp: Spec, e: C.Event, m: C.Moment)
    requires Readable(sp) && Components(sp, e) && C.Real(m)
    requires e.weekdays.None? || m.weekday in e.weekdays.value <==> OnWeekday(sp, m)
    ensures C.Occurs(e, m) <==> Due(sp, m)
  {
    ReadCommaList(sp.month);
    ReadCommaList(sp.hour);
    ReadCommaList(sp.minute);
    ReadDayText(sp);
    ReadZeros();
    if m.second == 0 {
      assert C.Hits(e.second.items[0], m.second, e.second.items[0].value);
    }
  }

  lemma ComponentsRead(sp: Spec, weekdays: Option<seq<nat>>) returns (e: C.Event)
    requires Readable(sp)
    ensures Components(sp, e) && e.weekdays == weekdays
  {
    ReadCommaList(sp.month);
    ReadCommaList(sp.hour);
    ReadCommaList(sp.minute);
    ReadDayText(sp);
    ReadZeros();
    e := C.Event(weekdays, C.ReadComponent(CommaList(sp.month)).value, sp.lastDow || sp.lastDom,
                 C.ReadComponent(DayText(sp)).value, C.ReadComponent(CommaList(sp.hour)).value,
                 C.ReadComponent(CommaList(sp.minute)).value, C.ReadComponent("00").value);
  }

  lemma AssembleIs(sp: Spec, e: C.Event)
    requires Components(sp, e)
    ensures C.Assemble(e.weekdays, Some((CommaList(sp.month), e.fromEnd, DayText(sp))),
                       [CommaList(sp.hour), CommaList(sp.minute), "00"]) == Some(e)
  {
  }

  lemma ReadPlain(sp: Spec, e: C.Event)
    requires sp.dow == {ASTERISK} && Components(sp, e) && e.weekdays.None?
    ensures C.Read(ScheduleText(sp)) == Some(e)
  {
    DateAndTimeWords(sp);
    AssembleIs(sp, e);
  }

  lemma ReadThreeWords(text: string, days: string, date: string, time: string, ds: seq<nat>)
    requires Split(text, ' ') == [days, date, time] && C.ReadWeekdays(Split(days, ',')) == Some(ds)
    ensures C.Read(text) == C.Assemble(Some(ds), C.ReadDate(date), Split(time, ':'))
  {
  }

  lemma WordsAfter(days: string, rest: string, date: string, time: string)
    requires ' ' !in days && Split(rest, ' ') == [date, time]
    ensures Split(days + [' '] + rest, ' ') == [days, date, time]
  {
    SplitCut(days, rest, ' ');
  }

  lemma WeekdaysRead(sp: Spec)
    requires Weekdays(sp) != []
    ensures ' ' !in WeekdayText(sp) && C.ReadWeekdays(Split(WeekdayText(sp), ',')) == Some(Weekdays(sp))
  {
    ReadWeekdayList(Weekdays(sp));
  }

  lemma ReadWithWeekdays(sp: Spec, e: C.Event)
    requires sp.dow != {ASTERISK} && Weekdays(sp) != [] && Components(sp, e) && e.weekdays == Some(Weekdays(sp))
    ensures C.Read(ScheduleText(sp)) == Some(e)
  {
    DateAndTimeWords(sp);
    WeekdaysRead(sp);
    AssembleIs(sp, e);
    var date, time := DateText(CommaList(sp.month), sp.lastDow || sp.lastDom, DayText(sp)),
                      TimeText(CommaList(sp.hour), CommaList(sp.minute));
    WordsAfter(WeekdayText(sp), DateAndTime(sp), date, time);
    ReadThreeWords(ScheduleText(sp), WeekdayText(sp), date, time, Weekdays(sp));
  }

  lemma ScheduleReads(sp: Spec) returns (e: C.Event)
    requires Readable(sp)
    ensures C.Read(ScheduleText(sp)) == Some(e) && Components(sp, e)
    ensures e.weekdays == if sp.dow == {ASTERISK} then None else Some(Weekdays(sp))
  {
    if sp.dow == {ASTERISK} {
      e := ComponentsRead(sp, None);
      ReadPlain(sp, e);
    } else {
      e := ComponentsRead(sp, Some(Weekdays(sp)));
      ReadWithWeekdays(sp, e);
    }
  }

  /** Reading the emitted text back gives an event that occurs exactly when the parsed fields
      say so, all of them together. */
  lemma ScheduleReadsBack(sp: Spec)
    requires Readable(sp)
    ensures C.Read(ScheduleText(sp)).Some?
    ensures forall m :: C.Real(m) ==> (C.Occurs(C.Read(ScheduleText(sp)).value, m) <==> Due(sp, m))
  {
    var e := ScheduleReads(sp);
    forall m | C.Real(m)
      ensures C.Occurs(e, m) <==> Due(sp, m)
    {
      ComponentsMean(sp, e, m);
    }
  }
}

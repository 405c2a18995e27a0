/** The Job of src/bin/systemd-crontab-generator.cpp, as far as its time specification goes: the
    fields that parse_crontab_timespec and generate_schedule_from_timespec fill in. */
module Jobs {
  import opened Basics
  import opened Text
  import F = CronFields
  import opened Schedule
  import opened CronLine

  // ---------------------------------------------------------------- lists grown at the end

  lemma {:induction false} ChosenSnoc(from: seq<nat>, x: nat, s: set<nat>)
    ensures Chosen(from + [x], s) == Chosen(from, s) + if x in s then [x] else []
  {
    if from != [] {
      assert (from + [x])[1..] == from[1..] + [x];
      ChosenSnoc(from[1..], x, s);
    }
  }

  lemma NamesSnoc(vs: seq<nat>, v: nat)
    ensures Join(Names(vs + [v]), ',') == Join(Names(vs), ',') + (if vs == [] then "" else ",") + Name(v)
  {
    assert Names(vs + [v]) == Names(vs) + [Name(v)];
    JoinSnoc(Names(vs), Name(v), ',');
  }

  lemma DayNamesSnoc(ds: seq<nat>, d: nat)
    requires d < 7 && forall i :: 0 <= i < |ds| ==> ds[i] < 7
    ensures Join(DayNames(ds + [d]), ',') == Join(DayNames(ds), ',') + (if ds == [] then "" else ",") + DOWS_SET[d]
    ensures Join(DayNames(ds + [d]), ',') != []
  {
    assert DayNames(ds + [d]) == DayNames(ds) + [DOWS_SET[d]];
    JoinSnoc(DayNames(ds), DOWS_SET[d], ',');
    var w := DOWS_SET;
    assert w == ["Sun", "Mon", "Tue", "Wed", "Thu", "Fri", "Sat"];
    assert forall k :: 0 <= k < 7 ==> w[k] != "";
  }

  /** One more weekday, as the code adds it: after a comma unless the text is empty. */
  lemma DayTextSnoc(ds: seq<nat>, d: nat)
    requires d < 7 && forall i :: 0 <= i < |ds| ==> ds[i] < 7
    ensures var text := Join(DayNames(ds), ',');
            Join(DayNames(ds + [d]), ',') == if text == [] then DOWS_SET[d] else text + "," + DOWS_SET[d]
  {
    DayNamesSnoc(ds, d);
    if ds == [] {
      assert DayNames(ds) == [];
    } else {
      var last := |ds| - 1;
      DayNamesSnoc(ds[..last], ds[last]);
      assert ds == ds[..last] + [ds[last]];
    }
  }

  lemma ChosenNext(order: seq<nat>, dow: set<nat>, n: nat)
    requires n < |order|
    ensures var ds := Chosen(order[..n], dow);
            Chosen(order[..n + 1], dow) == if order[n] in dow then ds + [order[n]] else ds
  {
    assert order[..n + 1] == order[..n] + [order[n]];
    ChosenSnoc(order[..n], order[n], dow);
  }

  predicate AllDays(ds: seq<nat>) {
    forall i :: 0 <= i < |ds| ==> ds[i] < 7
  }

  function DaysText(ds: seq<nat>): string
    requires AllDays(ds)
  {
    Join(DayNames(ds), ',')
  }

  /** The text of the weekdays chosen among the first n, as it grows. */
  function GrownDays(order: seq<nat>, dow: set<nat>, n: nat): string
    requires n <= |order| && AllDays(order)
  {
    if n == 0 then []
    else
      var text := GrownDays(order, dow, n - 1);
      if order[n - 1] !in dow then text
      else if text == [] then DOWS_SET[order[n - 1]]
      else text + "," + DOWS_SET[order[n - 1]]
  }

  lemma DaysGrow(ds: seq<nat>, d: nat, chosen: bool, more: seq<nat>)
    requires AllDays(ds) && d < 7 && more == if chosen then ds + [d] else ds
    ensures AllDays(more)
    ensures DaysText(more) == if !chosen then DaysText(ds) else if DaysText(ds) == [] then DOWS_SET[d] else DaysText(ds) + "," + DOWS_SET[d]
  {
    if chosen {
      DayTextSnoc(ds, d);
    }
  }

  lemma {:induction false} GrownDaysAre(order: seq<nat>, dow: set<nat>, n: nat)
    requires n <= |order| && AllDays(order)
    ensures AllDays(Chosen(order[..n], dow)) && GrownDays(order, dow, n) == DaysText(Chosen(order[..n], dow))
  {
    if n == 0 {
      assert DayNames(Chosen(order[..0], dow)) == [];
    } else {
      GrownDaysAre(order, dow, n - 1);
      ChosenNext(order, dow, n - 1);
      DaysGrow(Chosen(order[..n - 1], dow), order[n - 1], order[n - 1] in dow, Chosen(order[..n], dow));
    }
  }

  /** The weekday names that are chosen, in order. */
  method NamesInOrder(order: seq<nat>, dow: set<nat>) returns (dows: string)
    requires AllDays(order)
    ensures AllDays(Chosen(order, dow)) && dows == DaysText(Chosen(order, dow))
  {
    dows := [];
    var n := 0;
    while n < |order|
      invariant n <= |order| && dows == GrownDays(order, dow, n)
    {
      if order[n] in dow {
        if dows != [] {
          dows := dows + ",";
        }
        dows := dows + DOWS_SET[order[n]];
      }
      n := n + 1;
    }
    GrownDaysAre(order, dow, n);
    assert order[..n] == order;
  }

  /** A text to which the first n names were added. */
  function Grown(before: string, vs: seq<nat>, n: nat): string
    requires n <= |vs|
  {
    before + Join(Names(vs[..n]), ',')
  }

  lemma GrownFrom(before: string, vs: seq<nat>)
    ensures Grown(before, vs, 0) == before && Grown(before, vs, |vs|) == before + Join(Names(vs), ',')
  {
    assert Names(vs[..0]) == [];
    assert vs[..|vs|] == vs;
  }

  lemma NextName(vs: seq<nat>, n: nat)
    requires n < |vs|
    ensures Join(Names(vs[..n + 1]), ',') == Join(Names(vs[..n]), ',') + (if n == 0 then "" else ",") + Name(vs[n])
  {
    NamesSnoc(vs[..n], vs[n]);
    assert vs[..n + 1] == vs[..n] + [vs[n]];
  }

  lemma GrownNext(before: string, vs: seq<nat>, n: nat)
    requires n < |vs|
    ensures Grown(before, vs, n) + (if n == 0 then "" else ",") + Name(vs[n]) == Grown(before, vs, n + 1)
  {
    NextName(vs, n);
    Appended(before, Join(Names(vs[..n]), ','), if n == 0 then "" else ",", Name(vs[n]));
  }

  lemma Appended(before: string, text: string, sep: string, item: string)
    ensures before + text + sep + item == before + (text + sep + item)
  {
    Regroup(before, text, sep);
    Regroup(before, text + sep, item);
  }

  /** The pieces in the order in which they are appended. */
  function DatePieces(before: string, month: string, fromEnd: bool, day: string, lastDow: bool): string {
    var date := before + month + [if fromEnd then '~' else '-'] + day;
    if lastDow then date + "/" + "1" else date
  }

  function TimePieces(before: string, hour: string, minute: string): string {
    before + " " + hour + ":" + minute + ":00"
  }

  lemma DatePiecesAre(dows: string, month: string, fromEnd: bool, day: string, lastDow: bool)
    ensures DatePieces(dows + "*-", month, fromEnd, day, lastDow)
            == dows + DateText(month, fromEnd, day + if lastDow then "/1" else "")
  {
  }

  lemma TimePiecesAre(dows: string, date: string, hour: string, minute: string)
    ensures TimePieces(dows + date, hour, minute) == dows + (date + [' '] + TimeText(hour, minute))
  {
  }

  lemma PiecesAreSchedule(dows: string, month: string, fromEnd: bool, day: string, lastDow: bool, hour: string, minute: string)
    ensures TimePieces(DatePieces(dows + "*-", month, fromEnd, day, lastDow), hour, minute)
            == dows + (DateText(month, fromEnd, day + if lastDow then "/1" else "") + [' '] + TimeText(hour, minute))
  {
    DatePiecesAre(dows, month, fromEnd, day, lastDow);
    TimePiecesAre(dows, DateText(month, fromEnd, day + if lastDow then "/1" else ""), hour, minute);
  }

  lemma DatePiecesAreRaw(dows: string, month: string, fromEnd: bool, day: string, lastDow: bool)
    ensures DatePieces(dows + "*-", month, fromEnd, day, lastDow)
            == dows + "*-" + month + (if fromEnd then "~" else "-") + day + (if lastDow then "/1" else "")
  {
  }

  lemma PiecesAreRaw(dows: string, month: string, fromEnd: bool, day: string, lastDow: bool, hour: string, minute: string)
    ensures TimePieces(DatePieces(dows + "*-", month, fromEnd, day, lastDow), hour, minute)
            == RawText(dows, month, fromEnd, day, lastDow, hour, minute)
  {
    DatePiecesAreRaw(dows, month, fromEnd, day, lastDow);
  }

  lemma PiecesOfSchedule(sp: Spec)
    ensures ScheduleText(sp) ==
              TimePieces(DatePieces(RawWeekdays(sp, None) + "*-", CommaList(sp.month), sp.lastDow || sp.lastDom, CommaList(sp.dom), sp.lastDow),
                         CommaList(sp.hour), CommaList(sp.minute))
  {
    PiecesAreSchedule(RawWeekdays(sp, None), CommaList(sp.month), sp.lastDow || sp.lastDom, CommaList(sp.dom), sp.lastDow,
                      CommaList(sp.hour), CommaList(sp.minute));
  }

  lemma PiecesOfRaw(sp: Spec, raws: Raws)
    ensures RawSchedule(sp, raws) ==
              TimePieces(DatePieces(RawWeekdays(sp, raws.dow) + "*-", RawList(sp.month, raws.month), sp.lastDow || sp.lastDom,
                                    RawList(sp.dom, raws.dom), sp.lastDow),
                         RawList(sp.hour, raws.hour), RawList(sp.minute, raws.minute))
  {
    PiecesAreRaw(RawWeekdays(sp, raws.dow), RawList(sp.month, raws.month), sp.lastDow || sp.lastDom,
                      RawList(sp.dom, raws.dom), sp.lastDow, RawList(sp.hour, raws.hour), RawList(sp.minute, raws.minute));
  }

  function ValuesOf(p: F.Parsed): set<nat> {
    if p.Values? then p.values else {}
  }

  /** Zero struck from days and months. */
  function Struck(sp: Spec): Spec {
    sp.(dom := sp.dom - {0}, month := sp.month - {0})
  }

  predicate CompleteSpec(sp: Spec) {
    sp.month != {} && sp.dom != {} && sp.hour != {} && sp.minute != {}
  }

  /** A job stands as a line was compiled: whether that ended, whether it is valid, what it holds. */
  predicate Agrees(r: Compiled, sp: Spec, raws: Raws, ended: bool, valid: bool) {
    && (ended <==> !r.Endless?)
    && (ended ==> (valid && CompleteSpec(Struck(sp)) <==> r.Ready?))
    && (r.Ready? ==> Struck(sp) == r.sp && raws == r.raws)
  }

  lemma Collected(w: Line, persistent: bool, minute: F.Parsed, hour: F.Parsed, dom: F.Parsed, dow: F.Parsed,
                  month: F.Parsed, sp: Spec, raws: Raws, ended: bool, valid: bool)
    requires ended == !(minute.Stuck? || hour.Stuck? || dom.Stuck? || dow.Stuck? || month.Stuck?)
    requires valid == !(minute.Invalid? || hour.Invalid? || dom.Invalid? || dow.Invalid? || month.Invalid?)
    requires sp.minute == ValuesOf(minute) && sp.hour == ValuesOf(hour) && sp.dow == ValuesOf(dow)
    requires sp.dom == ValuesOf(dom) && sp.month == ValuesOf(month) && sp.sundayIsSeven == SundayIsSeven(w.dows)
    requires raws.minute == Raw(persistent, w.minute, minute) && raws.hour == Raw(persistent, w.hour, hour)
    requires raws.dom == Raw(persistent, w.days, dom) && raws.dow == Raw(persistent, w.dows, dow)
    requires raws.month == Raw(persistent, w.months, month)
    ensures Agrees(Gather(w, sp.lastDom, sp.lastDow, persistent, minute, hour, dom, dow, month), sp, raws, ended, valid)
  {
  }

  /** The end of parse_time_unit: what becomes of a parsed field. */
  method Take(word: string, parsed: F.Parsed, persistent: bool) returns (result: set<nat>, raw: Option<string>, ok: bool)
    ensures ok == !parsed.Invalid? && result == ValuesOf(parsed) && raw == Raw(persistent, word, parsed)
  {
    result, raw, ok := {}, None, true;
    match parsed {
      case Values(values, random) =>
        if random && persistent {
          raw := Some(word);
        }
        result := values;
      case Invalid => ok := false;
      case Stuck =>
    }
  }

  class Job {
    const persistent: bool
    var valid: bool
    var timespecMinute: set<nat>
    var timespecHour: set<nat>
    var timespecDom: set<nat>
    var timespecDow: set<nat>
    var timespecMonth: set<nat>
    var raws: Raws
    var sundayIsSeven: bool
    var lastDom: bool
    var lastDow: bool
    var schedule: string
    var scheduleRaw: string

    constructor (persistent: bool)
      ensures this.persistent == persistent && valid && schedule == [] && scheduleRaw == []
      ensures raws == Raws(None, None, None, None, None)
    {
      this.persistent := persistent;
      valid, schedule, scheduleRaw := true, [], [];
      raws := Raws(None, None, None, None, None);
      timespecMinute, timespecHour, timespecDom, timespecDow, timespecMonth := {}, {}, {}, {}, {};
      sundayIsSeven, lastDom, lastDow := false, false, false;
    }

    /** The time specification. */
    function Specification(): Spec
      reads this
    {
      Spec(timespecMinute, timespecHour, timespecDom, timespecMonth, timespecDow, sundayIsSeven, lastDom, lastDow)
    }

    // ---------------------------------------------------------------- parsing

    method Fill(sp: Spec, rs: Raws, ok: bool)
      modifies this
      ensures Specification() == sp.(lastDom := old(lastDom), lastDow := old(lastDow)) && raws == rs && valid == (old(valid) && ok)
      ensures schedule == old(schedule) && scheduleRaw == old(scheduleRaw)
    {
      timespecMinute, timespecHour, timespecDom, timespecDow, timespecMonth := sp.minute, sp.hour, sp.dom, sp.dow, sp.month;
      sundayIsSeven, raws := sp.sundayIsSeven, rs;
      if !ok {
        valid := false;
      }
    }

    method TakeAll(w: Line, minute: F.Parsed, hour: F.Parsed, dom: F.Parsed, dow: F.Parsed, month: F.Parsed)
        returns (ended: bool)
      requires valid
      modifies this
      ensures schedule == old(schedule) && scheduleRaw == old(scheduleRaw)
      ensures Agrees(Gather(w, old(lastDom), old(lastDow), persistent, minute, hour, dom, dow, month),
                     Specification(), raws, ended, valid)
    {
      var minutes, minuteRaw, minuteOk := Take(w.minute, minute, persistent);
      var hours, hourRaw, hourOk := Take(w.hour, hour, persistent);
      var days, domRaw, domOk := Take(w.days, dom, persistent);
      var dows, dowRaw, dowOk := Take(w.dows, dow, persistent);
      var months, monthRaw, monthOk := Take(w.months, month, persistent);
      var sp := Spec(minutes, hours, days, months, dows, SundayIsSeven(w.dows), lastDom, lastDow);
      var rs := Raws(minuteRaw, hourRaw, domRaw, dowRaw, monthRaw);
      var ok := minuteOk && hourOk && domOk && dowOk && monthOk;
      ended := !(minute.Stuck? || hour.Stuck? || dom.Stuck? || dow.Stuck? || month.Stuck?);
      Collected(w, persistent, minute, hour, dom, dow, month, sp, rs, ended, ok);
      Fill(sp, rs, ok);
    }

    /** The last-day forms put another day field in place. */
    method NoteLast(l: Line) returns (w: Line)
      modifies this`lastDom, this`lastDow
      ensures lastDom == LastDom(l) && lastDow == LastDow(l) && w == Effective(l)
    {
      lastDom, lastDow := l.days == "L", |l.dows| == 2 && l.dows[1] == 'L';
      w := l;
      if lastDom {
        w := w.(days := "1");
      } else if lastDow {
        w := w.(days := "7/1", dows := l.dows[..1]);
      }
    }

    method ParseCrontabTimespec(l: Line, draws: Draws) returns (ended: bool)
      requires valid
      modifies this
      ensures schedule == old(schedule) && scheduleRaw == old(scheduleRaw)
      ensures Agrees(Compile(l, persistent, draws), Specification(), raws, ended, valid)
    {
      var w := NoteLast(l);
      var minute := F.ParseTimeUnit(F.Minute, w.minute, draws.minute);
      var hour := F.ParseTimeUnit(F.Hour, w.hour, draws.hour);
      var dom := F.ParseTimeUnit(F.Day, w.days, draws.dom);
      var dow := F.ParseTimeUnit(F.Dow, w.dows, draws.dow);
      var month := F.ParseTimeUnit(F.Month, w.months, draws.month);
      ended := TakeAll(w, minute, hour, dom, dow, month);
    }

    // ---------------------------------------------------------------- writing the schedule

    /** Append to the schedule, and for a persistent job to the text to be hashed. */
    method AddBoth(what: string)
      modifies this`schedule, this`scheduleRaw
      ensures schedule == old(schedule) + what
      ensures scheduleRaw == if persistent then old(scheduleRaw) + what else old(scheduleRaw)
    {
      schedule := schedule + what;
      if persistent {
        scheduleRaw := scheduleRaw + what;
      }
    }

    method AppendItem(first: bool, item: string, rawToo: bool)
      modifies this`schedule, this`scheduleRaw
      ensures schedule == old(schedule) + (if first then "" else ",") + item
      ensures scheduleRaw == if rawToo then old(scheduleRaw) + (if first then "" else ",") + item else old(scheduleRaw)
    {
      if !first {
        schedule := schedule + ",";
        if rawToo {
          scheduleRaw := scheduleRaw + ",";
        }
      }
      schedule := schedule + item;
      if rawToo {
        scheduleRaw := scheduleRaw + item;
      }
    }

    method AppendNames(vs: seq<nat>, rawToo: bool)
      modifies this`schedule, this`scheduleRaw
      ensures schedule == old(schedule) + Join(Names(vs), ',')
      ensures scheduleRaw == if rawToo then old(scheduleRaw) + Join(Names(vs), ',') else old(scheduleRaw)
    {
      var n := 0;
      GrownFrom(old(schedule), vs);
      GrownFrom(old(scheduleRaw), vs);
      while n < |vs|
        invariant n <= |vs|
        invariant schedule == Grown(old(schedule), vs, n)
        invariant scheduleRaw == if rawToo then Grown(old(scheduleRaw), vs, n) else old(scheduleRaw)
      {
        GrownNext(old(schedule), vs, n);
        GrownNext(old(scheduleRaw), vs, n);
        AppendItem(n == 0, Name(vs[n]), rawToo);
        n := n + 1;
      }
    }

    method TimespecComma(field: set<nat>, raw: Option<string>)
      modifies this`schedule, this`scheduleRaw
      ensures schedule == old(schedule) + CommaList(field)
      ensures scheduleRaw ==
                if !persistent then old(scheduleRaw)
                else old(scheduleRaw) + if raw.Some? then raw.value else CommaList(field)
    {
      AppendNames(Ascending(field), persistent && raw.None?);
      if persistent && raw.Some? {
        scheduleRaw := scheduleRaw + raw.value;
      }
    }

    /** The weekday names, and the blank after them. */
    method WeekdayNames() returns (dows: string)
      ensures dows == RawWeekdays(Specification(), None)
    {
      dows := [];
      if timespecDow != {ASTERISK} {
        dows := NamesInOrder(WeekOrder(sundayIsSeven), timespecDow);
        dows := dows + " ";
      }
    }

    /** Month and day. */
    method AppendDate()
      modifies this`schedule, this`scheduleRaw
      ensures schedule == DatePieces(old(schedule), CommaList(timespecMonth), lastDow || lastDom, CommaList(timespecDom), lastDow)
      ensures scheduleRaw == if !persistent then old(scheduleRaw) else
                DatePieces(old(scheduleRaw), RawList(timespecMonth, raws.month), lastDow || lastDom, RawList(timespecDom, raws.dom), lastDow)
    {
      TimespecComma(timespecMonth, raws.month);
      AddBoth([if lastDow || lastDom then '~' else '-']);
      TimespecComma(timespecDom, raws.dom);
      if lastDow {
        AddBoth("/");
        AddBoth("1");
      }
    }

    /** Hour and minute. */
    method AppendTime()
      modifies this`schedule, this`scheduleRaw
      ensures schedule == TimePieces(old(schedule), CommaList(timespecHour), CommaList(timespecMinute))
      ensures scheduleRaw == if !persistent then old(scheduleRaw) else
                TimePieces(old(scheduleRaw), RawList(timespecHour, raws.hour), RawList(timespecMinute, raws.minute))
    {
      AddBoth(" ");
      TimespecComma(timespecHour, raws.hour);
      AddBoth(":");
      TimespecComma(timespecMinute, raws.minute);
      AddBoth(":00");
    }

    method Begin(dows: string)
      requires dows == RawWeekdays(Specification(), None)
      modifies this`schedule, this`scheduleRaw
      ensures schedule == dows + "*-"
      ensures scheduleRaw == if persistent then RawWeekdays(Specification(), raws.dow) + "*-" else old(scheduleRaw)
    {
      schedule := dows + "*-";
      if persistent {
        if raws.dow.Some? {
          scheduleRaw := raws.dow.value;
          scheduleRaw := scheduleRaw + "*-";
        } else {
          scheduleRaw := schedule;
        }
      }
    }

    /** Everything, after the weekday names. */
    method WriteSchedule(dows: string)
      requires dows == RawWeekdays(Specification(), None)
      modifies this`schedule, this`scheduleRaw
      ensures schedule == ScheduleText(Specification())
      ensures scheduleRaw == if persistent then RawSchedule(Specification(), raws) else old(scheduleRaw)
    {
      Begin(dows);
      AppendDate();
      AppendTime();
      PiecesOfSchedule(Specification());
      PiecesOfRaw(Specification(), raws);
    }

    method GenerateScheduleFromTimespec()
      modifies this
      ensures Specification() == Struck(old(Specification())) && raws == old(raws)
      ensures valid == (old(valid) && CompleteSpec(Specification()))
      ensures schedule == if CompleteSpec(Specification()) then ScheduleText(Specification()) else old(schedule)
      ensures scheduleRaw == if persistent && CompleteSpec(Specification()) then RawSchedule(Specification(), raws) else old(scheduleRaw)
    {
      var dows := WeekdayNames();
      timespecMonth := timespecMonth - {0};
      timespecDom := timespecDom - {0};
      if timespecMonth == {} || timespecDom == {} || timespecHour == {} || timespecMinute == {} {
        valid := false;
        return;
      }
      WriteSchedule(dows);
    }

    /** A line from its five words to its schedule and its hashed text. */
    method Translate(l: Line, draws: Draws) returns (ended: bool)
      requires valid && schedule == [] && scheduleRaw == []
      modifies this
      ensures match Compile(l, persistent, draws)
              case Ready(sp, rs) =>
                ended && valid && schedule == ScheduleText(sp) && scheduleRaw == if persistent then RawSchedule(sp, rs) else []
              case BadLine => ended && !valid
              case Endless => !ended
    {
      ended := ParseCrontabTimespec(l, draws);
      if ended {
        GenerateScheduleFromTimespec();
      }
    }
  }
}

/** A reader for the part of systemd.time(7), "Calendar Events", that the generator emits:
    an optional list of weekdays, a date with `~` counting from the end of the month, a time,
    with `*`, comma-separated lists and `/` repetitions. Written from the manual, not from the
    generator. */
module Calendar {
  import opened Basics
  import opened Text

  /** `value`, or `value/repeat`. */
  datatype Item = Item(value: nat, repeat: nat)

  datatype Component = Any | Items(items: seq<Item>)

  datatype Event = Event(weekdays: Option<seq<nat>>, month: Component, fromEnd: bool, day: Component,
                         hour: Component, minute: Component, second: Component)

  const WEEKDAYS := ["Sun", "Mon", "Tue", "Wed", "Thu", "Fri", "Sat"]

  // ---------------------------------------------------------------- reading

  function ReadItem(s: string): Option<Item> {
    var parts := Split(s, '/');
    if |parts| == 1 && Numeral(parts[0]) then Some(Item(Value(parts[0]), 0))
    else if |parts| == 2 && Numeral(parts[0]) && Numeral(parts[1]) then Some(Item(Value(parts[0]), Value(parts[1])))
    else None
  }

  function ReadItems(parts: seq<string>): Option<seq<Item>> {
    if parts == [] then Some([])
    else
      match (ReadItem(parts[0]), ReadItems(parts[1..]))
      case (Some(item), Some(items)) => Some([item] + items)
      case _ => None
  }

  function ReadComponent(s: string): Option<Component> {
    if s == "*" then Some(Any)
    else
      match ReadItems(Split(s, ','))
      case Some(items) => Some(Items(items))
      case None => None
  }

  function WeekdayNumber(s: string, i: nat): Option<nat>
    decreases 7 - i
  {
    if i >= 7 then None else if WEEKDAYS[i] == s then Some(i) else WeekdayNumber(s, i + 1)
  }

  function ReadWeekdays(parts: seq<string>): Option<seq<nat>> {
    if parts == [] then Some([])
    else
      match (WeekdayNumber(parts[0], 0), ReadWeekdays(parts[1..]))
      case (Some(d), Some(ds)) => Some([d] + ds)
      case _ => None
  }

  /** `*-month-day` or `*-month~day`: month, whether from the end, day. */
  function ReadDate(s: string): Option<(string, bool, string)> {
    var parts := Split(s, '-');
    if |parts| == 3 && parts[0] == "*" then Some((parts[1], false, parts[2]))
    else if |parts| == 2 && parts[0] == "*" then
      var ends := Split(parts[1], '~');
      if |ends| == 2 then Some((ends[0], true, ends[1])) else None
    else None
  }

  function Assemble(weekdays: Option<seq<nat>>, date: Option<(string, bool, string)>, time: seq<string>): Option<Event> {
    if date.None? || |time| != 3 then None
    else
      match (ReadComponent(date.value.0), ReadComponent(date.value.2),
             ReadComponent(time[0]), ReadComponent(time[1]), ReadComponent(time[2]))
      case (Some(month), Some(day), Some(hour), Some(minute), Some(second)) =>
        Some(Event(weekdays, month, date.value.1, day, hour, minute, second))
      case _ => None
  }

  function Read(text: string): Option<Event> {
    var words := Split(text, ' ');
    if |words| == 2 then Assemble(None, ReadDate(words[0]), Split(words[1], ':'))
    else if |words| == 3 then
      match ReadWeekdays(Split(words[0], ','))
      case Some(ds) => Assemble(Some(ds), ReadDate(words[1]), Split(words[2], ':'))
      case None => None
    else None
  }

  /** What OnCalendar= makes of the text after it. By systemd.syntax(7), whitespace immediately after
      the `=` of a setting is ignored. */
  function ReadSetting(text: string): Option<Event> {
    Read(TrimLeft(text))
  }

  // ---------------------------------------------------------------- meaning

  /** A minute of the calendar, with the length of its month. */
  datatype Moment = Moment(month: nat, day: nat, monthLength: nat, weekday: nat, hour: nat, minute: nat, second: nat)

  predicate Real(m: Moment) {
    && 1 <= m.month <= 12 && 28 <= m.monthLength <= 31 && 1 <= m.day <= m.monthLength
    && m.weekday < 7 && m.hour < 24 && m.minute < 60 && m.second < 60
  }

  predicate Hits(item: Item, v: int, first: int) {
    v == first || (item.repeat > 0 && v >= first && (v - first) % item.repeat == 0)
  }

  predicate Matches(c: Component, v: nat) {
    c.Any? || exists i :: 0 <= i < |c.items| && Hits(c.items[i], v, c.items[i].value)
  }

  /** `~n` is the n-th day from the end, `~n/r` that day and every r-th after it. */
  predicate MatchesFromEnd(c: Component, day: nat, monthLength: nat) {
    c.Any? || exists i :: 0 <= i < |c.items| && Hits(c.items[i], day, monthLength + 1 - c.items[i].value)
  }

  predicate Occurs(e: Event, m: Moment) {
    && (e.weekdays.None? || m.weekday in e.weekdays.value)
    && Matches(e.month, m.month)
    && (if e.fromEnd then MatchesFromEnd(e.day, m.day, m.monthLength) else Matches(e.day, m.day))
    && Matches(e.hour, m.hour) && Matches(e.minute, m.minute) && Matches(e.second, m.second)
  }
}

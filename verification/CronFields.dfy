/** One time field of a crontab line: parse_period, the name tables and parse_time_unit of
    src/bin/systemd-crontab-generator.cpp. */
module CronFields {
  import opened Tokens
  import opened Text

  datatype Kind = Minute | Hour | Day | Month | Dow

  /** How many entries *_SET has. */
  function Count(kind: Kind): (n: nat)
    ensures 8 <= n <= 60
  {
    match kind
    case Minute => 60
    case Hour => 24
    case Day => 31
    case Month => 12
    case Dow => 8
  }

  /** `base`, and the smallest entry. */
  function Base(kind: Kind): nat {
    if kind.Day? || kind.Month? then 1 else 0
  }

  /** `!base`. */
  function Shift(kind: Kind): nat {
    1 - Base(kind)
  }

  /** The i-th entry of *_SET; weekdays are 0 to 6, and both "Sun" entries are 0. */
  function At(kind: Kind, i: nat): nat {
    if kind.Dow? then i % 7 else Base(kind) + i
  }

  /** TIMESPEC_ASTERISK, and the "*" of the weekdays. */
  const ASTERISK := 255

  const MONTHS := ["jan", "feb", "mar", "apr", "may", "jun", "jul", "aug", "sep", "oct", "nov", "dec"]
  const DOWS := ["sun", "mon", "tue", "wed", "thu", "fri", "sat", "sun"]

  function Lower(c: char): char {
    if 'A' <= c <= 'Z' then c - 'A' + 'a' else c
  }

  /** The first three characters, in lower case. */
  function Short(s: string): string {
    if |s| >= 3 then [Lower(s[0]), Lower(s[1]), Lower(s[2])]
    else if |s| == 2 then [Lower(s[0]), Lower(s[1])]
    else if |s| == 1 then [Lower(s[0])]
    else []
  }

  /** std::find, from `i` on; the length if there is none. */
  function IndexOf(table: seq<string>, name: string, i: nat): (k: nat)
    requires i <= |table|
    ensures i <= k <= |table| && (k < |table| ==> table[k] == name)
    decreases |table| - i
  {
    if i == |table| || table[i] == name then i else IndexOf(table, name, i + 1)
  }

  /** month_map: a name is looked up when `err` is set, and leaves it set. */
  function MonthMap(s: string, err: bool): (m: Mapped)
    ensures m.value < WORD
  {
    var m := IntMap(s, err);
    if !m.err then m
    else
      var k := IndexOf(MONTHS, Short(s), 0);
      if k < |MONTHS| then Mapped(k + 1, true) else Mapped(0, true)
  }

  function DowMap(s: string, err: bool, to: bool): (m: Mapped)
    ensures m.value < WORD
  {
    var k := IndexOf(DOWS, Short(s), if to then 1 else 0);
    if k < |DOWS| then Mapped(k, err) else IntMap(s, err)
  }

  function Map(kind: Kind, s: string, err: bool, to: bool): (m: Mapped)
    ensures m.value < WORD
  {
    match kind
    case Month => MonthMap(s, err)
    case Dow => DowMap(s, err, to)
    case _ => IntMap(s, err)
  }

  datatype Reason = DoubledSlash | BadStep | DoubledTilde | DoubledDash | OutOfRange

  /** What one list element does. A loop that never ends, and a read outside the table, are
      outcomes of their own. */
  datatype Outcome =
    | Added(values: set<nat>, random: bool)
    | Rejected(why: Reason)
    | Hangs
    | Undefined

  /** Addition of machine words. */
  function Plus(a: nat, b: nat): (r: nat)
    requires a < WORD && b < WORD
    ensures r < WORD
  {
    if a + b < WORD then a + b else a + b - WORD
  }

  /** The entries `i`, `i + step`, ... below `end`, with the addition modulo 2^64. */
  function Collect(kind: Kind, i: nat, end: nat, step: nat): set<nat>
    requires end <= 60 && i < WORD && 1 <= step < WORD
    decreases if step < WORD / 2 then (if i < end then end - i else 0) else i
  {
    if i >= end then {}
    else
      var next := Plus(i, step);
      {At(kind, i)} + (if next < end then Collect(kind, next, end, step) else {})
  }

  /** `value - 1 + !base`, a machine word. */
  function StartIndex(kind: Kind, value: nat): (i: nat)
    requires value < WORD
    ensures i < WORD
  {
    if Base(kind) == 0 then value else if value == 0 then WORD - 1 else value - 1
  }

  /** `value + !base`, a machine word, but no more than `most`. */
  function EndIndex(kind: Kind, value: nat, most: nat): (i: nat)
    requires value < WORD
    ensures i <= most
  {
    Least(Plus(value, Shift(kind)), most)
  }

  /** A range between two numbers, with a step. */
  function Between(kind: Kind, first: nat, last: nat, step: nat): Outcome
    requires first < WORD && last < WORD && step < WORD
  {
    var iStart := StartIndex(kind, first);
    var iEnd := EndIndex(kind, last, Count(kind));
    if iStart >= iEnd then Rejected(OutOfRange)
    else if step == 0 then Hangs
    else Added(Collect(kind, iStart, iEnd, step), false)
  }

  /** A range with both ends named: `start`, `end` are texts, `step` a number. */
  function RangeOutcome(kind: Kind, start: string, end: string, step: nat): Outcome
    requires step < WORD
  {
    var s := Map(kind, start, false, false);
    var e := Map(kind, end, s.err, true);
    if e.err then Rejected(OutOfRange) else Between(kind, s.value, e.value, step)
  }

  function Least(a: nat, b: nat): nat {
    if b < a then b else a
  }

  /** What the random engine gives, brought into a range. */
  function Drawn(first: nat, last: nat, draw: nat): (v: nat)
    requires first <= last
    ensures first <= v <= last
  {
    first + Least(draw, last - first)
  }

  /** One index between two, at random. */
  function Lot(kind: Kind, iStart: nat, iEnd: nat, draw: nat): Outcome
    requires iEnd < Count(kind)
  {
    if iStart > iEnd then Rejected(OutOfRange) else Added({At(kind, Drawn(iStart, iEnd, draw))}, true)
  }

  /** A random range between two numbers, either of which may be left out. */
  function RandomBetween(kind: Kind, fromStart: bool, first: nat, toEnd: bool, last: nat, draw: nat): Outcome
    requires first < WORD && last < WORD
  {
    var max := Count(kind) - 1;
    Lot(kind, if fromStart then Base(kind) else StartIndex(kind, first), if toEnd then max else EndIndex(kind, last, max), draw)
  }

  /** A random range; whether its ends were numbers is not asked. */
  function RandomOutcome(kind: Kind, start: string, end: string, draw: nat): Outcome {
    var s := Map(kind, start, false, false);
    var e := Map(kind, end, start != [] && s.err, true);
    RandomBetween(kind, start == [], s.value, end == [], e.value, draw)
  }

  /** `*` with a step: the index is signed, so that a step of 2^63 or more makes it negative. */
  function StarOutcome(kind: Kind, step: nat): Outcome
    requires step < WORD
  {
    if step == 0 then Hangs
    else if step >= WORD / 2 then Undefined
    else Added(Collect(kind, 0, Count(kind), step), false)
  }

  /** Cut at the first `c`: the part before, and the part after if there is one. */
  function Halves(s: string, c: char): (string, string) {
    var k := Find(s, c);
    if k == |s| then (s, []) else (s[..k], s[k + 1..])
  }

  predicate Has(s: string, c: char) {
    Find(s, c) < |s|
  }

  function Unstepped(kind: Kind, range: string, step: nat, draw: nat): Outcome
    requires step < WORD
  {
    if range == "*" then StarOutcome(kind, step)
    else if Has(range, '~') then
      var (start, end) := Halves(range, '~');
      if Has(end, '~') then Rejected(DoubledTilde) else RandomOutcome(kind, start, end, draw)
    else if Has(range, '-') then
      var (start, end) := Halves(range, '-');
      if Has(end, '-') then Rejected(DoubledDash) else RangeOutcome(kind, start, end, step)
    else RangeOutcome(kind, range, range, step)
  }

  /** parse_period. */
  function Period(kind: Kind, value: string, draw: nat): Outcome {
    if !Has(value, '/') then Unstepped(kind, value, 1, draw)
    else
      var (range, rest) := Halves(value, '/');
      var step := IntMap(rest, false);
      if Has(rest, '/') then Rejected(DoubledSlash)
      else if step.err then Rejected(BadStep)
      else Unstepped(kind, range, step.value, draw)
  }

  /** What a whole field parses to. `draws` gives the random number for each element. */
  datatype Parsed =
    | Values(values: set<nat>, random: bool)
    | Invalid
    | Stuck

  /** Element by element, up to the first that is not simply added. */
  function Merge(outcomes: seq<Outcome>, n: nat, soFar: set<nat>, random: bool): Parsed
    requires n <= |outcomes|
    decreases |outcomes| - n
  {
    if n == |outcomes| then Values(soFar, random)
    else
      match outcomes[n]
      case Added(values, r) => Merge(outcomes, n + 1, soFar + values, random || r)
      case Rejected(_) => Invalid
      case _ => Stuck
  }

  predicate AddedFrom(outcomes: seq<Outcome>, n: nat, v: nat) {
    exists i :: n <= i < |outcomes| && outcomes[i].Added? && v in outcomes[i].values
  }

  ghost predicate AllAdded(outcomes: seq<Outcome>, n: nat) {
    forall i :: n <= i < |outcomes| ==> outcomes[i].Added?
  }

  ghost predicate NoneStuck(outcomes: seq<Outcome>, n: nat) {
    forall i :: n <= i < |outcomes| ==> outcomes[i].Added? || outcomes[i].Rejected?
  }

  /** A list has values just if each of its elements is added, and then the union of all; if one is
      rejected and none hangs, it is invalid. */
  lemma {:induction false} MergeIsUnion(outcomes: seq<Outcome>, n: nat, soFar: set<nat>, random: bool)
    requires n <= |outcomes|
    ensures var r := Merge(outcomes, n, soFar, random);
            if AllAdded(outcomes, n) then
              && r.Values?
              && (r.random <==> random || exists i :: n <= i < |outcomes| && outcomes[i].random)
              && forall v: nat :: v in r.values <==> v in soFar || AddedFrom(outcomes, n, v)
            else !r.Values? && (NoneStuck(outcomes, n) ==> r == Invalid)
    decreases |outcomes| - n
  {
    if n < |outcomes| && outcomes[n].Added? {
      var values := outcomes[n].values;
      MergeIsUnion(outcomes, n + 1, soFar + values, random || outcomes[n].random);
      assert forall v: nat :: AddedFrom(outcomes, n, v) <==> v in values || AddedFrom(outcomes, n + 1, v);
      assert AllAdded(outcomes, n) <==> AllAdded(outcomes, n + 1);
    }
  }

  function Outcomes(kind: Kind, elements: seq<string>, draws: nat -> nat): (outcomes: seq<Outcome>)
    ensures |outcomes| == |elements|
    ensures forall n :: 0 <= n < |elements| ==> outcomes[n] == Period(kind, elements[n], draws(n))
  {
    seq(|elements|, n requires 0 <= n < |elements| => Period(kind, elements[n], draws(n)))
  }

  /** parse_time_unit. */
  function Field(kind: Kind, value: string, draws: nat -> nat): Parsed {
    if value == "*" then Values({ASTERISK}, false)
    else Merge(Outcomes(kind, TokensOf(value, ","), draws), 0, {}, false)
  }

  // ---------------------------------------------------------------- the loops

  /** The index loop over a range. */
  method InsertRange(kind: Kind, iStart: nat, iEnd: nat, step: nat, into: set<nat>)
      returns (result: set<nat>, any: bool)
    requires iEnd <= Count(kind) && iStart < WORD && 1 <= step < WORD
    ensures result == into + Collect(kind, iStart, iEnd, step)
    ensures any <==> iStart < iEnd
  {
    result, any := into, false;
    var i: nat := iStart;
    while i < iEnd
      invariant i < WORD
      invariant result + Collect(kind, i, iEnd, step) == into + Collect(kind, iStart, iEnd, step)
      invariant any || i == iStart
      invariant any ==> iStart < iEnd
      decreases if i >= iEnd then 0 else if step < WORD / 2 then 1 + iEnd - i else 1 + i
    {
      result := result + {At(kind, i)};
      any := true;
      i := Plus(i, step);
    }
  }

  /** A step of zero never leaves the loop: after any number of rounds it is where it began. */
  function Rounds(i: nat, step: nat, n: nat): (r: nat)
    requires i < WORD && step < WORD
    ensures r < WORD
  {
    if n == 0 then i else Plus(Rounds(i, step, n - 1), step)
  }

  lemma {:induction false} ZeroStepNeverEnds(i: nat, n: nat)
    requires i < WORD
    ensures Rounds(i, 0, n) == i
  {
    if n > 0 {
      ZeroStepNeverEnds(i, n - 1);
    }
  }

  /** The end of parse_period: a range with a step, growing the field's set. */
  method ParseRange(kind: Kind, start: string, end: string, step: nat, into: set<nat>)
      returns (result: set<nat>, outcome: Outcome)
    requires step < WORD
    ensures outcome == RangeOutcome(kind, start, end, step)
    ensures result == if outcome.Added? then into + outcome.values else into
  {
    result := into;
    var s := Map(kind, start, false, false);
    var e := Map(kind, end, s.err, true);
    var iStart := StartIndex(kind, s.value);
    var iEnd := EndIndex(kind, e.value, Count(kind));
    if e.err {
      return result, Rejected(OutOfRange);
    }
    if step == 0 {
      return result, if iStart < iEnd then Hangs else Rejected(OutOfRange);
    }
    var any;
    result, any := InsertRange(kind, iStart, iEnd, step, into);
    if any {
      return result, Added(Collect(kind, iStart, iEnd, step), false);
    }
    outcome := Rejected(OutOfRange);
  }

  method ParseUnstepped(kind: Kind, range: string, step: nat, draw: nat, into: set<nat>)
      returns (result: set<nat>, outcome: Outcome)
    requires step < WORD
    ensures outcome == Unstepped(kind, range, step, draw)
    ensures result == if outcome.Added? then into + outcome.values else into
  {
    if range == "*" {
      outcome, result := StarOutcome(kind, step), into;
      if outcome.Added? {
        var any;
        result, any := InsertRange(kind, 0, Count(kind), step, into);
      }
    } else if Has(range, '~') {
      var (start, end) := Halves(range, '~');
      outcome := if Has(end, '~') then Rejected(DoubledTilde) else RandomOutcome(kind, start, end, draw);
      result := if outcome.Added? then into + outcome.values else into;
    } else if Has(range, '-') {
      var (start, end) := Halves(range, '-');
      if Has(end, '-') {
        return into, Rejected(DoubledDash);
      }
      result, outcome := ParseRange(kind, start, end, step, into);
    } else {
      result, outcome := ParseRange(kind, range, range, step, into);
    }
  }

  /** parse_period with its loops. */
  method ParsePeriod(kind: Kind, value: string, draw: nat, into: set<nat>)
      returns (result: set<nat>, outcome: Outcome)
    ensures outcome == Period(kind, value, draw)
    ensures result == if outcome.Added? then into + outcome.values else into
  {
    var range, step := value, 1;
    if Has(value, '/') {
      var (before, rest) := Halves(value, '/');
      if Has(rest, '/') {
        return into, Rejected(DoubledSlash);
      }
      var m := IntMap(rest, false);
      if m.err {
        return into, Rejected(BadStep);
      }
      range, step := before, m.value;
    }
    result, outcome := ParseUnstepped(kind, range, step, draw, into);
  }

  /** parse_time_unit with its loop over the comma-separated elements. */
  method ParseTimeUnit(kind: Kind, value: string, draws: nat -> nat) returns (parsed: Parsed)
    ensures parsed == Field(kind, value, draws)
  {
    if value == "*" {
      return Values({ASTERISK}, false);
    }
    var result, random := {}, false;
    var views := Tokenise(value, ",");
    ghost var elements := TokensOf(value, ",");
    ghost var outcomes := Outcomes(kind, elements, draws);
    var n := 0;
    TokensAreRuns(value, ",", 0, 0);
    while n < |views|
      invariant n <= |views| == |elements|
      invariant Merge(outcomes, n, result, random) == Field(kind, value, draws)
    {
      TokensAreRuns(value, ",", 0, n);
      var subval := Chars(value, views[n]);
      var values, outcome := ParsePeriod(kind, subval, draws(n), result);
      match outcome {
        case Added(_, r) => result, random := values, random || r;
        case Rejected(_) => return Invalid;
        case _ => return Stuck;
      }
      n := n + 1;
    }
    parsed := Values(result, random);
  }
}

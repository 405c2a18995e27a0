/** Names of generated units: generate_unit_name and generate_timer_unit of
    src/bin/systemd-crontab-generator.cpp. MD5 is a parameter, of which only the form of its
    result is known. */
module UnitNames {
  import opened Basics
  import opened Text
  import L = CronLine
  import S = Schedule

  // ---------------------------------------------------------------- what is hashed

  predicate NoNul(s: string) {
    '\0' !in s
  }

  /** The bytes given to MD5: the schedule, then each nonempty word of the command after a NUL. */
  function Preimage(scheduleRaw: string, words: seq<string>): string {
    Join([scheduleRaw] + Nonempty(words), '\0')
  }

  lemma PreimageSnoc(scheduleRaw: string, words: seq<string>, w: string)
    ensures Preimage(scheduleRaw, words + [w]) ==
              if w == [] then Preimage(scheduleRaw, words) else Preimage(scheduleRaw, words) + ['\0'] + w
  {
    NonemptySnoc(words, w);
    var before := [scheduleRaw] + Nonempty(words);
    if w == [] {
      assert Nonempty(words + [w]) == Nonempty(words);
    } else {
      assert [scheduleRaw] + Nonempty(words + [w]) == before + [w];
      JoinSnoc(before, w, '\0');
    }
  }

  /** The MD5Update calls, one after the other. */
  method HashInput(scheduleRaw: string, words: seq<string>) returns (fed: string)
    ensures fed == Preimage(scheduleRaw, words)
  {
    fed := scheduleRaw;
    var n := 0;
    while n < |words|
      invariant n <= |words| && fed == Preimage(scheduleRaw, words[..n])
    {
      PreimageSnoc(scheduleRaw, words[..n], words[n]);
      assert words[..n + 1] == words[..n] + [words[n]];
      if words[n] != [] {
        fed := fed + ['\0'];
        fed := fed + words[n];
      }
      n := n + 1;
    }
    assert words[..n] == words;
  }

  /** Cut at the NULs, the hashed bytes are the schedule and the nonempty words, in their order. */
  lemma PreimageReads(scheduleRaw: string, words: seq<string>)
    requires NoNul(scheduleRaw) && forall i :: 0 <= i < |words| ==> NoNul(words[i])
    ensures Split(Preimage(scheduleRaw, words), '\0') == [scheduleRaw] + Nonempty(words)
  {
    var parts := [scheduleRaw] + Nonempty(words);
    forall i | 0 <= i < |parts|
      ensures NoNul(parts[i])
    {
      if i > 0 {
        assert parts[i] == Nonempty(words)[i - 1];
      }
    }
    SplitJoin(parts, '\0');
  }

  /** Without NULs, the hashed bytes determine the schedule and the words, and nothing else. */
  lemma PreimageInjective(a: string, words: seq<string>, b: string, others: seq<string>)
    requires NoNul(a) && NoNul(b)
    requires (forall i :: 0 <= i < |words| ==> NoNul(words[i])) && forall i :: 0 <= i < |others| ==> NoNul(others[i])
    ensures Preimage(a, words) == Preimage(b, others) <==> a == b && Nonempty(words) == Nonempty(others)
  {
    var parts, more := [a] + Nonempty(words), [b] + Nonempty(others);
    if Preimage(a, words) == Preimage(b, others) {
      PreimageReads(a, words);
      PreimageReads(b, others);
      assert parts == more && parts[0] == a && more[0] == b;
      assert Nonempty(words) == parts[1..] && Nonempty(others) == more[1..];
    }
  }

  // ---------------------------------------------------------------- names

  /** What naming needs of a job. */
  datatype Request = Request(active: bool, jobid: string, persistent: bool, uniqueUnits: bool,
                             scheduleRaw: string, words: seq<string>)

  predicate Hashed(r: Request) {
    r.persistent || r.uniqueUnits
  }

  predicate IsHex(c: char) {
    '0' <= c <= '9' || 'a' <= c <= 'f'
  }

  /** What MD5End writes: 32 hexadecimal digits. */
  ghost predicate IsDigest(md5: string -> string) {
    forall s :: |md5(s)| == 32 && forall i :: 0 <= i < 32 ==> IsHex(md5(s)[i])
  }

  function Prefixed(jobid: string, suffix: string): string {
    "cron-" + jobid + "-" + suffix
  }

  function HashedName(r: Request, md5: string -> string): string {
    Prefixed(r.jobid, md5(Preimage(r.scheduleRaw, r.words)))
  }

  /** `seq++` on a 64-bit word. */
  function Increment(k: nat): nat {
    if k + 1 == WORD then 0 else k + 1
  }

  predicate Counts(r: Request, jobid: string) {
    r.active && !Hashed(r) && r.jobid == jobid
  }

  /** A jobid's counter before the n-th job. */
  function Counter(rs: seq<Request>, n: nat, jobid: string): (k: nat)
    requires n <= |rs|
    ensures k <= n
  {
    if n == 0 then 0
    else if Counts(rs[n - 1], jobid) then Increment(Counter(rs, n - 1, jobid))
    else Counter(rs, n - 1, jobid)
  }

  function NameOf(r: Request, count: nat, md5: string -> string): string {
    if Hashed(r) then HashedName(r, md5) else Prefixed(r.jobid, Decimal(count))
  }

  /** The n-th unit's name, if it gets one. */
  function UnitName(rs: seq<Request>, n: nat, md5: string -> string): string
    requires n < |rs|
  {
    NameOf(rs[n], Counter(rs, n, rs[n].jobid), md5)
  }

  function Named(rs: seq<Request>, n: nat, md5: string -> string): Option<string>
    requires n < |rs|
  {
    if rs[n].active then Some(UnitName(rs, n, md5)) else None
  }

  /** The map `seqs` of generate_timer_unit, kept for a whole run of the generator. */
  class Namer {
    var seqs: map<string, nat>

    function Next(jobid: string): nat
      reads this
    {
      if jobid in seqs then seqs[jobid] else 0
    }

    constructor ()
      ensures forall jobid :: Next(jobid) == 0
    {
      seqs := map[];
    }

    method GenerateUnitName(r: Request, md5: string -> string) returns (name: string)
      modifies this
      ensures name == NameOf(r, old(Next(r.jobid)), md5)
      ensures name == "cron-" + r.jobid + "-" + if r.persistent || r.uniqueUnits then md5(Preimage(r.scheduleRaw, r.words))
                                                else Decimal(old(Next(r.jobid)))
      ensures forall jobid :: Next(jobid) ==
                if jobid == r.jobid && !r.persistent && !r.uniqueUnits then Increment(old(Next(jobid))) else old(Next(jobid))
    {
      var count := Next(r.jobid);
      seqs := seqs[r.jobid := count];
      if !Hashed(r) {
        name := Prefixed(r.jobid, Decimal(count));
        seqs := seqs[r.jobid := Increment(count)];
      } else {
        var input := HashInput(r.scheduleRaw, r.words);
        name := Prefixed(r.jobid, md5(input));
      }
    }
  }

  /** A whole run: every active job is named, in order. */
  method NameAll(rs: seq<Request>, md5: string -> string) returns (names: seq<Option<string>>)
    ensures |names| == |rs|
    ensures forall n :: 0 <= n < |rs| ==> names[n] == Named(rs, n, md5)
  {
    names := [];
    var namer := new Namer();
    var n := 0;
    while n < |rs|
      invariant n <= |rs| && |names| == n
      invariant forall jobid :: namer.Next(jobid) == Counter(rs, n, jobid)
      invariant forall k :: 0 <= k < n ==> names[k] == Named(rs, k, md5)
    {
      assert namer.Next(rs[n].jobid) == Counter(rs, n, rs[n].jobid);
      if rs[n].active {
        var name := namer.GenerateUnitName(rs[n], md5);
        names := names + [Some(name)];
      } else {
        names := names + [None];
      }
      n := n + 1;
    }
  }

  // ---------------------------------------------------------------- no two alike

  lemma {:induction false} CounterGrows(rs: seq<Request>, m: nat, n: nat)
    requires m < n <= |rs| < WORD && Counts(rs[m], rs[m].jobid)
    ensures Counter(rs, m, rs[m].jobid) < Counter(rs, n, rs[m].jobid)
    decreases n - m
  {
    if m + 1 < n {
      CounterGrows(rs, m, n - 1);
    }
  }

  /** The numbered jobs of a jobid among the first n. */
  function Numbered(rs: seq<Request>, n: nat, jobid: string): set<nat>
    requires n <= |rs|
  {
    set i | 0 <= i < n && rs[i].active && !rs[i].persistent && !rs[i].uniqueUnits && rs[i].jobid == jobid
  }

  /** A numbered job's number is how many of its jobid were numbered before it. */
  lemma {:induction false} CounterIsCount(rs: seq<Request>, n: nat, jobid: string)
    requires n <= |rs| < WORD
    ensures Counter(rs, n, jobid) == |Numbered(rs, n, jobid)|
  {
    if n > 0 {
      CounterIsCount(rs, n - 1, jobid);
      var before := Numbered(rs, n - 1, jobid);
      assert Numbered(rs, n, jobid) == if Counts(rs[n - 1], jobid) then before + {n - 1} else before;
    } else {
      assert Numbered(rs, 0, jobid) == {};
    }
  }

  lemma DecimalInjective(a: nat, b: nat)
    requires Decimal(a) == Decimal(b)
    ensures a == b
  {
  }

  lemma Middle(a: string, c: char, b: string)
    ensures var s := a + [c] + b;
            |s| == |a| + 1 + |b| && s[|a|] == c && s[..|a|] == a && s[|a| + 1..] == b
  {
  }

  lemma LastDash(jobid: string, suffix: string)
    requires '-' !in suffix
    ensures var name, front := Prefixed(jobid, suffix), "cron-" + jobid;
            && |name| == |front| + 1 + |suffix| && name[|front|] == '-'
            && (forall k :: |front| < k < |name| ==> name[k] != '-')
            && name[..|front|] == front && name[|front| + 1..] == suffix
  {
    var name, front := Prefixed(jobid, suffix), "cron-" + jobid;
    assert name == front + ['-'] + suffix;
    Middle(front, '-', suffix);
    forall k | |front| < k < |name|
      ensures name[k] != '-'
    {
      assert name[k] == name[|front| + 1..][k - |front| - 1];
    }
  }

  /** A suffix without dashes can be told from the rest. */
  lemma PrefixedInjective(a: string, s: string, b: string, t: string)
    requires '-' !in s && '-' !in t && Prefixed(a, s) == Prefixed(b, t)
    ensures a == b && s == t
  {
    LastDash(a, s);
    LastDash(b, t);
    var name := Prefixed(a, s);
    assert name[5 + |a|] == '-' == name[5 + |b|];
    assert |a| == |b|;
    assert ("cron-" + a)[5..] == a && ("cron-" + b)[5..] == b;
  }

  function Power(k: nat): nat {
    if k == 0 then 1 else 10 * Power(k - 1)
  }

  lemma {:induction false} DecimalLength(v: nat, k: nat)
    requires k >= 1 && v < Power(k)
    ensures |Decimal(v)| <= k
    decreases v
  {
    if v >= 10 {
      assert k >= 2;
      DecimalLength(v / 10, k - 1);
    }
  }

  lemma {:induction false} PowerAdds(a: nat, b: nat)
    ensures Power(a + b) == Power(a) * Power(b)
  {
    if a > 0 {
      PowerAdds(a - 1, b);
    }
  }

  lemma WordLength(v: nat)
    requires v < WORD
    ensures |Decimal(v)| <= 20
  {
    assert Power(5) == 100_000;
    PowerAdds(5, 5);
    PowerAdds(10, 10);
    DecimalLength(v, 20);
  }

  lemma HexHasNoDash(s: string)
    requires forall i :: 0 <= i < |s| ==> IsHex(s[i])
    ensures '-' !in s
  {
  }

  lemma NumberIsNoDigest(jobid: string, count: nat, other: string, digest: string)
    requires count < WORD && |digest| == 32 && forall i :: 0 <= i < 32 ==> IsHex(digest[i])
    ensures Prefixed(jobid, Decimal(count)) != Prefixed(other, digest)
  {
    WordLength(count);
    HexHasNoDash(digest);
    if Prefixed(jobid, Decimal(count)) == Prefixed(other, digest) {
      PrefixedInjective(jobid, Decimal(count), other, digest);
    }
  }

  lemma NumbersDiffer(jobid: string, a: nat, other: string, b: nat)
    requires jobid == other ==> a != b
    ensures Prefixed(jobid, Decimal(a)) != Prefixed(other, Decimal(b))
  {
    if Prefixed(jobid, Decimal(a)) == Prefixed(other, Decimal(b)) {
      PrefixedInjective(jobid, Decimal(a), other, Decimal(b));
      DecimalInjective(a, b);
    }
  }

  /** Over a whole run, no numbered unit has the name of any other unit, numbered or hashed, as
      long as fewer than 2^64 units are made. */
  lemma NumberedNamesDistinct(rs: seq<Request>, m: nat, n: nat, md5: string -> string)
    requires |rs| < WORD && IsDigest(md5)
    requires m < |rs| && n < |rs| && m != n && rs[m].active && rs[n].active && !Hashed(rs[m])
    ensures UnitName(rs, m, md5) != UnitName(rs, n, md5)
  {
    var a := Counter(rs, m, rs[m].jobid);
    if Hashed(rs[n]) {
      NumberIsNoDigest(rs[m].jobid, a, rs[n].jobid, md5(Preimage(rs[n].scheduleRaw, rs[n].words)));
    } else {
      if rs[m].jobid == rs[n].jobid {
        if m < n {
          CounterGrows(rs, m, n);
        } else {
          CounterGrows(rs, n, m);
        }
      }
      NumbersDiffer(rs[m].jobid, a, rs[n].jobid, Counter(rs, n, rs[n].jobid));
    }
  }

  // ---------------------------------------------------------------- names and schedules

  /** schedule_raw of a compiled line: empty unless the job is persistent. */
  function ScheduleRaw(c: L.Compiled, persistent: bool): string
    requires c.Ready?
  {
    if persistent then L.RawSchedule(c.sp, c.raws) else []
  }

  function RequestFor(l: L.Line, jobid: string, persistent: bool, uniqueUnits: bool, words: seq<string>, draws: L.Draws): Request {
    var c := L.Compile(l, persistent, draws);
    if c.Ready? then Request(true, jobid, persistent, uniqueUnits, ScheduleRaw(c, persistent), words)
    else Request(false, jobid, persistent, uniqueUnits, [], words)
  }

  /** A persistent job's hashed name does not depend on what was drawn at random. */
  lemma HashedNameIsStable(l: L.Line, jobid: string, uniqueUnits: bool, words: seq<string>,
                           x: L.Draws, y: L.Draws, md5: string -> string)
    ensures var r, q := RequestFor(l, jobid, true, uniqueUnits, words, x), RequestFor(l, jobid, true, uniqueUnits, words, y);
            r == q && HashedName(r, md5) == HashedName(q, md5)
  {
    L.NameIsStable(l, x, y);
  }

  lemma CommaListHasNoNul(values: set<nat>)
    ensures NoNul(S.CommaList(values))
  {
    var names := S.Names(S.Ascending(values));
    forall i | 0 <= i < |names|
      ensures '\0' !in names[i]
    {
      assert Numeral(Decimal(S.Ascending(values)[i]));
    }
    JoinLacks(names, ',', '\0');
  }

  lemma WeekdayTextHasNoNul(sp: S.Spec)
    ensures NoNul(S.WeekdayText(sp))
  {
    var names := S.DayNames(S.Weekdays(sp));
    var w := S.DOWS_SET;
    assert w[0] == "Sun" && w[1] == "Mon" && w[2] == "Tue" && w[3] == "Wed" && w[4] == "Thu" && w[5] == "Fri" && w[6] == "Sat";
    forall i | 0 <= i < |names|
      ensures '\0' !in names[i]
    {
      assert names[i] == w[S.Weekdays(sp)[i]];
    }
    JoinLacks(names, ',', '\0');
  }

  predicate LineHasNoNul(l: L.Line) {
    NoNul(l.minute) && NoNul(l.hour) && NoNul(l.days) && NoNul(l.months) && NoNul(l.dows)
  }

  lemma RawTextHasNoNul(dow: string, month: string, fromEnd: bool, dom: string, lastDow: bool, hour: string, minute: string)
    requires NoNul(dow) && NoNul(month) && NoNul(dom) && NoNul(hour) && NoNul(minute)
    ensures NoNul(L.RawText(dow, month, fromEnd, dom, lastDow, hour, minute))
  {
  }

  lemma RawListHasNoNul(values: set<nat>, raw: Option<string>)
    requires raw.Some? ==> NoNul(raw.value)
    ensures NoNul(L.RawList(values, raw))
  {
    CommaListHasNoNul(values);
  }

  predicate RawsHaveNoNul(raws: L.Raws) {
    && (raws.minute.Some? ==> NoNul(raws.minute.value)) && (raws.hour.Some? ==> NoNul(raws.hour.value))
    && (raws.dom.Some? ==> NoNul(raws.dom.value)) && (raws.dow.Some? ==> NoNul(raws.dow.value))
    && (raws.month.Some? ==> NoNul(raws.month.value))
  }

  lemma RawScheduleHasNoNul(sp: S.Spec, raws: L.Raws)
    requires RawsHaveNoNul(raws)
    ensures NoNul(L.RawSchedule(sp, raws))
  {
    RawListHasNoNul(sp.minute, raws.minute);
    RawListHasNoNul(sp.hour, raws.hour);
    RawListHasNoNul(sp.dom, raws.dom);
    RawListHasNoNul(sp.month, raws.month);
    WeekdayTextHasNoNul(sp);
    RawTextHasNoNul(L.RawWeekdays(sp, raws.dow), L.RawList(sp.month, raws.month), sp.lastDow || sp.lastDom,
                    L.RawList(sp.dom, raws.dom), sp.lastDow, L.RawList(sp.hour, raws.hour), L.RawList(sp.minute, raws.minute));
  }

  lemma ScheduleRawHasNoNul(l: L.Line, persistent: bool, draws: L.Draws)
    requires LineHasNoNul(l) && L.Compile(l, persistent, draws).Ready?
    ensures NoNul(ScheduleRaw(L.Compile(l, persistent, draws), persistent))
  {
    var c := L.Compile(l, persistent, draws);
    assert LineHasNoNul(L.Effective(l));
    RawScheduleHasNoNul(c.sp, c.raws);
  }

  /** CRON_UNIQUE_UNITS without PERSISTENT hashes the command alone: whatever their schedules,
      two jobs of one jobid with the same words get the same name. With PERSISTENT they do just
      if the schedules are written the same, unless MD5 collides. */
  lemma SharedNames(l: L.Line, k: L.Line, jobid: string, persistent: bool, words: seq<string>, x: L.Draws, y: L.Draws)
    requires L.Compile(l, persistent, x).Ready? && L.Compile(k, persistent, y).Ready?
    requires forall i :: 0 <= i < |words| ==> NoNul(words[i])
    requires LineHasNoNul(l) && LineHasNoNul(k)
    ensures var r, q := RequestFor(l, jobid, persistent, true, words, x), RequestFor(k, jobid, persistent, true, words, y);
            Preimage(r.scheduleRaw, r.words) == Preimage(q.scheduleRaw, q.words)
            <==> !persistent || L.RawSchedule(L.Compile(l, persistent, x).sp, L.Compile(l, persistent, x).raws)
                                == L.RawSchedule(L.Compile(k, persistent, y).sp, L.Compile(k, persistent, y).raws)
  {
    ScheduleRawHasNoNul(l, persistent, x);
    ScheduleRawHasNoNul(k, persistent, y);
    PreimageInjective(ScheduleRaw(L.Compile(l, persistent, x), persistent), words,
                      ScheduleRaw(L.Compile(k, persistent, y), persistent), words);
  }
}

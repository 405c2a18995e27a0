/** One look at the other units, as src/bin/throttle_group.cpp takes it: a snapshot of unit
    states, then property replies that arrive in any order and may cut the survey short. */
module Survey {
  import opened Basics
  import opened Timespecs

  const BLANKING := Timespec(300, 0)

  type Unit = nat
  type Argv = seq<string>

  /** `struct listed_unit`: the snapshot, which replies came, and how long to sleep for it. */
  datatype Listed = Listed(unit: Unit, active: string, sub: string, answered: bool, asked: bool,
                           start: Option<Instant>, exit: Option<Instant>, result: Instant)

  datatype Survey = Survey(self: string, group: string, now: Instant, winner: Option<nat>,
                           units: seq<Listed>)

  /** A property reply about the k-th listed unit. */
  datatype Reply =
    | Commands(k: nat, commands: seq<Argv>)
    | Started(k: nat, usec: nat)
    | Exited(k: nat, usec: nat)

  datatype Verdict = Sleep(duration: Instant) | Proceed

  /** `argv[0] argv[1]`, or `argv[0] -- argv[1]`. */
  predicate Names(argv: Argv, self: string, group: string) {
    && |argv| >= 2 && argv[0] == self
    && if argv[1] == "--" then |argv| >= 3 && argv[2] == group else argv[1] == group
  }

  predicate InGroup(commands: seq<Argv>, self: string, group: string) {
    exists i :: 0 <= i < |commands| && Names(commands[i], self, group)
  }

  /** States in which a unit's main process runs; start-pre is where the helpers wait. */
  predicate Busy(active: string, sub: string) {
    (active == "activating" && sub != "start-pre") || active == "active" || active == "reloading"
  }

  function Fresh(unit: Unit, active: string, sub: string): Listed {
    Listed(unit, active, sub, false, false, None, None, ZERO)
  }

  /** A reply the bus may deliver now: each was requested, and comes once. */
  predicate Acceptable(s: Survey, r: Reply) {
    && s.winner.None? && r.k < |s.units|
    && match r
       case Commands(k, _) => !s.units[k].answered && !s.units[k].asked
       case Started(k, _) => s.units[k].asked && s.units[k].start.None?
       case Exited(k, _) => s.units[k].asked && s.units[k].exit.None?
  }

  /** Nothing is pending any more, or the answer is known. */
  predicate Finished(s: Survey) {
    s.winner.Some? ||
    forall k :: 0 <= k < |s.units| ==>
      s.units[k].answered && (s.units[k].asked ==> s.units[k].start.Some? && s.units[k].exit.Some?)
  }

  function Remaining(now: Instant, exit: Instant): (r: Instant)
    ensures Nanos(r) == Nanos(BLANKING) - (Nanos(now) - Nanos(exit))
  {
    Minus(BLANKING, Minus(now, exit))
  }

  /** Once both timestamps are in: running after all, or exited a while ago. */
  function Judged(s: Survey, k: nat): Survey
    requires k < |s.units|
  {
    var u := s.units[k];
    if u.start.None? || u.exit.None? then s
    else if Greater(u.start.value, u.exit.value) then
      s.(units := s.units[k := u.(result := BLANKING)], winner := Some(k))
    else
      s.(units := s.units[k := u.(result := Remaining(s.now, u.exit.value))])
  }

  function Absorb(s: Survey, r: Reply): Survey
    requires Acceptable(s, r)
  {
    var u := s.units[r.k];
    match r
    case Commands(k, commands) =>
      var v := u.(answered := true);
      if !InGroup(commands, s.self, s.group) then s.(units := s.units[k := v])
      else if Busy(u.active, u.sub) then
        s.(units := s.units[k := v.(result := BLANKING)], winner := Some(k))
      else s.(units := s.units[k := v.(asked := true)])
    case Started(k, usec) =>
      Judged(s.(units := s.units[k := u.(start := Some(OfMicros(usec)))]), k)
    case Exited(k, usec) =>
      Judged(s.(units := s.units[k := u.(exit := Some(OfMicros(usec)))]), k)
  }

  /** std::max over the results, starting from zero. */
  function Longest(units: seq<Listed>): (longest: Instant)
    ensures 0 <= Nanos(longest)
    ensures forall k :: 0 <= k < |units| ==> Nanos(units[k].result) <= Nanos(longest)
    ensures longest == ZERO || exists k :: 0 <= k < |units| && longest == units[k].result
  {
    if units == [] then ZERO
    else
      var acc := Longest(units[..|units| - 1]);
      var result := units[|units| - 1].result;
      if Less(result, acc) then acc else result
  }

  function Outcome(s: Survey): Verdict {
    if s.winner.Some? && s.winner.value < |s.units| then Sleep(s.units[s.winner.value].result)
    else
      var sleep := Longest(s.units);
      if sleep.sec != 0 || sleep.nsec != 0 then Sleep(sleep) else Proceed
  }

  // ------------------------------------------------------------ what a survey keeps

  /** What one listed unit's fields say, whichever replies have come so far; `member` tells
      whether its commands name the group. */
  predicate ListedOk(s: Survey, k: nat, member: bool)
    requires k < |s.units|
  {
    var u := s.units[k];
    && (u.asked ==> u.answered && member && !Busy(u.active, u.sub))
    && (u.answered && member ==> u.asked || (s.winner == Some(k) && Busy(u.active, u.sub)))
    && (!u.asked ==> u.start.None? && u.exit.None?)
    && (s.winner != Some(k) ==>
          u.result ==
            if u.start.Some? && u.exit.Some? then Remaining(s.now, u.exit.value) else ZERO)
    && (s.winner != Some(k) && u.start.Some? && u.exit.Some? ==>
          Nanos(u.start.value) <= Nanos(u.exit.value))
    && (s.winner == Some(k) ==> u.result == BLANKING && member)
    && (s.winner == Some(k) && !Busy(u.active, u.sub) ==>
          u.start.Some? && u.exit.Some? && Nanos(u.start.value) > Nanos(u.exit.value))
  }

  ghost predicate Consistent(s: Survey, members: seq<bool>) {
    && |members| == |s.units|
    && (s.winner.Some? ==> s.winner.value < |s.units|)
    && forall k :: 0 <= k < |s.units| ==> ListedOk(s, k, members[k])
  }

  lemma AbsorbKeepsConsistent(s: Survey, r: Reply, members: seq<bool>)
    requires Consistent(s, members) && Acceptable(s, r)
    requires r.Commands? ==> members[r.k] == InGroup(r.commands, s.self, s.group)
    ensures Consistent(Absorb(s, r), members)
  {
    var s' := Absorb(s, r);
    assert ListedOk(s, r.k, members[r.k]);
    forall k | 0 <= k < |s'.units|
      ensures ListedOk(s', k, members[k])
    {
      if k != r.k {
        assert ListedOk(s, k, members[k]) && s'.units[k] == s.units[k];
      }
    }
  }

  /** A finished survey lets the job go only if every group unit was seen not running and
      exited at least the blanking interval ago. */
  lemma ProceedMeansQuiet(s: Survey, members: seq<bool>, k: nat)
    requires Consistent(s, members) && Finished(s) && Outcome(s) == Proceed
    requires k < |s.units| && members[k]
    ensures var u := s.units[k];
            && !Busy(u.active, u.sub)
            && u.start.Some? && u.exit.Some? && Nanos(u.start.value) <= Nanos(u.exit.value)
            && Nanos(u.exit.value) + Nanos(BLANKING) <= Nanos(s.now)
  {
    assert s.winner.None?;
    assert ListedOk(s, k, members[k]);
    assert Nanos(s.units[k].result) <= Nanos(Longest(s.units));
  }

  // ------------------------------------------------------------ confluence

  /** What systemd would say about one unit, throughout one survey. */
  datatype Facts = Facts(unit: Unit, active: string, sub: string, commands: seq<Argv>,
                         startUs: nat, exitUs: nat)

  function Opened(self: string, group: string, now: Instant, world: seq<Facts>): Survey {
    Survey(self, group, now, None,
           seq(|world|, k requires 0 <= k < |world| => Fresh(world[k].unit, world[k].active, world[k].sub)))
  }

  predicate Truthful(world: seq<Facts>, r: Reply) {
    && r.k < |world|
    && match r
       case Commands(k, commands) => commands == world[k].commands
       case Started(k, usec) => usec == world[k].startUs
       case Exited(k, usec) => usec == world[k].exitUs
  }

  /** The replies are true, and each could be delivered when it was. */
  predicate Deliverable(s: Survey, world: seq<Facts>, replies: seq<Reply>)
    decreases |replies|
  {
    replies == [] ||
    (Acceptable(s, replies[0]) && Truthful(world, replies[0])
     && Deliverable(Absorb(s, replies[0]), world, replies[1..]))
  }

  function AbsorbAll(s: Survey, world: seq<Facts>, replies: seq<Reply>): Survey
    requires Deliverable(s, world, replies)
    decreases |replies|
  {
    if replies == [] then s else AbsorbAll(Absorb(s, replies[0]), world, replies[1..])
  }

  /** The command line `self group`, or `self -- group`, with anything after it. */
  predicate Invokes(argv: Argv, self: string, group: string) {
    (group != "--" && [self, group] <= argv) || [self, "--", group] <= argv
  }

  predicate Belongs(commands: seq<Argv>, self: string, group: string) {
    exists i :: 0 <= i < |commands| && Invokes(commands[i], self, group)
  }

  lemma InvokesExactly(argv: Argv, self: string, group: string)
    ensures Names(argv, self, group) <==> Invokes(argv, self, group)
  {
    assert [self, group] <= argv <==> |argv| >= 2 && argv[0] == self && argv[1] == group;
    assert [self, "--", group] <= argv <==> |argv| >= 3 && argv[0] == self && argv[1] == "--" && argv[2] == group;
  }

  lemma BelongsExactly(commands: seq<Argv>, self: string, group: string)
    ensures InGroup(commands, self, group) <==> Belongs(commands, self, group)
  {
    forall i | 0 <= i < |commands|
      ensures Names(commands[i], self, group) <==> Invokes(commands[i], self, group)
    {
      InvokesExactly(commands[i], self, group);
    }
  }

  predicate Member(f: Facts, self: string, group: string) {
    Belongs(f.commands, self, group)
  }

  /** A unit whose job runs, by the state it shows or by its timestamps; one that shows
      activating/start-pre waits as this one does. */
  predicate Running(f: Facts) {
    || f.active == "active" || f.active == "reloading"
    || (f.active == "activating" && f.sub != "start-pre")
    || f.startUs > f.exitUs
  }

  /** What is left of five minutes after a unit's exit, in nanoseconds. */
  function Left(f: Facts, now: Instant): int {
    300_000_000_000 - (Nanos(now) - f.exitUs * 1000)
  }

  /** The right answer, with no mention of replies or their order. */
  ghost predicate Expected(self: string, group: string, now: Instant, world: seq<Facts>, v: Verdict) {
    if exists k :: 0 <= k < |world| && Member(world[k], self, group) && Running(world[k]) then
      v == Sleep(Timespec(300, 0))
    else if forall k :: 0 <= k < |world| && Member(world[k], self, group) ==> Left(world[k], now) <= 0 then
      v == Proceed
    else
      && v.Sleep?
      && (forall k :: 0 <= k < |world| && Member(world[k], self, group) ==>
            Left(world[k], now) <= Nanos(v.duration))
      && (exists k :: 0 <= k < |world| && Member(world[k], self, group) &&
            Left(world[k], now) == Nanos(v.duration))
  }

  /** By the states that systemd shows: units of the group that wait in start-pre, or are inactive
      or failed, and whose last run ended five minutes ago, hold nobody up, however many there
      are; one that is active or reloading, or activating in any other way, always does. */
  lemma StatesDecide(self: string, group: string, now: Instant, world: seq<Facts>, v: Verdict)
    requires Expected(self, group, now, world, v)
    ensures (forall k :: 0 <= k < |world| && Member(world[k], self, group) ==>
               && (world[k].active in {"inactive", "failed"} || (world[k].active == "activating" && world[k].sub == "start-pre"))
               && world[k].startUs <= world[k].exitUs && world[k].exitUs * 1000 + 300_000_000_000 <= Nanos(now))
            ==> v == Proceed
    ensures (exists k :: 0 <= k < |world| && Member(world[k], self, group) &&
               (world[k].active in {"active", "reloading"} || (world[k].active == "activating" && world[k].sub != "start-pre")))
            ==> v == Sleep(Timespec(300, 0))
  {
  }

  lemma ExpectedUnique(self: string, group: string, now: Instant, world: seq<Facts>, v: Verdict, w: Verdict)
    requires Expected(self, group, now, world, v) && Expected(self, group, now, world, w)
    ensures v == w
  {
    if v.Sleep? && w.Sleep? {
      NanosInjective(v.duration, w.duration);
    }
  }

  function Members(self: string, group: string, world: seq<Facts>): (ms: seq<bool>)
    ensures |ms| == |world|
  {
    seq(|world|, k requires 0 <= k < |world| => Member(world[k], self, group))
  }

  predicate FieldsTrue(u: Listed, f: Facts) {
    && u.active == f.active && u.sub == f.sub
    && (u.start.Some? ==> u.start.value == OfMicros(f.startUs))
    && (u.exit.Some? ==> u.exit.value == OfMicros(f.exitUs))
  }

  ghost predicate Tracks(s: Survey, world: seq<Facts>) {
    && Consistent(s, Members(s.self, s.group, world))
    && forall k :: 0 <= k < |s.units| ==> FieldsTrue(s.units[k], world[k])
  }

  lemma AbsorbKeepsTracks(s: Survey, r: Reply, world: seq<Facts>)
    requires Tracks(s, world) && Acceptable(s, r) && Truthful(world, r)
    ensures Tracks(Absorb(s, r), world)
  {
    BelongsExactly(world[r.k].commands, s.self, s.group);
    AbsorbKeepsConsistent(s, r, Members(s.self, s.group, world));
    assert FieldsTrue(s.units[r.k], world[r.k]);
  }

  lemma {:induction false} AbsorbAllKeepsTracks(s: Survey, world: seq<Facts>, replies: seq<Reply>)
    requires Tracks(s, world) && Deliverable(s, world, replies)
    ensures var s' := AbsorbAll(s, world, replies);
            Tracks(s', world) && s'.now == s.now && s'.self == s.self && s'.group == s.group
    decreases |replies|
  {
    if replies != [] {
      AbsorbKeepsTracks(s, replies[0], world);
      AbsorbAllKeepsTracks(Absorb(s, replies[0]), world, replies[1..]);
    }
  }

  /** A cut-short survey sleeps the whole interval, and only because a group unit runs. */
  lemma DecidedIsExpected(s: Survey, world: seq<Facts>)
    requires Tracks(s, world) && s.winner.Some?
    ensures Expected(s.self, s.group, s.now, world, Outcome(s))
  {
    var k := s.winner.value;
    assert ListedOk(s, k, Members(s.self, s.group, world)[k]);
    assert FieldsTrue(s.units[k], world[k]);
    assert Member(world[k], s.self, s.group) && Running(world[k]);
  }

  lemma QuietUnit(s: Survey, world: seq<Facts>, k: nat)
    requires Tracks(s, world) && Finished(s) && s.winner.None? && k < |world|
    ensures Member(world[k], s.self, s.group) ==>
              !Running(world[k]) && Nanos(s.units[k].result) == Left(world[k], s.now)
    ensures !Member(world[k], s.self, s.group) ==> s.units[k].result == ZERO
  {
    assert ListedOk(s, k, Members(s.self, s.group, world)[k]);
    assert FieldsTrue(s.units[k], world[k]);
  }

  lemma GatheredIsExpected(s: Survey, world: seq<Facts>)
    requires Tracks(s, world) && Finished(s) && s.winner.None?
    ensures Expected(s.self, s.group, s.now, world, Outcome(s))
  {
    forall k | 0 <= k < |world|
      ensures Member(world[k], s.self, s.group) ==>
                !Running(world[k]) && Nanos(s.units[k].result) == Left(world[k], s.now)
      ensures !Member(world[k], s.self, s.group) ==> s.units[k].result == ZERO
    {
      QuietUnit(s, world, k);
    }
    var longest := Longest(s.units);
    assert forall k :: 0 <= k < |world| && Member(world[k], s.self, s.group) ==>
        Left(world[k], s.now) == Nanos(s.units[k].result) <= Nanos(longest);
    if longest == ZERO {
      assert Outcome(s) == Proceed;
    } else {
      var k :| 0 <= k < |s.units| && longest == s.units[k].result;
      assert Member(world[k], s.self, s.group);
      if Nanos(longest) == 0 {
        NanosInjective(longest, ZERO);
      }
    }
  }

  /** Confluence: for every set of units and every order in which the replies come, with
      short-circuiting, a finished survey gives the one expected answer. */
  lemma SurveyConfluent(self: string, group: string, now: Instant, world: seq<Facts>, replies: seq<Reply>)
    requires Deliverable(Opened(self, group, now, world), world, replies)
    requires Finished(AbsorbAll(Opened(self, group, now, world), world, replies))
    ensures Expected(self, group, now, world,
                     Outcome(AbsorbAll(Opened(self, group, now, world), world, replies)))
  {
    var s := Opened(self, group, now, world);
    assert Tracks(s, world);
    AbsorbAllKeepsTracks(s, world, replies);
    var s' := AbsorbAll(s, world, replies);
    if s'.winner.Some? {
      DecidedIsExpected(s', world);
    } else {
      GatheredIsExpected(s', world);
    }
  }

  /** How many more replies a unit can bring. */
  function Due(u: Listed): nat {
    (if u.answered then 0 else 3) + (if u.asked && u.start.None? then 1 else 0) + (if u.asked && u.exit.None? then 1 else 0)
  }

  function AllDue(units: seq<Listed>): nat {
    if units == [] then 0 else AllDue(units[..|units| - 1]) + Due(units[|units| - 1])
  }

  lemma {:induction false} AllDueUpdated(units: seq<Listed>, k: nat, u: Listed)
    requires k < |units|
    ensures AllDue(units[k := u]) == AllDue(units) - Due(units[k]) + Due(u)
  {
    var n := |units| - 1;
    if k < n {
      assert units[k := u][..n] == units[..n][k := u];
      AllDueUpdated(units[..n], k, u);
    } else {
      assert units[k := u][..n] == units[..n];
    }
  }

  /** A survey never hangs: until it is finished some true reply can be delivered, and each one
      delivered leaves fewer to come. */
  lemma SurveyProgresses(s: Survey, world: seq<Facts>)
    requires Tracks(s, world)
    ensures Finished(s) || exists r :: Acceptable(s, r) && Truthful(world, r)
    ensures forall r :: Acceptable(s, r) ==> AllDue(Absorb(s, r).units) < AllDue(s.units)
  {
    if !Finished(s) {
      var k :| 0 <= k < |s.units| && !(s.units[k].answered && (s.units[k].asked ==> s.units[k].start.Some? && s.units[k].exit.Some?));
      assert ListedOk(s, k, Members(s.self, s.group, world)[k]);
      var r := if !s.units[k].answered then Commands(k, world[k].commands)
               else if s.units[k].start.None? then Started(k, world[k].startUs)
               else Exited(k, world[k].exitUs);
      assert Acceptable(s, r) && Truthful(world, r);
    }
    forall r | Acceptable(s, r)
      ensures AllDue(Absorb(s, r).units) < AllDue(s.units)
    {
      assert ListedOk(s, r.k, Members(s.self, s.group, world)[r.k]);
      AbsorbUpdatesOne(s, r);
      AllDueUpdated(s.units, r.k, Absorb(s, r).units[r.k]);
    }
  }

  lemma AbsorbUpdatesOne(s: Survey, r: Reply)
    requires Acceptable(s, r) && (s.units[r.k].asked ==> s.units[r.k].answered)
    ensures |Absorb(s, r).units| == |s.units|
    ensures Absorb(s, r).units == s.units[r.k := Absorb(s, r).units[r.k]]
    ensures Due(Absorb(s, r).units[r.k]) < Due(s.units[r.k])
  {
  }

  // ------------------------------------------------------------ the callbacks themselves

  /** The survey as the program holds it: globals `now` and `winner`, and a list of units
      whose fields the callbacks fill in. */
  class Inquiry {
    const self: string
    const group: string
    const now: Instant
    var winner: Option<nat>
    var units: seq<Listed>

    function Value(): Survey
      reads this
    {
      Survey(self, group, now, winner, units)
    }

    constructor (self: string, group: string, now: Instant, world: seq<Facts>)
      ensures Value() == Opened(self, group, now, world)
    {
      this.self, this.group, this.now := self, group, now;
      winner := None;
      units := Opened(self, group, now, world).units;
    }

    /** The ExecStartPre reply: look through the commands until one names this group. */
    method ExecStartPre(k: nat, commands: seq<Argv>)
      requires Acceptable(Value(), Commands(k, commands))
      modifies this
      ensures Value() == Absorb(old(Value()), Commands(k, commands))
    {
      units := units[k := units[k].(answered := true)];
      var i := 0;
      while winner.None? && !units[k].asked && i < |commands|
        invariant i <= |commands| && k < |units|
        invariant winner.None? && !units[k].asked ==>
            units == old(units)[k := old(units)[k].(answered := true)]
            && forall j :: 0 <= j < i ==> !Names(commands[j], self, group)
        invariant winner.Some? || units[k].asked ==>
            Value() == Absorb(old(Value()), Commands(k, commands))
        decreases |commands| - i
      {
        if Names(commands[i], self, group) {
          if Busy(units[k].active, units[k].sub) {
            units := units[k := units[k].(result := BLANKING)];
            winner := Some(k);
          } else {
            units := units[k := units[k].(asked := true)];
          }
        }
        i := i + 1;
      }
    }

    /** One of the two timestamp replies; the second to come decides. */
    method ExecMainOneTimestamp(r: Reply)
      requires !r.Commands? && Acceptable(Value(), r)
      modifies this
      ensures Value() == Absorb(old(Value()), r)
    {
      var k := r.k;
      var t := OfMicros(r.usec);
      units := units[k := if r.Started? then units[k].(start := Some(t)) else units[k].(exit := Some(t))];
      var u := units[k];
      if u.start.Some? && u.exit.Some? {
        if Greater(u.start.value, u.exit.value) {
          units := units[k := u.(result := BLANKING)];
          winner := Some(k);
        } else {
          units := units[k := u.(result := Minus(BLANKING, Minus(now, u.exit.value)))];
        }
      }
    }

    /** The end of the loop: sleep for the winner, else for the longest remaining time. */
    method Decide() returns (v: Verdict)
      requires winner.Some? ==> winner.value < |units|
      ensures v == Outcome(Value())
    {
      if winner.Some? {
        return Sleep(units[winner.value].result);
      }
      var sleep := ZERO;
      var i := 0;
      while i < |units|
        invariant i <= |units| && sleep == Longest(units[..i])
      {
        assert units[..i + 1][..i] == units[..i];
        sleep := if Less(units[i].result, sleep) then sleep else units[i].result;
        i := i + 1;
      }
      assert units[..i] == units;
      if sleep.sec != 0 || sleep.nsec != 0 {
        return Sleep(sleep);
      }
      return Proceed;
    }
  }

  /** A whole survey: process replies in the order they come until one decides or none is
      left, then decide. The answer is the expected one whatever the order. */
  method Conduct(self: string, group: string, now: Instant, world: seq<Facts>, replies: seq<Reply>)
      returns (v: Verdict)
    requires Deliverable(Opened(self, group, now, world), world, replies)
    requires Finished(AbsorbAll(Opened(self, group, now, world), world, replies))
    ensures Expected(self, group, now, world, v)
  {
    var q := new Inquiry(self, group, now, world);
    ghost var start := q.Value();
    assert Tracks(start, world);
    var i := 0;
    while i < |replies|
      invariant i <= |replies|
      invariant Tracks(q.Value(), world) && Deliverable(q.Value(), world, replies[i..])
      invariant AbsorbAll(q.Value(), world, replies[i..]) == AbsorbAll(start, world, replies)
    {
      var r := replies[i];
      assert replies[i..][0] == r && replies[i..][1..] == replies[i + 1..];
      AbsorbKeepsTracks(q.Value(), r, world);
      if r.Commands? {
        q.ExecStartPre(r.k, r.commands);
      } else {
        q.ExecMainOneTimestamp(r);
      }
      i := i + 1;
    }
    SurveyConfluent(self, group, now, world, replies);
    v := q.Decide();
  }
}

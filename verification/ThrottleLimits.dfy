/** Where the promises of throttle groups end, for every configuration: runs, step by step, in which
    the first winner's job takes more than five seconds to start, and two jobs of a group run at
    once; and runs in which a job is started again seconds after its own exit. And that waiting
    jobs do not hold each other up: runs in which one of them wins. */
module ThrottleLimits {
  import opened Basics
  import opened Timespecs
  import opened SharedWord
  import J = JobSlot
  import S = Survey
  import opened ThrottleGroup

  // ---------------------------------------------------------------- runs, piece by piece

  /** `timely` is whether winners are visible in time all along. */
  ghost predicate Leads(c: Config, s: State, events: seq<Event>, t: State, timely: bool)
    decreases |events|
  {
    && (timely ==> WinnersVisibleInTime(s))
    && if events == [] then s == t
       else Enabled(c, s, events[0]) && Leads(c, Apply(c, s, events[0]), events[1..], t, timely)
  }

  lemma {:induction false} LeadsOn(c: Config, s: State, some: seq<Event>, t: State, more: seq<Event>, u: State, timely: bool)
    requires Leads(c, s, some, t, timely) && Leads(c, t, more, u, timely)
    ensures Leads(c, s, some + more, u, timely)
    decreases |some|
  {
    if some == [] {
      assert some + more == more;
    } else {
      assert (some + more)[1..] == some[1..] + more;
      LeadsOn(c, Apply(c, s, some[0]), some[1..], t, more, u, timely);
    }
  }

  lemma Step(c: Config, s: State, e: Event, timely: bool)
    requires Enabled(c, s, e) && (timely ==> WinnersVisibleInTime(s) && WinnersVisibleInTime(Apply(c, s, e)))
    ensures Leads(c, s, [e], Apply(c, s, e), timely)
  {
    assert [e][1..] == [];
    assert Leads(c, Apply(c, s, e), [], Apply(c, s, e), timely);
  }

  /** Such a piece is a sequence of states; the clock never runs back. */
  lemma {:induction false} Spelled(c: Config, s: State, events: seq<Event>, t: State, timely: bool) returns (states: seq<State>)
    requires Leads(c, s, events, t, timely)
    ensures |states| == |events| + 1 && states[0] == s && states[|events|] == t
    ensures forall i :: 0 <= i < |events| ==> Enabled(c, states[i], events[i]) && states[i + 1] == Apply(c, states[i], events[i])
    ensures forall i :: 0 <= i < |states| ==> states[i].slot.coarse <= t.slot.coarse
    ensures timely ==> forall i :: 0 <= i < |states| ==> WinnersVisibleInTime(states[i])
    decreases |events|
  {
    if events == [] {
      states := [s];
    } else {
      var rest := Spelled(c, Apply(c, s, events[0]), events[1..], t, timely);
      states := [s] + rest;
      forall i | 0 <= i < |events|
        ensures Enabled(c, states[i], events[i]) && states[i + 1] == Apply(c, states[i], events[i])
      {
        if i > 0 {
          assert states[i] == rest[i - 1] && events[i] == events[1..][i - 1] && states[i + 1] == rest[i];
        }
      }
      assert s.slot.coarse <= rest[0].slot.coarse;
    }
  }

  ghost predicate Follows(c: Config, states: seq<State>, events: seq<Event>) {
    && |states| == |events| + 1
    && forall i :: 0 <= i < |events| ==> Enabled(c, states[i], events[i]) && states[i + 1] == Apply(c, states[i], events[i])
  }

  lemma FollowsOn(c: Config, a: seq<State>, some: seq<Event>, b: seq<State>, more: seq<Event>)
    requires Follows(c, a, some) && Follows(c, b, more) && a[|some|] == b[0]
    ensures Follows(c, a + b[1..], some + more)
    ensures forall i :: 0 <= i < |a + b[1..]| ==> (a + b[1..])[i] in a || (a + b[1..])[i] in b
  {
    var states, events := a + b[1..], some + more;
    forall i | 0 <= i < |events|
      ensures Enabled(c, states[i], events[i]) && states[i + 1] == Apply(c, states[i], events[i])
    {
      if i < |some| {
        assert states[i] == a[i] && states[i + 1] == a[i + 1] && events[i] == some[i];
      } else {
        var k := i - |some|;
        assert states[i] == b[k] && states[i + 1] == b[k + 1] && events[i] == more[k];
      }
    }
  }

  /** Nobody new has won, and no time has passed. */
  lemma StillVisible(s: State, t: State, u: Unit)
    requires WinnersVisibleInTime(s) && t.slot.coarse == s.slot.coarse && !HasWon(t, u)
    requires forall v :: v != u && HasWon(t, v) ==> HasWon(s, v) && t.slot.procs[v] == s.slot.procs[v]
    ensures WinnersVisibleInTime(t)
  {
  }

  // ---------------------------------------------------------------- one unit, the others waiting

  /** A unit that never ran, as systemd shows it while its helper waits. */
  const WAITING := Service(false, "activating", "start-pre", 0, 0)

  /** Nobody surveys, a unit of a group does not run, and no other ever has. */
  ghost predicate Clear(c: Config, s: State, u: Unit) {
    && s.services.Keys == c.commands.Keys && s.surveys == map[] && s.slot.coarse <= s.fine
    && u in c.group && u in s.services && !s.services[u].running
    && forall v :: v in s.services && v != u ==> s.services[v] == WAITING
  }

  /** A process loads the word, reads the clock and finds the gap long enough. */
  lemma Enters(c: Config, s: State, u: Unit, timely: bool) returns (events: seq<Event>, t: State)
    requires Clear(c, s, u) && u !in s.slot.procs && (timely ==> WinnersVisibleInTime(s))
    requires J.GapPassed(OfNanos(s.slot.coarse), s.slot.word, J.SHORTEST)
    ensures Leads(c, s, events, t, timely) && t == s.(slot := t.slot)
    ensures t.slot.coarse == s.slot.coarse && t.slot.word == s.slot.word
    ensures u in t.slot.procs && t.slot.procs[u].pc.Passed?
    ensures t.slot.procs[u].pc.last == s.slot.word && t.slot.procs[u].pc.now == OfNanos(s.slot.coarse)
    ensures forall v :: v != u ==> (v in t.slot.procs <==> v in s.slot.procs) && (v in s.slot.procs ==> t.slot.procs[v] == s.slot.procs[v])
    ensures timely ==> WinnersVisibleInTime(t)
  {
    var s1 := Apply(c, s, Arrive(u, 1, false));
    var s2 := Apply(c, s1, Load(u));
    t := Apply(c, s2, ReadClock(u));
    if timely {
      StillVisible(s, s1, u);
      StillVisible(s1, s2, u);
      StillVisible(s2, t, u);
    }
    Step(c, s, Arrive(u, 1, false), timely);
    Step(c, s1, Load(u), timely);
    Step(c, s2, ReadClock(u), timely);
    LeadsOn(c, s, [Arrive(u, 1, false)], s1, [Load(u)], s2, timely);
    events := [Arrive(u, 1, false)] + [Load(u)] + [ReadClock(u)];
    LeadsOn(c, s, [Arrive(u, 1, false)] + [Load(u)], s2, [ReadClock(u)], t, timely);
  }

  // ---------------------------------------------------------------- its survey

  /** What there is to hear of the others. */
  function Waiting(c: Config, others: seq<Unit>): (world: seq<S.Facts>)
    requires forall v :: v in others ==> v in c.commands
    ensures |world| == |others|
    ensures forall k :: 0 <= k < |world| ==> world[k] == S.Facts(others[k], "activating", "start-pre", c.commands[others[k]], 0, 0)
  {
    seq(|others|, k requires 0 <= k < |others| => S.Facts(others[k], "activating", "start-pre", c.commands[others[k]], 0, 0))
  }

  ghost predicate Lists(q: S.Survey, world: seq<S.Facts>) {
    |q.units| == |world| && forall k :: 0 <= k < |world| ==> q.units[k].unit == world[k].unit
  }

  /** They all wait, and systemd says so. */
  ghost predicate Known(c: Config, s: State, world: seq<S.Facts>) {
    forall k :: 0 <= k < |world| ==>
      && world[k].unit in c.commands && world[k].unit in s.services
      && world[k] == S.Facts(world[k].unit, "activating", "start-pre", c.commands[world[k].unit], 0, 0)
      && s.services[world[k].unit] == WAITING
  }

  /** With one unit's survey under way. */
  ghost function During(s: State, u: Unit, q: S.Survey): State {
    s.(surveys := map[u := q])
  }

  lemma OthersKnown(c: Config, s: State, u: Unit)
    requires WellFormed(c) && Clear(c, s, u)
    ensures forall v :: v in Others(c.units, u) ==> v in c.commands && v in s.services && s.services[v] == WAITING
    ensures Known(c, s, Waiting(c, Others(c.units, u)))
  {
    var others := Others(c.units, u);
    assert forall v :: v in others ==> v in c.commands && v in s.services && s.services[v] == WAITING;
    forall k | 0 <= k < |others|
      ensures others[k] in c.commands && others[k] in s.services && s.services[others[k]] == WAITING
    {
      assert others[k] in others;
    }
  }

  lemma OpenedIsWaiting(c: Config, s: State, u: Unit, now: Instant)
    requires u in c.group && forall v :: v in Others(c.units, u) ==> v in c.commands && v in s.services && s.services[v] == WAITING
    ensures var world := Waiting(c, Others(c.units, u));
            S.Opened(c.self, c.group[u], now, world).units == Listing(s, Others(c.units, u))
  {
    var others := Others(c.units, u);
    assert forall k :: 0 <= k < |others| ==> others[k] in others;
  }

  lemma OpenedTracks(self: string, group: string, now: Instant, world: seq<S.Facts>)
    ensures S.Tracks(S.Opened(self, group, now, world), world) && Lists(S.Opened(self, group, now, world), world)
  {
  }

  lemma Opens(c: Config, s: State, u: Unit, timely: bool) returns (q: S.Survey, world: seq<S.Facts>)
    requires WellFormed(c) && Clear(c, s, u) && u in s.slot.procs && s.slot.procs[u].pc.Passed? && (timely ==> WinnersVisibleInTime(s))
    ensures Leads(c, s, [ListUnits(u)], During(s, u, q), timely)
    ensures Known(c, s, world) && Lists(q, world) && S.Tracks(q, world) && q.now == s.slot.procs[u].pc.now
  {
    var now := s.slot.procs[u].pc.now;
    OthersKnown(c, s, u);
    world := Waiting(c, Others(c.units, u));
    q := S.Opened(c.self, c.group[u], now, world);
    OpenedIsWaiting(c, s, u, now);
    OpenedTracks(c.self, c.group[u], now, world);
    Step(c, s, ListUnits(u), timely);
  }

  lemma HearsOne(c: Config, s: State, u: Unit, q: S.Survey, world: seq<S.Facts>, r: S.Reply, timely: bool)
    requires Known(c, s, world) && Lists(q, world) && S.Acceptable(q, r) && S.Truthful(world, r)
    requires timely ==> WinnersVisibleInTime(s)
    ensures Leads(c, During(s, u, q), [Hear(u, r)], During(s, u, S.Absorb(q, r)), timely)
    ensures Lists(S.Absorb(q, r), world)
  {
    assert Answers(c, During(s, u, q), q.units[r.k].unit, r);
    AbsorbKeepsUnits(q, r);
    Step(c, During(s, u, q), Hear(u, r), timely);
    assert During(s, u, q).surveys[u := S.Absorb(q, r)] == During(s, u, S.Absorb(q, r)).surveys;
  }

  /** Replies come until the survey is finished. */
  lemma {:induction false} HearsAll(c: Config, s: State, u: Unit, q: S.Survey, world: seq<S.Facts>, timely: bool)
      returns (events: seq<Event>, done: S.Survey)
    requires Known(c, s, world) && Lists(q, world) && S.Tracks(q, world) && (timely ==> WinnersVisibleInTime(s))
    ensures Leads(c, During(s, u, q), events, During(s, u, done), timely)
    ensures S.Finished(done) && S.Tracks(done, world) && done.now == q.now
    decreases S.AllDue(q.units)
  {
    if S.Finished(q) {
      events, done := [], q;
    } else {
      S.SurveyProgresses(q, world);
      var r :| S.Acceptable(q, r) && S.Truthful(world, r);
      HearsOne(c, s, u, q, world, r, timely);
      S.AbsorbKeepsTracks(q, r, world);
      AbsorbKeepsUnits(q, r);
      var more;
      more, done := HearsAll(c, s, u, S.Absorb(q, r), world, timely);
      LeadsOn(c, During(s, u, q), [Hear(u, r)], During(s, u, S.Absorb(q, r)), more, During(s, u, done), timely);
      events := [Hear(u, r)] + more;
    }
  }

  /** Five minutes into the uptime, a survey of waiting units that never ran says "proceed". */
  lemma Proceeds(c: Config, s: State, q: S.Survey, world: seq<S.Facts>)
    requires Known(c, s, world) && S.Tracks(q, world) && S.Finished(q) && Nanos(q.now) >= Nanos(S.BLANKING)
    ensures S.Outcome(q) == S.Proceed
  {
    if q.winner.Some? {
      S.DecidedIsExpected(q, world);
    } else {
      S.GatheredIsExpected(q, world);
    }
    forall k | 0 <= k < |world|
      ensures !S.Running(world[k]) && S.Left(world[k], q.now) <= 0
    {
    }
  }

  // ---------------------------------------------------------------- winning

  lemma WinnerVisible(s: State, u: Unit)
    requires HasWon(s, u) && Fits(OfNanos(s.slot.coarse)) && s.slot.procs[u].pc.now == OfNanos(s.slot.coarse)
    ensures s.slot.coarse <= Nanos(Stored(Pack(s.slot.procs[u].pid, s.slot.procs[u].pc.now))) + Nanos(J.SHORTEST)
  {
    Truncation(s.slot.procs[u].pid, s.slot.procs[u].pc.now);
  }

  /** The exchange succeeds, since the word is as it was. */
  lemma Exchanges(c: Config, s: State, u: Unit, q: S.Survey, timely: bool) returns (t: State)
    requires Clear(c, s, u) && u in s.slot.procs && s.slot.procs[u].pc.Passed? && s.slot.procs[u].pc.last == s.slot.word
    requires s.slot.procs[u].pc.now == OfNanos(s.slot.coarse) && S.Finished(q) && S.Outcome(q) == S.Proceed
    requires timely ==> WinnersVisibleInTime(s) && Fits(OfNanos(s.slot.coarse))
    ensures Leads(c, During(s, u, q), [Exchange(u)], t, timely) && t == s.(slot := t.slot) && HasWon(t, u)
    ensures t.slot.coarse == s.slot.coarse && (timely ==> WinnersVisibleInTime(t))
    ensures t.slot.word == Pack(t.slot.procs[u].pid, OfNanos(s.slot.coarse)) && t.slot.procs[u].pc.now == OfNanos(s.slot.coarse)
    ensures forall v :: v != u ==> (v in t.slot.procs <==> v in s.slot.procs) && (v in s.slot.procs ==> t.slot.procs[v] == s.slot.procs[v])
  {
    t := Apply(c, During(s, u, q), Exchange(u));
    assert t.surveys == map[];
    if timely {
      WinnerVisible(t, u);
    }
    Step(c, During(s, u, q), Exchange(u), timely);
  }

  /** From arrival to a successful exchange, undisturbed, once five minutes have passed. */
  lemma Wins(c: Config, s: State, u: Unit, timely: bool) returns (events: seq<Event>, t: State)
    requires WellFormed(c) && Clear(c, s, u) && u !in s.slot.procs && s.slot.coarse >= 300 * NANOS
    requires J.GapPassed(OfNanos(s.slot.coarse), s.slot.word, J.SHORTEST)
    requires timely ==> WinnersVisibleInTime(s) && Fits(OfNanos(s.slot.coarse))
    ensures Leads(c, s, events, t, timely) && t == s.(slot := t.slot) && HasWon(t, u)
    ensures t.slot.coarse == s.slot.coarse && (timely ==> WinnersVisibleInTime(t))
    ensures t.slot.word == Pack(t.slot.procs[u].pid, OfNanos(s.slot.coarse)) && t.slot.procs[u].pc.now == OfNanos(s.slot.coarse)
    ensures forall v :: v != u ==> (v in t.slot.procs <==> v in s.slot.procs) && (v in s.slot.procs ==> t.slot.procs[v] == s.slot.procs[v])
  {
    var es, s1 := Enters(c, s, u, timely);
    var q, world := Opens(c, s1, u, timely);
    var fs, done := HearsAll(c, s1, u, q, world, timely);
    Proceeds(c, s1, done, world);
    t := Exchanges(c, s1, u, done, timely);
    LeadsOn(c, s, es, s1, [ListUnits(u)], During(s1, u, q), timely);
    LeadsOn(c, s, es + [ListUnits(u)], During(s1, u, q), fs, During(s1, u, done), timely);
    events := es + [ListUnits(u)] + fs + [Exchange(u)];
    LeadsOn(c, s, es + [ListUnits(u)] + fs, During(s1, u, done), [Exchange(u)], t, timely);
  }

  ghost function Start(c: Config): State {
    State(J.State(0, EMPTY, map[], 0, []), 0, map v | v in c.commands :: WAITING, map[])
  }

  /** Both clocks go to the same time; if nobody waits to become visible, that is in time. */
  lemma Waits(c: Config, s: State, u: Unit, until: nat, timely: bool) returns (t: State)
    requires Clear(c, s, u) && s.fine <= until && (timely ==> forall v :: !HasWon(s, v))
    ensures Leads(c, s, [Tick(until, until)], t, timely) && Clear(c, t, u)
    ensures t == s.(slot := t.slot, fine := until) && t.slot.procs == s.slot.procs && t.slot.word == s.slot.word
    ensures t.slot.coarse == until && (timely ==> WinnersVisibleInTime(t))
  {
    t := Apply(c, s, Tick(until, until));
    if timely {
      forall v
        ensures !HasWon(t, v)
      {
        assert !HasWon(s, v);
      }
    }
    Step(c, s, Tick(until, until), timely);
  }

  // ---------------------------------------------------------------- all wait, one wins

  /** A group's helpers arrive. */
  lemma {:induction false} AllArrive(c: Config, s: State, u: Unit, waiting: seq<Unit>) returns (events: seq<Event>, t: State)
    requires Clear(c, s, u) && u !in s.slot.procs && (forall v :: v in waiting ==> v in c.group && v in s.services && v != u)
    requires forall v :: !HasWon(s, v)
    ensures Leads(c, s, events, t, true) && Clear(c, t, u) && t == s.(slot := t.slot) && u !in t.slot.procs
    ensures t.slot.coarse == s.slot.coarse && t.slot.word == s.slot.word && (forall v :: !HasWon(t, v))
    ensures forall v :: v in waiting || v in s.slot.procs ==> v in t.slot.procs
    decreases |waiting|
  {
    if waiting == [] {
      events, t := [], s;
    } else {
      var v := waiting[0];
      var first, s1 := [], s;
      if v !in s.slot.procs {
        first, s1 := [Arrive(v, 1, false)], Apply(c, s, Arrive(v, 1, false));
        forall w
          ensures !HasWon(s1, w)
        {
          assert !HasWon(s, w);
        }
        Step(c, s, Arrive(v, 1, false), true);
      }
      var more;
      more, t := AllArrive(c, s1, u, waiting[1..]);
      events := first + more;
      LeadsOn(c, s, first, s1, more, t, true);
    }
  }

  /** Every unit shows that it waits in start-pre, and the given ones have their helpers running. */
  ghost predicate AllWait(c: Config, s: State, waiting: seq<Unit>) {
    && (forall v :: v in c.units ==> v in s.services && s.services[v].active == "activating" && s.services[v].sub == "start-pre")
    && (forall v :: v in waiting ==> v in s.slot.procs)
  }

  /** Waiting jobs do not hold each other up: for any unit of a group and any others, there is a run
      within all assumptions in which the unit wins while the others wait, every one of them shown
      in start-pre. */
  lemma WaitersDoNotBlock(c: Config, u: Unit, waiting: seq<Unit>) returns (states: seq<State>, events: seq<Event>)
    requires WellFormed(c) && u in c.group && forall v :: v in waiting ==> v in c.group && v != u
    ensures Run(c, states, events) && Assumed(states)
    ensures AllWait(c, states[|events|], waiting) && HasWon(states[|events|], u)
  {
    var s1 := Waits(c, Start(c), u, 301 * NANOS, true);
    var arrive, s2 := AllArrive(c, s1, u, waiting);
    var first, t := Wins(c, s2, u, true);
    var one := [Tick(301 * NANOS, 301 * NANOS)];
    LeadsOn(c, Start(c), one, s1, arrive, s2, true);
    LeadsOn(c, Start(c), one + arrive, s2, first, t, true);
    events := one + arrive + first;
    states := Spelled(c, Start(c), events, t, true);
    RunFromStart(c, states, events);
  }

  // ---------------------------------------------------------------- a slow start

  function Up(u: Unit): Event {
    MainStart(u, "active", "running")
  }

  function Down(u: Unit): Event {
    MainExit(u, "inactive", "dead")
  }

  lemma StartsBoth(c: Config, s: State, u: Unit, v: Unit) returns (t: State)
    requires u != v && Clear(c, s, u) && Clear(c, s, v) && HasWon(s, u) && HasWon(s, v)
    ensures Leads(c, s, [Up(u)] + [Up(v)], t, false)
    ensures Runs(t, u) && Runs(t, v) && t.slot.coarse == s.slot.coarse
  {
    var s1 := Apply(c, s, Up(u));
    t := Apply(c, s1, Up(v));
    Step(c, s, Up(u), false);
    Step(c, s1, Up(v), false);
    LeadsOn(c, s, [Up(u)], s1, [Up(v)], t, false);
  }

  /** The first wins at 301 s of uptime but has not started by 307 s, so the second finds it
      still waiting, wins too, and both run. */
  lemma BothWin(c: Config, u: Unit, v: Unit) returns (events: seq<Event>, t: State)
    requires WellFormed(c) && u in c.group && v in c.group && u != v
    ensures Leads(c, Start(c), events, t, false) && Runs(t, u) && Runs(t, v) && t.slot.coarse == 307 * NANOS
  {
    var s := Start(c);
    var s1 := Waits(c, s, u, 301 * NANOS, false);
    var first, s2 := Wins(c, s1, u, false);
    Truncation(s2.slot.procs[u].pid, OfNanos(301 * NANOS));
    var s3 := Waits(c, s2, v, 307 * NANOS, false);
    var second, s4 := Wins(c, s3, v, false);
    t := StartsBoth(c, s4, u, v);
    var one, two := [Tick(301 * NANOS, 301 * NANOS)], [Tick(307 * NANOS, 307 * NANOS)];
    LeadsOn(c, s, one, s1, first, s2, false);
    LeadsOn(c, s, one + first, s2, two, s3, false);
    LeadsOn(c, s, one + first + two, s3, second, s4, false);
    LeadsOn(c, s, one + first + two + second, s4, [Up(u)] + [Up(v)], t, false);
    events := one + first + two + second + ([Up(u)] + [Up(v)]);
  }

  /** Mutual exclusion does fail without the assumption, for any two units of any group: there is
      a run within all other bounds in which both run at once. */
  lemma VisibilityIsNeeded(c: Config, u: Unit, v: Unit) returns (states: seq<State>, events: seq<Event>)
    requires WellFormed(c) && SameGroup(c, u, v) && u != v
    ensures Run(c, states, events) && forall i :: 0 <= i < |states| ==> J.UptimeFits(states[i].slot)
    ensures Runs(states[|events|], u) && Runs(states[|events|], v)
    ensures !Assumed(states)
  {
    var t;
    events, t := BothWin(c, u, v);
    states := Spelled(c, Start(c), events, t, false);
    if Assumed(states) {
      NoTwoJobsRun(c, states, events, |events|, u, v);
    }
  }

  // ---------------------------------------------------------------- its own exit

  /** A lone winner starts. */
  lemma Starts(c: Config, s: State, u: Unit) returns (t: State)
    requires Clear(c, s, u) && HasWon(s, u) && WinnersVisibleInTime(s) && forall v :: v != u ==> v !in s.slot.procs
    ensures Leads(c, s, [Up(u)], t, true)
    ensures t.slot.procs == map[] && t.slot.word == s.slot.word && t.slot.coarse == s.slot.coarse && t.fine == s.fine
    ensures t.surveys == map[] && t.services == s.services[u := Service(true, "active", "running", s.fine / 1000, 0)]
  {
    t := Apply(c, s, Up(u));
    assert t.slot.procs == map[];
    assert t.surveys == map[];
    Step(c, s, Up(u), true);
  }

  lemma Exits(c: Config, s: State, u: Unit) returns (t: State)
    requires u in s.services && s.services[u].running && s.slot.procs == map[]
    ensures Leads(c, s, [Down(u)], t, true)
    ensures t == s.(services := s.services[u := Service(false, "inactive", "dead", s.services[u].startUs, s.fine / 1000)])
  {
    t := Apply(c, s, Down(u));
    Step(c, s, Down(u), true);
  }

  /** A unit has exited at 301 s of uptime, and nothing else is going on. */
  ghost predicate Exited(c: Config, t: State, u: Unit) {
    && Clear(c, t, u) && t.slot.procs == map[] && t.fine == t.slot.coarse == 301 * NANOS
    && t.services[u].exitUs == 301_000_000 && exists pid :: t.slot.word == Pack(pid, OfNanos(301 * NANOS))
  }

  /** At 301 s of uptime a job starts and exits. */
  lemma RunsOnce(c: Config, u: Unit) returns (before: seq<Event>, s: State, t: State)
    requires WellFormed(c) && u in c.group
    ensures Leads(c, Start(c), before, s, true) && Leads(c, s, [Down(u)], t, true) && Exited(c, t, u)
  {
    var s1 := Waits(c, Start(c), u, 301 * NANOS, true);
    var first, s2 := Wins(c, s1, u, true);
    s := Starts(c, s2, u);
    t := Exits(c, s, u);
    var one := [Tick(301 * NANOS, 301 * NANOS)];
    LeadsOn(c, Start(c), one, s1, first, s2, true);
    LeadsOn(c, Start(c), one + first, s2, [Up(u)], s, true);
    before := one + first + [Up(u)];
  }

  /** At 307 s it has won again, and starts. */
  lemma WinsAgain(c: Config, s: State, u: Unit) returns (events: seq<Event>, t: State, v: State)
    requires WellFormed(c) && Exited(c, s, u)
    ensures Leads(c, s, events, t, true) && Leads(c, t, [Up(u)], v, true)
    ensures v.slot.coarse == 307 * NANOS && u in v.services && v.services[u].startUs == 307_000_000
  {
    var pid :| s.slot.word == Pack(pid, OfNanos(301 * NANOS));
    Truncation(pid, OfNanos(301 * NANOS));
    var s1 := Waits(c, s, u, 307 * NANOS, true);
    var second;
    second, t := Wins(c, s1, u, true);
    v := Starts(c, t, u);
    LeadsOn(c, s, [Tick(307 * NANOS, 307 * NANOS)], s1, second, t, true);
    events := [Tick(307 * NANOS, 307 * NANOS)] + second;
  }

  lemma FirstRun(c: Config, u: Unit) returns (a: seq<State>, some: seq<Event>)
    requires WellFormed(c) && u in c.group
    ensures Follows(c, a, some) && a[0] == Start(c) && some != [] && some[|some| - 1] == Down(u)
    ensures forall i :: 0 <= i < |a| ==> a[i].slot.coarse <= 307 * NANOS && WinnersVisibleInTime(a[i])
    ensures Exited(c, a[|some|], u)
  {
    var before, s, t := RunsOnce(c, u);
    LeadsOn(c, Start(c), before, s, [Down(u)], t, true);
    some := before + [Down(u)];
    a := Spelled(c, Start(c), some, t, true);
  }

  lemma SecondRun(c: Config, t: State, u: Unit) returns (b: seq<State>, more: seq<Event>)
    requires WellFormed(c) && Exited(c, t, u)
    ensures Follows(c, b, more) && b[0] == t && more != [] && more[|more| - 1] == Up(u)
    ensures forall i :: 0 <= i < |b| ==> b[i].slot.coarse <= 307 * NANOS && WinnersVisibleInTime(b[i])
    ensures u in b[|more|].services && b[|more|].services[u].startUs == 307_000_000
  {
    var after, w, v := WinsAgain(c, t, u);
    LeadsOn(c, t, after, w, [Up(u)], v, true);
    more := after + [Up(u)];
    b := Spelled(c, t, more, v, true);
  }

  lemma AllAssumed(a: seq<State>, b: seq<State>, states: seq<State>)
    requires forall i :: 0 <= i < |states| ==> states[i] in a || states[i] in b
    requires forall i :: 0 <= i < |a| ==> a[i].slot.coarse <= 307 * NANOS && WinnersVisibleInTime(a[i])
    requires forall i :: 0 <= i < |b| ==> b[i].slot.coarse <= 307 * NANOS && WinnersVisibleInTime(b[i])
    ensures Assumed(states)
  {
  }

  lemma Joined(a: seq<State>, some: seq<Event>, b: seq<State>, more: seq<Event>)
    requires |a| == |some| + 1 && |b| == |more| + 1 && a[|some|] == b[0] && some != [] && more != []
    ensures var states, events := a + b[1..], some + more;
            && states[0] == a[0] && states[|some|] == a[|some|] && states[|events|] == b[|more|]
            && events[|some| - 1] == some[|some| - 1] && events[|events| - 1] == more[|more| - 1]
  {
  }

  /** A run within all assumptions in which one unit starts less than five minutes after the exit
      of another, by systemd's timestamps. */
  ghost predicate TooSoon(c: Config, states: seq<State>, events: seq<Event>, i: nat, j: nat, u: Unit, v: Unit) {
    && Run(c, states, events) && Assumed(states) && i < j < |events|
    && events[i].MainExit? && events[i].unit == u && events[j].MainStart? && events[j].unit == v
    && u in states[i + 1].services && v in states[j + 1].services
    && states[j + 1].services[v].startUs < states[i + 1].services[u].exitUs + 300_000_000
  }

  lemma RunFromStart(c: Config, states: seq<State>, events: seq<Event>)
    requires WellFormed(c) && Follows(c, states, events) && states[0] == Start(c)
    ensures Run(c, states, events)
  {
  }

  lemma SixSeconds(c: Config, states: seq<State>, events: seq<Event>, i: nat, u: Unit)
    requires Run(c, states, events) && Assumed(states) && i + 1 < |events| && events[i] == Down(u) && events[|events| - 1] == Up(u)
    requires u in states[i + 1].services && states[i + 1].services[u].exitUs == 301_000_000
    requires u in states[|events|].services && states[|events|].services[u].startUs == 307_000_000
    ensures TooSoon(c, states, events, i, |events| - 1, u, u)
  {
  }

  /** The five minutes are not kept after a job's own exit, which the survey leaves out. */
  lemma OwnExitDoesNotCount(c: Config, u: Unit) returns (states: seq<State>, events: seq<Event>, i: nat, j: nat)
    requires WellFormed(c) && u in c.group
    ensures TooSoon(c, states, events, i, j, u, u)
  {
    var a, some := FirstRun(c, u);
    var b, more := SecondRun(c, a[|some|], u);
    FollowsOn(c, a, some, b, more);
    Joined(a, some, b, more);
    states, events, i, j := a + b[1..], some + more, |some| - 1, |some| + |more| - 1;
    AllAssumed(a, b, states);
    RunFromStart(c, states, events);
    SixSeconds(c, states, events, i, u);
  }

  /** Of two units of a group, the second can start less than five minutes after an exit of the
      first just if they are the same. */
  lemma FiveMinutesExactly(c: Config, u: Unit, v: Unit)
    requires WellFormed(c) && SameGroup(c, u, v)
    ensures (exists states, events, i: nat, j: nat :: TooSoon(c, states, events, i, j, u, v)) <==> u == v
  {
    if states, events, i: nat, j: nat :| TooSoon(c, states, events, i, j, u, v) {
      if u != v {
        FiveMinutesAfterExit(c, states, events, i, j);
      }
    }
    if u == v {
      var states, events, i, j := OwnExitDoesNotCount(c, u);
    }
  }
}

/** src/bin/throttle_group.cpp, run by any number of units of any number of groups over one
    shared word, next to a systemd that starts and stops their main processes. Loads, clock
    readings, listings, property replies, exchanges, main starts and exits are steps of their
    own, interleaved at will. */
module ThrottleGroup {
  import opened Basics
  import opened Timespecs
  import opened SharedWord
  import J = JobSlot
  import S = Survey

  type Unit = S.Unit

  /** The loaded `cron-*.service` units in listing order, their ExecStartPre= commands, and
      the throttle group each is in, if any. Units stay loaded. */
  datatype Config = Config(self: string, units: seq<Unit>, commands: map<Unit, seq<S.Argv>>,
                           group: map<Unit, string>)

  ghost predicate WellFormed(c: Config) {
    && c.commands.Keys == (set u | u in c.units)
    && (forall u :: u in c.group ==> u in c.units)
    && (forall u, g :: u in c.commands ==>
          (S.Belongs(c.commands[u], c.self, g) <==> u in c.group && c.group[u] == g))
  }

  /** systemd's view of a unit: whether the main process runs, the state it shows, and the
      ExecMain{Start,Exit}TimestampMonotonic properties. */
  datatype Service = Service(running: bool, active: string, sub: string, startUs: nat, exitUs: nat)

  /** `fine` is CLOCK_MONOTONIC, by which systemd stamps; the helpers' clock is slot.coarse. */
  datatype State = State(slot: J.State, fine: nat, services: map<Unit, Service>,
                         surveys: map<Unit, S.Survey>)

  datatype Event =
    | Tick(fine: nat, coarse: nat)
    | Arrive(unit: Unit, pid: bv32, loaded: bool)
    | Load(unit: Unit)
    | ReadClock(unit: Unit)
    | ListUnits(unit: Unit)
    | Hear(unit: Unit, reply: S.Reply)
    | Resolve(unit: Unit)
    | Exchange(unit: Unit)
    | Leave(unit: Unit)
    | MainStart(unit: Unit, active: string, sub: string)
    | MainExit(unit: Unit, active: string, sub: string)
    | Show(unit: Unit, active: string, sub: string)

  /** The move of the shared queue that an event makes, if any. */
  function SlotEvent(c: Config, e: Event): Option<J.Event> {
    match e
    case Tick(_, coarse) => Some(J.Tick(coarse))
    case Arrive(u, pid, loaded) => Some(J.Arrive(u, pid, if loaded then J.LOADED_FREQ else J.SHORTEST))
    case Load(u) => Some(J.Load(u))
    case ReadClock(u) => Some(J.ReadClock(u))
    case Resolve(u) => Some(J.GiveUp(u))
    case Exchange(u) => Some(J.Exchange(u))
    case Leave(u) => Some(J.Leave(u))
    case MainStart(u, _, _) => if u in c.group then Some(J.Leave(u)) else None
    case _ => None
  }

  predicate HasWon(s: State, u: Unit) {
    u in s.slot.procs && s.slot.procs[u].pc.Won?
  }

  /** A reply tells what systemd holds at the moment it is sent. */
  predicate Answers(c: Config, s: State, v: Unit, r: S.Reply) {
    && v in c.commands && v in s.services
    && match r
       case Commands(_, commands) => commands == c.commands[v]
       case Started(_, usec) => usec == s.services[v].startUs
       case Exited(_, usec) => usec == s.services[v].exitUs
  }

  ghost predicate Enabled(c: Config, s: State, e: Event) {
    && (SlotEvent(c, e).Some? ==> J.Enabled(s.slot, SlotEvent(c, e).value))
    && match e
       case Tick(fine, coarse) => s.fine <= fine && coarse <= fine
       case Arrive(u, _, _) => u in c.group && u in s.services && !s.services[u].running
       case Load(u) => true
       case ReadClock(u) => true
       case ListUnits(u) =>
         && u in s.slot.procs && s.slot.procs[u].pc.Passed? && u !in s.surveys && u in c.group
         && forall v :: v in c.units ==> v in s.services
       case Hear(u, r) =>
         && u in s.surveys && S.Acceptable(s.surveys[u], r)
         && Answers(c, s, s.surveys[u].units[r.k].unit, r)
       case Resolve(u) => u in s.surveys && S.Finished(s.surveys[u]) && S.Outcome(s.surveys[u]).Sleep?
       case Exchange(u) => u in s.surveys && S.Finished(s.surveys[u]) && S.Outcome(s.surveys[u]).Proceed?
       case Leave(u) => true
       case MainStart(u, _, _) =>
         u in s.services && !s.services[u].running && (u in c.group ==> HasWon(s, u))
       case MainExit(u, _, _) => u in s.services && s.services[u].running
       case Show(u, _, _) => u in s.services
  }

  /** Every listed unit but the one asking. */
  function Others(units: seq<Unit>, u: Unit): (others: seq<Unit>)
    ensures forall v :: v in others <==> v in units && v != u
  {
    if units == [] then []
    else (if units[0] == u then [] else [units[0]]) + Others(units[1..], u)
  }

  function Listing(s: State, others: seq<Unit>): (listed: seq<S.Listed>)
    requires forall v :: v in others ==> v in s.services
    ensures |listed| == |others|
    ensures forall k :: 0 <= k < |others| ==>
              listed[k] == S.Fresh(others[k], s.services[others[k]].active, s.services[others[k]].sub)
  {
    seq(|others|, k requires 0 <= k < |others| =>
      S.Fresh(others[k], s.services[others[k]].active, s.services[others[k]].sub))
  }

  /** What an event does to the surveys and to systemd's view of the units. */
  ghost function Around(c: Config, s: State, e: Event): State
    requires Enabled(c, s, e)
  {
    match e
    case Tick(fine, _) => s.(fine := fine)
    case ListUnits(u) =>
      s.(surveys := s.surveys[u := S.Survey(c.self, c.group[u], s.slot.procs[u].pc.now, None,
                                            Listing(s, Others(c.units, u)))])
    case Hear(u, r) => s.(surveys := s.surveys[u := S.Absorb(s.surveys[u], r)])
    case Resolve(u) => s.(surveys := s.surveys - {u})
    case Exchange(u) => s.(surveys := s.surveys - {u})
    case Leave(u) => s.(surveys := s.surveys - {u})
    case MainStart(u, active, sub) =>
      s.(services := s.services[u := Service(true, active, sub, s.fine / 1000, 0)])
    case MainExit(u, active, sub) =>
      s.(services := s.services[u := Service(false, active, sub, s.services[u].startUs, s.fine / 1000)])
    case Show(u, active, sub) =>
      s.(services := s.services[u := s.services[u].(active := active, sub := sub)])
    case _ => s
  }

  ghost function Apply(c: Config, s: State, e: Event): State
    requires Enabled(c, s, e)
  {
    var s' := Around(c, s, e);
    if SlotEvent(c, e).Some? then s'.(slot := J.Apply(s.slot, SlotEvent(c, e).value)) else s'
  }

  ghost predicate Init(c: Config, s: State) {
    && J.Init(s.slot) && s.slot.coarse <= s.fine
    && s.surveys == map[]
    && s.services.Keys == c.commands.Keys
    && forall u :: u in s.services ==>
         !s.services[u].running && s.services[u].startUs == s.services[u].exitUs == 0
  }

  ghost predicate Run(c: Config, states: seq<State>, events: seq<Event>) {
    && WellFormed(c)
    && |states| == |events| + 1
    && Init(c, states[0])
    && forall i :: 0 <= i < |events| ==>
         Enabled(c, states[i], events[i]) && states[i + 1] == Apply(c, states[i], events[i])
  }

  /** Named assumption: a winner shows as running, or is gone, before the coarse clock is more
      than 5 s past the time it stored; 5 s less one tick past the time it read will do. */
  ghost predicate WinnersVisibleInTime(s: State) {
    forall u :: HasWon(s, u) ==>
      s.slot.coarse <= Nanos(Stored(Pack(s.slot.procs[u].pid, s.slot.procs[u].pc.now))) + Nanos(J.SHORTEST)
  }

  lemma VisibleWithinFiveSecondsLessATick(s: State)
    requires forall u :: HasWon(s, u) ==>
               && Fits(s.slot.procs[u].pc.now)
               && s.slot.coarse <= Nanos(s.slot.procs[u].pc.now) + Nanos(J.SHORTEST) - TICK
    ensures WinnersVisibleInTime(s)
  {
    forall u | HasWon(s, u)
      ensures s.slot.coarse <= Nanos(Stored(Pack(s.slot.procs[u].pid, s.slot.procs[u].pc.now))) + Nanos(J.SHORTEST)
    {
      Truncation(s.slot.procs[u].pid, s.slot.procs[u].pc.now);
    }
  }

  // ---------------------------------------------------------------- invariants

  predicate SameGroup(c: Config, u: Unit, v: Unit) {
    u in c.group && v in c.group && c.group[u] == c.group[v]
  }

  predicate ServiceOk(v: Service, fine: nat) {
    && (v.running ==> v.exitUs == 0 < v.startUs <= fine / 1000)
    && (!v.running ==> v.startUs <= v.exitUs <= fine / 1000)
  }

  /** A process belongs to a unit of some group whose main process does not run; if it has won,
      it is the latest winner. */
  ghost predicate ProcOk(c: Config, s: State, u: Unit)
    requires u in s.slot.procs
  {
    var pc := s.slot.procs[u].pc;
    && u in c.group && u in s.services && !s.services[u].running
    && (pc.Won? ==> |s.slot.wins| > 0 && var w := s.slot.wins[|s.slot.wins| - 1];
                    w.id == u && w.now == pc.now && w.pid == s.slot.procs[u].pid)
  }

  predicate Untouched(s: State, u: Unit) {
    u in s.slot.procs && s.slot.procs[u].pc.Passed? && s.slot.procs[u].pc.seen == |s.slot.wins|
  }

  /** While nobody has won since it loaded, a process past the gap test knows that no winner
      is still on its way to becoming visible. */
  ghost predicate NonePending(s: State, u: Unit) {
    Untouched(s, u) ==> forall v :: !HasWon(s, v)
  }

  function MembersOf(c: Config, u: Unit, listed: seq<S.Listed>): (ms: seq<bool>)
    ensures |ms| == |listed|
    ensures forall k :: 0 <= k < |listed| ==> ms[k] == SameGroup(c, u, listed[k].unit)
  {
    seq(|listed|, k requires 0 <= k < |listed| => SameGroup(c, u, listed[k].unit))
  }

  /** What was heard of a group unit is current; only an exit may have come after the reply that
      there was none since the start. */
  predicate Current(l: S.Listed, v: Service) {
    && (l.start.Some? ==> l.start.value == OfMicros(v.startUs))
    && (l.exit.Some? ==> l.exit.value == OfMicros(v.exitUs) || (l.exit.value == OfMicros(0) && v.startUs > 0))
  }

  /** A survey belongs to a process past the gap test and lists all the others of its group. */
  ghost predicate SurveyShape(c: Config, s: State, u: Unit)
    requires u in s.surveys
  {
    var q := s.surveys[u];
    && u in s.slot.procs && s.slot.procs[u].pc.Passed? && q.now == s.slot.procs[u].pc.now
    && u in c.group && q.self == c.self && q.group == c.group[u]
    && (forall v :: SameGroup(c, u, v) && v != u ==>
          exists k :: 0 <= k < |q.units| && q.units[k].unit == v)
    && (forall k :: 0 <= k < |q.units| ==>
          q.units[k].unit in s.services && q.units[k].unit in c.commands && q.units[k].unit != u)
    && S.Consistent(q, MembersOf(c, u, q.units))
  }

  ghost predicate SurveyCurrent(c: Config, s: State, u: Unit)
    requires u in s.surveys
  {
    Untouched(s, u) ==>
      forall k :: 0 <= k < |s.surveys[u].units| && SameGroup(c, u, s.surveys[u].units[k].unit) ==>
        && s.surveys[u].units[k].unit in s.services
        && Current(s.surveys[u].units[k], s.services[s.surveys[u].units[k].unit])
  }

  ghost predicate SurveyOk(c: Config, s: State, u: Unit)
    requires u in s.surveys
  {
    SurveyShape(c, s, u) && SurveyCurrent(c, s, u)
  }

  /** What a winner knows of its group: nobody runs, and everybody exited long enough ago. */
  ghost predicate GroupQuiet(c: Config, s: State, u: Unit, now: Instant) {
    forall v :: SameGroup(c, u, v) && v != u && v in s.services ==>
      !s.services[v].running && s.services[v].exitUs * 1000 + Nanos(S.BLANKING) <= Nanos(now)
  }

  predicate Runs(s: State, u: Unit) {
    u in s.services && s.services[u].running
  }

  ghost predicate AtMostOneRunning(c: Config, s: State) {
    forall u, v :: SameGroup(c, u, v) && Runs(s, u) && Runs(s, v) ==> u == v
  }

  ghost predicate Inv(c: Config, s: State) {
    && J.Inv(s.slot) && s.slot.coarse <= s.fine
    && s.services.Keys == c.commands.Keys
    && (forall u :: u in c.group && u in s.services ==> ServiceOk(s.services[u], s.fine))
    && (forall u :: u in s.slot.procs ==> ProcOk(c, s, u))
    && (forall u :: NonePending(s, u))
    && (forall u :: u in s.surveys ==> SurveyOk(c, s, u))
    && (forall u :: HasWon(s, u) ==> GroupQuiet(c, s, u, s.slot.procs[u].pc.now))
    && AtMostOneRunning(c, s)
  }

  // ---------------------------------------------------------------- every step keeps them

  ghost predicate Stepping(c: Config, s: State, e: Event) {
    && WellFormed(c) && Inv(c, s) && Enabled(c, s, e)
    && J.UptimeFits(s.slot) && WinnersVisibleInTime(s)
  }

  lemma SlotKept(c: Config, s: State, e: Event)
    requires Stepping(c, s, e)
    ensures J.Inv(Apply(c, s, e).slot)
  {
    if SlotEvent(c, e).Some? {
      J.StepKeepsInv(s.slot, SlotEvent(c, e).value);
    }
  }

  /** A winner read its clock after the first five seconds of uptime. */
  lemma WinnerIsLate(c: Config, s: State, u: Unit)
    requires Inv(c, s) && HasWon(s, u)
    ensures Nanos(J.SHORTEST) < Nanos(s.slot.procs[u].pc.now) <= s.slot.coarse
  {
    assert ProcOk(c, s, u);
    assert J.WinOk(s.slot.wins, |s.slot.wins| - 1, s.slot.coarse);
  }

  lemma ServiceKept(c: Config, s: State, e: Event, u: Unit)
    requires Enabled(c, s, e) && u in s.services && ServiceOk(s.services[u], s.fine)
    requires e.MainStart? && e.unit == u ==> s.fine >= 1000
    ensures u in Apply(c, s, e).services
    ensures ServiceOk(Apply(c, s, e).services[u], Apply(c, s, e).fine)
  {
    assert s.fine <= Apply(c, s, e).fine;
  }

  lemma ProcKept(c: Config, s: State, e: Event, u: Unit)
    requires Enabled(c, s, e) && u in Apply(c, s, e).slot.procs
    requires u in s.slot.procs ==> ProcOk(c, s, u)
    requires e.Exchange? && J.ExchangeSucceeds(s.slot, e.unit) ==> !HasWon(s, u)
    ensures ProcOk(c, Apply(c, s, e), u)
  {
  }

  /** When an exchange succeeds, no earlier winner is still pending. */
  lemma NoneWonAtExchange(c: Config, s: State, u: Unit)
    requires Inv(c, s) && J.ExchangeSucceeds(s.slot, u)
    ensures Untouched(s, u) && forall v :: !HasWon(s, v)
  {
    assert J.ProcOk(s.slot, s.slot.procs[u]);
    J.NoRecurrence(s.slot, s.slot.procs[u].pc.seen);
    assert NonePending(s, u);
  }

  /** Passing the gap test on the newest word leaves no time for a pending winner. */
  lemma GapOutlivesPending(c: Config, s: State, u: Unit, v: Unit)
    requires J.Inv(s.slot) && WinnersVisibleInTime(s)
    requires u in s.slot.procs && s.slot.procs[u].pc.Loaded?
    requires s.slot.procs[u].pc.seen == |s.slot.wins|
    requires J.GapPassed(OfNanos(s.slot.coarse), s.slot.procs[u].pc.last, s.slot.procs[u].freq)
    requires v in s.slot.procs ==> ProcOk(c, s, v)
    ensures !HasWon(s, v)
  {
    assert J.ProcOk(s.slot, s.slot.procs[u]);
  }

  /** Only its own clock reading makes a process pass the test, and only an exchange makes a
      winner. */
  lemma PassedBefore(c: Config, s: State, e: Event, u: Unit)
    requires Enabled(c, s, e) && Untouched(Apply(c, s, e), u)
    requires u in s.slot.procs ==> J.ProcOk(s.slot, s.slot.procs[u])
    ensures u in s.slot.procs && forall v :: HasWon(Apply(c, s, e), v) ==> HasWon(s, v)
    ensures if e == ReadClock(u) then
              var p := s.slot.procs[u];
              p.pc.Loaded? && p.pc.seen == |s.slot.wins| && J.GapPassed(OfNanos(s.slot.coarse), p.pc.last, p.freq)
            else Untouched(s, u)
  {
  }

  lemma NonePendingKept(c: Config, s: State, e: Event, u: Unit)
    requires Stepping(c, s, e)
    ensures NonePending(Apply(c, s, e), u)
  {
    if Untouched(Apply(c, s, e), u) {
      PassedBefore(c, s, e, u);
      if e == ReadClock(u) {
        forall v
          ensures !HasWon(s, v)
        {
          GapOutlivesPending(c, s, u, v);
        }
      } else {
        assert NonePending(s, u);
      }
    }
  }

  lemma QuietKept(c: Config, s: State, e: Event, u: Unit, now: Instant)
    requires Enabled(c, s, e) && GroupQuiet(c, s, u, now)
    requires !(e.MainStart? && e.unit in c.group)
    ensures GroupQuiet(c, Apply(c, s, e), u, now)
  {
  }

  /** Nobody of any group starts a main process and leaves another winner waiting. */
  lemma NoStartBesideWinner(c: Config, s: State, e: Event, u: Unit)
    requires Enabled(c, s, e) && HasWon(Apply(c, s, e), u)
    requires forall v :: v in s.slot.procs ==> ProcOk(c, s, v)
    ensures !(e.MainStart? && e.unit in c.group)
  {
    if e.MainStart? && e.unit in c.group {
      J.WonBefore(s.slot, J.Leave(e.unit), u);
    }
  }

  lemma QuietUnit(c: Config, s: State, u: Unit, v: Unit)
    requires Untouched(s, u) && u in s.surveys && SurveyOk(c, s, u)
    requires S.Finished(s.surveys[u]) && S.Outcome(s.surveys[u]).Proceed?
    requires SameGroup(c, u, v) && v != u && v in s.services && ServiceOk(s.services[v], s.fine)
    ensures !s.services[v].running && s.services[v].exitUs * 1000 + Nanos(S.BLANKING) <= Nanos(s.slot.procs[u].pc.now)
  {
    var q := s.surveys[u];
    var k :| 0 <= k < |q.units| && q.units[k].unit == v;
    S.ProceedMeansQuiet(q, MembersOf(c, u, q.units), k);
    assert Current(q.units[k], s.services[v]);
  }

  /** The heart of it: a survey that says "proceed", on a word nobody has touched since,
      means that the group is quiet now. */
  lemma QuietAtExchange(c: Config, s: State, u: Unit)
    requires WellFormed(c) && Inv(c, s) && Enabled(c, s, Exchange(u)) && J.ExchangeSucceeds(s.slot, u)
    ensures GroupQuiet(c, s, u, s.slot.procs[u].pc.now)
  {
    NoneWonAtExchange(c, s, u);
    assert SurveyOk(c, s, u);
    forall v | SameGroup(c, u, v) && v != u && v in s.services
      ensures !s.services[v].running
      ensures s.services[v].exitUs * 1000 + Nanos(S.BLANKING) <= Nanos(s.slot.procs[u].pc.now)
    {
      QuietUnit(c, s, u, v);
    }
  }

  lemma MutexKept(c: Config, s: State, e: Event)
    requires Enabled(c, s, e) && AtMostOneRunning(c, s)
    requires forall u :: HasWon(s, u) ==> GroupQuiet(c, s, u, s.slot.procs[u].pc.now)
    ensures AtMostOneRunning(c, Apply(c, s, e))
  {
    var s' := Apply(c, s, e);
    forall u, v | SameGroup(c, u, v) && Runs(s', u) && Runs(s', v)
      ensures u == v
    {
      if e.MainStart? && e.unit in c.group {
        assert GroupQuiet(c, s, e.unit, s.slot.procs[e.unit].pc.now);
      }
    }
  }

  /** Whoever has won after a step had won before it, or exchanged successfully in it. */
  lemma WonOrExchanges(c: Config, s: State, e: Event, u: Unit)
    requires Enabled(c, s, e) && HasWon(Apply(c, s, e), u)
    ensures u in s.slot.procs
    ensures if e == Exchange(u) then J.ExchangeSucceeds(s.slot, u) && s.slot.procs[u].pc.now == Apply(c, s, e).slot.procs[u].pc.now
            else HasWon(s, u) && s.slot.procs[u] == Apply(c, s, e).slot.procs[u]
  {
    if SlotEvent(c, e).Some? {
      J.WonBefore(s.slot, SlotEvent(c, e).value, u);
    }
  }

  /** Its group was quiet before the step. */
  lemma QuietBefore(c: Config, s: State, e: Event, u: Unit, now: Instant)
    requires WellFormed(c) && Inv(c, s) && Enabled(c, s, e) && u in s.slot.procs
    requires if e == Exchange(u) then J.ExchangeSucceeds(s.slot, u) && s.slot.procs[u].pc.now == now
             else HasWon(s, u) && s.slot.procs[u].pc.now == now
    ensures GroupQuiet(c, s, u, now)
  {
    if e == Exchange(u) {
      QuietAtExchange(c, s, u);
    }
  }

  lemma QuietWinnersKept(c: Config, s: State, e: Event, u: Unit)
    requires Stepping(c, s, e) && HasWon(Apply(c, s, e), u)
    ensures GroupQuiet(c, Apply(c, s, e), u, Apply(c, s, e).slot.procs[u].pc.now)
  {
    var now := Apply(c, s, e).slot.procs[u].pc.now;
    WonOrExchanges(c, s, e, u);
    QuietBefore(c, s, e, u, now);
    NoStartBesideWinner(c, s, e, u);
    QuietKept(c, s, e, u, now);
  }

  lemma SurveyOpened(c: Config, s: State, u: Unit)
    requires WellFormed(c) && Enabled(c, s, ListUnits(u))
    requires s.services.Keys == c.commands.Keys
    requires forall v :: v in c.group && v in s.services ==> ServiceOk(s.services[v], s.fine)
    ensures SurveyOk(c, Apply(c, s, ListUnits(u)), u)
  {
    var others := Others(c.units, u);
    var q := Apply(c, s, ListUnits(u)).surveys[u];
    forall k | 0 <= k < |q.units|
      ensures q.units[k].unit in s.services && q.units[k].unit in c.commands && q.units[k].unit != u
      ensures S.ListedOk(q, k, MembersOf(c, u, q.units)[k])
      ensures SameGroup(c, u, q.units[k].unit) ==> Current(q.units[k], s.services[q.units[k].unit])
    {
      assert q.units[k].unit == others[k] && others[k] in others;
    }
    forall v | SameGroup(c, u, v) && v != u
      ensures exists k :: 0 <= k < |q.units| && q.units[k].unit == v
    {
      assert v in others;
      var k :| 0 <= k < |others| && others[k] == v;
      assert q.units[k].unit == v;
    }
  }

  lemma AbsorbKeepsUnits(q: S.Survey, r: S.Reply)
    requires S.Acceptable(q, r)
    ensures var q' := S.Absorb(q, r);
            && |q'.units| == |q.units| && q'.now == q.now && q'.self == q.self && q'.group == q.group
            && forall k :: 0 <= k < |q.units| ==> q'.units[k].unit == q.units[k].unit
  {
  }

  lemma StillListed(q: S.Survey, q': S.Survey, v: Unit)
    requires |q'.units| == |q.units| && forall k :: 0 <= k < |q.units| ==> q'.units[k].unit == q.units[k].unit
    requires exists k :: 0 <= k < |q.units| && q.units[k].unit == v
    ensures exists k :: 0 <= k < |q'.units| && q'.units[k].unit == v
  {
    var k :| 0 <= k < |q.units| && q.units[k].unit == v;
    assert q'.units[k].unit == v;
  }

  lemma HeardShape(c: Config, s: State, u: Unit, r: S.Reply)
    requires WellFormed(c) && Enabled(c, s, Hear(u, r)) && SurveyShape(c, s, u)
    ensures SurveyShape(c, Apply(c, s, Hear(u, r)), u)
  {
    var q := s.surveys[u];
    var q' := S.Absorb(q, r);
    AbsorbKeepsUnits(q, r);
    assert MembersOf(c, u, q'.units) == MembersOf(c, u, q.units);
    S.BelongsExactly(c.commands[q.units[r.k].unit], q.self, q.group);
    S.AbsorbKeepsConsistent(q, r, MembersOf(c, u, q.units));
    forall w | SameGroup(c, u, w) && w != u
      ensures exists k :: 0 <= k < |q'.units| && q'.units[k].unit == w
    {
      StillListed(q, q', w);
    }
  }

  lemma HeardCurrent(c: Config, s: State, u: Unit, r: S.Reply)
    requires Enabled(c, s, Hear(u, r)) && SurveyCurrent(c, s, u)
    ensures SurveyCurrent(c, Apply(c, s, Hear(u, r)), u)
  {
    var q := s.surveys[u];
    var q' := S.Absorb(q, r);
    forall k | 0 <= k < |q.units| && k != r.k
      ensures q'.units[k] == q.units[k]
    {
    }
  }

  lemma StandingShape(c: Config, s: State, e: Event, u: Unit)
    requires Enabled(c, s, e) && u in s.surveys && u in Apply(c, s, e).surveys && SurveyShape(c, s, u)
    requires !(e.Hear? && e.unit == u) && !(e.ListUnits? && e.unit == u)
    ensures SurveyShape(c, Apply(c, s, e), u)
    ensures Apply(c, s, e).surveys[u] == s.surveys[u]
    ensures Apply(c, s, e).slot.procs[u] == s.slot.procs[u]
  {
    assert forall v :: v in s.services ==> v in Apply(c, s, e).services;
  }

  /** Steps of others leave a survey standing: what it has heard of its group stays current,
      because nobody of the group can start while the word is untouched. */
  lemma StandingCurrent(c: Config, s: State, e: Event, u: Unit, k: nat)
    requires Enabled(c, s, e) && u in s.surveys && k < |s.surveys[u].units|
    requires SameGroup(c, u, s.surveys[u].units[k].unit) && s.surveys[u].units[k].unit in s.services
    requires Current(s.surveys[u].units[k], s.services[s.surveys[u].units[k].unit])
    requires !HasWon(s, s.surveys[u].units[k].unit) && ServiceOk(s.services[s.surveys[u].units[k].unit], s.fine)
    ensures s.surveys[u].units[k].unit in Apply(c, s, e).services
    ensures Current(s.surveys[u].units[k], Apply(c, s, e).services[s.surveys[u].units[k].unit])
  {
  }

  lemma SurveyStands(c: Config, s: State, e: Event, u: Unit)
    requires Enabled(c, s, e) && u in s.surveys && u in Apply(c, s, e).surveys && SurveyOk(c, s, u)
    requires !(e.Hear? && e.unit == u) && !(e.ListUnits? && e.unit == u)
    requires NonePending(s, u) && J.ProcOk(s.slot, s.slot.procs[u])
    requires forall v :: v in c.group && v in s.services ==> ServiceOk(s.services[v], s.fine)
    ensures SurveyOk(c, Apply(c, s, e), u)
  {
    var s' := Apply(c, s, e);
    StandingShape(c, s, e, u);
    if Untouched(s', u) {
      assert |s.slot.wins| <= |s'.slot.wins|;
      assert Untouched(s, u);
      forall k | 0 <= k < |s.surveys[u].units| && SameGroup(c, u, s.surveys[u].units[k].unit)
        ensures s.surveys[u].units[k].unit in s'.services
        ensures Current(s.surveys[u].units[k], s'.services[s.surveys[u].units[k].unit])
      {
        assert !HasWon(s, s.surveys[u].units[k].unit);
        StandingCurrent(c, s, e, u, k);
      }
    }
  }

  lemma SurveysKept(c: Config, s: State, e: Event, u: Unit)
    requires Stepping(c, s, e) && u in Apply(c, s, e).surveys
    ensures SurveyOk(c, Apply(c, s, e), u)
  {
    if e.ListUnits? && e.unit == u {
      SurveyOpened(c, s, u);
    } else if e.Hear? && e.unit == u {
      assert SurveyOk(c, s, u);
      HeardShape(c, s, u, e.reply);
      HeardCurrent(c, s, u, e.reply);
    } else {
      assert SurveyOk(c, s, u);
      SurveyStands(c, s, e, u);
    }
  }

  lemma ServicesKept(c: Config, s: State, e: Event)
    requires Enabled(c, s, e) && s.slot.coarse <= s.fine && s.services.Keys == c.commands.Keys
    requires forall u :: u in c.group && u in s.services ==> ServiceOk(s.services[u], s.fine)
    requires e.MainStart? && e.unit in c.group ==> s.fine >= 1000
    ensures var s' := Apply(c, s, e);
            && s'.services.Keys == c.commands.Keys && s'.slot.coarse <= s'.fine
            && forall u :: u in c.group && u in s'.services ==> ServiceOk(s'.services[u], s'.fine)
  {
    var s' := Apply(c, s, e);
    forall u | u in c.group && u in s'.services
      ensures ServiceOk(s'.services[u], s'.fine)
    {
      ServiceKept(c, s, e, u);
    }
  }

  lemma ProcsKept(c: Config, s: State, e: Event, u: Unit)
    requires Stepping(c, s, e) && u in Apply(c, s, e).slot.procs
    ensures ProcOk(c, Apply(c, s, e), u)
  {
    if e.Exchange? && J.ExchangeSucceeds(s.slot, e.unit) {
      NoneWonAtExchange(c, s, e.unit);
    }
    ProcKept(c, s, e, u);
  }

  lemma StepKeepsInv(c: Config, s: State, e: Event)
    requires Stepping(c, s, e)
    ensures Inv(c, Apply(c, s, e))
  {
    var s' := Apply(c, s, e);
    SlotKept(c, s, e);
    if e.MainStart? && e.unit in c.group {
      WinnerIsLate(c, s, e.unit);
    }
    ServicesKept(c, s, e);
    MutexKept(c, s, e);
    assert forall u :: u in s'.slot.procs ==> ProcOk(c, s', u) by {
      forall u | u in s'.slot.procs ensures ProcOk(c, s', u) { ProcsKept(c, s, e, u); }
    }
    assert forall u :: NonePending(s', u) by {
      forall u ensures NonePending(s', u) { NonePendingKept(c, s, e, u); }
    }
    assert forall u :: u in s'.surveys ==> SurveyOk(c, s', u) by {
      forall u | u in s'.surveys ensures SurveyOk(c, s', u) { SurveysKept(c, s, e, u); }
    }
    assert forall u :: HasWon(s', u) ==> GroupQuiet(c, s', u, s'.slot.procs[u].pc.now) by {
      forall u | HasWon(s', u) ensures GroupQuiet(c, s', u, s'.slot.procs[u].pc.now) {
        QuietWinnersKept(c, s, e, u);
      }
    }
  }

  // ---------------------------------------------------------------- safety over every run

  /** The two named assumptions, at every moment of a run. */
  ghost predicate Assumed(states: seq<State>) {
    forall i :: 0 <= i < |states| ==> J.UptimeFits(states[i].slot) && WinnersVisibleInTime(states[i])
  }

  lemma {:induction false} InvAlong(c: Config, states: seq<State>, events: seq<Event>, i: nat)
    requires Run(c, states, events) && Assumed(states) && i <= |events|
    ensures Inv(c, states[i])
  {
    if i > 0 {
      InvAlong(c, states, events, i - 1);
      assert Enabled(c, states[i - 1], events[i - 1]) && WinnersVisibleInTime(states[i - 1]);
      StepKeepsInv(c, states[i - 1], events[i - 1]);
      assert states[(i - 1) + 1] == Apply(c, states[i - 1], events[i - 1]);
    }
  }

  /** After an exit, a unit runs again or its exit timestamp is no earlier. */
  predicate ExitRemembered(s: State, v: Unit, exitedUs: nat) {
    && v in s.services && exitedUs <= s.fine / 1000
    && if s.services[v].running then exitedUs <= s.services[v].startUs else exitedUs <= s.services[v].exitUs
  }

  lemma ExitStaysRemembered(c: Config, s: State, e: Event, v: Unit, exitedUs: nat)
    requires Enabled(c, s, e) && ExitRemembered(s, v, exitedUs)
    ensures ExitRemembered(Apply(c, s, e), v, exitedUs)
  {
    assert s.fine <= Apply(c, s, e).fine;
  }

  lemma ExitNoted(c: Config, s: State, e: Event)
    requires Enabled(c, s, e) && e.MainExit?
    ensures ExitRemembered(Apply(c, s, e), e.unit, s.fine / 1000)
  {
  }

  lemma {:induction false} ExitRememberedAlong(c: Config, states: seq<State>, events: seq<Event>,
                                               i: nat, j: nat, v: Unit)
    requires Run(c, states, events) && i < j <= |events|
    requires events[i].MainExit? && events[i].unit == v
    ensures ExitRemembered(states[j], v, states[i].fine / 1000)
  {
    StepOf(c, states, events, j - 1);
    if i < j - 1 {
      ExitRememberedAlong(c, states, events, i, j - 1, v);
      ExitStaysRemembered(c, states[j - 1], events[j - 1], v, states[i].fine / 1000);
    } else {
      ExitNoted(c, states[i], events[i]);
    }
  }

  lemma StepOf(c: Config, states: seq<State>, events: seq<Event>, i: nat)
    requires Run(c, states, events) && i < |events|
    ensures Enabled(c, states[i], events[i]) && states[i + 1] == Apply(c, states[i], events[i])
  {
  }

  /** Throttle groups, first invariant: in every run in which winners become visible in time,
      no two jobs of one group ever run at the same time. */
  lemma NoTwoJobsRun(c: Config, states: seq<State>, events: seq<Event>, i: nat, u: Unit, v: Unit)
    requires Run(c, states, events) && Assumed(states) && i <= |events|
    requires SameGroup(c, u, v) && Runs(states[i], u) && Runs(states[i], v)
    ensures u == v
  {
    InvAlong(c, states, events, i);
  }

  /** Throttle groups, second invariant: no job starts sooner than five minutes, by systemd's
      own timestamps, after any earlier exit of another job of its group. */
  lemma FiveMinutesAfterExit(c: Config, states: seq<State>, events: seq<Event>, i: nat, j: nat)
    requires Run(c, states, events) && Assumed(states) && i < j < |events|
    requires events[i].MainExit? && events[j].MainStart?
    requires SameGroup(c, events[i].unit, events[j].unit) && events[i].unit != events[j].unit
    ensures states[j + 1].services[events[j].unit].startUs >= states[i + 1].services[events[i].unit].exitUs + 300_000_000
  {
    var u, v := events[j].unit, events[i].unit;
    InvAlong(c, states, events, j);
    ExitRememberedAlong(c, states, events, i, j, v);
    assert Enabled(c, states[i], events[i]) && states[i + 1] == Apply(c, states[i], events[i]);
    assert Enabled(c, states[j], events[j]) && states[j + 1] == Apply(c, states[j], events[j]);
    var now := states[j].slot.procs[u].pc.now;
    assert HasWon(states[j], u) && GroupQuiet(c, states[j], u, now);
    WinnerIsLate(c, states[j], u);
    assert Runs(states[j], v) == false;
  }

  // ---------------------------------------------------------------- the shared queue alone

  /** The queue's moves among the first n events, and the queue's states between them. */
  ghost function SlotEvents(c: Config, events: seq<Event>, n: nat): seq<J.Event>
    requires n <= |events|
  {
    if n == 0 then []
    else
      var before := SlotEvents(c, events, n - 1);
      if SlotEvent(c, events[n - 1]).Some? then before + [SlotEvent(c, events[n - 1]).value] else before
  }

  ghost function SlotStates(c: Config, states: seq<State>, events: seq<Event>, n: nat): seq<J.State>
    requires n <= |events| < |states|
  {
    if n == 0 then [states[0].slot]
    else
      var before := SlotStates(c, states, events, n - 1);
      if SlotEvent(c, events[n - 1]).Some? then before + [states[n].slot] else before
  }

  lemma SlotMoves(states: seq<J.State>, events: seq<J.Event>, e: J.Event)
    requires J.Run(states, events) && J.Enabled(states[|events|], e)
    ensures J.Run(states + [J.Apply(states[|events|], e)], events + [e])
  {
    var states', events' := states + [J.Apply(states[|events|], e)], events + [e];
    forall i | 0 <= i < |events'|
      ensures J.Enabled(states'[i], events'[i]) && states'[i + 1] == J.Apply(states'[i], events'[i])
    {
      if i < |events| {
        assert states'[i] == states[i] && states'[i + 1] == states[i + 1] && events'[i] == events[i];
      }
    }
  }

  /** Refinement: whatever systemd does, and with no assumption on it, the shared word and the
      processes run as the plain queue does; so all that holds of its runs holds here. */
  lemma {:induction false} RefinesQueue(c: Config, states: seq<State>, events: seq<Event>, n: nat)
    requires Run(c, states, events) && n <= |events|
    ensures var queue, moves := SlotStates(c, states, events, n), SlotEvents(c, events, n);
            J.Run(queue, moves) && queue[|moves|] == states[n].slot
  {
    if n > 0 {
      RefinesQueue(c, states, events, n - 1);
      assert Enabled(c, states[n - 1], events[n - 1]);
      assert states[(n - 1) + 1] == Apply(c, states[n - 1], events[n - 1]);
      if SlotEvent(c, events[n - 1]).Some? {
        SlotMoves(SlotStates(c, states, events, n - 1), SlotEvents(c, events, n - 1), SlotEvent(c, events[n - 1]).value);
      }
    }
  }

  lemma {:induction false} SlotStatesFit(c: Config, states: seq<State>, events: seq<Event>, n: nat)
    requires n <= |events| < |states| && forall i :: 0 <= i < |states| ==> J.UptimeFits(states[i].slot)
    ensures J.FitsAlong(SlotStates(c, states, events, n))
  {
    if n > 0 {
      SlotStatesFit(c, states, events, n - 1);
    }
  }

  /** The dispatches of a throttle run are spaced, and the winning attempts do not overlap. */
  lemma DispatchesExclusive(c: Config, states: seq<State>, events: seq<Event>, n: nat, a: nat, b: nat)
    requires Run(c, states, events) && n <= |events|
    requires forall i :: 0 <= i < |states| ==> J.UptimeFits(states[i].slot)
    requires a < b < |states[n].slot.wins|
    ensures var wins := states[n].slot.wins;
            && Nanos(wins[b].now) - Nanos(wins[a].now) > Nanos(wins[b].freq) - TICK
            && wins[a].loadedAt < wins[a].wonAt < wins[b].loadedAt < wins[b].wonAt
            && wins[a].last != wins[b].last
  {
    var queue, moves := SlotStates(c, states, events, n), SlotEvents(c, events, n);
    RefinesQueue(c, states, events, n);
    SlotStatesFit(c, states, events, n);
    J.InvAlong(queue, moves, |moves|);
    J.WinsSpaced(states[n].slot, a, b);
    J.WinningAttemptsDisjoint(queue, moves, |moves|, a, b);
  }

  // ---------------------------------------------------------------- how long a helper waits

  predicate ArrivalOf(e: Event, u: Unit) {
    e.Arrive? && e.unit == u
  }

  lemma FreqKept(c: Config, s: State, e: Event, u: Unit)
    requires Enabled(c, s, e) && u in Apply(c, s, e).slot.procs && !ArrivalOf(e, u)
    ensures u in s.slot.procs && Apply(c, s, e).slot.procs[u].freq == s.slot.procs[u].freq
  {
  }

  lemma FreqSet(c: Config, s: State, e: Event, u: Unit)
    requires Enabled(c, s, e) && ArrivalOf(e, u)
    ensures u in Apply(c, s, e).slot.procs
    ensures Nanos(Apply(c, s, e).slot.procs[u].freq) == if e.loaded then 30_000_000_000 else 5_000_000_000
  {
  }

  lemma FreqAfter(c: Config, s: State, e: Event, t: State, u: Unit)
    requires Enabled(c, s, e) && t == Apply(c, s, e) && u in t.slot.procs
    ensures if ArrivalOf(e, u) then Nanos(t.slot.procs[u].freq) == (if e.loaded then 30_000_000_000 else 5_000_000_000)
            else u in s.slot.procs && t.slot.procs[u].freq == s.slot.procs[u].freq
  {
    if ArrivalOf(e, u) {
      FreqSet(c, s, e, u);
    } else {
      FreqKept(c, s, e, u);
    }
  }

  lemma NobodyAtFirst(c: Config, states: seq<State>, events: seq<Event>, u: Unit)
    requires Run(c, states, events)
    ensures u !in states[0].slot.procs
  {
  }

  /** The latest arrival of a unit's helper before the i-th event. */
  ghost predicate LatestArrival(events: seq<Event>, k: nat, i: nat, u: Unit) {
    k < i <= |events| && ArrivalOf(events[k], u) && forall j :: k < j < i ==> !ArrivalOf(events[j], u)
  }

  lemma NoLaterArrival(events: seq<Event>, k: nat, i: nat, u: Unit)
    requires LatestArrival(events, k, i, u) && i < |events| && !ArrivalOf(events[i], u)
    ensures LatestArrival(events, k, i + 1, u)
  {
  }

  lemma FreqStep(c: Config, states: seq<State>, events: seq<Event>, i: nat, u: Unit)
    requires Run(c, states, events) && i <= |events| && u in states[i].slot.procs
    ensures i > 0
    ensures if ArrivalOf(events[i - 1], u)
            then Nanos(states[i].slot.procs[u].freq) == (if events[i - 1].loaded then 30_000_000_000 else 5_000_000_000)
            else u in states[i - 1].slot.procs && states[i].slot.procs[u].freq == states[i - 1].slot.procs[u].freq
  {
    NobodyAtFirst(c, states, events, u);
    StepOf(c, states, events, i - 1);
    FreqAfter(c, states[i - 1], events[i - 1], states[i], u);
  }

  /** When a unit's helper arrived, and how long it waits since. */
  lemma {:induction false} Arrived(c: Config, states: seq<State>, events: seq<Event>, i: nat, u: Unit) returns (k: nat)
    requires Run(c, states, events) && i <= |events| && u in states[i].slot.procs
    ensures LatestArrival(events, k, i, u)
    ensures Nanos(states[i].slot.procs[u].freq) == if events[k].loaded then 30_000_000_000 else 5_000_000_000
  {
    FreqStep(c, states, events, i, u);
    if ArrivalOf(events[i - 1], u) {
      k := i - 1;
    } else {
      k := Arrived(c, states, events, i - 1, u);
      NoLaterArrival(events, k, i - 1, u);
    }
  }

  /** In every run, a helper that reads the clock goes on just if more than 5 s, or 30 s for one
      with a load target, have passed since the time in the word that it loaded. */
  lemma HelperGapExactly(c: Config, states: seq<State>, events: seq<Event>, i: nat, u: Unit) returns (k: nat)
    requires Run(c, states, events) && i < |events| && events[i] == ReadClock(u)
    ensures LatestArrival(events, k, i, u)
    ensures u in states[i].slot.procs && states[i].slot.procs[u].pc.Loaded? && u in states[i + 1].slot.procs
    ensures states[i + 1].slot.procs[u].pc.Passed? <==>
              states[i].slot.coarse > Nanos(Stored(states[i].slot.procs[u].pc.last))
                                      + if events[k].loaded then 30_000_000_000 else 5_000_000_000
  {
    StepOf(c, states, events, i);
    k := Arrived(c, states, events, i, u);
    J.GapIsNanos(OfNanos(states[i].slot.coarse), states[i].slot.procs[u].pc.last, states[i].slot.procs[u].freq);
  }

  // ---------------------------------------------------------------- no helper is ever stuck

  /** A step that a helper takes, or a reply to it. */
  predicate OwnStep(e: Event, u: Unit) {
    (e.Load? || e.ReadClock? || e.ListUnits? || e.Hear? || e.Resolve? || e.Exchange?) && e.unit == u
  }

  lemma ReplyToCome(c: Config, s: State, u: Unit) returns (r: S.Reply)
    requires u in s.surveys && SurveyShape(c, s, u) && !S.Finished(s.surveys[u])
    ensures Enabled(c, s, Hear(u, r))
  {
    var q := s.surveys[u];
    var k :| 0 <= k < |q.units| && !(q.units[k].answered && (q.units[k].asked ==> q.units[k].start.Some? && q.units[k].exit.Some?));
    var v := q.units[k].unit;
    assert S.ListedOk(q, k, MembersOf(c, u, q.units)[k]);
    r := if !q.units[k].answered then S.Commands(k, c.commands[v])
         else if q.units[k].start.None? then S.Started(k, s.services[v].startUs)
         else S.Exited(k, s.services[v].exitUs);
  }

  lemma SurveyStep(c: Config, s: State, u: Unit) returns (e: Event)
    requires u in s.surveys && SurveyShape(c, s, u)
    ensures OwnStep(e, u) && Enabled(c, s, e)
    ensures e.Resolve? ==> u in Apply(c, s, e).slot.procs && Apply(c, s, e).slot.procs[u].pc.Top?
  {
    if !S.Finished(s.surveys[u]) {
      var r := ReplyToCome(c, s, u);
      e := Hear(u, r);
    } else if S.Outcome(s.surveys[u]).Sleep? {
      e := Resolve(u);
    } else {
      e := Exchange(u);
    }
  }

  lemma StepToTake(c: Config, s: State, u: Unit) returns (e: Event)
    requires WellFormed(c) && s.services.Keys == c.commands.Keys && u in s.slot.procs && !HasWon(s, u) && u in c.group
    requires u in s.surveys ==> SurveyShape(c, s, u)
    ensures OwnStep(e, u) && Enabled(c, s, e)
    ensures e.Resolve? ==> u in Apply(c, s, e).slot.procs && Apply(c, s, e).slot.procs[u].pc.Top?
  {
    var pc := s.slot.procs[u].pc;
    if pc.Top? {
      e := Load(u);
    } else if pc.Loaded? {
      e := ReadClock(u);
    } else if u !in s.surveys {
      e := ListUnits(u);
    } else {
      e := SurveyStep(c, s, u);
    }
  }

  lemma HelperKnown(c: Config, s: State, u: Unit)
    requires Inv(c, s) && u in s.slot.procs
    ensures u in c.group && s.services.Keys == c.commands.Keys && (u in s.surveys ==> SurveyShape(c, s, u))
  {
    assert ProcOk(c, s, u);
    assert u in s.surveys ==> SurveyOk(c, s, u);
  }

  /** In every run, a helper that has not won can always go on, whatever the others do: it has a step
      of its own to take or a reply to receive, and one that is told to sleep begins again. */
  lemma NeverStuck(c: Config, states: seq<State>, events: seq<Event>, i: nat, u: Unit) returns (e: Event)
    requires Run(c, states, events) && Assumed(states) && i <= |events| && u in states[i].slot.procs && !HasWon(states[i], u)
    ensures OwnStep(e, u) && Enabled(c, states[i], e)
    ensures e.Resolve? ==> u in Apply(c, states[i], e).slot.procs && Apply(c, states[i], e).slot.procs[u].pc.Top?
  {
    InvAlong(c, states, events, i);
    HelperKnown(c, states[i], u);
    e := StepToTake(c, states[i], u);
  }
}

/** The lock-free queue over one shared word that src/bin/loadavg_dam.cpp and
    src/bin/throttle_group.cpp have in common. Any number of processes load the word, read
    the coarse clock, test the gap, possibly give up, and compare-exchange; every one of
    these is a step of its own, interleaved at will. */
module JobSlot {
  import opened Timespecs
  import opened SharedWord

  type Id = nat

  /** Where a process is in its loop, with its locals. `seen` and `loadedAt` are history:
      the number of exchanges won, and the index of the step, when it loaded the word. */
  datatype Pc =
    | Top
    | Loaded(last: Word, seen: nat, loadedAt: nat)
    | Passed(last: Word, seen: nat, loadedAt: nat, now: Instant)
    | Won(now: Instant)

  datatype Proc = Proc(pid: bv32, freq: Instant, pc: Pc)

  /** One successful exchange, as recorded in the history. */
  datatype Win = Win(id: Id, pid: bv32, freq: Instant, last: Word, now: Instant,
                     loadedAt: nat, wonAt: nat)

  /** `coarse` is CLOCK_MONOTONIC_COARSE in nanoseconds; `steps` and `wins` are history. */
  datatype State = State(coarse: nat, word: Word, procs: map<Id, Proc>, steps: nat, wins: seq<Win>)

  datatype Event =
    | Tick(coarse: nat)
    | Arrive(id: Id, pid: bv32, freq: Instant)
    | Load(id: Id)
    | ReadClock(id: Id)
    | GiveUp(id: Id)
    | Exchange(id: Id)
    | Leave(id: Id)

  /** The helpers wait at least this long after the previous dispatch. */
  const SHORTEST := Timespec(5, 0)
  const LOADED_FREQ := Timespec(30, 0)

  predicate Init(s: State) {
    s.word == EMPTY && s.procs == map[] && s.wins == [] && s.steps == 0
  }

  predicate Enabled(s: State, e: Event) {
    match e
    case Tick(coarse) => s.coarse <= coarse
    case Arrive(id, _, freq) => id !in s.procs && (freq == SHORTEST || freq == LOADED_FREQ)
    case Load(id) => id in s.procs && s.procs[id].pc.Top?
    case ReadClock(id) => id in s.procs && s.procs[id].pc.Loaded?
    case GiveUp(id) => id in s.procs && s.procs[id].pc.Passed?
    case Exchange(id) => id in s.procs && s.procs[id].pc.Passed?
    case Leave(id) => id in s.procs
  }

  /** `(now - last) > freq`. */
  predicate GapPassed(now: Instant, last: Word, freq: Instant) {
    Greater(Minus(now, Stored(last)), freq)
  }

  /** In nanoseconds. */
  lemma GapIsNanos(now: Instant, last: Word, freq: Instant)
    ensures GapPassed(now, last, freq) <==> Nanos(now) > Nanos(Stored(last)) + Nanos(freq)
  {
  }

  function Moved(s: State, id: Id, pc: Pc): State
    requires id in s.procs
  {
    s.(procs := s.procs[id := s.procs[id].(pc := pc)], steps := s.steps + 1)
  }

  predicate ExchangeSucceeds(s: State, id: Id) {
    id in s.procs && s.procs[id].pc.Passed? && s.word == s.procs[id].pc.last
  }

  function Apply(s: State, e: Event): State
    requires Enabled(s, e)
  {
    match e
    case Tick(coarse) => s.(coarse := coarse, steps := s.steps + 1)
    case Arrive(id, pid, freq) => s.(procs := s.procs[id := Proc(pid, freq, Top)], steps := s.steps + 1)
    case Load(id) => Moved(s, id, Loaded(s.word, |s.wins|, s.steps))
    case ReadClock(id) =>
      var p := s.procs[id];
      var now := OfNanos(s.coarse);
      Moved(s, id, if GapPassed(now, p.pc.last, p.freq)
                   then Passed(p.pc.last, p.pc.seen, p.pc.loadedAt, now) else Top)
    case GiveUp(id) => Moved(s, id, Top)
    case Exchange(id) =>
      var p := s.procs[id];
      if ExchangeSucceeds(s, id) then
        Moved(s, id, Won(p.pc.now))
          .(word := Pack(p.pid, p.pc.now),
            wins := s.wins + [Win(id, p.pid, p.freq, p.pc.last, p.pc.now, p.pc.loadedAt, s.steps)])
      else
        Moved(s, id, Top)
    case Leave(id) => s.(procs := s.procs - {id}, steps := s.steps + 1)
  }

  /** A process moves only by its own steps. */
  lemma OthersUnmoved(s: State, e: Event, id: Id)
    requires Enabled(s, e) && id in Apply(s, e).procs && (e.Tick? || e.id != id)
    ensures id in s.procs && Apply(s, e).procs[id] == s.procs[id]
  {
  }

  /** Only a successful exchange makes a winner. */
  lemma WonBefore(s: State, e: Event, id: Id)
    requires Enabled(s, e) && id in Apply(s, e).procs && Apply(s, e).procs[id].pc.Won?
    ensures id in s.procs && e != Leave(id)
    ensures if e == Exchange(id) then ExchangeSucceeds(s, id) && s.procs[id].pc.now == Apply(s, e).procs[id].pc.now
            else s.procs[id] == Apply(s, e).procs[id]
  {
  }

  ghost predicate Run(states: seq<State>, events: seq<Event>) {
    && |states| == |events| + 1
    && Init(states[0])
    && forall i :: 0 <= i < |events| ==>
         Enabled(states[i], events[i]) && states[i + 1] == Apply(states[i], events[i])
  }

  /** Named assumption: the coarse clock's seconds fit the word's 32 bits. */
  predicate UptimeFits(s: State) {
    s.coarse < 0x1_0000_0000 * 1_000_000_000
  }

  // ---------------------------------------------------------------- invariants

  /** The word's contents after the first `k` wins. */
  function WordAt(wins: seq<Win>, k: nat): Word
    requires k <= |wins|
  {
    if k == 0 then EMPTY else Pack(wins[k - 1].pid, wins[k - 1].now)
  }

  /** Each win follows its predecessor by more than its own threshold, in stored time. */
  predicate WinOk(wins: seq<Win>, k: nat, coarse: nat)
    requires k < |wins|
  {
    && Fits(wins[k].now)
    && Nanos(wins[k].now) <= coarse
    && Nanos(SHORTEST) <= Nanos(wins[k].freq)
    && wins[k].last == WordAt(wins, k)
    && Nanos(wins[k].now) > Nanos(Stored(WordAt(wins, k))) + Nanos(wins[k].freq)
  }

  /** The k-th attempt began after the win before it, and ended at its own exchange. */
  predicate AttemptOk(wins: seq<Win>, k: nat, steps: nat)
    requires k < |wins|
  {
    && wins[k].loadedAt < wins[k].wonAt < steps
    && (0 < k ==> wins[k - 1].wonAt < wins[k].loadedAt)
  }

  predicate SeenOk(s: State, last: Word, seen: nat, loadedAt: nat) {
    && seen <= |s.wins|
    && last == WordAt(s.wins, seen)
    && loadedAt < s.steps
    && (0 < seen ==> s.wins[seen - 1].wonAt < loadedAt)
    && (seen < |s.wins| ==> loadedAt < s.wins[seen].wonAt)
  }

  predicate ProcOk(s: State, p: Proc) {
    && Nanos(SHORTEST) <= Nanos(p.freq)
    && (p.pc.Loaded? ==> SeenOk(s, p.pc.last, p.pc.seen, p.pc.loadedAt))
    && (p.pc.Passed? ==>
          && SeenOk(s, p.pc.last, p.pc.seen, p.pc.loadedAt)
          && Fits(p.pc.now) && Nanos(p.pc.now) <= s.coarse
          && Nanos(p.pc.now) > Nanos(Stored(p.pc.last)) + Nanos(p.freq))
  }

  ghost predicate Inv(s: State) {
    && s.word == WordAt(s.wins, |s.wins|)
    && (forall k :: 0 <= k < |s.wins| ==> WinOk(s.wins, k, s.coarse))
    && (forall k :: 0 <= k < |s.wins| ==> AttemptOk(s.wins, k, s.steps))
    && (forall id :: id in s.procs ==> ProcOk(s, s.procs[id]))
  }

  /** Stored times strictly increase from one win to any later one. */
  lemma {:induction false} StoredIncreases(wins: seq<Win>, coarse: nat, i: nat, j: nat)
    requires forall k :: 0 <= k < |wins| ==> WinOk(wins, k, coarse)
    requires i < j <= |wins|
    ensures Nanos(Stored(WordAt(wins, i))) < Nanos(Stored(WordAt(wins, j)))
  {
    assert WinOk(wins, j - 1, coarse);
    Truncation(wins[j - 1].pid, wins[j - 1].now);
    if i < j - 1 {
      StoredIncreases(wins, coarse, i, j - 1);
    }
  }

  /** No value of the word ever recurs, so comparing words compares how many wins were seen. */
  lemma NoRecurrence(s: State, seen: nat)
    requires Inv(s) && seen <= |s.wins|
    ensures WordAt(s.wins, seen) == s.word <==> seen == |s.wins|
  {
    if seen < |s.wins| {
      StoredIncreases(s.wins, s.coarse, seen, |s.wins|);
    }
  }

  lemma WordAtPrefix(wins: seq<Win>, w: Win, k: nat)
    requires k <= |wins|
    ensures WordAt(wins + [w], k) == WordAt(wins, k)
  {
  }

  lemma SuccessKeepsInv(s: State, id: Id)
    requires Inv(s) && ExchangeSucceeds(s, id)
    ensures Inv(Apply(s, Exchange(id)))
  {
    var s' := Apply(s, Exchange(id));
    var p := s.procs[id];
    assert ProcOk(s, p);
    NoRecurrence(s, p.pc.seen);
    forall k | 0 <= k < |s'.wins|
      ensures WinOk(s'.wins, k, s'.coarse) && AttemptOk(s'.wins, k, s'.steps)
    {
      WordAtPrefix(s.wins, s'.wins[|s.wins|], k);
      if k < |s.wins| {
        assert WinOk(s.wins, k, s.coarse) && AttemptOk(s.wins, k, s.steps);
      }
    }
    forall q | q in s'.procs
      ensures ProcOk(s', s'.procs[q])
    {
      assert ProcOk(s, s.procs[q]);
      if q != id && (s.procs[q].pc.Loaded? || s.procs[q].pc.Passed?) {
        WordAtPrefix(s.wins, s'.wins[|s.wins|], s.procs[q].pc.seen);
      }
    }
  }

  lemma ClockFits(s: State)
    requires UptimeFits(s)
    ensures Fits(OfNanos(s.coarse)) && Nanos(OfNanos(s.coarse)) == s.coarse
  {
  }

  lemma ClockReadKept(s: State, q: Id)
    requires Enabled(s, ReadClock(q)) && UptimeFits(s) && ProcOk(s, s.procs[q])
    ensures ProcOk(Apply(s, ReadClock(q)), Apply(s, ReadClock(q)).procs[q])
  {
    ClockFits(s);
  }

  /** Steps other than a successful exchange. */
  lemma ProcKept(s: State, e: Event, q: Id)
    requires Enabled(s, e) && UptimeFits(s) && q in Apply(s, e).procs
    requires s.word == WordAt(s.wins, |s.wins|) && (0 < |s.wins| ==> s.wins[|s.wins| - 1].wonAt < s.steps)
    requires !(e.Exchange? && ExchangeSucceeds(s, e.id))
    requires q in s.procs ==> ProcOk(s, s.procs[q])
    ensures ProcOk(Apply(s, e), Apply(s, e).procs[q])
  {
    if e == ReadClock(q) {
      ClockReadKept(s, q);
    } else if e.Tick? || e.id != q {
      OthersUnmoved(s, e, q);
    }
  }

  lemma WinKept(s: State, e: Event, k: nat)
    requires Enabled(s, e) && k < |s.wins| && WinOk(s.wins, k, s.coarse) && AttemptOk(s.wins, k, s.steps)
    ensures WinOk(s.wins, k, Apply(s, e).coarse) && AttemptOk(s.wins, k, Apply(s, e).steps)
  {
  }

  lemma StepKeepsInv(s: State, e: Event)
    requires Inv(s) && Enabled(s, e) && UptimeFits(s)
    ensures Inv(Apply(s, e))
  {
    if e.Exchange? && ExchangeSucceeds(s, e.id) {
      SuccessKeepsInv(s, e.id);
    } else {
      var s' := Apply(s, e);
      assert s'.wins == s.wins && s'.word == s.word;
      assert 0 < |s.wins| ==> AttemptOk(s.wins, |s.wins| - 1, s.steps);
      forall k | 0 <= k < |s.wins|
        ensures WinOk(s.wins, k, s'.coarse) && AttemptOk(s.wins, k, s'.steps)
      {
        WinKept(s, e, k);
      }
      forall q | q in s'.procs
        ensures ProcOk(s', s'.procs[q])
      {
        ProcKept(s, e, q);
      }
    }
  }

  lemma {:induction false} InvAlong(states: seq<State>, events: seq<Event>, i: nat)
    requires Run(states, events) && i <= |events|
    requires forall k :: 0 <= k < |states| ==> UptimeFits(states[k])
    ensures Inv(states[i])
  {
    if i > 0 {
      InvAlong(states, events, i - 1);
      assert Enabled(states[i - 1], events[i - 1]) && UptimeFits(states[i - 1]);
      StepKeepsInv(states[i - 1], events[i - 1]);
      assert states[(i - 1) + 1] == Apply(states[i - 1], events[i - 1]);
    }
  }

  // ---------------------------------------------------------------- what every run keeps

  ghost predicate FitsAlong(states: seq<State>) {
    forall k :: 0 <= k < |states| ==> UptimeFits(states[k])
  }

  lemma {:induction false} WinsGrow(states: seq<State>, events: seq<Event>, i: nat, j: nat)
    requires Run(states, events) && i <= j <= |events|
    ensures states[i].wins <= states[j].wins && states[j].steps == j
    decreases j - i, j
  {
    if i < j {
      WinsGrow(states, events, i, j - 1);
      assert Enabled(states[j - 1], events[j - 1]);
      assert states[(j - 1) + 1] == Apply(states[j - 1], events[j - 1]);
    } else if 0 < j {
      WinsGrow(states, events, j - 1, j - 1);
      assert Enabled(states[j - 1], events[j - 1]);
      assert states[(j - 1) + 1] == Apply(states[j - 1], events[j - 1]);
    }
  }

  /** An attempt under way at step `i` really loaded the word at `loadedAt`, and has not
      tried to exchange it since. */
  ghost predicate AttemptAnchored(states: seq<State>, events: seq<Event>, i: nat, id: Id)
    requires |states| == |events| + 1 && i <= |events| && id in states[i].procs
  {
    var pc := states[i].procs[id].pc;
    pc.Loaded? || pc.Passed? ==>
      && pc.loadedAt < i
      && events[pc.loadedAt] == Load(id)
      && states[pc.loadedAt].word == pc.last
      && |states[pc.loadedAt].wins| == pc.seen
      && forall u :: pc.loadedAt <= u < i ==> events[u] != Exchange(id)
  }

  ghost predicate WinAnchored(states: seq<State>, events: seq<Event>, i: nat, k: nat)
    requires |states| == |events| + 1 && i <= |events| && k < |states[i].wins|
  {
    var w := states[i].wins[k];
    && w.loadedAt < w.wonAt < i
    && events[w.loadedAt] == Load(w.id) && events[w.wonAt] == Exchange(w.id)
    && ExchangeSucceeds(states[w.wonAt], w.id)
    && |states[w.loadedAt].wins| == |states[w.wonAt].wins| == k
  }

  lemma StepAnchors(states: seq<State>, events: seq<Event>, i: nat, id: Id)
    requires |states| == |events| + 1 && 0 < i <= |events| && states[i - 1].steps == i - 1
    requires Enabled(states[i - 1], events[i - 1]) && states[i] == Apply(states[i - 1], events[i - 1])
    requires id in states[i - 1].procs ==> AttemptAnchored(states, events, i - 1, id)
    requires id in states[i].procs
    ensures AttemptAnchored(states, events, i, id)
  {
    var s, s', e := states[i - 1], states[i], events[i - 1];
    var pc := s'.procs[id].pc;
    if e == Load(id) {
      assert pc == Loaded(s.word, |s.wins|, i - 1);
    } else if pc.Loaded? || pc.Passed? {
      assert id in s.procs && e != Exchange(id);
      var pc0 := s.procs[id].pc;
      assert pc0.Loaded? || pc0.Passed?;
      assert pc0.last == pc.last && pc0.seen == pc.seen && pc0.loadedAt == pc.loadedAt;
    }
  }

  lemma {:induction false} AttemptsAnchored(states: seq<State>, events: seq<Event>, i: nat)
    requires Run(states, events) && i <= |events|
    ensures forall id :: id in states[i].procs ==> AttemptAnchored(states, events, i, id)
  {
    if i > 0 {
      AttemptsAnchored(states, events, i - 1);
      WinsGrow(states, events, i - 1, i - 1);
      assert Enabled(states[i - 1], events[i - 1]);
      assert states[(i - 1) + 1] == Apply(states[i - 1], events[i - 1]);
      forall id | id in states[i].procs
        ensures AttemptAnchored(states, events, i, id)
      {
        StepAnchors(states, events, i, id);
      }
    }
  }

  lemma NewWinAnchored(states: seq<State>, events: seq<Event>, i: nat, id: Id)
    requires |states| == |events| + 1 && 0 < i <= |events| && states[i - 1].steps == i - 1
    requires events[i - 1] == Exchange(id) && ExchangeSucceeds(states[i - 1], id)
    requires states[i] == Apply(states[i - 1], events[i - 1]) && AttemptAnchored(states, events, i - 1, id)
    requires states[i - 1].procs[id].pc.seen == |states[i - 1].wins|
    ensures |states[i].wins| == |states[i - 1].wins| + 1 && WinAnchored(states, events, i, |states[i - 1].wins|)
  {
  }

  lemma OldWinAnchored(states: seq<State>, events: seq<Event>, i: nat, k: nat)
    requires |states| == |events| + 1 && 0 < i <= |events| && k < |states[i - 1].wins|
    requires states[i - 1].wins <= states[i].wins && WinAnchored(states, events, i - 1, k)
    ensures k < |states[i].wins| && WinAnchored(states, events, i, k)
  {
  }

  lemma SuccessSeen(s: State, id: Id)
    requires Inv(s) && ExchangeSucceeds(s, id)
    ensures s.procs[id].pc.seen == |s.wins|
  {
    assert ProcOk(s, s.procs[id]);
    NoRecurrence(s, s.procs[id].pc.seen);
  }

  lemma StepOf(states: seq<State>, events: seq<Event>, i: nat)
    requires Run(states, events) && i < |events|
    ensures Enabled(states[i], events[i]) && states[i + 1] == Apply(states[i], events[i])
  {
  }

  lemma SuccessAnchored(states: seq<State>, events: seq<Event>, i: nat)
    requires Run(states, events) && FitsAlong(states) && 0 < i <= |events|
    requires events[i - 1].Exchange? && ExchangeSucceeds(states[i - 1], events[i - 1].id)
    ensures |states[i].wins| == |states[i - 1].wins| + 1 && WinAnchored(states, events, i, |states[i - 1].wins|)
  {
    var id := events[i - 1].id;
    WinsGrow(states, events, i - 1, i - 1);
    AttemptsAnchored(states, events, i - 1);
    InvAlong(states, events, i - 1);
    SuccessSeen(states[i - 1], id);
    StepOf(states, events, i - 1);
    NewWinAnchored(states, events, i, id);
  }

  lemma NoNewWin(s: State, e: Event)
    requires Enabled(s, e) && !(e.Exchange? && ExchangeSucceeds(s, e.id))
    ensures Apply(s, e).wins == s.wins
  {
  }

  lemma {:induction false} WinsAnchored(states: seq<State>, events: seq<Event>, i: nat)
    requires Run(states, events) && FitsAlong(states) && i <= |events|
    ensures forall k :: 0 <= k < |states[i].wins| ==> WinAnchored(states, events, i, k)
  {
    if i > 0 {
      WinsAnchored(states, events, i - 1);
      WinsGrow(states, events, i - 1, i);
      assert Enabled(states[i - 1], events[i - 1]);
      if events[i - 1].Exchange? && ExchangeSucceeds(states[i - 1], events[i - 1].id) {
        SuccessAnchored(states, events, i);
      } else {
        NoNewWin(states[i - 1], events[i - 1]);
        assert states[(i - 1) + 1] == Apply(states[i - 1], events[i - 1]);
      }
      forall k | 0 <= k < |states[i - 1].wins|
        ensures k < |states[i].wins| && WinAnchored(states, events, i, k)
      {
        OldWinAnchored(states, events, i, k);
      }
    }
  }

  /** No ABA: when an exchange succeeds, nobody wrote the word since this process loaded it. */
  lemma SuccessMeansUntouched(states: seq<State>, events: seq<Event>, t: nat, id: Id)
    requires Run(states, events) && FitsAlong(states)
    requires t < |events| && events[t] == Exchange(id) && ExchangeSucceeds(states[t], id)
    ensures var pc := states[t].procs[id].pc;
            && pc.loadedAt < t && events[pc.loadedAt] == Load(id)
            && forall u :: pc.loadedAt <= u <= t ==> states[u].word == pc.last
  {
    var pc := states[t].procs[id].pc;
    AttemptsAnchored(states, events, t);
    assert AttemptAnchored(states, events, t, id);
    InvAlong(states, events, t);
    assert ProcOk(states[t], states[t].procs[id]);
    NoRecurrence(states[t], pc.seen);
    forall u | pc.loadedAt <= u <= t
      ensures states[u].word == pc.last
    {
      WinsGrow(states, events, pc.loadedAt, u);
      WinsGrow(states, events, u, t);
      InvAlong(states, events, u);
      assert states[u].wins == states[t].wins;
    }
  }

  /** Lock-free progress: an exchange fails only if another process's exchange succeeded
      between this process's load and its attempt. */
  lemma FailureMeansProgress(states: seq<State>, events: seq<Event>, t: nat, id: Id)
      returns (u: nat, other: Id)
    requires Run(states, events) && FitsAlong(states)
    requires t < |events| && events[t] == Exchange(id) && !ExchangeSucceeds(states[t], id)
    ensures id in states[t].procs && states[t].procs[id].pc.Passed?
    ensures states[t].procs[id].pc.loadedAt < u < t && other != id
    ensures events[u] == Exchange(other) && ExchangeSucceeds(states[u], other)
  {
    assert Enabled(states[t], events[t]);
    var pc := states[t].procs[id].pc;
    AttemptsAnchored(states, events, t);
    assert AttemptAnchored(states, events, t, id);
    InvAlong(states, events, t);
    assert ProcOk(states[t], states[t].procs[id]);
    NoRecurrence(states[t], pc.seen);
    WinsAnchored(states, events, t);
    assert WinAnchored(states, events, t, pc.seen);
    u, other := states[t].wins[pc.seen].wonAt, states[t].wins[pc.seen].id;
  }

  lemma {:induction false} AttemptsOrdered(s: State, a: nat, b: nat)
    requires Inv(s) && a < b < |s.wins|
    ensures s.wins[a].wonAt < s.wins[b].loadedAt
  {
    assert AttemptOk(s.wins, b, s.steps) && AttemptOk(s.wins, b - 1, s.steps);
    if a < b - 1 {
      AttemptsOrdered(s, a, b - 1);
    }
  }

  /** Winning attempts are exclusive: from load to exchange, no two of them overlap, and no
      two winners started from the same word. */
  lemma WinningAttemptsDisjoint(states: seq<State>, events: seq<Event>, i: nat, a: nat, b: nat)
    requires Run(states, events) && FitsAlong(states) && i <= |events|
    requires a < b < |states[i].wins|
    ensures var wins := states[i].wins;
            && wins[a].loadedAt < wins[a].wonAt < wins[b].loadedAt < wins[b].wonAt < i
            && events[wins[a].wonAt] == Exchange(wins[a].id)
            && events[wins[b].loadedAt] == Load(wins[b].id)
            && wins[a].last != wins[b].last
  {
    var s := states[i];
    InvAlong(states, events, i);
    WinsAnchored(states, events, i);
    assert WinAnchored(states, events, i, a) && WinAnchored(states, events, i, b);
    AttemptsOrdered(s, a, b);
    assert WinOk(s.wins, a, s.coarse) && WinOk(s.wins, b, s.coarse);
    StoredIncreases(s.wins, s.coarse, a, b);
  }

  /** Dispatch spacing: a winner's clock reading exceeds that of every earlier winner by more
      than its own threshold less one truncation error. */
  lemma WinsSpaced(s: State, a: nat, b: nat)
    requires Inv(s) && a < b < |s.wins|
    ensures Nanos(s.wins[b].now) - Nanos(s.wins[a].now) > Nanos(s.wins[b].freq) - TICK
  {
    assert WinOk(s.wins, a, s.coarse) && WinOk(s.wins, b, s.coarse);
    Truncation(s.wins[a].pid, s.wins[a].now);
    if a + 1 < b {
      StoredIncreases(s.wins, s.coarse, a + 1, b);
    }
  }
}

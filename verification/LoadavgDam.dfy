/** src/bin/loadavg_dam.cpp: the queue in which every process waits 30 s after the last
    dispatch. The load test, between clock and exchange, is the queue's GiveUp step. */
module LoadavgDam {
  import opened Timespecs
  import opened SharedWord
  import opened JobSlot

  /** The guaranteed distance between the clock readings of two dispatches. */
  const SPACING := 30_000_000_000 - TICK + 1

  predicate DamArrival(e: Event) {
    e.Arrive? ==> e.freq == LOADED_FREQ
  }

  /** A run in which every process is a loadavg_dam. */
  ghost predicate DamRun(states: seq<State>, events: seq<Event>) {
    && Run(states, events)
    && FitsAlong(states)
    && forall i :: 0 <= i < |events| ==> DamArrival(events[i])
  }

  ghost predicate AllWaitThirty(s: State) {
    && (forall id :: id in s.procs ==> s.procs[id].freq == LOADED_FREQ)
    && (forall k :: 0 <= k < |s.wins| ==> s.wins[k].freq == LOADED_FREQ)
  }

  lemma {:induction false} AllWaitThirtyAlong(states: seq<State>, events: seq<Event>, i: nat)
    requires DamRun(states, events) && i <= |events|
    ensures AllWaitThirty(states[i])
  {
    if i > 0 {
      AllWaitThirtyAlong(states, events, i - 1);
      assert Enabled(states[i - 1], events[i - 1]) && DamArrival(events[i - 1]);
      assert states[(i - 1) + 1] == Apply(states[i - 1], events[i - 1]);
    }
  }

  predicate InWindow(w: Win, from: int, length: nat) {
    from <= Nanos(w.now) <= from + length
  }

  /** How many wins have their clock reading in a window. */
  function Dispatched(wins: seq<Win>, from: int, length: nat): nat {
    if wins == [] then 0
    else Dispatched(wins[..|wins| - 1], from, length)
         + if InWindow(wins[|wins| - 1], from, length) then 1 else 0
  }

  /** The last of c dispatches in a window comes at least c - 1 spacings after its start. */
  lemma {:induction false} LastDispatchIsLate(s: State, n: nat, from: int, length: nat) returns (b: nat)
    requires Inv(s) && AllWaitThirty(s) && n <= |s.wins|
    requires Dispatched(s.wins[..n], from, length) > 0
    ensures b < n && InWindow(s.wins[b], from, length)
    ensures Nanos(s.wins[b].now) >= from + (Dispatched(s.wins[..n], from, length) - 1) * SPACING
  {
    assert s.wins[..n][..n - 1] == s.wins[..n - 1];
    if !InWindow(s.wins[n - 1], from, length) {
      b := LastDispatchIsLate(s, n - 1, from, length);
    } else {
      b := n - 1;
      if Dispatched(s.wins[..n - 1], from, length) > 0 {
        var a := LastDispatchIsLate(s, n - 1, from, length);
        WinsSpaced(s, a, b);
      }
    }
  }

  /** "Starting jobs no more often than 30s apart": in every run, a window of clock time of a
      given length holds at most one dispatch more than the number of spacings it spans. */
  lemma DispatchRate(states: seq<State>, events: seq<Event>, i: nat, from: int, length: nat)
    requires DamRun(states, events) && i <= |events|
    ensures Dispatched(states[i].wins, from, length) <= length / SPACING + 1
  {
    var s := states[i];
    var c := Dispatched(s.wins, from, length);
    if c > 0 {
      InvAlong(states, events, i);
      AllWaitThirtyAlong(states, events, i);
      assert s.wins[..|s.wins|] == s.wins;
      var b := LastDispatchIsLate(s, |s.wins|, from, length);
      assert (c - 1) * SPACING <= length;
    }
  }

  // ---------------------------------------------------------------- no longer than that

  /** In every run, a process that reads the clock goes on just if more than 30 s have passed since
      the time in the word that it loaded. */
  lemma DamGapExactly(states: seq<State>, events: seq<Event>, i: nat, id: Id)
    requires DamRun(states, events) && i < |events| && events[i] == ReadClock(id)
    ensures id in states[i].procs && states[i].procs[id].pc.Loaded? && id in states[i + 1].procs
    ensures states[i + 1].procs[id].pc.Passed? <==>
              states[i].coarse > Nanos(Stored(states[i].procs[id].pc.last)) + 30_000_000_000
  {
    StepOf(states, events, i);
    AllWaitThirtyAlong(states, events, i);
    GapIsNanos(OfNanos(states[i].coarse), states[i].procs[id].pc.last, states[i].procs[id].freq);
  }

  lemma Extended(states: seq<State>, events: seq<Event>, e: Event)
    requires DamRun(states, events) && Enabled(states[|events|], e) && DamArrival(e)
    requires UptimeFits(Apply(states[|events|], e))
    ensures DamRun(states + [Apply(states[|events|], e)], events + [e])
  {
    var more, all := states + [Apply(states[|events|], e)], events + [e];
    forall i | 0 <= i < |all|
      ensures Enabled(more[i], all[i]) && more[i + 1] == Apply(more[i], all[i]) && DamArrival(all[i])
    {
      if i < |events| {
        StepOf(states, events, i);
      }
    }
  }

  lemma OneDispatch(s: State, id: Id, coarse: nat)
    requires id !in s.procs && s.coarse <= coarse && coarse > Nanos(Stored(s.word)) + 30_000_000_000
    ensures var s1 := Apply(s, Tick(coarse)); var s2 := Apply(s1, Arrive(id, 1, LOADED_FREQ));
            var s3 := Apply(s2, Load(id)); var s4 := Apply(s3, ReadClock(id));
            && Enabled(s4, Exchange(id))
            && var t := Apply(s4, Exchange(id));
               && t.coarse == s4.coarse == coarse && (forall p: Id :: p in t.procs <==> p in s.procs || p == id)
               && t.word == Pack(1, OfNanos(coarse)) && |t.wins| == |s.wins| + 1 && t.wins[..|s.wins|] == s.wins
               && t.wins[|s.wins|].id == id && t.wins[|s.wins|].now == OfNanos(coarse)
  {
    GapIsNanos(OfNanos(coarse), s.word, LOADED_FREQ);
  }

  /** One more process arrives, finds that 30 s have passed, and wins. */
  lemma Dispatches(states: seq<State>, events: seq<Event>, id: Id, coarse: nat) returns (more: seq<State>, all: seq<Event>)
    requires DamRun(states, events) && coarse < 0x1_0000_0000 * 1_000_000_000
    requires var s := states[|events|];
             id !in s.procs && s.coarse <= coarse && coarse > Nanos(Stored(s.word)) + 30_000_000_000
    ensures DamRun(more, all)
    ensures var s, t := states[|events|], more[|all|];
            && t.coarse == coarse && (forall p: Id :: p in t.procs <==> p in s.procs || p == id)
            && t.word == Pack(1, OfNanos(coarse)) && |t.wins| == |s.wins| + 1 && t.wins[..|s.wins|] == s.wins
            && t.wins[|s.wins|].id == id && t.wins[|s.wins|].now == OfNanos(coarse)
  {
    var s := states[|events|];
    OneDispatch(s, id, coarse);
    var s1 := Apply(s, Tick(coarse));
    var s2 := Apply(s1, Arrive(id, 1, LOADED_FREQ));
    var s3 := Apply(s2, Load(id));
    var s4 := Apply(s3, ReadClock(id));
    Extended(states, events, Tick(coarse));
    more, all := states + [s1], events + [Tick(coarse)];
    Extended(more, all, Arrive(id, 1, LOADED_FREQ));
    more, all := more + [s2], all + [Arrive(id, 1, LOADED_FREQ)];
    Extended(more, all, Load(id));
    more, all := more + [s3], all + [Load(id)];
    Extended(more, all, ReadClock(id));
    more, all := more + [s4], all + [ReadClock(id)];
    Extended(more, all, Exchange(id));
    more, all := more + [Apply(s4, Exchange(id))], all + [Exchange(id)];
  }

  lemma NoneYet() returns (states: seq<State>)
    ensures DamRun(states, []) && states == [State(0, EMPTY, map[], 0, [])]
  {
    states := [State(0, EMPTY, map[], 0, [])];
  }

  lemma {:induction false} AllInWindow(wins: seq<Win>, from: int, length: nat)
    requires forall k :: 0 <= k < |wins| ==> InWindow(wins[k], from, length)
    ensures Dispatched(wins, from, length) == |wins|
  {
    if wins != [] {
      AllInWindow(wins[..|wins| - 1], from, length);
    }
  }

  /** The state after n dispatches by the processes below n, as soon after each other as can be. */
  ghost predicate Crowded(s: State, first: nat, n: nat) {
    && n >= 1 && |s.wins| == n && (forall id: Id :: id in s.procs <==> id < n)
    && first <= s.coarse <= first + (n - 1) * 30_000_000_001 && s.word == Pack(1, OfNanos(s.coarse))
    && forall k :: 0 <= k < n ==> first <= Nanos(s.wins[k].now) <= s.coarse
  }

  /** The rule delays nobody further: from any time after the first 30 s of uptime on, there are
      runs in which some process is dispatched every 30 s and one nanosecond. */
  lemma {:induction false} RateReached(first: nat, n: nat) returns (states: seq<State>, events: seq<Event>)
    requires n >= 1 && first > 30_000_000_000 && first + (n - 1) * 30_000_000_001 < 0x1_0000_0000 * 1_000_000_000
    ensures DamRun(states, events) && Crowded(states[|events|], first, n)
    ensures Dispatched(states[|events|].wins, first, (n - 1) * 30_000_000_001) == n
  {
    if n == 1 {
      var none := NoneYet();
      states, events := Dispatches(none, [], 0, first);
    } else {
      states, events := RateReached(first, n - 1);
      var s := states[|events|];
      Truncation(1, OfNanos(s.coarse));
      states, events := Dispatches(states, events, n - 1, s.coarse + 30_000_000_001);
      var t := states[|events|];
      assert forall k :: 0 <= k < n - 1 ==> t.wins[k] == t.wins[..n - 1][k] == s.wins[k];
    }
    AllInWindow(states[|events|].wins, first, (n - 1) * 30_000_000_001);
  }

  /** And the guaranteed distance is the shortest there is. */
  lemma SpacingReached() returns (states: seq<State>, events: seq<Event>)
    ensures DamRun(states, events)
    ensures var wins := states[|events|].wins;
            |wins| == 2 && wins[0].id != wins[1].id && Nanos(wins[1].now) - Nanos(wins[0].now) == SPACING
  {
    var first := 31_001_953_124;
    var none := NoneYet();
    states, events := Dispatches(none, [], 0, first);
    var s := states[|events|];
    assert OfNanos(first) == Timespec(31, 1_953_124);
    WholeTickLost(1, 31);
    states, events := Dispatches(states, events, 1, first + SPACING);
    assert states[|events|].wins[0] == states[|events|].wins[..1][0] == s.wins[0];
  }
}

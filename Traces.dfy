/** Runs of the controller: the timer and the two interrupt handlers take
    no lock, so each handler call is taken as one atomic step, and a run is
    a sequence of such steps. */
module Traces {
  import opened Unsigned
  import opened Debounce
  import opened Traffic

  datatype Event =
    | TimerTick
    | ToggleEdge(at: Stamp)
    | PedEdge(at: Stamp)
    | RateWrite(buf: string)

  function Step(s: Ctrl, e: Event): Ctrl
  {
    match e
    case TimerTick => TickStep(s)
    case ToggleEdge(at) => ToggleStep(s, at)
    case PedEdge(at) => PedStep(s, at)
    case RateWrite(buf) => WriteStep(s, buf)
  }

  function Run(s: Ctrl, events: seq<Event>): Ctrl
    decreases |events|
  {
    if events == [] then s else Run(Step(s, events[0]), events[1..])
  }

  /** `n` timer ticks with no other event in between. */
  function Ticks(s: Ctrl, n: nat): Ctrl
  {
    if n == 0 then s else TickStep(Ticks(s, n - 1))
  }

  /** Every state reached from initialisation, by any interleaving of ticks,
      button edges and writes, keeps the rate in [1,9] and a crossing at
      most five body ticks in. */
  lemma {:induction false} RunPreservesInv(s: Ctrl, events: seq<Event>)
    requires Inv(s)
    ensures Inv(Run(s, events))
    decreases |events|
  {
    if events != [] {
      var e := events[0];
      match e {
        case TimerTick => StepsPreserveInv(s, 0, []);
        case ToggleEdge(at) => StepsPreserveInv(s, at, []);
        case PedEdge(at) => StepsPreserveInv(s, at, []);
        case RateWrite(buf) => StepsPreserveInv(s, 0, buf);
      }
      RunPreservesInv(Step(s, e), events[1..]);
    }
  }

  lemma ReachableInv(garbage: int, events: seq<Event>)
    ensures Inv(Run(Initial(garbage), events))
    ensures Run(Initial(garbage), events).rate != 0
  {
    InitialInv(garbage);
    RunPreservesInv(Initial(garbage), events);
  }

  /** In FLASHING_RED, for every number of ticks, red is lit exactly on odd
      counts and the other two lights stay dark; after a toggle has reset the
      counter, that is exactly on the odd-numbered ticks. */
  lemma {:induction false} FlashingRedRun(s: Ctrl, n: nat)
    requires s.mode == FlashingRed && n >= 1
    ensures var t := Ticks(s, n);
      t.cycleCount == s.cycleCount + n &&
      t.lights == Lights((s.cycleCount + n) % 2 == 1, false, false) &&
      t == s.(cycleCount := t.cycleCount, lights := t.lights)
  {
    if n > 1 {
      FlashingRedRun(s, n - 1);
    }
    FlashingRedTick(Ticks(s, n - 1));
  }

  /** The same for FLASHING_YELLOW, with yellow in place of red. */
  lemma {:induction false} FlashingYellowRun(s: Ctrl, n: nat)
    requires s.mode == FlashingYellow && n >= 1
    ensures var t := Ticks(s, n);
      t.cycleCount == s.cycleCount + n &&
      t.lights == Lights(false, (s.cycleCount + n) % 2 == 1, false) &&
      t == s.(cycleCount := t.cycleCount, lights := t.lights)
  {
    if n > 1 {
      FlashingYellowRun(s, n - 1);
    }
    FlashingYellowTick(Ticks(s, n - 1));
  }

  /** In NORMAL with no pedestrian, for every number of ticks, the lights
      are the pattern entry for the cycle position: green, green, green,
      yellow, red, red, repeating every six ticks, one light at a time. */
  lemma {:induction false} NormalRun(s: Ctrl, n: nat)
    requires s.mode == Normal && !s.pedCrossing && !s.pedRequested && n >= 1
    ensures var t := Ticks(s, n);
      t.cycleCount == s.cycleCount + n &&
      t.lights == NormalPattern((s.cycleCount + n) % 6) && ExactlyOne(t.lights) &&
      t == s.(cycleCount := t.cycleCount, lights := t.lights)
  {
    if n > 1 {
      NormalRun(s, n - 1);
    }
    NormalTickNoPedestrian(Ticks(s, n - 1));
  }

  /** The NORMAL pattern repeats with period six. */
  lemma NormalPeriodSix(s: Ctrl, n: nat)
    requires s.mode == Normal && !s.pedCrossing && !s.pedRequested && n >= 1
    ensures Ticks(s, n + 6).lights == Ticks(s, n).lights
  {
    NormalRun(s, n);
    NormalRun(s, n + 6);
    assert (s.cycleCount + n + 6) % 6 == (s.cycleCount + n) % 6;
  }

  /** From the initial state, six ticks with no button show green, yellow,
      red, red, green after the first green tick: the sequence
      G G Y R R G, with the initial green in front of it. */
  lemma InitialSixTicks(garbage: int)
    ensures Ticks(Initial(garbage), 1).lights == GreenOnly
    ensures Ticks(Initial(garbage), 2).lights == GreenOnly
    ensures Ticks(Initial(garbage), 3).lights == YellowOnly
    ensures Ticks(Initial(garbage), 4).lights == RedOnly
    ensures Ticks(Initial(garbage), 5).lights == RedOnly
    ensures Ticks(Initial(garbage), 6).lights == GreenOnly
    ensures Ticks(Initial(garbage), 6).cycleCount == 6
  {
    var s := Initial(garbage);
    NormalRun(s, 1);
    NormalRun(s, 2);
    NormalRun(s, 3);
    NormalRun(s, 4);
    NormalRun(s, 5);
    NormalRun(s, 6);
  }

  /** The body of a crossing: `j` more ticks from `k` body ticks in, as long
      as `k + j` stays within five, hold red and yellow and count up. */
  lemma {:induction false} CrossingBodyRun(s: Ctrl, j: nat)
    requires s.mode == Normal && s.pedCrossing && 0 <= s.pedCycleCount
    requires s.pedCycleCount + j <= 5 && j >= 1
    ensures var t := Ticks(s, j);
      t == s.(cycleCount := s.cycleCount + j, pedCycleCount := s.pedCycleCount + j,
              lights := RedYellow)
  {
    if j > 1 {
      CrossingBodyRun(s, j - 1);
    }
    CrossingBodyTick(Ticks(s, j - 1));
  }

  /** A whole crossing. A request pending at a tick that lands on a red
      position starts it: that hand-off tick and the five after it show red
      and yellow together, and the seventh tick shows green only with the
      cycle counter, the crossing and the request all cleared. */
  lemma CrossingSequence(s: Ctrl)
    requires s.mode == Normal && !s.pedCrossing && s.pedRequested
    requires (s.cycleCount + 1) % 6 >= 4
    ensures Ticks(s, 1).lights == RedYellow && Ticks(s, 1).pedCrossing
    ensures forall j :: 1 <= j <= 6 ==>
      Ticks(s, j).lights == RedYellow && Ticks(s, j).pedCrossing &&
      Ticks(s, j).pedCycleCount == j - 1
    ensures var t := Ticks(s, 7);
      t == s.(cycleCount := 0, pedCycleCount := 0, pedCrossing := false,
              pedRequested := false, lights := GreenOnly)
  {
    HandOff(s);
    var h := Ticks(s, 1);
    assert Ticks(s, 0) == s;
    forall j | 1 <= j <= 6
      ensures Ticks(s, j).lights == RedYellow && Ticks(s, j).pedCrossing &&
              Ticks(s, j).pedCycleCount == j - 1
    {
      if j > 1 {
        CrossingBodyRun(h, j - 1);
        TicksSplit(s, 1, j - 1);
      }
    }
    CrossingBodyRun(h, 5);
    TicksSplit(s, 1, 5);
    CrossingEndTick(Ticks(s, 6));
  }

  lemma {:induction false} TicksSplit(s: Ctrl, a: nat, b: nat)
    ensures Ticks(s, a + b) == Ticks(Ticks(s, a), b)
  {
    if b == 0 {
      assert Ticks(Ticks(s, a), 0) == Ticks(s, a);
    } else {
      TicksSplit(s, a, b - 1);
      assert Ticks(Ticks(s, a), b) == TickStep(Ticks(Ticks(s, a), b - 1));
      assert Ticks(s, a + b) == TickStep(Ticks(s, a + b - 1));
    }
  }

  /** Two toggle edges 10 ms apart move the mode on by one step only: the
      second falls inside the debounce window. */
  lemma ToggleBounce(s: Ctrl, t: Stamp)
    requires Accepts(t, s.lastToggle) && t + 10 < ULONG_MOD
    ensures Run(s, [ToggleEdge(t), ToggleEdge(t + 10)]).mode == NextMode(s.mode)
  {
    var s1 := ToggleStep(s, t);
    assert Run(s, [ToggleEdge(t), ToggleEdge(t + 10)]) == Run(s1, [ToggleEdge(t + 10)]);
    assert Run(s1, [ToggleEdge(t + 10)]) == ToggleStep(s1, t + 10);
  }

  /** Three toggle edges at least 260 ms apart bring the mode back to where
      it was, through the two other modes; each restarts the cycle counter
      and none touches the pedestrian state. */
  lemma ThreeToggles(s: Ctrl, t1: Stamp, t2: Stamp, t3: Stamp)
    requires Accepts(t1, s.lastToggle)
    requires t1 + 260 <= t2 && t2 + 260 <= t3
    ensures var s1 := ToggleStep(s, t1);
      var s2 := ToggleStep(s1, t2);
      var s3 := ToggleStep(s2, t3);
      s1.mode == NextMode(s.mode) && s2.mode == NextMode(s1.mode) &&
      s3 == s.(cycleCount := 0, lastToggle := t3) &&
      Run(s, [ToggleEdge(t1), ToggleEdge(t2), ToggleEdge(t3)]) == s3
  {
    var s1 := ToggleStep(s, t1);
    var s2 := ToggleStep(s1, t2);
    var s3 := ToggleStep(s2, t3);
    AcceptsWithoutWrap(t2, t1);
    AcceptsWithoutWrap(t3, t2);
    NextModeCycle(s.mode);
    var evs := [ToggleEdge(t1), ToggleEdge(t2), ToggleEdge(t3)];
    assert evs[1..] == [ToggleEdge(t2), ToggleEdge(t3)];
    assert evs[1..][1..] == [ToggleEdge(t3)];
    assert Run(s, evs) == Run(s1, evs[1..]);
    assert Run(s1, evs[1..]) == Run(s2, [ToggleEdge(t3)]);
    assert Run(s2, [ToggleEdge(t3)]) == Run(s3, []);
  }

  /** A toggle does not end a crossing: toggling three times during one
      leaves the crossing where it stood, and the next tick carries on with
      it. */
  lemma CrossingSurvivesToggles(s: Ctrl, t1: Stamp, t2: Stamp, t3: Stamp)
    requires s.mode == Normal && s.pedCrossing && 0 <= s.pedCycleCount < 5
    requires Accepts(t1, s.lastToggle)
    requires t1 + 260 <= t2 && t2 + 260 <= t3
    ensures var u := ToggleStep(ToggleStep(ToggleStep(s, t1), t2), t3);
      u.mode == Normal && u.pedCrossing && u.pedCycleCount == s.pedCycleCount &&
      TickStep(u).lights == RedYellow && TickStep(u).pedCycleCount == s.pedCycleCount + 1
  {
    ThreeToggles(s, t1, t2, t3);
    CrossingBodyTick(ToggleStep(ToggleStep(ToggleStep(s, t1), t2), t3));
  }

  /** A pedestrian edge taken at any point of a crossing is latched, but
      the tick that ends the crossing, `6 - pedCycleCount` ticks later,
      clears it, so that press never gets a crossing of its own. */
  lemma PressDuringCrossingAbsorbed(s: Ctrl, now: Stamp)
    requires s.mode == Normal && s.pedCrossing && 0 <= s.pedCycleCount <= 5
    requires Accepts(now, s.lastPed)
    ensures PedStep(s, now).pedRequested
    ensures var p := PedStep(s, now);
      Ticks(p, 6 - s.pedCycleCount) ==
        p.(cycleCount := 0, pedCycleCount := 0, pedCrossing := false,
           pedRequested := false, lights := GreenOnly)
  {
    PedEffect(s, now);
    var p := PedStep(s, now);
    var k := 5 - s.pedCycleCount;
    if k > 0 {
      CrossingBodyRun(p, k);
    }
    var q := Ticks(p, k);
    assert q.mode == Normal && q.pedCrossing && q.pedCycleCount == 5;
    TicksSplit(p, k, 1);
    assert Ticks(q, 1) == TickStep(Ticks(q, 0));
    CrossingEndTick(q);
  }

  /** A request latched in NORMAL survives a round trip through the
      flashing modes and is served at the first red position after it. */
  lemma RequestSurvivesFlashing(s: Ctrl, t1: Stamp, t2: Stamp, t3: Stamp)
    requires s.mode == Normal && !s.pedCrossing && s.pedRequested
    requires Accepts(t1, s.lastToggle)
    requires t1 + 260 <= t2 && t2 + 260 <= t3
    ensures var u := ToggleStep(ToggleStep(ToggleStep(s, t1), t2), t3);
      u.pedRequested && u.cycleCount == 0 &&
      Ticks(u, 3).pedRequested && !Ticks(u, 3).pedCrossing &&
      Ticks(u, 4).pedCrossing && Ticks(u, 4).lights == RedYellow
  {
    ThreeToggles(s, t1, t2, t3);
    var u := ToggleStep(ToggleStep(ToggleStep(s, t1), t2), t3);
    assert Ticks(u, 0) == u;
    RequestWaitsOutsideRed(u);
    assert Ticks(u, 1) == TickStep(u);
    RequestWaitsOutsideRed(Ticks(u, 1));
    assert Ticks(u, 2) == TickStep(Ticks(u, 1));
    RequestWaitsOutsideRed(Ticks(u, 2));
    assert Ticks(u, 3) == TickStep(Ticks(u, 2));
    HandOff(Ticks(u, 3));
    assert Ticks(u, 4) == TickStep(Ticks(u, 3));
  }
}

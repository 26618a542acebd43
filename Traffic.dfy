/** The traffic-light controller as a value: the fields of
    `struct traffic_light` that carry logic, the two handlers'
    `most_recent_interrupt` readings, and one function per operation giving
    the state it leaves behind. The class in MyTraffic.dfy updates its
    fields step by step and is proved to follow these functions. */
module Traffic {
  import opened Unsigned
  import opened Debounce

  datatype Mode = Normal | FlashingRed | FlashingYellow

  /** The three outputs driven onto the red, yellow and green pins. */
  datatype Lights = Lights(red: bool, yellow: bool, green: bool)

  const GreenOnly := Lights(false, false, true)
  const YellowOnly := Lights(false, true, false)
  const RedOnly := Lights(true, false, false)
  const RedYellow := Lights(true, true, false)

  datatype Ctrl = Ctrl(
    mode: Mode,
    cycleCount: nat,
    pedCycleCount: int,
    rate: nat,
    lights: Lights,
    pedRequested: bool,
    pedCrossing: bool,
    lastToggle: Stamp,
    lastPed: Stamp)

  /** What every reachable state satisfies: the rate is one the write path
      lets through, and a crossing has run at most five body ticks. */
  predicate Inv(s: Ctrl)
  {
    1 <= s.rate <= 9 && (s.pedCrossing ==> 0 <= s.pedCycleCount <= 5)
  }

  /** The state after module initialisation. `ped_cycle_count` is never
      written there, so it holds whatever the allocation left: `garbage`. */
  function Initial(garbage: int): Ctrl
  {
    Ctrl(Normal, 0, garbage, 1, GreenOnly, false, false, 0, 0)
  }

  /** The NORMAL cycle written as a table indexed by cycle position: three
      green ticks, one yellow, two red. */
  function NormalPattern(pos: nat): (l: Lights)
    requires pos < 6
  {
    [GreenOnly, GreenOnly, GreenOnly, YellowOnly, RedOnly, RedOnly][pos]
  }

  predicate ExactlyOne(l: Lights)
  {
    (if l.red then 1 else 0) + (if l.yellow then 1 else 0) + (if l.green then 1 else 0) == 1
  }

  /** A NORMAL tick, after `cycle_count` has been incremented. */
  function NormalTick(c: Ctrl): Ctrl
  {
    if c.pedCrossing then
      if c.pedCycleCount < 5 then
        c.(lights := RedYellow, pedCycleCount := c.pedCycleCount + 1)
      else
        c.(pedCrossing := false, pedRequested := false, pedCycleCount := 0,
           cycleCount := 0, lights := GreenOnly)
    else
      var pos := c.cycleCount % 6;
      if pos == 3 then c.(lights := YellowOnly)
      else if pos == 4 || pos == 5 then
        if c.pedRequested then
          c.(pedCrossing := true, pedRequested := false, pedCycleCount := 0, lights := RedYellow)
        else
          c.(lights := RedOnly)
      else c.(lights := GreenOnly)
  }

  /** `timer_callback`: count the tick, then compute the outputs for the
      mode. */
  function TickStep(s: Ctrl): Ctrl
  {
    var c := s.(cycleCount := s.cycleCount + 1);
    match c.mode
    case Normal => NormalTick(c)
    case FlashingRed => c.(lights := Lights(c.cycleCount % 2 == 1, false, false))
    case FlashingYellow => c.(lights := Lights(false, c.cycleCount % 2 == 1, false))
  }

  function NextMode(m: Mode): Mode
  {
    match m
    case Normal => FlashingRed
    case FlashingRed => FlashingYellow
    case FlashingYellow => Normal
  }

  /** `toggle_interrupt_handler` for an edge at time `now`. */
  function ToggleStep(s: Ctrl, now: Stamp): Ctrl
  {
    if !Accepts(now, s.lastToggle) then s
    else s.(lastToggle := now, mode := NextMode(s.mode), cycleCount := 0)
  }

  /** `ped_interrupt_handler` for an edge at time `now`. */
  function PedStep(s: Ctrl, now: Stamp): Ctrl
  {
    if !Accepts(now, s.lastPed) then s
    else if s.mode == Normal then s.(lastPed := now, pedRequested := true)
    else s.(lastPed := now)
  }

  /** The size of `mytraffic_write`'s stack buffer, and `EINVAL`. */
  const WRITE_BUF: nat := 16
  const EINVAL: int := 22

  /** The rate after `mytraffic_write` of `buf`. */
  function RateAfterWrite(rate: nat, buf: string): nat
  {
    if |buf| >= WRITE_BUF then rate
    else match ParseUnsigned(buf)
      case Some(v) => if 1 <= v <= 9 then v else rate
      case None => rate
  }

  /** What `mytraffic_write` of `buf` returns to its caller. */
  function WriteReturn(buf: string): int
  {
    if |buf| >= WRITE_BUF then -EINVAL else |buf|
  }

  /** `mytraffic_write` of `buf`: only the rate can change. */
  function WriteStep(s: Ctrl, buf: string): Ctrl
  {
    s.(rate := RateAfterWrite(s.rate, buf))
  }

  // ---------------------------------------------------------------------
  // The invariant

  lemma InitialInv(garbage: int)
    ensures Inv(Initial(garbage))
  {
  }

  /** Every operation keeps the invariant; in particular the rate stays in
      [1,9], so the timer's `HZ / rate` never divides by zero. */
  lemma StepsPreserveInv(s: Ctrl, now: Stamp, buf: string)
    requires Inv(s)
    ensures Inv(TickStep(s)) && Inv(ToggleStep(s, now)) && Inv(PedStep(s, now))
    ensures Inv(WriteStep(s, buf)) && WriteStep(s, buf).rate != 0
  {
  }

  // ---------------------------------------------------------------------
  // One tick

  /** A tick in FLASHING_RED: red follows the parity of the counter, yellow
      and green are off, and nothing else but the counter changes. */
  lemma FlashingRedTick(s: Ctrl)
    requires s.mode == FlashingRed
    ensures var t := TickStep(s);
      t.cycleCount == s.cycleCount + 1 &&
      t.lights == Lights(t.cycleCount % 2 == 1, false, false) &&
      t == s.(cycleCount := t.cycleCount, lights := t.lights)
  {
  }

  /** A tick in FLASHING_YELLOW: yellow follows the parity of the counter,
      red and green are off, and nothing else but the counter changes. */
  lemma FlashingYellowTick(s: Ctrl)
    requires s.mode == FlashingYellow
    ensures var t := TickStep(s);
      t.cycleCount == s.cycleCount + 1 &&
      t.lights == Lights(false, t.cycleCount % 2 == 1, false) &&
      t == s.(cycleCount := t.cycleCount, lights := t.lights)
  {
  }

  /** A NORMAL tick with no crossing and no request shows the pattern entry
      for the new cycle position, which has exactly one light on. */
  lemma NormalTickNoPedestrian(s: Ctrl)
    requires s.mode == Normal && !s.pedCrossing && !s.pedRequested
    ensures var t := TickStep(s);
      t.cycleCount == s.cycleCount + 1 &&
      t.lights == NormalPattern(t.cycleCount % 6) && ExactlyOne(t.lights) &&
      t == s.(cycleCount := t.cycleCount, lights := t.lights)
  {
  }

  /** A pending request waits through the green and yellow positions. */
  lemma RequestWaitsOutsideRed(s: Ctrl)
    requires s.mode == Normal && !s.pedCrossing && s.pedRequested
    requires (s.cycleCount + 1) % 6 < 4
    ensures var t := TickStep(s);
      t.lights == NormalPattern(t.cycleCount % 6) &&
      t == s.(cycleCount := s.cycleCount + 1, lights := t.lights)
  {
  }

  /** The hand-off: at a red position a pending request starts the crossing
      and this tick already shows red and yellow together. */
  lemma HandOff(s: Ctrl)
    requires s.mode == Normal && !s.pedCrossing && s.pedRequested
    requires (s.cycleCount + 1) % 6 >= 4
    ensures var t := TickStep(s);
      t == s.(cycleCount := s.cycleCount + 1, pedCrossing := true,
              pedRequested := false, pedCycleCount := 0, lights := RedYellow)
  {
  }

  /** A body tick of a crossing: red and yellow held, green off, one more
      tick counted; the bound of five is kept. */
  lemma CrossingBodyTick(s: Ctrl)
    requires s.mode == Normal && s.pedCrossing && s.pedCycleCount < 5
    ensures var t := TickStep(s);
      t == s.(cycleCount := s.cycleCount + 1, pedCycleCount := s.pedCycleCount + 1,
              lights := RedYellow)
    ensures 0 <= s.pedCycleCount ==> TickStep(s).pedCycleCount <= 5
  {
  }

  /** The tick after five body ticks ends the crossing, drops any request
      made meanwhile and restarts the cycle from green. */
  lemma CrossingEndTick(s: Ctrl)
    requires s.mode == Normal && s.pedCrossing && s.pedCycleCount >= 5
    ensures var t := TickStep(s);
      t == s.(cycleCount := 0, pedCycleCount := 0, pedCrossing := false,
              pedRequested := false, lights := GreenOnly)
  {
  }

  /** After any tick green is never lit together with another light, and
      red and yellow are lit together only in a NORMAL crossing. */
  lemma TickLightsConflictFree(s: Ctrl)
    ensures var t := TickStep(s);
      (t.lights.green ==> !t.lights.red && !t.lights.yellow) &&
      (t.lights.red && t.lights.yellow ==> t.mode == Normal && t.pedCrossing)
  {
  }

  // ---------------------------------------------------------------------
  // Button edges

  /** An accepted toggle edge advances the mode, restarts the cycle counter
      and records the time; crossing state, request, lights and the other
      button's time are left as they were. A dropped edge changes nothing. */
  lemma ToggleEffect(s: Ctrl, now: Stamp)
    ensures Accepts(now, s.lastToggle) ==>
      ToggleStep(s, now) == s.(mode := NextMode(s.mode), cycleCount := 0, lastToggle := now)
    ensures !Accepts(now, s.lastToggle) ==> ToggleStep(s, now) == s
  {
  }

  /** The toggle visits the three modes in turn. */
  lemma NextModeCycle(m: Mode)
    ensures NextMode(m) != m && NextMode(NextMode(m)) != m
    ensures NextMode(NextMode(NextMode(m))) == m
  {
  }

  /** A pedestrian edge: dropped by the filter it changes nothing; taken in
      a flashing mode it only records its time; taken in NORMAL it latches
      the request, whatever the crossing state, and records its time. */
  lemma PedEffect(s: Ctrl, now: Stamp)
    ensures !Accepts(now, s.lastPed) ==> PedStep(s, now) == s
    ensures Accepts(now, s.lastPed) && s.mode != Normal ==> PedStep(s, now) == s.(lastPed := now)
    ensures Accepts(now, s.lastPed) && s.mode == Normal ==>
      PedStep(s, now) == s.(pedRequested := true, lastPed := now)
  {
  }

  // ---------------------------------------------------------------------
  // Writing the rate

  /** `mytraffic_write`: a buffer of 16 bytes or more is refused with
      -EINVAL and changes nothing; otherwise the whole count is reported
      written, and the rate becomes the parsed value exactly when that value
      is in [1,9]. */
  lemma WriteEffect(s: Ctrl, buf: string)
    ensures |buf| >= WRITE_BUF ==> WriteReturn(buf) == -EINVAL && WriteStep(s, buf) == s
    ensures |buf| < WRITE_BUF ==> WriteReturn(buf) == |buf|
    ensures WriteStep(s, buf) == s.(rate := WriteStep(s, buf).rate)
    ensures WriteStep(s, buf).rate != s.rate ==>
      |buf| < WRITE_BUF && ParseUnsigned(buf).Some? &&
      WriteStep(s, buf).rate == ParseUnsigned(buf).value && 1 <= ParseUnsigned(buf).value <= 9
    ensures |buf| < WRITE_BUF && ParseUnsigned(buf).Some? && 1 <= ParseUnsigned(buf).value <= 9 ==>
      WriteStep(s, buf).rate == ParseUnsigned(buf).value
  {
  }

  /** Writing the decimal text of a number of at most fifteen digits,
      followed by nothing or a newline, sets the rate to that number modulo
      2^32 when this lies in [1,9], and leaves it otherwise. */
  lemma WriteDecimal(s: Ctrl, n: nat, rest: string)
    requires rest == [] || rest == "\n"
    requires n < Pow10(15 - |rest|)
    ensures WriteStep(s, Format(n) + rest).rate ==
      if 1 <= n % UINT_MOD <= 9 then n % UINT_MOD else s.rate
  {
    ParseFormat(n, rest);
    FormatLength(n, 15 - |rest|);
  }

  /** Writing "5" or "5\n" (any rate in [1,9]) sets that rate. */
  lemma WriteDecimalSetsRate(s: Ctrl, n: nat, rest: string)
    requires 1 <= n <= 9
    requires rest == [] || rest == "\n"
    ensures WriteStep(s, Format(n) + rest).rate == n
  {
    assert Pow10(1) == 10;
    PowMonotone(1, 15 - |rest|);
    assert n % UINT_MOD == n;
    WriteDecimal(s, n, rest);
  }

  /** Out-of-range values are ignored: 0 and 10. */
  lemma WriteOutOfRangeIgnored(s: Ctrl)
    ensures WriteStep(s, Format(0) + "\n").rate == s.rate
    ensures WriteStep(s, Format(10) + "\n").rate == s.rate
  {
    assert Pow10(2) == 100;
    PowMonotone(2, 14);
    WriteDecimal(s, 0, "\n");
    WriteDecimal(s, 10, "\n");
  }

  /** Text with no number in it is ignored. */
  lemma WriteNonNumericIgnored(s: Ctrl)
    ensures WriteReturn("abc\n") == 4
    ensures WriteStep(s, "abc\n") == s
  {
  }

  /** The parsed value is kept in an `unsigned int` before the range check,
      so a number 2^32 too large passes as the rate it is congruent to:
      writing "4294967301" sets the rate to 5. */
  lemma WriteWrapsAround(s: Ctrl)
    ensures WriteStep(s, Format(UINT_MOD + 5) + "\n").rate == 5
  {
    var n := UINT_MOD + 5;
    PowMonotone(10, 14);
    assert Pow10(10) == 10000000000;
    assert n < Pow10(14);
    assert n % UINT_MOD == 5;
    WriteDecimal(s, n, "\n");
  }

  lemma {:induction false} PowMonotone(i: nat, j: nat)
    requires i <= j
    ensures Pow10(i) <= Pow10(j)
  {
    if i < j {
      PowMonotone(i, j - 1);
    }
  }
}

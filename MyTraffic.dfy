/** The controller object of mytraffic.c: the fields of `struct
    traffic_light` (without the timer and the two interrupt numbers) and the
    handlers that update them in place. Each method is proved to leave the
    state that the matching function of module Traffic describes. */
module MyTraffic {
  import opened Unsigned
  import opened Debounce
  import opened Traffic
  import opened Status

  class TrafficLight {
    var currentMode: Mode
    var cycleCount: nat
    var pedCycleCount: int
    var rate: nat
    var redActive: bool
    var yellowActive: bool
    var greenActive: bool
    var pedRequested: bool
    var pedCrossing: bool
    /** The function-static `most_recent_interrupt` of the toggle handler
        and of the pedestrian handler. */
    var lastToggleInterrupt: Stamp
    var lastPedInterrupt: Stamp

    /** The object's state as a value. */
    function State(): (s: Ctrl)
      reads this
    {
      Ctrl(currentMode, cycleCount, pedCycleCount, rate,
           Lights(redActive, yellowActive, greenActive),
           pedRequested, pedCrossing, lastToggleInterrupt, lastPedInterrupt)
    }

    predicate Valid()
      reads this
    {
      Inv(State())
    }

    /** The field values `mytraffic_init` sets; `ped_cycle_count` is left
        as the allocation found it, here `garbage`. */
    constructor (garbage: int)
      ensures State() == Initial(garbage) && Valid()
    {
      cycleCount := 0;
      rate := 1;
      redActive := false;
      yellowActive := false;
      greenActive := true;
      pedRequested := false;
      pedCrossing := false;
      pedCycleCount := garbage;
      currentMode := Normal;
      lastToggleInterrupt := 0;
      lastPedInterrupt := 0;
    }

    /** `timer_callback`. Returns the delay, in jiffies, before the next
        tick: `hz / rate`, which the invariant keeps well defined. */
    method Tick(hz: nat) returns (delay: nat)
      requires Valid()
      modifies this
      ensures Valid() && State() == TickStep(old(State()))
      ensures delay == hz / rate && rate == old(rate) && 1 <= rate <= 9
    {
      cycleCount := cycleCount + 1;
      match currentMode {
        case Normal =>
          if pedCrossing {
            if pedCycleCount < 5 {
              redActive := true;
              yellowActive := true;
              greenActive := false;
              pedCycleCount := pedCycleCount + 1;
            } else {
              pedCrossing := false;
              pedRequested := false;
              pedCycleCount := 0;
              cycleCount := 0;
              redActive := false;
              yellowActive := false;
              greenActive := true;
            }
          } else {
            var cyclePosition := cycleCount % 6;
            if cyclePosition == 3 {
              redActive := false;
              yellowActive := true;
              greenActive := false;
            } else if cyclePosition == 4 || cyclePosition == 5 {
              redActive := true;
              yellowActive := false;
              greenActive := false;
              if pedRequested {
                pedCrossing := true;
                pedRequested := false;
                pedCycleCount := 0;
                yellowActive := true;
              }
            } else {
              redActive := false;
              yellowActive := false;
              greenActive := true;
            }
          }
        case FlashingRed =>
          redActive := cycleCount % 2 == 1;
          yellowActive := false;
          greenActive := false;
        case FlashingYellow =>
          redActive := false;
          yellowActive := cycleCount % 2 == 1;
          greenActive := false;
      }
      delay := hz / rate;
    }

    /** `toggle_interrupt_handler` for an edge at time `now`. */
    method Toggle(now: Stamp)
      requires Valid()
      modifies this
      ensures Valid() && State() == ToggleStep(old(State()), now)
    {
      if Elapsed(now, lastToggleInterrupt) < WINDOW {
        return;
      }
      lastToggleInterrupt := now;
      match currentMode {
        case Normal => currentMode := FlashingRed;
        case FlashingRed => currentMode := FlashingYellow;
        case FlashingYellow => currentMode := Normal;
      }
      cycleCount := 0;
    }

    /** `ped_interrupt_handler` for an edge at time `now`. */
    method PedCall(now: Stamp)
      requires Valid()
      modifies this
      ensures Valid() && State() == PedStep(old(State()), now)
    {
      if Elapsed(now, lastPedInterrupt) < WINDOW {
        return;
      }
      lastPedInterrupt := now;
      if currentMode == Normal {
        pedRequested := true;
      }
    }

    /** `mytraffic_write` of the bytes `buf`. */
    method WriteRate(buf: string) returns (ret: int)
      requires Valid()
      modifies this
      ensures Valid() && State() == WriteStep(old(State()), buf)
      ensures ret == WriteReturn(buf)
    {
      if |buf| >= WRITE_BUF {
        return -EINVAL;
      }
      var parsed := ParseUnsigned(buf);
      if parsed.Some? {
        var newRate := parsed.value;
        if 1 <= newRate <= 9 {
          rate := newRate;
        }
      }
      ret := |buf|;
    }

    /** `mytraffic_read` of at most `count` bytes at offset `fpos`: builds
        the status text, returns the part of it from `fpos` on, at most
        `count` bytes, and the advanced offset. Past the end it returns 0;
        one read of 256 bytes from offset 0 gets the whole text. */
    method ReadStatus(count: nat, fpos: nat) returns (ret: int, data: string, newPos: nat)
      requires Valid()
      ensures var text := StatusText(State());
        fpos >= |text| ==> ret == 0 && data == [] && newPos == fpos
      ensures var text := StatusText(State());
        fpos < |text| ==>
          ret == (if count < |text| - fpos then count else |text| - fpos) &&
          newPos == fpos + ret && data == text[fpos..newPos]
      ensures fpos == 0 && count >= KBUF_SIZE ==> data == StatusText(State())
    {
      var s := State();
      var kbuf := ModeLine(s.mode);
      kbuf := kbuf + RateLine(s.rate);
      kbuf := kbuf + LightsLine(s.lights);
      kbuf := kbuf + PedLine(s.pedRequested || s.pedCrossing);
      assert kbuf == StatusText(s);
      StatusTextFits(s);
      if fpos >= |kbuf| {
        return 0, [], fpos;
      }
      var n := count;
      if n > |kbuf| - fpos {
        n := |kbuf| - fpos;
      }
      data := kbuf[fpos..fpos + n];
      newPos := fpos + n;
      ret := n;
    }
  }

  /** A client of the device: after initialisation, writing "5\n" and then
      reading the status from offset 0 reports a rate of 5 Hz, NORMAL mode,
      green only and no pedestrian. */
  method WriteFiveThenRead(garbage: int) returns (data: string)
    ensures DecodeStatus(data) == Some(Report(Normal, 5, GreenOnly, false))
  {
    var light := new TrafficLight(garbage);
    ghost var s0 := light.State();
    var buf := Format(5) + "\n";
    WriteDecimalSetsRate(s0, 5, "\n");
    var written := light.WriteRate(buf);
    ghost var s1 := light.State();
    assert s1 == s0.(rate := 5);
    var n, pos;
    n, data, pos := light.ReadStatus(KBUF_SIZE, 0);
    assert data == StatusText(s1);
    DecodeStatusText(s1);
    assert Observe(s1) == Report(Normal, 5, GreenOnly, false);
  }
}

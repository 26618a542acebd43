# mytraffic: a verified model of the traffic-light controller

`mytraffic.c` is a Linux kernel module that drives a red, a yellow and a
green light from a periodic timer, switches between a NORMAL cycle and two
flashing modes on a toggle button, inserts a pedestrian crossing into the
NORMAL cycle on a call button, lets user space set the cycle rate by
writing to `/dev/mytraffic`, and reports its state as text when that device
is read. This project models that controller logic in Dafny and proves what
it does.

Files, one module each:

- `Unsigned.dfy`: the `%u` conversions the module relies on. `Format` is the
  decimal text `snprintf` prints. `ParseUnsigned` is what `sscanf(kbuf, "%u")`
  reads back: white space is skipped, the longest digit run is read, and the
  value is stored in an `unsigned int`. The round trip between them is proved.
- `Debounce.dfy`: the 250 ms filter in front of both button handlers, with
  `jiffies` as a wrapping unsigned counter.
- `Traffic.dfy`: the controller state as a value (`Ctrl`) and one function
  per operation: `TickStep`, `ToggleStep`, `PedStep` and `WriteStep`. It also
  holds the invariant `Inv` and the one-step lemmas.
- `Status.dfy`: the four-line status text and a decoder for it. Decoding
  the text of any state gives back its mode, rate, lights and pedestrian
  presence.
- `Traces.dfy`: runs of the controller, where each timer tick, button edge
  and write is one atomic step. It proves the multi-tick behaviour: the
  flashing parity for all n, the six-tick NORMAL period, the whole crossing,
  and toggles with debounce.
- `MyTraffic.dfy`: the class `TrafficLight`. Its fields are those of
  `struct traffic_light` plus the two handlers' function-static
  `most_recent_interrupt`. Its methods update the fields step by step, as the
  C handlers do. Each is proved to keep `Valid()` and to leave exactly the
  state the matching `Traffic` function gives. `ReadStatus` changes nothing
  and is proved against the status text.

Behaviour of the code that the model keeps, and that a reader may not
expect:

- A crossing shows red and yellow for six ticks, although the comments at
  mytraffic.c:178 and :180 speak of five. The hand-off tick already shows
  them, and five body ticks follow before the green tick that ends the
  crossing (`Traces.CrossingSequence`).
- The pedestrian handler checks only the mode. A press at any point of a
  crossing is latched, and the tick that ends the crossing then clears it
  (`Traces.PressDuringCrossingAbsorbed`).
- A toggle does not touch the crossing state. A crossing interrupted by the
  flashing modes resumes where it stood on return to NORMAL
  (`Traces.CrossingSurvivesToggles`). The model keeps this behaviour.
- `ped_cycle_count` is not initialised. The constructor takes its initial
  value as a parameter. The invariant only needs it to lie in [0,5] while a
  crossing runs.
- A write of 16 bytes or more returns -EINVAL to the caller.
- The parsed rate is truncated to `unsigned int` before the [1,9] check, so
  writing "4294967301" sets the rate to 5 (`Traffic.WriteWrapsAround`).
  The rate still stays in [1,9].

## Model

| member | source | states |
|---|---|---|
| MyTraffic.TrafficLight.constructor | mytraffic.c:263-371 | starts in NORMAL, cycle count 0, rate 1, green only, no request or crossing, both debounce stamps 0 (the static initialisers at lines 263 and 294), `ped_cycle_count` arbitrary; the fields are set at lines 332-338 and the mode at line 371; the invariant holds |
| MyTraffic.TrafficLight.Tick | mytraffic.c:168-254 | the fields become exactly `TickStep` of the old state, the invariant is kept, and the re-arm delay is `hz / rate` with rate in [1,9], so it never divides by zero |
| MyTraffic.TrafficLight.Toggle | mytraffic.c:258-287 | the fields become exactly `ToggleStep(old state, now)`: debounce, mode rotation, cycle count reset |
| MyTraffic.TrafficLight.PedCall | mytraffic.c:291-306 | the fields become exactly `PedStep(old state, now)`: debounce, then latch the request only in NORMAL |
| MyTraffic.TrafficLight.WriteRate | mytraffic.c:145-165 | returns -EINVAL for 16 bytes or more, else the byte count; only the rate changes, to the parsed value when that is in [1,9]; the invariant is kept |
| MyTraffic.TrafficLight.ReadStatus | mytraffic.c:103-143 | changes nothing; returns 0 when the offset is at or past the end of the status text; otherwise returns min(count, length - offset) bytes of the text from the offset and advances the offset by that much; a 256-byte read from 0 gets the whole text |
| MyTraffic.WriteFiveThenRead | mytraffic.c:103-165 | after init, writing "5\n" and reading the status reports NORMAL, 5 Hz, green only, no pedestrian |
| Unsigned.Format | mytraffic.c:115 | the rate is printed as a non-empty string of decimal digits, with a leading zero only for 0 |
| Unsigned.ParseUnsigned | mytraffic.c:158 | the conversion succeeds exactly when a digit follows the leading white space, and the stored value fits an `unsigned int` |
| Unsigned.ValueOfFormat | mytraffic.c:115 | the digits printed for n denote n |
| Unsigned.ParseFormat | mytraffic.c:158 | reading back printed digits followed by a non-digit gives the number modulo 2^32 |
| Unsigned.FormatLength | mytraffic.c:115 | a number below 10^k prints in at most k digits |
| Unsigned.FormatLengthUint | mytraffic.c:115 | an `unsigned int` prints in at most ten digits |
| Debounce.Elapsed | mytraffic.c:265 | the difference of two `unsigned long` stamps: plain difference without wrap-around, 2^32 minus the gap across it |
| Debounce.AcceptsWithoutWrap | mytraffic.c:265-268 | without wrap-around an edge is taken iff at least 250 ms have passed since the last taken edge |
| Debounce.AcceptsAcrossWrap | mytraffic.c:265-296 | in both handlers (lines 265 and 296), when the counter has wrapped since the last stamp, an edge is refused exactly when fewer than 250 ms have passed counted through the wrap (`now + 2^32 - last < 250`) |
| Traffic.InitialInv | mytraffic.c:332-338 | the initial state satisfies the invariant (rate in [1,9], crossing count in [0,5] while crossing) |
| Traffic.StepsPreserveInv | mytraffic.c:145-306 | tick, toggle, pedestrian press and write each keep the invariant; the rate after a write is never 0 |
| Traffic.FlashingRedTick | mytraffic.c:235-239 | after a FLASHING_RED tick red is on iff the new cycle count is odd, yellow and green are off, nothing but counter and lights changes |
| Traffic.FlashingYellowTick | mytraffic.c:241-245 | after a FLASHING_YELLOW tick yellow is on iff the new cycle count is odd, red and green are off, nothing but counter and lights changes |
| Traffic.NormalTickNoPedestrian | mytraffic.c:198-231 | in NORMAL with no crossing or request the lights after a tick are the table entry (G,G,G,Y,R,R) for the new count mod 6, exactly one light is on, pedestrian state is unchanged |
| Traffic.RequestWaitsOutsideRed | mytraffic.c:200-231 | a pending request stays latched through ticks landing on positions 0-3, which show the table entry |
| Traffic.HandOff | mytraffic.c:209-224 | at positions 4 or 5 a pending request starts the crossing: crossing set, request cleared, crossing count 0, red and yellow on, green off |
| Traffic.CrossingBodyTick | mytraffic.c:179-187 | a crossing tick with count below 5 holds red and yellow, green off, increments the count, and keeps it at most 5 |
| Traffic.CrossingEndTick | mytraffic.c:188-197 | the tick after five body ticks clears crossing, request, crossing count and cycle count and shows green only |
| Traffic.TickLightsConflictFree | mytraffic.c:176-245 | after any tick green is never lit with another light, and red with yellow only in a NORMAL crossing |
| Traffic.ToggleEffect | mytraffic.c:263-286 | an accepted toggle advances the mode, zeroes the cycle count, records its stamp and changes nothing else; a rejected one changes nothing |
| Traffic.NextModeCycle | mytraffic.c:270-284 | the mode rotation has no fixed point and returns after three steps |
| Traffic.PedEffect | mytraffic.c:294-304 | a rejected press changes nothing; an accepted press in a flashing mode only records its stamp; in NORMAL it also latches the request, whatever the crossing state |
| Traffic.WriteEffect | mytraffic.c:151-164 | 16 bytes or more: -EINVAL and no change; otherwise the count is returned, only the rate may change, and the rate becomes the parsed value exactly when a number was parsed and lies in [1,9] (both directions) |
| Traffic.WriteDecimal | mytraffic.c:151-160 | writing the digits of n (plus optional newline), when the text is shorter than 16 bytes, sets the rate to n mod 2^32 if that is in [1,9], else leaves it |
| Traffic.WriteDecimalSetsRate | mytraffic.c:158-160 | writing "n" or "n\n" for n in [1,9] sets the rate to n |
| Traffic.WriteOutOfRangeIgnored | mytraffic.c:159 | writing "0\n" or "10\n" leaves the rate unchanged |
| Traffic.WriteNonNumericIgnored | mytraffic.c:158-164 | writing "abc\n" reports 4 bytes written and changes nothing |
| Traffic.WriteWrapsAround | mytraffic.c:150-160 | writing "4294967301\n" sets the rate to 5, because the value is kept in an `unsigned int` before the range check |
| Status.DecodeStatusText | mytraffic.c:110-123 | the status text of any state decodes to exactly its mode, rate, three lights and "present" iff a request or crossing is active |
| Status.StatusTextFaithful | mytraffic.c:110-123 | two states with the same status text agree on mode, rate, lights and pedestrian presence |
| Status.PresentLine | mytraffic.c:121-123 | the text ends in "Pedestrian: present" iff `ped_requested` or `ped_crossing` |
| Status.StatusTextFits | mytraffic.c:105-121 | for any `unsigned int` rate the text is shorter than the 256-byte buffer, so `snprintf` never truncates |
| Traces.RunPreservesInv | mytraffic.c:145-306 | every interleaving of ticks, edges and writes keeps the invariant |
| Traces.ReachableInv | mytraffic.c:332-338 | every state reachable from init has rate in [1,9] (so nonzero) and crossing count in [0,5] while crossing |
| Traces.FlashingRedRun | mytraffic.c:235-239 | for every n >= 1 ticks in FLASHING_RED, red is on iff the count is odd, yellow and green off, the count advanced by n |
| Traces.FlashingYellowRun | mytraffic.c:241-245 | for every n >= 1 ticks in FLASHING_YELLOW, yellow is on iff the count is odd, red and green off, the count advanced by n |
| Traces.NormalRun | mytraffic.c:198-231 | for every n >= 1 ticks in NORMAL without pedestrian, the lights follow the G,G,G,Y,R,R table by count mod 6, one light at a time |
| Traces.NormalPeriodSix | mytraffic.c:200 | the NORMAL lights repeat with period 6 |
| Traces.InitialSixTicks | mytraffic.c:200-231 | from init, six ticks show G,G,Y,R,R,G and the cycle count is 6 |
| Traces.CrossingBodyRun | mytraffic.c:179-187 | j body ticks from crossing count k (k + j <= 5) hold red and yellow and raise the count to k + j |
| Traces.CrossingSequence | mytraffic.c:179-224 | a hand-off tick and the five ticks after it show red and yellow, with crossing counts 0..5; the seventh tick shows green only with cycle count, crossing and request cleared |
| Traces.ToggleBounce | mytraffic.c:263-268 | two toggle edges 10 ms apart advance the mode by one step only |
| Traces.ThreeToggles | mytraffic.c:270-285 | three toggles at least 260 ms apart pass through both other modes, restore the mode, zero the cycle count and leave the pedestrian state as it was |
| Traces.CrossingSurvivesToggles | mytraffic.c:270-285 | toggling through the flashing modes during a crossing leaves it in place, and the next NORMAL tick continues it |
| Traces.PressDuringCrossingAbsorbed | mytraffic.c:179-197 | a press accepted at any crossing count k in [0,5] is latched, and after 6 - k ticks the crossing has ended with the request cleared, green only and cycle count 0 |
| Traces.RequestSurvivesFlashing | mytraffic.c:270-285 | a request latched in NORMAL survives a round trip through the flashing modes and is served on the fourth tick, the first red position |

## Left out

- Module init and exit plumbing (mytraffic.c:309-451) is left out. This is
  device-number registration, allocation, GPIO and IRQ requests and their
  unwinding. Only the initial field values are modelled.
- The GPIO writes are left out. The three booleans are the observable
  output, and the lights being forced off at unload is not modelled.
- Timer setup and the first arming, `jiffies + rate` (mytraffic.c:411-412),
  are left out. A tick is a method call. `Tick` returns the re-arm delay
  `hz / rate` but schedules nothing.
- `copy_to_user` and `copy_from_user`, and their -EFAULT returns, are left
  out. They are memory transfers across the user boundary.
- `printk` logging is left out.
- Concurrency is not modelled. The timer and IRQ handlers take no lock; each
  handler call is one atomic step.
- Bytes of the read and write buffers are modelled as `char`.
- `sscanf` skips only ASCII white space in the model. Other details of the
  kernel's `%u` conversion are not modelled.
- Time is counted in milliseconds with one reading per `jiffies` value. The
  `unsigned long` width is taken as 32 bits.
- `cycle_count` is an unbounded `nat`. The C `int` overflows after 2^31
  ticks without a reset, which is about 7.5 years at 9 Hz. That overflow is
  not modelled.
- MyTraffic.TrafficLight.ReadStatus: the file offset is a `nat`. The kernel
  rejects negative offsets before the handler runs.

/** The debounce filter in front of each button's interrupt handler: an edge
    is acted on only if at least 250 ms have passed since the last edge that
    was acted on for the same button. Time is the kernel's `jiffies`
    counter, counted here in milliseconds; it is an `unsigned long`, taken
    as 32 bits, so the difference of two readings wraps around. */
module Debounce {

  const ULONG_MOD: nat := 0x1_0000_0000

  /** A reading of `jiffies`, or a handler's `most_recent_interrupt`. */
  type Stamp = t: int | 0 <= t < ULONG_MOD

  /** `msecs_to_jiffies(250)`, in milliseconds. */
  const WINDOW: nat := 250

  /** `now - last` computed on `unsigned long`. */
  function Elapsed(now: Stamp, last: Stamp): (e: Stamp)
    ensures last <= now ==> e == now - last
    ensures now < last ==> e == ULONG_MOD - (last - now)
  {
    (now - last) % ULONG_MOD
  }

  /** The handler goes past its early return exactly when this holds. */
  predicate Accepts(now: Stamp, last: Stamp)
  {
    Elapsed(now, last) >= WINDOW
  }

  /** An edge less than 250 ms after the last accepted one is dropped, and
      one at least 250 ms after it is taken (both without wrap-around). */
  lemma AcceptsWithoutWrap(now: Stamp, last: Stamp)
    requires last <= now
    ensures Accepts(now, last) <==> now >= last + WINDOW
  {
  }

  /** When the counter has wrapped since the last accepted edge, the time
      elapsed is counted through the wrap, `now + 2^32 - last`, and the edge
      is refused exactly when that is under 250 ms. */
  lemma AcceptsAcrossWrap(now: Stamp, last: Stamp)
    requires now < last
    ensures Accepts(now, last) <==> last - now <= ULONG_MOD - WINDOW
  {
  }
}

/** Millisecond arithmetic of the engine: the wrapping `millis()` counter, the first wait of
    `update`, the idle time of `delay` and the probe count of `connect`. */
module Timing {
  import opened Wire

  /** Milliseconds of the stream's read timeout and of one connection probe. */
  const TimeoutMs: nat := 1000

  /** `unsigned long` is 32 bits wide on the boards the library targets. */
  const Wrap: nat := 0x1_0000_0000

  /** What `millis()` returns when `now` milliseconds have passed since power-up. */
  function Millis(now: nat): (m: nat)
    ensures m < Wrap
  {
    now % Wrap
  }

  /** `reading - since` computed on `unsigned long`, as `millis() - t` is. */
  function Elapsed(since: nat, reading: nat): (e: nat)
    requires since < Wrap && reading < Wrap
    ensures e < Wrap
    ensures since <= reading ==> e == reading - since
    ensures reading < since ==> e == Wrap - since + reading
  {
    (reading as int - since as int) % Wrap
  }

  /** The unsigned difference of two `millis()` readings is the time between them, modulo the
      width of the counter, even when the counter wrapped in between. */
  lemma ElapsedOfClock(start: nat, now: nat)
    requires start <= now
    ensures Elapsed(Millis(start), Millis(now)) == (now - start) % Wrap
  {
    var qs, qn := start / Wrap, now / Wrap;
    assert start == qs * Wrap + Millis(start);
    assert now == qn * Wrap + Millis(now);
    var d := now - start;
    assert d == (qn - qs) * Wrap + (Millis(now) - Millis(start));
    ModShift(Millis(now) - Millis(start), qn - qs);
  }

  lemma ModShift(x: int, k: int)
    ensures (k * Wrap + x) % Wrap == x % Wrap
  {
    var y := k * Wrap + x;
    assert y == (k + x / Wrap) * Wrap + x % Wrap;
    ModUnique(y, k + x / Wrap, x % Wrap);
  }

  lemma ModUnique(y: int, q: int, r: int)
    requires 0 <= r < Wrap && y == q * Wrap + r
    ensures y % Wrap == r
  {
    var q' := y / Wrap;
    var r' := y % Wrap;
    assert (q - q') * Wrap == r' - r;
  }

  /** Whether input that becomes readable at `ready` is seen by a wait of `timeout` ms that
      starts at `start`. */
  predicate Arrives(start: nat, timeout: nat, pending: bool, ready: nat) {
    pending && ready <= start + timeout
  }

  /** When the first wait of `update` ends: at the first millisecond at which input is
      readable, but no later than `timeout` ms after it began. */
  function WaitEnd(start: nat, timeout: nat, pending: bool, ready: nat): (w: nat)
    ensures start <= w <= start + timeout
    ensures w == start + timeout || (pending && ready <= w)
    ensures pending && start < w ==> w <= ready
    ensures Arrives(start, timeout, pending, ready) <==> pending && ready <= w
  {
    if Arrives(start, timeout, pending, ready) then (if ready <= start then start else ready)
    else start + timeout
  }

  /** How long `delay` idles after its update: `timeout - elapsed` computed on `unsigned long`,
      and 0 when that difference wrapped past `timeout`. */
  function IdlePeriod(timeout: byte, elapsed: nat): (d: nat)
    requires elapsed < Wrap
    ensures d <= timeout as int
    ensures elapsed <= timeout as int ==> d == timeout as int - elapsed
    ensures elapsed > timeout as int ==> d == 0
  {
    var period := (timeout as int - elapsed) % Wrap;
    if period > timeout as int then 0 else period
  }

  /** How long `delay` takes when its update took `elapsed` ms: nothing more when that already
      reached `timeout`; otherwise `lag` ms pass before the clock is read again, and then the
      idle period computed from that reading. */
  function Paced(timeout: byte, elapsed: nat, lag: nat): (d: nat)
    requires elapsed < Wrap
    ensures elapsed <= d
  {
    if elapsed < timeout as int then elapsed + lag + IdlePeriod(timeout, (elapsed + lag) % Wrap)
    else elapsed
  }

  /** Without a wrap of the counter, `delay` lasts exactly `timeout` ms when its update returned
      early enough, and otherwise as long as its update (plus the lag, which the guard against
      a wrapped difference keeps from being paid twice). */
  lemma PacedClosedForm(timeout: byte, elapsed: nat, lag: nat)
    requires elapsed + lag < Wrap
    ensures Paced(timeout, elapsed, lag) ==
              if timeout as int <= elapsed then elapsed
              else if elapsed + lag <= timeout as int then timeout as int
              else elapsed + lag
  {
    ModUnique(elapsed + lag, 0, elapsed + lag);
  }

  /** How many connection requests `connect` sends when it starts at `start` and the peer's
      first byte becomes readable at `ready`: it sends one, idles `TimeoutMs`, and repeats
      until input is readable. */
  function ProbeCount(start: nat, ready: nat): (n: nat)
    ensures n >= 1 && ready <= start + n * TimeoutMs
    ensures n == 1 || start + (n - 1) * TimeoutMs < ready
    decreases if ready > start then ready - start else 0
  {
    if ready <= start + TimeoutMs then 1
    else
      var m := ProbeCount(start + TimeoutMs, ready);
      assert start + TimeoutMs + m * TimeoutMs == start + (1 + m) * TimeoutMs;
      1 + m
  }
}

/** The environment the engine runs in: the serial stream it reads and writes and the board's
    millisecond clock. Neither is part of the library; this class only holds what the library
    can observe of them. */
module Transport {
  import opened Wire
  import opened Timing

  class Stream {
    /** Bytes the peer has sent that have not been read yet. */
    var rx: seq<byte>
    /** The instant at which `rx` has arrived and can be read. */
    var ready: nat
    /** Every byte written so far, oldest first. */
    var tx: seq<byte>
    /** Milliseconds since power-up; `millis()` is this value modulo 2^32. */
    var now: nat
    /** How long `readBytes` waits for a byte that has not arrived. */
    var timeout: nat

    constructor (incoming: seq<byte>, arrival: nat, start: nat)
      ensures rx == incoming && ready == arrival && tx == [] && now == start && timeout == TimeoutMs
    {
      rx, ready, tx, now, timeout := incoming, arrival, [], start, TimeoutMs;
    }

    /** `available() > 0` */
    predicate Available()
      reads this
    {
      rx != [] && ready <= now
    }

    function Millis(): (m: nat)
      reads this
      ensures m == Timing.Millis(now)
    {
      Timing.Millis(now)
    }

    method SetTimeout(ms: nat)
      modifies this
      ensures timeout == ms
      ensures rx == old(rx) && ready == old(ready) && tx == old(tx) && now == old(now)
    {
      timeout := ms;
    }

    method Read() returns (b: byte)
      requires Available()
      modifies this
      ensures b == old(rx[0]) && rx == old(rx[1..])
      ensures ready == old(ready) && tx == old(tx) && now == old(now) && timeout == old(timeout)
    {
      b := rx[0];
      rx := rx[1..];
    }

    /** Reads up to `n` bytes; when fewer have arrived it reads those and gives up after
        waiting `timeout` for the next one. */
    method ReadBytes(n: byte) returns (buf: seq<byte>)
      requires ready <= now
      modifies this
      ensures old(|rx|) >= n as int ==> buf == old(rx[..n]) && rx == old(rx[n..]) && now == old(now)
      ensures old(|rx|) < n as int ==> buf == old(rx) && rx == [] && now == old(now) + timeout
      ensures ready == old(ready) && tx == old(tx) && timeout == old(timeout)
    {
      if |rx| >= n as int {
        buf, rx := rx[..n], rx[n..];
      } else {
        buf, rx := rx, [];
        now := now + timeout;
      }
    }

    method Write(b: byte)
      modifies this
      ensures tx == old(tx) + [b]
      ensures rx == old(rx) && ready == old(ready) && now == old(now) && timeout == old(timeout)
    {
      tx := tx + [b];
    }

    method WriteBytes(bs: seq<byte>)
      modifies this
      ensures tx == old(tx) + bs
      ensures rx == old(rx) && ready == old(ready) && now == old(now) && timeout == old(timeout)
    {
      tx := tx + bs;
    }

    /** Lets `ms` milliseconds pass. */
    method Wait(ms: nat)
      modifies this
      ensures now == old(now) + ms
      ensures rx == old(rx) && ready == old(ready) && tx == old(tx) && timeout == old(timeout)
    {
      now := now + ms;
    }
  }
}

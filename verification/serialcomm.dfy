/** The `SerialComm` engine: a fixed-capacity table of variables, the connection handshake,
    the report encoder and the decode loop of `update`, and the pacing of `delay`. */
module Comm {
  import opened Wire
  import opened Timing
  import opened Transport

  /** A table entry: the bytes of the application variable it stands for and how many of them
      are reported. */
  datatype VarStore = VarStore(ptr: seq<byte>, length: byte)

  /** An entry never reports more bytes than its variable has. */
  type Slot = s: VarStore | s.length as int <= |s.ptr| witness VarStore([], 0)

  /** When `update` returns: when its first wait ends, plus the read timeout if a report's payload
      ran out before its declared length. */
  ghost function UpdateEnd(start: nat, timeout: byte, rx: seq<byte>, ready: nat, readTimeout: nat): (r: nat)
    requires Arrives(start, timeout as int, rx != [], ready) ==> Decode(rx).Some?
    ensures start <= r <= start + timeout as int + readTimeout
  {
    var w := WaitEnd(start, timeout as int, rx != [], ready);
    if Arrives(start, timeout as int, rx != [], ready) && AnyCutShort(Decode(rx).value) then w + readTimeout
    else w
  }

  lemma CutShortAppend(fs: seq<Frame>, f: Frame)
    ensures AnyCutShort(fs + [f]) <==> AnyCutShort(fs) || CutShort(f)
  {
    if AnyCutShort(fs) {
      var i :| 0 <= i < |fs| && CutShort(fs[i]);
      assert (fs + [f])[i] == fs[i];
    }
    if CutShort(f) {
      assert (fs + [f])[|fs|] == f;
    }
    if AnyCutShort(fs + [f]) {
      var i :| 0 <= i < |fs + [f]| && CutShort((fs + [f])[i]);
      if i < |fs| {
        assert fs[i] == (fs + [f])[i];
      }
    }
  }

  class SerialComm {
    /** The stream the engine talks over (`_serial`). */
    const serial: Stream
    /** The variable table (`_vars`), allocated with room for `varsCount` entries. */
    const vars: array<Slot>
    /** The capacity of the table (`_varsCount`). */
    const varsCount: byte
    /** How many entries have been registered (`_varsUsedCount`). */
    var varsUsedCount: byte

    ghost predicate Valid()
      reads this
    {
      vars.Length == varsCount as int && varsUsedCount <= varsCount
    }

    /** The bytes each table entry reports, indexed by id, up to the capacity. */
    ghost function Payloads(): (p: seq<Payload>)
      requires Valid()
      reads this, vars
      ensures |p| == varsCount as int
      ensures forall i | 0 <= i < |p| :: p[i] == vars[i].ptr[..vars[i].length]
    {
      seq(vars.Length, i requires 0 <= i < vars.Length reads vars => vars[i].ptr[..vars[i].length])
    }

    /** The entries registered so far, in id order. */
    ghost function Registered(): seq<VarStore>
      requires Valid()
      reads this, vars
    {
      vars[..varsUsedCount]
    }

    /** An empty table of capacity `varCount`; every entry is a zero-length slot until it is
        registered. The stream's read timeout is set to `TimeoutMs`. */
    constructor (serial: Stream, varCount: byte)
      modifies serial
      ensures Valid() && fresh(vars)
      ensures this.serial == serial && varsCount == varCount && Registered() == []
      ensures forall i | 0 <= i < |Payloads()| :: Payloads()[i] == []
      ensures serial.timeout == TimeoutMs
      ensures serial.rx == old(serial.rx) && serial.ready == old(serial.ready)
      ensures serial.tx == old(serial.tx) && serial.now == old(serial.now)
    {
      this.serial := serial;
      varsCount := varCount;
      varsUsedCount := 0;
      vars := new Slot[varCount](_ => VarStore([], 0));
      new;
      serial.SetTimeout(TimeoutMs);
    }

    /** Stores `ptr` and `len` in the next free entry (`_registerVar`). */
    method RegisterSlot(ptr: seq<byte>, len: byte)
      requires Valid() && varsUsedCount < varsCount && len as int <= |ptr|
      modifies this`varsUsedCount, vars
      ensures Valid()
      ensures varsUsedCount == old(varsUsedCount) + 1
      ensures vars[..] == old(vars[..])[old(varsUsedCount) as int := VarStore(ptr, len)]
    {
      vars[varsUsedCount] := VarStore(ptr, len);
      varsUsedCount := varsUsedCount + 1;
    }

    /** Registers the variable whose bytes are `v` (`registerVar`). Its length is `sizeof(T)` as a
        `uint8_t`, i.e. `|v|` taken modulo 256. Returns its id, or the capacity when the table is full. */
    method RegisterVar(v: seq<byte>) returns (id: byte)
      requires Valid()
      modifies this`varsUsedCount, vars
      ensures Valid()
      ensures old(varsUsedCount) == varsCount ==>
                id == varsCount && varsUsedCount == old(varsUsedCount) && vars[..] == old(vars[..])
      ensures old(varsUsedCount) < varsCount ==>
                && id == old(varsUsedCount)
                && varsUsedCount == old(varsUsedCount) + 1
                && vars[..] == old(vars[..])[id as int := VarStore(v, (|v| % 256) as byte)]
      ensures Registered() == old(Registered()) +
                (if old(varsUsedCount) < varsCount then [VarStore(v, (|v| % 256) as byte)] else [])
    {
      if varsUsedCount == varsCount {
        return varsCount;
      }
      var r := varsUsedCount;
      RegisterSlot(v, (|v| % 256) as byte);
      assert vars[..varsUsedCount] == old(vars[..varsUsedCount]) + [VarStore(v, (|v| % 256) as byte)];
      return r;
    }

    /** Writes the report frame of entry `id`: the four writes `send(uint8_t)` and `send()` share. */
    method WriteEntry(id: byte)
      requires Valid() && id < varsCount
      modifies serial
      ensures serial.tx == old(serial.tx) + Encode(Report(id, |Payloads()[id]| as byte, Payloads()[id]))
      ensures serial.rx == old(serial.rx) && serial.ready == old(serial.ready)
      ensures serial.now == old(serial.now) && serial.timeout == old(serial.timeout)
    {
      serial.Write(ReportVar);
      serial.Write(id);
      serial.Write(vars[id].length);
      serial.WriteBytes(vars[id].ptr[..vars[id].length]);
    }

    /** Reports entry `id` (`send(uint8_t)`): `[0xF3][id][length][payload]` when `id` is below the
        capacity, nothing otherwise. */
    method Send(id: byte)
      requires Valid()
      modifies serial
      ensures serial.tx == old(serial.tx) + Reply(Payloads(), id)
      ensures serial.rx == old(serial.rx) && serial.ready == old(serial.ready)
      ensures serial.now == old(serial.now) && serial.timeout == old(serial.timeout)
    {
      if id < varsCount {
        WriteEntry(id);
      }
    }

    /** Reports every entry up to the capacity, in id order (`send()`). */
    method SendAll()
      requires Valid()
      modifies serial
      ensures serial.tx == old(serial.tx) + EncodeAll(AllReports(Payloads()))
      ensures serial.rx == old(serial.rx) && serial.ready == old(serial.ready)
      ensures serial.now == old(serial.now) && serial.timeout == old(serial.timeout)
    {
      ghost var p := Payloads();
      ghost var reports := AllReports(p);
      var i: byte := 0;
      while i < varsCount
        invariant i <= varsCount
        invariant serial.tx == old(serial.tx) + EncodeAll(reports[..i])
        invariant serial.rx == old(serial.rx) && serial.ready == old(serial.ready)
        invariant serial.now == old(serial.now) && serial.timeout == old(serial.timeout)
      {
        ghost var before := serial.tx;
        WriteEntry(i);
        SentPrefix(old(serial.tx), reports, i as int, before, serial.tx);
        i := i + 1;
      }
      assert reports[..i] == reports;
    }

    /** The first loop of `update`: polls until input is readable or `timeout` ms have passed
        on the wrapping clock. */
    method AwaitInput(timeout: byte)
      modifies serial
      ensures serial.now == WaitEnd(old(serial.now), timeout as int, serial.rx != [], serial.ready)
      ensures serial.Available() <==> Arrives(old(serial.now), timeout as int, serial.rx != [], serial.ready)
      ensures serial.rx == old(serial.rx) && serial.tx == old(serial.tx)
      ensures serial.ready == old(serial.ready) && serial.timeout == old(serial.timeout)
    {
      ghost var start := serial.now;
      var t := serial.Millis();
      while !serial.Available()
        invariant start <= serial.now <= WaitEnd(start, timeout as int, serial.rx != [], serial.ready)
        invariant serial.rx == old(serial.rx) && serial.tx == old(serial.tx)
        invariant serial.ready == old(serial.ready) && serial.timeout == old(serial.timeout)
        decreases start + timeout as int - serial.now
      {
        ElapsedOfClock(start, serial.now);
        ModUnique(serial.now - start, 0, serial.now - start);
        if Elapsed(t, serial.Millis()) >= timeout as nat {
          break;
        }
        serial.Wait(1);
      }
    }

    /** The second loop of `update`: reads frames while input is readable, answering each
        variable request and discarding each report. */
    method Drain()
      requires Valid()
      requires serial.Available() ==> Decode(serial.rx).Some?
      modifies serial
      ensures old(serial.Available()) ==>
                && serial.rx == []
                && serial.tx == old(serial.tx) + Replies(Decode(old(serial.rx)).value, Payloads())
                && serial.now == old(serial.now) + (if AnyCutShort(Decode(old(serial.rx)).value) then serial.timeout else 0)
      ensures !old(serial.Available()) ==>
                serial.rx == old(serial.rx) && serial.tx == old(serial.tx) && serial.now == old(serial.now)
      ensures serial.ready == old(serial.ready) && serial.timeout == old(serial.timeout)
    {
      ghost var rx0, p := serial.rx, Payloads();
      ghost var arrived := serial.Available();
      ghost var done: seq<Frame> := [];
      while serial.Available()
        invariant arrived ==> serial.ready <= serial.now
        invariant arrived ==> Decode(serial.rx).Some? && Decode(rx0).value == done + Decode(serial.rx).value
        invariant !arrived ==> done == [] && serial.rx == rx0 && serial.now == old(serial.now) && !serial.Available()
        invariant serial.tx == old(serial.tx) + Replies(done, p)
        invariant serial.now == old(serial.now) + (if AnyCutShort(done) then serial.timeout else 0)
        invariant AnyCutShort(done) ==> serial.rx == []
        invariant serial.ready == old(serial.ready) && serial.timeout == old(serial.timeout)
        decreases |serial.rx|
      {
        ghost var before, written := serial.rx, serial.tx;
        var command := serial.Read();
        var f: Frame;
        if command == RequestVar {
          DecodeRequest(before);
          var id := serial.Read();
          Send(id);
          f := Request(id);
        } else if command == ReportVar {
          DecodeReport(before);
          var id := serial.Read();
          var length := serial.Read();
          var buffer := serial.ReadBytes(length);
          f := Report(id, length, buffer);
        } else {
          DecodeOther(before);
          f := Other(command);
        }
        DrainStep(rx0, done, before, f, serial.rx);
        RepliedPrefix(old(serial.tx), done, f, p, written, serial.tx);
        CutShortAppend(done, f);
        done := done + [f];
      }
      if arrived {
        assert Decode(rx0).value == done;
      }
      assert Payloads() == p;
    }

    /** Waits up to `timeout` ms for input, then decodes and acts on frames while input is
        readable (`update`): a request is answered with `send(id)`, a report is read and
        dropped, any other byte is skipped. The table and the application memory are untouched. */
    method Update(timeout: byte)
      requires Valid()
      requires Arrives(serial.now, timeout as int, serial.rx != [], serial.ready) ==> Decode(serial.rx).Some?
      modifies serial
      ensures Arrives(old(serial.now), timeout as int, old(serial.rx) != [], old(serial.ready)) ==>
                && serial.rx == []
                && serial.tx == old(serial.tx) + Replies(Decode(old(serial.rx)).value, Payloads())
      ensures !Arrives(old(serial.now), timeout as int, old(serial.rx) != [], old(serial.ready)) ==>
                serial.rx == old(serial.rx) && serial.tx == old(serial.tx)
      ensures serial.now == UpdateEnd(old(serial.now), timeout, old(serial.rx), old(serial.ready), serial.timeout)
      ensures serial.ready == old(serial.ready) && serial.timeout == old(serial.timeout)
    {
      AwaitInput(timeout);
      Drain();
    }

    /** Runs `update(timeout)` and then idles for what is left of `timeout` ms (`delay`). `lag` is
        the time that passes between the clock reading that decides whether to idle and the one
        the idle period is computed from. */
    method Delay(timeout: byte, lag: nat)
      requires Valid() && serial.timeout < Wrap - 256
      requires Arrives(serial.now, timeout as int, serial.rx != [], serial.ready) ==> Decode(serial.rx).Some?
      modifies serial
      ensures Arrives(old(serial.now), timeout as int, old(serial.rx) != [], old(serial.ready)) ==>
                && serial.rx == []
                && serial.tx == old(serial.tx) + Replies(Decode(old(serial.rx)).value, Payloads())
      ensures !Arrives(old(serial.now), timeout as int, old(serial.rx) != [], old(serial.ready)) ==>
                serial.rx == old(serial.rx) && serial.tx == old(serial.tx)
      ensures serial.now == old(serial.now) +
                Paced(timeout, UpdateEnd(old(serial.now), timeout, old(serial.rx), old(serial.ready), old(serial.timeout)) - old(serial.now), lag)
      ensures serial.ready == old(serial.ready) && serial.timeout == old(serial.timeout)
    {
      ghost var start := serial.now;
      var t := serial.Millis();
      Update(timeout);
      ghost var e := serial.now - start;
      ElapsedOfClock(start, serial.now);
      ModUnique(e, 0, e);
      if Elapsed(t, serial.Millis()) < timeout as nat {
        serial.Wait(lag);
        ElapsedOfClock(start, serial.now);
        var delayPeriod := IdlePeriod(timeout, Elapsed(t, serial.Millis()));
        serial.Wait(delayPeriod);
      }
    }

    /** Brings the link up (`connect`): sends a connection request every `TimeoutMs` until the peer
        has sent something, then reads bytes until the peer's acknowledgement, acknowledging the
        first connection request it reads before that, and only that one. */
    method Connect()
      requires Valid()
      requires ConnectReply in serial.rx
      modifies serial
      ensures var n := ProbeCount(old(serial.now), old(serial.ready));
              && serial.now == old(serial.now) + n * TimeoutMs
              && serial.tx == old(serial.tx) + Repeat(ConnectRequest, n)
                                + AckFor(old(serial.rx)[..IndexOf(old(serial.rx), ConnectReply)])
      ensures serial.rx == old(serial.rx)[IndexOf(old(serial.rx), ConnectReply) + 1..]
      ensures serial.ready == old(serial.ready) && serial.timeout == old(serial.timeout)
    {
      Probe();
      AwaitReply();
    }

    /** The first phase of `connect`: a connection request every `TimeoutMs` until input is
        readable. */
    method Probe()
      requires serial.rx != []
      modifies serial
      ensures var n := ProbeCount(old(serial.now), serial.ready);
              && serial.now == old(serial.now) + n * TimeoutMs
              && serial.tx == old(serial.tx) + Repeat(ConnectRequest, n)
      ensures serial.ready <= serial.now
      ensures serial.rx == old(serial.rx) && serial.ready == old(serial.ready) && serial.timeout == old(serial.timeout)
    {
      ghost var start, tx0 := serial.now, serial.tx;
      ghost var probes := 1;
      serial.Write(ConnectRequest);
      serial.Wait(TimeoutMs);
      while !serial.Available()
        invariant 1 <= probes <= ProbeCount(start, serial.ready)
        invariant serial.now == start + probes * TimeoutMs
        invariant serial.tx == tx0 + Repeat(ConnectRequest, probes)
        invariant serial.rx == old(serial.rx) && serial.ready == old(serial.ready) && serial.timeout == old(serial.timeout)
        decreases serial.ready - serial.now
      {
        serial.Write(ConnectRequest);
        serial.Wait(TimeoutMs);
        probes := probes + 1;
        assert Repeat(ConnectRequest, probes) == Repeat(ConnectRequest, probes - 1) + [ConnectRequest];
      }
    }

    /** The second phase of `connect`: reads until the peer's acknowledgement, acknowledging the
        first connection request it reads before that, and only that one. */
    method AwaitReply()
      requires serial.ready <= serial.now && ConnectReply in serial.rx
      modifies serial
      ensures serial.tx == old(serial.tx) + AckFor(old(serial.rx)[..IndexOf(old(serial.rx), ConnectReply)])
      ensures serial.rx == old(serial.rx)[IndexOf(old(serial.rx), ConnectReply) + 1..]
      ensures serial.now == old(serial.now) && serial.ready == old(serial.ready) && serial.timeout == old(serial.timeout)
    {
      ghost var rx0 := serial.rx;
      // `rcv` is read before it is first compared: input is readable when the loop starts
      var rcv: byte := 0;
      var cpConnectSent := false;
      ghost var k: nat := 0;
      while true
        invariant k <= |rx0| && serial.rx == rx0[k..]
        invariant ConnectReply !in rx0[..k] && ConnectReply in serial.rx
        invariant rcv != ConnectReply
        invariant serial.ready <= serial.now
        invariant cpConnectSent <==> ConnectRequest in rx0[..k]
        invariant serial.tx == old(serial.tx) + AckFor(rx0[..k])
        invariant serial.now == old(serial.now)
        invariant serial.ready == old(serial.ready) && serial.timeout == old(serial.timeout)
        decreases |serial.rx|
      {
        if serial.Available() {
          rcv := serial.Read();
          if rcv == ConnectRequest && !cpConnectSent {
            serial.Write(ConnectReply);
            cpConnectSent := true;
          }
          assert rx0[..k + 1] == rx0[..k] + [rcv];
          k := k + 1;
        }
        if rcv == ConnectReply {
          IndexOfUnique(rx0, ConnectReply, k - 1);
          break;
        }
      }
    }
  }

  /** Registration hands out ids in order: into a table of capacity two, the first two variables
      get ids 0 and 1, and a third is refused with the capacity. */
  method RegistryFillsInOrder(x: seq<byte>, y: seq<byte>, z: seq<byte>) returns (a: byte, b: byte, c: byte)
    ensures a == 0 && b == 1 && c == 2
  {
    var link := new Stream([], 0, 0);
    var comm := new SerialComm(link, 2);
    a := comm.RegisterVar(x);
    b := comm.RegisterVar(y);
    c := comm.RegisterVar(z);
  }
}

/** The wire format of the serial link: single-byte commands, request and report frames,
    and the framing that `update` applies to the bytes it drains. */
module Wire {

  /** An unsigned 8-bit value (`uint8_t`), the unit of the transport. */
  newtype byte = b: int | 0 <= b < 256

  /** The value bytes a slot reports: at most 255 of them, since the length travels in one byte. */
  type Payload = s: seq<byte> | |s| < 256

  const ConnectRequest: byte := 0xF0
  const ConnectReply: byte := 0xF1
  const RequestVar: byte := 0xF2
  const ReportVar: byte := 0xF3

  datatype Option<T> = None | Some(value: T)

  /** One unit of traffic as `update` reads it. */
  datatype Frame =
    | Request(id: byte)                                   // [0xF2][id]
    | Report(id: byte, length: byte, payload: seq<byte>)  // [0xF3][id][length][payload]
    | Other(command: byte)                                // any other byte, taken on its own

  /** A frame whose bytes a sender produces in full. */
  predicate WellFormed(f: Frame) {
    match f
    case Request(_) => true
    case Report(_, length, payload) => |payload| == length as int
    case Other(command) => command != RequestVar && command != ReportVar
  }

  /** A report whose payload ended before its declared length: `readBytes` gave up. */
  predicate CutShort(f: Frame) {
    f.Report? && |f.payload| < f.length as int
  }

  predicate AnyCutShort(fs: seq<Frame>) {
    exists i :: 0 <= i < |fs| && CutShort(fs[i])
  }

  function Encode(f: Frame): (s: seq<byte>)
    ensures |s| >= 1
  {
    match f
    case Request(id) => [RequestVar, id]
    case Report(id, length, payload) => [ReportVar, id, length] + payload
    case Other(command) => [command]
  }

  /** The bytes of a run of frames, one after another. */
  function EncodeAll(fs: seq<Frame>): seq<byte> {
    if fs == [] then [] else Encode(fs[0]) + EncodeAll(fs[1..])
  }

  lemma {:induction false} EncodeAllAppend(fs: seq<Frame>, gs: seq<Frame>)
    ensures EncodeAll(fs + gs) == EncodeAll(fs) + EncodeAll(gs)
    decreases |fs|
  {
    if fs == [] {
      assert fs + gs == gs;
    } else {
      assert (fs + gs)[1..] == fs[1..] + gs;
      EncodeAllAppend(fs[1..], gs);
    }
  }

  lemma EncodeAllSnoc(fs: seq<Frame>, i: nat)
    requires i < |fs|
    ensures EncodeAll(fs[..i + 1]) == EncodeAll(fs[..i]) + Encode(fs[i])
  {
    assert fs[..i + 1] == fs[..i] + [fs[i]];
    EncodeAllAppend(fs[..i], [fs[i]]);
    assert EncodeAll([fs[i]]) == Encode(fs[i]) + EncodeAll([]);
  }

  lemma SentPrefix(start: seq<byte>, fs: seq<Frame>, i: nat, before: seq<byte>, after: seq<byte>)
    requires i < |fs| && before == start + EncodeAll(fs[..i]) && after == before + Encode(fs[i])
    ensures after == start + EncodeAll(fs[..i + 1])
  {
    EncodeAllSnoc(fs, i);
    Associate(start, EncodeAll(fs[..i]), Encode(fs[i]));
  }

  lemma Associate(x: seq<byte>, y: seq<byte>, z: seq<byte>)
    ensures (x + y) + z == x + (y + z)
  {
  }

  function Prepend(f: Frame, rest: Option<seq<Frame>>): Option<seq<Frame>> {
    match rest
    case None => None
    case Some(fs) => Some([f] + fs)
  }

  /** The frames `update` cuts a fully arrived input into. A request takes the id byte after it;
      a report takes the id and length bytes and then as many payload bytes as the length says, or
      all that are left when fewer remain; any other byte is a frame of its own. `None` when the input
      ends inside a request or a report header, where the source waits for a byte that never comes. */
  function Decode(s: seq<byte>): Option<seq<Frame>>
    decreases |s|
  {
    if s == [] then Some([])
    else if s[0] == RequestVar then
      if |s| < 2 then None else Prepend(Request(s[1]), Decode(s[2..]))
    else if s[0] == ReportVar then
      if |s| < 3 then None
      else if |s| - 3 < s[2] as int then Some([Report(s[1], s[2], s[3..])])
      else Prepend(Report(s[1], s[2], s[3..3 + s[2] as int]), Decode(s[3 + s[2] as int..]))
    else Prepend(Other(s[0]), Decode(s[1..]))
  }

  /** Decoding loses and invents nothing: the frames `Decode` cuts an input into encode back to
      exactly that input. */
  lemma {:induction false} DecodeSound(s: seq<byte>)
    requires Decode(s).Some?
    ensures EncodeAll(Decode(s).value) == s
    decreases |s|
  {
    if s == [] {
    } else if s[0] == RequestVar {
      DecodeSound(s[2..]);
      assert s[..2] == Encode(Request(s[1]));
      FrameThenRest(s, Request(s[1]), 2, Decode(s[2..]));
    } else if s[0] == ReportVar {
      if |s| - 3 < s[2] as int {
        var f := Report(s[1], s[2], s[3..]);
        assert s == Encode(f) && EncodeAll([f]) == Encode(f) + EncodeAll([]);
      } else {
        var n := 3 + s[2] as int;
        DecodeSound(s[n..]);
        assert s[..n] == Encode(Report(s[1], s[2], s[3..n]));
        FrameThenRest(s, Report(s[1], s[2], s[3..n]), n, Decode(s[n..]));
      }
    } else {
      DecodeSound(s[1..]);
      assert s[..1] == Encode(Other(s[0]));
      FrameThenRest(s, Other(s[0]), 1, Decode(s[1..]));
    }
  }

  lemma FrameThenRest(s: seq<byte>, f: Frame, k: nat, rest: Option<seq<Frame>>)
    requires k <= |s| && s[..k] == Encode(f)
    requires rest.Some? && EncodeAll(rest.value) == s[k..]
    ensures EncodeAll(Prepend(f, rest).value) == s
  {
    PrependEncodes(f, rest, s[k..]);
    assert s == s[..k] + s[k..];
  }

  lemma PrependEncodes(f: Frame, rest: Option<seq<Frame>>, tail: seq<byte>)
    requires rest.Some? ==> EncodeAll(rest.value) == tail
    ensures Prepend(f, rest).Some? ==> EncodeAll(Prepend(f, rest).value) == Encode(f) + tail
  {
    if rest.Some? {
      assert ([f] + rest.value)[1..] == rest.value;
    }
  }

  /** Every frame `Decode` produces is one a sender could have produced in full, except that the
      last one may be a report whose payload was cut short. */
  lemma {:induction false} DecodeShape(s: seq<byte>)
    requires Decode(s).Some?
    ensures forall i | 0 <= i < |Decode(s).value| ::
              WellFormed(Decode(s).value[i]) || (i == |Decode(s).value| - 1 && CutShort(Decode(s).value[i]))
    decreases |s|
  {
    if s == [] {
    } else if s[0] == RequestVar {
      DecodeShape(s[2..]);
    } else if s[0] == ReportVar {
      if |s| - 3 >= s[2] as int {
        DecodeShape(s[3 + s[2] as int..]);
      }
    } else {
      DecodeShape(s[1..]);
    }
  }

  lemma DecodeRequest(s: seq<byte>)
    requires s != [] && s[0] == RequestVar && Decode(s).Some?
    ensures |s| >= 2 && Decode(s[2..]).Some?
    ensures Decode(s).value == [Request(s[1])] + Decode(s[2..]).value
  {
  }

  lemma DecodeReport(s: seq<byte>)
    requires s != [] && s[0] == ReportVar && Decode(s).Some?
    ensures |s| >= 3
    ensures |s| - 3 < s[2] as int ==> Decode(s).value == [Report(s[1], s[2], s[3..])] + Decode([]).value
    ensures |s| - 3 >= s[2] as int ==>
              && Decode(s[3 + s[2] as int..]).Some?
              && Decode(s).value == [Report(s[1], s[2], s[3..][..s[2]])] + Decode(s[3..][s[2]..]).value
  {
    if |s| - 3 >= s[2] as int {
      assert s[3..][..s[2]] == s[3..3 + s[2] as int];
      assert s[3..][s[2]..] == s[3 + s[2] as int..];
    }
  }

  lemma DecodeOther(s: seq<byte>)
    requires s != [] && s[0] != RequestVar && s[0] != ReportVar
    ensures Decode(s) == Prepend(Other(s[0]), Decode(s[1..]))
  {
  }

  /** One more frame taken off the front of the input extends the frames decoded so far. */
  lemma DrainStep(all: seq<byte>, done: seq<Frame>, before: seq<byte>, f: Frame, after: seq<byte>)
    requires Decode(all).Some? && Decode(before).Some? && Decode(after).Some?
    requires Decode(all).value == done + Decode(before).value
    requires Decode(before).value == [f] + Decode(after).value
    ensures Decode(all).value == (done + [f]) + Decode(after).value
  {
  }

  /** Decoding the bytes of well-formed frames gives those frames back: the decoder and the
      encoder are inverse, so every frame consumes exactly its own bytes. */
  lemma {:induction false} DecodeEncode(fs: seq<Frame>)
    requires forall i | 0 <= i < |fs| :: WellFormed(fs[i])
    ensures Decode(EncodeAll(fs)) == Some(fs)
    decreases |fs|
  {
    if fs != [] {
      var rest := EncodeAll(fs[1..]);
      DecodeEncode(fs[1..]);
      var s := EncodeAll(fs);
      assert s == Encode(fs[0]) + rest;
      assert fs == [fs[0]] + fs[1..];
      match fs[0]
      case Request(id) =>
        assert s[2..] == rest;
      case Report(id, length, payload) =>
        assert s[3..3 + length as int] == payload;
        assert s[3 + length as int..] == rest;
      case Other(command) =>
        assert s[1..] == rest;
    }
  }

  /** A report frame is taken whole, whatever follows it: the byte after its payload is read
      as the next command. */
  lemma ReportKeepsAlignment(id: byte, payload: Payload, rest: seq<byte>)
    ensures Decode(Encode(Report(id, |payload| as byte, payload)) + rest)
         == Prepend(Report(id, |payload| as byte, payload), Decode(rest))
  {
    var s := Encode(Report(id, |payload| as byte, payload)) + rest;
    assert s[3..3 + |payload|] == payload;
    assert s[3 + |payload|..] == rest;
  }

  /** A request frame takes exactly its command and id bytes. */
  lemma RequestKeepsAlignment(id: byte, rest: seq<byte>)
    ensures Decode([RequestVar, id] + rest) == Prepend(Request(id), Decode(rest))
  {
    assert ([RequestVar, id] + rest)[2..] == rest;
  }

  /** Any byte other than the two frame commands is consumed alone. */
  lemma OtherKeepsAlignment(command: byte, rest: seq<byte>)
    requires command != RequestVar && command != ReportVar
    ensures Decode([command] + rest) == Prepend(Other(command), Decode(rest))
  {
    assert ([command] + rest)[1..] == rest;
  }

  /** What `send(id)` writes for the slot payloads `slots`: a report of slot `id`, or nothing
      when `id` is not below the table's capacity. */
  function Reply(slots: seq<Payload>, id: byte): (r: seq<byte>)
    ensures (id as int) < |slots| ==>
              |r| == 3 + |slots[id]| && r[..3] == [ReportVar, id, |slots[id]| as byte] && r[3..] == slots[id]
    ensures (id as int) >= |slots| ==> r == []
  {
    if (id as int) < |slots| then Encode(Report(id, |slots[id]| as byte, slots[id])) else []
  }

  /** The reply bytes `update` writes for a run of decoded frames: one `send(id)` per request,
      nothing for reports and other bytes. */
  function Replies(fs: seq<Frame>, slots: seq<Payload>): seq<byte> {
    if fs == [] then []
    else (if fs[0].Request? then Reply(slots, fs[0].id) else []) + Replies(fs[1..], slots)
  }

  lemma {:induction false} RepliesAppend(fs: seq<Frame>, f: Frame, slots: seq<Payload>)
    ensures Replies(fs + [f], slots) == Replies(fs, slots) + (if f.Request? then Reply(slots, f.id) else [])
    decreases |fs|
  {
    if fs == [] {
      assert [f][1..] == [];
    } else {
      var head := if fs[0].Request? then Reply(slots, fs[0].id) else [];
      assert (fs + [f])[1..] == fs[1..] + [f];
      assert Replies(fs + [f], slots) == head + Replies(fs[1..] + [f], slots);
      RepliesAppend(fs[1..], f, slots);
      Associate(head, Replies(fs[1..], slots), if f.Request? then Reply(slots, f.id) else []);
    }
  }

  lemma RepliedPrefix(start: seq<byte>, done: seq<Frame>, f: Frame, slots: seq<Payload>,
                      before: seq<byte>, after: seq<byte>)
    requires before == start + Replies(done, slots)
    requires after == before + (if f.Request? then Reply(slots, f.id) else [])
    ensures after == start + Replies(done + [f], slots)
  {
    RepliesAppend(done, f, slots);
    Associate(start, Replies(done, slots), if f.Request? then Reply(slots, f.id) else []);
  }

  /** The report frames that answer the in-range requests among `fs`, in order. */
  function Answered(fs: seq<Frame>, slots: seq<Payload>): seq<Frame> {
    if fs == [] then []
    else if fs[0].Request? && (fs[0].id as int) < |slots| then
      [Report(fs[0].id, |slots[fs[0].id]| as byte, slots[fs[0].id])] + Answered(fs[1..], slots)
    else Answered(fs[1..], slots)
  }

  /** The reply stream is itself well framed: the peer decodes it into exactly one whole report
      per in-range request, carrying that slot's bytes, and nothing for the other frames. */
  lemma {:induction false} RepliesDecode(fs: seq<Frame>, slots: seq<Payload>)
    ensures Decode(Replies(fs, slots)) == Some(Answered(fs, slots))
  {
    RepliesAreAnswers(fs, slots);
    DecodeEncode(Answered(fs, slots));
  }

  lemma {:induction false} RepliesAreAnswers(fs: seq<Frame>, slots: seq<Payload>)
    ensures Replies(fs, slots) == EncodeAll(Answered(fs, slots))
    ensures forall i | 0 <= i < |Answered(fs, slots)| :: WellFormed(Answered(fs, slots)[i])
    decreases |fs|
  {
    if fs != [] {
      RepliesAreAnswers(fs[1..], slots);
      if fs[0].Request? && (fs[0].id as int) < |slots| {
        var f := Report(fs[0].id, |slots[fs[0].id]| as byte, slots[fs[0].id]);
        assert Answered(fs, slots) == [f] + Answered(fs[1..], slots);
        assert ([f] + Answered(fs[1..], slots))[1..] == Answered(fs[1..], slots);
      }
    }
  }

  /** The frames `send()` writes: one report per slot of the table, in increasing id order. */
  function AllReports(slots: seq<Payload>): (fs: seq<Frame>)
    requires |slots| <= 256
    ensures |fs| == |slots|
    ensures forall i | 0 <= i < |fs| :: fs[i] == Report(i as byte, |slots[i]| as byte, slots[i])
  {
    seq(|slots|, i requires 0 <= i < |slots| => Report(i as byte, |slots[i]| as byte, slots[i]))
  }

  /** The requests `[0xF2][0] … [0xF2][n-1]`. */
  function AllRequests(n: nat): (fs: seq<Frame>)
    requires n <= 256
    ensures |fs| == n && forall i | 0 <= i < n :: fs[i] == Request(i as byte)
  {
    seq(n, i requires 0 <= i < n => Request(i as byte))
  }

  /** `send()` writes the same bytes as `send(0)`, `send(1)`, … `send(n-1)` in turn, and the peer
      decodes them back into those reports. */
  lemma SendAllIsEachSend(slots: seq<Payload>)
    requires |slots| <= 256
    ensures EncodeAll(AllReports(slots)) == Replies(AllRequests(|slots|), slots)
    ensures Decode(EncodeAll(AllReports(slots))) == Some(AllReports(slots))
  {
    AnsweredAll(AllRequests(|slots|), slots, 0);
    assert AllReports(slots)[0..] == AllReports(slots);
    RepliesAreAnswers(AllRequests(|slots|), slots);
    DecodeEncode(AllReports(slots));
  }

  lemma {:induction false} AnsweredAll(reqs: seq<Frame>, slots: seq<Payload>, k: nat)
    requires |slots| <= 256 && k + |reqs| == |slots|
    requires forall i | 0 <= i < |reqs| :: reqs[i] == Request((k + i) as byte)
    ensures Answered(reqs, slots) == AllReports(slots)[k..]
    decreases |reqs|
  {
    if reqs != [] {
      AnsweredAll(reqs[1..], slots, k + 1);
      assert AllReports(slots)[k..] == [AllReports(slots)[k]] + AllReports(slots)[k + 1..];
    }
  }

  /** The position of the first `b` in `s`. */
  function IndexOf(s: seq<byte>, b: byte): (k: nat)
    requires b in s
    ensures k < |s| && s[k] == b && b !in s[..k]
  {
    if s[0] == b then 0
    else
      var k := 1 + IndexOf(s[1..], b);
      assert s[..k] == [s[0]] + s[1..][..k - 1];
      k
  }

  /** The first position of `b` is the only one with no `b` before it. */
  lemma IndexOfUnique(s: seq<byte>, b: byte, k: nat)
    requires k < |s| && s[k] == b && b !in s[..k]
    ensures IndexOf(s, b) == k
  {
    var j := IndexOf(s, b);
    forall i | 0 <= i < k ensures s[i] != b {
      assert s[..k][i] == s[i];
    }
    forall i | 0 <= i < j ensures s[i] != b {
      assert s[..j][i] == s[i];
    }
  }

  /** What `connect` writes while it waits for the peer's acknowledgement, having read `seen`:
      one acknowledgement if a connection request was among those bytes, else nothing. */
  function AckFor(seen: seq<byte>): (r: seq<byte>)
    ensures |r| <= 1
    ensures r == [ConnectReply] <==> ConnectRequest in seen
    ensures r == [] <==> ConnectRequest !in seen
  {
    if ConnectRequest in seen then [ConnectReply] else []
  }

  function Repeat(b: byte, n: nat): (r: seq<byte>)
    ensures |r| == n && forall i | 0 <= i < n :: r[i] == b
  {
    seq(n, _ => b)
  }
}

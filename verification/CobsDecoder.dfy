/**
 * The streaming packet decoder, one byte at a time and over slices, and what it makes of
 * encoded packets.
 */
module CobsDecoder {
  import opened Bytes
  import opened Cobs

  /** Size of the decoder's packet buffer. */
  const CAPACITY := 2048

  /**
   * Between packets; inside a block after which a zero is due (unless the packet ends), with so
   * many bytes of it to come; or inside a full block, after which none is due.
   */
  datatype DecoderState = Idle | Grab(left: nat) | GrabChain(left: nat)

  datatype Decoder = Decoder(state: DecoderState, frame: seq<byte>)

  const RESET := Decoder(Idle, [])

  datatype ByteResult = Continue(next: Decoder) | Complete | Invalid

  function OpenBlock(code: byte): DecoderState
    requires code != 0
  {
    if code == 0xFF then GrabChain(MAX_RUN) else Grab(code - 1)
  }

  function Store(d: Decoder, next: DecoderState, b: byte): ByteResult {
    if |d.frame| >= CAPACITY then Invalid else Continue(Decoder(next, d.frame + [b]))
  }

  /** One byte of input. A delimiter between packets is skipped; inside a block it is an error. */
  function FeedByte(d: Decoder, b: byte): ByteResult {
    match d.state
    case Idle => if b == 0 then Continue(d) else Continue(d.(state := OpenBlock(b)))
    case Grab(n) =>
      if n == 0 then (if b == 0 then Complete else Store(d, OpenBlock(b), 0))
      else if b == 0 then Invalid
      else Store(d, Grab(n - 1), b)
    case GrabChain(n) =>
      if n == 0 then (if b == 0 then Complete else Continue(d.(state := OpenBlock(b))))
      else if b == 0 then Invalid
      else Store(d, GrabChain(n - 1), b)
  }

  datatype PushResult =
    | NeedMore(next: Decoder)
    | Frame(packet: seq<byte>, parsed: nat)
    | Error

  /** Input up to the end of a packet, an error, or the end of the input. */
  function Push(d: Decoder, input: seq<byte>): (r: PushResult)
    ensures r.Frame? ==> 1 <= r.parsed <= |input|
    ensures r.Error? ==> input != []
    decreases |input|
  {
    if input == [] then NeedMore(d)
    else
      match FeedByte(d, input[0])
      case Complete => Frame(d.frame, 1)
      case Invalid => Error
      case Continue(next) => Later(Push(next, input[1..]), 1)
  }

  /** The result seen from `n` bytes earlier. */
  function Later(r: PushResult, n: nat): PushResult {
    match r
    case Frame(packet, parsed) => Frame(packet, parsed + n)
    case _ => r
  }

  lemma {:induction false} PushSplit(d: Decoder, x: seq<byte>, y: seq<byte>)
    ensures match Push(d, x)
      case NeedMore(next) => Push(d, x + y) == Later(Push(next, y), |x|)
      case r => Push(d, x + y) == r
    decreases |x|
  {
    if x == [] {
      assert x + y == y;
    } else {
      assert (x + y)[1..] == x[1..] + y;
      var r := FeedByte(d, x[0]);
      if r.Continue? {
        PushSplit(r.next, x[1..], y);
      }
    }
  }

  // ----- Decoding what was encoded -----

  /** At the start of a block: what of the packet is still owed from the block before. */
  predicate AtBlock(s: DecoderState) {
    s.Idle? || s.left == 0
  }

  function Owed(s: DecoderState): seq<byte>
    requires AtBlock(s)
  {
    if s.Grab? then [0] else []
  }

  /** The bytes of an announced run come through unchanged. */
  lemma {:induction false} PushRun(d: Decoder, run: seq<byte>)
    requires !d.state.Idle? && |run| <= d.state.left && NonZero(run) && |d.frame| + |run| <= CAPACITY
    ensures Push(d, run) == NeedMore(Decoder(
      if d.state.Grab? then Grab(d.state.left - |run|) else GrabChain(d.state.left - |run|), d.frame + run))
    decreases |run|
  {
    if run == [] {
      assert d.frame + run == d.frame;
    } else {
      var next := FeedByte(d, run[0]).next;
      PushRun(next, run[1..]);
      assert next.frame + run[1..] == d.frame + run;
    }
  }

  /** The state after a block of a packet. */
  function AfterBlock(run: seq<byte>): DecoderState {
    if |run| == MAX_RUN then GrabChain(0) else Grab(0)
  }

  lemma PushBlock(d: Decoder, run: seq<byte>)
    requires AtBlock(d.state) && |run| <= MAX_RUN && NonZero(run)
    requires |d.frame| + |Owed(d.state)| + |run| <= CAPACITY
    ensures Push(d, Block(run)) == NeedMore(Decoder(AfterBlock(run), d.frame + Owed(d.state) + run))
  {
    var next := FeedByte(d, |run| + 1).next;
    assert next.frame == d.frame + Owed(d.state);
    PushRun(next, run);
    assert Block(run)[1..] == run;
  }

  /** The first block carries its run and, unless full, the zero behind it. */
  lemma SplitPacket(data: seq<byte>)
    requires LeadingRun(data) < |data|
    ensures var run := data[..LeadingRun(data)];
      data == run + Owed(AfterBlock(run)) + RestOf(data) && |RestOf(data)| < |data|
  {
  }

  lemma SplitEncoded(data: seq<byte>)
    requires LeadingRun(data) < |data|
    ensures Encode(data) == Block(data[..LeadingRun(data)]) + Encode(RestOf(data))
  {
  }

  /** An encoded packet decodes to what was encoded and leaves the decoder ready for a delimiter. */
  lemma {:induction false} PushEncoded(d: Decoder, data: seq<byte>)
    requires AtBlock(d.state) && |d.frame| + |Owed(d.state)| + |data| <= CAPACITY
    ensures DecodedTo(Push(d, Encode(data)), d.frame + Owed(d.state) + data)
    decreases |data|
  {
    var run := data[..LeadingRun(data)];
    PushBlock(d, run);
    if run == data {
      assert Encode(data) == Block(run);
    } else {
      var rest, next := RestOf(data), Decoder(AfterBlock(run), d.frame + Owed(d.state) + run);
      SplitEncoded(data);
      SplitPacket(data);
      PushSplit(d, Block(run), Encode(rest));
      PushEncoded(next, rest);
      Regroup(d.frame + Owed(d.state), run, Owed(next.state), rest);
    }
  }

  /** All input is consumed, the packet so far is `frame`, and a delimiter would complete it. */
  predicate DecodedTo(r: PushResult, frame: seq<byte>) {
    r.NeedMore? && r.next.frame == frame && !r.next.state.Idle? && r.next.state.left == 0
  }

  lemma Regroup(a: seq<byte>, b: seq<byte>, c: seq<byte>, d: seq<byte>)
    ensures a + b + c + d == a + (b + c + d)
  {
  }

  /** Decoding inverts encoding, packet by packet. */
  lemma DecodeEncode(data: seq<byte>, after: seq<byte>)
    requires |data| <= CAPACITY
    ensures Push(RESET, Encode(data) + [0] + after) == Frame(data, |Encode(data)| + 1)
  {
    PushEncoded(RESET, data);
    var next := Push(RESET, Encode(data)).next;
    assert [] + [] + data == data;
    PushSplit(RESET, Encode(data), [0] + after);
    assert Encode(data) + [0] + after == Encode(data) + ([0] + after);
  }

  // ----- What the decoder accepts -----

  /** A stuffed packet: code bytes, each with as many bytes behind it as it announces. */
  predicate Stuffed(e: seq<byte>)
    decreases |e|
  {
    e != [] && e[0] != 0 && |e| >= e[0] && (|e| > e[0] ==> Stuffed(e[e[0]..]))
  }

  /** The packet in it: runs, with a zero after each but the last and those of 254 bytes. */
  function Unstuff(e: seq<byte>): seq<byte>
    requires Stuffed(e)
    decreases |e|
  {
    var run := e[1..e[0]];
    if |e| == e[0] then run
    else run + (if e[0] == 255 then [] else [0]) + Unstuff(e[e[0]..])
  }

  /** What a decoder that is at the start of a block makes of stuffed bytes and a delimiter. */
  predicate Accepts(d: Decoder, e: seq<byte>)
    requires AtBlock(d.state)
  {
    Stuffed(e) && |d.frame| + |Owed(d.state)| + |Unstuff(e)| <= 2048
  }

  function Outcome(d: Decoder, e: seq<byte>): PushResult
    requires AtBlock(d.state)
  {
    if Accepts(d, e) then Frame(d.frame + Owed(d.state) + Unstuff(e), |e| + 1) else Error
  }

  /** A run that does not fit is an error. */
  lemma {:induction false} RunOverflows(d: Decoder, run: seq<byte>, after: seq<byte>)
    requires !d.state.Idle? && |run| <= d.state.left && NonZero(run)
    requires |d.frame| <= CAPACITY < |d.frame| + |run|
    ensures Push(d, run + after) == Error
    decreases |run|
  {
    assert (run + after)[0] == run[0] && (run + after)[1..] == run[1..] + after;
    if |d.frame| < CAPACITY {
      RunOverflows(FeedByte(d, run[0]).next, run[1..], after);
    }
  }

  /** A run that the delimiter cuts short is an error. */
  lemma {:induction false} RunCutShort(d: Decoder, run: seq<byte>)
    requires !d.state.Idle? && |run| < d.state.left && NonZero(run) && |d.frame| <= CAPACITY
    ensures Push(d, run + [0]) == Error
    decreases |run|
  {
    if run == [] {
      assert run + [0] == [0];
    } else {
      assert (run + [0])[0] == run[0] && (run + [0])[1..] == run[1..] + [0];
      if |d.frame| < CAPACITY {
        RunCutShort(FeedByte(d, run[0]).next, run[1..]);
      }
    }
  }

  /** The decoder behind a code byte. */
  function Open(d: Decoder, code: byte): Decoder
    requires AtBlock(d.state) && code != 0
  {
    Decoder(OpenBlock(code), d.frame + Owed(d.state))
  }

  lemma OpensBlock(d: Decoder, e: seq<byte>)
    requires AtBlock(d.state) && e != [] && e[0] != 0 && |d.frame| <= CAPACITY
    ensures Push(d, e + [0]) ==
      if |d.frame| + |Owed(d.state)| > CAPACITY then Error else Later(Push(Open(d, e[0]), e[1..] + [0]), 1)
  {
    assert (e + [0])[0] == e[0] && (e + [0])[1..] == e[1..] + [0];
    assert d.frame + [] == d.frame;
  }

  /**
   * The streaming decoder does on any bytes without a zero, followed by a delimiter, what the
   * definition says: it yields the packet in them if they are stuffed and it fits, and otherwise an
   * error.
   */
  lemma {:induction false} DecodesStuffed(d: Decoder, e: seq<byte>)
    requires AtBlock(d.state) && e != [] && NonZero(e) && |d.frame| <= CAPACITY
    ensures Push(d, e + [0]) == Outcome(d, e)
    decreases |e|
  {
    OpensBlock(d, e);
    var code, open := e[0], Open(d, e[0]);
    if |open.frame| <= CAPACITY {
      if |e| < code {
        RunCutShort(open, e[1..]);
      } else {
        DecodesBlock(d, e);
      }
    }
  }

  /** The decoder behind a complete first block. */
  function BehindBlock(d: Decoder, e: seq<byte>): (next: Decoder)
    requires AtBlock(d.state) && e != [] && 0 < e[0] <= |e|
    ensures AtBlock(next.state)
  {
    var run := e[1..e[0]];
    Decoder(AfterBlock(run), d.frame + Owed(d.state) + run)
  }

  /** What follows the first block decides, if there is anything. */
  lemma OutcomeBehind(d: Decoder, e: seq<byte>)
    requires AtBlock(d.state) && e != [] && 0 < e[0] <= |e|
    requires |d.frame| + |Owed(d.state)| + e[0] - 1 <= CAPACITY
    ensures Outcome(d, e) == if |e| == e[0] then Frame(BehindBlock(d, e).frame, |e| + 1)
      else Later(Outcome(BehindBlock(d, e), e[e[0]..]), e[0])
  {
    var rest, next := e[e[0]..], BehindBlock(d, e);
    if rest != [] && Stuffed(rest) {
      Regroup(d.frame + Owed(d.state), e[1..e[0]], Owed(next.state), Unstuff(rest));
    }
  }

  lemma PushesBlock(d: Decoder, e: seq<byte>)
    requires AtBlock(d.state) && e != [] && NonZero(e) && e[0] <= |e|
    requires |d.frame| + |Owed(d.state)| + e[0] - 1 <= CAPACITY
    ensures Push(Open(d, e[0]), e[1..] + [0]) == Later(Push(BehindBlock(d, e), e[e[0]..] + [0]), e[0] - 1)
  {
    var run, rest, open := e[1..e[0]], e[e[0]..], Open(d, e[0]);
    assert e[1..] + [0] == run + (rest + [0]);
    PushRun(open, run);
    PushSplit(open, run, rest + [0]);
  }

  /** The same where the first block is complete. */
  lemma {:induction false} DecodesBlock(d: Decoder, e: seq<byte>)
    requires AtBlock(d.state) && e != [] && NonZero(e) && |e| >= e[0]
    requires |d.frame| + |Owed(d.state)| <= CAPACITY
    requires Push(d, e + [0]) == Later(Push(Open(d, e[0]), e[1..] + [0]), 1)
    ensures Push(d, e + [0]) == Outcome(d, e)
    decreases |e|, 0
  {
    var run, rest := e[1..e[0]], e[e[0]..];
    if |d.frame| + |Owed(d.state)| + |run| > CAPACITY {
      assert e[1..] + [0] == run + (rest + [0]);
      RunOverflows(Open(d, e[0]), run, rest + [0]);
    } else {
      PushesBlock(d, e);
      OutcomeBehind(d, e);
      if rest == [] {
        assert rest + [0] == [0];
      } else {
        DecodesStuffed(BehindBlock(d, e), rest);
      }
    }
  }

  /** Encoding produces stuffed bytes that contain the packet. */
  lemma {:induction false} EncodedIsStuffed(data: seq<byte>)
    ensures Stuffed(Encode(data)) && Unstuff(Encode(data)) == data
    decreases |data|
  {
    var n := LeadingRun(data);
    var run, e := data[..n], Encode(data);
    if n == |data| {
      assert e == [n + 1] + run && e[1..n + 1] == run && run == data;
    } else {
      SplitEncoded(data);
      SplitPacket(data);
      EncodedIsStuffed(RestOf(data));
      assert e[0] == n + 1 && e[1..n + 1] == run && e[n + 1..] == Encode(RestOf(data));
    }
  }
}

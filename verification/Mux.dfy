/**
 * Framing of serial output: every write goes out as delimited packets of bounded size, each
 * starting with the id of its channel.
 */
module Mux {
  import opened Bytes
  import opened Cobs
  import opened CobsEncoder

  const OUT_BUF_SIZE := 2048
  const DELIMITER: byte := 0

  datatype ChannelId = User | Debug {
    /** 'u' or 'd'. */
    function Id(): byte {
      if User? then 0x75 else 0x64
    }
  }

  /** A payload fits in the output buffer with room for the delimiter. */
  predicate Fits(payload: seq<byte>) {
    |Encode(payload)| <= OUT_BUF_SIZE - 1
  }

  /** From `k` on as far as the condition holds, and no further than `size`. */
  function GreedyFrom(fits: nat -> bool, size: nat, k: nat): (n: nat)
    requires k <= size && fits(k)
    ensures k <= n <= size && fits(n)
    ensures n < size ==> !fits(n + 1)
    decreases size - k
  {
    if k == size || !fits(k + 1) then k else GreedyFrom(fits, size, k + 1)
  }

  lemma ShortFits(channel: ChannelId, bs: seq<byte>)
    requires |bs| <= 1
    ensures Fits([channel.Id()] + bs)
  {
    Overhead([channel.Id()] + bs);
  }

  /** The greedy packet size; a packet takes at least one byte. */
  function Chunk(channel: ChannelId, buf: seq<byte>): (n: nat)
    requires buf != []
    ensures 1 <= n <= |buf| && Fits([channel.Id()] + buf[..n])
    ensures n < |buf| ==> !Fits([channel.Id()] + buf[..n + 1])
  {
    ShortFits(channel, buf[..1]);
    var fits := (n: nat) => n <= |buf| && Fits([channel.Id()] + buf[..n]);
    GreedyFrom(fits, |buf|, 1)
  }

  /** What one write puts into its packets, in order. */
  function Payloads(channel: ChannelId, buf: seq<byte>): (ps: seq<seq<byte>>)
    ensures forall k :: 0 <= k < |ps| ==> ps[k] != []
  {
    if buf == [] then []
    else
      var n := Chunk(channel, buf);
      [[channel.Id()] + buf[..n]] + Payloads(channel, buf[n..])
  }

  function Packet(payload: seq<byte>): seq<byte> {
    Encode(payload) + [DELIMITER]
  }

  function PacketStream(payloads: seq<seq<byte>>): seq<byte> {
    if payloads == [] then [] else Packet(payloads[0]) + PacketStream(payloads[1..])
  }

  /** Everything one write sends. */
  function Framed(channel: ChannelId, buf: seq<byte>): seq<byte> {
    PacketStream(Payloads(channel, buf))
  }

  /** The bytes after the channel id of each payload, joined. */
  function Bodies(payloads: seq<seq<byte>>): seq<byte>
    requires forall k :: 0 <= k < |payloads| ==> payloads[k] != []
  {
    if payloads == [] then [] else payloads[0][1..] + Bodies(payloads[1..])
  }

  /** A short packet of the channel with at least one byte, whose only zero is its last byte. */
  predicate WellFramed(channel: ChannelId, p: seq<byte>) {
    var packet := Packet(p);
    && |p| >= 2 && p[0] == channel.Id()
    && |packet| <= 2048 && packet[|packet| - 1] == 0 && NonZero(packet[..|packet| - 1])
  }

  lemma PacketWellFramed(channel: ChannelId, body: seq<byte>)
    requires body != [] && Fits([channel.Id()] + body)
    ensures WellFramed(channel, [channel.Id()] + body)
  {
    var payload := [channel.Id()] + body;
    EncodedNonZero(payload);
    assert Packet(payload)[..|Packet(payload)| - 1] == Encode(payload);
  }

  /** Every packet of a write is short, carries at least one byte, and ends in its only zero. */
  lemma {:induction false} PacketsWellFramed(channel: ChannelId, buf: seq<byte>)
    ensures forall k :: 0 <= k < |Payloads(channel, buf)| ==> WellFramed(channel, Payloads(channel, buf)[k])
    decreases |buf|
  {
    if buf != [] {
      var n := Chunk(channel, buf);
      PacketWellFramed(channel, buf[..n]);
      PacketsWellFramed(channel, buf[n..]);
    }
  }

  lemma PayloadsFirst(channel: ChannelId, buf: seq<byte>)
    requires buf != []
    ensures var n := Chunk(channel, buf);
      Payloads(channel, buf) == [[channel.Id()] + buf[..n]] + Payloads(channel, buf[n..])
  {
  }

  lemma BodiesStep(id: byte, buf: seq<byte>, n: nat, payloads: seq<seq<byte>>)
    requires n <= |buf| && (forall k :: 0 <= k < |payloads| ==> payloads[k] != []) && Bodies(payloads) == buf[n..]
    ensures var all := [[id] + buf[..n]] + payloads;
      (forall k :: 0 <= k < |all| ==> all[k] != []) && Bodies(all) == buf
  {
    var first := [id] + buf[..n];
    assert ([first] + payloads)[1..] == payloads;
    assert first[1..] == buf[..n];
    assert buf[..n] + buf[n..] == buf;
  }

  /** Nothing of a write is lost, repeated or reordered. */
  lemma {:induction false} BodiesOfPayloads(channel: ChannelId, buf: seq<byte>)
    ensures Bodies(Payloads(channel, buf)) == buf
    decreases |buf|
  {
    if buf != [] {
      var n := Chunk(channel, buf);
      BodiesOfPayloads(channel, buf[n..]);
      PayloadsFirst(channel, buf);
      BodiesStep(channel.Id(), buf, n, Payloads(channel, buf[n..]));
    }
  }

  /**
   * No packet but the last of a write can take the next byte as well; each of these carries
   * enough of the buffer that framing never costs more than eleven bytes in 2048.
   */
  lemma {:induction false} FullPackets(channel: ChannelId, buf: seq<byte>, k: nat)
    requires k + 1 < |Payloads(channel, buf)|
    ensures |Payloads(channel, buf)[k]| - 1 >= 2037
    decreases |buf|
  {
    var n := Chunk(channel, buf);
    PayloadsFirst(channel, buf);
    if k == 0 {
      assert n < |buf|;
      FullChunk(channel, buf);
    } else {
      FullPackets(channel, buf[n..], k - 1);
      assert Payloads(channel, buf)[k] == Payloads(channel, buf[n..])[k - 1];
    }
  }

  lemma FullChunk(channel: ChannelId, buf: seq<byte>)
    requires buf != [] && Chunk(channel, buf) < |buf|
    ensures Chunk(channel, buf) >= 2037
  {
    var n := Chunk(channel, buf);
    Overhead([channel.Id()] + buf[..n + 1]);
  }

  /** The serial line towards the host. */
  class SerialOutput {
    var wire: seq<byte>

    constructor ()
      ensures wire == []
    {
      wire := [];
    }

    /** Blocks until everything is written. */
    method WriteBytes(bytes: seq<byte>)
      modifies this
      ensures wire == old(wire) + bytes
    {
      wire := wire + bytes;
    }
  }

  lemma ChunkIs(channel: ChannelId, buf: seq<byte>, n: nat)
    requires 1 <= n <= |buf| && Fits([channel.Id()] + buf[..n])
    requires n < |buf| ==> !Fits([channel.Id()] + buf[..n + 1])
    ensures Chunk(channel, buf) == n
  {
    var c := Chunk(channel, buf);
    if c < n {
      FitsDownward(channel, buf, c + 1, n);
    } else if n < c {
      FitsDownward(channel, buf, n + 1, c);
    }
  }

  lemma {:induction false} FitsDownward(channel: ChannelId, buf: seq<byte>, m: nat, n: nat)
    requires m <= n <= |buf| && Fits([channel.Id()] + buf[..n])
    ensures Fits([channel.Id()] + buf[..m])
    decreases n - m
  {
    if m < n {
      assert [channel.Id()] + buf[..n] == ([channel.Id()] + buf[..n - 1]) + [buf[n - 1]];
      EncodeSnoc([channel.Id()] + buf[..n - 1], buf[n - 1]);
      FitsDownward(channel, buf, m, n - 1);
    }
  }

  lemma PrefixSnoc(channel: ChannelId, buf: seq<byte>, k: nat)
    requires k < |buf|
    ensures [channel.Id()] + buf[..k] + [buf[k]] == [channel.Id()] + buf[..k + 1]
  {
  }

  /** Pushes bytes of `buf` until one does not fit. */
  method PushBody(channel: ChannelId, buf: seq<byte>, encoder: CobsEncoder) returns (taken: nat)
    requires encoder.Valid() && encoder.limit == OUT_BUF_SIZE - 1 && encoder.pushed == [channel.Id()]
    requires buf != []
    modifies encoder`codeIdx, encoder`destIdx, encoder`justFull, encoder`pushed, encoder.dest
    ensures taken == Chunk(channel, buf)
    ensures encoder.Valid() && encoder.pushed == [channel.Id()] + buf[..taken]
  {
    ShortFits(channel, buf[..0]);
    ShortFits(channel, buf[..1]);
    taken := 0;
    while taken < |buf|
      invariant encoder.Valid() && taken <= |buf|
      invariant encoder.pushed == [channel.Id()] + buf[..taken]
      invariant Fits([channel.Id()] + buf[..taken])
    {
      PrefixSnoc(channel, buf, taken);
      var ok := encoder.Push(buf[taken]);
      if !ok {
        break;
      }
      taken := taken + 1;
    }
    ChunkIs(channel, buf, taken);
  }

  /** Puts one packet into a zeroed output buffer; returns its length and what it has taken. */
  method FillPacket(channel: ChannelId, buf: seq<byte>, outBuf: array<byte>) returns (length: nat, taken: nat)
    requires buf != [] && outBuf.Length == OUT_BUF_SIZE
    modifies outBuf
    ensures taken == Chunk(channel, buf)
    ensures length < OUT_BUF_SIZE && outBuf[..length] == Encode([channel.Id()] + buf[..taken])
  {
    var encoder := new CobsEncoder(outBuf, outBuf.Length - 1);
    ShortFits(channel, []);
    assert [] + [channel.Id()] == [channel.Id()] + [];
    var started := encoder.Push(channel.Id());
    assert started;
    taken := PushBody(channel, buf, encoder);
    length := encoder.Finalize();
  }

  /** Sends one packet with as many bytes of `buf` as fit. */
  method SendPacket(channel: ChannelId, buf: seq<byte>, output: SerialOutput) returns (taken: nat)
    requires buf != []
    modifies output
    ensures taken == Chunk(channel, buf)
    ensures output.wire == old(output.wire) + Packet([channel.Id()] + buf[..taken])
  {
    var outBuf := new byte[OUT_BUF_SIZE](_ => 0);
    var length;
    length, taken := FillPacket(channel, buf, outBuf);
    outBuf[length] := DELIMITER;
    assert outBuf[..length + 1] == Packet([channel.Id()] + buf[..taken]);
    output.WriteBytes(outBuf[..length + 1]);
  }

  /** Frames a whole buffer for one channel and sends it. */
  method WriteAll(channel: ChannelId, data: seq<byte>, output: SerialOutput)
    modifies output
    ensures output.wire == old(output.wire) + Framed(channel, data)
  {
    var buf := data;
    while buf != []
      invariant output.wire + Framed(channel, buf) == old(output.wire) + Framed(channel, data)
      decreases |buf|
    {
      FramedStep(channel, buf, output.wire);
      var taken := SendPacket(channel, buf, output);
      buf := buf[taken..];
    }
  }

  /** The next packet comes first. */
  lemma FramedFirst(channel: ChannelId, buf: seq<byte>)
    requires buf != []
    ensures var n := Chunk(channel, buf);
      Framed(channel, buf) == Packet([channel.Id()] + buf[..n]) + Framed(channel, buf[n..])
  {
    var n := Chunk(channel, buf);
    var first, rest := [channel.Id()] + buf[..n], Payloads(channel, buf[n..]);
    PayloadsFirst(channel, buf);
    assert ([first] + rest)[1..] == rest;
  }

  /** It does so whatever was sent before. */
  lemma FramedStep(channel: ChannelId, buf: seq<byte>, sent: seq<byte>)
    requires buf != []
    ensures var n := Chunk(channel, buf);
      sent + Framed(channel, buf) == sent + Packet([channel.Id()] + buf[..n]) + Framed(channel, buf[n..])
  {
    FramedFirst(channel, buf);
    Concatenate(sent, Packet([channel.Id()] + buf[..Chunk(channel, buf)]), Framed(channel, buf[Chunk(channel, buf)..]));
  }

  lemma Concatenate(a: seq<byte>, b: seq<byte>, c: seq<byte>)
    ensures a + (b + c) == a + b + c
  {
  }
}

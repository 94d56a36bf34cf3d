/**
 * The host's side of the serial line: packets taken from reads of any size and handed to two
 * sinks, with resynchronisation on input that is not a packet.
 */
module Demux {
  import opened Wrappers
  import opened Bytes
  import opened Cobs
  import opened CobsDecoder
  import opened Mux

  datatype Host = Host(decoder: Decoder, debugOut: seq<byte>, userOut: seq<byte>)

  /** The channel bytes that the host knows: 'u' and 'd'. */
  const USER_CHANNEL: byte := 0x75
  const DEBUG_CHANNEL: byte := 0x64

  predicate ValidPacket(packet: seq<byte>) {
    packet != [] && (packet[0] == USER_CHANNEL || packet[0] == DEBUG_CHANNEL)
  }

  /** Hands a packet's body to the sink of its channel; other packets are left to the caller. */
  function HandlePacket(h: Host, packet: seq<byte>): (Host, bool) {
    if !ValidPacket(packet) then (h, false)
    else if packet[0] == USER_CHANNEL then (h.(userOut := h.userOut + packet[1..]), true)
    else (h.(debugOut := h.debugOut + packet[1..]), true)
  }

  /** The host behind a frame; one that is no valid packet is shown to the user as raw text. */
  function AfterFrame(h: Host, packet: seq<byte>, raw: seq<byte>): Host {
    var (handled, valid) := HandlePacket(h, packet);
    (if valid then handled else h.(userOut := h.userOut + raw)).(decoder := RESET)
  }

  /** The host behind a byte that was given up. */
  function AfterError(h: Host, b: byte): Host {
    h.(decoder := RESET, userOut := h.userOut + [b])
  }

  /**
   * One read from the device. What is not a packet goes to the user as raw text; after an error
   * one byte is given up and decoding starts over at the next.
   */
  function Serve(h: Host, incoming: seq<byte>): Host
    decreases |incoming|
  {
    if incoming == [] then h
    else
      match Push(h.decoder, incoming)
      case NeedMore(next) => h.(decoder := next)
      case Frame(packet, parsed) =>
        Serve(AfterFrame(h, packet, incoming[..parsed]), incoming[parsed..])
      case Error =>
        Serve(AfterError(h, incoming[0]), incoming[1..])
  }

  function ServeAll(h: Host, pieces: seq<seq<byte>>): Host
    decreases |pieces|
  {
    if pieces == [] then h else ServeAll(Serve(h, pieces[0]), pieces[1..])
  }

  function Concat(parts: seq<seq<byte>>): seq<byte> {
    if parts == [] then [] else parts[0] + Concat(parts[1..])
  }

  // ----- The undisturbed path -----

  /** The host after input that never takes the invalid-packet or resynchronisation path. */
  function Deliver(h: Host, incoming: seq<byte>): Option<Host>
    decreases |incoming|
  {
    match Push(h.decoder, incoming)
    case NeedMore(next) => Some(h.(decoder := next))
    case Frame(packet, parsed) =>
      if ValidPacket(packet) then Deliver(HandlePacket(h, packet).0.(decoder := RESET), incoming[parsed..]) else None
    case Error => None
  }

  lemma {:induction false} ServeIsDeliver(h: Host, incoming: seq<byte>)
    requires Deliver(h, incoming).Some?
    ensures Serve(h, incoming) == Deliver(h, incoming).value
    decreases |incoming|
  {
    if incoming != [] {
      var r := Push(h.decoder, incoming);
      if r.Frame? {
        ServeIsDeliver(HandlePacket(h, r.packet).0.(decoder := RESET), incoming[r.parsed..]);
      }
    }
  }

  /** Where the input is cut makes no difference to an undisturbed host. */
  lemma {:induction false} DeliverSplit(h: Host, x: seq<byte>, y: seq<byte>)
    ensures Deliver(h, x + y) == if Deliver(h, x).Some? then Deliver(Deliver(h, x).value, y) else None
    decreases |x|
  {
    PushSplit(h.decoder, x, y);
    match Push(h.decoder, x)
    case NeedMore(next) =>
      var r := Push(next, y);
      if r.Frame? {
        assert (x + y)[|x| + r.parsed..] == y[r.parsed..];
      }
    case Frame(packet, parsed) =>
      assert (x + y)[parsed..] == x[parsed..] + y;
      if ValidPacket(packet) {
        DeliverSplit(HandlePacket(h, packet).0.(decoder := RESET), x[parsed..], y);
      }
    case Error =>
  }

  lemma {:induction false} ServeAllIsDeliver(h: Host, pieces: seq<seq<byte>>)
    requires Deliver(h, Concat(pieces)).Some?
    ensures ServeAll(h, pieces) == Deliver(h, Concat(pieces)).value
    decreases |pieces|
  {
    if pieces != [] {
      DeliverSplit(h, pieces[0], Concat(pieces[1..]));
      ServeIsDeliver(h, pieces[0]);
      ServeAllIsDeliver(Serve(h, pieces[0]), pieces[1..]);
    }
  }

  // ----- What the device sends -----

  type Writes = seq<(ChannelId, seq<byte>)>

  function Wire(writes: Writes): seq<byte> {
    if writes == [] then [] else Framed(writes[0].0, writes[0].1) + Wire(writes[1..])
  }

  /** Everything written to one channel, in order. */
  function Sink(writes: Writes, channel: ChannelId): seq<byte> {
    if writes == [] then []
    else (if writes[0].0 == channel then writes[0].1 else []) + Sink(writes[1..], channel)
  }

  function Received(h: Host, channel: ChannelId, bytes: seq<byte>): Host {
    if channel.User? then h.(userOut := h.userOut + bytes) else h.(debugOut := h.debugOut + bytes)
  }

  lemma ReceivedTwice(h: Host, channel: ChannelId, buf: seq<byte>, n: nat)
    requires n <= |buf|
    ensures Received(Received(h, channel, buf[..n]), channel, buf[n..]) == Received(h, channel, buf)
    ensures Received(h, channel, buf[..n]).decoder == h.decoder
  {
    assert h.userOut + buf[..n] + buf[n..] == h.userOut + buf;
    assert h.debugOut + buf[..n] + buf[n..] == h.debugOut + buf;
  }

  lemma DeliverNothing(h: Host, channel: ChannelId, rest: seq<byte>)
    ensures Deliver(h, Framed(channel, []) + rest) == Deliver(Received(h, channel, []), rest)
  {
    assert Framed(channel, []) + rest == rest;
    assert Received(h, channel, []) == h;
  }

  lemma DeliverPacket(h: Host, channel: ChannelId, body: seq<byte>, rest: seq<byte>)
    requires h.decoder == RESET && body != [] && Fits([channel.Id()] + body)
    ensures Deliver(h, Packet([channel.Id()] + body) + rest) == Deliver(Received(h, channel, body), rest)
  {
    var payload := [channel.Id()] + body;
    Overhead(payload);
    DecodeEncode(payload, rest);
    assert payload[1..] == body;
    assert Packet(payload) + rest == Encode(payload) + [0] + rest;
    assert (Packet(payload) + rest)[|Encode(payload)| + 1..] == rest;
  }

  lemma DeliverFirst(h: Host, channel: ChannelId, buf: seq<byte>, rest: seq<byte>)
    requires h.decoder == RESET && buf != []
    ensures var n := Chunk(channel, buf);
      Deliver(h, Framed(channel, buf) + rest)
        == Deliver(Received(h, channel, buf[..n]), Framed(channel, buf[n..]) + rest)
  {
    var n := Chunk(channel, buf);
    var packet, tail := Packet([channel.Id()] + buf[..n]), Framed(channel, buf[n..]);
    FramedFirst(channel, buf);
    Concatenate(packet, tail, rest);
    DeliverPacket(h, channel, buf[..n], tail + rest);
  }

  lemma {:induction false} DeliverFramed(h: Host, channel: ChannelId, buf: seq<byte>, rest: seq<byte>)
    requires h.decoder == RESET
    ensures Deliver(h, Framed(channel, buf) + rest) == Deliver(Received(h, channel, buf), rest)
    decreases |buf|
  {
    if buf == [] {
      DeliverNothing(h, channel, rest);
    } else {
      var n := Chunk(channel, buf);
      DeliverFirst(h, channel, buf, rest);
      DeliverFramed(Received(h, channel, buf[..n]), channel, buf[n..], rest);
      ReceivedTwice(h, channel, buf, n);
    }
  }

  /** Both sinks extended by what was written to their channels. */
  function AllReceived(h: Host, writes: Writes): Host {
    h.(debugOut := h.debugOut + Sink(writes, Debug), userOut := h.userOut + Sink(writes, User))
  }

  lemma AllReceivedFirst(h: Host, writes: Writes)
    requires writes != []
    ensures AllReceived(Received(h, writes[0].0, writes[0].1), writes[1..]) == AllReceived(h, writes)
  {
    var (channel, buf) := writes[0];
    var rest := writes[1..];
    assert h.userOut + buf + Sink(rest, User) == h.userOut + (buf + Sink(rest, User));
    assert h.debugOut + buf + Sink(rest, Debug) == h.debugOut + (buf + Sink(rest, Debug));
    assert [] + Sink(rest, User) == Sink(rest, User) && [] + Sink(rest, Debug) == Sink(rest, Debug);
  }

  lemma {:induction false} DeliverWire(h: Host, writes: Writes)
    requires h.decoder == RESET
    ensures Deliver(h, Wire(writes)) == Some(AllReceived(h, writes))
    decreases |writes|
  {
    if writes == [] {
      assert AllReceived(h, writes) == h;
    } else {
      var rest := writes[1..];
      DeliverFramed(h, writes[0].0, writes[0].1, Wire(rest));
      DeliverWire(Received(h, writes[0].0, writes[0].1), rest);
      AllReceivedFirst(h, writes);
    }
  }

  /**
   * However the host's reads cut the stream, each sink receives exactly the concatenation of the
   * buffers written to its channel, and nothing else.
   */
  lemma RoundTrip(h: Host, writes: Writes, pieces: seq<seq<byte>>)
    requires h.decoder == RESET && Concat(pieces) == Wire(writes)
    ensures ServeAll(h, pieces) == AllReceived(h, writes)
  {
    DeliverWire(h, writes);
    ServeAllIsDeliver(h, pieces);
  }

  /** The same at any moment, with part of the stream still to come: nothing took a wrong path. */
  lemma NeverDisturbed(h: Host, writes: Writes, pieces: seq<seq<byte>>, rest: seq<byte>)
    requires h.decoder == RESET && Concat(pieces) + rest == Wire(writes)
    ensures Deliver(h, Concat(pieces)) == Some(ServeAll(h, pieces))
    ensures Deliver(ServeAll(h, pieces), rest) == Some(AllReceived(h, writes))
  {
    DeliverWire(h, writes);
    DeliverSplit(h, Concat(pieces), rest);
    ServeAllIsDeliver(h, pieces);
  }

  // ----- Resynchronisation -----

  /** Between packets the packet buffer is empty. */
  predicate Tidy(d: Decoder) {
    d.state.Idle? ==> d.frame == []
  }

  lemma {:induction false} PushTidy(d: Decoder, input: seq<byte>)
    requires Tidy(d)
    ensures Push(d, input).NeedMore? ==> Tidy(Push(d, input).next)
    ensures Push(d, input).NeedMore? && input != [] && input[|input| - 1] == 0 ==> Push(d, input).next == RESET
    decreases |input|
  {
    if input != [] {
      var r := FeedByte(d, input[0]);
      if r.Continue? {
        PushTidy(r.next, input[1..]);
        assert |input| > 1 ==> input[1..][|input| - 2] == input[|input| - 1];
      }
    }
  }

  lemma {:induction false} ServeTidy(h: Host, incoming: seq<byte>)
    requires Tidy(h.decoder)
    ensures Tidy(Serve(h, incoming).decoder)
    decreases |incoming|
  {
    if incoming != [] {
      PushTidy(h.decoder, incoming);
      match Push(h.decoder, incoming)
      case NeedMore(next) =>
      case Frame(packet, parsed) =>
        ServeTidy(AfterFrame(h, packet, incoming[..parsed]), incoming[parsed..]);
      case Error =>
        ServeTidy(AfterError(h, incoming[0]), incoming[1..]);
    }
  }

  /** A read that ends in a delimiter leaves the host between packets, whatever came before. */
  lemma {:induction false} DelimiterResets(h: Host, x: seq<byte>)
    requires Tidy(h.decoder) && x != [] && x[|x| - 1] == 0
    ensures Serve(h, x).decoder == RESET
    decreases |x|
  {
    PushTidy(h.decoder, x);
    match Push(h.decoder, x)
    case NeedMore(next) =>
    case Frame(packet, parsed) =>
      if parsed < |x| {
        DelimiterResets(AfterFrame(h, packet, x[..parsed]), x[parsed..]);
      }
    case Error =>
      if 1 < |x| {
        DelimiterResets(AfterError(h, x[0]), x[1..]);
      }
  }

  lemma CutConcat(x: seq<byte>, y: seq<byte>, n: nat)
    requires n <= |x|
    ensures (x + y)[n..] == x[n..] + y && (x + y)[..n] == x[..n]
  {
  }

  lemma ServeFrame(h: Host, x: seq<byte>, packet: seq<byte>, parsed: nat)
    requires Push(h.decoder, x) == Frame(packet, parsed)
    ensures parsed <= |x| && Serve(h, x) == Serve(AfterFrame(h, packet, x[..parsed]), x[parsed..])
  {
  }

  lemma ServeError(h: Host, x: seq<byte>)
    requires Push(h.decoder, x) == Error
    ensures x != [] && Serve(h, x) == Serve(AfterError(h, x[0]), x[1..])
  {
  }

  /** What the host makes of the packet under way does not depend on what came of it before. */
  predicate SettledBy(h: Host, y: seq<byte>) {
    match Push(h.decoder, y)
    case NeedMore(_) => true
    case Frame(packet, _) => ValidPacket(packet)
    case Error => false
  }

  /**
   * Whatever the bytes are, a cut makes no difference if the one packet that straddles it stays open
   * or turns out valid.
   */
  lemma {:induction false} HarmlessCut(h: Host, x: seq<byte>, y: seq<byte>)
    requires SettledBy(Serve(h, x), y)
    ensures Serve(h, x + y) == Serve(Serve(h, x), y)
    decreases |x|
  {
    if x == [] {
      assert x + y == y;
    } else {
      PushSplit(h.decoder, x, y);
      match Push(h.decoder, x)
      case NeedMore(next) =>
        StraddledCut(h, x, y, next);
      case Frame(packet, parsed) =>
        CutConcat(x, y, parsed);
        ServeFrame(h, x, packet, parsed);
        ServeFrame(h, x + y, packet, parsed);
        HarmlessCut(AfterFrame(h, packet, x[..parsed]), x[parsed..], y);
      case Error =>
        CutConcat(x, y, 1);
        ServeError(h, x);
        ServeError(h, x + y);
        HarmlessCut(AfterError(h, x[0]), x[1..], y);
    }
  }

  lemma StraddledCut(h: Host, x: seq<byte>, y: seq<byte>, next: Decoder)
    requires x != [] && Push(h.decoder, x) == NeedMore(next) && SettledBy(h.(decoder := next), y)
    ensures Serve(h, x + y) == Serve(Serve(h, x), y)
  {
    var cut := h.(decoder := next);
    assert Serve(h, x) == cut;
    PushSplit(h.decoder, x, y);
    var r := Push(next, y);
    if r.Frame? {
      assert (x + y)[|x| + r.parsed..] == y[r.parsed..];
      ServeFrame(h, x + y, r.packet, |x| + r.parsed);
      ServeFrame(cut, y, r.packet, r.parsed);
    } else {
      assert y == [] ==> r == NeedMore(next);
    }
  }

  /** What is undisturbed from some point of a read on is delivered as if it came separately. */
  lemma DeliverBehind(h: Host, x: seq<byte>, y: seq<byte>)
    requires Deliver(Serve(h, x), y).Some?
    ensures Serve(h, x + y) == Deliver(Serve(h, x), y).value
  {
    HarmlessCut(h, x, y);
    ServeIsDeliver(Serve(h, x), y);
  }

  lemma DeliverPrefix(h: Host, x: seq<byte>, y: seq<byte>)
    requires Deliver(h, x + y).Some?
    ensures Deliver(h, x).Some? && Deliver(Deliver(h, x).value, y) == Deliver(h, x + y)
  {
    DeliverSplit(h, x, y);
  }

  /** Two ways to cut the same bytes. */
  lemma Align(a: seq<byte>, b: seq<byte>, c: seq<byte>, d: seq<byte>)
    requires a + b == c + d && |a| <= |c|
    ensures c == a + c[|a|..] && b == c[|a|..] + d
  {
    assert (a + b)[..|a|] == a && (c + d)[..|a|] == c[..|a|];
    assert (a + b)[|a|..] == b && (c + d)[|a|..] == c[|a|..] + d;
  }

  lemma AlignGarbage(read: seq<byte>, later: seq<byte>, garbage: seq<byte>, wire: seq<byte>)
    requires read + later == garbage + [0] + wire && |read| <= |garbage|
    ensures later == garbage[|read|..] + [0] + wire
  {
    assert garbage + [0] + wire == garbage + ([0] + wire);
    Align(read, later, garbage, [0] + wire);
    assert garbage[|read|..] + ([0] + wire) == garbage[|read|..] + [0] + wire;
  }

  /** The read that brings the delimiter. */
  lemma SyncsInRead(h: Host, x: seq<byte>, y: seq<byte>, writes: Writes, later: seq<seq<byte>>)
    returns (synced: Host)
    requires Tidy(h.decoder) && x != [] && x[|x| - 1] == 0 && Wire(writes) == y + Concat(later)
    ensures synced.decoder == RESET && ServeAll(Serve(h, x + y), later) == AllReceived(synced, writes)
  {
    DelimiterResets(h, x);
    synced := Serve(h, x);
    DeliverWire(synced, writes);
    DeliverPrefix(synced, y, Concat(later));
    DeliverBehind(h, x, y);
    ServeAllIsDeliver(Serve(h, x + y), later);
  }

  /**
   * From any state and after any bytes whatever, one delimiter resynchronises the host: every
   * write framed behind it is delivered completely, however the reads cut the stream.
   */
  lemma {:induction false} Resynchronises(h: Host, garbage: seq<byte>, writes: Writes, pieces: seq<seq<byte>>)
    returns (synced: Host)
    requires Tidy(h.decoder) && Concat(pieces) == garbage + [0] + Wire(writes)
    ensures synced.decoder == RESET && ServeAll(h, pieces) == AllReceived(synced, writes)
    decreases |pieces|
  {
    assert pieces != [];
    var read, later := pieces[0], pieces[1..];
    var x := garbage + [0];
    if |read| <= |garbage| {
      AlignGarbage(read, Concat(later), garbage, Wire(writes));
      ServeTidy(h, read);
      synced := Resynchronises(Serve(h, read), garbage[|read|..], writes, later);
    } else {
      Align(x, Wire(writes), read, Concat(later));
      synced := SyncsInRead(h, x, read[|x|..], writes, later);
      assert x + read[|x|..] == read;
    }
  }

  /** A block as long as it announces, in front of the delimiter, is a packet by itself. */
  lemma AnnouncedRun(run: seq<byte>)
    requires |run| < MAX_RUN && NonZero(run)
    ensures Push(RESET, [|run| + 1] + run + [DELIMITER]) == Frame(run, |run| + 2)
  {
    PushBlock(RESET, run);
    assert RESET.frame + Owed(RESET.state) + run == run;
    var open := Decoder(Grab(0), run);
    PushSplit(RESET, Block(run), [DELIMITER]);
    CompletesPacket(open);
  }

  lemma CompletesPacket(d: Decoder)
    requires d.state == Grab(0)
    ensures Push(d, [DELIMITER]) == Frame(d.frame, 1)
  {
  }

  /**
   * The delimiter is needed: a stray byte right before a packet swallows it whenever the encoding is
   * one byte shorter than that byte announces. The encoding itself is then taken for a packet, and
   * the body goes to no sink as what it was.
   */
  lemma StrayByteSwallowsPacket(h: Host, payload: seq<byte>)
    requires h.decoder == RESET && |Encode(payload)| < MAX_RUN
    ensures var input := [|Encode(payload)| + 1] + Packet(payload);
      Serve(h, input) == AfterFrame(h, Encode(payload), input)
  {
    var e := Encode(payload);
    var input := [|e| + 1] + Packet(payload);
    EncodedNonZero(payload);
    AnnouncedRun(e);
    assert input == [|e| + 1] + e + [DELIMITER];
    ServeFrame(h, input, e, |e| + 2);
    assert input[..|e| + 2] == input && input[|e| + 2..] == [];
  }

  /** Unless the first code byte happens to be a channel id, all of it ends up in the raw text. */
  lemma SwallowedIsRaw(h: Host, payload: seq<byte>)
    requires h.decoder == RESET && |Encode(payload)| < MAX_RUN && !ValidPacket(Encode(payload))
    ensures var input := [|Encode(payload)| + 1] + Packet(payload);
      Serve(h, input) == h.(userOut := h.userOut + input)
  {
    StrayByteSwallowsPacket(h, payload);
  }

  /**
   * An error gives up the first byte of the current read only. What an earlier read contributed
   * to the failed packet is shown nowhere, so for text that is not a packet the cuts do matter.
   */
  lemma CutsMatterAfterErrors(h: Host, b: byte)
    requires h.decoder == RESET && 1 < b < 0xFF
    ensures Serve(h, [b, 0]) == h.(userOut := h.userOut + [b])
    ensures Serve(Serve(h, [b]), [0]) == h.(userOut := h.userOut + [0])
  {
    var open := Decoder(Grab(b - 1), []);
    assert [b, 0][1..] == [0] && [b][1..] == [] && [0][1..] == [];
    assert Push(open, [0]) == Error;
    assert Push(RESET, [b]) == NeedMore(open);
    assert Push(RESET, [0]) == NeedMore(RESET);
    assert Push(RESET, [b, 0]) == Error;
    assert Serve(h.(decoder := RESET, userOut := h.userOut + [b]), [0]) == h.(userOut := h.userOut + [b]);
  }
}

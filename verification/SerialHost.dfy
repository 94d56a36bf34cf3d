/**
 * The host program's read loop and its streaming decoder, in place.
 */
module SerialHost {
  import opened Wrappers
  import opened Bytes
  import opened CobsDecoder
  import opened Demux

  class PacketDecoder {
    const dest: array<byte>
    var length: nat
    var state: DecoderState

    ghost predicate Valid()
      reads this
    {
      dest.Length == CAPACITY && length <= CAPACITY
    }

    ghost function View(): Decoder
      requires Valid()
      reads this, dest
    {
      Decoder(state, dest[..length])
    }

    constructor ()
      ensures Valid() && fresh(dest) && View() == RESET
    {
      dest := new byte[CAPACITY](_ => 0);
      length := 0;
      state := Idle;
    }

    method Reset()
      requires Valid()
      modifies this
      ensures Valid() && View() == RESET
    {
      length := 0;
      state := Idle;
    }

    method StoreByte(next: DecoderState, b: byte) returns (ok: bool)
      requires Valid()
      modifies this, dest
      ensures Valid()
      ensures Store(old(View()), next, b) == if ok then Continue(View()) else Invalid
    {
      if length >= CAPACITY {
        return false;
      }
      dest[length] := b;
      length := length + 1;
      state := next;
      ok := true;
    }

    /** Consumes one byte; `done` says that it completed a packet. */
    method Feed(b: byte) returns (ok: bool, done: bool)
      requires Valid()
      modifies this, dest
      ensures Valid()
      ensures FeedByte(old(View()), b) == if !ok then Invalid else if done then Complete else Continue(View())
      ensures done ==> View() == old(View())
    {
      ok, done := true, false;
      match state {
        case Idle =>
          if b != 0 {
            state := OpenBlock(b);
          }
        case Grab(n) =>
          if n == 0 && b == 0 {
            done := true;
          } else if n == 0 {
            ok := StoreByte(OpenBlock(b), 0);
          } else if b == 0 {
            ok := false;
          } else {
            ok := StoreByte(Grab(n - 1), b);
          }
        case GrabChain(n) =>
          if n == 0 && b == 0 {
            done := true;
          } else if n == 0 {
            state := OpenBlock(b);
          } else if b == 0 {
            ok := false;
          } else {
            ok := StoreByte(GrabChain(n - 1), b);
          }
      }
    }

    /** Consumes input up to the end of a packet, whose size is then the report. */
    method PushSlice(input: seq<byte>) returns (ok: bool, report: Option<nat>)
      requires Valid()
      modifies this, dest
      ensures Valid()
      ensures Push(old(View()), input) ==
        if !ok then Error else if report.Some? then Frame(View().frame, report.value) else NeedMore(View())
    {
      ok, report := true, None;
      for k := 0 to |input|
        invariant Valid()
        invariant Push(old(View()), input) == Later(Push(View(), input[k..]), k)
      {
        assert input[k..][0] == input[k] && input[k..][1..] == input[k + 1..];
        var done;
        ok, done := Feed(input[k]);
        if !ok {
          return;
        }
        if done {
          report := Some(k + 1);
          return;
        }
      }
    }
  }

  class SerialHost {
    const decoder: PacketDecoder
    var debugOut: seq<byte>
    var userOut: seq<byte>

    ghost predicate Valid()
      reads decoder
    {
      decoder.Valid()
    }

    ghost function View(): Host
      requires Valid()
      reads this, decoder, decoder.dest
    {
      Host(decoder.View(), debugOut, userOut)
    }

    constructor ()
      ensures Valid() && View() == Host(RESET, [], [])
    {
      decoder := new PacketDecoder();
      debugOut := [];
      userOut := [];
    }

    /** Sends a packet's body to the sink of its channel; reports whether there is one. */
    method HandlePacketBytes(packet: seq<byte>) returns (valid: bool)
      requires Valid()
      modifies this
      ensures Valid() && (View(), valid) == HandlePacket(old(View()), packet)
    {
      if packet == [] {
        return false;
      }
      var body := packet[1..];
      if packet[0] == USER_CHANNEL {
        userOut := userOut + body;
      } else if packet[0] == DEBUG_CHANNEL {
        debugOut := debugOut + body;
      } else {
        return false;
      }
      valid := true;
    }

    /** Processes one read from the device. */
    method ServeRead(read: seq<byte>)
      requires Valid()
      modifies this, decoder, decoder.dest
      ensures Valid() && View() == Serve(old(View()), read)
    {
      var incoming := read;
      while incoming != []
        invariant Valid() && Serve(View(), incoming) == Serve(old(View()), read)
        decreases |incoming|
      {
        ghost var before := View();
        var ok, report := decoder.PushSlice(incoming);
        if !ok {
          userOut := userOut + [incoming[0]];
          incoming := incoming[1..];
          decoder.Reset();
        } else if report.Some? {
          var wasValid := HandlePacketBytes(decoder.dest[..decoder.length]);
          if !wasValid {
            userOut := userOut + incoming[..report.value];
          }
          decoder.Reset();
          incoming := incoming[report.value..];
        } else {
          assert View() == Serve(before, incoming);
          break;
        }
      }
    }
  }
}

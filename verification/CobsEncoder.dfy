/**
 * The packet encoder that works in a caller's buffer of limited size.
 */
module CobsEncoder {
  import opened Bytes
  import opened Cobs

  /** What is complete before the next byte, and the run it would join. */
  function Closed(p: Partial): seq<byte>
    requires p.Ok()
  {
    if |p.run| == MAX_RUN then p.Output() else p.done
  }

  function OpenRun(p: Partial): seq<byte> {
    if |p.run| == MAX_RUN then [] else p.run
  }

  class CobsEncoder {
    const dest: array<byte>
    /** Only the first `limit` bytes of `dest` belong to the encoder. */
    const limit: nat
    /** Where the code byte of the open block goes. */
    var codeIdx: nat
    /** Where the next byte goes. */
    var destIdx: nat
    /** The last block has just been filled and no new one needs to be open yet. */
    var justFull: bool
    /** What has been pushed. */
    ghost var pushed: seq<byte>

    ghost predicate Valid()
      reads this, dest
    {
      var p := FeedAll(START, pushed);
      && limit <= dest.Length
      && codeIdx <= destIdx <= limit
      && (justFull <==> |p.run| == MAX_RUN)
      && (justFull ==> codeIdx == destIdx && dest[..destIdx] == p.Output())
      && (!justFull ==> codeIdx < destIdx && destIdx == codeIdx + 1 + |p.run|)
      && (!justFull ==> dest[..codeIdx] == p.done && dest[codeIdx + 1..destIdx] == p.run)
    }

    constructor (buffer: array<byte>, max: nat)
      requires 1 <= max <= buffer.Length
      ensures Valid() && pushed == [] && dest == buffer && limit == max
    {
      dest := buffer;
      limit := max;
      codeIdx := 0;
      destIdx := 1;
      justFull := false;
      pushed := [];
    }

    lemma EncodedSize()
      requires Valid()
      ensures destIdx == |Encode(pushed)|
    {
      IncrementalEncode(pushed);
    }

    /** Takes one more byte, or leaves the packet unchanged if it would not fit. */
    method Push(b: byte) returns (ok: bool)
      requires Valid()
      modifies `codeIdx, `destIdx, `justFull, `pushed, dest
      ensures Valid()
      ensures ok <==> |Encode(old(pushed) + [b])| <= limit
      ensures pushed == if ok then old(pushed) + [b] else old(pushed)
      ensures forall i :: limit <= i < dest.Length ==> dest[i] == old(dest[i])
    {
      EncodedSize();
      EncodeSnoc(pushed, b);
      FeedAllSnoc(START, pushed, b);
      var needed := if justFull then 2 else 1;
      if limit < destIdx + needed {
        return false;
      }
      if justFull {
        destIdx := destIdx + 1;
        justFull := false;
      }
      Append(b);
      ok := true;
    }

    /** An open block holds the run; behind a full one it is still empty. */
    ghost predicate BlockOpen()
      reads this, dest
    {
      var p := FeedAll(START, pushed);
      && limit <= dest.Length && codeIdx < destIdx < limit && !justFull
      && destIdx == codeIdx + 1 + |OpenRun(p)|
      && dest[..codeIdx] == Closed(p) && dest[codeIdx + 1..destIdx] == OpenRun(p)
    }

    method Append(b: byte)
      requires BlockOpen()
      modifies `codeIdx, `destIdx, `justFull, `pushed, dest
      ensures Valid() && pushed == old(pushed) + [b]
      ensures forall i :: limit <= i < dest.Length ==> dest[i] == old(dest[i])
    {
      FeedAllSnoc(START, pushed, b);
      if b == 0 {
        CloseBlock();
      } else {
        ExtendRun(b);
      }
    }

    /** A zero completes the open block. */
    method CloseBlock()
      requires BlockOpen() && FeedAll(START, pushed + [0]) == Feed(FeedAll(START, pushed), 0)
      modifies `codeIdx, `destIdx, `pushed, dest
      ensures Valid() && pushed == old(pushed) + [0]
      ensures forall i :: limit <= i < dest.Length ==> dest[i] == old(dest[i])
    {
      dest[codeIdx] := destIdx - codeIdx;
      codeIdx := destIdx;
      destIdx := destIdx + 1;
      pushed := pushed + [0];
    }

    /** Any other byte joins the run, and completes the block when it is the longest possible. */
    method ExtendRun(b: byte)
      requires BlockOpen() && b != 0 && FeedAll(START, pushed + [b]) == Feed(FeedAll(START, pushed), b)
      modifies `codeIdx, `destIdx, `justFull, `pushed, dest
      ensures Valid() && pushed == old(pushed) + [b]
      ensures forall i :: limit <= i < dest.Length ==> dest[i] == old(dest[i])
    {
      dest[destIdx] := b;
      destIdx := destIdx + 1;
      if destIdx - codeIdx == MAX_RUN + 1 {
        dest[codeIdx] := 0xFF;
        codeIdx := destIdx;
        justFull := true;
      }
      pushed := pushed + [b];
    }

    /**
     * Completes the packet and returns its length. After a full block this opens an empty one at
     * index `length`, which is not part of the packet.
     */
    method Finalize() returns (length: nat)
      requires Valid()
      modifies dest
      ensures length == |Encode(pushed)| <= limit
      ensures dest[..length] == Encode(pushed)
      ensures forall i :: limit <= i < dest.Length ==> dest[i] == old(dest[i])
    {
      EncodedSize();
      IncrementalEncode(pushed);
      if justFull {
        if codeIdx < limit {
          dest[codeIdx] := 1;
        }
      } else {
        dest[codeIdx] := destIdx - codeIdx;
      }
      length := destIdx;
    }
  }
}

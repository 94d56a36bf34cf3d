/**
 * Consistent Overhead Byte Stuffing: the encoding as Cheshire and Baker define it (IEEE/ACM
 * Transactions on Networking 7(2), 1999), and an incremental view of it for an encoder that is
 * fed one byte at a time.
 */
module Cobs {
  import opened Bytes

  /** The longest run of non-zero bytes one code byte can announce. */
  const MAX_RUN := 254

  /** Length of the leading run of non-zero bytes, cut off at the longest one code can announce. */
  function LeadingRun(data: seq<byte>): (n: nat)
    ensures n <= |data| && n <= MAX_RUN
    ensures NonZero(data[..n])
    ensures n < MAX_RUN && n < |data| ==> data[n] == 0
  {
    LeadingRunFrom(data, 0)
  }

  function LeadingRunFrom(data: seq<byte>, from: nat): (n: nat)
    requires from <= |data| && from <= MAX_RUN && NonZero(data[..from])
    ensures from <= n <= |data| && n <= MAX_RUN
    ensures NonZero(data[..n])
    ensures n < MAX_RUN && n < |data| ==> data[n] == 0
    decreases |data| - from
  {
    if from == |data| || from == MAX_RUN || data[from] == 0 then from else LeadingRunFrom(data, from + 1)
  }

  predicate NonZero(bs: seq<byte>) {
    forall i :: 0 <= i < |bs| ==> bs[i] != 0
  }

  /** A code byte and the run it announces; 0xFF announces a run no zero follows. */
  function Block(run: seq<byte>): seq<byte>
    requires |run| <= MAX_RUN
  {
    [|run| + 1] + run
  }

  /** A data packet stuffed: a final full block is not followed by a further code byte. */
  function Encode(data: seq<byte>): (r: seq<byte>)
    ensures |r| >= 1
  {
    var n := LeadingRun(data);
    if n == |data| then Block(data)
    else if n == MAX_RUN then Block(data[..n]) + Encode(data[n..])
    else Block(data[..n]) + Encode(data[n + 1..])
  }

  /**
   * The encoding in the terms of its definition: a run shorter than 254 bytes and the zero behind it
   * become a length byte and the run, a run of 254 becomes 255 and the run, and the last run of a
   * packet stands for itself.
   */
  lemma EncodingOf(run: seq<byte>, rest: seq<byte>)
    requires |run| <= 254 && NonZero(run)
    ensures Encode(run) == [|run| + 1] + run
    ensures |run| < 254 ==> Encode(run + [0] + rest) == [|run| + 1] + run + Encode(rest)
    ensures |run| == 254 && rest != [] ==> Encode(run + rest) == [255] + run + Encode(rest)
  {
    EncodeFirstBlock(run, []);
    assert run + [] == run;
    if |run| < 254 {
      EncodeFirstBlock(run, [0] + rest);
      assert run + ([0] + rest) == run + [0] + rest && ([0] + rest)[1..] == rest;
    } else if rest != [] {
      EncodeFirstBlock(run, rest);
    }
  }

  /** Stuffed data contains no zero, so a zero can delimit packets. */
  lemma {:induction false} EncodedNonZero(data: seq<byte>)
    ensures NonZero(Encode(data))
    decreases |data|
  {
    var n := LeadingRun(data);
    if n == |data| {
      assert data[..n] == data;
    } else if n == MAX_RUN {
      EncodedNonZero(data[n..]);
    } else {
      EncodedNonZero(data[n + 1..]);
    }
  }

  /** How many full blocks fit grows with the length. */
  lemma Blocks(rest: nat, n: nat)
    ensures rest / MAX_RUN <= (rest + n) / MAX_RUN
    ensures n == MAX_RUN ==> (rest + n) / MAX_RUN == rest / MAX_RUN + 1
  {
  }

  /** What the first block leaves of a packet. */
  function RestOf(data: seq<byte>): (rest: seq<byte>)
    requires LeadingRun(data) < |data|
    ensures |rest| < |data|
  {
    var n := LeadingRun(data);
    if n == MAX_RUN then data[n..] else data[n + 1..]
  }

  lemma FirstLength(data: seq<byte>)
    requires LeadingRun(data) < |data|
    ensures |Encode(data)| == 1 + LeadingRun(data) + |Encode(RestOf(data))|
    ensures |data| == |RestOf(data)| + if LeadingRun(data) == MAX_RUN then MAX_RUN else LeadingRun(data) + 1
  {
  }

  /** Stuffing costs one byte and at most one more for every 254. */
  lemma {:induction false} Overhead(data: seq<byte>)
    ensures |data| < |Encode(data)| <= |data| + 1 + |data| / 254
    decreases |data|
  {
    var n := LeadingRun(data);
    if n < |data| {
      FirstLength(data);
      Overhead(RestOf(data));
      Blocks(|RestOf(data)|, if n == MAX_RUN then MAX_RUN else n + 1);
    }
  }

  // ----- One byte at a time -----

  /** Closed blocks, and the run that is still growing. */
  datatype Partial = Partial(done: seq<byte>, run: seq<byte>) {
    predicate Ok() {
      |run| <= MAX_RUN && NonZero(run)
    }

    /** What the encoding is if nothing more comes. */
    function Output(): seq<byte>
      requires Ok()
    {
      done + Block(run)
    }
  }

  function Feed(p: Partial, b: byte): (r: Partial)
    requires p.Ok()
    ensures r.Ok()
  {
    var q := if |p.run| == MAX_RUN then Partial(p.Output(), []) else p;
    if b == 0 then Partial(q.Output(), []) else Partial(q.done, q.run + [b])
  }

  function FeedAll(p: Partial, data: seq<byte>): (r: Partial)
    requires p.Ok()
    ensures r.Ok()
    decreases |data|
  {
    if data == [] then p else FeedAll(Feed(p, data[0]), data[1..])
  }

  const START := Partial([], [])

  lemma RunLeads(run: seq<byte>, data: seq<byte>)
    requires |run| <= MAX_RUN && NonZero(run)
    ensures |run| == MAX_RUN || data == [] || data[0] == 0 ==> LeadingRun(run + data) == |run|
  {
    var n := LeadingRun(run + data);
    assert forall i :: 0 <= i < |run| ==> (run + data)[i] == run[i];
    assert |run| < n ==> (run + data)[..n][|run|] == data[0];
  }

  /** The first block of a packet that starts with a complete run. */
  lemma EncodeFirstBlock(run: seq<byte>, data: seq<byte>)
    requires |run| <= MAX_RUN && NonZero(run)
    ensures data == [] ==> Encode(run + data) == Block(run)
    ensures data != [] && |run| == MAX_RUN ==> Encode(run + data) == Block(run) + Encode(data)
    ensures data != [] && |run| < MAX_RUN && data[0] == 0 ==> Encode(run + data) == Block(run) + Encode(data[1..])
  {
    RunLeads(run, data);
    var all := run + data;
    assert all[..|run|] == run && all[|run|..] == data;
    if data == [] {
      assert all == run;
    } else {
      assert all[|run| + 1..] == data[1..];
    }
  }

  /** Feeding a byte moves it from the rest of the packet into what is done or open. */
  lemma FeedStep(p: Partial, b: byte, rest: seq<byte>)
    requires p.Ok() && |p.run| < MAX_RUN
    ensures Feed(p, b).done + Encode(Feed(p, b).run + rest) == p.done + Encode(p.run + ([b] + rest))
  {
    if b == 0 {
      EncodeFirstBlock(p.run, [b] + rest);
      assert ([b] + rest)[1..] == rest && [] + rest == rest;
    } else {
      assert p.run + [b] + rest == p.run + ([b] + rest);
    }
  }

  /** A full block may just as well be closed before the next byte. */
  lemma CloseBeforeNext(p: Partial, data: seq<byte>)
    requires p.Ok() && |p.run| == MAX_RUN && data != []
    ensures FeedAll(p, data) == FeedAll(Partial(p.Output(), []), data)
  {
    assert Feed(p, data[0]) == Feed(Partial(p.Output(), []), data[0]);
  }

  lemma EncodeAfterFull(p: Partial, data: seq<byte>)
    requires p.Ok() && |p.run| == MAX_RUN && data != []
    ensures p.done + Encode(p.run + data) == p.Output() + Encode(data)
  {
    EncodeFirstBlock(p.run, data);
  }

  /** Feeding the rest of a packet completes the encoding of the open run and that rest. */
  lemma {:induction false} FeedAllOutput(p: Partial, data: seq<byte>)
    requires p.Ok()
    ensures FeedAll(p, data).Output() == p.done + Encode(p.run + data)
    decreases |data|, |p.run|
  {
    if data == [] {
      EncodeFirstBlock(p.run, data);
    } else if |p.run| == MAX_RUN {
      CloseBeforeNext(p, data);
      EncodeAfterFull(p, data);
      assert [] + data == data;
      FeedAllOutput(Partial(p.Output(), []), data);
    } else {
      FeedAllOutput(Feed(p, data[0]), data[1..]);
      FeedStep(p, data[0], data[1..]);
      assert [data[0]] + data[1..] == data;
    }
  }

  /** The incremental encoder produces the packet encoding. */
  lemma IncrementalEncode(data: seq<byte>)
    ensures FeedAll(START, data).Output() == Encode(data)
  {
    FeedAllOutput(START, data);
    assert [] + data == data;
  }

  lemma {:induction false} FeedAllSnoc(p: Partial, data: seq<byte>, b: byte)
    requires p.Ok()
    ensures FeedAll(p, data + [b]) == Feed(FeedAll(p, data), b)
    decreases |data|
  {
    if data == [] {
      assert data + [b] == [b];
    } else {
      assert (data + [b])[1..] == data[1..] + [b];
      FeedAllSnoc(Feed(p, data[0]), data[1..], b);
    }
  }

  /** Each further byte lengthens the encoding, by two right after a full block. */
  lemma EncodeSnoc(data: seq<byte>, b: byte)
    ensures |Encode(data + [b])| == |Encode(data)| + if |FeedAll(START, data).run| == MAX_RUN then 2 else 1
  {
    IncrementalEncode(data);
    IncrementalEncode(data + [b]);
    FeedAllSnoc(START, data, b);
  }
}

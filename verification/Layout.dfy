/**
 * Byte images of records: fields of given widths laid out one after the other, least significant
 * byte first.
 */
module Layout {
  import opened Bytes

  type Widths = seq<nat>

  /** Where field `i` starts. */
  function Offset(ws: Widths, i: nat): nat
    requires i <= |ws|
  {
    if i == 0 then 0 else Offset(ws, i - 1) + ws[i - 1]
  }

  function Total(ws: Widths): nat {
    Offset(ws, |ws|)
  }

  predicate InRange(ws: Widths, vs: seq<nat>) {
    |vs| == |ws| && forall i :: 0 <= i < |ws| ==> vs[i] < Range(ws[i])
  }

  /** The first `n` fields. */
  function EncodeFirst(ws: Widths, vs: seq<nat>, n: nat): (bs: seq<byte>)
    requires n <= |ws| == |vs|
    ensures |bs| == Offset(ws, n)
  {
    if n == 0 then [] else EncodeFirst(ws, vs, n - 1) + LeBytes(ws[n - 1], vs[n - 1])
  }

  function Encode(ws: Widths, vs: seq<nat>): (bs: seq<byte>)
    requires |ws| == |vs|
    ensures |bs| == Total(ws)
  {
    EncodeFirst(ws, vs, |ws|)
  }

  /** The value of field `i` in a byte image. */
  function Field(ws: Widths, bs: seq<byte>, i: nat): nat
    requires i < |ws| && Offset(ws, i) + ws[i] <= |bs|
  {
    LeValue(bs[Offset(ws, i)..Offset(ws, i) + ws[i]])
  }

  lemma {:induction false} OffsetMonotone(ws: Widths, i: nat, j: nat)
    requires i <= j <= |ws|
    ensures Offset(ws, i) <= Offset(ws, j)
    ensures i < j ==> Offset(ws, i) + ws[i] <= Offset(ws, j)
    decreases j
  {
    if i < j {
      OffsetMonotone(ws, i, j - 1);
    }
  }

  lemma SliceOfFirst(front: seq<byte>, last: seq<byte>, lo: nat, hi: nat)
    requires lo <= hi <= |front|
    ensures (front + last)[lo..hi] == front[lo..hi]
    ensures (front + last)[|front|..] == last
  {
  }

  lemma {:induction false} FieldBytes(ws: Widths, vs: seq<nat>, n: nat, i: nat)
    requires i < n <= |ws| == |vs|
    ensures Offset(ws, i) + ws[i] <= Offset(ws, n)
    ensures EncodeFirst(ws, vs, n)[Offset(ws, i)..Offset(ws, i) + ws[i]] == LeBytes(ws[i], vs[i])
  {
    OffsetMonotone(ws, i, n);
    var front, last := EncodeFirst(ws, vs, n - 1), LeBytes(ws[n - 1], vs[n - 1]);
    assert EncodeFirst(ws, vs, n) == front + last;
    if i < n - 1 {
      FieldBytes(ws, vs, n - 1, i);
      SliceOfFirst(front, last, Offset(ws, i), Offset(ws, i) + ws[i]);
    } else {
      SliceOfFirst(front, last, 0, 0);
    }
  }

  /** The bytes of a field in the image, and its value read back. */
  lemma FieldOfEncode(ws: Widths, vs: seq<nat>, i: nat)
    requires InRange(ws, vs) && i < |ws|
    ensures Offset(ws, i) + ws[i] <= Total(ws)
    ensures Encode(ws, vs)[Offset(ws, i)..Offset(ws, i) + ws[i]] == LeBytes(ws[i], vs[i])
    ensures Field(ws, Encode(ws, vs), i) == vs[i]
  {
    FieldBytes(ws, vs, |ws|, i);
    FieldValue(ws, Encode(ws, vs), i, vs[i]);
  }

  lemma FieldValue(ws: Widths, bs: seq<byte>, i: nat, v: nat)
    requires i < |ws| && Offset(ws, i) + ws[i] <= |bs| && v < Range(ws[i])
    requires bs[Offset(ws, i)..Offset(ws, i) + ws[i]] == LeBytes(ws[i], v)
    ensures Field(ws, bs, i) == v
  {
    LeValueOfLeBytes(ws[i], v);
  }

  /** Splicing into the front of a concatenation, and over its last part. */
  lemma SpliceBefore(front: seq<byte>, last: seq<byte>, at: nat, bs: seq<byte>)
    requires at + |bs| <= |front|
    ensures Splice(front, at, bs) + last == Splice(front + last, at, bs)
  {
  }

  lemma SpliceLast(front: seq<byte>, last: seq<byte>, bs: seq<byte>)
    requires |bs| == |last|
    ensures front + bs == Splice(front + last, |front|, bs)
  {
  }

  lemma {:induction false} EncodeFirstUpdate(ws: Widths, vs: seq<nat>, n: nat, i: nat, v: nat)
    requires i < |ws| == |vs| && n <= |ws|
    ensures i < n ==> Offset(ws, i) + ws[i] <= Offset(ws, n)
    ensures EncodeFirst(ws, vs[i := v], n)
      == if i < n then Splice(EncodeFirst(ws, vs, n), Offset(ws, i), LeBytes(ws[i], v)) else EncodeFirst(ws, vs, n)
  {
    if n > 0 {
      EncodeFirstUpdate(ws, vs, n - 1, i, v);
      var front, last := EncodeFirst(ws, vs, n - 1), LeBytes(ws[n - 1], vs[n - 1]);
      if i < n - 1 {
        SpliceBefore(front, last, Offset(ws, i), LeBytes(ws[i], v));
      } else if i == n - 1 {
        SpliceLast(front, last, LeBytes(ws[i], v));
      }
    }
  }

  /** Changing one field splices its bytes into the image and leaves the rest. */
  lemma EncodeUpdate(ws: Widths, vs: seq<nat>, i: nat, v: nat)
    requires i < |ws| == |vs|
    ensures Offset(ws, i) + ws[i] <= Total(ws)
    ensures Encode(ws, vs[i := v]) == Splice(Encode(ws, vs), Offset(ws, i), LeBytes(ws[i], v))
  {
    EncodeFirstUpdate(ws, vs, |ws|, i, v);
  }

  lemma FieldBack(ws: Widths, bs: seq<byte>, i: nat)
    requires i < |ws| && Offset(ws, i) + ws[i] <= |bs|
    ensures LeBytes(ws[i], Field(ws, bs, i)) == bs[Offset(ws, i)..Offset(ws, i) + ws[i]]
  {
    var field := bs[Offset(ws, i)..Offset(ws, i) + ws[i]];
    LeBytesOfLeValue(field);
    assert |field| == ws[i];
  }

  predicate FieldIs(ws: Widths, vs: seq<nat>, bs: seq<byte>, i: nat)
    requires i < |ws| == |vs|
  {
    Offset(ws, i) + ws[i] <= |bs| && vs[i] == Field(ws, bs, i)
  }

  /** An image is the encoding of the fields read from it. */
  lemma {:induction false} EncodeOfFields(ws: Widths, vs: seq<nat>, bs: seq<byte>, n: nat)
    requires n <= |ws| == |vs| && Offset(ws, n) <= |bs|
    requires forall i :: 0 <= i < n ==> FieldIs(ws, vs, bs, i)
    ensures EncodeFirst(ws, vs, n) == bs[..Offset(ws, n)]
  {
    if n > 0 {
      EncodeOfFields(ws, vs, bs, n - 1);
      assert FieldIs(ws, vs, bs, n - 1);
      FieldBack(ws, bs, n - 1);
      assert bs[..Offset(ws, n)] == bs[..Offset(ws, n - 1)] + bs[Offset(ws, n - 1)..Offset(ws, n)];
    }
  }

  /** Overwriting one field of an image leaves the others. */
  lemma FieldOfSplice(ws: Widths, bs: seq<byte>, i: nat, j: nat, v: nat)
    requires i < |ws| && j < |ws| && v < Range(ws[i]) && Total(ws) <= |bs|
    ensures Offset(ws, i) + ws[i] <= |bs| && Offset(ws, j) + ws[j] <= |bs|
    ensures Field(ws, Splice(bs, Offset(ws, i), LeBytes(ws[i], v)), j) == if j == i then v else Field(ws, bs, j)
  {
    OffsetMonotone(ws, i, |ws|);
    OffsetMonotone(ws, j, |ws|);
    var r := Splice(bs, Offset(ws, i), LeBytes(ws[i], v));
    if i == j {
      assert r[Offset(ws, i)..Offset(ws, i) + ws[i]] == LeBytes(ws[i], v);
      LeValueOfLeBytes(ws[i], v);
    } else {
      if i < j {
        OffsetMonotone(ws, i, j);
      } else {
        OffsetMonotone(ws, j, i);
      }
      assert r[Offset(ws, j)..Offset(ws, j) + ws[j]] == bs[Offset(ws, j)..Offset(ws, j) + ws[j]];
    }
  }
}

/**
 * Word wrap of the panic report: text collects in a fixed buffer and is printed line by line.
 */
module WordWrap {
  import opened Wrappers
  import opened Bytes

  const LINE_MAX_WIDTH := 52
  const FIRST_LINE_Y := 32
  const LINE_HEIGHT := 20

  const NUL: byte := '\0' as int
  const NEWLINE: byte := '\n' as int
  const SPACE: byte := ' ' as int
  const PERCENT: byte := '%' as int
  const QUESTION_MARK: byte := '?' as int

  /** A line handed to the display, and the character that was used up to end it, if any. */
  datatype Line = Line(text: seq<byte>, separator: seq<byte>)

  /** The lines printed so far and the text that waits in the buffer. */
  datatype Report = Report(printed: seq<Line>, live: seq<byte>)

  /** Characters the font does not have become question marks. */
  function ToAscii(character: nat): byte {
    if character < 128 then character else QUESTION_MARK
  }

  function AsciiText(s: seq<nat>): seq<byte> {
    seq(|s|, i requires 0 <= i < |s| => ToAscii(s[i]))
  }

  /** ASCII text stays as it is, character by character, and each other character shows as 63, '?'. */
  lemma AsciiIsKept(s: seq<nat>)
    ensures |AsciiText(s)| == |s|
    ensures forall i :: 0 <= i < |s| ==> (s[i] <= 0x7F ==> AsciiText(s)[i] == s[i]) && (s[i] > 0x7F ==> AsciiText(s)[i] == 63)
  {
  }

  /** The last space at or before position `i`. */
  function LastSpace(text: seq<byte>, n: nat): (k: int)
    requires n <= |text|
    ensures -1 <= k < n
    ensures k >= 0 ==> text[k] == SPACE
    ensures forall j :: k < j < n ==> text[j] != SPACE
  {
    if n == 0 then -1 else if text[n - 1] == SPACE then n - 1 else LastSpace(text, n - 1)
  }

  /** One character: it ends a line, fills one up, or joins the waiting text. */
  function Put(r: Report, c: byte): Report {
    if c == NEWLINE then Report(r.printed + [Line(r.live, [NEWLINE])], [])
    else
      var full := r.live + [c];
      if |full| < LINE_MAX_WIDTH then r.(live := full)
      else
        var k := LastSpace(full, |full|);
        if k >= 0 then Report(r.printed + [Line(full[..k], [SPACE])], full[k + 1..])
        else Report(r.printed + [Line(full, [])], [])
  }

  function PutAll(r: Report, text: seq<byte>): Report
    decreases |text|
  {
    if text == [] then r else PutAll(Put(r, text[0]), text[1..])
  }

  function Flatten(lines: seq<Line>): seq<byte> {
    if lines == [] then [] else Flatten(lines[..|lines| - 1]) + lines[|lines| - 1].text + lines[|lines| - 1].separator
  }

  /** All text the report has been given: what was printed, what ended the lines, what waits. */
  function AllText(r: Report): seq<byte> {
    Flatten(r.printed) + r.live
  }

  lemma FlattenSnoc(lines: seq<Line>, line: Line)
    ensures Flatten(lines + [line]) == Flatten(lines) + line.text + line.separator
  {
    assert (lines + [line])[..|lines|] == lines;
  }

  lemma BreakConserves(r: Report, full: seq<byte>, line: Line, rest: seq<byte>)
    requires full == line.text + line.separator + rest
    ensures AllText(Report(r.printed + [line], rest)) == Flatten(r.printed) + full
  {
    FlattenSnoc(r.printed, line);
  }

  lemma PutConserves(r: Report, c: byte)
    ensures AllText(Put(r, c)) == Flatten(r.printed) + (r.live + [c])
  {
    var full := r.live + [c];
    if c == NEWLINE {
      BreakConserves(r, full, Line(r.live, [NEWLINE]), []);
    } else if |full| >= LINE_MAX_WIDTH {
      var k := LastSpace(full, |full|);
      if k >= 0 {
        BreakConserves(r, full, Line(full[..k], [SPACE]), full[k + 1..]);
      } else {
        BreakConserves(r, full, Line(full, []), []);
      }
    }
  }

  lemma Regroup(printed: seq<byte>, live: seq<byte>, text: seq<byte>)
    requires text != []
    ensures printed + (live + [text[0]]) + text[1..] == printed + live + text
  {
  }

  /** Wrapping loses, adds and reorders nothing. */
  lemma {:induction false} WrappingConserves(r: Report, text: seq<byte>)
    ensures AllText(PutAll(r, text)) == AllText(r) + text
    decreases |text|
  {
    if text != [] {
      PutConserves(r, text[0]);
      WrappingConserves(Put(r, text[0]), text[1..]);
      Regroup(Flatten(r.printed), r.live, text);
    }
  }

  /** How text is cut into writes makes no difference. */
  lemma {:induction false} WritesCompose(r: Report, a: seq<byte>, b: seq<byte>)
    ensures PutAll(r, a + b) == PutAll(PutAll(r, a), b)
    decreases |a|
  {
    if a == [] {
      assert a + b == b;
    } else {
      assert (a + b)[1..] == a[1..] + b;
      WritesCompose(Put(r, a[0]), a[1..], b);
    }
  }

  /** A line fits the display and was ended for a reason: a newline, 10, a space, 32, or a word too long. */
  predicate WellBroken(line: Line) {
    && |line.text| <= 52
    && 10 !in line.text
    && (line.separator == [10] || line.separator == [32] || (line.separator == [] && |line.text| == 52))
    && (line.separator == [] ==> 32 !in line.text)
    && (line.separator != [] ==> |line.text| < 52)
  }

  predicate Fitting(r: Report) {
    && |r.live| < LINE_MAX_WIDTH && NEWLINE !in r.live
    && forall k :: 0 <= k < |r.printed| ==> WellBroken(r.printed[k])
  }

  lemma PutFits(r: Report, c: byte)
    requires Fitting(r)
    ensures Fitting(Put(r, c))
  {
    var full := r.live + [c];
    if c != NEWLINE && |full| >= LINE_MAX_WIDTH {
      var k := LastSpace(full, |full|);
      assert NEWLINE !in full;
      if k < 0 {
        assert SPACE !in full;
      }
    }
  }

  /** A line broken at a space takes as much as fits: what moves to the next line has no space. */
  lemma BreaksAtLastSpace(r: Report, c: byte)
    requires Fitting(r) && |Put(r, c).printed| > |r.printed|
    ensures var r' := Put(r, c);
      var line := r'.printed[|r.printed|];
      && r'.printed == r.printed + [line]
      && (c == 10 ==> line == Line(r.live, [10]) && r'.live == [])
      && (c != 10 ==> |line.text| + |line.separator| + |r'.live| == 52 && 32 !in r'.live)
  {
    var full := r.live + [c];
    var k := LastSpace(full, |full|);
  }

  /** Lines never exceed the display and are only broken inside a word longer than a line. */
  lemma {:induction false} LinesFit(r: Report, text: seq<byte>)
    requires Fitting(r)
    ensures Fitting(PutAll(r, text))
    decreases |text|
  {
    if text != [] {
      PutFits(r, text[0]);
      LinesFit(Put(r, text[0]), text[1..]);
    }
  }

  // ----- What the display shows -----

  /**
   * A line is handed over as a format, with no arguments behind it: it ends at its first NUL, `%%`
   * shows one percent sign, and any other directive reads an argument nobody has passed.
   */
  function Display(format: seq<byte>): (shown: Option<seq<byte>>)
    ensures shown.Some? ==> |shown.value| <= |format|
  {
    if format == [] || format[0] == NUL then Some([])
    else if format[0] != PERCENT then Behind(format[0], Display(format[1..]))
    else if |format| >= 2 && format[1] == PERCENT then Behind(PERCENT, Display(format[2..]))
    else None
  }

  function Behind(b: byte, rest: Option<seq<byte>>): Option<seq<byte>> {
    if rest.Some? then Some([b] + rest.value) else None
  }

  /** No character means anything to the display but itself: neither NUL nor the percent sign, 37, occurs. */
  predicate Literal(text: seq<byte>) {
    0 !in text && 37 !in text
  }

  /** A line is shown as it is if and only if it contains neither a NUL nor a percent sign. */
  lemma {:induction false} ShownAsItIsIff(text: seq<byte>)
    ensures Display(text) == Some(text) <==> Literal(text)
    ensures Display(text).Some? && |Display(text).value| == |text| <==> Literal(text)
    decreases |text|
  {
    if text != [] {
      var rest := text[1..];
      assert text == [text[0]] + rest;
      ShownAsItIsIff(rest);
    }
  }

  /** Everything on the display, the characters that ended lines, and what waits. */
  function ShownText(r: Report): Option<seq<byte>> {
    var shown := FlattenShown(r.printed);
    if shown.Some? then Some(shown.value + r.live) else None
  }

  function FlattenShown(lines: seq<Line>): Option<seq<byte>> {
    if lines == [] then Some([])
    else
      var front, last := FlattenShown(lines[..|lines| - 1]), lines[|lines| - 1];
      var shown := Display(last.text);
      if front.None? || shown.None? then None else Some(front.value + shown.value + last.separator)
  }

  predicate AllLiteral(lines: seq<Line>) {
    forall k :: 0 <= k < |lines| ==> Literal(lines[k].text)
  }

  lemma {:induction false} ShownAtMost(lines: seq<Line>)
    ensures FlattenShown(lines).Some? ==> |FlattenShown(lines).value| <= |Flatten(lines)|
    ensures FlattenShown(lines).Some? && |FlattenShown(lines).value| == |Flatten(lines)| <==> AllLiteral(lines)
    ensures AllLiteral(lines) ==> FlattenShown(lines) == Some(Flatten(lines))
  {
    if lines != [] {
      var front, last := lines[..|lines| - 1], lines[|lines| - 1];
      ShownAtMost(front);
      ShownAsItIsIff(last.text);
      assert AllLiteral(lines) <==> AllLiteral(front) && Literal(last.text) by {
        assert lines == front + [last];
      }
    }
  }

  lemma {:induction false} LiteralLines(lines: seq<Line>)
    requires forall k :: 0 <= k < |lines| ==> WellBroken(lines[k])
    ensures AllLiteral(lines) <==> Literal(Flatten(lines))
  {
    if lines != [] {
      var front, last := lines[..|lines| - 1], lines[|lines| - 1];
      LiteralLines(front);
      assert AllLiteral(lines) <==> AllLiteral(front) && Literal(last.text) by {
        assert lines == front + [last];
      }
      assert WellBroken(last) && Literal(last.separator);
      LiteralConcat(Flatten(front), last.text);
      LiteralConcat(Flatten(front) + last.text, last.separator);
    }
  }

  lemma LiteralConcat(a: seq<byte>, b: seq<byte>)
    ensures Literal(a + b) <==> Literal(a) && Literal(b)
  {
  }

  /**
   * All text given to the report is shown or waits if and only if there is neither a NUL nor a
   * percent sign in the text up to what waits.
   */
  lemma ShownIsConservedIff(text: seq<byte>)
    ensures var r := PutAll(Report([], []), text);
      |r.live| <= |text| && (ShownText(r) == Some(text) <==> Literal(text[..|text| - |r.live|]))
  {
    var start := Report([], []);
    var r := PutAll(start, text);
    WrappingConserves(start, text);
    LinesFit(start, text);
    assert AllText(start) + text == text;
    ShownAtMost(r.printed);
    LiteralLines(r.printed);
    assert text[..|text| - |r.live|] == Flatten(r.printed);
  }

  /** In particular text without NULs and percent signs is conserved on the display. */
  lemma LiteralTextIsShown(text: seq<byte>)
    requires Literal(text)
    ensures ShownText(PutAll(Report([], []), text)) == Some(text)
  {
    ShownIsConservedIff(text);
    var live := PutAll(Report([], []), text).live;
    Rejoin(text, |text| - |live|);
    LiteralConcat(text[..|text| - |live|], text[|text| - |live|..]);
  }

  /** Report text in ASCII without these two characters appears on the display as it was written. */
  lemma AsciiReportIsShown(s: seq<nat>)
    requires forall i :: 0 <= i < |s| ==> 0 < s[i] <= 0x7F && s[i] != '%' as int
    ensures ShownText(PutAll(Report([], []), AsciiText(s))) == Some(AsciiText(s))
    ensures |AsciiText(s)| == |s| && forall i :: 0 <= i < |s| ==> AsciiText(s)[i] == s[i]
  {
    AsciiIsKept(s);
    assert Literal(AsciiText(s));
    LiteralTextIsShown(AsciiText(s));
  }

  lemma Rejoin(text: seq<byte>, n: nat)
    requires n <= |text|
    ensures text == text[..n] + text[n..]
  {
  }

  /** Text without a NUL that is not conserved: a percent sign, some other character, a newline. */
  lemma DirectiveIsNotShown(b: byte)
    requires b != NUL && b != PERCENT && b != NEWLINE
    ensures var text := [PERCENT, b, NEWLINE];
      && NUL !in text
      && PutAll(Report([], []), text) == Report([Line([PERCENT, b], [NEWLINE])], [])
      && ShownText(PutAll(Report([], []), text)) == None
  {
    var text, r0 := [PERCENT, b, NEWLINE], Report([], []);
    var r1, r2 := Put(r0, PERCENT), Put(Put(r0, PERCENT), b);
    assert r1 == Report([], [PERCENT]) && r2 == Report([], [PERCENT, b]);
    assert text[1..] == [b, NEWLINE] && text[1..][1..] == [NEWLINE] && text[1..][1..][1..] == [];
    assert PutAll(r2, [NEWLINE]) == Put(r2, NEWLINE);
    assert PutAll(r1, [b, NEWLINE]) == PutAll(r2, [NEWLINE]);
    assert Display([PERCENT, b]) == None;
    assert [Line([PERCENT, b], [NEWLINE])][..0] == [];
  }

  /** Two percent signs are shown as one. */
  lemma PercentIsHalved(text: seq<byte>)
    requires Literal(text)
    ensures Display([PERCENT, PERCENT] + text) == Some([PERCENT] + text)
  {
    ShownAsItIsIff(text);
    assert ([PERCENT, PERCENT] + text)[2..] == text;
  }

  // ----- In place -----

  class ErrorReport {
    /** One byte longer than a line, so that a full line is still terminated. */
    const buf: array<byte>
    var pos: nat
    var yOffset: int
    /** The lines handed to the display. */
    ghost var printed: seq<Line>
    /** What the display makes of each of them; none if it reads an argument that is not there. */
    ghost var shown: seq<Option<seq<byte>>>

    ghost predicate Valid()
      reads this, buf
    {
      && buf.Length == LINE_MAX_WIDTH + 1
      && pos < LINE_MAX_WIDTH
      && buf[LINE_MAX_WIDTH] == NUL
      && yOffset == FIRST_LINE_Y + LINE_HEIGHT * |printed|
      && |shown| == |printed|
      && forall k :: 0 <= k < |shown| ==> shown[k] == Display(printed[k].text)
    }

    ghost function View(): Report
      requires Valid()
      reads this, buf
    {
      Report(printed, buf[..pos])
    }

    constructor ()
      ensures Valid() && fresh(buf) && View() == Report([], [])
    {
      buf := new byte[LINE_MAX_WIDTH + 1](_ => NUL);
      pos := 0;
      yOffset := FIRST_LINE_Y;
      printed := [];
      shown := [];
    }

    /** The last space anywhere in the buffer. */
    method LastSpaceInBuffer() returns (found: bool, at: nat)
      requires buf.Length == LINE_MAX_WIDTH + 1 && buf[LINE_MAX_WIDTH] == NUL
      ensures found == (LastSpace(buf[..LINE_MAX_WIDTH], LINE_MAX_WIDTH) >= 0)
      ensures found ==> at == LastSpace(buf[..LINE_MAX_WIDTH], LINE_MAX_WIDTH)
    {
      var i := LINE_MAX_WIDTH + 1;
      while i > 0
        invariant 0 <= i <= LINE_MAX_WIDTH + 1
        invariant forall j :: i <= j <= LINE_MAX_WIDTH ==> buf[j] != SPACE
      {
        i := i - 1;
        if buf[i] == SPACE {
          return true, i;
        }
      }
      found, at := false, 0;
    }

    /** Prints the terminated text at the front of the buffer. */
    method PrintLine(ghost line: Line)
      requires buf.Length == LINE_MAX_WIDTH + 1
      requires |line.text| <= LINE_MAX_WIDTH && buf[..|line.text|] == line.text && buf[|line.text|] == NUL
      modifies `yOffset, `printed, `shown
      ensures yOffset == old(yOffset) + LINE_HEIGHT
      ensures printed == old(printed) + [line]
      ensures shown == old(shown) + [Display(line.text)]
    {
      Terminated(buf[..], line.text);
      shown := shown + [Display(buf[..])];
      printed := printed + [line];
      yOffset := yOffset + LINE_HEIGHT;
    }

    /** Moves what follows `from` to the front of the buffer. */
    method ShiftDown(from: nat)
      requires from <= buf.Length
      modifies buf
      ensures forall j :: 0 <= j < buf.Length ==> buf[j] == old(if j < buf.Length - from then buf[from + j] else buf[j])
    {
      for k := 0 to buf.Length - from
        invariant forall j :: 0 <= j < buf.Length ==>
          buf[j] == old(if j < k then buf[from + j] else buf[j])
      {
        buf[k] := buf[from + k];
      }
    }

    /** The buffer holds the waiting text with a further character behind it, which ends a line. */
    ghost predicate HoldsFull(full: seq<byte>)
      reads this, buf
    {
      && Valid() && |full| == pos + 1 && buf[..pos + 1] == full
      && (full[pos] == NEWLINE || pos == LINE_MAX_WIDTH - 1)
    }

    /** Decides where to break the line and terminates it there. */
    method ChooseWrapPoint(ghost full: seq<byte>) returns (wrapPoint: nat, ghost line: Line)
      requires HoldsFull(full)
      modifies buf
      ensures wrapPoint <= pos && (full[pos] == NEWLINE ==> wrapPoint == pos)
      ensures |line.text| <= LINE_MAX_WIDTH && buf[..|line.text|] == line.text && buf[|line.text|] == NUL
      ensures forall j :: 0 <= j < buf.Length && j != wrapPoint ==> buf[j] == old(buf[j])
      ensures Put(Report(printed, full[..pos]), full[pos]) == Report(printed + [line], full[wrapPoint + 1..])
    {
      if buf[pos] == NEWLINE {
        buf[pos] := NUL;
        wrapPoint := pos;
        line := Line(full[..pos], [NEWLINE]);
      } else {
        assert full[..pos] + [full[pos]] == full && buf[..LINE_MAX_WIDTH] == full;
        var found, at := LastSpaceInBuffer();
        if found {
          buf[at] := NUL;
          wrapPoint := at;
          line := Line(full[..at], [SPACE]);
        } else {
          wrapPoint := LINE_MAX_WIDTH - 1;
          line := Line(full, []);
        }
      }
    }

    /** Prints up to the wrap point and keeps what lies behind it. */
    method EndLine(ghost full: seq<byte>)
      requires HoldsFull(full)
      modifies this, buf
      ensures Valid() && View() == Put(Report(old(printed), full[..old(pos)]), full[old(pos)])
    {
      var wrapPoint;
      ghost var line;
      wrapPoint, line := ChooseWrapPoint(full);
      PrintLine(line);
      if pos == LINE_MAX_WIDTH - 1 {
        KeepRest(full, wrapPoint);
      } else {
        pos := 0;
      }
      assert buf[..pos] == full[wrapPoint + 1..];
    }

    /** A full buffer keeps what lies behind the wrap point. */
    method KeepRest(ghost full: seq<byte>, wrapPoint: nat)
      requires buf.Length == LINE_MAX_WIDTH + 1 && |full| == LINE_MAX_WIDTH && buf[LINE_MAX_WIDTH] == NUL
      requires pos == LINE_MAX_WIDTH - 1 && wrapPoint <= pos
      requires buf[wrapPoint + 1..LINE_MAX_WIDTH] == full[wrapPoint + 1..]
      modifies `pos, buf
      ensures pos == LINE_MAX_WIDTH - 1 - wrapPoint && buf[..pos] == full[wrapPoint + 1..]
      ensures buf[LINE_MAX_WIDTH] == NUL
    {
      ShiftDown(wrapPoint + 1);
      pos := pos - wrapPoint;
      assert forall k :: 0 <= k < pos ==> buf[k] == full[wrapPoint + 1..][k];
    }

    /** One character of the text. */
    method PutChar(character: nat)
      requires Valid()
      modifies this, buf
      ensures Valid() && View() == Put(old(View()), ToAscii(character))
    {
      var c := ToAscii(character);
      ghost var full := buf[..pos] + [c];
      buf[pos] := c;
      assert buf[..pos + 1] == full && full[..pos] == old(buf[..pos]);
      if c == NEWLINE || pos == LINE_MAX_WIDTH - 1 {
        EndLine(full);
        return;
      }
      pos := pos + 1;
    }

    method WriteStr(s: seq<nat>)
      requires Valid()
      modifies this, buf
      ensures Valid() && View() == PutAll(old(View()), AsciiText(s))
    {
      ghost var text := AsciiText(s);
      for i := 0 to |s|
        invariant Valid() && PutAll(View(), text[i..]) == PutAll(old(View()), text)
      {
        assert text[i..][0] == ToAscii(s[i]) && text[i..][1..] == text[i + 1..];
        PutChar(s[i]);
      }
      assert text[|s|..] == [];
    }
  }

  /** What a terminated text shows does not depend on what lies behind the terminator. */
  lemma {:induction false} Terminated(bs: seq<byte>, text: seq<byte>)
    requires |text| < |bs| && bs[..|text|] == text && bs[|text|] == NUL
    ensures Display(bs) == Display(text)
    decreases |text|
  {
    if text != [] {
      assert bs[0] == text[0];
      TerminatedTail(bs, text, 1);
      Terminated(bs[1..], text[1..]);
      if |text| >= 2 {
        assert bs[1] == text[1];
        TerminatedTail(bs, text, 2);
        Terminated(bs[2..], text[2..]);
      }
    }
  }

  lemma TerminatedTail(bs: seq<byte>, text: seq<byte>, n: nat)
    requires n <= |text| < |bs| && bs[..|text|] == text && bs[|text|] == NUL
    ensures bs[n..][..|text| - n] == text[n..] && bs[n..][|text| - n] == NUL
  {
  }
}

/** TI-68k text variables: wrapping and deep unwrapping (tifileutil/src/wrap.cc:519-567, 831-887). */
module WrapText {
  import opened Bytes
  import opened WrapBuffer

  const CR: byte := 0x0D
  const LF: byte := 0x0A
  const NORMAL_LINE: byte := 0x20
  const TEXT_TAG: byte := 0xE0

  predicate IsBreak(b: byte)
  {
    b == CR || b == LF
  }

  /** The text with every line ending, be it CR, LF or CR LF, written as CR: what unwrapping should give back. */
  function Normalised(s: bytes): (r: bytes)
    ensures |r| <= |s|
  {
    if s == [] then []
    else if s[0] == CR && |s| > 1 && s[1] == LF then [CR] + Normalised(s[2..])
    else [if s[0] == LF then CR else s[0]] + Normalised(s[1..])
  }

  // ----- wrapping -----

  /** Index of the first line ending, or `|s|`. */
  function LineEnd(s: bytes): (k: nat)
    ensures k <= |s| && (k < |s| ==> IsBreak(s[k]))
    ensures forall i :: 0 <= i < k ==> !IsBreak(s[i])
  {
    if s == [] || IsBreak(s[0]) then 0 else 1 + LineEnd(s[1..])
  }

  /** What is left behind the line that ends at `k`. */
  function AfterLine(s: bytes, k: nat): (r: bytes)
    requires k < |s|
    ensures |r| < |s|
  {
    if s[k] == CR && k + 1 < |s| && s[k + 1] == LF then s[k + 2..] else s[k + 1..]
  }

  function Lines(s: bytes): (r: bytes)
    decreases |s|
  {
    if s == [] then []
    else
      var k := LineEnd(s);
      [NORMAL_LINE] + s[..k] + (if k < |s| then [CR] + Lines(AfterLine(s, k)) else [])
  }

  function TextBody(s: bytes): bytes
  {
    [0, 1] + Lines(s) + (if s == [] then [] else [0]) + [TEXT_TAG]
  }

  /** The wrapped text variable. */
  function Wrapped(s: bytes): bytes
  {
    U16be(|TextBody(s)|) + TextBody(s)
  }

  // ----- unwrapping -----

  /** Index of the first CR or NUL, or `|t|`. */
  function Stop(t: bytes): (k: nat)
    ensures k <= |t| && (k < |t| ==> t[k] == CR || t[k] == 0)
    ensures forall i :: 0 <= i < k ==> t[i] != CR && t[i] != 0
  {
    if t == [] || t[0] == CR || t[0] == 0 then 0 else 1 + Stop(t[1..])
  }

  function UnLines(t: bytes): (r: bytes)
    ensures |r| <= |t|
    decreases |t|
  {
    if t == [] then []
    else
      var k := 1 + Stop(t[1..]);
      t[1..k] + (if k < |t| && t[k] == CR then [CR] + UnLines(t[k + 1..]) else [])
  }

  /** Start of the lines: behind the size field and the cursor position, as far as they are there. */
  function TextStart(size: nat): (start: nat)
    ensures start <= size
  {
    if size >= 4 then 4 else if size >= 2 then 2 else 0
  }

  function TextStop(data: bytes): (end: nat)
    ensures TextStart(|data|) <= end <= |data|
  {
    if |data| > TextStart(|data|) && data[|data| - 1] == TEXT_TAG then |data| - 1 else |data|
  }

  function Unwrapped(data: bytes): (r: bytes)
    ensures |r| <= TextStop(data) - TextStart(|data|)
  {
    UnLines(data[TextStart(|data|)..TextStop(data)])
  }

  // ----- lengths -----

  lemma {:induction false} LinesLength(s: bytes)
    ensures |Lines(s)| <= 2 * |s|
    decreases |s|
  {
    hide LineEnd;
    if s != [] {
      var k := LineEnd(s);
      if k < |s| {
        LinesLength(AfterLine(s, k));
      }
    }
  }

  /** A wrapped text is at most 2n + 6 bytes, so the 3n + 8 bytes allocated for it are enough. */
  lemma WrappedLength(s: bytes)
    ensures |Wrapped(s)| <= 2 * |s| + 6 <= 3 * |s| + 8
  {
    hide Lines, U16be;
    LinesLength(s);
    if s == [] {
      NoLines();
    }
  }

  lemma NoLines()
    ensures Lines([]) == []
  {
  }

  // ----- the round trip -----

  lemma {:induction false} NormalisedLine(a: bytes, rest: bytes)
    requires forall i :: 0 <= i < |a| ==> !IsBreak(a[i])
    ensures Normalised(a + rest) == a + Normalised(rest)
  {
    hide Normalised, IsBreak;
    if a == [] {
      assert a + rest == rest && [] + Normalised(rest) == Normalised(rest);
    } else {
      NormalisedLine(a[1..], rest);
      AppendTail(a, rest);
      NormalisedCharacter(a + rest);
      Assoc([a[0]], a[1..], Normalised(rest));
      assert a == [a[0]] + a[1..];
    }
  }

  lemma NormalisedCharacter(s: bytes)
    requires s != [] && !IsBreak(s[0])
    ensures Normalised(s) == [s[0]] + Normalised(s[1..])
  {
  }

  lemma NormalisedBreak(s: bytes)
    requires s != [] && IsBreak(s[0])
    ensures Normalised(s) == [CR] + Normalised(AfterLine(s, 0))
  {
  }

  /** Normalising goes line by line. */
  lemma NormalisedByLine(s: bytes)
    requires s != []
    ensures var k := LineEnd(s);
      Normalised(s) == s[..k] + (if k < |s| then [CR] + Normalised(AfterLine(s, k)) else [])
  {
    hide LineEnd, Normalised;
    var k := LineEnd(s);
    NormalisedLine(s[..k], s[k..]);
    assert s == s[..k] + s[k..];
    if k < |s| {
      NormalisedBreak(s[k..]);
      assert AfterLine(s[k..], 0) == AfterLine(s, k);
    } else {
      NothingNormalised(s[k..]);
    }
  }

  lemma NothingNormalised(s: bytes)
    ensures s == [] ==> Normalised(s) == []
  {
  }

  /** Reading one written line back. */
  lemma UnLine(a: bytes, c: byte, rest: bytes)
    requires NulFree(a) && (forall i :: 0 <= i < |a| ==> !IsBreak(a[i])) && (c == CR || c == 0)
    ensures UnLines([NORMAL_LINE] + a + [c] + rest) == a + (if c == CR then [CR] + UnLines(rest) else [])
  {
    hide Stop;
    var t := [NORMAL_LINE] + a + [c] + rest;
    assert t[1..] == a + [c] + rest;
    StopUnique(t[1..], |a|);
    assert t[1..1 + |a|] == a && t[1 + |a|] == c && t[|a| + 2..] == rest;
  }

  /** A line with a NUL in it is cut there, and nothing behind it is read. */
  lemma UnLineCut(a: bytes, rest: bytes)
    requires !NulFree(a) && forall i :: 0 <= i < |a| ==> !IsBreak(a[i])
    ensures |UnLines([NORMAL_LINE] + a + rest)| < |a|
  {
    hide Stop;
    var t := [NORMAL_LINE] + a + rest;
    var k := FirstNulIn(a);
    assert t[1..] == a + rest;
    StopUnique(t[1..], k);
    assert t[1 + k] == 0;
  }

  lemma FirstNulIn(a: bytes) returns (k: nat)
    requires !NulFree(a)
    ensures k < |a| && a[k] == 0 && forall i :: 0 <= i < k ==> a[i] != 0
  {
    hide FirstNul;
    k := FirstNul(a);
  }

  lemma {:induction false} LinesBack(s: bytes)
    ensures NulFree(s) ==> UnLines(Lines(s) + [0]) == Normalised(s)
    ensures !NulFree(s) ==> |UnLines(Lines(s) + [0])| < |Normalised(s)|
    decreases |s|
  {
    hide LineEnd, Stop, Normalised, UnLines, Lines;
    if s == [] {
      JustTheEnd();
      NoLines();
      assert Lines(s) + [0] == [0];
      NothingNormalised(s);
    } else {
      var k := LineEnd(s);
      var a := s[..k];
      NormalisedByLine(s);
      LinesThenEnd(s);
      if k < |s| {
        var rest := AfterLine(s, k);
        LinesBack(rest);
        if NulFree(a) {
          UnLine(a, CR, Lines(rest) + [0]);
          NulFreeLine(s, k);
        } else {
          Assoc([NORMAL_LINE] + a, [CR], Lines(rest) + [0]);
          UnLineCut(a, [CR] + (Lines(rest) + [0]));
        }
      } else {
        assert a == s;
        if NulFree(a) {
          UnLine(a, 0, []);
        } else {
          Assoc([NORMAL_LINE] + a, [0], []);
          UnLineCut(a, [0] + []);
        }
      }
    }
  }

  lemma LinesThenEnd(s: bytes)
    requires s != []
    ensures var k := LineEnd(s);
      Lines(s) + [0] == if k < |s| then [NORMAL_LINE] + s[..k] + [CR] + (Lines(AfterLine(s, k)) + [0])
                        else [NORMAL_LINE] + s[..k] + [0] + []
  {
    hide LineEnd, Lines, AfterLine;
    LinesOf(s);
    var k := LineEnd(s);
    if k < |s| {
      var line, rest := [NORMAL_LINE] + s[..k], Lines(AfterLine(s, k));
      Assoc(line, [CR] + rest, [0]);
      Assoc([CR], rest, [0]);
      Assoc(line, [CR], rest + [0]);
    } else {
      var line := [NORMAL_LINE] + s[..k];
      assert line + [] == line && line + [0] + [] == line + [0];
    }
  }

  lemma JustTheEnd()
    ensures UnLines([0]) == [] && UnLines([]) == []
  {
    assert [0][1..] == [];
  }

  lemma NulFreeLine(s: bytes, k: nat)
    requires k < |s| && IsBreak(s[k]) && NulFree(s[..k])
    ensures NulFree(s) <==> NulFree(AfterLine(s, k))
  {
    var rest := AfterLine(s, k);
    var skip := |s| - |rest|;
    if NulFree(s) {
      assert forall i :: 0 <= i < |rest| ==> rest[i] == s[skip + i];
    } else {
      var i := FirstNulIn(s);
      assert forall j :: 0 <= j < k ==> s[..k][j] == s[j];
      assert rest[i - skip] == 0;
    }
  }

  lemma BodyInside(s: bytes)
    ensures TextStart(|Wrapped(s)|) == 4 && TextStop(Wrapped(s)) == |Wrapped(s)| - 1
    ensures Wrapped(s)[4..|Wrapped(s)| - 1] == Lines(s) + (if s == [] then [] else [0])
  {
    hide Lines, U16be;
    var w := Wrapped(s);
    assert w == U16be(|TextBody(s)|) + [0, 1] + (Lines(s) + (if s == [] then [] else [0])) + [TEXT_TAG];
  }

  /**
   * Main result. Wrapping a text and unwrapping it gives the text with CR, LF and CR LF each written as CR, for every
   * text without NUL bytes (the empty one and the CR-terminated ones included); with a NUL byte it never does.
   */
  lemma UnwrapUndoesWrap(s: bytes)
    ensures Unwrapped(Wrapped(s)) == Normalised(s) <==> NulFree(s)
  {
    hide Lines, U16be, UnLines, Normalised, Wrapped, TextStart, TextStop;
    BodyInside(s);
    LinesBack(s);
    if s == [] {
      JustTheEnd();
      NoLines();
      assert Lines(s) + [0] == [0];
      NothingNormalised(s);
    }
  }

  // ----- the loops -----

  lemma LineEndUnique(s: bytes, k: nat)
    requires k <= |s| && (k < |s| ==> IsBreak(s[k])) && forall i :: 0 <= i < k ==> !IsBreak(s[i])
    ensures LineEnd(s) == k
  {
    hide LineEnd;
  }

  lemma LineEndIs(s: bytes, from: nat, k: nat)
    requires from <= k <= |s| && (k < |s| ==> IsBreak(s[k])) && forall i :: from <= i < k ==> !IsBreak(s[i])
    ensures LineEnd(s[from..]) == k - from
  {
    hide LineEnd;
    assert forall i :: 0 <= i < |s| - from ==> s[from..][i] == s[from + i];
    LineEndUnique(s[from..], k - from);
  }

  /** Copies one line without its ending; stops on the ending or at the end of the text. */
  method PutLine(data: array<byte>, size: nat, from: nat, newdata: array<byte>, outpos: nat) returns (i: nat, next: nat)
    requires from < size <= data.Length && outpos + 1 + (size - from) <= newdata.Length && data != newdata
    modifies newdata
    ensures from <= i <= size && i == from + LineEnd(data[..size][from..])
    ensures next == outpos + 1 + (i - from)
    ensures newdata[..next] == old(newdata[..outpos]) + ([NORMAL_LINE] + data[from..i])
  {
    hide LineEnd;
    i := from;
    while i < size && data[i] != CR && data[i] != LF
      invariant from <= i <= size
      invariant forall j :: from <= j < i ==> !IsBreak(data[..size][j])
    {
      i := i + 1;
    }
    LineEndIs(data[..size], from, i);
    Append(newdata, outpos, [NORMAL_LINE]);
    Append(newdata, outpos + 1, data[from..i]);
    next := outpos + 1 + (i - from);
    assert old(newdata[..outpos]) + [NORMAL_LINE] + data[from..i]
        == old(newdata[..outpos]) + ([NORMAL_LINE] + data[from..i]);
  }

  lemma LinesStep(s: bytes, from: nat, k: nat, done: bytes)
    requires from < |s| && k == LineEnd(s[from..]) && from + k <= |s|
    ensures from + k < |s| ==>
      done + Lines(s[from..]) == done + ([NORMAL_LINE] + s[from..from + k]) + [CR] + Lines(AfterLine(s[from..], k))
    ensures from + k == |s| ==> done + Lines(s[from..]) == done + ([NORMAL_LINE] + s[from..from + k])
  {
    hide LineEnd, Lines, AfterLine;
    var t := s[from..];
    LinesOf(t);
    assert t[..k] == s[from..from + k];
    var line := [NORMAL_LINE] + t[..k];
    if k < |t| {
      var rest := Lines(AfterLine(t, k));
      assert done + (line + ([CR] + rest)) == done + line + [CR] + rest;
    }
  }

  lemma LinesOf(s: bytes)
    requires s != []
    ensures Lines(s) == [NORMAL_LINE] + s[..LineEnd(s)]
      + (if LineEnd(s) < |s| then [CR] + Lines(AfterLine(s, LineEnd(s))) else [])
  {
    hide LineEnd;
  }

  function NextLine(s: bytes, k: nat): (i: nat)
    requires k < |s|
    ensures k < i <= |s|
  {
    if s[k] == CR && k + 1 < |s| && s[k + 1] == LF then k + 2 else k + 1
  }

  lemma RoundDone(s: bytes, from: nat, k: nat, done: bytes)
    requires from < |s| && k == from + LineEnd(s[from..]) && k <= |s|
    ensures k < |s| ==>
      done + ([NORMAL_LINE] + s[from..k]) + [CR] + Lines(s[NextLine(s, k)..]) == done + Lines(s[from..])
    ensures k == |s| ==> done + ([NORMAL_LINE] + s[from..k]) + Lines(s[k..]) == done + Lines(s[from..])
  {
    hide LineEnd, Lines, AfterLine;
    LinesStep(s, from, k - from, done);
    if k < |s| {
      AfterLineAt(s, from, k - from);
    } else {
      NoLinesAt(s, k);
      assert done + ([NORMAL_LINE] + s[from..k]) + [] == done + ([NORMAL_LINE] + s[from..k]);
    }
  }

  lemma AfterLineAt(s: bytes, from: nat, k: nat)
    requires from + k < |s|
    ensures AfterLine(s[from..], k) == s[NextLine(s, from + k)..]
  {
  }

  /** One round of the line loop: a line, and its ending written as CR when it has one. */
  method PutOne(data: array<byte>, size: nat, from: nat, newdata: array<byte>, outpos: nat) returns (i: nat, next: nat)
    requires from < size <= data.Length && outpos + 2 * (size - from) <= newdata.Length && data != newdata
    modifies newdata
    ensures from < i <= size && outpos < next <= outpos + 2 * (i - from)
    ensures newdata[..next] + Lines(data[..size][i..]) == old(newdata[..outpos]) + Lines(data[..size][from..])
  {
    hide LineEnd, Lines;
    ghost var s, done := data[..size], newdata[..outpos];
    i, next := PutLine(data, size, from, newdata, outpos);
    assert data[..size] == s;
    assert s[from..i] == data[from..i];
    RoundDone(s, from, i, done);
    if i < size {
      Append(newdata, next, [CR]);
      next := next + 1;
      i := if data[i] == CR && i + 1 < size && data[i + 1] == LF then i + 2 else i + 1;
    }
  }

  /** The line loop: everything from `outpos` 4 on, up to the end-of-file delimiter. */
  method PutLines(data: array<byte>, size: nat, newdata: array<byte>) returns (outpos: nat)
    requires size <= data.Length && newdata.Length == 3 * size + 8 && data != newdata
    modifies newdata
    ensures 4 <= outpos <= 4 + 2 * size && newdata[..outpos] == old(newdata[..4]) + Lines(data[..size])
    ensures outpos > 4 <==> size > 0
  {
    hide LineEnd, Lines;
    ghost var s, head := data[..size], newdata[..4];
    var i: nat := 0;
    outpos := 4;
    assert s[0..] == s;
    while i < size
      invariant i <= size && 4 <= outpos <= 4 + 2 * i && (i > 0 ==> outpos > 4) && data[..size] == s
      invariant newdata[..outpos] + Lines(s[i..]) == head + Lines(s)
    {
      i, outpos := PutOne(data, size, i, newdata, outpos);
    }
    NoLinesAt(s, i);
    assert newdata[..outpos] + [] == newdata[..outpos];
  }

  lemma NoLinesAt(s: bytes, i: nat)
    ensures i == |s| ==> Lines(s[i..]) == []
  {
  }

  /** Cursor position, lines, end-of-file delimiter and tag. */
  method PutBody(data: array<byte>, size: nat, newdata: array<byte>) returns (outpos: nat)
    requires size <= data.Length && newdata.Length == 3 * size + 8 && data != newdata
    modifies newdata
    ensures 2 <= outpos <= newdata.Length && newdata[2..outpos] == TextBody(data[..size])
  {
    hide Lines;
    ghost var s, head := data[..size], newdata[..2];
    Append(newdata, 2, [0x00, 0x01]);
    outpos := PutLines(data, size, newdata);
    assert data[..size] == s;
    if outpos > 4 {
      Append(newdata, outpos, [0x00]);
      outpos := outpos + 1;
    }
    Append(newdata, outpos, [TEXT_TAG]);
    outpos := outpos + 1;
    TextBodyIs(s, head);
    assert newdata[2..outpos] == newdata[..outpos][2..];
  }

  lemma TextBodyIs(s: bytes, head: bytes)
    requires |head| == 2
    ensures s == [] ==> (head + [0x00, 0x01] + Lines(s) + [TEXT_TAG])[2..] == TextBody(s)
    ensures s != [] ==> (head + [0x00, 0x01] + Lines(s) + [0x00] + [TEXT_TAG])[2..] == TextBody(s)
  {
    hide Lines;
    if s == [] {
      assert head + [0x00, 0x01] + Lines(s) + [TEXT_TAG] == head + TextBody(s);
    } else {
      assert head + [0x00, 0x01] + Lines(s) + [0x00] + [TEXT_TAG] == head + TextBody(s);
    }
  }

  /** The text branch of `tifileutil_wrap`: the new buffer and how much of it is used. */
  method WrapData(data: array<byte>, size: nat) returns (newdata: array<byte>, outpos: nat)
    requires size <= data.Length
    ensures fresh(newdata) && outpos <= newdata.Length && newdata[..outpos] == Wrapped(data[..size])
  {
    hide U16be, TextBody;
    ghost var s := data[..size];
    newdata := new byte[3 * size + 8](_ => 0);
    outpos := PutBody(data, size, newdata);
    assert newdata[2..outpos] == newdata[2..][..outpos - 2];
    PutU16be(newdata, 0, outpos - 2);
    assert newdata[2..outpos] == newdata[2..][..outpos - 2];
    assert newdata[..outpos] == newdata[..2] + newdata[2..outpos];
    assert data[..size] == s;
  }

  lemma StopIs(t: bytes, from: nat, k: nat)
    requires from <= k <= |t| && (k < |t| ==> t[k] == CR || t[k] == 0)
    requires forall i :: from <= i < k ==> t[i] != CR && t[i] != 0
    ensures Stop(t[from..]) == k - from
  {
    hide Stop;
    assert forall i :: 0 <= i < |t| - from ==> t[from..][i] == t[from + i];
    StopUnique(t[from..], k - from);
  }

  lemma StopUnique(t: bytes, k: nat)
    requires k <= |t| && (k < |t| ==> t[k] == CR || t[k] == 0) && forall i :: 0 <= i < k ==> t[i] != CR && t[i] != 0
    ensures Stop(t) == k
  {
    hide Stop;
  }

  lemma UnLinesStep(t: bytes, from: nat, k: nat)
    requires from < |t| && k == Stop(t[from + 1..]) && from + 1 + k <= |t|
    ensures UnLines(t[from..]) == t[from + 1..from + 1 + k]
      + (if from + 1 + k < |t| && t[from + 1 + k] == CR then [CR] + UnLines(t[from + k + 2..]) else [])
  {
    hide Stop, UnLines;
    var u := t[from..];
    UnLinesOf(u);
    assert u[1..] == t[from + 1..];
    assert u[1..1 + k] == t[from + 1..from + 1 + k];
    if from + 1 + k < |t| {
      assert u[1 + k] == t[from + 1 + k];
      assert u[k + 2..] == t[from + k + 2..];
    }
  }

  lemma UnLinesOf(u: bytes)
    requires u != []
    ensures var k := Stop(u[1..]);
      UnLines(u) == u[1..1 + k] + (if 1 + k < |u| && u[1 + k] == CR then [CR] + UnLines(u[k + 2..]) else [])
  {
    hide Stop;
  }

  /** One round of the unwrapping loop; `more` is false once the end-of-file delimiter has been read. */
  method TakeLine(data: array<byte>, from: nat, end: nat, outdata: array<byte>, outlen: nat)
    returns (pos: nat, next: nat, more: bool)
    requires from < end <= data.Length && outlen + (end - from) <= outdata.Length && data != outdata
    modifies outdata
    ensures from < pos <= end && outlen <= next && next + (end - pos) <= outdata.Length
    ensures outdata[..next] + (if more then UnLines(data[..end][pos..]) else [])
        == old(outdata[..outlen]) + UnLines(data[..end][from..])
  {
    hide UnLines, Stop;
    ghost var t, done := data[..end], outdata[..outlen];
    pos, next := CopyLine(data, from, end, outdata, outlen);
    assert data[..end] == t;
    TakenLine(t, from, pos - (from + 1), done);
    more := true;
    if pos < end && data[pos] == CR {
      Append(outdata, next, [CR]);
      next := next + 1;
      pos := pos + 1;
    } else if pos < end {
      pos := pos + 1;
      more := false;
    }
  }

  /** Copies a line, without its type byte and its ending. */
  method CopyLine(data: array<byte>, from: nat, end: nat, outdata: array<byte>, outlen: nat)
    returns (pos: nat, next: nat)
    requires from < end <= data.Length && outlen + (end - from) <= outdata.Length && data != outdata
    modifies outdata
    ensures from < pos <= end && pos - (from + 1) == Stop(data[..end][from + 1..])
      && next == outlen + (pos - (from + 1))
    ensures pos < end ==> data[pos] == CR || data[pos] == 0
    ensures outdata[..next] == old(outdata[..outlen]) + data[..end][from + 1..pos]
  {
    hide Stop;
    ghost var t := data[..end];
    pos := LineStop(data, from + 1, end);
    next := outlen + (pos - (from + 1));
    Append(outdata, outlen, data[from + 1..pos]);
    assert data[..end] == t;
    assert t[from + 1..pos] == data[from + 1..pos];
  }

  /** The scan for the end of a line. */
  method LineStop(data: array<byte>, from: nat, end: nat) returns (pos: nat)
    requires from <= end <= data.Length
    ensures from <= pos <= end && pos - from == Stop(data[..end][from..])
    ensures pos < end ==> data[pos] == CR || data[pos] == 0
  {
    hide Stop;
    pos := from;
    while pos < end && data[pos] != CR && data[pos] != 0x00
      invariant from <= pos <= end
      invariant forall j :: from <= j < pos ==> data[..end][j] != CR && data[..end][j] != 0
    {
      pos := pos + 1;
    }
    StopIs(data[..end], from, pos);
  }

  /** One round of the loop, on values. */
  lemma TakenLine(t: bytes, from: nat, k: nat, done: bytes)
    requires from < |t| && k == Stop(t[from + 1..]) && from + 1 + k <= |t|
    requires from + 1 + k < |t| ==> t[from + 1 + k] == CR || t[from + 1 + k] == 0
    ensures var pos, line := from + 1 + k, t[from + 1..from + 1 + k];
      && (pos < |t| && t[pos] == CR ==> done + line + [CR] + UnLines(t[pos + 1..]) == done + UnLines(t[from..]))
      && (pos < |t| && t[pos] != CR ==> done + line + [] == done + UnLines(t[from..]))
      && (pos == |t| ==> done + line + UnLines(t[pos..]) == done + UnLines(t[from..]))
  {
    hide Stop, UnLines;
    var pos, line := from + 1 + k, t[from + 1..from + 1 + k];
    UnLinesStep(t, from, k);
    if pos < |t| && t[pos] == CR {
      Assoc(line, [CR], UnLines(t[pos + 1..]));
      Assoc(done, line + [CR], UnLines(t[pos + 1..]));
      Assoc(done, line, [CR]);
    } else {
      NoUnLines(t, pos);
      assert line + [] == line && done + line + [] == done + line;
    }
  }

  lemma NoUnLines(t: bytes, i: nat)
    ensures i == |t| ==> UnLines(t[i..]) == []
  {
  }

  /** The text branch of `unwrap_deep_entry`. */
  method UnwrapData(data: array<byte>) returns (outdata: array<byte>, outlen: nat)
    ensures fresh(outdata) && outlen <= outdata.Length && outdata[..outlen] == Unwrapped(data[..])
  {
    hide UnLines;
    var start: nat, end := 0, data.Length;
    if start + 2 <= data.Length {
      start := start + 2;
    }
    if start + 2 <= data.Length {
      start := start + 2;
    }
    if end > start && data[end - 1] == TEXT_TAG {
      end := end - 1;
    }
    outdata := new byte[end - start](_ => 0);
    outlen := 0;
    var pos, more := start, true;
    ghost var t := data[..end];
    assert t[start..] == data[..][start..end];
    assert outdata[..0] + UnLines(t[start..]) == UnLines(t[start..]);
    while pos < end && more
      invariant start <= pos <= end && outlen + (end - pos) <= outdata.Length && data[..end] == t
      invariant outdata[..outlen] + (if more then UnLines(t[pos..]) else []) == UnLines(t[start..])
    {
      pos, outlen, more := TakeLine(data, pos, end, outdata, outlen);
    }
    NoUnLines(t, pos);
    assert outdata[..outlen] + [] == outdata[..outlen];
  }
}

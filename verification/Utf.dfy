/** Strict UTF-8 / UTF-16LE transcoding of resource names (webtilp/hp_prime_app.cpp:38-147). */
module Utf {
  import opened Bytes

  /** A Unicode scalar value. */
  type Scalar = n: int | 0 <= n < 0xD800 || 0xE000 <= n <= 0x10FFFF

  // ----- reference encoders -----

  /** The UTF-8 encoding of one scalar value, section 3 of RFC 3629. */
  function Utf8(c: Scalar): (r: bytes)
    ensures 1 <= |r| <= 4
  {
    if c < 0x80 then [c as byte]
    else if c < 0x800 then [Lead(0xC0, c / 0x40), Trail(c)]
    else if c < 0x1_0000 then [Lead(0xE0, c / 0x40 / 0x40), Trail(c / 0x40), Trail(c)]
    else [Lead(0xF0, c / 0x40 / 0x40 / 0x40), Trail(c / 0x40 / 0x40), Trail(c / 0x40), Trail(c)]
  }

  function Lead(mark: byte, bits: nat): byte
    requires mark as int + bits < 256
  {
    mark + bits as byte
  }

  /** A continuation byte carrying the low six bits of `c`. */
  function Trail(c: nat): byte
  {
    0x80 + (c % 0x40) as byte
  }

  /** The little-endian UTF-16 encoding of one scalar value, section 2.1 of RFC 2781. */
  function Utf16(c: Scalar): (r: bytes)
    ensures |r| == 2 || |r| == 4
  {
    if c < 0x1_0000 then U16le(c)
    else U16le(0xD800 + (c - 0x1_0000) / 0x400) + U16le(0xDC00 + (c - 0x1_0000) % 0x400)
  }

  function Utf8All(cs: seq<Scalar>): bytes
  {
    if cs == [] then [] else Utf8(cs[0]) + Utf8All(cs[1..])
  }

  function Utf16All(cs: seq<Scalar>): bytes
  {
    if cs == [] then [] else Utf16(cs[0]) + Utf16All(cs[1..])
  }

  // ----- reference grammars -----

  predicate Tail(b: byte)
  {
    0x80 <= b <= 0xBF
  }

  /** The scalar value of the UTF8-char production (section 4 of RFC 3629) at the head of `s`. */
  function Head8(s: bytes): Option<Scalar>
  {
    if |s| >= 1 && s[0] <= 0x7F then Some(s[0] as int)
    else if |s| >= 2 && 0xC2 <= s[0] <= 0xDF && Tail(s[1]) then
      Some(Push6((s[0] - 0xC0) as int, s[1]))
    else if |s| >= 3 && Tail(s[1]) && Tail(s[2]) && 0xE0 <= s[0] <= 0xEF
            && (s[0] == 0xE0 ==> 0xA0 <= s[1]) && (s[0] == 0xED ==> s[1] <= 0x9F) then
      Some(Push6(Push6((s[0] - 0xE0) as int, s[1]), s[2]))
    else if |s| >= 4 && Tail(s[1]) && Tail(s[2]) && Tail(s[3]) && 0xF0 <= s[0] <= 0xF4
            && (s[0] == 0xF0 ==> 0x90 <= s[1]) && (s[0] == 0xF4 ==> s[1] <= 0x8F) then
      Some(Push6(Push6(Push6((s[0] - 0xF0) as int, s[1]), s[2]), s[3]))
    else None
  }

  /** Appends the low six bits of `b` to `n`. */
  function Push6(n: nat, b: byte): (r: nat)
    ensures Tail(b) ==> r == n * 0x40 + b as int - 0x80
  {
    n * 0x40 + b as int % 0x40
  }

  lemma Push6Inverse(n: nat, b: byte)
    requires Tail(b)
    ensures Push6(n, b) / 0x40 == n && Trail(Push6(n, b)) == b
  {
  }

  /** The scalar value at the head of a little-endian UTF-16 stream, section 2.2 of RFC 2781. */
  function Head16(s: bytes): Option<Scalar>
  {
    if |s| < 2 then None
    else
      var w1 := GetU16le(s);
      if w1 < 0xD800 || w1 > 0xDFFF then Some(w1)
      else if w1 > 0xDBFF || |s| < 4 then None
      else
        var w2 := GetU16le(s[2..]);
        if 0xDC00 <= w2 <= 0xDFFF then Some(0x1_0000 + (w1 - 0xD800) * 0x400 + (w2 - 0xDC00)) else None
  }

  lemma Head8Fits(s: bytes)
    ensures Head8(s).Some? ==> StartsWith(s, Utf8(Head8(s).value))
  {
    hide Push6, Trail;
    if Head8(s).Some? && s[0] > 0x7F {
      if s[0] <= 0xDF {
        Push6Inverse((s[0] - 0xC0) as int, s[1]);
      } else if s[0] <= 0xEF {
        var n := (s[0] - 0xE0) as int;
        Push6Inverse(n, s[1]);
        Push6Inverse(Push6(n, s[1]), s[2]);
      } else {
        var n := (s[0] - 0xF0) as int;
        Push6Inverse(n, s[1]);
        Push6Inverse(Push6(n, s[1]), s[2]);
        Push6Inverse(Push6(Push6(n, s[1]), s[2]), s[3]);
      }
    }
  }

  lemma Head16Fits(s: bytes)
    ensures Head16(s).Some? ==> StartsWith(s, Utf16(Head16(s).value))
  {
    hide U16le, GetU16le;
    if Head16(s).Some? {
      GetU16leInverse(s);
      if |Utf16(Head16(s).value)| == 4 {
        GetU16leInverse(s[2..]);
        assert s[..4] == s[..2] + s[2..][..2];
      }
    }
  }

  /** The scalar values of a well-formed UTF-8 string, `None` for an ill-formed one. */
  function ScalarsOfUtf8(s: bytes): Option<seq<Scalar>>
    decreases |s|
  {
    if s == [] then Some([])
    else
      Head8Fits(s);
      match Head8(s)
      case None => None
      case Some(c) =>
        Prepend([c], ScalarsOfUtf8(s[|Utf8(c)|..]))
  }

  /** The scalar values of a well-formed UTF-16LE string, `None` for an ill-formed one. */
  function ScalarsOfUtf16(s: bytes): Option<seq<Scalar>>
    decreases |s|
  {
    if s == [] then Some([])
    else
      Head16Fits(s);
      match Head16(s)
      case None => None
      case Some(c) =>
        Prepend([c], ScalarsOfUtf16(s[|Utf16(c)|..]))
  }

  // ----- the grammars accept exactly the images of the encoders -----

  lemma Head8OfUtf8(c: Scalar, rest: bytes)
    ensures Head8(Utf8(c) + rest) == Some(c)
  {
    hide Push6, Trail;
    Push6Trail(c);
    Push6Trail(c / 0x40);
    Push6Trail(c / 0x40 / 0x40);
  }

  lemma Push6Trail(c: nat)
    ensures Push6(c / 0x40, Trail(c)) == c && Tail(Trail(c))
  {
  }

  lemma Head16OfUtf16(c: Scalar, rest: bytes)
    ensures Head16(Utf16(c) + rest) == Some(c)
  {
    hide U16le, GetU16le;
    if c >= 0x1_0000 {
      var hi, lo := 0xD800 + (c - 0x1_0000) / 0x400, 0xDC00 + (c - 0x1_0000) % 0x400;
      assert (Utf16(c) + rest)[2..] == U16le(lo) + rest;
      U16leInverse(lo, rest);
      assert Utf16(c) + rest == U16le(hi) + (U16le(lo) + rest);
      U16leInverse(hi, U16le(lo) + rest);
    } else {
      U16leInverse(c, rest);
    }
  }

  lemma {:induction false} Utf8Accepted(cs: seq<Scalar>)
    ensures ScalarsOfUtf8(Utf8All(cs)) == Some(cs)
  {
    if cs != [] {
      Head8OfUtf8(cs[0], Utf8All(cs[1..]));
      assert Utf8All(cs)[|Utf8(cs[0])|..] == Utf8All(cs[1..]);
      Utf8Accepted(cs[1..]);
      assert [cs[0]] + cs[1..] == cs;
    }
  }

  /** ASCII text is its own UTF-8 form, and takes two bytes a character in UTF-16. */
  lemma {:induction false} AsciiIsWellFormed(s: bytes)
    requires forall i :: 0 <= i < |s| ==> s[i] < 0x80
    ensures ToUtf16(s).Some? && |ToUtf16(s).value| == 2 * |s|
  {
    if s != [] {
      AsciiIsWellFormed(s[1..]);
      AsciiHead(s);
    }
  }

  lemma AsciiHead(s: bytes)
    requires s != [] && s[0] < 0x80
    ensures var c := s[0] as Scalar;
      ScalarsOfUtf8(s) == Prepend([c], ScalarsOfUtf8(s[1..])) && |Utf16(c)| == 2
  {
  }

  lemma {:induction false} Utf16Accepted(cs: seq<Scalar>)
    ensures ScalarsOfUtf16(Utf16All(cs)) == Some(cs)
  {
    if cs != [] {
      Head16OfUtf16(cs[0], Utf16All(cs[1..]));
      assert Utf16All(cs)[|Utf16(cs[0])|..] == Utf16All(cs[1..]);
      Utf16Accepted(cs[1..]);
      assert [cs[0]] + cs[1..] == cs;
    }
  }

  lemma {:induction false} Utf8Unique(s: bytes)
    ensures ScalarsOfUtf8(s).Some? ==> Utf8All(ScalarsOfUtf8(s).value) == s
    decreases |s|
  {
    if s != [] && ScalarsOfUtf8(s).Some? {
      Head8Fits(s);
      Utf8Unique(s[|Utf8(Head8(s).value)|..]);
    }
  }

  lemma {:induction false} Utf16Unique(s: bytes)
    ensures ScalarsOfUtf16(s).Some? ==> Utf16All(ScalarsOfUtf16(s).value) == s
    decreases |s|
  {
    if s != [] && ScalarsOfUtf16(s).Some? {
      Head16Fits(s);
      Utf16Unique(s[|Utf16(Head16(s).value)|..]);
    }
  }

  lemma {:induction false} Utf8AllAppend(cs: seq<Scalar>, c: Scalar)
    ensures Utf8All(cs + [c]) == Utf8All(cs) + Utf8(c)
  {
    if cs == [] {
      assert cs + [c] == [c];
    } else {
      assert (cs + [c])[1..] == cs[1..] + [c];
      Utf8AllAppend(cs[1..], c);
    }
  }

  lemma {:induction false} Utf16AllAppend(cs: seq<Scalar>, c: Scalar)
    ensures Utf16All(cs + [c]) == Utf16All(cs) + Utf16(c)
  {
    if cs == [] {
      assert cs + [c] == [c];
    } else {
      assert (cs + [c])[1..] == cs[1..] + [c];
      Utf16AllAppend(cs[1..], c);
    }
  }

  // ----- the transcoders -----

  /** What `decode_utf16le` computes. */
  function ToUtf8(data: bytes): Option<bytes>
  {
    match ScalarsOfUtf16(data)
    case None => None
    case Some(cs) => Some(Utf8All(cs))
  }

  /** What `encode_utf16le` computes. */
  function ToUtf16(input: bytes): Option<bytes>
  {
    match ScalarsOfUtf8(input)
    case None => None
    case Some(cs) => Some(Utf16All(cs))
  }

  /** The transcoders are mutually inverse: each accepts exactly the other's outputs. */
  lemma TranscodingIsBijective(a: bytes, b: bytes)
    ensures ToUtf8(a) == Some(b) <==> ToUtf16(b) == Some(a)
  {
    Utf16Unique(a);
    Utf8Unique(b);
    if ToUtf8(a) == Some(b) {
      Utf8Accepted(ScalarsOfUtf16(a).value);
    }
    if ToUtf16(b) == Some(a) {
      Utf16Accepted(ScalarsOfUtf8(b).value);
    }
  }

  method AppendUtf8(output: bytes, codepoint: Scalar) returns (r: bytes)
    ensures r == output + Utf8(codepoint)
  {
    r := output;
    if codepoint <= 0x7F {
      r := r + [codepoint as byte];
    } else if codepoint <= 0x7FF {
      r := r + [0xC0 + (codepoint / 0x40) as byte];
      r := r + [Trail(codepoint)];
    } else if codepoint <= 0xFFFF {
      r := r + [0xE0 + (codepoint / 0x1000) as byte];
      r := r + [Trail(codepoint / 0x40)];
      r := r + [Trail(codepoint)];
    } else {
      r := r + [0xF0 + (codepoint / 0x4_0000) as byte];
      r := r + [Trail(codepoint / 0x1000)];
      r := r + [Trail(codepoint / 0x40)];
      r := r + [Trail(codepoint)];
    }
  }

  method AppendUtf16(output: bytes, scalar: Scalar) returns (r: bytes)
    ensures r == output + Utf16(scalar)
  {
    var codepoint: nat := scalar;
    if codepoint <= 0xFFFF {
      r := output + U16le(codepoint);
    } else {
      codepoint := codepoint - 0x1_0000;
      var high, low := 0xD800 + codepoint / 0x400, 0xDC00 + codepoint % 0x400;
      r := output + U16le(high);
      r := r + U16le(low);
    }
  }

  lemma Step16(data: bytes, offset: nat, done: seq<Scalar>)
    requires offset < |data|
    requires ScalarsOfUtf16(data) == Prepend(done, ScalarsOfUtf16(data[offset..]))
    ensures match Head16(data[offset..])
            case None => ScalarsOfUtf16(data).None?
            case Some(c) =>
              && offset + |Utf16(c)| <= |data|
              && ScalarsOfUtf16(data) == Prepend(done + [c], ScalarsOfUtf16(data[offset + |Utf16(c)|..]))
  {
    hide Head16, Utf16;
    var rest := data[offset..];
    Head16Fits(rest);
    if Head16(rest).Some? {
      var c := Head16(rest).value;
      assert rest[|Utf16(c)|..] == data[offset + |Utf16(c)|..];
      PrependStep(done, c, ScalarsOfUtf16(rest[|Utf16(c)|..]));
    }
  }

  lemma Step8(data: bytes, offset: nat, done: seq<Scalar>)
    requires offset < |data|
    requires ScalarsOfUtf8(data) == Prepend(done, ScalarsOfUtf8(data[offset..]))
    ensures match Head8(data[offset..])
            case None => ScalarsOfUtf8(data).None?
            case Some(c) =>
              && offset + |Utf8(c)| <= |data|
              && ScalarsOfUtf8(data) == Prepend(done + [c], ScalarsOfUtf8(data[offset + |Utf8(c)|..]))
  {
    hide Head8, Utf8;
    var rest := data[offset..];
    Head8Fits(rest);
    if Head8(rest).Some? {
      var c := Head8(rest).value;
      assert rest[|Utf8(c)|..] == data[offset + |Utf8(c)|..];
      PrependStep(done, c, ScalarsOfUtf8(rest[|Utf8(c)|..]));
    }
  }

  lemma {:induction false} OddIsIllFormed(data: bytes)
    ensures |data| % 2 != 0 ==> ScalarsOfUtf16(data).None?
    decreases |data|
  {
    if data != [] && Head16(data).Some? {
      Head16Fits(data);
      OddIsIllFormed(data[|Utf16(Head16(data).value)|..]);
    }
  }

  /** The body of the `decode_utf16le` loop up to the accepted code point. */
  method ReadUtf16(data: bytes, start: nat) returns (r: Option<Scalar>, offset: nat)
    requires start < |data| && (|data| - start) % 2 == 0
    ensures r == Head16(data[start..])
    ensures r.Some? ==> offset == start + |Utf16(r.value)|
  {
    offset := start;
    var codepoint := GetU16le(data[offset..]);
    if 0xD800 <= codepoint <= 0xDBFF {
      if |data| - offset < 4 {
        return None, offset;
      }
      assert data[offset..][2..] == data[offset + 2..];
      var low := GetU16le(data[offset + 2..]);
      if low < 0xDC00 || low > 0xDFFF {
        return None, offset;
      }
      codepoint := 0x1_0000 + (codepoint - 0xD800) * 0x400 + (low - 0xDC00);
      offset := offset + 2;
    } else if 0xDC00 <= codepoint <= 0xDFFF {
      return None, offset;
    }
    r, offset := Some(codepoint), offset + 2;
  }

  lemma NoUnits(data: bytes)
    ensures Utf8All([]) == []
    ensures data == [] ==> ScalarsOfUtf16(data) == Some([])
  {
  }

  /** `decode_utf16le`: a failed decode is reported by `None`. */
  method DecodeUtf16le(data: bytes) returns (r: Option<bytes>)
    ensures r == ToUtf8(data)
  {
    hide Head16, Utf16, Utf8, GetU16le, ScalarsOfUtf16, Utf8All;
    var offset, output: bytes := 0, [];
    ghost var done: seq<Scalar> := [];
    if |data| % 2 != 0 {
      OddIsIllFormed(data);
      return None;
    }
    assert data[0..] == data;
    NoUnits(data[offset..]);
    while offset < |data|
      invariant 0 <= offset <= |data| && (|data| - offset) % 2 == 0
      invariant output == Utf8All(done)
      invariant ScalarsOfUtf16(data) == Prepend(done, ScalarsOfUtf16(data[offset..]))
    {
      Step16(data, offset, done);
      var codepoint;
      codepoint, offset := ReadUtf16(data, offset);
      if codepoint.None? {
        return None;
      }
      output := AppendUtf8(output, codepoint.value);
      Utf8AllAppend(done, codepoint.value);
      done := done + [codepoint.value];
    }
    NoUnits(data[offset..]);
    assert done + [] == done;
    r := Some(output);
  }

  /** The bits left in a lead byte once its length mark is removed. */
  function LeadBits(first: byte, continuation: nat): nat
    requires continuation <= 3
  {
    if continuation == 0 then first as int
    else if continuation == 1 then first as int % 0x20
    else if continuation == 2 then first as int % 0x10
    else first as int % 0x08
  }

  predicate Marked(first: byte, continuation: nat)
  {
    if continuation == 0 then first <= 0x7F
    else if continuation == 1 then 0xC2 <= first <= 0xDF
    else if continuation == 2 then 0xE0 <= first <= 0xEF
    else 0xF0 <= first <= 0xF7
  }

  predicate OutOfRange(continuation: nat, codepoint: nat)
  {
    || (continuation == 2 && codepoint < 0x800)
    || (continuation == 3 && codepoint < 0x1_0000)
    || codepoint > 0x10FFFF
    || 0xD800 <= codepoint <= 0xDFFF
  }

  /** The range tests on the assembled code point are the second-byte restrictions of the grammar. */
  lemma Judge(s: bytes, continuation: nat, codepoint: nat)
    requires continuation <= 3 && continuation < |s| && Marked(s[0], continuation)
    requires forall k :: 1 <= k <= continuation ==> Tail(s[k])
    requires var lead := LeadBits(s[0], continuation);
      codepoint == if continuation == 0 then lead
                   else if continuation == 1 then Push6(lead, s[1])
                   else if continuation == 2 then Push6(Push6(lead, s[1]), s[2])
                   else Push6(Push6(Push6(lead, s[1]), s[2]), s[3])
    ensures if OutOfRange(continuation, codepoint) then Head8(s).None?
            else Head8(s) == Some(codepoint) && |Utf8(codepoint)| == 1 + continuation
  {
    hide Trail;
    var lead := LeadBits(s[0], continuation);
    if continuation == 1 {
      assert lead == (s[0] - 0xC0) as int && Tail(s[1]);
    } else if continuation == 2 {
      assert lead == (s[0] - 0xE0) as int && Tail(s[1]) && Tail(s[2]);
      assert OutOfRange(2, codepoint) <==> (s[0] == 0xE0 && s[1] < 0xA0) || (s[0] == 0xED && s[1] > 0x9F);
    } else if continuation == 3 {
      assert lead == (s[0] - 0xF0) as int && Tail(s[1]) && Tail(s[2]) && Tail(s[3]);
      assert OutOfRange(3, codepoint) <==>
        (s[0] == 0xF0 && s[1] < 0x90) || (s[0] == 0xF4 && s[1] > 0x8F) || s[0] > 0xF4;
    }
  }

  /** The body of the `encode_utf16le` loop up to the accepted code point. */
  method ReadUtf8(input: bytes, start: nat) returns (r: Option<Scalar>, cursor: nat)
    requires start < |input|
    ensures r == Head8(input[start..])
    ensures r.Some? ==> cursor == start + |Utf8(r.value)|
  {
    hide Utf8, Push6;
    ghost var rest := input[start..];
    var codepoint, continuation;
    cursor := start;
    var first := input[cursor];
    cursor := cursor + 1;
    if first < 0x80 {
      codepoint, continuation := first as int, 0;
    } else if first / 0x20 == 0x06 {
      codepoint, continuation := (first % 0x20) as int, 1;
      if codepoint < 2 {
        return None, cursor;
      }
    } else if first / 0x10 == 0x0E {
      codepoint, continuation := (first % 0x10) as int, 2;
    } else if first / 0x08 == 0x1E {
      codepoint, continuation := (first % 0x08) as int, 3;
    } else {
      return None, cursor;
    }
    if |input| - cursor < continuation {
      return None, cursor;
    }
    ghost var lead := codepoint;
    var i := 0;
    while i < continuation
      invariant 0 <= i <= continuation <= 3 && cursor == start + 1 + i <= |input|
      invariant forall k :: 1 <= k <= i ==> Tail(rest[k])
      invariant i == 0 ==> codepoint == lead
      invariant i == 1 ==> codepoint == Push6(lead, rest[1])
      invariant i == 2 ==> codepoint == Push6(Push6(lead, rest[1]), rest[2])
      invariant i == 3 ==> codepoint == Push6(Push6(Push6(lead, rest[1]), rest[2]), rest[3])
    {
      assert input[cursor] == rest[1 + i];
      if input[cursor] / 0x40 != 0x02 {
        assert !Tail(rest[1 + i]);
        return None, cursor;
      }
      codepoint := Push6(codepoint, input[cursor]);
      cursor := cursor + 1;
      i := i + 1;
    }
    Judge(rest, continuation, codepoint);
    if (continuation == 2 && codepoint < 0x800)
       || (continuation == 3 && codepoint < 0x1_0000)
       || codepoint > 0x10FFFF
       || 0xD800 <= codepoint <= 0xDFFF {
      return None, cursor;
    }
    r := Some(codepoint);
  }

  /** `encode_utf16le`: a failed encode is reported by `None`. */
  method EncodeUtf16le(input: bytes) returns (r: Option<bytes>)
    ensures r == ToUtf16(input)
  {
    hide Head8, Utf16, Utf8;
    var cursor, output: bytes := 0, [];
    ghost var done: seq<Scalar> := [];
    assert input[0..] == input;
    while cursor < |input|
      invariant 0 <= cursor <= |input|
      invariant output == Utf16All(done)
      invariant ScalarsOfUtf8(input) == Prepend(done, ScalarsOfUtf8(input[cursor..]))
    {
      Step8(input, cursor, done);
      var next;
      next, cursor := ReadUtf8(input, cursor);
      if next.None? {
        return None;
      }
      Utf16AllAppend(done, next.value);
      done := done + [next.value];
      output := AppendUtf16(output, next.value);
    }
    assert done + [] == done;
    r := Some(output);
  }
}

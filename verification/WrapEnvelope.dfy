/** TI-68k assembly, string and custom variables (tifileutil/src/wrap.cc:433-518, 770-830). */
module WrapEnvelope {
  import opened Bytes
  import opened WrapBuffer

  const ASM_TAG: byte := 0xF3
  const STR_TAG: byte := 0x2D
  const OTH_TAG: byte := 0xF8

  /** Where the payload starts: behind the size field, when there is room for one. */
  function Start(size: nat): (start: nat)
    ensures start <= size
  {
    if size >= 2 then 2 else 0
  }

  // ----- assembly programs -----

  function AsmWrapped(s: bytes): bytes
  {
    U16be(|s| + 1) + s + [ASM_TAG]
  }

  function AsmUnwrapped(d: bytes): bytes
  {
    var start := Start(|d|);
    if |d| > start && d[|d| - 1] == ASM_TAG then d[start..|d| - 1] else d[start..]
  }

  lemma AsmRoundTrip(s: bytes)
    ensures AsmUnwrapped(AsmWrapped(s)) == s
  {
    hide U16be;
  }

  // ----- strings -----

  function StrWrapped(s: bytes): bytes
  {
    U16be(|s| + 3) + [0] + s + [0, STR_TAG]
  }

  function StrStart(d: bytes): (start: nat)
    ensures start <= |d|
  {
    if |d| > Start(|d|) && d[Start(|d|)] == 0 then Start(|d|) + 1 else Start(|d|)
  }

  function StrUnwrapped(d: bytes): bytes
  {
    var start := StrStart(d);
    if |d| > start + 1 && d[|d| - 2] == 0 && d[|d| - 1] == STR_TAG then d[start..|d| - 2] else d[start..]
  }

  /** Exact for every byte string, NUL bytes and embedded tags included. */
  lemma StrRoundTrip(s: bytes)
    ensures StrUnwrapped(StrWrapped(s)) == s
  {
    hide U16be;
  }

  // ----- custom variables -----

  /** At most four characters of the extension are kept. */
  function Kept(ext: bytes): (e: bytes)
    ensures |e| <= 4 && |e| <= |ext|
    ensures forall i :: 0 <= i < |e| ==> e[i] == ext[i]
  {
    if |ext| > 4 then ext[..4] else ext
  }

  function Footer(ext: bytes): bytes
  {
    [0] + Kept(ext) + [0, OTH_TAG]
  }

  /** Without an extension neither size field nor footer is written. */
  function OthWrapped(s: bytes, ext: bytes): bytes
  {
    if ext == [] then s else U16be(|s + Footer(ext)|) + (s + Footer(ext))
  }

  predicate IsSeparator(d: bytes, start: nat, n: nat)
    requires start <= |d|
  {
    |d| >= start + 3 + n && d[|d| - 1] == OTH_TAG && d[|d| - 2] == 0 && d[|d| - 3 - n] == 0
  }

  /** The NUL in front of an extension of `n` to four characters, the shortest first; 0 when there is none. */
  function Separator(d: bytes, start: nat, n: nat): (k: nat)
    requires start <= |d|
    ensures k <= |d|
    decreases 5 - n
  {
    if n > 4 then 0 else if IsSeparator(d, start, n) then |d| - 3 - n else Separator(d, start, n + 1)
  }

  function OthUnwrapped(d: bytes): bytes
  {
    var start := Start(|d|);
    var k := Separator(d, start, 1);
    if k > start then d[start..k] else d[start..]
  }

  lemma {:induction false} SeparatorFound(d: bytes, start: nat, n: nat, len: nat)
    requires start <= |d| && 1 <= n <= len <= 4 && IsSeparator(d, start, len)
    requires forall i :: |d| - 2 - len <= i < |d| - 2 ==> d[i] != 0
    ensures Separator(d, start, n) == |d| - 3 - len
    decreases len - n
  {
    if n < len {
      assert d[|d| - 3 - n] != 0;
      SeparatorFound(d, start, n + 1, len);
    }
  }

  lemma MiddleAt(front: bytes, e: bytes, back: bytes)
    ensures forall i :: |front| <= i < |front| + |e| ==> (front + e + back)[i] == e[i - |front|]
  {
  }

  /** An extension is found again, and the data in front of it is given back unless there is none. */
  lemma WithExtension(s: bytes, ext: bytes)
    requires NulFree(ext) && ext != []
    ensures OthUnwrapped(OthWrapped(s, ext)) == if s != [] then s else Footer(ext)
  {
    hide U16be, Separator;
    var e := Kept(ext);
    var front, back := U16be(|s + Footer(ext)|) + s + [0], [0, OTH_TAG];
    var d := front + e + back;
    assert OthWrapped(s, ext) == d;
    FooterFound(front, e);
    assert d[2..2 + |s|] == s && d[2..] == s + Footer(ext);
  }

  lemma FooterFound(front: bytes, e: bytes)
    requires |front| >= 3 && front[|front| - 1] == 0 && 1 <= |e| <= 4 && NulFree(e)
    ensures Separator(front + e + [0, OTH_TAG], 2, 1) == |front| - 1
  {
    hide Separator;
    var d := front + e + [0, OTH_TAG];
    MiddleAt(front, e, [0, OTH_TAG]);
    assert d[|d| - 1] == OTH_TAG && d[|d| - 2] == 0 && d[|front| - 1] == front[|front| - 1];
    SeparatorFound(d, 2, 1, |e|);
  }

  lemma WithoutExtension(s: bytes)
    ensures OthUnwrapped(s) == s <==> |s| < 2
  {
    hide Separator;
    if |s| < 2 {
      TooShort(s, 1);
    }
  }

  lemma {:induction false} TooShort(d: bytes, n: nat)
    requires |d| < 2
    ensures Separator(d, 0, n) == 0
    decreases 5 - n
  {
    if n <= 4 {
      TooShort(d, n + 1);
    }
  }

  /**
   * Custom variables round trip exactly when there is data to keep apart from the extension. Without an extension no
   * envelope is written, and unwrapping takes two bytes of the data for a size field.
   */
  lemma OthRoundTrip(s: bytes, ext: bytes)
    requires NulFree(ext)
    ensures OthUnwrapped(OthWrapped(s, ext)) == s <==> if ext == [] then |s| < 2 else s != []
  {
    hide OthUnwrapped;
    if ext == [] {
      WithoutExtension(s);
    } else {
      WithExtension(s, ext);
    }
  }

  // ----- in place, as the commands do it -----

  /** The assembly branch of `tifileutil_wrap`. */
  method WrapAsm(data: array<byte>, size: nat) returns (a: array<byte>, n: nat)
    requires size <= data.Length
    modifies data
    ensures n <= a.Length && a[..n] == AsmWrapped(old(data[..size]))
  {
    hide U16be;
    a, n := Surround(data, size, U16be(size + 1), [ASM_TAG]);
  }

  /** The string branch of `tifileutil_wrap`. */
  method WrapStr(data: array<byte>, size: nat) returns (a: array<byte>, n: nat)
    requires size <= data.Length
    modifies data
    ensures n <= a.Length && a[..n] == StrWrapped(old(data[..size]))
  {
    hide U16be;
    a, n := Surround(data, size, U16be(size + 3) + [0], [0, STR_TAG]);
  }

  /** The extension footer, character by character. */
  method AppendFooter(data: array<byte>, size: nat, ext: bytes) returns (a: array<byte>, n: nat)
    requires size <= data.Length && ext != []
    modifies data
    ensures a == data || fresh(a)
    ensures n <= a.Length && a[..n] == old(data[..size]) + Footer(ext)
  {
    hide Kept;
    a := Grow(data, size, size + 7);
    Append(a, size, [0]);
    n := size + 1;
    assert ext[..0] == [] && forall x: bytes :: x + [] == x;
    var i: nat := 0;
    while i < 4 && i < |ext|
      invariant i <= 4 && i <= |ext| && n == size + 1 + i && a.Length >= size + 7
      invariant a[..n] == old(data[..size]) + [0] + ext[..i]
    {
      Append(a, n, [ext[i]]);
      OneMore(old(data[..size]) + [0], ext, i);
      n := n + 1;
      i := i + 1;
    }
    KeptIs(ext, i);
    Append(a, n, [0, OTH_TAG]);
    n := n + 2;
    assert old(data[..size]) + [0] + Kept(ext) + [0, OTH_TAG] == old(data[..size]) + Footer(ext);
  }

  lemma OneMore(front: bytes, ext: bytes, i: nat)
    requires i < |ext|
    ensures front + ext[..i] + [ext[i]] == front + ext[..i + 1]
  {
  }

  lemma KeptIs(ext: bytes, i: nat)
    requires i <= 4 && i <= |ext| && (i == 4 || i == |ext|)
    ensures ext[..i] == Kept(ext)
  {
  }

  /** The custom-variable branches of `tifileutil_wrap`: the footer first, then the size field in front. */
  method WrapOth(data: array<byte>, size: nat, ext: bytes) returns (a: array<byte>, n: nat)
    requires size <= data.Length
    modifies data
    ensures n <= a.Length && a[..n] == OthWrapped(old(data[..size]), ext)
  {
    hide U16be, Footer;
    assert forall x: bytes :: x + [] == x;
    a, n := data, size;
    if ext != [] {
      a, n := AppendFooter(data, size, ext);
      a, n := Surround(a, n, U16be(n), []);
    }
  }

  /** The assembly branch of `unwrap_deep_entry`. */
  method UnwrapAsm(data: array<byte>) returns (out: array<byte>)
    ensures fresh(out) && out[..] == AsmUnwrapped(data[..])
  {
    var start, end := 0, data.Length;
    if start + 2 <= data.Length {
      start := start + 2;
    }
    if end > start && data[end - 1] == ASM_TAG {
      end := end - 1;
    }
    out := CopyOut(data, start, end);
  }

  /** The string branch of `unwrap_deep_entry`. */
  method UnwrapStr(data: array<byte>) returns (out: array<byte>)
    ensures fresh(out) && out[..] == StrUnwrapped(data[..])
  {
    var start, end := 0, data.Length;
    if start + 2 <= data.Length {
      start := start + 2;
    }
    if end > start && data[start] == 0x00 {
      start := start + 1;
    }
    if end > start + 1 && data[end - 2] == 0x00 && data[end - 1] == STR_TAG {
      end := end - 2;
    }
    out := CopyOut(data, start, end);
  }

  /** The custom-variable branch of `unwrap_deep_entry`. */
  method UnwrapOth(data: array<byte>) returns (out: array<byte>)
    ensures fresh(out) && out[..] == OthUnwrapped(data[..])
  {
    hide Separator;
    var start, end, separator := 0, data.Length, 0;
    if start + 2 <= data.Length {
      start := start + 2;
    }
    ghost var d := data[..];
    var extlen: nat := 1;
    while extlen <= 4 && separator == 0
      invariant 1 <= extlen <= 5 && 0 <= separator <= end && data[..] == d
      invariant separator == 0 ==> Separator(d, start, 1) == Separator(d, start, extlen)
      invariant separator != 0 ==> separator == Separator(d, start, 1)
    {
      SeparatorStep(d, start, extlen);
      if end >= start + 3 + extlen && data[end - 1] == OTH_TAG && data[end - 2] == 0x00
        && data[end - 3 - extlen] == 0x00 {
        separator := end - 3 - extlen;
      }
      extlen := extlen + 1;
    }
    SeparatorStep(d, start, extlen);
    if separator > start {
      end := separator;
    }
    out := CopyOut(data, start, end);
  }

  lemma SeparatorStep(d: bytes, start: nat, n: nat)
    requires start == Start(|d|)
    ensures n > 4 ==> Separator(d, start, n) == 0
    ensures n <= 4 && IsSeparator(d, start, n) ==> Separator(d, start, n) == |d| - 3 - n && |d| - 3 - n > 0
    ensures n <= 4 && !IsSeparator(d, start, n) ==> Separator(d, start, n) == Separator(d, start, n + 1)
  {
  }
}

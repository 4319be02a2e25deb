/** Byte strings, fixed-width integers and ASCII case folding, shared by every codec. */
module Bytes {

  newtype byte = n: int | 0 <= n < 256
  type bytes = seq<byte>

  datatype Option<+T> = None | Some(value: T)

  /** Puts the items already read in front of the outcome of reading the rest. */
  function Prepend<T>(done: seq<T>, rest: Option<seq<T>>): (r: Option<seq<T>>)
    ensures done == [] ==> r == rest
    ensures rest.None? ==> r.None?
  {
    match rest
    case None => None
    case Some(ts) =>
      assert done == [] ==> done + ts == ts;
      Some(done + ts)
  }

  lemma PrependStep<T>(done: seq<T>, t: T, rest: Option<seq<T>>)
    ensures Prepend(done, Prepend([t], rest)) == Prepend(done + [t], rest)
  {
    if rest.Some? {
      assert done + ([t] + rest.value) == done + [t] + rest.value;
    }
  }

  lemma Assoc<T>(a: seq<T>, b: seq<T>, c: seq<T>)
    ensures a + (b + c) == a + b + c
  {
  }

  lemma AppendTail<T>(a: seq<T>, b: seq<T>)
    requires a != []
    ensures (a + b)[0] == a[0] && (a + b)[1..] == a[1..] + b
  {
  }

  lemma SliceOfSlice<T>(s: seq<T>, a: nat, b: nat, i: nat, j: nat)
    requires a <= b <= |s| && i <= j <= b - a
    ensures s[a..b][i..j] == s[a + i..a + j]
  {
    var x, y := s[a..b][i..j], s[a + i..a + j];
    assert |x| == |y|;
    forall k | 0 <= k < |x| ensures x[k] == y[k] {
      assert x[k] == s[a..b][i + k] == s[a + (i + k)];
    }
  }

  const TWO_16 := 0x1_0000
  const TWO_32 := 0x1_0000_0000

  /** The low eight bits of `n`: a C++ `(uint8_t)n`. */
  function Low8(n: nat): byte
  {
    (n % 0x100) as byte
  }

  // ----- little-endian and big-endian words -----

  function U16le(n: nat): (b: bytes)
    ensures |b| == 2
  {
    [Low8(n), Low8(n / 0x100)]
  }

  function GetU16le(b: bytes): (n: nat)
    requires |b| >= 2
    ensures n < TWO_16
  {
    b[0] as int + b[1] as int * 0x100
  }

  function U16be(n: nat): (b: bytes)
    ensures |b| == 2
  {
    [Low8(n / 0x100), Low8(n)]
  }

  function GetU16be(b: bytes): (n: nat)
    requires |b| >= 2
    ensures n < TWO_16
  {
    b[0] as int * 0x100 + b[1] as int
  }

  function U32le(n: nat): (b: bytes)
    ensures |b| == 4
  {
    U16le(n % TWO_16) + U16le(n / TWO_16)
  }

  function GetU32le(b: bytes): (n: nat)
    requires |b| >= 4
    ensures n < TWO_32
  {
    GetU16le(b[..2]) + GetU16le(b[2..4]) * TWO_16
  }

  function U32be(n: nat): (b: bytes)
    ensures |b| == 4
  {
    U16be(n / TWO_16) + U16be(n % TWO_16)
  }

  function GetU32be(b: bytes): (n: nat)
    requires |b| >= 4
    ensures n < TWO_32
  {
    GetU16be(b[..2]) * TWO_16 + GetU16be(b[2..4])
  }

  lemma GetU16leInverse(b: bytes)
    requires |b| >= 2
    ensures U16le(GetU16le(b)) == b[..2]
  {
  }

  lemma U16leInverse(n: nat, rest: bytes)
    requires n < TWO_16
    ensures GetU16le(U16le(n) + rest) == n
  {
  }

  lemma GetU16beInverse(b: bytes)
    requires |b| >= 2
    ensures U16be(GetU16be(b)) == b[..2]
  {
  }

  lemma U16beInverse(n: nat, rest: bytes)
    requires n < TWO_16
    ensures GetU16be(U16be(n) + rest) == n
  {
  }

  lemma SplitWord(hi: nat, lo: nat)
    requires lo < TWO_16
    ensures (hi * TWO_16 + lo) / TWO_16 == hi && (hi * TWO_16 + lo) % TWO_16 == lo
  {
  }

  lemma U32leInverse(n: nat, rest: bytes)
    requires n < TWO_32
    ensures GetU32le(U32le(n) + rest) == n
  {
    hide U16le, GetU16le;
    var b := U32le(n) + rest;
    assert b[..2] == U16le(n % TWO_16) + [];
    assert b[2..4] == U16le(n / TWO_16) + [];
    U16leInverse(n % TWO_16, []);
    U16leInverse(n / TWO_16, []);
  }

  lemma GetU32leInverse(b: bytes)
    requires |b| >= 4
    ensures U32le(GetU32le(b)) == b[..4]
  {
    hide U16le, GetU16le;
    GetU16leInverse(b[..2]);
    GetU16leInverse(b[2..4]);
    SplitWord(GetU16le(b[2..4]), GetU16le(b[..2]));
    assert b[..4] == b[..2][..2] + b[2..4][..2];
  }

  lemma U32beInverse(n: nat, rest: bytes)
    requires n < TWO_32
    ensures GetU32be(U32be(n) + rest) == n
  {
    hide U16be, GetU16be;
    var b := U32be(n) + rest;
    assert b[..2] == U16be(n / TWO_16) + [];
    assert b[2..4] == U16be(n % TWO_16) + [];
    U16beInverse(n % TWO_16, []);
    U16beInverse(n / TWO_16, []);
  }

  lemma GetU32beInverse(b: bytes)
    requires |b| >= 4
    ensures U32be(GetU32be(b)) == b[..4]
  {
    hide U16be, GetU16be;
    GetU16beInverse(b[..2]);
    GetU16beInverse(b[2..4]);
    SplitWord(GetU16be(b[..2]), GetU16be(b[2..4]));
    assert b[..4] == b[..2][..2] + b[2..4][..2];
  }

  // ----- ASCII case folding -----

  function LowerByte(b: byte): (r: byte)
  {
    if 0x41 <= b <= 0x5A then b + 32 else b
  }

  function Lower(s: bytes): (r: bytes)
    ensures |r| == |s|
    ensures forall i :: 0 <= i < |s| ==> r[i] == LowerByte(s[i])
  {
    seq(|s|, i requires 0 <= i < |s| => LowerByte(s[i]))
  }

  function Zeros(n: nat): (r: bytes)
    ensures |r| == n
    ensures forall i :: 0 <= i < n ==> r[i] == 0
  {
    seq(n, _ => 0)
  }

  /** Index of the first NUL of `s`, or `|s|` when there is none. */
  function FirstNul(s: bytes): (k: nat)
    ensures k <= |s|
    ensures forall i :: 0 <= i < k ==> s[i] != 0
    ensures k < |s| ==> s[k] == 0
  {
    if s == [] then 0 else if s[0] == 0 then 0 else 1 + FirstNul(s[1..])
  }

  predicate NulFree(s: bytes)
  {
    forall i :: 0 <= i < |s| ==> s[i] != 0
  }

  lemma FirstNulUnique(s: bytes, k: nat)
    requires k < |s| && s[k] == 0 && forall i :: 0 <= i < k ==> s[i] != 0
    ensures FirstNul(s) == k
  {
  }

  predicate StartsWith(s: bytes, prefix: bytes)
  {
    |s| >= |prefix| && s[..|prefix|] == prefix
  }

  // ----- typed-array stores -----

  /** `Uint8Array.prototype.set` and the `memcpy`s of the packers: overwrites `|b|` bytes at `offset`. */
  method Store(a: array<byte>, offset: nat, b: bytes)
    requires offset + |b| <= a.Length
    modifies a
    ensures a[..offset] == old(a[..offset])
    ensures a[offset..offset + |b|] == b
    ensures a[offset + |b|..] == old(a[offset + |b|..])
  {
    for i := 0 to |b|
      invariant a[..offset] == old(a[..offset])
      invariant forall k :: 0 <= k < i ==> a[offset + k] == b[k]
      invariant a[offset + |b|..] == old(a[offset + |b|..])
    {
      a[offset + i] := b[i];
    }
  }

  /** Appending at `offset` to a zeroed array: the filled part grows by `b`, the rest stays zero. */
  method Fill(a: array<byte>, offset: nat, b: bytes) returns (next: nat)
    requires offset + |b| <= a.Length && a[offset..] == Zeros(a.Length - offset)
    modifies a
    ensures next == offset + |b| && a[..next] == old(a[..offset]) + b
    ensures a[next..] == Zeros(a.Length - next)
  {
    next := offset + |b|;
    Store(a, offset, b);
    assert a[..next] == a[..offset] + a[offset..next];
    assert old(a[next..]) == old(a[offset..])[|b|..] == Zeros(a.Length - offset)[|b|..];
    assert Zeros(a.Length - offset)[|b|..] == Zeros(a.Length - next);
  }
}

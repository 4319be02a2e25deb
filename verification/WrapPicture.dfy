/** TI-68k pictures: the search for a shape and the envelope (tifileutil/src/wrap.cc:568-616, 888-916). */
module WrapPicture {
  import opened Bytes
  import opened WrapBuffer

  const MAX_WIDTH := 240
  const MAX_HEIGHT := 103
  const MAX_SIZE := 3090
  const PIC_TAG: byte := 0xDF

  /** Bytes per row. */
  function Stride(width: nat): (s: nat)
    ensures width >= 1 ==> s >= 1
  {
    (width + 7) / 8
  }

  /** Rows needed for `size` bytes. */
  function Height(size: nat, width: nat): nat
    requires width >= 1
  {
    (size + Stride(width) - 1) / Stride(width)
  }

  function Area(size: nat, width: nat): nat
    requires width >= 1
  {
    Height(size, width) * Stride(width)
  }

  lemma RoundUp(size: nat, stride: nat)
    requires stride >= 1
    ensures size <= (size + stride - 1) / stride * stride < size + stride
  {
    var q, r := (size + stride - 1) / stride, (size + stride - 1) % stride;
    assert q * stride + r == size + stride - 1;
  }

  /** The rows cover the data, and only the last one is padded. */
  lemma Tiles(size: nat, width: nat)
    requires width >= 1
    ensures size <= Area(size, width) < size + Stride(width)
  {
    RoundUp(size, Stride(width));
  }

  function Padding(size: nat, width: nat): (p: nat)
    requires width >= 1
  {
    Tiles(size, width);
    Area(size, width) - size
  }

  predicate Feasible(size: nat, width: int)
  {
    1 <= width <= MAX_WIDTH && 1 <= Height(size, width) <= MAX_HEIGHT
  }

  /** Less padding than `v`, or as much and no narrower. */
  predicate AsGood(size: nat, width: nat, v: nat)
    requires width >= 1 && v >= 1
  {
    Padding(size, width) < Padding(size, v) || (Padding(size, width) == Padding(size, v) && v <= width)
  }

  /** The least padding there is, and the widest shape with it. */
  ghost predicate Best(size: nat, width: int)
  {
    && Feasible(size, width)
    && forall v :: Feasible(size, v) ==> AsGood(size, width, v)
  }

  // ----- properties of the best shape -----

  lemma FullRowsAreEnough(size: nat)
    requires 1 <= size <= MAX_SIZE
    ensures Feasible(size, MAX_WIDTH)
  {
  }

  lemma SameStride(width: nat)
    requires 1 <= width <= MAX_WIDTH
    ensures var v := 8 * Stride(width); width <= v <= MAX_WIDTH && v % 8 == 0 && Stride(v) == Stride(width)
  {
  }

  /** Any width of the same row length does as well, so the best one fills its rows. */
  lemma BestIsMultipleOf8(size: nat, width: int)
    requires Best(size, width)
    ensures width % 8 == 0
  {
    hide Stride;
    SameStride(width);
    var v := 8 * Stride(width);
    assert Height(size, v) == Height(size, width);
    assert Feasible(size, v) && Padding(size, v) == Padding(size, width);
  }

  lemma BestIsUnique(size: nat, a: int, b: int)
    requires Best(size, a) && Best(size, b)
    ensures a == b
  {
    hide Padding, Feasible;
    assert Feasible(size, a) && Feasible(size, b);
  }

  // ----- the search -----

  /** `width` is the best of the widths below `bound`, or there is none and the initial values stand. */
  ghost predicate BestBelow(size: nat, bound: int, found: bool, width: int)
  {
    && (found ==> Feasible(size, width) && width < bound)
    && (forall v :: Feasible(size, v) && v < bound ==> found && AsGood(size, width, v))
  }

  lemma SearchStep(size: nat, w: int, found: bool, width: int)
    requires w >= 1 && BestBelow(size, w, found, width)
    ensures !Feasible(size, w) ==> BestBelow(size, w + 1, found, width)
    ensures Feasible(size, w) && (!found || Padding(size, w) <= Padding(size, width)) ==>
      BestBelow(size, w + 1, true, w)
    ensures Feasible(size, w) && found && Padding(size, w) > Padding(size, width) ==>
      BestBelow(size, w + 1, found, width)
  {
    hide Padding, Feasible;
  }

  lemma SearchDone(size: nat, found: bool, width: int)
    requires 1 <= size <= MAX_SIZE && BestBelow(size, MAX_WIDTH + 1, found, width)
    ensures found && Best(size, width)
  {
    hide Padding, Height;
    FullRowsAreEnough(size);
  }

  /** The width loop. `best_pad` starts at the largest value of its type: here, at `None`. */
  method Search(size: nat) returns (width: nat, height: nat, padding: nat)
    requires 1 <= size <= MAX_SIZE
    ensures Best(size, width) && height == Height(size, width) && height * Stride(width) == size + padding
    ensures width % 8 == 0 && padding < Stride(width)
  {
    hide Stride, Height, Best, BestBelow, Feasible;
    var bestW: nat, bestH: nat, bestPad: Option<nat> := 1, 1, None;
    var w: nat := 1;
    NothingBelowOne(size);
    while w <= MAX_WIDTH
      invariant 1 <= w <= MAX_WIDTH + 1 && 1 <= bestW && BestBelow(size, w, bestPad.Some?, bestW)
      invariant bestPad.Some? ==> bestH == Height(size, bestW) && bestPad.value == Padding(size, bestW) && bestW < w
    {
      var stride := Stride(w);
      var h := Height(size, w);
      SearchStep(size, w, bestPad.Some?, bestW);
      FeasibleIs(size, w);
      if h >= 1 && h <= MAX_HEIGHT {
        Tiles(size, w);
        var pad: nat := h * stride - size;
        if bestPad.None? || pad < bestPad.value || (pad == bestPad.value && w > bestW) {
          bestW, bestH, bestPad := w, h, Some(pad);
        }
      }
      w := w + 1;
    }
    SearchDone(size, bestPad.Some?, bestW);
    width, height, padding := bestW, bestH, bestPad.value;
    Tiles(size, width);
    BestIsMultipleOf8(size, width);
  }

  lemma FeasibleIs(size: nat, w: nat)
    requires 1 <= w <= MAX_WIDTH
    ensures Feasible(size, w) <==> 1 <= Height(size, w) <= MAX_HEIGHT
  {
  }

  lemma NothingBelowOne(size: nat)
    ensures BestBelow(size, 1, false, 1)
  {
  }

  // ----- the envelope -----

  function PicWrapped(s: bytes, width: nat): bytes
    requires width >= 1
  {
    var pad := Padding(|s|, width);
    U16be(5 + |s| + pad) + U16be(Height(|s|, width)) + U16be(width) + s + Zeros(pad) + [PIC_TAG]
  }

  function PicStart(size: nat): (start: nat)
    ensures start <= size
  {
    if size >= 6 then 6 else if size >= 2 then 2 else 0
  }

  function PicUnwrapped(d: bytes): bytes
  {
    var start := PicStart(|d|);
    if |d| > start && d[|d| - 1] == PIC_TAG then d[start..|d| - 1] else d[start..]
  }

  /** Main result: the bitmap comes back followed by exactly the padding the search minimised. */
  lemma PicRoundTrip(s: bytes, width: nat)
    requires width >= 1
    ensures PicUnwrapped(PicWrapped(s, width)) == s + Zeros(Padding(|s|, width))
  {
    hide U16be, Padding, Height, Zeros;
    var pad := Padding(|s|, width);
    var head := U16be(5 + |s| + pad) + U16be(Height(|s|, width)) + U16be(width);
    assert PicWrapped(s, width) == head + (s + Zeros(pad)) + [PIC_TAG];
  }

  /** The size, height and width fields of an accepted picture say what is behind them. */
  lemma HeaderIsExact(s: bytes, width: nat)
    requires 1 <= |s| <= MAX_SIZE && Best(|s|, width)
    ensures var d := PicWrapped(s, width);
      GetU16be(d[..2]) == |d| - 2 && GetU16be(d[4..6]) == width
      && GetU16be(d[2..4]) * Stride(width) == |d| - 7
  {
    hide U16be, GetU16be, Stride, Height;
    var h := Height(|s|, width);
    var d := PicWrapped(s, width);
    Tiles(|s|, width);
    StrideBound(width);
    U16beInverse(|d| - 2, []);
    U16beInverse(h, []);
    U16beInverse(width, []);
    assert d[..2] == U16be(|d| - 2) + [] && d[2..4] == U16be(h) + [] && d[4..6] == U16be(width) + [];
  }

  lemma StrideBound(width: nat)
    requires width <= MAX_WIDTH
    ensures Stride(width) <= 30
  {
  }

  // ----- in place, as the commands do it -----

  /** The picture branch of `tifileutil_wrap`; `false` for data no picture can hold. */
  method WrapData(data: array<byte>, size: nat) returns (ok: bool, a: array<byte>, n: nat, ghost width: nat)
    requires size <= data.Length
    modifies data
    ensures ok <==> 1 <= size <= MAX_SIZE
    ensures n <= a.Length && (ok ==> Best(size, width) && a[..n] == PicWrapped(old(data[..size]), width))
  {
    hide U16be, Best, Height, Stride, Zeros;
    a, n, width := data, size, 1;
    if size == 0 || size > MAX_SIZE {
      return false, a, n, width;
    }
    ghost var s := data[..size];
    var w, h, pad := Search(size);
    width := w;
    BestIsWide(size, w);
    Tiles(size, w);
    a, n := Surround(data, size, U16be(5 + size + pad) + U16be(h) + U16be(w), Zeros(pad) + [PIC_TAG]);
    assert U16be(5 + size + pad) + U16be(h) + U16be(w) + s + (Zeros(pad) + [PIC_TAG]) == PicWrapped(s, w);
    ok := true;
  }

  lemma BestIsWide(size: nat, width: nat)
    requires Best(size, width)
    ensures width >= 1
  {
  }

  /** The picture branch of `unwrap_deep_entry`. */
  method UnwrapData(data: array<byte>) returns (out: array<byte>)
    ensures fresh(out) && out[..] == PicUnwrapped(data[..])
  {
    var start, end := 0, data.Length;
    if start + 2 <= data.Length {
      start := start + 2;
    }
    if start + 4 <= data.Length {
      start := start + 4;
    }
    if end > start && data[end - 1] == PIC_TAG {
      end := end - 1;
    }
    out := CopyOut(data, start, end);
  }
}

/**
 * Undoing the filters of HP Prime screenshots (webtilp/app.js:10376-10385, 10470-10513), against the filter
 * algorithms of sections 6.2 to 6.6 of RFC 2083.
 */
module Png {
  import opened Bytes

  const BYTES_PER_PIXEL := 2

  // ----- predictors -----

  function Abs(n: int): nat
  {
    if n < 0 then -n else n
  }

  /** `hpPrimePngPaethPredictor` */
  function Paeth(left: byte, above: byte, upperLeft: byte): byte
  {
    var estimate := left as int + above as int - upperLeft as int;
    var a, b, c := Abs(estimate - left as int), Abs(estimate - above as int), Abs(estimate - upperLeft as int);
    if a <= b && a <= c then left else if b <= c then above else upperLeft
  }

  /** How far a neighbour is from the estimate. */
  function Distance(left: byte, above: byte, upperLeft: byte, n: byte): nat
  {
    Abs(left as int + above as int - upperLeft as int - n as int)
  }

  /** Section 6.6: the neighbour nearest to the estimate; on a tie left goes before above, above before upper left. */
  lemma PaethIsNearest(left: byte, above: byte, upperLeft: byte)
    ensures var p := Paeth(left, above, upperLeft);
      var d := (n: byte) => Distance(left, above, upperLeft, n);
      (p == left || p == above || p == upperLeft)
      && d(p) <= d(left) && d(p) <= d(above) && d(p) <= d(upperLeft)
      && (d(left) == d(p) ==> p == left)
      && (d(left) != d(p) && d(above) == d(p) ==> p == above)
  {
  }

  function Predict(filter: byte, left: byte, above: byte, upperLeft: byte): byte
  {
    if filter == 1 then left
    else if filter == 2 then above
    else if filter == 3 then ((left as int + above as int) / 2) as byte
    else if filter == 4 then Paeth(left, above, upperLeft)
    else 0
  }

  // ----- filtering, as RFC 2083 defines it -----

  /** The predictor of byte `x` of the row that starts at `row`; only bytes in front of it are looked at. */
  function PredictAt(filter: byte, raw: bytes, stride: nat, row: nat, x: nat): byte
    requires row + x <= |raw| && x < stride && (row == 0 || row >= stride)
  {
    var i := row + x;
    Predict(filter,
            if x >= BYTES_PER_PIXEL then raw[i - BYTES_PER_PIXEL] else 0,
            if row > 0 then raw[i - stride] else 0,
            if row > 0 && x >= BYTES_PER_PIXEL then raw[i - stride - BYTES_PER_PIXEL] else 0)
  }

  function FilterByte(filter: byte, raw: bytes, stride: nat, row: nat, x: nat): byte
    requires row + x < |raw| && x < stride && (row == 0 || row >= stride)
  {
    ((raw[row + x] as int - PredictAt(filter, raw, stride, row, x) as int) % 0x100) as byte
  }

  function FilterRow(filter: byte, raw: bytes, stride: nat, row: nat): (r: bytes)
    requires row + stride <= |raw| && (row == 0 || row >= stride)
    ensures |r| == stride
  {
    seq(stride, x requires 0 <= x < stride => FilterByte(filter, raw, stride, row, x))
  }

  lemma RowStart(y: nat, stride: nat)
    ensures y * stride == 0 || y * stride >= stride
    ensures (y + 1) * stride == y * stride + stride
  {
  }

  /** The filtered image: one row for each filter, its filter byte in front. */
  function Filtered(raw: bytes, stride: nat, filters: bytes): bytes
    requires |raw| >= |filters| * stride
    decreases |filters|
  {
    if filters == [] then []
    else
      var y := |filters| - 1;
      RowStart(y, stride);
      Filtered(raw, stride, filters[..y]) + [filters[y]] + FilterRow(filters[y], raw, stride, y * stride)
  }

  predicate ValidFilters(filters: bytes)
  {
    forall y :: 0 <= y < |filters| ==> filters[y] <= 4
  }

  // ----- later bytes do not matter -----

  lemma FilterByteFrame(filter: byte, a: bytes, b: bytes, stride: nat, row: nat, x: nat)
    requires row + x < |a| && row + x < |b| && x < stride && (row == 0 || row >= stride)
    requires a[..row + x + 1] == b[..row + x + 1]
    ensures FilterByte(filter, a, stride, row, x) == FilterByte(filter, b, stride, row, x)
  {
    hide Predict;
    var n := row + x + 1;
    assert forall i :: 0 <= i < n ==> a[i] == a[..n][i] == b[..n][i] == b[i];
  }

  lemma FilterRowFrame(filter: byte, a: bytes, b: bytes, stride: nat, row: nat)
    requires row + stride <= |a| && row + stride <= |b| && (row == 0 || row >= stride)
    requires a[..row + stride] == b[..row + stride]
    ensures FilterRow(filter, a, stride, row) == FilterRow(filter, b, stride, row)
  {
    hide FilterByte;
    forall x | 0 <= x < stride ensures FilterByte(filter, a, stride, row, x) == FilterByte(filter, b, stride, row, x) {
      assert a[..row + x + 1] == a[..row + stride][..row + x + 1];
      assert b[..row + x + 1] == b[..row + stride][..row + x + 1];
      FilterByteFrame(filter, a, b, stride, row, x);
    }
  }

  lemma {:induction false} FilteredFrame(a: bytes, b: bytes, stride: nat, filters: bytes)
    requires |a| >= |filters| * stride && |b| >= |filters| * stride
    requires a[..|filters| * stride] == b[..|filters| * stride]
    ensures Filtered(a, stride, filters) == Filtered(b, stride, filters)
    decreases |filters|
  {
    hide FilterRow;
    if filters != [] {
      var y := |filters| - 1;
      RowStart(y, stride);
      var n := y * stride;
      assert a[..n] == a[..n + stride][..n] && b[..n] == b[..n + stride][..n];
      FilteredFrame(a, b, stride, filters[..y]);
      FilterRowFrame(filters[y], a, b, stride, n);
    }
  }

  // ----- filtering loses nothing -----

  /** A byte and its predictor determine the filtered byte, and the filtered byte and the predictor the byte. */
  lemma ByteBack(encoded: byte, predictor: byte)
    ensures ((((encoded as int + predictor as int) % 0x100) - predictor as int) % 0x100) == encoded as int
  {
  }

  lemma ByteDetermined(a: byte, b: byte, predictor: byte)
    requires (a as int - predictor as int) % 0x100 == (b as int - predictor as int) % 0x100
    ensures a == b
  {
  }

  lemma {:induction false} RowDetermined(filter: byte, a: bytes, b: bytes, stride: nat, row: nat, x: nat)
    requires row + stride <= |a| && row + stride <= |b| && (row == 0 || row >= stride) && x <= stride
    requires a[..row] == b[..row] && FilterRow(filter, a, stride, row) == FilterRow(filter, b, stride, row)
    ensures a[..row + x] == b[..row + x]
    decreases x
  {
    hide Predict;
    if x > 0 {
      RowDetermined(filter, a, b, stride, row, x - 1);
      var n := row + x - 1;
      assert forall i :: 0 <= i < n ==> a[i] == a[..n][i] == b[..n][i] == b[i];
      assert FilterRow(filter, a, stride, row)[x - 1] == FilterRow(filter, b, stride, row)[x - 1];
      ByteDetermined(a[n], b[n], PredictAt(filter, a, stride, row, x - 1));
      assert a[..n + 1] == a[..n] + [a[n]] && b[..n + 1] == b[..n] + [b[n]];
    }
  }

  lemma {:induction false} FilteredLength(raw: bytes, stride: nat, filters: bytes)
    requires |raw| >= |filters| * stride
    ensures |Filtered(raw, stride, filters)| == |filters| * (stride + 1)
    decreases |filters|
  {
    hide FilterRow;
    if filters != [] {
      var y := |filters| - 1;
      RowStart(y, stride);
      FilteredLength(raw, stride, filters[..y]);
      RowStart(y, stride + 1);
    }
  }

  /** Main result. A filtered image determines the filters and the raw image it was made of. */
  lemma {:induction false} FilteringIsInjective(a: bytes, fa: bytes, b: bytes, fb: bytes, stride: nat)
    requires |fa| == |fb| && |a| >= |fa| * stride && |b| >= |fb| * stride
    requires Filtered(a, stride, fa) == Filtered(b, stride, fb)
    ensures fa == fb && a[..|fa| * stride] == b[..|fb| * stride]
    decreases |fa|
  {
    hide FilterRow;
    if fa != [] {
      var y := |fa| - 1;
      RowStart(y, stride);
      var pa, pb := Filtered(a, stride, fa[..y]), Filtered(b, stride, fb[..y]);
      var ra, rb := FilterRow(fa[y], a, stride, y * stride), FilterRow(fb[y], b, stride, y * stride);
      FilteredLength(a, stride, fa[..y]);
      FilteredLength(b, stride, fb[..y]);
      SplitRow(pa, fa[y], ra, pb, fb[y], rb);
      FilteringIsInjective(a, fa[..y], b, fb[..y], stride);
      RowDetermined(fa[y], a, b, stride, y * stride, stride);
      assert fa == fa[..y] + [fa[y]] && fb == fb[..y] + [fb[y]];
    }
  }

  lemma SplitRow(pa: bytes, ca: byte, ra: bytes, pb: bytes, cb: byte, rb: bytes)
    requires |pa| == |pb| && |ra| == |rb| && pa + [ca] + ra == pb + [cb] + rb
    ensures pa == pb && ca == cb && ra == rb
  {
    var s, t := pa + [ca] + ra, pb + [cb] + rb;
    assert s[..|pa|] == pa && t[..|pb|] == pb && s[|pa|] == ca && t[|pb|] == cb;
    assert s[|pa| + 1..] == ra && t[|pb| + 1..] == rb;
  }

  // ----- the loops -----

  /** One row, in place: each byte from the filtered byte and the bytes reconstructed so far. */
  method UnfilterRow(inflated: bytes, input: nat, filter: byte, raw: array<byte>, stride: nat, row: nat)
    requires input + stride <= |inflated| && row + stride <= raw.Length && (row == 0 || row >= stride)
    modifies raw
    ensures raw[..row] == old(raw[..row])
    ensures inflated[input..input + stride] == FilterRow(filter, raw[..], stride, row)
  {
    hide Predict;
    var x: nat := 0;
    while x < stride
      invariant x <= stride && raw[..row] == old(raw[..row])
      invariant forall k :: 0 <= k < x ==> inflated[input + k] == FilterByte(filter, raw[..], stride, row, k)
    {
      ghost var before := raw[..];
      var encoded := inflated[input + x];
      var left := if x >= BYTES_PER_PIXEL then raw[row + x - BYTES_PER_PIXEL] else 0;
      var above := if row > 0 then raw[row - stride + x] else 0;
      var upperLeft := if row > 0 && x >= BYTES_PER_PIXEL then raw[row - stride + x - BYTES_PER_PIXEL] else 0;
      var predictor := Predict(filter, left, above, upperLeft);
      raw[row + x] := ((encoded as int + predictor as int) % 0x100) as byte;
      RowStep(filter, before, stride, row, x, encoded);
      assert raw[..] == before[row + x := raw[row + x]];
      x := x + 1;
    }
  }

  lemma RowStep(filter: byte, before: bytes, stride: nat, row: nat, x: nat, encoded: byte)
    requires row + stride <= |before| && x < stride && (row == 0 || row >= stride)
    ensures var v := ((encoded as int + PredictAt(filter, before, stride, row, x) as int) % 0x100) as byte;
      var after := before[row + x := v];
      FilterByte(filter, after, stride, row, x) == encoded
      && forall k :: 0 <= k < x ==>
        FilterByte(filter, after, stride, row, k) == FilterByte(filter, before, stride, row, k)
  {
    hide Predict;
    var p := PredictAt(filter, before, stride, row, x);
    var after := before[row + x := ((encoded as int + p as int) % 0x100) as byte];
    ByteBack(encoded, p);
    assert PredictAt(filter, after, stride, row, x) == p;
    forall k | 0 <= k < x
      ensures FilterByte(filter, after, stride, row, k) == FilterByte(filter, before, stride, row, k) {
      FilterByteFrame(filter, after, before, stride, row, k);
    }
  }

  lemma {:induction false} RowFits(y: nat, height: nat, width: nat)
    requires y < height
    ensures y * width + width <= height * width
    decreases height
  {
    RowStart(height - 1, width);
    if y < height - 1 {
      RowFits(y, height - 1, width);
    }
  }

  /** The filter byte of row `y`. */
  predicate FilterOk(inflated: bytes, stride: nat, y: nat)
  {
    y * (stride + 1) < |inflated| && inflated[y * (stride + 1)] <= 4
  }

  predicate AllFiltersOk(inflated: bytes, stride: nat, height: nat)
  {
    forall y :: 0 <= y < height ==> FilterOk(inflated, stride, y)
  }

  lemma {:induction false} FilterByteAt(raw: bytes, stride: nat, filters: bytes, y: nat)
    requires |raw| >= |filters| * stride && y < |filters|
    ensures y * (stride + 1) < |Filtered(raw, stride, filters)|
      && Filtered(raw, stride, filters)[y * (stride + 1)] == filters[y]
    decreases |filters|
  {
    hide FilterRow;
    var n := |filters| - 1;
    RowStart(n, stride);
    FilteredLength(raw, stride, filters[..n]);
    if y < n {
      FilterByteAt(raw, stride, filters[..n], y);
    }
  }

  lemma FilteredStep(raw: bytes, stride: nat, filters: bytes, f: byte, before: bytes)
    requires |raw| >= (|filters| + 1) * stride && |raw| >= |filters| * stride && |before| >= |filters| * stride
    requires raw[..|filters| * stride] == before[..|filters| * stride]
    requires |filters| * stride + stride <= |raw| && (|filters| * stride == 0 || |filters| * stride >= stride)
    ensures Filtered(raw, stride, filters + [f])
         == Filtered(before, stride, filters) + [f] + FilterRow(f, raw, stride, |filters| * stride)
  {
    hide FilterRow;
    FilteredFrame(raw, before, stride, filters);
    assert (filters + [f])[..|filters|] == filters;
  }

  /** `inflated` is `image`, filtered row by row with `filters`. */
  ghost predicate IsFiltering(inflated: bytes, stride: nat, height: nat, image: bytes, filters: bytes)
  {
    && |filters| == height && ValidFilters(filters) && |image| == height * stride
    && inflated == Filtered(image, stride, filters)
  }

  lemma FilteringHasRightForm(inflated: bytes, stride: nat, height: nat, image: bytes, filters: bytes)
    requires IsFiltering(inflated, stride, height, image, filters)
    ensures |inflated| == (stride + 1) * height && AllFiltersOk(inflated, stride, height)
  {
    hide Filtered;
    FilteredLength(image, stride, filters);
    forall y | 0 <= y < height ensures FilterOk(inflated, stride, y) {
      FilterByteAt(image, stride, filters, y);
    }
  }

  lemma OneImage(inflated: bytes, stride: nat, height: nat, a: bytes, fa: bytes, b: bytes, fb: bytes)
    requires IsFiltering(inflated, stride, height, a, fa) && IsFiltering(inflated, stride, height, b, fb)
    ensures a == b
  {
    hide Filtered;
    FilteringIsInjective(a, fa, b, fb, stride);
    assert a[..height * stride] == a && b[..height * stride] == b;
  }

  /** The rows in front of `y` are done. */
  ghost predicate Progress(inflated: bytes, stride: nat, height: nat, raw: bytes, y: nat, filters: bytes)
  {
    && y <= height && |filters| == y && ValidFilters(filters)
    && y * (stride + 1) <= |inflated| == height * (stride + 1)
    && y * stride <= |raw| == height * stride
    && inflated[..y * (stride + 1)] == Filtered(raw, stride, filters)
    && AllFiltersOk(inflated, stride, y)
  }

  lemma RowInside(inflated: bytes, stride: nat, height: nat, raw: bytes, y: nat, filters: bytes)
    requires Progress(inflated, stride, height, raw, y, filters) && y < height
    ensures y * (stride + 1) + 1 + stride <= |inflated| && y * stride + stride <= |raw|
    ensures y * stride == 0 || y * stride >= stride
    ensures inflated[y * (stride + 1)] > 4 ==> !AllFiltersOk(inflated, stride, height)
  {
    hide Filtered, AllFiltersOk, ValidFilters;
    RowFits(y, height, stride);
    RowFits(y, height, stride + 1);
    RowStart(y, stride);
    OneMoreFilter(inflated, stride, y, height);
  }

  lemma RowDone(inflated: bytes, stride: nat, height: nat, before: bytes, raw: bytes, y: nat, filters: bytes, f: byte)
    requires Progress(inflated, stride, height, before, y, filters) && y < height && |raw| == |before|
    requires y * (stride + 1) + 1 + stride <= |inflated| && y * stride + stride <= |raw|
    requires y * stride == 0 || y * stride >= stride
    requires f == inflated[y * (stride + 1)] && f <= 4 && raw[..y * stride] == before[..y * stride]
    requires inflated[y * (stride + 1) + 1..y * (stride + 1) + 1 + stride] == FilterRow(f, raw, stride, y * stride)
    ensures Progress(inflated, stride, height, raw, y + 1, filters + [f])
  {
    hide Filtered, FilterRow, AllFiltersOk;
    RowStart(y, stride);
    RowStart(y, stride + 1);
    FilteredStep(raw, stride, filters, f, before);
    SliceStep(inflated, y * (stride + 1), stride);
    OneMoreFilter(inflated, stride, y, height);
  }

  lemma AllDone(inflated: bytes, stride: nat, height: nat, raw: bytes, filters: bytes)
    requires Progress(inflated, stride, height, raw, height, filters)
    ensures AllFiltersOk(inflated, stride, height) && IsFiltering(inflated, stride, height, raw, filters)
  {
    hide Filtered, AllFiltersOk;
    assert inflated[..height * (stride + 1)] == inflated;
  }

  /** Row `y`; `false` at a filter byte it does not know. */
  method UnfilterOne(inflated: bytes, input: nat, stride: nat, height: nat, raw: array<byte>, y: nat,
                     ghost filters: bytes)
    returns (ok: bool, ghost next: bytes)
    requires Progress(inflated, stride, height, raw[..], y, filters) && y < height && input == y * (stride + 1)
    modifies raw
    ensures ok ==> Progress(inflated, stride, height, raw[..], y + 1, next)
    ensures ok ==> input + 1 + stride == (y + 1) * (stride + 1)
    ensures !ok ==> !AllFiltersOk(inflated, stride, height)
  {
    hide Filtered, FilterRow, AllFiltersOk, Progress;
    RowInside(inflated, stride, height, raw[..], y, filters);
    next := filters;
    var filter := inflated[input];
    ok := filter <= 4;
    if ok {
      ghost var before := raw[..];
      UnfilterRow(inflated, input + 1, filter, raw, stride, y * stride);
      assert raw[..][..y * stride] == before[..y * stride];
      RowDone(inflated, stride, height, before, raw[..], y, filters, filter);
      next := filters + [filter];
      RowStart(y, stride + 1);
    }
  }

  /** All rows; gives up at a filter byte it does not know. */
  method UnfilterRows(inflated: bytes, stride: nat, height: nat)
    returns (ok: bool, raw: array<byte>, ghost filters: bytes)
    requires stride >= BYTES_PER_PIXEL && |inflated| == height * (stride + 1)
    ensures ok <==> AllFiltersOk(inflated, stride, height)
    ensures ok ==> IsFiltering(inflated, stride, height, raw[..], filters)
  {
    hide Filtered, FilterRow, AllFiltersOk, Progress, IsFiltering;
    raw := new byte[height * stride](_ => 0);
    filters := [];
    var y: nat, input: nat := 0, 0;
    NothingDone(inflated, stride, height, raw[..]);
    while y < height
      invariant y <= height && input == y * (stride + 1)
      invariant Progress(inflated, stride, height, raw[..], y, filters)
    {
      ok, filters := UnfilterOne(inflated, input, stride, height, raw, y, filters);
      if !ok {
        return;
      }
      input := input + 1 + stride;
      y := y + 1;
    }
    AllDone(inflated, stride, height, raw[..], filters);
    ok := true;
  }

  lemma NothingDone(inflated: bytes, stride: nat, height: nat, raw: bytes)
    requires |inflated| == height * (stride + 1) && |raw| == height * stride
    ensures Progress(inflated, stride, height, raw, 0, [])
  {
    hide AllFiltersOk, Filtered;
    NoRows(raw, stride);
  }

  lemma NoRows(raw: bytes, stride: nat)
    ensures Filtered(raw, stride, []) == [] && AllFiltersOk([], stride, 0)
    ensures forall inflated :: AllFiltersOk(inflated, stride, 0)
  {
  }

  lemma SliceStep(s: bytes, at: nat, stride: nat)
    requires at + 1 + stride <= |s|
    ensures s[..at + 1 + stride] == s[..at] + [s[at]] + s[at + 1..at + 1 + stride]
  {
  }

  lemma OneMoreFilter(inflated: bytes, stride: nat, y: nat, height: nat)
    requires y < height && y * (stride + 1) < |inflated| && AllFiltersOk(inflated, stride, y)
    ensures AllFiltersOk(inflated, stride, y + 1) <==> inflated[y * (stride + 1)] <= 4
    ensures inflated[y * (stride + 1)] > 4 ==> !AllFiltersOk(inflated, stride, height)
  {
    hide FilterOk;
    FilterOkIs(inflated, stride, y);
  }

  lemma FilterOkIs(inflated: bytes, stride: nat, y: nat)
    requires y * (stride + 1) < |inflated|
    ensures FilterOk(inflated, stride, y) <==> inflated[y * (stride + 1)] <= 4
  {
  }

  /**
   * The reconstruction loop of `decodeHPPrimeRgb555Png`. It succeeds on data of the right size whose filter bytes are
   * all known, and the image it leaves, filtered again with those filters, is the data. So whatever image and filters
   * the data was made of, that image is what comes out.
   */
  method Unfilter(inflated: bytes, stride: nat, height: nat) returns (ok: bool, raw: array<byte>, ghost filters: bytes)
    requires stride >= BYTES_PER_PIXEL
    ensures ok <==> |inflated| == (stride + 1) * height && AllFiltersOk(inflated, stride, height)
    ensures ok ==> IsFiltering(inflated, stride, height, raw[..], filters)
    ensures forall image, fs :: IsFiltering(inflated, stride, height, image, fs) ==> ok && raw[..] == image
  {
    hide Filtered, FilterRow, IsFiltering, AllFiltersOk, FilterOk;
    ok, raw, filters := false, new byte[0], [];
    if |inflated| == (stride + 1) * height {
      assert height * (stride + 1) == (stride + 1) * height;
      ok, raw, filters := UnfilterRows(inflated, stride, height);
    }
    forall image, fs | IsFiltering(inflated, stride, height, image, fs) ensures ok && raw[..] == image {
      FilteringHasRightForm(inflated, stride, height, image, fs);
      OneImage(inflated, stride, height, raw[..], filters, image, fs);
    }
  }

  // ----- colours -----

  /** A five-bit channel on eight bits: `(c << 3) | (c >> 2)`. */
  function Expand(c: nat): byte
    requires c < 0x20
  {
    (c * 8 + c / 4) as byte
  }

  function Rgba(low: byte, high: byte): (r: bytes)
    ensures |r| == 4
  {
    var word := low as int + high as int * 0x100;
    [Expand(word / 0x400 % 0x20), Expand(word / 0x20 % 0x20), Expand(word % 0x20), 0xFF]
  }

  /** The ends of the scale are kept, and the channel can be read back from its top five bits. */
  lemma ExpandKeepsScale(c: nat)
    requires c < 0x20
    ensures Expand(c) as int / 8 == c && (c == 0 <==> Expand(c) == 0) && (c == 0x1F <==> Expand(c) == 0xFF)
  {
  }

  /** Two pixels look the same exactly when they differ at most in the unused top bit. */
  lemma ColoursAreDistinct(a: bytes, b: bytes)
    requires |a| == 2 && |b| == 2
    ensures Rgba(a[0], a[1]) == Rgba(b[0], b[1]) <==> GetU16le(a) % 0x8000 == GetU16le(b) % 0x8000
  {
    hide Expand;
    var m, n := GetU16le(a), GetU16le(b);
    Channels(m);
    Channels(n);
    if Rgba(a[0], a[1]) == Rgba(b[0], b[1]) {
      SameChannel(m / 0x400 % 0x20, n / 0x400 % 0x20);
      SameChannel(m / 0x20 % 0x20, n / 0x20 % 0x20);
      SameChannel(m % 0x20, n % 0x20);
    } else {
      SplitWord15(m);
      SplitWord15(n);
    }
  }

  lemma SameChannel(a: nat, b: nat)
    requires a < 0x20 && b < 0x20 && Expand(a) == Expand(b)
    ensures a == b
  {
    ExpandKeepsScale(a);
    ExpandKeepsScale(b);
  }

  lemma Channels(n: nat)
    requires n < TWO_16
    ensures n % 0x8000 == n / 0x400 % 0x20 * 0x400 + n / 0x20 % 0x20 * 0x20 + n % 0x20
  {
    var q, b := n / 0x20, n % 0x20;
    assert n == q * 0x20 + b && n / 0x400 == q / 0x20;
    assert q == q / 0x20 * 0x20 + q % 0x20;
    var p := q / 0x20;
    assert p == p / 0x20 * 0x20 + p % 0x20;
  }

  lemma SplitWord15(n: nat)
    requires n < TWO_16
    ensures n / 0x400 % 0x20 == n % 0x8000 / 0x400 && n / 0x20 % 0x20 == n % 0x8000 / 0x20 % 0x20
      && n % 0x20 == n % 0x8000 % 0x20
  {
    var q, r := n / 0x8000, n % 0x8000;
    assert n / 0x400 == q * 0x20 + r / 0x400;
    assert n / 0x20 == q * 0x400 + r / 0x20;
  }

  /** The colours of little-endian RGB555 pixels, in order. */
  function Colours(raw: bytes): (r: bytes)
    requires |raw| % 2 == 0
    ensures |r| == 2 * |raw|
    decreases |raw|
  {
    if raw == [] then [] else Colours(raw[..|raw| - 2]) + Rgba(raw[|raw| - 2], raw[|raw| - 1])
  }

  method PutColour(rgba: array<byte>, target: nat, rgb: bytes)
    requires target + 4 <= rgba.Length && |rgb| == 4
    modifies rgba
    ensures rgba[..target + 4] == old(rgba[..target]) + rgb
  {
    rgba[target] := rgb[0];
    rgba[target + 1] := rgb[1];
    rgba[target + 2] := rgb[2];
    rgba[target + 3] := rgb[3];
    assert rgba[..target] == old(rgba[..target]);
  }

  /** The conversion loop: four bytes for every two. */
  method ToRgba(raw: array<byte>) returns (rgba: array<byte>)
    requires raw.Length % 2 == 0
    ensures rgba[..] == Colours(raw[..])
  {
    hide Rgba, Colours;
    rgba := new byte[2 * raw.Length](_ => 0);
    var source: nat, target: nat := 0, 0;
    NoColours();
    while source < raw.Length
      invariant source <= raw.Length && source % 2 == 0 && target == 2 * source && rgba.Length == 2 * raw.Length
      invariant rgba[..target] == Colours(raw[..source])
    {
      var rgb := Rgba(raw[source], raw[source + 1]);
      PutColour(rgba, target, rgb);
      assert raw[..source + 2][..source] == raw[..source];
      NextColour(raw[..source + 2]);
      source := source + 2;
      target := target + 4;
    }
    assert rgba[..target] == rgba[..] && raw[..source] == raw[..];
  }

  lemma NoColours()
    ensures Colours([]) == []
  {
  }

  lemma NextColour(s: bytes)
    requires |s| >= 2 && |s| % 2 == 0
    ensures Colours(s) == Colours(s[..|s| - 2]) + Rgba(s[|s| - 2], s[|s| - 1])
  {
    hide Rgba;
  }
}

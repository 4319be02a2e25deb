/**
 * The resource manifest the page writes (webtilp/app.js:7437-7471) and the bridge decodes
 * (webtilp/hp_prime_bridge.cpp:336-349, 386-401, 879-912).
 */
module HpManifest {
  import opened Bytes
  import opened HpEdit

  datatype Outcome = Ok(updates: seq<Update>) | FormatError | CoreReadOnly

  const MAX_COUNT := 10000

  function ItemBytes(u: Update): bytes
  {
    U32be(|u.name|) + u.name + U32be(|u.data|) + u.data
  }

  function ItemsBytes(us: seq<Update>): bytes
  {
    if us == [] then [] else ItemBytes(us[0]) + ItemsBytes(us[1..])
  }

  function ManifestBytes(us: seq<Update>): bytes
  {
    U32be(|us|) + ItemsBytes(us)
  }

  predicate Encodable(us: seq<Update>)
  {
    forall i :: 0 <= i < |us| ==> |us[i].name| < TWO_32 && |us[i].data| < TWO_32
  }

  /** The batches the bridge accepts for an application whose descriptor part is called `core`. */
  predicate Acceptable(us: seq<Update>, core: bytes)
  {
    forall i :: 0 <= i < |us| ==>
      |us[i].name| < TWO_32 && |us[i].data| < TWO_32 && us[i].name != [] && Lower(us[i].name) != Lower(core)
  }

  // ----- the reader -----

  function ReadSized(m: bytes): (r: Option<bytes>)
    ensures r.Some? ==> 4 + |r.value| <= |m|
  {
    if |m| < 4 || GetU32be(m) > |m| - 4 then None else Some(m[4..4 + GetU32be(m)])
  }

  function ReadItem(m: bytes): (r: Option<Update>)
    ensures r.Some? ==> 8 + |r.value.name| + |r.value.data| <= |m|
  {
    match ReadSized(m)
    case None => None
    case Some(name) =>
      if name == [] then None
      else
        match ReadSized(m[4 + |name|..])
        case None => None
        case Some(data) => Some(Update(name, data))
  }

  function ReadItems(m: bytes, count: nat, core: bytes): Outcome
    decreases count
  {
    if count == 0 then if m == [] then Ok([]) else FormatError
    else
      match ReadItem(m)
      case None => FormatError
      case Some(u) =>
        if Lower(u.name) == Lower(core) then CoreReadOnly
        else PrependItem([u], ReadItems(m[8 + |u.name| + |u.data|..], count - 1, core))
  }

  function PrependItem(done: seq<Update>, rest: Outcome): Outcome
  {
    if rest.Ok? then Ok(done + rest.updates) else rest
  }

  /** What the manifest decoding of `hp_prime_send_cached_app_resources` yields. */
  function Decoded(m: bytes, core: bytes): Outcome
  {
    if |m| < 4 || GetU32be(m) == 0 || GetU32be(m) > MAX_COUNT then FormatError
    else ReadItems(m[4..], GetU32be(m), core)
  }

  lemma SizedInverse(b: bytes, rest: bytes)
    requires |b| < TWO_32
    ensures ReadSized(U32be(|b|) + b + rest) == Some(b) && (U32be(|b|) + b + rest)[4 + |b|..] == rest
  {
    hide U32be, GetU32be;
    assert U32be(|b|) + b + rest == U32be(|b|) + (b + rest);
    U32beInverse(|b|, b + rest);
  }

  lemma SizedFits(m: bytes)
    ensures ReadSized(m).Some? ==>
      var b := ReadSized(m).value;
      |b| < TWO_32 && m == U32be(|b|) + b + m[4 + |b|..]
  {
    hide U32be, GetU32be;
    if ReadSized(m).Some? {
      GetU32beInverse(m);
    }
  }

  lemma ItemInverse(u: Update, rest: bytes)
    requires |u.name| < TWO_32 && |u.data| < TWO_32 && u.name != []
    ensures ReadItem(ItemBytes(u) + rest) == Some(u)
  {
    hide ReadSized, U32be;
    var m, back := ItemBytes(u) + rest, U32be(|u.data|) + u.data + rest;
    assert m == U32be(|u.name|) + u.name + back;
    SizedInverse(u.name, back);
    SizedInverse(u.data, rest);
  }

  lemma ItemFits(m: bytes)
    ensures ReadItem(m).Some? ==>
      var u := ReadItem(m).value;
      |u.name| < TWO_32 && |u.data| < TWO_32 && u.name != [] && m == ItemBytes(u) + m[8 + |u.name| + |u.data|..]
  {
    hide ReadSized, U32be;
    if ReadItem(m).Some? {
      var u := ReadItem(m).value;
      SizedFits(m);
      var back := m[4 + |u.name|..];
      SizedFits(back);
      assert back[4 + |u.data|..] == m[8 + |u.name| + |u.data|..];
    }
  }

  lemma {:induction false} ItemsComplete(us: seq<Update>, core: bytes)
    requires Acceptable(us, core)
    ensures ReadItems(ItemsBytes(us), |us|, core) == Ok(us)
  {
    hide ReadItem, ItemBytes, Lower, ReadItems, ItemsBytes;
    ItemsBytesOf(us);
    ReadItemsOf(ItemsBytes(us), |us|, core);
    if us != [] {
      var u, rest := us[0], ItemsBytes(us[1..]);
      ItemInverse(u, rest);
      ItemLength(u);
      ItemsComplete(us[1..], core);
      assert ItemsBytes(us)[|ItemBytes(u)|..] == rest;
      assert [u] + us[1..] == us;
    }
  }

  lemma ItemsBytesOf(us: seq<Update>)
    ensures us == [] ==> ItemsBytes(us) == []
    ensures us != [] ==> ItemsBytes(us) == ItemBytes(us[0]) + ItemsBytes(us[1..])
  {
    hide ItemBytes;
  }

  lemma ReadItemsOf(m: bytes, count: nat, core: bytes)
    ensures count == 0 && m == [] ==> ReadItems(m, count, core) == Ok([])
    ensures count > 0 && ReadItem(m).Some? && Lower(ReadItem(m).value.name) != Lower(core) ==>
      var u := ReadItem(m).value;
      8 + |u.name| + |u.data| <= |m|
      && ReadItems(m, count, core) == PrependItem([u], ReadItems(m[8 + |u.name| + |u.data|..], count - 1, core))
  {
    hide ReadItem, Lower;
  }

  lemma ItemLength(u: Update)
    ensures |ItemBytes(u)| == 8 + |u.name| + |u.data|
  {
  }

  lemma {:induction false} ItemsSound(m: bytes, count: nat, core: bytes)
    ensures var r := ReadItems(m, count, core);
      r.Ok? ==> Acceptable(r.updates, core) && |r.updates| == count && ItemsBytes(r.updates) == m
    decreases count
  {
    hide ReadItem, ItemBytes, Lower;
    var r := ReadItems(m, count, core);
    if count > 0 && r.Ok? {
      ItemFits(m);
      var u := ReadItem(m).value;
      var rest := m[8 + |u.name| + |u.data|..];
      ItemsSound(rest, count - 1, core);
      assert r.updates[1..] == ReadItems(rest, count - 1, core).updates;
    }
  }

  /**
   * Main result: the bridge decodes a manifest to a batch exactly when the page would have encoded that batch to it,
   * with 1 to 10000 non-empty names none of which is the descriptor's.
   */
  lemma ManifestIff(m: bytes, core: bytes, us: seq<Update>)
    ensures Decoded(m, core) == Ok(us) <==> 1 <= |us| <= MAX_COUNT && Acceptable(us, core) && m == ManifestBytes(us)
  {
    hide U32be, GetU32be, ItemsBytes, ReadItems, Acceptable;
    if Decoded(m, core) == Ok(us) {
      GetU32beInverse(m);
      ItemsSound(m[4..], GetU32be(m), core);
      assert m == m[..4] + m[4..];
    }
    if 1 <= |us| <= MAX_COUNT && Acceptable(us, core) && m == ManifestBytes(us) {
      U32beInverse(|us|, ItemsBytes(us));
      ItemsComplete(us, core);
      assert m[4..] == ItemsBytes(us);
    }
  }

  // ----- the encoder -----

  /** `encodeHPPrimeAppResourceManifest`; the exception for an oversized field is `None`. */
  method EncodeManifest(us: seq<Update>) returns (r: Option<bytes>)
    ensures r == if Encodable(us) then Some(ManifestBytes(us)) else None
  {
    hide U32be, ItemsBytes, ItemBytes;
    NoItems();
    var total := 4;
    for i := 0 to |us|
      invariant Encodable(us[..i]) && total == 4 + |ItemsBytes(us[..i])|
    {
      if |us[i].name| > TWO_32 - 1 || |us[i].data| > TWO_32 - 1 {
        return None;
      }
      ItemsStep(us, i);
      total := total + 8 + |us[i].name| + |us[i].data|;
    }
    assert us[..|us|] == us;
    var a := new byte[total](_ => 0);
    assert a[0..] == Zeros(total);
    var offset: nat := Fill(a, 0, U32be(|us|));
    assert us[0..] == us;
    for i := 0 to |us|
      invariant offset + |ItemsBytes(us[i..])| == total
      invariant a[offset..] == Zeros(total - offset) && a[..offset] == U32be(|us|) + ItemsBytes(us[..i])
    {
      ItemsStep(us, i);
      offset := FillItem(a, offset, us[i]);
    }
    assert us[|us|..] == [] && a[..offset] == a[..];
    r := Some(a[..]);
  }

  method FillItem(a: array<byte>, start: nat, u: Update) returns (offset: nat)
    requires start + |ItemBytes(u)| <= a.Length && a[start..] == Zeros(a.Length - start)
    modifies a
    ensures offset == start + |ItemBytes(u)| && a[..offset] == old(a[..start]) + ItemBytes(u)
    ensures a[offset..] == Zeros(a.Length - offset)
  {
    hide U32be, Zeros;
    offset := Fill(a, start, U32be(|u.name|));
    offset := Fill(a, offset, u.name);
    offset := Fill(a, offset, U32be(|u.data|));
    offset := Fill(a, offset, u.data);
  }

  lemma NoItems()
    ensures ItemsBytes([]) == []
  {
  }

  lemma ItemsStep(us: seq<Update>, i: nat)
    requires i < |us|
    ensures ItemsBytes(us[..i + 1]) == ItemsBytes(us[..i]) + ItemBytes(us[i])
    ensures |ItemsBytes(us[i..])| == |ItemBytes(us[i])| + |ItemsBytes(us[i + 1..])|
    ensures |ItemBytes(us[i])| == 8 + |us[i].name| + |us[i].data|
  {
    hide U32be;
    ItemsAppend(us[..i], [us[i]]);
    assert us[..i + 1] == us[..i] + [us[i]] && [us[i]][1..] == [];
    assert ItemsBytes([us[i]]) == ItemBytes(us[i]) + ItemsBytes([]);
    assert us[i..][1..] == us[i + 1..];
  }

  lemma {:induction false} ItemsAppend(a: seq<Update>, b: seq<Update>)
    ensures ItemsBytes(a + b) == ItemsBytes(a) + ItemsBytes(b)
  {
    hide ItemBytes, ItemsBytes;
    ItemsBytesOf(a);
    if a == [] {
      assert a + b == b && [] + ItemsBytes(b) == ItemsBytes(b);
    } else {
      AppendTail(a, b);
      ItemsAppend(a[1..], b);
      ItemsBytesOf(a + b);
      Assoc(ItemBytes(a[0]), ItemsBytes(a[1..]), ItemsBytes(b));
    }
  }

  // ----- the decoder -----

  /** `ascii_case_equal` */
  method AsciiCaseEqual(left: bytes, right: bytes) returns (r: bool)
    ensures r == (Lower(left) == Lower(right))
  {
    if |left| != |right| {
      return false;
    }
    for i := 0 to |left|
      invariant forall k :: 0 <= k < i ==> LowerByte(left[k]) == LowerByte(right[k])
    {
      if LowerByte(left[i]) != LowerByte(right[i]) {
        assert Lower(left)[i] != Lower(right)[i];
        return false;
      }
    }
    assert Lower(left) == Lower(right);
    r := true;
  }

  /** `read_manifest_u32` */
  method ReadManifestU32(manifest: bytes, start: nat) returns (r: Option<nat>, offset: nat)
    requires start <= |manifest|
    ensures |manifest| - start < 4 ==> r == None && offset == start
    ensures |manifest| - start >= 4 ==> r == Some(GetU32be(manifest[start..])) && offset == start + 4
  {
    if |manifest| - start < 4 {
      return None, start;
    }
    r, offset := Some(GetU32be(manifest[start..])), start + 4;
  }

  method DecodeManifest(manifest: bytes, core: bytes) returns (r: Outcome)
    ensures r == Decoded(manifest, core)
  {
    hide GetU32be, ReadItems, Lower;
    var offset: nat := 0;
    var count;
    assert manifest[0..] == manifest;
    count, offset := ReadManifestU32(manifest, offset);
    if count.None? || count.value == 0 || count.value > MAX_COUNT {
      return FormatError;
    }
    var updates: seq<Update> := [];
    for i := 0 to count.value
      invariant 4 <= offset <= |manifest|
      invariant Decoded(manifest, core) == PrependItem(updates, ReadItems(manifest[offset..], count.value - i, core))
    {
      ItemAt(manifest, offset, count.value - i, core, updates);
      var nameSize;
      nameSize, offset := ReadManifestU32(manifest, offset);
      if nameSize.None? || nameSize.value == 0 || nameSize.value > |manifest| - offset {
        return FormatError;
      }
      var name := manifest[offset..offset + nameSize.value];
      offset := offset + nameSize.value;
      var dataSize;
      dataSize, offset := ReadManifestU32(manifest, offset);
      if dataSize.None? || dataSize.value > |manifest| - offset {
        return FormatError;
      }
      var readOnly := AsciiCaseEqual(name, core);
      if readOnly {
        return CoreReadOnly;
      }
      updates := updates + [Update(name, manifest[offset..offset + dataSize.value])];
      offset := offset + dataSize.value;
    }
    ItemsEnd(manifest[offset..], core);
    if offset != |manifest| {
      return FormatError;
    }
    assert updates + [] == updates;
    r := Ok(updates);
  }

  lemma ItemsEnd(m: bytes, core: bytes)
    ensures ReadItems(m, 0, core) == if m == [] then Ok([]) else FormatError
  {
  }

  /** One turn of the decoding loop, in terms of offsets. */
  lemma {:induction false} ItemAt(m: bytes, start: nat, count: nat, core: bytes, updates: seq<Update>)
    requires start <= |m| && count > 0
    ensures var r := PrependItem(updates, ReadItems(m[start..], count, core));
      if |m| - start < 4 || GetU32be(m[start..]) == 0 || GetU32be(m[start..]) > |m| - start - 4 then r == FormatError
      else
        var mid := start + 4 + GetU32be(m[start..]);
        if |m| - mid < 4 || GetU32be(m[mid..]) > |m| - mid - 4 then r == FormatError
        else
          var end := mid + 4 + GetU32be(m[mid..]);
          var u := Update(m[start + 4..mid], m[mid + 4..end]);
          if Lower(u.name) == Lower(core) then r == CoreReadOnly
          else r == PrependItem(updates + [u], ReadItems(m[end..], count - 1, core))
  {
    hide GetU32be, Lower, ReadItem;
    ItemReadAt(m, start);
    if ReadItem(m[start..]).Some? {
      var u := ReadItem(m[start..]).value;
      var end := start + 8 + |u.name| + |u.data|;
      assert m[start..][end - start..] == m[end..];
      var rest := ReadItems(m[end..], count - 1, core);
      if rest.Ok? {
        Assoc(updates, [u], rest.updates);
      }
    }
  }

  lemma ItemReadAt(m: bytes, start: nat)
    requires start <= |m|
    ensures ReadItem(m[start..]) ==
      if |m| - start < 4 || GetU32be(m[start..]) == 0 || GetU32be(m[start..]) > |m| - start - 4 then None
      else
        var mid := start + 4 + GetU32be(m[start..]);
        if |m| - mid < 4 || GetU32be(m[mid..]) > |m| - mid - 4 then None
        else Some(Update(m[start + 4..mid], m[mid + 4..mid + 4 + GetU32be(m[mid..])]))
  {
    hide GetU32be, ReadSized;
    SizedAt(m, start);
    if |m| - start >= 4 && 0 < GetU32be(m[start..]) <= |m| - start - 4 {
      var mid := start + 4 + GetU32be(m[start..]);
      assert m[start..][mid - start..] == m[mid..];
      SizedAt(m, mid);
    }
  }

  lemma SizedAt(m: bytes, start: nat)
    requires start <= |m|
    ensures ReadSized(m[start..]) ==
      if |m| - start < 4 || GetU32be(m[start..]) > |m| - start - 4 then None
      else Some(m[start + 4..start + 4 + GetU32be(m[start..])])
  {
    hide GetU32be;
    assert m[start..] == m[start..|m|];
    if |m| - start >= 4 && GetU32be(m[start..]) <= |m| - start - 4 {
      SliceOfSlice(m, start, |m|, 4, 4 + GetU32be(m[start..]));
    }
  }
}

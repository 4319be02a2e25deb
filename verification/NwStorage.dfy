/** The NumWorks script storage codec and script names (webtilp/numworks_storage.js:45-200). */
module NwStorage {
  import opened Bytes

  const MAGIC: bytes := [0xBA, 0xDD, 0x0B, 0xEE]
  const MAX_STORAGE_SIZE := 512 * 1024

  /** A stored record; its other JavaScript fields are functions of these two. */
  datatype Record = Record(name: bytes, data: bytes)

  datatype Storage = Storage(records: seq<Record>, usedBytes: nat, freeBytes: nat, footerValid: bool)

  // ----- derived fields -----

  const PY: bytes := [0x70, 0x79]
  const DOT_PY: bytes := [0x2E, 0x70, 0x79]

  /** `lastIndexOf('.')` */
  function LastDot(name: bytes): (r: int)
    ensures -1 <= r < |name|
  {
    if name == [] then -1
    else if name[|name| - 1] == 0x2E then |name| - 1
    else LastDot(name[..|name| - 1])
  }

  function TypeOf(name: bytes): bytes
  {
    var dot := LastDot(name);
    if dot > 0 then name[dot + 1..] else []
  }

  predicate IsPython(r: Record)
  {
    Lower(TypeOf(r.name)) == PY
  }

  predicate WellFormedScript(data: bytes)
  {
    |data| >= 2 && FirstNul(data[1..]) < |data| - 1
  }

  /** The `valid` flag the parser computes. */
  predicate ValidRecord(r: Record)
  {
    IsPython(r) ==> WellFormedScript(r.data)
  }

  function AutoImport(r: Record): bool
  {
    IsPython(r) && r.data != [] && r.data[0] % 2 == 1
  }

  function Key(r: Record): bytes
  {
    Lower(r.name)
  }

  // ----- layout -----

  function RecordSize(r: Record): nat
  {
    3 + |r.name| + |r.data|
  }

  function RecordBytes(r: Record): (b: bytes)
    ensures |b| == RecordSize(r)
  {
    U16le(RecordSize(r)) + r.name + [0] + r.data
  }

  function RecordsBytes(rs: seq<Record>): bytes
  {
    if rs == [] then [] else RecordBytes(rs[0]) + RecordsBytes(rs[1..])
  }

  function Prefix(rs: seq<Record>): (b: bytes)
    ensures |b| == 6 + |RecordsBytes(rs)|
  {
    MAGIC + RecordsBytes(rs) + [0, 0]
  }

  /** A record the format can hold. */
  predicate Storable(r: Record)
  {
    NulFree(r.name) && 4 <= RecordSize(r) < TWO_16
  }

  predicate AllStorable(rs: seq<Record>)
  {
    forall i :: 0 <= i < |rs| ==> Storable(rs[i])
  }

  // ----- reader -----

  function ReadRecord(region: bytes): (r: Option<Record>)
    ensures r.Some? ==> 4 <= RecordSize(r.value) <= |region|
  {
    if |region| < 2 || GetU16le(region) < 4 || GetU16le(region) > |region| then None
    else
      var body := region[2..GetU16le(region)];
      var k := FirstNul(body);
      if k == |body| then None else Some(Record(body[..k], body[k + 1..]))
  }

  /** The records before the zero-size terminator, `None` when a record is malformed or the terminator is missing. */
  function ReadRecords(region: bytes): Option<seq<Record>>
    decreases |region|
  {
    if |region| < 2 then None
    else if GetU16le(region) == 0 then Some([])
    else
      match ReadRecord(region)
      case None => None
      case Some(r) => Prepend([r], ReadRecords(region[RecordSize(r)..]))
  }

  predicate StorageSizeOk(size: nat)
  {
    0 < size <= MAX_STORAGE_SIZE
  }

  function RegionOf(image: bytes, size: nat): bytes
    requires |image| >= size + 8
  {
    image[4..4 + size]
  }

  predicate FooterValid(image: bytes, size: nat)
    requires |image| >= size + 8
  {
    image[4 + size..8 + size] == MAGIC
  }

  /** What `parseStorageImage` returns; `None` stands for its exceptions. */
  function ParsedStorage(image: bytes, size: nat): Option<Storage>
  {
    if !StorageSizeOk(size) || |image| < size + 8 || image[..4] != MAGIC then None
    else
      match ReadRecords(RegionOf(image, size))
      case None => None
      case Some(rs) =>
        ReadRecordsSound(RegionOf(image, size));
        Some(Storage(rs, |Prefix(rs)|, 4 + size - |Prefix(rs)|, FooterValid(image, size)))
  }

  /** What `encodeStoragePrefix` returns; `None` stands for its exceptions. */
  function EncodedPrefix(rs: seq<Record>, size: nat): Option<bytes>
  {
    if (forall i :: 0 <= i < |rs| ==> rs[i].name != [] && Storable(rs[i])) && (rs != [] ==> |Prefix(rs)| <= 4 + size)
    then Some(Prefix(rs)) else None
  }

  // ----- the codec inverts both ways -----

  lemma RecordRead(r: Record, rest: bytes)
    requires Storable(r)
    ensures ReadRecord(RecordBytes(r) + rest) == Some(r) && GetU16le(RecordBytes(r) + rest) == RecordSize(r)
  {
    hide U16le, GetU16le, FirstNul;
    var region, body := RecordBytes(r) + rest, r.name + [0] + r.data;
    assert region == U16le(RecordSize(r)) + (body + rest);
    U16leInverse(RecordSize(r), body + rest);
    assert region[2..RecordSize(r)] == body;
    FirstNulUnique(body, |r.name|);
    assert body[..|r.name|] == r.name && body[|r.name| + 1..] == r.data;
  }

  lemma ReadRecordFits(region: bytes)
    ensures ReadRecord(region).Some? ==>
      var r := ReadRecord(region).value;
      Storable(r) && StartsWith(region, RecordBytes(r)) && GetU16le(region) == RecordSize(r)
  {
    hide U16le, GetU16le, FirstNul;
    if ReadRecord(region).Some? {
      GetU16leInverse(region);
      var n := GetU16le(region);
      var body := region[2..n];
      var k := FirstNul(body);
      assert body == body[..k] + [0] + body[k + 1..];
      assert region[..n] == region[..2] + body;
    }
  }

  lemma {:induction false} ReadRecordsComplete(rs: seq<Record>, fill: bytes)
    requires AllStorable(rs)
    ensures ReadRecords(RecordsBytes(rs) + [0, 0] + fill) == Some(rs)
  {
    hide RecordBytes, ReadRecord, Storable, GetU16le;
    var region := RecordsBytes(rs) + [0, 0] + fill;
    if rs == [] {
      assert region == [0, 0] + fill;
      ZeroWord(fill);
    } else {
      var rest := RecordsBytes(rs[1..]) + [0, 0] + fill;
      assert region == RecordBytes(rs[0]) + rest;
      RecordRead(rs[0], rest);
      ReadRecordsComplete(rs[1..], fill);
      assert region[RecordSize(rs[0])..] == rest;
      assert [rs[0]] + rs[1..] == rs;
    }
  }

  lemma ZeroWord(fill: bytes)
    ensures GetU16le([0, 0] + fill) == 0
  {
  }

  lemma {:induction false} ReadRecordsSound(region: bytes)
    ensures ReadRecords(region).Some? ==>
      var rs := ReadRecords(region).value;
      && AllStorable(rs) && 2 + |RecordsBytes(rs)| <= |region|
      && region[..|RecordsBytes(rs)| + 2] == RecordsBytes(rs) + [0, 0]
    decreases |region|
  {
    hide RecordBytes, ReadRecord, Storable, GetU16le;
    if ReadRecords(region).Some? {
      if GetU16le(region) == 0 {
        ZeroWordBytes(region);
      } else {
        ReadRecordFits(region);
        var r := ReadRecord(region).value;
        var rest := region[RecordSize(r)..];
        ReadRecordsSound(rest);
        var rs := ReadRecords(region).value;
        assert rs[1..] == ReadRecords(rest).value;
        var n := |RecordsBytes(rs[1..])| + 2;
        assert region[..RecordSize(r) + n] == region[..RecordSize(r)] + rest[..n];
      }
    }
  }

  lemma ZeroWordBytes(region: bytes)
    requires |region| >= 2 && GetU16le(region) == 0
    ensures region[..2] == [0, 0]
  {
  }

  /** An image that starts with magic, records and terminator holds those records, nameless ones included. */
  lemma ParseOfPrefix(rs: seq<Record>, size: nat, image: bytes)
    requires StorageSizeOk(size) && |image| >= size + 8
    requires AllStorable(rs) && |Prefix(rs)| <= 4 + size && StartsWith(image, Prefix(rs))
    ensures ParsedStorage(image, size)
         == Some(Storage(rs, |Prefix(rs)|, 4 + size - |Prefix(rs)|, FooterValid(image, size)))
  {
    hide RecordsBytes, ReadRecords, Storable;
    var region := RegionOf(image, size);
    var n := |RecordsBytes(rs)|;
    assert image[..|Prefix(rs)|] == Prefix(rs);
    assert image[..4] == image[..|Prefix(rs)|][..4] == MAGIC;
    assert region[..n + 2] == image[..|Prefix(rs)|][4..] == RecordsBytes(rs) + [0, 0];
    assert region == RecordsBytes(rs) + [0, 0] + region[n + 2..];
    ReadRecordsComplete(rs, region[n + 2..]);
  }

  /** Encoding and then parsing, whatever bytes follow the prefix, gives the records back and measures the prefix. */
  lemma ParseOfEncode(rs: seq<Record>, size: nat, image: bytes)
    requires StorageSizeOk(size) && |image| >= size + 8
    requires EncodedPrefix(rs, size).Some? && |Prefix(rs)| <= 4 + size && StartsWith(image, Prefix(rs))
    ensures ParsedStorage(image, size)
         == Some(Storage(rs, |Prefix(rs)|, 4 + size - |Prefix(rs)|, FooterValid(image, size)))
  {
    hide Prefix, ParsedStorage, Storable;
    ParseOfPrefix(rs, size, image);
  }

  /** Encoding the records of a parsed image reproduces its used bytes, and fails only on an empty name. */
  lemma EncodeOfParse(image: bytes, size: nat, p: Storage)
    requires ParsedStorage(image, size) == Some(p)
    ensures p.usedBytes <= 4 + size && p.usedBytes + p.freeBytes == 4 + size
    ensures EncodedPrefix(p.records, size) ==
      if exists i :: 0 <= i < |p.records| && p.records[i].name == [] then None else Some(image[..p.usedBytes])
  {
    hide RecordsBytes, ReadRecords, Storable;
    var region := RegionOf(image, size);
    ReadRecordsSound(region);
    var n := |RecordsBytes(p.records)|;
    assert image[..p.usedBytes] == image[..4] + image[4..p.usedBytes];
    SliceOfSlice(image, 4, 4 + size, 0, n + 2);
    assert image[..p.usedBytes] == Prefix(p.records);
  }

  // ----- the loops -----

  method ReadName(bytes': bytes, nameStart: nat, recordEnd: nat) returns (nameEnd: nat)
    requires nameStart <= recordEnd <= |bytes'|
    ensures nameEnd == nameStart + FirstNul(bytes'[nameStart..recordEnd])
  {
    hide FirstNul;
    nameEnd := nameStart;
    ghost var body := bytes'[nameStart..recordEnd];
    while nameEnd < recordEnd && bytes'[nameEnd] != 0
      invariant nameStart <= nameEnd <= recordEnd
      invariant forall k :: 0 <= k < nameEnd - nameStart ==> body[k] != 0
    {
      assert body[nameEnd - nameStart] == bytes'[nameEnd];
      nameEnd := nameEnd + 1;
    }
    ghost var k := nameEnd - nameStart;
    assert k < |body| ==> body[k] == bytes'[nameEnd];
    if k < |body| {
      FirstNulUnique(body, k);
    }
  }

  lemma SizeField(image: bytes, offset: nat, limit: nat)
    requires offset + 2 <= limit <= |image|
    ensures GetU16le(image[offset..limit]) == GetU16le(image[offset..])
  {
  }

  lemma RegionStep(image: bytes, offset: nat, limit: nat)
    requires offset + 2 <= limit <= |image|
    ensures var n := GetU16le(image[offset..]);
      ReadRecords(image[offset..limit]) ==
        if n == 0 then Some([])
        else if n < 4 || offset + n > limit then None
        else
          var body := image[offset + 2..offset + n];
          var k := FirstNul(body);
          if k == |body| then None
          else Prepend([Record(body[..k], body[k + 1..])], ReadRecords(image[offset + n..limit]))
  {
    hide FirstNul, GetU16le;
    var region := image[offset..limit];
    var n := GetU16le(image[offset..]);
    assert GetU16le(region) == n by { SizeField(image, offset, limit); }
    if 4 <= n && offset + n <= limit {
      SliceOfSlice(image, offset, limit, 2, n);
      SliceOfSlice(image, offset, limit, n, limit - offset);
    }
  }

  method ParseStorageImage(image: bytes, size: nat) returns (r: Option<Storage>)
    ensures r == ParsedStorage(image, size)
  {
    hide ReadRecords, RecordsBytes, FirstNul, GetU16le, RecordBytes, Storable;
    if size == 0 || size > MAX_STORAGE_SIZE {
      return None;
    }
    if |image| < size + 8 {
      return None;
    }
    if image[..4] != MAGIC {
      return None;
    }
    var recordLimit := 4 + size;
    var records: seq<Record> := [];
    var offset, terminatorFound := 4, false;
    NoRecordBytes();
    while offset + 2 <= recordLimit
      invariant 4 <= offset <= recordLimit && offset == 4 + |RecordsBytes(records)|
      invariant ReadRecords(image[4..recordLimit]) == Prepend(records, ReadRecords(image[offset..recordLimit]))
      decreases recordLimit - offset
    {
      RegionStep(image, offset, recordLimit);
      var recordSize := GetU16le(image[offset..]);
      if recordSize == 0 {
        assert records + [] == records;
        offset := offset + 2;
        terminatorFound := true;
        break;
      }
      if recordSize < 4 || offset + recordSize > recordLimit {
        return None;
      }
      var nameStart, recordEnd := offset + 2, offset + recordSize;
      var nameEnd := ReadName(image, nameStart, recordEnd);
      if nameEnd >= recordEnd {
        return None;
      }
      ghost var body := image[nameStart..recordEnd];
      assert body[..nameEnd - nameStart] == image[nameStart..nameEnd];
      assert body[nameEnd - nameStart + 1..] == image[nameEnd + 1..recordEnd];
      var record := Record(image[nameStart..nameEnd], image[nameEnd + 1..recordEnd]);
      PrependStep(records, record, ReadRecords(image[recordEnd..recordLimit]));
      RecordsBytesAppend(records, [record]);
      OneRecordBytes(record);
      records := records + [record];
      offset := offset + recordSize;
    }
    if !terminatorFound {
      TooShort(image[offset..recordLimit]);
      return None;
    }
    var footerValid := image[4 + size..8 + size] == MAGIC;
    r := Some(Storage(records, offset, recordLimit - offset, footerValid));
  }

  lemma TooShort(region: bytes)
    requires |region| < 2
    ensures ReadRecords(region) == None
  {
  }

  lemma NoRecordBytes()
    ensures RecordsBytes([]) == []
  {
  }

  lemma OneRecordBytes(r: Record)
    ensures RecordsBytes([r]) == RecordBytes(r)
  {
    assert [r][1..] == [];
    assert RecordsBytes([r]) == RecordBytes(r) + RecordsBytes([]);
  }

  lemma {:induction false} RecordsBytesAppend(a: seq<Record>, b: seq<Record>)
    ensures RecordsBytes(a + b) == RecordsBytes(a) + RecordsBytes(b)
  {
    hide RecordBytes, RecordsBytes;
    RecordsBytesOf(a);
    if a == [] {
      assert a + b == b;
      assert [] + RecordsBytes(b) == RecordsBytes(b);
    } else {
      AppendTail(a, b);
      RecordsBytesAppend(a[1..], b);
      RecordsBytesOf(a + b);
      Assoc(RecordBytes(a[0]), RecordsBytes(a[1..]), RecordsBytes(b));
    }
  }

  lemma RecordsBytesOf(rs: seq<Record>)
    ensures rs == [] ==> RecordsBytes(rs) == []
    ensures rs != [] ==> RecordsBytes(rs) == RecordBytes(rs[0]) + RecordsBytes(rs[1..])
  {
    hide RecordBytes;
  }

  function Joined(chunks: seq<bytes>): bytes
  {
    if chunks == [] then [] else Joined(chunks[..|chunks| - 1]) + chunks[|chunks| - 1]
  }

  /** The reduction that sums the chunks' lengths. */
  method TotalLength(chunks: seq<bytes>) returns (sum: nat)
    ensures sum == |Joined(chunks)|
  {
    sum := 0;
    for i := 0 to |chunks|
      invariant sum == |Joined(chunks[..i])|
    {
      assert chunks[..i + 1][..i] == chunks[..i];
      sum := sum + |chunks[i]|;
    }
    assert chunks[..|chunks|] == chunks;
  }

  /**
   * `concatBytes`: the chunks in order, and zeros up to an announced total length; `None` stands for the exception of
   * a chunk that does not fit.
   */
  method ConcatBytes(chunks: seq<bytes>, totalLength: Option<nat>) returns (r: Option<bytes>)
    ensures var n, joined := if totalLength.Some? then totalLength.value else |Joined(chunks)|, Joined(chunks);
      r == if n < |joined| then None else Some(joined + Zeros(n - |joined|))
  {
    hide Zeros;
    var size: nat;
    if totalLength.Some? {
      size := totalLength.value;
    } else {
      size := TotalLength(chunks);
    }
    var output := new byte[size](_ => 0);
    assert output[0..] == Zeros(size) by { ZeroArray(output[..], size); }
    var offset: nat := 0;
    for i := 0 to |chunks|
      invariant offset == |Joined(chunks[..i])| && offset <= size
      invariant output[offset..] == Zeros(size - offset)
      invariant output[..offset] == Joined(chunks[..i])
    {
      assert chunks[..i + 1][..i] == chunks[..i];
      JoinedFits(chunks, i + 1);
      if offset + |chunks[i]| > size {
        return None;
      }
      offset := Fill(output, offset, chunks[i]);
    }
    assert chunks[..|chunks|] == chunks;
    assert output[..] == output[..offset] + output[offset..];
    return Some(output[..]);
  }

  lemma NoZeros(s: bytes)
    ensures s + Zeros(0) == s
  {
  }

  lemma ZeroArray(a: bytes, n: nat)
    requires |a| == n && forall i :: 0 <= i < n ==> a[i] == 0
    ensures a[0..] == Zeros(n)
  {
  }

  lemma {:induction false} JoinedFits(chunks: seq<bytes>, i: nat)
    requires i <= |chunks|
    ensures |Joined(chunks[..i])| <= |Joined(chunks)|
    decreases |chunks|
  {
    if i == |chunks| {
      assert chunks[..i] == chunks;
    } else {
      assert chunks[..|chunks| - 1][..i] == chunks[..i];
      JoinedFits(chunks[..|chunks| - 1], i);
    }
  }

  method EncodeStoragePrefix(records: seq<Record>, size: nat) returns (r: Option<bytes>)
    ensures r == EncodedPrefix(records, size)
  {
    hide RecordsBytes, RecordBytes;
    var chunks: seq<bytes> := [MAGIC];
    var prefixLimit, total := 4 + size, 4;
    NoRecordBytes();
    assert chunks[..0] == [] && Joined(chunks) == Joined([]) + MAGIC == MAGIC;
    for i := 0 to |records|
      invariant forall k :: 0 <= k < i ==> records[k].name != [] && Storable(records[k])
      invariant Joined(chunks) == MAGIC + RecordsBytes(records[..i]) && total == |Joined(chunks)|
      invariant i > 0 ==> total + 2 <= prefixLimit
    {
      var record := records[i];
      RecordsStep(records, i);
      if record.name == [] || !NulFree(record.name) {
        return None;
      }
      var recordSize := 2 + |record.name| + 1 + |record.data|;
      if recordSize > 0xFFFF {
        return None;
      }
      if total + recordSize + 2 > prefixLimit {
        return None;
      }
      assert Storable(record);
      var encoded := EncodeRecord(record);
      ghost var before := chunks;
      chunks := chunks + [encoded];
      assert chunks[..|chunks| - 1] == before;
      assert Joined(chunks) == MAGIC + (RecordsBytes(records[..i]) + encoded);
      total := total + recordSize;
    }
    ghost var before := chunks;
    chunks := chunks + [[0, 0]];
    assert chunks[..|chunks| - 1] == before && records[..|records|] == records;
    NoZeros(Joined(chunks));
    r := ConcatBytes(chunks, Some(total + 2));
  }

  lemma RecordsStep(records: seq<Record>, i: nat)
    requires i < |records|
    ensures RecordsBytes(records[..i + 1]) == RecordsBytes(records[..i]) + RecordBytes(records[i])
    ensures |RecordsBytes(records)| >= |RecordsBytes(records[..i + 1])|
  {
    hide RecordBytes;
    assert records[..i + 1] == records[..i] + [records[i]];
    RecordsBytesAppend(records[..i], [records[i]]);
    OneRecordBytes(records[i]);
    assert records == records[..i + 1] + records[i + 1..];
    RecordsBytesAppend(records[..i + 1], records[i + 1..]);
  }

  method EncodeRecord(record: Record) returns (encoded: bytes)
    ensures encoded == RecordBytes(record)
  {
    hide U16le, Zeros;
    var size := RecordSize(record);
    var a := new byte[size](_ => 0);
    assert a[0..] == Zeros(size) by { ZeroArray(a[..], size); }
    var offset: nat := Fill(a, 0, U16le(size));
    offset := Fill(a, offset, record.name);
    offset := Fill(a, offset, [0]);
    offset := Fill(a, offset, record.data);
    encoded := a[..];
    assert encoded == a[..offset];
  }
}

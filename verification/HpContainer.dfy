/** The HP Prime application container: layout and parser (webtilp/hp_prime_app.cpp:159-219, 364-447). */
module HpContainer {
  import opened Bytes
  import opened Utf

  datatype PartKind = Descriptor | Note | Program | Resource

  /** A parsed part, as offsets into the container. */
  datatype Part = Part(kind: PartKind, name: bytes, sectionOffset: nat, sectionSize: nat,
                       dataOffset: nat, dataSize: nat)

  /** A part by value: what a container means. */
  datatype Section = Section(kind: PartKind, name: bytes, payload: bytes)

  const CORE_KINDS: seq<PartKind> := [Descriptor, Note, Program]

  function CoreNames(app: bytes): (r: seq<bytes>)
    ensures |r| == 3
  {
    [app + HPAPP, app + HPAPP + NOTE_SUFFIX, app + HPAPP + PRGM_SUFFIX]
  }

  const HPAPP: bytes := [0x2E, 0x68, 0x70, 0x61, 0x70, 0x70]
  const NOTE_SUFFIX: bytes := [0x6E, 0x6F, 0x74, 0x65]
  const PRGM_SUFFIX: bytes := [0x70, 0x72, 0x67, 0x6D]

  // ----- resource names -----

  predicate NameByte(b: byte)
  {
    0x20 <= b && b != 0x7F && b != 0x2F && b != 0x5C
  }

  predicate ValidName(name: bytes)
  {
    && name != [] && name != [0x2E] && name != [0x2E, 0x2E]
    && (forall i :: 0 <= i < |name| ==> NameByte(name[i]))
    && ToUtf16(name).Some?
    && |ToUtf16(name).value| / 2 <= 128
  }

  method ValidResourceName(name: bytes) returns (encoded: Option<bytes>)
    ensures encoded == if ValidName(name) then ToUtf16(name) else None
  {
    hide ToUtf16;
    if name == [] || name == [0x2E] || name == [0x2E, 0x2E] {
      return None;
    }
    for i := 0 to |name|
      invariant forall k :: 0 <= k < i ==> NameByte(name[k])
    {
      if name[i] < 0x20 || name[i] == 0x7F || name[i] == 0x2F || name[i] == 0x5C {
        return None;
      }
    }
    encoded := EncodeUtf16le(name);
    if encoded.Some? {
      EncodedNameNonEmpty(name);
    }
    if encoded.None? || encoded.value == [] {
      return None;
    }
    if |encoded.value| / 2 > 128 {
      return None;
    }
  }

  /** Offset of the first aligned zero unit of a resource section body. */
  function NameEnd(field: bytes): (r: Option<nat>)
    ensures r.Some? ==> r.value % 2 == 0 && r.value + 2 <= |field|
  {
    if |field| < 2 then None
    else if field[0] == 0 && field[1] == 0 then Some(0)
    else
      match NameEnd(field[2..])
      case None => None
      case Some(k) => Some(k + 2)
  }

  lemma {:induction false} NameEndSplits(field: bytes)
    ensures NameEnd(field).Some? ==>
      var k := NameEnd(field).value;
      field[k..k + 2] == [0, 0] && NameEnd(field[..k]) == None
  {
    if NameEnd(field).Some? && NameEnd(field) != Some(0) {
      NameEndSplits(field[2..]);
      var k := NameEnd(field).value;
      SliceOfSlice(field, 2, |field|, k - 2, k);
      assert field[..k][2..] == field[2..][..k - 2];
    }
  }

  lemma {:induction false} NameEndFound(encoded: bytes, rest: bytes)
    requires |encoded| % 2 == 0 && NameEnd(encoded) == None
    ensures NameEnd(encoded + [0, 0] + rest) == Some(|encoded|)
    decreases |encoded|
  {
    var field := encoded + [0, 0] + rest;
    if encoded != [] {
      NameEndFound(encoded[2..], rest);
      assert field[2..] == encoded[2..] + [0, 0] + rest;
    }
  }

  lemma {:induction false} Utf16HasNoZeroUnit(cs: seq<Scalar>)
    requires 0 !in cs
    ensures |Utf16All(cs)| % 2 == 0 && NameEnd(Utf16All(cs)) == None
  {
    hide Utf16, NameEnd;
    assert NameEnd([]) == None by { NoNameEnd(); }
    if cs != [] {
      Utf16HasNoZeroUnit(cs[1..]);
      ZeroUnitSkip(cs[0], Utf16All(cs[1..]));
    }
  }

  lemma NoNameEnd()
    ensures NameEnd([]) == None
  {
  }

  lemma ZeroUnitSkip(c: Scalar, rest: bytes)
    requires c != 0 && NameEnd(rest) == None
    ensures NameEnd(Utf16(c) + rest) == None
  {
    hide NameEnd;
    var s := Utf16(c) + rest;
    if c < 0x1_0000 {
      assert s[2..] == rest;
      NonZeroUnit(c, rest);
    } else {
      var hi, lo := 0xD800 + (c - 0x1_0000) / 0x400, 0xDC00 + (c - 0x1_0000) % 0x400;
      NonZeroUnit(lo, rest);
      NonZeroUnit(hi, U16le(lo) + rest);
      assert s == U16le(hi) + (U16le(lo) + rest);
    }
  }

  lemma NonZeroUnit(u: nat, rest: bytes)
    requires 0 < u < TWO_16 && NameEnd(rest) == None
    ensures NameEnd(U16le(u) + rest) == None
  {
    var s := U16le(u) + rest;
    assert s[2..] == rest;
    assert u == u % 0x100 + u / 0x100 * 0x100;
  }

  lemma {:induction false} NulFreeScalars(s: bytes)
    requires NulFree(s) && ScalarsOfUtf8(s).Some?
    ensures 0 !in ScalarsOfUtf8(s).value
    decreases |s|
  {
    hide Utf8;
    if s != [] {
      Head8Fits(s);
      var c := Head8(s).value;
      if c == 0 {
        NulHead(s);
      }
      NulFreeScalars(s[|Utf8(c)|..]);
    }
  }

  lemma NulHead(s: bytes)
    requires s != [] && Head8(s) == Some(0)
    ensures s[0] == 0
  {
  }

  lemma EncodedNameNonEmpty(name: bytes)
    requires name != [] && ToUtf16(name).Some?
    ensures ToUtf16(name).value != []
  {
    Head8Fits(name);
  }

  /** A valid name encodes to a non-empty run of non-zero units. */
  lemma EncodedName(name: bytes)
    requires ValidName(name)
    ensures var e := ToUtf16(name).value;
      0 < |e| <= 257 && |e| % 2 == 0 && NameEnd(e) == None && ToUtf8(e) == Some(name)
  {
    EncodedNameNonEmpty(name);
    NulFreeScalars(name);
    Utf16HasNoZeroUnit(ScalarsOfUtf8(name).value);
    TranscodingIsBijective(ToUtf16(name).value, name);
  }

  // ----- layout -----

  /** A length-prefixed field; the length is a 32-bit big-endian word. */
  function Field(body: bytes): bytes
  {
    U32be(|body|) + body
  }

  function ResourceBody(name: bytes, payload: bytes): bytes
    requires ToUtf16(name).Some?
  {
    ToUtf16(name).value + [0, 0] + payload
  }

  predicate WellFormedSection(s: Section)
  {
    if s.kind.Resource? then ValidName(s.name) && |ResourceBody(s.name, s.payload)| < TWO_32
    else |s.payload| < TWO_32
  }

  function SectionBytes(s: Section): (r: bytes)
    requires WellFormedSection(s)
  {
    if s.kind.Resource? then Field(ResourceBody(s.name, s.payload)) else Field(s.payload)
  }

  predicate AllWellFormed(ss: seq<Section>)
  {
    forall i :: 0 <= i < |ss| ==> WellFormedSection(ss[i])
  }

  /** The concatenation of the sections. */
  function Layout(ss: seq<Section>): bytes
    requires AllWellFormed(ss)
  {
    if ss == [] then [] else SectionBytes(ss[0]) + Layout(ss[1..])
  }

  predicate ResourceSections(ss: seq<Section>)
  {
    && (forall i :: 0 <= i < |ss| ==> ss[i].kind.Resource?)
    && (forall i, j :: 0 <= i < j < |ss| ==> Lower(ss[i].name) != Lower(ss[j].name))
  }

  /** The part lists a container can hold from core part `i` on: core sections, then resources with distinct names. */
  predicate WellFormedFrom(ss: seq<Section>, app: bytes, i: nat)
    requires i <= 3
  {
    && |ss| >= 3 - i && AllWellFormed(ss)
    && (forall k :: i <= k < 3 ==> ss[k - i].kind == CORE_KINDS[k] && ss[k - i].name == CoreNames(app)[k])
    && ResourceSections(ss[3 - i..])
  }

  predicate WellFormed(ss: seq<Section>, app: bytes)
  {
    WellFormedFrom(ss, app, 0)
  }

  /** Where `s` lies when its section starts at `offset`. */
  function PartAt(s: Section, offset: nat): Part
    requires WellFormedSection(s)
  {
    var size := |SectionBytes(s)|;
    Part(s.kind, s.name, offset, size, offset + size - |s.payload|, |s.payload|)
  }

  function PartsOf(ss: seq<Section>, offset: nat): (r: seq<Part>)
    requires AllWellFormed(ss)
    ensures |r| == |ss|
  {
    if ss == [] then [] else [PartAt(ss[0], offset)] + PartsOf(ss[1..], offset + |SectionBytes(ss[0])|)
  }

  // ----- the reader -----

  /** The body of the length-prefixed field at the head of `data`. */
  function ReadField(data: bytes): (r: Option<bytes>)
  {
    if |data| < 4 || GetU32be(data) > |data| - 4 then None else Some(data[4..4 + GetU32be(data)])
  }

  function ReadResourceBody(field: bytes): Option<Section>
  {
    match NameEnd(field)
    case None => None
    case Some(k) =>
      if k == 0 || ToUtf8(field[..k]).None? || !ValidName(ToUtf8(field[..k]).value) then None
      else Some(Section(Resource, ToUtf8(field[..k]).value, field[k + 2..]))
  }

  function ReadResource(data: bytes): Option<Section>
  {
    match ReadField(data)
    case None => None
    case Some(field) => ReadResourceBody(field)
  }

  function Keys(ss: seq<Section>): set<bytes>
  {
    set i | 0 <= i < |ss| :: Lower(ss[i].name)
  }

  lemma FieldInverse(body: bytes, rest: bytes)
    requires |body| < TWO_32
    ensures ReadField(Field(body) + rest) == Some(body)
  {
    hide GetU32be, U32be;
    var data := Field(body) + rest;
    assert data == U32be(|body|) + (body + rest);
    U32beInverse(|body|, body + rest);
    assert data[4..4 + |body|] == body;
  }

  lemma ReadFieldFits(data: bytes)
    ensures ReadField(data).Some? ==>
      |ReadField(data).value| < TWO_32 && StartsWith(data, Field(ReadField(data).value))
  {
    hide GetU32be, U32be;
    if ReadField(data).Some? {
      GetU32beInverse(data);
      assert data[..4 + GetU32be(data)] == data[..4] + data[4..4 + GetU32be(data)];
    }
  }

  lemma ReadResourceInverse(s: Section, rest: bytes)
    requires s.kind.Resource? && WellFormedSection(s)
    ensures ReadResource(SectionBytes(s) + rest) == Some(s)
  {
    hide NameEnd, ToUtf16, ToUtf8, Field, ReadField;
    var body := ResourceBody(s.name, s.payload);
    var e := ToUtf16(s.name).value;
    FieldInverse(body, rest);
    EncodedName(s.name);
    NameEndFound(e, s.payload);
    assert body[..|e|] == e && body[|e| + 2..] == s.payload;
  }

  lemma ReadResourceFits(data: bytes)
    ensures ReadResource(data).Some? ==>
      var s := ReadResource(data).value;
      && s.kind.Resource? && WellFormedSection(s) && StartsWith(data, SectionBytes(s))
      && ResourceBody(s.name, s.payload) == ReadField(data).value
  {
    hide NameEnd, ToUtf16, ToUtf8, Field, ReadField;
    if ReadResource(data).Some? {
      ReadFieldFits(data);
      var field := ReadField(data).value;
      var k := NameEnd(field).value;
      NameEndSplits(field);
      TranscodingIsBijective(field[..k], ToUtf8(field[..k]).value);
      assert field == field[..k] + field[k..k + 2] + field[k + 2..];
    }
  }

  /** The resources in `data`, none of whose keys is in `keys` or repeated. */
  function ReadResources(data: bytes, keys: set<bytes>): Option<seq<Section>>
    decreases |data|
  {
    if data == [] then Some([])
    else
      ReadResourceFits(data);
      match ReadResource(data)
      case None => None
      case Some(s) =>
        if Lower(s.name) in keys then None
        else Prepend([s], ReadResources(data[|SectionBytes(s)|..], keys + {Lower(s.name)}))
  }

  /** The sections of `data`, read as the tail of a container that starts at core part `i`. */
  function ReadSectionsFrom(data: bytes, app: bytes, i: nat): Option<seq<Section>>
    requires i <= 3
    decreases 3 - i
  {
    if i == 3 then ReadResources(data, {})
    else
      ReadFieldFits(data);
      match ReadField(data)
      case None => None
      case Some(body) =>
        Prepend([Section(CORE_KINDS[i], CoreNames(app)[i], body)],
                ReadSectionsFrom(data[|Field(body)|..], app, i + 1))
  }

  /** The part list of a container, `None` for bytes that are not one. */
  function ReadSections(data: bytes, app: bytes): Option<seq<Section>>
  {
    ReadSectionsFrom(data, app, 0)
  }

  // ----- the reader accepts exactly the layouts -----

  lemma {:induction false} LayoutAppend(a: seq<Section>, b: seq<Section>)
    requires AllWellFormed(a) && AllWellFormed(b)
    ensures AllWellFormed(a + b) && Layout(a + b) == Layout(a) + Layout(b)
  {
    hide SectionBytes, WellFormedSection;
    if a == [] {
      assert a + b == b;
    } else {
      LayoutAppend(a[1..], b);
      assert (a + b)[1..] == a[1..] + b;
    }
  }

  lemma {:induction false} PartsAppend(a: seq<Section>, b: seq<Section>, offset: nat)
    requires AllWellFormed(a) && AllWellFormed(b)
    ensures AllWellFormed(a + b) && PartsOf(a + b, offset) == PartsOf(a, offset) + PartsOf(b, offset + |Layout(a)|)
  {
    hide SectionBytes, WellFormedSection, PartAt, PartsOf, Layout;
    forall i | 0 <= i < |a + b| ensures WellFormedSection((a + b)[i]) {
      assert (a + b)[i] == if i < |a| then a[i] else b[i - |a|];
    }
    if a == [] {
      assert a + b == b;
      NoParts(offset);
      assert [] + PartsOf(b, offset) == PartsOf(b, offset);
    } else {
      var next := offset + |SectionBytes(a[0])|;
      AppendTail(a, b);
      PartsAppend(a[1..], b, next);
      PartsOfCons(a, offset);
      PartsOfCons(a + b, offset);
      Assoc([PartAt(a[0], offset)], PartsOf(a[1..], next), PartsOf(b, offset + |Layout(a)|));
    }
  }

  lemma NoParts(offset: nat)
    ensures PartsOf([], offset) == [] && Layout([]) == []
  {
  }

  lemma PartsOfCons(ss: seq<Section>, offset: nat)
    requires ss != [] && AllWellFormed(ss)
    ensures AllWellFormed(ss[1..]) && |Layout(ss)| == |SectionBytes(ss[0])| + |Layout(ss[1..])|
    ensures PartsOf(ss, offset) == [PartAt(ss[0], offset)] + PartsOf(ss[1..], offset + |SectionBytes(ss[0])|)
  {
    hide SectionBytes, WellFormedSection, PartAt;
  }

  lemma {:induction false} ResourcesSound(data: bytes, keys: set<bytes>)
    ensures ReadResources(data, keys).Some? ==>
      var ss := ReadResources(data, keys).value;
      AllWellFormed(ss) && ResourceSections(ss) && Keys(ss) !! keys && Layout(ss) == data
    decreases |data|
  {
    hide SectionBytes, WellFormedSection, ReadResource, Lower;
    if data != [] && ReadResources(data, keys).Some? {
      ReadResourceFits(data);
      var s := ReadResource(data).value;
      SectionNonEmpty(s);
      var rest := data[|SectionBytes(s)|..];
      ResourcesSound(rest, keys + {Lower(s.name)});
      var ss := ReadResources(rest, keys + {Lower(s.name)}).value;
      forall j | 0 <= j < |ss| ensures Lower(ss[j].name) != Lower(s.name) && Lower(ss[j].name) !in keys {
        assert Lower(ss[j].name) in Keys(ss);
      }
      assert ([s] + ss)[1..] == ss;
    }
  }

  lemma {:induction false} ResourcesComplete(ss: seq<Section>, keys: set<bytes>)
    requires AllWellFormed(ss) && ResourceSections(ss) && Keys(ss) !! keys
    ensures ReadResources(Layout(ss), keys) == Some(ss)
  {
    hide SectionBytes, WellFormedSection, ReadResource, Lower;
    if ss != [] {
      var s, tail := ss[0], ss[1..];
      var data := Layout(ss);
      ReadResourceInverse(s, Layout(tail));
      SectionNonEmpty(s);
      assert Lower(s.name) in Keys(ss);
      forall k | k in Keys(tail) ensures k !in keys + {Lower(s.name)} {
        var j :| 0 <= j < |tail| && k == Lower(tail[j].name);
        assert tail[j] == ss[j + 1];
        assert k in Keys(ss);
      }
      ResourcesComplete(tail, keys + {Lower(s.name)});
      assert data[|SectionBytes(s)|..] == Layout(tail);
      assert [s] + tail == ss;
    }
  }

  lemma SectionNonEmpty(s: Section)
    requires WellFormedSection(s)
    ensures |SectionBytes(s)| >= 4 + |s.payload|
  {
  }

  lemma {:induction false} ReadSound(data: bytes, app: bytes, i: nat)
    requires i <= 3
    ensures ReadSectionsFrom(data, app, i).Some? ==>
      var ss := ReadSectionsFrom(data, app, i).value;
      WellFormedFrom(ss, app, i) && Layout(ss) == data
    decreases 3 - i
  {
    hide Field, ReadField, CoreNames, ReadResources, WellFormedFrom, Layout;
    if i == 3 {
      ResourcesSound(data, {});
      if ReadResources(data, {}).Some? {
        ResourcesAreWellFormed(ReadResources(data, {}).value, app);
      }
    } else if ReadSectionsFrom(data, app, i).Some? {
      ReadFieldFits(data);
      var body := ReadField(data).value;
      var rest := data[|Field(body)|..];
      ReadSound(rest, app, i + 1);
      CoreInFront(Section(CORE_KINDS[i], CoreNames(app)[i], body), ReadSectionsFrom(rest, app, i + 1).value, app, i);
    }
  }

  lemma ResourcesAreWellFormed(ss: seq<Section>, app: bytes)
    requires AllWellFormed(ss) && ResourceSections(ss)
    ensures WellFormedFrom(ss, app, 3)
  {
    hide WellFormedSection, CoreNames, ResourceSections;
    assert ss[0..] == ss;
  }

  lemma CoreInFront(s: Section, tail: seq<Section>, app: bytes, i: nat)
    requires i < 3 && WellFormedFrom(tail, app, i + 1)
    requires s.kind == CORE_KINDS[i] && s.name == CoreNames(app)[i] && |s.payload| < TWO_32
    ensures WellFormedFrom([s] + tail, app, i) && Layout([s] + tail) == Field(s.payload) + Layout(tail)
  {
    hide Field, CoreNames, ResourceSections, AllWellFormed, Layout, SectionBytes;
    var ss := [s] + tail;
    CoreSection(s, i);
    ConsLayout(s, tail);
    assert ss[3 - i..] == tail[3 - (i + 1)..];
    forall k | i <= k < 3 ensures ss[k - i].kind == CORE_KINDS[k] && ss[k - i].name == CoreNames(app)[k] {
      assert k > i ==> ss[k - i] == tail[k - (i + 1)];
    }
  }

  lemma CoreSection(s: Section, i: nat)
    requires i < 3 && s.kind == CORE_KINDS[i] && |s.payload| < TWO_32
    ensures WellFormedSection(s) && SectionBytes(s) == Field(s.payload)
  {
    hide Field;
    assert !s.kind.Resource?;
  }

  lemma ConsLayout(s: Section, rest: seq<Section>)
    ensures AllWellFormed([s] + rest) <==> WellFormedSection(s) && AllWellFormed(rest)
    ensures AllWellFormed([s] + rest) ==> Layout([s] + rest) == SectionBytes(s) + Layout(rest)
  {
    hide WellFormedSection, SectionBytes;
    var ss := [s] + rest;
    assert ss[1..] == rest && ss[0] == s;
    if AllWellFormed(ss) {
      forall k | 0 <= k < |rest| ensures WellFormedSection(rest[k]) { assert rest[k] == ss[k + 1]; }
    }
  }

  lemma {:induction false} ReadComplete(ss: seq<Section>, app: bytes, i: nat)
    requires i <= 3 && WellFormedFrom(ss, app, i)
    ensures ReadSectionsFrom(Layout(ss), app, i) == Some(ss)
    decreases 3 - i
  {
    hide Field, ReadField, CoreNames, ReadResources, WellFormedFrom, Layout;
    if i == 3 {
      NoCoresLeft(ss, app);
      ResourcesComplete(ss, {});
    } else {
      CoreThenRest(ss, app, i);
      var s, tail := ss[0], ss[1..];
      FieldInverse(s.payload, Layout(tail));
      ReadComplete(tail, app, i + 1);
      assert (Field(s.payload) + Layout(tail))[|Field(s.payload)|..] == Layout(tail);
      assert [s] + tail == ss;
    }
  }

  lemma NoCoresLeft(ss: seq<Section>, app: bytes)
    requires WellFormedFrom(ss, app, 3)
    ensures AllWellFormed(ss) && ResourceSections(ss)
  {
    hide WellFormedSection, ResourceSections;
    assert ss[0..] == ss;
  }

  lemma CoreThenRest(ss: seq<Section>, app: bytes, i: nat)
    requires i < 3 && WellFormedFrom(ss, app, i)
    ensures ss != [] && AllWellFormed(ss[1..]) && ss[0] == Section(CORE_KINDS[i], CoreNames(app)[i], ss[0].payload)
    ensures |ss[0].payload| < TWO_32 && Layout(ss) == Field(ss[0].payload) + Layout(ss[1..])
    ensures WellFormedFrom(ss[1..], app, i + 1)
  {
    hide SectionBytes, WellFormedSection, CoreNames, ResourceSections, Layout;
    var s, tail := ss[0], ss[1..];
    assert ss == [s] + tail;
    assert ss[i - i].kind == CORE_KINDS[i] && s.name == CoreNames(app)[i];
    ConsLayout(s, tail);
    CoreBytes(s);
    forall k | i + 1 <= k < 3
      ensures tail[k - (i + 1)].kind == CORE_KINDS[k] && tail[k - (i + 1)].name == CoreNames(app)[k]
    {
      assert tail[k - (i + 1)] == ss[k - i];
    }
    assert tail[3 - (i + 1)..] == ss[3 - i..];
  }

  lemma CoreBytes(s: Section)
    requires WellFormedSection(s) && !s.kind.Resource?
    ensures |s.payload| < TWO_32 && SectionBytes(s) == Field(s.payload)
  {
    hide Field;
  }

  /** `parse` accepts exactly the byte strings that lay out a well-formed part list. */
  lemma ContainerIff(data: bytes, app: bytes, ss: seq<Section>)
    ensures ReadSections(data, app) == Some(ss) <==> WellFormed(ss, app) && data == Layout(ss)
  {
    hide ReadSectionsFrom, CoreNames, ResourceSections;
    ReadSound(data, app, 0);
    if WellFormed(ss, app) && data == Layout(ss) {
      ReadComplete(ss, app, 0);
    }
  }

  // ----- the parser -----

  /** What `parse` returns. */
  function Parsed(data: bytes, app: bytes): Option<seq<Part>>
  {
    match ReadSections(data, app)
    case None => None
    case Some(ss) =>
      ContainerIff(data, app, ss);
      Some(PartsOf(ss, 0))
  }

  /** `read_u32be` */
  method ReadU32be(data: bytes, offset: nat) returns (r: Option<nat>)
    requires offset <= |data|
    ensures r == if |data| - offset < 4 then None else Some(GetU32be(data[offset..]))
  {
    if |data| - offset < 4 {
      return None;
    }
    r := Some(GetU32be(data[offset..]));
  }

  /** The terminator search of `parse`: an offset inside the field, in steps of one unit. */
  method FindTerminator(field: bytes) returns (r: Option<nat>)
    ensures r == NameEnd(field)
  {
    var terminator := 0;
    assert field[0..] == field;
    while terminator + 1 < |field|
      invariant terminator <= |field|
      invariant match NameEnd(field[terminator..])
                case None => NameEnd(field).None?
                case Some(k) => NameEnd(field) == Some(terminator + k)
    {
      assert field[terminator..][2..] == field[terminator + 2..];
      if field[terminator] == 0 && field[terminator + 1] == 0 {
        return Some(terminator);
      }
      terminator := terminator + 2;
    }
    r := None;
  }

  lemma CoreStep(data: bytes, app: bytes, i: nat, offset: nat)
    requires i < 3 && offset <= |data|
    ensures var rest := data[offset..];
      if |rest| < 4 || GetU32be(rest) > |rest| - 4 then ReadSectionsFrom(rest, app, i).None?
      else
        var end := offset + 4 + GetU32be(rest);
        var s := Section(CORE_KINDS[i], CoreNames(app)[i], data[offset + 4..end]);
        && WellFormedSection(s) && |SectionBytes(s)| == end - offset
        && PartAt(s, offset) == Part(s.kind, s.name, offset, end - offset, offset + 4, end - offset - 4)
        && ReadSectionsFrom(rest, app, i) == Prepend([s], ReadSectionsFrom(data[end..], app, i + 1))
  {
    hide GetU32be, U32be, CoreNames, ReadResources;
    var rest := data[offset..];
    ReadFieldFits(rest);
    if ReadField(rest).Some? {
      var end := offset + 4 + GetU32be(rest);
      assert ReadField(rest).value == data[offset + 4..end];
      assert rest[end - offset..] == data[end..];
    }
  }

  lemma ResourceStep(data: bytes, offset: nat, names: set<bytes>)
    requires offset < |data|
    ensures var rest := data[offset..];
      match ReadResource(rest)
      case None => ReadResources(rest, names).None?
      case Some(s) =>
        && s.kind.Resource? && WellFormedSection(s) && offset + |SectionBytes(s)| <= |data|
        && ReadResources(rest, names) ==
           if Lower(s.name) in names then None
           else Prepend([s], ReadResources(data[offset + |SectionBytes(s)|..], names + {Lower(s.name)}))
  {
    hide ReadResource, SectionBytes, WellFormedSection, Lower;
    var rest := data[offset..];
    ReadResourceFits(rest);
    if ReadResource(rest).Some? {
      var s := ReadResource(rest).value;
      assert rest[|SectionBytes(s)|..] == data[offset + |SectionBytes(s)|..];
    }
  }

  lemma PushPart(done: seq<Section>, s: Section)
    requires AllWellFormed(done) && WellFormedSection(s)
    ensures AllWellFormed(done + [s]) && |Layout(done + [s])| == |Layout(done)| + |SectionBytes(s)|
    ensures PartsOf(done + [s], 0) == PartsOf(done, 0) + [PartAt(s, |Layout(done)|)]
  {
    hide WellFormedSection, SectionBytes, PartAt;
    LayoutAppend(done, [s]);
    PartsAppend(done, [s], 0);
    assert [s][1..] == [];
  }

  /** The part read by one turn of the resource loop of `parse`, before the duplicate-name test. */
  method ReadResourcePart(data: bytes, offset: nat) returns (r: Option<Part>)
    requires offset < |data|
    ensures match ReadResource(data[offset..])
            case None => r == None
            case Some(s) => WellFormedSection(s) && r == Some(PartAt(s, offset))
  {
    hide NameEnd, ToUtf8, ToUtf16, GetU32be, U32be;
    ghost var rest := data[offset..];
    var fieldSize := ReadU32be(data, offset);
    if fieldSize.None? || fieldSize.value > |data| - offset - 4 || fieldSize.value < 2 {
      return None;
    }
    var field := data[offset + 4..offset + 4 + fieldSize.value];
    assert rest[4..4 + fieldSize.value] == field;
    var terminator := FindTerminator(field);
    if terminator.None? || terminator.value == 0 {
      return None;
    }
    var name := DecodeUtf16le(field[..terminator.value]);
    if name.None? {
      return None;
    }
    var encoded := ValidResourceName(name.value);
    if encoded.None? {
      return None;
    }
    ReadResourceFits(rest);
    TranscodingIsBijective(field[..terminator.value], name.value);
    r := Some(Part(Resource, name.value, offset, 4 + fieldSize.value,
                   offset + 4 + terminator.value + 2, fieldSize.value - terminator.value - 2));
  }

  method Parse(data: bytes, app: bytes) returns (r: Option<seq<Part>>)
    requires |data| < TWO_32
    ensures r == Parsed(data, app)
  {
    hide SectionBytes, WellFormedSection, CoreNames, ReadResource, ReadField, PartAt, ResourceSections, Lower,
         ReadSectionsFrom, ReadResources, WellFormed, Layout, PartsOf, GetU32be;
    var parts: seq<Part>, offset := [], 0;
    ghost var done: seq<Section> := [];
    assert data[0..] == data;
    EmptyLayout();
    for i := 0 to 3
      invariant offset <= |data| && AllWellFormed(done)
      invariant offset == |Layout(done)| && parts == PartsOf(done, 0)
      invariant ReadSections(data, app) == Prepend(done, ReadSectionsFrom(data[offset..], app, i))
    {
      CoreStep(data, app, i, offset);
      var fieldSize := ReadU32be(data, offset);
      if fieldSize.None? || fieldSize.value > |data| - offset - 4 {
        return None;
      }
      var end := offset + 4 + fieldSize.value;
      ghost var s := Section(CORE_KINDS[i], CoreNames(app)[i], data[offset + 4..end]);
      PushPart(done, s);
      PrependStep(done, s, ReadSectionsFrom(data[end..], app, i + 1));
      done := done + [s];
      parts := parts +
        [Part(CORE_KINDS[i], CoreNames(app)[i], offset, 4 + fieldSize.value, offset + 4, fieldSize.value)];
      offset := end;
    }
    ResourcesFromHere(data[offset..], app);
    var names: set<bytes> := {};
    while offset < |data|
      invariant offset <= |data| && AllWellFormed(done)
      invariant offset == |Layout(done)| && parts == PartsOf(done, 0)
      invariant ReadSections(data, app) == Prepend(done, ReadResources(data[offset..], names))
    {
      ResourceStep(data, offset, names);
      var part := ReadResourcePart(data, offset);
      if part.None? {
        return None;
      }
      ghost var s := ReadResource(data[offset..]).value;
      PartSize(s, offset);
      var nameKey := Lower(part.value.name);
      if nameKey in names {
        return None;
      }
      PushPart(done, s);
      PrependStep(done, s, ReadResources(data[offset + |SectionBytes(s)|..], names + {nameKey}));
      names := names + {nameKey};
      done := done + [s];
      parts := parts + [part.value];
      offset := offset + part.value.sectionSize;
    }
    assert done + [] == done;
    assert data[offset..] == [];
    ResourcesEnd(names);
    r := Some(parts);
  }

  lemma EmptyLayout()
    ensures Layout([]) == [] && PartsOf([], 0) == []
  {
  }

  lemma ResourcesEnd(keys: set<bytes>)
    ensures ReadResources([], keys) == Some([])
  {
  }

  lemma ResourcesFromHere(data: bytes, app: bytes)
    ensures ReadSectionsFrom(data, app, 3) == ReadResources(data, {})
  {
  }

  lemma PartSize(s: Section, offset: nat)
    requires WellFormedSection(s)
    ensures PartAt(s, offset).sectionSize == |SectionBytes(s)| > 0 && PartAt(s, offset).name == s.name
  {
  }

  // ----- small containers -----

  /** The three core sections of an application. */
  function CoreList(app: bytes, program: bytes): seq<Section>
  {
    [Section(Descriptor, CoreNames(app)[0], []), Section(Note, CoreNames(app)[1], []),
     Section(Program, CoreNames(app)[2], program)]
  }

  lemma CoreListIsWellFormed(app: bytes, program: bytes)
    requires |program| < TWO_32
    ensures WellFormed(CoreList(app, program), app)
  {
    hide CoreNames;
    var ss := CoreList(app, program);
    assert ss[3..] == [];
    assert CORE_KINDS[0] == Descriptor && CORE_KINDS[1] == Note && CORE_KINDS[2] == Program;
    forall k | 0 <= k < 3 ensures ss[k - 0].kind == CORE_KINDS[k] && ss[k - 0].name == CoreNames(app)[k] {
    }
  }

  lemma OneResourceIsWellFormed(app: bytes, s: Section)
    requires s.kind.Resource? && WellFormedSection(s)
    ensures WellFormed(CoreList(app, []) + [s], app)
  {
    hide CoreNames, WellFormedSection;
    CoreListIsWellFormed(app, []);
    var cores := CoreList(app, []);
    var ss := cores + [s];
    assert ss[3..] == [s];
    forall k | 0 <= k < 3 ensures ss[k - 0].kind == CORE_KINDS[k] && ss[k - 0].name == CoreNames(app)[k] {
      assert cores[k - 0].kind == CORE_KINDS[k] && cores[k - 0].name == CoreNames(app)[k];
    }
    forall k | 0 <= k < |ss| ensures WellFormedSection(ss[k]) {
      assert k < 3 ==> ss[k] == cores[k];
    }
  }
}

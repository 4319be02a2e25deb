/** Serialized application programs and preparation for transfer (webtilp/hp_prime_app.cpp:255-362). */
module HpProgram {
  import opened Bytes
  import opened Utf
  import opened HpContainer
  import opened HpEdit

  // ----- the record format -----

  const MAGIC: bytes := [0x7C, 0x61, 0x8A, 0xB2]
  const HEADER: bytes := MAGIC + [0xFE, 0xFF, 0xFF, 0xFF, 0, 0, 0, 0]

  const SOURCE_LIST := 0x014000BE
  const SOURCE_TEXT := 0x00C0009B
  const EDITOR_METADATA := 0x0240028E
  const ZERO_FLAGS: set<nat> := {0x007FFF05, 0x023FFF05, 0x00BFFF05}

  /** A field: an identifier and a body, behind a little-endian length that counts both. */
  datatype Tagged = Tagged(id: nat, body: bytes)

  datatype Record = Plain(field: Tagged) | SourceList(units: seq<seq<Tagged>>)

  predicate GoodTagged(t: Tagged)
  {
    t.id < TWO_32 && 4 + |t.body| < TWO_32
  }

  function TaggedBytes(t: Tagged): bytes
  {
    U32le(4 + |t.body|) + U32le(t.id) + t.body
  }

  function FieldsBytes(fs: seq<Tagged>): bytes
  {
    if fs == [] then [] else TaggedBytes(fs[0]) + FieldsBytes(fs[1..])
  }

  predicate GoodFields(fs: seq<Tagged>)
  {
    (forall i :: 0 <= i < |fs| ==> GoodTagged(fs[i])) && |FieldsBytes(fs)| < TWO_32
  }

  function UnitBytes(u: seq<Tagged>): bytes
  {
    U32le(|FieldsBytes(u)|) + FieldsBytes(u)
  }

  function UnitsBytes(us: seq<seq<Tagged>>): bytes
  {
    if us == [] then [] else UnitBytes(us[0]) + UnitsBytes(us[1..])
  }

  function AsTagged(r: Record): Tagged
  {
    match r
    case Plain(t) => t
    case SourceList(us) => Tagged(SOURCE_LIST, UnitsBytes(us))
  }

  predicate GoodRecord(r: Record)
  {
    && GoodTagged(AsTagged(r))
    && (r.Plain? ==> r.field.id != SOURCE_LIST)
    && (r.SourceList? ==> forall i :: 0 <= i < |r.units| ==> GoodFields(r.units[i]))
  }

  function RecordsBytes(rs: seq<Record>): bytes
  {
    if rs == [] then [] else TaggedBytes(AsTagged(rs[0])) + RecordsBytes(rs[1..])
  }

  predicate GoodRecords(rs: seq<Record>)
  {
    forall i :: 0 <= i < |rs| ==> GoodRecord(rs[i])
  }

  // ----- readers -----

  function ReadTagged(s: bytes): Option<Tagged>
  {
    if |s| < 8 || GetU32le(s) < 4 || GetU32le(s) > |s| - 4 then None
    else Some(Tagged(GetU32le(s[4..]), s[8..4 + GetU32le(s)]))
  }

  lemma ReadTaggedFits(s: bytes)
    ensures ReadTagged(s).Some? ==>
      var t := ReadTagged(s).value;
      GoodTagged(t) && StartsWith(s, TaggedBytes(t)) && |TaggedBytes(t)| == 4 + GetU32le(s) == 8 + |t.body|
  {
    hide GetU32le, U32le;
    if ReadTagged(s).Some? {
      GetU32leInverse(s);
      GetU32leInverse(s[4..]);
      var n := GetU32le(s);
      assert s[..4 + n] == s[..4] + s[4..][..4] + s[8..4 + n];
    }
  }

  lemma ReadTaggedInverse(t: Tagged, rest: bytes)
    requires GoodTagged(t)
    ensures ReadTagged(TaggedBytes(t) + rest) == Some(t)
  {
    hide GetU32le, U32le;
    var s := TaggedBytes(t) + rest;
    U32leInverse(4 + |t.body|, U32le(t.id) + t.body + rest);
    assert s == U32le(4 + |t.body|) + (U32le(t.id) + t.body + rest);
    U32leInverse(t.id, t.body + rest);
    assert s[4..] == U32le(t.id) + (t.body + rest);
    assert s[8..8 + |t.body|] == t.body;
  }

  function ReadFields(s: bytes): Option<seq<Tagged>>
    decreases |s|
  {
    if s == [] then Some([])
    else
      ReadTaggedFits(s);
      match ReadTagged(s)
      case None => None
      case Some(t) => Prepend([t], ReadFields(s[|TaggedBytes(t)|..]))
  }

  function ReadUnit(s: bytes): Option<seq<Tagged>>
  {
    if |s| < 4 || GetU32le(s) > |s| - 4 then None else ReadFields(s[4..4 + GetU32le(s)])
  }

  function ReadUnits(s: bytes): Option<seq<seq<Tagged>>>
    decreases |s|
  {
    if s == [] then Some([])
    else
      match ReadUnit(s)
      case None => None
      case Some(u) => Prepend([u], ReadUnits(s[4 + GetU32le(s)..]))
  }

  function ReadRecord(t: Tagged): Option<Record>
  {
    if t.id != SOURCE_LIST then Some(Plain(t))
    else
      match ReadUnits(t.body)
      case None => None
      case Some(us) => Some(SourceList(us))
  }

  function ReadRecords(s: bytes): Option<seq<Record>>
    decreases |s|
  {
    if s == [] then Some([])
    else
      ReadTaggedFits(s);
      match ReadTagged(s)
      case None => None
      case Some(t) =>
        match ReadRecord(t)
        case None => None
        case Some(r) => Prepend([r], ReadRecords(s[|TaggedBytes(t)|..]))
  }

  // ----- the readers accept exactly the serialized forms -----

  lemma {:induction false} FieldsSound(s: bytes)
    ensures ReadFields(s).Some? ==>
      var fs := ReadFields(s).value;
      (forall i :: 0 <= i < |fs| ==> GoodTagged(fs[i])) && FieldsBytes(fs) == s
    decreases |s|
  {
    hide TaggedBytes, ReadTagged, GoodTagged;
    if s != [] && ReadFields(s).Some? {
      ReadTaggedFits(s);
      var t := ReadTagged(s).value;
      var rest := s[|TaggedBytes(t)|..];
      FieldsSound(rest);
      assert ReadFields(s).value[1..] == ReadFields(rest).value;
    }
  }

  lemma {:induction false} FieldsComplete(fs: seq<Tagged>)
    requires forall i :: 0 <= i < |fs| ==> GoodTagged(fs[i])
    ensures ReadFields(FieldsBytes(fs)) == Some(fs)
  {
    hide TaggedBytes, ReadTagged, GoodTagged;
    if fs != [] {
      var s, rest := FieldsBytes(fs), FieldsBytes(fs[1..]);
      ReadTaggedInverse(fs[0], rest);
      ReadTaggedFits(s);
      FieldsComplete(fs[1..]);
      assert s[|TaggedBytes(fs[0])|..] == rest;
      assert [fs[0]] + fs[1..] == fs;
    }
  }

  lemma {:induction false} UnitsSound(s: bytes)
    ensures ReadUnits(s).Some? ==>
      var us := ReadUnits(s).value;
      (forall i :: 0 <= i < |us| ==> GoodFields(us[i])) && UnitsBytes(us) == s
    decreases |s|
  {
    hide GetU32le, GoodFields, ReadUnit, UnitBytes;
    if s != [] && ReadUnits(s).Some? {
      UnitSound(s);
      var n := GetU32le(s);
      var u, rest := ReadUnit(s).value, s[4 + n..];
      UnitsSound(rest);
      assert ReadUnits(s).value[1..] == ReadUnits(rest).value;
    }
  }

  lemma UnitSound(s: bytes)
    requires ReadUnit(s).Some?
    ensures GoodFields(ReadUnit(s).value) && 4 + GetU32le(s) <= |s|
      && UnitBytes(ReadUnit(s).value) == s[..4 + GetU32le(s)]
  {
    hide GetU32le, U32le, FieldsBytes, GoodTagged, ReadFields;
    var n := GetU32le(s);
    GetU32leInverse(s);
    FieldsSound(s[4..4 + n]);
    assert s[..4 + n] == s[..4] + s[4..4 + n];
  }

  lemma {:induction false} UnitsComplete(us: seq<seq<Tagged>>)
    requires forall i :: 0 <= i < |us| ==> GoodFields(us[i])
    ensures ReadUnits(UnitsBytes(us)) == Some(us)
  {
    hide GetU32le, U32le, FieldsBytes, GoodTagged, ReadFields;
    if us != [] {
      var s, body, rest := UnitsBytes(us), FieldsBytes(us[0]), UnitsBytes(us[1..]);
      assert s == U32le(|body|) + (body + rest);
      U32leInverse(|body|, body + rest);
      FieldsComplete(us[0]);
      UnitsComplete(us[1..]);
      assert s[4..4 + |body|] == body && s[4 + |body|..] == rest;
      assert [us[0]] + us[1..] == us;
    }
  }

  lemma {:induction false} RecordsSound(s: bytes)
    ensures ReadRecords(s).Some? ==>
      var rs := ReadRecords(s).value;
      GoodRecords(rs) && RecordsBytes(rs) == s
    decreases |s|
  {
    hide TaggedBytes, ReadTagged, GoodTagged, GoodFields, ReadUnits, UnitsBytes;
    if s != [] && ReadRecords(s).Some? {
      ReadTaggedFits(s);
      var t := ReadTagged(s).value;
      UnitsSound(t.body);
      var rest := s[|TaggedBytes(t)|..];
      RecordsSound(rest);
      assert ReadRecords(s).value[1..] == ReadRecords(rest).value;
      assert AsTagged(ReadRecord(t).value) == t;
    }
  }

  lemma {:induction false} RecordsComplete(rs: seq<Record>)
    requires GoodRecords(rs)
    ensures ReadRecords(RecordsBytes(rs)) == Some(rs)
  {
    hide TaggedBytes, ReadTagged, GoodTagged, GoodFields, ReadUnits, UnitsBytes;
    if rs != [] {
      var s, t, rest := RecordsBytes(rs), AsTagged(rs[0]), RecordsBytes(rs[1..]);
      ReadTaggedInverse(t, rest);
      ReadTaggedFits(s);
      if rs[0].SourceList? {
        UnitsComplete(rs[0].units);
      }
      assert ReadRecord(t) == Some(rs[0]);
      RecordsComplete(rs[1..]);
      assert s[|TaggedBytes(t)|..] == rest;
      assert [rs[0]] + rs[1..] == rs;
    }
  }

  // ----- which record lists are programs, and what their source is -----

  /** Little-endian UTF-16 text ended by its only NUL unit. */
  predicate SourceText(b: bytes)
  {
    |b| >= 2 && NameEnd(b) == Some(|b| - 2)
  }

  function FieldSources(fs: seq<Tagged>): seq<bytes>
  {
    if fs == [] then []
    else (if fs[0].id == SOURCE_TEXT then [fs[0].body] else []) + FieldSources(fs[1..])
  }

  function UnitSources(us: seq<seq<Tagged>>): seq<bytes>
  {
    if us == [] then [] else FieldSources(us[0]) + UnitSources(us[1..])
  }

  function Sources(rs: seq<Record>): seq<bytes>
  {
    if rs == [] then []
    else (if rs[0].SourceList? then UnitSources(rs[0].units) else []) + Sources(rs[1..])
  }

  predicate OneSourceAtMost(sources: seq<bytes>)
  {
    |sources| <= 1 && (sources != [] ==> SourceText(sources[0]))
  }

  predicate EveryUnitHasSource(us: seq<seq<Tagged>>)
  {
    forall i :: 0 <= i < |us| ==> FieldSources(us[i]) != []
  }

  /** A record that may appear: a source list of units with sources, or a field outside the list's family. */
  predicate Tolerated(r: Record)
  {
    match r
    case Plain(t) => t.id / 0x40_0000 != 5
    case SourceList(us) => EveryUnitHasSource(us)
  }

  /** What no extension can repair: a bad record, a second list, a second or ill-formed source. */
  predicate Tolerable(rs: seq<Record>)
  {
    && (forall i :: 0 <= i < |rs| ==> Tolerated(rs[i]))
    && (forall i, j :: 0 <= i < j < |rs| ==> !(rs[i].SourceList? && rs[j].SourceList?))
    && OneSourceAtMost(Sources(rs))
  }

  predicate HasList(rs: seq<Record>)
  {
    exists i :: 0 <= i < |rs| && rs[i].SourceList?
  }

  predicate HasMetadata(rs: seq<Record>)
  {
    exists i :: 0 <= i < |rs| && rs[i].Plain? && rs[i].field.id == EDITOR_METADATA
  }

  /** The records of a built-in editor file that holds no program. */
  predicate EmptyEditorRecord(r: Record)
  {
    r.Plain? && (r.field.id == EDITOR_METADATA || (r.field.id in ZERO_FLAGS && r.field.body == [0, 0, 0, 0]))
  }

  predicate EmptyEditor(rs: seq<Record>)
  {
    forall i :: 0 <= i < |rs| ==> EmptyEditorRecord(rs[i])
  }

  predicate IsProgram(rs: seq<Record>)
  {
    Tolerable(rs) && (HasList(rs) || (EmptyEditor(rs) && HasMetadata(rs)))
  }

  function TheSource(sources: seq<bytes>): bytes
  {
    if sources == [] then [] else sources[0]
  }

  /** What `program_source` returns. */
  function ProgramSource(data: bytes): Option<bytes>
  {
    if !StartsWith(data, MAGIC) then Some(data)
    else if !StartsWith(data, HEADER) then None
    else
      match ReadRecords(data[12..])
      case None => None
      case Some(rs) => if IsProgram(rs) then Some(TheSource(Sources(rs))) else None
  }

  /**
   * Main result: a serialized program is accepted exactly when it serializes some program record list, and then the
   * result is the single source text of that list, or empty when the list has none.
   */
  lemma ProgramSourceMeans(data: bytes, source: bytes)
    requires StartsWith(data, MAGIC)
    ensures ProgramSource(data) == Some(source) <==>
      exists rs :: GoodRecords(rs) && data == HEADER + RecordsBytes(rs) && IsProgram(rs)
        && source == TheSource(Sources(rs))
    ensures ProgramSource(data) == Some(source) ==> source == [] || SourceText(source)
  {
    hide GoodRecord, ReadRecords, RecordsBytes, Tolerated, SourceText, Sources;
    if ProgramSource(data) == Some(source) {
      RecordsSound(data[12..]);
      assert data == HEADER + data[12..];
    }
    forall rs | GoodRecords(rs) && data == HEADER + RecordsBytes(rs) && IsProgram(rs)
      && source == TheSource(Sources(rs))
      ensures ProgramSource(data) == Some(source)
    {
      RecordsComplete(rs);
      assert data[12..] == RecordsBytes(rs);
    }
  }

  // ----- concatenation facts for the loops -----

  lemma {:induction false} FieldSourcesAppend(a: seq<Tagged>, b: seq<Tagged>)
    ensures FieldSources(a + b) == FieldSources(a) + FieldSources(b)
  {
    hide FieldSources;
    FieldSourcesOf(a);
    if a == [] {
      assert a + b == b;
      assert [] + FieldSources(b) == FieldSources(b);
    } else {
      AppendTail(a, b);
      FieldSourcesAppend(a[1..], b);
      FieldSourcesOf(a + b);
      Assoc(if a[0].id == SOURCE_TEXT then [a[0].body] else [], FieldSources(a[1..]), FieldSources(b));
    }
  }

  lemma FieldSourcesOf(fs: seq<Tagged>)
    ensures fs == [] ==> FieldSources(fs) == []
    ensures fs != [] ==>
      FieldSources(fs) == (if fs[0].id == SOURCE_TEXT then [fs[0].body] else []) + FieldSources(fs[1..])
  {
  }

  lemma {:induction false} UnitSourcesAppend(a: seq<seq<Tagged>>, b: seq<seq<Tagged>>)
    ensures UnitSources(a + b) == UnitSources(a) + UnitSources(b)
  {
    hide FieldSources, UnitSources;
    UnitSourcesOf(a);
    if a == [] {
      assert a + b == b;
      assert [] + UnitSources(b) == UnitSources(b);
    } else {
      AppendTail(a, b);
      UnitSourcesAppend(a[1..], b);
      UnitSourcesOf(a + b);
      Assoc(FieldSources(a[0]), UnitSources(a[1..]), UnitSources(b));
    }
  }

  lemma UnitSourcesOf(us: seq<seq<Tagged>>)
    ensures us == [] ==> UnitSources(us) == []
    ensures us != [] ==> UnitSources(us) == FieldSources(us[0]) + UnitSources(us[1..])
  {
    hide FieldSources;
  }

  lemma {:induction false} SourcesAppend(a: seq<Record>, b: seq<Record>)
    ensures Sources(a + b) == Sources(a) + Sources(b)
  {
    hide UnitSources, Sources;
    SourcesOf(a);
    if a == [] {
      assert a + b == b;
      assert [] + Sources(b) == Sources(b);
    } else {
      AppendTail(a, b);
      SourcesAppend(a[1..], b);
      SourcesOf(a + b);
      Assoc(if a[0].SourceList? then UnitSources(a[0].units) else [], Sources(a[1..]), Sources(b));
    }
  }

  lemma SourcesOf(rs: seq<Record>)
    ensures rs == [] ==> Sources(rs) == []
    ensures rs != [] ==>
      Sources(rs) == (if rs[0].SourceList? then UnitSources(rs[0].units) else []) + Sources(rs[1..])
  {
    hide UnitSources;
  }

  lemma OneSourcePrefix(a: seq<bytes>, b: seq<bytes>)
    ensures OneSourceAtMost(a + b) ==> OneSourceAtMost(a)
  {
  }

  lemma TolerablePrefix(a: seq<Record>, b: seq<Record>)
    ensures Tolerable(a + b) ==> Tolerable(a)
  {
    hide Tolerated, SourceText;
    SourcesAppend(a, b);
    OneSourcePrefix(Sources(a), Sources(b));
    if Tolerable(a + b) {
      forall i | 0 <= i < |a| ensures Tolerated(a[i]) { assert (a + b)[i] == a[i]; }
      forall i, j | 0 <= i < j < |a| ensures !(a[i].SourceList? && a[j].SourceList?) {
        assert (a + b)[i] == a[i] && (a + b)[j] == a[j];
      }
    }
  }

  // ----- the loops of program_source -----

  /** `le32` */
  function Le32(data: bytes, offset: nat): nat
    requires offset + 4 <= |data|
  {
    GetU32le(data[offset..])
  }

  function First(sources: seq<bytes>): Option<bytes>
  {
    if sources == [] then None else Some(sources[0])
  }

  method IsSourceText(b: bytes) returns (r: bool)
    ensures r == SourceText(b)
  {
    if |b| % 2 != 0 || |b| < 2 || b[|b| - 1] != 0 || b[|b| - 2] != 0 {
      ZeroUnitLast(b);
      return false;
    }
    hide NameEnd;
    var i: nat := 0;
    assert b[0..] == b;
    while i + 2 < |b|
      invariant i % 2 == 0 && i + 2 <= |b|
      invariant NameEnd(b) == Shifted(i, NameEnd(b[i..]))
    {
      NameEndStep(b, i);
      if b[i] == 0 && b[i + 1] == 0 {
        return false;
      }
      i := i + 2;
    }
    NameEndStep(b, i);
    r := true;
  }

  function Shifted(i: nat, end: Option<nat>): Option<nat>
  {
    match end case None => None case Some(k) => Some(i + k)
  }

  lemma NameEndStep(b: bytes, i: nat)
    requires i + 2 <= |b|
    ensures b[i] == 0 && b[i + 1] == 0 ==> NameEnd(b[i..]) == Some(0)
    ensures !(b[i] == 0 && b[i + 1] == 0) ==> Shifted(i, NameEnd(b[i..])) == Shifted(i + 2, NameEnd(b[i + 2..]))
  {
    assert b[i..][2..] == b[i + 2..];
  }

  lemma ZeroUnitLast(b: bytes)
    ensures SourceText(b) ==> |b| % 2 == 0 && b[|b| - 1] == 0 && b[|b| - 2] == 0
  {
    NameEndSplits(b);
    if SourceText(b) {
      assert b[|b| - 2..|b|] == [0, 0];
      assert b[|b| - 2..|b|][0] == b[|b| - 2] && b[|b| - 2..|b|][1] == b[|b| - 1];
    }
  }

  /** Reading one length-tagged field at `offset`, bounded by `end`, in terms of the code's tests. */
  lemma TaggedAt(data: bytes, offset: nat, end: nat)
    requires offset <= end <= |data|
    ensures ReadTagged(data[offset..end]) ==
      if end - offset < 8 || Le32(data, offset) < 4 || Le32(data, offset) > end - offset - 4 then None
      else Some(Tagged(Le32(data, offset + 4), data[offset + 8..offset + 4 + Le32(data, offset)]))
    ensures ReadTagged(data[offset..end]).Some? ==>
      |TaggedBytes(ReadTagged(data[offset..end]).value)| == 4 + Le32(data, offset)
  {
    hide GetU32le, U32le;
    var s := data[offset..end];
    ReadTaggedFits(s);
    if end - offset >= 8 {
      WordAt(data, offset, end);
      WordAt(data, offset + 4, end);
      SliceOfSlice(data, offset, end, 4, end - offset);
      if 4 <= Le32(data, offset) <= end - offset - 4 {
        SliceOfSlice(data, offset, end, 8, 4 + Le32(data, offset));
      }
    }
  }

  lemma WordAt(data: bytes, offset: nat, end: nat)
    requires offset + 4 <= end <= |data|
    ensures GetU32le(data[offset..end]) == Le32(data, offset)
  {
    hide GetU16le;
    assert data[offset..] == data[offset..|data|];
    SliceOfSlice(data, offset, end, 0, 2);
    SliceOfSlice(data, offset, |data|, 0, 2);
    SliceOfSlice(data, offset, end, 2, 4);
    SliceOfSlice(data, offset, |data|, 2, 4);
  }

  lemma FieldStep(data: bytes, field: nat, end: nat)
    requires field < end <= |data|
    ensures ReadFields(data[field..end]) ==
      match ReadTagged(data[field..end])
      case None => None
      case Some(t) => Prepend([t], ReadFields(data[field + |TaggedBytes(t)|..end]))
  {
    hide TaggedBytes, ReadTagged;
    var s := data[field..end];
    ReadTaggedFits(s);
    if ReadTagged(s).Some? {
      var t := ReadTagged(s).value;
      assert s[|TaggedBytes(t)|..] == data[field + |TaggedBytes(t)|..end];
    }
  }

  /** The innermost loop: the fields of one source unit. `found` is the source seen so far. */
  method ScanFields(data: bytes, start: nat, unitEnd: nat, seen: Option<bytes>, ghost prev: seq<bytes>)
    returns (ok: bool, found: Option<bytes>, unitSource: bool)
    requires start <= unitEnd <= |data| && OneSourceAtMost(prev) && seen == First(prev)
    ensures var fs := ReadFields(data[start..unitEnd]);
      && (ok <==> fs.Some? && OneSourceAtMost(prev + FieldSources(fs.value)))
      && (ok ==> found == First(prev + FieldSources(fs.value)) && (unitSource <==> FieldSources(fs.value) != []))
  {
    hide ReadTagged, ReadFields, TaggedBytes, SourceText, GetU32le, FieldSources;
    found, unitSource := seen, false;
    ghost var done: seq<Tagged> := [];
    NoFieldSources();
    assert prev + [] == prev;
    var field := start;
    while field < unitEnd
      invariant start <= field <= unitEnd
      invariant ReadFields(data[start..unitEnd]) == Prepend(done, ReadFields(data[field..unitEnd]))
      invariant OneSourceAtMost(prev + FieldSources(done)) && found == First(prev + FieldSources(done))
      invariant unitSource <==> FieldSources(done) != []
    {
      TaggedAt(data, field, unitEnd);
      FieldStep(data, field, unitEnd);
      if unitEnd - field < 8 {
        return false, found, unitSource;
      }
      var fieldSize := Le32(data, field);
      if fieldSize < 4 || fieldSize > unitEnd - field - 4 {
        return false, found, unitSource;
      }
      ghost var t := ReadTagged(data[field..unitEnd]).value;
      PrependStep(done, t, ReadFields(data[field + 4 + fieldSize..unitEnd]));
      PushField(prev, done, t, ReadFields(data[field + 4 + fieldSize..unitEnd]));
      if Le32(data, field + 4) == SOURCE_TEXT {
        if found.Some? {
          return false, found, unitSource;
        }
        var text := data[field + 8..field + 4 + fieldSize];
        var valid := IsSourceText(text);
        if !valid {
          return false, found, unitSource;
        }
        found, unitSource := Some(text), true;
      }
      done := done + [t];
      field := field + 4 + fieldSize;
    }
    assert data[field..unitEnd] == [];
    NoFields();
    assert done + [] == done;
    ok := true;
  }

  lemma NoFields()
    ensures ReadFields([]) == Some([])
  {
  }

  lemma NoFieldSources()
    ensures FieldSources([]) == []
  {
  }

  /** How one more field changes the collected sources, and that a bad source spoils every continuation. */
  lemma PushField(prev: seq<bytes>, done: seq<Tagged>, t: Tagged, rest: Option<seq<Tagged>>)
    requires OneSourceAtMost(prev + FieldSources(done))
    ensures var before := prev + FieldSources(done);
      var after := prev + FieldSources(done + [t]);
      && after == before + (if t.id == SOURCE_TEXT then [t.body] else [])
      && (FieldSources(done + [t]) != [] <==> FieldSources(done) != [] || t.id == SOURCE_TEXT)
      && (OneSourceAtMost(after) <==> t.id == SOURCE_TEXT ==> before == [] && SourceText(t.body))
      && (!OneSourceAtMost(after) && rest.Some? ==> !OneSourceAtMost(prev + FieldSources(done + [t] + rest.value)))
  {
    hide SourceText, FieldSources;
    OneFieldSource(t);
    FieldSourcesAppend(done, [t]);
    Assoc(prev, FieldSources(done), FieldSources([t]));
    if rest.Some? {
      FieldSourcesAppend(done + [t], rest.value);
      Assoc(prev, FieldSources(done + [t]), FieldSources(rest.value));
      OneSourcePrefix(prev + FieldSources(done + [t]), FieldSources(rest.value));
    }
  }

  lemma OneFieldSource(t: Tagged)
    ensures FieldSources([t]) == if t.id == SOURCE_TEXT then [t.body] else []
  {
    assert [t][1..] == [] && FieldSources([]) == [];
  }

  lemma UnitStep(data: bytes, unit: nat, end: nat)
    requires unit < end <= |data|
    ensures ReadUnits(data[unit..end]) ==
      if end - unit < 4 || Le32(data, unit) > end - unit - 4 then None
      else
        var unitEnd := unit + 4 + Le32(data, unit);
        match ReadFields(data[unit + 4..unitEnd])
        case None => None
        case Some(u) => Prepend([u], ReadUnits(data[unitEnd..end]))
  {
    hide GetU32le, ReadFields;
    var s := data[unit..end];
    if end - unit >= 4 {
      WordAt(data, unit, end);
      var n := Le32(data, unit);
      if n <= end - unit - 4 {
        SliceOfSlice(data, unit, end, 4, 4 + n);
        SliceOfSlice(data, unit, end, 4 + n, end - unit);
      }
    }
  }

  /** The middle loop: the units of the source list. */
  method ScanUnits(data: bytes, start: nat, end: nat, seen: Option<bytes>, ghost prev: seq<bytes>)
    returns (ok: bool, found: Option<bytes>)
    requires start <= end <= |data| && OneSourceAtMost(prev) && seen == First(prev)
    ensures var us := ReadUnits(data[start..end]);
      && (ok <==> us.Some? && EveryUnitHasSource(us.value) && OneSourceAtMost(prev + UnitSources(us.value)))
      && (ok ==> found == First(prev + UnitSources(us.value)))
  {
    hide ReadUnits, ReadFields, OneSourceAtMost, GetU32le, UnitSources;
    found := seen;
    ghost var done: seq<seq<Tagged>> := [];
    NoUnitSources();
    assert prev + [] == prev;
    var unit := start;
    while unit < end
      invariant start <= unit <= end
      invariant ReadUnits(data[start..end]) == Prepend(done, ReadUnits(data[unit..end]))
      invariant EveryUnitHasSource(done)
      invariant OneSourceAtMost(prev + UnitSources(done)) && found == First(prev + UnitSources(done))
    {
      UnitStep(data, unit, end);
      if end - unit < 4 {
        return false, found;
      }
      var unitSize := Le32(data, unit);
      if unitSize > end - unit - 4 {
        return false, found;
      }
      var unitEnd := unit + 4 + unitSize;
      var unitOk, unitSource;
      unitOk, found, unitSource := ScanFields(data, unit + 4, unitEnd, found, prev + UnitSources(done));
      ghost var fs := ReadFields(data[unit + 4..unitEnd]);
      if fs.Some? {
        PrependStep(done, fs.value, ReadUnits(data[unitEnd..end]));
        PushUnit(prev, done, fs.value, ReadUnits(data[unitEnd..end]));
      }
      if !unitOk || !unitSource {
        return false, found;
      }
      done := done + [fs.value];
      unit := unitEnd;
    }
    assert data[unit..end] == [];
    NoUnits();
    assert done + [] == done;
    ok := true;
  }

  lemma NoUnits()
    ensures ReadUnits([]) == Some([])
  {
  }

  lemma NoUnitSources()
    ensures UnitSources([]) == []
  {
  }

  lemma PushUnit(prev: seq<bytes>, done: seq<seq<Tagged>>, u: seq<Tagged>, rest: Option<seq<seq<Tagged>>>)
    ensures prev + UnitSources(done + [u]) == prev + UnitSources(done) + FieldSources(u)
    ensures rest.Some? ==>
      var us := done + [u] + rest.value;
      && (!OneSourceAtMost(prev + UnitSources(done + [u])) ==> !OneSourceAtMost(prev + UnitSources(us)))
      && (FieldSources(u) == [] ==> !EveryUnitHasSource(us))
  {
    hide OneSourceAtMost, FieldSources;
    UnitSourcesAppend(done, [u]);
    assert [u][1..] == [];
    if rest.Some? {
      UnitSourcesAppend(done + [u], rest.value);
      OneSourcePrefix(prev + UnitSources(done + [u]), UnitSources(rest.value));
      assert prev + UnitSources(done + [u]) + UnitSources(rest.value)
          == prev + (UnitSources(done + [u]) + UnitSources(rest.value));
      assert (done + [u] + rest.value)[|done|] == u;
    }
  }

  lemma RecordStep(data: bytes, offset: nat)
    requires offset < |data|
    ensures ReadRecords(data[offset..]) ==
      match ReadTagged(data[offset..|data|])
      case None => None
      case Some(t) =>
        match ReadRecord(t)
        case None => None
        case Some(r) => Prepend([r], ReadRecords(data[offset + |TaggedBytes(t)|..]))
  {
    hide TaggedBytes, ReadTagged, ReadRecord;
    var s := data[offset..];
    assert s == data[offset..|data|];
    ReadTaggedFits(s);
    if ReadTagged(s).Some? {
      var t := ReadTagged(s).value;
      assert s[|TaggedBytes(t)|..] == data[offset + |TaggedBytes(t)|..];
    }
  }

  /** How one more record changes tolerability, and that an intolerable prefix spoils every continuation. */
  lemma OneRecordSources(r: Record)
    ensures Sources([r]) == if r.SourceList? then UnitSources(r.units) else []
  {
    hide UnitSources;
    assert [r][1..] == [] && Sources([]) == [];
  }

  lemma PushRecord(done: seq<Record>, r: Record, rest: Option<seq<Record>>)
    requires Tolerable(done)
    ensures Sources(done + [r]) == Sources(done) + if r.SourceList? then UnitSources(r.units) else []
    ensures Tolerable(done + [r]) <==>
      Tolerated(r) && !(HasList(done) && r.SourceList?) && OneSourceAtMost(Sources(done + [r]))
    ensures HasList(done + [r]) <==> HasList(done) || r.SourceList?
    ensures HasMetadata(done + [r]) <==> HasMetadata(done) || (r.Plain? && r.field.id == EDITOR_METADATA)
    ensures EmptyEditor(done + [r]) <==> EmptyEditor(done) && EmptyEditorRecord(r)
    ensures !Tolerable(done + [r]) && rest.Some? ==> !Tolerable(done + [r] + rest.value)
  {
    hide Tolerated, OneSourceAtMost, EmptyEditorRecord, UnitSources, Sources;
    SourcesAppend(done, [r]);
    OneRecordSources(r);
    var all := done + [r];
    assert all[|done|] == r && forall i :: 0 <= i < |done| ==> all[i] == done[i];
    assert r.SourceList? ==> HasList(all);
    assert r.Plain? && r.field.id == EDITOR_METADATA ==> HasMetadata(all);
    if i :| 0 <= i < |done| && done[i].SourceList? {
      assert all[i].SourceList?;
    }
    if i :| 0 <= i < |done| && done[i].Plain? && done[i].field.id == EDITOR_METADATA {
      assert all[i].Plain? && all[i].field.id == EDITOR_METADATA;
    }
    if rest.Some? {
      TolerablePrefix(all, rest.value);
    }
  }

  method ProgramSourceLoop(data: bytes) returns (r: Option<bytes>)
    ensures r == ProgramSource(data)
  {
    hide ReadTagged, ReadRecords, TaggedBytes, Tolerable, IsProgram, ReadUnits, UnitSources, GetU32le, Sources, HasList,
         HasMetadata, EmptyEditor, OneSourceAtMost;
    if |data| < 4 || data[0] != 0x7C || data[1] != 0x61 || data[2] != 0x8A || data[3] != 0xB2 {
      return Some(data);
    }
    HeaderWords(data);
    if |data| < 12 || Le32(data, 4) != 0xFFFF_FFFE || Le32(data, 8) != 0 {
      return None;
    }
    var foundList, emptyEditor, foundMetadata := false, true, false;
    var found: Option<bytes> := None;
    ghost var done: seq<Record> := [];
    NoRecords();
    var offset := 12;
    while offset < |data|
      invariant 12 <= offset <= |data|
      invariant ReadRecords(data[12..]) == Prepend(done, ReadRecords(data[offset..]))
      invariant Tolerable(done) && found == First(Sources(done))
      invariant foundList == HasList(done) && foundMetadata == HasMetadata(done) && emptyEditor == EmptyEditor(done)
    {
      TaggedAt(data, offset, |data|);
      RecordStep(data, offset);
      if |data| - offset < 8 {
        return None;
      }
      var length := Le32(data, offset);
      if length < 4 || length > |data| - offset - 4 {
        return None;
      }
      var end := offset + 4 + length;
      var fieldId := Le32(data, offset + 4);
      ghost var t := Tagged(fieldId, data[offset + 8..end]);
      ghost var record := ReadRecord(t);
      ghost var rest := ReadRecords(data[end..]);
      if record.Some? {
        PushRecord(done, record.value, rest);
        PrependStep(done, record.value, rest);
      }
      TolerableParts(done);
      if fieldId == EDITOR_METADATA {
        foundMetadata := true;
      } else if fieldId == 0x007FFF05 || fieldId == 0x023FFF05 || fieldId == 0x00BFFF05 {
        ZeroBody(data, offset, length);
        if length != 8 || Le32(data, offset + 8) != 0 {
          emptyEditor := false;
        }
      } else {
        emptyEditor := false;
      }
      if fieldId / 0x40_0000 == 5 && fieldId != SOURCE_LIST {
        Intolerable(done, record, rest);
        return None;
      }
      if fieldId == SOURCE_LIST {
        if foundList {
          Intolerable(done, record, rest);
          return None;
        }
        foundList := true;
        var ok;
        ok, found := ScanUnits(data, offset + 8, end, found, Sources(done));
        if !ok {
          Intolerable(done, record, rest);
          return None;
        }
      } else {
        assert Sources(done) + [] == Sources(done);
      }
      done := done + [record.value];
      offset := end;
    }
    assert data[offset..] == [];
    assert done + [] == done;
    FinalSource(done);
    r := if found.Some? || foundList || (emptyEditor && foundMetadata) then
           Some(if found.Some? then found.value else [])
         else None;
  }

  lemma HeaderWords(data: bytes)
    requires StartsWith(data, MAGIC)
    ensures StartsWith(data, HEADER) <==> |data| >= 12 && Le32(data, 4) == 0xFFFF_FFFE && Le32(data, 8) == 0
  {
    hide GetU16le, U16le;
    if |data| >= 12 {
      WordBytes(data, 4);
      WordBytes(data, 8);
      assert U32le(0xFFFF_FFFE) == [0xFE, 0xFF, 0xFF, 0xFF] && U32le(0) == [0, 0, 0, 0] by { HeaderConstants(); }
      assert data[..12] == data[..4] + data[4..8] + data[8..12];
      assert data[4..8] == data[..12][4..8] && data[8..12] == data[..12][8..12];
    }
  }

  lemma HeaderConstants()
    ensures U32le(0xFFFF_FFFE) == [0xFE, 0xFF, 0xFF, 0xFF] && U32le(0) == [0, 0, 0, 0]
  {
    assert U16le(0xFFFE) == [0xFE, 0xFF] && U16le(0xFFFF) == [0xFF, 0xFF] && U16le(0) == [0, 0];
  }

  /** A word equals `n` exactly when its bytes are those of `n`. */
  lemma WordBytes(data: bytes, offset: nat)
    requires offset + 4 <= |data|
    ensures forall n :: 0 <= n < TWO_32 ==> (Le32(data, offset) == n <==> data[offset..offset + 4] == U32le(n))
  {
    hide GetU32le, U32le;
    GetU32leInverse(data[offset..]);
    assert data[offset..][..4] == data[offset..offset + 4];
    forall n | 0 <= n < TWO_32 && data[offset..offset + 4] == U32le(n) ensures Le32(data, offset) == n {
      U32leInverse(n, data[offset + 4..]);
      assert data[offset..] == U32le(n) + data[offset + 4..];
    }
  }

  lemma ZeroBody(data: bytes, offset: nat, length: nat)
    requires 4 <= length && offset + 4 + length <= |data|
    ensures data[offset + 8..offset + 4 + length] == [0, 0, 0, 0] <==> length == 8 && Le32(data, offset + 8) == 0
  {
    hide GetU32le, U32le;
    if length == 8 {
      WordBytes(data, offset + 8);
      HeaderConstants();
    }
  }

  lemma NoRecords()
    ensures ReadRecords([]) == Some([]) && Tolerable([]) && Sources([]) == []
    ensures !HasList([]) && !HasMetadata([]) && EmptyEditor([])
  {
  }

  lemma TolerableParts(done: seq<Record>)
    requires Tolerable(done)
    ensures OneSourceAtMost(Sources(done))
  {
  }

  lemma Intolerable(done: seq<Record>, record: Option<Record>, rest: Option<seq<Record>>)
    requires record.Some? && rest.Some? ==> !Tolerable(done + [record.value] + rest.value)
    ensures record.Some? && rest.Some? ==> !IsProgram(done + [record.value] + rest.value)
  {
  }

  lemma FinalSource(done: seq<Record>)
    requires Tolerable(done)
    ensures First(Sources(done)).Some? ==> HasList(done)
    ensures TheSource(Sources(done)) == match First(Sources(done)) case None => [] case Some(b) => b
    ensures IsProgram(done) <==> HasList(done) || (EmptyEditor(done) && HasMetadata(done))
  {
    hide Tolerable, EmptyEditor, HasMetadata;
    if Sources(done) != [] {
      SourceComesFromList(done);
    }
  }

  lemma {:induction false} SourceComesFromList(rs: seq<Record>)
    requires Sources(rs) != []
    ensures HasList(rs)
  {
    if !rs[0].SourceList? {
      SourceComesFromList(rs[1..]);
      var i :| 0 <= i < |rs[1..]| && rs[1..][i].SourceList?;
      assert rs[i + 1].SourceList?;
    }
  }

  // ----- prepare_for_send -----

  lemma {:induction false} FieldSourcesFit(fs: seq<Tagged>, i: nat)
    requires i < |FieldSources(fs)|
    ensures |FieldSources(fs)[i]| <= |FieldsBytes(fs)|
  {
    if fs[0].id == SOURCE_TEXT {
      if i > 0 {
        FieldSourcesFit(fs[1..], i - 1);
      }
    } else {
      FieldSourcesFit(fs[1..], i);
    }
  }

  lemma {:induction false} UnitSourcesFit(us: seq<seq<Tagged>>, i: nat)
    requires i < |UnitSources(us)|
    ensures |UnitSources(us)[i]| <= |UnitsBytes(us)|
  {
    hide FieldSources, FieldsBytes;
    if i < |FieldSources(us[0])| {
      FieldSourcesFit(us[0], i);
    } else {
      UnitSourcesFit(us[1..], i - |FieldSources(us[0])|);
    }
  }

  lemma {:induction false} SourcesFit(rs: seq<Record>, i: nat)
    requires i < |Sources(rs)|
    ensures |Sources(rs)[i]| <= |RecordsBytes(rs)|
  {
    hide UnitSources, UnitsBytes;
    var own := if rs[0].SourceList? then UnitSources(rs[0].units) else [];
    if i < |own| {
      UnitSourcesFit(rs[0].units, i);
    } else {
      SourcesFit(rs[1..], i - |own|);
    }
  }

  /** The source is never longer than the program it came from. */
  lemma SourceFits(data: bytes)
    ensures ProgramSource(data).Some? ==> |ProgramSource(data).value| <= |data|
  {
    hide ReadRecords, RecordsBytes, IsProgram, Sources, GoodRecords;
    if StartsWith(data, MAGIC) && ProgramSource(data).Some? {
      RecordsSound(data[12..]);
      var rs := ReadRecords(data[12..]).value;
      if Sources(rs) != [] {
        SourcesFit(rs, 0);
      }
    }
  }

  /** What `prepare_for_send` returns. */
  function Prepared(data: bytes, app: bytes): Option<bytes>
  {
    match ReadSections(data, app)
    case None => None
    case Some(ss) =>
      ContainerIff(data, app, ss);
      match ProgramSource(ss[2].payload)
      case None => None
      case Some(source) =>
        SourceSection(ss, app, source);
        Some(Layout(WithProgram(ss, source)))
  }

  function WithProgram(ss: seq<Section>, source: bytes): seq<Section>
    requires |ss| > 2
  {
    ss[2 := ss[2].(payload := source)]
  }

  lemma SourceSection(ss: seq<Section>, app: bytes, source: bytes)
    requires WellFormed(ss, app) && ProgramSource(ss[2].payload) == Some(source)
    ensures !ss[2].kind.Resource? && WellFormed(WithProgram(ss, source), app)
    ensures |source| <= |ss[2].payload| < TWO_32
  {
    hide ProgramSource, CoreNames, Lower;
    assert ss[2 - 0].kind == CORE_KINDS[2] && WellFormedSection(ss[2]);
    SourceFits(ss[2].payload);
    var t := WithProgram(ss, source);
    forall k | 0 <= k < 3 ensures t[k - 0].kind == CORE_KINDS[k] && t[k - 0].name == CoreNames(app)[k] {
      assert ss[k - 0].kind == CORE_KINDS[k] && ss[k - 0].name == CoreNames(app)[k];
    }
    assert t[3..] == ss[3..];
  }

  method PrepareForSend(data: bytes, app: bytes) returns (r: Option<bytes>)
    requires |data| <= MAX_SIZE
    ensures r == Prepared(data, app)
  {
    hide ReadSections, ProgramSource, AppendBytes, Layout, PartsOf, WellFormedSection, SectionBytes, CoreNames;
    var parsed := Parse(data, app);
    if parsed.None? {
      return None;
    }
    ghost var ss := ReadSections(data, app).value;
    ContainerIff(data, app, ss);
    var part := parsed.value[2];
    ProgramPart(ss, app);
    var source := ProgramSourceLoop(data[part.dataOffset..part.dataOffset + part.dataSize]);
    if source.None? {
      return None;
    }
    SourceSection(ss, app, source.value);
    ReplacedProgram(ss, app, source.value);
    var output := data[..part.sectionOffset];
    output := output + U32be(|source.value|);
    var withSource := AppendBytes(Some(output), source.value);
    if withSource.None? {
      return None;
    }
    var tail := part.sectionOffset + part.sectionSize;
    r := AppendBytes(withSource, data[tail..]);
  }

  lemma {:induction false} ProgramPart(ss: seq<Section>, app: bytes)
    requires WellFormed(ss, app)
    ensures var p, data := PartsOf(ss, 0)[2], Layout(ss);
      && p.dataOffset + p.dataSize <= |data| && p.sectionOffset + p.sectionSize <= |data|
      && data[p.dataOffset..p.dataOffset + p.dataSize] == ss[2].payload
      && data[..p.sectionOffset] == Layout(ss[..2]) && data[p.sectionOffset + p.sectionSize..] == Layout(ss[3..])
      && |data| == |Layout(ss[..2])| + 4 + |ss[2].payload| + |Layout(ss[3..])|
  {
    hide WellFormedSection, SectionBytes, CoreNames, PartAt, ResourceSections;
    assert ss[2 - 0].kind == CORE_KINDS[2];
    PartsPayload([], ss, [], 2);
    assert [] + Layout(ss) + [] == Layout(ss);
    var front := ss[..2];
    assert ss == front + ss[2..] && ss[2..] == [ss[2]] + ss[3..];
    LayoutAppend(front, ss[2..]);
    ConsLayout(ss[2], ss[3..]);
    PartsAppend(front, ss[2..], 0);
    assert PartsOf(ss, 0)[2] == PartAt(ss[2], |Layout(front)|);
    CorePart(ss[2], |Layout(front)|);
  }

  lemma CorePart(s: Section, offset: nat)
    requires WellFormedSection(s) && !s.kind.Resource?
    ensures PartAt(s, offset).sectionOffset == offset
    ensures PartAt(s, offset).sectionSize == |SectionBytes(s)| == 4 + |s.payload| && SectionBytes(s) == Field(s.payload)
  {
  }

  lemma ReplacedProgram(ss: seq<Section>, app: bytes, source: bytes)
    requires WellFormed(ss, app) && WellFormed(WithProgram(ss, source), app)
    ensures Layout(WithProgram(ss, source)) == Layout(ss[..2]) + U32be(|source|) + source + Layout(ss[3..])
  {
    hide WellFormedSection, SectionBytes, CoreNames, PartAt, ResourceSections, U32be;
    var t := WithProgram(ss, source);
    assert ss[2 - 0].kind == CORE_KINDS[2];
    var front := t[..2];
    assert front == ss[..2] && t[3..] == ss[3..];
    assert t == front + t[2..] && t[2..] == [t[2]] + t[3..];
    LayoutAppend(front, t[2..]);
    ConsLayout(t[2], t[3..]);
    assert WellFormedSection(t[2]);
    CorePart(t[2], 0);
  }

  /** Preparing changes the program section only, into its source; a container whose program has none is refused. */
  lemma PrepareMeans(data: bytes, app: bytes, ss: seq<Section>)
    requires ReadSections(data, app) == Some(ss)
    ensures |ss| > 2
    ensures match ProgramSource(ss[2].payload)
            case None => Prepared(data, app) == None
            case Some(source) =>
              && Prepared(data, app).Some?
              && ReadSections(Prepared(data, app).value, app) == Some(WithProgram(ss, source))
  {
    hide ReadSections, ProgramSource, Layout, WellFormedSection, CoreNames, ResourceSections;
    ContainerIff(data, app, ss);
    if ProgramSource(ss[2].payload).Some? {
      var source := ProgramSource(ss[2].payload).value;
      SourceSection(ss, app, source);
      var t := WithProgram(ss, source);
      ContainerIff(Layout(t), app, t);
    }
  }

  /**
   * Preparing twice is preparing once if and only if the source text does not itself begin with the magic of a
   * serialized program; when it does, the second call fails.
   */
  lemma PrepareIdempotent(data: bytes, app: bytes, ss: seq<Section>, once: bytes)
    requires ReadSections(data, app) == Some(ss) && |ss| > 2 && Prepared(data, app) == Some(once)
    ensures ProgramSource(ss[2].payload).Some?
    ensures var source := ProgramSource(ss[2].payload).value;
      && (Prepared(once, app) == Some(once) <==> !StartsWith(source, MAGIC))
      && (StartsWith(source, MAGIC) ==> Prepared(once, app) == None)
  {
    hide ReadSections, ProgramSource, Layout, WellFormedSection, CoreNames, ResourceSections, NameEnd;
    PrepareMeans(data, app, ss);
    var source := ProgramSource(ss[2].payload).value;
    var t := WithProgram(ss, source);
    PrepareMeans(once, app, t);
    ContainerIff(once, app, t);
    assert t[2].payload == source;
    if StartsWith(source, MAGIC) {
      SourceIsNotMagic(ss[2].payload, source);
    } else {
      RawSource(source);
      assert WithProgram(t, source) == t;
    }
  }

  lemma RawSource(data: bytes)
    requires !StartsWith(data, MAGIC)
    ensures ProgramSource(data) == Some(data)
  {
  }

  /** A source that begins with the magic is not itself a serialized program. */
  lemma SourceIsNotMagic(program: bytes, source: bytes)
    requires ProgramSource(program) == Some(source) && StartsWith(source, MAGIC)
    ensures ProgramSource(source) == None
  {
    hide ReadRecords, IsProgram, NameEnd;
    if StartsWith(program, MAGIC) {
      assert ProgramSource(program) == Some(source);
      ProgramSourceMeans(program, source);
      if StartsWith(source, HEADER) {
        assert source[..12] == HEADER;
        assert source[..4] == MAGIC;
        assert NameEnd(source) == Some(8) by { HeaderEnds(source); }
      }
    }
  }

  lemma HeaderEnds(b: bytes)
    requires StartsWith(b, HEADER)
    ensures NameEnd(b) == Some(8)
  {
    var front := b[..8];
    assert b[..12] == HEADER;
    assert front == HEADER[..8];
    assert b == front + [0, 0] + b[10..];
    assert front[2..][2..] == front[4..] && front[4..][2..] == front[6..] && front[6..][2..] == [];
    assert NameEnd(front[6..]) == None && NameEnd(front[4..]) == None && NameEnd(front[2..]) == None;
    NameEndFound(front, b[10..]);
  }

  // ----- a container that cannot be prepared twice -----

  /** The magic read as two UTF-16 characters, behind them the NUL unit that ends a source. */
  const MAGIC_TEXT: bytes := MAGIC + [0, 0]

  function MagicRecords(): seq<Record>
  {
    [SourceList([[Tagged(SOURCE_TEXT, MAGIC_TEXT)]])]
  }

  /** A serialized program with that text as its only source. */
  function MagicProgram(): bytes
  {
    HEADER + RecordsBytes(MagicRecords())
  }

  lemma MagicTextIsSource()
    ensures SourceText(MAGIC_TEXT)
  {
    assert MAGIC_TEXT[2..][2..] == [0, 0];
    assert NameEnd(MAGIC_TEXT[2..][2..]) == Some(0);
    assert NameEnd(MAGIC_TEXT[2..]) == Some(2);
  }

  lemma MagicSources()
    ensures Sources(MagicRecords()) == [MAGIC_TEXT] && FieldSources([Tagged(SOURCE_TEXT, MAGIC_TEXT)]) == [MAGIC_TEXT]
  {
    var t := Tagged(SOURCE_TEXT, MAGIC_TEXT);
    FieldSourcesOf([t]);
    UnitSourcesOf([[t]]);
    SourcesOf(MagicRecords());
  }

  lemma MagicSizes()
    ensures |FieldsBytes([Tagged(SOURCE_TEXT, MAGIC_TEXT)])| == 14
    ensures |UnitsBytes([[Tagged(SOURCE_TEXT, MAGIC_TEXT)]])| == 18
    ensures GoodRecords(MagicRecords()) && |RecordsBytes(MagicRecords())| == 26
  {
    hide U32le;
    var fields := [Tagged(SOURCE_TEXT, MAGIC_TEXT)];
    var units := [fields];
    assert fields[1..] == [] && units[1..] == [] && MagicRecords()[1..] == [];
    assert FieldsBytes(fields) == TaggedBytes(fields[0]) + FieldsBytes([]);
    assert UnitsBytes(units) == UnitBytes(fields) + UnitsBytes([]);
    assert RecordsBytes(MagicRecords()) == TaggedBytes(AsTagged(MagicRecords()[0])) + RecordsBytes([]);
  }

  lemma MagicProgramSource()
    ensures ProgramSource(MagicProgram()) == Some(MAGIC_TEXT) && |MagicProgram()| == 38
  {
    hide RecordsBytes, Sources, SourceText, GoodRecord, ProgramSource, FieldSources;
    MagicTextIsSource();
    MagicSources();
    MagicSizes();
    var rs := MagicRecords();
    assert EveryUnitHasSource(rs[0].units);
    assert rs[0].SourceList? && HasList(rs);
    assert IsProgram(rs);
    assert MagicProgram()[..4] == MAGIC;
    ProgramSourceMeans(MagicProgram(), MAGIC_TEXT);
  }

  /** The failing side of the idempotence theorem: this container can be prepared once and not twice. */
  lemma SecondPrepareFails(app: bytes)
    ensures AllWellFormed(CoreList(app, MagicProgram()))
    ensures var once := Prepared(Layout(CoreList(app, MagicProgram())), app);
      once.Some? && Prepared(once.value, app) == None
  {
    hide Prepared, MagicProgram, AllWellFormed, Layout, CoreNames, ProgramSource, ReadSections;
    MagicProgramSource();
    var ss := CoreList(app, MagicProgram());
    CoreListIsWellFormed(app, MagicProgram());
    ContainerIff(Layout(ss), app, ss);
    PrepareMeans(Layout(ss), app, ss);
    assert StartsWith(MAGIC_TEXT, MAGIC);
    PrepareIdempotent(Layout(ss), app, ss, Prepared(Layout(ss), app).value);
  }
}

/**
 * Packing an application folder in JavaScript (webtilp/app.js:7104-7154) into the container the C++ parser reads
 * (webtilp/hp_prime_app.cpp:364-447).
 */
module HpPack {
  import opened Bytes
  import opened Utf
  import opened HpContainer

  /** A UTF-16 code unit, the element of a JavaScript string. */
  newtype unit = n: int | 0 <= n < 0x1_0000
  type jstring = seq<unit>

  datatype File = File(name: jstring, data: bytes)

  // ----- string tests -----

  function LowerUnit(u: unit): unit
  {
    if 0x41 <= u <= 0x5A then u + 32 else u
  }

  function LowerUnits(s: jstring): (r: jstring)
    ensures |r| == |s|
  {
    seq(|s|, i requires 0 <= i < |s| => LowerUnit(s[i]))
  }

  function Ascii(s: string): jstring
    requires forall i :: 0 <= i < |s| ==> s[i] < 128 as char
  {
    seq(|s|, i requires 0 <= i < |s| => s[i] as int as unit)
  }

  /** `/suffix$/i` for an ASCII suffix. */
  predicate EndsWithIgnoringCase(s: jstring, suffix: jstring)
  {
    |s| >= |suffix| && LowerUnits(s[|s| - |suffix|..]) == suffix
  }

  predicate Separator(u: unit)
  {
    u == 0x2F || u == 0x5C || u <= 0x1F
  }

  predicate ValidAppName(s: jstring)
  {
    s != [] && (forall i :: 0 <= i < |s| ==> !Separator(s[i])) && |s| <= 128
  }

  predicate ValidFileName(s: jstring)
  {
    s != [] && s != [0x2E] && s != [0x2E, 0x2E] && |s| <= 128
    && forall i :: 0 <= i < |s| ==> !Separator(s[i]) && s[i] != 0x7F
  }

  predicate FinderMetadata(s: jstring)
  {
    s == Ascii(".DS_Store") || (|s| >= 2 && s[..2] == Ascii("._"))
  }

  predicate CoreExtension(s: jstring)
  {
    || EndsWithIgnoringCase(s, Ascii(".hpapp"))
    || EndsWithIgnoringCase(s, Ascii(".hpappnote"))
    || EndsWithIgnoringCase(s, Ascii(".hpappprgm"))
  }

  // ----- sorting resources by name -----

  /** JavaScript's `<` on strings: code units, lexicographically. */
  predicate Before(a: jstring, b: jstring)
  {
    b != [] && (a == [] || a[0] < b[0] || (a[0] == b[0] && Before(a[1..], b[1..])))
  }

  function Insert(f: File, fs: seq<File>): seq<File>
  {
    if fs == [] || !Before(fs[0].name, f.name) then [f] + fs else [fs[0]] + Insert(f, fs[1..])
  }

  function SortByName(fs: seq<File>): seq<File>
  {
    if fs == [] then [] else Insert(fs[0], SortByName(fs[1..]))
  }

  predicate Ascending(fs: seq<File>)
  {
    forall i :: 0 <= i < |fs| - 1 ==> !Before(fs[i + 1].name, fs[i].name)
  }

  lemma {:induction false} BeforeAsymmetric(a: jstring, b: jstring)
    requires Before(a, b)
    ensures !Before(b, a)
    decreases |a|
  {
    if a != [] && a[0] == b[0] {
      BeforeAsymmetric(a[1..], b[1..]);
    }
  }

  lemma {:induction false} InsertKeepsOrder(f: File, fs: seq<File>)
    requires Ascending(fs)
    ensures Ascending(Insert(f, fs)) && multiset(Insert(f, fs)) == multiset(fs) + multiset{f}
    ensures Insert(f, fs) != [] && (Insert(f, fs)[0] == f || (fs != [] && Insert(f, fs)[0] == fs[0]))
  {
    hide Before, Ascending;
    if fs == [] || !Before(fs[0].name, f.name) {
      ConsKeepsOrder(f, fs);
    } else {
      TailIsAscending(fs);
      InsertKeepsOrder(f, fs[1..]);
      BeforeAsymmetric(fs[0].name, f.name);
      ConsKeepsOrder(fs[0], Insert(f, fs[1..]));
      assert fs == [fs[0]] + fs[1..];
    }
  }

  lemma ConsKeepsOrder(f: File, rest: seq<File>)
    requires Ascending(rest) && (rest != [] ==> !Before(rest[0].name, f.name))
    ensures Ascending([f] + rest)
  {
    hide Before;
    forall i | 0 <= i < |rest| ensures !Before(([f] + rest)[i + 1].name, ([f] + rest)[i].name) {
      assert i > 0 ==> ([f] + rest)[i] == rest[i - 1];
    }
  }

  lemma TailIsAscending(fs: seq<File>)
    requires Ascending(fs) && fs != []
    ensures Ascending(fs[1..]) && (|fs| > 1 ==> !Before(fs[1..][0].name, fs[0].name))
  {
    hide Before;
    assert forall i :: 0 <= i < |fs[1..]| ==> fs[1..][i] == fs[i + 1];
  }

  /** Sorting orders the files and keeps every one of them. */
  lemma {:induction false} SortIsPermutation(fs: seq<File>)
    ensures Ascending(SortByName(fs)) && multiset(SortByName(fs)) == multiset(fs)
  {
    hide Insert, Ascending;
    if fs == [] {
      NothingAscends();
    } else {
      SortIsPermutation(fs[1..]);
      InsertKeepsOrder(fs[0], SortByName(fs[1..]));
      assert fs == [fs[0]] + fs[1..];
    }
  }

  lemma NothingAscends()
    ensures Ascending([])
  {
  }

  // ----- the packed bytes -----

  /** The little-endian UTF-16 bytes of a JavaScript string, well formed or not. */
  function UnitsBytes(s: jstring): (r: bytes)
    ensures |r| == 2 * |s|
  {
    if s == [] then [] else U16le(s[0] as int) + UnitsBytes(s[1..])
  }

  function ResourceField(f: File): bytes
  {
    Field(UnitsBytes(f.name) + [0, 0] + f.data)
  }

  function ResourceFields(fs: seq<File>): bytes
  {
    if fs == [] then [] else ResourceField(fs[0]) + ResourceFields(fs[1..])
  }

  function CoreFields(cores: seq<bytes>): bytes
  {
    if cores == [] then [] else Field(cores[0]) + CoreFields(cores[1..])
  }

  /** The sections of a packed folder, for resource names that are well-formed UTF-16. */
  function ResourceSection(f: File): Section
    requires ToUtf8(UnitsBytes(f.name)).Some?
  {
    Section(Resource, ToUtf8(UnitsBytes(f.name)).value, f.data)
  }

  predicate NamesWellFormed(fs: seq<File>)
  {
    forall i :: 0 <= i < |fs| ==> ToUtf8(UnitsBytes(fs[i].name)).Some?
  }

  function SectionsOf(fs: seq<File>): (r: seq<Section>)
    requires NamesWellFormed(fs)
    ensures |r| == |fs|
    ensures forall i :: 0 <= i < |fs| ==> r[i] == ResourceSection(fs[i])
  {
    seq(|fs|, i requires 0 <= i < |fs| => ResourceSection(fs[i]))
  }

  function CoreSectionsOf(cores: seq<bytes>, app: bytes): (r: seq<Section>)
    requires |cores| == 3
    ensures |r| == 3
  {
    [Section(Descriptor, CoreNames(app)[0], cores[0]), Section(Note, CoreNames(app)[1], cores[1]),
     Section(Program, CoreNames(app)[2], cores[2])]
  }

  /** The folder a packer run accepted: its files by key, in insertion order. */
  datatype Entry = Entry(key: jstring, file: File)

  predicate DistinctEntries(es: seq<Entry>)
  {
    forall i, j :: 0 <= i < j < |es| ==> es[i].key != es[j].key
  }

  /** `Map.prototype.get` */
  function Lookup(es: seq<Entry>, key: jstring): Option<File>
  {
    if es == [] then None else if es[0].key == key then Some(es[0].file) else Lookup(es[1..], key)
  }

  /** The values left after deleting `keys`, in insertion order. */
  function Remaining(es: seq<Entry>, keys: seq<jstring>): seq<File>
  {
    if es == [] then []
    else (if es[0].key in keys then [] else [es[0].file]) + Remaining(es[1..], keys)
  }

  /** The filter loop over the dropped files: `None` when a name is invalid or repeated. */
  function EntriesOf(files: seq<File>, lower: jstring -> jstring, entries: seq<Entry>): Option<seq<Entry>>
    decreases |files|
  {
    if files == [] then Some(entries)
    else
      var f := files[0];
      if FinderMetadata(f.name) then EntriesOf(files[1..], lower, entries)
      else if !ValidFileName(f.name) || Lookup(entries, lower(f.name)).Some? then None
      else EntriesOf(files[1..], lower, entries + [Entry(lower(f.name), f)])
  }

  function CoreFileNames(app: jstring): seq<jstring>
  {
    [app + Ascii(".hpapp"), app + Ascii(".hpappnote"), app + Ascii(".hpappprgm")]
  }

  function CoreKeys(app: jstring, lower: jstring -> jstring): seq<jstring>
  {
    [lower(CoreFileNames(app)[0]), lower(CoreFileNames(app)[1]), lower(CoreFileNames(app)[2])]
  }

  function DataOf(f: Option<File>): bytes
  {
    match f
    case None => []
    case Some(file) => file.data
  }

  function CoreData(es: seq<Entry>, keys: seq<jstring>): (r: seq<bytes>)
    requires |keys| == 3
    ensures |r| == 3
  {
    [DataOf(Lookup(es, keys[0])), DataOf(Lookup(es, keys[1])), DataOf(Lookup(es, keys[2]))]
  }

  function NamesSize(fs: seq<File>): nat
  {
    if fs == [] then 0 else NamesSize(fs[..|fs| - 1]) + 4 + |fs[|fs| - 1].name| * 2 + 2 + |fs[|fs| - 1].data|
  }

  const MAX_TRANSFER := 64 * 1024 * 1024 - 1024

  function PackedSize(cores: seq<bytes>, resources: seq<File>): nat
    requires |cores| == 3
  {
    12 + |cores[0]| + |cores[1]| + |cores[2]| + NamesSize(resources)
  }

  /** What the packer writes for a folder. `lower` is the host's `toLowerCase`. */
  function Packed(folder: jstring, files: seq<File>, lower: jstring -> jstring): Option<(seq<bytes>, seq<File>)>
  {
    if !EndsWithIgnoringCase(folder, Ascii(".hpappdir")) then None
    else
      var app := folder[..|folder| - 9];
      if !ValidAppName(app) then None
      else
        match EntriesOf(files, lower, [])
        case None => None
        case Some(es) =>
          var keys := CoreKeys(app, lower);
          var cores, resources := CoreData(es, keys), SortByName(Remaining(es, keys));
          if cores[0] == [] then None
          else if exists f :: f in resources && CoreExtension(f.name) then None
          else if PackedSize(cores, resources) > MAX_TRANSFER then None
          else Some((cores, resources))
  }

  // ----- names: JavaScript strings against UTF-8 -----

  function Units(cs: seq<Scalar>): jstring
  {
    if cs == [] then [] else UnitsOf(cs[0]) + Units(cs[1..])
  }

  function UnitsOf(c: Scalar): (r: jstring)
    ensures r != []
  {
    if c < 0x1_0000 then [c as unit]
    else [(0xD800 + (c - 0x1_0000) / 0x400) as unit, (0xDC00 + (c - 0x1_0000) % 0x400) as unit]
  }

  lemma {:induction false} UnitsBytesAppend(a: jstring, b: jstring)
    ensures UnitsBytes(a + b) == UnitsBytes(a) + UnitsBytes(b)
  {
    hide U16le, UnitsBytes;
    UnitsBytesOf(a);
    if a == [] {
      assert a + b == b && [] + UnitsBytes(b) == UnitsBytes(b);
    } else {
      AppendTail(a, b);
      UnitsBytesAppend(a[1..], b);
      UnitsBytesOf(a + b);
      Assoc(U16le(a[0] as int), UnitsBytes(a[1..]), UnitsBytes(b));
    }
  }

  lemma UnitsBytesOf(s: jstring)
    ensures s == [] ==> UnitsBytes(s) == []
    ensures s != [] ==> UnitsBytes(s) == U16le(s[0] as int) + UnitsBytes(s[1..])
  {
    hide U16le;
  }

  lemma UnitsOfBytes(c: Scalar)
    ensures UnitsBytes(UnitsOf(c)) == Utf16(c)
  {
    hide U16le;
    var u := UnitsOf(c);
    if c >= 0x1_0000 {
      assert u[1..][1..] == [];
      assert UnitsBytes(u[1..]) == U16le(u[1] as int) + [];
    } else {
      assert u[1..] == [];
    }
  }

  lemma {:induction false} UnitsBytesOfScalars(cs: seq<Scalar>)
    ensures UnitsBytes(Units(cs)) == Utf16All(cs)
  {
    hide UnitsOf, Utf16;
    if cs != [] {
      UnitsBytesOfScalars(cs[1..]);
      UnitsBytesAppend(UnitsOf(cs[0]), Units(cs[1..]));
      UnitsOfBytes(cs[0]);
    }
  }

  lemma {:induction false} UnitsBytesInjective(a: jstring, b: jstring)
    requires UnitsBytes(a) == UnitsBytes(b)
    ensures a == b
  {
    assert |a| == |b|;
    if a != [] {
      U16leInverse(a[0] as int, UnitsBytes(a[1..]));
      U16leInverse(b[0] as int, UnitsBytes(b[1..]));
      assert UnitsBytes(a)[2..] == UnitsBytes(a[1..]) && UnitsBytes(b)[2..] == UnitsBytes(b[1..]);
      UnitsBytesInjective(a[1..], b[1..]);
      assert a == [a[0]] + a[1..] && b == [b[0]] + b[1..];
    }
  }

  /** The scalars of a well-formed name. */
  lemma NameScalars(name: jstring) returns (cs: seq<Scalar>)
    requires ToUtf8(UnitsBytes(name)).Some?
    ensures name == Units(cs) && ToUtf8(UnitsBytes(name)) == Some(Utf8All(cs))
  {
    cs := ScalarsOfUtf16(UnitsBytes(name)).value;
    Utf16Unique(UnitsBytes(name));
    UnitsBytesOfScalars(cs);
    UnitsBytesInjective(name, Units(cs));
  }

  function LowerScalar(c: Scalar): Scalar
  {
    if 0x41 <= c <= 0x5A then c + 32 else c
  }

  function LowerScalars(cs: seq<Scalar>): seq<Scalar>
  {
    if cs == [] then [] else [LowerScalar(cs[0])] + LowerScalars(cs[1..])
  }

  lemma LowerUtf8(c: Scalar)
    ensures Utf8(LowerScalar(c)) == Lower(Utf8(c))
  {
  }

  lemma LowerUnitsOf(c: Scalar)
    ensures UnitsOf(LowerScalar(c)) == LowerUnits(UnitsOf(c))
  {
  }

  lemma LowerAppend(a: bytes, b: bytes)
    ensures Lower(a + b) == Lower(a) + Lower(b)
  {
  }

  lemma {:induction false} LowerScalarsMean(cs: seq<Scalar>)
    ensures Utf8All(LowerScalars(cs)) == Lower(Utf8All(cs)) && Units(LowerScalars(cs)) == LowerUnits(Units(cs))
  {
    hide Utf8, UnitsOf, LowerScalar, LowerUnit, LowerByte;
    if cs != [] {
      LowerScalarsMean(cs[1..]);
      LowerUtf8(cs[0]);
      LowerUnitsOf(cs[0]);
      LowerAppend(Utf8(cs[0]), Utf8All(cs[1..]));
      assert LowerScalars(cs)[1..] == LowerScalars(cs[1..]);
    }
  }

  /** Names the C++ parser would call duplicates differ only in ASCII case as JavaScript strings too. */
  lemma SameKey(a: jstring, b: jstring)
    requires ToUtf8(UnitsBytes(a)).Some? && ToUtf8(UnitsBytes(b)).Some?
    requires Lower(ToUtf8(UnitsBytes(a)).value) == Lower(ToUtf8(UnitsBytes(b)).value)
    ensures LowerUnits(a) == LowerUnits(b)
  {
    hide Utf8All, UnitsBytes, Units, LowerScalars, Lower, LowerUnits, ToUtf8;
    var x := NameScalars(a);
    var y := NameScalars(b);
    LowerScalarsMean(x);
    LowerScalarsMean(y);
    Utf8Accepted(LowerScalars(x));
    Utf8Accepted(LowerScalars(y));
  }

  predicate NameUnits(s: jstring)
  {
    forall i :: 0 <= i < |s| ==> !Separator(s[i]) && s[i] != 0x7F
  }

  lemma {:induction false} NameBytesOf(cs: seq<Scalar>)
    requires NameUnits(Units(cs))
    ensures forall b :: b in Utf8All(cs) ==> NameByte(b)
  {
    hide Utf8, UnitsOf, NameByte;
    if cs != [] {
      var u := Units(cs);
      assert u[|UnitsOf(cs[0])|..] == Units(cs[1..]);
      NameBytesOf(cs[1..]);
      assert u[..|UnitsOf(cs[0])|] == UnitsOf(cs[0]);
      NameBytesOfOne(cs[0]);
    }
  }

  lemma NameBytesOfOne(c: Scalar)
    requires NameUnits(UnitsOf(c))
    ensures forall b :: b in Utf8(c) ==> NameByte(b)
  {
    if c < 0x80 {
      assert UnitsOf(c)[0] == c as unit;
    }
  }

  lemma DotNames()
    ensures ToUtf16([]) == Some([]) && ToUtf16([0x2E]) == Some([0x2E, 0])
      && ToUtf16([0x2E, 0x2E]) == Some([0x2E, 0, 0x2E, 0])
  {
    hide Utf8, Utf16;
    var one: seq<Scalar>, two: seq<Scalar> := [0x2E], [0x2E, 0x2E];
    assert two[1..] == one && one[1..] == [];
    DotBytes();
    assert Utf8All(one) == [0x2E] + Utf8All([]) && Utf8All(two) == [0x2E] + Utf8All(one);
    assert Utf16All(one) == [0x2E, 0] + Utf16All([]) && Utf16All(two) == [0x2E, 0] + Utf16All(one);
    assert Utf8All(one) == [0x2E] && Utf8All(two) == [0x2E, 0x2E];
    assert Utf16All(one) == [0x2E, 0] && Utf16All(two) == [0x2E, 0, 0x2E, 0];
    Utf8Accepted([]);
    Utf8Accepted(one);
    Utf8Accepted(two);
  }

  lemma DotBytes()
    ensures Utf8(0x2E) == [0x2E] && Utf16(0x2E) == [0x2E, 0]
  {
  }

  /** A file name the packer accepts is a resource name the parser accepts, as long as it is well formed. */
  lemma FileNameIsResourceName(name: jstring)
    requires ValidFileName(name) && ToUtf8(UnitsBytes(name)).Some?
    ensures ValidName(ToUtf8(UnitsBytes(name)).value)
    ensures ToUtf16(ToUtf8(UnitsBytes(name)).value) == Some(UnitsBytes(name))
  {
    hide ToUtf8, ToUtf16, NameByte;
    var e := UnitsBytes(name);
    var u := ToUtf8(e).value;
    TranscodingIsBijective(e, u);
    var cs := NameScalars(name);
    NameBytesOf(cs);
    DotNames();
    DotUnits(name);
  }

  lemma DotUnits(name: jstring)
    ensures UnitsBytes(name) == [0x2E, 0] ==> name == [0x2E]
    ensures UnitsBytes(name) == [0x2E, 0, 0x2E, 0] ==> name == [0x2E, 0x2E]
  {
    var one: jstring, two: jstring := [0x2E], [0x2E, 0x2E];
    assert two[1..] == one && one[1..] == [];
    assert UnitsBytes(one) == [0x2E, 0] + UnitsBytes(one[1..]);
    assert UnitsBytes(two) == [0x2E, 0] + UnitsBytes(two[1..]);
    if UnitsBytes(name) == [0x2E, 0] {
      UnitsBytesInjective(name, one);
    }
    if UnitsBytes(name) == [0x2E, 0, 0x2E, 0] {
      UnitsBytesInjective(name, two);
    }
  }

  lemma {:induction false} UnitsBytesHaveNoZeroUnit(name: jstring)
    requires forall i :: 0 <= i < |name| ==> name[i] != 0
    ensures NameEnd(UnitsBytes(name)) == None
  {
    hide NameEnd;
    NoNameEnd();
    if name != [] {
      UnitsBytesHaveNoZeroUnit(name[1..]);
      NonZeroUnit(name[0] as int, UnitsBytes(name[1..]));
    }
  }

  // ----- the packed container as the parser reads it -----

  predicate FitsWord(f: File)
  {
    |f.name| * 2 + 2 + |f.data| < TWO_32
  }

  lemma ResourceFieldRead(f: File, rest: bytes)
    requires ValidFileName(f.name) && FitsWord(f)
    ensures ToUtf8(UnitsBytes(f.name)).None? ==> ReadResource(ResourceField(f) + rest) == None
    ensures ToUtf8(UnitsBytes(f.name)).Some? ==>
      WellFormedSection(ResourceSection(f)) && SectionBytes(ResourceSection(f)) == ResourceField(f)
  {
    hide ToUtf8, ToUtf16, NameEnd, Field, ReadField, UnitsBytes, ValidName;
    var e := UnitsBytes(f.name);
    var body := e + [0, 0] + f.data;
    FieldInverse(body, rest);
    UnitsBytesHaveNoZeroUnit(f.name);
    NameEndFound(e, f.data);
    assert body[..|e|] == e;
    if ToUtf8(e).Some? {
      FileNameIsResourceName(f.name);
    }
  }

  predicate DistinctNames(fs: seq<File>, lower: jstring -> jstring)
  {
    forall i, j :: 0 <= i < j < |fs| ==> lower(fs[i].name) != lower(fs[j].name)
  }

  predicate Packable(fs: seq<File>, lower: jstring -> jstring)
  {
    && (forall i :: 0 <= i < |fs| ==> ValidFileName(fs[i].name) && FitsWord(fs[i]))
    && DistinctNames(fs, lower)
  }

  lemma {:induction false} ReadableNamesAreWellFormed(fs: seq<File>, keys: set<bytes>)
    requires forall i :: 0 <= i < |fs| ==> ValidFileName(fs[i].name) && FitsWord(fs[i])
    ensures ReadResources(ResourceFields(fs), keys).Some? ==> NamesWellFormed(fs)
  {
    hide ResourceField, ReadResource, ValidFileName, FitsWord, ToUtf8, SectionBytes, WellFormedSection, Lower,
         UnitsBytes;
    if fs != [] && ReadResources(ResourceFields(fs), keys).Some? {
      var f, rest := fs[0], ResourceFields(fs[1..]);
      var s := ResourceFields(fs);
      ResourceFieldRead(f, rest);
      FieldNonEmpty(f);
      ReadResourceFits(s);
      var r := ResourceSection(f);
      ReadResourceInverse(r, rest);
      assert s[|SectionBytes(r)|..] == rest;
      ReadableNamesAreWellFormed(fs[1..], keys + {Lower(r.name)});
      forall i | 0 <= i < |fs| ensures ToUtf8(UnitsBytes(fs[i].name)).Some? {
        assert i > 0 ==> fs[i] == fs[1..][i - 1];
      }
    }
  }

  lemma FieldNonEmpty(f: File)
    ensures ResourceField(f) != []
  {
  }

  lemma {:induction false} FieldsAreLayout(fs: seq<File>)
    requires NamesWellFormed(fs) && forall i :: 0 <= i < |fs| ==> ValidFileName(fs[i].name) && FitsWord(fs[i])
    ensures AllWellFormed(SectionsOf(fs)) && Layout(SectionsOf(fs)) == ResourceFields(fs)
  {
    hide ResourceField, ValidFileName, FitsWord, ToUtf8, SectionBytes, WellFormedSection, UnitsBytes, ResourceSection;
    var ss := SectionsOf(fs);
    if fs != [] {
      ResourceFieldRead(fs[0], []);
      FieldsAreLayout(fs[1..]);
      assert ss == [ss[0]] + SectionsOf(fs[1..]);
      assert ss[1..] == SectionsOf(fs[1..]);
    }
  }

  lemma CoreRead(body: bytes, rest: bytes, app: bytes, i: nat)
    requires |body| < TWO_32 && i < 3
    ensures ReadSectionsFrom(Field(body) + rest, app, i)
         == Prepend([Section(CORE_KINDS[i], CoreNames(app)[i], body)], ReadSectionsFrom(rest, app, i + 1))
  {
    hide Field, ReadField, ReadResources, CoreNames;
    FieldInverse(body, rest);
    assert (Field(body) + rest)[|Field(body)|..] == rest;
  }

  lemma CoreFieldsRead(cores: seq<bytes>, rest: bytes, app: bytes)
    requires |cores| == 3 && |cores[0]| < TWO_32 && |cores[1]| < TWO_32 && |cores[2]| < TWO_32
    ensures ReadSections(CoreFields(cores) + rest, app) == Prepend(CoreSectionsOf(cores, app), ReadResources(rest, {}))
  {
    hide Field, ReadField, ReadResources, CoreNames, ReadSectionsFrom;
    var c2, c1 := Field(cores[2]) + rest, Field(cores[1]) + (Field(cores[2]) + rest);
    var ss := CoreSectionsOf(cores, app);
    var tail, last := cores[1..], cores[2..];
    assert tail[1..] == last && last[1..] == [];
    assert CoreFields(last) == Field(cores[2]) + CoreFields([])
      && CoreFields(tail) == Field(cores[1]) + CoreFields(last);
    assert CoreFields(cores) + rest == Field(cores[0]) + c1;
    var r := ReadResources(rest, {});
    CoreRead(cores[0], c1, app, 0);
    CoreRead(cores[1], c2, app, 1);
    CoreRead(cores[2], rest, app, 2);
    ResourcesFromHere(rest, app);
    PrependStep([ss[1]], ss[2], r);
    PrependStep([ss[0]], ss[1], Prepend([ss[2]], r));
    PrependStep([ss[0], ss[1]], ss[2], r);
    assert [ss[0]] + [ss[1]] == [ss[0], ss[1]] && [ss[0], ss[1]] + [ss[2]] == ss;
  }

  /** The host's case mapping identifies names that differ only in ASCII case. */
  ghost predicate RespectsAsciiCase(lower: jstring -> jstring)
  {
    forall a, b :: LowerUnits(a) == LowerUnits(b) ==> lower(a) == lower(b)
  }

  /**
   * Main result: the C++ parser accepts the packed bytes if and only if every resource name is well-formed UTF-16, and
   * then yields the three core files (empty where one is missing) and every resource byte for byte.
   */
  lemma PackedParses(cores: seq<bytes>, resources: seq<File>, app: bytes, lower: jstring -> jstring)
    requires |cores| == 3 && |cores[0]| < TWO_32 && |cores[1]| < TWO_32 && |cores[2]| < TWO_32
    requires Packable(resources, lower) && RespectsAsciiCase(lower)
    ensures var data := CoreFields(cores) + ResourceFields(resources);
      && (ReadSections(data, app).Some? <==> NamesWellFormed(resources))
      && (NamesWellFormed(resources) ==>
        ReadSections(data, app) == Some(CoreSectionsOf(cores, app) + SectionsOf(resources)))
  {
    hide CoreFields, ResourceFields, ReadSections, ReadResources, ResourceSection, ToUtf8, UnitsBytes, ValidFileName,
         FitsWord,
         CoreNames, Layout, CoreSectionsOf, LowerUnits, Lower, WellFormedSection;
    CoreFieldsRead(cores, ResourceFields(resources), app);
    ReadableNamesAreWellFormed(resources, {});
    if NamesWellFormed(resources) {
      FieldsAreLayout(resources);
      var ss := SectionsOf(resources);
      forall i | 0 <= i < |ss|
        ensures ss[i].kind.Resource? && ss[i].name == ToUtf8(UnitsBytes(resources[i].name)).value {
        SectionName(resources[i]);
      }
      forall i, j | 0 <= i < j < |ss| ensures Lower(ss[i].name) != Lower(ss[j].name) {
        if Lower(ss[i].name) == Lower(ss[j].name) {
          SameKey(resources[i].name, resources[j].name);
        }
      }
      ResourcesComplete(ss, {});
    }
  }

  lemma SectionName(f: File)
    requires ToUtf8(UnitsBytes(f.name)).Some?
    ensures ResourceSection(f).kind.Resource? && ResourceSection(f).name == ToUtf8(UnitsBytes(f.name)).value
  {
  }

  // ----- the folder filter -----

  predicate GoodEntries(es: seq<Entry>, lower: jstring -> jstring)
  {
    && DistinctEntries(es)
    && forall i :: 0 <= i < |es| ==> es[i].key == lower(es[i].file.name) && ValidFileName(es[i].file.name)
  }

  lemma {:induction false} LookupMeans(es: seq<Entry>, key: jstring)
    ensures Lookup(es, key).None? ==> forall i :: 0 <= i < |es| ==> es[i].key != key
    ensures Lookup(es, key).Some? ==> exists i :: 0 <= i < |es| && es[i] == Entry(key, Lookup(es, key).value)
  {
    if es != [] && es[0].key != key {
      LookupMeans(es[1..], key);
      forall i | 0 <= i < |es| && Lookup(es, key).None? ensures es[i].key != key {
        assert i > 0 ==> es[i] == es[1..][i - 1];
      }
      if Lookup(es, key).Some? {
        var i :| 0 <= i < |es[1..]| && es[1..][i] == Entry(key, Lookup(es, key).value);
        assert es[i + 1] == Entry(key, Lookup(es, key).value);
      }
    }
  }

  lemma {:induction false} LookupFinds(es: seq<Entry>, i: nat)
    requires DistinctEntries(es) && i < |es|
    ensures Lookup(es, es[i].key) == Some(es[i].file)
  {
    if i > 0 {
      LookupFinds(es[1..], i - 1);
    }
  }

  /** The filter loop keeps every file that is not Finder metadata, under distinct keys. */
  lemma {:induction false} EntriesKeepFiles(files: seq<File>, lower: jstring -> jstring, entries: seq<Entry>)
    requires GoodEntries(entries, lower)
    ensures EntriesOf(files, lower, entries).Some? ==>
      var es := EntriesOf(files, lower, entries).value;
      && GoodEntries(es, lower)
      && (forall e :: e in entries ==> e in es)
      && (forall f :: f in files && !FinderMetadata(f.name) ==> Entry(lower(f.name), f) in es)
      && (forall e :: e in es ==> e in entries || e.file in files)
    decreases |files|
  {
    hide FinderMetadata, ValidFileName, Lookup;
    if files != [] && EntriesOf(files, lower, entries).Some? {
      var f := files[0];
      if FinderMetadata(f.name) {
        EntriesKeepFiles(files[1..], lower, entries);
      } else {
        LookupMeans(entries, lower(f.name));
        var next := entries + [Entry(lower(f.name), f)];
        EntriesKeepFiles(files[1..], lower, next);
        assert Entry(lower(f.name), f) in next;
        assert forall e :: e in entries ==> e in next;
      }
      assert files == [f] + files[1..];
    }
  }

  lemma {:induction false} RemainingMeans(es: seq<Entry>, keys: seq<jstring>, lower: jstring -> jstring)
    requires GoodEntries(es, lower)
    ensures var fs := Remaining(es, keys);
      && (forall e :: e in es && e.key !in keys ==> e.file in fs)
      && (forall f :: f in fs ==> Entry(lower(f.name), f) in es && lower(f.name) !in keys && ValidFileName(f.name))
      && DistinctNames(fs, lower)
  {
    hide ValidFileName;
    if es != [] {
      var tail := es[1..];
      RemainingMeans(tail, keys, lower);
      assert es == [es[0]] + tail;
      var rest := Remaining(tail, keys);
      forall j | 0 <= j < |rest| ensures lower(rest[j].name) != es[0].key {
        var e := Entry(lower(rest[j].name), rest[j]);
        assert rest[j] in rest && e in tail;
        var k :| 0 <= k < |tail| && tail[k] == e;
        assert es[k + 1] == e;
      }
    }
  }

  lemma {:induction false} InsertMembers(f: File, fs: seq<File>)
    ensures forall g :: g in Insert(f, fs) <==> g == f || g in fs
  {
    hide Before;
    if !(fs == [] || !Before(fs[0].name, f.name)) {
      InsertMembers(f, fs[1..]);
      assert fs == [fs[0]] + fs[1..];
    }
  }

  lemma {:induction false} InsertKeepsKeys(f: File, fs: seq<File>, lower: jstring -> jstring)
    requires DistinctNames(fs, lower)
    requires forall g :: g in fs ==> lower(g.name) != lower(f.name)
    ensures DistinctNames(Insert(f, fs), lower)
  {
    hide Before;
    if fs == [] || !Before(fs[0].name, f.name) {
      assert forall j :: 0 <= j < |fs| ==> fs[j] in fs;
    } else {
      assert fs == [fs[0]] + fs[1..];
      InsertKeepsKeys(f, fs[1..], lower);
      InsertMembers(f, fs[1..]);
      var rest := Insert(f, fs[1..]);
      forall j | 0 <= j < |rest| ensures lower(rest[j].name) != lower(fs[0].name) {
        assert rest[j] in rest;
        if rest[j] != f {
          var k :| 0 <= k < |fs[1..]| && fs[1..][k] == rest[j];
          assert fs[k + 1] == rest[j];
        }
      }
    }
  }

  lemma {:induction false} SortKeepsKeys(fs: seq<File>, lower: jstring -> jstring)
    requires DistinctNames(fs, lower)
    ensures DistinctNames(SortByName(fs), lower)
    ensures forall g :: g in SortByName(fs) <==> g in fs
  {
    hide Insert;
    if fs != [] {
      var tail := fs[1..];
      SortKeepsKeys(tail, lower);
      assert forall g :: g in SortByName(tail) <==> g in tail;
      InsertMembers(fs[0], SortByName(tail));
      assert fs == [fs[0]] + tail;
      forall g | g in SortByName(tail) ensures lower(g.name) != lower(fs[0].name) {
        var k :| 0 <= k < |tail| && tail[k] == g;
        assert fs[k + 1] == g;
      }
      InsertKeepsKeys(fs[0], SortByName(tail), lower);
    }
  }

  lemma {:induction false} ResourceFieldsAppend(a: seq<File>, b: seq<File>)
    ensures ResourceFields(a + b) == ResourceFields(a) + ResourceFields(b)
  {
    hide ResourceField, ResourceFields;
    ResourceFieldsOf(a);
    if a == [] {
      assert a + b == b;
      assert [] + ResourceFields(b) == ResourceFields(b);
    } else {
      AppendTail(a, b);
      ResourceFieldsAppend(a[1..], b);
      ResourceFieldsOf(a + b);
      Assoc(ResourceField(a[0]), ResourceFields(a[1..]), ResourceFields(b));
    }
  }

  lemma ResourceFieldsOf(fs: seq<File>)
    ensures fs == [] ==> ResourceFields(fs) == []
    ensures fs != [] ==> ResourceFields(fs) == ResourceField(fs[0]) + ResourceFields(fs[1..])
  {
    hide ResourceField;
  }

  /** The size computed before packing is the size packed. */
  lemma {:induction false} SizeIsExact(fs: seq<File>)
    ensures |ResourceFields(fs)| == NamesSize(fs)
    ensures forall f :: f in fs ==> |f.name| * 2 + 2 + |f.data| <= NamesSize(fs)
  {
    hide UnitsBytes;
    if fs != [] {
      var front, last := fs[..|fs| - 1], fs[|fs| - 1];
      SizeIsExact(front);
      ResourceFieldsAppend(front, [last]);
      assert fs == front + [last] && [last][1..] == [];
      assert ResourceFields([last]) == ResourceField(last) + ResourceFields([]);
    }
  }

  /** What the packer accepts is packable, sized as announced, sorted, complete, and made of the folder's files only. */
  lemma {:induction false} PackedIsPackable(folder: jstring, files: seq<File>, lower: jstring -> jstring,
                                            cores: seq<bytes>, resources: seq<File>)
    requires Packed(folder, files, lower) == Some((cores, resources))
    ensures |cores| == 3 && Packable(resources, lower) && Ascending(resources)
    ensures |CoreFields(cores) + ResourceFields(resources)| == PackedSize(cores, resources) <= MAX_TRANSFER
    ensures forall f :: f in resources ==> f in files && !CoreExtension(f.name)
    ensures var keys := CoreKeys(folder[..|folder| - 9], lower);
      forall f :: f in files && !FinderMetadata(f.name) ==>
        f in resources || exists i :: 0 <= i < 3 && lower(f.name) == keys[i] && cores[i] == f.data
    ensures var keys := CoreKeys(folder[..|folder| - 9], lower);
      forall i :: 0 <= i < 3 ==>
        cores[i] == [] || exists f :: f in files && lower(f.name) == keys[i] && f.data == cores[i]
  {
    hide FinderMetadata, ValidFileName, CoreExtension, ValidAppName, Insert, Ascending, EntriesOf, SortByName,
         ResourceFields, NamesSize, Remaining, Lookup;
    var keys := CoreKeys(folder[..|folder| - 9], lower);
    var es := EntriesOf(files, lower, []).value;
    EntriesKeepFiles(files, lower, []);
    var rest := Remaining(es, keys);
    RemainingMeans(es, keys, lower);
    SortKeepsKeys(rest, lower);
    SortIsPermutation(rest);
    SizeIsExact(resources);
    CoreFieldsSize(cores);
    forall f | f in resources ensures ValidFileName(f.name) && f in files && !CoreExtension(f.name) && FitsWord(f) {
      assert f in rest && Entry(lower(f.name), f) in es;
    }
    assert forall i :: 0 <= i < |resources| ==> resources[i] in resources;
    forall i | 0 <= i < 3 && cores[i] != []
      ensures exists f :: f in files && lower(f.name) == keys[i] && f.data == cores[i] {
      LookupMeans(es, keys[i]);
      var f := Lookup(es, keys[i]).value;
      assert Entry(keys[i], f) in es;
      assert f in files && lower(f.name) == keys[i];
    }
    forall f | f in files && !FinderMetadata(f.name)
      ensures f in resources || exists i :: 0 <= i < 3 && lower(f.name) == keys[i] && cores[i] == f.data
    {
      var e := Entry(lower(f.name), f);
      assert e in es;
      var k :| 0 <= k < |es| && es[k] == e;
      if e.key in keys {
        var i :| 0 <= i < |keys| && keys[i] == e.key;
        LookupFinds(es, k);
        assert cores[i] == f.data;
      } else {
        assert e.file in rest;
      }
    }
  }

  lemma CoreFieldsSize(cores: seq<bytes>)
    requires |cores| == 3
    ensures |CoreFields(cores)| == 12 + |cores[0]| + |cores[1]| + |cores[2]|
  {
    var tail, last := cores[1..], cores[2..];
    assert tail[1..] == last && last[1..] == [];
    assert CoreFields(last) == Field(cores[2]) + CoreFields([])
      && CoreFields(tail) == Field(cores[1]) + CoreFields(last);
  }

  // ----- the packer -----

  /** The name loop: one little-endian unit a turn. */
  method FillUnits(a: array<byte>, start: nat, name: jstring) returns (offset: nat)
    requires start + 2 * |name| <= a.Length && a[start..] == Zeros(a.Length - start)
    modifies a
    ensures offset == start + 2 * |name| && a[..offset] == old(a[..start]) + UnitsBytes(name)
    ensures a[offset..] == Zeros(a.Length - offset)
  {
    hide UnitsBytes, U16le, Zeros;
    offset := start;
    NoUnits();
    for k := 0 to |name|
      invariant offset == start + 2 * k
      invariant a[offset..] == Zeros(a.Length - offset)
      invariant a[..offset] == old(a[..start]) + UnitsBytes(name[..k])
    {
      UnitsBytesStep(name, k);
      offset := Fill(a, offset, U16le(name[k] as int));
    }
    assert name[..|name|] == name;
  }

  /** One turn of the resource loop: length, name units, the zero unit the array already holds, data. */
  method FillResource(a: array<byte>, start: nat, file: File) returns (offset: nat)
    requires start + |ResourceField(file)| <= a.Length && a[start..] == Zeros(a.Length - start)
    modifies a
    ensures offset == start + |ResourceField(file)| && a[..offset] == old(a[..start]) + ResourceField(file)
    ensures a[offset..] == Zeros(a.Length - offset)
  {
    hide UnitsBytes, U32be, ResourceField, Zeros;
    ResourceFieldParts(file);
    ghost var before := a[..start];
    ghost var size, units := U32be(|file.name| * 2 + 2 + |file.data|), UnitsBytes(file.name);
    offset := Fill(a, start, U32be(|file.name| * 2 + 2 + |file.data|));
    offset := FillUnits(a, offset, file.name);
    LeaveTerminator(a, offset);
    offset := offset + 2;
    assert a[..offset] == before + size + units + [0, 0];
    offset := Fill(a, offset, file.data);
    FourParts(before, size, units, [0, 0], file.data);
  }

  /** Two bytes left as they are, zero, end a name. */
  lemma LeaveTerminator(a: array<byte>, offset: nat)
    requires offset + 2 <= a.Length && a[offset..] == Zeros(a.Length - offset)
    ensures a[..offset + 2] == a[..offset] + [0, 0] && a[offset + 2..] == Zeros(a.Length - (offset + 2))
  {
    hide Zeros;
    SkipZeroes(a[..], offset, 2);
    assert a[..][..offset] == a[..offset] && a[..][offset..] == a[offset..];
    assert a[..][..offset + 2] == a[..offset + 2] && a[..][offset + 2..] == a[offset + 2..];
  }

  lemma FourParts(before: bytes, a: bytes, b: bytes, c: bytes, d: bytes)
    ensures before + a + b + c + d == before + (a + b + c + d)
  {
    Assoc(before, a, b);
    Assoc(before, a + b, c);
    Assoc(before, a + b + c, d);
  }

  lemma SkipZeroes(a: bytes, offset: nat, n: nat)
    requires offset + n <= |a| && a[offset..] == Zeros(|a| - offset)
    ensures a[..offset + n] == a[..offset] + Zeros(n) && a[offset + n..] == Zeros(|a| - offset - n)
    ensures n == 2 ==> Zeros(n) == [0, 0]
  {
    assert a[offset..offset + n] == a[offset..][..n] == Zeros(n);
    assert a[offset + n..] == a[offset..][n..];
  }

  /** The three core sections and the resources, written into a zeroed array of the announced size. */
  method FillContainer(cores: seq<bytes>, resources: seq<File>, size: nat) returns (packed: bytes)
    requires |cores| == 3 && size == PackedSize(cores, resources)
    ensures packed == CoreFields(cores) + ResourceFields(resources)
  {
    hide ResourceFields, NamesSize, ResourceField, UnitsBytes, CoreFields, U32be;
    CoreFieldsSize(cores);
    SizeIsExact(resources);
    var a := new byte[size](_ => 0);
    assert a[0..] == Zeros(size);
    var offset: nat := 0;
    NoFieldsYet(cores, resources);
    for i := 0 to 3
      invariant offset + |CoreFields(cores[i..])| == |CoreFields(cores)|
      invariant a[offset..] == Zeros(size - offset)
      invariant a[..offset] == CoreFields(cores[..i])
    {
      CoreFieldsStep(cores, i);
      offset := Fill(a, offset, U32be(|cores[i]|));
      offset := Fill(a, offset, cores[i]);
    }
    assert cores[..3] == cores;
    for i := 0 to |resources|
      invariant offset + |ResourceFields(resources[i..])| == size
      invariant a[offset..] == Zeros(size - offset)
      invariant a[..offset] == CoreFields(cores) + ResourceFields(resources[..i])
    {
      ResourceFieldsStep(resources, i);
      offset := FillResource(a, offset, resources[i]);
    }
    assert resources[..|resources|] == resources && resources[|resources|..] == [];
    assert offset == size && a[..offset] == a[..];
    packed := a[..];
  }

  lemma NoFieldsYet(cores: seq<bytes>, resources: seq<File>)
    requires |cores| == 3
    ensures CoreFields(cores[..0]) == [] && cores[0..] == cores && CoreFields(cores[3..]) == []
    ensures ResourceFields(resources[..0]) == [] && resources[0..] == resources && ResourceFields([]) == []
  {
  }

  lemma NoUnits()
    ensures UnitsBytes([]) == []
  {
  }

  lemma UnitsBytesStep(s: jstring, k: nat)
    requires k < |s|
    ensures UnitsBytes(s[..k + 1]) == UnitsBytes(s[..k]) + U16le(s[k] as int)
  {
    hide U16le;
    assert s[..k + 1] == s[..k] + [s[k]] && [s[k]][1..] == [];
    UnitsBytesAppend(s[..k], [s[k]]);
    assert UnitsBytes([s[k]]) == U16le(s[k] as int) + UnitsBytes([]);
  }

  lemma ResourceFieldParts(f: File)
    ensures ResourceField(f) == U32be(|f.name| * 2 + 2 + |f.data|) + UnitsBytes(f.name) + [0, 0] + f.data
    ensures |ResourceField(f)| == 4 + |f.name| * 2 + 2 + |f.data|
  {
    hide U32be, UnitsBytes;
  }

  lemma CoreFieldsStep(cores: seq<bytes>, i: nat)
    requires |cores| == 3 && i < 3
    ensures CoreFields(cores[..i + 1]) == CoreFields(cores[..i]) + U32be(|cores[i]|) + cores[i]
    ensures |CoreFields(cores[i..])| == 4 + |cores[i]| + |CoreFields(cores[i + 1..])|
  {
    hide U32be;
    CoreFieldsAppend(cores[..i], [cores[i]]);
    assert cores[..i + 1] == cores[..i] + [cores[i]] && [cores[i]][1..] == [];
    assert CoreFields([cores[i]]) == Field(cores[i]) + CoreFields([]);
    assert cores[i..][1..] == cores[i + 1..];
  }

  lemma {:induction false} CoreFieldsAppend(a: seq<bytes>, b: seq<bytes>)
    ensures CoreFields(a + b) == CoreFields(a) + CoreFields(b)
  {
    hide Field, CoreFields;
    CoreFieldsOf(a);
    if a == [] {
      assert a + b == b && [] + CoreFields(b) == CoreFields(b);
    } else {
      AppendTail(a, b);
      CoreFieldsAppend(a[1..], b);
      CoreFieldsOf(a + b);
      Assoc(Field(a[0]), CoreFields(a[1..]), CoreFields(b));
    }
  }

  lemma CoreFieldsOf(cores: seq<bytes>)
    ensures cores == [] ==> CoreFields(cores) == []
    ensures cores != [] ==> CoreFields(cores) == Field(cores[0]) + CoreFields(cores[1..])
  {
    hide Field;
  }

  lemma ResourceFieldsStep(fs: seq<File>, i: nat)
    requires i < |fs|
    ensures ResourceFields(fs[..i + 1]) == ResourceFields(fs[..i]) + ResourceField(fs[i])
    ensures |ResourceFields(fs[i..])| == |ResourceField(fs[i])| + |ResourceFields(fs[i + 1..])|
    ensures |ResourceField(fs[i])| == 4 + |fs[i].name| * 2 + 2 + |fs[i].data|
  {
    hide U32be, UnitsBytes;
    ResourceFieldsAppend(fs[..i], [fs[i]]);
    assert fs[..i + 1] == fs[..i] + [fs[i]] && [fs[i]][1..] == [];
    assert ResourceFields([fs[i]]) == ResourceField(fs[i]) + ResourceFields([]);
    assert fs[i..][1..] == fs[i + 1..];
  }

  method PackDirectory(folder: jstring, files: seq<File>, lower: jstring -> jstring) returns (r: Option<bytes>)
    ensures r == match Packed(folder, files, lower)
                 case None => None
                 case Some((cores, resources)) => Some(CoreFields(cores) + ResourceFields(resources))
  {
    hide FinderMetadata, ValidFileName, CoreExtension, ValidAppName, SortByName, ResourceFields, CoreFields,
         Remaining, Lookup, NamesSize;
    if !EndsWithIgnoringCase(folder, Ascii(".hpappdir")) {
      return None;
    }
    var appName := folder[..|folder| - 9];
    if !ValidAppName(appName) {
      return None;
    }
    var entries: seq<Entry> := [];
    assert files[0..] == files;
    for i := 0 to |files|
      invariant EntriesOf(files, lower, []) == EntriesOf(files[i..], lower, entries)
    {
      var file := files[i];
      assert files[i..][1..] == files[i + 1..];
      if !FinderMetadata(file.name) {
        var key := lower(file.name);
        if !ValidFileName(file.name) || Lookup(entries, key).Some? {
          return None;
        }
        entries := entries + [Entry(key, file)];
      }
    }
    assert EntriesOf(files, lower, []) == Some(entries);
    var keys := CoreKeys(appName, lower);
    var cores := CoreData(entries, keys);
    if cores[0] == [] {
      return None;
    }
    var resources := SortByName(Remaining(entries, keys));
    for i := 0 to |resources|
      invariant forall k :: 0 <= k < i ==> !CoreExtension(resources[k].name)
    {
      if CoreExtension(resources[i].name) {
        assert resources[i] in resources;
        return None;
      }
    }
    var size := 12 + |cores[0]| + |cores[1]| + |cores[2]|;
    SizeOfNone();
    for i := 0 to |resources|
      invariant size == 12 + |cores[0]| + |cores[1]| + |cores[2]| + NamesSize(resources[..i])
    {
      SizeStep(resources, i);
      size := size + 4 + |resources[i].name| * 2 + 2 + |resources[i].data|;
    }
    assert resources[..|resources|] == resources;
    if size > MAX_TRANSFER {
      return None;
    }
    var packed := FillContainer(cores, resources, size);
    r := Some(packed);
  }

  lemma SizeOfNone()
    ensures NamesSize([]) == 0
  {
  }

  lemma SizeStep(fs: seq<File>, i: nat)
    requires i < |fs|
    ensures NamesSize(fs[..i + 1]) == NamesSize(fs[..i]) + 4 + |fs[i].name| * 2 + 2 + |fs[i].data|
  {
    assert fs[..i + 1][..i] == fs[..i];
  }

  // ----- from the folder to the parser -----

  /** The file `f` is among the sections `ss`: as the core part its name stands for, or as a resource of its name. */
  ghost predicate Arrives(f: File, ss: seq<Section>, keys: seq<jstring>, lower: jstring -> jstring)
    requires |keys| == 3
  {
    exists k :: 0 <= k < |ss| && ss[k].payload == f.data
      && if k < 3 then lower(f.name) == keys[k] else ToUtf8(UnitsBytes(f.name)) == Some(ss[k].name)
  }

  /**
   * Main result, from a dropped folder to the parsed application: the bytes the packer makes of an accepted folder
   * parse if and only if its resource names are well-formed UTF-16, and then every file of the folder has arrived.
   */
  lemma {:induction false} FolderArrives(folder: jstring, files: seq<File>, lower: jstring -> jstring, app: bytes,
                                         cores: seq<bytes>, resources: seq<File>)
    requires Packed(folder, files, lower) == Some((cores, resources)) && RespectsAsciiCase(lower)
    ensures |cores| == 3 && |folder| >= 9 && |CoreKeys(folder[..|folder| - 9], lower)| == 3
    ensures var ss := ReadSections(CoreFields(cores) + ResourceFields(resources), app);
      && (ss.Some? <==> NamesWellFormed(resources))
      && (ss.Some? ==>
            && ss == Some(CoreSectionsOf(cores, app) + SectionsOf(resources))
            && forall f :: f in files && !FinderMetadata(f.name) ==>
                 Arrives(f, ss.value, CoreKeys(folder[..|folder| - 9], lower), lower))
  {
    hide CoreFields, ResourceFields, ReadSections, ResourceSection, ToUtf8, UnitsBytes, CoreNames, Packable, Ascending,
         FinderMetadata, CoreExtension, RespectsAsciiCase, CoreKeys, NamesSize, Ascii;
    PackedIsPackable(folder, files, lower, cores, resources);
    PackedParses(cores, resources, app, lower);
    FolderName(folder, files, lower);
    var keys := CoreKeys(folder[..|folder| - 9], lower);
    if NamesWellFormed(resources) {
      var ss := CoreSectionsOf(cores, app) + SectionsOf(resources);
      forall f | f in files && !FinderMetadata(f.name) ensures Arrives(f, ss, keys, lower) {
        if f in resources {
          var i :| 0 <= i < |resources| && resources[i] == f;
          ResourceArrives(f);
          assert ss[3 + i] == ResourceSection(f);
        } else {
          var i :| 0 <= i < 3 && lower(f.name) == keys[i] && cores[i] == f.data;
          assert ss[i].payload == cores[i];
        }
      }
    }
  }

  lemma FolderName(folder: jstring, files: seq<File>, lower: jstring -> jstring)
    requires Packed(folder, files, lower).Some?
    ensures |folder| >= 9 && |CoreKeys(folder[..|folder| - 9], lower)| == 3
  {
    hide EntriesOf, SortByName, Remaining, CoreExtension, PackedSize;
  }

  lemma ResourceArrives(f: File)
    requires ToUtf8(UnitsBytes(f.name)).Some?
    ensures ResourceSection(f).payload == f.data && ToUtf8(UnitsBytes(f.name)) == Some(ResourceSection(f).name)
  {
  }

  // ----- a folder the packer accepts and the parser refuses -----

  const A_DIRECTORY := Ascii("A.hpappdir")
  const A_DESCRIPTOR := File(Ascii("A.hpapp"), [1])
  const LONE_SURROGATE := File([0xD800], [])

  lemma LoneSurrogate()
    ensures ToUtf8(UnitsBytes(LONE_SURROGATE.name)).None?
  {
    var u: jstring := [0xD800];
    assert u[1..] == [];
    assert UnitsBytes(u) == U16le(0xD800) + [] == [0x00, 0xD8];
    assert Head16([0x00, 0xD8]).None?;
  }

  lemma SmallStrings()
    ensures A_DIRECTORY[..|A_DIRECTORY| - 9] == Ascii("A") && EndsWithIgnoringCase(A_DIRECTORY, Ascii(".hpappdir"))
    ensures |A_DIRECTORY| == 10 && Ascii("A") + Ascii(".hpapp") == A_DESCRIPTOR.name && ValidAppName(Ascii("A"))
    ensures LowerUnits(A_DESCRIPTOR.name) != LowerUnits(LONE_SURROGATE.name)
  {
    assert LowerUnits(A_DIRECTORY[1..]) == Ascii(".hpappdir");
  }

  lemma SmallFileNames()
    ensures ValidFileName(A_DESCRIPTOR.name) && !FinderMetadata(A_DESCRIPTOR.name)
    ensures ValidFileName(LONE_SURROGATE.name) && !FinderMetadata(LONE_SURROGATE.name)
      && !CoreExtension(LONE_SURROGATE.name)
  {
    assert A_DESCRIPTOR.name[0] == 0x41 && Ascii(".DS_Store")[0] == 0x2E && Ascii("._")[0] == 0x2E;
    assert |Ascii(".DS_Store")| == 9;
  }

  lemma SmallEntries()
    ensures EntriesOf([A_DESCRIPTOR, LONE_SURROGATE], LowerUnits, [])
         == Some([Entry(LowerUnits(A_DESCRIPTOR.name), A_DESCRIPTOR),
                  Entry(LowerUnits(LONE_SURROGATE.name), LONE_SURROGATE)])
  {
    hide LowerUnits, FinderMetadata, ValidFileName, Ascii;
    SmallStrings();
    SmallFileNames();
    var files, first := [A_DESCRIPTOR, LONE_SURROGATE], Entry(LowerUnits(A_DESCRIPTOR.name), A_DESCRIPTOR);
    var second := Entry(LowerUnits(LONE_SURROGATE.name), LONE_SURROGATE);
    assert files[1..] == [LONE_SURROGATE] && [LONE_SURROGATE][1..] == [] && [first][1..] == [];
    assert [] + [first] == [first] && [first] + [second] == [first, second];
    assert Lookup([first], LowerUnits(LONE_SURROGATE.name)).None?;
    assert EntriesOf([], LowerUnits, [first, second]) == Some([first, second]);
    assert EntriesOf([LONE_SURROGATE], LowerUnits, [first]) == EntriesOf([], LowerUnits, [first, second]);
    assert EntriesOf(files, LowerUnits, []) == EntriesOf([LONE_SURROGATE], LowerUnits, [first]);
  }

  lemma SmallKeys()
    ensures var keys := CoreKeys(Ascii("A"), LowerUnits);
      |keys| == 3 && keys[0] == LowerUnits(A_DESCRIPTOR.name) && |keys[0]| == 7 && |keys[1]| == 11 && |keys[2]| == 11
  {
    hide LowerUnits;
    SmallStrings();
  }

  lemma SmallCores()
    ensures var keys := CoreKeys(Ascii("A"), LowerUnits);
      var es := [Entry(LowerUnits(A_DESCRIPTOR.name), A_DESCRIPTOR),
                 Entry(LowerUnits(LONE_SURROGATE.name), LONE_SURROGATE)];
      |keys| == 3 && CoreData(es, keys) == [[1], [], []] && SortByName(Remaining(es, keys)) == [LONE_SURROGATE]
  {
    hide LowerUnits, Ascii, CoreKeys;
    SmallKeys();
    SmallStrings();
    var keys := CoreKeys(Ascii("A"), LowerUnits);
    var first := Entry(LowerUnits(A_DESCRIPTOR.name), A_DESCRIPTOR);
    var second := Entry(LowerUnits(LONE_SURROGATE.name), LONE_SURROGATE);
    var es := [first, second];
    assert es[1..] == [second] && [second][1..] == [];
    assert |second.key| == 1 && second.key !in keys && first.key in keys;
    assert Lookup([second], keys[1]).None? && Lookup([second], keys[2]).None?;
    assert Lookup(es, keys[1]).None? && Lookup(es, keys[2]).None?;
    assert Remaining([second], keys) == [LONE_SURROGATE] + Remaining([], keys) == [LONE_SURROGATE];
    assert Remaining(es, keys) == [] + [LONE_SURROGATE] == [LONE_SURROGATE];
    assert [LONE_SURROGATE][1..] == []
      && SortByName([LONE_SURROGATE]) == Insert(LONE_SURROGATE, []) == [LONE_SURROGATE];
  }

  /** The failing side of the agreement: the packer accepts this folder, and no parser call accepts the bytes. */
  lemma LoneSurrogateRefused(app: bytes)
    ensures Packed(A_DIRECTORY, [A_DESCRIPTOR, LONE_SURROGATE], LowerUnits) == Some(([[1], [], []], [LONE_SURROGATE]))
    ensures ReadSections(CoreFields([[1], [], []]) + ResourceFields([LONE_SURROGATE]), app) == None
  {
    hide ReadSections, CoreFields, ResourceFields, UnitsBytes, ToUtf8, LowerUnits, Ascii, EntriesOf, CoreKeys, CoreData,
         Remaining, SortByName, CoreExtension, EndsWithIgnoringCase, ValidAppName, FinderMetadata, ValidFileName;
    SmallStrings();
    SmallFileNames();
    SmallEntries();
    SmallCores();
    LoneSurrogate();
    OneNameSize();
    var resources := [LONE_SURROGATE];
    assert resources[0] == LONE_SURROGATE && !NamesWellFormed(resources);
    FolderArrives(A_DIRECTORY, [A_DESCRIPTOR, LONE_SURROGATE], LowerUnits, app, [[1], [], []], resources);
  }

  lemma OneNameSize()
    ensures NamesSize([LONE_SURROGATE]) == 8
  {
    assert [LONE_SURROGATE][..0] == [];
  }
}

/**
 * Script names, Python records and the three edit operations on record lists
 * (webtilp/numworks_storage.js:152-192, webtilp/numworks_backend.js:302-363).
 */
module NwScripts {
  import opened Bytes
  import opened NwStorage

  // ----- normalizeScriptName, on ASCII names -----

  predicate Word(b: byte)
  {
    0x61 <= b <= 0x7A || 0x30 <= b <= 0x39 || b == 0x5F
  }

  predicate StartsIdentifier(b: byte)
  {
    0x61 <= b <= 0x7A || b == 0x5F
  }

  /** The part after the last `/` or `\`. */
  function Leaf(s: bytes): bytes
  {
    if s == [] || s[|s| - 1] == 0x2F || s[|s| - 1] == 0x5C then [] else Leaf(s[..|s| - 1]) + [s[|s| - 1]]
  }

  /** `replace(/\.py$/i, '')` */
  function StripPy(s: bytes): bytes
  {
    if |s| >= 3 && Lower(s[|s| - 3..]) == DOT_PY then s[..|s| - 3] else s
  }

  /** `replace(/[^a-z0-9_]+/g, '_')`; `inRun` says that the previous byte was replaced. */
  function ReplaceRuns(s: bytes, inRun: bool): bytes
  {
    if s == [] then []
    else if Word(s[0]) then [s[0]] + ReplaceRuns(s[1..], false)
    else (if inRun then [] else [0x5F]) + ReplaceRuns(s[1..], true)
  }

  /** `replace(/_+/g, '_')` */
  function CollapseRuns(s: bytes, inRun: bool): bytes
  {
    if s == [] then []
    else if s[0] != 0x5F then [s[0]] + CollapseRuns(s[1..], false)
    else (if inRun then [] else [0x5F]) + CollapseRuns(s[1..], true)
  }

  const SCRIPT: bytes := [0x73, 0x63, 0x72, 0x69, 0x70, 0x74]
  const MAX_BASE_NAME := 215

  function NormalizeScriptName(filename: bytes): bytes
  {
    var base := CollapseRuns(ReplaceRuns(Lower(StripPy(Leaf(filename))), false), false);
    var named := if base == [] then SCRIPT else base;
    var started := if StartsIdentifier(named[0]) then named else [0x5F] + named;
    if |started| > MAX_BASE_NAME then started[..MAX_BASE_NAME] else started
  }

  predicate AllWord(s: bytes)
  {
    forall i :: 0 <= i < |s| ==> Word(s[i])
  }

  predicate NoDouble(s: bytes)
  {
    forall i :: 0 < i < |s| ==> !(s[i - 1] == 0x5F && s[i] == 0x5F)
  }

  /** The names `normalizeScriptName` yields: its closing test never fails on ASCII input. */
  predicate NormalName(s: bytes)
  {
    1 <= |s| <= MAX_BASE_NAME && AllWord(s) && StartsIdentifier(s[0]) && NoDouble(s)
  }

  lemma {:induction false} ReplaceRunsWords(s: bytes, inRun: bool)
    ensures AllWord(ReplaceRuns(s, inRun))
  {
    if s != [] {
      ReplaceRunsWords(s[1..], !Word(s[0]));
    }
  }

  lemma {:induction false} CollapseRunsClean(s: bytes, inRun: bool)
    ensures var r := CollapseRuns(s, inRun);
      && NoDouble(r) && (AllWord(s) ==> AllWord(r)) && (inRun && r != [] ==> r[0] != 0x5F)
  {
    if s != [] {
      CollapseRunsClean(s[1..], s[0] == 0x5F);
      assert AllWord(s) ==> AllWord(s[1..]);
    }
  }

  lemma {:induction false} ReplaceRunsFixed(s: bytes)
    requires AllWord(s)
    ensures ReplaceRuns(s, false) == s
  {
    if s != [] {
      ReplaceRunsFixed(s[1..]);
    }
  }

  lemma {:induction false} CollapseRunsFixed(s: bytes, inRun: bool)
    requires NoDouble(s) && (inRun && s != [] ==> s[0] != 0x5F)
    ensures CollapseRuns(s, inRun) == s
  {
    if s != [] {
      CollapseRunsFixed(s[1..], s[0] == 0x5F);
    }
  }

  lemma {:induction false} LeafFixed(s: bytes)
    requires AllWord(s)
    ensures Leaf(s) == s
    decreases |s|
  {
    if s != [] {
      LeafFixed(s[..|s| - 1]);
    }
  }

  lemma NormalizeIsNormal(filename: bytes)
    ensures NormalName(NormalizeScriptName(filename))
  {
    hide Lower, StripPy, Leaf;
    var lowered := Lower(StripPy(Leaf(filename)));
    ReplaceRunsWords(lowered, false);
    CollapseRunsClean(ReplaceRuns(lowered, false), false);
  }

  lemma LowerFixed(s: bytes)
    requires AllWord(s)
    ensures Lower(s) == s && StripPy(s) == s
  {
    if |s| >= 3 {
      assert Lower(s[|s| - 3..])[0] == LowerByte(s[|s| - 3]);
    }
  }

  /** Normalizing is idempotent. */
  lemma NormalizeIdempotent(filename: bytes)
    ensures NormalizeScriptName(NormalizeScriptName(filename)) == NormalizeScriptName(filename)
  {
    hide NormalizeScriptName;
    NormalizeIsNormal(filename);
    NormalIsFixed(NormalizeScriptName(filename));
  }

  /** A normal name is its own normal form. */
  lemma NormalIsFixed(n: bytes)
    requires NormalName(n)
    ensures NormalizeScriptName(n) == n
  {
    hide Leaf, StripPy, Lower, ReplaceRuns, CollapseRuns;
    LeafFixed(n);
    LowerFixed(n);
    ReplaceRunsFixed(n);
    CollapseRunsFixed(n, false);
  }

  // ----- Python records -----

  function ScriptKey(name: bytes): bytes
  {
    NormalizeScriptName(name) + DOT_PY
  }

  /** `makePythonRecord`: `code` is the encoded source; a NUL in it is an exception. */
  function MakePythonRecord(name: bytes, code: bytes, autoImport: bool): Option<Record>
  {
    if !NulFree(code) then None
    else Some(Record(ScriptKey(name), [if autoImport then 1 else 0] + code + [0]))
  }

  lemma {:induction false} LastDotAt(name: bytes, dot: nat)
    requires dot < |name| && name[dot] == 0x2E && forall i :: dot < i < |name| ==> name[i] != 0x2E
    ensures LastDot(name) == dot
    decreases |name|
  {
    if dot < |name| - 1 {
      LastDotAt(name[..|name| - 1], dot);
    }
  }

  lemma LowerPy()
    ensures Lower(PY) == PY && Lower(DOT_PY) == DOT_PY
  {
  }

  lemma PythonName(base: bytes)
    requires base != []
    ensures TypeOf(base + DOT_PY) == PY && Lower(PY) == PY
  {
    hide LastDot, Lower, TypeOf;
    var n := base + DOT_PY;
    DotPyEnd(base, n);
    LastDotAt(n, |base|);
    TypeAt(n);
    LowerPy();
  }

  lemma DotPyEnd(base: bytes, n: bytes)
    requires n == base + DOT_PY
    ensures |n| == |base| + 3 && n[|base|] == 0x2E && n[|base| + 1] == 0x70 && n[|base| + 2] == 0x79
      && n[|base| + 1..] == PY
  {
  }

  lemma TypeAt(n: bytes)
    requires LastDot(n) > 0
    ensures TypeOf(n) == n[LastDot(n) + 1..]
  {
  }

  /** A record made from a script can be stored as long as its size fits the 16-bit size field, and only then. */
  lemma PythonRecordFits(name: bytes, code: bytes, autoImport: bool)
    requires NulFree(code)
    ensures var r := MakePythonRecord(name, code, autoImport).value;
      Storable(r) <==> |ScriptKey(name)| + |code| + 5 < TWO_16
    ensures 4 <= |ScriptKey(name)| <= MAX_BASE_NAME + 3
  {
    hide NormalizeScriptName;
    PythonRecordIsValid(name, code, autoImport);
    NormalizeIsNormal(name);
  }

  /** A record made from a script is valid, a script, and named by its own key. */
  lemma PythonRecordIsValid(name: bytes, code: bytes, autoImport: bool)
    ensures NulFree(ScriptKey(name)) && ScriptKey(name) != [] && Lower(ScriptKey(name)) == ScriptKey(name)
    ensures match MakePythonRecord(name, code, autoImport)
            case None => !NulFree(code)
            case Some(r) => ValidRecord(r) && IsPython(r) && AutoImport(r) == autoImport && Key(r) == ScriptKey(name)
  {
    hide NormalizeScriptName, FirstNul;
    var base := NormalizeScriptName(name);
    assert NormalName(base) by { NormalizeIsNormal(name); }
    LowerFixed(base);
    assert Lower(base + DOT_PY) == Lower(base) + DOT_PY;
    PythonName(base);
    if NulFree(code) {
      var r := MakePythonRecord(name, code, autoImport).value;
      assert r.data[1..] == code + [0];
      FirstNulUnique(r.data[1..], |code|);
    }
  }

  // ----- the operations on record lists -----

  datatype Script = Script(name: bytes, code: bytes, autoImport: Option<bool>)

  datatype Op = Upsert(scripts: seq<Script>) | Delete(names: seq<bytes>) | Rename(oldName: bytes, newName: bytes)

  /** `findIndex` by key; the length of the list when there is none. */
  function IndexOfKey(rs: seq<Record>, key: bytes): (i: nat)
    ensures i <= |rs|
    ensures i < |rs| ==> Key(rs[i]) == key
    ensures forall k :: 0 <= k < i ==> Key(rs[k]) != key
  {
    if rs == [] then 0 else if Key(rs[0]) == key then 0 else 1 + IndexOfKey(rs[1..], key)
  }

  /** The record an upsert writes: an existing script keeps its auto-import flag unless the caller sets one. */
  function UpsertRecord(rs: seq<Record>, script: Script): Option<Record>
  {
    var i := IndexOfKey(rs, ScriptKey(script.name));
    var auto := match script.autoImport
                case Some(b) => b
                case None => if i < |rs| then AutoImport(rs[i]) else true;
    MakePythonRecord(script.name, script.code, auto)
  }

  function PutRecord(rs: seq<Record>, r: Record, key: bytes): seq<Record>
  {
    var i := IndexOfKey(rs, key);
    if i < |rs| then rs[i := r] else rs + [r]
  }

  /** The upsert loop; `seen` are the keys of the scripts already taken. */
  function UpsertAll(rs: seq<Record>, scripts: seq<Script>, seen: set<bytes>): Option<seq<Record>>
    decreases |scripts|
  {
    if scripts == [] then Some(rs)
    else
      var key := ScriptKey(scripts[0].name);
      match UpsertRecord(rs, scripts[0])
      case None => None
      case Some(r) => if key in seen then None else UpsertAll(PutRecord(rs, r, key), scripts[1..], seen + {key})
  }

  /** The key a caller's name designates in deletions and as the old name of a renaming. */
  function TargetKey(name: bytes): bytes
  {
    Lower(StripPy(name)) + DOT_PY
  }

  function TargetKeys(names: seq<bytes>): set<bytes>
  {
    set i | 0 <= i < |names| :: TargetKey(names[i])
  }

  function Without(rs: seq<Record>, keys: set<bytes>): seq<Record>
  {
    if rs == [] then [] else (if Key(rs[0]) in keys then [] else [rs[0]]) + Without(rs[1..], keys)
  }

  predicate HasOtherKey(rs: seq<Record>, key: bytes, index: nat)
  {
    exists i :: 0 <= i < |rs| && i != index && Key(rs[i]) == key
  }

  function RenameRecord(rs: seq<Record>, oldName: bytes, newName: bytes): Option<seq<Record>>
  {
    var i := IndexOfKey(rs, TargetKey(oldName));
    if i == |rs| || HasOtherKey(rs, ScriptKey(newName), i) then None
    else Some(rs[i := rs[i].(name := ScriptKey(newName))])
  }

  /** The record list an operation commits; `None` when it throws before committing. */
  function Apply(rs: seq<Record>, op: Op): Option<seq<Record>>
  {
    match op
    case Upsert(scripts) => UpsertAll(rs, scripts, {})
    case Delete(names) =>
      var kept := Without(rs, TargetKeys(names));
      if |kept| == |rs| then None else Some(kept)
    case Rename(oldName, newName) => RenameRecord(rs, oldName, newName)
  }

  // ----- what every operation keeps -----

  predicate UniqueKeys(rs: seq<Record>)
  {
    forall i, j :: 0 <= i < j < |rs| ==> Key(rs[i]) != Key(rs[j])
  }

  predicate AllValid(rs: seq<Record>)
  {
    forall i :: 0 <= i < |rs| ==> ValidRecord(rs[i])
  }

  function ScriptKeys(scripts: seq<Script>): set<bytes>
  {
    set i | 0 <= i < |scripts| :: ScriptKey(scripts[i].name)
  }

  /** The keys an operation may create, change or remove. */
  function Touched(op: Op): set<bytes>
  {
    match op
    case Upsert(scripts) => ScriptKeys(scripts)
    case Delete(names) => TargetKeys(names)
    case Rename(oldName, newName) => {TargetKey(oldName), ScriptKey(newName)}
  }

  lemma {:induction false} WithoutAppend(a: seq<Record>, b: seq<Record>, keys: set<bytes>)
    ensures Without(a + b, keys) == Without(a, keys) + Without(b, keys)
  {
    hide Key, Without;
    WithoutOf(a, keys);
    if a == [] {
      assert a + b == b && [] + Without(b, keys) == Without(b, keys);
    } else {
      AppendTail(a, b);
      WithoutAppend(a[1..], b, keys);
      WithoutOf(a + b, keys);
      Assoc(if Key(a[0]) in keys then [] else [a[0]], Without(a[1..], keys), Without(b, keys));
    }
  }

  lemma WithoutOf(rs: seq<Record>, keys: set<bytes>)
    ensures rs == [] ==> Without(rs, keys) == []
    ensures rs != [] ==>
      Without(rs, keys) == (if Key(rs[0]) in keys then [] else [rs[0]]) + Without(rs[1..], keys)
  {
    hide Key;
  }

  /** Replacing or adding a record under a touched key is invisible once the touched keys are left out. */
  lemma PutIsInvisible(rs: seq<Record>, r: Record, i: nat, keys: set<bytes>)
    requires i <= |rs| && Key(r) in keys && (i < |rs| ==> Key(rs[i]) in keys)
    ensures Without(if i < |rs| then rs[i := r] else rs + [r], keys) == Without(rs, keys)
  {
    hide Key;
    assert [r][1..] == [];
    if i < |rs| {
      assert [rs[i]][1..] == [];
      WithoutAppend(rs[..i] + [rs[i]], rs[i + 1..], keys);
      WithoutAppend(rs[..i], [rs[i]], keys);
      WithoutAppend(rs[..i] + [r], rs[i + 1..], keys);
      WithoutAppend(rs[..i], [r], keys);
      assert rs == rs[..i] + [rs[i]] + rs[i + 1..];
      assert rs[i := r] == rs[..i] + [r] + rs[i + 1..];
    } else {
      WithoutAppend(rs, [r], keys);
    }
  }

  lemma PutKeeps(rs: seq<Record>, r: Record, key: bytes)
    requires Key(r) == key && ValidRecord(r)
    ensures UniqueKeys(rs) ==> UniqueKeys(PutRecord(rs, r, key))
    ensures AllValid(rs) ==> AllValid(PutRecord(rs, r, key))
    ensures forall keys :: key in keys ==> Without(PutRecord(rs, r, key), keys) == Without(rs, keys)
  {
    hide Key, ValidRecord, Without;
    forall keys | key in keys ensures Without(PutRecord(rs, r, key), keys) == Without(rs, keys) {
      PutIsInvisible(rs, r, IndexOfKey(rs, key), keys);
    }
  }

  lemma {:induction false} UpsertKeeps(rs: seq<Record>, scripts: seq<Script>, seen: set<bytes>)
    ensures match UpsertAll(rs, scripts, seen)
            case None => true
            case Some(after) =>
              && (UniqueKeys(rs) ==> UniqueKeys(after)) && (AllValid(rs) ==> AllValid(after))
              && (forall keys :: ScriptKeys(scripts) <= keys ==> Without(after, keys) == Without(rs, keys))
    decreases |scripts|
  {
    hide ScriptKey, PutRecord, Without, Key, ValidRecord, MakePythonRecord, AutoImport;
    if scripts != [] && UpsertAll(rs, scripts, seen).Some? {
      var script := scripts[0];
      var key := ScriptKey(script.name);
      var r := UpsertRecord(rs, script).value;
      MadeRecord(rs, script);
      PutKeeps(rs, r, key);
      UpsertKeeps(PutRecord(rs, r, key), scripts[1..], seen + {key});
      forall keys | ScriptKeys(scripts) <= keys ensures ScriptKeys(scripts[1..]) <= keys && key in keys {
        assert ScriptKey(scripts[0].name) in ScriptKeys(scripts);
        forall k | k in ScriptKeys(scripts[1..]) ensures k in keys {
          var i :| 0 <= i < |scripts[1..]| && k == ScriptKey(scripts[1..][i].name);
          assert scripts[i + 1] == scripts[1..][i];
          assert k in ScriptKeys(scripts);
        }
      }
    }
  }

  lemma MadeRecord(rs: seq<Record>, script: Script)
    requires UpsertRecord(rs, script).Some?
    ensures var r := UpsertRecord(rs, script).value;
      && ValidRecord(r) && Key(r) == r.name == ScriptKey(script.name) && r.data == [r.data[0]] + script.code + [0]
      && r.name != [] && NulFree(r.name)
  {
    hide ScriptKey, ValidRecord, Key, AutoImport;
    var auto := match script.autoImport
                case Some(b) => b
                case None => (var i := IndexOfKey(rs, ScriptKey(script.name));
                             if i < |rs| then AutoImport(rs[i]) else true);
    PythonRecordIsValid(script.name, script.code, auto);
    assert Key(UpsertRecord(rs, script).value) == Lower(UpsertRecord(rs, script).value.name) by {
      KeyIsLower(UpsertRecord(rs, script).value);
    }
  }

  lemma KeyIsLower(r: Record)
    ensures Key(r) == Lower(r.name)
  {
  }

  lemma {:induction false} WithoutMeans(rs: seq<Record>, keys: set<bytes>)
    ensures forall r :: r in Without(rs, keys) <==> r in rs && Key(r) !in keys
    ensures UniqueKeys(rs) ==> UniqueKeys(Without(rs, keys))
    ensures |Without(rs, keys)| <= |rs|
  {
    hide Key, UniqueKeys;
    if rs == [] {
    } else {
      var tail := rs[1..];
      WithoutMeans(tail, keys);
      assert rs == [rs[0]] + tail && [] + Without(tail, keys) == Without(tail, keys);
      if UniqueKeys(rs) {
        UniqueTail(rs, Without(tail, keys));
      }
    }
  }

  lemma UniqueTail(rs: seq<Record>, rest: seq<Record>)
    requires rs != [] && UniqueKeys(rs) && forall r :: r in rest ==> r in rs[1..]
    ensures UniqueKeys(rs[1..])
    ensures UniqueKeys(rest) ==> UniqueKeys([rs[0]] + rest)
  {
    hide Key;
    var tail := rs[1..];
    forall j | 0 <= j < |rest| ensures Key(rest[j]) != Key(rs[0]) {
      assert rest[j] in rest;
      var k :| 0 <= k < |tail| && tail[k] == rest[j];
      assert rs[k + 1] == rest[j];
    }
  }

  lemma {:induction false} WithoutTwice(rs: seq<Record>, keys: set<bytes>, more: set<bytes>)
    requires keys <= more
    ensures Without(Without(rs, keys), more) == Without(rs, more)
  {
    hide Key;
    if rs != [] {
      WithoutTwice(rs[1..], keys, more);
      assert [] + Without(rs[1..], keys) == Without(rs[1..], keys);
      assert ([rs[0]] + Without(rs[1..], keys))[1..] == Without(rs[1..], keys);
    }
  }

  lemma {:induction false} WithoutKeepsValid(rs: seq<Record>, keys: set<bytes>)
    requires AllValid(rs)
    ensures AllValid(Without(rs, keys))
  {
    hide ValidRecord, Key;
    if rs != [] {
      WithoutKeepsValid(rs[1..], keys);
    }
  }

  /**
   * Renaming keeps all records valid if and only if it does not turn a record literally named ".py", which has no type,
   * into a script over data that is not a script.
   */
  lemma RenameValidity(rs: seq<Record>, oldName: bytes, newName: bytes, after: seq<Record>)
    requires AllValid(rs) && RenameRecord(rs, oldName, newName) == Some(after)
    ensures var i := IndexOfKey(rs, TargetKey(oldName));
      && i < |rs| && (AllValid(after) <==> TargetKey(oldName) != DOT_PY || WellFormedScript(rs[i].data))
      && after[i] == Record(ScriptKey(newName), rs[i].data)
  {
    hide ScriptKey, WellFormedScript, HasOtherKey, Key, TargetKey, ValidRecord, IsPython;
    var i := IndexOfKey(rs, TargetKey(oldName));
    NewNameIsPython(newName, rs[i].data);
    RenamedIsValid(rs[i], oldName, newName);
    forall k | 0 <= k < |rs| && k != i ensures ValidRecord(after[k]) {
      assert after[k] == rs[k];
    }
  }

  lemma NewNameIsPython(newName: bytes, data: bytes)
    ensures IsPython(Record(ScriptKey(newName), data))
  {
    hide ScriptKey, LastDot, Lower, NormalizeScriptName;
    var base := NormalizeScriptName(newName);
    assert base != [] by { NormalizeIsNormal(newName); }
    PythonName(base);
    assert ScriptKey(newName) == base + DOT_PY by { ScriptKeyIs(newName); }
  }

  lemma RenamedIsValid(r: Record, oldName: bytes, newName: bytes)
    requires ValidRecord(r) && Key(r) == TargetKey(oldName) && IsPython(Record(ScriptKey(newName), r.data))
    ensures ValidRecord(Record(ScriptKey(newName), r.data)) <==>
      TargetKey(oldName) != DOT_PY || WellFormedScript(r.data)
  {
    hide ScriptKey, WellFormedScript, LastDot, Lower, StripPy, Key;
    var stem := Lower(StripPy(oldName));
    if stem != [] {
      OldNameIsPython(r, stem);
    } else {
      assert TargetKey(oldName) == DOT_PY;
    }
  }

  lemma ScriptKeyIs(name: bytes)
    ensures ScriptKey(name) == NormalizeScriptName(name) + DOT_PY
  {
  }

  lemma OldNameIsPython(r: Record, base: bytes)
    requires Key(r) == base + DOT_PY && base != []
    ensures IsPython(r) && base + DOT_PY != DOT_PY
  {
    var n := |r.name|;
    assert n == |base| + 3;
    assert Lower(r.name)[n - 1] == LowerByte(r.name[n - 1]) == 0x79;
    assert Lower(r.name)[n - 2] == LowerByte(r.name[n - 2]) == 0x70;
    assert Lower(r.name)[n - 3] == LowerByte(r.name[n - 3]) == 0x2E;
    LastDotAt(r.name, n - 3);
    assert Lower(r.name[n - 2..]) == PY;
  }

  lemma RenameKeeps(rs: seq<Record>, oldName: bytes, newName: bytes, after: seq<Record>)
    requires RenameRecord(rs, oldName, newName) == Some(after)
    ensures UniqueKeys(rs) ==> UniqueKeys(after)
    ensures forall keys :: Touched(Rename(oldName, newName)) <= keys ==> Without(after, keys) == Without(rs, keys)
  {
    hide ScriptKey, TargetKey, Without, Key;
    var i := IndexOfKey(rs, TargetKey(oldName));
    var r := rs[i].(name := ScriptKey(newName));
    KeyIsLower(r);
    PythonRecordIsValid(newName, [], true);
    if UniqueKeys(rs) {
      forall a, b | 0 <= a < b < |after| ensures Key(after[a]) != Key(after[b]) {
        assert after[a] == (if a == i then r else rs[a]) && after[b] == (if b == i then r else rs[b]);
      }
    }
    forall keys | Touched(Rename(oldName, newName)) <= keys ensures Without(after, keys) == Without(rs, keys) {
      assert TargetKey(oldName) in Touched(Rename(oldName, newName))
        && ScriptKey(newName) in Touched(Rename(oldName, newName));
      PutIsInvisible(rs, r, i, keys);
    }
  }

  /** Every operation keeps key uniqueness, and leaves every record it does not touch byte for byte and in order. */
  lemma ApplyKeeps(rs: seq<Record>, op: Op, after: seq<Record>)
    requires Apply(rs, op) == Some(after)
    ensures UniqueKeys(rs) ==> UniqueKeys(after)
    ensures forall keys :: Touched(op) <= keys ==> Without(after, keys) == Without(rs, keys)
    ensures AllValid(rs) && !op.Rename? ==> AllValid(after)
  {
    hide Without, ValidRecord, Key, TargetKey, ScriptKey, UniqueKeys, RenameRecord, UpsertAll;
    match op {
      case Upsert(scripts) => UpsertKeeps(rs, scripts, {});
      case Delete(names) =>
        WithoutMeans(rs, TargetKeys(names));
        forall keys | Touched(op) <= keys ensures Without(after, keys) == Without(rs, keys) {
          WithoutTwice(rs, TargetKeys(names), keys);
        }
        if AllValid(rs) {
          WithoutKeepsValid(rs, TargetKeys(names));
        }
      case Rename(oldName, newName) => RenameKeeps(rs, oldName, newName, after);
    }
  }

  /** A record whose key an operation does not touch is still there afterwards. */
  lemma UntouchedStays(rs: seq<Record>, op: Op, after: seq<Record>, r: Record)
    requires Apply(rs, op) == Some(after) && r in rs && Key(r) !in Touched(op)
    ensures r in after
  {
    hide Apply, Touched, Key, Without, UniqueKeys;
    ApplyKeeps(rs, op, after);
    WithoutMeans(rs, Touched(op));
    WithoutMeans(after, Touched(op));
    assert Without(after, Touched(op)) == Without(rs, Touched(op));
  }

  /** The keys an operation touches all end in ".py". */
  lemma TouchedIsNamed(op: Op)
    ensures [] !in Touched(op)
  {
    hide NormalizeScriptName, Lower, StripPy;
  }

  // ----- what each operation does to the records it touches -----

  /** The record holds the script: its normalized name, its encoded source and the flag the caller asked for. */
  predicate Holds(r: Record, script: Script)
  {
    && r.name == ScriptKey(script.name) && |r.data| >= 2 && r.data[1..] == script.code + [0]
    && (script.autoImport.Some? ==> AutoImport(r) == script.autoImport.value)
  }

  lemma {:induction false} UpsertLands(rs: seq<Record>, scripts: seq<Script>, seen: set<bytes>, k: nat)
    requires UpsertAll(rs, scripts, seen).Some? && k < |scripts|
    ensures exists r :: r in UpsertAll(rs, scripts, seen).value && Holds(r, scripts[k])
    decreases |scripts|
  {
    hide ScriptKey, Key, Holds, PutRecord, UpsertRecord;
    var key := ScriptKey(scripts[0].name);
    var r := UpsertRecord(rs, scripts[0]).value;
    var next := PutRecord(rs, r, key);
    if k > 0 {
      UpsertLands(next, scripts[1..], seen + {key}, k - 1);
    } else {
      MadeRecord(rs, scripts[0]);
      MadeFlag(rs, scripts[0]);
      PutIsThere(rs, r, key);
      SeenIsKept(next, scripts[1..], seen + {key}, r);
    }
  }

  lemma PutIsThere(rs: seq<Record>, r: Record, key: bytes)
    ensures r in PutRecord(rs, r, key)
  {
    hide Key;
    var i := IndexOfKey(rs, key);
    assert PutRecord(rs, r, key)[i] == r;
  }

  lemma MadeFlag(rs: seq<Record>, script: Script)
    requires UpsertRecord(rs, script).Some?
    ensures Holds(UpsertRecord(rs, script).value, script)
  {
    hide ScriptKey, AutoImport;
    MadeRecord(rs, script);
    var data := UpsertRecord(rs, script).value.data;
    assert data[1..] == script.code + [0];
    if script.autoImport.Some? {
      PythonRecordIsValid(script.name, script.code, script.autoImport.value);
    }
  }

  /** A record whose key is already taken in this batch survives the rest of the batch. */
  lemma {:induction false} SeenIsKept(rs: seq<Record>, scripts: seq<Script>, seen: set<bytes>, r: Record)
    requires UpsertAll(rs, scripts, seen).Some? && r in rs && Key(r) in seen
    ensures r in UpsertAll(rs, scripts, seen).value
    decreases |scripts|
  {
    hide ScriptKey, Key;
    if scripts != [] {
      var key := ScriptKey(scripts[0].name);
      var next := PutRecord(rs, UpsertRecord(rs, scripts[0]).value, key);
      var i :| 0 <= i < |rs| && rs[i] == r;
      assert next[i] == r;
      SeenIsKept(next, scripts[1..], seen + {key}, r);
    }
  }

  /** A deletion removes exactly the records it names, and there is at least one. */
  lemma DeleteMeans(rs: seq<Record>, names: seq<bytes>, after: seq<Record>)
    requires Apply(rs, Delete(names)) == Some(after)
    ensures forall r :: r in after <==> r in rs && Key(r) !in TargetKeys(names)
    ensures exists r :: r in rs && Key(r) in TargetKeys(names)
  {
    hide Key, TargetKeys;
    var keys := TargetKeys(names);
    WithoutMeans(rs, keys);
    if forall r :: r in rs ==> Key(r) !in keys {
      NothingRemoved(rs, keys);
    }
  }

  lemma {:induction false} NothingRemoved(rs: seq<Record>, keys: set<bytes>)
    requires forall r :: r in rs ==> Key(r) !in keys
    ensures Without(rs, keys) == rs
  {
    hide Key;
    if rs != [] {
      assert rs[0] in rs && forall r :: r in rs[1..] ==> r in rs;
      NothingRemoved(rs[1..], keys);
    }
  }
}

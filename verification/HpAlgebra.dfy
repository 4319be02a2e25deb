/** Renaming and deleting resources, and the laws the edits obey (webtilp/hp_prime_app.cpp:240-251, 576-640). */
module HpAlgebra {
  import opened Bytes
  import opened Utf
  import opened HpContainer
  import opened HpEdit

  predicate HasKey(parts: seq<Part>, key: bytes, ignored: nat)
  {
    exists i :: 0 <= i < |parts| && i != ignored && Lower(parts[i].name) == key
  }

  /** A plan that keeps every part but one. */
  function OnePlan(n: nat, index: nat, choice: Choice): (plan: seq<Choice>)
    ensures |plan| == n
    ensures forall i :: 0 <= i < n ==> plan[i] == if i == index then choice else Keep
  {
    seq(n, i => if i == index then choice else Keep)
  }

  predicate IsResource(parts: seq<Part>, index: nat)
  {
    index < |parts| && parts[index].kind.Resource?
  }

  /** What `rename_resource` returns. */
  function Renamed(data: bytes, parts: seq<Part>, index: nat, newName: bytes): Option<bytes>
  {
    if !ValidSource(data, parts) || !IsResource(parts, index) || !ValidName(newName)
       || HasKey(parts, Lower(newName), index) || |data| > MAX_SIZE - |ToUtf16(newName).value| - 2 then None
    else
      var part := parts[index];
      Assemble(Some([]), data, parts,
               OnePlan(|parts|, index, PutResource(newName, data[part.dataOffset..part.dataOffset + part.dataSize])))
  }

  /** What `delete_resource` returns. */
  function Deleted(data: bytes, parts: seq<Part>, index: nat): Option<bytes>
  {
    if !ValidSource(data, parts) || !IsResource(parts, index) then None
    else Assemble(Some([]), data, parts, OnePlan(|parts|, index, Drop))
  }

  method HasDuplicateName(parts: seq<Part>, name: bytes, ignoredIndex: nat) returns (r: bool)
    ensures r == HasKey(parts, Lower(name), ignoredIndex)
  {
    hide Lower;
    var key := Lower(name);
    for i := 0 to |parts|
      invariant !HasKey(parts[..i], key, ignoredIndex)
    {
      if i != ignoredIndex && Lower(parts[i].name) == key {
        return true;
      }
      assert forall j :: 0 <= j < i ==> parts[..i + 1][j] == parts[..i][j];
    }
    assert parts[..|parts|] == parts;
    r := false;
  }

  method RenameResource(data: bytes, parts: seq<Part>, index: nat, newName: bytes) returns (r: Option<bytes>)
    requires |data| <= MAX_SIZE
    ensures r == Renamed(data, parts, index, newName)
  {
    hide ToUtf16, ValidName, HasKey, AppendBytes, AppendNamed, AppendChoice, Assemble;
    var valid := ValidateSource(data, parts);
    if !valid || index >= |parts| || parts[index].kind != Resource {
      return None;
    }
    var encodedName := ValidResourceName(newName);
    if encodedName.None? {
      NotEncodable(newName);
      return None;
    }
    var duplicate := HasDuplicateName(parts, newName, index);
    if duplicate || |data| > MAX_SIZE - |encodedName.value| - 2 {
      return None;
    }
    var own := parts[index];
    ghost var plan := OnePlan(|parts|, index,
        PutResource(newName, data[own.dataOffset..own.dataOffset + own.dataSize]));
    var rebuilt: Option<bytes> := Some([]);
    AssembleNothing(rebuilt, data);
    for i := 0 to |parts|
      invariant rebuilt == Assemble(Some([]), data, parts[..i], plan[..i]) && rebuilt.Some?
    {
      var part := parts[i];
      AssembleSplit(Some([]), data, parts, plan, i);
      ChoiceStep(rebuilt, data, part, plan[i]);
      if i == index {
        rebuilt := AppendNamed(rebuilt, encodedName.value, data[part.dataOffset..part.dataOffset + part.dataSize]);
      } else {
        rebuilt := AppendBytes(rebuilt, data[part.sectionOffset..part.sectionOffset + part.sectionSize]);
      }
      if rebuilt.None? {
        AssembleStuck(Some([]), data, parts, plan, i + 1);
        return None;
      }
    }
    assert parts[..|parts|] == parts && plan[..|plan|] == plan;
    r := rebuilt;
  }

  method DeleteResource(data: bytes, parts: seq<Part>, index: nat) returns (r: Option<bytes>)
    requires |data| <= MAX_SIZE
    ensures r == Deleted(data, parts, index)
  {
    hide AppendBytes, AppendNamed, AppendChoice, Assemble;
    var valid := ValidateSource(data, parts);
    if !valid || index >= |parts| || parts[index].kind != Resource {
      return None;
    }
    ghost var plan := OnePlan(|parts|, index, Drop);
    var rebuilt: Option<bytes> := Some([]);
    AssembleNothing(rebuilt, data);
    for i := 0 to |parts|
      invariant rebuilt == Assemble(Some([]), data, parts[..i], plan[..i]) && rebuilt.Some?
    {
      AssembleSplit(Some([]), data, parts, plan, i);
      ChoiceStep(rebuilt, data, parts[i], plan[i]);
      if i != index {
        var part := parts[i];
        rebuilt := AppendBytes(rebuilt, data[part.sectionOffset..part.sectionOffset + part.sectionSize]);
        if rebuilt.None? {
          AssembleStuck(Some([]), data, parts, plan, i + 1);
          return None;
        }
      }
    }
    assert parts[..|parts|] == parts && plan[..|plan|] == plan;
    r := rebuilt;
  }

  lemma ChoiceStep(output: Option<bytes>, data: bytes, part: Part, choice: Choice)
    requires InSource(data, part)
    ensures part.sectionOffset + part.sectionSize <= |data| && part.dataOffset + part.dataSize <= |data|
    ensures choice.Keep? ==>
      AppendChoice(output, data, part, choice)
          == AppendBytes(output, data[part.sectionOffset..part.sectionOffset + part.sectionSize])
    ensures choice.Drop? ==> AppendChoice(output, data, part, choice) == output
    ensures choice.PutResource? && ToUtf16(choice.name).Some? ==>
      AppendChoice(output, data, part, choice) == AppendNamed(output, ToUtf16(choice.name).value, choice.payload)
  {
    hide AppendBytes, AppendNamed, ToUtf16;
  }

  // ----- what they mean on part lists -----

  lemma {:induction false} TargetsAt(ss: seq<Section>, plan: seq<Choice>, index: nat)
    requires |plan| == |ss|
    requires forall i :: 0 <= i < |ss| && i != index ==> plan[i].Keep?
    ensures Targets(ss, plan) ==
      if index < |ss| then ss[..index] + Target(ss[index], plan[index]) + ss[index + 1..] else ss
    decreases |ss|
  {
    hide Target;
    if ss != [] {
      assert plan[0].Keep? ==> Target(ss[0], plan[0]) == [ss[0]] by { TargetKeep(ss[0]); }
      if index == 0 {
        TargetsAt(ss[1..], plan[1..], |ss|);
      } else {
        TargetsAt(ss[1..], plan[1..], index - 1);
        assert [ss[0]] + ss[1..] == ss;
        if index < |ss| {
          assert ss[..index] == [ss[0]] + ss[1..][..index - 1];
        }
      }
    }
  }

  lemma TargetKeep(s: Section)
    ensures Target(s, Keep) == [s]
  {
  }

  predicate Clashes(ss: seq<Section>, name: bytes, ignored: nat)
  {
    exists i :: 0 <= i < |ss| && i != ignored && Lower(ss[i].name) == Lower(name)
  }

  predicate CanRename(data: bytes, ss: seq<Section>, index: nat, newName: bytes)
  {
    && index < |ss| && ss[index].kind.Resource? && ValidName(newName) && !Clashes(ss, newName, index)
    && |data| + |ToUtf16(newName).value| + 2 <= MAX_SIZE
  }

  function WithName(ss: seq<Section>, index: nat, name: bytes): seq<Section>
    requires index < |ss|
  {
    ss[index := ss[index].(name := name)]
  }

  function Without(ss: seq<Section>, index: nat): seq<Section>
    requires index < |ss|
  {
    ss[..index] + ss[index + 1..]
  }

  lemma ParsedSource(data: bytes, app: bytes, ss: seq<Section>)
    requires ReadSections(data, app) == Some(ss)
    ensures WellFormed(ss, app) && data == Layout(ss) && data == [] + Layout(ss)
    ensures var parts := PartsOf(ss, 0);
      && ValidSource(data, parts)
      && (forall i :: 0 <= i < |ss| ==> parts[i].kind == ss[i].kind && parts[i].name == ss[i].name)
  {
    hide SectionBytes, WellFormedSection, PartAt, CoreNames, ReadSections, ResourceSections, Suits, Assemble, Targets,
         Layout, PartsOf, InSource;
    ContainerIff(data, app, ss);
    PartsLabels(ss, 0);
    var parts, plan := PartsOf(ss, 0), OnePlan(|ss|, |ss|, Keep);
    KeepsSuit(ss, plan);
    AssembleMeans([], data, [], ss, plan);
  }

  lemma PayloadOf(ss: seq<Section>, i: nat)
    requires AllWellFormed(ss) && i < |ss|
    ensures var p, data := PartsOf(ss, 0)[i], Layout(ss);
      p.dataOffset + p.dataSize <= |data| && data[p.dataOffset..p.dataOffset + p.dataSize] == ss[i].payload
  {
    hide WellFormedSection;
    PartsPayload([], ss, [], i);
    assert [] + Layout(ss) + [] == Layout(ss);
  }

  lemma KeepsSuit(ss: seq<Section>, plan: seq<Choice>)
    requires |plan| == |ss| && forall i :: 0 <= i < |plan| ==> plan[i].Keep? || plan[i].Drop?
    ensures forall i :: 0 <= i < |ss| ==> Suits(ss[i], plan[i])
  {
  }

  /**
   * Renaming changes one name and nothing else, and is refused exactly when the name is bad, taken or too long to fit.
   */
  lemma RenameMeans(data: bytes, app: bytes, ss: seq<Section>, index: nat, newName: bytes)
    requires ReadSections(data, app) == Some(ss) && |data| <= MAX_SIZE
    ensures AllWellFormed(ss)
    ensures var r := Renamed(data, PartsOf(ss, 0), index, newName);
      && (r.Some? <==> CanRename(data, ss, index, newName))
      && (r.Some? ==>
            var renamed := WithName(ss, index, newName);
            && WellFormed(renamed, app) && r.value == Layout(renamed) && ReadSections(r.value, app) == Some(renamed)
            && |r.value| == |data| - |ToUtf16(ss[index].name).value| + |ToUtf16(newName).value|)
  {
    hide SectionBytes, WellFormedSection, PartAt, CoreNames, ReadSections, Assemble, Layout, PartsOf, ToUtf16,
         ValidName, Lower, Targets;
    ParsedSource(data, app, ss);
    var parts := PartsOf(ss, 0);
    SameClashes(ss, parts, newName, index);
    if CanRename(data, ss, index, newName) {
      var renamed := WithName(ss, index, newName);
      PayloadOf(ss, index);
      RenamingAssembles(data, ss, index, newName);
      RenamedWellFormed(ss, app, index, newName);
      ContainerIff(Layout(renamed), app, renamed);
    }
  }

  lemma SameClashes(ss: seq<Section>, parts: seq<Part>, newName: bytes, index: nat)
    requires |parts| == |ss| && forall i :: 0 <= i < |ss| ==> parts[i].name == ss[i].name
    ensures HasKey(parts, Lower(newName), index) <==> Clashes(ss, newName, index)
  {
    hide Lower;
    if HasKey(parts, Lower(newName), index) {
      var i :| 0 <= i < |parts| && i != index && Lower(parts[i].name) == Lower(newName);
      assert Lower(ss[i].name) == Lower(newName);
    }
    if Clashes(ss, newName, index) {
      var i :| 0 <= i < |ss| && i != index && Lower(ss[i].name) == Lower(newName);
      assert Lower(parts[i].name) == Lower(newName);
    }
  }

  lemma {:induction false} RenamingTargets(ss: seq<Section>, index: nat, newName: bytes)
    requires index < |ss| && ss[index].kind.Resource? && ValidName(newName)
    ensures var plan := OnePlan(|ss|, index, PutResource(newName, ss[index].payload));
      && Targets(ss, plan) == WithName(ss, index, newName)
      && forall i :: 0 <= i < |ss| ==> Suits(ss[i], plan[i])
  {
    hide ValidName, Targets;
    TargetsAt(ss, OnePlan(|ss|, index, PutResource(newName, ss[index].payload)), index);
  }

  lemma AssembleWhole(data: bytes, ss: seq<Section>, plan: seq<Choice>)
    requires AllWellFormed(ss) && data == Layout(ss) && |plan| == |ss|
    requires forall i :: 0 <= i < |ss| ==> Suits(ss[i], plan[i])
    requires AllWellFormed(Targets(ss, plan)) && |Layout(Targets(ss, plan))| <= MAX_SIZE
    ensures forall i :: 0 <= i < |ss| ==> InSource(data, PartsOf(ss, 0)[i])
    ensures Assemble(Some([]), data, PartsOf(ss, 0), plan) == Some(Layout(Targets(ss, plan)))
  {
    hide Layout, Targets, PartsOf, Assemble, Suits, InSource, WellFormedSection;
    assert data == [] + Layout(ss) && [] + Layout(Targets(ss, plan)) == Layout(Targets(ss, plan));
    AssembleMeans([], data, [], ss, plan);
  }

  lemma RenamingAssembles(data: bytes, ss: seq<Section>, index: nat, newName: bytes)
    requires AllWellFormed(ss) && data == Layout(ss) && CanRename(data, ss, index, newName)
    ensures forall i :: 0 <= i < |ss| ==> InSource(data, PartsOf(ss, 0)[i])
    ensures var renamed := WithName(ss, index, newName);
      var plan := OnePlan(|ss|, index, PutResource(newName, ss[index].payload));
      && AllWellFormed(renamed) && Assemble(Some([]), data, PartsOf(ss, 0), plan) == Some(Layout(renamed))
      && |Layout(renamed)| == |data| - |ToUtf16(ss[index].name).value| + |ToUtf16(newName).value|
  {
    hide AllWellFormed, Assemble, Layout, PartsOf, ToUtf16, ValidName, Lower, Targets, Suits, WithName, InSource;
    RenamingTargets(ss, index, newName);
    RenamedSize(ss, index, newName);
    AssembleWhole(data, ss, OnePlan(|ss|, index, PutResource(newName, ss[index].payload)));
  }

  lemma RenamedSize(ss: seq<Section>, index: nat, newName: bytes)
    requires AllWellFormed(ss) && index < |ss| && ss[index].kind.Resource? && ValidName(newName)
    requires |Layout(ss)| + |ToUtf16(newName).value| + 2 <= MAX_SIZE
    ensures AllWellFormed(WithName(ss, index, newName)) && ToUtf16(ss[index].name).Some?
    ensures |Layout(WithName(ss, index, newName))|
         == |Layout(ss)| - |ToUtf16(ss[index].name).value| + |ToUtf16(newName).value|
  {
    hide SectionBytes, WellFormedSection, ToUtf16, ValidName;
    var s, t := ss[index], ss[index].(name := newName);
    LayoutAround(ss, index);
    assert WellFormedSection(ss[index]);
    ResourceName(s);
    NewResource(s);
    NewResource(t);
    var renamed := WithName(ss, index, newName);
    assert WellFormedSection(t) && AllWellFormed(renamed);
    LayoutAround(renamed, index);
    assert renamed[..index] == ss[..index] && renamed[index + 1..] == ss[index + 1..];
  }

  lemma ResourceName(s: Section)
    requires WellFormedSection(s) && s.kind.Resource?
    ensures ValidName(s.name) && ToUtf16(s.name).Some?
  {
  }

  lemma LayoutAround(ss: seq<Section>, index: nat)
    requires AllWellFormed(ss) && index < |ss|
    ensures Layout(ss) == Layout(ss[..index]) + SectionBytes(ss[index]) + Layout(ss[index + 1..])
  {
    hide SectionBytes, WellFormedSection;
    assert ss == ss[..index] + ss[index..];
    LayoutAppend(ss[..index], ss[index..]);
    ConsLayout(ss[index], ss[index + 1..]);
    assert ss[index..] == [ss[index]] + ss[index + 1..];
  }

  lemma RenamedWellFormed(ss: seq<Section>, app: bytes, index: nat, newName: bytes)
    requires WellFormed(ss, app) && index < |ss| && ss[index].kind.Resource?
    requires AllWellFormed(WithName(ss, index, newName)) && !Clashes(ss, newName, index)
    ensures WellFormed(WithName(ss, index, newName), app)
  {
    hide WellFormedSection, CoreNames, Lower;
    var t := WithName(ss, index, newName);
    forall k | 0 <= k < 3 ensures t[k - 0].kind == CORE_KINDS[k] && t[k - 0].name == CoreNames(app)[k] {
      assert ss[k - 0].kind == CORE_KINDS[k] && ss[k - 0].name == CoreNames(app)[k];
    }
    forall i | 0 <= i < |t[3..]| ensures t[3..][i].kind.Resource? {
      assert ss[3..][i] == ss[i + 3];
    }
    forall i, j | 0 <= i < j < |t[3..]| ensures Lower(t[3..][i].name) != Lower(t[3..][j].name) {
      assert ss[3..][i] == ss[i + 3] && ss[3..][j] == ss[j + 3];
    }
  }

  /** Deleting removes one part and nothing else, and is refused exactly for an index that is not a resource. */
  lemma DeleteMeans(data: bytes, app: bytes, ss: seq<Section>, index: nat)
    requires ReadSections(data, app) == Some(ss) && |data| <= MAX_SIZE
    ensures AllWellFormed(ss)
    ensures var r := Deleted(data, PartsOf(ss, 0), index);
      && (r.Some? <==> index < |ss| && ss[index].kind.Resource?)
      && (r.Some? ==>
            var rest := Without(ss, index);
            WellFormed(rest, app) && r.value == Layout(rest) && ReadSections(r.value, app) == Some(rest))
  {
    hide WellFormed, AllWellFormed, InSource, ReadSections, Assemble, Layout, PartsOf, ValidSource, OnePlan, Without;
    ParsedSource(data, app, ss);
    AllOf(ss, app);
    if index < |ss| && ss[index].kind.Resource? {
      var rest := Without(ss, index);
      WithoutWellFormed(ss, app, index);
      AllOf(rest, app);
      DropAssembles(data, ss, index);
      ContainerIff(Layout(rest), app, rest);
    }
  }

  lemma AllOf(ss: seq<Section>, app: bytes)
    requires WellFormed(ss, app)
    ensures AllWellFormed(ss)
  {
    hide AllWellFormed, ResourceSections, CoreNames;
  }

  /** Rebuilding with one part dropped. */
  lemma DropAssembles(data: bytes, ss: seq<Section>, index: nat)
    requires AllWellFormed(ss) && data == [] + Layout(ss) && |data| <= MAX_SIZE && index < |ss|
      && AllWellFormed(Without(ss, index))
    requires ValidSource(data, PartsOf(ss, 0))
    ensures Assemble(Some([]), data, PartsOf(ss, 0), OnePlan(|ss|, index, Drop)) == Some(Layout(Without(ss, index)))
  {
    hide SectionBytes, WellFormedSection, PartAt, Assemble, Layout, PartsOf, Targets, Suits, InSource, AllWellFormed;
    var rest, plan := Without(ss, index), OnePlan(|ss|, index, Drop);
    TargetsAt(ss, plan, index);
    DropIsNothing(ss, index);
    KeepsSuit(ss, plan);
    AssembleMeans([], data, [], ss, plan);
    WithoutIsShorter(ss, index);
    assert [] + Layout(rest) == Layout(rest);
  }

  lemma DropIsNothing(ss: seq<Section>, index: nat)
    requires index < |ss|
    ensures ss[..index] + Target(ss[index], Drop) + ss[index + 1..] == Without(ss, index)
  {
    assert Target(ss[index], Drop) == [];
    assert ss[..index] + [] == ss[..index];
  }

  lemma WithoutIsShorter(ss: seq<Section>, index: nat)
    requires AllWellFormed(ss) && index < |ss| && AllWellFormed(Without(ss, index))
    ensures |Layout(Without(ss, index))| <= |Layout(ss)|
  {
    hide SectionBytes, WellFormedSection, Layout;
    LayoutAppend(ss[..index], ss[index + 1..]);
    LayoutAround(ss, index);
  }

  lemma WithoutWellFormed(ss: seq<Section>, app: bytes, index: nat)
    requires WellFormed(ss, app) && index < |ss| && ss[index].kind.Resource?
    ensures WellFormed(Without(ss, index), app)
  {
    hide WellFormedSection, CoreNames, Lower;
    if index < 3 {
      CoreIsNotResource(ss, app, index);
    }
    var t := Without(ss, index);
    forall k | 0 <= k < 3 ensures t[k - 0].kind == CORE_KINDS[k] && t[k - 0].name == CoreNames(app)[k] {
      assert ss[k - 0].kind == CORE_KINDS[k] && t[k - 0] == ss[k - 0];
    }
    forall i | 0 <= i < |t[3..]| ensures t[3..][i].kind.Resource? {
      assert t[3..][i] == ss[3..][if i + 3 < index then i else i + 1];
    }
    forall i, j | 0 <= i < j < |t[3..]| ensures Lower(t[3..][i].name) != Lower(t[3..][j].name) {
      assert t[3..][i] == ss[3..][if i + 3 < index then i else i + 1];
      assert t[3..][j] == ss[3..][if j + 3 < index then j else j + 1];
    }
  }

  // ----- the edit algebra -----

  /** Adding a resource under a fresh name and deleting it again restores the original bytes. */
  lemma DeleteUndoesAdd(data: bytes, app: bytes, ss: seq<Section>, update: Update, added: bytes)
    requires ReadSections(data, app) == Some(ss) && |data| <= MAX_SIZE
    requires !Clashes(ss, update.name, |ss|)
    requires AllWellFormed(ss) && Replaced(data, PartsOf(ss, 0), [update], false) == Some(added) && |added| <= MAX_SIZE
    ensures var grown := ss + [Section(Resource, update.name, update.data)];
      && ReadSections(added, app) == Some(grown) && AllWellFormed(grown)
      && Deleted(added, PartsOf(grown, 0), |ss|) == Some(data)
  {
    hide SectionBytes, WellFormedSection, ReadSections, Replaced, Deleted, CoreNames, Layout, PartsOf, Lower,
         AcceptsUpdates;
    var updates, s := [update], Section(Resource, update.name, update.data);
    ReplaceMeans(data, app, ss, updates, false);
    forall k | 0 <= k < |ss| ensures MatchFor(ss[k].kind, ss[k].name, updates, false) == 1 {
      NoMatch(ss, update, k);
    }
    assert EditedSections(ss, updates, false) == ss;
    assert NewSections(ss, updates, false, 1) == [];
    assert NewSections(ss, updates, false, 0) == [s];
    var grown := ss + [s];
    assert Edited(ss, updates, false) == grown;
    DeleteMeans(added, app, grown, |ss|);
    assert Without(grown, |ss|) == ss;
    ContainerIff(data, app, ss);
  }

  lemma NoMatch(ss: seq<Section>, update: Update, k: nat)
    requires k < |ss| && !Clashes(ss, update.name, |ss|)
    ensures MatchFor(ss[k].kind, ss[k].name, [update], false) == 1
  {
    hide Lower;
    assert Lower(ss[k].name) != Lower(update.name);
  }

  /** Renaming back restores the original bytes if and only if the old name is not the name of a core part. */
  lemma RenameBack(data: bytes, app: bytes, ss: seq<Section>, index: nat, newName: bytes, renamed: bytes)
    requires ReadSections(data, app) == Some(ss) && |data| <= MAX_SIZE
    requires AllWellFormed(ss) && Renamed(data, PartsOf(ss, 0), index, newName) == Some(renamed)
    ensures index < |ss| && AllWellFormed(WithName(ss, index, newName))
    ensures var back := Renamed(renamed, PartsOf(WithName(ss, index, newName), 0), index, ss[index].name);
      && (back == Some(data) <==> forall k :: 0 <= k < 3 ==> Lower(ss[index].name) != Lower(CoreNames(app)[k]))
      && (back.Some? ==> back == Some(data))
  {
    hide SectionBytes, WellFormedSection, ReadSections, Renamed, CoreNames, Layout, PartsOf, Lower, ToUtf16, ValidName;
    RenameMeans(data, app, ss, index, newName);
    ContainerIff(data, app, ss);
    var t, oldName := WithName(ss, index, newName), ss[index].name;
    assert WellFormedSection(ss[index]);
    ResourceName(ss[index]);
    RenameMeans(renamed, app, t, index, oldName);
    assert WithName(t, index, oldName) == ss;
    ClashOnlyWithCores(ss, app, index, newName);
  }

  lemma CoreIsNotResource(ss: seq<Section>, app: bytes, k: nat)
    requires WellFormed(ss, app) && k < 3
    ensures !ss[k].kind.Resource?
  {
    assert ss[k - 0].kind == CORE_KINDS[k];
  }

  lemma ResourcesDiffer(ss: seq<Section>, app: bytes, i: nat, j: nat)
    requires WellFormed(ss, app) && 3 <= i < |ss| && 3 <= j < |ss| && i != j
    ensures Lower(ss[i].name) != Lower(ss[j].name)
  {
    hide Lower;
    assert ss[3..][i - 3] == ss[i] && ss[3..][j - 3] == ss[j];
  }

  lemma ClashOnlyWithCores(ss: seq<Section>, app: bytes, index: nat, newName: bytes)
    requires WellFormed(ss, app) && index < |ss| && ss[index].kind.Resource?
    ensures Clashes(WithName(ss, index, newName), ss[index].name, index)
       <==> exists k :: 0 <= k < 3 && Lower(ss[index].name) == Lower(CoreNames(app)[k])
  {
    hide Lower, WellFormedSection, CoreNames;
    var t, oldName := WithName(ss, index, newName), ss[index].name;
    assert forall k :: 0 <= k < 3 ==> ss[k - 0].kind == CORE_KINDS[k] && ss[k - 0].name == CoreNames(app)[k];
    if index < 3 {
      CoreIsNotResource(ss, app, index);
    }
    if Clashes(t, oldName, index) {
      var i :| 0 <= i < |t| && i != index && Lower(t[i].name) == Lower(oldName);
      if i >= 3 {
        ResourcesDiffer(ss, app, i, index);
      } else {
        assert ss[i - 0].name == CoreNames(app)[i];
      }
    }
    if k :| 0 <= k < 3 && Lower(oldName) == Lower(CoreNames(app)[k]) {
      assert ss[k - 0].name == CoreNames(app)[k];
      assert Lower(t[k].name) == Lower(oldName);
    }
  }

  // ----- a renaming with no way back -----

  const APP_A: bytes := [0x41]
  const NAME_B: bytes := [0x42]

  /** A resource under the name of the application's own descriptor, "A.hpapp". */
  function Namesake(): Section
  {
    Section(Resource, APP_A + HPAPP, [])
  }

  lemma SmallNames()
    ensures ValidName(APP_A + HPAPP) && ToUtf16(APP_A + HPAPP).Some? && |ToUtf16(APP_A + HPAPP).value| == 14
    ensures ValidName(NAME_B) && ToUtf16(NAME_B).Some? && |ToUtf16(NAME_B).value| == 2
    ensures CoreNames(APP_A)[0] == APP_A + HPAPP
  {
    hide ToUtf16;
    AsciiIsWellFormed(APP_A + HPAPP);
    AsciiIsWellFormed(NAME_B);
  }

  lemma NameBIsFree()
    ensures !Clashes(CoreList(APP_A, []) + [Namesake()], NAME_B, 3)
  {
    var ss := CoreList(APP_A, []) + [Namesake()];
    assert |ss| == 4;
    assert ss[0].name == APP_A + HPAPP && |ss[1].name| == 11 && |ss[2].name| == 11;
    forall i | 0 <= i < |ss| && i != 3 ensures Lower(ss[i].name) != Lower(NAME_B) {
      assert |ss[i].name| > 1;
    }
  }

  lemma NamesakeSize()
    ensures AllWellFormed(CoreList(APP_A, []) + [Namesake()]) && |Layout(CoreList(APP_A, []) + [Namesake()])| == 32
    ensures WellFormed(CoreList(APP_A, []) + [Namesake()], APP_A)
  {
    hide ToUtf16, ValidName, Layout, CoreNames, AllWellFormed;
    SmallNames();
    var s := Namesake();
    assert |ResourceBody(s.name, s.payload)| == 16;
    OneResourceIsWellFormed(APP_A, s);
    AllOf(CoreList(APP_A, []) + [s], APP_A);
    NamesakeLayout(s);
  }

  lemma NamesakeLayout(s: Section)
    requires WellFormedSection(s) && |SectionBytes(s)| == 20
    ensures AllWellFormed(CoreList(APP_A, []) + [s]) && |Layout(CoreList(APP_A, []) + [s])| == 32
  {
    hide Layout, CoreNames;
    var ss := CoreList(APP_A, []) + [s];
    assert ss == [ss[0]] + ([ss[1]] + ([ss[2]] + ([s] + [])));
    EmptyLayout();
    ConsLayout(s, []);
    ConsLayout(ss[2], [s] + []);
    ConsLayout(ss[1], [ss[2]] + ([s] + []));
    ConsLayout(ss[0], [ss[1]] + ([ss[2]] + ([s] + [])));
  }

  /**
   * The failing side of the round trip: renaming "A.hpapp" in the application "A" succeeds, renaming back is refused.
   */
  lemma RenameBackRefused()
    ensures var ss := CoreList(APP_A, []) + [Namesake()];
      && WellFormed(ss, APP_A) && AllWellFormed(ss) && AllWellFormed(WithName(ss, 3, NAME_B))
      && var renamed := Renamed(Layout(ss), PartsOf(ss, 0), 3, NAME_B);
      && renamed.Some?
      && Renamed(renamed.value, PartsOf(WithName(ss, 3, NAME_B), 0), 3, APP_A + HPAPP) == None
  {
    hide ToUtf16, ValidName, Layout, CoreNames, WellFormed, AllWellFormed, Renamed, PartsOf, Clashes, CoreList, Lower,
         ReadSections;
    var ss := CoreList(APP_A, []) + [Namesake()];
    SmallNames();
    NamesakeSize();
    NameBIsFree();
    CoreListLength();
    ContainerIff(Layout(ss), APP_A, ss);
    RenameMeans(Layout(ss), APP_A, ss, 3, NAME_B);
    RenameBack(Layout(ss), APP_A, ss, 3, NAME_B, Renamed(Layout(ss), PartsOf(ss, 0), 3, NAME_B).value);
  }

  lemma CoreListLength()
    ensures |CoreList(APP_A, [])| == 3
  {
  }
}

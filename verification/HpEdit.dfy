/** Editing an HP Prime application container (webtilp/hp_prime_app.cpp:184-251, 481-640). */
module HpEdit {
  import opened Bytes
  import opened Utf
  import opened HpContainer

  /** `std::vector<uint8_t>::max_size()` on the 32-bit WebAssembly target. */
  const MAX_SIZE := 0x7FFF_FFFF

  datatype Update = Update(name: bytes, data: bytes)

  /** What an edit does with one part of the source container. */
  datatype Choice =
    | Keep
    | Drop
    | PutCore(payload: bytes)
    | PutResource(name: bytes, payload: bytes)

  // ----- output buffers -----

  /** `append_bytes` */
  function AppendBytes(output: Option<bytes>, b: bytes): (r: Option<bytes>)
    ensures r.Some? ==> output.Some? && r.value == output.value + b
    ensures output.Some? && |output.value| + |b| <= MAX_SIZE ==> r.Some?
  {
    match output
    case None => None
    case Some(o) =>
      if b == [] then (assert o + b == o; output) else if |b| > MAX_SIZE - |o| then None else Some(o + b)
  }

  /** `append_named_resource` */
  function AppendNamed(output: Option<bytes>, encoded: bytes, payload: bytes): (r: Option<bytes>)
    ensures r.Some? ==>
      output.Some? && |encoded| + 2 + |payload| < TWO_32 && r.value == output.value + Field(encoded + [0, 0] + payload)
    ensures output.Some? && |output.value| + 6 + |encoded| + |payload| <= MAX_SIZE ==> r.Some?
  {
    if output.None? || |encoded| > TWO_32 - 1 - 2 || |payload| > TWO_32 - 1 - |encoded| - 2 then None
    else
      var header := U32be(|encoded| + 2 + |payload|);
      match AppendBytes(Some(output.value + header), encoded)
      case None => None
      case Some(o) =>
        assert o + [0, 0] + payload == output.value + (header + (encoded + [0, 0] + payload));
        AppendBytes(Some(o + [0, 0]), payload)
  }

  function AppendChoice(output: Option<bytes>, data: bytes, part: Part, choice: Choice): Option<bytes>
    requires InSource(data, part)
  {
    match choice
    case Keep => AppendBytes(output, data[part.sectionOffset..part.sectionOffset + part.sectionSize])
    case Drop => output
    case PutCore(payload) =>
      if output.None? || |payload| > TWO_32 - 1 then None
      else AppendBytes(Some(output.value + U32be(|payload|)), payload)
    case PutResource(name, payload) =>
      if ToUtf16(name).None? then None else AppendNamed(output, ToUtf16(name).value, payload)
  }

  predicate InSource(data: bytes, part: Part)
  {
    part.sectionOffset + part.sectionSize <= |data| && part.dataOffset + part.dataSize <= |data|
  }

  /** `validate_source` */
  predicate ValidSource(data: bytes, parts: seq<Part>)
  {
    |parts| >= 3 && forall i :: 0 <= i < |parts| ==> InSource(data, parts[i])
  }

  /** The bytes an edit loop appends for `parts`, one choice a part. */
  function Assemble(output: Option<bytes>, data: bytes, parts: seq<Part>, plan: seq<Choice>): (r: Option<bytes>)
    requires |plan| == |parts| && forall i :: 0 <= i < |parts| ==> InSource(data, parts[i])
    ensures output.None? ==> r.None?
    decreases |parts|
  {
    if parts == [] then output
    else Assemble(AppendChoice(output, data, parts[0], plan[0]), data, parts[1..], plan[1..])
  }

  lemma {:induction false} AssembleSplit(output: Option<bytes>, data: bytes, parts: seq<Part>, plan: seq<Choice>,
                                         k: nat)
    requires |plan| == |parts| && forall i :: 0 <= i < |parts| ==> InSource(data, parts[i])
    requires k < |parts|
    ensures Assemble(output, data, parts[..k + 1], plan[..k + 1])
         == AppendChoice(Assemble(output, data, parts[..k], plan[..k]), data, parts[k], plan[k])
    decreases |parts|
  {
    hide AppendChoice;
    if k > 0 {
      AssembleSplit(AppendChoice(output, data, parts[0], plan[0]), data, parts[1..], plan[1..], k - 1);
      assert parts[..k + 1][1..] == parts[1..][..k] && plan[..k + 1][1..] == plan[1..][..k];
      assert parts[..k][1..] == parts[1..][..k - 1] && plan[..k][1..] == plan[1..][..k - 1];
    } else {
      assert parts[..1][1..] == [] && plan[..1][1..] == [];
      AssembleNothing(AppendChoice(output, data, parts[0], plan[0]), data);
    }
  }

  lemma AssembleNothing(output: Option<bytes>, data: bytes)
    ensures Assemble(output, data, [], []) == output
  {
  }

  lemma {:induction false} AssembleStuck(output: Option<bytes>, data: bytes, parts: seq<Part>, plan: seq<Choice>,
                                         k: nat)
    requires |plan| == |parts| && forall i :: 0 <= i < |parts| ==> InSource(data, parts[i])
    requires k <= |parts| && Assemble(output, data, parts[..k], plan[..k]).None?
    ensures Assemble(output, data, parts, plan).None?
    decreases |parts|
  {
    hide AppendChoice;
    if k > 0 {
      assert parts[..k][1..] == parts[1..][..k - 1] && plan[..k][1..] == plan[1..][..k - 1];
      AssembleStuck(AppendChoice(output, data, parts[0], plan[0]), data, parts[1..], plan[1..], k - 1);
    }
  }

  // ----- what a plan means on part lists -----

  /** The sections a choice leaves in place of `s`. */
  function Target(s: Section, choice: Choice): seq<Section>
  {
    match choice
    case Keep => [s]
    case Drop => []
    case PutCore(payload) => [s.(payload := payload)]
    case PutResource(name, payload) => [Section(Resource, name, payload)]
  }

  function Targets(ss: seq<Section>, plan: seq<Choice>): seq<Section>
    requires |plan| == |ss|
  {
    if ss == [] then [] else Target(ss[0], plan[0]) + Targets(ss[1..], plan[1..])
  }

  /** Core choices sit on core sections and new names are valid. */
  predicate Suits(s: Section, choice: Choice)
  {
    && (choice.PutCore? ==> !s.kind.Resource?)
    && (choice.PutResource? ==> ValidName(choice.name))
  }

  lemma ChoiceSafe(output: bytes, data: bytes, pre: bytes, s: Section, post: bytes, choice: Choice)
    requires WellFormedSection(s) && data == pre + SectionBytes(s) + post && Suits(s, choice)
    ensures InSource(data, PartAt(s, |pre|))
    ensures var r := AppendChoice(Some(output), data, PartAt(s, |pre|), choice);
      && (r.Some? ==> AllWellFormed(Target(s, choice)) && r.value == output + Layout(Target(s, choice)))
      && (AllWellFormed(Target(s, choice)) && |output| + |Layout(Target(s, choice))| <= MAX_SIZE ==> r.Some?)
  {
    hide Field, ToUtf16, ValidName;
    var part := PartAt(s, |pre|);
    assert data[part.sectionOffset..part.sectionOffset + part.sectionSize] == SectionBytes(s);
    OneSection(s, choice);
    match choice {
      case Keep =>
      case Drop =>
      case PutCore(payload) =>
        CoreBytes(output, payload);
      case PutResource(name, payload) =>
        ValidNameEncodes(name);
        NamedBytes(ToUtf16(name).value, payload);
    }
  }

  lemma ValidNameEncodes(name: bytes)
    requires ValidName(name)
    ensures ToUtf16(name).Some?
  {
  }

  lemma CoreBytes(output: bytes, payload: bytes)
    ensures output + Field(payload) == output + U32be(|payload|) + payload
  {
  }

  lemma NamedBytes(encoded: bytes, payload: bytes)
    ensures |Field(encoded + [0, 0] + payload)| == 6 + |encoded| + |payload|
  {
  }

  lemma OneSection(s: Section, choice: Choice)
    ensures var t := Target(s, choice);
      AllWellFormed(t) ==> Layout(t) == if t == [] then [] else SectionBytes(t[0])
  {
    hide SectionBytes, WellFormedSection;
    var t := Target(s, choice);
    if t != [] && AllWellFormed(t) {
      assert t[1..] == [];
      EmptyLayout();
    }
  }

  lemma {:induction false} AssembleMeans(output: bytes, data: bytes, pre: bytes, ss: seq<Section>, plan: seq<Choice>)
    requires AllWellFormed(ss) && data == pre + Layout(ss) && |plan| == |ss|
    requires forall i :: 0 <= i < |ss| ==> Suits(ss[i], plan[i])
    ensures forall i :: 0 <= i < |ss| ==> InSource(data, PartsOf(ss, |pre|)[i])
    ensures var r, ts := Assemble(Some(output), data, PartsOf(ss, |pre|), plan), Targets(ss, plan);
      && (r.Some? ==> AllWellFormed(ts) && r.value == output + Layout(ts))
      && (AllWellFormed(ts) && |output| + |Layout(ts)| <= MAX_SIZE ==> r.Some?)
    decreases |ss|
  {
    hide SectionBytes, WellFormedSection, Suits, AppendChoice, Target, PartAt, InSource;
    if ss == [] {
      EmptyLayout();
    } else {
      var s, tail := ss[0], ss[1..];
      var parts := PartsOf(ss, |pre|);
      var next := pre + SectionBytes(s);
      assert data == next + Layout(tail);
      ChoiceSafe(output, data, pre, s, Layout(tail), plan[0]);
      assert parts[1..] == PartsOf(tail, |next|);
      var first := AppendChoice(Some(output), data, parts[0], plan[0]);
      TargetsSplit(ss, plan);
      AssembleMeans(if first.Some? then first.value else [], data, next, tail, plan[1..]);
      forall i | 0 <= i < |ss| ensures InSource(data, parts[i]) {
        assert i > 0 ==> parts[i] == parts[1..][i - 1];
      }
    }
  }

  lemma TargetsOf(ss: seq<Section>, plan: seq<Choice>)
    requires |plan| == |ss| > 0
    ensures Targets(ss, plan) == Target(ss[0], plan[0]) + Targets(ss[1..], plan[1..])
  {
    hide Target;
  }

  lemma TargetsSplit(ss: seq<Section>, plan: seq<Choice>)
    requires |plan| == |ss| > 0
    ensures var ts, t, rest := Targets(ss, plan), Target(ss[0], plan[0]), Targets(ss[1..], plan[1..]);
      && (AllWellFormed(ts) <==> AllWellFormed(t) && AllWellFormed(rest))
      && (AllWellFormed(ts) ==> Layout(ts) == Layout(t) + Layout(rest))
  {
    hide WellFormedSection, SectionBytes, Target, Layout, Targets;
    var ts, t, rest := Targets(ss, plan), Target(ss[0], plan[0]), Targets(ss[1..], plan[1..]);
    TargetsOf(ss, plan);
    if AllWellFormed(ts) {
      forall i | 0 <= i < |t| ensures WellFormedSection(t[i]) { assert ts[i] == t[i]; }
      forall i | 0 <= i < |rest| ensures WellFormedSection(rest[i]) { assert ts[|t| + i] == rest[i]; }
    }
    if AllWellFormed(t) && AllWellFormed(rest) {
      LayoutAppend(t, rest);
    }
  }

  lemma {:induction false} PartsLabels(ss: seq<Section>, offset: nat)
    requires AllWellFormed(ss)
    ensures forall i :: 0 <= i < |ss| ==>
      PartsOf(ss, offset)[i].kind == ss[i].kind && PartsOf(ss, offset)[i].name == ss[i].name
  {
    hide SectionBytes, WellFormedSection;
    if ss != [] {
      var parts, next := PartsOf(ss, offset), offset + |SectionBytes(ss[0])|;
      PartsLabels(ss[1..], next);
      forall i | 0 < i < |ss| ensures parts[i].kind == ss[i].kind && parts[i].name == ss[i].name {
        assert parts[i] == PartsOf(ss[1..], next)[i - 1];
      }
    }
  }

  /** Every part slices out exactly its section's payload. */
  lemma {:induction false} PartsPayload(pre: bytes, ss: seq<Section>, post: bytes, i: nat)
    requires AllWellFormed(ss) && i < |ss|
    ensures var p, data := PartsOf(ss, |pre|)[i], pre + Layout(ss) + post;
      p.dataOffset + p.dataSize <= |data| && data[p.dataOffset..p.dataOffset + p.dataSize] == ss[i].payload
    decreases |ss|
  {
    hide WellFormedSection, SectionBytes, PartAt;
    var s, tail := ss[0], ss[1..];
    var next := pre + SectionBytes(s);
    assert pre + Layout(ss) + post == next + Layout(tail) + post;
    if i == 0 {
      PayloadAt(pre, s, Layout(tail) + post);
      assert pre + Layout(ss) + post == pre + SectionBytes(s) + (Layout(tail) + post);
    } else {
      PartsPayload(next, tail, post, i - 1);
      assert PartsOf(ss, |pre|)[i] == PartsOf(tail, |next|)[i - 1];
    }
  }

  lemma PayloadAt(pre: bytes, s: Section, post: bytes)
    requires WellFormedSection(s)
    ensures var p, data := PartAt(s, |pre|), pre + SectionBytes(s) + post;
      p.dataOffset + p.dataSize <= |data| && data[p.dataOffset..p.dataOffset + p.dataSize] == s.payload
  {
    hide ToUtf16, ValidName, U32be;
    var front := SectionBytes(s)[..|SectionBytes(s)| - |s.payload|];
    assert SectionBytes(s) == front + s.payload;
    assert pre + SectionBytes(s) + post == (pre + front) + s.payload + post;
  }

  // ----- replace or add -----

  predicate Editable(kind: PartKind, allowProgramAndNote: bool)
  {
    kind.Resource? || (allowProgramAndNote && (kind.Program? || kind.Note?))
  }

  /** The first update whose name is `key` up to ASCII case, `|updates|` when there is none. */
  function FindUpdate(updates: seq<Update>, key: bytes): (i: nat)
    ensures i <= |updates|
    ensures i < |updates| ==> Lower(updates[i].name) == key
    ensures forall k :: 0 <= k < i ==> Lower(updates[k].name) != key
  {
    if updates == [] then 0
    else if Lower(updates[0].name) == key then 0
    else 1 + FindUpdate(updates[1..], key)
  }

  function MatchFor(kind: PartKind, name: bytes, updates: seq<Update>, allow: bool): (i: nat)
    ensures i <= |updates|
  {
    if Editable(kind, allow) then FindUpdate(updates, Lower(name)) else |updates|
  }

  function ChoiceFor(kind: PartKind, name: bytes, updates: seq<Update>, allow: bool): Choice
  {
    var i := MatchFor(kind, name, updates, allow);
    if i == |updates| then Keep
    else if !kind.Resource? then PutCore(updates[i].data)
    else PutResource(name, updates[i].data)
  }

  function ReplacePlan(parts: seq<Part>, updates: seq<Update>, allow: bool): (plan: seq<Choice>)
    ensures |plan| == |parts|
    ensures forall i :: 0 <= i < |parts| ==> plan[i] == ChoiceFor(parts[i].kind, parts[i].name, updates, allow)
  {
    seq(|parts|, i requires 0 <= i < |parts| => ChoiceFor(parts[i].kind, parts[i].name, updates, allow))
  }

  function UsedBy(parts: seq<Part>, updates: seq<Update>, allow: bool): set<nat>
  {
    set k | 0 <= k < |parts| :: MatchFor(parts[k].kind, parts[k].name, updates, allow)
  }

  predicate ValidNames(updates: seq<Update>)
  {
    forall i :: 0 <= i < |updates| ==> ValidName(updates[i].name)
  }

  predicate DistinctKeys(updates: seq<Update>)
  {
    forall i, j :: 0 <= i < j < |updates| ==> Lower(updates[i].name) != Lower(updates[j].name)
  }

  /** A core part may be named by an update only if it is the note or the program, and only when that is allowed. */
  predicate Unreserved(coreNames: seq<bytes>, name: bytes, allow: bool)
  {
    forall k :: 0 <= k < |coreNames| ==> Lower(name) == Lower(coreNames[k]) ==> allow && k != 0
  }

  function AdditionalSize(updates: seq<Update>): nat
    requires ValidNames(updates)
    decreases |updates|
  {
    if updates == [] then 0
    else
      var last := updates[|updates| - 1];
      AdditionalSize(updates[..|updates| - 1]) + |last.data| + |ToUtf16(last.name).value| + 6
  }

  predicate AcceptsUpdates(size: nat, coreNames: seq<bytes>, updates: seq<Update>, allow: bool)
  {
    && ValidNames(updates) && DistinctKeys(updates)
    && (forall i :: 0 <= i < |updates| ==> Unreserved(coreNames, updates[i].name, allow))
    && size + AdditionalSize(updates) <= MAX_SIZE
  }

  function CoresOf(parts: seq<Part>): seq<bytes>
    requires |parts| >= 3
  {
    [parts[0].name, parts[1].name, parts[2].name]
  }

  function AddUnused(output: Option<bytes>, updates: seq<Update>, used: set<nat>, i: nat): (r: Option<bytes>)
    requires ValidNames(updates) && i <= |updates|
    ensures output.None? ==> r.None?
    decreases |updates| - i
  {
    if i == |updates| then output
    else if i in used then AddUnused(output, updates, used, i + 1)
    else AddUnused(AppendNamed(output, ToUtf16(updates[i].name).value, updates[i].data), updates, used, i + 1)
  }

  /** What `replace_or_add_resources` returns. */
  function Replaced(data: bytes, parts: seq<Part>, updates: seq<Update>, allow: bool): Option<bytes>
  {
    if !ValidSource(data, parts) || !AcceptsUpdates(|data|, CoresOf(parts), updates, allow) then None
    else AddUnused(Assemble(Some([]), data, parts, ReplacePlan(parts, updates, allow)),
                   updates, UsedBy(parts, updates, allow), 0)
  }

  // What it means: each section keeps its place, kind and name; a section named by an update takes its data.

  function EditedSection(s: Section, updates: seq<Update>, allow: bool): Section
  {
    var i := MatchFor(s.kind, s.name, updates, allow);
    if i == |updates| then s else s.(payload := updates[i].data)
  }

  function EditedSections(ss: seq<Section>, updates: seq<Update>, allow: bool): (r: seq<Section>)
    ensures |r| == |ss|
    ensures forall i :: 0 <= i < |ss| ==> r[i] == EditedSection(ss[i], updates, allow)
  {
    seq(|ss|, i requires 0 <= i < |ss| => EditedSection(ss[i], updates, allow))
  }

  predicate Landed(ss: seq<Section>, updates: seq<Update>, allow: bool, i: nat)
  {
    exists k :: 0 <= k < |ss| && MatchFor(ss[k].kind, ss[k].name, updates, allow) == i
  }

  /** The updates no section took, from `i` on, as new resources. */
  function NewSections(ss: seq<Section>, updates: seq<Update>, allow: bool, i: nat): seq<Section>
    requires i <= |updates|
    decreases |updates| - i
  {
    if i == |updates| then []
    else if Landed(ss, updates, allow, i) then NewSections(ss, updates, allow, i + 1)
    else [Section(Resource, updates[i].name, updates[i].data)] + NewSections(ss, updates, allow, i + 1)
  }

  function Edited(ss: seq<Section>, updates: seq<Update>, allow: bool): seq<Section>
  {
    EditedSections(ss, updates, allow) + NewSections(ss, updates, allow, 0)
  }

  lemma {:induction false} AddUnusedMeans(output: bytes, ss: seq<Section>, updates: seq<Update>, allow: bool,
                                          used: set<nat>, i: nat)
    requires ValidNames(updates) && i <= |updates|
    requires forall k :: 0 <= k < |updates| ==> (k in used <==> Landed(ss, updates, allow, k))
    ensures var r, ts := AddUnused(Some(output), updates, used, i), NewSections(ss, updates, allow, i);
      && (r.Some? ==> AllWellFormed(ts) && r.value == output + Layout(ts))
      && (AllWellFormed(ts) && |output| + |Layout(ts)| <= MAX_SIZE ==> r.Some?)
    decreases |updates| - i
  {
    hide ToUtf16, AppendNamed, Landed, WellFormedSection, SectionBytes, ValidName, Layout, AllWellFormed, AddUnused,
         NewSections;
    NothingWellFormed();
    NewSectionsStep(ss, updates, allow, i);
    if i == |updates| {
      AddUnusedEnd(Some(output), updates, used);
      assert output + [] == output;
    } else {
      AddUnusedStep(Some(output), updates, used, i);
      if i in used {
        AddUnusedMeans(output, ss, updates, allow, used, i + 1);
      } else {
        var s := Section(Resource, updates[i].name, updates[i].data);
        var rest := NewSections(ss, updates, allow, i + 1);
        AppendNamedMeans(output, s);
        var first := AppendNamed(Some(output), ToUtf16(s.name).value, s.payload);
        if first.Some? {
          AddUnusedMeans(first.value, ss, updates, allow, used, i + 1);
          if AllWellFormed(rest) {
            Assoc(output, SectionBytes(s), Layout(rest));
          }
        } else {
          AddUnusedNone(updates, used, i + 1);
        }
        ConsLayout(s, rest);
      }
    }
  }

  lemma NewSectionsStep(ss: seq<Section>, updates: seq<Update>, allow: bool, i: nat)
    requires i <= |updates|
    ensures i == |updates| ==> NewSections(ss, updates, allow, i) == []
    ensures i < |updates| && Landed(ss, updates, allow, i) ==>
      NewSections(ss, updates, allow, i) == NewSections(ss, updates, allow, i + 1)
    ensures i < |updates| && !Landed(ss, updates, allow, i) ==>
      NewSections(ss, updates, allow, i)
      == [Section(Resource, updates[i].name, updates[i].data)] + NewSections(ss, updates, allow, i + 1)
  {
    hide Landed;
  }

  lemma AddUnusedNone(updates: seq<Update>, used: set<nat>, i: nat)
    requires ValidNames(updates) && i <= |updates|
    ensures AddUnused(None, updates, used, i) == None
  {
  }

  /** Appending a named resource appends its section, unless that is too long. */
  lemma AppendNamedMeans(output: bytes, s: Section)
    requires s.kind.Resource? && ValidName(s.name)
    ensures ToUtf16(s.name).Some?
    ensures var r := AppendNamed(Some(output), ToUtf16(s.name).value, s.payload);
      && (r.Some? ==> WellFormedSection(s) && r.value == output + SectionBytes(s))
      && (WellFormedSection(s) && |output| + |SectionBytes(s)| <= MAX_SIZE ==> r.Some?)
  {
    hide ToUtf16, ValidName;
    ValidNameEncodes(s.name);
    NewResource(s);
  }

  lemma NothingWellFormed()
    ensures AllWellFormed([]) && Layout([]) == []
  {
  }

  lemma NewResource(s: Section)
    requires s.kind.Resource? && ValidName(s.name)
    ensures var e := ToUtf16(s.name).value;
      && (WellFormedSection(s) <==> |e| + 2 + |s.payload| < TWO_32)
      && (WellFormedSection(s) ==>
        SectionBytes(s) == Field(e + [0, 0] + s.payload) && |SectionBytes(s)| == 6 + |e| + |s.payload|)
  {
    hide ToUtf16;
  }

  lemma {:induction false} TargetsAreEdited(ss: seq<Section>, plan: seq<Choice>, updates: seq<Update>, allow: bool)
    requires |plan| == |ss|
    requires forall i :: 0 <= i < |ss| ==> plan[i] == ChoiceFor(ss[i].kind, ss[i].name, updates, allow)
    ensures Targets(ss, plan) == EditedSections(ss, updates, allow)
  {
    hide MatchFor, Targets, Target, EditedSections, EditedSection, ChoiceFor;
    if ss != [] {
      TargetsAreEdited(ss[1..], plan[1..], updates, allow);
      TargetsOf(ss, plan);
      TargetIsEdited(ss[0], updates, allow);
      EditedCons(ss, updates, allow);
    } else {
      NoTargets(updates, allow);
    }
  }

  lemma TargetIsEdited(s: Section, updates: seq<Update>, allow: bool)
    ensures Target(s, ChoiceFor(s.kind, s.name, updates, allow)) == [EditedSection(s, updates, allow)]
  {
    hide MatchFor;
  }

  lemma EditedCons(ss: seq<Section>, updates: seq<Update>, allow: bool)
    requires ss != []
    ensures EditedSections(ss, updates, allow)
        == [EditedSection(ss[0], updates, allow)] + EditedSections(ss[1..], updates, allow)
  {
    hide EditedSection;
  }

  lemma NoTargets(updates: seq<Update>, allow: bool)
    ensures Targets([], []) == [] && EditedSections([], updates, allow) == []
  {
  }

  lemma {:induction false} NewSectionsFresh(ss: seq<Section>, updates: seq<Update>, allow: bool, i: nat, k: nat)
    requires DistinctKeys(updates) && i <= |updates| && k < |NewSections(ss, updates, allow, i)|
    ensures var s := NewSections(ss, updates, allow, i)[k];
      && s.kind.Resource?
      && (forall j :: 0 <= j < |ss| && ss[j].kind.Resource? ==> Lower(ss[j].name) != Lower(s.name))
      && (exists j :: i <= j < |updates| && s.name == updates[j].name)
    decreases |updates| - i
  {
    hide Lower, Landed;
    if Landed(ss, updates, allow, i) {
      NewSectionsFresh(ss, updates, allow, i + 1, k);
    } else if k > 0 {
      NewSectionsFresh(ss, updates, allow, i + 1, k - 1);
    } else {
      NotLandedIsFresh(ss, updates, allow, i);
    }
  }

  lemma NotLandedIsFresh(ss: seq<Section>, updates: seq<Update>, allow: bool, i: nat)
    requires DistinctKeys(updates) && i < |updates| && !Landed(ss, updates, allow, i)
    ensures forall j :: 0 <= j < |ss| && ss[j].kind.Resource? ==> Lower(ss[j].name) != Lower(updates[i].name)
  {
    hide Lower, FindUpdate;
    MatchIsUnique(updates, i);
  }

  lemma MatchIsUnique(updates: seq<Update>, i: nat)
    requires DistinctKeys(updates) && i < |updates|
    ensures FindUpdate(updates, Lower(updates[i].name)) == i
  {
    hide Lower;
    var k := FindUpdate(updates, Lower(updates[i].name));
    assert k < |updates| ==> Lower(updates[k].name) == Lower(updates[i].name);
  }

  lemma {:induction false} NewSectionsDistinct(ss: seq<Section>, updates: seq<Update>, allow: bool, i: nat)
    requires DistinctKeys(updates) && i <= |updates|
    ensures ResourceSections(NewSections(ss, updates, allow, i))
    decreases |updates| - i
  {
    hide Lower, Landed;
    if i < |updates| {
      NewSectionsDistinct(ss, updates, allow, i + 1);
      if !Landed(ss, updates, allow, i) {
        var rest := NewSections(ss, updates, allow, i + 1);
        forall k | 0 <= k < |rest| ensures Lower(rest[k].name) != Lower(updates[i].name) {
          NewSectionsFresh(ss, updates, allow, i + 1, k);
        }
      }
    }
  }

  lemma EditedWellFormed(ss: seq<Section>, app: bytes, updates: seq<Update>, allow: bool)
    requires WellFormed(ss, app) && DistinctKeys(updates) && AllWellFormed(Edited(ss, updates, allow))
    ensures WellFormed(Edited(ss, updates, allow), app)
  {
    hide WellFormedSection, Lower, MatchFor, CoreNames;
    var kept, added := EditedSections(ss, updates, allow), NewSections(ss, updates, allow, 0);
    var e := Edited(ss, updates, allow);
    NewSectionsDistinct(ss, updates, allow, 0);
    forall k | 0 <= k < 3 ensures e[k - 0].kind == CORE_KINDS[k] && e[k - 0].name == CoreNames(app)[k] {
      assert e[k] == kept[k] && ss[k - 0].kind == CORE_KINDS[k];
    }
    var r := e[3..];
    forall i | 0 <= i < |r| ensures r[i].kind.Resource? {
      if i < |ss| - 3 {
        assert r[i] == kept[i + 3] && ss[3..][i] == ss[i + 3];
      } else {
        assert r[i] == added[i - (|ss| - 3)];
      }
    }
    forall i, j | 0 <= i < j < |r| ensures Lower(r[i].name) != Lower(r[j].name) {
      EditedDistinct(ss, app, updates, allow, i, j);
    }
  }

  lemma EditedDistinct(ss: seq<Section>, app: bytes, updates: seq<Update>, allow: bool, i: nat, j: nat)
    requires WellFormed(ss, app) && DistinctKeys(updates) && i < j < |Edited(ss, updates, allow)| - 3
    ensures var r := Edited(ss, updates, allow)[3..];
      Lower(r[i].name) != Lower(r[j].name)
  {
    hide WellFormedSection, Lower, MatchFor, CoreNames, NewSections;
    var kept, added := EditedSections(ss, updates, allow), NewSections(ss, updates, allow, 0);
    var r := Edited(ss, updates, allow)[3..];
    if j < |ss| - 3 {
      assert r[i] == kept[i + 3] && r[j] == kept[j + 3] && ss[3..][i] == ss[i + 3] && ss[3..][j] == ss[j + 3];
    } else {
      var k := j - (|ss| - 3);
      assert r[j] == added[k];
      if i < |ss| - 3 {
        NewSectionsFresh(ss, updates, allow, 0, k);
        assert r[i] == kept[i + 3] && ss[3..][i] == ss[i + 3];
      } else {
        NewSectionsDistinct(ss, updates, allow, 0);
        assert r[i] == added[i - (|ss| - 3)];
      }
    }
  }

  /**
   * The rebuilding loops yield the layout of the edited list, or nothing when that list is not storable or too long.
   */
  lemma RebuildMeans(data: bytes, ss: seq<Section>, updates: seq<Update>, allow: bool)
    requires AllWellFormed(ss) && data == [] + Layout(ss) && ValidNames(updates)
    ensures forall i :: 0 <= i < |ss| ==> InSource(data, PartsOf(ss, 0)[i])
    ensures var parts, e := PartsOf(ss, 0), Edited(ss, updates, allow);
      var mid := Assemble(Some([]), data, parts, ReplacePlan(parts, updates, allow));
      var r := AddUnused(mid, updates, UsedBy(parts, updates, allow), 0);
      && (r.Some? ==> AllWellFormed(e) && r.value == Layout(e))
      && (AllWellFormed(e) && |Layout(e)| <= MAX_SIZE ==> r.Some?)
  {
    hide AllWellFormed, ValidNames, InSource, Assemble, AddUnused, MatchFor, Layout, PartsOf, Targets, EditedSections,
         NewSections, ChoiceFor, Suits, UsedBy, Landed;
    var parts := PartsOf(ss, 0);
    var plan, used := ReplacePlan(parts, updates, allow), UsedBy(parts, updates, allow);
    var front, back := EditedSections(ss, updates, allow), NewSections(ss, updates, allow, 0);
    PartsLabels(ss, 0);
    TargetsAreEdited(ss, plan, updates, allow);
    PlanSuits(ss, parts, plan, updates, allow);
    AssembleMeans([], data, [], ss, plan);
    UsedIsLanded(ss, parts, updates, allow);
    EditedSplits(front, back);
    var mid := Assemble(Some([]), data, parts, plan);
    if mid.Some? {
      assert [] + Layout(front) == Layout(front);
      AddUnusedMeans(mid.value, ss, updates, allow, used, 0);
    } else {
      AddUnusedNone(updates, used, 0);
    }
  }

  /** The edited list is storable when both its halves are, and its layout is theirs, one behind the other. */
  lemma EditedSplits(front: seq<Section>, back: seq<Section>)
    ensures AllWellFormed(front + back) <==> AllWellFormed(front) && AllWellFormed(back)
    ensures AllWellFormed(front + back) ==> Layout(front + back) == Layout(front) + Layout(back)
  {
    hide AllWellFormed, Layout;
    if AllWellFormed(front) && AllWellFormed(back) {
      LayoutAppend(front, back);
    }
    if AllWellFormed(front + back) {
      SplitWellFormed(front, back);
    }
  }

  /**
   * Main result for batch edits: on a parsed container the rebuilt bytes parse again, and to exactly the edited part
   * list; the only reason to refuse an acceptable batch is that the edited container would not fit in a vector.
   */
  lemma ReplaceMeans(data: bytes, app: bytes, ss: seq<Section>, updates: seq<Update>, allow: bool)
    requires ReadSections(data, app) == Some(ss) && |data| <= MAX_SIZE
    ensures AllWellFormed(ss)
    ensures var r, e := Replaced(data, PartsOf(ss, 0), updates, allow), Edited(ss, updates, allow);
      && (r.Some? ==>
            && AcceptsUpdates(|data|, CoreNames(app), updates, allow)
            && WellFormed(e, app) && r.value == Layout(e) && ReadSections(r.value, app) == Some(e))
      && (AcceptsUpdates(|data|, CoreNames(app), updates, allow) && AllWellFormed(e) && |Layout(e)| <= MAX_SIZE ==>
        r.Some?)
  {
    hide AllWellFormed, ReadSections, Assemble, AddUnused, AcceptsUpdates, ReplacePlan, CoreNames, Layout, PartsOf,
         Edited, ResourceSections, InSource, UsedBy, CoresOf;
    ContainerIff(data, app, ss);
    ParsedCores(ss, app);
    if AcceptsUpdates(|data|, CoreNames(app), updates, allow) {
      AcceptedNames(|data|, CoreNames(app), updates, allow);
      assert data == [] + Layout(ss);
      RebuildMeans(data, ss, updates, allow);
      var e := Edited(ss, updates, allow);
      if AllWellFormed(e) {
        HalvesAreWellFormed(ss, updates, allow);
        EditedWellFormed(ss, app, updates, allow);
        ContainerIff(Layout(e), app, e);
      }
    }
  }

  lemma HalvesAreWellFormed(ss: seq<Section>, updates: seq<Update>, allow: bool)
    requires AllWellFormed(Edited(ss, updates, allow))
    ensures AllWellFormed(EditedSections(ss, updates, allow)) && AllWellFormed(NewSections(ss, updates, allow, 0))
  {
    hide AllWellFormed, EditedSections, NewSections;
    SplitWellFormed(EditedSections(ss, updates, allow), NewSections(ss, updates, allow, 0));
  }

  lemma SplitWellFormed(a: seq<Section>, b: seq<Section>)
    requires AllWellFormed(a + b)
    ensures AllWellFormed(a) && AllWellFormed(b)
  {
    hide WellFormedSection;
    forall i | 0 <= i < |a| ensures WellFormedSection(a[i]) { assert (a + b)[i] == a[i]; }
    forall i | 0 <= i < |b| ensures WellFormedSection(b[i]) { assert (a + b)[|a| + i] == b[i]; }
  }

  lemma AcceptedNames(size: nat, coreNames: seq<bytes>, updates: seq<Update>, allow: bool)
    requires AcceptsUpdates(size, coreNames, updates, allow)
    ensures ValidNames(updates) && DistinctKeys(updates)
  {
  }

  lemma ParsedCores(ss: seq<Section>, app: bytes)
    requires WellFormed(ss, app)
    ensures CoresOf(PartsOf(ss, 0)) == CoreNames(app)
  {
    hide SectionBytes, WellFormedSection, CoreNames, PartsOf, ResourceSections;
    PartsLabels(ss, 0);
    assert forall k :: 0 <= k < 3 ==> ss[k - 0].kind == CORE_KINDS[k] && ss[k - 0].name == CoreNames(app)[k];
    assert CORE_KINDS[0] == Descriptor && CORE_KINDS[1] == Note && CORE_KINDS[2] == Program;
  }

  lemma PlanSuits(ss: seq<Section>, parts: seq<Part>, plan: seq<Choice>, updates: seq<Update>, allow: bool)
    requires AllWellFormed(ss) && |parts| == |plan| == |ss|
    requires forall i :: 0 <= i < |ss| ==> parts[i].kind == ss[i].kind && parts[i].name == ss[i].name
    requires forall i :: 0 <= i < |ss| ==> plan[i] == ChoiceFor(parts[i].kind, parts[i].name, updates, allow)
    ensures forall i :: 0 <= i < |ss| ==> Suits(ss[i], plan[i])
  {
    hide MatchFor, ValidName;
    forall i | 0 <= i < |ss| ensures Suits(ss[i], plan[i]) {
      assert WellFormedSection(ss[i]);
    }
  }

  lemma UsedIsLanded(ss: seq<Section>, parts: seq<Part>, updates: seq<Update>, allow: bool)
    requires |parts| == |ss|
    requires forall i :: 0 <= i < |ss| ==> parts[i].kind == ss[i].kind && parts[i].name == ss[i].name
    ensures forall k :: 0 <= k < |updates| ==> (k in UsedBy(parts, updates, allow) <==> Landed(ss, updates, allow, k))
  {
    hide MatchFor;
    forall k | 0 <= k < |updates| ensures k in UsedBy(parts, updates, allow) <==> Landed(ss, updates, allow, k) {
      if k in UsedBy(parts, updates, allow) {
        var j :| 0 <= j < |parts| && MatchFor(parts[j].kind, parts[j].name, updates, allow) == k;
        assert MatchFor(ss[j].kind, ss[j].name, updates, allow) == k;
      }
      if Landed(ss, updates, allow, k) {
        var j :| 0 <= j < |ss| && MatchFor(ss[j].kind, ss[j].name, updates, allow) == k;
        assert MatchFor(parts[j].kind, parts[j].name, updates, allow) == k;
      }
    }
  }

  /** `picks` are the indices, in batch order, of the updates that name no section they could replace. */
  ghost predicate ArePicks(ss: seq<Section>, updates: seq<Update>, allow: bool, picks: seq<nat>)
  {
    && (forall a, b :: 0 <= a < b < |picks| ==> picks[a] < picks[b])
    && (forall k: nat :: k in picks <==> k < |updates| && NamesNothing(ss, updates[k], allow))
  }

  predicate NamesNothing(ss: seq<Section>, update: Update, allow: bool)
  {
    forall j :: 0 <= j < |ss| && Editable(ss[j].kind, allow) ==> Lower(ss[j].name) != Lower(update.name)
  }

  /** The resources `added` are those updates, in their order, and nothing else. */
  ghost predicate AreAdded(updates: seq<Update>, picks: seq<nat>, added: seq<Section>)
  {
    && |added| == |picks|
    && forall a :: 0 <= a < |picks| ==>
         picks[a] < |updates| && added[a] == Section(Resource, updates[picks[a]].name, updates[picks[a]].data)
  }

  lemma LandedMeans(ss: seq<Section>, updates: seq<Update>, allow: bool, k: nat)
    requires DistinctKeys(updates) && k < |updates|
    ensures Landed(ss, updates, allow, k) <==> !NamesNothing(ss, updates[k], allow)
  {
    hide Lower;
    MatchIsUnique(updates, k);
    if !NamesNothing(ss, updates[k], allow) {
      var j :| 0 <= j < |ss| && Editable(ss[j].kind, allow) && Lower(ss[j].name) == Lower(updates[k].name);
      assert MatchFor(ss[j].kind, ss[j].name, updates, allow) == k;
    }
  }

  lemma NothingAdded(updates: seq<Update>)
    ensures AreAdded(updates, [], [])
  {
  }

  lemma AddedCons(updates: seq<Update>, i: nat, picks: seq<nat>, added: seq<Section>)
    requires i < |updates| && AreAdded(updates, picks, added)
    ensures AreAdded(updates, [i] + picks, [Section(Resource, updates[i].name, updates[i].data)] + added)
  {
  }

  lemma {:induction false} PicksFrom(ss: seq<Section>, updates: seq<Update>, allow: bool, i: nat)
    returns (picks: seq<nat>)
    requires DistinctKeys(updates) && i <= |updates|
    ensures forall a, b :: 0 <= a < b < |picks| ==> picks[a] < picks[b]
    ensures forall k: nat :: k in picks <==> i <= k < |updates| && NamesNothing(ss, updates[k], allow)
    ensures AreAdded(updates, picks, NewSections(ss, updates, allow, i))
    decreases |updates| - i
  {
    hide Landed, NamesNothing, DistinctKeys, NewSections, AreAdded;
    NewSectionsStep(ss, updates, allow, i);
    if i == |updates| {
      picks := [];
      NothingAdded(updates);
    } else {
      picks := PicksFrom(ss, updates, allow, i + 1);
      LandedMeans(ss, updates, allow, i);
      if !Landed(ss, updates, allow, i) {
        AddedCons(updates, i, picks, NewSections(ss, updates, allow, i + 1));
        picks := [i] + picks;
      }
    }
  }

  /**
   * Every accepted update lands: some part carries its key and its data; parts no update names are untouched; and what
   * follows the old parts is exactly the updates that name none of them, in batch order.
   */
  lemma EditedMeaning(ss: seq<Section>, updates: seq<Update>, allow: bool)
    requires DistinctKeys(updates)
    ensures var e := Edited(ss, updates, allow);
      && |e| >= |ss|
      && (forall i :: 0 <= i < |ss| ==> e[i].kind == ss[i].kind && e[i].name == ss[i].name)
      && (forall i, u | 0 <= i < |ss| && u in updates ::
            Editable(ss[i].kind, allow) && Lower(u.name) == Lower(ss[i].name) ==> e[i].payload == u.data)
      && (forall i | 0 <= i < |ss| ::
            (Editable(ss[i].kind, allow) ==> forall u :: u in updates ==> Lower(u.name) != Lower(ss[i].name)) ==>
              e[i] == ss[i])
      && (forall u :: u in updates ==>
            exists i :: 0 <= i < |e| && Lower(e[i].name) == Lower(u.name) && e[i].payload == u.data)
      && exists picks :: ArePicks(ss, updates, allow, picks) && AreAdded(updates, picks, e[|ss|..])
  {
    hide Lower, NewSections, AreAdded, NamesNothing;
    var e := Edited(ss, updates, allow);
    var picks := PicksFrom(ss, updates, allow, 0);
    assert e[|ss|..] == NewSections(ss, updates, allow, 0);
    assert ArePicks(ss, updates, allow, picks);
    forall i, u | 0 <= i < |ss| && u in updates && Editable(ss[i].kind, allow) && Lower(u.name) == Lower(ss[i].name)
      ensures e[i].payload == u.data
    {
      var k :| 0 <= k < |updates| && updates[k] == u;
      MatchIsUnique(updates, k);
    }
    forall u | u in updates
      ensures exists i :: 0 <= i < |e| && Lower(e[i].name) == Lower(u.name) && e[i].payload == u.data
    {
      var k :| 0 <= k < |updates| && updates[k] == u;
      if Landed(ss, updates, allow, k) {
        var j :| 0 <= j < |ss| && MatchFor(ss[j].kind, ss[j].name, updates, allow) == k;
        assert Lower(e[j].name) == Lower(u.name) && e[j].payload == u.data;
      } else {
        var j := NewSectionFor(ss, updates, allow, 0, k);
        assert e[|ss| + j] == Section(Resource, u.name, u.data);
      }
    }
  }

  lemma {:induction false} NewSectionFor(ss: seq<Section>, updates: seq<Update>, allow: bool, i: nat, k: nat)
    returns (j: nat)
    requires i <= k < |updates| && !Landed(ss, updates, allow, k)
    ensures j < |NewSections(ss, updates, allow, i)|
    ensures NewSections(ss, updates, allow, i)[j] == Section(Resource, updates[k].name, updates[k].data)
    decreases k - i
  {
    hide Landed;
    if i == k {
      j := 0;
    } else {
      j := NewSectionFor(ss, updates, allow, i + 1, k);
      if !Landed(ss, updates, allow, i) {
        j := j + 1;
      }
    }
  }

  /** An empty batch gives the container back: its sections tile the buffer. */
  lemma EmptyBatchIsIdentity(data: bytes, app: bytes, ss: seq<Section>, allow: bool)
    requires ReadSections(data, app) == Some(ss) && |data| <= MAX_SIZE
    ensures AllWellFormed(ss) && Replaced(data, PartsOf(ss, 0), [], allow) == Some(data)
  {
    hide SectionBytes, WellFormedSection, ReadSections, CoreNames;
    ContainerIff(data, app, ss);
    var e := Edited(ss, [], allow);
    assert NewSections(ss, [], allow, 0) == [];
    assert e == ss;
    assert AcceptsUpdates(|data|, CoreNames(app), [], allow);
    ReplaceMeans(data, app, ss, [], allow);
  }

  // ----- the loops of replace_or_add_resources -----

  method ValidateSource(data: bytes, parts: seq<Part>) returns (ok: bool)
    ensures ok == ValidSource(data, parts)
  {
    if |parts| < 3 {
      return false;
    }
    for i := 0 to |parts|
      invariant forall k :: 0 <= k < i ==> InSource(data, parts[k])
    {
      var part := parts[i];
      if part.sectionOffset > |data| || part.sectionSize > |data| - part.sectionOffset
         || part.dataOffset > |data| || part.dataSize > |data| - part.dataOffset {
        return false;
      }
    }
    ok := true;
  }

  lemma {:induction false} AdditionalSizeMonotone(updates: seq<Update>, i: nat)
    requires ValidNames(updates) && i <= |updates|
    ensures AdditionalSize(updates[..i]) <= AdditionalSize(updates)
    decreases |updates|
  {
    hide ValidName, ToUtf16;
    if i == |updates| {
      assert updates[..i] == updates;
    } else {
      var front := updates[..|updates| - 1];
      AdditionalSizeMonotone(front, i);
      assert front[..i] == updates[..i];
    }
  }

  /** The keys of the updates seen so far. */
  ghost function KeysUpTo(updates: seq<Update>, i: nat): set<bytes>
    requires i <= |updates|
  {
    set k | 0 <= k < i :: Lower(updates[k].name)
  }

  lemma OneMoreUpdate(updates: seq<Update>, i: nat)
    requires i < |updates| && ValidNames(updates[..i]) && DistinctKeys(updates[..i]) && ValidName(updates[i].name)
    ensures ValidNames(updates[..i + 1])
    ensures AdditionalSize(updates[..i + 1])
         == AdditionalSize(updates[..i]) + |updates[i].data| + |ToUtf16(updates[i].name).value| + 6
    ensures KeysUpTo(updates, i + 1) == KeysUpTo(updates, i) + {Lower(updates[i].name)}
  {
    hide ValidName, ToUtf16, Lower;
    assert updates[..i + 1][..i] == updates[..i];
  }

  lemma NewKeyIsDistinct(updates: seq<Update>, i: nat)
    requires i < |updates| && DistinctKeys(updates[..i])
    ensures Lower(updates[i].name) in KeysUpTo(updates, i) ==> !DistinctKeys(updates)
    ensures Lower(updates[i].name) !in KeysUpTo(updates, i) ==> DistinctKeys(updates[..i + 1])
  {
    hide Lower;
    if Lower(updates[i].name) !in KeysUpTo(updates, i) {
      var next := updates[..i + 1];
      forall a, b | 0 <= a < b < |next| ensures Lower(next[a].name) != Lower(next[b].name) {
        assert Lower(updates[a].name) in KeysUpTo(updates, i);
        assert b < i ==> updates[..i][a] == updates[a] && updates[..i][b] == updates[b];
      }
    }
  }

  /** The loop over the core names, for one update. */
  method CoreNameFree(coreNames: seq<bytes>, name: bytes, allow: bool) returns (free: bool)
    requires |coreNames| == 3
    ensures free <==> Unreserved(coreNames, name, allow)
  {
    hide Lower;
    for coreIndex := 0 to 3
      invariant Unreserved(coreNames[..coreIndex], name, allow)
    {
      if Lower(name) == Lower(coreNames[coreIndex]) && !(allow && coreIndex != 0) {
        return false;
      }
    }
    assert coreNames[..3] == coreNames;
    return true;
  }

  lemma TooMuch(updates: seq<Update>, i: nat, size: nat)
    requires i <= |updates| && ValidNames(updates[..i]) && AdditionalSize(updates[..i]) > MAX_SIZE
    ensures !(ValidNames(updates) && size + AdditionalSize(updates) <= MAX_SIZE)
  {
    hide ValidName, AdditionalSize;
    if ValidNames(updates) {
      AdditionalSizeMonotone(updates, i);
    }
  }

  /** The checking loop of `replace_or_add_resources`: the encoded names of an acceptable batch. */
  method CheckUpdates(size: nat, coreNames: seq<bytes>, updates: seq<Update>, allow: bool)
    returns (r: Option<seq<bytes>>)
    requires size <= MAX_SIZE && |coreNames| == 3
    ensures r.Some? <==> AcceptsUpdates(size, coreNames, updates, allow)
    ensures r.Some? ==> |r.value| == |updates| && forall i :: 0 <= i < |updates| ==>
      Some(r.value[i]) == ToUtf16(updates[i].name)
  {
    hide ValidName, ToUtf16, Lower, AdditionalSize, DistinctKeys, Unreserved, KeysUpTo;
    var encodedNames: seq<bytes>, updateNames: set<bytes>, additionalSize := [], {}, 0;
    var maximum := TWO_32 - 1;
    NoUpdates(updates);
    for i := 0 to |updates|
      invariant ValidNames(updates[..i]) && DistinctKeys(updates[..i])
      invariant |encodedNames| == i && forall k :: 0 <= k < i ==> Some(encodedNames[k]) == ToUtf16(updates[k].name)
      invariant updateNames == KeysUpTo(updates, i)
      invariant forall k :: 0 <= k < i ==> Unreserved(coreNames, updates[k].name, allow)
      invariant additionalSize == AdditionalSize(updates[..i]) <= maximum
    {
      var update := updates[i];
      var encoded := ValidResourceName(update.name);
      if encoded.None? {
        NotEncodable(update.name);
        return None;
      }
      Encodable(update.name);
      OneMoreUpdate(updates, i);
      NewKeyIsDistinct(updates, i);
      encodedNames := encodedNames + [encoded.value];
      if Lower(update.name) in updateNames {
        return None;
      }
      updateNames := updateNames + {Lower(update.name)};
      var free := CoreNameFree(coreNames, update.name, allow);
      if !free {
        return None;
      }
      if |update.data| > maximum - additionalSize {
        TooMuch(updates, i + 1, size);
        return None;
      }
      additionalSize := additionalSize + |update.data|;
      if additionalSize > maximum - 6 || |encoded.value| > maximum - additionalSize - 6 {
        TooMuch(updates, i + 1, size);
        return None;
      }
      additionalSize := additionalSize + |encoded.value| + 6;
    }
    assert updates[..|updates|] == updates;
    if additionalSize > MAX_SIZE - size {
      return None;
    }
    r := Some(encodedNames);
  }

  lemma NoUpdates(updates: seq<Update>)
    ensures AdditionalSize(updates[..0]) == 0 && KeysUpTo(updates, 0) == {} && DistinctKeys(updates[..0])
  {
  }

  lemma Encodable(name: bytes)
    ensures (if ValidName(name) then ToUtf16(name) else None).Some? ==> ValidName(name)
  {
  }

  lemma NotEncodable(name: bytes)
    requires (if ValidName(name) then ToUtf16(name) else None).None?
    ensures !ValidName(name)
  {
  }

  /** The update matched to a part, or the number of updates. */
  method UpdateFor(part: Part, updates: seq<Update>, allow: bool) returns (updateIndex: nat)
    ensures updateIndex == MatchFor(part.kind, part.name, updates, allow)
  {
    hide Lower, FindUpdate;
    updateIndex := |updates|;
    if Editable(part.kind, allow) {
      updateIndex := FindUpdateLoop(updates, Lower(part.name));
    }
  }

  /** One round of the rebuilding loop: the part as it is, or its replacement in the same place. */
  method RebuildPart(output: bytes, data: bytes, part: Part, updates: seq<Update>, allow: bool, updateIndex: nat)
    returns (rebuilt: Option<bytes>)
    requires InSource(data, part) && updateIndex == MatchFor(part.kind, part.name, updates, allow)
    ensures rebuilt == AppendChoice(Some(output), data, part, ChoiceFor(part.kind, part.name, updates, allow))
  {
    hide ToUtf16, AppendNamed, AppendBytes, AppendChoice, MatchFor, ChoiceFor, U32be;
    AppendChoiceStep(Some(output), data, part, updates, allow);
    if updateIndex != |updates| {
      if part.kind != Resource {
        var update := updates[updateIndex];
        if |update.data| > TWO_32 - 1 {
          return None;
        }
        rebuilt := AppendBytes(Some(output + U32be(|update.data|)), update.data);
      } else {
        var originalName := EncodeUtf16le(part.name);
        rebuilt := if originalName.None? then None
                   else AppendNamed(Some(output), originalName.value, updates[updateIndex].data);
      }
    } else {
      rebuilt := AppendBytes(Some(output), data[part.sectionOffset..part.sectionOffset + part.sectionSize]);
    }
  }

  /** The last loop: updates no part has used become new resources, in order. */
  method AppendUnused(output: bytes, updates: seq<Update>, encodedNames: seq<bytes>, used: seq<bool>,
                      ghost usedSet: set<nat>)
    returns (r: Option<bytes>)
    requires ValidNames(updates) && |encodedNames| == |updates| == |used|
    requires forall i :: 0 <= i < |updates| ==> Some(encodedNames[i]) == ToUtf16(updates[i].name)
    requires forall i :: 0 <= i < |updates| ==> (used[i] <==> i in usedSet)
    ensures r == AddUnused(Some(output), updates, usedSet, 0)
  {
    hide ToUtf16, AppendNamed, AddUnused, ValidNames;
    r := Some(output);
    for i := 0 to |updates|
      invariant r.Some? && AddUnused(r, updates, usedSet, i) == AddUnused(Some(output), updates, usedSet, 0)
    {
      AddUnusedStep(r, updates, usedSet, i);
      if !used[i] {
        r := AppendNamed(r, encodedNames[i], updates[i].data);
        if r.None? {
          return None;
        }
      }
    }
    AddUnusedEnd(r, updates, usedSet);
  }

  lemma NothingUsed(parts: seq<Part>, updates: seq<Update>, allow: bool)
    ensures parts == [] ==> UsedBy(parts, updates, allow) == {}
  {
  }

  method ReplaceOrAddResources(data: bytes, parts: seq<Part>, updates: seq<Update>, allow: bool)
    returns (r: Option<bytes>)
    requires |data| <= MAX_SIZE
    ensures r == Replaced(data, parts, updates, allow)
  {
    hide AcceptsUpdates, InSource, ToUtf16, ValidNames, Lower, AppendChoice, Assemble, AddUnused, MatchFor, ChoiceFor,
         UsedBy;
    var valid := ValidateSource(data, parts);
    if !valid {
      return None;
    }
    var encodedNames := CheckUpdates(|data|, CoresOf(parts), updates, allow);
    if encodedNames.None? {
      return None;
    }
    AcceptedNames(|data|, CoresOf(parts), updates, allow);
    ghost var plan := ReplacePlan(parts, updates, allow);
    var rebuilt: Option<bytes> := Some([]);
    var used: seq<bool> := seq(|updates|, _ => false);
    AssembleNothing(rebuilt, data);
    NothingUsed(parts[..0], updates, allow);
    for k := 0 to |parts|
      invariant rebuilt == Assemble(Some([]), data, parts[..k], plan[..k]) && rebuilt.Some?
      invariant |used| == |updates|
      invariant forall i :: 0 <= i < |updates| ==> (used[i] <==> i in UsedBy(parts[..k], updates, allow))
    {
      var part := parts[k];
      var updateIndex := UpdateFor(part, updates, allow);
      UsedStep(parts, updates, allow, k);
      AssembleSplit(Some([]), data, parts, plan, k);
      rebuilt := RebuildPart(rebuilt.value, data, part, updates, allow, updateIndex);
      if rebuilt.None? {
        AssembleStuck(Some([]), data, parts, plan, k + 1);
        AddUnusedNone(updates, UsedBy(parts, updates, allow), 0);
        return None;
      }
      if updateIndex != |updates| {
        used := used[updateIndex := true];
      }
    }
    assert parts[..|parts|] == parts && plan[..|plan|] == plan;
    r := AppendUnused(rebuilt.value, updates, encodedNames.value, used, UsedBy(parts, updates, allow));
  }

  lemma UsedStep(parts: seq<Part>, updates: seq<Update>, allow: bool, k: nat)
    requires k < |parts|
    ensures UsedBy(parts[..k + 1], updates, allow)
         == UsedBy(parts[..k], updates, allow) + {MatchFor(parts[k].kind, parts[k].name, updates, allow)}
  {
    hide MatchFor;
    var a, b := parts[..k], parts[..k + 1];
    forall m | m in UsedBy(a, updates, allow) ensures m in UsedBy(b, updates, allow) {
      var j :| 0 <= j < |a| && m == MatchFor(a[j].kind, a[j].name, updates, allow);
      assert b[j] == a[j];
    }
    assert b[k] == parts[k];
    forall m | m in UsedBy(b, updates, allow)
      ensures m in UsedBy(a, updates, allow) || m == MatchFor(parts[k].kind, parts[k].name, updates, allow)
    {
      var j :| 0 <= j < |b| && m == MatchFor(b[j].kind, b[j].name, updates, allow);
      assert j < k ==> a[j] == b[j];
    }
  }

  lemma AppendChoiceStep(output: Option<bytes>, data: bytes, part: Part, updates: seq<Update>, allow: bool)
    requires InSource(data, part) && output.Some?
    ensures part.sectionOffset + part.sectionSize <= |data|
    ensures var i := MatchFor(part.kind, part.name, updates, allow);
      AppendChoice(output, data, part, ChoiceFor(part.kind, part.name, updates, allow)) ==
        if i == |updates| then AppendBytes(output, data[part.sectionOffset..part.sectionOffset + part.sectionSize])
        else if part.kind != Resource then
          if |updates[i].data| > TWO_32 - 1 then None
          else AppendBytes(Some(output.value + U32be(|updates[i].data|)), updates[i].data)
        else if ToUtf16(part.name).None? then None
        else AppendNamed(output, ToUtf16(part.name).value, updates[i].data)
  {
    hide AppendBytes, AppendNamed, ToUtf16, MatchFor;
  }

  lemma AddUnusedStep(output: Option<bytes>, updates: seq<Update>, used: set<nat>, i: nat)
    requires ValidNames(updates) && i < |updates|
    ensures ToUtf16(updates[i].name).Some?
    ensures AddUnused(output, updates, used, i)
         == AddUnused(
              if i in used then output else AppendNamed(output, ToUtf16(updates[i].name).value, updates[i].data),
                      updates, used, i + 1)
  {
    hide AppendNamed, ToUtf16;
  }

  lemma AddUnusedEnd(output: Option<bytes>, updates: seq<Update>, used: set<nat>)
    requires ValidNames(updates)
    ensures AddUnused(output, updates, used, |updates|) == output
  {
  }

  method FindUpdateLoop(updates: seq<Update>, key: bytes) returns (r: nat)
    ensures r == FindUpdate(updates, key)
  {
    hide Lower;
    r := |updates|;
    for i := 0 to |updates|
      invariant r == |updates|
      invariant forall k :: 0 <= k < i ==> Lower(updates[k].name) != key
    {
      if Lower(updates[i].name) == key {
        r := i;
        break;
      }
    }
  }
}

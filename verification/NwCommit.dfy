/**
 * The five-write update of the storage image, cut anywhere, and whole runs of edits
 * (webtilp/numworks_backend.js:254-300, webtilp/numworks_transport.js:165-173).
 */
module NwCommit {
  import opened Bytes
  import opened NwStorage
  import opened NwScripts

  /** One RAM write, relative to the start of the storage image. */
  datatype Write = Write(offset: nat, data: bytes)

  predicate Fits(image: bytes, w: Write)
  {
    w.offset + |w.data| <= |image|
  }

  /** The writes of `commitRecords`, in order; the stale tail is cleared only when the storage shrinks. */
  function CommitWrites(prefix: bytes, previousUsed: nat): (ws: seq<Write>)
    requires |prefix| >= 6
    ensures |ws| == if previousUsed > |prefix| then 5 else 4
  {
    [Write(0, Zeros(4)), Write(|prefix| - 2, prefix[|prefix| - 2..]), Write(4, prefix[4..])]
    + (if previousUsed > |prefix| then [Write(|prefix|, Zeros(previousUsed - |prefix|))] else [])
    + [Write(0, prefix[..4])]
  }

  function Stored(image: bytes, w: Write): (r: bytes)
    requires Fits(image, w)
    ensures |r| == |image|
  {
    image[..w.offset] + w.data + image[w.offset + |w.data|..]
  }

  /** A write of which only the bytes at the positions in `landed` reached the RAM. */
  function Torn(image: bytes, w: Write, landed: set<nat>): (r: bytes)
    requires Fits(image, w)
    ensures |r| == |image|
    ensures forall i :: 0 <= i < |image| ==>
      r[i] == if w.offset <= i < w.offset + |w.data| && i - w.offset in landed then w.data[i - w.offset] else image[i]
  {
    seq(|image|, i requires 0 <= i < |image| =>
      if w.offset <= i < w.offset + |w.data| && i - w.offset in landed then w.data[i - w.offset] else image[i])
  }

  predicate AllFit(image: bytes, ws: seq<Write>)
  {
    forall k :: 0 <= k < |ws| ==> Fits(image, ws[k])
  }

  function AllStored(image: bytes, ws: seq<Write>): (r: bytes)
    requires AllFit(image, ws)
    ensures |r| == |image|
    decreases |ws|
  {
    if ws == [] then image else Stored(AllStored(image, ws[..|ws| - 1]), ws[|ws| - 1])
  }

  /** The image when the update is cut during write `k`. */
  function Interrupted(image: bytes, ws: seq<Write>, k: nat, landed: set<nat>): (r: bytes)
    requires AllFit(image, ws) && k < |ws|
    ensures |r| == |image|
  {
    Torn(AllStored(image, ws[..k]), ws[k], landed)
  }

  /** The image after an uninterrupted update. */
  function Committed(image: bytes, prefix: bytes, previousUsed: nat): (r: bytes)
    requires |prefix| <= |image| && previousUsed <= |image|
    ensures |r| == |image|
  {
    if previousUsed > |prefix| then prefix + Zeros(previousUsed - |prefix|) + image[previousUsed..]
    else prefix + image[|prefix|..]
  }

  /**
   * What the device holds once the header is invalidated, terminator, body and tail are written, and the header is not.
   */
  function Unsealed(image: bytes, prefix: bytes, previousUsed: nat): (r: bytes)
    requires 6 <= |prefix| <= |image| && previousUsed <= |image|
    ensures |r| == |image|
  {
    Zeros(4) + Committed(image, prefix, previousUsed)[4..]
  }

  lemma WritesFit(image: bytes, prefix: bytes, previousUsed: nat, limit: nat)
    requires 6 <= |prefix| <= limit && previousUsed <= limit <= |image|
    ensures AllFit(image, CommitWrites(prefix, previousUsed))
    ensures forall w :: w in CommitWrites(prefix, previousUsed) ==> w.offset + |w.data| <= limit
  {
  }

  lemma StoredTwice(image: bytes, prefix: bytes)
    requires 6 <= |prefix| <= |image|
    ensures Stored(Stored(image, Write(|prefix| - 2, prefix[|prefix| - 2..])), Write(4, prefix[4..]))
         == image[..4] + prefix[4..] + image[|prefix|..]
  {
  }

  lemma AllStoredStep(image: bytes, ws: seq<Write>, k: nat)
    requires AllFit(image, ws) && k < |ws|
    ensures AllFit(image, ws[..k]) && AllStored(image, ws[..k + 1]) == Stored(AllStored(image, ws[..k]), ws[k])
  {
    hide Stored;
    assert ws[..k + 1][..k] == ws[..k];
  }

  lemma WriteList(prefix: bytes, previousUsed: nat)
    requires |prefix| >= 6
    ensures var ws := CommitWrites(prefix, previousUsed);
      && ws[0] == Write(0, Zeros(4)) && ws[1] == Write(|prefix| - 2, prefix[|prefix| - 2..])
        && ws[2] == Write(4, prefix[4..])
      && (previousUsed > |prefix| ==> ws[3] == Write(|prefix|, Zeros(previousUsed - |prefix|)))
      && ws[|ws| - 1] == Write(0, prefix[..4])
  {
  }

  /** The image up to the third write. */
  lemma EarlyStages(image: bytes, prefix: bytes, previousUsed: nat)
    requires 6 <= |prefix| <= |image| && previousUsed <= |image|
    ensures var ws := CommitWrites(prefix, previousUsed);
      && AllFit(image, ws)
      && AllStored(image, ws[..0]) == image
      && AllStored(image, ws[..1]) == Zeros(4) + image[4..]
      && AllStored(image, ws[..3]) == Zeros(4) + prefix[4..] + image[|prefix|..]
  {
    hide AllStored, Stored, CommitWrites, Unsealed, AllFit, Zeros, Fits;
    var ws := CommitWrites(prefix, previousUsed);
    WriteList(prefix, previousUsed);
    WritesFit(image, prefix, previousUsed, |image|);
    FirstWrites(image, ws);
    ZeroHeader(image);
    BodyStage(image, prefix);
  }

  lemma FirstWrites(image: bytes, ws: seq<Write>)
    requires AllFit(image, ws) && |ws| >= 4
    ensures forall k :: 0 <= k < 4 ==> forall other :: |other| == |image| ==> Fits(other, ws[k])
    ensures AllFit(image, ws[..0]) && AllStored(image, ws[..0]) == image
    ensures AllFit(image, ws[..1]) && AllStored(image, ws[..1]) == Stored(image, ws[0])
    ensures AllFit(image, ws[..3]) && AllStored(image, ws[..3]) == Stored(Stored(Stored(image, ws[0]), ws[1]), ws[2])
  {
    hide AllStored, Stored;
    NothingStored(image);
    assert ws[..0] == [];
    AllStoredStep(image, ws, 0);
    AllStoredStep(image, ws, 1);
    AllStoredStep(image, ws, 2);
  }

  /** The image between the writes. */
  lemma Stages(image: bytes, prefix: bytes, previousUsed: nat)
    requires 6 <= |prefix| <= |image| && previousUsed <= |image|
    ensures var ws := CommitWrites(prefix, previousUsed);
      && AllFit(image, ws)
      && AllStored(image, ws[..0]) == image
      && AllStored(image, ws[..1]) == Zeros(4) + image[4..]
      && AllStored(image, ws[..3]) == Zeros(4) + prefix[4..] + image[|prefix|..]
      && AllStored(image, ws[..|ws| - 1]) == Unsealed(image, prefix, previousUsed)
  {
    hide AllStored, Stored, CommitWrites, Unsealed, AllFit, Zeros, Fits;
    var ws := CommitWrites(prefix, previousUsed);
    EarlyStages(image, prefix, previousUsed);
    WriteList(prefix, previousUsed);
    if previousUsed > |prefix| {
      AllStoredStep(image, ws, 3);
      ClearTail(image, prefix, previousUsed);
    } else {
      NoTail(image, prefix, previousUsed);
    }
  }

  lemma BodyStage(image: bytes, prefix: bytes)
    requires 6 <= |prefix| <= |image|
    ensures Stored(Stored(Zeros(4) + image[4..], Write(|prefix| - 2, prefix[|prefix| - 2..])), Write(4, prefix[4..]))
         == Zeros(4) + prefix[4..] + image[|prefix|..]
  {
    hide Stored;
    var blank := Zeros(4) + image[4..];
    StoredTwice(blank, prefix);
    assert blank[..4] == Zeros(4) && blank[|prefix|..] == image[|prefix|..];
  }

  lemma NoTail(image: bytes, prefix: bytes, previousUsed: nat)
    requires 6 <= |prefix| <= |image| && previousUsed <= |prefix|
    ensures Zeros(4) + prefix[4..] + image[|prefix|..] == Unsealed(image, prefix, previousUsed)
  {
    assert Committed(image, prefix, previousUsed)[4..] == prefix[4..] + image[|prefix|..];
  }

  lemma NothingStored(image: bytes)
    ensures AllStored(image, []) == image
  {
  }

  lemma ZeroHeader(image: bytes)
    requires |image| >= 4
    ensures Stored(image, Write(0, Zeros(4))) == Zeros(4) + image[4..]
  {
  }

  lemma ClearTail(image: bytes, prefix: bytes, previousUsed: nat)
    requires 6 <= |prefix| < previousUsed <= |image|
    ensures Stored(Zeros(4) + prefix[4..] + image[|prefix|..], Write(|prefix|, Zeros(previousUsed - |prefix|)))
         == Unsealed(image, prefix, previousUsed)
  {
    var body, stale := Zeros(4) + prefix[4..] + image[|prefix|..], previousUsed - |prefix|;
    assert body[..|prefix|] == Zeros(4) + prefix[4..];
    assert body[|prefix| + stale..] == image[previousUsed..];
    assert Committed(image, prefix, previousUsed)[4..] == prefix[4..] + Zeros(stale) + image[previousUsed..];
  }

  /** With every byte landed, the last write leaves the committed image. */
  lemma FullUpdate(image: bytes, prefix: bytes, previousUsed: nat)
    requires 6 <= |prefix| <= |image| && previousUsed <= |image|
    ensures var ws := CommitWrites(prefix, previousUsed);
      AllFit(image, ws) && AllStored(image, ws) == Committed(image, prefix, previousUsed)
  {
    hide AllStored, Stored;
    var ws := CommitWrites(prefix, previousUsed);
    Stages(image, prefix, previousUsed);
    AllStoredStep(image, ws, |ws| - 1);
    assert ws[..|ws|] == ws;
    Seal(image, prefix, previousUsed);
  }

  lemma Seal(image: bytes, prefix: bytes, previousUsed: nat)
    requires 6 <= |prefix| <= |image| && previousUsed <= |image|
    ensures Stored(Unsealed(image, prefix, previousUsed), Write(0, prefix[..4]))
        == Committed(image, prefix, previousUsed)
  {
    var done := Committed(image, prefix, previousUsed);
    assert Unsealed(image, prefix, previousUsed)[4..] == done[4..];
    assert done[..4] == prefix[..4];
  }

  predicate HeaderValid(image: bytes)
  {
    |image| >= 4 && image[..4] == MAGIC
  }

  lemma TornHeaderIsInvalid(image: bytes, landed: set<nat>)
    requires |image| >= 4
    ensures var torn := Torn(image, Write(0, Zeros(4)), landed);
      torn == image || !HeaderValid(torn)
  {
    var torn := Torn(image, Write(0, Zeros(4)), landed);
    if HeaderValid(torn) {
      assert torn[0] == torn[..4][0] && torn[1] == torn[..4][1] && torn[2] == torn[..4][2] && torn[3] == torn[..4][3];
      assert 0 !in landed && 1 !in landed && 2 !in landed && 3 !in landed;
      assert torn == image;
    }
  }

  lemma TornSeal(image: bytes, header: bytes, landed: set<nat>)
    requires |image| >= 4 && header == MAGIC && image[..4] == Zeros(4)
    ensures var torn := Torn(image, Write(0, header), landed);
      torn == Stored(image, Write(0, header)) || !HeaderValid(torn)
  {
    var torn := Torn(image, Write(0, header), landed);
    if HeaderValid(torn) {
      assert image[0] == image[..4][0] && image[1] == image[..4][1] && image[2] == image[..4][2]
        && image[3] == image[..4][3];
      assert torn[0] == torn[..4][0] && torn[1] == torn[..4][1] && torn[2] == torn[..4][2] && torn[3] == torn[..4][3];
      assert 0 in landed && 1 in landed && 2 in landed && 3 in landed;
      assert torn == Stored(image, Write(0, header));
    }
  }

  lemma TornElsewhere(image: bytes, w: Write, landed: set<nat>)
    requires Fits(image, w) && w.offset >= 4 && |image| >= 4 && image[..4] == Zeros(4)
    ensures !HeaderValid(Torn(image, w, landed))
  {
    var torn := Torn(image, w, landed);
    assert torn[..4][0] == torn[0] == image[0] == image[..4][0] == 0;
    assert MAGIC[0] == 0xBA;
  }

  lemma TornKeepsFooter(image: bytes, w: Write, landed: set<nat>, limit: nat)
    requires Fits(image, w) && w.offset + |w.data| <= limit <= |image|
    ensures Torn(image, w, landed)[limit..] == image[limit..]
  {
  }

  lemma {:induction false} StoredKeepFooter(image: bytes, ws: seq<Write>, limit: nat)
    requires AllFit(image, ws) && limit <= |image| && forall w :: w in ws ==> w.offset + |w.data| <= limit
    ensures AllStored(image, ws)[limit..] == image[limit..]
    decreases |ws|
  {
    hide Stored;
    if ws != [] {
      var front, w := ws[..|ws| - 1], ws[|ws| - 1];
      assert w in ws && forall v :: v in front ==> v in ws;
      StoredKeepFooter(image, front, limit);
      StoredBefore(AllStored(image, front), w, limit);
    }
  }

  lemma StoredBefore(image: bytes, w: Write, limit: nat)
    requires Fits(image, w) && w.offset + |w.data| <= limit <= |image|
    ensures Stored(image, w)[limit..] == image[limit..]
  {
  }

  /** Any image that starts with the new prefix parses to exactly the new records. */
  lemma CommittedParses(image: bytes, size: nat, old': Storage, records: seq<Record>, prefix: bytes)
    requires ParsedStorage(image, size) == Some(old') && EncodedPrefix(records, size) == Some(prefix)
    ensures 6 <= |prefix| <= 4 + size && old'.usedBytes <= 4 + size <= |image|
    ensures ParsedStorage(Committed(image, prefix, old'.usedBytes), size)
         == Some(Storage(records, |prefix|, 4 + size - |prefix|, old'.footerValid))
  {
    hide ReadRecords, RecordsBytes, Storable;
    EncodeOfParse(image, size, old');
    NoRecordBytes();
    var done := Committed(image, prefix, old'.usedBytes);
    assert done[..|prefix|] == prefix;
    assert done[4 + size..8 + size] == image[4 + size..8 + size];
    ParseOfEncode(records, size, done);
  }

  /**
   * Main result: wherever the update is cut, and whichever bytes of the current write landed, the device holds the
   * untouched old image, or one whose header magic is invalid, or one that parses to exactly the new records. The
   * bytes from the footer on are never changed.
   */
  lemma CommitIsAtomic(image: bytes, size: nat, old': Storage, records: seq<Record>, prefix: bytes, k: nat,
                       landed: set<nat>)
    requires ParsedStorage(image, size) == Some(old') && EncodedPrefix(records, size) == Some(prefix)
    requires k < |CommitWrites(prefix, old'.usedBytes)|
    ensures var ws := CommitWrites(prefix, old'.usedBytes);
      && AllFit(image, ws)
      && (forall w :: w in ws ==> w.offset + |w.data| <= 4 + size)
      && var cut := Interrupted(image, ws, k, landed);
      && cut[4 + size..] == image[4 + size..]
      && (|| cut == image
          || (!HeaderValid(cut) && ParsedStorage(cut, size) == None)
          || ParsedStorage(cut, size) == Some(Storage(records, |prefix|, 4 + size - |prefix|, old'.footerValid)))
  {
    hide ParsedStorage, AllStored, Stored, Torn, Unsealed, Committed, EncodedPrefix, CommitWrites, HeaderValid, Zeros,
         AllFit, Fits;
    var used := old'.usedBytes;
    CommittedParses(image, size, old', records, prefix);
    var ws := CommitWrites(prefix, used);
    WritesFit(image, prefix, used, 4 + size);
    Stages(image, prefix, used);
    WriteList(prefix, used);
    FrontFits(image, ws, k);
    var before := AllStored(image, ws[..k]);
    var cut := Torn(before, ws[k], landed);
    NotHeaderNotParsed(cut, size);
    assert forall w :: w in ws[..k] ==> w in ws;
    StoredKeepFooter(image, ws[..k], 4 + size);
    assert ws[k] in ws;
    TornKeepsFooter(before, ws[k], landed, 4 + size);
    if k == 0 {
      TornHeaderIsInvalid(image, landed);
    } else if k == |ws| - 1 {
      UnsealedHeader(image, prefix, used);
      assert prefix[..4] == MAGIC by { PrefixMagic(records, size, prefix); }
      TornSeal(before, prefix[..4], landed);
      Seal(image, prefix, used);
    } else {
      if k == 2 {
        AllStoredStep(image, ws, 1);
        StoredHeader(Zeros(4) + image[4..], ws[1]);
      }
      assert before[..4] == Zeros(4) by {
        BlankHeader(image[4..]);
        BlankHeader(prefix[4..] + image[|prefix|..]);
        assert Zeros(4) + prefix[4..] + image[|prefix|..] == Zeros(4) + (prefix[4..] + image[|prefix|..]);
      }
      TornElsewhere(before, ws[k], landed);
    }
  }

  lemma FrontFits(image: bytes, ws: seq<Write>, k: nat)
    requires AllFit(image, ws) && k < |ws|
    ensures AllFit(image, ws[..k]) && Fits(image, ws[k])
    ensures forall other :: |other| == |image| ==> Fits(other, ws[k])
  {
  }

  lemma NotHeaderNotParsed(image: bytes, size: nat)
    ensures !HeaderValid(image) ==> ParsedStorage(image, size) == None
  {
  }

  lemma PrefixMagic(records: seq<Record>, size: nat, prefix: bytes)
    requires EncodedPrefix(records, size) == Some(prefix)
    ensures |prefix| >= 6 && prefix[..4] == MAGIC
  {
  }

  lemma UnsealedHeader(image: bytes, prefix: bytes, previousUsed: nat)
    requires 6 <= |prefix| <= |image| && previousUsed <= |image|
    ensures Unsealed(image, prefix, previousUsed)[..4] == Zeros(4)
  {
  }

  lemma BlankHeader(rest: bytes)
    ensures (Zeros(4) + rest)[..4] == Zeros(4)
  {
  }

  lemma StoredHeader(image: bytes, w: Write)
    requires Fits(image, w) && w.offset >= 4 && |image| >= 4
    ensures Stored(image, w)[..4] == image[..4]
  {
  }

  // ----- whole runs -----

  /** One successful edit, from device image to device image. */
  function Step(image: bytes, size: nat, op: Op): Option<bytes>
  {
    match ParsedStorage(image, size)
    case None => None
    case Some(p) =>
      if !p.footerValid || !AllValid(p.records) then None
      else
        match Apply(p.records, op)
        case None => None
        case Some(rs) =>
          match EncodedPrefix(rs, size)
          case None => None
          case Some(prefix) =>
            CommittedParses(image, size, p, rs, prefix);
            Some(Committed(image, prefix, p.usedBytes))
  }

  function Run(image: bytes, size: nat, ops: seq<Op>): Option<bytes>
    decreases |ops|
  {
    if ops == [] then Some(image)
    else
      match Step(image, size, ops[0])
      case None => None
      case Some(next) => Run(next, size, ops[1..])
  }

  function AllTouched(ops: seq<Op>): set<bytes>
  {
    if ops == [] then {} else Touched(ops[0]) + AllTouched(ops[1..])
  }

  predicate FreeIsZero(image: bytes, size: nat, used: nat)
    requires used <= 4 + size <= |image|
  {
    forall i :: used <= i < 4 + size ==> image[i] == 0
  }

  lemma StepKeeps(image: bytes, size: nat, op: Op, p: Storage, next: bytes)
    requires ParsedStorage(image, size) == Some(p) && Step(image, size, op) == Some(next)
    ensures ParsedStorage(next, size).Some? && |next| == |image| && p.usedBytes <= 4 + size <= |image|
    ensures var q := ParsedStorage(next, size).value;
      && q.footerValid && q.usedBytes + q.freeBytes == 4 + size
      && Apply(p.records, op) == Some(q.records)
      && (FreeIsZero(image, size, p.usedBytes) ==> FreeIsZero(next, size, q.usedBytes))
      && next[4 + size..] == image[4 + size..]
  {
    hide ParsedStorage, EncodedPrefix, Apply, ValidRecord, Prefix;
    var rs := Apply(p.records, op).value;
    var prefix := EncodedPrefix(rs, size).value;
    CommittedParses(image, size, p, rs, prefix);
    FreeStaysZero(image, size, prefix, p.usedBytes);
  }

  lemma FreeStaysZero(image: bytes, size: nat, prefix: bytes, used: nat)
    requires 6 <= |prefix| <= 4 + size <= |image| && used <= 4 + size
    ensures FreeIsZero(image, size, used) ==> FreeIsZero(Committed(image, prefix, used), size, |prefix|)
    ensures Committed(image, prefix, used)[4 + size..] == image[4 + size..]
  {
    var done := Committed(image, prefix, used);
    if FreeIsZero(image, size, used) {
      forall i | |prefix| <= i < 4 + size ensures done[i] == 0 {
        if used > |prefix| {
          assert i < used ==> done[i] == Zeros(used - |prefix|)[i - |prefix|];
          assert i >= used ==> done[i] == image[i];
        } else {
          assert done[i] == image[i];
        }
      }
    }
  }

  predicate RenamesDotPy(op: Op)
  {
    op.Rename? && TargetKey(op.oldName) == DOT_PY
  }

  /** The renaming that makes an invalid record: of a record literally named ".py" whose data is not a script. */
  predicate BreaksValidity(rs: seq<Record>, op: Op)
  {
    && RenamesDotPy(op)
    && var i := IndexOfKey(rs, DOT_PY); !(i < |rs| && WellFormedScript(rs[i].data))
  }

  /**
   * Over any run of successful edits: the image stays parsable with a valid footer and the same tail, case-insensitive
   * key uniqueness is kept, the records no operation touches keep their bytes and relative order, the space accounts
   * add up, an all-zero free area stays all-zero, and all records stay valid unless the last edit renames ".py".
   */
  lemma {:induction false} RunKeeps(image: bytes, size: nat, ops: seq<Op>, p: Storage, last: bytes)
    requires ParsedStorage(image, size) == Some(p) && p.footerValid && Run(image, size, ops) == Some(last)
    decreases |ops|
    ensures ParsedStorage(last, size).Some? && |last| == |image| && p.usedBytes <= 4 + size <= |image|
    ensures var q := ParsedStorage(last, size).value;
      && q.footerValid && q.usedBytes + q.freeBytes == 4 + size
      && (UniqueKeys(p.records) ==> UniqueKeys(q.records))
      && (forall keys :: AllTouched(ops) <= keys ==> Without(q.records, keys) == Without(p.records, keys))
      && (FreeIsZero(image, size, p.usedBytes) ==> FreeIsZero(last, size, q.usedBytes))
      && last[4 + size..] == image[4 + size..]
      && (AllValid(p.records) && (ops == [] || !RenamesDotPy(ops[|ops| - 1])) ==> AllValid(q.records))
  {
    hide ParsedStorage, Apply, Step, Without, UniqueKeys, Touched, FreeIsZero, AllValid, TargetKey;
    ParsedSize(image, size, p);
    if ops != [] {
      RunValidity(image, size, ops, last);
      var next := Step(image, size, ops[0]).value;
      StepKeeps(image, size, ops[0], p, next);
      var q := ParsedStorage(next, size).value;
      ApplyKeeps(p.records, ops[0], q.records);
      RunKeeps(next, size, ops[1..], q, last);
    }
  }

  lemma ParsedSize(image: bytes, size: nat, p: Storage)
    requires ParsedStorage(image, size) == Some(p)
    ensures p.usedBytes <= 4 + size <= |image| && p.usedBytes + p.freeBytes == 4 + size
  {
    hide ReadRecords, RecordsBytes;
    ReadRecordsSound(RegionOf(image, size));
  }

  /**
   * The commit guards keep holding: after a successful edit every record is valid, except when the edit renames a
   * record literally named ".py" whose data is not a script; after that one no further edit is possible.
   */
  lemma GuardsKeepHolding(image: bytes, size: nat, op: Op, p: Storage, next: bytes)
    requires ParsedStorage(image, size) == Some(p) && Step(image, size, op) == Some(next)
    ensures ParsedStorage(next, size).Some?
    ensures var q := ParsedStorage(next, size).value;
      && (AllValid(q.records) <==> !BreaksValidity(p.records, op))
      && (!AllValid(q.records) ==> forall more :: Step(next, size, more) == None)
  {
    hide ParsedStorage, ValidRecord, WellFormedScript, TargetKey, Key, ScriptKey, EncodedPrefix;
    StepKeeps(image, size, op, p, next);
    var q := ParsedStorage(next, size).value;
    ApplyKeeps(p.records, op, q.records);
    if op.Rename? {
      RenameValidity(p.records, op.oldName, op.newName, q.records);
    }
  }

  /**
   * Validity over whole runs: after a run of successful edits every record is valid if and only if the last edit is not
   * the breaking renaming. (No edit before the last can be one: the guards would have refused the next.)
   */
  lemma {:induction false} RunValidity(image: bytes, size: nat, ops: seq<Op>, last: bytes)
    requires ops != [] && Run(image, size, ops) == Some(last)
    ensures var before := Run(image, size, ops[..|ops| - 1]);
      && before.Some? && ParsedStorage(before.value, size).Some? && ParsedStorage(last, size).Some?
      && AllValid(ParsedStorage(before.value, size).value.records)
      && (AllValid(ParsedStorage(last, size).value.records) <==>
            !BreaksValidity(ParsedStorage(before.value, size).value.records, ops[|ops| - 1]))
    decreases |ops|
  {
    hide ParsedStorage, Apply, AllValid, BreaksValidity, EncodedPrefix, Committed;
    var p, next := ParsedStorage(image, size).value, Step(image, size, ops[0]).value;
    if |ops| == 1 {
      assert ops[1..] == [] && ops[..0] == [];
      GuardsKeepHolding(image, size, ops[0], p, next);
    } else {
      RunValidity(next, size, ops[1..], last);
      var front := ops[..|ops| - 1];
      assert front[1..] == ops[1..][..|ops| - 2] && front[0] == ops[0];
      assert Run(image, size, front) == Run(next, size, front[1..]);
    }
  }

  /** A store that holds a nameless record cannot be edited: the record outlives every edit, and never encodes. */
  lemma NamelessIsStuck(image: bytes, size: nat, p: Storage, r: Record, op: Op)
    requires ParsedStorage(image, size) == Some(p) && r in p.records && r.name == []
    ensures Step(image, size, op) == None
  {
    hide ParsedStorage, Apply, Prefix, Touched, Storable, AllValid, Committed;
    if Apply(p.records, op).Some? {
      var after := Apply(p.records, op).value;
      assert Key(r) == [];
      TouchedIsNamed(op);
      UntouchedStays(p.records, op, after, r);
      var i :| 0 <= i < |after| && after[i] == r;
    }
  }

  // ----- images the device can hold -----

  /** An image with a zero free area and a valid footer. */
  function FreshImage(rs: seq<Record>, size: nat): (image: bytes)
    requires |Prefix(rs)| <= 4 + size
    ensures |image| == size + 8
  {
    Prefix(rs) + Zeros(4 + size - |Prefix(rs)|) + MAGIC
  }

  lemma FreshImageParses(rs: seq<Record>, size: nat)
    requires StorageSizeOk(size) && AllStorable(rs) && |Prefix(rs)| <= 4 + size
    ensures ParsedStorage(FreshImage(rs, size), size)
         == Some(Storage(rs, |Prefix(rs)|, 4 + size - |Prefix(rs)|, true))
  {
    hide Prefix, ParsedStorage, Storable, Zeros;
    var image := FreshImage(rs, size);
    assert image[..|Prefix(rs)|] == Prefix(rs);
    assert image[4 + size..8 + size] == MAGIC;
    ParseOfPrefix(rs, size, image);
  }

  const NAMELESS := Record([], [7])
  const ONLY_DOT_PY := Record(DOT_PY, [7])
  const NAME_A: bytes := [0x61]

  lemma OneRecord(r: Record)
    requires |r.name| + |r.data| <= 11
    ensures |Prefix([r])| <= 20
  {
    OneRecordBytes(r);
  }

  /** A valid image whose only record has an empty name: it passes every guard, and no edit of it succeeds. */
  lemma NamelessImageIsStuck()
    ensures |Prefix([NAMELESS])| <= 4 + 16
    ensures var image := FreshImage([NAMELESS], 16);
      && ParsedStorage(image, 16).Some? && ParsedStorage(image, 16).value.footerValid
      && AllValid(ParsedStorage(image, 16).value.records)
      && forall op :: Step(image, 16, op) == None
  {
    hide Prefix, ParsedStorage, Step, FreshImage;
    OneRecord(NAMELESS);
    FreshImageParses([NAMELESS], 16);
    var image := FreshImage([NAMELESS], 16);
    var p := ParsedStorage(image, 16).value;
    forall op ensures Step(image, 16, op) == None {
      NamelessIsStuck(image, 16, p, NAMELESS, op);
    }
  }

  /** The breaking renaming, performed: ".py" over one byte becomes "a.py", and no edit succeeds any more. */
  lemma DotPyImageBreaks()
    ensures |Prefix([ONLY_DOT_PY])| <= 4 + 16
    ensures var image, op := FreshImage([ONLY_DOT_PY], 16), Rename(DOT_PY, NAME_A);
      && ParsedStorage(image, 16).Some? && AllValid(ParsedStorage(image, 16).value.records)
      && Step(image, 16, op).Some?
      && var next := Step(image, 16, op).value;
      && ParsedStorage(next, 16).Some? && ParsedStorage(next, 16).value.records == [Record(NAME_A + DOT_PY, [7])]
      && !AllValid(ParsedStorage(next, 16).value.records)
      && forall more :: Step(next, 16, more) == None
  {
    hide Prefix, ParsedStorage, FreshImage, AllValid, Step, Apply, BreaksValidity, EncodedPrefix, Storable;
    OneRecord(ONLY_DOT_PY);
    DotPyIsValid();
    DotPyRenamed();
    DotPyParsed();
    RenamedEncodes();
    var image := FreshImage([ONLY_DOT_PY], 16);
    var after := [Record(NAME_A + DOT_PY, [7])];
    StepGives(image, 16, Rename(DOT_PY, NAME_A), ParsedStorage(image, 16).value, after);
  }

  lemma DotPyParsed()
    ensures |Prefix([ONLY_DOT_PY])| <= 4 + 16
    ensures var r := ParsedStorage(FreshImage([ONLY_DOT_PY], 16), 16);
      r.Some? && r.value.footerValid && r.value.records == [ONLY_DOT_PY]
  {
    hide Prefix, ParsedStorage, FreshImage;
    OneRecord(ONLY_DOT_PY);
    FreshImageParses([ONLY_DOT_PY], 16);
  }

  lemma RenamedEncodes()
    ensures EncodedPrefix([Record(NAME_A + DOT_PY, [7])], 16).Some?
  {
    hide Prefix, EncodedPrefix;
    OneRecord(Record(NAME_A + DOT_PY, [7]));
    OneRecordEncodes(Record(NAME_A + DOT_PY, [7]));
  }

  lemma OneRecordEncodes(r: Record)
    requires r.name != [] && Storable(r) && |Prefix([r])| <= 20
    ensures EncodedPrefix([r], 16).Some?
  {
    hide Storable, Prefix;
  }

  lemma StepSucceeds(image: bytes, size: nat, op: Op, p: Storage, after: seq<Record>)
    requires ParsedStorage(image, size) == Some(p) && p.footerValid && AllValid(p.records)
    requires Apply(p.records, op) == Some(after) && EncodedPrefix(after, size).Some?
    ensures Step(image, size, op).Some?
  {
    hide ParsedStorage, Apply, AllValid, EncodedPrefix, Committed;
  }

  lemma StepGives(image: bytes, size: nat, op: Op, p: Storage, after: seq<Record>)
    requires ParsedStorage(image, size) == Some(p) && p.footerValid && AllValid(p.records)
    requires Apply(p.records, op) == Some(after) && EncodedPrefix(after, size).Some?
    ensures Step(image, size, op).Some?
    ensures var next := Step(image, size, op).value;
      && ParsedStorage(next, size).Some? && ParsedStorage(next, size).value.records == after
      && (AllValid(after) <==> !BreaksValidity(p.records, op))
      && (!AllValid(after) ==> forall more :: Step(next, size, more) == None)
  {
    hide ParsedStorage, Apply, AllValid, EncodedPrefix, Step, BreaksValidity;
    StepSucceeds(image, size, op, p, after);
    var next := Step(image, size, op).value;
    StepKeeps(image, size, op, p, next);
    GuardsKeepHolding(image, size, op, p, next);
  }

  lemma DotPyIsValid()
    ensures AllValid([ONLY_DOT_PY]) && TargetKey(DOT_PY) == DOT_PY && Key(ONLY_DOT_PY) == DOT_PY
  {
    hide Lower, StripPy, TypeOf;
    LowerPy();
    LowerNothing();
    DotPyStripped();
    DotPyHasNoType();
    assert [] + DOT_PY == DOT_PY;
  }

  lemma LowerNothing()
    ensures Lower([]) == []
  {
  }

  lemma DotPyStripped()
    ensures StripPy(DOT_PY) == []
  {
    hide Lower;
    LowerPy();
    assert DOT_PY[|DOT_PY| - 3..] == DOT_PY;
  }

  lemma DotPyHasNoType()
    ensures TypeOf(DOT_PY) == []
  {
    hide LastDot;
    LastDotAt(DOT_PY, 0);
  }

  lemma DotPyRenamed()
    ensures Apply([ONLY_DOT_PY], Rename(DOT_PY, NAME_A)) == Some([Record(NAME_A + DOT_PY, [7])])
    ensures BreaksValidity([ONLY_DOT_PY], Rename(DOT_PY, NAME_A))
  {
    hide NormalizeScriptName, TargetKey, Key;
    DotPyIsValid();
    NormalIsFixed(NAME_A);
    assert IndexOfKey([ONLY_DOT_PY], DOT_PY) == 0;
    var renamed := Record(NAME_A + DOT_PY, [7]);
    assert ScriptKey(NAME_A) == NAME_A + DOT_PY;
    assert [ONLY_DOT_PY][0 := renamed] == [renamed];
    assert Apply([ONLY_DOT_PY], Rename(DOT_PY, NAME_A)) == RenameRecord([ONLY_DOT_PY], DOT_PY, NAME_A);
  }
}

/**
 * The NumWorks backend over device RAM (webtilp/numworks_backend.js:140-191, 254-363,
 * webtilp/numworks_transport.js:123-173, 230-245).
 */
module NwBackend {
  import opened Bytes
  import opened NwStorage
  import opened NwScripts
  import opened NwCommit

  /** `isRamWriteRange` */
  predicate RamWriteRange(address: int, length: int)
  {
    && length >= 0 && address + length <= TWO_32
    && ((0x2000_0000 <= address && address + length <= 0x2004_0000)
      || (0x2400_0000 <= address && address + length <= 0x2404_0000))
  }

  datatype PlatformInfo = PlatformInfo(storageAddress: int, storageSize: nat, headerIntegrity: bool)

  /** `validateStorageLocation` */
  predicate LocationOk(info: PlatformInfo)
  {
    StorageSizeOk(info.storageSize) && RamWriteRange(info.storageAddress, info.storageSize + 8)
  }

  /**
   * What goes wrong during one commit: a write is cut after some of its bytes landed, or the DFU alternate setting
   * cannot be selected before the writes or restored after them.
   */
  datatype Fault = NoFault | Cut(write: nat, landed: set<nat>) | SelectFails | RestoreFails

  /** What the device holds after an update that met `fault`. */
  ghost function Outcome(image: bytes, prefix: bytes, previousUsed: nat, fault: Fault): (r: bytes)
    requires 6 <= |prefix| <= |image| && previousUsed <= |image|
  {
    var ws := CommitWrites(prefix, previousUsed);
    WritesFit(image, prefix, previousUsed, |image|);
    match fault
    case SelectFails => image
    case Cut(k, landed) =>
      if k < |ws| then Interrupted(image, ws, k, landed) else Committed(image, prefix, previousUsed)
    case _ => Committed(image, prefix, previousUsed)
  }

  /**
   * The promise of the update: after `CommitRecords`, whatever the fault, reading the device back gives the old image,
   * an invalid header, or exactly the new records.
   */
  lemma DeviceIsNeverMixed(image: bytes, size: nat, previous: Storage, records: seq<Record>, fault: Fault)
    requires ParsedStorage(image, size) == Some(previous)
    requires EncodedPrefix(records, size).Some?
    ensures var prefix := EncodedPrefix(records, size).value;
      && 6 <= |prefix| <= |image| && previous.usedBytes <= |image|
      && var after := Outcome(image, prefix, previous.usedBytes, fault);
      || after == image
      || (!HeaderValid(after) && ParsedStorage(after, size) == None)
      || (ParsedStorage(after, size).Some? && ParsedStorage(after, size).value.records == records)
  {
    hide ParsedStorage, EncodedPrefix, Committed, Interrupted, CommitWrites, HeaderValid;
    var prefix := EncodedPrefix(records, size).value;
    CommittedParses(image, size, previous, records, prefix);
    if fault.Cut? && fault.write < |CommitWrites(prefix, previous.usedBytes)| {
      CommitIsAtomic(image, size, previous, records, prefix, fault.write, fault.landed);
    }
  }

  class Backend {
    const mem: array<byte>
    const info: PlatformInfo
    const needsAlternate: bool
    var alternate: nat
    var storage: Option<Storage>
    var rawStorageImage: Option<bytes>
    var storageError: bool

    /** The cached storage, when there is one, is what the device holds. */
    ghost predicate Valid()
      reads this, mem
    {
      && mem.Length == TWO_32
      && (storage.Some? ==> LocationOk(info) && storage == ParsedStorage(Image(), info.storageSize))
    }

    /** The storage image on the device. */
    ghost function Image(): (r: bytes)
      reads mem
      requires mem.Length == TWO_32
      ensures LocationOk(info) ==> |r| == info.storageSize + 8
    {
      if LocationOk(info) then mem[info.storageAddress..info.storageAddress + info.storageSize + 8] else []
    }

    constructor (ram: array<byte>, platform: PlatformInfo, firmwareNeedsAlternate: bool)
      requires ram.Length == TWO_32
      ensures Valid() && mem == ram && info == platform && storage == None
    {
      mem, info, needsAlternate := ram, platform, firmwareNeedsAlternate;
      alternate, storage, rawStorageImage, storageError := 0, None, None, false;
    }

    method Refresh(allowInvalidStorage: bool) returns (ok: bool)
      requires Valid()
      modifies this
      ensures Valid() && alternate == old(alternate)
      ensures !LocationOk(info) ==> !ok && storage == old(storage)
      ensures LocationOk(info) ==>
        && rawStorageImage == Some(Image()) && storage == ParsedStorage(Image(), info.storageSize)
        && storageError == storage.None? && ok == (storage.Some? || allowInvalidStorage)
    {
      hide ParsedStorage;
      if !LocationOk(info) {
        return false;
      }
      var raw := mem[info.storageAddress..info.storageAddress + info.storageSize + 8];
      rawStorageImage := Some(raw);
      storage := ParseStorageImage(raw, info.storageSize);
      storageError := storage.None?;
      ok := storage.Some? || allowInvalidStorage;
    }

    /** `writeRam`; a fault leaves an arbitrary part of the data in RAM. */
    method WriteRam(address: int, data: bytes, cut: Option<set<nat>>) returns (ok: bool)
      requires mem.Length == TWO_32
      modifies mem
      ensures ok == (RamWriteRange(address, |data|) && cut.None?)
      ensures !RamWriteRange(address, |data|) ==> mem[..] == old(mem[..])
      ensures RamWriteRange(address, |data|) ==>
        forall i :: 0 <= i < mem.Length ==>
          mem[i] == if address <= i < address + |data| && (cut.Some? ==> i - address in cut.value)
                    then data[i - address] else old(mem[i])
    {
      if !RamWriteRange(address, |data|) {
        return false;
      }
      for k := 0 to |data|
        invariant forall i :: 0 <= i < mem.Length ==>
          mem[i] == if address <= i < address + k && (cut.Some? ==> i - address in cut.value)
                    then data[i - address] else old(mem[i])
      {
        if cut.None? || k in cut.value {
          mem[address + k] := data[k];
        }
      }
      ok := cut.None?;
    }

    /** One write of the update, seen on the storage image. */
    method WriteImage(w: Write, cut: Option<set<nat>>) returns (ok: bool)
      requires mem.Length == TWO_32 && LocationOk(info) && w.offset + |w.data| <= info.storageSize + 4
      modifies mem
      ensures ok == cut.None? && Fits(old(Image()), w)
      ensures Image() == match cut
                         case None => Stored(old(Image()), w)
                         case Some(landed) => Torn(old(Image()), w, landed)
      ensures OnlyStorage(old(mem[..]), mem[..])
    {
      hide Stored, Torn;
      var base := info.storageAddress;
      ok := WriteRam(base + w.offset, w.data, cut);
      WrittenImage(old(Image()), Image(), w, cut);
    }

    lemma WrittenImage(before: bytes, after: bytes, w: Write, cut: Option<set<nat>>)
      requires Fits(before, w) && |after| == |before|
      requires forall i :: 0 <= i < |after| ==>
        after[i] == if w.offset <= i < w.offset + |w.data| && (cut.Some? ==> i - w.offset in cut.value)
                    then w.data[i - w.offset] else before[i]
      ensures after == match cut case None => Stored(before, w) case Some(landed) => Torn(before, w, landed)
    {
    }

    /** Nothing outside the header, the records and the free area changes. */
    ghost predicate OnlyStorage(before: bytes, after: bytes)
    {
      && |before| == |after|
      && forall i :: 0 <= i < |before| && !(info.storageAddress <= i < info.storageAddress + info.storageSize + 4) ==>
           after[i] == before[i]
    }

    /** Write `k` of the update, cut if that is where the fault lies. */
    method WriteStep(w: Write, k: nat, fault: Fault, ghost image: bytes, ghost ws: seq<Write>) returns (ok: bool)
      requires mem.Length == TWO_32 && LocationOk(info) && w.offset + |w.data| <= info.storageSize + 4
      requires AllFit(image, ws) && k < |ws| && ws[k] == w && AllFit(image, ws[..k])
        && Image() == AllStored(image, ws[..k])
      modifies mem
      ensures ok == !(fault.Cut? && fault.write == k)
      ensures Image() == if ok then AllStored(image, ws[..k + 1]) else Interrupted(image, ws, k, fault.landed)
      ensures OnlyStorage(old(mem[..]), mem[..])
    {
      hide Stored, Torn;
      AllStoredStep(image, ws, k);
      var cut := if fault.Cut? && fault.write == k then Some(fault.landed) else None;
      ok := WriteImage(w, cut);
    }

    lemma OnlyStorageTransitive(a: bytes, b: bytes, c: bytes)
      requires OnlyStorage(a, b) && OnlyStorage(b, c)
      ensures OnlyStorage(a, c)
    {
    }

    /** The first three writes: header off, terminator, body. */
    method WriteFront(prefix: bytes, fault: Fault, ghost image: bytes, ghost ws: seq<Write>) returns (ok: bool)
      requires mem.Length == TWO_32 && LocationOk(info) && 6 <= |prefix| <= info.storageSize + 4
      requires AllFit(image, ws) && |ws| >= 4 && Image() == image
      requires ws[0] == Write(0, Zeros(4)) && ws[1] == Write(|prefix| - 2, prefix[|prefix| - 2..])
        && ws[2] == Write(4, prefix[4..])
      modifies mem
      ensures ok == !(fault.Cut? && fault.write < 3)
      ensures AllFit(image, ws[..3])
      ensures Image() == if ok then AllStored(image, ws[..3]) else Interrupted(image, ws, fault.write, fault.landed)
      ensures OnlyStorage(old(mem[..]), mem[..])
    {
      hide AllStored, AllFit, Interrupted, Fits, OnlyStorage, LocationOk, Zeros;
      Prefixes(image, ws);
      var invalidMagic := Zeros(4);
      ghost var before := mem[..];
      ok := WriteStep(Write(0, invalidMagic), 0, fault, image, ws);
      if !ok { return; }
      ghost var after := mem[..];
      ok := WriteStep(Write(|prefix| - 2, prefix[|prefix| - 2..]), 1, fault, image, ws);
      OnlyStorageTransitive(before, after, mem[..]);
      if !ok { return; }
      after := mem[..];
      ok := WriteStep(Write(4, prefix[4..]), 2, fault, image, ws);
      OnlyStorageTransitive(before, after, mem[..]);
    }

    /** The five writes of `commitRecords`. */
    method WriteAll(prefix: bytes, previousUsed: nat, fault: Fault) returns (ok: bool)
      requires mem.Length == TWO_32 && LocationOk(info)
      requires 6 <= |prefix| <= info.storageSize + 4 && previousUsed <= info.storageSize + 4 && !fault.SelectFails?
      modifies mem
      ensures Image() == Outcome(old(Image()), prefix, previousUsed, fault)
      ensures ok == !(fault.Cut? && fault.write < |CommitWrites(prefix, previousUsed)|)
      ensures OnlyStorage(old(mem[..]), mem[..])
    {
      hide CommitWrites, AllStored, Committed, AllFit, Interrupted, Fits, OnlyStorage, LocationOk, Zeros, Outcome;
      ghost var ws, image, before := CommitWrites(prefix, previousUsed), Image(), mem[..];
      OutcomeCases(image, prefix, previousUsed, fault);
      WriteList(prefix, previousUsed);
      Prefixes(image, ws);
      ok := WriteFront(prefix, fault, image, ws);
      if !ok { return; }
      var k, staleTailLength := 3, if previousUsed > |prefix| then previousUsed - |prefix| else 0;
      ghost var after := mem[..];
      if staleTailLength > 0 {
        ok := WriteStep(Write(|prefix|, Zeros(staleTailLength)), k, fault, image, ws);
        OnlyStorageTransitive(before, after, mem[..]);
        if !ok { return; }
        k := k + 1;
      }
      after := mem[..];
      ok := WriteStep(Write(0, prefix[..4]), k, fault, image, ws);
      OnlyStorageTransitive(before, after, mem[..]);
    }

    /** The guards of `commitRecords`, and its encoding step. */
    ghost predicate CanCommit(records: seq<Record>)
      reads this
    {
      && info.headerIntegrity && storage.Some? && storage.value.footerValid && AllValid(storage.value.records)
      && EncodedPrefix(records, info.storageSize).Some?
    }

    method CommitRecords(records: seq<Record>, fault: Fault) returns (ok: bool)
      requires Valid() && CanStrike(fault)
      modifies this, mem
      ensures Valid()
      ensures !old(CanCommit(records)) ==>
        !ok && mem[..] == old(mem[..]) && storage == old(storage) && alternate == old(alternate)
      ensures old(CanCommit(records)) ==>
        var size, prefix, previous :=
          info.storageSize, EncodedPrefix(records, info.storageSize).value, old(storage).value;
        && 6 <= |prefix| <= size + 4 && previous.usedBytes <= size + 4
        && Image() == Outcome(old(Image()), prefix, previous.usedBytes, fault)
        && (ok <==> fault.NoFault? || (fault.Cut? && fault.write >= |CommitWrites(prefix, previous.usedBytes)|))
        && (ok ==> storage == Some(Storage(records, |prefix|, 4 + size - |prefix|, true)))
        && (!ok ==> storage == None && storageError)
        && (!fault.RestoreFails? ==> alternate == old(alternate))
      ensures OnlyStorage(old(mem[..]), mem[..])
    {
      hide ParsedStorage, EncodedPrefix, ValidRecord, Committed, Interrupted, CommitWrites, AllFit, RamWriteRange;
      if !info.headerIntegrity || storage.None? || !storage.value.footerValid {
        return false;
      }
      for i := 0 to |storage.value.records|
        invariant forall k :: 0 <= k < i ==> ValidRecord(storage.value.records[k])
      {
        if !ValidRecord(storage.value.records[i]) {
          return false;
        }
      }
      var encoded := EncodeStoragePrefix(records, info.storageSize);
      if encoded.None? {
        return false;
      }
      var prefix, previousUsedBytes := encoded.value, storage.value.usedBytes;
      CommittedParses(Image(), info.storageSize, storage.value, records, prefix);
      var previousSetting := alternate;
      if needsAlternate && previousSetting != 1 {
        if fault.SelectFails? {
          storage, storageError := None, true;
          return false;
        }
        alternate := 1;
      }
      var written := WriteAll(prefix, previousUsedBytes, fault);
      var restored := true;
      if needsAlternate && previousSetting != 1 {
        if fault.RestoreFails? {
          restored := false;
        } else {
          alternate := previousSetting;
        }
      }
      if !written || !restored {
        storage, storageError := None, true;
        return false;
      }
      storage := None;
      ok := Refresh(false);
    }

    /** Loads the storage if it is not cached, as every edit does first. */
    method Load() returns (ok: bool)
      requires Valid()
      modifies this
      ensures Valid() && alternate == old(alternate)
      ensures old(storage).Some? ==> ok && storage == old(storage)
      ensures ok <==> storage.Some?
      ensures LocationOk(info) ==> storage == ParsedStorage(Image(), info.storageSize)
    {
      hide ParsedStorage;
      ok := true;
      if storage.None? {
        ok := Refresh(false);
      }
    }

    /** The fault can strike: an interface switch fails only where one is made. */
    ghost predicate CanStrike(fault: Fault)
      reads this
    {
      fault.SelectFails? || fault.RestoreFails? ==> needsAlternate && alternate != 1
    }

    /**
     * What an edit that meets `fault` leaves. Where `Step` is not defined on the device image, nothing; otherwise the
     * outcome of the update it stands for, with success exactly when no fault strikes, and then what `Step` says.
     */
    ghost predicate Edited(op: Op, before: bytes, after: bytes, ok: bool, fault: Fault)
    {
      var size := info.storageSize;
      if !(LocationOk(info) && info.headerIntegrity && Step(before, size, op).Some?) then !ok && after == before
      else
        var p := ParsedStorage(before, size).value;
        var prefix := EncodedPrefix(Apply(p.records, op).value, size).value;
        && 6 <= |prefix| <= |before| && p.usedBytes <= |before|
        && after == Outcome(before, prefix, p.usedBytes, fault)
        && (ok <==> fault.NoFault? || (fault.Cut? && fault.write >= |CommitWrites(prefix, p.usedBytes)|))
        && (ok ==> after == Step(before, size, op).value)
    }

    /** The device holds what it held, or an invalid header, or exactly the records of the finished edit. */
    ghost predicate NeverMixed(op: Op, before: bytes, after: bytes)
    {
      var size := info.storageSize;
      || after == before
      || (!HeaderValid(after) && ParsedStorage(after, size) == None)
      || (&& ParsedStorage(before, size).Some? && ParsedStorage(after, size).Some?
          && Apply(ParsedStorage(before, size).value.records, op) == Some(ParsedStorage(after, size).value.records))
    }

    lemma EditedIsNeverMixed(op: Op, before: bytes, after: bytes, ok: bool, fault: Fault)
      requires Edited(op, before, after, ok, fault)
      ensures NeverMixed(op, before, after)
    {
      hide ParsedStorage, EncodedPrefix, ValidRecord, Committed, Apply, Outcome, HeaderValid, CommitWrites;
      var size := info.storageSize;
      if LocationOk(info) && info.headerIntegrity && Step(before, size, op).Some? {
        var p := ParsedStorage(before, size).value;
        DeviceIsNeverMixed(before, size, p, Apply(p.records, op).value, fault);
      }
    }

    /** An edit that is not defined on the device image changes nothing. */
    lemma NotEdited(op: Op, image: bytes, fault: Fault)
      ensures !LocationOk(info) || Step(image, info.storageSize, op).None? ==> Edited(op, image, image, false, fault)
      ensures NeverMixed(op, image, image)
    {
      hide Step, LocationOk, Outcome, ParsedStorage;
    }

    method Commit(ghost op: Op, records: seq<Record>, fault: Fault) returns (ok: bool)
      requires Valid() && storage.Some? && Apply(storage.value.records, op) == Some(records) && CanStrike(fault)
      modifies this, mem
      ensures Valid() && Edited(op, old(Image()), Image(), ok, fault)
    {
      hide ParsedStorage, EncodedPrefix, ValidRecord, Committed, Apply, CommitWrites, Interrupted;
      ghost var p, image := storage.value, Image();
      ok := CommitRecords(records, fault);
    }

    method UpsertScripts(scripts: seq<Script>, fault: Fault) returns (ok: bool)
      requires Valid() && CanStrike(fault)
      modifies this, mem
      ensures Valid() && Edited(Upsert(scripts), old(Image()), Image(), ok, fault)
      ensures NeverMixed(Upsert(scripts), old(Image()), Image())
    {
      hide NeverMixed, Edited, ParsedStorage, Step, UpsertAll, MakePythonRecord, ScriptKey, Key, AutoImport;
      ok := Load();
      StepNeedsApply(Image(), info.storageSize, Upsert(scripts));
      NotEdited(Upsert(scripts), Image(), fault);
      if !ok { return; }
      var records, normalizedNames: set<bytes> := storage.value.records, {};
      assert scripts[0..] == scripts;
      for i := 0 to |scripts|
        invariant Valid() && storage.Some? && Image() == old(Image()) && alternate == old(alternate)
        invariant UpsertAll(storage.value.records, scripts, {}) == UpsertAll(records, scripts[i..], normalizedNames)
      {
        UpsertStep(records, scripts, i, normalizedNames);
        var script := scripts[i];
        var next := MakePythonRecord(script.name, script.code, script.autoImport != Some(false));
        if next.None? {
          return false;
        }
        var key := ScriptKey(script.name);
        if key in normalizedNames {
          return false;
        }
        normalizedNames := normalizedNames + {key};
        var index := FindKey(records, key);
        if index < |records| {
          if script.autoImport.None? {
            next := MakePythonRecord(script.name, script.code, AutoImport(records[index]));
          }
          records := records[index := next.value];
        } else {
          records := records + [next.value];
        }
      }
      UpsertDone(records, normalizedNames);
      assert scripts[|scripts|..] == [];
      ok := Commit(Upsert(scripts), records, fault);
      EditedIsNeverMixed(Upsert(scripts), old(Image()), Image(), ok, fault);
    }

    method FindKey(records: seq<Record>, key: bytes) returns (index: nat)
      ensures index == IndexOfKey(records, key)
    {
      hide Key;
      index := |records|;
      for i := 0 to |records|
        invariant index == |records| && forall k :: 0 <= k < i ==> Key(records[k]) != key
      {
        if Key(records[i]) == key {
          index := i;
          break;
        }
      }
    }

    method DeleteScripts(names: seq<bytes>, fault: Fault) returns (ok: bool)
      requires Valid() && CanStrike(fault)
      modifies this, mem
      ensures Valid() && Edited(Delete(names), old(Image()), Image(), ok, fault)
      ensures NeverMixed(Delete(names), old(Image()), Image())
    {
      hide NeverMixed, Edited, ParsedStorage, Step, TargetKey, Key;
      ok := Load();
      StepNeedsApply(Image(), info.storageSize, Delete(names));
      NotEdited(Delete(names), Image(), fault);
      if !ok { return; }
      var targets := TargetKeys(names);
      var source := storage.value.records;
      var records: seq<Record> := [];
      assert source[..0] == [] && source[..|source|] == source;
      for i := 0 to |source|
        invariant Valid() && storage.Some? && storage.value.records == source && Image() == old(Image())
          && alternate == old(alternate)
        invariant records == Without(source[..i], targets)
      {
        assert source[..i + 1] == source[..i] + [source[i]] && [source[i]][1..] == [];
        WithoutAppend(source[..i], [source[i]], targets);
        if Key(source[i]) !in targets {
          records := records + [source[i]];
        }
      }
      if |records| == |source| {
        return false;
      }
      ok := Commit(Delete(names), records, fault);
      EditedIsNeverMixed(Delete(names), old(Image()), Image(), ok, fault);
    }

    method RenameScript(oldName: bytes, newName: bytes, fault: Fault) returns (ok: bool)
      requires Valid() && CanStrike(fault)
      modifies this, mem
      ensures Valid() && Edited(Rename(oldName, newName), old(Image()), Image(), ok, fault)
      ensures NeverMixed(Rename(oldName, newName), old(Image()), Image())
    {
      hide NeverMixed, Edited, ParsedStorage, Step, TargetKey, ScriptKey, Key;
      ok := Load();
      StepNeedsApply(Image(), info.storageSize, Rename(oldName, newName));
      NotEdited(Rename(oldName, newName), Image(), fault);
      if !ok { return; }
      var oldKey, newKey := TargetKey(oldName), ScriptKey(newName);
      var records := storage.value.records;
      var index := FindKey(records, oldKey);
      if index == |records| {
        return false;
      }
      for candidate := 0 to |records|
        invariant Valid() && storage.Some? && storage.value.records == records && Image() == old(Image())
          && alternate == old(alternate)
        invariant forall k :: 0 <= k < candidate && k != index ==> Key(records[k]) != newKey
      {
        if candidate != index && Key(records[candidate]) == newKey {
          return false;
        }
      }
      records := records[index := records[index].(name := newKey)];
      ok := Commit(Rename(oldName, newName), records, fault);
      EditedIsNeverMixed(Rename(oldName, newName), old(Image()), Image(), ok, fault);
    }
  }

  lemma UpsertStep(rs: seq<Record>, scripts: seq<Script>, i: nat, seen: set<bytes>)
    requires i < |scripts|
    ensures var key, script := ScriptKey(scripts[i].name), scripts[i];
      var index := IndexOfKey(rs, key);
      var r :=
        if script.autoImport.None? && index < |rs| then
          MakePythonRecord(script.name, script.code, AutoImport(rs[index]))
               else MakePythonRecord(script.name, script.code, script.autoImport != Some(false));
      && (r.None? <==> !NulFree(script.code))
      && (MakePythonRecord(script.name, script.code, script.autoImport != Some(false)).None? <==> !NulFree(script.code))
      && UpsertAll(rs, scripts[i..], seen) ==
         if r.None? || key in seen then None
         else UpsertAll(if index < |rs| then rs[index := r.value] else rs + [r.value], scripts[i + 1..], seen + {key})
  {
    hide ScriptKey, AutoImport, NulFree, IndexOfKey;
    var rest := scripts[i..];
    assert rest[0] == scripts[i] && rest[1..] == scripts[i + 1..];
  }

  lemma OutcomeCases(image: bytes, prefix: bytes, previousUsed: nat, fault: Fault)
    requires 6 <= |prefix| <= |image| && previousUsed <= |image| && !fault.SelectFails?
    ensures var ws := CommitWrites(prefix, previousUsed);
      && AllFit(image, ws)
      && Outcome(image, prefix, previousUsed, fault)
         == if fault.Cut? && fault.write < |ws| then
              Interrupted(image, ws, fault.write, fault.landed)
            else
              AllStored(image, ws)
  {
    hide CommitWrites, Committed, Interrupted, AllStored;
    FullUpdate(image, prefix, previousUsed);
  }

  lemma StepNeedsApply(image: bytes, size: nat, op: Op)
    ensures ParsedStorage(image, size).None? ==> Step(image, size, op) == None
    ensures ParsedStorage(image, size).Some? && Apply(ParsedStorage(image, size).value.records, op).None? ==>
      Step(image, size, op) == None
  {
    hide ParsedStorage, Apply;
  }

  lemma Prefixes(image: bytes, ws: seq<Write>)
    requires AllFit(image, ws)
    ensures forall k :: 0 <= k <= |ws| ==> AllFit(image, ws[..k])
    ensures AllStored(image, ws[..0]) == image && ws[..|ws|] == ws
  {
    assert ws[..|ws|] == ws;
  }

  lemma UpsertDone(rs: seq<Record>, seen: set<bytes>)
    ensures UpsertAll(rs, [], seen) == Some(rs)
  {
  }
}

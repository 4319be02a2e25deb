# Verified model of WebTILP's byte formats and protocols

This project models, in Dafny, the parts of the repository that decide what ends up on a calculator: codecs that build
and take apart files, edits that rebuild them, the update protocol of the NumWorks script storage, and the gate that
serializes calls into the WebAssembly module. It states what those parts promise and proves it for all inputs, all runs
or all reachable states.

`dafny verify dfyconfig.toml` checks the whole project.

## How it is built

Code that changes things step by step is modelled by methods over arrays, objects and loops, and each such method is
proved against a function of its input or of the state before it. The theorems are lemmas about those functions.

- `Bytes.dfy`: byte strings, fixed-width integers, ASCII case folding, stores into buffers.
- HP Prime application container: `Utf.dfy` (strict UTF-8 and UTF-16LE), `HpContainer.dfy` (sections and the parser),
  `HpEdit.dfy` (batch replace or add), `HpAlgebra.dfy` (rename, delete), `HpProgram.dfy` (serialized programs,
  preparing for transfer), `HpPack.dfy` (the JavaScript packer against the C++ parser), `HpManifest.dfy` (the JavaScript
  manifest encoder against the C++ decoder). Main idea: `Layout` of a list of sections is the only way to be a
  container, so every edit is stated on lists.
- NumWorks: `NwStorage.dfy` (record store codec), `NwScripts.dfy` (names, records, upsert, delete and rename on record
  lists), `NwCommit.dfy` (the update as a sequence of writes that may be cut anywhere, runs of edits), `NwBackend.dfy`
  (the backend object over a RAM array), `NwMemoryMap.dfy` (reads the memory map allows).
- Asyncify call gate: `CallGate.dfy`, a transition system with any number of callers, and the object whose methods are
  the synchronous segments of the code.
- Squish and unsquish: `Squish.dfy` (builders and strippers as functions), `SquishRoundTrip.dfy` (the theorem),
  `SquishProgram.dfy` and `SquishCommands.dfy` (pointer-moving strippers, hex loops, buffer-filling builders).
- Wrap and deep unwrap: `WrapText.dfy`, `WrapEnvelope.dfy`, `WrapPython.dfy`, `WrapPicture.dfy`, over the buffer moves
  of `WrapBuffer.dfy`.
- TI-82/85 backups: `BackupVat.dfy`. HP Prime screenshots: `Png.dfy`, against sections 6.2 to 6.6 of RFC 2083.

## What the proofs found

Where a promise does not hold of the code for every input, the theorem is an if-and-only-if with the condition; where
the condition alone does not show that real inputs fail it, a witness lemma gives one.

- `prepare_for_send` is idempotent exactly when the extracted source does not itself begin with the four-byte magic;
  when it does, the second call fails (`HpProgram.PrepareIdempotent`; witness `HpProgram.SecondPrepareFails`).
- Renaming a resource and renaming it back restores the bytes exactly when the old name is not, ignoring ASCII case,
  one of the three core names; a container may hold such a resource, and then the way back is refused
  (`HpAlgebra.RenameBack`; witness `HpAlgebra.RenameBackRefused`).
- The JavaScript packer accepts file names with lone surrogates, which the C++ parser refuses; for all other folders
  the two agree (`HpPack.PackedParses`, `HpPack.FolderArrives`; witness `HpPack.LoneSurrogateRefused`).
- Renaming a NumWorks record literally named `.py` gives it the type `py` without looking at its data. If the data is not
  a script the storage then holds an invalid record, and the commit guards refuse every further edit
  (`NwScripts.RenameValidity`, `NwCommit.GuardsKeepHolding`, `NwCommit.RunValidity`; witness
  `NwCommit.DotPyImageBreaks`).
- `numworks_storage.js` parses records with empty names but never encodes them. Every edit keeps such a record, so no
  edit of an image that holds one succeeds (`NwCommit.NamelessIsStuck`; witness `NwCommit.NamelessImageIsStuck`).
- Unsquishing gives the code back exactly when the header is one the cascade takes off whole and no later pass mistakes
  the code for another header; TSE and MirageOS headers fail on models whose marker is not BB 6D, MirageOS also for an
  empty description and empty code, Ion and Venus for descriptions over 254 bytes
  (`SquishRoundTrip.UnsquishUndoesSquish`).
- TI-68k text round trips exactly when it has no NUL byte (`WrapText.UnwrapUndoesWrap`); custom variables exactly when
  they are not empty, and without an extension only below two bytes (`WrapEnvelope.OthRoundTrip`).
- Where memory segments overlap, the first in address order decides, so a readable range can be refused. A map allows
  exactly its readable ranges if and only if no readable byte at the edge of a segment has an unreadable first holder;
  disjoint maps are of this kind, and some overlapping ones (`NwMemoryMap.ReadableIsEnoughIff`; witness
  `NwMemoryMap.OverlapCanRefuse`).

## Model

| member | source | states |
|---|---|---|
| Utf.Utf8Accepted | webtilp/hp_prime_app.cpp:87-132 | the UTF-8 reader gives back the scalar values of any encoding made by the encoder of section 3 of RFC 3629 |
| Utf.Utf8Unique | webtilp/hp_prime_app.cpp:96-132 | bytes the UTF-8 reader accepts are the encoding of what it read: no overlong form, surrogate or out-of-range value gets through |
| Utf.Utf16Accepted | webtilp/hp_prime_app.cpp:57-85 | the UTF-16LE reader gives back the scalar values of any encoding of section 2.1 of RFC 2781 |
| Utf.Utf16Unique | webtilp/hp_prime_app.cpp:57-85 | bytes the UTF-16LE reader accepts are the encoding of what it read |
| Utf.TranscodingIsBijective | webtilp/hp_prime_app.cpp:57-147 | decoding turns a into b if and only if encoding turns b into a |
| Utf.AppendUtf8 | webtilp/hp_prime_app.cpp:38-55 | appends exactly the UTF-8 form of the code point, in the right one of four lengths |
| Utf.AppendUtf16 | webtilp/hp_prime_app.cpp:133-144 | appends exactly the UTF-16LE form, with a surrogate pair above FFFF |
| Utf.Judge | webtilp/hp_prime_app.cpp:99-132 | the lead-byte classes, the continuation bits and the range tests at the end accept exactly the byte patterns of the RFC 3629 grammar |
| Utf.ReadUtf16 | webtilp/hp_prime_app.cpp:65-81 | reads one scalar value and moves past its one or two units, or fails exactly where the grammar has no reading |
| Utf.ReadUtf8 | webtilp/hp_prime_app.cpp:97-132 | reads one scalar value and moves past its bytes, or fails exactly where the grammar has no reading |
| Utf.DecodeUtf16le | webtilp/hp_prime_app.cpp:57-85 | the loop computes the transcoding, and refuses exactly the ill-formed inputs |
| Utf.EncodeUtf16le | webtilp/hp_prime_app.cpp:87-147 | the loop computes the transcoding, and refuses exactly the ill-formed inputs |
| HpContainer.ValidResourceName | webtilp/hp_prime_app.cpp:159-182 | accepts exactly non-empty UTF-8 names other than "." and ".." without control bytes or separators, and returns their UTF-16LE form |
| HpContainer.EncodedName | webtilp/hp_prime_app.cpp:408-421 | the terminator search on an encoded valid name finds its end and nothing earlier, whatever follows |
| HpContainer.ContainerIff | webtilp/hp_prime_app.cpp:364-447 | bytes parse to a part list if and only if the list is well formed and the bytes are its layout |
| HpContainer.FindTerminator | webtilp/hp_prime_app.cpp:408-416 | index of the first aligned zero unit, or none |
| HpContainer.ReadResourcePart | webtilp/hp_prime_app.cpp:401-439 | the part read at an offset is the section the grammar reads there, with its exact offsets and sizes, or a failure exactly where there is none |
| HpContainer.Parse | webtilp/hp_prime_app.cpp:364-447 | the loops return the parts of the unique list whose layout the data is, in order, with offsets that tile the buffer, and fail otherwise |
| HpEdit.ValidateSource | webtilp/hp_prime_app.cpp:221-238 | true exactly when there are at least three parts and every section and payload lies inside the source |
| HpEdit.CheckUpdates | webtilp/hp_prime_app.cpp:490-529 | accepts exactly batches with valid, case-insensitively distinct names that are not reserved and whose size fits, and returns the encoded names |
| HpEdit.RebuildPart | webtilp/hp_prime_app.cpp:544-566 | appends the part's own section bytes, or its replacement under its original name, and fails exactly when that is too long |
| HpEdit.AppendUnused | webtilp/hp_prime_app.cpp:567-572 | appends a new resource for each update no part has used, in order |
| HpEdit.ReplaceOrAddResources | webtilp/hp_prime_app.cpp:481-574 | the loops with their `used` flags compute the edit the next rows characterise |
| HpEdit.AssembleMeans | webtilp/hp_prime_app.cpp:532-566 | rebuilding section by section yields exactly the layout of the edited list, or fails only when that list is not storable |
| HpEdit.RebuildMeans | webtilp/hp_prime_app.cpp:532-572 | the whole rebuilding of an accepted batch yields exactly the layout of the edited list, or fails only when that list is not storable or too long |
| HpEdit.ReplaceMeans | webtilp/hp_prime_app.cpp:481-574 | a successful batch edit of a parsed container parses again, to exactly the edited list; it succeeds whenever the batch is acceptable and that list fits |
| HpEdit.EditedMeaning | webtilp/hp_prime_app.cpp:532-572 | in the edited list every part keeps position, kind and name; matched parts carry the new data, parts no update names are unchanged, every update lands somewhere, and the old parts are followed by exactly the updates that name none of them, in batch order |
| HpEdit.EmptyBatchIsIdentity | webtilp/hp_prime_app.cpp:481-574 | an empty batch returns the input, byte for byte |
| HpAlgebra.HasDuplicateName | webtilp/hp_prime_app.cpp:240-251 | true exactly when another part carries the name, ignoring ASCII case |
| HpAlgebra.RenameResource | webtilp/hp_prime_app.cpp:576-614 | the loop computes the renaming the next row characterises |
| HpAlgebra.RenameMeans | webtilp/hp_prime_app.cpp:576-614 | renaming succeeds exactly when the index is a resource, the name is valid and free, and the result fits; parsing it shows one name changed and nothing else |
| HpAlgebra.DeleteResource | webtilp/hp_prime_app.cpp:616-640 | the loop computes the deletion the next row characterises |
| HpAlgebra.DeleteMeans | webtilp/hp_prime_app.cpp:616-640 | deletion succeeds exactly for resources; parsing the result shows that one part gone and nothing else changed |
| HpAlgebra.DeleteUndoesAdd | webtilp/hp_prime_app.cpp:481-574 | deleting a freshly added resource restores the original bytes |
| HpAlgebra.RenameBack | webtilp/hp_prime_app.cpp:576-614 | renaming back restores the original bytes if and only if the old name is no core name |
| HpAlgebra.RenameBackRefused | webtilp/hp_prime_app.cpp:576-614 | in the application "A", the resource "A.hpapp" can be renamed to "B", and the way back is refused |
| HpProgram.RecordsSound | webtilp/hp_prime_app.cpp:290-338 | bytes the nested length-prefixed readers accept are the serialization of the records they return |
| HpProgram.RecordsComplete | webtilp/hp_prime_app.cpp:290-338 | every serialization of well-formed records is read back |
| HpProgram.ProgramSourceMeans | webtilp/hp_prime_app.cpp:255-344 | a serialized program yields a source exactly when it is header plus well-formed records that make a program, and the source is the one source field's payload, NUL-terminated with no earlier NUL unit, or empty |
| HpProgram.IsSourceText | webtilp/hp_prime_app.cpp:321-328 | the three tests accept exactly texts of whole units with a single, final NUL unit |
| HpProgram.ScanFields | webtilp/hp_prime_app.cpp:313-333 | the field loop stays inside its unit and finds the unit's source, or fails exactly when the fields are malformed or a second source turns up |
| HpProgram.ScanUnits | webtilp/hp_prime_app.cpp:308-335 | the unit loop stays inside its record and finds the one source of the list, or fails |
| HpProgram.ProgramSourceLoop | webtilp/hp_prime_app.cpp:255-344 | the record loop returns what the record grammar says, for every input |
| HpProgram.SourceFits | webtilp/hp_prime_app.cpp:255-344 | the source is never longer than the program it came from |
| HpProgram.SourceIsNotMagic | webtilp/hp_prime_app.cpp:255-280 | a source that begins with the magic is not itself a readable serialized program |
| HpProgram.PrepareForSend | webtilp/hp_prime_app.cpp:346-362 | the rebuilt bytes are the container with its program payload replaced by the source |
| HpProgram.PrepareMeans | webtilp/hp_prime_app.cpp:346-362 | preparing a parsed container fails exactly when its program has no source, and otherwise changes the program section only |
| HpProgram.PrepareIdempotent | webtilp/hp_prime_app.cpp:346-362 | preparing twice is preparing once if and only if the source does not begin with the magic; otherwise the second call fails |
| HpProgram.SecondPrepareFails | webtilp/hp_prime_app.cpp:346-362 | a container whose program has the magic for its source can be prepared once and not twice |
| HpPack.SortIsPermutation | webtilp/app.js:7123 | sorting by name orders the files and keeps every one |
| HpPack.SizeIsExact | webtilp/app.js:7125-7126 | the size computed for the resources is the size of their sections |
| HpPack.SameKey | webtilp/app.js:7110-7118 | names the C++ parser calls duplicates differ only in ASCII case as JavaScript strings too |
| HpPack.FileNameIsResourceName | webtilp/app.js:7115-7116 | a well-formed file name the packer accepts is a resource name the C++ side accepts, and its encoding is what the packer writes |
| HpPack.FillUnits | webtilp/app.js:7143-7146 | writes the name's units little-endian, in place |
| HpPack.FillResource | webtilp/app.js:7140-7149 | writes one resource section, leaving the two zero bytes of the terminator |
| HpPack.FillContainer | webtilp/app.js:7129-7150 | the offset-driven fills write exactly the core and resource sections and end at the precomputed size |
| HpPack.PackDirectory | webtilp/app.js:7104-7154 | the whole packer, from a dropped folder to bytes, computes what the next two rows characterise |
| HpPack.PackedIsPackable | webtilp/app.js:7110-7128 | an accepted folder is complete: sorted, sized as announced, every file kept as a core or a resource, none invented |
| HpPack.PackedParses | webtilp/app.js:7119-7150 | the C++ parser accepts the packed bytes if and only if all resource names are well-formed UTF-16, and then yields every core (empty where missing) and every resource byte for byte |
| HpPack.FolderArrives | webtilp/app.js:7104-7154 | from a dropped folder to the parser: the packed bytes of an accepted folder parse if and only if the resource names are well-formed UTF-16, and then every file of the folder is among the parts, as the core part its name stands for or as a resource of its name |
| HpPack.LoneSurrogateRefused | webtilp/app.js:7110-7118 | a folder with a file named by a lone surrogate is packed, and the bytes are no container |
| HpManifest.ManifestIff | webtilp/hp_prime_bridge.cpp:879-912 | the bridge decodes a manifest to a batch exactly when the page would have encoded that batch to it, with 1 to 10000 non-empty names none of which is the descriptor's |
| HpManifest.EncodeManifest | webtilp/app.js:7437-7471 | the precomputed size is exact and the offset-driven fills write the manifest of the batch |
| HpManifest.AsciiCaseEqual | webtilp/hp_prime_bridge.cpp:386-401 | byte-wise comparison after folding is equality of the folded strings |
| HpManifest.ReadManifestU32 | webtilp/hp_prime_bridge.cpp:336-349 | reads a big-endian word and moves the offset, or fails with the offset unmoved |
| HpManifest.DecodeManifest | webtilp/hp_prime_bridge.cpp:879-912 | the loop yields what the manifest grammar says, telling a core name from a format error as the code does |
| NwStorage.ReadName | webtilp/numworks_storage.js:73-79 | finds the first NUL of a record, or its end |
| NwStorage.ParseStorageImage | webtilp/numworks_storage.js:45-119 | the loop returns the records of the unique reading of the image, with exact space accounts, or fails where there is none |
| NwStorage.ConcatBytes | webtilp/numworks_storage.js:33-43 | the fills join the chunks and leave zeros up to an announced total; a chunk that does not fit is an exception |
| NwStorage.EncodeRecord | webtilp/numworks_storage.js:132-144 | writes size, name, NUL and data of one record, in place |
| NwStorage.EncodeStoragePrefix | webtilp/numworks_storage.js:121-150 | returns magic, records and terminator, or fails exactly on an empty, NUL-holding or oversized record or when space runs out |
| NwStorage.ParseOfEncode | webtilp/numworks_storage.js:45-150 | parsing an encoded prefix followed by any bytes gives the same records, with used bytes equal to the prefix length |
| NwStorage.EncodeOfParse | webtilp/numworks_storage.js:45-150 | encoding the records of a parsed image fits and reproduces its used bytes, unless a name is empty; used plus free is 4 plus the size |
| NwScripts.NormalizeIsNormal | webtilp/numworks_storage.js:152-168 | a normalized name is an identifier of lower-case word bytes of bounded length with no double underscore run |
| NwScripts.NormalizeIdempotent | webtilp/numworks_storage.js:152-168 | normalizing a normalized name changes nothing |
| NwScripts.PythonRecordIsValid | webtilp/numworks_storage.js:170-192 | a record is made exactly from NUL-free code, and it is valid, a script with the auto-import flag asked for, and named by its own key |
| NwScripts.PythonRecordFits | webtilp/numworks_storage.js:170-192 | that record can be stored if and only if name and code leave its size below 65536; its name has 4 to 218 bytes |
| NwScripts.ApplyKeeps | webtilp/numworks_backend.js:302-363 | every edit keeps case-insensitive key uniqueness and leaves untouched records byte for byte in their order; upsert and delete keep validity |
| NwScripts.UntouchedStays | webtilp/numworks_backend.js:302-363 | a record whose key an edit does not name survives it |
| NwScripts.UpsertLands | webtilp/numworks_backend.js:302-326 | after an upsert every script is there under its key with its code, and its auto-import flag when one was given |
| NwScripts.DeleteMeans | webtilp/numworks_backend.js:331-342 | a deletion removes exactly the records whose key is named, and at least one |
| NwScripts.RenameValidity | webtilp/numworks_backend.js:346-360 | renaming changes that one name and keeps all records valid if and only if it does not turn a record named ".py" with other data into a script |
| NwCommit.CommitIsAtomic | webtilp/numworks_backend.js:265-293 | cut at any write after any subset of its bytes, the image is the old one, or has an invalid header, or parses to exactly the new records; every write ends before the footer, which never changes |
| NwCommit.CommittedParses | webtilp/numworks_backend.js:265-293 | the completed image parses to exactly the new records with the old footer state |
| NwCommit.FullUpdate | webtilp/numworks_backend.js:271-293 | the writes in their order, body before terminator before header, leave the new prefix, a zeroed stale tail and the rest as it was |
| NwCommit.StepKeeps | webtilp/numworks_backend.js:254-363 | one successful edit keeps the image parsable with a valid footer, exact accounts and a zero free area zero |
| NwCommit.RunKeeps | webtilp/numworks_backend.js:254-363 | over any run of successful edits: key uniqueness, untouched records in order, valid footer, used plus free, zero free area, bytes behind the footer; all records stay valid unless the last edit renames ".py" |
| NwCommit.RunValidity | webtilp/numworks_backend.js:254-363 | after a run of successful edits every record is valid if and only if the last edit is not the renaming of a record ".py" that holds no script |
| NwCommit.GuardsKeepHolding | webtilp/numworks_backend.js:254-263 | after a successful edit every record is valid except in the ".py" renaming case, after which no edit succeeds |
| NwCommit.NamelessIsStuck | webtilp/numworks_backend.js:254-363 | no edit of an image that holds a record with an empty name succeeds |
| NwCommit.NamelessImageIsStuck | webtilp/numworks_storage.js:73-90 | such an image: it parses, its footer and its records are valid, and no edit succeeds |
| NwCommit.DotPyImageBreaks | webtilp/numworks_backend.js:346-363 | a valid image with a record ".py" over one byte: renaming it succeeds, leaves an invalid record, and no edit succeeds after it |
| NwBackend.DeviceIsNeverMixed | webtilp/numworks_backend.js:254-300 | after a commit that met any fault, reading the device gives the old image, an invalid header, or exactly the new records |
| NwBackend.Backend.constructor | webtilp/numworks_backend.js:40-63 | a new backend has no cached storage, which is consistent with any device |
| NwBackend.Backend.Refresh | webtilp/numworks_backend.js:174-191 | caches exactly what the device holds, or refuses a location outside known RAM without reading it |
| NwBackend.Backend.WriteRam | webtilp/numworks_transport.js:230-245 | writes only inside the two RAM windows; a cut write changes exactly the bytes that landed |
| NwBackend.Backend.WriteImage | webtilp/numworks_backend.js:273-292 | one write changes the storage image as specified and no byte outside it |
| NwBackend.Backend.WriteAll | webtilp/numworks_backend.js:271-293 | the sequence of writes leaves the outcome of its fault, and nothing outside the storage changes |
| NwBackend.Backend.CommitRecords | webtilp/numworks_backend.js:254-300 | refuses without a write unless headers, footer, records and space are good; otherwise leaves the outcome of the fault, succeeds exactly when no fault strikes, drops the cache on failure and restores the alternate setting |
| NwBackend.Backend.Load | webtilp/numworks_backend.js:302-303 | uses the cached storage or reads it from the device |
| NwBackend.Backend.UpsertScripts | webtilp/numworks_backend.js:302-329 | whatever fault strikes: refuses without a write where the edit is not defined on the device image, succeeds exactly when it is and no fault strikes, and then performs it there; in every case the device holds the old image, an invalid header, or exactly the new records |
| NwBackend.Backend.FindKey | webtilp/numworks_backend.js:313 | index of the first record with the key, or the number of records |
| NwBackend.Backend.DeleteScripts | webtilp/numworks_backend.js:331-344 | whatever fault strikes: refuses without a write where the edit is not defined on the device image, succeeds exactly when it is and no fault strikes, and then performs it there; in every case the device holds the old image, an invalid header, or exactly the new records |
| NwBackend.Backend.RenameScript | webtilp/numworks_backend.js:346-363 | whatever fault strikes: refuses without a write where the edit is not defined on the device image, succeeds exactly when it is and no fault strikes, and then performs it there; in every case the device holds the old image, an invalid header, or exactly the new records |
| NwMemoryMap.SortedMeans | webtilp/numworks_transport.js:180 | the sorted copy is ascending and a permutation |
| NwMemoryMap.WalkIff | webtilp/numworks_transport.js:177-187 | the walk over the ordered segments goes through exactly when the first holder of every byte is readable |
| NwMemoryMap.AllowsReadIff | webtilp/numworks_transport.js:175-187 | for every map: a read is allowed exactly when it is not empty, ends at 4 GiB at most, and the first segment in address order that holds each of its bytes is readable; so an allowed read touches readable bytes only |
| NwMemoryMap.ReadableIsEnoughIff | webtilp/numworks_transport.js:175-187 | a map allows exactly the non-empty ranges of readable bytes below 4 GiB if and only if at every segment edge a readable byte has a readable first holder |
| NwMemoryMap.DisjointIsUnshadowed | webtilp/numworks_transport.js:175-187 | disjoint segments, in any order, meet that condition |
| NwMemoryMap.OverlapCanRefuse | webtilp/numworks_transport.js:180-185 | a map that does not: it refuses a readable byte |
| NwMemoryMap.OverlapCanBeExact | webtilp/numworks_transport.js:180-185 | a map with overlapping segments that does |
| NwMemoryMap.MemoryMapAllowsRead | webtilp/numworks_transport.js:175-187 | the cursor loop decides what the rows above characterise |
| CallGate.NextKeepsInv | webtilp/app.js:1452-1557 | every event of any caller keeps the gate's invariant |
| CallGate.GateIsSafe | webtilp/app.js:1473-1557 | in every reachable state at most one call is in flight, entries are in slot order, alive and in their caller's epoch, releases follow settling, and released slots are a prefix |
| CallGate.EntryIsExclusive | webtilp/app.js:1482-1504 | a call into the module, even one that throws, happens only with no earlier call in flight, the gate alive, the epoch current, and as the newest slot |
| CallGate.NothingEntersAfterDeath | webtilp/app.js:1305-1328 | death is permanent and freezes the entry log, over any run |
| CallGate.ReleaseHasACause | webtilp/app.js:1507-1513 | a slot is released only by its own settled call or, never having entered, by its predecessor's release |
| CallGate.TimeoutReleasesNothing | webtilp/app.js:1514-1534 | in every state of every run after a JavaScript-side timeout, the slot of the abandoned call is still in flight and no slot behind it is in flight or released, until that call settles |
| CallGate.InternalStepsAreBounded | webtilp/app.js:1473-1557 | every event but a new call, a cancellation or a retirement strictly decreases a measure |
| CallGate.CallersFinish | webtilp/app.js:1473-1557 | hence runs of such events are bounded by the measure at their start |
| CallGate.NoLostWakeUp | webtilp/app.js:1482-1513 | dead or alive, the owner of the lowest unreleased slot always has a step, which is its call's settling exactly when it is in flight |
| CallGate.QuiescenceIsCompletion | webtilp/app.js:1473-1557 | when no internal event is possible every slot is released and every caller answered |
| CallGate.DeathWakesEveryone | webtilp/app.js:1482-1484 | at any point of any run after death, every parked caller can leave at once, whatever is in flight, and none has entered meanwhile |
| CallGate.CallState.MarkDead | webtilp/app.js:1318-1324 | the module is dead afterwards |
| CallGate.CallState.Begin | webtilp/app.js:1462-1479 | refuses when dead, otherwise takes the slot behind the tail, as the transition says |
| CallGate.CallState.ResumeFromRace | webtilp/app.js:1482-1504 | from the race to the next await, as the transition says: leave, pause or enter |
| CallGate.CallState.ResumeFromPause | webtilp/app.js:1488-1504 | from the gap sleep to the next await, as the transition says: leave or enter |
| CallGate.CallState.OnSettled | webtilp/app.js:1505-1513 | a settled call is recorded and its slot released |
| CallGate.CallState.OnTimeout | webtilp/app.js:1514-1524 | the caller is answered and the call watched if still pending |
| CallGate.CallState.OnGraceExpired | webtilp/app.js:1353-1362 | the module dies if the abandoned call is still pending |
| CallGate.CallState.OnAnswer | webtilp/app.js:1519-1531 | the caller is answered; a fatal outcome in the current epoch kills the module |
| CallGate.CallState.OnPredecessorReleased | webtilp/app.js:1550-1556 | a slot that never entered forwards its predecessor's release |
| SquishRoundTrip.StripShortens | tifileutil/src/squish.cc:90-341 | every stripper that recognises its input takes at least one byte off it |
| SquishRoundTrip.CascadeShortens | tifileutil/src/squish.cc:1044-1077 | the whole cascade leaves its input alone exactly when no pass recognises it, and shortens it otherwise |
| SquishRoundTrip.Ti82Undone | tifileutil/src/squish.cc:90-115 | the TI-82 stripper undoes the TI-82 builder for every shell, name and code |
| SquishRoundTrip.IonUndone | tifileutil/src/squish.cc:121-140 | the Ion stripper undoes the Ion header exactly for descriptions of at most 254 bytes |
| SquishRoundTrip.VenusUndone | tifileutil/src/squish.cc:316-330 | the Venus branch takes magic and description off for descriptions of at most 254 bytes, only the magic otherwise |
| SquishRoundTrip.AshellUndone | tifileutil/src/squish.cc:282-312 | the ASHELL branch finds the title through its pointer and removes header and title |
| SquishRoundTrip.MallardUndone | tifileutil/src/squish.cc:144-156 | the Mallard stripper undoes the Mallard builder |
| SquishRoundTrip.NostubUndone | tifileutil/src/squish.cc:160-177 | the nostub stripper undoes the nostub builder up to 999 bytes and reports binary |
| SquishRoundTrip.NamedUndone | tifileutil/src/squish.cc:193-217 | the fixed-name strippers undo their builders for all four names |
| SquishRoundTrip.TseUndone | tifileutil/src/squish.cc:221-233 | the TSE stripper undoes the TSE header |
| SquishRoundTrip.MirageUndone | tifileutil/src/squish.cc:240-265 | the MirageOS stripper undoes the header exactly when description and code are not both empty |
| SquishRoundTrip.ForeignMarker | tifileutil/src/squish.cc:1044-1071 | a TSE or MirageOS program behind a marker its model does not use is recognised by no pass |
| SquishRoundTrip.HexOfUnHex | tifileutil/src/main.cc:116-145 | encoding what was decoded gives the text in upper case |
| SquishRoundTrip.HexInjective | tifileutil/src/main.cc:130-145 | hex encoding is injective |
| SquishRoundTrip.UnsquishUndoesSquish | tifileutil/src/squish.cc:591-863 | for every supported model and shell, squish then unsquish gives the upper-cased text if and only if the header comes off whole and no later pass recognises the code |
| SquishProgram.Cursor.Has | tifileutil/src/squish.cc:4-7 | prefix test on the window |
| SquishProgram.Cursor.FindNul | tifileutil/src/squish.cc:101-104 | offset of the first NUL of the window from a start, or its length |
| SquishProgram.Cursor.SkipLength | tifileutil/src/squish.cc:1037-1042 | moves past a length field that counts the rest or the whole, and past nothing else |
| SquishProgram.Cursor.StripTi82 | tifileutil/src/squish.cc:90-115 | leaves the view the specification gives; says whether it stripped |
| SquishProgram.Cursor.StripIon | tifileutil/src/squish.cc:121-140 | leaves the view the specification gives; says whether it stripped |
| SquishProgram.Cursor.StripMallard | tifileutil/src/squish.cc:144-156 | leaves the view the specification gives; says whether it stripped |
| SquishProgram.Cursor.StripNostub | tifileutil/src/squish.cc:160-177 | leaves the view the specification gives; reports the type byte |
| SquishProgram.Cursor.StripNamed | tifileutil/src/squish.cc:193-217 | leaves the view the specification gives; says whether it stripped |
| SquishProgram.Cursor.StripTse | tifileutil/src/squish.cc:221-233 | leaves the view the specification gives; says whether it stripped |
| SquishProgram.Cursor.StripPlus | tifileutil/src/squish.cc:240-265 | leaves the view the specification gives; says whether it stripped |
| SquishProgram.Cursor.RemoveTitle | tifileutil/src/squish.cc:298-310 | moves the bytes behind the title down over it, in place |
| SquishProgram.Cursor.StripTi83 | tifileutil/src/squish.cc:280-341 | leaves the view the specification gives; says whether it stripped |
| SquishProgram.Cursor.StripHeaders | tifileutil/src/squish.cc:1044-1077 | the sequence of calls is the cascade of passes of the model, and it tells hex text from binary |
| SquishCommands.EncodeHex | tifileutil/src/main.cc:130-145 | fills the buffer with the upper-case hex text |
| SquishCommands.DecodeHex | tifileutil/src/squish.cc:617-641 | decodes text of any case, and refuses exactly odd lengths and other characters |
| SquishCommands.BuildTi82 | tifileutil/src/squish.cc:649-665 | the writes at their offsets fill the buffer with length field, marker, name, NUL and code |
| SquishCommands.BuildIon | tifileutil/src/squish.cc:666-688 | the writes at their offsets fill the buffer with the Ion program |
| SquishCommands.BuildAshell | tifileutil/src/squish.cc:689-712 | the writes at their offsets fill the buffer, and the title pointer is the address of the title |
| SquishCommands.BuildVenus | tifileutil/src/squish.cc:713-731 | the writes at their offsets fill the buffer with the Venus program |
| SquishCommands.BuildMallard | tifileutil/src/squish.cc:732-753 | the writes at their offsets fill the buffer, with the entry point behind the header |
| SquishCommands.BuildNostub | tifileutil/src/squish.cc:754-781 | the writes at their offsets fill the buffer, with the size in three digits |
| SquishCommands.BuildNamed | tifileutil/src/squish.cc:782-806 | the writes at their offsets fill the buffer with prefix, fixed name, tail and code |
| SquishCommands.BuildTse | tifileutil/src/squish.cc:807-827 | the writes at their offsets fill the buffer with the TSE program |
| SquishCommands.BuildMirage | tifileutil/src/squish.cc:828-846 | the writes at their offsets fill the buffer with the MirageOS program |
| SquishCommands.BuildPlain | tifileutil/src/squish.cc:847-862 | the writes at their offsets fill the buffer with marker and code |
| SquishCommands.FindText | tifileutil/src/squish.cc:591-615 | moves the window to the hex text, and refuses exactly nostub programs that hold binary |
| SquishCommands.SquishData | tifileutil/src/squish.cc:591-866 | from the variable's data to the data written back, or an error, as the round-trip theorem assumes |
| SquishCommands.UnsquishData | tifileutil/src/squish.cc:1035-1120 | from the variable's data to the data written back, as the round-trip theorem assumes |
| WrapText.UnwrapUndoesWrap | tifileutil/src/wrap.cc:519-567 | unwrapping a wrapped text gives it with CR, LF and CR LF as CR if and only if it has no NUL byte |
| WrapText.WrappedLength | tifileutil/src/wrap.cc:529 | a wrapped text takes at most 2n + 6 bytes, within the 3n + 8 allocated |
| WrapText.PutOne | tifileutil/src/wrap.cc:537-557 | one round writes a line and its ending and consumes the right number of input bytes |
| WrapText.WrapData | tifileutil/src/wrap.cc:519-567 | the loops fill the buffer, inside its bounds, with the wrapped text |
| WrapText.TakeLine | tifileutil/src/wrap.cc:856-879 | one round copies a line without its type byte, and stops at the end-of-file delimiter |
| WrapText.UnwrapData | tifileutil/src/wrap.cc:831-887 | for any data, wrapped or not, the loop writes the unwrapped text inside a buffer of the input's size |
| WrapEnvelope.AsmRoundTrip | tifileutil/src/wrap.cc:456-471 | assembly programs round trip exactly, for all bytes |
| WrapEnvelope.StrRoundTrip | tifileutil/src/wrap.cc:472-490 | strings round trip exactly, NUL bytes and tags in them included |
| WrapEnvelope.WithExtension | tifileutil/src/wrap.cc:433-453 | for extensions of one character or more, four kept, the separator is found again and the data given back unless there is none |
| WrapEnvelope.OthRoundTrip | tifileutil/src/wrap.cc:491-506 | custom variables round trip if and only if they are not empty, and without an extension only below two bytes |
| WrapEnvelope.WrapAsm | tifileutil/src/wrap.cc:456-471 | moves the data up in place and writes size and tag around it |
| WrapEnvelope.WrapStr | tifileutil/src/wrap.cc:472-490 | moves the data up in place and writes size, NULs and tag around it |
| WrapEnvelope.AppendFooter | tifileutil/src/wrap.cc:433-453 | appends NUL, up to four characters of the extension, NUL and tag |
| WrapEnvelope.WrapOth | tifileutil/src/wrap.cc:433-506 | footer first, then the size field in front, in place |
| WrapEnvelope.UnwrapAsm | tifileutil/src/wrap.cc:770-782 | copies out what lies between the size field and the tag |
| WrapEnvelope.UnwrapStr | tifileutil/src/wrap.cc:783-806 | copies out what lies between the envelope bytes, each taken off only if it is there |
| WrapEnvelope.UnwrapOth | tifileutil/src/wrap.cc:807-830 | the search over extension lengths finds the shortest extension there is |
| WrapPython.PackRoundTrip | tifileutil/src/wrap.cc:398-427 | unwrapping a packed script gives it back minus one leading byte order mark |
| WrapPython.ScriptIff | tifileutil/src/wrap.cc:669-730 | a script is given back exactly when the data is two bytes, a magic, any well-formed LEB128 records, a NUL and that script |
| WrapPython.Pack | tifileutil/src/wrap.cc:398-427 | takes the mark off, moves the script up and writes the header, in place |
| WrapPython.ReadLength | tifileutil/src/wrap.cc:699-715 | the shift-and-or loop with its checks accepts exactly the well-formed records, and finds their length |
| WrapPython.Unwrap | tifileutil/src/wrap.cc:669-730 | the record loop tells a script, a malformed payload and other data apart as the grammar does |
| WrapPicture.Tiles | tifileutil/src/wrap.cc:584-588 | height times stride covers the data with less than one row of padding |
| WrapPicture.BestIsMultipleOf8 | tifileutil/src/wrap.cc:583-594 | the widest shape of least padding fills its rows |
| WrapPicture.BestIsUnique | tifileutil/src/wrap.cc:583-594 | there is one such shape |
| WrapPicture.Search | tifileutil/src/wrap.cc:574-597 | for every accepted length the loop finds a shape of least padding over all feasible widths, and the widest of those |
| WrapPicture.PicRoundTrip | tifileutil/src/wrap.cc:888-916 | unwrapping gives the data followed by exactly the padding |
| WrapPicture.HeaderIsExact | tifileutil/src/wrap.cc:598-616 | the size, height and width fields written describe the bytes behind them |
| WrapPicture.WrapData | tifileutil/src/wrap.cc:568-616 | accepts exactly 1 to 3090 bytes and writes the picture of the best shape, in place |
| WrapPicture.UnwrapData | tifileutil/src/wrap.cc:888-916 | copies out what lies between the header and the tag |
| BackupVat.TableRead | webtilp/webtilp.cpp:80-106 | a table laid out backwards is read back entry by entry |
| BackupVat.TableWritten | webtilp/webtilp.cpp:80-106 | an accepted table is the layout of the entries read: every byte belongs to one of them |
| BackupVat.ContentsIff | webtilp/webtilp.cpp:41-111 | a file is accepted exactly when it is the layout of a valid backup, which is then unique: header, blocks and checksum tile it |
| BackupVat.EntriesInside | webtilp/webtilp.cpp:96-103 | every reported variable lies inside the user data and its size survives the cast to 16 bits |
| BackupVat.SumBytes | webtilp/webtilp.cpp:60-61 | the 16-bit wrapping sum of the range |
| BackupVat.ReadBlocks | webtilp/webtilp.cpp:64-75 | the three offset-driven reads accept exactly three blocks of the announced lengths with nothing behind them |
| BackupVat.ReadEntry | webtilp/webtilp.cpp:85-99 | reads one entry byte by byte from the end, or refuses exactly where there is none |
| BackupVat.ReadEntries | webtilp/webtilp.cpp:82-106 | the cursor loop collects the entries of the whole table, checked against the user data |
| BackupVat.Parse | webtilp/webtilp.cpp:41-111 | returns the entries of the backup in the file, or failure and no entries |
| Png.PaethIsNearest | webtilp/app.js:10376-10385 | the predictor is the neighbour nearest to the estimate, with the tie order of section 6.6 of RFC 2083 |
| Png.FilteringIsInjective | webtilp/app.js:10478-10500 | a filtered image determines the filters and the raw image |
| Png.UnfilterRow | webtilp/app.js:10484-10499 | the in-place loop leaves a row whose filtering is the input, and the rows above as they were |
| Png.Unfilter | webtilp/app.js:10470-10500 | succeeds exactly on data of the right size with known filters; whatever image and per-row filters the data was made of, that image comes out |
| Png.ColoursAreDistinct | webtilp/app.js:10504-10511 | two pixels get the same colour exactly when they differ at most in the unused bit |
| Png.ExpandKeepsScale | webtilp/app.js:10508-10510 | widening a channel keeps black, white and the channel's value |
| Png.ToRgba | webtilp/app.js:10502-10512 | the loop fills the image with the colours of the pixels in order |

## Left out

- SquishRoundTrip.UnsquishUndoesSquish: assumes a squished program below 64 KiB and, for ASHELL, a title pointer below 65536, because the length and pointer fields are 16 bits wide and the code truncates them silently.
- HpEdit.ReplaceMeans: success is promised when the whole edited container is at most 2147483647 bytes (the `max_size` of a byte vector where `size_t` has 32 bits); a `push_back` that runs out of memory is not modelled. The same bound stands in the rename, delete and empty-batch theorems.
- HpEdit.EditedMeaning: when a container holds a resource under the note's or the program's name and those may be edited, both parts match one update and both get its data, as in the code.
- NwScripts.NormalizeIsNormal: names are ASCII; Unicode decomposition and the removal of accents are not modelled.
- NwScripts.NormalizeIdempotent: the same restriction to ASCII names.
- NwStorage.ParseStorageImage: names are compared as raw bytes with ASCII case folding; the replacement characters of `TextDecoder` are not modelled.
- HpManifest.EncodeManifest: names arrive as bytes; `TextEncoder` is not modelled.
- HpPack.PackedParses: `toLowerCase` is a parameter that folds ASCII letters alike and is otherwise arbitrary.
- NwBackend.Backend.CommitRecords: a fault is one cut write or one failing interface switch; changes the device makes on its own meanwhile, USB resets and timing are not modelled, nor is a failure of the closing refresh. Platform headers are read once, and are taken to lie outside the storage.
- NwBackend.Backend.Refresh: the platform headers are not read again, and reading the RAM cannot fail.
- CallGate.CallState.MarkDead: the reason text and the promise that wakes parked callers are not fields; being woken is a transition that death enables (`CallGate.DeathWakesEveryone`).
- CallGate.NoLostWakeUp: time is nondeterministic and settling is an assumption about the module; progress and logging calls are left out.
- Error messages are reduced to failure, except where the caller acts on the kind of error.
- Buffers are below 4 GiB, allocation succeeds, and `malloc(0)` returns a buffer.
- The single-update and extraction entry points of the container, which call or slice what is modelled here.
- The known-range fallback of `isKnownReadRange`, the platform headers, USB and DFU transfers, and file and archive handling.
- Command-line parsing, metadata and group commands, and variable types with no payload of their own in `wrap.cc`, among them the protected-program and tokenized-name handling, whose tokenizer is not part of this model.
- PNG chunk parsing, inflation and checksums.
- The user interface, translations and settings.

/** TI-82 and TI-85 backup files and their variable table (webtilp/webtilp.cpp:16-116). */
module BackupVat {
  import opened Bytes

  // ----- sizes of variables -----

  /** `variable_size`: 0 when the type is unknown or fewer than two bytes are left at `at`. */
  function VariableSize(user: bytes, at: nat, model: int, kind: nat): nat
  {
    if at >= |user| || |user| - at < 2 then 0
    else
      var word, area := GetU16le(user[at..]), user[at] as int * user[at + 1] as int;
      if model == 82 then
        match kind
        case 0 => 9
        case 1 => 2 + 9 * word
        case 2 => 2 + 9 * area
        case _ => if kind in {3, 5, 6, 7, 8} then 2 + word else 0
      else if kind in {0, 8} then 10
      else if kind in {1, 9} then 20
      else if kind in {2, 3, 6, 7} then 2 + (if kind % 2 == 1 then 20 else 10) * area
      else if kind in {4, 5} then 2 + (if kind % 2 == 1 then 20 else 10) * word
      else if kind in {10, 12, 13, 14, 15, 16, 17, 18} then 2 + word
      else 0
  }

  // ----- the table: what is stored and what is reported -----

  /** An entry as stored: the whole type byte, the address and the name as long as it is. */
  datatype Raw = Raw(kindByte: byte, address: nat, name: bytes)

  /** `TiBackupVatEntry` */
  datatype Entry = Entry(kind: nat, name: bytes, address: nat, size: nat)

  datatype Backup = Backup(comment: bytes, system: bytes, user: bytes, base: nat, vat: seq<Raw>)

  /** The type byte without its flag bits. */
  function Kind(model: int, b: byte): nat
  {
    if model == 82 then b as int % 16 else b as int % 32
  }

  /** Whether an entry carries a name length; the others have three bytes of name. */
  predicate Named(model: int, kindByte: byte)
  {
    model == 85 || Kind(model, kindByte) == 5 || Kind(model, kindByte) == 6
  }

  function Reversed(s: bytes): (r: bytes)
    ensures |r| == |s|
  {
    seq(|s|, i requires 0 <= i < |s| => s[|s| - 1 - i])
  }

  lemma ReversedTwice(s: bytes)
    ensures Reversed(Reversed(s)) == s
  {
  }

  predicate WellNamed(model: int, r: Raw)
  {
    r.address < TWO_16 && 1 <= |r.name| <= 8 && r.name[0] != 0 && (!Named(model, r.kindByte) ==> |r.name| == 3)
  }

  function RawSize(model: int, base: nat, user: bytes, r: Raw): nat
    requires r.address >= base
  {
    VariableSize(user, r.address - base, model, Kind(model, r.kindByte))
  }

  /** The variable is there, whole, inside the user data. */
  predicate InUser(model: int, base: nat, user: bytes, r: Raw)
  {
    && r.address >= base
    && RawSize(model, base, user, r) > 0
    && r.address - base < |user|
    && RawSize(model, base, user, r) <= |user| - (r.address - base)
  }

  /** What follows the name: its length, when there is one, the address and the type. */
  function Tail(named: bool, length: byte, address: nat, kindByte: byte): (t: bytes)
    ensures |t| == if named then 4 else 3
  {
    (if named then [length] else []) + U16be(address) + [kindByte]
  }

  /** An entry as its bytes lie in the file: it is read from the last byte to the first. */
  function EntryBytes(model: int, r: Raw): (b: bytes)
    requires WellNamed(model, r)
    ensures |b| >= 4
  {
    Reversed(r.name) + Tail(Named(model, r.kindByte), |r.name| as byte, r.address, r.kindByte)
  }

  predicate AllGood(model: int, base: nat, user: bytes, rs: seq<Raw>)
  {
    forall i :: 0 <= i < |rs| ==> WellNamed(model, rs[i]) && InUser(model, base, user, rs[i])
  }

  /** The table of `rs`: the first entry is last. */
  function Table(model: int, base: nat, user: bytes, rs: seq<Raw>): bytes
    requires AllGood(model, base, user, rs)
  {
    if rs == [] then [] else Table(model, base, user, rs[1..]) + EntryBytes(model, rs[0])
  }

  /** The last entry of `vat`, and how many bytes are in front of it. */
  function LastEntry(model: int, vat: bytes): (r: Option<(Raw, nat)>)
    ensures r.Some? ==> r.value.1 < |vat| && WellNamed(model, r.value.0)
  {
    if |vat| < 4 then None
    else
      var c := |vat|;
      var kindByte, address := vat[c - 1], GetU16be(vat[c - 3..]);
      var named := Named(model, kindByte);
      var n := if named then vat[c - 4] as nat else 3;
      var p := if named then c - 4 else c - 3;
      if n == 0 || n > 8 || p < n then None
      else
        var name := Reversed(vat[p - n..p]);
        if name[0] == 0 then None else Some((Raw(kindByte, address, name), p - n))
  }

  function ReadTable(model: int, base: nat, user: bytes, vat: bytes): Option<seq<Raw>>
    decreases |vat|
  {
    if vat == [] then Some([])
    else
      match LastEntry(model, vat)
      case None => None
      case Some((r, rest)) =>
        if InUser(model, base, user, r) then Prepend([r], ReadTable(model, base, user, vat[..rest])) else None
  }

  function EntryOf(model: int, base: nat, user: bytes, r: Raw): Entry
    requires WellNamed(model, r) && InUser(model, base, user, r)
  {
    Entry(Kind(model, r.kindByte), r.name + Zeros(9 - |r.name|), r.address, RawSize(model, base, user, r))
  }

  function EntriesOf(model: int, base: nat, user: bytes, rs: seq<Raw>): (es: seq<Entry>)
    requires AllGood(model, base, user, rs)
    ensures |es| == |rs|
    ensures forall i :: 0 <= i < |rs| ==> es[i] == EntryOf(model, base, user, rs[i])
  {
    seq(|rs|, i requires 0 <= i < |rs| => EntryOf(model, base, user, rs[i]))
  }

  // ----- the table, both ways -----

  /** The fixed-size end of an entry, behind anything. */
  lemma TailRead(x: bytes, named: bool, length: byte, address: nat, kindByte: byte)
    requires address < TWO_16
    ensures var vat := x + Tail(named, length, address, kindByte); var c := |vat|;
      vat[c - 1] == kindByte && GetU16be(vat[c - 3..]) == address && (named ==> vat[c - 4] == length)
  {
    hide U16be, GetU16be;
    var vat := x + Tail(named, length, address, kindByte);
    assert vat[|vat| - 3..] == U16be(address) + [kindByte];
    U16beInverse(address, [kindByte]);
  }

  lemma LastEntryWritten(model: int, front: bytes, r: Raw)
    requires WellNamed(model, r)
    ensures LastEntry(model, front + EntryBytes(model, r)) == Some((r, |front|))
  {
    hide U16be, GetU16be, Named, Kind, Tail, Reversed;
    var n := |r.name|;
    var tail := Tail(Named(model, r.kindByte), n as byte, r.address, r.kindByte);
    var vat := front + Reversed(r.name) + tail;
    assert front + EntryBytes(model, r) == vat;
    TailRead(front + Reversed(r.name), Named(model, r.kindByte), n as byte, r.address, r.kindByte);
    assert vat[|front|..|front| + n] == Reversed(r.name);
    ReversedTwice(r.name);
  }

  lemma TailWritten(vat: bytes, named: bool)
    requires |vat| >= 4
    ensures var c := |vat|;
      vat == vat[..if named then c - 4 else c - 3] + Tail(named, vat[c - 4], GetU16be(vat[c - 3..]), vat[c - 1])
  {
    hide U16be, GetU16be;
    var c := |vat|;
    GetU16beInverse(vat[c - 3..]);
    assert vat[c - 3..][..2] == vat[c - 3..c - 1];
    assert vat == vat[..c - 3] + vat[c - 3..c - 1] + [vat[c - 1]];
    assert vat[..c - 3] == vat[..c - 4] + [vat[c - 4]];
  }

  lemma TailIgnoresLength(a: byte, b: byte, address: nat, kindByte: byte)
    ensures Tail(false, a, address, kindByte) == Tail(false, b, address, kindByte)
  {
  }

  lemma LastEntryRead(model: int, vat: bytes)
    requires LastEntry(model, vat).Some?
    ensures var (r, rest) := LastEntry(model, vat).value; vat == vat[..rest] + EntryBytes(model, r)
  {
    hide U16be, GetU16be, Named, Kind, Tail, Reversed;
    var (r, rest) := LastEntry(model, vat).value;
    var c, n := |vat|, |r.name|;
    var named := Named(model, r.kindByte);
    var p := if named then c - 4 else c - 3;
    TailWritten(vat, named);
    TailIgnoresLength(vat[c - 4], n as byte, r.address, r.kindByte);
    ReversedTwice(vat[rest..p]);
    assert vat[..p] == vat[..rest] + vat[rest..p];
  }

  lemma {:induction false} TableRead(model: int, base: nat, user: bytes, rs: seq<Raw>)
    requires AllGood(model, base, user, rs)
    ensures ReadTable(model, base, user, Table(model, base, user, rs)) == Some(rs)
  {
    hide LastEntry, EntryBytes, InUser, WellNamed;
    if rs != [] {
      var rest := Table(model, base, user, rs[1..]);
      LastEntryWritten(model, rest, rs[0]);
      TableRead(model, base, user, rs[1..]);
      var vat := Table(model, base, user, rs);
      assert vat == rest + EntryBytes(model, rs[0]) && vat[..|rest|] == rest;
      assert rs == [rs[0]] + rs[1..];
    }
  }

  lemma {:induction false} TableWritten(model: int, base: nat, user: bytes, vat: bytes)
    requires ReadTable(model, base, user, vat).Some?
    ensures var rs := ReadTable(model, base, user, vat).value;
      AllGood(model, base, user, rs) && vat == Table(model, base, user, rs)
    decreases |vat|
  {
    hide LastEntry, EntryBytes, InUser, WellNamed;
    if vat != [] {
      var (r, rest) := LastEntry(model, vat).value;
      LastEntryRead(model, vat);
      TableWritten(model, base, user, vat[..rest]);
      var rs := ReadTable(model, base, user, vat).value;
      assert rs == [r] + rs[1..] && rs[1..] == ReadTable(model, base, user, vat[..rest]).value;
      assert forall i :: 0 <= i < |rs| ==> rs[i] == if i == 0 then r else rs[1..][i - 1];
    }
  }

  // ----- the file -----

  function Signature(model: int): (s: bytes)
    ensures |s| == 11
  {
    [0x2A, 0x2A, 0x54, 0x49, 0x38, if model == 82 then 0x32 else 0x35, 0x2A, 0x2A, 0x1A,
     if model == 85 then 0x0C else 0x0A, 0x00]
  }

  /** Header of the payload: its length, the three block lengths around the type, the base address. */
  function Fields(model: int, system: nat, user: nat, vat: nat, base: nat): (f: bytes)
    ensures |f| == 11
  {
    U16le(9) + U16le(system) + [if model == 82 then 0x0F else 0x1D] + U16le(user) + U16le(vat) + U16le(base)
  }

  function Block(p: bytes): bytes
  {
    U16le(|p|) + p
  }

  function Payload(model: int, b: Backup): bytes
    requires AllGood(model, b.base, b.user, b.vat)
  {
    var table := Table(model, b.base, b.user, b.vat);
    Fields(model, |b.system|, |b.user|, |table|, b.base) + Block(b.system) + Block(b.user) + Block(table)
  }

  /** The 16-bit sum of all bytes. */
  function Checksum(s: bytes): (sum: nat)
    ensures sum < TWO_16
  {
    if s == [] then 0 else (Checksum(s[..|s| - 1]) + s[|s| - 1] as int) % TWO_16
  }

  function Layout(model: int, b: Backup): bytes
    requires AllGood(model, b.base, b.user, b.vat)
  {
    var p := Payload(model, b);
    Signature(model) + b.comment + U16le(|p|) + p + U16le(Checksum(p))
  }

  predicate Valid(model: int, b: Backup)
  {
    && (model == 82 || model == 85)
    && |b.comment| == 42
    && 0x8000 <= b.base < TWO_16 && b.base + |b.user| <= 0x1_0000
    && AllGood(model, b.base, b.user, b.vat)
    && |Layout(model, b)| < TWO_16
  }

  /** A length-prefixed block of the announced length at the front of `t`. */
  function TakeBlock(t: bytes, length: nat): (r: Option<(bytes, bytes)>)
    ensures r.Some? ==> |r.value.0| == length
  {
    if |t| >= 2 && GetU16le(t) == length && length <= |t| - 2 then Some((t[2..2 + length], t[2 + length..])) else None
  }

  /** The three blocks, with nothing behind them. */
  function TakeBlocks(t: bytes, system: nat, user: nat, vat: nat): Option<(bytes, bytes, bytes)>
  {
    match TakeBlock(t, system)
    case None => None
    case Some((s, t1)) =>
      match TakeBlock(t1, user)
      case None => None
      case Some((u, t2)) =>
        match TakeBlock(t2, vat)
        case None => None
        case Some((v, t3)) => if t3 == [] then Some((s, u, v)) else None
  }

  function ReadPayload(model: int, comment: bytes, p: bytes): Option<Backup>
    requires |p| >= 17
  {
    if GetU16le(p) != 9 || p[4] != (if model == 82 then 0x0F else 0x1D) then None
    else
      match TakeBlocks(p[11..], GetU16le(p[2..]), GetU16le(p[5..]), GetU16le(p[7..]))
      case None => None
      case Some((s, u, v)) =>
        var base := GetU16le(p[9..]);
        if base < 0x8000 || base + |u| > 0x1_0000 then None
        else
          match ReadTable(model, base, u, v)
          case None => None
          case Some(rs) => Some(Backup(comment, s, u, base, rs))
  }

  /** The backup a file holds. */
  function Contents(model: int, file: bytes): Option<Backup>
  {
    if !(model == 82 || model == 85) || |file| < 74 || |file| >= TWO_16 then None
    else
      var p := file[55..|file| - 2];
      if file[..11] != Signature(model) || GetU16le(file[53..]) != |file| - 57
        || Checksum(p) != GetU16le(file[|file| - 2..]) then None
      else ReadPayload(model, file[11..53], p)
  }

  // ----- the file, both ways -----

  lemma TakeBlockIff(t: bytes, p: bytes, rest: bytes)
    requires |p| < TWO_16
    ensures TakeBlock(t, |p|) == Some((p, rest)) <==> t == Block(p) + rest
  {
    hide U16le, GetU16le;
    if |t| >= 2 && GetU16le(t) == |p| && |p| <= |t| - 2 {
      GetU16leInverse(t);
      assert t == t[..2] + t[2..2 + |p|] + t[2 + |p|..];
    }
    if t == Block(p) + rest {
      assert t == U16le(|p|) + (p + rest);
      U16leInverse(|p|, p + rest);
      assert t[2..2 + |p|] == p && t[2 + |p|..] == rest;
    }
  }

  lemma TakeBlocksIff(t: bytes, s: bytes, u: bytes, v: bytes)
    requires |s| < TWO_16 && |u| < TWO_16 && |v| < TWO_16
    ensures TakeBlocks(t, |s|, |u|, |v|) == Some((s, u, v)) <==> t == Block(s) + Block(u) + Block(v)
  {
    hide TakeBlock, Block;
    var t2 := Block(v) + [];
    var t1 := Block(u) + t2;
    assert Block(s) + t1 == Block(s) + Block(u) + Block(v);
    TakeBlockIff(t, s, t1);
    TakeBlockIff(t1, u, t2);
    TakeBlockIff(t2, v, []);
    if TakeBlocks(t, |s|, |u|, |v|) == Some((s, u, v)) {
      var r1 := TakeBlock(t, |s|).value.1;
      var r2 := TakeBlock(r1, |u|).value.1;
      TakeBlockIff(t, s, r1);
      TakeBlockIff(r1, u, r2);
      TakeBlockIff(r2, v, []);
    }
  }

  lemma FieldsRead(model: int, system: nat, user: nat, vat: nat, base: nat, rest: bytes)
    requires system < TWO_16 && user < TWO_16 && vat < TWO_16 && base < TWO_16
    ensures var p := Fields(model, system, user, vat, base) + rest;
      GetU16le(p) == 9 && GetU16le(p[2..]) == system && p[4] == (if model == 82 then 0x0F else 0x1D)
      && GetU16le(p[5..]) == user && GetU16le(p[7..]) == vat && GetU16le(p[9..]) == base && p[11..] == rest
  {
    hide U16le, GetU16le;
    var kind: byte := if model == 82 then 0x0F else 0x1D;
    var p := Fields(model, system, user, vat, base) + rest;
    assert p == U16le(9) + p[2..] && p[2..] == U16le(system) + p[4..] && p[5..] == U16le(user) + p[7..];
    assert p[7..] == U16le(vat) + p[9..] && p[9..] == U16le(base) + p[11..];
    U16leInverse(9, p[2..]);
    U16leInverse(system, p[4..]);
    U16leInverse(user, p[7..]);
    U16leInverse(vat, p[9..]);
    U16leInverse(base, p[11..]);
  }

  lemma FieldsWritten(model: int, p: bytes)
    requires |p| >= 11 && GetU16le(p) == 9 && p[4] == (if model == 82 then 0x0F else 0x1D)
    ensures p == Fields(model, GetU16le(p[2..]), GetU16le(p[5..]), GetU16le(p[7..]), GetU16le(p[9..])) + p[11..]
  {
    hide U16le, GetU16le;
    GetU16leInverse(p);
    GetU16leInverse(p[2..]);
    GetU16leInverse(p[5..]);
    GetU16leInverse(p[7..]);
    GetU16leInverse(p[9..]);
    assert p == p[..2] + p[2..][..2] + [p[4]] + p[5..][..2] + p[7..][..2] + p[9..][..2] + p[11..];
  }

  lemma PayloadRead(model: int, b: Backup)
    requires Valid(model, b)
    ensures |Payload(model, b)| >= 17 && ReadPayload(model, b.comment, Payload(model, b)) == Some(b)
  {
    hide Fields, Block, TakeBlocks, ReadTable, Table, GetU16le, U16le, Checksum;
    var v := Table(model, b.base, b.user, b.vat);
    PayloadBounds(model, b);
    var blocks := Block(b.system) + Block(b.user) + Block(v);
    assert Payload(model, b) == Fields(model, |b.system|, |b.user|, |v|, b.base) + blocks;
    FieldsRead(model, |b.system|, |b.user|, |v|, b.base, blocks);
    TakeBlocksIff(blocks, b.system, b.user, v);
    TableRead(model, b.base, b.user, b.vat);
  }

  lemma PayloadBounds(model: int, b: Backup)
    requires Valid(model, b)
    ensures var v := Table(model, b.base, b.user, b.vat);
      |Payload(model, b)| == 17 + |b.system| + |b.user| + |v| && |Layout(model, b)| == 57 + |Payload(model, b)|
  {
    hide Table, Checksum, AllGood;
  }

  lemma PayloadWritten(model: int, comment: bytes, p: bytes)
    requires |p| >= 17 && ReadPayload(model, comment, p).Some?
    ensures var b := ReadPayload(model, comment, p).value;
      AllGood(model, b.base, b.user, b.vat) && p == Payload(model, b) && b.comment == comment
      && 0x8000 <= b.base < TWO_16 && b.base + |b.user| <= 0x1_0000
  {
    hide Fields, Block, TakeBlocks, ReadTable, Table, GetU16le, U16le;
    var b := ReadPayload(model, comment, p).value;
    var (s, u, v) := TakeBlocks(p[11..], GetU16le(p[2..]), GetU16le(p[5..]), GetU16le(p[7..])).value;
    FieldsWritten(model, p);
    BlockLengths(p[11..], GetU16le(p[2..]), GetU16le(p[5..]), GetU16le(p[7..]));
    TakeBlocksIff(p[11..], s, u, v);
    TableWritten(model, b.base, u, v);
    var f := Fields(model, |s|, |u|, |v|, b.base);
    assert f + (Block(s) + Block(u) + Block(v)) == f + Block(s) + Block(u) + Block(v);
  }

  lemma BlockLengths(t: bytes, system: nat, user: nat, vat: nat)
    ensures var r := TakeBlocks(t, system, user, vat);
      r.Some? ==> |r.value.0| == system && |r.value.1| == user && |r.value.2| == vat
  {
    hide GetU16le;
  }

  /**
   * Main result. A file is accepted exactly when it is the layout of a valid backup, and then that backup, unique, is
   * what is read: header, blocks and checksum tile the file, and every byte of the table belongs to one entry.
   */
  lemma ContentsIff(model: int, file: bytes, b: Backup)
    ensures Contents(model, file) == Some(b) <==> Valid(model, b) && file == Layout(model, b)
  {
    hide Contents, Valid;
    if Contents(model, file) == Some(b) {
      FileWritten(model, file);
    }
    if Valid(model, b) {
      FileRead(model, b);
    }
  }

  lemma FileRead(model: int, b: Backup)
    requires Valid(model, b)
    ensures Contents(model, Layout(model, b)) == Some(b)
  {
    hide ReadPayload, Payload, Signature, U16le, GetU16le, Checksum, AllGood;
    var p := Payload(model, b);
    PayloadRead(model, b);
    var file := Layout(model, b);
    PayloadBounds(model, b);
    assert file[53..] == U16le(|p|) + file[55..] && file[55..|file| - 2] == p
      && file[|file| - 2..] == U16le(Checksum(p)) + [];
    U16leInverse(|p|, file[55..]);
    U16leInverse(Checksum(p), []);
    assert file[..11] == Signature(model) && file[11..53] == b.comment;
  }

  lemma FileWritten(model: int, file: bytes)
    requires Contents(model, file).Some?
    ensures Valid(model, Contents(model, file).value) && file == Layout(model, Contents(model, file).value)
  {
    hide ReadPayload, Payload, Signature, U16le, GetU16le, Checksum, AllGood;
    var p := file[55..|file| - 2];
    PayloadWritten(model, file[11..53], p);
    GetU16leInverse(file[53..]);
    GetU16leInverse(file[|file| - 2..]);
    assert file == file[..11] + file[11..53] + file[53..][..2] + p + file[|file| - 2..][..2];
  }

  /** Every variable reported lies inside the user data, and its size survives the cast to 16 bits. */
  lemma EntriesInside(model: int, file: bytes, i: nat)
    requires Contents(model, file).Some? && i < |Contents(model, file).value.vat|
    ensures var b := Contents(model, file).value;
      AllGood(model, b.base, b.user, b.vat) &&
      var e := EntriesOf(model, b.base, b.user, b.vat)[i];
      b.base <= e.address && 1 <= e.size < TWO_16 && e.address + e.size <= b.base + |b.user| <= 0x1_0000
      && |e.name| == 9 && e.name[0] != 0 && e.name[8] == 0
  {
    hide Contents, RawSize, Layout;
    FileWritten(model, file);
    var b := Contents(model, file).value;
    assert WellNamed(model, b.vat[i]) && InUser(model, b.base, b.user, b.vat[i]);
    assert EntriesOf(model, b.base, b.user, b.vat)[i] == EntryOf(model, b.base, b.user, b.vat[i]);
  }

  // ----- the parser's loops -----

  function Word(s: bytes, at: nat): nat
    requires at + 2 <= |s|
  {
    GetU16le(s[at..])
  }

  method SumBytes(file: bytes, from: nat, to: nat) returns (checksum: nat)
    requires from <= to <= |file|
    ensures checksum == Checksum(file[from..to])
  {
    checksum := 0;
    var i := from;
    while i < to
      invariant from <= i <= to && checksum == Checksum(file[from..i])
    {
      assert file[from..i + 1][..i - from] == file[from..i];
      checksum := (checksum + file[i] as int) % TWO_16;
      i := i + 1;
    }
  }

  /** The three blocks by absolute offsets; `false` when one is cut short or something follows. */
  method ReadBlocks(file: bytes, lengths: seq<nat>) returns (ok: bool, parts: seq<bytes>)
    requires |file| >= 74 && |lengths| == 3
    ensures ok <==> TakeBlocks(file[66..|file| - 2], lengths[0], lengths[1], lengths[2]).Some?
    ensures ok ==> |parts| == 3
    ensures ok ==>
      TakeBlocks(file[66..|file| - 2], lengths[0], lengths[1], lengths[2]) == Some((parts[0], parts[1], parts[2]))
  {
    hide TakeBlock;
    parts := [];
    var p0, p1, p2, offset;
    ok, p0, offset := ReadBlock(file, 66, lengths[0]);
    if ok {
      ok, p1, offset := ReadBlock(file, offset, lengths[1]);
      if ok {
        ok, p2, offset := ReadBlock(file, offset, lengths[2]);
        if ok {
          parts := [p0, p1, p2];
          ok := offset == |file| - 2;
        }
      }
    }
  }

  method ReadBlock(file: bytes, from: nat, length: nat) returns (ok: bool, part: bytes, offset: nat)
    requires |file| >= 74 && 66 <= from <= |file| - 2
    ensures from <= offset <= |file| - 2
    ensures ok <==> TakeBlock(file[from..|file| - 2], length).Some?
    ensures ok ==> TakeBlock(file[from..|file| - 2], length) == Some((part, file[offset..|file| - 2]))
  {
    part, offset := [], from;
    ok := false;
    if offset <= |file| - 4 {
      var word := file[offset] as int + file[offset + 1] as int * 0x100;
      if word == length && length <= |file| - 2 - (offset + 2) {
        part := file[offset + 2..offset + 2 + length];
        offset := offset + 2 + length;
        SliceOfSlice(file, from, |file| - 2, 2, 2 + length);
        SliceOfSlice(file, from, |file| - 2, 2 + length, |file| - 2 - from);
        ok := true;
      }
    }
  }

  /** Reads one entry, byte by byte, from `cursor` down. */
  method ReadEntry(vat: bytes, cursor: nat, model: int) returns (ok: bool, raw: Raw, rest: nat)
    requires 0 < cursor <= |vat|
    ensures ok ==> LastEntry(model, vat[..cursor]) == Some((raw, rest)) && rest < cursor
    ensures !ok ==> LastEntry(model, vat[..cursor]).None?
  {
    hide Kind, Named, Reversed;
    ok, raw, rest := false, Raw(0, 0, []), 0;
    if cursor < 4 {
      return;
    }
    ghost var v := vat[..cursor];
    var kindByte := vat[cursor - 1];
    var address := vat[cursor - 2] as int + vat[cursor - 3] as int * 0x100;
    assert GetU16be(v[cursor - 3..]) == address;
    rest := cursor - 3;
    var length: nat := 3;
    if Named(model, kindByte) {
      length := vat[cursor - 4] as nat;
      rest := cursor - 4;
    }
    if length == 0 || length > 8 || rest < length {
      return;
    }
    ghost var p := rest;
    var name: bytes := [];
    while |name| < length
      invariant |name| <= length && rest == p - |name|
      invariant forall i :: 0 <= i < |name| ==> name[i] == vat[p - 1 - i]
    {
      rest := rest - 1;
      name := name + [vat[rest]];
    }
    ReversedIs(v[p - length..p], name);
    ok := name[0] != 0;
    raw := Raw(kindByte, address, name);
  }

  lemma ReversedIs(s: bytes, r: bytes)
    requires |r| == |s| && forall i :: 0 <= i < |s| ==> r[i] == s[|s| - 1 - i]
    ensures Reversed(s) == r
  {
  }

  /** The table loop: entries in the order read, none at all when one is refused. */
  method ReadEntries(vat: bytes, model: int, base: nat, user: bytes)
    returns (ok: bool, parsed: seq<Entry>, ghost raws: seq<Raw>)
    ensures ok <==> ReadTable(model, base, user, vat).Some?
    ensures ok ==> ReadTable(model, base, user, vat) == Some(raws)
    ensures ok ==> AllGood(model, base, user, raws) && parsed == EntriesOf(model, base, user, raws)
  {
    hide LastEntry, InUser, WellNamed, ReadTable, EntryOf;
    var cursor := |vat|;
    parsed, raws := [], [];
    assert vat[..cursor] == vat;
    while cursor > 0
      invariant 0 <= cursor <= |vat| && AllGood(model, base, user, raws)
      invariant Prepend(raws, ReadTable(model, base, user, vat[..cursor])) == ReadTable(model, base, user, vat)
      invariant parsed == EntriesOf(model, base, user, raws)
    {
      var raw, rest;
      ok, raw, rest := ReadEntry(vat, cursor, model);
      ReadTableStep(model, base, user, vat[..cursor]);
      if !ok {
        return;
      }
      ok := InUser(model, base, user, raw);
      if !ok {
        return;
      }
      assert vat[..cursor][..rest] == vat[..rest];
      PrependStep(raws, raw, ReadTable(model, base, user, vat[..rest]));
      parsed := parsed + [EntryOf(model, base, user, raw)];
      raws := raws + [raw];
      cursor := rest;
    }
    ReadTableStep(model, base, user, vat[..cursor]);
    assert raws + [] == raws;
    ok := true;
  }

  lemma ReadTableStep(model: int, base: nat, user: bytes, vat: bytes)
    ensures vat == [] ==> ReadTable(model, base, user, vat) == Some([])
    ensures vat != [] && LastEntry(model, vat).None? ==> ReadTable(model, base, user, vat).None?
    ensures vat != [] && LastEntry(model, vat).Some? && !InUser(model, base, user, LastEntry(model, vat).value.0) ==>
      ReadTable(model, base, user, vat).None?
    ensures vat != [] && LastEntry(model, vat).Some? && InUser(model, base, user, LastEntry(model, vat).value.0) ==>
      ReadTable(model, base, user, vat)
      == Prepend([LastEntry(model, vat).value.0], ReadTable(model, base, user, vat[..LastEntry(model, vat).value.1]))
  {
    hide LastEntry, InUser;
  }

  /** What the caller sees: the entries of the backup in the file, or failure and none. */
  function Parsed(model: int, file: bytes): (bool, seq<Entry>)
  {
    match Contents(model, file)
    case None => (false, [])
    case Some(b) =>
      FileWritten(model, file);
      (true, EntriesOf(model, b.base, b.user, b.vat))
  }

  /** `parse_ti_backup_vat` */
  method Parse(file: bytes, model: int) returns (ok: bool, entries: seq<Entry>)
    ensures (ok, entries) == Parsed(model, file)
  {
    hide TakeBlocks, ReadTable, Checksum, Layout, AllGood, Signature, EntriesOf, ReadPayload;
    ok, entries := false, [];
    if !(model == 82 || model == 85) || !(|file| >= 74 && |file| < 65536) {
      return;
    }
    if file[..11] != Signature(model) || Word(file, 53) != |file| - 57 {
      return;
    }
    var checksum := SumBytes(file, 55, |file| - 2);
    if checksum != Word(file, |file| - 2) {
      return;
    }
    ok, entries := ParsePayload(file, model);
  }

  /** The checks behind the checksum. */
  method ParsePayload(file: bytes, model: int) returns (ok: bool, entries: seq<Entry>)
    requires |file| >= 74
    ensures ok <==> ReadPayload(model, file[11..53], file[55..|file| - 2]).Some?
    ensures ok ==>
      var b := ReadPayload(model, file[11..53], file[55..|file| - 2]).value;
      AllGood(model, b.base, b.user, b.vat) && entries == EntriesOf(model, b.base, b.user, b.vat)
    ensures !ok ==> entries == []
  {
    hide TakeBlocks, ReadTable, AllGood, EntriesOf, GetU16le;
    ok, entries := false, [];
    ghost var p := file[55..|file| - 2];
    FieldsInFile(file);
    if Word(file, 55) != 9 || file[59] != (if model == 82 then 0x0F else 0x1D) {
      return;
    }
    var parts;
    ok, parts := ReadBlocks(file, [Word(file, 57), Word(file, 60), Word(file, 62)]);
    if !ok {
      return;
    }
    var base := Word(file, 64);
    if base < 0x8000 || base + |parts[1]| > 0x1_0000 {
      return false, [];
    }
    var parsed;
    ghost var raws;
    ok, parsed, raws := ReadEntries(parts[2], model, base, parts[1]);
    if ok {
      entries := parsed;
    }
  }

  lemma WordAt(s: bytes, at: nat, from: nat, to: nat)
    requires from <= at && at + 2 <= to <= |s|
    ensures GetU16le(s[from..to][at - from..]) == Word(s, at)
  {
  }

  lemma FieldsInFile(file: bytes)
    requires |file| >= 74
    ensures var p := file[55..|file| - 2];
      GetU16le(p) == Word(file, 55) && p[4] == file[59] && GetU16le(p[2..]) == Word(file, 57)
      && GetU16le(p[5..]) == Word(file, 60) && GetU16le(p[7..]) == Word(file, 62) && GetU16le(p[9..]) == Word(file, 64)
      && p[11..] == file[66..|file| - 2]
  {
    hide GetU16le, Word;
    var p, end := file[55..|file| - 2], |file| - 2;
    assert p[0..] == p;
    WordAt(file, 55, 55, end);
    WordAt(file, 57, 55, end);
    WordAt(file, 60, 55, end);
    WordAt(file, 62, 55, end);
    WordAt(file, 64, 55, end);
  }
}

/** TI-eZ80 Python AppVars (tifileutil/src/wrap.cc:398-427, 669-730). */
module WrapPython {
  import opened Bytes
  import opened WrapBuffer

  const BOM: bytes := [0xEF, 0xBB, 0xBF]
  const PYCD: bytes := [0x50, 0x59, 0x43, 0x44]
  const PYSC: bytes := [0x50, 0x59, 0x53, 0x43]

  // ----- packing -----

  /** The script without one leading byte order mark. */
  function WithoutBom(s: bytes): bytes
  {
    if StartsWith(s, BOM) then s[3..] else s
  }

  function Packed(s: bytes): bytes
  {
    U16le(|WithoutBom(s)| + 5) + PYCD + [0] + WithoutBom(s)
  }

  // ----- metadata records -----

  /** A record as written: its type byte and data, behind a length of one or (`wide`) two bytes. */
  datatype Record = Record(wide: bool, body: bytes)

  predicate WellFormed(r: Record)
  {
    1 <= |r.body| && if r.wide then |r.body| < 0x4000 else |r.body| < 0x80
  }

  predicate AllWellFormed(rs: seq<Record>)
  {
    forall i :: 0 <= i < |rs| ==> WellFormed(rs[i])
  }

  /** The unsigned LEB128 form of the length, padded to two bytes when `wide`. */
  function Leb128(r: Record): (b: bytes)
    requires WellFormed(r)
    ensures |b| == if r.wide then 2 else 1
  {
    if r.wide then [(0x80 + |r.body| % 0x80) as byte, (|r.body| / 0x80) as byte] else [|r.body| as byte]
  }

  function Records(rs: seq<Record>): bytes
    requires AllWellFormed(rs)
  {
    if rs == [] then [] else Leb128(rs[0]) + rs[0].body + Records(rs[1..])
  }

  // ----- unwrapping -----

  datatype Payload = NotPython | Malformed | Script(script: bytes)

  /** The record at the front of `t`, when it is well formed. */
  function FirstRecord(t: bytes): (r: Option<Record>)
    requires t != [] && t[0] != 0
    ensures r.Some? ==> WellFormed(r.value)
    ensures r.Some? ==> |Leb128(r.value)| + |r.value.body| <= |t|
  {
    if t[0] < 0x80 then
      if 1 + t[0] as int > |t| then None else Some(Record(false, t[1..1 + t[0] as int]))
    else if |t| == 1 || t[1] >= 0x80 then None
    else
      var n := (t[0] - 0x80) as int + t[1] as int * 0x80;
      if n == 0 || 2 + n > |t| then None else Some(Record(true, t[2..2 + n]))
  }

  /** The script behind the records and their terminator. */
  function ReadScript(t: bytes): Payload
    decreases |t|
  {
    if t == [] then Malformed
    else if t[0] == 0 then Script(t[1..])
    else
      match FirstRecord(t)
      case None => Malformed
      case Some(r) => ReadScript(t[|Leb128(r)| + |r.body|..])
  }

  predicate HasMagic(d: bytes)
  {
    |d| >= 7 && (d[2..6] == PYCD || d[2..6] == PYSC)
  }

  function Unwrapped(d: bytes): Payload
  {
    if HasMagic(d) then ReadScript(d[6..]) else NotPython
  }

  // ----- the record grammar, both ways -----

  lemma FirstRecordRead(r: Record, rest: bytes)
    requires WellFormed(r)
    ensures var t := Leb128(r) + r.body + rest;
      t[0] != 0 && FirstRecord(t) == Some(r) && t[|Leb128(r)| + |r.body|..] == rest
  {
    var n := |r.body|;
    var t := Leb128(r) + r.body + rest;
    if r.wide {
      assert t[0] == (0x80 + n % 0x80) as byte && t[1] == (n / 0x80) as byte;
      assert t[2..2 + n] == r.body;
    } else {
      assert t[0] == n as byte;
      assert t[1..1 + n] == r.body;
    }
  }

  lemma FirstRecordWritten(t: bytes)
    requires t != [] && t[0] != 0 && FirstRecord(t).Some?
    ensures var r := FirstRecord(t).value; t == Leb128(r) + r.body + t[|Leb128(r)| + |r.body|..]
  {
    var r := FirstRecord(t).value;
    if r.wide {
      LebBack(t[0], t[1]);
      assert t == t[..2] + r.body + t[2 + |r.body|..];
    } else {
      assert t == t[..1] + r.body + t[1 + |r.body|..];
    }
  }

  lemma LebBack(low: byte, high: byte)
    requires low >= 0x80 && high < 0x80
    ensures var n := (low - 0x80) as int + high as int * 0x80;
      (0x80 + n % 0x80) as byte == low && n / 0x80 == high as int
  {
  }

  lemma {:induction false} RecordsSkipped(rs: seq<Record>, script: bytes)
    requires AllWellFormed(rs)
    ensures ReadScript(Records(rs) + [0] + script) == Script(script)
  {
    hide FirstRecord, Leb128;
    var t := Records(rs) + [0] + script;
    if rs == [] {
      assert t[0] == 0 && t[1..] == script;
    } else {
      var rest := Records(rs[1..]) + [0] + script;
      assert t == Leb128(rs[0]) + rs[0].body + rest;
      FirstRecordRead(rs[0], rest);
      RecordsSkipped(rs[1..], script);
    }
  }

  lemma {:induction false} RecordsFound(t: bytes) returns (rs: seq<Record>)
    requires ReadScript(t).Script?
    ensures AllWellFormed(rs) && t == Records(rs) + [0] + ReadScript(t).script
    decreases |t|
  {
    hide FirstRecord, Leb128;
    if t[0] == 0 {
      rs := [];
      assert t == [] + [0] + t[1..];
    } else {
      var r := FirstRecord(t).value;
      FirstRecordWritten(t);
      var k := |Leb128(r)| + |r.body|;
      var tail := RecordsFound(t[k..]);
      rs := [r] + tail;
      assert rs[1..] == tail;
      assert t == Leb128(r) + r.body + (Records(tail) + [0] + ReadScript(t).script);
    }
  }

  /**
   * Main result on unwrapping: a script is given back exactly when the data is two bytes, a magic, any well-formed
   * records, a NUL and that script.
   */
  lemma ScriptIff(d: bytes, script: bytes)
    ensures Unwrapped(d) == Script(script) <==>
      HasMagic(d) && exists rs :: AllWellFormed(rs) && d[6..] == Records(rs) + [0] + script
  {
    hide ReadScript, Records, HasMagic;
    if HasMagic(d) {
      MagicLength(d);
      if ReadScript(d[6..]).Script? {
        var rs := RecordsFound(d[6..]);
        assert AllWellFormed(rs) && d[6..] == Records(rs) + [0] + ReadScript(d[6..]).script;
      }
      forall rs | AllWellFormed(rs) && d[6..] == Records(rs) + [0] + script ensures Unwrapped(d) == Script(script) {
        RecordsSkipped(rs, script);
      }
    }
  }

  lemma MagicLength(d: bytes)
    ensures HasMagic(d) ==> |d| >= 7
  {
  }

  /** Main result on packing: unwrapping a packed script gives it back, minus one leading byte order mark. */
  lemma PackRoundTrip(s: bytes)
    ensures Unwrapped(Packed(s)) == Script(WithoutBom(s))
  {
    hide U16le, WithoutBom;
    var d := Packed(s);
    assert d[2..6] == PYCD && d[6..] == [0] + WithoutBom(s);
  }

  // ----- in place, as the commands do it -----

  method Pack(data: array<byte>, size: nat) returns (a: array<byte>, n: nat)
    requires size <= data.Length
    modifies data
    ensures n <= a.Length && a[..n] == Packed(old(data[..size]))
  {
    hide U16le;
    var length := size;
    ghost var s := data[..size];
    if size >= 3 && data[0] == 0xEF && data[1] == 0xBB && data[2] == 0xBF {
      assert s[..3] == [s[0], s[1], s[2]];
      assert s[3..] == data[3..size];
      MoveDown(data, size, 3);
      length := size - 3;
    } else if size >= 3 {
      assert s[..3] == [s[0], s[1], s[2]];
    }
    assert data[..length] == WithoutBom(s);
    a, n := Surround(data, length, U16le(length + 5) + PYCD + [0], []);
    assert U16le(length + 5) + PYCD + [0] + WithoutBom(s) + [] == Packed(s);
  }

  /** The length loop: at most two bytes, seven bits of the length each, low bits first. */
  method ReadLength(data: array<byte>, from: nat) returns (ok: bool, length: nat, pos: nat)
    requires from < data.Length && data[from] != 0
    ensures from < pos <= from + 2 && pos <= data.Length
    ensures ok && length != 0 && pos + length <= data.Length <==> FirstRecord(data[from..]).Some?
    ensures ok && length != 0 && pos + length <= data.Length ==>
      FirstRecord(data[from..]) == Some(Record(pos - from == 2, data[from..][pos - from..pos - from + length]))
  {
    pos, length := from, 0;
    var scale, count := 1, 0;
    ok := true;
    while pos < data.Length
      invariant from <= pos <= data.Length && count == pos - from <= 1 && (pos == from || data[from] >= 0x80)
      invariant scale == if pos == from then 1 else 0x80
      invariant length == if pos == from then 0 else data[from] as int % 0x80
    {
      var b := data[pos];
      pos := pos + 1;
      length := length + (b as int % 0x80) * scale;
      count := count + 1;
      if b < 0x80 {
        return;
      }
      scale := scale * 0x80;
      if count >= 2 {
        ok := false;
        return;
      }
    }
  }

  /** `unwrap_deep_python`; the script is returned in `out` when there is one. */
  method Unwrap(data: array<byte>) returns (kind: Payload, out: array<byte>)
    ensures kind == Unwrapped(data[..]) && fresh(out)
    ensures kind.Script? ==> out[..] == kind.script
  {
    hide ReadScript, FirstRecord, Leb128;
    out := new byte[0];
    if data.Length < 7 {
      return NotPython, out;
    }
    if data[2..6] != PYCD && data[2..6] != PYSC {
      assert data[..][2..6] == data[2..6];
      return NotPython, out;
    }
    assert data[..][2..6] == data[2..6] && data[..][6..] == data[6..];
    var pos := 6;
    while pos < data.Length && data[pos] != 0x00
      invariant 6 <= pos <= data.Length
      invariant ReadScript(data[pos..]) == ReadScript(data[6..])
    {
      ghost var from := pos;
      var ok, length;
      ok, length, pos := ReadLength(data, pos);
      ReadStep(data[from..]);
      if !ok || length == 0 || pos + length > data.Length {
        return Malformed, out;
      }
      WidthOf(FirstRecord(data[from..]).value);
      pos := pos + length;
      assert data[from..][pos - from..] == data[pos..];
    }
    ReadStep(data[pos..]);
    if pos >= data.Length {
      return Malformed, out;
    }
    out := CopyOut(data, pos + 1, data.Length);
    assert data[pos..][1..] == data[pos + 1..data.Length];
    return Script(out[..]), out;
  }

  lemma ReadStep(t: bytes)
    ensures t == [] ==> ReadScript(t) == Malformed
    ensures t != [] && t[0] == 0 ==> ReadScript(t) == Script(t[1..])
    ensures t != [] && t[0] != 0 && FirstRecord(t).None? ==> ReadScript(t) == Malformed
    ensures t != [] && t[0] != 0 && FirstRecord(t).Some? ==>
      ReadScript(t) == ReadScript(t[|Leb128(FirstRecord(t).value)| + |FirstRecord(t).value.body|..])
  {
    hide FirstRecord, Leb128;
  }

  lemma WidthOf(r: Record)
    requires WellFormed(r)
    ensures |Leb128(r)| == if r.wide then 2 else 1
  {
  }
}

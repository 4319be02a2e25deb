/** The two commands as the tool runs them: buffers in, a freshly filled buffer out. */
module SquishCommands {
  import opened Bytes
  import opened Squish
  import opened SquishProgram

  // ----- hex text -----

  lemma {:induction false} HexAppend(a: bytes, b: byte)
    ensures Hex(a + [b]) == Hex(a) + [HexDigit(b as int / 16), HexDigit(b as int % 16)]
  {
    hide HexDigit;
    if a == [] {
      assert ([] + [b])[1..] == [];
    } else {
      HexAppend(a[1..], b);
      assert (a + [b])[1..] == a[1..] + [b];
    }
  }

  method EncodeHex(c: Cursor) returns (hex: array<byte>)
    requires c.Valid()
    ensures fresh(hex) && hex[..] == Hex(c.View())
  {
    hide Hex, HexDigit;
    hex := new byte[2 * c.len](_ => 0);
    EmptyHex();
    var i: nat := 0;
    while i < c.len
      invariant i <= c.len && hex[..2 * i] == Hex(c.View()[..i])
    {
      var b := c.At(i);
      HexAppend(c.View()[..i], b);
      assert c.View()[..i + 1] == c.View()[..i] + [b];
      hex[2 * i] := HexDigit(b as int / 16);
      hex[2 * i + 1] := HexDigit(b as int % 16);
      i := i + 1;
    }
    assert c.View()[..i] == c.View();
  }

  lemma EmptyHex()
    ensures Hex([]) == []
  {
  }

  lemma {:induction false} OddIsNotHex(text: bytes)
    requires |text| % 2 == 1
    ensures UnHex(text).None?
  {
    hide Nibble;
    if |text| > 1 {
      OddIsNotHex(text[2..]);
    }
  }

  method DecodeHex(c: Cursor) returns (ok: bool, code: array<byte>)
    requires c.Valid()
    ensures fresh(code)
    ensures ok <==> UnHex(c.View()).Some?
    ensures ok ==> code[..] == UnHex(c.View()).value
  {
    hide UnHex, Nibble;
    code := new byte[c.len / 2](_ => 0);
    if c.len % 2 != 0 {
      OddIsNotHex(c.View());
      return false, code;
    }
    var i: nat := 0;
    assert c.View()[0..] == c.View();
    while i < code.Length
      invariant i <= code.Length && code.Length * 2 == c.len
      invariant Prepend(code[..i], UnHex(c.View()[2 * i..])) == UnHex(c.View())
    {
      var hi, lo := Nibble(c.At(2 * i)), Nibble(c.At(2 * i + 1));
      UnHexStep(c.View(), 2 * i);
      if hi < 0 || lo < 0 {
        return false, code;
      }
      var b := (hi * 16 + lo) as byte;
      PrependStep(code[..i], b, UnHex(c.View()[2 * i + 2..]));
      code[i] := b;
      assert code[..i + 1] == code[..i] + [b];
      i := i + 1;
    }
    NothingToUnHex(c.View()[2 * i..]);
    assert code[..i] == code[..];
    return true, code;
  }

  lemma UnHexStep(text: bytes, k: nat)
    requires k + 2 <= |text|
    ensures Nibble(text[k]) < 0 || Nibble(text[k + 1]) < 0 ==> UnHex(text[k..]).None?
    ensures Nibble(text[k]) >= 0 && Nibble(text[k + 1]) >= 0 ==>
      UnHex(text[k..]) == Prepend([(Nibble(text[k]) * 16 + Nibble(text[k + 1])) as byte], UnHex(text[k + 2..]))
  {
    hide Nibble;
    assert text[k..][2..] == text[k + 2..];
  }

  lemma NothingToUnHex(text: bytes)
    ensures text == [] ==> UnHex(text) == Some([])
  {
  }

  // ----- the builders, with the offsets the source writes to -----

  /** The length field is in place and `body` has been written behind it, up to `offset`. */
  ghost predicate Filled(a: array<byte>, offset: nat, body: bytes)
    reads a
  {
    2 <= offset <= a.Length && a[..2] == U16le(a.Length - 2) && a[2..offset] == body
  }

  ghost predicate Holds(a: array<byte>, body: bytes)
    reads a
  {
    a[..] == U16le(|body|) + body
  }

  lemma FilledUp(a: array<byte>, body: bytes)
    requires Filled(a, a.Length, body)
    ensures Holds(a, body)
  {
    hide U16le;
    assert a[..] == a[..2] + a[2..a.Length];
  }

  method NewData(totalLength: nat) returns (a: array<byte>)
    requires totalLength >= 2
    ensures fresh(a) && a.Length == totalLength && Filled(a, 2, [])
  {
    a := new byte[totalLength](_ => 0);
    a[0] := Low8(totalLength - 2);
    a[1] := Low8((totalLength - 2) / 0x100);
  }

  /** `memcpy(a + offset, b, |b|)` behind the part already written. */
  method Put(a: array<byte>, offset: nat, b: bytes, ghost done: bytes) returns (ghost next: bytes)
    requires Filled(a, offset, done) && offset + |b| <= a.Length
    modifies a
    ensures next == done + b && Filled(a, offset + |b|, next)
    ensures done == [] ==> next == b
  {
    hide U16le;
    Store(a, offset, b);
    assert a[2..offset] == a[..offset][2..] && a[..2] == a[..offset][..2];
    assert a[2..offset + |b|] == a[2..offset] + a[offset..offset + |b|];
    next := done + b;
  }

  method BuildTi82(marker: bytes, desc: bytes, code: array<byte>) returns (a: array<byte>)
    requires |marker| == 3
    ensures fresh(a) && Holds(a, marker + desc + [0] + code[..])
  {
    hide U16le, Filled, Holds;
    ghost var binary := code[..];
    a := NewData(2 + 3 + |desc| + 1 + code.Length);
    ghost var t := Put(a, 2, marker, []);
    t := Put(a, 5, desc, t);
    t := Put(a, 5 + |desc|, [0], t);
    t := Put(a, 6 + |desc|, code[..], t);
    assert code[..] == binary;
    FilledUp(a, t);
  }

  method BuildIon(marker: bytes, desc: bytes, code: array<byte>) returns (a: array<byte>)
    ensures fresh(a) && Holds(a, marker + [0xC9, 0x30, Low8(|desc| + 1)] + desc + [0] + code[..])
  {
    hide U16le, Low8, Filled, Holds;
    var n := |marker|;
    ghost var binary := code[..];
    a := NewData(2 + n + 3 + |desc| + 1 + code.Length);
    ghost var t := Put(a, 2, marker, []);
    t := Put(a, 2 + n, [0xC9, 0x30, Low8(|desc| + 1)], t);
    t := Put(a, 5 + n, desc, t);
    t := Put(a, 5 + n + |desc|, [0], t);
    t := Put(a, 6 + n + |desc|, code[..], t);
    assert code[..] == binary;
    FilledUp(a, t);
  }

  method BuildAshell(desc: bytes, code: array<byte>) returns (a: array<byte>)
    ensures fresh(a) && Holds(a, [0x00, 0x18, 0x04, 0x00, 0x00] + U16le(TitlePointer(code[..])) + code[..] + desc + [0])
  {
    hide U16le, Filled, Holds;
    var titlePointer := 0x9327 + 0x48 + 2 + 7 + code.Length;
    ghost var binary := code[..];
    a := NewData(2 + 7 + code.Length + |desc| + 1);
    ghost var t := Put(a, 2, [0x00, 0x18, 0x04, 0x00, 0x00], []);
    t := Put(a, 7, U16le(titlePointer), t);
    t := Put(a, 9, code[..], t);
    t := Put(a, 9 + code.Length, desc, t);
    t := Put(a, 9 + code.Length + |desc|, [0], t);
    assert code[..] == binary;
    FilledUp(a, t);
  }

  method BuildVenus(desc: bytes, code: array<byte>) returns (a: array<byte>)
    ensures fresh(a) && Holds(a, VENUS_MAGIC + [0x30, Low8(|desc| + 1)] + desc + [0] + code[..])
  {
    hide U16le, Low8, Filled, Holds;
    ghost var binary := code[..];
    a := NewData(2 + 7 + 2 + |desc| + 1 + code.Length);
    ghost var t := Put(a, 2, VENUS_MAGIC, []);
    t := Put(a, 9, [0x30, Low8(|desc| + 1)], t);
    t := Put(a, 11, desc, t);
    t := Put(a, 11 + |desc|, [0], t);
    t := Put(a, 12 + |desc|, code[..], t);
    assert code[..] == binary;
    FilledUp(a, t);
  }

  method BuildMallard(desc: bytes, code: array<byte>) returns (a: array<byte>)
    ensures fresh(a)
    ensures Holds(a, MALLARD_MAGIC + MALLARD_NAME + U16le(MALLARD_USERMEM + 2 + 4 + 2 + |desc| + 1) + desc + [0]
        + code[..])
  {
    hide U16le, Filled, Holds;
    ghost var binary := code[..];
    a := NewData(2 + 2 + 4 + 2 + |desc| + 1 + code.Length);
    ghost var t := Put(a, 2, MALLARD_MAGIC, []);
    t := Put(a, 4, MALLARD_NAME, t);
    t := Put(a, 8, U16le(MALLARD_USERMEM + 2 + 4 + 2 + |desc| + 1), t);
    t := Put(a, 10, desc, t);
    t := Put(a, 10 + |desc|, [0], t);
    t := Put(a, 11 + |desc|, code[..], t);
    assert code[..] == binary;
    FilledUp(a, t);
  }

  method BuildNostub(code: array<byte>) returns (a: array<byte>)
    ensures fresh(a)
    ensures Holds(a, NOSTUB_PREFIX
        + [0x31, Digit(code.Length / 100), Digit(code.Length / 10), Digit(code.Length), 0x3F] + code[..])
  {
    hide U16le, Digit, Filled, Holds;
    ghost var binary := code[..];
    a := NewData(2 + 5 + 1 + 3 + 1 + code.Length);
    ghost var t := Put(a, 2, NOSTUB_PREFIX, []);
    t := Put(a, 7, [0x31, Digit(code.Length / 100), Digit(code.Length / 10), Digit(code.Length), 0x3F], t);
    t := Put(a, 12, code[..], t);
    assert code[..] == binary;
    FilledUp(a, t);
  }

  method BuildNamed(prefix: bytes, shell: Shell, code: array<byte>) returns (a: array<byte>)
    requires |prefix| == 3 && shell in {Ion83, Pse83, Ice, Sos}
    ensures fresh(a) && Holds(a, prefix + FixedName(shell) + code[..])
  {
    hide U16le, Filled, Holds;
    var name := if shell.Ion83? then IONZ else if shell.Pse83? then PSEZ else if shell.Ice? then ZICE else ZSOSL;
    var tail := if shell.Ion83? || shell.Pse83? then TAIL_STOP else TAIL_CLLCD;
    assert prefix + name + tail == prefix + FixedName(shell);
    ghost var binary := code[..];
    a := NewData(2 + 3 + |name| + |tail| + code.Length);
    ghost var t := Put(a, 2, prefix, []);
    t := Put(a, 5, name, t);
    t := Put(a, 5 + |name|, tail, t);
    t := Put(a, 5 + |name| + |tail|, code[..], t);
    assert code[..] == binary;
    FilledUp(a, t);
  }

  method BuildTse(desc: bytes, code: array<byte>) returns (a: array<byte>)
    ensures fresh(a) && Holds(a, ASM_MARKER + TSE_MAGIC + [0x20] + desc + [0] + [0, 0] + code[..])
  {
    hide U16le, Filled, Holds;
    ghost var binary := code[..];
    a := NewData(2 + 2 + 5 + 1 + |desc| + 1 + 2 + code.Length);
    ghost var t := Put(a, 2, ASM_MARKER, []);
    t := Put(a, 4, TSE_MAGIC, t);
    t := Put(a, 9, [0x20], t);
    t := Put(a, 10, desc, t);
    t := Put(a, 10 + |desc|, [0], t);
    t := Put(a, 11 + |desc|, [0, 0], t);
    t := Put(a, 13 + |desc|, code[..], t);
    assert code[..] == binary;
    FilledUp(a, t);
  }

  method BuildMirage(desc: bytes, code: array<byte>) returns (a: array<byte>)
    ensures fresh(a) && Holds(a, ASM_MARKER + MIRAGE_MAGIC + Zeros(ICON_LENGTH) + desc + [0] + code[..])
  {
    hide U16le, Filled, Holds;
    ghost var binary := code[..];
    a := NewData(2 + 2 + 2 + ICON_LENGTH + |desc| + 1 + code.Length);
    ghost var t := Put(a, 2, ASM_MARKER, []);
    t := Put(a, 4, MIRAGE_MAGIC, t);
    t := Put(a, 6, Zeros(ICON_LENGTH), t);
    t := Put(a, 6 + ICON_LENGTH, desc, t);
    t := Put(a, 6 + ICON_LENGTH + |desc|, [0], t);
    t := Put(a, 7 + ICON_LENGTH + |desc|, code[..], t);
    assert code[..] == binary;
    FilledUp(a, t);
  }

  method BuildPlain(marker: bytes, code: array<byte>) returns (a: array<byte>)
    ensures fresh(a) && Holds(a, marker + code[..])
  {
    hide U16le, Filled, Holds;
    ghost var binary := code[..];
    a := NewData(2 + |marker| + code.Length);
    ghost var t := Put(a, 2, marker, []);
    t := Put(a, 2 + |marker|, code[..], t);
    assert code[..] == binary;
    FilledUp(a, t);
  }

  /** Picks the builder; `false` when the code is too large for the nostub format. */
  method Build(model: Model, shell: Shell, desc: bytes, code: array<byte>) returns (ok: bool, a: array<byte>)
    ensures fresh(a) && ok == Body(model, shell, desc, code[..]).Some?
    ensures ok ==> Holds(a, Body(model, shell, desc, code[..]).value)
  {
    hide U16le, Low8, FixedName, Holds;
    ok := true;
    if model.TI82? {
      a := BuildTi82(Marker82(shell), desc, code);
    } else if shell.Ion? {
      a := BuildIon(Marker(model), desc, code);
    } else if model.TI83? && shell.Ashell? {
      a := BuildAshell(desc, code);
    } else if model.TI83? && shell.Venus? {
      a := BuildVenus(desc, code);
    } else if model.TI73? && shell.Mallard? {
      a := BuildMallard(desc, code);
    } else if model.TI73? && shell.Nostub? {
      ok := code.Length <= 999;
      a := BuildNostub(code);
    } else if shell in {Ion83, Pse83, Ice, Sos} {
      a := BuildNamed(if model.TI83? then SEND9_PREFIX else ASM_PREFIX, shell, code);
    } else if shell.Tse? {
      a := BuildTse(desc, code);
    } else if shell.Mirage? {
      a := BuildMirage(desc, code);
    } else {
      a := BuildPlain(Marker(model), code);
    }
  }

  // ----- the commands -----

  /** `tifileutil_squish`, from the variable's data to the data it writes back. */
  method SquishData(model: Model, shell: Shell, desc: bytes, data: array<byte>) returns (ok: bool, newdata: array<byte>)
    ensures fresh(newdata)
    ensures ok == Squished(model, shell, desc, data[..]).Some?
    ensures ok ==> newdata[..] == Squished(model, shell, desc, data[..]).value
  {
    hide Body, TextOf, UnHex, Supported, U16le;
    newdata := new byte[0];
    ok := Supported(model, shell);
    if ok {
      var c := new Cursor(data);
      ok := FindText(c, model);
      if ok {
        var code;
        ok, code := DecodeHex(c);
        if ok {
          ok, newdata := Build(model, shell, desc, code);
        }
      }
    }
  }

  /** Moves the window to the hex text; `false` for a nostub program that holds binary. */
  method FindText(c: Cursor, model: Model) returns (ok: bool)
    requires c.Valid()
    modifies c
    ensures c.Valid() && ok == TextOf(model, old(c.View())).Some?
    ensures ok ==> c.View() == TextOf(model, old(c.View())).value
  {
    hide SkipLength, StripTrailer, StripNostub;
    ok := true;
    c.SkipLength();
    if UsesTrailer(model) {
      var hit := c.StripTrailer();
    }
    if model.TI73? {
      NostubIsLong(c.View());
      var hit, kind := c.StripNostub();
      ok := !hit || kind != 0x31;
    }
  }

  lemma NostubIsLong(s: bytes)
    ensures StripNostub(s).Some? ==> |s| > 5
  {
  }

  /** The text to write: a copy of what is left, or its hexadecimal form. */
  method TextFrom(c: Cursor, hexText: bool) returns (hex: array<byte>)
    requires c.Valid()
    ensures fresh(hex) && hex[..] == if hexText then c.View() else Hex(c.View())
  {
    hide Hex;
    if hexText {
      hex := new byte[c.len](_ => 0);
      Store(hex, 0, c.data[c.ptr..c.ptr + c.len]);
      assert hex[..] == hex[0..0 + c.len];
    } else {
      hex := EncodeHex(c);
    }
  }

  method BuildUnsquished(model: Model, hex: array<byte>) returns (a: array<byte>)
    ensures fresh(a) && a[..] == HexProgram(model, hex[..])
  {
    hide U16le, Filled;
    var trailer := TrailerOf(model);
    ghost var text := hex[..];
    a := NewData(2 + hex.Length + |trailer|);
    ghost var t := Put(a, 2, hex[..], []);
    t := Put(a, 2 + hex.Length, trailer, t);
    FilledUp(a, t);
    assert hex[..] == text;
    assert U16le(|text| + |trailer|) + (text + trailer) == U16le(|text| + |trailer|) + text + trailer;
  }

  /** `tifileutil_unsquish`, from the variable's data to the data it writes back. */
  method UnsquishData(model: Model, data: array<byte>) returns (newdata: array<byte>)
    modifies data
    ensures fresh(newdata) && newdata[..] == Unsquished(model, old(data[..]))
  {
    hide SkipLength, StripAll, Passes, HexAlready, Hex, HexProgram;
    var c := new Cursor(data);
    c.SkipLength();
    var hexText := c.StripHeaders(model);
    var hex := TextFrom(c, hexText);
    newdata := BuildUnsquished(model, hex);
  }
}

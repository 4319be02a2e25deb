/** Unsquishing undoes squishing, and exactly when (tifileutil/src/squish.cc). */
module SquishRoundTrip {
  import opened Bytes
  import opened Squish

  // ----- the cascade only ever shortens -----

  lemma StripShortens(p: Pass, s: bytes)
    ensures Strip(p, s).Some? ==> |Strip(p, s).value| < |s|
  {
    hide FirstNul, GetU16le;
    match p {
      case Ti82Pass =>
      case Ti83Pass =>
        if |s| >= 7 && s[0] == 0x00 && s[1] == 0x18 {
          AshellShortens(s);
        }
      case Ti73Pass =>
      case MarkerPass(model) =>
      case NamedPass =>
      case TsePass =>
      case PlusPass =>
      case IonPass =>
      case TrailerPass =>
    }
  }

  lemma AshellShortens(s: bytes)
    requires |s| >= 7
    ensures StripAshell(s).Some? ==> |StripAshell(s).value| < |s|
  {
    hide FirstNul, GetU16le;
  }

  /** No pass of `ps` recognises `s`. */
  predicate Unrecognised(ps: seq<Pass>, s: bytes)
  {
    forall k :: 0 <= k < |ps| ==> Strip(ps[k], s).None?
  }

  lemma {:induction false} CascadeShortens(ps: seq<Pass>, s: bytes)
    ensures |StripAll(ps, s)| <= |s|
    ensures Unrecognised(ps, s) ==> StripAll(ps, s) == s
    ensures !Unrecognised(ps, s) ==> |StripAll(ps, s)| < |s|
    decreases |ps|
  {
    hide Strip;
    if ps != [] {
      StripShortens(ps[0], s);
      var t := OrSame(Strip(ps[0], s), s);
      CascadeShortens(ps[1..], t);
      CascadeShortens(ps[1..], s);
      assert forall k :: 0 <= k < |ps[1..]| ==> ps[1..][k] == ps[k + 1];
      if Unrecognised(ps[1..], s) && Strip(ps[0], s).None? {
        forall k | 0 <= k < |ps| ensures Strip(ps[k], s).None? {
          assert k > 0 ==> ps[k] == ps[1..][k - 1];
        }
      }
    }
  }

  /** A pass that does not recognise its input is skipped; one that does takes its header off. */
  lemma Skip(ps: seq<Pass>, s: bytes)
    requires ps != [] && Strip(ps[0], s).None?
    ensures StripAll(ps, s) == StripAll(ps[1..], s)
  {
    hide Strip;
  }

  lemma Take(ps: seq<Pass>, s: bytes, t: bytes)
    requires ps != [] && Strip(ps[0], s) == Some(t)
    ensures StripAll(ps, s) == StripAll(ps[1..], t)
  {
    hide Strip;
  }

  // ----- each builder against its stripper -----

  lemma NulAt(front: bytes, name: bytes, rest: bytes)
    requires NulFree(name)
    ensures var s := front + name + [0] + rest;
      NulFrom(s, |front|) == |front| + |name| && s[|front| + |name| + 1..] == rest
  {
    hide FirstNul;
    var s := front + name + [0] + rest;
    assert s[|front|..] == name + [0] + rest;
    FirstNulUnique(s[|front|..], |name|);
  }

  lemma Ti82Undone(shell: Shell, desc: bytes, code: bytes)
    requires NulFree(desc)
    ensures StripTi82(Marker82(shell) + desc + [0] + code) == Some(code)
  {
    hide NulFrom;
    var m := Marker82(shell);
    var s := m + desc + [0] + code;
    NulAt(m, desc, code);
    assert s[..3] == m;
  }

  /** The one-byte offset of Ion and Venus headers covers descriptions of at most 254 bytes. */
  lemma IonUndone(desc: bytes, code: bytes)
    requires NulFree(desc)
    ensures var s := [0xC9, 0x30, Low8(|desc| + 1)] + desc + [0] + code;
      StripIon(s) == if |desc| <= 254 then Some(code) else None
  {
    hide NulFrom;
    var front := [0xC9, 0x30, Low8(|desc| + 1)];
    var s := front + desc + [0] + code;
    NulAt(front, desc, code);
    assert s[0] == 0xC9 && s[1] == 0x30 && s[2] == Low8(|desc| + 1);
  }

  lemma VenusStripped(t: bytes)
    ensures StripTi83(VENUS_MAGIC + t) == Some(StripVenus(VENUS_MAGIC + t)) && (VENUS_MAGIC + t)[7..] == t
  {
    hide StripVenus;
    var s := VENUS_MAGIC + t;
    assert s[..7] == VENUS_MAGIC && s[7..] == t && s[0] == 0xE7;
  }

  lemma VenusUndone(desc: bytes, code: bytes)
    requires NulFree(desc)
    ensures var t := [0x30, Low8(|desc| + 1)] + desc + [0] + code;
      StripTi83(VENUS_MAGIC + t) == Some(if |desc| <= 254 then code else t)
    ensures VENUS_MAGIC + [0x30, Low8(|desc| + 1)] + desc + [0] + code
         == VENUS_MAGIC + ([0x30, Low8(|desc| + 1)] + desc + [0] + code)
  {
    hide NulFrom, StripTi83;
    var front := [0x30, Low8(|desc| + 1)];
    var t := front + desc + [0] + code;
    NulAt(front, desc, code);
    VenusStripped(t);
    assert t[0] == 0x30 && t[1] == Low8(|desc| + 1);
    Assoc(VENUS_MAGIC, front, desc);
    Assoc(VENUS_MAGIC, front + desc, [0]);
    Assoc(VENUS_MAGIC, front + desc + [0], code);
  }

  lemma AshellUndone(desc: bytes, code: bytes)
    requires NulFree(desc) && TitlePointer(code) < TWO_16
    ensures StripTi83([0x00, 0x18, 0x04, 0x00, 0x00] + U16le(TitlePointer(code)) + code + desc + [0]) == Some(code)
  {
    hide NulFrom, GetU16le, U16le;
    var p := TitlePointer(code);
    var head := [0x00, 0x18, 0x04, 0x00, 0x00] + U16le(p);
    var s := head + code + desc + [0];
    assert s[5..7] == U16le(p) + [];
    U16leInverse(p, []);
    var t := s[7..];
    assert t == code + desc + [0] + [];
    NulAt(code, desc, []);
    assert TitleOffset(p, 7) == |code|;
    assert s[0] == 0 && s[1] == 0x18 && s[2] == 4;
    assert t[..|code|] + [] == code;
  }

  lemma MallardUndone(desc: bytes, code: bytes)
    requires NulFree(desc)
    ensures var s := MALLARD_MAGIC + MALLARD_NAME + U16le(MALLARD_USERMEM + 2 + 4 + 2 + |desc| + 1) + desc + [0] + code;
      StripMallard(s) == Some(code)
  {
    hide NulFrom, U16le;
    var front := MALLARD_MAGIC + MALLARD_NAME + U16le(MALLARD_USERMEM + 2 + 4 + 2 + |desc| + 1);
    NulAt(front, desc, code);
    assert (front + desc + [0] + code)[..2] == MALLARD_MAGIC;
  }

  lemma NostubUndone(code: bytes)
    requires |code| <= 999
    ensures var s := NOSTUB_PREFIX + [0x31, Digit(|code| / 100), Digit(|code| / 10), Digit(|code|), 0x3F] + code;
      StripMallard(s).None? && StripNostub(s) == Some(code) && s[5] == 0x31
  {
    hide NulFrom;
    var head := NOSTUB_PREFIX + [0x31, Digit(|code| / 100), Digit(|code| / 10), Digit(|code|), 0x3F];
    var s := head + code;
    assert s[..5] == NOSTUB_PREFIX && s[..2][0] == 0x5F && s[10..] == code;
    assert s[5] == head[5] && s[6] == head[6] && s[7] == head[7] && s[8] == head[8] && s[9] == head[9];
  }

  lemma NamedUndone(prefix: bytes, shell: Shell, code: bytes)
    requires |prefix| == 3 && shell in {Ion83, Pse83, Ice, Sos}
    ensures StripNamed(prefix, prefix + FixedName(shell) + code) == Some(code)
  {
    var f := FixedName(shell);
    var s := prefix + f + code;
    assert s[..3 + |f|] == prefix + f;
    assert s[3] == f[0] && s[4] == f[1] && s[5] == f[2] && s[6] == f[3];
    NameMismatch(prefix, s, Ion83);
    NameMismatch(prefix, s, Pse83);
    NameMismatch(prefix, s, Ice);
    NameMismatch(prefix, s, Sos);
  }

  lemma NameMismatch(prefix: bytes, s: bytes, shell: Shell)
    requires |prefix| == 3 && |s| >= 7
    ensures StartsWith(s, prefix + FixedName(shell)) ==>
      s[3] == FixedName(shell)[0] && s[4] == FixedName(shell)[1] && s[5] == FixedName(shell)[2]
        && s[6] == FixedName(shell)[3]
  {
    var p := prefix + FixedName(shell);
    if StartsWith(s, p) {
      assert s[3] == s[..|p|][3] && s[4] == s[..|p|][4] && s[5] == s[..|p|][5] && s[6] == s[..|p|][6];
    }
  }

  lemma TseUndone(desc: bytes, code: bytes)
    requires NulFree(desc)
    ensures StripTse(TSE_MAGIC + [0x20] + desc + [0] + [0, 0] + code) == Some(code)
  {
    hide NulFrom;
    var s := TSE_MAGIC + [0x20] + desc + [0] + [0, 0] + code;
    var title := [0x20] + desc;
    NulAt(TSE_MAGIC, title, [0, 0] + code);
    assert s == TSE_MAGIC + title + [0] + ([0, 0] + code);
    assert s[..5] == TSE_MAGIC;
  }

  /** The MirageOS stripper wants at least two bytes after the icon. */
  lemma MirageUndone(desc: bytes, code: bytes)
    requires NulFree(desc)
    ensures var s := MIRAGE_MAGIC + Zeros(ICON_LENGTH) + desc + [0] + code;
      StripPlus(s) == if |desc| + |code| >= 1 then Some(code) else None
  {
    hide NulFrom;
    var front := MIRAGE_MAGIC + Zeros(ICON_LENGTH);
    NulAt(front, desc, code);
    var s := front + desc + [0] + code;
    assert s[..2] == MIRAGE_MAGIC;
  }

  // ----- headers no other pass recognises -----

  lemma FirstByteOf(s: bytes, prefix: bytes)
    requires prefix != []
    ensures StartsWith(s, prefix) ==> s != [] && s[0] == prefix[0] && (|prefix| > 1 ==> |s| > 1 && s[1] == prefix[1])
  {
    if StartsWith(s, prefix) {
      assert s[0] == s[..|prefix|][0];
      assert |prefix| > 1 ==> s[1] == s[..|prefix|][1];
    }
  }

  /** A body that starts with an Ion header is not taken for anything else. */
  lemma IonIsNotOther(s: bytes)
    requires |s| >= 2 && s[0] == 0xC9 && s[1] == 0x30
    ensures StripTi83(s).None? && StripNamed(ASM_PREFIX, s).None? && StripTse(s).None? && StripPlus(s).None?
  {
    hide NulFrom;
    NamedNeeds(ASM_PREFIX, s);
    NamedNeeds(SEND9_PREFIX, s);
    FirstByteOf(s, VENUS_MAGIC);
    FirstByteOf(s, ION_MODULE);
    FirstByteOf(s, SOS_MODULE);
    FirstByteOf(s, TSE_MAGIC);
    FirstByteOf(s, MIRAGE_MAGIC);
    FirstByteOf(s, MIRAGE_MODIFIED);
  }

  lemma NamedNeeds(prefix: bytes, s: bytes)
    requires |prefix| == 3
    ensures StripNamed(prefix, s).Some? ==> |s| > 1 && s[0] == prefix[0] && s[1] == prefix[1]
  {
    hide FixedName;
    FirstByteOf(s, prefix + FixedName(Ion83));
    FirstByteOf(s, prefix + FixedName(Pse83));
    FirstByteOf(s, prefix + FixedName(Ice));
    FirstByteOf(s, prefix + FixedName(Sos));
  }

  lemma TseIsNotNamed(s: bytes)
    requires |s| >= 2 && s[0] == 0xC9
    ensures StripNamed(ASM_PREFIX, s).None?
  {
    NamedNeeds(ASM_PREFIX, s);
  }

  lemma MirageIsNotTse(s: bytes)
    requires |s| >= 2 && s[0] == 0xC9 && s[1] == 0x01
    ensures StripNamed(ASM_PREFIX, s).None? && StripTse(s).None?
  {
    hide NulFrom;
    NamedNeeds(ASM_PREFIX, s);
    FirstByteOf(s, TSE_MAGIC);
  }

  lemma AsmIsNotMarked(model: Model, s: bytes)
    requires |s| >= 2 && s[0] == 0xBB && s[1] == 0x6A && IsPlusFamily(model)
    ensures StripMarker(model, s).None?
  {
    FirstByteOf(s, Marker(model));
  }

  lemma Send9IsNotAshellOrVenus(s: bytes)
    requires |s| >= 4 && s[0] == 0xE7 && s[3] != 0x5B
    ensures !(|s| >= 7 && s[0] == 0x00) && !StartsWith(s, VENUS_MAGIC)
  {
    assert VENUS_MAGIC[3] == 0x5B;
    assert |s| >= 7 ==> s[..7][3] == s[3];
  }

  lemma MarkerUndone(model: Model, rest: bytes)
    requires Marker(model) != []
    ensures StripMarker(model, Marker(model) + rest) == Some(rest)
  {
  }

  /** A TSE or MirageOS header behind a marker its model does not use is never taken off. */
  lemma ForeignMarker(model: Model, rest: bytes)
    requires IsPlusFamily(model) && Marker(model) != ASM_MARKER && |rest| >= 4 && rest[0] == 0xC9 && rest[1] != 0x30
    ensures Unrecognised(Passes(model), ASM_MARKER + rest)
  {
    hide StripNamed, StripTse, StripPlus, StripIon;
    var s := ASM_MARKER + rest;
    assert s[0] == 0xBB && s[1] == 0x6D && s[2] == 0xC9 && s[3] == rest[1];
    FirstByteOf(s, Marker(model));
    NamedNeeds(ASM_PREFIX, s);
    NoHeaderAfterMarker(s);
    var ps := Passes(model);
    assert ps == [MarkerPass(model), NamedPass, TsePass, PlusPass, IonPass];
  }

  lemma NoHeaderAfterMarker(s: bytes)
    requires |s| >= 4 && s[0] == 0xBB && s[1] == 0x6D && s[2] == 0xC9 && s[3] != 0x30
    ensures StripTse(s).None? && StripPlus(s).None? && StripIon(s).None?
  {
    hide NulFrom;
    FirstByteOf(s, TSE_MAGIC);
    FirstByteOf(s, MIRAGE_MAGIC);
    FirstByteOf(s, MIRAGE_MODIFIED);
    FirstByteOf(s, ION_MODULE);
  }

  // ----- the round trip -----

  /** What a caller can check before squishing: the header the builder writes is one the cascade takes off whole. */
  predicate HeaderOk(model: Model, shell: Shell, desc: bytes, code: bytes)
  {
    && (shell.Ion? || shell.Venus? ==> |desc| <= 254)
    && (shell.Tse? || shell.Mirage? ==> Marker(model) == ASM_MARKER)
    && (shell.Mirage? ==> |desc| + |code| >= 1)
  }

  /** The passes that still run once the header is off: the ones that must not recognise the code itself. */
  function Later(model: Model, shell: Shell): seq<Pass>
  {
    if model.TI82? then []
    else if model.TI83? then
      if shell.NoShell? then Passes(model) else if shell.Ion? then [TrailerPass] else [IonPass, TrailerPass]
    else if model.TI73? then if shell.NoShell? then Passes(model) else [IonPass, TrailerPass]
    else
      match shell
      case NoShell => [NamedPass, TsePass, PlusPass, IonPass]
      case Ion => []
      case Tse => [PlusPass, IonPass]
      case Mirage => [IonPass]
      case _ => [TsePass, PlusPass, IonPass]
  }

  ghost predicate Undone(model: Model, shell: Shell, desc: bytes, code: bytes, body: bytes)
  {
    if HeaderOk(model, shell, desc, code) then StripAll(Passes(model), body) == StripAll(Later(model, shell), code)
    else |StripAll(Passes(model), body)| > |code|
  }

  lemma CascadeTail(ps: seq<Pass>, s: bytes)
    requires ps == [IonPass, TrailerPass] || ps == [TrailerPass]
    requires ps[0].IonPass? ==> StripIon(s).None?
    ensures |StripAll(ps, s)| >= |s| - 9
  {
    hide StripIon;
    var last := [TrailerPass];
    assert last[1..] == [];
    assert StripAll(last, s) == OrSame(StripTrailer(s), s);
    if ps[0].IonPass? {
      assert ps[1..] == last;
    }
  }

  lemma HeaderUndone83(shell: Shell, desc: bytes, code: bytes, body: bytes)
    requires Supported(TI83, shell) && NulFree(desc) && Body(TI83, shell, desc, code) == Some(body)
    requires shell.Ashell? ==> TitlePointer(code) < TWO_16
    ensures Undone(TI83, shell, desc, code, body)
  {
    hide StripAll, StripTi83, StripIon, NulFrom, FixedName;
    var ps := Passes(TI83);
    assert ps[1..] == [IonPass, TrailerPass] && ps[1..][1..] == [TrailerPass];
    match shell {
      case NoShell => assert body == code;
      case Ion =>
        var s := [0xC9, 0x30, Low8(|desc| + 1)] + desc + [0] + code;
        assert body == [] + [0xC9, 0x30, Low8(|desc| + 1)] + desc + [0] + code == s;
        IonIsNotOther(s);
        IonUndone(desc, code);
        Skip(ps, s);
        if |desc| <= 254 {
          Take(ps[1..], s, code);
        } else {
          CascadeTail(ps[1..], s);
        }
      case Venus =>
        VenusUndone(desc, code);
        var t := [0x30, Low8(|desc| + 1)] + desc + [0] + code;
        Take(ps, body, if |desc| <= 254 then code else t);
        if |desc| > 254 {
          assert t[0] == 0x30;
          NotIon(t);
          CascadeTail(ps[1..], t);
        }
      case Ashell =>
        AshellUndone(desc, code);
        Take(ps, body, code);
      case _ =>
        NamedUndone(SEND9_PREFIX, shell, code);
        NamedIsTi83(shell, code, body);
        Take(ps, body, code);
    }
  }

  lemma NotIon(s: bytes)
    requires s != [] && s[0] != 0xC9 && s[0] != 0xAF && s[0] != 0xBB
    ensures StripIon(s).None?
  {
  }

  lemma NamedIsTi83(shell: Shell, code: bytes, body: bytes)
    requires shell in {Ion83, Pse83, Ice, Sos} && body == SEND9_PREFIX + FixedName(shell) + code
    requires StripNamed(SEND9_PREFIX, body) == Some(code)
    ensures StripTi83(body) == Some(code)
  {
    hide StripNamed;
    assert body[0] == 0xE7 && body[3] == FixedName(shell)[0];
    Send9IsNotAshellOrVenus(body);
  }

  lemma HeaderUndone73(shell: Shell, desc: bytes, code: bytes, body: bytes)
    requires Supported(TI73, shell) && NulFree(desc) && Body(TI73, shell, desc, code) == Some(body)
    ensures Undone(TI73, shell, desc, code, body)
    ensures HexAlready(TI73, body) ==> shell.NoShell?
  {
    hide StripAll, StripMallard, StripNostub, NulFrom;
    var ps := Passes(TI73);
    assert ps[1..] == [IonPass, TrailerPass];
    match shell {
      case NoShell => assert body == code;
      case Mallard =>
        MallardUndone(desc, code);
        Take(ps, body, code);
      case Nostub =>
        NostubUndone(code);
        Take(ps, body, code);
    }
  }

  lemma IonUndonePlus(model: Model, desc: bytes, code: bytes, body: bytes)
    requires IsPlusFamily(model) && NulFree(desc) && Body(model, Ion, desc, code) == Some(body)
    ensures Undone(model, Ion, desc, code, body)
  {
    hide StripAll, StripNamed, StripTse, StripPlus, StripIon, StripMarker, NulFrom, FixedName;
    var s := [0xC9, 0x30, Low8(|desc| + 1)] + desc + [0] + code;
    assert body == Marker(model) + s;
    MarkerUndone(model, s);
    IonIsNotOther(s);
    IonUndone(desc, code);
    PlusCascade(model, body, s);
    LastPass(s);
  }

  lemma TseUndonePlus(model: Model, desc: bytes, code: bytes, body: bytes)
    requires IsPlusFamily(model) && NulFree(desc) && Body(model, Tse, desc, code) == Some(body)
    ensures Undone(model, Tse, desc, code, body)
  {
    hide StripAll, StripNamed, StripTse, StripPlus, StripIon, StripMarker, NulFrom, FixedName;
    var s := TSE_MAGIC + [0x20] + desc + [0] + [0, 0] + code;
    assert body == ASM_MARKER + s;
    if Marker(model) == ASM_MARKER {
      MarkerUndone(model, s);
      TseIsNotNamed(s);
      TseUndone(desc, code);
      PlusCascade(model, body, s);
      Take([TsePass, PlusPass, IonPass], s, code);
    } else {
      ForeignMarker(model, s);
      CascadeShortens(Passes(model), body);
    }
  }

  lemma MirageUndonePlus(model: Model, desc: bytes, code: bytes, body: bytes)
    requires IsPlusFamily(model) && NulFree(desc) && Body(model, Mirage, desc, code) == Some(body)
    ensures Undone(model, Mirage, desc, code, body)
  {
    hide StripAll, StripNamed, StripTse, StripPlus, StripIon, StripMarker, NulFrom, FixedName;
    var s := MIRAGE_MAGIC + Zeros(ICON_LENGTH) + desc + [0] + code;
    assert body == ASM_MARKER + s;
    assert s[0] == 0xC9 && s[1] == 0x01;
    if Marker(model) == ASM_MARKER {
      MarkerUndone(model, s);
      MirageIsNotTse(s);
      MirageUndone(desc, code);
      PlusCascade(model, body, s);
      if |desc| + |code| >= 1 {
        Take([PlusPass, IonPass], s, code);
      } else {
        MirageIsNotIon(s);
        LastPass(s);
      }
    } else {
      ForeignMarker(model, s);
      CascadeShortens(Passes(model), body);
    }
  }

  /** How far the cascade gets once the marker is off `body`. */
  lemma PlusCascade(model: Model, body: bytes, s: bytes)
    requires IsPlusFamily(model) && StripMarker(model, body) == Some(s)
    ensures StripAll(Passes(model), body) == StripAll([NamedPass, TsePass, PlusPass, IonPass], s)
    ensures StripNamed(ASM_PREFIX, s).None? ==>
      StripAll(Passes(model), body) == StripAll([TsePass, PlusPass, IonPass], s)
    ensures StripNamed(ASM_PREFIX, s).None? && StripTse(s).None? ==>
      StripAll(Passes(model), body) == StripAll([PlusPass, IonPass], s)
    ensures StripNamed(ASM_PREFIX, s).None? && StripTse(s).None? && StripPlus(s).None? ==>
      StripAll(Passes(model), body) == StripAll([IonPass], s)
  {
    hide StripAll, StripNamed, StripTse, StripPlus, StripIon, StripMarker, NulFrom, FixedName;
    var p0, p1 := Passes(model), [NamedPass, TsePass, PlusPass, IonPass];
    var p2, p3 := [TsePass, PlusPass, IonPass], [PlusPass, IonPass];
    assert p0[1..] == p1 && p1[1..] == p2 && p2[1..] == p3 && p3[1..] == [IonPass];
    Take(p0, body, s);
    if StripNamed(ASM_PREFIX, s).None? {
      Skip(p1, s);
      if StripTse(s).None? {
        Skip(p2, s);
        if StripPlus(s).None? {
          Skip(p3, s);
        }
      }
    }
  }

  lemma NamedUndonePlus(model: Model, shell: Shell, desc: bytes, code: bytes, body: bytes)
    requires IsPlusFamily(model) && shell in {Ion83, Pse83, Ice} && Body(model, shell, desc, code) == Some(body)
    ensures Undone(model, shell, desc, code, body)
  {
    hide StripAll, StripNamed, StripTse, StripPlus, StripIon, StripMarker, NulFrom, FixedName;
    var ps := Passes(model);
    assert ps[1..] == [NamedPass, TsePass, PlusPass, IonPass] && ps[1..][1..] == [TsePass, PlusPass, IonPass];
    NamedUndone(ASM_PREFIX, shell, code);
    assert body == ASM_PREFIX + FixedName(shell) + code;
    assert body[0] == 0xBB && body[1] == 0x6A;
    AsmIsNotMarked(model, body);
    Skip(ps, body);
    Take(ps[1..], body, code);
  }

  lemma HeaderUndonePlus(model: Model, shell: Shell, desc: bytes, code: bytes, body: bytes)
    requires IsPlusFamily(model) && Supported(model, shell) && NulFree(desc)
      && Body(model, shell, desc, code) == Some(body)
    ensures Undone(model, shell, desc, code, body)
  {
    hide StripAll, StripMarker, Strip;
    match shell {
      case NoShell =>
        MarkerUndone(model, code);
        PlusCascade(model, body, code);
      case Ion => IonUndonePlus(model, desc, code, body);
      case Tse => TseUndonePlus(model, desc, code, body);
      case Mirage => MirageUndonePlus(model, desc, code, body);
      case _ => NamedUndonePlus(model, shell, desc, code, body);
    }
  }

  lemma LastPass(s: bytes)
    ensures StripAll([IonPass], s) == OrSame(StripIon(s), s)
    ensures forall t :: StripAll([], t) == t
  {
    hide StripIon;
    assert [IonPass][1..] == [];
  }

  lemma MirageIsNotIon(s: bytes)
    requires |s| >= 2 && s[0] == 0xC9 && s[1] == 0x01
    ensures StripIon(s).None?
  {
  }

  lemma HeaderUndone(model: Model, shell: Shell, desc: bytes, code: bytes, body: bytes)
    requires Supported(model, shell) && NulFree(desc) && Body(model, shell, desc, code) == Some(body)
    requires shell.Ashell? ==> TitlePointer(code) < TWO_16
    ensures Undone(model, shell, desc, code, body)
    ensures HexAlready(model, body) ==> shell.NoShell?
  {
    hide StripAll, StripTi82, Supported, Body, Undone, StripMallard, StripNostub;
    if model.TI83? {
      HeaderUndone83(shell, desc, code, body);
    } else if model.TI73? {
      HeaderUndone73(shell, desc, code, body);
    } else if model.TI82? {
      HeaderUndone82(shell, desc, code, body);
    } else {
      HeaderUndonePlus(model, shell, desc, code, body);
    }
  }

  lemma HeaderUndone82(shell: Shell, desc: bytes, code: bytes, body: bytes)
    requires Supported(TI82, shell) && NulFree(desc) && Body(TI82, shell, desc, code) == Some(body)
    ensures Undone(TI82, shell, desc, code, body)
  {
    hide StripTi82;
    Ti82Undone(shell, desc, code);
    assert [Ti82Pass][1..] == [];
  }

  // ----- hex text -----

  lemma HexUpper(text: bytes, i: nat)
    requires i < |text| && Nibble(text[i]) >= 0
    ensures HexDigit(Nibble(text[i])) == UpperByte(text[i])
  {
  }

  lemma {:induction false} HexOfUnHex(text: bytes)
    requires UnHex(text).Some?
    ensures Hex(UnHex(text).value) == Upper(text)
  {
    hide Nibble, HexDigit, UpperByte;
    if text != [] {
      HexOfUnHex(text[2..]);
      HexUpper(text, 0);
      HexUpper(text, 1);
      var code := UnHex(text).value;
      assert code[1..] == UnHex(text[2..]).value;
      assert code[0] as int == Nibble(text[0]) * 16 + Nibble(text[1]);
      assert Upper(text) == [UpperByte(text[0]), UpperByte(text[1])] + Upper(text[2..]);
    }
  }

  lemma {:induction false} HexInjective(a: bytes, b: bytes)
    requires Hex(a) == Hex(b)
    ensures a == b
  {
    assert |a| == |b|;
    if a != [] {
      HexDigits(a[0]);
      HexDigits(b[0]);
      assert Hex(a)[0] == Hex(b)[0] && Hex(a)[1] == Hex(b)[1];
      assert Hex(a)[2..] == Hex(a[1..]) && Hex(b)[2..] == Hex(b[1..]);
      HexInjective(a[1..], b[1..]);
      assert a == [a[0]] + a[1..] && b == [b[0]] + b[1..];
    }
  }

  lemma HexDigits(b: byte)
    ensures Nibble(HexDigit(b as int / 16)) == b as int / 16 && Nibble(HexDigit(b as int % 16)) == b as int % 16
  {
  }

  lemma LengthSkipped(body: bytes)
    requires |body| < TWO_16
    ensures SkipLength(U16le(|body|) + body) == body
  {
    hide U16le, GetU16le;
    U16leInverse(|body|, body);
  }

  lemma HexProgramInjective(model: Model, a: bytes, b: bytes)
    ensures HexProgram(model, a) == HexProgram(model, b) <==> a == b
  {
    hide U16le;
    var pa, pb := HexProgram(model, a), HexProgram(model, b);
    if pa == pb {
      assert |a| == |b|;
      assert pa[2..2 + |a|] == a && pb[2..2 + |b|] == b;
    }
  }

  /**
   * Main result. For every supported model and shell, any NUL-free description and any unsquished program holding hex
   * text: squishing and unsquishing again gives the upper-cased text in the standard form if and only if the header is
   * one the cascade takes off whole and no later pass recognises the code itself. (The squished program must be below
   * 64 KiB, and the ASHELL title pointer must fit its 16 bits.)
   */
  lemma UnsquishUndoesSquish(model: Model, shell: Shell, desc: bytes, data: bytes, text: bytes, code: bytes,
                             body: bytes)
    requires Supported(model, shell) && NulFree(desc)
    requires TextOf(model, data) == Some(text) && UnHex(text) == Some(code)
    requires Body(model, shell, desc, code) == Some(body) && |body| < TWO_16
    requires shell.Ashell? ==> TitlePointer(code) < TWO_16
    ensures Squished(model, shell, desc, data) == Some(U16le(|body|) + body)
    ensures Unsquished(model, U16le(|body|) + body) == HexProgram(model, Upper(text))
       <==> HeaderOk(model, shell, desc, code) && Unrecognised(Later(model, shell), code)
  {
    hide Body, TextOf, UnHex, StripAll, Hex, Upper, HexAlready, U16le, HeaderOk, Unrecognised, Passes, Later,
         HexProgram, SkipLength, Supported;
    LengthSkipped(body);
    HexOfUnHex(text);
    HeaderUndone(model, shell, desc, code, body);
    CascadeShortens(Later(model, shell), code);
    var result := StripAll(Passes(model), body);
    HexProgramInjective(model, if HexAlready(model, body) then result else Hex(result), Hex(code));
    if result == code {
      if HexAlready(model, body) {
        NostubIsRecognised(model, body);
        NoShellBody(model, desc, code, body);
      }
    } else {
      if HexAlready(model, body) {
        NoShellBody(model, desc, code, body);
        CascadeShortens(Passes(model), body);
        NostubLength(code);
      } else if Hex(result) == Hex(code) {
        HexInjective(result, code);
      }
    }
  }

  /** A body that passes for nostub hex text is recognised by the very pass that says so. */
  lemma NostubIsRecognised(model: Model, body: bytes)
    requires HexAlready(model, body)
    ensures |StripAll(Passes(model), body)| < |body|
  {
    hide StripMallard, StripNostub, StripAll;
    CascadeShortens(Passes(model), body);
    assert Strip(Passes(model)[0], body).Some?;
  }

  lemma NoShellBody(model: Model, desc: bytes, code: bytes, body: bytes)
    ensures HexAlready(model, body) && Body(model, NoShell, desc, code) == Some(body) ==> body == code
  {
  }

  lemma NostubLength(code: bytes)
    ensures |Hex(code)| == 2 * |code|
  {
  }
}

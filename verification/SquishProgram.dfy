/** The loops of the two commands, on buffers, proved against the functions of `Squish`. */
module SquishProgram {
  import opened Bytes
  import opened Squish

  lemma StartsWithSplit(s: bytes, a: bytes, b: bytes)
    ensures StartsWith(s, a + b) <==> StartsWith(s, a) && StartsWith(s[|a|..], b)
  {
    var n := |a| + |b|;
    if n <= |s| {
      assert s[..n] == s[..|a|] + s[|a|..][..|b|];
      assert (a + b)[..|a|] == a && (a + b)[|a|..] == b;
    }
  }

  lemma PrefixMismatch(s: bytes, prefix: bytes, i: nat)
    requires i < |prefix| <= |s| && s[i] != prefix[i]
    ensures !StartsWith(s, prefix)
  {
    assert s[..|prefix|][i] == s[i];
  }

  /** The state of `memmove` after `i` bytes: they have moved down, and the bytes still to come are untouched. */
  ghost predicate Moved(s: bytes, v: bytes, to: nat, from: nat, i: nat)
  {
    && to < from && from + i <= |s| == |v|
    && v[..to + i] == s[..to] + s[from..from + i]
    && v[to + i..] == s[to + i..]
  }

  lemma OneMoreMoved(s: bytes, v: bytes, to: nat, from: nat, i: nat)
    requires Moved(s, v, to, from, i) && from + i < |s|
    ensures Moved(s, v[to + i := v[from + i]], to, from, i + 1)
  {
    var next := v[to + i := v[from + i]];
    assert v[from + i] == v[to + i..][from - to] == s[from + i];
    assert next[..to + i + 1] == v[..to + i] + [s[from + i]];
    assert s[from..from + i + 1] == s[from..from + i] + [s[from + i]];
    Assoc(s[..to], s[from..from + i], [s[from + i]]);
    assert next[to + i + 1..] == v[to + i..][1..] && s[to + i + 1..] == s[to + i..][1..];
  }

  const TI82_MARKERS: seq<bytes> := [CRASH_MARKER, ACE_MARKER, ASH_MARKER, SNG_MARKER]

  /** `ptr` and `datalen`: a window on the variable's data that the strippers shrink. */
  class Cursor {
    const data: array<byte>
    var ptr: nat
    var len: nat

    ghost predicate Valid()
      reads this
    {
      ptr + len <= data.Length
    }

    ghost function View(): (r: bytes)
      requires Valid()
      reads this, data
      ensures |r| == len
    {
      data[ptr..ptr + len]
    }

    constructor (data: array<byte>)
      ensures Valid() && this.data == data && View() == data[..]
    {
      this.data := data;
      ptr := 0;
      len := data.Length;
    }

    function At(i: nat): (b: byte)
      requires Valid() && i < len
      reads this, data
      ensures b == View()[i]
    {
      data[ptr + i]
    }

    method Advance(n: nat)
      requires Valid() && n <= len
      modifies this
      ensures Valid() && View() == old(View())[n..]
    {
      ptr := ptr + n;
      len := len - n;
    }

    method Shorten(n: nat)
      requires Valid() && n <= len
      modifies this
      ensures Valid() && len == n && View() == old(View())[..n]
    {
      len := n;
    }

    /** `data_has_prefix(ptr + from, datalen - from, …)` */
    method Has(from: nat, prefix: bytes) returns (r: bool)
      requires Valid() && from <= len
      ensures r <==> StartsWith(View()[from..], prefix)
    {
      if len - from < |prefix| {
        return false;
      }
      var i: nat := 0;
      while i < |prefix|
        invariant i <= |prefix| && View()[from..][..i] == prefix[..i]
      {
        if data[ptr + from + i] != prefix[i] {
          PrefixMismatch(View()[from..], prefix, i);
          return false;
        }
        assert View()[from..][i] == prefix[i];
        i := i + 1;
      }
      return true;
    }

    /** `memchr(ptr + from, 0, datalen - from)` as an offset from `ptr`; `len` when there is no NUL. */
    method FindNul(from: nat) returns (k: nat)
      requires Valid() && from <= len
      ensures k == NulFrom(View(), from)
    {
      hide NulFrom;
      k := from;
      while k < len && data[ptr + k] != 0
        invariant from <= k <= len
        invariant forall i :: from <= i < k ==> View()[i] != 0
      {
        k := k + 1;
      }
      NulUnique(View(), from, k);
    }

    method SkipLength()
      requires Valid()
      modifies this
      ensures Valid() && View() == Squish.SkipLength(old(View()))
    {
      hide View;
      if len >= 2 {
        var word := At(0) as int + At(1) as int * 0x100;
        if word == len - 2 || word == len {
          Advance(2);
        }
      }
    }

    method StripTi82() returns (hit: bool)
      requires Valid()
      modifies this
      ensures Valid() && Done(hit, Squish.StripTi82(old(View())), old(View()), View())
    {
      hide NulFrom, View;
      hit := HasTi82Marker();
      if hit {
        NulBehind(View(), 3);
        Advance(3);
        var nul := FindNul(0);
        if nul < len {
          Advance(nul + 1);
        }
      }
    }

    method HasTi82Marker() returns (r: bool)
      requires Valid()
      ensures r <==> exists m :: m in TI82_MARKERS && StartsWith(View(), m)
    {
      assert View()[0..] == View();
      for k := 0 to 4
        invariant forall j :: 0 <= j < k ==> !StartsWith(View(), TI82_MARKERS[j])
      {
        r := Has(0, TI82_MARKERS[k]);
        if r {
          assert TI82_MARKERS[k] in TI82_MARKERS;
          return;
        }
      }
      return false;
    }

    method StripIon() returns (hit: bool)
      requires Valid()
      modifies this
      ensures Valid() && Done(hit, Squish.StripIon(old(View())), old(View()), View())
    {
      hide NulFrom, View;
      ghost var s := View();
      var skip: nat := 0;
      if len >= 6 && At(0) == 0xBB && (At(2) == 0xC9 || At(2) == 0xAF) && At(3) == 0x30 {
        skip := 2;
      }
      assert s[0..] == s;
      if len - skip >= 4 && (At(skip) == 0xC9 || At(skip) == 0xAF) && At(skip + 1) == 0x30 {
        var nul := FindNul(skip + 3);
        NulInside(s, skip, 3);
        if nul < len && nul - skip < 3 + At(skip + 2) as int {
          Advance(nul + 1);
          return true;
        }
      }
      return false;
    }

    method StripMallard() returns (hit: bool)
      requires Valid()
      modifies this
      ensures Valid() && Done(hit, Squish.StripMallard(old(View())), old(View()), View())
    {
      hide NulFrom, View;
      assert View()[0..] == View();
      if len >= 8 {
        var has := Has(0, MALLARD_MAGIC);
        if has {
          var nul := FindNul(8);
          if nul < len {
            Advance(nul + 1);
            return true;
          }
        }
      }
      return false;
    }

    /** Also reports the type byte, when there is a header. */
    method StripNostub() returns (hit: bool, kind: byte)
      requires Valid()
      modifies this
      ensures Valid() && Done(hit, Squish.StripNostub(old(View())), old(View()), View())
      ensures hit ==> old(len) > 5 && kind == old(View())[5]
    {
      hide View;
      kind := 0;
      assert View()[0..] == View();
      if len >= 10 {
        hit := Has(0, NOSTUB_PREFIX);
        if hit && (At(5) == 0x30 || At(5) == 0x31) && IsDigit(At(6)) && IsDigit(At(7)) && IsDigit(At(8))
          && At(9) == 0x3F {
          kind := At(5);
          Advance(10);
          return true, kind;
        }
      }
      return false, kind;
    }

    method StripNamed(prefix: bytes) returns (hit: bool)
      requires Valid() && |prefix| == 3
      modifies this
      ensures Valid() && Done(hit, Squish.StripNamed(prefix, old(View())), old(View()), View())
    {
      hide StartsWith, FixedName, Squish.StripNamed, View;
      ghost var s := View();
      for k := 0 to 4
        invariant Valid() && View() == s
        invariant forall j :: 0 <= j < k ==> !StartsWith(s, prefix + FixedName(NAMED_SHELLS[j]))
      {
        NameAndTail(k);
        hit := HasAll(prefix, NAMES[k], TAILS[k]);
        if hit {
          StartsWithLength(s, prefix + FixedName(NAMED_SHELLS[k]));
          FirstNamed(prefix, s, k);
          Advance(3 + |NAMES[k]| + |TAILS[k]|);
          return;
        }
      }
      NoneNamed(prefix, s);
      return false;
    }

    /** Prefix, name and tail tested one behind the other. */
    method HasAll(prefix: bytes, name: bytes, tail: bytes) returns (r: bool)
      requires Valid()
      ensures r <==> StartsWith(View(), prefix + (name + tail))
    {
      hide StartsWith;
      ghost var s := View();
      assert s[0..] == s;
      StartsWithSplit(s, prefix, name + tail);
      r := Has(0, prefix);
      if r {
        StartsWithLength(s, prefix);
        StartsWithSplit(s[|prefix|..], name, tail);
        r := Has(|prefix|, name);
        if r {
          StartsWithLength(s[|prefix|..], name);
          assert s[|prefix|..][|name|..] == s[|prefix| + |name|..];
          r := Has(|prefix| + |name|, tail);
        }
      }
    }

    method StripTse() returns (hit: bool)
      requires Valid()
      modifies this
      ensures Valid() && Done(hit, Squish.StripTse(old(View())), old(View()), View())
    {
      hide NulFrom, View;
      assert View()[0..] == View();
      if len >= 8 {
        var has := Has(0, TSE_MAGIC);
        if has {
          var nul := FindNul(5);
          if nul < len && nul + 3 <= len {
            Advance(nul + 3);
            return true;
          }
        }
      }
      return false;
    }

    method StripPlus() returns (hit: bool)
      requires Valid()
      modifies this
      ensures Valid() && Done(hit, Squish.StripPlus(old(View())), old(View()), View())
    {
      hide NulFrom, StartsWith, View;
      ModuleLengths(View());
      assert View()[0..] == View();
      var mirage := Has(0, MIRAGE_MAGIC);
      var modified := Has(0, MIRAGE_MODIFIED);
      var ionModule := Has(0, ION_MODULE);
      if len >= 2 + ICON_LENGTH + 2 && mirage {
        hit := DropThroughNul(2 + ICON_LENGTH);
      } else if len >= 2 + ICON_LENGTH + 2 + 2 && modified {
        hit := DropThroughNul(2 + ICON_LENGTH + 2);
      } else if ionModule {
        Advance(2);
        hit := true;
      } else {
        hit := false;
      }
    }

    method DropThroughNul(from: nat) returns (hit: bool)
      requires Valid() && from <= len
      modifies this
      ensures Valid() && hit == (NulFrom(old(View()), from) < old(len))
      ensures View() == if hit then old(View())[NulFrom(old(View()), from) + 1..] else old(View())
    {
      hide NulFrom, View;
      var nul := FindNul(from);
      hit := nul < len;
      if hit {
        Advance(nul + 1);
      }
    }

    method StripMarker(model: Model) returns (hit: bool)
      requires Valid()
      modifies this
      ensures Valid() && Done(hit, Squish.StripMarker(model, old(View())), old(View()), View())
    {
      hide View;
      assert View()[0..] == View();
      var marker := Marker(model);
      hit := Has(0, marker);
      hit := hit && |marker| > 0;
      if hit {
        Advance(|marker|);
      }
    }

    method StripTrailer() returns (hit: bool)
      requires Valid()
      modifies this
      ensures Valid() && Done(hit, Squish.StripTrailer(old(View())), old(View()), View())
    {
      hit := false;
      if len >= 9 {
        hit := Has(len - 9, TRAILER);
        if hit {
          Shorten(len - 9);
        }
      }
    }

    /** Takes the title out of the code in place: the bytes behind it move down over it. */
    method RemoveTitle(titleOffset: nat)
      requires Valid()
      modifies this, data
      ensures Valid() && View() == WithoutTitle(old(View()), titleOffset)
    {
      hide NulFrom, View;
      if titleOffset < len {
        var nul := FindNul(titleOffset);
        if nul < len {
          MoveDown(titleOffset, nul + 1);
          Shorten(len - (nul + 1 - titleOffset));
        }
      }
    }

    /** `memmove(ptr + to, ptr + from, datalen - from)` */
    method MoveDown(to: nat, from: nat)
      requires Valid() && to < from <= len
      modifies data
      ensures View()[..to + len - from] == old(View()[..to] + View()[from..])
    {
      hide View;
      ghost var s := View();
      var i: nat := 0;
      assert s[..to] + s[from..from] == s[..to];
      while i < len - from
        invariant i <= len - from && Moved(s, View(), to, from, i)
      {
        OneMoreMoved(s, View(), to, from, i);
        MoveOne(to + i, from + i);
        i := i + 1;
      }
      assert s[from..from + i] == s[from..];
    }

    method MoveOne(to: nat, from: nat)
      requires Valid() && to < from < len
      modifies data
      ensures View() == old(View())[to := old(View())[from]]
    {
      data[ptr + to] := data[ptr + from];
    }

    method StripTi83() returns (hit: bool)
      requires Valid()
      modifies this, data
      ensures Valid() && Done(hit, Squish.StripTi83(old(View())), old(View()), View())
    {
      hide NulFrom, StartsWith, Squish.StripNamed, TitleOffset, WithoutTitle, StripAshell, StripVenus, View;
      ghost var s := View();
      ModuleLengths(s);
      assert s[0..] == s;
      if len >= 7 && At(0) == 0x00 && At(1) == 0x18 {
        hit := StripAshellHeader();
        return;
      }
      hit := Has(0, VENUS_MAGIC);
      if hit {
        StripVenusHeader();
        return;
      }
      hit := StripNamed(SEND9_PREFIX);
      if hit {
        return;
      }
      hit := Has(0, ION_MODULE);
      if hit {
        Advance(2);
        return;
      }
      hit := Has(0, SOS_MODULE);
      if hit {
        Advance(2);
      }
    }

    method StripAshellHeader() returns (hit: bool)
      requires Valid() && len >= 7
      modifies this, data
      ensures Valid() && Done(hit, StripAshell(old(View())), old(View()), View())
    {
      hide NulFrom, TitleOffset, WithoutTitle, View;
      var codeOffset := 3 + At(2) as int;
      var titlePointer := At(5) as int + At(6) as int * 0x100;
      if codeOffset > len {
        return false;
      }
      Advance(codeOffset);
      RemoveTitle(TitleOffset(titlePointer, codeOffset));
      return true;
    }

    method StripVenusHeader()
      requires Valid() && len >= 7
      modifies this
      ensures Valid() && View() == StripVenus(old(View()))
    {
      hide NulFrom, View;
      Advance(7);
      if len >= 3 && At(0) == 0x30 {
        var nul := FindNul(2);
        if nul < len && nul < 2 + At(1) as int {
          Advance(nul + 1);
        }
      }
    }

    /** The stripping half of `tifileutil_unsquish`; `true` when what is left is hex text already. */
    method StripHeaders(model: Model) returns (hexText: bool)
      requires Valid()
      modifies this, data
      ensures Valid() && View() == StripAll(Passes(model), old(View()))
      ensures hexText == HexAlready(model, old(View()))
    {
      hide Squish.StripTi82, Squish.StripTi83, Squish.StripMallard, Squish.StripNostub, Squish.StripIon,
           Squish.StripTrailer, StripAll;
      ghost var s := View();
      hexText := false;
      var hit := false;
      if model.TI82? {
        hit := StripTi82();
        Last(Ti82Pass, s);
        if !hit {
          Ti82HasMarker(s);
          hit := StripMarker(model);
        }
      } else if model.TI83? {
        hit := StripTi83();
        StepDown(Passes(model), s);
        assert Passes(model)[1..] == [IonPass, TrailerPass];
        StripTail();
      } else if model.TI73? {
        hexText := StripTi73();
        StepDown(Passes(model), s);
        assert Passes(model)[1..] == [IonPass, TrailerPass];
        StripTail();
      } else {
        StripPlusFamily(model);
      }
    }

    method StripTi73() returns (hexText: bool)
      requires Valid()
      modifies this
      ensures Valid() && View() == OrSame(Strip(Ti73Pass, old(View())), old(View()))
      ensures hexText == HexAlready(TI73, old(View()))
    {
      hide Squish.StripMallard, Squish.StripNostub;
      hexText := false;
      var hit := StripMallard();
      if !hit {
        var kind;
        hit, kind := StripNostub();
        hexText := hit && kind == 0x30;
      }
    }

    method StripTail()
      requires Valid()
      modifies this
      ensures Valid() && View() == StripAll([IonPass, TrailerPass], old(View()))
    {
      hide Squish.StripIon, Squish.StripTrailer, StripAll;
      ghost var s := View();
      var hit := StripIon();
      StepDown([IonPass, TrailerPass], s);
      assert [IonPass, TrailerPass][1..] == [TrailerPass];
      ghost var t := View();
      hit := StripTrailer();
      Last(TrailerPass, t);
    }

    method StripPlusFamily(model: Model)
      requires Valid() && IsPlusFamily(model)
      modifies this
      ensures Valid() && View() == StripAll(Passes(model), old(View()))
    {
      hide Squish.StripMarker, Squish.StripNamed, Squish.StripTse, Squish.StripPlus, Squish.StripIon, StripAll;
      ghost var s0 := View();
      var hit := StripMarker(model);
      ghost var s1 := View();
      hit := StripNamed(ASM_PREFIX);
      ghost var s2 := View();
      hit := StripTse();
      ghost var s3 := View();
      hit := StripPlus();
      ghost var s4 := View();
      hit := StripIon();
      FivePasses(model, s0, s1, s2, s3, s4);
    }
  }

  lemma FivePasses(model: Model, s0: bytes, s1: bytes, s2: bytes, s3: bytes, s4: bytes)
    requires IsPlusFamily(model)
    requires s1 == OrSame(StripMarker(model, s0), s0) && s2 == OrSame(StripNamed(ASM_PREFIX, s1), s1)
    requires s3 == OrSame(StripTse(s2), s2) && s4 == OrSame(StripPlus(s3), s3)
    ensures StripAll(Passes(model), s0) == OrSame(StripIon(s4), s4)
  {
    hide StripMarker, StripNamed, StripTse, StripPlus, StripIon, StripAll;
    var p0, p1 := Passes(model), [NamedPass, TsePass, PlusPass, IonPass];
    var p2, p3 := [TsePass, PlusPass, IonPass], [PlusPass, IonPass];
    assert p0[1..] == p1 && p1[1..] == p2 && p2[1..] == p3 && p3[1..] == [IonPass];
    StepDown(p0, s0);
    StepDown(p1, s1);
    StepDown(p2, s2);
    StepDown(p3, s3);
    Last(IonPass, s4);
  }

  /** What a stripper leaves: the stripped view and 1, or the same view and 0. */
  ghost predicate Done(hit: bool, stripped: Option<bytes>, before: bytes, after: bytes)
  {
    hit == stripped.Some? && after == OrSame(stripped, before)
  }

  lemma ModuleLengths(s: bytes)
    ensures StartsWith(s, ION_MODULE) || StartsWith(s, SOS_MODULE) ==> |s| >= 2
    ensures StartsWith(s, VENUS_MAGIC) ==> |s| >= 7
  {
  }

  lemma StartsWithLength(s: bytes, prefix: bytes)
    ensures StartsWith(s, prefix) ==> |s| >= |prefix|
  {
  }

  lemma NulUnique(s: bytes, from: nat, k: nat)
    requires from <= k <= |s| && (k < |s| ==> s[k] == 0)
    requires forall i :: from <= i < k ==> s[i] != 0
    ensures k == NulFrom(s, from)
  {
    hide FirstNul;
  }

  lemma NulBehind(s: bytes, k: nat)
    requires k <= |s|
    ensures NulFrom(s, k) == k + NulFrom(s[k..], 0)
  {
    assert s[k..][0..] == s[k..];
  }

  lemma NulInside(s: bytes, skip: nat, from: nat)
    requires skip + from <= |s|
    ensures NulFrom(s, skip + from) == skip + NulFrom(s[skip..], from)
  {
    assert s[skip..][from..] == s[skip + from..];
  }

  const NAMED_SHELLS: seq<Shell> := [Ion83, Pse83, Ice, Sos]
  const NAMES: seq<bytes> := [IONZ, PSEZ, ZICE, ZSOSL]
  const TAILS: seq<bytes> := [TAIL_STOP, TAIL_STOP, TAIL_CLLCD, TAIL_CLLCD]

  lemma NameAndTail(k: nat)
    requires k < 4
    ensures NAMES[k] + TAILS[k] == FixedName(NAMED_SHELLS[k])
    ensures |NAMES[k]| + |TAILS[k]| == |FixedName(NAMED_SHELLS[k])|
  {
  }

  lemma FirstNamed(prefix: bytes, s: bytes, k: nat)
    requires k < 4 && |prefix| == 3 && StartsWith(s, prefix + FixedName(NAMED_SHELLS[k]))
    requires forall j :: 0 <= j < k ==> !StartsWith(s, prefix + FixedName(NAMED_SHELLS[j]))
    ensures StripNamed(prefix, s) == Some(s[3 + |FixedName(NAMED_SHELLS[k])|..])
  {
    hide StartsWith;
    assert k > 0 ==> !StartsWith(s, prefix + FixedName(NAMED_SHELLS[0]));
    assert k > 1 ==> !StartsWith(s, prefix + FixedName(NAMED_SHELLS[1]));
    assert k > 2 ==> !StartsWith(s, prefix + FixedName(NAMED_SHELLS[2]));
    NamedLengths();
  }

  lemma NamedLengths()
    ensures |FixedName(Ion83)| == 8 && |FixedName(Pse83)| == 8 && |FixedName(Ice)| == 6 && |FixedName(Sos)| == 7
  {
  }

  lemma NoneNamed(prefix: bytes, s: bytes)
    requires forall j :: 0 <= j < 4 ==> !StartsWith(s, prefix + FixedName(NAMED_SHELLS[j]))
    ensures StripNamed(prefix, s).None?
  {
    hide StartsWith, FixedName;
    assert !StartsWith(s, prefix + FixedName(NAMED_SHELLS[0])) && !StartsWith(s, prefix + FixedName(NAMED_SHELLS[1]));
    assert !StartsWith(s, prefix + FixedName(NAMED_SHELLS[2])) && !StartsWith(s, prefix + FixedName(NAMED_SHELLS[3]));
  }

  /** On the TI-82 the marker test after the strippers never finds anything. */
  lemma Ti82HasMarker(s: bytes)
    requires StripTi82(s).None?
    ensures StripMarker(TI82, s).None?
  {
  }

  lemma StepDown(ps: seq<Pass>, s: bytes)
    requires ps != []
    ensures StripAll(ps, s) == StripAll(ps[1..], OrSame(Strip(ps[0], s), s))
  {
    hide Strip;
  }

  lemma Last(p: Pass, s: bytes)
    ensures StripAll([p], s) == OrSame(Strip(p, s), s)
  {
    hide Strip;
    assert [p][1..] == [];
  }
}

/**
 * Squishing and unsquishing TI-Z80 assembly programs: header builders and strippers as functions of bytes, and the
 * round trip (tifileutil/src/squish.cc, tifileutil/src/main.cc:116-145).
 */
module Squish {
  import opened Bytes

  datatype Model = TI73 | TI82 | TI83 | TI83P | TI84P | TI84P_USB | TI82A_USB | TI84PT_USB
                 | TI84PC | TI84PC_USB | TI83PCE_USB | TI84PCE_USB

  datatype Shell = NoShell | Crash | Ace | Ash | Sng | Mallard | Nostub | Ion | Ashell | Venus
                 | Ion83 | Pse83 | Ice | Sos | Tse | Mirage

  // ----- markers -----

  const CRASH_MARKER: bytes := [0xD5, 0x00, 0x11]
  const ACE_MARKER: bytes := [0xD5, 0x00, 0xA0]
  const ASH_MARKER: bytes := [0xD9, 0x00, 0x30]
  const SNG_MARKER: bytes := [0x53, 0x4E, 0x47]
  const ASM_MARKER: bytes := [0xBB, 0x6D]
  const CSE_MARKER: bytes := [0xEF, 0x69]
  const CE_MARKER: bytes := [0xEF, 0x7B]
  const TRAILER: bytes := [0x3F, 0xD4, 0x3F, 0x30, 0x30, 0x30, 0x30, 0x3F, 0xD4]
  const VENUS_MAGIC: bytes := [0xE7, 0x39, 0x5F, 0x5B, 0x56, 0x3F, 0x00]
  const MALLARD_MAGIC: bytes := [0xD9, 0x00]
  const MALLARD_NAME: bytes := [0x44, 0x75, 0x63, 0x6B]
  const MALLARD_USERMEM := 0x9C37
  const NOSTUB_PREFIX: bytes := [0x5F, 0x30, 0x30, 0x30, 0x30]
  const SEND9_PREFIX: bytes := [0xE7, 0x39, 0x5F]
  const ASM_PREFIX: bytes := [0xBB, 0x6A, 0x5F]
  const TAIL_STOP: bytes := [0x3F, 0xD9, 0x3F, 0x2A]
  const TAIL_CLLCD: bytes := [0x3F, 0xE1]
  const IONZ: bytes := [0x49, 0x4F, 0x4E, 0x5A]
  const PSEZ: bytes := [0x50, 0x53, 0x45, 0x5A]
  const ZICE: bytes := [0x5A, 0x49, 0x43, 0x45]
  const ZSOSL: bytes := [0x5A, 0x53, 0x4F, 0x53, 0x4C]
  const TSE_MAGIC: bytes := [0xC9, 0x54, 0x53, 0x45, 0x01]
  const MIRAGE_MAGIC: bytes := [0xC9, 0x01]
  const MIRAGE_MODIFIED: bytes := [0xC9, 0x03]
  const ION_MODULE: bytes := [0xC9, 0x02]
  const SOS_MODULE: bytes := [0x00, 0x01]
  const ICON_LENGTH := 30

  /** `squished_prefix` */
  function Marker(model: Model): bytes
  {
    match model
    case TI73 => []
    case TI83 => []
    case TI82 => CRASH_MARKER
    case TI83P => ASM_MARKER
    case TI84P => ASM_MARKER
    case TI84PC => CSE_MARKER
    case _ => CE_MARKER
  }

  /** `ti82_squished_prefix` */
  function Marker82(shell: Shell): (m: bytes)
    ensures |m| == 3
  {
    match shell
    case Ace => ACE_MARKER
    case Ash => ASH_MARKER
    case Sng => SNG_MARKER
    case _ => CRASH_MARKER
  }

  predicate UsesTrailer(model: Model)
  {
    model.TI73? || model.TI83?
  }

  predicate IsPlusFamily(model: Model)
  {
    !model.TI73? && !model.TI82? && !model.TI83?
  }

  /** The model and shell pairs `tifileutil_squish` accepts. */
  predicate Supported(model: Model, shell: Shell)
  {
    match model
    case TI82 => shell in {NoShell, Crash, Ace, Ash, Sng}
    case TI83 => shell in {NoShell, Ion, Ashell, Venus, Ion83, Pse83, Ice, Sos}
    case TI73 => shell in {NoShell, Mallard, Nostub}
    case _ => shell in {NoShell, Ion, Ion83, Pse83, Ice, Tse, Mirage}
  }

  /** `ti83x_shell_name`: fixed name and tail. */
  function FixedName(shell: Shell): bytes
  {
    match shell
    case Ion83 => IONZ + TAIL_STOP
    case Pse83 => PSEZ + TAIL_STOP
    case Ice => ZICE + TAIL_CLLCD
    case _ => ZSOSL + TAIL_CLLCD
  }

  // ----- builders -----

  /** Title pointer of the ASHELL83 header: load address plus file offset of the title. */
  function TitlePointer(code: bytes): nat
  {
    0x9327 + 0x48 + 2 + 7 + |code|
  }

  function Digit(n: nat): byte
  {
    0x30 + (n % 10) as byte
  }

  /** The squished program after its length field: shell header and code. `None`: too large for nostub. */
  function Body(model: Model, shell: Shell, desc: bytes, code: bytes): Option<bytes>
  {
    if model.TI82? then Some(Marker82(shell) + desc + [0] + code)
    else if shell.Ion? then Some(Marker(model) + [0xC9, 0x30, Low8(|desc| + 1)] + desc + [0] + code)
    else if model.TI83? && shell.Ashell? then
      Some([0x00, 0x18, 0x04, 0x00, 0x00] + U16le(TitlePointer(code)) + code + desc + [0])
    else if model.TI83? && shell.Venus? then Some(VENUS_MAGIC + [0x30, Low8(|desc| + 1)] + desc + [0] + code)
    else if model.TI73? && shell.Mallard? then
      Some(MALLARD_MAGIC + MALLARD_NAME + U16le(MALLARD_USERMEM + 2 + 4 + 2 + |desc| + 1) + desc + [0] + code)
    else if model.TI73? && shell.Nostub? then
      if |code| > 999 then None
      else Some(NOSTUB_PREFIX + [0x31, Digit(|code| / 100), Digit(|code| / 10), Digit(|code|), 0x3F] + code)
    else if shell in {Ion83, Pse83, Ice, Sos} then
      Some((if model.TI83? then SEND9_PREFIX else ASM_PREFIX) + FixedName(shell) + code)
    else if shell.Tse? then Some(ASM_MARKER + TSE_MAGIC + [0x20] + desc + [0] + [0, 0] + code)
    else if shell.Mirage? then Some(ASM_MARKER + MIRAGE_MAGIC + Zeros(ICON_LENGTH) + desc + [0] + code)
    else Some(Marker(model) + code)
  }

  // ----- strippers -----

  predicate EndsWith(s: bytes, suffix: bytes)
  {
    |s| >= |suffix| && s[|s| - |suffix|..] == suffix
  }

  /** `memchr(s + from, 0, |s| - from)`; `|s|` when there is no NUL. */
  function NulFrom(s: bytes, from: nat): (k: nat)
    requires from <= |s|
    ensures from <= k <= |s|
    ensures forall i :: from <= i < k ==> s[i] != 0
    ensures k < |s| ==> s[k] == 0
  {
    from + FirstNul(s[from..])
  }

  /** `ti82_strip_marker_and_name` */
  function StripTi82(s: bytes): Option<bytes>
  {
    if StartsWith(s, CRASH_MARKER) || StartsWith(s, ACE_MARKER) || StartsWith(s, ASH_MARKER)
      || StartsWith(s, SNG_MARKER) then
      var k := NulFrom(s, 3);
      Some(if k < |s| then s[k + 1..] else s[3..])
    else None
  }

  predicate IonStart(s: bytes)
  {
    |s| >= 4 && (s[0] == 0xC9 || s[0] == 0xAF) && s[1] == 0x30
  }

  function StripBareIon(s: bytes): Option<bytes>
  {
    if !IonStart(s) then None
    else
      var k := NulFrom(s, 3);
      if k < |s| && k < 3 + s[2] as int then Some(s[k + 1..]) else None
  }

  /** `ion_strip` */
  function StripIon(s: bytes): Option<bytes>
  {
    if |s| >= 6 && s[0] == 0xBB && (s[2] == 0xC9 || s[2] == 0xAF) && s[3] == 0x30 then
      StripBareIon(s[2..])
    else
      StripBareIon(s)
  }

  /** `mallard_strip` */
  function StripMallard(s: bytes): Option<bytes>
  {
    if |s| >= 8 && StartsWith(s, MALLARD_MAGIC) && NulFrom(s, 8) < |s| then Some(s[NulFrom(s, 8) + 1..]) else None
  }

  predicate IsDigit(b: byte)
  {
    0x30 <= b <= 0x39
  }

  /** `nostub_strip` */
  function StripNostub(s: bytes): Option<bytes>
  {
    if |s| >= 10 && StartsWith(s, NOSTUB_PREFIX) && (s[5] == 0x30 || s[5] == 0x31)
       && IsDigit(s[6]) && IsDigit(s[7]) && IsDigit(s[8]) && s[9] == 0x3F then Some(s[10..])
    else None
  }

  /** `ti83x_strip_shell` */
  function StripNamed(prefix: bytes, s: bytes): Option<bytes>
  {
    if StartsWith(s, prefix + FixedName(Ion83)) then Some(s[|prefix| + 8..])
    else if StartsWith(s, prefix + FixedName(Pse83)) then Some(s[|prefix| + 8..])
    else if StartsWith(s, prefix + FixedName(Ice)) then Some(s[|prefix| + 6..])
    else if StartsWith(s, prefix + FixedName(Sos)) then Some(s[|prefix| + 7..])
    else None
  }

  /** `tse_strip` */
  function StripTse(s: bytes): Option<bytes>
  {
    if |s| >= 8 && StartsWith(s, TSE_MAGIC) && NulFrom(s, 5) < |s| && NulFrom(s, 5) + 3 <= |s| then
      Some(s[NulFrom(s, 5) + 3..])
    else None
  }

  /** `ti83p_strip_shell` */
  function StripPlus(s: bytes): Option<bytes>
  {
    if |s| >= 2 + ICON_LENGTH + 2 && StartsWith(s, MIRAGE_MAGIC) then
      var k := NulFrom(s, 2 + ICON_LENGTH);
      if k < |s| then Some(s[k + 1..]) else None
    else if |s| >= 2 + ICON_LENGTH + 2 + 2 && StartsWith(s, MIRAGE_MODIFIED) then
      var k := NulFrom(s, 2 + ICON_LENGTH + 2);
      if k < |s| then Some(s[k + 1..]) else None
    else if StartsWith(s, ION_MODULE) then Some(s[2..])
    else None
  }

  /** The title offset `ti83_strip_shell` computes in unsigned 32-bit arithmetic. */
  function TitleOffset(titlePointer: nat, codeOffset: nat): nat
  {
    if titlePointer >= 0x9327 + 0x48 then (titlePointer - 0x9327 - 0x48 - 2 - codeOffset) % TWO_32 else 0
  }

  /** Removing the title in place: the bytes after it move down over it. */
  function WithoutTitle(s: bytes, titleOffset: nat): bytes
  {
    if titleOffset < |s| && NulFrom(s, titleOffset) < |s| then
      s[..titleOffset] + s[NulFrom(s, titleOffset) + 1..]
    else
      s
  }

  function StripAshell(s: bytes): Option<bytes>
    requires |s| >= 7
  {
    var codeOffset := 3 + s[2] as int;
    if codeOffset > |s| then None
    else Some(WithoutTitle(s[codeOffset..], TitleOffset(GetU16le(s[5..7]), codeOffset)))
  }

  function StripVenus(s: bytes): bytes
    requires |s| >= 7
  {
    var t := s[7..];
    if |t| >= 3 && t[0] == 0x30 && NulFrom(t, 2) < |t| && NulFrom(t, 2) < 2 + t[1] as int then
      t[NulFrom(t, 2) + 1..]
    else
      t
  }

  /** `ti83_strip_shell` */
  function StripTi83(s: bytes): Option<bytes>
  {
    if |s| >= 7 && s[0] == 0x00 && s[1] == 0x18 then StripAshell(s)
    else if StartsWith(s, VENUS_MAGIC) then Some(StripVenus(s))
    else if StripNamed(SEND9_PREFIX, s).Some? then StripNamed(SEND9_PREFIX, s)
    else if StartsWith(s, ION_MODULE) then Some(s[2..])
    else if StartsWith(s, SOS_MODULE) then Some(s[2..])
    else None
  }

  function StripMarker(model: Model, s: bytes): Option<bytes>
  {
    if Marker(model) != [] && StartsWith(s, Marker(model)) then Some(s[|Marker(model)|..]) else None
  }

  function StripTrailer(s: bytes): Option<bytes>
  {
    if EndsWith(s, TRAILER) then Some(s[..|s| - 9]) else None
  }

  // ----- the cascade -----

  datatype Pass = Ti82Pass | Ti83Pass | Ti73Pass | MarkerPass(model: Model) | NamedPass | TsePass | PlusPass |
                  IonPass | TrailerPass

  function Strip(p: Pass, s: bytes): Option<bytes>
  {
    match p
    case Ti82Pass => StripTi82(s)
    case Ti83Pass => StripTi83(s)
    case Ti73Pass => if StripMallard(s).Some? then StripMallard(s) else StripNostub(s)
    case MarkerPass(model) => StripMarker(model, s)
    case NamedPass => StripNamed(ASM_PREFIX, s)
    case TsePass => StripTse(s)
    case PlusPass => StripPlus(s)
    case IonPass => StripIon(s)
    case TrailerPass => StripTrailer(s)
  }

  /** The passes of `tifileutil_unsquish`, in order. */
  function Passes(model: Model): seq<Pass>
  {
    match model
    case TI82 => [Ti82Pass]
    case TI83 => [Ti83Pass, IonPass, TrailerPass]
    case TI73 => [Ti73Pass, IonPass, TrailerPass]
    case _ => [MarkerPass(model), NamedPass, TsePass, PlusPass, IonPass]
  }

  function StripAll(ps: seq<Pass>, s: bytes): bytes
    decreases |ps|
  {
    if ps == [] then s
    else match Strip(ps[0], s)
         case None => StripAll(ps[1..], s)
         case Some(t) => StripAll(ps[1..], t)
  }

  /** A nostub header of type '0' says that what follows is hex text already. */
  predicate HexAlready(model: Model, s: bytes)
  {
    model.TI73? && StripMallard(s).None? && StripNostub(s).Some? && |s| > 5 && s[5] == 0x30
  }

  // ----- hex text -----

  function HexDigit(n: nat): byte
    requires n < 16
  {
    if n < 10 then 0x30 + n as byte else 0x41 + (n - 10) as byte
  }

  /** `hex_encode` in upper case. */
  function Hex(code: bytes): (r: bytes)
    ensures |r| == 2 * |code|
  {
    if code == [] then [] else [HexDigit(code[0] as int / 16), HexDigit(code[0] as int % 16)] + Hex(code[1..])
  }

  /** `hex_nibble`; -1 for anything else. */
  function Nibble(c: byte): (r: int)
    ensures -1 <= r < 16
  {
    if 0x30 <= c <= 0x39 then (c - 0x30) as int
    else if 0x61 <= c <= 0x66 then (c - 0x61) as int + 10
    else if 0x41 <= c <= 0x46 then (c - 0x41) as int + 10
    else -1
  }

  function UnHex(text: bytes): Option<bytes>
  {
    if text == [] then Some([])
    else if |text| == 1 || Nibble(text[0]) < 0 || Nibble(text[1]) < 0 then None
    else Prepend([(Nibble(text[0]) * 16 + Nibble(text[1])) as byte], UnHex(text[2..]))
  }

  function UpperByte(c: byte): byte
  {
    if 0x61 <= c <= 0x7A then c - 32 else c
  }

  function Upper(text: bytes): (r: bytes)
    ensures |r| == |text|
    ensures forall i :: 0 <= i < |text| ==> r[i] == UpperByte(text[i])
  {
    seq(|text|, i requires 0 <= i < |text| => UpperByte(text[i]))
  }

  // ----- the two commands, as functions of the variable's data -----

  /** Skips the leading length field, when there is one. */
  function SkipLength(data: bytes): bytes
  {
    if |data| >= 2 && (GetU16le(data) == |data| - 2 || GetU16le(data) == |data|) then data[2..] else data
  }

  function OrSame(stripped: Option<bytes>, s: bytes): bytes
  {
    match stripped case None => s case Some(t) => t
  }

  /** The hex text of an unsquished program; `None` for a nostub program that holds binary. */
  function TextOf(model: Model, data: bytes): Option<bytes>
  {
    var s := SkipLength(data);
    var t := if UsesTrailer(model) then OrSame(StripTrailer(s), s) else s;
    if !model.TI73? then Some(t)
    else if StripNostub(t).None? then Some(t)
    else if t[5] == 0x31 then None
    else StripNostub(t)
  }

  /** The data `tifileutil_squish` writes, `None` when it reports an error. */
  function Squished(model: Model, shell: Shell, desc: bytes, data: bytes): Option<bytes>
  {
    if !Supported(model, shell) then None
    else
      match TextOf(model, data)
      case None => None
      case Some(text) =>
        match UnHex(text)
        case None => None
        case Some(code) => WithLength(Body(model, shell, desc, code))
  }

  /** A body behind its two-byte length field. */
  function WithLength(body: Option<bytes>): Option<bytes>
  {
    match body
    case None => None
    case Some(b) => Some(U16le(|b|) + b)
  }

  function TrailerOf(model: Model): bytes
  {
    if UsesTrailer(model) then TRAILER else []
  }

  /** The data of an unsquished program holding `hex`. */
  function HexProgram(model: Model, hex: bytes): bytes
  {
    U16le(|hex| + |TrailerOf(model)|) + hex + TrailerOf(model)
  }

  /** The data `tifileutil_unsquish` writes. */
  function Unsquished(model: Model, data: bytes): bytes
  {
    var s := SkipLength(data);
    var code := StripAll(Passes(model), s);
    HexProgram(model, if HexAlready(model, s) then code else Hex(code))
  }
}

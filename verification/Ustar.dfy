/** ustar archive headers (Project 2/src/lib/ustar.c; IEEE Std 1003.1, pax, ustar Interchange
    Format). */
module Ustar {
  import opened Machine
  import opened Stdio

  const HEADER_SIZE := 512
  const USTAR_REGULAR: byte := 48
  const USTAR_DIRECTORY: byte := 53
  const SLASH: byte := 47
  const DOT: byte := 46

  // The offset of the checksum field in struct ustar_header.
  const CHKSUM_OFS := 148

  const MAGIC: Text := [117, 115, 116, 97, 114, 0]     // "ustar" and a null character
  const VERSION: Text := [48, 48]
  const ROOT: Text := [114, 111, 111, 116]             // "root"
  const ZEROS: Text := [48, 48, 48, 48, 48, 48, 48]    // "0000000"
  const MTIME := 1136102400

  function Nulls(n: nat): (t: Text)
    ensures |t| == n && forall i | 0 <= i < n :: t[i] == 0
  {
    seq(n, _ => 0)
  }

  // ----- names -----

  /** The name starts with something that could lead out of the destination directory. */
  predicate Antisocial(name: Text) {
    || (|name| >= 1 && name[0] == SLASH)
    || (|name| >= 2 && name[0] == DOT && name[1] == SLASH)
    || (|name| >= 3 && name[0] == DOT && name[1] == DOT && name[2] == SLASH)
  }

  /** What follows the first slash. */
  function AfterSlash(name: Text): (r: Text)
    requires SLASH in name
    ensures |r| < |name| && forall c | c in r :: c in name
  {
    if name[0] == SLASH then name[1..] else AfterSlash(name[1..])
  }

  function Dropped(name: Text): (r: Text)
    ensures !Antisocial(r) && |r| <= |name| && forall c | c in r :: c in name
    ensures !Antisocial(name) ==> r == name
    decreases |name|
  {
    if !Antisocial(name) then name else
      HasSlash(name);
      Dropped(AfterSlash(name))
  }

  lemma HasSlash(name: Text)
    requires Antisocial(name)
    ensures SLASH in name
  {
  }

  function Stripped(name: Text): (r: Text) {
    var d := Dropped(name);
    if d == [] || d == [DOT, DOT] then [DOT] else d
  }

  /** A sequence of the pieces "/", "./" and "../". */
  predicate OnlyPieces(p: Text)
    decreases |p|
  {
    || p == []
    || (p[0] == SLASH && OnlyPieces(p[1..]))
    || (|p| >= 2 && p[0] == DOT && p[1] == SLASH && OnlyPieces(p[2..]))
    || (|p| >= 3 && p[0] == DOT && p[1] == DOT && p[2] == SLASH && OnlyPieces(p[3..]))
  }

  /** Exactly such pieces are dropped from the front of a name, all of them, and "." stands for nothing
      or "..". */
  lemma {:induction false} StrippedIs(name: Text)
    ensures exists k: nat :: k <= |name| && StripsAt(name, k)
    decreases |name|
  {
    if !Antisocial(name) {
      assert name[..0] == [] && name[0..] == name;
      assert StripsAt(name, 0);
    } else {
      var n := if name[0] == SLASH then 1 else if name[1] == SLASH then 2 else 3;
      AfterPiece(name, n);
      StrippedIs(name[n..]);
      var k: nat :| k <= |name[n..]| && StripsAt(name[n..], k);
      MorePieces(name, n, k);
    }
  }

  /** The first k characters of the name are what is dropped. */
  predicate StripsAt(name: Text, k: nat)
    requires k <= |name|
  {
    OnlyPieces(name[..k]) && !Antisocial(name[k..]) && Stripped(name) == if name[k..] == [] || name[k..] == [DOT, DOT] then [DOT] else name[k..]
  }

  lemma MorePieces(name: Text, n: nat, k: nat)
    requires Antisocial(name) && n == (if name[0] == SLASH then 1 else if name[1] == SLASH then 2 else 3)
    requires n + k <= |name| && StripsAt(name[n..], k) && Dropped(name) == Dropped(name[n..])
    ensures StripsAt(name, n + k)
  {
    var p := name[..n + k];
    assert p[n..] == name[n..][..k] && name[n..][k..] == name[n + k..];
    hide Dropped;
    assert OnlyPieces(p);
  }

  lemma AfterPiece(name: Text, n: nat)
    requires Antisocial(name) && n == (if name[0] == SLASH then 1 else if name[1] == SLASH then 2 else 3)
    ensures n <= |name| && Dropped(name) == Dropped(name[n..])
  {
    HasSlash(name);
    AfterSlashAt(name, n - 1);
  }

  lemma {:induction false} AfterSlashAt(name: Text, k: nat)
    requires k < |name| && name[k] == SLASH && forall j | 0 <= j < k :: name[j] != SLASH
    ensures SLASH in name && AfterSlash(name) == name[k + 1..]
  {
    if k > 0 {
      AfterSlashAt(name[1..], k - 1);
      assert name[1..][k..] == name[k + 1..];
    }
  }

  /** A stripped name leads nowhere else, and stripping it again changes nothing. */
  lemma StrippingIsIdempotent(name: Text)
    ensures Stripped(Stripped(name)) == Stripped(name)
    ensures Stripped(name) != [] && !Antisocial(Stripped(name)) && Stripped(name) != [DOT, DOT]
    ensures 0 !in name ==> 0 !in Stripped(name)
  {
    var d := Dropped(name);
    assert !Antisocial([DOT]);
  }

  /** strip_antisocial_prefixes */
  method StripAntisocialPrefixes(name0: Text) returns (name: Text)
    ensures name == Stripped(name0)
  {
    name := name0;
    while Antisocial(name)
      invariant Dropped(name) == Dropped(name0)
      decreases |name|
    {
      HasSlash(name);
      name := AfterSlash(name);
    }
    if name == [] || name == [DOT, DOT] { name := [DOT]; }
  }

  // ----- checksum -----

  predicate InChksum(i: nat) { CHKSUM_OFS <= i < CHKSUM_OFS + 8 }

  function Counted(h: Text, i: nat): nat
    requires i < |h|
  {
    if InChksum(i) then SPACE else h[i]
  }

  /** The sum of the first n bytes, with the checksum field counted as spaces. */
  function Sum(h: Text, n: nat): (s: nat)
    requires n <= |h|
    ensures s <= 255 * n
  {
    if n == 0 then 0 else Sum(h, n - 1) + Counted(h, n - 1)
  }

  function Checksum(h: Text): (s: nat)
    requires |h| == HEADER_SIZE
    ensures s <= 255 * 512
  {
    Sum(h, 512)
  }

  /** calculate_chksum */
  method CalculateChksum(h: array<byte>) returns (chksum: nat)
    requires h.Length == HEADER_SIZE
    ensures chksum == Checksum(h[..])
  {
    chksum := 0;
    for i := 0 to HEADER_SIZE
      invariant chksum == Sum(h[..], i)
    {
      chksum := chksum + (if InChksum(i) then SPACE else h[i]);
    }
  }

  lemma {:induction false} SumChange(h: Text, i: nat, v: byte, n: nat)
    requires i < |h| && n <= |h| && !InChksum(i)
    ensures Sum(h[i := v], n) == Sum(h, n) + (if i < n then (v as int) - h[i] else 0)
  {
    if n > 0 { SumChange(h, i, v, n - 1); }
  }

  lemma {:induction false} SumSame(h: Text, h': Text, n: nat)
    requires n <= |h| == |h'| && forall i | 0 <= i < |h| && !InChksum(i) :: h[i] == h'[i]
    ensures Sum(h, n) == Sum(h', n)
  {
    if n > 0 { SumSame(h, h', n - 1); }
  }

  // ----- fields -----

  /** The text that snprintf makes for "%0<w>o". */
  function Octal(value: nat, w: nat): Text {
    Formatted(value, false, false, OCTAL, PLAIN.(zero := true, width := w))
  }

  /** It fills the field, and denotes the value. */
  lemma OctalDenotes(value: nat, w: nat)
    requires value < Power(8, w) && w >= 1
    ensures |Octal(value, w)| == w && Denotes(Octal(value, w), 8) == value
    ensures forall i | 0 <= i < w :: 48 <= Octal(value, w)[i] <= 55
  {
    var c := PLAIN.(zero := true, width := w);
    var ds := Digits(value, OCTAL, false, 0);
    DigitCount(value, OCTAL, 0, w);
    DigitsDenote(value, OCTAL, 0);
    NumeralDigits(value, OCTAL, 0);
    var lead := Leading(value, OCTAL, c);
    var pad := w - |Numeral(value, OCTAL, c)|;
    assert Octal(value, w) == Repeat(DIGIT_0, pad) + (Repeat(DIGIT_0, lead) + ds) by {
      hide Digits, Repeat;
      FormattedOctal(value, w);
    }
    LeadingZeros(lead, ds, 8);
    LeadingZeros(pad, Repeat(DIGIT_0, lead) + ds, 8);
    hide Denotes, Digits, Octal;
  }

  lemma FormattedOctal(value: nat, w: nat)
    ensures var c := PLAIN.(zero := true, width := w);
            Octal(value, w) == Repeat(DIGIT_0, w - |Numeral(value, OCTAL, c)|)
                               + (Repeat(DIGIT_0, Leading(value, OCTAL, c)) + Digits(value, OCTAL, false, 0))
  {
  }

  predicate IsOctal(ch: byte) { 48 <= ch <= 55 }

  predicate EndsField(ch: byte) { ch == 32 || ch == 0 }

  /** How many octal digits the field begins with. */
  function OctalRun(s: Text): (k: nat)
    ensures k <= |s| && (k < |s| ==> !IsOctal(s[k])) && forall i | 0 <= i < k :: IsOctal(s[i])
  {
    if s == [] || !IsOctal(s[0]) then 0 else
      var k := 1 + OctalRun(s[1..]);
      assert forall i | 0 < i < k :: s[i] == s[1..][i - 1];
      assert k < |s| ==> s[k] == s[1..][k - 1];
      k
  }

  /** The number in an octal field: digits that end in a blank or a null and denote 32 bits. */
  function FieldValue(s: Text): Option<nat> {
    var k := OctalRun(s);
    var v := Denotes(s[..k], 8);
    if 0 < k < |s| && EndsField(s[k]) && 0 <= v < B32 then Some(v) else None
  }

  /** The first k bytes of s are octal digits that denote v, and the field ends there. */
  ghost predicate HoldsOctal(s: Text, k: nat, v: nat) {
    0 < k < |s| && (forall i | 0 <= i < k :: IsOctal(s[i])) && EndsField(s[k]) && Denotes(s[..k], 8) == v
  }

  lemma FieldValueIs(s: Text, v: nat)
    ensures FieldValue(s) == Some(v) <==> v < B32 && exists k: nat :: HoldsOctal(s, k, v)
  {
    if k: nat :| HoldsOctal(s, k, v) {
      assert OctalRun(s) == k;
    }
    if FieldValue(s) == Some(v) { assert HoldsOctal(s, OctalRun(s), v); }
  }

  /** parse_octal_field; ULONG_MAX / 8 is 536870911. */
  method ParseOctalField(s: Text) returns (r: Option<nat>)
    ensures r == FieldValue(s)
  {
    hide Denotes;
    var value: nat := 0;
    assert s[..0] == [] && Denotes([], 8) == 0 by { EmptyDenotes(); }
    for ofs := 0 to |s|
      invariant (forall i | 0 <= i < ofs :: IsOctal(s[i])) && value == Denotes(s[..ofs], 8) < B32
    {
      var c := s[ofs];
      if 48 <= c <= 55 {
        OneMoreDigit(s, ofs);
        if value > 536870911 {
          PrefixesAreSmaller(s[..OctalRun(s)], ofs);
          assert s[..OctalRun(s)][..ofs] == s[..ofs];
          return None;
        }
        value := c - 48 + value * 8;
      } else if c == 32 || c == 0 {
        assert OctalRun(s) == ofs;
        return if ofs > 0 then Some(value) else None;
      } else {
        assert OctalRun(s) == ofs;
        return None;
      }
    }
    return None;
  }

  lemma OneMoreDigit(s: Text, k: nat)
    requires k < |s| && IsOctal(s[k]) && forall i | 0 <= i < k :: IsOctal(s[i])
    ensures Denotes(s[..k + 1], 8) == Denotes(s[..k], 8) * 8 + (s[k] - 48)
    ensures OctalRun(s) > k
  {
    assert s[..k + 1] == s[..k] + [s[k]];
    DenotesAppend(s[..k], s[k], 8);
  }

  /** The prefixes of a numeral denote no more than the number without its last digit. */
  lemma {:induction false} PrefixesAreSmaller(t: Text, j: nat)
    requires j <= |t| && forall i | 0 <= i < |t| :: IsOctal(t[i])
    ensures 0 <= Denotes(t[..j], 8) <= Denotes(t, 8) && (j < |t| ==> 8 * Denotes(t[..j], 8) <= Denotes(t, 8))
    decreases |t|
  {
    if j == |t| {
      assert t[..j] == t;
      if t != [] { PrefixesAreSmaller(t[..|t| - 1], |t| - 1); }
    } else {
      var u := t[..|t| - 1];
      assert u[..j] == t[..j];
      PrefixesAreSmaller(u, j);
      assert Denotes(t, 8) == 8 * Denotes(u, 8) + (t[|t| - 1] - 48);
    }
  }

  /** A field that snprintf wrote is read back as its value. */
  lemma OctalFieldParses(value: nat, w: nat, s: Text)
    requires w >= 1 && value < Power(8, w) && value < B32 && Octal(value, w) + [0] <= s
    ensures FieldValue(s) == Some(value)
  {
    OctalDenotes(value, w);
    hide Octal, Denotes, FieldValue, OctalRun, Power;
    FieldHolds(Octal(value, w), s);
    FieldValueIs(s, value);
  }

  lemma FieldHolds(t: Text, s: Text)
    requires t != [] && t + [0] <= s && (forall i | 0 <= i < |t| :: IsOctal(t[i])) && Denotes(t, 8) >= 0
    ensures HoldsOctal(s, |t|, Denotes(t, 8))
  {
    hide Denotes;
    assert s[..|t|] == t;
    assert s[|t|] == (t + [0])[|t|];
    forall i | 0 <= i < |t| ensures IsOctal(s[i]) { assert s[i] == t[i]; }
  }

  lemma EmptyDenotes()
    ensures Denotes([], 8) == 0
  {
  }

  // ----- making a header -----

  /** The header after a field has been written. */
  function Write(h: Text, ofs: nat, t: Text): (r: Text)
    requires ofs + |t| <= |h|
    ensures |r| == |h|
    ensures forall i | 0 <= i < |h| :: r[i] == if ofs <= i < ofs + |t| then t[i - ofs] else h[i]
  {
    seq<byte>(|h|, i requires 0 <= i < |h| => if ofs <= i < ofs + |t| then t[i - ofs] else h[i])
  }

  function Mode(typ: byte): nat { if typ == USTAR_REGULAR then 420 else 493 }

  predicate CanMake(name: Text, typ: byte, size: int) {
    typ in {USTAR_REGULAR, USTAR_DIRECTORY} && 0 <= size < B31 && |name| <= 99
  }

  lemma FieldsFit(size: nat, typ: byte)
    requires size < B31
    ensures |Octal(Mode(typ), 7)| == 7 && |Octal(size, 11)| == 11 && |Octal(MTIME, 11)| == 11
    ensures Power(8, 7) == 2097152 && Power(8, 11) == 8589934592
  {
    assert Power(8, 4) == 4096;
    assert Power(8, 7) == 2097152;
    assert Power(8, 11) == 8589934592;
    OctalDenotes(Mode(typ), 7);
    OctalDenotes(size, 11);
    OctalDenotes(MTIME, 11);
  }

  /** The fields in front of the checksum. */
  function Front(name: Text, typ: byte, size: nat): (h: Text)
    requires CanMake(name, typ, size)
    ensures |h| == HEADER_SIZE
  {
    FieldsAfterName(Write(Nulls(512), 0, name + [0]), typ, size)
  }

  /** mode, uid, gid, size and mtime */
  function FieldsAfterName(h1: Text, typ: byte, size: nat): (h: Text)
    requires |h1| == HEADER_SIZE && size < B31
    ensures |h| == HEADER_SIZE
  {
    FieldsFit(size, typ);
    var h2 := Write(h1, 100, Octal(Mode(typ), 7) + [0]);
    var h3 := Write(Write(h2, 108, ZEROS + [0]), 116, ZEROS + [0]);
    Write(Write(h3, 124, Octal(size, 11) + [0]), 136, Octal(MTIME, 11) + [0])
  }

  /** The fields behind the checksum. */
  function Back(h: Text, typ: byte): (r: Text)
    requires |h| == HEADER_SIZE
    ensures |r| == HEADER_SIZE
  {
    var h1 := Write(Write(Write(h, 156, [typ]), 257, MAGIC), 263, VERSION);
    Write(Write(h1, 297, ROOT + [0]), 265, ROOT + [0])
  }

  function WithChksum(h: Text): (r: Text)
    requires |h| == HEADER_SIZE
    ensures |r| == HEADER_SIZE
  {
    ChksumFits(h);
    Write(h, 148, Octal(Checksum(h), 7) + [0])
  }

  lemma ChksumFits(h: Text)
    requires |h| == HEADER_SIZE
    ensures |Octal(Checksum(h), 7)| == 7 && Checksum(h) < Power(8, 7)
  {
    hide Checksum;
    assert Power(8, 7) == 2097152;
    OctalDenotes(Checksum(h), 7);
  }

  /** The header for a stripped name. */
  function Header(name: Text, typ: byte, size: nat): (h: Text)
    requires CanMake(name, typ, size)
    ensures |h| == HEADER_SIZE
  {
    WithChksum(Back(Front(name, typ, size), typ))
  }

  /** strlcpy and snprintf into a field that has room. */
  method PutText(header: array<byte>, ofs: nat, t: Text)
    requires ofs + |t| + 1 <= header.Length
    modifies header
    ensures header[..] == Write(old(header[..]), ofs, t + [0])
  {
    for i := 0 to |t|
      invariant forall k | 0 <= k < header.Length :: header[k] == if ofs <= k < ofs + i then t[k - ofs] else old(header[..])[k]
    {
      header[ofs + i] := t[i];
    }
    header[ofs + |t|] := 0;
  }

  /** memset of the whole header. */
  method Clear(header: array<byte>)
    modifies header
    ensures header[..] == Nulls(header.Length)
  {
    for i := 0 to header.Length
      invariant forall k | 0 <= k < i :: header[k] == 0
    {
      header[i] := 0;
    }
  }

  method PutFront(header: array<byte>, name: Text, typ: byte, size: nat)
    requires header.Length == HEADER_SIZE && CanMake(name, typ, size)
    modifies header
    ensures header[..] == Front(name, typ, size)
  {
    FieldsFit(size, typ);
    hide Octal, Write, Power;
    Clear(header);
    PutText(header, 0, name);
    PutText(header, 100, Octal(Mode(typ), 7));
    PutText(header, 108, ZEROS);
    PutText(header, 116, ZEROS);
    PutText(header, 124, Octal(size, 11));
    PutText(header, 136, Octal(MTIME, 11));
  }

  method PutBack(header: array<byte>, typ: byte)
    requires header.Length == HEADER_SIZE
    modifies header
    ensures header[..] == Back(old(header[..]), typ)
  {
    ghost var h0 := header[..];
    header[156] := typ;
    assert header[..] == Write(h0, 156, [typ]);
    PutText(header, 257, MAGIC[..5]);
    ghost var h1 := header[..];
    assert MAGIC[..5] + [0] == MAGIC;
    header[263], header[264] := 48, 48;
    assert header[..] == Write(h1, 263, VERSION);
    hide Write;
    PutText(header, 297, ROOT);
    PutText(header, 265, ROOT);
  }

  /** ustar_make_header; it fails exactly for a name that is too long. */
  method UstarMakeHeader(fileName: Text, typ: byte, size: int, header: array<byte>) returns (ok: bool)
    requires header.Length == HEADER_SIZE && typ in {USTAR_REGULAR, USTAR_DIRECTORY} && 0 <= size < B31
    modifies header
    ensures ok <==> |Stripped(fileName)| <= 99
    ensures ok ==> header[..] == Header(Stripped(fileName), typ, size)
    ensures !ok ==> header[..] == old(header[..])
  {
    hide Stripped, Octal, Front, Back, Write, Checksum;
    var name := StripAntisocialPrefixes(fileName);
    if |name| > 99 { return false; }
    PutFront(header, name, typ, size);
    PutBack(header, typ);
    ghost var h := header[..];
    ChksumFits(h);
    var chksum := CalculateChksum(header);
    PutText(header, 148, Octal(chksum, 7));
    ok := true;
  }

  // ----- parsing a header -----

  datatype ParseError = NotUstar | BadVersion | CorruptChksum | ChksumMismatch | NameTooLong | UnknownType | CorruptSize | FileTooLarge

  datatype Parsed = Eof | Entry(name: Text, typ: byte, size: nat) | Error(error: ParseError)

  predicate AllZeros(t: Text) { forall i | 0 <= i < |t| :: t[i] == 0 }

  /** The characters before the first null character. */
  function CString(t: Text): (s: Text)
    ensures |s| <= |t|
  {
    if t == [] || t[0] == 0 then [] else [t[0]] + CString(t[1..])
  }

  function SizeOf(h: Text): Option<nat>
    requires |h| == HEADER_SIZE
  {
    if h[156] == USTAR_REGULAR then FieldValue(h[124..136]) else Some(0)
  }

  function Parse(h: Text): Parsed
    requires |h| == HEADER_SIZE
  {
    if AllZeros(h) then Eof
    else if h[257..263] != MAGIC then Error(NotUstar)
    else if h[263] != 48 || h[264] != 48 then Error(BadVersion)
    else if FieldValue(h[148..156]).None? then Error(CorruptChksum)
    else if FieldValue(h[148..156]).value != Checksum(h) then Error(ChksumMismatch)
    else if h[99] != 0 || h[345] != 0 then Error(NameTooLong)
    else if h[156] != USTAR_REGULAR && h[156] != USTAR_DIRECTORY then Error(UnknownType)
    else if SizeOf(h).None? then Error(CorruptSize)
    else if SizeOf(h).value >= B31 then Error(FileTooLarge)
    else Entry(Stripped(CString(h[..100])), h[156], SizeOf(h).value)
  }

  /** is_all_zeros */
  method IsAllZeros(block: array<byte>) returns (b: bool)
    ensures b <==> AllZeros(block[..])
  {
    for i := 0 to block.Length
      invariant forall k | 0 <= k < i :: block[k] == 0
    {
      if block[i] != 0 { return false; }
    }
    return true;
  }

  /** ustar_parse_header */
  method UstarParseHeader(header: array<byte>) returns (r: Parsed)
    requires header.Length == HEADER_SIZE
    ensures r == Parse(header[..])
  {
    hide Checksum, FieldValue, Stripped, CString, AllZeros;
    ghost var h := header[..];
    var zeros := IsAllZeros(header);
    if zeros { return Eof; }
    if header[257..263] != MAGIC { return Error(NotUstar); }
    if header[263] != 48 || header[264] != 48 { return Error(BadVersion); }
    assert header[257..263] == h[257..263] && header[148..156] == h[148..156] && header[124..136] == h[124..136] && header[..100] == h[..100];
    var chksum := ParseOctalField(header[148..156]);
    if chksum.None? { return Error(CorruptChksum); }
    var calculated := CalculateChksum(header);
    if chksum.value != calculated { return Error(ChksumMismatch); }
    if header[99] != 0 || header[345] != 0 { return Error(NameTooLong); }
    if header[156] != USTAR_REGULAR && header[156] != USTAR_DIRECTORY { return Error(UnknownType); }
    var size := 0;
    if header[156] == USTAR_REGULAR {
      var field := ParseOctalField(header[124..136]);
      if field.None? { return Error(CorruptSize); }
      if field.value >= B31 { return Error(FileTooLarge); }
      size := field.value;
    }
    var name := StripAntisocialPrefixes(CString(header[..100]));
    r := Entry(name, header[156], size);
  }

  // ----- damage is detected -----

  /** Changing any one byte outside the checksum field of a header that is accepted makes it
      one that is rejected. */
  lemma DamageIsDetected(h: Text, i: nat, v: byte)
    requires |h| == HEADER_SIZE && Parse(h).Entry? && i < HEADER_SIZE && !InChksum(i) && v != h[i]
    ensures Parse(h[i := v]).Error?
  {
    var h' := h[i := v];
    assert h'[148..156] == h[148..156];
    SumChange(h, i, v, 512);
    hide Sum, Stripped, CString;
    NonzeroChksum(h);
    var k :| 148 <= k < 156 && h[k] != 0;
    assert h'[k] != 0;
    assert h'[257..263] == MAGIC ==> h'[257..263] == MAGIC;
  }

  lemma NonzeroChksum(h: Text)
    requires |h| == HEADER_SIZE && FieldValue(h[148..156]).Some?
    ensures exists k :: 148 <= k < 156 && h[k] != 0
  {
    var f := h[148..156];
    assert h[148] == f[0];
  }

  // ----- what was made is read back -----

  lemma WriteElsewhere(h: Text, ofs: nat, t: Text, lo: nat, hi: nat)
    requires ofs + |t| <= |h| && lo <= hi <= |h| && (hi <= ofs || ofs + |t| <= lo)
    ensures Write(h, ofs, t)[lo..hi] == h[lo..hi]
  {
  }

  lemma WriteHere(h: Text, ofs: nat, t: Text)
    requires ofs + |t| <= |h|
    ensures Write(h, ofs, t)[ofs..ofs + |t|] == t
  {
  }

  /** The fields after the name leave a range outside them alone. */
  lemma FrontKeeps(h1: Text, typ: byte, size: nat, lo: nat, hi: nat)
    requires |h1| == HEADER_SIZE && lo <= hi && (hi <= 100 || (148 <= lo && hi <= 512))
    requires size < B31
    ensures FieldsAfterName(h1, typ, size)[lo..hi] == h1[lo..hi]
  {
    FieldsFit(size, typ);
    hide Octal, Power, Write;
    var h2 := Write(h1, 100, Octal(Mode(typ), 7) + [0]);
    var h3 := Write(h2, 108, ZEROS + [0]);
    var h4 := Write(h3, 116, ZEROS + [0]);
    var h5 := Write(h4, 124, Octal(size, 11) + [0]);
    WriteElsewhere(h1, 100, Octal(Mode(typ), 7) + [0], lo, hi);
    WriteElsewhere(h2, 108, ZEROS + [0], lo, hi);
    WriteElsewhere(h3, 116, ZEROS + [0], lo, hi);
    WriteElsewhere(h4, 124, Octal(size, 11) + [0], lo, hi);
    WriteElsewhere(h5, 136, Octal(MTIME, 11) + [0], lo, hi);
  }

  lemma FrontName(name: Text, typ: byte, size: nat)
    requires CanMake(name, typ, size)
    ensures Front(name, typ, size)[..100] == name + [0] + Nulls(99 - |name|) && Front(name, typ, size)[345..346] == [0]
  {
    var h1 := Write(Nulls(512), 0, name + [0]);
    assert h1[0..100] == name + [0] + Nulls(99 - |name|) && h1[345..346] == [0];
    hide Write, FieldsAfterName;
    FrontKeeps(h1, typ, size, 0, 100);
    FrontKeeps(h1, typ, size, 345, 346);
  }

  lemma FrontSize(name: Text, typ: byte, size: nat)
    requires CanMake(name, typ, size)
    ensures |Octal(size, 11)| == 11 && Front(name, typ, size)[124..136] == Octal(size, 11) + [0]
  {
    FieldsFit(size, typ);
    hide Octal, Power, Write;
    var h1 := Write(Nulls(512), 0, name + [0]);
    var h2 := Write(h1, 100, Octal(Mode(typ), 7) + [0]);
    var h4 := Write(Write(h2, 108, ZEROS + [0]), 116, ZEROS + [0]);
    var h5 := Write(h4, 124, Octal(size, 11) + [0]);
    WriteHere(h4, 124, Octal(size, 11) + [0]);
    WriteElsewhere(h5, 136, Octal(MTIME, 11) + [0], 124, 136);
  }

  lemma BackKeeps(h: Text, typ: byte, lo: nat, hi: nat)
    requires |h| == HEADER_SIZE && lo <= hi && (hi <= 156 || (345 <= lo && hi <= 512))
    ensures Back(h, typ)[lo..hi] == h[lo..hi]
  {
    hide Write;
    var h1 := Write(h, 156, [typ]);
    var h2 := Write(h1, 257, MAGIC);
    var h3 := Write(h2, 263, VERSION);
    var h4 := Write(h3, 297, ROOT + [0]);
    WriteElsewhere(h, 156, [typ], lo, hi);
    WriteElsewhere(h1, 257, MAGIC, lo, hi);
    WriteElsewhere(h2, 263, VERSION, lo, hi);
    WriteElsewhere(h3, 297, ROOT + [0], lo, hi);
    WriteElsewhere(h4, 265, ROOT + [0], lo, hi);
  }

  lemma BackFields(h: Text, typ: byte)
    requires |h| == HEADER_SIZE
    ensures Back(h, typ)[156..157] == [typ] && Back(h, typ)[257..263] == MAGIC && Back(h, typ)[263..265] == VERSION
  {
    hide Write;
    var h1 := Write(h, 156, [typ]);
    var h2 := Write(h1, 257, MAGIC);
    var h3 := Write(h2, 263, VERSION);
    var h4 := Write(h3, 297, ROOT + [0]);
    WriteHere(h, 156, [typ]);
    WriteElsewhere(h1, 257, MAGIC, 156, 157);
    WriteElsewhere(h2, 263, VERSION, 156, 157);
    WriteElsewhere(h3, 297, ROOT + [0], 156, 157);
    WriteElsewhere(h4, 265, ROOT + [0], 156, 157);
    WriteHere(h1, 257, MAGIC);
    WriteElsewhere(h2, 263, VERSION, 257, 263);
    WriteElsewhere(h3, 297, ROOT + [0], 257, 263);
    WriteElsewhere(h4, 265, ROOT + [0], 257, 263);
    WriteHere(h2, 263, VERSION);
    WriteElsewhere(h3, 297, ROOT + [0], 263, 265);
    WriteElsewhere(h4, 265, ROOT + [0], 263, 265);
  }

  /** Writing the checksum keeps the checksum and everything outside its field. */
  lemma ChksumField(h: Text)
    requires |h| == HEADER_SIZE
    ensures FieldValue(WithChksum(h)[148..156]) == Some(Checksum(h)) && Checksum(WithChksum(h)) == Checksum(h)
    ensures forall lo, hi | 0 <= lo <= hi <= 148 || 156 <= lo <= hi <= 512 :: WithChksum(h)[lo..hi] == h[lo..hi]
  {
    ChksumFits(h);
    ChksumSame(h);
    hide OctalRun, FieldValue, Octal, Power, Checksum;
    var t := Octal(Checksum(h), 7) + [0];
    WriteHere(h, 148, t);
    OctalFieldParses(Checksum(h), 7, t);
    forall lo, hi | 0 <= lo <= hi <= 148 || 156 <= lo <= hi <= 512 ensures WithChksum(h)[lo..hi] == h[lo..hi] {
      WriteElsewhere(h, 148, t, lo, hi);
    }
  }

  lemma ChksumSame(h: Text)
    requires |h| == HEADER_SIZE
    ensures Checksum(WithChksum(h)) == Checksum(h)
  {
    ChksumFits(h);
    hide Octal, Power;
    SumSame(h, WithChksum(h), 512);
  }

  lemma {:induction false} CStringOf(name: Text, rest: Text)
    requires 0 !in name
    ensures CString(name + [0] + rest) == name
  {
    if name != [] {
      assert (name + [0] + rest)[1..] == name[1..] + [0] + rest;
      assert name[0] in name;
      CStringOf(name[1..], rest);
    }
  }

  /** The fields of a made header. */
  lemma HeaderFields(name: Text, typ: byte, size: nat)
    requires CanMake(name, typ, size)
    ensures var h := Header(name, typ, size);
            && h[..100] == name + [0] + Nulls(99 - |name|) && h[345..346] == [0] && h[156..157] == [typ]
            && |Octal(size, 11)| == 11 && h[124..136] == Octal(size, 11) + [0]
            && h[257..263] == MAGIC && h[263..265] == VERSION
            && FieldValue(h[148..156]) == Some(Checksum(h))
  {
    var f := Front(name, typ, size);
    FrontName(name, typ, size);
    FrontSize(name, typ, size);
    hide Front, Octal, Checksum, FieldValue, WithChksum, Back;
    var b := Back(f, typ);
    ChksumField(b);
    BackFields(f, typ);
    BackKeeps(f, typ, 0, 100);
    BackKeeps(f, typ, 124, 136);
    BackKeeps(f, typ, 345, 346);
    var h := WithChksum(b);
    assert h[0..100] == b[0..100] && h[124..136] == b[124..136] && h[345..346] == b[345..346];
    assert h[156..157] == b[156..157] && h[257..263] == b[257..263] && h[263..265] == b[263..265];
  }

  /** One of the fields of constant contents, as Front writes it. */
  lemma FrontOther(name: Text, typ: byte, size: nat)
    requires CanMake(name, typ, size)
    ensures var h := Front(name, typ, size);
            && h[100..108] == Octal(Mode(typ), 7) + [0] && h[108..116] == ZEROS + [0] && h[116..124] == ZEROS + [0]
            && h[136..148] == Octal(MTIME, 11) + [0] && h[148..512] == Nulls(364)
  {
    FieldsFit(size, typ);
    var h1 := Write(Nulls(512), 0, name + [0]);
    assert h1[148..512] == Nulls(364);
    FrontKeeps(h1, typ, size, 148, 512);
    hide Octal, Power, Write;
    var m, z, s, d := Octal(Mode(typ), 7) + [0], ZEROS + [0], Octal(size, 11) + [0], Octal(MTIME, 11) + [0];
    var h2 := Write(h1, 100, m);
    var h3 := Write(h2, 108, z);
    var h4 := Write(h3, 116, z);
    var h5 := Write(h4, 124, s);
    WriteHere(h1, 100, m);
    WriteHere(h2, 108, z);
    WriteHere(h3, 116, z);
    WriteHere(h5, 136, d);
    WriteElsewhere(h2, 108, z, 100, 108);
    WriteElsewhere(h3, 116, z, 100, 108);
    WriteElsewhere(h4, 124, s, 100, 108);
    WriteElsewhere(h5, 136, d, 100, 108);
    WriteElsewhere(h3, 116, z, 108, 116);
    WriteElsewhere(h4, 124, s, 108, 116);
    WriteElsewhere(h5, 136, d, 108, 116);
    WriteElsewhere(h4, 124, s, 116, 124);
    WriteElsewhere(h5, 136, d, 116, 124);
  }

  lemma BackOther(h: Text, typ: byte)
    requires |h| == HEADER_SIZE && h[148..512] == Nulls(364)
    ensures var r := Back(h, typ);
            && r[157..257] == Nulls(100) && r[265..297] == ROOT + Nulls(28) && r[297..329] == ROOT + Nulls(28) && r[329..512] == Nulls(183)
  {
    var r := Back(h, typ);
    assert forall i | 148 <= i < 512 :: h[i] == h[148..512][i - 148] == 0;
    assert forall i | 157 <= i < 257 || 329 <= i < 512 :: r[i] == h[i];
    assert r[265..297] == ROOT + Nulls(28);
    assert r[297..329] == ROOT + Nulls(28);
  }

  /** The other fields of a made header: permissions rw-r--r-- or rwxr-xr-x, user and group 0 of the name
      "root", the one time of modification, and nulls. */
  lemma OtherFields(name: Text, typ: byte, size: nat)
    requires CanMake(name, typ, size)
    ensures var h := Header(name, typ, size);
            && h[100..108] == Octal(if typ == USTAR_REGULAR then 420 else 493, 7) + [0]
            && h[108..116] == h[116..124] == [48, 48, 48, 48, 48, 48, 48, 0] && h[136..148] == Octal(1136102400, 11) + [0]
            && h[265..297] == h[297..329] == [114, 111, 111, 116] + Nulls(28)
            && h[157..257] == Nulls(100) && h[329..512] == Nulls(183)
  {
    var f := Front(name, typ, size);
    FrontOther(name, typ, size);
    hide Front, Octal, Checksum, FieldValue, WithChksum, Back;
    var b := Back(f, typ);
    ChksumField(b);
    BackOther(f, typ);
    BackKeeps(f, typ, 100, 108);
    BackKeeps(f, typ, 108, 116);
    BackKeeps(f, typ, 116, 124);
    BackKeeps(f, typ, 136, 148);
    var h := WithChksum(b);
    assert h[100..108] == b[100..108] && h[108..116] == b[108..116] && h[116..124] == b[116..124] && h[136..148] == b[136..148];
    assert h[265..297] == b[265..297] && h[297..329] == b[297..329] && h[157..257] == b[157..257] && h[329..512] == b[329..512];
  }

  /** Parsing the header made for a file gives back the stripped name, the type, and the size,
      which is 0 for a directory. */
  lemma MadeHeaderParses(fileName: Text, typ: byte, size: nat)
    requires 0 !in fileName && |Stripped(fileName)| <= 99 && typ in {USTAR_REGULAR, USTAR_DIRECTORY} && size < B31
    ensures Parse(Header(Stripped(fileName), typ, size)) == Entry(Stripped(fileName), typ, if typ == USTAR_REGULAR then size else 0)
  {
    StrippingIsIdempotent(fileName);
    hide Stripped, Header, Parse, FieldValue, CString;
    var name := Stripped(fileName);
    HeaderFields(name, typ, size);
    CStringOf(name, Nulls(99 - |name|));
    SizeParses(size);
    ParseFields(Header(name, typ, size), name, typ, size);
  }

  lemma ParseFields(h: Text, name: Text, typ: byte, size: nat)
    requires |h| == HEADER_SIZE && |name| <= 99 && typ in {USTAR_REGULAR, USTAR_DIRECTORY} && size < B31
    requires h[..100] == name + [0] + Nulls(99 - |name|) && h[345..346] == [0] && h[156..157] == [typ]
    requires h[257..263] == MAGIC && h[263..265] == VERSION && FieldValue(h[148..156]) == Some(Checksum(h))
    requires FieldValue(h[124..136]) == Some(size) && CString(h[..100]) == name && Stripped(name) == name
    ensures Parse(h) == Entry(name, typ, if typ == USTAR_REGULAR then size else 0)
  {
    hide Stripped, Checksum, FieldValue, CString;
    FirstByte(h, 156, 157);
    FirstByte(h, 345, 346);
    FirstByte(h, 257, 263);
    FirstByte(h, 263, 265);
    assert h[264] == h[263..265][1];
    assert h[99] == h[..100][99];
  }

  lemma FirstByte(h: Text, lo: nat, hi: nat)
    requires lo < hi <= |h|
    ensures h[lo] == h[lo..hi][0]
  {
  }

  lemma SizeParses(size: nat)
    requires size < B31
    ensures FieldValue(Octal(size, 11) + [0]) == Some(size)
  {
    FieldsFit(size, USTAR_REGULAR);
    OctalFieldParses(size, 11, Octal(size, 11) + [0]);
  }
}

/** Integer conversions of printf, output into a bounded buffer (Project 2/src/lib/stdio.c), and
    atoi (Project 2/src/lib/stdlib.c). Characters are bytes. */
module Stdio {
  import opened Machine

  type Text = seq<byte>

  const SPACE: byte := 32
  const PLUS_SIGN: byte := 43
  const COMMA: byte := 44
  const MINUS_SIGN: byte := 45
  const DIGIT_0: byte := 48

  /** struct integer_base: for each digit its character, the x character or 0, and how many
      digits make a group. */
  datatype Base = Base(base: nat, digits: Text, x: byte, group: nat)

  const DECIMAL := Base(10, [48, 49, 50, 51, 52, 53, 54, 55, 56, 57], 0, 3)
  const OCTAL := Base(8, [48, 49, 50, 51, 52, 53, 54, 55], 0, 3)
  const HEX := Base(16, [48, 49, 50, 51, 52, 53, 54, 55, 56, 57, 97, 98, 99, 100, 101, 102], 120, 4)
  const HEX_UPPER := Base(16, [48, 49, 50, 51, 52, 53, 54, 55, 56, 57, 65, 66, 67, 68, 69, 70], 88, 4)

  predicate BaseOk(b: Base) { b == DECIMAL || b == OCTAL || b == HEX || b == HEX_UPPER }

  /** What a conversion specification and the int arguments for its asterisks ask for; a
      negative precision is the same as none. */
  datatype Request = Request(minus: bool, plus: bool, space: bool, pound: bool, zero: bool, grouped: bool, width: int, precision: int)

  /** struct printf_conversion; a precision of -1 means that none was given. */
  datatype Conversion = Conversion(minus: bool, plus: bool, space: bool, pound: bool, zero: bool, grouped: bool, width: nat, precision: int)

  /** The conversion that parse_conversion makes of a request. */
  function Resolved(r: Request): Conversion {
    Conversion(r.minus || r.width < 0, r.plus, r.space && !r.plus, r.pound, r.zero && !r.minus && r.precision < 0, r.grouped,
               if r.width < 0 then 0 - r.width else r.width, if r.precision < 0 then -1 else r.precision)
  }

  /** The part of parse_conversion that reconciles flags, width and precision. A negative width
      stands for the flag '-', but by then that flag has been weighed against '0'. */
  method ParseConversion(r: Request) returns (c: Conversion)
    ensures c == Resolved(r)
  {
    c := Conversion(r.minus, r.plus, r.space, r.pound, r.zero, r.grouped, 0, -1);
    if c.minus { c := c.(zero := false); }
    if c.plus { c := c.(space := false); }
    var width := r.width;
    if width < 0 {
      width := 0 - width;
      c := c.(minus := true);
    }
    c := c.(width := width);
    c := c.(precision := if r.precision < 0 then -1 else r.precision);
    if c.precision >= 0 { c := c.(zero := false); }
  }

  const PLAIN := Conversion(false, false, false, false, false, false, 0, -1)

  // ----- what is to be printed -----

  /** The digits of value, highest first, when cnt lower digits follow. */
  function Digits(value: nat, b: Base, grouped: bool, cnt: nat): Text
    requires BaseOk(b)
    decreases value
  {
    if value == 0 then [] else
      Digits(value / b.base, b, grouped, cnt + 1) + [b.digits[value % b.base]] + Comma(b, grouped, cnt)
  }

  function Comma(b: Base, grouped: bool, cnt: nat): (t: Text)
    requires BaseOk(b)
    ensures |t| <= 1
  {
    if grouped && cnt > 0 && cnt % b.group == 0 then [COMMA] else []
  }

  function Repeat(ch: byte, n: int): (t: Text)
    ensures |t| == if n < 0 then 0 else n
  {
    if n <= 0 then [] else seq(n, _ => ch)
  }

  function Max(a: int, b: int): int { if a > b then a else b }

  function Min(a: int, b: int): int { if a < b then a else b }

  /** Zeros in front of the digits: up to the precision, but never beyond 63 characters. */
  function Leading(value: nat, b: Base, c: Conversion): nat
    requires BaseOk(b)
  {
    Max(0, Min(if c.precision < 0 then 1 else c.precision, 63) - |Digits(value, b, c.grouped, 0)|)
  }

  function Numeral(value: nat, b: Base, c: Conversion): Text
    requires BaseOk(b)
  {
    var t := Repeat(DIGIT_0, Leading(value, b, c)) + Digits(value, b, c.grouped, 0);
    if c.pound && b.base == 8 && (t == [] || t[0] != DIGIT_0) then [DIGIT_0] + t else t
  }

  function Sign(isSigned: bool, negative: bool, c: Conversion): Text {
    if !isSigned then []
    else if negative then [MINUS_SIGN]
    else if c.plus then [PLUS_SIGN]
    else if c.space then [SPACE]
    else []
  }

  function Prefix(value: nat, b: Base, c: Conversion): Text {
    if c.pound && value > 0 && b.x != 0 then [DIGIT_0, b.x] else []
  }

  function Content(value: nat, isSigned: bool, negative: bool, b: Base, c: Conversion): Text
    requires BaseOk(b)
  {
    Sign(isSigned, negative, c) + Prefix(value, b, c) + Numeral(value, b, c)
  }

  /** The conversion: the sign, the prefix and the numeral, padded to the width. */
  function Formatted(value: nat, isSigned: bool, negative: bool, b: Base, c: Conversion): Text
    requires BaseOk(b)
  {
    var pad := c.width - |Content(value, isSigned, negative, b, c)|;
    if c.minus && c.zero then
      Sign(isSigned, negative, c) + Prefix(value, b, c) + Repeat(DIGIT_0, pad) + Numeral(value, b, c) + Repeat(SPACE, pad)
    else if c.minus then Content(value, isSigned, negative, b, c) + Repeat(SPACE, pad)
    else if c.zero then Sign(isSigned, negative, c) + Prefix(value, b, c) + Repeat(DIGIT_0, pad) + Numeral(value, b, c)
    else Repeat(SPACE, pad) + Content(value, isSigned, negative, b, c)
  }

  /** A conversion fills the field width or is as long as its content, except that one that
      was asked for zeros and for left alignment by a negative width is padded twice. */
  lemma FormattedLength(value: nat, isSigned: bool, negative: bool, b: Base, c: Conversion)
    requires BaseOk(b)
    ensures var n, len := |Content(value, isSigned, negative, b, c)|, |Formatted(value, isSigned, negative, b, c)|;
            && len == n + (if c.minus && c.zero then 2 else 1) * Max(0, c.width - n)
            && (len == Max(c.width, n) <==> !(c.minus && c.zero) || c.width <= n)
  {
    hide Sign, Prefix, Numeral;
  }

  /** In terms of the request, against the same conversion without a width: the field is as wide as the magnitude of the width, unless zeros
      are asked for with a negative width, no precision and no '-', and the content is shorter. */
  lemma WidthIsKept(value: nat, isSigned: bool, negative: bool, b: Base, r: Request)
    requires BaseOk(b)
    ensures var n, len := |Formatted(value, isSigned, negative, b, Resolved(r.(width := 0)))|, |Formatted(value, isSigned, negative, b, Resolved(r))|;
            len == Max(Abs(r.width), n) <==> !(r.zero && !r.minus && r.width < 0 && r.precision < 0) || 0 - r.width <= n
  {
    FormattedLength(value, isSigned, negative, b, Resolved(r));
    FormattedLength(value, isSigned, negative, b, Resolved(r.(width := 0)));
    SameContent(value, isSigned, negative, b, r);
    hide Content, Formatted;
  }

  lemma SameContent(value: nat, isSigned: bool, negative: bool, b: Base, r: Request)
    requires BaseOk(b)
    ensures Content(value, isSigned, negative, b, Resolved(r.(width := 0))) == Content(value, isSigned, negative, b, Resolved(r))
  {
    hide Digits, BaseOk, Repeat;
    var c, c0 := Resolved(r), Resolved(r.(width := 0));
    assert Numeral(value, b, c0) == Numeral(value, b, c);
    assert Sign(isSigned, negative, c0) == Sign(isSigned, negative, c);
  }

  /** 42 converted by %0*d with a width of -5. */
  lemma PaddedTwice()
    ensures Formatted(42, true, false, DECIMAL, Resolved(Request(false, false, false, false, true, false, -5, -1)))
            == [48, 48, 48, 52, 50, 32, 32, 32]
  {
    assert Digits(0, DECIMAL, false, 2) == [];
    assert Digits(4, DECIMAL, false, 1) == [52];
    assert Digits(42, DECIMAL, false, 0) == [52, 50];
  }

  // ----- the buffer is large enough -----

  function Power(b: nat, k: nat): nat { if k == 0 then 1 else b * Power(b, k - 1) }

  /** A number below the k-th power of its base has at most k digits, and at most one comma
      for each. */
  lemma {:induction false} DigitsLength(value: nat, b: Base, grouped: bool, cnt: nat, k: nat)
    requires BaseOk(b) && value < Power(8, k)
    ensures |Digits(value, b, grouped, cnt)| <= 2 * k
    decreases value
  {
    if value > 0 {
      assert k > 0;
      assert value / b.base < Power(8, k - 1) by {
        assert value < 8 * Power(8, k - 1);
        Smaller(value, b.base, Power(8, k - 1));
      }
      DigitsLength(value / b.base, b, grouped, cnt + 1, k - 1);
    }
  }

  /** Without grouping there is one character for each digit. */
  lemma {:induction false} DigitCount(value: nat, b: Base, cnt: nat, k: nat)
    requires BaseOk(b) && value < Power(8, k)
    ensures |Digits(value, b, false, cnt)| <= k
    decreases value
  {
    if value > 0 {
      assert value < 8 * Power(8, k - 1);
      Smaller(value, b.base, Power(8, k - 1));
      DigitCount(value / b.base, b, cnt + 1, k - 1);
    }
  }

  lemma Smaller(v: nat, d: nat, p: nat)
    requires v < 8 * p && d in {8, 10, 16}
    ensures v / d < p
  {
    if d == 8 { assert v / 8 < p; } else if d == 10 { assert v / 10 < p; } else { assert v / 16 < p; }
  }

  lemma PowerBound()
    ensures Power(8, 22) >= B64
  {
    assert Power(8, 4) == 4096;
    assert Power(8, 8) == 0x100_0000;
    assert Power(8, 12) == 0x10_0000_0000;
    assert Power(8, 16) == 0x1_0000_0000_0000;
    assert Power(8, 20) == 0x1000_0000_0000_0000;
    assert Power(8, 22) == 0x4_0000_0000_0000_0000;
  }

  lemma AtMost44(value: nat, b: Base, grouped: bool)
    requires BaseOk(b) && value < B64
    ensures |Digits(value, b, grouped, 0)| <= 44
  {
    PowerBound();
    DigitsLength(value, b, grouped, 0, 22);
  }

  function Reversed(t: Text): (r: Text)
    ensures |r| == |t|
  {
    if t == [] then [] else Reversed(t[1..]) + [t[0]]
  }

  lemma {:induction false} ReversedAppend(s: Text, t: Text)
    ensures Reversed(s + t) == Reversed(t) + Reversed(s)
  {
    if s == [] {
      assert s + t == t;
    } else {
      assert (s + t)[1..] == s[1..] + t;
      ReversedAppend(s[1..], t);
    }
  }

  lemma {:induction false} ReversedRepeat(ch: byte, n: nat)
    ensures Reversed(Repeat(ch, n)) == Repeat(ch, n)
  {
    if n > 0 {
      assert Repeat(ch, n)[1..] == Repeat(ch, n - 1);
      ReversedRepeat(ch, n - 1);
      assert Repeat(ch, n - 1) + [ch] == Repeat(ch, n);
    }
  }

  lemma ReversedShort(t: Text)
    requires |t| <= 1
    ensures Reversed(t) == t
  {
  }

  lemma Regroup(a: Text, d: Text, c: Text, r: Text)
    ensures a + d + c + r == a + (d + (c + r))
  {
  }

  /** One more digit in the buffer, which holds the numeral backwards. */
  lemma NextDigit(value: nat, b: Base, grouped: bool, cnt: nat, low: Text)
    requires BaseOk(b) && value > 0
    ensures Digits(value, b, grouped, cnt) + Reversed(low)
            == Digits(value / b.base, b, grouped, cnt + 1) + Reversed(low + Comma(b, grouped, cnt) + [b.digits[value % b.base]])
  {
    var comma, d, high := Comma(b, grouped, cnt), [b.digits[value % b.base]], Digits(value / b.base, b, grouped, cnt + 1);
    assert Digits(value, b, grouped, cnt) == high + d + comma;
    hide Digits, Comma, BaseOk;
    ReversedAppend(low + comma, d);
    ReversedAppend(low, comma);
    ReversedShort(comma);
    ReversedShort(d);
    hide Reversed;
    Regroup(high, d, comma, Reversed(low));
  }

  // ----- the conversion -----

  /** A character buffer of fixed size with a current position, as in format_integer. */
  class Buffer {
    const buf: array<byte>
    var cp: nat

    ghost predicate Valid()
      reads this, buf
    {
      buf.Length == 64 && cp <= 64
    }

    ghost function Stored(): Text
      reads this, buf
      requires Valid()
    {
      buf[..cp]
    }

    constructor ()
      ensures Valid() && Stored() == [] && fresh(buf)
    {
      buf := new byte[64];
      cp := 0;
    }

    method Put(ch: byte)
      requires Valid() && cp < 64
      modifies this`cp, buf
      ensures Valid() && Stored() == old(Stored()) + [ch]
    {
      buf[cp] := ch;
      cp := cp + 1;
    }

    /** The loop that accumulates digits, lowest first. */
    method PutDigits(value0: nat, b: Base, c: Conversion)
      requires Valid() && Stored() == [] && BaseOk(b) && value0 < B64
      modifies this`cp, buf
      ensures Valid() && Reversed(Stored()) == Digits(value0, b, c.grouped, 0)
    {
      AtMost44(value0, b, c.grouped);
      hide Digits, Reversed, Comma;
      ghost var whole := Digits(value0, b, c.grouped, 0);
      var value: nat, digitCnt: nat := value0, 0;
      assert Reversed([]) == [] by { ReversedShort([]); }
      while value > 0
        invariant Valid() && whole == Digits(value, b, c.grouped, digitCnt) + Reversed(Stored())
        decreases value
      {
        NextDigit(value, b, c.grouped, digitCnt, Stored());
        ghost var low := Stored();
        RoomForTwo(value, b, c.grouped, digitCnt, |low|);
        if c.grouped && digitCnt > 0 && digitCnt % b.group == 0 {
          Put(COMMA);
          assert Stored() == low + Comma(b, c.grouped, digitCnt) by { CommaIs(b, c.grouped, digitCnt); }
        } else {
          assert Stored() == low + Comma(b, c.grouped, digitCnt) by { CommaIs(b, c.grouped, digitCnt); }
        }
        Put(b.digits[value % b.base]);
        value := value / b.base;
        digitCnt := digitCnt + 1;
      }
      assert Digits(0, b, c.grouped, digitCnt) == [] by { NoDigits(b, c.grouped, digitCnt); }
    }

    /** The zeros that follow the digits in the buffer to reach the precision. */
    method PutZeros(precision: int, ghost n: nat)
      requires Valid() && n == Max(0, Min(precision, 63) - cp)
      modifies this`cp, buf
      ensures Valid() && Stored() == old(Stored()) + Repeat(DIGIT_0, n) && cp == old(cp) + n
    {
      hide Repeat;
      ghost var low := Stored();
      assert low + Repeat(DIGIT_0, 0) == low;
      ghost var k := 0;
      while cp < precision && cp < 63
        invariant Valid() && cp == |low| + k && k <= n && Stored() == low + Repeat(DIGIT_0, k)
        decreases 63 - cp
      {
        RepeatMore(DIGIT_0, k);
        Put(DIGIT_0);
        Regroup3(low, Repeat(DIGIT_0, k), [DIGIT_0]);
        k := k + 1;
      }
    }

    /** The extra zero of %#o. */
    method PutOctalZero(pound: bool, b: Base, ghost t: Text)
      requires Valid() && Reversed(Stored()) == t && cp <= 63
      modifies this`cp, buf
      ensures Valid()
      ensures Reversed(Stored()) == if pound && b.base == 8 && (t == [] || t[0] != DIGIT_0) then [DIGIT_0] + t else t
    {
      hide Reversed;
      LastIsFirst(Stored());
      assert cp == |t|;
      if pound && b.base == 8 && (cp == 0 || buf[cp - 1] != DIGIT_0) {
        ReversedAppend(Stored(), [DIGIT_0]);
        ReversedShort([DIGIT_0]);
        Put(DIGIT_0);
      }
    }

    /** The numeral, backwards, in an empty buffer; it always fits. */
    method PutNumeral(value: nat, b: Base, c: Conversion)
      requires Valid() && Stored() == [] && BaseOk(b) && value < B64
      modifies this`cp, buf
      ensures Valid() && Reversed(Stored()) == Numeral(value, b, c)
    {
      AtMost44(value, b, c.grouped);
      hide Digits, Reversed, Repeat, BaseOk;
      PutDigits(value, b, c);
      ghost var low, n := Stored(), Leading(value, b, c);
      PutZeros(if c.precision < 0 then 1 else c.precision, n);
      ReversedAppend(low, Repeat(DIGIT_0, n));
      ReversedRepeat(DIGIT_0, n);
      PutOctalZero(c.pound, b, Repeat(DIGIT_0, n) + Digits(value, b, c.grouped, 0));
    }
  }

  lemma Regroup3(a: Text, b: Text, c: Text)
    ensures a + b + c == a + (b + c)
  {
  }

  /** output_dup */
  method OutputDup(out0: Text, ch: byte, cnt: nat) returns (out: Text)
    ensures out == out0 + Repeat(ch, cnt)
  {
    out := out0;
    for i := 0 to cnt
      invariant out == out0 + Repeat(ch, i)
    {
      RepeatMore(ch, i);
      out := out + [ch];
    }
  }

  /** format_integer: out is what it passes to its output function. */
  method FormatInteger(value: nat, isSigned: bool, negative: bool, b: Base, c: Conversion) returns (out: Text)
    requires BaseOk(b) && value < B64
    ensures out == Formatted(value, isSigned, negative, b, c)
  {
    hide Numeral, Digits, Reversed, Repeat, BaseOk;
    var sign := Sign(isSigned, negative, c);
    var prefix := Prefix(value, b, c);
    var buffer := new Buffer();
    buffer.PutNumeral(value, b, c);
    ReversedLength(buffer.Stored());
    var padCnt := Max(0, c.width - buffer.cp - |prefix| - |sign|);
    RepeatNothing(SPACE, c.width - buffer.cp - |prefix| - |sign|);
    RepeatNothing(DIGIT_0, c.width - buffer.cp - |prefix| - |sign|);
    out := [];
    if !c.minus && !c.zero { out := OutputDup(out, SPACE, padCnt); }
    out := out + sign + prefix;
    if c.zero { out := OutputDup(out, DIGIT_0, padCnt); }
    out := Unload(out, buffer);
    if c.minus { out := OutputDup(out, SPACE, padCnt); }
    Assembled(value, isSigned, negative, b, c, padCnt, out);
  }

  /** The loop that outputs the buffer backwards. */
  method Unload(out0: Text, buffer: Buffer) returns (out: Text)
    requires buffer.Valid()
    ensures out == out0 + Reversed(buffer.Stored())
  {
    out := out0;
    var i := buffer.cp;
    while i > 0
      invariant 0 <= i <= buffer.cp && out + Reversed(buffer.buf[..i]) == out0 + Reversed(buffer.buf[..buffer.cp])
    {
      i := i - 1;
      assert buffer.buf[..i + 1] == buffer.buf[..i] + [buffer.buf[i]];
      ReversedAppend(buffer.buf[..i], [buffer.buf[i]]);
      ReversedShort([buffer.buf[i]]);
      hide Reversed;
      out := out + [buffer.buf[i]];
    }
    ReversedShort([]);
    assert buffer.buf[..0] == [];
  }

  lemma ReversedLength(t: Text)
    ensures |Reversed(t)| == |t|
  {
  }

  lemma RepeatNothing(ch: byte, n: int)
    ensures Repeat(ch, n) == Repeat(ch, Max(0, n))
    ensures Repeat(ch, 0) == []
  {
  }

  lemma Assembled(value: nat, isSigned: bool, negative: bool, b: Base, c: Conversion, padCnt: nat, out: Text)
    requires BaseOk(b)
    requires var pad := c.width - |Content(value, isSigned, negative, b, c)|; padCnt == Max(0, pad)
    requires out == [] + (if !c.minus && !c.zero then Repeat(SPACE, padCnt) else []) + Sign(isSigned, negative, c) + Prefix(value, b, c)
                    + (if c.zero then Repeat(DIGIT_0, padCnt) else []) + Numeral(value, b, c) + (if c.minus then Repeat(SPACE, padCnt) else [])
    ensures out == Formatted(value, isSigned, negative, b, c)
  {
    var pad := c.width - |Content(value, isSigned, negative, b, c)|;
    RepeatNothing(SPACE, pad);
    RepeatNothing(DIGIT_0, pad);
    hide Numeral, Sign, Prefix, Repeat, BaseOk;
    Joined(Repeat(SPACE, padCnt), Sign(isSigned, negative, c), Prefix(value, b, c), Repeat(DIGIT_0, padCnt), Numeral(value, b, c));
    hide Content;
  }

  lemma Joined(spaces: Text, sign: Text, prefix: Text, zeros: Text, numeral: Text)
    ensures [] + [] + sign + prefix + zeros + numeral + spaces == sign + prefix + zeros + numeral + spaces
    ensures [] + [] + sign + prefix + [] + numeral + spaces == (sign + prefix + numeral) + spaces
    ensures [] + [] + sign + prefix + zeros + numeral + [] == sign + prefix + zeros + numeral
    ensures [] + spaces + sign + prefix + [] + numeral + [] == spaces + (sign + prefix + numeral)
  {
  }

  lemma RoomForTwo(value: nat, b: Base, grouped: bool, cnt: nat, n: nat)
    requires BaseOk(b) && value > 0 && |Digits(value, b, grouped, cnt)| + n <= 44
    ensures n + 1 <= 44
  {
  }

  lemma CommaIs(b: Base, grouped: bool, cnt: nat)
    requires BaseOk(b)
    ensures Comma(b, grouped, cnt) == if grouped && cnt > 0 && cnt % b.group == 0 then [COMMA] else []
  {
  }

  lemma NoDigits(b: Base, grouped: bool, cnt: nat)
    requires BaseOk(b)
    ensures Digits(0, b, grouped, cnt) == []
  {
  }

  lemma RepeatMore(ch: byte, k: nat)
    ensures Repeat(ch, k) + [ch] == Repeat(ch, k + 1)
  {
  }

  lemma LastIsFirst(t: Text)
    ensures t != [] ==> Reversed(t) != [] && Reversed(t)[0] == t[|t| - 1]
  {
    hide Reversed;
    if t != [] {
      var a, b := t[..|t| - 1], [t[|t| - 1]];
      assert t == a + b;
      ReversedAppend(a, b);
      ReversedShort(b);
      assert (b + Reversed(a))[0] == b[0];
    }
  }

  // ----- the value of a numeral -----

  predicate IsDigit(ch: byte) { DIGIT_0 <= ch <= 57 }

  predicate AllDigits(t: Text) { forall i | 0 <= i < |t| :: IsDigit(t[i]) }

  /** The value of a digit, also of the letters in base 16. */
  function DigitValue(ch: byte): int { if ch >= 97 then ch - 87 else if ch >= 65 then ch - 55 else ch - DIGIT_0 }

  /** The number that a string of digits denotes. */
  function Denotes(t: Text, base: nat): int {
    if t == [] then 0 else Denotes(t[..|t| - 1], base) * base + DigitValue(t[|t| - 1])
  }

  lemma DenotesAppend(t: Text, d: byte, base: nat)
    ensures Denotes(t + [d], base) == Denotes(t, base) * base + DigitValue(d)
  {
    assert (t + [d])[..|t|] == t;
  }

  /** A numeral denotes the number it was made from. */
  lemma {:induction false} DigitsDenote(value: nat, b: Base, cnt: nat)
    requires BaseOk(b)
    ensures Denotes(Digits(value, b, false, cnt), b.base) == value
    decreases value
  {
    if value > 0 {
      DigitsDenote(value / b.base, b, cnt + 1);
      LowestDigit(value, b, cnt);
      Split(value, b);
      DigitIs(b, value % b.base);
      hide Digits, BaseOk, DigitValue, Denotes;
      DenotesAppend(Digits(value / b.base, b, false, cnt + 1), b.digits[value % b.base], b.base);
    }
  }

  lemma LowestDigit(value: nat, b: Base, cnt: nat)
    requires BaseOk(b) && value > 0
    ensures Digits(value, b, false, cnt) == Digits(value / b.base, b, false, cnt + 1) + [b.digits[value % b.base]]
  {
    var high, d := Digits(value / b.base, b, false, cnt + 1), [b.digits[value % b.base]];
    assert Digits(value, b, false, cnt) == high + d + [];
    hide Digits, BaseOk;
    assert high + d + [] == high + d;
  }

  /** The characters of a numeral in base 8 or 10. */
  lemma {:induction false} NumeralDigits(value: nat, b: Base, cnt: nat)
    requires b == DECIMAL || b == OCTAL
    ensures forall i | 0 <= i < |Digits(value, b, false, cnt)| :: DIGIT_0 <= Digits(value, b, false, cnt)[i] < DIGIT_0 + b.base
    decreases value
  {
    if value > 0 {
      NumeralDigits(value / b.base, b, cnt + 1);
      LowestDigit(value, b, cnt);
      DigitIs(b, value % b.base);
      hide Digits;
    }
  }

  lemma Split(value: nat, b: Base)
    requires BaseOk(b)
    ensures value == value / b.base * b.base + value % b.base
  {
    if b.base == 8 { assert value == value / 8 * 8 + value % 8; }
    else if b.base == 10 { assert value == value / 10 * 10 + value % 10; }
    else { assert value == value / 16 * 16 + value % 16; }
  }

  lemma DigitIs(b: Base, k: nat)
    requires BaseOk(b) && k < b.base
    ensures DigitValue(b.digits[k]) == k && b.digits[k] != COMMA
    ensures b.base <= 10 ==> b.digits[k] == DIGIT_0 + k
  {
  }

  /** The text without its commas. */
  function Ungrouped(t: Text): Text {
    if t == [] then [] else Ungrouped(t[..|t| - 1]) + if t[|t| - 1] == COMMA then [] else [t[|t| - 1]]
  }

  lemma UngroupedAppend(t: Text, ch: byte)
    ensures Ungrouped(t + [ch]) == Ungrouped(t) + if ch == COMMA then [] else [ch]
  {
    assert (t + [ch])[..|t|] == t;
  }

  /** Grouping only adds commas, so a grouped numeral denotes its number too. */
  lemma {:induction false} GroupingAddsCommas(value: nat, b: Base, cnt: nat)
    requires BaseOk(b)
    ensures Ungrouped(Digits(value, b, true, cnt)) == Digits(value, b, false, cnt)
    decreases value
  {
    if value > 0 {
      GroupingAddsCommas(value / b.base, b, cnt + 1);
      var high, d := Digits(value / b.base, b, true, cnt + 1), b.digits[value % b.base];
      DigitIs(b, value % b.base);
      UngroupedAppend(high, d);
      UngroupedAppend(high + [d], COMMA);
      assert high + [d] + [] == high + [d];
    }
  }

  lemma {:induction false} LeadingZeros(n: nat, t: Text, base: nat)
    ensures Denotes(Repeat(DIGIT_0, n) + t, base) == Denotes(t, base)
    decreases |t|, n
  {
    if t != [] {
      var u := Repeat(DIGIT_0, n) + t;
      assert u[..|u| - 1] == Repeat(DIGIT_0, n) + t[..|t| - 1];
      LeadingZeros(n, t[..|t| - 1], base);
    } else if n > 0 {
      assert (Repeat(DIGIT_0, n) + [])[..n - 1] == Repeat(DIGIT_0, n - 1) + [];
      LeadingZeros(n - 1, [], base);
    } else {
      assert Repeat(DIGIT_0, 0) + t == t;
    }
  }

  // ----- atoi -----

  /** isspace */
  predicate IsSpace(ch: byte) { ch == 32 || 9 <= ch <= 13 }

  function Spaces(s: Text): (n: nat)
    ensures n <= |s| && (n < |s| ==> !IsSpace(s[n])) && forall i | 0 <= i < n :: IsSpace(s[i])
  {
    if s == [] || !IsSpace(s[0]) then 0 else 1 + Spaces(s[1..])
  }

  function Run(s: Text): (n: nat)
    ensures n <= |s| && (n < |s| ==> !IsDigit(s[n])) && forall i | 0 <= i < n :: IsDigit(s[i])
  {
    if s == [] || !IsDigit(s[0]) then 0 else
      var n := 1 + Run(s[1..]);
      assert forall i | 0 < i < n :: s[i] == s[1..][i - 1];
      assert n < |s| ==> s[n] == s[1..][n - 1];
      n
  }

  /** The signed number that the digits after white space and an optional sign denote. */
  function AtoiValue(s: Text): int { SignedValue(s[Spaces(s)..]) }

  function SignedValue(t: Text): int {
    var negative := t != [] && t[0] == MINUS_SIGN;
    var u := if t != [] && (t[0] == PLUS_SIGN || t[0] == MINUS_SIGN) then t[1..] else t;
    var d := Denotes(u[..Run(u)], 10);
    S32(if negative then 0 - d else d)
  }

  lemma WrapSteps(v: int, d: int, digit: int)
    requires v == S32(0 - d)
    ensures S32(v * 10 - digit) == S32(0 - (d * 10 + digit))
  {
    var k := ((0 - d) - v) / 0x1_0000_0000;
    assert 0 - d == v + 0x1_0000_0000 * k;
    assert 0 - (d * 10 + digit) == v * 10 - digit + 0x1_0000_0000 * (10 * k);
    SameWrap(v * 10 - digit, 10 * k);
  }

  lemma SameWrap(x: int, k: int)
    ensures S32(x + 0x1_0000_0000 * k) == S32(x)
  {
    assert (x + 0x1_0000_0000 * k) % 0x1_0000_0000 == x % 0x1_0000_0000;
  }

  lemma WrapNegated(v: int, d: int)
    requires v == S32(0 - d)
    ensures S32(0 - v) == S32(d)
  {
    var k := ((0 - d) - v) / 0x1_0000_0000;
    assert 0 - d == v + 0x1_0000_0000 * k;
    SameWrap(d, k);
  }

  lemma SpacesFrom(s: Text, i: nat)
    requires i <= |s| && (forall j | 0 <= j < i :: IsSpace(s[j])) && (i < |s| ==> !IsSpace(s[i]))
    ensures Spaces(s) == i
  {
    var n := Spaces(s);
  }

  lemma RunFrom(s: Text, i: nat)
    requires i <= |s| && (forall j | 0 <= j < i :: IsDigit(s[j])) && (i < |s| ==> !IsDigit(s[i]))
    ensures Run(s) == i
  {
    var n := Run(s);
  }

  /** The digit loop of atoi, which counts downward because there are more negative numbers. */
  method ParseDigits(s: Text, start: nat) returns (value: int)
    requires start <= |s|
    ensures var u := s[start..]; value == S32(0 - Denotes(u[..Run(u)], 10))
  {
    hide Run, Denotes, S32, IsDigit;
    ghost var u := s[start..];
    var i := start;
    value := 0;
    assert u[..0] == [] && S32(0 - Denotes([], 10)) == 0 by { NothingDenoted(); }
    while i < |s| && IsDigit(s[i])
      invariant start <= i <= |s| && (forall j | 0 <= j < i - start :: IsDigit(u[j])) && value == S32(0 - Denotes(u[..i - start], 10))
    {
      ghost var k := i - start;
      assert u[k] == s[i];
      NextDenoted(u, k, value);
      value := S32(value * 10 - (s[i] - DIGIT_0));
      i := i + 1;
    }
    RunFrom(u, i - start);
  }

  lemma NextDenoted(u: Text, k: nat, value: int)
    requires k < |u| && IsDigit(u[k]) && value == S32(0 - Denotes(u[..k], 10))
    ensures S32(value * 10 - (u[k] - DIGIT_0)) == S32(0 - Denotes(u[..k + 1], 10))
  {
    assert u[..k + 1] == u[..k] + [u[k]];
    DenotesAppend(u[..k], u[k], 10);
    WrapSteps(value, Denotes(u[..k], 10), u[k] - DIGIT_0);
  }

  /** atoi, on the characters before the terminating null character. */
  method Atoi(s: Text) returns (value: int)
    ensures value == AtoiValue(s)
  {
    var i := 0;
    while i < |s| && IsSpace(s[i])
      invariant i <= |s| && forall j | 0 <= j < i :: IsSpace(s[j])
    {
      i := i + 1;
    }
    SpacesFrom(s, i);
    hide Spaces, Run, Denotes, S32, IsSpace;
    var negative := false;
    ghost var t := s[i..];
    if i < |s| && s[i] == PLUS_SIGN {
      i := i + 1;
      assert s[i..] == t[1..];
    } else if i < |s| && s[i] == MINUS_SIGN {
      negative := true;
      i := i + 1;
      assert s[i..] == t[1..];
    }
    ghost var u := s[i..];
    value := ParseDigits(s, i);
    WrapNegated(value, Denotes(u[..Run(u)], 10));
    if !negative { value := S32(0 - value); }
  }

  lemma NothingDenoted()
    ensures S32(0 - Denotes([], 10)) == 0
  {
  }

  // ----- atoi undoes %d -----

  function Abs(x: int): nat { if x < 0 then 0 - x else x }

  /** White space, a sign and digits, up to something that is no digit, read as the number the
      digits denote. */
  lemma AtoiShape(p: nat, sign: Text, ds: Text, tail: Text)
    requires sign in {[], [SPACE], [PLUS_SIGN], [MINUS_SIGN]} && AllDigits(ds) && TailOk(ds, tail)
    ensures AtoiValue(Repeat(SPACE, p) + sign + ds + tail) == S32(if sign == [MINUS_SIGN] then 0 - Denotes(ds, 10) else Denotes(ds, 10))
  {
    hide AtoiValue;
    Regroup4(Repeat(SPACE, p), sign, ds, tail);
    if ds == [] && sign != [PLUS_SIGN] && sign != [MINUS_SIGN] {
      OnlySpaces(p, sign, tail);
    } else if sign == [SPACE] {
      Regroup3(Repeat(SPACE, p), sign, ds + tail);
      assert Repeat(SPACE, p) + sign == Repeat(SPACE, p) + sign + [];
      AtoiParts(Repeat(SPACE, p) + sign, [], ds, tail);
    } else {
      AtoiParts(Repeat(SPACE, p), sign, ds, tail);
    }
  }

  /** What may follow the digits: nothing, or something that does not begin with a digit; after
      no digits, only blanks. */
  predicate TailOk(ds: Text, tail: Text) {
    (tail != [] ==> !IsDigit(tail[0])) && (ds == [] ==> tail == Repeat(SPACE, |tail|))
  }

  lemma TailRun(ds: Text, tail: Text)
    requires AllDigits(ds) && (tail != [] ==> !IsDigit(tail[0]))
    ensures Run(ds + tail) == |ds| && (ds + tail)[..|ds|] == ds
  {
    RunFrom(ds + tail, |ds|);
  }

  lemma AtoiParts(pad: Text, sign: Text, ds: Text, tail: Text)
    requires (forall i | 0 <= i < |pad| :: IsSpace(pad[i])) && sign in {[], [PLUS_SIGN], [MINUS_SIGN]} && AllDigits(ds)
    requires (ds != [] || sign != []) && (tail != [] ==> !IsDigit(tail[0]))
    ensures AtoiValue(pad + sign + (ds + tail)) == S32(if sign == [MINUS_SIGN] then 0 - Denotes(ds, 10) else Denotes(ds, 10))
  {
    TailRun(ds, tail);
    Regroup3(pad, sign, ds + tail);
    SkipPad(pad, sign + (ds + tail));
    Unsigned(sign, ds + tail);
    hide Run, Spaces, Denotes, S32, Repeat, SignedValue;
  }

  lemma SkipPad(pad: Text, rest: Text)
    requires (forall i | 0 <= i < |pad| :: IsSpace(pad[i])) && rest != [] && !IsSpace(rest[0])
    ensures Spaces(pad + rest) == |pad| && (pad + rest)[|pad|..] == rest
  {
    SpacesFrom(pad + rest, |pad|);
  }

  lemma Unsigned(sign: Text, tail: Text)
    requires sign in {[], [PLUS_SIGN], [MINUS_SIGN]} && (sign == [] ==> tail != [] && IsDigit(tail[0]))
    ensures var d := Denotes(tail[..Run(tail)], 10); SignedValue(sign + tail) == S32(if sign == [MINUS_SIGN] then 0 - d else d)
  {
    hide Run, Denotes, S32;
    if sign == [] {
      assert sign + tail == tail;
      assert tail[0] != PLUS_SIGN && tail[0] != MINUS_SIGN;
    } else {
      assert (sign + tail)[1..] == tail && (sign + tail)[0] == sign[0];
    }
  }

  lemma Regroup4(a: Text, b: Text, c: Text, d: Text)
    ensures a + b + c + d == a + b + (c + d)
  {
  }

  lemma OnlySpaces(p: nat, sign: Text, tail: Text)
    requires sign in {[], [SPACE]} && tail == Repeat(SPACE, |tail|)
    ensures AtoiValue(Repeat(SPACE, p) + sign + ([] + tail)) == S32(Denotes([], 10))
  {
    var s := Repeat(SPACE, p) + sign + ([] + tail);
    SpacesFrom(s, |s|);
    assert s[|s|..] == [];
  }

  /** Whether a comma follows one of the digits of value when cnt lower digits follow it. */
  predicate HasComma(value: nat, cnt: nat)
    requires cnt <= 3
  {
    if cnt == 0 then value >= 1000 else if cnt == 1 then value >= 100 else if cnt == 2 then value >= 10 else value >= 1
  }

  /** A decimal numeral up to its first comma, and the rest. */
  lemma {:induction false} FirstGroup(value: nat, grouped: bool, cnt: nat) returns (ds: Text, rest: Text)
    ensures Digits(value, DECIMAL, grouped, cnt) == ds + rest && AllDigits(ds)
    ensures (rest != [] ==> rest[0] == COMMA && ds != []) && (ds == [] ==> value == 0)
    ensures if rest == [] then Denotes(ds, 10) == value else 0 <= Denotes(ds, 10) <= value
    ensures cnt == 0 && rest != [] ==> Denotes(ds, 10) < value
    decreases value
  {
    if value == 0 { return [], []; }
    var high, low := FirstGroup(value / 10, grouped, cnt + 1);
    var d, comma := DECIMAL.digits[value % 10], Comma(DECIMAL, grouped, cnt);
    DigitIs(DECIMAL, value % 10);
    hide Digits, BaseOk, Denotes;
    if low == [] {
      ds, rest := high + [d], comma;
      DenotesAppend(high, d, 10);
    } else {
      ds, rest := high, low + [d] + comma;
    }
  }

  lemma {:induction false} CommaIn(value: nat, grouped: bool, cnt: nat)
    ensures !grouped ==> COMMA !in Digits(value, DECIMAL, grouped, cnt)
    ensures grouped && cnt <= 3 ==> (COMMA in Digits(value, DECIMAL, grouped, cnt) <==> HasComma(value, cnt))
    decreases value
  {
    if value > 0 {
      CommaIn(value / 10, grouped, cnt + 1);
      DigitIs(DECIMAL, value % 10);
    }
  }

  /** The same for a whole decimal numeral, with its leading zeros. */
  lemma NumeralShape(value: nat, c: Conversion) returns (ds: Text, rest: Text)
    ensures Numeral(value, DECIMAL, c) == ds + rest && AllDigits(ds)
    ensures rest != [] ==> rest[0] == COMMA && ds != []
    ensures if rest == [] then Denotes(ds, 10) == value else 0 <= Denotes(ds, 10) < value
    ensures rest != [] <==> c.grouped && value >= 1000
  {
    var digits;
    digits, rest := FirstGroup(value, c.grouped, 0);
    CommaIn(value, c.grouped, 0);
    assert rest != [] <==> COMMA in digits + rest;
    ds := Repeat(DIGIT_0, Leading(value, DECIMAL, c)) + digits;
    LeadingZeros(Leading(value, DECIMAL, c), digits, 10);
    hide Digits, Denotes;
  }

  /** The text of a decimal conversion of x, whatever its options, up to the first comma. */
  lemma FormattedShape(x: int, c: Conversion) returns (p: nat, sign: Text, ds: Text, tail: Text)
    ensures Formatted(Abs(x), true, x < 0, DECIMAL, c) == Repeat(SPACE, p) + sign + ds + tail
    ensures sign in {[], [SPACE], [PLUS_SIGN], [MINUS_SIGN]} && (sign == [MINUS_SIGN] <==> x < 0)
    ensures AllDigits(ds) && TailOk(ds, tail)
    ensures if c.grouped && Abs(x) >= 1000 then 0 <= Denotes(ds, 10) < Abs(x) else Denotes(ds, 10) == Abs(x)
  {
    var lead, rest := NumeralShape(Abs(x), c);
    var content := Content(Abs(x), true, x < 0, DECIMAL, c);
    var pad := Max(0, c.width - |content|);
    LeadingZeros(pad, lead, 10);
    hide Numeral, Denotes, Repeat, Leading;
    sign := Sign(true, x < 0, c);
    p := if c.minus || c.zero then 0 else pad;
    ds := if c.zero then Repeat(DIGIT_0, pad) + lead else lead;
    tail := rest + Repeat(SPACE, if c.minus then pad else 0);
    ShapeOf(x, c, pad, p, sign, lead, rest);
    DigitsBoth(pad, lead);
    TailIs(ds, rest, if c.minus then pad else 0);
  }

  lemma DigitsBoth(pad: nat, t: Text)
    requires AllDigits(t)
    ensures AllDigits(Repeat(DIGIT_0, pad) + t)
  {
  }

  lemma TailIs(ds: Text, rest: Text, n: nat)
    requires rest != [] ==> rest[0] == COMMA && ds != []
    ensures TailOk(ds, rest + Repeat(SPACE, n))
  {
    if rest == [] { assert rest + Repeat(SPACE, n) == Repeat(SPACE, n); }
  }

  lemma ShapeOf(x: int, c: Conversion, pad: nat, p: nat, sign: Text, lead: Text, rest: Text)
    requires sign == Sign(true, x < 0, c) && Numeral(Abs(x), DECIMAL, c) == lead + rest
    requires pad == Max(0, c.width - |Content(Abs(x), true, x < 0, DECIMAL, c)|)
    requires p == if c.minus || c.zero then 0 else pad
    ensures Formatted(Abs(x), true, x < 0, DECIMAL, c)
            == Repeat(SPACE, p) + sign + (if c.zero then Repeat(DIGIT_0, pad) + lead else lead) + (rest + Repeat(SPACE, if c.minus then pad else 0))
  {
    RepeatNothing(SPACE, c.width - |Content(Abs(x), true, x < 0, DECIMAL, c)|);
    RepeatNothing(DIGIT_0, c.width - |Content(Abs(x), true, x < 0, DECIMAL, c)|);
    RepeatNothing(SPACE, 0);
    assert Prefix(Abs(x), DECIMAL, c) == [];
    hide Numeral, Repeat, Prefix, Sign;
    Regrouped(Repeat(SPACE, pad), sign, Repeat(DIGIT_0, pad), lead, rest);
  }

  lemma Regrouped(pad: Text, sign: Text, zeros: Text, lead: Text, rest: Text)
    ensures sign + [] + zeros + (lead + rest) + pad == [] + sign + (zeros + lead) + (rest + pad)
    ensures sign + [] + (lead + rest) + pad == [] + sign + lead + (rest + pad)
    ensures sign + [] + zeros + (lead + rest) == [] + sign + (zeros + lead) + (rest + [])
    ensures pad + (sign + [] + (lead + rest)) == pad + sign + lead + (rest + [])
  {
  }

  /** atoi reads back a 32-bit integer, whatever the width, precision and flags it was printed
      with, exactly if its digits were not grouped or it has a single group. */
  lemma AtoiReadsBack(x: s32, c: Conversion)
    ensures AtoiValue(Formatted(Abs(x), true, x < 0, DECIMAL, c)) == x <==> !c.grouped || -1000 < x < 1000
  {
    hide Formatted, Denotes, AtoiValue, Repeat, AllDigits, TailOk;
    var p, sign, ds, tail := FormattedShape(x, c);
    AtoiShape(p, sign, ds, tail);
  }

  /** 1000 with grouping is read as 1. */
  lemma GroupingIsLost()
    ensures Formatted(1000, true, false, DECIMAL, PLAIN.(grouped := true)) == [49, 44, 48, 48, 48]
    ensures AtoiValue([49, 44, 48, 48, 48]) == 1
  {
    var s: Text := [49, 44, 48, 48, 48];
    assert Digits(1, DECIMAL, true, 3) == [49, 44];
    assert Digits(10, DECIMAL, true, 2) == [49, 44, 48];
    assert Digits(100, DECIMAL, true, 1) == [49, 44, 48, 48];
    assert Digits(1000, DECIMAL, true, 0) == s;
    SpacesFrom(s, 0);
    RunFrom(s, 1);
    assert s[0..] == s && s[..1] == [49];
    assert Denotes([49], 10) == 1 by { DenotesAppend([], 49, 10); assert [] + [49] == [49 as byte]; }
  }

  // ----- output into a buffer -----

  /** struct vsnprintf_aux over a buffer of bufSize bytes. */
  class Output {
    const buffer: array<byte>
    var p: nat
    var length: nat
    const maxLength: nat

    /** What has been printed so far. */
    ghost var printed: Text

    ghost predicate Valid()
      reads this, buffer
    {
      && maxLength == (if buffer.Length > 0 then buffer.Length - 1 else 0)
      && length == |printed| && p == Min(length, maxLength) && buffer[..p] == printed[..p]
    }

    constructor (buf: array<byte>)
      ensures buffer == buf && Valid() && printed == []
    {
      buffer, p, length, printed := buf, 0, 0, [];
      maxLength := if buf.Length > 0 then buf.Length - 1 else 0;
    }

    /** vsnprintf_helper */
    method Helper(ch: byte)
      requires Valid()
      modifies this`p, this`length, this`printed, buffer
      ensures Valid() && printed == old(printed) + [ch]
    {
      if length < maxLength {
        buffer[p] := ch;
        p := p + 1;
      }
      length := length + 1;
      printed := printed + [ch];
    }
  }

  /** vsnprintf, when the conversions print text: the buffer holds as much of the text as fits,
      with a terminating null character unless it has no room at all, and the result is the
      length of the whole text. */
  method Vsnprintf(buffer: array<byte>, text: Text) returns (length: nat)
    modifies buffer
    ensures length == |text|
    ensures buffer.Length > 0 ==> var n := Min(|text|, buffer.Length - 1); buffer[..n] == text[..n] && buffer[n] == 0
  {
    var aux := new Output(buffer);
    for i := 0 to |text|
      invariant aux.Valid() && aux.printed == text[..i] && fresh(aux)
    {
      aux.Helper(text[i]);
      assert text[..i + 1] == text[..i] + [text[i]];
    }
    assert text[..|text|] == text;
    if buffer.Length > 0 {
      ghost var kept := buffer[..aux.p];
      buffer[aux.p] := 0;
      assert buffer[..aux.p] == kept;
    }
    length := aux.length;
  }
}

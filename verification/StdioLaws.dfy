/** What an integer conversion of printf prints, without reference to how it is put together. */
module StdioLaws {
  import opened Machine
  import opened Stdio

  predicate IsHexDigit(ch: byte) { 48 <= ch <= 57 || 97 <= ch <= 102 || 65 <= ch <= 70 }

  /** The digits in a text. */
  function OnlyDigits(t: Text): Text {
    if t == [] then [] else OnlyDigits(t[..|t| - 1]) + if IsHexDigit(t[|t| - 1]) then [t[|t| - 1]] else []
  }

  lemma {:induction false} OnlyDigitsAppend(a: Text, b: Text)
    ensures OnlyDigits(a + b) == OnlyDigits(a) + OnlyDigits(b)
    decreases |b|
  {
    if b == [] {
      assert a + b == a;
      assert OnlyDigits(a) + [] == OnlyDigits(a);
    } else {
      var n := |b| - 1;
      assert (a + b)[..|a + b| - 1] == a + b[..n];
      OnlyDigitsAppend(a, b[..n]);
    }
  }

  lemma {:induction false} RepeatedDigits(ch: byte, n: int)
    ensures OnlyDigits(Repeat(ch, n)) == if IsHexDigit(ch) then Repeat(ch, n) else []
    decreases if n < 0 then 0 else n
  {
    if n > 0 {
      RepeatedDigits(ch, n - 1);
      RepeatMore(ch, n - 1);
      OneDigit(ch);
      hide OnlyDigits, Repeat;
      OnlyDigitsAppend(Repeat(ch, n - 1), [ch]);
    }
  }

  lemma OneDigit(ch: byte)
    ensures OnlyDigits([ch]) == if IsHexDigit(ch) then [ch] else []
  {
    assert [ch][..0] == [];
  }

  /** The commas of a grouped numeral are no digits. */
  lemma {:induction false} NumeralOnly(value: nat, b: Base, grouped: bool, cnt: nat)
    requires BaseOk(b)
    ensures OnlyDigits(Digits(value, b, grouped, cnt)) == Digits(value, b, false, cnt)
    decreases value
  {
    if value > 0 {
      var high, d, comma := Digits(value / b.base, b, grouped, cnt + 1), b.digits[value % b.base], Comma(b, grouped, cnt);
      NumeralOnly(value / b.base, b, grouped, cnt + 1);
      LowestDigit(value, b, cnt);
      assert Digits(value, b, grouped, cnt) == high + [d] + comma;
      assert IsHexDigit(d);
      OneDigit(d);
      OneDigit(COMMA);
      hide Digits, BaseOk, OnlyDigits;
      OnlyDigitsAppend(high, [d]);
      OnlyDigitsAppend(high + [d], comma);
      assert OnlyDigits(comma) == [] by { NoCommaDigits(b, grouped, cnt); }
    }
  }

  lemma NoCommaDigits(b: Base, grouped: bool, cnt: nat)
    requires BaseOk(b)
    ensures OnlyDigits(Comma(b, grouped, cnt)) == []
  {
    OneDigit(COMMA);
  }

  /** The extra zero of %#o: the numeral would not begin with one. */
  predicate NeedsZero(value: nat, b: Base, c: Conversion)
    requires BaseOk(b)
  {
    var t := Repeat(DIGIT_0, Leading(value, b, c)) + Digits(value, b, c.grouped, 0);
    c.pound && b.base == 8 && (t == [] || t[0] != DIGIT_0)
  }

  lemma NumeralIs(value: nat, b: Base, c: Conversion)
    requires BaseOk(b)
    ensures OnlyDigits(Numeral(value, b, c))
            == Repeat(DIGIT_0, Leading(value, b, c) + if NeedsZero(value, b, c) then 1 else 0) + Digits(value, b, false, 0)
  {
    NumeralForm(value, b, c);
    hide Numeral, Digits, BaseOk, OnlyDigits, Leading, NeedsZero, Repeat;
    NumeralOnly(value, b, c.grouped, 0);
    ZerosThen(Leading(value, b, c), Digits(value, b, c.grouped, 0), if NeedsZero(value, b, c) then 1 else 0);
  }

  lemma NumeralForm(value: nat, b: Base, c: Conversion)
    requires BaseOk(b)
    ensures var t := Repeat(DIGIT_0, Leading(value, b, c)) + Digits(value, b, c.grouped, 0);
            Numeral(value, b, c) == if NeedsZero(value, b, c) then [DIGIT_0] + t else t
  {
    hide Digits, BaseOk, Leading, Repeat;
  }

  lemma ZerosThen(n: nat, ds: Text, k: nat)
    requires k <= 1
    ensures OnlyDigits(if k == 1 then [DIGIT_0] + (Repeat(DIGIT_0, n) + ds) else Repeat(DIGIT_0, n) + ds) == Repeat(DIGIT_0, n + k) + OnlyDigits(ds)
  {
    hide OnlyDigits;
    RepeatedDigits(DIGIT_0, n);
    OnlyDigitsAppend(Repeat(DIGIT_0, n), ds);
    OneDigit(DIGIT_0);
    OnlyDigitsAppend([DIGIT_0], Repeat(DIGIT_0, n) + ds);
    ThreeZeros(k, n, 0, OnlyDigits(ds));
  }

  /** How many zeros stand in front of the first other digit. */
  function ZerosIn(value: nat, isSigned: bool, negative: bool, b: Base, c: Conversion): nat
    requires BaseOk(b)
  {
    (if Prefix(value, b, c) != [] then 1 else 0) + (if c.zero then Max(0, c.width - |Content(value, isSigned, negative, b, c)|) else 0)
    + Leading(value, b, c) + (if NeedsZero(value, b, c) then 1 else 0)
  }

  lemma SignOnly(isSigned: bool, negative: bool, c: Conversion)
    ensures OnlyDigits(Sign(isSigned, negative, c)) == []
  {
    OneDigit(MINUS_SIGN);
    OneDigit(PLUS_SIGN);
    OneDigit(SPACE);
  }

  lemma PrefixOnly(value: nat, b: Base, c: Conversion)
    requires BaseOk(b)
    ensures OnlyDigits(Prefix(value, b, c)) == Repeat(DIGIT_0, if Prefix(value, b, c) != [] then 1 else 0)
  {
    var t := Prefix(value, b, c);
    if t != [] {
      assert b.x == 120 || b.x == 88;
      assert t == [DIGIT_0] + [b.x];
      OneDigit(DIGIT_0);
      OneDigit(b.x);
      OnlyDigitsAppend([DIGIT_0], [b.x]);
    }
  }

  /** The output consists of blanks, the sign, the prefix, zeros, the numeral and blanks. */
  lemma Parts(value: nat, isSigned: bool, negative: bool, b: Base, c: Conversion)
    requires BaseOk(b)
    ensures var pad := Max(0, c.width - |Content(value, isSigned, negative, b, c)|);
            Formatted(value, isSigned, negative, b, c)
            == Repeat(SPACE, if c.minus || c.zero then 0 else pad) + Sign(isSigned, negative, c) + Prefix(value, b, c)
               + Repeat(DIGIT_0, if c.zero then pad else 0) + Numeral(value, b, c) + Repeat(SPACE, if c.minus then pad else 0)
  {
    var pad := c.width - |Content(value, isSigned, negative, b, c)|;
    var n := Max(0, pad);
    RepeatNothing(SPACE, pad);
    RepeatNothing(DIGIT_0, pad);
    hide Numeral, Sign, Prefix, Repeat, BaseOk;
    Joins(Repeat(SPACE, n), Sign(isSigned, negative, c), Prefix(value, b, c), Repeat(DIGIT_0, n), Numeral(value, b, c));
    hide Content;
  }

  lemma Joins(spaces: Text, sign: Text, prefix: Text, zeros: Text, numeral: Text)
    ensures [] + sign + prefix + zeros + numeral + spaces == sign + prefix + zeros + numeral + spaces
    ensures [] + sign + prefix + [] + numeral + spaces == (sign + prefix + numeral) + spaces
    ensures [] + sign + prefix + zeros + numeral + [] == sign + prefix + zeros + numeral
    ensures spaces + sign + prefix + [] + numeral + [] == spaces + (sign + prefix + numeral)
  {
  }

  /** The digits of the output are zeros and then the digits of the value. */
  lemma DigitsOf(value: nat, isSigned: bool, negative: bool, b: Base, c: Conversion)
    requires BaseOk(b)
    ensures OnlyDigits(Formatted(value, isSigned, negative, b, c))
            == Repeat(DIGIT_0, ZerosIn(value, isSigned, negative, b, c)) + Digits(value, b, false, 0)
  {
    hide Formatted, Content, Sign, Prefix, Numeral, BaseOk, OnlyDigits, Repeat, Leading, NeedsZero, Digits;
    var pad := Max(0, c.width - |Content(value, isSigned, negative, b, c)|);
    Parts(value, isSigned, negative, b, c);
    SignOnly(isSigned, negative, c);
    PrefixOnly(value, b, c);
    NumeralIs(value, b, c);
    Together(if c.minus || c.zero then 0 else pad, Sign(isSigned, negative, c), Prefix(value, b, c), if c.zero then pad else 0, Numeral(value, b, c),
             if c.minus then pad else 0, if Prefix(value, b, c) != [] then 1 else 0,
             Leading(value, b, c) + if NeedsZero(value, b, c) then 1 else 0, Digits(value, b, false, 0));
  }

  lemma Together(l: nat, sign: Text, prefix: Text, z: nat, numeral: Text, r: nat, k: nat, m: nat, ds: Text)
    requires OnlyDigits(sign) == [] && OnlyDigits(prefix) == Repeat(DIGIT_0, k) && OnlyDigits(numeral) == Repeat(DIGIT_0, m) + ds
    ensures OnlyDigits(Repeat(SPACE, l) + sign + prefix + Repeat(DIGIT_0, z) + numeral + Repeat(SPACE, r)) == Repeat(DIGIT_0, k + z + m) + ds
  {
    hide OnlyDigits, Repeat;
    SixParts(Repeat(SPACE, l), sign, prefix, Repeat(DIGIT_0, z), numeral, Repeat(SPACE, r));
    RepeatedDigits(SPACE, l);
    RepeatedDigits(SPACE, r);
    RepeatedDigits(DIGIT_0, z);
    ThreeZeros(k, z, m, ds);
  }

  lemma SixParts(a: Text, b: Text, c: Text, d: Text, e: Text, f: Text)
    ensures OnlyDigits(a + b + c + d + e + f) == OnlyDigits(a) + OnlyDigits(b) + OnlyDigits(c) + OnlyDigits(d) + OnlyDigits(e) + OnlyDigits(f)
  {
    hide OnlyDigits;
    OnlyDigitsAppend(a, b);
    OnlyDigitsAppend(a + b, c);
    OnlyDigitsAppend(a + b + c, d);
    OnlyDigitsAppend(a + b + c + d, e);
    OnlyDigitsAppend(a + b + c + d + e, f);
  }

  lemma ThreeZeros(k: nat, z: nat, m: nat, t: Text)
    ensures [] + [] + Repeat(DIGIT_0, k) + Repeat(DIGIT_0, z) + (Repeat(DIGIT_0, m) + t) + [] == Repeat(DIGIT_0, k + z + m) + t
  {
  }

  // ----- the value -----

  /** Whatever the flags, width and precision, in every base the digits of the output denote the value. */
  lemma ValueIsPrinted(value: nat, isSigned: bool, negative: bool, b: Base, c: Conversion)
    requires BaseOk(b)
    ensures Denotes(OnlyDigits(Formatted(value, isSigned, negative, b, c)), b.base) == value
  {
    hide Formatted, ZerosIn, Digits, OnlyDigits, Denotes, BaseOk;
    DigitsOf(value, isSigned, negative, b, c);
    LeadingZeros(ZerosIn(value, isSigned, negative, b, c), Digits(value, b, false, 0), b.base);
    DigitsDenote(value, b, 0);
  }

  /** The least number of digits with which the value can be written in the base. */
  ghost predicate Least(value: nat, base: nat, k: nat) {
    value < Power(base, k) && forall j: nat | j < k :: Power(base, j) <= value
  }

  lemma {:induction false} PowersGrow(base: nat, j: nat, k: nat)
    requires base >= 1 && j <= k
    ensures 1 <= Power(base, j) <= Power(base, k)
    decreases k
  {
    if k > 0 {
      if j == k { PowersGrow(base, j - 1, k - 1); } else { PowersGrow(base, j, k - 1); }
      assert base * Power(base, k - 1) >= Power(base, k - 1);
    }
  }

  lemma LeastDivides(value: nat, b: Base, k: nat)
    requires BaseOk(b) && Least(value, b.base, k) && value > 0
    ensures k > 0 && Least(value / b.base, b.base, k - 1)
  {
    assert Power(b.base, 0) == 1;
    assert value < b.base * Power(b.base, k - 1);
    Quotient(value, b, Power(b.base, k - 1));
    forall j: nat | j < k - 1 ensures Power(b.base, j) <= value / b.base {
      assert Power(b.base, j + 1) <= value;
      Quotient(value, b, Power(b.base, j));
    }
  }

  lemma Quotient(value: nat, b: Base, p: nat)
    requires BaseOk(b)
    ensures value < b.base * p ==> value / b.base < p
    ensures b.base * p <= value ==> p <= value / b.base
  {
    if b.base == 8 { assert value < 8 * p ==> value / 8 < p; assert 8 * p <= value ==> p <= value / 8; }
    else if b.base == 10 { assert value < 10 * p ==> value / 10 < p; assert 10 * p <= value ==> p <= value / 10; }
    else { assert value < 16 * p ==> value / 16 < p; assert 16 * p <= value ==> p <= value / 16; }
  }

  lemma {:induction false} DigitTotal(value: nat, b: Base, cnt: nat, k: nat)
    requires BaseOk(b) && Least(value, b.base, k)
    ensures |Digits(value, b, false, cnt)| == k
    ensures k > 0 ==> Digits(value, b, false, cnt)[0] != DIGIT_0
    decreases value
  {
    assert Power(b.base, 0) == 1;
    if value > 0 {
      LeastDivides(value, b, k);
      DigitTotal(value / b.base, b, cnt + 1, k - 1);
      LowestDigit(value, b, cnt);
      if k == 1 { TopDigit(value, b); }
    }
  }

  lemma TopDigit(value: nat, b: Base)
    requires BaseOk(b) && value > 0 && Least(value / b.base, b.base, 0)
    ensures b.digits[value % b.base] != DIGIT_0
  {
    assert Power(b.base, 0) == 1;
    Split(value, b);
    hide Power;
    DigitIs(b, value % b.base);
  }

  /** How many characters the digits take: with grouping, one more for each full group in front of
      the highest digit. */
  function WithCommas(b: Base, grouped: bool, k: nat): nat
    requires BaseOk(b)
  {
    if grouped && k > 0 then k + (k - 1) / b.group else k
  }

  lemma {:induction false} GroupedLength(value: nat, b: Base, cnt: nat, k: nat)
    requires BaseOk(b) && Least(value, b.base, k)
    ensures |Digits(value, b, true, cnt)|
            == k + (if k == 0 then 0 else (cnt + k - 1) / b.group - (if cnt == 0 then 0 else (cnt - 1) / b.group))
    decreases value
  {
    assert Power(b.base, 0) == 1;
    if value > 0 {
      LeastDivides(value, b, k);
      GroupedLength(value / b.base, b, cnt + 1, k - 1);
      hide Least, Power;
      assert |Digits(value, b, true, cnt)| == |Digits(value / b.base, b, true, cnt + 1)| + 1 + |Comma(b, true, cnt)|;
      if b.group == 3 { assert cnt > 0 ==> cnt / 3 == (cnt - 1) / 3 + if cnt % 3 == 0 then 1 else 0; }
      else { assert cnt > 0 ==> cnt / 4 == (cnt - 1) / 4 + if cnt % 4 == 0 then 1 else 0; }
    }
  }

  lemma TextLength(value: nat, b: Base, grouped: bool, k: nat)
    requires BaseOk(b) && Least(value, b.base, k)
    ensures |Digits(value, b, grouped, 0)| == WithCommas(b, grouped, k)
  {
    hide Least, Digits;
    if grouped { GroupedLength(value, b, 0, k); } else { DigitTotal(value, b, 0, k); }
  }

  // ----- how many digits -----

  /** The precision that counts: 1 if none is given, and at most 63. */
  function Rendered(r: Request): nat { if r.precision < 0 then 1 else Min(r.precision, 63) }

  /** No zeros are asked for to fill the field. */
  predicate NoZeroFill(r: Request) { !r.zero || r.minus || r.precision >= 0 }

  /** The number of digits, unless zeros fill the field: those the value needs, as many more as the
      precision asks for, one for a 0x prefix, and one for %#o when there is no zero in front yet. */
  lemma DigitCount(value: nat, isSigned: bool, negative: bool, b: Base, r: Request, k: nat)
    requires BaseOk(b) && NoZeroFill(r) && Least(value, b.base, k)
    ensures |OnlyDigits(Formatted(value, isSigned, negative, b, Resolved(r)))|
            == k + Max(0, Rendered(r) - WithCommas(b, r.grouped, k))
               + (if r.pound && b.base == 16 && value > 0 then 1 else 0)
               + (if r.pound && b.base == 8 && Rendered(r) <= WithCommas(b, r.grouped, k) then 1 else 0)
  {
    var c := Resolved(r);
    hide Formatted, ZerosIn, Digits, OnlyDigits, Least, BaseOk;
    DigitsOf(value, isSigned, negative, b, c);
    DigitTotal(value, b, 0, k);
    ZerosAre(value, isSigned, negative, b, r, k);
  }

  lemma ZerosAre(value: nat, isSigned: bool, negative: bool, b: Base, r: Request, k: nat)
    requires BaseOk(b) && NoZeroFill(r) && Least(value, b.base, k)
    ensures ZerosIn(value, isSigned, negative, b, Resolved(r))
            == Max(0, Rendered(r) - WithCommas(b, r.grouped, k)) + (if r.pound && b.base == 16 && value > 0 then 1 else 0)
               + (if r.pound && b.base == 8 && Rendered(r) <= WithCommas(b, r.grouped, k) then 1 else 0)
  {
    var c := Resolved(r);
    TextLength(value, b, r.grouped, k);
    FirstIsNotZero(value, b, r.grouped, k);
    hide Content, Least, Digits;
    ZeroNeeded(value, b, c, k, Rendered(r));
    assert !c.zero;
  }

  lemma ZeroNeeded(value: nat, b: Base, c: Conversion, k: nat, p: nat)
    requires BaseOk(b) && p == Min(if c.precision < 0 then 1 else c.precision, 63) && |Digits(value, b, c.grouped, 0)| == WithCommas(b, c.grouped, k)
    requires k > 0 ==> Digits(value, b, c.grouped, 0) != [] && Digits(value, b, c.grouped, 0)[0] != DIGIT_0
    ensures Leading(value, b, c) == Max(0, p - WithCommas(b, c.grouped, k))
    ensures NeedsZero(value, b, c) <==> c.pound && b.base == 8 && p <= WithCommas(b, c.grouped, k)
  {
    hide Digits;
    var n := Leading(value, b, c);
    var t := Repeat(DIGIT_0, n) + Digits(value, b, c.grouped, 0);
    if n > 0 { assert t[0] == DIGIT_0; } else { assert t == Digits(value, b, c.grouped, 0); }
  }

  lemma {:induction false} FirstIsNotZero(value: nat, b: Base, grouped: bool, k: nat)
    requires BaseOk(b) && Least(value, b.base, k)
    ensures k > 0 ==> Digits(value, b, grouped, 0) != [] && Digits(value, b, grouped, 0)[0] != DIGIT_0
  {
    if k > 0 { FirstDigitIs(value, b, grouped, 0, k); }
  }

  lemma {:induction false} FirstDigitIs(value: nat, b: Base, grouped: bool, cnt: nat, k: nat)
    requires BaseOk(b) && Least(value, b.base, k) && k > 0
    ensures Digits(value, b, grouped, cnt) != [] && Digits(value, b, grouped, cnt)[0] != DIGIT_0
    decreases value
  {
    assert Power(b.base, 0) == 1;
    LeastDivides(value, b, k);
    if k == 1 { TopDigit(value, b); OneOnly(value / b.base, b); } else { FirstDigitIs(value / b.base, b, grouped, cnt + 1, k - 1); }
  }

  lemma OneOnly(value: nat, b: Base)
    requires BaseOk(b) && Least(value, b.base, 0)
    ensures value == 0
  {
    assert Power(b.base, 0) == 1;
  }

  /** Nothing is printed but sign and blanks exactly for a value of 0 with a precision of 0, and not even
      then with %#o. */
  lemma PrintsNothing(value: nat, isSigned: bool, negative: bool, b: Base, r: Request)
    requires BaseOk(b)
    ensures OnlyDigits(Formatted(value, isSigned, negative, b, Resolved(r))) == []
            <==> value == 0 && r.precision == 0 && !(r.pound && b.base == 8)
  {
    var c := Resolved(r);
    hide Formatted, OnlyDigits, BaseOk, Content;
    DigitsOf(value, isSigned, negative, b, c);
    if value > 0 {
      SomeDigit(value, b);
    } else {
      assert Digits(0, b, false, 0) == [] && Digits(0, b, c.grouped, 0) == [];
      ZeroPrints(b, c);
    }
  }

  lemma SomeDigit(value: nat, b: Base)
    requires BaseOk(b) && value > 0
    ensures Digits(value, b, false, 0) != []
  {
    LowestDigit(value, b, 0);
  }

  lemma ZeroPrints(b: Base, c: Conversion)
    requires BaseOk(b) && Digits(0, b, c.grouped, 0) == []
    ensures Leading(0, b, c) == Min(if c.precision < 0 then 1 else c.precision, 63) || c.precision > 63
    ensures Leading(0, b, c) > 0 <==> c.precision != 0
    ensures c.precision == 0 ==> (NeedsZero(0, b, c) <==> c.pound && b.base == 8)
  {
  }

  /** Without precision, zero fill and prefix, 0 has one digit, and no other value a leading zero. */
  lemma NoLeadingZero(value: nat, isSigned: bool, negative: bool, b: Base, r: Request)
    requires BaseOk(b) && r.precision < 0 && NoZeroFill(r) && (r.pound ==> b == DECIMAL)
    ensures var ds := OnlyDigits(Formatted(value, isSigned, negative, b, Resolved(r)));
            if value == 0 then ds == [DIGIT_0] else ds != [] && ds[0] != DIGIT_0
  {
    var c, k := Resolved(r), LeastOf(value, b);
    DigitsOf(value, isSigned, negative, b, c);
    DigitTotal(value, b, 0, k);
    ZerosAre(value, isSigned, negative, b, r, k);
    assert Power(b.base, 0) == 1;
    hide Formatted, ZerosIn, Digits, OnlyDigits, Content;
    assert Repeat(DIGIT_0, 0) + Digits(value, b, false, 0) == Digits(value, b, false, 0);
    if k == 0 { assert Repeat(DIGIT_0, 1) + [] == [DIGIT_0]; }
  }

  /** The least number of digits exists. */
  ghost function LeastOf(value: nat, b: Base): (k: nat)
    requires BaseOk(b)
    ensures Least(value, b.base, k)
    decreases value
  {
    if value == 0 then assert Power(b.base, 0) == 1; 0 else
      var k := LeastOf(value / b.base, b) + 1;
      LeastGrows(value, b, k - 1);
      k
  }

  lemma LeastGrows(value: nat, b: Base, k: nat)
    requires BaseOk(b) && value > 0 && Least(value / b.base, b.base, k)
    ensures Least(value, b.base, k + 1)
  {
    Quotient(value, b, Power(b.base, k));
    forall j: nat | j < k + 1 ensures Power(b.base, j) <= value {
      if j > 0 { Quotient(value, b, Power(b.base, j - 1)); }
    }
  }

  // ----- commas, sign, prefix and blanks -----

  /** The output in order: blanks, the sign, the prefix, zeros, the digits with their commas, and blanks
      again, which stand on the right exactly with '-' or a negative width. */
  lemma LaidOut(value: nat, isSigned: bool, negative: bool, b: Base, r: Request)
    requires BaseOk(b)
    ensures var sign := if !isSigned then [] else if negative then [45] else if r.plus then [43] else if r.space then [32] else [];
            var prefix := if r.pound && value > 0 && b.base == 16 then [48, if b == HEX then 120 else 88] else [];
            exists left: nat, zeros: nat, right: nat ::
              && Formatted(value, isSigned, negative, b, Resolved(r))
                 == Laid(left, sign, prefix, zeros, Digits(value, b, r.grouped, 0), right)
              && (left > 0 ==> !r.minus && r.width >= 0) && (right > 0 ==> r.minus || r.width < 0)
              && (NoZeroFill(r) ==> left + right == Max(0, Abs(r.width) - |sign| - |prefix| - zeros - |Digits(value, b, r.grouped, 0)|))
  {
    hide Formatted, Content, Numeral, Digits, Leading, NeedsZero, Sign, Prefix, Repeat, BaseOk, Laid;
    var c := Resolved(r);
    var pad := Max(0, c.width - |Content(value, isSigned, negative, b, c)|);
    Parts(value, isSigned, negative, b, c);
    NumeralForm(value, b, c);
    SignIs(isSigned, negative, r);
    PrefixIs(value, b, r);
    var left, z, right := if c.minus || c.zero then 0 else pad, if c.zero then pad else 0, if c.minus then pad else 0;
    ContentIs(value, isSigned, negative, b, c);
    LaidIs(left, Sign(isSigned, negative, c), Prefix(value, b, c), z, Leading(value, b, c), if NeedsZero(value, b, c) then 1 else 0,
           Digits(value, b, c.grouped, 0), right);
  }

  lemma ContentIs(value: nat, isSigned: bool, negative: bool, b: Base, c: Conversion)
    requires BaseOk(b)
    ensures |Content(value, isSigned, negative, b, c)|
            == |Sign(isSigned, negative, c)| + |Prefix(value, b, c)| + Leading(value, b, c) + (if NeedsZero(value, b, c) then 1 else 0) + |Digits(value, b, c.grouped, 0)|
  {
    hide Digits, BaseOk, Leading, NeedsZero, Sign, Prefix, Numeral;
    NumeralForm(value, b, c);
  }

  lemma LaidIs(left: nat, sign: Text, prefix: Text, z: nat, n: nat, k: nat, ds: Text, right: nat)
    requires k <= 1
    ensures Repeat(SPACE, left) + sign + prefix + Repeat(DIGIT_0, z)
            + (if k == 1 then [DIGIT_0] + (Repeat(DIGIT_0, n) + ds) else Repeat(DIGIT_0, n) + ds) + Repeat(SPACE, right)
            == Laid(left, sign, prefix, z + (n + k), ds, right)
  {
    hide Repeat;
    MidZeros(Repeat(SPACE, left) + sign + prefix, z, n, k, ds, Repeat(SPACE, right));
  }

  function Laid(left: nat, sign: Text, prefix: Text, zeros: nat, numeral: Text, right: nat): Text {
    Repeat(SPACE, left) + sign + prefix + Repeat(DIGIT_0, zeros) + numeral + Repeat(SPACE, right)
  }

  lemma MidZeros(a: Text, z: nat, n: nat, k: nat, ds: Text, tail: Text)
    requires k <= 1
    ensures a + Repeat(DIGIT_0, z) + (if k == 1 then [DIGIT_0] + (Repeat(DIGIT_0, n) + ds) else Repeat(DIGIT_0, n) + ds) + tail
            == a + Repeat(DIGIT_0, z + (n + k)) + ds + tail
  {
    var zeros := Repeat(DIGIT_0, z + (n + k));
    assert zeros == Repeat(DIGIT_0, z) + Repeat(DIGIT_0, k) + Repeat(DIGIT_0, n);
    assert Repeat(DIGIT_0, 1) == [DIGIT_0];
  }

  lemma SignIs(isSigned: bool, negative: bool, r: Request)
    ensures Sign(isSigned, negative, Resolved(r))
            == if !isSigned then [] else if negative then [45] else if r.plus then [43] else if r.space then [32] else []
  {
  }

  lemma PrefixIs(value: nat, b: Base, r: Request)
    requires BaseOk(b)
    ensures Prefix(value, b, Resolved(r)) == if r.pound && value > 0 && b.base == 16 then [48, if b == HEX then 120 else 88] else []
  {
  }

  /** A comma in a grouped numeral stands behind a digit, and in front of a positive multiple of the group
      size of digits. */
  lemma CommasArePlaced(value: nat, b: Base, i: nat)
    requires BaseOk(b) && i < |Digits(value, b, true, 0)| && Digits(value, b, true, 0)[i] == COMMA
    ensures var n := |OnlyDigits(Digits(value, b, true, 0)[i + 1..])|; n > 0 && n % (if b.base == 16 then 4 else 3) == 0
    ensures i > 0 && IsHexDigit(Digits(value, b, true, 0)[i - 1])
  {
    CommaPlace(value, b, 0, i);
  }

  lemma {:induction false} CommaPlace(value: nat, b: Base, cnt: nat, i: nat)
    requires BaseOk(b) && i < |Digits(value, b, true, cnt)| && Digits(value, b, true, cnt)[i] == COMMA
    ensures var n := |OnlyDigits(Digits(value, b, true, cnt)[i + 1..])| + cnt; n > 0 && n % b.group == 0
    ensures i > 0 && IsHexDigit(Digits(value, b, true, cnt)[i - 1])
    decreases value
  {
    hide Digits, BaseOk, OnlyDigits, Comma;
    NotZero(b, cnt, value);
    GroupedForm(value, b, cnt);
    var high := Digits(value / b.base, b, true, cnt + 1);
    if i < |high| { CommaPlace(value / b.base, b, cnt + 1, i); }
    CommaStep(high, b.digits[value % b.base], Comma(b, true, cnt), cnt, b.group, i);
  }

  lemma NotZero(b: Base, cnt: nat, value: nat)
    requires BaseOk(b) && Digits(value, b, true, cnt) != []
    ensures value > 0 && b.base > 0 && |b.digits| == b.base && value / b.base < value
  {
    Quotient(value, b, value);
    assert b.base in {8, 10, 16};
  }

  lemma GroupedForm(value: nat, b: Base, cnt: nat)
    requires BaseOk(b) && value > 0
    ensures Digits(value, b, true, cnt) == Digits(value / b.base, b, true, cnt + 1) + [b.digits[value % b.base]] + Comma(b, true, cnt)
    ensures IsHexDigit(b.digits[value % b.base]) && OnlyDigits(Comma(b, true, cnt)) == [] && b.group > 0
    ensures Comma(b, true, cnt) == if cnt > 0 && cnt % b.group == 0 then [COMMA] else []
  {
    NoCommaDigits(b, true, cnt);
    hide OnlyDigits;
  }

  lemma CommaStep(high: Text, d: byte, comma: Text, cnt: nat, g: nat, i: nat)
    requires g > 0 && IsHexDigit(d) && OnlyDigits(comma) == [] && comma == (if cnt > 0 && cnt % g == 0 then [COMMA] else [])
    requires i < |high + [d] + comma| && (high + [d] + comma)[i] == COMMA
    requires i < |high| ==> var n := |OnlyDigits(high[i + 1..])| + (cnt + 1); n > 0 && n % g == 0 && i > 0 && IsHexDigit(high[i - 1])
    ensures var t := high + [d] + comma; var n := |OnlyDigits(t[i + 1..])| + cnt; n > 0 && n % g == 0 && i > 0 && IsHexDigit(t[i - 1])
  {
    hide OnlyDigits;
    if i < |high| { Behind(high, d, comma, i); } else { NothingBehind(high + [d] + comma, i); }
  }

  lemma NothingBehind(t: Text, i: nat)
    requires i == |t| - 1
    ensures OnlyDigits(t[i + 1..]) == []
  {
  }

  lemma Behind(high: Text, d: byte, comma: Text, i: nat)
    requires i < |high| && IsHexDigit(d) && OnlyDigits(comma) == []
    ensures var t := high + [d] + comma;
            |OnlyDigits(t[i + 1..])| == |OnlyDigits(high[i + 1..])| + 1 && t[i] == high[i] && (i > 0 ==> t[i - 1] == high[i - 1])
  {
    var t := high + [d] + comma;
    assert t[i + 1..] == high[i + 1..] + [d] + comma;
    OneDigit(d);
    hide OnlyDigits;
    OnlyDigitsAppend(high[i + 1..], [d]);
    OnlyDigitsAppend(high[i + 1..] + [d], comma);
  }

  /** Hexadecimal letters are small with %x and capital with %X; the other bases have none. */
  lemma {:induction false} DigitCase(value: nat, b: Base, grouped: bool, cnt: nat, i: nat)
    requires BaseOk(b) && i < |Digits(value, b, grouped, cnt)|
    ensures var ch := Digits(value, b, grouped, cnt)[i];
            || ch == COMMA || (48 <= ch <= 57 && ch < 48 + b.base)
            || (b == HEX && 97 <= ch <= 102) || (b == HEX_UPPER && 65 <= ch <= 70)
    decreases value
  {
    var high := if value == 0 then [] else Digits(value / b.base, b, grouped, cnt + 1);
    if i < |high| { DigitCase(value / b.base, b, grouped, cnt + 1, i); }
  }
}

/** Sizes on the wire: decimal and base-62 numerals, and the headers that carry them. */
module Sizes {
  import opened Basics
  import opened WsBytes
  import WsParser

  const INT32_LIMIT := 0x8000_0000

  function EncodeSize62(n10: int): int {
    if 0 <= n10 < 10 then 48 + n10
    else if 10 <= n10 < 36 then 65 + (n10 - 10)
    else if 36 <= n10 < 62 then 97 + (n10 - 36)
    else 0
  }

  function DecodeSize62(nxx: int): (n: nat)
    ensures n < 62
  {
    if 48 <= nxx < 58 then nxx - 48
    else if 65 <= nxx < 91 then (nxx - 65) + 10
    else if 97 <= nxx < 123 then (nxx - 97) + 36
    else 0
  }

  lemma DigitRoundTrip(n: int)
    requires 0 <= n < 62
    ensures DecodeSize62(EncodeSize62(n)) == n && 48 <= EncodeSize62(n) < 123
    ensures n < 10 ==> 48 <= EncodeSize62(n) < 58
  {
  }

  /** The digits are '0' to '9', then 'A' to 'Z', then 'a' to 'z'. */
  lemma DigitsInOrder(c: char)
    ensures '0' <= c <= '9' ==>
              var n := c as int - '0' as int; EncodeSize62(n) == c as int && DecodeSize62(c as int) == n
    ensures 'A' <= c <= 'Z' ==>
              var n := 10 + (c as int - 'A' as int); EncodeSize62(n) == c as int && DecodeSize62(c as int) == n
    ensures 'a' <= c <= 'z' ==>
              var n := 36 + (c as int - 'a' as int); EncodeSize62(n) == c as int && DecodeSize62(c as int) == n
  {
  }

  /** A greater digit has a greater code. */
  lemma DigitsIncrease(m: nat, n: nat)
    requires m < n < 62
    ensures EncodeSize62(m) < EncodeSize62(n)
  {
  }

  /** base to the power n. */
  function Power(base: nat, n: nat): nat {
    if n == 0 then 1 else base * Power(base, n - 1)
  }

  type Base = b: int | 2 <= b <= 62 witness 10

  lemma DivMod(n: nat, base: Base)
    ensures n == base * (n / base) + n % base && 0 <= n % base < base
    ensures n >= base ==> 0 < n / base < n
  {
    var q, r := n / base, n % base;
    assert n == base * q + r;
    if q > 0 {
      assert base * q >= 2 * q by { assert (base - 2) * q >= 0; }
    }
  }

  /** The numeral of n, most significant digit first; zero has one digit. */
  function Numeral(n: nat, base: Base): (digits: seq<byte>)
    ensures |digits| > 0
    decreases n
  {
    DivMod(n, base);
    if n < base then [EncodeSize62(n)] else Numeral(n / base, base) + [EncodeSize62(n % base)]
  }

  /** The number that a string of digits denotes. */
  function Number(digits: seq<byte>, base: Base): nat {
    if digits == [] then 0
    else Number(digits[..|digits| - 1], base) * base + DecodeSize62(digits[|digits| - 1])
  }

  /** Decoding undoes encoding. */
  lemma {:induction false} NumeralRoundTrip(n: nat, base: Base)
    ensures Number(Numeral(n, base), base) == n
    decreases n
  {
    hide EncodeSize62, DecodeSize62;
    var digits := Numeral(n, base);
    DivMod(n, base);
    DigitRoundTrip(n % base);
    if n < base {
      assert digits[..0] == [];
      SmallModulo(n, base);
    } else {
      NumeralRoundTrip(n / base, base);
      assert digits[..|digits| - 1] == Numeral(n / base, base);
    }
  }

  /** A numeral has at most k digits exactly when the number is below the k-th power of the base. */
  lemma {:induction false} NumeralLength(n: nat, base: Base, k: nat)
    requires k > 0
    ensures |Numeral(n, base)| <= k <==> n < Power(base, k)
    decreases k
  {
    if k == 1 {
      assert Power(base, 1) == base * Power(base, 0) == base;
    } else if n < base {
      PowerGrows(base, 1, k);
      assert Power(base, 1) == base * Power(base, 0) == base;
    } else {
      NumeralLength(n / base, base, k - 1);
      DivideBelow(n, base, Power(base, k - 1));
    }
  }

  lemma SmallModulo(n: nat, base: Base)
    requires n < base
    ensures n % base == n
  {
  }

  lemma DivideBelow(n: nat, base: Base, p: nat)
    ensures n / base < p <==> n < base * p
  {
    var q, r := n / base, n % base;
    assert n == base * q + r;
    if q < p {
      assert base * (q + 1) <= base * p;
    } else {
      assert base * p <= base * q;
    }
  }

  lemma {:induction false} PowerGrows(base: Base, m: nat, n: nat)
    requires m <= n
    ensures 0 < Power(base, m) <= Power(base, n)
    decreases n
  {
    if m < n {
      PowerGrows(base, m, n - 1);
      TimesAtLeast(base, Power(base, n - 1));
    } else if n > 0 {
      PowerGrows(base, n - 1, n - 1);
      TimesAtLeast(base, Power(base, n - 1));
    }
  }

  lemma TimesAtLeast(base: Base, p: nat)
    ensures p <= base * p
    ensures p > 0 ==> base * p > 0
  {
  }

  function Zeros(count: nat): seq<byte> {
    seq(count, _ => 48)
  }

  /** Padding with the digit zero on the left changes no value. */
  lemma {:induction false} PaddingIsHarmless(count: nat, digits: seq<byte>, base: Base)
    ensures Number(Zeros(count) + digits, base) == Number(digits, base)
    decreases |digits|, count
  {
    var padded := Zeros(count) + digits;
    if digits != [] {
      PaddingIsHarmless(count, digits[..|digits| - 1], base);
      assert padded[..|padded| - 1] == Zeros(count) + digits[..|digits| - 1];
    } else if count > 0 {
      PaddingIsHarmless(count - 1, [], base);
      assert padded[..|padded| - 1] == Zeros(count - 1) + [];
    }
  }

  /** A digit behind a numeral: the base times the number, and the digit. */
  lemma NumeralStep(n: nat, digit: nat, base: Base)
    requires 0 < n && digit < base
    ensures Numeral(base * n + digit, base) == Numeral(n, base) + [EncodeSize62(digit)]
  {
    hide EncodeSize62, Numeral;
    DivideUnique(base * n + digit, base, n, digit);
    TimesAtLeast(base, n);
    NumeralUnfolds(base * n + digit, base);
  }

  lemma NumeralUnfolds(n: nat, base: Base)
    ensures n < base ==> Numeral(n, base) == [EncodeSize62(n)]
    ensures n >= base ==> Numeral(n, base) == Numeral(n / base, base) + [EncodeSize62(n % base)]
  {
  }

  lemma SomeNumerals()
    ensures Numeral(0, 62) == Codes("0") && Numeral(62, 62) == Codes("10") && Numeral(3843, 62) == Codes("zz")
    ensures Numeral(2024, 10) == Codes("2024") && Numeral(2024, 62) == Codes("We")
    ensures Number(Codes("We"), 62) == Number(Codes("2024"), 10) == 2024
  {
    hide Numeral, Number;
    NumeralUnfolds(0, 62);
    NumeralUnfolds(1, 62);
    NumeralUnfolds(61, 62);
    NumeralUnfolds(32, 62);
    NumeralUnfolds(2, 10);
    NumeralStep(1, 0, 62);
    NumeralStep(61, 61, 62);
    NumeralStep(32, 40, 62);
    NumeralStep(2, 0, 10);
    NumeralStep(20, 2, 10);
    NumeralStep(202, 4, 10);
    NumeralRoundTrip(2024, 62);
    NumeralRoundTrip(2024, 10);
  }

  // ---------------------------------------------------------------------------
  // The loops of the source
  // ---------------------------------------------------------------------------

  /** `mgwsi_pow`: every intermediate product stays a 32-bit `int`. */
  method MgwsiPow(n10: Base, power: nat) returns (result: int)
    requires Power(n10, power) < INT32_LIMIT
    ensures result == Power(n10, power)
  {
    if power == 0 {
      return 1;
    }
    result := 1;
    var n := 1;
    while n <= power
      invariant 1 <= n <= power + 1 && result == Power(n10, n - 1)
    {
      PowerGrows(n10, n, power);
      assert result * n10 == Power(n10, n) < INT32_LIMIT;
      result := result * n10;
      n := n + 1;
    }
  }

  /** The `count` low digits of a number. */
  function LowDigits(n: nat, base: Base, count: nat): (digits: seq<byte>)
    ensures |digits| == count
  {
    if count == 0 then [] else LowDigits(n / base, base, count - 1) + [EncodeSize62(n % base)]
  }

  lemma {:induction false} LowDigitsGrow(n: nat, base: Base, count: nat)
    ensures Power(base, count) > 0
    ensures LowDigits(n, base, count + 1) == [EncodeSize62(n / Power(base, count) % base)] + LowDigits(n, base, count)
    decreases count
  {
    PowerGrows(base, count, count);
    if count > 0 {
      LowDigitsGrow(n / base, base, count - 1);
      DivideTwice(n, base, Power(base, count - 1));
    } else {
      assert LowDigits(n / base, base, 0) == [];
    }
  }

  lemma DivideTwice(n: nat, base: Base, p: nat)
    requires p > 0
    ensures base * p > 0 && n / base / p == n / (base * p)
  {
    var q, r := QuotientAndRemainder(n, base);
    var q1, r1 := QuotientAndRemainder(q, p);
    DivideInSteps(n, base, p, q, q1, r1, r);
  }

  lemma QuotientAndRemainder(n: nat, d: nat) returns (q: nat, r: nat)
    requires d > 0
    ensures n == d * q + r && r < d && q == n / d
  {
    q, r := n / d, n % d;
  }

  lemma DivideInSteps(n: nat, base: Base, p: nat, q: nat, q1: nat, r1: nat, r: nat)
    requires p > 0 && n == base * q + r && q == p * q1 + r1 && r < base && r1 < p
    ensures base * p > 0 && n / (base * p) == q1
  {
    TimesAtLeast(base, p);
    Regroup(n, base, p, q, q1, r1, r);
    DivideUnique(n, base * p, q1, base * r1 + r);
  }

  lemma Regroup(n: nat, base: Base, p: nat, q: nat, q1: nat, r1: nat, r: nat)
    requires n == base * q + r && q == p * q1 + r1 && r < base && r1 < p
    ensures n == (base * p) * q1 + (base * r1 + r) && base * r1 + r < base * p
  {
    assert base * (p * q1) == (base * p) * q1;
    Gap(base, r1, p);
  }

  lemma {:induction false} LowDigitsAreNumeral(n: nat, base: Base, count: nat)
    requires count > 0 && n < Power(base, count) && (count > 1 ==> n >= Power(base, count - 1))
    ensures LowDigits(n, base, count) == Numeral(n, base)
    decreases count
  {
    hide EncodeSize62;
    assert Power(base, 1) == base * Power(base, 0) == base;
    if count == 1 {
      SmallModulo(n, base);
      assert LowDigits(n / base, base, 0) == [];
    } else {
      PowerGrows(base, 1, count - 1);
      DivideBelow(n, base, Power(base, count - 1));
      DivideBelow(n, base, Power(base, count - 2));
      LowDigitsAreNumeral(n / base, base, count - 1);
    }
  }

  /** `mgwsi_encode_size`; the base is 10 or 62. In base 62 the largest power computed is the fifth, which an
      `int` can hold; from 62 to the fifth power on the loop would go on to a power that overflows. `top` is the last
      power computed, and the largest. */
  method EncodeSize(size: int, base: Base) returns (esize: seq<byte>, ghost top: nat)
    requires base == 10 || base == 62
    requires 0 <= size < if base == 10 then INT32_LIMIT else Power(62, 5)
    ensures esize == Numeral(size, base)
    ensures base == 62 ==> top == Power(62, |esize|) < INT32_LIMIT
  {
    top := 0;
    if base == 10 {
      return Numeral(size, 10), top;
    }
    PowerFive();
    var buffer := new byte[32];
    var n1 := 31;
    buffer[n1] := 0;
    n1 := n1 - 1;
    DigitRoundTrip(size % base);
    buffer[n1] := EncodeSize62(size % base);
    n1 := n1 - 1;
    var n := 1;
    LowDigitsGrow(size, base, 0);
    assert LowDigits(size, base, 1) == [EncodeSize62(size % base)];
    while true
      invariant 1 <= n <= 5 && n1 == 30 - n
      invariant buffer[n1 + 1..31] == LowDigits(size, base, n)
      invariant n > 1 ==> size >= Power(base, n - 1)
      invariant n > 1 ==> top == Power(base, n - 1)
      decreases 5 - n
    {
      PowerGrows(base, n, 5);
      var power := MgwsiPow(base, n);
      top := power;
      var x := size / power;
      QuotientZero(size, power);
      if x == 0 {
        break;
      }
      LowDigitsGrow(size, base, n);
      DigitRoundTrip(x % base);
      PowerReached(base, size, n);
      buffer[n1] := EncodeSize62(x % base);
      assert buffer[n1..31] == [buffer[n1]] + buffer[n1 + 1..31];
      n1 := n1 - 1;
      n := n + 1;
    }
    LowDigitsAreNumeral(size, base, n);
    n1 := n1 + 1;
    esize := buffer[n1..31];
  }

  lemma QuotientZero(n: nat, d: nat)
    requires d > 0
    ensures n / d == 0 <==> n < d
  {
    if n < d {
      DivideUnique(n, d, 0, n);
    }
  }

  lemma PowerReached(base: Base, size: nat, n: nat)
    requires size < Power(base, 5) && size >= Power(base, n) && n <= 5
    ensures n < 5
  {
  }

  predicate AllDecimal(digits: seq<byte>) {
    forall i :: 0 <= i < |digits| ==> 48 <= digits[i] < 58
  }

  // What `strtol` skips, and what it reads.

  /** Space, tab, newline, vertical tab, form feed and carriage return. */
  predicate IsBlank(c: byte) {
    c == 32 || 9 <= c <= 13
  }

  function SkipBlanks(s: seq<byte>): seq<byte> {
    if s != [] && IsBlank(s[0]) then SkipBlanks(s[1..]) else s
  }

  function LeadingDigits(s: seq<byte>): (digits: seq<byte>)
    ensures AllDecimal(digits) && |digits| <= |s|
  {
    if s == [] || !(48 <= s[0] < 58) then [] else [s[0]] + LeadingDigits(s[1..])
  }

  /** The decimal number at the start of a text, after blanks and with a sign; 0 when there is none. */
  function Decimal(text: seq<byte>): int {
    var s := SkipBlanks(text);
    if s != [] && s[0] == 45 then -(Number(LeadingDigits(s[1..]), 10) as int)
    else if s != [] && s[0] == 43 then Number(LeadingDigits(s[1..]), 10)
    else Number(LeadingDigits(s), 10)
  }

  /** `strtol` in base 10, with a 64-bit `long`: the nearest number that a `long` can hold. */
  function StrToL(text: seq<byte>): int {
    var n := Decimal(text);
    if n >= INT64_LIMIT then INT64_LIMIT - 1 else if n < -INT64_LIMIT then -INT64_LIMIT else n
  }

  /** The cast of a `long` to an `int`. */
  function Int32(n: int): (r: int)
    ensures -INT32_LIMIT <= r < INT32_LIMIT
    ensures -INT32_LIMIT <= n < INT32_LIMIT ==> r == n
    ensures (n - r) % 0x1_0000_0000 == 0
  {
    var low := n % (2 * INT32_LIMIT);
    if low >= INT32_LIMIT then low - 2 * INT32_LIMIT else low
  }

  /** Numbers that a `long` cannot hold end as -1 or 0 in an `int`. */
  lemma BeyondLong(text: seq<byte>)
    ensures Decimal(text) > 0x7FFF_FFFF_FFFF_FFFF ==>
              StrToL(text) == 0x7FFF_FFFF_FFFF_FFFF && Int32(StrToL(text)) == -1
    ensures Decimal(text) < -0x8000_0000_0000_0000 ==>
              StrToL(text) == -0x8000_0000_0000_0000 && Int32(StrToL(text)) == 0
    ensures -0x8000_0000_0000_0000 <= Decimal(text) <= 0x7FFF_FFFF_FFFF_FFFF ==> StrToL(text) == Decimal(text)
  {
    hide Decimal;
  }

  /** A text that begins with nothing that `strtol` knows is read as 0. */
  lemma NothingToRead(text: seq<byte>)
    requires text == [] || (!('0' as int <= text[0] <= '9' as int) && !('\t' as int <= text[0] <= '\r' as int)
                            && text[0] != ' ' as int && text[0] != '+' as int && text[0] != '-' as int)
    ensures Decimal(text) == 0
  {
    var s := SkipBlanks(text);
    assert s == text && LeadingDigits(s) == [] && Number([], 10) == 0;
  }

  lemma {:induction false} LeadingDigitsStand(s: seq<byte>)
    requires AllDecimal(s)
    ensures LeadingDigits(s) == s
  {
    if s != [] {
      LeadingDigitsStand(s[1..]);
    }
  }

  lemma {:induction false} LeadingDigitsOf(digits: seq<byte>, rest: seq<byte>)
    requires AllDecimal(digits) && (rest == [] || !(48 <= rest[0] < 58))
    ensures LeadingDigits(digits + rest) == digits
  {
    if digits == [] {
      assert digits + rest == rest;
    } else {
      assert (digits + rest)[1..] == digits[1..] + rest;
      LeadingDigitsOf(digits[1..], rest);
    }
  }

  lemma {:induction false} BlanksAreSkipped(blanks: seq<byte>, s: seq<byte>)
    requires forall c <- blanks :: IsBlank(c)
    requires s == [] || !IsBlank(s[0])
    ensures SkipBlanks(blanks + s) == s
  {
    if blanks == [] {
      assert blanks + s == s;
    } else {
      assert (blanks + s)[1..] == blanks[1..] + s;
      BlanksAreSkipped(blanks[1..], s);
    }
  }

  /** Blanks before the number and anything after its digits are left out; a minus sign negates. */
  lemma DecimalIsRead(blanks: seq<byte>, sign: seq<byte>, digits: seq<byte>, rest: seq<byte>)
    requires forall c <- blanks :: c in Codes(" \t\n\r") || c == 11 || c == 12
    requires sign == [] || sign == Codes("-") || sign == Codes("+")
    requires digits != [] && AllDecimal(digits) && (rest == [] || !(48 <= rest[0] < 58))
    ensures Decimal(blanks + (sign + (digits + rest)))
            == if sign == Codes("-") then -(Number(digits, 10) as int) else Number(digits, 10)
  {
    hide Number, LeadingDigits, SkipBlanks;
    LeadingDigitsOf(digits, rest);
    var number := sign + (digits + rest);
    assert sign == [] ==> number == digits + rest;
    assert sign != [] ==> number[1..] == digits + rest;
    BlanksAreSkipped(blanks, number);
  }

  /** Digits alone are read as the number they denote. */
  lemma DigitsAreRead(s: seq<byte>)
    requires AllDecimal(s)
    ensures Decimal(s) == Number(s, 10)
    ensures Number(s, 10) < INT32_LIMIT ==> Int32(StrToL(s)) == Number(s, 10)
  {
    LeadingDigitsStand(s);
  }

  lemma {:induction false} SuffixIsSmaller(digits: seq<byte>, base: Base, n: nat)
    requires n <= |digits|
    ensures Number(digits[n..], base) <= Number(digits, base)
    decreases n
  {
    hide Number, Power, DecodeSize62;
    if n == 0 {
      assert digits[0..] == digits;
    } else {
      SuffixIsSmaller(digits, base, n - 1);
      NumberFront(digits[n - 1..], base);
      Distribute(DecodeSize62(digits[n - 1]), 0, Power(base, |digits| - n));
      assert digits[n - 1..][1..] == digits[n..];
    }
  }

  /** `mgwsi_decode_size`. Base 10 is left to `strtol`, whatever the text. In base 62 the powers and the sum are those
      of an `int`: up to six digits, and a number that an `int` can hold. */
  method DecodeSize(esize: seq<byte>, base: Base) returns (size: int)
    requires base == 10 || base == 62
    requires base == 62 ==> |esize| <= 6 && Number(esize, 62) < INT32_LIMIT
    ensures base == 10 ==> size == Int32(StrToL(esize))
    ensures base == 62 ==> size == Number(esize, 62)
  {
    hide DecodeSize62;
    if base == 10 {
      return Int32(StrToL(esize));
    }
    size := 0;
    var n := |esize| - 1;
    PowerFive();
    assert esize[|esize|..] == [];
    while n >= 0
      invariant -1 <= n < |esize|
      invariant size == Number(esize[n + 1..], base)
    {
      var k := |esize| - (n + 1);
      PowerGrows(base, k, 5);
      var power := MgwsiPow(base, k);
      var x := esize[n];
      NumberFront(esize[n..], base);
      assert esize[n..][1..] == esize[n + 1..];
      SuffixIsSmaller(esize, base, n);
      assert size + DecodeSize62(x) * power < INT32_LIMIT;
      size := size + DecodeSize62(x) * power;
      n := n - 1;
    }
    assert esize[0..] == esize;
  }

  lemma OneMoreDigit(n: nat, p: nat, d: nat, base: Base)
    requires n < p && d < base
    ensures n * base + d < base * p
  {
    Gap(base, n, p);
  }

  /** A number of k digits is below the k-th power of the base. */
  lemma {:induction false} NumberBound(digits: seq<byte>, base: Base)
    requires base == 62 || AllDecimal(digits)
    requires base == 10 || base == 62
    ensures Number(digits, base) < Power(base, |digits|)
    decreases |digits|
  {
    if digits != [] {
      var last := |digits| - 1;
      NumberBound(digits[..last], base);
      OneMoreDigit(Number(digits[..last], base), Power(base, last), DecodeSize62(digits[last]), base);
    }
  }

  lemma PowerFive()
    ensures Power(62, 4) == 14_776_336 && Power(62, 5) == 916_132_832 < INT32_LIMIT
  {
    assert Power(62, 1) == 62;
    assert Power(62, 2) == 3844;
    assert Power(62, 3) == 238_328;
  }

  /** The encoding loop divides by the powers of 62 up to the one with as many factors as the size has digits. All of
      them are 32-bit exactly for sizes below 62 to the fifth power. */
  lemma PowersFitExactly(size: nat)
    ensures Power(62, |Numeral(size, 62)|) < INT32_LIMIT <==> size < Power(62, 5)
  {
    hide Numeral;
    var digits := |Numeral(size, 62)|;
    PowerFive();
    NumeralLength(size, 62, 5);
    if digits <= 5 {
      PowerGrows(62, digits, 5);
    } else {
      PowerGrows(62, 6, digits);
      assert Power(62, 6) == 62 * Power(62, 5);
    }
  }

  lemma Horner(d: nat, p: nat, v: nat, base: nat)
    ensures (d * p + v) * base == d * (base * p) + v * base
  {
    assert (d * p + v) * base == (d * p) * base + v * base;
    assert (d * p) * base == d * (base * p);
  }

  /** A number read from its most significant digit. */
  lemma {:induction false} NumberFront(digits: seq<byte>, base: Base)
    requires digits != []
    ensures Number(digits, base) == DecodeSize62(digits[0]) * Power(base, |digits| - 1) + Number(digits[1..], base)
    decreases |digits|
  {
    hide DecodeSize62;
    var init := digits[..|digits| - 1];
    if init == [] {
      assert digits[1..] == [];
    } else {
      NumberFront(init, base);
      assert digits[1..][..|digits| - 2] == init[1..];
      var d, p, v := DecodeSize62(digits[0]), Power(base, |digits| - 2), Number(init[1..], base);
      Horner(d, p, v, base);
    }
  }

  // ---------------------------------------------------------------------------
  // Headers with a padded size
  // ---------------------------------------------------------------------------

  /** A numeral in a field of `width` digits. */
  function Field(n: nat, base: Base, width: nat): seq<byte>
    requires n < Power(base, width) && width > 0
  {
    NumeralLength(n, base, width);
    Zeros(width - |Numeral(n, base)|) + Numeral(n, base)
  }

  /** A padded size is read back, in fields of any width that can hold it. */
  lemma FieldRoundTrip(n: nat, base: Base, width: nat)
    requires width > 0 && n < Power(base, width)
    ensures |Field(n, base, width)| == width && Number(Field(n, base, width), base) == n
  {
    NumeralLength(n, base, width);
    NumeralRoundTrip(n, base);
    PaddingIsHarmless(width - |Numeral(n, base)|, Numeral(n, base), base);
  }

  /** `mgwsi_encode_ws_header`: four base-62 digits of size and one decimal digit of type. */
  method EncodeWsHeader(head: array<byte>, size: int, msgType: int) returns (length: int)
    requires head.Length >= 6 && 0 <= size < Power(62, 4) && 0 <= msgType <= 9
    modifies head
    ensures length == 5 && head[..5] == Field(size, 62, 4) + [48 + msgType]
    ensures forall i :: 6 <= i < head.Length ==> head[i] == old(head[i])
  {
    head[0], head[1], head[2], head[3], head[4], head[5] := 48, 48, 48, 48, 48 + msgType, 0;
    PowerFive();
    NumeralLength(size, 62, 4);
    var esize, _ := EncodeSize(size, 62);
    var slen := |esize|;
    var k := 0;
    while k < slen
      invariant 0 <= k <= slen
      invariant forall i :: 0 <= i < 4 - slen ==> head[i] == 48
      invariant forall i :: 0 <= i < k ==> head[4 - slen + i] == esize[i]
      invariant head[4] == 48 + msgType
      invariant forall i :: 6 <= i < head.Length ==> head[i] == old(head[i])
    {
      head[4 - slen + k] := esize[k];
      k := k + 1;
    }
    return 5;
  }

  /** The size of a request, written over the five zeros at the end of the request header. */
  method WriteSizeField(buffer: array<byte>, headerLen: nat, dataSize: nat)
    requires 6 <= headerLen <= dataSize <= buffer.Length && dataSize - headerLen < Power(62, 5)
    requires buffer[headerLen - 6..headerLen - 1] == Zeros(5)
    modifies buffer
    ensures buffer[headerLen - 6..headerLen - 1] == Field(dataSize - headerLen, 62, 5)
    ensures buffer[..headerLen - 6] == old(buffer[..headerLen - 6])
    ensures buffer[headerLen - 1..] == old(buffer[headerLen - 1..])
  {
    hide Numeral;
    var size := dataSize - headerLen;
    NumeralLength(size, 62, 5);
    var esize, _ := EncodeSize(size, 62);
    var start := (headerLen - 6) + (5 - |esize|);
    ghost var before := buffer[..];
    CopyInto(buffer, start, esize);
    OverZeros(before, buffer[..], headerLen - 6, esize);
  }

  /** Digits written over the last of five zeros. */
  lemma OverZeros(before: seq<byte>, after: seq<byte>, at: nat, digits: seq<byte>)
    requires |digits| <= 5 && at + 5 <= |before| == |after| && before[at..at + 5] == Zeros(5)
    requires var start := at + 5 - |digits|;
             after[..start] == before[..start] && after[start..at + 5] == digits
    ensures after[at..at + 5] == Zeros(5 - |digits|) + digits && after[..at] == before[..at]
  {
    var start := at + 5 - |digits|;
    SliceOfFront(before, at, start);
    SliceOfFront(after, at, start);
    forall i | 0 <= i < 5 - |digits|
      ensures before[at..start][i] == 48
    {
      assert before[at..at + 5][i] == Zeros(5)[i];
    }
    assert after[at..start] == Zeros(5 - |digits|);
    assert after[at..at + 5] == after[at..start] + after[start..at + 5];
    assert after[..at] == after[..start][..at] == before[..start][..at] == before[..at];
  }

  lemma SliceOfFront<T>(s: seq<T>, at: nat, end: nat)
    requires at <= end <= |s|
    ensures s[at..end] == s[..end][at..]
  {
  }

  /** `mgwsi_decode_ws_header`; the byte after the header is the terminator that the receiver stored. A type that is no
      digit counts as 0. */
  method DecodeWsHeader(head: seq<byte>) returns (size: int, msgType: int)
    requires |head| == 6 && head[5] == 0
    ensures size == Number(head[..4], 62)
    ensures msgType == if 48 <= head[4] < 58 then head[4] - 48 else 0
  {
    OneCharacter(head[4..]);
    msgType := StrToL(head[4..]);
    PowerFive();
    NumberBound(head[..4], 62);
    size := DecodeSize(head[..4], 62);
  }

  lemma OneCharacter(s: seq<byte>)
    requires |s| == 2 && s[1] == 0
    ensures StrToL(s) == if 48 <= s[0] < 58 then s[0] - 48 else 0
  {
    assert s[1..][0] == 0 && LeadingDigits(s[1..]) == [];
    assert Number([], 10) == 0;
    if IsBlank(s[0]) {
      assert SkipBlanks(s) == SkipBlanks(s[1..]) == s[1..];
    } else if 48 <= s[0] < 58 {
      assert LeadingDigits(s) == [s[0]] && [s[0]][..0] == [];
    }
  }

  /** The WebSocket header carries every size below 62 to the fourth power and every one-digit type. */
  lemma WsHeaderRoundTrip(size: nat, msgType: nat)
    requires size < Power(62, 4) && msgType <= 9
    ensures var head := Field(size, 62, 4) + [48 + msgType];
            |head| == 5 && Number(head[..4], 62) == size && head[4] - 48 == msgType
  {
    FieldRoundTrip(size, 62, 4);
    assert (Field(size, 62, 4) + [48 + msgType])[..4] == Field(size, 62, 4);
  }

  /** The header has room for the digits of a size exactly when the size is below 62 to the fourth power. A single frame
      can carry that much and more, so the limit on frames does not keep messages within the header. */
  lemma HeaderFitsExactly(size: nat)
    ensures |Numeral(size, 62)| <= 4 <==> size < Power(62, 4)
    ensures Power(62, 4) <= WsParser.PAYLOAD_LIMIT < Power(62, 5)
  {
    NumeralLength(size, 62, 4);
    PowerFive();
  }
}

/** `_decimal_json`: the number a Decimal is written as denotes it, and reads back as its very digits. */
module Decimals {
  import opened Options
  import opened Octets
  import opened Numbers
  import opened Quantities

  datatype Decimal =
    | NotFinite
    | Finite(negative: bool, coefficient: nat, exponent: int)

  /** The decimal digits of a number, with no leading zero but that of zero itself. */
  function DigitsOf(n: nat): (s: Octets)
    ensures |s| > 0 && AllDigits(s)
    ensures s[0] == ZERO ==> n == 0 && |s| == 1
    decreases n
  {
    var last: octet := ZERO + (n % 10) as octet;
    if n < 10 then [last] else DigitsOf(n / 10) + [last]
  }

  function Zeros(n: nat): (s: Octets)
    ensures |s| == n && forall i | 0 <= i < n :: s[i] == ZERO
  {
    if n == 0 then [] else Zeros(n - 1) + [ZERO]
  }

  function Sign(negative: bool): Octets {
    if negative then [MINUS] else []
  }

  function Abs(n: int): nat {
    if n < 0 then -n else n
  }

  /** The exponent the first digit stands at. */
  function Adjusted(d: Decimal): int
    requires d.Finite?
  {
    d.exponent + |DigitsOf(d.coefficient)| - 1
  }

  /** `format(number, "f")`: in positional notation. */
  function Fixed(d: Decimal): Octets
    requires d.Finite?
  {
    var digits := DigitsOf(d.coefficient);
    var exponent := if d.coefficient == 0 && d.exponent > 0 then 0 else d.exponent;
    var place := exponent + |digits|;
    if exponent >= 0 then Sign(d.negative) + digits + Zeros(exponent)
    else if place <= 0 then Sign(d.negative) + [ZERO] + [DOT] + (Zeros(-place) + digits)
    else Sign(d.negative) + digits[..place] + [DOT] + digits[place..]
  }

  /** The number, or nothing where its exponent writes more digits than `limit` allows, 0 being no limit. */
  function DecimalJson(d: Decimal, limit: nat): Option<Octets> {
    if d.NotFinite? then None
    else if limit > 0 && Abs(Adjusted(d)) > limit then None
    else Some(Fixed(d))
  }

  /** The quantity a Decimal is. */
  function DecimalValue(d: Decimal): real
    requires d.Finite?
  {
    Signed(d.negative, Scaled(d.coefficient, d.exponent))
  }

  /** The Decimal that a number is read as: its sign, its digits, and the exponent of its last digit. */
  function AsDecimal(s: Octets): Decimal {
    var a := if s != [] && s[0] == MINUS then 1 else 0;
    var b := IntEnd(s, a);
    var c := FractionEnd(s, b);
    var fraction := if b < c then s[b + 1..c] else [];
    var exponent := if c < |s| then ExponentValue(s[c + 1..]) else 0;
    Finite(a == 1, Abs(Natural(s[a..b] + fraction)), exponent - |fraction|)
  }

  // ----- Digits -----

  lemma {:induction false} DigitsNatural(n: nat)
    ensures Natural(DigitsOf(n)) == n
    decreases n
  {
    var s := DigitsOf(n);
    if n >= 10 {
      DigitsNatural(n / 10);
      assert s[..|s| - 1] == DigitsOf(n / 10);
    } else {
      assert s[..|s| - 1] == [];
    }
  }

  lemma {:induction false} ZerosAfter(s: Octets, n: nat)
    ensures Natural(s + Zeros(n)) == Natural(s) * Pow10(n)
    decreases n
  {
    if n == 0 {
      assert s + [] == s;
    } else {
      var t := s + Zeros(n);
      assert t[..|t| - 1] == s + Zeros(n - 1);
      ZerosAfter(s, n - 1);
    }
  }

  lemma {:induction false} ZerosBefore(n: nat, s: Octets)
    ensures Natural(Zeros(n) + s) == Natural(s)
    decreases |s|, n
  {
    var t := Zeros(n) + s;
    if s != [] {
      assert t[..|t| - 1] == Zeros(n) + s[..|s| - 1];
      ZerosBefore(n, s[..|s| - 1]);
    } else if n > 0 {
      assert t[..|t| - 1] == Zeros(n - 1) + [];
      ZerosBefore(n - 1, []);
    }
  }

  // ----- How many digits, and where the first of them stands -----

  lemma {:induction false} PowGrows(a: nat, b: nat)
    requires a <= b
    ensures Pow10(a) <= Pow10(b)
    decreases b
  {
    if a < b {
      PowGrows(a, b - 1);
    }
  }

  /** As many digits as bracket the number between two powers of ten. */
  lemma {:induction false} DigitsCount(n: nat)
    ensures n < Pow10(|DigitsOf(n)|)
    ensures n > 0 ==> Pow10(|DigitsOf(n)| - 1) <= n
    decreases n
  {
    if n >= 10 {
      DigitsCount(n / 10);
    }
  }

  /** Whether an integer has no more digits than the limit allows, 0 being no limit. */
  predicate IntegerFits(n: int, limit: nat) {
    limit > 0 ==> -Pow10(limit) < n < Pow10(limit)
  }

  lemma IntegerFitsExactly(n: int, limit: nat)
    ensures IntegerFits(n, limit) <==> limit == 0 || |DigitsOf(Abs(n))| <= limit
  {
    hide DigitsOf, Pow10;
    var digits := |DigitsOf(Abs(n))|;
    DigitsCount(Abs(n));
    if digits <= limit {
      PowGrows(digits, limit);
    } else {
      PowGrows(limit, digits - 1);
      PowZero();
      ZeroDigits();
    }
  }

  /** Whether the first digit of a Decimal stands for ten to that power. Zero has the one digit its exponent is of. */
  predicate LeadsAt(d: Decimal, place: int) {
    d.Finite? && place >= d.exponent &&
    if d.coefficient == 0 then place == d.exponent
    else Pow10(place - d.exponent) <= d.coefficient < Pow10(place - d.exponent + 1)
  }

  /** Whether a Decimal can be written: finite, with its first digit no further from the point than the limit. */
  ghost predicate DecimalFits(d: Decimal, limit: nat) {
    d.Finite? && (limit > 0 ==> exists place :: LeadsAt(d, place) && Abs(place) <= limit)
  }

  lemma AdjustedExactly(d: Decimal, place: int)
    requires d.Finite?
    ensures place == Adjusted(d) <==> LeadsAt(d, place)
  {
    hide DigitsOf, Pow10;
    var digits := |DigitsOf(d.coefficient)|;
    DigitsCount(d.coefficient);
    ZeroDigits();
    var over := place - d.exponent;
    if LeadsAt(d, place) && d.coefficient > 0 {
      if over + 1 < digits {
        PowGrows(over + 1, digits - 1);
      } else if over >= digits {
        PowGrows(digits, over);
      }
    }
  }

  lemma FitsExactly(d: Decimal, limit: nat)
    ensures DecimalFits(d, limit) <==> d.Finite? && (limit > 0 ==> Abs(Adjusted(d)) <= limit)
  {
    hide LeadsAt, Adjusted;
    if d.Finite? {
      forall place
        ensures place == Adjusted(d) <==> LeadsAt(d, place)
      {
        AdjustedExactly(d, place);
      }
    }
  }

  // ----- A number written with no exponent -----

  /** `sign`, an integer part and a fraction part, put together as a number. */
  function Written(negative: bool, whole: Octets, fraction: Octets): Octets {
    Sign(negative) + whole + if fraction == [] then [] else [DOT] + fraction
  }

  /** Digits that a number can start with, and digits that can follow its point. */
  predicate CanWrite(whole: Octets, fraction: Octets) {
    whole != [] && AllDigits(whole) && (whole[0] == ZERO ==> |whole| == 1) && AllDigits(fraction)
  }

  lemma WrittenDigits(negative: bool, whole: Octets, fraction: Octets)
    requires CanWrite(whole, fraction)
    ensures
      var s := Written(negative, whole, fraction);
      var a := if negative then 1 else 0;
      var b := a + |whole|;
      b <= |s| && (s[0] == MINUS <==> negative) && s[a] == whole[0] && s[a..b] == whole && Digits(s, a, b) &&
      (b < |s| <==> fraction != []) &&
      (b < |s| ==> s[b] == DOT && s[b + 1..|s|] == fraction && Digits(s, b + 1, |s|) && b + 1 < |s|)
  {
    var s := Written(negative, whole, fraction);
    var a := if negative then 1 else 0;
    var b := a + |whole|;
    assert forall i | a <= i < b :: s[i] == whole[i - a];
    if fraction != [] {
      assert forall i | b + 1 <= i < |s| :: s[i] == fraction[i - b - 1];
    }
  }

  lemma WrittenParts(negative: bool, whole: Octets, fraction: Octets)
    requires CanWrite(whole, fraction)
    ensures
      var s := Written(negative, whole, fraction);
      var a := if negative then 1 else 0;
      var b := a + |whole|;
      IntEnd(s, a) == b && FractionEnd(s, b) == |s| && NumberParts(s, a, b, |s|)
  {
    hide Written;
    var s := Written(negative, whole, fraction);
    var a := if negative then 1 else 0;
    var b := a + |whole|;
    WrittenDigits(negative, whole, fraction);
    DigitsStop(s, a, b);
    if fraction != [] {
      DigitsStop(s, b + 1, |s|);
    }
  }

  lemma WrittenDenotes(negative: bool, whole: Octets, fraction: Octets)
    requires CanWrite(whole, fraction)
    ensures
      var s := Written(negative, whole, fraction);
      IsNumber(s) && Denotes(s) == Signed(negative, Scaled(Natural(whole + fraction), -|fraction|)) &&
      AsDecimal(s) == Finite(negative, Abs(Natural(whole + fraction)), -|fraction|)
  {
    hide Written, CanWrite, IntEnd, FractionEnd, Natural, Scaled, Signed;
    WrittenDigits(negative, whole, fraction);
    WrittenParts(negative, whole, fraction);
  }

  // ----- The number written for a Decimal -----

  /** The digits of a Decimal, put on either side of its point. */
  ghost predicate Splits(d: Decimal, whole: Octets, fraction: Octets)
    requires d.Finite?
  {
    CanWrite(whole, fraction) && Fixed(d) == Written(d.negative, whole, fraction) &&
    Natural(whole + fraction) == d.coefficient * Pow10(if d.exponent > 0 then d.exponent else 0) &&
    |fraction| == (if d.exponent < 0 then -d.exponent else 0) &&
    |whole| + |fraction| <= |DigitsOf(d.coefficient)| + Abs(Adjusted(d))
  }

  lemma FixedIsWritten(d: Decimal) returns (whole: Octets, fraction: Octets)
    requires d.Finite?
    ensures Splits(d, whole, fraction)
    ensures Scaled(Natural(whole + fraction), -|fraction|) == Scaled(d.coefficient, d.exponent)
  {
    hide Scaled, Natural, Pow10, Fixed, DigitsOf, CanWrite, Written, Adjusted;
    PowZero();
    var place := d.exponent + |DigitsOf(d.coefficient)|;
    if d.exponent >= 0 {
      whole, fraction := WholeIsWritten(d);
      ScaledUp(d.coefficient, d.exponent);
    } else if place <= 0 {
      whole, fraction := SmallIsWritten(d);
    } else {
      whole, fraction := PointIsWritten(d);
    }
  }

  lemma WholeIsWritten(d: Decimal) returns (whole: Octets, fraction: Octets)
    requires d.Finite? && d.exponent >= 0
    ensures Splits(d, whole, fraction)
  {
    hide Natural, Pow10;
    PowZero();
    var digits := DigitsOf(d.coefficient);
    DigitsNatural(d.coefficient);
    var exponent := if d.coefficient == 0 then 0 else d.exponent;
    whole, fraction := digits + Zeros(exponent), [];
    ZerosAfter(digits, exponent);
    assert whole + fraction == whole;
    ZeroDigits();
    assert Sign(d.negative) + digits + Zeros(exponent) == Sign(d.negative) + whole + [];
  }

  lemma SmallIsWritten(d: Decimal) returns (whole: Octets, fraction: Octets)
    requires d.Finite? && d.exponent + |DigitsOf(d.coefficient)| <= 0
    ensures Splits(d, whole, fraction)
  {
    hide Natural, Pow10;
    PowZero();
    var digits := DigitsOf(d.coefficient);
    DigitsNatural(d.coefficient);
    var zeros := Zeros(-d.exponent - |digits|);
    whole, fraction := [ZERO], zeros + digits;
    assert whole + fraction == Zeros(1) + (zeros + digits);
    ZerosBefore(1, zeros + digits);
    ZerosBefore(|zeros|, digits);
    PointBetween(Sign(d.negative), whole, fraction);
  }

  lemma PointBetween(sign: Octets, whole: Octets, fraction: Octets)
    ensures sign + whole + [DOT] + fraction == sign + whole + ([DOT] + fraction)
  {
  }

  lemma PointIsWritten(d: Decimal) returns (whole: Octets, fraction: Octets)
    requires d.Finite? && d.exponent < 0 < d.exponent + |DigitsOf(d.coefficient)|
    ensures Splits(d, whole, fraction)
  {
    hide Natural, Pow10;
    PowZero();
    var digits := DigitsOf(d.coefficient);
    DigitsNatural(d.coefficient);
    var place := d.exponent + |digits|;
    whole, fraction := digits[..place], digits[place..];
    assert whole + fraction == digits;
    PointBetween(Sign(d.negative), whole, fraction);
  }

  lemma PowZero()
    ensures Pow10(0) == 1
  {
  }

  lemma ZeroDigits()
    ensures DigitsOf(0) == [ZERO]
  {
  }

  /**
   * A Decimal is refused exactly where it is not finite or its first digit is further from the point than the limit,
   * and otherwise written as a number that denotes it, in at most the limit, its digits and two octets more.
   */
  lemma DecimalJsonDenotes(d: Decimal, limit: nat)
    ensures DecimalJson(d, limit).Some? <==> DecimalFits(d, limit)
    ensures
      var s := DecimalJson(d, limit);
      s.Some? ==>
        IsNumber(s.value) && Denotes(s.value) == DecimalValue(d) &&
        (limit > 0 ==> |s.value| <= limit + |DigitsOf(d.coefficient)| + 2)
  {
    hide Fixed, Scaled, Natural, CanWrite, Denotes, IsNumber, Signed, DecimalFits, Adjusted;
    FitsExactly(d, limit);
    if DecimalJson(d, limit).Some? {
      var whole, fraction := FixedIsWritten(d);
      WrittenDenotes(d.negative, whole, fraction);
    }
  }

  /** Written with no fraction, a number is an integer; with one, it is not. */
  lemma WrittenInteger(negative: bool, whole: Octets, fraction: Octets)
    requires CanWrite(whole, fraction)
    ensures
      var s := Written(negative, whole, fraction);
      (IsIntegerText(s) <==> fraction == []) &&
      (fraction == [] ==> Integer(s) == if negative then -Natural(whole) else Natural(whole))
  {
    hide Natural;
    var s := Written(negative, whole, fraction);
    WrittenDigits(negative, whole, fraction);
    if fraction == [] {
      assert s == Sign(negative) + whole;
      assert negative ==> s[1..] == whole;
    }
  }

  /**
   * What is written is read back digit for digit. With a negative exponent it is read as a Decimal: the very same, its
   * sign and its trailing zeros included. With any other it is read as an integer: the one the Decimal is.
   */
  lemma DecimalReadsBack(d: Decimal, limit: nat)
    requires DecimalJson(d, limit).Some?
    ensures
      var s := DecimalJson(d, limit).value;
      if d.exponent < 0 then !IsIntegerText(s) && AsDecimal(s) == d
      else
        var magnitude := d.coefficient * Pow10(d.exponent);
        IsIntegerText(s) && Integer(s) == if d.negative then -magnitude else magnitude
  {
    hide Fixed, Scaled, Natural, CanWrite, Denotes, IsNumber, Signed, AsDecimal, Pow10, IsIntegerText, Integer;
    PowZero();
    var whole, fraction := FixedIsWritten(d);
    WrittenDenotes(d.negative, whole, fraction);
    WrittenInteger(d.negative, whole, fraction);
    assert fraction == [] ==> whole + fraction == whole;
  }

  /** An integer loses the sign of the Decimal it was written from exactly where that is a negative zero. */
  lemma SignIsLost(d: Decimal, limit: nat)
    requires DecimalJson(d, limit).Some? && d.exponent >= 0
    ensures (Integer(DecimalJson(d, limit).value) < 0) != d.negative <==> d.negative && d.coefficient == 0
  {
    hide Fixed, Integer, Pow10;
    DecimalReadsBack(d, limit);
    assert d.coefficient > 0 ==> d.coefficient * Pow10(d.exponent) > 0;
  }

  // ----- Integers -----

  function IntegerJson(n: int): Octets {
    Sign(n < 0) + DigitsOf(Abs(n))
  }

  lemma IntegerJsonDenotes(n: int)
    ensures IsNumber(IntegerJson(n)) && IsIntegerText(IntegerJson(n)) && Integer(IntegerJson(n)) == n
  {
    hide Natural, Denotes, IsNumber, IsIntegerText, Integer, AsDecimal, Scaled, Signed;
    var digits := DigitsOf(Abs(n));
    assert IntegerJson(n) == Written(n < 0, digits, []);
    WrittenDenotes(n < 0, digits, []);
    WrittenInteger(n < 0, digits, []);
    DigitsNatural(Abs(n));
  }
}

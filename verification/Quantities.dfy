/** What a JSON number denotes: section 6 of RFC 8259, in decimal. */
module Quantities {
  import opened Octets
  import opened Numbers

  /** Whether a number is written as an integer: the parser builds an `int` of it. */
  predicate IsIntegerText(s: Octets) {
    forall i | 0 <= i < |s| :: s[i] != DOT && !IsExponentMark(s[i])
  }

  function Natural(s: Octets): int
    decreases |s|
  {
    if s == [] then 0 else Natural(s[..|s| - 1]) * 10 + (s[|s| - 1] as int - ZERO as int)
  }

  function Integer(s: Octets): int {
    if s != [] && s[0] == MINUS then -Natural(s[1..]) else Natural(s)
  }

  function Pow10(n: nat): (p: int)
    ensures p > 0
  {
    if n == 0 then 1 else 10 * Pow10(n - 1)
  }

  /** Ten to a power of either sign. */
  function Ten(k: int): real {
    if k >= 0 then Pow10(k) as real else 1.0 / Pow10(-k) as real
  }

  /** `n` times ten to the power `k`. */
  function Scaled(n: int, k: int): real {
    n as real * Ten(k)
  }

  function Signed(negative: bool, magnitude: real): real {
    if negative then -magnitude else magnitude
  }

  /** The exponent a number is written with, from the octet after its mark on. */
  function ExponentValue(s: Octets): int {
    if s != [] && s[0] == PLUS then Natural(s[1..]) else Integer(s)
  }

  /** The quantity a number denotes: its digits, scaled by its fraction and its exponent. */
  function Denotes(s: Octets): real {
    var a := if s != [] && s[0] == MINUS then 1 else 0;
    var b := IntEnd(s, a);
    var c := FractionEnd(s, b);
    var fraction := if b < c then s[b + 1..c] else [];
    var exponent := if c < |s| then ExponentValue(s[c + 1..]) else 0;
    Signed(a == 1, Scaled(Natural(s[a..b] + fraction), exponent - |fraction|))
  }

  /** Zeros written are a power of ten. */
  lemma ScaledUp(n: int, k: nat)
    ensures Scaled(n * Pow10(k), 0) == Scaled(n, k)
  {
    assert (n * Pow10(k)) as real == n as real * Pow10(k) as real;
  }

  /** A number is written as an integer exactly where it is digits, with a minus ahead of them or not. */
  lemma IntegerTextExactly(s: Octets)
    requires IsNumber(s)
    ensures IsIntegerText(s) <==> AllDigits(if s[0] == MINUS then s[1..] else s)
  {
    hide IsNumber;
    var a, b, c := Parts(s);
    var digits := if s[0] == MINUS then s[1..] else s;
    if IsIntegerText(s) {
      assert b == c == |s|;
      assert forall i | 0 <= i < |digits| :: digits[i] == s[i + a];
    } else {
      var i :| 0 <= i < |s| && (s[i] == DOT || IsExponentMark(s[i]));
      assert digits[i - a] == s[i];
    }
  }

  lemma Parts(s: Octets) returns (a: nat, b: nat, c: nat)
    requires IsNumber(s)
    ensures NumberParts(s, a, b, c) && s != []
  {
    a, b, c :| NumberParts(s, a, b, c);
  }

  /** The exponent of a number, with its sign. */
  function Power(s: Octets, c: nat): int
    requires c <= |s| && (c == |s| || ExponentAt(s, c, |s|))
  {
    if c == |s| then 0
    else if s[c + 1] == MINUS then -Natural(s[c + 2..])
    else if s[c + 1] == PLUS then Natural(s[c + 2..])
    else Natural(s[c + 1..])
  }

  /** A number denotes its digits, whole and fraction, times ten to its exponent less the digits of its fraction. */
  lemma DenotesParts(s: Octets, a: nat, b: nat, c: nat)
    requires NumberParts(s, a, b, c)
    ensures
      var fraction := if b < c then s[b + 1..c] else [];
      Denotes(s) == Signed(a == 1, Scaled(Natural(s[a..b] + fraction), Power(s, c) - |fraction|))
  {
    hide Natural, Scaled, Signed;
    DigitsStop(s, a, b);
    if b < c {
      DigitsStop(s, b + 1, c);
    }
    assert c < |s| ==> s[c + 1..][1..] == s[c + 2..];
  }

  /** Digits end where something else follows. */
  lemma {:induction false} DigitsStop(s: Octets, i: nat, j: nat)
    requires Digits(s, i, j) && (j < |s| ==> !IsDigit(s[j]))
    ensures DigitsEnd(s, i) == j
    decreases j - i
  {
    if i < j {
      DigitsStop(s, i + 1, j);
    }
  }
}

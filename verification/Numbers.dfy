/**
 * The number grammar of section 6 of RFC 8259, and the pattern `JsonStream` matches numbers with.
 *
 * `IsNumber` is the grammar; `NumberLength` is the pattern, matched at the start of what is buffered.
 * The pattern finds the longest number (`NumberLengthSound`, `NumberLengthLongest`), and `WindowMatch` says
 * what it finds when it is shown only a prefix of the document.
 */
module Numbers {
  import opened Octets

  /** `s[i..j]` is made of digits. */
  predicate Digits(s: Octets, i: nat, j: nat) {
    i <= j <= |s| && forall k | i <= k < j :: IsDigit(s[k])
  }

  predicate IntAt(s: Octets, i: nat, j: nat) {
    i < j && Digits(s, i, j) && (s[i] == ZERO ==> j == i + 1)
  }

  predicate FractionAt(s: Octets, i: nat, j: nat) {
    i + 1 < j && Digits(s, i + 1, j) && s[i] == DOT
  }

  predicate ExponentAt(s: Octets, i: nat, j: nat) {
    i + 1 < j <= |s| && IsExponentMark(s[i]) &&
    (Digits(s, i + 1, j) || (i + 2 < j && IsSign(s[i + 1]) && Digits(s, i + 2, j)))
  }

  /** `a`, `b` and `c` are where the integer, the fraction and the exponent of the number `s` start. */
  predicate NumberParts(s: Octets, a: nat, b: nat, c: nat) {
    a <= b <= c <= |s| &&
    (a == 0 || (a == 1 && s[0] == MINUS)) &&
    IntAt(s, a, b) &&
    (b == c || FractionAt(s, b, c)) &&
    (c == |s| || ExponentAt(s, c, |s|))
  }

  ghost predicate IsNumber(s: Octets) {
    exists a: nat, b: nat, c: nat :: NumberParts(s, a, b, c)
  }

  function DigitsEnd(s: Octets, i: nat): (e: nat)
    requires i <= |s|
    ensures i <= e <= |s|
    ensures forall k | i <= k < e :: IsDigit(s[k])
    ensures e < |s| ==> !IsDigit(s[e])
    decreases |s| - i
  {
    if i < |s| && IsDigit(s[i]) then DigitsEnd(s, i + 1) else i
  }

  function IntEnd(s: Octets, i: nat): (e: nat)
    requires i <= |s|
    ensures i <= e <= |s|
  {
    if i < |s| && s[i] == ZERO then i + 1 else DigitsEnd(s, i)
  }

  function FractionEnd(s: Octets, i: nat): (e: nat)
    requires i <= |s|
    ensures i <= e <= |s|
  {
    if i < |s| && s[i] == DOT && DigitsEnd(s, i + 1) > i + 1 then DigitsEnd(s, i + 1) else i
  }

  function ExponentEnd(s: Octets, i: nat): (e: nat)
    requires i <= |s|
    ensures i <= e <= |s|
  {
    if i < |s| && IsExponentMark(s[i]) then
      var j := if i + 1 < |s| && IsSign(s[i + 1]) then i + 2 else i + 1;
      if DigitsEnd(s, j) > j then DigitsEnd(s, j) else i
    else i
  }

  /** How many octets at the start of `s` the number pattern matches, 0 where it does not match. */
  function NumberLength(s: Octets): (n: nat)
    ensures n <= |s|
  {
    var a := if s != [] && s[0] == MINUS then 1 else 0;
    var b := IntEnd(s, a);
    if b == a then 0 else ExponentEnd(s, FractionEnd(s, b))
  }

  lemma DigitsEndReaches(s: Octets, i: nat, k: nat)
    requires Digits(s, i, k)
    ensures DigitsEnd(s, i) >= k
  {
  }

  /** What each part of the pattern finds, where it finds anything. */
  lemma PartsFound(s: Octets, i: nat)
    requires i <= |s|
    ensures IntEnd(s, i) > i ==> IntAt(s, i, IntEnd(s, i))
    ensures FractionEnd(s, i) > i ==> FractionAt(s, i, FractionEnd(s, i))
    ensures ExponentEnd(s, i) > i ==> ExponentAt(s, i, ExponentEnd(s, i))
  {
    hide DigitsEnd;
  }

  lemma NumberLengthSound(s: Octets)
    requires NumberLength(s) > 0
    ensures IsNumber(s[..NumberLength(s)])
  {
    hide IntEnd, FractionEnd, ExponentEnd, IsNumber;
    var a := if s[0] == MINUS then 1 else 0;
    var b := IntEnd(s, a);
    var c := FractionEnd(s, b);
    var e := ExponentEnd(s, c);
    PartsFound(s, a);
    PartsFound(s, b);
    PartsFound(s, c);
    PrefixIsNumber(s, a, b, c, e);
  }

  lemma PrefixIsNumber(s: Octets, a: nat, b: nat, c: nat, e: nat)
    requires b <= c <= e <= |s| && (a == 0 || (a == 1 && s != [] && s[0] == MINUS)) && IntAt(s, a, b)
    requires (b == c || FractionAt(s, b, c)) && (c == e || ExponentAt(s, c, e))
    ensures IsNumber(s[..e])
  {
    assert NumberParts(s[..e], a, b, c);
  }

  lemma NumberLengthLongest(s: Octets, k: nat)
    requires k <= |s| && IsNumber(s[..k])
    ensures k <= NumberLength(s)
  {
    hide IntEnd, FractionEnd, ExponentEnd;
    var t := s[..k];
    var a: nat, b: nat, c: nat :| NumberParts(t, a, b, c);
    assert IntAt(s, a, b);
    assert b == c || FractionAt(s, b, c);
    assert c == k || ExponentAt(s, c, k);
    LongestInt(s, a, b);
    if b < k {
      LongestFraction(s, b, c, k);
    }
  }

  lemma LongestInt(s: Octets, a: nat, b: nat)
    requires IntAt(s, a, b)
    ensures IntEnd(s, a) >= b && (b < |s| && !IsDigit(s[b]) ==> IntEnd(s, a) == b)
  {
    DigitsEndReaches(s, a, b);
  }

  lemma LongestFraction(s: Octets, b: nat, c: nat, k: nat)
    requires 0 < b <= c <= k <= |s|
    requires b == c || FractionAt(s, b, c)
    requires c == k || ExponentAt(s, c, k)
    ensures ExponentEnd(s, FractionEnd(s, b)) >= k
  {
    if b < c {
      DigitsEndReaches(s, b + 1, c);
    }
    if c < k {
      LongestExponent(s, c, k);
    }
  }

  lemma LongestExponent(s: Octets, c: nat, k: nat)
    requires ExponentAt(s, c, k)
    ensures ExponentEnd(s, c) >= k
  {
    if Digits(s, c + 1, k) {
      DigitsEndReaches(s, c + 1, k);
    } else {
      DigitsEndReaches(s, c + 2, k);
    }
  }

  /** Whether what comes next can only be the rest of a number that was cut. */
  predicate Dangling(s: Octets) {
    s != [] && (s[0] == DOT || IsExponentMark(s[0]))
  }

  lemma {:induction false} DigitsEndWindow(s: Octets, m: nat, i: nat)
    requires i <= m <= |s|
    ensures DigitsEnd(s[..m], i) == if DigitsEnd(s, i) <= m then DigitsEnd(s, i) else m
    decreases m - i
  {
    if i < m {
      DigitsEndWindow(s, m, i + 1);
    }
  }

  /** Where the pattern stops in the first `m` octets of a number that goes on past them: at the last of its digits. */
  function LastMatch(s: Octets, m: nat): int
    requires 2 <= m <= |s|
  {
    if IsDigit(s[m - 1]) then m else if IsSign(s[m - 1]) then m - 2 else m - 1
  }

  /**
   * What the pattern matches of the first `m` octets of `s`: the longest number where it fits in them, and otherwise
   * all of them but a point, a mark or a mark and a sign they end in.
   */
  lemma WindowMatch(s: Octets, m: nat)
    requires m <= |s|
    ensures
      var w, n := NumberLength(s[..m]), NumberLength(s);
      (n <= m ==> w == n) &&
      (2 <= m < n ==> w == LastMatch(s, m) && 0 < w && (w < m ==> Dangling(s[w..])))
  {
    var t, n := s[..m], NumberLength(s);
    if NumberLength(t) > 0 {
      NumberLengthSound(t);
      assert t[..NumberLength(t)] == s[..NumberLength(t)];
      NumberLengthLongest(s, NumberLength(t));
    }
    if 0 < n <= m {
      NumberLengthSound(s);
      assert t[..n] == s[..n];
      NumberLengthLongest(t, n);
    }
    if 2 <= m < n {
      WindowCut(s, m);
    }
  }

  lemma WindowCut(s: Octets, m: nat)
    requires 2 <= m <= |s| && m < NumberLength(s)
    ensures
      var w := NumberLength(s[..m]);
      w == LastMatch(s, m) && 0 < w && (w < m ==> Dangling(s[w..]))
  {
    hide FractionEnd, ExponentEnd, IntEnd, DigitsEnd;
    var t := s[..m];
    var a := if s[0] == MINUS then 1 else 0;
    var b := IntEnd(s, a);
    var c := FractionEnd(s, b);
    PartsFound(s, a);
    PartsFound(s, b);
    PartsFound(s, c);
    IntWindow(s, m, a);
    NothingAtEnd(t);
    if b < m {
      FractionWindow(s, m, b);
      if c < m {
        ExponentWindow(s, m, c);
      }
    }
  }

  lemma NothingAtEnd(s: Octets)
    ensures FractionEnd(s, |s|) == |s| && ExponentEnd(s, |s|) == |s|
  {
  }

  lemma IntWindow(s: Octets, m: nat, i: nat)
    requires i < m <= |s|
    ensures IntEnd(s[..m], i) == if IntEnd(s, i) <= m then IntEnd(s, i) else m
  {
    DigitsEndWindow(s, m, i);
  }

  lemma FractionWindow(s: Octets, m: nat, i: nat)
    requires i < m <= |s|
    ensures
      var e := FractionEnd(s, i);
      FractionEnd(s[..m], i) == (if e <= m then e else if m == i + 1 then i else m) &&
      (m < e && m == i + 1 ==> ExponentEnd(s[..m], i) == i)
  {
    DigitsEndWindow(s, m, i + 1);
  }

  lemma ExponentWindow(s: Octets, m: nat, i: nat)
    requires i < m <= |s|
    ensures
      var e := ExponentEnd(s, i);
      ExponentEnd(s[..m], i) ==
      if e <= m then e else if m == i + 1 || (m == i + 2 && IsSign(s[i + 1])) then i else m
  {
    DigitsEndWindow(s, m, i + 1);
    if i + 1 < m {
      DigitsEndWindow(s, m, i + 2);
    }
  }

  lemma NumberOctets(s: Octets)
    requires IsNumber(s)
    ensures s != [] && (s[0] == MINUS || IsDigit(s[0]))
    ensures forall i | 0 <= i < |s| :: IsNumberOctet(s[i])
  {
    var a: nat, b: nat, c: nat :| NumberParts(s, a, b, c);
  }

  /** A number followed by no octet of a number is matched whole, whatever comes after it. */
  lemma NumberAlone(s: Octets, k: nat)
    requires k <= |s| && IsNumber(s[..k])
    requires k < |s| ==> !IsNumberOctet(s[k])
    ensures NumberLength(s) == k
  {
    NumberLengthLongest(s, k);
    var n := NumberLength(s);
    if n > 0 {
      NumberLengthSound(s);
      NumberOctets(s[..n]);
      assert forall i | 0 <= i < n :: s[i] == s[..n][i];
    }
  }
}

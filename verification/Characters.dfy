/** Which octets are UTF-8: just those that characters are written as, one after another. */
module Characters {
  import opened Octets
  import opened Utf8
  import opened Values

  /** A character in UTF-8, a lone surrogate like any other. */
  function Point8(c: nat): Octets
    requires c < 0x110000
  {
    if c < 0x80 then [c as octet]
    else if c < 0x800 then [(0xC0 + c / 64) as octet, (0x80 + c % 64) as octet]
    else if c < 0x10000 then [(0xE0 + c / 4096) as octet, (0x80 + c / 64 % 64) as octet, (0x80 + c % 64) as octet]
    else
      [(0xF0 + c / 262144) as octet, (0x80 + c / 4096 % 64) as octet, (0x80 + c / 64 % 64) as octet,
       (0x80 + c % 64) as octet]
  }

  function Chars8(chars: Chars): Octets {
    if chars == [] then []
    else (if chars[0] < 0x110000 then Point8(chars[0]) else []) + Chars8(chars[1..])
  }

  /** A code point, and with `pass` off one that is no surrogate. */
  predicate IsPoint(pass: bool, c: nat) {
    c < 0x110000 && (pass || !(IsHigh(c) || IsLow(c)))
  }

  predicate ArePoints(pass: bool, chars: Chars) {
    forall i | 0 <= i < |chars| :: IsPoint(pass, chars[i])
  }

  /** None of the characters is a surrogate. */
  predicate NoSurrogate(chars: Chars) {
    forall i | 0 <= i < |chars| :: !IsHigh(chars[i]) && !IsLow(chars[i])
  }

  // ----- The two decoders as one, `pass` telling whether surrogates are let through -----

  function Taken(pass: bool, s: State, c: octet): State {
    if pass then PassStep(s, c) else Step(s, c)
  }

  function After(pass: bool, s: State, d: Octets): State {
    if pass then PassRun(s, d) else Run(s, d)
  }

  lemma AfterTurn(pass: bool, s: State, d: Octets)
    ensures After(pass, s, d) == if d == [] then s else After(pass, Taken(pass, s, d[0]), d[1..])
  {
  }

  lemma {:induction false} AfterBad(pass: bool, d: Octets)
    ensures After(pass, Bad, d) == Bad
    decreases |d|
  {
    hide After;
    AfterTurn(pass, Bad, d);
    if d != [] {
      AfterBad(pass, d[1..]);
    }
  }

  predicate IsTail(c: octet) {
    0x80 <= c <= 0xBF
  }

  /** How many octets the sequence takes that starts with one. */
  function Width(lead: octet): nat {
    if lead < 0x80 then 1 else if lead < 0xE0 then 2 else if lead < 0xF0 then 3 else 4
  }

  /** The sequences of section 4 of RFC 3629, and with `pass` on those of the surrogates too. */
  predicate IsSequence(pass: bool, p: Octets) {
    p != [] && |p| == Width(p[0]) && (forall i | 1 <= i < |p| :: IsTail(p[i])) &&
    (p[0] < 0x80 || 0xC2 <= p[0] <= 0xF4) &&
    (p[0] == 0xE0 ==> p[1] >= 0xA0) && (p[0] == 0xED ==> pass || p[1] < 0xA0) &&
    (p[0] == 0xF0 ==> p[1] >= 0x90) && (p[0] == 0xF4 ==> p[1] < 0x90)
  }

  /** How many continuation octets are due. */
  function Due(s: State): nat {
    match s
    case Tail1 => 1
    case Tail2 => 2
    case Tail3 => 3
    case _ => 0
  }

  /** What is due is there, and after it the decoder stands where it started. */
  lemma {:induction false} Tails(pass: bool, s: State, d: Octets)
    requires s.Start? || s.Tail1? || s.Tail2? || s.Tail3?
    ensures
      After(pass, s, d) == Start <==>
      Due(s) <= |d| && (forall i | 0 <= i < Due(s) :: IsTail(d[i])) && After(pass, Start, d[Due(s)..]) == Start
    decreases |d|
  {
    hide After;
    AfterTurn(pass, s, d);
    if s.Start? {
      assert d[0..] == d;
    } else if d != [] {
      var rest := d[1..];
      if IsTail(d[0]) {
        Tails(pass, Taken(pass, s, d[0]), rest);
        assert Due(s) <= |d| ==> rest[Due(s) - 1..] == d[Due(s)..];
        assert forall i | 1 <= i < |d| :: d[i] == rest[i - 1];
      } else {
        AfterBad(pass, rest);
      }
    }
  }

  /** After a lead octet, and the next where it is restricted, continuation octets are due, or it has gone wrong. */
  lemma AfterLead(pass: bool, d: Octets)
    requires d != []
    ensures
      After(pass, Start, d) == Start <==>
      Width(d[0]) <= |d| && IsSequence(pass, d[..Width(d[0])]) && After(pass, Start, d[Width(d[0])..]) == Start
  {
    hide After;
    var n := Width(d[0]);
    var s := Taken(pass, Start, d[0]);
    AfterTurn(pass, Start, d);
    if s.Bad? {
      AfterBad(pass, d[1..]);
    } else if s.AfterE0? || s.AfterED? || s.AfterF0? || s.AfterF4? {
      AfterTurn(pass, s, d[1..]);
      if |d| > 1 {
        assert d[1..][1..] == d[2..];
        Restricted(pass, Taken(pass, s, d[1]), d, n);
      }
    } else {
      Unrestricted(pass, s, d, n);
    }
  }

  lemma Unrestricted(pass: bool, s: State, d: Octets, n: nat)
    requires d != [] && (s.Start? || s.Tail1? || s.Tail2? || s.Tail3?) && n == Due(s) + 1
    ensures
      After(pass, s, d[1..]) == Start <==>
      n <= |d| && (forall i | 1 <= i < n :: IsTail(d[i])) && After(pass, Start, d[n..]) == Start
  {
    hide After;
    var rest := d[1..];
    Tails(pass, s, rest);
    assert n <= |d| ==> rest[n - 1..] == d[n..];
    assert forall i | 1 <= i < |d| :: d[i] == rest[i - 1];
  }

  lemma Restricted(pass: bool, s: State, d: Octets, n: nat)
    requires |d| > 1 && (s.Bad? || ((s.Tail1? || s.Tail2?) && n == Due(s) + 2))
    ensures
      After(pass, s, d[2..]) == Start <==>
      !s.Bad? && n <= |d| && (forall i | 2 <= i < n :: IsTail(d[i])) && After(pass, Start, d[n..]) == Start
  {
    hide After;
    var rest := d[2..];
    if s.Bad? {
      AfterBad(pass, rest);
    } else {
      Tails(pass, s, rest);
      assert n <= |d| ==> rest[n - 2..] == d[n..];
      assert forall i | 2 <= i < |d| :: d[i] == rest[i - 2];
    }
  }

  // ----- Sequences are characters -----

  /** Four digits in base 64 and the number they make. */
  lemma Digits64(a: nat, b: nat, c: nat, e: nat)
    requires b < 64 && c < 64 && e < 64
    ensures
      var n := a * 262144 + b * 4096 + c * 64 + e;
      n / 262144 == a && n / 4096 == a * 64 + b && n / 4096 % 64 == b &&
      n / 64 == a * 4096 + b * 64 + c && n / 64 % 64 == c && n % 64 == e
  {
    var n := a * 262144 + b * 4096 + c * 64 + e;
    assert n / 64 == a * 4096 + b * 64 + c;
    assert n / 64 / 64 == a * 64 + b;
    assert n / 64 / 64 / 64 == a;
    assert n / 4096 == n / 64 / 64 && n / 262144 == n / 64 / 64 / 64;
  }

  lemma DigitsMake(n: nat)
    ensures n == n / 262144 * 262144 + n / 4096 % 64 * 4096 + n / 64 % 64 * 64 + n % 64
  {
    var a := n / 64;
    var b := a / 64;
    assert n / 4096 == b && n / 262144 == b / 64;
    assert n == a * 64 + n % 64 && a == b * 64 + a % 64 && b == b / 64 * 64 + b % 64;
  }

  /** The sequences of two, of three and of four octets, by the digits of the character. */
  lemma TwoOctets(pass: bool, a: nat, b: nat)
    requires 2 <= a < 32 && b < 64
    ensures
      var p := [(0xC0 + a) as octet, (0x80 + b) as octet];
      IsSequence(pass, p) && SequencePoint(p) == a * 64 + b && Point8(a * 64 + b) == p && IsPoint(pass, a * 64 + b)
  {
    Digits64(0, 0, a, b);
  }

  lemma ThreeOctets(a: nat, b: nat, c: nat)
    requires a < 16 && b < 64 && c < 64 && (a > 0 || b >= 32)
    ensures
      var p := [(0xE0 + a) as octet, (0x80 + b) as octet, (0x80 + c) as octet];
      var n := a * 4096 + b * 64 + c;
      0x800 <= n < 0x10000 && SequencePoint(p) == n && Point8(n) == p
  {
    Digits64(0, a, b, c);
  }

  lemma FourOctets(a: nat, b: nat, c: nat, e: nat)
    requires a < 5 && b < 64 && c < 64 && e < 64 && (a > 0 || b >= 16) && (a == 4 ==> b < 16)
    ensures
      var p := [(0xF0 + a) as octet, (0x80 + b) as octet, (0x80 + c) as octet, (0x80 + e) as octet];
      var n := a * 262144 + b * 4096 + c * 64 + e;
      0x10000 <= n < 0x110000 && SequencePoint(p) == n && Point8(n) == p
  {
    Digits64(a, b, c, e);
  }

  lemma PointIsSequence(pass: bool, c: nat)
    requires IsPoint(pass, c)
    ensures IsSequence(pass, Point8(c)) && SequencePoint(Point8(c)) == c
  {
    hide SequencePoint, Point8;
    DigitsMake(c);
    var high, third, second, last := c / 262144, c / 4096 % 64, c / 64 % 64, c % 64;
    if c < 0x80 {
      OneOctet(c);
    } else if c < 0x800 {
      TwoOctets(pass, second, last);
    } else if c < 0x10000 {
      ThreeOctets(third, second, last);
    } else {
      FourOctets(high, third, second, last);
    }
  }

  lemma OneOctet(c: nat)
    requires c < 0x80
    ensures SequencePoint([c as octet]) == c && Point8(c) == [c as octet]
  {
  }

  lemma SequenceIsPoint(pass: bool, p: Octets)
    requires IsSequence(pass, p)
    ensures IsPoint(pass, SequencePoint(p)) && Point8(SequencePoint(p)) == p
  {
    hide SequencePoint, Point8;
    var n := |p|;
    if n == 1 {
      OneOctet(p[0] as nat);
      assert p == [p[0]];
    } else if n == 2 {
      assert p == [p[0], p[1]];
      TwoOctets(pass, p[0] as nat - 0xC0, p[1] as nat - 0x80);
    } else if n == 3 {
      assert p == [p[0], p[1], p[2]];
      ThreeOctets(p[0] as nat - 0xE0, p[1] as nat - 0x80, p[2] as nat - 0x80);
    } else {
      assert p == [p[0], p[1], p[2], p[3]];
      FourOctets(p[0] as nat - 0xF0, p[1] as nat - 0x80, p[2] as nat - 0x80, p[3] as nat - 0x80);
    }
  }

  // ----- Octets that decode are characters written one after another -----

  lemma {:induction false} WrittenDecodes(pass: bool, chars: Chars)
    requires ArePoints(pass, chars)
    ensures After(pass, Start, Chars8(chars)) == Start
    decreases |chars|
  {
    hide After, IsSequence, Point8;
    AfterTurn(pass, Start, []);
    if chars != [] {
      var p, rest := Point8(chars[0]), Chars8(chars[1..]);
      var d := p + rest;
      WrittenDecodes(pass, chars[1..]);
      PointIsSequence(pass, chars[0]);
      WidthOf(pass, p);
      assert d[0] == p[0] && d[..|p|] == p && d[|p|..] == rest;
      AfterLead(pass, d);
    }
  }

  lemma WidthOf(pass: bool, p: Octets)
    requires IsSequence(pass, p)
    ensures p != [] && |p| == Width(p[0])
  {
  }

  /** The characters of octets that decode. */
  lemma {:induction false} CharactersOf(pass: bool, d: Octets) returns (chars: Chars)
    requires After(pass, Start, d) == Start
    ensures ArePoints(pass, chars) && Chars8(chars) == d
    decreases |d|
  {
    hide After, IsSequence, Point8;
    chars := [];
    if d != [] {
      var n := Width(d[0]);
      AfterLead(pass, d);
      SequenceIsPoint(pass, d[..n]);
      var rest := CharactersOf(pass, d[n..]);
      chars := [SequencePoint(d[..n])] + rest;
      assert chars[1..] == rest && d == d[..n] + d[n..];
    }
  }

  /** Octets are UTF-8 exactly where they are written out of characters none of which is a surrogate. */
  lemma Utf8Exactly(d: Octets)
    ensures IsUtf8(d) <==> exists chars :: IsText(chars) && NoSurrogate(chars) && Chars8(chars) == d
  {
    hide Run, Chars8;
    if IsUtf8(d) {
      var chars := CharactersOf(false, d);
      assert IsText(chars) && NoSurrogate(chars);
    }
    forall chars | IsText(chars) && NoSurrogate(chars) && Chars8(chars) == d
      ensures IsUtf8(d)
    {
      WrittenDecodes(false, chars);
    }
  }

  /** Octets decode with surrogates let through exactly where they are written out of characters, surrogates or not. */
  lemma DecodesExactly(d: Octets)
    ensures Decodes(d) <==> exists chars :: IsText(chars) && Chars8(chars) == d
  {
    hide PassRun, Chars8;
    if Decodes(d) {
      var chars := CharactersOf(true, d);
      assert IsText(chars);
    }
    forall chars | IsText(chars) && Chars8(chars) == d
      ensures Decodes(d)
    {
      WrittenDecodes(true, chars);
    }
  }

  // ----- A character as it is read -----

  lemma PointDecodes(c: nat)
    requires c < 0x110000
    ensures Decodes(Point8(c)) && 1 <= |Point8(c)| <= 4 && SequencePoint(Point8(c)) == c
  {
    hide PassRun;
    PointIsSequence(true, c);
    WrittenDecodes(true, [c]);
    assert Chars8([c]) == Point8(c);
  }

  /** The first octet of a character tells how many it takes. */
  lemma LeadLength(c: nat)
    requires c < 0x110000
    ensures
      var p := Point8(c);
      |p| == if p[0] < 0x80 then 1 else if p[0] < 0xE0 then 2 else if p[0] < 0xF0 then 3 else 4
    ensures c != 0x5C ==> Point8(c)[0] != BACKSLASH
  {
  }

  /** A character that is no quote, no reverse solidus and no control reads back, wherever it stands in a string. */
  lemma PointReads(c: nat, rest: Octets)
    requires 0x20 <= c < 0x110000 && c != 0x22 && c != 0x5C
    ensures Decoded(Point8(c) + rest) == [c] + Decoded(rest)
  {
    hide Decodes, SequencePoint;
    var p := Point8(c);
    var s := p + rest;
    PointDecodes(c);
    assert s[..|p|] == p && s[|p|..] == rest && s[0] == p[0];
    LeadLength(c);
    assert SequenceLength(s) == |p|;
  }
}

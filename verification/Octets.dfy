/** Octets, and the classes of octets that JSON text is made of (RFC 8259, sections 2 to 7). */
module Octets {
  newtype octet = n: int | 0 <= n < 256

  type Octets = seq<octet>

  const QUOTE: octet := 0x22
  const BACKSLASH: octet := 0x5C
  const SLASH: octet := 0x2F
  const COMMA: octet := 0x2C
  const COLON: octet := 0x3A
  const LBRACE: octet := 0x7B
  const RBRACE: octet := 0x7D
  const LBRACKET: octet := 0x5B
  const RBRACKET: octet := 0x5D
  const MINUS: octet := 0x2D
  const PLUS: octet := 0x2B
  const DOT: octet := 0x2E
  const ZERO: octet := 0x30
  const NINE: octet := 0x39
  const LOWER_E: octet := 0x65
  const UPPER_E: octet := 0x45
  const LOWER_U: octet := 0x75
  const SPACE: octet := 0x20

  const TRUE: Octets := [0x74, 0x72, 0x75, 0x65]
  const FALSE: Octets := [0x66, 0x61, 0x6C, 0x73, 0x65]
  const NULL: Octets := [0x6E, 0x75, 0x6C, 0x6C]

  predicate IsWs(c: octet) {
    c == SPACE || c == 0x09 || c == 0x0A || c == 0x0D
  }

  predicate AllWs(s: Octets) {
    forall i | 0 <= i < |s| :: IsWs(s[i])
  }

  predicate IsDigit(c: octet) {
    ZERO <= c <= NINE
  }

  predicate AllDigits(s: Octets) {
    forall i | 0 <= i < |s| :: IsDigit(s[i])
  }

  predicate IsHex(c: octet) {
    IsDigit(c) || 0x41 <= c <= 0x46 || 0x61 <= c <= 0x66
  }

  /** Four hexadecimal digits from `i` on. */
  predicate HexFour(s: Octets, i: nat) {
    i + 4 <= |s| && IsHex(s[i]) && IsHex(s[i + 1]) && IsHex(s[i + 2]) && IsHex(s[i + 3])
  }

  predicate IsExponentMark(c: octet) {
    c == LOWER_E || c == UPPER_E
  }

  predicate IsSign(c: octet) {
    c == MINUS || c == PLUS
  }

  /** The octets a number is written with. */
  predicate IsNumberOctet(c: octet) {
    IsDigit(c) || IsSign(c) || c == DOT || IsExponentMark(c)
  }

  predicate IsOpener(c: octet) {
    c == LBRACE || c == LBRACKET
  }

  function Closer(open: octet): octet {
    if open == LBRACE then RBRACE else RBRACKET
  }

  /** The eight octets that may follow a reverse solidus alone. */
  predicate IsShortEscape(c: octet) {
    c == QUOTE || c == BACKSLASH || c == SLASH || c == 0x62 || c == 0x66 || c == 0x6E || c == 0x72 || c == 0x74
  }

  /** `d[p..q]` is whitespace. */
  predicate WsRun(d: Octets, p: nat, q: nat) {
    p <= q <= |d| && forall i | p <= i < q :: IsWs(d[i])
  }

  /** The end of the run of whitespace that starts at `p`. */
  function WsEnd(d: Octets, p: nat): (q: nat)
    requires p <= |d|
    ensures WsRun(d, p, q)
    ensures q < |d| ==> !IsWs(d[q])
    decreases |d| - p
  {
    if p < |d| && IsWs(d[p]) then WsEnd(d, p + 1) else p
  }

  /** Any run of whitespace ended by another octet, or by the end, is the run `WsEnd` finds. */
  lemma {:induction false} WsEndUnique(d: Octets, p: nat, q: nat)
    requires WsRun(d, p, q)
    requires q < |d| ==> !IsWs(d[q])
    ensures WsEnd(d, p) == q
    decreases q - p
  {
    if p < q {
      WsEndUnique(d, p + 1, q);
    }
  }

  lemma SliceOfSlice(d: Octets, a: nat, b: nat, i: nat, j: nat)
    requires a <= b <= |d| && i <= j <= b - a
    ensures d[a..b][i..j] == d[a + i..a + j]
  {
    assert forall k | 0 <= k < j - i :: d[a..b][i..j][k] == d[a + i..a + j][k];
  }

  /** `s` is what `d` holds at `q`. */
  predicate Occurs(d: Octets, q: nat, s: Octets) {
    q + |s| <= |d| && d[q..q + |s|] == s
  }

  lemma OccursJoin(d: Octets, q: nat, a: Octets, b: Octets)
    ensures Occurs(d, q, a + b) <==> Occurs(d, q, a) && Occurs(d, q + |a|, b)
  {
    if q + |a| + |b| <= |d| {
      var m, e := q + |a|, q + |a| + |b|;
      assert d[q..e] == d[q..m] + d[m..e];
      if d[q..e] == a + b {
        assert d[q..e][..|a|] == d[q..m] && d[q..e][|a|..] == d[m..e];
        assert (a + b)[..|a|] == a && (a + b)[|a|..] == b;
      }
    }
  }

  lemma OccursOne(d: Octets, q: nat, c: octet)
    ensures Occurs(d, q, [c]) <==> q < |d| && d[q] == c
  {
    if q < |d| {
      assert d[q..q + 1] == [d[q]];
    }
  }

  lemma OccursSlice(d: Octets, p: nat, q: nat)
    requires p <= q <= |d|
    ensures Occurs(d, p, d[p..q])
  {
  }

  lemma OccursWs(d: Octets, p: nat, s: Octets)
    requires Occurs(d, p, s)
    ensures AllWs(s) <==> WsRun(d, p, p + |s|)
  {
    assert forall i | 0 <= i < |s| :: s[i] == d[p + i];
    assert forall i | p <= i < p + |s| :: d[i] == s[i - p];
  }
}

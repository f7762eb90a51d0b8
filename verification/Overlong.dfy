/**
 * A number longer than `MAX_STREAM_NUMBER`, matched in a buffer that ends inside it.
 *
 * The reader matches a number in the octets it has buffered: more than `MAX_STREAM_NUMBER` of them, or all that are
 * left. Where the pattern runs past the bound the number is refused. It can stop short of it for one reason alone: the
 * buffer ends in the point, the mark or the mark and sign that goes on past the bound. The number is then taken for its
 * start. Whether that can happen, and where it ends, is up to the number; whether it does is up to the buffer.
 */
module Overlong {
  import opened Octets
  import opened Numbers
  import opened Scanner

  /** Whether the number that starts `s` can be cut: it is past the bound, and the octet past the bound is no digit. */
  predicate CanCut(s: Octets) {
    NumberLength(s) > MAX_STREAM_NUMBER && !IsDigit(s[MAX_STREAM_NUMBER])
  }

  function CutLength(s: Octets): nat
    requires CanCut(s)
  {
    if IsSign(s[MAX_STREAM_NUMBER]) then MAX_STREAM_NUMBER - 1 else MAX_STREAM_NUMBER
  }

  /** Where a number at `p` that can be cut ends for the reader that cuts it. */
  function CutEnd(d: Octets, p: nat): (e: nat)
    requires p <= |d|
    ensures p <= e <= |d|
  {
    if CanCut(d[p..]) then p + CutLength(d[p..]) else p
  }

  /** Whether the number at `p` can be cut, and what is left of it can be built. */
  predicate Cuts(d: Octets, p: nat, builds: Octets -> bool) {
    p <= |d| && CanCut(d[p..]) && builds(d[p..CutEnd(d, p)])
  }

  /**
   * What a number past the bound at `p` is refused as: for itself, for its start where that cannot be built, or for
   * what follows its start where a comma or a closer is due.
   */
  predicate RefusedAs(d: Octets, p: nat, builds: Octets -> bool, why: Refusal) {
    why == NumberTooLong ||
    (p <= |d| && CanCut(d[p..]) && why == if Cuts(d, p, builds) then Misplaced(COMMA, CutEnd(d, p)) else Unbuildable)
  }

  /** How far a scan reads: where it reaches a number that can be cut, to the octet after the cut. */
  function Reach(d: Octets, s: Scan, builds: Octets -> bool): nat {
    if s.No? && s.why == NumberTooLong && Cuts(d, s.at, builds) then CutEnd(d, s.at) + 1 else s.at
  }

  lemma NumberEndsInDigit(s: Octets)
    requires IsNumber(s)
    ensures s != [] && IsDigit(s[|s| - 1])
  {
    var a: nat, b: nat, c: nat :| NumberParts(s, a, b, c);
  }

  lemma MatchEndsInDigit(s: Octets)
    requires NumberLength(s) > 0
    ensures IsDigit(s[NumberLength(s) - 1])
  {
    hide NumberLength;
    var n := NumberLength(s);
    NumberLengthSound(s);
    NumberEndsInDigit(s[..n]);
    assert s[..n][n - 1] == s[n - 1];
  }

  /**
   * With `m` octets in view, a number past the bound is cut exactly where the octet past the bound is none of its
   * digits and the view ends with that octet, or with the sign after it.
   */
  lemma CutExactly(s: Octets, m: nat)
    requires MAX_STREAM_NUMBER < m <= |s| && NumberLength(s) > MAX_STREAM_NUMBER
    ensures
      var w, seen := NumberLength(s[..m]), m - MAX_STREAM_NUMBER;
      (w <= MAX_STREAM_NUMBER <==> CanCut(s) && (seen == 1 || (seen == 2 && IsSign(s[m - 1])))) &&
      (w <= MAX_STREAM_NUMBER ==> w == CutLength(s) && Dangling(s[w..]))
  {
    hide NumberLength;
    WindowMatch(s, m);
    MatchEndsInDigit(s);
    if m < NumberLength(s) && IsSign(s[m - 1]) && m == MAX_STREAM_NUMBER + 2 {
      assert s[MAX_STREAM_NUMBER..][0] == s[MAX_STREAM_NUMBER];
    }
  }

  /** What is left of a number that was cut starts with a `.`, an `e` or an `E`. */
  lemma CutDangles(d: Octets, p: nat)
    requires p <= |d| && CanCut(d[p..])
    ensures p < CutEnd(d, p) < |d| && Dangling(d[CutEnd(d, p)..])
    ensures WsEnd(d, CutEnd(d, p)) == CutEnd(d, p) && Dangling([d[CutEnd(d, p)]])
  {
    hide NumberLength;
    var s, w := d[p..], CutLength(d[p..]);
    CutExactly(s, MAX_STREAM_NUMBER + 1);
    assert s[w..] == d[p + w..];
    assert s[w..][0] == d[p + w];
  }

  /** The start of a number that was cut is a number of its own. */
  lemma CutIsNumber(d: Octets, p: nat)
    requires p <= |d| && CanCut(d[p..])
    ensures IsNumber(d[p..CutEnd(d, p)]) && |d[p..CutEnd(d, p)]| <= MAX_STREAM_NUMBER
  {
    hide NumberLength, IsNumber;
    var s := d[p..];
    var t := s[..MAX_STREAM_NUMBER + 1];
    CutExactly(s, MAX_STREAM_NUMBER + 1);
    CutDangles(d, p);
    NumberLengthSound(t);
    assert t[..CutLength(s)] == d[p..CutEnd(d, p)];
  }

  function Ones(n: nat): (s: Octets)
    ensures |s| == n && forall i | 0 <= i < n :: s[i] == 0x31
  {
    seq(n, _ => 0x31)
  }

  /** It happens: of 1024 digits, a point and a digit, 1025 octets in view are taken for the 1024 digits. */
  lemma CutHappens()
    ensures
      var s := Ones(MAX_STREAM_NUMBER) + [DOT, 0x35];
      NumberLength(s) == MAX_STREAM_NUMBER + 2 && NumberLength(s[..MAX_STREAM_NUMBER + 1]) == MAX_STREAM_NUMBER
  {
    var n := MAX_STREAM_NUMBER;
    var s := Ones(n) + [DOT, 0x35];
    assert s[..n + 2] == s;
    assert NumberParts(s, 0, n, n + 2);
    NumberLengthLongest(s, n + 2);
    CutExactly(s, n + 1);
  }
}

/** Each refusal of a scan is true of the document at the place it names. */
module Refusals {
  import opened Octets
  import opened Numbers
  import opened Scanner

  /** At `i` there starts no literal, no number, no string and no container. */
  ghost predicate NoValueAt(d: Octets, i: nat) {
    i < |d| && d[i] != QUOTE && !IsOpener(d[i]) && !IsWs(d[i]) &&
    !(TRUE <= d[i..]) && !(FALSE <= d[i..]) && !(NULL <= d[i..]) &&
    forall e | i <= e <= |d| :: !IsNumber(d[i..e])
  }

  /** The number at `i`, in all its length. */
  ghost predicate NumberAt(d: Octets, i: nat, e: int) {
    i < e <= |d| && IsNumber(d[i..e]) && forall k | e < k <= |d| :: !IsNumber(d[i..k])
  }

  /** What a refusal says of the document. */
  ghost predicate Tells(d: Octets, s: Scan, builds: Octets -> bool)
    requires s.No?
  {
    match s.why
    case CutShort =>
      s.at == |d| ||
      (s.at < |d| && d[s.at] == BACKSLASH && (|d| < s.at + 2 || (d[s.at + 1] == LOWER_U && |d| < s.at + 6)))
    case Misplaced(c, i) => i < |d| && d[i] != c && !IsWs(d[i]) && i <= s.at <= i + 1
    case ControlCharacter => s.at < |d| && d[s.at] < SPACE
    case InvalidEscape =>
      s.at + 2 <= |d| && d[s.at] == BACKSLASH && !IsShortEscape(d[s.at + 1]) && d[s.at + 1] != LOWER_U
    case InvalidUnicodeEscape =>
      s.at + 6 <= |d| && d[s.at] == BACKSLASH && d[s.at + 1] == LOWER_U && !HexFour(d, s.at + 2)
    case NoValue => NoValueAt(d, s.at)
    case NumberTooLong => exists e :: NumberAt(d, s.at, e) && e - s.at > MAX_STREAM_NUMBER
    case Unbuildable => exists e :: NumberAt(d, s.at, e) && e - s.at <= MAX_STREAM_NUMBER && !builds(d[s.at..e])
    case TooDeep => s.at < |d| && IsOpener(d[s.at])
    case _ => false
  }

  /** An octet is expected where the next one stands that is no whitespace: found there, another there, or none. */
  lemma ExpectTells(d: Octets, p: nat, c: octet)
    requires p <= |d|
    ensures
      match ScanExpect(d, p, c)
      case Ok(e) => AllWs(d[p..e - 1]) && d[e - 1] == c
      case No(at, Misplaced(other, i)) => other == c && i == at < |d| && AllWs(d[p..i]) && !IsWs(d[i]) && d[i] != c
      case No(at, why) => why == CutShort && at == |d| && AllWs(d[p..])
  {
    var q := WsEnd(d, p);
    assert forall i | 0 <= i < q - p :: d[p..q][i] == d[p + i];
    assert q == |d| ==> d[p..] == d[p..q];
  }

  lemma EscapeTells(d: Octets, p: nat, builds: Octets -> bool)
    requires p < |d| && d[p] == BACKSLASH && ScanEscape(d, p).No?
    ensures Tells(d, ScanEscape(d, p), builds)
  {
  }

  lemma {:induction false} StringRestTells(d: Octets, p: nat, builds: Octets -> bool)
    requires p <= |d| && ScanStringRest(d, p).No?
    ensures Tells(d, ScanStringRest(d, p), builds)
    decreases |d| - p
  {
    hide ScanEscape;
    if p < |d| && d[p] == BACKSLASH {
      var e := ScanEscape(d, p);
      if e.No? {
        EscapeTells(d, p, builds);
      } else {
        StringRestTells(d, e.at, builds);
      }
    } else if p < |d| && d[p] != QUOTE && d[p] >= SPACE {
      StringRestTells(d, p + 1, builds);
    }
  }

  lemma StringTells(d: Octets, p: nat, builds: Octets -> bool)
    requires p <= |d| && ScanString(d, p).No?
    ensures Tells(d, ScanString(d, p), builds)
  {
    hide ScanStringRest;
    var b := ScanExpect(d, p, QUOTE);
    ExpectTells(d, p, QUOTE);
    if b.Ok? {
      StringRestTells(d, b.at, builds);
    }
  }

  lemma KeyTells(d: Octets, p: nat, open: octet, builds: Octets -> bool)
    requires p <= |d| && ScanKey(d, p, open).No?
    ensures Tells(d, ScanKey(d, p, open), builds)
  {
    hide ScanString;
    var e := ScanString(d, p);
    if e.No? {
      StringTells(d, p, builds);
    } else {
      ExpectTells(d, e.at, COLON);
    }
  }

  lemma NumberFound(d: Octets, i: nat)
    requires i <= |d|
    ensures
      var n := NumberLength(d[i..]);
      if n == 0 then forall e | i <= e <= |d| :: !IsNumber(d[i..e]) else NumberAt(d, i, i + n)
  {
    hide IsNumber, NumberLength;
    var s := d[i..];
    var n := NumberLength(s);
    if n > 0 {
      NumberLengthSound(s);
      assert s[..n] == d[i..i + n];
    }
    forall e | i <= e <= |d| && IsNumber(d[i..e])
      ensures 0 < e - i <= n
    {
      assert s[..e - i] == d[i..e];
      NumberLengthLongest(s, e - i);
      NumberNotEmpty(d[i..e]);
    }
  }

  lemma NumberNotEmpty(s: Octets)
    requires IsNumber(s)
    ensures s != []
  {
  }

  lemma ScalarTells(d: Octets, p: nat, builds: Octets -> bool)
    requires p < |d| && d[p] != QUOTE && !IsOpener(d[p]) && !IsWs(d[p]) && ScanScalar(d, p, builds).No?
    ensures Tells(d, ScanScalar(d, p, builds), builds)
  {
    hide IsNumber, NumberLength, NumberAt;
    NumberFound(d, p);
  }

  /** What a value is refused for is so, where it is said to be. */
  lemma {:induction false} ValueTells(d: Octets, p: nat, depth: nat, builds: Octets -> bool)
    requires p <= |d| && ScanValue(d, p, depth, builds).No?
    ensures Tells(d, ScanValue(d, p, depth, builds), builds)
    decreases |d| - p, 0
  {
    hide ScanString, ScanScalar, ScanElements, NoValueAt, NumberAt;
    var q := WsEnd(d, p);
    if q < |d| {
      if IsOpener(d[q]) {
        if depth > 0 {
          var r := WsEnd(d, q + 1);
          if r < |d| && d[r] != Closer(d[q]) {
            ElementsTell(d, q + 1, d[q], depth - 1, builds);
          }
        }
      } else if d[q] == QUOTE {
        StringTells(d, q, builds);
      } else {
        ScalarTells(d, q, builds);
      }
    }
  }

  lemma {:induction false} ElementsTell(d: Octets, p: nat, open: octet, depth: nat, builds: Octets -> bool)
    requires p <= |d| && ScanElements(d, p, open, depth, builds).No?
    ensures Tells(d, ScanElements(d, p, open, depth, builds), builds)
    decreases |d| - p, 1
  {
    hide ScanKey, ScanValue, NoValueAt, NumberAt;
    var v := ScanKey(d, p, open);
    if v.No? {
      KeyTells(d, p, open, builds);
    } else {
      var e := ScanValue(d, v.at, depth, builds);
      if e.No? {
        ValueTells(d, v.at, depth, builds);
      } else {
        var t := WsEnd(d, e.at);
        if t < |d| && d[t] == COMMA && d[t] != Closer(open) {
          ElementsTell(d, t + 1, open, depth, builds);
        }
      }
    }
  }
}

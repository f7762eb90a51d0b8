/** A JSON text is built in one way only, so the value it stands for is a function of its octets. */
module Unambiguity {
  import opened Octets
  import opened Numbers
  import opened Grammar
  import opened Scanner
  import opened Reader
  import opened ScannerProofs

  /** What a value starts with tells what kind of value it is. */
  lemma FirstOctet(d: Octets, q: nat, t: Tree, depth: nat, num: Octets -> bool)
    requires WellFormed(t, depth, num) && Occurs(d, q, Text(t))
    ensures q < |d| && !IsWs(d[q]) && d[q] != RBRACE && d[q] != RBRACKET
    ensures t.Num? <==> d[q] == MINUS || IsDigit(d[q])
    ensures t.Str? <==> d[q] == QUOTE
    ensures t.Empty? || t.Full? <==> IsOpener(d[q])
    ensures t.Empty? || t.Full? ==> d[q] == t.open
  {
    hide IsNumber, IsStringBody, AllWs, WellFormedElements, ElementsText;
    assert d[q..q + |Text(t)|] == Text(t);
    if t.Num? {
      NumberOctets(t.text);
    }
    assert Text(t) != [] && d[q] == Text(t)[0];
  }

  lemma ScalarUnique(d: Octets, q: nat, s: Tree, t: Tree, depth: nat, num: Octets -> bool)
    requires !s.Empty? && !s.Full?
    requires WellFormed(s, depth, num) && Occurs(d, q, Text(s)) && Delimited(d, q + |Text(s)|)
    requires WellFormed(t, depth, num) && Occurs(d, q, Text(t)) && Delimited(d, q + |Text(t)|)
    ensures s == t
  {
    hide IsNumber, IsString, NumberLength, LiteralLength, ScanString;
    FirstOctet(d, q, s, depth, num);
    FirstOctet(d, q, t, depth, num);
    var rest := d[q..];
    assert rest[..|Text(s)|] == Text(s) && rest[..|Text(t)|] == Text(t);
    if s.Num? {
      NumberAlone(rest, |s.text|);
      NumberAlone(rest, |t.text|);
    } else if s.Lit? {
      LiteralComplete(rest, s.text);
      LiteralComplete(rest, t.text);
    } else {
      WsEndHere(d, q);
      StringComplete(d, q, q, s.text);
      StringComplete(d, q, q, t.text);
    }
  }

  /** The key of an element, and where its value starts, are determined by the octets. */
  lemma KeyUnique(d: Octets, p: nat, k: Key, l: Key, open: octet)
    requires IsOpener(open) && WellFormedKey(k, open) && WellFormedKey(l, open)
    requires Occurs(d, p, KeyText(k)) && Occurs(d, p, KeyText(l))
    requires p + |KeyText(k)| < |d| && !IsWs(d[p + |KeyText(k)|])
    requires p + |KeyText(l)| < |d| && !IsWs(d[p + |KeyText(l)|])
    ensures k == l
  {
    hide ScanKey, IsString, WsRun;
    var v := KeyComplete(d, p, k, open);
    var w := KeyComplete(d, p, l, open);
    WsEndUnique(d, v, p + |KeyText(k)|);
    WsEndUnique(d, v, p + |KeyText(l)|);
    assert KeyText(k) == KeyText(l);
    if k.Named? {
      NamedUnique(d, p, k, l);
    }
  }

  lemma NamedUnique(d: Octets, p: nat, k: Key, l: Key)
    requires k.Named? && l.Named? && KeyText(k) == KeyText(l)
    requires WellFormedKey(k, LBRACE) && WellFormedKey(l, LBRACE)
    ensures k == l
  {
    hide WellFormedKey, KeyText, Occurs, ScanString, WsEnd;
    var s := KeyText(k);
    NamedPieces(k);
    NamedPieces(l);
    var i := |k.before| + |k.name|;
    OccursLength(s, 0, k.before, l.before);
    OccursLength(s, |k.before|, k.name, l.name);
    OccursLength(s, i, k.gap, l.gap);
    OccursLength(s, i + |k.gap| + 1, k.lead, l.lead);
  }

  /** Where the pieces of a named key are, found by reading its text. */
  lemma NamedPieces(k: Key)
    requires k.Named? && WellFormedKey(k, LBRACE)
    ensures
      var s := KeyText(k);
      var n, e := |k.before|, |k.before| + |k.name|;
      |s| == e + |k.gap| + 1 + |k.lead| &&
      WsEnd(s, 0) == n && ScanString(s, 0) == Ok(e) && WsEnd(s, e) == e + |k.gap| &&
      Occurs(s, 0, k.before) && Occurs(s, n, k.name) && Occurs(s, e, k.gap) && Occurs(s, e + |k.gap| + 1, k.lead)
  {
    hide IsString, ScanString, WsRun, AllWs, Occurs;
    var s := KeyText(k);
    var n := |k.before|;
    var e := n + |k.name|;
    WholeOccurs(s);
    OccursJoin(s, 0, k.before + k.name + k.gap + [COLON], k.lead);
    OccursJoin(s, 0, k.before + k.name + k.gap, [COLON]);
    OccursJoin(s, 0, k.before + k.name, k.gap);
    OccursJoin(s, 0, k.before, k.name);
    OccursOne(s, e + |k.gap|, COLON);
    OccursWs(s, 0, k.before);
    OccursWs(s, e, k.gap);
    StringComplete(s, 0, n, k.name);
    WsEndUnique(s, 0, n);
    WsEndUnique(s, e, e + |k.gap|);
  }

  lemma {:induction false} TreeUnique(d: Octets, q: nat, s: Tree, t: Tree, depth: nat, num: Octets -> bool)
    requires WellFormed(s, depth, num) && Occurs(d, q, Text(s)) && Delimited(d, q + |Text(s)|)
    requires WellFormed(t, depth, num) && Occurs(d, q, Text(t)) && Delimited(d, q + |Text(t)|)
    ensures s == t
    decreases s
  {
    hide Occurs, AllWs, WsRun, WsEnd, IsString, IsNumber, ElementsText, WellFormedElements;
    FirstOctet(d, q, s, depth, num);
    FirstOctet(d, q, t, depth, num);
    if !s.Empty? && !s.Full? {
      ScalarUnique(d, q, s, t, depth, num);
    } else {
      var inner := if s.Empty? then s.gap else ElementsText(s.elements);
      var other := if t.Empty? then t.gap else ElementsText(t.elements);
      BracketsOccur(d, q, s.open, inner, Closer(s.open));
      BracketsOccur(d, q, t.open, other, Closer(t.open));
      InnerStart(d, q + 1, s, depth, num);
      InnerStart(d, q + 1, t, depth, num);
      if s.Empty? {
        OccursLength(d, q + 1, s.gap, t.gap);
      } else {
        ElementsUnique(d, q + 1, s.elements, t.elements, s.open, depth - 1, num);
      }
    }
  }

  lemma OccursLength(d: Octets, q: nat, a: Octets, b: Octets)
    requires Occurs(d, q, a) && Occurs(d, q, b) && |a| == |b|
    ensures a == b
  {
  }

  /** After its opener and whitespace, a container has its closer just when it is empty. */
  lemma InnerStart(d: Octets, p: nat, t: Tree, depth: nat, num: Octets -> bool)
    requires t.Empty? || t.Full?
    requires WellFormed(t, depth, num)
    requires Occurs(d, p, if t.Empty? then t.gap else ElementsText(t.elements))
    requires t.Empty? ==> p + |t.gap| < |d| && d[p + |t.gap|] == Closer(t.open)
    ensures p <= |d| && WsEnd(d, p) < |d|
    ensures t.Empty? <==> d[WsEnd(d, p)] == Closer(t.open)
    ensures t.Empty? ==> WsEnd(d, p) == p + |t.gap|
  {
    hide Occurs, AllWs, WsRun, IsString, IsNumber;
    if t.Empty? {
      OccursWs(d, p, t.gap);
      WsEndUnique(d, p, p + |t.gap|);
    } else {
      ElementsStart(d, p, t.elements, t.open, depth - 1, num);
    }
  }

  lemma ElementsStart(d: Octets, p: nat, es: Elements, open: octet, depth: nat, num: Octets -> bool)
    requires IsOpener(open) && WellFormedElements(es, open, depth, num) && Occurs(d, p, ElementsText(es))
    ensures p <= |d| && WsEnd(d, p) < |d| && d[WsEnd(d, p)] != Closer(open)
  {
    hide Occurs, AllWs, WsRun, IsString, Text, ElementsText, ScanString;
    ElementsPieces(d, p, es);
    var q := p + |KeyText(es.key)|;
    FirstOctet(d, q, es.value, depth, num);
    var v := KeyComplete(d, p, es.key, open);
    if open == LBRACKET {
      WsEndUnique(d, p, q);
    } else {
      StringOpens(d, p);
    }
  }

  lemma StringOpens(d: Octets, p: nat)
    requires p <= |d| && ScanString(d, p).Ok?
    ensures WsEnd(d, p) < |d| && d[WsEnd(d, p)] == QUOTE
  {
  }

  lemma {:induction false} ElementsUnique(
      d: Octets, p: nat, a: Elements, b: Elements, open: octet, depth: nat, num: Octets -> bool)
    requires IsOpener(open)
    requires WellFormedElements(a, open, depth, num) && Occurs(d, p, ElementsText(a))
    requires WellFormedElements(b, open, depth, num) && Occurs(d, p, ElementsText(b))
    requires p + |ElementsText(a)| < |d| && d[p + |ElementsText(a)|] == Closer(open)
    requires p + |ElementsText(b)| < |d| && d[p + |ElementsText(b)|] == Closer(open)
    ensures a == b
    decreases a
  {
    hide Occurs, AllWs, WsRun, WsEnd, WellFormed, WellFormedKey, Text, KeyText, ElementsText;
    ElementsPieces(d, p, a);
    ElementsPieces(d, p, b);
    var q := p + |KeyText(a.key)|;
    FirstOctet(d, q, a.value, depth, num);
    FirstOctet(d, p + |KeyText(b.key)|, b.value, depth, num);
    KeyUnique(d, p, a.key, b.key, open);
    ElementsDelimited(d, q + |Text(a.value)|, a.after);
    ElementsDelimited(d, q + |Text(b.value)|, b.after);
    TreeUnique(d, q, a.value, b.value, depth, num);
    OccursLength(d, q + |Text(a.value)|, a.after, b.after);
    if a.More? {
      ElementsUnique(d, q + |Text(a.value)| + |a.after| + 1, a.rest, b.rest, open, depth, num);
    }
  }

  lemma ElementsDelimited(d: Octets, e: nat, after: Octets)
    requires AllWs(after) && Occurs(d, e, after)
    requires e + |after| < |d| && (d[e + |after|] == COMMA || d[e + |after|] == RBRACE || d[e + |after|] == RBRACKET)
    ensures Delimited(d, e)
    ensures WsEnd(d, e) == e + |after|
  {
    OccursWs(d, e, after);
    WsEndUnique(d, e, e + |after|);
  }

  /** A document has one syntax tree. */
  lemma DocumentUnique(d: Octets, s: Tree, t: Tree, depth: nat, num: Octets -> bool)
    requires IsDocument(d, s, depth, num) && IsDocument(d, t, depth, num)
    ensures s == t
  {
    hide WellFormed, Text, AllWs, WsRun, Occurs;
    var q := DocumentStart(d, s, depth, num);
    var r := DocumentStart(d, t, depth, num);
    TreeUnique(d, q, s, t, depth, num);
  }

  lemma DocumentStart(d: Octets, t: Tree, depth: nat, num: Octets -> bool) returns (q: nat)
    requires IsDocument(d, t, depth, num)
    ensures q == WsEnd(d, 0) && Occurs(d, q, Text(t)) && WsRun(d, q + |Text(t)|, |d|)
    ensures Delimited(d, q + |Text(t)|)
  {
    hide WellFormed, Text, WsEnd, WsRun, Occurs, AllWs, Delimited;
    var before: Octets, after: Octets :|
      AllWs(before) && AllWs(after) && d == before + Text(t) + after;
    q := |before|;
    Surrounded(before, Text(t), after);
    FirstOctet(d, q, t, depth, num);
    WsEndUnique(d, 0, q);
  }

  lemma Surrounded(before: Octets, s: Octets, after: Octets)
    requires AllWs(before) && AllWs(after)
    ensures
      var d := before + s + after;
      var q := |before|;
      WsRun(d, 0, q) && Occurs(d, q, s) && WsRun(d, q + |s|, |d|) && Delimited(d, q + |s|)
  {
    var d := before + s + after;
    WholeOccurs(d);
    OccursPlace(d, before, s, after);
  }

  /** The text of a tree that is well formed is read back as that tree. */
  lemma TextReads(t: Tree, depth: nat, builds: Octets -> bool)
    requires WellFormed(t, depth, Admitted(builds))
    ensures
      var s := Text(t);
      s != [] && WsEnd(s, 0) == 0 && ScanValue(s, 0, depth, builds) == Ok(|s|) && ReadTree(s, 0, depth, builds) == t
  {
    hide Admitted, WellFormed, ScanValue, ReadTree, WsRun, Text;
    var s := Text(t);
    WholeOccurs(s);
    FirstOctet(s, 0, t, depth, Admitted(builds));
    WsEndHere(s, 0);
    ValueComplete(s, 0, 0, t, depth, builds);
    ValueSound(s, 0, depth, builds);
    TreeUnique(s, 0, ReadTree(s, 0, depth, builds), t, depth, Admitted(builds));
  }

  /** A value read out of a document, taken alone, reads as the same value. */
  lemma ReadAlone(d: Octets, p: nat, depth: nat, builds: Octets -> bool)
    requires p <= |d| && ScanValue(d, p, depth, builds).Ok?
    ensures
      var q, e := WsEnd(d, p), ScanValue(d, p, depth, builds).at;
      q <= e <= |d| && ScanValue(d[q..e], 0, depth, builds) == Ok(e - q) &&
      ReadTree(d[q..e], 0, depth, builds) == ReadTree(d, p, depth, builds)
  {
    hide Admitted, WellFormed, ScanValue, ReadTree, WsRun, Text;
    var q, e := WsEnd(d, p), ScanValue(d, p, depth, builds).at;
    var t := ReadTree(d, p, depth, builds);
    ValueSound(d, p, depth, builds);
    assert d[q..e] == Text(t);
    TextReads(t, depth, builds);
  }
}

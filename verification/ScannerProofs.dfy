/** The scans of `Scanner` read exactly what the grammar of RFC 8259 writes: soundness, completeness, unambiguity. */
module ScannerProofs {
  import opened Octets
  import opened Numbers
  import opened Grammar
  import opened Scanner
  import opened Reader

  /** The numbers the reader admits: within its own bound, and ones the parser behind `call` can build. */
  function Admitted(builds: Octets -> bool): Octets -> bool {
    s => |s| <= MAX_STREAM_NUMBER && builds(s)
  }

  // ----- Strings -----

  lemma SameOctets(s: Octets, d: Octets, p: nat)
    requires Occurs(d, p, s)
    ensures forall k | 0 <= k < |s| :: s[k] == d[p + k]
  {
  }

  lemma {:induction false} StringRestSound(d: Octets, p: nat)
    requires p <= |d| && ScanStringRest(d, p).Ok?
    ensures var e := ScanStringRest(d, p).at; d[e - 1] == QUOTE && IsStringBody(d[p..e - 1])
    decreases |d| - p
  {
    var e := ScanStringRest(d, p).at;
    if d[p] != QUOTE {
      var n := if d[p] == BACKSLASH then ScanEscape(d, p).at else p + 1;
      StringRestSound(d, n);
      var s := d[p..e - 1];
      assert s[0] == d[p] && s[n - p..] == d[n..e - 1];
      if d[p] == BACKSLASH {
        SameOctets(s, d, p);
      }
    } else {
      assert d[p..e - 1] == [];
    }
  }

  lemma {:induction false} StringRestComplete(d: Octets, p: nat, e: nat)
    requires p < e <= |d|
    requires IsStringBody(d[p..e - 1]) && d[e - 1] == QUOTE
    ensures ScanStringRest(d, p) == Ok(e)
    decreases e - p
  {
    var s := d[p..e - 1];
    if s != [] {
      var n := CharacterLength(s);
      assert s[0] == d[p] && s[n..] == d[p + n..e - 1];
      if d[p] == BACKSLASH {
        SameOctets(s, d, p);
      }
      StringRestComplete(d, p + n, e);
    }
  }

  lemma StringSound(d: Octets, p: nat)
    requires p <= |d| && ScanString(d, p).Ok?
    ensures var q, e := WsEnd(d, p), ScanString(d, p).at; q < e && IsString(d[q..e])
  {
    var q, e := WsEnd(d, p), ScanString(d, p).at;
    StringRestSound(d, q + 1);
    SliceOfSlice(d, q, e, 1, e - q - 1);
  }

  lemma StringComplete(d: Octets, p: nat, q: nat, s: Octets)
    requires WsRun(d, p, q) && Occurs(d, q, s) && IsString(s)
    ensures ScanString(d, p) == Ok(q + |s|) && q < |d| && d[q] == QUOTE
  {
    var e := q + |s|;
    assert d[q] == d[q..e][0] && d[e - 1] == d[q..e][|s| - 1];
    WsEndUnique(d, p, q);
    SliceOfSlice(d, q, e, 1, e - q - 1);
    StringRestComplete(d, q + 1, e);
  }

  // ----- Soundness -----

  lemma ScalarSound(d: Octets, q: nat, depth: nat, builds: Octets -> bool)
    requires q <= |d| && ScanScalar(d, q, builds).Ok?
    ensures
      var e := ScanScalar(d, q, builds).at;
      var t := ReadScalar(d, q, e);
      WellFormed(t, depth, Admitted(builds)) && Text(t) == d[q..e]
  {
    var e := ScanScalar(d, q, builds).at;
    var s := d[q..];
    assert d[q..e] == s[..e - q];
    if LiteralLength(s) == 0 {
      NumberLengthSound(s);
    }
  }

  lemma NameSound(d: Octets, p: nat, v: nat)
    requires p <= |d| && ScanMemberName(d, p) == Ok(v)
    ensures
      var n, e := WsEnd(d, p), ScanString(d, p).at;
      WsRun(d, p, n) && n < e && IsString(d[n..e]) && e < v <= |d| && WsRun(d, e, v - 1) && d[v - 1] == COLON
  {
    hide IsString, ScanString, ScanExpect, WsRun;
    StringSound(d, p);
    ExpectSound(d, ScanString(d, p).at, COLON);
  }

  lemma ExpectSound(d: Octets, p: nat, c: octet)
    requires p <= |d| && ScanExpect(d, p, c).Ok?
    ensures var e := ScanExpect(d, p, c).at; p < e <= |d| && WsRun(d, p, e - 1) && d[e - 1] == c
  {
  }

  lemma KeySound(d: Octets, p: nat, open: octet, v: nat, q: nat)
    requires p <= v <= q <= |d| && IsOpener(open) && ScanKey(d, p, open) == Ok(v)
    requires WsRun(d, v, q)
    ensures
      var k := ReadKey(d, p, open, q);
      WellFormedKey(k, open) && Occurs(d, p, KeyText(k)) && p + |KeyText(k)| == q
  {
    hide Occurs, IsString, ScanString, ScanExpect, WsEnd;
    if open == LBRACE {
      var n, e := WsEnd(d, p), ScanString(d, p).at;
      NameSound(d, p, v);
      NamedText(d, p, n, e, v - 1, q);
    } else {
      OccursSlice(d, p, q);
    }
  }

  lemma NamedText(d: Octets, p: nat, n: nat, e: nat, c: nat, q: nat)
    requires p <= n <= e <= c < q <= |d| && d[c] == COLON
    ensures Occurs(d, p, d[p..n] + d[n..e] + d[e..c] + [COLON] + d[c + 1..q])
  {
    hide Occurs;
    OccursSlice(d, p, n);
    OccursSlice(d, n, e);
    OccursSlice(d, e, c);
    OccursOne(d, c, COLON);
    OccursSlice(d, c + 1, q);
    OccursJoin(d, p, d[p..n], d[n..e]);
    OccursJoin(d, p, d[p..n] + d[n..e], d[e..c]);
    OccursJoin(d, p, d[p..n] + d[n..e] + d[e..c], [COLON]);
    OccursJoin(d, p, d[p..n] + d[n..e] + d[e..c] + [COLON], d[c + 1..q]);
  }

  lemma BracketsOccur(d: Octets, q: nat, open: octet, inner: Octets, close: octet)
    ensures Occurs(d, q, [open] + inner + [close]) <==>
            q + |inner| + 1 < |d| && d[q] == open && Occurs(d, q + 1, inner) && d[q + |inner| + 1] == close
  {
    OccursJoin(d, q, [open] + inner, [close]);
    OccursJoin(d, q, [open], inner);
    OccursOne(d, q, open);
    OccursOne(d, q + |inner| + 1, close);
  }

  /** What a value that is read can be: an empty container, a filled one, a string or a scalar. */
  lemma ValueOk(d: Octets, p: nat, depth: nat, builds: Octets -> bool) returns (q: nat, e: nat)
    requires p <= |d| && ScanValue(d, p, depth, builds).Ok?
    ensures q == WsEnd(d, p) && p <= q < e <= |d| && ScanValue(d, p, depth, builds) == Ok(e)
    ensures
      var t := ReadTree(d, p, depth, builds);
      if IsOpener(d[q]) then
        depth > 0 && q + 1 < e &&
        ((t == Empty(d[q], d[q + 1..e - 1]) && d[e - 1] == Closer(d[q]) && WsRun(d, q + 1, e - 1)) ||
         (ScanElements(d, q + 1, d[q], depth - 1, builds) == Ok(e) &&
          t == Full(d[q], ReadElements(d, q + 1, d[q], depth - 1, builds))))
      else if d[q] == QUOTE then ScanString(d, q) == Ok(e) && t == Str(d[q..e])
      else ScanScalar(d, q, builds) == Ok(e) && t == ReadScalar(d, q, e)
  {
    hide ScanElements, ScanScalar, ScanString, ReadElements, ReadScalar;
    q := WsEnd(d, p);
    e := ScanValue(d, p, depth, builds).at;
  }

  lemma {:induction false} ValueSound(d: Octets, p: nat, depth: nat, builds: Octets -> bool)
    requires p <= |d| && ScanValue(d, p, depth, builds).Ok?
    ensures
      var t := ReadTree(d, p, depth, builds);
      WellFormed(t, depth, Admitted(builds)) && Occurs(d, WsEnd(d, p), Text(t)) &&
      WsEnd(d, p) + |Text(t)| == ScanValue(d, p, depth, builds).at
    decreases |d| - p, 0
  {
    hide Occurs, Admitted, WsEnd, IsString, WsRun, AllWs, ScanValue, ScanElements, ScanScalar, ScanString,
      ReadElements, ReadScalar, ReadTree;
    var q, e := ValueOk(d, p, depth, builds);
    OccursSlice(d, q, e);
    if IsOpener(d[q]) {
      var t := ReadTree(d, p, depth, builds);
      if t.Full? {
        ElementsSound(d, q + 1, d[q], depth - 1, builds);
        BracketsOccur(d, q, d[q], ElementsText(t.elements), d[e - 1]);
      } else {
        OccursSlice(d, q + 1, e - 1);
        OccursWs(d, q + 1, d[q + 1..e - 1]);
        BracketsOccur(d, q, d[q], d[q + 1..e - 1], d[e - 1]);
      }
    } else if d[q] == QUOTE {
      StringSound(d, q);
      WsEndHere(d, q);
    } else {
      ScalarSound(d, q, depth, builds);
    }
  }

  lemma WsEndHere(d: Octets, q: nat)
    requires q < |d| && !IsWs(d[q])
    ensures WsEnd(d, q) == q
  {
  }

  /** The pieces of an element: its key, its value, and the comma or the closer after it. */
  lemma ElementsOk(d: Octets, p: nat, open: octet, depth: nat, builds: Octets -> bool)
    returns (v: nat, q: nat, e: nat, t: nat)
    requires p <= |d| && ScanElements(d, p, open, depth, builds).Ok?
    ensures ScanKey(d, p, open) == Ok(v) && p <= v <= |d| && q == WsEnd(d, v) && v <= q < e <= t < |d|
    ensures ScanValue(d, v, depth, builds) == Ok(e) && WsRun(d, v, q) && t == WsEnd(d, e) && WsRun(d, e, t)
    ensures
      var s := ScanElements(d, p, open, depth, builds);
      if d[t] == Closer(open) then s == Ok(t + 1)
      else d[t] == COMMA && s == ScanElements(d, t + 1, open, depth, builds)
  {
    hide ScanKey, ScanScalar, ScanString;
    v := ScanKey(d, p, open).at;
    q := WsEnd(d, v);
    e := ScanValue(d, v, depth, builds).at;
    t := WsEnd(d, e);
  }

  lemma ElementsRead(d: Octets, p: nat, open: octet, depth: nat, builds: Octets -> bool, v: nat, e: nat)
    requires p <= v < e <= |d| && ScanKey(d, p, open) == Ok(v) && ScanValue(d, v, depth, builds) == Ok(e)
    requires WsEnd(d, e) < |d|
    ensures
      var es, q, t := ReadElements(d, p, open, depth, builds), WsEnd(d, v), WsEnd(d, e);
      es.key == ReadKey(d, p, open, q) && es.value == ReadTree(d, v, depth, builds) && es.after == d[e..t] &&
      if d[t] == COMMA then es.More? && es.rest == ReadElements(d, t + 1, open, depth, builds) else es.Last?
  {
    hide ScanKey, ScanValue, ReadKey, ReadTree;
  }

  lemma {:induction false} ElementsSound(d: Octets, p: nat, open: octet, depth: nat, builds: Octets -> bool)
    requires p <= |d| && IsOpener(open) && ScanElements(d, p, open, depth, builds).Ok?
    ensures
      var es := ReadElements(d, p, open, depth, builds);
      var e := ScanElements(d, p, open, depth, builds).at;
      WellFormedElements(es, open, depth, Admitted(builds)) && Occurs(d, p, ElementsText(es)) &&
      p + |ElementsText(es)| == e - 1 && d[e - 1] == Closer(open)
    decreases |d| - p, 1
  {
    hide Occurs, WsRun, WsEnd, Admitted, WellFormed, WellFormedKey, AllWs, Text, KeyText, ScanKey, ScanValue,
      ScanElements, ReadKey, ReadTree, ReadElements;
    var v, q, e, t := ElementsOk(d, p, open, depth, builds);
    ElementsRead(d, p, open, depth, builds, v, e);
    var es := ReadElements(d, p, open, depth, builds);
    KeySound(d, p, open, v, q);
    ValueSound(d, v, depth, builds);
    OccursSlice(d, e, t);
    OccursWs(d, e, d[e..t]);
    var here := KeyText(es.key) + Text(es.value) + es.after;
    OccursJoin(d, p, KeyText(es.key), Text(es.value));
    OccursJoin(d, p, KeyText(es.key) + Text(es.value), es.after);
    if es.More? {
      ElementsSound(d, t + 1, open, depth, builds);
      OccursOne(d, t, COMMA);
      OccursJoin(d, p, here, [COMMA]);
      OccursJoin(d, p, here + [COMMA], ElementsText(es.rest));
    }
  }

  // ----- Completeness -----

  /** What may stand after a value: nothing an octet of a number could be taken for. */
  predicate Delimited(d: Octets, e: nat)
    requires e <= |d|
  {
    e < |d| ==> !IsNumberOctet(d[e])
  }

  lemma LiteralComplete(s: Octets, t: Octets)
    requires t == TRUE || t == FALSE || t == NULL
    requires t <= s
    ensures LiteralLength(s) == |t|
    ensures !IsWs(s[0]) && !IsOpener(s[0]) && s[0] != QUOTE
  {
  }

  lemma ScalarComplete(d: Octets, q: nat, t: Tree, depth: nat, builds: Octets -> bool)
    requires t.Num? || t.Lit?
    requires WellFormed(t, depth, Admitted(builds)) && Occurs(d, q, Text(t))
    requires Delimited(d, q + |Text(t)|)
    ensures ScanScalar(d, q, builds) == Ok(q + |Text(t)|)
    ensures q < |d| && !IsWs(d[q]) && !IsOpener(d[q]) && d[q] != QUOTE
  {
    hide IsNumber, NumberLength, LiteralLength;
    var s := d[q..];
    var n := |t.text|;
    assert s[..n] == t.text == d[q..q + n];
    if t.Num? {
      NumberOctets(t.text);
      NumberAlone(s, n);
      assert s[0] == t.text[0];
      NoLiteral(s);
    } else {
      LiteralComplete(s, t.text);
    }
  }

  lemma NoLiteral(s: Octets)
    requires s != [] && (s[0] == MINUS || IsDigit(s[0]))
    ensures LiteralLength(s) == 0
  {
  }

  lemma KeyComplete(d: Octets, p: nat, k: Key, open: octet) returns (v: nat)
    requires WellFormedKey(k, open) && IsOpener(open) && Occurs(d, p, KeyText(k))
    ensures ScanKey(d, p, open) == Ok(v) && WsRun(d, v, p + |KeyText(k)|)
    ensures k.Named? ==>
              ScanString(d, p) == Ok(p + |k.before| + |k.name|) && Occurs(d, p, k.before) &&
              Occurs(d, p + |k.before|, k.name)
  {
    hide IsString, Occurs, AllWs, WsRun, ScanString;
    match k
    case Unnamed(lead) =>
      v := p;
      OccursWs(d, p, lead);
    case Named(before, name, gap, lead) =>
      var n := p + |before|;
      var e := n + |name|;
      var c := e + |gap|;
      v := c + 1;
      OccursJoin(d, p, before + name + gap + [COLON], lead);
      OccursJoin(d, p, before + name + gap, [COLON]);
      OccursJoin(d, p, before + name, gap);
      OccursJoin(d, p, before, name);
      OccursOne(d, c, COLON);
      OccursWs(d, p, before);
      OccursWs(d, e, gap);
      OccursWs(d, v, lead);
      StringComplete(d, p, n, name);
      WsEndUnique(d, e, c);
  }

  lemma {:induction false} ValueComplete(d: Octets, p: nat, q: nat, t: Tree, depth: nat, builds: Octets -> bool)
    requires WellFormed(t, depth, Admitted(builds)) && WsRun(d, p, q) && Occurs(d, q, Text(t))
    requires Delimited(d, q + |Text(t)|)
    ensures ScanValue(d, p, depth, builds) == Ok(q + |Text(t)|)
    decreases t
  {
    hide Admitted, Occurs, AllWs, WsRun, IsString, ScanElements, ScanString, ScanScalar;
    match t
    case Num(_) =>
      ScalarComplete(d, q, t, depth, builds);
      WsEndUnique(d, p, q);
    case Lit(_) =>
      ScalarComplete(d, q, t, depth, builds);
      WsEndUnique(d, p, q);
    case Str(text) =>
      StringComplete(d, p, q, text);
      WsEndUnique(d, p, q);
      WsEndHere(d, q);
      StringComplete(d, q, q, text);
    case Empty(open, gap) =>
      BracketsOccur(d, q, open, gap, Closer(open));
      OccursWs(d, q + 1, gap);
      WsEndUnique(d, p, q);
      WsEndUnique(d, q + 1, q + 1 + |gap|);
    case Full(open, es) =>
      BracketsOccur(d, q, open, ElementsText(es), Closer(open));
      WsEndUnique(d, p, q);
      ElementsComplete(d, q + 1, es, open, depth - 1, builds);
  }

  lemma ElementsPieces(d: Octets, p: nat, es: Elements)
    requires Occurs(d, p, ElementsText(es))
    ensures
      var q := p + |KeyText(es.key)|;
      var e := q + |Text(es.value)|;
      var t := e + |es.after|;
      Occurs(d, p, KeyText(es.key)) && Occurs(d, q, Text(es.value)) && Occurs(d, e, es.after) && t <= |d| &&
      p + |ElementsText(es)| == (if es.Last? then t else t + 1 + |ElementsText(es.rest)|) &&
      (es.More? ==> t < |d| && d[t] == COMMA && Occurs(d, t + 1, ElementsText(es.rest)))
  {
    hide Text, KeyText;
    var here := KeyText(es.key) + Text(es.value) + es.after;
    if es.More? {
      OccursJoin(d, p, here + [COMMA], ElementsText(es.rest));
      OccursJoin(d, p, here, [COMMA]);
      OccursOne(d, p + |here|, COMMA);
    }
    OccursJoin(d, p, KeyText(es.key) + Text(es.value), es.after);
    OccursJoin(d, p, KeyText(es.key), Text(es.value));
  }

  lemma {:induction false} ElementsComplete(
      d: Octets, p: nat, es: Elements, open: octet, depth: nat, builds: Octets -> bool)
    requires IsOpener(open) && WellFormedElements(es, open, depth, Admitted(builds))
    requires Occurs(d, p, ElementsText(es))
    requires p + |ElementsText(es)| < |d| && d[p + |ElementsText(es)|] == Closer(open)
    ensures ScanElements(d, p, open, depth, builds) == Ok(p + |ElementsText(es)| + 1)
    ensures WsEnd(d, p) < |d| && d[WsEnd(d, p)] != Closer(open)
    decreases es
  {
    hide Admitted, WellFormed, Occurs, AllWs, WsRun, WsEnd, WellFormedKey, KeyText, Text, ElementsText, ScanKey,
      ScanValue, ScanElements;
    ElementsPieces(d, p, es);
    var q := p + |KeyText(es.key)|;
    var e := q + |Text(es.value)|;
    var t := e + |es.after|;
    if es.More? {
      ElementsComplete(d, t + 1, es.rest, open, depth, builds);
    }
    OccursWs(d, e, es.after);
    WsEndUnique(d, e, t);
    WsDelimits(d, e, t);
    var v := KeyComplete(d, p, es.key, open);
    ValueComplete(d, v, q, es.value, depth, builds);
    KeyStart(d, p, open, v, depth, builds);
    ElementsAre(d, p, open, depth, builds, v, e);
  }

  lemma ElementsAre(d: Octets, p: nat, open: octet, depth: nat, builds: Octets -> bool, v: nat, e: nat)
    requires p <= v <= e <= |d| && ScanKey(d, p, open) == Ok(v) && ScanValue(d, v, depth, builds) == Ok(e)
    requires WsEnd(d, e) < |d|
    ensures
      var s, t := ScanElements(d, p, open, depth, builds), WsEnd(d, e);
      if d[t] == Closer(open) then s == Ok(t + 1)
      else d[t] == COMMA ==> s == ScanElements(d, t + 1, open, depth, builds)
  {
    hide ScanKey, ScanValue;
  }

  lemma WsDelimits(d: Octets, e: nat, t: nat)
    requires WsRun(d, e, t) && Delimited(d, t)
    ensures Delimited(d, e)
  {
  }

  /** An element does not start with what would close its container. */
  lemma KeyStart(d: Octets, p: nat, open: octet, v: nat, depth: nat, builds: Octets -> bool)
    requires p <= v <= |d| && IsOpener(open)
    requires ScanKey(d, p, open) == Ok(v) && ScanValue(d, v, depth, builds).Ok?
    ensures WsEnd(d, p) < |d| && d[WsEnd(d, p)] != Closer(open)
  {
    var q := WsEnd(d, p);
    if open == LBRACKET {
      var s := d[q..];
      assert s[0] == d[q];
      assert s[0] == RBRACKET ==> LiteralLength(s) == 0;
    }
  }

  // ----- Whole documents -----

  /** `skip` then `end` accept a document exactly when the grammar writes it, within the bounds of the reader. */
  lemma DocumentIsGrammar(d: Octets, builds: Octets -> bool)
    ensures ScanDocument(d, builds).Ok? <==> exists t :: IsDocument(d, t, MAX_STREAM_DEPTH, Admitted(builds))
  {
    if ScanDocument(d, builds).Ok? {
      ValueSound(d, 0, MAX_STREAM_DEPTH, builds);
      var t := ReadTree(d, 0, MAX_STREAM_DEPTH, builds);
      DocumentText(d, t, WsEnd(d, 0), ScanValue(d, 0, MAX_STREAM_DEPTH, builds).at);
      assert IsDocument(d, t, MAX_STREAM_DEPTH, Admitted(builds));
    }
    if t :| IsDocument(d, t, MAX_STREAM_DEPTH, Admitted(builds)) {
      var q := DocumentPlace(d, t, MAX_STREAM_DEPTH, builds);
    }
  }

  lemma DocumentText(d: Octets, t: Tree, q: nat, e: nat)
    requires WsRun(d, 0, q) && WsRun(d, e, |d|) && Occurs(d, q, Text(t)) && e == q + |Text(t)|
    ensures AllWs(d[..q]) && AllWs(d[e..]) && d == d[..q] + Text(t) + d[e..]
  {
    assert d == d[..q] + d[q..e] + d[e..];
  }

  /** The one value of a document is read wherever the reader's depth bound admits it. */
  lemma DocumentPlace(d: Octets, t: Tree, depth: nat, builds: Octets -> bool) returns (q: nat)
    requires IsDocument(d, t, depth, Admitted(builds))
    ensures WsRun(d, 0, q) && Occurs(d, q, Text(t)) && WsRun(d, q + |Text(t)|, |d|)
    ensures ScanValue(d, 0, depth, builds) == Ok(q + |Text(t)|)
    ensures ScanEnd(d, q + |Text(t)|).Ok?
  {
    hide Admitted, WellFormed, Text, AllWs, WsRun, Occurs, ScanValue;
    var before: Octets, after: Octets :|
      AllWs(before) && AllWs(after) && d == before + Text(t) + after;
    q := |before|;
    WholeOccurs(d);
    OccursPlace(d, before, Text(t), after);
    EndsInWs(d, q + |Text(t)|);
    ValueComplete(d, 0, q, t, depth, builds);
  }

  lemma WholeOccurs(d: Octets)
    ensures Occurs(d, 0, d)
  {
  }

  lemma EndsInWs(d: Octets, e: nat)
    requires WsRun(d, e, |d|)
    ensures ScanEnd(d, e).Ok? && Delimited(d, e)
  {
    WsEndUnique(d, e, |d|);
  }

  lemma OccursPlace(d: Octets, a: Octets, s: Octets, b: Octets)
    requires Occurs(d, 0, a + s + b) && AllWs(a) && AllWs(b)
    ensures WsRun(d, 0, |a|) && Occurs(d, |a|, s) && WsRun(d, |a| + |s|, |a| + |s| + |b|)
    ensures |a| + |s| < |a| + |s| + |b| ==> IsWs(d[|a| + |s|])
  {
    OccursJoin(d, 0, a + s, b);
    OccursJoin(d, 0, a, s);
    OccursWs(d, 0, a);
    OccursWs(d, |a| + |s|, b);
  }
}

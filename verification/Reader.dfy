/** The syntax tree of a value that scans: what a parser given the whole text would build. */
module Reader {
  import opened Octets
  import opened Grammar
  import opened Scanner

  function ReadScalar(d: Octets, q: nat, e: nat): (t: Tree)
    requires q <= e <= |d|
    ensures t.Lit? || t.Num?
  {
    if LiteralLength(d[q..]) > 0 then Lit(d[q..e]) else Num(d[q..e])
  }

  /** The key from `p` of an element whose value starts at `q`. */
  function ReadKey(d: Octets, p: nat, open: octet, q: nat): Key
    requires p <= q <= |d|
  {
    var n, e, v := WsEnd(d, p), ScanString(d, p).at, ScanKey(d, p, open).at;
    if open == LBRACE && n <= e < v <= q then Named(d[p..n], d[n..e], d[e..v - 1], d[v..q])
    else Unnamed(d[p..q])
  }

  const NO_TREE := Lit([])

  /** The tree of the value from `p`, where there is one. */
  function ReadTree(d: Octets, p: nat, depth: nat, builds: Octets -> bool): Tree
    requires p <= |d|
    decreases |d| - p, 0
  {
    var q := WsEnd(d, p);
    var s := ScanValue(d, p, depth, builds);
    if s.No? || q >= s.at then NO_TREE
    else if IsOpener(d[q]) then
      var r := WsEnd(d, q + 1);
      if depth == 0 || (r < |d| && d[r] == Closer(d[q])) then Empty(d[q], d[q + 1..r])
      else Full(d[q], ReadElements(d, q + 1, d[q], depth - 1, builds))
    else if d[q] == QUOTE then Str(d[q..s.at])
    else ReadScalar(d, q, s.at)
  }

  function ReadElements(d: Octets, p: nat, open: octet, depth: nat, builds: Octets -> bool): Elements
    requires p <= |d|
    decreases |d| - p, 1
  {
    var v := ScanKey(d, p, open).at;
    var q := WsEnd(d, v);
    var e := ScanValue(d, v, depth, builds).at;
    var t := WsEnd(d, e);
    var key := ReadKey(d, p, open, q);
    var value := ReadTree(d, v, depth, builds);
    if t < |d| && d[t] == COMMA then More(key, value, d[e..t], ReadElements(d, t + 1, open, depth, builds))
    else Last(key, value, d[e..t])
  }
}

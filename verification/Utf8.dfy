/**
 * The incremental UTF-8 decoder a stream runs over its chunks, as the automaton of section 4 of RFC 3629, and the
 * decoder behind `json.loads`, which lets lone surrogates through.
 *
 * Only whether the octets decode is kept here: the stream discards what its decoder answers.
 */
module Utf8 {
  import opened Octets

  /** How many continuation octets are still due, where the first of them is restricted, by the lead octet. */
  datatype State =
    | Start
    | Tail1
    | Tail2
    | Tail3
    | AfterE0
    | AfterED
    | AfterF0
    | AfterF4
    | Bad

  function Step(s: State, c: octet): State {
    match s
    case Start =>
      if c < 0x80 then Start
      else if c < 0xC2 then Bad
      else if c < 0xE0 then Tail1
      else if c == 0xE0 then AfterE0
      else if c == 0xED then AfterED
      else if c < 0xF0 then Tail2
      else if c == 0xF0 then AfterF0
      else if c < 0xF4 then Tail3
      else if c == 0xF4 then AfterF4
      else Bad
    case Tail1 => if 0x80 <= c <= 0xBF then Start else Bad
    case Tail2 => if 0x80 <= c <= 0xBF then Tail1 else Bad
    case Tail3 => if 0x80 <= c <= 0xBF then Tail2 else Bad
    case AfterE0 => if 0xA0 <= c <= 0xBF then Tail1 else Bad
    case AfterED => if 0x80 <= c <= 0x9F then Tail1 else Bad
    case AfterF0 => if 0x90 <= c <= 0xBF then Tail2 else Bad
    case AfterF4 => if 0x80 <= c <= 0x8F then Tail2 else Bad
    case Bad => Bad
  }

  function Run(s: State, octets: Octets): State
    decreases |octets|
  {
    if octets == [] then s else Run(Step(s, octets[0]), octets[1..])
  }

  predicate IsUtf8(octets: Octets) {
    Run(Start, octets) == Start
  }

  /** `json.loads` decodes octets with "surrogatepass": the three octets of a lone surrogate are one character. */
  function PassStep(s: State, c: octet): State {
    if s == AfterED && 0x80 <= c <= 0xBF then Tail1 else Step(s, c)
  }

  function PassRun(s: State, octets: Octets): State
    decreases |octets|
  {
    if octets == [] then s else PassRun(PassStep(s, octets[0]), octets[1..])
  }

  predicate Decodes(octets: Octets) {
    PassRun(Start, octets) == Start
  }

  /** What is UTF-8 decodes alike with lone surrogates let through. */
  lemma {:induction false} StrictPasses(s: State, octets: Octets)
    requires Run(s, octets) != Bad
    ensures PassRun(s, octets) == Run(s, octets)
    decreases |octets|
  {
    if octets != [] {
      if Step(s, octets[0]) == Bad {
        BadStays(octets[1..]);
      }
      StrictPasses(Step(s, octets[0]), octets[1..]);
    }
  }

  lemma {:induction false} PassCompose(s: State, a: Octets, b: Octets)
    ensures PassRun(s, a + b) == PassRun(PassRun(s, a), b)
    decreases |a|
  {
    if a == [] {
      assert a + b == b;
    } else {
      assert (a + b)[1..] == a[1..] + b;
      PassCompose(PassStep(s, a[0]), a[1..], b);
    }
  }

  /** Decoding chunk by chunk is decoding the whole. */
  lemma {:induction false} RunCompose(s: State, a: Octets, b: Octets)
    ensures Run(s, a + b) == Run(Run(s, a), b)
    decreases |a|
  {
    if a == [] {
      assert a + b == b;
    } else {
      assert (a + b)[1..] == a[1..] + b;
      RunCompose(Step(s, a[0]), a[1..], b);
    }
  }

  lemma {:induction false} BadStays(octets: Octets)
    ensures Run(Bad, octets) == Bad
    decreases |octets|
  {
    if octets != [] {
      BadStays(octets[1..]);
    }
  }

  /** Octets that went wrong are not made right by what follows. */
  lemma BadPrefix(d: Octets, n: nat)
    requires n <= |d| && Run(Start, d[..n]) == Bad
    ensures !IsUtf8(d)
  {
    assert d == d[..n] + d[n..];
    RunCompose(Start, d[..n], d[n..]);
    BadStays(d[n..]);
  }
}

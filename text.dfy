/** Option and Result, used for JavaScript's `undefined` and for thrown errors. */
module Wrappers {
  datatype Option<+T> = None | Some(value: T)

  datatype Result<+T, +E> = Ok(value: T) | Err(error: E)

  /** A half-open span [start, end) of a string: the position of a regular-expression match. */
  datatype Span = Span(start: nat, end: nat)
}

/** Character classes and string shapes shared by the scanners. */
module Text {

  /** The line terminators of ECMAScript: LF, CR, LINE SEPARATOR and PARAGRAPH SEPARATOR.
      The `.` atom of a regular expression without the `s` flag matches every other character. */
  predicate IsLineTerminator(c: char) {
    c == '\n' || c == '\r' || c == '\U{2028}' || c == '\U{2029}'
  }

  /** Every character of `t` is matched by `.`. */
  predicate NoLineTerminator(t: string) {
    forall k :: 0 <= k < |t| ==> !IsLineTerminator(t[k])
  }

  /** A slice of a slice is a slice of the original. */
  lemma SliceOfSlice(s: string, a: nat, b: nat, c: nat, d: nat)
    requires a <= b <= |s| && c <= d <= b - a
    ensures s[a..b][c..d] == s[a + c..a + d]
  {
    assert forall k :: 0 <= k < d - c ==> s[a..b][c..d][k] == s[a + c + k];
  }

  /** `frags[0] + gaps[0] + frags[1] + ... + gaps[n-1] + frags[n]`. */
  function Interleave(frags: seq<string>, gaps: seq<string>): (r: string)
    requires |frags| == |gaps| + 1
    ensures |r| >= |frags[0]| && r[..|frags[0]|] == frags[0]
    decreases |gaps|
  {
    if gaps == [] then frags[0]
    else frags[0] + gaps[0] + Interleave(frags[1..], gaps[1..])
  }

  /** One step of the interleaving, for callers that know it has a gap. */
  lemma InterleaveCons(frags: seq<string>, gaps: seq<string>)
    requires |frags| >= 2 && |gaps| == |frags| - 1
    ensures Interleave(frags, gaps) == frags[0] + gaps[0] + Interleave(frags[1..], gaps[1..])
  {
  }

  /** A piece and a gap put in front of an interleaving. */
  lemma InterleaveFront(f: string, g: string, frags: seq<string>, gaps: seq<string>)
    requires |frags| == |gaps| + 1
    ensures Interleave([f] + frags, [g] + gaps) == f + g + Interleave(frags, gaps)
  {
    assert ([f] + frags)[1..] == frags && ([g] + gaps)[1..] == gaps;
    InterleaveCons([f] + frags, [g] + gaps);
  }

  /** A suffix cut at two further positions. */
  lemma SliceThree(s: string, a: nat, b: nat, c: nat)
    requires a <= b <= c <= |s|
    ensures s[a..] == s[a..b] + s[b..c] + s[c..]
  {
  }

  /** Regrouping a concatenation of four strings. */
  lemma Regroup(a: string, b: string, c: string, d: string)
    ensures a + b + c + d == a + (b + c + d)
  {
  }

  /** `Array.prototype.join`: the pieces with `sep` between consecutive ones. */
  function JoinWith(pieces: seq<string>, sep: string): (r: string)
    ensures pieces != [] ==> |r| >= |pieces[0]| && r[..|pieces[0]|] == pieces[0]
    ensures |pieces| >= 2 ==> |r| >= |pieces[0]| + |sep| && r[|pieces[0]|..|pieces[0]| + |sep|] == sep
    decreases |pieces|
  {
    if pieces == [] then ""
    else if |pieces| == 1 then pieces[0]
    else pieces[0] + sep + JoinWith(pieces[1..], sep)
  }
}

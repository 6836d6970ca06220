/** The expression placeholders of a job's `name`: the regular expression
    `/\$\{\{.+?\}\}/` as `String.prototype.search` and `String.prototype.split` use it. */
module Placeholder {
  import opened Wrappers
  import opened Text

  /** The language of `\$\{\{.+?\}\}`: "${{", one or more characters that are not line
      terminators ('}' included), "}}". */
  predicate IsPlaceholder(t: string) {
    && |t| >= 6 && t[0] == '$' && t[1] == '{' && t[2] == '{'
    && t[|t| - 2] == '}' && t[|t| - 1] == '}'
    && NoLineTerminator(t[3..|t| - 2])
  }

  /** No substring of `s` is a placeholder. */
  ghost predicate NoPlaceholder(s: string) {
    forall i, e :: 0 <= i <= e <= |s| ==> !IsPlaceholder(s[i..e])
  }

  /** s[i..e] is the match the engine reports when it tries start positions from `from` on:
      the leftmost start, then the shortest match there (`.+?` is lazy). */
  ghost predicate IsFirstPlaceholderFrom(s: string, from: nat, i: nat, e: nat) {
    && from <= i < e <= |s|
    && IsPlaceholder(s[i..e])
    && (forall i', e' :: from <= i' < i && i' <= e' <= |s| ==> !IsPlaceholder(s[i'..e']))
    && (forall e' :: i <= e' < e ==> !IsPlaceholder(s[i..e']))
  }

  /** A slice is a placeholder exactly when its characters say so, one by one. */
  lemma PlaceholderAt(s: string, q: nat, e: nat)
    requires q <= e <= |s|
    ensures IsPlaceholder(s[q..e]) <==>
      && e - q >= 6 && s[q] == '$' && s[q + 1] == '{' && s[q + 2] == '{' && s[e - 2] == '}' && s[e - 1] == '}'
      && forall m :: q + 3 <= m < e - 2 ==> !IsLineTerminator(s[m])
  {
    if e - q >= 6 {
      var t := s[q..e];
      var inner := t[3..|t| - 2];
      assert forall m :: q + 3 <= m < e - 2 ==> inner[m - q - 3] == s[m];
      assert forall k :: 0 <= k < |inner| ==> inner[k] == s[q + 3 + k];
    }
  }

  /** Scans `.+?\}\}` after the "${{" at `q`: the characters s[q+3..k] have been taken by
      `.`, and "}}" is tried at `k` once at least one was taken. */
  function CloseBraces(s: string, q: nat, k: nat): (r: Option<nat>)
    requires q + 3 <= k <= |s| && s[q] == '$' && s[q + 1] == '{' && s[q + 2] == '{'
    requires forall m :: q + 3 <= m < k ==> !IsLineTerminator(s[m])
    requires forall e :: q <= e < k + 2 && e <= |s| ==> !IsPlaceholder(s[q..e])
    ensures r.Some? ==> k < r.value <= |s| && IsPlaceholder(s[q..r.value])
    ensures r.Some? ==> forall e :: q <= e < r.value ==> !IsPlaceholder(s[q..e])
    ensures r.None? ==> forall e :: q <= e <= |s| ==> !IsPlaceholder(s[q..e])
    decreases |s| - k
  {
    if k > q + 3 && k + 2 <= |s| && s[k] == '}' && s[k + 1] == '}' then
      PlaceholderAt(s, q, k + 2);
      Some(k + 2)
    else if k < |s| && !IsLineTerminator(s[k]) then
      assert k + 2 <= |s| ==> !IsPlaceholder(s[q..k + 2]) by {
        if k + 2 <= |s| {
          PlaceholderAt(s, q, k + 2);
        }
      }
      CloseBraces(s, q, k + 1)
    else
      forall e | q <= e <= |s| ensures !IsPlaceholder(s[q..e]) {
        PlaceholderAt(s, q, e);
      }
      None
  }

  /** The end of the shortest placeholder starting at `q`, if any. */
  function PlaceholderEnd(s: string, q: nat): (r: Option<nat>)
    requires q <= |s|
    ensures r.Some? ==> q < r.value <= |s| && IsPlaceholder(s[q..r.value])
    ensures r.Some? ==> forall e :: q <= e < r.value ==> !IsPlaceholder(s[q..e])
    ensures r.None? ==> forall e :: q <= e <= |s| ==> !IsPlaceholder(s[q..e])
  {
    if q + 3 <= |s| && s[q] == '$' && s[q + 1] == '{' && s[q + 2] == '{' then
      CloseBraces(s, q, q + 3)
    else
      None
  }

  /** The leftmost placeholder at or after `from`. */
  function FindPlaceholder(s: string, from: nat): (r: Option<Span>)
    requires from <= |s|
    ensures r.Some? ==> IsFirstPlaceholderFrom(s, from, r.value.start, r.value.end)
    ensures r.None? ==> forall i, e :: from <= i <= e <= |s| ==> !IsPlaceholder(s[i..e])
    decreases |s| - from
  {
    match PlaceholderEnd(s, from)
    case Some(e) => Some(Span(from, e))
    case None => if from < |s| then FindPlaceholder(s, from + 1) else None
  }

  /** `name.search(/\$\{\{.+?\}\}/)`: the index where the first placeholder starts, or -1. */
  function SearchIndex(name: string): (r: int)
    ensures r == -1 <==> NoPlaceholder(name)
    ensures r != -1 ==> 0 <= r < |name| && (exists e :: r < e <= |name| && IsPlaceholder(name[r..e]))
    ensures r != -1 ==> forall i, e :: 0 <= i < r && i <= e <= |name| ==> !IsPlaceholder(name[i..e])
  {
    match FindPlaceholder(name, 0)
    case None => -1
    case Some(sp) => sp.start
  }

  /** A placeholder starts at index 0 exactly when `search` returns 0. */
  lemma SearchIsZero(name: string)
    ensures SearchIndex(name) == 0 <==> exists e :: 0 < e <= |name| && IsPlaceholder(name[..e])
  {
    if exists e :: 0 < e <= |name| && IsPlaceholder(name[..e]) {
      var e :| 0 < e <= |name| && IsPlaceholder(name[..e]);
      assert name[0..e] == name[..e];
    }
    if SearchIndex(name) == 0 {
      var e :| 0 < e <= |name| && IsPlaceholder(name[0..e]);
      assert name[0..e] == name[..e];
    }
  }

  /** The pieces `split` returns when it resumes at position `p`. */
  function SplitFrom(s: string, p: nat): (r: seq<string>)
    requires p <= |s|
    ensures |r| >= 1
    ensures forall k :: 0 <= k < |r| ==> NoPlaceholder(r[k])
    decreases |s| - p
  {
    match FindPlaceholder(s, p)
    case None =>
      NoPlaceholderInside(s, p, |s|);
      assert s[p..|s|] == s[p..];
      [s[p..]]
    case Some(sp) =>
      NoPlaceholderInside(s, p, sp.start);
      [s[p..sp.start]] + SplitFrom(s, sp.end)
  }

  /** When no placeholder starts in [p, i), the piece s[p..i] contains none. */
  lemma NoPlaceholderInside(s: string, p: nat, i: nat)
    requires p <= i <= |s|
    requires forall i', e' :: p <= i' < i && i' <= e' <= |s| ==> !IsPlaceholder(s[i'..e'])
    ensures NoPlaceholder(s[p..i])
  {
    forall a, b | 0 <= a <= b <= i - p ensures !IsPlaceholder(s[p..i][a..b]) {
      SliceOfSlice(s, p, i, a, b);
      if a == b {
        assert |s[p..i][a..b]| == 0;
      }
    }
  }

  /** `name.split(/\$\{\{.+?\}\}/)`: the literal pieces between placeholders, in order. */
  function Split(name: string): (r: seq<string>)
    ensures |r| >= 1
    ensures forall k :: 0 <= k < |r| ==> NoPlaceholder(r[k])
  {
    SplitFrom(name, 0)
  }

  /** The placeholders `split` removes, in order (the separators between the pieces). */
  ghost function PlaceholdersFrom(s: string, p: nat): (r: seq<string>)
    requires p <= |s|
    decreases |s| - p
  {
    match FindPlaceholder(s, p)
    case None => []
    case Some(sp) => [s[sp.start..sp.end]] + PlaceholdersFrom(s, sp.end)
  }

  /** The pieces and the removed placeholders interleave back into the original text. */
  lemma {:induction false} SplitReassembles(s: string, p: nat)
    requires p <= |s|
    ensures |SplitFrom(s, p)| == |PlaceholdersFrom(s, p)| + 1
    ensures forall k :: 0 <= k < |PlaceholdersFrom(s, p)| ==> IsPlaceholder(PlaceholdersFrom(s, p)[k])
    ensures Interleave(SplitFrom(s, p), PlaceholdersFrom(s, p)) == s[p..]
    decreases |s| - p
  {
    match FindPlaceholder(s, p)
    case None =>
    case Some(sp) =>
      SplitReassembles(s, sp.end);
      var rest, more := SplitFrom(s, sp.end), PlaceholdersFrom(s, sp.end);
      var holes := PlaceholdersFrom(s, p);
      assert SplitFrom(s, p) == [s[p..sp.start]] + rest;
      assert holes == [s[sp.start..sp.end]] + more;
      InterleaveFront(s[p..sp.start], s[sp.start..sp.end], rest, more);
      SliceThree(s, p, sp.start, sp.end);
      forall k | 0 <= k < |holes| ensures IsPlaceholder(holes[k]) {
        if k > 0 {
          assert holes[k] == more[k - 1];
        }
      }
  }

  /** A name without placeholders splits into itself alone. */
  lemma SplitOfPlain(name: string)
    requires NoPlaceholder(name)
    ensures Split(name) == [name]
  {
    assert name[0..] == name;
    match FindPlaceholder(name, 0)
    case None =>
    case Some(sp) =>
      assert false;
  }

  /** The first match is unique: leftmost and then shortest pin it down. */
  lemma FirstPlaceholderUnique(s: string, from: nat, i: nat, e: nat, i': nat, e': nat)
    requires IsFirstPlaceholderFrom(s, from, i, e) && IsFirstPlaceholderFrom(s, from, i', e')
    ensures i == i' && e == e'
  {
  }

  /** Every placeholder begins with '$'. */
  lemma NoDollarNoPlaceholder(s: string)
    requires '$' !in s
    ensures NoPlaceholder(s)
  {
    forall i, e | 0 <= i <= e <= |s| ensures !IsPlaceholder(s[i..e]) {
      if i < e { assert s[i..e][0] == s[i]; }
    }
  }

  /** Positional form of the first match: no '$' in s[from..i], then "${{", one line
      without '}', and "}}" ending at e. */
  lemma FirstPlaceholderAt(s: string, from: nat, i: nat, e: nat)
    requires from <= i && i + 6 <= e <= |s|
    requires forall k :: from <= k < i ==> s[k] != '$'
    requires s[i] == '$' && s[i + 1] == '{' && s[i + 2] == '{' && s[e - 2] == '}' && s[e - 1] == '}'
    requires forall k :: i + 3 <= k < e - 2 ==> s[k] != '}' && !IsLineTerminator(s[k])
    ensures FindPlaceholder(s, from) == Some(Span(i, e))
  {
    forall i', e' | from <= i' < i && i' <= e' <= |s| ensures !IsPlaceholder(s[i'..e']) {
      if i' < e' { assert s[i'..e'][0] == s[i']; }
    }
    assert forall e' :: i <= e' < e ==> !IsPlaceholder(s[i..e']);
    assert IsPlaceholder(s[i..e]) by {
      var inner := s[i..e][3..e - i - 2];
      forall k | 0 <= k < |inner| ensures !IsLineTerminator(inner[k]) {
        assert inner[k] == s[i + 3 + k];
      }
    }
    var r := FindPlaceholder(s, from);
    FirstPlaceholderUnique(s, from, i, e, r.value.start, r.value.end);
  }

  /** No '$' from `from` on: the search finds nothing there. */
  lemma NoPlaceholderAfter(s: string, from: nat)
    requires from <= |s|
    requires forall k :: from <= k < |s| ==> s[k] != '$'
    ensures FindPlaceholder(s, from) == None
  {
    var r := FindPlaceholder(s, from);
    if r.Some? {
      assert false;
    }
  }

  /** An expression as a workflow file writes it: `${{`, its text, `}}`. */
  function Expression(e: string): (r: string)
    ensures |r| == |e| + 5
    ensures r[..3] == "${{" && r[3..|r| - 2] == e && r[|r| - 2..] == "}}"
  {
    "${{" + e + "}}"
  }

  /** An expression text the placeholder regex takes whole: non-empty, on one line, and
      without '}' (which would let a shorter match end inside it). */
  predicate IsSimpleExpression(e: string) {
    e != [] && '}' !in e && NoLineTerminator(e)
  }

  function Expressions(es: seq<string>): (r: seq<string>)
    ensures |r| == |es| && forall k :: 0 <= k < |es| ==> r[k] == Expression(es[k])
  {
    seq(|es|, k requires 0 <= k < |es| => Expression(es[k]))
  }

  /** A piece without '$' followed by a simple expression: the search from the start of
      the piece finds exactly that expression. */
  lemma {:induction false} ExpressionAfterPiece(s: string, p: nat, f: string, e: string, t: string)
    requires p <= |s| && s[p..] == f + Expression(e) + t
    requires '$' !in f && IsSimpleExpression(e)
    ensures FindPlaceholder(s, p) == Some(Span(p + |f|, p + |f| + |e| + 5))
    ensures s[p..p + |f|] == f && s[p + |f| + |e| + 5..] == t
  {
    var i, j := p + |f|, p + |f| + |e| + 5;
    assert forall k :: p <= k < |s| ==> s[k] == s[p..][k - p];
    assert forall k :: p <= k < i ==> s[k] == f[k - p];
    assert forall k :: i <= k < j ==> s[k] == Expression(e)[k - i];
    forall k | i + 3 <= k < j - 2 ensures s[k] != '}' && !IsLineTerminator(s[k]) {
      assert s[k] == e[k - i - 3];
    }
    FirstPlaceholderAt(s, p, i, j);
    assert s[p..i] == s[p..][..|f|];
    assert s[j..] == s[p..][|f| + |e| + 5..];
  }

  /** Split from position p undoes the interleaving of pieces and simple expressions. */
  lemma {:induction false} SplitFromInterleave(s: string, p: nat, frags: seq<string>, es: seq<string>)
    requires p <= |s| && |frags| == |es| + 1
    requires forall k :: 0 <= k < |frags| ==> '$' !in frags[k]
    requires forall k :: 0 <= k < |es| ==> IsSimpleExpression(es[k])
    requires s[p..] == Interleave(frags, Expressions(es))
    ensures SplitFrom(s, p) == frags
    decreases |frags|
  {
    if |frags| == 1 {
      assert s[p..] == frags[0];
      forall k | p <= k < |s| ensures s[k] != '$' {
        assert s[k] == s[p..][k - p];
      }
      NoPlaceholderAfter(s, p);
    } else {
      var rest, more := frags[1..], es[1..];
      assert Expressions(es)[1..] == Expressions(more);
      var t := Interleave(rest, Expressions(more));
      assert s[p..] == frags[0] + Expression(es[0]) + t;
      ExpressionAfterPiece(s, p, frags[0], es[0], t);
      var j := p + |frags[0]| + |es[0]| + 5;
      SplitFromInterleave(s, j, rest, more);
    }
  }

  /** Splitting a name made of pieces without '$' and simple expressions gives back the
      pieces. */
  lemma SplitOfInterleave(frags: seq<string>, es: seq<string>)
    requires |frags| == |es| + 1
    requires forall k :: 0 <= k < |frags| ==> '$' !in frags[k]
    requires forall k :: 0 <= k < |es| ==> IsSimpleExpression(es[k])
    ensures Split(Interleave(frags, Expressions(es))) == frags
  {
    var s := Interleave(frags, Expressions(es));
    assert s[0..] == s;
    SplitFromInterleave(s, 0, frags, es);
  }
}

/** `getCanonicalJobName`: `jobName.replace(/ *\(.+?\)/, '')`, which removes the leftmost
    matrix annotation (spaces, then a parenthesised group) of a runtime job name. */
module CanonicalName {
  import opened Wrappers
  import opened Text

  /** The language of `\(.+?\)`: '(' then one or more characters other than line
      terminators (')' included) then ')'. */
  predicate IsParenGroup(t: string) {
    |t| >= 3 && t[0] == '(' && t[|t| - 1] == ')' && NoLineTerminator(t[1..|t| - 1])
  }

  /** The language of ` *\(.+?\)`: any number of spaces, then a parenthesised group. */
  predicate IsAnnotation(t: string)
    decreases |t|
  {
    |t| > 0 && if t[0] == ' ' then IsAnnotation(t[1..]) else IsParenGroup(t)
  }

  /** No substring of `s` is an annotation: the regular expression finds no match. */
  ghost predicate NoAnnotation(s: string) {
    forall i, e :: 0 <= i <= e <= |s| ==> !IsAnnotation(s[i..e])
  }

  /** s[i..e] is the match a backtracking engine reports when it tries start positions from
      `from` on: it starts at the leftmost position where any match starts, and it is the
      shortest match from there (`.+?` is lazy, and the greedy ` *` can only take the whole
      run of spaces). */
  ghost predicate IsFirstAnnotationFrom(s: string, from: nat, i: nat, e: nat) {
    && i < e <= |s|
    && IsAnnotation(s[i..e])
    && (forall i', e' :: from <= i' < i && i' <= e' <= |s| ==> !IsAnnotation(s[i'..e']))
    && (forall e' :: i <= e' < e ==> !IsAnnotation(s[i..e']))
  }

  /** The match `String.prototype.replace` removes. */
  ghost predicate IsFirstAnnotation(s: string, i: nat, e: nat) {
    IsFirstAnnotationFrom(s, 0, i, e)
  }

  /** An annotation is at least "()" around one character. */
  lemma {:induction false} AnnotationLength(t: string)
    requires IsAnnotation(t)
    ensures |t| >= 3 && ')' == t[|t| - 1]
    decreases |t|
  {
    if t[0] == ' ' {
      AnnotationLength(t[1..]);
    }
  }

  /** A slice is a parenthesised group exactly when its characters say so, one by one. */
  lemma ParenGroupAt(s: string, j: nat, e: nat)
    requires j <= e <= |s|
    ensures IsParenGroup(s[j..e]) <==>
      e - j >= 3 && s[j] == '(' && s[e - 1] == ')' && forall m :: j < m < e - 1 ==> !IsLineTerminator(s[m])
  {
    if e - j >= 3 {
      var t := s[j..e];
      var inner := t[1..|t| - 1];
      assert forall m :: j < m < e - 1 ==> inner[m - j - 1] == s[m];
      assert forall k :: 0 <= k < |inner| ==> inner[k] == s[j + 1 + k];
    }
  }

  /** Scans `.+?\)` after the '(' at `j`: `k` is the next character to examine, and every
      character in s[j+1..k] has been taken by `.`. Returns the end of the shortest group. */
  function CloseParen(s: string, j: nat, k: nat): (r: Option<nat>)
    requires j < |s| && s[j] == '(' && j + 1 <= k <= |s|
    requires forall m :: j < m < k ==> !IsLineTerminator(s[m])
    requires forall e :: j <= e <= k ==> !IsParenGroup(s[j..e])
    ensures r.Some? ==> k < r.value <= |s| && IsParenGroup(s[j..r.value])
    ensures r.Some? ==> forall e :: j <= e < r.value ==> !IsParenGroup(s[j..e])
    ensures r.None? ==> forall e :: j <= e <= |s| ==> !IsParenGroup(s[j..e])
    decreases |s| - k
  {
    if k < |s| && s[k] == ')' && k > j + 1 then
      ParenGroupAt(s, j, k + 1);
      Some(k + 1)
    else if k < |s| && !IsLineTerminator(s[k]) then
      ParenGroupAt(s, j, k + 1);
      CloseParen(s, j, k + 1)
    else
      forall e | j <= e <= |s| ensures !IsParenGroup(s[j..e]) {
        ParenGroupAt(s, j, e);
      }
      None
  }

  /** The end of the shortest annotation starting at `q`, if any. */
  function AnnotationEnd(s: string, q: nat): (r: Option<nat>)
    requires q <= |s|
    ensures r.Some? ==> q < r.value <= |s| && IsAnnotation(s[q..r.value])
    ensures r.Some? ==> forall e :: q <= e < r.value ==> !IsAnnotation(s[q..e])
    ensures r.None? ==> forall e :: q <= e <= |s| ==> !IsAnnotation(s[q..e])
    decreases |s| - q
  {
    if q < |s| && s[q] == ' ' then
      var r := AnnotationEnd(s, q + 1);
      assert forall e :: q < e <= |s| ==> s[q..e][1..] == s[q + 1..e];
      r
    else if q < |s| && s[q] == '(' then
      assert forall e :: q < e <= |s| ==> s[q..e][0] == '(';
      CloseParen(s, q, q + 1)
    else
      assert forall e :: q < e <= |s| ==> s[q..e][0] == s[q];
      None
  }

  /** The leftmost annotation at or after `from`, as a backtracking engine finds it by
      trying each start position in turn. */
  function FindAnnotation(s: string, from: nat): (r: Option<Span>)
    requires from <= |s|
    ensures r.Some? ==> from <= r.value.start && IsFirstAnnotationFrom(s, from, r.value.start, r.value.end)
    ensures r.None? ==> forall i, e :: from <= i <= e <= |s| ==> !IsAnnotation(s[i..e])
    decreases |s| - from
  {
    match AnnotationEnd(s, from)
    case Some(e) => Some(Span(from, e))
    case None => if from < |s| then FindAnnotation(s, from + 1) else None
  }

  /** `getCanonicalJobName`. Without an annotation the name is returned unchanged; otherwise
      exactly the first annotation is cut out and both sides are kept verbatim. */
  function GetCanonicalJobName(jobName: string): (r: string)
    ensures NoAnnotation(jobName) ==> r == jobName
    ensures !NoAnnotation(jobName) ==>
      exists i: nat, e: nat :: IsFirstAnnotation(jobName, i, e) && r == jobName[..i] + jobName[e..]
    ensures |r| <= |jobName|
    ensures |r| == |jobName| <==> NoAnnotation(jobName)
  {
    match FindAnnotation(jobName, 0)
    case None => jobName
    case Some(sp) =>
      AnnotationLength(jobName[sp.start..sp.end]);
      jobName[..sp.start] + jobName[sp.end..]
  }

  /** The first match is unique: leftmost and then shortest pin it down. */
  lemma FirstAnnotationUnique(s: string, i: nat, e: nat, i': nat, e': nat)
    requires IsFirstAnnotation(s, i, e) && IsFirstAnnotation(s, i', e')
    ensures i == i' && e == e'
  {
  }

  /** An annotation found at s[q..e] is a run of spaces from q up to a '(' at some p,
      and s[p..e] is a parenthesised group. */
  lemma {:induction false} AnnotationShape(s: string, q: nat, e: nat)
    requires q <= e <= |s| && IsAnnotation(s[q..e])
    ensures exists p :: q <= p < e && s[p] == '(' && (forall k :: q <= k < p ==> s[k] == ' ') && IsParenGroup(s[p..e])
    decreases e - q
  {
    if s[q] == ' ' {
      assert s[q..e][1..] == s[q + 1..e];
      AnnotationShape(s, q + 1, e);
    } else {
      assert s[q] == s[q..e][0];
    }
  }

  /** Spaces from q up to the '(' at j, then a group ending at e, form an annotation. */
  lemma {:induction false} SpacesThenGroup(s: string, q: nat, j: nat, e: nat)
    requires q <= j < e <= |s| && IsParenGroup(s[j..e])
    requires forall k :: q <= k < j ==> s[k] == ' '
    ensures IsAnnotation(s[q..e])
    decreases j - q
  {
    if q < j {
      SpacesThenGroup(s, q + 1, j, e);
      assert s[q..e][1..] == s[q + 1..e];
    }
  }

  /** A name without '(' has no annotation, so it is its own canonical name. */
  lemma NoParenIsCanonical(s: string)
    requires '(' !in s
    ensures NoAnnotation(s)
    ensures GetCanonicalJobName(s) == s
  {
    forall i, e | 0 <= i <= e <= |s| ensures !IsAnnotation(s[i..e]) {
      if IsAnnotation(s[i..e]) {
        AnnotationShape(s, i, e);
        assert false;
      }
    }
  }

  /** The usual shape of a matrix job name: `base (values) rest`, where `base` has no '('
      and does not end in a space, and `values` is one line without ')'. The canonical
      name joins `base` and `rest`. */
  lemma CanonicalOfMatrixName(base: string, spaces: nat, values: string, rest: string)
    requires '(' !in base && (|base| > 0 ==> base[|base| - 1] != ' ')
    requires |values| > 0 && ')' !in values && NoLineTerminator(values)
    ensures GetCanonicalJobName(base + seq(spaces, _ => ' ') + "(" + values + ")" + rest) == base + rest
  {
    var s := base + seq(spaces, _ => ' ') + "(" + values + ")" + rest;
    var i, e := |base|, |base| + spaces + |values| + 2;
    assert s[..i] == base && s[e..] == rest;
    MatrixNameFirstAnnotation(base, spaces, values, rest);
    var r := GetCanonicalJobName(s);
    var i0: nat, e0: nat :| IsFirstAnnotation(s, i0, e0) && r == s[..i0] + s[e0..];
    FirstAnnotationUnique(s, i, e, i0, e0);
  }

  lemma MatrixNameFirstAnnotation(base: string, spaces: nat, values: string, rest: string)
    requires '(' !in base && (|base| > 0 ==> base[|base| - 1] != ' ')
    requires |values| > 0 && ')' !in values && NoLineTerminator(values)
    ensures IsFirstAnnotation(base + seq(spaces, _ => ' ') + "(" + values + ")" + rest,
                              |base|, |base| + spaces + |values| + 2)
  {
    var s := base + seq(spaces, _ => ' ') + "(" + values + ")" + rest;
    var i, j, e := |base|, |base| + spaces, |base| + spaces + |values| + 2;
    assert forall k :: 0 <= k < i ==> s[k] == base[k];
    assert forall k :: i <= k < j ==> s[k] == ' ';
    assert forall k :: j < k < e - 1 ==> s[k] == values[k - j - 1];
    assert s[j] == '(' && s[e - 1] == ')';
    FirstAnnotationAt(s, i, j, e);
  }

  /** Positional form: no '(' before i, s[i - 1] not a space, spaces from i to the '(' at
      j, then one line without ')' up to the ')' at e - 1. */
  lemma FirstAnnotationAt(s: string, i: nat, j: nat, e: nat)
    requires i <= j && j + 3 <= e <= |s|
    requires forall k :: 0 <= k < i ==> s[k] != '('
    requires i > 0 ==> s[i - 1] != ' '
    requires forall k :: i <= k < j ==> s[k] == ' '
    requires s[j] == '(' && s[e - 1] == ')'
    requires forall k :: j < k < e - 1 ==> s[k] != ')' && !IsLineTerminator(s[k])
    ensures IsFirstAnnotation(s, i, e)
  {
    assert IsParenGroup(s[j..e]) by {
      var inner := s[j..e][1..e - j - 1];
      forall k | 0 <= k < |inner| ensures !IsLineTerminator(inner[k]) {
        assert inner[k] == s[j + 1 + k];
      }
    }
    SpacesThenGroup(s, i, j, e);
    NoAnnotationBefore(s, i);
    NoShorterAnnotation(s, i, j, e);
  }

  lemma NoAnnotationBefore(s: string, i: nat)
    requires i <= |s|
    requires forall k :: 0 <= k < i ==> s[k] != '('
    requires i > 0 ==> s[i - 1] != ' '
    ensures forall i', e' :: 0 <= i' < i && i' <= e' <= |s| ==> !IsAnnotation(s[i'..e'])
  {
    forall i', e' | 0 <= i' < i && i' <= e' <= |s| ensures !IsAnnotation(s[i'..e']) {
      if IsAnnotation(s[i'..e']) {
        AnnotationShape(s, i', e');
        assert false;
      }
    }
  }

  lemma NoShorterAnnotation(s: string, i: nat, j: nat, e: nat)
    requires i <= j < e <= |s|
    requires forall k :: i <= k < j ==> s[k] == ' '
    requires s[j] == '('
    requires forall k :: j < k < e - 1 ==> s[k] != ')'
    ensures forall e' :: i <= e' < e ==> !IsAnnotation(s[i..e'])
  {
    forall e' | i <= e' < e ensures !IsAnnotation(s[i..e']) {
      if IsAnnotation(s[i..e']) {
        AnnotationShape(s, i, e');
        assert false;
      }
    }
  }

  /** With at most one '(' the canonical name is a fixed point: the annotation takes the
      only '(' with it, so nothing is left to remove. */
  lemma CanonicalIdempotent(s: string)
    requires forall a, b :: 0 <= a < |s| && 0 <= b < |s| && s[a] == '(' && s[b] == '(' ==> a == b
    ensures GetCanonicalJobName(GetCanonicalJobName(s)) == GetCanonicalJobName(s)
  {
    var r := GetCanonicalJobName(s);
    if !NoAnnotation(s) {
      var i: nat, e: nat :| IsFirstAnnotation(s, i, e) && r == s[..i] + s[e..];
      AnnotationShape(s, i, e);
      var p :| i <= p < e && s[p] == '(' && (forall k :: i <= k < p ==> s[k] == ' ') && IsParenGroup(s[p..e]);
      forall m | 0 <= m < |r| ensures r[m] != '(' {
        if m < i {
          assert r[m] == s[m];
        } else {
          assert r[m] == s[e + m - i];
        }
      }
      NoParenIsCanonical(r);
    }
  }

  /** One space written as a sequence of spaces and as a string literal. */
  lemma OneSpace(base: string, values: string, rest: string)
    ensures base + seq(1, _ => ' ') + "(" + values + ")" + rest == base + " (" + values + ")" + rest
  {
    assert seq(1, _ => ' ') == " ";
  }

  /** With two annotations the first application removes only the first, so a second
      application changes the name again: canonicalisation is not idempotent in general. */
  lemma CanonicalOfTwoAnnotations(base: string, v: string, w: string)
    requires '(' !in base && (|base| > 0 ==> base[|base| - 1] != ' ')
    requires |v| > 0 && ')' !in v && NoLineTerminator(v)
    requires |w| > 0 && ')' !in w && NoLineTerminator(w)
    ensures var once := GetCanonicalJobName(base + " (" + v + ")" + " (" + w + ")");
      once == base + " (" + w + ")" && GetCanonicalJobName(once) != once
  {
    var second := " (" + w + ")";
    Regroup(base + " (" + v + ")", " (", w, ")");
    CanonicalOfMatrixName(base, 1, v, second);
    OneSpace(base, v, second);
    CanonicalOfMatrixName(base, 1, w, "");
    OneSpace(base, w, "");
    assert base + " (" + w + ")" + "" == base + " (" + w + ")";
    Regroup(base, " (", w, ")");
    assert base + "" == base;
  }
}

/** `parseJobName`: the attributes recorded for a runtime job name, its canonical name and
    the text inside its first parenthesised group (`/\(([^)]+)\)/g`, first match, group 1). */
module JobName {
  import opened Wrappers
  import opened Text
  import opened CanonicalName

  /** The language of `\(([^)]+)\)`: '(' then one or more characters other than ')' (line
      terminators included) then ')'. */
  predicate IsMatrixGroup(t: string) {
    |t| >= 3 && t[0] == '(' && t[|t| - 1] == ')' && ')' !in t[1..|t| - 1]
  }

  /** The regular expression finds no match in `s`. */
  ghost predicate NoMatrixGroup(s: string) {
    forall i, e :: 0 <= i <= e <= |s| ==> !IsMatrixGroup(s[i..e])
  }

  /** s[i..e] is the first match `matchAll` yields: the leftmost start. (A start position
      has at most one match, see MatrixGroupUnique.) */
  ghost predicate IsFirstMatrixGroup(s: string, i: nat, e: nat) {
    && i < e <= |s|
    && IsMatrixGroup(s[i..e])
    && forall i', e' :: 0 <= i' < i && i' <= e' <= |s| ==> !IsMatrixGroup(s[i'..e'])
  }

  /** Scans `[^)]+\)` after the '(' at `j`: every character of s[j+1..k] is not ')'. */
  function CloseGroup(s: string, j: nat, k: nat): (r: Option<nat>)
    requires j < |s| && s[j] == '(' && j + 1 <= k <= |s|
    requires forall m :: j < m < k ==> s[m] != ')'
    ensures r.Some? ==> k < r.value <= |s| && IsMatrixGroup(s[j..r.value])
    ensures r.None? ==> forall e :: j <= e <= |s| ==> !IsMatrixGroup(s[j..e])
    decreases |s| - k
  {
    if k == |s| || (s[k] == ')' && k == j + 1) then
      forall e | j <= e <= |s| ensures !IsMatrixGroup(s[j..e]) {
        if e >= j + 3 {
          if k == |s| {
            assert s[j..e][e - j - 1] == s[e - 1];
          } else {
            assert s[j..e][1..e - j - 1][0] == s[k];
          }
        }
      }
      None
    else if s[k] == ')' then
      var inner := s[j..k + 1][1..k - j];
      forall m | 0 <= m < |inner| ensures inner[m] != ')' {
        assert inner[m] == s[j + 1 + m];
      }
      Some(k + 1)
    else
      CloseGroup(s, j, k + 1)
  }

  /** The end of the match starting at `q`, if any. */
  function MatrixGroupEnd(s: string, q: nat): (r: Option<nat>)
    requires q <= |s|
    ensures r.Some? ==> q < r.value <= |s| && IsMatrixGroup(s[q..r.value])
    ensures r.None? ==> forall e :: q <= e <= |s| ==> !IsMatrixGroup(s[q..e])
  {
    if q < |s| && s[q] == '(' then CloseGroup(s, q, q + 1)
    else
      forall e | q <= e <= |s| ensures !IsMatrixGroup(s[q..e]) {
        if q < e { assert s[q..e][0] == s[q]; }
      }
      None
  }

  /** The leftmost match at or after `from`. */
  function FindMatrixGroup(s: string, from: nat): (r: Option<Span>)
    requires from <= |s|
    ensures r.Some? ==> from <= r.value.start < r.value.end <= |s| && IsMatrixGroup(s[r.value.start..r.value.end])
    ensures r.Some? ==> forall i, e :: from <= i < r.value.start && i <= e <= |s| ==> !IsMatrixGroup(s[i..e])
    ensures r.None? ==> forall i, e :: from <= i <= e <= |s| ==> !IsMatrixGroup(s[i..e])
    decreases |s| - from
  {
    match MatrixGroupEnd(s, from)
    case Some(e) => Some(Span(from, e))
    case None => if from < |s| then FindMatrixGroup(s, from + 1) else None
  }

  /** A start position has at most one match: it ends at the first ')' after the '('. */
  lemma MatrixGroupUnique(s: string, i: nat, e: nat, e': nat)
    requires i < e <= |s| && i < e' <= |s|
    requires IsMatrixGroup(s[i..e]) && IsMatrixGroup(s[i..e'])
    ensures e == e'
  {
    GroupCloses(s, i, e);
    GroupCloses(s, i, e');
  }

  /** A match ends at the first ')' after its '('. */
  lemma GroupCloses(s: string, i: nat, e: nat)
    requires i < e <= |s| && IsMatrixGroup(s[i..e])
    ensures s[e - 1] == ')' && forall m :: i < m < e - 1 ==> s[m] != ')'
  {
    assert s[i..e][e - i - 1] == s[e - 1];
    forall m | i < m < e - 1 ensures s[m] != ')' {
      assert s[i..e][1..e - i - 1][m - i - 1] == s[m];
    }
  }

  /** The attributes of a job span: `job.canonical_name`, and `job.matrix` when the name
      holds a parenthesised group. */
  datatype JobNameAttributes = JobNameAttributes(canonicalName: string, matrix: Option<string>)

  /** `matchMatrixInputs[0][1]` when there is a first match: the text inside the leftmost
      group, which is non-empty and holds no ')'. */
  function FirstMatrix(jobName: string): (r: Option<string>)
    ensures r.None? <==> NoMatrixGroup(jobName)
    ensures r.Some? ==>
      exists i: nat, e: nat :: IsFirstMatrixGroup(jobName, i, e) && r.value == jobName[i + 1..e - 1]
    ensures r.Some? ==> r.value != [] && ')' !in r.value
  {
    match FindMatrixGroup(jobName, 0)
    case None => None
    case Some(sp) =>
      var i, e := sp.start, sp.end;
      assert IsFirstMatrixGroup(jobName, i, e);
      SliceOfSlice(jobName, i, e, 1, e - i - 1);
      Some(jobName[i + 1..e - 1])
  }

  /** `parseJobName`. The canonical name is `getCanonicalJobName`'s; the matrix is present
      exactly when some group matches, and is then the text inside the leftmost group. */
  function ParseJobName(jobName: string): (r: JobNameAttributes)
    ensures r.canonicalName == GetCanonicalJobName(jobName)
    ensures r.matrix == FirstMatrix(jobName)
  {
    JobNameAttributes(GetCanonicalJobName(jobName), FirstMatrix(jobName))
  }

  /** Positional form of the first match: no '(' before i, '(' at i, no ')' up to e-1,
      ')' at e-1. */
  lemma FirstMatrixGroupAt(s: string, i: nat, e: nat)
    requires i + 3 <= e <= |s|
    requires forall k :: 0 <= k < i ==> s[k] != '('
    requires s[i] == '(' && s[e - 1] == ')'
    requires forall k :: i < k < e - 1 ==> s[k] != ')'
    ensures IsFirstMatrixGroup(s, i, e)
  {
    var inner := s[i..e][1..e - i - 1];
    forall k | 0 <= k < |inner| ensures inner[k] != ')' {
      assert inner[k] == s[i + 1 + k];
    }
    forall i', e' | 0 <= i' < i && i' <= e' <= |s| ensures !IsMatrixGroup(s[i'..e']) {
      if i' < e' { assert s[i'..e'][0] == s[i']; }
    }
  }

  /** A name without '(' has no matrix and is its own canonical name. */
  lemma PlainJobName(s: string)
    requires '(' !in s
    ensures ParseJobName(s) == JobNameAttributes(s, None)
  {
    NoParenIsCanonical(s);
    forall i, e | 0 <= i <= e <= |s| ensures !IsMatrixGroup(s[i..e]) {
      if i < e { assert s[i..e][0] == s[i]; }
    }
  }

  /** A name with one matrix group on one line, as GitHub Actions prints it: the group and
      the spaces before it leave the canonical name, and its text is the matrix. */
  lemma MatrixJobName(base: string, values: string, rest: string)
    requires '(' !in base && (|base| > 0 ==> base[|base| - 1] != ' ')
    requires values != [] && ')' !in values && NoLineTerminator(values)
    ensures ParseJobName(base + " (" + values + ")" + rest) == JobNameAttributes(base + rest, Some(values))
  {
    CanonicalOfMatrixName(base, 1, values, rest);
    OneSpace(base, values, rest);
    MatrixOfMatrixName(base, values, rest);
  }

  /** The matrix of such a name is the text in its group. */
  lemma MatrixOfMatrixName(base: string, values: string, rest: string)
    requires '(' !in base
    requires values != [] && ')' !in values
    ensures FirstMatrix(base + " (" + values + ")" + rest) == Some(values)
  {
    var s := base + " (" + values + ")" + rest;
    var i, e := |base| + 1, |base| + |values| + 3;
    MatrixGroupOfMatrixName(base, values, rest);
    var r := FirstMatrix(s);
    var i', e' :| IsFirstMatrixGroup(s, i', e') && r.value == s[i' + 1..e' - 1];
    MatrixGroupUnique(s, i, e, e');
    assert s[i + 1..e - 1] == values;
  }

  lemma MatrixGroupOfMatrixName(base: string, values: string, rest: string)
    requires '(' !in base
    requires values != [] && ')' !in values
    ensures IsFirstMatrixGroup(base + " (" + values + ")" + rest, |base| + 1, |base| + |values| + 3)
  {
    var s := base + " (" + values + ")" + rest;
    var i, e := |base| + 1, |base| + |values| + 3;
    forall k | 0 <= k < |base| ensures s[k] != '(' {
      assert s[k] == base[k];
    }
    forall k | i < k < e - 1 ensures s[k] != ')' {
      assert s[k] == values[k - i - 1];
    }
    FirstMatrixGroupAt(s, i, e);
  }

  /** The two regular expressions disagree on a group that spans lines: `.` stops at a line
      terminator and `[^)]` does not, so the group stays in the canonical name while its
      text is still reported as the matrix. */
  lemma MultiLineGroup(base: string, values: string, rest: string)
    requires '(' !in base && '(' !in values && '(' !in rest
    requires values != [] && ')' !in values && !NoLineTerminator(values)
    ensures var s := base + " (" + values + ")" + rest;
      ParseJobName(s) == JobNameAttributes(s, Some(values))
  {
    var s := base + " (" + values + ")" + rest;
    MatrixOfMatrixName(base, values, rest);
    var j := |base| + 1;
    OnlyParen(base, values, rest);
    GroupSpansValues(base, values, rest);
    forall i, e | 0 <= i <= e <= |s| ensures !IsAnnotation(s[i..e]) {
      if IsAnnotation(s[i..e]) {
        AnnotationShape(s, i, e);
        assert false;
      }
    }
  }

  /** The only '(' of such a name is the one that opens the group. */
  lemma OnlyParen(base: string, values: string, rest: string)
    requires '(' !in base && '(' !in values && '(' !in rest
    ensures var s := base + " (" + values + ")" + rest;
      forall p :: 0 <= p < |s| && p != |base| + 1 ==> s[p] != '('
  {
    var s := base + " (" + values + ")" + rest;
    forall p | 0 <= p < |s| && p != |base| + 1 ensures s[p] != '(' {
      if p < |base| {
        assert s[p] == base[p];
      } else if |base| + 1 < p < |base| + 2 + |values| {
        assert s[p] == values[p - |base| - 2];
      } else if p >= |base| + 3 + |values| {
        assert s[p] == rest[p - |base| - 3 - |values|];
      }
    }
  }

  /** No `\(.+?\)` group starts at the '(' before values that span lines: it would have
      to close after all of them, line terminator included. */
  lemma GroupSpansValues(base: string, values: string, rest: string)
    requires ')' !in values && !NoLineTerminator(values)
    ensures var s, j := base + " (" + values + ")" + rest, |base| + 1;
      forall e :: j < e <= |s| ==> !IsParenGroup(s[j..e])
  {
    var s, j := base + " (" + values + ")" + rest, |base| + 1;
    var m :| 0 <= m < |values| && IsLineTerminator(values[m]);
    forall e | j < e <= |s| ensures !IsParenGroup(s[j..e]) {
      if e - 1 <= j + |values| {
        if e - 1 > j {
          assert s[j..e][e - j - 1] == s[e - 1] == values[e - 2 - j];
          assert values[e - 2 - j] in values;
          assert s[j..e][|s[j..e]| - 1] != ')';
        }
      } else {
        assert s[j + 1 + m] == values[m];
        var inner := s[j..e][1..e - j - 1];
        assert inner[m] == s[j + 1 + m];
        assert !NoLineTerminator(inner);
      }
    }
  }
}

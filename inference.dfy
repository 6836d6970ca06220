/** `inferRunner`: maps a runtime job name back to the `runs-on` of a declared job, by an
    exact match of the canonical name against the job key or `name`, or by matching the
    raw name against the job's `name` read as a template. */
module Inference {
  import opened Wrappers
  import opened Text
  import opened CanonicalName
  import opened RegExpModel
  import opened Escape
  import opened Placeholder

  /** A declared job: its optional `name` and optional `runs-on`. */
  datatype JobSpec = JobSpec(name: Option<string>, runsOn: Option<string>)

  /** `workflowDefinition.jobs` as (key, job) pairs in `Object.keys` order. */
  type Jobs = seq<(string, JobSpec)>

  // ---------------------------------------------------------------------------
  // The template pattern

  /** `.map(escapeRegex)`. */
  function EscapeAll(frags: seq<string>): (r: seq<string>)
    ensures |r| == |frags| && forall k :: 0 <= k < |frags| ==> r[k] == EscapeRegex(frags[k])
  {
    seq(|frags|, k requires 0 <= k < |frags| => EscapeRegex(frags[k]))
  }

  /** The pattern source built from a job's `name`: its pieces split on the placeholders,
      escaped, joined with `.+?` and anchored with `^` and `$`. */
  function TemplatePattern(name: string): (r: string)
    ensures |r| >= 2 && r[0] == '^' && r[|r| - 1] == '$'
  {
    "^" + JoinWith(EscapeAll(Split(name)), ".+?") + "$"
  }

  /** `new RegExp(pattern).test(jobName)` for that pattern. */
  predicate TemplateTest(name: string, raw: string) {
    Test(TemplatePattern(name), raw)
  }

  /** The tokens that the pieces, each taken literally and separated by wildcards, form. */
  function TemplateTokens(frags: seq<string>): (r: seq<Token>)
    requires |frags| >= 1
    decreases |frags|
  {
    if |frags| == 1 then Lits(frags[0])
    else Lits(frags[0]) + [AnyPlus] + TemplateTokens(frags[1..])
  }

  /** What the wildcard `.+?` stands for: one or more characters, no line terminator. */
  ghost predicate IsFiller(w: string) {
    |w| >= 1 && NoLineTerminator(w)
  }

  /** `raw` is the pieces with a filler put in place of each placeholder. */
  ghost predicate FillsTemplate(frags: seq<string>, raw: string)
    requires |frags| >= 1
  {
    exists ws: seq<string> :: |ws| == |frags| - 1 && (forall k :: 0 <= k < |ws| ==> IsFiller(ws[k]))
      && Interleave(frags, ws) == raw
  }

  lemma TokenizeWildcard(rest: string)
    ensures Tokenize(".+?" + rest) == Cons(AnyPlus, Tokenize(rest))
  {
    var p := ".+?" + rest;
    assert p[..3] == ".+?" && p[3..] == rest && p[0] == '.';
  }

  /** The joined body of the pattern reads back as literal pieces and wildcards. */
  lemma {:induction false} TokenizeJoined(frags: seq<string>)
    requires |frags| >= 1
    ensures Tokenize(JoinWith(EscapeAll(frags), ".+?")) == Some(TemplateTokens(frags))
    decreases |frags|
  {
    var esc := EscapeAll(frags);
    if |frags| == 1 {
      TokenizeEscaped(frags[0], "");
      assert EscapeRegex(frags[0]) + "" == EscapeRegex(frags[0]);
      assert Lits(frags[0]) + [] == Lits(frags[0]);
    } else {
      assert esc[1..] == EscapeAll(frags[1..]);
      var tail := JoinWith(EscapeAll(frags[1..]), ".+?");
      assert JoinWith(esc, ".+?") == EscapeRegex(frags[0]) + (".+?" + tail);
      TokenizeJoined(frags[1..]);
      TokenizeWildcard(tail);
      TokenizeEscaped(frags[0], ".+?" + tail);
      assert Lits(frags[0]) + ([AnyPlus] + TemplateTokens(frags[1..]))
          == Lits(frags[0]) + [AnyPlus] + TemplateTokens(frags[1..]);
    }
  }

  /** The pattern the source builds is inside the modelled fragment of RegExp syntax. */
  lemma TemplatePatternCompiles(name: string)
    ensures Compile(TemplatePattern(name)) == Some(TemplateTokens(Split(name)))
  {
    var body := JoinWith(EscapeAll(Split(name)), ".+?");
    var p := TemplatePattern(name);
    assert p[1..|p| - 1] == body;
    TokenizeJoined(Split(name));
  }

  /** The token matcher accepts exactly the texts that fill the template. */
  lemma MatchesTemplateTokens(frags: seq<string>, raw: string)
    requires |frags| >= 1
    ensures Matches(TemplateTokens(frags), raw) <==> FillsTemplate(frags, raw)
  {
    if Matches(TemplateTokens(frags), raw) {
      MatchesThenFills(frags, raw);
    }
    if FillsTemplate(frags, raw) {
      var ws: seq<string> :| |ws| == |frags| - 1 && (forall k :: 0 <= k < |ws| ==> IsFiller(ws[k]))
        && Interleave(frags, ws) == raw;
      FillsThenMatches(frags, ws);
    }
  }

  /** A filler in front of a text that fills the remaining pieces fills the whole template. */
  lemma FillsCons(frags: seq<string>, w: string, v: string)
    requires |frags| >= 2 && IsFiller(w) && FillsTemplate(frags[1..], v)
    ensures FillsTemplate(frags, frags[0] + (w + v))
  {
    var ws: seq<string> :| |ws| == |frags| - 2 && (forall j :: 0 <= j < |ws| ==> IsFiller(ws[j]))
      && Interleave(frags[1..], ws) == v;
    var all := [w] + ws;
    assert all[0] == w && all[1..] == ws;
    InterleaveCons(frags, all);
    FillersCons(w, ws);
    assert |all| == |frags| - 1 && Interleave(frags, all) == frags[0] + (w + v);
  }

  lemma FillersCons(w: string, ws: seq<string>)
    requires IsFiller(w) && forall k :: 0 <= k < |ws| ==> IsFiller(ws[k])
    ensures forall k :: 0 <= k < |[w] + ws| ==> IsFiller(([w] + ws)[k])
  {
    forall k | 0 <= k < |[w] + ws| ensures IsFiller(([w] + ws)[k]) {
      if k > 0 { assert ([w] + ws)[k] == ws[k - 1]; }
    }
  }

  /** One piece and one wildcard: a match splits into the piece, a filler and a match of
      the remaining tokens. */
  lemma MatchesPieceWildcard(f: string, ts: seq<Token>, raw: string)
    requires Matches(Lits(f) + ([AnyPlus] + ts), raw)
    ensures exists w, v :: raw == f + (w + v) && IsFiller(w) && Matches(ts, v)
  {
    MatchesLits(f, [AnyPlus] + ts, raw);
    var u := raw[|f|..];
    assert raw == f + u;
    WildcardSplits(ts, u);
    var w, v :| u == w + v && IsFiller(w) && Matches(ts, v);
  }

  /** A match of the wildcard and more tokens is a filler followed by a match of the rest. */
  lemma WildcardSplits(ts: seq<Token>, u: string)
    requires Matches([AnyPlus] + ts, u)
    ensures exists w, v :: u == w + v && IsFiller(w) && Matches(ts, v)
  {
    MatchesAnyPlus(ts, u);
    var k :| 1 <= k <= |u| && NoLineTerminator(u[..k]) && Matches(ts, u[k..]);
    var w, v := u[..k], u[k..];
    assert u == w + v;
    assert IsFiller(w) && Matches(ts, v);
  }

  /** The converse step: the piece, a filler and a match of the remaining tokens match. */
  lemma PieceWildcardMatches(f: string, w: string, ts: seq<Token>, v: string)
    requires IsFiller(w) && Matches(ts, v)
    ensures Matches(Lits(f) + ([AnyPlus] + ts), f + (w + v))
  {
    var u := w + v;
    assert u[..|w|] == w && u[|w|..] == v;
    MatchesAnyPlus(ts, u);
    MatchesLits(f, [AnyPlus] + ts, f + u);
    assert (f + u)[..|f|] == f && (f + u)[|f|..] == u;
  }

  lemma {:induction false} MatchesThenFills(frags: seq<string>, raw: string)
    requires |frags| >= 1
    requires Matches(TemplateTokens(frags), raw)
    ensures FillsTemplate(frags, raw)
    decreases |frags|
  {
    var f := frags[0];
    if |frags| == 1 {
      MatchesLits(f, [], raw);
      assert Lits(f) + [] == Lits(f);
      var none: seq<string> := [];
      assert |none| == |frags| - 1 && Interleave(frags, none) == raw;
    } else {
      var rest := frags[1..];
      assert TemplateTokens(frags) == Lits(f) + ([AnyPlus] + TemplateTokens(rest));
      MatchesPieceWildcard(f, TemplateTokens(rest), raw);
      var w, v :| raw == f + (w + v) && IsFiller(w) && Matches(TemplateTokens(rest), v);
      MatchesThenFills(rest, v);
      FillsCons(frags, w, v);
    }
  }

  lemma {:induction false} FillsThenMatches(frags: seq<string>, ws: seq<string>)
    requires |frags| >= 1 && |ws| == |frags| - 1
    requires forall k :: 0 <= k < |ws| ==> IsFiller(ws[k])
    ensures Matches(TemplateTokens(frags), Interleave(frags, ws))
    decreases |frags|
  {
    var f := frags[0];
    if |frags| == 1 {
      MatchesLits(f, [], Interleave(frags, ws));
      assert Lits(f) + [] == Lits(f);
    } else {
      var rest := frags[1..];
      assert TemplateTokens(frags) == Lits(f) + ([AnyPlus] + TemplateTokens(rest));
      InterleaveCons(frags, ws);
      assert forall k :: 0 <= k < |ws[1..]| ==> IsFiller(ws[1..][k]) by {
        forall k | 0 <= k < |ws[1..]| ensures IsFiller(ws[1..][k]) { assert ws[1..][k] == ws[k + 1]; }
      }
      FillsThenMatches(rest, ws[1..]);
      PieceWildcardMatches(f, ws[0], TemplateTokens(rest), Interleave(rest, ws[1..]));
      assert Interleave(frags, ws) == f + (ws[0] + Interleave(rest, ws[1..]));
    }
  }

  /** The template test matches the raw name exactly when it is the pieces of `name`
      (split on its placeholders) with a non-empty single-line filler in place of each. */
  lemma TemplateTestFills(name: string, raw: string)
    ensures TemplateTest(name, raw) <==> FillsTemplate(Split(name), raw)
  {
    TemplatePatternCompiles(name);
    MatchesTemplateTokens(Split(name), raw);
  }

  /** Without placeholders the template test is plain equality with the raw name. */
  lemma TemplateTestOfPlain(name: string, raw: string)
    requires NoPlaceholder(name)
    ensures TemplateTest(name, raw) <==> raw == name
  {
    SplitOfPlain(name);
    TemplateTestFills(name, raw);
    assert Interleave([name], []) == name;
    if raw == name {
      var none: seq<string> := [];
      assert |none| == |[name]| - 1 && Interleave([name], none) == raw;
    }
  }

  // ---------------------------------------------------------------------------
  // The guard at parse.ts:38

  /** JavaScript truthiness of the number `search` returns. */
  predicate Truthy(n: int) {
    n != 0
  }

  /** `job.name?.search(/\$\{\{.+?\}\}/)` as an `if` condition: `undefined` is falsy,
      -1 (no placeholder) is truthy, 0 (placeholder at the start) is falsy. */
  predicate TemplateGuard(name: Option<string>) {
    match name
    case None => false
    case Some(n) => Truthy(SearchIndex(n))
  }

  /** The template branch runs exactly when `name` is defined and no placeholder starts
      at its index 0. */
  lemma TemplateGuardAsWritten(name: Option<string>)
    ensures TemplateGuard(name) <==>
      name.Some? && !(exists e :: 0 < e <= |name.value| && IsPlaceholder(name.value[..e]))
  {
    if name.Some? {
      SearchIsZero(name.value);
    }
  }

  // ---------------------------------------------------------------------------
  // The loop over the declared jobs

  /** The two tests of one loop iteration (parse.ts:34 and parse.ts:38-43), with the guard
      of the template branch as a parameter. */
  predicate JobMatchesWith(raw: string, canonical: string, key: string, job: JobSpec,
                           guard: Option<string> -> bool)
  {
    || canonical == key || Some(canonical) == job.name
    || (guard(job.name) && job.name.Some? && TemplateTest(job.name.value, raw))
  }

  /** Job `i` is the first one the loop stops at. */
  ghost predicate IsFirstMatchWith(raw: string, canonical: string, jobs: Jobs, i: int,
                                   guard: Option<string> -> bool)
  {
    && 0 <= i < |jobs|
    && JobMatchesWith(raw, canonical, jobs[i].0, jobs[i].1, guard)
    && forall j :: 0 <= j < i ==> !JobMatchesWith(raw, canonical, jobs[j].0, jobs[j].1, guard)
  }

  /** The `for…of` loop from a given job on: the first job that matches ends it with its
      `runs-on` (which may be undefined); if none does, the result is undefined. */
  function InferFrom(raw: string, canonical: string, jobs: Jobs, guard: Option<string> -> bool)
    : (r: Option<string>)
    ensures (forall i :: 0 <= i < |jobs| ==> !JobMatchesWith(raw, canonical, jobs[i].0, jobs[i].1, guard))
      ==> r == None
    ensures forall i :: IsFirstMatchWith(raw, canonical, jobs, i, guard) ==> r == jobs[i].1.runsOn
    ensures r.Some? ==>
      exists i :: 0 <= i < |jobs| && r == jobs[i].1.runsOn && JobMatchesWith(raw, canonical, jobs[i].0, jobs[i].1, guard)
    decreases |jobs|
  {
    if jobs == [] then None
    else
      var (k, job) := jobs[0];
      if canonical == k || Some(canonical) == job.name then job.runsOn
      else if guard(job.name) && job.name.Some? && TemplateTest(job.name.value, raw) then job.runsOn
      else
        var r := InferFrom(raw, canonical, jobs[1..], guard);
        assert forall i :: IsFirstMatchWith(raw, canonical, jobs, i, guard) ==>
          IsFirstMatchWith(raw, canonical, jobs[1..], i - 1, guard);
        r
  }

  /** A job matches the runtime name under the guard as written. */
  predicate JobMatches(raw: string, key: string, job: JobSpec) {
    JobMatchesWith(raw, GetCanonicalJobName(raw), key, job, TemplateGuard)
  }

  /** Job `i` is the first job that matches the runtime name. */
  ghost predicate IsFirstMatch(raw: string, jobs: Jobs, i: int) {
    IsFirstMatchWith(raw, GetCanonicalJobName(raw), jobs, i, TemplateGuard)
  }

  /** `inferRunner`. */
  function InferRunner(jobName: string, workflowDefinition: Option<Jobs>): (r: Option<string>)
    ensures workflowDefinition.None? ==> r == None
    ensures workflowDefinition.Some? ==>
      var jobs := workflowDefinition.value;
      && ((forall i :: 0 <= i < |jobs| ==> !JobMatches(jobName, jobs[i].0, jobs[i].1)) ==> r == None)
      && (forall i :: IsFirstMatch(jobName, jobs, i) ==> r == jobs[i].1.runsOn)
      && (r.Some? ==> exists i :: 0 <= i < |jobs| && r == jobs[i].1.runsOn && JobMatches(jobName, jobs[i].0, jobs[i].1))
  {
    match workflowDefinition
    case None => None
    case Some(jobs) => InferFrom(jobName, GetCanonicalJobName(jobName), jobs, TemplateGuard)
  }

  // ---------------------------------------------------------------------------
  // What one job matches, by the shape of its `name`

  /** A `name` without expressions: the job matches by its key, by its name equal to the
      canonical name, or by its name equal to the whole runtime name (the template branch
      runs, since `search` returns -1, and its pattern is the name taken literally). */
  lemma PlainNameJobMatches(raw: string, key: string, n: string, runsOn: Option<string>)
    requires NoPlaceholder(n)
    ensures var canonical := GetCanonicalJobName(raw);
      JobMatches(raw, key, JobSpec(Some(n), runsOn)) <==> canonical == key || canonical == n || raw == n
  {
    TemplateTestOfPlain(n, raw);
  }

  /** A `name` that starts with an expression never reaches the template branch: only the
      exact comparisons can match. */
  lemma LeadingPlaceholderJobMatches(raw: string, key: string, n: string, e: nat, runsOn: Option<string>)
    requires 0 < e <= |n| && IsPlaceholder(n[..e])
    ensures var canonical := GetCanonicalJobName(raw);
      JobMatches(raw, key, JobSpec(Some(n), runsOn)) <==> canonical == key || canonical == n
  {
    SearchIsZero(n);
  }

  /** A `name` with an expression further in: the job matches by the exact comparisons or
      when the runtime name is the pieces of the name with a filler for each expression. */
  lemma TemplateNameJobMatches(raw: string, key: string, n: string, runsOn: Option<string>)
    requires !NoPlaceholder(n)
    requires forall e :: 0 < e <= |n| ==> !IsPlaceholder(n[..e])
    ensures var canonical := GetCanonicalJobName(raw);
      JobMatches(raw, key, JobSpec(Some(n), runsOn)) <==>
        canonical == key || canonical == n || FillsTemplate(Split(n), raw)
  {
    SearchIsZero(n);
    TemplateTestFills(n, raw);
  }

  /** The template test of a name made of literal pieces and simple expressions accepts
      exactly the texts that put a filler in place of each expression. */
  lemma ExpressionNameTemplateTest(frags: seq<string>, es: seq<string>, raw: string)
    requires |es| >= 1 && |frags| == |es| + 1
    requires forall k :: 0 <= k < |frags| ==> '$' !in frags[k]
    requires forall k :: 0 <= k < |es| ==> IsSimpleExpression(es[k])
    ensures TemplateTest(Interleave(frags, Expressions(es)), raw) <==> FillsTemplate(frags, raw)
  {
    ExpressionNameSearch(frags, es);
    TemplateTestFills(Interleave(frags, Expressions(es)), raw);
  }

  /** A `name` made of literal pieces and at least one simple expression, not starting with
      one: the job matches by the exact comparisons or when the runtime name is those
      pieces with a filler in place of each expression. */
  lemma ExpressionNameJobMatches(raw: string, key: string, frags: seq<string>, es: seq<string>,
                                 runsOn: Option<string>)
    requires |es| >= 1 && |frags| == |es| + 1 && frags[0] != []
    requires forall k :: 0 <= k < |frags| ==> '$' !in frags[k]
    requires forall k :: 0 <= k < |es| ==> IsSimpleExpression(es[k])
    ensures var canonical, n := GetCanonicalJobName(raw), Interleave(frags, Expressions(es));
      JobMatches(raw, key, JobSpec(Some(n), runsOn)) <==>
        canonical == key || canonical == n || FillsTemplate(frags, raw)
  {
    var n := Interleave(frags, Expressions(es));
    ExpressionNameSearch(frags, es);
    SearchIsZero(n);
    TemplateNameJobMatches(raw, key, n, runsOn);
  }

  /** Where `search` finds the first expression of such a name, and what `split` returns. */
  lemma ExpressionNameSearch(frags: seq<string>, es: seq<string>)
    requires |es| >= 1 && |frags| == |es| + 1
    requires forall k :: 0 <= k < |frags| ==> '$' !in frags[k]
    requires forall k :: 0 <= k < |es| ==> IsSimpleExpression(es[k])
    ensures var n := Interleave(frags, Expressions(es));
      Split(n) == frags && SearchIndex(n) == |frags[0]|
  {
    var n := Interleave(frags, Expressions(es));
    SplitOfInterleave(frags, es);
    InterleaveCons(frags, Expressions(es));
    var t := Interleave(frags[1..], Expressions(es)[1..]);
    assert n[0..] == frags[0] + Expression(es[0]) + t;
    ExpressionAfterPiece(n, 0, frags[0], es[0], t);
  }

  /** Jobs are tried in order: a job that matches hides every job after it, and when none
      of the first jobs matches the result comes from the rest. */
  lemma {:induction false} InferFromAppend(raw: string, canonical: string, jobs: Jobs, more: Jobs,
                                          guard: Option<string> -> bool)
    ensures InferFrom(raw, canonical, jobs + more, guard) ==
      if exists i :: 0 <= i < |jobs| && JobMatchesWith(raw, canonical, jobs[i].0, jobs[i].1, guard)
      then InferFrom(raw, canonical, jobs, guard)
      else InferFrom(raw, canonical, more, guard)
    decreases |jobs|
  {
    if jobs == [] {
      assert jobs + more == more;
    } else {
      assert (jobs + more)[0] == jobs[0] && (jobs + more)[1..] == jobs[1..] + more;
      InferFromAppend(raw, canonical, jobs[1..], more, guard);
      if !JobMatchesWith(raw, canonical, jobs[0].0, jobs[0].1, guard) {
        if exists i :: 0 <= i < |jobs| && JobMatchesWith(raw, canonical, jobs[i].0, jobs[i].1, guard) {
          var i :| 0 <= i < |jobs| && JobMatchesWith(raw, canonical, jobs[i].0, jobs[i].1, guard);
          assert jobs[1..][i - 1] == jobs[i];
        }
      }
    }
  }

  // ---------------------------------------------------------------------------
  // The guard the comment at parse.ts:37 describes

  /** "Consider expression(s) in name property": the template branch runs when the name
      has an expression anywhere, `search` returning an index other than -1. */
  predicate TemplateGuardCorrected(name: Option<string>) {
    name.Some? && SearchIndex(name.value) != -1
  }

  /** `inferRunner` with the corrected guard. */
  function InferRunnerCorrected(jobName: string, workflowDefinition: Option<Jobs>): (r: Option<string>)
    ensures workflowDefinition.None? ==> r == None
    ensures workflowDefinition.Some? ==>
      var jobs := workflowDefinition.value;
      var canonical := GetCanonicalJobName(jobName);
      && ((forall i :: 0 <= i < |jobs| ==> !JobMatchesWith(jobName, canonical, jobs[i].0, jobs[i].1, TemplateGuardCorrected)) ==> r == None)
      && (forall i :: IsFirstMatchWith(jobName, canonical, jobs, i, TemplateGuardCorrected) ==> r == jobs[i].1.runsOn)
  {
    match workflowDefinition
    case None => None
    case Some(jobs) => InferFrom(jobName, GetCanonicalJobName(jobName), jobs, TemplateGuardCorrected)
  }

  /** The two guards differ only on names that start with an expression (only the corrected
      one lets them through) and on names without any (only the one as written does). */
  lemma GuardsDiffer(name: string)
    ensures TemplateGuard(Some(name)) && !TemplateGuardCorrected(Some(name)) <==> NoPlaceholder(name)
    ensures TemplateGuardCorrected(Some(name)) && !TemplateGuard(Some(name)) <==>
      exists e :: 0 < e <= |name| && IsPlaceholder(name[..e])
  {
    SearchIsZero(name);
  }

  /** With the corrected guard every name with expressions takes the template branch,
      wherever its first expression stands. */
  lemma CorrectedExpressionNameJobMatches(raw: string, key: string, frags: seq<string>, es: seq<string>,
                                          runsOn: Option<string>)
    requires |es| >= 1 && |frags| == |es| + 1
    requires forall k :: 0 <= k < |frags| ==> '$' !in frags[k]
    requires forall k :: 0 <= k < |es| ==> IsSimpleExpression(es[k])
    ensures var canonical, n := GetCanonicalJobName(raw), Interleave(frags, Expressions(es));
      JobMatchesWith(raw, canonical, key, JobSpec(Some(n), runsOn), TemplateGuardCorrected) <==>
        canonical == key || canonical == n || FillsTemplate(frags, raw)
  {
    var n := Interleave(frags, Expressions(es));
    ExpressionNameSearch(frags, es);
    TemplateTestFills(n, raw);
  }

  /** The declared job `b` named "${{ <x> }} build" on self-hosted. */
  function LeadingExpressionJobs(x: string): (jobs: Jobs) {
    [("b", JobSpec(Some(Expression(x) + " build"), Some("self-hosted")))]
  }

  /** `search` finds the expression of "${{ <x> }} build" at index 0. */
  lemma LeadingExpressionName(x: string)
    requires IsSimpleExpression(x)
    ensures SearchIndex(Expression(x) + " build") == 0
  {
    var frags := ["", " build"];
    assert frags[1..] == [" build"] && Expressions([x])[1..] == [];
    assert Interleave(frags, Expressions([x])) == Expression(x) + " build";
    ExpressionNameSearch(frags, [x]);
  }

  /** The template pattern of "${{ <x> }} build" matches "linux build". */
  lemma LeadingExpressionTemplate(x: string)
    requires IsSimpleExpression(x)
    ensures TemplateTest(Expression(x) + " build", "linux build")
  {
    var frags, ws := ["", " build"], ["linux"];
    assert frags[1..] == [" build"] && Expressions([x])[1..] == [];
    assert Interleave(frags, Expressions([x])) == Expression(x) + " build";
    assert ws[1..] == [];
    assert Interleave(frags, ws) == "linux build";
    assert IsFiller(ws[0]);
    ExpressionNameTemplateTest(frags, [x], "linux build");
  }

  /** The exact comparisons do not match "linux build" against the job `b`. */
  lemma LeadingExpressionNotExact(x: string)
    ensures GetCanonicalJobName("linux build") == "linux build"
    ensures "linux build" != Expression(x) + " build"
  {
    NoParenIsCanonical("linux build");
    assert (Expression(x) + " build")[0] == '$';
  }

  /** As written, the run "linux build" of a job named "${{ matrix.os }} build" is not
      attributed to it, although its template pattern matches. */
  lemma LeadingExpressionMissed(x: string)
    requires IsSimpleExpression(x)
    ensures TemplateTest(Expression(x) + " build", "linux build")
    ensures InferRunner("linux build", Some(LeadingExpressionJobs(x))) == None
  {
    LeadingExpressionTemplate(x);
    LeadingExpressionName(x);
    LeadingExpressionNotExact(x);
  }

  /** The corrected guard attributes that run to the job. */
  lemma LeadingExpressionFound(x: string)
    requires IsSimpleExpression(x)
    ensures InferRunnerCorrected("linux build", Some(LeadingExpressionJobs(x))) == Some("self-hosted")
  {
    var jobs := LeadingExpressionJobs(x);
    LeadingExpressionTemplate(x);
    LeadingExpressionName(x);
    assert TemplateGuardCorrected(jobs[0].1.name);
    assert IsFirstMatchWith("linux build", GetCanonicalJobName("linux build"), jobs, 0, TemplateGuardCorrected);
  }
}

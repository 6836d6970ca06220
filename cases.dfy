/** The cases of tests/workflowRun/parse.test.ts for `inferRunner` and `parseJobName`,
    stated about the model. Where a case's literal name would make the verifier evaluate the
    scanners character by character, the case is stated for every value of the part that
    varies (the matrix values, the expressions, the fillers), the literal one included. */
module ParseCases {
  import opened Wrappers
  import opened Text
  import opened CanonicalName
  import opened Placeholder
  import opened Inference
  import opened JobName
  import opened Workflow

  /** A single job `ts` running on ubuntu-latest, without a `name`. */
  function KeyOnly(): (jobs: Jobs) {
    [("ts", JobSpec(None, Some("ubuntu-latest")))]
  }

  /** A name followed by one matrix group, as GitHub Actions prints a matrix job. */
  lemma MatrixCanonical(base: string, values: string)
    requires '(' !in base && base != [] && base[|base| - 1] != ' '
    requires values != [] && ')' !in values && NoLineTerminator(values)
    ensures GetCanonicalJobName(base + " (" + values + ")") == base
  {
    CanonicalOfMatrixName(base, 1, values, "");
    OneSpace(base, values, "");
    assert base + " (" + values + ")" + "" == base + " (" + values + ")";
    assert base + "" == base;
  }

  /** One declared job whose key or name is the canonical runtime name. */
  lemma SingleJob(raw: string, key: string, job: JobSpec)
    requires GetCanonicalJobName(raw) == key || Some(GetCanonicalJobName(raw)) == job.name
    ensures InferRunner(raw, Some([(key, job)])) == job.runsOn
  {
  }

  lemma KeyOnlySimpleName()
    ensures InferRunner("ts", Some(KeyOnly())) == Some("ubuntu-latest")
  {
    NoParenIsCanonical("ts");
  }

  /** 'ts (1, 2, 3)', for any matrix values in the parentheses. */
  lemma KeyOnlyMatrixName(values: string)
    requires values != [] && ')' !in values && NoLineTerminator(values)
    ensures InferRunner("ts (" + values + ")", Some(KeyOnly())) == Some("ubuntu-latest")
  {
    MatrixCanonical("ts", values);
    assert "ts (" + values + ")" == "ts" + " (" + values + ")";
    SingleJob("ts (" + values + ")", "ts", JobSpec(None, Some("ubuntu-latest")));
  }

  lemma KeyOnlyNotFound()
    ensures InferRunner("foo", Some(KeyOnly())) == None
  {
    NoParenIsCanonical("foo");
  }

  /** A single job `ts` named "typescript build". */
  function Named(): (jobs: Jobs) {
    [("ts", JobSpec(Some("typescript build"), Some("ubuntu-latest")))]
  }

  lemma NamedSimpleName()
    ensures InferRunner("typescript build", Some(Named())) == Some("ubuntu-latest")
  {
    NoParenIsCanonical("typescript build");
  }

  lemma NamedNotFound()
    ensures InferRunner("foo", Some(Named())) == None
  {
    NoParenIsCanonical("foo");
    NoDollarNoPlaceholder("typescript build");
    PlainNameJobMatches("foo", "ts", "typescript build", Some("ubuntu-latest"));
  }

  /** 'typescript build (1, 2, 3)', for any matrix values. */
  lemma NamedMatrixName(values: string)
    requires values != [] && ')' !in values && NoLineTerminator(values)
    ensures InferRunner("typescript build (" + values + ")", Some(Named())) == Some("ubuntu-latest")
  {
    MatrixCanonical("typescript build", values);
    assert "typescript build (" + values + ")" == "typescript build" + " (" + values + ")";
    SingleJob("typescript build (" + values + ")", "ts", JobSpec(Some("typescript build"), Some("ubuntu-latest")));
  }

  /** The name of the job `foo`: "test / ${{ matrix.x }} / ${{ matrix.y }}", for any
      simple expressions in place of ` matrix.x ` and ` matrix.y `. */
  function ExprName(x: string, y: string): (name: string) {
    "test / " + Expression(x) + " / " + Expression(y)
  }

  /** `foo` with that name on self-hosted, then `bar` without a name. */
  function WithExpressions(x: string, y: string): (jobs: Jobs) {
    [("foo", JobSpec(Some(ExprName(x, y)), Some("self-hosted"))), ("bar", JobSpec(None, Some("ubuntu-latest")))]
  }

  /** The pieces around the two expressions. */
  lemma ExprNamePieces(x: string, y: string)
    ensures ExprName(x, y) == Interleave(["test / ", " / ", ""], Expressions([x, y]))
  {
    var frags, hs := ["test / ", " / ", ""], Expressions([x, y]);
    assert frags[1..] == [" / ", ""] && frags[1..][1..] == [""];
    assert hs[1..][1..] == [];
    assert Interleave(frags[1..], hs[1..]) == " / " + Expression(y) + "";
    assert Interleave(frags, hs) == "test / " + Expression(x) + (" / " + Expression(y) + "");
  }

  lemma ExprJobMatches(raw: string, x: string, y: string)
    requires IsSimpleExpression(x) && IsSimpleExpression(y)
    ensures JobMatches(raw, "foo", WithExpressions(x, y)[0].1) <==>
      GetCanonicalJobName(raw) == "foo" || GetCanonicalJobName(raw) == ExprName(x, y)
      || FillsTemplate(["test / ", " / ", ""], raw)
  {
    ExprNamePieces(x, y);
    ExpressionNameJobMatches(raw, "foo", ["test / ", " / ", ""], [x, y], Some("self-hosted"));
  }

  /** 'test / 32 / true', for any values of the two expressions. */
  lemma ExprMatrixName(x: string, y: string, a: string, b: string)
    requires IsSimpleExpression(x) && IsSimpleExpression(y)
    requires a != [] && NoLineTerminator(a) && b != [] && NoLineTerminator(b)
    ensures InferRunner("test / " + a + " / " + b, Some(WithExpressions(x, y))) == Some("self-hosted")
  {
    var raw, frags, ws := "test / " + a + " / " + b, ["test / ", " / ", ""], [a, b];
    assert frags[1..] == [" / ", ""] && frags[1..][1..] == [""];
    assert ws[1..] == [b] && ws[1..][1..] == [];
    assert Interleave(frags[1..], ws[1..]) == " / " + b + "";
    assert Interleave(frags, ws) == "test / " + a + (" / " + b + "");
    assert Interleave(frags, ws) == raw;
    assert IsFiller(ws[0]) && IsFiller(ws[1]);
    assert FillsTemplate(frags, raw);
    ExprJobMatches(raw, x, y);
    assert IsFirstMatch(raw, WithExpressions(x, y), 0);
  }

  /** 'baz' is neither a key nor a name and is shorter than the first piece "test / ". */
  lemma ExprNotFound(x: string, y: string)
    requires IsSimpleExpression(x) && IsSimpleExpression(y)
    ensures InferRunner("baz", Some(WithExpressions(x, y))) == None
  {
    NoParenIsCanonical("baz");
    ExprJobMatches("baz", x, y);
    assert !FillsTemplate(["test / ", " / ", ""], "baz");
  }

  lemma NormalName()
    ensures ParseJobName("normal-name") == JobNameAttributes("normal-name", None)
    ensures ParseJobName("normal-name / composite") == JobNameAttributes("normal-name / composite", None)
  {
    PlainJobName("normal-name");
    PlainJobName("normal-name / composite");
  }

  /** 'matrix (foo, bar) / name' and 'matrix (foo, bar) / name / composite', for any matrix
      values: the group and the space before it are removed, and the values are the matrix. */
  lemma MatrixThenName(values: string)
    requires values != [] && ')' !in values && NoLineTerminator(values)
    ensures ParseJobName("matrix (" + values + ")" + " / name") == JobNameAttributes("matrix" + " / name", Some(values))
    ensures ParseJobName("matrix (" + values + ")" + " / name / composite")
      == JobNameAttributes("matrix" + " / name / composite", Some(values))
  {
    MatrixThenRest(values, " / name");
    MatrixThenRest(values, " / name / composite");
  }

  /** The job named "matrix", a matrix group, then any suffix. */
  lemma MatrixThenRest(values: string, rest: string)
    requires values != [] && ')' !in values && NoLineTerminator(values)
    ensures ParseJobName("matrix (" + values + ")" + rest) == JobNameAttributes("matrix" + rest, Some(values))
  {
    assert "matrix (" + values + ")" + rest == ("matrix" + " (") + values + (")" + rest);
    assert "matrix" + " (" == "matrix (";
    MatrixJobName("matrix", values, rest);
  }

  /** The workflow of the `parseWorkflowFile` case: `jobs` holding `ts` on ubuntu-latest. */
  function LoadedWorkflow(): (v: JsValue) {
    Obj([("jobs", Obj([("ts", Obj([("runs-on", Str("ubuntu-latest"))]))]))])
  }

  lemma ParseLoadedWorkflow()
    ensures ParseWorkflowFile(LoadedWorkflow()) == Ok(LoadedWorkflow())
  {
    assert GetProperty(LoadedWorkflow(), "jobs") == LoadedWorkflow().entries[0].1;
  }

  /** An empty document, a scalar document, a top-level sequence and a top-level timestamp
      are refused; a `jobs:` key without a value (null), or with a timestamp, is accepted. */
  lemma ParseEdgeDocuments()
    ensures ParseWorkflowFile(Undefined) == Err(NotAnObject("undefined"))
    ensures ParseWorkflowFile(Null) == Err(NotAnObject("object"))
    ensures ParseWorkflowFile(Str("jobs")) == Err(NotAnObject("string"))
    ensures ParseWorkflowFile(Arr([])) == Err(InvalidJobsField(Arr([])))
    ensures ParseWorkflowFile(Obj([])) == Err(InvalidJobsField(Obj([])))
    ensures ParseWorkflowFile(Obj([("jobs", Null)])) == Ok(Obj([("jobs", Null)]))
    ensures ParseWorkflowFile(Instance("Date")) == Err(InvalidJobsField(Instance("Date")))
    ensures ParseWorkflowFile(Obj([("jobs", Instance("Date"))])) == Ok(Obj([("jobs", Instance("Date"))]))
  {
    assert GetProperty(Obj([("jobs", Null)]), "jobs") == Null;
    assert GetProperty(Obj([("jobs", Instance("Date"))]), "jobs") == Instance("Date");
  }
}

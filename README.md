# Job-name inference of the workflow-run metrics action

This project is a Dafny model of `src/workflowRun/parse.ts`, with proofs about it. That
file is the part of the GitHub Actions OpenTelemetry exporter that relates a job name
reported at run time to the job declared in the workflow file. It does four things:

- `parseWorkflowFile` checks the shape of the loaded workflow document.
- `getCanonicalJobName` removes the first matrix annotation `(…)`, with the spaces before
  it, from a runtime job name.
- `inferRunner` finds the declared job a runtime name belongs to and returns its `runs-on`.
  A job matches when its key or `name` equals the canonical name. A job also matches when
  its `name` contains `${{ … }}` expressions and the runtime name fits it as a template:
  the pieces of the name, escaped by `escapeRegex` and joined by `.+?`, then tested as an
  anchored regular expression against the raw runtime name.
- `parseJobName` returns the canonical name and the first parenthesised matrix group.

Everything in the model is pure, as in the source. Every operation is a function, and the
properties are lemmas and `ensures` clauses.

Each regular expression the source searches has its own scanner, proved against a
declarative predicate:

- ` *\(.+?\)` is `CanonicalName.IsAnnotation`.
- `\$\{\{.+?\}\}` is `Placeholder.IsPlaceholder`.
- `\(([^)]+)\)` is `JobName.IsMatrixGroup`.

The fourth, the class `escapeRegex` replaces, is a test on one character
(`RegExpModel.IsSyntaxChar`) applied to each character by `Escape.EscapeRegex`.

Each scanner's contract states that it returns the leftmost match and, for lazy patterns,
the shortest one at that start, or that no match exists. In these patterns `.` matches any
character except `\n`, `\r`, U+2028 and U+2029.

The pattern built at run time is modelled by reading its source text (`RegExpModel`). The
text is read in the fragment of ECMAScript regular expressions that the builder can
produce: `^`, `$`, escaped syntax characters, plain characters and `.+?`. The anchored
tokens are then matched against the whole input. The central result, `TemplateTestFills`,
characterises that test without any regular expression: the raw name is the pieces of the
`name` with a non-empty, single-line filler in place of each expression.

The guard of the template branch (parse.ts line 38) is modelled as written:

- `search` returns -1 when there is no expression, and -1 is truthy. The branch therefore
  runs for plain names too, where it reduces to `raw == name`.
- `search` returns 0 when the name starts with an expression, and 0 is falsy. The branch is
  skipped.

A corrected guard stands beside it (see Findings).

The cases of `tests/workflowRun/parse.test.ts` are restated as lemmas in `ParseCases`. Where
a case has a matrix value or an expression in it, the lemma is stated for every value of
that part, the one the case uses included.

Two smaller observations are proved.

- **The two regular expressions disagree on multi-line groups.** `.` cannot cross a line
  break but `[^)]` can. A parenthesised group with a line break inside is therefore kept in
  `job.canonical_name` while also being reported as `job.matrix` (`MultiLineGroup`).
- **Canonicalisation is idempotent only in part.** It is proved idempotent for names with at
  most one `(` (`CanonicalIdempotent`). A name carrying two annotations loses only the first
  on the first application, so a second application changes it again
  (`CanonicalOfTwoAnnotations`).

Notable behaviours of the code:

- `parseWorkflowFile` returns the whole loaded document, not only its `jobs`.
- `jobs: null`, a sequence under `jobs` and a timestamp under `jobs` pass the check, because
  `typeof` gives "object" for null, an array and a `Date`.
- A top-level sequence or timestamp passes the first check and fails the second.

## Model

| member | source | states |
|---|---|---|
| Workflow.TypeOf | src/workflowRun/parse.ts:14 | `typeof` is "object" exactly for null, sequences, mappings and the loader's other objects (`Date`, `Uint8Array`) |
| Workflow.GetProperty | src/workflowRun/parse.ts:18 | property access yields the value of the mapping's entry with that key, and undefined when there is none or the value is not a mapping |
| Workflow.Lookup | src/workflowRun/parse.ts:18 | the value found belongs to the first entry with the key; a key that no entry has gives undefined |
| Workflow.ParseWorkflowFile | src/workflowRun/parse.ts:12-22 | accepted exactly when the document is a mapping whose `jobs` is a mapping, a sequence, null or another object, and then returned unchanged; a non-object or null fails the first check with its `typeof`; a sequence, another object, or a mapping without such `jobs`, fails the second check carrying the document |
| CanonicalName.AnnotationLength | src/workflowRun/parse.ts:24 | every match of ` *\(.+?\)` has at least three characters and ends in `)` |
| CanonicalName.AnnotationShape | src/workflowRun/parse.ts:24 | every match is a run of spaces, then `(`, then at least one single-line character, then `)` |
| CanonicalName.SpacesThenGroup | src/workflowRun/parse.ts:24 | conversely, spaces followed by such a group form a match |
| CanonicalName.ParenGroupAt | src/workflowRun/parse.ts:24 | a slice matches `\(.+?\)` exactly when it starts with `(`, ends with `)` and has at least one character between them, none a line terminator |
| CanonicalName.FindAnnotation | src/workflowRun/parse.ts:24 | the scanner returns the leftmost start at which a match begins and the shortest match there, or reports that there is no match from that point on |
| CanonicalName.FirstAnnotationUnique | src/workflowRun/parse.ts:24 | the match `replace` removes is unique |
| CanonicalName.GetCanonicalJobName | src/workflowRun/parse.ts:24 | without a match the name is returned unchanged; otherwise exactly the first match is removed, with the text before and after it kept verbatim; the result is never longer, and has the same length only when nothing matched |
| CanonicalName.NoParenIsCanonical | src/workflowRun/parse.ts:24 | a name without `(` has no match and is its own canonical name |
| CanonicalName.MatrixNameFirstAnnotation | src/workflowRun/parse.ts:24 | in `base`, spaces, `(values)`, `rest`, the first match spans exactly the spaces and the group |
| CanonicalName.CanonicalOfMatrixName | src/workflowRun/parse.ts:24 | the canonical name of `base`, spaces, `(values)`, `rest` is `base + rest` |
| CanonicalName.FirstAnnotationAt | src/workflowRun/parse.ts:24 | a group whose `(` is the first in the name, preceded by a maximal run of spaces and closed at the nearest `)`, is the first match |
| CanonicalName.CanonicalOfTwoAnnotations | src/workflowRun/parse.ts:24 | `base (v) (w)` canonicalises to `base (w)`, which is changed by a second application: `replace` without the global flag removes one annotation per call |
| CanonicalName.CanonicalIdempotent | src/workflowRun/parse.ts:24 | for a name with at most one `(`, canonicalising a second time changes nothing |
| Escape.SyntaxCount | src/workflowRun/parse.ts:51 | counts the characters of a string that belong to the class `escapeRegex` escapes (never more than the string's length); it measures the growth stated for `EscapeRegex` |
| Escape.EscapeRegex | src/workflowRun/parse.ts:51 | the result is longer than the input by exactly the number of syntax characters, and a string without any is returned unchanged |
| Escape.TokenizeEscaped | src/workflowRun/parse.ts:51 | read as pattern source, the escaped string yields the literal tokens of the original string, followed by whatever follows it |
| Escape.TokenizeEscapedChar | src/workflowRun/parse.ts:51 | a backslash followed by a syntax character reads as that character taken literally |
| Escape.TokenizePlainChar | src/workflowRun/parse.ts:51 | any other character reads as itself |
| Escape.EscapedMatchesItself | src/workflowRun/parse.ts:51 | the anchored escaped string compiles to the literal tokens of the original string and matches exactly that string |
| RegExpModel.IsSyntaxChar | src/workflowRun/parse.ts:51 | the characters `escapeRegex` escapes: `\ ^ $ * + ? . ( ) [ ] { }` and the vertical bar, which is ECMAScript's SyntaxCharacter set |
| RegExpModel.Tokenize | src/workflowRun/parse.ts:43 | reads a pattern body: `\` followed by a syntax character is that character taken literally, `.+?` is the lazy wildcard, any other non-syntax character is itself, and anything else lies outside the modelled fragment |
| RegExpModel.Compile | src/workflowRun/parse.ts:43 | `new RegExp(pattern)` for a pattern anchored by `^` and `$`, tokenising the text between the anchors |
| RegExpModel.Matches | src/workflowRun/parse.ts:43 | the anchored tokens match the whole input: a literal consumes its own character, the wildcard one or more characters that are not line terminators |
| RegExpModel.Test | src/workflowRun/parse.ts:43 | `RegExp.prototype.test` on such a pattern; a pattern outside the fragment is given no match |
| RegExpModel.Lits | src/workflowRun/parse.ts:43 | the literal tokens of a string, one per character |
| RegExpModel.MatchesLits | src/workflowRun/parse.ts:43 | a literal prefix of the pattern matches exactly that prefix of the input and leaves the rest to the remaining tokens |
| RegExpModel.MatchesAnyPlus | src/workflowRun/parse.ts:43 | `.+?` followed by more tokens matches when some non-empty single-line prefix is followed by a match of the rest, and only then |
| Placeholder.PlaceholderAt | src/workflowRun/parse.ts:38 | a slice matches `\$\{\{.+?\}\}` exactly when it starts with `${{`, ends with `}}` and has at least one character between them, none a line terminator |
| Placeholder.FindPlaceholder | src/workflowRun/parse.ts:38-40 | the scanner for `\$\{\{.+?\}\}` returns the leftmost, shortest match from a start position, or reports that there is none |
| Placeholder.FirstPlaceholderUnique | src/workflowRun/parse.ts:38-40 | that match is unique |
| Placeholder.SearchIndex | src/workflowRun/parse.ts:38 | `search` returns -1 exactly when the name has no expression; otherwise it returns the index where the first one starts, and no expression starts before it |
| Placeholder.SearchIsZero | src/workflowRun/parse.ts:38 | `search` returns 0 exactly when an expression starts the name |
| Placeholder.NoDollarNoPlaceholder | src/workflowRun/parse.ts:38 | a name without `$` has no expression |
| Placeholder.SplitFrom | src/workflowRun/parse.ts:40 | splitting from a position yields at least one piece, and no piece contains an expression |
| Placeholder.Split | src/workflowRun/parse.ts:40 | `split` yields at least one piece, and no piece contains an expression |
| Placeholder.SplitReassembles | src/workflowRun/parse.ts:40 | there is one more piece than there are matches removed, and the pieces interleaved with the removed expressions give back the name |
| Placeholder.SplitOfPlain | src/workflowRun/parse.ts:40 | a name without an expression splits into itself alone |
| Placeholder.Expression | src/workflowRun/parse.ts:38 | builds the text of a workflow expression: `${{`, then exactly the expression text, then `}}` |
| Placeholder.ExpressionAfterPiece | src/workflowRun/parse.ts:38-40 | after a piece without `$`, the scanner finds exactly the simple expression that follows it |
| Placeholder.SplitFromInterleave | src/workflowRun/parse.ts:40 | splitting pieces without `$` joined by simple expressions yields exactly those pieces |
| Placeholder.SplitOfInterleave | src/workflowRun/parse.ts:40 | the same for the whole name |
| Text.JoinWith | src/workflowRun/parse.ts:42 | `Array.prototype.join`: the result starts with the first piece, followed by the separator when there is a second piece |
| Inference.TemplatePattern | src/workflowRun/parse.ts:39-42 | the pattern source built from `name`: its pieces split on the expressions, each escaped, joined by `.+?`, anchored by `^` and `$` |
| Inference.TemplateTest | src/workflowRun/parse.ts:43 | `new RegExp(pattern).test(jobName)` for the pattern built from `name` |
| Inference.EscapeAll | src/workflowRun/parse.ts:41 | `.map(escapeRegex)` escapes every piece and keeps their number |
| Inference.TokenizeJoined | src/workflowRun/parse.ts:39-42 | the escaped pieces joined by `.+?` read as each piece taken literally, with a wildcard between consecutive pieces |
| Inference.TemplatePatternCompiles | src/workflowRun/parse.ts:39-43 | the pattern built from any `name` is anchored, lies inside the modelled fragment, and compiles to the pieces of `name` taken literally with a wildcard between them |
| Inference.MatchesTemplateTokens | src/workflowRun/parse.ts:43 | those tokens match a text exactly when the text is the pieces with a non-empty single-line filler between consecutive pieces |
| Inference.FillsCons | src/workflowRun/parse.ts:43 | the first piece, a filler and a filling of the remaining pieces together fill the template |
| Inference.TemplateTestFills | src/workflowRun/parse.ts:38-43 | the template test accepts the raw name exactly when the raw name is the pieces of `name` split on its expressions, with a non-empty single-line filler in place of each expression |
| Inference.TemplateTestOfPlain | src/workflowRun/parse.ts:39-43 | for a name without expressions the template test is equality with the raw name |
| Inference.TemplateGuard | src/workflowRun/parse.ts:38 | the guard as written: `job.name?.search(…)` as a JavaScript condition, false for an undefined name and for index 0, true for -1 and any positive index |
| Inference.TemplateGuardAsWritten | src/workflowRun/parse.ts:38 | the template branch runs exactly when `name` is defined and no expression starts at its index 0 |
| Inference.JobMatchesWith | src/workflowRun/parse.ts:34-45 | one iteration of the loop: the job matches when the canonical name equals its key or its name, or when the guard lets its name through and the template of that name accepts the raw name |
| Inference.JobMatches | src/workflowRun/parse.ts:34-45 | that test with the canonical name of the raw name and the guard as written |
| Inference.InferFrom | src/workflowRun/parse.ts:31-47 | the loop returns the `runs-on` of the first job that matches; when no job matches it returns undefined; a defined result is the `runs-on` of some matching job |
| Inference.InferRunner | src/workflowRun/parse.ts:26-48 | without a definition the result is undefined; otherwise the first job whose key or name equals the canonical name, or whose template accepts the raw name, gives its `runs-on`; when no job matches the result is undefined; a defined result is the `runs-on` of a matching job |
| Inference.InferFromAppend | src/workflowRun/parse.ts:31-36 | jobs are tried in order: a match among the first jobs hides every later job, and when none of them matches the result comes from the later ones |
| Inference.PlainNameJobMatches | src/workflowRun/parse.ts:34-45 | a job whose `name` has no expression matches exactly when the canonical name equals its key or name, or when the raw name equals its name |
| Inference.LeadingPlaceholderJobMatches | src/workflowRun/parse.ts:34-38 | a job whose `name` starts with an expression matches only by the exact comparisons |
| Inference.TemplateNameJobMatches | src/workflowRun/parse.ts:34-45 | a job whose `name` has an expression, but not at its start, matches exactly by the exact comparisons or by the raw name filling the pieces of the name |
| Inference.ExpressionNameSearch | src/workflowRun/parse.ts:38-40 | for a name built from pieces without `$` and simple expressions, `split` gives back those pieces and `search` returns the length of the first piece |
| Inference.ExpressionNameTemplateTest | src/workflowRun/parse.ts:38-43 | the template of such a name accepts exactly the texts that put a filler in place of each expression |
| Inference.ExpressionNameJobMatches | src/workflowRun/parse.ts:34-45 | a job with such a name, not starting with an expression, matches exactly by the exact comparisons or by the raw name filling its pieces |
| Inference.TemplateGuardCorrected | src/workflowRun/parse.ts:37-38 | the corrected guard: the name is defined and `search` finds an expression, i.e. returns an index other than -1 |
| Inference.InferRunnerCorrected | src/workflowRun/parse.ts:37-45 | `inferRunner` with the guard "the name contains an expression": without a definition the result is undefined; the first matching job gives its `runs-on`; no match gives undefined |
| Inference.GuardsDiffer | src/workflowRun/parse.ts:38 | only the guard as written lets a name without expressions through; only the corrected guard lets through a name that starts with an expression |
| Inference.CorrectedExpressionNameJobMatches | src/workflowRun/parse.ts:37-45 | with the corrected guard, a job whose name has expressions matches by the exact comparisons or by the raw name filling its pieces, wherever its first expression stands |
| Inference.LeadingExpressionMissed | src/workflowRun/parse.ts:38 | a job named `${{ x }} build` is not found for the run "linux build", although its template accepts that name |
| Inference.LeadingExpressionFound | src/workflowRun/parse.ts:37-45 | with the corrected guard the same run is attributed to the job |
| JobName.FindMatrixGroup | src/workflowRun/parse.ts:59 | the scanner for `\(([^)]+)\)` returns the leftmost match, or reports that there is none |
| JobName.MatrixGroupUnique | src/workflowRun/parse.ts:59 | a start position has at most one match |
| JobName.GroupCloses | src/workflowRun/parse.ts:59 | a match closes at the first `)` after its `(` |
| JobName.FirstMatrix | src/workflowRun/parse.ts:59-67 | absent exactly when the name has no group `(`, then one or more characters other than `)`, then `)`; otherwise the text inside the first such group, which is non-empty and has no `)` |
| JobName.FirstMatrixGroupAt | src/workflowRun/parse.ts:59 | a group opened by the first `(` of the name and closed by the next `)` is the first match |
| JobName.ParseJobName | src/workflowRun/parse.ts:53-70 | `job.canonical_name` is the canonical name of the input, and `job.matrix` is the inner text of its first matrix group, present exactly when there is one |
| JobName.PlainJobName | src/workflowRun/parse.ts:57-65 | a name without `(` is its own canonical name and has no matrix |
| JobName.MatrixJobName | src/workflowRun/parse.ts:53-70 | `base (values) rest` gives the canonical name `base + rest` and the matrix `values` |
| JobName.MatrixOfMatrixName | src/workflowRun/parse.ts:59-67 | the matrix of `base (values) rest` is `values` when `base` has no `(` |
| JobName.MultiLineGroup | src/workflowRun/parse.ts:57-69 | a single group with a line break inside is kept in the canonical name but still reported as the matrix |
| ParseCases.SingleJob | src/workflowRun/parse.ts:34-35 | a single job whose key or name equals the canonical name gives its `runs-on` |
| ParseCases.MatrixCanonical | src/workflowRun/parse.ts:24 | `base (values)` canonicalises to `base` |
| ParseCases.KeyOnlySimpleName | tests/workflowRun/parse.test.ts:27-30 | "ts" finds the job keyed `ts` and gives ubuntu-latest |
| ParseCases.KeyOnlyMatrixName | tests/workflowRun/parse.test.ts:31-34 | "ts (values)" gives ubuntu-latest for any single-line values without `)` |
| ParseCases.KeyOnlyNotFound | tests/workflowRun/parse.test.ts:35-38 | "foo" gives undefined |
| ParseCases.NamedSimpleName | tests/workflowRun/parse.test.ts:51-54 | "typescript build" finds the job by its name |
| ParseCases.NamedMatrixName | tests/workflowRun/parse.test.ts:55-58 | "typescript build (values)" finds it for any such values |
| ParseCases.NamedNotFound | tests/workflowRun/parse.test.ts:59-62 | "foo" gives undefined, the template branch included |
| ParseCases.ExprNamePieces | tests/workflowRun/parse.test.ts:69 | the name `test / ${{x}} / ${{y}}` is the pieces "test / ", " / ", "" around the two expressions |
| ParseCases.ExprJobMatches | tests/workflowRun/parse.test.ts:65-77 | the job `foo` matches exactly by its key, by its name, or by a raw name filling those pieces |
| ParseCases.ExprMatrixName | tests/workflowRun/parse.test.ts:78-81 | "test / a / b" gives self-hosted for any single-line a and b, and any simple expressions in the name |
| ParseCases.ExprNotFound | tests/workflowRun/parse.test.ts:82-85 | "baz" gives undefined |
| ParseCases.NormalName | tests/workflowRun/parse.test.ts:90-101 | "normal-name" and "normal-name / composite" keep their names and have no matrix |
| ParseCases.MatrixThenName | tests/workflowRun/parse.test.ts:102-115 | "matrix (values) / name" gives "matrix / name", and "matrix (values) / name / composite" gives "matrix / name / composite", both with the matrix `values` |
| ParseCases.ParseLoadedWorkflow | tests/workflowRun/parse.test.ts:3-16 | the document with `jobs.ts.runs-on` is returned unchanged |
| ParseCases.ParseEdgeDocuments | src/workflowRun/parse.ts:14-20 | an empty document, null and a string fail the first check with their `typeof`; an empty sequence, a top-level timestamp and a mapping without `jobs` fail the second; `jobs: null` and a timestamp under `jobs` pass |

## Left out

- `yaml.load` (js-yaml, parse.ts line 13) is a foreign library. Its result is the input of `Workflow.ParseWorkflowFile`, a `JsValue`. Parsing YAML text, duplicate-key errors and non-integer numbers are not modelled. Objects that are not plain mappings (`Date`, `Uint8Array`) are kept only as their class name (`Instance`): their contents are not modelled.
- The error message text is not modelled. `JSON.stringify` of the document in the second error is represented by carrying the document itself in `InvalidJobsField`.
- `inferRunner` works on a typed view of the workflow: a sequence of (key, job) pairs with an optional string `name` and an optional string `runs-on`. The source's unchecked cast to that type is not modelled.
- The `TypeError`s the source raises on ill-typed documents are left out: a null `jobs` at `Object.keys`, a null job body at `job.name`, and a `name` that is not a string at `search`.
- The order of `Object.keys` is taken as given by the sequence of jobs. The JavaScript rule that integer-like keys come first is not modelled.
- Only the fragment of ECMAScript regular expressions that the template builder can produce is modelled, not a general engine. A pattern outside it counts as no match, and `Inference.TemplatePatternCompiles` proves every built pattern is inside it.
- Code points outside the basic plane and Unicode details are not modelled, beyond the four line terminators that `.` excludes.
- `src/run.ts` (event dispatch and API calls), `src/otel` (exporter set-up) and `src/main.ts` (action inputs) are not part of this model: they are I/O and library wiring.
- CanonicalName.CanonicalIdempotent: proved only for names with at most one `(`. Idempotence fails in general, because each application removes only one annotation (`CanonicalName.CanonicalOfTwoAnnotations`).
- The literal values of the test cases ("1, 2, 3", "foo, bar", "32", "true", ` matrix.x `) are covered by lemmas about every value of that part, not restated as separate literal lemmas. This spares the verifier from evaluating scanners character by character.

## Findings

| source | as written | input that shows it | evidently intended | confidence | as-written member | corrected member |
|---|---|---|---|---|---|---|
| src/workflowRun/parse.ts:38 | `if (job.name?.search(...))` treats `search`'s index as a truthy value. Index 0 (an expression at the start of the name) skips the template branch, and -1 (no expression) enters it | job `b` named `${{ matrix.os }} build` on self-hosted, run name "linux build": the template accepts the name, but `inferRunner` returns undefined | the branch runs when the name contains an expression, i.e. `search(...) !== -1`; with that guard the run is attributed to `b` | not executed | Inference.LeadingExpressionMissed | Inference.LeadingExpressionFound |

The corrected guard is `Inference.TemplateGuardCorrected`, used by
`Inference.InferRunnerCorrected`. For names with expressions it behaves like the guard as
written everywhere else (`Inference.GuardsDiffer`, `Inference.CorrectedExpressionNameJobMatches`).
It also drops the plain-name template match, which as written accepts a runtime name equal
to the declared name even when the name carries parentheses. `Inference.InferRunner` stays the
model of the code as written, so that the cases from the test file are stated about the
code itself.

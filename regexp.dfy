/** The fragment of ECMAScript regular expressions that the template patterns of
    `inferRunner` are built from: the anchors `^` and `$` around a body made of escaped
    syntax characters (`\(`), plain characters, and the lazy wildcard `.+?`. `RegExp.test`
    on such a pattern is modelled by tokenising the pattern source and matching the
    tokens against the whole input. */
module RegExpModel {
  import opened Wrappers
  import opened Text

  /** ECMAScript's SyntaxCharacter set: `^ $ \ . * + ? ( ) [ ] { } |`. */
  predicate IsSyntaxChar(c: char) {
    || c == '\\' || c == '^' || c == '$' || c == '*' || c == '+' || c == '?' || c == '.'
    || c == '(' || c == ')' || c == '|' || c == '[' || c == ']' || c == '{' || c == '}'
  }

  /** A pattern atom: a literal character, or `.+?` (one or more characters that are not
      line terminators; laziness does not change whether `test` succeeds). */
  datatype Token = Lit(c: char) | AnyPlus

  /** `ts` in front of a tokenising result; a failure stays a failure. */
  function Prepend(ts: seq<Token>, rest: Option<seq<Token>>): (r: Option<seq<Token>>) {
    match rest
    case Some(us) => Some(ts + us)
    case None => None
  }

  function Cons(t: Token, rest: Option<seq<Token>>): (r: Option<seq<Token>>) {
    Prepend([t], rest)
  }

  /** Reads a pattern body; None when it uses syntax outside the fragment. */
  function Tokenize(p: string): (r: Option<seq<Token>>)
    decreases |p|
  {
    if p == [] then Some([])
    else if p[0] == '\\' then
      if |p| >= 2 && IsSyntaxChar(p[1]) then Cons(Lit(p[1]), Tokenize(p[2..])) else None
    else if |p| >= 3 && p[0] == '.' && p[1] == '+' && p[2] == '?' then Cons(AnyPlus, Tokenize(p[3..]))
    else if IsSyntaxChar(p[0]) then None
    else Cons(Lit(p[0]), Tokenize(p[1..]))
  }

  /** `new RegExp(pattern)` for a pattern anchored at both ends. */
  function Compile(pattern: string): (r: Option<seq<Token>>) {
    if |pattern| >= 2 && pattern[0] == '^' && pattern[|pattern| - 1] == '$'
    then Tokenize(pattern[1..|pattern| - 1])
    else None
  }

  /** The tokens match the whole of `t`. */
  predicate Matches(toks: seq<Token>, t: string)
    decreases |toks|
  {
    if toks == [] then t == []
    else match toks[0]
      case Lit(c) => |t| > 0 && t[0] == c && Matches(toks[1..], t[1..])
      case AnyPlus =>
        exists k :: 1 <= k <= |t| && NoLineTerminator(t[..k]) && Matches(toks[1..], t[k..])
  }

  /** `new RegExp(pattern).test(t)`; a pattern outside the fragment is given no match. */
  predicate Test(pattern: string, t: string) {
    match Compile(pattern)
    case Some(toks) => Matches(toks, t)
    case None => false
  }

  /** The tokens of a literal string. */
  function Lits(s: string): (r: seq<Token>)
    ensures |r| == |s| && forall k :: 0 <= k < |s| ==> r[k] == Lit(s[k])
  {
    seq(|s|, k requires 0 <= k < |s| => Lit(s[k]))
  }

  /** A literal prefix matches exactly itself and leaves the rest to the remaining tokens. */
  lemma {:induction false} MatchesLits(s: string, rest: seq<Token>, t: string)
    ensures Matches(Lits(s) + rest, t) <==> |s| <= |t| && t[..|s|] == s && Matches(rest, t[|s|..])
    decreases |s|
  {
    if s != [] {
      var toks := Lits(s) + rest;
      assert toks[0] == Lit(s[0]);
      assert toks[1..] == Lits(s[1..]) + rest;
      if |t| > 0 {
        MatchesLits(s[1..], rest, t[1..]);
      }
      if |t| > 0 && |s| <= |t| {
        assert t[..|s|] == [t[0]] + t[1..][..|s| - 1];
        assert t[1..][|s| - 1..] == t[|s|..];
      }
    } else {
      assert Lits(s) + rest == rest;
    }
  }

  /** `.+?` followed by `rest` matches when some non-empty single-line prefix is followed by
      a match of `rest`, and only then. */
  lemma MatchesAnyPlus(rest: seq<Token>, u: string)
    ensures Matches([AnyPlus] + rest, u) <==>
      exists k :: 1 <= k <= |u| && NoLineTerminator(u[..k]) && Matches(rest, u[k..])
  {
    var toks := [AnyPlus] + rest;
    assert toks[0] == AnyPlus && toks[1..] == rest;
  }
}

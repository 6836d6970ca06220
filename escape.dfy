/** `escapeRegex`: `s.replace(/[\\^$*+?.()|[\]{}]/g, '\\$&')`, one backslash before every
    syntax character. */
module Escape {
  import opened Wrappers
  import opened RegExpModel

  /** The number of syntax characters in `s`. */
  function SyntaxCount(s: string): (n: nat)
    ensures n <= |s|
  {
    if s == [] then 0 else (if IsSyntaxChar(s[0]) then 1 else 0) + SyntaxCount(s[1..])
  }

  /** `escapeRegex`. Each syntax character gains exactly one backslash; nothing else changes. */
  function EscapeRegex(s: string): (r: string)
    ensures |r| == |s| + SyntaxCount(s)
    ensures SyntaxCount(s) == 0 ==> r == s
  {
    if s == [] then []
    else (if IsSyntaxChar(s[0]) then ['\\', s[0]] else [s[0]]) + EscapeRegex(s[1..])
  }

  /** The escaped text reads back as the literal characters of the source, one token each. */
  lemma {:induction false} TokenizeEscaped(s: string, rest: string)
    ensures Tokenize(EscapeRegex(s) + rest) == Prepend(Lits(s), Tokenize(rest))
    decreases |s|
  {
    if s == [] {
      assert EscapeRegex(s) + rest == rest;
      match Tokenize(rest)
      case Some(ts) => assert Lits(s) + ts == ts;
      case None =>
    } else {
      TokenizeEscaped(s[1..], rest);
      TokenizeEscapedStep(s, rest);
    }
  }

  /** One character of the escaped text: it becomes one literal token in front of the rest. */
  lemma TokenizeEscapedStep(s: string, rest: string)
    requires s != []
    requires Tokenize(EscapeRegex(s[1..]) + rest) == Prepend(Lits(s[1..]), Tokenize(rest))
    ensures Tokenize(EscapeRegex(s) + rest) == Prepend(Lits(s), Tokenize(rest))
  {
    EscapedHead(s, rest);
    assert Lits(s) == [Lit(s[0])] + Lits(s[1..]);
    ConsPrepend(Lit(s[0]), Lits(s[1..]), Tokenize(rest));
  }

  /** The escaped form of the first character reads as that character, taken literally. */
  lemma EscapedHead(s: string, rest: string)
    requires s != []
    ensures Tokenize(EscapeRegex(s) + rest) == Cons(Lit(s[0]), Tokenize(EscapeRegex(s[1..]) + rest))
  {
    var tail := EscapeRegex(s[1..]) + rest;
    if IsSyntaxChar(s[0]) {
      assert EscapeRegex(s) + rest == ['\\', s[0]] + tail;
      TokenizeEscapedChar(s[0], tail);
    } else {
      assert EscapeRegex(s) + rest == [s[0]] + tail;
      TokenizePlainChar(s[0], tail);
    }
  }

  lemma TokenizeEscapedChar(c: char, tail: string)
    requires IsSyntaxChar(c)
    ensures Tokenize(['\\', c] + tail) == Cons(Lit(c), Tokenize(tail))
  {
    assert (['\\', c] + tail)[2..] == tail;
  }

  lemma TokenizePlainChar(c: char, tail: string)
    requires !IsSyntaxChar(c)
    ensures Tokenize([c] + tail) == Cons(Lit(c), Tokenize(tail))
  {
    var p := [c] + tail;
    assert p[1..] == tail;
    assert p[0] == c;
  }

  lemma ConsPrepend(t: Token, ts: seq<Token>, o: Option<seq<Token>>)
    ensures Cons(t, Prepend(ts, o)) == Prepend([t] + ts, o)
  {
    match o
    case Some(us) => assert [t] + (ts + us) == ([t] + ts) + us;
    case None =>
  }

  /** The escaped fragment, anchored, matches its literal source and nothing else. */
  lemma EscapedMatchesItself(s: string, t: string)
    ensures Compile("^" + EscapeRegex(s) + "$") == Some(Lits(s))
    ensures Test("^" + EscapeRegex(s) + "$", t) <==> t == s
  {
    var p := "^" + EscapeRegex(s) + "$";
    assert p[1..|p| - 1] == EscapeRegex(s) + "";
    TokenizeEscaped(s, "");
    assert Lits(s) + [] == Lits(s);
    MatchesLits(s, [], t);
  }
}

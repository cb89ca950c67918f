/**
 The text-to-formula builder: normalises the text, splits it into clauses
 at `&&`, unwraps each clause's parentheses, splits it into tokens at `||`
 and classifies each token by its length.
 */
module Parser {
  import opened Wrappers
  import opened Text
  import opened Core

  /**
   The literal a token denotes: a one-character token asserts its character;
   any longer token complements its first character, whatever follows it.
   */
  function TokenLiteral(token: string): (lit: Literal)
    requires |token| > 0
  {
    if |token| == 1 then Positive(token[0]) else Complemented(token[0])
  }

  /** The literals of a token list (duplicates collapse, order is lost). */
  function LiteralsOf(tokens: seq<string>): (lits: set<Literal>)
  {
    set t | t in tokens && |t| > 0 :: TokenLiteral(t)
  }

  /** The clause the builder makes of one segment. */
  function ClauseOf(segment: string): (c: Clause)
  {
    Clause(LiteralsOf(Tokens(segment)), Undetermined)
  }

  /** The clauses the builder makes of a segment list, in order. */
  function ClausesOf(segments: seq<string>): (cs: seq<Clause>)
    ensures |cs| == |segments|
    ensures forall k :: 0 <= k < |segments| ==> cs[k] == ClauseOf(segments[k])
  {
    seq(|segments|, k requires 0 <= k < |segments| => ClauseOf(segments[k]))
  }

  lemma ClausesStep(segments: seq<string>, i: nat)
    requires i < |segments|
    ensures ClausesOf(segments[..i + 1]) == ClausesOf(segments[..i]) + [ClauseOf(segments[i])]
  {
  }

  /** The first characters of a token list. */
  function FirstChars(tokens: seq<string>): (names: set<char>)
  {
    set t | t in tokens && |t| > 0 :: t[0]
  }

  /** The first characters of every token of every segment. */
  function VariablesOf(segments: seq<string>): (names: set<char>)
  {
    set s, t | s in segments && t in Tokens(s) && |t| > 0 :: t[0]
  }

  /** Some clause of `clauses` holds a literal of variable `x`. */
  predicate Mentioned(clauses: seq<Clause>, x: char)
  {
    exists k | 0 <= k < |clauses| :: exists l | l in clauses[k].literals :: l.name == x
  }

  lemma MentionedSnoc(clauses: seq<Clause>, c: Clause)
    ensures forall x :: Mentioned(clauses + [c], x) <==>
              Mentioned(clauses, x) || exists l :: l in c.literals && l.name == x
  {
    var all := clauses + [c];
    assert all[|clauses|] == c;
    assert forall k :: 0 <= k < |clauses| ==> all[k] == clauses[k];
  }

  /** Every token of the text is non-empty; an empty one makes the builder panic. */
  predicate NoEmptyToken(text: string)
  {
    forall s :: s in Segments(text) ==> forall t :: t in Tokens(s) ==> |t| > 0
  }

  /**
   Builds the formula and its variable set. There is one clause per segment,
   holding the literals of that segment's tokens, and the variable set is
   the first character of every token. The result is never None.
   */
  method ParseCnf(text: string) returns (r: Option<CnfWrapper>)
    requires NoEmptyToken(text)
    ensures r == Some(CnfWrapper(Cnf(ClausesOf(Segments(text)), Undetermined), VariablesOf(Segments(text))))
  {
    var segments := Segments(text);
    if |segments| == 0 {
      r := None;
    } else {
      var wrapper := Build(segments);
      r := Some(wrapper);
    }
  }

  /**
   The builder's loop over the segments: the clauses of the segments in
   order, and the first character of every token collected as a variable.
   */
  method Build(segments: seq<string>) returns (w: CnfWrapper)
    requires forall s :: s in segments ==> forall t :: t in Tokens(s) ==> |t| > 0
    ensures w.cnf == Cnf(ClausesOf(segments), Undetermined)
    ensures w.variables == VariablesOf(segments)
  {
    var cnf := NewCnf();
    var variables: set<char> := {};
    var i := 0;
    while i < |segments|
      invariant 0 <= i <= |segments|
      invariant cnf == Cnf(ClausesOf(segments[..i]), Undetermined)
      invariant variables == VariablesOf(segments[..i])
    {
      assert segments[i] in segments;
      var c, names := ParseClause(Tokens(segments[i]));
      VariablesStep(segments, i);
      ClausesStep(segments, i);
      variables := variables + names;
      cnf := cnf.Add(c);
      i := i + 1;
    }
    assert segments[..i] == segments;
    w := CnfWrapper(cnf, variables);
  }

  /**
   The collected variables are exactly the variables the built clauses
   mention: every token's first character names the literal it becomes.
   */
  lemma {:induction false} VariablesAreMentioned(segments: seq<string>)
    requires forall s :: s in segments ==> forall t :: t in Tokens(s) ==> |t| > 0
    ensures forall x :: x in VariablesOf(segments) <==> Mentioned(ClausesOf(segments), x)
  {
    if segments != [] {
      var n := |segments| - 1;
      var prefix := segments[..n];
      assert segments == prefix + [segments[n]];
      VariablesAreMentioned(prefix);
      VariablesStep(segments, n);
      ClausesStep(segments, n);
      assert segments[..n + 1] == segments;
      MentionedSnoc(ClausesOf(prefix), ClauseOf(segments[n]));
      forall x {
        FirstCharsAreNames(Tokens(segments[n]), x);
      }
    }
  }

  /**
   One clause of the builder: adds each token's literal to a fresh clause,
   collecting the tokens' first characters on the way.
   */
  method ParseClause(tokens: seq<string>) returns (c: Clause, names: set<char>)
    requires forall t :: t in tokens ==> |t| > 0
    ensures c == Clause(LiteralsOf(tokens), Undetermined)
    ensures names == FirstChars(tokens)
    ensures forall x :: x in names <==> exists l :: l in c.literals && l.name == x
  {
    c := NewClause();
    names := {};
    var j := 0;
    while j < |tokens|
      invariant 0 <= j <= |tokens|
      invariant c == Clause(LiteralsOf(tokens[..j]), Undetermined)
      invariant names == FirstChars(tokens[..j])
    {
      var token := tokens[j];
      assert tokens[..j + 1] == tokens[..j] + [token];
      names := names + {token[0]};
      c := c.Add(TokenLiteral(token));
      j := j + 1;
    }
    assert tokens[..j] == tokens;
    forall x {
      FirstCharsAreNames(tokens, x);
    }
  }

  lemma VariablesStep(segments: seq<string>, i: nat)
    requires i < |segments|
    ensures VariablesOf(segments[..i + 1]) == VariablesOf(segments[..i]) + FirstChars(Tokens(segments[i]))
  {
    assert segments[..i + 1] == segments[..i] + [segments[i]];
  }

  /**
   A token's literal names its first character, and is asserted exactly when
   the token is one character long: `a’` and `ab` both complement `a`.
   */
  lemma TokenLiteralByLength(token: string)
    requires |token| > 0
    ensures TokenLiteral(token).name == token[0]
    ensures TokenLiteral(token).Positive? <==> |token| == 1
    ensures TokenLiteral(['a', '’']) == TokenLiteral("ab") == Complemented('a')
  {
  }

  /** A repeated token adds nothing: clauses are sets. */
  lemma RepeatedTokenCollapses(tokens: seq<string>, token: string)
    requires token in tokens
    ensures LiteralsOf(tokens + [token]) == LiteralsOf(tokens)
    ensures FirstChars(tokens + [token]) == FirstChars(tokens)
  {
  }

  /** A token list's first characters are exactly the names of its literals. */
  lemma FirstCharsAreNames(tokens: seq<string>, x: char)
    ensures x in FirstChars(tokens) <==> exists l :: l in LiteralsOf(tokens) && l.name == x
  {
    if x in FirstChars(tokens) {
      var t :| t in tokens && |t| > 0 && t[0] == x;
      assert TokenLiteral(t) in LiteralsOf(tokens);
    }
  }

  /** An empty text leaves one empty token. */
  lemma EmptyTextPanics()
    ensures !NoEmptyToken("")
  {
    assert Lower("") == "";
    assert Normalize("") == "";
    assert Segments("") == [""];
    assert Unwrap("") == "";
    assert Tokens("") == [""];
  }

  /** An empty pair of parentheses leaves one empty token. */
  lemma EmptyParenthesesPanic()
    ensures !NoEmptyToken("()")
  {
    ParenthesesSegments();
    ParenthesesTokens();
    assert "()" in Segments("()");
    assert "" in Tokens("()");
  }

  lemma ParenthesesSegments()
    ensures Segments("()") == ["()"]
  {
    LowerParentheses();
    ParenthesesHaveNoSpaces();
    SplitWithoutSeparator("()", "&&");
  }

  lemma LowerParentheses()
    ensures Lower("()") == "()"
  {
  }

  lemma ParenthesesHaveNoSpaces()
    ensures RemoveSpaces("()") == "()"
  {
    assert "()"[1..] == ")";
    assert RemoveSpaces(")") == ")";
  }

  lemma ParenthesesTokens()
    ensures Tokens("()") == [""]
  {
    UnwrapParentheses();
    assert Split("", "||") == [""];
  }

  lemma UnwrapParentheses()
    ensures Unwrap("()") == ""
  {
    TrimOpening();
    TrimClosing();
  }

  lemma TrimOpening()
    ensures TrimStart("()", '(') == ")"
  {
    assert "()"[1..] == ")";
  }

  lemma TrimClosing()
    ensures TrimEnd(")", ')') == ""
  {
    assert ")"[..0] == "";
  }

  /** A trailing `||` after a lower-case variable leaves an empty last token. */
  lemma TrailingDisjunctionPanics(v: char)
    requires 'a' <= v <= 'z'
    ensures !NoEmptyToken([v, '|', '|'])
  {
    TrailingDisjunctionSegments(v);
    TrailingDisjunctionTokens(v);
  }

  lemma TrailingDisjunctionSegments(v: char)
    requires 'a' <= v <= 'z'
    ensures Segments([v, '|', '|']) == [[v, '|', '|']]
  {
    LowerKeeps(v);
    NoSpacesToRemove(v);
    SplitWithoutSeparator([v, '|', '|'], "&&");
  }

  lemma LowerKeeps(v: char)
    requires 'a' <= v <= 'z'
    ensures Lower([v, '|', '|']) == [v, '|', '|']
  {
  }

  lemma NoSpacesToRemove(v: char)
    requires 'a' <= v <= 'z'
    ensures RemoveSpaces([v, '|', '|']) == [v, '|', '|']
  {
    assert [v, '|', '|'][1..] == ['|', '|'];
    assert RemoveSpaces(['|', '|']) == ['|', '|'];
  }

  lemma TrailingDisjunctionTokens(v: char)
    requires 'a' <= v <= 'z'
    ensures Tokens([v, '|', '|']) == [[v], ""]
  {
    UnwrapKeeps(v);
    DisjunctionAtOne(v);
    SplitLast(v);
  }

  lemma UnwrapKeeps(v: char)
    requires 'a' <= v <= 'z'
    ensures Unwrap([v, '|', '|']) == [v, '|', '|']
  {
  }

  lemma SplitLast(v: char)
    requires FindFrom([v, '|', '|'], "||", 0) == 1
    ensures Split([v, '|', '|'], "||") == [[v], ""]
  {
    var s := [v, '|', '|'];
    assert s[..1] == [v];
    assert s[3..] == "";
    assert Split("", "||") == [""];
  }

  lemma DisjunctionAtOne(v: char)
    requires 'a' <= v <= 'z'
    ensures FindFrom([v, '|', '|'], "||", 0) == 1
  {
    var s := [v, '|', '|'];
    assert s[0..2][0] == v;
    assert s[1..3] == "||";
  }
}

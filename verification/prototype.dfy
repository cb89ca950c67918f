/**
 The earlier stand-alone parser: the same text pipeline, but each literal
 keeps its whole token, clauses are lists (order and duplicates kept), and
 an empty token does not panic.
 */
module Prototype {
  import opened Wrappers
  import opened Text

  /** A one-character token (`Positive`) or any other token (`Complemented`), kept whole. */
  datatype Literal = Positive(token: string) | Complemented(token: string)

  datatype Clause = Clause(literals: seq<Literal>)
  {
    /** Appends one literal. */
    function Add(l: Literal): (r: Clause)
    {
      Clause(literals + [l])
    }
  }

  datatype Cnf = Cnf(clauses: seq<Clause>)
  {
    /** Appends one clause. */
    function Add(c: Clause): (r: Cnf)
    {
      Cnf(clauses + [c])
    }
  }

  /** The literal for one token: plain exactly when the token is one character long. */
  function Classify(token: string): (l: Literal)
    ensures l.token == token
    ensures l.Positive? <==> |token| == 1
  {
    if |token| == 1 then Positive(token) else Complemented(token)
  }

  /** The clause for a token list, built by adding the tokens' literals in order. */
  function ParseClause(tokens: seq<string>): (c: Clause)
    ensures |c.literals| == |tokens|
    ensures forall j :: 0 <= j < |tokens| ==> c.literals[j] == Classify(tokens[j])
  {
    if tokens == [] then Clause([])
    else ParseClause(tokens[..|tokens| - 1]).Add(Classify(tokens[|tokens| - 1]))
  }

  /** The formula for a segment list, one clause per segment, in order. */
  function ParseClauses(segments: seq<string>): (f: Cnf)
    ensures |f.clauses| == |segments|
    ensures forall i :: 0 <= i < |segments| ==> f.clauses[i] == ParseClause(Tokens(segments[i]))
  {
    if segments == [] then Cnf([])
    else ParseClauses(segments[..|segments| - 1]).Add(ParseClause(Tokens(segments[|segments| - 1])))
  }

  /**
   Parses the text into one clause per `&&`-separated segment, built from
   that segment's tokens. It is never None, and it has no precondition: an
   empty token becomes a complemented literal holding the empty string.
   */
  function ParseCnf(text: string): (r: Option<Cnf>)
    ensures r.Some?
    ensures |r.value.clauses| == |Segments(text)|
    ensures forall i :: 0 <= i < |Segments(text)| ==>
              r.value.clauses[i] == ParseClause(Tokens(Segments(text)[i]))
  {
    var segments := Segments(text);
    if |segments| == 0 then None else Some(ParseClauses(segments))
  }

  /** The token list a clause was built from, read back from its literals. */
  function TokensOf(c: Clause): (tokens: seq<string>)
  {
    seq(|c.literals|, j requires 0 <= j < |c.literals| => c.literals[j].token)
  }

  /** The stored tokens of a built clause are the tokens it was built from, in order. */
  lemma TokensRoundTrip(tokens: seq<string>)
    ensures TokensOf(ParseClause(tokens)) == tokens
  {
    var c := ParseClause(tokens);
    assert forall j :: 0 <= j < |tokens| ==> TokensOf(c)[j] == Classify(tokens[j]).token;
  }

  /**
   Nothing of a clause's text is lost: joining the stored tokens with `||`
   gives back the segment with its parentheses unwrapped.
   */
  lemma ClauseRoundTrip(segment: string)
    ensures Join(TokensOf(ParseClause(Tokens(segment))), "||") == Unwrap(segment)
  {
    TokensRoundTrip(Tokens(segment));
    SplitJoin(Unwrap(segment), "||");
  }

  /**
   Joining the segments again with `&&` gives back the normalised text, so
   the clauses are exactly the text's segments, in order.
   */
  lemma SegmentsRoundTrip(text: string)
    ensures Join(Segments(text), "&&") == Normalize(text)
  {
    SplitJoin(Normalize(text), "&&");
  }

  /** An empty token does not panic here: it becomes a complemented empty literal. */
  lemma EmptyTokenKept()
    ensures ParseClause([""]) == Clause([Complemented("")])
    ensures ParseClause(["a", "a"]) == Clause([Positive("a"), Positive("a")])
  {
  }
}

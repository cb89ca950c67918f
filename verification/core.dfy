/**
 Literals, clauses and formulas in conjunctive normal form, and the reducer
 that applies one assignment to them.

 The model follows the reducer as it is written, which is not textbook
 DPLL: reducing by a complemented literal has its polarities swapped, and a
 formula reduction drops the falsified clause and every clause after it.
 */
module Core {

  /** A variable symbol, asserted (`Positive`) or negated (`Complemented`). */
  datatype Literal = Positive(name: char) | Complemented(name: char)
  {
    /** The literal with the same variable and the opposite polarity. */
    function Complement(): (r: Literal)
      ensures r.name == name && r.Positive? != Positive?
    {
      if Positive? then Complemented(name) else Positive(name)
    }
  }

  /** The tri-state status of a clause or formula (the source spells the last one UNDERTIMINED). */
  datatype State = Satisfiable | Unsatisfiable | Undetermined

  /** A disjunction of literals, kept as a set, with its status. */
  datatype Clause = Clause(literals: set<Literal>, state: State)
  {
    predicate IsEmpty() { literals == {} }

    predicate IsUndetermined() { state == Undetermined }

    predicate IsUnsatisfiable() { state == Unsatisfiable }

    predicate IsSatisfiable() { state == Satisfiable }

    /** The clause mentions variable `v` in either polarity. */
    predicate Mentions(v: char)
    {
      Positive(v) in literals || Complemented(v) in literals
    }

    /** Adds one literal; a literal already present is not added twice. */
    function Add(lit: Literal): (r: Clause)
      ensures lit in r.literals && literals <= r.literals
      ensures r.literals - {lit} <= literals
      ensures lit in literals ==> r == this
      ensures r.state == state
    {
      Clause(literals + {lit}, state)
    }

    /** The clause with its status replaced. */
    function WithState(s: State): (r: Clause)
    {
      Clause(literals, s)
    }

    /**
     The clause under the assignment `lit`, always starting from status
     Undetermined whatever this clause's status was. An asserted `v` satisfies
     a clause holding `v` and removes it, and otherwise removes `¬v`, leaving
     the clause unsatisfiable if nothing is left. A complemented `v` is
     handled with its polarities swapped: a clause holding `¬v` loses `v` and
     stays undetermined, and one holding `v` but not `¬v` is satisfied with
     its literals unchanged.
     */
    function Reduce(lit: Literal): (r: Clause)
    {
      var start := Clause(literals, Undetermined);
      match lit
      case Positive(v) =>
        if lit in start.literals then
          start.Without(Positive(v)).WithState(Satisfiable)
        else if Complemented(v) in start.literals then
          var reduced := start.Without(Complemented(v));
          if reduced.IsEmpty() then reduced.WithState(Unsatisfiable) else reduced
        else start
      case Complemented(v) =>
        if lit in start.literals then
          var reduced := start.Without(Positive(v));
          if reduced.IsEmpty() then reduced.WithState(Unsatisfiable) else reduced
        else if Positive(v) in start.literals then
          start.Without(Complemented(v)).WithState(Satisfiable)
        else start
    }

    /** The clause with `lit` removed from its literal set, if present. */
    function Without(lit: Literal): (r: Clause)
      ensures r.literals <= literals && |literals - r.literals| <= 1
      ensures lit !in r.literals && r.state == state
    {
      var r := Clause(literals - {lit}, state);
      assert literals - r.literals <= {lit};
      SubsetCard(literals - r.literals, {lit});
      r
    }
  }

  /** An empty, undetermined clause. */
  function NewClause(): (c: Clause)
    ensures c.IsEmpty() && c.IsUndetermined()
  {
    Clause({}, Undetermined)
  }

  /** Reduction never adds a literal and removes at most one. */
  lemma ReduceShrinks(c: Clause, lit: Literal)
    ensures c.Reduce(lit).literals <= c.literals
    ensures |c.literals - c.Reduce(lit).literals| <= 1
    ensures |c.Reduce(lit).literals| <= |c.literals|
  {
    var r := c.Reduce(lit);
    SubsetCard(r.literals, c.literals);
  }

  /**
   Reduction by an asserted literal: a clause holding it is satisfied and
   loses it; otherwise a clause holding its complement loses that, and is
   unsatisfiable exactly when nothing is left.
   */
  lemma ReducePositive(c: Clause, v: char)
    ensures Positive(v) in c.literals ==>
              c.Reduce(Positive(v)) == Clause(c.literals - {Positive(v)}, Satisfiable)
    ensures Positive(v) !in c.literals && Complemented(v) in c.literals ==>
              && c.Reduce(Positive(v)).literals == c.literals - {Complemented(v)}
              && (c.Reduce(Positive(v)).IsUnsatisfiable() <==> c.literals == {Complemented(v)})
              && (c.Reduce(Positive(v)).IsUndetermined() <==> c.literals != {Complemented(v)})
  {
    if Positive(v) !in c.literals && Complemented(v) in c.literals {
      var rest := c.literals - {Complemented(v)};
      assert rest == {} <==> c.literals == {Complemented(v)};
    }
  }

  /**
   Reduction by a complemented literal, as written: a clause holding it
   drops the asserted literal and stays undetermined; a clause holding only
   the asserted literal is satisfied and keeps its literals.
   */
  lemma ReduceComplemented(c: Clause, v: char)
    ensures Complemented(v) in c.literals ==>
              c.Reduce(Complemented(v)) == Clause(c.literals - {Positive(v)}, Undetermined)
    ensures Complemented(v) !in c.literals && Positive(v) in c.literals ==>
              c.Reduce(Complemented(v)) == Clause(c.literals, Satisfiable)
  {
    if Complemented(v) in c.literals {
      assert Complemented(v) in c.literals - {Positive(v)};
    }
  }

  /** A clause that does not mention the variable comes back unchanged and undetermined. */
  lemma ReduceUnmentioned(c: Clause, lit: Literal)
    requires !c.Mentions(lit.name)
    ensures c.Reduce(lit) == Clause(c.literals, Undetermined)
  {
  }

  /**
   A reduced clause is unsatisfiable exactly when the assignment is asserted
   and the clause was just its complement; a complemented assignment never
   makes a clause unsatisfiable.
   */
  lemma ReduceUnsatisfiableIff(c: Clause, lit: Literal)
    ensures c.Reduce(lit).IsUnsatisfiable() <==>
              lit.Positive? && c.literals == {lit.Complement()}
  {
    match lit
    case Positive(v) => ReducePositive(c, v);
    case Complemented(v) => ReduceComplemented(c, v);
  }

  /** The status a clause carries has no influence on its reduction. */
  lemma ReduceIgnoresState(c: Clause, s: State, lit: Literal)
    ensures c.WithState(s).Reduce(lit) == c.Reduce(lit)
  {
  }

  /** The clause after the assignments in `lits`, applied left to right. */
  function ReduceAll(c: Clause, lits: seq<Literal>): (r: Clause)
    decreases |lits|
  {
    if lits == [] then c else ReduceAll(c.Reduce(lits[0]), lits[1..])
  }

  /**
   Along any sequence of assignments the literal set only shrinks, by at
   most one literal per assignment.
   */
  lemma {:induction false} ReduceAllShrinks(c: Clause, lits: seq<Literal>)
    ensures ReduceAll(c, lits).literals <= c.literals
    ensures |ReduceAll(c, lits).literals| >= |c.literals| - |lits|
    decreases |lits|
  {
    if lits != [] {
      var next := c.Reduce(lits[0]);
      ReduceShrinks(c, lits[0]);
      SubsetCard(c.literals - next.literals, c.literals);
      assert c.literals == next.literals + (c.literals - next.literals);
      ReduceAllShrinks(next, lits[1..]);
    }
  }

  /**
   A satisfied clause does not keep its status: reduced by a variable it no
   longer mentions, it comes back undetermined.
   */
  lemma SatisfiedClauseReverts(c: Clause, lit: Literal)
    requires c.IsSatisfiable() && !c.Mentions(lit.name)
    ensures c.Reduce(lit).IsUndetermined() && c.Reduce(lit).literals == c.literals
  {
  }

  lemma SubsetCard<T>(a: set<T>, b: set<T>)
    requires a <= b
    ensures |a| <= |b|
  {
    assert b == a + (b - a);
  }

  /** A conjunction of clauses, in order, with the formula's status. */
  datatype Cnf = Cnf(clauses: seq<Clause>, state: State)
  {
    predicate IsEmpty() { clauses == [] }

    predicate IsSatisfiable() { state == Satisfiable }

    /** Appends one clause. */
    function Add(c: Clause): (r: Cnf)
    {
      Cnf(clauses + [c], state)
    }

    /** The formula with its status replaced. */
    function WithState(s: State): (r: Cnf)
    {
      Cnf(clauses, s)
    }

    /**
     The formula after the assignment `lit`: the not-yet-satisfied clauses,
     reduced, in order, up to (and without) the first that becomes
     unsatisfiable.
     */
    function Reduce(lit: Literal): (r: Cnf)
    {
      var rs := Candidates(clauses, lit);
      var k := FirstUnsat(rs);
      var state :=
        if k < |rs| then Unsatisfiable
        else if HasState(rs, Undetermined) then Undetermined
        else Satisfiable;
      Cnf(rs[..k], state)
    }
  }

  /** An empty, undetermined formula. */
  function NewCnf(): (f: Cnf)
    ensures f.IsEmpty() && f.state == Undetermined
  {
    Cnf([], Undetermined)
  }

  /** Some clause of `cs` not already satisfied reduces to status `s` under `lit`. */
  predicate SomeReducesTo(cs: seq<Clause>, lit: Literal, s: State)
  {
    exists i | 0 <= i < |cs| :: !cs[i].IsSatisfiable() && cs[i].Reduce(lit).state == s
  }

  /** Some clause of `rs` has status `s`. */
  predicate HasState(rs: seq<Clause>, s: State)
  {
    exists j | 0 <= j < |rs| :: rs[j].state == s
  }

  /** The clauses of `cs` not already satisfied, in order, each reduced by `lit`. */
  function Candidates(cs: seq<Clause>, lit: Literal): (rs: seq<Clause>)
    ensures |rs| <= |cs|
  {
    if cs == [] then []
    else if cs[0].IsSatisfiable() then Candidates(cs[1..], lit)
    else [cs[0].Reduce(lit)] + Candidates(cs[1..], lit)
  }

  /** A reduced candidate has status `s` exactly when some clause not already satisfied reduces to `s`. */
  lemma {:induction false} CandidatesStates(cs: seq<Clause>, lit: Literal, s: State)
    ensures HasState(Candidates(cs, lit), s) <==> SomeReducesTo(cs, lit, s)
  {
    if cs != [] {
      CandidatesStates(cs[1..], lit, s);
      SomeReducesToCons(cs, lit, s);
      if !cs[0].IsSatisfiable() {
        HasStateCons(cs[0].Reduce(lit), Candidates(cs[1..], lit), s);
      }
    }
  }

  lemma SomeReducesToCons(cs: seq<Clause>, lit: Literal, s: State)
    requires cs != []
    ensures SomeReducesTo(cs, lit, s) <==>
              (!cs[0].IsSatisfiable() && cs[0].Reduce(lit).state == s) || SomeReducesTo(cs[1..], lit, s)
  {
    if SomeReducesTo(cs[1..], lit, s) {
      var i :| 0 <= i < |cs| - 1 && !cs[1..][i].IsSatisfiable() && cs[1..][i].Reduce(lit).state == s;
      assert cs[i + 1] == cs[1..][i];
    }
    if SomeReducesTo(cs, lit, s) {
      var i :| 0 <= i < |cs| && !cs[i].IsSatisfiable() && cs[i].Reduce(lit).state == s;
      if i > 0 {
        assert cs[1..][i - 1] == cs[i];
      }
    }
  }

  lemma HasStateCons(c: Clause, rest: seq<Clause>, s: State)
    ensures HasState([c] + rest, s) <==> c.state == s || HasState(rest, s)
  {
    var rs := [c] + rest;
    if c.state == s {
      assert rs[0] == c;
    }
    if HasState(rest, s) {
      var j :| 0 <= j < |rest| && rest[j].state == s;
      assert rs[j + 1] == rest[j];
    }
    if HasState(rs, s) {
      var j :| 0 <= j < |rs| && rs[j].state == s;
      if j > 0 {
        assert rest[j - 1] == rs[j];
      }
    }
  }

  /** Candidates distribute over concatenation. */
  lemma {:induction false} CandidatesAppend(a: seq<Clause>, b: seq<Clause>, lit: Literal)
    ensures Candidates(a + b, lit) == Candidates(a, lit) + Candidates(b, lit)
  {
    if a == [] {
      assert a + b == b;
    } else {
      assert (a + b)[0] == a[0];
      assert (a + b)[1..] == a[1..] + b;
      CandidatesAppend(a[1..], b, lit);
    }
  }

  /** The index of the first unsatisfiable clause in `rs`, or `|rs|` if there is none. */
  function FirstUnsat(rs: seq<Clause>): (k: nat)
    ensures k <= |rs|
    ensures forall j :: 0 <= j < k ==> !rs[j].IsUnsatisfiable()
    ensures k < |rs| ==> rs[k].IsUnsatisfiable()
  {
    if rs == [] then 0
    else if rs[0].IsUnsatisfiable() then 0
    else 1 + FirstUnsat(rs[1..])
  }

  /** The formula built by a parser, with the set of variables it mentions. */
  datatype CnfWrapper = CnfWrapper(cnf: Cnf, variables: set<char>)

  /**
   The reducer's loop as the source writes it: one pass over the clauses that
   skips satisfied ones, stops at the first clause that reduces to
   unsatisfiable, and otherwise lowers the status to undetermined whenever a
   reduced clause is undetermined.
   */
  method ReduceScan(f: Cnf, lit: Literal) returns (r: Cnf)
    ensures r == f.Reduce(lit)
  {
    var state := Satisfiable;
    var reduced := NewCnf();
    var i := 0;
    while i < |f.clauses|
      invariant 0 <= i <= |f.clauses|
      invariant reduced.clauses == Candidates(f.clauses[..i], lit)
      invariant FirstUnsat(reduced.clauses) == |reduced.clauses|
      invariant state == Undetermined <==> HasState(reduced.clauses, Undetermined)
      invariant state != Unsatisfiable
    {
      var clause := f.clauses[i];
      CandidatesSnoc(f.clauses, i, lit);
      if !clause.IsSatisfiable() {
        var rc := clause.Reduce(lit);
        if rc.IsUnsatisfiable() {
          StopsAt(f, i, lit);
          state := Unsatisfiable;
          break;
        } else if rc.IsUndetermined() {
          state := Undetermined;
        }
        FirstUnsatExtend(reduced.clauses, rc);
        HasStateAppend(reduced.clauses, rc, Undetermined);
        reduced := reduced.Add(rc);
      }
      i := i + 1;
    }
    if state != Unsatisfiable {
      assert f.clauses[..i] == f.clauses;
      ScanCompletes(f, lit, state);
    }
    r := reduced.WithState(state);
  }

  /**
   When the reductions of the first `i` clauses hold no unsatisfiable one and
   clause `i` reduces to unsatisfiable, the formula reduction is
   unsatisfiable and keeps exactly the reductions of the first `i` clauses.
   */
  lemma StopsAt(f: Cnf, i: nat, lit: Literal)
    requires i < |f.clauses| && !f.clauses[i].IsSatisfiable() && f.clauses[i].Reduce(lit).IsUnsatisfiable()
    requires FirstUnsat(Candidates(f.clauses[..i], lit)) == |Candidates(f.clauses[..i], lit)|
    ensures f.Reduce(lit) == Cnf(Candidates(f.clauses[..i], lit), Unsatisfiable)
  {
    var cs := f.clauses;
    var pre := Candidates(cs[..i], lit);
    var post := [cs[i].Reduce(lit)] + Candidates(cs[i + 1..], lit);
    CandidatesAround(cs, i, lit);
    FirstUnsatAfter(pre, post);
    assert (pre + post)[..|pre|] == pre;
  }

  /** Taking one more clause into the scan adds its reduction unless it is already satisfied. */
  lemma CandidatesSnoc(cs: seq<Clause>, i: nat, lit: Literal)
    requires i < |cs|
    ensures Candidates(cs[..i + 1], lit) ==
              Candidates(cs[..i], lit) + (if cs[i].IsSatisfiable() then [] else [cs[i].Reduce(lit)])
  {
    assert cs[..i + 1] == cs[..i] + [cs[i]];
    CandidatesAppend(cs[..i], [cs[i]], lit);
  }

  /** The candidates of `cs` around a clause `cs[i]` that is not already satisfied. */
  lemma CandidatesAround(cs: seq<Clause>, i: nat, lit: Literal)
    requires i < |cs| && !cs[i].IsSatisfiable()
    ensures Candidates(cs, lit) ==
              Candidates(cs[..i], lit) + ([cs[i].Reduce(lit)] + Candidates(cs[i + 1..], lit))
  {
    assert cs == cs[..i] + ([cs[i]] + cs[i + 1..]);
    CandidatesAppend(cs[..i], [cs[i]] + cs[i + 1..], lit);
    CandidatesAppend([cs[i]], cs[i + 1..], lit);
    assert Candidates([cs[i]], lit) == [cs[i].Reduce(lit)];
  }

  /** A scan that reaches the end without an unsatisfiable reduction yields every candidate. */
  lemma ScanCompletes(f: Cnf, lit: Literal, state: State)
    requires FirstUnsat(Candidates(f.clauses, lit)) == |Candidates(f.clauses, lit)|
    requires state != Unsatisfiable
    requires state == Undetermined <==> HasState(Candidates(f.clauses, lit), Undetermined)
    ensures f.Reduce(lit) == Cnf(Candidates(f.clauses, lit), state)
  {
    var rs := Candidates(f.clauses, lit);
    assert rs[..|rs|] == rs;
  }

  lemma HasStateAppend(a: seq<Clause>, c: Clause, s: State)
    ensures HasState(a + [c], s) <==> HasState(a, s) || c.state == s
  {
    var b := a + [c];
    assert b[|a|] == c;
    assert forall j :: 0 <= j < |a| ==> b[j] == a[j];
  }

  /** The index of the first unsatisfiable clause is past all of `a` when `a` has none. */
  lemma {:induction false} FirstUnsatAfter(a: seq<Clause>, b: seq<Clause>)
    requires FirstUnsat(a) == |a|
    ensures FirstUnsat(a + b) == |a| + FirstUnsat(b)
  {
    if a == [] {
      assert a + b == b;
    } else {
      assert (a + b)[0] == a[0];
      assert (a + b)[1..] == a[1..] + b;
      FirstUnsatAfter(a[1..], b);
    }
  }

  /** Appending a clause that is not unsatisfiable keeps the first unsatisfiable one past the end. */
  lemma FirstUnsatExtend(a: seq<Clause>, c: Clause)
    requires FirstUnsat(a) == |a| && !c.IsUnsatisfiable()
    ensures FirstUnsat(a + [c]) == |a| + 1
  {
    FirstUnsatAfter(a, [c]);
  }

  /**
   The outcome of reducing a formula: the reductions of its not-yet-satisfied
   clauses in input order, cut just before the first one that becomes
   unsatisfiable; no unsatisfiable clause survives; the status is
   unsatisfiable if some clause became so, else undetermined if some clause
   is undetermined, else satisfiable.
   */
  lemma ReduceOutcome(f: Cnf, lit: Literal)
    ensures |f.Reduce(lit).clauses| <= |f.clauses|
    ensures forall i :: 0 <= i < |f.Reduce(lit).clauses| ==> !f.Reduce(lit).clauses[i].IsUnsatisfiable()
    ensures f.Reduce(lit).clauses <= Candidates(f.clauses, lit)
    ensures f.Reduce(lit).state != Unsatisfiable ==> f.Reduce(lit).clauses == Candidates(f.clauses, lit)
    ensures f.Reduce(lit).state == Unsatisfiable ==>
              |f.Reduce(lit).clauses| < |Candidates(f.clauses, lit)|
              && Candidates(f.clauses, lit)[|f.Reduce(lit).clauses|].IsUnsatisfiable()
    ensures f.Reduce(lit).state == Unsatisfiable <==> SomeReducesTo(f.clauses, lit, Unsatisfiable)
    ensures f.Reduce(lit).state == Undetermined <==>
              !SomeReducesTo(f.clauses, lit, Unsatisfiable) && SomeReducesTo(f.clauses, lit, Undetermined)
    ensures f.Reduce(lit).IsSatisfiable() <==>
              forall i :: 0 <= i < |f.clauses| && !f.clauses[i].IsSatisfiable() ==>
                f.clauses[i].Reduce(lit).IsSatisfiable()
  {
    var rs := Candidates(f.clauses, lit);
    CandidatesStates(f.clauses, lit, Unsatisfiable);
    CandidatesStates(f.clauses, lit, Undetermined);
    assert FirstUnsat(rs) < |rs| <==> HasState(rs, Unsatisfiable);
  }

  /**
   A formula with no clause left to reduce (none at all, or all already
   satisfied) reduces to the empty, satisfiable formula.
   */
  lemma ReduceNothingLeft(f: Cnf, lit: Literal)
    requires forall i :: 0 <= i < |f.clauses| ==> f.clauses[i].IsSatisfiable()
    ensures f.Reduce(lit) == Cnf([], Satisfiable)
  {
    NoCandidates(f.clauses, lit);
  }

  lemma {:induction false} NoCandidates(cs: seq<Clause>, lit: Literal)
    requires forall i :: 0 <= i < |cs| ==> cs[i].IsSatisfiable()
    ensures Candidates(cs, lit) == []
  {
    if cs != [] {
      NoCandidates(cs[1..], lit);
    }
  }
}

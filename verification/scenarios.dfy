/**
 Worked formulas. Each states verdicts some sequence of picks can produce,
 including three where the code as written departs from textbook DPLL: the
 lone clause (¬a) is reported unsatisfiable, for (¬a) ∧ (b) the verdict
 depends on which variable is picked first, and the unsatisfiable
 (¬a) ∧ (a) ∧ (b) can be reported satisfiable.
 */
module Scenarios {
  import opened Core
  import opened Algorithms

  function Undecided(lits: set<Literal>): (c: Clause)
  {
    Clause(lits, Undetermined)
  }

  /** How the unit clauses (a) and (¬a) reduce under either assignment of a. */
  lemma UnitReductions(a: char)
    ensures Undecided({Positive(a)}).Reduce(Positive(a)) == Clause({}, Satisfiable)
    ensures Undecided({Positive(a)}).Reduce(Complemented(a)) == Clause({Positive(a)}, Satisfiable)
    ensures Undecided({Complemented(a)}).Reduce(Positive(a)) == Clause({}, Unsatisfiable)
    ensures Undecided({Complemented(a)}).Reduce(Complemented(a)) == Clause({Complemented(a)}, Undetermined)
  {
    ReduceComplemented(Undecided({Positive(a)}), a);
    ReduceComplemented(Undecided({Complemented(a)}), a);
    assert {Complemented(a)} - {Positive(a)} == {Complemented(a)};
    assert {Complemented(a)} - {Complemented(a)} == {};
  }

  /** The formula (a) ∧ (¬a). */
  function Contradiction(a: char): (f: Cnf)
  {
    Cnf([Undecided({Positive(a)}), Undecided({Complemented(a)})], Undetermined)
  }

  /** (a) ∧ (¬a) is found unsatisfiable, whatever the variable's symbol. */
  lemma ContradictionUnsatisfiable(a: char, v: State)
    ensures Reachable(Contradiction(a), {a}, v) <==> v == Unsatisfiable
  {
    var f := Contradiction(a);
    ContradictionAsserted(a);
    ContradictionComplemented(a);
    assert {a} - {a} == {};
    assert Explores(f, {a}, a, v) <==> v == Unsatisfiable;
  }

  /** Asserting a satisfies (a) and empties (¬a), which cuts the reduction short. */
  lemma ContradictionAsserted(a: char)
    ensures Contradiction(a).Reduce(Positive(a)) == Cnf([Clause({}, Satisfiable)], Unsatisfiable)
  {
    var f := Contradiction(a);
    UnitReductions(a);
    TwoCandidates(f.clauses[0], f.clauses[1], Positive(a));
    assert f.clauses == [f.clauses[0], f.clauses[1]];
    var rs := Candidates(f.clauses, Positive(a));
    assert FirstUnsat(rs) == 1;
  }

  /** Complementing a satisfies (a), as written, and leaves (¬a) undetermined. */
  lemma ContradictionComplemented(a: char)
    ensures Contradiction(a).Reduce(Complemented(a)).state == Undetermined
  {
    var f := Contradiction(a);
    UnitReductions(a);
    TwoCandidates(f.clauses[0], f.clauses[1], Complemented(a));
    assert f.clauses == [f.clauses[0], f.clauses[1]];
    var rs := Candidates(f.clauses, Complemented(a));
    assert rs[1].state == Undetermined;
    assert FirstUnsat(rs) == 2;
  }

  /** Two clauses that are not yet satisfied are both reduced, in order. */
  lemma TwoCandidates(c0: Clause, c1: Clause, lit: Literal)
    requires !c0.IsSatisfiable() && !c1.IsSatisfiable()
    ensures Candidates([c0, c1], lit) == [c0.Reduce(lit), c1.Reduce(lit)]
  {
    assert [c0, c1][1..] == [c1];
    assert [c1][1..] == [];
  }

  /** The single clause (a) is found satisfiable. */
  lemma UnitSatisfiable(a: char, v: State)
    ensures Reachable(Cnf([Undecided({Positive(a)})], Undetermined), {a}, v) <==> v == Satisfiable
  {
    var f := Cnf([Undecided({Positive(a)})], Undetermined);
    UnitReductions(a);
    OneCandidate(f.clauses[0], Positive(a));
    assert f.clauses == [f.clauses[0]];
    assert f.Reduce(Positive(a)).IsSatisfiable() by {
      var rs := Candidates(f.clauses, Positive(a));
      assert FirstUnsat(rs) == 1;
      assert !HasState(rs, Undetermined);
    }
    assert Explores(f, {a}, a, v) <==> v == Satisfiable;
  }

  /**
   The single clause (¬a) is reported unsatisfiable, although a = false
   satisfies it: the asserted branch empties the clause, and the
   complemented branch, as written, leaves it undetermined.
   */
  lemma NegatedUnitRejected(a: char, v: State)
    ensures Reachable(Cnf([Undecided({Complemented(a)})], Undetermined), {a}, v) <==> v == Unsatisfiable
  {
    var f := Cnf([Undecided({Complemented(a)})], Undetermined);
    NegatedUnitAsserted(a);
    NegatedUnitComplemented(a);
    assert {a} - {a} == {};
    assert Explores(f, {a}, a, v) <==> v == Unsatisfiable;
  }

  lemma NegatedUnitAsserted(a: char)
    ensures Cnf([Undecided({Complemented(a)})], Undetermined).Reduce(Positive(a)) == Cnf([], Unsatisfiable)
  {
    var f := Cnf([Undecided({Complemented(a)})], Undetermined);
    UnitReductions(a);
    OneCandidate(f.clauses[0], Positive(a));
    assert f.clauses == [f.clauses[0]];
    assert FirstUnsat(Candidates(f.clauses, Positive(a))) == 0;
  }

  lemma NegatedUnitComplemented(a: char)
    ensures Cnf([Undecided({Complemented(a)})], Undetermined).Reduce(Complemented(a)).state == Undetermined
  {
    var f := Cnf([Undecided({Complemented(a)})], Undetermined);
    UnitReductions(a);
    OneCandidate(f.clauses[0], Complemented(a));
    assert f.clauses == [f.clauses[0]];
    var rs := Candidates(f.clauses, Complemented(a));
    assert rs[0].state == Undetermined;
    assert FirstUnsat(rs) == 1;
  }

  /** A clause that is not yet satisfied is reduced. */
  lemma OneCandidate(c: Clause, lit: Literal)
    requires !c.IsSatisfiable()
    ensures Candidates([c], lit) == [c.Reduce(lit)]
  {
    assert [c][1..] == [];
  }

  /** The formula (¬a) ∧ (b). */
  function NegatedAAndB(): (f: Cnf)
  {
    Cnf([Undecided({Complemented('a')}), Undecided({Positive('b')})], Undetermined)
  }

  /**
   Picking a first in (¬a) ∧ (b): the asserted branch drops every clause,
   and the next split finds the empty formula satisfiable.
   */
  lemma PickingAFirstAccepts()
    ensures Explores(NegatedAAndB(), {'a', 'b'}, 'a', Satisfiable)
  {
    var f := NegatedAAndB();
    UnitReductions('a');
    assert f.clauses[1..] == [Undecided({Positive('b')})];
    assert Undecided({Positive('b')}).Reduce(Positive('a')) == Clause({Positive('b')}, Undetermined);
    assert Candidates(f.clauses, Positive('a'))
        == [Clause({}, Unsatisfiable), Clause({Positive('b')}, Undetermined)];
    var pos := f.Reduce(Positive('a'));
    assert pos == Cnf([], Unsatisfiable);
    NothingLeftSatisfiable(pos, {'b'}, Satisfiable);
    assert {'a', 'b'} - {'a'} == {'b'};
  }

  /** Asserting b satisfies (b) and leaves (¬a) untouched. */
  lemma AssertingB()
    ensures NegatedAAndB().Reduce(Positive('b'))
         == Cnf([Undecided({Complemented('a')}), Clause({}, Satisfiable)], Undetermined)
  {
    var f := NegatedAAndB();
    var nb := Undecided({Complemented('a')});
    assert f.clauses[1..] == [Undecided({Positive('b')})];
    assert nb.Reduce(Positive('b')) == nb;
    assert Undecided({Positive('b')}).Reduce(Positive('b')) == Clause({}, Satisfiable);
    assert Candidates(f.clauses, Positive('b')) == [nb, Clause({}, Satisfiable)];
  }

  /** Complementing b also satisfies (b), as written, and leaves (¬a) untouched. */
  lemma ComplementingB()
    ensures NegatedAAndB().Reduce(Complemented('b'))
         == Cnf([Undecided({Complemented('a')}), Clause({Positive('b')}, Satisfiable)], Undetermined)
  {
    var f := NegatedAAndB();
    var nb := Undecided({Complemented('a')});
    assert f.clauses[1..] == [Undecided({Positive('b')})];
    assert nb.Reduce(Complemented('b')) == nb;
    ReduceComplemented(Undecided({Positive('b')}), 'b');
    assert Candidates(f.clauses, Complemented('b')) == [nb, Clause({Positive('b')}, Satisfiable)];
  }

  /** Picking b first in (¬a) ∧ (b): both branches leave (¬a), which is then rejected. */
  lemma PickingBFirstRejects()
    ensures Explores(NegatedAAndB(), {'a', 'b'}, 'b', Unsatisfiable)
  {
    var f := NegatedAAndB();
    assert {'a', 'b'} - {'b'} == {'a'};
    AssertingB();
    OnlyNegatedALeft(f.Reduce(Positive('b')));
    ComplementingB();
    OnlyNegatedALeft(f.Reduce(Complemented('b')));
  }

  /** For (¬a) ∧ (b) over {a, b} both verdicts are reachable: the pick decides. */
  lemma VerdictDependsOnPick()
    ensures Reachable(NegatedAAndB(), {'a', 'b'}, Satisfiable)
    ensures Reachable(NegatedAAndB(), {'a', 'b'}, Unsatisfiable)
  {
    PickingAFirstAccepts();
    PickingBFirstRejects();
  }

  /** A formula whose only unsatisfied clause is (¬a), first, is rejected with pool {a}. */
  lemma OnlyNegatedALeft(g: Cnf)
    requires |g.clauses| == 2 && g.clauses[0] == Undecided({Complemented('a')}) && g.clauses[1].IsSatisfiable()
    ensures Reachable(g, {'a'}, Unsatisfiable)
  {
    UnitReductions('a');
    assert g.clauses[1..] == [g.clauses[1]];
    assert g.clauses[1..][1..] == [];
    assert Candidates(g.clauses, Positive('a')) == [Clause({}, Unsatisfiable)];
    assert g.Reduce(Positive('a')).state == Unsatisfiable;
    assert Candidates(g.clauses, Complemented('a')) == [Clause({Complemented('a')}, Undetermined)];
    assert g.Reduce(Complemented('a')).state == Undetermined;
    assert Explores(g, {'a'}, 'a', Unsatisfiable);
  }

  /** The variables in `trues` are true and all others false; `lit` holds under that. */
  predicate LiteralHolds(trues: set<char>, lit: Literal)
  {
    lit.Positive? <==> lit.name in trues
  }

  /** Every clause of `f` has a literal that holds under `trues`. */
  predicate Satisfies(trues: set<char>, f: Cnf)
  {
    forall i :: 0 <= i < |f.clauses| ==> exists lit :: lit in f.clauses[i].literals && LiteralHolds(trues, lit)
  }

  /** The formula (¬a) ∧ (a) ∧ (b), which the text `(a') && (a) && (b)` denotes. */
  function NegatedAAndAAndB(): (f: Cnf)
  {
    Cnf([Undecided({Complemented('a')}), Undecided({Positive('a')}), Undecided({Positive('b')})], Undetermined)
  }

  /** No assignment satisfies (¬a) ∧ (a) ∧ (b). */
  lemma NegatedAAndAAndBUnsatisfiable(trues: set<char>)
    ensures !Satisfies(trues, NegatedAAndAAndB())
  {
    var f := NegatedAAndAAndB();
    if 'a' in trues {
      assert !(exists lit :: lit in f.clauses[0].literals && LiteralHolds(trues, lit));
    } else {
      assert !(exists lit :: lit in f.clauses[1].literals && LiteralHolds(trues, lit));
    }
  }

  /** Asserting a empties the first clause, and the reducer drops everything after it. */
  lemma NegatedAFirstCut()
    ensures NegatedAAndAAndB().Reduce(Positive('a')) == Cnf([], Unsatisfiable)
  {
    var f := NegatedAAndAAndB();
    UnitReductions('a');
    var rs := Candidates(f.clauses, Positive('a'));
    assert rs[0] == Clause({}, Unsatisfiable);
    assert FirstUnsat(rs) == 0;
  }

  /**
   The unsatisfiable (¬a) ∧ (a) ∧ (b) can be reported satisfiable: picking a
   first cuts the formula to the empty one, which the split on b accepts.
   */
  lemma UnsatisfiableAccepted()
    ensures forall trues :: !Satisfies(trues, NegatedAAndAAndB())
    ensures Explores(NegatedAAndAAndB(), {'a', 'b'}, 'a', Satisfiable)
    ensures Reachable(NegatedAAndAAndB(), {'a', 'b'}, Satisfiable)
  {
    forall trues {
      NegatedAAndAAndBUnsatisfiable(trues);
    }
    var f := NegatedAAndAAndB();
    NegatedAFirstCut();
    NothingLeftSatisfiable(f.Reduce(Positive('a')), {'b'}, Satisfiable);
    assert {'a', 'b'} - {'a'} == {'b'};
  }

  /** Asserting b satisfies (b) and leaves (¬a) and (a) untouched. */
  lemma AssertingBAfterA()
    ensures NegatedAAndAAndB().Reduce(Positive('b'))
         == Cnf([Undecided({Complemented('a')}), Undecided({Positive('a')}), Clause({}, Satisfiable)], Undetermined)
  {
    var f := NegatedAAndAAndB();
    var na, pa := Undecided({Complemented('a')}), Undecided({Positive('a')});
    assert f.clauses[1..] == [pa, Undecided({Positive('b')})];
    assert f.clauses[1..][1..] == [Undecided({Positive('b')})];
    assert na.Reduce(Positive('b')) == na;
    assert pa.Reduce(Positive('b')) == pa;
    assert Undecided({Positive('b')}).Reduce(Positive('b')) == Clause({}, Satisfiable);
    assert Candidates(f.clauses, Positive('b')) == [na, pa, Clause({}, Satisfiable)];
  }

  /** Complementing b also satisfies (b), as written, and leaves (¬a) and (a) untouched. */
  lemma ComplementingBAfterA()
    ensures NegatedAAndAAndB().Reduce(Complemented('b'))
         == Cnf([Undecided({Complemented('a')}), Undecided({Positive('a')}), Clause({Positive('b')}, Satisfiable)], Undetermined)
  {
    var f := NegatedAAndAAndB();
    var na, pa := Undecided({Complemented('a')}), Undecided({Positive('a')});
    assert f.clauses[1..] == [pa, Undecided({Positive('b')})];
    assert f.clauses[1..][1..] == [Undecided({Positive('b')})];
    assert na.Reduce(Complemented('b')) == na;
    assert pa.Reduce(Complemented('b')) == pa;
    ReduceComplemented(Undecided({Positive('b')}), 'b');
    assert Candidates(f.clauses, Complemented('b')) == [na, pa, Clause({Positive('b')}, Satisfiable)];
  }

  /** A formula of (¬a), then (a), then a satisfied clause is rejected with pool {a}. */
  lemma NegatedAThenALeft(g: Cnf)
    requires |g.clauses| == 3
    requires g.clauses[0] == Undecided({Complemented('a')}) && g.clauses[1] == Undecided({Positive('a')})
    requires g.clauses[2].IsSatisfiable()
    ensures Reachable(g, {'a'}, Unsatisfiable)
  {
    UnitReductions('a');
    assert g.clauses[1..] == [g.clauses[1], g.clauses[2]];
    assert g.clauses[1..][1..] == [g.clauses[2]];
    assert g.clauses[1..][1..][1..] == [];
    var pos := Candidates(g.clauses, Positive('a'));
    assert pos[0] == Clause({}, Unsatisfiable);
    assert FirstUnsat(pos) == 0;
    assert g.Reduce(Positive('a')).state == Unsatisfiable;
    assert Candidates(g.clauses[1..][1..], Complemented('a')) == [];
    assert Candidates(g.clauses[1..], Complemented('a')) == [Clause({Positive('a')}, Satisfiable)];
    var neg := Candidates(g.clauses, Complemented('a'));
    assert neg == [Clause({Complemented('a')}, Undetermined), Clause({Positive('a')}, Satisfiable)];
    assert FirstUnsat(neg) == 2;
    assert g.Reduce(Complemented('a')).state == Undetermined;
    assert {'a'} - {'a'} == {};
    assert Explores(g, {'a'}, 'a', Unsatisfiable);
  }

  /**
   The unsatisfiable (¬a) ∧ (a) ∧ (b) can also be reported unsatisfiable:
   picking b first leaves (¬a) ∧ (a) on both branches, which is rejected.
   Together with `UnsatisfiableAccepted`, the verdict depends on the pick.
   */
  lemma UnsatisfiableRejected()
    ensures Explores(NegatedAAndAAndB(), {'a', 'b'}, 'b', Unsatisfiable)
    ensures Reachable(NegatedAAndAAndB(), {'a', 'b'}, Unsatisfiable)
  {
    var f := NegatedAAndAAndB();
    assert {'a', 'b'} - {'b'} == {'a'};
    AssertingBAfterA();
    NegatedAThenALeft(f.Reduce(Positive('b')));
    ComplementingBAfterA();
    NegatedAThenALeft(f.Reduce(Complemented('b')));
  }
}

/**
 The recursive split-and-backtrack search. It takes a variable out of a
 shared pool, tries the asserted and then the complemented assignment, and
 puts the variable back whenever the complemented branch is searched,
 whatever that search's verdict.

 Which variable the search takes is left to the pool's iteration order, so
 the model picks nondeterministically. `Reachable` is the reference: the
 verdicts some sequence of picks can produce.
 */
module Algorithms {
  import opened Wrappers
  import opened Core

  /** Some sequence of picks leads the search on `f` with `pool` to verdict `v`. */
  ghost predicate Reachable(f: Cnf, pool: set<char>, v: State)
    decreases |pool|, 1
  {
    if pool == {} then v == Unsatisfiable
    else exists x :: x in pool && Explores(f, pool, x, v)
  }

  /** Picking `x` first, the search on `f` with `pool` can end in verdict `v`. */
  ghost predicate Explores(f: Cnf, pool: set<char>, x: char, v: State)
    requires x in pool
    decreases |pool|, 0
  {
    var rest := pool - {x};
    var pos := f.Reduce(Positive(x));
    var neg := f.Reduce(Complemented(x));
    assert |rest| < |pool| by {
      assert pool == rest + {x};
    }
    if pos.IsSatisfiable() then v == Satisfiable
    else
      || (Reachable(pos, rest, Satisfiable) && v == Satisfiable)
      || ((Reachable(pos, rest, Unsatisfiable) || Reachable(pos, rest, Undetermined))
          && (if neg.IsSatisfiable() then v == Satisfiable else Reachable(neg, rest, v)))
  }

  /**
   The search. It returns the verdict and the pool as the caller sees it
   afterwards; `picked` names the variable this call split on, if any.
   */
  method Dpll(cnf: Cnf, pool: set<char>) returns (state: State, remaining: set<char>, picked: Option<char>)
    ensures Reachable(cnf, pool, state)
    ensures state == Satisfiable || state == Unsatisfiable
    ensures remaining <= pool
    ensures state == Unsatisfiable ==> remaining == pool
    ensures pool == {} <==> picked == None
    ensures pool == {} ==> state == Unsatisfiable
    ensures picked.Some? ==> picked.value in pool
    ensures picked.Some? && cnf.Reduce(Positive(picked.value)).IsSatisfiable() ==>
              state == Satisfiable && remaining == pool - {picked.value}
    ensures picked.Some? && cnf.Reduce(Complemented(picked.value)).IsSatisfiable() ==>
              state == Satisfiable
    decreases |pool|, 1
  {
    if pool == {} {
      state, remaining, picked := Unsatisfiable, pool, None;
    } else {
      var x :| x in pool;
      picked := Some(x);
      var rest := pool - {x};
      assert pool == rest + {x};
      state, remaining := Branch(cnf, pool, x);
    }
  }

  /**
   One split of the search on `x`, taken out of `pool`: the asserted branch,
   then, unless it succeeded, the complemented one. `x` goes back into the
   pool whenever the complemented branch's recursive search ran, whatever
   its verdict.
   */
  method Branch(cnf: Cnf, pool: set<char>, x: char) returns (state: State, remaining: set<char>)
    requires x in pool
    ensures Explores(cnf, pool, x, state)
    ensures state == Satisfiable || state == Unsatisfiable
    ensures remaining <= pool
    ensures state == Unsatisfiable ==> remaining == pool
    ensures cnf.Reduce(Positive(x)).IsSatisfiable() ==> state == Satisfiable && remaining == pool - {x}
    ensures cnf.Reduce(Complemented(x)).IsSatisfiable() ==> state == Satisfiable
    ensures x in remaining ==>
              !cnf.Reduce(Positive(x)).IsSatisfiable() && !cnf.Reduce(Complemented(x)).IsSatisfiable()
    ensures && !cnf.Reduce(Positive(x)).IsSatisfiable()
            && !cnf.Reduce(Complemented(x)).IsSatisfiable()
            && !Reachable(cnf.Reduce(Positive(x)), pool - {x}, Satisfiable)
            ==> x in remaining
    decreases |pool|, 0
  {
    var rest := pool - {x};
    assert pool == rest + {x};
    assert x !in rest;
    var positive := ReduceScan(cnf, Positive(x));
    if positive.IsSatisfiable() {
      assert Explores(cnf, pool, x, Satisfiable);
      state, remaining := Satisfiable, rest;
    } else {
      var s1, p1, _ := Dpll(positive, rest);
      if s1 == Satisfiable {
        assert Explores(cnf, pool, x, Satisfiable);
        state, remaining := Satisfiable, p1;
      } else {
        var negative := ReduceScan(cnf, Complemented(x));
        if negative.IsSatisfiable() {
          assert Explores(cnf, pool, x, Satisfiable);
          state, remaining := Satisfiable, p1;
        } else {
          var s2, p2, _ := Dpll(negative, p1);
          assert Explores(cnf, pool, x, s2);
          state, remaining := s2, p2 + {x};
        }
      }
    }
  }

  /** Every reachable verdict is definite: the search never ends undetermined. */
  lemma {:induction false} ReachableIsDefinite(f: Cnf, pool: set<char>, v: State)
    requires Reachable(f, pool, v)
    ensures v == Satisfiable || v == Unsatisfiable
    decreases |pool|
  {
    if pool != {} {
      var x :| x in pool && Explores(f, pool, x, v);
      var rest := pool - {x};
      assert pool == rest + {x};
      var pos := f.Reduce(Positive(x));
      var neg := f.Reduce(Complemented(x));
      if !pos.IsSatisfiable() && !neg.IsSatisfiable() && v != Satisfiable {
        ReachableIsDefinite(neg, rest, v);
      }
    }
  }

  /** Whatever the formula and pool, some sequence of picks ends in a verdict. */
  lemma {:induction false} SomeVerdictReachable(f: Cnf, pool: set<char>)
    ensures Reachable(f, pool, Satisfiable) || Reachable(f, pool, Unsatisfiable)
    decreases |pool|
  {
    if pool != {} {
      var x :| x in pool;
      var rest := pool - {x};
      assert pool == rest + {x};
      var pos := f.Reduce(Positive(x));
      var neg := f.Reduce(Complemented(x));
      SomeVerdictReachable(pos, rest);
      SomeVerdictReachable(neg, rest);
      assert Explores(f, pool, x, Satisfiable) || Explores(f, pool, x, Unsatisfiable);
    }
  }

  /** With an empty pool the only verdict is unsatisfiable, whatever the formula. */
  lemma EmptyPoolUnsatisfiable(f: Cnf, v: State)
    ensures Reachable(f, {}, v) <==> v == Unsatisfiable
  {
  }

  /**
   A formula with no clause left to reduce is found satisfiable as soon as
   one variable remains in the pool.
   */
  lemma NothingLeftSatisfiable(f: Cnf, pool: set<char>, v: State)
    requires pool != {}
    requires forall i :: 0 <= i < |f.clauses| ==> f.clauses[i].IsSatisfiable()
    ensures Reachable(f, pool, v) <==> v == Satisfiable
  {
    forall x | x in pool
      ensures Explores(f, pool, x, v) <==> v == Satisfiable
    {
      ReduceNothingLeft(f, Positive(x));
    }
    var x :| x in pool;
    ReduceNothingLeft(f, Positive(x));
    assert Explores(f, pool, x, Satisfiable);
  }
}

# tiny-sat-solver in Dafny

A model of the core of a small DPLL-style SAT solver. The solver parses a
textual formula into conjunctive normal form. It then decides it by
splitting on one variable at a time and reducing the formula by the asserted
and then the complemented literal of that variable.

The model has these modules:

- `Core` (from `src/core.rs`): literals, tri-state clauses kept as sets, formulas kept as ordered sequences, and the two reducers.
  - `Clause.Reduce` is the clause reducer.
  - `Cnf.Reduce` is a declarative description of the formula reducer.
  - `ReduceScan` is the formula reducer's loop, including its `break`, proved equal to `Cnf.Reduce`.
- `Algorithms` (from `src/algorithms.rs`): the recursive search `Dpll`.
  - It threads the variable pool in and out as a `set<char>`.
  - The pool's iteration order decides which variable the search picks, so `Dpll` picks nondeterministically.
  - Its verdict is related to the reference predicate `Reachable`, which describes every verdict that some sequence of picks can produce.
- `Parser` (from `src/parser.rs`): the builder that turns text into a formula plus its variable set.
- `Prototype` (from `src/main.rs`): the earlier stand-alone parser. Its literals keep whole tokens and its clauses are lists.
- `Text`: the string operations both parsers share.
  - ASCII lower-casing and space removal.
  - `str::split` with a string pattern: leftmost, non-overlapping.
  - `trim_start_matches` and `trim_end_matches` with one character.
  - The join that undoes a split.
- `Scenarios`: worked formulas with verdicts the search can reach on them.
- `Wrappers`: `Option`.

The model follows the code where it departs from textbook DPLL. In textbook
DPLL, reducing by `¬v` satisfies the clauses that hold `¬v` and removes `v`
from the others. The verdict does not depend on the branching order. A
satisfied clause stays satisfied. A variable goes back into the pool only
when both of its branches fail. The code departs from this as follows:

- Reducing by a complemented literal has its polarities swapped (`src/core.rs:83-100`).
  - A clause holding `¬v` loses `v` and stays undetermined, so it is never made unsatisfiable.
  - A clause holding only `v` becomes satisfied.
  - `Core.ReduceComplemented` and `Core.ReduceUnsatisfiableIff` state this.
- The formula reducer stops at the first clause that reduces to unsatisfiable, and returns only the reductions before it (`src/core.rs:153-155`). `Core.ReduceOutcome` states this.
- The search recurses even on a formula already reduced to unsatisfiable (`src/algorithms.rs:16-20`).
- The search puts the variable back into the pool after the complemented branch's recursion, whatever that recursion's verdict (`src/algorithms.rs:29-31`). Textbook DPLL restores it only when both branches fail. `Algorithms.Branch` states the code's behaviour.
- As a consequence of the first three points:
  - the lone clause `(¬a)` is reported unsatisfiable (`Scenarios.NegatedUnitRejected`);
  - for `(¬a) ∧ (b)` the verdict depends on which variable is picked first (`Scenarios.VerdictDependsOnPick`). In textbook DPLL the verdict is independent of the branching order;
  - the unsatisfiable `(¬a) ∧ (a) ∧ (b)`, the formula of the text `(a') && (a) && (b)`, can be reported satisfiable (`Scenarios.UnsatisfiableAccepted`). Picking a first cuts the formula to the empty one at `(¬a)`, and the split on b accepts that. Picking b first instead ends unsatisfiable (`Scenarios.UnsatisfiableRejected`).
- In textbook DPLL a satisfied clause never reverts to undetermined. The code starts every reduction from undetermined, so it does revert (`Core.SatisfiedClauseReverts`). The formula reducer drops clauses that are already satisfied on input (`src/core.rs:149-151`). A clause it satisfies now stays in the output, marked satisfied (`src/core.rs:159`), and the next reduction skips it. So the reversion does not show in the search's verdicts.

## Model

| member | source | states |
|---|---|---|
| Core.Clause.Add | src/core.rs:31-33 | the added literal is in the clause, nothing else is added or lost, adding a literal already present changes nothing, and the status is kept |
| Core.NewClause | src/core.rs:24-29 | a new clause is empty and undetermined |
| Core.NewCnf | src/core.rs:121-126 | a new formula has no clauses and is undetermined |
| Core.ReduceShrinks | src/core.rs:59-103 | a reduced clause's literals are a subset of the original's, with at most one literal removed |
| Core.ReducePositive | src/core.rs:64-82 | an asserted assignment satisfies a clause holding it and removes it; otherwise it removes the complement, and the clause is unsatisfiable exactly when nothing is left and undetermined otherwise |
| Core.ReduceComplemented | src/core.rs:83-100 | a complemented assignment, as written: a clause holding it loses the asserted literal and stays undetermined; a clause holding only the asserted literal is satisfied with its literals unchanged |
| Core.ReduceUnmentioned | src/core.rs:59-103 | a clause that mentions neither polarity of the variable keeps its literals and comes back undetermined |
| Core.ReduceUnsatisfiableIff | src/core.rs:59-103 | a reduced clause is unsatisfiable if and only if the assignment is asserted and the clause was exactly its complement |
| Core.ReduceIgnoresState | src/core.rs:59-63 | the status a clause carries has no influence on its reduction |
| Core.ReduceAllShrinks | src/core.rs:59-103 | along any sequence of assignments the literal set only shrinks, by at most one literal per assignment |
| Core.SatisfiedClauseReverts | src/core.rs:59-63 | any satisfied clause reduced by an assignment of a variable it does not mention comes back undetermined with its literals unchanged, so clause status is not monotone |
| Core.CandidatesStates | src/core.rs:148-158 | a scanned reduction has a given status exactly when some clause that was not already satisfied reduces to that status |
| Core.ReduceScan | src/core.rs:142-163 | the reducer's loop, with its skip of satisfied clauses and its break, computes exactly the declarative formula reduction |
| Core.ReduceOutcome | src/core.rs:142-163 | the output is the in-order reductions of the clauses not already satisfied, cut before the first unsatisfiable one; it holds no unsatisfiable clause and is no longer than the input; the status is unsatisfiable iff some clause reduces to unsatisfiable, undetermined iff none does and some reduces to undetermined, and satisfiable iff every clause that was not already satisfied reduces to satisfied |
| Core.ReduceNothingLeft | src/core.rs:143-161 | a formula with no clauses, or with only satisfied ones, reduces to the empty satisfiable formula |
| Algorithms.Dpll | src/algorithms.rs:6-32 | the verdict is one that some sequence of picks reaches; a variable is picked iff the pool is non-empty, and it comes from the pool; it is satisfiable or unsatisfiable; the pool on exit is a subset of the pool on entry and equal to it on unsatisfiable; an empty pool gives unsatisfiable; a satisfiable positive reduction returns satisfiable with only the picked variable gone; a satisfiable complemented reduction returns satisfiable |
| Algorithms.Branch | src/algorithms.rs:13-31 | one split on the picked variable reaches a verdict that the reference allows for that pick; it is satisfiable or unsatisfiable; a satisfiable asserted reduction returns satisfiable with only the variable gone from the pool; a satisfiable complemented reduction returns satisfiable; the variable is back in the pool when the result is unsatisfiable; it is back only if neither reduction was satisfiable, and it is always back once the asserted branch cannot succeed and the complemented reduction is not satisfiable, whatever the second recursion's verdict |
| Algorithms.ReachableIsDefinite | src/algorithms.rs:6-32 | no sequence of picks ends undetermined |
| Algorithms.SomeVerdictReachable | src/algorithms.rs:6-32 | every formula and pool have at least one reachable verdict |
| Algorithms.EmptyPoolUnsatisfiable | src/algorithms.rs:8-10 | with an empty pool the one reachable verdict is unsatisfiable |
| Algorithms.NothingLeftSatisfiable | src/algorithms.rs:12-18 | a formula with no clause left to reduce is found satisfiable, and only satisfiable, once the pool is non-empty |
| Scenarios.UnitReductions | src/core.rs:59-103 | how the unit clauses (a) and (¬a) reduce under each assignment of a |
| Scenarios.ContradictionAsserted | src/core.rs:148-161 | asserting a in (a) ∧ (¬a) satisfies the first clause, empties the second, and cuts the reduction to unsatisfiable |
| Scenarios.ContradictionComplemented | src/core.rs:83-100 | complementing a in (a) ∧ (¬a) leaves the formula undetermined, as written |
| Scenarios.ContradictionUnsatisfiable | src/algorithms.rs:6-32 | (a) ∧ (¬a) over {a}, for any symbol a, is found unsatisfiable and nothing else |
| Scenarios.UnitSatisfiable | src/algorithms.rs:12-18 | (a) over {a} is found satisfiable and nothing else |
| Scenarios.NegatedUnitAsserted | src/core.rs:148-161 | asserting a empties the lone clause (¬a), so the formula reduces to the empty unsatisfiable formula |
| Scenarios.NegatedUnitComplemented | src/core.rs:83-100 | complementing a leaves the lone clause (¬a) undetermined, as written |
| Scenarios.NegatedUnitRejected | src/algorithms.rs:6-32 | (¬a) over {a} is found unsatisfiable and nothing else, although a = false satisfies it |
| Scenarios.AssertingB | src/core.rs:142-163 | asserting b in (¬a) ∧ (b) satisfies (b) and leaves (¬a) undetermined |
| Scenarios.ComplementingB | src/core.rs:83-100 | complementing b in (¬a) ∧ (b) also satisfies (b), as written |
| Scenarios.OnlyNegatedALeft | src/algorithms.rs:6-32 | a two-clause formula of (¬a) followed by a satisfied clause can be rejected over {a} |
| Scenarios.PickingAFirstAccepts | src/algorithms.rs:12-20 | picking a first in (¬a) ∧ (b) can end satisfiable |
| Scenarios.PickingBFirstRejects | src/algorithms.rs:12-31 | picking b first in (¬a) ∧ (b) can end unsatisfiable |
| Scenarios.VerdictDependsOnPick | src/algorithms.rs:12 | both verdicts are reachable for (¬a) ∧ (b) over {a, b}, so the verdict depends on the pool's iteration order |
| Scenarios.NegatedAAndAAndBUnsatisfiable | src/core.rs:115-118 | no truth assignment satisfies (¬a) ∧ (a) ∧ (b) |
| Scenarios.NegatedAFirstCut | src/core.rs:148-161 | asserting a in (¬a) ∧ (a) ∧ (b) empties the first clause and cuts the reduction to the empty unsatisfiable formula, dropping (a) and (b) |
| Scenarios.UnsatisfiableAccepted | src/algorithms.rs:12-20 | (¬a) ∧ (a) ∧ (b) has no satisfying assignment, yet picking a first over {a, b} ends satisfiable, so satisfiable is a reachable verdict |
| Scenarios.AssertingBAfterA | src/core.rs:142-163 | asserting b in (¬a) ∧ (a) ∧ (b) satisfies (b), keeps it in the output, and leaves (¬a) and (a) undetermined |
| Scenarios.ComplementingBAfterA | src/core.rs:83-100 | complementing b in (¬a) ∧ (a) ∧ (b) also satisfies (b), as written, and leaves (¬a) and (a) undetermined |
| Scenarios.NegatedAThenALeft | src/algorithms.rs:6-32 | a three-clause formula of (¬a), (a) and a satisfied clause can be rejected over {a} |
| Scenarios.UnsatisfiableRejected | src/algorithms.rs:12-31 | picking b first in (¬a) ∧ (a) ∧ (b) over {a, b} can end unsatisfiable, so with `UnsatisfiableAccepted` the verdict depends on the pick |
| Parser.ParseCnf | src/parser.rs:3-38 | the result is never None; there is one clause per `&&` segment of the normalised text, in order, each holding exactly its tokens' literals and undetermined; the variable set is exactly the first characters of all tokens |
| Parser.Build | src/parser.rs:9-36 | the builder's loop over the segments yields exactly the per-segment clauses in segment order, all undetermined, and collects exactly every token's first character |
| Parser.VariablesAreMentioned | src/parser.rs:22-35 | a character is among the collected variables if and only if some built clause holds a literal of it |
| Parser.ParseClause | src/parser.rs:23-33 | one clause holds exactly the literals of its tokens, and the names collected are exactly the variables of those literals |
| Parser.TokenLiteralByLength | src/parser.rs:26-32 | a token's literal names its first character and is asserted iff the token is one character long, so `a’` and `ab` both complement `a` |
| Parser.RepeatedTokenCollapses | src/parser.rs:27 | a repeated token adds no literal and no variable, because clauses are sets |
| Parser.FirstCharsAreNames | src/parser.rs:25-32 | a character is a token's first character iff it names one of the clause's literals |
| Parser.EmptyTextPanics | src/parser.rs:25 | the empty text leaves an empty token, on which the builder panics |
| Parser.EmptyParenthesesPanic | src/parser.rs:25 | the text `()` leaves an empty token, on which the builder panics |
| Parser.TrailingDisjunctionPanics | src/parser.rs:25 | a lower-case variable followed by `\|\|` leaves an empty last token, on which the builder panics |
| Text.LowerChar | src/parser.rs:4 | an upper-case ASCII letter becomes the lower-case letter 32 code points above it, and every other character is unchanged |
| Text.Lower | src/parser.rs:4 | lower-casing keeps the length, turns each upper-case ASCII letter into its lower-case counterpart, leaves no upper-case ASCII letter, and changes nothing else |
| Text.RemoveSpaces | src/parser.rs:4 | the result has no space and holds exactly the other characters of the input |
| Text.RemoveSpacesChar | src/parser.rs:4 | a single character is kept exactly when it is not a space |
| Text.RemoveSpacesAppend | src/parser.rs:4 | removal distributes over concatenation, so with the one-character case the kept characters stay in their original order |
| Text.FindFromIsLeftmost | src/parser.rs:5 | the separator is found at its leftmost occurrence |
| Text.SplitIsLeftmost | src/parser.rs:5 | the first part ends exactly at the leftmost occurrence of the separator, and the text is left whole if and only if it does not contain the separator |
| Text.SplitPartsAreFree | src/parser.rs:5 | no part of a split contains the separator |
| Text.SplitJoin | src/parser.rs:5 | joining the parts of a split with the separator restores the text |
| Text.TrimStart | src/parser.rs:14 | the result is a suffix of the input, everything removed is the trimmed character, and the result does not start with it |
| Text.TrimEnd | src/parser.rs:15 | the result is a prefix of the input, everything removed is the trimmed character, and the result does not end with it |
| Prototype.Classify | src/main.rs:61-65 | a literal keeps its whole token and is positive iff the token is one character long |
| Prototype.ParseClause | src/main.rs:59-66 | a clause's literals are its tokens' literals, in token order, duplicates kept |
| Prototype.ParseClauses | src/main.rs:58-68 | one clause per segment, in segment order |
| Prototype.ParseCnf | src/main.rs:44-71 | the result is never None and has one clause per `&&` segment of the normalised text, in order, each built from that segment's tokens, the empty token included |
| Prototype.TokensRoundTrip | src/main.rs:58-66 | reading the tokens back from a built clause gives the token list it was built from, in order |
| Prototype.ClauseRoundTrip | src/main.rs:50-66 | joining the stored tokens of a segment's clause with `\|\|` gives back the segment with its parentheses unwrapped |
| Prototype.SegmentsRoundTrip | src/main.rs:45-46 | joining the segments with `&&` gives back the normalised text |
| Prototype.EmptyTokenKept | src/main.rs:20-22 | an empty token becomes a complemented empty literal instead of a panic, and a repeated token is kept twice |

## Left out

- `main()` in `src/main.rs` is not modelled: it only prints a hard-coded formula.
- The `Hash` implementation for `Clause` and the derived `Debug` and `Hash` traits are not modelled. Their results depend on set iteration order and carry no meaning.
- `Clause::clear` and the `set_state` setters are not modelled separately. Pure values replace mutation: `Clause.WithState` and `Cnf.WithState` play the setters' part.
- The one-line accessors are modelled without contracts of their own: `is_empty`, the state predicates, and `CNF::add`. Their meaning is used through the members above. For example, `Parser.Build` states what repeated `add` calls build.
- The concrete pick `literals.iter().next()` is a nondeterministic choice from the pool. Hash-set iteration order is not observable.
- Soundness, completeness and order independence with respect to truth assignments are not claimed. The code as written has none of them. `Scenarios.UnsatisfiableAccepted` shows an unsatisfiable formula reported satisfiable, `Scenarios.NegatedUnitRejected` a satisfiable one reported unsatisfiable, and `Scenarios.VerdictDependsOnPick` a verdict that depends on the pick.
- `to_lowercase` is modelled for ASCII letters only. Unicode case mapping can change a string's length, which this model does not capture.
- Algorithms.Dpll: the mutable pool is modelled as a set passed in and returned. Only the returned pool is described. That the input formula is left unchanged holds trivially, because formulas are immutable values.
- Parser.ParseCnf: the panic on an empty token is a precondition, not a modelled error; `Parser.EmptyTextPanics`, `Parser.EmptyParenthesesPanic` and `Parser.TrailingDisjunctionPanics` show inputs that violate it. The `None` branch is kept, but splitting always yields at least one segment, so it is never taken.
- Stack depth is not modelled. The recursion is bounded by the size of the pool, which is `Dpll`'s termination measure.

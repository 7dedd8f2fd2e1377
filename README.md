# Circuit satisfier — a verified Dafny model

This project models the deterministic core of a small teaching tool for CNF satisfiability:

- **Gates** (`gates.dfy`): the gate tree shared by every script. It covers `Gate.evaluate`, with Python's short-circuiting `all`/`any` and its two exceptions, and the collection of a circuit's input variables.
- **CNF reading** (`cnf.dfy`): `gate_to_cnf_clauses`, which checks the AND-of-ORs shape and turns the circuit into (positives, negatives) clauses. It also defines what it means for an assignment to satisfy a clause.
- **Constraint sets** (`constraints.dfy`): `VarState` and the `ConstraintSet` class. `set_state` is the only place a conflict is recorded; `to_assignment` turns a set into a total boolean map.
- **Propagation** (`propagation.dfy`): `propagate_clause`. It either short-circuits on a clause that is already satisfied, or returns one extended copy per literal that can still be made true.
- **Search** (`search.dfy`): `satisfy_cnf`, the frontier search that folds propagation over the clauses. Around it sits the deterministic part of `generate_and_solve`: collect the variables, read the clauses, solve, and fill in the missing variables with True.
- **Truth tables** (`truth_tables.dfy`): `generate_truth_table` over `itertools.product([False, True], repeat=n)`, and the `only_satisfiable` row filter of `display_truth_table`.
- **Pigeonhole** (`pigeonhole.dfy`): `generate_pigeonhole`, `format_pigeonhole_clause` and its inner `var_to_ph`.
- **Helpers:** `wrappers.dfy` holds `Option`/`Result`. `sorting.dfy` models Python's `sorted` over a set of variable indices.

Each imperative routine of the source is a Dafny method whose loops carry invariants. Most methods are proved equal to a specification function, and lemmas state what that function means. `Search.FillMissing`, `Search.GenerateAndSolve`, `TruthTables.GenerateTruthTable`, `TruthTables.EvaluateRows`, `Sorting.Sorted` and `Sorting.Minimum` instead state their properties directly in their postconditions. Together they establish:

- The solver is sound and complete.
- The CNF reading agrees with `Gate.evaluate`.
- The truth table is complete, correctly ordered and correctly valued.
- The pigeonhole formula is unsatisfiable exactly when there are more pigeons than holes.
- The variable encoding and the printed terms round-trip.

`truthtables.py` repeats `Gate`, `evaluate` and `get_input_variables` from `satisfier.py`; the two copies compute the same thing. They are modelled once, in `Gates`: `Gates.CollectVariables` is also `get_input_variables` (truthtables.py:79-88), and `Gates.Evaluate` is also the `evaluate` of truthtables.py:21-30.

## Model

| member | source | states |
|---|---|---|
| Gates.Gather | satisfier.py:235-239 | The recursive `gather_vars` adds to the accumulated set exactly the indices of the INPUT nodes of the subtree. |
| Gates.CollectVariables | satisfier.py:231-242 | `collect_circuit_variables` (and `get_input_variables`) returns exactly the set of indices of INPUT nodes anywhere in the tree. |
| Gates.Evaluate | satisfier.py:22-31 | `evaluate`: an INPUT reads its value or raises `KeyError`, NOT negates, AND/OR short-circuit like `all`/`any`, any other type raises `ValueError`. It is also the identical copy at truthtables.py:21-30. Its meaning is stated by EvaluateAnd, EvaluateOr, EvaluateTotal, EvaluateLocal and EvaluateErrorCause. |
| Gates.EvaluateAnd | satisfier.py:27-28 | When every child evaluates, AND is true iff all children are true, so an empty AND is true. |
| Gates.EvaluateOr | satisfier.py:29-30 | When every child evaluates, OR is true iff some child is true, so an empty OR is false. |
| Gates.EvaluateTotal | satisfier.py:22-31 | A circuit with no unknown gate type, whose every input variable is assigned, evaluates without raising. |
| Gates.EvaluateLocal | satisfier.py:22-31 | The result, or the exception, depends only on the values of the circuit's own input variables. |
| Gates.EvaluateErrorCause | truthtables.py:21-30 | `evaluate` raises `KeyError` only for an input of the circuit that is missing from the values. It raises `ValueError` only when some gate of the tree has an unknown type. |
| Cnf.GateToCnfClauses | satisfier.py:57-82 | The loops return exactly the clause list or error defined by `ToCnf`. That includes the first error met, in the source's scan order. |
| Cnf.ExtractClauseShape | satisfier.py:70-78 | One OR's literals are read without error iff every literal is an INPUT or a NOT of an INPUT. The clause then has one entry per literal. A NOT error names a NOT over a non-INPUT, and an invalid-literal error names a literal of another kind. |
| Cnf.ExtractClausesShape | satisfier.py:63-80 | The children of the top AND are read without error iff they form a CNF. Then there is one clause per child. Each error names a child or literal that causes it. |
| Cnf.ToCnfShape | satisfier.py:57-82 | Reading succeeds iff the circuit is an AND of ORs of literals, with one clause per OR. "Top level must be AND" is raised exactly when the top gate is not AND, and every other error names a violating child. |
| Cnf.ClauseLengths | satisfier.py:67-80 | Clause i comes from the i-th OR, and its positives and negatives together have as many entries as that OR has literals. |
| Cnf.ClauseErrorPersists | satisfier.py:70-78 | Once reading a prefix of an OR's literals has raised, the whole OR raises the same error. |
| Cnf.ClausesErrorPersists | satisfier.py:63-80 | Once reading a prefix of the AND's children has raised, the whole circuit raises the same error. |
| Cnf.ClauseWithPositive | satisfier.py:71-72 | Appending a positive literal to a clause adds exactly "that variable is true" as one more way to satisfy it. |
| Cnf.ClauseWithNegative | satisfier.py:73-76 | Appending a negative literal to a clause adds exactly "that variable is false" as one more way to satisfy it. |
| Cnf.ExtractClauseMeaning | satisfier.py:70-80 | Under an assignment of its inputs, an OR of literals evaluates to true iff its extracted clause is satisfied. |
| Cnf.ExtractClauseLast | satisfier.py:70-78 | Reading one more literal adds exactly that literal's value as one more way to satisfy the clause. |
| Cnf.ToCnfMeaning | satisfier.py:57-82 | Under any assignment of the circuit's inputs, `Gate.evaluate` of a CNF circuit equals "every extracted clause has a true literal". |
| Constraints.Finalize | satisfier.py:114-126 | `to_assignment` is None iff some entry is CONFLICT. Otherwise its keys are exactly the set's keys, with MUST_TRUE→True, MUST_FALSE→False and UNKNOWN→True. |
| Constraints.ConstraintSet.constructor | satisfier.py:91-92 | A new set has no entries. |
| Constraints.ConstraintSet.Copy | satisfier.py:94-97 | `copy` returns a new object with equal entries, so later changes to either object leave the other unchanged. |
| Constraints.ConstraintSet.GetState | satisfier.py:99-100 | Returns the stored state, or UNKNOWN for a variable without an entry. |
| Constraints.ConstraintSet.SetState | satisfier.py:102-112 | Returns true and stores `s` exactly when the current state is UNKNOWN (or absent) or equals `s`. Otherwise it stores CONFLICT and returns false. No other entry changes. |
| Constraints.ConstraintSet.ToAssignment | satisfier.py:114-126 | The loop over the sorted entries returns exactly `Finalize` of the set's entries. |
| Propagation.PropagateClause | satisfier.py:128-161 | Returns new objects, pairwise distinct, whose entries are exactly `Propagate`: the input alone when the clause is already satisfied; otherwise the positive-literal branches, then the negative-literal ones, each in listed order. The input object is not modified. |
| Propagation.TryLiterals | satisfier.py:148-159 | One branching loop yields one fresh copy per literal, in order, whose variable is neither opposite nor conflicting, with that variable forced. |
| Propagation.TryLiteral | satisfier.py:149-152 | One loop iteration yields a new set exactly when the variable is not in the opposite state and `set_state` succeeds. The new set is the input with that variable forced. |
| Propagation.BranchesShape | satisfier.py:148-159 | There is at most one branch per literal. Each branch is the input with exactly one UNKNOWN literal's variable forced, and every UNKNOWN literal gets its branch. |
| Propagation.PropagateBranching | satisfier.py:145-161 | On a clause not yet satisfied, there is at most one set per literal. Each set is the input with one UNKNOWN literal's variable forced to its satisfying value, and no such literal is missed. |
| Propagation.PropagateSound | satisfier.py:128-161 | From a conflict-free set, every returned set is conflict-free, extends the input and satisfies the clause by a forced value. |
| Propagation.PropagateComplete | satisfier.py:128-161 | If a total assignment agrees with the set's forced values and satisfies the clause, some returned set still agrees with it. |
| Search.SatisfyCnf | satisfier.py:163-199 | The loop returns exactly `Solve`. An empty clause list gives `{}`. The method stops with None at the first clause after which the frontier is empty. Otherwise it finalises the first surviving set. |
| Search.StepAll | satisfier.py:176-184 | The inner loop's new frontier holds the propagation results of every member, in frontier order (`Step`). |
| Search.EmptyFrontierPersists | satisfier.py:194-196 | Once the frontier is empty it stays empty, so stopping early returns what the full fold would. |
| Search.StepMembers | satisfier.py:175-184 | A set is on the next frontier iff it is a propagation result of some member of the current frontier. |
| Search.SatisfiedMonotone | satisfier.py:136-142 | A clause satisfied by a forced value stays satisfied in every extension of the set. |
| Search.FrontierSound | satisfier.py:172-196 | No frontier member ever contains CONFLICT, and each satisfies every clause processed so far by a forced value. |
| Search.StepSound | satisfier.py:179-182 | Propagating one more clause keeps a sound member sound for the extended clause list. |
| Search.FinalizeSatisfies | satisfier.py:114-126 | Finalising a conflict-free set keeps every clause it satisfies by a forced value satisfied. |
| Search.SolveSound | satisfier.py:163-199 | A non-None result makes at least one literal of every clause true. |
| Search.FrontierComplete | satisfier.py:172-196 | If some total assignment satisfies the clauses, some frontier member agrees with it. |
| Search.SolveComplete | satisfier.py:163-166 | The result is None only when no assignment satisfies all clauses, as the docstring promises. |
| Search.EmptyClauseUnsatisfiable | satisfier.py:151-159 | A clause with no literals makes the result None. |
| Search.ContradictoryUnits | satisfier.py:163-199 | Worked example: `x1 ∧ ¬x1` gives None. |
| Search.TwoClauses | satisfier.py:163-199 | Worked example: `(x1 ∨ x2) ∧ (¬x1 ∨ ¬x2)` gives `{1: True, 2: False}`, because the positive branches come first. |
| Search.FillMissing | satisfier.py:261-266 | The result gains exactly the missing circuit variables, each set to True. Existing entries are unchanged. |
| Search.SatisfiesExtended | satisfier.py:261-266 | Adding entries to a satisfying assignment keeps it satisfying. |
| Search.GenerateAndSolve | satisfier.py:244-273 | For a given circuit: it raises exactly when the circuit is not in CNF shape, with `gate_to_cnf_clauses`' error. A returned assignment covers every input variable and makes the circuit evaluate to True. None is returned only when every assignment of the inputs makes it evaluate to False. |
| Sorting.Sorted | satisfier.py:117 | `sorted` over a set of indices gives its elements exactly once, in strictly increasing order. |
| Sorting.Minimum | satisfier.py:117 | Returns an element of the non-empty set that is no greater than any other element. |
| TruthTables.GenerateTruthTable | truthtables.py:90-106 | On success there are exactly 2^n rows, n being the number of distinct input variables. Each row's inputs have exactly the input variables as keys, and each output equals `evaluate` on those inputs. Rows come in product order (at the smallest differing variable, False before True) and are pairwise distinct, and every assignment appears. It fails iff some assignment makes `evaluate` raise; the error is then that of the first such assignment in the table's order, and it is always an unknown gate type. |
| TruthTables.EvaluateRows | truthtables.py:96-104 | The loop gives one row per combination, pairing its zipped inputs with their value. If `evaluate` raises, the loop stops with the error of the first combination that raises; every earlier one evaluates. |
| TruthTables.RowsTotal | truthtables.py:97-99 | If every assignment is a row and every row evaluated, then `evaluate` raises on no assignment. |
| TruthTables.Product | truthtables.py:97 | `product([False, True], repeat=n)`, built from the last position; its shape, order and completeness are stated by ProductShape, ProductOrdered and ProductComplete. |
| TruthTables.Zip | truthtables.py:98 | `dict(zip(keys, values))`, stopping at the shorter sequence, a later key overwriting an earlier one; its meaning is stated by ZipLookup, ZipKeys, ZipOrder and ZipLookupInverse. |
| TruthTables.FirstFailureOfRows | truthtables.py:97-99 | The first combination in product order on which `evaluate` raises zips to the first failing assignment in the table's order: every assignment of the input variables before it evaluates. |
| TruthTables.FirstFailureCause | truthtables.py:99 | A first failing assignment witnesses that some assignment fails, and its error is an unknown gate type of the circuit. |
| TruthTables.InputsLessAsymmetric | truthtables.py:97 | The table's order on assignments is asymmetric, so no two rows precede each other. |
| TruthTables.ProductShape | truthtables.py:97 | `product([False, True], repeat=n)` has 2^n rows of length n. |
| TruthTables.ProductOrdered | truthtables.py:97 | Its rows are in strictly increasing lexicographic order, with False below True and the first position most significant. |
| TruthTables.ProductComplete | truthtables.py:97 | Every sequence of n booleans is one of its rows. |
| TruthTables.ZipLookup | truthtables.py:98 | `dict(zip(vars, values))` with distinct vars maps the k-th variable to the k-th value and has no other key. |
| TruthTables.ZipKeys | truthtables.py:98 | Its keys are exactly the variables zipped. |
| TruthTables.ZipOrder | truthtables.py:93-98 | Zipping the sorted variables turns product order into the table's order on assignments. |
| TruthTables.ZipLookupInverse | truthtables.py:98 | Zipping the variables with an assignment's values for them rebuilds the assignment. |
| TruthTables.RowsKeys | truthtables.py:93-103 | Every row assigns exactly the circuit's input variables. |
| TruthTables.RowsOrdered | truthtables.py:93-103 | Rows come in the table's order, so no two coincide. |
| TruthTables.RowsComplete | truthtables.py:93-103 | Every assignment of exactly the input variables is some row's. |
| TruthTables.InputsLessDistinct | truthtables.py:93-103 | Two assignments in table order are different. |
| TruthTables.SatisfiableRows | truthtables.py:113-114 | The filter keeps exactly the rows whose output is true and never lengthens the list. Its length is the reported total (truthtables.py:139-140). |
| TruthTables.SatisfiableRowsAppend | truthtables.py:113-114 | The filter works row by row, so kept rows stay in their original order. |
| TruthTables.SatisfiableRowsOfTable | truthtables.py:113-114 | On a complete table, an assignment of the inputs makes the circuit true iff some kept row carries it. |
| Pigeonhole.GeneratePigeonhole | pigeonhole_generator.py:3-30 | The nested loops build exactly `Pigeonhole(pigeons, holes)`: the pigeon clauses, then for each hole, each first pigeon and each later pigeon, one exclusion. |
| Pigeonhole.AddPigeonClauses | pigeonhole_generator.py:14-18 | The first loop appends one all-positive clause per pigeon, over that pigeon's variables for holes 1..holes. |
| Pigeonhole.ExcludeInHole | pigeonhole_generator.py:22-28 | The middle loop appends hole h's exclusions for every first pigeon, in order. |
| Pigeonhole.ExcludePairs | pigeonhole_generator.py:23-28 | The innermost loop appends the exclusion of p1 against each later pigeon, in order. |
| Pigeonhole.ClauseCount | pigeonhole_generator.py:14-28 | The number of clauses is `pigeons + holes * pigeons*(pigeons-1)/2`, reading a non-positive count as zero, as `range` does. |
| Pigeonhole.PigeonClausesLength | pigeonhole_generator.py:15-18 | One clause per pigeon. |
| Pigeonhole.PairClausesLength | pigeonhole_generator.py:23-28 | The innermost loop adds one clause per later pigeon. |
| Pigeonhole.HoleClausesLength | pigeonhole_generator.py:22-28 | One hole gets one clause per pair of pigeons. |
| Pigeonhole.ExclusionsLength | pigeonhole_generator.py:21-28 | Every hole gets the same number of exclusions. |
| Pigeonhole.PigeonClausesAt | pigeonhole_generator.py:15-18 | Clause i of the first part is pigeon i+1's clause. |
| Pigeonhole.PigeonClauseShape | pigeonhole_generator.py:15-18 | Clause p-1 has no negatives. Its positives are `(p-1)*holes+1 .. p*holes`, in ascending order. |
| Pigeonhole.PairClausesMembers | pigeonhole_generator.py:23-28 | The innermost loop yields exactly the exclusions of pigeon p1 against each later pigeon. |
| Pigeonhole.HoleClausesMembers | pigeonhole_generator.py:22-28 | One hole's loops yield exactly the exclusions of its pairs of pigeons. |
| Pigeonhole.ExclusionsMembers | pigeonhole_generator.py:21-28 | The second part consists of exactly the exclusions for every hole and every pair p1 < p2. |
| Pigeonhole.ExclusionShape | pigeonhole_generator.py:21-28 | Every later clause has no positives and exactly two negatives, `var1 < var2`, naming the same hole for pigeons p1 < p2. |
| Pigeonhole.ExclusionOrdered | pigeonhole_generator.py:26-27 | With at least one hole, the earlier pigeon's variable is the smaller. |
| Pigeonhole.ExclusionsComplete | pigeonhole_generator.py:21-28 | Every pair p1 < p2 and every hole has its exclusion in the formula. |
| Pigeonhole.VarInRange | pigeonhole_generator.py:9-10 | The variable of a pigeon and hole of the formula is in `1 .. pigeons*holes`. |
| Pigeonhole.VariablesInRange | pigeonhole_generator.py:17-27 | Every variable number the formula mentions is in `1 .. pigeons*holes`. |
| Pigeonhole.DivModOf | pigeonhole_generator.py:38-40 | Dividing `q*b + r` by `b`, with `0 <= r < b`, gives `q` remainder `r`. |
| Pigeonhole.FloorDiv | pigeonhole_generator.py:39 | Python's `//`: the quotient rounded toward minus infinity, so `b*q <= a < b*q + b` for a positive divisor and `b*q + b < a <= b*q` for a negative one. |
| Pigeonhole.FloorMod | pigeonhole_generator.py:40 | Python's `%`: the remainder takes the divisor's sign, in `[0, b)` for a positive divisor and `(b, 0]` for a negative one. |
| Pigeonhole.PigeonAndHole | pigeonhole_generator.py:38-40 | `var_to_ph`'s arithmetic fails exactly when there are no holes; otherwise `(p-1)*holes + (h-1) == v-1`, with `1 <= h <= holes` for positive holes and `holes+2 <= h <= 1` for negative ones. |
| Pigeonhole.DecodeEncode | pigeonhole_generator.py:36-41 | For 1 ≤ h ≤ holes, `var_to_ph((p-1)*holes + h)` names pigeon p and hole h. |
| Pigeonhole.EncodeDecode | pigeonhole_generator.py:36-41 | With at least one hole, every variable is the encoding of the pigeon and hole it decodes to. The hole lies in 1..holes, and a variable in `1 .. pigeons*holes` decodes to a pigeon in 1..pigeons. |
| Pigeonhole.DiagonalAt | pigeonhole_generator.py:81 | The "pigeon p in hole p" assignment sets the variable of (p, h) to `p == h`. |
| Pigeonhole.DiagonalSatisfies | pigeonhole_generator.py:80-81 | With pigeons ≤ holes, "pigeon p in hole p" satisfies every clause. |
| Pigeonhole.SatisfiableWhenEnoughHoles | pigeonhole_generator.py:80-81 | With pigeons ≤ holes the formula is satisfiable, and `satisfy_cnf` returns an assignment. |
| Pigeonhole.InjectionBound | pigeonhole_generator.py:77-79 | Pairwise distinct holes numbered 1..holes are at most `holes` many (the pigeonhole principle). |
| Pigeonhole.HoleOfPigeon | pigeonhole_generator.py:15-18 | A satisfying assignment puts every pigeon in some hole. |
| Pigeonhole.NoAssignmentSatisfies | pigeonhole_generator.py:77-79 | With 0 ≤ holes < pigeons, no assignment satisfies the formula. |
| Pigeonhole.UnsatisfiableWhenTooFewHoles | pigeonhole_generator.py:77-79 | With 0 ≤ holes < pigeons, the formula is unsatisfiable and `satisfy_cnf` returns None. |
| Pigeonhole.NatToString | pigeonhole_generator.py:41 | `str` of a non-negative int is a non-empty string of decimal digits. |
| Pigeonhole.ParseNatToString | pigeonhole_generator.py:41 | Reading back the digits `str` writes gives the number. |
| Pigeonhole.ParseIntToString | pigeonhole_generator.py:41 | Reading back any int `str` writes, sign included, gives the number. |
| Pigeonhole.VarToPh | pigeonhole_generator.py:36-41 | `var_to_ph` raises (ZeroDivisionError) exactly when there are no holes. |
| Pigeonhole.IndexOf | pigeonhole_generator.py:41 | The first comma of a term is found, and no earlier character is a comma. |
| Pigeonhole.TermRoundTrip | pigeonhole_generator.py:36-41 | The term `x₍p,h₎` that `var_to_ph` writes reads back as exactly the pigeon and hole the variable decodes to, for every variable and every non-zero hole count. |
| Pigeonhole.ParseTermOf | pigeonhole_generator.py:41 | A term `x₍…,…₎` built from two numerals reads back as the two numbers. |
| Pigeonhole.FormatPigeonholeClause | pigeonhole_generator.py:32-49 | Returns exactly `FormatClause`: "(" + the terms joined by " ∨ " + ")", positive terms before the negated ones, each negated term prefixed with "¬". It is None where `var_to_ph` raises. |
| Pigeonhole.AppendTerms | pigeonhole_generator.py:44-47 | One term loop appends the prefixed term of each variable in order. It fails exactly when there is a variable and no holes. |
| Pigeonhole.TermsReadBack | pigeonhole_generator.py:43-49 | With at least one hole, the formatted terms read back, in order, as the clause's literals: positives first, then the negated ones, sign and variable both. |
| Pigeonhole.PositiveTermsReadBack | pigeonhole_generator.py:44-45 | Each positive term reads back as its variable, unnegated. |
| Pigeonhole.NegativeTermsReadBack | pigeonhole_generator.py:46-47 | Each "¬" term reads back as its variable, negated. |
| Pigeonhole.ReadPositive | pigeonhole_generator.py:44-45 | One positive term reads back as its variable. |
| Pigeonhole.ReadNegative | pigeonhole_generator.py:46-47 | One negated term reads back as its variable, negated. |

## Left out

- **Interactive drivers.** The `print`/`input` loops and `__main__` drivers are interactive I/O: satisfier.py:275-294, truthtables.py:160-173, pigeonhole_generator.py:51-87 and `collect_input_values`.
- **Diagnostic printing.** The prints inside `satisfy_cnf` (satisfier.py:187-192) do not affect the result.
- **Printing in `generate_and_solve`.** Its final printing and its display-only re-evaluation (satisfier.py:268-273) are not modelled.
- **Random circuit generation.** Every `generate_circuit` uses `random.sample` and a float comparison. `Search.GenerateAndSolve` therefore takes the circuit as a parameter.
- **Display formatting.** `Gate.__str__`, `format_truth_table`, `format_assignment` and the column layout and header of `display_truth_table` are formatting only.
- **Context files.** circuit_satisfier_puzzle.py and circuit_generator.py are not part of this model. Apart from randomness, prompting and rendering, they only repeat `Gate` and `evaluate`.
- **Malformed gates.** The `Gate` datatype cannot express an INPUT gate with children, or a NOT gate without exactly one child. The source's constructors never build either.
- **Python types.** Gate indices are unbounded integers. Gate types outside INPUT/NOT/AND/OR are kept only as a name (`Unknown`). The model can also build `Unknown` with one of the four known names, which `Evaluate` rejects; the source has no such gate, since those names always take their own branch. Python's dynamic typing of indices (e.g. `None`) is not modelled.
- Search.FillMissing: adds the missing variables in no particular order, because iteration order over a Python set is unspecified. The resulting map is the same either way.
- Propagation.PropagateClause: states distinctness only for the sets of one call. It does not model aliasing between frontier members of different clauses, which the source never shares.
- Pigeonhole.NoAssignmentSatisfies: requires `holes >= 0`. For negative holes and non-positive pigeons the formula is empty, so "UNSATISFIABLE" would be wrong there. The driver rejects such counts (pigeonhole_generator.py:62).
- Pigeonhole.TermsReadBack: reads back each term, not the whole joined string. Splitting the string at " ∨ " is not modelled.
- **Negative hole counts.** Python's floor `//` and `%` are modelled explicitly (`FloorDiv`, `FloorMod`). The clause generation, the clause shapes and `PigeonAndHole` are stated for every integer count. Only these results are restricted: NoAssignmentSatisfies and UnsatisfiableWhenTooFewHoles require `holes >= 0`; EncodeDecode, DiagonalSatisfies, ExclusionOrdered and the term read-back lemmas (TermsReadBack, PositiveTermsReadBack, NegativeTermsReadBack, ReadPositive, ReadNegative) require `holes >= 1`.

/**
 * `satisfy_cnf`, the frontier search, and the fill-in step of
 * `generate_and_solve` that completes its answer for a circuit.
 */
module Search {
  import opened Wrappers
  import opened Gates
  import opened Cnf
  import opened Constraints
  import opened Propagation

  /** One clause applied to a whole frontier: the results of every member, in frontier order. */
  function Step(frontier: seq<States>, c: Clause): seq<States>
  {
    if frontier == [] then []
    else Step(frontier[..|frontier| - 1], c) + Propagate(c, frontier[|frontier| - 1])
  }

  /** The frontier after the clauses, starting from the single empty set. */
  function Frontier(clauses: seq<Clause>): seq<States>
  {
    if clauses == [] then [map[]]
    else Step(Frontier(clauses[..|clauses| - 1]), clauses[|clauses| - 1])
  }

  /** What `satisfy_cnf` returns. */
  function Solve(clauses: seq<Clause>): Option<map<int, bool>>
  {
    if clauses == [] then Some(map[])
    else if Frontier(clauses) == [] then None
    else Finalize(Frontier(clauses)[0])
  }

  /**
   * `satisfy_cnf`: fold `propagate_clause` over the clauses, keeping the
   * frontier of constraint sets; stop with no assignment as soon as the
   * frontier is empty, else finalise its first member.
   */
  method SatisfyCnf(clauses: seq<Clause>) returns (r: Option<map<int, bool>>)
    ensures r == Solve(clauses)
  {
    if clauses == [] {
      return Some(map[]);
    }
    var start := new ConstraintSet();
    var possibleConstraints := [start];
    for i := 0 to |clauses|
      invariant StatesOf(possibleConstraints) == Frontier(clauses[..i])
      invariant possibleConstraints != []
    {
      assert clauses[..i + 1][..i] == clauses[..i];
      var newConstraints := StepAll(possibleConstraints, clauses[i]);
      possibleConstraints := newConstraints;
      if possibleConstraints == [] {
        EmptyFrontierPersists(clauses, i + 1);
        return None;
      }
    }
    assert clauses[..|clauses|] == clauses;
    r := possibleConstraints[0].ToAssignment();
  }

  /** The inner loop of `satisfy_cnf`: propagate one clause through every member of the frontier. */
  method StepAll(possibleConstraints: seq<ConstraintSet>, clause: Clause) returns (newConstraints: seq<ConstraintSet>)
    ensures StatesOf(newConstraints) == Step(StatesOf(possibleConstraints), clause)
  {
    newConstraints := [];
    ghost var frontier := StatesOf(possibleConstraints);
    for j := 0 to |possibleConstraints|
      invariant StatesOf(possibleConstraints) == frontier
      invariant StatesOf(newConstraints) == Step(frontier[..j], clause)
    {
      var newSets := PropagateClause(clause, possibleConstraints[j]);
      StepSnoc(frontier, j, clause);
      StatesOfConcat(newConstraints, newSets);
      newConstraints := newConstraints + newSets;
    }
    assert frontier[..|possibleConstraints|] == frontier;
  }

  /** Extending the processed prefix of a frontier by one member appends that member's propagation results. */
  lemma StepSnoc(frontier: seq<States>, j: nat, c: Clause)
    requires j < |frontier|
    ensures Step(frontier[..j + 1], c) == Step(frontier[..j], c) + Propagate(c, frontier[j])
  {
    assert frontier[..j + 1][..j] == frontier[..j];
  }

  /** Once the frontier is empty no later clause can refill it. */
  lemma {:induction false} EmptyFrontierPersists(clauses: seq<Clause>, k: nat)
    requires 0 < k <= |clauses|
    requires Frontier(clauses[..k]) == []
    ensures Frontier(clauses) == []
    decreases |clauses| - k
  {
    if k == |clauses| {
      assert clauses[..k] == clauses;
    } else {
      assert clauses[..k + 1][..k] == clauses[..k];
      EmptyFrontierPersists(clauses, k + 1);
    }
  }

  /** The members of `Step(F, c)` are exactly the results of propagating `c` from members of `F`. */
  lemma {:induction false} StepMembers(frontier: seq<States>, c: Clause)
    ensures forall m' :: m' in Step(frontier, c) <==> exists m :: m in frontier && m' in Propagate(c, m)
  {
    if frontier != [] {
      var init, last := frontier[..|frontier| - 1], frontier[|frontier| - 1];
      StepMembers(init, c);
      assert forall m :: m in frontier <==> m in init || m == last;
    }
  }

  /** A clause satisfied by forced values stays satisfied in every extension. */
  lemma SatisfiedMonotone(c: Clause, m: States, m': States)
    requires AlreadySatisfied(c, m)
    requires Extends(m, m')
    ensures AlreadySatisfied(c, m')
  {
    if i :| 0 <= i < |c.pos| && StateOf(m, c.pos[i]) == MustTrue {
      assert StateOf(m', c.pos[i]) == MustTrue;
    } else {
      var i :| 0 <= i < |c.neg| && StateOf(m, c.neg[i]) == MustFalse;
      assert StateOf(m', c.neg[i]) == MustFalse;
    }
  }

  /** No frontier member ever holds CONFLICT, and each satisfies every clause processed so far by a forced value. */
  ghost predicate SoundFrontier(frontier: seq<States>, clauses: seq<Clause>)
  {
    forall f :: f in frontier ==> Consistent(f) && forall j :: 0 <= j < |clauses| ==> AlreadySatisfied(clauses[j], f)
  }

  lemma {:induction false} FrontierSound(clauses: seq<Clause>)
    ensures SoundFrontier(Frontier(clauses), clauses)
  {
    if clauses != [] {
      var init, c := clauses[..|clauses| - 1], clauses[|clauses| - 1];
      assert init + [c] == clauses;
      FrontierSound(init);
      StepMembers(Frontier(init), c);
      forall f | f in Frontier(clauses)
        ensures Consistent(f) && forall j :: 0 <= j < |clauses| ==> AlreadySatisfied(clauses[j], f)
      {
        var m :| m in Frontier(init) && f in Propagate(c, m);
        StepSound(init, c, m, f);
      }
    }
  }

  lemma StepSound(init: seq<Clause>, c: Clause, m: States, f: States)
    requires Consistent(m)
    requires forall j :: 0 <= j < |init| ==> AlreadySatisfied(init[j], m)
    requires f in Propagate(c, m)
    ensures Consistent(f)
    ensures forall j :: 0 <= j < |init + [c]| ==> AlreadySatisfied((init + [c])[j], f)
  {
    PropagateSound(c, m);
    forall j | 0 <= j < |init| ensures AlreadySatisfied(init[j], f) {
      SatisfiedMonotone(init[j], m, f);
    }
  }

  /** Finalising a conflict-free set keeps every clause it satisfies by forced values satisfied. */
  lemma FinalizeSatisfies(c: Clause, m: States)
    requires Consistent(m)
    requires AlreadySatisfied(c, m)
    ensures ClauseSatisfiedBy(c, Finalize(m).value)
  {
    var a := Finalize(m).value;
    if i :| 0 <= i < |c.pos| && StateOf(m, c.pos[i]) == MustTrue {
      assert c.pos[i] in a && a[c.pos[i]];
    } else {
      var i :| 0 <= i < |c.neg| && StateOf(m, c.neg[i]) == MustFalse;
      assert c.neg[i] in a && !a[c.neg[i]];
    }
  }

  /** Soundness: an assignment `satisfy_cnf` returns makes a literal of every clause true. */
  lemma SolveSound(clauses: seq<Clause>)
    requires Solve(clauses).Some?
    ensures Satisfies(Solve(clauses).value, clauses)
  {
    if clauses != [] {
      var f := Frontier(clauses)[0];
      FrontierSound(clauses);
      forall j | 0 <= j < |clauses| ensures ClauseSatisfiedBy(clauses[j], Solve(clauses).value) {
        FinalizeSatisfies(clauses[j], f);
      }
    }
  }

  /** Some frontier member agrees with any assignment that satisfies the clauses processed so far. */
  lemma {:induction false} FrontierComplete(clauses: seq<Clause>, a: map<int, bool>)
    requires Satisfies(a, clauses)
    ensures exists f :: f in Frontier(clauses) && Compatible(f, a)
  {
    if clauses == [] {
      assert Compatible(map[], a);
      assert map[] in Frontier(clauses);
    } else {
      var init, c := clauses[..|clauses| - 1], clauses[|clauses| - 1];
      assert Satisfies(a, init) by {
        forall j | 0 <= j < |init| ensures ClauseSatisfiedBy(init[j], a) {
          assert init[j] == clauses[j];
        }
      }
      FrontierComplete(init, a);
      var m :| m in Frontier(init) && Compatible(m, a);
      PropagateComplete(c, m, a);
      var m' :| m' in Propagate(c, m) && Compatible(m', a);
      StepMembers(Frontier(init), c);
    }
  }

  /** Completeness: `satisfy_cnf` returns no assignment only when no assignment satisfies every clause. */
  lemma SolveComplete(clauses: seq<Clause>, a: map<int, bool>)
    requires Satisfies(a, clauses)
    ensures Solve(clauses).Some?
  {
    if clauses != [] {
      FrontierComplete(clauses, a);
      FrontierSound(clauses);
      assert Frontier(clauses)[0] in Frontier(clauses);
    }
  }

  /** A clause with no literals empties the frontier, so the result is no assignment. */
  lemma EmptyClauseUnsatisfiable(clauses: seq<Clause>, j: nat)
    requires j < |clauses|
    requires clauses[j].pos == [] && clauses[j].neg == []
    ensures Solve(clauses) == None
  {
    if Solve(clauses).Some? {
      SolveSound(clauses);
      assert false;
    }
  }

  /** The added entries of `generate_and_solve`: every variable of `allVariables` the result lacks, set to true. */
  method FillMissing(result: map<int, bool>, allVariables: set<int>) returns (filled: map<int, bool>)
    ensures filled.Keys == result.Keys + allVariables
    ensures forall v :: v in result ==> filled[v] == result[v]
    ensures forall v :: v in allVariables && v !in result ==> filled[v]
  {
    filled := result;
    var vars := allVariables;
    while vars != {}
      invariant vars <= allVariables
      invariant filled.Keys == result.Keys + (allVariables - vars)
      invariant forall v :: v in result ==> filled[v] == result[v]
      invariant forall v :: v in filled && v !in result ==> filled[v]
      decreases vars
    {
      var v := Sorting.Pick(vars);
      if v !in filled {
        filled := filled[v := true];
      }
      vars := vars - {v};
    }
  }

  /** The clauses' satisfaction by an assignment survives adding entries for other variables. */
  lemma SatisfiesExtended(clauses: seq<Clause>, a: map<int, bool>, b: map<int, bool>)
    requires Satisfies(a, clauses)
    requires forall v :: v in a ==> v in b && b[v] == a[v]
    ensures Satisfies(b, clauses)
  {
    forall j | 0 <= j < |clauses| ensures ClauseSatisfiedBy(clauses[j], b) {
      var c := clauses[j];
      if i :| 0 <= i < |c.pos| && c.pos[i] in a && a[c.pos[i]] {
        var v := c.pos[i];
        assert v in a;
        assert v in b;
      } else {
        var i :| 0 <= i < |c.neg| && c.neg[i] in a && !a[c.neg[i]];
        var v := c.neg[i];
        assert v in b;
      }
    }
  }

  /**
   * `generate_and_solve` for a given circuit (its random generation and
   * printing left aside): collect the circuit's variables, read it into
   * clauses (raising if it is not in CNF shape), solve, and give every
   * variable the result lacks the value true. A returned assignment makes
   * the circuit evaluate to true; no assignment is returned only when every
   * assignment of the circuit's inputs makes it evaluate to false.
   */
  method GenerateAndSolve(circuit: Gate) returns (r: Result<Option<map<int, bool>>, CnfError>)
    ensures r.Err? <==> !IsCnfShape(circuit)
    ensures r.Err? ==> ToCnf(circuit).Err? && r.error == ToCnf(circuit).error
    ensures r.Ok? && r.value.Some? ==>
              InputVars(circuit) <= r.value.value.Keys && Evaluate(circuit, r.value.value) == Ok(true)
    ensures r.Ok? && r.value.None? ==>
              forall a: map<int, bool> :: InputVars(circuit) <= a.Keys ==> Evaluate(circuit, a) == Ok(false)
  {
    ToCnfShape(circuit);
    var allVariables := CollectVariables(circuit);
    var clauses := GateToCnfClauses(circuit);
    if clauses.Err? {
      return Err(clauses.error);
    }
    var result := SatisfyCnf(clauses.value);
    if result.None? {
      forall a: map<int, bool> | InputVars(circuit) <= a.Keys
        ensures Evaluate(circuit, a) == Ok(false)
      {
        ToCnfMeaning(circuit, a);
        if Satisfies(a, clauses.value) {
          SolveComplete(clauses.value, a);
        }
      }
      return Ok(None);
    }
    var filled := FillMissing(result.value, allVariables);
    SolveSound(clauses.value);
    SatisfiesExtended(clauses.value, result.value, filled);
    ToCnfMeaning(circuit, filled);
    r := Ok(Some(filled));
  }

  /** Worked example: the unit clauses x1 and ¬x1 leave an empty frontier after the second clause. */
  lemma ContradictoryUnits()
    ensures Solve([Clause([1], []), Clause([], [1])]) == None
  {
    var c1, c2 := Clause([1], []), Clause([], [1]);
    var e: States := map[];
    var m1 := e[1 := MustTrue];
    assert [c1, c2][..1] == [c1];
    assert [c1][..0] == [];
    assert [1][..0] == [];
    assert [e][..0] == [];
    assert !AlreadySatisfied(c1, e);
    assert Branches([1], e, MustTrue) == [m1];
    assert Propagate(c1, e) == [m1];
    assert Step([e], c1) == [m1];
    assert Frontier([c1]) == [m1];
    assert !AlreadySatisfied(c2, m1);
    assert Branches([1], m1, MustFalse) == [];
    assert Propagate(c2, m1) == [];
    assert [m1][..0] == [];
    assert Step([m1], c2) == [];
    assert Frontier([c1, c2]) == [];
  }
  /**
   * Worked example: for (x1 ∨ x2) ∧ (¬x1 ∨ ¬x2) the first surviving set is
   * the one that took the first positive literal, so the answer is
   * x1 = True, x2 = False.
   */
  lemma TwoClauses()
    ensures Solve([Clause([1, 2], []), Clause([], [1, 2])]) == Some(map[1 := true, 2 := false])
  {
    var c1, c2 := Clause([1, 2], []), Clause([], [1, 2]);
    var e: States := map[];
    var m1, m2 := e[1 := MustTrue], e[2 := MustTrue];
    var f := m1[2 := MustFalse];
    TwoClausesFirst();
    TwoClausesSecond();
    assert [c1, c2][..1] == [c1];
    assert [m1, m2][..1] == [m1];
    assert [m1][..0] == [];
    assert Step([m1], c2) == [f];
    assert Step([m1, m2], c2) == [f] + Propagate(c2, m2);
    assert Frontier([c1, c2])[0] == f;
    TwoClausesFinal();
  }

  /** The first clause of the example leaves the sets {x1: MUST_TRUE} and {x2: MUST_TRUE}, in that order. */
  lemma TwoClausesFirst()
    ensures Frontier([Clause([1, 2], [])]) == [map[1 := MustTrue], map[2 := MustTrue]]
  {
    var c1 := Clause([1, 2], []);
    var e: States := map[];
    var m1, m2 := e[1 := MustTrue], e[2 := MustTrue];
    assert [c1][..0] == [];
    assert [1, 2][..1] == [1];
    assert [1][..0] == [];
    assert [e][..0] == [];
    assert !AlreadySatisfied(c1, e);
    assert Branches([1], e, MustTrue) == [m1];
    assert Branches([1, 2], e, MustTrue) == [m1, m2];
    assert Propagate(c1, e) == [m1, m2];
    assert Step([e], c1) == [m1, m2];
  }

  /** The second clause of the example sends {x1: MUST_TRUE} to the single set that also has x2 MUST_FALSE. */
  lemma TwoClausesSecond()
    ensures Propagate(Clause([], [1, 2]), map[1 := MustTrue]) == [map[1 := MustTrue, 2 := MustFalse]]
  {
    var c2 := Clause([], [1, 2]);
    var m1: States := map[1 := MustTrue];
    assert [1, 2][..1] == [1];
    assert [1][..0] == [];
    assert !AlreadySatisfied(c2, m1);
    assert Branches([1], m1, MustFalse) == [];
    assert Branches([1, 2], m1, MustFalse) == [m1[2 := MustFalse]];
  }

  /** Finalising the example's first surviving set gives x1 = True, x2 = False. */
  lemma TwoClausesFinal()
    ensures Finalize(map[1 := MustTrue, 2 := MustFalse]) == Some(map[1 := true, 2 := false])
  {
    var f: States := map[1 := MustTrue, 2 := MustFalse];
    assert Consistent(f);
    var a := map v | v in f :: f[v] != MustFalse;
    assert a.Keys == {1, 2};
    assert a == map[1 := true, 2 := false];
  }
}

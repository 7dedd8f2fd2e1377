/**
 * `propagate_clause`: given one clause and one constraint set, the sets that
 * extend it so that the clause is satisfied.
 */
module Propagation {
  import opened Cnf
  import opened Constraints
  import opened Wrappers

  /** The state a literal of the given polarity must not already be in. */
  function Opposite(s: VarState): VarState
    requires s == MustTrue || s == MustFalse
  {
    if s == MustTrue then MustFalse else MustTrue
  }

  /** Some positive literal's variable is MUST_TRUE or some negative literal's variable is MUST_FALSE. */
  predicate AlreadySatisfied(c: Clause, m: States)
  {
    || (exists i :: 0 <= i < |c.pos| && StateOf(m, c.pos[i]) == MustTrue)
    || (exists i :: 0 <= i < |c.neg| && StateOf(m, c.neg[i]) == MustFalse)
  }

  /**
   * One extension of `m` per variable of `vars`, in order, forcing it to `s`:
   * skipped when the variable is already in the opposite state or when
   * `set_state` would fail.
   */
  function Branches(vars: seq<int>, m: States, s: VarState): seq<States>
    requires s == MustTrue || s == MustFalse
  {
    if vars == [] then []
    else
      var v := vars[|vars| - 1];
      Branches(vars[..|vars| - 1], m, s)
        + (if StateOf(m, v) != Opposite(s) && CanSet(m, v, s) then [m[v := s]] else [])
  }

  /** The contents of the sets `propagate_clause(c, m)` returns. */
  function Propagate(c: Clause, m: States): seq<States>
  {
    if AlreadySatisfied(c, m) then [m]
    else Branches(c.pos, m, MustTrue) + Branches(c.neg, m, MustFalse)
  }

  /**
   * `propagate_clause`: the clause's short-circuit check, then one copy of
   * the set per literal that can still be made true. Every returned set is a
   * new object, and the input set is left as it was.
   */
  method PropagateClause(clause: Clause, constraints: ConstraintSet) returns (result: seq<ConstraintSet>)
    ensures StatesOf(result) == Propagate(clause, constraints.varStates)
    ensures forall i :: 0 <= i < |result| ==> fresh(result[i])
    ensures forall i, j :: 0 <= i < j < |result| ==> result[i] != result[j]
  {
    var m := constraints.varStates;
    var currentState := constraints.Copy();
    for i := 0 to |clause.pos|
      invariant forall k :: 0 <= k < i ==> StateOf(m, clause.pos[k]) != MustTrue
    {
      if currentState.GetState(clause.pos[i]) == MustTrue {
        return [currentState];
      }
    }
    for i := 0 to |clause.neg|
      invariant forall k :: 0 <= k < i ==> StateOf(m, clause.neg[k]) != MustFalse
    {
      if currentState.GetState(clause.neg[i]) == MustFalse {
        return [currentState];
      }
    }
    assert !AlreadySatisfied(clause, m);
    var positives := TryLiterals(clause.pos, MustTrue, currentState);
    var negatives := TryLiterals(clause.neg, MustFalse, currentState);
    assert forall i, j :: 0 <= i < |positives| && 0 <= j < |negatives| ==> positives[i] != negatives[j];
    StatesOfConcat(positives, negatives);
    result := positives + negatives;
  }

  /**
   * The two `for` loops of `propagate_clause` that branch: for each variable
   * not already in the opposite state, a copy of `currentState` on which
   * `set_state(v, s)` is tried, kept when it succeeds.
   */
  method TryLiterals(vars: seq<int>, s: VarState, currentState: ConstraintSet) returns (result: seq<ConstraintSet>)
    requires s == MustTrue || s == MustFalse
    ensures StatesOf(result) == Branches(vars, currentState.varStates, s)
    ensures forall k :: 0 <= k < |result| ==> fresh(result[k])
    ensures forall k, l :: 0 <= k < l < |result| ==> result[k] != result[l]
  {
    var m := currentState.varStates;
    result := [];
    for i := 0 to |vars|
      invariant currentState.varStates == m
      invariant StatesOf(result) == Branches(vars[..i], m, s)
      invariant forall k :: 0 <= k < |result| ==> fresh(result[k])
      invariant forall k, l :: 0 <= k < l < |result| ==> result[k] != result[l]
    {
      assert vars[..i + 1][..i] == vars[..i];
      var branch := TryLiteral(vars[i], s, currentState);
      if branch.Some? {
        StatesOfConcat(result, [branch.value]);
        result := result + [branch.value];
      }
    }
    assert vars[..|vars|] == vars;
  }

  /** One iteration of a branching loop: a fresh copy with `v` set to `s`, unless `v` is in the opposite state or `set_state` fails. */
  method TryLiteral(v: int, s: VarState, currentState: ConstraintSet) returns (branch: Option<ConstraintSet>)
    requires s == MustTrue || s == MustFalse
    ensures branch.Some? <==> StateOf(currentState.varStates, v) != Opposite(s) && CanSet(currentState.varStates, v, s)
    ensures branch.Some? ==> fresh(branch.value) && branch.value.varStates == currentState.varStates[v := s]
  {
    branch := None;
    if currentState.GetState(v) != Opposite(s) {
      var newState := currentState.Copy();
      var ok := newState.SetState(v, s);
      if ok {
        branch := Some(newState);
      }
    }
  }

  /** Every state `m` forces (MUST_TRUE or MUST_FALSE) is forced the same way in `m'`. */
  predicate Extends(m: States, m': States)
  {
    forall v :: v in m && (m[v] == MustTrue || m[v] == MustFalse) ==> v in m' && m'[v] == m[v]
  }

  /**
   * Each branch forces exactly one listed variable that was UNKNOWN, and
   * every listed variable that was UNKNOWN gets its branch: at most one
   * branch per literal.
   */
  lemma {:induction false} BranchesShape(vars: seq<int>, m: States, s: VarState)
    requires s == MustTrue || s == MustFalse
    requires forall i :: 0 <= i < |vars| ==> StateOf(m, vars[i]) != s
    ensures |Branches(vars, m, s)| <= |vars|
    ensures forall k :: 0 <= k < |Branches(vars, m, s)| ==>
              exists i :: 0 <= i < |vars| && StateOf(m, vars[i]) == Unknown && Branches(vars, m, s)[k] == m[vars[i] := s]
    ensures forall i :: 0 <= i < |vars| && StateOf(m, vars[i]) == Unknown ==> m[vars[i] := s] in Branches(vars, m, s)
  {
    if vars != [] {
      var init := vars[..|vars| - 1];
      assert forall i :: 0 <= i < |init| ==> init[i] == vars[i];
      BranchesShape(init, m, s);
      var b, bi := Branches(vars, m, s), Branches(init, m, s);
      assert forall k :: 0 <= k < |bi| ==> b[k] == bi[k];
      forall k | 0 <= k < |b|
        ensures exists i :: 0 <= i < |vars| && StateOf(m, vars[i]) == Unknown && b[k] == m[vars[i] := s]
      {
        if k < |bi| {
          var i :| 0 <= i < |init| && StateOf(m, init[i]) == Unknown && bi[k] == m[init[i] := s];
          assert vars[i] == init[i];
        } else {
          assert b[k] == m[vars[|vars| - 1] := s];
        }
      }
    }
  }

  /**
   * Branching on a clause not already satisfied: every result forces one of
   * the clause's variables, that was UNKNOWN, to the value that makes its
   * literal true; every such literal yields one; there is at most one result
   * per literal; and a clause without literals yields none.
   */
  lemma PropagateBranching(c: Clause, m: States)
    requires !AlreadySatisfied(c, m)
    ensures |Propagate(c, m)| <= |c.pos| + |c.neg|
    ensures forall k :: 0 <= k < |Propagate(c, m)| ==>
              || (exists i :: 0 <= i < |c.pos| && StateOf(m, c.pos[i]) == Unknown && Propagate(c, m)[k] == m[c.pos[i] := MustTrue])
              || (exists i :: 0 <= i < |c.neg| && StateOf(m, c.neg[i]) == Unknown && Propagate(c, m)[k] == m[c.neg[i] := MustFalse])
    ensures forall i :: 0 <= i < |c.pos| && StateOf(m, c.pos[i]) == Unknown ==> m[c.pos[i] := MustTrue] in Propagate(c, m)
    ensures forall i :: 0 <= i < |c.neg| && StateOf(m, c.neg[i]) == Unknown ==> m[c.neg[i] := MustFalse] in Propagate(c, m)
  {
    BranchesShape(c.pos, m, MustTrue);
    BranchesShape(c.neg, m, MustFalse);
    var bp, bn := Branches(c.pos, m, MustTrue), Branches(c.neg, m, MustFalse);
    assert Propagate(c, m) == bp + bn;
    forall k | 0 <= k < |bp + bn|
      ensures || (exists i :: 0 <= i < |c.pos| && StateOf(m, c.pos[i]) == Unknown && (bp + bn)[k] == m[c.pos[i] := MustTrue])
              || (exists i :: 0 <= i < |c.neg| && StateOf(m, c.neg[i]) == Unknown && (bp + bn)[k] == m[c.neg[i] := MustFalse])
    {
      if k < |bp| {
        assert (bp + bn)[k] == bp[k];
      } else {
        assert (bp + bn)[k] == bn[k - |bp|];
      }
    }
  }

  /**
   * Every set `propagate_clause` returns for a conflict-free set is conflict-free,
   * keeps every value already forced, and satisfies the clause by a forced value.
   */
  lemma PropagateSound(c: Clause, m: States)
    requires Consistent(m)
    ensures forall m' :: m' in Propagate(c, m) ==> Consistent(m') && Extends(m, m') && AlreadySatisfied(c, m')
  {
    if !AlreadySatisfied(c, m) {
      PropagateBranching(c, m);
      forall m' | m' in Propagate(c, m)
        ensures Consistent(m') && Extends(m, m') && AlreadySatisfied(c, m')
      {
        var k :| 0 <= k < |Propagate(c, m)| && Propagate(c, m)[k] == m';
        if i :| 0 <= i < |c.pos| && StateOf(m, c.pos[i]) == Unknown && m' == m[c.pos[i] := MustTrue] {
          assert StateOf(m', c.pos[i]) == MustTrue;
        } else {
          var i :| 0 <= i < |c.neg| && StateOf(m, c.neg[i]) == Unknown && m' == m[c.neg[i] := MustFalse];
          assert StateOf(m', c.neg[i]) == MustFalse;
        }
      }
    }
  }

  /** A total assignment agrees with every value `m` forces, and `m` has no CONFLICT. */
  predicate Compatible(m: States, a: map<int, bool>)
  {
    forall v :: v in m ==>
      && m[v] != Conflict
      && (m[v] == MustTrue ==> v in a && a[v])
      && (m[v] == MustFalse ==> v in a && !a[v])
  }

  /**
   * No satisfying assignment is lost: if `a` agrees with `m` and satisfies the
   * clause, one of the sets `propagate_clause` returns still agrees with `a`.
   */
  lemma PropagateComplete(c: Clause, m: States, a: map<int, bool>)
    requires Compatible(m, a)
    requires ClauseSatisfiedBy(c, a)
    ensures exists m' :: m' in Propagate(c, m) && Compatible(m', a)
  {
    if AlreadySatisfied(c, m) {
      assert m in Propagate(c, m);
    } else {
      PropagateBranching(c, m);
      if i :| 0 <= i < |c.pos| && c.pos[i] in a && a[c.pos[i]] {
        var v := c.pos[i];
        assert StateOf(m, v) == Unknown;
        assert m[v := MustTrue] in Propagate(c, m);
        CompatibleForced(m, a, v, MustTrue);
      } else {
        var i :| 0 <= i < |c.neg| && c.neg[i] in a && !a[c.neg[i]];
        var v := c.neg[i];
        assert StateOf(m, v) == Unknown;
        assert m[v := MustFalse] in Propagate(c, m);
        CompatibleForced(m, a, v, MustFalse);
      }
    }
  }

  /** Forcing a variable to the value an agreeing assignment gives it keeps the two in agreement. */
  lemma CompatibleForced(m: States, a: map<int, bool>, v: int, s: VarState)
    requires Compatible(m, a)
    requires v in a
    requires (s == MustTrue && a[v]) || (s == MustFalse && !a[v])
    ensures Compatible(m[v := s], a)
  {
  }
}

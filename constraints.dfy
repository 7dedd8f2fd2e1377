/**
 * Partial assignments: `VarState` and the `ConstraintSet` class, whose
 * `set_state` is the single place where a conflict is detected. The
 * functions over plain maps describe a constraint set's contents; the search
 * is specified with them.
 */
module Constraints {
  import opened Wrappers
  import opened Sorting

  datatype VarState = Unknown | MustTrue | MustFalse | Conflict

  /** The contents of a constraint set: `var_states`. */
  type States = map<int, VarState>

  /** The state of `v`; a variable without an entry is UNKNOWN. */
  function StateOf(m: States, v: int): VarState
  {
    if v in m then m[v] else Unknown
  }

  /** `set_state(v, s)` succeeds: the variable is UNKNOWN (or absent) or already in state `s`. */
  predicate CanSet(m: States, v: int, s: VarState)
  {
    StateOf(m, v) == s || StateOf(m, v) == Unknown
  }

  /** No entry is CONFLICT. */
  predicate Consistent(m: States)
  {
    forall v :: v in m ==> m[v] != Conflict
  }

  /** `to_assignment` on a set with contents `m`. */
  function Finalize(m: States): (r: Option<map<int, bool>>)
    ensures r.None? <==> !Consistent(m)
    ensures r.Some? ==> r.value.Keys == m.Keys
    ensures r.Some? ==> forall v :: v in m && m[v] == MustTrue ==> r.value[v]
    ensures r.Some? ==> forall v :: v in m && m[v] == MustFalse ==> !r.value[v]
    ensures r.Some? ==> forall v :: v in m && m[v] == Unknown ==> r.value[v]
  {
    if Consistent(m) then Some(map v | v in m :: m[v] != MustFalse) else None
  }

  class ConstraintSet {
    var varStates: States

    /** A set with no entries: every variable UNKNOWN. */
    constructor ()
      ensures varStates == map[]
    {
      varStates := map[];
    }

    /** `copy`: a new, independent set with the same entries. */
    method Copy() returns (c: ConstraintSet)
      ensures fresh(c)
      ensures c.varStates == varStates
    {
      c := new ConstraintSet();
      c.varStates := varStates;
    }

    /** `get_state`: a variable without an entry reads as UNKNOWN. */
    function GetState(v: int): (s: VarState)
      reads this
      ensures v in varStates ==> s == varStates[v]
      ensures v !in varStates ==> s == Unknown
    {
      StateOf(varStates, v)
    }

    /**
     * `set_state`: stores `s` and succeeds when `v` is UNKNOWN or already `s`;
     * otherwise stores CONFLICT and fails. No other entry changes.
     */
    method SetState(v: int, s: VarState) returns (ok: bool)
      modifies this
      ensures ok <==> CanSet(old(varStates), v, s)
      ensures varStates == old(varStates)[v := if ok then s else Conflict]
      ensures forall w :: w != v ==> StateOf(varStates, w) == StateOf(old(varStates), w)
    {
      var current := GetState(v);
      if current == s || current == Unknown {
        varStates := varStates[v := s];
        return true;
      }
      varStates := varStates[v := Conflict];
      return false;
    }

    /**
     * `to_assignment`: no assignment if some entry is CONFLICT; otherwise one
     * boolean per entry, MUST_FALSE read as false and MUST_TRUE and UNKNOWN as true.
     */
    method ToAssignment() returns (r: Option<map<int, bool>>)
      ensures r == Finalize(varStates)
    {
      var states := varStates;
      var keys := Sorted(states.Keys);
      var result: map<int, bool> := map[];
      for i := 0 to |keys|
        invariant forall v :: v in result <==> v in keys[..i]
        invariant forall v :: v in result ==> states[v] != Conflict && result[v] == (states[v] != MustFalse)
      {
        var v := keys[i];
        var state := states[v];
        if state == Conflict {
          assert !Consistent(states);
          return None;
        } else if state == MustTrue {
          result := result[v := true];
        } else if state == MustFalse {
          result := result[v := false];
        } else {
          result := result[v := true];
        }
      }
      assert keys[..|keys|] == keys;
      assert Consistent(states);
      forall v ensures v in result <==> v in states {
        assert v in keys[..|keys|] <==> v in keys;
      }
      var expected := map v | v in states :: states[v] != MustFalse;
      assert result.Keys == expected.Keys;
      forall v | v in result ensures result[v] == expected[v] {
      }
      assert result == expected;
      r := Some(result);
    }
  }

  /** The contents of each set of a frontier, in order. */
  ghost function StatesOf(sets: seq<ConstraintSet>): (r: seq<States>)
    reads sets
    ensures |r| == |sets|
    ensures forall i :: 0 <= i < |sets| ==> r[i] == sets[i].varStates
  {
    seq(|sets|, i reads sets requires 0 <= i < |sets| => sets[i].varStates)
  }

  lemma StatesOfConcat(a: seq<ConstraintSet>, b: seq<ConstraintSet>)
    ensures StatesOf(a + b) == StatesOf(a) + StatesOf(b)
  {
  }
}

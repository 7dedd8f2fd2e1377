/**
 * The clause form of a formula and `gate_to_cnf_clauses`, which reads an
 * AND-of-ORs circuit into it.
 */
module Cnf {
  import opened Wrappers
  import opened Gates

  /** A clause: the variables asserted positive and those asserted negative (the source's tuple). */
  datatype Clause = Clause(pos: seq<int>, neg: seq<int>)

  /** Why a circuit is not in CNF shape (the `ValueError`s of `gate_to_cnf_clauses`). */
  datatype CnfError = TopLevelNotAnd | SecondLevelNotOr | NegationOfNonInput | InvalidLiteral

  /** Some literal of `c` is made true by `a` (a positive one assigned true or a negative one assigned false). */
  predicate ClauseSatisfiedBy(c: Clause, a: map<int, bool>)
  {
    || (exists i :: 0 <= i < |c.pos| && c.pos[i] in a && a[c.pos[i]])
    || (exists i :: 0 <= i < |c.neg| && c.neg[i] in a && !a[c.neg[i]])
  }

  /** `a` satisfies every clause of the formula. */
  predicate Satisfies(a: map<int, bool>, clauses: seq<Clause>)
  {
    forall j :: 0 <= j < |clauses| ==> ClauseSatisfiedBy(clauses[j], a)
  }

  /** A literal of a CNF clause: an INPUT, or a NOT applied directly to an INPUT. */
  predicate IsLiteral(l: Gate)
  {
    l.Input? || (l.Not? && l.arg.Input?)
  }

  /** The two-level AND-of-ORs-of-literals shape. */
  predicate IsCnfShape(g: Gate)
  {
    && g.And?
    && forall i :: 0 <= i < |g.inputs| ==>
         && g.inputs[i].Or?
         && forall j :: 0 <= j < |g.inputs[i].inputs| ==> IsLiteral(g.inputs[i].inputs[j])
  }

  /** The clause read from the literals `ls` of one OR gate, or the first literal error. */
  function ExtractClause(ls: seq<Gate>): Result<Clause, CnfError>
  {
    if ls == [] then Ok(Clause([], []))
    else
      match ExtractClause(ls[..|ls| - 1])
      case Err(e) => Err(e)
      case Ok(c) =>
        match ls[|ls| - 1]
        case Input(v) => Ok(Clause(c.pos + [v], c.neg))
        case Not(a) => if a.Input? then Ok(Clause(c.pos, c.neg + [a.index])) else Err(NegationOfNonInput)
        case _ => Err(InvalidLiteral)
  }

  /** The clauses read from the children `cs` of the top AND gate, or the first error met. */
  function ExtractClauses(cs: seq<Gate>): Result<seq<Clause>, CnfError>
  {
    if cs == [] then Ok([])
    else
      match ExtractClauses(cs[..|cs| - 1])
      case Err(e) => Err(e)
      case Ok(clauses) =>
        var last := cs[|cs| - 1];
        if !last.Or? then Err(SecondLevelNotOr)
        else
          match ExtractClause(last.inputs)
          case Err(e) => Err(e)
          case Ok(c) => Ok(clauses + [c])
  }

  /** What `gate_to_cnf_clauses` returns or raises for `g`. */
  function ToCnf(g: Gate): Result<seq<Clause>, CnfError>
  {
    if !g.And? then Err(TopLevelNotAnd) else ExtractClauses(g.inputs)
  }

  /** `gate_to_cnf_clauses`: one pass over the clauses and, inside it, over each clause's literals. */
  method GateToCnfClauses(circuit: Gate) returns (r: Result<seq<Clause>, CnfError>)
    ensures r == ToCnf(circuit)
  {
    if !circuit.And? {
      return Err(TopLevelNotAnd);
    }
    var cs := circuit.inputs;
    var clauses: seq<Clause> := [];
    for i := 0 to |cs|
      invariant ExtractClauses(cs[..i]) == Ok(clauses)
    {
      assert cs[..i + 1][..i] == cs[..i];
      var clause := cs[i];
      if !clause.Or? {
        ClausesErrorPersists(cs, i + 1);
        return Err(SecondLevelNotOr);
      }
      var ls := clause.inputs;
      var positives: seq<int> := [];
      var negatives: seq<int> := [];
      for j := 0 to |ls|
        invariant ExtractClause(ls[..j]) == Ok(Clause(positives, negatives))
      {
        assert ls[..j + 1][..j] == ls[..j];
        var literal := ls[j];
        if literal.Input? {
          positives := positives + [literal.index];
        } else if literal.Not? {
          if !literal.arg.Input? {
            ClauseErrorPersists(ls, j + 1);
            ClausesErrorPersists(cs, i + 1);
            return Err(NegationOfNonInput);
          }
          negatives := negatives + [literal.arg.index];
        } else {
          ClauseErrorPersists(ls, j + 1);
          ClausesErrorPersists(cs, i + 1);
          return Err(InvalidLiteral);
        }
      }
      assert ls[..|ls|] == ls;
      clauses := clauses + [Clause(positives, negatives)];
    }
    assert cs[..|cs|] == cs;
    r := Ok(clauses);
  }

  lemma {:induction false} ExtractClauseShape(ls: seq<Gate>)
    ensures ExtractClause(ls).Ok? <==> forall j :: 0 <= j < |ls| ==> IsLiteral(ls[j])
    ensures ExtractClause(ls).Ok? ==> |ExtractClause(ls).value.pos| + |ExtractClause(ls).value.neg| == |ls|
    ensures ExtractClause(ls) == Err(NegationOfNonInput) ==>
              exists j :: 0 <= j < |ls| && ls[j].Not? && !ls[j].arg.Input?
    ensures ExtractClause(ls) == Err(InvalidLiteral) ==>
              exists j :: 0 <= j < |ls| && !ls[j].Input? && !ls[j].Not?
    ensures ExtractClause(ls).Err? ==> ExtractClause(ls).error in {NegationOfNonInput, InvalidLiteral}
  {
    if ls != [] {
      var init := ls[..|ls| - 1];
      ExtractClauseShape(init);
      assert forall j :: 0 <= j < |init| ==> init[j] == ls[j];
    }
  }

  lemma {:induction false} ExtractClausesShape(cs: seq<Gate>)
    ensures ExtractClauses(cs).Ok? <==> IsCnfShape(And(cs))
    ensures ExtractClauses(cs).Ok? ==> |ExtractClauses(cs).value| == |cs|
    ensures ExtractClauses(cs) == Err(SecondLevelNotOr) ==> exists i :: 0 <= i < |cs| && !cs[i].Or?
    ensures ExtractClauses(cs) == Err(NegationOfNonInput) ==>
              exists i, j :: 0 <= i < |cs| && cs[i].Or? && 0 <= j < |cs[i].inputs|
                             && cs[i].inputs[j].Not? && !cs[i].inputs[j].arg.Input?
    ensures ExtractClauses(cs) == Err(InvalidLiteral) ==>
              exists i, j :: 0 <= i < |cs| && cs[i].Or? && 0 <= j < |cs[i].inputs|
                             && !cs[i].inputs[j].Input? && !cs[i].inputs[j].Not?
    ensures ExtractClauses(cs) != Err(TopLevelNotAnd)
  {
    if cs != [] {
      var init := cs[..|cs| - 1];
      ExtractClausesShape(init);
      assert forall i :: 0 <= i < |init| ==> init[i] == cs[i];
      var last := cs[|cs| - 1];
      if last.Or? {
        ExtractClauseShape(last.inputs);
      }
    }
  }

  /**
   * `gate_to_cnf_clauses` succeeds exactly on AND-of-ORs-of-literals circuits,
   * yields one clause per OR gate with one entry per literal, and otherwise
   * raises an error naming a rule the circuit does break.
   */
  lemma ToCnfShape(g: Gate)
    ensures ToCnf(g).Ok? <==> IsCnfShape(g)
    ensures ToCnf(g).Ok? ==>
              && |ToCnf(g).value| == |g.inputs|
              && forall i :: 0 <= i < |g.inputs| ==>
                   |ToCnf(g).value[i].pos| + |ToCnf(g).value[i].neg| == |g.inputs[i].inputs|
    ensures ToCnf(g) == Err(TopLevelNotAnd) <==> !g.And?
    ensures ToCnf(g) == Err(SecondLevelNotOr) ==> g.And? && exists i :: 0 <= i < |g.inputs| && !g.inputs[i].Or?
    ensures ToCnf(g) == Err(NegationOfNonInput) ==>
              exists i, j :: 0 <= i < |g.inputs| && g.inputs[i].Or? && 0 <= j < |g.inputs[i].inputs|
                             && g.inputs[i].inputs[j].Not? && !g.inputs[i].inputs[j].arg.Input?
    ensures ToCnf(g) == Err(InvalidLiteral) ==>
              exists i, j :: 0 <= i < |g.inputs| && g.inputs[i].Or? && 0 <= j < |g.inputs[i].inputs|
                             && !g.inputs[i].inputs[j].Input? && !g.inputs[i].inputs[j].Not?
  {
    if g.And? {
      ExtractClausesShape(g.inputs);
      if ToCnf(g).Ok? {
        ClauseLengths(g.inputs);
      }
    }
  }

  lemma {:induction false} ClauseLengths(cs: seq<Gate>)
    requires ExtractClauses(cs).Ok?
    ensures |ExtractClauses(cs).value| == |cs|
    ensures forall i :: 0 <= i < |cs| ==> cs[i].Or? && ExtractClause(cs[i].inputs) == Ok(ExtractClauses(cs).value[i])
    ensures forall i :: 0 <= i < |cs| ==>
              |ExtractClauses(cs).value[i].pos| + |ExtractClauses(cs).value[i].neg| == |cs[i].inputs|
  {
    if cs != [] {
      var init := cs[..|cs| - 1];
      ClauseLengths(init);
      assert forall i :: 0 <= i < |init| ==> init[i] == cs[i];
      ExtractClauseShape(cs[|cs| - 1].inputs);
    }
    forall i | 0 <= i < |cs| ensures |ExtractClauses(cs).value[i].pos| + |ExtractClauses(cs).value[i].neg| == |cs[i].inputs| {
      ExtractClauseShape(cs[i].inputs);
    }
  }

  /** The first literal error met in a prefix of the literals is the error of the whole clause. */
  lemma {:induction false} ClauseErrorPersists(ls: seq<Gate>, k: nat)
    requires k <= |ls|
    requires ExtractClause(ls[..k]).Err?
    ensures ExtractClause(ls) == ExtractClause(ls[..k])
    decreases |ls| - k
  {
    if k < |ls| {
      assert ls[..k + 1][..k] == ls[..k];
      ClauseErrorPersists(ls, k + 1);
    } else {
      assert ls[..k] == ls;
    }
  }

  /** The first error met in a prefix of the clauses is the error of the whole circuit. */
  lemma {:induction false} ClausesErrorPersists(cs: seq<Gate>, k: nat)
    requires k <= |cs|
    requires ExtractClauses(cs[..k]).Err?
    ensures ExtractClauses(cs) == ExtractClauses(cs[..k])
    decreases |cs| - k
  {
    if k < |cs| {
      assert cs[..k + 1][..k] == cs[..k];
      ClausesErrorPersists(cs, k + 1);
    } else {
      assert cs[..k] == cs;
    }
  }

  lemma ClauseWithPositive(c: Clause, v: int, a: map<int, bool>)
    ensures ClauseSatisfiedBy(Clause(c.pos + [v], c.neg), a) <==> ClauseSatisfiedBy(c, a) || (v in a && a[v])
  {
    var pos := c.pos + [v];
    assert forall i :: 0 <= i < |c.pos| ==> pos[i] == c.pos[i];
    assert pos[|c.pos|] == v;
  }

  lemma ClauseWithNegative(c: Clause, v: int, a: map<int, bool>)
    ensures ClauseSatisfiedBy(Clause(c.pos, c.neg + [v]), a) <==> ClauseSatisfiedBy(c, a) || (v in a && !a[v])
  {
    var neg := c.neg + [v];
    assert forall i :: 0 <= i < |c.neg| ==> neg[i] == c.neg[i];
    assert neg[|c.neg|] == v;
  }

  /** The clause read from an OR gate's literals is satisfied exactly when one of the literals evaluates to true. */
  lemma {:induction false} ExtractClauseMeaning(ls: seq<Gate>, values: map<int, bool>)
    requires ExtractClause(ls).Ok?
    requires forall j :: 0 <= j < |ls| ==> InputVars(ls[j]) <= values.Keys
    ensures forall j :: 0 <= j < |ls| ==> Evaluate(ls[j], values).Ok?
    ensures ClauseSatisfiedBy(ExtractClause(ls).value, values)
        <==> exists j :: 0 <= j < |ls| && Evaluate(ls[j], values).value
  {
    if ls != [] {
      var init := ls[..|ls| - 1];
      assert forall j :: 0 <= j < |init| ==> init[j] == ls[j];
      ExtractClauseMeaning(init, values);
      ExtractClauseLast(ls, values);
      SomeTrueSnoc(ls, init, values);
    }
  }

  /** Some literal of an OR evaluates to true iff one of all but the last does or the last does. */
  lemma SomeTrueSnoc(ls: seq<Gate>, init: seq<Gate>, values: map<int, bool>)
    requires ls != [] && init == ls[..|ls| - 1]
    requires forall j :: 0 <= j < |init| ==> Evaluate(init[j], values).Ok?
    requires Evaluate(ls[|ls| - 1], values).Ok?
    ensures forall j :: 0 <= j < |ls| ==> Evaluate(ls[j], values).Ok?
    ensures (exists j :: 0 <= j < |ls| && Evaluate(ls[j], values).value)
        <==> (exists j :: 0 <= j < |init| && Evaluate(init[j], values).value) || Evaluate(ls[|ls| - 1], values).value
  {
    forall j | 0 <= j < |ls| ensures Evaluate(ls[j], values).Ok? {
      if j < |init| { assert init[j] == ls[j]; }
    }
    if (exists j :: 0 <= j < |ls| && Evaluate(ls[j], values).value) {
      var j :| 0 <= j < |ls| && Evaluate(ls[j], values).value;
      if j < |init| {
        assert Evaluate(init[j], values).value;
      }
    }
    if (exists j :: 0 <= j < |init| && Evaluate(init[j], values).value) {
      var j :| 0 <= j < |init| && Evaluate(init[j], values).value;
      assert init[j] == ls[j];
    }
  }

  /** The last literal of an OR adds exactly its own value as one more way to satisfy the clause read so far. */
  lemma ExtractClauseLast(ls: seq<Gate>, values: map<int, bool>)
    requires ls != [] && ExtractClause(ls).Ok?
    requires InputVars(ls[|ls| - 1]) <= values.Keys
    ensures ExtractClause(ls[..|ls| - 1]).Ok?
    ensures Evaluate(ls[|ls| - 1], values).Ok?
    ensures ClauseSatisfiedBy(ExtractClause(ls).value, values)
        <==> ClauseSatisfiedBy(ExtractClause(ls[..|ls| - 1]).value, values) || Evaluate(ls[|ls| - 1], values).value
  {
    var c := ExtractClause(ls[..|ls| - 1]).value;
    var last := ls[|ls| - 1];
    match last {
      case Input(v) =>
        assert v in InputVars(last);
        ClauseWithPositive(c, v, values);
      case Not(a) =>
        ChildVars(last, 0);
        assert a.index in InputVars(a);
        ClauseWithNegative(c, a.index, values);
    }
  }

  /**
   * Reading a circuit into clauses keeps its meaning: under any assignment of
   * all its inputs, the circuit evaluates to true exactly when the clauses are
   * all satisfied.
   */
  lemma ToCnfMeaning(g: Gate, values: map<int, bool>)
    requires ToCnf(g).Ok?
    requires InputVars(g) <= values.Keys
    ensures Evaluate(g, values) == Ok(Satisfies(values, ToCnf(g).value))
  {
    var cs, clauses := g.inputs, ToCnf(g).value;
    ClauseLengths(cs);
    forall i | 0 <= i < |cs|
      ensures Evaluate(cs[i], values) == Ok(ClauseSatisfiedBy(clauses[i], values))
    {
      var ls := cs[i].inputs;
      ChildVars(g, i);
      forall j | 0 <= j < |ls| ensures InputVars(ls[j]) <= values.Keys {
        ChildVars(cs[i], j);
      }
      ExtractClauseMeaning(ls, values);
      EvaluateOr(ls, values);
    }
    EvaluateAnd(cs, values);
  }
}

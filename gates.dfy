/**
 * The gate tree that every script of the repository shares (the `Gate` class),
 * its semantics (`Gate.evaluate`) and the collection of its input variables
 * (`collect_circuit_variables` / `get_input_variables`).
 */
module Gates {
  import opened Wrappers

  /**
   * A gate. `Unknown` stands for a gate whose `gate_type` string is none of
   * INPUT, NOT, AND, OR; it keeps its children because the variable
   * collector still walks into them.
   */
  datatype Gate =
    | Input(index: int)
    | Not(arg: Gate)
    | And(inputs: seq<Gate>)
    | Or(inputs: seq<Gate>)
    | Unknown(kind: string, inputs: seq<Gate>)

  /** What `evaluate` raises: a `KeyError` for an unassigned input, a `ValueError` for an unknown gate. */
  datatype EvalError = MissingInput(index: int) | UnknownGateType(kind: string)

  /** The gates listed in a gate's `inputs`, in order. */
  function Children(g: Gate): seq<Gate>
  {
    match g
    case Input(_) => []
    case Not(a) => [a]
    case And(cs) => cs
    case Or(cs) => cs
    case Unknown(_, cs) => cs
  }

  /** The indices of all INPUT nodes anywhere in the tree. */
  function InputVars(g: Gate): set<int>
    decreases g, 1
  {
    (if g.Input? then {g.index} else {}) + VarsBelow(g, |Children(g)|)
  }

  /** The input variables of the first `n` children of `g`. */
  function VarsBelow(g: Gate, n: nat): set<int>
    requires n <= |Children(g)|
    decreases g, 0, n
  {
    if n == 0 then {} else VarsBelow(g, n - 1) + InputVars(Children(g)[n - 1])
  }

  /** No node of the tree has an unknown gate type. */
  predicate KnownGates(g: Gate)
    decreases g
  {
    !g.Unknown? && forall i :: 0 <= i < |Children(g)| ==> KnownGates(Children(g)[i])
  }

  /** `Gate.evaluate`: the value of the circuit under `values`, or what it raises. */
  function Evaluate(g: Gate, values: map<int, bool>): Result<bool, EvalError>
    decreases g, 1
  {
    match g
    case Input(i) => if i in values then Ok(values[i]) else Err(MissingInput(i))
    case Not(a) =>
      (match Evaluate(a, values)
       case Ok(b) => Ok(!b)
       case Err(e) => Err(e))
    case And(_) => EvaluateFrom(g, values, 0, false)
    case Or(_) => EvaluateFrom(g, values, 0, true)
    case Unknown(k, _) => Err(UnknownGateType(k))
  }

  /**
   * Python's `all` (decisive == false) and `any` (decisive == true) over the
   * children from position `i` on: the first child whose value is `decisive`
   * ends the scan, so later children are never evaluated.
   */
  function EvaluateFrom(g: Gate, values: map<int, bool>, i: nat, decisive: bool): Result<bool, EvalError>
    requires g.And? || g.Or?
    requires i <= |g.inputs|
    decreases g, 0, |g.inputs| - i
  {
    if i == |g.inputs| then Ok(!decisive)
    else
      match Evaluate(g.inputs[i], values)
      case Err(e) => Err(e)
      case Ok(b) => if b == decisive then Ok(decisive) else EvaluateFrom(g, values, i + 1, decisive)
  }

  /** The recursive `gather_vars` helper: adds the input variables of `g` to `acc`. */
  method Gather(g: Gate, acc: set<int>) returns (vars: set<int>)
    ensures vars == acc + InputVars(g)
    decreases g
  {
    vars := acc;
    if g.Input? {
      vars := vars + {g.index};
    }
    var children := Children(g);
    for i := 0 to |children|
      invariant vars == acc + (if g.Input? then {g.index} else {}) + VarsBelow(g, i)
    {
      vars := Gather(children[i], vars);
    }
  }

  /** `collect_circuit_variables` / `get_input_variables`. */
  method CollectVariables(g: Gate) returns (vars: set<int>)
    ensures vars == InputVars(g)
  {
    vars := Gather(g, {});
  }

  lemma {:induction false} VarsBelowContains(g: Gate, n: nat, i: nat)
    requires i < n <= |Children(g)|
    ensures InputVars(Children(g)[i]) <= VarsBelow(g, n)
    decreases n
  {
    if i < n - 1 {
      VarsBelowContains(g, n - 1, i);
    }
  }

  /** Every input variable of a child is an input variable of its parent. */
  lemma ChildVars(g: Gate, i: nat)
    requires i < |Children(g)|
    ensures InputVars(Children(g)[i]) <= InputVars(g)
  {
    VarsBelowContains(g, |Children(g)|, i);
  }

  /** `all`/`any` over children that all evaluate without raising. */
  lemma {:induction false} EvaluateFromAllOk(g: Gate, values: map<int, bool>, i: nat, decisive: bool)
    requires g.And? || g.Or?
    requires i <= |g.inputs|
    requires forall j :: i <= j < |g.inputs| ==> Evaluate(g.inputs[j], values).Ok?
    ensures EvaluateFrom(g, values, i, decisive)
         == Ok(if exists j :: i <= j < |g.inputs| && Evaluate(g.inputs[j], values).value == decisive
               then decisive else !decisive)
    decreases |g.inputs| - i
  {
    if i < |g.inputs| {
      EvaluateFromAllOk(g, values, i + 1, decisive);
    }
  }

  /** AND is true iff every child is true (so an empty AND is true). */
  lemma EvaluateAnd(cs: seq<Gate>, values: map<int, bool>)
    requires forall j :: 0 <= j < |cs| ==> Evaluate(cs[j], values).Ok?
    ensures Evaluate(And(cs), values) == Ok(forall j :: 0 <= j < |cs| ==> Evaluate(cs[j], values).value)
  {
    EvaluateFromAllOk(And(cs), values, 0, false);
  }

  /** OR is true iff some child is true (so an empty OR is false). */
  lemma EvaluateOr(cs: seq<Gate>, values: map<int, bool>)
    requires forall j :: 0 <= j < |cs| ==> Evaluate(cs[j], values).Ok?
    ensures Evaluate(Or(cs), values) == Ok(exists j :: 0 <= j < |cs| && Evaluate(cs[j], values).value)
  {
    EvaluateFromAllOk(Or(cs), values, 0, true);
  }

  /** A circuit of known gates whose inputs are all assigned evaluates without raising. */
  lemma {:induction false} EvaluateTotal(g: Gate, values: map<int, bool>)
    requires KnownGates(g)
    requires InputVars(g) <= values.Keys
    ensures Evaluate(g, values).Ok?
    decreases g, 1
  {
    match g
    case Input(_) =>
    case Not(a) =>
      ChildVars(g, 0);
      EvaluateTotal(a, values);
    case And(cs) =>
      ChildrenTotal(g, values);
      EvaluateFromAllOk(g, values, 0, false);
    case Or(cs) =>
      ChildrenTotal(g, values);
      EvaluateFromAllOk(g, values, 0, true);
  }

  lemma {:induction false} ChildrenTotal(g: Gate, values: map<int, bool>)
    requires g.And? || g.Or?
    requires KnownGates(g)
    requires InputVars(g) <= values.Keys
    ensures forall j :: 0 <= j < |g.inputs| ==> Evaluate(g.inputs[j], values).Ok?
    decreases g, 0
  {
    forall j | 0 <= j < |g.inputs|
      ensures Evaluate(g.inputs[j], values).Ok?
    {
      ChildVars(g, j);
      EvaluateTotal(g.inputs[j], values);
    }
  }

  /** The two maps agree on whether, and how, they assign each variable of `vs`. */
  ghost predicate AgreeOn(vs: set<int>, v1: map<int, bool>, v2: map<int, bool>)
  {
    forall i :: i in vs ==> (i in v1 <==> i in v2) && (i in v1 ==> v1[i] == v2[i])
  }

  /** Only the circuit's own input variables affect what `evaluate` returns or raises. */
  lemma {:induction false} EvaluateLocal(g: Gate, v1: map<int, bool>, v2: map<int, bool>)
    requires AgreeOn(InputVars(g), v1, v2)
    ensures Evaluate(g, v1) == Evaluate(g, v2)
    decreases g, 1
  {
    match g
    case Input(_) =>
    case Not(a) =>
      ChildVars(g, 0);
      EvaluateLocal(a, v1, v2);
    case And(_) =>
      EvaluateFromLocal(g, v1, v2, 0, false);
    case Or(_) =>
      EvaluateFromLocal(g, v1, v2, 0, true);
    case Unknown(_, _) =>
  }

  lemma {:induction false} EvaluateFromLocal(g: Gate, v1: map<int, bool>, v2: map<int, bool>, i: nat, decisive: bool)
    requires g.And? || g.Or?
    requires i <= |g.inputs|
    requires AgreeOn(InputVars(g), v1, v2)
    ensures EvaluateFrom(g, v1, i, decisive) == EvaluateFrom(g, v2, i, decisive)
    decreases g, 0, |g.inputs| - i
  {
    if i < |g.inputs| {
      ChildVars(g, i);
      EvaluateLocal(g.inputs[i], v1, v2);
      EvaluateFromLocal(g, v1, v2, i + 1, decisive);
    }
  }

  /** Whether `evaluate` raised for a missing input of the circuit or for a gate of unknown type. */
  ghost predicate ErrorHasCause(g: Gate, values: map<int, bool>, e: EvalError)
  {
    match e
    case MissingInput(i) => i in InputVars(g) && i !in values
    case UnknownGateType(_) => !KnownGates(g)
  }

  /**
   * What `evaluate` raises names its cause: a `KeyError` only for an input
   * of the circuit that `values` lacks, a `ValueError` only when some gate
   * of the tree has an unknown type.
   */
  lemma {:induction false} EvaluateErrorCause(g: Gate, values: map<int, bool>)
    ensures Evaluate(g, values).Err? ==> ErrorHasCause(g, values, Evaluate(g, values).error)
    decreases g, 1
  {
    match g
    case Input(_) =>
    case Not(a) =>
      ChildVars(g, 0);
      EvaluateErrorCause(a, values);
    case And(_) =>
      EvaluateFromErrorCause(g, values, 0, false);
    case Or(_) =>
      EvaluateFromErrorCause(g, values, 0, true);
    case Unknown(_, _) =>
  }

  lemma {:induction false} EvaluateFromErrorCause(g: Gate, values: map<int, bool>, i: nat, decisive: bool)
    requires g.And? || g.Or?
    requires i <= |g.inputs|
    ensures EvaluateFrom(g, values, i, decisive).Err? ==> ErrorHasCause(g, values, EvaluateFrom(g, values, i, decisive).error)
    decreases g, 0, |g.inputs| - i
  {
    if i < |g.inputs| {
      ChildVars(g, i);
      EvaluateErrorCause(g.inputs[i], values);
      EvaluateFromErrorCause(g, values, i + 1, decisive);
    }
  }
}

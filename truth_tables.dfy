/**
 * The truth-table script: every assignment of a circuit's input variables,
 * enumerated in `itertools.product([False, True], repeat=n)` order over the
 * sorted variables, with the circuit's value on each; and the filter that
 * keeps only the satisfying rows.
 */
module TruthTables {
  import opened Wrappers
  import opened Sorting
  import opened Gates

  /** One row of the table: the assignment of the input variables and the circuit's value under it. */
  datatype Row = Row(inputs: map<int, bool>, output: bool)

  function Pow2(n: nat): nat
  {
    if n == 0 then 1 else 2 * Pow2(n - 1)
  }

  /** `product([False, True], repeat=n)`: the first position varies slowest, False before True. */
  function Product(n: nat): seq<seq<bool>>
  {
    if n == 0 then [[]]
    else
      var p := Product(n - 1);
      seq(|p|, i requires 0 <= i < |p| => [false] + p[i]) + seq(|p|, i requires 0 <= i < |p| => [true] + p[i])
  }

  /** `x` comes before `y` in lexicographic order with False below True. */
  ghost predicate LexLess(x: seq<bool>, y: seq<bool>)
  {
    exists k :: 0 <= k < |x| && k < |y| && x[..k] == y[..k] && !x[k] && y[k]
  }

  /** `dict(zip(keys, values))`: pairs up to the shorter length, a later key overriding an earlier one. */
  function Zip(keys: seq<int>, values: seq<bool>): map<int, bool>
  {
    if |keys| == 0 || |values| == 0 then map[]
    else if |keys| <= |values| then Zip(keys[..|keys| - 1], values[..|keys| - 1])[keys[|keys| - 1] := values[|keys| - 1]]
    else Zip(keys[..|values| - 1], values[..|values| - 1])[keys[|values| - 1] := values[|values| - 1]]
  }

  /**
   * `a` comes before `b` in the table's order: at the smallest variable on
   * which they differ, `a` holds False and `b` holds True.
   */
  ghost predicate InputsLess(a: map<int, bool>, b: map<int, bool>)
  {
    exists v :: v in a && v in b && !a[v] && b[v] && forall u :: u in a && u < v ==> u in b && a[u] == b[u]
  }

  lemma {:induction false} ProductShape(n: nat)
    ensures |Product(n)| == Pow2(n)
    ensures forall i :: 0 <= i < |Product(n)| ==> |Product(n)[i]| == n
  {
    if n > 0 {
      ProductShape(n - 1);
    }
  }

  lemma LexLessCons(b: bool, x: seq<bool>, y: seq<bool>)
    requires LexLess(x, y)
    ensures LexLess([b] + x, [b] + y)
  {
    var k :| 0 <= k < |x| && k < |y| && x[..k] == y[..k] && !x[k] && y[k];
    assert ([b] + x)[..k + 1] == [b] + x[..k];
    assert ([b] + y)[..k + 1] == [b] + y[..k];
    assert ([b] + x)[k + 1] == x[k] && ([b] + y)[k + 1] == y[k];
  }

  /** The rows of `product` come in strictly increasing lexicographic order, so they are pairwise distinct. */
  lemma {:induction false} ProductOrdered(n: nat)
    ensures forall i, j :: 0 <= i < j < |Product(n)| ==> LexLess(Product(n)[i], Product(n)[j])
  {
    if n > 0 {
      var p := Product(n - 1);
      ProductOrdered(n - 1);
      ProductShape(n - 1);
      var r := Product(n);
      forall i, j | 0 <= i < j < |r| ensures LexLess(r[i], r[j]) {
        if j < |p| {
          LexLessCons(false, p[i], p[j]);
        } else if i < |p| {
          assert r[i][..0] == r[j][..0];
          assert !r[i][0] && r[j][0];
        } else {
          LexLessCons(true, p[i - |p|], p[j - |p|]);
        }
      }
    }
  }

  /** Every sequence of `n` booleans is a row of `product`. */
  lemma {:induction false} ProductComplete(n: nat, c: seq<bool>)
    requires |c| == n
    ensures c in Product(n)
  {
    if n > 0 {
      var p := Product(n - 1);
      ProductComplete(n - 1, c[1..]);
      var i :| 0 <= i < |p| && p[i] == c[1..];
      assert c == [c[0]] + c[1..];
      if c[0] {
        assert Product(n)[|p| + i] == c;
      } else {
        assert Product(n)[i] == c;
      }
    }
  }

  /** With distinct keys and as many values, the zipped map sends the k-th key to the k-th value and has no other key. */
  lemma {:induction false} ZipLookup(keys: seq<int>, values: seq<bool>)
    requires StrictlyIncreasing(keys)
    requires |keys| == |values|
    ensures forall v :: v in Zip(keys, values) <==> v in keys
    ensures forall k :: 0 <= k < |keys| ==> Zip(keys, values)[keys[k]] == values[k]
  {
    if |keys| > 0 {
      var n := |keys| - 1;
      ZipLookup(keys[..n], values[..n]);
      forall k | 0 <= k < |keys| ensures Zip(keys, values)[keys[k]] == values[k] {
        if k < n {
          assert keys[k] < keys[n];
          assert keys[..n][k] == keys[k];
        }
      }
      forall v ensures v in Zip(keys, values) <==> v in keys {
        assert v in keys <==> v in keys[..n] || v == keys[n] by {
          assert keys == keys[..n] + [keys[n]];
        }
      }
    }
  }

  /** Zipping an ordering of `vars` with as many values assigns exactly the variables of `vars`. */
  lemma ZipKeys(keys: seq<int>, values: seq<bool>, vars: set<int>)
    requires StrictlyIncreasing(keys)
    requires |keys| == |values|
    requires forall x :: x in keys <==> x in vars
    ensures Zip(keys, values).Keys == vars
  {
    ZipLookup(keys, values);
    forall x ensures x in Zip(keys, values).Keys <==> x in vars {
      assert x in Zip(keys, values) <==> x in keys;
    }
  }

  /** Zipping the sorted variables preserves the order of `product` as the table's order on assignments. */
  lemma ZipOrder(keys: seq<int>, x: seq<bool>, y: seq<bool>)
    requires StrictlyIncreasing(keys)
    requires |x| == |keys| && |y| == |keys|
    requires LexLess(x, y)
    ensures InputsLess(Zip(keys, x), Zip(keys, y))
  {
    ZipLookup(keys, x);
    ZipLookup(keys, y);
    var k :| 0 <= k < |x| && k < |y| && x[..k] == y[..k] && !x[k] && y[k];
    AssignmentsOrder(keys, x, y, Zip(keys, x), Zip(keys, y), k);
  }

  /** Two assignments that read, along increasing keys, as value sequences first differing at `k` with false before true are in table order. */
  lemma AssignmentsOrder(keys: seq<int>, x: seq<bool>, y: seq<bool>, a: map<int, bool>, b: map<int, bool>, k: nat)
    requires StrictlyIncreasing(keys)
    requires |x| == |keys| && |y| == |keys|
    requires forall v :: v in a <==> v in keys
    requires forall v :: v in b <==> v in keys
    requires forall m :: 0 <= m < |keys| ==> keys[m] in a && keys[m] in b && a[keys[m]] == x[m] && b[keys[m]] == y[m]
    requires k < |keys| && x[..k] == y[..k] && !x[k] && y[k]
    ensures InputsLess(a, b)
  {
    var v := keys[k];
    assert v in a && v in b && !a[v] && b[v];
    forall u | u in a && u < v ensures u in b && a[u] == b[u] {
      var m :| 0 <= m < |keys| && keys[m] == u;
      assert m < k;
      assert x[..k][m] == y[..k][m];
    }
  }

  /**
   * `generate_truth_table`: one row per assignment of the circuit's input
   * variables, each with the circuit's value under it, in product order; if
   * `evaluate` raises on some row, the table is not produced and the error is
   * that of the first such row.
   */
  method GenerateTruthTable(circuit: Gate) returns (r: Result<seq<Row>, EvalError>)
    ensures r.Ok? ==> |r.value| == Pow2(|InputVars(circuit)|)
    ensures r.Ok? ==> forall i :: 0 <= i < |r.value| ==> r.value[i].inputs.Keys == InputVars(circuit)
    ensures r.Ok? ==> forall i :: 0 <= i < |r.value| ==> Evaluate(circuit, r.value[i].inputs) == Ok(r.value[i].output)
    ensures r.Ok? ==> forall i, j :: 0 <= i < j < |r.value| ==> InputsLess(r.value[i].inputs, r.value[j].inputs)
    ensures r.Ok? ==> forall i, j :: 0 <= i < j < |r.value| ==> r.value[i].inputs != r.value[j].inputs
    ensures r.Ok? ==> forall a: map<int, bool> :: a.Keys == InputVars(circuit) ==> exists i :: 0 <= i < |r.value| && r.value[i].inputs == a
    ensures r.Err? <==> exists a: map<int, bool> :: a.Keys == InputVars(circuit) && Evaluate(circuit, a).Err?
    ensures r.Err? ==> exists a: map<int, bool> :: FirstFailure(circuit, a, r.error)
    ensures r.Err? ==> r.error.UnknownGateType? && !KnownGates(circuit)
  {
    var variables := CollectVariables(circuit);
    var inputVars := Sorted(variables);
    var combos := Product(|inputVars|);
    ProductShape(|inputVars|);
    var evaluated := EvaluateRows(circuit, inputVars, combos);
    if evaluated.Err? {
      var k :| && 0 <= k < |combos|
               && Evaluate(circuit, Zip(inputVars, combos[k])) == Err(evaluated.error)
               && forall j :: 0 <= j < k ==> Evaluate(circuit, Zip(inputVars, combos[j])).Ok?;
      FirstFailureOfRows(circuit, inputVars, k, evaluated.error);
      FirstFailureCause(circuit, Zip(inputVars, combos[k]), evaluated.error);
      return Err(evaluated.error);
    }
    var rows := evaluated.value;
    RowsKeys(circuit, inputVars, rows);
    RowsOrdered(inputVars, rows);
    RowsComplete(circuit, inputVars, rows);
    RowsTotal(circuit, rows);
    r := Ok(rows);
  }

  /**
   * `a` is the first assignment of the circuit's input variables, in the
   * table's order, on which `evaluate` raises, and it raises `e`.
   */
  ghost predicate FirstFailure(circuit: Gate, a: map<int, bool>, e: EvalError)
  {
    && a.Keys == InputVars(circuit)
    && Evaluate(circuit, a) == Err(e)
    && forall b: map<int, bool> :: b.Keys == InputVars(circuit) && InputsLess(b, a) ==> Evaluate(circuit, b).Ok?
  }

  /** A first failure is a failure, and the error is an unknown gate type of the circuit. */
  lemma FirstFailureCause(circuit: Gate, a: map<int, bool>, e: EvalError)
    requires FirstFailure(circuit, a, e)
    ensures exists b: map<int, bool> :: b.Keys == InputVars(circuit) && Evaluate(circuit, b).Err?
    ensures e.UnknownGateType? && !KnownGates(circuit)
  {
    EvaluateErrorCause(circuit, a);
  }

  /** The first combination in product order on which `evaluate` raises is the first failing assignment in the table's order. */
  lemma FirstFailureOfRows(circuit: Gate, inputVars: seq<int>, k: nat, e: EvalError)
    requires StrictlyIncreasing(inputVars)
    requires forall x :: x in inputVars <==> x in InputVars(circuit)
    requires k < |Product(|inputVars|)|
    requires Evaluate(circuit, Zip(inputVars, Product(|inputVars|)[k])) == Err(e)
    requires forall j :: 0 <= j < k ==> Evaluate(circuit, Zip(inputVars, Product(|inputVars|)[j])).Ok?
    ensures FirstFailure(circuit, Zip(inputVars, Product(|inputVars|)[k]), e)
  {
    var n := |inputVars|;
    var combos := Product(n);
    ProductShape(n);
    ProductOrdered(n);
    var a := Zip(inputVars, combos[k]);
    ZipKeys(inputVars, combos[k], InputVars(circuit));
    forall b: map<int, bool> | b.Keys == InputVars(circuit) && InputsLess(b, a) ensures Evaluate(circuit, b).Ok? {
      var j := RowOf(circuit, inputVars, b);
      if j == k {
        InputsLessDistinct(b, a);
        assert false;
      } else if j > k {
        ZipOrder(inputVars, combos[k], combos[j]);
        InputsLessAsymmetric(a, b);
        assert false;
      }
    }
  }

  /** The index in product order of the combination that zips to an assignment of exactly the input variables. */
  lemma RowOf(circuit: Gate, inputVars: seq<int>, b: map<int, bool>) returns (j: nat)
    requires StrictlyIncreasing(inputVars)
    requires forall x :: x in inputVars <==> x in InputVars(circuit)
    requires b.Keys == InputVars(circuit)
    ensures j < |Product(|inputVars|)|
    ensures Zip(inputVars, Product(|inputVars|)[j]) == b
  {
    forall k | 0 <= k < |inputVars| ensures inputVars[k] in b {
      var x := inputVars[k];
      assert x in inputVars;
      assert x in InputVars(circuit);
    }
    forall x | x in b ensures x in inputVars {
      assert x in InputVars(circuit);
    }
    var c := Lookup(inputVars, b);
    ProductComplete(|inputVars|, c);
    j :| 0 <= j < |Product(|inputVars|)| && Product(|inputVars|)[j] == c;
    ZipLookupInverse(inputVars, b);
  }

  /** The table's order is asymmetric. */
  lemma InputsLessAsymmetric(a: map<int, bool>, b: map<int, bool>)
    requires InputsLess(a, b)
    ensures !InputsLess(b, a)
  {
  }

  /** A table that lists every assignment, each evaluated without error, leaves no assignment on which `evaluate` raises. */
  lemma RowsTotal(circuit: Gate, rows: seq<Row>)
    requires forall k :: 0 <= k < |rows| ==> Evaluate(circuit, rows[k].inputs) == Ok(rows[k].output)
    requires forall a: map<int, bool> :: a.Keys == InputVars(circuit) ==> exists i :: 0 <= i < |rows| && rows[i].inputs == a
    ensures !exists a: map<int, bool> :: a.Keys == InputVars(circuit) && Evaluate(circuit, a).Err?
  {
    forall a: map<int, bool> | a.Keys == InputVars(circuit) ensures Evaluate(circuit, a).Ok? {
      var i :| 0 <= i < |rows| && rows[i].inputs == a;
    }
  }

  /** The loop of `generate_truth_table`: evaluate the circuit on each zipped combination, stopping at the first exception. */
  method EvaluateRows(circuit: Gate, inputVars: seq<int>, combos: seq<seq<bool>>) returns (r: Result<seq<Row>, EvalError>)
    ensures r.Ok? ==> |r.value| == |combos|
    ensures r.Ok? ==> forall k :: 0 <= k < |combos| ==> r.value[k].inputs == Zip(inputVars, combos[k])
    ensures r.Ok? ==> forall k :: 0 <= k < |combos| ==> Evaluate(circuit, r.value[k].inputs) == Ok(r.value[k].output)
    ensures r.Err? ==> exists k ::
              && 0 <= k < |combos|
              && Evaluate(circuit, Zip(inputVars, combos[k])) == Err(r.error)
              && forall j :: 0 <= j < k ==> Evaluate(circuit, Zip(inputVars, combos[j])).Ok?
  {
    var rows: seq<Row> := [];
    for i := 0 to |combos|
      invariant |rows| == i
      invariant forall k :: 0 <= k < i ==> rows[k].inputs == Zip(inputVars, combos[k])
      invariant forall k :: 0 <= k < i ==> Evaluate(circuit, rows[k].inputs) == Ok(rows[k].output)
      invariant forall k :: 0 <= k < i ==> Evaluate(circuit, Zip(inputVars, combos[k])).Ok?
    {
      var inputValues := Zip(inputVars, combos[i]);
      var result := Evaluate(circuit, inputValues);
      if result.Err? {
        return Err(result.error);
      }
      rows := rows + [Row(inputValues, result.value)];
    }
    r := Ok(rows);
  }

  /** Each row assigns exactly the circuit's input variables. */
  lemma RowsKeys(circuit: Gate, inputVars: seq<int>, rows: seq<Row>)
    requires StrictlyIncreasing(inputVars)
    requires forall x :: x in inputVars <==> x in InputVars(circuit)
    requires |rows| == |Product(|inputVars|)|
    requires forall k :: 0 <= k < |rows| ==> rows[k].inputs == Zip(inputVars, Product(|inputVars|)[k])
    ensures forall i :: 0 <= i < |rows| ==> rows[i].inputs.Keys == InputVars(circuit)
  {
    ProductShape(|inputVars|);
    forall i | 0 <= i < |rows| ensures rows[i].inputs.Keys == InputVars(circuit) {
      ZipKeys(inputVars, Product(|inputVars|)[i], InputVars(circuit));
    }
  }

  /** The rows' assignments come in the table's order, so no two rows coincide. */
  lemma RowsOrdered(inputVars: seq<int>, rows: seq<Row>)
    requires StrictlyIncreasing(inputVars)
    requires |rows| == |Product(|inputVars|)|
    requires forall k :: 0 <= k < |rows| ==> rows[k].inputs == Zip(inputVars, Product(|inputVars|)[k])
    ensures forall i, j :: 0 <= i < j < |rows| ==> InputsLess(rows[i].inputs, rows[j].inputs)
    ensures forall i, j :: 0 <= i < j < |rows| ==> rows[i].inputs != rows[j].inputs
  {
    var combos := Product(|inputVars|);
    ProductShape(|inputVars|);
    ProductOrdered(|inputVars|);
    forall i, j | 0 <= i < j < |rows| ensures InputsLess(rows[i].inputs, rows[j].inputs) && rows[i].inputs != rows[j].inputs {
      ZipOrder(inputVars, combos[i], combos[j]);
      InputsLessDistinct(rows[i].inputs, rows[j].inputs);
    }
  }

  lemma InputsLessDistinct(a: map<int, bool>, b: map<int, bool>)
    requires InputsLess(a, b)
    ensures a != b
  {
    var v :| v in a && v in b && !a[v] && b[v] && forall u :: u in a && u < v ==> u in b && a[u] == b[u];
  }

  /** Every assignment of exactly the circuit's input variables is some row's. */
  lemma RowsComplete(circuit: Gate, inputVars: seq<int>, rows: seq<Row>)
    requires StrictlyIncreasing(inputVars)
    requires forall x :: x in inputVars <==> x in InputVars(circuit)
    requires |rows| == |Product(|inputVars|)|
    requires forall k :: 0 <= k < |rows| ==> rows[k].inputs == Zip(inputVars, Product(|inputVars|)[k])
    ensures forall a: map<int, bool> :: a.Keys == InputVars(circuit) ==> exists i :: 0 <= i < |rows| && rows[i].inputs == a
  {
    var n := |inputVars|;
    var combos := Product(n);
    forall a: map<int, bool> | a.Keys == InputVars(circuit) ensures exists i :: 0 <= i < |rows| && rows[i].inputs == a {
      forall k | 0 <= k < |inputVars| ensures inputVars[k] in a {
        var x := inputVars[k];
        assert x in inputVars;
        assert x in InputVars(circuit);
      }
      forall x | x in a ensures x in inputVars {
        assert x in InputVars(circuit);
      }
      var c := Lookup(inputVars, a);
      ProductComplete(n, c);
      var i :| 0 <= i < |combos| && combos[i] == c;
      ZipLookupInverse(inputVars, a);
      assert rows[i].inputs == a;
    }
  }

  /** The values an assignment gives to the variables of `keys`, in order. */
  function Lookup(keys: seq<int>, a: map<int, bool>): (c: seq<bool>)
    requires forall k :: 0 <= k < |keys| ==> keys[k] in a
    ensures |c| == |keys|
  {
    seq(|keys|, k requires 0 <= k < |keys| => a[keys[k]])
  }

  /** Zipping the variables with the values an assignment of exactly those variables gives them rebuilds the assignment. */
  lemma ZipLookupInverse(keys: seq<int>, a: map<int, bool>)
    requires StrictlyIncreasing(keys)
    requires forall k :: 0 <= k < |keys| ==> keys[k] in a
    requires forall x :: x in a ==> x in keys
    ensures Zip(keys, Lookup(keys, a)) == a
  {
    var c := Lookup(keys, a);
    ZipLookup(keys, c);
    ZipKeys(keys, c, a.Keys);
    var z := Zip(keys, c);
    forall v | v in z ensures z[v] == a[v] {
      var k :| 0 <= k < |keys| && keys[k] == v;
    }
  }

  /**
   * The `only_satisfiable` filter of `display_truth_table`: the rows whose
   * output is true, in their original order; the total it reports is the
   * length of this sequence.
   */
  function SatisfiableRows(rows: seq<Row>): (kept: seq<Row>)
    ensures |kept| <= |rows|
    ensures forall x :: x in kept <==> x in rows && x.output
  {
    if rows == [] then []
    else (if rows[0].output then [rows[0]] else []) + SatisfiableRows(rows[1..])
  }

  /** The filter works row by row: filtering a concatenation concatenates the filtered parts, so order is kept. */
  lemma {:induction false} SatisfiableRowsAppend(a: seq<Row>, b: seq<Row>)
    ensures SatisfiableRows(a + b) == SatisfiableRows(a) + SatisfiableRows(b)
  {
    if a == [] {
      assert a + b == b;
    } else {
      assert (a + b)[0] == a[0];
      assert (a + b)[1..] == a[1..] + b;
      SatisfiableRowsAppend(a[1..], b);
    }
  }

  /**
   * On a complete truth table the filter keeps exactly the satisfying
   * assignments: an assignment of the circuit's inputs makes the circuit
   * true iff some kept row carries it.
   */
  lemma SatisfiableRowsOfTable(circuit: Gate, rows: seq<Row>, a: map<int, bool>)
    requires forall i :: 0 <= i < |rows| ==> Evaluate(circuit, rows[i].inputs) == Ok(rows[i].output)
    requires forall b: map<int, bool> :: b.Keys == InputVars(circuit) ==> exists i :: 0 <= i < |rows| && rows[i].inputs == b
    requires a.Keys == InputVars(circuit)
    ensures Evaluate(circuit, a) == Ok(true) <==> exists x :: x in SatisfiableRows(rows) && x.inputs == a
  {
    var i :| 0 <= i < |rows| && rows[i].inputs == a;
    if Evaluate(circuit, a) == Ok(true) {
      assert rows[i] in SatisfiableRows(rows);
    }
    if x :| x in SatisfiableRows(rows) && x.inputs == a {
      var j :| 0 <= j < |rows| && rows[j] == x;
    }
  }
}

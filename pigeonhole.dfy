/**
 * The pigeonhole formula generator: "pigeon p sits in hole h" is variable
 * `(p - 1) * holes + h`; every pigeon sits in some hole, and no hole holds
 * two pigeons. Clauses are in the solver's (positives, negatives) form.
 */
module Pigeonhole {
  import opened Wrappers
  import opened Cnf
  import opened Search

  /** Python's `range(1, n + 1)` has `Max0(n)` elements. */
  function Max0(n: int): nat
  {
    if n > 0 then n else 0
  }

  /** The variable number of "pigeon p sits in hole h". */
  function VarOf(p: int, h: int, holes: int): int
  {
    (p - 1) * holes + h
  }

  /** The positives of pigeon `p`'s clause: its variables for holes 1 to `holes`, in order. */
  function PigeonVars(p: int, holes: int): seq<int>
  {
    seq(Max0(holes), k requires 0 <= k < Max0(holes) => VarOf(p, k + 1, holes))
  }

  /** The clauses of pigeons 1 to `n`: each pigeon sits in at least one hole. */
  function PigeonClauses(n: int, holes: int): seq<Clause>
    decreases n
  {
    if n <= 0 then [] else PigeonClauses(n - 1, holes) + [Clause(PigeonVars(n, holes), [])]
  }

  /** Not both pigeon `p1` and pigeon `p2` in hole `h`. */
  function Exclusion(p1: int, p2: int, h: int, holes: int): Clause
  {
    Clause([], [VarOf(p1, h, holes), VarOf(p2, h, holes)])
  }

  /** The innermost loop: the exclusions of pigeon `p1` against pigeons `p1 + 1` to `upTo` in hole `h`. */
  function PairClauses(h: int, p1: int, upTo: int, holes: int): seq<Clause>
    decreases upTo - p1
  {
    if upTo <= p1 then [] else PairClauses(h, p1, upTo - 1, holes) + [Exclusion(p1, upTo, h, holes)]
  }

  /** The middle loop: the exclusions in hole `h` whose first pigeon is 1 to `n`. */
  function HoleClauses(h: int, n: int, pigeons: int, holes: int): seq<Clause>
    decreases n
  {
    if n <= 0 then [] else HoleClauses(h, n - 1, pigeons, holes) + PairClauses(h, n, pigeons, holes)
  }

  /** The outer loop: the exclusions of holes 1 to `n`. */
  function Exclusions(n: int, pigeons: int, holes: int): seq<Clause>
    decreases n
  {
    if n <= 0 then [] else Exclusions(n - 1, pigeons, holes) + HoleClauses(n, pigeons - 1, pigeons, holes)
  }

  /** The formula `generate_pigeonhole` builds. */
  function Pigeonhole(pigeons: int, holes: int): seq<Clause>
  {
    PigeonClauses(pigeons, holes) + Exclusions(holes, pigeons, holes)
  }

  /** `generate_pigeonhole`: the pigeon clauses, then for every hole and every pair of pigeons an exclusion. */
  method GeneratePigeonhole(pigeons: int, holes: int) returns (clauses: seq<Clause>)
    ensures clauses == Pigeonhole(pigeons, holes)
  {
    clauses := AddPigeonClauses(pigeons, holes);
    var h := 1;
    while h <= holes
      invariant 1 <= h <= Max0(holes) + 1
      invariant clauses == PigeonClauses(pigeons, holes) + Exclusions(h - 1, pigeons, holes)
    {
      assert Exclusions(h, pigeons, holes) == Exclusions(h - 1, pigeons, holes) + HoleClauses(h, pigeons - 1, pigeons, holes);
      clauses := ExcludeInHole(clauses, h, pigeons, holes);
      h := h + 1;
    }
    assert h - 1 == Max0(holes);
    assert Exclusions(h - 1, pigeons, holes) == Exclusions(holes, pigeons, holes);
  }

  /** The first loop of `generate_pigeonhole`: each pigeon's clause over all holes. */
  method AddPigeonClauses(pigeons: int, holes: int) returns (clauses: seq<Clause>)
    ensures clauses == PigeonClauses(pigeons, holes)
  {
    clauses := [];
    var p := 1;
    while p <= pigeons
      invariant 1 <= p <= Max0(pigeons) + 1
      invariant clauses == PigeonClauses(p - 1, holes)
    {
      var variables := PigeonVars(p, holes);
      assert PigeonClauses(p, holes) == PigeonClauses(p - 1, holes) + [Clause(variables, [])];
      clauses := clauses + [Clause(variables, [])];
      p := p + 1;
    }
    assert p - 1 == Max0(pigeons);
    assert PigeonClauses(p - 1, holes) == PigeonClauses(pigeons, holes);
  }

  /** The middle loop of `generate_pigeonhole`: append the exclusions of hole `h` for every first pigeon `p1`. */
  method ExcludeInHole(before: seq<Clause>, h: int, pigeons: int, holes: int) returns (clauses: seq<Clause>)
    ensures clauses == before + HoleClauses(h, pigeons - 1, pigeons, holes)
  {
    clauses := before;
    var p1 := 1;
    while p1 < pigeons
      invariant 1 <= p1 <= Max0(pigeons - 1) + 1
      invariant clauses == before + HoleClauses(h, p1 - 1, pigeons, holes)
    {
      clauses := ExcludePairs(clauses, h, p1, pigeons, holes);
      p1 := p1 + 1;
    }
    assert HoleClauses(h, p1 - 1, pigeons, holes) == HoleClauses(h, pigeons - 1, pigeons, holes);
  }

  /** The innermost loop of `generate_pigeonhole`: append the exclusions of pigeon `p1` against each later pigeon in hole `h`. */
  method ExcludePairs(inHole: seq<Clause>, h: int, p1: int, pigeons: int, holes: int) returns (clauses: seq<Clause>)
    ensures clauses == inHole + PairClauses(h, p1, pigeons, holes)
  {
    clauses := inHole;
    var p2 := p1 + 1;
    while p2 <= pigeons
      invariant p1 + 1 <= p2 <= Max0(pigeons - p1) + p1 + 1
      invariant clauses == inHole + PairClauses(h, p1, p2 - 1, holes)
    {
      var var1 := (p1 - 1) * holes + h;
      var var2 := (p2 - 1) * holes + h;
      clauses := clauses + [Clause([], [var1, var2])];
      p2 := p2 + 1;
    }
  }

  lemma {:induction false} PigeonClausesLength(n: int, holes: int)
    ensures |PigeonClauses(n, holes)| == Max0(n)
    decreases n
  {
    if n > 0 {
      PigeonClausesLength(n - 1, holes);
    }
  }

  lemma {:induction false} PairClausesLength(h: int, p1: int, upTo: int, holes: int)
    ensures |PairClauses(h, p1, upTo, holes)| == Max0(upTo - p1)
    decreases upTo - p1
  {
    if upTo > p1 {
      PairClausesLength(h, p1, upTo - 1, holes);
    }
  }

  /** Hole `h` gets one exclusion per pair of pigeons whose first pigeon is 1 to `n`. */
  lemma {:induction false} HoleClausesLength(h: int, n: int, pigeons: int, holes: int)
    requires 0 <= n < Max0(pigeons) + 1
    ensures 2 * |HoleClauses(h, n, pigeons, holes)| == n * (2 * pigeons - n - 1)
    decreases n
  {
    if n > 0 {
      HoleClausesLength(h, n - 1, pigeons, holes);
      PairClausesLength(h, n, pigeons, holes);
      assert n * (2 * pigeons - n - 1) == (n - 1) * (2 * pigeons - (n - 1) - 1) + 2 * (pigeons - n);
    }
  }

  lemma {:induction false} ExclusionsLength(n: int, pigeons: int, holes: int)
    ensures |Exclusions(n, pigeons, holes)| == Max0(n) * (Max0(pigeons) * (Max0(pigeons) - 1) / 2)
    decreases n
  {
    if n > 0 {
      ExclusionsLength(n - 1, pigeons, holes);
      if pigeons > 0 {
        HoleClausesLength(n, pigeons - 1, pigeons, holes);
        assert (pigeons - 1) * (2 * pigeons - (pigeons - 1) - 1) == pigeons * (pigeons - 1);
      }
      assert Max0(n) * (Max0(pigeons) * (Max0(pigeons) - 1) / 2)
          == Max0(n - 1) * (Max0(pigeons) * (Max0(pigeons) - 1) / 2) + Max0(pigeons) * (Max0(pigeons) - 1) / 2;
    }
  }

  /** The formula has one clause per pigeon and one per hole and pair of pigeons. */
  lemma ClauseCount(pigeons: int, holes: int)
    ensures |Pigeonhole(pigeons, holes)| == Max0(pigeons) + Max0(holes) * (Max0(pigeons) * (Max0(pigeons) - 1) / 2)
  {
    PigeonClausesLength(pigeons, holes);
    ExclusionsLength(holes, pigeons, holes);
  }

  lemma {:induction false} PigeonClausesAt(n: int, holes: int)
    ensures forall i :: 0 <= i < |PigeonClauses(n, holes)| ==> PigeonClauses(n, holes)[i] == Clause(PigeonVars(i + 1, holes), [])
    decreases n
  {
    if n > 0 {
      PigeonClausesAt(n - 1, holes);
      PigeonClausesLength(n - 1, holes);
    }
  }

  /**
   * Clause `i` (counting from 0) of the first part belongs to pigeon `i + 1`:
   * no negatives, and as positives that pigeon's variables for holes 1 to
   * `holes`, which are consecutive and ascending.
   */
  lemma PigeonClauseShape(pigeons: int, holes: int, i: int)
    requires 0 <= i < Max0(pigeons)
    ensures i < |Pigeonhole(pigeons, holes)|
    ensures Pigeonhole(pigeons, holes)[i].neg == []
    ensures |Pigeonhole(pigeons, holes)[i].pos| == Max0(holes)
    ensures forall k :: 0 <= k < Max0(holes) ==> Pigeonhole(pigeons, holes)[i].pos[k] == i * holes + k + 1
  {
    PigeonClausesLength(pigeons, holes);
    PigeonClausesAt(pigeons, holes);
    assert Pigeonhole(pigeons, holes)[i] == PigeonClauses(pigeons, holes)[i];
  }

  /** `c` says "not both pigeon p1 and pigeon p2 in hole h" for two distinct pigeons and a hole of the formula. */
  ghost predicate IsExclusionOf(c: Clause, pigeons: int, holes: int)
  {
    exists p1, p2, h :: 1 <= p1 < p2 <= pigeons && 1 <= h <= holes && c == Exclusion(p1, p2, h, holes)
  }

  lemma {:induction false} PairClausesMembers(h: int, p1: int, upTo: int, holes: int)
    ensures forall c :: c in PairClauses(h, p1, upTo, holes) <==> exists p2 :: p1 < p2 <= upTo && c == Exclusion(p1, p2, h, holes)
    decreases upTo - p1
  {
    if upTo > p1 {
      PairClausesMembers(h, p1, upTo - 1, holes);
    }
  }

  lemma {:induction false} HoleClausesMembers(h: int, n: int, pigeons: int, holes: int)
    ensures forall c :: c in HoleClauses(h, n, pigeons, holes) <==>
              exists p1, p2 :: 1 <= p1 <= n && p1 < p2 <= pigeons && c == Exclusion(p1, p2, h, holes)
    decreases n
  {
    if n > 0 {
      HoleClausesMembers(h, n - 1, pigeons, holes);
      PairClausesMembers(h, n, pigeons, holes);
      forall c ensures c in HoleClauses(h, n, pigeons, holes) <==>
                 exists p1, p2 :: 1 <= p1 <= n && p1 < p2 <= pigeons && c == Exclusion(p1, p2, h, holes)
      {
        assert HoleClauses(h, n, pigeons, holes) == HoleClauses(h, n - 1, pigeons, holes) + PairClauses(h, n, pigeons, holes);
        if exists p1, p2 :: 1 <= p1 <= n && p1 < p2 <= pigeons && c == Exclusion(p1, p2, h, holes) {
          var p1, p2 :| 1 <= p1 <= n && p1 < p2 <= pigeons && c == Exclusion(p1, p2, h, holes);
          if p1 == n {
            assert c in PairClauses(h, n, pigeons, holes);
          } else {
            assert c in HoleClauses(h, n - 1, pigeons, holes);
          }
        }
      }
    }
  }

  lemma {:induction false} ExclusionsMembers(n: int, pigeons: int, holes: int)
    ensures forall c :: c in Exclusions(n, pigeons, holes) <==>
              exists p1, p2, h :: 1 <= p1 < p2 <= pigeons && 1 <= h <= n && c == Exclusion(p1, p2, h, holes)
    decreases n
  {
    if n > 0 {
      ExclusionsMembers(n - 1, pigeons, holes);
      HoleClausesMembers(n, pigeons - 1, pigeons, holes);
      forall c ensures c in Exclusions(n, pigeons, holes) <==>
                 exists p1, p2, h :: 1 <= p1 < p2 <= pigeons && 1 <= h <= n && c == Exclusion(p1, p2, h, holes)
      {
        assert Exclusions(n, pigeons, holes) == Exclusions(n - 1, pigeons, holes) + HoleClauses(n, pigeons - 1, pigeons, holes);
        if c in Exclusions(n - 1, pigeons, holes) {
          var p1, p2, h :| 1 <= p1 < p2 <= pigeons && 1 <= h <= n - 1 && c == Exclusion(p1, p2, h, holes);
          assert 1 <= h <= n;
        } else if c in HoleClauses(n, pigeons - 1, pigeons, holes) {
          var p1, p2 :| 1 <= p1 <= pigeons - 1 && p1 < p2 <= pigeons && c == Exclusion(p1, p2, n, holes);
          assert 1 <= p1 < p2 <= pigeons && 1 <= n <= n;
        }
        if exists p1, p2, h :: 1 <= p1 < p2 <= pigeons && 1 <= h <= n && c == Exclusion(p1, p2, h, holes) {
          var p1, p2, h :| 1 <= p1 < p2 <= pigeons && 1 <= h <= n && c == Exclusion(p1, p2, h, holes);
          if h == n {
            assert c in HoleClauses(n, pigeons - 1, pigeons, holes);
          } else {
            assert c in Exclusions(n - 1, pigeons, holes);
          }
        }
      }
    }
  }

  /**
   * Every clause after the pigeon clauses is an exclusion for two distinct
   * pigeons and one hole, with no positives and its two negatives in
   * ascending order; and every such exclusion is in the formula.
   */
  lemma ExclusionShape(pigeons: int, holes: int, i: int)
    requires Max0(pigeons) <= i < |Pigeonhole(pigeons, holes)|
    ensures IsExclusionOf(Pigeonhole(pigeons, holes)[i], pigeons, holes)
    ensures Pigeonhole(pigeons, holes)[i].pos == []
    ensures |Pigeonhole(pigeons, holes)[i].neg| == 2
    ensures Pigeonhole(pigeons, holes)[i].neg[0] < Pigeonhole(pigeons, holes)[i].neg[1]
  {
    PigeonClausesLength(pigeons, holes);
    var c := Pigeonhole(pigeons, holes)[i];
    assert c in Exclusions(holes, pigeons, holes) by {
      assert c == Exclusions(holes, pigeons, holes)[i - Max0(pigeons)];
    }
    ExclusionsMembers(holes, pigeons, holes);
    var p1, p2, h :| 1 <= p1 < p2 <= pigeons && 1 <= h <= holes && c == Exclusion(p1, p2, h, holes);
    ExclusionOrdered(p1, p2, h, holes);
  }

  lemma ExclusionOrdered(p1: int, p2: int, h: int, holes: int)
    requires p1 < p2 && 1 <= holes
    ensures VarOf(p1, h, holes) < VarOf(p2, h, holes)
  {
    assert (p2 - 1) * holes - (p1 - 1) * holes == (p2 - p1) * holes;
  }

  lemma ExclusionsComplete(pigeons: int, holes: int, p1: int, p2: int, h: int)
    requires 1 <= p1 < p2 <= pigeons && 1 <= h <= holes
    ensures Exclusion(p1, p2, h, holes) in Pigeonhole(pigeons, holes)
  {
    ExclusionsMembers(holes, pigeons, holes);
    assert Exclusion(p1, p2, h, holes) in Exclusions(holes, pigeons, holes);
  }

  /** The variable of a pigeon and a hole of the formula lies in 1 to `pigeons * holes`. */
  lemma VarInRange(p: int, h: int, pigeons: int, holes: int)
    requires 1 <= p <= pigeons && 1 <= h <= holes
    ensures 1 <= VarOf(p, h, holes) <= pigeons * holes
  {
    assert 0 <= (p - 1) * holes <= (pigeons - 1) * holes;
  }

  /** Every variable number the formula mentions lies in 1 to `pigeons * holes`. */
  lemma VariablesInRange(pigeons: int, holes: int)
    ensures forall c, v :: c in Pigeonhole(pigeons, holes) && (v in c.pos || v in c.neg) ==> 1 <= v <= pigeons * holes
  {
    forall c, v | c in Pigeonhole(pigeons, holes) && (v in c.pos || v in c.neg) ensures 1 <= v <= pigeons * holes {
      var i :| 0 <= i < |Pigeonhole(pigeons, holes)| && Pigeonhole(pigeons, holes)[i] == c;
      PigeonClausesLength(pigeons, holes);
      if i < Max0(pigeons) {
        PigeonClauseShape(pigeons, holes, i);
        var k :| 0 <= k < |c.pos| && c.pos[k] == v;
        assert v == VarOf(i + 1, k + 1, holes);
        VarInRange(i + 1, k + 1, pigeons, holes);
      } else {
        ExclusionShape(pigeons, holes, i);
        var p1, p2, h :| 1 <= p1 < p2 <= pigeons && 1 <= h <= holes && c == Exclusion(p1, p2, h, holes);
        VarInRange(p1, h, pigeons, holes);
        VarInRange(p2, h, pigeons, holes);
      }
    }
  }

  /** Python's `//`: the floor of the quotient; Dafny's `/` agrees with it only for a positive divisor. */
  function FloorDiv(a: int, b: int): (q: int)
    requires b != 0
    ensures b > 0 ==> b * q <= a < b * q + b
    ensures b < 0 ==> b * q + b < a <= b * q
  {
    if b > 0 then a / b else (-a) / (-b)
  }

  /** Python's `%`: the remainder of `FloorDiv`, which takes the sign of the divisor. */
  function FloorMod(a: int, b: int): (r: int)
    requires b != 0
    ensures b > 0 ==> 0 <= r < b
    ensures b < 0 ==> b < r <= 0
  {
    a - b * FloorDiv(a, b)
  }

  /**
   * The arithmetic of `var_to_ph`: the pigeon and the hole variable `v`
   * stands for; None where Python raises ZeroDivisionError (no holes).
   */
  function PigeonAndHole(v: int, holes: int): (r: Option<(int, int)>)
    ensures r.Some? <==> holes != 0
    ensures r.Some? ==> (r.value.0 - 1) * holes + (r.value.1 - 1) == v - 1
    ensures r.Some? && holes > 0 ==> 1 <= r.value.1 <= holes
    ensures r.Some? && holes < 0 ==> holes + 2 <= r.value.1 <= 1
  {
    if holes == 0 then None else Some((FloorDiv(v - 1, holes) + 1, FloorMod(v - 1, holes) + 1))
  }

  /** Dividing `q * b + r` by `b` gives back `q` and `r` when `0 <= r < b`. */
  lemma DivModOf(q: int, r: int, b: int)
    requires 0 <= r < b
    ensures (q * b + r) / b == q && (q * b + r) % b == r
  {
    var a := q * b + r;
    var q', r' := a / b, a % b;
    assert a == q' * b + r';
    if q > q' {
      MulNonneg(q - q' - 1, b);
      assert false;
    } else if q < q' {
      MulNonneg(q' - q - 1, b);
      assert false;
    }
  }

  lemma {:induction false} MulNonneg(x: int, b: int)
    requires x >= 0 && b >= 0
    ensures x * b >= 0
    decreases x
  {
    if x > 0 {
      MulNonneg(x - 1, b);
      assert x * b == (x - 1) * b + b;
    }
  }

  /** Decoding the variable of pigeon `p` and hole `h` gives back `p` and `h`. */
  lemma DecodeEncode(p: int, h: int, holes: int)
    requires 1 <= h <= holes
    ensures PigeonAndHole(VarOf(p, h, holes), holes) == Some((p, h))
  {
    var w := VarOf(p, h, holes) - 1;
    assert w == (p - 1) * holes + (h - 1);
    DivModOf(p - 1, h - 1, holes);
    assert FloorDiv(w, holes) == p - 1;
  }

  /**
   * With at least one hole, every variable number is the variable of the
   * pigeon and hole it decodes to, the hole lies in 1 to `holes`, and a
   * variable in 1 to `pigeons * holes` decodes to a pigeon in 1 to `pigeons`.
   */
  lemma EncodeDecode(v: int, pigeons: int, holes: int)
    requires holes >= 1
    ensures PigeonAndHole(v, holes).Some?
    ensures 1 <= PigeonAndHole(v, holes).value.1 <= holes
    ensures VarOf(PigeonAndHole(v, holes).value.0, PigeonAndHole(v, holes).value.1, holes) == v
    ensures 1 <= v <= pigeons * holes ==> 1 <= PigeonAndHole(v, holes).value.0 <= pigeons
  {
    var q, r := (v - 1) / holes, (v - 1) % holes;
    assert v - 1 == q * holes + r;
  }

  /** The assignment "pigeon p sits in hole p", over every variable of the formula. */
  function Diagonal(pigeons: int, holes: int): map<int, bool>
    requires holes >= 1
  {
    map v | 1 <= v <= pigeons * holes :: PigeonAndHole(v, holes).value.0 == PigeonAndHole(v, holes).value.1
  }

  /** The diagonal assigns the variable of pigeon `p` and hole `h` the truth of `p == h`. */
  lemma DiagonalAt(pigeons: int, holes: int, p: int, h: int)
    requires 1 <= p <= pigeons && 1 <= h <= holes
    ensures VarOf(p, h, holes) in Diagonal(pigeons, holes)
    ensures Diagonal(pigeons, holes)[VarOf(p, h, holes)] == (p == h)
  {
    VarInRange(p, h, pigeons, holes);
    DecodeEncode(p, h, holes);
  }

  /** With no more pigeons than holes, putting pigeon p in hole p satisfies every clause. */
  lemma DiagonalSatisfies(pigeons: int, holes: int)
    requires 1 <= holes && pigeons <= holes
    ensures Satisfies(Diagonal(pigeons, holes), Pigeonhole(pigeons, holes))
  {
    var a, f := Diagonal(pigeons, holes), Pigeonhole(pigeons, holes);
    PigeonClausesLength(pigeons, holes);
    forall j | 0 <= j < |f| ensures ClauseSatisfiedBy(f[j], a) {
      if j < Max0(pigeons) {
        PigeonClauseShape(pigeons, holes, j);
        DiagonalAt(pigeons, holes, j + 1, j + 1);
        assert f[j].pos[j] == VarOf(j + 1, j + 1, holes);
      } else {
        ExclusionShape(pigeons, holes, j);
        var p1, p2, h :| 1 <= p1 < p2 <= pigeons && 1 <= h <= holes && f[j] == Exclusion(p1, p2, h, holes);
        DiagonalAt(pigeons, holes, p1, h);
        DiagonalAt(pigeons, holes, p2, h);
        if p1 == h {
          assert f[j].neg[1] in a && !a[f[j].neg[1]];
        } else {
          assert f[j].neg[0] in a && !a[f[j].neg[0]];
        }
      }
    }
  }

  /** With no more pigeons than holes the formula is satisfiable, and `satisfy_cnf` finds an assignment. */
  lemma SatisfiableWhenEnoughHoles(pigeons: int, holes: int)
    requires pigeons <= holes
    ensures exists a :: Satisfies(a, Pigeonhole(pigeons, holes))
    ensures Solve(Pigeonhole(pigeons, holes)).Some?
  {
    if holes >= 1 {
      DiagonalSatisfies(pigeons, holes);
      SolveComplete(Pigeonhole(pigeons, holes), Diagonal(pigeons, holes));
    } else {
      PigeonClausesLength(pigeons, holes);
      assert Pigeonhole(pigeons, holes) == [];
      assert Satisfies(map[], Pigeonhole(pigeons, holes));
      SolveComplete(Pigeonhole(pigeons, holes), map[]);
    }
  }

  /** The pigeonhole principle: pairwise distinct holes numbered 1 to `holes` are at most `holes` many. */
  lemma {:induction false} InjectionBound(f: seq<int>, holes: int)
    requires 0 <= holes
    requires forall i :: 0 <= i < |f| ==> 1 <= f[i] <= holes
    requires forall i, j :: 0 <= i < j < |f| ==> f[i] != f[j]
    ensures |f| <= holes
    decreases |f|
  {
    if f != [] {
      var n := |f| - 1;
      var m := f[n];
      var g := seq(n, i requires 0 <= i < n => if f[i] == holes then m else f[i]);
      forall i, j | 0 <= i < j < n ensures g[i] != g[j] {
        assert f[i] != f[j] && f[i] != m && f[j] != m;
      }
      forall i | 0 <= i < n ensures 1 <= g[i] <= holes - 1 {
        assert f[i] != m;
      }
      InjectionBound(g, holes - 1);
    }
  }

  /** Each pigeon clause satisfied by `a` names a hole whose variable `a` sets for that pigeon. */
  lemma HoleOfPigeon(pigeons: int, holes: int, a: map<int, bool>, p: int) returns (h: int)
    requires Satisfies(a, Pigeonhole(pigeons, holes))
    requires 1 <= p <= pigeons
    ensures 1 <= h <= holes
    ensures VarOf(p, h, holes) in a && a[VarOf(p, h, holes)]
  {
    PigeonClauseShape(pigeons, holes, p - 1);
    var c := Pigeonhole(pigeons, holes)[p - 1];
    assert ClauseSatisfiedBy(c, a);
    var k :| 0 <= k < |c.pos| && c.pos[k] in a && a[c.pos[k]];
    h := k + 1;
    assert c.pos[k] == VarOf(p, h, holes);
  }

  /** With more pigeons than holes no assignment satisfies every clause. */
  lemma NoAssignmentSatisfies(pigeons: int, holes: int, a: map<int, bool>)
    requires 0 <= holes < pigeons
    ensures !Satisfies(a, Pigeonhole(pigeons, holes))
  {
    if Satisfies(a, Pigeonhole(pigeons, holes)) {
      var f: seq<int> := [];
      for p := 1 to pigeons + 1
        invariant |f| == p - 1
        invariant forall i :: 0 <= i < |f| ==> 1 <= f[i] <= holes && VarOf(i + 1, f[i], holes) in a && a[VarOf(i + 1, f[i], holes)]
      {
        var h := HoleOfPigeon(pigeons, holes, a, p);
        f := f + [h];
      }
      forall i, j | 0 <= i < j < |f| ensures f[i] != f[j] {
        if f[i] == f[j] {
          ExclusionsComplete(pigeons, holes, i + 1, j + 1, f[i]);
          assert false;
        }
      }
      InjectionBound(f, holes);
      assert false;
    }
  }

  /** With more pigeons than holes the formula is unsatisfiable, and `satisfy_cnf` returns None. */
  lemma UnsatisfiableWhenTooFewHoles(pigeons: int, holes: int)
    requires 0 <= holes < pigeons
    ensures forall a :: !Satisfies(a, Pigeonhole(pigeons, holes))
    ensures Solve(Pigeonhole(pigeons, holes)) == None
  {
    forall a ensures !Satisfies(a, Pigeonhole(pigeons, holes)) {
      NoAssignmentSatisfies(pigeons, holes, a);
    }
    if Solve(Pigeonhole(pigeons, holes)).Some? {
      SolveSound(Pigeonhole(pigeons, holes));
      assert false;
    }
  }

  function DigitChar(d: nat): char
    requires d < 10
  {
    "0123456789"[d]
  }

  predicate IsDigits(s: string)
  {
    forall i :: 0 <= i < |s| ==> '0' <= s[i] <= '9'
  }

  /** Python's `str` of a non-negative int: its decimal digits, most significant first. */
  function NatToString(n: nat): (s: string)
    ensures |s| >= 1 && IsDigits(s)
  {
    if n < 10 then [DigitChar(n)] else NatToString(n / 10) + [DigitChar(n % 10)]
  }

  /** Python's `str` of an int. */
  function IntToString(n: int): string
  {
    if n < 0 then "-" + NatToString(-n) else NatToString(n)
  }

  /** The number a string of decimal digits denotes. */
  function ParseNat(s: string): nat
    requires IsDigits(s)
  {
    if s == [] then 0 else 10 * ParseNat(s[..|s| - 1]) + (s[|s| - 1] as int - '0' as int)
  }

  /** Reads back a decimal numeral as `str` writes it; None for any other string. */
  function ParseInt(s: string): Option<int>
  {
    if |s| >= 2 && s[0] == '-' && IsDigits(s[1..]) then Some(-(ParseNat(s[1..]) as int))
    else if |s| >= 1 && IsDigits(s) then Some(ParseNat(s))
    else None
  }

  lemma {:induction false} ParseNatToString(n: nat)
    ensures ParseNat(NatToString(n)) == n
  {
    if n >= 10 {
      var s := NatToString(n);
      assert s[..|s| - 1] == NatToString(n / 10);
      ParseNatToString(n / 10);
    }
  }

  /** Reading back what `str` writes gives the number again. */
  lemma ParseIntToString(n: int)
    ensures ParseInt(IntToString(n)) == Some(n)
  {
    ParseNatToString(if n < 0 then -n else n);
    if n < 0 {
      assert IntToString(n)[1..] == NatToString(-n);
    }
  }

  /** `var_to_ph`: the term "x₍p,h₎" naming the pigeon and hole of variable `v`; None where it raises. */
  function VarToPh(v: int, holes: int): (t: Option<string>)
    ensures t.None? <==> holes == 0
  {
    match PigeonAndHole(v, holes)
    case None => None
    case Some((p, h)) => Some("x\U{208D}" + IntToString(p) + "," + IntToString(h) + "\U{208E}")
  }

  /** The position of the first `c` in `s`, or `|s|` when there is none. */
  function IndexOf(s: string, c: char): (k: nat)
    ensures k <= |s|
    ensures forall i :: 0 <= i < k ==> s[i] != c
    ensures k < |s| ==> s[k] == c
  {
    if s == [] then 0 else if s[0] == c then 0 else 1 + IndexOf(s[1..], c)
  }

  /** Reads a term "x₍p,h₎" back into the pigeon and the hole it names; None for any other string. */
  function ParseTerm(t: string): Option<(int, int)>
  {
    if |t| < 3 || t[..2] != "x\U{208D}" || t[|t| - 1] != '\U{208E}' then None
    else
      var body := t[2..|t| - 1];
      var k := IndexOf(body, ',');
      if k == |body| then None
      else
        match (ParseInt(body[..k]), ParseInt(body[k + 1..]))
        case (Some(p), Some(h)) => Some((p, h))
        case _ => None
  }

  /** The term `var_to_ph` writes names exactly the pigeon and hole the variable decodes to. */
  lemma TermRoundTrip(v: int, holes: int)
    requires holes != 0
    ensures ParseTerm(VarToPh(v, holes).value) == PigeonAndHole(v, holes)
  {
    var (p, h) := PigeonAndHole(v, holes).value;
    assert VarToPh(v, holes).value == "x\U{208D}" + IntToString(p) + "," + IntToString(h) + "\U{208E}";
    ParseIntToString(p);
    ParseIntToString(h);
    NumeralHasNoComma(p);
    ParseTermOf(IntToString(p), IntToString(h), p, h);
  }

  lemma NumeralHasNoComma(n: int)
    ensures forall i :: 0 <= i < |IntToString(n)| ==> IntToString(n)[i] != ','
  {
    if n < 0 {
      assert IsDigits(NatToString(-n));
      assert forall i :: 1 <= i < |IntToString(n)| ==> IntToString(n)[i] == NatToString(-n)[i - 1];
    }
  }

  /** A term built from two numerals, the first without a comma, reads back as the two numbers. */
  lemma ParseTermOf(sp: string, sh: string, p: int, h: int)
    requires ParseInt(sp) == Some(p) && ParseInt(sh) == Some(h)
    requires forall i :: 0 <= i < |sp| ==> sp[i] != ','
    ensures ParseTerm("x\U{208D}" + sp + "," + sh + "\U{208E}") == Some((p, h))
  {
    var t := "x\U{208D}" + sp + "," + sh + "\U{208E}";
    var body := t[2..|t| - 1];
    assert body == sp + "," + sh;
    assert t[..2] == "x\U{208D}";
    assert forall i :: 0 <= i < |sp| ==> body[i] == sp[i];
    assert body[|sp|] == ',';
    assert IndexOf(body, ',') == |sp|;
    assert body[..|sp|] == sp;
    assert body[|sp| + 1..] == sh;
  }

  /** `sep.join(terms)`. */
  function Join(terms: seq<string>, sep: string): string
  {
    if |terms| == 0 then ""
    else if |terms| == 1 then terms[0]
    else Join(terms[..|terms| - 1], sep) + sep + terms[|terms| - 1]
  }

  /** The terms of variables `vs`, each prefixed with `prefix`. */
  function TermsOf(vs: seq<int>, prefix: string, holes: int): seq<string>
    requires holes != 0 || vs == []
  {
    seq(|vs|, i requires 0 <= i < |vs| => prefix + VarToPh(vs[i], holes).value)
  }

  /** The terms of a clause: each positive variable's term, then each negative one's prefixed with "¬". */
  function Terms(c: Clause, holes: int): seq<string>
    requires holes != 0 || (c.pos == [] && c.neg == [])
  {
    TermsOf(c.pos, "", holes) + TermsOf(c.neg, "\U{00AC}", holes)
  }

  /** What `format_pigeonhole_clause` returns; None where `var_to_ph` raises ZeroDivisionError. */
  function FormatClause(c: Clause, holes: int): Option<string>
  {
    if holes == 0 && (c.pos != [] || c.neg != []) then None
    else Some("(" + Join(Terms(c, holes), " \U{2228} ") + ")")
  }

  /** `format_pigeonhole_clause`: collect the terms, then join them with " ∨ " inside parentheses. */
  method FormatPigeonholeClause(clause: Clause, holes: int) returns (r: Option<string>)
    ensures r == FormatClause(clause, holes)
  {
    var positives := AppendTerms([], clause.pos, "", holes);
    if positives.None? {
      return None;
    }
    assert positives.value == TermsOf(clause.pos, "", holes);
    var terms := AppendTerms(positives.value, clause.neg, "\U{00AC}", holes);
    if terms.None? {
      return None;
    }
    assert terms.value == Terms(clause, holes);
    r := Some("(" + Join(terms.value, " \U{2228} ") + ")");
  }

  /** Extending the variables by one extends their terms by that variable's term. */
  lemma TermsOfSnoc(vs: seq<int>, i: nat, prefix: string, holes: int)
    requires i < |vs| && holes != 0
    ensures TermsOf(vs[..i + 1], prefix, holes) == TermsOf(vs[..i], prefix, holes) + [prefix + VarToPh(vs[i], holes).value]
  {
    assert vs[..i + 1] == vs[..i] + [vs[i]];
  }

  /** One loop of `format_pigeonhole_clause`: append the term of each variable of `vs`, prefixed, to `terms`. */
  method AppendTerms(terms: seq<string>, vs: seq<int>, prefix: string, holes: int) returns (r: Option<seq<string>>)
    ensures r.None? <==> holes == 0 && vs != []
    ensures r.Some? ==> r.value == terms + TermsOf(vs, prefix, holes)
  {
    var acc := terms;
    for i := 0 to |vs|
      invariant holes != 0 || i == 0
      invariant acc == terms + TermsOf(vs[..i], prefix, holes)
    {
      var t := VarToPh(vs[i], holes);
      if t.None? {
        return None;
      }
      TermsOfSnoc(vs, i, prefix, holes);
      acc := acc + [prefix + t.value];
    }
    assert vs[..|vs|] == vs;
    r := Some(acc);
  }

  /** Reads one term back into a literal: its sign, and the variable of the pigeon and hole it names. */
  function ReadLiteral(t: string, holes: int): Option<(bool, int)>
  {
    var negated := |t| >= 1 && t[0] == '\U{00AC}';
    match ParseTerm(if negated then t[1..] else t)
    case None => None
    case Some((p, h)) => Some((!negated, VarOf(p, h, holes)))
  }

  /**
   * The formatted clause lists its literals in order, positives first: with
   * at least one hole, the i-th term reads back as the i-th literal, sign
   * and variable both.
   */
  lemma TermsReadBack(c: Clause, holes: int)
    requires holes >= 1
    ensures |Terms(c, holes)| == |c.pos| + |c.neg|
    ensures forall i :: 0 <= i < |c.pos| ==> ReadLiteral(Terms(c, holes)[i], holes) == Some((true, c.pos[i]))
    ensures forall j :: 0 <= j < |c.neg| ==> ReadLiteral(Terms(c, holes)[|c.pos| + j], holes) == Some((false, c.neg[j]))
  {
    var ps, ns := TermsOf(c.pos, "", holes), TermsOf(c.neg, "\U{00AC}", holes);
    assert Terms(c, holes) == ps + ns;
    PositiveTermsReadBack(c.pos, holes);
    NegativeTermsReadBack(c.neg, holes);
    ConcatReadBack(ps, ns, c.pos, c.neg, holes);
  }

  /** Terms that read back one by one still do so once the negated ones are placed after the positive ones. */
  lemma ConcatReadBack(ps: seq<string>, ns: seq<string>, pos: seq<int>, neg: seq<int>, holes: int)
    requires |ps| == |pos| && |ns| == |neg|
    requires forall i :: 0 <= i < |pos| ==> ReadLiteral(ps[i], holes) == Some((true, pos[i]))
    requires forall j :: 0 <= j < |neg| ==> ReadLiteral(ns[j], holes) == Some((false, neg[j]))
    ensures forall i :: 0 <= i < |pos| ==> ReadLiteral((ps + ns)[i], holes) == Some((true, pos[i]))
    ensures forall j :: 0 <= j < |neg| ==> ReadLiteral((ps + ns)[|pos| + j], holes) == Some((false, neg[j]))
  {
    forall i | 0 <= i < |pos| ensures ReadLiteral((ps + ns)[i], holes) == Some((true, pos[i])) {
      assert (ps + ns)[i] == ps[i];
    }
    forall j | 0 <= j < |neg| ensures ReadLiteral((ps + ns)[|pos| + j], holes) == Some((false, neg[j])) {
      assert (ps + ns)[|pos| + j] == ns[j];
    }
  }

  lemma PositiveTermsReadBack(vs: seq<int>, holes: int)
    requires holes >= 1
    ensures |TermsOf(vs, "", holes)| == |vs|
    ensures forall i :: 0 <= i < |vs| ==> ReadLiteral(TermsOf(vs, "", holes)[i], holes) == Some((true, vs[i]))
  {
    forall i | 0 <= i < |vs| ensures ReadLiteral(TermsOf(vs, "", holes)[i], holes) == Some((true, vs[i])) {
      assert TermsOf(vs, "", holes)[i] == VarToPh(vs[i], holes).value;
      ReadPositive(vs[i], holes);
    }
  }

  lemma NegativeTermsReadBack(vs: seq<int>, holes: int)
    requires holes >= 1
    ensures |TermsOf(vs, "\U{00AC}", holes)| == |vs|
    ensures forall i :: 0 <= i < |vs| ==> ReadLiteral(TermsOf(vs, "\U{00AC}", holes)[i], holes) == Some((false, vs[i]))
  {
    forall i | 0 <= i < |vs| ensures ReadLiteral(TermsOf(vs, "\U{00AC}", holes)[i], holes) == Some((false, vs[i])) {
      ReadNegative(vs[i], holes);
    }
  }

  lemma ReadPositive(v: int, holes: int)
    requires holes >= 1
    ensures ReadLiteral(VarToPh(v, holes).value, holes) == Some((true, v))
  {
    TermRoundTrip(v, holes);
    EncodeDecode(v, 0, holes);
    assert VarToPh(v, holes).value[0] == 'x';
  }

  lemma ReadNegative(v: int, holes: int)
    requires holes >= 1
    ensures ReadLiteral("\U{00AC}" + VarToPh(v, holes).value, holes) == Some((false, v))
  {
    TermRoundTrip(v, holes);
    EncodeDecode(v, 0, holes);
    assert ("\U{00AC}" + VarToPh(v, holes).value)[1..] == VarToPh(v, holes).value;
  }
}

/** FactorMarginalization: summing a set of variables out of a factor. */
module Marginalization {
  import opened Indexing
  import opened Scopes
  import opened Factors

  /** The sum of a value table. */
  function Sum(s: seq<real>): real
  {
    if |s| == 0 then 0.0 else Sum(s[..|s| - 1]) + s[|s| - 1]
  }

  /** The values of cells 0..n-1 whose target index is k, added up: what
      B.val[k] holds once cells 0..n-1 of A have been accumulated into it. */
  function Mass(vals: seq<real>, targets: seq<int>, k: int, n: nat): real
    requires n <= |vals| && n <= |targets|
  {
    if n == 0 then 0.0
    else Mass(vals, targets, k, n - 1) + (if targets[n - 1] == k then vals[n - 1] else 0.0)
  }

  /** The cardinalities of the kept variables in s, read from A (line 220). */
  function KeptCard(A: Factor, s: seq<int>): (c: seq<nat>)
    requires Valid(A) && SubScope(s, A.scope)
    ensures |c| == |s| && ValidCard(c) && Agrees(Positions(s, A.scope), A.card, c)
  {
    Project(A.card, Positions(s, A.scope))
  }

  /** The table of the factor over the kept variables s: each cell k adds up the
      values of A's cells whose assignment, restricted to s, has index k. */
  function MarginalTable(A: Factor, s: seq<int>): (t: seq<real>)
    requires Valid(A) && SubScope(s, A.scope)
    ensures |t| == Prod(KeptCard(A, s))
  {
    var m := Positions(s, A.scope);
    var c := KeptCard(A, s);
    var targets := ProjectedIndices(A.card, m, c);
    seq(Prod(c), k requires 0 <= k < Prod(c) => Mass(A.val, targets, k, |A.val|))
  }

  /** The marginal of A with the variables of V summed out. An empty factor or an
      empty V gives A back (lines 202-203); summing out every variable of A is an
      error (lines 215-217); otherwise the kept scope is A's variables not in V,
      in A's order. */
  function Marginal(A: Factor, V: seq<int>): (r: Result<Factor>)
    requires Valid(A)
    ensures r.Success? ==> Valid(r.value)
  {
    if |A.scope| == 0 || |V| == 0 then Success(A)
    else
      var s := Difference(A.scope, V);
      if |s| == 0 then Failure(EmptyResultScope)
      else Success(Factor(s, KeptCard(A, s), MarginalTable(A, s)))
  }

  /** FactorMarginalization(A, V), step by step: the kept scope, its positions in
      A's scope, the emptiness check, the kept cardinalities, the target index of
      every cell of A, and the accumulation of A's cells into a zero table. */
  method FactorMarginalization(A: Factor, V: seq<int>) returns (r: Result<Factor>)
    requires Valid(A)
    ensures r == Marginal(A, V)
  {
    if |A.scope| == 0 || |V| == 0 {
      return Success(A);
    }
    var bvar := Difference(A.scope, V);
    var mapB := IsMember(bvar, A.scope);
    if |bvar| == 0 {
      return Failure(EmptyResultScope);
    }
    var card := Project(A.card, mapB);
    var indxB := ProjectedIndices(A.card, mapB, card);
    var acc := Accumulate(A.val, indxB, Prod(card));
    assert acc == MarginalTable(A, bvar);
    r := Success(Factor(bvar, card, acc));
  }

  /** Accumulates every cell of vals into the cell its target names, starting from a
      zero table of K cells: B.val[indxB[i]] += A.val[i] for each i. */
  method Accumulate(vals: seq<real>, targets: seq<int>, K: nat) returns (acc: seq<real>)
    requires |targets| == |vals| && forall i :: 0 <= i < |targets| ==> 0 <= targets[i] < K
    ensures |acc| == K && forall k :: 0 <= k < K ==> acc[k] == Mass(vals, targets, k, |vals|)
  {
    var a := new real[K](_ => 0.0);
    for i := 0 to |vals|
      invariant forall k :: 0 <= k < K ==> a[k] == Mass(vals, targets, k, i)
    {
      a[targets[i]] := a[targets[i]] + vals[i];
    }
    acc := a[..];
  }

  // ---------------------------------------------------------------------------
  // Properties of the marginal

  /** Empty inputs give A back, and the marginal fails exactly when every variable
      of a non-empty A is summed out; the error is then an empty result scope. */
  lemma MarginalOutcome(A: Factor, V: seq<int>)
    requires Valid(A)
    ensures |A.scope| == 0 || |V| == 0 ==> Marginal(A, V) == Success(A)
    ensures Marginal(A, V).Failure? <==>
      |A.scope| > 0 && |V| > 0 && forall x :: x in A.scope ==> x in V
    ensures Marginal(A, V).Failure? ==> Marginal(A, V).error == EmptyResultScope
  {
    var s := Difference(A.scope, V);
    if |A.scope| > 0 && |V| > 0 && |s| > 0 {
      assert s[0] in A.scope && s[0] !in V;
    }
  }

  /** The kept scope holds exactly A's variables not in V, each with the cardinality
      it has in A, and the table has one cell per assignment of the kept scope. */
  lemma MarginalShape(A: Factor, V: seq<int>)
    requires Valid(A) && |A.scope| > 0 && |V| > 0
    requires Marginal(A, V).Success?
    ensures var B := Marginal(A, V).value;
      (forall x :: x in B.scope <==> x in A.scope && x !in V) &&
      Distinct(B.scope) && |B.card| == |B.scope| &&
      (forall i :: 0 <= i < |B.scope| ==> B.card[i] == A.card[IndexOf(A.scope, B.scope[i])]) &&
      |B.val| == Prod(B.card)
  {
  }

  /** The values of A's cells 0..n-1 whose assignment restricted through m is y. */
  function SumWhere(A: Factor, m: seq<nat>, c: seq<nat>, y: seq<int>, n: nat): real
    requires Valid(A) && Agrees(m, A.card, c) && n <= |A.val|
  {
    if n == 0 then 0.0
    else
      var x := AssignmentAt(n - 1, A.card);
      SumWhere(A, m, c, y, n - 1) + (if Project(x, m) == y then A.val[n - 1] else 0.0)
  }

  /** Cell i of A is accumulated into the cell of y exactly when row i of A's
      assignments, restricted through m, is y. */
  lemma TargetIff(A: Factor, m: seq<nat>, c: seq<nat>, y: seq<int>, i: nat)
    requires Valid(A) && Agrees(m, A.card, c) && ValidAssignment(y, c) && i < |A.val|
    ensures ProjectedIndices(A.card, m, c)[i] == AssignmentToIndex(y, c) - 1 <==>
      Project(AssignmentAt(i, A.card), m) == y
  {
    var p := Project(AssignmentAt(i, A.card), m);
    ProjectionValid(AssignmentAt(i, A.card), m, A.card, c);
    ProjectedIndexAt(A.card, m, c, i);
    if AssignmentToIndex(p, c) == AssignmentToIndex(y, c) {
      IndexInjective(p, y, c);
    }
  }

  /** Accumulating by target index adds up the cells whose restricted assignment is y. */
  lemma {:induction false} MassIsSumWhere(A: Factor, m: seq<nat>, c: seq<nat>, y: seq<int>, n: nat)
    requires Valid(A) && Agrees(m, A.card, c) && ValidAssignment(y, c) && n <= |A.val|
    ensures Mass(A.val, ProjectedIndices(A.card, m, c), AssignmentToIndex(y, c) - 1, n) ==
      SumWhere(A, m, c, y, n)
  {
    if n > 0 {
      MassIsSumWhere(A, m, c, y, n - 1);
      TargetIff(A, m, c, y, n - 1);
    }
  }

  /** The marginal's value at every assignment y of the kept scope is the sum of A's
      values over the assignments of A's scope that agree with y. */
  lemma MarginalValues(A: Factor, V: seq<int>, y: seq<int>)
    requires Valid(A) && |A.scope| > 0 && |V| > 0
    requires Marginal(A, V).Success?
    requires ValidAssignment(y, Marginal(A, V).value.card)
    ensures var B := Marginal(A, V).value;
      GetValueOfAssignment(B, y) ==
        SumWhere(A, Positions(B.scope, A.scope), B.card, y, |A.val|)
  {
    var s := Difference(A.scope, V);
    MassIsSumWhere(A, Positions(s, A.scope), KeptCard(A, s), y, |A.val|);
  }

  /** The sum over target cells 0..K-1 of what has been accumulated into them. */
  function Total(vals: seq<real>, targets: seq<int>, K: nat, n: nat): real
    requires n <= |vals| && n <= |targets|
  {
    if K == 0 then 0.0 else Total(vals, targets, K - 1, n) + Mass(vals, targets, K - 1, n)
  }

  /** Accumulating one more cell adds its value to the total when its target is
      one of the K cells. */
  lemma {:induction false} TotalStep(vals: seq<real>, targets: seq<int>, K: nat, n: nat)
    requires 0 < n <= |vals| && n <= |targets|
    ensures Total(vals, targets, K, n) ==
      Total(vals, targets, K, n - 1) + (if 0 <= targets[n - 1] < K then vals[n - 1] else 0.0)
  {
    if K > 0 {
      TotalStep(vals, targets, K - 1, n);
    }
  }

  /** When every target lies in 0..K-1, accumulation preserves the total. */
  lemma {:induction false} TotalIsSum(vals: seq<real>, targets: seq<int>, K: nat, n: nat)
    requires n <= |vals| && n <= |targets|
    requires forall i :: 0 <= i < n ==> 0 <= targets[i] < K
    ensures Total(vals, targets, K, n) == Sum(vals[..n])
  {
    if n == 0 {
      ZeroTotal(vals, targets, K);
    } else {
      TotalIsSum(vals, targets, K, n - 1);
      TotalStep(vals, targets, K, n);
      assert vals[..n][..n - 1] == vals[..n - 1];
    }
  }

  lemma {:induction false} ZeroTotal(vals: seq<real>, targets: seq<int>, K: nat)
    ensures Total(vals, targets, K, 0) == 0.0
  {
    if K > 0 {
      ZeroTotal(vals, targets, K - 1);
    }
  }

  /** The sum of the accumulated table is the total over its cells. */
  lemma {:induction false} SumOfCells(vals: seq<real>, targets: seq<int>, K: nat, n: nat)
    requires n <= |vals| && n <= |targets|
    ensures Sum(seq(K, k => Mass(vals, targets, k, n))) == Total(vals, targets, K, n)
  {
    if K > 0 {
      SumOfCells(vals, targets, K - 1, n);
      assert seq(K, k => Mass(vals, targets, k, n))[..K - 1] == seq(K - 1, k => Mass(vals, targets, k, n));
    }
  }

  /** Summing variables out preserves the total mass of the table. */
  lemma MarginalMass(A: Factor, V: seq<int>)
    requires Valid(A)
    requires Marginal(A, V).Success?
    ensures Sum(Marginal(A, V).value.val) == Sum(A.val)
  {
    if |A.scope| > 0 && |V| > 0 {
      var s := Difference(A.scope, V);
      var m := Positions(s, A.scope);
      var c := KeptCard(A, s);
      var targets := ProjectedIndices(A.card, m, c);
      var K := Prod(c);
      assert MarginalTable(A, s) == seq(K, k => Mass(A.val, targets, k, |A.val|));
      SumOfCells(A.val, targets, K, |A.val|);
      TotalIsSum(A.val, targets, K, |A.val|);
      assert A.val[..|A.val|] == A.val;
    }
  }

  /** Summing variable 2 out of a factor over variables 1 and 2 with cardinalities
      [2, 2] adds the cells that share the value of variable 1. */
  lemma MarginalExample()
    ensures Marginal(Factor([1, 2], [2, 2], [0.1, 0.2, 0.3, 0.4]), [2]) ==
      Success(Factor([1], [2], [0.4, 0.6]))
  {
    var A := Factor([1, 2], [2, 2], [0.1, 0.2, 0.3, 0.4]);
    ExampleKept(A);
    ExampleTargets();
    var t := MarginalTable(A, [1]);
    assert t[0] == 0.4 && t[1] == 0.6;
    assert t == [0.4, 0.6];
  }

  /** The scope, positions and cardinalities kept in the example. */
  lemma ExampleKept(A: Factor)
    requires A == Factor([1, 2], [2, 2], [0.1, 0.2, 0.3, 0.4])
    ensures Valid(A) && Difference(A.scope, [2]) == [1]
    ensures Positions([1], A.scope) == [0] && KeptCard(A, [1]) == [2] && Prod([2]) == 2
  {
    TwoByTwoRows();
    assert Difference([2], [2]) == [];
    assert [1, 2][1..] == [2];
    assert [2][..0] == [] && Prod([2]) == 2 * Prod([]);
  }

  /** Rows [1, 1], [2, 1], [1, 2], [2, 2] restricted to the first variable have
      indices 0, 1, 0, 1 over [2]. */
  lemma ExampleTargets()
    ensures Agrees([0], [2, 2], [2]) && ProjectedIndices([2, 2], [0], [2]) == [0, 1, 0, 1]
  {
    TwoByTwoRows();
    SingleIndex(1, 2);
    SingleIndex(2, 2);
    var idx := ProjectedIndices([2, 2], [0], [2]);
    forall r | 0 <= r < 4
      ensures idx[r] == [0, 1, 0, 1][r]
    {
      ProjectedIndexAt([2, 2], [0], [2], r);
      assert Project(AssignmentAt(r, [2, 2]), [0]) == [AssignmentAt(r, [2, 2])[0]];
    }
  }

  // ---------------------------------------------------------------------------
  // FactorMarginalization as written (lines 219-228)

  /** What lines 219-228 compute: the branches and the kept scope and cardinalities
      as above, but the table is the zero table of line 221, since the target
      indices of line 225 are computed and never used to accumulate into it. */
  function MarginalizationAsWritten(A: Factor, V: seq<int>): (r: Result<Factor>)
    requires Valid(A)
    ensures r.Success? ==> Valid(r.value)
  {
    if |A.scope| == 0 || |V| == 0 then Success(A)
    else
      var s := Difference(A.scope, V);
      if |s| == 0 then Failure(EmptyResultScope)
      else
        var c := KeptCard(A, s);
        Success(Factor(s, c, seq(Prod(c), _ => 0.0)))
  }

  lemma {:induction false} ZeroSum(n: nat)
    ensures Sum(seq(n, _ => 0.0)) == 0.0
  {
    if n > 0 {
      ZeroSum(n - 1);
      assert seq(n, _ => 0.0)[..n - 1] == seq(n - 1, _ => 0.0);
    }
  }

  /** As written, a marginal that sums variables out has total mass zero, while the
      marginal keeps the mass of A: the two differ whenever A's mass is not zero. */
  lemma AsWrittenLosesMass(A: Factor, V: seq<int>)
    requires Valid(A) && |A.scope| > 0 && |V| > 0
    requires MarginalizationAsWritten(A, V).Success?
    ensures Sum(MarginalizationAsWritten(A, V).value.val) == 0.0
    ensures Marginal(A, V).Success? && Sum(Marginal(A, V).value.val) == Sum(A.val)
  {
    var s := Difference(A.scope, V);
    ZeroSum(Prod(KeptCard(A, s)));
    MarginalMass(A, V);
  }

  /** On the example the table as written is [0.0, 0.0] instead of [0.4, 0.6]. */
  lemma AsWrittenExample()
    ensures MarginalizationAsWritten(Factor([1, 2], [2, 2], [0.1, 0.2, 0.3, 0.4]), [2]) ==
      Success(Factor([1], [2], [0.0, 0.0]))
  {
    var A := Factor([1, 2], [2, 2], [0.1, 0.2, 0.3, 0.4]);
    ExampleKept(A);
    assert seq(2, _ => 0.0) == [0.0, 0.0];
  }
}

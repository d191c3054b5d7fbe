/** Mixed-radix conversion between the linear index of a factor's value table and
    the assignment vector it stands for (IndexToAssignment and AssignmentToIndex).
    Assignments and indices are 1-based, as in the source: with strides
    stride[0] = 1 and stride[k] = stride[k-1] * D[k-1], the index of assignment a
    is 1 + sum_k (a[k] - 1) * stride[k]. */
module Indexing {

  /** Product of the cardinalities (np.prod); the empty product is 1. */
  function Prod(d: seq<nat>): nat
  {
    if |d| == 0 then 1 else d[0] * Prod(d[1..])
  }

  /** Every variable takes at least one value. */
  predicate ValidCard(d: seq<nat>)
  {
    forall k :: 0 <= k < |d| ==> d[k] >= 1
  }

  /** One value per variable, each within 1..D[k]. */
  predicate ValidAssignment(a: seq<int>, d: seq<nat>)
  {
    |a| == |d| && forall k {:trigger a[k]} :: 0 <= k < |d| ==> 1 <= a[k] <= d[k]
  }

  /** stride[k], the k-th entry of cumprod([1] + D[:-1]). */
  function Stride(d: seq<nat>, k: nat): nat
    requires k <= |d|
  {
    Prod(d[..k])
  }

  /** The sum over positions k..|a|-1 of (a[k] - 1) * stride[k]. */
  function WeightedSum(a: seq<int>, d: seq<nat>, k: nat): int
    requires |a| == |d| && k <= |a|
    decreases |a| - k
  {
    if k == |a| then 0 else (a[k] - 1) * Stride(d, k) + WeightedSum(a, d, k + 1)
  }

  /** The index of one assignment row: 1 + sum_k (a[k] - 1) * stride[k]. */
  function AssignmentToIndex(a: seq<int>, d: seq<nat>): (r: int)
    requires |a| == |d|
    ensures ValidAssignment(a, d) ==> 1 <= r <= Prod(d)
  {
    WeightedSumIsHorner(a, d, 0);
    EncodeBounds(a, d);
    1 + WeightedSum(a, d, 0)
  }

  /** A matrix of assignments is converted row by row. */
  function AssignmentsToIndices(rows: seq<seq<int>>, d: seq<nat>): (idx: seq<int>)
    requires forall r :: 0 <= r < |rows| ==> |rows[r]| == |d|
    ensures |idx| == |rows|
    ensures forall r :: 0 <= r < |rows| && ValidAssignment(rows[r], d) ==> 1 <= idx[r] <= Prod(d)
  {
    seq(|rows|, r requires 0 <= r < |rows| => AssignmentToIndex(rows[r], d))
  }

  /** Row j (0-based) of IndexToAssignment: entry k is floor(j / stride[k]) mod D[k] + 1. */
  function AssignmentAt(j: nat, d: seq<nat>): (a: seq<int>)
    requires ValidCard(d)
    ensures ValidAssignment(a, d)
  {
    StridesPositive(d);
    seq(|d|, k requires 0 <= k < |d| => (j / Stride(d, k)) % d[k] + 1)
  }

  /** All Prod(D) assignments, one per row, row j being the assignment of index j + 1. */
  function IndexToAssignment(d: seq<nat>): (rows: seq<seq<int>>)
    requires ValidCard(d)
    ensures |rows| == Prod(d)
    ensures forall j :: 0 <= j < |rows| ==>
      ValidAssignment(rows[j], d) && AssignmentToIndex(rows[j], d) == j + 1
  {
    EncodeDecodeAll(d);
    seq(Prod(d), j requires 0 <= j < Prod(d) => AssignmentAt(j, d))
  }

  // ---------------------------------------------------------------------------
  // Properties of the encoding

  /** The strides are cumprod([1] + D[:-1]): 1, then each the previous times a cardinality. */
  lemma StrideRecurrence(d: seq<nat>, k: nat)
    requires k < |d|
    ensures Stride(d, 0) == 1
    ensures Stride(d, k + 1) == Stride(d, k) * d[k]
  {
    assert d[..k + 1] == d[..k] + [d[k]];
    ProdSnoc(d[..k], d[k]);
  }

  /** A valid cardinality vector has a non-empty table. */
  lemma {:induction false} ProdPositive(d: seq<nat>)
    requires ValidCard(d)
    ensures Prod(d) >= 1
  {
    if |d| > 0 {
      ProdPositive(d[1..]);
    }
  }

  /** Encoding row j of IndexToAssignment gives back index j + 1. */
  lemma EncodeDecode(j: nat, d: seq<nat>)
    requires ValidCard(d) && j < Prod(d)
    ensures AssignmentToIndex(AssignmentAt(j, d), d) == j + 1
  {
    var a := AssignmentAt(j, d);
    AssignmentAtIsDecode(j, d);
    WeightedSumIsHorner(a, d, 0);
    EncodeOfDecode(j, d);
  }

  lemma EncodeDecodeAll(d: seq<nat>)
    requires ValidCard(d)
    ensures forall j: nat :: j < Prod(d) ==> AssignmentToIndex(AssignmentAt(j, d), d) == j + 1
  {
    forall j: nat | j < Prod(d)
      ensures AssignmentToIndex(AssignmentAt(j, d), d) == j + 1
    {
      EncodeDecode(j, d);
    }
  }

  /** Decoding the index of a valid assignment gives the assignment back. */
  lemma DecodeEncode(a: seq<int>, d: seq<nat>)
    requires ValidAssignment(a, d)
    ensures ValidCard(d)
    ensures AssignmentAt(AssignmentToIndex(a, d) - 1, d) == a
  {
    AssignmentCard(a, d);
    var j := AssignmentToIndex(a, d) - 1;
    WeightedSumIsHorner(a, d, 0);
    EncodeBounds(a, d);
    AssignmentAtIsDecode(j, d);
    DecodeOfEncode(a, d);
  }

  /** A valid assignment exists only for cardinalities that are all at least one. */
  lemma AssignmentCard(a: seq<int>, d: seq<nat>)
    requires ValidAssignment(a, d)
    ensures ValidCard(d)
  {
    forall k | 0 <= k < |d|
      ensures d[k] >= 1
    {
      assert 1 <= a[k];
    }
  }

  /** Two valid assignments with the same index are equal. */
  lemma IndexInjective(a: seq<int>, b: seq<int>, d: seq<nat>)
    requires ValidAssignment(a, d) && ValidAssignment(b, d)
    requires AssignmentToIndex(a, d) == AssignmentToIndex(b, d)
    ensures a == b
  {
    DecodeEncode(a, d);
    DecodeEncode(b, d);
  }

  /** Encoding every row of IndexToAssignment(D) gives the indices 1..Prod(D) in order. */
  lemma MatrixRoundTrip(d: seq<nat>)
    requires ValidCard(d)
    ensures AssignmentsToIndices(IndexToAssignment(d), d) == seq(Prod(d), j => j + 1)
  {
  }

  // ---------------------------------------------------------------------------
  // Horner form of the encoding, used to prove the round trips

  /** Horner form of the offset: (a[0] - 1) + D[0] * (offset of the rest). */
  function Encode(a: seq<int>, d: seq<nat>): int
    requires |a| == |d|
  {
    if |a| == 0 then 0 else (a[0] - 1) + d[0] * Encode(a[1..], d[1..])
  }

  /** Digit-by-digit decoding of a 0-based offset. */
  function Decode(j: nat, d: seq<nat>): (a: seq<int>)
    requires ValidCard(d)
    ensures |a| == |d|
    decreases |d|
  {
    if |d| == 0 then [] else [j % d[0] + 1] + Decode(j / d[0], d[1..])
  }

  lemma {:induction false} ProdSnoc(s: seq<nat>, x: nat)
    ensures Prod(s + [x]) == Prod(s) * x
  {
    if |s| > 0 {
      assert (s + [x])[1..] == s[1..] + [x];
      ProdSnoc(s[1..], x);
    }
  }

  lemma StridesPositive(d: seq<nat>)
    requires ValidCard(d)
    ensures forall k :: 0 <= k <= |d| ==> Stride(d, k) >= 1
  {
    forall k | 0 <= k <= |d|
      ensures Stride(d, k) >= 1
    {
      ProdPositive(d[..k]);
    }
  }

  /** stride[k] of D is D[0] times stride[k-1] of D[1..]. */
  lemma StrideTail(d: seq<nat>, k: nat)
    requires 1 <= k <= |d|
    ensures Stride(d, k) == d[0] * Stride(d[1..], k - 1)
  {
    assert d[..k][1..] == d[1..][..k - 1];
  }

  lemma {:induction false} WeightedSumIsHorner(a: seq<int>, d: seq<nat>, k: nat)
    requires |a| == |d| && k <= |a|
    ensures WeightedSum(a, d, k) == Stride(d, k) * Encode(a[k..], d[k..])
    decreases |a| - k
  {
    if k < |a| {
      WeightedSumIsHorner(a, d, k + 1);
      StrideRecurrence(d, k);
      assert a[k..][1..] == a[k + 1..];
      assert d[k..][1..] == d[k + 1..];
      var s, e := Stride(d, k), Encode(a[k + 1..], d[k + 1..]);
      calc {
        WeightedSum(a, d, k);
        (a[k] - 1) * s + (s * d[k]) * e;
        { MulAssoc(s, d[k], e); }
        (a[k] - 1) * s + s * (d[k] * e);
        s * ((a[k] - 1) + d[k] * e);
        s * Encode(a[k..], d[k..]);
      }
    } else {
      assert a[k..] == [];
    }
    if k == 0 {
      assert a[0..] == a && d[0..] == d;
    }
  }

  lemma MulAssoc(x: int, y: int, z: int)
    ensures (x * y) * z == x * (y * z)
  {
  }

  lemma DivModUnique(x: int, q: int, r: int, n: int)
    requires n > 0 && 0 <= r < n && x == q * n + r
    ensures x / n == q && x % n == r
  {
    var q', r' := x / n, x % n;
    assert x == q' * n + r';
    if q > q' {
      MulStep(q', q, n);
      assert false;
    } else if q < q' {
      MulStep(q, q', n);
      assert false;
    }
  }

  /** A larger multiplier adds at least one more n. */
  lemma MulStep(p: int, q: int, n: int)
    requires p < q && n > 0
    ensures p * n + n <= q * n
  {
    var k := q - p - 1;
    assert q * n == (p + 1) * n + k * n;
    assert k * n >= 0;
  }

  lemma MulMonotone(x: int, y: int, n: int)
    requires 0 <= x <= y && n >= 0
    ensures x * n <= y * n
  {
  }

  lemma DivDiv(j: nat, a: nat, b: nat)
    requires a > 0 && b > 0
    ensures (j / a) / b == j / (a * b)
  {
    var q1, r1 := j / a, j % a;
    var q2, r2 := q1 / b, q1 % b;
    assert j == q1 * a + r1;
    assert q1 == q2 * b + r2;
    MulMonotone(r2, b - 1, a);
    assert a * r2 + r1 < a * b;
    calc {
      j;
      (q2 * b + r2) * a + r1;
      q2 * (a * b) + (a * r2 + r1);
    }
    DivModUnique(j, q2, a * r2 + r1, a * b);
  }

  lemma {:induction false} AssignmentAtIsDecode(j: nat, d: seq<nat>)
    requires ValidCard(d)
    ensures AssignmentAt(j, d) == Decode(j, d)
  {
    forall k | 0 <= k < |d|
      ensures AssignmentAt(j, d)[k] == Decode(j, d)[k]
    {
      DigitAt(j, d, k);
    }
  }

  lemma {:induction false} DigitAt(j: nat, d: seq<nat>, k: nat)
    requires ValidCard(d) && k < |d|
    ensures Stride(d, k) >= 1
    ensures Decode(j, d)[k] == (j / Stride(d, k)) % d[k] + 1
    decreases k
  {
    if k == 0 {
      FirstDigit(j, d);
    } else {
      var t := d[1..];
      var q := j / d[0];
      DecodeTail(j, d, k);
      DigitAt(q, t, k - 1);
      DivStride(j, d, k);
      assert t[k - 1] == d[k];
      SameDigit(Decode(j, d)[k], q, Stride(t, k - 1), j, Stride(d, k), d[k]);
    }
  }

  lemma FirstDigit(j: nat, d: seq<nat>)
    requires ValidCard(d) && 0 < |d|
    ensures Stride(d, 0) == 1
    ensures Decode(j, d)[0] == (j / Stride(d, 0)) % d[0] + 1
  {
    assert d[..0] == [];
  }

  /** Equal quotients give equal digits. */
  lemma SameDigit(a: int, q: nat, s: nat, j: nat, S: nat, c: nat)
    requires s > 0 && S > 0 && c > 0 && a == (q / s) % c + 1 && q / s == j / S
    ensures a == (j / S) % c + 1
  {
  }

  lemma DecodeTail(j: nat, d: seq<nat>, k: nat)
    requires ValidCard(d) && 1 <= k < |d|
    ensures ValidCard(d[1..])
    ensures Decode(j, d)[k] == Decode(j / d[0], d[1..])[k - 1]
  {
  }

  lemma DivStride(j: nat, d: seq<nat>, k: nat)
    requires ValidCard(d) && 1 <= k <= |d|
    ensures ValidCard(d[1..]) && Stride(d[1..], k - 1) >= 1 && Stride(d, k) >= 1
    ensures (j / d[0]) / Stride(d[1..], k - 1) == j / Stride(d, k)
  {
    StridesPositive(d[1..]);
    StrideTail(d, k);
    DivDiv(j, d[0], Stride(d[1..], k - 1));
  }

  lemma {:induction false} EncodeBounds(a: seq<int>, d: seq<nat>)
    requires |a| == |d|
    ensures ValidAssignment(a, d) ==> 0 <= Encode(a, d) < Prod(d)
  {
    if |a| > 0 && ValidAssignment(a, d) {
      var e := Encode(a[1..], d[1..]);
      assert ValidAssignment(a[1..], d[1..]);
      EncodeBounds(a[1..], d[1..]);
      MulMonotone(e, Prod(d[1..]) - 1, d[0]);
    }
  }

  lemma {:induction false} EncodeOfDecode(j: nat, d: seq<nat>)
    requires ValidCard(d) && j < Prod(d)
    ensures Encode(Decode(j, d), d) == j
    decreases |d|
  {
    if |d| > 0 {
      var t := d[1..];
      var q := j / d[0];
      QuotientBound(j, d[0], Prod(t));
      EncodeOfDecode(q, t);
      assert Decode(j, d)[1..] == Decode(q, t);
      DivModSplit(j, d[0], Encode(Decode(q, t), t), q);
    }
  }

  /** A number below c * p has quotient below p when divided by c. */
  lemma QuotientBound(j: nat, c: nat, p: nat)
    requires c > 0 && j < c * p
    ensures j / c < p
  {
    if j / c >= p {
      MulMonotone(p, j / c, c);
      assert false;
    }
  }

  /** j is its remainder plus c times its quotient. */
  lemma DivModSplit(j: nat, c: nat, e: int, q: int)
    requires c > 0 && q == j / c && e == q
    ensures j % c + c * e == j
  {
  }

  lemma {:induction false} DecodeOfEncode(a: seq<int>, d: seq<nat>)
    requires ValidAssignment(a, d)
    ensures ValidCard(d)
    ensures 0 <= Encode(a, d) && Decode(Encode(a, d), d) == a
  {
    EncodeBounds(a, d);
    if |a| > 0 {
      var e := Encode(a[1..], d[1..]);
      assert ValidAssignment(a[1..], d[1..]);
      EncodeBounds(a[1..], d[1..]);
      DivModUnique(Encode(a, d), e, a[0] - 1, d[0]);
      DecodeOfEncode(a[1..], d[1..]);
    }
  }

  /** The four rows of IndexToAssignment([2, 2]): the first variable varies fastest. */
  lemma TwoByTwoRows()
    ensures ValidCard([2, 2]) && Prod([2, 2]) == 4
    ensures AssignmentAt(0, [2, 2]) == [1, 1] && AssignmentAt(1, [2, 2]) == [2, 1]
    ensures AssignmentAt(2, [2, 2]) == [1, 2] && AssignmentAt(3, [2, 2]) == [2, 2]
  {
    assert Stride([2, 2], 0) == 1 by { assert [2, 2][..0] == []; }
    assert Stride([2, 2], 1) == 2 by { assert [2, 2][..1] == [2]; assert Prod([2]) == 2 * Prod([]); }
    assert Prod([2, 2]) == 2 * Prod([2]) by { assert [2, 2][1..] == [2]; }
  }

  /** Over a single variable the index of value v is v. */
  lemma SingleIndex(v: int, c: nat)
    requires 1 <= v <= c
    ensures AssignmentToIndex([v], [c]) == v
  {
    assert Stride([c], 0) == 1 by { assert [c][..0] == []; }
    assert WeightedSum([v], [c], 1) == 0;
    assert WeightedSum([v], [c], 0) == (v - 1) * Stride([c], 0) + WeightedSum([v], [c], 1);
  }

  // ---------------------------------------------------------------------------
  // The single-row path of AssignmentToIndex as written (lines 48-60)

  /** What lines 48-60 compute for an assignment given as one row a over
      cardinalities d: the strides form a 1 x n array and the flattened assignment
      an n x 1 column, so their product broadcasts to the n x n table whose entry
      (i, k) is Stride(d, k) * (a[i] - 1) + 1, not one index. */
  function SingleRowIndexAsWritten(a: seq<int>, d: seq<nat>): (t: seq<seq<int>>)
    requires |a| == |d|
    ensures |t| == |a| && forall i :: 0 <= i < |t| ==> |t[i]| == |d|
  {
    seq(|a|, i requires 0 <= i < |a| =>
      seq(|d|, k requires 0 <= k < |d| => Stride(d, k) * (a[i] - 1) + 1))
  }

  /** For the row [1, 2] over [2, 2] the single-row path gives [[1, 1], [2, 3]],
      while the index of that assignment is 3. */
  lemma SingleRowAsWrittenDiffers()
    ensures SingleRowIndexAsWritten([1, 2], [2, 2]) == [[1, 1], [2, 3]]
    ensures AssignmentToIndex([1, 2], [2, 2]) == 3
  {
    assert Stride([2, 2], 0) == 1 by { assert [2, 2][..0] == []; }
    assert Stride([2, 2], 1) == 2 by { assert [2, 2][..1] == [2]; assert Prod([2]) == 2 * Prod([]); }
    var t := SingleRowIndexAsWritten([1, 2], [2, 2]);
    assert t[0] == [1, 1];
    assert t[1] == [2, 3];
    assert WeightedSum([1, 2], [2, 2], 2) == 0;
    assert WeightedSum([1, 2], [2, 2], 1) == 2;
  }

  /** Over a single variable the single-row path agrees with the index. */
  lemma SingleRowAsWrittenOneVariable(v: int, c: nat)
    requires 1 <= v <= c
    ensures SingleRowIndexAsWritten([v], [c]) == [[AssignmentToIndex([v], [c])]]
  {
    SingleIndex(v, c);
    assert Stride([c], 0) == 1 by { assert [c][..0] == []; }
    assert SingleRowIndexAsWritten([v], [c])[0] == [v];
  }
}

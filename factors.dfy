/** The dense discrete factor and its single-cell accessors
    (GetValueOfAssignment and SetValueOfAssignment). */
module Factors {
  import opened Indexing
  import opened Scopes

  /** A factor over an ordered scope of variable ids, with one cardinality per
      variable and a value table of Prod(card) cells in index order. */
  datatype Factor = Factor(scope: seq<int>, card: seq<nat>, val: seq<real>)

  /** The ways an operation on factors can fail. */
  datatype Error =
    | DimensionalityMismatch  // shared variables with different cardinalities
    | EmptyResultScope        // marginalization would sum out every variable
    | IndexOutOfRange         // a write past the end of a table (Python's IndexError)

  datatype Result<T> = Success(value: T) | Failure(error: Error)

  /** The factor invariant: one cardinality per variable, each at least one, no
      repeated variable, and a value table of Prod(card) cells. */
  predicate Valid(f: Factor)
  {
    |f.card| == |f.scope| && ValidCard(f.card) && Distinct(f.scope) && |f.val| == Prod(f.card)
  }

  /** The value of assignment a: F.val[AssignmentToIndex(a, F.card) - 1]. */
  function GetValueOfAssignment(f: Factor, a: seq<int>): real
    requires Valid(f) && ValidAssignment(a, f.card)
  {
    f.val[AssignmentToIndex(a, f.card) - 1]
  }

  /** The value of assignment a is cell i of the table when i is a's 0-based index. */
  lemma GetValueAt(f: Factor, a: seq<int>, i: int)
    requires Valid(f) && ValidAssignment(a, f.card) && i == AssignmentToIndex(a, f.card) - 1
    ensures 0 <= i < |f.val| && GetValueOfAssignment(f, a) == f.val[i]
  {
  }

  /** The value of assignment a is the cell whose row of IndexToAssignment(card) is
      a: there is such a cell, and every such cell holds that value. */
  lemma GetValueMeaning(f: Factor, a: seq<int>)
    requires Valid(f) && ValidAssignment(a, f.card)
    ensures exists j :: 0 <= j < |f.val| && AssignmentAt(j, f.card) == a && GetValueOfAssignment(f, a) == f.val[j]
    ensures forall j :: 0 <= j < |f.val| && AssignmentAt(j, f.card) == a ==> GetValueOfAssignment(f, a) == f.val[j]
  {
    DecodeEncode(a, f.card);
    EncodeDecodeAll(f.card);
  }

  /** Sets the value of assignment a to v and keeps every other cell, as the
      documentation of SetValueOfAssignment describes. */
  method SetValueOfAssignment(f: Factor, a: seq<int>, v: real) returns (g: Factor)
    requires Valid(f) && ValidAssignment(a, f.card)
    ensures Valid(g) && g.scope == f.scope && g.card == f.card
    ensures GetValueOfAssignment(g, a) == v
    ensures forall b :: ValidAssignment(b, f.card) && b != a ==> GetValueOfAssignment(g, b) == GetValueOfAssignment(f, b)
  {
    var indx := AssignmentToIndex(a, f.card);
    var cells := new real[|f.val|](i requires 0 <= i < |f.val| => f.val[i]);
    cells[indx - 1] := v;
    g := Factor(f.scope, f.card, cells[..]);
    forall b | ValidAssignment(b, f.card) && b != a
      ensures GetValueOfAssignment(g, b) == GetValueOfAssignment(f, b)
    {
      if AssignmentToIndex(b, f.card) == indx {
        IndexInjective(a, b, f.card);
      }
    }
  }

  /** SetValueOfAssignment as written (lines 98-101) for one assignment row: the new
      table is np.zeros(len(A)), one cell per row of the assignment matrix, so it has
      a single cell, and writing cell indx - 1 raises an IndexError unless indx is 1. */
  function SetValueAsWritten(f: Factor, a: seq<int>, v: real): (r: Result<Factor>)
    requires Valid(f) && ValidAssignment(a, f.card)
    ensures r.Success? <==> AssignmentToIndex(a, f.card) == 1
    ensures r.Success? ==> r.value.scope == f.scope && r.value.card == f.card && |r.value.val| == 1
  {
    var rows := 1;
    var indx := AssignmentToIndex(a, f.card);
    if indx - 1 < rows then Success(Factor(f.scope, f.card, seq(rows, _ => v)))
    else Failure(IndexOutOfRange)
  }

  /** Unless the factor has a single cell, the as-written update never leaves a valid
      factor: it either fails or shrinks the table to one cell. */
  lemma SetValueAsWrittenBreaks(f: Factor, a: seq<int>, v: real)
    requires Valid(f) && ValidAssignment(a, f.card) && |f.val| > 1
    ensures SetValueAsWritten(f, a, v).Failure? || !Valid(SetValueAsWritten(f, a, v).value)
  {
  }

  /** On the 2x2 factor over [1, 2], setting assignment [2, 1] fails, while setting
      [1, 1] gives a one-cell table; the corrected update keeps the other three cells. */
  lemma SetValueAsWrittenExample()
    ensures SetValueAsWritten(Factor([1, 2], [2, 2], [0.1, 0.2, 0.3, 0.4]), [2, 1], 0.5) == Failure(IndexOutOfRange)
    ensures SetValueAsWritten(Factor([1, 2], [2, 2], [0.1, 0.2, 0.3, 0.4]), [1, 1], 0.5) == Success(Factor([1, 2], [2, 2], [0.5]))
  {
    var f := Factor([1, 2], [2, 2], [0.1, 0.2, 0.3, 0.4]);
    TwoByTwoRows();
    EncodeDecode(1, [2, 2]);
    EncodeDecode(0, [2, 2]);
    SetValueAsWrittenAt(f, [2, 1], 0.5, 2);
    SetValueAsWrittenAt(f, [1, 1], 0.5, 1);
  }

  /** The as-written update, given the index of a. */
  lemma SetValueAsWrittenAt(f: Factor, a: seq<int>, v: real, indx: int)
    requires Valid(f) && ValidAssignment(a, f.card) && indx == AssignmentToIndex(a, f.card)
    ensures SetValueAsWritten(f, a, v) == if indx == 1 then Success(Factor(f.scope, f.card, [v])) else Failure(IndexOutOfRange)
  {
    if indx == 1 {
      assert seq(1, _ => v) == [v];
    }
  }

  /** m places a scope with cardinalities d inside a scope with cardinalities c:
      c[m[i]] == d[i] for every i. */
  predicate Agrees(m: seq<nat>, c: seq<nat>, d: seq<nat>)
  {
    |m| == |d| && forall i {:trigger m[i]} :: 0 <= i < |m| ==> m[i] < |c| && c[m[i]] == d[i]
  }

  /** Projecting a valid assignment through an agreeing position map gives a valid
      assignment of the target scope. */
  lemma ProjectionValid(x: seq<int>, m: seq<nat>, c: seq<nat>, d: seq<nat>)
    requires ValidAssignment(x, c) && Agrees(m, c, d)
    ensures ValidAssignment(Project(x, m), d)
  {
  }

  /** For every row of IndexToAssignment(c), the 0-based index into a table over d of
      its projection through m: AssignmentToIndex(assignments[:, m], d) - 1. */
  function ProjectedIndices(c: seq<nat>, m: seq<nat>, d: seq<nat>): (idx: seq<int>)
    requires ValidCard(c) && Agrees(m, c, d)
    ensures |idx| == Prod(c) && forall r :: 0 <= r < |idx| ==> 0 <= idx[r] < Prod(d)
  {
    var rows := IndexToAssignment(c);
    var projected := seq(|rows|, r requires 0 <= r < |rows| =>
      assert ValidAssignment(rows[r], c); Project(rows[r], m));
    assert forall r :: 0 <= r < |rows| ==> ValidAssignment(projected[r], d) by {
      forall r | 0 <= r < |rows| ensures ValidAssignment(projected[r], d) {
        ProjectionValid(rows[r], m, c, d);
      }
    }
    var one := AssignmentsToIndices(projected, d);
    seq(|one|, r requires 0 <= r < |one| => one[r] - 1)
  }

  lemma ProjectedIndexAt(c: seq<nat>, m: seq<nat>, d: seq<nat>, r: nat)
    requires ValidCard(c) && Agrees(m, c, d) && r < Prod(c)
    ensures ProjectedIndices(c, m, d)[r] == AssignmentToIndex(Project(AssignmentAt(r, c), m), d) - 1
  {
  }
}

/** FactorProduct: the pointwise product of two factors over the union of their scopes. */
module Products {
  import opened Indexing
  import opened Scopes
  import opened Factors

  /** Every variable the two factors share has the same cardinality in both. */
  predicate Compatible(A: Factor, B: Factor)
    requires |A.card| == |A.scope| && |B.card| == |B.scope|
  {
    forall i, k :: 0 <= i < |A.scope| && 0 <= k < |B.scope| && A.scope[i] == B.scope[k] ==>
      A.card[i] == B.card[k]
  }

  /** The cardinality of x, taken from whichever factor holds it (A first). */
  function CardOf(A: Factor, B: Factor, x: int): nat
    requires Valid(A) && Valid(B) && (x in A.scope || x in B.scope)
  {
    if x in A.scope then A.card[IndexOf(A.scope, x)] else B.card[IndexOf(B.scope, x)]
  }

  /** The cardinality vector of the product, in the order of Union(A.scope, B.scope). */
  function ProductCard(A: Factor, B: Factor): (card: seq<nat>)
    requires Valid(A) && Valid(B)
    ensures |card| == |Union(A.scope, B.scope)| && ValidCard(card)
  {
    var s := Union(A.scope, B.scope);
    var card := seq(|s|, p requires 0 <= p < |s| => UnionMember(A.scope, B.scope, p); CardOf(A, B, s[p]));
    assert ValidCard(card) by {
      forall p | 0 <= p < |card|
        ensures card[p] >= 1
      {
        UnionMember(A.scope, B.scope, p);
        CardOfPositive(A, B, s[p]);
      }
    }
    card
  }

  lemma UnionMember(a: seq<int>, b: seq<int>, p: nat)
    requires p < |Union(a, b)|
    ensures Union(a, b)[p] in a || Union(a, b)[p] in b
  {
    assert Union(a, b)[p] in Union(a, b);
  }

  lemma CardOfPositive(A: Factor, B: Factor, x: int)
    requires Valid(A) && Valid(B) && (x in A.scope || x in B.scope)
    ensures CardOf(A, B, x) >= 1
  {
  }

  /** The combined factor of two compatible, non-empty factors (lines 163-181). */
  function Combine(A: Factor, B: Factor): (C: Factor)
    requires Valid(A) && Valid(B) && Compatible(A, B)
    ensures Valid(C)
  {
    var scope := Union(A.scope, B.scope);
    var card := ProductCard(A, B);
    CardAgrees(A, B);
    Factor(scope, card, ProductTable(A, B, card, Positions(A.scope, scope), Positions(B.scope, scope)))
  }

  /** The value table of the product over cardinalities card, where mapA and mapB
      place A's and B's variables: the cell of assignment x holds A's value at x's
      projection onto A's scope times B's value at x's projection onto B's scope. */
  function ProductTable(A: Factor, B: Factor, card: seq<nat>, mapA: seq<nat>, mapB: seq<nat>): (t: seq<real>)
    requires Valid(A) && Valid(B) && ValidCard(card)
    requires Agrees(mapA, card, A.card) && Agrees(mapB, card, B.card)
    ensures |t| == Prod(card)
  {
    seq(Prod(card), j requires 0 <= j < Prod(card) =>
      var x := AssignmentAt(j, card);
      ProjectionValid(x, mapA, card, A.card);
      ProjectionValid(x, mapB, card, B.card);
      Times(GetValueOfAssignment(A, Project(x, mapA)), GetValueOfAssignment(B, Project(x, mapB))))
  }

  /** The product of two factor values. It is a function of its own so that proofs
      about table cells compare products as terms and never reason about real
      multiplication. */
  function Times(u: real, w: real): real
  {
    u * w
  }

  /** The table holds, at the index of every assignment x of card, A's value at x's
      projection times B's value at x's projection. */
  lemma ProductTableAt(A: Factor, B: Factor, card: seq<nat>, mapA: seq<nat>, mapB: seq<nat>, x: seq<int>)
    requires Valid(A) && Valid(B) && ValidCard(card)
    requires Agrees(mapA, card, A.card) && Agrees(mapB, card, B.card)
    requires ValidAssignment(x, card)
    ensures ValidAssignment(Project(x, mapA), A.card) && ValidAssignment(Project(x, mapB), B.card)
    ensures ProductTable(A, B, card, mapA, mapB)[AssignmentToIndex(x, card) - 1] ==
      Times(GetValueOfAssignment(A, Project(x, mapA)), GetValueOfAssignment(B, Project(x, mapB)))
  {
    ProjectionValid(x, mapA, card, A.card);
    ProjectionValid(x, mapB, card, B.card);
    DecodeEncode(x, card);
  }

  /** The table as lines 176-180 compute it: every row of IndexToAssignment(card),
      projected through mapA and mapB and re-encoded for A and B, selects the two
      values whose product fills the cell. It is the product table. */
  function ReindexedTable(A: Factor, B: Factor, card: seq<nat>, mapA: seq<nat>, mapB: seq<nat>): (t: seq<real>)
    requires Valid(A) && Valid(B) && ValidCard(card)
    requires Agrees(mapA, card, A.card) && Agrees(mapB, card, B.card)
    ensures t == ProductTable(A, B, card, mapA, mapB)
  {
    var indxA := ProjectedIndices(card, mapA, A.card);
    var indxB := ProjectedIndices(card, mapB, B.card);
    var t := Cells(A.val, indxA, B.val, indxB);
    assert forall j :: 0 <= j < |t| ==> t[j] == ProductTable(A, B, card, mapA, mapB)[j] by {
      forall j | 0 <= j < |t|
        ensures t[j] == ProductTable(A, B, card, mapA, mapB)[j]
      {
        ReindexedCell(A, B, card, mapA, mapB, j);
      }
    }
    t
  }

  /** A.val[indxA] * B.val[indxB], cell by cell (line 180). */
  function Cells(av: seq<real>, ia: seq<int>, bv: seq<real>, ib: seq<int>): (c: seq<real>)
    requires |ia| == |ib|
    requires forall j :: 0 <= j < |ia| ==> 0 <= ia[j] < |av| && 0 <= ib[j] < |bv|
    ensures |c| == |ia|
  {
    seq(|ia|, j requires 0 <= j < |ia| => Times(av[ia[j]], bv[ib[j]]))
  }

  /** Cell j of the re-indexed table is cell j of the product table. */
  lemma ReindexedCell(A: Factor, B: Factor, card: seq<nat>, mapA: seq<nat>, mapB: seq<nat>, j: nat)
    requires Valid(A) && Valid(B) && ValidCard(card)
    requires Agrees(mapA, card, A.card) && Agrees(mapB, card, B.card)
    requires j < Prod(card)
    ensures Cells(A.val, ProjectedIndices(card, mapA, A.card), B.val, ProjectedIndices(card, mapB, B.card))[j] ==
      ProductTable(A, B, card, mapA, mapB)[j]
  {
    var x := AssignmentAt(j, card);
    var indxA, indxB := ProjectedIndices(card, mapA, A.card), ProjectedIndices(card, mapB, B.card);
    ReindexedValue(A, card, mapA, j);
    ReindexedValue(B, card, mapB, j);
    CellsAt(A.val, indxA, B.val, indxB, j);
    ProductTableCell(A, B, card, mapA, mapB, j);
  }

  lemma CellsAt(av: seq<real>, ia: seq<int>, bv: seq<real>, ib: seq<int>, j: nat)
    requires |ia| == |ib| && j < |ia|
    requires forall j :: 0 <= j < |ia| ==> 0 <= ia[j] < |av| && 0 <= ib[j] < |bv|
    ensures Cells(av, ia, bv, ib)[j] == Times(av[ia[j]], bv[ib[j]])
  {
  }

  lemma ProductTableCell(A: Factor, B: Factor, card: seq<nat>, mapA: seq<nat>, mapB: seq<nat>, j: nat)
    requires Valid(A) && Valid(B) && ValidCard(card)
    requires Agrees(mapA, card, A.card) && Agrees(mapB, card, B.card)
    requires j < Prod(card)
    ensures ValidAssignment(Project(AssignmentAt(j, card), mapA), A.card)
    ensures ValidAssignment(Project(AssignmentAt(j, card), mapB), B.card)
    ensures ProductTable(A, B, card, mapA, mapB)[j] ==
      Times(GetValueOfAssignment(A, Project(AssignmentAt(j, card), mapA)),
        GetValueOfAssignment(B, Project(AssignmentAt(j, card), mapB)))
  {
    ProjectionValid(AssignmentAt(j, card), mapA, card, A.card);
    ProjectionValid(AssignmentAt(j, card), mapB, card, B.card);
  }

  /** The value fancy indexing selects for cell j is F's value at the projection of
      row j of IndexToAssignment(card). */
  lemma ReindexedValue(F: Factor, card: seq<nat>, m: seq<nat>, j: nat)
    requires Valid(F) && ValidCard(card) && Agrees(m, card, F.card) && j < Prod(card)
    ensures ValidAssignment(Project(AssignmentAt(j, card), m), F.card)
    ensures F.val[ProjectedIndices(card, m, F.card)[j]] == GetValueOfAssignment(F, Project(AssignmentAt(j, card), m))
  {
    ProjectionValid(AssignmentAt(j, card), m, card, F.card);
    ProjectedIndexAt(card, m, F.card, j);
  }

  /** The product of A and B: an empty factor is the identity, and a shared variable
      whose cardinalities differ is a dimensionality mismatch. */
  function Product(A: Factor, B: Factor): (r: Result<Factor>)
    requires Valid(A) && Valid(B)
    ensures r.Success? ==> Valid(r.value)
  {
    if |A.scope| == 0 then Success(B)
    else if |B.scope| == 0 then Success(A)
    else if !Compatible(A, B) then Failure(DimensionalityMismatch)
    else Success(Combine(A, B))
  }

  /** FactorProduct(A, B), built step by step as the source does: the union scope,
      the position maps, the cardinality vector written through mapA and then mapB,
      and the value table from the re-indexed assignments. */
  method FactorProduct(A: Factor, B: Factor) returns (r: Result<Factor>)
    requires Valid(A) && Valid(B)
    ensures r == Product(A, B)
  {
    if |A.scope| == 0 {
      return Success(B);
    }
    if |B.scope| == 0 {
      return Success(A);
    }
    if !Compatible(A, B) {
      return Failure(DimensionalityMismatch);
    }
    var scope := Union(A.scope, B.scope);
    var mapA := IsMember(A.scope, scope);
    var mapB := IsMember(B.scope, scope);
    var card := ScatterCard(A, B, mapA, mapB);
    CardAgrees(A, B);
    r := Success(Factor(scope, card, ReindexedTable(A, B, card, mapA, mapB)));
  }

  /** C.card = zeros; C.card[mapA] = A.card; C.card[mapB] = B.card (lines 168-170). */
  method ScatterCard(A: Factor, B: Factor, mapA: seq<nat>, mapB: seq<nat>) returns (card: seq<nat>)
    requires Valid(A) && Valid(B) && Compatible(A, B)
    requires mapA == Positions(A.scope, Union(A.scope, B.scope))
    requires mapB == Positions(B.scope, Union(A.scope, B.scope))
    ensures card == ProductCard(A, B)
  {
    var scope := Union(A.scope, B.scope);
    ghost var spec := ProductCard(A, B);
    CardAgrees(A, B);
    var c := new nat[|scope|](_ => 0);
    WriteThrough(c, mapA, A.card, spec);
    ghost var afterA := c[..];
    WriteThrough(c, mapB, B.card, spec);
    forall p | 0 <= p < |scope|
      ensures c[p] == spec[p]
    {
      if p < |A.scope| {
        IndexOfDistinct(scope, p);
        assert mapA[p] == p;
        assert afterA[p] == spec[p];
      } else {
        var k := CoveredByB(A, B, p);
      }
    }
    card := c[..];
  }

  /** The fancy-index assignment c[m] = vals: every position m names ends up holding
      its value from vals, and every other position keeps its old value. The writes
      are also stated against spec, the vector every written value agrees with, so
      that a second write through another map keeps what the first one wrote (no
      position ever holds anything but its old or its spec value). */
  method WriteThrough(c: array<nat>, m: seq<nat>, vals: seq<nat>, ghost spec: seq<nat>)
    requires |spec| == c.Length && |m| == |vals|
    requires forall i :: 0 <= i < |m| ==> m[i] < c.Length && spec[m[i]] == vals[i]
    modifies c
    ensures forall i :: 0 <= i < |m| ==> c[m[i]] == vals[i]
    ensures forall i :: 0 <= i < |m| ==> c[m[i]] == spec[m[i]]
    ensures forall p :: 0 <= p < c.Length ==> c[p] == old(c[p]) || c[p] == spec[p]
    ensures forall p :: 0 <= p < c.Length && p !in m ==> c[p] == old(c[p])
  {
    for n := 0 to |m|
      invariant forall i :: 0 <= i < n ==> c[m[i]] == spec[m[i]]
      invariant forall p :: 0 <= p < c.Length ==> c[p] == old(c[p]) || c[p] == spec[p]
      invariant forall p :: 0 <= p < c.Length && p !in m[..n] ==> c[p] == old(c[p])
    {
      c[m[n]] := vals[n];
    }
  }

  /** Every position of the union past A's scope holds one of B's variables. */
  lemma CoveredByB(A: Factor, B: Factor, p: nat) returns (k: nat)
    requires Valid(A) && Valid(B) && |A.scope| <= p < |Union(A.scope, B.scope)|
    ensures k < |B.scope| && Positions(B.scope, Union(A.scope, B.scope))[k] == p
  {
    var scope := Union(A.scope, B.scope);
    var x := scope[p];
    assert x == Difference(B.scope, A.scope)[p - |A.scope|];
    k := IndexOf(B.scope, x);
    IndexOfDistinct(scope, p);
  }

  // ---------------------------------------------------------------------------
  // Properties of the product

  /** Writing A's and B's cardinalities through mapA and mapB (lines 168-170) is
      consistent: C.card[mapA] == A.card and C.card[mapB] == B.card. */
  lemma CardAgrees(A: Factor, B: Factor)
    requires Valid(A) && Valid(B) && Compatible(A, B)
    ensures Agrees(Positions(A.scope, Union(A.scope, B.scope)), ProductCard(A, B), A.card)
    ensures Agrees(Positions(B.scope, Union(A.scope, B.scope)), ProductCard(A, B), B.card)
  {
    var s := Union(A.scope, B.scope);
    var card := ProductCard(A, B);
    var mapA := Positions(A.scope, s);
    var mapB := Positions(B.scope, s);
    forall i | 0 <= i < |A.scope|
      ensures card[mapA[i]] == A.card[i]
    {
      CardAt(A, B, A.scope[i], mapA[i]);
      CardOfFirst(A, B, i);
    }
    forall k | 0 <= k < |B.scope|
      ensures card[mapB[k]] == B.card[k]
    {
      CardAt(A, B, B.scope[k], mapB[k]);
      CardOfSecond(A, B, k);
    }
  }

  /** The product's cardinality at the position p of x in the union is x's cardinality. */
  lemma CardAt(A: Factor, B: Factor, x: int, p: nat)
    requires Valid(A) && Valid(B) && p < |Union(A.scope, B.scope)| && Union(A.scope, B.scope)[p] == x
    ensures ProductCard(A, B)[p] == CardOf(A, B, x)
  {
  }

  /** A variable of A has its cardinality from A. */
  lemma CardOfFirst(A: Factor, B: Factor, i: nat)
    requires Valid(A) && Valid(B) && i < |A.scope|
    ensures CardOf(A, B, A.scope[i]) == A.card[i]
  {
    IndexOfDistinct(A.scope, i);
  }

  /** A variable of B has its cardinality from B, when the factors are compatible. */
  lemma CardOfSecond(A: Factor, B: Factor, k: nat)
    requires Valid(A) && Valid(B) && Compatible(A, B) && k < |B.scope|
    ensures CardOf(A, B, B.scope[k]) == B.card[k]
  {
    IndexOfDistinct(B.scope, k);
  }

  /** An empty factor is the identity of the product, on either side. */
  lemma ProductIdentity(A: Factor, B: Factor)
    requires Valid(A) && Valid(B)
    ensures |A.scope| == 0 ==> Product(A, B) == Success(B)
    ensures |A.scope| > 0 && |B.scope| == 0 ==> Product(A, B) == Success(A)
  {
  }

  /** The product fails exactly when both factors are non-empty and some shared
      variable has different cardinalities in them; the error is then a
      dimensionality mismatch. */
  lemma ProductFails(A: Factor, B: Factor)
    requires Valid(A) && Valid(B)
    ensures Product(A, B).Failure? <==>
      |A.scope| > 0 && |B.scope| > 0 &&
      exists i, k :: 0 <= i < |A.scope| && 0 <= k < |B.scope| && A.scope[i] == B.scope[k] &&
        A.card[i] != B.card[k]
    ensures Product(A, B).Failure? ==> Product(A, B).error == DimensionalityMismatch
  {
  }

  /** The product's scope is the union of the two scopes (A's variables first, then
      B's new ones), each variable keeps its cardinality, and the table has
      Prod(card) cells. */
  lemma ProductShape(A: Factor, B: Factor)
    requires Valid(A) && Valid(B) && |A.scope| > 0 && |B.scope| > 0 && Compatible(A, B)
    ensures Product(A, B).Success?
    ensures var C := Product(A, B).value;
      (forall x :: x in C.scope <==> x in A.scope || x in B.scope) &&
      Distinct(C.scope) && C.scope[..|A.scope|] == A.scope &&
      |C.card| == |C.scope| && |C.val| == Prod(C.card) &&
      Agrees(Positions(A.scope, C.scope), C.card, A.card) &&
      Agrees(Positions(B.scope, C.scope), C.card, B.card)
  {
    CardAgrees(A, B);
  }

  /** The value of the product at every assignment of its scope is A's value at the
      projection onto A's scope times B's value at the projection onto B's scope. */
  lemma ProductValues(A: Factor, B: Factor, x: seq<int>)
    requires Valid(A) && Valid(B) && |A.scope| > 0 && |B.scope| > 0 && Compatible(A, B)
    requires ValidAssignment(x, ProductCard(A, B))
    ensures Product(A, B).Success?
    ensures var C := Product(A, B).value;
      var mapA := Positions(A.scope, C.scope);
      var mapB := Positions(B.scope, C.scope);
      ValidAssignment(x, C.card) &&
      ValidAssignment(Project(x, mapA), A.card) && ValidAssignment(Project(x, mapB), B.card) &&
      GetValueOfAssignment(C, x) ==
        Times(GetValueOfAssignment(A, Project(x, mapA)), GetValueOfAssignment(B, Project(x, mapB)))
  {
    var s := Union(A.scope, B.scope);
    var card := ProductCard(A, B);
    var mapA, mapB := Positions(A.scope, s), Positions(B.scope, s);
    CombineParts(A, B);
    CardAgrees(A, B);
    ProductTableAt(A, B, card, mapA, mapB, x);
    GetValueAt(Combine(A, B), x, AssignmentToIndex(x, card) - 1);
  }

  /** The parts of the combined factor. */
  lemma CombineParts(A: Factor, B: Factor)
    requires Valid(A) && Valid(B) && |A.scope| > 0 && |B.scope| > 0 && Compatible(A, B)
    ensures Product(A, B) == Success(Combine(A, B))
    ensures Combine(A, B).scope == Union(A.scope, B.scope) && Combine(A, B).card == ProductCard(A, B)
    ensures Agrees(Positions(A.scope, Union(A.scope, B.scope)), ProductCard(A, B), A.card)
    ensures Agrees(Positions(B.scope, Union(A.scope, B.scope)), ProductCard(A, B), B.card)
    ensures Combine(A, B).val == ProductTable(A, B, ProductCard(A, B),
        Positions(A.scope, Union(A.scope, B.scope)), Positions(B.scope, Union(A.scope, B.scope)))
  {
    CardAgrees(A, B);
  }

  /** The cardinality of a shared variable does not depend on which factor it is read from. */
  lemma CardOfSymmetric(A: Factor, B: Factor, x: int)
    requires Valid(A) && Valid(B) && Compatible(A, B) && (x in A.scope || x in B.scope)
    ensures CardOf(A, B, x) == CardOf(B, A, x)
  {
  }

  /** The product commutes up to the order of the scope: the value of A * B at an
      assignment equals the value of B * A at the same assignment, reordered to
      B * A's scope. */
  lemma ProductCommutes(A: Factor, B: Factor, x: seq<int>)
    requires Valid(A) && Valid(B) && |A.scope| > 0 && |B.scope| > 0 && Compatible(A, B)
    requires ValidAssignment(x, ProductCard(A, B))
    ensures Compatible(B, A) && Product(A, B).Success? && Product(B, A).Success?
    ensures var C := Product(A, B).value;
      var D := Product(B, A).value;
      var y := Project(x, Positions(D.scope, C.scope));
      ValidAssignment(x, C.card) && ValidAssignment(y, D.card) &&
      GetValueOfAssignment(C, x) == GetValueOfAssignment(D, y)
  {
    var C := Combine(A, B);
    var D := Combine(B, A);
    SwappedCards(A, B);
    var pi := Positions(D.scope, C.scope);
    ProjectionValid(x, pi, C.card, D.card);
    var y := Project(x, pi);
    ProductValues(A, B, x);
    ProductValues(B, A, y);
    UnionSwap(A.scope, B.scope);
    ProjectCompose(x, A.scope, D.scope, C.scope);
    ProjectCompose(x, B.scope, D.scope, C.scope);
    TimesCommutes(GetValueOfAssignment(A, Project(x, Positions(A.scope, C.scope))),
      GetValueOfAssignment(B, Project(x, Positions(B.scope, C.scope))));
  }

  /** The two products of a compatible pair agree on the cardinality of every variable. */
  lemma SwappedCards(A: Factor, B: Factor)
    requires Valid(A) && Valid(B) && Compatible(A, B)
    ensures Compatible(B, A)
    ensures SubScope(Union(B.scope, A.scope), Union(A.scope, B.scope))
    ensures Agrees(Positions(Union(B.scope, A.scope), Union(A.scope, B.scope)), ProductCard(A, B), ProductCard(B, A))
  {
    var S, S' := Union(A.scope, B.scope), Union(B.scope, A.scope);
    UnionSwap(A.scope, B.scope);
    var pi := Positions(S', S);
    forall q | 0 <= q < |S'|
      ensures ProductCard(A, B)[pi[q]] == ProductCard(B, A)[q]
    {
      CardOfSymmetric(A, B, S'[q]);
    }
  }

  /** Commutativity needs a non-empty factor: for two empty factors the product is
      the second operand, so the two orders differ when their single cells differ. */
  lemma EmptyProductNotCommutative()
    ensures var A := Factor([], [], [0.3]);
      var B := Factor([], [], [0.5]);
      Valid(A) && Valid(B) && Product(A, B) == Success(B) && Product(B, A) == Success(A) &&
      Product(A, B) != Product(B, A)
  {
  }

  lemma TimesCommutes(u: real, w: real)
    ensures Times(u, w) == Times(w, u)
  {
  }

  // ---------------------------------------------------------------------------
  // Associativity

  /** The product is associative up to the order of the scope: for pairwise
      compatible non-empty factors, the value of (A * B) * C at an assignment equals
      the value of A * (B * C) at the same assignment, reordered to its scope. */
  lemma ProductAssociates(A: Factor, B: Factor, C: Factor, x: seq<int>)
    requires Valid(A) && Valid(B) && Valid(C)
    requires |A.scope| > 0 && |B.scope| > 0 && |C.scope| > 0
    requires Compatible(A, B) && Compatible(B, C) && Compatible(A, C)
    requires ValidAssignment(x, ProductCard(Combine(A, B), C))
    ensures Compatible(Combine(A, B), C) && Compatible(A, Combine(B, C))
    ensures Product(A, B) == Success(Combine(A, B)) && Product(B, C) == Success(Combine(B, C))
    ensures Product(Combine(A, B), C) == Success(Combine(Combine(A, B), C))
    ensures Product(A, Combine(B, C)) == Success(Combine(A, Combine(B, C)))
    ensures var L, R := Combine(Combine(A, B), C), Combine(A, Combine(B, C));
      SubScope(R.scope, L.scope) &&
      (var y := Project(x, Positions(R.scope, L.scope));
       ValidAssignment(x, L.card) && ValidAssignment(y, R.card) &&
       GetValueOfAssignment(L, x) == GetValueOfAssignment(R, y))
  {
    var AB, BC := Combine(A, B), Combine(B, C);
    CompatibleWithProductLeft(A, B, C);
    CompatibleWithProductRight(A, B, C);
    var L, R := Combine(AB, C), Combine(A, BC);
    CombineParts(A, B);
    CombineParts(B, C);
    CombineParts(AB, C);
    CombineParts(A, BC);
    AssociatedCards(A, B, C, AB, BC, L, R);
    var pi := Positions(R.scope, L.scope);
    ProjectionValid(x, pi, L.card, R.card);
    var y := Project(x, pi);
    TripleLeft(A, B, C, x);
    TripleRight(A, B, C, y);
    ProjectCompose(x, A.scope, R.scope, L.scope);
    ProjectCompose(x, B.scope, R.scope, L.scope);
    ProjectCompose(x, C.scope, R.scope, L.scope);
    var S := L.scope;
    TimesAssociates(GetValueOfAssignment(A, Project(x, Positions(A.scope, S))),
      GetValueOfAssignment(B, Project(x, Positions(B.scope, S))),
      GetValueOfAssignment(C, Project(x, Positions(C.scope, S))));
  }

  /** When one of the three factors is empty, both groupings give the same result. */
  lemma ProductAssociatesEmpty(A: Factor, B: Factor, C: Factor)
    requires Valid(A) && Valid(B) && Valid(C)
    requires |A.scope| == 0 || |B.scope| == 0 || |C.scope| == 0
    requires Product(A, B).Success? && Product(B, C).Success?
    ensures Product(Product(A, B).value, C) == Product(A, Product(B, C).value)
  {
  }

  /** Two factors compatible with C make their product compatible with C. */
  lemma CompatibleWithProductLeft(A: Factor, B: Factor, C: Factor)
    requires Valid(A) && Valid(B) && Valid(C)
    requires Compatible(A, B) && Compatible(A, C) && Compatible(B, C)
    ensures Compatible(Combine(A, B), C)
  {
    var AB := Combine(A, B);
    forall i, k | 0 <= i < |AB.scope| && 0 <= k < |C.scope| && AB.scope[i] == C.scope[k]
      ensures AB.card[i] == C.card[k]
    {
      var v := AB.scope[i];
      CardAt(A, B, v, i);
      if v in A.scope {
        assert A.scope[IndexOf(A.scope, v)] == C.scope[k];
      } else {
        assert B.scope[IndexOf(B.scope, v)] == C.scope[k];
      }
    }
  }

  /** A factor compatible with B and with C is compatible with their product. */
  lemma CompatibleWithProductRight(A: Factor, B: Factor, C: Factor)
    requires Valid(A) && Valid(B) && Valid(C)
    requires Compatible(A, B) && Compatible(A, C) && Compatible(B, C)
    ensures Compatible(A, Combine(B, C))
  {
    var BC := Combine(B, C);
    forall i, k | 0 <= i < |A.scope| && 0 <= k < |BC.scope| && A.scope[i] == BC.scope[k]
      ensures A.card[i] == BC.card[k]
    {
      var v := BC.scope[k];
      CardAt(B, C, v, k);
      if v in B.scope {
        assert A.scope[i] == B.scope[IndexOf(B.scope, v)];
      } else {
        assert A.scope[i] == C.scope[IndexOf(C.scope, v)];
      }
    }
  }

  /** P has the scope and the cardinalities of the product of A and B. */
  predicate ShapedAsProduct(P: Factor, A: Factor, B: Factor)
    requires Valid(A) && Valid(B)
  {
    Valid(P) && P.scope == Union(A.scope, B.scope) && P.card == ProductCard(A, B)
  }

  /** Both groupings take a variable's cardinality from a factor that holds it. */
  lemma CardOfAssociates(A: Factor, B: Factor, C: Factor, AB: Factor, BC: Factor, v: int)
    requires Valid(A) && Valid(B) && Valid(C)
    requires ShapedAsProduct(AB, A, B) && ShapedAsProduct(BC, B, C)
    requires v in A.scope || v in B.scope || v in C.scope
    ensures CardOf(AB, C, v) == CardOf(A, BC, v)
  {
    if v in AB.scope {
      CardAt(A, B, v, IndexOf(AB.scope, v));
    }
    if v in BC.scope {
      CardAt(B, C, v, IndexOf(BC.scope, v));
    }
  }

  /** The scope of A * (B * C) lies in that of (A * B) * C, and the two products give
      every variable the same cardinality. */
  lemma AssociatedCards(A: Factor, B: Factor, C: Factor, AB: Factor, BC: Factor, L: Factor, R: Factor)
    requires Valid(A) && Valid(B) && Valid(C)
    requires ShapedAsProduct(AB, A, B) && ShapedAsProduct(BC, B, C)
    requires ShapedAsProduct(L, AB, C) && ShapedAsProduct(R, A, BC)
    ensures SubScope(R.scope, L.scope)
    ensures Agrees(Positions(R.scope, L.scope), L.card, R.card)
  {
    UnionAssociates(A.scope, B.scope, C.scope);
    var pi := Positions(R.scope, L.scope);
    forall q | 0 <= q < |R.scope|
      ensures L.card[pi[q]] == R.card[q]
    {
      var v := R.scope[q];
      CardAt(AB, C, v, pi[q]);
      CardAt(A, BC, v, q);
      CardOfAssociates(A, B, C, AB, BC, v);
    }
  }

  /** The value of (A * B) * C at x is the product of the three factors' values at
      the restrictions of x. */
  lemma TripleLeft(A: Factor, B: Factor, C: Factor, x: seq<int>)
    requires Valid(A) && Valid(B) && Valid(C) && |A.scope| > 0 && |C.scope| > 0 && |B.scope| > 0
    requires Compatible(A, B) && Compatible(Combine(A, B), C)
    requires ValidAssignment(x, Combine(Combine(A, B), C).card)
    ensures var S := Combine(Combine(A, B), C).scope;
      SubScope(A.scope, S) && SubScope(B.scope, S) && SubScope(C.scope, S) &&
      (var xa, xb, xc := Project(x, Positions(A.scope, S)), Project(x, Positions(B.scope, S)), Project(x, Positions(C.scope, S));
       ValidAssignment(xa, A.card) && ValidAssignment(xb, B.card) && ValidAssignment(xc, C.card) &&
       GetValueOfAssignment(Combine(Combine(A, B), C), x) ==
         Times(Times(GetValueOfAssignment(A, xa), GetValueOfAssignment(B, xb)), GetValueOfAssignment(C, xc)))
  {
    var AB := Combine(A, B);
    var L := Combine(AB, C);
    var S1, S := AB.scope, L.scope;
    CombineParts(A, B);
    CombineParts(AB, C);
    ProductValues(AB, C, x);
    var x1 := Project(x, Positions(S1, S));
    ProductValues(A, B, x1);
    ProjectCompose(x, A.scope, S1, S);
    ProjectCompose(x, B.scope, S1, S);
  }

  /** The value of A * (B * C) at z is the product of the three factors' values at
      the restrictions of z. */
  lemma TripleRight(A: Factor, B: Factor, C: Factor, z: seq<int>)
    requires Valid(A) && Valid(B) && Valid(C) && |A.scope| > 0 && |B.scope| > 0 && |C.scope| > 0
    requires Compatible(B, C) && Compatible(A, Combine(B, C))
    requires ValidAssignment(z, Combine(A, Combine(B, C)).card)
    ensures var T := Combine(A, Combine(B, C)).scope;
      SubScope(A.scope, T) && SubScope(B.scope, T) && SubScope(C.scope, T) &&
      (var za, zb, zc := Project(z, Positions(A.scope, T)), Project(z, Positions(B.scope, T)), Project(z, Positions(C.scope, T));
       ValidAssignment(za, A.card) && ValidAssignment(zb, B.card) && ValidAssignment(zc, C.card) &&
       GetValueOfAssignment(Combine(A, Combine(B, C)), z) ==
         Times(GetValueOfAssignment(A, za), Times(GetValueOfAssignment(B, zb), GetValueOfAssignment(C, zc))))
  {
    var BC := Combine(B, C);
    var R := Combine(A, BC);
    var T1, T := BC.scope, R.scope;
    CombineParts(B, C);
    CombineParts(A, BC);
    ProductValues(A, BC, z);
    var z1 := Project(z, Positions(T1, T));
    ProductValues(B, C, z1);
    ProjectCompose(z, B.scope, T1, T);
    ProjectCompose(z, C.scope, T1, T);
  }

  lemma TimesAssociates(u: real, v: real, w: real)
    ensures Times(Times(u, v), w) == Times(u, Times(v, w))
  {
  }

  /** Variable 1 (values 0.11, 0.89) times variable 2 (values 0.59, 0.41). */
  lemma ProductExample()
    ensures var A := Factor([1], [2], [0.11, 0.89]);
      var B := Factor([2], [2], [0.59, 0.41]);
      var C := Factor([1, 2], [2, 2], [0.11 * 0.59, 0.89 * 0.59, 0.11 * 0.41, 0.89 * 0.41]);
      Valid(A) && Valid(B) && Valid(C) && ValidAssignment([1, 1], C.card) &&
      Product(A, B) == Success(C) && GetValueOfAssignment(C, [1, 1]) == 0.0649
  {
    var A := Factor([1], [2], [0.11, 0.89]);
    var B := Factor([2], [2], [0.59, 0.41]);
    var C := Factor([1, 2], [2, 2], [0.11 * 0.59, 0.89 * 0.59, 0.11 * 0.41, 0.89 * 0.41]);
    ExampleShape(A, B);
    ExampleTable(A, B);
    ExampleLookup(C);
  }

  /** In the example product the assignment [1, 1] has index 1, so its value is the first cell. */
  lemma ExampleLookup(C: Factor)
    requires C == Factor([1, 2], [2, 2], [0.11 * 0.59, 0.89 * 0.59, 0.11 * 0.41, 0.89 * 0.41])
    ensures Valid(C) && ValidAssignment([1, 1], C.card) && GetValueOfAssignment(C, [1, 1]) == 0.0649
  {
    TwoByTwoRows();
    EncodeDecode(0, [2, 2]);
    GetValueAt(C, [1, 1], 0);
  }

  /** The example's table, cell by cell. */
  lemma ExampleTable(A: Factor, B: Factor)
    requires A == Factor([1], [2], [0.11, 0.89]) && B == Factor([2], [2], [0.59, 0.41])
    requires Valid(A) && Valid(B) && ValidCard([2, 2]) && Agrees([0], [2, 2], A.card) && Agrees([1], [2, 2], B.card)
    ensures ProductTable(A, B, [2, 2], [0], [1]) == [0.11 * 0.59, 0.89 * 0.59, 0.11 * 0.41, 0.89 * 0.41]
  {
    TwoByTwoRows();
    PairCell(A, B, [2, 2], 0, 1, 1);
    PairCell(A, B, [2, 2], 1, 2, 1);
    PairCell(A, B, [2, 2], 2, 1, 2);
    PairCell(A, B, [2, 2], 3, 2, 2);
    var t := ProductTable(A, B, [2, 2], [0], [1]);
    FourCells(t, 0.11 * 0.59, 0.89 * 0.59, 0.11 * 0.41, 0.89 * 0.41);
  }

  /** The example's product is the combined factor over [1, 2] with cardinalities [2, 2]. */
  lemma ExampleShape(A: Factor, B: Factor)
    requires A == Factor([1], [2], [0.11, 0.89]) && B == Factor([2], [2], [0.59, 0.41])
    ensures Valid(A) && Valid(B) && ValidCard([2, 2]) && Agrees([0], [2, 2], A.card) && Agrees([1], [2, 2], B.card)
    ensures Product(A, B) == Success(Factor([1, 2], [2, 2], ProductTable(A, B, [2, 2], [0], [1])))
  {
    ExampleCard(A, B);
    ExampleScopes();
  }

  /** The union of the example's scopes and the positions of each scope in it. */
  lemma ExampleScopes()
    ensures Union([1], [2]) == [1, 2]
    ensures Positions([1], [1, 2]) == [0] && Positions([2], [1, 2]) == [1]
  {
    assert Difference([2], [1]) == [2];
    assert [1, 2][1..] == [2];
  }

  /** The example factors are valid and their product has cardinalities [2, 2]. */
  lemma ExampleCard(A: Factor, B: Factor)
    requires A == Factor([1], [2], [0.11, 0.89]) && B == Factor([2], [2], [0.59, 0.41])
    ensures Valid(A) && Valid(B) && Compatible(A, B) && ProductCard(A, B) == [2, 2]
  {
    ExampleValid(A, B);
    ExampleScopes();
    var c := ProductCard(A, B);
    assert CardOf(A, B, 1) == 2;
    assert CardOf(A, B, 2) == 2 by { assert 2 !in A.scope; }
    assert c[0] == 2 && c[1] == 2;
  }

  /** The example factors are valid. */
  lemma ExampleValid(A: Factor, B: Factor)
    requires A == Factor([1], [2], [0.11, 0.89]) && B == Factor([2], [2], [0.59, 0.41])
    ensures Valid(A) && Valid(B)
  {
    assert A.card[..0] == [] && B.card[..0] == [];
  }

  /** In the product of two one-variable factors over cardinalities card, the cell
      whose assignment is [a0, a1] is A's value at a0 times B's value at a1. */
  lemma PairCell(A: Factor, B: Factor, card: seq<nat>, j: nat, a0: int, a1: int)
    requires Valid(A) && Valid(B) && ValidCard(card) && |card| == 2
    requires Agrees([0], card, A.card) && Agrees([1], card, B.card)
    requires j < Prod(card) && AssignmentAt(j, card) == [a0, a1]
    requires 1 <= a0 <= |A.val| && 1 <= a1 <= |B.val|
    ensures ProductTable(A, B, card, [0], [1])[j] == Times(A.val[a0 - 1], B.val[a1 - 1])
  {
    ProductTableCell(A, B, card, [0], [1], j);
    assert Project([a0, a1], [0]) == [a0] && Project([a0, a1], [1]) == [a1];
    assert A.card == [card[0]] && B.card == [card[1]];
    SingleIndex(a0, card[0]);
    SingleIndex(a1, card[1]);
    GetValueAt(A, [a0], a0 - 1);
    GetValueAt(B, [a1], a1 - 1);
  }

  lemma FourCells(t: seq<real>, c0: real, c1: real, c2: real, c3: real)
    requires |t| == 4 && t[0] == c0 && t[1] == c1 && t[2] == c2 && t[3] == c3
    ensures t == [c0, c1, c2, c3]
  {
  }

  // ---------------------------------------------------------------------------
  // The cardinality check as written (lines 152-160)

  /** What lines 153-158 compute when exactly one variable x is shared. iA and iB are
      then x's positions in A and B, and `cA == cB == False` is Python's chained
      comparison (cA == cB) and (cB == False): a one-element [False] is falsy, so the
      `and` yields [False] on a mismatch, and the check only fires when the
      cardinalities agree and equal 0. With two or more shared variables line 153
      compares the set's iteration order with each scope position by position, so
      iA and iB are no longer the shared variables' positions; that case is not
      modelled, and x must be the only shared variable. */
  function MismatchFlaggedAsWritten(A: Factor, B: Factor, x: int): (flagged: bool)
    requires Valid(A) && Valid(B) && x in A.scope && x in B.scope
    requires forall y :: y in A.scope && y in B.scope ==> y == x
    ensures flagged ==> A.card[IndexOf(A.scope, x)] == B.card[IndexOf(B.scope, x)]
  {
    var cA := A.card[IndexOf(A.scope, x)];
    var cB := B.card[IndexOf(B.scope, x)];
    cA == cB && cB == 0
  }

  /** As written, a factor over variable 1 with cardinality 2 and one over variable 1
      with cardinality 3 pass the check, while the intended product rejects them. */
  lemma MismatchMissedAsWritten()
    ensures var A := Factor([1], [2], [0.5, 0.5]);
      var B := Factor([1], [3], [0.2, 0.3, 0.5]);
      Valid(A) && Valid(B) && !MismatchFlaggedAsWritten(A, B, 1) &&
      Product(A, B) == Failure(DimensionalityMismatch)
  {
    var A := Factor([1], [2], [0.5, 0.5]);
    var B := Factor([1], [3], [0.2, 0.3, 0.5]);
    assert !Compatible(A, B) by {
      assert A.scope[0] == B.scope[0] && A.card[0] != B.card[0];
    }
  }

  /** As written, the check never fires on valid factors sharing exactly one variable. */
  lemma MismatchNeverFlaggedAsWritten(A: Factor, B: Factor, x: int)
    requires Valid(A) && Valid(B) && x in A.scope && x in B.scope
    requires forall y :: y in A.scope && y in B.scope ==> y == x
    ensures !MismatchFlaggedAsWritten(A, B, x)
  {
  }
}

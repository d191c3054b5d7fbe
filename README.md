# Factor operations of a discrete probabilistic graphical model

A Dafny model of `FactorOperations.py`, the factor algebra of a small
probabilistic-graphical-models package. A factor is a table of real values over
an ordered scope of discrete variables. Each variable has a cardinality, and the
table has one cell per joint assignment, in mixed-radix order where the first
variable changes fastest. Assignments and table indices are 1-based.

The model covers:

- the conversion between table indices and assignments (`IndexToAssignment`,
  `AssignmentToIndex`), module `Indexing`;
- position lookup of a scope's variables in another scope (`isMember`), plus the
  union and difference of scopes, module `Scopes`;
- the factor value and its single-cell accessors (`GetValueOfAssignment`,
  `SetValueOfAssignment`), module `Factors`;
- the product of two factors (`FactorProduct`), module `Products`;
- summing variables out of a factor (`FactorMarginalization`), module
  `Marginalization`.

Each operation that works step by step in the source is a method: the
`isMember` loop, the scatter of cardinalities through `mapA`/`mapB`, the
construction of the product, and the marginalization with the accumulation its
documentation intends. Each of these methods is proved equal to a reference
function. The exception is `SetValueOfAssignment`, which is specified by the values
it leaves at every assignment. Lemmas then state what the reference functions mean:

- the index conversions are mutual inverses;
- the value of the product at an assignment is the product of the two factors'
  values at its restrictions;
- a marginal cell adds up exactly the cells of the original factor that restrict
  to it, and marginalization keeps the total mass;
- the error cases happen exactly when the source's guards fire, as its
  documentation intends (the cardinality guard as written does not; see Findings).

Failures that the source reports with `sys.exit(1)` or by returning `None` are
modelled as `Failure` results of `Result<Factor>`.

## Model

| member | source | states |
|---|---|---|
| `Indexing.AssignmentToIndex` | FactorOperations.py:63-74 | The index of a valid assignment lies in 1..prod(D). |
| `Indexing.AssignmentsToIndices` | FactorOperations.py:63-74 | A matrix of assignments is converted row by row, and each valid row gets an index in 1..prod(D). |
| `Indexing.AssignmentAt` | FactorOperations.py:22-34 | Row j of the assignment matrix has one entry per variable, and each entry k lies in 1..D[k]. |
| `Indexing.IndexToAssignment` | FactorOperations.py:16-35 | The matrix has prod(D) rows, and row j is a valid assignment whose index is j + 1. |
| `Indexing.EncodeDecode` | FactorOperations.py:16-74 | Converting row j of IndexToAssignment back to an index gives j + 1. |
| `Indexing.EncodeDecodeAll` | FactorOperations.py:16-74 | The same holds for every row j < prod(D). |
| `Indexing.DecodeEncode` | FactorOperations.py:16-74 | The row at the index of a valid assignment is that assignment. |
| `Indexing.IndexInjective` | FactorOperations.py:38-74 | Two valid assignments with the same index are equal. |
| `Indexing.MatrixRoundTrip` | FactorOperations.py:16-74 | AssignmentToIndex(IndexToAssignment(D), D) is the index vector 1..prod(D) in order. |
| `Indexing.SingleRowIndexAsWritten` | FactorOperations.py:48-60 | As written, the single-row path yields an n x n table of Stride(d, k) * (a[i] - 1) + 1 rather than one index. |
| `Indexing.SingleRowAsWrittenDiffers` | FactorOperations.py:48-60 | For row [1, 2] over [2, 2] the single-row path gives [[1, 1], [2, 3]], while the index is 3. |
| `Indexing.SingleRowAsWrittenOneVariable` | FactorOperations.py:48-60 | Over one variable the single-row path agrees with the index. |
| `Scopes.IndexOf` | FactorOperations.py:12 | The result is the first position of x in s. |
| `Scopes.Positions` | FactorOperations.py:6-14 | Entry i is a position in B that holds A[i]. |
| `Scopes.IsMember` | FactorOperations.py:6-14 | The loop yields, for every A[i], the first position of B holding it, and equals Positions(A, B). |
| `Scopes.IndexOfDistinct` | FactorOperations.py:6-14 | In a scope without repetitions, the lookup of s[i] is i. |
| `Scopes.Difference` | FactorOperations.py:208-210 | The kept scope holds exactly the variables of A not in V, with no repetition when A has none. |
| `Scopes.Union` | FactorOperations.py:146-163 | The product scope holds exactly the variables of A and B, starts with A's scope, and has no repetition. |
| `Scopes.ProjectCompose` | FactorOperations.py:164-178 | Reordering columns to an intermediate scope and then selecting them selects the same columns directly. |
| `Scopes.UnionSwap` | FactorOperations.py:163 | Union(B, A) holds only variables of Union(A, B). |
| `Factors.GetValueAt` | FactorOperations.py:103-120 | The value of assignment a is table cell AssignmentToIndex(a) - 1, and that cell exists. |
| `Factors.GetValueMeaning` | FactorOperations.py:103-120 | The value of a is held by a cell whose row of IndexToAssignment is a, and every such cell holds it. |
| `Factors.SetValueOfAssignment` | FactorOperations.py:77-101 | After the update the value of a is v, every other assignment keeps its value, and the factor stays valid with the same scope and cardinalities. |
| `Factors.SetValueAsWritten` | FactorOperations.py:98-101 | As written, the update succeeds only when the index is 1, and then leaves a one-cell table. |
| `Factors.SetValueAsWrittenBreaks` | FactorOperations.py:98-101 | As written, on a factor with more than one cell the update never leaves a valid factor. |
| `Factors.SetValueAsWrittenExample` | FactorOperations.py:98-101 | On the 2x2 factor, setting [2, 1] raises an IndexError, and setting [1, 1] shrinks the table to [v]. |
| `Factors.ProjectedIndices` | FactorOperations.py:176-178 | Each row of IndexToAssignment(c), restricted through m, has a 0-based index into a table over d that is within bounds. |
| `Products.ProductCard` | FactorOperations.py:167-170 | The product's cardinality vector has one entry at least 1 per variable of the union scope. |
| `Products.Combine` | FactorOperations.py:162-183 | The combined factor of two compatible factors is valid. |
| `Products.ProductTable` | FactorOperations.py:172-181 | The product table has prod(card) cells. |
| `Products.ProductTableAt` | FactorOperations.py:176-180 | At the index of every assignment x, the table holds A's value at x restricted to A's scope times B's value at x restricted to B's scope. |
| `Products.ReindexedTable` | FactorOperations.py:176-180 | The table computed through IndexToAssignment, fancy indexing and AssignmentToIndex equals the reference product table. |
| `Products.ReindexedValue` | FactorOperations.py:177-180 | The cell that fancy indexing selects for row j is the factor's value at row j restricted through the map. |
| `Products.Product` | FactorOperations.py:122-183 | A successful product is a valid factor. |
| `Products.FactorProduct` | FactorOperations.py:122-183 | The step-by-step product (the empty-factor checks, the cardinality check, union scope, scattered cardinalities, re-indexed values) equals Product(A, B). |
| `Products.ScatterCard` | FactorOperations.py:168-170 | Writing zeros, then A's cardinalities through mapA, then B's through mapB, gives ProductCard(A, B). |
| `Products.WriteThrough` | FactorOperations.py:169-170 | The fancy-index assignment c[m] = vals writes every position of m (values agreeing with the target vector) and leaves every other position unchanged. |
| `Products.CardAgrees` | FactorOperations.py:164-170 | mapA and mapB place A's and B's cardinalities in the product's cardinality vector. |
| `Products.ProductIdentity` | FactorOperations.py:136-142 | An empty factor on the left gives the other factor, and an empty factor on the right gives the left one. |
| `Products.ProductFails` | FactorOperations.py:145-160 | The product fails exactly when both factors are non-empty and some shared variable has different cardinalities, and the error is a dimensionality mismatch. |
| `Products.ProductShape` | FactorOperations.py:162-173 | The product's scope is the union of the scopes, and each variable has its factor's cardinality. |
| `Products.ProductValues` | FactorOperations.py:175-181 | The product's value at every assignment of its scope is A's value at its restriction times B's value at its restriction. |
| `Products.CombineParts` | FactorOperations.py:162-183 | The successful product is the combined factor, with the union scope, the scattered cardinalities and the product table. |
| `Products.ProductAssociates` | FactorOperations.py:122-183 | For pairwise compatible non-empty factors, (A * B) * C and A * (B * C) both succeed and agree at every assignment, up to the reordering of the scope. |
| `Products.ProductAssociatesEmpty` | FactorOperations.py:136-142 | When one of three factors is empty and both inner products succeed, the two groupings give the same result. |
| `Products.CompatibleWithProductLeft` | FactorOperations.py:145-170 | Two factors compatible with C make their product compatible with C. |
| `Products.CompatibleWithProductRight` | FactorOperations.py:145-170 | A factor compatible with B and with C is compatible with their product. |
| `Products.AssociatedCards` | FactorOperations.py:162-170 | The scope of A * (B * C) lies in that of (A * B) * C, and both give every variable the same cardinality. |
| `Products.TripleLeft` | FactorOperations.py:175-181 | The value of (A * B) * C at x is A's times B's times C's value at the restrictions of x. |
| `Products.TripleRight` | FactorOperations.py:175-181 | The value of A * (B * C) at z is A's value times B's times C's value at the restrictions of z. |
| `Scopes.UnionAssociates` | FactorOperations.py:163 | Union(a, Union(b, c)) holds only variables of Union(Union(a, b), c). |
| `Products.EmptyProductNotCommutative` | FactorOperations.py:136-139 | Two empty factors with different single cells give different products in the two orders, because an empty first factor returns the second. |
| `Products.CardOfSymmetric` | FactorOperations.py:152-170 | For compatible factors, the cardinality of a variable does not depend on which factor it is read from. |
| `Products.ProductCommutes` | FactorOperations.py:122-183 | A * B and B * A agree at every assignment, up to the reordering of the scope. |
| `Products.SwappedCards` | FactorOperations.py:162-170 | The two orders of the product give every variable the same cardinality. |
| `Products.ProductExample` | FactorOperations.py:122-183 | The product of ([1], [2], [0.11, 0.89]) and ([2], [2], [0.59, 0.41]) is the 2x2 factor of pairwise products, and its value at [1, 1] is 0.0649. |
| `Products.MismatchFlaggedAsWritten` | FactorOperations.py:152-160 | As written, when exactly one variable is shared the check fires only if the two cardinalities are equal. |
| `Products.MismatchMissedAsWritten` | FactorOperations.py:152-160 | As written, cardinalities 2 and 3 for the same variable pass the check, while the product rejects them. |
| `Products.MismatchNeverFlaggedAsWritten` | FactorOperations.py:152-160 | As written, the check never fires on valid factors that share exactly one variable. |
| `Marginalization.KeptCard` | FactorOperations.py:211-220 | The kept cardinalities are A's cardinalities at the kept variables' positions, each at least 1. |
| `Marginalization.MarginalTable` | FactorOperations.py:221-225 | The marginal table has one cell per assignment of the kept variables. |
| `Marginalization.Marginal` | FactorOperations.py:185-228 | A successful marginal is a valid factor. |
| `Marginalization.FactorMarginalization` | FactorOperations.py:185-228 | The step-by-step marginalization (the early return, the kept scope, isMember, the empty-scope error, cardinalities, target indices, accumulation) equals Marginal(A, V). |
| `Marginalization.Accumulate` | FactorOperations.py:221-225 | Starting from a zero table, cell k ends up holding the sum of the cells whose target index is k. |
| `Marginalization.MarginalOutcome` | FactorOperations.py:201-217 | An empty factor or an empty V gives A back, and the marginal fails exactly when every variable of a non-empty A is in a non-empty V, with the empty-scope error. |
| `Marginalization.MarginalShape` | FactorOperations.py:205-221 | The kept scope holds exactly A's variables not in V, without repetition, each with its cardinality in A, and the table size matches. |
| `Marginalization.TargetIff` | FactorOperations.py:224-225 | A cell is accumulated into the cell of y exactly when its assignment restricted to the kept variables is y. |
| `Marginalization.MassIsSumWhere` | FactorOperations.py:224-225 | Accumulating by target index adds up exactly the cells whose restricted assignment is y. |
| `Marginalization.MarginalValues` | FactorOperations.py:185-228 | The marginal's value at every assignment y of the kept scope is the sum of A's values over the assignments that restrict to y. |
| `Marginalization.TotalIsSum` | FactorOperations.py:221-225 | When every target is in range, accumulation keeps the total of the table. |
| `Marginalization.MarginalMass` | FactorOperations.py:185-228 | Summing variables out keeps the total mass of the table. |
| `Marginalization.MarginalExample` | FactorOperations.py:185-228 | Summing variable 2 out of ([1, 2], [2, 2], [0.1, 0.2, 0.3, 0.4]) gives ([1], [2], [0.4, 0.6]). |
| `Marginalization.MarginalizationAsWritten` | FactorOperations.py:219-228 | As written, the result keeps the right scope and cardinalities but an all-zero table. |
| `Marginalization.AsWrittenLosesMass` | FactorOperations.py:219-228 | As written, a marginal has total mass 0.0, while the corrected marginal keeps the mass of A. |
| `Marginalization.AsWrittenExample` | FactorOperations.py:219-228 | On the example, the table as written is [0.0, 0.0] instead of [0.4, 0.6]. |

## Left out

- The `Factor` class (`Factor.py`) is not part of this model. A factor is a value with `scope`, `card` and `val`. Operations return a new factor instead of updating one in place through `setVar`, `setCard` and `setVal`, so aliasing of factors is not modelled.
- `Factors.SetValueOfAssignment`: the source updates `F` in place, and the model returns the updated factor. It follows the documented behaviour, not the code (see Findings).
- The `Vorder` argument of `GetValueOfAssignment` and `SetValueOfAssignment`: the source only prints a message and then fails on an unbound `indx`. The model always uses the factor's own variable order.
- `Factors.GetValueOfAssignment` is a plain lookup without an `ensures`. What it means is stated by `Factors.GetValueAt` and `Factors.GetValueMeaning`.
- The accessors go through the single-row path of `AssignmentToIndex`, and so does `FactorProduct` at lines 177-178 whenever `assignments[:, mapA]` has one row or one column. For a one-variable factor that path is harmless (an N x 1 column against a 1 x 1 stride). When prod(C.card) is 1 and a factor has two or more variables it is not: A = ([1, 2], [1, 1], [0.5]) and B = ([3], [1], [0.2]) give a 4-cell table against prod(card) = 1. The model uses the index that path evidently intends (see Findings).
- The accessors and `isMember` do not check their arguments. The model requires a valid assignment, and requires that every element of `A` occurs in `B` (the source raises an IndexError otherwise).
- `Indexing.IndexToAssignment`: the argument `I` only sets the number of rows of the tiled stride matrix. Every caller passes `arange(prod(D))`, so the model produces all prod(D) rows and takes no `I`.
- Python sets decide the order of the product scope (line 163) and the kept scope (line 210), and that order is arbitrary. The model fixes a deterministic order: A's variables, then B's new variables in B's order, for the union; A's order for the difference. `Products.ProductCommutes` shows that the two orders Union(A, B) and Union(B, A) give the same values up to layout, and `Products.ProductAssociates` does the same for the two groupings of three factors. That any other duplicate-free order of the union, such as a set's iteration order, also changes only the layout is not proved.
- numpy plumbing is not modelled: `flatten`, `matrix`, `transpose`, `tile`, float versus int arrays. Values are mathematical reals, so floating-point rounding is not modelled, and `Products.ProductExample` is exact over the reals.
- `Products.ProductAssociates` covers three non-empty factors, and `Products.ProductAssociatesEmpty` covers the groupings when one factor is empty. When an inner product fails, the two groupings are not compared.
- `Products.ProductCommutes` needs both factors non-empty. When exactly one is empty, `Products.ProductIdentity` shows both orders give the non-empty factor. When both are empty, the source and the model return the second operand, so the product does not commute: `Products.EmptyProductNotCommutative` shows ([], [], [0.3]) and ([], [], [0.5]) give different results in the two orders.
- Writes to stderr, the `print` at line 212, and the process exit at line 160. The exit becomes a `DimensionalityMismatch` failure, and returning `None` at line 217 becomes an `EmptyResultScope` failure.
- In the source, the single-row accessors pass a matrix whose number of rows decides the size of `np.zeros(len(A))`. `Factors.SetValueAsWritten` models the one-row case, which is the only one the documentation describes.

## Findings

| source | as written | input that shows it | evidently intended | confidence | as-written member | corrected member |
|---|---|---|---|---|---|---|
| FactorOperations.py:219-228 | The marginal factor gets a zero table and `indxB` is never used, so no value is summed. | A = ([1, 2], [2, 2], [0.1, 0.2, 0.3, 0.4]), V = [2] gives [0.0, 0.0]. | Add every cell of A into the cell `indxB` names, giving [0.4, 0.6]. | not executed | `Marginalization.AsWrittenExample` | `Marginalization.FactorMarginalization` |
| FactorOperations.py:152-160 | `A.getCard()[iA] == B.getCard()[iB] == False` is a chained comparison, `(cA == cB) and (cB == False)`. With one shared variable it is false whenever the cardinalities differ, so the mismatch is never reported. With two or more shared variables, line 153 compares the set's iteration order of the intersection with each scope position by position. It raises a ValueError when a scope holds an unshared variable (A over [1, 2, 3], B over [1, 2, 4]). Otherwise iA and iB are whatever positions happen to match. That can raise a ValueError at line 158 (A = B over [1, 2]), compare two different variables, or compare nothing: A over [1, 3, 2] and B over [3, 2, 1] give iA = [0] and iB = [1], so the check passes silently whatever the cardinalities. The model does not reproduce these cases. | A = ([1], [2], …), B = ([1], [3], …) passes the check. | Report a mismatch when some shared variable has different cardinalities. | not executed | `Products.MismatchMissedAsWritten` | `Products.ProductFails` |
| FactorOperations.py:48-60 | For one assignment row, `tmp * (a_flat - 1) + 1` multiplies a 1 x n row by an n x 1 column, which broadcasts to an n x n table instead of one index. | Row [1, 2] over cardinalities [2, 2] gives [[1, 1], [2, 3]] instead of 3. | Take the weighted sum of the strides, as the matrix path at lines 63-71 does. | not executed | `Indexing.SingleRowAsWrittenDiffers` | `Indexing.DecodeEncode` |
| FactorOperations.py:98-101 | `np.zeros(len(A))` sizes the new table by the rows of the assignment, not by the factor, and the other cells are dropped. | Setting [2, 1] in a 2x2 factor writes cell 1 of a one-cell array (IndexError). Setting [1, 1] leaves the table [v]. | Write cell `indx - 1` of the factor's own table and keep the others. | not executed | `Factors.SetValueAsWrittenExample` | `Factors.SetValueOfAssignment` |

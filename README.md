# comodules — a verified model of the algebra core

This project is a Dafny model of the exact, sequential algebra at the heart
of the comodules library (a Rust program that computes minimal resolutions of
comodules over coalgebras), together with its small Python helper
`tools/group_to_coalg.py`. Each module mirrors one source file, and each
operation carries a contract that states what the code promises.

- **Rings** (`rings.dfy`, `finite_fields.dfy`, `number_theory.dfy`, `unipol.dfy`):
  - `Fp<P>` and `F2` arithmetic, inverse by square-and-multiply, `Sum` and `parse`.
  - The single-term ring `UniPolRing` (c·t^k), with its partial addition, `divides` and `unsafe_divide`.
  - A ring is a record of operations, so that code generic over `Field` or `CRing` is written once.
- **Dense matrices** (`flat_matrix.dfy`, `mats.dfy`, `mat_algebra.dfy`):
  - `FlatMatrix` is a class over its row-major `data`, with the default methods of the `Matrix` trait.
  - Its contracts are stated against `Mat`, a value matrix, whose algebra (composition, transposition, row operations, spans) is proved once.
- **Linear algebra over a field** (`linalg.dfy`, `rref_pivots.dfy`, `augmented.dfy`):
  - `rref` proves row equivalence, reduced echelon form and pivot ordering.
  - `kernel` and `cokernel` return bases that span the kernel.
  - `kernel_generators` adds unit rows until no kernel remains.
- **Bit-packed F2 matrices** (`f2_matrix.dfy`, `f2_linalg.dfy`, `f2_systems.dfy`):
  - 64-bit words with ceil(domain/64) words per row.
  - Each packed operation is proved against the unpacked matrix.
  - The packed routines are `rref`, `is_rref`, `rank`, `nullity` and `solve`.
- **Smith normal form** (`snf.dfy`): `full_snf` returns U, S, V and the two inverses.
  - It proves U·A·V = S, U·U⁻¹ = V·V⁻¹ = 1 and the divisibility chain of S's diagonal.
  - This holds over any ring with a valuation (field instances included).
- **Morphisms of k[t]-modules** (`unipol_morphism.dfy`): `verify`, `reduce`, `kernel_find_single_generator` and `kernel_destroyers`.
- **Graded containers and gradings** (`unigrading.dfy`, `bigrading.dfy`, `wrapping.dfy`, `graded_space.dfy`, `helper.dfy`, `tensor.dfy`):
  - `i16` grading arithmetic with wrap-around, parsing, iteration order and the memory layout helpers.
  - Per-grade matrix maps and the shift-and-restrict helper.
  - The tensor index builder, whose construct and deconstruct tables are proved mutually inverse.
- **Merging** (`merge.dfy`): `insert_many_by_key`, a stable sorted merge that reports where every element went.
- **Multivariate polynomials** (`multivariate.dfy`): normal forms, and `+`, `-` and `*` as operations on coefficients.
- **The coalgebra text parser** (`text.dfy`, `kt_monomials.dfy`, `kt_parser_sections.dfy`, `kt_parser_basis.dfy`):
  - The section state machine of `parse_direct`, the basis dictionary and its numbering, and the coaction checks.
  - The monomial helpers, with a print/parse round trip.
- **The symmetric-group helper** (`group_table.dfy`): `compose`, `permutation_multiplication_table`, `print_table` and `perm_to_string`.
  - The table is shown to be a Latin square with the identity at index 0.

Fixed-width integers are modelled explicitly for grades, degrees, field
elements and sums: wrap-around on `i16`, `u16`, `i32` and `u64`, and the
`as usize` cast. Ids, ranks and exponents are not: the `u16` and `u32` index
casts of the tensor builder and the basis numbering, and the `usize` exponent
additions, are modelled as unbounded naturals, and "## Left out" names the
members and the size bounds they assume. Outside the "Findings" below, the
model follows the code's own branches, error cases and constants.

## Model

| member | source | states |
|---|---|---|
| UniGradings.Add | src/grading/unigrading.rs:20-32 | `+` and `+=` give the exact sum whenever it fits in an `i16` (release-build wrapping otherwise) |
| UniGradings.Sub | src/grading/unigrading.rs:34-46 | `-` and `-=` give the exact difference whenever it fits in an `i16` |
| UniGradings.AddCommutes | src/grading/unigrading.rs:20-26 | grade addition is commutative and zero is its unit |
| UniGradings.AddAssociates | src/grading/unigrading.rs:20-26 | grade addition is associative, wrap-around included |
| UniGradings.SubUndoesAdd | src/grading/unigrading.rs:20-46 | `(a + b) - b == a`, `(a - b) + b == a` and `a - a == 0` |
| UniGradings.Sum | src/grading/unigrading.rs:48-52 | the fold agrees with the exact integer sum modulo 2^16 |
| UniGradings.SumExact | src/grading/unigrading.rs:48-52 | when the exact sum fits in an `i16`, the fold is that sum |
| UniGradings.IntegerMultiplication | src/grading/unigrading.rs:108-110 | the exact product whenever it fits in an `i16` |
| UniGradings.MultiplicationIsRepeatedAddition | src/grading/unigrading.rs:108-110 | multiplying by k >= 0 equals summing k copies of the grade |
| UniGradings.Infty | src/grading/unigrading.rs:112-114 | `infty` is at least every grade |
| UniGradings.Incr | src/grading/unigrading.rs:132-134 | one more, wrapping from `i16::MAX` to `i16::MIN` |
| UniGradings.Compare | src/grading/unigrading.rs:136-138 | `Equal`, `Less` and `Greater` exactly when the degrees are equal, smaller or larger |
| UniGradings.ToIndex | src/grading/unigrading.rs:88-90 | a non-negative degree is its own index |
| UniGradings.Parse | src/grading/unigrading.rs:66-72 | `i16::from_str` succeeds exactly on an optional sign followed by one or more ASCII digits whose value fits in i16, and gives that value; empty text is the Empty error |
| UniGradings.ParseDisplay | src/grading/unigrading.rs:54-72 | parsing the printed grade gives the grade back |
| UniGradings.ParseOutOfRange | src/grading/unigrading.rs:66-72 | a decimal literal outside the `i16` range is rejected as out of range |
| UniGradings.IteratorFromZero | src/grading/unigrading.rs:116-122 | exactly the grades 0 ..= g (or 0 .. g without g itself), the i-th being i |
| UniGradings.InitMemory | src/grading/unigrading.rs:124-130 | one cell per grade 0 ..= g, each the constructed cell, indexable by every iterated grade |
| UniGradings.Nexts | src/grading/unigrading.rs:140-142 | a single successor, `incr` of the grade |
| UniGradings.IncomingsCountsPredecessors | src/grading/unigrading.rs:148-154 | `incomings` is the number of grades of the iteration range whose `nexts` reach g |
| BiGradings.Add | src/grading/bigrading.rs:20-33 | `+` and `+=` are componentwise and exact whenever each component fits in an `i16` |
| BiGradings.Sub | src/grading/bigrading.rs:35-48 | `-` and `-=` are componentwise and exact whenever each component fits |
| BiGradings.AddCommutes | src/grading/bigrading.rs:20-26 | addition is commutative with unit (0, 0) |
| BiGradings.AddAssociates | src/grading/bigrading.rs:20-26 | addition is associative, wrap-around included |
| BiGradings.SubUndoesAdd | src/grading/bigrading.rs:20-48 | `(a + b) - b == a`, `(a - b) + b == a` and `a - a == 0` |
| BiGradings.Sum | src/grading/bigrading.rs:84-88 | each component of the fold agrees with the exact sum modulo 2^16 |
| BiGradings.IntegerMultiplication | src/grading/bigrading.rs:124-126 | both components multiplied, exact whenever they fit |
| BiGradings.Infty | src/grading/bigrading.rs:128-130 | `infty` is at least every grade in both components |
| BiGradings.Incr | src/grading/bigrading.rs:157-159 | one more in each component that is below `i16::MAX` |
| BiGradings.CompareIsLexicographic | src/grading/bigrading.rs:161-163 | the derived order is lexicographic, total, antisymmetric and transitive |
| BiGradings.ToIndex | src/grading/bigrading.rs:104-106 | non-negative components are their own indices |
| BiGradings.Parse | src/grading/bigrading.rs:63-81 | success needs exactly two comma-separated parts; any other count is the part-count error |
| BiGradings.ParseLiterals | src/grading/bigrading.rs:63-81 | a grade parses exactly when the trimmed, unwrapped text has two comma-separated parts and each, trimmed, is an i16 literal; the result holds their two values |
| BiGradings.Component | src/grading/bigrading.rs:76-79 | one part is accepted exactly when, trimmed, it is an i16 literal, and gives its value |
| BiGradings.Unwrapped | src/grading/bigrading.rs:66-70 | one enclosing pair of parentheses is removed, and text without one is left as it is |
| BiGradings.ParseDisplay | src/grading/bigrading.rs:50-81 | parsing the printed grade gives the grade back |
| BiGradings.IteratorFromZero | src/grading/bigrading.rs:132-143 | exactly the grades (x, y) with 0 <= x <= t and 0 <= y <= s (without g when asked), in increasing order |
| BiGradings.Without | src/grading/bigrading.rs:138-141 | the filter keeps exactly the other grades and keeps them sorted |
| BiGradings.InitMemory | src/grading/bigrading.rs:145-155 | t+1 rows of s+1 cells, each the constructed cell, indexable by every iterated grade |
| BiGradings.InitRow | src/grading/bigrading.rs:148-152 | the inner loop builds s+1 copies of the cell |
| BiGradings.Nexts | src/grading/bigrading.rs:165-169 | the two successors, one up in each component |
| BiGradings.Incomings | src/grading/bigrading.rs:175-184 | at most 2, and 0 exactly when neither component is positive |
| BiGradings.PredecessorIsOneBelow | src/grading/bigrading.rs:165-169 | g is a successor of h exactly when h is one below g in one component |
| BiGradings.IncomingsCountsPredecessors | src/grading/bigrading.rs:175-184 | `incomings` is the number of grades of the iteration range whose `nexts` reach g |
| GradedMaps.AddRestrictTransform | src/helper.rs:15-31 | every entry whose shifted grade stays within the limit appears, shifted and transformed; nothing else does; the map does not grow |
| GradedMaps.AddRestrict | src/helper.rs:7-13 | the same with the values unchanged |
| GradedMaps.ImageSize | src/helper.rs:21-30 | shifting grades is injective, so no two entries collide |
| GradedMaps.UniLawful | src/helper.rs:15-31 | the `i16` grading meets the laws the helper relies on (shift and unshift undo each other) |
| GradedMaps.BiLawful | src/helper.rs:15-31 | the bigrading meets the same laws |
| Wrapping.Wrap | src/grading/unigrading.rs:23-25 | a release-build `i16` result equals the exact value whenever it is in range |
| Wrapping.WrapCongruent | src/grading/unigrading.rs:23-25 | exact results congruent modulo 2^16 wrap to the same `i16` |
| Wrapping.PlusLaws | src/grading/unigrading.rs:20-46 | wrapping `+` commutes and associates, and wrapping `-` undoes it |
| Wrapping.AsUsize | src/grading/unigrading.rs:88-90 | `as usize` keeps a non-negative value and sends a negative one above `usize::MAX - 2^15` |
| Wrapping.Cmp | src/grading/unigrading.rs:136-138 | `cmp` is `Equal`, `Less` or `Greater` exactly as the integers compare |
| FiniteFields.FpAdd | crates/algebra/src/rings/finite_fields.rs:11-17 | the sum is below P, and on two elements it is a + b or a + b − P |
| FiniteFields.FpMul | crates/algebra/src/rings/finite_fields.rs:19-25 | the product is below P, zero when a factor is zero, and a·b itself when that is below P |
| FiniteFields.FpAddArith | crates/algebra/src/rings/finite_fields.rs:11-41 | on elements, `+` commutes and associates with 0 as unit, `-a` is an additive inverse and `a - b` is `a + (-b)` |
| FiniteFields.FpMulArith | crates/algebra/src/rings/finite_fields.rs:11-25 | on elements, `*` commutes and associates with 1 as unit and distributes over `+` |
| FiniteFields.FpSub | crates/algebra/src/rings/finite_fields.rs:27-33 | `(P + a - b) % P` is the residue of a - b |
| FiniteFields.FpNeg | crates/algebra/src/rings/finite_fields.rs:35-41 | `(P - a) % P` is the residue of -a, and 0 for 0 |
| FiniteFields.FpInv | crates/algebra/src/rings/finite_fields.rs:112-134 | the square-and-multiply loop computes a^(P-2) mod P; for a prime P it is `None` exactly for 0 and otherwise a true inverse |
| FiniteFields.FpInverseCorrect | crates/algebra/src/rings/finite_fields.rs:112-134 | for prime P and nonzero a, a · a^(P-2) == 1 mod P (Fermat's little theorem) |
| NumberTheory.Fermat | crates/algebra/src/rings/finite_fields.rs:112-134 | a^(P-1) == 1 mod P for a prime P and a not divisible by P |
| FiniteFields.FpSum | crates/algebra/src/rings/finite_fields.rs:67-75 | summing in `u64` and reducing once gives the residue of the exact sum |
| FiniteFields.FpSumIsFold | crates/algebra/src/rings/finite_fields.rs:67-75 | that residue equals adding the terms one at a time in `Fp` |
| FiniteFields.FpParse | crates/algebra/src/rings/finite_fields.rs:92-97 | text that is not an `i32` literal is an error, as written with the truncating `%` |
| FiniteFields.FpParseNonNegative | crates/algebra/src/rings/finite_fields.rs:92-97 | a non-negative literal n parses to n mod P |
| FiniteFields.FpParseNegativeOutOfRange | crates/algebra/src/rings/finite_fields.rs:92-97 | with P = 3, "-1" parses to the byte 255, which is not below P, is not zero, yet is divisible by 3 |
| FiniteFields.FpParseReduced | crates/algebra/src/rings/finite_fields.rs:92-97 | the corrected parse always lands in 0 .. P-1, congruent to the literal |
| FiniteFields.FpParseReducedDecimal | crates/algebra/src/rings/finite_fields.rs:92-97 | every element's decimal text parses back to it |
| FiniteFields.FpRing | crates/algebra/src/rings/finite_fields.rs:83-110 | `Fp<P>` as a `CRing` record whose zero is 0 and one is 1, and whose `parse` is the code's own `Fp::parse` |
| FiniteFields.FpRingOperations | crates/algebra/src/rings/finite_fields.rs:83-110 | the record's elements are the bytes below P, `is_zero` and `is_unit` are exactly zero and nonzero on them, and `parse` fails exactly on text that is not an `i32` literal |
| FiniteFields.FpRingParsesAsWritten | crates/algebra/src/rings/finite_fields.rs:92-97 | the ring's `parse`, which `UniPolRing::parse` reaches through `F::parse`, reduces a non-negative literal modulo P, and in `Fp<3>` turns "-1" into 255, which is not an element |
| FiniteFields.FpIsField | crates/algebra/src/rings/finite_fields.rs:11-134 | for a prime P, `Fp<P>` with its operations satisfies the commutative-ring laws, and exactly its nonzero elements are invertible |
| FiniteFields.F2FromU64 | crates/algebra/src/rings/finite_fields.rs:198-202 | the result is 0 or 1 |
| FiniteFields.F2AddSelf | crates/algebra/src/rings/finite_fields.rs:143-164 | every element is its own negative: a + a == a - a == 0 |
| FiniteFields.F2Parse | crates/algebra/src/rings/finite_fields.rs:240-245 | non-literals are errors; a literal gives its low bit |
| FiniteFields.F2Sum | crates/algebra/src/rings/finite_fields.rs:210-219 | the low bit of the wrapping `u32` sum is the parity of the exact sum |
| FiniteFields.F2IsField | crates/algebra/src/rings/finite_fields.rs:140-267 | F2 with XOR and AND satisfies the field laws |
| UniPol.EqIsPolynomialEquality | crates/algebra/src/rings/univariate_polynomial_ring.rs:15-19 | `==` holds exactly when the two terms stand for the same polynomial, so zeros of any degree are equal |
| UniPol.Add | crates/algebra/src/rings/univariate_polynomial_ring.rs:123-143 | `+` panics exactly on two nonzero terms of different degree; otherwise the result has the degree of one of them |
| UniPol.AddIsPolynomialSum | crates/algebra/src/rings/univariate_polynomial_ring.rs:123-143 | when `+` answers, it answers the polynomial sum; when it panics, no single term is that sum |
| UniPol.SubSelf | crates/algebra/src/rings/univariate_polynomial_ring.rs:145-159 | a - a never panics and is zero |
| UniPol.Mul | crates/algebra/src/rings/univariate_polynomial_ring.rs:161-167 | the degrees add; past `u16::MAX` the `u16` sum wraps, and the product then has lower degree than either factor |
| UniPol.MulIsPolynomialProduct | crates/algebra/src/rings/univariate_polynomial_ring.rs:161-167 | without exponent overflow, `*` is the polynomial product |
| UniPol.UnitsAreInvertible | crates/algebra/src/rings/univariate_polynomial_ring.rs:26-35 | `is_unit` holds exactly when `try_inverse` answers, and the answer is an inverse |
| UniPol.DividesTotal | crates/algebra/src/rings/univariate_polynomial_ring.rs:106-115 | of two terms, not both zero, one divides the other |
| UniPol.DivideThenMultiply | crates/algebra/src/rings/univariate_polynomial_ring.rs:117-120 | for b nonzero of degree at most deg a, `unsafe_divide` does not panic and the quotient times b is a |
| UniPol.DividesHasQuotient | crates/algebra/src/rings/univariate_polynomial_ring.rs:106-120 | when a divides b, b is a times some term |
| UniPol.Parse | crates/algebra/src/rings/univariate_polynomial_ring.rs:45-72 | blank text is the zero term; an accepted text without 't' has degree 0, and one with a 't' but no '^' has degree 1 |
| UniPol.ParseEmpty | crates/algebra/src/rings/univariate_polynomial_ring.rs:45-50 | every text made only of whitespace, the empty text included, parses to the zero term |
| UniPol.ParseT | crates/algebra/src/rings/univariate_polynomial_ring.rs:51-66 | "t" alone is 1·t^1 |
| UniPol.ParseConstant | crates/algebra/src/rings/univariate_polynomial_ring.rs:69-72 | text without 't' is its coefficient times t^0 |
| UniPol.ParseTerm | crates/algebra/src/rings/univariate_polynomial_ring.rs:51-64 | "c t^k" parses to c·t^k |
| UniPol.SumOfOneDegree | crates/algebra/src/rings/univariate_polynomial_ring.rs:187-191 | the `Sum` fold over a non-empty list of terms of one degree never panics and gives the term of that degree whose coefficient is the field sum of their coefficients |
| FlatMatrices.FlatMatrix.Zero | crates/algebra/src/matrices/flat_matrix.rs:197-203 | a fresh `domain × codomain` matrix whose every entry is zero, stored in `domain·codomain` cells |
| FlatMatrices.FlatMatrix.Identity | crates/algebra/src/matrices/flat_matrix.rs:126-136 | a fresh square matrix with ones on the diagonal and zeros elsewhere |
| FlatMatrices.FlatMatrix.GetIndex | crates/algebra/src/matrices/flat_matrix.rs:32-34 | entry (column x, row y) lives at row-major position `y·domain + x`, inside the storage |
| FlatMatrices.FlatMatrix.GetElement | crates/algebra/src/matrices/flat_matrix.rs:36-38 | `get_element(row, col)` reads the entry at that row and column |
| FlatMatrices.FlatMatrix.Get | crates/algebra/src/matrices/flat_matrix.rs:138-140 | `get(domain, codomain)` reads the entry in that column and row |
| FlatMatrices.FlatMatrix.SetElement | crates/algebra/src/matrices/flat_matrix.rs:40-42 | writes one entry; every other entry and the shape are unchanged |
| FlatMatrices.FlatMatrix.Set | crates/algebra/src/matrices/flat_matrix.rs:142-144 | writes the entry in that column and row and nothing else |
| FlatMatrices.FlatMatrix.AddAt | crates/algebra/src/matrices/flat_matrix.rs:146-149 | the one entry becomes itself plus r; all others are unchanged |
| FlatMatrices.FlatMatrix.GetRow | crates/algebra/src/matrices/flat_matrix.rs:151-155 | the slice returned is exactly row y |
| FlatMatrices.FlatMatrix.SetRow | crates/algebra/src/matrices/flat_matrix.rs:157-162 | the first `|row|` entries of row y become `row`; the rest of the matrix is unchanged |
| FlatMatrices.FlatMatrix.Transpose | crates/algebra/src/matrices/flat_matrix.rs:82-95 | a fresh matrix with domain and codomain exchanged and entry (x, y) equal to entry (y, x) of the original; transposing twice gives the original back (`Mats.TransposeTwice`) |
| FlatMatrices.FlatMatrix.Clone | crates/algebra/src/matrices/flat_matrix.rs:9 | a fresh matrix with the same shape and entries |
| FlatMatrices.FlatMatrix.ExtendOneRow | crates/algebra/src/matrices/flat_matrix.rs:205-208 | one more row of zeros at the bottom; the old rows are unchanged |
| FlatMatrices.FlatMatrix.SwapRows | crates/algebra/src/matrices/flat_matrix.rs:210-219 | rows r1 and r2 exchanged, every other entry unchanged; doing it twice restores the matrix (`Mats.SwapTwice`) |
| FlatMatrices.FlatMatrix.SwapCols | crates/algebra/src/matrices/flat_matrix.rs:221-230 | columns c1 and c2 exchanged, every other entry unchanged |
| FlatMatrices.FlatMatrix.VStack | crates/algebra/src/matrices/flat_matrix.rs:97-106 | the rows of the matrix followed by those of `other`, same domain |
| FlatMatrices.FlatMatrix.BlockSum | crates/algebra/src/matrices/flat_matrix.rs:108-124 | the block-diagonal matrix with the original top-left, `other` bottom-right and zeros elsewhere (`Mats.BlockSumIsPaste` ties the row copies to this) |
| FlatMatrices.FlatMatrix.Compose | crates/algebra/src/matrices/flat_matrix.rs:172-195 | a fresh matrix equal to the product `self ∘ rhs`, whose laws are `MatAlgebra.ComposeAssoc`, `Mats.ComposeIdentity` and `MatAlgebra.TransposeCompose` |
| FlatMatrices.FlatMatrix.RowTimesColumn | crates/algebra/src/matrices/flat_matrix.rs:182-186 | the inner loop's sum is the entry of the product at that position |
| FlatMatrices.FlatMatrix.ScalarMultiplyRow | crates/algebra/src/matrix.rs:20-25 | every entry of row y becomes r times itself; other rows are unchanged |
| FlatMatrices.FlatMatrix.ScalarMultiplyColumn | crates/algebra/src/matrix.rs:38-43 | every entry of column x becomes r times itself; other columns are unchanged |
| FlatMatrices.FlatMatrix.EvalVector | crates/algebra/src/matrix.rs:27-36 | the matrix applied to the vector, each entry the product of one row with it; equal to composing with the vector as a column (`Mats.ApplyIsCompose`) |
| FlatMatrices.FlatMatrix.GetColumn | crates/algebra/src/matrix.rs:45-52 | the returned vector is column x, top to bottom |
| FlatMatrices.FlatMatrix.SetColumn | crates/algebra/src/matrix.rs:55-59 | column x becomes the first `codomain` entries of the argument; reading it back gives them (`Mats.ColumnAfterSetColumn`) |
| FlatMatrices.FlatMatrix.SetRowZero | crates/algebra/src/matrix.rs:61-65 | row y becomes zero and nothing else changes |
| FlatMatrices.FlatMatrix.IsRowNonZero | crates/algebra/src/matrix.rs:67-69 | true exactly when some entry of row y is not zero |
| FlatMatrices.FlatMatrix.DefaultSwapRows | crates/algebra/src/matrix.rs:85-94 | the trait's entry-by-entry row swap gives the same matrix as the storage swap |
| FlatMatrices.FlatMatrix.DefaultSwapCols | crates/algebra/src/matrix.rs:115-124 | the trait's entry-by-entry column swap gives the same matrix as the storage swap |
| FlatMatrices.FlatMatrix.IsUnit | crates/algebra/src/matrix.rs:96-112 | `Ok` exactly when every diagonal entry is one and every other entry is zero, which on a square matrix is being the identity (`FlatMatrices.UnitShapedIsIdentity`) |
| FlatMatrices.FlatMatrix.AddRowMultiple | crates/algebra/src/matrix.rs:127-135 | row t gains f times row s (nothing when f is zero); adding −f times it afterwards restores the matrix (`Mats.AddMultipleUndo`) |
| FlatMatrices.FlatMatrix.AddColMultiple | crates/algebra/src/matrix.rs:138-146 | column t gains f times column s (nothing when f is zero) |
| FlatMatrices.UnitShapedIsIdentity | crates/algebra/src/matrix.rs:96-112 | a square matrix passes `is_unit` exactly when it is the identity |
| FlatMatrices.SetRowZeroClearsRow | crates/algebra/src/matrix.rs:61-69 | after `set_row_zero(y)`, `is_row_non_zero(y)` is false |
| Mats.GetAfterSet | crates/algebra/src/matrices/flat_matrix.rs:138-144 | reading the entry just written gives the value; every other entry reads as before |
| Mats.TransposeTwice | crates/algebra/src/matrices/flat_matrix.rs:82-95 | the transpose of the transpose is the original matrix |
| Mats.VStackEntries | crates/algebra/src/matrices/flat_matrix.rs:97-106 | a row above the first matrix's height is that matrix's row; below it, the second's row shifted up |
| Mats.BlockSumIsPaste | crates/algebra/src/matrices/flat_matrix.rs:108-124 | copying the rows of both blocks into a zero matrix at their offsets produces the block sum |
| Mats.ColumnAfterSetColumn | crates/algebra/src/matrix.rs:45-59 | `get_column` after `set_column` returns what was written; other columns are unchanged |
| Mats.SwapTwice | crates/algebra/src/matrix.rs:85-94 | swapping the same two rows, or columns, twice gives the matrix back |
| Mats.ComposeIdentity | crates/algebra/src/matrices/flat_matrix.rs:126-136 | the identity is a unit for composition on both sides |
| Mats.RowOpsCommuteWithCompose | crates/algebra/src/matrix.rs:85-135 | a row swap or row addition on the left factor is the same operation on the product |
| Mats.ColOpsCommuteWithCompose | crates/algebra/src/matrix.rs:115-146 | a column swap or column addition on the right factor is the same operation on the product |
| Mats.AddMultipleUndo | crates/algebra/src/matrix.rs:127-146 | adding f times a row (column) and then −f times it gives the matrix back |
| Mats.ApplyIsCompose | crates/algebra/src/matrix.rs:27-36 | `eval_vector` is composition with the vector as a one-column matrix |
| Mats.DotPlusLeft | crates/algebra/src/matrices/flat_matrix.rs:182-186 | the row-times-column sum is linear in its left factor |
| Mats.DotPlusRight | crates/algebra/src/matrices/flat_matrix.rs:182-186 | the row-times-column sum is linear in its right factor |
| Mats.DotUnit | crates/algebra/src/matrices/flat_matrix.rs:126-136 | the product with a unit vector picks out one entry |
| MatAlgebra.ComposeAssoc | crates/algebra/src/matrices/flat_matrix.rs:172-195 | composition is associative |
| MatAlgebra.ComposeZero | crates/algebra/src/matrices/flat_matrix.rs:172-203 | composing with a zero matrix gives zero |
| MatAlgebra.TransposeCompose | crates/algebra/src/matrices/flat_matrix.rs:82-195 | the transpose of a product is the product of the transposes in the other order |
| MatAlgebra.ScaleRowCommutesWithCompose | crates/algebra/src/matrix.rs:20-25 | scaling a row of the left factor scales that row of the product |
| MatAlgebra.RowOpsAreProducts | crates/algebra/src/matrix.rs:85-135 | every row operation is composition on the left with that operation applied to the identity |
| MatAlgebra.SwapInverse | crates/algebra/src/matrix.rs:85-94 | the swap matrix is its own inverse |
| MatAlgebra.AddMultipleInverse | crates/algebra/src/matrix.rs:127-135 | the matrix adding f times row s to row t is inverted by the one adding −f times it |
| MatAlgebra.ScaleInverse | crates/algebra/src/matrix.rs:20-25 | scaling a row by an invertible c is undone by scaling it by c's inverse |
| MatAlgebra.ApplyCompose | crates/algebra/src/matrix.rs:27-36 | applying a ∘ b to v is applying a to b·v |
| MatAlgebra.RowTransformsKeepKernel | crates/algebra/src/matrix.rs:85-135 | row equivalent matrices have exactly the same kernel vectors |
| MatAlgebra.AnnihilatesCombinations | crates/algebra/src/matrices/flat_matrix.rs:172-195 | if m kills every row of k, it kills every combination of them |
| MatAlgebra.SpansRowEquivalent | crates/algebra/src/matrix.rs:85-135 | the rows of k span the kernel of a exactly when they span that of any s row equivalent to a |
| MatAlgebra.SpansRowTransforms | crates/algebra/src/matrix.rs:85-135 | invertible row operations on k do not change what its rows span |
| MatAlgebra.DifferenceKernel | crates/algebra/src/matrix.rs:27-36 | the difference of two kernel vectors is a kernel vector |
| MatAlgebra.TrivialKernelRowEquivalent | crates/algebra/src/matrix.rs:85-135 | one of two row equivalent matrices has trivial kernel exactly when the other does |
| Linalg.FindPivot | crates/algebra/src/matrices/linalg.rs:58-68 | the search from row r stops at a nonzero entry at or below row r and at or right of the starting column, everything passed over being zero; it reports failure only after every column is exhausted |
| Linalg.ScaleRowInPlace | crates/algebra/src/matrices/linalg.rs:74-81 | `data[idx] *= pivot_inv` along row r is `scalar_multiply_row` on that row |
| Linalg.EliminateRow | crates/algebra/src/matrices/linalg.rs:83-92 | `data[idx] -= factor * el` along row i subtracts factor times the pivot row from it and changes nothing else |
| Linalg.Rref | crates/algebra/src/matrices/linalg.rs:50-96 | over a field the matrix ends in reduced row echelon form (pivots one, alone in their columns, in increasing columns, zero rows last), same shape, reached from the input by invertible row operations |
| Linalg.ClearedStep | crates/algebra/src/matrices/linalg.rs:83-92 | subtracting the multiple of the pivot row clears that entry of the pivot column and keeps the columns before it as they were |
| Linalg.Pivots | crates/algebra/src/matrices/linalg.rs:99-113 | the list is the row-by-row scan for the next nonzero entry right of the last pivot |
| Linalg.PivotScanOrdered | crates/algebra/src/matrices/linalg.rs:99-113 | the reported pairs point at nonzero entries, in strictly increasing rows and columns |
| Linalg.PivotsOfRref | crates/algebra/src/matrices/linalg.rs:99-113 | on a reduced matrix `pivots` reports exactly its pivot columns, each with its own row |
| Linalg.FirstNonZeroEntry | crates/algebra/src/matrices/linalg.rs:116-125 | None exactly when every entry is zero; otherwise (row, column) of a nonzero entry with every entry before it in row-major order zero |
| Linalg.FreeColumns | crates/algebra/src/matrices/linalg.rs:128-135 | the columns below the width that are not pivot columns, in increasing order |
| Linalg.FreeColsCount | crates/algebra/src/matrices/linalg.rs:128-137 | there are width minus rank free columns, so `rref_kernel` has that many rows |
| Linalg.RrefKernel | crates/algebra/src/matrices/linalg.rs:127-153 | a fresh matrix with one row per free column: a one at that column, minus the column's entries at the pivot columns, zero elsewhere |
| Linalg.RrefKernelSound | crates/algebra/src/matrices/linalg.rs:127-153 | on a reduced matrix every row `rref_kernel` builds is a kernel vector |
| Linalg.RrefKernelSpans | crates/algebra/src/matrices/linalg.rs:127-153 | on a reduced matrix every kernel vector is a combination of the rows `rref_kernel` builds |
| Linalg.KernelMatNonZero | crates/algebra/src/matrices/linalg.rs:139-146 | with a free column, the built kernel is not all zero |
| Linalg.FullRankIffTrivial | crates/algebra/src/matrices/linalg.rs:127-153 | a reduced matrix has only the zero kernel vector exactly when every column holds a pivot |
| Linalg.KernelOfReduced | crates/algebra/src/matrices/linalg.rs:8-14 | the rows built from a reduced form, after row operations, are killed by the original matrix, span its kernel and number width minus rank |
| Linalg.KernelZeroIffTrivial | crates/algebra/src/matrices/linalg.rs:8-14 | the kernel returned is all zero exactly when the original matrix has trivial kernel |
| Linalg.KernelResult | crates/algebra/src/matrices/linalg.rs:8-14 | the facts of the three steps of `kernel` combine into its promise: right shape, killed by m, spanning its kernel, reduced with a pivot in every row, zero exactly when the kernel is trivial |
| Linalg.ReducedKernelFullRank | crates/algebra/src/matrices/linalg.rs:8-14 | reducing the `rref_kernel` rows loses no row: every row of the result holds a pivot |
| Linalg.KernelMatFreeColumns | crates/algebra/src/matrices/linalg.rs:127-153 | the `rref_kernel` rows restricted to the free columns are the identity |
| MatAlgebra.WideHasKernel | crates/algebra/src/matrices/linalg.rs:8-14 | a matrix over a field with more columns than rows sends some nonzero vector to zero (the rank bound behind the pivot count of `kernel`) |
| MatAlgebra.TrivialKernelNarrow | crates/algebra/src/matrices/linalg.rs:8-14 | a matrix over a field with a trivial kernel has no more columns than rows |
| Linalg.Kernel | crates/algebra/src/matrices/linalg.rs:8-14 | a fresh reduced matrix with m's domain and width minus rank rows, each holding a pivot, every row a kernel vector of m, the rows spanning the kernel of m, all zero exactly when the kernel is trivial |
| Linalg.KernelOfIdentity | crates/algebra/src/matrices/linalg.rs:8-14 | any reduced form of an identity has a pivot in every column |
| Linalg.Cokernel | crates/algebra/src/matrices/linalg.rs:16-20 | the kernel of the transpose: one row per non-pivot column of the transpose's reduced form, in reduced form itself with a pivot in every row, killed by the transpose and spanning its kernel, all zero exactly when that kernel is trivial; paired with the empty 0×0 matrix |
| Linalg.KernelFindSingleGenerator | crates/algebra/src/matrices/linalg.rs:45-48 | None exactly when the kernel is trivial; otherwise the least column at which some kernel vector is nonzero |
| Linalg.FirstEntryOfReduced | crates/algebra/src/matrices/linalg.rs:45-48 | in a reduced matrix, the columns before the first nonzero entry in row-major order are zero |
| Linalg.ZeroColumnGeneratesNothing | crates/algebra/src/matrices/linalg.rs:45-48 | a column at which every spanning kernel row is zero is zero in every kernel vector |
| Linalg.LeastGenerator | crates/algebra/src/matrices/linalg.rs:45-48 | the column of the first nonzero entry of the reduced kernel is the least column any kernel vector is nonzero at |
| Linalg.UnitRowsKill | crates/algebra/src/matrices/linalg.rs:36-38 | after a unit row at column p is appended, every kernel vector is zero at p |
| Linalg.KernelGenerators | crates/algebra/src/matrices/linalg.rs:30-41 | distinct in-range columns, each a generator of the kernel of the matrix grown so far, and once the loop ends the grown matrix has trivial kernel |
| RrefPivots.FreeInRowEquivalent | crates/algebra/src/matrices/linalg.rs:50-96 | row operations keep which columns some kernel vector ends at |
| RrefPivots.PivotsAreNotFree | crates/algebra/src/matrices/linalg.rs:127-153 | a column is a pivot column of a reduced form exactly when no kernel vector ends there |
| RrefPivots.ReducedFormsSamePivots | crates/algebra/src/matrices/f2_linalg.rs:188-192 | any two reduced forms of one matrix have the same pivot columns, so the rank does not depend on the reduction |
| Augmented.AugmentBlocks | crates/algebra/src/matrices/f2_linalg.rs:228-243 | [A \| B] has A in its first columns and B after them |
| Augmented.LeftReducedForm | crates/algebra/src/matrices/f2_linalg.rs:228-246 | reducing [A \| B] reduces A: its first columns are a reduced form of A by the same row operations, with the pivots below A's width |
| Augmented.AugmentKernel | crates/algebra/src/matrices/f2_linalg.rs:223-270 | A·x equals column j of B exactly when x followed by minus the j-th unit vector is a kernel vector of [A \| B] |
| Augmented.ColumnUnsolvable | crates/algebra/src/matrices/f2_linalg.rs:248-254 | a reduced row zero on A with its pivot in B's column j means no x has A·x equal to column j |
| Augmented.SolutionSolves | crates/algebra/src/matrices/f2_linalg.rs:256-269 | with no pivot past A, the solution read off the reduced form maps to column j of B |
| Augmented.LeftPivots | crates/algebra/src/matrices/f2_linalg.rs:249-254 | the pivots of A are those of the reduced [A \| B] that lie below A's width |
| Augmented.AugmentedRanks | crates/algebra/src/matrices/f2_linalg.rs:249-254 | the rank of [A \| B] exceeds that of A exactly when the reduced form has a pivot past A |
| Augmented.SolveOutcome | crates/algebra/src/matrices/f2_linalg.rs:223-270 | some column of B is unsolvable exactly when a pivot lies past A; otherwise every solution row read off maps to its column of B |
| F2Matrices.WordsPerRow | crates/algebra/src/matrices/f2_matrix.rs:20 | `(domain + 63) >> 6` is the number of 64-bit words a row of that many bits needs, rounded up |
| F2Matrices.F2Matrix.Zero | crates/algebra/src/matrices/f2_matrix.rs:40-43 | words-per-row · codomain zero words, holding the zero matrix |
| F2Matrices.F2Matrix.Clone | crates/algebra/src/matrices/f2_matrix.rs:8 | a fresh matrix holding the same entries |
| F2Matrices.F2Matrix.Index | crates/algebra/src/matrices/f2_matrix.rs:16-24 | the word index lies inside the storage, the shift is below 64, and that bit of that word is entry (x, y) |
| F2Matrices.F2Matrix.GetElement | crates/algebra/src/matrices/f2_matrix.rs:26-29 | `(word >> shift) & 1` is entry (x, y) |
| F2Matrices.F2Matrix.SetElement | crates/algebra/src/matrices/f2_matrix.rs:31-34 | clearing the bit and or-ing in `el` writes entry (x, y) and no other entry, padding bits staying clear |
| F2Matrices.F2Matrix.AddAt | crates/algebra/src/matrices/f2_matrix.rs:53-56 | xor-ing r into the bit adds r to entry (x, y) in F2 and changes nothing else |
| F2Matrices.AddAtTwice | crates/algebra/src/matrices/f2_matrix.rs:53-56 | adding one twice at the same entry gives the matrix back |
| F2Matrices.F2Matrix.ExtendOneRow | crates/algebra/src/matrices/f2_matrix.rs:161-169 | pushing words-per-row zero words appends one zero row |
| F2Matrices.F2Matrix.VStack | crates/algebra/src/matrices/f2_matrix.rs:111-119 | appending the other's words stacks its rows under ours |
| F2Matrices.F2Matrix.BlockSum | crates/algebra/src/matrices/f2_matrix.rs:121-159 | after both loops the new words hold the block sum: self top-left, other bottom-right, zero elsewhere |
| F2Matrices.CopyWords | crates/algebra/src/matrices/f2_matrix.rs:130-139 | the first loop of `block_sum` places self's rows at the start of the wider rows and nothing else |
| F2Matrices.PlaceOther | crates/algebra/src/matrices/f2_matrix.rs:141-154 | the second loop or-s in each one of other at its shifted position, which completes the block sum |
| F2Matrices.F2Matrix.Transpose | crates/algebra/src/matrices/f2_matrix.rs:91-101 | a fresh matrix holding the transpose |
| F2Matrices.F2Matrix.ComposedEntry | crates/algebra/src/matrices/f2_matrix.rs:80-83 | the inner sum is the F2 product of row j of self with column i of rhs |
| F2Matrices.F2Matrix.Compose | crates/algebra/src/matrices/f2_matrix.rs:74-89 | a fresh matrix holding `self ∘ rhs`, the same product as the generic matrices |
| F2Bits.SetBitSame | crates/algebra/src/matrices/f2_matrix.rs:33 | the masked write makes the addressed bit equal to `el` |
| F2Bits.SetBitOther | crates/algebra/src/matrices/f2_matrix.rs:33 | the masked write keeps every other bit of the word |
| F2Bits.FlipBitSame | crates/algebra/src/matrices/f2_matrix.rs:55 | the xor adds r to the addressed bit |
| F2Bits.FlipBitOther | crates/algebra/src/matrices/f2_matrix.rs:55 | the xor keeps every other bit of the word |
| F2LinAlg.SwapRows | crates/algebra/src/matrices/f2_linalg.rs:103-115 | exchanging the words of two rows exchanges the rows and changes nothing else, and nothing happens when they are the same row |
| F2LinAlg.AddRowToRow | crates/algebra/src/matrices/f2_linalg.rs:118-126 | xor-ing the words of row `from` into row `to` adds row `from` to row `to` in F2 and changes no other row |
| F2LinAlg.AddRowToItself | crates/algebra/src/matrices/f2_linalg.rs:118-126 | with `from == to` the row becomes zero, since x + x = 0 in F2 |
| F2LinAlg.FindPivot | crates/algebra/src/matrices/f2_linalg.rs:72-82 | with the intended reads, the pivot search, reading entry (lead, i), stops at a one at or below row r, everything passed over being zero, and fails only past the last column |
| F2LinAlg.Rref | crates/algebra/src/matrices/f2_linalg.rs:63-100 | with the intended reads the words end up holding a reduced row echelon form reached by row swaps and row additions |
| F2LinAlg.Pivots | crates/algebra/src/matrices/f2_linalg.rs:129-143 | the list is the same row-by-row scan as the generic `pivots`, with its ordering and exactness lemmas |
| F2LinAlg.FirstNonZeroEntry | crates/algebra/src/matrices/f2_linalg.rs:146-155 | with the intended reads, None exactly when the matrix is zero, else (row, column) of the first one in row-major order |
| F2LinAlg.RrefKernel | crates/algebra/src/matrices/f2_linalg.rs:158-185 | the same rows as the generic `rref_kernel`, since −x = x in F2 |
| F2LinAlg.Kernel | crates/algebra/src/matrices/f2_linalg.rs:7-14 | with the intended reads, a fresh reduced matrix with width minus rank rows, each holding a pivot and each a kernel vector, spanning the kernel, all zero exactly when the kernel is trivial |
| F2LinAlg.KernelFindSingleGenerator | crates/algebra/src/matrices/f2_linalg.rs:56-59 | with the intended reads, None exactly when the kernel is trivial; else the least column some kernel vector is nonzero at |
| F2LinAlg.LeastGenerator | crates/algebra/src/matrices/f2_linalg.rs:56-59 | with the intended reads, the column of the first one of the reduced F2 kernel is the least column any kernel vector is nonzero at |
| F2LinAlg.KernelDestroyers | crates/algebra/src/matrices/f2_linalg.rs:41-52 | with the intended reads, distinct in-range columns, each a generator of the kernel of the matrix grown so far, with trivial kernel at the end |
| F2LinAlg.ReprVecs | crates/algebra/src/matrices/f2_linalg.rs:22-25 | starting from the zero matrix and setting a one at (row, column) for each reported pivot yields exactly the selector of the pivots |
| F2LinAlg.SelectorGrows | crates/algebra/src/matrices/f2_linalg.rs:23-25 | one pass of the loop turns the selector of the first i pivots into the selector of the first i + 1 |
| F2LinAlg.SelectorRightInverse | crates/algebra/src/matrices/f2_linalg.rs:22-28 | the cokernel composed with `repr_vecs` is the identity on its first rank rows, and the full identity exactly when every row holds a pivot |
| F2LinAlg.Cokernel | crates/algebra/src/matrices/f2_linalg.rs:16-31 | with the intended reads, the kernel of the transpose with the kernel promises, in reduced form with a pivot in every row, and `repr_vecs` with a one at each pivot, so that the cokernel composed with it is the identity the `debug_assert!` checks |
| F2LinAlg.OnlyEntryInColumn | crates/algebra/src/matrices/f2_linalg.rs:211-217 | with the intended read, true exactly when every row but the pivot row is zero in the pivot column |
| F2LinAlg.IsRref | crates/algebra/src/matrices/f2_linalg.rs:200-220 | with the intended reads, the answer is the check: reported pivot columns increase and each pivot is alone in its column |
| F2LinAlg.ReducedPassesCheck | crates/algebra/src/matrices/f2_linalg.rs:200-220 | with the intended reads, every matrix in reduced row echelon form passes `is_rref` |
| F2LinAlg.CheckAcceptsUnreduced | crates/algebra/src/matrices/f2_linalg.rs:200-220 | the converse fails: the rows (0 1), (1 0) pass the check but are in no reduced row echelon form |
| F2Systems.Rank | crates/algebra/src/matrices/f2_linalg.rs:188-192 | with the intended reads, the number of pivots of a reduced form, which every reduced form shares; at most both dimensions; equal to the width exactly when the kernel is trivial |
| F2Systems.RankOfReduced | crates/algebra/src/matrices/f2_linalg.rs:188-192 | the same facts for a reduced form reached by row operations, over any field |
| F2Systems.Nullity | crates/algebra/src/matrices/f2_linalg.rs:195-197 | with the intended reads, width minus rank, the number of free columns, zero exactly when the kernel is trivial |
| F2Systems.BuildAugmented | crates/algebra/src/matrices/f2_linalg.rs:228-243 | the two copy loops build [A \| b] |
| F2Systems.ExtractSolution | crates/algebra/src/matrices/f2_linalg.rs:256-267 | with the intended read, the solution matrix holds, for each pivot below A's width, the pivot row's entries in b's columns |
| F2Systems.Solve | crates/algebra/src/matrices/f2_linalg.rs:223-270 | with the intended reads, None exactly when the codomains differ or some column of b is the image of no vector; otherwise row j of the answer maps to column j of b under A |
| F2LinAlg.FirstNonZeroEntryAsWritten | crates/algebra/src/matrices/f2_linalg.rs:146-155 | `first_non_zero_entry` as written, reading `get_element(row, col)`: None exactly when every swapped read is 0, otherwise a position whose swapped read is 1 |
| F2LinAlg.FirstNonZeroEntryMisread | crates/algebra/src/matrices/f2_linalg.rs:149 | for words [0, 1] (one column, two rows) every swapped read is 0 though entry (1, 0) is 1 |
| F2LinAlg.PivotSearchAsWritten | crates/algebra/src/matrices/f2_linalg.rs:72-82 | the pivot search of `rref` as written: a found pivot has swapped read 1; when none is found every swapped read from row r and column lead on is 0 |
| F2LinAlg.RrefMisread | crates/algebra/src/matrices/f2_linalg.rs:73 | for words [0, 1] the swapped reads are all 0, yet the matrix is not zero below row 0, so `rref` as written leaves it unreduced |
| F2LinAlg.ClearColumn | crates/algebra/src/matrices/f2_linalg.rs:90-95 | with the intended read, adding the pivot row to every other row with a one in column lead extends the echelon form by pivot lead and keeps the matrix row-equivalent to the input |
| F2LinAlg.ClearColumnAsWritten | crates/algebra/src/matrices/f2_linalg.rs:90-95 | the elimination loop of `rref` as written, testing `get_element(i, lead)`: the pivot row is kept, every other row is kept or has the pivot row added once, and when no swapped read is one nothing changes |
| F2LinAlg.ClearMisread | crates/algebra/src/matrices/f2_linalg.rs:92 | for words [1, 1] (rows (1 0) and (1 0)), pivot row 0 and column 0, the only swapped read is 0 though entry (row 1, column 0) is 1, so `rref` as written leaves a one below the pivot |
| F2LinAlg.OnlyEntryInColumnAsWritten | crates/algebra/src/matrices/f2_linalg.rs:211-217 | the inner check of `is_rref` as written: true exactly when the swapped read of every other row is 0 |
| F2LinAlg.IsRrefMisread | crates/algebra/src/matrices/f2_linalg.rs:213 | words [3, 0] (2×2) form a reduced matrix that passes the intended check, yet a swapped read is 1, so `is_rref` as written rejects it |
| F2Systems.SolutionReadAsWritten | crates/algebra/src/matrices/f2_linalg.rs:264 | the solution bit `solve` reads as written, with swapped coordinates, is a bit |
| F2Systems.SolveReadsPastEnd | crates/algebra/src/matrices/f2_linalg.rs:264 | for A = [1], b = [1] every column of b is solvable, but the swapped read of `solve` falls past the end of the one-word augmented matrix |
| Snf.FieldIsValuationRing | crates/algebra/src/ring.rs:45-50 | every field, with "a divides b iff a is nonzero" and b / a = b·a⁻¹, meets the divisibility laws `full_snf` relies on |
| Snf.FpIsValuationRing | crates/algebra/src/ring.rs:45-50 | so does Fp for every prime p |
| Snf.F2IsValuationRing | crates/algebra/src/ring.rs:45-50 | so does F2 |
| Snf.DominatesReplaced | crates/algebra/src/snf.rs:45-48 | when the candidate does not divide an entry, that entry divides the candidate and therefore everything the candidate divided |
| Snf.EliminationZero | crates/algebra/src/snf.rs:71-77 | the factor −(entry / pivot) is a nonzero element that makes the entry zero |
| Snf.ActUndo | crates/algebra/src/snf.rs:97-116 | each logged action and its replayed inverse (a swap, or an addition with the factor negated) cancel in either order |
| Snf.DoUndoRows | crates/algebra/src/snf.rs:97-106 | replaying the row log backwards undoes it, and applying it undoes the replay |
| Snf.DoUndoCols | crates/algebra/src/snf.rs:107-116 | the same for the column log |
| Snf.DoRowsIsCompose | crates/algebra/src/snf.rs:57-77 | applying the row log to a matrix is composing it on the left with the log applied to the identity |
| Snf.DoColsIsCompose | crates/algebra/src/snf.rs:61-89 | applying the column log is composing on the right with the log applied to the identity |
| Snf.RowLogInverse | crates/algebra/src/snf.rs:94-106 | the replayed U⁻¹ is a two-sided inverse of U |
| Snf.ColLogInverse | crates/algebra/src/snf.rs:95-116 | the replayed V⁻¹ is a two-sided inverse of V |
| Snf.TracksRow | crates/algebra/src/snf.rs:57-77 | a row action applied to both S and U, and logged, keeps S = U·A·V |
| Snf.TracksCol | crates/algebra/src/snf.rs:61-89 | a column action applied to both S and V, and logged, keeps S = U·A·V |
| Snf.FindCandidate | crates/algebra/src/snf.rs:39-50 | the search returns an entry of the submatrix from (r, r) on that divides every entry there, or is zero when they all are |
| Snf.ZeroCandidate | crates/algebra/src/snf.rs:52-54 | a zero candidate means the whole remaining submatrix is zero |
| Snf.StopAtZero | crates/algebra/src/snf.rs:52-54 | breaking at a zero candidate leaves S in Smith form of rank r |
| Snf.PlacedPhase | crates/algebra/src/snf.rs:56-63 | after the two swaps the candidate sits at (r, r), divides everything after it, and the diagonal chain extends to it |
| Snf.PlaceCandidate | crates/algebra/src/snf.rs:56-63 | the swaps are applied to S, U and V and logged, keeping S = U·A·V, and start the row phase |
| Snf.SwapPivotRow | crates/algebra/src/snf.rs:57-59 | swapping rows r and cy of U and S and logging the swap keeps S = U·A·V and U the product of the logged actions |
| Snf.SwapPivotCol | crates/algebra/src/snf.rs:61-63 | swapping columns r and cx of S and V and logging the swap keeps S = U·A·V and V the product of the logged actions |
| Snf.RowPhaseStep | crates/algebra/src/snf.rs:70-79 | clearing one more entry below the pivot keeps the pivot dividing the rest and the entries above cleared |
| Snf.ReduceRows | crates/algebra/src/snf.rs:69-79 | the row loop clears column r below the pivot, keeping S = U·A·V |
| Snf.ColPhaseStep | crates/algebra/src/snf.rs:82-90 | clearing one more entry right of the pivot keeps the pivot dividing the rest |
| Snf.ReduceCols | crates/algebra/src/snf.rs:81-90 | the column loop clears row r right of the pivot, keeping S = U·A·V, which completes round r |
| Snf.ColsDone | crates/algebra/src/snf.rs:81-91 | at the end of round r the first r + 1 diagonal entries are the only nonzero entries of their rows and columns, each divides the next, and the last divides everything after it |
| Snf.Round | crates/algebra/src/snf.rs:56-90 | one round with a nonzero candidate extends that invariant by one |
| Snf.Step | crates/algebra/src/snf.rs:37-91 | a round either stops with S in Smith form or extends the invariant by one |
| Snf.DiagonalDone | crates/algebra/src/snf.rs:35-37 | once no row or column is left, the invariant is Smith form |
| Snf.Rounds | crates/algebra/src/snf.rs:35-91 | the rounds end with S = U·A·V in Smith form |
| Snf.ReplayRows | crates/algebra/src/snf.rs:94-106 | U⁻¹ is the identity with the row log undone, last action first |
| Snf.ReplayCols | crates/algebra/src/snf.rs:95-116 | V⁻¹ is the identity with the column log undone, last action first |
| Snf.FullSnf | crates/algebra/src/snf.rs:18-119 | U·A·V = S with U, V square of the right sizes, U⁻¹ and V⁻¹ two-sided inverses, and S diagonal: nonzero exactly on the first rank diagonal entries, each dividing the next |
| UniPolMorphisms.EntryCheckLegal | crates/algebra/src/unipol/morphism.rs:58-84 | the per-entry checks of `verify` pass exactly on a legal entry: zero, or of power below the target's quotient, and from a cyclic source only to a cyclic target that t^power does not collapse |
| UniPolMorphisms.ScanFromLegal | crates/algebra/src/unipol/morphism.rs:56-88 | the scan over the entries from a position on finds no failure exactly when every entry from there on is legal |
| UniPolMorphisms.Checked | crates/algebra/src/unipol/morphism.rs:48-89 | a domain size mismatch is reported first, then a codomain size mismatch; a map the checks accept is a morphism, with or without the wrapping cycle sum |
| UniPolMorphisms.ScanFromStricter | crates/algebra/src/unipol/morphism.rs:56-88 | the wrapping cycle sum is never above the true one, so a scan that passes with it passes without it |
| UniPolMorphisms.VerifyAsWritten | crates/algebra/src/unipol/morphism.rs:48-89 | `verify` as written, with its `u16` cycle sum, accepts only morphisms, and only maps the non-wrapping check accepts |
| UniPolMorphisms.VerifyMeansMorphism | crates/algebra/src/unipol/morphism.rs:48-89 | with the cycle sum taken without wrapping, `verify` returns Ok exactly when the sizes match and every entry is legal |
| UniPolMorphisms.Verify | crates/algebra/src/unipol/morphism.rs:48-89 | the size errors first, then the first failing entry with domain index major; Ok exactly on a well-defined reduced map |
| UniPolMorphisms.VerifyAsWrittenRejectsLegalMap | crates/algebra/src/unipol/morphism.rs:74 | with a wrapping `u16` sum, a legal map from k[t]/t^65535 to k[t]/t² by t is rejected |
| UniPolMorphisms.Reduce | crates/algebra/src/unipol/morphism.rs:92-105 | the matrix becomes the reduced one: in each cyclic row y every entry of power at least the quotient is zero |
| UniPolMorphisms.ReducedEntry | crates/algebra/src/unipol/morphism.rs:92-105 | in a cyclic row the reduced entry is zero or below the quotient, and agrees with the old one on every coefficient below it; other rows are unchanged |
| UniPolMorphisms.ReduceIdempotent | crates/algebra/src/unipol/morphism.rs:92-105 | reducing twice is reducing once |
| UniPolMorphisms.ReduceKeepsMorphism | crates/algebra/src/unipol/morphism.rs:24-28 | on a map `verify` accepts, `reduce` changes no nonzero entry |
| UniPolMorphisms.KernelProbeBlocks | crates/algebra/src/unipol/morphism.rs:120-130 | the probe matrix is the map followed by −t^p on the diagonal of each cyclic codomain generator with quotient t^p |
| UniPolMorphisms.BuildProbe | crates/algebra/src/unipol/morphism.rs:120-130 | the loop builds exactly that probe |
| UniPolMorphisms.FindGeneratorLeast | crates/algebra/src/unipol/morphism.rs:134-184 | None exactly when no candidate has a power below `u16::MAX`; otherwise a domain generator whose candidate power is least among all candidates, and every candidate before it in column-major order of V has a strictly higher power (ties keep the first, as the strict `<` does) |
| UniPolMorphisms.SkipRow | crates/algebra/src/unipol/morphism.rs:139-142 | a row whose diagonal entry in S is nonzero contributes no candidate |
| UniPolMorphisms.FoundInDomain | crates/algebra/src/unipol/morphism.rs:108-118 | the generator found is a domain generator, and with an empty codomain the answer is None exactly when the domain is empty |
| UniPolMorphisms.KernelFindSingleGenerator | crates/algebra/src/unipol/morphism.rs:108-185 | the answer is the least-power candidate from the Smith form of the probe matrix, None for an empty domain and codomain, Some(0) for an empty codomain |
| UniPolMorphisms.FoundInOrderStep | crates/algebra/src/unipol/morphism.rs:34-42 | one more pivot found on the grown matrix extends the list of pivots in order, and the codomain grows by that generator's structure |
| UniPolMorphisms.KernelDestroyers | crates/algebra/src/unipol/morphism.rs:30-44 | pivots are domain generators, each the one found on the matrix grown by a unit row per earlier pivot, with the codomain grown by their structures; when the loop ends nothing more is found |
| GradedSpaces.EmptySpace | src/k_comodule/graded_space.rs:22-24 | the new space has dimension 0 in every grade |
| GradedSpaces.DimensionInGrade | src/k_comodule/graded_space.rs:25-27 | the number of basis elements of a present grade, and 0 for an absent one |
| GradedSpaces.GradedLinearMap.FromMaps | src/k_comodule/graded_space.rs:36-43 | the map holds exactly the given matrices |
| GradedSpaces.GradedLinearMap.Empty | src/k_comodule/graded_space.rs:46-51 | no grade at all |
| GradedSpaces.VStackMapsEntries | src/k_comodule/graded_space.rs:79-88 | after `vstack` a grade is present when either side had it; its rows are this map's rows followed by the other's, a missing side counting as no rows |
| GradedSpaces.StackAll | src/k_comodule/graded_space.rs:80-87 | the loop over the other's grades produces that stacking |
| GradedSpaces.GradedLinearMap.VStack | src/k_comodule/graded_space.rs:79-88 | the maps become the stacked maps |
| GradedSpaces.BlockSumMapsShaped | src/k_comodule/graded_space.rs:90-104 | block sums and drained grades keep every matrix well shaped |
| GradedSpaces.GradedLinearMap.BlockSum | src/k_comodule/graded_space.rs:90-104 | shared grades hold the block sum, grades of the other alone are moved in, and the other ends empty |
| GradedSpaces.ComposedShape | src/k_comodule/graded_space.rs:106-132 | the composite has every grade of either map, going from the right map's domain to the left map's codomain there, a missing side counting as dimension 0 |
| GradedSpaces.ComposedApply | src/k_comodule/graded_space.rs:110-113 | at a grade both maps have, applying the composite is applying the right map and then the left |
| GradedSpaces.ComposeAll | src/k_comodule/graded_space.rs:106-131 | the three loops of `compose` build exactly the composite |
| GradedSpaces.GradedLinearMap.Compose | src/k_comodule/graded_space.rs:106-132 | a fresh map holding the composite |
| GradedSpaces.PivotsOfAreOrdered | src/k_comodule/graded_space.rs:138-150 | the pivots of a matrix lie inside it on nonzero entries, with strictly increasing columns and rows, so at most one per row |
| GradedSpaces.MatrixPivots | src/k_comodule/graded_space.rs:138-150 | the cursor loop returns the row-by-row pivot scan |
| GradedSpaces.GradedLinearMap.Pivots | src/k_comodule/graded_space.rs:134-153 | one list per grade, each the ordered pivot scan of that grade's matrix |
| GradedSpaces.ZeroCodomain | src/k_comodule/graded_space.rs:155-165 | every grade of the space gets a matrix with one column per basis element and no rows |
| GradedSpaces.CodomainSpace | src/k_comodule/graded_space.rs:167-177 | a grade is present exactly when its matrix has rows, and then holds that many copies of b |
| GradedSpaces.ZeroCodomainHasEmptyCodomain | src/k_comodule/graded_space.rs:155-177 | the codomain space of the map to nothing is empty |
| Tensor.Position | src/grading/tensor.rs:36-42 | a grade's place in the sorted list is inside it exactly when `contains_grade` holds, and `els` is the count stored there, or 0 when the grade is absent |
| Tensor.EntryLookup | src/grading/tensor.rs:36-50 | with each grade listed once, the entry at position i is what `contains_grade` and `els` report for its grade |
| Tensor.Default | src/grading/tensor.rs:54-60 | the empty tensor map is correct and has dimension 0 everywhere |
| Tensor.GetDimension | src/grading/tensor.rs:62-64 | 0 for an absent grade; on a correct map, exactly the number of ids of that tensor grade |
| Tensor.IsCorrect | src/grading/tensor.rs:171-209 | a map `is_correct` accepts gives no two pairs the same tensor id |
| Tensor.InsertCorrect | src/grading/tensor.rs:84-95 | giving a pair without an id the next id of its grade keeps the map correct |
| Tensor.VisitRightGrade | src/grading/tensor.rs:76-97 | one pass over a right grade gives ids to its pairs when the right space has the summed grade and skips it otherwise, keeping the loop invariant |
| Tensor.VisitLeftElement | src/grading/tensor.rs:75-97 | one left element is paired with every right grade in sorted order, keeping the loop invariant and moving the position to the next left element |
| Tensor.Complete | src/grading/tensor.rs:74-99 | when the loops finish every included pair has an id |
| Tensor.Generate | src/grading/tensor.rs:68-108 | the map is correct (`construct` and `deconstruct` inverse, the ids of each tensor grade 0 .. dimension − 1), every id belongs to a pair whose grades add up to that tensor grade that the right space has, every such pair has an id, and ids increase in the sorted visiting order |
| Tensor.ShiftUnshift | src/grading/tensor.rs:115-143 | shifting a grade by `add` and back gives it back, and the other way round |
| Tensor.AddAndRestrict | src/grading/tensor.rs:110-169 | every grade is shifted by `add`; `construct` drops the module keys whose shifted module grade exceeds `limit`, and inside the kept modules, like `deconstruct` and `dimensions`, the entries whose shifted tensor grade exceeds it |
| Tensor.RestrictDeconstructAgrees | src/grading/tensor.rs:136-148 | every surviving `deconstruct` entry is found back through the restricted `construct` |
| Tensor.RestrictConstructAgrees | src/grading/tensor.rs:111-134 | every surviving `construct` entry is found back through the restricted `deconstruct` |
| Tensor.RestrictIdsCovered | src/grading/tensor.rs:136-161 | every id below a surviving dimension still has its `deconstruct` entry |
| Tensor.RestrictIdsBounded | src/grading/tensor.rs:136-161 | every surviving id stays below its grade's surviving dimension |
| Tensor.RestrictDimensionsAgree | src/grading/tensor.rs:150-161 | the restricted dimensions still count exactly the restricted ids |
| Tensor.AddAndRestrictCorrect | src/grading/tensor.rs:162-168 | the result of `add_and_restrict` passes `is_correct`, the assertion at its end |
| Merge.Enumerate | src/resolution/datacell.rs:308 | each new element paired with its original index |
| Merge.InsertByKey | src/resolution/datacell.rs:311 | one insertion step adds exactly the element, one longer |
| Merge.InsertByKeySorted | src/resolution/datacell.rs:311 | inserting into a key-sorted list keeps it sorted |
| Merge.InsertByKeyStable | src/resolution/datacell.rs:311 | inserting an element numbered after all others keeps equal keys in number order |
| Merge.SortByKey | src/resolution/datacell.rs:311 | `sort_by_key` returns a permutation of its input, sorted by key |
| Merge.SortByKeyStable | src/resolution/datacell.rs:311 | the sort is stable: equal keys stay in their original order |
| Merge.PermutedEnumerates | src/resolution/datacell.rs:308-311 | any reordering of the numbered new elements holds each original index once, with its element |
| Merge.SortedEnumeration | src/resolution/datacell.rs:308-311 | the sorted pairs number the new elements, each original index once |
| Merge.TakeOld | src/resolution/datacell.rs:321-324 | taking the next old element (its key not above the next new one's) keeps the merge invariant |
| Merge.TakeNew | src/resolution/datacell.rs:325-329 | taking the next new element (its key below the next old one's) keeps the merge invariant |
| Merge.StateStart | src/resolution/datacell.rs:313-318 | the empty result with zero-filled mappings of the right lengths is a valid merge state |
| Merge.MergeStep | src/resolution/datacell.rs:320-330 | one pass of the first loop takes the old element on keys at most the new one's, the new one otherwise, and keeps the merge state, advancing exactly one index |
| Merge.TakeRestOld | src/resolution/datacell.rs:332-336 | the first tail loop appends the remaining old elements and keeps the invariant |
| Merge.TakeRestNew | src/resolution/datacell.rs:338-342 | the second tail loop appends the remaining new elements and keeps the invariant |
| Merge.MergeSorted | src/resolution/datacell.rs:313-342 | the two-pointer merge ends with every old and every sorted new element placed once, the mappings pointing at them |
| Merge.FinishPlaced | src/resolution/datacell.rs:326-342 | read through the original numbering, `mapping_new[x]` is where new element x sits, the positions distinct and apart from the old ones |
| Merge.FinishCovered | src/resolution/datacell.rs:320-342 | the two mappings together cover every position of the result |
| Merge.FinishStable | src/resolution/datacell.rs:311-342 | new elements with equal keys keep their original order |
| Merge.FinishOldFirst | src/resolution/datacell.rs:321 | when the old list is sorted, on equal keys the old element comes first |
| Merge.InsertManyByKey | src/resolution/datacell.rs:298-346 | the result has the old length plus the new; `result[mapping_old[a]]` is old element a and `result[mapping_new[x]]` new element x; `mapping_old` increases; the mappings cover every position exactly once; equal new keys keep their order; and a sorted old list gives a sorted result with old elements before new ones of equal key |
| Multivariate.LessIrreflexive | src/polynomial/multivariate.rs:16-20 | no monomial is below itself in the lexicographic `partial_cmp` order |
| Multivariate.LessTransitive | src/polynomial/multivariate.rs:16-20 | the monomial order is transitive |
| Multivariate.LessTotal | src/polynomial/multivariate.rs:16-20 | any two monomials are equal or comparable, so the `unwrap` in `minimize`'s sort cannot fail |
| Multivariate.LessAsymmetric | src/polynomial/multivariate.rs:16-20 | a monomial below another is not above it and differs from it |
| Multivariate.CoeffAppend | src/polynomial/multivariate.rs:71-75 | concatenating two term lists, as `extend` does, adds their coefficients monomial by monomial |
| Multivariate.SortCoeff | src/polynomial/multivariate.rs:37-38 | sorting the terms by monomial keeps every coefficient |
| Multivariate.WithoutZerosCoeff | src/polynomial/multivariate.rs:36-51 | dropping terms with coefficient zero keeps every coefficient |
| Multivariate.MergeCoeff | src/polynomial/multivariate.rs:41-45 | replacing the last term and a next term of the same monomial by one term with their sum keeps every coefficient |
| Multivariate.MergeSame | src/polynomial/multivariate.rs:41-45 | when the next sorted term repeats the last monomial, adding it in keeps the merge invariant |
| Multivariate.MergeNew | src/polynomial/multivariate.rs:48 | when the next sorted term has a new monomial, pushing it keeps the merge invariant |
| Multivariate.Minimized | src/polynomial/multivariate.rs:36-51 | the corrected `minimize`: the result is a normal form (monomials strictly increasing, no zero coefficient) with the same coefficient at every monomial |
| Multivariate.MinimizedAsWritten | src/polynomial/multivariate.rs:36-51 | `minimize` as written: because the popped last term is not pushed back on a new monomial, only the largest monomial survives, with its merged coefficient |
| Multivariate.AsWrittenLosesTerm | src/polynomial/multivariate.rs:41-48 | as written, minimizing x^0 + x^1 leaves coefficient zero at x^0, which had coefficient one |
| Multivariate.CorrectedKeepsTerm | src/polynomial/multivariate.rs:36-51 | any list with the coefficients of x^0 + x^1, in particular the corrected result, keeps coefficient one at x^0 |
| Multivariate.AsWrittenKeepsZero | src/polynomial/multivariate.rs:41-45 | as written, minimizing x − x leaves the single term (x, 0), so `is_zero` answers false |
| Multivariate.CorrectedCancels | src/polynomial/multivariate.rs:153-155 | a normal form with the coefficients of x − x has no terms, so `is_zero` answers true |
| Multivariate.IsMinimal | src/polynomial/multivariate.rs:53-66 | `is_minimal` returns true exactly when each monomial is strictly above the one before it and no coefficient after the first is zero |
| Multivariate.NormalIsMinimal | src/polynomial/multivariate.rs:53-66 | `is_minimal` accepts every normal form |
| Multivariate.MinimalIsNormal | src/polynomial/multivariate.rs:53-66 | a list `is_minimal` accepts whose first coefficient is nonzero is a normal form |
| Multivariate.NormalZero | src/polynomial/multivariate.rs:153-155 | a normal form has no terms exactly when every coefficient is zero, so `is_zero` decides the zero polynomial |
| Multivariate.NormalUnique | src/polynomial/multivariate.rs:36-51 | two normal forms with the same coefficients are the same list, so the derived equality compares polynomials |
| Multivariate.Negated | src/polynomial/multivariate.rs:90-93 | `neg` keeps one term per term |
| Multivariate.NegatedCoeff | src/polynomial/multivariate.rs:90-93 | negating every term negates every coefficient of the polynomial |
| Multivariate.ScaledCoeff | src/polynomial/multivariate.rs:147-149 | multiplying every term by a scalar multiplies every coefficient by it |
| Multivariate.Add | src/polynomial/multivariate.rs:71-75 | with the corrected `minimize`, `+` gives a normal form whose coefficient at each monomial is the sum of the operands' |
| Multivariate.Sub | src/polynomial/multivariate.rs:81-85 | with the corrected `minimize`, `-` gives a normal form whose coefficient at each monomial is the difference of the operands' |
| Multivariate.Times | src/polynomial/multivariate.rs:102-105 | the exponents of a product term are the componentwise sums wherever those fit in `u16` |
| Multivariate.Products | src/polynomial/multivariate.rs:99-108 | `mul` collects one product term per pair of terms |
| Multivariate.ProductTerms | src/polynomial/multivariate.rs:99-108 | the nested loops of `mul` push exactly the p-major list of pairwise product terms |
| Multivariate.Mul | src/polynomial/multivariate.rs:98-112 | with the corrected `minimize`, `*` gives a normal form with the coefficients of the pairwise products of the operands' terms |
| Multivariate.Zero | src/polynomial/multivariate.rs:161-163 | `zero` has no terms |
| Multivariate.One | src/polynomial/multivariate.rs:157-159 | `one` has monomials of the polynomial's arity |
| Multivariate.OneCoeff | src/polynomial/multivariate.rs:157-159 | `one` has coefficient one at the all-zero monomial and zero elsewhere, and is a normal form when one differs from zero |
| Multivariate.ProductsByOne | src/polynomial/multivariate.rs:98-112 | multiplying by `one` leaves the terms as they are |
| Multivariate.ProductsByZero | src/polynomial/multivariate.rs:98-112 | multiplying by `zero` on either side gives no terms |
| Multivariate.ProductOfTerms | src/polynomial/multivariate.rs:100-106 | the product of two single terms multiplies the coefficients and adds the exponents |
| Multivariate.Polynomial.New | src/polynomial/multivariate.rs:30-34 | with the corrected `minimize`, `new` stores a normal form with the coefficients of the given terms |
| Multivariate.Polynomial.Minimize | src/polynomial/multivariate.rs:36-51 | with the corrected `minimize`, `minimize` in place leaves a normal form with the old coefficients |
| Multivariate.Polynomial.ScalarMult | src/polynomial/multivariate.rs:146-151 | with the corrected `minimize`, `scalar_mult` leaves a normal form whose coefficients are the old ones times the scalar |
| Multivariate.Polynomial.AddAssign | src/polynomial/multivariate.rs:116-119 | with the corrected `minimize`, `+=` leaves a normal form whose coefficients are the sums of the old ones and the right side's |
| Multivariate.Polynomial.SubAssign | src/polynomial/multivariate.rs:123-126 | with the corrected `minimize`, `-=` leaves a normal form whose coefficients are the differences of the old ones and the right side's |
| Multivariate.Polynomial.MulAssign | src/polynomial/multivariate.rs:130-132 | with the corrected `minimize`, `*=` leaves a normal form with the coefficients of the product of the old terms and the right side's |
| SymmetricGroup.Range | tools/group_to_coalg.py:8 | `range(n)` lists 0 .. n-1 in order, which is the identity permutation |
| SymmetricGroup.PermOfRange | tools/group_to_coalg.py:8 | a tuple lists `range(n)` in some order exactly when it is a permutation of n points |
| SymmetricGroup.Compose | tools/group_to_coalg.py:3-5 | `compose(p1, p2)` has the length of p2 and maps each point k to p1[p2[k]]: p1 after p2 |
| SymmetricGroup.ComposeIsPerm | tools/group_to_coalg.py:3-5 | composing two permutations of n points gives one |
| SymmetricGroup.ComposeIdentity | tools/group_to_coalg.py:3-5 | the identity is a unit for `compose` on both sides |
| SymmetricGroup.ComposeAssociates | tools/group_to_coalg.py:3-5 | `compose` is associative |
| SymmetricGroup.CancelLeft | tools/group_to_coalg.py:3-5 | composing on the left by a permutation is injective |
| SymmetricGroup.CancelRight | tools/group_to_coalg.py:3-5 | composing on the right by a permutation is injective |
| SymmetricGroup.Onto | tools/group_to_coalg.py:3-5 | a permutation of n points takes every value below n |
| SymmetricGroup.PermutationsCount | tools/group_to_coalg.py:8 | `itertools.permutations` of a list of length n yields n! tuples |
| SymmetricGroup.PermsAreAllPerms | tools/group_to_coalg.py:8 | `perms` holds a tuple exactly when it is a permutation of `range(n)` |
| SymmetricGroup.PermutationsSorted | tools/group_to_coalg.py:8 | the permutations of an increasing list come in lexicographic order |
| SymmetricGroup.FirstIsInput | tools/group_to_coalg.py:8 | the first permutation listed is the input itself, so index 0 is the identity |
| SymmetricGroup.SortedDistinct | tools/group_to_coalg.py:8 | a lexicographically sorted list has no repeats, so no two indices of `perms` name the same permutation |
| SymmetricGroup.PermsFacts | tools/group_to_coalg.py:8 | `perms` has n! entries, in lexicographic order, each a permutation, the first the identity |
| SymmetricGroup.IndexMap | tools/group_to_coalg.py:9 | `index_map` has exactly the listed tuples as keys, and maps each to a position holding it |
| SymmetricGroup.IndexOfPerm | tools/group_to_coalg.py:9 | `index_map` maps the i-th permutation to i |
| SymmetricGroup.Entry | tools/group_to_coalg.py:14-17 | entry (i, j) is an index of `perms` holding perms[i] after perms[j] |
| SymmetricGroup.EntryLookup | tools/group_to_coalg.py:16-17 | the composition is a key of `index_map`, so the lookup cannot raise, and it gives the entry |
| SymmetricGroup.MultiplicationTable | tools/group_to_coalg.py:7-19 | returns `perms` (n! of them) and a square table of that size whose entry (i, j) is the index of perms[i] after perms[j] |
| SymmetricGroup.Rows | tools/group_to_coalg.py:12 | the list of lists a two-dimensional table is, row by row |
| SymmetricGroup.IdentityIsUnit | tools/group_to_coalg.py:7-19 | row 0 and column 0 of the table are the identity map on indices |
| SymmetricGroup.TableRows | tools/group_to_coalg.py:12-17 | the table is one row per permutation |
| SymmetricGroup.RowIsPermutation | tools/group_to_coalg.py:14-17 | every row of the table is a permutation of the indices: a Latin square by rows |
| SymmetricGroup.ColumnIsPermutation | tools/group_to_coalg.py:14-17 | every column of the table is a permutation of the indices: a Latin square by columns |
| SymmetricGroup.Label | tools/group_to_coalg.py:31 | `f"{chr(i + 97):2}"` is two characters, the letter first |
| SymmetricGroup.RowLines | tools/group_to_coalg.py:28-40 | row i prints one line per column j from 2 on |
| SymmetricGroup.PrintTableBody | tools/group_to_coalg.py:21-40 | after two title lines and the header come the body lines, one per printed (i, j) |
| SymmetricGroup.PrintedLine | tools/group_to_coalg.py:27-40 | the table prints 3 + size(size-2) lines, and the line for row i and column j >= 2 is line 3 + i(size-2) + (j-2); columns 0 and 1 get no line |
| SymmetricGroup.RowLineCell | tools/group_to_coalg.py:31-40 | the line for (i, j) is the two labels with " * " between them, has 7 + 4(size-2) characters, and shows 1 in column k >= 2 exactly when k is table[i][j] |
| SymmetricGroup.PrintedProduct | tools/group_to_coalg.py:7-40 | for the multiplication table the tool builds, the printed line for (i, j) shows 1 in column k exactly when k is the index of perms[i] after perms[j] |
| SymmetricGroup.PermToString | tools/group_to_coalg.py:42-46 | `perm_to_string` concatenates the decimal digits of each entry; with entries below ten it is one digit per entry |
| SymmetricGroup.SingleDigits | tools/group_to_coalg.py:42-46 | with entries below ten, the string has one digit per entry, the entry's |
| SymmetricGroup.DigitsRoundTrip | tools/group_to_coalg.py:42-46 | with entries below ten, reading each character back as a digit gives the permutation |
| KtMonomials.ParseNameExponent | src/k_t_comodule/k_t_parser.rs:702-722 | an accepted part has at most one caret, and a rejected one is reported as an invalid exponent or an invalid format of that part |
| KtMonomials.SplitCount | src/k_t_comodule/k_t_parser.rs:703 | `split('^')` yields one piece more than there are carets, which is how the number of parts is decided |
| KtMonomials.NameExponentCases | src/k_t_comodule/k_t_parser.rs:702-722 | `parse_name_exponent`: a text with no caret is its trimmed self to the first power; it is rejected as an invalid format exactly when it has two or more carets |
| KtMonomials.NameWithExponent | src/k_t_comodule/k_t_parser.rs:702-722 | "name^e" reads as (trimmed name, e) when e parses as a `usize`, and is rejected as an invalid exponent when it does not |
| KtMonomials.NameExponentRoundTrip | src/k_t_comodule/k_t_parser.rs:702-722 | "name^k", with k printed in decimal, reads back as (trimmed name, k) |
| KtMonomials.AssignAllErrSticks | src/k_t_comodule/k_t_parser.rs:724-742 | once a part of the monomial fails to parse, the `?` returns that first error |
| KtMonomials.MonomialOf | src/k_t_comodule/k_t_parser.rs:724-742 | a parsed monomial has one exponent per generator |
| KtMonomials.ParseMonomial | src/k_t_comodule/k_t_parser.rs:724-742 | `parse_monomial` starts from zero exponents, skips "1", and sets the exponent of each named generator in turn, stopping at the first error |
| KtMonomials.OneParses | src/k_t_comodule/k_t_parser.rs:724-742 | "1" reads as the monomial with every exponent zero |
| KtMonomials.PartParses | src/k_t_comodule/k_t_parser.rs:796-814 | a printed generator power reads back as its name and exponent |
| KtMonomials.MonomialToString | src/k_t_comodule/k_t_parser.rs:796-814 | a monomial with no positive exponent prints as "1" |
| KtMonomials.ToStringParses | src/k_t_comodule/k_t_parser.rs:796-814 | printing a monomial and parsing the text back gives the monomial |
| KtMonomials.IncrementMonomial | src/k_t_comodule/k_t_parser.rs:745-749 | `increment_monomial` raises the exponent of one generator by one and leaves the others |
| KtMonomials.AddMonomials | src/k_t_comodule/k_t_parser.rs:760-762 | `add_monomials` zips the two exponent lists, so its length is the shorter one |
| KtMonomials.MonomialDivide | src/k_t_comodule/k_t_parser.rs:768-775 | `monomial_divide` succeeds exactly when b divides a exponent by exponent, and then the quotient plus b is a |
| KtMonomials.DivideProduct | src/k_t_comodule/k_t_parser.rs:760-775 | dividing a product by one factor gives the other factor back |
| KtMonomials.DivideThenAdd | src/k_t_comodule/k_t_parser.rs:760-775 | the quotient times the divisor is the dividend |
| KtMonomials.ReduceMonomial | src/k_t_comodule/k_t_parser.rs:777-787 | `reduce_monomial` returns nothing exactly when some relation divides the monomial, and the monomial itself otherwise |
| KtMonomials.MultiplyMonomialByGenerator | src/k_t_comodule/k_t_parser.rs:751-758 | multiplying by a generator gives the monomial with that exponent one higher, or nothing exactly when a relation divides that |
| KtMonomials.Wrap32Inner | src/k_t_comodule/k_t_parser.rs:789-794 | wrapping an intermediate `i32` result changes nothing once the final result is wrapped |
| KtMonomials.MonomialToGrade | src/k_t_comodule/k_t_parser.rs:789-794 | the unigrade is the weight over the generators the monomial and the list share, wrapped to `i32` |
| KtMonomials.UnigradeIsWeight | src/k_t_comodule/k_t_parser.rs:789-794 | the unigrade `monomial_to_grade` accumulates is the weight (each exponent times its generator's unigrade, summed), wrapped to `i32` |
| KtMonomials.FirstDivisor | src/k_t_comodule/k_t_parser.rs:816-836 | the relation found is the first one that divides the product; when none is found, none divides it |
| KtMonomials.MultiplyMonomials | src/k_t_comodule/k_t_parser.rs:816-836 | a product that `multiply_monomials` returns as a term is reduced (no relation divides it); with no relations, it is the sum of the exponents with coefficient one |
| KtMonomials.MultiplyTensorTerms | src/k_t_comodule/k_t_parser.rs:838-851 | both sides of a tensor product that comes out are reduced monomials; with no relations, they are the two sums of exponents |
| KtMonomials.MultiplyCoactionElements | src/k_t_comodule/k_t_parser.rs:853-874 | every term of a is multiplied with every term of b, each pair once, in some order; the answer is Ok exactly when no product is unresolved and no key's `+=` panics, and unresolved fuel is reported only where a product is unresolved; a key is kept exactly when some product lands on it and the sum of those products' coefficients is nonzero, and it holds that sum; all keys are reduced monomial pairs |
| KtMonomials.MultiplyRow | src/k_t_comodule/k_t_parser.rs:861-869 | the inner loop: the term at x times every term of b, added into the running sum, each pair once; a failure is the running sum's failure |
| KtMonomials.CollectMeans | src/k_t_comodule/k_t_parser.rs:860-870 | the running sum over a list of products stops exactly when a product is unresolved or some key's sum panics; otherwise its keys are exactly those some product lands on, each holding the `+=` sum of those products' coefficients |
| KtMonomials.KeyCoefsNonEmpty | src/k_t_comodule/k_t_parser.rs:864-868 | a key has summands exactly when some product of the list lands on it |
| KtMonomials.AddAllIsPolynomialSum | src/k_t_comodule/k_t_parser.rs:866-868 | a `+=` sum of terms that does not panic is the polynomial sum: each power's coefficient is the field sum of the terms' coefficients of that power |
| KtParserBasis.StrLessIrreflexive | src/k_t_comodule/k_t_parser.rs:214 | no name sorts before itself |
| KtParserBasis.StrLessTransitive | src/k_t_comodule/k_t_parser.rs:214 | the order on names that `sorted_by_key` uses is transitive |
| KtParserBasis.StrLessTotal | src/k_t_comodule/k_t_parser.rs:214 | any two different names are comparable |
| KtParserBasis.LeastExists | src/k_t_comodule/k_t_parser.rs:214 | every finite non-empty set of names has a least one, so the sorted iteration is well defined |
| KtParserBasis.BuildBasisDict | src/k_t_comodule/k_t_parser.rs:192-208 | the basis dictionary succeeds exactly when no name repeats; it then holds every basis name with its grade and unigrade; otherwise the error names the first line whose name an earlier line already has, where the source's loop returns (KtParserBasis.FirstRepeatUnique: that line is unique) |
| KtParserBasis.FirstRepeatUnique | src/k_t_comodule/k_t_parser.rs:192-195 | a basis line that repeats an earlier name, with the names before it distinct, is unique (both its index and the earlier one), so the duplicate-basis error is determined by the scan order |
| KtParserBasis.RankFollowsNames | src/k_t_comodule/k_t_parser.rs:214-223 | within a grade, a name that sorts first gets the smaller index |
| KtParserBasis.RankInGrade | src/k_t_comodule/k_t_parser.rs:214-223 | the index a name gets is below the number of names of its grade |
| KtParserBasis.NumberNext | src/k_t_comodule/k_t_parser.rs:214-223 | numbering the least name not yet numbered keeps every numbered name at its grade and rank, and each grade's list as long as its numbered names |
| KtParserBasis.NumberLeast | src/k_t_comodule/k_t_parser.rs:214-223 | one iteration numbers exactly one more name, the least left, and keeps the numbering invariant |
| KtParserBasis.BuildTranslate | src/k_t_comodule/k_t_parser.rs:210-223 | every basis name is translated to its grade and its rank among the names of that grade, the grade's list holds it at that position, and each grade's list has one entry per name of that grade |
| KtParserBasis.CheckTerm | src/k_t_comodule/k_t_parser.rs:246-264 | an accepted tensor names two basis elements whose grades add up to the grade of the element being coacted on |
| KtParserBasis.CheckTerms | src/k_t_comodule/k_t_parser.rs:246-264 | one entry per tensor of the line |
| KtParserBasis.EntriesHomogeneous | src/k_t_comodule/k_t_parser.rs:241-264 | every entry the coaction lines produce is homogeneous and names only basis elements |
| KtParserBasis.EntriesErrSticks | src/k_t_comodule/k_t_parser.rs:241-264 | once a coaction line fails, the first error is the result |
| KtParserBasis.ReadTerm | src/k_t_comodule/k_t_parser.rs:246-264 | one tensor is read exactly as the checking function says: scalar, left name, right name, then homogeneity, each failure with its own error |
| KtParserBasis.CheckLineTerms | src/k_t_comodule/k_t_parser.rs:246-264 | the loop over one line's tensors computes the line's entries or its first error |
| KtParserBasis.CheckCoaction | src/k_t_comodule/k_t_parser.rs:241-264 | the loop over the coaction lines computes all the entries or the first error |
| KtParserBasis.CheckSections | src/k_t_comodule/k_t_parser.rs:191-264 | accepted exactly when the basis names are distinct and every coaction line checks; a repeated name gives the duplicate-basis error for the first line that repeats an earlier name, otherwise a failing coaction check gives that check's first error; when accepted, each name is numbered by its grade and its rank in name order among the names of that grade, the per-grade lists hold the names at those indices, the entries are exactly the checked coaction entries in line order, and each is homogeneous |
| KtParserBasis.ParseDirect | src/k_t_comodule/k_t_parser.rs:58-264 | a section error is returned as it is; past the sections, accepted exactly when the basis names are distinct and every coaction line checks, with the duplicate-basis error for the first line that repeats an earlier name, or the first coaction error, otherwise; when accepted, the numbering is by rank in name order within each grade and the entries are exactly the checked coaction entries |
| KtParserSections.FieldValue | src/k_t_comodule/k_t_parser.rs:116-124 | an accepted FIELD value is an `i32` whose cast to `usize` is the characteristic |
| KtParserSections.TermsOf | src/k_t_comodule/k_t_parser.rs:163-178 | the tensors of a line in order, one entry per '+'-separated piece |
| KtParserSections.CoactionLineOf | src/k_t_comodule/k_t_parser.rs:158-179 | an accepted COACTION line has at least one tensor |
| KtParserSections.RunErrSticks | src/k_t_comodule/k_t_parser.rs:79-184 | once a line fails, the loop returns that first error |
| KtParserSections.ReadContent | src/k_t_comodule/k_t_parser.rs:111-182 | a content line is read by the section it is in, into the new state or the error |
| KtParserSections.ReadHeader | src/k_t_comodule/k_t_parser.rs:87-110 | a header moves the state on when the right section came before it, and is an error otherwise |
| KtParserSections.ReadLine | src/k_t_comodule/k_t_parser.rs:80-183 | one trimmed line is skipped when blank or a comment, read as a header when it is one and as content otherwise |
| KtParserSections.ParseSections | src/k_t_comodule/k_t_parser.rs:74-189 | the first pass reads every line in turn, returns the first error, and then requires the COACTION section to have been reached |
| KtParserSections.RunInvariant | src/k_t_comodule/k_t_parser.rs:79-184 | the headers read so far are exactly those that lead to the current state, and any field read matches the characteristic |
| KtParserSections.SectionsInOrder | src/k_t_comodule/k_t_parser.rs:79-189 | an accepted input has exactly the headers FIELD, BASIS, COACTION, in that order, and its field value matches the characteristic |
| KtParserSections.JoinInfix | src/k_t_comodule/k_t_parser.rs:79 | every line sits inside the input it was split from |
| KtParserSections.BasisLineInInput | src/k_t_comodule/k_t_parser.rs:51 | a line that starts with the BASIS header puts the header in the input |
| KtParserSections.ContainsIff | src/k_t_comodule/k_t_parser.rs:51 | the recursive `contains` holds exactly when the pattern occurs at some index |
| KtParserSections.DialectOf | src/k_t_comodule/k_t_parser.rs:41-56 | `parse` reads the direct format exactly when "- BASIS" occurs somewhere in the input, and the polynomial Hopf algebra format otherwise |
| KtParserSections.AcceptedIsDirect | src/k_t_comodule/k_t_parser.rs:41-56 | every input `parse_direct` accepts contains the BASIS header, so `parse` sends it to `parse_direct` |

## Left out

- Debug-build overflow panics: where the model writes out fixed-width arithmetic, it wraps around as in a release build.
  - The index casts and exponent additions in the lines below are not written out at all.
- Tensor.Generate assumes each left grade has fewer than 2^16 elements, and each right grade and each tensor grade fewer than 2^32.
  - Above those sizes, the `as CoalgebraIndexType` (`u16`) cast at src/grading/tensor.rs:75 and the `as ComoduleIndexType` (`u32`) cast at :83 shorten the loops, so elements are skipped.
  - The `u32` casts of the tensor id at :89 and :92 repeat ids and overwrite entries.
  - The model's map is correct for every size.
- KtParserBasis.BuildTranslate assumes each grade has fewer than 2^16 basis names.
  - Beyond that, the `as CoalgebraIndexType` (`u16`) cast of the rank at src/k_t_comodule/k_t_parser.rs:220 repeats ranks.
- KtMonomials.IncrementMonomial assumes exponents stay below 2^64: the `usize` `+= 1` at src/k_t_comodule/k_t_parser.rs:747 is unbounded in the model.
- KtMonomials.AddMonomials assumes exponent sums stay below 2^64: the `usize` `x + y` at src/k_t_comodule/k_t_parser.rs:761 is unbounded in the model.
- KtMonomials.MultiplyMonomialByGenerator inherits IncrementMonomial's bound: exponents below 2^64.
- KtMonomials.MultiplyMonomials and KtMonomials.MultiplyTensorTerms inherit AddMonomials' bound: exponent sums below 2^64.
- KtMonomials.DivideProduct holds because exponent sums never wrap in the model; with the source's `usize` wrap it would need sums below 2^64.
- Concurrency: the per-grade `par_iter` in `GradedLinearMap::get_kernel` and `get_cokernel` (src/k_comodule/graded_space.rs:55-77) is not modelled.
  - The per-grade work is `Linalg.Kernel` and `Linalg.Cokernel`.
- The console output of tools/group_to_coalg.py: `print_table` is modelled as the list of lines it prints, and the `__main__` block is not modelled.
- SymmetricGroup.PrintTable requires `|table| + 97 < 0xD800`, so it covers the symmetric groups S_n with n ≤ 8 only.
  - From n = 9 on, `chr(i + 97)` at tools/group_to_coalg.py:31 reaches surrogate code points, and printing them fails with an encoding error; that failure is not modelled.
- `HashMap` iteration order is not modelled.
  - Where the code iterates a map without sorting, the model picks an arbitrary order.
  - Every stated property holds for any order.
- Error messages are modelled as error constructors, not as formatted strings.
  - The line-level errors of `parse_direct` (KtParserSections.ParseError, from `FieldNotFirst` to `UnexpectedState`) carry only the 1-based line number; the offending line some of their messages quote is dropped.
  - The errors about a coaction line (`UnknownBasis` to `NotHomogeneous`) and `DuplicateBasis` carry one name; the second name and the grades some of those messages print are dropped.
  - `UniPolMorphisms.VerifyError` carries the ids and powers its messages print.
- `G::parse` for the grading type in the parser is a parameter of the parser model: a function from text to an optional grade.
- `parse_polynomial_hopf_algebra` (src/k_t_comodule/k_t_parser.rs:305-690) is not modelled. Only the choice `parse` makes between the two dialects is.
- `parse_direct` stops at the coaction checks. Three later steps are not modelled:
  - the `tensor.construct` lookup and the matrix write (src/k_t_comodule/k_t_parser.rs:266-277);
  - the `get_list` conversion;
  - the `check_translator` debug assertion.
- KtMonomials.MultiplyMonomials: the recursion through `RelationType::Equal` need not terminate, so the model takes a fuel bound and answers "unresolved" when the fuel runs out.
  - KtMonomials.MultiplyMonomials and KtMonomials.MultiplyCoactionElements speak only about answers reached within the fuel.
- UniPolMorphisms.KernelDestroyers: the `while let` loop has no evident bound, so the model runs at most `fuel` rounds.
  - When it stops early, the contract says nothing about whether a further generator exists.
- UniPolMorphisms: the Smith normal form that `kernel_find_single_generator` calls is a function parameter, constrained only by the shapes it returns.
  - Two reasons: `UniPolRing`'s addition is partial, so it is not a ring record with total operations.
  - Its equality identifies all zeros, so it is not shown to satisfy `Snf.IsValuationRing` either.
  - `UniPol.DividesTotal`, `UniPol.DivideThenMultiply` and `UniPol.DividesHasQuotient` prove the valuation laws one at a time instead.
- `UniPolRing` addition of two nonzero terms of different degree panics in the code. The model returns `None` there.
- Not modelled for the morphism type (crates/algebra/src/unipol/morphism.rs:11-21,190-274):
  - `kernel`, which is `todo!()`;
  - `order_maps`;
  - `cokernel` and `cohomology`, which live in cokernel.rs and cohomology.rs.
- Not modelled in crates/algebra/src/matrices/f2_matrix.rs:58-72,171-173:
  - `F2Matrix::eval_vector`, which is `todo!()`;
  - `get_row` and `set_row`, which hand out slices of words. The bit-level `GetElement`/`SetElement` and the word loops of `swap_rows` and `add_row_to_row` cover their uses.
- The `cohomology` of the F2 matrix type is `unimplemented!()`. The `fmt`/`Display` impls are not modelled.
- Multivariate: `eval` is `todo!()`, `parse` always returns an error, and `default` returns nothing, so none of them is modelled.
- Multivariate.Times states the exponent sum only where it fits in `u16`. Beyond that the exponents wrap around, which is the body's `% 0x1_0000`.
- Tensor.AddAndRestrictCorrect requires that every surviving tensor id keeps its module index below the limit (`ModuleBelowTensor`).
  - This holds when all algebra grades are non-negative, which the code's final `debug_assert` relies on.
  - For inputs outside that, the code's assertion would fail in a debug build.
- Merge: `insert_many_by_key` works on `seq` values with `int` keys. The `Vec`s it reassigns in place are modelled as the returned sequences.
- F2LinAlg.Cokernel: the `println` of crates/algebra/src/matrices/f2_linalg.rs:20 is not modelled (console output).
- F2LinAlg.FirstNonZeroEntryAsWritten, F2LinAlg.PivotSearchAsWritten and F2LinAlg.OnlyEntryInColumnAsWritten require every swapped read to fall inside the data. Where a read does not, the code panics; F2Systems.SolveReadsPastEnd shows such an input for `solve`.
- F2LinAlg.ClearColumnAsWritten requires every swapped read `get_element(i, lead)` to fall inside the data. On a matrix with more rows than 64 times its words per row, the code indexes past the end and panics; that case is not modelled.

## Findings

| source | as written | input that shows it | evidently intended | confidence | as-written member | corrected member |
|---|---|---|---|---|---|---|
| crates/algebra/src/rings/finite_fields.rs:92-97 | `Fp::parse` computes `(chr % P) as u8`, with `%` truncating toward zero, so a negative literal gives a negative remainder that the cast wraps | P = 3, input "-1": the result is the byte 255, outside 0..2, and a multiple of 3 that is not zero (FiniteFields.FpParseNegativeOutOfRange) | a value in 0..P-1 congruent to the literal (`rem_euclid`) | not executed | FiniteFields.FpParse | FiniteFields.FpParseReduced |
| src/polynomial/multivariate.rs:41-48 | `minimize` pops the last term and, when the monomials differ, pushes only the new term, so the popped term is lost | x^0 + x^1 in one variable: the result keeps only x^1, with coefficient zero at x^0 (Multivariate.AsWrittenLosesTerm; the corrected result keeps it, Multivariate.CorrectedKeepsTerm) | push the popped term back before the new one | not executed | Multivariate.MinimizedAsWritten | Multivariate.Minimized |
| src/polynomial/multivariate.rs:36-51 | `minimize` keeps a merged term whose coefficient sums to zero | x − x: the result is the single term (x, 0), so `is_zero` is false (Multivariate.AsWrittenKeepsZero; the corrected result is empty, Multivariate.CorrectedCancels) | drop zero coefficients, so that `is_zero` decides the zero polynomial | not executed | Multivariate.MinimizedAsWritten | Multivariate.Minimized |
| crates/algebra/src/matrices/f2_linalg.rs:146-155 | `first_non_zero_entry` calls `get_element(row, col)`, but `get_element` takes (domain, codomain) | a 1-column, 2-row matrix with words [0, 1]: entry (row 1, column 0) is 1, yet every bit read is 0 (F2LinAlg.FirstNonZeroEntryMisread) | read the bit at (column, row) | not executed | F2LinAlg.FirstNonZeroEntryAsWritten | F2LinAlg.FirstNonZeroEntry |
| crates/algebra/src/matrices/f2_linalg.rs:73 | the pivot search in `rref` reads `get_element(i, lead)`, swapped | the same words [0, 1]: no pivot is found and the nonzero row is left below a zero row (F2LinAlg.RrefMisread) | search column `lead` down the rows | not executed | F2LinAlg.PivotSearchAsWritten | F2LinAlg.FindPivot |
| crates/algebra/src/matrices/f2_linalg.rs:92 | the elimination test in `rref` reads `get_element(i, lead)`, swapped | words [1, 1] (rows (1 0) and (1 0)), pivot row 0, column 0: the test for row 1 reads bit 1 of row 0, which is zero, so row 1 keeps its one below the pivot (F2LinAlg.ClearMisread) | test column `lead` of row i | not executed | F2LinAlg.ClearColumnAsWritten | F2LinAlg.ClearColumn |
| crates/algebra/src/matrices/f2_linalg.rs:213 | `is_rref` reads `get_element(row, pivot_col)`, swapped | a 2×2 matrix with words [3, 0] is in reduced form, yet the bit read for row 1 is 1, so it is rejected (F2LinAlg.IsRrefMisread) | read column `pivot_col` of each other row | not executed | F2LinAlg.OnlyEntryInColumnAsWritten | F2LinAlg.IsRref |
| crates/algebra/src/matrices/f2_linalg.rs:264 | `solve` reads `get_element(pivot_row, domain + sol_col)`, swapped | A = [1], b = [1]: the augmented matrix is one word, and the read goes to word 1, past the end (F2Systems.SolveReadsPastEnd) | read column `domain + sol_col` of the pivot row | not executed | F2Systems.SolutionReadAsWritten | F2Systems.Solve |
| crates/algebra/src/unipol/morphism.rs:74 | `verify` adds `dom_cycle + power` in `u16`, which wraps around | domain [Some(65535)], codomain [Some(2)], the 1×1 entry t^1: a legal morphism is rejected, because 65535 + 1 wraps to 0 < 2 | compare the exact sum | not executed | UniPolMorphisms.VerifyAsWrittenRejectsLegalMap | UniPolMorphisms.VerifyMeansMorphism |

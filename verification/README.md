# A verified model of an exact polynomial-algebra kernel

The repository is a computer algebra system. This project models its exact polynomial algebra and
factorisation kernel in Dafny and proves what each algorithm is for. Loops that update vectors, matrices
and maps are methods with loop invariants; the algebra they compute is a small set of functions over an
abstract coefficient ring, and the theorems are stated about those.

## How it is laid out

* Base: `Rings` (the operations a coefficient type offers, with the laws as predicates; the integers and
  the rationals, for which exact `real` arithmetic stands: for integer polynomials divisibility, coprimality
  and square-freeness over the reals imply the same over Q), `Polys`, `Vectors`, `Division`, `Euclid`,
  `Comaximal`, `Congruence`, `Numbers`, `Powers`, `Roots`.
* `Tower`, `TowerLoops`, `TowerDivision`, `TowerDepth`: quotient rings K[x]/(m), stacked to any depth;
  the last one over the rational numbers proper, the reals that are quotients of integers.
* `Interpolation`, `IntPolys`, `Kronecker`: Lagrange and Newton interpolation, Gauss's lemma, and
  Kronecker's factorisation with the proof that its search is complete.
* `Factors`, `Embedding`, `SquareFreeTheory`, `SquareFreeLoop`: square-free decomposition over Z.
* `MPolys`, `MPolyOps`, `MPolyDivision`, `Taylor`, `Diophantine`: sparse multivariate polynomials and the
  Hensel helpers.
* `LinearAlgebra`, `LinearSolve`, `NullSpace`, `FixedVectors`: Gauss-Jordan elimination, once over any
  field, used for systems over Q and for the null space modulo p.
* `PrimeField`, `Frobenius`, `ChineseRemainder`, `Berlekamp`, `BerlekampTheory`, `FermatProduct`,
  `BerlekampCoprime`, `BerlekampSplit`, `BerlekampComplete`, `BerlekampIrreducible`: Berlekamp's algorithm.
* `Laurent`, `ComplexNumbers`, `TrigProver`, `LaurentZeros`, `TrigVerdict`: the exponential prover for
  trigonometric identities.
* `Wang`, `Recombination`, `SubsetSearch`, `ModularProducts`, `FactorSearch`: Wang's non-divisor test and the
  Zassenhaus subset search.
* `Lru`, `LruRuns`, `LruOrder`: the cache, and what holds over whole runs of it.

A polynomial is the sequence of its coefficients, constant term first, with no trailing zero. A sparse
polynomial is a map from exponent vectors to non-zero integers. Where a loop runs over a `std::map` the
model takes the keys in any order, and the proofs hold for each.

## What the proofs found

* `berlekamp_factor_mod_p` calls its result irreducible without looking whether its input is square-free,
  and one comment says that a one-dimensional null space means f is irreducible. Both hold exactly when
  the monic form is square-free (`BerlekampIrreducible.Factor`). What holds for every input is that the
  factors are pairwise coprime and exactly as many as the null space has dimensions, the size comparison announced
  at the head of the file. For x^2 modulo 2 both fail (`BerlekampIrreducible.ReducibleFactor`,
  `BerlekampIrreducible.DimensionOfSquare`). Its caller in `factorization_wang_eez.cpp` tests square-freeness
  first.
* `univariate_diophantine` promises an exact solution. Its result solves the equation exactly when the
  degree of c is below the sum of the degrees of the factors; above that it solves it modulo their product,
  as for the single factor x and c == x (`Diophantine.SolverMisses`). The product it computes first is never
  used.
* `exact_divide_integer_poly` succeeds when the quotient is rational, because the conversion clears
  denominators: it returns a multiple of the quotient. It is the quotient itself exactly when the content of
  the divisor divides the content of the dividend (`IntPolys.ExactIff`); x divided by 2 x is reported as 1
  (`IntPolys.ExactDivideScales`). Its callers divide by primitive polynomials or take primitive parts
  afterwards, and by Gauss's lemma that is enough.
* The comment in the constructor of `AlgebraicElement` says that a minimal polynomial that cannot be made
  monic is left as it is. It has been moved into the failed call, so it is left empty and the value is
  stored unreduced. This happens exactly when the leading coefficient is not inverted
  (`Tower.MakeFails`), for instance over Q[x]/(x^2) with leading coefficient x (`Tower.ModulusLost`). The
  model follows the code.
* The file header of `algebraic_equal_trig_exp.cpp` claims that the combined numerator is empty exactly when the
  expression is identically zero. That is so (`LaurentZeros.VerdictIsExact`), given that e^(it) separates
  frequencies.
* `poly_add` strips only when neither operand is empty.
* `wang_non_divisors_ok` is exactly the published condition, also when `cs * ct` is zero (then it is false
  for every image list that is not empty).
* Inclusion of a smaller LRU cache in a larger one, and with it the monotonicity of hits, holds over all runs
  of get, put and clear. Across `set_max_size` it lasts exactly when every entry the smaller cache keeps is
  kept by the larger one and the larger one has at least as much room left, or the smaller one becomes an
  empty cache for a single entry (`LruRuns.ResizeLastsIff`); `LruRuns.ResizeBreaksInclusion` is a run that
  fails the condition.

## Model

| member | source | states |
|---|---|---|
| Vectors.StripTrailing | include/cas/algebraic_tower.hpp:108-111 | the result is the vector without its trailing zeros: same coefficients at every index, last one non-zero |
| TowerLoops.PolyAdd | include/cas/algebraic_tower.hpp:123-134 | the sum of the two polynomials; an empty operand returns the other one untouched, as the code does, so the result is then not stripped |
| TowerLoops.PolyNeg | include/cas/algebraic_tower.hpp:136-142 | the coefficientwise negative, same length |
| TowerLoops.PolySub | include/cas/algebraic_tower.hpp:144-148 | the difference of any two vectors, stripped when neither is empty; for stripped operands the difference of the polynomials |
| TowerLoops.PolyMul | include/cas/algebraic_tower.hpp:150-163 | the double loop computes the convolution product, over any coefficient ring |
| TowerLoops.SubtractRow | include/cas/algebraic_tower.hpp:191-194 | one elimination step is a - f x^shift b, stripped, and it gets shorter when the leading terms cancel |
| TowerLoops.Eliminate | include/cas/algebraic_tower.hpp:186-196 | the loop ends in the quotient and remainder of the recursive definition, and a == q b + r with r shorter than b |
| TowerLoops.PolyDivMod | include/cas/algebraic_tower.hpp:165-197 | success, quotient and remainder agree with the specification for every divisor, stripped or not; on success a == q b + r with r shorter than b |
| Division.DivisionUnique | include/cas/algebraic_tower.hpp:165-197 | quotient and remainder are determined by a == q b + r and the length of r |
| TowerLoops.PolyExtendedGcd | include/cas/algebraic_tower.hpp:199-225 | over a field it succeeds; whenever it succeeds, g divides both inputs and s a + t b == g |
| Euclid.ExtGcdIff | include/cas/algebraic_tower.hpp:199-225 | over any coefficients it succeeds exactly when the Euclidean remainders can be taken down to zero with inverted leading coefficients, and g is the last of them that is not zero |
| TowerLoops.PolyMonic | include/cas/algebraic_tower.hpp:227-240 | the monic multiple, failing exactly when the leading coefficient is not inverted |
| TowerLoops.ScaleAll | include/cas/algebraic_tower.hpp:238-238 | multiplies every coefficient in a loop: the scalar multiple of the polynomial |
| TowerLoops.Construct | include/cas/algebraic_tower.hpp:251-266 | the constructor: the stored modulus is empty exactly when the given one is zero or its leading coefficient is not inverted, and the value is then stored unreduced; otherwise the modulus is monic and the value reduced by it |
| Tower.MakeFails | include/cas/algebraic_tower.hpp:251-266 | the modulus is lost exactly when it is zero or its leading coefficient is not inverted, and then the value is the given one |
| Tower.MakeKeeps | include/cas/algebraic_tower.hpp:251-266 | otherwise the stored modulus is the given one divided by its leading coefficient, and the stored value is its remainder |
| Tower.FactorLosesModulus | include/cas/algebraic_tower.hpp:251-266 | over a rung with reducible modulus, every minimal polynomial led by a proper factor of that modulus is lost |
| Tower.ModulusLost | include/cas/algebraic_tower.hpp:251-266 | an instance: over Q[x]/(x^2) the minimal polynomial 1 + x y is lost and every value stays unreduced |
| Tower.MakeReduces | include/cas/algebraic_tower.hpp:251-266 | for a lawful modulus the constructed value is the remainder of the given one, and anything shorter than the modulus is kept as it is |
| TowerLoops.Invert | include/cas/algebraic_tower.hpp:292-314 | a reported inverse times the element is one; over a field with irreducible modulus it is reported for exactly the non-zero elements |
| Tower.InverseCorrect | include/cas/algebraic_tower.hpp:292-314 | a reported inverse is one even when the coefficients are no field or the modulus is reducible |
| TowerDivision.InverseIff | include/cas/algebraic_tower.hpp:292-314 | over a field, inversion succeeds exactly for the elements comaximal with the modulus |
| TowerDivision.DivisionUndone | include/cas/algebraic_tower.hpp:316-320 | a successful a / b times b is a |
| TowerDivision.DivisionIff | include/cas/algebraic_tower.hpp:316-320 | a / b succeeds exactly when b is inverted: over a field when b is comaximal with the modulus, and for irreducible modulus exactly when b is not zero |
| TowerDivision.DivisionComplete | include/cas/algebraic_tower.hpp:316-320 | over a field it succeeds whenever some element times b is one, and the quotient is the only element that times b is a |
| TowerDivision.MinusUndone | include/cas/algebraic_tower.hpp:278-280 | (a - b) + b == a |
| TowerLoops.Pow | include/cas/algebraic_tower.hpp:322-336 | square-and-multiply returns the n-fold product for every exponent, 0 included |
| Tower.RungIsRing | include/cas/algebraic_tower.hpp:345-362 | over any lawful coefficient ring the rung satisfies all ring laws and reports only true inverses, so it is again a lawful coefficient ring: the step of the recursion |
| Tower.RungIsFieldIff | include/cas/algebraic_tower.hpp:345-362 | over a field, the rung is a field exactly when its minimal polynomial is irreducible |
| TowerDepth.TowerIsField | include/cas/algebraic_tower.hpp:345-366 | a tower of any height over the rational numbers: every rung satisfies the ring laws, and all rungs are fields exactly when every minimal polynomial is irreducible over the rung below it |
| TowerDepth.RootTwoIsField | include/cas/algebraic_tower.hpp:345-362 | x^2 - 2 is irreducible over the rational numbers and its quotient ring, Q adjoined the square root of two, is a field |
| TowerDepth.RationalNumbersAreField | include/cas/algebraic_tower.hpp:345-350 | the ground field: the quotients of integers, a field inside the exact reals |
| Tower.ThreeRungs | include/cas/algebraic_tower.hpp:345-366 | over any field, three stacked extensions are a field when each minimal polynomial is irreducible over the rung below |
| Interpolation.InterpolateLagrange | src/algebra/factorization_kronecker.cpp:13-46 | the loops return the polynomial with at most n coefficients that takes value y[i] at x[i] for every i |
| Interpolation.LagrangeTerm | src/algebra/factorization_kronecker.cpp:17-34 | the i-th product vanishes at every other point and equals the accumulated denominator at x[i] |
| Interpolation.TimesLinear | src/algebra/factorization_kronecker.cpp:23-32 | multiplication by a linear factor, at every point |
| Interpolation.InterpolantUnique | src/algebra/factorization_kronecker.cpp:11-12 | at most one polynomial with n coefficients takes given values at n distinct points |
| Kronecker.EvalAtInt | src/algebra/factorization_kronecker.cpp:65-74 | the power-by-power loop is evaluation |
| Kronecker.Divisors | src/algebra/factorization_kronecker.cpp:194-197 | a trial loop in place of the number-theory helper: all positive divisors, in increasing order, failing on zero only |
| Kronecker.SignedDivisors | src/algebra/factorization_kronecker.cpp:199-204 | exactly the divisors, each with both signs |
| Kronecker.ChoosePoints | src/algebra/factorization_kronecker.cpp:164-171 | the points are 0, 1, -1, 2, -2, ... in this order, distinct and as many as asked for |
| Kronecker.ToIntegerPoly | src/algebra/factorization_kronecker.cpp:48-63 | the test and the conversion: succeeds exactly when all coefficients are integers, that is when some integer polynomial has them, and returns it |
| Kronecker.DividePrimitive | src/algebra/factorization_kronecker.cpp:121-122 | division by a primitive divisor returns the integral cofactor itself, exactly when there is one over Q |
| Kronecker.TryTuple | src/algebra/factorization_kronecker.cpp:109-134 | the leaf: either a complete factorisation of f, or no divisor of f takes the chosen values |
| Kronecker.SearchTuples | src/algebra/factorization_kronecker.cpp:96-143 | either a complete factorisation of f, or no divisor of f has the values fixed so far and values from the tables after them; the prefix of current_y is left alone |
| Kronecker.DivisorTables | src/algebra/factorization_kronecker.cpp:181-205 | the first zero of f among the points, or tables that contain every divisor of every value |
| Kronecker.NoHalfDivisor | src/algebra/factorization_kronecker.cpp:233-234 | no non-constant divisor of up to half the degree means irreducible: what justifies returning [f] |
| Kronecker.Factorize | src/algebra/factorization_kronecker.cpp:147-235 | every returned polynomial is irreducible in Z[x] up to content, and they multiply to f exactly, content and sign included; constants give the empty list |
| IntPolys.GaussProduct | src/algebra/factorization_kronecker.cpp:114-121 | Gauss: the product of primitive polynomials is primitive, which makes the division of f by a primitive candidate exact over Z |
| IntPolys.IntegerContent | src/algebra/polynomial_integer.cpp:17-26 | the greatest common divisor of the coefficients, 1 for the zero polynomial |
| IntPolys.DivideByScalar | src/algebra/polynomial_integer.cpp:28-33 | every coefficient is divided with truncation and the zeros this leaves at the end are dropped; a common divisor is divided out exactly: scalar times the result is the input |
| IntPolys.TruncatedIs | src/algebra/polynomial_integer.cpp:28-33 | the truncated quotient leaves less than the divisor over, with the sign of the dividend; it is exact exactly for a divisor |
| IntPolys.PrimitivePart | src/algebra/polynomial_integer.cpp:49-64 | a primitive polynomial with positive leading coefficient, similar to the input |
| SquareFreeLoop.PseudoRemainder | src/algebra/polynomial_integer.cpp:80-118 | lc(g)^(deg f - deg g + 1) f == q g + r with r shorter than g, in both exits of the loop |
| IntPolys.ExactDivide | src/algebra/factorization_integers.cpp:149-176 | succeeds exactly when g is not zero and divides f over Q, and returns the quotient with its denominators cleared, which is the quotient itself exactly when the content of g divides the content of f |
| IntPolys.ExactIff | src/algebra/factorization_integers.cpp:149-176 | the result times g is f exactly when the content of g divides the content of f, and exactly then nothing was scaled |
| IntPolys.ExactDivideScales | src/algebra/factorization_integers.cpp:149-176 | an instance where it is not: x divided by 2 x is reported as 1 |
| IntPolys.ClearDenominators | src/algebra/polynomial_conversions.cpp:44-90 | l times the rational quotient for the least l > 0 that makes it integral |
| IntPolys.GaussExact | src/algebra/factorization_integers.cpp:149-176 | by a primitive divisor the least l is 1: the integer quotient itself |
| SquareFreeLoop.OverQIff | src/algebra/factorization_integers.cpp:149-176 | divisibility up to an integer factor is divisibility in Q[x] |
| SquareFreeLoop.FormalDerivative | src/algebra/factorization_integers.cpp:135-147 | the loop computes the formal derivative: coefficient i is i + 1 times coefficient i + 1 |
| Factors.DerivativeMul | src/algebra/factorization_integers.cpp:135-147 | the product rule for that derivative |
| SquareFreeLoop.GcdPrimitive | src/algebra/polynomial_gcd_core.cpp:97-116 | the primitive remainder sequence ends in a common divisor that is a combination over Q: a gcd, primitive with positive lead |
| SquareFreeLoop.DivideUpToConstant | src/algebra/factorization_integers.cpp:196-201 | f is a constant times the returned primitive cofactor times g |
| Factors.DerivativeCofactor | src/algebra/factorization_integers.cpp:195-201 | f / gcd(f, f') is square-free and has every irreducible factor of f (characteristic zero) |
| SquareFreeTheory.DecomposeStep | src/algebra/factorization_integers.cpp:203-226 | one round keeps f ~ (prod z_j^m_j) w^i g with w square-free, comaximal with every z_j, and holding every irreducible factor of g |
| SquareFreeTheory.DecomposeEnd | src/algebra/factorization_integers.cpp:203-228 | when w is constant nothing is left: f ~ prod z_j^m_j |
| SquareFreeLoop.SquareFreeFactorize | src/algebra/factorization_integers.cpp:178-229 | f == c prod z_j^m_j with the z_j primitive, non-constant, square-free and pairwise coprime over Q, multiplicities increasing; c == 1 for primitive f with positive lead; the loop terminates |
| MPolyOps.Accumulate | src/algebra/factor_multivariate_mpoly.cpp:92-100 | the inner loop adds c x^s b to the running result and keeps the map canonical |
| MPolyOps.Add | src/algebra/factor_multivariate_mpoly.cpp:54-64 | coefficientwise sum, canonical, and the sum at every integer point |
| MPolyOps.Sub | src/algebra/factor_multivariate_mpoly.cpp:66-76 | coefficientwise difference, canonical, and the difference at every integer point |
| MPolyOps.Scale | src/algebra/factor_multivariate_mpoly.cpp:78-87 | coefficientwise multiple, canonical, and the multiple at every integer point |
| MPolyOps.Mul | src/algebra/factor_multivariate_mpoly.cpp:89-103 | the convolution product, canonical, and the product at every integer point |
| MPolyOps.PointwiseProduct | src/algebra/factor_multivariate_mpoly.cpp:89-103 | a canonical map is the convolution product exactly when it is the product at every integer point |
| MPolyOps.Equal | src/algebra/factor_multivariate_mpoly.cpp:105-107 | map equality of canonical polynomials is agreement at every integer point |
| MPolys.Vanishes | src/algebra/factor_multivariate_mpoly.cpp:105-107 | a canonical polynomial that is zero at every integer point has no terms |
| MPolyOps.DegreeIn | src/algebra/factor_multivariate_mpoly.cpp:109-116 | the largest exponent of the variable, attained; 0 for the zero polynomial |
| MPolyOps.CoeffIn | src/algebra/factor_multivariate_mpoly.cpp:127-138 | the coefficient of x_v^deg: each coefficient is that of the monomial with exponent deg in place of 0 |
| MPolyOps.Prune | src/algebra/factor_multivariate_mpoly.cpp:34-42 | drops exactly the zero entries |
| MPolyOps.EvalVar | src/algebra/factor_multivariate_mpoly.cpp:147-164 | evaluation of the result is evaluation with x_v := value; x_v is gone |
| MPolyDivision.MonoSub | src/algebra/factor_multivariate_mpoly.cpp:21-30 | a difference of exponents exactly when there is one |
| MPolyDivision.Lead | src/algebra/factor_multivariate_mpoly.cpp:206-209 | the lexicographically last key |
| MPolyDivision.ProductLead | src/algebra/factor_multivariate_mpoly.cpp:89-103 | leading monomials add and leading coefficients multiply |
| MPolyDivision.ReductionShrinks | src/algebra/factor_multivariate_mpoly.cpp:214-236 | after a reduction step every remaining monomial is lexicographically smaller, and no numeral grows |
| MPolyDivision.NumeralOrder | src/algebra/factor_multivariate_mpoly.cpp:214-236 | exponent vectors below a base read as numerals follow the lexicographic order: the termination measure |
| MPolyDivision.QuotientIsUnique | src/algebra/factor_multivariate_mpoly.cpp:199-239 | there is at most one quotient |
| MPolyDivision.ExactDiv | src/algebra/factor_multivariate_mpoly.cpp:199-239 | returns a polynomial exactly when b is not zero and some integer polynomial times b is a, and what it returns is that quotient; it terminates |
| Taylor.MulByShiftPower | src/algebra/factor_multivariate_hensel.cpp:57-73 | p (x_v - a)^k, at every integer point |
| Taylor.BinomialNext | src/algebra/factor_multivariate_hensel.cpp:105-109 | the running update C(e, j) (e - j) is divisible by j + 1 and gives C(e, j + 1) |
| Taylor.ShiftTerm | src/algebra/factor_multivariate_hensel.cpp:86-110 | one term with x_v replaced by x_v + a is added, at every point |
| Taylor.Shifted | src/algebra/factor_multivariate_hensel.cpp:83-111 | the whole polynomial with x_v replaced by x_v + a, of the same degree in x_v |
| Taylor.TaylorCoeff | src/algebra/factor_multivariate_hensel.cpp:78-114 | the coefficient of (x_v - a)^k |
| Taylor.TaylorExpansion | src/algebra/factor_multivariate_hensel.cpp:75-114 | at every point p is the sum of its Taylor coefficients times the powers of x_v - a |
| Taylor.TaylorRoundTrip | src/algebra/factor_multivariate_hensel.cpp:57-114 | whatever canonical polynomial has the values of that sum is p |
| Taylor.Rebuild | src/algebra/factor_multivariate_hensel.cpp:57-114 | expanding p with taylor_coeff at every order, multiplying each coefficient back with mul_by_shift_power and adding them up returns p itself |
| Diophantine.SolveTerm | src/algebra/factor_multivariate_hensel.cpp:157-176 | for comaximal A and B the peeled remainder is exactly divisible by A: the divisibility test never fails |
| Diophantine.SolveRound | src/algebra/factor_multivariate_hensel.cpp:139-176 | one factor: a residue shorter than the factor and the exact quotient left, failing exactly when the factor is not comaximal with the later ones |
| Diophantine.Rest | src/algebra/factor_multivariate_hensel.cpp:140-144 | the product of the later factors |
| Diophantine.UnivariateDiophantine | src/algebra/factor_multivariate_hensel.cpp:120-179 | succeeds exactly for a non-empty, pairwise comaximal family; each sigma_i is shorter than u_i; the combination is the residue of c modulo the product, and equals c exactly when deg c is below the sum of the degrees; with a zero factor it always equals c |
| Diophantine.SolverMisses | src/algebra/factor_multivariate_hensel.cpp:120-179 | an instance where the degree bound fails: for c == x and the single factor x, what is returned combines to 0 |
| Interpolation.PascalTable | src/algebra/algebraic_tower_resultant.hpp:54-60 | entry (r, c) is the binomial coefficient |
| Interpolation.ShiftedImage | src/algebra/algebraic_tower_resultant.hpp:70-94 | the expanded coefficients are those of q(y - s x), at every x |
| Interpolation.DifferenceTable | src/algebra/algebraic_tower_resultant.hpp:105-127 | entry (i, j) is the divided difference over points i - j .. i; failing exactly when two points coincide |
| Interpolation.NewtonHits | src/algebra/algebraic_tower_resultant.hpp:105-150 | the Newton form built from those differences takes every given value |
| Interpolation.NewtonTimesLinear | src/algebra/algebraic_tower_resultant.hpp:140-148 | the running product is multiplied by x - point, at every x |
| Interpolation.NewtonInterpolate | src/algebra/algebraic_tower_resultant.hpp:105-154 | fails exactly on repeated points; otherwise returns the interpolating polynomial, with no trailing zeros |
| Interpolation.NewtonAgreesWithLagrange | src/algebra/algebraic_tower_resultant.hpp:105-154 | on the same integer data it equals the result of Lagrange interpolation |
| LinearAlgebra.FindPivot | src/algebra/csolve.cpp:117-119 | the first row from `row` on with a non-zero entry in the column, or none |
| LinearAlgebra.ScaleRow | src/algebra/csolve.cpp:123-126 | scaling from the pivot column on scales the whole row, because the entries before it are zero |
| LinearAlgebra.SubtractScaled | src/algebra/csolve.cpp:131-133 | subtracting from the pivot column on subtracts the whole row |
| LinearAlgebra.ClearColumn | src/algebra/csolve.cpp:127-134 | every other row loses its entry in the pivot column |
| LinearAlgebra.GaussJordan | src/algebra/csolve.cpp:113-136 | ends in reduced echelon form with the same null space, whichever way the rows are updated |
| LinearSolve.SolvesIsKernel | src/algebra/csolve.cpp:86-90 | x solves the system exactly when (x, -1) is in the null space of the augmented matrix |
| LinearSolve.ReadOff | src/algebra/csolve.cpp:145-151 | variables without a pivot are zero, pivot variables come from the last column, and that solves the system |
| LinearSolve.SolveLinearRect | src/algebra/csolve.cpp:113-153 | a returned vector satisfies every original equation and is zero at every free variable, one whose original column is a combination of the columns before it; the empty result is returned exactly when no vector solves the system |
| LinearSolve.SolutionUnique | src/algebra/csolve.cpp:145-151 | the zeros at the free variables determine the solution |
| LinearSolve.PivotIndependent | src/algebra/csolve.cpp:113-136 | a column with a pivot is no combination of the columns before it |
| PrimeField.FpMod | src/algebra/factorization_berlekamp.cpp:39-43 | truncated remainder moved into 0..p-1 is the residue |
| PrimeField.FpIsField | src/algebra/factorization_berlekamp.cpp:37-43 | for a prime p these operations form a field |
| Berlekamp.ReduceBy | src/algebra/factorization_berlekamp.cpp:63-77 | shorter than the divisor and congruent to the input |
| Berlekamp.MulModPoly | src/algebra/factorization_berlekamp.cpp:52-80 | congruent to the product and shorter than f |
| Berlekamp.PowerMod | src/algebra/factorization_berlekamp.cpp:83-122 | x^e modulo f by repeated squaring |
| Berlekamp.PolyGcd | src/algebra/factorization_berlekamp.cpp:125-151 | monic, divides both, and is a combination of both |
| Berlekamp.BuildMatrix | src/algebra/factorization_berlekamp.cpp:170-184 | row i holds the coefficients of x^(p i) modulo f; row 0 is the first unit vector |
| Berlekamp.ExactQuotient | src/algebra/factorization_berlekamp.cpp:281-302 | the cofactor of a divisor |
| FixedVectors.BuildMinusIdentity | src/algebra/factorization_berlekamp.cpp:200-208 | the matrix (Q - I) transposed |
| FixedVectors.BasisSpansFixed | src/algebra/factorization_berlekamp.cpp:190-201 | a basis of that null space spans exactly the vectors h with h Q == h |
| FixedVectors.KernelIsFixed | src/algebra/factorization_berlekamp.cpp:193-201 | its null space is the set of h with h Q == h |
| FixedVectors.FirstIsFree | src/algebra/factorization_berlekamp.cpp:252-259 | with row 0 the first unit vector, the hard-wired vector 1 is a basis vector and column 0 never holds a pivot |
| FixedVectors.FreeVector | src/algebra/factorization_berlekamp.cpp:264-274 | the null vector of one free column |
| FixedVectors.ReadBasis | src/algebra/factorization_berlekamp.cpp:246-277 | the vectors read off are a basis of the null space |
| FixedVectors.FixedBasis | src/algebra/factorization_berlekamp.cpp:190-278 | a basis of {h : h Q == h}, which it spans exactly and without redundancy; its size is n minus the rank of the reduced matrix; its first vector is 1 |
| NullSpace.FreeCount | src/algebra/factorization_berlekamp.cpp:261-275 | one basis vector for every column without a pivot |
| BerlekampTheory.FixedIffPower | src/algebra/factorization_berlekamp.cpp:186-195 | a vector is fixed by the matrix exactly when its polynomial satisfies h^p == h modulo f |
| FermatProduct.FermatForPolynomials | src/algebra/factorization_berlekamp.cpp:334-336 | h^p - h is the product of h - s over all residues s: why gcds with h - s split |
| BerlekampSplit.SubScalar | src/algebra/factorization_berlekamp.cpp:154-161 | h - s, stripped |
| BerlekampCoprime.SplitComax | src/algebra/factorization_berlekamp.cpp:334-340 | for h with h^p == h modulo g, gcd(g, h - s) is comaximal with its cofactor |
| BerlekampSplit.SplitOne | src/algebra/factorization_berlekamp.cpp:329-348 | either the factor split into two comaximal non-constant factors, or the factor and the proof that no residue splits it |
| BerlekampSplit.SplitAll | src/algebra/factorization_berlekamp.cpp:327-350 | one pass over the factors keeps product, comaximality and non-constancy; without progress the list is unchanged and stuck |
| BerlekampSplit.Split | src/algebra/factorization_berlekamp.cpp:311-354 | product f, all non-constant, pairwise comaximal, monic with f; ends with as many factors as basis vectors or with every factor stuck on every basis vector; terminates |
| BerlekampSplit.NullSpaceOf | src/algebra/factorization_berlekamp.cpp:421-422 | the basis as polynomials, with the span and the rank of the vectors they come from |
| BerlekampSplit.MakeMonic | src/algebra/factorization_berlekamp.cpp:371-385 | the monic form of the input modulo p: the input is a non-zero constant times it; empty exactly when p divides every coefficient |
| BerlekampComplete.StuckIsConstant | src/algebra/factorization_berlekamp.cpp:333-348 | modulo a factor that no residue splits, h is congruent to a constant |
| BerlekampComplete.FixedWithResidues | src/algebra/factorization_berlekamp.cpp:306-308 | every choice of one constant per comaximal factor comes from a fixed vector |
| BerlekampIrreducible.DimensionBound | src/algebra/factorization_berlekamp.cpp:319-319 | no more comaximal non-constant factors than basis vectors |
| BerlekampIrreducible.StuckBound | src/algebra/factorization_berlekamp.cpp:319-323 | factors stuck on the whole basis are at least as many as the basis vectors |
| BerlekampIrreducible.IrreduciblesSquareFree | src/algebra/factorization_berlekamp.cpp:424-427 | a product of pairwise comaximal irreducible polynomials is square-free |
| BerlekampIrreducible.Finished | src/algebra/factorization_berlekamp.cpp:24-25 | exactly one factor for every basis vector; all are irreducible exactly when f is square-free |
| BerlekampIrreducible.ReducibleFactor | src/algebra/factorization_berlekamp.cpp:24-25 | an instance that is not square-free: x^2 modulo 2 is its own monic form, and whatever pairwise comaximal factors are returned for it, one is reducible |
| BerlekampIrreducible.DimensionOfSquare | src/algebra/factorization_berlekamp.cpp:424-427 | for x^2 modulo 2 the null space has dimension one, and x^2 is reducible |
| BerlekampIrreducible.Factor | src/algebra/factorization_berlekamp.cpp:369-433 | the whole routine: the factors are monic and multiply to the monic form of the input, are non-constant and pairwise comaximal, as many as the null space has dimensions, and all irreducible exactly when the form is square-free |
| Laurent.AddTerm | src/algebra/algebraic_equal_trig_exp.cpp:57-67 | the coefficient at the frequency grows by c, a zero sum is erased, every weighted sum changes by c times the weight |
| Laurent.AddRow | src/algebra/algebraic_equal_trig_exp.cpp:71-73 | the inner loop adds c z^s b |
| Laurent.Convolve | src/algebra/algebraic_equal_trig_exp.cpp:69-75 | the convolution, canonical |
| Laurent.ConvolutionValue | src/algebra/algebraic_equal_trig_exp.cpp:69-75 | for multiplicative weights the value of the convolution is the product of the values |
| Laurent.ProductNotEmpty | src/algebra/algebraic_equal_trig_exp.cpp:51-55 | the convolution of non-empty maps is not empty: the stated invariant on denominators |
| TrigProver.EulerFormula | src/algebra/algebraic_equal_trig_exp.cpp:8-10 | the sine and cosine that expressions mean are those of e^(it): cos + i sin is e^(it), cosine is even, sine is odd, and their squares add up to one |
| TrigProver.RealAndImaginary | src/algebra/algebraic_equal_trig_exp.cpp:8-10 | the complex numbers the expressions take values in: a real one plus i times a real one, with the usual arithmetic on the real ones |
| TrigProver.ImaginarySquare | src/algebra/algebraic_equal_trig_exp.cpp:8-10 | and i times i is minus one |
| TrigProver.QuotientUndone | src/algebra/algebraic_equal_trig_exp.cpp:192-204 | what a quotient means: it has a value exactly when both operands have one and the divisor is not zero, and times the divisor it is the dividend |
| TrigProver.DifferenceUndone | src/algebra/algebraic_equal_trig_exp.cpp:169-173 | what differences, negations and rational literals mean, by what undoes them |
| TrigProver.ValuesOfPowers | src/algebra/algebraic_equal_trig_exp.cpp:209-216 | what integer powers mean: the zeroth is one, each is the one before times the base, and a negative one is the inverse |
| TrigProver.ValuesOfLists | src/algebra/algebraic_equal_trig_exp.cpp:174-191 | what sums and products of any length mean, one operand after another |
| TrigProver.LinearShapes | src/algebra/algebraic_equal_trig_exp.cpp:120-142 | the arguments recognised are exactly the variable and a literal times it, as a binary product or a list of two, in either order |
| TrigProver.LrConst | src/algebra/algebraic_equal_trig_exp.cpp:77-87 | the constant c |
| TrigProver.LrMul | src/algebra/algebraic_equal_trig_exp.cpp:89-91 | the product of the values |
| TrigProver.LrDiv | src/algebra/algebraic_equal_trig_exp.cpp:93-95 | the quotient of the values |
| TrigProver.LrNeg | src/algebra/algebraic_equal_trig_exp.cpp:97-101 | the negative of the value |
| TrigProver.LrAdd | src/algebra/algebraic_equal_trig_exp.cpp:104-109 | sum or difference of the values over the common denominator |
| TrigProver.LrPow | src/algebra/algebraic_equal_trig_exp.cpp:112-117 | the e-fold product of the value or of its inverse |
| TrigProver.LinearValue | src/algebra/algebraic_equal_trig_exp.cpp:120-142 | an argument recognised as c times x has that value at every point |
| TrigProver.TwoTerms | src/algebra/algebraic_equal_trig_exp.cpp:155-166 | c z^f + d z^-f, the two frequencies of a sine or cosine merged when f is 0 |
| TrigProver.ToLaurentRat | src/algebra/algebraic_equal_trig_exp.cpp:146-220 | a result has a non-empty denominator and, at every point where the expression has a value, that value; the expression then has a value wherever finitely many non-empty Laurent polynomials do not vanish; no result only for an unsupported expression |
| TrigProver.CompileCall | src/algebra/algebraic_equal_trig_exp.cpp:152-168 | the same for calls: sine and cosine of a recognised argument only |
| TrigProver.CompileSum | src/algebra/algebraic_equal_trig_exp.cpp:174-182 | the same for sums of any length |
| TrigProver.CompileProduct | src/algebra/algebraic_equal_trig_exp.cpp:183-191 | the same for products of any length |
| TrigProver.CompileBinary | src/algebra/algebraic_equal_trig_exp.cpp:192-208 | the same for + - * /, giving up on a divisor whose numerator has cancelled |
| TrigProver.CompilePow | src/algebra/algebraic_equal_trig_exp.cpp:209-216 | the same for integer powers, giving up on a negative power of a cancelled base |
| TrigVerdict.SymbolsOccur | src/algebra/algebraic_equal_trig_exp.cpp:222-230 | the names collected are exactly those of the symbols that occur below the expression |
| TrigVerdict.ValueOfSymbols | src/algebra/algebraic_equal_trig_exp.cpp:222-230 | the value of an expression depends on no other name |
| TrigVerdict.RefusedIsOutside | src/algebra/algebraic_equal_trig_exp.cpp:144-220 | what is not compiled is no trigonometric rational of the variable: some node is of another kind, or divides by something that vanishes |
| TrigVerdict.AcceptedIsInside | src/algebra/algebraic_equal_trig_exp.cpp:144-220 | what is compiled is one, provided some reading of e^(it) separates frequencies |
| TrigVerdict.TrigExponentialZeroDiff | src/algebra/algebraic_equal_trig_exp.cpp:236-245 | true means that exactly one name occurs and the expression is zero at every point where it has a value, for every multiplicative reading of e^(it); false on a trigonometric rational of one name means a numerator with terms; provided some reading of e^(it) separates frequencies, true is returned exactly for the trigonometric rationals of one name that vanish |
| LaurentZeros.EmptyIffVanishes | src/algebra/algebraic_equal_trig_exp.cpp:11-16 | a canonical Laurent polynomial is empty exactly when it vanishes at all powers of a point that separates its frequencies |
| LaurentZeros.NumeratorDecides | src/algebra/algebraic_equal_trig_exp.cpp:11-16 | the final test is exact: the numerator is empty exactly when it vanishes at every multiple of a separating point |
| LaurentZeros.FalseIsRefuted | src/algebra/algebraic_equal_trig_exp.cpp:11-16 | an expression whose numerator has terms has a non-zero value at some multiple of every point that separates the frequencies of one non-empty Laurent polynomial |
| LaurentZeros.VerdictIsExact | src/algebra/algebraic_equal_trig_exp.cpp:11-16 | N/D is identically zero exactly when N is empty: on a supported expression the verdict is exact, provided the reading of e^(it) separates any finitely many frequencies somewhere |
| Lru.CacheContainer.constructor | include/cas/cas_cache_keys.hpp:27-27 | an empty cache of the given capacity with zero counters |
| Lru.CacheContainer.Get | include/cas/cas_cache_keys.hpp:37-46 | the stored value or none; a hit moves the key to the front and counts one hit, a miss counts one miss and changes nothing else |
| Lru.CacheContainer.Put | include/cas/cas_cache_keys.hpp:48-61 | the key at the front with the new value and the oldest key dropped when full; nothing at capacity 0; evictions counted |
| Lru.CacheContainer.EvictIfNeeded | include/cas/cas_cache_keys.hpp:79-86 | the oldest entries are dropped until the size fits, one eviction counted for each |
| Lru.CacheContainer.SetMaxSize | include/cas/cas_cache_keys.hpp:29-32 | the new capacity, and the list cut to it from the back |
| Lru.CacheContainer.Clear | include/cas/cas_cache_keys.hpp:63-66 | no entries; the counters stay |
| Lru.CacheContainer.ResetMetrics | include/cas/cas_cache_keys.hpp:70-70 | zero counters; the entries stay |
| LruRuns.RunKeeps | include/cas/cas_cache_keys.hpp:79-86 | over every run, changes of capacity included, the keys are distinct and the size is within capacity |
| LruRuns.HitIsLastPut | include/cas/cas_cache_keys.hpp:37-61 | over every run a hit returns the value last put for the key since the last clear |
| LruOrder.ListIsByLastUse | include/cas/cas_cache_keys.hpp:37-61 | over every run the list is in the order of last use, by put or by hit, most recent first |
| LruOrder.PutDropsOldest | include/cas/cas_cache_keys.hpp:48-86 | what a put drops was last used before every key that stays, nothing is dropped while there is room, and the new key is there with its value |
| LruRuns.TrimIncludedIff | include/cas/cas_cache_keys.hpp:29-32 | cut to any two capacities, an included list stays included exactly when every entry the smaller one keeps is kept by the larger one |
| LruRuns.ResizeSafeIff | include/cas/cas_cache_keys.hpp:29-32 | setting both capacities keeps the invariant behind inclusion exactly under that condition on entries and room, read off the two lists before the call |
| LruRuns.Inclusion | include/cas/cas_cache_keys.hpp:29-66 | over every run of get, put, clear and set_max_size whose changes of capacity meet that condition, the list of the smaller cache is a subsequence of the list of the larger one, with equal values |
| LruRuns.HitsGrow | include/cas/cas_cache_keys.hpp:29-46 | over the same runs the larger cache has at least as many hits |
| LruRuns.FixedCapacities | include/cas/cas_cache_keys.hpp:37-66 | at fixed capacities both hold over every run without any condition |
| LruRuns.LastsIff | include/cas/cas_cache_keys.hpp:37-66 | from any two caches, inclusion lasts through every continuation by get, put and clear exactly when it holds now and the larger cache has as much room left, or the smaller one is empty and holds one entry |
| LruRuns.IntegersAreEndless | include/cas/cas_cache_keys.hpp:37-66 | integer keys do not run out: the hypothesis on the key type of the next row and the one before can be met |
| LruRuns.ResizeLastsIff | include/cas/cas_cache_keys.hpp:29-32 | after set_max_size on both, inclusion lasts through every continuation exactly when the condition held before the call |
| LruRuns.ResizeBreaksInclusion | include/cas/cas_cache_keys.hpp:29-32 | the condition can fail: a concrete run after which cutting the larger cache leaves it without a key the smaller one holds |
| Wang.Chase | src/algebra/factor_multivariate_lc.cpp:104-110 | divides out everything q shares with the running entry: what is left is coprime to the entry itself, and every prime that went divides the entry |
| Wang.Reduce | src/algebra/factor_multivariate_lc.cpp:103-112 | the reduction against all running entries, newest first |
| Wang.WangNonDivisorsOk | src/algebra/factor_multivariate_lc.cpp:94-116 | true exactly when every image is non-zero and has a divisor above 1 coprime to cs ct and to every earlier image |
| Wang.PeelMultiplicities | src/algebra/factor_multivariate_lc.cpp:122-133 | each old entry is the new one times e^k, and e no longer divides the new one; units and zeros are left alone |
| Wang.MPolyPow | src/algebra/factor_multivariate_lc.cpp:72-84 | the k-th power at every integer point, 1 for k == 0 |
| Recombination.DividesExactly | src/algebra/factorization_recombination.cpp:48-56 | true exactly when the degrees are in range and the candidate divides f over Q |
| Recombination.ExceedsBound | src/algebra/factorization_recombination.cpp:80-85 | true exactly when some coefficient is above the bound |
| Recombination.PrimitiveDivides | src/algebra/factorization_recombination.cpp:48-56 | a primitive polynomial that divides over Q divides over Z |
| Recombination.PrimitivePartUnique | src/algebra/factorization_recombination.cpp:38-46 | a polynomial has one primitive part with positive leading coefficient |
| Recombination.CheckCandidate | src/algebra/factorization_recombination.cpp:115-129 | accepts exactly the centred products within the degree cap and the bound that divide f over Q; what it returns is their primitive part and a factor of f in Z[x] |
| SubsetSearch.MultiplyMod | src/algebra/factorization_recombination.cpp:19-36 | the product of two integer polynomials modulo m |
| SubsetSearch.ProductOfSubset | src/algebra/factorization_recombination.cpp:104-109 | lc(f) times the selected lifted factors modulo m |
| SubsetSearch.Centred | src/algebra/factorization_recombination.cpp:38-44 | congruent to x, above -m/2 and at most m/2 |
| SubsetSearch.CentredUnique | src/algebra/factorization_recombination.cpp:38-44 | the only such representative |
| SubsetSearch.Centre | src/algebra/factorization_recombination.cpp:38-46 | every coefficient centred, the degree kept |
| SubsetSearch.CheckSubset | src/algebra/factorization_recombination.cpp:97-130 | accepts exactly the subsets whose centred product passes the test, and returns a factor of f in Z[x] that is its primitive part |
| SubsetSearch.TrueFactorPasses | src/algebra/factorization_recombination.cpp:87-130 | a true factor h of f within the caps whose multiple lc(q) h is the subset product modulo m, with coefficients below m / 2, passes the test, and the test returns exactly h |
| SubsetSearch.RecombineFrom | src/algebra/factorization_recombination.cpp:143-183 | nothing is found exactly when no extension of the selection within the degree cap passes, and then `selected` is as it was; what is found comes from the extension left in `selected` |
| FactorSearch.CollectUsable | src/algebra/factorization_recombination.cpp:201-210 | exactly the non-constant factors are kept, stripped, in the given order and as often as given; and whether one of them fits the degree cap |
| ModularProducts.ModuloTimes | src/algebra/factorization_recombination.cpp:19-36 | reduction modulo m of a product over Z is the product of the reductions |
| FactorSearch.SearchIsOverSelections | src/algebra/factorization_recombination.cpp:132-183 | the subsets searched are exactly the selections of the given non-constant factors, each tested with lc(f) times their product over Z, reduced and centred |
| FactorSearch.TrueFactorSelected | src/algebra/factorization_recombination.cpp:97-130 | a true factor h within the caps, with lc(q) h congruent to lc(f) times the product of a selection and coefficients below m / 2, passes for that selection, which yields exactly h |
| FactorSearch.FactorBound | src/algebra/factorization_recombination.cpp:66-78 | one more than 2^d times the largest coefficient in size, hence above 2^d times every one |
| FactorSearch.FindFactor | src/algebra/factorization_recombination.cpp:187-227 | a result is a primitive factor of f in Z[x] within the degree cap, the primitive part of the centred product of a selection; there is one exactly when some non-empty selection of the given non-constant factors within the cap passes, and always when a true factor within the bounds comes from one |
| SubsetSearch.NoFactorMissed | src/algebra/factorization_recombination.cpp:153-155 | "none" means that no subset of the lifted factors comes from a true factor within the caps |

## Left out

* Deadlines, interrupts, bit-length caps and the matrix-size budget of Berlekamp's algorithm: they only add
  error exits before the modelled work is done.
* Machine integers: exponents and sizes are unbounded here (`unsigned int`, `std::size_t` and the 64-bit
  counters wrap in the original); big integers and rationals are exact in both.
* `numtheory::divisors` and `modular_inverse` are replaced by trial loops with the same contract.
* The expression layer under `divide_poly_with_remainder`: `exact_divide_integer_poly` is modelled as
  pseudo-division followed by clearing denominators, which is what the conversion does to the quotient.
* The other gcd paths of the dispatcher (subresultant, half-gcd, modular): only the primitive remainder
  sequence is modelled.
* `resultant_generic`: the values interpolated in `algebraic_tower_resultant.hpp` are parameters, and so
  are the points, which are 1, 2, ..., n there.
* The first half of `solve_linear_rect`, which fills the augmented matrix from expressions.
* Matrices are sequences of rows that the loops replace; the original updates local vectors in place, and
  no two of them are aliased.
* `mpoly_integer_content`, `mpoly_leading_coeff_in`, `mpoly_to_intpoly`, `mpoly_from_intpoly` and
  `project_to_x1`: they would only add easy members.
* The multivariate Hensel lift and the distribution of leading coefficients as a whole: the original
  certifies them by multiplying back and may give up.
* `SubsetSearch.MultiplyMod`: models the reduction of every partial sum as arithmetic modulo m on reduced
  operands; the skipped zero coefficients make no difference to the result.
* `FactorSearch.TrueFactorSelected`: assumes that the true factor matches a selection modulo m, which is what
  Hensel lifting provides, and that the coefficient bound admits it; whether the bound always does is not
  claimed.
* `Lru.CacheContainer.Get`: the list iterators stored in the map are modelled by the position of the key in
  the list, and moving a key takes linear time here.
* `LruRuns.LastsIff`: the key type must not run out of keys (`Endless`), because the run that breaks
  inclusion puts keys that neither cache holds; `LruRuns.ResizeLastsIff` likewise.
* `TrigVerdict.TrigExponentialZeroDiff`: e^(it) is any function with E(s + t) == E(s) E(t) and E(0) == 1; the
  exponential function itself is not constructed. Nodes the prover does not understand may mean anything.
* `Diophantine.UnivariateDiophantine`: the unused product of all factors is not computed.
* Parsing, formatting, expression simplification, caches keyed on expressions, numeric evaluation, and the
  other equality provers.

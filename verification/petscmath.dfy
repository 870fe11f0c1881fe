/**
 * The integer helper macros of petscmath.h: minimum, maximum, absolute value,
 * sign and square, and the 32-bit integer limits.
 *
 * The macros are type-generic in C; the model instantiates them at `int`,
 * and `PetscAbsReal` at `real`.
 */
module PetscMath {

  const PETSC_MAX_INT: int := 2147483647
  const PETSC_MIN_INT: int := -2147483647

  /** A value representable as a PETSc integer (between the two limits above). */
  predicate InIntRange(a: int) {
    PETSC_MIN_INT <= a <= PETSC_MAX_INT
  }

  /** `PetscMin(a,b)`: `a` when `a < b`, otherwise `b`. */
  function Min(a: int, b: int): (r: int)
    ensures r <= a && r <= b
    ensures r == a || r == b
  {
    if a < b then a else b
  }

  /** `PetscMax(a,b)`: `b` when `a < b`, otherwise `a`. */
  function Max(a: int, b: int): (r: int)
    ensures r >= a && r >= b
    ensures r == a || r == b
  {
    if a < b then b else a
  }

  /** `PetscAbsInt(a)`: `-a` for negative `a`, otherwise `a`. */
  function AbsInt(a: int): (r: int)
    ensures r >= 0
    ensures r == a || r == -a
    ensures r == 0 <==> a == 0
  {
    if a < 0 then -a else a
  }

  /** `PetscAbs(a)` on integers: `a` when `a >= 0`, otherwise `-a`. */
  function Abs(a: int): (r: int)
    ensures r >= 0
    ensures r == a || r == -a
  {
    if a >= 0 then a else -a
  }

  /** `PetscAbsReal(a)`: `-a` for negative `a`, otherwise `a`. */
  function AbsReal(a: real): (r: real)
    ensures r >= 0.0
    ensures r == a || r == -a
    ensures r == 0.0 <==> a == 0.0
  {
    if a < 0.0 then -a else a
  }

  /** `PetscSign(a)`: 1, 0 or -1 by the sign of `a`. */
  function Sign(a: int): (r: int)
    ensures -1 <= r <= 1
    ensures r == 0 <==> a == 0
    ensures r == 1 <==> a > 0
    ensures r == -1 <==> a < 0
  {
    if a >= 0 then (if a == 0 then 0 else 1) else -1
  }

  /** `PetscSqr(a)`: the product of `a` with itself. */
  function Sqr(a: int): (r: int)
    ensures r >= 0
    ensures r == 0 <==> a == 0
  {
    a * a
  }

  /** The two macros agree on integers: `PetscAbs` and `PetscAbsInt` compute the same value. */
  lemma AbsAgreesWithAbsInt(a: int)
    ensures Abs(a) == AbsInt(a)
  {
  }

  /** Sign and magnitude recombine to the original value. */
  lemma SignTimesAbs(a: int)
    ensures Sign(a) * Abs(a) == a
  {
  }

  /** The square is the square of the magnitude and dominates it. */
  lemma SqrOfAbs(a: int)
    ensures Sqr(a) == Sqr(Abs(a))
    ensures Sqr(a) >= Abs(a)
  {
    if a != 0 {
      assert Abs(a) >= 1;
      assert Abs(a) * Abs(a) >= Abs(a) * 1;
    }
  }

  /**
   * Where `PetscSqr` fits the PETSc integer range: the square of a magnitude
   * up to 46340 is representable, and the square of 46341 (or more) is not,
   * so beyond that bound the C product overflows where the model keeps
   * counting.
   */
  lemma SqrRange(a: int)
    ensures AbsInt(a) <= 46340 ==> InIntRange(Sqr(a))
    ensures AbsInt(a) > 46340 ==> Sqr(a) > PETSC_MAX_INT
  {
    var b := AbsInt(a);
    assert Sqr(a) == b * b;
    if b <= 46340 {
      MulMonotone(b, 46340, b);
      MulMonotone(b, 46340, 46340);
      assert 46340 * 46340 == 2147395600;
    } else {
      MulMonotone(46341, b, b);
      MulMonotone(46341, b, 46341);
      assert 46341 * 46341 == 2147488281;
    }
  }

  /** Multiplying by a non-negative factor keeps the order. */
  lemma MulMonotone(x: int, y: int, z: int)
    requires 0 <= x <= y && 0 <= z
    ensures x * z <= y * z && z * x <= z * y
  {
  }

  /** `PetscAbsReal` ignores the sign and squares back to the square of its argument. */
  lemma AbsRealSymmetric(a: real)
    ensures AbsReal(-a) == AbsReal(a)
    ensures AbsReal(a) * AbsReal(a) == a * a
  {
  }

  /** Min and Max pick the two arguments between them. */
  lemma MinMaxPartition(a: int, b: int)
    ensures Min(a, b) + Max(a, b) == a + b
    ensures Min(a, b) == -Max(-a, -b)
  {
  }

  /** The integer range is symmetric, so negation and `PetscAbsInt` never leave it. */
  lemma RangeClosedUnderNegation(a: int)
    requires InIntRange(a)
    ensures InIntRange(-a)
    ensures InIntRange(AbsInt(a))
    ensures PETSC_MIN_INT == -PETSC_MAX_INT
  {
  }
}

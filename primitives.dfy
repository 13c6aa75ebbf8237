/** Collaborators of the formal-integral kernel that the model does not define:
    the C library's `sqrt` and `exp`, the black-body formula and the line search of
    the Monte Carlo module. Each is a function value handed to the kernel, and the
    only facts assumed about it are the predicates below, stated in `requires`. */
module Primitives {

  /** 1/c in cgs units, as the kernel defines `C_INV` (3.33564e-11). */
  const C_INV: real := 0.0000000000333564

  /** Multiplying by a non-negative factor keeps the order of two reals. */
  lemma MulLeftMonotone(a: real, b: real, c: real)
    requires a <= b && c >= 0.0
    ensures a * c <= b * c
  {}

  datatype Option<T> = None | Some(value: T)

  datatype Prims = Prims(
    sqrt: real -> real,
    exp: real -> real,
    intensityBlackBody: (real, real) -> real,
    lineSearch: (seq<real>, real) -> int)
  {
    /** The square root of a positive number is positive. */
    ghost predicate SqrtPositive() {
      forall x :: x > 0.0 ==> sqrt(x) > 0.0
    }

    /** The square root is monotone on the non-negative reals. */
    ghost predicate SqrtMonotone() {
      forall x, y :: 0.0 <= x <= y ==> sqrt(x) <= sqrt(y)
    }

    /** The line search returns an index into the line list or one past its end. */
    ghost predicate SearchInRange() {
      forall lines, nu :: 0 <= lineSearch(lines, nu) <= |lines|
    }
  }
}

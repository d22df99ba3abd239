/** Real-number helpers shared by the vector and quaternion algebra.

    The converter computes in single-precision floating point; this model
    computes over Dafny's mathematical reals.  The C library's `sqrt` is
    modelled by `Sqrt`, which is the non-negative square root whenever one
    exists.  Over the reals one exists for every non-negative argument, but
    the verifier's arithmetic cannot derive that, so lemmas that need the
    root of a particular value take `HasRoot` of it as a hypothesis.

    `Sin`, `Cos`, `Atan2` and `Acos` are uninterpreted: each returns some
    value of the right range, and no proof depends on which.
 */
module RealMath {

  ghost predicate IsRoot(x: real, r: real) {
    r >= 0.0 && r * r == x
  }

  ghost predicate HasRoot(x: real) {
    exists r :: IsRoot(x, r)
  }

  /** The non-negative square root of `x` when it exists.  For a positive `x`
      it is always positive, so dividing by it is safe. */
  ghost function Sqrt(x: real): (r: real)
    ensures r >= 0.0
    ensures HasRoot(x) ==> IsRoot(x, r)
    ensures x > 0.0 ==> r > 0.0
    ensures x == 0.0 ==> r == 0.0
  {
    if x == 0.0 then 0.0
    else if HasRoot(x) then
      var r :| IsRoot(x, r); r
    else if x > 0.0 then x
    else 0.0
  }

  /** Non-negative square roots are unique. */
  lemma RootUnique(x: real, r: real, s: real)
    requires IsRoot(x, r) && IsRoot(x, s)
    ensures r == s
  {
    if r < s {
      SquareStrictlyMonotone(r, s);
      assert false;
    } else if s < r {
      SquareStrictlyMonotone(s, r);
      assert false;
    }
  }

  /** A square is non-negative, and zero only for zero. */
  lemma SquareSign(x: real)
    ensures x * x >= 0.0
    ensures x * x == 0.0 <==> x == 0.0
  {
    if x > 0.0 {
      SquareStrictlyMonotone(0.0, x);
    } else if x < 0.0 {
      SquareStrictlyMonotone(0.0, -x);
      assert x * x == (-x) * (-x);
    }
  }

  lemma ProductNonZero(a: real, b: real)
    requires a != 0.0 && b != 0.0
    ensures a * b != 0.0
  {
    assert (a * b) / b == a;
  }

  lemma SquareStrictlyMonotone(a: real, b: real)
    requires 0.0 <= a < b
    ensures a * a < b * b
  {
    var d := b - a;
    assert d > 0.0;
    assert b * b == a * a + d * (a + b);
    assert d * (a + b) > 0.0;
  }

  lemma SqrtOfSquare(r: real)
    requires r >= 0.0
    ensures Sqrt(r * r) == r
  {
    assert IsRoot(r * r, r);
    RootUnique(r * r, Sqrt(r * r), r);
  }

  lemma SqrtOne()
    ensures Sqrt(1.0) == 1.0
  {
    SqrtOfSquare(1.0);
  }

  ghost function Sin(a: real): (r: real)
    ensures -1.0 <= r <= 1.0
  {
    var s :| -1.0 <= s <= 1.0; s
  }

  ghost function Cos(a: real): (r: real)
    ensures -1.0 <= r <= 1.0
  {
    var c :| -1.0 <= c <= 1.0; c
  }

  ghost function Atan2(y: real, x: real): (r: real)
  {
    var a: real :| true; a
  }

  ghost function Acos(c: real): (r: real)
    ensures r >= 0.0
  {
    var a :| a >= 0.0; a
  }

  /** The Pythagorean identity at one angle, which the uninterpreted `Sin`
      and `Cos` are not known to satisfy. */
  ghost predicate Pythagorean(a: real) {
    Sin(a) * Sin(a) + Cos(a) * Cos(a) == 1.0
  }
}

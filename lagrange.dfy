/*
 * Lagrange interpolation over GF(2^8): lagrange_interpolation
 * (src/sss_tool.py:95-128).
 */
module Lagrange {
  import opened Errors
  import opened GF256
  import opened Polynomial

  /**
   * The running product of the inner loop for basis index i after its first
   * m iterations: Add(at, xs[j]) over j < m, j != i, multiplied in loop
   * order.  at == x gives the numerator, at == xs[i] the denominator.
   */
  function BasisProduct(xs: seq<bv8>, i: nat, at: bv8, m: nat): bv8
    requires m <= |xs|
  {
    if m == 0 then 1
    else if m - 1 == i then BasisProduct(xs, i, at, m - 1)
    else Multiply(BasisProduct(xs, i, at, m - 1), Add(at, xs[m - 1]))
  }

  /** The basis value of index i at x: the full numerator divided by the full denominator. */
  function Basis(xs: seq<bv8>, i: nat, x: bv8): Result<bv8>
    requires i < |xs|
  {
    Divide(BasisProduct(xs, i, x, |xs|), BasisProduct(xs, i, xs[i], |xs|))
  }

  /**
   * The outer loop's result after its first m iterations: the sum of
   * ys[i] * Basis(i) for i < m, or the error of the first division that fails.
   */
  function SumUpTo(xs: seq<bv8>, ys: seq<bv8>, x: bv8, m: nat): Result<bv8>
    requires |xs| == |ys| && m <= |xs|
  {
    if m == 0 then Ok(0)
    else match SumUpTo(xs, ys, x, m - 1)
      case Err(e) => Err(e)
      case Ok(acc) =>
        match Basis(xs, m - 1, x)
        case Err(e) => Err(e)
        case Ok(b) => Ok(Add(acc, Multiply(ys[m - 1], b)))
  }

  /**
   * The value at x of the polynomial through the points (xs[i], ys[i]):
   * the coordinate lists must have the same length, and at least two.
   */
  function Interpolate(xs: seq<bv8>, ys: seq<bv8>, x: bv8): Result<bv8>
  {
    if |xs| != |ys| then Err(CoordinateCountMismatch)
    else if |xs| < 2 then Err(InsufficientShares)
    else SumUpTo(xs, ys, x, |xs|)
  }

  /** No two points share an x-coordinate. */
  predicate Distinct(xs: seq<bv8>)
  {
    forall i, j :: 0 <= i < |xs| && 0 <= j < |xs| && i != j ==> xs[i] != xs[j]
  }

  /** Some other point has the same x-coordinate as point i. */
  predicate HasTwin(xs: seq<bv8>, i: nat)
    requires i < |xs|
  {
    exists j :: 0 <= j < |xs| && j != i && xs[j] == xs[i]
  }

  /**
   * lagrange_interpolation: for each i, an inner loop multiplies up the
   * numerator and the denominator, then ys[i] times their quotient is
   * added to the result; a zero denominator raises from divide.
   */
  method LagrangeInterpolation(shareX: seq<bv8>, shareY: seq<bv8>, x: bv8) returns (r: Result<bv8>)
    ensures r == Interpolate(shareX, shareY, x)
  {
    if |shareX| != |shareY| {
      return Err(CoordinateCountMismatch);
    }
    if |shareX| < 2 {
      return Err(InsufficientShares);
    }
    var result: bv8 := 0;
    for i := 0 to |shareX|
      invariant SumUpTo(shareX, shareY, x, i) == Ok(result)
    {
      var numerator, denominator := BasisFactors(shareX, i, x);
      var basis := Divide(numerator, denominator);
      if basis.Err? {
        FailurePersists(shareX, shareY, x, i + 1, |shareX|);
        return Err(basis.error);
      }
      result := Add(result, Multiply(shareY[i], basis.value));
    }
    return Ok(result);
  }

  /**
   * The inner loop of lagrange_interpolation: the products of x - xs[j]
   * and of xs[i] - xs[j] over every j != i (subtraction is addition here).
   */
  method BasisFactors(shareX: seq<bv8>, i: nat, x: bv8) returns (numerator: bv8, denominator: bv8)
    requires i < |shareX|
    ensures numerator == BasisProduct(shareX, i, x, |shareX|)
    ensures denominator == BasisProduct(shareX, i, shareX[i], |shareX|)
  {
    numerator := 1;
    denominator := 1;
    for j := 0 to |shareX|
      invariant numerator == BasisProduct(shareX, i, x, j)
      invariant denominator == BasisProduct(shareX, i, shareX[i], j)
    {
      if i != j {
        numerator := Multiply(numerator, Add(x, shareX[j]));
        denominator := Multiply(denominator, Add(shareX[i], shareX[j]));
      }
    }
  }

  /** Once a division has failed, the remaining iterations keep that error. */
  lemma {:induction false} FailurePersists(xs: seq<bv8>, ys: seq<bv8>, x: bv8, m: nat, n: nat)
    requires |xs| == |ys| && m <= n <= |xs|
    requires SumUpTo(xs, ys, x, m).Err?
    ensures SumUpTo(xs, ys, x, n) == SumUpTo(xs, ys, x, m)
    decreases n - m
  {
    if m < n {
      FailurePersists(xs, ys, x, m, n - 1);
    }
  }

  /** A basis product is zero exactly when one of its factors is, i.e. when some xs[j], j != i, equals at. */
  lemma {:induction false} BasisProductZero(xs: seq<bv8>, i: nat, at: bv8, m: nat)
    requires m <= |xs|
    ensures BasisProduct(xs, i, at, m) == 0 <==> exists j :: 0 <= j < m && j != i && xs[j] == at
  {
    if m > 0 {
      BasisProductZero(xs, i, at, m - 1);
      if m - 1 != i {
        MultiplyZeroCommutes(BasisProduct(xs, i, at, m - 1), Add(at, xs[m - 1]));
        AddZero(at, xs[m - 1]);
      }
    } else {
      MultiplyOne(1);
    }
  }

  /**
   * The division for index i fails, always with DivisionByZero, exactly
   * when another point shares x-coordinate xs[i]; the numerator plays no
   * part in it.
   */
  lemma BasisFails(xs: seq<bv8>, i: nat, x: bv8)
    requires i < |xs|
    ensures Basis(xs, i, x).Err? <==> HasTwin(xs, i)
    ensures Basis(xs, i, x).Err? ==> Basis(xs, i, x) == Err(DivisionByZero)
  {
    BasisProductZero(xs, i, xs[i], |xs|);
  }

  /** The first m iterations fail, with DivisionByZero, exactly when one of their points has a twin. */
  lemma {:induction false} SumFails(xs: seq<bv8>, ys: seq<bv8>, x: bv8, m: nat)
    requires |xs| == |ys| && m <= |xs|
    ensures SumUpTo(xs, ys, x, m).Err? <==> exists i :: 0 <= i < m && HasTwin(xs, i)
    ensures SumUpTo(xs, ys, x, m).Err? ==> SumUpTo(xs, ys, x, m) == Err(DivisionByZero)
  {
    if m > 0 {
      SumFails(xs, ys, x, m - 1);
      BasisFails(xs, m - 1, x);
    }
  }

  /**
   * The failures of lagrange_interpolation, in the order it checks them:
   * coordinate lists of different lengths, fewer than two points, then a
   * repeated x-coordinate, which surfaces as a division by zero.
   */
  lemma InterpolateFails(xs: seq<bv8>, ys: seq<bv8>, x: bv8)
    ensures |xs| != |ys| ==> Interpolate(xs, ys, x) == Err(CoordinateCountMismatch)
    ensures |xs| == |ys| && |xs| < 2 ==> Interpolate(xs, ys, x) == Err(InsufficientShares)
    ensures |xs| == |ys| && |xs| >= 2 ==>
      (Interpolate(xs, ys, x).Err? <==> !Distinct(xs)) &&
      (Interpolate(xs, ys, x).Err? ==> Interpolate(xs, ys, x) == Err(DivisionByZero))
  {
    if |xs| == |ys| && |xs| >= 2 {
      SumFails(xs, ys, x, |xs|);
      if !Distinct(xs) {
        var i, j :| 0 <= i < |xs| && 0 <= j < |xs| && i != j && xs[i] == xs[j];
        assert HasTwin(xs, i);
      }
    }
  }

  /** With distinct points, basis i is 1 at its own point and 0 at every other point. */
  lemma BasisAtPoint(xs: seq<bv8>, i: nat, k: nat)
    requires Distinct(xs) && i < |xs| && k < |xs|
    ensures Basis(xs, i, xs[k]) == Ok(if i == k then 1 else 0)
  {
    BasisProductZero(xs, i, xs[i], |xs|);
    if i == k {
      DivideSelf(BasisProduct(xs, i, xs[i], |xs|));
    } else {
      BasisProductZero(xs, i, xs[k], |xs|);
    }
  }

  /** Evaluated at point k, the first m terms sum to ys[k] once k is among them, and to 0 before. */
  lemma {:induction false} SumAtPoint(xs: seq<bv8>, ys: seq<bv8>, k: nat, m: nat)
    requires |xs| == |ys| && Distinct(xs) && k < |xs| && m <= |xs|
    ensures SumUpTo(xs, ys, xs[k], m) == Ok(if k < m then ys[k] else 0)
  {
    if m > 0 {
      SumAtPoint(xs, ys, k, m - 1);
      BasisAtPoint(xs, m - 1, k);
      if m - 1 == k {
        MultiplyOne(ys[k]);
      } else {
        MultiplyZeroCommutes(ys[m - 1], 0);
      }
    }
  }

  /** The interpolated polynomial passes through every given point, when no x-coordinate repeats. */
  lemma InterpolatePassesThrough(xs: seq<bv8>, ys: seq<bv8>, k: nat)
    requires |xs| == |ys| && |xs| >= 2 && Distinct(xs) && k < |xs|
    ensures Interpolate(xs, ys, xs[k]) == Ok(ys[k])
  {
    SumAtPoint(xs, ys, k, |xs|);
  }

  // ---------------------------------------------------------------------
  // Two points: the value at any x of the line through them
  // ---------------------------------------------------------------------

  /** With two points each basis product has a single factor. */
  lemma PairProducts(xs: seq<bv8>, at: bv8)
    requires |xs| == 2
    ensures BasisProduct(xs, 0, at, 2) == Add(at, xs[1])
    ensures BasisProduct(xs, 1, at, 2) == Add(at, xs[0])
  {
    assert BasisProduct(xs, 0, at, 1) == BasisProduct(xs, 0, at, 0);
    assert BasisProduct(xs, 1, at, 1) == Multiply(BasisProduct(xs, 1, at, 0), Add(at, xs[0]));
    MultiplyOne(Add(at, xs[1]));
    MultiplyOne(Add(at, xs[0]));
  }

  /** Two points: each basis value is one quotient over the same denominator. */
  lemma PairBases(xs: seq<bv8>, x: bv8)
    requires |xs| == 2 && xs[0] != xs[1]
    ensures Add(xs[0], xs[1]) != 0
    ensures Basis(xs, 0, x) == Divide(Add(x, xs[1]), Add(xs[0], xs[1])) && Basis(xs, 0, x).Ok?
    ensures Basis(xs, 1, x) == Divide(Add(x, xs[0]), Add(xs[0], xs[1])) && Basis(xs, 1, x).Ok?
  {
    AddZero(xs[0], xs[1]);
    assert Add(xs[1], xs[0]) == Add(xs[0], xs[1]);
    PairProducts(xs, x);
    PairProducts(xs, xs[0]);
    PairProducts(xs, xs[1]);
  }

  /** Two points: the result is ys[0] * b0 + ys[1] * b1. */
  lemma PairSum(xs: seq<bv8>, ys: seq<bv8>, x: bv8)
    requires |xs| == 2 && |ys| == 2 && xs[0] != xs[1]
    ensures Basis(xs, 0, x).Ok? && Basis(xs, 1, x).Ok?
    ensures Interpolate(xs, ys, x) ==
      Ok(Add(Multiply(ys[0], Basis(xs, 0, x).value), Multiply(ys[1], Basis(xs, 1, x).value)))
  {
    PairBases(xs, x);
    assert SumUpTo(xs, ys, x, 1) == Ok(Add(0, Multiply(ys[0], Basis(xs, 0, x).value)));
    assert Add(0, Multiply(ys[0], Basis(xs, 0, x).value)) == Multiply(ys[0], Basis(xs, 0, x).value);
  }

  /** The two basis values add up to 1. */
  lemma TwoPointPartition(x0: bv8, x1: bv8, x: bv8)
    requires x0 != x1
    ensures Add(x0, x1) != 0
    ensures Add(Divide(Add(x, x1), Add(x0, x1)).value, Divide(Add(x, x0), Add(x0, x1)).value) == 1
  {
    var d := Add(x0, x1);
    AddZero(x0, x1);
    DivideAdd(Add(x, x1), Add(x, x0), d);
    assert Add(Add(x, x1), Add(x, x0)) == d;
    DivideSelf(d);
  }

  /** x0 * b0 + x1 * b1 == x: the basis values reproduce the identity polynomial. */
  lemma TwoPointMoment(x0: bv8, x1: bv8, x: bv8)
    requires x0 != x1
    ensures Add(x0, x1) != 0
    ensures Add(Multiply(x0, Divide(Add(x, x1), Add(x0, x1)).value),
                Multiply(x1, Divide(Add(x, x0), Add(x0, x1)).value)) == x
  {
    var d := Add(x0, x1);
    AddZero(x0, x1);
    MultiplyDivide(x0, Add(x, x1), d);
    MultiplyDivide(x1, Add(x, x0), d);
    DivideAdd(Multiply(x0, Add(x, x1)), Multiply(x1, Add(x, x0)), d);
    MultiplyDistributes(x0, x, x1);
    MultiplyDistributes(x1, x, x0);
    MultiplyZeroCommutes(x0, x1);
    MultiplyZeroCommutes(x0, x);
    MultiplyZeroCommutes(x1, x);
    AddSwap(Multiply(x0, x), Multiply(x0, x1), Multiply(x1, x), Multiply(x1, x0));
    MultiplyDistributes(x, x0, x1);
    assert Add(Multiply(x0, Add(x, x1)), Multiply(x1, Add(x, x0))) == Multiply(x, d);
    MultiplyZeroCommutes(x, d);
    DivideSpec(Multiply(x, d), d);
  }

  /**
   * Weights b0, b1 that add up to 1 and reproduce x from x0 and x1 carry
   * the line s + c * t through (x0, y0), (x1, y1) to its value at x.
   */
  lemma LineCombination(s: bv8, c: bv8, x0: bv8, x1: bv8, b0: bv8, b1: bv8, x: bv8)
    requires Add(b0, b1) == 1 && Add(Multiply(x0, b0), Multiply(x1, b1)) == x
    ensures Add(Multiply(Add(s, Multiply(c, x0)), b0), Multiply(Add(s, Multiply(c, x1)), b1))
         == Add(s, Multiply(c, x))
  {
    MultiplyDistributes(b0, s, Multiply(c, x0));
    MultiplyDistributes(b1, s, Multiply(c, x1));
    MultiplyAssociates(c, x0, b0);
    MultiplyAssociates(c, x1, b1);
    AddSwap(Multiply(s, b0), Multiply(c, Multiply(x0, b0)), Multiply(s, b1), Multiply(c, Multiply(x1, b1)));
    MultiplyDistributes(s, b0, b1);
    MultiplyOne(s);
    MultiplyDistributes(c, Multiply(x0, b0), Multiply(x1, b1));
  }

  /**
   * Two shares of a 2-of-n split: interpolating two distinct points of the
   * line s + c * t gives the line's value at every x, the secret s at 0.
   */
  lemma TwoPointLine(x0: bv8, x1: bv8, s: bv8, c: bv8, x: bv8)
    requires x0 != x1
    ensures Interpolate([x0, x1], [PolyValue([s, c], x0), PolyValue([s, c], x1)], x) == Ok(PolyValue([s, c], x))
  {
    var xs, ys := [x0, x1], [PolyValue([s, c], x0), PolyValue([s, c], x1)];
    PairSum(xs, ys, x);
    PairBases(xs, x);
    TwoPointPartition(x0, x1, x);
    TwoPointMoment(x0, x1, x);
    LineValue(s, c, x0);
    LineValue(s, c, x1);
    LineValue(s, c, x);
    LineCombination(s, c, x0, x1, Basis(xs, 0, x).value, Basis(xs, 1, x).value, x);
  }

  // ---------------------------------------------------------------------
  // Three points whose x-coordinates add up to zero, such as 1, 2, 3
  // ---------------------------------------------------------------------

  /** With three points each basis product has two factors. */
  lemma TripleProducts(xs: seq<bv8>, at: bv8)
    requires |xs| == 3
    ensures BasisProduct(xs, 0, at, 3) == Multiply(Add(at, xs[1]), Add(at, xs[2]))
    ensures BasisProduct(xs, 1, at, 3) == Multiply(Add(at, xs[0]), Add(at, xs[2]))
    ensures BasisProduct(xs, 2, at, 3) == Multiply(Add(at, xs[0]), Add(at, xs[1]))
  {
    var a0, a1 := Add(at, xs[0]), Add(at, xs[1]);
    MultiplyOne(a0);
    MultiplyOne(a1);
    assert BasisProduct(xs, 0, at, 1) == 1;
    assert BasisProduct(xs, 0, at, 2) == a1;
    assert BasisProduct(xs, 1, at, 1) == a0;
    assert BasisProduct(xs, 1, at, 2) == a0;
    assert BasisProduct(xs, 2, at, 1) == a0;
    assert BasisProduct(xs, 2, at, 2) == Multiply(a0, a1);
  }

  /** With x0 + x1 + x2 == 0 and distinct x's, the basis of point 0 at 0 is 1. */
  lemma FirstBasisAtZero(xs: seq<bv8>)
    requires |xs| == 3 && Distinct(xs) && Add(Add(xs[0], xs[1]), xs[2]) == 0
    ensures Basis(xs, 0, 0) == Ok(1)
  {
    var x0, x1, x2 := xs[0], xs[1], xs[2];
    AddToZero(x0, x1, x2);
    assert Add(0, x1) == x1;
    assert Add(0, x2) == x2;
    TripleProducts(xs, 0);
    TripleProducts(xs, x0);
    MultiplyZeroCommutes(x1, x2);
    AddZero(x0, x2);
    AddZero(x0, x1);
    assert x1 != 0 && x2 != 0;
    DivideSelf(Multiply(x1, x2));
  }

  /** With x0 + x1 + x2 == 0 and distinct x's, the basis of point 1 at 0 is 1. */
  lemma SecondBasisAtZero(xs: seq<bv8>)
    requires |xs| == 3 && Distinct(xs) && Add(Add(xs[0], xs[1]), xs[2]) == 0
    ensures Basis(xs, 1, 0) == Ok(1)
  {
    var x0, x1, x2 := xs[0], xs[1], xs[2];
    AddToZero(x0, x1, x2);
    assert Add(0, x0) == x0;
    assert Add(0, x2) == x2;
    TripleProducts(xs, 0);
    TripleProducts(xs, x1);
    MultiplyZeroCommutes(x0, x2);
    AddZero(x1, x2);
    AddZero(x0, x1);
    assert x0 != 0 && x2 != 0;
    DivideSelf(Multiply(x0, x2));
  }

  /** With x0 + x1 + x2 == 0 and distinct x's, the basis of point 2 at 0 is 1. */
  lemma ThirdBasisAtZero(xs: seq<bv8>)
    requires |xs| == 3 && Distinct(xs) && Add(Add(xs[0], xs[1]), xs[2]) == 0
    ensures Basis(xs, 2, 0) == Ok(1)
  {
    var x0, x1, x2 := xs[0], xs[1], xs[2];
    AddToZero(x0, x1, x2);
    assert Add(0, x0) == x0;
    assert Add(0, x1) == x1;
    TripleProducts(xs, 0);
    TripleProducts(xs, x2);
    MultiplyZeroCommutes(x0, x1);
    AddZero(x1, x2);
    AddZero(x0, x2);
    assert x0 != 0 && x1 != 0;
    DivideSelf(Multiply(x0, x1));
  }

  /**
   * All three shares of a 2-of-3 split, in any order: their x-coordinates
   * are distinct and add up to zero, and interpolating at 0 gives s.
   */
  lemma ThreePointLine(xs: seq<bv8>, s: bv8, c: bv8)
    requires |xs| == 3 && Distinct(xs) && Add(Add(xs[0], xs[1]), xs[2]) == 0
    ensures Interpolate(xs, [PolyValue([s, c], xs[0]), PolyValue([s, c], xs[1]), PolyValue([s, c], xs[2])], 0) == Ok(s)
  {
    var ys := [PolyValue([s, c], xs[0]), PolyValue([s, c], xs[1]), PolyValue([s, c], xs[2])];
    FirstBasisAtZero(xs);
    SecondBasisAtZero(xs);
    ThirdBasisAtZero(xs);
    MultiplyOne(ys[0]);
    MultiplyOne(ys[1]);
    MultiplyOne(ys[2]);
    assert SumUpTo(xs, ys, 0, 1) == Ok(Add(0, ys[0]));
    assert Add(0, ys[0]) == ys[0];
    assert SumUpTo(xs, ys, 0, 3) == Ok(Add(Add(ys[0], ys[1]), ys[2]));
    LineValue(s, c, xs[0]);
    LineValue(s, c, xs[1]);
    LineValue(s, c, xs[2]);
    AddTriple(s, Multiply(c, xs[0]), Multiply(c, xs[1]), Multiply(c, xs[2]));
    MultiplyDistributes(c, xs[0], xs[1]);
    MultiplyDistributes(c, Add(xs[0], xs[1]), xs[2]);
    MultiplyZeroCommutes(c, 0);
  }
}

/*
 * Polynomial evaluation over GF(2^8): evaluate_polynomial
 * (src/sss_tool.py:76-92).
 */
module Polynomial {
  import opened GF256

  /** x to the i-th power, built by repeated multiplication as the evaluation loop keeps it. */
  function Power(x: bv8, i: nat): bv8
  {
    if i == 0 then 1 else Multiply(Power(x, i - 1), x)
  }

  /**
   * The value c0 + c1*x + c2*x^2 + ... of the coefficient list cs at x,
   * summed left to right: the last coefficient is the last term added.
   */
  function PolyValue(cs: seq<bv8>, x: bv8): bv8
  {
    if |cs| == 0 then 0
    else Add(PolyValue(cs[..|cs| - 1], x), Multiply(cs[|cs| - 1], Power(x, |cs| - 1)))
  }

  /** Horner's rule: an independent reference definition of the same value. */
  function Horner(cs: seq<bv8>, x: bv8): bv8
  {
    if |cs| == 0 then 0 else Add(cs[0], Multiply(x, Horner(cs[1..], x)))
  }

  /**
   * evaluate_polynomial: one pass over the coefficients, keeping the
   * running sum and the running power of x.
   */
  method EvaluatePolynomial(coefficients: seq<bv8>, x: bv8) returns (result: bv8)
    ensures result == PolyValue(coefficients, x)
  {
    result := 0;
    var power: bv8 := 1;
    for i := 0 to |coefficients|
      invariant result == PolyValue(coefficients[..i], x)
      invariant power == Power(x, i)
    {
      assert coefficients[..i + 1][..i] == coefficients[..i];
      result := Add(result, Multiply(coefficients[i], power));
      power := Multiply(power, x);
    }
    assert coefficients[..|coefficients|] == coefficients;
  }

  /** x * (c * x^m) == c * x^(m+1): the step that moves a term one place up. */
  lemma ShiftTerm(x: bv8, c: bv8, m: nat)
    ensures Multiply(x, Multiply(c, Power(x, m))) == Multiply(c, Power(x, m + 1))
  {
    MultiplyZeroCommutes(x, Multiply(c, Power(x, m)));
    MultiplyAssociates(c, Power(x, m), x);
  }

  /** Peeling the constant term: f(x) == c0 + x * g(x), where g has the remaining coefficients. */
  lemma {:induction false} PeelConstant(cs: seq<bv8>, x: bv8)
    requires |cs| > 0
    ensures PolyValue(cs, x) == Add(cs[0], Multiply(x, PolyValue(cs[1..], x)))
    decreases |cs|
  {
    if |cs| == 1 {
      MultiplyOne(cs[0]);
      MultiplyZeroCommutes(x, 0);
    } else {
      var init, last := cs[..|cs| - 1], cs[|cs| - 1];
      var tail := cs[1..];
      var m := |tail| - 1;
      assert init[1..] == tail[..m];
      assert tail[m] == last;
      PeelConstant(init, x);
      MultiplyDistributes(x, PolyValue(tail[..m], x), Multiply(last, Power(x, m)));
      ShiftTerm(x, last, m);
    }
  }

  /** The left-to-right sum and Horner's rule agree on every list and every x. */
  lemma {:induction false} PolyValueIsHorner(cs: seq<bv8>, x: bv8)
    ensures PolyValue(cs, x) == Horner(cs, x)
    decreases |cs|
  {
    if |cs| > 0 {
      PeelConstant(cs, x);
      PolyValueIsHorner(cs[1..], x);
    }
  }

  /**
   * Evaluating at zero gives the constant term, which is how the secret
   * byte sits in every byte polynomial; the empty list gives 0.
   */
  lemma ValueAtZero(cs: seq<bv8>)
    ensures PolyValue(cs, 0) == if |cs| == 0 then 0 else cs[0]
  {
    if |cs| > 0 {
      PeelConstant(cs, 0);
      MultiplyZeroCommutes(0, PolyValue(cs[1..], 0));
    }
  }

  /** A two-coefficient polynomial [s, c] takes the value s + c * x. */
  lemma LineValue(s: bv8, c: bv8, x: bv8)
    ensures PolyValue([s, c], x) == Add(s, Multiply(c, x))
  {
    PeelConstant([s, c], x);
    assert [s, c][1..] == [c];
    PeelConstant([c], x);
    assert [c][1..] == [];
    MultiplyZeroCommutes(x, 0);
    MultiplyZeroCommutes(x, c);
  }

  /** At a nonzero x, [s, c] takes the value y exactly for c == (s + y) / x. */
  lemma LineSolution(s: bv8, x: bv8, y: bv8, c: bv8)
    requires x != 0
    ensures Divide(Add(s, y), x).Ok?
    ensures PolyValue([s, c], x) == y <==> c == Divide(Add(s, y), x).value
  {
    DivideMultiplies(Add(s, y), x);
    var q := Divide(Add(s, y), x).value;
    LineValue(s, c, x);
    AddSolve(s, Multiply(c, x), y);
    if c != q && Multiply(c, x) == Add(s, y) {
      MultiplyCancels(c, q, x);
    }
  }

  /**
   * Single-share secrecy of a 2-of-n split: at a nonzero x, the value y of
   * [s, c] is produced by exactly one c, so every y is equally reachable
   * from a uniformly drawn c and one share says nothing about s.
   */
  lemma SingleShareSecrecy(s: bv8, x: bv8, y: bv8)
    requires x != 0
    ensures Divide(Add(s, y), x).Ok?
    ensures forall c :: PolyValue([s, c], x) == y <==> c == Divide(Add(s, y), x).value
  {
    DivideMultiplies(Add(s, y), x);
    forall c
      ensures PolyValue([s, c], x) == y <==> c == Divide(Add(s, y), x).value
    {
      LineSolution(s, x, y, c);
    }
  }
}

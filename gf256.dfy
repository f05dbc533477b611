/**
 * GF(2^8) arithmetic through exponential and logarithm tables, as the GF256
 * class does: addition is XOR, multiplication and division add or subtract
 * logarithms modulo 255.  The tables are built once from the generator 1,
 * doubling at each step and reducing by x^8 + x^4 + x^3 + x^2 + 1 (0x11D).
 *
 * The field laws are derived from one observation: for a != 0, multiplying
 * by a is the table builder's step applied Log(a) times, and that step is
 * linear over XOR.
 */
module GF256 {
  import opened Errors

  /** The reducing polynomial x^8 + x^4 + x^3 + x^2 + 1. */
  const Modulus: bv16 := 0x11D

  /**
   * One step of the table builder: g shifted left, and reduced when bit 7 of
   * g was set (g >= 0x80).  Bit 8 of Modulus cancels the bit shifted out, so
   * on a byte the reduction is an XOR with its low byte 0x1D; the lemma
   * NextPowerIsReduction states that this is the builder's 16-bit step.
   */
  function NextPower(g: bv8): bv8
  {
    (g << 1) ^ (if g >= 0x80 then 0x1D else 0)
  }

  /** g after n steps of the builder, i.e. g times the n-th power of the generator. */
  function Times(n: nat, g: bv8): bv8
  {
    if n == 0 then g else NextPower(Times(n - 1, g))
  }

  /** The value of the builder's variable g at iteration i. */
  function Pow(i: nat): bv8
  {
    Times(i, 1)
  }

  /** The exponential table: exp_table[i] = Pow(i) for i < 255, and exp_table[255] = exp_table[0]. */
  function ExpTable(): (t: seq<bv8>)
    ensures |t| == 256
  {
    seq(256, i requires 0 <= i < 256 => if i < 255 then Pow(i) else Pow(0))
  }

  /**
   * Entry a of the logarithm table after the first n iterations of the
   * builder: the last iteration j < n that wrote it (the one with
   * Pow(j) == a), or the initial 0 when none did.
   */
  function LogUpTo(v: int, n: nat): (l: nat)
    requires n <= 255
    ensures l < 255
  {
    if n == 0 then 0 else if Pow(n - 1) as int == v then n - 1 else LogUpTo(v, n - 1)
  }

  /** log_table[a] as the builder leaves it. */
  function Log(a: bv8): (l: nat)
    ensures l < 255
  {
    LogUpTo(a as int, 255)
  }

  /** The logarithm table as the builder leaves it. */
  function LogTable(): (t: seq<int>)
    ensures |t| == 256
  {
    seq(256, v requires 0 <= v < 256 => LogUpTo(v, 255))
  }

  /** GF256._init_tables: both tables in one 255-step loop over the generator's powers. */
  method InitTables() returns (exp: array<bv8>, log: array<int>)
    ensures fresh(exp) && fresh(log)
    ensures exp[..] == ExpTable() && log[..] == LogTable()
  {
    exp := new bv8[256](_ => 0);
    log := new int[256](_ => 0);
    var g: bv8 := 1;
    for i := 0 to 255
      invariant g == Pow(i)
      invariant forall j :: 0 <= j < i ==> exp[j] == Pow(j)
      invariant forall v :: 0 <= v < 256 ==> log[v] == LogUpTo(v, i)
    {
      exp[i] := g;
      PowNonzero(i);
      log[g as int] := i;
      g := NextPower(g);
    }
    exp[255] := exp[0];
    assert forall j :: 0 <= j < 256 ==> exp[j] == ExpTable()[j];
    assert forall v :: 0 <= v < 256 ==> log[v] == LogTable()[v];
  }

  /** GF256.add: addition (and subtraction) in characteristic 2; adding b again undoes it. */
  function Add(a: bv8, b: bv8): (r: bv8)
    ensures r ^ b == a && a ^ r == b
  {
    a ^ b
  }

  /**
   * GF256.multiply: zero when an operand is zero, else exp_table[(log a + log b) % 255],
   * which is the generator raised to log a + log b: logarithms add.
   */
  function Multiply(a: bv8, b: bv8): (r: bv8)
    ensures r == 0 <==> a == 0 || b == 0
    ensures a != 0 && b != 0 ==> r == Pow(Log(a) + Log(b))
  {
    if a == 0 || b == 0 then 0
    else
      PowNonzero((Log(a) + Log(b)) % 255);
      PowPeriodic(Log(a) + Log(b));
      ExpTable()[(Log(a) + Log(b)) % 255]
  }

  /**
   * GF256.divide: raises on a zero divisor before looking at a, else
   * exp_table[(log a - log b) % 255]; the quotient is zero exactly when a is.
   */
  function Divide(a: bv8, b: bv8): (r: Result<bv8>)
    ensures r.Err? <==> b == 0
    ensures r.Err? ==> r.error == DivisionByZero
    ensures r.Ok? ==> (r.value == 0 <==> a == 0)
  {
    if b == 0 then Err(DivisionByZero)
    else if a == 0 then Ok(0)
    else
      PowNonzero((Log(a) - Log(b)) % 255);
      Ok(ExpTable()[(Log(a) - Log(b)) % 255])
  }

  // ---------------------------------------------------------------------
  // The builder's step and its iterates
  // ---------------------------------------------------------------------

  /** The step is the source's (g << 1) ^ (0x11D if g & 0x80 else 0), computed on 16 bits. */
  lemma NextPowerIsReduction(g: bv8)
    ensures NextPower(g) as bv16 == (g as bv16 << 1) ^ (if g & 0x80 != 0 then Modulus else 0)
  {
  }

  /** The step is linear over XOR ... */
  lemma NextPowerLinear(a: bv8, b: bv8)
    ensures NextPower(a ^ b) == NextPower(a) ^ NextPower(b)
  {
    assert (a ^ b) << 1 == (a << 1) ^ (b << 1);
    assert (a ^ b >= 0x80) == ((a >= 0x80) != (b >= 0x80));
  }

  /** ... and zero only at zero. */
  lemma NextPowerZero(a: bv8)
    ensures NextPower(a) == 0 <==> a == 0
  {
  }

  lemma {:induction false} TimesLinear(n: nat, a: bv8, b: bv8)
    ensures Times(n, a ^ b) == Times(n, a) ^ Times(n, b)
  {
    if n > 0 {
      TimesLinear(n - 1, a, b);
      NextPowerLinear(Times(n - 1, a), Times(n - 1, b));
    }
  }

  lemma {:induction false} TimesZero(n: nat, g: bv8)
    ensures Times(n, g) == 0 <==> g == 0
  {
    if n > 0 {
      TimesZero(n - 1, g);
      NextPowerZero(Times(n - 1, g));
    }
  }

  lemma TimesInjective(n: nat, a: bv8, b: bv8)
    requires Times(n, a) == Times(n, b)
    ensures a == b
  {
    TimesLinear(n, a, b);
    TimesZero(n, a ^ b);
  }

  lemma {:induction false} TimesCompose(m: nat, n: nat, g: bv8)
    ensures Times(m + n, g) == Times(m, Times(n, g))
  {
    if m > 0 {
      TimesCompose(m - 1, n, g);
    }
  }

  // ---------------------------------------------------------------------
  // The generator has order 255 (computed ten powers at a time)
  // ---------------------------------------------------------------------

  /** None of Pow(1), ..., Pow(n - 1) is 1. */
  predicate NoOneBelow(n: nat)
  {
    n <= 1 || (Pow(n - 1) != 1 && NoOneBelow(n - 1))
  }

  lemma {:induction false} GeneratorPowersTo50()
    ensures Pow(50) == 0x05 && NoOneBelow(50)
  {
    assert Pow(10) == 0x74 && NoOneBelow(10);
    assert Pow(20) == 0xB4 && NoOneBelow(20);
    assert Pow(30) == 0x60 && NoOneBelow(30);
    assert Pow(40) == 0x6A && NoOneBelow(40);
  }

  lemma {:induction false} GeneratorPowersTo100()
    ensures Pow(100) == 0x11 && NoOneBelow(100)
  {
    GeneratorPowersTo50();
    assert Pow(60) == 0xB9 && NoOneBelow(60);
    assert Pow(70) == 0x5E && NoOneBelow(70);
    assert Pow(80) == 0xFD && NoOneBelow(80);
    assert Pow(90) == 0xDF && NoOneBelow(90);
  }

  lemma {:induction false} GeneratorPowersTo150()
    ensures Pow(150) == 0x55 && NoOneBelow(150)
  {
    GeneratorPowersTo100();
    assert Pow(110) == 0x67 && NoOneBelow(110);
    assert Pow(120) == 0x3B && NoOneBelow(120);
    assert Pow(130) == 0x2E && NoOneBelow(130);
    assert Pow(140) == 0x84 && NoOneBelow(140);
  }

  lemma {:induction false} GeneratorPowersTo200()
    ensures Pow(200) == 0x1C && NoOneBelow(200)
  {
    GeneratorPowersTo150();
    assert Pow(160) == 0xE6 && NoOneBelow(160);
    assert Pow(170) == 0xD7 && NoOneBelow(170);
    assert Pow(180) == 0x96 && NoOneBelow(180);
    assert Pow(190) == 0xAE && NoOneBelow(190);
  }

  lemma {:induction false} GeneratorPowersTo255()
    ensures Pow(255) == 0x01 && NoOneBelow(255)
  {
    GeneratorPowersTo200();
    assert Pow(210) == 0x59 && NoOneBelow(210);
    assert Pow(220) == 0xAC && NoOneBelow(220);
    assert Pow(230) == 0xF4 && NoOneBelow(230);
    assert Pow(240) == 0x2C && NoOneBelow(240);
    assert Pow(250) == 0x6C && NoOneBelow(250);
  }
  lemma {:induction false} NoOneBelowAt(n: nat, d: nat)
    requires NoOneBelow(n) && 1 <= d < n
    ensures Pow(d) != 1
  {
    if d < n - 1 {
      NoOneBelowAt(n - 1, d);
    }
  }

  /** Pow(255) == 1, so the powers repeat with period 255. */
  lemma {:induction false} PowPeriodic(m: nat)
    ensures Pow(m) == Pow(m % 255)
    decreases m
  {
    if m >= 255 {
      GeneratorPowersTo255();
      TimesCompose(m - 255, 255, 1);
      PowPeriodic(m - 255);
    }
  }

  lemma PowNonzero(i: nat)
    ensures Pow(i) != 0
  {
    TimesZero(i, 1);
  }

  /** The first 255 powers are pairwise distinct. */
  lemma PowDistinct(i: nat, j: nat)
    requires i < j < 255
    ensures Pow(i) != Pow(j)
  {
    if Pow(i) == Pow(j) {
      TimesCompose(i, j - i, 1);
      TimesInjective(i, Pow(j - i), 1);
      GeneratorPowersTo255();
      NoOneBelowAt(255, j - i);
    }
  }

  // ---------------------------------------------------------------------
  // Every nonzero byte is a power (pigeonhole)
  // ---------------------------------------------------------------------

  /** The first n powers of the generator, as integers. */
  ghost function PowersBelow(n: nat): set<int>
  {
    if n == 0 then {} else PowersBelow(n - 1) + {Pow(n - 1) as int}
  }

  /** Every member of PowersBelow(n) is the power of some exponent below n. */
  lemma {:induction false} PowersBelowWitness(n: nat, v: int) returns (i: nat)
    requires v in PowersBelow(n)
    ensures i < n && Pow(i) as int == v
  {
    if v == Pow(n - 1) as int {
      i := n - 1;
    } else {
      i := PowersBelowWitness(n - 1, v);
    }
  }

  ghost function Range(lo: int, hi: int): set<int>
    decreases hi - lo
  {
    if lo >= hi then {} else Range(lo, hi - 1) + {hi - 1}
  }

  lemma {:induction false} RangeMembers(lo: int, hi: int, v: int)
    requires lo <= v < hi
    ensures v in Range(lo, hi)
    decreases hi - lo
  {
    if v < hi - 1 {
      RangeMembers(lo, hi - 1, v);
    }
  }

  lemma {:induction false} PowersBelowSize(n: nat)
    requires n <= 255
    ensures |PowersBelow(n)| == n
  {
    if n > 0 {
      PowersBelowSize(n - 1);
      if Pow(n - 1) as int in PowersBelow(n - 1) {
        var i := PowersBelowWitness(n - 1, Pow(n - 1) as int);
        PowDistinct(i, n - 1);
      }
    }
  }

  lemma {:induction false} RangeSize(lo: int, hi: int)
    requires lo <= hi
    ensures |Range(lo, hi)| == hi - lo
    decreases hi - lo
  {
    if lo < hi {
      RangeSize(lo, hi - 1);
      if hi - 1 in Range(lo, hi - 1) {
        RangeBounds(lo, hi - 1, hi - 1);
      }
    }
  }

  lemma {:induction false} RangeBounds(lo: int, hi: int, v: int)
    requires v in Range(lo, hi)
    ensures lo <= v < hi
    decreases hi - lo
  {
    if v != hi - 1 {
      RangeBounds(lo, hi - 1, v);
    }
  }

  lemma SubsetOfSameSize<T>(a: set<T>, b: set<T>)
    requires a <= b && |a| == |b|
    ensures a == b
  {
    assert b == a + (b - a);
    assert a * (b - a) == {};
    assert |b - a| == 0;
  }

  lemma {:induction false} PowersBelowNonzero(n: nat)
    requires n <= 255
    ensures PowersBelow(n) <= Range(1, 256)
  {
    if n > 0 {
      PowersBelowNonzero(n - 1);
      PowNonzero(n - 1);
      RangeMembers(1, 256, Pow(n - 1) as int);
    }
  }

  /** Pigeonhole: 255 distinct nonzero bytes are all the nonzero bytes. */
  lemma PowersFill(n: nat)
    requires n == 255
    ensures PowersBelow(n) == Range(1, 256)
  {
    PowersBelowSize(n);
    RangeSize(1, 256);
    PowersBelowNonzero(n);
    SubsetOfSameSize(PowersBelow(n), Range(1, 256));
  }

  lemma PowCovers(a: bv8)
    requires a != 0
    ensures exists i :: 0 <= i < 255 && Pow(i) == a
  {
    PowCoversBelow(255, a);
  }

  lemma PowCoversBelow(n: nat, a: bv8)
    requires n == 255 && a != 0
    ensures exists i :: 0 <= i < n && Pow(i) == a
  {
    PowersFill(n);
    RangeMembers(1, 256, a as int);
    var i := PowersBelowWitness(n, a as int);
    assert Pow(i) == a;
  }

  // ---------------------------------------------------------------------
  // The tables
  // ---------------------------------------------------------------------

  /** Once Pow(i) is written, its entry keeps i: the later powers are other bytes. */
  lemma {:induction false} LogUpToPow(i: nat, n: nat)
    requires i < n <= 255
    ensures LogUpTo(Pow(i) as int, n) == i
    decreases n
  {
    if i < n - 1 {
      PowDistinct(i, n - 1);
      ByteAsInt(Pow(i));
      ByteAsInt(Pow(n - 1));
      LogUpToPow(i, n - 1);
    }
  }

  /** A byte is recovered from its integer value. */
  lemma ByteAsInt(a: bv8)
    ensures (a as int) as bv8 == a
  {
  }

  /** The byte with integer value v, counted up from 0. */
  function ByteOf(v: int): bv8
    requires 0 <= v < 256
  {
    if v == 0 then 0 else ByteOf(v - 1) + 1
  }

  lemma Successor(b: bv8)
    requires b as int < 255
    ensures (b + 1) as int == b as int + 1
  {
  }

  /** ByteOf(v) has integer value v. */
  lemma {:induction false} ByteOfValue(v: int)
    requires 0 <= v < 256
    ensures ByteOf(v) as int == v
  {
    if v > 0 {
      ByteOfValue(v - 1);
      Successor(ByteOf(v - 1));
    }
  }

  /** ByteOf inverts the integer value of a byte. */
  lemma ByteOfInverse(b: bv8)
    ensures ByteOf(b as int) == b
  {
    ByteOfValue(b as int);
  }

  /** No power is zero, so entry 0 keeps its initial value. */
  lemma {:induction false} LogUpToZero(n: nat)
    requires n <= 255
    ensures LogUpTo(0, n) == 0
  {
    if n > 0 {
      PowNonzero(n - 1);
      LogUpToZero(n - 1);
    }
  }

  /** What _init_tables leaves: 255 distinct nonzero powers, log_table inverting them, and exp_table[255] == exp_table[0] == 1. */
  lemma ExpTableFacts()
    ensures ExpTable()[255] == ExpTable()[0] == 1
    ensures forall i, j :: 0 <= i < j < 255 ==> ExpTable()[i] != ExpTable()[j]
    ensures forall i :: 0 <= i < 255 ==> ExpTable()[i] != 0 && LogTable()[ExpTable()[i] as int] == i
    ensures LogTable()[0] == 0
  {
    forall i, j | 0 <= i < j < 255
      ensures ExpTable()[i] != ExpTable()[j]
    {
      PowDistinct(i, j);
    }
    forall i | 0 <= i < 255
      ensures ExpTable()[i] != 0 && LogTable()[ExpTable()[i] as int] == i
    {
      PowNonzero(i);
      LogUpToPow(i, 255);
    }
    LogUpToZero(255);
  }

  /** exp_table inverts log_table on the nonzero bytes. */
  lemma ExpOfLog(a: bv8)
    requires a != 0
    ensures 0 <= Log(a) < 255 && ExpTable()[Log(a)] == Pow(Log(a)) == a
  {
    PowCovers(a);
    var i :| 0 <= i < 255 && Pow(i) == a;
    LogUpToPow(i, 255);
  }

  lemma LogOfOne()
    ensures Log(1) == 0
  {
    LogUpToPow(0, 255);
    assert Pow(0) == 1;
  }

  // ---------------------------------------------------------------------
  // Field laws
  // ---------------------------------------------------------------------

  /** Multiplying by a nonzero a is the builder's step applied Log(a) times. */
  lemma MultiplyIsTimes(a: bv8, x: bv8)
    requires a != 0
    ensures Multiply(a, x) == Times(Log(a), x)
  {
    ExpOfLog(a);
    if x == 0 {
      TimesZero(Log(a), 0);
    } else {
      ExpOfLog(x);
      PowPeriodic(Log(a) + Log(x));
      TimesCompose(Log(a), Log(x), 1);
    }
  }

  /** multiply is zero exactly when an operand is zero, and commutes. */
  lemma MultiplyZeroCommutes(a: bv8, b: bv8)
    ensures Multiply(a, b) == 0 <==> a == 0 || b == 0
    ensures Multiply(a, b) == Multiply(b, a)
  {
    if a != 0 && b != 0 {
      PowNonzero((Log(a) + Log(b)) % 255);
    }
  }

  lemma MultiplyOne(a: bv8)
    ensures Multiply(1, a) == a && Multiply(a, 1) == a
  {
    if a != 0 {
      LogOfOne();
      ExpOfLog(a);
    }
  }

  lemma MultiplyDistributes(a: bv8, x: bv8, y: bv8)
    ensures Multiply(a, Add(x, y)) == Add(Multiply(a, x), Multiply(a, y))
    ensures Multiply(Add(x, y), a) == Add(Multiply(x, a), Multiply(y, a))
  {
    if a != 0 {
      MultiplyIsTimes(a, x);
      MultiplyIsTimes(a, y);
      MultiplyIsTimes(a, x ^ y);
      TimesLinear(Log(a), x, y);
    }
    MultiplyZeroCommutes(a, x);
    MultiplyZeroCommutes(a, y);
    MultiplyZeroCommutes(a, Add(x, y));
  }

  lemma MultiplyAssociates(a: bv8, b: bv8, c: bv8)
    ensures Multiply(Multiply(a, b), c) == Multiply(a, Multiply(b, c))
  {
    MultiplyZeroCommutes(a, b);
    MultiplyZeroCommutes(b, c);
    if a != 0 && b != 0 && c != 0 {
      MultiplyZeroCommutes(Multiply(a, b), c);
      MultiplyIsTimes(c, Multiply(a, b));
      MultiplyIsTimes(a, b);
      TimesCompose(Log(c), Log(a), b);
      MultiplyIsTimes(a, Multiply(b, c));
      MultiplyZeroCommutes(b, c);
      MultiplyIsTimes(c, b);
      TimesCompose(Log(a), Log(c), b);
    } else {
      MultiplyZeroCommutes(Multiply(a, b), c);
      MultiplyZeroCommutes(a, Multiply(b, c));
    }
  }

  /** The exponent divide looks up, added back to Log(b), is Log(a) again modulo 255. */
  lemma ExponentDifference(la: int, lb: int)
    requires 0 <= la < 255 && 0 <= lb < 255
    ensures 0 <= (la - lb) % 255 < 255 && (lb + (la - lb) % 255) % 255 == la
  {
    if la >= lb {
      assert (la - lb) % 255 == la - lb;
    } else {
      assert (la - lb) % 255 == la - lb + 255;
    }
  }

  /** For b != 0 the quotient of divide times b gives a back. */
  lemma DivideMultiplies(a: bv8, b: bv8)
    requires b != 0
    ensures Divide(a, b).Ok? && Multiply(Divide(a, b).value, b) == a
  {
    var q := Divide(a, b).value;
    if a == 0 {
      MultiplyZeroCommutes(q, b);
    } else {
      var la: int, lb: int := Log(a), Log(b);
      ExponentDifference(la, lb);
      var d: nat := (la - lb) % 255;
      ExpOfLog(a);
      assert q == Pow(d);
      calc {
        Multiply(q, b);
        { MultiplyZeroCommutes(q, b); }
        Multiply(b, q);
        { MultiplyIsTimes(b, q); }
        Times(lb, Times(d, 1));
        { TimesCompose(lb, d, 1); }
        Pow(lb + d);
        { PowPeriodic(lb + d); }
        Pow(la);
      }
    }
  }

  /** Multiplication by a nonzero b is injective. */
  lemma MultiplyCancels(q: bv8, r: bv8, b: bv8)
    requires b != 0 && Multiply(q, b) == Multiply(r, b)
    ensures q == r
  {
    MultiplyZeroCommutes(q, b);
    MultiplyZeroCommutes(r, b);
    MultiplyIsTimes(b, q);
    MultiplyIsTimes(b, r);
    TimesInjective(Log(b), q, r);
  }

  /**
   * divide raises exactly on a zero divisor (even for 0 / 0); otherwise its
   * quotient is the one q with q * b == a, so 0 / b == 0.
   */
  lemma DivideSpec(a: bv8, b: bv8)
    ensures Divide(a, b).Err? <==> b == 0
    ensures b == 0 ==> Divide(a, b) == Err(DivisionByZero)
    ensures b != 0 ==> forall q :: Multiply(q, b) == a <==> Divide(a, b) == Ok(q)
  {
    if b != 0 {
      DivideMultiplies(a, b);
      forall q | Multiply(q, b) == a
        ensures q == Divide(a, b).value
      {
        MultiplyCancels(q, Divide(a, b).value, b);
      }
    }
  }

  /** The laws the tool relies on, for nonzero a and b. */
  lemma InverseLaws(a: bv8, b: bv8)
    requires a != 0 && b != 0
    ensures Add(Add(a, b), b) == a && Add(a, a) == 0
    ensures Divide(1, a).Ok? && Multiply(a, Divide(1, a).value) == 1
    ensures Divide(Multiply(a, b), b) == Ok(a)
  {
    DivideSpec(1, a);
    MultiplyZeroCommutes(a, Divide(1, a).value);
    DivideSpec(Multiply(a, b), b);
  }

  /** Adding s on both sides: s + m == y exactly when m == s + y. */
  lemma AddSolve(s: bv8, m: bv8, y: bv8)
    ensures Add(s, m) == y <==> m == Add(s, y)
  {
    if Add(s, m) == y {
      assert m == Add(s, y);
    } else {
      assert m != Add(s, y);
    }
  }

  /** Adding two bytes gives zero exactly when they are equal. */
  lemma AddZero(a: bv8, b: bv8)
    ensures Add(a, b) == 0 <==> a == b
  {
    if a == b {
      assert Add(a, b) == 0;
    } else {
      assert Add(a, b) != 0;
    }
  }

  /** Addition in GF(2^8) commutes. */
  lemma AddCommutes(a: bv8, b: bv8)
    ensures Add(a, b) == Add(b, a)
  {
  }

  /** Rearranging a sum of four terms. */
  lemma AddSwap(a: bv8, b: bv8, c: bv8, d: bv8)
    ensures Add(Add(a, b), Add(c, d)) == Add(Add(a, c), Add(b, d))
  {
    calc {
      Add(Add(a, b), Add(c, d));
      (a ^ b) ^ (c ^ d);
      (a ^ c) ^ (b ^ d);
    }
  }

  /** If a + b + d == 0 then a + b == d. */
  lemma SumOfOthers(a: bv8, b: bv8, d: bv8)
    requires Add(Add(a, b), d) == 0
    ensures Add(a, b) == d
  {
    calc {
      Add(a, b);
      (a ^ b) ^ (d ^ d);
      ((a ^ b) ^ d) ^ d;
      d;
    }
  }

  /** A zero sum of three stays zero when its terms are rotated. */
  lemma RotateZero(a: bv8, b: bv8, d: bv8)
    requires Add(Add(a, b), d) == 0
    ensures Add(Add(b, d), a) == 0
  {
    calc {
      Add(Add(b, d), a);
      (a ^ b) ^ d;
      0;
    }
  }

  /** Three bytes that add up to zero: each is the sum of the other two, in either order. */
  lemma AddToZero(a: bv8, b: bv8, d: bv8)
    requires Add(Add(a, b), d) == 0
    ensures Add(a, b) == d && Add(b, a) == d
    ensures Add(a, d) == b && Add(d, a) == b
    ensures Add(b, d) == a && Add(d, b) == a
  {
    SumOfOthers(a, b, d);
    RotateZero(a, b, d);
    SumOfOthers(b, d, a);
    RotateZero(b, d, a);
    SumOfOthers(d, a, b);
    AddCommutes(a, b);
    AddCommutes(a, d);
    AddCommutes(b, d);
  }

  /** The XOR identity behind AddTriple, on raw bytes. */
  lemma XorTriple(s: bv8, a: bv8, b: bv8, d: bv8)
    ensures ((s ^ a) ^ (s ^ b)) ^ (s ^ d) == s ^ ((a ^ b) ^ d)
  {
  }

  /** Regrouping three sums that share the term s: two copies of s cancel. */
  lemma AddTriple(s: bv8, a: bv8, b: bv8, d: bv8)
    ensures Add(Add(Add(s, a), Add(s, b)), Add(s, d)) == Add(s, Add(Add(a, b), d))
  {
    XorTriple(s, a, b, d);
  }

  /** Division by d distributes over addition. */
  lemma DivideAdd(a: bv8, c: bv8, d: bv8)
    requires d != 0
    ensures Add(Divide(a, d).value, Divide(c, d).value) == Divide(Add(a, c), d).value
  {
    DivideSpec(a, d);
    DivideSpec(c, d);
    DivideSpec(Add(a, c), d);
    MultiplyDistributes(d, Divide(a, d).value, Divide(c, d).value);
  }

  lemma DivideSelf(d: bv8)
    requires d != 0
    ensures Divide(d, d) == Ok(1)
  {
    DivideSpec(d, d);
    MultiplyOne(d);
  }

  lemma MultiplyDivide(a: bv8, b: bv8, d: bv8)
    requires d != 0
    ensures Multiply(a, Divide(b, d).value) == Divide(Multiply(a, b), d).value
  {
    DivideSpec(b, d);
    DivideSpec(Multiply(a, b), d);
    MultiplyAssociates(a, Divide(b, d).value, d);
  }

  // ---------------------------------------------------------------------
  // Known values
  // ---------------------------------------------------------------------

  /** Doubling 0x80 overflows bit 7 and is reduced by 0x11D to 0x1D. */
  lemma DoublingReduces()
    ensures NextPower(0x80) == 0x1D
    ensures Pow(7) == 0x80 && Pow(8) == 0x1D
  {
    assert Pow(4) == 0x10;
    assert Pow(7) == 0x80;
  }

  /** 2 * 0x80 == 0x1D: log 2 == 1 and log 0x80 == 7, so the product is the generator's 8th power. */
  lemma MultiplyKnownValue()
    ensures Log(2) == 1 && Log(0x80) == 7
    ensures Multiply(2, 0x80) == 0x1D
  {
    DoublingReduces();
    assert Pow(1) == 2;
    LogUpToPow(1, 255);
    LogUpToPow(7, 255);
  }
}

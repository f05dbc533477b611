/*
 * Splitting a secret into shares and combining shares back:
 * split_secret (src/sss_tool.py:131-172) and combine_shares
 * (src/sss_tool.py:175-204).
 */
module Shamir {
  import opened Errors
  import opened GF256
  import opened Polynomial
  import opened Lagrange

  /** A share: its x-coordinate and one polynomial value per secret byte. */
  datatype Share = Share(x: bv8, bytes: seq<bv8>)

  // ---------------------------------------------------------------------
  // split_secret
  // ---------------------------------------------------------------------

  /** The x-coordinate of share number i (counting from 0): i + 1, so that no share sits at 0. */
  function XCoord(i: nat): bv8
    requires i < 255
  {
    ByteOf(i + 1)
  }

  /** Different shares get different, nonzero x-coordinates. */
  lemma XCoordsDistinct(i: nat, j: nat)
    requires i < 255 && j < 255
    ensures XCoord(i) != 0
    ensures XCoord(i) == XCoord(j) <==> i == j
  {
    ByteOfValue(i + 1);
    ByteOfValue(j + 1);
  }

  /**
   * The random coefficients drawn for the secret's bytes: draws[p] is the
   * stream of values the random source yields while byte p's polynomial
   * is built, of which the first k - 1 are used.
   */
  predicate Drawn(secret: seq<bv8>, k: int, draws: seq<seq<bv8>>)
  {
    k >= 1 && |draws| >= |secret| && forall p :: 0 <= p < |secret| ==> |draws[p]| >= k - 1
  }

  /** Once the parameter checks pass, the random source has the values the split draws. */
  predicate EnoughDraws(secret: seq<bv8>, n: int, k: int, draws: seq<seq<bv8>>)
  {
    |secret| > 0 && 2 <= k <= n <= 255 ==> Drawn(secret, k, draws)
  }

  /** The coefficients of byte p's polynomial: the secret byte, then k - 1 random values. */
  function Coefficients(secret: seq<bv8>, k: int, draws: seq<seq<bv8>>, p: nat): (cs: seq<bv8>)
    requires Drawn(secret, k, draws) && p < |secret|
    ensures |cs| == k && cs[0] == secret[p]
  {
    [secret[p]] + draws[p][..k - 1]
  }

  /** The first m bytes of the share at x: byte p is byte p's polynomial evaluated at x. */
  function ShareBytes(secret: seq<bv8>, k: int, draws: seq<seq<bv8>>, x: bv8, m: nat): seq<bv8>
    requires Drawn(secret, k, draws) && m <= |secret|
  {
    if m == 0 then []
    else ShareBytes(secret, k, draws, x, m - 1) + [PolyValue(Coefficients(secret, k, draws, m - 1), x)]
  }

  /** Every byte of a share is its polynomial's value at the share's x-coordinate. */
  lemma {:induction false} ShareBytesValues(secret: seq<bv8>, k: int, draws: seq<seq<bv8>>, x: bv8, m: nat)
    requires Drawn(secret, k, draws) && m <= |secret|
    ensures |ShareBytes(secret, k, draws, x, m)| == m
    ensures forall p :: 0 <= p < m ==>
      ShareBytes(secret, k, draws, x, m)[p] == PolyValue(Coefficients(secret, k, draws, p), x)
  {
    if m > 0 {
      ShareBytesValues(secret, k, draws, x, m - 1);
    }
  }

  /** Share number i of a split. */
  function ShareAt(secret: seq<bv8>, k: int, draws: seq<seq<bv8>>, i: nat): Share
    requires Drawn(secret, k, draws) && i < 255
  {
    PartialShare(secret, k, draws, i, |secret|)
  }

  /** Share number i after the first m bytes of the secret have been processed. */
  function PartialShare(secret: seq<bv8>, k: int, draws: seq<seq<bv8>>, i: nat, m: nat): Share
    requires Drawn(secret, k, draws) && i < 255 && m <= |secret|
  {
    Share(XCoord(i), ShareBytes(secret, k, draws, XCoord(i), m))
  }

  /**
   * The result of split_secret: the parameter errors in the order the
   * source checks them, otherwise n shares with x-coordinates 1 to n.
   */
  function Split(secret: seq<bv8>, n: int, k: int, draws: seq<seq<bv8>>): Result<seq<Share>>
    requires EnoughDraws(secret, n, k, draws)
  {
    if |secret| == 0 then Err(EmptySecret)
    else if k > n then Err(ThresholdAboveShareCount)
    else if k < 2 then Err(ThresholdTooSmall)
    else if n > 255 then Err(TooManyShares)
    else Ok(seq(n, i requires 0 <= i < n => ShareAt(secret, k, draws, i)))
  }

  /**
   * split_secret: for each byte position, build the polynomial from the
   * secret byte and k - 1 random draws, evaluate it at x = 1 .. n, and
   * append the value to the matching share (creating the shares at the
   * first byte).
   */
  method SplitSecret(secret: seq<bv8>, n: int, k: int, draws: seq<seq<bv8>>) returns (r: Result<seq<Share>>)
    requires EnoughDraws(secret, n, k, draws)
    ensures r == Split(secret, n, k, draws)
  {
    if |secret| == 0 {
      return Err(EmptySecret);
    }
    if k > n {
      return Err(ThresholdAboveShareCount);
    }
    if k < 2 {
      return Err(ThresholdTooSmall);
    }
    if n > 255 {
      return Err(TooManyShares);
    }
    assert Drawn(secret, k, draws);
    var shares: seq<Share> := [];
    for p := 0 to |secret|
      invariant |shares| == if p == 0 then 0 else n
      invariant forall i :: 0 <= i < |shares| ==> shares[i] == PartialShare(secret, k, draws, i, p)
    {
      var coefficients := [secret[p]];
      for d := 0 to k - 1
        invariant coefficients == [secret[p]] + draws[p][..d]
      {
        assert draws[p][..d + 1] == draws[p][..d] + [draws[p][d]];
        coefficients := coefficients + [draws[p][d]];
      }
      assert coefficients == Coefficients(secret, k, draws, p);
      for s := 0 to n
        invariant |shares| == if p == 0 then s else n
        invariant forall i :: 0 <= i < s ==> shares[i] == PartialShare(secret, k, draws, i, p + 1)
        invariant forall i :: s <= i < |shares| ==> shares[i] == PartialShare(secret, k, draws, i, p)
      {
        var x := XCoord(s);
        var y := EvaluatePolynomial(coefficients, x);
        assert PartialShare(secret, k, draws, s, p + 1) == Share(x, PartialShare(secret, k, draws, s, p).bytes + [y]);
        if p == 0 {
          shares := shares + [Share(x, [y])];
        } else {
          shares := shares[s := Share(shares[s].x, shares[s].bytes + [y])];
        }
      }
    }
    assert shares == seq(n, i requires 0 <= i < n => ShareAt(secret, k, draws, i));
    return Ok(shares);
  }

  /**
   * What a successful split produces: n shares, share i at x = i + 1,
   * each as long as the secret, byte p of every share on a polynomial
   * of k coefficients whose value at 0 is byte p of the secret; and a
   * split fails exactly when a parameter check does.
   */
  lemma SplitShape(secret: seq<bv8>, n: int, k: int, draws: seq<seq<bv8>>)
    requires EnoughDraws(secret, n, k, draws)
    ensures Split(secret, n, k, draws).Ok? <==> |secret| > 0 && 2 <= k <= n <= 255
    ensures Split(secret, n, k, draws).Ok? ==> |Split(secret, n, k, draws).value| == n
    ensures Split(secret, n, k, draws).Ok? ==> forall i :: 0 <= i < n ==>
      Split(secret, n, k, draws).value[i].x as int == i + 1 &&
      |Split(secret, n, k, draws).value[i].bytes| == |secret|
    ensures Split(secret, n, k, draws).Ok? ==> forall i, p :: 0 <= i < n && 0 <= p < |secret| ==>
      Split(secret, n, k, draws).value[i].bytes[p] ==
        PolyValue(Coefficients(secret, k, draws, p), Split(secret, n, k, draws).value[i].x)
    ensures Split(secret, n, k, draws).Ok? ==> forall p :: 0 <= p < |secret| ==>
      |Coefficients(secret, k, draws, p)| == k && PolyValue(Coefficients(secret, k, draws, p), 0) == secret[p]
  {
    if |secret| > 0 && 2 <= k <= n <= 255 {
      forall i | 0 <= i < n
        ensures ShareAt(secret, k, draws, i).x as int == i + 1
        ensures |ShareAt(secret, k, draws, i).bytes| == |secret|
        ensures forall p :: 0 <= p < |secret| ==>
          ShareAt(secret, k, draws, i).bytes[p] == PolyValue(Coefficients(secret, k, draws, p), XCoord(i))
      {
        ByteOfValue(i + 1);
        ShareBytesValues(secret, k, draws, XCoord(i), |secret|);
      }
      forall p | 0 <= p < |secret|
        ensures PolyValue(Coefficients(secret, k, draws, p), 0) == secret[p]
      {
        ValueAtZero(Coefficients(secret, k, draws, p));
      }
    }
  }

  // ---------------------------------------------------------------------
  // combine_shares
  // ---------------------------------------------------------------------

  /** The x-coordinates of the shares, in order. */
  function Xs(shares: seq<Share>): (xs: seq<bv8>)
    ensures |xs| == |shares|
  {
    seq(|shares|, i requires 0 <= i < |shares| => shares[i].x)
  }

  /** Every share is len bytes long. */
  predicate SameLength(shares: seq<Share>, len: nat)
  {
    forall i :: 0 <= i < |shares| ==> |shares[i].bytes| == len
  }

  /** Byte p of every share, in order. */
  function Column(shares: seq<Share>, p: nat): (ys: seq<bv8>)
    requires forall i :: 0 <= i < |shares| ==> p < |shares[i].bytes|
    ensures |ys| == |shares|
  {
    seq(|shares|, i requires 0 <= i < |shares| => shares[i].bytes[p])
  }

  /**
   * The first share at or after from whose length is not len, or |shares|
   * when there is none: the share the length check stops at.
   */
  function FirstMismatch(shares: seq<Share>, len: nat, from: nat): (j: nat)
    requires from <= |shares|
    ensures from <= j <= |shares|
    ensures forall i :: from <= i < j ==> |shares[i].bytes| == len
    ensures j < |shares| ==> |shares[j].bytes| != len
    decreases |shares| - from
  {
    if from == |shares| then from
    else if |shares[from].bytes| != len then from
    else FirstMismatch(shares, len, from + 1)
  }

  /**
   * The first m recovered bytes: byte p is the interpolation at 0 of
   * column p, or the error of the first interpolation that fails.
   */
  function RecoverUpTo(shares: seq<Share>, len: nat, m: nat): Result<seq<bv8>>
    requires SameLength(shares, len) && m <= len
  {
    if m == 0 then Ok([])
    else match RecoverUpTo(shares, len, m - 1)
      case Err(e) => Err(e)
      case Ok(acc) =>
        match Interpolate(Xs(shares), Column(shares, m - 1), 0)
        case Err(e) => Err(e)
        case Ok(b) => Ok(acc + [b])
  }

  /**
   * The result of combine_shares: too few shares, then the first share
   * whose length differs from the first share's (reporting both lengths),
   * then byte by byte recovery.
   */
  function Combine(shares: seq<Share>): Result<seq<bv8>>
  {
    if |shares| < 2 then Err(InsufficientShares)
    else
      var len := |shares[0].bytes|;
      var j := FirstMismatch(shares, len, 0);
      if j < |shares| then Err(ShareLengthMismatch(len, |shares[j].bytes|))
      else RecoverUpTo(shares, len, len)
  }

  /** A failed recovery stays failed, with the same error, as more bytes are recovered. */
  lemma {:induction false} RecoverFailurePersists(shares: seq<Share>, len: nat, m: nat, n: nat)
    requires SameLength(shares, len) && m <= n <= len
    requires RecoverUpTo(shares, len, m).Err?
    ensures RecoverUpTo(shares, len, n) == RecoverUpTo(shares, len, m)
    decreases n - m
  {
    if m < n {
      RecoverFailurePersists(shares, len, m, n - 1);
    }
  }

  /**
   * combine_shares: check the share count and the lengths, then recover
   * each byte by interpolating its column at 0.
   */
  method CombineShares(shares: seq<Share>) returns (r: Result<seq<bv8>>)
    ensures r == Combine(shares)
  {
    if |shares| < 2 {
      return Err(InsufficientShares);
    }
    var shareLength := |shares[0].bytes|;
    for i := 0 to |shares|
      invariant forall j :: 0 <= j < i ==> |shares[j].bytes| == shareLength
    {
      if |shares[i].bytes| != shareLength {
        return Err(ShareLengthMismatch(shareLength, |shares[i].bytes|));
      }
    }
    var recovered: seq<bv8> := [];
    for p := 0 to shareLength
      invariant RecoverUpTo(shares, shareLength, p) == Ok(recovered)
    {
      var shareX := seq(|shares|, j requires 0 <= j < |shares| => shares[j].x);
      var shareY := seq(|shares|, j requires 0 <= j < |shares| => shares[j].bytes[p]);
      var secretByte := LagrangeInterpolation(shareX, shareY, 0);
      assert shareX == Xs(shares) && shareY == Column(shares, p);
      if secretByte.Err? {
        RecoverFailurePersists(shares, shareLength, p + 1, shareLength);
        return Err(secretByte.error);
      }
      recovered := recovered + [secretByte.value];
    }
    return Ok(recovered);
  }

  /**
   * With at least two shares of one length, recovery of the first m bytes
   * fails exactly when an x-coordinate repeats and there is a byte to
   * recover, always with a division by zero; otherwise byte p is the
   * interpolation of column p at 0.
   */
  lemma {:induction false} RecoverSpec(shares: seq<Share>, len: nat, m: nat)
    requires |shares| >= 2 && SameLength(shares, len) && m <= len
    ensures RecoverUpTo(shares, len, m).Err? <==> !Distinct(Xs(shares)) && m >= 1
    ensures RecoverUpTo(shares, len, m).Err? ==> RecoverUpTo(shares, len, m) == Err(DivisionByZero)
    ensures RecoverUpTo(shares, len, m).Ok? ==>
      |RecoverUpTo(shares, len, m).value| == m &&
      forall p :: 0 <= p < m ==>
        Interpolate(Xs(shares), Column(shares, p), 0) == Ok(RecoverUpTo(shares, len, m).value[p])
  {
    if m > 0 {
      RecoverSpec(shares, len, m - 1);
      InterpolateFails(Xs(shares), Column(shares, m - 1), 0);
    }
  }

  /**
   * The failures of combine_shares, in the order it checks them: fewer
   * than two shares, then the first share whose length differs from the
   * first share's, reported with both lengths.
   */
  lemma CombineFails(shares: seq<Share>, j: nat)
    ensures |shares| < 2 ==> Combine(shares) == Err(InsufficientShares)
    ensures (|shares| >= 2 && j < |shares| && |shares[j].bytes| != |shares[0].bytes| &&
             forall i :: 0 <= i < j ==> |shares[i].bytes| == |shares[0].bytes|) ==>
      Combine(shares) == Err(ShareLengthMismatch(|shares[0].bytes|, |shares[j].bytes|))
    ensures Combine(shares).Err? && |shares| >= 2 && !SameLength(shares, |shares[0].bytes|) ==>
      Combine(shares).error.ShareLengthMismatch?
  {
  }

  /**
   * Two or more shares of one length combine into that many bytes, byte p
   * being column p interpolated at 0; they fail, with a division by zero,
   * exactly when an x-coordinate repeats and the shares are not empty.
   */
  lemma CombineSpec(shares: seq<Share>, len: nat)
    requires |shares| >= 2 && SameLength(shares, len)
    ensures Combine(shares).Err? <==> !Distinct(Xs(shares)) && len >= 1
    ensures Combine(shares).Err? ==> Combine(shares) == Err(DivisionByZero)
    ensures Combine(shares).Ok? ==>
      |Combine(shares).value| == len &&
      forall p :: 0 <= p < len ==>
        Interpolate(Xs(shares), Column(shares, p), 0) == Ok(Combine(shares).value[p])
  {
    RecoverSpec(shares, len, len);
  }

  // ---------------------------------------------------------------------
  // Round trips of a 2-of-n split
  // ---------------------------------------------------------------------

  /**
   * Shares of one length whose every column interpolates at 0 to the
   * matching byte of secret: the first m recovered bytes are secret's.
   */
  lemma {:induction false} RecoverColumns(shares: seq<Share>, secret: seq<bv8>, m: nat)
    requires |shares| >= 2 && SameLength(shares, |secret|) && m <= |secret|
    requires forall p :: 0 <= p < |secret| ==> Interpolate(Xs(shares), Column(shares, p), 0) == Ok(secret[p])
    ensures RecoverUpTo(shares, |secret|, m) == Ok(secret[..m])
  {
    if m > 0 {
      RecoverColumns(shares, secret, m - 1);
      assert secret[..m] == secret[..m - 1] + [secret[m - 1]];
    }
  }

  /** ... and so they combine into secret. */
  lemma CombineColumns(shares: seq<Share>, secret: seq<bv8>)
    requires |shares| >= 2 && SameLength(shares, |secret|)
    requires forall p :: 0 <= p < |secret| ==> Interpolate(Xs(shares), Column(shares, p), 0) == Ok(secret[p])
    ensures Combine(shares) == Ok(secret)
  {
    RecoverColumns(shares, secret, |secret|);
    assert secret[..|secret|] == secret;
  }

  /** Byte p of shares cut from one split: each is byte p's polynomial at the share's x-coordinate. */
  lemma SplitColumn(secret: seq<bv8>, k: int, draws: seq<seq<bv8>>, shares: seq<Share>, p: nat)
    requires Drawn(secret, k, draws)
    requires forall i :: 0 <= i < |shares| ==> shares[i].bytes == ShareBytes(secret, k, draws, shares[i].x, |secret|)
    ensures SameLength(shares, |secret|)
    ensures p < |secret| ==> forall i :: 0 <= i < |shares| ==>
      Column(shares, p)[i] == PolyValue(Coefficients(secret, k, draws, p), shares[i].x)
  {
    forall i | 0 <= i < |shares|
      ensures |shares[i].bytes| == |secret|
      ensures p < |secret| ==> shares[i].bytes[p] == PolyValue(Coefficients(secret, k, draws, p), shares[i].x)
    {
      ShareBytesValues(secret, k, draws, shares[i].x, |secret|);
    }
  }

  /** Values of the line cs at two different points interpolate at 0 to its constant term. */
  lemma PairOnLine(xs: seq<bv8>, ys: seq<bv8>, cs: seq<bv8>)
    requires |xs| == 2 && |ys| == 2 && |cs| == 2 && xs[0] != xs[1]
    requires forall i :: 0 <= i < 2 ==> ys[i] == PolyValue(cs, xs[i])
    ensures Interpolate(xs, ys, 0) == Ok(cs[0])
  {
    var s, t := cs[0], cs[1];
    var x0, x1 := xs[0], xs[1];
    assert cs == [s, t];
    assert xs == [x0, x1];
    assert ys == [PolyValue([s, t], x0), PolyValue([s, t], x1)];
    ValueAtZero([s, t]);
    TwoPointLine(x0, x1, s, t, 0);
  }

  /** Byte p of two shares at different points of a k == 2 split interpolates at 0 to byte p of the secret. */
  lemma PairColumn(secret: seq<bv8>, k: int, draws: seq<seq<bv8>>, shares: seq<Share>, p: nat)
    requires Drawn(secret, k, draws) && k == 2 && p < |secret| && |shares| == 2 && shares[0].x != shares[1].x
    requires forall i :: 0 <= i < |shares| ==> shares[i].bytes == ShareBytes(secret, k, draws, shares[i].x, |secret|)
    ensures SameLength(shares, |secret|)
    ensures Interpolate(Xs(shares), Column(shares, p), 0) == Ok(secret[p])
  {
    SplitColumn(secret, k, draws, shares, p);
    PairOnLine(Xs(shares), Column(shares, p), Coefficients(secret, k, draws, p));
  }

  /** Two shares at different points of a k == 2 split combine into the secret. */
  lemma PairRecovers(secret: seq<bv8>, k: int, draws: seq<seq<bv8>>, a: Share, b: Share)
    requires Drawn(secret, k, draws) && k == 2 && a.x != b.x
    requires a.bytes == ShareBytes(secret, k, draws, a.x, |secret|)
    requires b.bytes == ShareBytes(secret, k, draws, b.x, |secret|)
    ensures Combine([a, b]) == Ok(secret)
  {
    var shares := [a, b];
    SplitColumn(secret, k, draws, shares, 0);
    forall p | 0 <= p < |secret|
      ensures Interpolate(Xs(shares), Column(shares, p), 0) == Ok(secret[p])
    {
      PairColumn(secret, k, draws, shares, p);
    }
    CombineColumns(shares, secret);
  }

  /** Values of the line cs at three distinct points adding up to zero interpolate at 0 to its constant term. */
  lemma TripleOnLine(xs: seq<bv8>, ys: seq<bv8>, cs: seq<bv8>)
    requires |xs| == 3 && |ys| == 3 && |cs| == 2 && Distinct(xs) && Add(Add(xs[0], xs[1]), xs[2]) == 0
    requires forall i :: 0 <= i < 3 ==> ys[i] == PolyValue(cs, xs[i])
    ensures Interpolate(xs, ys, 0) == Ok(cs[0])
  {
    var s, t := cs[0], cs[1];
    assert cs == [s, t];
    assert ys == [PolyValue([s, t], xs[0]), PolyValue([s, t], xs[1]), PolyValue([s, t], xs[2])];
    ThreePointLine(xs, s, t);
  }

  /** Byte p of three shares at distinct points adding up to zero interpolates at 0 to byte p of the secret. */
  lemma TripleColumn(secret: seq<bv8>, k: int, draws: seq<seq<bv8>>, shares: seq<Share>, p: nat)
    requires Drawn(secret, k, draws) && k == 2 && p < |secret| && |shares| == 3
    requires Distinct(Xs(shares)) && Add(Add(shares[0].x, shares[1].x), shares[2].x) == 0
    requires forall i :: 0 <= i < |shares| ==> shares[i].bytes == ShareBytes(secret, k, draws, shares[i].x, |secret|)
    ensures SameLength(shares, |secret|)
    ensures Interpolate(Xs(shares), Column(shares, p), 0) == Ok(secret[p])
  {
    SplitColumn(secret, k, draws, shares, p);
    TripleOnLine(Xs(shares), Column(shares, p), Coefficients(secret, k, draws, p));
  }

  /** Three shares at distinct points adding up to zero, of a k == 2 split, combine into the secret. */
  lemma TripleRecovers(secret: seq<bv8>, k: int, draws: seq<seq<bv8>>, a: Share, b: Share, c: Share)
    requires Drawn(secret, k, draws) && k == 2
    requires Distinct([a.x, b.x, c.x]) && Add(Add(a.x, b.x), c.x) == 0
    requires a.bytes == ShareBytes(secret, k, draws, a.x, |secret|)
    requires b.bytes == ShareBytes(secret, k, draws, b.x, |secret|)
    requires c.bytes == ShareBytes(secret, k, draws, c.x, |secret|)
    ensures Combine([a, b, c]) == Ok(secret)
  {
    var shares := [a, b, c];
    assert Xs(shares) == [a.x, b.x, c.x];
    SplitColumn(secret, k, draws, shares, 0);
    forall p | 0 <= p < |secret|
      ensures Interpolate(Xs(shares), Column(shares, p), 0) == Ok(secret[p])
    {
      TripleColumn(secret, k, draws, shares, p);
    }
    CombineColumns(shares, secret);
  }

  /**
   * The 2-of-n promise: any two different shares of a split with k == 2
   * combine back into the secret.
   */
  lemma RoundTripTwo(secret: seq<bv8>, n: int, draws: seq<seq<bv8>>, i: nat, j: nat)
    requires EnoughDraws(secret, n, 2, draws) && Split(secret, n, 2, draws).Ok?
    requires i < n && j < n && i != j
    ensures Combine([Split(secret, n, 2, draws).value[i], Split(secret, n, 2, draws).value[j]]) == Ok(secret)
  {
    XCoordsDistinct(i, j);
    PairRecovers(secret, 2, draws, Split(secret, n, 2, draws).value[i], Split(secret, n, 2, draws).value[j]);
  }

  /** x-coordinates 1, 2 and 3 add up to zero in GF(2^8), in every order. */
  lemma FirstThreeCoordinates(i: nat, j: nat, l: nat)
    requires i < 3 && j < 3 && l < 3 && i != j && j != l && i != l
    ensures Distinct([XCoord(i), XCoord(j), XCoord(l)])
    ensures Add(Add(XCoord(i), XCoord(j)), XCoord(l)) == 0
  {
    XCoordsDistinct(i, j);
    XCoordsDistinct(j, l);
    XCoordsDistinct(i, l);
    assert XCoord(0) == 1 && XCoord(1) == 2 && XCoord(2) == 3;
  }

  /**
   * The 2-of-3 promise when all three shares are given: they combine back
   * into the secret, in any order.
   */
  lemma RoundTripThree(secret: seq<bv8>, draws: seq<seq<bv8>>, i: nat, j: nat, l: nat)
    requires EnoughDraws(secret, 3, 2, draws) && Split(secret, 3, 2, draws).Ok?
    requires i < 3 && j < 3 && l < 3 && i != j && j != l && i != l
    ensures Combine([Split(secret, 3, 2, draws).value[i], Split(secret, 3, 2, draws).value[j],
                     Split(secret, 3, 2, draws).value[l]]) == Ok(secret)
  {
    var shares := Split(secret, 3, 2, draws).value;
    FirstThreeCoordinates(i, j, l);
    TripleRecovers(secret, 2, draws, shares[i], shares[j], shares[l]);
  }
}

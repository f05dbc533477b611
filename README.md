# Shamir 2-of-n secret sharing over GF(2^8), modelled in Dafny

`src/sss_tool.py` splits a byte secret into n shares so that any k of them
give the secret back. Each byte of the secret becomes the constant term of its
own polynomial of degree k - 1 over GF(2^8). A share is the list of those
polynomials' values at one nonzero x. Recovery interpolates each byte column
at x = 0 (Lagrange interpolation). Shares travel as text, `"<x>:<base64>"`.

This project models that core in five modules:

- `Errors` (`errors.dfy`): the exceptions the tool raises, as a `Result` datatype. The failure kinds are told apart, but the messages are not modelled.
- `GF256` (`gf256.dfy`): the field.
  - `InitTables` is the table builder `_init_tables`, written as a method over two arrays. Its loop is proved against the functions `ExpTable` and `LogTable`.
  - `Add`, `Multiply` and `Divide` are the table lookups, written exactly as the source does them: `% 255` on exponents, and a zero divisor checked before a zero dividend.
  - The field laws the tool depends on are proved for these lookups: commutativity, distributivity, associativity, inverses and the quotient's uniqueness. The proof goes through the generator's powers.
- `Polynomial` (`polynomial.dfy`): `evaluate_polynomial`, with its accumulator loop, is proved against the textbook sum of `c_i * x^i`. Also proved: its value at 0, and single-share secrecy for a line.
- `Lagrange` (`lagrange.dfy`): `lagrange_interpolation`, with its two nested loops, is proved against a recursive definition. It is proved to:
  - fail in the source's order;
  - pass through every given point;
  - reproduce a line from two points at any x, and from three points whose x-coordinates XOR to 0 at x = 0.
- `Shamir` (`shamir.dfy`):
  - `split_secret` (nested loops that append shares and then overwrite them in place) and `combine_shares` are methods, each proved equal to a specification function.
  - The failure order, the shape of the split, and the meaning of each recovered byte are proved.
  - The round trips are proved: any two shares of a k = 2 split give the secret back, and so do all three shares of a 2-of-3 split.
- `ShareCodec` (`share_codec.dfy`): `encode_share` / `decode_share`, with decimal integers and the base64 of section 4 of RFC 4648. Proved:
  - the round trip for every integer x and every byte string (CPython's limit on the digits of an integer is not modelled);
  - that base64 text holds no ':';
  - exactly when the separator is reported missing.

Randomness (`secrets.randbelow`) is the parameter `draws: seq<seq<bv8>>`. Row p holds the values the random source yields while byte p's polynomial is built, and the split uses the first k - 1 of them. Because of this, `split_secret` is a deterministic function of its inputs.

## Model

| member | source | states |
|---|---|---|
| GF256.InitTables | src/sss_tool.py:59-71 | the arrays the builder fills are exactly `ExpTable()` (generator powers, `exp[255] = exp[0]`) and `LogTable()` (for each value the last exponent written for it, 0 for unwritten entries) |
| GF256.NextPowerIsReduction | src/sss_tool.py:68 | the builder's step is a shift left, reduced by 0x11D when bit 7 is set |
| GF256.ExpTableFacts | src/sss_tool.py:59-71 | `exp[255] == exp[0] == 1`; `exp[0..254]` are 255 distinct nonzero bytes; `log[exp[i]] == i` for i < 255; `log[0] == 0` |
| GF256.PowDistinct | src/sss_tool.py:64-68 | the powers of the generator 1, 2, 4, … up to exponent 254 never repeat |
| GF256.PowCovers | src/sss_tool.py:64-68 | every nonzero byte is one of the first 255 powers, so `exp[log[a]] == a` can hold for all a in 1..255 |
| GF256.ExpOfLog | src/sss_tool.py:41-44 | for a nonzero a, `log[a] < 255` and `exp[log[a]] == a` |
| GF256.Add | src/sss_tool.py:30-32 | add is XOR, so adding b again gives a back (subtraction is addition); the other XOR facts are the lemmas `AddSolve`, `AddZero`, `AddToZero` |
| GF256.Multiply | src/sss_tool.py:35-44 | the table product is 0 exactly when an operand is 0, and otherwise the generator raised to log a + log b (the `% 255` only folds the exponent); its laws are the lemmas below |
| GF256.Divide | src/sss_tool.py:47-56 | divide fails, with the division-by-zero error, exactly when b == 0; a successful quotient is 0 exactly when a is; `DivideSpec` states the quotient itself |
| GF256.DoublingReduces | src/sss_tool.py:64-68 | known values of the builder: doubling 0x80 gives 0x1D, the 7th power is 0x80 and the 8th is 0x1D |
| GF256.MultiplyKnownValue | src/sss_tool.py:35-44 | known values of the tables: log 2 == 1, log 0x80 == 7, and 2 * 0x80 == 0x1D |
| GF256.AddSolve | src/sss_tool.py:30-32 | XOR addition is invertible: `s + m == y` exactly when `m == s + y` |
| GF256.MultiplyZeroCommutes | src/sss_tool.py:35-44 | the table product is 0 exactly when an operand is 0, and is commutative |
| GF256.MultiplyOne | src/sss_tool.py:35-44 | 1 is the identity of the table product on both sides |
| GF256.MultiplyIsTimes | src/sss_tool.py:35-44 | for a nonzero a, the table product `a * x` applies the builder's step log(a) times to x |
| GF256.MultiplyDistributes | src/sss_tool.py:35-44 | the table product distributes over XOR, on both sides |
| GF256.MultiplyAssociates | src/sss_tool.py:35-44 | the table product is associative |
| GF256.DivideMultiplies | src/sss_tool.py:47-56 | for a nonzero b, division succeeds and `divide(a, b) * b == a` |
| GF256.MultiplyCancels | src/sss_tool.py:35-44 | a nonzero factor cancels: `q * b == r * b` forces `q == r` |
| GF256.DivideSpec | src/sss_tool.py:47-56 | divide fails exactly when `b == 0`, with the division-by-zero error (so 0 / 0 fails too); otherwise it returns the unique q with `q * b == a`, hence 0 / b == 0 |
| GF256.InverseLaws | src/sss_tool.py:30-56 | `(a + b) + b == a`, `a + a == 0`, `a * divide(1, a) == 1`, `divide(a * b, b) == a` |
| GF256.DivideAdd | src/sss_tool.py:47-56 | division by a nonzero d distributes over XOR |
| GF256.MultiplyDivide | src/sss_tool.py:35-56 | `a * (b / d) == (a * b) / d` for a nonzero d |
| Polynomial.EvaluatePolynomial | src/sss_tool.py:76-92 | the accumulator loop returns the sum of `c_i * x^i` over all coefficients |
| Polynomial.PolyValueIsHorner | src/sss_tool.py:76-92 | that sum equals Horner's nested form `c0 + x * (c1 + x * …)` |
| Polynomial.PeelConstant | src/sss_tool.py:87-92 | a polynomial's value is its constant plus x times the value of the rest |
| Polynomial.ValueAtZero | src/sss_tool.py:87-92 | at x = 0 the value is the first coefficient, and the empty list gives 0 |
| Polynomial.LineSolution | src/sss_tool.py:158-165 | for a nonzero x, `[s, c]` takes the value y at x exactly when `c == (s + y) / x` |
| Polynomial.SingleShareSecrecy | src/sss_tool.py:158-165 | for a nonzero x and every secret byte s, each output byte y comes from exactly one random coefficient c, so one share of a 2-of-n split reveals nothing about s |
| Lagrange.LagrangeInterpolation | src/sss_tool.py:95-128 | the nested loops return exactly `Interpolate`: the two argument checks, then the sum of `y_i * (prod (x + x_j)) / (prod (x_i + x_j))`, failing at the first failing division |
| Lagrange.BasisFactors | src/sss_tool.py:113-121 | the inner loop's numerator and denominator are the products over j ≠ i of `x + x_j` and `x_i + x_j` |
| Lagrange.BasisProductZero | src/sss_tool.py:116-121 | a product of `at + x_j` over j ≠ i is 0 exactly when some other x_j equals `at` |
| Lagrange.BasisFails | src/sss_tool.py:114-124 | basis i fails exactly when x_i is repeated elsewhere, and then with division by zero |
| Lagrange.SumFails | src/sss_tool.py:112-126 | the running sum fails exactly when one of the bases so far has a repeated x, with division by zero |
| Lagrange.FailurePersists | src/sss_tool.py:112-126 | once a division has failed, later terms leave the failure unchanged |
| Lagrange.InterpolateFails | src/sss_tool.py:107-128 | a length mismatch is reported first, then fewer than two points; with two or more points interpolation fails exactly when the x-coordinates are not distinct, with division by zero |
| Lagrange.InterpolatePassesThrough | src/sss_tool.py:112-128 | with distinct x-coordinates, interpolating at x_k gives y_k |
| Lagrange.TwoPointLine | src/sss_tool.py:112-128 | two distinct points of a line `s + c*x` interpolate to that line's value at every x |
| Lagrange.ThreePointLine | src/sss_tool.py:112-128 | three distinct points of a line whose x-coordinates XOR to 0 interpolate to s at x = 0 |
| Shamir.XCoordsDistinct | src/sss_tool.py:163-164 | share i gets x = i + 1: nonzero, and different for different shares |
| Shamir.ShareBytesValues | src/sss_tool.py:156-170 | byte p of the share at x is byte p's polynomial evaluated at x |
| Shamir.SplitSecret | src/sss_tool.py:131-172 | the nested loops (append at byte 0, overwrite in place afterwards) return exactly `Split`: the four checks in source order, then the n shares |
| Shamir.SplitShape | src/sss_tool.py:143-172 | split succeeds exactly when the secret is non-empty and `2 <= k <= n <= 255`; it then gives n shares with x = 1..n in order, each as long as the secret; byte p of share i is byte p's polynomial at share i's x, and that polynomial has k coefficients and value `secret[p]` at 0 |
| Shamir.CombineShares | src/sss_tool.py:175-204 | the length loop and the byte loop return exactly `Combine`: the checks in source order, then one interpolation per byte column |
| Shamir.CombineFails | src/sss_tool.py:185-192 | fewer than two shares fail first; then the first share whose length differs from the first share's is reported with both lengths |
| Shamir.RecoverFailurePersists | src/sss_tool.py:196-202 | a failing column aborts the recovery with its error, whatever columns follow |
| Shamir.CombineSpec | src/sss_tool.py:188-204 | for two or more shares of one length, the result is as long as the shares and byte p is column p interpolated at 0; it fails, with division by zero, exactly when an x repeats and the shares are not empty |
| Shamir.RoundTripTwo | src/sss_tool.py:131-204 | for k = 2 and any n, combining any two different shares of a successful split gives the secret back |
| Shamir.RoundTripThree | src/sss_tool.py:131-204 | for k = 2 and n = 3, combining all three shares, in any order, gives the secret back |
| ShareCodec.ParseInt | src/sss_tool.py:236 | the strict reading of `int(parts[0])`: every failure is an invalid coordinate; accepted text is exactly one or more digits, or a '+' or '-' followed by one or more digits; digits read as their value, and a sign applies to the digits after it ("+5" is 5, "-007" is -7) |
| ShareCodec.IntDecimalRoundTrip | src/sss_tool.py:219 | reading the decimal text of any integer x, signed or not, gives back x (no digit limit, see Left out) |
| ShareCodec.Base64Encode | src/sss_tool.py:218 | `base64.b64encode`: 4 characters per started group of 3 bytes |
| ShareCodec.Base64Vectors | src/sss_tool.py:218 | the encoder gives the test vectors of section 10 of RFC 4648: "f" is "Zg==", "fo" is "Zm8=", "foo" is "Zm9v", "foobar" is "Zm9vYmFy" |
| ShareCodec.Base64Decode | src/sss_tool.py:237 | strict `base64.b64decode`: every failure is reported as invalid base64; `Base64RoundTrip` and `Base64DecodeLength` state what it accepts |
| ShareCodec.Base64NoColon | src/sss_tool.py:218 | base64 text holds no ':' |
| ShareCodec.Base64RoundTrip | src/sss_tool.py:218-237 | decoding the base64 of any byte string gives back that string |
| ShareCodec.Base64DecodeLength | src/sss_tool.py:237 | only text in whole groups of four decodes, giving 3 bytes per group less at most 2 for padding |
| ShareCodec.EncodeShare | src/sss_tool.py:207-219 | the text is the decimal x, ':', then the base64 bytes: its first ':' sits right after the decimal x, and its length is that of the decimal x plus 1 plus the base64 length |
| ShareCodec.DecodeShare | src/sss_tool.py:222-240 | every failure is reported as a share decoding error with its cause, as the source's wrapping `except` does; success needs a ':' |
| ShareCodec.ShareRoundTrip | src/sss_tool.py:207-240 | `decode_share(encode_share(x, b)) == (x, b)` for every integer x (no digit limit, see Left out) and byte string b |
| ShareCodec.MissingSeparatorFails | src/sss_tool.py:232-240 | decoding fails for want of a separator exactly when the text contains no ':' |

## Left out

- `main` (src/sss_tool.py:243-383) is I/O. This covers argument parsing, file reading and writing, printing, exit codes, and the hex/base64/UTF-8 conversions of the secret.
- `secrets.randbelow` is a cryptographic random source. It becomes the caller-supplied `draws`. Uniformity is not modelled; `Polynomial.SingleShareSecrecy` states the per-byte bijection instead.
- Tables computed at import time: the functions `ExpTable()` and `LogTable()` take the place of the class attributes, and `InitTables` is proved to build them.
- Share x-coordinates in `split`/`combine` are bytes (`bv8`), and an x outside 0..255 is not modelled. The codec keeps x as an unbounded integer, and nothing range-checks a decoded x before it reaches `combine_shares`. In the source, such an x is silently misread or raises, depending on its sign:
  - A table index of 256 or more usually raises `IndexError`. It does not when an earlier numerator factor is already 0, because `multiply` returns 0 before looking anything up.
  - A negative x makes the XORed table indices negative. An index from -256 to -1 raises nothing: Python reads it from the end of the table, and the result is a meaningless byte. For example, `add(-1, 1) == -2` makes `multiply` read `_log_table[254]`.
  - An index below -256 raises `IndexError`. For example, with shares at x = -300 and x = 1, the denominator step calls `multiply(1, add(-300, 1))`, which reads `_log_table[-299]`.
- ShareCodec.ParseInt: the digit limit on integer conversion (4300 digits by default since CPython 3.11 and the 3.7-3.10 security releases) is not modelled, on either side. The source's `decode_share` fails on a longer coordinate, and its `encode_share` fails on an x of more than 4300 digits; the model reads and writes any number of digits. The tool itself never produces such an x.
- `ShareCodec.DecodeShare` is stricter than the source in its decimal part. Python's `int()` also accepts surrounding whitespace, underscores between digits and non-ASCII digits; the model accepts only an optional sign followed by ASCII digits.
- `ShareCodec.Base64Decode` is stricter than the source too. The non-validating `base64.b64decode` drops characters outside the alphabet and tolerates some padding defects; the model decodes strict section 4 of RFC 4648 base64. It does ignore the unused low bits of the last group, as the library does.
- Exception message texts are not modelled. The failure kinds are told apart, and a length mismatch carries both lengths.
- Lagrange interpolation is not proved correct for every n-point polynomial. The model proves:
  - the general pass-through property (`Lagrange.InterpolatePassesThrough`);
  - the two-point case at every x;
  - the three-point case at 0 when the x-coordinates XOR to 0 (as 1, 2, 3 do).

  These are exactly what the 2-of-n and 2-of-3 round trips need.
- Shamir.RoundTripThree: stated for n = 3 (x-coordinates 1, 2, 3), the case the tool is built for. Three shares of a larger k = 2 split are not covered.
- Python's `%` with the positive modulus 255 agrees with Dafny's Euclidean `%`, so the exponent arithmetic is written unchanged.

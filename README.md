# Shamir secret reconstruction, modelled in Dafny

`ShamirSecret.java` reads a test case with `n` announced roots, a threshold `k` and
the roots themselves. Each root is a key and a value written in some base. The program
turns every root into a share `(x, y)`:
- x is the key read as a decimal integer;
- y is the value read in the root's base.

It then reconstructs the secret, the constant term `f(0)` of the polynomial through the
first `k` shares, by Lagrange interpolation at zero in `BigInteger` arithmetic.

A second class, `MatrixMethod`, solves the same problem another way. It builds the
augmented Vandermonde system and solves it in place by Gaussian elimination with
partial pivoting and back substitution. A small splitter, `splitJSON`, cuts the
body of the input object at the commas that are outside braces.

The model has seven modules.
- `JavaMath`: `BigInteger.divide` and `remainder`, which truncate toward zero (`JavaDiv`, `JavaRem`), `pow`, and the Java exceptions as a `Fault` datatype inside a `Result`.
- `Radix`: `new BigInteger(String, radix)` as a pure function. It checks the radix, the length, the sign and the digits, then evaluates the digits by Horner's rule. `BigInteger.toString(radix)` is its inverse.
- `Lagrange`: `lagrangeInterpolation` as an imperative method with its nested loops. It is proved against specification functions for the products, the terms and their sum. The warning of line 104 is returned as the list of the indices whose division is not exact.
- `Permutation`: the Lagrange result does not depend on the order of the shares.
- `Shares`: the decoding loop, `subList(0, k)` and the call to the interpolation, all as in `processTestCase`.
- `MatrixMethod`: `findSecretMatrix` and `gaussianElimination` on an `array<seq<int>>`. The array of rows is changed in place, and a row swap exchanges two entries of it, as the Java code exchanges two row references.
- `JsonSplit`: `splitJSON` as a loop with its brace count and start index.

Some behaviour of the code is shown by lemmas rather than assumed away.
- Every Lagrange term is truncated on its own, so an inexact division changes the result. For the shares (1, c) and (-1, c) of a constant polynomial c with c odd, the method returns c moved one unit toward zero (0 for c = 1). Both divisions are flagged (`Lagrange.TruncationLoss`).
- The matrix method truncates each elimination factor. It does not agree with the Lagrange result even on a line. For (1, 9), (2, 12), on 3x + 6, Lagrange gives 6 and the matrix method 9 (`MatrixMethod.ExampleLine`). Nothing in the program calls the matrix method, and the model claims no agreement between the two.
- The shares (1, 3), (2, 6), (3, 11) lie on x² + 2, not on x² + x + 1. The code returns 2 for them (`Lagrange.ExampleParabola`).
- `n` takes no part in the reconstruction. The selection checks `k` against the number of roots actually present.
- All roots are decoded before any is selected. A malformed root after the first `k` still makes the test case fail (`Shares.BadRootFails`).

## Model

| member | source | states |
|---|---|---|
| JavaMath.JavaDiv | ShamirSecret.java:109 | `BigInteger.divide`: the quotient of the magnitudes, negated when exactly one operand is negative, so it rounds toward zero; defined only for a non-zero divisor |
| JavaMath.JavaRem | ShamirSecret.java:103 | `BigInteger.remainder`: the dividend less quotient times divisor, so it takes the sign of the dividend |
| JavaMath.Pow | ShamirSecret.java:233 | `BigInteger.pow` for a non-negative exponent: the product of e copies of x, 1 for e = 0 whatever x is |
| JavaMath.DivRem | ShamirSecret.java:103-109 | `divide` and `remainder` recombine to the dividend; the remainder is smaller than the divisor in magnitude and is zero or has the sign of the dividend |
| JavaMath.DivUnique | ShamirSecret.java:109 | the truncated quotient is the only quotient whose remainder has those properties |
| JavaMath.RemZeroIffDivides | ShamirSecret.java:103 | the remainder is zero exactly when the divisor divides the dividend |
| Radix.CharDigit | ShamirSecret.java:54 | `Character.digit` on ASCII: 0-9 for the decimal digits, 10-35 for a-z and for A-Z alike, and -1 (no digit) for any other character |
| Radix.ParseBigInteger | ShamirSecret.java:54 | `new BigInteger(s, radix)`: NumberFormatException for a radix outside 2..36, an empty string, a sign after the first character, a lone sign or a character that is not a digit below the radix, in that order; otherwise the Horner value of the digits, negated after a leading '-' |
| Radix.ParseDecimal | ShamirSecret.java:53 | `new BigInteger(s)`: the same parse in radix 10 |
| Radix.HornerIsPositional | ShamirSecret.java:54 | the Horner evaluation of a digit string is its positional value, the sum of d_m · base^(len-1-m) |
| Radix.HornerBound | ShamirSecret.java:54 | a string of len digits of a base is worth less than base^len |
| Radix.HornerZero | ShamirSecret.java:54 | a digit string is worth zero exactly when every digit is zero |
| Radix.ToDigits | ShamirSecret.java:54 | the encoding of a number in a base is non-empty, has no leading zero and uses only digits below the base |
| Radix.HornerToDigits | ShamirSecret.java:54 | evaluating the encoding of n gives back n |
| Radix.ToDigitsHorner | ShamirSecret.java:54 | encoding the value of a digit string gives back the string without its leading zeros |
| Radix.DigitChar | ShamirSecret.java:54 | the character written for a digit is read back as that digit |
| Radix.ParseToRadixString | ShamirSecret.java:54 | parsing `toString(radix)` of any integer, negative ones included, gives back the integer |
| Radix.ParseOkIff | ShamirSecret.java:54 | parsing succeeds exactly when the radix is in 2..36, the string is non-empty, at most a leading sign is present, and at least one digit follows, all below the radix; every failure is a NumberFormatException |
| Radix.ParseValue | ShamirSecret.java:54 | a well-formed string parses to its positional value, negated after a leading '-' |
| Radix.ParseBound | ShamirSecret.java:54 | the parsed magnitude is below radix^(number of digits) |
| Radix.ParseExamples | ShamirSecret.java:54 | "1a" and "1A" in base 16 are 26, "-101" in base 2 is -5, "+7" in base 8 is 7 |
| Radix.ParseErrorExamples | ShamirSecret.java:54 | a digit not below the radix, a radix of 37, an empty string, a lone sign and an embedded sign each throw, with the matching reason |
| Lagrange.Numerator | ShamirSecret.java:88-94 | the product of (0 - x_j) over every share j other than i, 1 for a single share |
| Lagrange.Denominator | ShamirSecret.java:89-98 | the product of (x_i - x_j) over every share j other than i, 1 for a single share |
| Lagrange.Term | ShamirSecret.java:109 | y_i · numerator_i divided by denominator_i, truncated toward zero (0 for a zero denominator, a case `Secret` reports as the exception instead) |
| Lagrange.Secret | ShamirSecret.java:81-119 | the sum of the terms when no denominator is zero, and otherwise the ArithmeticException the first zero denominator raises |
| Lagrange.Warnings | ShamirSecret.java:103-105 | the indices, in increasing order, whose division y_i · numerator_i / denominator_i leaves a remainder |
| Lagrange.Products | ShamirSecret.java:88-100 | the inner loop yields the product of (0 - x_j) and the product of (x_i - x_j) over all j other than i, both starting from 1 |
| Lagrange.LagrangeInterpolation | ShamirSecret.java:81-119 | the method returns the sum of the truncated terms y_i · num_i / den_i, or an ArithmeticException when a denominator is zero; the warnings are the indices of the inexact divisions, in order |
| Lagrange.ProdDiffZero | ShamirSecret.java:94-97 | a product of differences is zero exactly when one of its factors is zero |
| Lagrange.NoZeroDenominatorIffDistinct | ShamirSecret.java:95-103 | every denominator is non-zero exactly when the x values are pairwise distinct |
| Lagrange.SinglePoint | ShamirSecret.java:81-119 | a single share (x, y) gives y, with no warning |
| Lagrange.TermRemainder | ShamirSecret.java:103-109 | each term times its denominator plus the remainder is y_i · num_i; the remainder is smaller than the denominator; with no warning, term · den_i = y_i · num_i |
| Lagrange.WarningsExact | ShamirSecret.java:103-105 | an index is in the warning list exactly when its division leaves a remainder |
| Lagrange.LinearExact | ShamirSecret.java:81-119 | two shares on a line a·x + b with distinct x and exact divisions give b |
| Lagrange.TwoPointSecret | ShamirSecret.java:81-119 | for two shares with distinct x the secret is y1·(−x2)/(x1−x2) + y2·(−x1)/(x2−x1), each quotient truncated, and a warning is listed for each inexact quotient |
| Lagrange.ExampleLine | ShamirSecret.java:81-119 | (1, 9), (2, 12) give 6 with no warning |
| Lagrange.ExampleParabola | ShamirSecret.java:81-119 | (1, 3), (2, 6), (3, 11) give 2 with no warning |
| Lagrange.TruncationLoss | ShamirSecret.java:103-110 | for an odd c, (1, c), (-1, c) give c moved one unit toward zero and warn at both points, because both terms c/2 truncate toward zero |
| Lagrange.DuplicateX | ShamirSecret.java:103 | two shares with the same x, whatever their y, throw ArithmeticException |
| Permutation.ProdDiffAppend | ShamirSecret.java:91-100 | the product over a concatenation is the product of the two products |
| Permutation.ProdDiffPerm | ShamirSecret.java:91-100 | a product of differences depends only on the multiset of points it runs over |
| Permutation.TermWithPerm | ShamirSecret.java:103-109 | a term depends only on its own point and the multiset of the other points |
| Permutation.OthersMultiset | ShamirSecret.java:91-92 | the points other than the i-th are the multiset of all points less one copy of the i-th |
| Permutation.PartialSumAsSumOver | ShamirSecret.java:87-110 | the sum of the terms by position equals the sum over the points, each taken against the others |
| Permutation.SumOverPerm | ShamirSecret.java:110 | reordering the summed points does not change the sum |
| Permutation.SumOverContext | ShamirSecret.java:91-100 | reordering the points the terms are taken against does not change the sum |
| Permutation.NoZeroDenominatorPerm | ShamirSecret.java:95-103 | a reordering of shares with no zero denominator has no zero denominator |
| Permutation.SecretPermutation | ShamirSecret.java:87-110 | any reordering of the shares gives the same secret, or the same exception |
| Permutation.SecretSwap | ShamirSecret.java:87-110 | exchanging two shares gives the same secret |
| Shares.DecodeRoot | ShamirSecret.java:53-55 | the share of one root: the key parsed in decimal as x, then the value parsed in the root's base as y; the first parse that throws decides the exception |
| Shares.DecodeRoots | ShamirSecret.java:52-59 | the shares of the roots in input order, or the exception of the first root that does not decode |
| Shares.TestCaseSecret | ShamirSecret.java:51-65 | decode every root, take the first k shares, and return the Lagrange secret of those; the first exception of the three steps otherwise |
| Shares.DecodeRootMeaning | ShamirSecret.java:53-54 | a root decodes exactly when its key is a decimal numeral and its value a numeral in its base; the share is the pair of their values; a bad key throws before the value is looked at |
| Shares.DecodeRootsOkIff | ShamirSecret.java:52-59 | decoding all roots succeeds exactly when each root decodes |
| Shares.DecodeRootsOk | ShamirSecret.java:52-59 | successful decoding yields one share per root, in input order, each decoded from its own root |
| Shares.DecodeRootsErr | ShamirSecret.java:52-59 | a failed decoding throws the exception of the first root that does not decode, all earlier roots decoding |
| Shares.DecodePoints | ShamirSecret.java:51-59 | the loop returns the decoded shares, or the exception of the first bad root |
| Shares.DecodeErrorPropagates | ShamirSecret.java:52-59 | once a prefix of the roots fails, decoding the whole list fails in the same way |
| Shares.Select | ShamirSecret.java:62 | `subList(0, k)` gives the first k shares in order when 0 ≤ k ≤ size, throws IllegalArgumentException for a negative k and IndexOutOfBoundsException past the end |
| Shares.ProcessTestCase | ShamirSecret.java:51-65 | the method returns the Lagrange secret of the first k decoded shares, or the first exception met by decoding, selecting or interpolating |
| Shares.FirstKDecide | ShamirSecret.java:51-65 | when every root decodes and k is in range, the secret is that of the shares of the first k roots alone |
| Shares.BadRootFails | ShamirSecret.java:52-62 | a root that does not decode, at any position, makes the test case throw a NumberFormatException |
| Shares.TooFewRoots | ShamirSecret.java:62 | when every root decodes, fewer roots than k make the test case throw IndexOutOfBoundsException |
| Shares.SharesOfAppend | ShamirSecret.java:52-59 | the shares of concatenated roots are the concatenated shares |
| Shares.SharesOfPerm | ShamirSecret.java:52-59 | reordering decodable roots reorders their shares |
| Shares.SharesOfDecode | ShamirSecret.java:52-59 | roots that all decode give their shares one for one |
| Shares.ReorderedShares | ShamirSecret.java:51-65 | two test cases whose roots all decode, and whose first k roots are the same roots in another order, give the same secret |
| Shares.ExampleRoot | ShamirSecret.java:53-54 | key "2" with value "1a" in base 16 is the share (2, 26) |
| MatrixMethod.Vandermonde | ShamirSecret.java:225-236 | the augmented matrix has k rows of k + 1 entries |
| MatrixMethod.VandermondeEntries | ShamirSecret.java:231-235 | entry (i, j) is x_i^(k-1-j), the last column holds y_i, and column k - 1 is all ones, x = 0 included |
| MatrixMethod.BuildMatrix | ShamirSecret.java:225-236 | the filling loops produce exactly that matrix, in a fresh array |
| MatrixMethod.Pivot | ShamirSecret.java:246-251 | the chosen row lies in [i, n), has the largest magnitude in column i, and is the earliest such row |
| MatrixMethod.FindPivot | ShamirSecret.java:246-251 | the search loop returns that row |
| MatrixMethod.Swap | ShamirSecret.java:254-256 | the matrix with rows a and b exchanged |
| MatrixMethod.SwapPermutes | ShamirSecret.java:254-256 | the swap exchanges the two rows, leaves every other row in place and only permutes the rows |
| MatrixMethod.PartialElim | ShamirSecret.java:259-264 | reducing rows below the pivot keeps the matrix shape |
| MatrixMethod.ReduceRow | ShamirSecret.java:261-263 | the j loop replaces row k, from column i on, by row k minus factor times the pivot row, and changes nothing else |
| MatrixMethod.EliminateBelow | ShamirSecret.java:259-264 | the k loop reduces every row below the pivot by its own truncated factor, and fails exactly when there is such a row and the pivot is zero; it then fails at its first division, before it writes, so the matrix is unchanged |
| MatrixMethod.ForwardStep | ShamirSecret.java:244-265 | pass i: swap the pivot row into row i, then throw ArithmeticException if rows remain below and the pivot is zero, else reduce every row below by its truncated factor |
| MatrixMethod.Forward | ShamirSecret.java:244-265 | passes i to n - 1 in order, stopping at the first exception |
| MatrixMethod.ForwardStepFails | ShamirSecret.java:244-265 | pass i throws exactly when rows remain below it and column i is zero from row i down |
| MatrixMethod.ForwardStepEffect | ShamirSecret.java:244-265 | pass i leaves the rows above i alone, brings in the pivot row as row i, and keeps the columns before i of the rows below; each row below gets, in column i, the truncated remainder by the pivot, smaller than the pivot in magnitude |
| MatrixMethod.ForwardFacts | ShamirSecret.java:244-265 | after forward elimination every diagonal entry but the last is a non-zero pivot, and rows already passed stay unchanged |
| MatrixMethod.ForwardFails | ShamirSecret.java:260 | a failing forward elimination throws ArithmeticException |
| MatrixMethod.BackSolve | ShamirSecret.java:268-275 | solution[i..n - 1] from the bottom row up, each entry the right-hand side less the dot product with the later entries, divided by the diagonal entry and truncated; ArithmeticException at the first zero diagonal entry met |
| MatrixMethod.BackResult | ShamirSecret.java:268-278 | solution[n - 1] of back substitution, IndexOutOfBounds when n = 0 |
| MatrixMethod.BackSubstitution | ShamirSecret.java:268-278 | the backward loop computes solution[i] = (m[i][n] - Σ_{j>i} m[i][j] · solution[j]) / m[i][i] truncated, from the bottom row up, and returns solution[n - 1] |
| MatrixMethod.BackErrorPropagates | ShamirSecret.java:269-275 | a zero diagonal met in the backward loop ends the whole back substitution with that exception |
| MatrixMethod.BackSolveOkIff | ShamirSecret.java:274 | back substitution succeeds exactly when no diagonal entry is zero, and otherwise throws ArithmeticException |
| MatrixMethod.BackSolveLast | ShamirSecret.java:268-278 | the returned entry is the last right-hand side divided by the last diagonal entry, truncated; no other row affects it |
| MatrixMethod.BackSolveSuffix | ShamirSecret.java:269-275 | the entries computed from row i on include those computed from any later row on |
| MatrixMethod.BackSolveResidual | ShamirSecret.java:270-274 | each computed entry satisfies its row's equation up to the truncation remainder, which is smaller than the diagonal entry; with exact divisions the triangular system is solved exactly |
| MatrixMethod.Gauss | ShamirSecret.java:242-279 | forward elimination, then back substitution on its result; the first exception otherwise |
| MatrixMethod.GaussianElimination | ShamirSecret.java:242-279 | the in-place routine returns what forward elimination followed by back substitution gives for the original matrix; when forward elimination succeeds, the array holds the forward-eliminated matrix afterwards |
| MatrixMethod.GaussMeaning | ShamirSecret.java:242-279 | the result is the last right-hand side divided by the last pivot after forward elimination; ArithmeticException for a zero pivot; IndexOutOfBounds for no rows |
| MatrixMethod.MatrixSecret | ShamirSecret.java:221-240 | the Gaussian-elimination result for the Vandermonde matrix of the shares |
| MatrixMethod.FindSecretMatrix | ShamirSecret.java:221-240 | the method returns the Gaussian-elimination result for the Vandermonde matrix of the shares |
| MatrixMethod.NoShares | ShamirSecret.java:278 | no shares make `solution[n - 1]` an index out of bounds |
| MatrixMethod.OneShare | ShamirSecret.java:221-279 | a single share (x, y) gives y for every x |
| MatrixMethod.ExampleLine | ShamirSecret.java:221-279 | (1, 9), (2, 12) give 9 by the matrix method and 6 by Lagrange interpolation |
| MatrixMethod.DuplicateX | ShamirSecret.java:221-279 | two shares with the same x throw ArithmeticException, in forward elimination when x = 0 and in back substitution otherwise |
| JsonSplit.Depth | ShamirSecret.java:186-191 | the brace count after the first i characters: one up for each '{', one down for each '}', possibly negative |
| JsonSplit.Join | ShamirSecret.java:192-200 | the parts with a comma between each two, the inverse of cutting at the top-level commas up to a final top-level comma |
| JsonSplit.JoinSnoc | ShamirSecret.java:193-199 | joining parts plus one more is the comma-terminated parts followed by the last |
| JsonSplit.TerminatedJoin | ShamirSecret.java:193-194 | the comma-terminated parts are the joined parts plus a comma |
| JsonSplit.DepthShift | ShamirSecret.java:186-191 | the brace count inside a slice is the count in the whole string less the count at the slice's start |
| JsonSplit.Segment | ShamirSecret.java:192-193 | a stretch that starts at depth 0 and crosses no top-level comma holds none of its own, and ends at the depth reached in the whole string |
| JsonSplit.ScanCut | ShamirSecret.java:192-194 | a comma at brace depth 0 closes a part with balanced braces and no top-level comma, and the next part starts at depth 0 |
| JsonSplit.ScanEnd | ShamirSecret.java:198-200 | the text after the last cut, if any, is the last part |
| JsonSplit.SplitJSON | ShamirSecret.java:181-203 | no part holds a comma at brace depth 0, counted from its own start; every part that ended at a comma has balanced braces; joining the parts with "," gives the input back, except for a final top-level comma, after which no empty part is added; the input is empty exactly when no part is returned |

## Left out

- `main` and `readFile` (ShamirSecret.java:22-38, 70-79): file I/O, the console, and the reporting of exceptions per test case.
- Every `System.out`/`System.err` line. The warning of line 104 is kept only as the returned list of indices of inexact divisions.
- `parseJSON` (ShamirSecret.java:122-179): it rests on regular-expression `replaceAll`, `String.split` and `Integer.parseInt`, library code whose behaviour is not visible here. `Shares` starts from the parsed `TestCase`.
- `Point.toString`, and the `TestCase` and `Root` classes beyond their fields. A root whose value is missing (a Java `null`, which would make line 54 throw NullPointerException) cannot be expressed; a missing base is the default 0, which the model treats as an out-of-range radix, as Java does.
- Radix.ParseBigInteger: `Character.digit` also accepts the non-ASCII Unicode digits and letters. The model accepts only `0-9`, `a-z` and `A-Z`.
- Radix.ParseBigInteger: the message text of NumberFormatException is not modelled, only which check fails.
- Lagrange.LinearExact: the general theorem that the Lagrange sum is f(0) for every integer polynomial needs rational arithmetic. It is proved only for two shares on a line with exact divisions.
- MatrixMethod.GaussianElimination: after the ArithmeticException of forward pass i (line 260), the Java matrix holds passes 0..i-1 and pass i's row swap. Nothing can observe it, and the model states nothing about it. Whenever forward elimination completes, whether back substitution then returns or throws, the array holds the forward-eliminated matrix, as stated.
- MatrixMethod.BuildMatrix: each row is built as a value, then stored. Java fills a freshly allocated row array entry by entry. The rows of the Java matrix never alias one another, so nothing observable differs.
- The claim that the matrix method cross-checks the Lagrange result is not made: the program never calls it, and the two disagree (`MatrixMethod.ExampleLine`).
- The 32-bit `int` range of `k`, `n`, `base` and the loop counters is not modelled.
- `BigInteger` holds values only up to about 2^Integer.MAX_VALUE in magnitude and throws ArithmeticException beyond that, in the constructor (line 54), in `multiply` and in `pow` (line 233). That range and its exception are not modelled: every value is a Dafny `int`, which has no bound.

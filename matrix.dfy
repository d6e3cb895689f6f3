/** MatrixMethod.findSecretMatrix: the shares are written as a k x (k + 1) augmented
    Vandermonde system, solved in place by Gaussian elimination with partial pivoting
    and back substitution, in BigInteger arithmetic, so every elimination factor and
    every back-substitution quotient is truncated toward zero. The matrix is an array of
    rows; a row swap exchanges two entries of the array, as the Java code exchanges two
    row references. */
module MatrixMethod {
  import opened JavaMath
  import opened Lagrange

  type Matrix = seq<seq<int>>

  /** n rows of n + 1 entries: the coefficients and the right-hand side. */
  predicate Shaped(M: Matrix, n: nat)
  {
    |M| == n && forall r :: 0 <= r < n ==> |M[r]| == n + 1
  }

  // ----- the augmented Vandermonde matrix -----

  /** Row i is x_i^(k-1), ..., x_i^1, x_i^0 followed by y_i. */
  function Vandermonde(pts: seq<Point>): (M: Matrix)
    ensures Shaped(M, |pts|)
  {
    var k := |pts|;
    seq(k, i requires 0 <= i < k =>
      seq(k + 1, j requires 0 <= j <= k => if j < k then Pow(pts[i].x, k - 1 - j) else pts[i].y))
  }

  /** The entries of the matrix, and its column k - 1, which is x^0 = 1 for every share,
      x = 0 included. */
  lemma VandermondeEntries(pts: seq<Point>)
    ensures var M, k := Vandermonde(pts), |pts|;
      (forall i, j :: 0 <= i < k && 0 <= j < k ==> M[i][j] == Pow(pts[i].x, k - 1 - j))
      && (forall i :: 0 <= i < k ==> M[i][k] == pts[i].y && M[i][k - 1] == 1)
  {
  }

  /** The loops filling the matrix (lines 227-236). */
  method BuildMatrix(points: seq<Point>) returns (m: array<seq<int>>)
    ensures fresh(m) && m[..] == Vandermonde(points)
  {
    var k := |points|;
    m := new seq<int>[k];
    var i := 0;
    while i < k
      invariant 0 <= i <= k
      invariant forall r :: 0 <= r < i ==> m[r] == Vandermonde(points)[r]
    {
      var x, y := points[i].x, points[i].y;
      var row: seq<int> := [];
      var j := 0;
      while j < k
        invariant 0 <= j <= k && |row| == j
        invariant forall c :: 0 <= c < j ==> row[c] == Pow(x, k - 1 - c)
      {
        row := row + [Pow(x, k - 1 - j)];
        j := j + 1;
      }
      row := row + [y];
      m[i] := row;
      i := i + 1;
    }
  }

  // ----- forward elimination: the pivot -----

  /** The row the pivot search settles on among rows i .. hi - 1 of column i: the first
      row whose entry is largest in magnitude. */
  function Pivot(M: Matrix, n: nat, i: nat, hi: nat): (p: nat)
    requires Shaped(M, n) && i < hi <= n
    ensures i <= p < hi
    ensures forall r :: i <= r < hi ==> Abs(M[r][i]) <= Abs(M[p][i])
    ensures forall r :: i <= r < p ==> Abs(M[r][i]) < Abs(M[p][i])
    decreases hi
  {
    if hi == i + 1 then i
    else
      var q := Pivot(M, n, i, hi - 1);
      if Abs(M[hi - 1][i]) > Abs(M[q][i]) then hi - 1 else q
  }

  /** The search for maxRow (lines 246-251). */
  method FindPivot(m: array<seq<int>>, n: nat, i: nat) returns (maxRow: nat)
    requires m.Length == n && Shaped(m[..], n) && i < n
    ensures maxRow == Pivot(m[..], n, i, n)
  {
    maxRow := i;
    var k := i + 1;
    while k < n
      invariant i < k <= n
      invariant maxRow == Pivot(m[..], n, i, k)
    {
      if Abs(m[k][i]) > Abs(m[maxRow][i]) {
        maxRow := k;
      }
      k := k + 1;
    }
  }

  /** The matrix with rows a and b exchanged. */
  function Swap(M: Matrix, a: nat, b: nat): Matrix
    requires a < |M| && b < |M|
  {
    M[a := M[b]][b := M[a]]
  }

  /** Exchanging two rows only permutes the rows; every other row stays where it is. */
  lemma SwapPermutes(M: Matrix, a: nat, b: nat)
    requires a < |M| && b < |M|
    ensures multiset(Swap(M, a, b)) == multiset(M)
    ensures |Swap(M, a, b)| == |M| && Swap(M, a, b)[a] == M[b] && Swap(M, a, b)[b] == M[a]
    ensures forall r :: 0 <= r < |M| && r != a && r != b ==> Swap(M, a, b)[r] == M[r]
  {
  }

  // ----- forward elimination: clearing one column -----

  /** row - factor * pivot from column i on; the columns before i are left alone. */
  function Reduce(row: seq<int>, pivot: seq<int>, i: nat, factor: int): seq<int>
    requires |row| == |pivot|
  {
    seq(|row|, c requires 0 <= c < |row| => if c < i then row[c] else row[c] - factor * pivot[c])
  }

  /** Rows i + 1 .. k - 1 reduced against row i, each by its own truncated factor. */
  function PartialElim(S: Matrix, n: nat, i: nat, k: nat): (E: Matrix)
    requires Shaped(S, n) && i < n && (k <= i + 1 || S[i][i] != 0)
    ensures Shaped(E, n)
  {
    seq(n, r requires 0 <= r < n =>
      if i < r < k then Reduce(S[r], S[i], i, JavaDiv(S[r][i], S[i][i])) else S[r])
  }

  /** The j loop (lines 261-263): one row reduced against the pivot row. */
  method ReduceRow(m: array<seq<int>>, n: nat, i: nat, k: nat, factor: int)
    requires m.Length == n && Shaped(m[..], n) && i < k < n
    modifies m
    ensures m[..] == old(m[..])[k := Reduce(old(m[k]), old(m[i]), i, factor)]
  {
    ghost var row, pivot := m[k], m[i];
    var j := i;
    while j <= n
      invariant i <= j <= n + 1 && |m[k]| == n + 1
      invariant forall r :: 0 <= r < n && r != k ==> m[r] == old(m[r])
      invariant forall c :: 0 <= c <= n ==>
        m[k][c] == if i <= c < j then row[c] - factor * pivot[c] else row[c]
    {
      m[k] := m[k][j := m[k][j] - factor * m[i][j]];
      j := j + 1;
    }
    assert m[k] == Reduce(row, pivot, i, factor);
    assert m[..] == old(m[..])[k := Reduce(row, pivot, i, factor)];
  }

  /** The k loop (lines 259-264); false when it would divide by a zero pivot. */
  method EliminateBelow(m: array<seq<int>>, n: nat, i: nat) returns (ok: bool)
    requires m.Length == n && Shaped(m[..], n) && i < n
    modifies m
    ensures ok <==> !(i + 1 < n && old(m[i][i]) == 0)
    ensures ok ==> m[..] == PartialElim(old(m[..]), n, i, n)
    ensures !ok ==> m[..] == old(m[..])
  {
    ghost var S := m[..];
    if i + 1 < n && m[i][i] == 0 {
      return false;
    }
    var k := i + 1;
    assert m[..] == PartialElim(S, n, i, k);
    while k < n
      invariant i + 1 <= k <= n
      invariant m[..] == PartialElim(S, n, i, k)
    {
      var factor := JavaDiv(m[k][i], m[i][i]);
      ReduceRow(m, n, i, k, factor);
      assert m[..] == PartialElim(S, n, i, k + 1);
      k := k + 1;
    }
    return true;
  }

  /** One pass of the outer loop: pick the pivot, swap it into row i, clear below it. */
  function ForwardStep(M: Matrix, n: nat, i: nat): (r: Result<Matrix>)
    requires Shaped(M, n) && i < n
    ensures r.Ok? ==> Shaped(r.value, n)
  {
    var S := Swap(M, i, Pivot(M, n, i, n));
    if i + 1 < n && S[i][i] == 0 then Err(DivideByZero) else Ok(PartialElim(S, n, i, n))
  }

  /** The passes i .. n - 1 of forward elimination. */
  function Forward(M: Matrix, n: nat, i: nat): (r: Result<Matrix>)
    requires Shaped(M, n) && i <= n
    ensures r.Ok? ==> Shaped(r.value, n)
    decreases n - i
  {
    if i == n then Ok(M)
    else
      match ForwardStep(M, n, i)
      case Err(f) => Err(f)
      case Ok(M') => Forward(M', n, i + 1)
  }

  /** Pass i throws exactly when it has rows to clear and column i is zero from row i down. */
  lemma ForwardStepFails(M: Matrix, n: nat, i: nat)
    requires Shaped(M, n) && i < n
    ensures ForwardStep(M, n, i).Err? <==> i + 1 < n && forall r :: i <= r < n ==> M[r][i] == 0
    ensures ForwardStep(M, n, i).Err? ==> ForwardStep(M, n, i).fault == DivideByZero
  {
    var p := Pivot(M, n, i, n);
    SwapPermutes(M, i, p);
  }

  /** What pass i does: rows above i are untouched, row i becomes the pivot row, and each
      row below keeps its columns before i while its entry in column i becomes the
      truncated remainder by the pivot, smaller than the pivot in magnitude. */
  lemma ForwardStepEffect(M: Matrix, n: nat, i: nat)
    requires Shaped(M, n) && i < n && ForwardStep(M, n, i).Ok?
    ensures var F, p := ForwardStep(M, n, i).value, Pivot(M, n, i, n);
      var S := Swap(M, i, p);
      && (forall r :: 0 <= r < i ==> F[r] == M[r])
      && F[i] == M[p]
      && (forall r, c :: i < r < n && 0 <= c < i ==> F[r][c] == S[r][c])
      && (forall r :: i < r < n ==>
            F[r][i] == JavaRem(S[r][i], M[p][i]) && Abs(F[r][i]) < Abs(M[p][i]))
  {
    var p := Pivot(M, n, i, n);
    var S := Swap(M, i, p);
    SwapPermutes(M, i, p);
    forall r | i < r < n
      ensures ForwardStep(M, n, i).value[r][i] == JavaRem(S[r][i], M[p][i])
      ensures Abs(ForwardStep(M, n, i).value[r][i]) < Abs(M[p][i])
    {
      DivRem(S[r][i], S[i][i]);
    }
  }

  /** After the passes i .. n - 1 the rows above i are unchanged and every diagonal entry
      from i up to the second-to-last row is a non-zero pivot. */
  lemma {:induction false} ForwardFacts(M: Matrix, n: nat, i: nat)
    requires Shaped(M, n) && i <= n && Forward(M, n, i).Ok?
    ensures var F := Forward(M, n, i).value;
      (forall r :: 0 <= r < i ==> F[r] == M[r])
      && forall t :: i <= t < n - 1 ==> F[t][t] != 0
    decreases n - i
  {
    if i < n {
      var M' := ForwardStep(M, n, i).value;
      ForwardFacts(M', n, i + 1);
      ForwardStepEffect(M, n, i);
    }
  }

  // ----- back substitution -----

  /** row[off] * xs[0] + ... + row[off + cnt - 1] * xs[cnt - 1]. */
  function Dot(row: seq<int>, xs: seq<int>, off: nat, cnt: nat): int
    requires off + cnt <= |row| && cnt <= |xs|
  {
    if cnt == 0 then 0 else Dot(row, xs, off, cnt - 1) + row[off + cnt - 1] * xs[cnt - 1]
  }

  /** solution[i .. n - 1] as the backward loop computes it, or the exception of the first
      zero diagonal entry it divides by (from the bottom row up). */
  function BackSolve(M: Matrix, n: nat, i: nat): (r: Result<seq<int>>)
    requires Shaped(M, n) && i <= n
    ensures r.Ok? ==> |r.value| == n - i
    decreases n - i
  {
    if i == n then Ok([])
    else
      match BackSolve(M, n, i + 1)
      case Err(f) => Err(f)
      case Ok(rest) =>
        if M[i][i] == 0 then Err(DivideByZero)
        else Ok([JavaDiv(M[i][n] - Dot(M[i], rest, i + 1, n - i - 1), M[i][i])] + rest)
  }

  /** What back substitution returns: solution[n - 1], which does not exist when n == 0. */
  function BackResult(M: Matrix, n: nat): Result<int>
    requires Shaped(M, n)
  {
    match BackSolve(M, n, 0)
    case Err(f) => Err(f)
    case Ok(xs) => if n == 0 then Err(IndexOutOfBounds) else Ok(xs[n - 1])
  }

  lemma {:induction false} BackErrorPropagates(M: Matrix, n: nat, i: nat)
    requires Shaped(M, n) && i <= n && BackSolve(M, n, i).Err?
    ensures BackSolve(M, n, 0) == BackSolve(M, n, i)
    decreases i
  {
    if i > 0 {
      BackErrorPropagates(M, n, i - 1);
    }
  }

  /** Row i of the backward loop, once the sum over the later entries is known: the
      division by the diagonal entry either throws, and then so does the whole loop, or
      prepends the new entry. */
  lemma BackStep(M: Matrix, n: nat, i: nat, rest: seq<int>, s: int)
    requires Shaped(M, n) && i < n && BackSolve(M, n, i + 1) == Ok(rest)
    requires s == M[i][n] - Dot(M[i], rest, i + 1, n - i - 1)
    ensures M[i][i] == 0 ==> BackSolve(M, n, 0) == Err(DivideByZero)
    ensures M[i][i] != 0 ==> BackSolve(M, n, i) == Ok([JavaDiv(s, M[i][i])] + rest)
  {
    if M[i][i] == 0 {
      BackErrorPropagates(M, n, i);
    }
  }

  /** The backward loop (lines 268-275) and the returned entry (line 278). */
  method BackSubstitution(m: array<seq<int>>, n: nat) returns (r: Result<int>)
    requires m.Length == n && Shaped(m[..], n)
    ensures r == BackResult(m[..], n)
  {
    ghost var M := m[..];
    var solution := new int[n];
    var i := n;
    while i > 0
      invariant 0 <= i <= n
      invariant BackSolve(M, n, i).Ok? && solution[i..] == BackSolve(M, n, i).value
    {
      i := i - 1;
      ghost var rest := solution[i + 1..];
      var s := m[i][n];
      var j := i + 1;
      while j < n
        invariant i + 1 <= j <= n
        invariant solution[i + 1..] == rest
        invariant s == M[i][n] - Dot(M[i], rest, i + 1, j - i - 1)
      {
        assert solution[j] == rest[j - i - 1] && m[i] == M[i];
        s := s - m[i][j] * solution[j];
        j := j + 1;
      }
      BackStep(M, n, i, rest, s);
      if m[i][i] == 0 {
        return Err(DivideByZero);
      }
      solution[i] := JavaDiv(s, m[i][i]);
      assert solution[i..] == [solution[i]] + rest;
    }
    if n == 0 {
      return Err(IndexOutOfBounds);
    }
    return Ok(solution[n - 1]);
  }

  /** Back substitution succeeds exactly when no diagonal entry from row i down is zero. */
  lemma {:induction false} BackSolveOkIff(M: Matrix, n: nat, i: nat)
    requires Shaped(M, n) && i <= n
    ensures BackSolve(M, n, i).Ok? <==> forall t :: i <= t < n ==> M[t][t] != 0
    ensures BackSolve(M, n, i).Err? ==> BackSolve(M, n, i).fault == DivideByZero
    decreases n - i
  {
    if i < n {
      BackSolveOkIff(M, n, i + 1);
    }
  }

  /** The last solution entry depends on the last row alone. */
  lemma {:induction false} BackSolveLast(M: Matrix, n: nat, i: nat)
    requires Shaped(M, n) && i < n && BackSolve(M, n, i).Ok?
    ensures M[n - 1][n - 1] != 0
    ensures BackSolve(M, n, i).value[n - 1 - i] == JavaDiv(M[n - 1][n], M[n - 1][n - 1])
    decreases n - i
  {
    if i < n - 1 {
      BackSolveLast(M, n, i + 1);
    }
  }

  lemma {:induction false} DotCons(row: seq<int>, a: int, rest: seq<int>, off: nat, cnt: nat)
    requires off + cnt + 1 <= |row| && cnt <= |rest|
    ensures Dot(row, [a] + rest, off, cnt + 1) == row[off] * a + Dot(row, rest, off + 1, cnt)
    decreases cnt
  {
    if cnt > 0 {
      DotCons(row, a, rest, off, cnt - 1);
      assert ([a] + rest)[cnt] == rest[cnt - 1];
    }
  }

  /** The solution from row i on is also the solution the loop computes from any later
      row t on. */
  lemma {:induction false} BackSolveSuffix(M: Matrix, n: nat, i: nat, t: nat)
    requires Shaped(M, n) && i <= t <= n && BackSolve(M, n, i).Ok?
    ensures BackSolve(M, n, t).Ok? && BackSolve(M, n, i).value[t - i..] == BackSolve(M, n, t).value
    decreases t - i
  {
    if i < t {
      BackSolveSuffix(M, n, i + 1, t);
      var xs := BackSolve(M, n, i).value;
      assert xs[1..] == BackSolve(M, n, i + 1).value;
      assert xs[t - i..] == xs[1..][t - i - 1..];
    }
  }

  /** The entry computed for row i satisfies that row's equation up to the truncation
      remainder of its division, which is smaller than the pivot in magnitude: when every
      division is exact the triangular system is solved exactly. */
  lemma BackSolveResidual(M: Matrix, n: nat, i: nat)
    requires Shaped(M, n) && i < n && BackSolve(M, n, i).Ok?
    ensures M[i][i] != 0
    ensures var xs := BackSolve(M, n, i).value;
      var rem := JavaRem(M[i][n] - Dot(M[i], xs[1..], i + 1, n - i - 1), M[i][i]);
      Dot(M[i], xs, i, n - i) + rem == M[i][n] && Abs(rem) < Abs(M[i][i])
  {
    var xs := BackSolve(M, n, i).value;
    var rest := BackSolve(M, n, i + 1).value;
    var s := M[i][n] - Dot(M[i], rest, i + 1, n - i - 1);
    assert xs == [JavaDiv(s, M[i][i])] + rest;
    assert xs[1..] == rest;
    DotCons(M[i], JavaDiv(s, M[i][i]), rest, i, n - i - 1);
    DivRem(s, M[i][i]);
  }

  // ----- the whole routine -----

  /** gaussianElimination(matrix, n): forward elimination, then back substitution. */
  function Gauss(M: Matrix, n: nat): Result<int>
    requires Shaped(M, n)
  {
    match Forward(M, n, 0)
    case Err(f) => Err(f)
    case Ok(F) => BackResult(F, n)
  }

  /** Pass i of forward elimination, taken apart as the method performs it: the swap
      with the pivot row, then either the exception or the rows below cleared. */
  lemma ForwardAdvance(M: Matrix, n: nat, i: nat, S: Matrix)
    requires Shaped(M, n) && i < n && S == Swap(M, i, Pivot(M, n, i, n))
    ensures Shaped(S, n)
    ensures i + 1 < n && S[i][i] == 0 ==> Forward(M, n, i) == Err(DivideByZero)
    ensures !(i + 1 < n && S[i][i] == 0) ==> Forward(M, n, i) == Forward(PartialElim(S, n, i, n), n, i + 1)
  {
    SwapPermutes(M, i, Pivot(M, n, i, n));
  }

  /** gaussianElimination (lines 242-279), in place on the matrix. */
  method GaussianElimination(m: array<seq<int>>, n: nat) returns (r: Result<int>)
    requires m.Length == n && Shaped(m[..], n)
    modifies m
    ensures r == Gauss(old(m[..]), n)
    ensures Forward(old(m[..]), n, 0).Ok? ==> m[..] == Forward(old(m[..]), n, 0).value
  {
    ghost var M0 := m[..];
    var i := 0;
    while i < n
      invariant 0 <= i <= n && Shaped(m[..], n)
      invariant Forward(M0, n, 0) == Forward(m[..], n, i)
    {
      ghost var M := m[..];
      var maxRow := FindPivot(m, n, i);
      var temp := m[maxRow];
      m[maxRow] := m[i];
      m[i] := temp;
      SwapPermutes(M, i, maxRow);
      assert forall r :: 0 <= r < n ==> m[r] == Swap(M, i, maxRow)[r];
      assert m[..] == Swap(M, i, maxRow);
      ForwardAdvance(M, n, i, m[..]);
      var ok := EliminateBelow(m, n, i);
      if !ok {
        return Err(DivideByZero);
      }
      i := i + 1;
    }
    r := BackSubstitution(m, n);
  }

  /** The secret by the matrix method. */
  function MatrixSecret(pts: seq<Point>): Result<int>
  {
    Gauss(Vandermonde(pts), |pts|)
  }

  /** findSecretMatrix (lines 221-240). */
  method FindSecretMatrix(points: seq<Point>) returns (r: Result<int>)
    ensures r == MatrixSecret(points)
  {
    var matrix := BuildMatrix(points);
    r := GaussianElimination(matrix, |points|);
  }

  /** The value returned is the last right-hand side divided by the last pivot after
      forward elimination, or the exception: no row at all, or a zero last pivot. */
  lemma GaussMeaning(M: Matrix, n: nat)
    requires Shaped(M, n)
    ensures Forward(M, n, 0).Ok? ==>
      var F := Forward(M, n, 0).value;
      Gauss(M, n) == if n == 0 then Err(IndexOutOfBounds)
                     else if F[n - 1][n - 1] == 0 then Err(DivideByZero)
                     else Ok(JavaDiv(F[n - 1][n], F[n - 1][n - 1]))
    ensures Forward(M, n, 0).Err? ==> Gauss(M, n) == Err(DivideByZero)
  {
    if Forward(M, n, 0).Ok? {
      var F := Forward(M, n, 0).value;
      ForwardFacts(M, n, 0);
      BackSolveOkIff(F, n, 0);
      if n > 0 && F[n - 1][n - 1] != 0 {
        BackSolveLast(F, n, 0);
      }
    } else {
      ForwardFails(M, n, 0);
    }
  }

  lemma {:induction false} ForwardFails(M: Matrix, n: nat, i: nat)
    requires Shaped(M, n) && i <= n && Forward(M, n, i).Err?
    ensures Forward(M, n, i).fault == DivideByZero
    decreases n - i
  {
    ForwardStepFails(M, n, i);
    if ForwardStep(M, n, i).Ok? {
      ForwardFails(ForwardStep(M, n, i).value, n, i + 1);
    }
  }

  // ----- examples -----

  /** No shares: the loops do nothing and solution[-1] is out of bounds. */
  lemma NoShares()
    ensures MatrixSecret([]) == Err(IndexOutOfBounds)
  {
  }

  /** One share (x, y): the system is 1 * c = y, whatever x is. */
  lemma OneShare(p: Point)
    ensures MatrixSecret([p]) == Ok(p.y)
  {
    var M := Vandermonde([p]);
    assert M[0][0] == Pow(p.x, 0) == 1;
    assert M[0] == [1, p.y];
    assert M == [[1, p.y]];
    assert Swap(M, 0, 0) == M;
    assert PartialElim(M, 1, 0, 1) == M;
    assert ForwardStep(M, 1, 0) == Ok(M);
    assert Forward(M, 1, 0) == Ok(M);
    DivByOne(p.y);
    assert BackSolve(M, 1, 1) == Ok([]);
    assert Dot(M[0], [], 1, 0) == 0;
    assert [JavaDiv(p.y - 0, 1)] + [] == [p.y];
    assert BackSolve(M, 1, 0) == Ok([p.y]);
  }

  /** (1, 9), (2, 12): the truncated factor 1 / 2 = 0 leaves the second row as it is, so
      the routine returns 9 where the line through the points meets x = 0 at 6. */
  lemma ExampleLine()
    ensures MatrixSecret([Point(1, 9), Point(2, 12)]) == Ok(9)
    ensures Secret([Point(1, 9), Point(2, 12)]) == Ok(6)
  {
    var pts := [Point(1, 9), Point(2, 12)];
    var M := Vandermonde(pts);
    assert M[0][0] == Pow(1, 1) == 1 && M[1][0] == Pow(2, 1) == 2;
    assert M[0][1] == Pow(1, 0) == 1 && M[1][1] == Pow(2, 0) == 1;
    assert M[0] == [1, 1, 9] && M[1] == [2, 1, 12];
    assert M == [[1, 1, 9], [2, 1, 12]];
    assert Pivot(M, 2, 0, 2) == 1;
    var S := Swap(M, 0, 1);
    assert S == [[2, 1, 12], [1, 1, 9]];
    assert Reduce(S[1], S[0], 0, 0) == S[1];
    assert PartialElim(S, 2, 0, 2) == S;
    assert ForwardStep(M, 2, 0) == Ok(S);
    assert Pivot(S, 2, 1, 2) == 1;
    assert Swap(S, 1, 1) == S;
    assert PartialElim(S, 2, 1, 2) == S;
    assert Forward(S, 2, 1) == Ok(S);
    GaussMeaning(M, 2);
    Lagrange.ExampleLine();
  }

  /** Two shares with the same x: the elimination leaves a zero last pivot, or finds no
      pivot at all when x = 0, and a division by zero is thrown either way. */
  lemma DuplicateX(a: int, y1: int, y2: int)
    ensures MatrixSecret([Point(a, y1), Point(a, y2)]) == Err(DivideByZero)
    ensures Forward(Vandermonde([Point(a, y1), Point(a, y2)]), 2, 0).Err? <==> a == 0
  {
    var M := Vandermonde([Point(a, y1), Point(a, y2)]);
    assert M[0][0] == Pow(a, 1) == a && M[1][0] == Pow(a, 1) == a;
    assert M[0][1] == Pow(a, 0) == 1 && M[1][1] == Pow(a, 0) == 1;
    assert M[0] == [a, 1, y1] && M[1] == [a, 1, y2];
    assert M == [[a, 1, y1], [a, 1, y2]];
    assert Pivot(M, 2, 0, 2) == 0;
    assert Swap(M, 0, 0) == M;
    if a == 0 {
      ForwardStepFails(M, 2, 0);
    } else {
      var E := PartialElim(M, 2, 0, 2);
      assert JavaDiv(a, a) == 1;
      assert E[1] == [0, 0, y2 - y1];
      ForwardFacts(M, 2, 0);
      assert Forward(M, 2, 0) == Forward(E, 2, 1);
      assert Pivot(E, 2, 1, 2) == 1;
      assert Swap(E, 1, 1) == E;
      assert PartialElim(E, 2, 1, 2) == E;
      assert Forward(E, 2, 1) == Ok(E);
      GaussMeaning(M, 2);
    }
  }
}

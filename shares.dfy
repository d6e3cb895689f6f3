/** The reconstruction pipeline of ShamirSecret.processTestCase once the JSON has been
    parsed: every root is decoded into a share (x from the decimal key, y from the value
    in the root's base), the first k shares are selected, and the secret is
    reconstructed from them by Lagrange interpolation. */
module Shares {
  import opened JavaMath
  import opened Radix
  import opened Lagrange
  import Permutation

  /** One root of the input file: its key, the base its value is written in, and the value. */
  datatype Root = Root(key: string, base: int, value: string)

  /** The parsed input: n (the number of roots it announces), k (how many are needed)
      and the roots in file order. */
  datatype TestCase = TestCase(n: int, k: int, roots: seq<Root>)

  // ----- decoding -----

  /** The share a root stands for: the key is parsed first, then the value. */
  function DecodeRoot(root: Root): Result<Point>
  {
    match ParseDecimal(root.key)
    case Err(f) => Err(f)
    case Ok(x) =>
      match ParseBigInteger(root.value, root.base)
      case Err(f) => Err(f)
      case Ok(y) => Ok(Point(x, y))
  }

  /** Decoding the roots in order; the first root that fails decides the exception. */
  function DecodeRoots(roots: seq<Root>): Result<seq<Point>>
  {
    if roots == [] then Ok([])
    else
      match DecodeRoots(roots[..|roots| - 1])
      case Err(f) => Err(f)
      case Ok(pts) =>
        match DecodeRoot(roots[|roots| - 1])
        case Err(f) => Err(f)
        case Ok(p) => Ok(pts + [p])
  }

  predicate Decodes(root: Root)
  {
    DecodeRoot(root).Ok?
  }

  predicate AllDecode(roots: seq<Root>)
  {
    forall i :: 0 <= i < |roots| ==> Decodes(roots[i])
  }

  /** A root decodes exactly when its key is a decimal numeral and its value a numeral in
      its base, and then the share is (the key's value, the value's positional value). */
  lemma DecodeRootMeaning(root: Root)
    ensures Decodes(root) <==> WellFormed(root.key, 10) && WellFormed(root.value, root.base)
    ensures Decodes(root) ==>
      var u := Positional(Numeral(root.key, 10), 10);
      var v := Positional(Numeral(root.value, root.base), root.base);
      DecodeRoot(root).value == Point(if root.key[0] == '-' then -u else u,
                                      if root.value[0] == '-' then -v else v)
    ensures !WellFormed(root.key, 10) ==> DecodeRoot(root) == Err(ParseDecimal(root.key).fault)
    ensures WellFormed(root.key, 10) && !WellFormed(root.value, root.base) ==>
      DecodeRoot(root) == Err(ParseBigInteger(root.value, root.base).fault)
  {
    ParseOkIff(root.key, 10);
    ParseOkIff(root.value, root.base);
    if WellFormed(root.key, 10) {
      ParseValue(root.key, 10);
    }
    if WellFormed(root.value, root.base) {
      ParseValue(root.value, root.base);
    }
  }

  /** Decoding succeeds exactly when every root decodes. */
  lemma {:induction false} DecodeRootsOkIff(roots: seq<Root>)
    ensures DecodeRoots(roots).Ok? <==> AllDecode(roots)
    decreases |roots|
  {
    if roots != [] {
      var front, last := roots[..|roots| - 1], roots[|roots| - 1];
      DecodeRootsOkIff(front);
      assert forall i :: 0 <= i < |front| ==> front[i] == roots[i];
      assert AllDecode(roots) <==> AllDecode(front) && Decodes(last) by {
        if AllDecode(front) && Decodes(last) {
          forall i | 0 <= i < |roots| ensures Decodes(roots[i]) {
            if i < |front| {
              assert Decodes(front[i]);
            }
          }
        }
      }
    }
  }

  /** Successful decoding keeps the order and decodes each root on its own. */
  lemma {:induction false} DecodeRootsOk(roots: seq<Root>)
    ensures DecodeRoots(roots).Ok? <==> AllDecode(roots)
    ensures DecodeRoots(roots).Ok? ==>
      var pts := DecodeRoots(roots).value;
      |pts| == |roots| && forall i :: 0 <= i < |roots| ==> pts[i] == DecodeRoot(roots[i]).value
    decreases |roots|
  {
    DecodeRootsOkIff(roots);
    if roots != [] && DecodeRoots(roots).Ok? {
      var front := roots[..|roots| - 1];
      DecodeRootsOk(front);
      var pts, fpts := DecodeRoots(roots).value, DecodeRoots(front).value;
      assert pts == fpts + [DecodeRoot(roots[|roots| - 1]).value];
      forall i | 0 <= i < |roots| ensures pts[i] == DecodeRoot(roots[i]).value {
        if i < |front| {
          assert front[i] == roots[i];
        }
      }
    }
  }

  /** When decoding fails, the exception is that of the first root that does not decode. */
  lemma {:induction false} DecodeRootsErr(roots: seq<Root>)
    requires DecodeRoots(roots).Err?
    ensures exists i :: 0 <= i < |roots| && DecodeRoot(roots[i]) == Err(DecodeRoots(roots).fault)
                     && forall j :: 0 <= j < i ==> Decodes(roots[j])
    decreases |roots|
  {
    var front := roots[..|roots| - 1];
    assert forall i :: 0 <= i < |front| ==> front[i] == roots[i];
    if DecodeRoots(front).Err? {
      DecodeRootsErr(front);
      var i :| 0 <= i < |front| && DecodeRoot(front[i]) == Err(DecodeRoots(front).fault)
              && forall j :: 0 <= j < i ==> Decodes(front[j]);
      assert DecodeRoot(roots[i]) == Err(DecodeRoots(roots).fault);
    } else {
      DecodeRootsOk(front);
      assert DecodeRoot(roots[|roots| - 1]) == Err(DecodeRoots(roots).fault);
    }
  }

  /** The loop filling `points` (lines 51-59). */
  method DecodePoints(roots: seq<Root>) returns (r: Result<seq<Point>>)
    ensures r == DecodeRoots(roots)
  {
    var points: seq<Point> := [];
    var i := 0;
    while i < |roots|
      invariant 0 <= i <= |roots|
      invariant DecodeRoots(roots[..i]) == Ok(points)
    {
      assert roots[..i + 1][..i] == roots[..i];
      var x := ParseDecimal(roots[i].key);
      if x.Err? {
        r := Err(x.fault);
        DecodeErrorPropagates(roots, i + 1);
        return;
      }
      var y := ParseBigInteger(roots[i].value, roots[i].base);
      if y.Err? {
        r := Err(y.fault);
        DecodeErrorPropagates(roots, i + 1);
        return;
      }
      points := points + [Point(x.value, y.value)];
      i := i + 1;
    }
    assert roots[..i] == roots;
    r := Ok(points);
  }

  /** Once a prefix of the roots fails, decoding all of them fails the same way. */
  lemma {:induction false} DecodeErrorPropagates(roots: seq<Root>, m: nat)
    requires m <= |roots| && DecodeRoots(roots[..m]).Err?
    ensures DecodeRoots(roots) == DecodeRoots(roots[..m])
    decreases |roots| - m
  {
    if m < |roots| {
      assert roots[..m + 1][..m] == roots[..m];
      DecodeErrorPropagates(roots, m + 1);
    } else {
      assert roots[..m] == roots;
    }
  }

  // ----- selection -----

  /** points.subList(0, k) (line 62): a negative k throws IllegalArgumentException, a k
      past the end IndexOutOfBoundsException; otherwise the first k points. */
  function Select(pts: seq<Point>, k: int): (r: Result<seq<Point>>)
    ensures r.Ok? <==> 0 <= k <= |pts|
    ensures r.Err? ==> r.fault == (if k < 0 then IllegalArgument else IndexOutOfBounds)
    ensures r.Ok? ==> |r.value| == k && forall i :: 0 <= i < k ==> r.value[i] == pts[i]
  {
    if k < 0 then Err(IllegalArgument)
    else if k > |pts| then Err(IndexOutOfBounds)
    else Ok(pts[..k])
  }

  // ----- the whole reconstruction -----

  /** What processTestCase returns or throws for a parsed test case: every root is decoded
      before any is selected, and n takes no part. */
  function TestCaseSecret(tc: TestCase): Result<int>
  {
    match DecodeRoots(tc.roots)
    case Err(f) => Err(f)
    case Ok(pts) =>
      match Select(pts, tc.k)
      case Err(f) => Err(f)
      case Ok(selected) => Secret(selected)
  }

  /** processTestCase from the decoding loop on (lines 51-65). */
  method ProcessTestCase(tc: TestCase) returns (r: Result<int>)
    ensures r == TestCaseSecret(tc)
  {
    var points := DecodePoints(tc.roots);
    if points.Err? {
      return Err(points.fault);
    }
    var selected := Select(points.value, tc.k);
    if selected.Err? {
      return Err(selected.fault);
    }
    var warnings;
    r, warnings := LagrangeInterpolation(selected.value);
  }

  /** With every root decodable and k in range, the secret is the Lagrange secret of the
      shares of the first k roots alone: the later roots are decoded but then ignored. */
  lemma FirstKDecide(tc: TestCase)
    requires AllDecode(tc.roots)
    requires 0 <= tc.k <= |tc.roots|
    ensures DecodeRoots(tc.roots[..tc.k]).Ok?
    ensures TestCaseSecret(tc) == Secret(DecodeRoots(tc.roots[..tc.k]).value)
  {
    var prefix := tc.roots[..tc.k];
    DecodeRootsOk(tc.roots);
    DecodeRootsOk(prefix);
    assert DecodeRoots(tc.roots).value[..tc.k] == DecodeRoots(prefix).value;
  }

  /** A root that does not decode makes the whole test case fail, even one past the first k. */
  lemma BadRootFails(tc: TestCase, j: nat)
    requires j < |tc.roots| && !Decodes(tc.roots[j])
    ensures TestCaseSecret(tc).Err? && TestCaseSecret(tc).fault.NumberFormat?
  {
    DecodeRootsOk(tc.roots);
    DecodeRootsErr(tc.roots);
    var i :| 0 <= i < |tc.roots| && DecodeRoot(tc.roots[i]) == Err(DecodeRoots(tc.roots).fault)
            && forall j :: 0 <= j < i ==> Decodes(tc.roots[j]);
    var root := tc.roots[i];
    ParseOkIff(root.key, 10);
    ParseOkIff(root.value, root.base);
  }

  /** Too few roots for k: subList throws. */
  lemma TooFewRoots(tc: TestCase)
    requires AllDecode(tc.roots)
    requires tc.k > |tc.roots|
    ensures TestCaseSecret(tc) == Err(IndexOutOfBounds)
  {
    DecodeRootsOk(tc.roots);
  }

  // ----- order of the roots -----

  /** The shares of a sequence of decodable roots, one per root. */
  function SharesOf(roots: seq<Root>): seq<Point>
    requires AllDecode(roots)
  {
    if roots == [] then []
    else
      var last := |roots| - 1;
      assert Decodes(roots[last]);
      SharesOf(roots[..last]) + [DecodeRoot(roots[last]).value]
  }

  lemma AllDecodeAppend(a: seq<Root>, b: seq<Root>)
    requires AllDecode(a + b)
    ensures AllDecode(a) && AllDecode(b)
  {
    assert forall i :: 0 <= i < |a| ==> a[i] == (a + b)[i];
    assert forall i :: 0 <= i < |b| ==> b[i] == (a + b)[|a| + i];
  }

  lemma {:induction false} SharesOfAppend(a: seq<Root>, b: seq<Root>)
    requires AllDecode(a + b)
    ensures AllDecode(a) && AllDecode(b)
    ensures SharesOf(a + b) == SharesOf(a) + SharesOf(b)
    decreases |b|
  {
    AllDecodeAppend(a, b);
    if b == [] {
      assert a + b == a;
    } else {
      var b', x := b[..|b| - 1], b[|b| - 1];
      Permutation.AppendInit(a, b);
      SharesOfSnoc(a + b);
      SharesOfSnoc(b);
      SharesOfAppend(a, b');
      var v := DecodeRoot(x).value;
      assert (SharesOf(a) + SharesOf(b')) + [v] == SharesOf(a) + (SharesOf(b') + [v]);
    }
  }

  lemma SharesOfSnoc(roots: seq<Root>)
    requires roots != [] && AllDecode(roots)
    ensures AllDecode(roots[..|roots| - 1]) && Decodes(roots[|roots| - 1])
    ensures SharesOf(roots) == SharesOf(roots[..|roots| - 1]) + [DecodeRoot(roots[|roots| - 1]).value]
  {
  }

  /** Every root of a reordering of decodable roots decodes. */
  lemma PermDecodes(s: seq<Root>, t: seq<Root>)
    requires multiset(s) == multiset(t)
    requires AllDecode(s)
    ensures AllDecode(t)
  {
    forall i | 0 <= i < |t| ensures Decodes(t[i]) {
      assert t[i] in multiset(s);
    }
  }

  /** Taking the k-th root out leaves its share out. */
  lemma SharesOfRemoveAt(t: seq<Root>, k: nat)
    requires k < |t| && AllDecode(t)
    ensures AllDecode(t[..k] + t[k + 1..])
    ensures multiset(SharesOf(t)) ==
      multiset(SharesOf(t[..k] + t[k + 1..])) + multiset{DecodeRoot(t[k]).value}
  {
    Permutation.Decompose(t, k);
    SharesOfAppend(t[..k] + [t[k]], t[k + 1..]);
    SharesOfAppend(t[..k], [t[k]]);
    SharesOfAppend(t[..k], t[k + 1..]);
    assert SharesOf([t[k]]) == [DecodeRoot(t[k]).value] by {
      assert [t[k]][..0] == [];
    }
  }

  /** Reordering decodable roots reorders their shares. */
  lemma {:induction false} SharesOfPerm(s: seq<Root>, t: seq<Root>)
    requires multiset(s) == multiset(t)
    requires AllDecode(s)
    ensures AllDecode(t)
    ensures multiset(SharesOf(s)) == multiset(SharesOf(t))
    decreases |s|
  {
    PermDecodes(s, t);
    if s == [] {
      assert |t| == |multiset(t)| == 0;
    } else {
      Permutation.MatchLast(s, t);
      var k :| 0 <= k < |t| && t[k] == s[|s| - 1]
             && multiset(s[..|s| - 1]) == multiset(t[..k] + t[k + 1..]);
      SharesOfPerm(s[..|s| - 1], t[..k] + t[k + 1..]);
      SharesOfRemoveAt(t, k);
    }
  }

  lemma {:induction false} SharesOfDecode(roots: seq<Root>)
    requires AllDecode(roots)
    ensures DecodeRoots(roots) == Ok(SharesOf(roots))
    decreases |roots|
  {
    if roots != [] {
      SharesOfDecode(roots[..|roots| - 1]);
    }
  }

  /** Two test cases with the same k whose first k roots are the same roots in another
      order, with every root decodable, reconstruct the same secret. */
  lemma ReorderedShares(tc1: TestCase, tc2: TestCase)
    requires tc1.k == tc2.k && 0 <= tc1.k <= |tc1.roots| && tc2.k <= |tc2.roots|
    requires AllDecode(tc1.roots)
    requires AllDecode(tc2.roots)
    requires multiset(tc1.roots[..tc1.k]) == multiset(tc2.roots[..tc2.k])
    ensures TestCaseSecret(tc1) == TestCaseSecret(tc2)
  {
    var k := tc1.k;
    var p1, p2 := tc1.roots[..k], tc2.roots[..k];
    SelectedShares(tc1);
    SelectedShares(tc2);
    SharesOfPerm(p1, p2);
    Permutation.SecretPermutation(SharesOf(p1), SharesOf(p2));
  }

  /** The secret of a test case whose roots all decode is that of the shares of its
      first k roots. */
  lemma SelectedShares(tc: TestCase)
    requires AllDecode(tc.roots) && 0 <= tc.k <= |tc.roots|
    ensures AllDecode(tc.roots[..tc.k])
    ensures TestCaseSecret(tc) == Secret(SharesOf(tc.roots[..tc.k]))
  {
    var prefix := tc.roots[..tc.k];
    assert AllDecode(prefix) by {
      forall i | 0 <= i < |prefix| ensures Decodes(prefix[i]) {
        assert prefix[i] == tc.roots[i];
      }
    }
    FirstKDecide(tc);
    SharesOfDecode(prefix);
  }

  // ----- examples -----

  /** A key "2" with the value "1a" in base 16 is the share (2, 26). */
  lemma ExampleRoot()
    ensures DecodeRoot(Root("2", 16, "1a")) == Ok(Point(2, 26))
  {
    ParseExamples();
    assert ParseDecimal("2") == Ok(2) by {
      ParseToRadixString(2, 10);
      assert ToRadixString(2, 10) == "2";
    }
  }
}

/** The java.math.BigInteger operations the reconstruction relies on, and the
    Java exceptions it can raise, over Dafny's unbounded integers. */
module JavaMath {

  /** Why a `new BigInteger(String, radix)` call throws NumberFormatException. */
  datatype NumberFormatReason = RadixOutOfRange | ZeroLength | IllegalEmbeddedSign | IllegalDigit

  /** The exceptions the core can throw. */
  datatype Fault =
    | NumberFormat(reason: NumberFormatReason)  // NumberFormatException from a BigInteger constructor
    | DivideByZero                              // ArithmeticException from divide or remainder
    | IndexOutOfBounds                          // List.subList past the end, or solution[n - 1] with n == 0
    | IllegalArgument                           // List.subList with a negative end index

  /** A computation that either returns a value or throws. */
  datatype Result<+T> = Ok(value: T) | Err(fault: Fault)

  function Abs(a: int): nat
  {
    if a < 0 then -a else a
  }

  /** BigInteger.divide: the quotient rounded toward zero (unlike Dafny's Euclidean `/`). */
  function JavaDiv(a: int, b: int): int
    requires b != 0
  {
    var q := Abs(a) / Abs(b);
    if (a < 0) == (b < 0) then q else -q
  }

  /** BigInteger.remainder: what is left after divide, so it takes the sign of the dividend. */
  function JavaRem(a: int, b: int): int
    requires b != 0
  {
    a - JavaDiv(a, b) * b
  }

  /** BigInteger.pow for a non-negative exponent; pow(0) is 1 for every base, 0 included. */
  function Pow(x: int, e: nat): int
  {
    if e == 0 then 1 else x * Pow(x, e - 1)
  }

  lemma MulAbs(a: int, b: int)
    ensures Abs(a * b) == Abs(a) * Abs(b)
  {
  }

  /** The truncated quotient times the divisor is the Euclidean product on magnitudes,
      with the sign of the dividend. */
  lemma QuotientTimesDivisor(a: int, b: int, q: nat)
    requires b != 0 && q == Abs(a) / Abs(b)
    ensures JavaDiv(a, b) * b == if a < 0 then -(q * Abs(b)) else q * Abs(b)
  {
    if b < 0 {
      assert Abs(b) == -b;
      if a < 0 { assert JavaDiv(a, b) == q; } else { assert JavaDiv(a, b) == -(q as int); }
    } else {
      if a < 0 { assert JavaDiv(a, b) == -(q as int); } else { assert JavaDiv(a, b) == q; }
    }
  }

  /** Division with remainder as Java defines it: the remainder is smaller than the
      divisor in magnitude and is zero or has the sign of the dividend. */
  lemma DivRem(a: int, b: int)
    requires b != 0
    ensures JavaDiv(a, b) * b + JavaRem(a, b) == a
    ensures Abs(JavaRem(a, b)) < Abs(b)
    ensures JavaRem(a, b) == 0 || (JavaRem(a, b) < 0 <==> a < 0)
    ensures Abs(JavaDiv(a, b) * b) <= Abs(a)
  {
    var q := Abs(a) / Abs(b);
    var r := Abs(a) % Abs(b);
    assert Abs(a) == q * Abs(b) + r && 0 <= r < Abs(b);
    QuotientTimesDivisor(a, b, q);
  }

  lemma MulAtLeast(d: nat, m: nat)
    requires d >= 1
    ensures d * m >= m
  {
    assert d * m == (d - 1) * m + m;
  }

  /** Two numbers of magnitude below m on the same side of zero are closer than m. */
  lemma SameSideClose(r: int, r': int, m: nat)
    requires Abs(r) < m && Abs(r') < m
    requires (r >= 0 && r' >= 0) || (r <= 0 && r' <= 0)
    ensures Abs(r' - r) < m
  {
  }

  lemma MulSubDistrib(q: int, q': int, b: int)
    ensures (q - q') * b == q * b - q' * b
  {
  }

  /** A non-zero multiple of b is at least as large as b in magnitude. */
  lemma NonZeroMultiple(d: int, b: int)
    requires d != 0
    ensures Abs(d * b) >= Abs(b)
  {
    MulAbs(d, b);
    MulAtLeast(Abs(d), Abs(b));
  }

  /** Truncating division is the only quotient with such a remainder. */
  lemma DivUnique(a: int, b: int, q: int, r: int)
    requires b != 0
    requires q * b + r == a && Abs(r) < Abs(b) && (r == 0 || (r < 0 <==> a < 0))
    ensures q == JavaDiv(a, b) && r == JavaRem(a, b)
  {
    DivRem(a, b);
    var q', r' := JavaDiv(a, b), JavaRem(a, b);
    MulSubDistrib(q, q', b);
    SameSideClose(r, r', Abs(b));
    if q != q' {
      NonZeroMultiple(q - q', b);
      assert false;
    }
  }

  /** The remainder is zero exactly when the divisor divides the dividend. */
  lemma RemZeroIffDivides(a: int, b: int)
    requires b != 0
    ensures JavaRem(a, b) == 0 <==> a % b == 0
  {
    if a % b == 0 {
      var e := a / b;
      assert a == b * e + a % b;
      DivUnique(a, b, e, 0);
    }
    if JavaRem(a, b) == 0 {
      var e := JavaDiv(a, b);
      assert a == e * b;
      ModOfMultiple(e, b);
    }
  }

  lemma ModOfMultiple(e: int, b: int)
    requires b != 0
    ensures (e * b) % b == 0
  {
    var a := e * b;
    var q, r := a / b, a % b;
    assert a == b * q + r && 0 <= r < Abs(b);
    assert (e - q) * b == r;
    if r != 0 {
      assert e - q != 0;
      MulAbs(e - q, b);
      MulAtLeast(Abs(e - q), Abs(b));
      assert false;
    }
  }


  lemma DivByOne(a: int)
    ensures JavaDiv(a, 1) == a && JavaRem(a, 1) == 0
  {
  }
}

/** The string-to-integer conversion `new BigInteger(String, radix)` (and the
    one-argument form, radix 10), as a pure Horner-style function, with the
    positional meaning of a digit string and the inverse conversion. */
module Radix {
  import opened JavaMath

  /** Character.digit on ASCII: '0'-'9' are 0-9, 'a'-'z' and 'A'-'Z' are 10-35, anything else -1. */
  function CharDigit(c: char): int
  {
    if '0' <= c <= '9' then c as int - '0' as int
    else if 'a' <= c <= 'z' then c as int - 'a' as int + 10
    else if 'A' <= c <= 'Z' then c as int - 'A' as int + 10
    else -1
  }

  predicate IsSign(c: char)
  {
    c == '-' || c == '+'
  }

  /** Every character of `s` is a digit of the given radix. */
  predicate AllDigits(s: string, radix: int)
  {
    forall q :: 0 <= q < |s| ==> 0 <= CharDigit(s[q]) < radix
  }

  function DigitsOf(s: string, radix: int): (ds: seq<nat>)
    requires AllDigits(s, radix)
    ensures |ds| == |s|
    ensures forall q :: 0 <= q < |s| ==> ds[q] == CharDigit(s[q]) < radix
  {
    seq(|s|, q requires 0 <= q < |s| => CharDigit(s[q]) as nat)
  }

  /** Horner's rule, reading the digits left to right: value := value * base + digit. */
  function Horner(ds: seq<nat>, base: nat): nat
  {
    if ds == [] then 0 else Horner(ds[..|ds| - 1], base) * base + ds[|ds| - 1]
  }

  /** The positional value d_0 * base^(len-1) + ... + d_(len-1) * base^0. */
  function Positional(ds: seq<nat>, base: nat): int
  {
    if ds == [] then 0 else ds[0] * Pow(base, |ds| - 1) + Positional(ds[1..], base)
  }

  /** A sign character somewhere after the first position. */
  predicate HasEmbeddedSign(s: string)
  {
    exists q :: 1 <= q < |s| && IsSign(s[q])
  }

  /** The characters after the optional leading sign. */
  function Body(s: string): (b: string)
    requires |s| > 0
    ensures |b| == |s| - (if IsSign(s[0]) then 1 else 0)
  {
    if IsSign(s[0]) then s[1..] else s
  }

  /** `new BigInteger(s, radix)`: the radix check, the zero-length check, at most one
      leading sign, then digits only; a leading '-' negates the magnitude. */
  function ParseBigInteger(s: string, radix: int): Result<int>
  {
    if radix < 2 || radix > 36 then Err(NumberFormat(RadixOutOfRange))
    else if |s| == 0 then Err(NumberFormat(ZeroLength))
    else if HasEmbeddedSign(s) then Err(NumberFormat(IllegalEmbeddedSign))
    else if |Body(s)| == 0 then Err(NumberFormat(ZeroLength))
    else if !AllDigits(Body(s), radix) then Err(NumberFormat(IllegalDigit))
    else
      var magnitude: int := Horner(DigitsOf(Body(s), radix), radix);
      Ok(if s[0] == '-' then -magnitude else magnitude)
  }

  /** `new BigInteger(s)`. */
  function ParseDecimal(s: string): Result<int>
  {
    ParseBigInteger(s, 10)
  }

  // ----- the meaning of a digit string -----

  lemma PositionalSnoc(ds: seq<nat>, d: nat, base: nat)
    ensures Positional(ds + [d], base) == Positional(ds, base) * base + d
  {
    if ds == [] {
      assert Positional([d], base) == d * Pow(base, 0) + Positional([], base);
    } else {
      var t := ds + [d];
      assert t[1..] == ds[1..] + [d];
      PositionalSnoc(ds[1..], d, base);
      calc {
        Positional(t, base);
        ds[0] * Pow(base, |ds|) + Positional(ds[1..] + [d], base);
        ds[0] * (base * Pow(base, |ds| - 1)) + Positional(ds[1..], base) * base + d;
        { assert ds[0] * (base * Pow(base, |ds| - 1)) == (ds[0] * Pow(base, |ds| - 1)) * base; }
        (ds[0] * Pow(base, |ds| - 1) + Positional(ds[1..], base)) * base + d;
      }
    }
  }

  /** Horner's rule computes the positional value. */
  lemma {:induction false} HornerIsPositional(ds: seq<nat>, base: nat)
    ensures Horner(ds, base) == Positional(ds, base)
    decreases |ds|
  {
    if ds != [] {
      var init := ds[..|ds| - 1];
      HornerIsPositional(init, base);
      PositionalSnoc(init, ds[|ds| - 1], base);
      assert init + [ds[|ds| - 1]] == ds;
    }
  }

  lemma MulLe(a: int, b: int, c: nat)
    requires a <= b
    ensures a * c <= b * c
  {
    assert b * c - a * c == (b - a) * c;
  }

  /** A string of `len` digits of a base is below base^len. */
  lemma {:induction false} HornerBound(ds: seq<nat>, base: nat)
    requires forall q :: 0 <= q < |ds| ==> ds[q] < base
    ensures Horner(ds, base) < Pow(base, |ds|)
    decreases |ds|
  {
    if ds != [] {
      var init := ds[..|ds| - 1];
      HornerBound(init, base);
      var h, p := Horner(init, base), Pow(base, |init|);
      MulLe(h + 1, p, base);
      assert Pow(base, |ds|) == base * p;
      assert Horner(ds, base) == h * base + ds[|ds| - 1];
      assert (h + 1) * base == h * base + base;
    }
  }

  /** The value is zero exactly when every digit is zero. */
  lemma {:induction false} HornerZero(ds: seq<nat>, base: nat)
    requires base > 0
    ensures Horner(ds, base) == 0 <==> forall q :: 0 <= q < |ds| ==> ds[q] == 0
    decreases |ds|
  {
    if ds != [] {
      var init := ds[..|ds| - 1];
      HornerZero(init, base);
      var h := Horner(init, base);
      if h != 0 {
        assert h * base >= base;
        assert exists q :: 0 <= q < |init| && init[q] != 0;
        var q :| 0 <= q < |init| && init[q] != 0;
        assert ds[q] != 0;
      }
    }
  }

  // ----- the inverse conversion, BigInteger.toString(radix) -----

  lemma DivModFacts(n: nat, base: nat)
    requires base >= 2 && n >= base
    ensures 1 <= n / base < n && 0 <= n % base < base
    ensures n == (n / base) * base + n % base
  {
    var q, r := n / base, n % base;
    assert n == q * base + r;
  }

  /** The canonical digits of n in base `base`: most significant first, no leading zero
      except for zero itself. */
  function ToDigits(n: nat, base: nat): (ds: seq<nat>)
    requires base >= 2
    ensures |ds| > 0 && (|ds| > 1 ==> ds[0] != 0)
    ensures forall q :: 0 <= q < |ds| ==> ds[q] < base
    decreases n
  {
    if n < base then [n]
    else
      DivModFacts(n, base);
      ToDigits(n / base, base) + [n % base]
  }

  lemma {:induction false} HornerToDigits(n: nat, base: nat)
    requires base >= 2
    ensures Horner(ToDigits(n, base), base) == n
    decreases n
  {
    if n >= base {
      DivModFacts(n, base);
      var ds := ToDigits(n, base);
      HornerToDigits(n / base, base);
      assert ds[..|ds| - 1] == ToDigits(n / base, base);
      assert ds[|ds| - 1] == n % base;
    }
  }

  /** Drops leading zero digits. */
  function StripZeros(ds: seq<nat>): seq<nat>
  {
    if ds != [] && ds[0] == 0 then StripZeros(ds[1..]) else ds
  }

  /** The digits without leading zeros; an all-zero (or empty) string becomes [0]. */
  function Canonical(ds: seq<nat>): seq<nat>
  {
    if StripZeros(ds) == [] then [0] else StripZeros(ds)
  }

  lemma {:induction false} StripZerosEmpty(ds: seq<nat>)
    ensures StripZeros(ds) == [] <==> forall q :: 0 <= q < |ds| ==> ds[q] == 0
    decreases |ds|
  {
    if ds != [] {
      StripZerosEmpty(ds[1..]);
      if ds[0] == 0 {
        assert forall q :: 1 <= q < |ds| ==> ds[q] == ds[1..][q - 1];
      }
    }
  }

  lemma {:induction false} StripZerosSnoc(ds: seq<nat>, d: nat)
    ensures StripZeros(ds + [d]) ==
      if StripZeros(ds) == [] then (if d == 0 then [] else [d]) else StripZeros(ds) + [d]
    decreases |ds|
  {
    if ds == [] {
      assert StripZeros([d]) == if d == 0 then StripZeros([]) else [d];
    } else {
      assert (ds + [d])[1..] == ds[1..] + [d];
      StripZerosSnoc(ds[1..], d);
    }
  }

  lemma DivModOfHorner(h: nat, d: nat, base: nat)
    requires base >= 2 && d < base
    ensures (h * base + d) / base == h && (h * base + d) % base == d
  {
    var n := h * base + d;
    var q, r := n / base, n % base;
    assert n == q * base + r && 0 <= r < base;
    DivUnique(n, base, h, d);
    DivUnique(n, base, q, r);
  }

  /** Appending a digit to a non-zero value appends it to the canonical digits. */
  lemma ToDigitsStep(h: nat, d: nat, base: nat)
    requires base >= 2 && h >= 1 && d < base
    ensures ToDigits(h * base + d, base) == ToDigits(h, base) + [d]
  {
    MulAtLeast(h, base);
    DivModOfHorner(h, d, base);
  }

  /** Converting a digit string back gives its canonical form: leading zeros aside,
      decoding and encoding are inverse. */
  lemma {:induction false} ToDigitsHorner(ds: seq<nat>, base: nat)
    requires base >= 2
    requires forall q :: 0 <= q < |ds| ==> ds[q] < base
    ensures ToDigits(Horner(ds, base), base) == Canonical(ds)
    decreases |ds|
  {
    if ds == [] {
    } else {
      var init, d := ds[..|ds| - 1], ds[|ds| - 1];
      assert ds == init + [d];
      StripZerosSnoc(init, d);
      var h := Horner(init, base);
      HornerZero(init, base);
      StripZerosEmpty(init);
      if h == 0 {
        assert Horner(ds, base) == d;
      } else {
        ToDigitsHorner(init, base);
        ToDigitsStep(h, d, base);
      }
    }
  }

  /** The lower-case digit character; the inverse of CharDigit below 36. */
  function DigitChar(d: nat): (c: char)
    requires d < 36
    ensures CharDigit(c) == d
  {
    if d < 10 then ('0' as int + d) as char else ('a' as int + d - 10) as char
  }

  /** The characters of a digit sequence. */
  function DigitString(ds: seq<nat>): (s: string)
    requires forall q :: 0 <= q < |ds| ==> ds[q] < 36
    ensures |s| == |ds|
    ensures forall q :: 0 <= q < |s| ==> CharDigit(s[q]) == ds[q] && !IsSign(s[q])
  {
    seq(|ds|, q requires 0 <= q < |ds| => DigitChar(ds[q]))
  }

  /** BigInteger.toString(radix): an optional '-', then lower-case canonical digits. */
  function ToRadixString(v: int, radix: int): string
    requires 2 <= radix <= 36
  {
    (if v < 0 then "-" else "") + DigitString(ToDigits(Abs(v), radix))
  }

  lemma ParseSignedDigits(neg: bool, ds: seq<nat>, radix: int)
    requires 2 <= radix <= 36 && |ds| > 0
    requires forall q :: 0 <= q < |ds| ==> ds[q] < radix
    ensures var h: int := Horner(ds, radix);
      ParseBigInteger((if neg then "-" else "") + DigitString(ds), radix) == Ok(if neg then -h else h)
  {
    var digits := DigitString(ds);
    var s := (if neg then "-" else "") + digits;
    assert Body(s) == digits by {
      if neg { assert s == "-" + digits; } else { assert s == digits; }
    }
    assert !HasEmbeddedSign(s) by {
      forall q | 1 <= q < |s| ensures !IsSign(s[q]) {
        if neg { assert s[q] == digits[q - 1]; } else { assert s[q] == digits[q]; }
      }
    }
    assert AllDigits(digits, radix);
    assert DigitsOf(digits, radix) == ds;
    assert s[0] == '-' <==> neg by {
      if !neg { assert !IsSign(digits[0]); }
    }
  }

  /** Round trip: parsing what toString(radix) produced gives back the number. */
  lemma ParseToRadixString(v: int, radix: int)
    requires 2 <= radix <= 36
    ensures ParseBigInteger(ToRadixString(v, radix), radix) == Ok(v)
  {
    ParseSignedDigits(v < 0, ToDigits(Abs(v), radix), radix);
    HornerToDigits(Abs(v), radix);
  }

  /** A numeral that parses: radix in 2..36, then at least one digit after an optional sign. */
  predicate WellFormed(s: string, radix: int)
  {
    2 <= radix <= 36 && |s| > 0 && |Body(s)| > 0 && AllDigits(Body(s), radix)
  }

  /** The digits of a well-formed numeral. */
  function Numeral(s: string, radix: int): seq<nat>
    requires WellFormed(s, radix)
  {
    DigitsOf(Body(s), radix)
  }

  /** Digits are never signs, so a well-formed numeral has no embedded sign. */
  lemma WellFormedNoEmbeddedSign(s: string, radix: int)
    requires WellFormed(s, radix)
    ensures !HasEmbeddedSign(s)
  {
    forall q | 1 <= q < |s| ensures !IsSign(s[q]) {
      var b := Body(s);
      if IsSign(s[0]) {
        assert s[q] == b[q - 1];
      } else {
        assert s[q] == b[q];
      }
    }
  }

  /** Parsing succeeds exactly on well-formed numerals; everything else is a
      NumberFormatException. */
  lemma ParseOkIff(s: string, radix: int)
    ensures ParseBigInteger(s, radix).Ok? <==> WellFormed(s, radix)
    ensures ParseBigInteger(s, radix).Err? ==> ParseBigInteger(s, radix).fault.NumberFormat?
  {
    if WellFormed(s, radix) {
      WellFormedNoEmbeddedSign(s, radix);
    }
  }

  /** A well-formed numeral decodes to the signed positional value of its digits. */
  lemma ParseValue(s: string, radix: int)
    requires WellFormed(s, radix)
    ensures ParseBigInteger(s, radix) ==
      Ok(if s[0] == '-' then -Positional(Numeral(s, radix), radix) else Positional(Numeral(s, radix), radix))
  {
    WellFormedNoEmbeddedSign(s, radix);
    HornerIsPositional(Numeral(s, radix), radix);
  }

  /** The decoding of a well-formed numeral is within base^len of zero. */
  lemma ParseBound(s: string, radix: int)
    requires WellFormed(s, radix)
    ensures Abs(ParseBigInteger(s, radix).value) < Pow(radix, |Numeral(s, radix)|)
  {
    WellFormedNoEmbeddedSign(s, radix);
    HornerBound(Numeral(s, radix), radix);
  }

  lemma HexExample(s: string)
    requires s == "1a" || s == "1A"
    ensures ParseBigInteger(s, 16) == Ok(26)
  {
    assert !HasEmbeddedSign(s) && Body(s) == s;
    assert DigitsOf(s, 16) == [1, 10];
    assert [1, 10][..1] == [1];
    assert Horner([1, 10], 16) == 26;
  }

  lemma BinaryExample()
    ensures ParseBigInteger("-101", 2) == Ok(-5)
  {
    assert Body("-101") == "101" && !HasEmbeddedSign("-101");
    assert DigitsOf("101", 2) == [1, 0, 1];
    assert [1, 0, 1][..2] == [1, 0] && [1, 0][..1] == [1];
    assert Horner([1, 0, 1], 2) == 5;
  }

  /** Worked cases: digits of either case and an optional sign. */
  lemma ParseExamples()
    ensures ParseBigInteger("1a", 16) == Ok(26)
    ensures ParseBigInteger("1A", 16) == Ok(26)
    ensures ParseBigInteger("-101", 2) == Ok(-5)
    ensures ParseBigInteger("+7", 8) == Ok(7)
  {
    HexExample("1a");
    HexExample("1A");
    BinaryExample();
    assert Body("+7") == "7" && !HasEmbeddedSign("+7");
    assert DigitsOf("7", 8) == [7];
  }

  /** Worked error cases, each reason in the order Java checks for it. */
  lemma ParseErrorExamples()
    ensures ParseBigInteger("19", 9) == Err(NumberFormat(IllegalDigit))
    ensures ParseBigInteger("10", 37) == Err(NumberFormat(RadixOutOfRange))
    ensures ParseBigInteger("", 10) == Err(NumberFormat(ZeroLength))
    ensures ParseBigInteger("-", 10) == Err(NumberFormat(ZeroLength))
    ensures ParseBigInteger("1-2", 10) == Err(NumberFormat(IllegalEmbeddedSign))
  {
    assert !HasEmbeddedSign("19");
    assert !AllDigits("19", 9) by { assert CharDigit("19"[1]) == 9; }
    assert !HasEmbeddedSign("-") && Body("-") == "";
    assert IsSign("1-2"[1]);
  }
}

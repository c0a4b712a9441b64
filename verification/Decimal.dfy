/** Decimal rendering of integers: the custody log's own `itoa` and the standard `FormatInt`. */
module Decimal {
  import opened Text

  const MAX_INT := 0x7FFF_FFFF_FFFF_FFFF
  const MIN_INT := -0x8000_0000_0000_0000

  /** Go's `int` on a 64-bit platform. */
  type int64 = n: int | MIN_INT <= n <= MAX_INT

  /** Two's complement wrap-around into `int64`. */
  function Wrap(n: int): int64 {
    (n - MIN_INT) % 0x1_0000_0000_0000_0000 + MIN_INT
  }

  function Digit(d: nat): char
    requires d < 10
  {
    "0123456789"[d]
  }

  predicate IsDigit(c: char) {
    '0' <= c <= '9'
  }

  function DigitValue(c: char): nat {
    if IsDigit(c) then (c as int) - ('0' as int) else 0
  }

  /** Digits of n without leading zeros; empty for 0. */
  function Digits(n: nat): (s: string)
    ensures forall c :: c in s ==> IsDigit(c)
    ensures n > 0 ==> s != "" && s[0] != '0'
  {
    if n == 0 then "" else Digits(n / 10) + [Digit(n % 10)]
  }

  /** The number a digit string denotes. */
  function Value(s: string): nat {
    if s == "" then 0 else Value(s[..|s| - 1]) * 10 + DigitValue(s[|s| - 1])
  }

  lemma {:induction false} ValueOfDigits(n: nat)
    ensures Value(Digits(n)) == n
  {
    if n > 0 {
      ValueOfDigits(n / 10);
      var s := Digits(n);
      assert s[..|s| - 1] == Digits(n / 10);
    }
  }

  /** The repository's `itoa`. Negating the least integer leaves it negative, so it prints as a bare sign. */
  function Itoa(n: int64): string {
    if n == 0 then "0"
    else if n < 0 then "-" + (if n == MIN_INT then "" else Digits(-n))
    else Digits(n)
  }

  lemma LastDigit(m: nat, rest: string)
    requires m > 0
    ensures Digits(m) + rest == Digits(m / 10) + ([Digit(m % 10)] + rest)
  {
    Regroup(Digits(m / 10), [Digit(m % 10)], rest);
  }

  lemma WrapNegation(n: int64)
    ensures Wrap(0 - n) == if n == MIN_INT then MIN_INT else 0 - n
  {
  }

  /** The loop that computes it, prepending the digit of each remainder. */
  method ComputeItoa(n: int64) returns (s: string)
    ensures s == Itoa(n)
  {
    if n == 0 {
      return "0";
    }
    var m: int64 := n;
    var negative := n < 0;
    if negative {
      m := Wrap(0 - n);
      WrapNegation(n);
    }
    hide Wrap;
    var digits := "";
    ghost var all := Digits(if m > 0 then m else 0);
    while m > 0
      invariant Digits(if m > 0 then m else 0) + digits == all
      decreases m
    {
      LastDigit(m, digits);
      digits := [Digit(m % 10)] + digits;
      m := m / 10;
    }
    if negative {
      return "-" + digits;
    }
    return digits;
  }

  /** `itoa` loses nothing: not even the least integer collides. */
  lemma ItoaInjective(m: int64, n: int64)
    requires Itoa(m) == Itoa(n)
    ensures m == n
  {
    ValueOfDigits(Magnitude(m));
    ValueOfDigits(Magnitude(n));
    ItoaSign(m);
    ItoaSign(n);
    if m < 0 {
      assert Itoa(m)[1..] == Digits(Magnitude(m)) && Itoa(n)[1..] == Digits(Magnitude(n));
    }
  }

  /** The number whose digits `itoa` prints after the sign. */
  function Magnitude(n: int64): nat {
    if n == MIN_INT then 0 else if n < 0 then 0 - n else n
  }

  lemma ItoaSign(n: int64)
    ensures Itoa(n) != "" && (Itoa(n)[0] == '-' <==> n < 0)
    ensures forall c :: c in Itoa(n) ==> IsDigit(c) || c == '-'
  {
    if n > 0 {
      assert Itoa(n)[0] in Digits(n);
    }
  }

  /** `strconv.FormatInt(n, 10)`, and a template literal applied to an integral number. */
  function FormatInt(n: int): (s: string)
    ensures forall c :: c in s ==> IsDigit(c) || c == '-'
  {
    if n == 0 then "0" else if n < 0 then "-" + Digits(-n) else Digits(n)
  }

  lemma FormatIntSign(n: int)
    ensures FormatInt(n) != "" && (FormatInt(n)[0] == '-' <==> n < 0)
    ensures forall c :: c in FormatInt(n) ==> IsDigit(c) || c == '-'
  {
    if n > 0 {
      assert FormatInt(n)[0] in Digits(n);
    }
  }

  lemma FormatIntInjective(m: int, n: int)
    requires FormatInt(m) == FormatInt(n)
    ensures m == n
  {
    FormatIntSign(m);
    FormatIntSign(n);
    ValueOfDigits(if m < 0 then -m else m);
    ValueOfDigits(if n < 0 then -n else n);
    if m < 0 {
      assert FormatInt(m)[1..] == Digits(-m) && FormatInt(n)[1..] == Digits(-n);
    }
  }

  /** The home-made `itoa` departs from the standard rendering on exactly one integer. */
  lemma ItoaIsFormatInt(n: int64)
    ensures Itoa(n) == FormatInt(n) <==> n != MIN_INT
  {
    if n == MIN_INT {
      assert |FormatInt(n)| > 1;
    }
  }

  /** The low w decimal digits of n, zero-padded to exactly w characters. */
  function Fixed(n: nat, w: nat): (s: string)
    ensures |s| == w
    ensures forall c :: c in s ==> IsDigit(c)
    decreases w
  {
    if w == 0 then "" else Fixed(n / 10, w - 1) + [Digit(n % 10)]
  }

  function Pow10(w: nat): nat {
    if w == 0 then 1 else 10 * Pow10(w - 1)
  }

  lemma PowPositive(w: nat)
    ensures Pow10(w) > 0
  {
  }

  /** Fixed-width text reads back as the low digits. */
  lemma {:induction false} FixedReads(n: nat, w: nat)
    requires n < Pow10(w)
    ensures Value(Fixed(n, w)) == n
    decreases w
  {
    if w > 0 {
      FixedReads(n / 10, w - 1);
      assert Fixed(n, w)[..w - 1] == Fixed(n / 10, w - 1);
    }
  }

  /** So does a signed rendering: a minus sign exactly below zero, then the digits of the magnitude without leading zeros. */
  lemma FormatIntReads(n: int)
    ensures var s := FormatInt(n); var digits := if n < 0 then s[1..] else s;
      && (n < 0 ==> s != "" && s[0] == '-')
      && digits != "" && (forall c :: c in digits ==> IsDigit(c))
      && Value(digits) == (if n < 0 then -n else n)
      && (digits[0] == '0' ==> digits == "0")
  {
    ValueOfDigits(if n < 0 then -n else n);
    if n < 0 {
      assert FormatInt(n)[1..] == Digits(-n);
    } else if n == 0 {
      assert "0"[..0] == "";
    }
  }

  /** A padded number keeps to w digits exactly while it fits into them. */
  lemma PaddedWidth(n: nat)
    ensures |Padded(n, 4)| == 4 <==> n <= 9999
  {
    if n <= 9999 {
      DigitsShort(n);
    } else {
      DigitsLong(n);
    }
  }

  lemma DigitsShort(n: nat)
    requires n <= 9999
    ensures |Digits(n)| <= 4
  {
    var a := n / 10;
    var b := a / 10;
    var c := b / 10;
    assert c / 10 == 0;
    assert |Digits(c)| <= 1 && |Digits(b)| <= 2 && |Digits(a)| <= 3;
  }

  lemma DigitsLong(n: nat)
    requires n > 9999
    ensures |Digits(n)| >= 5
  {
    var a := n / 10;
    var b := a / 10;
    var c := b / 10;
    var d := c / 10;
    assert d >= 1;
    assert |Digits(d)| >= 1 && |Digits(c)| >= 2 && |Digits(b)| >= 3 && |Digits(a)| >= 4;
  }

  lemma {:induction false} FixedInjective(m: nat, n: nat, w: nat)
    requires m < Pow10(w) && n < Pow10(w)
    requires Fixed(m, w) == Fixed(n, w)
    ensures m == n
    decreases w
  {
    if w > 0 {
      var a, b := Fixed(m, w), Fixed(n, w);
      assert a[..w - 1] == Fixed(m / 10, w - 1) && b[..w - 1] == Fixed(n / 10, w - 1);
      assert a[w - 1] == Digit(m % 10) && b[w - 1] == Digit(n % 10);
      FixedInjective(m / 10, n / 10, w - 1);
    }
  }

  function Zeros(k: nat): (s: string)
    ensures |s| == k && forall c :: c in s ==> c == '0'
  {
    seq(k, _ => '0')
  }

  /** n rendered with at least w digits. */
  function Padded(n: nat, w: nat): (s: string)
    ensures forall c :: c in s ==> IsDigit(c)
    ensures |s| >= w
  {
    var s := Digits(n);
    if |s| >= w then s else Zeros(w - |s|) + s
  }

  lemma {:induction false} ValueOfZeros(k: nat, s: string)
    ensures Value(Zeros(k) + s) == Value(s)
    decreases k + |s|
  {
    var z := Zeros(k);
    if s == "" {
      if k > 0 {
        assert (z + s)[..k - 1] == Zeros(k - 1) + "";
        ValueOfZeros(k - 1, "");
      }
    } else {
      assert (z + s)[..k + |s| - 1] == z + s[..|s| - 1];
      ValueOfZeros(k, s[..|s| - 1]);
    }
  }

  lemma ValueOfPadded(n: nat, w: nat)
    ensures Value(Padded(n, w)) == n
  {
    var s := Digits(n);
    ValueOfDigits(n);
    hide Value, Digits;
    if |s| < w {
      ValueOfZeros(w - |s|, s);
    }
  }

  lemma PaddedInjective(m: nat, n: nat, w: nat)
    requires Padded(m, w) == Padded(n, w)
    ensures m == n
  {
    ValueOfPadded(m, w);
    ValueOfPadded(n, w);
  }
}

/** Decimal numerals: `str(n)`, `int(s)` on a digit string, and the
    zero-padded format `f"{n:0w}"` for a non-negative integer. */
module Numerals {
  import opened Text

  function Pow10(k: nat): (r: nat)
    ensures r >= 1
  {
    if k == 0 then 1 else 10 * Pow10(k - 1)
  }

  function DigitChar(d: nat): (c: char)
    requires d < 10
    ensures IsDigit(c)
  {
    ('0' as int + d) as char
  }

  function DigitValue(c: char): (d: nat)
    requires IsDigit(c)
    ensures d < 10 && DigitChar(d) == c
  {
    c as int - '0' as int
  }

  /** Every character is a digit (the empty string included). */
  predicate AllDigits(s: string)
  {
    forall i :: 0 <= i < |s| ==> IsDigit(s[i])
  }

  /** `int(s)` for a string of digits; leading zeros are allowed. */
  function ParseDigits(s: string): (n: nat)
    requires AllDigits(s)
    ensures n < Pow10(|s|)
  {
    if s == [] then 0
    else ParseDigits(s[..|s| - 1]) * 10 + DigitValue(s[|s| - 1])
  }

  /** `str(n)`: the decimal numeral, without leading zeros. */
  function Decimal(n: nat): (r: string)
    ensures |r| >= 1
    decreases n
  {
    if n < 10 then [DigitChar(n)] else Decimal(n / 10) + [DigitChar(n % 10)]
  }

  /** `str(n)` is a string of digits, with no leading zero unless n is 0,
      and `int(str(n)) == n`. */
  lemma {:induction false} ParseDecimal(n: nat)
    ensures IsDigits(Decimal(n)) && ParseDigits(Decimal(n)) == n
    ensures n >= 1 ==> Decimal(n)[0] != '0'
    decreases n
  {
    if n >= 10 {
      ParseDecimal(n / 10);
      var s := Decimal(n);
      AppendDigits(Decimal(n / 10), [DigitChar(n % 10)]);
      assert s[..|s| - 1] == Decimal(n / 10);
      assert s[0] == Decimal(n / 10)[0];
    }
  }

  /** The numeral of n has at most k digits exactly when n < 10^k. */
  lemma {:induction false} DecimalLength(n: nat, k: nat)
    requires k >= 1
    ensures |Decimal(n)| <= k <==> n < Pow10(k)
    decreases n
  {
    if n < Pow10(k) {
      if n >= 10 {
        assert n / 10 < Pow10(k - 1);
        DecimalLength(n / 10, k - 1);
      }
    }
    if |Decimal(n)| <= k {
      ParseDecimal(n);
      PowMonotone(|Decimal(n)|, k);
    }
  }

  lemma {:induction false} PowMonotone(i: nat, j: nat)
    requires i <= j
    ensures Pow10(i) <= Pow10(j)
    decreases j
  {
    if i < j { PowMonotone(i, j - 1); }
  }

  lemma AppendDigits(a: string, b: string)
    requires AllDigits(a) && AllDigits(b)
    ensures AllDigits(a + b)
  {
    var s := a + b;
    forall i | 0 <= i < |s| ensures IsDigit(s[i]) {
      if i < |a| { assert s[i] == a[i]; } else { assert s[i] == b[i - |a|]; }
    }
  }

  lemma ShiftStep(x: int, p: int, y: int, d: int)
    ensures (x * p + y) * 10 + d == x * (10 * p) + (y * 10 + d)
  {
  }

  /** Parsing a concatenation: the left part is shifted by the length of
      the right part. */
  lemma {:induction false} ParseAppend(a: string, b: string)
    requires AllDigits(a) && AllDigits(b)
    ensures AllDigits(a + b)
    ensures ParseDigits(a + b) == ParseDigits(a) * Pow10(|b|) + ParseDigits(b)
    decreases |b|
  {
    AppendDigits(a, b);
    if b == [] {
      assert a + b == a;
    } else {
      var b' := b[..|b| - 1];
      var d := DigitValue(b[|b| - 1]);
      ParseAppend(a, b');
      assert (a + b)[..|a + b| - 1] == a + b';
      assert ParseDigits(a + b) == ParseDigits(a + b') * 10 + d;
      assert ParseDigits(b) == ParseDigits(b') * 10 + d;
      ShiftStep(ParseDigits(a), Pow10(|b'|), ParseDigits(b'), d);
    }
  }

  /** A run of k zeros. */
  function Zeros(k: nat): (r: string)
    ensures |r| == k && AllDigits(r)
    ensures forall i :: 0 <= i < k ==> r[i] == '0'
  {
    if k == 0 then "" else "0" + Zeros(k - 1)
  }

  lemma {:induction false} ParseZeros(k: nat)
    ensures ParseDigits(Zeros(k)) == 0
  {
    if k > 0 {
      ParseZeros(k - 1);
      assert Zeros(k) == Zeros(k - 1) + "0";
      ParseAppend(Zeros(k - 1), "0");
    }
  }

  /** `f"{n:0w}"`: the numeral of n, left-filled with zeros to width w;
      never truncated. */
  function ZeroPad(n: nat, width: nat): (r: string)
    ensures |r| == if width <= |Decimal(n)| then |Decimal(n)| else width
  {
    var d := Decimal(n);
    if width <= |d| then d else Zeros(width - |d|) + d
  }

  /** Zero padding is undone by `int()`. */
  lemma ParseZeroPad(n: nat, width: nat)
    ensures AllDigits(ZeroPad(n, width)) && ParseDigits(ZeroPad(n, width)) == n
  {
    var d := Decimal(n);
    ParseDecimal(n);
    if width > |d| {
      var z := Zeros(width - |d|);
      assert ZeroPad(n, width) == z + d;
      ParseAppend(z, d);
      ParseZeros(width - |d|);
      assert ParseDigits(z + d) == 0 * Pow10(|d|) + n;
    }
  }

  /** Equal numerals, equal numbers: `str` is injective. */
  lemma DecimalInjective(a: nat, b: nat)
    requires Decimal(a) == Decimal(b)
    ensures a == b
  {
    ParseDecimal(a);
    ParseDecimal(b);
  }
}

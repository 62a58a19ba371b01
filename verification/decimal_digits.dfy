/**
  Decimal notation of integers: Ruby's `Integer#to_s` and the decimal
  reading of digit strings (a leading zero does not mean octal), with the
  facts that tie the two together (reading back what was written, and the power-of-ten bounds on
  the number of digits).
 */
module DecimalDigits {
  import opened RubyValues

  predicate IsDigit(c: char)
  {
    '0' <= c <= '9'
  }

  predicate AllDigits(s: string)
  {
    forall i :: 0 <= i < |s| ==> IsDigit(s[i])
  }

  function DigitValue(c: char): (r: nat)
    requires IsDigit(c)
    ensures r < 10
  {
    c as int - '0' as int
  }

  function DigitChar(d: nat): (c: char)
    requires d < 10
    ensures IsDigit(c) && DigitValue(c) == d
  {
    ('0' as int + d) as char
  }

  /** `n.abs`. */
  function Abs(n: int): nat
  {
    if n < 0 then -n else n
  }

  /** `n.to_s` for a non-negative n: most significant digit first, no leading zero. */
  function ToDecimal(n: nat): (r: string)
    ensures 1 <= |r|
    ensures AllDigits(r)
    ensures r[0] == '0' <==> n == 0
  {
    if n < 10 then [DigitChar(n)] else ToDecimal(n / 10) + [DigitChar(n % 10)]
  }

  /** `i.to_s`: a minus sign, then the digits of the magnitude. */
  function ShowInt(i: int): (r: string)
    ensures 1 <= |r|
    ensures i < 0 <==> r[0] == '-'
    ensures i >= 0 ==> AllDigits(r)
    ensures i < 0 ==> AllDigits(r[1..]) && |r| >= 2
  {
    if i < 0 then "-" + ToDecimal(-i) else ToDecimal(i)
  }

  /** The number a non-empty string of decimal digits denotes (leading zeros allowed). */
  function ParseDigits(s: string): nat
    requires AllDigits(s)
  {
    if s == [] then 0 else 10 * ParseDigits(s[..|s| - 1]) + DigitValue(s[|s| - 1])
  }

  /** Reading back the decimal form of n gives n. */
  lemma {:induction false} ParseToDecimal(n: nat)
    ensures ParseDigits(ToDecimal(n)) == n
  {
    if n >= 10 {
      var r := ToDecimal(n);
      assert r[..|r| - 1] == ToDecimal(n / 10);
      ParseToDecimal(n / 10);
    }
  }

  /** Conversely, digits without a leading zero are the decimal form of the number they denote. */
  lemma {:induction false} ToDecimalUnique(s: string)
    requires |s| >= 1 && AllDigits(s) && (s[0] != '0' || |s| == 1)
    ensures ToDecimal(ParseDigits(s)) == s
  {
    var last := s[|s| - 1];
    assert DigitChar(DigitValue(last)) == last;
    if |s| > 1 {
      var init := s[..|s| - 1];
      assert init[0] == s[0];
      ParseDigitsAtLeast(init);
      ToDecimalUnique(init);
      var n := ParseDigits(s);
      assert n / 10 == ParseDigits(init) && n % 10 == DigitValue(last);
      assert s == init + [last];
    }
  }

  /** A string of k digits denotes a number below 10^k. */
  lemma {:induction false} ParseDigitsBelow(s: string)
    requires AllDigits(s)
    ensures ParseDigits(s) < Pow10(|s|)
  {
    if s != [] {
      ParseDigitsBelow(s[..|s| - 1]);
    }
  }

  /** A string of k digits that does not start with zero denotes at least 10^(k-1). */
  lemma {:induction false} ParseDigitsAtLeast(s: string)
    requires AllDigits(s) && |s| >= 1 && s[0] != '0'
    ensures Pow10(|s| - 1) <= ParseDigits(s)
  {
    if |s| > 1 {
      var init := s[..|s| - 1];
      assert init[0] == s[0];
      ParseDigitsAtLeast(init);
    }
  }

  /** The number of decimal digits of a positive n is the k with 10^(k-1) <= n < 10^k. */
  lemma DigitCountBounds(n: nat)
    requires n > 0
    ensures Pow10(|ToDecimal(n)| - 1) <= n < Pow10(|ToDecimal(n)|)
  {
    ParseToDecimal(n);
    ParseDigitsBelow(ToDecimal(n));
    ParseDigitsAtLeast(ToDecimal(n));
  }

  /** Powers of ten grow strictly. */
  lemma {:induction false} Pow10Increasing(j: nat, k: nat)
    requires j < k
    ensures Pow10(j) < Pow10(k)
  {
    if j + 1 < k {
      Pow10Increasing(j, k - 1);
    }
  }

  /** Conversely, any k with 10^(k-1) <= n < 10^k is the digit count of n. */
  lemma DigitCountUnique(n: nat, k: nat)
    requires k >= 1 && Pow10(k - 1) <= n < Pow10(k)
    ensures |ToDecimal(n)| == k
  {
    var m := |ToDecimal(n)|;
    DigitCountBounds(n);
    if m < k {
      if m <= k - 1 - 1 {
        Pow10Increasing(m, k - 1);
      }
    } else if m > k {
      Pow10Increasing(k, m - 1);
    }
  }

  /** 10^(a+b) = 10^a * 10^b. */
  lemma {:induction false} Pow10Add(a: nat, b: nat)
    ensures Pow10(a + b) == Pow10(a) * Pow10(b)
  {
    if a > 0 {
      Pow10Add(a - 1, b);
    }
  }

  lemma ShiftDigit(d: nat, p: nat, q: nat, last: nat)
    ensures 10 * (d * p + q) + last == d * (10 * p) + (10 * q + last)
  {
  }

  /** A digit in front of s contributes its value times 10^|s|. */
  lemma {:induction false} ParseDigitsCons(c: char, s: string)
    requires IsDigit(c) && AllDigits(s)
    ensures ParseDigits([c] + s) == DigitValue(c) * Pow10(|s|) + ParseDigits(s)
  {
    if s != [] {
      var init := s[..|s| - 1];
      var last := DigitValue(s[|s| - 1]);
      var cs := [c] + s;
      assert cs[..|s|] == [c] + init;
      assert cs[|s|] == s[|s| - 1];
      assert ParseDigits(cs) == 10 * ParseDigits([c] + init) + last;
      ParseDigitsCons(c, init);
      ShiftDigit(DigitValue(c), Pow10(|init|), ParseDigits(init), last);
    }
  }

  lemma RepeatedStep(d: nat, p: nat, q: nat)
    requires 9 * q == d * (p - 1)
    ensures 9 * (d * p + q) == d * (10 * p - 1)
  {
  }

  /** n copies of the digit d denote d * (10^n - 1) / 9, e.g. 8888 for d = 8, n = 4. */
  lemma {:induction false} ParseRepeatedDigit(d: nat, n: nat)
    requires d < 10
    ensures AllDigits(Repeat([DigitChar(d)], n))
    ensures 9 * ParseDigits(Repeat([DigitChar(d)], n)) == d * (Pow10(n) - 1)
  {
    var c := DigitChar(d);
    RepeatChar(c, n);
    if n > 0 {
      var rest := Repeat([c], n - 1);
      assert Repeat([c], n) == [c] + rest;
      ParseRepeatedDigit(d, n - 1);
      assert DigitValue(c) == d;
      ParseDigitsCons(c, rest);
      assert ParseDigits([c] + rest) == d * Pow10(n - 1) + ParseDigits(rest);
      assert Pow10(n) == 10 * Pow10(n - 1);
      RepeatedStep(d, Pow10(n - 1), ParseDigits(rest));
    }
  }
}

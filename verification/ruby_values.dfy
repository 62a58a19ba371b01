/**
  Values and failures of the Ruby exercises, made explicit.

  Ruby is dynamically typed and reports bad input by raising; here every
  argument whose type the exercises inspect is a tagged `Value`, and every
  raise is a `Failure` carrying the exception class and its fixed message.
  The module also holds the few character-level helpers shared by the
  string exercises (whitespace, case folding, `String#*`).
 */
module RubyValues {

  /** An exact decimal number `mantissa * 10^exponent`, standing for a Float. */
  datatype Decimal = Decimal(mantissa: int, exponent: int)

  /** The run-time values the exercises distinguish by class. */
  datatype Value =
    | Int(i: int)
    | Float(d: Decimal)
    | Str(s: string)
    | List(items: seq<Value>)

  /** The two exception classes the exercises raise. */
  datatype RubyError =
    | TypeError(message: string)
    | ArgumentError(message: string)

  datatype Option<+T> = None | Some(value: T)

  /** Either a returned value or a raised exception. */
  datatype Result<+T> = Success(value: T) | Failure(error: RubyError)

  /** 10 to the power k. */
  function Pow10(k: nat): (r: nat)
    ensures r >= 1
  {
    if k == 0 then 1 else 10 * Pow10(k - 1)
  }

  /** True iff a and b denote the same number, whatever their scaling. */
  predicate SameDecimal(a: Decimal, b: Decimal)
  {
    var low := if a.exponent <= b.exponent then a.exponent else b.exponent;
    a.mantissa * Pow10(a.exponent - low) == b.mantissa * Pow10(b.exponent - low)
  }

  /**
    ASCII whitespace: the separators of `String#split`, and what
    `String#strip` removes apart from NUL.
   */
  predicate IsSpace(c: char)
  {
    c == ' ' || c == '\t' || c == '\n' || c == '\U{B}' || c == '\U{C}' || c == '\r'
  }

  /** The index of the first character of s that satisfies p, or |s| when none does. */
  function FindFirst(s: string, p: char -> bool): (k: nat)
    ensures k <= |s|
    ensures forall i :: 0 <= i < k ==> !p(s[i])
    ensures k < |s| ==> p(s[k])
  {
    if s == [] || p(s[0]) then 0
    else
      var k := 1 + FindFirst(s[1..], p);
      assert forall i :: 1 <= i < k ==> s[i] == s[1..][i - 1];
      k
  }

  predicate IsUpper(c: char)
  {
    'A' <= c <= 'Z'
  }

  /** `downcase` of one character, ASCII letters only. */
  function LowerChar(c: char): (r: char)
    ensures !IsUpper(r)
    ensures IsUpper(c) ==> r as int == c as int + 32
    ensures !IsUpper(c) ==> r == c
    ensures IsSpace(r) <==> IsSpace(c)
  {
    if IsUpper(c) then (c as int + 32) as char else c
  }

  /** `String#downcase`, ASCII letters only. */
  function Lower(s: string): (r: string)
    ensures |r| == |s|
    ensures forall i :: 0 <= i < |s| ==> r[i] == LowerChar(s[i])
  {
    seq(|s|, i requires 0 <= i < |s| => LowerChar(s[i]))
  }

  /** Folding case twice is folding it once. */
  lemma LowerIdempotent(s: string)
    ensures Lower(Lower(s)) == Lower(s)
  {
  }

  /** `s * n`: the string s repeated n times. */
  function Repeat(s: string, n: nat): (r: string)
    ensures |r| == |s| * n
    ensures n > 0 ==> r[..|s|] == s
  {
    if n == 0 then [] else s + Repeat(s, n - 1)
  }

  /** Repeating a one-character string gives that character everywhere. */
  lemma {:induction false} RepeatChar(c: char, n: nat)
    ensures |Repeat([c], n)| == n
    ensures forall i :: 0 <= i < n ==> Repeat([c], n)[i] == c
  {
    if n > 0 {
      RepeatChar(c, n - 1);
    }
  }
}

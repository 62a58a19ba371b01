/**
  `len_int(n)`: the number of decimal digits of an integer, sign ignored.
  Anything that is not an Integer raises TypeError.
 */
module IntLength {
  import opened RubyValues
  import opened DecimalDigits

  const NotInteger := TypeError("provide only integer input")

  /** Digits of `n.abs.to_s`, or TypeError for a non-integer. */
  function LenInt(v: Value): (r: Result<nat>)
    ensures v.Int? <==> r.Success?
    ensures !v.Int? ==> r == Failure(NotInteger)
    ensures v.Int? ==> r.value >= 1
    ensures v.Int? && v.i != 0 ==> Pow10(r.value - 1) <= Abs(v.i) < Pow10(r.value)
  {
    match v
    case Int(n) =>
      var k := |ToDecimal(Abs(n))|;
      assert n != 0 ==> Pow10(k - 1) <= Abs(n) < Pow10(k) by {
        if n != 0 { DigitCountBounds(Abs(n)); }
      }
      Success(k)
    case _ => Failure(NotInteger)
  }

  /** The count is exactly the k bracketing |n| between powers of ten. */
  lemma LenIntCharacterized(n: int, k: nat)
    requires n != 0 && k >= 1
    ensures LenInt(Int(n)) == Success(k) <==> Pow10(k - 1) <= Abs(n) < Pow10(k)
  {
    if Pow10(k - 1) <= Abs(n) < Pow10(k) {
      DigitCountUnique(Abs(n), k);
    }
  }

  /** The sign does not matter. */
  lemma LenIntIgnoresSign(n: int)
    ensures LenInt(Int(-n)) == LenInt(Int(n))
  {
  }

  // The assertions of exercise_files/q2a_int_length.rb, one lemma each.

  lemma LenInt123()
    ensures LenInt(Int(123)) == Success(3)
  {
    LenIntCharacterized(123, 3);
  }

  lemma LenInt2()
    ensures LenInt(Int(2)) == Success(1)
  {
  }

  /** `+42` is the literal 42. */
  lemma LenIntPlus42()
    ensures LenInt(Int(42)) == Success(2)
  {
    LenIntCharacterized(42, 2);
  }

  lemma LenIntMinus42()
    ensures LenInt(Int(-42)) == Success(2)
  {
    LenIntCharacterized(-42, 2);
  }

  lemma LenInt572342()
    ensures LenInt(Int(572342)) == Success(6)
  {
    LenIntCharacterized(572342, 6);
  }

  lemma LenIntBig()
    ensures LenInt(Int(962306349871524124750813401378124)) == Success(33)
  {
    assert Pow10(11) == 100000000000;
    Pow10Add(11, 11);
    Pow10Add(22, 10);
    Pow10Add(22, 11);
    LenIntCharacterized(962306349871524124750813401378124, 33);
  }

  lemma LenIntString()
    ensures LenInt(Str("a")) == Failure(TypeError("provide only integer input"))
  {
  }
}

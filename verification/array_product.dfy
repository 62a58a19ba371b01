/**
  `product(ip)`: the product of the Integers of an Array or of a Range,
  i.e. `ip.reduce(1, :*)`, a left-to-right fold of multiplication that
  starts from 1, so an empty input gives 1.
 */
module ArrayProduct {

  /** What `product` is called with: an Array of Integers, or the Range `lo..hi`. */
  datatype Numbers = Items(xs: seq<int>) | Span(lo: int, hi: int)

  /** The elements `lo, lo + 1, ..., hi` of a Range, empty when hi < lo. */
  function RangeElements(lo: int, hi: int): (r: seq<int>)
    ensures |r| == if hi < lo then 0 else hi - lo + 1
    ensures forall i :: 0 <= i < |r| ==> r[i] == lo + i
    decreases hi - lo
  {
    if hi < lo then [] else RangeElements(lo, hi - 1) + [hi]
  }

  function Elements(ip: Numbers): seq<int>
  {
    match ip
    case Items(xs) => xs
    case Span(lo, hi) => RangeElements(lo, hi)
  }

  /** `xs.reduce(1, :*)`: multiply the elements from left to right. */
  function Fold(xs: seq<int>): int
  {
    if xs == [] then 1 else Fold(xs[..|xs| - 1]) * xs[|xs| - 1]
  }

  /** `product(ip)`: zero exactly when a factor is, negative exactly for an odd count of negative factors. */
  function Product(ip: Numbers): (r: int)
    ensures r == 0 <==> 0 in Elements(ip)
    ensures r < 0 <==> 0 !in Elements(ip) && Negatives(Elements(ip)) % 2 == 1
  {
    FoldZero(Elements(ip));
    FoldSign(Elements(ip));
    Fold(Elements(ip))
  }

  /** The number of negative elements. */
  function Negatives(xs: seq<int>): nat
  {
    if xs == [] then 0 else Negatives(xs[..|xs| - 1]) + (if xs[|xs| - 1] < 0 then 1 else 0)
  }

  /** n! = 1 * 2 * ... * n, by its own recursion. */
  function Factorial(n: nat): nat
  {
    if n == 0 then 1 else n * Factorial(n - 1)
  }

  /** The product is zero exactly when some element is zero. */
  lemma {:induction false} FoldZero(xs: seq<int>)
    ensures Fold(xs) == 0 <==> 0 in xs
  {
    if xs != [] {
      var init := xs[..|xs| - 1];
      FoldZero(init);
      assert xs == init + [xs[|xs| - 1]];
    }
  }

  /** The product is negative exactly when no element is zero and an odd number are negative. */
  lemma {:induction false} FoldSign(xs: seq<int>)
    ensures Fold(xs) < 0 <==> 0 !in xs && Negatives(xs) % 2 == 1
    ensures Fold(xs) > 0 <==> 0 !in xs && Negatives(xs) % 2 == 0
  {
    if xs != [] {
      var init := xs[..|xs| - 1];
      var last := xs[|xs| - 1];
      FoldSign(init);
      assert xs == init + [last];
      assert 0 in xs <==> 0 in init || last == 0;
      if Fold(init) < 0 && last < 0 {
        assert Fold(xs) > 0;
      } else if Fold(init) < 0 && last > 0 {
        assert Fold(xs) < 0;
      } else if Fold(init) > 0 && last < 0 {
        assert Fold(xs) < 0;
      } else if Fold(init) > 0 && last > 0 {
        assert Fold(xs) > 0;
      }
    }
  }

  /** The product of a concatenation is the product of the products. */
  lemma {:induction false} FoldAppend(xs: seq<int>, ys: seq<int>)
    ensures Fold(xs + ys) == Fold(xs) * Fold(ys)
  {
    if ys == [] {
      assert xs + ys == xs;
    } else {
      var init := ys[..|ys| - 1];
      FoldAppend(xs, init);
      assert (xs + ys)[..|xs + ys| - 1] == xs + init;
    }
  }

  /** Multiplying in one more element on the right. */
  lemma FoldSnoc(xs: seq<int>, x: int)
    ensures Fold(xs + [x]) == Fold(xs) * x
  {
    assert (xs + [x])[..|xs|] == xs;
  }

  /** The Range `1..n` multiplies out to n!. */
  lemma {:induction false} RangeIsFactorial(n: nat)
    ensures Product(Span(1, n)) == Factorial(n)
  {
    if n > 0 {
      var init := RangeElements(1, n - 1);
      RangeIsFactorial(n - 1);
      assert Fold(init) == Factorial(n - 1);
      assert RangeElements(1, n) == init + [n];
      FoldSnoc(init, n);
      assert Fold(init + [n]) == Factorial(n - 1) * n;
    }
  }

  // The assertions of exercise_files/q4a_array_product.rb on Integers, one lemma each.

  lemma Product84()
    ensures Product(Items([1, 4, 21])) == 84
  {
    assert [1, 4, 21][..2] == [1, 4] && [1, 4][..1] == [1] && [1][..0] == [];
  }

  lemma ProductMinus66()
    ensures Product(Items([-3, 11, 2])) == -66
  {
    assert [-3, 11, 2][..2] == [-3, 11] && [-3, 11][..1] == [-3] && [-3][..0] == [];
  }

  lemma Product2400()
    ensures Product(Items([8, 300])) == 2400
  {
    assert [8, 300][..1] == [8] && [8][..0] == [];
  }

  lemma ProductWithZero()
    ensures Product(Items([234, 121, 23, 945, 0])) == 0
  {
    FoldZero([234, 121, 23, 945, 0]);
  }

  lemma ProductRange()
    ensures Product(Span(1, 5)) == 120
  {
    RangeIsFactorial(5);
  }
}

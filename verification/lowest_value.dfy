/**
  `nth_lowest(ip, n = 1)`: sort the input, drop duplicates, and take the
  n-th value (1-indexed). An Array of numbers is ranked by value; a String
  is ranked as its characters, by character code.
 */
module LowestValue {
  import opened RubyValues

  predicate StrictlyIncreasing(s: seq<int>)
  {
    forall i, j :: 0 <= i < j < |s| ==> s[i] < s[j]
  }

  /** The distinct values of xs. */
  function Values(xs: seq<int>): set<int>
  {
    set y | y in xs
  }

  /** How many distinct values of xs lie below x: x's 0-based rank among them. */
  function Rank(xs: seq<int>, x: int): nat
  {
    |set y | y in xs && y < x|
  }

  /** Inserts x into a sorted duplicate-free sequence unless it is already there. */
  function InsertDistinct(x: int, s: seq<int>): (r: seq<int>)
    requires StrictlyIncreasing(s)
    ensures StrictlyIncreasing(r)
    ensures forall y :: y in r <==> y in s || y == x
  {
    if s == [] then [x]
    else if x < s[0] then [x] + s
    else if x == s[0] then s
    else
      var rest := InsertDistinct(x, s[1..]);
      assert forall i :: 0 <= i < |rest| ==> s[0] < rest[i] by {
        forall i | 0 <= i < |rest|
          ensures s[0] < rest[i]
        {
          assert rest[i] in rest;
          if rest[i] != x {
            var k :| 0 <= k < |s[1..]| && s[1..][k] == rest[i];
            assert s[0] < s[k + 1];
          }
        }
      }
      [s[0]] + rest
  }

  /** `xs.sort.uniq`. */
  function SortedDistinct(xs: seq<int>): (r: seq<int>)
    ensures StrictlyIncreasing(r)
    ensures forall y :: y in r <==> y in xs
  {
    if xs == [] then []
    else
      var init := xs[..|xs| - 1];
      var r := InsertDistinct(xs[|xs| - 1], SortedDistinct(init));
      assert xs == init + [xs[|xs| - 1]];
      r
  }

  /** `ip.sort.uniq[n - 1]`, or None (Ruby's nil) when there is no n-th value. */
  function NthLowest(xs: seq<int>, n: int): (r: Option<int>)
    ensures r.Some? ==> r.value in xs && Rank(xs, r.value) == n - 1
    ensures r.None? <==> n < 1 || n > |Values(xs)|
  {
    var d := SortedDistinct(xs);
    DistinctCount(d);
    assert Values(d) == Values(xs);
    if 1 <= n <= |d| then
      RankInSorted(xs, d, n - 1);
      Some(d[n - 1])
    else None
  }

  /** A strictly increasing sequence has as many distinct values as elements. */
  lemma {:induction false} DistinctCount(s: seq<int>)
    requires StrictlyIncreasing(s)
    ensures |Values(s)| == |s|
  {
    if s != [] {
      DistinctCount(s[1..]);
      assert Values(s) == {s[0]} + Values(s[1..]);
      assert s[0] !in Values(s[1..]);
    }
  }

  /** In a sorted, duplicate-free listing d of xs, the value at index k has rank k. */
  lemma RankInSorted(xs: seq<int>, d: seq<int>, k: nat)
    requires StrictlyIncreasing(d) && forall y :: y in d <==> y in xs
    requires k < |d|
    ensures Rank(xs, d[k]) == k
  {
    var below := set y | y in xs && y < d[k];
    assert below == Values(d[..k]) by {
      forall y | y in below
        ensures y in Values(d[..k])
      {
        var j :| 0 <= j < |d| && d[j] == y;
        assert d[j] < d[k];
      }
    }
    DistinctCount(d[..k]);
  }

  /** Conversely, a value of xs with rank n - 1 is what `NthLowest(xs, n)` returns. */
  lemma NthLowestUnique(xs: seq<int>, n: int, x: int)
    requires x in xs && Rank(xs, x) == n - 1
    ensures NthLowest(xs, n) == Some(x)
  {
    var d := SortedDistinct(xs);
    var k :| 0 <= k < |d| && d[k] == x;
    RankInSorted(xs, d, k);
  }

  /** With n left at its default of 1, the result is the minimum. */
  lemma DefaultIsMinimum(xs: seq<int>)
    requires xs != []
    ensures NthLowest(xs, 1).Some?
    ensures forall y :: y in xs ==> NthLowest(xs, 1).value <= y
  {
    assert xs[0] in Values(xs);
    var m := NthLowest(xs, 1).value;
    assert Rank(xs, m) == 0;
    forall y | y in xs
      ensures m <= y
    {
      assert y < m ==> y in set z | z in xs && z < m;
    }
  }

  /** A sorted, duplicate-free listing of the values of xs is the one `NthLowest` ranks by. */
  lemma SortedDistinctUnique(xs: seq<int>, d: seq<int>)
    requires StrictlyIncreasing(d) && forall y :: y in d <==> y in xs
    ensures SortedDistinct(xs) == d
  {
    var e := SortedDistinct(xs);
    DistinctCount(d);
    DistinctCount(e);
    assert Values(d) == Values(e);
    assert |e| == |d|;
    forall k | 0 <= k < |d|
      ensures e[k] == d[k]
    {
      RankInSorted(xs, d, k);
      RankInSorted(xs, e, k);
      RankStrict(xs, e[k], d[k]);
      RankStrict(xs, d[k], e[k]);
    }
  }

  /** A smaller value of xs has a smaller rank. */
  lemma RankStrict(xs: seq<int>, a: int, b: int)
    requires a in xs
    ensures a < b ==> Rank(xs, a) < Rank(xs, b)
  {
    if a < b {
      var below := set y | y in xs && y < a;
      var belowB := set y | y in xs && y < b;
      var lower := below + {a};
      assert lower <= belowB;
      assert |lower| == |below| + 1;
      assert belowB == lower + (belowB - lower);
      assert |belowB| == |lower| + |belowB - lower|;
    }
  }

  /** The character codes of a String. */
  function Codes(s: string): (r: seq<int>)
    ensures |r| == |s|
    ensures forall i :: 0 <= i < |s| ==> r[i] == s[i] as int
  {
    seq(|s|, i requires 0 <= i < |s| => s[i] as int)
  }

  /** `nth_lowest` on a String: its characters ranked by code, duplicates counted once. */
  function NthLowestChar(s: string, n: int): (r: Option<char>)
    ensures r.Some? ==> r.value in s && Rank(Codes(s), r.value as int) == n - 1
    ensures r.None? <==> n < 1 || n > |Values(Codes(s))|
  {
    match NthLowest(Codes(s), n)
    case None => None
    case Some(k) =>
      var i :| 0 <= i < |s| && Codes(s)[i] == k;
      Some(s[i])
  }

  // The assertions of exercise_files/q4b_lowest_value.rb, one lemma each.

  /** `[42, 23421341, 234.2e3, 21, 232, 12312, -2343]`, with `234.2e3` taken as 234200. */
  const Nums: seq<int> := [42, 23421341, 234200, 21, 232, 12312, -2343]

  lemma SortedNums()
    ensures SortedDistinct(Nums) == [-2343, 21, 42, 232, 12312, 234200, 23421341]
  {
    SortedDistinctUnique(Nums, [-2343, 21, 42, 232, 12312, 234200, 23421341]);
  }

  lemma ThirdLowest()
    ensures NthLowest(Nums, 3) == Some(42)
  {
    SortedNums();
  }

  lemma FifthLowest()
    ensures NthLowest(Nums, 5) == Some(12312)
  {
    SortedNums();
  }

  const Repeats: seq<int> := [1, -2, 4, 2, 1, 3, 3, 5]

  lemma SortedRepeats()
    ensures SortedDistinct(Repeats) == [-2, 1, 2, 3, 4, 5]
  {
    SortedDistinctUnique(Repeats, [-2, 1, 2, 3, 4, 5]);
  }

  lemma DefaultLowest()
    ensures NthLowest(Repeats, 1) == Some(-2)
  {
    SortedRepeats();
  }

  /** Duplicates count once: the fourth lowest is 3, not 2. */
  lemma FourthLowest()
    ensures NthLowest(Repeats, 4) == Some(3)
  {
    SortedRepeats();
  }

  lemma SecondLowestChar()
    ensures NthLowestChar("jump", 2) == Some('m')
  {
    var codes := Codes("jump");
    assert codes == ['j' as int, 'u' as int, 'm' as int, 'p' as int];
    SortedDistinctUnique(codes, ['j' as int, 'm' as int, 'p' as int, 'u' as int]);
  }

  lemma UnrecognizableCodes()
    ensures Codes("unrecognizable") ==
              ['u' as int, 'n' as int, 'r' as int, 'e' as int, 'c' as int, 'o' as int, 'g' as int,
               'n' as int, 'i' as int, 'z' as int, 'a' as int, 'b' as int, 'l' as int, 'e' as int]
  {
  }

  lemma SortedUnrecognizable()
    ensures SortedDistinct(Codes("unrecognizable")) ==
              ['a' as int, 'b' as int, 'c' as int, 'e' as int, 'g' as int, 'i' as int,
               'l' as int, 'n' as int, 'o' as int, 'r' as int, 'u' as int, 'z' as int]
  {
    var codes := Codes("unrecognizable");
    UnrecognizableCodes();
    var d := ['a' as int, 'b' as int, 'c' as int, 'e' as int, 'g' as int, 'i' as int,
              'l' as int, 'n' as int, 'o' as int, 'r' as int, 'u' as int, 'z' as int];
    assert forall y :: y in d <==> y in codes;
    SortedDistinctUnique(codes, d);
  }

  lemma ThirdLowestChar()
    ensures NthLowestChar("unrecognizable", 3) == Some('c')
  {
    SortedUnrecognizable();
  }

  lemma FifthLowestChar()
    ensures NthLowestChar("abracadabra", 5) == Some('r')
  {
    var s := "abracadabra";
    var codes := Codes(s);
    assert codes == ['a' as int, 'b' as int, 'r' as int, 'a' as int, 'c' as int, 'a' as int, 'd' as int, 'a' as int, 'b' as int, 'r' as int, 'a' as int];
    var d := ['a' as int, 'b' as int, 'c' as int, 'd' as int, 'r' as int];
    assert forall y :: y in d <==> y in codes;
    SortedDistinctUnique(codes, d);
  }
}

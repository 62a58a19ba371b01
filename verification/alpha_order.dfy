/**
  `is_alpha_order(ip)`: after case folding, every whitespace-separated word
  of the phrase has its characters in order, either all ascending or all
  descending (equal neighbours allowed either way).
 */
module AlphaOrder {
  import opened RubyValues

  predicate NoSpaces(w: string)
  {
    forall i :: 0 <= i < |w| ==> !IsSpace(w[i])
  }

  /** Index of the first whitespace character of s, or |s| when there is none. */
  function WordEnd(s: string): (k: nat)
    ensures k <= |s|
    ensures NoSpaces(s[..k])
    ensures k < |s| ==> IsSpace(s[k])
  {
    FindFirst(s, IsSpace)
  }

  /** `s.split`: the maximal runs of non-whitespace characters, in order. */
  function Words(s: string): (r: seq<string>)
    ensures forall k :: 0 <= k < |r| ==> |r[k]| >= 1 && NoSpaces(r[k])
    decreases |s|
  {
    if s == [] then []
    else if IsSpace(s[0]) then Words(s[1..])
    else
      var k := WordEnd(s);
      [s[..k]] + Words(s[k..])
  }

  /** Each character is at least the one before it. */
  predicate Ascending(w: string)
  {
    forall i :: 0 < i < |w| ==> w[i - 1] <= w[i]
  }

  /** Each character is at most the one before it. */
  predicate Descending(w: string)
  {
    forall i :: 0 < i < |w| ==> w[i - 1] >= w[i]
  }

  predicate Monotone(w: string)
  {
    Ascending(w) || Descending(w)
  }

  /** Every word of the list is monotone. */
  predicate EachMonotone(words: seq<string>)
  {
    forall k :: 0 <= k < |words| ==> Monotone(words[k])
  }

  /** Every word of the list is sorted, one way or the other. */
  predicate EachSortedEitherWay(words: seq<string>)
  {
    forall k :: 0 <= k < |words| ==> Sorted(words[k]) || ReverseSorted(words[k])
  }

  /**
    `is_alpha_order(ip)`, checking neighbours: every case-folded word is
    sorted or reverse sorted over all pairs of its characters.
   */
  function IsAlphaOrder(s: string): (r: bool)
    ensures r <==> EachSortedEitherWay(Words(Lower(s)))
  {
    AllMonotone(Words(Lower(s)));
    EachMonotone(Words(Lower(s)))
  }

  /** Checking neighbours in every word is checking every pair in every word. */
  lemma AllMonotone(words: seq<string>)
    ensures EachMonotone(words) <==> EachSortedEitherWay(words)
  {
    forall k | 0 <= k < |words|
      ensures Monotone(words[k]) <==> Sorted(words[k]) || ReverseSorted(words[k])
    {
      AscendingIsSorted(words[k]);
      DescendingIsReverseSorted(words[k]);
    }
  }

  /** Sorted in the usual sense: any earlier character is at most any later one. */
  predicate Sorted(w: string)
  {
    forall i, j :: 0 <= i < j < |w| ==> w[i] <= w[j]
  }

  /** Reverse sorted: any earlier character is at least any later one. */
  predicate ReverseSorted(w: string)
  {
    forall i, j :: 0 <= i < j < |w| ==> w[i] >= w[j]
  }

  /** Checking neighbours is the same as checking every pair. */
  lemma {:induction false} AscendingIsSorted(w: string)
    ensures Ascending(w) <==> Sorted(w)
  {
    if Ascending(w) && |w| > 0 {
      var init := w[..|w| - 1];
      AscendingIsSorted(init);
      assert Ascending(init);
      forall i, j | 0 <= i < j < |w|
        ensures w[i] <= w[j]
      {
        if j < |w| - 1 {
          assert w[i] == init[i] && w[j] == init[j];
        } else if i < j - 1 {
          assert w[i] == init[i] && w[j - 1] == init[j - 1];
        }
      }
    }
  }

  lemma {:induction false} DescendingIsReverseSorted(w: string)
    ensures Descending(w) <==> ReverseSorted(w)
  {
    if Descending(w) && |w| > 0 {
      var init := w[..|w| - 1];
      DescendingIsReverseSorted(init);
      assert Descending(init);
      forall i, j | 0 <= i < j < |w|
        ensures w[i] >= w[j]
      {
        if j < |w| - 1 {
          assert w[i] == init[i] && w[j] == init[j];
        } else if i < j - 1 {
          assert w[i] == init[i] && w[j - 1] == init[j - 1];
        }
      }
    }
  }

  /** A word rises and then falls, or falls and then rises, exactly when it is not monotone. */
  lemma NotMonotone(w: string)
    ensures !Monotone(w) <==>
              (exists i, j :: 0 <= i < j < |w| && w[i] < w[j]) && (exists i, j :: 0 <= i < j < |w| && w[i] > w[j])
  {
    AscendingIsSorted(w);
    DescendingIsReverseSorted(w);
  }

  /** The first whitespace index is characterised by the three facts `WordEnd` ensures. */
  lemma WordEndUnique(s: string, k: nat)
    requires k <= |s| && NoSpaces(s[..k]) && (k < |s| ==> IsSpace(s[k]))
    ensures WordEnd(s) == k
  {
  }

  lemma WordEndAppend(a: string, b: string)
    requires WordEnd(a) < |a| || (b != [] && IsSpace(b[0]))
    ensures WordEnd(a + b) == WordEnd(a)
  {
    var s := a + b;
    var k := WordEnd(a);
    assert s[..k] == a[..k];
    WordEndUnique(s, k);
  }

  /** Splitting a phrase at a whitespace character splits its word list there. */
  lemma {:induction false} WordsAppend(a: string, c: char, b: string)
    requires IsSpace(c)
    ensures Words(a + [c] + b) == Words(a) + Words(b)
    decreases |a|
  {
    var s := a + [c] + b;
    if a == [] {
      assert s[1..] == b;
    } else if IsSpace(a[0]) {
      assert s[1..] == a[1..] + [c] + b;
      WordsAppend(a[1..], c, b);
    } else {
      WordEndAppend(a, [c] + b);
      assert s == a + ([c] + b);
      var k := WordEnd(a);
      assert s[..k] == a[..k];
      assert s[k..] == a[k..] + [c] + b;
      WordsAppend(a[k..], c, b);
    }
  }

  /** A non-empty word without whitespace is its own word list. */
  lemma SingleWord(w: string)
    requires |w| >= 1 && NoSpaces(w)
    ensures Words(w) == [w]
  {
    assert WordEnd(w) == |w|;
    assert w[..|w|] == w && w[|w|..] == [];
  }

  lemma LowerAppend(a: string, c: char, b: string)
    ensures Lower(a + [c] + b) == Lower(a) + [LowerChar(c)] + Lower(b)
  {
  }

  /** Case folding keeps whitespace-free words whitespace-free. */
  lemma LowerNoSpaces(w: string)
    requires NoSpaces(w)
    ensures NoSpaces(Lower(w))
  {
  }

  /** A phrase is in order exactly when both halves around a whitespace character are. */
  lemma AlphaOrderSplit(a: string, c: char, b: string)
    requires IsSpace(c)
    ensures IsAlphaOrder(a + [c] + b) <==> IsAlphaOrder(a) && IsAlphaOrder(b)
  {
    LowerAppend(a, c, b);
    WordsAppend(Lower(a), LowerChar(c), Lower(b));
    var wa, wb := Words(Lower(a)), Words(Lower(b));
    var w := Words(Lower(a + [c] + b));
    assert w == wa + wb;
    assert forall k :: 0 <= k < |wa| ==> w[k] == wa[k];
    assert forall k :: 0 <= k < |wb| ==> w[|wa| + k] == wb[k];
    if IsAlphaOrder(a) && IsAlphaOrder(b) {
      forall k | 0 <= k < |w|
        ensures Monotone(w[k])
      {
        if k >= |wa| {
          assert w[k] == wb[k - |wa|];
        }
      }
    }
  }

  /** A single word is in order exactly when its case-folded characters are monotone. */
  lemma AlphaOrderWord(w: string)
    requires |w| >= 1 && NoSpaces(w)
    ensures IsAlphaOrder(w) <==> Monotone(Lower(w))
  {
    LowerNoSpaces(w);
    SingleWord(Lower(w));
    var words := Words(Lower(w));
    assert words == [Lower(w)];
    assert (forall k :: 0 <= k < |words| ==> Monotone(words[k])) <==> Monotone(words[0]);
  }

  /** A lower-case word that rises somewhere and falls somewhere is not monotone. */
  lemma RiseAndFall(w: string, i: nat, j: nat)
    requires forall k :: 0 <= k < |w| ==> 'a' <= w[k] <= 'z'
    requires 0 < i < |w| && w[i - 1] < w[i]
    requires 0 < j < |w| && w[j - 1] > w[j]
    ensures NoSpaces(w) && Lower(w) == w && !Monotone(w)
  {
    assert !Ascending(w) by { assert w[j - 1] > w[j]; }
    assert !Descending(w) by { assert w[i - 1] < w[i]; }
  }

  /** Case folding the input first changes nothing. */
  lemma IgnoresCase(s: string)
    ensures IsAlphaOrder(Lower(s)) == IsAlphaOrder(s)
  {
    LowerIdempotent(s);
  }

  // The assertions of exercise_files/q6b_alpha_order.rb, one lemma each.

  lemma BotLetters()
    ensures NoSpaces("bot") && Lower("bot") == "bot" && Ascending("bot")
  {
  }

  lemma Bot()
    ensures IsAlphaOrder("bot")
  {
    BotLetters();
    AlphaOrderWord("bot");
  }

  lemma ArtLetters()
    ensures NoSpaces("art") && Lower("art") == "art" && Ascending("art")
  {
  }

  lemma Art()
    ensures IsAlphaOrder("art")
  {
    ArtLetters();
    AlphaOrderWord("art");
  }

  /** Descending characters pass too. */
  lemma ToeLetters()
    ensures NoSpaces("toe") && Lower("toe") == "toe" && Descending("toe")
  {
  }

  lemma Toe()
    ensures IsAlphaOrder("toe")
  {
    ToeLetters();
    AlphaOrderWord("toe");
  }

  lemma AborTLetters()
    ensures Lower("AborT") == "abort" && Ascending("abort")
  {
  }

  lemma AborT()
    ensures IsAlphaOrder("AborT")
  {
    AlphaOrderWord("AborT");
    AborTLetters();
  }

  lemma GotLetters()
    ensures NoSpaces("got") && Lower("got") == "got" && Ascending("got")
  {
  }

  lemma Got()
    ensures IsAlphaOrder("got")
  {
    GotLetters();
    AlphaOrderWord("got");
  }

  lemma BitLetters()
    ensures NoSpaces("bit") && Lower("bit") == "bit" && Ascending("bit")
  {
  }

  lemma Bit()
    ensures IsAlphaOrder("bit")
  {
    BitLetters();
    AlphaOrderWord("bit");
  }

  lemma Are()
    ensures !IsAlphaOrder("are")
  {
    RiseAndFall("are", 1, 2);
    AlphaOrderWord("are");
  }

  lemma Boat()
    ensures !IsAlphaOrder("boat")
  {
    RiseAndFall("boat", 1, 2);
    AlphaOrderWord("boat");
  }

  /** `flee` rises from f to l and then falls from l to e. */
  lemma FleeLetters()
    ensures Lower("Flee") == "flee" && !Monotone("flee")
  {
    assert !Ascending("flee") by { assert "flee"[1] > "flee"[2]; }
    assert !Descending("flee") by { assert "flee"[0] < "flee"[1]; }
  }

  lemma Flee()
    ensures !IsAlphaOrder("Flee")
  {
    AlphaOrderWord("Flee");
    FleeLetters();
  }

  lemma CapitalToeLetters()
    ensures NoSpaces("Toe") && Lower("Toe") == "toe"
  {
  }

  lemma CapitalToe()
    ensures IsAlphaOrder("Toe")
  {
    CapitalToeLetters();
    ToeLetters();
    AlphaOrderWord("Toe");
  }

  lemma GotBit()
    ensures IsAlphaOrder("got bit")
  {
    assert "got bit" == "got" + [' '] + "bit";
    AlphaOrderSplit("got", ' ', "bit");
    Got();
    Bit();
  }

  lemma ToeGotBitWords()
    ensures "Toe got bit" == "Toe" + [' '] + "got bit"
  {
  }

  lemma ToeGotBit()
    ensures IsAlphaOrder("Toe got bit")
  {
    CapitalToe();
    GotBit();
    AlphaOrderSplit("Toe", ' ', "got bit");
    ToeGotBitWords();
  }

  lemma Well()
    ensures !IsAlphaOrder("well")
  {
    RiseAndFall("well", 2, 1);
    AlphaOrderWord("well");
  }

  lemma AllIsWellWords()
    ensures "All is well" == "All is" + [' '] + "well"
  {
  }

  lemma AllIsWell()
    ensures !IsAlphaOrder("All is well")
  {
    Well();
    AlphaOrderSplit("All is", ' ', "well");
    AllIsWellWords();
  }

  lemma FoodLetters()
    ensures Lower("Food") == "food" && !Monotone("food")
  {
    assert !Ascending("food") by { assert "food"[2] > "food"[3]; }
    assert !Descending("food") by { assert "food"[0] < "food"[1]; }
  }

  lemma CapitalFood()
    ensures !IsAlphaOrder("Food")
  {
    AlphaOrderWord("Food");
    FoodLetters();
  }

  lemma FoodIsGoodWords()
    ensures "Food is good" == "Food" + [' '] + "is good"
  {
  }

  lemma FoodIsGood()
    ensures !IsAlphaOrder("Food is good")
  {
    CapitalFood();
    AlphaOrderSplit("Food", ' ', "is good");
    FoodIsGoodWords();
  }
}

/**
  `is_one_char_diff(w1, w2)`: ignoring case, the two words have the same
  length and differ in at most one position.
 */
module OneCharDiff {
  import opened RubyValues

  /** The number of positions at which a and b differ. */
  function Mismatches(a: string, b: string): nat
    requires |a| == |b|
  {
    if a == [] then 0
    else
      Mismatches(a[..|a| - 1], b[..|b| - 1]) + (if a[|a| - 1] != b[|b| - 1] then 1 else 0)
  }

  /**
    `is_one_char_diff(w1, w2)`, counting mismatches: the words match exactly
    when they are equally long and, case folded, no two positions differ.
   */
  function IsOneCharDiff(w1: string, w2: string): (r: bool)
    ensures r <==> |w1| == |w2| && AtMostOneDifference(Lower(w1), Lower(w2))
  {
    if |w1| != |w2| then false
    else
      AtMostOneMismatch(Lower(w1), Lower(w2));
      Mismatches(Lower(w1), Lower(w2)) <= 1
  }

  /** No two distinct positions both differ. */
  predicate AtMostOneDifference(a: string, b: string)
    requires |a| == |b|
  {
    forall i, j :: 0 <= i < j < |a| ==> a[i] == b[i] || a[j] == b[j]
  }

  /** No mismatches means equal strings. */
  lemma {:induction false} NoMismatches(a: string, b: string)
    requires |a| == |b|
    ensures Mismatches(a, b) == 0 <==> a == b
  {
    if a != [] {
      var n := |a| - 1;
      NoMismatches(a[..n], b[..n]);
      assert a == a[..n] + [a[n]] && b == b[..n] + [b[n]];
    }
  }

  /** Counting at most one mismatch is the same as no two positions differing. */
  lemma {:induction false} AtMostOneMismatch(a: string, b: string)
    requires |a| == |b|
    ensures Mismatches(a, b) <= 1 <==> AtMostOneDifference(a, b)
  {
    if a != [] {
      var n := |a| - 1;
      var a', b' := a[..n], b[..n];
      AtMostOneMismatch(a', b');
      NoMismatches(a', b');
      if a[n] == b[n] {
        assert AtMostOneDifference(a, b) <==> AtMostOneDifference(a', b') by {
          if AtMostOneDifference(a', b') {
            forall i, j | 0 <= i < j < |a|
              ensures a[i] == b[i] || a[j] == b[j]
            {
              if j < n {
                assert a[i] == a'[i] && a[j] == a'[j] && b[i] == b'[i] && b[j] == b'[j];
              }
            }
          }
        }
      } else {
        assert AtMostOneDifference(a, b) <==> a' == b' by {
          if AtMostOneDifference(a, b) {
            forall i | 0 <= i < n
              ensures a'[i] == b'[i]
            {
              assert a'[i] == a[i] && b'[i] == b[i];
            }
          }
        }
      }
    }
  }

  /** Words of different lengths never match. */
  lemma DifferentLengths(w1: string, w2: string)
    requires |w1| != |w2|
    ensures !IsOneCharDiff(w1, w2)
  {
  }

  /** Two differing positions (after case folding) rule a match out. */
  lemma TwoDifferences(w1: string, w2: string, i: nat, j: nat)
    requires |w1| == |w2| && i < j < |w1|
    requires LowerChar(w1[i]) != LowerChar(w2[i]) && LowerChar(w1[j]) != LowerChar(w2[j])
    ensures !IsOneCharDiff(w1, w2)
  {
  }

  /** Changing one character of a word always gives a match, as does the word itself. */
  lemma ChangeOneChar(w: string, k: nat, c: char)
    requires k < |w|
    ensures IsOneCharDiff(w, w[k := c])
    ensures IsOneCharDiff(w, w)
  {
    var a, b := Lower(w), Lower(w[k := c]);
    assert AtMostOneDifference(a, b) by {
      forall i, j | 0 <= i < j < |a|
        ensures a[i] == b[i] || a[j] == b[j]
      {
        assert i != k || j != k;
      }
    }
    NoMismatches(Lower(w), Lower(w));
  }

  /** Case is ignored on either side. */
  lemma IgnoresCase(w1: string, w2: string)
    ensures IsOneCharDiff(Lower(w1), w2) == IsOneCharDiff(w1, w2)
    ensures IsOneCharDiff(w1, Lower(w2)) == IsOneCharDiff(w1, w2)
  {
    LowerIdempotent(w1);
    LowerIdempotent(w2);
  }

  /** The relation is symmetric. */
  lemma Symmetric(w1: string, w2: string)
    ensures IsOneCharDiff(w1, w2) == IsOneCharDiff(w2, w1)
  {
  }

  // The assertions of exercise_files/q6a_one_char_diff.rb, one lemma each.

  lemma BarCar()
    ensures IsOneCharDiff("bar", "car")
  {
    assert Lower("bar") == "bar" && Lower("car") == "car";
    assert "bar"[..2] == "ba" && "car"[..2] == "ca";
    assert "ba"[..1] == "b" && "ca"[..1] == "c";
    assert "ba"[..1][..0] == [];
  }

  lemma BarBat()
    ensures IsOneCharDiff("bar", "Bat")
  {
    assert Lower("bar") == "bar" && Lower("Bat") == "bat";
    ChangeOneChar("bar", 2, 't');
    IgnoresCase("bar", "Bat");
    assert "bar"[2 := 't'] == "bat";
  }

  lemma BarBar()
    ensures IsOneCharDiff("bar", "bar")
  {
    ChangeOneChar("bar", 0, 'b');
  }

  lemma BarBaZ()
    ensures IsOneCharDiff("bar", "baZ")
  {
    ChangeOneChar("bar", 2, 'Z');
    assert "bar"[2 := 'Z'] == "baZ";
  }

  lemma AB()
    ensures IsOneCharDiff("A", "b")
  {
    ChangeOneChar("A", 0, 'b');
    assert "A"[0 := 'b'] == "b";
  }

  lemma AEmpty()
    ensures !IsOneCharDiff("a", "")
  {
  }

  lemma BarBark()
    ensures !IsOneCharDiff("bar", "bark")
  {
  }

  lemma BarArt()
    ensures !IsOneCharDiff("bar", "Art")
  {
    TwoDifferences("bar", "Art", 0, 1);
  }

  lemma BarBot()
    ensures !IsOneCharDiff("bar", "bot")
  {
    TwoDifferences("bar", "bot", 1, 2);
  }

  lemma ABEmpty()
    ensures !IsOneCharDiff("ab", "")
  {
  }

  lemma FoodGood()
    ensures IsOneCharDiff("Food", "good")
  {
    ChangeOneChar("Food", 0, 'g');
    assert "Food"[0 := 'g'] == "good";
  }

  lemma FoodFold()
    ensures IsOneCharDiff("food", "fold")
  {
    ChangeOneChar("food", 2, 'l');
    assert "food"[2 := 'l'] == "fold";
  }

  lemma FoodFoody()
    ensures !IsOneCharDiff("food", "Foody")
  {
  }

  lemma FoodFled()
    ensures !IsOneCharDiff("food", "fled")
  {
    TwoDifferences("food", "fled", 1, 2);
  }
}

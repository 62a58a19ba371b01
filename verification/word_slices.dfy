/**
  `word_slices(s)`: every contiguous slice of the word that is at least two
  characters long, grouped by where it starts and, within a start, from the
  shortest to the whole rest of the word. A word shorter than two characters
  is returned on its own.
 */
module WordSlices {

  /** The slice `w[start..end]`, half-open. */
  datatype Span = Span(start: nat, end: nat)

  /** A slice of a word of length n that is at least two characters long. */
  predicate IsSlice(n: nat, sp: Span)
  {
    sp.start + 2 <= sp.end <= n
  }

  /** Start order first, then length order: the order in which slices are listed. */
  predicate Before(a: Span, b: Span)
  {
    a.start < b.start || (a.start == b.start && a.end < b.end)
  }

  /** The spans `start..end`, `start..end+1`, ..., `start..n`. */
  function SpansAt(n: nat, start: nat, end: nat): (r: seq<Span>)
    ensures |r| == if end > n then 0 else n - end + 1
    ensures forall k :: 0 <= k < |r| ==> r[k] == Span(start, end + k)
    decreases n + 1 - end
  {
    if end > n then [] else [Span(start, end)] + SpansAt(n, start, end + 1)
  }

  /** The spans of length at least two that start at or after `start`, in listing order. */
  function SpansFrom(n: nat, start: nat): (r: seq<Span>)
    ensures forall k :: 0 <= k < |r| ==> IsSlice(n, r[k]) && start <= r[k].start
    decreases n - start
  {
    if start + 2 > n then [] else SpansAt(n, start, start + 2) + SpansFrom(n, start + 1)
  }

  /** All spans of length at least two of a word of length n, in listing order. */
  function Spans(n: nat): seq<Span>
  {
    SpansFrom(n, 0)
  }

  /** `word_slices(s)`. */
  function WordSlices(w: string): (r: seq<string>)
    ensures |w| < 2 ==> r == [w]
    ensures |w| >= 2 ==> forall k :: 0 <= k < |r| ==> 2 <= |r[k]|
  {
    if |w| < 2 then [w]
    else
      var sp := Spans(|w|);
      seq(|sp|, k requires 0 <= k < |sp| => w[sp[k].start..sp[k].end])
  }

  /** Every element of the result is the slice its span names. */
  lemma WordSlicesAreSlices(w: string)
    requires |w| >= 2
    ensures |WordSlices(w)| == |Spans(|w|)|
    ensures forall k :: 0 <= k < |WordSlices(w)| ==>
              IsSlice(|w|, Spans(|w|)[k]) && WordSlices(w)[k] == w[Spans(|w|)[k].start..Spans(|w|)[k].end]
  {
  }

  /** Spans are listed strictly in start order, then length order, so none repeats. */
  lemma {:induction false} SpansFromOrdered(n: nat, start: nat)
    ensures forall a, b :: 0 <= a < b < |SpansFrom(n, start)| ==> Before(SpansFrom(n, start)[a], SpansFrom(n, start)[b])
    decreases n - start
  {
    if start + 2 <= n {
      SpansFromOrdered(n, start + 1);
      var head := SpansAt(n, start, start + 2);
      var tail := SpansFrom(n, start + 1);
      var r := SpansFrom(n, start);
      assert r == head + tail;
      forall a, b | 0 <= a < b < |r|
        ensures Before(r[a], r[b])
      {
        if b < |head| {
          assert r[a] == head[a] && r[b] == head[b];
        } else if a < |head| {
          assert r[a] == head[a] && r[b] == tail[b - |head|];
        } else {
          assert r[a] == tail[a - |head|] && r[b] == tail[b - |head|];
        }
      }
    }
  }

  lemma SpansOrdered(n: nat)
    ensures forall a, b :: 0 <= a < b < |Spans(n)| ==> Before(Spans(n)[a], Spans(n)[b])
  {
    SpansFromOrdered(n, 0);
  }

  /** Every slice of length at least two starting at or after `start` is listed. */
  lemma {:induction false} SpansFromComplete(n: nat, start: nat, sp: Span)
    requires IsSlice(n, sp) && start <= sp.start
    ensures sp in SpansFrom(n, start)
    decreases n - start
  {
    var head := SpansAt(n, start, start + 2);
    assert SpansFrom(n, start) == head + SpansFrom(n, start + 1);
    if sp.start == start {
      assert head[sp.end - start - 2] == sp;
    } else {
      SpansFromComplete(n, start + 1, sp);
    }
  }

  /** Every slice of length at least two appears in the result. */
  lemma SpansComplete(n: nat)
    ensures forall sp :: IsSlice(n, sp) ==> sp in Spans(n)
  {
    forall sp | IsSlice(n, sp)
      ensures sp in Spans(n)
    {
      SpansFromComplete(n, 0, sp);
    }
  }

  /** m characters from `start` onward give m(m-1)/2 spans. */
  lemma {:induction false} SpansFromCount(n: nat, start: nat)
    requires start <= n
    ensures 2 * |SpansFrom(n, start)| == (n - start) * (n - start - 1)
    decreases n - start
  {
    if start + 2 <= n {
      SpansFromCount(n, start + 1);
      var m := n - start;
      assert 2 * |SpansFrom(n, start)| == 2 * (m - 1) + (m - 1) * (m - 2);
      assert 2 * (m - 1) + (m - 1) * (m - 2) == (m - 1) * m;
    }
  }

  /** A word of n >= 2 characters has n(n-1)/2 slices. */
  lemma WordSlicesCount(w: string)
    requires |w| >= 2
    ensures |WordSlices(w)| == |w| * (|w| - 1) / 2
  {
    SpansFromCount(|w|, 0);
  }

  /** The first slice is the first two characters, and the whole word closes the first group. */
  lemma WordSlicesFirstGroup(w: string)
    requires |w| >= 2
    ensures WordSlices(w)[0] == w[..2]
    ensures WordSlices(w)[|w| - 2] == w
  {
    var head := SpansAt(|w|, 0, 2);
    assert Spans(|w|) == head + SpansFrom(|w|, 1);
    assert Spans(|w|)[|w| - 2] == head[|w| - 2] == Span(0, |w|);
  }

  // The assertions of exercise_files/q4c_word_slices.rb, one lemma each.

  lemma SlicesOfI()
    ensures WordSlices("i") == ["i"]
  {
  }

  lemma SlicesOfTo()
    ensures WordSlices("to") == ["to"]
  {
    assert Spans(2) == [Span(0, 2)];
    var w := "to";
    var r := WordSlices(w);
    assert |r| == 1;
    assert r[0] == w[0..2] == "to";
  }

  lemma SlicesOfAre()
    ensures WordSlices("are") == ["ar", "are", "re"]
  {
    assert SpansFrom(3, 1) == [Span(1, 3)];
    assert Spans(3) == [Span(0, 2), Span(0, 3), Span(1, 3)];
    var w := "are";
    var r := WordSlices(w);
    assert |r| == 3;
    assert r[0] == w[0..2] == "ar";
    assert r[1] == w[0..3] == "are";
    assert r[2] == w[1..3] == "re";
  }

  lemma SlicesOfBoat()
    ensures WordSlices("boat") == ["bo", "boa", "boat", "oa", "oat", "at"]
  {
    assert SpansFrom(4, 2) == [Span(2, 4)];
    assert SpansFrom(4, 1) == [Span(1, 3), Span(1, 4), Span(2, 4)];
    assert Spans(4) == [Span(0, 2), Span(0, 3), Span(0, 4), Span(1, 3), Span(1, 4), Span(2, 4)];
    var w := "boat";
    var r := WordSlices(w);
    assert |r| == 6;
    assert r[0] == w[0..2] == "bo";
    assert r[1] == w[0..3] == "boa";
    assert r[2] == w[0..4] == "boat";
    assert r[3] == w[1..3] == "oa";
    assert r[4] == w[1..4] == "oat";
    assert r[5] == w[2..4] == "at";
  }

  lemma SpansOfFive()
    ensures Spans(5) == [Span(0, 2), Span(0, 3), Span(0, 4), Span(0, 5),
                         Span(1, 3), Span(1, 4), Span(1, 5), Span(2, 4), Span(2, 5), Span(3, 5)]
  {
    assert SpansFrom(5, 3) == [Span(3, 5)];
    assert SpansFrom(5, 2) == [Span(2, 4), Span(2, 5), Span(3, 5)];
    assert SpansFrom(5, 1) == [Span(1, 3), Span(1, 4), Span(1, 5), Span(2, 4), Span(2, 5), Span(3, 5)];
  }

  lemma TableSlicesFromFirst()
    ensures |WordSlices("table")| == 10
    ensures WordSlices("table")[..4] == ["ta", "tab", "tabl", "table"]
  {
    SpansOfFive();
    var w := "table";
    var r := WordSlices(w);
    assert r[0] == w[0..2] == "ta";
    assert r[1] == w[0..3] == "tab";
    assert r[2] == w[0..4] == "tabl";
    assert r[3] == w[0..5] == "table";
  }

  lemma TableSlicesFromSecond()
    ensures |WordSlices("table")| == 10
    ensures WordSlices("table")[4..] == ["ab", "abl", "able", "bl", "ble", "le"]
  {
    SpansOfFive();
    var w := "table";
    var r := WordSlices(w);
    assert r[4] == w[1..3] == "ab";
    assert r[5] == w[1..4] == "abl";
    assert r[6] == w[1..5] == "able";
    assert r[7] == w[2..4] == "bl";
    assert r[8] == w[2..5] == "ble";
    assert r[9] == w[3..5] == "le";
  }

  lemma SlicesOfTable()
    ensures WordSlices("table") == ["ta", "tab", "tabl", "table", "ab", "abl", "able", "bl", "ble", "le"]
  {
    TableSlicesFromFirst();
    TableSlicesFromSecond();
    var r := WordSlices("table");
    assert r == r[..4] + r[4..];
  }
}

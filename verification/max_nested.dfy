/**
  `max_nested_braces(expr)`: the deepest nesting of `{ }` groups in an
  expression, or -1 when the braces are not properly nested: a `}` with no
  open group, a group still open at the end, or an empty group `{}`.
 */
module MaxNested {

  /** The number of occurrences of c in s. */
  function Count(s: string, c: char): (r: nat)
    ensures r <= |s|
  {
    if s == [] then 0 else Count(s[..|s| - 1], c) + (if s[|s| - 1] == c then 1 else 0)
  }

  /** The nesting depth after reading s: groups opened minus groups closed. */
  function Depth(s: string): int
  {
    Count(s, '{') - Count(s, '}')
  }

  /** Reading one more character moves the depth by one at a brace and not at all otherwise. */
  lemma DepthStep(s: string, i: nat)
    requires i < |s|
    ensures Depth(s[..i + 1]) ==
              Depth(s[..i]) + (if s[i] == '{' then 1 else if s[i] == '}' then -1 else 0)
  {
    assert s[..i + 1][..i] == s[..i];
  }

  /** The depth never drops below zero within the first i characters. */
  predicate NonNegativeUpTo(s: string, i: nat)
  {
    forall j :: 0 <= j <= i && j <= |s| ==> Depth(s[..j]) >= 0
  }

  /** An empty group `{}` starts at position i. */
  predicate EmptyPairAt(s: string, i: nat)
  {
    i + 1 < |s| && s[i] == '{' && s[i + 1] == '}'
  }

  predicate NoEmptyPairBefore(s: string, i: nat)
  {
    forall j: nat :: j < i ==> !EmptyPairAt(s, j)
  }

  /** m is the largest depth reached after reading at most i characters. */
  predicate MaxUpTo(s: string, i: nat, m: int)
    requires i <= |s|
  {
    (exists j :: 0 <= j <= i && Depth(s[..j]) == m) &&
    (forall j :: 0 <= j <= i ==> Depth(s[..j]) <= m)
  }

  /** Properly nested: no close without an open, nothing left open, no empty group. */
  predicate WellNested(s: string)
  {
    NonNegativeUpTo(s, |s|) && Depth(s) == 0 && NoEmptyPairBefore(s, |s|)
  }

  /** The reference meaning of `max_nested_braces(s) == r`. */
  predicate Meets(s: string, r: int)
  {
    (r == -1 <==> !WellNested(s)) && (r != -1 ==> MaxUpTo(s, |s|, r))
  }

  function Max(a: int, b: int): int
  {
    if a < b then b else a
  }

  /**
    The left-to-right scan from position i with the current depth and the
    deepest depth seen so far.
   */
  function Scan(s: string, i: nat, depth: int, best: int): int
    requires i <= |s|
    decreases |s| - i
  {
    if i == |s| then (if depth == 0 then best else -1)
    else if s[i] == '{' then
      if i + 1 < |s| && s[i + 1] == '}' then -1
      else Scan(s, i + 1, depth + 1, Max(best, depth + 1))
    else if s[i] == '}' then
      if depth == 0 then -1 else Scan(s, i + 1, depth - 1, best)
    else Scan(s, i + 1, depth, best)
  }

  /** `max_nested_braces(expr)`, as a function: its answer meets the reference meaning. */
  function MaxNested(expr: string): (r: int)
    ensures Meets(expr, r)
  {
    assert expr[..0] == [];
    ScanMeets(expr, 0, 0, 0);
    Scan(expr, 0, 0, 0)
  }

  /** What the scan knows after reading the first i characters. */
  predicate ScanState(s: string, i: nat, depth: int, best: int)
  {
    i <= |s| && depth == Depth(s[..i]) && NonNegativeUpTo(s, i) &&
    NoEmptyPairBefore(s, i) && MaxUpTo(s, i, best)
  }

  /** Reading one character that neither opens an empty group nor closes an unopened one. */
  lemma ScanStep(s: string, i: nat, depth: int, best: int)
    requires ScanState(s, i, depth, best) && i < |s|
    requires !EmptyPairAt(s, i) && Depth(s[..i + 1]) >= 0
    ensures ScanState(s, i + 1, Depth(s[..i + 1]), Max(best, Depth(s[..i + 1])))
  {
    var d := Depth(s[..i + 1]);
    assert MaxUpTo(s, i + 1, Max(best, d)) by {
      if best < d {
        assert Depth(s[..i + 1]) == d;
      } else {
        var j :| 0 <= j <= i && Depth(s[..j]) == best;
      }
    }
  }

  /** Away from an empty group and an unopened close, the scan moves on to the next state. */
  lemma ScanUnfold(s: string, i: nat, depth: int, best: int)
    requires i < |s| && depth == Depth(s[..i]) && depth <= best
    requires !EmptyPairAt(s, i) && !(s[i] == '}' && depth == 0)
    ensures Scan(s, i, depth, best) == Scan(s, i + 1, Depth(s[..i + 1]), Max(best, Depth(s[..i + 1])))
  {
    DepthStep(s, i);
  }

  /** The scan, resumed from any state it can reach, gives the reference answer. */
  lemma {:induction false} ScanMeets(s: string, i: nat, depth: int, best: int)
    requires ScanState(s, i, depth, best)
    ensures Meets(s, Scan(s, i, depth, best))
    decreases |s| - i
  {
    if i == |s| {
      ScanMeetsAtEnd(s, depth, best);
    } else {
      DepthStep(s, i);
      if EmptyPairAt(s, i) {
        assert Scan(s, i, depth, best) == -1;
        EmptyPairMeets(s, i);
      } else if s[i] == '}' && depth == 0 {
        assert Scan(s, i, depth, best) == -1;
        NegativeMeets(s, i + 1);
      } else {
        ScanStep(s, i, depth, best);
        assert Depth(s[..i]) <= best;
        ScanUnfold(s, i, depth, best);
        ScanMeets(s, i + 1, Depth(s[..i + 1]), Max(best, Depth(s[..i + 1])));
      }
    }
  }

  /** An empty group makes -1 the reference answer. */
  lemma EmptyPairMeets(s: string, i: nat)
    requires EmptyPairAt(s, i)
    ensures Meets(s, -1)
  {
  }

  /** A prefix of negative depth makes -1 the reference answer. */
  lemma NegativeMeets(s: string, i: nat)
    requires i <= |s| && Depth(s[..i]) < 0
    ensures Meets(s, -1)
  {
  }

  /** At the end of the text the scan's verdict is the reference answer. */
  lemma ScanMeetsAtEnd(s: string, depth: int, best: int)
    requires ScanState(s, |s|, depth, best)
    ensures Meets(s, Scan(s, |s|, depth, best))
  {
    assert s[..|s|] == s;
    assert s[..0] == [];
  }

  /** The reference meaning pins the answer down: at most one r meets it. */
  lemma MeetsUnique(s: string, r1: int, r2: int)
    requires Meets(s, r1) && Meets(s, r2)
    ensures r1 == r2
  {
    if r1 != -1 && r2 != -1 {
      var j1 :| 0 <= j1 <= |s| && Depth(s[..j1]) == r1;
      var j2 :| 0 <= j2 <= |s| && Depth(s[..j2]) == r2;
      assert r1 <= r2 && r2 <= r1;
    }
  }

  /** `MaxNested` is exactly the reference answer. */
  lemma MaxNestedMeets(s: string, r: int)
    ensures Meets(s, MaxNested(s))
    ensures Meets(s, r) <==> r == MaxNested(s)
  {
    if Meets(s, r) {
      MeetsUnique(s, r, MaxNested(s));
    }
  }

  /** `max_nested_braces(expr)`: one scan with a depth counter and a running maximum. */
  method MaxNestedBraces(expr: string) returns (r: int)
    ensures Meets(expr, r)
    ensures r == MaxNested(expr)
  {
    var depth, best := 0, 0;
    var i := 0;
    assert expr[..0] == [];
    while i < |expr|
      invariant 0 <= i <= |expr|
      invariant ScanState(expr, i, depth, best)
      invariant Scan(expr, i, depth, best) == MaxNested(expr)
    {
      var c := expr[i];
      if c == '{' && i + 1 < |expr| && expr[i + 1] == '}' {
        MaxNestedMeets(expr, -1);
        return -1;
      } else if c == '}' && depth == 0 {
        MaxNestedMeets(expr, -1);
        return -1;
      }
      DepthStep(expr, i);
      ScanStep(expr, i, depth, best);
      if c == '{' {
        depth := depth + 1;
        if depth > best {
          best := depth;
        }
      } else if c == '}' {
        depth := depth - 1;
      }
      i := i + 1;
    }
    r := if depth == 0 then best else -1;
    MaxNestedMeets(expr, r);
  }

  /** Counting in a prefix never counts more than in the whole string. */
  lemma {:induction false} CountPrefix(s: string, i: nat, c: char)
    requires i <= |s|
    ensures Count(s[..i], c) <= Count(s, c)
    decreases |s|
  {
    if i < |s| {
      assert s[..i] == s[..|s| - 1][..i];
      CountPrefix(s[..|s| - 1], i, c);
    } else {
      assert s[..i] == s;
    }
  }

  lemma {:induction false} CountAbsent(s: string, c: char)
    requires c !in s
    ensures Count(s, c) == 0
  {
    if s != [] {
      assert forall x :: x in s[..|s| - 1] ==> x in s;
      CountAbsent(s[..|s| - 1], c);
    }
  }

  /** The answer is -1 or a depth between 0 and the number of `{`. */
  lemma Bounds(s: string)
    ensures MaxNested(s) == -1 || 0 <= MaxNested(s) <= Count(s, '{')
  {
    var r := MaxNested(s);
    MaxNestedMeets(s, r);
    if r != -1 {
      assert s[..0] == [];
      var j :| 0 <= j <= |s| && Depth(s[..j]) == r;
      CountPrefix(s, j, '{');
    }
  }

  /** An expression without braces has depth 0. */
  lemma NoBraces(s: string)
    requires '{' !in s && '}' !in s
    ensures MaxNested(s) == 0
  {
    forall j | 0 <= j <= |s|
      ensures Depth(s[..j]) == 0
    {
      assert forall x :: x in s[..j] ==> x in s;
      CountAbsent(s[..j], '{');
      CountAbsent(s[..j], '}');
    }
    assert s[..|s|] == s;
    assert s[..0] == [];
    MaxNestedMeets(s, 0);
  }

  /** A group still open at the end gives -1. */
  lemma Unclosed(s: string)
    requires Depth(s) > 0
    ensures MaxNested(s) == -1
  {
    MaxNestedMeets(s, -1);
  }

  /** A `}` that takes the depth below zero gives -1. */
  lemma Unopened(s: string, i: nat)
    requires i <= |s| && Depth(s[..i]) < 0
    ensures MaxNested(s) == -1
  {
    MaxNestedMeets(s, -1);
  }

  /** An empty group anywhere gives -1. */
  lemma EmptyGroup(s: string, i: nat)
    requires EmptyPairAt(s, i)
    ensures MaxNested(s) == -1
  {
    MaxNestedMeets(s, -1);
  }

  // The assertions of exercise_files/q6c_max_nested.rb, one lemma each.

  lemma Plain()
    ensures MaxNested("a*b") == 0
  {
    NoBraces("a*b");
  }

  lemma OpenAtEnd()
    ensures MaxNested("a*b{") == -1
  {
    var s := "a*b{";
    assert Scan(s, 4, 1, 1) == -1;
    assert Scan(s, 2, 0, 0) == -1;
  }

  lemma OneGroup()
    ensures MaxNested("a*{b+c}") == 1
  {
    var s := "a*{b+c}";
    assert Scan(s, 6, 1, 1) == 1;
    assert Scan(s, 4, 1, 1) == 1;
    assert Scan(s, 2, 0, 0) == 1;
  }

  /** Two sibling groups are depth 1, not 2. */
  lemma TwoSiblings()
    ensures MaxNested("{a+2}*{b+c}") == 1
  {
    var s := "{a+2}*{b+c}";
    assert Scan(s, 10, 1, 1) == 1;
    assert Scan(s, 8, 1, 1) == 1;
    assert Scan(s, 6, 0, 1) == 1;
    assert Scan(s, 4, 1, 1) == 1;
    assert Scan(s, 2, 1, 1) == 1;
  }

  lemma TwoDeep()
    ensures MaxNested("a*{b+c*{e*3.14}}") == 2
  {
    var s := "a*{b+c*{e*3.14}}";
    assert Scan(s, 16, 0, 2) == 2;
    assert Scan(s, 14, 2, 2) == 2;
    assert Scan(s, 12, 2, 2) == 2;
    assert Scan(s, 10, 2, 2) == 2;
    assert Scan(s, 8, 2, 2) == 2;
    assert Scan(s, 6, 1, 1) == 2;
    assert Scan(s, 4, 1, 1) == 2;
    assert Scan(s, 2, 0, 0) == 2;
  }

  lemma ExtraCloseAtEnd()
    ensures MaxNested("a*{b+c*{e*3.14}}}") == -1
  {
    var s := "a*{b+c*{e*3.14}}}";
    assert Scan(s, 16, 0, 2) == -1;
    assert Scan(s, 14, 2, 2) == -1;
    assert Scan(s, 12, 2, 2) == -1;
    assert Scan(s, 10, 2, 2) == -1;
    assert Scan(s, 8, 2, 2) == -1;
    assert Scan(s, 6, 1, 1) == -1;
    assert Scan(s, 4, 1, 1) == -1;
    assert Scan(s, 2, 0, 0) == -1;
  }

  lemma ExtraClose()
    ensures MaxNested("a*{b+c}}") == -1
  {
    var s := "a*{b+c}}";
    assert Scan(s, 6, 1, 1) == -1;
    assert Scan(s, 4, 1, 1) == -1;
    assert Scan(s, 2, 0, 0) == -1;
  }

  lemma CloseFirst()
    ensures MaxNested("}a+b{") == -1
  {
    assert Depth("}a+b{"[..1]) < 0 by {
      assert "}a+b{"[..1] == "}";
    }
    Unopened("}a+b{", 1);
  }

  lemma NestedSiblings()
    ensures MaxNested("{{a+2}*{b+c}+e}") == 2
  {
    var s := "{{a+2}*{b+c}+e}";
    assert Scan(s, 14, 1, 2) == 2;
    assert Scan(s, 12, 1, 2) == 2;
    assert Scan(s, 10, 2, 2) == 2;
    assert Scan(s, 8, 2, 2) == 2;
    assert Scan(s, 6, 1, 2) == 2;
    assert Scan(s, 4, 2, 2) == 2;
    assert Scan(s, 2, 2, 2) == 2;
  }

  lemma ThreeDeep()
    ensures MaxNested("{{a+2}*{b+{c*d}}+e}") == 3
  {
    var s := "{{a+2}*{b+{c*d}}+e}";
    assert Scan(s, 18, 1, 3) == 3;
    assert Scan(s, 16, 1, 3) == 3;
    assert Scan(s, 14, 3, 3) == 3;
    assert Scan(s, 12, 3, 3) == 3;
    assert Scan(s, 10, 2, 2) == 3;
    assert Scan(s, 8, 2, 2) == 3;
    assert Scan(s, 6, 1, 2) == 3;
    assert Scan(s, 4, 2, 2) == 3;
    assert Scan(s, 2, 2, 2) == 3;
  }

  lemma FourDeepTail()
    ensures Scan("{{a+2}*{{b+{c*d}}+e*d}}", 12, 4, 4) == 4
  {
    var s := "{{a+2}*{{b+{c*d}}+e*d}}";
    assert Scan(s, 22, 1, 4) == 4;
    assert Scan(s, 20, 2, 4) == 4;
    assert Scan(s, 18, 2, 4) == 4;
    assert Scan(s, 16, 3, 4) == 4;
    assert Scan(s, 14, 4, 4) == 4;
  }

  lemma FourDeep()
    ensures MaxNested("{{a+2}*{{b+{c*d}}+e*d}}") == 4
  {
    var s := "{{a+2}*{{b+{c*d}}+e*d}}";
    FourDeepTail();
    assert Scan(s, 10, 3, 3) == 4;
    assert Scan(s, 8, 2, 2) == 4;
    assert Scan(s, 6, 1, 2) == 4;
    assert Scan(s, 4, 2, 2) == 4;
    assert Scan(s, 2, 2, 2) == 4;
  }

  lemma OneCloseTooManyTail()
    ensures Scan("{{a+2}*{{b}+{c*d}}+e*d}}", 12, 2, 3) == -1
  {
    var s := "{{a+2}*{{b}+{c*d}}+e*d}}";
    assert Scan(s, 22, 1, 3) == -1;
    assert Scan(s, 20, 1, 3) == -1;
    assert Scan(s, 18, 1, 3) == -1;
    assert Scan(s, 16, 3, 3) == -1;
    assert Scan(s, 14, 3, 3) == -1;
  }

  lemma OneCloseTooMany()
    ensures MaxNested("{{a+2}*{{b}+{c*d}}+e*d}}") == -1
  {
    var s := "{{a+2}*{{b}+{c*d}}+e*d}}";
    OneCloseTooManyTail();
    assert Scan(s, 10, 3, 3) == -1;
    assert Scan(s, 8, 2, 2) == -1;
    assert Scan(s, 6, 1, 2) == -1;
    assert Scan(s, 4, 2, 2) == -1;
    assert Scan(s, 2, 2, 2) == -1;
  }

  lemma EmptyAtEnd()
    ensures MaxNested("a*b+{}") == -1
  {
    EmptyGroup("a*b+{}", 4);
  }

  /** An empty group inside an otherwise nested expression. */
  lemma EmptyInside()
    ensures MaxNested("a*{b+{}+c*{e*3.14}}") == -1
  {
    EmptyGroup("a*{b+{}+c*{e*3.14}}", 5);
  }
}

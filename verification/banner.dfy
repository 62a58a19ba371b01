/**
  The three-line banner both `greeting` programs print: a border of the
  style string repeated `msg.size + 2*fill` times, the message centred in
  that width, and the border again.
 */
module Banner {
  import opened RubyValues

  /** What `String#*` raises for a negative count. */
  const NegativeArgument := ArgumentError("negative argument")

  /** n spaces. */
  function Spaces(n: nat): (r: string)
    ensures |r| == n
    ensures forall k :: 0 <= k < n ==> r[k] == ' '
  {
    RepeatChar(' ', n);
    Repeat(" ", n)
  }

  /**
    `s.center(width)`: s padded with spaces to `width`, half the padding on
    each side and the odd space on the right; s itself when it is already at
    least that wide.
   */
  function Center(s: string, width: int): (r: string)
    ensures |r| == if width > |s| then width else |s|
    ensures var left := (|r| - |s|) / 2;
            r[left..left + |s|] == s &&
            (forall k :: 0 <= k < left ==> r[k] == ' ') &&
            (forall k :: left + |s| <= k < |r| ==> r[k] == ' ')
  {
    if width <= |s| then s
    else
      var left := (width - |s|) / 2;
      var r := Spaces(left) + s + Spaces(width - |s| - left);
      assert r[left..left + |s|] == s;
      r
  }

  /**
    `greeting(msg, style_char, fill)`: the lines border, centred message,
    border; `String#*` fails when the width `msg.size + 2*fill` is negative.
   */
  function Greeting(msg: string, style: string, fill: int): (r: Result<seq<string>>)
    ensures r.Failure? <==> |msg| + 2 * fill < 0
    ensures r.Failure? ==> r.error == NegativeArgument
    ensures r.Success? ==>
              |r.value| == 3 && r.value[0] == r.value[2] &&
              |r.value[0]| == |style| * (|msg| + 2 * fill) &&
              r.value[1] == Center(msg, |msg| + 2 * fill)
  {
    var width := |msg| + 2 * fill;
    if width < 0 then Failure(NegativeArgument)
    else
      var border := Repeat(style, width);
      Success([border, Center(msg, width), border])
  }

  lemma MulSucc(a: nat, m: nat)
    ensures (a + 1) * m == a * m + m
  {
  }

  lemma SliceAfter(s: string, t: string, lo: nat, hi: nat)
    requires |s| <= lo <= hi <= |s| + |t|
    ensures (s + t)[lo..hi] == t[lo - |s|..hi - |s|]
  {
  }

  /** `s * n` is n consecutive copies of s. */
  lemma {:induction false} RepeatBlocks(s: string, n: nat, j: nat)
    requires j < n
    ensures (j + 1) * |s| <= |Repeat(s, n)|
    ensures Repeat(s, n)[j * |s|..(j + 1) * |s|] == s
  {
    var m := |s|;
    var t := Repeat(s, n - 1);
    assert Repeat(s, n) == s + t;
    MulSucc(j, m);
    if j > 0 {
      RepeatBlocks(s, n - 1, j - 1);
      MulSucc(j - 1, m);
      SliceAfter(s, t, j * m, (j + 1) * m);
    }
  }

  /** The border is the style string repeated once per column of the width. */
  lemma BorderRepeatsStyle(msg: string, style: string, fill: int, j: nat)
    requires j < |msg| + 2 * fill
    ensures Greeting(msg, style, fill).Success?
    ensures (j + 1) * |style| <= |Greeting(msg, style, fill).value[0]|
    ensures Greeting(msg, style, fill).value[0][j * |style|..(j + 1) * |style|] == style
  {
    var width := |msg| + 2 * fill;
    RepeatBlocks(style, width, j);
    assert Greeting(msg, style, fill).value[0] == Repeat(style, width);
  }

  /** With a one-character style the border is that character, once per column. */
  lemma BorderOfOneChar(msg: string, c: char, fill: int)
    requires |msg| + 2 * fill >= 0
    ensures Greeting(msg, [c], fill).Success?
    ensures |Greeting(msg, [c], fill).value[0]| == |msg| + 2 * fill
    ensures forall k :: 0 <= k < |msg| + 2 * fill ==> Greeting(msg, [c], fill).value[0][k] == c
  {
    RepeatChar(c, |msg| + 2 * fill);
  }

  /** A string of n copies of c is `c * n`. */
  lemma RunOfChar(c: char, n: nat, run: string)
    requires |run| == n && forall k :: 0 <= k < n ==> run[k] == c
    ensures Repeat([c], n) == run
  {
    RepeatChar(c, n);
  }

  /** For fill >= 0 the middle line is fill spaces, the message, and fill spaces. */
  lemma MiddleLine(msg: string, style: string, fill: int)
    requires fill >= 0
    ensures Greeting(msg, style, fill).Success?
    ensures Greeting(msg, style, fill).value[1] == Spaces(fill) + msg + Spaces(fill)
  {
    var m := Greeting(msg, style, fill).value[1];
    var e := Spaces(fill) + msg + Spaces(fill);
    assert |m| == |e|;
    forall k | 0 <= k < |m|
      ensures m[k] == e[k]
    {
      if fill <= k < fill + |msg| {
        assert m[fill..fill + |msg|][k - fill] == msg[k - fill];
      }
    }
  }

  /** The whole banner for a one-character style and fill >= 0. */
  lemma OneCharBanner(msg: string, c: char, fill: int)
    requires fill >= 0
    ensures Greeting(msg, [c], fill) ==
              Success([Repeat([c], |msg| + 2 * fill), Spaces(fill) + msg + Spaces(fill), Repeat([c], |msg| + 2 * fill)])
  {
    MiddleLine(msg, [c], fill);
    var g := Greeting(msg, [c], fill).value;
    assert g == [g[0], g[1], g[2]];
  }

  /** The banner, given its border and its padding spelled out character by character. */
  lemma OneCharBannerLines(msg: string, c: char, fill: int, border: string, pad: string, middle: string)
    requires fill >= 0
    requires |border| == |msg| + 2 * fill && forall k :: 0 <= k < |border| ==> border[k] == c
    requires |pad| == fill && forall k :: 0 <= k < |pad| ==> pad[k] == ' '
    requires middle == pad + msg + pad
    ensures Greeting(msg, [c], fill) == Success([border, middle, border])
  {
    RunOfChar(c, |border|, border);
    assert Spaces(fill) == pad;
    OneCharBanner(msg, c, fill);
  }

  /**
    With a one-character style, a negative fill that still leaves a
    non-negative width narrows the border below the message, and the
    message is printed unpadded.
   */
  lemma NarrowBanner(msg: string, c: char, fill: int)
    requires fill < 0 && |msg| + 2 * fill >= 0
    ensures Greeting(msg, [c], fill).Success?
    ensures Greeting(msg, [c], fill).value[1] == msg
    ensures |Greeting(msg, [c], fill).value[0]| < |msg|
  {
  }
}

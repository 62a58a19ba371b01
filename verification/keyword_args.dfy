/**
  `greeting(msg, style_char: '*', fill: 5)` from programs/keyword_args.rb:
  the same banner with keyword defaults. Keywords are matched by name, so
  they may come in any order and either may be left out on its own.
 */
module KeywordArgs {
  import opened RubyValues
  import opened Banner
  import StyledGreeting

  /**
    `greeting(msg, style_char: ..., fill: ...)`; None stands for a keyword
    left out of the call. Being a pair of named parameters, the order the
    keywords are written in cannot matter.
   */
  function KeywordGreeting(msg: string, style: Option<string>, fill: Option<int>): (r: Result<seq<string>>)
    ensures style.None? && fill.None? ==> r == Greeting(msg, StyledGreeting.DefaultStyle, StyledGreeting.DefaultFill)
    ensures style.Some? && fill.None? ==> r == Greeting(msg, style.value, StyledGreeting.DefaultFill)
    ensures style.None? && fill.Some? ==> r == Greeting(msg, StyledGreeting.DefaultStyle, fill.value)
    ensures style.Some? && fill.Some? ==> r == Greeting(msg, style.value, fill.value)
  {
    var s := match style case Some(c) => c case None => StyledGreeting.DefaultStyle;
    var f := match fill case Some(n) => n case None => StyledGreeting.DefaultFill;
    Greeting(msg, s, f)
  }

  /**
    Every positional call has a keyword call with the same banner, and the
    keyword form can also change fill alone, which the positional form cannot.
   */
  lemma AgreesWithPositional(msg: string, style: string, fill: int)
    ensures KeywordGreeting(msg, None, None) == StyledGreeting.StyledGreeting(msg, StyledGreeting.NoneGiven)
    ensures KeywordGreeting(msg, Some(style), None) == StyledGreeting.StyledGreeting(msg, StyledGreeting.StyleGiven(style))
    ensures KeywordGreeting(msg, Some(style), Some(fill)) == StyledGreeting.StyledGreeting(msg, StyledGreeting.BothGiven(style, fill))
    ensures KeywordGreeting(msg, None, Some(fill)) == StyledGreeting.StyledGreeting(msg, StyledGreeting.BothGiven(StyledGreeting.DefaultStyle, fill))
  {
  }

  /** Overriding fill alone keeps the `*` border and pads by exactly fill spaces. */
  lemma FillAlone(msg: string, fill: int)
    requires fill >= 0
    ensures KeywordGreeting(msg, None, Some(fill)).Success?
    ensures KeywordGreeting(msg, None, Some(fill)).value[1] == Spaces(fill) + msg + Spaces(fill)
    ensures forall k :: 0 <= k < |msg| + 2 * fill ==> KeywordGreeting(msg, None, Some(fill)).value[0][k] == '*'
  {
    MiddleLine(msg, "*", fill);
    BorderOfOneChar(msg, '*', fill);
  }

  /** A fill so negative that the width drops below zero raises ArgumentError. */
  lemma NegativeWidth(msg: string, style: Option<string>, fill: int)
    requires |msg| + 2 * fill < 0
    ensures KeywordGreeting(msg, style, Some(fill)) == Failure(ArgumentError("negative argument"))
  {
  }

  // The four calls of programs/keyword_args.rb, one lemma each.

  /** `greeting('hi')`. */
  lemma Hi()
    ensures KeywordGreeting("hi", None, None) == Success(["************", "     hi     ", "************"])
  {
    StyledGreeting.Hi();
  }

  /** `greeting('oh', style_char: '=')`. */
  lemma Oh()
    ensures KeywordGreeting("oh", Some("="), None) == Success(["============", "     oh     ", "============"])
  {
    StyledGreeting.Oh();
  }

  /** `greeting('42', fill: 2, style_char: '%')`: keywords given out of order. */
  lemma FortyTwo()
    ensures KeywordGreeting("42", Some("%"), Some(2)) == Success(["%%%%%%", "  42  ", "%%%%%%"])
  {
    StyledGreeting.FortyTwo();
  }

  /** `greeting('3.14', fill: 1)`: fill overridden on its own. */
  lemma Pi()
    ensures KeywordGreeting("3.14", None, Some(1)) == Success(["******", " 3.14 ", "******"])
  {
    StyledGreeting.Pi();
  }
}

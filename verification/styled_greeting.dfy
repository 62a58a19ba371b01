/**
  `greeting(msg, style_char='*', fill=5)` from programs/styled_greeting.rb:
  the banner with positional defaults. Positional arguments are filled
  left to right, so `fill` can only be given together with `style_char`.
 */
module StyledGreeting {
  import opened RubyValues
  import opened Banner

  /** The positional arguments given after msg. */
  datatype Trailing = NoneGiven | StyleGiven(style: string) | BothGiven(style: string, fill: int)

  const DefaultStyle: string := "*"
  const DefaultFill: int := 5

  /** `greeting(msg, ...)` with the defaults filled in for missing trailing arguments. */
  function StyledGreeting(msg: string, args: Trailing): (r: Result<seq<string>>)
    ensures args.NoneGiven? ==> r == Greeting(msg, DefaultStyle, DefaultFill)
    ensures args.StyleGiven? ==> r == Greeting(msg, args.style, DefaultFill)
    ensures args.BothGiven? ==> r == Greeting(msg, args.style, args.fill)
  {
    match args
    case NoneGiven => Greeting(msg, DefaultStyle, DefaultFill)
    case StyleGiven(style) => Greeting(msg, style, DefaultFill)
    case BothGiven(style, fill) => Greeting(msg, style, fill)
  }

  /** Leaving an argument out is the same as passing its default. */
  lemma DefaultsAreExplicit(msg: string, style: string)
    ensures StyledGreeting(msg, NoneGiven) == StyledGreeting(msg, BothGiven(DefaultStyle, DefaultFill))
    ensures StyledGreeting(msg, StyleGiven(style)) == StyledGreeting(msg, BothGiven(style, DefaultFill))
  {
  }

  /** With the default fill the banner always exists and pads the message by five spaces a side. */
  lemma DefaultFillPads(msg: string, style: string)
    ensures StyledGreeting(msg, StyleGiven(style)).Success?
    ensures StyledGreeting(msg, StyleGiven(style)).value[1] == Spaces(5) + msg + Spaces(5)
    ensures |StyledGreeting(msg, StyleGiven(style)).value[0]| == |style| * (|msg| + 10)
  {
    MiddleLine(msg, style, 5);
  }

  // The four calls of programs/styled_greeting.rb, one lemma each.

  /** `greeting('hi')`. */
  lemma Hi()
    ensures StyledGreeting("hi", NoneGiven) == Success(["************", "     hi     ", "************"])
  {
    OneCharBannerLines("hi", '*', 5, "************", "     ", "     hi     ");
  }

  /** `greeting('oh', style_char='=')`. */
  lemma Oh()
    ensures StyledGreeting("oh", StyleGiven("=")) == Success(["============", "     oh     ", "============"])
  {
    OneCharBannerLines("oh", '=', 5, "============", "     ", "     oh     ");
  }

  /** `greeting('42', style_char='%', fill=2)`. */
  lemma FortyTwo()
    ensures StyledGreeting("42", BothGiven("%", 2)) == Success(["%%%%%%", "  42  ", "%%%%%%"])
  {
    OneCharBannerLines("42", '%', 2, "%%%%%%", "  ", "  42  ");
  }

  /** `greeting('3.14', style_char='*', fill=1)`: fill cannot be passed without style_char. */
  lemma Pi()
    ensures StyledGreeting("3.14", BothGiven("*", 1)) == Success(["******", " 3.14 ", "******"])
  {
    OneCharBannerLines("3.14", '*', 1, "******", " ", " 3.14 ");
  }
}

/**
  `num(ip)`: Integers and Floats come back unchanged; a String is stripped
  of surrounding whitespace and read as a signed decimal integer (giving
  an Integer) or as a decimal literal with a fraction and/or an exponent
  (giving a Float); any other String raises ArgumentError and any other
  input raises TypeError.

  Integer literals such as `0x1f`, `0b101` and `010` are resolved by Ruby
  before the call, so they arrive here as plain `Int` values.
 */
module ToNum {
  import opened RubyValues
  import opened DecimalDigits

  const NotNumeric := ArgumentError("could not convert string to int or float")
  const NotValidInput := TypeError("not a valid input")

  predicate AllSpaces(s: string)
  {
    forall i :: 0 <= i < |s| ==> IsSpace(s[i])
  }

  /** True iff s is empty or neither starts nor ends with whitespace. */
  predicate Trimmed(s: string)
  {
    s == [] || (!IsSpace(s[0]) && !IsSpace(s[|s| - 1]))
  }

  /** Length of the whitespace run at the start of s. */
  function LeadingSpaces(s: string): (k: nat)
    ensures k <= |s|
    ensures AllSpaces(s[..k])
    ensures k < |s| ==> !IsSpace(s[k])
  {
    FindFirst(s, c => !IsSpace(c))
  }

  /** Length of the whitespace run at the end of s. */
  function TrailingSpaces(s: string): (k: nat)
    ensures k <= |s|
    ensures AllSpaces(s[|s| - k..])
    ensures k < |s| ==> !IsSpace(s[|s| - k - 1])
  {
    if s == [] || !IsSpace(s[|s| - 1]) then 0
    else
      var init := s[..|s| - 1];
      var k := 1 + TrailingSpaces(init);
      assert forall i :: |s| - k <= i < |s| - 1 ==> s[i] == init[i];
      k
  }

  /** `String#strip`: the middle of s once both whitespace runs are cut off. */
  function Strip(s: string): (r: string)
    ensures Trimmed(r)
    ensures |r| <= |s|
  {
    var a := LeadingSpaces(s);
    if a == |s| then
      assert s[..a] == s && s[a..a] == [];
      []
    else
      var b := |s| - TrailingSpaces(s);
      assert a < b;
      s[a..b]
  }

  /** Whitespace followed by text that does not start with whitespace: the run is exactly the padding. */
  lemma LeadingSpacesOfPadded(lead: string, t: string)
    requires AllSpaces(lead) && (t == [] || !IsSpace(t[0]))
    ensures LeadingSpaces(lead + t) == |lead|
  {
    var s := lead + t;
    assert forall j :: |lead| < j <= |s| ==> s[..j][|lead|] == s[|lead|];
  }

  lemma {:induction false} TrailingSpacesOfPadded(t: string, trail: string)
    requires AllSpaces(trail) && t != [] && !IsSpace(t[|t| - 1])
    ensures TrailingSpaces(t + trail) == |trail|
  {
    if trail != [] {
      assert (t + trail)[..|t + trail| - 1] == t + trail[..|trail| - 1];
      TrailingSpacesOfPadded(t, trail[..|trail| - 1]);
    }
  }

  /** Stripping undoes padding: whitespace added around trimmed text is removed again. */
  lemma StripPadded(lead: string, t: string, trail: string)
    requires AllSpaces(lead) && AllSpaces(trail) && Trimmed(t)
    ensures Strip(lead + t + trail) == t
  {
    var s := lead + t + trail;
    if t == [] {
      assert AllSpaces(s);
      AllSpacesLeading(s);
    } else {
      assert s == lead + (t + trail);
      LeadingSpacesOfPadded(lead, t + trail);
      assert s == (lead + t) + trail;
      TrailingSpacesOfPadded(lead + t, trail);
      assert s[|lead|..|s| - |trail|] == t;
    }
  }

  lemma {:induction false} AllSpacesLeading(s: string)
    requires AllSpaces(s)
    ensures LeadingSpaces(s) == |s|
  {
    if s != [] {
      AllSpacesLeading(s[1..]);
    }
  }

  /** A leading `-` or `+` as a factor, and the rest of the text. */
  function SplitSign(t: string): (r: (int, string))
    ensures r.0 == 1 || r.0 == -1
    ensures |r.1| <= |t|
  {
    if t != [] && t[0] == '-' then (-1, t[1..])
    else if t != [] && t[0] == '+' then (1, t[1..])
    else (1, t)
  }

  /** An optional sign followed by one or more decimal digits. */
  predicate IsIntLiteral(t: string)
  {
    var (_, digits) := SplitSign(t);
    |digits| >= 1 && AllDigits(digits)
  }

  function ReadInt(t: string): int
    requires IsIntLiteral(t)
  {
    var (sign, digits) := SplitSign(t);
    sign * ParseDigits(digits)
  }

  const ExponentMarks: set<char> := {'e', 'E'}
  const Point: set<char> := {'.'}

  predicate IsExponentMark(c: char)
  {
    c in ExponentMarks
  }

  predicate IsPoint(c: char)
  {
    c in Point
  }

  /** True iff t has neither a decimal point nor an exponent mark. */
  predicate PlainDigits(t: string)
  {
    Avoids(t, Point) && Avoids(t, ExponentMarks)
  }

  /**
    The parts of a candidate Float literal: the sign, the digits before the
    point, the digits after it (if there is a point) and the exponent text
    after `e`/`E` (if there is one).
   */
  datatype FloatParts = FloatParts(sign: int, whole: string, fraction: Option<string>, exponent: Option<string>)

  /** Cuts t at its first exponent mark and then at the first point before it. */
  function SplitFloat(t: string): FloatParts
  {
    var (sign, body) := SplitSign(t);
    var e := FindFirst(body, IsExponentMark);
    var mantissa := body[..e];
    var d := FindFirst(mantissa, IsPoint);
    FloatParts(sign, mantissa[..d],
               if d < |mantissa| then Some(mantissa[d + 1..]) else None,
               if e < |body| then Some(body[e + 1..]) else None)
  }

  /**
    sign? digits ('.' digits)? ([eE] sign? digits)?, with a fraction or an
    exponent present.
   */
  predicate WellFormed(p: FloatParts)
  {
    && (p.fraction.Some? || p.exponent.Some?)
    && |p.whole| >= 1 && AllDigits(p.whole)
    && (p.fraction.Some? ==> |p.fraction.value| >= 1 && AllDigits(p.fraction.value))
    && (p.exponent.Some? ==> IsIntLiteral(p.exponent.value))
  }

  /** The exact value of well-formed parts, as digits and a power of ten. */
  function PartsValue(p: FloatParts): Decimal
    requires WellFormed(p)
  {
    var fraction := if p.fraction.Some? then p.fraction.value else [];
    var exponent := if p.exponent.Some? then ReadInt(p.exponent.value) else 0;
    Decimal(p.sign * ParseDigits(p.whole + fraction), exponent - |fraction|)
  }

  /** A decimal literal with a fraction, an exponent or both, read exactly. */
  function ReadFloat(t: string): Option<Decimal>
  {
    var p := SplitFloat(t);
    if WellFormed(p) then Some(PartsValue(p)) else None
  }

  /** Text without a point or an exponent mark is never a Float literal. */
  lemma PlainIsNotFloat(t: string)
    requires PlainDigits(t)
    ensures ReadFloat(t).None?
  {
    var (sign, body) := SplitSign(t);
    assert forall i :: 0 <= i < |body| ==> body[i] == t[i + |t| - |body|];
    var e := FindFirst(body, IsExponentMark);
    assert e == |body|;
    assert FindFirst(body[..e], IsPoint) == |body[..e]|;
    assert SplitFloat(t).fraction.None? && SplitFloat(t).exponent.None?;
  }

  /** `num(ip)`. */
  function Num(v: Value): (r: Result<Value>)
    ensures v.Int? || v.Float? ==> r == Success(v)
    ensures v.List? ==> r == Failure(NotValidInput)
    ensures v.Str? ==> (r.Success? <==> IsIntLiteral(Strip(v.s)) || ReadFloat(Strip(v.s)).Some?)
    ensures v.Str? && r.Failure? ==> r == Failure(NotNumeric)
    ensures v.Str? && r.Success? ==> (r.value.Int? <==> PlainDigits(Strip(v.s)))
    ensures v.Str? && r.Success? ==> r.value.Int? || r.value.Float?
  {
    match v
    case Int(_) => Success(v)
    case Float(_) => Success(v)
    case Str(s) =>
      var t := Strip(s);
      if IsIntLiteral(t) then
        assert PlainDigits(t) by { IntLiteralIsPlain(t); }
        Success(Int(ReadInt(t)))
      else
        assert PlainDigits(t) ==> ReadFloat(t).None? by {
          if PlainDigits(t) { PlainIsNotFloat(t); }
        }
        (match ReadFloat(t)
         case Some(x) => Success(Float(x))
         case None => Failure(NotNumeric))
    case List(_) => Failure(NotValidInput)
  }

  lemma IntLiteralIsPlain(t: string)
    requires IsIntLiteral(t)
    ensures PlainDigits(t)
  {
    var (_, digits) := SplitSign(t);
    assert forall i :: 0 <= i < |digits| ==> digits[i] == t[i + |t| - |digits|];
  }

  /** The decimal form of i is an Integer literal that reads back as i. */
  lemma ReadShownInt(i: int)
    ensures Trimmed(ShowInt(i))
    ensures IsIntLiteral(ShowInt(i)) && ReadInt(ShowInt(i)) == i
  {
    var t := ShowInt(i);
    assert IsDigit(t[|t| - 1]);
    if i < 0 {
      ReadShownNegative(i);
    } else {
      assert SplitSign(t) == (1, ToDecimal(i));
      ParseToDecimal(i);
    }
  }

  lemma ReadShownNegative(i: int)
    requires i < 0
    ensures IsIntLiteral(ShowInt(i)) && ReadInt(ShowInt(i)) == i
  {
    assert SplitSign(ShowInt(i)) == (-1, ToDecimal(-i));
    ParseToDecimal(-i);
  }

  /** Reading `i.to_s`, padded with any whitespace, gives back the Integer i. */
  lemma NumReadsShownInt(i: int, lead: string, trail: string)
    requires AllSpaces(lead) && AllSpaces(trail)
    ensures Num(Str(lead + ShowInt(i) + trail)) == Success(Int(i))
  {
    ReadShownInt(i);
    StripPadded(lead, ShowInt(i), trail);
  }

  /** True iff no character of s is in marks. */
  predicate Avoids(s: string, marks: set<char>)
  {
    forall i :: 0 <= i < |s| ==> s[i] !in marks
  }

  lemma AvoidsConcat(a: string, b: string, marks: set<char>)
    requires Avoids(a, marks) && Avoids(b, marks)
    ensures Avoids(a + b, marks)
  {
  }

  /** Digits are neither points nor exponent marks. */
  lemma DigitsAvoidMarks(s: string)
    requires AllDigits(s)
    ensures Avoids(s, ExponentMarks) && Avoids(s, Point)
  {
    assert forall i :: 0 <= i < |s| ==> IsDigit(s[i]);
  }

  /** The first match in a + b, when a has none and b starts with one, is at |a|. */
  lemma FindFirstAfter(a: string, b: string, p: char -> bool)
    requires forall i :: 0 <= i < |a| ==> !p(a[i])
    requires b == [] || p(b[0])
    ensures FindFirst(a + b, p) == |a|
  {
    var s := a + b;
    assert forall i :: 0 <= i < |a| ==> s[i] == a[i];
    if b != [] {
      assert s[|a|] == b[0];
    }
  }

  lemma SplitSignShowInt(m: int, rest: string)
    ensures SplitSign(ShowInt(m) + rest) == (if m < 0 then -1 else 1, ToDecimal(Abs(m)) + rest)
  {
    if m < 0 {
      assert (ShowInt(m) + rest)[1..] == ToDecimal(-m) + rest;
    }
  }

  /** `"<m>e<x>"` splits into the digits of m, no fraction, and the text of x. */
  lemma SplitScientific(m: int, x: int)
    ensures SplitFloat(ShowInt(m) + "e" + ShowInt(x))
         == FloatParts(if m < 0 then -1 else 1, ToDecimal(Abs(m)), None, Some(ShowInt(x)))
  {
    var digits := ToDecimal(Abs(m));
    var rest := "e" + ShowInt(x);
    DigitsAvoidMarks(digits);
    assert ShowInt(m) + "e" + ShowInt(x) == ShowInt(m) + rest;
    SplitSignShowInt(m, rest);
    var body := digits + rest;
    FindFirstAfter(digits, rest, IsExponentMark);
    assert body[..|digits|] == digits;
    assert body[|digits| + 1..] == ShowInt(x);
    FindFirstAfter(digits, [], IsPoint);
    assert digits + [] == digits;
    assert digits[..|digits|] == digits;
  }

  /** Text that strips to a Float literal (and not an Integer one) reads as that Float. */
  lemma NumOfFloatText(s: string, d: Decimal)
    requires !IsIntLiteral(Strip(s)) && ReadFloat(Strip(s)) == Some(d)
    ensures Num(Str(s)) == Success(Float(d))
  {
  }

  /** `"<m>e<x>"` is a Float literal denoting exactly m * 10^x. */
  lemma ReadScientific(m: int, x: int)
    ensures ReadFloat(ShowInt(m) + "e" + ShowInt(x)) == Some(Decimal(m, x))
  {
    var t := ShowInt(m) + "e" + ShowInt(x);
    var sign := if m < 0 then -1 else 1;
    var digits := ToDecimal(Abs(m));
    var p := FloatParts(sign, digits, None, Some(ShowInt(x)));
    SplitScientific(m, x);
    assert SplitFloat(t) == p;
    ReadShownInt(x);
    assert WellFormed(p);
    assert digits + [] == digits;
    ParseToDecimal(Abs(m));
    assert sign * ParseDigits(digits) == m;
    assert PartsValue(p) == Decimal(m, x);
  }

  /** `"<whole>.<fraction>"` splits at its point and has no exponent. */
  lemma SplitFixed(whole: string, fraction: string)
    requires |whole| >= 1 && AllDigits(whole) && AllDigits(fraction)
    ensures Avoids(whole + "." + fraction, ExponentMarks)
    ensures SplitFloat(whole + "." + fraction) == FloatParts(1, whole, Some(fraction), None)
  {
    var t := whole + "." + fraction;
    assert t[0] == whole[0];
    assert SplitSign(t) == (1, t);
    FixedAvoidsMarks(whole, fraction);
    DigitsAvoidMarks(whole);
    FindFirstAfter(t, [], IsExponentMark);
    assert t + [] == t && t[..|t|] == t;
    FindFirstAfter(whole, "." + fraction, IsPoint);
    assert t == whole + ("." + fraction);
    assert t[..|whole|] == whole;
    assert t[|whole| + 1..] == fraction;
  }

  /** `"<whole>.<fraction>"` denotes the digits of both parts, scaled down by the fraction's length. */
  lemma ReadFixed(whole: string, fraction: string)
    requires |whole| >= 1 && AllDigits(whole) && |fraction| >= 1 && AllDigits(fraction)
    ensures ReadFloat(whole + "." + fraction)
         == Some(Decimal(ParseDigits(whole + fraction), -|fraction|))
  {
    SplitFixed(whole, fraction);
    var p := FloatParts(1, whole, Some(fraction), None);
    assert WellFormed(p);
    assert AllDigits(whole + fraction);
    assert PartsValue(p) == Decimal(ParseDigits(whole + fraction), -|fraction|);
  }

  /** The first point of `"<whole>.<fraction>"` is right after the whole digits. */
  lemma PointAfterWhole(whole: string, fraction: string)
    requires AllDigits(whole) && AllDigits(fraction)
    ensures Avoids(whole + "." + fraction, ExponentMarks)
    ensures FindFirst(whole + "." + fraction, IsPoint) == |whole|
    ensures (whole + "." + fraction)[..|whole|] == whole
    ensures (whole + "." + fraction)[|whole| + 1..] == fraction
  {
    FixedAvoidsMarks(whole, fraction);
    var t := whole + "." + fraction;
    DigitsAvoidMarks(whole);
    assert t == whole + ("." + fraction);
    FindFirstAfter(whole, "." + fraction, IsPoint);
  }

  /** Digits around a point leave no exponent mark. */
  lemma FixedAvoidsMarks(whole: string, fraction: string)
    requires AllDigits(whole) && AllDigits(fraction)
    ensures Avoids(whole + "." + fraction, ExponentMarks)
  {
    DigitsAvoidMarks(whole);
    DigitsAvoidMarks(fraction);
    AvoidsConcat(whole, ".", ExponentMarks);
    AvoidsConcat(whole + ".", fraction, ExponentMarks);
  }

  /** `"<whole>.<fraction>e<x>"` splits at its exponent mark and then at its point. */
  lemma SplitFixedExponent(whole: string, fraction: string, x: int)
    requires |whole| >= 1 && AllDigits(whole) && AllDigits(fraction)
    ensures SplitFloat(whole + "." + fraction + "e" + ShowInt(x))
         == FloatParts(1, whole, Some(fraction), Some(ShowInt(x)))
  {
    var mantissa := whole + "." + fraction;
    var rest := "e" + ShowInt(x);
    var t := mantissa + rest;
    assert t == whole + "." + fraction + "e" + ShowInt(x);
    assert SplitSign(t) == (1, t) by {
      assert t[0] == whole[0];
    }
    PointAfterWhole(whole, fraction);
    FindFirstAfter(mantissa, rest, IsExponentMark);
    var e := FindFirst(t, IsExponentMark);
    assert e == |mantissa|;
    CutAtMark(mantissa, ShowInt(x));
    assert t[..e] == mantissa;
    assert t[e + 1..] == ShowInt(x);
    var d := FindFirst(mantissa, IsPoint);
    assert d == |whole| < |mantissa|;
    assert SplitFloat(t) == FloatParts(1, mantissa[..d], Some(mantissa[d + 1..]), Some(t[e + 1..]));
  }

  /** Cutting `a + "e" + b` at position |a| gives back a and b. */
  lemma CutAtMark(a: string, b: string)
    ensures (a + ("e" + b))[..|a|] == a
    ensures (a + ("e" + b))[|a| + 1..] == b
  {
  }

  /** `"<whole>.<fraction>e<x>"` is the same number scaled up by 10^x. */
  lemma ReadFixedExponent(whole: string, fraction: string, x: int)
    requires |whole| >= 1 && AllDigits(whole) && |fraction| >= 1 && AllDigits(fraction)
    ensures ReadFloat(whole + "." + fraction + "e" + ShowInt(x))
         == Some(Decimal(ParseDigits(whole + fraction), x - |fraction|))
  {
    SplitFixedExponent(whole, fraction, x);
    ReadShownInt(x);
    var p := FloatParts(1, whole, Some(fraction), Some(ShowInt(x)));
    assert WellFormed(p);
    assert AllDigits(whole + fraction);
    assert PartsValue(p) == Decimal(ParseDigits(whole + fraction), x - |fraction|);
  }

  /** Joining two non-empty trimmed texts gives a trimmed text. */
  lemma ConcatTrimmed(a: string, b: string)
    requires a != [] && b != [] && Trimmed(a) && Trimmed(b)
    ensures Trimmed(a + b)
  {
    assert (a + b)[0] == a[0] && (a + b)[|a + b| - 1] == b[|b| - 1];
  }

  /** `"<m>e<x>"` is trimmed and, having an exponent mark, not an Integer literal. */
  lemma ScientificText(m: int, x: int)
    ensures Strip(ShowInt(m) + "e" + ShowInt(x)) == ShowInt(m) + "e" + ShowInt(x)
    ensures !IsIntLiteral(ShowInt(m) + "e" + ShowInt(x))
  {
    ScientificTrimmed(m, x);
    var t := ShowInt(m) + "e" + ShowInt(x);
    assert t[|ShowInt(m)|] == 'e';
    MarkIsNotInt(t, |ShowInt(m)|);
  }

  lemma ScientificTrimmed(m: int, x: int)
    ensures Strip(ShowInt(m) + "e" + ShowInt(x)) == ShowInt(m) + "e" + ShowInt(x)
  {
    var head := ShowInt(m) + "e";
    var t := head + ShowInt(x);
    ReadShownInt(m);
    ReadShownInt(x);
    ConcatTrimmed(ShowInt(m), "e");
    ConcatTrimmed(head, ShowInt(x));
    StripPadded([], t, []);
    assert [] + t + [] == t;
  }

  /** Text with a point or an exponent mark is not an Integer literal. */
  lemma MarkIsNotInt(t: string, k: nat)
    requires k < |t| && (t[k] in Point || t[k] in ExponentMarks)
    ensures !IsIntLiteral(t)
  {
    if IsIntLiteral(t) {
      IntLiteralIsPlain(t);
    }
  }

  /** Reading `"<m>e<x>"` gives back the Float m * 10^x exactly. */
  lemma NumReadsScientific(m: int, x: int)
    ensures Num(Str(ShowInt(m) + "e" + ShowInt(x))) == Success(Float(Decimal(m, x)))
  {
    ScientificText(m, x);
    ReadScientific(m, x);
    NumOfFloatText(ShowInt(m) + "e" + ShowInt(x), Decimal(m, x));
  }

  /** Digits are never whitespace, so digit-bounded text is already trimmed. */
  lemma DigitBoundedTrimmed(t: string)
    requires |t| >= 1 && IsDigit(t[0]) && IsDigit(t[|t| - 1])
    ensures Strip(t) == t
  {
    StripPadded([], t, []);
    assert [] + t + [] == t;
  }

  /** Text with a point that starts and ends with a digit is trimmed and not an Integer literal. */
  lemma PointText(t: string, k: nat)
    requires |t| >= 1 && IsDigit(t[0]) && IsDigit(t[|t| - 1])
    requires k < |t| && t[k] == '.'
    ensures Strip(t) == t && !IsIntLiteral(t)
  {
    DigitBoundedTrimmed(t);
    MarkIsNotInt(t, k);
  }

  /** `"<whole>.<fraction>"` reads as the Float of its digits scaled down by the fraction's length. */
  lemma NumReadsFixed(whole: string, fraction: string)
    requires |whole| >= 1 && AllDigits(whole) && |fraction| >= 1 && AllDigits(fraction)
    ensures Num(Str(whole + "." + fraction)) == Success(Float(Decimal(ParseDigits(whole + fraction), -|fraction|)))
  {
    FixedText(whole, fraction);
    ReadFixed(whole, fraction);
    NumOfFloatText(whole + "." + fraction, Decimal(ParseDigits(whole + fraction), -|fraction|));
  }

  lemma FixedText(whole: string, fraction: string)
    requires |whole| >= 1 && AllDigits(whole) && |fraction| >= 1 && AllDigits(fraction)
    ensures Strip(whole + "." + fraction) == whole + "." + fraction
    ensures !IsIntLiteral(whole + "." + fraction)
  {
    var t := whole + "." + fraction;
    assert t[0] == whole[0] && t[|t| - 1] == fraction[|fraction| - 1] && t[|whole|] == '.';
    PointText(t, |whole|);
  }

  /** `"<whole>.<fraction>e<x>"` reads as the same Float scaled up by 10^x. */
  lemma NumReadsFixedExponent(whole: string, fraction: string, x: int)
    requires |whole| >= 1 && AllDigits(whole) && |fraction| >= 1 && AllDigits(fraction)
    ensures Num(Str(whole + "." + fraction + "e" + ShowInt(x)))
         == Success(Float(Decimal(ParseDigits(whole + fraction), x - |fraction|)))
  {
    FixedExponentText(whole, fraction, x);
    ReadFixedExponent(whole, fraction, x);
    NumOfFloatText(whole + "." + fraction + "e" + ShowInt(x), Decimal(ParseDigits(whole + fraction), x - |fraction|));
  }

  lemma LastShownIsDigit(x: int)
    ensures IsDigit(ShowInt(x)[|ShowInt(x)| - 1])
  {
    var shown := ShowInt(x);
    if x < 0 {
      assert shown[|shown| - 1] == shown[1..][|shown| - 2];
    }
  }

  lemma FixedExponentText(whole: string, fraction: string, x: int)
    requires |whole| >= 1 && AllDigits(whole) && AllDigits(fraction)
    ensures Strip(whole + "." + fraction + "e" + ShowInt(x)) == whole + "." + fraction + "e" + ShowInt(x)
    ensures !IsIntLiteral(whole + "." + fraction + "e" + ShowInt(x))
  {
    var t := whole + "." + fraction + "e" + ShowInt(x);
    var shown := ShowInt(x);
    LastShownIsDigit(x);
    assert t[0] == whole[0] && t[|t| - 1] == shown[|shown| - 1] && t[|whole|] == '.';
    PointText(t, |whole|);
  }

  // The assertions of exercise_files/q2d_to_num.rb, one lemma each, with
  // the literal facts they rest on proved on their own.

  lemma NumOfShownText(s: string, lead: string, i: int, trail: string)
    requires AllSpaces(lead) && AllSpaces(trail) && s == lead + ShowInt(i) + trail
    ensures Num(Str(s)) == Success(Int(i))
  {
    NumReadsShownInt(i, lead, trail);
  }

  lemma NumOfFixedText(s: string, whole: string, fraction: string, v: int)
    requires |whole| >= 1 && AllDigits(whole) && |fraction| >= 1 && AllDigits(fraction)
    requires s == whole + "." + fraction && ParseDigits(whole + fraction) == v
    ensures Num(Str(s)) == Success(Float(Decimal(v, -|fraction|)))
  {
    NumReadsFixed(whole, fraction);
  }

  lemma Num3()
    ensures Num(Int(3)) == Success(Int(3))
  {
  }

  /** `0x1f` is the Integer 31 before `num` sees it. */
  lemma NumHex()
    ensures Num(Int(0x1f)) == Success(Int(31))
  {
  }

  /** `0b101` is the Integer 5 before `num` sees it. */
  lemma NumBinary()
    ensures Num(Int(5)) == Success(Int(5))
  {
  }

  /** `010` is the octal Integer 8 before `num` sees it. */
  lemma NumOctal()
    ensures Num(Int(8)) == Success(Int(8))
  {
  }

  lemma NumFloat()
    ensures Num(Float(Decimal(332, -2))) == Success(Float(Decimal(332, -2)))
  {
  }

  lemma Shows123()
    ensures ShowInt(123) == "123"
  {
  }

  lemma Num123()
    ensures Num(Str("123")) == Success(Int(123))
  {
    Shows123();
    NumOfShownText("123", [], 123, []);
  }

  lemma ShowsMinus78()
    ensures ShowInt(-78) == "-78"
  {
  }

  lemma NumMinus78()
    ensures Num(Str("-78")) == Success(Int(-78))
  {
    ShowsMinus78();
    NumOfShownText("-78", [], -78, []);
  }

  lemma Shows42()
    ensures ShowInt(42) == "42"
  {
  }

  lemma Padded42Text()
    ensures " 42  \n " == " " + ShowInt(42) + "  \n "
    ensures AllSpaces(" ") && AllSpaces("  \n ")
  {
    Shows42();
  }

  lemma NumPadded42()
    ensures Num(Str(" 42  \n ")) == Success(Int(42))
  {
    Padded42Text();
    NumOfShownText(" 42  \n ", " ", 42, "  \n ");
  }

  lemma Digits314()
    ensures "3" + "." + "14" == "3.14"
    ensures AllDigits("3") && AllDigits("14")
    ensures ParseDigits("3" + "14") == 314
  {
    assert "3" + "14" == ToDecimal(314);
    ParseToDecimal(314);
  }

  lemma Num3Point14()
    ensures Num(Str("3.14")) == Success(Float(Decimal(314, -2)))
  {
    Digits314();
    NumOfFixedText("3.14", "3", "14", 314);
  }

  lemma Digits3982()
    ensures "3" + "." + "982" + "e" + ShowInt(5) == "3.982e5"
    ensures AllDigits("3") && AllDigits("982")
    ensures ParseDigits("3" + "982") == 3982
  {
    assert ShowInt(5) == "5";
    assert "3" + "982" == ToDecimal(3982);
    ParseToDecimal(3982);
  }

  /** `3.982e5` reads as 3982 * 10^2. */
  lemma NumExponent()
    ensures Num(Str("3.982e5")) == Success(Float(Decimal(3982, 2)))
  {
    Digits3982();
    NumReadsFixedExponent("3", "982", 5);
  }

  /** 3982 * 10^2 is the number 398200. */
  lemma ExponentValue()
    ensures SameDecimal(Decimal(3982, 2), Decimal(398200, 0))
  {
    assert Pow10(2) == 100;
  }

  lemma Shows56()
    ensures ShowInt(56) == "56"
  {
  }

  /** `num('56') + 44 == 100`. */
  lemma Num56()
    ensures Num(Str("56")).Success? && Num(Str("56")).value.Int?
    ensures Num(Str("56")).value.i + 44 == 100
  {
    Shows56();
    NumOfShownText("56", [], 56, []);
  }

  /** `'8' * 10` is the decimal form of 8888888888. */
  lemma TenEightsText()
    ensures Repeat("8", 10) == ShowInt(8888888888)
  {
    var s := Repeat("8", 10);
    RepeatChar('8', 10);
    assert AllDigits(s);
    assert s[0] != '0';
    assert DigitChar(8) == '8';
    ParseRepeatedDigit(8, 10);
    assert Pow10(10) == 10000000000;
    ParseToDecimal(8888888888);
    ToDecimalUnique(s);
  }

  /** `'8' * 10` reads as 8888888888, beyond 32 bits. */
  lemma NumTenEights()
    ensures Num(Str(Repeat("8", 10))) == Success(Int(8888888888))
  {
    TenEightsText();
    NumOfShownText(Repeat("8", 10), [], 8888888888, []);
  }

  lemma Num42IsInteger()
    ensures Num(Str("42")).Success? && Num(Str("42")).value.Int?
  {
    Shows42();
    NumOfShownText("42", [], 42, []);
  }

  lemma Digits123()
    ensures "1" + "." + "23" == "1.23"
    ensures AllDigits("1") && AllDigits("23")
  {
  }

  lemma Num1Point23IsFloat()
    ensures Num(Str("1.23")).Success? && Num(Str("1.23")).value.Float?
  {
    Digits123();
    NumOfFixedText("1.23", "1", "23", ParseDigits("1" + "23"));
  }

  lemma FooTrimmed()
    ensures Strip("foo") == "foo"
  {
    var t := "foo";
    assert t[0] == 'f' && t[2] == 'o';
    StripPadded([], t, []);
    assert [] + t + [] == t;
  }

  lemma FooNotInt()
    ensures !IsIntLiteral("foo")
  {
    var t := "foo";
    assert t[0] == 'f';
    assert SplitSign(t) == (1, t);
    assert !IsDigit(t[0]);
  }

  lemma FooPlain()
    ensures PlainDigits("foo")
  {
    var t := "foo";
    assert t[0] == 'f' && t[1] == 'o' && t[2] == 'o';
  }

  lemma FooText()
    ensures Strip("foo") == "foo" && !IsIntLiteral("foo") && PlainDigits("foo")
  {
    FooTrimmed();
    FooNotInt();
    FooPlain();
  }

  lemma NumFoo()
    ensures Num(Str("foo")) == Failure(ArgumentError("could not convert string to int or float"))
  {
    FooText();
    PlainIsNotFloat("foo");
  }

  lemma NumList()
    ensures Num(List([Str("1"), Str("2.3")])) == Failure(TypeError("not a valid input"))
  {
  }
}

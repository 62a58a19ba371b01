# Ruby scripting exercises, modelled in Dafny

The repository is a set of Ruby exercise files. Each file declares a stub
function with an empty body and then checks it with `raise unless ...`
assertions. Two further programs print a three-line greeting banner. The
assertions are the only statement of what each stub must do. This project
therefore gives each stub a reference definition in Dafny, derived from those
assertions and from Ruby's documented behaviour. It proves general properties
of each definition and proves every assertion of the file as a lemma of its
own.

The modelled core:

- `len_int(n)` (`IntLength`): the number of decimal digits of an Integer, with
  the sign ignored. Anything else raises `TypeError`.
- `num(ip)` (`ToNum`, built on `DecimalDigits`):
  - Integers and Floats pass through unchanged.
  - A String is stripped and then read as an Integer literal or as a Float
    literal.
  - Any other String raises `ArgumentError`; any other input raises
    `TypeError`.
  - Floats are exact decimals `mantissa * 10^exponent`.
- `product(ip)` (`ArrayProduct`): the left-to-right product of an Array or a
  Range of Integers.
- `nth_lowest(ip, n)` (`LowestValue`): the n-th smallest distinct value of an
  Array, or the n-th smallest distinct character of a String.
- `word_slices(s)` (`WordSlices`): every slice of at least two characters. They
  are grouped by start position and, within a start, listed from shortest to
  longest.
- `is_one_char_diff(w1, w2)` (`OneCharDiff`): after case folding, the words
  have the same length and differ in at most one position.
- `is_alpha_order(ip)` (`AlphaOrder`): after case folding, the characters of
  every whitespace-separated word are all ascending or all descending.
- `max_nested_braces(expr)` (`MaxNested`): the deepest `{ }` nesting, or -1 in
  three cases:
  - a `}` closes no group;
  - a group stays open at the end;
  - an empty group `{}` appears.

  There is a reference meaning (`Meets`), a recursive scanner and the
  imperative loop.
- `greeting` (`Banner`, `StyledGreeting`, `KeywordArgs`): the border is
  `style_char * (msg.size + 2*fill)`, then comes `msg.center` of that width,
  then the border again.
  - The two programs differ only in how defaults are supplied: positionally or
    by keyword.
  - The lines are returned rather than printed.
  - A negative width raises `ArgumentError`, as `String#*` does.

Ruby's dynamic values and exceptions are explicit in `RubyValues`:
- a tagged `Value` (`Int`, `Float`, `Str` or `List`);
- `Result<T>`, either a returned value or a `Failure` that carries the
  exception class and its fixed message.

The assertions settle several points that the exercise names alone leave
open, and the model follows them:
- `nth_lowest` without `n` returns -2 for `[1, -2, 4, 2, 1, 3, 3, 5]`
  (q4b line 12), which is the minimum. So the default rank is 1.
- `word_slices('boat')` lists `"bo", "boa", "boat", "oa", ...` (q4c line 10).
  Slices are grouped by start position, shortest first within a start.
- `is_alpha_order` accepts `toe` and `Toe got bit` (q6b lines 9 and 16)
  and rejects `Flee` (q6b line 14). So each word is checked on its own, and
  either direction passes.
- The stub `def nth_lowest()` is written with no parameters, yet every
  assertion calls it with one or two arguments. The model follows the calls.

## Model

| member | source | states |
|---|---|---|
| IntLength.LenInt | exercise_files/q2a_int_length.rb:3-18 | An Integer n gives a count k >= 1 with 10^(k-1) <= \|n\| < 10^k when n != 0. Every other value fails with TypeError "provide only integer input". |
| IntLength.LenIntCharacterized | exercise_files/q2a_int_length.rb:7-12 | For n != 0, the result is k exactly when 10^(k-1) <= \|n\| < 10^k, so the digit count is determined by n alone. |
| IntLength.LenIntIgnoresSign | exercise_files/q2a_int_length.rb:9-10 | n and -n have the same length. |
| IntLength.LenInt123 | exercise_files/q2a_int_length.rb:7 | `len_int(123) == 3` |
| IntLength.LenInt2 | exercise_files/q2a_int_length.rb:8 | `len_int(2) == 1` |
| IntLength.LenIntPlus42 | exercise_files/q2a_int_length.rb:9 | `len_int(+42) == 2` |
| IntLength.LenIntMinus42 | exercise_files/q2a_int_length.rb:10 | `len_int(-42) == 2`: the sign is not a digit. |
| IntLength.LenInt572342 | exercise_files/q2a_int_length.rb:11 | `len_int(572342) == 6` |
| IntLength.LenIntBig | exercise_files/q2a_int_length.rb:12 | A 33-digit Integer, well beyond 64 bits, has length 33. |
| IntLength.LenIntString | exercise_files/q2a_int_length.rb:14-18 | `len_int('a')` raises TypeError with message "provide only integer input". |
| DecimalDigits.ToDecimal | exercise_files/q2a_int_length.rb:3-5 | `n.to_s` is a non-empty digit string whose first digit is `0` only for n = 0. |
| DecimalDigits.ParseToDecimal | exercise_files/q2d_to_num.rb:12 | Reading back the decimal form of n gives n. |
| DecimalDigits.ToDecimalUnique | exercise_files/q2d_to_num.rb:19-20 | Conversely, digits without a leading zero are the decimal form of the number they denote. |
| DecimalDigits.DigitCountBounds | exercise_files/q2a_int_length.rb:7-12 | The number of digits of a positive n is the k with 10^(k-1) <= n < 10^k. |
| DecimalDigits.DigitCountUnique | exercise_files/q2a_int_length.rb:7-12 | Any k with 10^(k-1) <= n < 10^k is the digit count of n. |
| DecimalDigits.ParseRepeatedDigit | exercise_files/q2d_to_num.rb:19-20 | n copies of digit d denote d * (10^n - 1) / 9. For example `'8' * 10` denotes 8888888888. |
| ToNum.Strip | exercise_files/q2d_to_num.rb:14 | `String#strip` yields text that neither starts nor ends with whitespace, and is no longer than its input. |
| ToNum.StripPadded | exercise_files/q2d_to_num.rb:14 | Whitespace of any kind added around trimmed text is removed again, and the text itself is kept. |
| ToNum.Num | exercise_files/q2d_to_num.rb:3-35 | Integer and Float inputs pass through unchanged, and a List fails with TypeError. A String succeeds exactly when its stripped text is an Integer or a Float literal, and fails otherwise with ArgumentError "could not convert string to int or float". The result is an Integer exactly when the text has no point and no exponent. |
| ToNum.PlainIsNotFloat | exercise_files/q2d_to_num.rb:22-23 | Text without a point or an exponent mark is never a Float literal. |
| ToNum.IntLiteralIsPlain | exercise_files/q2d_to_num.rb:22-23 | An Integer literal has neither a point nor an exponent mark. |
| ToNum.ReadShownInt | exercise_files/q2d_to_num.rb:12-13 | `i.to_s` is an Integer literal that reads back as i (round trip). |
| ToNum.NumReadsShownInt | exercise_files/q2d_to_num.rb:12-14 | `num` of `i.to_s`, padded with any whitespace on either side, is the Integer i. |
| ToNum.ReadScientific | exercise_files/q2d_to_num.rb:16 | `"<m>e<x>"` is a Float literal that denotes exactly m * 10^x. |
| ToNum.NumReadsScientific | exercise_files/q2d_to_num.rb:16 | `num("<m>e<x>")` is the Float m * 10^x. |
| ToNum.ReadFixed | exercise_files/q2d_to_num.rb:15 | `"<whole>.<fraction>"` denotes the digits of both parts, scaled down by 10^(length of fraction). |
| ToNum.NumReadsFixed | exercise_files/q2d_to_num.rb:15 | `num("<whole>.<fraction>")` is that Float. |
| ToNum.ReadFixedExponent | exercise_files/q2d_to_num.rb:16 | `"<whole>.<fraction>e<x>"` is the same number scaled up by 10^x. |
| ToNum.NumReadsFixedExponent | exercise_files/q2d_to_num.rb:16 | `num("<whole>.<fraction>e<x>")` is that Float. |
| ToNum.Num3 | exercise_files/q2d_to_num.rb:7 | `num(3) == 3` |
| ToNum.NumHex | exercise_files/q2d_to_num.rb:8 | `num(0x1f) == 31` |
| ToNum.NumBinary | exercise_files/q2d_to_num.rb:9 | `num(0b101) == 5` |
| ToNum.NumOctal | exercise_files/q2d_to_num.rb:10 | `num(010) == 8` |
| ToNum.NumFloat | exercise_files/q2d_to_num.rb:11 | `num(3.32) == 3.32` |
| ToNum.Num123 | exercise_files/q2d_to_num.rb:12 | `num('123') == 123` |
| ToNum.NumMinus78 | exercise_files/q2d_to_num.rb:13 | `num('-78') == -78` |
| ToNum.NumPadded42 | exercise_files/q2d_to_num.rb:14 | `num(" 42  \n ") == 42`: spaces and a newline are stripped. |
| ToNum.Num3Point14 | exercise_files/q2d_to_num.rb:15 | `num('3.14')` is the Float 314 * 10^-2. |
| ToNum.NumExponent | exercise_files/q2d_to_num.rb:16 | `num('3.982e5')` is the Float 3982 * 10^2. |
| ToNum.ExponentValue | exercise_files/q2d_to_num.rb:16 | 3982 * 10^2 is the number 398200. |
| ToNum.Num56 | exercise_files/q2d_to_num.rb:17-18 | `num('56')` is an Integer and adding 44 gives 100. |
| ToNum.NumTenEights | exercise_files/q2d_to_num.rb:19-20 | `num('8' * 10) == 8888888888`. |
| ToNum.Num42IsInteger | exercise_files/q2d_to_num.rb:22 | `num('42')` is an Integer. |
| ToNum.Num1Point23IsFloat | exercise_files/q2d_to_num.rb:23 | `num('1.23')` is a Float. |
| ToNum.NumFoo | exercise_files/q2d_to_num.rb:25-29 | `num('foo')` raises ArgumentError "could not convert string to int or float". |
| ToNum.NumList | exercise_files/q2d_to_num.rb:31-35 | `num(['1', '2.3'])` raises TypeError "not a valid input". |
| ArrayProduct.Product | exercise_files/q4a_array_product.rb:3-12 | The product is zero exactly when some factor is zero, and negative exactly when no factor is zero and an odd number of factors are negative. |
| ArrayProduct.FoldZero | exercise_files/q4a_array_product.rb:11 | The product is zero exactly when some element is zero. |
| ArrayProduct.FoldSign | exercise_files/q4a_array_product.rb:9 | The product is negative exactly when there is no zero and an odd number of negative elements. It is positive exactly when there is no zero and an even number of negative elements. |
| ArrayProduct.FoldAppend | exercise_files/q4a_array_product.rb:3-5 | The product of a concatenation is the product of the two products. |
| ArrayProduct.RangeIsFactorial | exercise_files/q4a_array_product.rb:12 | The product of the Range `1..n` is n!, as defined by its own recursion. |
| ArrayProduct.Product84 | exercise_files/q4a_array_product.rb:7 | `product([1, 4, 21]) == 84` |
| ArrayProduct.ProductMinus66 | exercise_files/q4a_array_product.rb:9 | `product([-3, 11, 2]) == -66` |
| ArrayProduct.Product2400 | exercise_files/q4a_array_product.rb:10 | `product([8, 300]) == 2400` |
| ArrayProduct.ProductWithZero | exercise_files/q4a_array_product.rb:11 | `product([234, 121, 23, 945, 0]) == 0` |
| ArrayProduct.ProductRange | exercise_files/q4a_array_product.rb:12 | `product(1..5) == 120` |
| LowestValue.InsertDistinct | exercise_files/q4b_lowest_value.rb:3-5 | Inserting into a strictly increasing sequence keeps it strictly increasing. The result holds exactly the old elements and x. |
| LowestValue.SortedDistinct | exercise_files/q4b_lowest_value.rb:3-5 | `sort.uniq` is strictly increasing and holds exactly the values of its input. |
| LowestValue.SortedDistinctUnique | exercise_files/q4b_lowest_value.rb:3-5 | Any strictly increasing listing of exactly the input's values is `sort.uniq` of it. |
| LowestValue.NthLowest | exercise_files/q4b_lowest_value.rb:3-17 | A result is a value of the input with exactly n - 1 smaller distinct values. There is no result (nil) exactly when n < 1 or n exceeds the number of distinct values. |
| LowestValue.NthLowestUnique | exercise_files/q4b_lowest_value.rb:3-17 | Conversely, any input value with n - 1 smaller distinct values is the result. |
| LowestValue.DefaultIsMinimum | exercise_files/q4b_lowest_value.rb:12 | With n left out (1), the result exists for non-empty input and is at most every element. |
| LowestValue.RankStrict | exercise_files/q4b_lowest_value.rb:3-5 | A smaller value has a smaller rank. |
| LowestValue.NthLowestChar | exercise_files/q4b_lowest_value.rb:15-17 | On a String, the result is a character of it with exactly n - 1 smaller distinct characters, or nil when n is out of range. |
| LowestValue.ThirdLowest | exercise_files/q4b_lowest_value.rb:8 | `nth_lowest(nums, 3) == 42` |
| LowestValue.FifthLowest | exercise_files/q4b_lowest_value.rb:9 | `nth_lowest(nums, 5) == 12312` |
| LowestValue.DefaultLowest | exercise_files/q4b_lowest_value.rb:12 | `nth_lowest([1, -2, 4, 2, 1, 3, 3, 5]) == -2` |
| LowestValue.FourthLowest | exercise_files/q4b_lowest_value.rb:13 | `nth_lowest(..., 4) == 3`: duplicates count once. |
| LowestValue.ThirdLowestChar | exercise_files/q4b_lowest_value.rb:15 | `nth_lowest('unrecognizable', 3) == 'c'` |
| LowestValue.SecondLowestChar | exercise_files/q4b_lowest_value.rb:16 | `nth_lowest('jump', 2) == 'm'` |
| LowestValue.FifthLowestChar | exercise_files/q4b_lowest_value.rb:17 | `nth_lowest('abracadabra', 5) == 'r'` |
| WordSlices.WordSlices | exercise_files/q4c_word_slices.rb:3-8 | A word shorter than two characters is returned alone. Otherwise every element has at least two characters. |
| WordSlices.WordSlicesAreSlices | exercise_files/q4c_word_slices.rb:9-12 | Each element is the slice of the word that its span names, and each span is a slice of at least two characters. |
| WordSlices.SpansOrdered | exercise_files/q4c_word_slices.rb:9-12 | Slices are listed strictly by start, then by end, so none is repeated. |
| WordSlices.SpansComplete | exercise_files/q4c_word_slices.rb:9-12 | Every slice of at least two characters is listed. |
| WordSlices.WordSlicesCount | exercise_files/q4c_word_slices.rb:9-12 | A word of n >= 2 characters has n(n-1)/2 slices. |
| WordSlices.WordSlicesFirstGroup | exercise_files/q4c_word_slices.rb:9-12 | The first slice is the first two characters, and the whole word ends the first group. |
| WordSlices.SlicesOfI | exercise_files/q4c_word_slices.rb:7 | `word_slices('i') == ["i"]` |
| WordSlices.SlicesOfTo | exercise_files/q4c_word_slices.rb:8 | `word_slices('to') == ["to"]` |
| WordSlices.SlicesOfAre | exercise_files/q4c_word_slices.rb:9 | `word_slices('are') == ["ar", "are", "re"]` |
| WordSlices.SlicesOfBoat | exercise_files/q4c_word_slices.rb:10 | `word_slices('boat')` is the six slices in start-then-length order. |
| WordSlices.SlicesOfTable | exercise_files/q4c_word_slices.rb:11-12 | `word_slices('table')` is the ten slices in start-then-length order. |
| OneCharDiff.NoMismatches | exercise_files/q6a_one_char_diff.rb:9 | No mismatching position means the strings are equal, and conversely. |
| OneCharDiff.AtMostOneMismatch | exercise_files/q6a_one_char_diff.rb:3-5 | Counting at most one mismatch is the same as no two positions differing. |
| OneCharDiff.IsOneCharDiff | exercise_files/q6a_one_char_diff.rb:3-22 | Counted by mismatches, the words match exactly when they have equal length and, case folded, no two positions differ. |
| OneCharDiff.DifferentLengths | exercise_files/q6a_one_char_diff.rb:13-14 | Words of different lengths never match. |
| OneCharDiff.TwoDifferences | exercise_files/q6a_one_char_diff.rb:15-16 | Two differing positions, after case folding, rule a match out. |
| OneCharDiff.ChangeOneChar | exercise_files/q6a_one_char_diff.rb:7-11 | Replacing one character of a word always gives a match, and so does the word itself. |
| OneCharDiff.IgnoresCase | exercise_files/q6a_one_char_diff.rb:8 | Case folding either argument first changes nothing. |
| OneCharDiff.Symmetric | exercise_files/q6a_one_char_diff.rb:3-5 | The relation is symmetric. |
| OneCharDiff.BarCar | exercise_files/q6a_one_char_diff.rb:7 | `is_one_char_diff('bar', 'car')` |
| OneCharDiff.BarBat | exercise_files/q6a_one_char_diff.rb:8 | `is_one_char_diff('bar', 'Bat')` |
| OneCharDiff.BarBar | exercise_files/q6a_one_char_diff.rb:9 | `is_one_char_diff('bar', 'bar')` |
| OneCharDiff.BarBaZ | exercise_files/q6a_one_char_diff.rb:10 | `is_one_char_diff('bar', 'baZ')` |
| OneCharDiff.AB | exercise_files/q6a_one_char_diff.rb:11 | `is_one_char_diff('A', 'b')` |
| OneCharDiff.AEmpty | exercise_files/q6a_one_char_diff.rb:13 | not `is_one_char_diff('a', '')` |
| OneCharDiff.BarBark | exercise_files/q6a_one_char_diff.rb:14 | not `is_one_char_diff('bar', 'bark')` |
| OneCharDiff.BarArt | exercise_files/q6a_one_char_diff.rb:15 | not `is_one_char_diff('bar', 'Art')` |
| OneCharDiff.BarBot | exercise_files/q6a_one_char_diff.rb:16 | not `is_one_char_diff('bar', 'bot')` |
| OneCharDiff.ABEmpty | exercise_files/q6a_one_char_diff.rb:17 | not `is_one_char_diff('ab', '')` |
| OneCharDiff.FoodGood | exercise_files/q6a_one_char_diff.rb:19 | `is_one_char_diff('Food', 'good')` |
| OneCharDiff.FoodFold | exercise_files/q6a_one_char_diff.rb:20 | `is_one_char_diff('food', 'fold')` |
| OneCharDiff.FoodFoody | exercise_files/q6a_one_char_diff.rb:21 | not `is_one_char_diff('food', 'Foody')` |
| OneCharDiff.FoodFled | exercise_files/q6a_one_char_diff.rb:22 | not `is_one_char_diff('food', 'fled')` |
| AlphaOrder.Words | exercise_files/q6b_alpha_order.rb:16-18 | `split` yields non-empty words without whitespace. |
| AlphaOrder.WordsAppend | exercise_files/q6b_alpha_order.rb:16-18 | Splitting a phrase at a whitespace character splits its word list there. |
| AlphaOrder.IsAlphaOrder | exercise_files/q6b_alpha_order.rb:3-18 | Checked neighbour by neighbour, a phrase is in order exactly when every case-folded word is sorted, or reverse sorted, over all pairs of its characters. |
| AlphaOrder.AllMonotone | exercise_files/q6b_alpha_order.rb:7-18 | Every word ascends or descends between neighbours exactly when every word is sorted one way or the other over all pairs. |
| AlphaOrder.AscendingIsSorted | exercise_files/q6b_alpha_order.rb:7-8 | Characters that ascend neighbour by neighbour are sorted over every pair, and conversely. |
| AlphaOrder.DescendingIsReverseSorted | exercise_files/q6b_alpha_order.rb:9 | The same holds for descending characters. |
| AlphaOrder.NotMonotone | exercise_files/q6b_alpha_order.rb:12-14 | A word fails exactly when some pair of characters rises and some pair falls. |
| AlphaOrder.AlphaOrderSplit | exercise_files/q6b_alpha_order.rb:16-18 | A phrase is in order exactly when both halves around a whitespace character are. |
| AlphaOrder.AlphaOrderWord | exercise_files/q6b_alpha_order.rb:7-14 | A single word is in order exactly when its case-folded characters are monotone. |
| AlphaOrder.IgnoresCase | exercise_files/q6b_alpha_order.rb:10 | Case folding the input first changes nothing. |
| AlphaOrder.Bot | exercise_files/q6b_alpha_order.rb:7 | `is_alpha_order('bot')` |
| AlphaOrder.Art | exercise_files/q6b_alpha_order.rb:8 | `is_alpha_order('art')` |
| AlphaOrder.Toe | exercise_files/q6b_alpha_order.rb:9 | `is_alpha_order('toe')`: descending characters pass. |
| AlphaOrder.AborT | exercise_files/q6b_alpha_order.rb:10 | `is_alpha_order('AborT')` |
| AlphaOrder.Are | exercise_files/q6b_alpha_order.rb:12 | not `is_alpha_order('are')` |
| AlphaOrder.Boat | exercise_files/q6b_alpha_order.rb:13 | not `is_alpha_order('boat')` |
| AlphaOrder.Flee | exercise_files/q6b_alpha_order.rb:14 | not `is_alpha_order('Flee')` |
| AlphaOrder.ToeGotBit | exercise_files/q6b_alpha_order.rb:16 | `is_alpha_order('Toe got bit')` |
| AlphaOrder.AllIsWell | exercise_files/q6b_alpha_order.rb:17 | not `is_alpha_order('All is well')` |
| AlphaOrder.FoodIsGood | exercise_files/q6b_alpha_order.rb:18 | not `is_alpha_order('Food is good')` |
| MaxNested.MaxNested | exercise_files/q6c_max_nested.rb:3-20 | The one-pass scan's answer meets the reference meaning: -1 exactly when the braces are not properly nested, and otherwise the largest depth over all prefixes. |
| MaxNested.DepthStep | exercise_files/q6c_max_nested.rb:9-17 | One more character moves the depth by +1 at `{`, by -1 at `}`, and not at all otherwise. |
| MaxNested.ScanMeets | exercise_files/q6c_max_nested.rb:3-20 | Resumed from any state it can reach, the scan gives the reference answer: -1 exactly when the braces are not properly nested, and otherwise the largest depth over all prefixes. |
| MaxNested.MeetsUnique | exercise_files/q6c_max_nested.rb:3-20 | At most one answer meets the reference meaning. |
| MaxNested.MaxNestedMeets | exercise_files/q6c_max_nested.rb:3-20 | The scan's answer meets the reference meaning, and it is the only answer that does. |
| MaxNested.MaxNestedBraces | exercise_files/q6c_max_nested.rb:3-5 | The loop with a depth counter, a running maximum and an early return for `{}` and for an unopened `}` computes the reference answer. |
| MaxNested.Bounds | exercise_files/q6c_max_nested.rb:7-20 | The answer is -1 or a depth between 0 and the number of `{`. |
| MaxNested.NoBraces | exercise_files/q6c_max_nested.rb:7 | Text without braces has depth 0. |
| MaxNested.Unclosed | exercise_files/q6c_max_nested.rb:8 | A group still open at the end gives -1. |
| MaxNested.Unopened | exercise_files/q6c_max_nested.rb:14 | A `}` that takes the depth below zero gives -1. |
| MaxNested.EmptyGroup | exercise_files/q6c_max_nested.rb:19-20 | An empty group anywhere gives -1. |
| MaxNested.Plain | exercise_files/q6c_max_nested.rb:7 | `'a*b'` gives 0. |
| MaxNested.OpenAtEnd | exercise_files/q6c_max_nested.rb:8 | `'a*b{'` gives -1. |
| MaxNested.OneGroup | exercise_files/q6c_max_nested.rb:9 | `'a*{b+c}'` gives 1. |
| MaxNested.TwoSiblings | exercise_files/q6c_max_nested.rb:10 | `'{a+2}*{b+c}'` gives 1. |
| MaxNested.TwoDeep | exercise_files/q6c_max_nested.rb:11 | `'a*{b+c*{e*3.14}}'` gives 2. |
| MaxNested.ExtraCloseAtEnd | exercise_files/q6c_max_nested.rb:12 | `'a*{b+c*{e*3.14}}}'` gives -1. |
| MaxNested.ExtraClose | exercise_files/q6c_max_nested.rb:13 | `'a*{b+c}}'` gives -1. |
| MaxNested.CloseFirst | exercise_files/q6c_max_nested.rb:14 | `'}a+b{'` gives -1. |
| MaxNested.NestedSiblings | exercise_files/q6c_max_nested.rb:15 | `'{{a+2}*{b+c}+e}'` gives 2. |
| MaxNested.ThreeDeep | exercise_files/q6c_max_nested.rb:16 | `'{{a+2}*{b+{c*d}}+e}'` gives 3. |
| MaxNested.FourDeep | exercise_files/q6c_max_nested.rb:17 | `'{{a+2}*{{b+{c*d}}+e*d}}'` gives 4. |
| MaxNested.OneCloseTooMany | exercise_files/q6c_max_nested.rb:18 | `'{{a+2}*{{b}+{c*d}}+e*d}}'` gives -1. |
| MaxNested.EmptyAtEnd | exercise_files/q6c_max_nested.rb:19 | `'a*b+{}'` gives -1. |
| MaxNested.EmptyInside | exercise_files/q6c_max_nested.rb:20 | `'a*{b+{}+c*{e*3.14}}'` gives -1. |
| RubyValues.Repeat | programs/styled_greeting.rb:5 | `s * n` has length \|s\| * n and, for n > 0, starts with s. |
| RubyValues.RepeatChar | programs/styled_greeting.rb:5 | A one-character string repeated n times has n characters, all of them that character. |
| RubyValues.LowerChar | exercise_files/q6a_one_char_diff.rb:8 | `downcase` maps each upper-case ASCII letter to its lower-case form and leaves every other character alone, whitespace included. |
| RubyValues.LowerIdempotent | exercise_files/q6a_one_char_diff.rb:8 | Folding case twice is folding it once. |
| Banner.Center | programs/styled_greeting.rb:6 | `msg.center(w)` has length max(w, \|msg\|). The message sits at offset (length - \|msg\|) / 2, which puts an odd extra space on the right, and everything else is a space. |
| Banner.Greeting | programs/styled_greeting.rb:3-7 | A negative width `msg.size + 2*fill` fails with ArgumentError "negative argument". Otherwise there are three lines: the first and last are the same border of \|style\| * width characters, and the middle is the message centred in width. |
| Banner.RepeatBlocks | programs/styled_greeting.rb:5 | Block j of `s * n` is s, for every j < n. |
| Banner.BorderRepeatsStyle | programs/styled_greeting.rb:5 | Each of the width consecutive blocks of the border is the style string. |
| Banner.BorderOfOneChar | programs/styled_greeting.rb:5 | With a one-character style, the border is that character once per column. |
| Banner.MiddleLine | programs/styled_greeting.rb:6 | For fill >= 0, the middle line is fill spaces, the message, and fill spaces. |
| Banner.NarrowBanner | programs/styled_greeting.rb:4-6 | With a one-character style, a negative fill that still leaves a non-negative width makes the border shorter than the message, and prints the message unpadded. |
| StyledGreeting.StyledGreeting | programs/styled_greeting.rb:3 | A missing trailing argument takes its default: style `*` and fill 5. |
| StyledGreeting.DefaultsAreExplicit | programs/styled_greeting.rb:9-12 | Leaving an argument out is the same as passing its default. |
| StyledGreeting.DefaultFillPads | programs/styled_greeting.rb:11-12 | With the default fill the banner always exists, pads the message by five spaces a side, and the border has \|style\| * (\|msg\| + 10) characters. |
| StyledGreeting.Hi | programs/styled_greeting.rb:10 | `greeting('hi')` prints 12 `*`, `hi` centred in 12 columns, and 12 `*`. |
| StyledGreeting.Oh | programs/styled_greeting.rb:12 | `greeting('oh', style_char='=')` prints the same banner with `=`. |
| StyledGreeting.FortyTwo | programs/styled_greeting.rb:14 | `greeting('42', style_char='%', fill=2)` prints 6 `%`, `  42  ` and 6 `%`. |
| StyledGreeting.Pi | programs/styled_greeting.rb:16 | `greeting('3.14', style_char='*', fill=1)` prints 6 `*`, ` 3.14 ` and 6 `*`. |
| KeywordArgs.KeywordGreeting | programs/keyword_args.rb:3-7 | Each keyword left out takes its default (style `*`, fill 5) independently of the other. |
| KeywordArgs.AgreesWithPositional | programs/keyword_args.rb:3 | Every positional call has a keyword call with the same banner. Setting only fill by keyword matches the positional call with style `*`. |
| KeywordArgs.FillAlone | programs/keyword_args.rb:12 | Setting only fill keeps the `*` border and pads by exactly fill spaces. |
| KeywordArgs.NegativeWidth | programs/keyword_args.rb:4-5 | A fill that makes the width negative raises ArgumentError "negative argument", whatever the style. |
| KeywordArgs.Hi | programs/keyword_args.rb:9 | `greeting('hi')` |
| KeywordArgs.Oh | programs/keyword_args.rb:10 | `greeting('oh', style_char: '=')` |
| KeywordArgs.FortyTwo | programs/keyword_args.rb:11 | `greeting('42', fill: 2, style_char: '%')`: keyword order does not matter. |
| KeywordArgs.Pi | programs/keyword_args.rb:12 | `greeting('3.14', fill: 1)`: fill set on its own. |

## Left out

- Floating point is not modelled as IEEE 754. A Float is an exact decimal
  `mantissa * 10^exponent`. So the assertion at
  `exercise_files/q4a_array_product.rb:8`, a product of Floats compared with a
  rounded result, is not modelled.
- `product` is modelled on Integers only. The product of an empty Array is
  taken as 1; the exercise never calls it that way.
- In the `nth_lowest` list at `exercise_files/q4b_lowest_value.rb:7`, the
  element `234.2e3` is a Float. It is modelled as the Integer 234200, because
  only its order matters.
- LowestValue.NthLowest: an `n` below 1 or beyond the number of distinct
  values gives nil (`None`). For n below 1, a Ruby index of n - 1 into the
  distinct sorted values counts from the end (n = 0 would give the largest
  value); the assertions never pass such an n.
- The prefixed literals `0x1f`, `0b101` and `010` are resolved by Ruby's parser
  before `num` is called, so they reach `num` as Integers. String forms such as
  `num('0x1f')` and digit separators such as `1_000` are not accepted by the
  model's literal grammar. The grammar is an optional sign, decimal digits, an
  optional fraction and an optional exponent.
- ToNum.Num: a digit string is always read in decimal. Text such as `'010'`
  reads as ten, not as Ruby's octal 8, and `'08'` is accepted as 8 where Ruby's
  `Integer('08')` raises ArgumentError. The literal `010` at
  `exercise_files/q2d_to_num.rb:10` is an Integer before the call, so the
  octal rule does not reach `num` there.
- ToNum.Strip: ASCII whitespace only (space, tab, newline, vertical tab, form
  feed, carriage return). Ruby's `strip` also treats NUL as removable.
- AlphaOrder.IsAlphaOrder: non-letter characters inside a word are compared by
  code along with the letters; no assertion contains one.
- RubyValues.LowerChar: case folding is ASCII only; Ruby's full Unicode case
  mapping is not modelled.
- IntLength.LenInt: `len_int(0)` is taken as 1, the length of `"0"`; the exercise never calls it
  with 0.
- `puts` is left out: the greeting returns its three lines instead of printing
  them.
- StyledGreeting.StyledGreeting: a positional call cannot give fill without
  style_char. The model therefore has no such case, just as Ruby has none.
- `programs/exit_status.rb` runs shell commands and reports their exit
  statuses. It is process I/O with no pure core, so it is not part of this
  model.
- `exercise_files/q7a_longest_word.rb` reads a local file and a URL. It is not
  part of this model.

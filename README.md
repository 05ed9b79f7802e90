# basic-odometer — a Dafny model of the digit-transition engine

`src/Odometer.js` is a DOM widget. It shows a number on vertical "reels"
of digits and animates them from the old value to the new one. This project
models the part of it that decides *what* is shown:

- the `Value` parser, which splits a number's text into sign, integer
  digits, decimals and exponent;
- `isometricfyWithValue`, which pads and groups both values to the same
  layout, using `_zeroPadding` and `_commafyString`;
- the configuration: defaults, `_validateRadixMarks`, `_setUserOptions`
  and the `set…` setters;
- the reel columns: `_createsymbolsVector` and `_createSymbolsMatrix`;
- the reel classes: `_getReelClasses`;
- the clean-up of leading zeros after an animation:
  `_removeRemainingLeadingZerosAndRadix`;
- one reel's animation state: `Reel.init`'s animatable rule, `animateReel`
  and a frame of `_animate`;
- the widget's `set` and getters, as a class whose fields are the
  widget's own state: `config`, `currentValue` and the `data-number` and
  `data-string` attributes.

Modules follow the program's pieces:

| File | Module | Contents |
|---|---|---|
| `wrappers.dfy` | `Wrappers` | `Option`, `Result`, `Outcome` |
| `strings.dfy` | `Strings` | digit and string helpers (`IndexOf`, `ReplaceFirst`, `RemoveAll`, `SameLayout`, `Zeros`) |
| `value.dfy` | `NumericValue` | JS number values and the `Value` constructor |
| `config.dfy` | `Configuration` | defaults, validation, options, setters' configuration updates |
| `padding.dfy` | `Padding` | `_zeroPadding` and `_commafyString` |
| `isometric.dfy` | `Isometric` | `isometricfyValues` and `isometricfyWithValue` |
| `vector.dfy` | `Vector` | `_createsymbolsVector` |
| `matrix.dfy` | `SymbolsMatrix` | `_createSymbolsMatrix` |
| `classes.dfy` | `ReelClasses` | `_getReelClasses` |
| `cleanup.dfy` | `Cleanup` | `_removeRemainingLeadingZerosAndRadix` |
| `reel.dfy` | `ReelAnimation` | the `Reel` class |
| `odometer.dfy` | `Widget` | the widget object and its API |

A JavaScript number is one of three things:

- `Blank`, the initial `currentValue = ''`;
- `Finite(text)`, where `text` is what the number's `toString` gives;
- `NaN`.

The number a `Value` denotes is the exact real spelled by its parsed parts.

Where the code and its documentation disagree, the model follows the code:

- With `minIntegersLength` 6 and radix mark ',', `set(123)` renders
  "000123", not "000,123". The digits are only grouped when
  `commafyLeadingZeros` is set, or when the value's own digits already
  need a mark. This is `Widget.SixDigitsExample`.
- An absent `initValue` is `+undefined`, i.e. NaN, not 0. The first `set`
  therefore still renders NaN's parts (none).
- The "Unable to parse" error of the `Value` constructor can never fire:
  the pattern's groups are all optional, so it matches every string.
  `NumericValue.MatchNumber` is total.
- The vector builder's documented examples are one turn short. With
  `loops = 1` the column has 20 digits, not 10.
- Distinct radix and decimal marks are not an invariant of the stored
  configuration. `setRadixMark`/`setDecimalMark` do not check them. A
  radix mark "." with no decimal mark passes validation and keeps the
  default decimal mark ".".

## Model

Four functions that transcribe a source function carry their properties in
lemmas: `Isometric.IsometricfyWithValue` (`isometricfyWithValue`) in
`Isometric.IntegerParts`, `Isometric.DecimalParts`,
`Isometric.RenderedStringsAligned`, `Isometric.NormalizedParts` and
`Isometric.TargetIntegerPart`; `Configuration.ValidateRadixMarks`
(`_validateRadixMarks`) in `Configuration.ValidationRule`;
`Padding.CommafyString` (`_commafyString`) in `Padding.CommafyIsGroup` and
`Padding.ReversedChunksGroup`; `ReelAnimation.IsAnimatable` (the rule in
`Reel.init`) in `ReelAnimation.AnimatableColumns`.

| member | source | states |
|---|---|---|
| NumericValue.MatchNumber | src/Odometer.js:244-248 | the pattern always matches: the integer and decimal groups are digit strings and a captured exponent is `e`, a sign and digits, so the parse error branch is unreachable |
| NumericValue.MatchIsGreedyPrefix | src/Odometer.js:244-245 | the match is a prefix of the text; the sign is '-' exactly when the text starts with '-'; each digit group stops at the first non-digit and the dot group is present only when a '.' follows the integer digits |
| NumericValue.FullMatch | src/Odometer.js:244-255 | on the text of any finite number the match spells the whole text and the integer group is non-empty |
| NumericValue.NewValue | src/Odometer.js:242-256 | the parts are digit strings, the value is the number the text denotes ('' is 0, NaN has none), and `isNegative` holds exactly when the text starts with '-' |
| NumericValue.NewValueSpellsText | src/Odometer.js:250-255 | round trip: sign, integer digits, dot, decimals and exponent concatenate back to the number's text, and the integer digits are non-empty |
| NumericValue.BlankIsZero | src/Odometer.js:69 | the initial '' parses to value 0, positive, with no digits, no dot and no exponent |
| Configuration.UserConfig | src/Odometer.js:704-740 | every stored field: a supported mark is taken, otherwise "" (radix) or "." (decimal); the currency symbol passes through; a position whose lower-case form is supported is kept as given, otherwise "start"; `commafyLeadingZeros` only when given true; a positive integer length, otherwise 1; a non-negative decimal length, otherwise 0; a non-zero duration, otherwise 1800; a given easing, otherwise ease-out-quad; so the configuration always has supported marks and lengths within bounds |
| Configuration.ValidationRule | src/Odometer.js:432-463 | contract of `ValidateRadixMarks`: validation fails exactly when a given radix mark is unsupported, a given decimal mark is unsupported, or both are given and equal; after a pass with both given the stored marks differ |
| Configuration.EqualSupportedMarksRefused | src/Odometer.js:453-462 | two supported marks given equal are refused with the equal-marks error |
| Configuration.DotRadixWithDefaultDecimal | src/Odometer.js:706-716 | radix mark "." with no decimal mark passes validation and stores "." for both marks |
| Configuration.WithRadixMark | src/Odometer.js:765-771 | only the radix mark changes; it becomes the argument's first character when that is a supported mark, and "" otherwise |
| Configuration.WithDecimalMark | src/Odometer.js:781-786 | only the decimal mark changes; it becomes the argument's first character (of "." when absent) when that is supported, and "." otherwise |
| Configuration.WithMinIntegersLength | src/Odometer.js:798-800 | only `minIntegersLength` changes; a given positive length is stored, an absent or non-positive one stores 1 |
| Configuration.WithMinDecimalsLength | src/Odometer.js:804-806 | only `minDecimalsLength` changes; a given non-negative length is stored, an absent or negative one stores 0 |
| Configuration.SupportedMarksKept | src/Odometer.js:765-786 | a setter given a supported mark stores exactly that mark, and repeating the call changes nothing |
| Configuration.CurrencyPositionSetting | src/Odometer.js:811-815 | the lower-cased argument when it is "start" or "end", otherwise "start" (also when absent); always one of the two |
| Padding.Padded | src/Odometer.js:385-396 | the result is `max(length, valueLength)` long: zeros then the value on the left side, the value then zeros on the right; digits stay digits |
| Padding.ZeroPadding | src/Odometer.js:385-396 | the loop's result is exactly `Padded(value, valueLength, side)` |
| Padding.ZeroPaddingExamples | src/Odometer.js:382-383 | "123" to 5 gives "00123" on the left and "12300" on the right |
| Padding.ReversedChunksGroup | src/Odometer.js:410-419 | reversing, cutting into chunks of three, joining with the mark and reversing back is `Group`: a mark before every third digit from the right |
| Padding.CommafyIsGroup | src/Odometer.js:407-421 | contract of `CommafyString`: on a digit string the formatter's output is `Group` of it |
| Padding.GroupExamples | src/Odometer.js:403-405 | "1234" groups to "1,234" and "0000012" to "0,000,012" |
| Padding.GroupLength | src/Odometer.js:407-421 | grouping n > 0 digits with a one-character mark gives `n + (n - 1) / 3` characters |
| Padding.GroupAt | src/Odometer.js:407-421 | counting from the right, every fourth character is the mark and the others are the digits in order |
| Padding.GroupUnmarked | src/Odometer.js:407-421 | deleting the mark from a grouped string gives back the digits |
| Padding.GroupWithoutMark | src/Odometer.js:407-421 | grouping with the empty mark leaves the string unchanged |
| Padding.GroupLayout | src/Odometer.js:407-421 | two digit strings of equal length group to the same layout (same length, marks at the same places) |
| Padding.GroupHasMark | src/Odometer.js:407-421 | a grouped digit string holds the mark exactly when it has more than three digits |
| Padding.GroupChars | src/Odometer.js:407-421 | a grouped string holds only the input's characters and the mark |
| Padding.GroupSuffix | src/Odometer.js:407-421 | grouping a suffix of the digits gives a suffix of the grouped string |
| Padding.GroupFirst | src/Odometer.js:407-421 | the grouped string starts with the first digit |
| Isometric.IsometricfyValues | src/Odometer.js:367-372 | both strings come back with the length of the longer one |
| Isometric.ShouldBeCommafiedRule | src/Odometer.js:279-282 | the new value's digits "should be commafied" exactly when the radix mark is "" or there are more than three of them |
| Isometric.PaddedTwiceLeft | src/Odometer.js:265-277 | padding to the other value's length and then to the minimum is one left padding to the larger of the lengths |
| Isometric.PaddedTwiceRight | src/Odometer.js:295-310 | the same on the right for decimals |
| Isometric.IntegerPadding | src/Odometer.js:265-277 | both integer parts become zeros then digits, to the width `max(both lengths, minIntegersLength)` |
| Isometric.DecimalPadding | src/Odometer.js:295-310 | both decimal parts become digits then zeros, to the width `max(both lengths, minDecimalsLength)` |
| Isometric.GroupedIfDigits | src/Odometer.js:284-293 | an optionally grouped digit string holds only digits and the mark, and deleting the mark gives the digits back |
| Isometric.GroupedIfLayout | src/Odometer.js:284-293 | equal-length digit strings grouped alike have the same layout |
| Isometric.IntegerParts | src/Odometer.js:264-293 | contract of `IsometricfyWithValue` (with `DecimalParts`, `RenderedStringsAligned`, `NormalizedParts`): both integer parts are the zero-padded digits, grouped exactly when `commafyLeadingZeros`, the radix mark is "" or the new value has more than three digits; deleting marks gives the padded digits back; the two parts have the same layout |
| Isometric.DecimalParts | src/Odometer.js:295-346 | both decimal parts are right-padded to a common width; `hasDot` holds exactly when there are decimals, and holds for both values or neither |
| Isometric.UnsignedOne | src/Odometer.js:333-354 | removing the first '-' from a rendered string leaves integer part, '.' when there are decimals, and decimals |
| Isometric.RenderedStringsAligned | src/Odometer.js:264-357 | after removing the sign, the two rendered strings have the same length and marks at the same places |
| Isometric.NormalizedParts | src/Odometer.js:323-357 | integer parts hold digits and radix marks only, decimals hold digits only, and each unsigned rendered string is integer part, dot and decimals |
| Isometric.TargetIntegerPart | src/Odometer.js:264-293 | the new value's integer part is its digits padded to at least `minIntegersLength`, grouped by the same rule |
| Vector.CreateSymbolsVector | src/Odometer.js:541-564 | the loop builds exactly `SymbolsVector(start, end, loops, order)` |
| Vector.VectorSteps | src/Odometer.js:548-562 | each digit of a column is the previous one plus one, modulo 10, in both orders (a descending column is built back to front) |
| Vector.StepsReachLast | src/Odometer.js:548-562 | the column's first digit plus its step count reaches its last digit modulo 10 |
| Vector.VectorEnds | src/Odometer.js:541-564 | a column has `steps + 1 + 10 * loops` digits, all 0–9; ascending it runs from start to end, descending from end to start |
| Vector.VectorTargets | src/Odometer.js:553-560 | where the end digit occurs: ascending every ten places after the step count, descending every ten places from the top |
| Vector.DocExamples | src/Odometer.js:538-539 | 0 to 9 with no extra loop is the ten digits; with `loops = 1` it is 20 digits, twice the ten, where the comment documents 10 |
| Vector.HitsBound | src/Odometer.js:550-560 | the end digit is met `loops + 1` times over the whole column and at most `loops` times before its last place, so the loop stops exactly there |
| SymbolsMatrix.FirstDotReplaced | src/Odometer.js:580-586 | only the first '-' is removed and only the first '.' becomes the decimal mark |
| SymbolsMatrix.CreateSymbolsMatrix | src/Odometer.js:572-611 | one column per character of the target: a fixed column (its own character) where the prefixes agree or the target holds a mark, otherwise a rotating column from the old digit to the new one with one extra turn per rotating column before it |
| SymbolsMatrix.RotatingBeforeGrows | src/Odometer.js:591-607 | the count of rotating columns before a position never decreases, and it grows past each rotating column |
| SymbolsMatrix.RotatingColumn | src/Odometer.js:603-607 | a rotating column has `steps + 1 + 10 * earlier rotating columns` digits and runs from the old digit to the new one in the matrix's order |
| SymbolsMatrix.LaterColumnsLonger | src/Odometer.js:591-607 | of two rotating columns, the later one is strictly longer, so reels further right spin more |
| SymbolsMatrix.ChangeSpreads | src/Odometer.js:591-601 | once the prefixes differ, every later non-mark column rotates; where the prefix up to a later column agrees, every column up to it is fixed |
| SymbolsMatrix.PreparedShape | src/Odometer.js:580-586 | the prepared string has the integer part's length, plus one and the decimals when present; its marks are the integer part's marks and the decimal mark at the end of the integer part |
| SymbolsMatrix.PairInputs | src/Odometer.js:580-588 | two aligned normalized values give matrix inputs of the same layout, with digits wherever the target has no mark |
| SymbolsMatrix.TransitionInputs | src/Odometer.js:264-357 | any two parsed values, once normalized, give valid matrix inputs whose marks sit at the radix marks and the decimal mark |
| ReelClasses.GetReelClasses | src/Odometer.js:668-698 | the loop builds exactly `ClassList`: a class per integer character, then the decimal mark class and one class per decimal |
| ReelClasses.CleanedCount | src/Odometer.js:674-679 | the count after deleting radix marks is the number of non-mark characters |
| ReelClasses.IntegerExponents | src/Odometer.js:679-687 | a digit's integer class has as its exponent the number of digits to its right |
| ReelClasses.ClassesOfTarget | src/Odometer.js:668-698 | the classes line up with the target string: mark classes exactly at marks, integer exponents counting digits to the right, decimal positions counting from the decimal mark |
| ReelClasses.ClassesAlign | src/Odometer.js:509-519 | for any transition, the classes of the new value line up with the columns of the matrix |
| Cleanup.BeforeFirst | src/Odometer.js:623-625 | `split(sep)[0]`: a prefix without the separator that is the whole string when the separator is absent and otherwise stops exactly at its first occurrence |
| Cleanup.BeforeFirstExample | src/Odometer.js:623-625 | "12.5" cut at '.' keeps "12"; "1,234" has no '.' and is kept whole |
| Cleanup.LeadingZerosToDrop | src/Odometer.js:634-646 | the leading-zero loop never runs past the cleaned string |
| Cleanup.LeadingZerosDropped | src/Odometer.js:634-646 | only zeros are dropped, at least `minIntegersLength` digits remain, and the loop stops at a non-zero unless it is at the minimum |
| Cleanup.RadixPassesCount | src/Odometer.js:648-660 | the radix loop runs `max(0, marks - (remaining - 1) / 3)` times |
| Cleanup.RemoveRemainingLeadingZerosAndRadix | src/Odometer.js:619-661 | the method marks reels `0..k-1` for removal, k being the dropped zeros, and always marks `radixMarks[0]`, once per pass of the radix loop |
| Cleanup.CleanupOfPart | src/Odometer.js:623-646 | corrected: deleting marks from a grouped or plain digit string gives the digits, and skipping k digits (counting reels, marks included) leaves the grouped remainder |
| Cleanup.CleanupKeepsGrouping | src/Odometer.js:619-661 | corrected: after any transition, cutting k digits from the target's reels leaves the trimmed digits grouped exactly as before |
| Cleanup.LeadingZerosCountMarks | src/Odometer.js:634-646 | as written: with radix ',' the target "0,005" drops 3 reels by a digit index, leaving "05" on screen, and one radix pass removes the only mark |
| Cleanup.LeadingZerosIntended | src/Odometer.js:634-646 | corrected: three digits of "0,005" span four reels, leaving "5" |
| Cleanup.DecimalCommaCountsDecimals | src/Odometer.js:623-625 | as written: with decimal mark ',' the normalized "00.5" is not split, two zeros are dropped and the reels show ",5" |
| Cleanup.DecimalCommaIntended | src/Odometer.js:623-646 | corrected: splitting on '.' drops one zero and leaves "0,5" |
| ReelAnimation.AnimatableColumns | src/Odometer.js:121-125 | contract of `IsAnimatable`: a column animates exactly when it is not fixed and its digit changes or an earlier column rotates |
| ReelAnimation.NextFrame | src/Odometer.js:187-218 | the stored position never goes back; the offset stays within the travel distance, in the direction of the count; the reel arrives when the eased position reaches the travel or falls behind, and then shows its end |
| ReelAnimation.Reel.constructor | src/Odometer.js:83-125 | a new reel keeps its symbols and direction, animates exactly by the rule above, and starts unstarted at offset 0 |
| ReelAnimation.Reel.AnimateReel | src/Odometer.js:154-173 | a reel that does not animate changes nothing; one that does records its travel and clears its start time |
| ReelAnimation.Reel.Tick | src/Odometer.js:182-226 | one frame: the start time is taken when unset or 0, the new state is `NextFrame` of the eased elapsed time, the reel settles exactly when the callback would run, and the invariant is kept |
| ReelAnimation.PositionsMonotone | src/Odometer.js:200-202 | over any run of frames the stored position never decreases and is at least every eased position seen so far |
| Widget.ToNumber | src/Odometer.js:834 | unary plus turns '' into the number 0 (same numeric value) and leaves numbers unchanged, so it never yields '' |
| Widget.RepeatedSet | src/Odometer.js:835-837 | setting the same number again is a no-op exactly when it is not NaN; no number equals the initial '' |
| Widget.BuildTransition | src/Odometer.js:839-848 | the matrix and classes are those of the two normalized values, and the direction is down exactly when the new value is smaller |
| Widget.Odometer.Init | src/Odometer.js:68-69 | a new widget holds the configuration, `currentValue` '' and nothing rendered |
| Widget.Odometer.Create | src/Odometer.js:873-875 | construction fails exactly when validation does, with its error; otherwise the configuration is `UserConfig` and the initial value (NaN when absent) is rendered |
| Widget.Odometer.Set | src/Odometer.js:833-871 | a number equal to the current one changes nothing; otherwise the transition renders old to new, and the current value, `data-number` and `data-string` take the new value and its rendered string |
| Widget.Odometer.GetCurrentValue | src/Odometer.js:758-760 | `Number(currentValue)`: the exact number a finite value's text denotes, 0 before any value, and no number exactly for NaN |
| Widget.Odometer.GetCurrentOptions | src/Odometer.js:824-827 | the result is the stored configuration itself, field for field, and so satisfies the configuration bounds |
| Widget.Odometer.SetRadixMark | src/Odometer.js:765-777 | the configuration becomes `WithRadixMark` of the old one and nothing else changes |
| Widget.Odometer.SetDecimalMark | src/Odometer.js:781-793 | the configuration becomes `WithDecimalMark` of the old one, and the call then always fails with a ReferenceError |
| Widget.Odometer.SetLeadingZerosLenght | src/Odometer.js:798-800 | the configuration becomes `WithMinIntegersLength` of the old one and nothing else changes |
| Widget.Odometer.SetTrailingZerosLenght | src/Odometer.js:804-806 | the configuration becomes `WithMinDecimalsLength` of the old one and nothing else changes |
| Widget.Odometer.SetCurrencyPosition | src/Odometer.js:811-822 | the enclosing object's currency position is set to a supported one; the widget's state is unchanged |
| Widget.IntegerText | src/Odometer.js:242-256 | the text of a whole number parses to itself as integer digits, positive, without decimals or exponent |
| Widget.WholeValues | src/Odometer.js:264-357 | for whole values without decimals, the rendered new value is its padded digits, grouped by the commafy rule |
| Widget.WholeNumberTransition | src/Odometer.js:833-843 | for whole numbers, `set` renders the new digits zero-padded to the widest of both values and the minimum, grouped exactly when `commafyLeadingZeros`, no radix mark, or more than three digits |
| Widget.SixDigitsExample | src/Odometer.js:270-293 | 0 to 123 with six minimum integers and ',' renders "000123", and "000,123" with `commafyLeadingZeros` |

## Left out

- The DOM: building reel elements, measuring their heights (a reel's travel distance is a parameter), class strings and the `remaining-reel` class, and `_buildReels`' element creation. `_buildReels` is modelled only through what it is given: the matrix, the classes and the direction.
- `requestAnimationFrame`, Promises, `Promise.all` and the `setTimeout` removals: a frame is a call to `Reel.Tick` with the current time, and the clean-up is the method that says which reels and marks are removed.
- `_easeOutQuad` and floating-point arithmetic: the easing function, already rounded up to whole pixels, is a parameter `int -> int`.
- ReelAnimation.Reel.Tick: the eased position is an integer, so the `Math.ceil` of a floating-point easing is not modelled.
- Configuration.UserConfig: string-to-number coercion of non-numeric options, non-integer numeric lengths (a `minIntegersLength` of 2.5 or a `minDecimalsLength` of -0.5 is stored as given) and `animateFunction` values are not modelled; a user easing function is an opaque identifier.
- Widget.ToNumber: coercion of strings, booleans and objects by unary plus is not modelled; the argument is already a number, '' or NaN.
- Infinity and -Infinity are not modelled values.
- The currency symbol and sign elements, the text update of existing radix-mark elements in `setRadixMark`, and the text update of the `.decimal-mark` element in `setDecimalMark` (unreachable anyway behind its ReferenceError).
- Orphaned callbacks when `set` is called during an animation: each `set` is modelled as a whole.
- `example/index.js` is not part of this model.

## Findings

| source | as written | input that shows it | evidently intended | confidence | as-written member | corrected member |
|---|---|---|---|---|---|---|
| src/Odometer.js:634-646 | the leading-zero loop indexes the reels with an index into the digits after marks were deleted | radix ',', target "0,005": three zeros are dropped as reels 0–2, so "05" stays on screen | skip reels up to the third digit, marks included, leaving "5" | not executed | Cleanup.LeadingZerosCountMarks | Cleanup.LeadingZerosIntended |
| src/Odometer.js:623-625 | the integer part is cut at `config.decimalMark`, but the normalized string always holds '.' | decimal mark ',', 10.5 then 0.5: "00.5" is not cut, two zeros are dropped and ",5" stays on screen | cut at '.', drop one zero, leave "0,5" | not executed | Cleanup.DecimalCommaCountsDecimals | Cleanup.DecimalCommaIntended |
| src/Odometer.js:781-793 | `const element = element.querySelector(...)` reads the constant before it is initialized | any call to `setDecimalMark` after the configuration is written throws a ReferenceError | query the widget's own element and update the decimal-mark text | not executed | Widget.Odometer.SetDecimalMark | Configuration.WithDecimalMark |

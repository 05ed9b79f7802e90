/** The widget's configuration: the supported marks, the validation of the
    user's marks (`_validateRadixMarks`), the normalisation of user options to
    defaults (`_setUserOptions`) and the per-field updates the setters make. */
module Configuration {
  import opened Wrappers
  import opened NumericValue

  const SupportedRadixMarks: seq<string> := ["", ",", "'", "˙", ".", " "]
  const SupportedDecimalMarks: seq<string> := [".", ","]
  const SupportedCurrencyPositions: seq<string> := ["start", "end"]

  const DefaultAnimationDurationInMs := 1800

  /** The easing function: the built-in ease-out-quad or one the user passed
      in (identified only, its numerics are not modelled). */
  datatype Easing = EaseOutQuad | UserEasing(id: nat)

  datatype Config = Config(
    radixMark: string,
    decimalMark: string,
    currencySymbol: Option<string>,
    currencyPosition: string,
    commafyLeadingZeros: bool,
    minIntegersLength: int,
    minDecimalsLength: int,
    animationDurationInMs: int,
    animateFunction: Easing)

  /** The options object a caller passes; `None` is an absent key. */
  datatype UserOptions = UserOptions(
    initValue: Option<JsValue>,
    radixMark: Option<string>,
    decimalMark: Option<string>,
    currencySymbol: Option<string>,
    currencyPosition: Option<string>,
    commafyLeadingZeros: Option<bool>,
    minIntegersLength: Option<int>,
    minDecimalsLength: Option<int>,
    animationDurationInMs: Option<int>,
    animateFunction: Option<nat>)

  datatype ConfigError =
    | UnsupportedRadixMark(radixMark: string)
    | UnsupportedDecimalMark(decimalMark: string)
    | EqualMarks

  /** A present, non-empty string: what `options.radixMark && ...` tests. */
  predicate Truthy(o: Option<string>) {
    o.Some? && o.value != ""
  }

  /** `_validateRadixMarks`: the three checks in the source's order. */
  function ValidateRadixMarks(options: UserOptions): Outcome<ConfigError> {
    if Truthy(options.radixMark) && options.radixMark.value !in SupportedRadixMarks then
      Fail(UnsupportedRadixMark(options.radixMark.value))
    else if Truthy(options.decimalMark) && options.decimalMark.value !in SupportedDecimalMarks then
      Fail(UnsupportedDecimalMark(options.decimalMark.value))
    else if Truthy(options.radixMark) && Truthy(options.decimalMark)
         && options.radixMark.value == options.decimalMark.value then
      Fail(EqualMarks)
    else Pass
  }

  /** What a stored configuration always satisfies. Distinct marks are not
      part of it: a setter, or a radix mark '.' with no decimal mark given,
      stores equal marks. */
  predicate ConfigBounds(c: Config) {
    && c.radixMark in SupportedRadixMarks
    && c.decimalMark in SupportedDecimalMarks
    && c.minIntegersLength > 0
    && c.minDecimalsLength > -1
  }

  function LowerChar(c: char): char {
    if 'A' <= c <= 'Z' then (c as int + 32) as char else c
  }

  /** `toLowerCase` on the letters that decide membership in
      `SupportedCurrencyPositions`. */
  function LowerCase(s: string): (r: string)
    ensures |r| == |s|
  {
    if s == [] then [] else [LowerChar(s[0])] + LowerCase(s[1..])
  }

  /** A mark option: kept when it is in the supported list, the default
      otherwise. */
  function MarkSetting(option: Option<string>, supported: seq<string>, default: string): (m: string)
    requires default in supported
    ensures m in supported
    ensures option.Some? && option.value in supported ==> m == option.value
    ensures !(option.Some? && option.value in supported) ==> m == default
  {
    if option.Some? && option.value in supported then option.value else default
  }

  /** The `currencyPosition` option: kept as given when its lower-case form
      is supported, "start" otherwise. */
  function PositionOption(option: Option<string>): (p: string)
    ensures option.Some? && LowerCase(option.value) in SupportedCurrencyPositions ==> p == option.value
    ensures !(option.Some? && LowerCase(option.value) in SupportedCurrencyPositions) ==> p == "start"
  {
    if option.Some? && LowerCase(option.value) in SupportedCurrencyPositions then option.value else "start"
  }

  /** `_setUserOptions` after validation has passed. */
  function UserConfig(options: UserOptions): (c: Config)
    ensures ConfigBounds(c)
    ensures options.minIntegersLength.Some? && options.minIntegersLength.value > 0 ==>
      c.minIntegersLength == options.minIntegersLength.value
    ensures options.minDecimalsLength.Some? && options.minDecimalsLength.value >= 0 ==>
      c.minDecimalsLength == options.minDecimalsLength.value
    // each field, given or defaulted
    ensures c.radixMark ==
      if options.radixMark.Some? && options.radixMark.value in SupportedRadixMarks then options.radixMark.value else ""
    ensures c.decimalMark ==
      if options.decimalMark.Some? && options.decimalMark.value in SupportedDecimalMarks then options.decimalMark.value else "."
    ensures c.currencySymbol == options.currencySymbol
    ensures c.currencyPosition ==
      if options.currencyPosition.Some? && LowerCase(options.currencyPosition.value) in SupportedCurrencyPositions
      then options.currencyPosition.value else "start"
    ensures c.commafyLeadingZeros <==> options.commafyLeadingZeros == Some(true)
    ensures !(options.minIntegersLength.Some? && options.minIntegersLength.value > 0) ==> c.minIntegersLength == 1
    ensures !(options.minDecimalsLength.Some? && options.minDecimalsLength.value >= 0) ==> c.minDecimalsLength == 0
    ensures c.animationDurationInMs ==
      if options.animationDurationInMs.Some? && options.animationDurationInMs.value != 0
      then options.animationDurationInMs.value else DefaultAnimationDurationInMs
    ensures c.animateFunction == if options.animateFunction.Some? then UserEasing(options.animateFunction.value) else EaseOutQuad
  {
    var o := options;
    Config(
      radixMark := MarkSetting(o.radixMark, SupportedRadixMarks, ""),
      decimalMark := MarkSetting(o.decimalMark, SupportedDecimalMarks, "."),
      currencySymbol := o.currencySymbol,
      currencyPosition := PositionOption(o.currencyPosition),
      commafyLeadingZeros := o.commafyLeadingZeros.GetOr(false),
      minIntegersLength := if o.minIntegersLength.Some? && o.minIntegersLength.value > 0 then o.minIntegersLength.value else 1,
      minDecimalsLength := if o.minDecimalsLength.Some? && o.minDecimalsLength.value > -1 then o.minDecimalsLength.value else 0,
      animationDurationInMs :=
        if o.animationDurationInMs.Some? && o.animationDurationInMs.value != 0
        then o.animationDurationInMs.value else DefaultAnimationDurationInMs,
      animateFunction := if o.animateFunction.Some? then UserEasing(o.animateFunction.value) else EaseOutQuad)
  }

  /** Validation fails exactly when a given radix mark is unsupported, a given
      decimal mark is unsupported, or both are given and equal; on success two
      given marks end up distinct in the configuration. */
  lemma ValidationRule(options: UserOptions)
    ensures ValidateRadixMarks(options).Fail? <==>
      || (Truthy(options.radixMark) && options.radixMark.value !in SupportedRadixMarks)
      || (Truthy(options.decimalMark) && options.decimalMark.value !in SupportedDecimalMarks)
      || (Truthy(options.radixMark) && Truthy(options.decimalMark)
          && options.radixMark.value == options.decimalMark.value)
    ensures ValidateRadixMarks(options).Pass? && Truthy(options.radixMark) && Truthy(options.decimalMark) ==>
      UserConfig(options).radixMark != UserConfig(options).decimalMark
  {
  }

  /** Every pair of equal marks from the two supported lists is refused. */
  lemma EqualSupportedMarksRefused(options: UserOptions)
    requires options.radixMark.Some? && options.decimalMark.Some?
    requires options.radixMark.value in SupportedRadixMarks
    requires options.decimalMark.value in SupportedDecimalMarks
    requires options.radixMark.value == options.decimalMark.value
    ensures ValidateRadixMarks(options) == Fail(EqualMarks)
  {
  }

  /** A radix mark '.' with no decimal mark passes validation, and the stored
      configuration then has both marks equal to '.'. */
  lemma DotRadixWithDefaultDecimal(options: UserOptions)
    requires options.radixMark == Some(".") && options.decimalMark == None
    ensures ValidateRadixMarks(options).Pass?
    ensures UserConfig(options).radixMark == UserConfig(options).decimalMark == "."
  {
  }

  /** `character.charAt(0)`. */
  function FirstChar(s: string): (r: string)
    ensures |r| <= 1 && r <= s
  {
    if s == [] then [] else [s[0]]
  }

  /** `setRadixMark`'s configuration write: the first character of the
      argument when it is a supported radix mark, otherwise no mark. */
  function WithRadixMark(c: Config, character: Option<string>): (r: Config)
    ensures r == c.(radixMark := r.radixMark)
    ensures r.radixMark in SupportedRadixMarks
    ensures r.radixMark == "" || r.radixMark == FirstChar(character.GetOr(""))
    ensures FirstChar(character.GetOr("")) in SupportedRadixMarks ==> r.radixMark == FirstChar(character.GetOr(""))
    ensures FirstChar(character.GetOr("")) !in SupportedRadixMarks ==> r.radixMark == ""
    ensures ConfigBounds(c) ==> ConfigBounds(r)
  {
    var ch := FirstChar(character.GetOr(""));
    c.(radixMark := if ch in SupportedRadixMarks then ch else "")
  }

  /** `setDecimalMark`'s configuration write: the first character of the
      argument when it is a supported decimal mark, otherwise '.'. */
  function WithDecimalMark(c: Config, character: Option<string>): (r: Config)
    ensures r == c.(decimalMark := r.decimalMark)
    ensures r.decimalMark in SupportedDecimalMarks
    ensures r.decimalMark == "." || r.decimalMark == FirstChar(character.GetOr("."))
    ensures FirstChar(character.GetOr(".")) in SupportedDecimalMarks ==> r.decimalMark == FirstChar(character.GetOr("."))
    ensures FirstChar(character.GetOr(".")) !in SupportedDecimalMarks ==> r.decimalMark == "."
    ensures ConfigBounds(c) ==> ConfigBounds(r)
  {
    var ch := FirstChar(character.GetOr("."));
    c.(decimalMark := if ch in SupportedDecimalMarks then ch else ".")
  }

  /** `setLeadingZerosLenght`: a positive length is taken, anything else is 1. */
  function WithMinIntegersLength(c: Config, length: Option<int>): (r: Config)
    ensures r == c.(minIntegersLength := r.minIntegersLength)
    ensures r.minIntegersLength > 0
    ensures length.Some? && length.value > 0 ==> r.minIntegersLength == length.value
    ensures !(length.Some? && length.value > 0) ==> r.minIntegersLength == 1
    ensures ConfigBounds(c) ==> ConfigBounds(r)
  {
    var n := length.GetOr(0);
    c.(minIntegersLength := if n > 0 then n else 1)
  }

  /** `setTrailingZerosLenght`: a length above -1 is taken, anything else is 0. */
  function WithMinDecimalsLength(c: Config, length: Option<int>): (r: Config)
    ensures r == c.(minDecimalsLength := r.minDecimalsLength)
    ensures r.minDecimalsLength >= 0
    ensures length.Some? && length.value >= 0 ==> r.minDecimalsLength == length.value
    ensures !(length.Some? && length.value >= 0) ==> r.minDecimalsLength == 0
    ensures ConfigBounds(c) ==> ConfigBounds(r)
  {
    var n := length.GetOr(0);
    c.(minDecimalsLength := if n > -1 then n else 0)
  }

  /** The value `setCurrencyPosition` computes: the lower-cased argument when
      it is supported, otherwise "start". */
  function CurrencyPositionSetting(position: Option<string>): (r: string)
    ensures r in SupportedCurrencyPositions
    ensures LowerCase(position.GetOr("start")) in SupportedCurrencyPositions ==>
      r == LowerCase(position.GetOr("start"))
    ensures LowerCase(position.GetOr("start")) !in SupportedCurrencyPositions ==> r == "start"
    ensures position.None? ==> r == "start"
  {
    var p := LowerCase(position.GetOr("start"));
    if p in SupportedCurrencyPositions then p else "start"
  }

  /** Every supported mark is one character or none, so a setter given a
      supported mark stores that very mark, and a second identical call
      changes nothing. */
  lemma SupportedMarksKept(c: Config, m: string)
    ensures m in SupportedRadixMarks ==> WithRadixMark(c, Some(m)).radixMark == m
    ensures m in SupportedDecimalMarks ==> WithDecimalMark(c, Some(m)).decimalMark == m
    ensures WithRadixMark(WithRadixMark(c, Some(m)), Some(m)) == WithRadixMark(c, Some(m))
    ensures WithDecimalMark(WithDecimalMark(c, Some(m)), Some(m)) == WithDecimalMark(c, Some(m))
  {
  }
}

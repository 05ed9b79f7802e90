/** The widget itself: the closure state `config` and `currentValue`, the
    public `set`, the getters and the setters. The DOM the widget builds is
    not modelled; `set` returns instead what it would render (the symbols
    matrix, the reel classes and the direction), and records the string it
    writes to `element.dataset.string`. */
module Widget {
  import opened Wrappers
  import opened Strings
  import opened NumericValue
  import opened Configuration
  import opened Isometric
  import opened Padding
  import opened SymbolsMatrix
  import opened ReelClasses

  /** `setDecimalMark` declares `const element = element.querySelector(...)`:
      the initializer reads the new constant before it exists. */
  datatype SetterError = ReferenceError

  /** What one accepted `set` renders: one column of symbols and one class
      per reel, and whether the reels roll downwards. */
  datatype Transition = Transition(matrix: seq<seq<Symbol>>, classes: seq<ReelClass>, isDecreasing: bool)

  /** `+x`: the empty string becomes 0; numbers stay as they are. */
  function ToNumber(x: JsValue): (r: JsValue)
    ensures r != Blank
    ensures x != Blank ==> r == x
    ensures x == Blank ==> r == Finite("0") && NumericOf(r) == NumericOf(x)
  {
    if x == Blank then Finite("0") else x
  }

  /** `a === b` between the new number and `currentValue`: never for the
      initial '' (a string), never for NaN, otherwise equal numbers. */
  predicate StrictEquals(a: JsValue, b: JsValue) {
    a.Finite? && b.Finite? && NumericOf(a) == NumericOf(b)
  }

  /** A repeated `set` of the same number is a no-op exactly when that number
      is not NaN; the widget's initial '' equals no number. */
  lemma RepeatedSet(x: JsValue)
    ensures StrictEquals(ToNumber(x), ToNumber(x)) <==> !x.NaN?
    ensures !StrictEquals(ToNumber(x), Blank)
  {
  }

  /** The two normalized values of a transition from `current` to `next`. */
  function Normalize(current: JsValue, next: JsValue, cfg: Config): (NormalizedValue, NormalizedValue) {
    IsometricfyWithValue(NewValue(current), NewValue(next), cfg)
  }

  /** The rendering a transition produces, as the matrix builder and the
      class builder specify it. */
  predicate Renders(t: Transition, current: JsValue, next: JsValue, cfg: Config) {
    var (n1, n2) := Normalize(current, next, cfg);
    var fromVal := Prepared(n1.isometricValueStr, cfg.decimalMark);
    var toVal := Prepared(n2.isometricValueStr, cfg.decimalMark);
    && MatrixInputs(fromVal, toVal, cfg)
    && IsMatrix(t.matrix, fromVal, toVal, cfg, MatrixOrder(n1, n2))
    && t.classes == ClassList(n2, cfg)
    && t.isDecreasing == Less(n2.value, n1.value)
  }

  /** The part of `set` between the equality test and the commit: parse
      the old and the new value, normalize them, build the matrix
      (`_createSymbolsMatrix`) and the classes (`_getReelClasses`) that
      `_buildReels` renders, and the direction of the whole matrix. */
  method BuildTransition(current: JsValue, next: JsValue, cfg: Config) returns (t: Transition)
    requires ConfigBounds(cfg)
    ensures Renders(t, current, next, cfg)
  {
    var oldValueComponents := NewValue(current);
    var newValueComponents := NewValue(next);
    var pair := IsometricfyWithValue(oldValueComponents, newValueComponents, cfg);
    var isometricOldValue, isometricNewValue := pair.0, pair.1;
    TransitionInputs(oldValueComponents, newValueComponents, cfg);
    var matrix := CreateSymbolsMatrix(isometricOldValue, isometricNewValue, cfg);
    var classes := GetReelClasses(isometricNewValue, cfg);
    t := Transition(matrix, classes, Less(isometricNewValue.value, isometricOldValue.value));
  }

  class Odometer {
    var config: Config
    var currentValue: JsValue
    /** `element.dataset.number` and `element.dataset.string`. */
    var renderedNumber: JsValue
    var renderedString: string
    /** What `setCurrencyPosition` writes: a property of the enclosing `this`,
        not of `config`. */
    var outerCurrencyPosition: Option<string>

    ghost predicate Valid()
      reads this
    {
      ConfigBounds(config)
    }

    /** The closure's state right after `_setUserOptions`: `currentValue` is
        still ''. */
    constructor Init(cfg: Config)
      requires ConfigBounds(cfg)
      ensures Valid()
      ensures config == cfg && currentValue == Blank
      ensures renderedNumber == Blank && renderedString == "" && outerCurrencyPosition == None
    {
      config := cfg;
      currentValue := Blank;
      renderedNumber := Blank;
      renderedString := "";
      outerCurrencyPosition := None;
    }

    /** `Odometer(element, userOptions)`: validates the marks (throwing on a
        bad pair), loads the options, then sets `userOptions.initValue`, which
        is NaN when absent (`+undefined`). That first `set` always renders,
        since '' equals no number. */
    static method Create(options: UserOptions) returns (r: Result<Odometer, ConfigError>)
      ensures r.Failure? <==> ValidateRadixMarks(options).Fail?
      ensures r.Failure? ==> r.error == ValidateRadixMarks(options).error
      ensures r.Success? ==>
        var o := r.value;
        var x := ToNumber(options.initValue.GetOr(NaN));
        && fresh(o) && o.Valid()
        && o.config == UserConfig(options)
        && o.currentValue == x
        && o.renderedString == Normalize(Blank, x, o.config).1.isometricValueStr
        && o.outerCurrencyPosition == None
    {
      var outcome := ValidateRadixMarks(options);
      if outcome.Fail? {
        return Failure(outcome.error);
      }
      var o := new Odometer.Init(UserConfig(options));
      RepeatedSet(options.initValue.GetOr(NaN));
      var _ := o.Set(options.initValue.GetOr(NaN));
      return Success(o);
    }

    /** `API.set(newValue)`: nothing happens when the number equals
        `currentValue`; otherwise the old side is parsed from `currentValue`,
        both sides are normalized, the matrix and the classes are built, and
        the new number and string are committed at once (the animation runs
        on afterwards). */
    method Set(newValue: JsValue) returns (transition: Option<Transition>)
      requires Valid()
      modifies this
      ensures Valid() && config == old(config) && outerCurrencyPosition == old(outerCurrencyPosition)
      ensures var x := ToNumber(newValue);
        if StrictEquals(x, old(currentValue)) then
          && transition == None
          && currentValue == old(currentValue)
          && renderedNumber == old(renderedNumber)
          && renderedString == old(renderedString)
        else
          && transition.Some?
          && Renders(transition.value, old(currentValue), x, config)
          && currentValue == x
          && renderedNumber == x
          && renderedString == Normalize(old(currentValue), x, config).1.isometricValueStr
    {
      hide Normalize, Renders, StrictEquals, ToNumber, NumericOf;
      var x := ToNumber(newValue);
      if StrictEquals(x, currentValue) {
        return None;
      }
      var t := BuildTransition(currentValue, x, config);
      transition := Some(t);
      renderedNumber := x;
      renderedString := Normalize(currentValue, x, config).1.isometricValueStr;
      currentValue := x;
    }

    /** `API.getCurrentValue()`: `Number(currentValue)`, NaN (None) when the
        last number set was NaN. */
    function GetCurrentValue(): (r: Option<real>)
      reads this
      ensures r.None? <==> currentValue.NaN?
      ensures currentValue.Blank? ==> r == Some(0.0)
      ensures currentValue.Finite? ==> r == Some(DecimalOf(MatchNumber(currentValue.text)))
    {
      NumericOf(currentValue)
    }

    /** `API.getCurrentOptions()`: a copy of the configuration. */
    function GetCurrentOptions(): (c: Config)
      reads this
      requires Valid()
      ensures ConfigBounds(c)
      ensures c == config
    {
      config
    }

    /** `API.setRadixMark(character)`, its configuration write. */
    method SetRadixMark(character: Option<string>)
      requires Valid()
      modifies this
      ensures Valid()
      ensures config == WithRadixMark(old(config), character)
      ensures currentValue == old(currentValue) && renderedString == old(renderedString)
      ensures renderedNumber == old(renderedNumber) && outerCurrencyPosition == old(outerCurrencyPosition)
    {
      config := WithRadixMark(config, character);
    }

    /** `API.setDecimalMark(character)`: the configuration is written, then
        the next statement always throws. */
    method SetDecimalMark(character: Option<string>) returns (outcome: Outcome<SetterError>)
      requires Valid()
      modifies this
      ensures Valid()
      ensures config == WithDecimalMark(old(config), character)
      ensures outcome == Fail(ReferenceError)
      ensures currentValue == old(currentValue) && renderedString == old(renderedString)
      ensures renderedNumber == old(renderedNumber) && outerCurrencyPosition == old(outerCurrencyPosition)
    {
      config := WithDecimalMark(config, character);
      outcome := Fail(ReferenceError);
    }

    /** `API.setLeadingZerosLenght(length)`. */
    method SetLeadingZerosLenght(length: Option<int>)
      requires Valid()
      modifies this
      ensures Valid()
      ensures config == WithMinIntegersLength(old(config), length)
      ensures currentValue == old(currentValue) && renderedString == old(renderedString)
      ensures renderedNumber == old(renderedNumber) && outerCurrencyPosition == old(outerCurrencyPosition)
    {
      config := WithMinIntegersLength(config, length);
    }

    /** `API.setTrailingZerosLenght(length)`. */
    method SetTrailingZerosLenght(length: Option<int>)
      requires Valid()
      modifies this
      ensures Valid()
      ensures config == WithMinDecimalsLength(old(config), length)
      ensures currentValue == old(currentValue) && renderedString == old(renderedString)
      ensures renderedNumber == old(renderedNumber) && outerCurrencyPosition == old(outerCurrencyPosition)
    {
      config := WithMinDecimalsLength(config, length);
    }

    /** `API.setCurrencyPosition(position)`: the checked position goes to the
        enclosing `this`; `config.currencyPosition` is left as it was. */
    method SetCurrencyPosition(position: Option<string>)
      requires Valid()
      modifies this
      ensures Valid()
      ensures outerCurrencyPosition == Some(CurrencyPositionSetting(position))
      ensures config == old(config) && currentValue == old(currentValue)
      ensures renderedNumber == old(renderedNumber) && renderedString == old(renderedString)
    {
      outerCurrencyPosition := Some(CurrencyPositionSetting(position));
    }
  }

  /** A digit string is parsed as the integer part alone. */
  lemma {:induction false} IntegerText(t: string)
    requires t != [] && AllDigits(t)
    ensures NewValue(Finite(t)) == Value(NumericOf(Finite(t)), false, t, false, "", None)
  {
    assert SignEnd(t) == 0;
    assert t[0..|t|] == t;
    DigitRunIs(t, 0, |t|);
    DigitRunIs(t, |t|, 0);
  }

  /** From one whole number to another (no decimals asked for): the new
      value renders as its digits zero-padded on the left to the common
      width, grouped when leading zeros are grouped, when there is no mark,
      or when it has more than three digits of its own. */
  lemma WholeNumberTransition(t1: string, t2: string, cfg: Config)
    requires t1 != [] && AllDigits(t1) && t2 != [] && AllDigits(t2)
    requires ConfigBounds(cfg) && cfg.minDecimalsLength == 0
    ensures var p := Zeros(Max(Max(|t1|, |t2|), cfg.minIntegersLength) - |t2|) + t2;
      Normalize(Finite(t1), Finite(t2), cfg).1.isometricValueStr ==
        if cfg.commafyLeadingZeros || cfg.radixMark == "" || |t2| > 3 then Group(p, cfg.radixMark) else p
  {
    IntegerText(t1);
    IntegerText(t2);
    WholeValues(NewValue(Finite(t1)), NewValue(Finite(t2)), cfg);
  }

  lemma WholeValues(v1: Value, v2: Value, cfg: Config)
    requires WellFormed(v1) && WellFormed(v2) && !v2.isNegative
    requires v1.decimalDigits == "" && v2.decimalDigits == ""
    requires ConfigBounds(cfg) && cfg.minDecimalsLength == 0
    ensures var p := Zeros(IntegerWidth(v1, v2, cfg) - |v2.integerDigits|) + v2.integerDigits;
      IsometricfyWithValue(v1, v2, cfg).1.isometricValueStr ==
        if cfg.commafyLeadingZeros || cfg.radixMark == "" || |v2.integerDigits| > 3 then Group(p, cfg.radixMark) else p
  {
    hide Unmarked, SameLayout, Group, Zeros, Commafied, PaddedIntegers, Grouped;
    DecimalParts(v1, v2, cfg);
    IntegerParts(v1, v2, cfg);
  }

  /** Seeded with 0, six integer digits and ',' as the radix mark, setting
      123 renders "000123": the new value's three digits hold no mark, so
      without `commafyLeadingZeros` the padding is not grouped. With
      `commafyLeadingZeros` it renders "000,123". */
  lemma SixDigitsExample()
    ensures Normalize(Finite("0"), Finite("123"),
                      Config(",", ".", None, "start", false, 6, 0, DefaultAnimationDurationInMs, EaseOutQuad))
              .1.isometricValueStr == "000123"
    ensures Normalize(Finite("0"), Finite("123"),
                      Config(",", ".", None, "start", true, 6, 0, DefaultAnimationDurationInMs, EaseOutQuad))
              .1.isometricValueStr == "000,123"
  {
    hide Normalize;
    var plain := Config(",", ".", None, "start", false, 6, 0, DefaultAnimationDurationInMs, EaseOutQuad);
    var grouped := plain.(commafyLeadingZeros := true);
    WholeNumberTransition("0", "123", plain);
    WholeNumberTransition("0", "123", grouped);
    assert Zeros(3) + "123" == "000123";
    assert "000123"[..3] == "000" && "000123"[3..] == "123";
  }
}

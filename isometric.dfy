/** `Value.isometricfyWithValue`: the old and the new value brought to one
    layout (same integer width, same grouping, same decimal width) so that
    they can be compared character by character. */
module Isometric {
  import opened Wrappers
  import opened Strings
  import opened NumericValue
  import opened Padding
  import opened Configuration

  /** A `Value` with its padded, grouped parts and the string the widget
      renders. */
  datatype NormalizedValue = NormalizedValue(
    decimalDigits: string,
    exp: Option<string>,
    hasDot: bool,
    integerDigits: string,
    isNegative: bool,
    value: Option<real>,
    isometricValueStr: string)

  /** What parsing guarantees of a `Value`'s digit groups. */
  predicate WellFormed(v: Value) {
    AllDigits(v.integerDigits) && AllDigits(v.decimalDigits)
  }

  /** `isometricfyValues`: each string zero-padded, on `side`, to the other's length. */
  function IsometricfyValues(value1: string, value2: string, side: Side): (r: (string, string))
    ensures |r.0| == |r.1| == Max(|value1|, |value2|)
  {
    (Padded(value1, |value2|, side), Padded(value2, |value1|, side))
  }

  function Commafied(s: string, radixMark: string): string
    requires AllDigits(s)
  {
    DigitsNoLineTerminator(s);
    CommafyString(s, radixMark)
  }

  /** The grouping test of the source: does the new value's own integer
      part, once grouped, contain the mark? (`indexOf('')` is 0, so with no
      mark the answer is always yes.) */
  function ShouldBeCommafied(integerDigits: string, radixMark: string): bool
    requires AllDigits(integerDigits)
  {
    Contains(Commafied(integerDigits, radixMark), radixMark)
  }

  /** `[-]integer[.decimals]`, always with '.' between the parts. */
  function IsometricString(isNegative: bool, integerPart: string, decimals: string): string {
    (if isNegative then "-" else "") + integerPart + (if |decimals| > 0 then "." else "") + decimals
  }

  function IntegerWidth(v1: Value, v2: Value, cfg: Config): int {
    Max(Max(|v1.integerDigits|, |v2.integerDigits|), cfg.minIntegersLength)
  }

  function DecimalsWidth(v1: Value, v2: Value, cfg: Config): int {
    Max(Max(|v1.decimalDigits|, |v2.decimalDigits|), cfg.minDecimalsLength)
  }

  /** The integer groups are marked when the user asks for it or when the new
      value's own digits would hold a mark. */
  function Grouped(v2: Value, cfg: Config): bool
    requires WellFormed(v2)
  {
    cfg.commafyLeadingZeros || ShouldBeCommafied(v2.integerDigits, cfg.radixMark)
  }

  /** Both integer parts zero-padded on the left, to each other's length
      and then to `minIntegersLength`. */
  function PaddedIntegers(v1: Value, v2: Value, cfg: Config): (string, string) {
    var (int1, int2) := IsometricfyValues(v1.integerDigits, v2.integerDigits, Left);
    (Padded(int1, cfg.minIntegersLength, Left), Padded(int2, cfg.minIntegersLength, Left))
  }

  /** Both decimal parts zero-padded on the right, to each other's length
      and then to `minDecimalsLength`. */
  function PaddedDecimals(v1: Value, v2: Value, cfg: Config): (string, string) {
    var (dec1, dec2) := IsometricfyValues(v1.decimalDigits, v2.decimalDigits, Right);
    (Padded(dec1, cfg.minDecimalsLength, Right), Padded(dec2, cfg.minDecimalsLength, Right))
  }

  function GroupedIf(grouped: bool, s: string, radixMark: string): string
    requires AllDigits(s)
  {
    if grouped then Commafied(s, radixMark) else s
  }

  function Normalized(v: Value, integerPart: string, decimals: string): NormalizedValue {
    NormalizedValue(decimals, v.exp, |decimals| > 0, integerPart, v.isNegative, v.value,
                    IsometricString(v.isNegative, integerPart, decimals))
  }

  /** `this.isometricfyWithValue(value2, cfg)`, `this` being the old value. */
  function IsometricfyWithValue(v1: Value, v2: Value, cfg: Config): (r: (NormalizedValue, NormalizedValue))
    requires WellFormed(v1) && WellFormed(v2)
  {
    var (int1, int2) := PaddedIntegers(v1, v2, cfg);
    var grouped := Grouped(v2, cfg);
    var (dec1, dec2) := PaddedDecimals(v1, v2, cfg);
    (Normalized(v1, GroupedIf(grouped, int1, cfg.radixMark), dec1),
     Normalized(v2, GroupedIf(grouped, int2, cfg.radixMark), dec2))
  }

  lemma SupportedRadixMark(m: string)
    requires m in SupportedRadixMarks
    ensures |m| <= 1
    ensures m != "" ==> !IsDigit(m[0]) && m[0] != '-'
  {
  }

  /** With a supported mark the source's test reduces to: no mark at all, or
      more than three integer digits in the new value. */
  lemma ShouldBeCommafiedRule(t: string, radixMark: string)
    requires AllDigits(t) && radixMark in SupportedRadixMarks
    ensures ShouldBeCommafied(t, radixMark) <==> radixMark == "" || |t| > 3
  {
    SupportedRadixMark(radixMark);
    CommafyIsGroup(t, radixMark);
    if radixMark != "" {
      var c := radixMark[0];
      assert radixMark == [c];
      ContainsChar(Group(t, [c]), c);
      GroupHasMark(t, c);
    }
  }

  /** The digits of an integer part without its marks. */
  function Unmarked(s: string, radixMark: string): string {
    if radixMark == "" then s else RemoveAll(s, radixMark[0])
  }

  lemma ZerosAppend(a: nat, b: nat)
    ensures Zeros(a) + Zeros(b) == Zeros(a + b)
  {
    assert forall i :: 0 <= i < a + b ==> (Zeros(a) + Zeros(b))[i] == '0';
  }

  /** Padding to the other value's width and then to a minimum width pads
      to the larger of the three lengths. */
  lemma PaddedTwiceLeft(s: string, other: int, minLength: int)
    ensures Padded(Padded(s, other, Left), minLength, Left)
         == Zeros(Max(Max(|s|, other), minLength) - |s|) + s
  {
    hide Padded;
    var once := Padded(s, other, Left);
    var twice := Padded(once, minLength, Left);
    var a, b := |once| - |s|, |twice| - |once|;
    assert once == Zeros(a) + s;
    assert twice == Zeros(b) + once;
    ZerosAppend(b, a);
    assert twice == (Zeros(b) + Zeros(a)) + s;
  }

  lemma PaddedTwiceRight(s: string, other: int, minLength: int)
    ensures Padded(Padded(s, other, Right), minLength, Right)
         == s + Zeros(Max(Max(|s|, other), minLength) - |s|)
  {
    hide Padded;
    var once := Padded(s, other, Right);
    var twice := Padded(once, minLength, Right);
    var a, b := |once| - |s|, |twice| - |once|;
    assert once == s + Zeros(a);
    assert twice == once + Zeros(b);
    ZerosAppend(a, b);
    assert twice == s + (Zeros(a) + Zeros(b));
  }

  lemma IntegerPadding(v1: Value, v2: Value, cfg: Config)
    ensures var w := IntegerWidth(v1, v2, cfg);
      PaddedIntegers(v1, v2, cfg)
        == (Zeros(w - |v1.integerDigits|) + v1.integerDigits, Zeros(w - |v2.integerDigits|) + v2.integerDigits)
  {
    hide Padded, Zeros;
    PaddedTwiceLeft(v1.integerDigits, |v2.integerDigits|, cfg.minIntegersLength);
    PaddedTwiceLeft(v2.integerDigits, |v1.integerDigits|, cfg.minIntegersLength);
  }

  lemma DecimalPadding(v1: Value, v2: Value, cfg: Config)
    ensures var w := DecimalsWidth(v1, v2, cfg);
      PaddedDecimals(v1, v2, cfg)
        == (v1.decimalDigits + Zeros(w - |v1.decimalDigits|), v2.decimalDigits + Zeros(w - |v2.decimalDigits|))
  {
    hide Padded, Zeros;
    PaddedTwiceRight(v1.decimalDigits, |v2.decimalDigits|, cfg.minDecimalsLength);
    PaddedTwiceRight(v2.decimalDigits, |v1.decimalDigits|, cfg.minDecimalsLength);
  }

  /** Grouping or not, removing the marks gives the digits back, and only
      digits and the mark remain. */
  lemma GroupedIfDigits(grouped: bool, p: string, radixMark: string)
    requires AllDigits(p) && radixMark in SupportedRadixMarks
    ensures GroupedIf(grouped, p, radixMark) == (if grouped then Group(p, radixMark) else p)
    ensures Unmarked(GroupedIf(grouped, p, radixMark), radixMark) == p
    ensures forall ch :: ch in GroupedIf(grouped, p, radixMark) ==> IsDigit(ch) || ch in radixMark
  {
    SupportedRadixMark(radixMark);
    CommafyIsGroup(p, radixMark);
    if grouped {
      GroupChars(p, radixMark);
      if radixMark == "" {
        GroupWithoutMark(p);
      } else {
        var c := radixMark[0];
        assert radixMark == [c];
        assert c !in p;
        GroupUnmarked(p, c);
      }
    } else if radixMark != "" {
      assert radixMark[0] !in p;
      RemoveAllAbsent(p, radixMark[0]);
    }
  }

  lemma GroupedIfLayout(grouped: bool, p1: string, p2: string, radixMark: string)
    requires AllDigits(p1) && AllDigits(p2) && |p1| == |p2| && radixMark in SupportedRadixMarks
    ensures SameLayout(GroupedIf(grouped, p1, radixMark), GroupedIf(grouped, p2, radixMark))
  {
    SupportedRadixMark(radixMark);
    CommafyIsGroup(p1, radixMark);
    CommafyIsGroup(p2, radixMark);
    if grouped {
      GroupLayout(p1, p2, radixMark);
    } else {
      DigitsSameLayout(p1, p2);
    }
  }

  /** Both integer parts: the value's digits zero-padded on the left to
      max(|int1|, |int2|, minIntegersLength), grouped (on both sides or on
      neither) exactly when commafyLeadingZeros is set, there is no mark, or
      the new value has more than three integer digits; the two parts have
      marks at the same positions and lose exactly the marks when those
      are removed. */
  lemma IntegerParts(v1: Value, v2: Value, cfg: Config)
    requires WellFormed(v1) && WellFormed(v2) && cfg.radixMark in SupportedRadixMarks
    ensures var (n1, n2) := IsometricfyWithValue(v1, v2, cfg);
      var w := IntegerWidth(v1, v2, cfg);
      var p1 := Zeros(w - |v1.integerDigits|) + v1.integerDigits;
      var p2 := Zeros(w - |v2.integerDigits|) + v2.integerDigits;
      && (Grouped(v2, cfg) <==> cfg.commafyLeadingZeros || cfg.radixMark == "" || |v2.integerDigits| > 3)
      && n1.integerDigits == (if Grouped(v2, cfg) then Group(p1, cfg.radixMark) else p1)
      && n2.integerDigits == (if Grouped(v2, cfg) then Group(p2, cfg.radixMark) else p2)
      && Unmarked(n1.integerDigits, cfg.radixMark) == p1
      && Unmarked(n2.integerDigits, cfg.radixMark) == p2
      && SameLayout(n1.integerDigits, n2.integerDigits)
  {
    IntegerPadding(v1, v2, cfg);
    var (p1, p2) := PaddedIntegers(v1, v2, cfg);
    ShouldBeCommafiedRule(v2.integerDigits, cfg.radixMark);
    var g := Grouped(v2, cfg);
    GroupedIfDigits(g, p1, cfg.radixMark);
    GroupedIfDigits(g, p2, cfg.radixMark);
    GroupedIfLayout(g, p1, p2, cfg.radixMark);
  }

  /** Both decimal parts: the value's decimals zero-padded on the right to
      max(|dec1|, |dec2|, minDecimalsLength); `hasDot` holds exactly when
      that is not empty. */
  lemma DecimalParts(v1: Value, v2: Value, cfg: Config)
    requires WellFormed(v1) && WellFormed(v2)
    ensures var (n1, n2) := IsometricfyWithValue(v1, v2, cfg);
      var w := DecimalsWidth(v1, v2, cfg);
      && n1.decimalDigits == v1.decimalDigits + Zeros(w - |v1.decimalDigits|)
      && n2.decimalDigits == v2.decimalDigits + Zeros(w - |v2.decimalDigits|)
      && (n1.hasDot <==> n1.decimalDigits != "")
      && (n2.hasDot <==> n2.decimalDigits != "")
      && n1.hasDot == n2.hasDot
  {
    DecimalPadding(v1, v2, cfg);
  }

  /** The rendered string without its sign: integer part, then '.' and the
      decimals when there are any. */
  lemma UnsignedOne(neg: bool, integerPart: string, decimals: string, radixMark: string)
    requires AllDigits(decimals) && radixMark in SupportedRadixMarks
    requires forall ch :: ch in integerPart ==> IsDigit(ch) || ch in radixMark
    ensures ReplaceFirst(IsometricString(neg, integerPart, decimals), '-', "")
         == integerPart + ((if |decimals| > 0 then "." else "") + decimals)
  {
    SupportedRadixMark(radixMark);
    var body := integerPart + ((if |decimals| > 0 then "." else "") + decimals);
    assert IsometricString(false, integerPart, decimals) == body;
    assert '-' !in body;
    if neg {
      assert IsometricString(neg, integerPart, decimals) == "-" + body;
      assert IndexOf("-" + body, '-') == 0;
    }
  }

  /** Without their signs the two rendered strings have the same length and
      the same layout: the marks and the '.' at the same positions. */
  lemma RenderedStringsAligned(v1: Value, v2: Value, cfg: Config)
    requires WellFormed(v1) && WellFormed(v2) && cfg.radixMark in SupportedRadixMarks
    ensures var (n1, n2) := IsometricfyWithValue(v1, v2, cfg);
      SameLayout(ReplaceFirst(n1.isometricValueStr, '-', ""), ReplaceFirst(n2.isometricValueStr, '-', ""))
  {
    IntegerPadding(v1, v2, cfg);
    DecimalPadding(v1, v2, cfg);
    var (p1, p2) := PaddedIntegers(v1, v2, cfg);
    var (d1, d2) := PaddedDecimals(v1, v2, cfg);
    var g := Grouped(v2, cfg);
    var i1 := GroupedIf(g, p1, cfg.radixMark);
    var i2 := GroupedIf(g, p2, cfg.radixMark);
    GroupedIfDigits(g, p1, cfg.radixMark);
    GroupedIfDigits(g, p2, cfg.radixMark);
    GroupedIfLayout(g, p1, p2, cfg.radixMark);
    UnsignedOne(v1.isNegative, i1, d1, cfg.radixMark);
    UnsignedOne(v2.isNegative, i2, d2, cfg.radixMark);
    var t1 := (if |d1| > 0 then "." else "") + d1;
    var t2 := (if |d2| > 0 then "." else "") + d2;
    assert SameLayout(t1, t2) by {
      if |d1| > 0 {
        DigitsSameLayout(d1, d2);
        SameLayoutAppend(".", d1, ".", d2);
      }
    }
    SameLayoutAppend(i1, t1, i2, t2);
  }

  /** Both normalized values hold only digits and the radix mark in their
      integer parts, only digits in their decimals, and render, without the
      sign, as the integer part followed by '.' and the decimals when there
      are any. */
  lemma NormalizedParts(v1: Value, v2: Value, cfg: Config)
    requires WellFormed(v1) && WellFormed(v2) && cfg.radixMark in SupportedRadixMarks
    ensures var (n1, n2) := IsometricfyWithValue(v1, v2, cfg);
      && (forall ch :: ch in n1.integerDigits ==> IsDigit(ch) || ch in cfg.radixMark)
      && (forall ch :: ch in n2.integerDigits ==> IsDigit(ch) || ch in cfg.radixMark)
      && AllDigits(n1.decimalDigits) && AllDigits(n2.decimalDigits)
      && ReplaceFirst(n1.isometricValueStr, '-', "")
         == n1.integerDigits + ((if |n1.decimalDigits| > 0 then "." else "") + n1.decimalDigits)
      && ReplaceFirst(n2.isometricValueStr, '-', "")
         == n2.integerDigits + ((if |n2.decimalDigits| > 0 then "." else "") + n2.decimalDigits)
  {
    var (p1, p2) := PaddedIntegers(v1, v2, cfg);
    var (d1, d2) := PaddedDecimals(v1, v2, cfg);
    var g := Grouped(v2, cfg);
    GroupedIfDigits(g, p1, cfg.radixMark);
    GroupedIfDigits(g, p2, cfg.radixMark);
    UnsignedOne(v1.isNegative, GroupedIf(g, p1, cfg.radixMark), d1, cfg.radixMark);
    UnsignedOne(v2.isNegative, GroupedIf(g, p2, cfg.radixMark), d2, cfg.radixMark);
  }

  /** The new value's integer part alone, as `IntegerParts` states it. */
  lemma TargetIntegerPart(v1: Value, v2: Value, cfg: Config)
    requires WellFormed(v1) && WellFormed(v2) && cfg.radixMark in SupportedRadixMarks
    ensures var p := Zeros(IntegerWidth(v1, v2, cfg) - |v2.integerDigits|) + v2.integerDigits;
      && AllDigits(p) && |p| >= cfg.minIntegersLength
      && IsometricfyWithValue(v1, v2, cfg).1.integerDigits == (if Grouped(v2, cfg) then Group(p, cfg.radixMark) else p)
  {
    IntegerParts(v1, v2, cfg);
  }
}

/** `_getReelClasses`: the CSS class of every column, aligned with the
    symbols matrix. */
module ReelClasses {
  import opened Strings
  import opened NumericValue
  import opened Configuration
  import opened Isometric
  import opened SymbolsMatrix

  /** `_1e<n> integer`, `radix-mark`, `decimal-mark` and `_1e-<n> decimal`. */
  datatype ReelClass = Integer(exponent: int) | RadixMarkClass | DecimalMarkClass | Decimal(position: nat)

  predicate IsMarkClass(c: ReelClass) {
    c == RadixMarkClass || c == DecimalMarkClass
  }

  /** The character the source's global regular expression deletes: the
      radix mark, or ' ' when there is none. */
  function CleanedChar(radixMark: string): char {
    if radixMark == "" then ' ' else radixMark[0]
  }

  /** How many characters of `s` are not marks. */
  function NonMarks(s: string, cfg: Config): (n: nat)
    ensures n <= |s|
  {
    if s == [] then 0 else (if IsMark(s[0], cfg) then 0 else 1) + NonMarks(s[1..], cfg)
  }

  lemma {:induction false} NonMarksAppend(a: string, b: string, cfg: Config)
    ensures NonMarks(a + b, cfg) == NonMarks(a, cfg) + NonMarks(b, cfg)
  {
    if a == [] {
      assert a + b == b;
    } else {
      assert (a + b)[1..] == a[1..] + b;
      NonMarksAppend(a[1..], b, cfg);
    }
  }

  /** The class of an integer-part column `j`: a mark, or the power of ten
      counted down from `cleanedLength - 1` over the non-mark characters. */
  function IntegerClassAt(intPart: string, cleanedLength: int, j: nat, cfg: Config): ReelClass
    requires j < |intPart|
  {
    if IsMark(intPart[j], cfg) then RadixMarkClass
    else Integer(cleanedLength - 1 - NonMarks(intPart[..j], cfg))
  }

  /** The classes of all columns: the integer part, then, when there are
      decimals, the decimal mark and the decimals by position. */
  function ClassList(v: NormalizedValue, cfg: Config): seq<ReelClass> {
    var intPart := v.integerDigits;
    var cleanedLength := |RemoveAll(intPart, CleanedChar(cfg.radixMark))|;
    seq(|intPart|, j requires 0 <= j < |intPart| => IntegerClassAt(intPart, cleanedLength, j, cfg))
      + (if v.decimalDigits == "" then []
         else [DecimalMarkClass] + seq(|v.decimalDigits|, j requires 0 <= j => Decimal(j + 1)))
  }

  /** `_getReelClasses(valueObj)`: one pass over the integer part with a
      decrementing exponent, then the decimal mark and the decimals. */
  method GetReelClasses(v: NormalizedValue, cfg: Config) returns (classes: seq<ReelClass>)
    ensures classes == ClassList(v, cfg)
  {
    var intPart := v.integerDigits;
    var decimalPart := v.decimalDigits;
    var cleaned := RemoveAll(intPart, CleanedChar(cfg.radixMark));
    var exponent := |cleaned| - 1;
    classes := [];
    for i := 0 to |intPart|
      invariant |classes| == i
      invariant exponent == |cleaned| - 1 - NonMarks(intPart[..i], cfg)
      invariant forall j :: 0 <= j < i ==> classes[j] == IntegerClassAt(intPart, |cleaned|, j, cfg)
    {
      assert intPart[..i + 1] == intPart[..i] + [intPart[i]];
      NonMarksAppend(intPart[..i], [intPart[i]], cfg);
      if !IsMark(intPart[i], cfg) {
        classes := classes + [Integer(exponent)];
        exponent := exponent - 1;
      } else {
        classes := classes + [RadixMarkClass];
      }
    }
    if decimalPart != "" {
      classes := classes + [DecimalMarkClass];
      for j := 0 to |decimalPart|
        invariant |classes| == |intPart| + 1 + j
        invariant forall k :: 0 <= k < |intPart| ==> classes[k] == IntegerClassAt(intPart, |cleaned|, k, cfg)
        invariant classes[|intPart|] == DecimalMarkClass
        invariant forall k :: |intPart| < k < |classes| ==> classes[k] == Decimal(k - |intPart|)
      {
        classes := classes + [Decimal(j + 1)];
      }
    }
    assert forall k :: 0 <= k < |classes| ==> classes[k] == ClassList(v, cfg)[k];
  }

  /** On an integer part made of digits and the radix mark, the source's
      cleaning deletes exactly the marks. */
  lemma {:induction false} CleanedCount(s: string, cfg: Config)
    requires ConfigBounds(cfg)
    requires forall ch :: ch in s ==> IsDigit(ch) || ch in cfg.radixMark
    ensures |RemoveAll(s, CleanedChar(cfg.radixMark))| == NonMarks(s, cfg)
  {
    SupportedRadixMark(cfg.radixMark);
    if s != [] {
      assert s[0] in s;
      assert forall ch :: ch in s[1..] ==> ch in s;
      CleanedCount(s[1..], cfg);
      assert IsMark(s[0], cfg) <==> s[0] == CleanedChar(cfg.radixMark);
    }
  }

  /** Every digit column of the integer part is labelled with the number of
      digits to its right: the exponents count down to `_1e0`. */
  lemma IntegerExponents(s: string, j: nat, cfg: Config)
    requires ConfigBounds(cfg) && j < |s| && !IsMark(s[j], cfg)
    requires forall ch :: ch in s ==> IsDigit(ch) || ch in cfg.radixMark
    ensures IntegerClassAt(s, |RemoveAll(s, CleanedChar(cfg.radixMark))|, j, cfg) == Integer(NonMarks(s[j + 1..], cfg))
  {
    CleanedCount(s, cfg);
    assert s == s[..j] + ([s[j]] + s[j + 1..]);
    NonMarksAppend(s[..j], [s[j]] + s[j + 1..], cfg);
    NonMarksAppend([s[j]], s[j + 1..], cfg);
  }

  /** The classes of a value line up with the target string `toVal` of its
      matrix: one per column, a mark class exactly on the mark columns, an
      integer class with the count of digits to its right, and the decimals
      numbered from 1. */
  predicate AlignedWith(classes: seq<ReelClass>, n: NormalizedValue, toVal: string, cfg: Config) {
    var w := |n.integerDigits|;
    && |classes| == |toVal|
    && (forall i :: 0 <= i < |toVal| ==> (IsMarkClass(classes[i]) <==> IsMark(toVal[i], cfg)))
    && (forall i :: 0 <= i < w && i < |toVal| && !IsMark(toVal[i], cfg) ==>
          classes[i] == Integer(NonMarks(n.integerDigits[i + 1..], cfg)))
    && (forall i :: w < i < |toVal| ==> classes[i] == Decimal(i - w))
  }

  lemma ClassesOfTarget(n: NormalizedValue, toVal: string, cfg: Config)
    requires ConfigBounds(cfg) && RendersAs(n, cfg)
    requires |toVal| == |n.integerDigits| + (if n.decimalDigits == "" then 0 else 1 + |n.decimalDigits|)
    requires forall i :: 0 <= i < |toVal| ==>
      (IsMark(toVal[i], cfg) <==> (i < |n.integerDigits| && IsMark(n.integerDigits[i], cfg)) || i == |n.integerDigits|)
    ensures AlignedWith(ClassList(n, cfg), n, toVal, cfg)
  {
    var s := n.integerDigits;
    var classes := ClassList(n, cfg);
    forall i | 0 <= i < |s| && !IsMark(s[i], cfg)
      ensures classes[i] == Integer(NonMarks(s[i + 1..], cfg))
    {
      IntegerExponents(s, i, cfg);
    }
  }

  /** The classes of a transition's target line up with its matrix. */
  lemma ClassesAlign(v1: Value, v2: Value, cfg: Config)
    requires WellFormed(v1) && WellFormed(v2) && ConfigBounds(cfg)
    ensures var n2 := IsometricfyWithValue(v1, v2, cfg).1;
      AlignedWith(ClassList(n2, cfg), n2, Prepared(n2.isometricValueStr, cfg.decimalMark), cfg)
  {
    var pair := IsometricfyWithValue(v1, v2, cfg);
    TransitionInputs(v1, v2, cfg);
    NormalizedParts(v1, v2, cfg);
    assert RendersAs(pair.1, cfg);
    ClassesOfTarget(pair.1, Prepared(pair.1.isometricValueStr, cfg.decimalMark), cfg);
  }
}

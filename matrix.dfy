/** `_createSymbolsMatrix`: one column of symbols per character of the
    target string; fixed columns for marks and for the unchanged leading
    digits, rotating columns, ever longer, for the rest. */
module SymbolsMatrix {
  import opened Wrappers
  import opened Strings
  import opened NumericValue
  import opened Configuration
  import opened Isometric
  import opened Vector

  /** An entry of a column: a digit the reel rolls through, or the single
      character a fixed column shows. */
  datatype Symbol = Digit(digit: int) | Char(c: char)

  /** `[config.radixMark, config.decimalMark].includes(c)`. */
  predicate IsMark(c: char, cfg: Config) {
    [c] == cfg.radixMark || [c] == cfg.decimalMark
  }

  /** The rendered string with its first '-' removed and its first '.'
      replaced by the decimal mark. */
  function Prepared(isometricValueStr: string, decimalMark: string): string {
    ReplaceFirst(ReplaceFirst(isometricValueStr, '-', ""), '.', decimalMark)
  }

  /** Descending for the whole matrix when the new value is smaller. */
  function MatrixOrder(from: NormalizedValue, to: NormalizedValue): Order {
    if Less(to.value, from.value) then Desc else Asc
  }

  /** What rotating columns need of the two strings: the same layout, and a
      digit wherever the target holds no mark (the source's generator never
      stops on anything else). */
  predicate MatrixInputs(fromVal: string, toVal: string, cfg: Config) {
    && SameLayout(fromVal, toVal)
    && forall i :: 0 <= i < |toVal| && !IsMark(toVal[i], cfg) ==> IsDigit(toVal[i])
  }

  lemma LayoutDigit(fromVal: string, toVal: string, i: nat)
    requires SameLayout(fromVal, toVal) && i < |toVal| && IsDigit(toVal[i])
    ensures IsDigit(fromVal[i])
  {
    assert Shape(fromVal[i]) == '0';
  }

  /** A column stays fixed on a mark, and on a digit while no digit up to
      and including this one has changed. */
  predicate StaticAt(fromVal: string, toVal: string, i: nat, cfg: Config)
    requires i < |fromVal| && i < |toVal|
  {
    IsMark(toVal[i], cfg) || fromVal[..i + 1] == toVal[..i + 1]
  }

  /** The rotating columns before column `i`: the `loops` argument of
      column `i`. */
  function RotatingBefore(fromVal: string, toVal: string, i: nat, cfg: Config): nat
    requires i <= |fromVal| && i <= |toVal|
  {
    if i == 0 then 0
    else RotatingBefore(fromVal, toVal, i - 1, cfg) + (if StaticAt(fromVal, toVal, i - 1, cfg) then 0 else 1)
  }

  function Digits(v: seq<int>): (r: seq<Symbol>)
    ensures |r| == |v| && forall j :: 0 <= j < |v| ==> r[j] == Digit(v[j])
  {
    seq(|v|, j requires 0 <= j < |v| => Digit(v[j]))
  }

  /** Column `i` of the matrix. */
  function Column(fromVal: string, toVal: string, i: nat, cfg: Config, order: Order): seq<Symbol>
    requires MatrixInputs(fromVal, toVal, cfg) && i < |toVal|
  {
    if StaticAt(fromVal, toVal, i, cfg) then [Char(toVal[i])]
    else
      LayoutDigit(fromVal, toVal, i);
      Digits(SymbolsVector(DigitValue(fromVal[i]), DigitValue(toVal[i]),
                           RotatingBefore(fromVal, toVal, i, cfg), order))
  }

  predicate IsMatrix(m: seq<seq<Symbol>>, fromVal: string, toVal: string, cfg: Config, order: Order)
    requires MatrixInputs(fromVal, toVal, cfg)
  {
    |m| == |toVal| && forall i :: 0 <= i < |toVal| ==> m[i] == Column(fromVal, toVal, i, cfg, order)
  }

  lemma PrefixStep(a: string, b: string, i: nat)
    requires i < |a| && i < |b|
    ensures (a[..i + 1] == b[..i + 1]) <==> (a[..i] == b[..i] && a[i] == b[i])
  {
    assert a[..i + 1] == a[..i] + [a[i]];
    assert b[..i + 1] == b[..i] + [b[i]];
    if a[..i + 1] == b[..i + 1] {
      assert a[..i] == a[..i + 1][..i];
      assert b[..i] == b[..i + 1][..i];
    }
  }

  /** `_createSymbolsMatrix(from, to)`: walks the target string once,
      keeping the `digitHasChanged` flag and the count `loops` of rotating
      columns built so far. */
  method CreateSymbolsMatrix(from: NormalizedValue, to: NormalizedValue, cfg: Config)
    returns (matrix: seq<seq<Symbol>>)
    requires MatrixInputs(Prepared(from.isometricValueStr, cfg.decimalMark),
                          Prepared(to.isometricValueStr, cfg.decimalMark), cfg)
    ensures IsMatrix(matrix, Prepared(from.isometricValueStr, cfg.decimalMark),
                     Prepared(to.isometricValueStr, cfg.decimalMark), cfg, MatrixOrder(from, to))
  {
    hide SymbolsVector, Digits, ReplaceFirst, Less;
    var order := MatrixOrder(from, to);
    matrix := [];
    var loops := 0;
    var digitHasChanged := false;
    var fromVal := Prepared(from.isometricValueStr, cfg.decimalMark);
    var toVal := Prepared(to.isometricValueStr, cfg.decimalMark);
    for i := 0 to |toVal|
      invariant |matrix| == i
      invariant loops == RotatingBefore(fromVal, toVal, i, cfg)
      invariant digitHasChanged <==> fromVal[..i] != toVal[..i]
      invariant forall j :: 0 <= j < i ==> matrix[j] == Column(fromVal, toVal, j, cfg, order)
    {
      PrefixStep(fromVal, toVal, i);
      if !digitHasChanged && fromVal[i] != toVal[i] {
        digitHasChanged := true;
      }
      if IsMark(toVal[i], cfg) || (fromVal[i] == toVal[i] && !digitHasChanged) {
        matrix := matrix + [[Char(toVal[i])]];
      } else {
        LayoutDigit(fromVal, toVal, i);
        var symbols := CreateSymbolsVector(DigitValue(fromVal[i]), DigitValue(toVal[i]), loops, order);
        matrix := matrix + [Digits(symbols)];
        loops := loops + 1;
      }
    }
  }

  lemma {:induction false} RotatingBeforeGrows(fromVal: string, toVal: string, i: nat, j: nat, cfg: Config)
    requires i < j <= |fromVal| && j <= |toVal|
    ensures RotatingBefore(fromVal, toVal, j, cfg)
         >= RotatingBefore(fromVal, toVal, i, cfg) + (if StaticAt(fromVal, toVal, i, cfg) then 0 else 1)
    decreases j - i
  {
    if j > i + 1 {
      RotatingBeforeGrows(fromVal, toVal, i, j - 1, cfg);
    }
  }

  /** A rotating column holds `Steps + 1 + 10 * loops` digits, `loops` being
      the rotating columns before it. */
  lemma RotatingColumn(fromVal: string, toVal: string, i: nat, cfg: Config, order: Order)
    requires MatrixInputs(fromVal, toVal, cfg) && i < |toVal| && !StaticAt(fromVal, toVal, i, cfg)
    ensures IsDigit(fromVal[i]) && IsDigit(toVal[i])
    ensures var c := Column(fromVal, toVal, i, cfg, order);
      var s, e := DigitValue(fromVal[i]), DigitValue(toVal[i]);
      && |c| == Steps(s, e, order) + 1 + 10 * RotatingBefore(fromVal, toVal, i, cfg)
      && c[0] == Digit(if order == Asc then s else e)
      && c[|c| - 1] == Digit(if order == Asc then e else s)
  {
    LayoutDigit(fromVal, toVal, i);
    VectorEnds(DigitValue(fromVal[i]), DigitValue(toVal[i]), RotatingBefore(fromVal, toVal, i, cfg), order);
  }

  /** Every rotating column is longer than every rotating column before it:
      the reels further right roll through more digits. */
  lemma LaterColumnsLonger(fromVal: string, toVal: string, i: nat, j: nat, cfg: Config, order: Order)
    requires MatrixInputs(fromVal, toVal, cfg) && i < j < |toVal|
    requires !StaticAt(fromVal, toVal, i, cfg) && !StaticAt(fromVal, toVal, j, cfg)
    ensures |Column(fromVal, toVal, i, cfg, order)| < |Column(fromVal, toVal, j, cfg, order)|
  {
    RotatingBeforeGrows(fromVal, toVal, i, j, cfg);
    RotatingColumn(fromVal, toVal, i, cfg, order);
    RotatingColumn(fromVal, toVal, j, cfg, order);
  }

  /** Once a digit has changed, every later column that is not a mark
      rotates; before that, every column is fixed on its own character. */
  lemma ChangeSpreads(fromVal: string, toVal: string, i: nat, j: nat, cfg: Config)
    requires |fromVal| == |toVal| && i <= j < |toVal|
    ensures fromVal[..i + 1] != toVal[..i + 1] && !IsMark(toVal[j], cfg) ==> !StaticAt(fromVal, toVal, j, cfg)
    ensures fromVal[..j + 1] == toVal[..j + 1] ==> StaticAt(fromVal, toVal, i, cfg)
  {
    if fromVal[..j + 1] == toVal[..j + 1] {
      assert fromVal[..i + 1] == fromVal[..j + 1][..i + 1];
      assert toVal[..i + 1] == toVal[..j + 1][..i + 1];
    }
  }

  /** The target string the matrix walks: as long as the unsigned rendered
      string, a mark exactly at the integer part's marks and at the decimal
      separator, and a digit everywhere else. */
  lemma PreparedShape(integerPart: string, decimals: string, cfg: Config, t: string)
    requires ConfigBounds(cfg) && AllDigits(decimals)
    requires forall ch :: ch in integerPart ==> IsDigit(ch) || ch in cfg.radixMark
    requires t == ReplaceFirst(integerPart + ((if |decimals| > 0 then "." else "") + decimals), '.', cfg.decimalMark)
    ensures |t| == |integerPart| + (if |decimals| > 0 then 1 + |decimals| else 0)
    ensures forall i :: 0 <= i < |t| ==> IsMark(t[i], cfg) || IsDigit(t[i])
    ensures forall i :: 0 <= i < |t| ==>
      (IsMark(t[i], cfg) <==> (i < |integerPart| && IsMark(integerPart[i], cfg)) || i == |integerPart|)
  {
    hide ReplaceFirst, IndexOf;
    SupportedRadixMark(cfg.radixMark);
    var tail := (if |decimals| > 0 then "." else "") + decimals;
    var s := integerPart + tail;
    var dc := cfg.decimalMark[0];
    assert cfg.decimalMark == [dc] && !IsDigit(dc);
    assert t == ReplaceFirst(s, '.', [dc]);
    ReplaceFirstAt(s, '.', dc);
    var k := IndexOf(s, '.');
    forall i | 0 <= i < |t|
      ensures IsMark(t[i], cfg) || IsDigit(t[i])
      ensures IsMark(t[i], cfg) <==> (i < |integerPart| && IsMark(integerPart[i], cfg)) || i == |integerPart|
    {
      if i < |integerPart| {
        assert s[i] == integerPart[i] && s[i] in integerPart;
        if i == k {
          assert cfg.radixMark == ".";
        }
      } else if i == |integerPart| {
        assert s[i] == '.';
        if i != k {
          assert k < i && s[k] == '.';
          assert s[k] in integerPart;
          assert cfg.radixMark == ".";
        }
      } else {
        assert s[i] == decimals[i - |integerPart| - 1];
        assert i != k;
      }
    }
  }

  /** What the matrix reads of a normalized value: its integer part, its
      decimals, and its rendered string without the sign. */
  predicate RendersAs(n: NormalizedValue, cfg: Config) {
    && (forall ch :: ch in n.integerDigits ==> IsDigit(ch) || ch in cfg.radixMark)
    && AllDigits(n.decimalDigits)
    && ReplaceFirst(n.isometricValueStr, '-', "")
       == n.integerDigits + ((if |n.decimalDigits| > 0 then "." else "") + n.decimalDigits)
  }

  lemma PairInputs(n1: NormalizedValue, n2: NormalizedValue, cfg: Config)
    requires ConfigBounds(cfg) && RendersAs(n1, cfg) && RendersAs(n2, cfg)
    requires SameLayout(ReplaceFirst(n1.isometricValueStr, '-', ""), ReplaceFirst(n2.isometricValueStr, '-', ""))
    ensures var toVal := Prepared(n2.isometricValueStr, cfg.decimalMark);
      && MatrixInputs(Prepared(n1.isometricValueStr, cfg.decimalMark), toVal, cfg)
      && |toVal| == |n2.integerDigits| + (if n2.decimalDigits == "" then 0 else 1 + |n2.decimalDigits|)
      && (forall i :: 0 <= i < |toVal| ==>
            (IsMark(toVal[i], cfg) <==>
               (i < |n2.integerDigits| && IsMark(n2.integerDigits[i], cfg)) || i == |n2.integerDigits|))
  {
    hide ReplaceFirst, SameLayout;
    var s1 := ReplaceFirst(n1.isometricValueStr, '-', "");
    var s2 := ReplaceFirst(n2.isometricValueStr, '-', "");
    var fromVal := Prepared(n1.isometricValueStr, cfg.decimalMark);
    var toVal := Prepared(n2.isometricValueStr, cfg.decimalMark);
    assert fromVal == ReplaceFirst(s1, '.', cfg.decimalMark);
    assert toVal == ReplaceFirst(s2, '.', cfg.decimalMark);
    hide Prepared;
    ReplaceFirstLayout(s1, s2, '.', cfg.decimalMark);
    var tail := (if |n2.decimalDigits| > 0 then "." else "") + n2.decimalDigits;
    assert toVal == ReplaceFirst(n2.integerDigits + tail, '.', cfg.decimalMark);
    PreparedShape(n2.integerDigits, n2.decimalDigits, cfg, toVal);
  }

  /** The two normalized values of a transition meet what the matrix needs;
      the target string is as long as the unsigned rendered string and holds
      a mark exactly at the integer part's marks and at the decimal
      separator. */
  lemma TransitionInputs(v1: Value, v2: Value, cfg: Config)
    requires WellFormed(v1) && WellFormed(v2) && ConfigBounds(cfg)
    ensures var (n1, n2) := IsometricfyWithValue(v1, v2, cfg);
      var toVal := Prepared(n2.isometricValueStr, cfg.decimalMark);
      && MatrixInputs(Prepared(n1.isometricValueStr, cfg.decimalMark), toVal, cfg)
      && |toVal| == |n2.integerDigits| + (if n2.decimalDigits == "" then 0 else 1 + |n2.decimalDigits|)
      && (forall i :: 0 <= i < |toVal| ==>
            (IsMark(toVal[i], cfg) <==>
               (i < |n2.integerDigits| && IsMark(n2.integerDigits[i], cfg)) || i == |n2.integerDigits|))
  {
    var pair := IsometricfyWithValue(v1, v2, cfg);
    NormalizedParts(v1, v2, cfg);
    RenderedStringsAligned(v1, v2, cfg);
    assert RendersAs(pair.0, cfg) && RendersAs(pair.1, cfg);
    PairInputs(pair.0, pair.1, cfg);
  }

  /** Only the first '.' becomes the decimal mark: with '.' as the radix mark
      that is the first group separator, and the decimal point stays '.'. */
  lemma FirstDotReplaced()
    ensures Prepared("-1.234.5", ",") == "1,234.5"
  {
    hide IndexOf;
    var s := "-1.234.5";
    IndexOfUnique(s, '-', 0);
    var t := s[..0] + "" + s[1..];
    assert t == "1.234.5";
    assert t[..1] == "1";
    IndexOfUnique(t, '.', 1);
    assert t[..1] + "," + t[2..] == "1,234.5";
  }
}

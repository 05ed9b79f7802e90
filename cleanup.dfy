/** `_removeRemainingLeadingZerosAndRadix`: which reels and which grouping
    marks are taken away once every reel has settled. Only the index
    arithmetic is modelled; the reels themselves are their positions. */
module Cleanup {
  import opened Wrappers
  import opened Strings
  import opened Padding
  import opened NumericValue
  import opened Configuration
  import opened Isometric
  import opened SymbolsMatrix
  import opened ReelClasses

  /** `s.split(sep)[0]` for a one-character separator. */
  function BeforeFirst(s: string, sep: char): (r: string)
    ensures r <= s && sep !in r
    ensures sep !in s ==> r == s
    ensures sep in s ==> |r| < |s| && s[|r|] == sep
  {
    var k := IndexOf(s, sep);
    if k < 0 then s else s[..k]
  }

  /** The cut case on a rendered value: "12.5" split at '.' keeps "12". */
  lemma BeforeFirstExample()
    ensures BeforeFirst("12.5", '.') == "12"
    ensures BeforeFirst("1,234", '.') == "1,234"
  {
    var r := BeforeFirst("12.5", '.');
    assert "12.5"[2] == '.' && '.' !in "12";
    assert r <= "12.5" && |r| < 4 && "12.5"[|r|] == '.';
    assert |r| == 2;
    assert '.' !in "1,234";
  }

  /** The source's integer digits: the rendered string without its sign,
      cut at the first decimal mark, with the radix mark (or ' ') deleted. */
  function CleanedIntegerPart(targetValueNormalized: string, cfg: Config): string
    requires ConfigBounds(cfg)
  {
    var intPart := BeforeFirst(ReplaceFirst(targetValueNormalized, '-', ""), cfg.decimalMark[0]);
    RemoveAll(intPart, CleanedChar(cfg.radixMark))
  }

  /** How many leading '0's the leading-zero loop consumes: it stops at a
      character other than '0' or when no more than `minIntegersLength`
      characters are left. */
  function LeadingZerosToDrop(cleaned: string, minIntegersLength: int): (k: nat)
    ensures k <= |cleaned|
  {
    if |cleaned| > minIntegersLength && |cleaned| > 0 && cleaned[0] == '0' then
      1 + LeadingZerosToDrop(cleaned[1..], minIntegersLength)
    else 0
  }

  /** The dropped characters are all '0'; at least `minIntegersLength` are
      kept (unless there were fewer to begin with); and the first kept one is
      not '0' unless keeping it is needed to reach `minIntegersLength`. */
  lemma {:induction false} LeadingZerosDropped(cleaned: string, minIntegersLength: int)
    ensures var k := LeadingZerosToDrop(cleaned, minIntegersLength);
      && (forall i :: 0 <= i < k ==> cleaned[i] == '0')
      && (k > 0 ==> |cleaned| - k >= minIntegersLength)
      && (k < |cleaned| && |cleaned| - k > minIntegersLength ==> cleaned[k] != '0')
  {
    if |cleaned| > minIntegersLength && |cleaned| > 0 && cleaned[0] == '0' {
      LeadingZerosDropped(cleaned[1..], minIntegersLength);
    }
  }

  /** Passes of the radix loop from `position` while it exceeds `remaining`. */
  function RadixPasses(position: int, remaining: int): nat
    decreases if position > remaining then position - remaining else 0
  {
    if position > remaining then 1 + RadixPasses(position - 3, remaining) else 0
  }

  /** With `marks` marks and `remaining` digits left, the radix loop runs
      once per mark that a grouping of `remaining` digits does not need
      (such a grouping has (remaining - 1) / 3 marks). */
  lemma {:induction false} RadixPassesCount(marks: nat, remaining: nat)
    ensures RadixPasses(3 * marks + 1, remaining) == Max(0, marks - (remaining - 1) / 3)
    decreases marks
  {
    if 3 * marks + 1 > remaining {
      if marks > 0 {
        RadixPassesCount(marks - 1, remaining);
        assert 3 * marks + 1 - 3 == 3 * (marks - 1) + 1;
      }
    }
  }

  /** `_removeRemainingLeadingZerosAndRadix(reels, targetValueNormalized)`:
      the indices of the reels marked and removed by the leading-zero loop,
      and the indices into the radix-mark elements marked and removed by the
      radix loop. `radixMarksLen` is how many reels carry the `radix-mark`
      class. */
  method RemoveRemainingLeadingZerosAndRadix(targetValueNormalized: string, radixMarksLen: nat, cfg: Config)
    returns (removedReels: seq<nat>, removedRadixMarks: seq<nat>)
    requires ConfigBounds(cfg)
    ensures var cleaned := CleanedIntegerPart(targetValueNormalized, cfg);
      var k := LeadingZerosToDrop(cleaned, cfg.minIntegersLength);
      && removedReels == seq(k, i => i)
      && removedRadixMarks == seq(if radixMarksLen > 0 then RadixPasses(3 * radixMarksLen + 1, |cleaned| - k) else 0,
                                  _ => 0)
  {
    hide CleanedIntegerPart;
    var intPartCleaned := CleanedIntegerPart(targetValueNormalized, cfg);
    var intPartCleanedLen := |intPartCleaned|;
    var idx := 0;
    removedReels := [];
    while intPartCleanedLen > cfg.minIntegersLength && intPartCleaned[idx] == '0'
      invariant 0 <= idx <= |intPartCleaned| && intPartCleanedLen == |intPartCleaned| - idx
      invariant removedReels == seq(idx, i => i)
      invariant idx + LeadingZerosToDrop(intPartCleaned[idx..], cfg.minIntegersLength)
             == LeadingZerosToDrop(intPartCleaned, cfg.minIntegersLength)
    {
      assert intPartCleaned[idx..][1..] == intPartCleaned[idx + 1..];
      removedReels := removedReels + [idx];
      idx := idx + 1;
      intPartCleanedLen := intPartCleanedLen - 1;
    }
    removedRadixMarks := [];
    if radixMarksLen > 0 {
      var firstRadixPosition := 3 * radixMarksLen + 1;
      while firstRadixPosition > intPartCleanedLen
        invariant |removedRadixMarks| + RadixPasses(firstRadixPosition, intPartCleanedLen)
               == RadixPasses(3 * radixMarksLen + 1, intPartCleanedLen)
        invariant removedRadixMarks == seq(|removedRadixMarks|, _ => 0)
        decreases firstRadixPosition - intPartCleanedLen
      {
        removedRadixMarks := removedRadixMarks + [0];
        firstRadixPosition := firstRadixPosition - 3;
      }
    }
  }

  /** The position of digit number `k` (counting from 0) of `s`, every mark
      before it skipped over. */
  function FirstKeptReel(s: string, k: nat, cfg: Config): (r: nat)
    ensures r <= |s|
  {
    if s == [] then 0
    else if IsMark(s[0], cfg) then 1 + FirstKeptReel(s[1..], k, cfg)
    else if k == 0 then 0
    else 1 + FirstKeptReel(s[1..], k - 1, cfg)
  }

  /** The reels the cleanup is meant to take away: the leading zeros of the
      new value's own integer digits and every mark before the first digit
      kept. */
  function ReelsToRemove(n: NormalizedValue, cfg: Config): nat
    requires ConfigBounds(cfg)
  {
    var cleaned := RemoveAll(n.integerDigits, CleanedChar(cfg.radixMark));
    FirstKeptReel(n.integerDigits, LeadingZerosToDrop(cleaned, cfg.minIntegersLength), cfg)
  }

  lemma {:induction false} FirstKeptReelAt(a: string, b: string, k: nat, cfg: Config)
    requires NonMarks(a, cfg) == k && (b == [] || !IsMark(b[0], cfg))
    ensures FirstKeptReel(a + b, k, cfg) == |a|
  {
    if a == [] {
      assert a + b == b;
    } else {
      assert (a + b)[0] == a[0] && (a + b)[1..] == a[1..] + b;
      FirstKeptReelAt(a[1..], b, if IsMark(a[0], cfg) then k else k - 1, cfg);
    }
  }

  lemma {:induction false} DigitsNonMarks(s: string, cfg: Config)
    requires AllDigits(s) && ConfigBounds(cfg)
    ensures NonMarks(s, cfg) == |s|
  {
    SupportedRadixMark(cfg.radixMark);
    if s != [] {
      DigitsNonMarks(s[1..], cfg);
    }
  }

  lemma GroupedNonMarks(q: string, cfg: Config)
    requires AllDigits(q) && ConfigBounds(cfg) && cfg.radixMark != ""
    ensures NonMarks(Group(q, cfg.radixMark), cfg) == |q|
  {
    SupportedRadixMark(cfg.radixMark);
    var c := cfg.radixMark[0];
    assert cfg.radixMark == [c] && c !in q;
    GroupChars(q, cfg.radixMark);
    CleanedCount(Group(q, cfg.radixMark), cfg);
    GroupUnmarked(q, c);
  }

  /** Cutting a grouped or plain digit string just before digit `k` keeps the
      grouping of the digits from `k` on. */
  lemma CutAtDigit(p: string, k: nat, grouped: bool, cfg: Config)
    requires AllDigits(p) && ConfigBounds(cfg) && k < |p|
    ensures var s := if grouped then Group(p, cfg.radixMark) else p;
      s[FirstKeptReel(s, k, cfg)..] == (if grouped then Group(p[k..], cfg.radixMark) else p[k..])
  {
    SupportedRadixMark(cfg.radixMark);
    if grouped && cfg.radixMark != "" {
      var g, g' := Group(p, cfg.radixMark), Group(p[k..], cfg.radixMark);
      GroupSuffix(p, k, cfg.radixMark);
      var a := g[..|g| - |g'|];
      assert g == a + g';
      GroupedNonMarks(p, cfg);
      GroupedNonMarks(p[k..], cfg);
      NonMarksAppend(a, g', cfg);
      GroupFirst(p[k..], cfg.radixMark);
      FirstKeptReelAt(a, g', k, cfg);
    } else {
      if grouped {
        GroupWithoutMark(p);
        GroupWithoutMark(p[k..]);
      }
      assert p == p[..k] + p[k..];
      DigitsNonMarks(p[..k], cfg);
      FirstKeptReelAt(p[..k], p[k..], k, cfg);
    }
  }

  lemma CleanupOfPart(s: string, p: string, grouped: bool, cfg: Config)
    requires AllDigits(p) && ConfigBounds(cfg) && |p| >= cfg.minIntegersLength
    requires s == (if grouped then Group(p, cfg.radixMark) else p)
    ensures var k := LeadingZerosToDrop(p, cfg.minIntegersLength);
      && RemoveAll(s, CleanedChar(cfg.radixMark)) == p
      && s[FirstKeptReel(s, k, cfg)..] == (if grouped then Group(p[k..], cfg.radixMark) else p[k..])
  {
    SupportedRadixMark(cfg.radixMark);
    if cfg.radixMark == "" {
      GroupWithoutMark(p);
      assert ' ' !in p;
      RemoveAllAbsent(p, ' ');
    } else {
      var c := cfg.radixMark[0];
      assert cfg.radixMark == [c] && c !in p;
      if grouped {
        GroupUnmarked(p, c);
      } else {
        RemoveAllAbsent(p, c);
      }
    }
    LeadingZerosDropped(p, cfg.minIntegersLength);
    CutAtDigit(p, LeadingZerosToDrop(p, cfg.minIntegersLength), grouped, cfg);
  }

  /** Removing the reels `ReelsToRemove` picks from `n` leaves the digits
      `p` from digit `k` on, grouped like `n`'s integer part. */
  predicate CleansTo(n: NormalizedValue, p: string, k: nat, grouped: bool, cfg: Config)
    requires ConfigBounds(cfg) && k <= |p|
  {
    var r := ReelsToRemove(n, cfg);
    r <= |n.integerDigits| && n.integerDigits[r..] == (if grouped then Group(p[k..], cfg.radixMark) else p[k..])
  }

  lemma CleanupOfValue(n: NormalizedValue, p: string, grouped: bool, cfg: Config)
    requires AllDigits(p) && ConfigBounds(cfg) && |p| >= cfg.minIntegersLength
    requires n.integerDigits == (if grouped then Group(p, cfg.radixMark) else p)
    ensures CleansTo(n, p, LeadingZerosToDrop(p, cfg.minIntegersLength), grouped, cfg)
  {
    CleanupOfPart(n.integerDigits, p, grouped, cfg);
  }

  /** The intended cleanup leaves exactly the new value's padded digits
      without the leading zeros the loop drops, grouped as before: no stray
      zero and no stray mark. */
  lemma CleanupKeepsGrouping(v1: Value, v2: Value, cfg: Config)
    requires WellFormed(v1) && WellFormed(v2) && ConfigBounds(cfg)
    ensures var p := Zeros(IntegerWidth(v1, v2, cfg) - |v2.integerDigits|) + v2.integerDigits;
      CleansTo(IsometricfyWithValue(v1, v2, cfg).1, p, LeadingZerosToDrop(p, cfg.minIntegersLength), Grouped(v2, cfg), cfg)
  {
    TargetIntegerPart(v1, v2, cfg);
    var p := Zeros(IntegerWidth(v1, v2, cfg) - |v2.integerDigits|) + v2.integerDigits;
    CleanupOfValue(IsometricfyWithValue(v1, v2, cfg).1, p, Grouped(v2, cfg), cfg);
  }

  /** The configuration of the two findings below: `radixMark`, then
      `decimalMark`, otherwise the defaults with leading zeros grouped. */
  function FindingConfig(radixMark: string, decimalMark: string): (c: Config)
    ensures ConfigBounds(c) <==> radixMark in SupportedRadixMarks && decimalMark in SupportedDecimalMarks
  {
    Config(radixMark, decimalMark, None, "start", true, 1, 0, DefaultAnimationDurationInMs, EaseOutQuad)
  }

  /** Without a sign and without the decimal mark the source's integer part
      is the whole string, marks deleted. */
  lemma CleanedWhole(s: string, cfg: Config)
    requires ConfigBounds(cfg) && '-' !in s && cfg.decimalMark[0] !in s
    ensures CleanedIntegerPart(s, cfg) == RemoveAll(s, CleanedChar(cfg.radixMark))
  {
  }

  lemma CleanedExample()
    ensures CleanedIntegerPart("0,005", FindingConfig(",", ".")) == "0005"
  {
    var s := "0,005";
    assert '-' !in s && '.' !in s;
    CleanedWhole(s, FindingConfig(",", "."));
    MarkRemoved();
  }

  lemma MarkRemoved()
    ensures RemoveAll("0,005", ',') == "0005"
  {
    assert "0,005" == "0" + [','] + "005";
    RemoveOneMark("0", ',', "005");
  }

  lemma RemoveOneMark(a: string, c: char, b: string)
    requires c !in a && c !in b
    ensures RemoveAll(a + [c] + b, c) == a + b
  {
    assert RemoveAll([c], c) == [] by {
      assert RemoveAll([c], c) == [] + RemoveAll([], c);
    }
    assert RemoveAll(a + [c], c) == a by {
      RemoveAllAppend(a, [c], c);
      RemoveAllAbsent(a, c);
    }
    assert RemoveAll(b, c) == b by {
      RemoveAllAbsent(b, c);
    }
    RemoveAllAppend(a + [c], b, c);
  }

  /** The leading-zero loop counts zeros in the digits without marks but
      removes reels by that count from the reel list, marks included: for
      "0,005" it removes reels 0 to 2 ("0,0") and leaves "05" on screen; the
      radix loop's one pass hits the first mark, already gone. */
  lemma LeadingZerosCountMarks()
    ensures var cfg := FindingConfig(",", ".");
      var cleaned := CleanedIntegerPart("0,005", cfg);
      var k := LeadingZerosToDrop(cleaned, cfg.minIntegersLength);
      && k == 3
      && "0,005"[k..] == "05"
      && RadixPasses(3 * 1 + 1, |cleaned| - k) == 1
  {
    hide CleanedIntegerPart, RemoveAll, IndexOf;
    CleanedExample();
    var z := "0005";
    assert z[1..] == "005" && "005"[1..] == "05" && "05"[1..] == "5";
    assert LeadingZerosToDrop("5", 1) == 0;
    assert LeadingZerosToDrop("05", 1) == 1;
  }

  /** The intended cleanup keeps only "5" of "0,005". */
  lemma LeadingZerosIntended()
    ensures FirstKeptReel("0,005", 3, FindingConfig(",", ".")) == 4
  {
    var cfg := FindingConfig(",", ".");
    assert "0,005" == "0,00" + "5";
    assert NonMarks("0,00", cfg) == 3 by {
      assert "0,00" == "0" + ("," + "00");
      NonMarksAppend("0", "," + "00", cfg);
      NonMarksAppend(",", "00", cfg);
    }
    FirstKeptReelAt("0,00", "5", 3, cfg);
  }

  /** With ',' as the decimal mark the rendered string, which always uses
      '.', is cut at a ',' it does not hold: the decimals join the integer
      part. Going from 10.5 to 0.5 the target "00.5" loses two reels, the
      second being the only integer zero, and ",5" is left on screen. */
  lemma DecimalCommaCountsDecimals()
    ensures var cfg := FindingConfig("", ",");
      var cleaned := CleanedIntegerPart("00.5", cfg);
      var k := LeadingZerosToDrop(cleaned, cfg.minIntegersLength);
      && cleaned == "00.5"
      && k == 2
      && Prepared("00.5", cfg.decimalMark) == "00,5"
      && "00,5"[k..] == ",5"
  {
    CommaCleaned();
    CommaDropped();
    CommaPrepared();
    assert "00,5"[2..] == ",5";
  }

  lemma CommaCleaned()
    ensures CleanedIntegerPart("00.5", FindingConfig("", ",")) == "00.5"
  {
    var s := "00.5";
    assert '-' !in s && ',' !in s && ' ' !in s;
    CleanedWhole(s, FindingConfig("", ","));
    RemoveAllAbsent(s, ' ');
  }

  lemma CommaDropped()
    ensures LeadingZerosToDrop("00.5", 1) == 2
  {
    assert "00.5"[1..] == "0.5" && "0.5"[1..] == ".5";
  }

  lemma CommaPrepared()
    ensures Prepared("00.5", ",") == "00,5"
  {
    var s := "00.5";
    assert '-' !in s;
    assert ReplaceFirst(s, '-', "") == s;
    IndexOfUnique(s, '.', 2);
    assert s[..2] + "," + s[3..] == "00,5";
  }

  /** The intended cleanup, reading the new value's own integer digits "00",
      removes one reel and leaves "0,5". */
  lemma DecimalCommaIntended()
    ensures var cfg := FindingConfig("", ",");
      var n := NormalizedValue("5", None, true, "00", false, Some(0.5), "00.5");
      var r := ReelsToRemove(n, cfg);
      r == 1 && Prepared(n.isometricValueStr, cfg.decimalMark)[r..] == "0,5"
  {
    var cfg := FindingConfig("", ",");
    var s := "00.5";
    RemoveAllAbsent("00", ' ');
    assert "00"[1..] == "0";
    assert LeadingZerosToDrop("00", 1) == 1;
    assert "00" == "0" + "0";
    FirstKeptReelAt("0", "0", 1, cfg);
    assert '-' !in s;
    assert s[..2] == "00";
    IndexOfUnique(s, '.', 2);
    assert s[..2] + "," + s[3..] == "00,5";
  }
}

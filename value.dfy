/** The `Value` class of the widget: a number taken apart into sign, integer
    digits, decimal mark, decimal digits and exponent by one regular
    expression, (-?)(\d*)(\.?)(\d*)(e[\-+]\d+)?, matched without anchors. */
module NumericValue {
  import opened Wrappers
  import opened Strings

  /** What `set` and the `Value` constructor receive: the empty string the
      widget starts with, a finite number (as the text its `toString` gives),
      or NaN. */
  datatype JsValue = Blank | Finite(text: string) | NaN

  /** Digits with at most one '.', and at least one digit on each side of it. */
  predicate UnsignedDecimal(m: string) {
    var d := IndexOf(m, '.');
    if d < 0 then m != [] && AllDigits(m)
    else 0 < d < |m| - 1 && AllDigits(m[..d]) && AllDigits(m[d + 1..])
  }

  predicate ExponentText(x: string) {
    |x| >= 3 && x[0] == 'e' && (x[1] == '+' || x[1] == '-') && AllDigits(x[2..])
  }

  /** The shape of the text a finite JavaScript number converts to: an
      optional '-', a decimal, and an optional exponent such as "e+21". */
  predicate NumberText(s: string) {
    var body := if s != [] && s[0] == '-' then s[1..] else s;
    var e := IndexOf(body, 'e');
    if e < 0 then UnsignedDecimal(body)
    else UnsignedDecimal(body[..e]) && ExponentText(body[e..])
  }

  predicate WellFormedInput(x: JsValue) {
    x.Finite? ==> NumberText(x.text)
  }

  /** `value.toString()`. */
  function Text(x: JsValue): string {
    match x
    case Blank => ""
    case Finite(t) => t
    case NaN => "NaN"
  }

  /** Length of the run of digits that starts at `i` (a greedy \d*). */
  function DigitRun(s: string, i: nat): (n: nat)
    requires i <= |s|
    ensures i + n <= |s|
    ensures AllDigits(s[i..i + n])
    ensures i + n == |s| || !IsDigit(s[i + n])
    decreases |s| - i
  {
    if i < |s| && IsDigit(s[i]) then
      var n := DigitRun(s, i + 1);
      assert s[i..i + 1 + n] == [s[i]] + s[i + 1..i + 1 + n];
      1 + n
    else 0
  }

  lemma {:induction false} DigitRunIs(s: string, i: nat, n: nat)
    requires i + n <= |s|
    requires AllDigits(s[i..i + n])
    requires i + n == |s| || !IsDigit(s[i + n])
    ensures DigitRun(s, i) == n
    decreases n
  {
    if n > 0 {
      assert s[i] == s[i..i + n][0];
      assert s[i + 1..i + n] == s[i..i + n][1..];
      DigitRunIs(s, i + 1, n - 1);
    }
  }

  /** The parts the regular expression captures. */
  datatype Match = Match(sign: string, integer: string, dot: string, decimals: string, exponent: Option<string>)

  function Matched(m: Match): string {
    m.sign + m.integer + m.dot + m.decimals + m.exponent.GetOr("")
  }

  /** The optional group (e[\-+]\d+) tried at `i`. */
  function ExponentAt(s: string, i: nat): (x: Option<string>)
    requires i <= |s|
    ensures x.Some? ==> ExponentText(x.value)
  {
    if i + 2 < |s| && s[i] == 'e' && (s[i + 1] == '-' || s[i + 1] == '+') && DigitRun(s, i + 2) > 0
    then
      var n := DigitRun(s, i + 2);
      assert s[i..i + 2 + n][2..] == s[i + 2..i + 2 + n];
      Some(s[i..i + 2 + n])
    else None
  }

  // Where each group of the match ends.
  function SignEnd(s: string): (p: nat)
    ensures p <= |s|
  {
    if s != [] && s[0] == '-' then 1 else 0
  }

  function IntegerEnd(s: string): (p: nat)
    ensures SignEnd(s) <= p <= |s|
  {
    SignEnd(s) + DigitRun(s, SignEnd(s))
  }

  function DotEnd(s: string): (p: nat)
    ensures IntegerEnd(s) <= p <= |s|
  {
    var p2 := IntegerEnd(s);
    if p2 < |s| && s[p2] == '.' then p2 + 1 else p2
  }

  function DecimalsEnd(s: string): (p: nat)
    ensures DotEnd(s) <= p <= |s|
  {
    DotEnd(s) + DigitRun(s, DotEnd(s))
  }

  /** The leftmost, greedy match. Every group may be empty, so the match
      always succeeds and starts at index 0: the constructor's "Unable to
      parse" error cannot be raised. */
  function MatchNumber(s: string): (m: Match)
    ensures AllDigits(m.integer) && AllDigits(m.decimals)
    ensures m.exponent.Some? ==> ExponentText(m.exponent.value)
  {
    Match(s[..SignEnd(s)], s[SignEnd(s)..IntegerEnd(s)], s[IntegerEnd(s)..DotEnd(s)],
          s[DotEnd(s)..DecimalsEnd(s)], ExponentAt(s, DecimalsEnd(s)))
  }

  /** The match is a prefix of the text; its sign is the leading '-' if there
      is one; each digit run stops only at a non-digit, and a '.' right after
      the integer digits is always taken. */
  lemma MatchIsGreedyPrefix(s: string)
    ensures Matched(MatchNumber(s)) <= s
    ensures MatchNumber(s).sign == (if s != [] && s[0] == '-' then "-" else "")
    ensures MatchNumber(s).dot == "" || MatchNumber(s).dot == "."
    ensures var m := MatchNumber(s); var q := |m.sign + m.integer|;
      (q == |s| || !IsDigit(s[q])) && (m.dot == "" ==> q == |s| || s[q] != '.')
    ensures var m := MatchNumber(s); var q := |m.sign + m.integer + m.dot + m.decimals|;
      q == |s| || !IsDigit(s[q])
  {
    MatchParts(s);
    MatchLengths(s);
    ExponentIsPrefix(s, DecimalsEnd(s));
  }

  /** Where the groups of the match sit in the text. */
  lemma MatchLengths(s: string)
    ensures var m := MatchNumber(s);
      && m.sign == s[..SignEnd(s)]
      && m.dot == s[IntegerEnd(s)..DotEnd(s)]
      && |m.sign + m.integer| == IntegerEnd(s)
      && |m.sign + m.integer + m.dot + m.decimals| == DecimalsEnd(s)
  {
  }

  lemma ExponentIsPrefix(s: string, i: nat)
    requires i <= |s|
    ensures s[..i] + ExponentAt(s, i).GetOr("") <= s
  {
    var x := ExponentAt(s, i);
    if x.Some? {
      assert s[..i] + x.value == s[..i + |x.value|];
    } else {
      assert s[..i] + "" == s[..i];
    }
  }

  /** Where the mantissa of a number text ends: at its 'e', or at the end. */
  function MantissaEnd(s: string): (p: nat)
    ensures SignEnd(s) <= p <= |s|
  {
    var body := s[SignEnd(s)..];
    var e := IndexOf(body, 'e');
    if e < 0 then |s| else SignEnd(s) + e
  }

  lemma MantissaIsDecimal(s: string)
    requires NumberText(s)
    ensures UnsignedDecimal(s[SignEnd(s)..MantissaEnd(s)])
    ensures MantissaEnd(s) < |s| ==> ExponentText(s[MantissaEnd(s)..])
  {
    var body := s[SignEnd(s)..];
    assert body == (if s != [] && s[0] == '-' then s[1..] else s);
    var e := IndexOf(body, 'e');
    if e >= 0 {
      MantissaBeforeExponent(s, body, e);
    } else {
      assert s[SignEnd(s)..MantissaEnd(s)] == body;
    }
  }

  lemma MantissaBeforeExponent(s: string, body: string, e: nat)
    requires body == s[SignEnd(s)..] && e < |body| && e == IndexOf(body, 'e')
    requires UnsignedDecimal(body[..e]) && ExponentText(body[e..])
    ensures UnsignedDecimal(s[SignEnd(s)..MantissaEnd(s)])
    ensures MantissaEnd(s) < |s| && ExponentText(s[MantissaEnd(s)..])
  {
    SliceOfSuffix(s, SignEnd(s), e);
  }

  lemma SliceOfSuffix(s: string, a: nat, e: nat)
    requires a + e <= |s|
    ensures s[a..a + e] == s[a..][..e] && s[a + e..] == s[a..][e..]
  {
  }

  /** The number's integer digits and, if any, its '.' and decimal digits are
      exactly the groups up to the mantissa's end. */
  lemma MantissaMatch(s: string)
    requires NumberText(s)
    ensures DecimalsEnd(s) == MantissaEnd(s)
    ensures IntegerEnd(s) > SignEnd(s)
  {
    MantissaIsDecimal(s);
    var p1, p4 := SignEnd(s), MantissaEnd(s);
    var mant := s[p1..p4];
    assert p4 < |s| ==> s[p4] == 'e';
    if IndexOf(mant, '.') < 0 {
      IntegerOnlyMatch(s, p1, p4);
    } else {
      IntegerAndDecimalsMatch(s, p1, p4);
    }
  }

  lemma IntegerOnlyMatch(s: string, p1: nat, p4: nat)
    requires p1 == SignEnd(s) <= p4 <= |s|
    requires p4 < |s| ==> s[p4] == 'e'
    requires UnsignedDecimal(s[p1..p4]) && IndexOf(s[p1..p4], '.') < 0
    ensures DecimalsEnd(s) == p4 && IntegerEnd(s) > p1
  {
    var mant := s[p1..p4];
    assert s[p1..p1 + |mant|] == mant;
    DigitRunIs(s, p1, |mant|);
    assert IntegerEnd(s) == p4;
    DigitRunIs(s, p4, 0);
  }

  lemma IntegerAndDecimalsMatch(s: string, p1: nat, p4: nat)
    requires p1 == SignEnd(s) <= p4 <= |s|
    requires p4 < |s| ==> s[p4] == 'e'
    requires UnsignedDecimal(s[p1..p4]) && IndexOf(s[p1..p4], '.') >= 0
    ensures DecimalsEnd(s) == p4 && IntegerEnd(s) > p1
  {
    var d := IndexOf(s[p1..p4], '.');
    IntegerRun(s, p1, p4, d);
    DecimalRun(s, p1, p4, d);
  }

  lemma IntegerRun(s: string, p1: nat, p4: nat, d: nat)
    requires p1 == SignEnd(s) && p1 + d < p4 <= |s|
    requires AllDigits(s[p1..p4][..d]) && s[p1..p4][d] == '.'
    ensures IntegerEnd(s) == p1 + d && DotEnd(s) == p1 + d + 1
  {
    assert s[p1..p1 + d] == s[p1..p4][..d];
    assert s[p1 + d] == s[p1..p4][d];
    DigitRunIs(s, p1, d);
  }

  lemma DecimalRun(s: string, p1: nat, p4: nat, d: nat)
    requires p1 + d < p4 <= |s| && (p4 < |s| ==> s[p4] == 'e')
    requires AllDigits(s[p1..p4][d + 1..])
    ensures DigitRun(s, p1 + d + 1) == p4 - (p1 + d + 1)
  {
    assert s[p1 + d + 1..p4] == s[p1..p4][d + 1..];
    DigitRunIs(s, p1 + d + 1, p4 - (p1 + d + 1));
  }

  lemma ExponentMatch(s: string, p4: nat)
    requires p4 < |s| && ExponentText(s[p4..])
    ensures ExponentAt(s, p4) == Some(s[p4..])
  {
    var x := s[p4..];
    assert s[p4 + 2..] == x[2..];
    assert s[p4] == x[0] && s[p4 + 1] == x[1];
    DigitRunIs(s, p4 + 2, |s| - p4 - 2);
    assert s[p4..p4 + 2 + (|s| - p4 - 2)] == x;
  }

  lemma MatchParts(s: string)
    ensures var m := MatchNumber(s);
      m.sign + m.integer + m.dot + m.decimals == s[..DecimalsEnd(s)]
      && m.exponent == ExponentAt(s, DecimalsEnd(s))
  {
    Slices(s, SignEnd(s), IntegerEnd(s), DotEnd(s), DecimalsEnd(s));
  }

  lemma Slices(s: string, p1: nat, p2: nat, p3: nat, p4: nat)
    requires p1 <= p2 <= p3 <= p4 <= |s|
    ensures s[..p1] + s[p1..p2] + s[p2..p3] + s[p3..p4] == s[..p4]
  {
    assert s[..p1] + s[p1..p2] == s[..p2];
    assert s[..p2] + s[p2..p3] == s[..p3];
  }

  /** On the text of a finite number the match covers the whole text. */
  lemma FullMatch(s: string)
    requires NumberText(s)
    ensures Matched(MatchNumber(s)) == s
    ensures MatchNumber(s).integer != []
  {
    MantissaIsDecimal(s);
    MantissaMatch(s);
    MatchCovers(s);
    MatchLengths(s);
  }

  lemma MatchCovers(s: string)
    requires DecimalsEnd(s) < |s| ==> ExponentText(s[DecimalsEnd(s)..])
    ensures Matched(MatchNumber(s)) == s
  {
    var p4 := DecimalsEnd(s);
    MatchParts(s);
    if p4 < |s| {
      ExponentMatch(s, p4);
      assert s[..p4] + s[p4..] == s;
    } else {
      assert s[..p4] + "" == s;
    }
  }

  /** The numeric value of a digit string. */
  function NatOf(ds: string): nat
    requires AllDigits(ds)
  {
    if ds == [] then 0 else 10 * NatOf(ds[..|ds| - 1]) + DigitValue(ds[|ds| - 1])
  }

  function Pow10(n: nat): (p: nat)
    ensures p >= 1
  {
    if n == 0 then 1 else 10 * Pow10(n - 1)
  }

  function ExponentOf(x: Option<string>): int
    requires x.Some? ==> ExponentText(x.value)
  {
    match x
    case None => 0
    case Some(t) =>
      var k: int := NatOf(t[2..]);
      if t[1] == '-' then -k else k
  }

  function Scale(r: real, e: int): real {
    if e >= 0 then r * Pow10(e) as real else r / Pow10(-e) as real
  }

  /** The exact number the captured parts denote. */
  function DecimalOf(m: Match): real
    requires AllDigits(m.integer) && AllDigits(m.decimals)
    requires m.exponent.Some? ==> ExponentText(m.exponent.value)
  {
    var mantissa := NatOf(m.integer) as real + NatOf(m.decimals) as real / Pow10(|m.decimals|) as real;
    var magnitude := Scale(mantissa, ExponentOf(m.exponent));
    if m.sign == "-" then -magnitude else magnitude
  }

  /** `+value`: the empty string is 0, NaN has no value. */
  function NumericOf(x: JsValue): Option<real> {
    match x
    case Blank => Some(0.0)
    case NaN => None
    case Finite(t) => Some(DecimalOf(MatchNumber(t)))
  }

  datatype Value = Value(
    value: Option<real>,
    isNegative: bool,
    integerDigits: string,
    hasDot: bool,
    decimalDigits: string,
    exp: Option<string>)

  /** The `Value` constructor. */
  function NewValue(x: JsValue): (v: Value)
    ensures AllDigits(v.integerDigits) && AllDigits(v.decimalDigits)
    ensures v.value == NumericOf(x)
    ensures v.isNegative <==> Text(x) != [] && Text(x)[0] == '-'
  {
    var m := MatchNumber(Text(x));
    Value(NumericOf(x), m.sign != "", m.integer, m.dot != "", m.decimals, m.exponent)
  }

  /** The parts of a parsed finite number spell out its whole text. */
  lemma NewValueSpellsText(x: JsValue)
    requires x.Finite? && NumberText(x.text)
    ensures var v := NewValue(x);
      (if v.isNegative then "-" else "") + v.integerDigits + (if v.hasDot then "." else "")
        + v.decimalDigits + v.exp.GetOr("") == x.text
    ensures NewValue(x).integerDigits != []
  {
    FullMatch(x.text);
    MatchIsGreedyPrefix(x.text);
  }

  /** The widget's initial `currentValue` ('') parses as zero with no digits. */
  lemma BlankIsZero()
    ensures NewValue(Blank) == Value(Some(0.0), false, "", false, "", None)
  {
    assert SignEnd("") == 0 && IntegerEnd("") == 0 && DotEnd("") == 0 && DecimalsEnd("") == 0;
    assert ExponentAt("", 0) == None;
  }

  /** `a < b` on the numbers behind two values; false whenever one is NaN. */
  predicate Less(a: Option<real>, b: Option<real>) {
    a.Some? && b.Some? && a.value < b.value
  }
}

/** The two string formatters: `_zeroPadding`, which fills with zeros up to a
    width, and `_commafyString`, which inserts the grouping mark every three
    digits from the right. */
module Padding {
  import opened Strings

  datatype Side = Left | Right

  /** The padding as the loop performs it, one '0' per step, stated
      recursively. */
  function Padded(value: string, valueLength: int, side: Side): (r: string)
    ensures |r| == Max(|value|, valueLength)
    ensures side == Left ==> r == Zeros(|r| - |value|) + value
    ensures side == Right ==> r == value + Zeros(|r| - |value|)
    ensures AllDigits(value) ==> AllDigits(r)
    decreases valueLength - |value|
  {
    if |value| >= valueLength then value
    else if side == Left then
      var r := Padded("0" + value, valueLength, side);
      assert Zeros(|r| - |value| - 1) + ("0" + value) == Zeros(|r| - |value|) + value;
      r
    else
      var r := Padded(value + "0", valueLength, side);
      assert (value + "0") + Zeros(|r| - |value| - 1) == value + Zeros(|r| - |value|);
      r
  }

  /** `_zeroPadding(value, valueLength, side)`: grows the string in a loop. */
  method ZeroPadding(value: string, valueLength: int, side: Side) returns (r: string)
    ensures r == Padded(value, valueLength, side)
  {
    r := value;
    while |r| < valueLength
      invariant Padded(r, valueLength, side) == Padded(value, valueLength, side)
      decreases valueLength - |r|
    {
      if side == Left {
        r := "0" + r;
      } else {
        r := r + "0";
      }
    }
  }

  /** The examples in the function's own documentation. */
  lemma ZeroPaddingExamples()
    ensures Padded("123", 5, Left) == "00123"
    ensures Padded("123", 5, Right) == "12300"
  {
    assert Zeros(2) == "00";
  }

  /** JavaScript's `.` in a regular expression matches anything but these. */
  predicate NoLineTerminator(s: string) {
    forall i :: 0 <= i < |s| ==> s[i] !in {'\n', '\r', '\U{2028}', '\U{2029}'}
  }

  /** The global match of /.{1,3}/: consecutive pieces of three characters,
      the last one holding one to three. */
  function Chunks3(s: string): (cs: seq<string>)
    requires s != []
    ensures cs != []
  {
    if |s| <= 3 then [s] else [s[..3]] + Chunks3(s[3..])
  }

  function Join(parts: seq<string>, sep: string): string {
    if parts == [] then ""
    else if |parts| == 1 then parts[0]
    else parts[0] + sep + Join(parts[1..], sep)
  }

  /** `_commafyString(valueStr, radixMark)`, the chained expression step by
      step: remove commas, reverse, cut into threes, join with the mark,
      reverse back. The empty string is returned as it is. A non-empty string
      made only of commas leaves nothing for the match, which then yields
      null and the call throws; callers only pass digit strings. */
  function CommafyString(valueStr: string, radixMark: string): string
    requires NoLineTerminator(valueStr)
    requires valueStr == "" || RemoveAll(valueStr, ',') != ""
  {
    if valueStr == "" then ""
    else Reverse(Join(Chunks3(Reverse(RemoveAll(valueStr, ','))), radixMark))
  }

  /** The grouping the formatter produces: the mark between every three
      characters, counted from the right. */
  function Group(t: string, mark: string): string
    decreases |t|
  {
    if |t| <= 3 then t else Group(t[..|t| - 3], mark) + mark + t[|t| - 3..]
  }

  lemma {:induction false} ReversedChunksGroup(t: string, mark: string)
    requires t != [] && |mark| <= 1
    ensures Reverse(Join(Chunks3(Reverse(t)), mark)) == Group(t, mark)
    decreases |t|
  {
    if |t| <= 3 {
      ReverseReverse(t);
    } else {
      var p, l := t[..|t| - 3], t[|t| - 3..];
      assert t == p + l;
      ReverseAppend(p, l);
      var rt := Reverse(t);
      assert rt[..3] == Reverse(l) && rt[3..] == Reverse(p);
      var rest := Join(Chunks3(Reverse(p)), mark);
      assert Join(Chunks3(rt), mark) == Reverse(l) + mark + rest;
      ReverseAppend(Reverse(l) + mark, rest);
      ReverseAppend(Reverse(l), mark);
      ReverseReverse(l);
      assert Reverse(mark) == mark;
      ReversedChunksGroup(p, mark);
    }
  }

  lemma DigitsNoLineTerminator(s: string)
    requires AllDigits(s)
    ensures NoLineTerminator(s)
    ensures RemoveAll(s, ',') == s
  {
    RemoveAllAbsent(s, ',');
  }

  /** On digits and a mark of at most one character, `_commafyString`
      yields exactly the grouping of the digits. */
  lemma CommafyIsGroup(s: string, mark: string)
    requires AllDigits(s) && |mark| <= 1
    ensures NoLineTerminator(s) && RemoveAll(s, ',') == s
    ensures CommafyString(s, mark) == Group(s, mark)
  {
    DigitsNoLineTerminator(s);
    if s != "" {
      ReversedChunksGroup(s, mark);
    }
  }

  /** The doc-comment examples of `_commafyString` (digits, so by
      `CommafyIsGroup` they are the formatter's output too). */
  lemma GroupExamples()
    ensures Group("1234", ",") == "1,234"
    ensures Group("0000012", ",") == "0,000,012"
  {
    assert "1234"[..1] == "1" && "1234"[1..] == "234";
    var t := "0000012";
    assert t[..4] == "0000" && t[4..] == "012";
    assert Group(t, ",") == Group("0000", ",") + "," + "012";
    assert "0000"[..1] == "0" && "0000"[1..] == "000";
  }

  lemma {:induction false} GroupLength(t: string, c: char)
    requires t != []
    ensures |Group(t, [c])| == |t| + (|t| - 1) / 3
    decreases |t|
  {
    if |t| > 3 {
      GroupLength(t[..|t| - 3], c);
    }
  }

  /** Where the marks sit: counting positions `j` from the right, every
      fourth one (j = 3, 7, 11, ...) is the mark and the others are the
      digits in order, so the leftmost group holds one to three digits. */
  lemma {:induction false} GroupAt(t: string, c: char, j: nat)
    requires t != [] && j < |t| + (|t| - 1) / 3
    ensures |Group(t, [c])| == |t| + (|t| - 1) / 3
    ensures Group(t, [c])[|Group(t, [c])| - 1 - j] ==
      if j % 4 == 3 then c else t[|t| - 1 - (j - j / 4)]
    decreases |t|
  {
    GroupLength(t, c);
    if |t| > 3 {
      var p := t[..|t| - 3];
      GroupLength(p, c);
      var g := Group(t, [c]);
      assert g == Group(p, [c]) + [c] + t[|t| - 3..];
      var gp := Group(p, [c]);
      if j >= 4 {
        GroupAt(p, c, j - 4);
        assert (j - 4) % 4 == j % 4 && (j - 4) / 4 == j / 4 - 1;
        assert g[|g| - 1 - j] == gp[|gp| - 1 - (j - 4)];
      } else if j == 3 {
        assert g[|g| - 1 - j] == g[|gp|];
      } else {
        assert j / 4 == 0;
        assert g[|g| - 1 - j] == t[|t| - 3..][2 - j];
      }
    }
  }

  /** With the mark removed the grouping gives back the digits. */
  lemma {:induction false} GroupUnmarked(t: string, c: char)
    requires c !in t
    ensures RemoveAll(Group(t, [c]), c) == t
    decreases |t|
  {
    if |t| <= 3 {
      RemoveAllAbsent(t, c);
    } else {
      var p, l := t[..|t| - 3], t[|t| - 3..];
      assert t == p + l;
      assert c !in p && c !in l;
      GroupUnmarked(p, c);
      RemoveAllAppend(Group(p, [c]) + [c], l, c);
      RemoveAllAppend(Group(p, [c]), [c], c);
      RemoveAllAbsent(l, c);
    }
  }

  lemma GroupWithoutMark(t: string)
    ensures Group(t, "") == t
    decreases |t|
  {
    if |t| > 3 {
      GroupWithoutMark(t[..|t| - 3]);
      assert t == t[..|t| - 3] + t[|t| - 3..];
    }
  }

  /** Two digit strings of one length are grouped at the same positions. */
  lemma {:induction false} GroupLayout(a: string, b: string, mark: string)
    requires AllDigits(a) && AllDigits(b) && |a| == |b|
    ensures SameLayout(Group(a, mark), Group(b, mark))
    decreases |a|
  {
    if |a| > 3 {
      GroupLayout(a[..|a| - 3], b[..|b| - 3], mark);
      SameLayoutAppend(Group(a[..|a| - 3], mark), mark, Group(b[..|b| - 3], mark), mark);
      SameLayoutAppend(Group(a[..|a| - 3], mark) + mark, a[|a| - 3..],
                       Group(b[..|b| - 3], mark) + mark, b[|b| - 3..]);
    }
  }

  /** A string of digits grouped with a one-character non-digit mark holds
      the mark exactly when it has more than three digits. */
  lemma {:induction false} GroupHasMark(t: string, c: char)
    requires AllDigits(t) && !IsDigit(c)
    ensures c in Group(t, [c]) <==> |t| > 3
  {
    if |t| > 3 {
      var p := t[..|t| - 3];
      assert Group(t, [c])[|Group(p, [c])|] == c;
    } else {
      assert forall i :: 0 <= i < |t| ==> t[i] != c;
    }
  }

  /** Every character of a grouping is a character of the digits or of the mark. */
  lemma {:induction false} GroupChars(t: string, mark: string)
    ensures forall ch :: ch in Group(t, mark) ==> ch in t || ch in mark
    decreases |t|
  {
    if |t| > 3 {
      var p, l := t[..|t| - 3], t[|t| - 3..];
      GroupChars(p, mark);
      assert t == p + l;
      forall ch | ch in Group(t, mark) ensures ch in t || ch in mark {
        assert ch in Group(p, mark) || ch in mark || ch in l;
      }
    }
  }

  /** The grouping of a suffix of the digits is a suffix of the grouping:
      dropping digits on the left leaves the marks on the right in place. */
  lemma {:induction false} GroupSuffix(t: string, k: nat, mark: string)
    requires k <= |t|
    ensures |Group(t[k..], mark)| <= |Group(t, mark)|
    ensures Group(t, mark)[|Group(t, mark)| - |Group(t[k..], mark)|..] == Group(t[k..], mark)
    decreases |t|
  {
    var n := |t|;
    if n > 3 {
      var p, l := t[..n - 3], t[n - 3..];
      var g := Group(t, mark);
      assert g == Group(p, mark) + mark + l;
      if n - k <= 3 {
        assert t[k..] == l[k - (n - 3)..];
      } else {
        assert t[k..][..n - k - 3] == p[k..];
        assert t[k..][n - k - 3..] == l;
        GroupSuffix(p, k, mark);
        assert Group(t[k..], mark) == Group(p[k..], mark) + mark + l;
      }
    }
  }

  lemma {:induction false} GroupFirst(t: string, mark: string)
    requires t != []
    ensures Group(t, mark) != [] && Group(t, mark)[0] == t[0]
    decreases |t|
  {
    if |t| > 3 {
      GroupFirst(t[..|t| - 3], mark);
    }
  }
}

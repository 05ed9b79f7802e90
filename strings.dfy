/** Character and string operations the odometer performs with JavaScript's
    String methods, stated over `seq<char>`. */
module Strings {

  predicate IsDigit(c: char) {
    '0' <= c <= '9'
  }

  predicate AllDigits(s: string) {
    forall i :: 0 <= i < |s| ==> IsDigit(s[i])
  }

  function DigitValue(c: char): (d: int)
    requires IsDigit(c)
    ensures 0 <= d <= 9
  {
    c as int - '0' as int
  }

  function Max(a: int, b: int): int {
    if a < b then b else a
  }

  /** `n` zero characters. */
  function Zeros(n: nat): (z: string)
    ensures |z| == n && AllDigits(z)
    ensures forall i :: 0 <= i < n ==> z[i] == '0'
  {
    seq(n, _ => '0')
  }

  function Reverse(s: string): (r: string)
    ensures |r| == |s|
    ensures forall i :: 0 <= i < |s| ==> r[i] == s[|s| - 1 - i]
  {
    if s == [] then [] else Reverse(s[1..]) + [s[0]]
  }

  lemma ReverseAppend(a: string, b: string)
    ensures Reverse(a + b) == Reverse(b) + Reverse(a)
  {
    assert forall i :: 0 <= i < |a + b| ==> Reverse(a + b)[i] == (Reverse(b) + Reverse(a))[i];
  }

  lemma ReverseReverse(s: string)
    ensures Reverse(Reverse(s)) == s
  {
    assert forall i :: 0 <= i < |s| ==> Reverse(Reverse(s))[i] == s[i];
  }

  /** Index of the first occurrence of `c` in `s`, or -1 (String.prototype.indexOf). */
  function IndexOf(s: string, c: char): (k: int)
    ensures -1 <= k < |s|
    ensures k == -1 <==> c !in s
    ensures 0 <= k ==> s[k] == c && c !in s[..k]
  {
    if s == [] then -1
    else if s[0] == c then 0
    else
      var k := IndexOf(s[1..], c);
      assert s == [s[0]] + s[1..];
      if k == -1 then -1
      else
        assert s[..k + 1] == [s[0]] + s[1..][..k];
        k + 1
  }

  lemma IndexOfUnique(s: string, c: char, k: int)
    requires 0 <= k < |s| && s[k] == c && c !in s[..k]
    ensures IndexOf(s, c) == k
  {
  }

  /** String.prototype.replace with a one-character string pattern: only the
      first occurrence of `c` is replaced by `rep`. */
  function ReplaceFirst(s: string, c: char, rep: string): string {
    var k := IndexOf(s, c);
    if k < 0 then s else s[..k] + rep + s[k + 1..]
  }

  /** Replacing the first `c` by one character changes that position only. */
  lemma ReplaceFirstAt(s: string, c: char, r: char)
    ensures |ReplaceFirst(s, c, [r])| == |s|
    ensures forall i :: 0 <= i < |s| ==>
      ReplaceFirst(s, c, [r])[i] == (if i == IndexOf(s, c) then r else s[i])
  {
  }

  /** Every occurrence of `c` deleted (a global regular-expression replace with ''). */
  function RemoveAll(s: string, c: char): (r: string)
    ensures c !in r
    ensures |r| <= |s|
  {
    if s == [] then []
    else (if s[0] == c then [] else [s[0]]) + RemoveAll(s[1..], c)
  }

  lemma {:induction false} RemoveAllAppend(a: string, b: string, c: char)
    ensures RemoveAll(a + b, c) == RemoveAll(a, c) + RemoveAll(b, c)
  {
    if a != [] {
      assert (a + b)[1..] == a[1..] + b;
      RemoveAllAppend(a[1..], b, c);
    } else {
      assert a + b == b;
    }
  }

  lemma {:induction false} RemoveAllAbsent(s: string, c: char)
    requires c !in s
    ensures RemoveAll(s, c) == s
  {
    if s != [] {
      assert c !in s[1..];
      RemoveAllAbsent(s[1..], c);
    }
  }

  /** `needle` occurs in `hay` (`hay.indexOf(needle) != -1`); the empty needle occurs everywhere. */
  predicate Contains(hay: string, needle: string)
    decreases |hay|
  {
    needle <= hay || (hay != [] && Contains(hay[1..], needle))
  }

  lemma {:induction false} ContainsChar(hay: string, c: char)
    ensures Contains(hay, [c]) <==> c in hay
  {
    if hay != [] {
      ContainsChar(hay[1..], c);
      assert hay == [hay[0]] + hay[1..];
    }
  }

  /** What a character looks like in a layout: all digits alike, any other
      character itself. */
  function Shape(c: char): char {
    if IsDigit(c) then '0' else c
  }

  /** Same length and the same non-digit characters at the same positions. */
  predicate SameLayout(a: string, b: string) {
    |a| == |b| && forall i :: 0 <= i < |a| ==> Shape(a[i]) == Shape(b[i])
  }

  lemma SameLayoutAppend(a1: string, a2: string, b1: string, b2: string)
    requires SameLayout(a1, b1) && SameLayout(a2, b2)
    ensures SameLayout(a1 + a2, b1 + b2)
  {
    forall i | 0 <= i < |a1 + a2|
      ensures Shape((a1 + a2)[i]) == Shape((b1 + b2)[i])
    {
      if i >= |a1| {
        assert (a1 + a2)[i] == a2[i - |a1|] && (b1 + b2)[i] == b2[i - |b1|];
      }
    }
  }

  lemma DigitsSameLayout(a: string, b: string)
    requires AllDigits(a) && AllDigits(b) && |a| == |b|
    ensures SameLayout(a, b)
  {
  }

  /** Replacing the first occurrence of a non-digit character keeps two
      strings of the same layout in the same layout. */
  lemma ReplaceFirstLayout(a: string, b: string, c: char, rep: string)
    requires SameLayout(a, b) && !IsDigit(c)
    ensures SameLayout(ReplaceFirst(a, c, rep), ReplaceFirst(b, c, rep))
  {
    var k := IndexOf(a, c);
    assert forall i :: 0 <= i < |a| ==> (a[i] == c <==> b[i] == c);
    if k >= 0 {
      assert c !in b[..k] by {
        forall i | 0 <= i < k ensures b[..k][i] != c {
          assert a[..k][i] != c;
        }
      }
      IndexOfUnique(b, c, k);
      assert SameLayout(a[..k], b[..k]);
      assert SameLayout(a[k + 1..], b[k + 1..]);
      SameLayoutAppend(a[..k], rep, b[..k], rep);
      SameLayoutAppend(a[..k] + rep, a[k + 1..], b[..k] + rep, b[k + 1..]);
    } else {
      assert c !in b by {
        forall i | 0 <= i < |b| ensures b[i] != c {
          assert a[i] != c;
        }
      }
    }
  }
}

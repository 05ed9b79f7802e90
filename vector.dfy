/** `_createsymbolsVector`: the digits a reel rolls through. */
module Vector {

  datatype Order = Asc | Desc

  /** How many single steps lead from `s` to `e` in the given direction. */
  function Steps(s: int, e: int, order: Order): (d: nat)
    ensures d < 10
  {
    if order == Asc then (e - s) % 10 else (s - e) % 10
  }

  /** `n` digits counting up (mod 10) from `first`. */
  function Run(first: int, n: nat): seq<int> {
    seq(n, j => (first + j) % 10)
  }

  /** The column the generator builds: `Steps + 1 + 10 * loops` digits
      counting up; an ascending column starts at `s`, a descending one
      (built back to front) at `e`. */
  function SymbolsVector(s: int, e: int, loops: nat, order: Order): seq<int> {
    Run(if order == Asc then s else e, Steps(s, e, order) + 1 + 10 * loops)
  }

  lemma ModShift(a: int, b: int, j: int)
    requires a % 10 == b % 10
    ensures (a + j) % 10 == (b + j) % 10
  {
    var q := a / 10 - b / 10;
    assert a + j == (b + j) + 10 * q;
  }

  lemma ModSub(a: int, b: int, j: int)
    requires a % 10 == b % 10
    ensures (j - a) % 10 == (j - b) % 10
  {
    var q := a / 10 - b / 10;
    assert j - a == (j - b) - 10 * q;
  }

  lemma ModZero(a: int, b: int)
    requires 0 <= b < 10
    ensures a % 10 == b <==> (a - b) % 10 == 0
  {
    var q := a / 10;
    assert a - b == 10 * q + (a % 10 - b);
  }

  lemma RunShift(a: int, b: int, n: nat)
    requires a % 10 == b % 10
    ensures Run(a, n) == Run(b, n)
  {
    forall j | 0 <= j < n ensures Run(a, n)[j] == Run(b, n)[j] {
      ModShift(a, b, j);
    }
  }

  /** An ascending pass reaches `e` after `k` steps exactly when `k` is
      `Steps` plus whole turns. */
  lemma AscHit(s: int, e: int, k: int)
    requires 0 <= e <= 9
    ensures (s + k) % 10 == e <==> (k - Steps(s, e, Asc)) % 10 == 0
  {
    ModZero(s + k, e);
    assert s + k - e == k - (e - s);
    ModSub(e - s, Steps(s, e, Asc), k);
  }

  lemma DescHit(s: int, e: int, k: int, current: int)
    requires 0 <= e <= 9 && current % 10 == (s - k) % 10
    ensures current % 10 == e <==> (k - Steps(s, e, Desc)) % 10 == 0
  {
    var d := Steps(s, e, Desc);
    ModZero(s - k, e);
    assert s - k - e == (s - e) - k;
    ModShift(s - e, d, -k);
    assert (d - k) % 10 == 0 <==> (k - d) % 10 == 0 by {
      var q := (d - k) / 10;
      assert d - k == 10 * q + (d - k) % 10;
      if (d - k) % 10 == 0 {
        assert k - d == 10 * (-q);
      }
      if (k - d) % 10 == 0 {
        var p := (k - d) / 10;
        assert d - k == 10 * (-p);
      }
    }
  }

  /** Each digit of a column is one more (mod 10) than the one before. */
  lemma VectorSteps(s: int, e: int, loops: nat, order: Order)
    ensures var r := SymbolsVector(s, e, loops, order);
      forall j :: 0 <= j < |r| - 1 ==> r[j + 1] == (r[j] + 1) % 10
  {
    var r := SymbolsVector(s, e, loops, order);
    var first := if order == Asc then s else e;
    forall j | 0 <= j < |r| - 1 ensures r[j + 1] == (r[j] + 1) % 10 {
      ModShift(first + j, r[j], 1);
    }
  }

  /** `Steps` from the column's first digit lead to its last one. */
  lemma StepsReachLast(s: int, e: int, order: Order)
    requires 0 <= s <= 9 && 0 <= e <= 9
    ensures ((if order == Asc then s else e) + Steps(s, e, order)) % 10 == (if order == Asc then e else s)
  {
    var d := Steps(s, e, order);
    var diff := if order == Asc then e - s else s - e;
    assert d == if diff >= 0 then diff else diff + 10;
  }

  /** A column of `Steps + 1 + 10 * loops` digits runs from `s` to `e`
      (ascending) or from `e` to `s` (descending). */
  lemma VectorEnds(s: int, e: int, loops: nat, order: Order)
    requires 0 <= s <= 9 && 0 <= e <= 9
    ensures var r := SymbolsVector(s, e, loops, order);
      && |r| == Steps(s, e, order) + 1 + 10 * loops
      && (forall j :: 0 <= j < |r| ==> 0 <= r[j] <= 9)
      && r[0] == (if order == Asc then s else e)
      && r[|r| - 1] == (if order == Asc then e else s)
  {
    var first := if order == Asc then s else e;
    var d := Steps(s, e, order);
    StepsReachLast(s, e, order);
    Turns(first + d, loops);
    LastOfRun(first, d + 10 * loops);
  }

  lemma Turns(a: int, t: nat)
    ensures (a + 10 * t) % 10 == a % 10
  {
    var q := a / 10;
    assert a + 10 * t == 10 * (q + t) + a % 10;
  }

  lemma LastOfRun(first: int, m: nat)
    ensures Run(first, m + 1)[m] == (first + m) % 10
  {
  }

  /** An ascending column holds the target at the `loops + 1` positions
      where a pass ends; a descending one, built back to front, every ten
      positions from the start. */
  lemma VectorTargets(s: int, e: int, loops: nat, order: Order)
    requires 0 <= e <= 9
    ensures var r := SymbolsVector(s, e, loops, order);
      && (order == Asc ==> forall j :: 0 <= j < |r| ==> (r[j] == e <==> (j - Steps(s, e, Asc)) % 10 == 0))
      && (order == Desc ==> forall j :: 0 <= j < |r| ==> (r[j] == e <==> j % 10 == 0))
  {
    var r := SymbolsVector(s, e, loops, order);
    forall j | 0 <= j < |r|
      ensures order == Asc ==> (r[j] == e <==> (j - Steps(s, e, Asc)) % 10 == 0)
      ensures order == Desc ==> (r[j] == e <==> j % 10 == 0)
    {
      if order == Asc {
        AscHit(s, e, j);
      } else {
        ModZero(e + j, e);
      }
    }
  }

  /** The source's doc comment promises ten digits for one loop, but a
      column of `loops = 1` holds two passes. */
  lemma DocExamples()
    ensures SymbolsVector(0, 9, 0, Asc) == [0, 1, 2, 3, 4, 5, 6, 7, 8, 9]
    ensures |SymbolsVector(0, 9, 1, Asc)| == 20
    ensures SymbolsVector(0, 9, 1, Asc) == SymbolsVector(0, 9, 0, Asc) + SymbolsVector(0, 9, 0, Asc)
  {
    var r := SymbolsVector(0, 9, 1, Asc);
    var r0 := SymbolsVector(0, 9, 0, Asc);
    assert forall j :: 0 <= j < 10 ==> r0[j] == j;
    assert forall j :: 10 <= j < 20 ==> r[j] == j - 10;
  }

  /** Passes completed after `k` generated digits, `d` being the steps to the
      first hit of the target. */
  function Hits(k: nat, d: nat): nat {
    if k <= d then 0 else (k - 1 - d) / 10 + 1
  }

  lemma HitsStep(k: nat, d: nat)
    requires d < 10
    ensures Hits(k + 1, d) == Hits(k, d) + (if (k - d) % 10 == 0 then 1 else 0)
  {
    if k > d {
      var q := (k - 1 - d) / 10;
      assert k - 1 - d == 10 * q + (k - 1 - d) % 10;
    }
  }

  lemma HitsBound(k: nat, d: nat, loops: nat)
    requires d < 10
    ensures k < d + 1 + 10 * loops ==> Hits(k, d) <= loops
    ensures Hits(d + 1 + 10 * loops, d) == loops + 1
  {
  }

  lemma DescFinish(s: int, e: int, loops: nat, current: int)
    requires 0 <= e <= 9
    requires current % 10 == (s - (Steps(s, e, Desc) + 1 + 10 * loops)) % 10
    ensures (current + 1) % 10 == e % 10
  {
    var d := Steps(s, e, Desc);
    ModShift(current, s - (d + 1 + 10 * loops), 1);
    assert s - (d + 1 + 10 * loops) + 1 == (s - d) - 10 * loops;
    ModShift(s - d, s - d - 10 * loops, 0);
    ModSub(s - e, d, s);
  }

  lemma Start(first: int, d: nat)
    ensures Run(first, 0) == [] && Hits(0, d) == 0
  {
  }

  lemma RunAppend(first: int, k: nat)
    ensures Run(first, k) + [(first + k) % 10] == Run(first, k + 1)
  {
  }

  lemma DescPrepend(current: int, next: int, k: nat)
    requires (next + 1) % 10 == current % 10
    ensures [current % 10] + Run(current + 1, k) == Run(next + 1, k + 1)
  {
    RunShift(next + 1, current, k + 1);
    assert [current % 10] + Run(current + 1, k) == Run(current, k + 1);
  }

  /** `_createsymbolsVector(startVal, endVal, loops, order)`: steps a counter
      (wrapping 0 to 9 when descending), appends (ascending) or prepends
      (descending) each digit, and stops after the target digit has been
      reached `loops + 1` times. The source's do-while is a while loop here:
      its guard `currLoop <= loops` holds on entry. */
  method CreateSymbolsVector(startVal: int, endVal: int, loops: nat, order: Order)
    returns (digits: seq<int>)
    requires 0 <= startVal <= 9 && 0 <= endVal <= 9
    ensures digits == SymbolsVector(startVal, endVal, loops, order)
  {
    hide Run, Hits;
    var d := Steps(startVal, endVal, order);
    var n := d + 1 + 10 * loops;
    var current := startVal;
    var currLoop := 0;
    digits := [];
    Start(startVal, d);
    Start(current + 1, d);
    while currLoop <= loops
      invariant |digits| <= n
      invariant currLoop == Hits(|digits|, d)
      invariant order == Asc ==> current == startVal + |digits| && digits == Run(startVal, |digits|)
      invariant order == Desc ==> 0 <= current <= 9 && current % 10 == (startVal - |digits|) % 10
      invariant order == Desc ==> digits == Run(current + 1, |digits|)
      decreases n - |digits|
    {
      var k := |digits|;
      HitsBound(k, d, loops);
      HitsStep(k, d);
      if order == Asc {
        AscHit(startVal, endVal, k);
      } else {
        DescHit(startVal, endVal, k, current);
      }
      var previous := current;
      if order == Asc {
        RunAppend(startVal, k);
        digits := digits + [current % 10];
      } else {
        digits := [current % 10] + digits;
      }
      if current % 10 == endVal {
        currLoop := currLoop + 1;
      }
      current := current + (if order == Desc then -1 else 1);
      if current < 0 {
        current := 9;
      }
      if order == Desc {
        ModShift(previous, startVal - k, -1);
        DescPrepend(previous, current, k);
      }
    }
    HitsBound(|digits|, d, loops);
    if order == Desc {
      DescFinish(startVal, endVal, loops, current);
      RunShift(current + 1, endVal, n);
    }
  }
}

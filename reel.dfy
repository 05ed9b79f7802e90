/** One `Reel`: whether it animates at all (the rule in `Reel.init`) and one
    frame of its animation (`Reel._animate`). The travel distance is the
    reel's height less one digit's height, measured by the renderer; the
    easing function, already rounded up to whole pixels, is a parameter. */
module ReelAnimation {
  import opened Wrappers
  import opened Strings
  import opened Configuration
  import opened SymbolsMatrix
  import opened Vector

  /** `![radixMark, decimalMark].includes(symbolsVector[0])` and more than one
      symbol. A rotating column holds numbers, which never equal a mark
      string. */
  predicate IsAnimatable(symbols: seq<Symbol>, cfg: Config) {
    |symbols| > 0 && !(symbols[0].Char? && IsMark(symbols[0].c, cfg)) && |symbols| > 1
  }

  /** A column of the matrix animates exactly when it rotates through more
      than one digit: it is not fixed, and either its digit changes or a
      rotating column came before it (so it makes at least one full turn). */
  lemma AnimatableColumns(fromVal: string, toVal: string, i: nat, cfg: Config, order: Order)
    requires MatrixInputs(fromVal, toVal, cfg) && i < |toVal|
    ensures IsAnimatable(Column(fromVal, toVal, i, cfg, order), cfg) <==>
      !StaticAt(fromVal, toVal, i, cfg) && (fromVal[i] != toVal[i] || RotatingBefore(fromVal, toVal, i, cfg) > 0)
  {
    var col := Column(fromVal, toVal, i, cfg, order);
    if StaticAt(fromVal, toVal, i, cfg) {
      assert col == [Char(toVal[i])];
    } else {
      RotatingColumn(fromVal, toVal, i, cfg, order);
      var loops := RotatingBefore(fromVal, toVal, i, cfg);
      DigitsDiffer(fromVal[i], toVal[i], order);
      RotatingAnimatable(col, Steps(DigitValue(fromVal[i]), DigitValue(toVal[i]), order), loops, cfg);
    }
  }

  lemma RotatingAnimatable(col: seq<Symbol>, steps: nat, loops: nat, cfg: Config)
    requires |col| == steps + 1 + 10 * loops && col[0].Digit?
    ensures IsAnimatable(col, cfg) <==> steps > 0 || loops > 0
  {
  }

  lemma DigitsDiffer(a: char, b: char, order: Order)
    requires IsDigit(a) && IsDigit(b)
    ensures Steps(DigitValue(a), DigitValue(b), order) == 0 <==> a == b
  {
  }

  /** What one frame leaves behind: the stored position, the displayed
      offset (`marginTop` in pixels) and whether the reel has arrived. */
  datatype Frame = Frame(position: int, offset: int, reached: bool)

  /** The signed offset for a distance: upwards (negative) while counting up,
      downwards while counting down. */
  function Signed(distance: int, isDecreasing: bool): int {
    if isDecreasing then distance else -distance
  }

  /** One frame given the eased position `eased`: a position at or beyond
      the stored one is stored and shown (capped at the travel distance);
      one behind it snaps the reel to its end. */
  function NextFrame(position: int, eased: int, travel: int, isDecreasing: bool): (f: Frame)
    requires 0 <= position && 0 <= travel
    ensures f.position >= position
    ensures f.position == (if eased >= position then eased else position)
    ensures isDecreasing ==> 0 <= f.offset <= travel
    ensures !isDecreasing ==> -travel <= f.offset <= 0
    ensures f.reached ==> f.offset == Signed(travel, isDecreasing)
    ensures eased < position ==> f.reached
    ensures eased >= travel ==> f.reached
    ensures position <= eased < travel ==> !f.reached && f.offset == Signed(eased, isDecreasing)
  {
    if eased >= position then
      var shown := if eased > travel then travel else eased;
      Frame(eased, Signed(shown, isDecreasing), travel == shown)
    else
      Frame(position, Signed(travel, isDecreasing), true)
  }

  class Reel {
    const symbols: seq<Symbol>
    const isDecreasing: bool
    const isAnimatable: bool
    /** `reelHeight - digitHeight`, measured when the animation starts. */
    var travel: int
    var animationStartTime: Option<int>
    var currentReelPosition: int
    /** The `marginTop` offset last written, in pixels. */
    var offset: int
    var settled: bool

    ghost predicate Valid()
      reads this
    {
      0 <= currentReelPosition && 0 <= travel
      && (isDecreasing ==> 0 <= offset <= travel)
      && (!isDecreasing ==> -travel <= offset <= 0)
      && (settled ==> offset == Signed(travel, isDecreasing))
    }

    /** The state `new Reel(symbolsVector, ...)` starts in. */
    constructor (symbolsVector: seq<Symbol>, cfg: Config, decreasing: bool)
      ensures Valid()
      ensures symbols == symbolsVector && isDecreasing == decreasing
      ensures isAnimatable == IsAnimatable(symbolsVector, cfg)
      ensures animationStartTime == None && currentReelPosition == 0 && offset == 0 && !settled
    {
      symbols := symbolsVector;
      isDecreasing := decreasing;
      isAnimatable := IsAnimatable(symbolsVector, cfg);
      travel := 0;
      animationStartTime := None;
      currentReelPosition := 0;
      offset := 0;
      settled := false;
    }

    /** `animateReel`: a reel that does not animate returns at once; one that
        does records its travel distance and forgets any start time before
        its first frame is requested. */
    method AnimateReel(reelTravel: int) returns (started: bool)
      requires Valid() && 0 <= reelTravel && !settled && offset == 0
      modifies this
      ensures started == isAnimatable
      ensures Valid()
      ensures started ==> travel == reelTravel && animationStartTime == None
      ensures !started ==> travel == old(travel) && animationStartTime == old(animationStartTime)
      ensures currentReelPosition == old(currentReelPosition) && offset == old(offset) && settled == old(settled)
    {
      started := isAnimatable;
      if started {
        travel := reelTravel;
        animationStartTime := None;
      }
    }

    /** `_animate(currTime, callback)`: one frame. The start time is taken on
        the first frame (and again while it is 0, which the source's truthiness
        test treats as unset); `ease(elapsed)` is the easing function's output
        rounded up. The result says whether the completion callback runs; no
        frame is requested after it has. */
    method Tick(currTime: int, ease: int -> int) returns (positionReached: bool)
      requires Valid() && !settled
      modifies this
      ensures Valid()
      ensures animationStartTime ==
        if old(animationStartTime).None? || old(animationStartTime).value == 0 then Some(currTime)
        else old(animationStartTime)
      ensures var f := NextFrame(old(currentReelPosition), ease(currTime - animationStartTime.value),
                                 travel, isDecreasing);
        currentReelPosition == f.position && offset == f.offset && positionReached == f.reached
      ensures settled == positionReached
      ensures travel == old(travel)
      ensures currentReelPosition >= old(currentReelPosition)
    {
      if animationStartTime.None? || animationStartTime.value == 0 {
        animationStartTime := Some(currTime);
      }
      var elapsedTime := currTime - animationStartTime.value;
      positionReached := false;
      var newReelPosition := ease(elapsedTime);
      if newReelPosition >= currentReelPosition {
        currentReelPosition := newReelPosition;
        if newReelPosition > travel {
          newReelPosition := travel;
        }
        offset := Signed(newReelPosition, isDecreasing);
        positionReached := travel == newReelPosition;
      } else {
        offset := Signed(travel, isDecreasing);
        positionReached := true;
      }
      if positionReached {
        settled := true;
      }
    }
  }

  /** The stored positions over a run of frames: each frame keeps the larger
      of the stored position and the eased one. */
  function Positions(start: int, eased: seq<int>): (ps: seq<int>)
    ensures |ps| == |eased|
    decreases |eased|
  {
    if eased == [] then []
    else
      var p := if eased[0] >= start then eased[0] else start;
      [p] + Positions(p, eased[1..])
  }

  /** Over any run of frames the stored position never goes back, and it is
      always the largest eased position seen so far (or the start). */
  lemma {:induction false} PositionsMonotone(start: int, eased: seq<int>)
    ensures var ps := Positions(start, eased);
      && (forall k :: 0 <= k < |ps| ==> ps[k] >= start)
      && (forall k :: 0 < k < |ps| ==> ps[k] >= ps[k - 1])
      && (forall k, j :: 0 <= j <= k < |ps| ==> ps[k] >= eased[j])
    decreases |eased|
  {
    if eased != [] {
      var p := if eased[0] >= start then eased[0] else start;
      PositionsMonotone(p, eased[1..]);
      var ps := Positions(start, eased);
      assert ps == [p] + Positions(p, eased[1..]);
      forall k, j | 0 <= j <= k < |ps| ensures ps[k] >= eased[j] {
        if j > 0 {
          assert eased[j] == eased[1..][j - 1];
        }
      }
    }
  }
}

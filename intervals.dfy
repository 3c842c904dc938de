/**
 * Quantization levels of one colour channel (`ditheringIntervals`) and the
 * lookup of the level a channel value falls to (`findInterval`).
 *
 * Levels are exact reals: the source accumulates `currentStep += stepDiff`
 * in floating point, which this model replaces by the exact value
 * `i * 255 / (k - 1)`.
 */
module Intervals {
  import opened Bytes

  /** The channel depths read from the `kr`, `kg` and `kb` inputs. */
  datatype Depths = Depths(red: int, green: int, blue: int)

  /** Every channel has at least one level, so `findInterval` never reads an empty list. */
  predicate DepthsValid(d: Depths)
  {
    d.red >= 1 && d.green >= 1 && d.blue >= 1
  }

  /** The channel of byte `p` of the buffer: 0 red, 1 green, 2 blue, 3 alpha. */
  function Channel(p: int): int
  {
    p % 4
  }

  lemma ChannelOf(q: int, c: int)
    requires 0 <= c < 4
    ensures Channel(4 * q + c) == c
  {
  }

  /** A pixel that starts inside a buffer of `n` pixels ends inside it. */
  lemma PixelInside(q: int, n: int)
    requires 4 * q < 4 * n
    ensures 4 * q + 4 <= 4 * n
  {
  }

  /** A buffer of whole pixels with less than a pixel left after pixel `q` ends at it. */
  lemma WholePixels(q: int, n: int)
    requires n % 4 == 0 && 4 * q <= n < 4 * q + 4
    ensures n == 4 * q
  {
  }

  /** The depth of channel `j` (0 red, 1 green, 2 blue). */
  function Depth(d: Depths, j: int): int
  {
    if j == 0 then d.red else if j == 1 then d.green else d.blue
  }

  /**
   * `stepDiff`. For k = 1 the source divides by zero and gets Infinity, but
   * then only the first level, 0, is pushed, so any value serves here.
   */
  function Step(k: int): real
  {
    if k >= 2 then 255.0 / (k - 1) as real else 0.0
  }

  /** The first `n` levels of depth `k`, in the order they are pushed. */
  function LevelsUpTo(k: int, n: nat): (r: seq<real>)
    ensures |r| == n
  {
    if n == 0 then [] else LevelsUpTo(k, n - 1) + [(n - 1) as real * Step(k)]
  }

  /** The list `ditheringIntervals` returns for depth `k`. */
  function Levels(k: int): (r: seq<real>)
    ensures |r| == if k > 0 then k else 0
  {
    LevelsUpTo(k, if k > 0 then k else 0)
  }

  lemma LevelsUpToNext(k: int, n: nat)
    ensures LevelsUpTo(k, n + 1) == LevelsUpTo(k, n) + [n as real * Step(k)]
  {
  }

  /** Level `i` is `i` steps above 0. */
  lemma {:induction false} LevelAt(k: int, n: nat, i: int)
    requires 0 <= i < n
    ensures LevelsUpTo(k, n)[i] == i as real * Step(k)
  {
    if i < n - 1 {
      LevelAt(k, n - 1, i);
    }
  }

  /** The levels of channel `j`. */
  function ChannelLevels(d: Depths, j: int): seq<real>
  {
    Levels(Depth(d, j))
  }

  /** The three lists `redIntervals`, `greenIntervals` and `blueIntervals`. */
  datatype LevelSets = LevelSets(red: seq<real>, green: seq<real>, blue: seq<real>)
  {
    /** The list of channel `j` (0 red, 1 green, 2 blue). */
    function Of(j: int): seq<real>
    {
      if j == 0 then red else if j == 1 then green else blue
    }
  }

  /** Every list has a level, so `findInterval` never reads an empty list. */
  predicate LevelSetsValid(L: LevelSets)
  {
    |L.red| >= 1 && |L.green| >= 1 && |L.blue| >= 1
  }

  /** The lists built for the depths `d`. */
  function LevelsOf(d: Depths): (L: LevelSets)
    ensures forall j :: L.Of(j) == ChannelLevels(d, j)
    ensures DepthsValid(d) <==> LevelSetsValid(L)
  {
    LevelSets(Levels(d.red), Levels(d.green), Levels(d.blue))
  }

  predicate StrictlyIncreasing(s: seq<real>)
  {
    forall a, b :: 0 <= a < b < |s| ==> s[a] < s[b]
  }

  /**
   * `ditheringIntervals`: push `k` levels, starting at 0 and adding
   * `stepDiff` after each push.
   */
  method DitheringIntervals(k: int) returns (intervals: seq<real>)
    ensures intervals == Levels(k)
  {
    var stepDiff := Step(k);
    intervals := [];
    var currentStep := 0.0;
    var i := 0;
    while i < k
      invariant 0 <= i <= |Levels(k)|
      invariant intervals == LevelsUpTo(k, i)
      invariant currentStep == i as real * stepDiff
    {
      LevelsUpToNext(k, i);
      assert currentStep == i as real * Step(k);
      assert LevelsUpTo(k, i + 1) == intervals + [currentStep];
      intervals := intervals + [currentStep];
      currentStep := currentStep + stepDiff;
      i := i + 1;
    }
  }

  /**
   * For k >= 2 there are exactly k levels; the first is 0, the last 255,
   * consecutive levels are `255 / (k - 1)` apart, so the list is strictly
   * increasing and lies in [0, 255].
   */
  lemma LevelsShape(k: int)
    requires k >= 2
    ensures |Levels(k)| == k
    ensures Levels(k)[0] == 0.0 && Levels(k)[k - 1] == 255.0
    ensures forall i :: 0 <= i < k - 1 ==> Levels(k)[i + 1] - Levels(k)[i] == 255.0 / (k - 1) as real
    ensures StrictlyIncreasing(Levels(k))
    ensures forall i :: 0 <= i < k ==> 0.0 <= Levels(k)[i] <= 255.0
  {
    LevelsMultiples(k);
    StepSpan(k);
    LevelsGaps(k);
    LevelsIncreasing(k);
    LevelsRange(k);
  }

  lemma LevelsMultiples(k: int)
    requires k >= 2
    ensures forall i :: 0 <= i < k ==> Levels(k)[i] == i as real * Step(k)
  {
    forall i | 0 <= i < k
      ensures Levels(k)[i] == i as real * Step(k)
    {
      LevelAt(k, k, i);
    }
  }

  lemma LevelsGaps(k: int)
    requires k >= 2
    ensures forall i :: 0 <= i < k - 1 ==> Levels(k)[i + 1] - Levels(k)[i] == Step(k)
  {
    LevelsMultiples(k);
    forall i | 0 <= i < k - 1
      ensures Levels(k)[i + 1] - Levels(k)[i] == Step(k)
    {
      MulSucc(i as real, Step(k));
    }
  }

  lemma LevelsIncreasing(k: int)
    requires k >= 2
    ensures StrictlyIncreasing(Levels(k))
  {
    LevelsMultiples(k);
    forall a, b | 0 <= a < b < k
      ensures Levels(k)[a] < Levels(k)[b]
    {
      MulStrict(a as real, b as real, Step(k));
    }
  }

  lemma LevelsRange(k: int)
    requires k >= 2
    ensures forall i :: 0 <= i < k ==> 0.0 <= Levels(k)[i] <= 255.0
  {
    LevelsMultiples(k);
    StepSpan(k);
    forall i | 0 <= i < k
      ensures 0.0 <= Levels(k)[i] <= 255.0
    {
      MulMono(i as real, (k - 1) as real, Step(k));
    }
  }

  /** `k - 1` steps span the whole range. */
  lemma StepSpan(k: int)
    requires k >= 2
    ensures (k - 1) as real * Step(k) == 255.0
  {
  }

  lemma MulSucc(x: real, s: real)
    ensures (x + 1.0) * s - x * s == s
  {
  }

  lemma MulStrict(x: real, y: real, s: real)
    requires x < y && s > 0.0
    ensures x * s < y * s
  {
  }

  lemma MulMono(x: real, y: real, s: real)
    requires 0.0 <= x <= y && s > 0.0
    ensures 0.0 <= x * s <= y * s
  {
  }

  /** Depth 1 gives the single level 0. */
  lemma LevelsOfOne()
    ensures Levels(1) == [0.0]
  {
    LevelAt(1, 1, 0);
  }

  /**
   * When k - 1 divides 255 the levels are the integers `i * (255 / (k - 1))`,
   * which lie in [0, 255] and are stored unchanged.
   */
  lemma IntegerLevels(k: int)
    requires k >= 2 && 255 % (k - 1) == 0
    ensures forall i :: 0 <= i < k ==> Levels(k)[i] == (i * (255 / (k - 1))) as real
    ensures forall i :: 0 <= i < k ==> ToUint8Clamp(Levels(k)[i]) == i * (255 / (k - 1))
  {
    var q := 255 / (k - 1);
    assert q * (k - 1) == 255;
    assert (q as real) * ((k - 1) as real) == 255.0;
    assert Step(k) == q as real;
    forall i | 0 <= i < k
      ensures Levels(k)[i] == (i * q) as real
      ensures 0 <= i * q <= 255
    {
      LevelAt(k, k, i);
      IntMulMono(i, k - 1, q);
    }
  }

  lemma IntMulMono(x: int, y: int, q: int)
    requires 0 <= x <= y && q >= 0
    ensures 0 <= x * q <= y * q
  {
  }

  /** `x` is what storing some level of `I` into the buffer leaves there. */
  ghost predicate IsStoredLevel(x: Byte, I: seq<real>)
  {
    exists l :: l in I && x == ToUint8Clamp(l)
  }

  /** Depth `k` has integer levels: a single level, or k - 1 divides 255. */
  predicate IntegerDepth(k: int)
  {
    k == 1 || (k >= 2 && 255 % (k - 1) == 0)
  }

  /** The midpoint of the adjacent levels `I[l]` and `I[l + 1]`. */
  function Mid(I: seq<real>, l: int): real
    requires 0 <= l < |I| - 1
  {
    (I[l] + I[l + 1]) / 2.0
  }

  /**
   * `j` is the index at which the scan of `findInterval` stops: every pair
   * before it has its midpoint at or below `value`, and either `j` is the last
   * index or `value` lies below the midpoint of the pair starting at `j`.
   */
  ghost predicate IsNearestIndex(value: real, I: seq<real>, j: int)
  {
    && 0 <= j < |I|
    && (forall l :: 0 <= l < j ==> Mid(I, l) <= value)
    && (j < |I| - 1 ==> value < Mid(I, j))
  }

  /** The index returned: with `next` the one after `j`, except at the last index. */
  function Chosen(j: int, next: bool, n: int): int
  {
    if next && j + 1 < n then j + 1 else j
  }

  /** At most one index satisfies `IsNearestIndex`. */
  lemma NearestIndexUnique(value: real, I: seq<real>, j1: int, j2: int)
    requires IsNearestIndex(value, I, j1) && IsNearestIndex(value, I, j2)
    ensures j1 == j2
  {
  }

  /** The loop of `findInterval` from index `i` on. */
  function FindIntervalFrom(value: real, I: seq<real>, next: bool, i: nat): real
    requires 0 <= i < |I|
    decreases |I| - i
  {
    if i < |I| - 1 then
      if value < Mid(I, i) then
        if next then I[i + 1] else I[i]
      else
        FindIntervalFrom(value, I, next, i + 1)
    else
      I[|I| - 1]
  }

  /**
   * `findInterval(value, intervals, next)`: the level at the first pair whose
   * midpoint exceeds `value` (the upper one of the pair with `next`), or the
   * last level when no pair does.
   */
  function FindInterval(value: real, I: seq<real>, next: bool): real
    requires |I| >= 1
  {
    FindIntervalFrom(value, I, next, 0)
  }

  /**
   * A scan started at `i`, after pairs that all had their midpoint at or below
   * `value`, stops at an index satisfying `IsNearestIndex` and returns the
   * level there (the next one with `next`).
   */
  lemma {:induction false} FindIntervalFromStops(value: real, I: seq<real>, next: bool, i: nat)
    requires 0 <= i < |I|
    requires forall l :: 0 <= l < i ==> Mid(I, l) <= value
    ensures exists j :: i <= j < |I| && IsNearestIndex(value, I, j)
                        && FindIntervalFrom(value, I, next, i) == I[Chosen(j, next, |I|)]
    decreases |I| - i
  {
    if i < |I| - 1 && Mid(I, i) <= value {
      FindIntervalFromStops(value, I, next, i + 1);
    } else {
      assert IsNearestIndex(value, I, i);
    }
  }

  /** The result of `findInterval` at the index the scan stops at, and an element of the list. */
  lemma FindIntervalAt(value: real, I: seq<real>, next: bool, j: int)
    requires IsNearestIndex(value, I, j)
    ensures FindInterval(value, I, next) == I[Chosen(j, next, |I|)]
    ensures FindInterval(value, I, next) in I
  {
    FindIntervalFromStops(value, I, next, 0);
    var j' :| 0 <= j' < |I| && IsNearestIndex(value, I, j') && FindIntervalFrom(value, I, next, 0) == I[Chosen(j', next, |I|)];
    NearestIndexUnique(value, I, j, j');
  }

  /** There is always an index the scan stops at. */
  lemma NearestIndexExists(value: real, I: seq<real>) returns (j: int)
    requires |I| >= 1
    ensures IsNearestIndex(value, I, j)
    ensures FindInterval(value, I, false) == I[j]
    ensures FindInterval(value, I, true) == I[Chosen(j, true, |I|)]
  {
    FindIntervalFromStops(value, I, false, 0);
    j :| 0 <= j < |I| && IsNearestIndex(value, I, j) && FindIntervalFrom(value, I, false, 0) == I[Chosen(j, false, |I|)];
    FindIntervalAt(value, I, true, j);
  }

  /**
   * On a strictly increasing list, the level found with `next` is the one
   * immediately above the nearest level, or the nearest level itself when
   * that is the last one.
   */
  lemma NextIsSuccessor(value: real, I: seq<real>)
    requires |I| >= 1 && StrictlyIncreasing(I)
    ensures FindInterval(value, I, false) <= FindInterval(value, I, true)
    ensures FindInterval(value, I, false) == FindInterval(value, I, true)
            <==> FindInterval(value, I, false) == I[|I| - 1]
  {
    var j := NearestIndexExists(value, I);
  }

  /**
   * For k >= 2, a channel value in [0, 255] lies within half a step of the
   * level `findInterval` picks for it.
   */
  lemma NearestWithinHalfStep(v: real, k: int)
    requires k >= 2 && 0.0 <= v <= 255.0
    ensures -Step(k) / 2.0 <= v - FindInterval(v, Levels(k), false) <= Step(k) / 2.0
  {
    var I := Levels(k);
    LevelsShape(k);
    LevelsGaps(k);
    var j := NearestIndexExists(v, I);
    if j > 0 {
      assert Mid(I, j - 1) <= v;
      assert I[j] - I[j - 1] == Step(k);
    }
    if j < k - 1 {
      assert v < Mid(I, j);
      assert I[j + 1] - I[j] == Step(k);
    }
  }

  /** Quantizing a level of a strictly increasing list gives that level back. */
  lemma FindIntervalIdempotent(I: seq<real>, m: int)
    requires StrictlyIncreasing(I) && 0 <= m < |I|
    ensures FindInterval(I[m], I, false) == I[m]
  {
    forall l | 0 <= l < m
      ensures Mid(I, l) <= I[m]
    {
      assert I[l] < I[l + 1] <= I[m];
    }
    if m < |I| - 1 {
      assert I[m] < I[m + 1];
    }
    assert IsNearestIndex(I[m], I, m);
    FindIntervalAt(I[m], I, false, m);
  }
}

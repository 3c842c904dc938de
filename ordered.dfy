/**
 * `orderedDitheringRelative` and `orderedDitheringRandom`: every red, green
 * and blue byte is set to its nearest level, or promoted to the level above
 * it. The deterministic variant promotes when the nearest level modulo 9
 * exceeds a cell of the fixed 3x3 matrix `D3`, chosen from the BYTE index `i`
 * of the pixel and the canvas width; the random variant promotes when a coin
 * comes up (`Math.random() < 0.5`).
 */
module Ordered {
  import opened Bytes
  import opened Intervals
  import opened Average

  /** The threshold matrix `D3`. */
  const D3: seq<seq<int>> := [[6, 8, 4], [1, 0, 3], [5, 2, 7]]

  /** `ii`: `Math.floor(i / width) % 3` for a byte index `i >= 0`. */
  function MatrixRow(i: int, w: int): (r: int)
    requires i >= 0 && w >= 1
    ensures 0 <= r < 3
  {
    (i / w) % 3
  }

  /** `jj`: `Math.floor(i % width) % 3` for a byte index `i >= 0`. */
  function MatrixColumn(i: int, w: int): (c: int)
    requires i >= 0 && w >= 1
    ensures 0 <= c < 3
  {
    (i % w) % 3
  }

  /** `D3[ii][jj]` for the pixel at byte `i` of a canvas `w` pixels wide. */
  function Threshold(i: int, w: int): int
    requires i >= 0 && w >= 1
  {
    D3[MatrixRow(i, w)][MatrixColumn(i, w)]
  }

  /**
   * `D3` is a 3x3 matrix whose nine cells hold each of 0 .. 8 exactly once:
   * every cell is in [0, 8] and no two cells are equal.
   */
  lemma D3IsPermutation()
    ensures |D3| == 3 && forall r :: 0 <= r < 3 ==> |D3[r]| == 3
    ensures forall r, c :: 0 <= r < 3 && 0 <= c < 3 ==> 0 <= D3[r][c] <= 8
    ensures forall r, c, r', c' :: 0 <= r < 3 && 0 <= c < 3 && 0 <= r' < 3 && 0 <= c' < 3 && D3[r][c] == D3[r'][c']
              ==> r == r' && c == c'
  {
  }

  /** Every threshold is a cell of `D3`, so it lies in [0, 8]. */
  lemma ThresholdRange(i: int, w: int)
    requires i >= 0 && w >= 1
    ensures 0 <= Threshold(i, w) <= 8
  {
    var r, c := MatrixRow(i, w), MatrixColumn(i, w);
    assert D3[r] in D3;
  }

  /** The level stored for `v`: the nearest one, or with `up` the one `findInterval(v, I, true)` returns. */
  function Promote(v: Byte, I: seq<real>, up: bool): Byte
    requires |I| >= 1
  {
    if up then ToUint8Clamp(FindInterval(v as real, I, true)) else Quantize(v, I)
  }

  /** `re > D3[ii][jj]`, with `re` the nearest level `Ii` modulo 9 (the `%` of ECMAScript). */
  function PromotedAt(v: Byte, I: seq<real>, t: int): bool
    requires |I| >= 1
  {
    JsRemainder9(FindInterval(v as real, I, false)) > t as real
  }

  /** The buffer after `orderedDitheringRelative` with level lists `L` and canvas width `w`. */
  function OrderedDithered(s: seq<Byte>, L: LevelSets, w: int): seq<Byte>
    requires LevelSetsValid(L) && w >= 1
  {
    seq(|s|, p requires 0 <= p < |s| =>
      if Channel(p) == 3 then s[p]
      else
        var I := L.Of(Channel(p));
        Promote(s[p], I, PromotedAt(s[p], I, Threshold(p - Channel(p), w))))
  }

  /** A pixel of `a` whose colour bytes hold what the loop stores and whose alpha is kept is as in `OrderedDithered`. */
  lemma OrderedPixelDone(a: array<Byte>, s: seq<Byte>, L: LevelSets, w: int, q: int)
    requires LevelSetsValid(L) && w >= 1 && 0 <= q && 4 * q + 4 <= |s| == a.Length
    requires forall p :: 4 * q <= p < 4 * q + 3 ==>
      a[p] == Promote(s[p], L.Of(p - 4 * q), PromotedAt(s[p], L.Of(p - 4 * q), Threshold(4 * q, w)))
    requires a[4 * q + 3] == s[4 * q + 3]
    ensures forall p :: 4 * q <= p < 4 * q + 4 ==> a[p] == OrderedDithered(s, L, w)[p]
  {
    forall p | 4 * q <= p < 4 * q + 4
      ensures a[p] == OrderedDithered(s, L, w)[p]
    {
      OrderedDitheredAt(s, L, w, q, p);
    }
  }

  /** Byte `p` of pixel `q` after `orderedDitheringRelative`. */
  lemma OrderedDitheredAt(s: seq<Byte>, L: LevelSets, w: int, q: int, p: int)
    requires LevelSetsValid(L) && w >= 1 && 0 <= q && 4 * q <= p < 4 * q + 4 && p < |s|
    ensures p - 4 * q == 3 ==> OrderedDithered(s, L, w)[p] == s[p]
    ensures p - 4 * q != 3 ==>
      OrderedDithered(s, L, w)[p] == Promote(s[p], L.Of(p - 4 * q), PromotedAt(s[p], L.Of(p - 4 * q), Threshold(4 * q, w)))
  {
    var c := p - 4 * q;
    assert 4 * q + c == p;
    ChannelOf(q, c);
    assert p - Channel(p) == 4 * q;
  }

  /** The body of the inner loop of `orderedDitheringRelative`, for channel `j` of the pixel at byte `i`. */
  method OrderedByteInPlace(a: array<Byte>, i: int, j: int, intervals: seq<real>, width: int)
    requires 0 <= i && 0 <= j && i + j < a.Length && |intervals| >= 1 && width >= 1
    modifies a
    ensures a[..] == old(a[..])[i + j := Promote(old(a[i + j]), intervals, PromotedAt(old(a[i + j]), intervals, Threshold(i, width)))]
  {
    var Ii := FindInterval(a[i + j] as real, intervals, false);
    var re := JsRemainder9(Ii);
    var ii := (i / width) % 3;
    var jj := (i % width) % 3;
    if re > D3[ii][jj] as real {
      Ii := FindInterval(a[i + j] as real, intervals, true);
    }
    a[i + j] := ToUint8Clamp(Ii);
  }

  /**
   * The inner loop of `orderedDitheringRelative` over channels 0, 1 and 2 of
   * pixel `q`, which starts at byte `i` and still holds its bytes of `s`: the
   * pixel ends as in `OrderedDithered(s, ...)`.
   */
  method OrderedPixelInPlace(a: array<Byte>, i: int, redIntervals: seq<real>, greenIntervals: seq<real>,
                             blueIntervals: seq<real>, width: int, ghost s: seq<Byte>, ghost q: int)
    requires |redIntervals| >= 1 && |greenIntervals| >= 1 && |blueIntervals| >= 1
    requires 0 <= q && i == 4 * q && i + 4 <= a.Length && width >= 1 && |s| == a.Length
    requires forall p :: i <= p < i + 4 ==> a[p] == s[p]
    modifies a
    ensures forall p :: 0 <= p < a.Length && !(i <= p < i + 3) ==> a[p] == old(a[p])
    ensures forall p :: i <= p < i + 4 ==>
      a[p] == OrderedDithered(s, LevelSets(redIntervals, greenIntervals, blueIntervals), width)[p]
  {
    ghost var L := LevelSets(redIntervals, greenIntervals, blueIntervals);
    var j := 0;
    while j < 3
      invariant 0 <= j <= 3
      invariant forall p :: 0 <= p < a.Length && !(i <= p < i + j) ==> a[p] == old(a[p])
      invariant forall p :: i <= p < i + j ==>
        a[p] == Promote(s[p], L.Of(p - i), PromotedAt(s[p], L.Of(p - i), Threshold(i, width)))
    {
      var intervals := if j == 0 then redIntervals else if j == 1 then greenIntervals else blueIntervals;
      assert intervals == L.Of(j);
      OrderedByteInPlace(a, i, j, intervals, width);
      j := j + 1;
    }
    OrderedPixelDone(a, s, L, width, q);
  }

  /** `orderedDitheringRelative(data)`: the outer loop, with the three lists built. */
  method OrderedInPlace(a: array<Byte>, redIntervals: seq<real>, greenIntervals: seq<real>, blueIntervals: seq<real>,
                        width: int)
    requires |redIntervals| >= 1 && |greenIntervals| >= 1 && |blueIntervals| >= 1
    requires a.Length % 4 == 0 && width >= 1
    modifies a
    ensures a[..] == OrderedDithered(old(a[..]), LevelSets(redIntervals, greenIntervals, blueIntervals), width)
  {
    ghost var s := a[..];
    ghost var r := OrderedDithered(s, LevelSets(redIntervals, greenIntervals, blueIntervals), width);
    ghost var pixels := a.Length / 4;
    assert a.Length == 4 * pixels;
    var i := 0;
    ghost var q := 0;
    while i < a.Length
      invariant 0 <= q <= pixels && i == 4 * q
      invariant forall p :: 0 <= p < i ==> a[p] == r[p]
      invariant forall p :: i <= p < a.Length ==> a[p] == s[p]
    {
      PixelInside(q, pixels);
      OrderedPixelInPlace(a, i, redIntervals, greenIntervals, blueIntervals, width, s, q);
      i, q := i + 4, q + 1;
    }
    assert a[..] == r;
  }

  /** `orderedDitheringRelative(data)` with the depths and the canvas width passed in. */
  method OrderedDitheringRelative(a: array<Byte>, d: Depths, width: int)
    requires a.Length % 4 == 0 && DepthsValid(d) && width >= 1
    modifies a
    ensures a[..] == OrderedDithered(old(a[..]), LevelsOf(d), width)
  {
    var redIntervals := DitheringIntervals(d.red);
    var greenIntervals := DitheringIntervals(d.green);
    var blueIntervals := DitheringIntervals(d.blue);
    OrderedInPlace(a, redIntervals, greenIntervals, blueIntervals, width);
  }

  /** The position in the sequence of `Math.random()` draws of the draw for byte `p`. */
  function Draw(p: int): int
  {
    3 * (p / 4) + Channel(p)
  }

  lemma DrawOf(q: int, c: int)
    requires 0 <= c < 4
    ensures Draw(4 * q + c) == 3 * q + c
  {
    ChannelOf(q, c);
    assert (4 * q + c) / 4 == q;
  }

  /** A red, green or blue byte of a buffer of `n` pixels has its draw among the first `3 * n`. */
  lemma DrawInRange(p: int, n: int)
    requires 0 <= p < 4 * n && Channel(p) != 3
    ensures 0 <= Draw(p) < 3 * n
  {
    var q, c := p / 4, Channel(p);
    assert p == 4 * q + c;
    DrawOf(q, c);
  }

  /**
   * The buffer after `orderedDitheringRandom`, where `flips[m]` is whether the
   * `m`-th call of `Math.random()` returned less than 0.5.
   */
  function RandomDithered(s: seq<Byte>, L: LevelSets, flips: seq<bool>): seq<Byte>
    requires LevelSetsValid(L) && |s| % 4 == 0 && |flips| >= 3 * (|s| / 4)
  {
    seq(|s|, p requires 0 <= p < |s| =>
      if Channel(p) == 3 then s[p]
      else
        DrawInRange(p, |s| / 4);
        Promote(s[p], L.Of(Channel(p)), flips[Draw(p)]))
  }

  /** A pixel of `a` whose colour bytes hold what the loop stores and whose alpha is kept is as in `RandomDithered`. */
  lemma RandomPixelDone(a: array<Byte>, s: seq<Byte>, L: LevelSets, flips: seq<bool>, q: int)
    requires LevelSetsValid(L) && |s| % 4 == 0 && |flips| >= 3 * (|s| / 4)
    requires 0 <= q && 4 * q + 4 <= |s| == a.Length && 3 * q + 3 <= |flips|
    requires forall p :: 4 * q <= p < 4 * q + 3 ==> a[p] == Promote(s[p], L.Of(p - 4 * q), flips[3 * q + (p - 4 * q)])
    requires a[4 * q + 3] == s[4 * q + 3]
    ensures forall p :: 4 * q <= p < 4 * q + 4 ==> a[p] == RandomDithered(s, L, flips)[p]
  {
    forall p | 4 * q <= p < 4 * q + 4
      ensures a[p] == RandomDithered(s, L, flips)[p]
    {
      RandomDitheredAt(s, L, flips, q, p);
    }
  }

  /** Byte `p` of pixel `q` after `orderedDitheringRandom`. */
  lemma RandomDitheredAt(s: seq<Byte>, L: LevelSets, flips: seq<bool>, q: int, p: int)
    requires LevelSetsValid(L) && |s| % 4 == 0 && |flips| >= 3 * (|s| / 4)
    requires 0 <= q && 4 * q <= p < 4 * q + 4 && p < |s|
    ensures p - 4 * q == 3 ==> RandomDithered(s, L, flips)[p] == s[p]
    ensures p - 4 * q != 3 ==>
      3 * q + (p - 4 * q) < |flips| && RandomDithered(s, L, flips)[p] == Promote(s[p], L.Of(p - 4 * q), flips[3 * q + (p - 4 * q)])
  {
    var c := p - 4 * q;
    assert 4 * q + c == p;
    ChannelOf(q, c);
    DrawOf(q, c);
    if c != 3 {
      DrawInRange(p, |s| / 4);
    }
  }

  /**
   * The inner loop of `orderedDitheringRandom` over channels 0, 1 and 2 of
   * pixel `q`, which starts at byte `i` and still holds its bytes of `s`; the
   * coins are read from `flips` from position `draw` on, and the pixel ends
   * as in `RandomDithered(s, ...)`.
   */
  method RandomPixelInPlace(a: array<Byte>, i: int, redIntervals: seq<real>, greenIntervals: seq<real>,
                            blueIntervals: seq<real>, flips: seq<bool>, draw: int, ghost s: seq<Byte>, ghost q: int)
    returns (next: int)
    requires |redIntervals| >= 1 && |greenIntervals| >= 1 && |blueIntervals| >= 1
    requires 0 <= q && i == 4 * q && i + 4 <= a.Length && |s| == a.Length && |s| % 4 == 0
    requires draw == 3 * q && draw + 3 <= |flips| && |flips| >= 3 * (|s| / 4)
    requires forall p :: i <= p < i + 4 ==> a[p] == s[p]
    modifies a
    ensures next == draw + 3
    ensures forall p :: 0 <= p < a.Length && !(i <= p < i + 3) ==> a[p] == old(a[p])
    ensures forall p :: i <= p < i + 4 ==>
      a[p] == RandomDithered(s, LevelSets(redIntervals, greenIntervals, blueIntervals), flips)[p]
  {
    ghost var L := LevelSets(redIntervals, greenIntervals, blueIntervals);
    next := draw;
    var j := 0;
    while j < 3
      invariant 0 <= j <= 3 && next == draw + j
      invariant forall p :: 0 <= p < a.Length && !(i <= p < i + j) ==> a[p] == old(a[p])
      invariant forall p :: i <= p < i + j ==> a[p] == Promote(s[p], L.Of(p - i), flips[draw + (p - i)])
    {
      var intervals := if j == 0 then redIntervals else if j == 1 then greenIntervals else blueIntervals;
      assert intervals == L.Of(j);
      var Ii := FindInterval(a[i + j] as real, intervals, false);
      var coin := flips[next];
      next := next + 1;
      if coin {
        Ii := FindInterval(a[i + j] as real, intervals, true);
      }
      a[i + j] := ToUint8Clamp(Ii);
      j := j + 1;
    }
    RandomPixelDone(a, s, L, flips, q);
  }

  /** `orderedDitheringRandom(data)`: the outer loop, the coins read from `flips` in order. */
  method RandomInPlace(a: array<Byte>, redIntervals: seq<real>, greenIntervals: seq<real>, blueIntervals: seq<real>,
                       flips: seq<bool>)
    requires |redIntervals| >= 1 && |greenIntervals| >= 1 && |blueIntervals| >= 1
    requires a.Length % 4 == 0 && |flips| >= 3 * (a.Length / 4)
    modifies a
    ensures a[..] == RandomDithered(old(a[..]), LevelSets(redIntervals, greenIntervals, blueIntervals), flips)
  {
    ghost var s := a[..];
    ghost var r := RandomDithered(s, LevelSets(redIntervals, greenIntervals, blueIntervals), flips);
    ghost var pixels := a.Length / 4;
    assert a.Length == 4 * pixels;
    var draw := 0;
    var i := 0;
    ghost var q := 0;
    while i < a.Length
      invariant 0 <= q <= pixels && i == 4 * q && draw == 3 * q
      invariant forall p :: 0 <= p < i ==> a[p] == r[p]
      invariant forall p :: i <= p < a.Length ==> a[p] == s[p]
    {
      PixelInside(q, pixels);
      draw := RandomPixelInPlace(a, i, redIntervals, greenIntervals, blueIntervals, flips, draw, s, q);
      i, q := i + 4, q + 1;
    }
    assert a[..] == r;
  }

  /** `orderedDitheringRandom(data)` with the depths passed in and the coins drawn from `flips`. */
  method OrderedDitheringRandom(a: array<Byte>, d: Depths, flips: seq<bool>)
    requires a.Length % 4 == 0 && DepthsValid(d) && |flips| >= 3 * (a.Length / 4)
    modifies a
    ensures a[..] == RandomDithered(old(a[..]), LevelsOf(d), flips)
  {
    var redIntervals := DitheringIntervals(d.red);
    var greenIntervals := DitheringIntervals(d.green);
    var blueIntervals := DitheringIntervals(d.blue);
    RandomInPlace(a, redIntervals, greenIntervals, blueIntervals, flips);
  }

  /**
   * `x` is what storing the nearest level of `v` in `I`, or the level
   * `findInterval(v, I, true)` picks just above it, leaves in the buffer.
   */
  ghost predicate NearestOrNext(x: Byte, v: Byte, I: seq<real>)
  {
    exists j :: IsNearestIndex(v as real, I, j)
                && (x == ToUint8Clamp(I[j]) || x == ToUint8Clamp(I[Chosen(j, true, |I|)]))
  }

  /** Either choice of `Promote` is the nearest level or the one just above it. */
  lemma PromoteIsNearestOrNext(v: Byte, I: seq<real>, up: bool)
    requires |I| >= 1
    ensures NearestOrNext(Promote(v, I, up), v, I)
    ensures IsStoredLevel(Promote(v, I, up), I)
    ensures !up ==> Promote(v, I, up) == Quantize(v, I)
  {
    var j := NearestIndexExists(v as real, I);
    var l := FindInterval(v as real, I, up);
    assert l == I[j] || l == I[Chosen(j, true, |I|)];
    assert I[j] in I && I[Chosen(j, true, |I|)] in I;
  }

  /** Byte `p` of `orderedDitheringRelative` is its nearest level or the one just above it. */
  lemma OrderedShapeAt(s: seq<Byte>, L: LevelSets, w: int, p: int)
    requires LevelSetsValid(L) && w >= 1 && 0 <= p < |s|
    ensures Channel(p) == 3 ==> OrderedDithered(s, L, w)[p] == s[p]
    ensures Channel(p) != 3 ==> NearestOrNext(OrderedDithered(s, L, w)[p], s[p], L.Of(Channel(p)))
                                && IsStoredLevel(OrderedDithered(s, L, w)[p], L.Of(Channel(p)))
  {
    if Channel(p) != 3 {
      var I := L.Of(Channel(p));
      PromoteIsNearestOrNext(s[p], I, PromotedAt(s[p], I, Threshold(p - Channel(p), w)));
    }
  }

  /**
   * `orderedDitheringRelative` keeps the length and every alpha byte, and
   * leaves each red, green and blue byte at the nearest level of its channel
   * or at the level just above it.
   */
  lemma OrderedShape(s: seq<Byte>, L: LevelSets, w: int)
    requires LevelSetsValid(L) && w >= 1
    ensures |OrderedDithered(s, L, w)| == |s|
    ensures forall p :: 0 <= p < |s| && Channel(p) == 3 ==> OrderedDithered(s, L, w)[p] == s[p]
    ensures forall p :: 0 <= p < |s| && Channel(p) != 3 ==>
      NearestOrNext(OrderedDithered(s, L, w)[p], s[p], L.Of(Channel(p)))
      && IsStoredLevel(OrderedDithered(s, L, w)[p], L.Of(Channel(p)))
  {
    forall p | 0 <= p < |s|
      ensures Channel(p) == 3 ==> OrderedDithered(s, L, w)[p] == s[p]
      ensures Channel(p) != 3 ==> NearestOrNext(OrderedDithered(s, L, w)[p], s[p], L.Of(Channel(p)))
                                  && IsStoredLevel(OrderedDithered(s, L, w)[p], L.Of(Channel(p)))
    {
      OrderedShapeAt(s, L, w, p);
    }
  }

  /** Byte `p` of `orderedDitheringRandom` is its nearest level or the one just above it. */
  lemma RandomShapeAt(s: seq<Byte>, L: LevelSets, flips: seq<bool>, p: int)
    requires LevelSetsValid(L) && |s| % 4 == 0 && |flips| >= 3 * (|s| / 4) && 0 <= p < |s|
    ensures Channel(p) == 3 ==> RandomDithered(s, L, flips)[p] == s[p]
    ensures Channel(p) != 3 ==> NearestOrNext(RandomDithered(s, L, flips)[p], s[p], L.Of(Channel(p)))
                                && IsStoredLevel(RandomDithered(s, L, flips)[p], L.Of(Channel(p)))
  {
    if Channel(p) != 3 {
      DrawInRange(p, |s| / 4);
      PromoteIsNearestOrNext(s[p], L.Of(Channel(p)), flips[Draw(p)]);
    }
  }

  /**
   * `orderedDitheringRandom` keeps the length and every alpha byte, and leaves
   * each red, green and blue byte at the nearest level of its channel or at
   * the level just above it, whatever the coins.
   */
  lemma RandomShape(s: seq<Byte>, L: LevelSets, flips: seq<bool>)
    requires LevelSetsValid(L) && |s| % 4 == 0 && |flips| >= 3 * (|s| / 4)
    ensures |RandomDithered(s, L, flips)| == |s|
    ensures forall p :: 0 <= p < |s| && Channel(p) == 3 ==> RandomDithered(s, L, flips)[p] == s[p]
    ensures forall p :: 0 <= p < |s| && Channel(p) != 3 ==>
      NearestOrNext(RandomDithered(s, L, flips)[p], s[p], L.Of(Channel(p)))
      && IsStoredLevel(RandomDithered(s, L, flips)[p], L.Of(Channel(p)))
  {
    forall p | 0 <= p < |s|
      ensures Channel(p) == 3 ==> RandomDithered(s, L, flips)[p] == s[p]
      ensures Channel(p) != 3 ==> NearestOrNext(RandomDithered(s, L, flips)[p], s[p], L.Of(Channel(p)))
                                  && IsStoredLevel(RandomDithered(s, L, flips)[p], L.Of(Channel(p)))
    {
      RandomShapeAt(s, L, flips, p);
    }
  }

  /** When no coin comes up, `orderedDitheringRandom` is average dithering. */
  lemma RandomWithoutPromotion(s: seq<Byte>, L: LevelSets, flips: seq<bool>)
    requires LevelSetsValid(L) && |s| % 4 == 0 && |flips| >= 3 * (|s| / 4)
    requires forall m :: 0 <= m < |flips| ==> !flips[m]
    ensures RandomDithered(s, L, flips) == AverageDithered(s, L)
  {
    forall p | 0 <= p < |s| && Channel(p) != 3
      ensures RandomDithered(s, L, flips)[p] == AverageDithered(s, L)[p]
    {
      DrawInRange(p, |s| / 4);
    }
  }

  /**
   * The coins that make `orderedDitheringRandom` do what
   * `orderedDitheringRelative` does: draw `m` belongs to channel `m % 3` of
   * pixel `m / 3`, and comes up when that byte would be promoted by `D3`.
   */
  function MatrixCoins(s: seq<Byte>, L: LevelSets, w: int): (flips: seq<bool>)
    requires LevelSetsValid(L) && |s| % 4 == 0 && w >= 1
    ensures |flips| == 3 * (|s| / 4)
  {
    seq(3 * (|s| / 4), m requires 0 <= m < 3 * (|s| / 4) => MatrixCoin(s, L, w, m))
  }

  /** Draw `m` of `MatrixCoins`. */
  function MatrixCoin(s: seq<Byte>, L: LevelSets, w: int, m: int): bool
    requires LevelSetsValid(L) && |s| % 4 == 0 && w >= 1 && 0 <= m < 3 * (|s| / 4)
  {
    var q, c := m / 3, m % 3;
    assert 4 * q + c < |s| by {
      var n := |s| / 4;
      assert |s| == 4 * n && q < n;
    }
    PromotedAt(s[4 * q + c], L.Of(c), Threshold(4 * q, w))
  }

  /** Byte `p` of pixel `q` is the same in both variants when the coins are `MatrixCoins`. */
  lemma OrderedIsRandomAt(s: seq<Byte>, L: LevelSets, w: int, q: int, p: int)
    requires LevelSetsValid(L) && |s| % 4 == 0 && w >= 1
    requires 0 <= q && 4 * q <= p < 4 * q + 4 && p < |s|
    ensures OrderedDithered(s, L, w)[p] == RandomDithered(s, L, MatrixCoins(s, L, w))[p]
  {
    var flips := MatrixCoins(s, L, w);
    OrderedDitheredAt(s, L, w, q, p);
    RandomDitheredAt(s, L, flips, q, p);
    if p - 4 * q != 3 {
      MatrixCoinAt(s, L, w, q, p);
    }
  }

  /**
   * The deterministic variant is the random one with each coin replaced by the
   * comparison of the nearest level modulo 9 with the matrix cell.
   */
  lemma OrderedIsRandomWithMatrixCoins(s: seq<Byte>, L: LevelSets, w: int)
    requires LevelSetsValid(L) && |s| % 4 == 0 && w >= 1
    ensures OrderedDithered(s, L, w) == RandomDithered(s, L, MatrixCoins(s, L, w))
  {
    forall p | 0 <= p < |s|
      ensures OrderedDithered(s, L, w)[p] == RandomDithered(s, L, MatrixCoins(s, L, w))[p]
    {
      OrderedIsRandomAt(s, L, w, p / 4, p);
    }
  }

  /** The coin of byte `p` of pixel `q` is the matrix test of that byte. */
  lemma MatrixCoinAt(s: seq<Byte>, L: LevelSets, w: int, q: int, p: int)
    requires LevelSetsValid(L) && |s| % 4 == 0 && w >= 1
    requires 0 <= q && 4 * q <= p < 4 * q + 3 && p < |s|
    ensures 3 * q + (p - 4 * q) < 3 * (|s| / 4)
    ensures MatrixCoins(s, L, w)[3 * q + (p - 4 * q)] == PromotedAt(s[p], L.Of(p - 4 * q), Threshold(4 * q, w))
  {
    var c := p - 4 * q;
    assert 4 * q + c == p;
    var n := |s| / 4;
    assert |s| == 4 * n;
    assert q < n;
    var m := 3 * q + c;
    assert m / 3 == q && m % 3 == c;
    assert MatrixCoins(s, L, w)[m] == MatrixCoin(s, L, w, m);
  }

  /**
   * With the level lists of depth 1 or 2 the matrix never changes a byte: the
   * only level that could be promoted is 0, whose remainder modulo 9 is 0 and
   * exceeds no cell, and the level above 255 is 255 itself.
   */
  lemma TwoLevelsNeverPromoted(v: Byte, k: int, t: int)
    requires 1 <= k <= 2 && 0 <= t
    ensures Promote(v, Levels(k), PromotedAt(v, Levels(k), t)) == Quantize(v, Levels(k))
  {
    var I := Levels(k);
    LevelsOfOne();
    assert Levels(2) == [0.0, 255.0] by { LevelsShape(2); }
    var j := NearestIndexExists(v as real, I);
    if j == 0 {
      assert JsRemainder9(0.0) == 0.0;
    } else {
      assert Chosen(j, true, |I|) == j;
    }
  }

  /** Byte `p` of `OrderedTwoLevelsIsAverage`. */
  lemma OrderedTwoLevelsAt(s: seq<Byte>, d: Depths, w: int, p: int)
    requires 1 <= d.red <= 2 && 1 <= d.green <= 2 && 1 <= d.blue <= 2 && w >= 1 && 0 <= p < |s|
    ensures OrderedDithered(s, LevelsOf(d), w)[p] == AverageDithered(s, LevelsOf(d))[p]
  {
    if Channel(p) != 3 {
      ThresholdRange(p - Channel(p), w);
      TwoLevelsNeverPromoted(s[p], Depth(d, Channel(p)), Threshold(p - Channel(p), w));
    }
  }

  /** With one or two levels per channel, `orderedDitheringRelative` is average dithering. */
  lemma OrderedTwoLevelsIsAverage(s: seq<Byte>, d: Depths, w: int)
    requires 1 <= d.red <= 2 && 1 <= d.green <= 2 && 1 <= d.blue <= 2 && w >= 1
    ensures OrderedDithered(s, LevelsOf(d), w) == AverageDithered(s, LevelsOf(d))
  {
    forall p | 0 <= p < |s|
      ensures OrderedDithered(s, LevelsOf(d), w)[p] == AverageDithered(s, LevelsOf(d))[p]
    {
      OrderedTwoLevelsAt(s, d, w, p);
    }
  }

  /**
   * The matrix cell of the pixel in column `x` and row `y` of a canvas `w`
   * pixels wide: since `ii` and `jj` are taken from the byte index `4 * (y * w + x)`,
   * the row is `(y + floor(4 * x / w)) % 3` and the column `((4 * x) % w) % 3`,
   * not `y % 3` and `x % 3`.
   */
  lemma {:induction false} MatrixCellOfPixel(x: int, y: int, w: int)
    requires 0 <= x < w && 0 <= y
    ensures MatrixRow(4 * (y * w + x), w) == (y + (4 * x) / w) % 3
    ensures MatrixColumn(4 * (y * w + x), w) == ((4 * x) % w) % 3
  {
    var qq, rr := (4 * x) / w, (4 * x) % w;
    ByteIndexSplit(x, y, w, qq, rr);
    DivModUnique(4 * (y * w + x), w, 4 * y + qq, rr);
    RowShift(y, qq);
  }

  lemma ByteIndexSplit(x: int, y: int, w: int, qq: int, rr: int)
    requires 4 * x == qq * w + rr
    ensures 4 * (y * w + x) == (4 * y + qq) * w + rr
  {
    assert 4 * (y * w) == (4 * y) * w;
    assert (4 * y + qq) * w == (4 * y) * w + qq * w;
  }

  lemma RowShift(y: int, qq: int)
    ensures (4 * y + qq) % 3 == (y + qq) % 3
  {
    assert 4 * y + qq == (y + qq) + 3 * y;
  }

  /** Euclidean division by `w` has a single quotient and remainder. */
  lemma DivModUnique(n: int, w: int, a: int, b: int)
    requires w >= 1 && 0 <= b < w && n == a * w + b
    ensures n / w == a && n % w == b
  {
    var a', b' := n / w, n % w;
    assert n == a' * w + b';
    var k := a - a';
    assert k * w == a * w - a' * w;
    assert k * w == b' - b;
    if k >= 1 {
      MulAtLeast(k, w);
    } else if k <= -1 {
      assert (-k) * w == -(k * w);
      MulAtLeast(-k, w);
    }
  }

  lemma MulAtLeast(k: int, w: int)
    requires k >= 1 && w >= 1
    ensures k * w >= w
  {
    assert k * w == (k - 1) * w + w;
    assert (k - 1) * w >= 0;
  }
}

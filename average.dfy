/**
 * `averageDithering`: every red, green and blue byte of the buffer is
 * replaced, in place, by the nearest level of its channel.
 */
module Average {
  import opened Bytes
  import opened Intervals

  /** The byte stored for channel value `v`: its nearest level, through ToUint8Clamp. */
  function Quantize(v: Byte, I: seq<real>): Byte
    requires |I| >= 1
  {
    ToUint8Clamp(FindInterval(v as real, I, false))
  }

  /** The buffer after `averageDithering` with the level lists `L`. */
  function AverageDithered(s: seq<Byte>, L: LevelSets): seq<Byte>
    requires LevelSetsValid(L)
  {
    seq(|s|, p requires 0 <= p < |s| =>
      if Channel(p) == 3 then s[p] else Quantize(s[p], L.Of(Channel(p))))
  }

  /** The body of the loop of `averageDithering`, for the pixel at byte `i`. */
  method AveragePixelInPlace(a: array<Byte>, i: int, redIntervals: seq<real>, greenIntervals: seq<real>,
                             blueIntervals: seq<real>)
    requires |redIntervals| >= 1 && |greenIntervals| >= 1 && |blueIntervals| >= 1
    requires 0 <= i && i + 2 < a.Length
    modifies a
    ensures forall p :: 0 <= p < a.Length && !(i <= p < i + 3) ==> a[p] == old(a[p])
    ensures forall p :: i <= p < i + 3 ==>
      a[p] == Quantize(old(a[p]), LevelSets(redIntervals, greenIntervals, blueIntervals).Of(p - i))
  {
    a[i] := Quantize(a[i], redIntervals);
    a[i + 1] := Quantize(a[i + 1], greenIntervals);
    a[i + 2] := Quantize(a[i + 2], blueIntervals);
  }

  /** The loop of `averageDithering`, with the three lists built. */
  method AverageInPlace(a: array<Byte>, redIntervals: seq<real>, greenIntervals: seq<real>, blueIntervals: seq<real>)
    requires |redIntervals| >= 1 && |greenIntervals| >= 1 && |blueIntervals| >= 1
    requires a.Length % 4 == 0
    modifies a
    ensures a[..] == AverageDithered(old(a[..]), LevelSets(redIntervals, greenIntervals, blueIntervals))
  {
    ghost var s := a[..];
    ghost var r := AverageDithered(s, LevelSets(redIntervals, greenIntervals, blueIntervals));
    ghost var pixels := a.Length / 4;
    assert a.Length == 4 * pixels;
    var i := 0;
    ghost var q := 0;
    while i < a.Length
      invariant 0 <= q <= pixels && i == 4 * q
      invariant forall p :: 0 <= p < i ==> a[p] == r[p]
      invariant forall p :: i <= p < a.Length ==> a[p] == s[p]
    {
      PixelInside(q, pixels);
      AveragePixelInPlace(a, i, redIntervals, greenIntervals, blueIntervals);
      forall p | i <= p < i + 4
        ensures a[p] == r[p]
      {
        ChannelOf(q, p - i);
      }
      i, q := i + 4, q + 1;
    }
    assert a[..] == r;
  }

  /** `averageDithering(data)` with the depths passed in. */
  method AverageDithering(a: array<Byte>, d: Depths)
    requires a.Length % 4 == 0 && DepthsValid(d)
    modifies a
    ensures a[..] == AverageDithered(old(a[..]), LevelsOf(d))
  {
    var redIntervals := DitheringIntervals(d.red);
    var greenIntervals := DitheringIntervals(d.green);
    var blueIntervals := DitheringIntervals(d.blue);
    AverageInPlace(a, redIntervals, greenIntervals, blueIntervals);
  }

  /**
   * Average dithering keeps the length and every alpha byte, and leaves each
   * red, green and blue byte at a stored level of its channel.
   */
  lemma AverageDitheredShape(s: seq<Byte>, L: LevelSets)
    requires LevelSetsValid(L)
    ensures |AverageDithered(s, L)| == |s|
    ensures forall p :: 0 <= p < |s| && Channel(p) == 3 ==> AverageDithered(s, L)[p] == s[p]
    ensures forall p :: 0 <= p < |s| && Channel(p) != 3 ==> IsStoredLevel(AverageDithered(s, L)[p], L.Of(Channel(p)))
  {
    forall p | 0 <= p < |s| && Channel(p) != 3
      ensures IsStoredLevel(AverageDithered(s, L)[p], L.Of(Channel(p)))
    {
      var I := L.Of(Channel(p));
      var j := NearestIndexExists(s[p] as real, I);
      assert I[j] in I;
    }
  }

  /** With integer levels, quantizing a quantized byte changes nothing. */
  lemma QuantizeIdempotent(v: Byte, k: int)
    requires IntegerDepth(k)
    ensures Quantize(Quantize(v, Levels(k)), Levels(k)) == Quantize(v, Levels(k))
  {
    var I := Levels(k);
    var j := NearestIndexExists(v as real, I);
    if k == 1 {
      var j' := NearestIndexExists(Quantize(v, I) as real, I);
    } else {
      LevelsShape(k);
      IntegerLevels(k);
      assert Quantize(v, I) as real == I[j];
      FindIntervalIdempotent(I, j);
    }
  }

  /** With integer levels in every channel, average dithering is idempotent. */
  lemma AverageIdempotent(s: seq<Byte>, d: Depths)
    requires IntegerDepth(d.red) && IntegerDepth(d.green) && IntegerDepth(d.blue)
    ensures AverageDithered(AverageDithered(s, LevelsOf(d)), LevelsOf(d)) == AverageDithered(s, LevelsOf(d))
  {
    var L := LevelsOf(d);
    var once := AverageDithered(s, L);
    forall p | 0 <= p < |s| && Channel(p) != 3
      ensures AverageDithered(once, L)[p] == once[p]
    {
      QuantizeIdempotent(s[p], Depth(d, Channel(p)));
    }
  }

  /** One pixel (100, 150, 200, 255) at depth 2 in every channel becomes (0, 255, 255, 255). */
  lemma AverageExample()
    ensures AverageDithered([100, 150, 200, 255], LevelsOf(Depths(2, 2, 2))) == [0, 255, 255, 255]
  {
    var I := Levels(2);
    assert I == [0.0, 255.0];
    assert IsNearestIndex(100.0, I, 0);
    assert IsNearestIndex(150.0, I, 1);
    assert IsNearestIndex(200.0, I, 1);
    FindIntervalAt(100.0, I, false, 0);
    FindIntervalAt(150.0, I, false, 1);
    FindIntervalAt(200.0, I, false, 1);
  }
}

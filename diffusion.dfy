/**
 * `errorDiffusionDithering`: Floyd-Steinberg error diffusion over the flat
 * buffer. Pixels are visited in index order; each red, green and blue byte is
 * replaced by its nearest level and the residual is added, with weights 7, 3,
 * 5 and 1 sixteenths, to the same channel of four pixels found by flat-index
 * arithmetic: one to the right, and down-left, down and down-right one row
 * (`width` pixels) further. There is no edge handling: at the left edge the
 * down-left pixel is the last pixel of the same row, at the right edge the
 * right pixel is the first pixel of the next row, and only stores outside the
 * array are dropped.
 */
module ErrorDiffusion {
  import opened Bytes
  import opened Intervals

  /** The four byte indices channel `j` of the pixel at byte `i` diffuses into. */
  function Targets(i: int, j: int, w: int): (t: seq<int>)
    ensures |t| == 4
  {
    [i + j + 4, i + j - 4 + 4 * w, i + j + 4 * w, i + j + 4 + 4 * w]
  }

  /** The parts of a residual `e` given to the four targets; they add up to `e`. */
  function Shares(e: real): (r: seq<real>)
    ensures |r| == 4
    ensures r[0] + r[1] + r[2] + r[3] == e
  {
    [(e * 7.0) / 16.0, (e * 3.0) / 16.0, (e * 5.0) / 16.0, (e * 1.0) / 16.0]
  }

  /** The four `+=` of channel `j`'s residual `e`, in the order the source performs them. */
  function SpreadChannel(s: seq<Byte>, i: int, j: int, e: real, w: int): (r: seq<Byte>)
    ensures |r| == |s|
  {
    var t, x := Targets(i, j, w), Shares(e);
    AddAt(AddAt(AddAt(AddAt(s, t[0], x[0]), t[1], x[1]), t[2], x[2]), t[3], x[3])
  }

  /** The inner loop over channels 0 .. j - 1 with residuals `err`. */
  function SpreadUpTo(s: seq<Byte>, i: int, err: seq<real>, w: int, j: int): (r: seq<Byte>)
    requires |err| == 3 && 0 <= j <= 3
    ensures |r| == |s|
  {
    if j == 0 then s else SpreadChannel(SpreadUpTo(s, i, err, w, j - 1), i, j - 1, err[j - 1], w)
  }

  /** The nearest level of byte `i + c` (channel `c` of the pixel at byte `i`). */
  function NearestLevel(s: seq<Byte>, i: int, L: LevelSets, c: int): real
    requires LevelSetsValid(L) && 0 <= i && i + 2 < |s| && 0 <= c < 3
  {
    FindInterval(s[i + c] as real, L.Of(c), false)
  }

  /** The pixel at byte `i` with its red, green and blue bytes set to their nearest levels. */
  function Quantized(s: seq<Byte>, i: int, L: LevelSets): (r: seq<Byte>)
    requires LevelSetsValid(L) && 0 <= i && i + 2 < |s|
    ensures |r| == |s|
    ensures forall p :: 0 <= p < |s| && !(i <= p < i + 3) ==> r[p] == s[p]
    ensures forall c :: 0 <= c < 3 ==> r[i + c] == ToUint8Clamp(NearestLevel(s, i, L, c))
  {
    s[i := ToUint8Clamp(NearestLevel(s, i, L, 0))]
     [i + 1 := ToUint8Clamp(NearestLevel(s, i, L, 1))]
     [i + 2 := ToUint8Clamp(NearestLevel(s, i, L, 2))]
  }

  /** `err`: each channel value minus its nearest level, before the store. */
  function Residuals(s: seq<Byte>, i: int, L: LevelSets): (err: seq<real>)
    requires LevelSetsValid(L) && 0 <= i && i + 2 < |s|
    ensures |err| == 3
    ensures forall c :: 0 <= c < 3 ==> err[c] == s[i + c] as real - NearestLevel(s, i, L, c)
  {
    [s[i] as real - NearestLevel(s, i, L, 0),
     s[i + 1] as real - NearestLevel(s, i, L, 1),
     s[i + 2] as real - NearestLevel(s, i, L, 2)]
  }

  lemma ResidualsOf(s: seq<Byte>, i: int, L: LevelSets, red: real, green: real, blue: real)
    requires LevelSetsValid(L) && 0 <= i && i + 2 < |s|
    requires red == FindInterval(s[i] as real, L.red, false)
    requires green == FindInterval(s[i + 1] as real, L.green, false)
    requires blue == FindInterval(s[i + 2] as real, L.blue, false)
    ensures Residuals(s, i, L) == [s[i] as real - red, s[i + 1] as real - green, s[i + 2] as real - blue]
  {
  }

  /**
   * With at least two levels per channel, no residual exceeds half a step of
   * its channel: the nearest level is never farther than that.
   */
  lemma ResidualsBounded(s: seq<Byte>, i: int, d: Depths)
    requires d.red >= 2 && d.green >= 2 && d.blue >= 2 && 0 <= i && i + 2 < |s|
    ensures forall c :: 0 <= c < 3 ==>
      -Step(Depth(d, c)) / 2.0 <= Residuals(s, i, LevelsOf(d))[c] <= Step(Depth(d, c)) / 2.0
  {
    forall c | 0 <= c < 3
      ensures -Step(Depth(d, c)) / 2.0 <= Residuals(s, i, LevelsOf(d))[c] <= Step(Depth(d, c)) / 2.0
    {
      NearestWithinHalfStep(s[i + c] as real, Depth(d, c));
    }
  }

  /**
   * The buffer after the pixel at byte `i` is quantized and its residuals
   * spread, given byte by byte so that a proof about some bytes of it does not
   * have to expand all twelve stores.
   */
  function DiffusePixel(s: seq<Byte>, i: int, L: LevelSets, w: int): (r: seq<Byte>)
    requires LevelSetsValid(L) && 0 <= i && i + 2 < |s|
    ensures |r| == |s|
  {
    seq(|s|, p requires 0 <= p < |s| => SpreadUpTo(Quantized(s, i, L), i, Residuals(s, i, L), w, 3)[p])
  }

  /**
   * The outer loop from pixel `q` (byte `4 * q`) on, while a whole pixel
   * remains; on a buffer of whole pixels that is the source's `i < data.length`.
   */
  function DiffuseFrom(s: seq<Byte>, q: nat, L: LevelSets, w: int): (r: seq<Byte>)
    requires LevelSetsValid(L) && 4 * q <= |s|
    ensures |r| == |s|
    decreases |s| - 4 * q
  {
    if |s| < 4 * q + 4 then s else DiffuseFrom(DiffusePixel(s, 4 * q, L, w), q + 1, L, w)
  }

  /** The buffer after `errorDiffusionDithering` with the level lists `L`. */
  function Diffused(s: seq<Byte>, L: LevelSets, w: int): seq<Byte>
    requires LevelSetsValid(L) && |s| % 4 == 0
  {
    DiffuseFrom(s, 0, L, w)
  }

  /** `data[t] += x` on the clamped buffer; a store outside the array is dropped. */
  method AddInPlace(a: array<Byte>, t: int, x: real)
    modifies a
    ensures a[..] == AddAt(old(a[..]), t, x)
  {
    if 0 <= t < a.Length {
      a[t] := ToUint8Clamp(a[t] as real + x);
    }
  }

  /** One pass of the inner loop: the four weighted stores of channel `j`. */
  method SpreadInPlace(a: array<Byte>, i: int, j: int, e: real, width: int)
    modifies a
    ensures a[..] == SpreadChannel(old(a[..]), i, j, e, width)
  {
    var t, x := Targets(i, j, width), Shares(e);
    AddInPlace(a, t[0], x[0]);
    AddInPlace(a, t[1], x[1]);
    AddInPlace(a, t[2], x[2]);
    AddInPlace(a, t[3], x[3]);
  }

  /** The inner loop of `errorDiffusionDithering` (the Floyd-Steinberg filter) over the three channels. */
  method SpreadResiduals(a: array<Byte>, i: int, err: seq<real>, width: int)
    requires |err| == 3
    modifies a
    ensures a[..] == SpreadUpTo(old(a[..]), i, err, width, 3)
  {
    var j := 0;
    while j < 3
      invariant 0 <= j <= 3
      invariant a[..] == SpreadUpTo(old(a[..]), i, err, width, j)
    {
      SpreadInPlace(a, i, j, err[j], width);
      j := j + 1;
    }
  }

  /**
   * One pass of the outer loop of `errorDiffusionDithering` at byte `i`:
   * quantize the pixel, then spread the three residuals.
   */
  method DiffusePixelInPlace(a: array<Byte>, i: int, redIntervals: seq<real>, greenIntervals: seq<real>,
                             blueIntervals: seq<real>, width: int)
    requires |redIntervals| >= 1 && |greenIntervals| >= 1 && |blueIntervals| >= 1
    requires 0 <= i && i + 2 < a.Length
    modifies a
    ensures a[..] == DiffusePixel(old(a[..]), i, LevelSets(redIntervals, greenIntervals, blueIntervals), width)
  {
    ghost var L := LevelSets(redIntervals, greenIntervals, blueIntervals);
    var red := FindInterval(a[i] as real, redIntervals, false);
    var green := FindInterval(a[i + 1] as real, greenIntervals, false);
    var blue := FindInterval(a[i + 2] as real, blueIntervals, false);
    var rerr := a[i] as real - red;
    var gerr := a[i + 1] as real - green;
    var berr := a[i + 2] as real - blue;
    var err := [rerr, gerr, berr];
    ResidualsOf(a[..], i, L, red, green, blue);
    a[i + 0] := ToUint8Clamp(red);
    a[i + 1] := ToUint8Clamp(green);
    a[i + 2] := ToUint8Clamp(blue);
    assert a[..] == Quantized(old(a[..]), i, L);
    SpreadResiduals(a, i, err, width);
  }

  /** The outer loop of `errorDiffusionDithering` over every pixel, with the three lists built. */
  method DiffuseInPlace(a: array<Byte>, redIntervals: seq<real>, greenIntervals: seq<real>,
                        blueIntervals: seq<real>, width: int)
    requires |redIntervals| >= 1 && |greenIntervals| >= 1 && |blueIntervals| >= 1
    requires a.Length % 4 == 0
    modifies a
    ensures a[..] == Diffused(old(a[..]), LevelSets(redIntervals, greenIntervals, blueIntervals), width)
  {
    ghost var L := LevelSets(redIntervals, greenIntervals, blueIntervals);
    ghost var pixels := a.Length / 4;
    assert a.Length == 4 * pixels;
    var i := 0;
    ghost var q := 0;
    while i < a.Length
      invariant 0 <= q <= pixels && i == 4 * q
      invariant DiffuseFrom(a[..], q, L, width) == Diffused(old(a[..]), L, width)
    {
      PixelInside(q, pixels);
      DiffusePixelInPlace(a, i, redIntervals, greenIntervals, blueIntervals, width);
      i, q := i + 4, q + 1;
    }
  }

  /**
   * `errorDiffusionDithering(data)` with the depths and the canvas width passed
   * in: the buffer ends as `Diffused` over the lists of `d`.
   */
  method ErrorDiffusionDithering(a: array<Byte>, d: Depths, width: int)
    requires a.Length % 4 == 0 && DepthsValid(d)
    modifies a
    ensures a[..] == Diffused(old(a[..]), LevelsOf(d), width)
  {
    var redIntervals := DitheringIntervals(d.red);
    var greenIntervals := DitheringIntervals(d.green);
    var blueIntervals := DitheringIntervals(d.blue);
    DiffuseInPlace(a, redIntervals, greenIntervals, blueIntervals, width);
  }

  /** No target of the channels before `j` is byte `p`. */
  ghost predicate Untouched(i: int, w: int, j: int, p: int)
  {
    forall c, m :: 0 <= c < j && 0 <= m < 4 ==> Targets(i, c, w)[m] != p
  }

  /** Spreading residuals leaves every byte that is not a target as it was. */
  lemma {:induction false} SpreadUpToFrame(s: seq<Byte>, i: int, err: seq<real>, w: int, j: int, p: int)
    requires |err| == 3 && 0 <= j <= 3 && 0 <= p < |s|
    requires Untouched(i, w, j, p)
    ensures SpreadUpTo(s, i, err, w, j)[p] == s[p]
  {
    if j > 0 {
      SpreadUpToFrame(s, i, err, w, j - 1, p);
    }
  }

  /** Every target of channel `c` is a byte of channel `c`. */
  lemma TargetsChannel(q: int, c: int, w: int, m: int)
    requires 0 <= c < 3 && 0 <= m < 4
    ensures Channel(Targets(4 * q, c, w)[m]) == c
  {
    var t := Targets(4 * q, c, w);
    if m == 0 {
      ChannelOf(q + 1, c);
    } else if m == 1 {
      ChannelOf(q - 1 + w, c);
    } else if m == 2 {
      ChannelOf(q + w, c);
    } else {
      ChannelOf(q + 1 + w, c);
    }
  }

  /** Alpha bytes are never a target. */
  lemma AlphaUntouched(q: int, w: int, p: int)
    requires Channel(p) == 3
    ensures Untouched(4 * q, w, 3, p)
  {
    forall c, m | 0 <= c < 3 && 0 <= m < 4
      ensures Targets(4 * q, c, w)[m] != p
    {
      TargetsChannel(q, c, w, m);
    }
  }

  /** With `w >= 2` every target lies after the pixel being processed. */
  lemma EarlierUntouched(i: int, w: int, p: int)
    requires w >= 2 && p < i + 4
    ensures Untouched(i, w, 3, p)
  {
  }

  /** One pixel step keeps alpha bytes, and with `w >= 2` every byte before the pixel. */
  lemma DiffusePixelFrame(s: seq<Byte>, q: nat, L: LevelSets, w: int, p: int)
    requires LevelSetsValid(L) && 4 * q + 2 < |s| && 0 <= p < |s|
    requires Channel(p) == 3 || (w >= 2 && p < 4 * q)
    ensures DiffusePixel(s, 4 * q, L, w)[p] == s[p]
  {
    var i := 4 * q;
    if Channel(p) == 3 {
      ChannelOf(q, 0);
      ChannelOf(q, 1);
      ChannelOf(q, 2);
      AlphaUntouched(q, w, p);
    } else {
      EarlierUntouched(i, w, p);
    }
    SpreadUpToFrame(Quantized(s, i, L), i, Residuals(s, i, L), w, 3, p);
  }

  /** Error diffusion keeps every alpha byte, for every width. */
  lemma {:induction false} DiffuseFromKeepsAlpha(s: seq<Byte>, q: nat, L: LevelSets, w: int, p: int)
    requires LevelSetsValid(L) && 4 * q <= |s|
    requires 0 <= p < |s| && Channel(p) == 3
    ensures DiffuseFrom(s, q, L, w)[p] == s[p]
    decreases |s| - 4 * q
  {
    if 4 * q + 4 <= |s| {
      DiffusePixelFrame(s, q, L, w, p);
      DiffuseFromKeepsAlpha(DiffusePixel(s, 4 * q, L, w), q + 1, L, w, p);
    }
  }

  /** The alpha channel passes through error diffusion unchanged. */
  lemma DiffusedKeepsAlpha(s: seq<Byte>, L: LevelSets, w: int)
    requires LevelSetsValid(L) && |s| % 4 == 0
    ensures |Diffused(s, L, w)| == |s|
    ensures forall p :: 0 <= p < |s| && Channel(p) == 3 ==> Diffused(s, L, w)[p] == s[p]
  {
    forall p | 0 <= p < |s| && Channel(p) == 3
      ensures Diffused(s, L, w)[p] == s[p]
    {
      DiffuseFromKeepsAlpha(s, 0, L, w, p);
    }
  }

  /**
   * With `w >= 2`, once the loop has reached pixel `q`, no later step changes
   * any byte before it: a pixel is never changed once quantized.
   */
  lemma {:induction false} DiffuseFromKeepsPrefix(s: seq<Byte>, q: nat, L: LevelSets, w: int, p: int)
    requires LevelSetsValid(L) && 4 * q <= |s| && w >= 2
    requires 0 <= p < 4 * q
    ensures DiffuseFrom(s, q, L, w)[p] == s[p]
    decreases |s| - 4 * q
  {
    if 4 * q + 4 <= |s| {
      DiffusePixelFrame(s, q, L, w, p);
      DiffuseFromKeepsPrefix(DiffusePixel(s, 4 * q, L, w), q + 1, L, w, p);
    }
  }

  /** With `w >= 2`, the step at pixel `q` leaves its red, green and blue bytes at stored levels. */
  lemma DiffusePixelLevels(s: seq<Byte>, q: nat, L: LevelSets, w: int, c: int)
    requires LevelSetsValid(L) && 4 * q + 2 < |s| && w >= 2 && 0 <= c < 3
    ensures IsStoredLevel(DiffusePixel(s, 4 * q, L, w)[4 * q + c], L.Of(c))
  {
    var i := 4 * q;
    EarlierUntouched(i, w, i + c);
    SpreadUpToFrame(Quantized(s, i, L), i, Residuals(s, i, L), w, 3, i + c);
    var jn := NearestIndexExists(s[i + c] as real, L.Of(c));
    assert NearestLevel(s, i, L, c) in L.Of(c);
  }

  /** With `w >= 2`, a byte of pixel `q` or before it that is at a stored level once pixel `q` is done stays there. */
  lemma ReachedLevelKept(s: seq<Byte>, q: nat, L: LevelSets, w: int, p: int)
    requires LevelSetsValid(L) && 4 * q + 4 <= |s| && w >= 2
    requires 0 <= p < 4 * q + 4 && Channel(p) != 3
    requires p < 4 * q ==> IsStoredLevel(s[p], L.Of(Channel(p)))
    ensures IsStoredLevel(DiffuseFrom(DiffusePixel(s, 4 * q, L, w), q + 1, L, w)[p], L.Of(Channel(p)))
  {
    var s' := DiffusePixel(s, 4 * q, L, w);
    if p < 4 * q {
      DiffusePixelFrame(s, q, L, w, p);
    } else {
      var c := p - 4 * q;
      assert 4 * q + c == p;
      ChannelOf(q, c);
      DiffusePixelLevels(s, q, L, w, c);
    }
    assert IsStoredLevel(s'[p], L.Of(Channel(p)));
    DiffuseFromKeepsPrefix(s', q + 1, L, w, p);
  }

  /**
   * With `w >= 2`, a red, green or blue byte is at a stored level after the
   * loop when it was already one before pixel `q`, or lies at or after it.
   */
  lemma {:induction false} DiffuseFromLevelAt(s: seq<Byte>, q: nat, L: LevelSets, w: int, p: int)
    requires LevelSetsValid(L) && |s| % 4 == 0 && 4 * q <= |s| && w >= 2
    requires 0 <= p < |s| && Channel(p) != 3
    requires p < 4 * q ==> IsStoredLevel(s[p], L.Of(Channel(p)))
    ensures IsStoredLevel(DiffuseFrom(s, q, L, w)[p], L.Of(Channel(p)))
    decreases |s| - 4 * q
  {
    if |s| < 4 * q + 4 {
      WholePixels(q, |s|);
    } else {
      if p < 4 * q + 4 {
        ReachedLevelKept(s, q, L, w, p);
      } else {
        DiffuseFromLevelAt(DiffusePixel(s, 4 * q, L, w), q + 1, L, w, p);
      }
    }
  }

  /**
   * With `w >= 2`, error diffusion leaves every red, green and blue byte at a
   * stored level of its channel.
   */
  lemma DiffusedIsLevels(s: seq<Byte>, L: LevelSets, w: int)
    requires LevelSetsValid(L) && |s| % 4 == 0 && w >= 2
    ensures forall p :: 0 <= p < |s| && Channel(p) != 3 ==> IsStoredLevel(Diffused(s, L, w)[p], L.Of(Channel(p)))
  {
    forall p | 0 <= p < |s| && Channel(p) != 3
      ensures IsStoredLevel(Diffused(s, L, w)[p], L.Of(Channel(p)))
    {
      DiffuseFromLevelAt(s, 0, L, w, p);
    }
  }

  /**
   * The flat-index neighbours wrap around rows: for the pixel in column `x` of
   * row `y`, the down-left target of column 0 is the last pixel of row `y`,
   * and the right and down-right targets of the last column are the first
   * pixels of rows `y + 1` and `y + 2`.
   */
  lemma TargetsWrapRows(j: int, w: int, x: int, y: int)
    requires w >= 1 && 0 <= x < w
    ensures x == 0 ==> Targets(4 * (y * w + x), j, w)[1] == 4 * (y * w + (w - 1)) + j
    ensures x == w - 1 ==> Targets(4 * (y * w + x), j, w)[0] == 4 * ((y + 1) * w) + j
    ensures x == w - 1 ==> Targets(4 * (y * w + x), j, w)[3] == 4 * ((y + 2) * w) + j
  {
    assert (y + 1) * w == y * w + w;
    assert (y + 2) * w == y * w + 2 * w;
  }
}

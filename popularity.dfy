/**
 * `popularityAlgorithm`: count the colours of the buffer, keep the `k` most
 * frequent ones as the palette, and replace every pixel by its nearest palette
 * colour under the squared distance `dist`.
 *
 * The histogram keys of the source are strings `"r,g,b"`; they are modelled
 * directly as `Rgb` triples. `Object.keys` lists such keys in insertion order,
 * which is the order in which the colours are first seen.
 */
module Popularity {
  import opened Bytes
  import opened Intervals

  /** The colour of one pixel, alpha ignored. */
  datatype Rgb = Rgb(r: Byte, g: Byte, b: Byte)
  {
    /** Component `c` (0 red, 1 green, 2 blue). */
    function Component(c: int): Byte
    {
      if c == 0 then r else if c == 1 then g else b
    }
  }

  function Square(x: int): (y: int)
    ensures y >= 0
    ensures y == 0 <==> x == 0
  {
    if x == 0 then 0 else PositiveSquare(x); x * x
  }

  lemma PositiveSquare(x: int)
    requires x != 0
    ensures x * x > 0
  {
    if x < 0 {
      assert x * x == (-x) * (-x);
    }
  }

  /** `dist`: the squared Euclidean distance of two colours, zero exactly when they are equal. */
  function Dist(c0: Rgb, c1: Rgb): (d: int)
    ensures d >= 0
    ensures d == 0 <==> c0 == c1
  {
    Square(c0.r - c1.r) + Square(c0.g - c1.g) + Square(c0.b - c1.b)
  }

  lemma DistSymmetric(c0: Rgb, c1: Rgb)
    ensures Dist(c0, c1) == Dist(c1, c0)
  {
    assert (c0.r - c1.r) * (c0.r - c1.r) == (c1.r - c0.r) * (c1.r - c0.r);
    assert (c0.g - c1.g) * (c0.g - c1.g) == (c1.g - c0.g) * (c1.g - c0.g);
    assert (c0.b - c1.b) * (c0.b - c1.b) == (c1.b - c0.b) * (c1.b - c0.b);
  }

  /** The colour of pixel `q`, whose bytes start at `4 * q`. */
  function Pixel(s: seq<Byte>, q: int): Rgb
    requires 0 <= q && 4 * q + 2 < |s|
  {
    Rgb(s[4 * q], s[4 * q + 1], s[4 * q + 2])
  }

  /** A pixel index below the number of pixels has its bytes inside the buffer. */
  lemma PixelBytes(q: int, n: int)
    requires n % 4 == 0 && 0 <= q < n / 4
    ensures 4 * q + 4 <= n
  {
  }

  /** The colours of the pixels of `s`, in buffer order. */
  function Colors(s: seq<Byte>): (cs: seq<Rgb>)
    requires |s| % 4 == 0
    ensures |cs| == |s| / 4
  {
    seq(|s| / 4, q requires 0 <= q < |s| / 4 => PixelBytes(q, |s|); Pixel(s, q))
  }

  lemma ColorAt(s: seq<Byte>, q: int)
    requires |s| % 4 == 0 && 0 <= q && 4 * q + 4 <= |s|
    ensures q < |Colors(s)| && Colors(s)[q] == Pixel(s, q)
  {
  }

  /** No colour occurs twice in `t`. */
  predicate NoDuplicates(t: seq<Rgb>)
  {
    forall a, b :: 0 <= a < b < |t| ==> t[a] != t[b]
  }

  /** The distinct colours of `cs` in order of first occurrence: the keys of `colors`. */
  function Distinct(cs: seq<Rgb>): seq<Rgb>
  {
    if |cs| == 0 then []
    else
      var d := Distinct(cs[..|cs| - 1]);
      if cs[|cs| - 1] in d then d else d + [cs[|cs| - 1]]
  }

  /**
   * The dictionary `colors` after the pixels `cs`: a colour seen for the first
   * time gets count 1, a colour seen before has its count increased.
   */
  function Histogram(cs: seq<Rgb>): map<Rgb, int>
  {
    if |cs| == 0 then map[]
    else
      var h, x := Histogram(cs[..|cs| - 1]), cs[|cs| - 1];
      if x in h then h[x := h[x] + 1] else h[x := 1]
  }

  /** The keys are exactly the colours of the pixels, each listed once. */
  lemma {:induction false} DistinctElements(cs: seq<Rgb>)
    ensures forall c :: c in Distinct(cs) <==> c in cs
    ensures NoDuplicates(Distinct(cs))
  {
    if |cs| > 0 {
      var u, x := cs[..|cs| - 1], cs[|cs| - 1];
      assert cs == u + [x];
      DistinctElements(u);
    }
  }

  /** Every colour of the pixels is a key, and its count is the number of pixels of that colour. */
  lemma {:induction false} HistogramCounts(cs: seq<Rgb>)
    ensures forall c :: c in Histogram(cs) <==> c in cs
    ensures forall c :: c in Histogram(cs) ==> Histogram(cs)[c] == multiset(cs)[c] >= 1
  {
    if |cs| > 0 {
      var u, x := cs[..|cs| - 1], cs[|cs| - 1];
      assert cs == u + [x];
      assert multiset(cs) == multiset(u) + multiset{x};
      HistogramCounts(u);
    }
  }

  /**
   * The first loop of `popularityAlgorithm`: the dictionary of colour counts
   * and its keys in insertion order.
   */
  method BuildHistogram(a: array<Byte>) returns (keys: seq<Rgb>, colors: map<Rgb, int>)
    requires a.Length % 4 == 0
    ensures keys == Distinct(Colors(a[..]))
    ensures colors == Histogram(Colors(a[..]))
  {
    ghost var cs := Colors(a[..]);
    ghost var pixels := a.Length / 4;
    assert a.Length == 4 * pixels;
    keys, colors := [], map[];
    var i := 0;
    ghost var q := 0;
    while i < a.Length
      invariant 0 <= q <= pixels && i == 4 * q
      invariant keys == Distinct(cs[..q])
      invariant colors == Histogram(cs[..q])
    {
      PixelInside(q, pixels);
      var key := Rgb(a[i], a[i + 1], a[i + 2]);
      ColorAt(a[..], q);
      HistogramStep(cs, q);
      if key !in colors {
        colors := colors[key := 1];
        keys := keys + [key];
      } else {
        colors := colors[key := colors[key] + 1];
      }
      i, q := i + 4, q + 1;
    }
    assert cs[..q] == cs;
  }

  /** One more pixel: a new colour is appended to the keys with count 1, a known one is counted again. */
  lemma HistogramStep(cs: seq<Rgb>, q: int)
    requires 0 <= q < |cs|
    ensures cs[q] in Histogram(cs[..q]) <==> cs[q] in Distinct(cs[..q])
    ensures Distinct(cs[..q + 1]) == if cs[q] in Distinct(cs[..q]) then Distinct(cs[..q]) else Distinct(cs[..q]) + [cs[q]]
    ensures Histogram(cs[..q + 1]) ==
      var h := Histogram(cs[..q]);
      if cs[q] in h then h[cs[q] := h[cs[q]] + 1] else h[cs[q] := 1]
  {
    var seen := cs[..q + 1];
    assert seen[..q] == cs[..q] && seen[q] == cs[q];
    DistinctElements(cs[..q]);
    HistogramCounts(cs[..q]);
  }

  /** The sum of the counts in `h` of the colours of `t`. */
  function SumCounts(t: seq<Rgb>, h: map<Rgb, int>): int
  {
    if |t| == 0 then 0 else SumCounts(t[..|t| - 1], h) + (if t[|t| - 1] in h then h[t[|t| - 1]] else 0)
  }

  lemma {:induction false} SumCountsAppend(t: seq<Rgb>, h: map<Rgb, int>, x: Rgb)
    ensures SumCounts(t + [x], h) == SumCounts(t, h) + (if x in h then h[x] else 0)
  {
    assert (t + [x])[..|t + [x]| - 1] == t;
  }

  /** Raising the count of one colour of a list without duplicates raises the sum by one. */
  lemma {:induction false} SumCountsIncrement(t: seq<Rgb>, h: map<Rgb, int>, x: Rgb)
    requires NoDuplicates(t) && x in t && x in h
    ensures SumCounts(t, h[x := h[x] + 1]) == SumCounts(t, h) + 1
  {
    var n := |t| - 1;
    var u := t[..n];
    assert t == u + [t[n]];
    if t[n] == x {
      assert x !in u;
      SumCountsUnchanged(u, h, x, h[x] + 1);
    } else {
      assert x in u;
      SumCountsIncrement(u, h, x);
    }
  }

  /** Changing the count of a colour that is not in `t` leaves the sum alone. */
  lemma {:induction false} SumCountsUnchanged(t: seq<Rgb>, h: map<Rgb, int>, x: Rgb, v: int)
    requires x !in t
    ensures SumCounts(t, h[x := v]) == SumCounts(t, h)
  {
    if |t| > 0 {
      var u := t[..|t| - 1];
      assert t == u + [t[|t| - 1]];
      SumCountsUnchanged(u, h, x, v);
    }
  }

  /** The histogram counts add up to the number of pixels. */
  lemma {:induction false} HistogramTotal(cs: seq<Rgb>)
    ensures SumCounts(Distinct(cs), Histogram(cs)) == |cs|
  {
    if |cs| > 0 {
      var u, x := cs[..|cs| - 1], cs[|cs| - 1];
      HistogramTotal(u);
      var d, h := Distinct(u), Histogram(u);
      assert Distinct(cs) == if x in d then d else d + [x];
      assert Histogram(cs) == if x in h then h[x := h[x] + 1] else h[x := 1];
      DistinctElements(u);
      HistogramCounts(u);
      assert x in h <==> x in d;
      if x in h {
        SumCountsIncrement(d, h, x);
      } else {
        SumCountsUnchanged(d, h, x, 1);
        SumCountsAppend(d, h[x := 1], x);
      }
    }
  }

  /** The count of `x` in `h`, 0 for a colour that is not a key. */
  function Cnt(h: map<Rgb, int>, x: Rgb): int
  {
    if x in h then h[x] else 0
  }

  /**
   * Insert `x` into `t` after every colour whose count is at least that of `x`:
   * one step of a stable sort by decreasing count.
   */
  function Insert(x: Rgb, t: seq<Rgb>, h: map<Rgb, int>): seq<Rgb>
  {
    if |t| == 0 then [x]
    else if Cnt(h, t[0]) >= Cnt(h, x) then [t[0]] + Insert(x, t[1..], h)
    else [x] + t
  }

  /** Inserting adds exactly one occurrence of `x`. */
  lemma {:induction false} InsertPermutes(x: Rgb, t: seq<Rgb>, h: map<Rgb, int>)
    ensures multiset(Insert(x, t, h)) == multiset(t) + multiset{x}
    ensures |Insert(x, t, h)| == |t| + 1
  {
    if |t| > 0 && Cnt(h, t[0]) >= Cnt(h, x) {
      InsertPermutes(x, t[1..], h);
      assert t == [t[0]] + t[1..];
    }
  }

  /**
   * `Object.keys(colors).sort((a, b) => colors[b] - colors[a])`: the keys by
   * decreasing count, keys of equal count kept in their original order, as
   * `Array.prototype.sort` is stable.
   */
  function SortByCount(keys: seq<Rgb>, h: map<Rgb, int>): seq<Rgb>
  {
    if |keys| == 0 then []
    else Insert(keys[|keys| - 1], SortByCount(keys[..|keys| - 1], h), h)
  }

  /** The counts never increase along `t`. */
  ghost predicate NonIncreasing(t: seq<Rgb>, h: map<Rgb, int>)
  {
    forall a, b :: 0 <= a < b < |t| ==> Cnt(h, t[a]) >= Cnt(h, t[b])
  }

  /** The colours of `t` whose count is `v`, in the order of `t`. */
  function WithCount(t: seq<Rgb>, h: map<Rgb, int>, v: int): seq<Rgb>
  {
    if |t| == 0 then []
    else (if Cnt(h, t[0]) == v then [t[0]] else []) + WithCount(t[1..], h, v)
  }

  /** Appending a colour appends it to its own count class only. */
  lemma {:induction false} WithCountAppend(t: seq<Rgb>, h: map<Rgb, int>, v: int, x: Rgb)
    ensures WithCount(t + [x], h, v) == WithCount(t, h, v) + (if Cnt(h, x) == v then [x] else [])
  {
    if |t| > 0 {
      assert (t + [x])[1..] == t[1..] + [x];
      WithCountAppend(t[1..], h, v, x);
    }
  }

  /** A list without a colour of count `v` has an empty class `v`. */
  lemma {:induction false} WithCountNone(t: seq<Rgb>, h: map<Rgb, int>, v: int)
    requires forall a :: 0 <= a < |t| ==> Cnt(h, t[a]) != v
    ensures WithCount(t, h, v) == []
  {
    if |t| > 0 {
      WithCountNone(t[1..], h, v);
    }
  }

  /** The class `v` holds only colours of `t` with count `v`. */
  lemma {:induction false} WithCountElements(t: seq<Rgb>, h: map<Rgb, int>, v: int)
    ensures forall e :: e in WithCount(t, h, v) ==> e in t && Cnt(h, e) == v
  {
    if |t| > 0 {
      WithCountElements(t[1..], h, v);
    }
  }

  /** A colour whose count dominates a non-increasing list can go in front of it. */
  lemma ConsNonIncreasing(x: Rgb, t: seq<Rgb>, h: map<Rgb, int>)
    requires NonIncreasing(t, h)
    requires forall a :: 0 <= a < |t| ==> Cnt(h, x) >= Cnt(h, t[a])
    ensures NonIncreasing([x] + t, h)
  {
    var r := [x] + t;
    forall a, b | 0 <= a < b < |r|
      ensures Cnt(h, r[a]) >= Cnt(h, r[b])
    {
      assert r[b] == t[b - 1];
      if a > 0 {
        assert r[a] == t[a - 1];
      }
    }
  }

  /** Inserting into a non-increasing list keeps it non-increasing. */
  lemma {:induction false} InsertNonIncreasing(x: Rgb, t: seq<Rgb>, h: map<Rgb, int>)
    requires NonIncreasing(t, h)
    ensures NonIncreasing(Insert(x, t, h), h)
  {
    if |t| == 0 {
    } else if Cnt(h, t[0]) >= Cnt(h, x) {
      var rest := Insert(x, t[1..], h);
      TailNonIncreasing(t, h);
      InsertNonIncreasing(x, t[1..], h);
      InsertPermutes(x, t[1..], h);
      forall a | 0 <= a < |rest|
        ensures Cnt(h, t[0]) >= Cnt(h, rest[a])
      {
        var e := rest[a];
        assert e in multiset(rest);
        if e != x {
          assert e in multiset(t[1..]);
          var c :| 0 <= c < |t[1..]| && t[1..][c] == e;
          assert t[c + 1] == e;
        }
      }
      ConsNonIncreasing(t[0], rest, h);
    } else {
      ConsNonIncreasing(x, t, h);
    }
  }

  /** Inserting `x` adds it at the end of its count class and leaves the other classes alone. */
  lemma {:induction false} InsertWithCount(x: Rgb, t: seq<Rgb>, h: map<Rgb, int>, v: int)
    requires NonIncreasing(t, h)
    ensures WithCount(Insert(x, t, h), h, v) == WithCount(t, h, v) + (if Cnt(h, x) == v then [x] else [])
  {
    if |t| == 0 {
      WithCountCons(x, [], h, v);
      assert [x] + [] == [x];
    } else if Cnt(h, t[0]) >= Cnt(h, x) {
      TailNonIncreasing(t, h);
      InsertWithCount(x, t[1..], h, v);
      InsertBehindWithCount(x, t, h, v);
    } else {
      InsertInFrontWithCount(x, t, h, v);
    }
  }

  /** The step of `InsertWithCount` where `x` goes behind the head of `t`. */
  lemma InsertBehindWithCount(x: Rgb, t: seq<Rgb>, h: map<Rgb, int>, v: int)
    requires |t| > 0 && Cnt(h, t[0]) >= Cnt(h, x)
    requires WithCount(Insert(x, t[1..], h), h, v) == WithCount(t[1..], h, v) + (if Cnt(h, x) == v then [x] else [])
    ensures WithCount(Insert(x, t, h), h, v) == WithCount(t, h, v) + (if Cnt(h, x) == v then [x] else [])
  {
    assert Insert(x, t, h) == [t[0]] + Insert(x, t[1..], h);
    assert [t[0]] + t[1..] == t;
    ConsWithCount(t[0], t[1..], Insert(x, t[1..], h), h, v, if Cnt(h, x) == v then [x] else []);
  }

  /** Putting the same colour in front of two lists keeps their classes related. */
  lemma ConsWithCount(e: Rgb, u: seq<Rgb>, w: seq<Rgb>, h: map<Rgb, int>, v: int, tail: seq<Rgb>)
    requires WithCount(w, h, v) == WithCount(u, h, v) + tail
    ensures WithCount([e] + w, h, v) == WithCount([e] + u, h, v) + tail
  {
    var head: seq<Rgb> := if Cnt(h, e) == v then [e] else [];
    WithCountCons(e, w, h, v);
    WithCountCons(e, u, h, v);
    Reassociate(head, WithCount(w, h, v), WithCount(u, h, v), tail);
  }

  lemma Reassociate(head: seq<Rgb>, a: seq<Rgb>, b: seq<Rgb>, tail: seq<Rgb>)
    requires a == b + tail
    ensures head + a == (head + b) + tail
  {
  }

  /** The step of `InsertWithCount` where `x` goes in front of `t`. */
  lemma InsertInFrontWithCount(x: Rgb, t: seq<Rgb>, h: map<Rgb, int>, v: int)
    requires NonIncreasing(t, h)
    requires |t| > 0 && Cnt(h, t[0]) < Cnt(h, x)
    ensures WithCount(Insert(x, t, h), h, v) == WithCount(t, h, v) + (if Cnt(h, x) == v then [x] else [])
  {
    assert Insert(x, t, h) == [x] + t;
    WithCountCons(x, t, h, v);
    if Cnt(h, x) == v {
      forall a | 0 <= a < |t|
        ensures Cnt(h, t[a]) != v
      {
        assert Cnt(h, t[a]) <= Cnt(h, t[0]);
      }
      WithCountNone(t, h, v);
      assert WithCount(Insert(x, t, h), h, v) == [x];
    }
  }

  lemma TailNonIncreasing(t: seq<Rgb>, h: map<Rgb, int>)
    requires |t| > 0 && NonIncreasing(t, h)
    ensures NonIncreasing(t[1..], h)
  {
    forall a, b | 0 <= a < b < |t[1..]|
      ensures Cnt(h, t[1..][a]) >= Cnt(h, t[1..][b])
    {
      assert t[1..][a] == t[a + 1] && t[1..][b] == t[b + 1];
    }
  }

  lemma WithCountCons(e: Rgb, t: seq<Rgb>, h: map<Rgb, int>, v: int)
    ensures WithCount([e] + t, h, v) == (if Cnt(h, e) == v then [e] else []) + WithCount(t, h, v)
  {
    assert ([e] + t)[1..] == t;
  }

  /**
   * The sorted keys are a permutation of the keys, their counts never increase,
   * and the keys of each count appear in their original order.
   */
  lemma {:induction false} SortByCountSorted(keys: seq<Rgb>, h: map<Rgb, int>)
    ensures multiset(SortByCount(keys, h)) == multiset(keys)
    ensures |SortByCount(keys, h)| == |keys|
    ensures NonIncreasing(SortByCount(keys, h), h)
    ensures forall v :: WithCount(SortByCount(keys, h), h, v) == WithCount(keys, h, v)
  {
    if |keys| > 0 {
      var u, x := keys[..|keys| - 1], keys[|keys| - 1];
      assert keys == u + [x];
      SortByCountSorted(u, h);
      InsertPermutes(x, SortByCount(u, h), h);
      InsertNonIncreasing(x, SortByCount(u, h), h);
      forall v
        ensures WithCount(SortByCount(keys, h), h, v) == WithCount(keys, h, v)
      {
        InsertWithCount(x, SortByCount(u, h), h, v);
        WithCountAppend(u, h, v, x);
      }
    }
  }

  /**
   * Index `b` is the one the inner loop of `popularityAlgorithm` settles on among
   * palette entries `[0, n)`: its distance to `c` is minimal, and, as the loop
   * only moves on a strictly smaller distance, every earlier entry is farther.
   */
  ghost predicate IsFirstNearest(c: Rgb, P: seq<Rgb>, n: int, b: int)
  {
    0 <= b < n <= |P|
    && (forall j :: 0 <= j < n ==> Dist(c, P[b]) <= Dist(c, P[j]))
    && (forall j :: 0 <= j < b ==> Dist(c, P[j]) > Dist(c, P[b]))
  }

  /** The index of the palette entry chosen among the first `n`. */
  function NearestIndex(c: Rgb, P: seq<Rgb>, n: int): (b: int)
    requires 1 <= n <= |P|
    ensures 0 <= b < n
  {
    if n == 1 then 0
    else
      var b := NearestIndex(c, P, n - 1);
      if Dist(c, P[n - 1]) < Dist(c, P[b]) then n - 1 else b
  }

  /** `NearestIndex` is the first nearest entry. */
  lemma {:induction false} NearestIndexIsFirst(c: Rgb, P: seq<Rgb>, n: int)
    requires 1 <= n <= |P|
    ensures IsFirstNearest(c, P, n, NearestIndex(c, P, n))
  {
    if n > 1 {
      NearestIndexIsFirst(c, P, n - 1);
    }
  }

  /** There is only one first nearest entry. */
  lemma FirstNearestUnique(c: Rgb, P: seq<Rgb>, n: int, b0: int, b1: int)
    requires IsFirstNearest(c, P, n, b0) && IsFirstNearest(c, P, n, b1)
    ensures b0 == b1
  {
    FirstNearestIsFirst(c, P, n, b0, b1);
    FirstNearestIsFirst(c, P, n, b1, b0);
  }

  /** No entry before the first nearest is as near. */
  lemma FirstNearestIsFirst(c: Rgb, P: seq<Rgb>, n: int, b: int, j: int)
    requires IsFirstNearest(c, P, n, b) && 0 <= j < n && Dist(c, P[j]) <= Dist(c, P[b])
    ensures b <= j
  {
  }

  /** A colour that is one of the scanned palette entries is its own nearest entry. */
  lemma NearestOfPaletteColour(c: Rgb, P: seq<Rgb>, n: int, j: int)
    requires 1 <= n <= |P| && 0 <= j < n && P[j] == c
    ensures P[NearestIndex(c, P, n)] == c
  {
    NearestIndexIsFirst(c, P, n);
    assert Dist(c, P[j]) == 0;
  }

  /** The number of entries the inner loop compares when it does not throw: `k` of them, and at least the first. */
  function ScanSize(k: int): int
  {
    if k >= 1 then k else 1
  }

  /**
   * The inner loop of `popularityAlgorithm` for one pixel of colour `curr`.
   * `sortedKeys[j].split` on a missing entry throws a TypeError: that happens
   * exactly when the palette is empty or shorter than `k`.
   */
  method NearestInPalette(curr: Rgb, palette: seq<Rgb>, k: int) returns (thrown: bool, bestrgb: Rgb)
    ensures thrown <==> |palette| == 0 || k > |palette|
    ensures !thrown ==> bestrgb == palette[NearestIndex(curr, palette, ScanSize(k))]
  {
    if |palette| == 0 {
      return true, Rgb(0, 0, 0);
    }
    bestrgb := palette[0];
    var bestdist := Dist(curr, bestrgb);
    ghost var b := 0;
    var j := 1;
    while j < k
      invariant 1 <= j <= |palette| && j <= ScanSize(k)
      invariant b == NearestIndex(curr, palette, j)
      invariant bestrgb == palette[b] && bestdist == Dist(curr, bestrgb)
    {
      if j >= |palette| {
        return true, bestrgb;
      }
      var currdist := Dist(curr, palette[j]);
      if currdist < bestdist {
        bestdist := currdist;
        bestrgb := palette[j];
        b := j;
      }
      j := j + 1;
    }
    thrown := false;
  }

  /** The length of `t.slice(0, k)` for a list of length `m`: a negative `k` counts from the end. */
  function SliceEnd(k: int, m: nat): (e: nat)
    ensures e <= m
    ensures k >= 0 ==> e == if k < m then k else m
    ensures k < 0 ==> e == if m + k > 0 then m + k else 0
  {
    if k < 0 then (if m + k > 0 then m + k else 0)
    else if k < m then k else m
  }

  /** The distinct colours of `s`, most frequent first: `sortedKeys` before the slice. */
  function SortedKeys(s: seq<Byte>): seq<Rgb>
    requires |s| % 4 == 0
  {
    var cs := Colors(s);
    SortByCount(Distinct(cs), Histogram(cs))
  }

  /** `sortedKeys`: the first `k` of the sorted colours, after `slice(0, k)`. */
  function Palette(s: seq<Byte>, k: int): seq<Rgb>
    requires |s| % 4 == 0
  {
    var sorted := SortedKeys(s);
    sorted[..SliceEnd(k, |sorted|)]
  }

  /** Byte `p` after the second loop of `popularityAlgorithm`, scanning the first `n` palette entries. */
  function MappedByte(s: seq<Byte>, P: seq<Rgb>, n: int, p: int): Byte
    requires |s| % 4 == 0 && 1 <= n <= |P| && 0 <= p < |s|
  {
    if Channel(p) == 3 then s[p]
    else
      var q := p / 4;
      PixelBytes(q, |s|);
      P[NearestIndex(Pixel(s, q), P, n)].Component(Channel(p))
  }

  /** The buffer after the second loop of `popularityAlgorithm`. */
  function Mapped(s: seq<Byte>, P: seq<Rgb>, n: int): seq<Byte>
    requires |s| % 4 == 0 && 1 <= n <= |P|
  {
    seq(|s|, p requires 0 <= p < |s| => MappedByte(s, P, n, p))
  }

  /** What `popularityAlgorithm` does: the new buffer, or the TypeError it throws. */
  datatype Outcome = Returned(data: seq<Byte>) | TypeError

  /**
   * `popularityAlgorithm(data)` with `k` passed in. A buffer without pixels
   * runs neither loop body; otherwise the first pixel already throws when the
   * palette is empty or has fewer than `k` entries.
   */
  function PopularityOutcome(s: seq<Byte>, k: int): Outcome
    requires |s| % 4 == 0
  {
    var P := Palette(s, k);
    if |s| == 0 then Returned(s)
    else if |P| == 0 || k > |P| then TypeError
    else Returned(Mapped(s, P, ScanSize(k)))
  }

  /** Byte `p` of pixel `q` after the second loop. */
  lemma MappedAt(s: seq<Byte>, P: seq<Rgb>, n: int, q: int, p: int)
    requires |s| % 4 == 0 && 1 <= n <= |P| && 0 <= q && 4 * q <= p < 4 * q + 4 && p < |s|
    ensures 4 * q + 2 < |s|
    ensures p - 4 * q == 3 ==> Mapped(s, P, n)[p] == s[p]
    ensures p - 4 * q != 3 ==> Mapped(s, P, n)[p] == P[NearestIndex(Pixel(s, q), P, n)].Component(p - 4 * q)
  {
    var c := p - 4 * q;
    assert 4 * q + c == p;
    ChannelOf(q, c);
    assert p / 4 == q;
    PixelBytes(q, |s|);
  }

  /** A pixel of `a` that holds the chosen colour and its old alpha is as in `Mapped`. */
  lemma MappedPixelDone(a: array<Byte>, s: seq<Byte>, P: seq<Rgb>, n: int, q: int)
    requires |s| % 4 == 0 && 1 <= n <= |P| && 0 <= q && 4 * q + 4 <= |s| == a.Length
    requires forall p :: 4 * q <= p < 4 * q + 3 ==> a[p] == P[NearestIndex(Pixel(s, q), P, n)].Component(p - 4 * q)
    requires a[4 * q + 3] == s[4 * q + 3]
    ensures forall p :: 4 * q <= p < 4 * q + 4 ==> a[p] == Mapped(s, P, n)[p]
  {
    forall p | 4 * q <= p < 4 * q + 4
      ensures a[p] == Mapped(s, P, n)[p]
    {
      MappedAt(s, P, n, q, p);
    }
  }

  /** The three stores `data[i] = bestrgb[0]` and so on for pixel `q`, which still holds its bytes of `s`. */
  method MapPixelInPlace(a: array<Byte>, i: int, bestrgb: Rgb, ghost s: seq<Byte>, ghost P: seq<Rgb>,
                         ghost n: int, ghost q: int)
    requires |s| % 4 == 0 && 1 <= n <= |P| && |s| == a.Length
    requires 0 <= q && i == 4 * q && i + 4 <= a.Length
    requires forall p :: i <= p < i + 4 ==> a[p] == s[p]
    requires bestrgb == P[NearestIndex(Pixel(s, q), P, n)]
    modifies a
    ensures forall p :: 0 <= p < a.Length && !(i <= p < i + 3) ==> a[p] == old(a[p])
    ensures forall p :: i <= p < i + 4 ==> a[p] == Mapped(s, P, n)[p]
  {
    a[i] := bestrgb.r;
    a[i + 1] := bestrgb.g;
    a[i + 2] := bestrgb.b;
    MappedPixelDone(a, s, P, n, q);
  }

  /**
   * The second loop of `popularityAlgorithm`. The inner loop throws for every
   * pixel or for none, so a throw comes at the first pixel, before any store.
   */
  method MapPixels(a: array<Byte>, palette: seq<Rgb>, k: int) returns (thrown: bool)
    requires a.Length % 4 == 0
    modifies a
    ensures thrown <==> a.Length > 0 && (|palette| == 0 || k > |palette|)
    ensures thrown ==> a[..] == old(a[..])
    ensures !thrown && a.Length > 0 ==> a[..] == Mapped(old(a[..]), palette, ScanSize(k))
    ensures a.Length == 0 ==> a[..] == old(a[..])
  {
    ghost var s := a[..];
    ghost var pixels := a.Length / 4;
    assert a.Length == 4 * pixels;
    var i := 0;
    ghost var q := 0;
    while i < a.Length
      invariant 0 <= q <= pixels && i == 4 * q
      invariant q > 0 ==> |palette| >= 1 && k <= |palette|
      invariant forall p :: 0 <= p < i ==> a[p] == Mapped(s, palette, ScanSize(k))[p]
      invariant forall p :: i <= p < a.Length ==> a[p] == s[p]
    {
      PixelInside(q, pixels);
      var currrgb := Rgb(a[i], a[i + 1], a[i + 2]);
      var thrownHere, bestrgb := NearestInPalette(currrgb, palette, k);
      if thrownHere {
        assert a[..] == s;
        return true;
      }
      assert currrgb == Pixel(s, q);
      MapPixelInPlace(a, i, bestrgb, s, palette, ScanSize(k), q);
      i, q := i + 4, q + 1;
    }
    thrown := false;
    assert a[..] == s || a[..] == Mapped(s, palette, ScanSize(k));
  }

  /**
   * `popularityAlgorithm(data)` with `k` passed in: it throws exactly when the
   * model says so, and then the buffer is untouched; otherwise the buffer ends
   * as the model's result.
   */
  method PopularityAlgorithm(a: array<Byte>, k: int) returns (thrown: bool)
    requires a.Length % 4 == 0
    modifies a
    ensures thrown <==> PopularityOutcome(old(a[..]), k).TypeError?
    ensures thrown ==> a[..] == old(a[..])
    ensures !thrown ==> a[..] == PopularityOutcome(old(a[..]), k).data
  {
    var keys, colors := BuildHistogram(a);
    SortByCountSorted(keys, colors);
    var sortedKeys := SortByCount(keys, colors);
    sortedKeys := sortedKeys[..SliceEnd(k, |sortedKeys|)];
    thrown := MapPixels(a, sortedKeys, k);
  }

  /** A list without duplicates holds every colour at most once. */
  lemma {:induction false} NoDuplicatesCount(t: seq<Rgb>)
    requires NoDuplicates(t)
    ensures forall x :: multiset(t)[x] <= 1
  {
    if |t| > 0 {
      var u, y := t[..|t| - 1], t[|t| - 1];
      assert t == u + [y];
      assert NoDuplicates(u) by {
        forall a, b | 0 <= a < b < |u|
          ensures u[a] != u[b]
        {
          assert u[a] == t[a] && u[b] == t[b];
        }
      }
      NoDuplicatesCount(u);
      assert y !in u by {
        forall a | 0 <= a < |u|
          ensures u[a] != y
        {
          assert u[a] == t[a];
        }
      }
    }
  }

  /** Two positions holding the same colour count it twice. */
  lemma RepeatCount(u: seq<Rgb>, a: int, b: int)
    requires 0 <= a < b < |u| && u[a] == u[b]
    ensures multiset(u)[u[a]] >= 2
  {
    assert u == u[..b] + [u[b]] + u[b + 1..];
    assert u[..b][a] == u[a];
  }

  /** A permutation of a list without duplicates has none. */
  lemma PermutationNoDuplicates(t: seq<Rgb>, u: seq<Rgb>)
    requires multiset(t) == multiset(u) && NoDuplicates(t)
    ensures NoDuplicates(u)
  {
    NoDuplicatesCount(t);
    forall a, b | 0 <= a < b < |u|
      ensures u[a] != u[b]
    {
      if u[a] == u[b] {
        RepeatCount(u, a, b);
      }
    }
  }

  /** The sorted colours are the distinct colours of `s`, each once, counts never increasing. */
  lemma SortedKeysShape(s: seq<Byte>)
    requires |s| % 4 == 0
    ensures forall c :: c in SortedKeys(s) <==> c in Colors(s)
    ensures |SortedKeys(s)| == |Distinct(Colors(s))|
    ensures NoDuplicates(SortedKeys(s))
    ensures NonIncreasing(SortedKeys(s), Histogram(Colors(s)))
    ensures forall c :: c in Colors(s) ==> Cnt(Histogram(Colors(s)), c) == multiset(Colors(s))[c]
  {
    var cs := Colors(s);
    DistinctElements(cs);
    HistogramCounts(cs);
    SortByCountSorted(Distinct(cs), Histogram(cs));
    PermutationNoDuplicates(Distinct(cs), SortedKeys(s));
    forall c
      ensures c in SortedKeys(s) <==> c in cs
    {
      assert c in SortedKeys(s) <==> c in multiset(SortedKeys(s));
      assert c in Distinct(cs) <==> c in multiset(Distinct(cs));
    }
  }

  /** In a non-increasing list, an element past a prefix counts no more than one inside it. */
  lemma PrefixDominates(t: seq<Rgb>, h: map<Rgb, int>, e: int, c: Rgb, d: Rgb)
    requires NonIncreasing(t, h) && 0 <= e <= |t|
    requires c in t && c !in t[..e] && d in t[..e]
    ensures Cnt(h, c) <= Cnt(h, d)
  {
    var i :| 0 <= i < |t| && t[i] == c;
    var j :| 0 <= j < e && t[..e][j] == d;
    assert forall a :: 0 <= a < e ==> t[..e][a] == t[a];
    assert i >= e;
  }

  /** A prefix of a non-increasing list without duplicates is one too. */
  lemma PrefixSorted(t: seq<Rgb>, h: map<Rgb, int>, e: int)
    requires NonIncreasing(t, h) && NoDuplicates(t) && 0 <= e <= |t|
    ensures NonIncreasing(t[..e], h) && NoDuplicates(t[..e])
    ensures forall c :: c in t[..e] ==> c in t
  {
    assert forall a :: 0 <= a < e ==> t[..e][a] == t[a];
  }

  /**
   * The palette holds distinct colours of the image, most frequent first, and
   * no colour left out of it is more frequent than one kept.
   */
  lemma PaletteMostPopular(s: seq<Byte>, k: int)
    requires |s| % 4 == 0
    ensures NoDuplicates(Palette(s, k))
    ensures forall c :: c in Palette(s, k) ==> c in Colors(s)
    ensures forall a, b :: 0 <= a < b < |Palette(s, k)| ==>
      multiset(Colors(s))[Palette(s, k)[a]] >= multiset(Colors(s))[Palette(s, k)[b]]
    ensures forall c, d :: c in Colors(s) && c !in Palette(s, k) && d in Palette(s, k) ==>
      multiset(Colors(s))[c] <= multiset(Colors(s))[d]
  {
    var cs, sorted, P := Colors(s), SortedKeys(s), Palette(s, k);
    var h := Histogram(cs);
    SortedKeysShape(s);
    var e := SliceEnd(k, |sorted|);
    assert P == sorted[..e];
    PrefixSorted(sorted, h, e);
    forall a, b | 0 <= a < b < |P|
      ensures multiset(cs)[P[a]] >= multiset(cs)[P[b]]
    {
      assert P[a] in P && P[b] in P;
    }
    forall c, d | c in cs && c !in P && d in P
      ensures multiset(cs)[c] <= multiset(cs)[d]
    {
      PrefixDominates(sorted, h, e, c, d);
    }
  }

  /** An image with pixels has at least one colour. */
  lemma SomeColour(s: seq<Byte>)
    requires |s| % 4 == 0 && |s| > 0
    ensures |Distinct(Colors(s))| >= 1
  {
    DistinctElements(Colors(s));
    assert Colors(s)[0] in Colors(s);
  }

  /**
   * With `m` distinct colours in a non-empty image, `popularityAlgorithm`
   * throws exactly when `k` is 0, above `m`, or at most `-m`.
   */
  lemma ThrowsExactly(s: seq<Byte>, k: int)
    requires |s| % 4 == 0 && |s| > 0
    ensures PopularityOutcome(s, k).TypeError? <==>
      k == 0 || k > |Distinct(Colors(s))| || k <= -|Distinct(Colors(s))|
  {
    SortedKeysShape(s);
    SomeColour(s);
  }

  /** An image without pixels is returned as it is, whatever `k`. */
  lemma EmptyImage(s: seq<Byte>, k: int)
    requires |s| == 0
    ensures PopularityOutcome(s, k) == Returned(s)
  {
  }

  /**
   * Every pixel of the result has the palette colour the loop settles on: the
   * first of the scanned entries nearest to the pixel's old colour (one exists,
   * by `NearestIndexIsFirst`). Alpha is kept.
   */
  lemma MappedShape(s: seq<Byte>, P: seq<Rgb>, n: int)
    requires |s| % 4 == 0 && 1 <= n <= |P|
    ensures |Mapped(s, P, n)| == |s|
    ensures forall p :: 0 <= p < |s| && Channel(p) == 3 ==> Mapped(s, P, n)[p] == s[p]
    ensures forall q, b :: 0 <= q < |s| / 4 && IsFirstNearest(Pixel(s, q), P, n, b) ==>
      Pixel(Mapped(s, P, n), q) == P[b]
  {
    forall q, b | 0 <= q < |s| / 4 && IsFirstNearest(Pixel(s, q), P, n, b)
      ensures Pixel(Mapped(s, P, n), q) == P[b]
    {
      MappedPixel(s, P, n, q);
      FirstNearestUnique(Pixel(s, q), P, n, b, NearestIndex(Pixel(s, q), P, n));
    }
  }

  /** Pixel `q` after the second loop. */
  lemma MappedPixel(s: seq<Byte>, P: seq<Rgb>, n: int, q: int)
    requires |s| % 4 == 0 && 1 <= n <= |P| && 0 <= q < |s| / 4
    ensures 4 * q + 4 <= |s|
    ensures IsFirstNearest(Pixel(s, q), P, n, NearestIndex(Pixel(s, q), P, n))
    ensures Pixel(Mapped(s, P, n), q) == P[NearestIndex(Pixel(s, q), P, n)]
  {
    PixelBytes(q, |s|);
    NearestIndexIsFirst(Pixel(s, q), P, n);
    MappedAt(s, P, n, q, 4 * q);
    MappedAt(s, P, n, q, 4 * q + 1);
    MappedAt(s, P, n, q, 4 * q + 2);
  }

  /** A pixel whose colour is among the scanned entries keeps its bytes. */
  lemma MappedKeepsPaletteColour(s: seq<Byte>, P: seq<Rgb>, n: int, q: int, p: int)
    requires |s| % 4 == 0 && 1 <= n <= |P| && 0 <= q && 4 * q <= p < 4 * q + 4 && p < |s|
    requires Pixel(s, q) in P[..n]
    ensures Mapped(s, P, n)[p] == s[p]
  {
    MappedAt(s, P, n, q, p);
    var j :| 0 <= j < n && P[..n][j] == Pixel(s, q);
    NearestOfPaletteColour(Pixel(s, q), P, n, j);
  }

  /** When every pixel's colour is among the scanned entries, mapping changes nothing. */
  lemma MappedIdentity(s: seq<Byte>, P: seq<Rgb>, n: int)
    requires |s| % 4 == 0 && 1 <= n <= |P|
    requires forall q :: 0 <= q < |s| / 4 ==> Pixel(s, q) in P[..n]
    ensures Mapped(s, P, n) == s
  {
    forall p | 0 <= p < |s|
      ensures Mapped(s, P, n)[p] == s[p]
    {
      var q := p / 4;
      PixelBytes(q, |s|);
      MappedKeepsPaletteColour(s, P, n, q, p);
    }
  }

  /** With `k` the number of distinct colours, every colour is in the palette and nothing changes. */
  lemma PopularityIdentity(s: seq<Byte>)
    requires |s| % 4 == 0 && |s| > 0
    ensures PopularityOutcome(s, |Distinct(Colors(s))|) == Returned(s)
  {
    var k := |Distinct(Colors(s))|;
    SortedKeysShape(s);
    SomeColour(s);
    var P := Palette(s, k);
    assert P == SortedKeys(s) == P[..k];
    forall q | 0 <= q < |s| / 4
      ensures Pixel(s, q) in P[..k]
    {
      PixelBytes(q, |s|);
      ColorAt(s, q);
      assert Colors(s)[q] in Colors(s);
    }
    MappedIdentity(s, P, k);
  }

  /** Scanning one entry gives every pixel that entry's colour. */
  lemma MappedSingle(s: seq<Byte>, P: seq<Rgb>)
    requires |s| % 4 == 0 && |P| >= 1
    ensures forall q :: 0 <= q < |s| / 4 ==> Pixel(Mapped(s, P, 1), q) == P[0]
  {
    forall q | 0 <= q < |s| / 4
      ensures Pixel(Mapped(s, P, 1), q) == P[0]
    {
      PixelBytes(q, |s|);
      MappedAt(s, P, 1, q, 4 * q);
      MappedAt(s, P, 1, q, 4 * q + 1);
      MappedAt(s, P, 1, q, 4 * q + 2);
    }
  }

  /** The first sorted colour is a most frequent one. */
  lemma MostFrequentFirst(s: seq<Byte>)
    requires |s| % 4 == 0 && |s| > 0
    ensures |SortedKeys(s)| >= 1
    ensures forall c :: c in Colors(s) ==> multiset(Colors(s))[c] <= multiset(Colors(s))[SortedKeys(s)[0]]
  {
    SomeColour(s);
    SortedKeysShape(s);
    var sorted, h := SortedKeys(s), Histogram(Colors(s));
    assert sorted[..1] == [sorted[0]];
    assert sorted[0] in Colors(s) by {
      assert sorted[0] in sorted;
    }
    forall c | c in Colors(s)
      ensures multiset(Colors(s))[c] <= multiset(Colors(s))[sorted[0]]
    {
      if c != sorted[0] {
        PrefixDominates(sorted, h, 1, c, sorted[0]);
      }
    }
  }

  /** At `k` = 1 every pixel takes the most frequent colour. */
  lemma SinglePalette(s: seq<Byte>)
    requires |s| % 4 == 0 && |s| > 0
    ensures PopularityOutcome(s, 1).Returned?
    ensures forall c :: c in Colors(s) ==> multiset(Colors(s))[c] <= multiset(Colors(s))[SortedKeys(s)[0]]
    ensures forall q :: 0 <= q < |s| / 4 ==> Pixel(PopularityOutcome(s, 1).data, q) == SortedKeys(s)[0]
  {
    MostFrequentFirst(s);
    var P := Palette(s, 1);
    assert P == [SortedKeys(s)[0]];
    assert PopularityOutcome(s, 1) == Returned(Mapped(s, P, 1));
    assert PopularityOutcome(s, 1).data == Mapped(s, P, 1);
    MappedSingle(s, P);
  }

  /** Only the first entry matters when a single entry is scanned. */
  lemma MappedFirstEntry(s: seq<Byte>, P: seq<Rgb>, P': seq<Rgb>)
    requires |s| % 4 == 0 && |P| >= 1 && |P'| >= 1 && P[0] == P'[0]
    ensures Mapped(s, P, 1) == Mapped(s, P', 1)
  {
    forall p | 0 <= p < |s|
      ensures Mapped(s, P, 1)[p] == Mapped(s, P', 1)[p]
    {
      var q := p / 4;
      MappedAt(s, P, 1, q, p);
      MappedAt(s, P', 1, q, p);
    }
  }

  /**
   * A negative `k` above `-m` keeps all but the last `-k` sorted colours, yet
   * the inner loop does not run, so the result is the one for `k` = 1.
   */
  lemma NegativeCount(s: seq<Byte>, k: int)
    requires |s| % 4 == 0 && |s| > 0 && -|Distinct(Colors(s))| < k < 0
    ensures PopularityOutcome(s, k) == PopularityOutcome(s, 1)
  {
    SortedKeysShape(s);
    SomeColour(s);
    ThrowsExactly(s, k);
    ThrowsExactly(s, 1);
    MappedFirstEntry(s, Palette(s, k), Palette(s, 1));
  }

  /**
   * Order by decreasing count with each count class in a given order fixes a
   * list completely: two such arrangements of the same colours are equal.
   */
  lemma {:induction false} StableOrderUnique(t: seq<Rgb>, u: seq<Rgb>, h: map<Rgb, int>)
    requires multiset(t) == multiset(u)
    requires NonIncreasing(t, h) && NonIncreasing(u, h)
    requires forall v :: WithCount(t, h, v) == WithCount(u, h, v)
    ensures t == u
  {
    if |t| == 0 {
      assert |u| == |multiset(u)| == 0;
    } else {
      StableHeads(t, u, h);
      StableTails(t, u, h);
      TailNonIncreasing(t, h);
      TailNonIncreasing(u, h);
      StableOrderUnique(t[1..], u[1..], h);
      assert t == [t[0]] + t[1..] && u == [u[0]] + u[1..];
    }
  }

  /** Both arrangements start with the first colour of the highest count. */
  lemma StableHeads(t: seq<Rgb>, u: seq<Rgb>, h: map<Rgb, int>)
    requires |t| > 0 && multiset(t) == multiset(u)
    requires NonIncreasing(t, h) && NonIncreasing(u, h)
    requires forall v :: WithCount(t, h, v) == WithCount(u, h, v)
    ensures |u| > 0 && t[0] == u[0]
  {
    StableHeadCounts(t, u, h);
    WithCountHead(t, h);
    WithCountHead(u, h);
    assert WithCount(t, h, Cnt(h, t[0])) == WithCount(u, h, Cnt(h, u[0]));
  }

  /** Two count-sorted orders of the same colours start with equally frequent colours. */
  lemma StableHeadCounts(t: seq<Rgb>, u: seq<Rgb>, h: map<Rgb, int>)
    requires |t| > 0 && multiset(t) == multiset(u)
    requires NonIncreasing(t, h) && NonIncreasing(u, h)
    ensures |u| > 0 && Cnt(h, t[0]) == Cnt(h, u[0])
  {
    assert |u| == |multiset(u)| == |t|;
    assert t[0] in multiset(u) && u[0] in multiset(t);
    var i :| 0 <= i < |u| && u[i] == t[0];
    var j :| 0 <= j < |t| && t[j] == u[0];
    assert Cnt(h, u[0]) >= Cnt(h, u[i]);
    assert Cnt(h, t[0]) >= Cnt(h, t[j]);
  }

  /** The class of the first colour's count starts with that colour. */
  lemma WithCountHead(t: seq<Rgb>, h: map<Rgb, int>)
    requires |t| > 0
    ensures |WithCount(t, h, Cnt(h, t[0]))| > 0 && WithCount(t, h, Cnt(h, t[0]))[0] == t[0]
  {
    assert [t[0]] + t[1..] == t;
    WithCountCons(t[0], t[1..], h, Cnt(h, t[0]));
  }

  lemma MultisetCancel(x: Rgb, A: multiset<Rgb>, B: multiset<Rgb>)
    requires multiset{x} + A == multiset{x} + B
    ensures A == B
  {
    forall e
      ensures A[e] == B[e]
    {
      assert (multiset{x} + A)[e] == multiset{x}[e] + A[e];
      assert (multiset{x} + B)[e] == multiset{x}[e] + B[e];
    }
  }

  /** Removing a common first colour keeps the colours and the count classes equal. */
  lemma StableTails(t: seq<Rgb>, u: seq<Rgb>, h: map<Rgb, int>)
    requires |t| > 0 && |u| > 0 && t[0] == u[0] && multiset(t) == multiset(u)
    requires forall v :: WithCount(t, h, v) == WithCount(u, h, v)
    ensures multiset(t[1..]) == multiset(u[1..])
    ensures forall v :: WithCount(t[1..], h, v) == WithCount(u[1..], h, v)
  {
    assert [t[0]] + t[1..] == t && [u[0]] + u[1..] == u;
    assert multiset(t) == multiset{t[0]} + multiset(t[1..]);
    assert multiset(u) == multiset{u[0]} + multiset(u[1..]);
    MultisetCancel(t[0], multiset(t[1..]), multiset(u[1..]));
    forall v
      ensures WithCount(t[1..], h, v) == WithCount(u[1..], h, v)
    {
      WithCountCons(t[0], t[1..], h, v);
      WithCountCons(u[0], u[1..], h, v);
      var head: seq<Rgb> := if Cnt(h, t[0]) == v then [t[0]] else [];
      assert WithCount(t[1..], h, v) == WithCount(t, h, v)[|head|..];
      assert WithCount(u[1..], h, v) == WithCount(u, h, v)[|head|..];
    }
  }

  /**
   * `SortByCount` is the only arrangement of the keys by decreasing count that
   * keeps keys of equal count in their original order: the result of a stable
   * sort with the comparator `colors[b] - colors[a]`.
   */
  lemma SortByCountIsStableSort(keys: seq<Rgb>, h: map<Rgb, int>, r: seq<Rgb>)
    requires multiset(r) == multiset(keys) && NonIncreasing(r, h)
    requires forall v :: WithCount(r, h, v) == WithCount(keys, h, v)
    ensures r == SortByCount(keys, h)
  {
    SortByCountSorted(keys, h);
    StableOrderUnique(r, SortByCount(keys, h), h);
  }

  /**
   * `popularityAlgorithm` with its inner loop bounded by the palette as well,
   * `j < k && j < sortedKeys.length`: only an empty palette still throws.
   */
  function PopularityCorrected(s: seq<Byte>, k: int): Outcome
    requires |s| % 4 == 0
  {
    var P := Palette(s, k);
    if |s| == 0 then Returned(s)
    else if |P| == 0 then TypeError
    else Returned(Mapped(s, P, if ScanSize(k) < |P| then ScanSize(k) else |P|))
  }

  /** The corrected algorithm with `k` at least the number of colours returns the image unchanged. */
  lemma CorrectedIdentity(s: seq<Byte>, k: int)
    requires |s| % 4 == 0 && |s| > 0 && k >= |Distinct(Colors(s))|
    ensures PopularityCorrected(s, k) == Returned(s)
  {
    var m := |Distinct(Colors(s))|;
    SortedKeysShape(s);
    SomeColour(s);
    var P := Palette(s, k);
    assert P == SortedKeys(s) == P[..m];
    forall q | 0 <= q < |s| / 4
      ensures Pixel(s, q) in P[..m]
    {
      PixelBytes(q, |s|);
      ColorAt(s, q);
      assert Colors(s)[q] in Colors(s);
    }
    MappedIdentity(s, P, m);
  }

  /** Where the algorithm as written does not throw, the corrected one gives the same result. */
  lemma CorrectedAgrees(s: seq<Byte>, k: int)
    requires |s| % 4 == 0 && !PopularityOutcome(s, k).TypeError?
    ensures PopularityCorrected(s, k) == PopularityOutcome(s, k)
  {
  }

  /** A one-pixel image asked for two colours: the algorithm as written throws. */
  lemma TooFewColoursThrows()
    ensures PopularityOutcome([1, 2, 3, 255], 2) == TypeError
    ensures PopularityCorrected([1, 2, 3, 255], 2) == Returned([1, 2, 3, 255])
  {
    var s: seq<Byte> := [1, 2, 3, 255];
    var cs := Colors(s);
    assert cs == [Rgb(1, 2, 3)] by {
      ColorAt(s, 0);
    }
    assert cs[..0] == [];
    assert Distinct(cs) == [Rgb(1, 2, 3)];
    ThrowsExactly(s, 2);
    CorrectedIdentity(s, 2);
  }

  /**
   * `popularityAlgorithm` with the inner loop also bounded by the palette
   * length: the second loop scans at most the whole palette.
   */
  method PopularityAlgorithmCorrected(a: array<Byte>, k: int) returns (thrown: bool)
    requires a.Length % 4 == 0
    modifies a
    ensures thrown <==> PopularityCorrected(old(a[..]), k).TypeError?
    ensures thrown ==> a[..] == old(a[..])
    ensures !thrown ==> a[..] == PopularityCorrected(old(a[..]), k).data
  {
    var keys, colors := BuildHistogram(a);
    SortByCountSorted(keys, colors);
    var sortedKeys := SortByCount(keys, colors);
    sortedKeys := sortedKeys[..SliceEnd(k, |sortedKeys|)];
    var bound := if k < |sortedKeys| then k else |sortedKeys|;
    thrown := MapPixels(a, sortedKeys, bound);
    assert |sortedKeys| >= 1 ==> ScanSize(bound) == if ScanSize(k) < |sortedKeys| then ScanSize(k) else |sortedKeys|;
  }
}

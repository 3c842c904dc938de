# Dithering: a verified model of the colour-reduction transforms

This project models in Dafny the five transforms of the `dithering` web page
(`script.js`), together with the helpers they share. Each transform rewrites
the RGBA bytes of a canvas `ImageData` in place:

- **Level lists.** `ditheringIntervals` builds `k` evenly spaced levels from
  0 to 255. `findInterval` picks the nearest level of a channel value
  (module `Intervals`).
- **Average dithering.** Each red, green and blue byte is replaced by its
  nearest level (module `Average`).
- **Floyd–Steinberg error diffusion.** Flat-index neighbours, with no edge
  handling (module `ErrorDiffusion`).
- **Ordered dithering.** The fixed 3×3 matrix `D3` is indexed from the byte
  index. The random variant tosses a coin per byte instead (module `Ordered`).
- **Popularity palette reduction.** The steps are: a histogram of RGB triples,
  a stable sort by decreasing count, the first `k` colours, and the
  nearest palette colour under the squared distance `dist` (module
  `Popularity`).
- **Dispatch.** `transformImage` chooses one of the five by the id of the
  checked radio button (module `Transform`).

The buffer is an `array<Byte>` of whole pixels. Each in-place loop is a
Dafny `method` with its invariants. Its `ensures` ties the new buffer to a
function of the old one: `AverageDithered`, `Diffused`, `OrderedDithered`,
`RandomDithered`, `PopularityOutcome`. Lemmas about those functions state
what the program promises. Module `Bytes` holds the exact-arithmetic model
of `Uint8ClampedArray` stores, which is ToUint8Clamp (section 7.1.11 of
ECMA-262, 6th edition). It also holds the ECMAScript `%` operator (section
12.6.3.3).

## Model

| member | source | states |
|---|---|---|
| Bytes.ToUint8Clamp | script.js:59-61 | a store clamps to [0, 255] and otherwise rounds to the nearest integer, ties to even; an integer in range is stored as it is |
| Bytes.ClampOfByte | script.js:158-160 | a byte read from the buffer is stored back unchanged |
| Bytes.AddAt | script.js:64-67 | `data[t] += x` changes only byte `t`, to the clamped sum; an index outside the buffer changes nothing |
| Bytes.JsRemainder9 | script.js:90 | `x % 9` has the sign of `x`, lies strictly between -9 and 9, and differs from `x` by a whole multiple of 9 |
| Intervals.Levels | script.js:11-18 | the list `ditheringIntervals` builds, level i being i * 255/(k-1); its length is k (0 for k <= 0); characterised by LevelsShape, LevelsOfOne and IntegerLevels |
| Intervals.DitheringIntervals | script.js:4-19 | the pushing loop returns exactly the exact-arithmetic level list `Levels(k)` |
| Intervals.LevelsShape | script.js:11-18 | for k >= 2: k levels, first 0, last 255, consecutive gaps 255/(k-1), strictly increasing, all in [0, 255] |
| Intervals.LevelsOfOne | script.js:11-17 | depth 1 gives the single level 0 |
| Intervals.IntegerLevels | script.js:11-17 | when k-1 divides 255 the levels are the integers i*(255/(k-1)) and are stored unchanged |
| Intervals.FindIntervalFrom | script.js:22-28 | the loop of `findInterval` from index i on; characterised by FindIntervalFromStops |
| Intervals.FindIntervalFromStops | script.js:22-28 | a scan started after pairs whose midpoints are all at or below the value stops at the nearest index and returns its level (the next one with `next`) |
| Intervals.FindInterval | script.js:21-29 | `findInterval`; characterised by FindIntervalAt, NearestIndexExists, NextIsSuccessor and FindIntervalIdempotent |
| Intervals.NearestIndexUnique | script.js:22-26 | at most one index is where the scan of `findInterval` stops |
| Intervals.FindIntervalAt | script.js:21-29 | the result is the level at the stopping index (the next one with `next`, never past the end) and is an element of the list |
| Intervals.NearestIndexExists | script.js:21-29 | every value has a stopping index: the first pair whose midpoint exceeds the value, or the last index |
| Intervals.NextIsSuccessor | script.js:24 | on an increasing list the `next` result is never below the plain one, and equals it exactly when the plain one is the last level |
| Intervals.FindIntervalIdempotent | script.js:22-28 | on a strictly increasing list, looking up a level returns that level |
| Intervals.NearestWithinHalfStep | script.js:21-29 | for k >= 2, a value in [0, 255] lies within half a step of the level `findInterval` picks |
| Average.Quantize | script.js:37-39 | the byte stored for a channel value, its nearest level through ToUint8Clamp; characterised by AverageDitheredShape and QuantizeIdempotent |
| Average.AverageDithered | script.js:36-40 | the buffer after `averageDithering`; characterised by AverageDitheredShape, AverageIdempotent and AverageExample |
| Average.AveragePixelInPlace | script.js:37-39 | one pixel: its three colour bytes become their nearest levels, nothing else changes |
| Average.AverageInPlace | script.js:36-40 | the loop leaves the buffer as `AverageDithered` of the old buffer |
| Average.AverageDithering | script.js:31-43 | `averageDithering` leaves the buffer as `AverageDithered` over the lists of the depths |
| Average.AverageDitheredShape | script.js:36-40 | length and alpha kept; each colour byte is a stored level of its channel |
| Average.QuantizeIdempotent | script.js:37 | with integer levels, quantizing a quantized byte changes nothing |
| Average.AverageIdempotent | script.js:31-43 | with integer levels in every channel, running average dithering twice is running it once |
| Average.AverageExample | script.js:36-40 | at depth 2, pixel (100, 150, 200, 255) becomes (0, 255, 255, 255) |
| ErrorDiffusion.Shares | script.js:64-67 | the four weighted parts of a residual add up to the residual |
| ErrorDiffusion.ResidualsBounded | script.js:52-58 | with at least two levels per channel, no residual exceeds half a step of its channel |
| ErrorDiffusion.DiffusePixel | script.js:52-68 | one pass of the outer loop: quantize pixel i, then spread its residuals; characterised by DiffusePixelFrame and DiffusePixelLevels |
| ErrorDiffusion.DiffusePixelLevels | script.js:59-68 | with width >= 2, the pass leaves the pixel's colour bytes at stored levels |
| ErrorDiffusion.DiffuseFrom | script.js:51-69 | the outer loop from pixel q on; its length is that of the buffer; characterised by DiffuseFromKeepsAlpha, DiffuseFromKeepsPrefix and DiffuseFromLevelAt |
| ErrorDiffusion.Diffused | script.js:51-69 | the buffer after `errorDiffusionDithering`; characterised by DiffusedKeepsAlpha and DiffusedIsLevels |
| ErrorDiffusion.AddInPlace | script.js:64-67 | one `+=`: the buffer becomes `AddAt` of the old one |
| ErrorDiffusion.SpreadInPlace | script.js:64-67 | the four `+=` of one channel, in source order |
| ErrorDiffusion.SpreadResiduals | script.js:63-68 | the inner loop spreads the three residuals in channel order |
| ErrorDiffusion.DiffusePixelInPlace | script.js:52-68 | one outer pass: quantize the pixel, then spread its residuals |
| ErrorDiffusion.DiffuseInPlace | script.js:51-69 | the outer loop leaves the buffer as `Diffused` of the old buffer |
| ErrorDiffusion.ErrorDiffusionDithering | script.js:45-72 | `errorDiffusionDithering` leaves the buffer as `Diffused` over the lists of the depths |
| ErrorDiffusion.SpreadUpToFrame | script.js:63-68 | a byte that is no target of the spread keeps its value |
| ErrorDiffusion.TargetsChannel | script.js:64-67 | every target of channel c is a byte of channel c |
| ErrorDiffusion.AlphaUntouched | script.js:63-67 | since j < 3, no alpha byte is ever a target |
| ErrorDiffusion.EarlierUntouched | script.js:64-67 | with width >= 2, every target lies after the pixel being processed |
| ErrorDiffusion.DiffusePixelFrame | script.js:59-68 | one pass keeps every alpha byte and, with width >= 2, every byte before the pixel |
| ErrorDiffusion.DiffusedKeepsAlpha | script.js:51-69 | for every width, error diffusion keeps the length and every alpha byte |
| ErrorDiffusion.DiffuseFromKeepsPrefix | script.js:51-69 | with width >= 2, a pixel is never changed once it has been quantized |
| ErrorDiffusion.DiffusedIsLevels | script.js:51-69 | with width >= 2, every colour byte ends at a stored level of its channel |
| ErrorDiffusion.TargetsWrapRows | script.js:64-67 | at column 0 the down-left target is the last pixel of the same row; at the last column the right and down-right targets are the first pixels of the next two rows |
| Ordered.MatrixRow | script.js:91 | `ii` is in [0, 3) |
| Ordered.MatrixColumn | script.js:92 | `jj` is in [0, 3) |
| Ordered.D3IsPermutation | script.js:78-82 | `D3` is 3×3 and holds each of 0..8 exactly once |
| Ordered.ThresholdRange | script.js:91-93 | every threshold `D3[ii][jj]` lies in [0, 8] |
| Ordered.Promote | script.js:89-94 | the byte stored: the nearest level, or with promotion the level `findInterval(v, I, true)` picks; characterised by PromoteIsNearestOrNext |
| Ordered.PromotedAt | script.js:89-93 | the test `Ii % 9 > D3[ii][jj]`, with the ECMAScript `%`; characterised by TwoLevelsNeverPromoted |
| Ordered.OrderedDithered | script.js:85-96 | the buffer after `orderedDitheringRelative`; characterised by OrderedShape, OrderedIsRandomWithMatrixCoins and OrderedTwoLevelsIsAverage |
| Ordered.RandomDithered | script.js:104-112 | the buffer after `orderedDitheringRandom` for the coins `flips`; characterised by RandomShape and RandomWithoutPromotion |
| Ordered.OrderedByteInPlace | script.js:89-94 | one byte becomes its nearest level, or the next one when `Ii % 9 > D3[ii][jj]`; nothing else changes |
| Ordered.OrderedPixelInPlace | script.js:86-95 | the inner loop leaves the pixel as in `OrderedDithered` and no other byte changed |
| Ordered.OrderedInPlace | script.js:85-96 | the outer loop leaves the buffer as `OrderedDithered` of the old buffer |
| Ordered.OrderedDitheringRelative | script.js:74-97 | `orderedDitheringRelative` leaves the buffer as `OrderedDithered` over the lists of the depths and the width |
| Ordered.RandomPixelInPlace | script.js:105-111 | the inner loop draws three coins in order and leaves the pixel as in `RandomDithered` |
| Ordered.RandomInPlace | script.js:104-112 | the outer loop leaves the buffer as `RandomDithered`, coin 3q+j deciding channel j of pixel q |
| Ordered.OrderedDitheringRandom | script.js:99-113 | `orderedDitheringRandom` leaves the buffer as `RandomDithered` over the lists of the depths |
| Ordered.PromoteIsNearestOrNext | script.js:89-94 | either choice stores the nearest level or the one just above it, a stored level of the list |
| Ordered.OrderedShape | script.js:85-96 | length and alpha kept; each colour byte is its nearest level or the next one |
| Ordered.RandomShape | script.js:104-112 | whatever the coins: length and alpha kept; each colour byte is its nearest level or the next one |
| Ordered.RandomWithoutPromotion | script.js:108-110 | when no coin comes up, the random variant is average dithering |
| Ordered.OrderedIsRandomWithMatrixCoins | script.js:89-93 | the deterministic variant is the random one with each coin replaced by the matrix comparison |
| Ordered.TwoLevelsNeverPromoted | script.js:89-94 | with one or two levels the matrix test never changes the stored byte |
| Ordered.OrderedTwoLevelsIsAverage | script.js:85-96 | with one or two levels per channel, ordered dithering is average dithering |
| Ordered.MatrixCellOfPixel | script.js:91-92 | the matrix cell of pixel (x, y) is row (y + floor(4x/w)) % 3 and column ((4x) % w) % 3, from the byte index |
| Popularity.Dist | script.js:120-126 | `dist` is non-negative and zero exactly for equal colours |
| Popularity.DistSymmetric | script.js:120-126 | `dist` is symmetric |
| Popularity.Distinct | script.js:132-141 | the keys of `colors` in insertion order; characterised by DistinctElements and HistogramStep |
| Popularity.Histogram | script.js:132-140 | the dictionary `colors`; characterised by HistogramCounts, HistogramStep and HistogramTotal |
| Popularity.DistinctElements | script.js:132-141 | the keys are exactly the pixel colours, each listed once |
| Popularity.HistogramCounts | script.js:132-140 | every pixel colour is a key, and its count is the number of pixels of that colour |
| Popularity.HistogramStep | script.js:134-139 | one pixel: a new colour is appended with count 1, a known one counted once more |
| Popularity.BuildHistogram | script.js:132-141 | the first loop yields the keys in first-seen order and the counting dictionary |
| Popularity.HistogramTotal | script.js:132-141 | the counts add up to the number of pixels, `data.length / 4` |
| Popularity.SortByCount | script.js:141-144 | the keys sorted by decreasing count; characterised by SortByCountSorted and SortByCountIsStableSort |
| Popularity.InsertPermutes | script.js:141-144 | one insertion step adds exactly one occurrence of the key |
| Popularity.SortByCountSorted | script.js:141-144 | the sorted keys are a permutation of the keys, counts never increase, and keys of equal count keep their order |
| Popularity.StableOrderUnique | script.js:142-144 | two count-sorted arrangements of the same keys with the same order within each count are equal |
| Popularity.SortByCountIsStableSort | script.js:141-144 | the model of the sort is the unique result a stable sort with `colors[b] - colors[a]` can give |
| Popularity.Palette | script.js:141-145 | `sortedKeys` after `slice(0, k)`; characterised by PaletteMostPopular and ThrowsExactly |
| Popularity.SortedKeysShape | script.js:141-145 | the sorted keys are the distinct colours, each once, counts never increasing |
| Popularity.PaletteMostPopular | script.js:141-145 | the palette holds distinct image colours with counts non-increasing; no colour left out counts more than one kept |
| Popularity.MostFrequentFirst | script.js:141-149 | the first sorted colour is a most frequent one |
| Popularity.NearestIndex | script.js:149-157 | the index the inner loop settles on among the first n entries, in [0, n); characterised by NearestIndexIsFirst and FirstNearestUnique |
| Popularity.NearestIndexIsFirst | script.js:151-157 | the scan settles on a palette entry of minimal distance, every earlier entry being farther |
| Popularity.FirstNearestUnique | script.js:153 | only one entry is the first nearest |
| Popularity.NearestOfPaletteColour | script.js:150-157 | a colour among the scanned entries is its own choice |
| Popularity.NearestInPalette | script.js:148-157 | the inner loop throws exactly when the palette is empty or shorter than `k`; otherwise it returns the first nearest entry |
| Popularity.Mapped | script.js:147-161 | the buffer after the second loop; characterised by MappedShape, MappedIdentity and MappedSingle |
| Popularity.PopularityOutcome | script.js:128-163 | the returned buffer, or the TypeError; characterised by ThrowsExactly, EmptyImage, PopularityIdentity, SinglePalette and NegativeCount |
| Popularity.MapPixelInPlace | script.js:158-160 | the three stores write the chosen colour and change nothing else |
| Popularity.MapPixels | script.js:147-161 | the second loop throws at the first pixel, before any store, or leaves the buffer as `Mapped` |
| Popularity.PopularityAlgorithm | script.js:128-163 | `popularityAlgorithm` throws exactly when `PopularityOutcome` is a TypeError, leaving the buffer unchanged; otherwise it leaves its result |
| Popularity.ThrowsExactly | script.js:145-152 | on a non-empty image with m colours it throws exactly when k = 0, k > m or k <= -m |
| Popularity.EmptyImage | script.js:133-161 | an image without pixels is returned as it is |
| Popularity.MappedShape | script.js:147-161 | length and alpha kept; every pixel takes the first scanned entry nearest to its old colour |
| Popularity.MappedPixel | script.js:147-160 | pixel q takes the entry `NearestIndex` chooses, which is the first nearest one |
| Popularity.MappedKeepsPaletteColour | script.js:150-160 | a pixel whose colour is a scanned entry keeps its bytes |
| Popularity.MappedIdentity | script.js:147-161 | when every pixel colour is a scanned entry, mapping changes nothing |
| Popularity.PopularityIdentity | script.js:128-163 | with `k` the number of distinct colours the image is returned unchanged |
| Popularity.MappedSingle | script.js:149-151 | scanning one entry gives every pixel that entry's colour |
| Popularity.SinglePalette | script.js:145-160 | at k = 1 every pixel takes the most frequent colour |
| Popularity.MappedFirstEntry | script.js:149-151 | with one entry scanned only the first palette entry matters |
| Popularity.NegativeCount | script.js:145-151 | a negative k above -m gives the result for k = 1, since the inner loop does not run |
| Popularity.TooFewColoursThrows | script.js:149-152 | one pixel with k = 2: as written it throws, corrected it returns the image |
| Popularity.CorrectedIdentity | script.js:151-157 | with the scan bounded by the palette, any k >= m returns the image unchanged |
| Popularity.CorrectedAgrees | script.js:151-157 | where the original does not throw the corrected version gives the same result |
| Popularity.PopularityAlgorithmCorrected | script.js:128-163 | the corrected procedure throws exactly when `PopularityCorrected` does, otherwise leaves its result |
| Transform.AlgorithmOf | script.js:181-199 | the `switch` on the radio-button id; characterised by AlgorithmIds |
| Transform.Transformed | script.js:181-199 | the buffer the chosen transform returns, or the TypeError; characterised by TransformKeepsAlpha |
| Transform.AlgorithmIds | script.js:181-199 | each of the five ids selects its algorithm; every other id selects none |
| Transform.TransformImage | script.js:165-202 | the chosen transform ends as `Transformed`, a thrown TypeError leaves the buffer unchanged, an unknown id changes nothing |
| Transform.TransformKeepsAlpha | script.js:181-199 | whatever the algorithm, a returned buffer has the old length and the old alpha bytes |

## Behaviour of the code worth knowing

- The popularity algorithm scans `k` palette entries for every pixel. When
  `k` exceeds the number of colours in the image, the inner loop reads past
  the palette and throws (see Findings). `PopularityOutcome` and the
  dispatcher model that. `PopularityCorrected` is the version whose scan is
  bounded by the palette.
- Error diffusion finds neighbours by flat-index arithmetic, so targets wrap
  around rows. Only stores outside the array are dropped.
- Ordered dithering uses only the fixed 3×3 matrix `D3`. The cell comes from
  the byte index `i` and the canvas width, not from the pixel's column and
  row (`Ordered.MatrixCellOfPixel`). The value compared with the cell is the
  nearest level modulo 9.
- The random variant of ordered dithering tosses one coin per colour byte to
  choose between the nearest level and the next one.
- The popularity algorithm searches the palette afresh for every pixel.
- Depth 1 gives the single level 0, and a depth of 0 or below gives an empty
  list; `ditheringIntervals` rejects neither.
- An unknown algorithm id is only logged, and the canvas is redrawn unchanged.

## Left out

- DOM and canvas plumbing are parameters: the depths, `k`, the canvas width
  and the buffer itself. This covers `getImageData`/`putImageData`,
  `getElementById`, image loading and scaling, the refresh listener and the
  `Date.now` timing.
- `console.error` for an unknown id is logging only. `Transform.TransformImage`
  leaves the buffer unchanged for that id.
- `Math.random()` is replaced by the sequence `flips` of coin outcomes, one per
  colour byte in order.
- Floating point is not modelled. Levels are the exact reals `i*255/(k-1)`
  instead of the accumulated `currentStep += stepDiff`. Residuals and
  weighted parts are exact reals too.
- `toHex` is not modelled; no transform calls it.
- Histogram keys are `Rgb` triples, not the strings `"r,g,b"`, and `split(",")`
  is not modelled. `Object.keys` keeps insertion order for such keys, and the
  model keeps it too.
- Intervals.DepthsValid: depths of 0 or below are excluded. They give an empty
  level list, and `findInterval` then yields `undefined` (stored as 0).
- Ordered.OrderedDitheringRelative: requires width >= 1. A canvas of width 0
  has no image data.
- Popularity.PopularityAlgorithm: `k` is an integer. A fractional value from
  the number input is not modelled.
- Bytes.JsRemainder9: only the divisor 9 is modelled, the only one the program
  uses.
- Buffers hold whole pixels (length a multiple of 4), as `ImageData` always
  does.

## Findings

| source | as written | input that shows it | evidently intended | confidence | as-written member | corrected member |
|---|---|---|---|---|---|---|
| script.js:151-152 | the inner loop runs `j < k` and reads `sortedKeys[j]` even when the sliced palette has fewer than `k` entries, so `undefined.split` throws a TypeError | a one-pixel image `[1, 2, 3, 255]` with `k = 2` (one distinct colour) | scan `min(k, sortedKeys.length)` entries, so that asking for more colours than the image has returns the image unchanged | not executed | Popularity.TooFewColoursThrows | Popularity.CorrectedIdentity |

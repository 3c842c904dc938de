/**
 * `transformImage`: pick the algorithm from the id of the checked radio button
 * and run it on the input canvas's RGBA buffer. Only the dispatch is modelled;
 * the canvas reads and writes and the timing are left to the caller.
 */
module Transform {
  import opened Bytes
  import opened Intervals
  import opened Average
  import opened ErrorDiffusion
  import opened Ordered
  import opened Popularity

  /** The five algorithms by their radio-button id, and any other id. */
  datatype Algorithm = AvgDith | ErrDiffDith | OrdDithRel | OrdDithRand | PopAlg | Unknown(id: string)

  /** The id the page gives each algorithm. */
  function Id(alg: Algorithm): string
  {
    match alg
    case AvgDith => "avg-dith"
    case ErrDiffDith => "err-diff-dith"
    case OrdDithRel => "ord-dith-rel"
    case OrdDithRand => "ord-dith-rand"
    case PopAlg => "pop-alg"
    case Unknown(id) => id
  }

  /** The `switch (algorithm)` of `transformImage`. */
  function AlgorithmOf(id: string): Algorithm
  {
    if id == "avg-dith" then AvgDith
    else if id == "err-diff-dith" then ErrDiffDith
    else if id == "ord-dith-rel" then OrdDithRel
    else if id == "ord-dith-rand" then OrdDithRand
    else if id == "pop-alg" then PopAlg
    else Unknown(id)
  }

  /** The values the algorithms read from the page: depths, `k`, the canvas width and the `Math.random()` draws. */
  datatype Inputs = Inputs(depths: Depths, k: int, width: int, flips: seq<bool>)

  /** What the chosen algorithm needs of its inputs for a buffer of `n` bytes. */
  predicate Ready(alg: Algorithm, n: int, inp: Inputs)
  {
    n % 4 == 0
    && (alg.AvgDith? || alg.ErrDiffDith? || alg.OrdDithRel? || alg.OrdDithRand? ==> DepthsValid(inp.depths))
    && (alg.OrdDithRel? ==> inp.width >= 1)
    && (alg.OrdDithRand? ==> |inp.flips| >= 3 * (n / 4))
  }

  /** The buffer `transformImage` draws, or the TypeError that stops it before drawing. */
  function Transformed(alg: Algorithm, s: seq<Byte>, inp: Inputs): Outcome
    requires Ready(alg, |s|, inp)
  {
    match alg
    case AvgDith => Returned(AverageDithered(s, LevelsOf(inp.depths)))
    case ErrDiffDith => Returned(Diffused(s, LevelsOf(inp.depths), inp.width))
    case OrdDithRel => Returned(OrderedDithered(s, LevelsOf(inp.depths), inp.width))
    case OrdDithRand => Returned(RandomDithered(s, LevelsOf(inp.depths), inp.flips))
    case PopAlg => PopularityOutcome(s, inp.k)
    case Unknown(_) => Returned(s)
  }

  /**
   * `transformImage` on the buffer `a` with the checked id `id`: an unknown id
   * only reports the error and leaves the buffer as it is.
   */
  method TransformImage(a: array<Byte>, id: string, inp: Inputs) returns (thrown: bool)
    requires Ready(AlgorithmOf(id), a.Length, inp)
    modifies a
    ensures thrown <==> Transformed(AlgorithmOf(id), old(a[..]), inp).TypeError?
    ensures thrown ==> a[..] == old(a[..])
    ensures !thrown ==> a[..] == Transformed(AlgorithmOf(id), old(a[..]), inp).data
  {
    var alg := AlgorithmOf(id);
    thrown := false;
    match alg
    case AvgDith =>
      AverageDithering(a, inp.depths);
    case ErrDiffDith =>
      ErrorDiffusionDithering(a, inp.depths, inp.width);
    case OrdDithRel =>
      OrderedDitheringRelative(a, inp.depths, inp.width);
    case OrdDithRand =>
      OrderedDitheringRandom(a, inp.depths, inp.flips);
    case PopAlg =>
      thrown := PopularityAlgorithm(a, inp.k);
    case Unknown(_) =>
  }

  /** Each of the five ids selects its own algorithm, and every other id selects none. */
  lemma AlgorithmIds(alg: Algorithm, id: string)
    ensures !alg.Unknown? ==> AlgorithmOf(Id(alg)) == alg
    ensures AlgorithmOf(id).Unknown? <==>
      id !in ["avg-dith", "err-diff-dith", "ord-dith-rel", "ord-dith-rand", "pop-alg"]
    ensures Id(AlgorithmOf(id)) == id
  {
  }

  /** Whatever the algorithm, a returned buffer has the old length and the old alpha bytes. */
  lemma TransformKeepsAlpha(alg: Algorithm, s: seq<Byte>, inp: Inputs)
    requires Ready(alg, |s|, inp) && Transformed(alg, s, inp).Returned?
    ensures |Transformed(alg, s, inp).data| == |s|
    ensures forall p :: 0 <= p < |s| && Channel(p) == 3 ==> Transformed(alg, s, inp).data[p] == s[p]
  {
    var L := LevelsOf(inp.depths);
    match alg
    case AvgDith =>
      AverageDitheredShape(s, L);
    case ErrDiffDith =>
      DiffusedKeepsAlpha(s, L, inp.width);
    case OrdDithRel =>
      OrderedShape(s, L, inp.width);
    case OrdDithRand =>
      RandomShape(s, L, inp.flips);
    case PopAlg =>
      if |s| > 0 {
        var P := Palette(s, inp.k);
        MappedShape(s, P, ScanSize(inp.k));
      }
    case Unknown(_) =>
  }
}

/** The part of the Konno-Ohmachi smoothing that the C kernel and the Numba
    kernel share: for one centre frequency `fc`, which input frequencies are
    skipped and the weight of the others. The sums and the emitted value
    are those of the Accumulation module over the sequence of weights. */
module KonnoOhmachi {
  import opened Numerics
  import opened Accumulation

  /** The configuration of one kernel call: elementary functions, bandwidth
      `b` and the epsilon used for the "near zero" and "exact match" tests. */
  datatype Params = Params(m: Elementary, bw: real, eps: real)

  ghost predicate Admissible(p: Params)
  {
    Lawful(p.m) && p.bw != 0.0 && p.eps > 0.0
  }

  /** `max_ratio = pow(10, 3 / b)`: the widest ratio freq/fc still considered. */
  function MaxRatio(p: Params): (r: real)
    requires Lawful(p.m) && p.bw != 0.0
    ensures r > 0.0
  {
    Pow(p.m, 10.0, 3.0 / p.bw)
  }

  /** `min_ratio = 1 / max_ratio`. */
  function MinRatio(p: Params): (r: real)
    requires Lawful(p.m) && p.bw != 0.0
    ensures r > 0.0
  {
    1.0 / MaxRatio(p)
  }

  /** An input frequency takes part in the sums for `fc` unless it is below
      epsilon or its ratio to `fc` lies outside [min_ratio, max_ratio]. */
  predicate Contributes(p: Params, freq: real, fc: real)
    requires Admissible(p) && fc > 0.0
  {
    var frat := freq / fc;
    !(freq < p.eps || frat > MaxRatio(p) || frat < MinRatio(p))
  }

  /** The fourth power, computed as the C kernel does: square, then square again. */
  function Fourth(q: real): (r: real)
    ensures r >= 0.0
  {
    var s := q * q;
    s * s
  }

  /** sin(x) / x, the quantity whose fourth power is the window. */
  function SinRatio(m: Elementary, x: real): real
    requires x != 0.0
  {
    Sin(m, x) / x
  }

  /** x = b * log10(frat), the argument of the window for the ratio `frat`. */
  function LogArg(p: Params, frat: real): real
  {
    p.bw * Log10(p.m, frat)
  }

  /** For a contributing frequency that is not an exact match, x = b * log10(freq / fc)
      is never zero, so sin(x) / x is defined. */
  lemma LogRatioNonZero(p: Params, freq: real, fc: real)
    requires Admissible(p) && fc > 0.0 && Contributes(p, freq, fc)
    requires !(Abs(freq - fc) < p.eps)
    ensures freq / fc > 0.0 && LogArg(p, freq / fc) != 0.0
  {
    var frat := freq / fc;
    assert frat >= MinRatio(p) > 0.0;
    assert freq == frat * fc;
    assert frat != 1.0;
    assert Log10(p.m, frat) != 0.0;
  }

  /** The Konno-Ohmachi weight of a contributing frequency: 1 at an exact
      match, (sin x / x)^4 with x = b * log10(freq / fc) otherwise. */
  function Window(p: Params, freq: real, fc: real): (w: real)
    requires Admissible(p) && fc > 0.0 && Contributes(p, freq, fc)
    ensures w >= 0.0
    ensures Abs(freq - fc) < p.eps ==> w == 1.0
  {
    if Abs(freq - fc) < p.eps then 1.0
    else
      LogRatioNonZero(p, freq, fc);
      Fourth(SinRatio(p.m, LogArg(p, freq / fc)))
  }

  /** Away from an exact match the window is (sin x / x)^4 with x = b * log10(freq / fc), and x is not zero. */
  lemma WindowOffMatch(p: Params, freq: real, fc: real)
    requires Admissible(p) && fc > 0.0 && Contributes(p, freq, fc) && !(Abs(freq - fc) < p.eps)
    ensures LogArg(p, freq / fc) != 0.0
    ensures Window(p, freq, fc) == Fourth(SinRatio(p.m, LogArg(p, freq / fc)))
  {
  }

  /** The weight an input frequency adds to `window_total`: its window when
      it contributes, nothing when the inner loop skips it. */
  function Weight(p: Params, freq: real, fc: real): (w: real)
    requires Admissible(p) && fc > 0.0
    ensures w >= 0.0
  {
    if Contributes(p, freq, fc) then Window(p, freq, fc) else 0.0
  }

  /** The weights of all input frequencies for the centre frequency `fc`, in order. */
  function Weights(p: Params, freqs: seq<real>, fc: real): (ws: seq<real>)
    requires Admissible(p) && fc > 0.0
    ensures |ws| == |freqs|
    decreases |freqs|
  {
    if |freqs| == 0 then [] else [Weight(p, freqs[0], fc)] + Weights(p, freqs[1..], fc)
  }

  /** Entry `j` of `Weights` is the weight of `freqs[j]`. */
  lemma {:induction false} WeightAt(p: Params, freqs: seq<real>, fc: real, j: nat)
    requires Admissible(p) && fc > 0.0 && j < |freqs|
    ensures Weights(p, freqs, fc)[j] == Weight(p, freqs[j], fc)
    decreases |freqs|
  {
    if j > 0 {
      WeightAt(p, freqs[1..], fc, j - 1);
    }
  }

  /** Every entry of `Weights` is the weight of the corresponding input frequency. */
  lemma WeightsMatch(p: Params, freqs: seq<real>, fc: real)
    requires Admissible(p) && fc > 0.0
    ensures forall j :: 0 <= j < |freqs| ==> Weights(p, freqs, fc)[j] == Weight(p, freqs[j], fc)
  {
    forall j | 0 <= j < |freqs| {
      WeightAt(p, freqs, fc, j);
    }
  }

  /** No input frequency among the first `n` carries a positive weight. */
  ghost predicate NoWeight(p: Params, freqs: seq<real>, fc: real, n: nat)
    requires Admissible(p) && fc > 0.0 && n <= |freqs|
  {
    forall j :: 0 <= j < n ==> Weight(p, freqs[j], fc) == 0.0
  }

  /** What a kernel emits for a centre frequency `fc` at or above epsilon,
      after visiting the first `n` input frequencies: the weighted sum,
      divided by the weight when normalising, or NaN when no weight accumulated. */
  function Average(p: Params, freqs: seq<real>, spec: seq<real>, fc: real, n: nat, normalize: bool): (s: Sample)
    requires Admissible(p) && fc > 0.0 && n <= |freqs| && n <= |spec|
    ensures s.Missing? <==> NoWeight(p, freqs, fc, n)
  {
    var ws := Weights(p, freqs, fc);
    WeightsMatch(p, freqs, fc);
    EmitMissingIff(ws, spec, n, normalize);
    Emit(ws, spec, n, normalize)
  }

  /** `window_total` is non-negative throughout the inner loop and never
      decreases from one step to a later one. */
  lemma WindowTotalNeverDecreases(p: Params, freqs: seq<real>, fc: real, i: nat, j: nat)
    requires Admissible(p) && fc > 0.0 && i <= j <= |freqs|
    ensures 0.0 <= WeightSum(Weights(p, freqs, fc), i) <= WeightSum(Weights(p, freqs, fc), j)
  {
    WeightsMatch(p, freqs, fc);
    WeightSumMonotone(Weights(p, freqs, fc), i, j);
  }

  /** Without normalisation the output is the raw weighted sum `total`:
      NaN in the same cases as the normalised output, and otherwise that
      output times `window_total`. */
  lemma {:induction false} RawSumOutput(p: Params, freqs: seq<real>, spec: seq<real>, fc: real, n: nat)
    requires Admissible(p) && fc > 0.0 && n <= |freqs| && n <= |spec|
    ensures Average(p, freqs, spec, fc, n, false).Missing? <==> Average(p, freqs, spec, fc, n, true).Missing?
    ensures Average(p, freqs, spec, fc, n, false).Value? ==>
      Average(p, freqs, spec, fc, n, false).v == Average(p, freqs, spec, fc, n, true).v * WeightSum(Weights(p, freqs, fc), n)
  {
    var ws := Weights(p, freqs, fc);
    assert Average(p, freqs, spec, fc, n, false) == Emit(ws, spec, n, false);
    assert Average(p, freqs, spec, fc, n, true) == Emit(ws, spec, n, true);
    RawIsScaledMean(ws, spec, n);
  }

  /** A normalised output lies between any lower and upper bound of the
      spectrum values at the contributing frequencies. */
  lemma NormalisedWithinRange(p: Params, freqs: seq<real>, spec: seq<real>, fc: real, n: nat, lo: real, hi: real)
    requires Admissible(p) && fc > 0.0 && n <= |freqs| && n <= |spec|
    requires forall j :: 0 <= j < n && Contributes(p, freqs[j], fc) ==> lo <= spec[j] <= hi
    ensures Average(p, freqs, spec, fc, n, true).Value? ==> lo <= Average(p, freqs, spec, fc, n, true).v <= hi
  {
    var ws := Weights(p, freqs, fc);
    WeightsMatch(p, freqs, fc);
    assert forall j :: 0 <= j < n ==> ws[j] >= 0.0 && (ws[j] == 0.0 || lo <= spec[j] <= hi);
    MeanWithin(ws, spec, n, lo, hi);
  }

  /** Non-negative spectrum values at the contributing frequencies give a
      non-negative output, normalised or not. */
  lemma NonNegativeOutput(p: Params, freqs: seq<real>, spec: seq<real>, fc: real, n: nat, normalize: bool)
    requires Admissible(p) && fc > 0.0 && n <= |freqs| && n <= |spec|
    requires forall j :: 0 <= j < n && Contributes(p, freqs[j], fc) ==> 0.0 <= spec[j]
    ensures Average(p, freqs, spec, fc, n, normalize).Value? ==> Average(p, freqs, spec, fc, n, normalize).v >= 0.0
  {
    var ws := Weights(p, freqs, fc);
    WeightsMatch(p, freqs, fc);
    assert forall j :: 0 <= j < n ==> ws[j] >= 0.0 && (ws[j] == 0.0 || 0.0 <= spec[j]);
    EmitNonNegative(ws, spec, n, normalize);
  }

  /** A spectrum that equals `c` at every contributing frequency is reproduced
      exactly by the normalised output, unless no weight accumulated. */
  lemma ConstantSpectrumReproduced(p: Params, freqs: seq<real>, spec: seq<real>, fc: real, n: nat, c: real)
    requires Admissible(p) && fc > 0.0 && n <= |freqs| && n <= |spec|
    requires forall j :: 0 <= j < n && Contributes(p, freqs[j], fc) ==> spec[j] == c
    ensures Average(p, freqs, spec, fc, n, true) == if NoWeight(p, freqs, fc, n) then Missing else Value(c)
  {
    var ws := Weights(p, freqs, fc);
    WeightsMatch(p, freqs, fc);
    assert forall j :: 0 <= j < n ==> ws[j] >= 0.0 && (ws[j] == 0.0 || spec[j] == c);
    MeanOfConstant(ws, spec, n, c);
  }

  /** A skipped input frequency plays no part: replacing it by any other
      skipped frequency, and its spectrum value by any value, leaves the output unchanged. */
  lemma SkippedFrequencyIrrelevant(p: Params, freqs: seq<real>, spec: seq<real>, fc: real, n: nat,
                                   normalize: bool, k: nat, freq: real, v: real)
    requires Admissible(p) && fc > 0.0 && n <= |freqs| && n <= |spec| && k < |freqs| && k < |spec|
    requires !Contributes(p, freqs[k], fc) && !Contributes(p, freq, fc)
    ensures Average(p, freqs[k := freq], spec[k := v], fc, n, normalize) == Average(p, freqs, spec, fc, n, normalize)
  {
    var ws := Weights(p, freqs, fc);
    WeightsMatch(p, freqs, fc);
    WeightsMatch(p, freqs[k := freq], fc);
    assert Weights(p, freqs[k := freq], fc) == ws;
    EmitIgnoresZeroWeight(ws, spec, n, normalize, k, v);
  }

  /** A contributing exact match carries weight 1, so `window_total` reaches
      at least 1 and the output there is never NaN. */
  lemma ExactMatchNeverMissing(p: Params, freqs: seq<real>, spec: seq<real>, fc: real, n: nat, normalize: bool, k: nat)
    requires Admissible(p) && fc > 0.0 && n <= |freqs| && n <= |spec| && k < n
    requires Contributes(p, freqs[k], fc) && Abs(freqs[k] - fc) < p.eps
    ensures Weight(p, freqs[k], fc) == 1.0
    ensures WeightSum(Weights(p, freqs, fc), n) >= 1.0
    ensures Average(p, freqs, spec, fc, n, normalize).Value?
  {
    var ws := Weights(p, freqs, fc);
    WeightsMatch(p, freqs, fc);
    WeightSumCoversEntry(ws, n, k);
  }
}

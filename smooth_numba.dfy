/** The Numba kernel `smooth(ko_freqs, freqs, spectrum, b)`: always
    normalised, with the machine epsilon of the frequency type as `eps`,
    a fresh output array, and Python exceptions for a zero bandwidth and for
    a centre frequency below epsilon whose input frequency at the same index
    is not below epsilon. */
module SmoothNumba {
  import opened Numerics
  import opened Accumulation
  import opened KonnoOhmachi
  import SmoothingC

  /** Every read the kernel performs is inside its arrays: `spectrum[j]` for
      each input frequency and, for a centre frequency below epsilon,
      `freqs[i]` at the centre's own index and `spectrum[0]`. Numba does not
      check bounds, so this is a requirement on the caller rather than an error path. */
  ghost predicate InBounds(eps: real, koFreqs: seq<real>, freqs: seq<real>, spectrum: seq<real>)
  {
    |freqs| <= |spectrum| &&
    forall i :: 0 <= i < |koFreqs| && koFreqs[i] < eps ==> i < |freqs|
  }

  /** At centre index `i` the kernel raises ValueError: the centre frequency
      is below epsilon but `freqs[i]` is not. */
  predicate BadZeroCentre(eps: real, koFreqs: seq<real>, freqs: seq<real>, i: nat)
    requires i < |koFreqs| && (koFreqs[i] < eps ==> i < |freqs|)
  {
    koFreqs[i] < eps && freqs[i] >= eps
  }

  /** What the kernel stores in `ko_smooth[i]` for the centre frequency `fc`
      when it does not raise: `spectrum[0]` below epsilon, the normalised
      average otherwise. */
  function SmoothAt(p: Params, spectrum: seq<real>, freqs: seq<real>, i: nat, fc: real): Sample
    requires Admissible(p) && |freqs| <= |spectrum|
    requires fc < p.eps ==> i < |freqs| && freqs[i] < p.eps
  {
    if fc < p.eps then Value(spectrum[0]) else Average(p, freqs, spectrum, fc, |freqs|, true)
  }

  /** The outcome of a call: ZeroDivisionError for `b == 0` (from `3 / b`),
      ValueError if some centre index is bad, the smoothed array otherwise. */
  ghost function Outcome(m: Elementary, koFreqs: seq<real>, freqs: seq<real>, spectrum: seq<real>, b: real, eps: real): Result<seq<Sample>>
    requires Lawful(m) && eps > 0.0 && InBounds(eps, koFreqs, freqs, spectrum)
  {
    if b == 0.0 then Err(ZeroDivisionError)
    else if exists i :: 0 <= i < |koFreqs| && BadZeroCentre(eps, koFreqs, freqs, i) then Err(ValueError)
    else Ok(seq(|koFreqs|, i requires 0 <= i < |koFreqs| && !BadZeroCentre(eps, koFreqs, freqs, i) =>
                           SmoothAt(Params(m, b, eps), spectrum, freqs, i, koFreqs[i])))
  }

  /** `smooth`: the outer loop over the centre frequencies. */
  method Smooth(koFreqs: seq<real>, freqs: seq<real>, spectrum: seq<real>, b: real, eps: real, m: Elementary)
    returns (r: Result<seq<Sample>>)
    requires Lawful(m) && eps > 0.0 && InBounds(eps, koFreqs, freqs, spectrum)
    ensures r == Outcome(m, koFreqs, freqs, spectrum, b, eps)
  {
    if b == 0.0 {
      return Err(ZeroDivisionError);
    }
    var p := Params(m, b, eps);
    var maxRatio := Pow(m, 10.0, 3.0 / b);
    var minRatio := 1.0 / maxRatio;
    var koSmooth := new Sample[|koFreqs|];
    for i := 0 to |koFreqs|
      invariant forall k :: 0 <= k < i ==>
        !BadZeroCentre(eps, koFreqs, freqs, k) && koSmooth[k] == SmoothAt(p, spectrum, freqs, k, koFreqs[k])
    {
      var fc := koFreqs[i];
      if fc < eps {
        if freqs[i] < eps {
          koSmooth[i] := Value(spectrum[0]);
        } else {
          assert BadZeroCentre(eps, koFreqs, freqs, i);
          return Err(ValueError);
        }
        continue;
      }
      koSmooth[i] := Centre(p, spectrum, freqs, fc, maxRatio, minRatio);
    }
    assert koSmooth[..] == Outcome(m, koFreqs, freqs, spectrum, b, eps).value;
    r := Ok(koSmooth[..]);
  }

  /** The body of the outer loop for a centre frequency at or above epsilon. */
  method Centre(p: Params, spectrum: seq<real>, freqs: seq<real>, fc: real, maxRatio: real, minRatio: real)
    returns (s: Sample)
    requires Admissible(p) && fc >= p.eps && |freqs| <= |spectrum|
    requires maxRatio == MaxRatio(p) && minRatio == MinRatio(p)
    ensures s == Average(p, freqs, spectrum, fc, |freqs|, true)
  {
    ghost var ws := Weights(p, freqs, fc);
    var total := 0.0;
    var windowTotal := 0.0;
    var n := |freqs|;
    for j := 0 to n
      invariant windowTotal == WeightSum(ws, j)
      invariant total == WeightedSum(ws, spectrum, j)
    {
      var freq := freqs[j];
      var frat := freq / fc;
      if freq < p.eps || frat < minRatio || maxRatio < frat {
        assert windowTotal == WeightSum(ws, j + 1) && total == WeightedSum(ws, spectrum, j + 1) by {
          assert !Contributes(p, freq, fc);
          WeightAt(p, freqs, fc, j);
          SkipStep(ws, spectrum, j, windowTotal, total);
        }
        continue;
      }
      var window := WindowNumba(p, freq, fc, frat);
      assert windowTotal + window == WeightSum(ws, j + 1) && total + window * spectrum[j] == WeightedSum(ws, spectrum, j + 1) by {
        WeightAt(p, freqs, fc, j);
        AddStep(ws, spectrum, j, window, spectrum[j], windowTotal, total);
      }
      total := total + window * spectrum[j];
      windowTotal := windowTotal + window;
    }
    if windowTotal > 0.0 {
      s := Value(total / windowTotal);
    } else {
      s := Missing;
    }
  }

  /** The weight of a contributing frequency, computed as the kernel does:
      1 at an exact match, otherwise `(sin(x) / x) ** 4`. */
  method WindowNumba(p: Params, freq: real, fc: real, frat: real) returns (window: real)
    requires Admissible(p) && fc > 0.0 && frat == freq / fc && Contributes(p, freq, fc)
    ensures window == Window(p, freq, fc)
  {
    if Abs(freq - fc) < p.eps {
      window := 1.0;
    } else {
      WindowOffMatch(p, freq, fc);
      var x := LogArg(p, frat);
      window := Fourth(SinRatio(p.m, x));
    }
  }

  /** A successful call returns one entry per centre frequency, and each
      entry that is not NaN lies within the range of the spectrum. */
  lemma OutputWithinSpectrumRange(m: Elementary, koFreqs: seq<real>, freqs: seq<real>, spectrum: seq<real>, b: real, eps: real,
                                  lo: real, hi: real)
    requires Lawful(m) && eps > 0.0 && InBounds(eps, koFreqs, freqs, spectrum)
    requires forall j :: 0 <= j < |spectrum| ==> lo <= spectrum[j] <= hi
    ensures var r := Outcome(m, koFreqs, freqs, spectrum, b, eps);
      r.Ok? ==> |r.value| == |koFreqs| && forall i :: 0 <= i < |r.value| && r.value[i].Value? ==> lo <= r.value[i].v <= hi
  {
    var r := Outcome(m, koFreqs, freqs, spectrum, b, eps);
    if r.Ok? {
      forall i | 0 <= i < |r.value| && r.value[i].Value?
        ensures lo <= r.value[i].v <= hi
      {
        if koFreqs[i] >= eps {
          NormalisedWithinRange(Params(m, b, eps), freqs, spectrum, koFreqs[i], |freqs|, lo, hi);
        }
      }
    }
  }

  /** A non-negative spectrum gives a successful call no negative entry. */
  lemma NonNegativeSpectrumOutput(m: Elementary, koFreqs: seq<real>, freqs: seq<real>, spectrum: seq<real>, b: real, eps: real)
    requires Lawful(m) && eps > 0.0 && InBounds(eps, koFreqs, freqs, spectrum)
    requires forall j :: 0 <= j < |spectrum| ==> 0.0 <= spectrum[j]
    ensures var r := Outcome(m, koFreqs, freqs, spectrum, b, eps);
      r.Ok? ==> forall i :: 0 <= i < |r.value| && r.value[i].Value? ==> 0.0 <= r.value[i].v
  {
    var r := Outcome(m, koFreqs, freqs, spectrum, b, eps);
    if r.Ok? {
      forall i | 0 <= i < |r.value| && r.value[i].Value?
        ensures 0.0 <= r.value[i].v
      {
        if koFreqs[i] >= eps {
          NonNegativeOutput(Params(m, b, eps), freqs, spectrum, koFreqs[i], |freqs|, true);
        }
      }
    }
  }

  /** A constant spectrum comes back unchanged, except for NaN at the centre
      frequencies at or above epsilon that have no weight around them. */
  lemma ConstantSpectrumPreserved(m: Elementary, koFreqs: seq<real>, freqs: seq<real>, spectrum: seq<real>, b: real, eps: real, c: real)
    requires Lawful(m) && eps > 0.0 && InBounds(eps, koFreqs, freqs, spectrum) && b != 0.0
    requires forall j :: 0 <= j < |spectrum| ==> spectrum[j] == c
    ensures var r := Outcome(m, koFreqs, freqs, spectrum, b, eps);
      r.Ok? ==> forall i :: 0 <= i < |r.value| ==>
        r.value[i] == if koFreqs[i] >= eps && NoWeight(Params(m, b, eps), freqs, koFreqs[i], |freqs|) then Missing else Value(c)
  {
    var r := Outcome(m, koFreqs, freqs, spectrum, b, eps);
    if r.Ok? {
      forall i | 0 <= i < |r.value|
        ensures r.value[i] == if koFreqs[i] >= eps && NoWeight(Params(m, b, eps), freqs, koFreqs[i], |freqs|) then Missing else Value(c)
      {
        if koFreqs[i] >= eps {
          ConstantSpectrumReproduced(Params(m, b, eps), freqs, spectrum, koFreqs[i], |freqs|, c);
        }
      }
    }
  }

  /** With the C kernel's epsilon, the Numba kernel's entry `i` equals the
      normalised C kernel's output for the same centre frequency, except where
      the two near-zero branches differ: Numba tests `freqs[i]` and C tests `freqs[0]`. */
  lemma AgreesWithC(m: Elementary, koFreqs: seq<real>, freqs: seq<real>, spectrum: seq<real>, b: real, i: nat)
    requires Lawful(m) && InBounds(SmoothingC.Eps, koFreqs, freqs, spectrum) && b != 0.0
    requires i < |koFreqs| && (koFreqs[i] >= SmoothingC.Eps || freqs[0] < SmoothingC.Eps)
    ensures var r := Outcome(m, koFreqs, freqs, spectrum, b, SmoothingC.Eps);
      r.Ok? ==> r.value[i] == SmoothingC.SmoothAt(m, b, spectrum, freqs, |freqs|, koFreqs[i], true)
  {
  }
}

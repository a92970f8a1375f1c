/** The C kernel `konno_ohmachi_c`: for every centre frequency it either
    handles the near-zero case directly or runs the shared inner loop with
    the fixed epsilon 1e-10, and writes one entry of the output buffer. */
module SmoothingC {
  import opened Numerics
  import opened Accumulation
  import opened KonnoOhmachi

  /** The kernel's fixed `eps`, 1e-10. */
  const Eps: real := 0.0000000001

  /** A C loop `for (k = 0; k < n; k++)` runs max(n, 0) times. */
  function Count(n: int): nat
  {
    if n < 0 then 0 else n
  }

  /** The kernel configuration for bandwidth `bw`. */
  function Config(m: Elementary, bw: real): (p: Params)
    requires Lawful(m) && bw != 0.0
    ensures Admissible(p) && p.eps == Eps && p.bw == bw
  {
    Params(m, bw, Eps)
  }

  /** What the kernel writes to `ko_smooth[i]` for the centre frequency `fc`. */
  function SmoothAt(m: Elementary, bw: real, spec: seq<real>, freqs: seq<real>, ns: int, fc: real, normalize: bool): Sample
    requires Lawful(m) && bw != 0.0 && Count(ns) <= |freqs| && Count(ns) <= |spec|
    requires fc < Eps ==> 0 < |freqs| && 0 < |spec|
  {
    if fc < Eps then
      if freqs[0] < Eps then Value(spec[0]) else Value(0.0)
    else
      Average(Config(m, bw), freqs, spec, fc, Count(ns), normalize)
  }

  /** `konno_ohmachi_c`: fills `ko_smooth[0 .. nks)` and leaves the rest of the buffer alone. */
  method KonnoOhmachiC(spec: array<real>, freqs: array<real>, ns: int, koFreqs: array<real>,
                       koSmooth: array<Sample>, nks: int, m: Elementary, bw: real, normalize: bool)
    requires Lawful(m) && bw != 0.0
    requires Count(ns) <= freqs.Length && Count(ns) <= spec.Length
    requires Count(nks) <= koFreqs.Length && Count(nks) <= koSmooth.Length
    requires forall i :: 0 <= i < Count(nks) && koFreqs[i] < Eps ==> 0 < freqs.Length && 0 < spec.Length
    modifies koSmooth
    ensures forall i :: 0 <= i < Count(nks) ==> koSmooth[i] == SmoothAt(m, bw, spec[..], freqs[..], ns, koFreqs[i], normalize)
    ensures forall i :: Count(nks) <= i < koSmooth.Length ==> koSmooth[i] == old(koSmooth[i])
  {
    var maxRatio := Pow(m, 10.0, 3.0 / bw);
    var minRatio := 1.0 / maxRatio;
    for i := 0 to Count(nks)
      invariant forall k :: 0 <= k < i ==> koSmooth[k] == SmoothAt(m, bw, spec[..], freqs[..], ns, koFreqs[k], normalize)
      invariant forall k :: i <= k < koSmooth.Length ==> koSmooth[k] == old(koSmooth[k])
    {
      var fc := koFreqs[i];
      if fc < Eps {
        if freqs[0] < Eps {
          koSmooth[i] := Value(spec[0]);
        } else {
          koSmooth[i] := Value(0.0);
        }
        continue;
      }
      var s := Centre(spec[..], freqs[..], Count(ns), fc, Config(m, bw), normalize, maxRatio, minRatio);
      koSmooth[i] := s;
    }
  }

  /** The body of the outer loop for a centre frequency at or above epsilon:
      the inner loop over the input frequencies and the value written afterwards. */
  method Centre(spec: seq<real>, freqs: seq<real>, n: nat, fc: real, p: Params, normalize: bool,
                maxRatio: real, minRatio: real) returns (s: Sample)
    requires Admissible(p) && p.eps == Eps && fc >= Eps
    requires n <= |freqs| && n <= |spec|
    requires maxRatio == MaxRatio(p) && minRatio == MinRatio(p)
    ensures s == Average(p, freqs, spec, fc, n, normalize)
  {
    ghost var ws := Weights(p, freqs, fc);
    var total := 0.0;
    var windowTotal := 0.0;
    for j := 0 to n
      invariant windowTotal == WeightSum(ws, j)
      invariant total == WeightedSum(ws, spec, j)
    {
      var freq := freqs[j];
      var frat := freq / fc;
      if freq < p.eps || frat > maxRatio || frat < minRatio {
        assert windowTotal == WeightSum(ws, j + 1) && total == WeightedSum(ws, spec, j + 1) by {
          WeightAt(p, freqs, fc, j);
          SkipStep(ws, spec, j, windowTotal, total);
        }
        continue;
      }
      var window := WindowC(p, freq, fc, frat);
      assert windowTotal + window == WeightSum(ws, j + 1) && total + window * spec[j] == WeightedSum(ws, spec, j + 1) by {
        WeightAt(p, freqs, fc, j);
        AddStep(ws, spec, j, window, spec[j], windowTotal, total);
      }
      total := total + window * spec[j];
      windowTotal := windowTotal + window;
    }
    if windowTotal > 0.0 {
      if normalize {
        total := total / windowTotal;
      }
      s := Value(total);
    } else {
      s := Missing;
    }
  }

  /** The weight of a contributing frequency, computed as the kernel does:
      1 at an exact match, otherwise sin(x) / x squared and squared again. */
  method WindowC(p: Params, freq: real, fc: real, frat: real) returns (window: real)
    requires Admissible(p) && p.eps == Eps && fc > 0.0 && frat == freq / fc && Contributes(p, freq, fc)
    ensures window == Window(p, freq, fc)
  {
    if Abs(freq - fc) < Eps {
      window := 1.0;
    } else {
      WindowOffMatch(p, freq, fc);
      var x := LogArg(p, frat);
      window := SinRatio(p.m, x);
      window := window * window;
      window := window * window;
    }
  }

  /** The kernel writes NaN exactly for a centre frequency at or above
      epsilon around which no input frequency carries weight. */
  lemma MissingExactlyWithoutWeight(m: Elementary, bw: real, spec: seq<real>, freqs: seq<real>, ns: int, fc: real, normalize: bool)
    requires Lawful(m) && bw != 0.0 && Count(ns) <= |freqs| && Count(ns) <= |spec|
    requires fc < Eps ==> 0 < |freqs| && 0 < |spec|
    ensures SmoothAt(m, bw, spec, freqs, ns, fc, normalize).Missing? <==> fc >= Eps && NoWeight(Config(m, bw), freqs, fc, Count(ns))
  {
  }

  /** A non-negative spectrum gives a non-negative output everywhere, normalised or not. */
  lemma NonNegativeSpectrumOutput(m: Elementary, bw: real, spec: seq<real>, freqs: seq<real>, ns: int, fc: real, normalize: bool)
    requires Lawful(m) && bw != 0.0 && Count(ns) <= |freqs| && Count(ns) <= |spec|
    requires fc < Eps ==> 0 < |freqs| && 0 < |spec|
    requires forall j :: 0 <= j < |spec| ==> spec[j] >= 0.0
    ensures SmoothAt(m, bw, spec, freqs, ns, fc, normalize).Value? ==> SmoothAt(m, bw, spec, freqs, ns, fc, normalize).v >= 0.0
  {
    if fc >= Eps {
      NonNegativeOutput(Config(m, bw), freqs, spec, fc, Count(ns), normalize);
    }
  }

  /** With normalisation, an entry lies within the range of the spectrum values
      of the first `ns` entries: at a centre frequency at or above epsilon, and
      below it when `freqs[0]` is below epsilon too. The one entry that can
      leave the range is the 0 written below epsilon when `freqs[0]` is not. */
  lemma NormalisedWithinSpectrumRange(m: Elementary, bw: real, spec: seq<real>, freqs: seq<real>, ns: int, fc: real, lo: real, hi: real)
    requires Lawful(m) && bw != 0.0 && Count(ns) <= |freqs| && Count(ns) <= |spec|
    requires fc < Eps ==> 0 < |freqs| && 0 < |spec|
    requires forall j :: 0 <= j < Count(ns) ==> lo <= spec[j] <= hi
    ensures var s := SmoothAt(m, bw, spec, freqs, ns, fc, true);
      s.Value? && (fc >= Eps || (freqs[0] < Eps && 0 < Count(ns))) ==> lo <= s.v <= hi
    ensures fc < Eps && freqs[0] >= Eps ==> SmoothAt(m, bw, spec, freqs, ns, fc, true) == Value(0.0)
  {
    if fc >= Eps {
      NormalisedWithinRange(Config(m, bw), freqs, spec, fc, Count(ns), lo, hi);
    }
  }

  /** With normalisation, a constant spectrum `c` is reproduced: at a centre
      frequency at or above epsilon unless no weight accumulates there, and
      below it when `freqs[0]` is below epsilon too; otherwise the entry is 0. */
  lemma ConstantSpectrumPreserved(m: Elementary, bw: real, spec: seq<real>, freqs: seq<real>, ns: int, fc: real, c: real)
    requires Lawful(m) && bw != 0.0 && Count(ns) <= |freqs| && Count(ns) <= |spec|
    requires fc < Eps ==> 0 < |freqs| && 0 < |spec|
    requires forall j :: 0 <= j < Count(ns) ==> spec[j] == c
    ensures fc >= Eps ==>
      SmoothAt(m, bw, spec, freqs, ns, fc, true) == if NoWeight(Config(m, bw), freqs, fc, Count(ns)) then Missing else Value(c)
    ensures fc < Eps && freqs[0] < Eps && 0 < Count(ns) ==> SmoothAt(m, bw, spec, freqs, ns, fc, true) == Value(c)
    ensures fc < Eps && freqs[0] >= Eps ==> SmoothAt(m, bw, spec, freqs, ns, fc, true) == Value(0.0)
  {
    if fc >= Eps {
      ConstantSpectrumReproduced(Config(m, bw), freqs, spec, fc, Count(ns), c);
    }
  }
}

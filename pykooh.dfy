/** The package entry points of `pykooh/__init__.py`: `smooth`, which takes
    the magnitude of the spectrum and hands it to a backend, and the parts of
    `effective_ampl` that decide the default frequency grid and how missing
    values of the smoothed spectrum are reported. */
module Pykooh {
  import opened Numerics
  import KonnoOhmachi
  import SmoothNumba

  /** A compiled backend `smooth_cython.smooth(ko_freqs, freqs, spectrum, b)`.
      Its source is not part of this model, so it is passed in as a value. */
  type Backend = (seq<real>, seq<real>, seq<real>, real) -> Result<seq<Sample>>

  /** `np.abs(spectrum)` for a real spectrum. */
  function Magnitudes(s: seq<real>): (r: seq<real>)
    ensures |r| == |s|
    ensures forall i :: 0 <= i < |s| ==> 0.0 <= r[i] && (r[i] == s[i] || r[i] == -s[i])
  {
    seq(|s|, i requires 0 <= i < |s| => Abs(s[i]))
  }

  /** `smooth(ko_freqs, freqs, spectrum, b, use_cython)`: the compiled backend
      when it is importable and asked for, the Numba kernel otherwise; either
      way on the magnitudes of the spectrum. */
  method Smooth(koFreqs: seq<real>, freqs: seq<real>, spectrum: seq<real>, b: real,
                hasCython: bool, cython: Backend, eps: real, m: Elementary, useCython: bool := true)
    returns (r: Result<seq<Sample>>)
    requires Lawful(m) && eps > 0.0
    requires !(hasCython && useCython) ==> SmoothNumba.InBounds(eps, koFreqs, freqs, spectrum)
    ensures hasCython && useCython ==> r == cython(koFreqs, freqs, Magnitudes(spectrum), b)
    ensures !(hasCython && useCython) ==> r == SmoothNumba.Outcome(m, koFreqs, freqs, Magnitudes(spectrum), b, eps)
    ensures !(hasCython && useCython) && r.Ok? ==>
      forall i :: 0 <= i < |r.value| && r.value[i].Value? ==> 0.0 <= r.value[i].v
  {
    var magnitudes := Magnitudes(spectrum);
    if hasCython && useCython {
      r := cython(koFreqs, freqs, magnitudes, b);
    } else {
      r := SmoothNumba.Smooth(koFreqs, freqs, magnitudes, b, eps, m);
      SmoothNumba.NonNegativeSpectrumOutput(m, koFreqs, freqs, magnitudes, b, eps);
    }
  }

  /** `np.isclose(x, 0)` with numpy's default tolerances: |x - 0| <= atol + rtol * |0|, atol = 1e-8. */
  const Atol: real := 0.00000001

  predicate IsCloseToZero(x: real)
  {
    Abs(x) <= Atol
  }

  /** `np.isclose(s, 0)` on one entry of a smoothed spectrum; NaN is never close. */
  predicate SampleCloseToZero(s: Sample)
  {
    s.Value? && IsCloseToZero(s.v)
  }

  /** `grid[(lo < grid) & (grid < hi)]`: the grid points strictly between `lo` and `hi`, in grid order. */
  function Between(grid: seq<real>, lo: real, hi: real): (r: seq<real>)
    ensures |r| <= |grid|
    ensures forall x :: x in r <==> x in grid && lo < x < hi
  {
    if |grid| == 0 then []
    else (if lo < grid[0] < hi then [grid[0]] else []) + Between(grid[1..], lo, hi)
  }

  /** The entries of `s` are strictly increasing. */
  ghost predicate Increasing(s: seq<real>)
  {
    forall i, j :: 0 <= i < j < |s| ==> s[i] < s[j]
  }

  /** Masking keeps the order of the grid: an increasing grid stays increasing. */
  lemma {:induction false} BetweenIncreasing(grid: seq<real>, lo: real, hi: real)
    requires Increasing(grid)
    ensures Increasing(Between(grid, lo, hi))
    decreases |grid|
  {
    if |grid| > 0 {
      var rest := Between(grid[1..], lo, hi);
      BetweenIncreasing(grid[1..], lo, hi);
      assert forall x :: x in rest ==> grid[0] < x by {
        forall x | x in rest
          ensures grid[0] < x
        {
          var k :| 0 <= k < |grid[1..]| && grid[1..][k] == x;
          assert grid[k + 1] == x;
        }
      }
      if lo < grid[0] < hi {
        var r := [grid[0]] + rest;
        forall i, j | 0 <= i < j < |r|
          ensures r[i] < r[j]
        {
          if i == 0 {
            assert r[j] == rest[j - 1] && r[j] in rest;
          } else {
            assert r[i] == rest[i - 1] && r[j] == rest[j - 1];
          }
        }
      } else {
        assert Between(grid, lo, hi) == rest;
      }
    }
  }

  /** `start` of the default grid: 1 when `freqs[0]` is close to zero, else 0. */
  function GridStart(freqs: seq<real>): nat
    requires 0 < |freqs|
  {
    if IsCloseToZero(freqs[0]) then 1 else 0
  }

  /** `np.ceil` on a real. */
  function Ceil(x: real): int
  {
    -((-x).Floor)
  }

  /** `ndecades = ceil(log10(hi)) - floor(log10(lo))`: the number of whole
      decades the log-spaced grid spans. */
  function Decades(m: Elementary, lo: real, hi: real): int
  {
    Ceil(Log10(m, hi)) - Log10(m, lo).Floor
  }

  /** The default grid of `effective_ampl` when no `freqs_ea` is given: the
      points of the log-spaced grid strictly between `freqs[start]` and
      `freqs[-1]`, where `start` skips a first frequency close to zero.
      `np.logspace` is asked for `1 + 100 * ndecades` points and fails with
      ValueError when that is negative. `logGrid` stands for the values of
      the grid it builds. */
  function DefaultGrid(m: Elementary, freqs: seq<real>, logGrid: seq<real>): (r: Result<seq<real>>)
    ensures r == Err(IndexError) <==> |freqs| == 0 || (|freqs| == 1 && IsCloseToZero(freqs[0]))
    ensures r == Err(ValueError) <==>
      0 < |freqs| && GridStart(freqs) < |freqs| && Decades(m, freqs[GridStart(freqs)], freqs[|freqs| - 1]) < 0
    ensures r.Err? ==> r.error == IndexError || r.error == ValueError
    ensures r.Ok? ==> forall x :: x in r.value <==>
      x in logGrid && x < freqs[|freqs| - 1] && (if IsCloseToZero(freqs[0]) then freqs[1] < x else freqs[0] < x)
  {
    if |freqs| == 0 then Err(IndexError)
    else
      var start := GridStart(freqs);
      if start >= |freqs| then Err(IndexError)
      else if 1 + 100 * Decades(m, freqs[start], freqs[|freqs| - 1]) < 0 then Err(ValueError)
      else Ok(Between(logGrid, freqs[start], freqs[|freqs| - 1]))
  }

  /** An increasing log-spaced grid gives an increasing default grid. */
  lemma DefaultGridIncreasing(m: Elementary, freqs: seq<real>, logGrid: seq<real>)
    requires Increasing(logGrid)
    ensures DefaultGrid(m, freqs, logGrid).Ok? ==> Increasing(DefaultGrid(m, freqs, logGrid).value)
  {
    if DefaultGrid(m, freqs, logGrid).Ok? {
      BetweenIncreasing(logGrid, freqs[GridStart(freqs)], freqs[|freqs| - 1]);
    }
  }

  /** `smoothed[np.isclose(smoothed, 0)] = np.nan`, as a value: every entry
      close to zero becomes NaN and every other entry is kept. */
  function NearZeroMasked(s: seq<Sample>): (r: seq<Sample>)
    ensures |r| == |s|
    ensures forall i :: 0 <= i < |s| ==> (r[i].Missing? <==> s[i].Missing? || SampleCloseToZero(s[i]))
    ensures forall i :: 0 <= i < |s| && r[i].Value? ==> r[i] == s[i]
    ensures forall i :: 0 <= i < |s| ==> !SampleCloseToZero(r[i])
  {
    seq(|s|, i requires 0 <= i < |s| => if SampleCloseToZero(s[i]) then Missing else s[i])
  }

  /** Masking a second time changes nothing. */
  lemma MaskIdempotent(s: seq<Sample>)
    ensures NearZeroMasked(NearZeroMasked(s)) == NearZeroMasked(s)
  {
    var r := NearZeroMasked(s);
    assert forall i :: 0 <= i < |r| ==> NearZeroMasked(r)[i] == r[i];
  }

  /** `np.where(f(s))[0][-1]`: the index of the last entry satisfying `f`,
      if there is one. */
  function LastWhere(s: seq<Sample>, f: Sample -> bool): (r: Option<nat>)
    ensures r.None? <==> forall i :: 0 <= i < |s| ==> !f(s[i])
    ensures r.Some? ==> r.value < |s| && f(s[r.value])
    ensures r.Some? ==> forall i :: r.value < i < |s| ==> !f(s[i])
    decreases |s|
  {
    if |s| == 0 then None
    else if f(s[|s| - 1]) then Some(|s| - 1)
    else LastWhere(s[..|s| - 1], f)
  }

  /** The numpy slice `s[k:]`, which is empty once `k` passes the end. */
  function Suffix<T>(s: seq<T>, k: nat): seq<T>
  {
    if k <= |s| then s[k..] else []
  }

  /** The "trim" policy: `freqs_ea` and `smoothed` both cut after the last
      entry of `smoothed` close to zero; IndexError when there is none. */
  function Trimmed(freqsEa: seq<real>, smoothed: seq<Sample>): (r: Result<(seq<real>, seq<Sample>)>)
    ensures r.Err? <==> forall i :: 0 <= i < |smoothed| ==> !SampleCloseToZero(smoothed[i])
    ensures r.Err? ==> r.error == IndexError
    ensures r.Ok? ==>
      var first := |smoothed| - |r.value.1|;
      0 < first <= |smoothed| && r.value.1 == smoothed[first..] && SampleCloseToZero(smoothed[first - 1]) &&
      (forall i :: 0 <= i < |r.value.1| ==> !SampleCloseToZero(r.value.1[i])) &&
      r.value.0 == Suffix(freqsEa, first)
    ensures r.Ok? && |freqsEa| == |smoothed| ==> |r.value.0| == |r.value.1|
  {
    match LastWhere(smoothed, SampleCloseToZero)
    case None => Err(IndexError)
    case Some(last) => Ok((Suffix(freqsEa, last + 1), smoothed[last + 1..]))
  }

  /** The missing-value policy at the end of `effective_ampl`. "nan" masks
      the smoothed array in place, "trim" cuts both arrays, "zero" returns
      them as they are, and any other choice raises NotImplementedError. */
  method ApplyMissing(freqsEa: seq<real>, smoothed: array<Sample>, missing: string := "zero")
    returns (r: Result<(seq<real>, seq<Sample>)>)
    modifies smoothed
    ensures missing == "nan" ==> smoothed[..] == NearZeroMasked(old(smoothed[..])) && r == Ok((freqsEa, smoothed[..]))
    ensures missing != "nan" ==> smoothed[..] == old(smoothed[..])
    ensures missing == "trim" ==> r == Trimmed(freqsEa, smoothed[..])
    ensures missing == "zero" ==> r == Ok((freqsEa, smoothed[..]))
    ensures missing != "nan" && missing != "trim" && missing != "zero" ==> r == Err(NotImplementedError)
  {
    if missing == "nan" {
      forall i | 0 <= i < smoothed.Length && SampleCloseToZero(smoothed[i]) {
        smoothed[i] := Missing;
      }
      r := Ok((freqsEa, smoothed[..]));
    } else if missing == "trim" {
      r := Trimmed(freqsEa, smoothed[..]);
    } else if missing == "zero" {
      r := Ok((freqsEa, smoothed[..]));
    } else {
      r := Err(NotImplementedError);
    }
  }

  /** Where no weight reaches a centre frequency the kernels write NaN, and
      neither "zero" nor "trim" removes it. With the only input frequency at
      0, the Numba kernel gives `[NaN]` for one centre at 1; "zero" returns
      that NaN unchanged, as `ApplyMissing` states, and "trim" raises
      IndexError because no entry is close to 0. */
  lemma NaNSurvivesPolicies(m: Elementary, eps: real)
    requires Lawful(m) && 0.0 < eps <= 1.0
    ensures SmoothNumba.Outcome(m, [1.0], [0.0], [1.0], 188.5, eps) == Ok([Missing])
    ensures !SampleCloseToZero(Missing)
    ensures Trimmed([1.0], [Missing]) == Err(IndexError)
  {
    var p := KonnoOhmachi.Params(m, 188.5, eps);
    assert !KonnoOhmachi.Contributes(p, 0.0, 1.0);
    assert KonnoOhmachi.NoWeight(p, [0.0], 1.0, 1);
    assert SmoothNumba.SmoothAt(p, [1.0], [0.0], 0, 1.0) == Missing;
    assert SmoothNumba.Outcome(m, [1.0], [0.0], [1.0], 188.5, eps).value == [Missing];
  }

  /** An entry the "trim" policy treats as a gap: NaN, or close to 0. */
  predicate Gap(s: Sample)
  {
    s.Missing? || SampleCloseToZero(s)
  }

  /** "zero" as documented: every missing value becomes 0. */
  function ZeroFilled(s: seq<Sample>): (r: seq<Sample>)
    ensures |r| == |s|
    ensures forall i :: 0 <= i < |s| ==> r[i].Value?
    ensures forall i :: 0 <= i < |s| && s[i].Value? ==> r[i] == s[i]
    ensures forall i :: 0 <= i < |s| && s[i].Missing? ==> r[i] == Value(0.0)
  {
    seq(|s|, i requires 0 <= i < |s| => if s[i].Missing? then Value(0.0) else s[i])
  }

  /** "trim" as documented: both arrays cut after the last gap, so what is
      left is the longest run of defined values at the end; with no gap at
      all nothing is cut and nothing fails. */
  function TrimmedToContinuous(freqsEa: seq<real>, smoothed: seq<Sample>): (r: (seq<real>, seq<Sample>))
    ensures |r.1| <= |smoothed| && r.1 == smoothed[|smoothed| - |r.1|..]
    ensures forall i :: 0 <= i < |r.1| ==> !Gap(r.1[i])
    ensures |r.1| < |smoothed| ==> Gap(smoothed[|smoothed| - |r.1| - 1])
    ensures r.0 == Suffix(freqsEa, |smoothed| - |r.1|)
    ensures |freqsEa| == |smoothed| ==> |r.0| == |r.1|
  {
    match LastWhere(smoothed, Gap)
    case None => (freqsEa, smoothed)
    case Some(last) => (Suffix(freqsEa, last + 1), smoothed[last + 1..])
  }

  /** On the input that keeps a NaN above, the documented policies give no
      NaN and no error. */
  lemma DocumentedPoliciesRemoveNaN()
    ensures ZeroFilled([Missing]) == [Value(0.0)]
    ensures TrimmedToContinuous([1.0], [Missing]) == ([], [])
  {
    assert LastWhere([Missing], Gap) == Some(0);
  }
}

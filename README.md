# pykooh: Konno–Ohmachi spectral smoothing, modelled in Dafny

pykooh smooths Fourier amplitude spectra with the Konno–Ohmachi window
(Konno & Ohmachi 1998, BSSA 88(1)). The window is constant-width in log
frequency. For every centre frequency `fc` the kernel:

- visits every input frequency;
- skips one that is near zero, or whose ratio `freq / fc` lies outside
  `[1 / 10^(3/b), 10^(3/b)]`;
- gives the others the weight 1 at an exact match and `(sin x / x)^4` with
  `x = b · log10(freq / fc)` otherwise;
- accumulates `window_total` (the weights) and `total` (the weighted
  spectrum);
- writes `total / window_total` (or the raw `total` when not normalising),
  or NaN when no weight was accumulated.

The repository has two hand-written versions of this kernel, and the
package entry point sits in front of them.

- **C kernel `konno_ohmachi_c`** (module `SmoothingC`). It fills a
  caller-supplied buffer, normalises only on request, and uses a fixed
  epsilon of 1e-10. A centre frequency below epsilon yields `spec[0]` when
  `freqs[0]` is below epsilon, and 0 otherwise.
- **Numba kernel `smooth`** (module `SmoothNumba`). It allocates its
  result, always normalises, and uses the machine epsilon (here a
  parameter). A centre frequency below epsilon yields `spectrum[0]` when
  `freqs[i]` is below epsilon, where `i` is the centre's own index.
  Otherwise it raises `ValueError`. A zero bandwidth raises
  `ZeroDivisionError` from `3 / b`.
- **Package entry point** (module `Pykooh`). `smooth` takes `abs` of the
  spectrum and dispatches to the compiled backend or to the Numba kernel.
  `effective_ampl` builds a default grid by masking a log-spaced grid, and
  post-processes missing values with the policy `"zero"`, `"nan"` or
  `"trim"`.

The loop that both kernels share is in module `KonnoOhmachi`: the skip rule,
the window, the sequence of weights `Weights`, and what is emitted
(`Average`). The arithmetic of the running sums and of the emitted value is
in module `Accumulation`. It is stated over any sequence of weights, so the
bounds on averages are proved once.

Both kernels are written imperatively:

- The C kernel is a method over arrays. It writes `ko_smooth[0 .. nks)`, and
  nothing else.
- The Numba kernel fills a fresh array. It returns either the array or the
  Python exception as a `Result`.
- Both inner loops are proved, step by step, against `Average`. The loop
  invariants tie `window_total` and `total` to the prefix sums of `Weights`.

Modelling conventions:

- `double` is `real`.
- NaN is the `Missing` constructor of `Sample`.
- `sin`, `log10` and `pow` are function values in `Numerics.Elementary`.
  Only two facts about them are assumed, through `Lawful`: `pow(10, y) > 0`,
  and `log10(r) = 0` only at `r = 1`.
- `np.isclose(x, 0)` uses numpy's default tolerances, so it means
  `|x| <= 1e-8`, and NaN is never close.

Facts about the code that the model keeps:

- `smooth` has no `simplified` switch.
- Any positive `window_total` gives a value.
- The C epsilon is fixed at 1e-10.
- Neither kernel validates the bandwidth. Only the Numba kernel fails, and
  only at `b == 0`.
- Array lengths are not checked against each other.
- The zero-centre case passes `spectrum[0]` through only under the `freqs`
  test described above.

The two kernels differ in that test: C tests `freqs[0]` and writes 0, while
Numba tests `freqs[i]` and raises. `SmoothNumba.AgreesWithC` states that
everywhere else they agree under a common epsilon.

## Model

| member | source | states |
|---|---|---|
| Accumulation.AddStep | src/pykooh/smoothing.c:51-52 | adding a weight `w` and `w * v` to the running sums after `j` steps gives the sums after `j + 1` steps |
| Accumulation.SkipStep | src/pykooh/smoothing.c:41-42 | a `continue` on an entry of weight zero leaves both running sums equal to the sums after `j + 1` steps |
| Accumulation.WeightSumZeroIff | src/pykooh/smoothing.c:52-54 | with non-negative weights, `window_total` is at least 0, and it is 0 exactly when every weight visited is 0 |
| Accumulation.WeightSumCoversEntry | src/pykooh/smoothing.c:52 | with non-negative weights, `window_total` is at least any single weight visited |
| Accumulation.WeightSumMonotone | src/pykooh/smoothing.c:52 | with non-negative weights, `window_total` is non-negative and never decreases from one step to a later one |
| Accumulation.RawIsScaledMean | src/pykooh/smoothing.c:54-58 | the unnormalised output is NaN exactly when the normalised one is; otherwise it is the normalised output times `window_total` |
| Accumulation.EmitMissingIff | src/pykooh/smoothing.c:54-61 | with non-negative weights, the output is NaN if and only if every weight visited is zero |
| Accumulation.WeightedSumAtLeast | src/pykooh/smoothing.c:51 | if every value of positive weight is at least `lo`, then `total >= lo * window_total` |
| Accumulation.WeightedSumAtMost | src/pykooh/smoothing.c:51 | if every value of positive weight is at most `hi`, then `total <= hi * window_total` |
| Accumulation.MeanWithin | src/pykooh/smoothing.c:54-58 | the normalised output lies within any bounds of the values that carry positive weight |
| Accumulation.EmitNonNegative | src/pykooh/smoothing.c:54-58 | non-negative values of positive weight give a non-negative output, normalised or not |
| Accumulation.MeanOfConstant | src/pykooh/smoothing.c:54-58 | values that all equal `c` where the weight is positive give exactly `c`, or NaN if every weight is zero |
| Accumulation.WeightedSumIgnoresZeroWeight | src/pykooh/smoothing.c:51 | changing a value whose weight is zero does not change `total` |
| Accumulation.EmitIgnoresZeroWeight | src/pykooh/smoothing.c:41-42 | changing a value whose weight is zero does not change the output |
| KonnoOhmachi.MaxRatio | src/pykooh/smoothing.c:20 | `max_ratio = pow(10, 3 / bw)` is positive |
| KonnoOhmachi.MinRatio | src/pykooh/smoothing.c:21 | `min_ratio = 1 / max_ratio` is positive |
| KonnoOhmachi.Fourth | src/pykooh/smoothing.c:48-49 | squaring twice gives a non-negative number |
| KonnoOhmachi.LogRatioNonZero | src/pykooh/smoothing.c:46-47 | for a contributing frequency that is not an exact match, `freq / fc > 0` and `x = bw * log10(freq / fc)` is not zero, so `sin(x) / x` is defined |
| KonnoOhmachi.Window | src/pykooh/smoothing.c:43-50 | the window of a contributing frequency is non-negative, and exactly 1 at an exact match |
| KonnoOhmachi.WindowOffMatch | src/pykooh/smoothing.c:45-50 | away from an exact match, the window is `(sin x / x)^4` with a non-zero `x = bw * log10(freq / fc)` |
| KonnoOhmachi.Weight | src/pykooh/smoothing.c:41-50 | the weight an input frequency adds to `window_total` is never negative |
| KonnoOhmachi.Weights | src/pykooh/smoothing.c:38-53 | the inner loop assigns one weight per input frequency |
| KonnoOhmachi.WeightAt | src/pykooh/smoothing.c:38-53 | entry `j` of the weights is the weight of `freqs[j]`, which is what iteration `j` of the inner loop adds |
| KonnoOhmachi.WeightsMatch | src/pykooh/smoothing.c:38-53 | every entry of the weights is the weight of the corresponding input frequency |
| KonnoOhmachi.Average | src/pykooh/smoothing.c:54-61 | the value emitted for a centre frequency is NaN if and only if no input frequency visited carries weight |
| KonnoOhmachi.WindowTotalNeverDecreases | src/pykooh/smoothing.c:51-52 | `window_total` is non-negative after every step of the inner loop, and never decreases |
| KonnoOhmachi.RawSumOutput | src/pykooh/smoothing.c:54-58 | without normalisation the output is the raw `total`: NaN exactly when the normalised output is, and otherwise the normalised output times `window_total` |
| KonnoOhmachi.NormalisedWithinRange | src/pykooh/smoothing.c:51-58 | the normalised output lies between any lower and upper bound of the spectrum values at the contributing frequencies |
| KonnoOhmachi.NonNegativeOutput | src/pykooh/smoothing.c:51-58 | non-negative spectrum values at the contributing frequencies give a non-negative output |
| KonnoOhmachi.ConstantSpectrumReproduced | src/pykooh/smoothing.c:51-58 | a spectrum equal to `c` at every contributing frequency yields exactly `c`, or NaN when nothing contributes |
| KonnoOhmachi.SkippedFrequencyIrrelevant | src/pykooh/smoothing.c:41-42 | replacing a skipped input frequency by another skipped one, and its spectrum value by any value, leaves the output unchanged |
| KonnoOhmachi.ExactMatchNeverMissing | src/pykooh/smoothing.c:43-44 | a contributing exact match carries weight exactly 1, so `window_total` is at least 1 and the output is never NaN |
| SmoothingC.Config | src/pykooh/smoothing.c:20-23 | the kernel runs with its fixed epsilon 1e-10 and the caller's bandwidth |
| SmoothingC.KonnoOhmachiC | src/pykooh/smoothing.c:16-64 | entry `i < nks` of `ko_smooth` is the value for `ko_freqs[i]` alone: `spec[0]` or 0 below epsilon, the average otherwise. Every other entry of the buffer is unchanged, and the inputs are not written |
| SmoothingC.Centre | src/pykooh/smoothing.c:36-61 | the inner loop and the write after it produce exactly `Average` over the first `ns` input frequencies |
| SmoothingC.WindowC | src/pykooh/smoothing.c:43-50 | the window computed in place (1, or `sin(x) / x` squared twice) equals `Window` |
| SmoothingC.MissingExactlyWithoutWeight | src/pykooh/smoothing.c:25-61 | an entry is NaN if and only if its centre frequency is at or above epsilon and no input frequency carries weight |
| SmoothingC.NonNegativeSpectrumOutput | src/pykooh/smoothing.c:27-61 | a non-negative spectrum gives non-negative entries, in both branches and with or without normalisation |
| SmoothingC.NormalisedWithinSpectrumRange | src/pykooh/smoothing.c:27-58 | with normalisation, an entry lies within the range of the first `ns` spectrum values at a centre frequency at or above epsilon, and below epsilon when `freqs[0]` is below epsilon too. Below epsilon with `freqs[0]` not below it, the entry is 0, the one place it can leave the range |
| SmoothingC.ConstantSpectrumPreserved | src/pykooh/smoothing.c:27-58 | with normalisation, a constant spectrum `c` yields `c` at a centre frequency at or above epsilon (or NaN where no weight accumulates), and below epsilon when `freqs[0]` is below epsilon too. Below epsilon with `freqs[0]` not below it, the entry is 0 |
| SmoothNumba.Smooth | src/pykooh/smooth_numba.py:8-50 | the result is `ZeroDivisionError` for `b == 0`, and `ValueError` if some centre below epsilon has `freqs[i]` not below epsilon. Otherwise it is an array of the length of `ko_freqs`, entry `i` being `spectrum[0]` below epsilon and the normalised average otherwise |
| SmoothNumba.Centre | src/pykooh/smooth_numba.py:27-48 | the inner loop and the write after it produce exactly the normalised `Average` over all input frequencies |
| SmoothNumba.WindowNumba | src/pykooh/smooth_numba.py:35-39 | the window computed in the loop (1, or `(sin(x) / x) ** 4`) equals `Window` |
| SmoothNumba.OutputWithinSpectrumRange | src/pykooh/smooth_numba.py:44-45 | a successful call returns one entry per centre frequency, and every non-NaN entry lies within any bounds of the spectrum |
| SmoothNumba.NonNegativeSpectrumOutput | src/pykooh/smooth_numba.py:16-48 | a non-negative spectrum gives no negative entry |
| SmoothNumba.ConstantSpectrumPreserved | src/pykooh/smooth_numba.py:44-48 | a constant spectrum `c` comes back as `c`, except for NaN where no weight accumulates |
| SmoothNumba.AgreesWithC | src/pykooh/smooth_numba.py:18-48 | under the C epsilon, entry `i` equals the normalised C kernel's entry wherever the two zero-centre tests agree |
| Pykooh.Magnitudes | src/pykooh/__init__.py:26 | `np.abs` keeps the length, and gives each entry or its negation, whichever is non-negative |
| Pykooh.Smooth | src/pykooh/__init__.py:24-33 | the compiled backend is called, on the magnitudes, if and only if it is available and requested (`useCython` defaults to true); otherwise the result is the Numba kernel's on the magnitudes, and it has no negative entry |
| Pykooh.Between | src/pykooh/__init__.py:86-87 | the mask keeps exactly the grid points strictly between the two bounds |
| Pykooh.BetweenIncreasing | src/pykooh/__init__.py:86-87 | masking an increasing grid gives an increasing grid |
| Pykooh.DefaultGrid | src/pykooh/__init__.py:75-87 | IndexError exactly when `freqs` is empty, or when it has one entry and that entry is close to 0. ValueError exactly when `ceil(log10(freqs[-1])) - floor(log10(freqs[start]))` is negative, so `np.logspace` would be asked for a negative number of points. Otherwise the kept points are exactly those of the given log grid strictly between `freqs[start]` and `freqs[-1]`, where `start` is 1 if and only if `freqs[0]` is close to 0 |
| Pykooh.DefaultGridIncreasing | src/pykooh/__init__.py:77-87 | an increasing log-spaced grid gives an increasing default grid |
| Pykooh.NearZeroMasked | src/pykooh/__init__.py:94 | the length is kept, an entry becomes NaN exactly when it was NaN or close to 0, every other entry is unchanged, and no entry close to 0 is left |
| Pykooh.MaskIdempotent | src/pykooh/__init__.py:94 | masking a second time changes nothing |
| Pykooh.LastWhere | src/pykooh/__init__.py:97 | there is no index exactly when no entry satisfies the test; otherwise it is an entry that satisfies it, with none after it |
| Pykooh.Trimmed | src/pykooh/__init__.py:95-99 | IndexError exactly when no entry is close to 0. Otherwise the smoothed part is the longest suffix free of entries close to 0, preceded by one that is close. `freqs_ea` is cut at the same index, so equal input lengths give equal output lengths |
| Pykooh.ApplyMissing | src/pykooh/__init__.py:93-104 | "nan" masks the smoothed array in place, "trim" returns `Trimmed`, and "zero" (the default) returns both arrays unchanged. Any other policy raises NotImplementedError. Only "nan" changes the array |
| Pykooh.NaNSurvivesPolicies | src/pykooh/__init__.py:93-102 | with the only input frequency at 0, the Numba kernel returns `[NaN]` for a centre at 1; that NaN is not close to 0, so "zero" keeps it and "trim" raises IndexError |
| Pykooh.ZeroFilled | src/pykooh/__init__.py:58 | as documented for "zero": the length is kept, no entry is missing, defined entries are unchanged and missing ones become 0 |
| Pykooh.TrimmedToContinuous | src/pykooh/__init__.py:60 | as documented for "trim": the smoothed part is the longest suffix with no NaN and no entry close to 0, preceded by such an entry when anything is cut. `freqs_ea` is cut at the same index, and nothing fails |
| Pykooh.DocumentedPoliciesRemoveNaN | src/pykooh/__init__.py:56-60 | on the smoothed array `[NaN]`, the documented "zero" gives `[0]` and the documented "trim" gives two empty arrays |

## Findings

| source | as written | input that shows it | evidently intended | confidence | as-written member | corrected member |
|---|---|---|---|---|---|---|
| src/pykooh/__init__.py:100-102 | "zero" returns the smoothed array as it is, so an entry the kernel left NaN stays NaN | `freqs = [0]`, `spectrum = [1]`, one centre frequency 1: the kernel gives `[NaN]`, returned as is | missing values become 0, as the docstring at __init__.py:58 says | medium, not executed | Pykooh.NaNSurvivesPolicies | Pykooh.ZeroFilled |
| src/pykooh/__init__.py:95-99 | "trim" cuts only after entries close to 0: NaN entries survive, and with no entry close to 0 the `[-1]` index raises IndexError | the same input: smoothed `[NaN]` has no entry close to 0, so `Trimmed` gives IndexError | keep only the final run of defined values, as the docstring at __init__.py:60 says, without failing | medium, not executed | Pykooh.NaNSurvivesPolicies | Pykooh.TrimmedToContinuous |

`Pykooh.ApplyMissing` keeps the code's behaviour. The documented policies are
defined next to it, and `Pykooh.DocumentedPoliciesRemoveNaN` shows them on
the same input.

## Left out

- IEEE double semantics: rounding, overflow, infinities and NaN inputs are not modelled. Arithmetic is exact over the reals.
- `sin`, `log10` and `pow` are modelled as opaque function values. Only `pow(10, y) > 0` and `log10(r) = 0` only at `r = 1` are assumed about them.
- The two epsilons are the C kernel's constant 1e-10 and a positive parameter for the Numba kernel's machine epsilon. The value of `np.finfo(freqs.dtype).eps` is not computed.
- SmoothingC.KonnoOhmachiC: requires `bw != 0`. With `bw == 0` the C code computes an infinite `max_ratio` and `sin(0) / 0`, which real arithmetic cannot express.
- SmoothingC.KonnoOhmachiC: reads past the end of the C arrays are excluded by preconditions rather than modelled. Aliasing between `ko_smooth` and the input buffers is not modelled: the output array holds `Sample`, so it is distinct from the inputs.
- SmoothNumba.Smooth: Numba does not check bounds, so `InBounds` is a precondition. It asks for `|freqs| <= |spectrum|` and, at every centre below epsilon, for `i < |freqs|`. That is slightly more than the code reads when it raises at an earlier index.
- SmoothNumba.Smooth: the element type of `np.empty_like(ko_freqs)` is not modelled; the result is a sequence of reals or NaN. Which bad index raises first is not observable and is not modelled. `(sin x / x) ** 4` is computed as a square of a square, which is the same real number.
- Pykooh.Smooth: `smooth_cython` is not part of this model. The compiled backend is a function parameter, and whether it could be imported (`has_cython`, __init__.py:7-13) is a boolean parameter.
- Pykooh.Magnitudes: only real spectra are modelled. `np.abs` of a complex spectrum is not.
- `effective_ampl`: the `sqrt` power average (__init__.py:71-73) is not modelled.
- Pykooh.DefaultGrid: the values `np.logspace` produces are a parameter, not tied to `left`, `right` or the count `1 + 100 * ndecades`. The model covers only the failure for a negative count. `log10` of a frequency at or below 0 (infinite or NaN in numpy) and the integer cast of `astype(int)` are not modelled.
- `effective_ampl`: the composition of the grid, the call `smooth(freqs_ea, freqs, avg, 188.5)` and the policy (__init__.py:91) is not written as one operation. Each of its three parts is modelled separately.
- Pykooh.ApplyMissing: `freqs_ea` is taken as a value, since it is only ever reassigned.
- Backend probing, package metadata and import side effects (__init__.py:3-21) are not modelled.
- `CachedSmoother` and a `simplified` keyword appear in the tests but not in `pykooh/__init__.py`, so they are not modelled.

/** The arithmetic both kernels perform after the weights are known: the
    running sums `window_total` (the weights) and `total` (the weighted
    spectrum) over the first `n` input frequencies, and the value emitted
    from them. Nothing here depends on how the weights were obtained. */
module Accumulation {
  import opened Numerics

  /** ws[0] + ... + ws[n - 1]: `window_total` after `n` steps of the inner loop. */
  function WeightSum(ws: seq<real>, n: nat): real
    requires n <= |ws|
  {
    if n == 0 then 0.0 else WeightSum(ws, n - 1) + ws[n - 1]
  }

  /** ws[0] * vs[0] + ... + ws[n - 1] * vs[n - 1]: `total` after `n` steps of the inner loop. */
  function WeightedSum(ws: seq<real>, vs: seq<real>, n: nat): real
    requires n <= |ws| && n <= |vs|
  {
    if n == 0 then 0.0 else WeightedSum(ws, vs, n - 1) + ws[n - 1] * vs[n - 1]
  }

  /** One step of the inner loop adds the weight `w` of entry `j` to
      `window_total` and its weighted value `w * v` to `total` ... */
  lemma AddStep(ws: seq<real>, vs: seq<real>, j: nat, w: real, v: real, windowTotal: real, total: real)
    requires j < |ws| && j < |vs| && ws[j] == w && vs[j] == v
    requires windowTotal == WeightSum(ws, j) && total == WeightedSum(ws, vs, j)
    ensures windowTotal + w == WeightSum(ws, j + 1)
    ensures total + w * v == WeightedSum(ws, vs, j + 1)
  {
  }

  /** ... and a skipped entry, of weight zero, leaves both sums as they are. */
  lemma SkipStep(ws: seq<real>, vs: seq<real>, j: nat, windowTotal: real, total: real)
    requires j < |ws| && j < |vs| && ws[j] == 0.0
    requires windowTotal == WeightSum(ws, j) && total == WeightedSum(ws, vs, j)
    ensures windowTotal == WeightSum(ws, j + 1)
    ensures total == WeightedSum(ws, vs, j + 1)
  {
    assert ws[j] * vs[j] == 0.0;
  }

  /** The first `n` weights are non-negative. */
  ghost predicate NonNegative(ws: seq<real>, n: nat)
    requires n <= |ws|
  {
    forall j :: 0 <= j < n ==> ws[j] >= 0.0
  }

  /** The first `n` weights are all zero. */
  ghost predicate AllZero(ws: seq<real>, n: nat)
    requires n <= |ws|
  {
    forall j :: 0 <= j < n ==> ws[j] == 0.0
  }

  /** The value emitted after the inner loop: `total`, divided by
      `window_total` when normalising, or NaN unless `window_total > 0`. */
  function Emit(ws: seq<real>, vs: seq<real>, n: nat, normalize: bool): Sample
    requires n <= |ws| && n <= |vs|
  {
    var windowTotal := WeightSum(ws, n);
    var total := WeightedSum(ws, vs, n);
    if windowTotal > 0.0 then Value(if normalize then total / windowTotal else total)
    else Missing
  }

  /** Non-negative weights have a non-negative sum, which is zero exactly when every weight is. */
  lemma {:induction false} WeightSumZeroIff(ws: seq<real>, n: nat)
    requires n <= |ws| && NonNegative(ws, n)
    ensures WeightSum(ws, n) >= 0.0
    ensures WeightSum(ws, n) == 0.0 <==> AllZero(ws, n)
  {
    if n > 0 {
      WeightSumZeroIff(ws, n - 1);
    }
  }

  /** With non-negative weights the running sum never decreases: after `i`
      steps it is at least zero and at most its value after `n >= i` steps. */
  lemma {:induction false} WeightSumMonotone(ws: seq<real>, i: nat, n: nat)
    requires i <= n <= |ws| && NonNegative(ws, n)
    ensures 0.0 <= WeightSum(ws, i) <= WeightSum(ws, n)
    decreases n
  {
    if i < n {
      WeightSumMonotone(ws, i, n - 1);
    } else {
      WeightSumZeroIff(ws, n);
    }
  }

  /** With non-negative weights, `window_total` is at least any single weight visited. */
  lemma {:induction false} WeightSumCoversEntry(ws: seq<real>, n: nat, k: nat)
    requires k < n <= |ws| && NonNegative(ws, n)
    ensures ws[k] <= WeightSum(ws, n)
    decreases n
  {
    if k < n - 1 {
      WeightSumCoversEntry(ws, n - 1, k);
    } else {
      WeightSumZeroIff(ws, n - 1);
    }
  }

  /** Without normalisation the output is `total` itself: the normalised
      output scaled back by `window_total`. */
  lemma RawIsScaledMean(ws: seq<real>, vs: seq<real>, n: nat)
    requires n <= |ws| && n <= |vs|
    ensures Emit(ws, vs, n, false).Missing? <==> Emit(ws, vs, n, true).Missing?
    ensures Emit(ws, vs, n, false).Value? ==> Emit(ws, vs, n, false).v == Emit(ws, vs, n, true).v * WeightSum(ws, n)
  {
    var windowTotal := WeightSum(ws, n);
    var total := WeightedSum(ws, vs, n);
    if windowTotal > 0.0 {
      assert (total / windowTotal) * windowTotal == total;
    }
  }

  /** With non-negative weights the output is NaN exactly when every weight is zero. */
  lemma EmitMissingIff(ws: seq<real>, vs: seq<real>, n: nat, normalize: bool)
    requires n <= |ws| && n <= |vs| && NonNegative(ws, n)
    ensures Emit(ws, vs, n, normalize).Missing? <==> AllZero(ws, n)
  {
    WeightSumZeroIff(ws, n);
  }

  /** With non-negative weights, the weighted sum is at least `lo` times the
      sum of the weights when every value of positive weight is at least `lo` ... */
  lemma {:induction false} WeightedSumAtLeast(ws: seq<real>, vs: seq<real>, n: nat, lo: real)
    requires n <= |ws| && n <= |vs|
    requires forall j :: 0 <= j < n ==> ws[j] >= 0.0 && (ws[j] == 0.0 || lo <= vs[j])
    ensures lo * WeightSum(ws, n) <= WeightedSum(ws, vs, n)
  {
    if n > 0 {
      WeightedSumAtLeast(ws, vs, n - 1, lo);
      StepAtLeast(lo, WeightSum(ws, n - 1), WeightedSum(ws, vs, n - 1), ws[n - 1], vs[n - 1]);
    }
  }

  /** ... and at most `hi` times the sum of the weights when every such value is at most `hi`. */
  lemma {:induction false} WeightedSumAtMost(ws: seq<real>, vs: seq<real>, n: nat, hi: real)
    requires n <= |ws| && n <= |vs|
    requires forall j :: 0 <= j < n ==> ws[j] >= 0.0 && (ws[j] == 0.0 || vs[j] <= hi)
    ensures WeightedSum(ws, vs, n) <= hi * WeightSum(ws, n)
  {
    if n > 0 {
      WeightedSumAtMost(ws, vs, n - 1, hi);
      StepAtMost(hi, WeightSum(ws, n - 1), WeightedSum(ws, vs, n - 1), ws[n - 1], vs[n - 1]);
    }
  }

  /** One step of the loop keeps total >= c * window_total when the new value
      is at least c or its weight is zero. */
  lemma StepAtLeast(c: real, sum: real, dot: real, w: real, v: real)
    requires c * sum <= dot && w >= 0.0 && (w == 0.0 || c <= v)
    ensures c * (sum + w) <= dot + w * v
  {
    if w != 0.0 {
      ScaleMonotone(w, c, v);
    }
    assert c * (sum + w) == c * sum + w * c;
  }

  /** One step of the loop keeps total <= c * window_total when the new value
      is at most c or its weight is zero. */
  lemma StepAtMost(c: real, sum: real, dot: real, w: real, v: real)
    requires dot <= c * sum && w >= 0.0 && (w == 0.0 || v <= c)
    ensures dot + w * v <= c * (sum + w)
  {
    if w != 0.0 {
      ScaleMonotone(w, v, c);
    }
    assert c * (sum + w) == c * sum + w * c;
  }

  lemma ScaleMonotone(w: real, a: real, b: real)
    requires w >= 0.0 && a <= b
    ensures w * a <= w * b
  {
    assert w * b - w * a == w * (b - a);
  }

  lemma DivideBounds(a: real, b: real, d: real, c: real)
    requires d > 0.0 && a <= b
    ensures a == c * d ==> c <= b / d
    ensures b == c * d ==> a / d <= c
  {
    if a == c * d {
      assert (b / d) * d == b;
    }
    if b == c * d {
      assert (a / d) * d == a;
    }
  }

  /** A normalised output lies between any bounds of the values of positive weight. */
  lemma MeanWithin(ws: seq<real>, vs: seq<real>, n: nat, lo: real, hi: real)
    requires n <= |ws| && n <= |vs|
    requires forall j :: 0 <= j < n ==> ws[j] >= 0.0 && (ws[j] == 0.0 || lo <= vs[j] <= hi)
    ensures Emit(ws, vs, n, true).Value? ==> lo <= Emit(ws, vs, n, true).v <= hi
  {
    var windowTotal := WeightSum(ws, n);
    var total := WeightedSum(ws, vs, n);
    WeightedSumAtLeast(ws, vs, n, lo);
    WeightedSumAtMost(ws, vs, n, hi);
    if windowTotal > 0.0 {
      DivideBounds(lo * windowTotal, total, windowTotal, lo);
      DivideBounds(total, hi * windowTotal, windowTotal, hi);
    }
  }

  /** Non-negative values of positive weight give a non-negative output, normalised or not. */
  lemma EmitNonNegative(ws: seq<real>, vs: seq<real>, n: nat, normalize: bool)
    requires n <= |ws| && n <= |vs|
    requires forall j :: 0 <= j < n ==> ws[j] >= 0.0 && (ws[j] == 0.0 || 0.0 <= vs[j])
    ensures Emit(ws, vs, n, normalize).Value? ==> Emit(ws, vs, n, normalize).v >= 0.0
  {
    var windowTotal := WeightSum(ws, n);
    var total := WeightedSum(ws, vs, n);
    WeightedSumAtLeast(ws, vs, n, 0.0);
    if windowTotal > 0.0 {
      DivideBounds(0.0 * windowTotal, total, windowTotal, 0.0);
    }
  }

  /** Values that all equal `c` where the weight is positive are reproduced
      exactly by the normalised output, unless every weight is zero. */
  lemma MeanOfConstant(ws: seq<real>, vs: seq<real>, n: nat, c: real)
    requires n <= |ws| && n <= |vs|
    requires forall j :: 0 <= j < n ==> ws[j] >= 0.0 && (ws[j] == 0.0 || vs[j] == c)
    ensures Emit(ws, vs, n, true) == if AllZero(ws, n) then Missing else Value(c)
  {
    MeanWithin(ws, vs, n, c, c);
    EmitMissingIff(ws, vs, n, true);
  }

  /** A value whose weight is zero does not enter the weighted sum. */
  lemma {:induction false} WeightedSumIgnoresZeroWeight(ws: seq<real>, vs: seq<real>, n: nat, k: nat, v: real)
    requires n <= |ws| && n <= |vs| && k < |ws| && k < |vs| && ws[k] == 0.0
    ensures WeightedSum(ws, vs[k := v], n) == WeightedSum(ws, vs, n)
  {
    if n > 0 {
      WeightedSumIgnoresZeroWeight(ws, vs, n - 1, k, v);
    }
  }

  /** Hence a value whose weight is zero does not affect the output. */
  lemma EmitIgnoresZeroWeight(ws: seq<real>, vs: seq<real>, n: nat, normalize: bool, k: nat, v: real)
    requires n <= |ws| && n <= |vs| && k < |ws| && k < |vs| && ws[k] == 0.0
    ensures Emit(ws, vs[k := v], n, normalize) == Emit(ws, vs, n, normalize)
  {
    WeightedSumIgnoresZeroWeight(ws, vs, n, k, v);
  }
}

/** Rolling phase calibration (`CalibrationController` of `calibration.py`). */
module Calibration {
  import opened Prelude
  import opened Wilson

  datatype Config = Config(minSamples: nat, windowSize: nat, minimumSuccessRate: real, minimumQuality: real)

  /** `CalibrationConfig.__post_init__` */
  predicate IsConfig(c: Config) {
    && 1 <= c.minSamples <= c.windowSize
    && 0.0 <= c.minimumSuccessRate <= 1.0 && 0.0 <= c.minimumQuality <= 1.0
  }

  datatype Sample = Sample(success: bool, quality: Option<real>)

  const Z: real := 1.96

  ghost predicate IsSqrt(sqrt: real -> real) {
    forall x :: x >= 0.0 ==> IsRoot(sqrt(x), x)
  }

  function Successes(window: seq<Sample>): (n: nat)
    ensures n <= |window|
  {
    if window == [] then 0 else Successes(window[1..]) + if window[0].success then 1 else 0
  }

  function Qualities(window: seq<Sample>): seq<real> {
    if window == [] then []
    else (match window[0].quality case Some(q) => [q] case None => []) + Qualities(window[1..])
  }

  function Sum(xs: seq<real>): real { if xs == [] then 0.0 else xs[0] + Sum(xs[1..]) }

  function MeanQuality(window: seq<Sample>): Option<real> {
    var qs := Qualities(window);
    if qs == [] then None else Some(Sum(qs) / |qs| as real)
  }

  function SuccessBound(window: seq<Sample>, sqrt: real -> real): real {
    if window == [] then 1.0
    else LowerBound(Successes(window), |window|, Z,
        sqrt(Radicand(Rate(Successes(window), |window|), |window| as real, Z)))
  }

  /** `snapshot(...).disabled` */
  predicate Disabled(c: Config, window: seq<Sample>, sqrt: real -> real) {
    && |window| >= c.minSamples
    && (|| SuccessBound(window, sqrt) < c.minimumSuccessRate
        || (MeanQuality(window).Some? && MeanQuality(window).value < c.minimumQuality))
  }

  /** Appending to `deque(maxlen=size)`. */
  function Push(window: seq<Sample>, x: Sample, size: nat): seq<Sample> {
    var longer := window + [x];
    if |longer| > size then longer[1..] else longer
  }

  function PushAll(window: seq<Sample>, xs: seq<Sample>, size: nat): seq<Sample> {
    if xs == [] then window else Push(PushAll(window, xs[..|xs| - 1], size), xs[|xs| - 1], size)
  }

  /** `record` accepts qualities between zero and one. */
  predicate IsQuality(q: Option<real>) { q.Some? ==> 0.0 <= q.value <= 1.0 }

  function SampleOf(c: Config, status: string, quality: Option<real>): Sample {
    Sample(status in ["applied", "skipped"] && (quality.None? || quality.value >= c.minimumQuality), quality)
  }

  class CalibrationController {
    const config: Config
    const normalize: string -> string
    var samples: map<string, seq<Sample>>

    ghost predicate Valid()
      reads this
    {
      IsConfig(config) && forall name :: name in samples ==> 0 < |samples[name]| <= config.windowSize
    }

    constructor (config: Config, normalize: string -> string)
      requires IsConfig(config)
      ensures Valid() && samples == map[] && this.config == config && this.normalize == normalize
    {
      this.config, this.normalize, samples := config, normalize, map[];
    }

    /** `_canonical_name`; `normalize` is `value.strip().lower()`. */
    function CanonicalName(name: string): string {
      var n := normalize(name);
      if n == "compression" then "compress" else n
    }

    function Window(name: string): seq<Sample>
      reads this
    {
      if CanonicalName(name) in samples then samples[CanonicalName(name)] else []
    }

    /** Returns false where the source raises `ValueError`. */
    method Record(name: string, status: string, quality: Option<real>) returns (accepted: bool)
      requires Valid()
      modifies this
      ensures Valid() && accepted == IsQuality(quality)
      ensures accepted <==> quality.None? || 0.0 <= quality.value <= 1.0
      ensures !accepted ==> samples == old(samples)
      ensures accepted ==>
        samples == old(samples)[CanonicalName(name) :=
            Push(old(Window(name)), SampleOf(config, status, quality), config.windowSize)]
    {
      if quality.Some? && !(0.0 <= quality.value <= 1.0) {
        return false;
      }
      var window := Window(name) + [SampleOf(config, status, quality)];
      if |window| > config.windowSize {
        window := window[1..];
      }
      samples := samples[CanonicalName(name) := window];
      return true;
    }
  }

  /* ---------- The window over a whole history ---------- */

  function LastOf(xs: seq<Sample>, size: nat): seq<Sample> { if |xs| <= size then xs else xs[|xs| - size..] }

  /** The window is the last `size` samples of what was there before and everything recorded since. */
  lemma {:induction false} WindowIsSuffix(window: seq<Sample>, xs: seq<Sample>, size: nat)
    requires size > 0 && |window| <= size
    ensures PushAll(window, xs, size) == LastOf(window + xs, size)
  {
    if xs == [] {
      assert window + xs == window;
    } else {
      var n := |xs| - 1;
      WindowIsSuffix(window, xs[..n], size);
      PushIsSuffix(window + xs[..n], xs[n], size);
      assert window + xs[..n] + [xs[n]] == window + xs;
    }
  }

  lemma PushIsSuffix(all: seq<Sample>, x: Sample, size: nat)
    requires size > 0
    ensures Push(LastOf(all, size), x, size) == LastOf(all + [x], size)
  {}

  /** No phase is disabled before it has `minSamples` samples. */
  lemma EnabledBeforeMinSamples(c: Config, xs: seq<Sample>, sqrt: real -> real)
    requires IsConfig(c) && |xs| < c.minSamples
    ensures !Disabled(c, PushAll([], xs, c.windowSize), sqrt)
  {
    WindowIsSuffix([], xs, c.windowSize);
    assert [] + xs == xs;
  }

  /* ---------- What the verdict on a window means ---------- */

  /** How many samples are successes, how many carry a quality, and the sum of these, from the last sample on. */
  function Succeeded(window: seq<Sample>): nat {
    if window == [] then 0
    else Succeeded(window[..|window| - 1]) + if window[|window| - 1].success then 1 else 0
  }

  lemma {:induction false} SuccessesAppend(a: seq<Sample>, b: seq<Sample>)
    ensures Successes(a + b) == Successes(a) + Successes(b)
  {
    if a == [] {
      assert a + b == b;
    } else {
      assert (a + b)[1..] == a[1..] + b;
      SuccessesAppend(a[1..], b);
    }
  }

  lemma {:induction false} SuccessesAreCounted(window: seq<Sample>)
    ensures Successes(window) == Succeeded(window)
  {
    if window != [] {
      var front, last := window[..|window| - 1], window[|window| - 1];
      SuccessesAreCounted(front);
      SuccessesAppend(front, [last]);
      assert front + [last] == window && Successes([last]) == if last.success then 1 else 0;
    }
  }

  function Rated(window: seq<Sample>): nat {
    if window == [] then 0
    else Rated(window[..|window| - 1]) + if window[|window| - 1].quality.Some? then 1 else 0
  }

  function TotalQuality(window: seq<Sample>): real {
    if window == [] then 0.0
    else TotalQuality(window[..|window| - 1]) + window[|window| - 1].quality.GetOr(0.0)
  }

  lemma {:induction false} QualitiesAppend(a: seq<Sample>, b: seq<Sample>)
    ensures Qualities(a + b) == Qualities(a) + Qualities(b)
  {
    if a == [] {
      assert a + b == b;
    } else {
      assert (a + b)[1..] == a[1..] + b;
      QualitiesAppend(a[1..], b);
    }
  }

  lemma {:induction false} SumAppend(a: seq<real>, b: seq<real>)
    ensures Sum(a + b) == Sum(a) + Sum(b)
  {
    if a == [] {
      assert a + b == b;
    } else {
      assert (a + b)[1..] == a[1..] + b;
      SumAppend(a[1..], b);
    }
  }

  lemma {:induction false} QualitiesAreCounted(window: seq<Sample>)
    ensures |Qualities(window)| == Rated(window) && Sum(Qualities(window)) == TotalQuality(window)
  {
    if window != [] {
      var front, last := window[..|window| - 1], window[|window| - 1];
      QualitiesAreCounted(front);
      QualitiesAppend(front, [last]);
      assert front + [last] == window && Qualities([last]) == (if last.quality.Some? then [last.quality.value] else []);
      SumAppend(Qualities(front), Qualities([last]));
    }
  }

  lemma MeanIsQuotient(window: seq<Sample>, total: real, count: nat)
    requires total == TotalQuality(window) && count == Rated(window)
    ensures MeanQuality(window) == if count == 0 then None else Some(total / count as real)
  {
    QualitiesAreCounted(window);
  }

  /** The mean of the qualities that are there. */
  lemma MeanIsMean(window: seq<Sample>)
    ensures MeanQuality(window).Some? <==> Rated(window) > 0
    ensures Rated(window) > 0 ==> MeanQuality(window).value * Rated(window) as real == TotalQuality(window)
  {
    MeanIsQuotient(window, TotalQuality(window), Rated(window));
    if Rated(window) > 0 {
      DivideMultiply(TotalQuality(window), Rated(window) as real);
    }
  }

  lemma BelowMeans(total: real, count: nat, m: real, mean: Option<real>)
    requires mean == if count == 0 then None else Some(total / count as real)
    ensures mean.Some? && mean.value < m <==> count > 0 && total < m * count as real
  {
    if count > 0 {
      QuotientAtLeast(total, count as real, m);
    }
  }

  lemma MeanBelow(window: seq<Sample>, m: real, total: real, count: nat, mean: Option<real>)
    requires total == TotalQuality(window) && count == Rated(window) && mean == MeanQuality(window)
    ensures mean.Some? && mean.value < m <==> count > 0 && total < m * count as real
  {
    MeanIsQuotient(window, total, count);
    BelowMeans(total, count, m, mean);
  }

  /** A window with enough samples is disabled by its success bound, or by a mean quality below the minimum. */
  lemma VerdictMeans(c: Config, window: seq<Sample>, sqrt: real -> real, bound: real, total: real, count: nat)
    requires bound == SuccessBound(window, sqrt) && total == TotalQuality(window) && count == Rated(window)
    ensures Disabled(c, window, sqrt) <==>
      |window| >= c.minSamples
      && (bound < c.minimumSuccessRate || (count > 0 && total < c.minimumQuality * count as real))
  {
    var mean := MeanQuality(window);
    MeanBelow(window, c.minimumQuality, total, count, mean);
    DisabledBy(c, window, sqrt, bound, mean);
  }

  lemma DisabledBy(c: Config, window: seq<Sample>, sqrt: real -> real, bound: real, mean: Option<real>)
    requires bound == SuccessBound(window, sqrt) && mean == MeanQuality(window)
    ensures Disabled(c, window, sqrt) <==>
      |window| >= c.minSamples
      && (bound < c.minimumSuccessRate || (mean.Some? && mean.value < c.minimumQuality))
  {}

  /** The success bound of a window is Wilson's for its successes: below their rate, where his equation holds. */
  lemma BoundMeans(window: seq<Sample>, sqrt: real -> real, bound: real)
    requires IsSqrt(sqrt) && window != [] && bound == SuccessBound(window, sqrt)
    ensures IsWilson(Succeeded(window), |window|, bound)
  {
    var s, n := Successes(window), |window|;
    SuccessesAreCounted(window);
    RadicandNonNegative(s, n);
    WilsonBound(s, n, sqrt(Radicand(Rate(s, n), n as real, Z)), bound);
  }

  ghost predicate IsWilson(s: nat, n: nat, w: real)
    requires n > 0
  {
    var p := Rate(s, n);
    0.0 <= w <= p && (p - w) * (p - w) == (Z * Z / n as real) * (w * (1.0 - w))
  }

  lemma WilsonBound(s: nat, n: nat, root: real, bound: real)
    requires 0 < n && s <= n && IsRootOf(root, s, n, Z) && bound == LowerBound(s, n, Z, root)
    ensures IsWilson(s, n, bound)
  {
    BoundInRange(s, n, Z, root);
    BoundSolves(s, n, Z, root);
  }

  /** One low quality among high ones does not disable a phase; the mean decides. */
  lemma MixedWindow(c: Config, window: seq<Sample>, sqrt: real -> real)
    requires c.minimumQuality == 0.5 && |window| == 3
    requires window[0].quality == Some(0.1) && window[1].quality == window[2].quality == Some(0.9)
    ensures Disabled(c, window, sqrt) <==> 3 >= c.minSamples && SuccessBound(window, sqrt) < c.minimumSuccessRate
  {
    var two, one := window[..2], window[..1];
    assert two[..1] == one && one[..0] == [];
    assert Rated(one) == 1 && TotalQuality(one) == 0.1;
    assert Rated(two) == 2 && TotalQuality(two) == 1.0;
    VerdictMeans(c, window, sqrt, SuccessBound(window, sqrt), 1.9, 3);
  }

  /** Two spellings of a phase share a window exactly when their canonical names agree. */
  lemma CompressionIsCompress(controller: CalibrationController, a: string, b: string)
    ensures controller.normalize(a) == controller.normalize(b) ==>
        controller.CanonicalName(a) == controller.CanonicalName(b)
    ensures controller.normalize(a) == "compression" && controller.normalize(b) == "compress" ==>
      controller.CanonicalName(a) == controller.CanonicalName(b)
    ensures controller.CanonicalName(a) == controller.CanonicalName(b) ==>
      || controller.normalize(a) == controller.normalize(b)
      || {controller.normalize(a), controller.normalize(b)} == {"compression", "compress"}
  {}

  /* ---------- What brings a disabled phase back ---------- */

  /** A success that carries no quality below the minimum: what a phase that runs as the identity reports. */
  predicate IsGood(c: Config, x: Sample) { x.success && (x.quality.Some? ==> x.quality.value >= c.minimumQuality) }

  /** A sample with a quality below the minimum; it is no success, whatever the report says. */
  predicate IsLow(c: Config, x: Sample) { !x.success && x.quality.Some? && x.quality.value < c.minimumQuality }

  /** A skipped report is good or low, depending on its quality alone; with a low quality every report is low. */
  lemma QualityDecides(c: Config, status: string, quality: Option<real>)
    ensures SampleOf(c, status, quality).quality == quality
    ensures SampleOf(c, status, quality).success <==>
      (status == "applied" || status == "skipped") && !(quality.Some? && quality.value < c.minimumQuality)
    ensures IsLow(c, SampleOf(c, status, quality)) <==> quality.Some? && quality.value < c.minimumQuality
    ensures IsGood(c, SampleOf(c, "skipped", quality)) <==> !IsLow(c, SampleOf(c, status, quality))
  {}

  lemma {:induction false} SumAtLeast(xs: seq<real>, m: real)
    requires forall i :: 0 <= i < |xs| ==> xs[i] >= m
    ensures Sum(xs) >= m * |xs| as real
  {
    if xs != [] {
      SumAtLeast(xs[1..], m);
    }
  }

  lemma {:induction false} SumBelow(xs: seq<real>, m: real)
    requires xs != [] && forall i :: 0 <= i < |xs| ==> xs[i] < m
    ensures Sum(xs) < m * |xs| as real
  {
    if |xs| > 1 {
      SumBelow(xs[1..], m);
    }
  }

  lemma QuotientAtLeast(a: real, b: real, m: real)
    requires b > 0.0
    ensures a / b >= m <==> a >= m * b
  {
    assert a == a / b * b;
  }

  lemma {:induction false} GoodQualities(c: Config, window: seq<Sample>)
    requires forall i :: 0 <= i < |window| ==> IsGood(c, window[i])
    ensures Successes(window) == |window|
    ensures forall i :: 0 <= i < |Qualities(window)| ==> Qualities(window)[i] >= c.minimumQuality
  {
    if window != [] {
      GoodQualities(c, window[1..]);
    }
  }

  lemma {:induction false} LowQualities(c: Config, window: seq<Sample>)
    requires forall i :: 0 <= i < |window| ==> IsLow(c, window[i])
    ensures |Qualities(window)| == |window|
    ensures forall i :: 0 <= i < |Qualities(window)| ==> Qualities(window)[i] < c.minimumQuality
  {
    if window != [] {
      LowQualities(c, window[1..]);
    }
  }

  /** A window of good samples is disabled only by the success bound of its length. */
  lemma GoodWindow(c: Config, window: seq<Sample>, sqrt: real -> real)
    requires IsSqrt(sqrt) && window != [] && forall i :: 0 <= i < |window| ==> IsGood(c, window[i])
    ensures Disabled(c, window, sqrt) <==> |window| >= c.minSamples && AllSuccesses(|window|, Z) < c.minimumSuccessRate
  {
    var qs := Qualities(window);
    GoodQualities(c, window);
    BoundAtMostAllSuccesses(window, sqrt);
    if qs != [] {
      SumAtLeast(qs, c.minimumQuality);
      QuotientAtLeast(Sum(qs), |qs| as real, c.minimumQuality);
    }
  }

  lemma LowWindow(c: Config, window: seq<Sample>, sqrt: real -> real)
    requires IsConfig(c) && |window| >= c.minSamples && forall i :: 0 <= i < |window| ==> IsLow(c, window[i])
    ensures Disabled(c, window, sqrt)
  {
    var qs := Qualities(window);
    LowQualities(c, window);
    SumBelow(qs, c.minimumQuality);
    QuotientAtLeast(Sum(qs), |qs| as real, c.minimumQuality);
  }

  /** With only successes the bound is n/(n+z*z); in general it is at most that. */
  lemma {:induction false} BoundAtMostAllSuccesses(window: seq<Sample>, sqrt: real -> real)
    requires IsSqrt(sqrt) && window != []
    ensures SuccessBound(window, sqrt) <= AllSuccesses(|window|, Z)
    ensures Successes(window) == |window| ==> SuccessBound(window, sqrt) == AllSuccesses(|window|, Z)
  {
    var s, n := Successes(window), |window|;
    RadicandNonNegative(s, n);
    RadicandNonNegative(n, n);
    var full := sqrt(Radicand(Rate(n, n), n as real, Z));
    BoundOfAllSuccesses(n, Z, full);
    if s < n {
      BoundIncreases(s, n, n, Z, sqrt(Radicand(Rate(s, n), n as real, Z)), full);
    }
  }

  lemma RadicandNonNegative(s: nat, n: nat)
    requires 0 < n && s <= n
    ensures Radicand(Rate(s, n), n as real, Z) >= 0.0
  {
    var p, x := Rate(s, n), n as real;
    RateInRange(s, n);
    ProductSign(p, 1.0 - p);
    NonNegativeQuotient(p * (1.0 - p), x);
    ProductSign(4.0 * x, x);
    NonNegativeQuotient(Z * Z, 4.0 * x * x);
  }

  /** The largest bound a full window can reach. */
  predicate CanRecover(c: Config)
    requires IsConfig(c)
  {
    AllSuccesses(c.windowSize, Z) >= c.minimumSuccessRate
  }

  /**
   * Which samples bring a disabled phase back. When a full window of successes passes the gate, `windowSize` good
   * samples do; when it does not, nothing ever does. And `windowSize` low samples disable any phase.
   */
  lemma FeedbackRecovers(c: Config, window: seq<Sample>, xs: seq<Sample>, sqrt: real -> real)
    requires IsConfig(c) && IsSqrt(sqrt) && |window| <= c.windowSize
    ensures CanRecover(c) && |xs| >= c.windowSize && (forall i :: 0 <= i < |xs| ==> IsGood(c, xs[i])) ==>
      !Disabled(c, PushAll(window, xs, c.windowSize), sqrt)
    ensures !CanRecover(c) && |window| >= c.minSamples ==> Disabled(c, PushAll(window, xs, c.windowSize), sqrt)
    ensures |xs| >= c.windowSize && (forall i :: 0 <= i < |xs| ==> IsLow(c, xs[i])) ==>
      Disabled(c, PushAll(window, xs, c.windowSize), sqrt)
  {
    var w := PushAll(window, xs, c.windowSize);
    WindowIsSuffix(window, xs, c.windowSize);
    if |xs| >= c.windowSize {
      assert forall i :: 0 <= i < |w| ==> w[i] == xs[|xs| - |w| + i];
      if forall i :: 0 <= i < |xs| ==> IsGood(c, xs[i]) {
        GoodWindow(c, w, sqrt);
      }
      if forall i :: 0 <= i < |xs| ==> IsLow(c, xs[i]) {
        LowWindow(c, w, sqrt);
      }
    }
    if !CanRecover(c) && |window| >= c.minSamples {
      BoundAtMostAllSuccesses(w, sqrt);
      AllSuccessesGrows(|w|, c.windowSize, Z);
    }
  }

  /** `gate` is the verdict on a window: does the controller disable the phase? */
  ghost predicate IsGate(gate: seq<Sample> -> bool, c: Config, sqrt: real -> real) {
    IsConfig(c) && IsSqrt(sqrt) && forall w {:trigger Disabled(c, w, sqrt)} :: gate(w) <==> Disabled(c, w, sqrt)
  }

  lemma GateRecovers(gate: seq<Sample> -> bool, c: Config, window: seq<Sample>, xs: seq<Sample>, sqrt: real -> real)
    requires IsGate(gate, c, sqrt) && |window| <= c.windowSize
    ensures CanRecover(c) && |xs| >= c.windowSize && (forall i :: 0 <= i < |xs| ==> IsGood(c, xs[i])) ==>
      !gate(PushAll(window, xs, c.windowSize))
    ensures !CanRecover(c) && gate(window) ==> gate(PushAll(window, xs, c.windowSize))
    ensures |xs| >= c.windowSize && (forall i :: 0 <= i < |xs| ==> IsLow(c, xs[i])) ==>
      gate(PushAll(window, xs, c.windowSize))
  {
    FeedbackRecovers(c, window, xs, sqrt);
    assert gate(window) <==> Disabled(c, window, sqrt);
  }
}

/** Choosing how many items to keep (`adaptive_sizer.py`), over exact arithmetic; an item is its list of words. */
module AdaptiveSizer {
  import Simhash
  import Wilson

  type Item = seq<string>
  type Bigram = (string, string)

  /** The pairs of neighbouring words, each as often as it occurs. */
  function BigramsOf(item: Item): multiset<Bigram> {
    if |item| < 2 then multiset{}
    else BigramsOf(item[..|item| - 1]) + multiset{(item[|item| - 2], item[|item| - 1])}
  }

  function AllBigrams(items: seq<Item>): multiset<Bigram> {
    if items == [] then multiset{} else AllBigrams(items[..|items| - 1]) + BigramsOf(items[|items| - 1])
  }

  /** Number of distinct bigrams. */
  function Distinct(items: seq<Item>): nat { |set b | b in AllBigrams(items)| }

  function Least(a: nat, b: nat): nat { if a <= b then a else b }

  /* ---------- Counting and ranking ---------- */

  predicate NoDuplicates(s: seq<Bigram>) { forall i, j :: 0 <= i < j < |s| ==> s[i] != s[j] }

  /** A counter: the keys in insertion order and their counts. */
  datatype Counter = Counter(keys: seq<Bigram>, counts: map<Bigram, nat>)

  ghost predicate Counts(c: Counter, bigrams: multiset<Bigram>) {
    && NoDuplicates(c.keys) && (forall b :: b in c.keys <==> b in bigrams)
    && forall b :: (b in c.counts <==> b in bigrams) && CountOf(c, b) == bigrams[b]
  }

  /** `all_bigrams[b] += 1` */
  function Increment(c: Counter, b: Bigram): Counter {
    if b in c.counts then Counter(c.keys, c.counts[b := c.counts[b] + 1])
    else Counter(c.keys + [b], c.counts[b := 1])
  }

  lemma IncrementCounts(c: Counter, bigrams: multiset<Bigram>, b: Bigram)
    requires Counts(c, bigrams)
    ensures Counts(Increment(c, b), bigrams + multiset{b})
  {
    assert CountOf(c, b) == bigrams[b];
  }

  lemma OneMoreWord(words: Item, i: nat)
    requires i + 1 < |words|
    ensures BigramsOf(words[..i + 2]) == BigramsOf(words[..i + 1]) + multiset{(words[i], words[i + 1])}
  {
    assert words[..i + 2][..i + 1] == words[..i + 1];
  }

  method CountWords(words: Item, given: Counter, ghost bigrams: multiset<Bigram>) returns (c: Counter)
    requires Counts(given, bigrams)
    ensures Counts(c, bigrams + BigramsOf(words))
  {
    c := given;
    if |words| < 2 {
      return;
    }
    ghost var counted := bigrams;
    for i := 0 to |words| - 1
      invariant Counts(c, counted) && counted == bigrams + BigramsOf(words[..i + 1])
    {
      OneMoreWord(words, i);
      IncrementCounts(c, counted, (words[i], words[i + 1]));
      c := Increment(c, (words[i], words[i + 1]));
      counted := counted + multiset{(words[i], words[i + 1])};
    }
    assert words[..|words| - 1 + 1] == words;
  }

  method CountBigrams(items: seq<Item>) returns (c: Counter)
    ensures Counts(c, AllBigrams(items))
  {
    c := Counter([], map[]);
    for k := 0 to |items|
      invariant Counts(c, AllBigrams(items[..k]))
    {
      assert items[..k + 1][..k] == items[..k];
      c := CountWords(items[k], c, AllBigrams(items[..k]));
    }
    assert items[..|items|] == items;
  }

  ghost predicate Descends(c: Counter, ranked: seq<Bigram>) {
    forall i, j :: 0 <= i < j < |ranked| ==> CountOf(c, ranked[i]) >= CountOf(c, ranked[j])
  }

  /** Stable insertion by descending count. */
  function Rank(c: Counter, ranked: seq<Bigram>, b: Bigram): (r: seq<Bigram>)
    ensures forall x :: x in r <==> x in ranked || x == b
    ensures NoDuplicates(ranked) && b !in ranked ==> NoDuplicates(r)
  {
    if ranked == [] then [b]
    else if CountOf(c, b) > CountOf(c, ranked[0]) then [b] + ranked
    else
      var rest := Rank(c, ranked[1..], b);
      assert forall x :: x in ranked <==> x == ranked[0] || x in ranked[1..];
      assert forall j :: 0 <= j < |rest| ==> rest[j] in rest;
      [ranked[0]] + rest
  }

  lemma {:induction false} RankDescends(c: Counter, ranked: seq<Bigram>, b: Bigram)
    requires Descends(c, ranked)
    ensures Descends(c, Rank(c, ranked, b))
  {
    if ranked != [] && CountOf(c, b) <= CountOf(c, ranked[0]) {
      RankDescends(c, ranked[1..], b);
      LeadDescends(c, ranked[0], Rank(c, ranked[1..], b));
    }
  }

  lemma LeadDescends(c: Counter, top: Bigram, rest: seq<Bigram>)
    requires Descends(c, rest) && forall x :: x in rest ==> CountOf(c, top) >= CountOf(c, x)
    ensures Descends(c, [top] + rest)
  {
    forall i, j | 0 <= i < j < |rest| + 1 ensures CountOf(c, ([top] + rest)[i]) >= CountOf(c, ([top] + rest)[j]) {
      assert rest[j - 1] in rest;
    }
  }

  function CountOf(c: Counter, b: Bigram): nat { if b in c.counts then c.counts[b] else 0 }

  /** `sorted(counter.items(), key=count, reverse=True)` */
  function Ranked(c: Counter, keys: seq<Bigram>): (r: seq<Bigram>)
    requires NoDuplicates(keys)
    ensures Descends(c, r) && NoDuplicates(r) && forall x :: x in r <==> x in keys
  {
    if keys == [] then []
    else
      var n := |keys| - 1;
      assert forall x :: x in keys <==> x in keys[..n] || x == keys[n];
      RankDescends(c, Ranked(c, keys[..n]), keys[n]);
      Rank(c, Ranked(c, keys[..n]), keys[n])
  }

  function Elements(s: seq<Bigram>): set<Bigram> { set b | b in s }

  lemma {:induction false} DistinctLength(s: seq<Bigram>)
    requires NoDuplicates(s)
    ensures |Elements(s)| == |s|
  {
    if s != [] {
      var n := |s| - 1;
      DistinctLength(s[..n]);
      assert s[n] !in Elements(s[..n]);
      assert Elements(s) == Elements(s[..n]) + {s[n]};
    }
  }

  /* ---------- Coverage ---------- */

  /** Coverage after the `j` most frequent bigrams. */
  function CoverageAt(total: nat, j: nat): real {
    if total == 0 then 1.0 else Least(j, total) as real / total as real
  }

  ghost predicate IsCoverage(coverage: seq<(nat, real)>, total: nat) {
    forall i :: 0 <= i < |coverage| ==> coverage[i] == (i + 1, CoverageAt(total, i + 1))
  }

  lemma TopBigrams(ranked: seq<Bigram>, i: nat)
    requires NoDuplicates(ranked) && i >= 1
    ensures var top := Elements(ranked[..Least(i, |ranked|)]);
            Elements(ranked[..Least(i - 1, |ranked|)]) + top == top && |top| == Least(i, |ranked|)
  {
    DistinctLength(ranked[..Least(i, |ranked|)]);
    assert ranked[..Least(i - 1, |ranked|)] <= ranked[..Least(i, |ranked|)];
  }

  lemma NextPoint(coverage: seq<(nat, real)>, total: nat, covered: nat)
    requires IsCoverage(coverage, total) && total > 0 && covered == Least(|coverage| + 1, total)
    ensures IsCoverage(coverage + [(|coverage| + 1, covered as real / total as real)], total)
  {}

  /** The loop that adds the top bigrams to `cumulative`, one more in each round. */
  method CoverageCurve(ranked: seq<Bigram>, n: nat) returns (coverage: seq<(nat, real)>)
    requires NoDuplicates(ranked) && ranked != []
    ensures |coverage| == n && IsCoverage(coverage, |ranked|)
  {
    coverage := [];
    var cumulative: set<Bigram> := {};
    for i := 1 to n + 1
      invariant |coverage| == i - 1 && IsCoverage(coverage, |ranked|)
      invariant cumulative == Elements(ranked[..Least(i - 1, |ranked|)])
    {
      TopBigrams(ranked, i);
      cumulative := cumulative + Elements(ranked[..Least(i, |ranked|)]);
      NextPoint(coverage, |ranked|, |cumulative|);
      coverage := coverage + [(i, |cumulative| as real / |ranked| as real)];
    }
  }

  method RankBigrams(items: seq<Item>) returns (ranked: seq<Bigram>)
    ensures NoDuplicates(ranked) && |ranked| == Distinct(items)
    ensures forall b :: b in ranked <==> b in AllBigrams(items)
    ensures forall i, j :: 0 <= i < j < |ranked| ==> AllBigrams(items)[ranked[i]] >= AllBigrams(items)[ranked[j]]
  {
    var counter := CountBigrams(items);
    ranked := Ranked(counter, counter.keys);
    assert Elements(ranked) == set b | b in AllBigrams(items);
    DistinctLength(ranked);
  }

  method ComputeBigramCoverage(items: seq<Item>) returns (coverage: seq<(nat, real)>)
    ensures |coverage| == |items| && IsCoverage(coverage, Distinct(items))
  {
    var ranked := RankBigrams(items);
    if ranked == [] {
      coverage := seq(|items|, i => (i + 1, 1.0));
    } else {
      coverage := CoverageCurve(ranked, |items|);
    }
  }

  /* ---------- The knee ---------- */

  /** Height of the curve over the diagonal. */
  function Distance(coverage: seq<(nat, real)>, i: nat): real
    requires i < |coverage|
  {
    coverage[i].1 - (i + 1) as real / |coverage| as real
  }

  /** The first position of the largest positive distance; `|coverage|` when the curve stays below the diagonal. */
  ghost predicate IsKnee(coverage: seq<(nat, real)>, k: nat) {
    if forall i :: 0 <= i < |coverage| ==> Distance(coverage, i) <= 0.0 then k == if coverage == [] then 1
        else |coverage|
    else exists i :: 0 <= i < |coverage| && IsPeak(coverage, i) && k == if coverage[i].0 >= 1 then coverage[i].0 else 1
  }

  ghost predicate IsPeak(coverage: seq<(nat, real)>, i: nat)
    requires i < |coverage|
  {
    && Distance(coverage, i) > 0.0
    && (forall j :: 0 <= j < i ==> Distance(coverage, j) < Distance(coverage, i))
    && (forall j :: i < j < |coverage| ==> Distance(coverage, j) <= Distance(coverage, i))
  }

  method FindKnee(coverage: seq<(nat, real)>) returns (k: nat)
    ensures IsKnee(coverage, k)
  {
    if coverage == [] {
      return 1;
    }
    var maxDist, knee, found := 0.0, 0, false;
    ghost var at := 0;
    for i := 0 to |coverage|
      invariant !found ==> maxDist == 0.0
      invariant found ==> at < i && knee == coverage[at].0 && maxDist == Distance(coverage, at) > 0.0
      invariant found ==> forall j :: 0 <= j < at ==> Distance(coverage, j) < maxDist
      invariant forall j :: 0 <= j < i ==> Distance(coverage, j) <= maxDist
    {
      var dist := coverage[i].1 - (i + 1) as real / |coverage| as real;
      if dist > maxDist {
        maxDist, knee, found, at := dist, coverage[i].0, true, i;
      }
    }
    if !found {
      return |coverage|;
    }
    assert IsPeak(coverage, at);
    k := if knee >= 1 then knee else 1;
  }

  /** Up to `total` the distance rises, or falls, by this much a step. */
  function Slope(total: nat, n: nat): real
    requires total > 0 && n > 0
  {
    1.0 / total as real - 1.0 / n as real
  }

  lemma DistanceBelow(coverage: seq<(nat, real)>, total: nat, i: nat)
    requires total > 0 && IsCoverage(coverage, total) && i < |coverage| && i + 1 <= total
    ensures Distance(coverage, i) == (i + 1) as real * Slope(total, |coverage|)
  {
    TwoQuotients((i + 1) as real, total as real, |coverage| as real);
  }

  lemma TwoQuotients(x: real, t: real, n: real)
    requires t > 0.0 && n > 0.0
    ensures x / t - x / n == x * (1.0 / t - 1.0 / n)
  {
    UnitQuotient(x, t);
    UnitQuotient(x, n);
    assert x * (1.0 / t - 1.0 / n) == x * (1.0 / t) - x * (1.0 / n);
  }

  lemma UnitQuotient(x: real, t: real)
    requires t > 0.0
    ensures x / t == x * (1.0 / t)
  {
    Wilson.DivideMultiply(x, t);
    Wilson.DivideMultiply(1.0, t);
    assert x * (1.0 / t) * t == x * ((1.0 / t) * t);
    Wilson.Cancel(x / t, x * (1.0 / t), t);
  }

  /** Beyond `total` the curve is flat and the diagonal keeps rising. */
  lemma DistanceAbove(coverage: seq<(nat, real)>, total: nat, i: nat)
    requires total > 0 && IsCoverage(coverage, total) && i < |coverage| && i + 1 >= total
    ensures Distance(coverage, i) == 1.0 - (i + 1) as real / |coverage| as real
  {
    SelfQuotient(total);
  }

  lemma SelfQuotient(t: nat)
    requires t > 0
    ensures t as real / t as real == 1.0
  {}

  lemma SlopeSign(total: nat, n: nat)
    requires total > 0 && n > 0
    ensures total < n ==> Slope(total, n) > 0.0
    ensures total >= n ==> Slope(total, n) <= 0.0
  {
    if total < n {
      SmallerReciprocal(total as real, n as real);
    } else if total > n {
      SmallerReciprocal(n as real, total as real);
    }
  }

  lemma SmallerReciprocal(x: real, y: real)
    requires 0.0 < x < y
    ensures 1.0 / x > 1.0 / y
  {
    var u, v := 1.0 / x, 1.0 / y;
    Wilson.DivideMultiply(1.0, x);
    Wilson.DivideMultiply(1.0, y);
    assert v * x < v * y;
    Wilson.Compare(v, u, x);
  }

  /** A strict maximum above the diagonal is the knee. */
  lemma KneeAtPeak(coverage: seq<(nat, real)>, k: nat, top: nat)
    requires IsKnee(coverage, k) && top < |coverage| && Distance(coverage, top) > 0.0
    requires forall i :: 0 <= i < |coverage| && i != top ==> Distance(coverage, i) < Distance(coverage, top)
    ensures k == if coverage[top].0 >= 1 then coverage[top].0 else 1
  {
    var i :| 0 <= i < |coverage| && IsPeak(coverage, i) && k == if coverage[i].0 >= 1 then coverage[i].0 else 1;
    assert i == top;
  }

  /** The search collapses to a formula: the knee is `min(total, n)`, or 1 when there are no bigrams. */
  lemma KneeClosedForm(coverage: seq<(nat, real)>, total: nat, k: nat)
    requires coverage != [] && IsCoverage(coverage, total) && IsKnee(coverage, k)
    ensures k == if total == 0 then 1 else Least(total, |coverage|)
  {
    if total == 0 {
      KneeWithoutBigrams(coverage, k);
    } else if total >= |coverage| {
      NeverAboveDiagonal(coverage, total);
    } else {
      PeakAtTotal(coverage, total);
      KneeAtPeak(coverage, k, total - 1);
    }
  }

  lemma NeverAboveDiagonal(coverage: seq<(nat, real)>, total: nat)
    requires coverage != [] && IsCoverage(coverage, total) && total >= |coverage|
    ensures forall i :: 0 <= i < |coverage| ==> Distance(coverage, i) <= 0.0
  {
    SlopeSign(total, |coverage|);
    forall i | 0 <= i < |coverage| ensures Distance(coverage, i) <= 0.0 {
      DistanceBelow(coverage, total, i);
      Wilson.ProductSign((i + 1) as real, -Slope(total, |coverage|));
    }
  }

  lemma PeakAtTotal(coverage: seq<(nat, real)>, total: nat)
    requires IsCoverage(coverage, total) && 0 < total < |coverage|
    ensures Distance(coverage, total - 1) > 0.0
    ensures forall i :: 0 <= i < |coverage| && i != total - 1 ==> Distance(coverage, i) < Distance(coverage, total - 1)
  {
    SlopeSign(total, |coverage|);
    DistanceBelow(coverage, total, total - 1);
    Wilson.ProductSign(total as real, Slope(total, |coverage|));
    forall i | 0 <= i < |coverage| && i != total - 1 ensures Distance(coverage, i) < Distance(coverage, total - 1) {
      if i < total - 1 {
        RisesBelow(coverage, total, i);
      } else {
        FallsAbove(coverage, total, i);
      }
    }
  }

  lemma RisesBelow(coverage: seq<(nat, real)>, total: nat, i: nat)
    requires IsCoverage(coverage, total) && 0 < total < |coverage| && i < total - 1
    ensures Distance(coverage, i) < Distance(coverage, total - 1)
  {
    var w := Slope(total, |coverage|);
    SlopeSign(total, |coverage|);
    DistanceBelow(coverage, total, i);
    DistanceBelow(coverage, total, total - 1);
    StrictProduct((i + 1) as real, total as real, w);
  }

  lemma StrictProduct(x: real, y: real, w: real)
    requires x < y && w > 0.0
    ensures x * w < y * w
  {}

  lemma FallsAbove(coverage: seq<(nat, real)>, total: nat, i: nat)
    requires IsCoverage(coverage, total) && 0 < total <= i < |coverage|
    ensures Distance(coverage, i) < Distance(coverage, total - 1)
  {
    DistanceAbove(coverage, total, i);
    DistanceAbove(coverage, total, total - 1);
    Wilson.QuotientOrder(total as real, (i + 1) as real, |coverage| as real);
  }

  lemma KneeWithoutBigrams(coverage: seq<(nat, real)>, k: nat)
    requires coverage != [] && IsCoverage(coverage, 0) && IsKnee(coverage, k)
    ensures k == 1
  {
    var n := |coverage| as real;
    assert forall i :: 0 <= i < |coverage| ==> Distance(coverage, i) == 1.0 - (i + 1) as real / n;
    Wilson.DivideMultiply(n, n);
    Wilson.Cancel(n / n, 1.0, n);
    if |coverage| > 1 {
      forall i | 0 < i < |coverage| ensures Distance(coverage, i) < Distance(coverage, 0) {
        Wilson.QuotientOrder(1.0, (i + 1) as real, n);
      }
      Wilson.QuotientOrder(1.0, n, n);
      KneeAtPeak(coverage, k, 0);
    }
  }

  /* ---------- The whole computation ---------- */

  /** Python's `int(x)` truncates towards zero. */
  function Truncate(x: real): int { if x >= 0.0 then x.Floor else -((-x).Floor) }

  function Clamp(k: int, low: int, high: int): int {
    var m := if k <= high then k else high;
    if low >= m then low else m
  }

  function Biased(k: nat, bias: real): int { Truncate(k as real * bias) }

  /** The result as a formula in three counts: items, near-distinct items and distinct bigrams. */
  function OptimalK(n: nat, unique: nat, distinct: nat, bias: real, minK: int): int {
    if n <= minK || n <= 8 then n
    else if unique <= 2 * minK then (if minK >= Biased(unique, bias) then minK else Biased(unique, bias))
    else Clamp(Biased(if distinct == 0 then 1 else Least(distinct, n), bias), minK, n)
  }

  /** Small inputs are kept whole, and at least `minK` items are kept of the others. */
  lemma KeepsAtLeast(n: nat, unique: nat, distinct: nat, bias: real, minK: int)
    ensures n <= minK || n <= 8 ==> OptimalK(n, unique, distinct, bias, minK) == n
    ensures n > minK && n > 8 ==> OptimalK(n, unique, distinct, bias, minK) >= minK
  {}

  /**
   * More than all items is the answer exactly when the items are near duplicates of few, and the bias blows these up:
   * that branch is not clamped.
   */
  lemma KeepsAtMost(n: nat, unique: nat, distinct: nat, bias: real, minK: int)
    ensures OptimalK(n, unique, distinct, bias, minK) > n <==>
      n > minK && n > 8 && unique <= 2 * minK && unique as real * bias >= (n + 1) as real
  {
    TruncateMeans(unique as real * bias, n);
  }

  lemma TruncateMeans(x: real, n: nat)
    ensures Truncate(x) > n <==> x >= (n + 1) as real
    ensures x >= 0.0 ==> Truncate(x) as real <= x < (Truncate(x) + 1) as real
    ensures x < 0.0 ==> Truncate(x) <= 0
  {}

  /** Otherwise the answer is the biased knee, rounded down, and moved into the range from `minK` to all items. */
  lemma KneeIsBiased(n: nat, unique: nat, distinct: nat, bias: real, minK: int, knee: nat, x: real)
    requires n > minK && n > 8 && unique > 2 * minK && bias >= 0.0
    requires knee == (if distinct == 0 then 1 else if distinct < n then distinct else n) && x == knee as real * bias
    ensures var k := OptimalK(n, unique, distinct, bias, minK);
      && minK <= k <= n
      && (minK as real <= x < (n + 1) as real ==> k as real <= x < (k + 1) as real)
      && (x < minK as real ==> k == minK) && (x >= n as real ==> k == n)
  {
    Wilson.ProductSign(knee as real, bias);
    ClampMeans(x, minK, n);
    OptimalIs(n, unique, distinct, bias, minK, knee, Truncate(x));
  }

  lemma OptimalIs(n: nat, unique: nat, distinct: nat, bias: real, minK: int, knee: nat, biased: int)
    requires n > minK && n > 8 && unique > 2 * minK && biased == Biased(knee, bias)
    requires knee == if distinct == 0 then 1 else if distinct < n then distinct else n
    ensures OptimalK(n, unique, distinct, bias, minK) == Clamp(biased, minK, n)
  {}

  lemma ClampMeans(x: real, minK: int, n: nat)
    requires x >= 0.0 && minK < n
    ensures var k := Clamp(Truncate(x), minK, n);
      && minK <= k <= n
      && (minK as real <= x < (n + 1) as real ==> k as real <= x < (k + 1) as real)
      && (x < minK as real ==> k == minK) && (x >= n as real ==> k == n)
  {}

  const NEAR_DUPLICATE: nat := 10

  /** `compute_optimal_k`: the search for the knee collapses to a formula in three counts. */
  method ComputeOptimalK(items: seq<Item>, bias: real, minK: int, hash: string -> Simhash.Mark) returns (k: int)
    ensures k == OptimalK(|items|, Simhash.UniqueCount(hash, items, NEAR_DUPLICATE), Distinct(items), bias, minK)
  {
    if |items| <= minK || |items| <= 8 {
      return |items|;
    }
    var unique := Simhash.CountUnique(hash, items, NEAR_DUPLICATE);
    if unique <= minK * 2 {
      var u := Biased(unique, bias);
      return if minK >= u then minK else u;
    }
    var knee := KneeOf(items);
    return Clamp(Biased(knee, bias), minK, |items|);
  }

  method KneeOf(items: seq<Item>) returns (knee: nat)
    requires items != []
    ensures knee == if Distinct(items) == 0 then 1 else Least(Distinct(items), |items|)
  {
    var coverage := ComputeBigramCoverage(items);
    knee := FindKnee(coverage);
    KneeClosedForm(coverage, Distinct(items), knee);
  }
}

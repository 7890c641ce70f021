/**
 * Near-duplicate counting (`adaptive_sizer.py`): fingerprints by majority vote over the hashes of shingles, and a
 * greedy pass that counts an item when no counted item is close to it. The hash of a shingle is a parameter.
 */
module Simhash {

  const BITS: nat := 64

  type Mark = s: seq<bool> | |s| == BITS witness seq(BITS, _ => false)

  /* ---------- Fingerprints ---------- */

  function Joined(a: string, b: string): string { a + " " + b }

  /** Neighbouring words in pairs; a text of one word is its own shingle. */
  function Shingles(words: seq<string>): seq<string> {
    if |words| < 2 then words
    else seq(|words| - 1, i requires 0 <= i < |words| - 1 => Joined(words[i], words[i + 1]))
  }

  lemma ShinglesArePairs(words: seq<string>)
    ensures |words| == 1 ==> Shingles(words) == words
    ensures |words| >= 2 ==> |Shingles(words)| == |words| - 1
    ensures forall i :: 0 <= i < |words| - 1 ==> Shingles(words)[i] == words[i] + " " + words[i + 1]
    ensures Shingles([]) == []
  {}

  /** How many of the marks have bit `bit` set. */
  function SetCount(marks: seq<Mark>, bit: nat): (n: nat)
    requires bit < BITS
    ensures n <= |marks|
  {
    if marks == [] then 0 else SetCount(marks[..|marks| - 1], bit) + if marks[|marks| - 1][bit] then 1 else 0
  }

  function HashAll(hash: string -> Mark, shingles: seq<string>): (marks: seq<Mark>)
    ensures |marks| == |shingles|
  {
    seq(|shingles|, i requires 0 <= i < |shingles| => hash(shingles[i]))
  }

  /** A bit of the fingerprint is set when more shingles have it set than clear. */
  predicate Majority(marks: seq<Mark>, bit: nat)
    requires bit < BITS
  {
    SetCount(marks, bit) > |marks| - SetCount(marks, bit)
  }

  function ClearCount(marks: seq<Mark>, bit: nat): nat
    requires bit < BITS
  {
    if marks == [] then 0 else (if marks[0][bit] then 0 else 1) + ClearCount(marks[1..], bit)
  }

  lemma {:induction false} ClearAppend(marks: seq<Mark>, mark: Mark, bit: nat)
    requires bit < BITS
    ensures ClearCount(marks + [mark], bit) == ClearCount(marks, bit) + if mark[bit] then 0 else 1
  {
    if marks == [] {
      assert marks + [mark] == [mark] && [mark][1..] == [];
    } else {
      assert (marks + [mark])[1..] == marks[1..] + [mark];
      ClearAppend(marks[1..], mark, bit);
    }
  }

  lemma {:induction false} SetOrClear(marks: seq<Mark>, bit: nat)
    requires bit < BITS
    ensures SetCount(marks, bit) + ClearCount(marks, bit) == |marks|
  {
    if marks != [] {
      var n := |marks| - 1;
      SetOrClear(marks[..n], bit);
      ClearAppend(marks[..n], marks[n], bit);
      assert marks == marks[..n] + [marks[n]];
    }
  }

  /** A tie leaves the bit clear. */
  lemma MajorityMeans(marks: seq<Mark>, bit: nat)
    requires bit < BITS
    ensures Majority(marks, bit) <==> SetCount(marks, bit) > ClearCount(marks, bit)
  {
    SetOrClear(marks, bit);
  }

  function Fingerprint(hash: string -> Mark, words: seq<string>): Mark {
    seq(BITS, bit requires 0 <= bit < BITS => Majority(HashAll(hash, Shingles(words)), bit))
  }

  /** One shingle votes on every bit. */
  method Vote(votes: array<int>, mark: Mark)
    requires votes.Length == BITS
    modifies votes
    ensures forall bit :: 0 <= bit < BITS ==> votes[bit] == old(votes[bit]) + if mark[bit] then 1 else -1
  {
    for bit := 0 to BITS
      invariant forall k :: 0 <= k < BITS ==> votes[k] == old(votes[k]) + if k < bit then (if mark[k] then 1 else -1)
          else 0
    {
      if mark[bit] {
        votes[bit] := votes[bit] + 1;
      } else {
        votes[bit] := votes[bit] - 1;
      }
    }
  }

  /** `_simhash` */
  method ComputeFingerprint(hash: string -> Mark, words: seq<string>) returns (mark: Mark)
    ensures mark == Fingerprint(hash, words)
  {
    var shingles := Shingles(words);
    ghost var marks := HashAll(hash, shingles);
    var votes := new int[BITS](_ => 0);
    for i := 0 to |shingles|
      invariant forall bit :: 0 <= bit < BITS ==> votes[bit] == 2 * SetCount(marks[..i], bit) - i
    {
      assert marks[..i + 1][..i] == marks[..i];
      Vote(votes, hash(shingles[i]));
    }
    assert marks[..|shingles|] == marks;
    mark := seq(BITS, bit requires 0 <= bit < BITS reads votes => votes[bit] > 0);
  }

  /* ---------- Distance ---------- */

  /** `(a ^ b).bit_count()` */
  function Differing(a: seq<bool>, b: seq<bool>): (n: nat)
    requires |a| == |b|
    ensures n <= |a|
  {
    if a == [] then 0 else (if a[0] != b[0] then 1 else 0) + Differing(a[1..], b[1..])
  }

  /** Hamming distance is a metric. */
  lemma {:induction false} DistanceIsMetric(a: seq<bool>, b: seq<bool>, c: seq<bool>)
    requires |a| == |b| == |c|
    ensures Differing(a, b) == 0 <==> a == b
    ensures Differing(a, b) == Differing(b, a)
    ensures Differing(a, c) <= Differing(a, b) + Differing(b, c)
  {
    if a != [] {
      DistanceIsMetric(a[1..], b[1..], c[1..]);
      assert a == [a[0]] + a[1..] && b == [b[0]] + b[1..];
    }
  }

  /** It counts places, one by one. */
  lemma {:induction false} DistanceAdds(a: seq<bool>, b: seq<bool>, c: seq<bool>, d: seq<bool>)
    requires |a| == |b| && |c| == |d|
    ensures Differing(a + c, b + d) == Differing(a, b) + Differing(c, d)
    ensures |a| == 1 ==> Differing(a, b) == if a == b then 0 else 1
  {
    if a == [] {
      assert a + c == c && b + d == d;
    } else {
      DistanceAdds(a[1..], b[1..], c, d);
      assert (a + c)[1..] == a[1..] + c && (b + d)[1..] == b[1..] + d;
      assert |a| == 1 ==> a == [a[0]] && b == [b[0]] && a[1..] == [];
    }
  }

  /* ---------- The greedy count ---------- */

  predicate Near(a: Mark, b: Mark, threshold: nat) { Differing(a, b) <= threshold }

  predicate NearAny(mark: Mark, kept: seq<Mark>, threshold: nat) {
    exists k :: 0 <= k < |kept| && Near(mark, kept[k], threshold)
  }

  /** The fingerprints that are kept: each one that is near no earlier kept one. */
  function Kept(marks: seq<Mark>, threshold: nat): (kept: seq<Mark>)
    ensures |kept| <= |marks|
  {
    if marks == [] then []
    else
      var n := |marks| - 1;
      var kept := Kept(marks[..n], threshold);
      if NearAny(marks[n], kept, threshold) then kept else kept + [marks[n]]
  }

  function Marks(hash: string -> Mark, items: seq<seq<string>>): (marks: seq<Mark>)
    ensures |marks| == |items|
  {
    seq(|items|, i requires 0 <= i < |items| => Fingerprint(hash, items[i]))
  }

  function UniqueCount(hash: string -> Mark, items: seq<seq<string>>, threshold: nat): nat {
    |Kept(Marks(hash, items), threshold)|
  }

  /** `any(distance <= threshold for seen in fingerprints)` */
  method FindNear(mark: Mark, kept: seq<Mark>, threshold: nat) returns (near: bool)
    ensures near == NearAny(mark, kept, threshold)
  {
    for k := 0 to |kept|
      invariant forall j :: 0 <= j < k ==> !Near(mark, kept[j], threshold)
    {
      if Differing(mark, kept[k]) <= threshold {
        return true;
      }
    }
    return false;
  }

  /** `count_unique_simhash` */
  method CountUnique(hash: string -> Mark, items: seq<seq<string>>, threshold: nat) returns (unique: nat)
    ensures unique == UniqueCount(hash, items, threshold)
  {
    ghost var marks := Marks(hash, items);
    var kept: seq<Mark>;
    kept, unique := [], 0;
    for i := 0 to |items|
      invariant kept == Kept(marks[..i], threshold) && unique == |kept|
    {
      assert marks[..i + 1][..i] == marks[..i];
      var mark := ComputeFingerprint(hash, items[i]);
      var near := FindNear(mark, kept, threshold);
      if !near {
        kept := kept + [mark];
        unique := unique + 1;
      }
    }
    assert marks[..|items|] == marks;
  }

  /* ---------- What the count means ---------- */

  /** No two marks are within `threshold` of each other. */
  predicate Separated(marks: seq<Mark>, threshold: nat) {
    forall i, j :: 0 <= i < j < |marks| ==> !Near(marks[i], marks[j], threshold)
  }

  /** The kept marks are far from each other, come from the input, and every mark is near one of them. */
  lemma {:induction false} KeptIsMaximal(marks: seq<Mark>, threshold: nat)
    ensures Separated(Kept(marks, threshold), threshold)
    ensures forall p :: p in Kept(marks, threshold) ==> p in marks
    ensures forall i :: 0 <= i < |marks| ==> NearAny(marks[i], Kept(marks, threshold), threshold)
  {
    if marks != [] {
      var n := |marks| - 1;
      var before, kept := Kept(marks[..n], threshold), Kept(marks, threshold);
      KeptIsMaximal(marks[..n], threshold);
      forall i, j | 0 <= i < j < |kept| ensures !Near(kept[i], kept[j], threshold) {
        DistanceIsMetric(kept[i], kept[j], kept[j]);
      }
      forall i | 0 <= i < |marks| ensures NearAny(marks[i], kept, threshold) {
        DistanceIsMetric(marks[i], marks[i], marks[i]);
        if i < n {
          assert NearAny(marks[..n][i], before, threshold);
          var k :| 0 <= k < |before| && Near(marks[i], before[k], threshold);
          assert kept[k] == before[k];
        } else if |kept| > |before| {
          assert kept[|before|] == marks[n];
        }
      }
    }
  }

  /** Position of a kept mark near `mark`. */
  function NearIndex(mark: Mark, kept: seq<Mark>, threshold: nat): (k: nat)
    requires NearAny(mark, kept, threshold)
    ensures k < |kept| && Near(mark, kept[k], threshold)
  {
    if Near(mark, kept[0], threshold) then 0
    else
      assert NearAny(mark, kept[1..], threshold) by {
        var k :| 0 <= k < |kept| && Near(mark, kept[k], threshold);
        assert kept[1..][k - 1] == kept[k];
      }
      1 + NearIndex(mark, kept[1..], threshold)
  }

  /** Marks more than twice the threshold apart have different kept marks near them. */
  lemma NearIndexInjective(a: Mark, b: Mark, kept: seq<Mark>, threshold: nat)
    requires NearAny(a, kept, threshold) && NearAny(b, kept, threshold)
    requires !Near(a, b, 2 * threshold)
    ensures NearIndex(a, kept, threshold) != NearIndex(b, kept, threshold)
  {
    var k := NearIndex(a, kept, threshold);
    DistanceIsMetric(a, kept[k], b);
    DistanceIsMetric(b, kept[k], b);
  }

  function Below(n: nat): (s: set<nat>)
    ensures |s| == n && forall k: nat :: k in s <==> k < n
  {
    if n == 0 then {} else Below(n - 1) + {n - 1}
  }

  function Image(f: seq<nat>): set<nat> { set k | k in f }

  lemma {:induction false} ImageSize(f: seq<nat>)
    requires forall i, j :: 0 <= i < j < |f| ==> f[i] != f[j]
    ensures |Image(f)| == |f|
  {
    if f != [] {
      var n := |f| - 1;
      ImageSize(f[..n]);
      assert Image(f) == Image(f[..n]) + {f[n]};
      assert f[n] !in f[..n];
    }
  }

  lemma Pigeonhole(f: seq<nat>, n: nat)
    requires forall i :: 0 <= i < |f| ==> f[i] < n
    requires forall i, j :: 0 <= i < j < |f| ==> f[i] != f[j]
    ensures |f| <= n
  {
    ImageSize(f);
    assert Image(f) <= Below(n);
    assert Below(n) == Image(f) + (Below(n) - Image(f));
  }

  /**
   * The count lies between two packings of the input: it is at least the size of any selection of fingerprints that
   * are more than twice the threshold apart, and it is the size of one that is more than the threshold apart.
   */
  lemma CountIsPacking(hash: string -> Mark, items: seq<seq<string>>, threshold: nat, chosen: seq<Mark>)
    requires forall p :: p in chosen ==> p in Marks(hash, items)
    requires Separated(chosen, 2 * threshold)
    ensures |chosen| <= UniqueCount(hash, items, threshold)
    ensures exists kept :: |kept| == UniqueCount(hash, items, threshold) && Separated(kept, threshold)
                        && forall p :: p in kept ==> p in Marks(hash, items)
  {
    var marks := Marks(hash, items);
    var kept := Kept(marks, threshold);
    KeptIsMaximal(marks, threshold);
    forall i | 0 <= i < |chosen| ensures NearAny(chosen[i], kept, threshold) {
      assert chosen[i] in marks;
    }
    var f := seq(|chosen|, i requires 0 <= i < |chosen| && NearAny(chosen[i], kept, threshold) =>
        NearIndex(chosen[i], kept, threshold));
    forall i, j | 0 <= i < j < |f| ensures f[i] != f[j] {
      NearIndexInjective(chosen[i], chosen[j], kept, threshold);
    }
    Pigeonhole(f, |kept|);
  }
}

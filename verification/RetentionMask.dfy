/**
 * Steps 2 and 3 of the retention compressor (`ml_compressor.py`): runs of dropped tokens that are too short for a
 * placeholder are kept after all, and every run that remains becomes one placeholder.
 */
module RetentionMask {
  import opened Prelude

  type Mask = seq<bool>

  /** First position of the dropped run that ends at or before `i`. */
  function RunStart(m: Mask, i: nat): (a: nat)
    requires i <= |m|
    ensures a <= i && forall k :: a <= k < i ==> !m[k]
    ensures a > 0 ==> m[a - 1]
  {
    if i > 0 && !m[i - 1] then RunStart(m, i - 1) else i
  }

  /** End of the stretch from `i` on whose entries all equal `value`. */
  function StretchEnd(m: Mask, i: nat, value: bool): (b: nat)
    requires i <= |m|
    ensures i <= b <= |m| && forall k :: i <= k < b ==> m[k] == value
    ensures b < |m| ==> m[b] != value
    decreases |m| - i
  {
    if i < |m| && m[i] == value then StretchEnd(m, i + 1, value) else i
  }

  function RunLength(m: Mask, i: nat): nat
    requires i < |m|
  {
    StretchEnd(m, i, false) - RunStart(m, i)
  }

  /** Tokens `a` to `b` are a maximal run of dropped tokens. */
  predicate IsRun(m: Mask, a: nat, b: nat) {
    && a < b <= |m| && (forall k :: a <= k < b ==> !m[k])
    && (a > 0 ==> m[a - 1]) && (b < |m| ==> m[b])
  }

  /** The mask with runs shorter than `minRun` kept. */
  function Merged(m: Mask, minRun: int): (r: Mask)
    ensures |r| == |m|
  {
    seq(|m|, i requires 0 <= i < |m| => m[i] || RunLength(m, i) < minRun)
  }

  lemma RunIs(m: Mask, a: nat, b: nat, i: nat)
    requires IsRun(m, a, b) && a <= i < b
    ensures RunStart(m, i) == a && StretchEnd(m, i, false) == b
  {}

  /** The in-place pass over the mask. */
  method MergeShortRuns(keep: array<bool>, minRun: int)
    modifies keep
    ensures keep[..] == Merged(old(keep[..]), minRun)
  {
    ghost var m := keep[..];
    var n, start, inRun := keep.Length, 0, false;
    for i := 0 to n
      invariant inRun ==> start < i && RunStart(m, i) == start
      invariant !inRun ==> i == 0 || m[i - 1]
      invariant forall k :: (if inRun then start else i) <= k < n ==> keep[k] == m[k]
      invariant forall k :: 0 <= k < (if inRun then start else i) ==> keep[k] == Merged(m, minRun)[k]
    {
      if !keep[i] && !inRun {
        start, inRun := i, true;
      } else if keep[i] && inRun {
        CloseRun(keep, m, start, i, minRun);
        inRun := false;
      }
    }
    if inRun {
      CloseRun(keep, m, start, n, minRun);
    }
    assert keep[..] == Merged(m, minRun);
  }

  /** A run has ended: it is kept when it is short. */
  method CloseRun(keep: array<bool>, ghost m: Mask, start: nat, end: nat, minRun: int)
    requires |m| == keep.Length && IsRun(m, start, end)
    requires forall k :: start <= k < end ==> keep[k] == m[k]
    modifies keep
    ensures forall k :: start <= k < end ==> keep[k] == Merged(m, minRun)[k]
    ensures forall k :: 0 <= k < keep.Length && !(start <= k < end) ==> keep[k] == old(keep[k])
  {
    forall k | start <= k < end ensures Merged(m, minRun)[k] == (end - start < minRun) {
      RunIs(m, start, end, k);
    }
    if end - start < minRun {
      for j := start to end
        invariant forall k :: start <= k < j ==> keep[k]
        invariant forall k :: 0 <= k < keep.Length && !(start <= k < j) ==> keep[k] == old(keep[k])
      {
        keep[j] := true;
      }
    }
  }

  /** After merging no dropped run is short, each is a run of the original mask, and long runs are untouched. */
  lemma MergedRuns(m: Mask, minRun: int, a: nat, b: nat)
    ensures IsRun(Merged(m, minRun), a, b) <==> IsRun(m, a, b) && b - a >= minRun
  {
    var r := Merged(m, minRun);
    if IsRun(m, a, b) {
      forall k | a <= k < b ensures RunLength(m, k) == b - a { RunIs(m, a, b, k); }
    }
    if IsRun(r, a, b) {
      DroppedRunIsRun(m, minRun, a, b);
    }
  }

  lemma DroppedRunIsRun(m: Mask, minRun: int, a: nat, b: nat)
    requires IsRun(Merged(m, minRun), a, b)
    ensures IsRun(m, a, b) && b - a >= minRun
  {
    var r := Merged(m, minRun);
    assert !r[a];
    var c, d := RunStart(m, a), StretchEnd(m, a, false);
    forall k | c <= k < d ensures !r[k] {
      RunIs(m, c, d, k);
      RunIs(m, c, d, a);
    }
    assert forall k :: 0 <= k < |m| && m[k] ==> r[k];
    assert c == a && d == b;
  }

  /** No kept token is ever dropped. */
  lemma MergedKeeps(m: Mask, minRun: int, i: nat)
    requires i < |m| && m[i]
    ensures Merged(m, minRun)[i]
  {}

  /* ---------- The output ---------- */

  /** A piece of output: decoded tokens, or one placeholder, for tokens `start` to `end`. */
  datatype Part = Kept(start: nat, end: nat) | Placeholder(start: nat, end: nat)

  function PartsFrom(m: Mask, i: nat): seq<Part>
    requires i <= |m|
    decreases |m| - i
  {
    if i == |m| then []
    else
      var end := StretchEnd(m, i, m[i]);
      [if m[i] then Kept(i, end) else Placeholder(i, end)] + PartsFrom(m, end)
  }

  method BuildParts(m: Mask) returns (parts: seq<Part>)
    ensures parts == PartsFrom(m, 0)
  {
    parts := [];
    var i := 0;
    while i < |m|
      invariant i <= |m| && parts + PartsFrom(m, i) == PartsFrom(m, 0)
    {
      var start := i;
      if m[i] {
        while i < |m| && m[i]
          invariant start <= i <= |m| && StretchEnd(m, i, true) == StretchEnd(m, start, true)
          decreases |m| - i
        {
          i := i + 1;
        }
        Reassociate(parts, [Kept(start, i)], PartsFrom(m, i));
        parts := parts + [Kept(start, i)];
      } else {
        while i < |m| && !m[i]
          invariant start <= i <= |m| && StretchEnd(m, i, false) == StretchEnd(m, start, false)
          decreases |m| - i
        {
          i := i + 1;
        }
        Reassociate(parts, [Placeholder(start, i)], PartsFrom(m, i));
        parts := parts + [Placeholder(start, i)];
      }
    }
  }

  /** The tokens that the parts emit. */
  function Emitted<T>(parts: seq<Part>, tokens: seq<T>): seq<T>
    requires forall p :: p in parts ==> p.start <= p.end <= |tokens|
  {
    if parts == [] then []
    else (if parts[0].Kept? then tokens[parts[0].start..parts[0].end] else []) + Emitted(parts[1..], tokens)
  }

  function Retained<T>(m: Mask, tokens: seq<T>, i: nat): seq<T>
    requires |tokens| == |m| && i <= |m|
    decreases |m| - i
  {
    if i == |m| then [] else (if m[i] then [tokens[i]] else []) + Retained(m, tokens, i + 1)
  }

  lemma {:induction false} KeptStretch<T>(m: Mask, tokens: seq<T>, i: nat, j: nat)
    requires |tokens| == |m| && i <= j <= |m| && forall k :: i <= k < j ==> m[k]
    ensures Retained(m, tokens, i) == tokens[i..j] + Retained(m, tokens, j)
    decreases j - i
  {
    if i < j {
      KeptStretch(m, tokens, i + 1, j);
      PrependStretch(tokens, i, j, Retained(m, tokens, j));
    }
  }

  lemma PrependStretch<T>(tokens: seq<T>, i: nat, j: nat, rest: seq<T>)
    requires i < j <= |tokens|
    ensures [tokens[i]] + (tokens[i + 1..j] + rest) == tokens[i..j] + rest
  {}

  lemma {:induction false} DroppedStretch<T>(m: Mask, tokens: seq<T>, i: nat, j: nat)
    requires |tokens| == |m| && i <= j <= |m| && forall k :: i <= k < j ==> !m[k]
    ensures Retained(m, tokens, i) == Retained(m, tokens, j)
    decreases j - i
  {
    if i < j {
      DroppedStretch(m, tokens, i + 1, j);
    }
  }

  lemma {:induction false} PartsInBounds(m: Mask, i: nat)
    requires i <= |m|
    ensures forall p :: p in PartsFrom(m, i) ==> i <= p.start < p.end <= |m|
    decreases |m| - i
  {
    if i < |m| {
      PartsInBounds(m, StretchEnd(m, i, m[i]));
    }
  }

  /** Every kept token is emitted once, in order, and no dropped token is. */
  lemma {:induction false} EmittedIsRetained<T>(m: Mask, tokens: seq<T>, i: nat)
    requires |tokens| == |m| && i <= |m| && forall p :: p in PartsFrom(m, i) ==> p.start <= p.end <= |tokens|
    ensures Emitted(PartsFrom(m, i), tokens) == Retained(m, tokens, i)
    decreases |m| - i
  {
    if i < |m| {
      var end := StretchEnd(m, i, m[i]);
      assert PartsFrom(m, i)[1..] == PartsFrom(m, end);
      PartsInBounds(m, end);
      EmittedIsRetained(m, tokens, end);
      if m[i] {
        KeptStretch(m, tokens, i, end);
      } else {
        DroppedStretch(m, tokens, i, end);
      }
    }
  }

  /** The placeholders are the maximal dropped runs, each exactly once. */
  lemma {:induction false} PlaceholdersAreRuns(m: Mask, i: nat, a: nat, b: nat)
    requires i <= |m| && (i > 0 && i < |m| ==> m[i - 1] != m[i])
    ensures Placeholder(a, b) in PartsFrom(m, i) <==> i <= a && IsRun(m, a, b)
    decreases |m| - i
  {
    if i < |m| {
      var end := StretchEnd(m, i, m[i]);
      PlaceholdersAreRuns(m, end, a, b);
      PartsInBounds(m, end);
      var rest := PartsFrom(m, end);
      assert Placeholder(a, b) in PartsFrom(m, i) <==> (!m[i] && a == i && b == end) || Placeholder(a, b) in rest;
      if i <= a && IsRun(m, a, b) {
        if m[i] {
          assert !m[a];
          assert a >= end;
        } else if a < end {
          RunIs(m, i, end, a);
          RunIs(m, a, b, a);
        }
      }
    }
  }

  lemma {:induction false} PartsAreDistinct(m: Mask, i: nat, j: nat, k: nat)
    requires i <= |m| && j < k < |PartsFrom(m, i)|
    ensures PartsFrom(m, i)[j].end <= PartsFrom(m, i)[k].start
    decreases |m| - i
  {
    var end := StretchEnd(m, i, m[i]);
    if j > 0 {
      PartsAreDistinct(m, end, j - 1, k - 1);
    } else {
      PartsInBounds(m, end);
      assert PartsFrom(m, i)[k] in PartsFrom(m, end);
    }
  }
}

/**
 * The result cache (`compression_cache.py`): bounded, least-recently-used, with a time to live. It is compared
 * with an unbounded store that only forgets what was overwritten, discarded or has expired.
 */
module CompressionCache {
  import opened Prelude
  import opened OrderedDict

  datatype Cached<V> = Cached(expiresAt: real, value: V)

  type Entries<K, V> = seq<Entry<K, Cached<V>>>

  datatype Config = Config(maxSize: nat, ttl: real)

  /** What happened to the cache, with the reading of the clock. */
  datatype Event<K, V> =
    | Get(key: K, now: real)
    | Put(key: K, value: V, now: real)
    | Discard(key: K)
    | Clear

  predicate Hits<K(==), V>(d: Entries<K, V>, k: K, now: real) { Has(d, k) && At(d, k).expiresAt > now }

  /** The entries after one event. */
  function Apply<K(==), V>(c: Config, d: Entries<K, V>, e: Event<K, V>): Entries<K, V> {
    match e
    case Get(k, now) => if Hits(d, k, now) then Stored(d, k, At(d, k)) else Without(d, k)
    case Put(k, v, now) => Trimmed(Stored(d, k, Cached(now + c.ttl, v)), c.maxSize)
    case Discard(k) => Without(d, k)
    case Clear => []
  }

  /** The entries after a history. */
  function Run<K(==), V>(c: Config, h: seq<Event<K, V>>): Entries<K, V> {
    if h == [] then [] else Apply(c, Run(c, h[..|h| - 1]), h[|h| - 1])
  }

  function CountGets<K, V>(h: seq<Event<K, V>>): nat {
    if h == [] then 0 else CountGets(h[..|h| - 1]) + if h[|h| - 1].Get? then 1 else 0
  }

  class CompressionResultCache<K(==), V> {
    const config: Config
    var entries: Entries<K, V>
    var hits: nat
    var misses: nat
    ghost var history: seq<Event<K, V>>

    ghost predicate Valid()
      reads this
    {
      && config.maxSize >= 1
      && entries == Run(config, history)
      && hits + misses == CountGets(history)
    }

    constructor (maxSize: nat, ttl: real)
      requires maxSize >= 1 && ttl > 0.0
      ensures Valid() && history == [] && config == Config(maxSize, ttl)
    {
      config, entries, hits, misses, history := Config(maxSize, ttl), [], 0, 0, [];
    }

    /** `get`, with the clock reading as a parameter. */
    method Lookup(key: K, now: real) returns (value: Option<V>)
      requires Valid()
      modifies this
      ensures Valid() && history == old(history) + [Get(key, now)]
      ensures value == if Hits(old(entries), key, now) then Some(At(old(entries), key).value) else None
      ensures hits == old(hits) + (if value.Some? then 1 else 0)
          && misses == old(misses) + (if value.Some? then 0 else 1)
    {
      history := history + [Get(key, now)];
      assert history[..|history| - 1] == old(history);
      if !Has(entries, key) || At(entries, key).expiresAt <= now {
        entries := Without(entries, key);
        misses := misses + 1;
        return None;
      }
      var entry := At(entries, key);
      entries := Stored(entries, key, entry);
      hits := hits + 1;
      return Some(entry.value);
    }

    method Store(key: K, value: V, now: real)
      requires Valid()
      modifies this`entries, this`history
      ensures Valid() && history == old(history) + [Put(key, value, now)]
    {
      history := history + [Put(key, value, now)];
      assert history[..|history| - 1] == old(history);
      entries := Stored(entries, key, Cached(now + config.ttl, value));
      TrimOldest();
    }

    method TrimOldest()
      modifies this`entries
      ensures entries == Trimmed(old(entries), config.maxSize)
    {
      while |entries| > config.maxSize
        invariant entries == Trimmed(old(entries), |entries|)
        invariant |entries| <= |old(entries)| && (|entries| >= config.maxSize || entries == old(entries))
      {
        entries := entries[1..];
      }
    }

    method Forget(key: K)
      requires Valid()
      modifies this`entries, this`history
      ensures Valid() && history == old(history) + [Discard(key)]
    {
      history := history + [Discard(key)];
      assert history[..|history| - 1] == old(history);
      entries := Without(entries, key);
    }

    method Reset()
      requires Valid()
      modifies this`entries, this`history
      ensures Valid() && history == old(history) + [Clear]
    {
      history := history + [Clear];
      assert history[..|history| - 1] == old(history);
      entries := [];
    }
  }

  /* ---------- The unbounded store ---------- */

  /** What a store of unlimited size holds for `k`: the latest put, unless discarded, cleared or found expired. */
  function Live<K(==), V>(c: Config, h: seq<Event<K, V>>, k: K): Option<Cached<V>> {
    if h == [] then None
    else
      var before := Live(c, h[..|h| - 1], k);
      match h[|h| - 1]
      case Put(k', v, now) => if k' == k then Some(Cached(now + c.ttl, v)) else before
      case Get(k', now) => if k' == k && before.Some? && before.value.expiresAt <= now then None else before
      case Discard(k') => if k' == k then None else before
      case Clear => None
  }

  predicate Replaces<K(==), V>(e: Event<K, V>, k: K) { e.Clear? || ((e.Put? || e.Discard?) && e.key == k) }

  /** `Live` is the latest put of the key, with nothing after it that replaces it. */
  lemma {:induction false} LiveIsLatestPut<K, V>(c: Config, h: seq<Event<K, V>>, k: K) returns (i: nat)
    requires Live(c, h, k).Some?
    ensures i < |h| && h[i].Put? && h[i].key == k
    ensures Live(c, h, k).value == Cached(h[i].now + c.ttl, h[i].value)
    ensures forall j :: i < j < |h| ==> !Replaces(h[j], k)
  {
    var n := |h| - 1;
    if h[n].Put? && h[n].key == k {
      i := n;
    } else {
      i := LiveIsLatestPut(c, h[..n], k);
      assert forall j :: i < j < n ==> h[j] == h[..n][j];
    }
  }

  /** Event `j` ends the life of what was put at `i`: it replaces it, or is a get that finds it expired. */
  predicate Ends<K(==), V>(c: Config, h: seq<Event<K, V>>, i: nat, j: nat)
    requires i < |h| && j < |h| && h[i].Put?
  {
    Replaces(h[j], h[i].key) || (h[j].Get? && h[j].key == h[i].key && h[i].now + c.ttl <= h[j].now)
  }

  /** Every put is live until an event ends its life. */
  lemma {:induction false} PutIsLive<K, V>(c: Config, h: seq<Event<K, V>>, i: nat)
    requires i < |h| && h[i].Put? && forall j :: i < j < |h| ==> !Ends(c, h, i, j)
    ensures Live(c, h, h[i].key) == Some(Cached(h[i].now + c.ttl, h[i].value))
  {
    var n := |h| - 1;
    if i < n {
      assert forall j :: i < j < n ==> (Ends(c, h[..n], i, j) <==> Ends(c, h, i, j));
      PutIsLive(c, h[..n], i);
      assert !Ends(c, h, i, n);
    }
  }

  /* ---------- Recency ---------- */

  /** The key that an event makes the most recent, if any: a put, or a get that hits. */
  function Touched<K(==), V>(d: Entries<K, V>, e: Event<K, V>): Option<K> {
    match e
    case Put(k, _, _) => Some(k)
    case Get(k, now) => if Hits(d, k, now) then Some(k) else None
    case _ => None
  }

  /** The distinct other keys touched since `k` was last touched. */
  function Recent<K(==), V>(c: Config, h: seq<Event<K, V>>, k: K): set<K> {
    if h == [] then {}
    else
      var n := |h| - 1;
      match Touched(Run(c, h[..n]), h[n])
      case None => Recent(c, h[..n], k)
      case Some(t) => if t == k then {} else Recent(c, h[..n], k) + {t}
  }

  /** Event `i` touches key `t`. */
  predicate TouchesAt<K(==), V>(c: Config, h: seq<Event<K, V>>, i: nat, t: K)
    requires i < |h|
  {
    Touched(Run(c, h[..i]), h[i]) == Some(t)
  }

  ghost predicate TouchedSince<K, V>(c: Config, h: seq<Event<K, V>>, k: K, t: K) {
    exists i :: 0 <= i < |h| && TouchesAt(c, h, i, t) && forall j :: i < j < |h| ==> !TouchesAt(c, h, j, k)
  }

  lemma SinceNext<K, V>(c: Config, h: seq<Event<K, V>>, k: K, t: K)
    requires h != [] && t != k
    ensures var n := |h| - 1;
      TouchedSince(c, h, k, t) <==>
        TouchesAt(c, h, n, t) || (!TouchesAt(c, h, n, k) && TouchedSince(c, h[..n], k, t))
  {
    var n := |h| - 1;
    forall i, x | 0 <= i < n ensures TouchesAt(c, h[..n], i, x) <==> TouchesAt(c, h, i, x) {
      assert h[..n][..i] == h[..i];
    }
  }

  /** The recent keys are those other than `k` that some event touches, with no event behind it that touches `k`. */
  lemma {:induction false} RecentIsTouchedSince<K, V>(c: Config, h: seq<Event<K, V>>, k: K, t: K)
    ensures t in Recent(c, h, k) <==> t != k && TouchedSince(c, h, k, t)
  {
    if h != [] {
      RecentIsTouchedSince(c, h[..|h| - 1], k, t);
      if t != k {
        SinceNext(c, h, k, t);
      }
    }
  }

  /** Entries behind `k` are the most recent ones: all of them are in `recent`. */
  ghost predicate BehindIsRecent<K, V>(d: Entries<K, V>, k: K, recent: set<K>) {
    forall j :: Find(d, k) < j < |d| ==> d[j].key in recent
  }

  ghost predicate Bounded<K, V>(c: Config, d: Entries<K, V>) { Distinct(d) && |d| <= c.maxSize }

  /** The cache never holds a key twice and never more than `maxSize` entries. */
  lemma {:induction false} RunIsBounded<K, V>(c: Config, h: seq<Event<K, V>>)
    requires c.maxSize >= 1
    ensures Bounded(c, Run(c, h))
  {
    if h != [] {
      var n := |h| - 1;
      RunIsBounded(c, h[..n]);
      ApplyIsBounded(c, Run(c, h[..n]), h[n]);
    }
  }

  lemma ApplyIsBounded<K, V>(c: Config, d: Entries<K, V>, e: Event<K, V>)
    requires c.maxSize >= 1 && Bounded(c, d)
    ensures Bounded(c, Apply(c, d, e))
  {
    if !e.Clear? {
      WithoutFacts(d, e.key);
    }
  }

  /** What is in the cache is what the unbounded store holds. */
  lemma {:induction false} EntriesAreLive<K, V>(c: Config, h: seq<Event<K, V>>, k: K)
    requires c.maxSize >= 1 && Has(Run(c, h), k)
    ensures Live(c, h, k) == Some(At(Run(c, h), k))
  {
    var n := |h| - 1;
    var d, e := Run(c, h[..n]), h[n];
    RunIsBounded(c, h[..n]);
    if !e.Clear? {
      if e.key == k {
        KeyAfter(c, d, e);
        if e.Get? {
          EntriesAreLive(c, h[..n], k);
        }
      } else {
        OtherKeyAfter(c, d, e, k);
        EntriesAreLive(c, h[..n], k);
      }
    }
  }

  /** The key of an event after it. */
  lemma KeyAfter<K, V>(c: Config, d: Entries<K, V>, e: Event<K, V>)
    requires c.maxSize >= 1 && Bounded(c, d) && !e.Clear?
    ensures var d' := Apply(c, d, e);
            && (e.Discard? ==> !Has(d', e.key))
            && (e.Put? ==>
                Has(d', e.key) && At(d', e.key) == Cached(e.now + c.ttl, e.value) && Find(d', e.key) == |d'| - 1)
            && (e.Get? ==> Has(d', e.key) == Hits(d, e.key, e.now))
            && (e.Get? && Has(d', e.key) ==> At(d', e.key) == At(d, e.key) && Find(d', e.key) == |d'| - 1)
  {
    WithoutFacts(d, e.key);
    ApplyIsBounded(c, d, e);
    var d' := Apply(c, d, e);
    if e.Put? || (e.Get? && Hits(d, e.key, e.now)) {
      FindIs(d', e.key, |d'| - 1);
    }
  }

  /** An event other than a clear takes its key out, may put it back at the end, and drops the `Cut` oldest entries. */
  function Longer<K(==), V>(c: Config, d: Entries<K, V>, e: Event<K, V>): Entries<K, V>
    requires !e.Clear?
  {
    match e
    case Get(k, now) => if Hits(d, k, now) then Stored(d, k, At(d, k)) else Without(d, k)
    case Put(k, v, now) => Stored(d, k, Cached(now + c.ttl, v))
    case Discard(k) => Without(d, k)
  }

  function Cut<K(==), V>(c: Config, d: Entries<K, V>, e: Event<K, V>): (n: nat)
    requires !e.Clear?
    ensures n <= |Longer(c, d, e)|
  {
    if e.Put? && |Longer(c, d, e)| > c.maxSize then |Longer(c, d, e)| - c.maxSize else 0
  }

  lemma LongerFacts<K, V>(c: Config, d: Entries<K, V>, e: Event<K, V>, k: K)
    requires Bounded(c, d) && !e.Clear? && e.key != k
    ensures Distinct(Longer(c, d, e)) && Has(Longer(c, d, e), k) == Has(d, k)
    ensures Has(d, k) ==> At(Longer(c, d, e), k) == At(d, k) && Find(Longer(c, d, e), k) == Find(Without(d, e.key), k)
  {
    WithoutFacts(d, e.key);
    WithoutOther(d, e.key, k);
    if Touched(d, e).Some? {
      AppendOther(Without(d, e.key), Longer(c, d, e)[|Without(d, e.key)|], k);
    }
  }

  lemma ApplyCuts<K, V>(c: Config, d: Entries<K, V>, e: Event<K, V>)
    requires !e.Clear?
    ensures Apply(c, d, e) == Longer(c, d, e)[Cut(c, d, e)..]
  {}

  /** Any other key after an event: it keeps its value, or it was the oldest of a full cache that took a new key. */
  lemma OtherKeyAfter<K, V>(c: Config, d: Entries<K, V>, e: Event<K, V>, k: K)
    requires c.maxSize >= 1 && Bounded(c, d) && !e.Clear? && e.key != k
    ensures var d' := Apply(c, d, e);
            && (Has(d', k) ==> Has(d, k) && At(d', k) == At(d, k))
            && (Has(d, k) && !Has(d', k) ==>
                e.Put? && Find(Without(d, e.key), k) == 0 && |Without(d, e.key)| == c.maxSize)
  {
    WithoutFacts(d, e.key);
    LongerFacts(c, d, e, k);
    ApplyCuts(c, d, e);
    SuffixFacts(Longer(c, d, e), Cut(c, d, e), k);
  }

  lemma BehindAppend<K, V>(d: Entries<K, V>, x: Entry<K, Cached<V>>, k: K, recent: set<K>)
    requires Distinct(d) && !Has(d, x.key) && x.key != k && Has(d, k) && BehindIsRecent(d, k, recent)
    ensures BehindIsRecent(d + [x], k, recent + {x.key})
  {
    AppendOther(d, x, k);
  }

  lemma BehindSuffix<K, V>(d: Entries<K, V>, cut: nat, k: K, recent: set<K>)
    requires Distinct(d) && cut <= |d| && Has(d[cut..], k) && BehindIsRecent(d, k, recent)
    ensures BehindIsRecent(d[cut..], k, recent)
  {
    SuffixFacts(d, cut, k);
  }

  /** The entries behind another key after an event. */
  lemma OtherKeyBehind<K, V>(c: Config, d: Entries<K, V>, e: Event<K, V>, k: K, recent: set<K>)
    requires c.maxSize >= 1 && Bounded(c, d) && BehindIsRecent(d, k, recent) && Has(d, k)
    requires !e.Clear? && e.key != k && Has(Apply(c, d, e), k)
    ensures BehindIsRecent(Apply(c, d, e), k, if Touched(d, e).Some? then recent + {e.key} else recent)
  {
    WithoutFacts(d, e.key);
    WithoutOther(d, e.key, k);
    BehindWithout(d, e.key, k, recent);
    LongerFacts(c, d, e, k);
    if Touched(d, e).Some? {
      BehindAppend(Without(d, e.key), Longer(c, d, e)[|Without(d, e.key)|], k, recent);
    }
    ApplyCuts(c, d, e);
    BehindSuffix(Longer(c, d, e), Cut(c, d, e), k, if Touched(d, e).Some? then recent + {e.key} else recent);
  }

  lemma BehindWithout<K, V>(d: Entries<K, V>, gone: K, k: K, recent: set<K>)
    requires Distinct(d) && gone != k && Has(d, k) && BehindIsRecent(d, k, recent)
    ensures BehindIsRecent(Without(d, gone), k, recent)
  {
    WithoutOther(d, gone, k);
    if Has(d, gone) {
      var r := Without(d, gone);
      forall j | Find(r, k) < j < |r| ensures r[j].key in recent {
        WithoutAt(d, gone, j);
      }
    }
  }

  function KeysOf<K(==), V>(d: Entries<K, V>): set<K> { set i | 0 <= i < |d| :: d[i].key }

  lemma {:induction false} DistinctKeyCount<K, V>(d: Entries<K, V>)
    requires Distinct(d)
    ensures |KeysOf(d)| == |d|
  {
    if d != [] {
      var front, last := d[..|d| - 1], d[|d| - 1];
      DistinctKeyCount(front);
      assert last.key !in KeysOf(front);
      assert forall e :: e in d <==> e in front || e == last;
      assert KeysOf(d) == KeysOf(front) + {last.key};
    }
  }

  lemma {:induction false} SubsetSize<K>(a: set<K>, b: set<K>)
    requires a <= b
    ensures |a| <= |b|
  {
    assert b == a + (b - a);
  }

  /** A full cache whose oldest key is `k` takes a new key: `maxSize` other keys are more recent than `k`. */
  lemma EvictionNeedsRecent<K, V>(rest: Entries<K, V>, k: K, added: K, recent: set<K>)
    requires Distinct(rest) && rest != [] && Find(rest, k) == 0 && forall i :: 0 <= i < |rest| ==> rest[i].key != added
    requires BehindIsRecent(rest, k, recent)
    ensures |recent + {added}| >= |rest|
  {
    var tail := rest[1..];
    DistinctKeyCount(tail);
    assert forall i :: 0 <= i < |tail| ==> tail[i] == rest[i + 1];
    assert added !in KeysOf(tail);
    SubsetSize(KeysOf(tail) + {added}, recent + {added});
  }

  /**
   * An unexpired key is evicted only after at least `maxSize` distinct other keys were touched since its own
   * last touch: with fewer, whatever the unbounded store holds for the key is still in the cache.
   */
  lemma {:induction false} RecentIsKept<K, V>(c: Config, h: seq<Event<K, V>>, k: K)
    requires c.maxSize >= 1 && Live(c, h, k).Some? && |Recent(c, h, k)| < c.maxSize
    ensures Has(Run(c, h), k) && BehindIsRecent(Run(c, h), k, Recent(c, h, k))
    decreases |h|
  {
    var n := |h| - 1;
    assert !h[n].Clear?;
    RunIsBounded(c, h[..n]);
    KeyAfter(c, Run(c, h[..n]), h[n]);
    if h[n].key != k {
      RecentKeptByOther(c, h, k);
    } else if h[n].Get? && !Hits(Run(c, h[..n]), k, h[n].now) {
      RecentIsKept(c, h[..n], k);
      EntriesAreLive(c, h[..n], k);
    }
  }

  lemma {:induction false} RecentKeptByOther<K, V>(c: Config, h: seq<Event<K, V>>, k: K)
    requires c.maxSize >= 1 && Live(c, h, k).Some? && |Recent(c, h, k)| < c.maxSize
    requires h != [] && !h[|h| - 1].Clear? && h[|h| - 1].key != k
    ensures Has(Run(c, h), k) && BehindIsRecent(Run(c, h), k, Recent(c, h, k))
    decreases |h|, 0
  {
    var n := |h| - 1;
    var d, e := Run(c, h[..n]), h[n];
    var recent := Recent(c, h[..n], k);
    RunIsBounded(c, h[..n]);
    SubsetSize(recent, Recent(c, h, k));
    RecentIsKept(c, h[..n], k);
    OtherKeyAfter(c, d, e, k);
    WithoutFacts(d, e.key);
    BehindWithout(d, e.key, k, recent);
    if e.Put? && Find(Without(d, e.key), k) == 0 && |Without(d, e.key)| == c.maxSize {
      EvictionNeedsRecent(Without(d, e.key), k, e.key, recent);
    }
    OtherKeyBehind(c, d, e, k, recent);
  }

  /* ---------- What a lookup returns ---------- */

  /** A hit is the latest put of the key, unexpired and not discarded; few other keys touched since make it sure. */
  lemma LookupIsRight<K, V>(c: Config, h: seq<Event<K, V>>, k: K, now: real)
    requires c.maxSize >= 1
    ensures Hits(Run(c, h), k, now) ==> Live(c, h, k) == Some(At(Run(c, h), k)) && Live(c, h, k).value.expiresAt > now
    ensures Live(c, h, k).Some? && Live(c, h, k).value.expiresAt > now && |Recent(c, h, k)| < c.maxSize ==>
        Hits(Run(c, h), k, now)
  {
    if Has(Run(c, h), k) {
      EntriesAreLive(c, h, k);
    }
    if Live(c, h, k).Some? && |Recent(c, h, k)| < c.maxSize {
      RecentIsKept(c, h, k);
    }
  }
}

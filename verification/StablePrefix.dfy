/** The stable-prefix cache (`stable_prefix.py`): compressed prefixes by model and original prefix, in LRU order. */
module StablePrefix {
  import opened Prelude
  import opened OrderedDict

  /** A message of a prompt: its role, the fields that decide whether it is stable, and everything else. */
  datatype Prompt = Prompt(role: string, hasId: bool, hasFunction: bool, hasToolCallId: bool, body: string)

  predicate IsStable(m: Prompt) {
    if m.role == "system" then true
    else if m.role == "tool" || m.role == "function" then !m.hasToolCallId && m.hasId && m.hasFunction
    else false
  }

  /** Instructions are stable, and tools that are declared rather than answered; requests and answers are not. */
  lemma StableRoles(m: Prompt)
    ensures m.role == "system" ==> IsStable(m)
    ensures m.role == "user" || m.role == "assistant" ==> !IsStable(m)
    ensures m.role == "tool" || m.role == "function" ==> (IsStable(m) <==> m.hasId && m.hasFunction && !m.hasToolCallId)
    ensures m.role !in {"system", "tool", "function"} ==> !IsStable(m)
  {
    assert "user"[0] != "system"[0] && "assistant"[0] != "system"[0];
    assert "user"[0] != "tool"[0] && "assistant"[0] != "tool"[0];
    assert "user"[0] != "function"[0] && "assistant"[0] != "function"[0];
    assert "tool"[0] != "system"[0] && "function"[0] != "system"[0];
  }

  function StableOf(messages: seq<Prompt>): seq<Prompt> {
    if messages == [] then []
    else (if IsStable(messages[0]) then [messages[0]] else []) + StableOf(messages[1..])
  }

  function TailOf(messages: seq<Prompt>): seq<Prompt> {
    if messages == [] then []
    else (if IsStable(messages[0]) then [] else [messages[0]]) + TailOf(messages[1..])
  }

  /** The stable messages, or the first message when there are none. */
  function PrefixOf(messages: seq<Prompt>): seq<Prompt> {
    var stable := StableOf(messages);
    if stable == [] then (if messages == [] then [] else messages[..1]) else stable
  }

  /** Prefix and tail share out the messages, unless no message is stable: then the first one is in both. */
  lemma PrefixAndTail(messages: seq<Prompt>)
    ensures multiset(PrefixOf(messages)) + multiset(TailOf(messages))
         == multiset(messages) + multiset(if StableOf(messages) == [] && messages != [] then messages[..1] else [])
  {
    StableAndTail(messages);
  }

  lemma {:induction false} StableAndTail(messages: seq<Prompt>)
    ensures multiset(StableOf(messages)) + multiset(TailOf(messages)) == multiset(messages)
  {
    if messages != [] {
      StableAndTail(messages[1..]);
      assert messages == [messages[0]] + messages[1..];
    }
  }

  /** Both keep the order: a message stands in its share right behind those of its kind that came before it. */
  lemma SharesKeepOrder(messages: seq<Prompt>, i: nat)
    requires i < |messages|
    ensures IsStable(messages[i]) ==> StableOf(messages[..i]) + [messages[i]] <= PrefixOf(messages)
    ensures !IsStable(messages[i]) ==> TailOf(messages[..i]) + [messages[i]] <= TailOf(messages)
  {
    Parted(messages, i);
    StableAt(messages[..i], messages[i], messages[i + 1..]);
  }

  lemma Parted(messages: seq<Prompt>, i: nat)
    requires i < |messages|
    ensures messages == messages[..i] + ([messages[i]] + messages[i + 1..])
  {
  }

  lemma StableAt(before: seq<Prompt>, m: Prompt, after: seq<Prompt>)
    ensures IsStable(m) ==> StableOf(before) + [m] <= PrefixOf(before + ([m] + after))
    ensures !IsStable(m) ==> TailOf(before) + [m] <= TailOf(before + ([m] + after))
  {
    StableAppend(before, [m] + after);
    TailAppend(before, [m] + after);
    assert ([m] + after)[1..] == after;
    Reassociate(StableOf(before), [m], StableOf(after));
    Reassociate(TailOf(before), [m], TailOf(after));
  }

  lemma {:induction false} StableAppend(a: seq<Prompt>, b: seq<Prompt>)
    ensures StableOf(a + b) == StableOf(a) + StableOf(b)
  {
    if a == [] {
      assert a + b == b;
    } else {
      StableAppend(a[1..], b);
      assert (a + b)[1..] == a[1..] + b && (a + b)[0] == a[0];
      Reassociate(if IsStable(a[0]) then [a[0]] else [], StableOf(a[1..]), StableOf(b));
    }
  }

  lemma {:induction false} TailAppend(a: seq<Prompt>, b: seq<Prompt>)
    ensures TailOf(a + b) == TailOf(a) + TailOf(b)
  {
    if a == [] {
      assert a + b == b;
    } else {
      TailAppend(a[1..], b);
      assert (a + b)[1..] == a[1..] + b && (a + b)[0] == a[0];
      Reassociate(if IsStable(a[0]) then [] else [a[0]], TailOf(a[1..]), TailOf(b));
    }
  }

  type Compressor = (seq<Prompt>, string) -> seq<Prompt>

  /** The hash of model and prefix; injective unless it collides. */
  type KeyFunction = (string, seq<Prompt>) -> string

  ghost predicate IsInjective(keyOf: KeyFunction) {
    forall m, p, m', p' :: keyOf(m, p) == keyOf(m', p') ==> m == m' && p == p'
  }

  datatype PrefixEntry = PrefixEntry(prefix: seq<Prompt>, tail: seq<Prompt>)

  datatype Metrics = Metrics(hits: nat, misses: nat, evictions: nat)

  /** What computing without a cache returns. */
  function Uncached(messages: seq<Prompt>, model: string, compress: Compressor): (seq<Prompt>, seq<Prompt>) {
    (compress(PrefixOf(messages), model), TailOf(messages))
  }

  /** The entry is what compressing any prefix with its key would give. */
  ghost predicate IsFaithful(e: Entry<string, PrefixEntry>, keyOf: KeyFunction, compress: Compressor) {
    forall model, prefix :: keyOf(model, prefix) == e.key ==> e.value.prefix == compress(prefix, model)
  }

  class StablePrefixCache {
    const maxSize: nat
    const keyOf: KeyFunction
    var entries: seq<Entry<string, PrefixEntry>>
    var metrics: Metrics

    ghost predicate Valid()
      reads this
    {
      maxSize >= 1 && Distinct(entries) && |entries| <= maxSize
    }

    /** Every entry was put by `GetOrCompute` with this compressor. */
    ghost predicate Transparent(compress: Compressor)
      reads this
    {
      && IsInjective(keyOf)
      && (forall e :: e in entries ==> IsFaithful(e, keyOf, compress))
      && metrics.misses == |entries| + metrics.evictions
    }

    constructor (maxSize: nat, keyOf: KeyFunction)
      requires maxSize >= 1
      ensures Valid() && entries == [] && metrics == Metrics(0, 0, 0) && this.keyOf == keyOf && this.maxSize == maxSize
    {
      this.maxSize, this.keyOf, entries, metrics := maxSize, keyOf, [], Metrics(0, 0, 0);
    }

    method Get(key: string) returns (entry: Option<PrefixEntry>)
      requires Valid()
      modifies this
      ensures Valid() && metrics.evictions == old(metrics.evictions)
      ensures entry == if Has(old(entries), key) then Some(At(old(entries), key)) else None
      ensures entry.Some? ==>
          entries == Stored(old(entries), key, entry.value) && metrics == old(metrics).(hits := old(metrics.hits) + 1)
      ensures entry.None? ==> entries == old(entries) && metrics == old(metrics).(misses := old(metrics.misses) + 1)
    {
      if !Has(entries, key) {
        metrics := metrics.(misses := metrics.misses + 1);
        return None;
      }
      var value := At(entries, key);
      WithoutFacts(entries, key);
      AppendOther(Without(entries, key), Entry(key, value), key);
      entries := Stored(entries, key, value);
      metrics := metrics.(hits := metrics.hits + 1);
      return Some(value);
    }

    method Put(key: string, prefix: seq<Prompt>, tail: seq<Prompt>)
      requires Valid()
      modifies this
      ensures Valid() && entries == Trimmed(Stored(old(entries), key, PrefixEntry(prefix, tail)), maxSize)
      ensures metrics == old(metrics).(evictions := metrics.evictions)
      ensures metrics.evictions - old(metrics.evictions)
          == |old(entries)| + (if Has(old(entries), key) then 0 else 1) - |entries|
    {
      var entry := PrefixEntry(prefix, tail);
      WithoutFacts(entries, key);
      AppendOther(Without(entries, key), Entry(key, entry), key);
      if Has(entries, key) {
        entries := Stored(entries, key, entry);
      } else {
        entries := entries + [Entry(key, entry)];
        ghost var full := entries;
        while |entries| > maxSize
          invariant entries == Trimmed(full, |entries|)
              && |full| - |entries| == metrics.evictions - old(metrics.evictions)
          invariant |entries| <= |full| && (|entries| >= maxSize || entries == full)
          invariant metrics == old(metrics).(evictions := metrics.evictions)
          decreases |entries|
        {
          entries := entries[1..];
          metrics := metrics.(evictions := metrics.evictions + 1);
        }
        SuffixFacts(full, |full| - |entries|, key);
      }
    }

    /** Transparent caching: the result is what uncached computation gives, and the metrics stay balanced. */
    method GetOrCompute(messages: seq<Prompt>, model: string, compress: Compressor)
        returns (result: (seq<Prompt>, seq<Prompt>))
      requires Valid() && Transparent(compress)
      modifies this
      ensures Valid() && Transparent(compress)
      ensures result == Uncached(messages, model, compress)
      ensures metrics.hits + metrics.misses == old(metrics.hits) + old(metrics.misses) + 1
    {
      var key := keyOf(model, PrefixOf(messages));
      var entry := Get(key);
      if entry.Some? {
        assert old(entries)[Find(old(entries), key)] in old(entries);
        StoredElements(old(entries), key, entry.value);
        return (entry.value.prefix, TailOf(messages));
      }
      var compressed := compress(PrefixOf(messages), model);
      Put(key, compressed, TailOf(messages));
      StoredElements(old(entries), key, PrefixEntry(compressed, TailOf(messages)));
      return (compressed, TailOf(messages));
    }
  }

  lemma StoredElements(d: seq<Entry<string, PrefixEntry>>, key: string, value: PrefixEntry)
    ensures forall e :: e in Stored(d, key, value) ==> e in d || e == Entry(key, value)
  {}

  /** Over a whole run on a new cache every answer is the uncached one, whatever was evicted before. */
  method ServeAll(requests: seq<(seq<Prompt>, string)>, maxSize: nat, keyOf: KeyFunction, compress: Compressor)
    returns (answers: seq<(seq<Prompt>, seq<Prompt>)>, metrics: Metrics, size: nat)
    requires maxSize >= 1 && IsInjective(keyOf)
    ensures |answers| == |requests|
    ensures forall i :: 0 <= i < |requests| ==> answers[i] == Uncached(requests[i].0, requests[i].1, compress)
    ensures metrics.hits + metrics.misses == |requests| && metrics.misses == size + metrics.evictions && size <= maxSize
  {
    var cache := new StablePrefixCache(maxSize, keyOf);
    answers := [];
    for i := 0 to |requests|
      invariant fresh(cache) && cache.Valid() && cache.Transparent(compress) && cache.maxSize == maxSize
      invariant |answers| == i && forall j :: 0 <= j < i ==>
          answers[j] == Uncached(requests[j].0, requests[j].1, compress)
      invariant cache.metrics.hits + cache.metrics.misses == i
    {
      var answer := cache.GetOrCompute(requests[i].0, requests[i].1, compress);
      answers := answers + [answer];
    }
    metrics, size := cache.metrics, |cache.entries|;
  }
}

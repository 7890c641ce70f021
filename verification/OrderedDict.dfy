/** Python's `OrderedDict` as a sequence of entries with distinct keys, oldest first. */
module OrderedDict {

  datatype Entry<K, V> = Entry(key: K, value: V)

  predicate Distinct<K(==), V>(d: seq<Entry<K, V>>) {
    forall i, j :: 0 <= i < j < |d| ==> d[i].key != d[j].key
  }

  /** Position of a key, or the length when it is missing. */
  function Find<K(==), V>(d: seq<Entry<K, V>>, k: K): (i: nat)
    ensures i <= |d| && (i < |d| ==> d[i].key == k)
    ensures forall j :: 0 <= j < i ==> d[j].key != k
  {
    if d == [] || d[0].key == k then 0 else 1 + Find(d[1..], k)
  }

  lemma FindIs<K, V>(d: seq<Entry<K, V>>, k: K, i: nat)
    requires Distinct(d) && i < |d| && d[i].key == k
    ensures Find(d, k) == i
  {}

  predicate Has<K(==), V>(d: seq<Entry<K, V>>, k: K) { Find(d, k) < |d| }

  function At<K(==), V>(d: seq<Entry<K, V>>, k: K): V
    requires Has(d, k)
  {
    d[Find(d, k)].value
  }

  /** `d.pop(k, None)` */
  function Without<K(==), V>(d: seq<Entry<K, V>>, k: K): seq<Entry<K, V>> {
    if Has(d, k) then d[..Find(d, k)] + d[Find(d, k) + 1..] else d
  }

  /** `d[k] = v; d.move_to_end(k)` */
  function Stored<K(==), V>(d: seq<Entry<K, V>>, k: K, v: V): seq<Entry<K, V>> {
    Without(d, k) + [Entry(k, v)]
  }

  /** `d[k].extend(vs)` on a `defaultdict(list)`: a known key keeps its place, a new one goes to the end. */
  function Appended<K(==), V>(d: seq<Entry<K, seq<V>>>, k: K, vs: seq<V>): seq<Entry<K, seq<V>>> {
    var i := Find(d, k);
    if i < |d| then d[i := Entry(k, d[i].value + vs)] else d + [Entry(k, vs)]
  }

  lemma AppendedFacts<K, V>(d: seq<Entry<K, seq<V>>>, k: K, vs: seq<V>)
    requires Distinct(d)
    ensures Distinct(Appended(d, k, vs)) && Has(Appended(d, k, vs), k)
    ensures |d| <= |Appended(d, k, vs)| <= |d| + 1
    ensures forall i :: 0 <= i < |d| ==> Appended(d, k, vs)[i].key == d[i].key
  {
    var r := Appended(d, k, vs);
    FindIs(r, k, Find(d, k));
  }

  lemma AppendedAt<K, V>(d: seq<Entry<K, seq<V>>>, k: K, vs: seq<V>, i: nat)
    requires Distinct(d) && i < |Appended(d, k, vs)|
    ensures i == Find(d, k) ==> Appended(d, k, vs)[i] == Entry(k, (if i < |d| then d[i].value else []) + vs)
    ensures i != Find(d, k) ==> i < |d| && Appended(d, k, vs)[i] == d[i] && d[i].key != k
  {
    assert [] + vs == vs;
    if i < |d| && d[i].key == k {
      FindIs(d, k, i);
    }
  }

  lemma HasAppended<K, V>(d: seq<Entry<K, seq<V>>>, k: K, vs: seq<V>, other: K)
    requires Distinct(d)
    ensures Has(Appended(d, k, vs), other) <==> Has(d, other) || other == k
  {
    var r := Appended(d, k, vs);
    AppendedFacts(d, k, vs);
    if Has(d, other) {
      FindIs(r, other, Find(d, other));
    }
    if Has(r, other) && other != k {
      FindIs(d, other, Find(r, other));
    }
  }

  /** `while len(d) > size: d.popitem(last=False)` */
  function Trimmed<K, V>(d: seq<Entry<K, V>>, size: nat): seq<Entry<K, V>> {
    if |d| > size then d[|d| - size..] else d
  }

  /** Where an entry of `Without(d, k)` comes from. */
  function Origin<K(==), V>(d: seq<Entry<K, V>>, k: K, j: nat): nat {
    if j >= Find(d, k) then j + 1 else j
  }

  lemma WithoutAt<K, V>(d: seq<Entry<K, V>>, k: K, j: nat)
    requires Has(d, k) && j < |d| - 1
    ensures |Without(d, k)| == |d| - 1 && Without(d, k)[j] == d[Origin(d, k, j)]
  {}

  /** Entries other than `k` keep their order. */
  lemma WithoutFacts<K, V>(d: seq<Entry<K, V>>, k: K)
    requires Distinct(d)
    ensures Distinct(Without(d, k)) && !Has(Without(d, k), k)
    ensures |Without(d, k)| == |d| - (if Has(d, k) then 1 else 0)
  {
    if Has(d, k) {
      var r := Without(d, k);
      forall i, j | 0 <= i < j < |r| ensures r[i].key != r[j].key {
        WithoutAt(d, k, i);
        WithoutAt(d, k, j);
      }
      forall j | 0 <= j < |r| ensures r[j].key != k {
        WithoutAt(d, k, j);
      }
    }
  }

  lemma OtherKept<K, V>(d: seq<Entry<K, V>>, k: K, other: K)
    requires Distinct(d) && other != k && Has(d, k) && Has(d, other)
    ensures Has(Without(d, k), other) && At(Without(d, k), other) == At(d, other)
    ensures Find(d, other) == Origin(d, k, Find(Without(d, k), other))
  {
    WithoutFacts(d, k);
    var i := Find(d, other);
    var j := if i > Find(d, k) then i - 1 else i;
    WithoutAt(d, k, j);
    FindIs(Without(d, k), other, j);
  }

  lemma OtherCameFrom<K, V>(d: seq<Entry<K, V>>, k: K, other: K)
    requires Distinct(d) && Has(d, k) && Has(Without(d, k), other)
    ensures Has(d, other)
  {
    var r := Without(d, k);
    WithoutAt(d, k, Find(r, other));
    FindIs(d, other, Origin(d, k, Find(r, other)));
  }

  lemma WithoutOther<K, V>(d: seq<Entry<K, V>>, k: K, other: K)
    requires Distinct(d) && other != k
    ensures Has(Without(d, k), other) == Has(d, other)
    ensures Has(d, other) ==> At(Without(d, k), other) == At(d, other)
    ensures Has(d, k) && Has(d, other) ==> Find(d, other) == Origin(d, k, Find(Without(d, k), other))
  {
    if Has(d, k) {
      if Has(d, other) {
        OtherKept(d, k, other);
      } else if Has(Without(d, k), other) {
        OtherCameFrom(d, k, other);
      }
    }
  }

  lemma {:induction false} AppendOther<K, V>(d: seq<Entry<K, V>>, x: Entry<K, V>, k: K)
    requires Distinct(d) && !Has(d, x.key)
    ensures Distinct(d + [x]) && Find(d + [x], x.key) == |d|
    ensures x.key != k ==> Has(d + [x], k) == Has(d, k)
    ensures x.key != k && Has(d, k) ==> Find(d + [x], k) == Find(d, k) && At(d + [x], k) == At(d, k)
  {
    if Has(d + [x], k) && x.key != k {
      assert (d + [x])[Find(d + [x], k)] == d[Find(d + [x], k)];
    }
    if Has(d, k) {
      assert (d + [x])[Find(d, k)] == d[Find(d, k)];
      FindIs(d + [x], k, Find(d, k));
    }
    FindIs(d + [x], x.key, |d|);
  }

  lemma SuffixKeeps<K, V>(d: seq<Entry<K, V>>, cut: nat, k: K)
    requires Distinct(d) && cut <= |d| && Has(d, k) && Find(d, k) >= cut
    ensures Find(d[cut..], k) == Find(d, k) - cut && Has(d[cut..], k) && At(d[cut..], k) == At(d, k)
  {
    FindIs(d[cut..], k, Find(d, k) - cut);
  }

  lemma SuffixFacts<K, V>(d: seq<Entry<K, V>>, cut: nat, k: K)
    requires Distinct(d) && cut <= |d|
    ensures Distinct(d[cut..])
    ensures Has(d[cut..], k) <==> Has(d, k) && Find(d, k) >= cut
    ensures Has(d[cut..], k) ==> Find(d[cut..], k) == Find(d, k) - cut && At(d[cut..], k) == At(d, k)
  {
    if Has(d, k) && Find(d, k) >= cut {
      SuffixKeeps(d, cut, k);
    } else if Has(d[cut..], k) {
      FindIs(d, k, Find(d[cut..], k) + cut);
    }
  }
}

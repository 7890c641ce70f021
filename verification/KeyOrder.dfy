/** Python's order on strings, and `sorted` on the items of a dictionary. */
module KeyOrder {
  import opened OrderedDict

  /** Lexicographic by code point. */
  predicate Less(a: string, b: string) {
    b != [] && (a == [] || a[0] < b[0] || (a[0] == b[0] && Less(a[1..], b[1..])))
  }

  lemma {:induction false} LessTotal(a: string, b: string)
    ensures Less(a, b) || a == b || Less(b, a)
    ensures !(Less(a, b) && Less(b, a)) && !Less(a, a)
    decreases |a|
  {
    if a != [] {
      LessTotal(a[1..], a[1..]);
      if b != [] {
        LessTotal(a[1..], b[1..]);
        assert a[0] == b[0] && a[1..] == b[1..] ==> a == b by {
          assert a == [a[0]] + a[1..] && b == [b[0]] + b[1..];
        }
      }
    }
  }

  lemma {:induction false} LessTransitive(a: string, b: string, c: string)
    requires Less(a, b) && Less(b, c)
    ensures Less(a, c)
  {
    if a != [] && a[0] == b[0] == c[0] {
      LessTransitive(a[1..], b[1..], c[1..]);
    }
  }

  /** The two strings agree on `k` characters; there the first one ends, or has the smaller character. */
  predicate DivergesAt(a: string, b: string, k: nat) {
    k <= |a| && k < |b| && a[..k] == b[..k] && (k == |a| || a[k] < b[k])
  }

  /** The order by the first difference. */
  lemma {:induction false} LessByDifference(a: string, b: string)
    ensures Less(a, b) <==> exists k: nat :: DivergesAt(a, b, k)
  {
    if b != [] && a != [] && a[0] == b[0] {
      LessByDifference(a[1..], b[1..]);
      forall k: nat ensures DivergesAt(a[1..], b[1..], k) <==> DivergesAt(a, b, k + 1) {
        DivergesLater(a, b, k);
      }
      if Less(a[1..], b[1..]) {
        var k: nat :| DivergesAt(a[1..], b[1..], k);
        assert DivergesAt(a, b, k + 1);
      }
      forall k: nat | DivergesAt(a, b, k) ensures k > 0 && DivergesAt(a[1..], b[1..], k - 1) {
        assert k > 0;
        DivergesLater(a, b, k - 1);
      }
    } else if b != [] {
      assert DivergesAt(a, b, 0) <==> a == [] || a[0] < b[0];
      forall k: nat | k > 0 ensures !DivergesAt(a, b, k) {
        NotBehindDifference(a, b, k);
      }
    }
  }

  lemma DivergesLater(a: string, b: string, k: nat)
    requires a != [] && b != [] && a[0] == b[0]
    ensures DivergesAt(a[1..], b[1..], k) <==> DivergesAt(a, b, k + 1)
  {
    if k < |a| && k < |b| {
      assert a[..k + 1] == [a[0]] + a[1..][..k] && b[..k + 1] == [b[0]] + b[1..][..k];
      assert a[..k + 1][1..] == a[1..][..k] && b[..k + 1][1..] == b[1..][..k];
    }
  }

  lemma NotBehindDifference(a: string, b: string, k: nat)
    requires k > 0 && b != [] && (a == [] || a[0] != b[0])
    ensures !DivergesAt(a, b, k)
  {
    if k <= |a| && k < |b| {
      assert a[..k][0] == a[0] && b[..k][0] == b[0];
    }
  }

  /** An item of a dictionary with string keys. */
  type Item<T> = Entry<string, T>

  predicate StrictlySorted<T>(items: seq<Item<T>>) {
    forall i, j :: 0 <= i < j < |items| ==> Less(items[i].key, items[j].key)
  }

  function Insert<T(!new)>(items: seq<Item<T>>, x: Item<T>): (r: seq<Item<T>>)
    ensures |r| == |items| + 1
    ensures forall e :: e in r <==> e in items || e == x
  {
    if items == [] then [x]
    else if Less(items[0].key, x.key) then
      assert forall e :: e in items <==> e == items[0] || e in items[1..];
      [items[0]] + Insert(items[1..], x)
    else [x] + items
  }

  /** `sorted(d.items())`; the keys of a dictionary are distinct, so values are never compared. */
  function Sorted<T(!new)>(items: seq<Item<T>>): (r: seq<Item<T>>)
    ensures |r| == |items|
    ensures forall e :: e in r <==> e in items
  {
    if items == [] then []
    else
      assert forall e :: e in items <==> e == items[0] || e in items[1..];
      Insert(Sorted(items[1..]), items[0])
  }

  lemma {:induction false} InsertKeepsOrder<T(!new)>(items: seq<Item<T>>, x: Item<T>)
    requires StrictlySorted(items) && forall e :: e in items ==> e.key != x.key
    ensures StrictlySorted(Insert(items, x))
  {
    if items != [] {
      LessTotal(items[0].key, x.key);
      if Less(items[0].key, x.key) {
        InsertKeepsOrder(items[1..], x);
        var rest := Insert(items[1..], x);
        forall j | 0 <= j < |rest| ensures Less(items[0].key, rest[j].key) {
          assert rest[j] in rest;
        }
      } else {
        forall j | 0 <= j < |items| ensures Less(x.key, items[j].key) {
          if j > 0 {
            LessTransitive(x.key, items[0].key, items[j].key);
          }
        }
      }
    }
  }

  lemma {:induction false} SortedIsSorted<T(!new)>(items: seq<Item<T>>)
    requires Distinct(items)
    ensures StrictlySorted(Sorted(items))
  {
    if items != [] {
      SortedIsSorted(items[1..]);
      InsertKeepsOrder(Sorted(items[1..]), items[0]);
    }
  }

  ghost function Keys<T>(items: seq<Item<T>>): set<string> { set e | e in items :: e.key }

  /** Two sorted item lists with the same keys list them at the same positions. */
  lemma {:induction false} SameKeysSamePlaces<S, T>(a: seq<Item<S>>, b: seq<Item<T>>)
    requires StrictlySorted(a) && StrictlySorted(b)
    requires forall i :: 0 <= i < |a| ==> a[i].key in Keys(b)
    requires forall i :: 0 <= i < |b| ==> b[i].key in Keys(a)
    ensures |a| == |b| && forall i :: 0 <= i < |a| ==> a[i].key == b[i].key
  {
    assert (a != [] ==> a[0].key in Keys(b)) && (b != [] ==> b[0].key in Keys(a));
    if a != [] {
      FirstIsLeast(a, b);
      FirstIsLeast(b, a);
      LessTotal(a[0].key, b[0].key);
      RestKeys(a, b);
      RestKeys(b, a);
      SameKeysSamePlaces(a[1..], b[1..]);
      forall i | 0 <= i < |a| ensures a[i].key == b[i].key {
        assert i > 0 ==> a[i] == a[1..][i - 1] && b[i] == b[1..][i - 1];
      }
    }
  }

  lemma FirstIsLeast<S, T>(a: seq<Item<S>>, b: seq<Item<T>>)
    requires StrictlySorted(b) && a != [] && b != [] && a[0].key in Keys(b)
    ensures a[0].key == b[0].key || Less(b[0].key, a[0].key)
  {}

  lemma RestKeys<S, T>(a: seq<Item<S>>, b: seq<Item<T>>)
    requires StrictlySorted(a) && a != [] && b != [] && a[0].key == b[0].key
    requires forall i :: 0 <= i < |a| ==> a[i].key in Keys(b)
    ensures forall i :: 0 <= i < |a[1..]| ==> a[1..][i].key in Keys(b[1..])
  {
    forall i | 1 <= i < |a| ensures a[i].key in Keys(b[1..]) {
      LessTotal(a[0].key, a[i].key);
      var e :| e in b && e.key == a[i].key;
      assert e in b[1..];
    }
  }
}

/** What a prefix pointer does not say, and what happens to texts that look like one. */
module PrefixExamples {
  import opened Prelude
  import opened Messages
  import opened OrderedDict
  import opened PrefixPointers
  import Decimal

  function Chat(text: string): Message { Message("user", None, [], Text(text)) }

  /* ---------- Two messages ---------- */

  function Pair(source: string, text: string): seq<Message> { [Chat(source), Chat(text)] }

  function PairSegments(source: string, text: string): seq<Segment> { [Segment(0, source), Segment(1, text)] }

  /** What `optimize` makes of a conversation, up to the alignment to token boundaries: the table is any right one. */
  ghost predicate IsOutput(messages: seq<Message>, minPrefix: int, minOccurrences: int, optimized: seq<Message>) {
    exists segments, entries, first ::
      IsOutputBy(messages, minPrefix, minOccurrences, optimized, segments, entries, first)
  }

  ghost predicate IsOutputBy(messages: seq<Message>, minPrefix: int, minOccurrences: int, optimized: seq<Message>,
                             segments: seq<Segment>, entries: seq<PrefixEntry>, first: seq<(nat, nat)>) {
    && AreSegments(segments, messages) && IsPrefixTable(segments, minPrefix, minOccurrences, entries, first)
    && (forall e :: e in entries ==> UsableEntry(|messages|, e))
    && optimized == Rewritten(messages, entries, minOccurrences)
  }

  lemma SegmentsOfPair(source: string, text: string, segments: seq<Segment>)
    requires !IsBlank(source) && !IsBlank(text) && AreSegments(segments, Pair(source, text))
    ensures segments == PairSegments(source, text)
  {
    var ms := Pair(source, text);
    assert TextOf(ms[0]) == Some(source) && TextOf(ms[1]) == Some(text);
    assert Segment(0, source) in segments && Segment(1, text) in segments;
    forall a | 0 <= a < |segments| ensures segments[a] == Segment(0, source) || segments[a] == Segment(1, text) {
      assert segments[a] in segments;
    }
    TwoSegments(segments, Segment(0, source), Segment(1, text));
  }

  lemma TwoSegments(segments: seq<Segment>, x: Segment, y: Segment)
    requires forall a, b :: 0 <= a < b < |segments| ==> segments[a].index < segments[b].index
    requires forall a :: 0 <= a < |segments| ==> segments[a] == x || segments[a] == y
    requires x in segments && y in segments && x.index < y.index
    ensures segments == [x, y]
  {
    var i :| 0 <= i < |segments| && segments[i] == x;
    var j :| 0 <= j < |segments| && segments[j] == y;
    var last := |segments| - 1;
    var s, t, u := segments[0], segments[1], segments[last];
    assert (s == x || s == y) && (t == x || t == y) && (u == x || u == y);
    assert i == 0 && j == 1 == last;
  }

  lemma CarriersOfPair(source: string, text: string, p: string)
    requires p <= source && p <= text
    ensures Carriers(PairSegments(source, text), p) == {0, 1}
  {
    var segments := PairSegments(source, text);
    assert segments[0] in segments && segments[1] in segments;
  }

  /** The later text is shortened: the common prefix is long enough to record and longer than the pointer. */
  predicate IsShortened(source: string, text: string, minPrefix: int) {
    |Lcp(source, text)| >= minPrefix && |Lcp(source, text)| > |Pointer(0)|
  }

  function PairOutput(source: string, text: string, minPrefix: int): seq<Message> {
    if IsShortened(source, text, minPrefix) then Pair(source, Pointer(0) + text[|Lcp(source, text)|..])
    else Pair(source, text)
  }

  lemma KeysOfPair(source: string, text: string, minPrefix: int, minOccurrences: int,
                   entries: seq<PrefixEntry>, first: seq<(nat, nat)>)
    requires IsPrefixTable(PairSegments(source, text), minPrefix, minOccurrences, entries, first)
    ensures |entries| <= 1
    ensures entries != [] ==> entries[0].key == Lcp(source, text) && ToSet(entries[0].value) == {0, 1}
  {
    forall x | 0 <= x < |entries| ensures entries[x].key == Lcp(source, text) {
      assert Meets(PairSegments(source, text), entries[x].key, first[x].0, first[x].1);
      LcpUnique(entries[x].key, Lcp(source, text), source, text);
    }
    if entries != [] {
      assert entries[0].key == entries[|entries| - 1].key;
    }
    CarriersOfPair(source, text, Lcp(source, text));
  }

  lemma TableOfPair(source: string, text: string, minPrefix: int, minOccurrences: int,
                    entries: seq<PrefixEntry>, first: seq<(nat, nat)>)
    requires IsPrefixTable(PairSegments(source, text), minPrefix, minOccurrences, entries, first)
    requires minOccurrences <= 2 && |Lcp(source, text)| >= minPrefix
    ensures entries != []
  {
    CarriersOfPair(source, text, Lcp(source, text));
    assert Meets(PairSegments(source, text), Lcp(source, text), 0, 1);
  }

  /** Two messages have exactly this output, whatever the right table. */
  lemma OutputOfPair(source: string, text: string, minPrefix: int, minOccurrences: int, optimized: seq<Message>)
    requires !IsBlank(source) && !IsBlank(text) && minOccurrences <= 2
    ensures IsOutput(Pair(source, text), minPrefix, minOccurrences, optimized) <==>
        optimized == PairOutput(source, text, minPrefix)
  {
    if IsOutput(Pair(source, text), minPrefix, minOccurrences, optimized) {
      OnlyOutputOfPair(source, text, minPrefix, minOccurrences, optimized);
    }
    PairHasOutput(source, text, minPrefix, minOccurrences);
  }

  function PairTable(source: string, text: string, minPrefix: int): seq<PrefixEntry> {
    if |Lcp(source, text)| >= minPrefix then [Entry(Lcp(source, text), [0, 1])] else []
  }

  function PairFirst(source: string, text: string, minPrefix: int): seq<(nat, nat)> {
    if |Lcp(source, text)| >= minPrefix then [(0, 1)] else []
  }

  lemma PairMeets(source: string, text: string, r: string, i: nat, j: nat)
    ensures Meets(PairSegments(source, text), r, i, j) <==> i == 0 && j == 1 && r == Lcp(source, text)
  {
    if Meets(PairSegments(source, text), r, i, j) {
      LcpUnique(r, Lcp(source, text), source, text);
    }
  }

  lemma PairTableIsRight(source: string, text: string, minPrefix: int, minOccurrences: int)
    ensures IsPrefixTable(PairSegments(source, text), minPrefix, minOccurrences, PairTable(source, text, minPrefix),
                          PairFirst(source, text, minPrefix))
  {
    forall r, i: nat, j: nat
      ensures Meets(PairSegments(source, text), r, i, j) <==> i == 0 && j == 1 && r == Lcp(source, text)
    {
      PairMeets(source, text, r, i, j);
    }
    CarriersOfPair(source, text, Lcp(source, text));
    var entries := PairTable(source, text, minPrefix);
    assert entries != [] ==> entries[0].key == Lcp(source, text);
  }

  lemma PairSegmentsAreRight(source: string, text: string)
    requires !IsBlank(source) && !IsBlank(text)
    ensures AreSegments(PairSegments(source, text), Pair(source, text))
  {
    var segments := PairSegments(source, text);
    assert segments[0] in segments && segments[1] in segments;
  }

  lemma PairHasOutput(source: string, text: string, minPrefix: int, minOccurrences: int)
    requires !IsBlank(source) && !IsBlank(text) && minOccurrences <= 2
    ensures IsOutput(Pair(source, text), minPrefix, minOccurrences, PairOutput(source, text, minPrefix))
  {
    var segments, entries, first :=
        PairSegments(source, text), PairTable(source, text, minPrefix), PairFirst(source, text, minPrefix);
    PairSegmentsAreRight(source, text);
    PairTableIsRight(source, text, minPrefix, minOccurrences);
    OutputOfTable(source, text, minPrefix, minOccurrences, entries, first);
    OutputIs(Pair(source, text), minPrefix, minOccurrences, PairOutput(source, text, minPrefix), segments, entries,
        first);
  }

  lemma OnlyOutputOfPair(source: string, text: string, minPrefix: int, minOccurrences: int, optimized: seq<Message>)
    requires !IsBlank(source) && !IsBlank(text) && minOccurrences <= 2
    requires IsOutput(Pair(source, text), minPrefix, minOccurrences, optimized)
    ensures optimized == PairOutput(source, text, minPrefix)
  {
    var segments: seq<Segment>, entries: seq<PrefixEntry>, first: seq<(nat, nat)> :|
      IsOutputBy(Pair(source, text), minPrefix, minOccurrences, optimized, segments, entries, first);
    SegmentsOfPair(source, text, segments);
    OutputOfTable(source, text, minPrefix, minOccurrences, entries, first);
  }

  lemma OutputOfTable(source: string, text: string, minPrefix: int, minOccurrences: int,
                      entries: seq<PrefixEntry>, first: seq<(nat, nat)>)
    requires IsPrefixTable(PairSegments(source, text), minPrefix, minOccurrences, entries, first) && minOccurrences <= 2
    requires forall e :: e in entries ==> UsableEntry(2, e)
    ensures Rewritten(Pair(source, text), entries, minOccurrences) == PairOutput(source, text, minPrefix)
  {
    KeysOfPair(source, text, minPrefix, minOccurrences, entries, first);
    if entries == [] {
      if |Lcp(source, text)| >= minPrefix {
        TableOfPair(source, text, minPrefix, minOccurrences, entries, first);
      }
    } else {
      assert |entries[0].key| >= minPrefix;
      OneEntry(source, text, entries[0], minOccurrences);
      RewrittenByOne(Pair(source, text), entries, minOccurrences);
    }
  }

  lemma RewrittenByOne(messages: seq<Message>, entries: seq<PrefixEntry>, minOccurrences: int)
    requires |entries| == 1 && UsableEntry(|messages|, entries[0])
    ensures (forall e :: e in entries ==> UsableEntry(|messages|, e))
         && Rewritten(messages, entries, minOccurrences) == ApplyEntry(messages, entries[0], minOccurrences)
  {
    assert entries[..0] == [];
  }

  lemma OneEntry(source: string, text: string, e: PrefixEntry, minOccurrences: int)
    requires minOccurrences <= 2 && e.key == Lcp(source, text) && ToSet(e.value) == {0, 1} && UsableEntry(2, e)
    ensures ApplyEntry(Pair(source, text), e, minOccurrences)
         == if |e.key| > |Pointer(0)| then Pair(source, Pointer(0) + text[|e.key|..]) else Pair(source, text)
  {
    assert forall y :: y in e.value <==> y in ToSet(e.value);
    SortedUnique(e.value, [0, 1]);
    assert [0, 1][1..] == [1];
  }

  /** An increasing sequence is determined by its elements. */
  lemma {:induction false} IncreasingUnique(r: seq<nat>, t: seq<nat>)
    requires Increasing(r) && Increasing(t) && forall y :: y in r <==> y in t
    ensures r == t
  {
    assert (r != [] ==> r[0] in r) && (t != [] ==> t[0] in t);
    if r != [] {
      assert r[0] == t[0];
      forall y ensures y in r[1..] <==> y in t[1..] {
        assert y in r[1..] <==> y in r && y != r[0];
        assert y in t[1..] <==> y in t && y != t[0];
      }
      IncreasingUnique(r[1..], t[1..]);
    }
  }

  lemma SortedUnique(s: seq<nat>, t: seq<nat>)
    requires Increasing(t) && forall y :: y in s <==> y in t
    ensures SortedDistinct(s) == t
  {
    IncreasingUnique(SortedDistinct(s), t);
  }

  /* ---------- The pointer does not carry a length ---------- */

  /**
   * Putting `k` characters of the source before `rest` gives a text that is shortened to the pointer and `rest`:
   * `k` is long enough, `rest` does not go on as the source does, and the text is not blank.
   */
  predicate IsCut(source: string, rest: string, k: nat, minPrefix: int) {
    && k <= |source| && k >= minPrefix && k > |Pointer(0)| && !IsBlank(source[..k] + rest)
    && (k == |source| || rest == [] || source[k] != rest[0])
  }

  lemma LcpOfCut(source: string, rest: string, k: nat)
    requires k <= |source| && (k == |source| || rest == [] || source[k] != rest[0])
    ensures Lcp(source, source[..k] + rest) == source[..k]
  {
    var text := source[..k] + rest;
    assert text[..k] == source[..k];
    LcpUnique(source[..k], Lcp(source, text), source, text);
  }

  /** Different cuts of one source give different conversations with the same output: the prefix cannot be recovered. */
  lemma PointersCollide(source: string, rest: string, j: nat, k: nat, minPrefix: int)
    requires j != k && IsCut(source, rest, j, minPrefix) && IsCut(source, rest, k, minPrefix)
    ensures source[..j] + rest != source[..k] + rest
    ensures PairOutput(source, source[..j] + rest, minPrefix) == Pair(source, Pointer(0) + rest)
         == PairOutput(source, source[..k] + rest, minPrefix)
    ensures !(HEAD <= source) ==> !(HEAD <= source[..j] + rest) && !(HEAD <= source[..k] + rest)
  {
    CutOutput(source, rest, j, minPrefix);
    CutOutput(source, rest, k, minPrefix);
    assert |source[..j] + rest| != |source[..k] + rest|;
    CutHead(source, rest, j);
    CutHead(source, rest, k);
  }

  lemma CutOutput(source: string, rest: string, k: nat, minPrefix: int)
    requires IsCut(source, rest, k, minPrefix)
    ensures PairOutput(source, source[..k] + rest, minPrefix) == Pair(source, Pointer(0) + rest)
    ensures IsShortened(source, source[..k] + rest, minPrefix)
  {
    LcpOfCut(source, rest, k);
    assert (source[..k] + rest)[k..] == rest;
  }

  lemma CutHead(source: string, rest: string, k: nat)
    requires |Pointer(0)| < k <= |source|
    ensures HEAD <= source[..k] + rest <==> HEAD <= source
  {
    assert (source[..k] + rest)[..|HEAD|] == source[..|HEAD|];
  }

  /** No other two plain texts have the same output. */
  ghost predicate IsRecoverable(source: string, text: string, minPrefix: int) {
    forall s, t :: IsPlain(s) && IsPlain(t) && PairOutput(s, t, minPrefix) == PairOutput(source, text, minPrefix) ==>
      s == source && t == text
  }

  /** Not blank, and not like a pointer. */
  predicate IsPlain(text: string) { !IsBlank(text) && !(HEAD <= text) }

  /** Nothing was shortened, or the common prefix is the only possible cut of the source. */
  ghost predicate IsOnlyCut(source: string, text: string, minPrefix: int) {
    var p := Lcp(source, text);
    IsShortened(source, text, minPrefix) ==> forall k: nat :: IsCut(source, text[|p|..], k, minPrefix) ==> k == |p|
  }

  /** Two plain messages can be recovered exactly when nothing was shortened or no other cut is possible. */
  lemma RecoverableExactly(source: string, text: string, minPrefix: int)
    requires IsPlain(source) && IsPlain(text)
    ensures IsRecoverable(source, text, minPrefix) <==> IsOnlyCut(source, text, minPrefix)
  {
    if IsOnlyCut(source, text, minPrefix) {
      forall s, t | IsPlain(s) && IsPlain(t) && PairOutput(s, t, minPrefix) == PairOutput(source, text, minPrefix)
        ensures s == source && t == text
      {
        SameOutput(source, text, s, t, minPrefix);
      }
    } else {
      OtherCutCollides(source, text, minPrefix);
    }
  }

  lemma OtherCutCollides(source: string, text: string, minPrefix: int)
    requires IsPlain(source) && IsPlain(text) && !IsOnlyCut(source, text, minPrefix)
    ensures !IsRecoverable(source, text, minPrefix)
  {
    var p := Lcp(source, text);
    var rest := text[|p|..];
    var k: nat :| IsCut(source, rest, k, minPrefix) && k != |p|;
    TextIsCut(source, text, minPrefix);
    PointersCollide(source, rest, |p|, k, minPrefix);
    assert IsPlain(source[..k] + rest);
  }

  lemma TextIsCut(source: string, text: string, minPrefix: int)
    requires IsPlain(text) && IsShortened(source, text, minPrefix)
    ensures var p := Lcp(source, text);
      text == source[..|p|] + text[|p|..] && IsCut(source, text[|p|..], |p|, minPrefix)
  {
    var p := Lcp(source, text);
    assert p == source[..|p|] == text[..|p|];
    assert text == text[..|p|] + text[|p|..];
  }

  lemma SameOutput(source: string, text: string, s: string, t: string, minPrefix: int)
    requires IsPlain(source) && IsPlain(text) && IsPlain(s) && IsPlain(t)
    requires PairOutput(s, t, minPrefix) == PairOutput(source, text, minPrefix)
    requires IsOnlyCut(source, text, minPrefix)
    ensures s == source && t == text
  {
    var mine, other := PairOutput(source, text, minPrefix)[1].content.text, PairOutput(s, t, minPrefix)[1].content.text;
    assert PairOutput(s, t, minPrefix)[0] == Chat(s) && PairOutput(source, text, minPrefix)[0] == Chat(source);
    assert mine == other && s == source;
    assert IsShortened(source, text, minPrefix) <==> HEAD <= mine;
    assert IsShortened(s, t, minPrefix) <==> HEAD <= other;
    if IsShortened(source, text, minPrefix) {
      var p, q := Lcp(source, text), Lcp(s, t);
      assert mine[|Pointer(0)|..] == text[|p|..] && other[|Pointer(0)|..] == t[|q|..];
      TextIsCut(source, text, minPrefix);
      TextIsCut(s, t, minPrefix);
    }
  }

  /** In particular the later text must go on behind the whole source. */
  lemma OnlyWholeSources(source: string, text: string, minPrefix: int)
    requires !IsBlank(source) && IsShortened(source, text, minPrefix) && IsOnlyCut(source, text, minPrefix)
    ensures source <= text
  {
    WholeSourceIsCut(source, text[|Lcp(source, text)|..], minPrefix);
  }

  lemma WholeSourceIsCut(source: string, rest: string, minPrefix: int)
    requires !IsBlank(source) && |source| >= minPrefix && |source| > |Pointer(0)|
    ensures IsCut(source, rest, |source|, minPrefix)
  {
    assert source[..|source|] == source;
    NotBlankMore(source, rest);
  }

  lemma NotBlankMore(a: string, b: string)
    requires !IsBlank(a)
    ensures !IsBlank(a + b)
  {
    var i :| 0 <= i < |a| && !IsSpace(a[i]);
    assert (a + b)[i] == a[i];
  }

  /* ---------- Texts that look like pointers ---------- */

  /** `n` times the letter z. */
  function Z(n: nat): string { seq(n, _ => 'z') }

  /** Three texts that start with `a` and go on alike; with `a == Pointer(0)` they look like pointers. */
  function Alike(a: string, n: nat): seq<Message> { [Chat(a + Z(n)), Chat(a + Z(n + 1)), Chat(a + Z(2 * n + 2))] }

  function AlikeSegments(a: string, n: nat): seq<Segment> {
    [Segment(0, a + Z(n)), Segment(1, a + Z(n + 1)), Segment(2, a + Z(2 * n + 2))]
  }

  function AlikeTable(a: string, n: nat): seq<PrefixEntry> {
    [Entry(a + Z(n), [0, 1, 0, 2]), Entry(a + Z(n + 1), [1, 2])]
  }

  const ALIKE_FIRST: seq<(nat, nat)> := [(0, 1), (1, 2)]

  lemma ZPrefix(a: string, m: nat, n: nat)
    ensures a + Z(m) <= a + Z(n) <==> m <= n
    ensures m <= n ==> a + Z(n) == a + Z(m) + Z(n - m)
  {
    if m <= n {
      assert (a + Z(n))[..|a| + m] == a + Z(m);
    }
  }

  lemma ZLcp(a: string, m: nat, n: nat, p: string)
    requires m <= n
    ensures IsLcp(p, a + Z(m), a + Z(n)) <==> p == a + Z(m)
  {
    ZPrefix(a, m, n);
    if IsLcp(p, a + Z(m), a + Z(n)) {
      LcpUnique(p, a + Z(m), a + Z(m), a + Z(n));
    }
  }

  lemma AlikeMeets(a: string, n: nat, r: string, i: nat, j: nat)
    ensures Meets(AlikeSegments(a, n), r, i, j) <==> i < j < 3 && r == if i == 0 then a + Z(n) else a + Z(n + 1)
  {
    ZLcp(a, n, n + 1, r);
    ZLcp(a, n, 2 * n + 2, r);
    ZLcp(a, n + 1, 2 * n + 2, r);
  }

  lemma AlikeCarriers(a: string, n: nat)
    ensures Carriers(AlikeSegments(a, n), a + Z(n)) == {0, 1, 2}
    ensures Carriers(AlikeSegments(a, n), a + Z(n + 1)) == {1, 2}
  {
    var segments := AlikeSegments(a, n);
    assert segments[0] in segments && segments[1] in segments && segments[2] in segments;
    ZPrefix(a, n, n);
    ZPrefix(a, n, n + 1);
    ZPrefix(a, n, 2 * n + 2);
    ZPrefix(a, n + 1, n);
    ZPrefix(a, n + 1, n + 1);
    ZPrefix(a, n + 1, 2 * n + 2);
  }

  lemma AlikeSegmentsAreRight(a: string, n: nat)
    requires a != [] && !IsSpace(a[0])
    ensures AreSegments(AlikeSegments(a, n), Alike(a, n))
  {
    var segments := AlikeSegments(a, n);
    assert forall x :: 0 <= x < 3 ==> segments[x].text[0] == a[0];
    assert segments[0] in segments && segments[1] in segments && segments[2] in segments;
  }

  lemma AlikeTableIsRight(a: string, n: nat, minPrefix: int)
    requires |a| + n >= minPrefix
    ensures IsPrefixTable(AlikeSegments(a, n), minPrefix, 2, AlikeTable(a, n), ALIKE_FIRST)
  {
    var segments, entries := AlikeSegments(a, n), AlikeTable(a, n);
    forall r, i: nat, j: nat
      ensures Meets(segments, r, i, j) <==> i < j < 3 && r == if i == 0 then a + Z(n) else a + Z(n + 1)
    {
      AlikeMeets(a, n, r, i, j);
    }
    AlikeCarriers(a, n);
    assert |a + Z(n)| < |a + Z(n + 1)|;
    assert entries[0].key == a + Z(n) && entries[1].key == a + Z(n + 1);
  }

  lemma ShortenTail(p: string, tail: string, pointer: string)
    requires |pointer| < |p|
    ensures Shorten(Chat(p + tail), p, pointer) == Chat(pointer + tail)
  {
    assert (p + tail)[|p|..] == tail;
  }

  /** Taking `a` and `m` letters off a text, and putting a pointer as long as `a` before the other `k` letters. */
  lemma AlikeTail(a: string, m: nat, k: nat, pointer: string)
    requires 1 <= m && |pointer| == |a|
    ensures Shorten(Chat(a + Z(m + k)), a + Z(m), pointer) == Chat(pointer + Z(k))
  {
    ZPrefix(a, m, m + k);
    assert Z(m + k - m) == Z(k);
    ShortenTail(a + Z(m), Z(k), pointer);
  }

  /** What one entry does to three messages. */
  lemma ApplyToThree(messages: seq<Message>, e: PrefixEntry, indices: seq<nat>, pointer: string)
    requires |messages| == 3 && UsableEntry(3, e)
    requires indices == SortedDistinct(e.value) && |indices| >= 2 && pointer == Pointer(indices[0])
    ensures ApplyEntry(messages, e, 2) ==
            [if 0 in indices[1..] then Shorten(messages[0], e.key, pointer) else messages[0],
             if 1 in indices[1..] then Shorten(messages[1], e.key, pointer) else messages[1],
             if 2 in indices[1..] then Shorten(messages[2], e.key, pointer) else messages[2]]
  {}

  function AfterFirst(a: string, n: nat): seq<Message> { [Chat(a + Z(n)), Chat(a + Z(1)), Chat(a + Z(n + 2))] }

  function AfterBoth(a: string, n: nat): seq<Message> { [Chat(a + Z(n)), Chat(a + Z(1)), Chat(Pointer(1) + Z(1))] }

  lemma LaterTwo(messages: seq<Message>, e: PrefixEntry, one: Message, two: Message)
    requires |messages| == 3 && UsableEntry(3, e) && SortedDistinct(e.value) == [0, 1, 2]
    requires one == Shorten(messages[1], e.key, Pointer(0)) && two == Shorten(messages[2], e.key, Pointer(0))
    ensures ApplyEntry(messages, e, 2) == [messages[0], one, two]
  {
    assert [0, 1, 2][1..] == [1, 2];
    ApplyToThree(messages, e, [0, 1, 2], Pointer(0));
  }

  lemma LastOne(messages: seq<Message>, e: PrefixEntry, two: Message)
    requires |messages| == 3 && UsableEntry(3, e) && SortedDistinct(e.value) == [1, 2]
    requires two == Shorten(messages[2], e.key, Pointer(1))
    ensures ApplyEntry(messages, e, 2) == [messages[0], messages[1], two]
  {
    assert [1, 2][1..] == [2];
    ApplyToThree(messages, e, [1, 2], Pointer(1));
  }

  lemma AlikeUsable(a: string, n: nat)
    ensures forall e :: e in AlikeTable(a, n) ==> UsableEntry(3, e)
    ensures SortedDistinct([0, 1, 0, 2]) == [0, 1, 2] && SortedDistinct([1, 2]) == [1, 2]
  {
    SortedUnique([0, 1, 0, 2], [0, 1, 2]);
    SortedUnique([1, 2], [1, 2]);
  }

  lemma AlikeFirstPass(a: string, n: nat)
    requires a == Pointer(0) && n >= 1 && UsableEntry(3, AlikeTable(a, n)[0])
    ensures ApplyEntry(Alike(a, n), AlikeTable(a, n)[0], 2) == AfterFirst(a, n)
  {
    AlikeUsable(a, n);
    AlikeTail(a, n, 1, a);
    AlikeTail(a, n, n + 2, a);
    assert n + (n + 2) == 2 * n + 2;
    LaterTwo(Alike(a, n), AlikeTable(a, n)[0], Chat(a + Z(1)), Chat(a + Z(n + 2)));
  }

  lemma AlikeSecondPass(a: string, n: nat)
    requires a == Pointer(0) && |a| == |Pointer(1)| && n >= 1 && UsableEntry(3, AlikeTable(a, n)[1])
    ensures ApplyEntry(AfterFirst(a, n), AlikeTable(a, n)[1], 2) == AfterBoth(a, n)
  {
    AlikeUsable(a, n);
    AlikeTail(a, n + 1, 1, Pointer(1));
    LastOne(AfterFirst(a, n), AlikeTable(a, n)[1], Chat(Pointer(1) + Z(1)));
  }

  lemma RewrittenByTwo(messages: seq<Message>, entries: seq<PrefixEntry>)
    requires |entries| == 2 && forall e :: e in entries ==> UsableEntry(|messages|, e)
    ensures UsableEntry(|messages|, entries[0]) && UsableEntry(|messages|, entries[1])
    ensures Rewritten(messages, entries, 2) == ApplyEntry(ApplyEntry(messages, entries[0], 2), entries[1], 2)
  {
    assert entries[..1] == [entries[0]] && entries[..1][..0] == [];
    assert Rewritten(messages, entries[..1], 2) == ApplyEntry(messages, entries[0], 2);
  }

  lemma AlikeRewritten(a: string, n: nat)
    requires a == Pointer(0) && n >= 1 && forall e :: e in AlikeTable(a, n) ==> UsableEntry(3, e)
    ensures Rewritten(Alike(a, n), AlikeTable(a, n), 2) == AfterBoth(a, n)
  {
    RewrittenByTwo(Alike(a, n), AlikeTable(a, n));
    AlikeFirstPass(a, n);
    PointersAreAsLong();
    AlikeSecondPass(a, n);
  }

  lemma PointersAreAsLong()
    ensures |Pointer(0)| == |Pointer(1)|
  {
    assert Decimal.Show(0) == "0" && Decimal.Show(1) == "1";
  }

  /**
   * Whatever the minimum prefix, three texts that start like a pointer can end in a chain: message 1 is shortened, its
   * new text still starts like the first prefix, and message 2 ends up pointing at the shortened message 1.
   */
  lemma PointerChainExists(minPrefix: int, n: nat)
    requires n >= 1 && |Pointer(0)| + n >= minPrefix
    ensures IsOutput(Alike(Pointer(0), n), minPrefix, 2, AfterBoth(Pointer(0), n))
    ensures !NoPointerChains(Alike(Pointer(0), n), AfterBoth(Pointer(0), n))
  {
    AlikeOutput(Pointer(0), minPrefix, n);
    AlikeIsChained(n);
  }

  lemma PointerIsNotBlank()
    ensures Pointer(0) != [] && !IsSpace(Pointer(0)[0])
  {
    assert HEAD[0] == '[';
  }

  lemma AlikeOutput(a: string, minPrefix: int, n: nat)
    requires a == Pointer(0) && n >= 1 && |a| + n >= minPrefix
    ensures IsOutput(Alike(a, n), minPrefix, 2, AfterBoth(a, n))
  {
    PointerIsNotBlank();
    AlikeSegmentsAreRight(a, n);
    AlikeTableIsRight(a, n, minPrefix);
    AlikeUsable(a, n);
    AlikeRewritten(a, n);
    OutputIs(Alike(a, n), minPrefix, 2, AfterBoth(a, n), AlikeSegments(a, n), AlikeTable(a, n), ALIKE_FIRST);
  }

  lemma OutputIs(messages: seq<Message>, minPrefix: int, minOccurrences: int, optimized: seq<Message>,
                 segments: seq<Segment>, entries: seq<PrefixEntry>, first: seq<(nat, nat)>)
    requires IsOutputBy(messages, minPrefix, minOccurrences, optimized, segments, entries, first)
    ensures IsOutput(messages, minPrefix, minOccurrences, optimized)
  {}

  lemma AlikeIsChained(n: nat)
    requires n >= 1
    ensures !NoPointerChains(Alike(Pointer(0), n), AfterBoth(Pointer(0), n))
  {
    var messages, optimized := Alike(Pointer(0), n), AfterBoth(Pointer(0), n);
    PointersAreAsLong();
    assert |optimized[1].content.text| != |messages[1].content.text|;
    assert |optimized[2].content.text| != |messages[2].content.text|;
    Decimal.ReadNumberOfShow(HEAD, "]", 1, Z(1));
    assert Pointer(1) + Z(1) == HEAD + Decimal.Show(1) + "]" + Z(1);
    forall s: nat, p ensures !PointsTo(messages, optimized, 2, s, p) {
      if PointsTo(messages, optimized, 2, s, p) {
        PointerNamesSource(messages, optimized, 2, s, p);
      }
    }
  }
}

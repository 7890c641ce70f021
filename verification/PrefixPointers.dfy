/**
 * Prefix deduplication (`kv_cache_optimizer.py`): every pair of messages is compared, each longest
 * common prefix is recorded with the messages that carry it, and later carriers are rewritten as
 * `[same prefix as message s]` plus the rest of their text.
 *
 * The question the code never asks is whether message `s` still holds its text when the run ends.
 */
module PrefixPointers {
  import opened Prelude
  import opened Messages
  import opened OrderedDict
  import Decimal

  const HEAD: string := "[same prefix as message "

  function Pointer(source: nat): (p: string)
    ensures HEAD < p
  {
    HEAD + Decimal.Show(source) + "]"
  }

  /* ---------- Text segments ---------- */

  datatype Segment = Segment(index: nat, text: string)

  /** The texts of the text blocks, joined with single spaces. */
  function JoinedText(blocks: seq<Block>): string {
    if blocks == [] then ""
    else if !blocks[|blocks| - 1].TextBlock? then JoinedText(blocks[..|blocks| - 1])
    else
      var front := blocks[..|blocks| - 1];
      (if exists b :: b in front && b.TextBlock? then JoinedText(front) + " " else "") + blocks[|blocks| - 1].text
  }

  function TextsIn(blocks: seq<Block>): seq<string> {
    if blocks == [] then []
    else (if blocks[0].TextBlock? then [blocks[0].text] else []) + TextsIn(blocks[1..])
  }

  /** `" ".join(texts)` */
  function Join(texts: seq<string>): string {
    if texts == [] then "" else if |texts| == 1 then texts[0] else texts[0] + " " + Join(texts[1..])
  }

  lemma {:induction false} JoinLast(texts: seq<string>, last: string)
    ensures Join(texts + [last]) == (if texts == [] then "" else Join(texts) + " ") + last
  {
    if texts == [] {
      assert texts + [last] == [last];
    } else {
      assert (texts + [last])[1..] == texts[1..] + [last];
      JoinLast(texts[1..], last);
      if |texts| > 1 {
        assert texts[0] + " " + (Join(texts[1..]) + " " + last) == texts[0] + " " + Join(texts[1..]) + " " + last;
      }
    }
  }

  lemma {:induction false} TextsAppend(blocks: seq<Block>, last: Block)
    ensures TextsIn(blocks + [last]) == TextsIn(blocks) + if last.TextBlock? then [last.text] else []
    ensures TextsIn(blocks) != [] <==> exists b :: b in blocks && b.TextBlock?
  {
    if blocks == [] {
      assert blocks + [last] == [last] && [last][1..] == [];
    } else {
      assert (blocks + [last])[1..] == blocks[1..] + [last];
      TextsAppend(blocks[1..], last);
      assert forall b :: b in blocks <==> b == blocks[0] || b in blocks[1..];
    }
  }

  lemma {:induction false} TextsAreJoined(blocks: seq<Block>)
    ensures JoinedText(blocks) == Join(TextsIn(blocks))
  {
    if blocks != [] {
      var front, last := blocks[..|blocks| - 1], blocks[|blocks| - 1];
      TextsAreJoined(front);
      TextsAppend(front, last);
      assert blocks == front + [last];
      if last.TextBlock? {
        JoinLast(TextsIn(front), last.text);
        assert JoinedText(blocks) == (if TextsIn(front) == [] then "" else JoinedText(front) + " ") + last.text;
      } else {
        assert TextsIn(front) + [] == TextsIn(front);
      }
    }
  }

  /** The text a message takes part with, if any. */
  function TextOf(m: Message): Option<string> {
    match m.content
    case Text(text) => if IsBlank(text) then None else Some(text)
    case Blocks(blocks) => var text := JoinedText(blocks); if IsBlank(text) then None else Some(text)
    case Absent => None
  }

  /** Strings take part, and so do the joined texts of block lists, unless they are blank. */
  lemma TextOfMeans(m: Message)
    ensures m.content.Text? ==> TextOf(m) == if IsBlank(m.content.text) then None else Some(m.content.text)
    ensures m.content.Blocks? ==>
      var text := Join(TextsIn(m.content.blocks)); TextOf(m) == if IsBlank(text) then None else Some(text)
    ensures m.content.Absent? ==> TextOf(m) == None
  {
    if m.content.Blocks? {
      TextsAreJoined(m.content.blocks);
    }
  }

  ghost predicate AreSegments(segments: seq<Segment>, messages: seq<Message>) {
    && (forall a, b :: 0 <= a < b < |segments| ==> segments[a].index < segments[b].index)
    && (forall s :: s in segments ==> s.index < |messages| && TextOf(messages[s.index]) == Some(s.text))
    && (forall i :: 0 <= i < |messages| && TextOf(messages[i]).Some? ==>
          Segment(i, TextOf(messages[i]).value) in segments)
  }

  lemma SegmentsStep(segments: seq<Segment>, messages: seq<Message>, m: Message)
    requires AreSegments(segments, messages)
    ensures AreSegments(segments + match TextOf(m) case None => [] case Some(text) => [Segment(|messages|, text)],
        messages + [m])
  {
    var more := segments + match TextOf(m) case None => [] case Some(text) => [Segment(|messages|, text)];
    forall a | 0 <= a < |segments| ensures segments[a].index < |messages| && segments[a] in more {
      assert segments[a] in segments && more[a] == segments[a];
    }
    forall s | s in more
      ensures s.index < |messages + [m]| && TextOf((messages + [m])[s.index]) == Some(s.text)
    {
      var k :| 0 <= k < |more| && more[k] == s;
      assert k < |segments| ==> segments[k] in segments;
    }
    if TextOf(m).Some? {
      assert more[|segments|] == Segment(|messages|, TextOf(m).value);
    }
  }

  method ExtractTextSegments(messages: seq<Message>) returns (segments: seq<Segment>)
    ensures AreSegments(segments, messages)
  {
    segments := [];
    for i := 0 to |messages|
      invariant AreSegments(segments, messages[..i])
    {
      SegmentsStep(segments, messages[..i], messages[i]);
      assert messages[..i + 1] == messages[..i] + [messages[i]];
      var text := TextOf(messages[i]);
      segments := segments + match text case None => [] case Some(t) => [Segment(i, t)];
    }
    assert messages[..|messages|] == messages;
  }

  /* ---------- Longest common prefixes ---------- */

  predicate IsLcp(p: string, a: string, b: string) {
    && p <= a && p <= b
    && (|p| == |a| || |p| == |b| || a[|p|] != b[|p|])
  }

  method LongestCommonPrefix(a: string, b: string) returns (p: string)
    ensures IsLcp(p, a, b)
  {
    var least := if |a| <= |b| then |a| else |b|;
    var i := 0;
    while i < least && a[i] == b[i]
      invariant 0 <= i <= least
      invariant a[..i] == b[..i]
    {
      i := i + 1;
    }
    p := a[..i];
  }

  /** The ultrametric law: a third text that starts with `p` meets one of the two in exactly `p`. */
  lemma Ultrametric(p: string, a: string, b: string, c: string)
    requires IsLcp(p, a, b) && p <= c
    ensures IsLcp(p, a, c) || IsLcp(p, b, c)
  {}

  /* ---------- The table of common prefixes ---------- */

  /** One slot of the dictionary: a prefix and the message index appended for each half of each pair. */
  type PrefixEntry = Entry<string, seq<nat>>

  /** Pair `(a, b)` of segments has longest common prefix `p`. */
  ghost predicate Meets(segments: seq<Segment>, p: string, a: nat, b: nat) {
    a < b < |segments| && IsLcp(p, segments[a].text, segments[b].text)
  }

  /** Pair `(a, b)` is enumerated before pair `(c, d)`. */
  predicate Earlier(a: nat, b: nat, c: nat, d: nat) { a < c || (a == c && b < d) }

  ghost function Carriers(segments: seq<Segment>, p: string): set<nat> {
    set s | s in segments && p <= s.text :: s.index
  }

  function ToSet(s: seq<nat>): set<nat> { set x | x in s }

  /** `first[x]` is the pair that created entry `x`: the first one that meets in its prefix. */
  ghost predicate Ordered(entries: seq<PrefixEntry>, first: seq<(nat, nat)>) {
    && |first| == |entries|
    && (forall x, y :: 0 <= x < y < |entries| ==>
          Earlier(first[x].0, first[x].1, first[y].0, first[y].1) && entries[x].key != entries[y].key)
  }

  /** Entry `e`, created by pair `f`, is justified by pairs enumerated before `(i, j)`. */
  ghost predicate Justified(segments: seq<Segment>, minPrefix: int, e: PrefixEntry, f: (nat, nat), i: nat, j: nat) {
    && |e.key| >= minPrefix
    && Meets(segments, e.key, f.0, f.1) && Earlier(f.0, f.1, i, j)
    && ToSet(e.value) <= Carriers(segments, e.key)
  }

  /** Pair `(a, b)`, which meets in `p`, is in the table. */
  ghost predicate Listed(segments: seq<Segment>, entries: seq<PrefixEntry>, first: seq<(nat, nat)>, p: string, a: nat,
      b: nat)
    requires a < b < |segments| && |first| == |entries|
  {
    exists x :: && 0 <= x < |entries| && entries[x].key == p
                && !Earlier(a, b, first[x].0, first[x].1)
                && segments[a].index in entries[x].value && segments[b].index in entries[x].value
  }

  /** The table after all pairs enumerated before `(i, j)`. */
  ghost predicate Records(segments: seq<Segment>, minPrefix: int, entries: seq<PrefixEntry>, first: seq<(nat, nat)>,
      i: nat, j: nat) {
    && Ordered(entries, first)
    && (forall x :: 0 <= x < |entries| ==> Justified(segments, minPrefix, entries[x], first[x], i, j))
    && (forall a: nat, b: nat, p :: Meets(segments, p, a, b) && Earlier(a, b, i, j) && |p| >= minPrefix ==>
          Listed(segments, entries, first, p, a, b))
  }

  /** What the finished, filtered table promises the rewriting loop. */
  ghost predicate IsPrefixTable(segments: seq<Segment>, minPrefix: int, minOccurrences: int,
      entries: seq<PrefixEntry>, first: seq<(nat, nat)>) {
    && Ordered(entries, first)
    && (forall x :: 0 <= x < |entries| ==>
          && |entries[x].key| >= minPrefix
          && Meets(segments, entries[x].key, first[x].0, first[x].1)
          && ToSet(entries[x].value) == Carriers(segments, entries[x].key)
          && (forall a: nat, b: nat :: Meets(segments, entries[x].key, a, b) ==>
              !Earlier(a, b, first[x].0, first[x].1)))
    && (forall a: nat, b: nat, p ::
          Meets(segments, p, a, b) && |p| >= minPrefix && |Carriers(segments, p)| >= minOccurrences ==>
          exists x :: 0 <= x < |entries| && entries[x].key == p)
  }

  function Recorded(entries: seq<PrefixEntry>, p: string, i: nat, j: nat): seq<PrefixEntry> {
    Appended(entries, p, [i, j])
  }

  function RecordedFirst(entries: seq<PrefixEntry>, first: seq<(nat, nat)>, p: string, i: nat,
      j: nat): seq<(nat, nat)> {
    if Find(entries, p) < |entries| then first else first + [(i, j)]
  }

  lemma ToSetAppend(s: seq<nat>, a: nat, b: nat)
    ensures ToSet(s + [a, b]) == ToSet(s) + {a, b}
  {
    assert forall x :: x in s + [a, b] <==> x in s || x in [a, b];
  }

  lemma JustifiedStep(segments: seq<Segment>, minPrefix: int, entries: seq<PrefixEntry>, first: seq<(nat, nat)>,
      i: nat, j: nat, p: string, x: nat)
    requires |first| == |entries| && Meets(segments, p, i, j) && |p| >= minPrefix
    requires x < |entries| ==> Justified(segments, minPrefix, entries[x], first[x], i, j)
    requires x < |Recorded(entries, p, segments[i].index, segments[j].index)|
    ensures x < |RecordedFirst(entries, first, p, i, j)|
    ensures Justified(segments, minPrefix, Recorded(entries, p, segments[i].index, segments[j].index)[x],
                      RecordedFirst(entries, first, p, i, j)[x], i, j + 1)
  {
    if x == Find(entries, p) {
      assert segments[i] in segments && segments[j] in segments;
      assert segments[i].index in Carriers(segments, p) && segments[j].index in Carriers(segments, p);
      ToSetAppend(if x < |entries| then entries[x].value else [], segments[i].index, segments[j].index);
    }
  }

  /** A pair that is listed stays listed when another occurrence is recorded. */
  lemma ListedKept(segments: seq<Segment>, entries: seq<PrefixEntry>, first: seq<(nat, nat)>, i: nat, j: nat, p: string,
                   q: string, a: nat, b: nat, si: nat, sj: nat)
    requires |first| == |entries| && a < b < |segments| && Listed(segments, entries, first, q, a, b)
    ensures Listed(segments, Recorded(entries, p, si, sj), RecordedFirst(entries, first, p, i, j), q, a, b)
  {
    var entries', first' := Recorded(entries, p, si, sj), RecordedFirst(entries, first, p, i, j);
    var x :| && 0 <= x < |entries| && entries[x].key == q
             && !Earlier(a, b, first[x].0, first[x].1)
             && segments[a].index in entries[x].value && segments[b].index in entries[x].value;
    assert entries'[x].key == q && first'[x] == first[x];
    assert forall o :: o in entries[x].value ==> o in entries'[x].value;
  }

  /** The pair just recorded is listed. */
  lemma ListedNow(segments: seq<Segment>, entries: seq<PrefixEntry>, first: seq<(nat, nat)>, i: nat, j: nat, p: string)
    requires |first| == |entries| && i < j < |segments|
    requires forall x :: 0 <= x < |entries| ==> Earlier(first[x].0, first[x].1, i, j)
    ensures Listed(segments, Recorded(entries, p, segments[i].index, segments[j].index),
                   RecordedFirst(entries, first, p, i, j), p, i, j)
  {
    var k, si, sj := Find(entries, p), segments[i].index, segments[j].index;
    var entries' := Recorded(entries, p, si, sj);
    var before := if k < |entries| then entries[k].value else [];
    assert [] + [si, sj] == [si, sj];
    assert entries'[k] == Entry(p, before + [si, sj]);
    assert (before + [si, sj])[|before|] == si && (before + [si, sj])[|before| + 1] == sj;
  }

  lemma OrderedStep(entries: seq<PrefixEntry>, first: seq<(nat, nat)>, i: nat, j: nat, p: string, si: nat, sj: nat)
    requires Ordered(entries, first)
    requires forall x :: 0 <= x < |entries| ==> Earlier(first[x].0, first[x].1, i, j)
    ensures Ordered(Recorded(entries, p, si, sj), RecordedFirst(entries, first, p, i, j))
  {
    var entries' := Recorded(entries, p, si, sj);
    assert forall x :: 0 <= x < |entries| ==> entries'[x].key == entries[x].key;
  }

  lemma LcpUnique(p: string, q: string, a: string, b: string)
    requires IsLcp(p, a, b) && IsLcp(q, a, b)
    ensures p == q
  {
    assert p == a[..|p|] && q == a[..|q|] && p == b[..|p|] && q == b[..|q|];
    assert |p| == |q|;
  }

  lemma StepJustified(segments: seq<Segment>, minPrefix: int, entries: seq<PrefixEntry>, first: seq<(nat, nat)>,
      i: nat, j: nat, p: string)
    requires Records(segments, minPrefix, entries, first, i, j) && Meets(segments, p, i, j) && |p| >= minPrefix
    ensures var entries', first' :=
        Recorded(entries, p, segments[i].index, segments[j].index), RecordedFirst(entries, first, p, i, j);
      && (forall x :: 0 <= x < |entries| ==> Earlier(first[x].0, first[x].1, i, j))
      && |first'| == |entries'|
      && (forall x :: 0 <= x < |entries'| ==> Justified(segments, minPrefix, entries'[x], first'[x], i, j + 1))
  {
    forall x | 0 <= x < |entries| ensures Earlier(first[x].0, first[x].1, i, j) {
      assert Justified(segments, minPrefix, entries[x], first[x], i, j);
    }
    var entries', first' := Recorded(entries, p, segments[i].index, segments[j].index),
        RecordedFirst(entries, first, p, i, j);
    forall x | 0 <= x < |entries'| ensures Justified(segments, minPrefix, entries'[x], first'[x], i, j + 1) {
      assert x < |entries| ==> Justified(segments, minPrefix, entries[x], first[x], i, j);
      JustifiedStep(segments, minPrefix, entries, first, i, j, p, x);
    }
  }

  lemma StepListed(segments: seq<Segment>, minPrefix: int, entries: seq<PrefixEntry>, first: seq<(nat, nat)>, i: nat,
      j: nat, p: string,
                   a: nat, b: nat, q: string)
    requires Records(segments, minPrefix, entries, first, i, j) && Meets(segments, p, i, j)
    requires forall x :: 0 <= x < |entries| ==> Earlier(first[x].0, first[x].1, i, j)
    requires Meets(segments, q, a, b) && Earlier(a, b, i, j + 1) && |q| >= minPrefix
    ensures |Recorded(entries, p, segments[i].index, segments[j].index)| == |RecordedFirst(entries, first, p, i, j)|
    ensures Listed(segments, Recorded(entries, p, segments[i].index, segments[j].index),
        RecordedFirst(entries, first, p, i, j), q, a, b)
  {
    if Earlier(a, b, i, j) {
      ListedKept(segments, entries, first, i, j, p, q, a, b, segments[i].index, segments[j].index);
    } else {
      LcpUnique(p, q, segments[i].text, segments[j].text);
      ListedNow(segments, entries, first, i, j, p);
    }
  }

  lemma RecordsStep(segments: seq<Segment>, minPrefix: int, entries: seq<PrefixEntry>, first: seq<(nat, nat)>, i: nat,
      j: nat, p: string)
    requires Records(segments, minPrefix, entries, first, i, j) && Meets(segments, p, i, j) && |p| >= minPrefix
    ensures Records(segments, minPrefix, Recorded(entries, p, segments[i].index, segments[j].index),
                    RecordedFirst(entries, first, p, i, j), i, j + 1)
  {
    var entries', first' := Recorded(entries, p, segments[i].index, segments[j].index),
        RecordedFirst(entries, first, p, i, j);
    StepJustified(segments, minPrefix, entries, first, i, j, p);
    OrderedStep(entries, first, i, j, p, segments[i].index, segments[j].index);
    forall a: nat, b: nat, q | Meets(segments, q, a, b) && Earlier(a, b, i, j + 1) && |q| >= minPrefix
      ensures Listed(segments, entries', first', q, a, b)
    {
      StepListed(segments, minPrefix, entries, first, i, j, p, a, b, q);
    }
  }

  /** Nothing to record between `(i, j)` and `(i2, j2)`. */
  lemma RecordsSkip(segments: seq<Segment>, minPrefix: int, entries: seq<PrefixEntry>, first: seq<(nat, nat)>, i: nat,
      j: nat, i2: nat, j2: nat)
    requires Records(segments, minPrefix, entries, first, i, j)
    requires Earlier(i, j, i2, j2)
    requires forall a: nat, b: nat, p :: Meets(segments, p, a, b) && Earlier(a, b, i2, j2) && |p| >= minPrefix ==>
        Earlier(a, b, i, j)
    ensures Records(segments, minPrefix, entries, first, i2, j2)
  {
    forall x | 0 <= x < |entries| ensures Justified(segments, minPrefix, entries[x], first[x], i2, j2) {
      assert Justified(segments, minPrefix, entries[x], first[x], i, j);
    }
  }

  /** Once every pair has been seen, an entry lists every segment that starts with its prefix. */
  lemma CarriersListed(segments: seq<Segment>, minPrefix: int, entries: seq<PrefixEntry>, first: seq<(nat, nat)>,
      x: nat)
    requires Records(segments, minPrefix, entries, first, |segments|, 0) && x < |entries|
    ensures ToSet(entries[x].value) == Carriers(segments, entries[x].key)
  {
    var p, a, b := entries[x].key, first[x].0, first[x].1;
    assert Justified(segments, minPrefix, entries[x], first[x], |segments|, 0);
    forall c | 0 <= c < |segments| && p <= segments[c].text ensures segments[c].index in entries[x].value {
      Ultrametric(p, segments[a].text, segments[b].text, segments[c].text);
      var d := if c == a || c == b then (if c == a then b else a)
               else if IsLcp(p, segments[a].text, segments[c].text) then a else b;
      var lo, hi := if c < d then c else d, if c < d then d else c;
      assert Meets(segments, p, lo, hi);
      assert Listed(segments, entries, first, p, lo, hi);
    }
  }

  /** `keep` lists, in order, the positions of the entries with enough occurrences. */
  ghost predicate IsFrequent(all: seq<PrefixEntry>, minOccurrences: int, keep: seq<nat>) {
    && (forall x :: 0 <= x < |keep| ==> keep[x] < |all|)
    && (forall x, y :: 0 <= x < y < |keep| ==> keep[x] < keep[y])
    && (forall k: nat :: k < |all| && |all[k].value| >= minOccurrences ==> k in keep)
  }

  lemma EntryFromRecords(segments: seq<Segment>, minPrefix: int, entries: seq<PrefixEntry>, first: seq<(nat, nat)>,
      x: nat)
    requires Records(segments, minPrefix, entries, first, |segments|, 0) && x < |entries|
    ensures |entries[x].key| >= minPrefix && Meets(segments, entries[x].key, first[x].0, first[x].1)
    ensures ToSet(entries[x].value) == Carriers(segments, entries[x].key)
    ensures forall a: nat, b: nat :: Meets(segments, entries[x].key, a, b) ==> !Earlier(a, b, first[x].0, first[x].1)
  {
    assert Justified(segments, minPrefix, entries[x], first[x], |segments|, 0);
    CarriersListed(segments, minPrefix, entries, first, x);
    forall a: nat, b: nat | Meets(segments, entries[x].key, a, b) ensures !Earlier(a, b, first[x].0, first[x].1) {
      assert Listed(segments, entries, first, entries[x].key, a, b);
    }
  }

  lemma PairIsKept(segments: seq<Segment>, minPrefix: int, minOccurrences: int, all: seq<PrefixEntry>,
      first: seq<(nat, nat)>,
                   keep: seq<nat>, a: nat, b: nat, p: string)
    requires Records(segments, minPrefix, all, first, |segments|, 0) && IsFrequent(all, minOccurrences, keep)
    requires Meets(segments, p, a, b) && |p| >= minPrefix && |Carriers(segments, p)| >= minOccurrences
    ensures exists x :: 0 <= x < |keep| && all[keep[x]].key == p
  {
    assert Listed(segments, all, first, p, a, b);
    var k :| 0 <= k < |all| && all[k].key == p;
    CarriersListed(segments, minPrefix, all, first, k);
    ToSetSize(all[k].value);
    assert k in keep;
  }

  lemma TableFromRecords(segments: seq<Segment>, minPrefix: int, minOccurrences: int, all: seq<PrefixEntry>,
      allFirst: seq<(nat, nat)>,
                         keep: seq<nat>, entries: seq<PrefixEntry>, first: seq<(nat, nat)>)
    requires Records(segments, minPrefix, all, allFirst, |segments|, 0)
    requires IsFrequent(all, minOccurrences, keep) && |keep| == |entries| == |first|
    requires forall x :: 0 <= x < |keep| ==> entries[x] == all[keep[x]] && first[x] == allFirst[keep[x]]
    ensures IsPrefixTable(segments, minPrefix, minOccurrences, entries, first)
  {
    forall x | 0 <= x < |entries|
      ensures |entries[x].key| >= minPrefix && Meets(segments, entries[x].key, first[x].0, first[x].1)
      ensures ToSet(entries[x].value) == Carriers(segments, entries[x].key)
      ensures forall a: nat, b: nat :: Meets(segments, entries[x].key, a, b) ==> !Earlier(a, b, first[x].0, first[x].1)
    {
      EntryFromRecords(segments, minPrefix, all, allFirst, keep[x]);
    }
    forall a: nat, b: nat, p | Meets(segments, p, a, b) && |p| >= minPrefix && |Carriers(segments, p)| >= minOccurrences
      ensures exists x :: 0 <= x < |entries| && entries[x].key == p
    {
      PairIsKept(segments, minPrefix, minOccurrences, all, allFirst, keep, a, b, p);
    }
  }

  lemma {:induction false} ToSetSize(s: seq<nat>)
    ensures |ToSet(s)| <= |s|
  {
    if s != [] {
      var front := s[..|s| - 1];
      ToSetSize(front);
      assert ToSet(s) == ToSet(front) + {s[|s| - 1]};
    }
  }

  lemma RecordsShort(segments: seq<Segment>, minPrefix: int, entries: seq<PrefixEntry>, first: seq<(nat, nat)>,
      i: nat, j: nat, p: string)
    requires Records(segments, minPrefix, entries, first, i, j) && Meets(segments, p, i, j) && |p| < minPrefix
    ensures Records(segments, minPrefix, entries, first, i, j + 1)
  {
    forall a: nat, b: nat, q | Meets(segments, q, a, b) && Earlier(a, b, i, j + 1) && |q| >= minPrefix
      ensures Earlier(a, b, i, j)
    {
      if a == i && b == j {
        LcpUnique(p, q, segments[i].text, segments[j].text);
      }
    }
    RecordsSkip(segments, minPrefix, entries, first, i, j, i, j + 1);
  }

  /** The two nested loops over pairs of segments. */
  method RecordPairs(segments: seq<Segment>, minPrefix: int)
      returns (entries: seq<PrefixEntry>, ghost first: seq<(nat, nat)>)
    ensures Records(segments, minPrefix, entries, first, |segments|, 0)
  {
    entries, first := [], [];
    for i := 0 to |segments|
      invariant Records(segments, minPrefix, entries, first, i, 0)
    {
      RecordsSkip(segments, minPrefix, entries, first, i, 0, i, i + 1);
      for j := i + 1 to |segments|
        invariant Records(segments, minPrefix, entries, first, i, j)
      {
        var common := LongestCommonPrefix(segments[i].text, segments[j].text);
        if |common| < minPrefix {
          RecordsShort(segments, minPrefix, entries, first, i, j, common);
        } else {
          RecordsStep(segments, minPrefix, entries, first, i, j, common);
          first := RecordedFirst(entries, first, common, i, j);
          entries := Recorded(entries, common, segments[i].index, segments[j].index);
        }
      }
      RecordsSkip(segments, minPrefix, entries, first, i, |segments|, i + 1, 0);
    }
  }

  method KeepFrequent(all: seq<PrefixEntry>, minOccurrences: int)
      returns (entries: seq<PrefixEntry>, ghost keep: seq<nat>)
    ensures IsFrequent(all, minOccurrences, keep)
    ensures |entries| == |keep| && forall x :: 0 <= x < |keep| ==> entries[x] == all[keep[x]]
    ensures forall e :: e in entries ==> |e.value| >= minOccurrences
  {
    entries, keep := [], [];
    for k := 0 to |all|
      invariant |entries| == |keep| && forall x :: 0 <= x < |keep| ==> keep[x] < k && entries[x] == all[keep[x]]
      invariant forall x, y :: 0 <= x < y < |keep| ==> keep[x] < keep[y]
      invariant forall y: nat :: y < k && |all[y].value| >= minOccurrences ==> y in keep
      invariant forall e :: e in entries ==> |e.value| >= minOccurrences
    {
      if |all[k].value| >= minOccurrences {
        entries, keep := entries + [all[k]], keep + [k];
        assert keep[|keep| - 1] == k;
      }
    }
  }

  method FindCommonPrefixes(segments: seq<Segment>, minPrefix: int, minOccurrences: int)
    returns (entries: seq<PrefixEntry>, ghost first: seq<(nat, nat)>)
    ensures IsPrefixTable(segments, minPrefix, minOccurrences, entries, first)
    ensures forall x :: 0 <= x < |entries| ==>
      |entries[x].key| >= minPrefix && ToSet(entries[x].value) == Carriers(segments, entries[x].key)
  {
    var all, allFirst := RecordPairs(segments, minPrefix);
    ghost var keep;
    entries, keep := KeepFrequent(all, minOccurrences);
    first := seq(|keep|, x requires 0 <= x < |keep| && |allFirst| == |all| && keep[x] < |all| => allFirst[keep[x]]);
    TableFromRecords(segments, minPrefix, minOccurrences, all, allFirst, keep, entries, first);
  }

  /* ---------- The rewriting loop ---------- */

  predicate Increasing(s: seq<nat>) { forall i, j :: 0 <= i < j < |s| ==> s[i] < s[j] }

  function Insert(s: seq<nat>, x: nat): (r: seq<nat>)
    requires Increasing(s)
    ensures Increasing(r) && forall y :: y in r <==> y in s || y == x
  {
    if s == [] then [x]
    else if x == s[0] then s
    else if x < s[0] then [x] + s
    else
      var rest := Insert(s[1..], x);
      assert forall y :: y in rest ==> s[0] < y;
      assert forall j :: 0 <= j < |rest| ==> rest[j] in rest;
      [s[0]] + rest
  }

  /** `sorted({...})` */
  function SortedDistinct(s: seq<nat>): (r: seq<nat>)
    ensures Increasing(r) && forall y :: y in r <==> y in s
  {
    if s == [] then [] else Insert(SortedDistinct(s[1..]), s[0])
  }

  predicate UsableEntry(count: nat, e: PrefixEntry) {
    e.value != [] && forall o :: o in e.value ==> o < count
  }

  function Shorten(m: Message, prefix: string, pointer: string): Message {
    if m.content.Text? && prefix <= m.content.text && |pointer| < |prefix|
    then m.(content := Text(pointer + m.content.text[|prefix|..]))
    else m
  }

  function ApplyEntry(messages: seq<Message>, e: PrefixEntry, minOccurrences: int): (r: seq<Message>)
    requires UsableEntry(|messages|, e)
    ensures |r| == |messages|
  {
    var indices := SortedDistinct(e.value);
    assert e.value[0] in indices;
    if |indices| < minOccurrences then messages
    else ShortenedAt(messages, indices[1..], e.key, Pointer(indices[0]))
  }

  function Rewritten(messages: seq<Message>, entries: seq<PrefixEntry>, minOccurrences: int): (r: seq<Message>)
    requires forall e :: e in entries ==> UsableEntry(|messages|, e)
    ensures |r| == |messages|
  {
    if entries == [] then messages
    else
      var n := |entries| - 1;
      ApplyEntry(Rewritten(messages, entries[..n], minOccurrences), entries[n], minOccurrences)
  }

  /** Phase 2 of `optimize`: the slots of `optimized` are overwritten entry by entry, carrier by carrier. */
  method RewritePrefixes(messages: seq<Message>, entries: seq<PrefixEntry>, minOccurrences: int)
    returns (optimized: seq<Message>)
    requires forall e :: e in entries ==> UsableEntry(|messages|, e)
    ensures optimized == Rewritten(messages, entries, minOccurrences)
  {
    optimized := messages;
    for x := 0 to |entries|
      invariant optimized == Rewritten(messages, entries[..x], minOccurrences)
    {
      assert entries[..x + 1][..x] == entries[..x];
      assert entries[x] in entries;
      var e, indices := entries[x], SortedDistinct(entries[x].value);
      if |indices| >= minOccurrences {
        optimized := RewriteCarriers(optimized, e, indices);
      }
    }
    assert entries[..|entries|] == entries;
  }

  lemma NextIndex(indices: seq<nat>, k: nat)
    requires Increasing(indices) && 1 <= k < |indices|
    ensures indices[k] !in indices[1..k]
    ensures forall i :: i in indices[1..k + 1] <==> i in indices[1..k] || i == indices[k]
  {
    assert indices[1..k + 1] == indices[1..k] + [indices[k]];
  }

  /** Some of the messages shortened by one prefix. */
  function ShortenedAt(messages: seq<Message>, indices: seq<nat>, prefix: string, pointer: string): (r: seq<Message>)
    ensures |r| == |messages|
  {
    seq(|messages|, i requires 0 <= i < |messages| =>
      if i in indices then Shorten(messages[i], prefix, pointer) else messages[i])
  }

  lemma ShortenOneMore(messages: seq<Message>, some: seq<nat>, more: seq<nat>, j: nat, prefix: string, pointer: string)
    requires j < |messages| && j !in some && forall i :: i in more <==> i in some || i == j
    ensures ShortenedAt(messages, more, prefix, pointer)
         == ShortenedAt(messages, some, prefix, pointer)[j := Shorten(messages[j], prefix, pointer)]
  {}

  lemma CarrierStep(messages: seq<Message>, indices: seq<nat>, k: nat, prefix: string, pointer: string)
    requires Increasing(indices) && 1 <= k < |indices| && forall i :: i in indices ==> i < |messages|
    ensures indices[k] < |messages|
    ensures var now := ShortenedAt(messages, indices[1..k], prefix, pointer);
      now[indices[k] := Shorten(now[indices[k]], prefix, pointer)]
        == ShortenedAt(messages, indices[1..k + 1], prefix, pointer)
  {
    assert indices[k] in indices;
    NextIndex(indices, k);
    ShortenOneMore(messages, indices[1..k], indices[1..k + 1], indices[k], prefix, pointer);
  }

  /** The inner loop, over the later carriers of one prefix. */
  method RewriteCarriers(messages: seq<Message>, e: PrefixEntry, indices: seq<nat>) returns (optimized: seq<Message>)
    requires UsableEntry(|messages|, e) && indices == SortedDistinct(e.value)
    ensures optimized == ApplyEntry(messages, e, |indices|)
  {
    assert e.value[0] in indices;
    var pointer := Pointer(indices[0]);
    optimized := messages;
    for k := 1 to |indices|
      invariant optimized == ShortenedAt(messages, indices[1..k], e.key, pointer)
    {
      CarrierStep(messages, indices, k, e.key, pointer);
      optimized := optimized[indices[k] := Shorten(optimized[indices[k]], e.key, pointer)];
    }
    assert indices[1..|indices|] == indices[1..];
  }

  /* ---------- No pointer chains ---------- */

  /** The longest common prefix as a function. */
  function Lcp(a: string, b: string): (p: string)
    ensures IsLcp(p, a, b)
  {
    if a != [] && b != [] && a[0] == b[0] then [a[0]] + Lcp(a[1..], b[1..]) else []
  }

  /**
   * No prefix that gets recorded starts like a pointer: texts that start like one have less than `minPrefix` characters
   * in common. With at most one such text there is nothing to check.
   */
  predicate NoHeadRecorded(messages: seq<Message>, minPrefix: int) {
    forall i, j :: 0 <= i < j < |messages| && StartsLikePointer(messages[i]) && StartsLikePointer(messages[j]) ==>
      |Lcp(TextOf(messages[i]).value, TextOf(messages[j]).value)| < minPrefix
  }

  predicate StartsLikePointer(m: Message) { TextOf(m).Some? && HEAD <= TextOf(m).value }

  ghost predicate NoHeadKey(entries: seq<PrefixEntry>) { forall e :: e in entries ==> !(HEAD <= e.key) }

  lemma HeadsAreNotKeys(messages: seq<Message>, segments: seq<Segment>, minPrefix: int, minOccurrences: int,
                        entries: seq<PrefixEntry>, first: seq<(nat, nat)>)
    requires AreSegments(segments, messages) && IsPrefixTable(segments, minPrefix, minOccurrences, entries, first)
    requires NoHeadRecorded(messages, minPrefix)
    ensures NoHeadKey(entries)
  {
    forall x | 0 <= x < |entries| ensures !(HEAD <= entries[x].key) {
      HeadIsNotKey(messages, segments, minPrefix, entries[x].key, first[x].0, first[x].1);
    }
  }

  lemma HeadIsNotKey(messages: seq<Message>, segments: seq<Segment>, minPrefix: int, p: string, a: nat, b: nat)
    requires AreSegments(segments, messages) && NoHeadRecorded(messages, minPrefix)
    requires Meets(segments, p, a, b) && |p| >= minPrefix
    ensures !(HEAD <= p)
  {
    var s, t := segments[a], segments[b];
    assert s in segments && t in segments;
    LcpUnique(p, Lcp(s.text, t.text), s.text, t.text);
    if HEAD <= p {
      PrefixOfPrefix(HEAD, p, s.text);
      PrefixOfPrefix(HEAD, p, t.text);
    }
  }

  lemma PrefixOfPrefix(a: string, b: string, c: string)
    requires a <= b && b <= c
    ensures a <= c
  {}

  predicate Carries(messages: seq<Message>, p: string, i: nat) {
    i < |messages| && TextOf(messages[i]).Some? && p <= TextOf(messages[i]).value
  }

  lemma CarriersAreMessages(messages: seq<Message>, segments: seq<Segment>, p: string, i: nat)
    requires AreSegments(segments, messages)
    ensures i in Carriers(segments, p) <==> Carries(messages, p, i)
  {
    if Carries(messages, p, i) {
      var s := Segment(i, TextOf(messages[i]).value);
      assert s in segments && p <= s.text;
    }
  }

  /** Entry `e` rewrites message `u` as long as it still has its original text. */
  predicate Fits(messages: seq<Message>, e: PrefixEntry, minOccurrences: int, u: nat)
    requires u < |messages|
  {
    var indices := SortedDistinct(e.value);
    && indices != [] && |indices| >= minOccurrences && u in indices[1..]
    && Shorten(messages[u], e.key, Pointer(indices[0])) != messages[u]
  }

  /** The first entry that fits message `u`. */
  function FirstFit(messages: seq<Message>, entries: seq<PrefixEntry>, minOccurrences: int, u: nat): (r: Option<nat>)
    requires u < |messages|
    ensures r.Some? ==> r.value < |entries| && Fits(messages, entries[r.value], minOccurrences, u)
  {
    if entries == [] then None
    else
      var n := |entries| - 1;
      var r := FirstFit(messages, entries[..n], minOccurrences, u);
      if r.Some? then r else if Fits(messages, entries[n], minOccurrences, u) then Some(n) else None
  }

  lemma {:induction false} FirstFitIsFirst(messages: seq<Message>, entries: seq<PrefixEntry>, minOccurrences: int,
      u: nat, y: nat)
    requires u < |messages| && y < |entries| && Fits(messages, entries[y], minOccurrences, u)
    ensures FirstFit(messages, entries, minOccurrences, u).Some?
        && FirstFit(messages, entries, minOccurrences, u).value <= y
  {
    if y < |entries| - 1 {
      FirstFitIsFirst(messages, entries[..|entries| - 1], minOccurrences, u, y);
    }
  }

  /** `e` is a dictionary slot whose prefix every listed message carries. */
  ghost predicate SoundEntry(messages: seq<Message>, e: PrefixEntry) {
    UsableEntry(|messages|, e) && forall i :: i in e.value ==> Carries(messages, e.key, i)
  }

  /** Message `u` rewritten by the first entry that fits it, and by no other. */
  function Once(messages: seq<Message>, entries: seq<PrefixEntry>, minOccurrences: int, u: nat): Message
    requires u < |messages|
  {
    match FirstFit(messages, entries, minOccurrences, u)
    case None => messages[u]
    case Some(y) => Shorten(messages[u], entries[y].key, Pointer(SortedDistinct(entries[y].value)[0]))
  }

  /** Entry `x` shortens message `u` once more, after an earlier entry has put a pointer there. */
  predicate FitsAgain(messages: seq<Message>, entries: seq<PrefixEntry>, minOccurrences: int, u: nat, x: nat)
    requires u < |messages| && x < |entries|
  {
    var indices, now := SortedDistinct(entries[x].value), Once(messages, entries[..x], minOccurrences, u);
    && FirstFit(messages, entries[..x], minOccurrences, u).Some?
    && indices != [] && |indices| >= minOccurrences && u in indices[1..]
    && Shorten(now, entries[x].key, Pointer(indices[0])) != now
  }

  ghost predicate SomeFitsAgain(messages: seq<Message>, entries: seq<PrefixEntry>, minOccurrences: int, u: nat)
    requires u < |messages|
  {
    exists x: nat :: x < |entries| && FitsAgain(messages, entries, minOccurrences, u, x)
  }

  lemma AgainNext(messages: seq<Message>, front: seq<PrefixEntry>, e: PrefixEntry, minOccurrences: int, u: nat)
    requires u < |messages|
    ensures SomeFitsAgain(messages, front + [e], minOccurrences, u) <==>
      SomeFitsAgain(messages, front, minOccurrences, u)
      || FitsAgain(messages, front + [e], minOccurrences, u, |front|)
  {
    var entries := front + [e];
    forall x: nat | x < |front|
      ensures FitsAgain(messages, entries, minOccurrences, u, x) <==> FitsAgain(messages, front, minOccurrences, u, x)
    {
      assert entries[..x] == front[..x] && entries[x] == front[x];
    }
  }

  /** `m` has a shorter text than `n`. */
  predicate IsShorter(m: Message, n: Message) {
    m.content.Text? && n.content.Text? && |m.content.text| < |n.content.text|
  }

  /** What entry `e` makes of message `u` when it is now `now`. */
  function Applied(e: PrefixEntry, minOccurrences: int, u: nat, now: Message): Message {
    var indices := SortedDistinct(e.value);
    if indices != [] && |indices| >= minOccurrences && u in indices[1..]
    then Shorten(now, e.key, Pointer(indices[0])) else now
  }

  lemma AppliedShrinks(e: PrefixEntry, minOccurrences: int, u: nat, now: Message, than: Message)
    ensures var next := Applied(e, minOccurrences, u, now); next == now || IsShorter(next, now)
    ensures IsShorter(now, than) ==> IsShorter(Applied(e, minOccurrences, u, now), than)
  {}

  lemma OnceNext(messages: seq<Message>, front: seq<PrefixEntry>, e: PrefixEntry, minOccurrences: int, u: nat)
    requires u < |messages|
    ensures Once(messages, front + [e], minOccurrences, u)
         == if FirstFit(messages, front, minOccurrences, u).Some? then Once(messages, front, minOccurrences, u)
            else Applied(e, minOccurrences, u, messages[u])
    ensures var once := Once(messages, front, minOccurrences, u);
      FitsAgain(messages, front + [e], minOccurrences, u, |front|) <==>
        FirstFit(messages, front, minOccurrences, u).Some? && Applied(e, minOccurrences, u, once) != once
  {
    assert (front + [e])[..|front|] == front && (front + [e])[|front|] == e;
  }

  /** `now` is message `u` rewritten once, or has a shorter text when some entry fitted again. */
  ghost predicate IsOnceOrMore(messages: seq<Message>, entries: seq<PrefixEntry>, minOccurrences: int, u: nat,
      now: Message)
    requires u < |messages|
  {
    if SomeFitsAgain(messages, entries, minOccurrences, u)
    then IsShorter(now, Once(messages, entries, minOccurrences, u))
    else now == Once(messages, entries, minOccurrences, u)
  }

  lemma OneMoreEntry(messages: seq<Message>, front: seq<PrefixEntry>, e: PrefixEntry, minOccurrences: int, u: nat,
                     now: Message)
    requires u < |messages| && IsOnceOrMore(messages, front, minOccurrences, u, now)
    ensures IsOnceOrMore(messages, front + [e], minOccurrences, u, Applied(e, minOccurrences, u, now))
  {
    AgainNext(messages, front, e, minOccurrences, u);
    OnceNext(messages, front, e, minOccurrences, u);
    AppliedShrinks(e, minOccurrences, u, now, Once(messages, front, minOccurrences, u));
    if SomeFitsAgain(messages, front, minOccurrences, u) {
      FirstFitStays(messages, front, minOccurrences, u);
    }
  }

  lemma FirstFitStays(messages: seq<Message>, front: seq<PrefixEntry>, minOccurrences: int, u: nat)
    requires u < |messages| && SomeFitsAgain(messages, front, minOccurrences, u)
    ensures FirstFit(messages, front, minOccurrences, u).Some?
  {
    var x: nat :| x < |front| && FitsAgain(messages, front, minOccurrences, u, x);
    FirstFitGrows(messages, front, minOccurrences, u, x);
  }

  lemma {:induction false} FirstFitGrows(messages: seq<Message>, front: seq<PrefixEntry>, minOccurrences: int, u: nat,
      x: nat)
    requires u < |messages| && x <= |front| && FirstFit(messages, front[..x], minOccurrences, u).Some?
    ensures FirstFit(messages, front, minOccurrences, u).Some?
  {
    if x < |front| {
      assert front[..|front| - 1][..x] == front[..x];
      FirstFitGrows(messages, front[..|front| - 1], minOccurrences, u, x);
    } else {
      assert front[..x] == front;
    }
  }

  /** A message is rewritten once, or else its text ends up shorter than that. */
  lemma {:induction false} RewrittenOnceOrMore(
      messages: seq<Message>, entries: seq<PrefixEntry>, minOccurrences: int, u: nat)
    requires u < |messages| && forall e :: e in entries ==> UsableEntry(|messages|, e)
    ensures IsOnceOrMore(messages, entries, minOccurrences, u, Rewritten(messages, entries, minOccurrences)[u])
  {
    if entries != [] {
      var n := |entries| - 1;
      var e, front := entries[n], entries[..n];
      RewrittenOnceOrMore(messages, front, minOccurrences, u);
      EntryIsApplied(Rewritten(messages, front, minOccurrences), e, minOccurrences, u);
      OneMoreEntry(messages, front, e, minOccurrences, u, Rewritten(messages, front, minOccurrences)[u]);
      assert entries == front + [e];
    }
  }

  lemma EntryIsApplied(messages: seq<Message>, e: PrefixEntry, minOccurrences: int, u: nat)
    requires u < |messages| && UsableEntry(|messages|, e)
    ensures ApplyEntry(messages, e, minOccurrences)[u] == Applied(e, minOccurrences, u, messages[u])
  {
    assert e.value[0] in SortedDistinct(e.value);
  }

  /** The loop rewrites a message at most once, by the first entry that fits it, exactly when no entry fits again. */
  lemma RewrittenOnce(messages: seq<Message>, entries: seq<PrefixEntry>, minOccurrences: int, u: nat)
    requires u < |messages| && forall e :: e in entries ==> UsableEntry(|messages|, e)
    ensures Rewritten(messages, entries, minOccurrences)[u] == Once(messages, entries, minOccurrences, u) <==>
      !SomeFitsAgain(messages, entries, minOccurrences, u)
  {
    RewrittenOnceOrMore(messages, entries, minOccurrences, u);
  }

  lemma AgainHasHead(messages: seq<Message>, entries: seq<PrefixEntry>, minOccurrences: int, u: nat, x: nat)
    requires u < |messages| && x < |entries| && FitsAgain(messages, entries, minOccurrences, u, x)
    ensures HEAD <= entries[x].key
  {
    var now := Once(messages, entries[..x], minOccurrences, u);
    HeadIsShortened(now.content.text, entries[x].key, Pointer(SortedDistinct(entries[x].value)[0]));
  }

  /** Only an entry whose prefix starts like a pointer fits again. */
  lemma OnlyHeadsFitAgain(messages: seq<Message>, entries: seq<PrefixEntry>, minOccurrences: int, u: nat)
    requires u < |messages| && NoHeadKey(entries)
    ensures !SomeFitsAgain(messages, entries, minOccurrences, u)
  {
    forall x: nat | x < |entries| ensures !FitsAgain(messages, entries, minOccurrences, u, x) {
      assert entries[x] in entries;
      if FitsAgain(messages, entries, minOccurrences, u, x) {
        AgainHasHead(messages, entries, minOccurrences, u, x);
      }
    }
  }

  /** Only a prefix that starts like a pointer can shorten a text that now starts with a pointer. */
  lemma HeadIsShortened(now: string, prefix: string, pointer: string)
    requires prefix <= now && |pointer| < |prefix| && HEAD <= now && HEAD < pointer
    ensures HEAD <= prefix
  {
    assert HEAD == now[..|HEAD|] == prefix[..|HEAD|];
  }

  /** `s` is the earliest message that carries the prefix of `e`, and `e` lists exactly its carriers. */
  ghost predicate Sourced(messages: seq<Message>, e: PrefixEntry, s: nat) {
    var indices := SortedDistinct(e.value);
    && indices != [] && s == indices[0]
    && (forall i :: i in indices <==> Carries(messages, e.key, i))
    && (forall i :: i in indices[1..] <==> i in indices && i != s)
    && (forall i :: i in indices ==> s <= i)
  }

  /** The earliest message that carries the prefix of entry `x`: the one that keeps its text. */
  lemma SourceIsLeast(messages: seq<Message>, segments: seq<Segment>, minPrefix: int, minOccurrences: int,
                      entries: seq<PrefixEntry>, first: seq<(nat, nat)>, x: nat)
    requires AreSegments(segments, messages) && IsPrefixTable(segments, minPrefix, minOccurrences, entries, first)
        && x < |entries|
    ensures SoundEntry(messages, entries[x])
    ensures Sourced(messages, entries[x], SortedDistinct(entries[x].value)[0])
  {
    var e := entries[x];
    var indices := SortedDistinct(e.value);
    forall i: nat ensures i in e.value <==> Carries(messages, e.key, i) {
      CarriersAreMessages(messages, segments, e.key, i);
      assert i in e.value <==> i in ToSet(e.value);
    }
    assert segments[first[x].0] in segments;
    CarriersAreMessages(messages, segments, e.key, segments[first[x].0].index);
    assert segments[first[x].0].index in Carriers(segments, e.key);
  }

  lemma MeetsOneOf(segments: seq<Segment>, q: string, a: nat, b: nat, c: nat)
    requires Meets(segments, q, a, b) && c < a && q <= segments[c].text
    ensures Meets(segments, q, c, a) || Meets(segments, q, c, b)
  {
    Ultrametric(q, segments[a].text, segments[b].text, segments[c].text);
  }

  /** An entry with an earlier source precedes an entry with a later one. */
  lemma EarlierSourceFirst(messages: seq<Message>, segments: seq<Segment>, minPrefix: int, minOccurrences: int,
                           entries: seq<PrefixEntry>, first: seq<(nat, nat)>, z: nat, y: nat, t: nat)
    requires AreSegments(segments, messages) && IsPrefixTable(segments, minPrefix, minOccurrences, entries, first)
    requires z < |entries| && y < |entries|
    requires Carries(messages, entries[z].key, t)
    requires forall i :: Carries(messages, entries[z].key, i) ==> t <= i
    requires forall i :: Carries(messages, entries[y].key, i) ==> t < i
    ensures z < y
  {
    var q := entries[z].key;
    var a, b := first[z].0, first[z].1;
    CarriersAreMessages(messages, segments, q, t);
    var s :| s in segments && s.index == t && q <= s.text;
    var c :| 0 <= c < |segments| && segments[c] == s;
    // `t` meets `a` or `b` in exactly `q`, and nothing before `t` carries `q`
    assert segments[a] in segments && segments[b] in segments;
    CarriersAreMessages(messages, segments, q, segments[a].index);
    if c < a {
      MeetsOneOf(segments, q, a, b, c);
    }
    assert c == a;
    var d := first[y].0;
    assert segments[d] in segments;
    CarriersAreMessages(messages, segments, entries[y].key, segments[d].index);
    assert segments[a].index < segments[d].index;
    assert a < d;
  }

  lemma ShorterPrefix(p: string, q: string, text: string, other: string)
    requires p <= text && q <= text && q <= other && !(p <= other)
    ensures q < p
  {
    assert p == text[..|p|] && q == text[..|q|];
    assert |q| < |p|;
  }

  /** If the source `s` of `e` were rewritten by `d`, then `d` would fit every message that `e` fits. */
  lemma SharedPrefix(messages: seq<Message>, e: PrefixEntry, d: PrefixEntry, minOccurrences: int, s: nat, t: nat,
      u: nat)
    requires u < |messages| && s < |messages|
    requires Sourced(messages, e, s) && Sourced(messages, d, t)
    requires Fits(messages, e, minOccurrences, u) && Fits(messages, d, minOccurrences, s)
    ensures t < s && Carries(messages, d.key, t)
    ensures Fits(messages, d, minOccurrences, u)
  {
    var p, q := e.key, d.key;
    assert t in SortedDistinct(d.value) && s in SortedDistinct(e.value);
    assert u in SortedDistinct(e.value) && s in SortedDistinct(d.value);
    assert Carries(messages, p, s) && Carries(messages, q, s) && Carries(messages, p, u) && Carries(messages, q, t);
    assert !Carries(messages, p, t);
    ShorterPrefix(p, q, TextOf(messages[s]).value, TextOf(messages[t]).value);
    assert Carries(messages, q, u);
  }

  /** The source of a pointer is never rewritten itself. */
  lemma SourceStays(messages: seq<Message>, segments: seq<Segment>, minPrefix: int, minOccurrences: int,
                    entries: seq<PrefixEntry>, first: seq<(nat, nat)>, u: nat, y: nat, s: nat)
    requires AreSegments(segments, messages) && IsPrefixTable(segments, minPrefix, minOccurrences, entries, first)
    requires u < |messages| && s < |messages|
    requires FirstFit(messages, entries, minOccurrences, u) == Some(y)
    requires SortedDistinct(entries[y].value)[0] == s
    ensures FirstFit(messages, entries, minOccurrences, s) == None
  {
    if FirstFit(messages, entries, minOccurrences, s).Some? {
      var z := FirstFit(messages, entries, minOccurrences, s).value;
      SourceIsLeast(messages, segments, minPrefix, minOccurrences, entries, first, y);
      SourceIsLeast(messages, segments, minPrefix, minOccurrences, entries, first, z);
      var t := SortedDistinct(entries[z].value)[0];
      SharedPrefix(messages, entries[y], entries[z], minOccurrences, s, t, u);
      EarlierSourceFirst(messages, segments, minPrefix, minOccurrences, entries, first, z, y, t);
      FirstFitIsFirst(messages, entries, minOccurrences, u, z);
    }
  }

  /** `optimized[u]` is a pointer to `s`, a message kept verbatim, in place of their common prefix `p`. */
  ghost predicate PointsTo(messages: seq<Message>, optimized: seq<Message>, u: nat, s: nat, p: string)
    requires u < |messages| == |optimized|
  {
    && s < u && optimized[s] == messages[s] && Carries(optimized, p, s)
    && messages[u].content.Text? && p <= messages[u].content.text
    && optimized[u] == messages[u].(content := Text(Pointer(s) + messages[u].content.text[|p|..]))
    && |optimized[u].content.text| < |messages[u].content.text|
  }

  ghost predicate NoPointerChains(messages: seq<Message>, optimized: seq<Message>) {
    && |optimized| == |messages|
    && forall u :: 0 <= u < |messages| ==>
         optimized[u] == messages[u] || exists s: nat, p :: PointsTo(messages, optimized, u, s, p)
  }

  ghost predicate NoneFitsAgain(messages: seq<Message>, entries: seq<PrefixEntry>, minOccurrences: int) {
    forall u: nat :: u < |messages| ==> !SomeFitsAgain(messages, entries, minOccurrences, u)
  }

  /** Each message is a pointer in place of the prefix of the first entry that fits it, or verbatim if none does. */
  ghost predicate PointsByTable(messages: seq<Message>, optimized: seq<Message>, entries: seq<PrefixEntry>,
      minOccurrences: int) {
    && |optimized| == |messages|
    && forall u: nat :: u < |messages| ==> PointsByEntry(messages, optimized, entries, minOccurrences, u)
  }

  ghost predicate PointsByEntry(messages: seq<Message>, optimized: seq<Message>, entries: seq<PrefixEntry>,
      minOccurrences: int, u: nat)
    requires u < |messages| == |optimized|
  {
    match FirstFit(messages, entries, minOccurrences, u)
    case None => optimized[u] == messages[u]
    case Some(y) => PointsTo(messages, optimized, u, SortedDistinct(entries[y].value)[0], entries[y].key)
  }

  /** What the loop leaves is exactly what the table says when no entry fits a message again. */
  lemma {:induction false} ChainsExcludedExactly(messages: seq<Message>, segments: seq<Segment>, minPrefix: int,
      minOccurrences: int, entries: seq<PrefixEntry>, first: seq<(nat, nat)>)
    requires AreSegments(segments, messages) && IsPrefixTable(segments, minPrefix, minOccurrences, entries, first)
    requires forall e :: e in entries ==> UsableEntry(|messages|, e)
    ensures PointsByTable(messages, Rewritten(messages, entries, minOccurrences), entries, minOccurrences) <==>
      NoneFitsAgain(messages, entries, minOccurrences)
  {
    var optimized := Rewritten(messages, entries, minOccurrences);
    if NoneFitsAgain(messages, entries, minOccurrences) {
      forall u: nat | u < |messages| ensures PointsByEntry(messages, optimized, entries, minOccurrences, u) {
        EntryIsFollowed(messages, segments, minPrefix, minOccurrences, entries, first, u);
      }
    }
    forall u: nat | u < |messages| && PointsByEntry(messages, optimized, entries, minOccurrences, u)
      ensures !SomeFitsAgain(messages, entries, minOccurrences, u)
    {
      RewrittenOnce(messages, entries, minOccurrences, u);
    }
  }

  lemma EntryIsFollowed(messages: seq<Message>, segments: seq<Segment>, minPrefix: int, minOccurrences: int,
                        entries: seq<PrefixEntry>, first: seq<(nat, nat)>, u: nat)
    requires AreSegments(segments, messages) && IsPrefixTable(segments, minPrefix, minOccurrences, entries, first)
    requires forall e :: e in entries ==> UsableEntry(|messages|, e)
    requires u < |messages| && NoneFitsAgain(messages, entries, minOccurrences)
    ensures PointsByEntry(messages, Rewritten(messages, entries, minOccurrences), entries, minOccurrences, u)
  {
    RewrittenOnce(messages, entries, minOccurrences, u);
    if FirstFit(messages, entries, minOccurrences, u).Some? {
      var y := FirstFit(messages, entries, minOccurrences, u).value;
      SourceIsLeast(messages, segments, minPrefix, minOccurrences, entries, first, y);
      var s := SortedDistinct(entries[y].value)[0];
      assert Carries(messages, entries[y].key, s);
      SourceStays(messages, segments, minPrefix, minOccurrences, entries, first, u, y, s);
      RewrittenOnce(messages, entries, minOccurrences, s);
    }
  }

  /** When no entry fits a message again, every message is verbatim or points at a verbatim one. */
  lemma ChainsExcluded(messages: seq<Message>, segments: seq<Segment>, minPrefix: int, minOccurrences: int,
                       entries: seq<PrefixEntry>, first: seq<(nat, nat)>)
    requires NoneFitsAgain(messages, entries, minOccurrences) || NoHeadRecorded(messages, minPrefix)
    requires AreSegments(segments, messages) && IsPrefixTable(segments, minPrefix, minOccurrences, entries, first)
    requires forall e :: e in entries ==> UsableEntry(|messages|, e)
    ensures NoPointerChains(messages, Rewritten(messages, entries, minOccurrences))
  {
    var optimized := Rewritten(messages, entries, minOccurrences);
    if NoHeadRecorded(messages, minPrefix) {
      HeadsAreNotKeys(messages, segments, minPrefix, minOccurrences, entries, first);
      forall u: nat | u < |messages| ensures !SomeFitsAgain(messages, entries, minOccurrences, u) {
        OnlyHeadsFitAgain(messages, entries, minOccurrences, u);
      }
    }
    ChainsExcludedExactly(messages, segments, minPrefix, minOccurrences, entries, first);
    forall u: nat | u < |messages| && optimized[u] != messages[u]
      ensures exists s: nat, p :: PointsTo(messages, optimized, u, s, p)
    {
      assert PointsByEntry(messages, optimized, entries, minOccurrences, u);
    }
  }

  /* ---------- Which messages are shortened, from the messages alone ---------- */

  /** `p` is the longest common prefix of two of the texts. */
  ghost predicate IsCommon(messages: seq<Message>, p: string) {
    exists i, j :: 0 <= i < j < |messages| && MeetIn(messages, p, i, j)
  }

  ghost predicate MeetIn(messages: seq<Message>, p: string, i: nat, j: nat)
    requires i < |messages| && j < |messages|
  {
    && TextOf(messages[i]).Some? && TextOf(messages[j]).Some?
    && IsLcp(p, TextOf(messages[i]).value, TextOf(messages[j]).value)
  }

  ghost function CarriersIn(messages: seq<Message>, p: string): set<nat> {
    set i: nat | i < |messages| && Carries(messages, p, i)
  }

  /** A common prefix that is long enough and that enough messages start with. */
  ghost predicate IsFrequentPrefix(messages: seq<Message>, minPrefix: int, minOccurrences: int, p: string) {
    IsCommon(messages, p) && |p| >= minPrefix && |CarriersIn(messages, p)| >= minOccurrences
  }

  /** Message `u` is a string that starts with `p`, as message `s` does first, and pointing at `s` is shorter. */
  ghost predicate Repeats(messages: seq<Message>, p: string, s: nat, u: nat)
    requires u < |messages|
  {
    && messages[u].content.Text? && Carries(messages, p, u) && Carries(messages, p, s) && s < u
    && (forall i :: 0 <= i < s ==> !Carries(messages, p, i)) && |Pointer(s)| < |p|
  }

  ghost predicate IsRepetition(messages: seq<Message>, minPrefix: int, minOccurrences: int, u: nat)
    requires u < |messages|
  {
    exists p, s :: IsFrequentPrefix(messages, minPrefix, minOccurrences, p) && Repeats(messages, p, s, u)
  }

  lemma {:induction false} IncreasingSize(s: seq<nat>)
    requires Increasing(s)
    ensures |ToSet(s)| == |s|
  {
    if s != [] {
      var front, last := s[..|s| - 1], s[|s| - 1];
      IncreasingSize(front);
      assert last !in front;
      assert ToSet(s) == ToSet(front) + {last};
    }
  }

  lemma SameCarriers(messages: seq<Message>, segments: seq<Segment>, p: string)
    requires AreSegments(segments, messages)
    ensures Carriers(segments, p) == CarriersIn(messages, p)
  {
    forall i: nat ensures i in Carriers(segments, p) <==> i in CarriersIn(messages, p) {
      CarriersAreMessages(messages, segments, p, i);
    }
  }

  /** Messages meet in a prefix where their segments do. */
  lemma SegmentsMeet(messages: seq<Message>, segments: seq<Segment>, p: string)
    requires AreSegments(segments, messages)
    ensures IsCommon(messages, p) <==> exists a: nat, b: nat :: Meets(segments, p, a, b)
  {
    forall a: nat, b: nat | Meets(segments, p, a, b)
      ensures segments[a].index < segments[b].index < |messages|
      ensures MeetIn(messages, p, segments[a].index, segments[b].index)
    {
      assert segments[a] in segments && segments[b] in segments;
    }
    forall i, j | 0 <= i < j < |messages| && MeetIn(messages, p, i, j)
      ensures exists a: nat, b: nat :: Meets(segments, p, a, b)
    {
      MessagesMeet(messages, segments, p, i, j);
    }
  }

  lemma MessagesMeet(messages: seq<Message>, segments: seq<Segment>, p: string, i: nat, j: nat)
    requires AreSegments(segments, messages) && i < j < |messages| && MeetIn(messages, p, i, j)
    ensures exists a: nat, b: nat :: Meets(segments, p, a, b)
  {
    var s, t := Segment(i, TextOf(messages[i]).value), Segment(j, TextOf(messages[j]).value);
    assert s in segments && t in segments;
    var a :| 0 <= a < |segments| && segments[a] == s;
    var b :| 0 <= b < |segments| && segments[b] == t;
    assert Meets(segments, p, a, b);
  }

  /** The entry that fits is a frequent prefix of which the message is a repetition. */
  lemma FitIsRepetition(messages: seq<Message>, segments: seq<Segment>, minPrefix: int, minOccurrences: int,
                        entries: seq<PrefixEntry>, first: seq<(nat, nat)>, u: nat, y: nat)
    requires AreSegments(segments, messages) && IsPrefixTable(segments, minPrefix, minOccurrences, entries, first)
    requires u < |messages| && y < |entries| && Fits(messages, entries[y], minOccurrences, u)
    ensures IsRepetition(messages, minPrefix, minOccurrences, u)
  {
    var p, indices := entries[y].key, SortedDistinct(entries[y].value);
    SourceIsLeast(messages, segments, minPrefix, minOccurrences, entries, first, y);
    SegmentsMeet(messages, segments, p);
    CarriersAreListed(messages, entries[y], indices);
    assert u in indices;
    assert Repeats(messages, p, indices[0], u);
  }

  lemma RepetitionFits(messages: seq<Message>, segments: seq<Segment>, minPrefix: int, minOccurrences: int,
                       entries: seq<PrefixEntry>, first: seq<(nat, nat)>, u: nat, p: string, s: nat)
    requires AreSegments(segments, messages) && IsPrefixTable(segments, minPrefix, minOccurrences, entries, first)
    requires u < |messages| && IsFrequentPrefix(messages, minPrefix, minOccurrences, p) && Repeats(messages, p, s, u)
    ensures exists y :: 0 <= y < |entries| && Fits(messages, entries[y], minOccurrences, u)
  {
    SegmentsMeet(messages, segments, p);
    SameCarriers(messages, segments, p);
    var a: nat, b: nat :| Meets(segments, p, a, b);
    var y :| 0 <= y < |entries| && entries[y].key == p;
    SourceIsLeast(messages, segments, minPrefix, minOccurrences, entries, first, y);
    SourcedFits(messages, entries[y], minOccurrences, SortedDistinct(entries[y].value)[0], s, u);
  }

  lemma SourcedFits(messages: seq<Message>, e: PrefixEntry, minOccurrences: int, source: nat, s: nat, u: nat)
    requires Sourced(messages, e, source) && u < |messages| && Repeats(messages, e.key, s, u)
    requires |CarriersIn(messages, e.key)| >= minOccurrences
    ensures Fits(messages, e, minOccurrences, u)
  {
    var indices := SortedDistinct(e.value);
    assert s in indices && u in indices && source in indices;
    assert Carries(messages, e.key, source) && source == s;
    CarriersAreListed(messages, e, indices);
    ShortenChanges(messages[u], e.key, Pointer(s));
  }

  lemma CarriersAreListed(messages: seq<Message>, e: PrefixEntry, indices: seq<nat>)
    requires Increasing(indices) && forall i :: i in indices <==> Carries(messages, e.key, i)
    ensures |CarriersIn(messages, e.key)| == |indices|
  {
    IncreasingSize(indices);
    assert CarriersIn(messages, e.key) == ToSet(indices);
  }

  lemma ShortenChanges(m: Message, p: string, pointer: string)
    requires m.content.Text? && p <= m.content.text && |pointer| < |p|
    ensures Shorten(m, p, pointer) == m.(content := Text(pointer + m.content.text[|p|..]))
    ensures Shorten(m, p, pointer) != m
  {}

  /** The loop changes exactly the repetitions, whatever their role, and no others. */
  lemma RepetitionsChange(messages: seq<Message>, segments: seq<Segment>, minPrefix: int, minOccurrences: int,
                          entries: seq<PrefixEntry>, first: seq<(nat, nat)>, u: nat)
    requires AreSegments(segments, messages) && IsPrefixTable(segments, minPrefix, minOccurrences, entries, first)
    requires u < |messages| && forall e :: e in entries ==> UsableEntry(|messages|, e)
    ensures Rewritten(messages, entries, minOccurrences)[u] != messages[u] <==>
      IsRepetition(messages, minPrefix, minOccurrences, u)
  {
    ChangedWhereFits(messages, entries, minOccurrences, u);
    if IsRepetition(messages, minPrefix, minOccurrences, u) {
      var p, s :| IsFrequentPrefix(messages, minPrefix, minOccurrences, p) && Repeats(messages, p, s, u);
      RepetitionFits(messages, segments, minPrefix, minOccurrences, entries, first, u, p, s);
      var y :| 0 <= y < |entries| && Fits(messages, entries[y], minOccurrences, u);
      FirstFitIsFirst(messages, entries, minOccurrences, u, y);
    }
    if FirstFit(messages, entries, minOccurrences, u).Some? {
      var y := FirstFit(messages, entries, minOccurrences, u).value;
      FitIsRepetition(messages, segments, minPrefix, minOccurrences, entries, first, u, y);
    }
  }

  lemma ChangedWhereFits(messages: seq<Message>, entries: seq<PrefixEntry>, minOccurrences: int, u: nat)
    requires u < |messages| && forall e :: e in entries ==> UsableEntry(|messages|, e)
    ensures Rewritten(messages, entries, minOccurrences)[u] != messages[u] <==>
      FirstFit(messages, entries, minOccurrences, u).Some?
  {
    RewrittenOnceOrMore(messages, entries, minOccurrences, u);
    if SomeFitsAgain(messages, entries, minOccurrences, u) {
      FirstFitStays(messages, entries, minOccurrences, u);
    }
  }

  /** Nothing but a string content changes, and it becomes a shorter text that starts like a pointer. */
  ghost predicate IsPointerTo(now: Message, m: Message) {
    && m.content.Text? && now.content.Text? && now == m.(content := now.content)
    && HEAD <= now.content.text && |now.content.text| < |m.content.text|
  }

  lemma {:induction false} OnlyTextsChange(messages: seq<Message>, entries: seq<PrefixEntry>, minOccurrences: int,
      u: nat)
    requires u < |messages| && forall e :: e in entries ==> UsableEntry(|messages|, e)
    ensures var now := Rewritten(messages, entries, minOccurrences)[u];
      now == messages[u] || IsPointerTo(now, messages[u])
  {
    if entries != [] {
      var n := |entries| - 1;
      OnlyTextsChange(messages, entries[..n], minOccurrences, u);
      EntryIsApplied(Rewritten(messages, entries[..n], minOccurrences), entries[n], minOccurrences, u);
    }
  }

  /** Phases 1 and 2 of `optimize`. */
  method Deduplicate(messages: seq<Message>, minPrefix: int, minOccurrences: int)
    returns (optimized: seq<Message>, ghost segments: seq<Segment>, ghost entries: seq<PrefixEntry>,
        ghost first: seq<(nat, nat)>)
    ensures |optimized| == |messages|
    ensures |messages| < minOccurrences ==> optimized == messages
    ensures |messages| >= minOccurrences ==>
              && AreSegments(segments, messages) && IsPrefixTable(segments, minPrefix, minOccurrences, entries, first)
              && (forall e :: e in entries ==> UsableEntry(|messages|, e))
              && optimized == Rewritten(messages, entries, minOccurrences)
              && (PointsByTable(messages, optimized, entries, minOccurrences)
                  <==> NoneFitsAgain(messages, entries, minOccurrences))
    ensures NoHeadRecorded(messages, minPrefix) ==> NoPointerChains(messages, optimized)
    ensures |messages| >= minOccurrences ==> forall u: nat :: u < |messages| ==>
              (optimized[u] != messages[u] <==> IsRepetition(messages, minPrefix, minOccurrences, u))
    ensures forall u: nat :: u < |messages| ==> optimized[u] == messages[u] || IsPointerTo(optimized[u], messages[u])
  {
    optimized, segments, entries, first := messages, [], [], [];
    if |messages| >= minOccurrences {
      var texts := ExtractTextSegments(messages);
      var table, pairs := FindCommonPrefixes(texts, minPrefix, minOccurrences);
      forall e | e in table ensures UsableEntry(|messages|, e) {
        var x :| 0 <= x < |table| && table[x] == e;
        SourceIsLeast(messages, texts, minPrefix, minOccurrences, table, pairs, x);
      }
      optimized := RewritePrefixes(messages, table, minOccurrences);
      segments, entries, first := texts, table, pairs;
      ChainsExcludedExactly(messages, texts, minPrefix, minOccurrences, table, pairs);
      forall u: nat | u < |messages|
        ensures optimized[u] != messages[u] <==> IsRepetition(messages, minPrefix, minOccurrences, u)
        ensures optimized[u] == messages[u] || IsPointerTo(optimized[u], messages[u])
      {
        RepetitionsChange(messages, texts, minPrefix, minOccurrences, table, pairs, u);
        OnlyTextsChange(messages, table, minOccurrences, u);
      }
      if NoHeadRecorded(messages, minPrefix) {
        ChainsExcluded(messages, texts, minPrefix, minOccurrences, table, pairs);
      }
    }
  }

  /** The index in a pointer is read back; the text, too, for a reader who knows how long the common prefix was. */
  lemma PointerNamesSource(messages: seq<Message>, optimized: seq<Message>, u: nat, s: nat, p: string)
    requires u < |messages| == |optimized| && PointsTo(messages, optimized, u, s, p)
    ensures Decimal.ReadNumber(HEAD, "]", optimized[u].content.text) == Some(s)
    ensures messages[u].content.text == TextOf(optimized[s]).value[..|p|] + optimized[u].content.text[|Pointer(s)|..]
  {
    var rest := messages[u].content.text[|p|..];
    Decimal.ReadNumberOfShow(HEAD, "]", s, rest);
    assert Pointer(s) + rest == HEAD + Decimal.Show(s) + "]" + rest;
    assert messages[u].content.text == p + rest;
    assert p == TextOf(optimized[s]).value[..|p|];
  }

  /** The pointer does not say how long; putting the whole source text back is right exactly when it was the prefix. */
  lemma WholeSourceIsRight(messages: seq<Message>, optimized: seq<Message>, u: nat, s: nat, p: string)
    requires u < |messages| == |optimized| && PointsTo(messages, optimized, u, s, p)
    ensures var source, rest := TextOf(optimized[s]).value, optimized[u].content.text[|Pointer(s)|..];
      messages[u].content.text == source + rest <==> |source| == |p|
  {
    var source, rest := TextOf(optimized[s]).value, messages[u].content.text[|p|..];
    assert (Pointer(s) + rest)[|Pointer(s)|..] == rest;
    assert messages[u].content.text == p + rest;
  }
}

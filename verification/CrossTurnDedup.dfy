/**
  * Whole-block deduplication across turns, after `cross_turn_dedup.py`. The hash and the size in bytes of a text
  * are parameters; nothing is assumed of the hash except where a lemma says so.
  */
module CrossTurnDedup {
  import opened Prelude
  import opened Messages
  import Decimal

  datatype Block = DedupBlock(index: nat, content: Content)

  /** `_fast_hash` and the length of the UTF-8 encoding. */
  datatype Texts = Texts(hash: string -> string, bytes: string -> nat)

  const MIN_BLOCK_BYTES := 200

  /* ---------- Pointers ---------- */

  const HEAD: string := "[identical to block "
  const MIDDLE: string := " \U{2014} "
  const TAIL: string := " chars omitted]"

  function Pointer(index: nat, length: nat): string {
    HEAD + Decimal.Show(index) + MIDDLE + Decimal.Show(length) + TAIL
  }

  /** The block that a pointer names. */
  function ReadPointer(text: string): (index: Option<nat>) {
    var index := Decimal.ReadNumber(HEAD, MIDDLE, text);
    if index.None? then None
    else
      var length := Decimal.ReadNumber(HEAD + Decimal.Show(index.value) + MIDDLE, TAIL, text);
      if length.Some? && text == Pointer(index.value, length.value) then index else None
  }

  lemma PointerIsRead(index: nat, length: nat)
    ensures ReadPointer(Pointer(index, length)) == Some(index)
  {
    var tail := Decimal.Show(length) + TAIL;
    assert Pointer(index, length) == HEAD + Decimal.Show(index) + MIDDLE + tail;
    Decimal.ReadNumberOfShow(HEAD, MIDDLE, index, tail);
    assert Pointer(index, length) == HEAD + Decimal.Show(index) + MIDDLE + Decimal.Show(length) + TAIL + "";
    Decimal.ReadNumberOfShow(HEAD + Decimal.Show(index) + MIDDLE, TAIL, length, "");
  }

  /* ---------- Which blocks are replaced ---------- */

  /** Only these blocks can be pointed at. */
  predicate CanBeSource(c: Content) { c.Text? && !IsBlank(c.text) }

  predicate IsLarge(f: Texts, c: Content) { c.Text? && f.bytes(c.text) >= MIN_BLOCK_BYTES }

  /** The position of the first possible source with hash `h`. */
  function FirstSource(f: Texts, blocks: seq<Block>, h: string): (first: Option<nat>)
    ensures first.Some? ==> first.value < |blocks| && IsSource(f, blocks[first.value], h)
    ensures forall i :: 0 <= i < first.GetOr(|blocks|) ==> !IsSource(f, blocks[i], h)
  {
    if blocks == [] then None
    else
      var last := |blocks| - 1;
      var first := FirstSource(f, blocks[..last], h);
      if first.Some? then first else if IsSource(f, blocks[last], h) then Some(last) else None
  }

  predicate IsSource(f: Texts, block: Block, h: string) {
    CanBeSource(block.content) && f.hash(block.content.text) == h
  }

  /** The earlier block that stands for block `j`, if any. */
  function SourceOf(f: Texts, blocks: seq<Block>, j: nat): (source: Option<nat>)
    requires j < |blocks|
    ensures source.Some? ==> source.value < j && blocks[j].content.Text?
  {
    if IsLarge(f, blocks[j].content) then FirstSource(f, blocks[..j], f.hash(blocks[j].content.text)) else None
  }

  function Deduped(f: Texts, blocks: seq<Block>, j: nat): Block
    requires j < |blocks|
  {
    match SourceOf(f, blocks, j)
    case None => blocks[j]
    case Some(i) => blocks[j].(content := Text(Pointer(blocks[i].index, |blocks[j].content.text|)))
  }

  function DedupedAll(f: Texts, blocks: seq<Block>): seq<Block> {
    seq(|blocks|, j requires 0 <= j < |blocks| => Deduped(f, blocks, j))
  }

  /** `seen` holds the index of the first possible source for each hash among `blocks`. */
  ghost predicate Tracks(f: Texts, blocks: seq<Block>, seen: map<string, nat>) {
    forall h ::
      var first := FirstSource(f, blocks, h);
      if h in seen then first.Some? && seen[h] == blocks[first.value].index else first.None?
  }

  /** `seen.setdefault` for a block that is kept */
  function Register(f: Texts, seen: map<string, nat>, block: Block): map<string, nat> {
    if CanBeSource(block.content) && f.hash(block.content.text) !in seen
    then seen[f.hash(block.content.text) := block.index]
    else seen
  }

  lemma RegisterTracks(f: Texts, blocks: seq<Block>, j: nat, seen: map<string, nat>)
    requires j < |blocks| && Tracks(f, blocks[..j], seen)
    ensures Tracks(f, blocks[..j + 1], Register(f, seen, blocks[j]))
  {
    assert blocks[..j + 1][..j] == blocks[..j];
  }

  /** A replaced block would register nothing new. */
  lemma ReplacedTracks(f: Texts, blocks: seq<Block>, j: nat, seen: map<string, nat>)
    requires j < |blocks| && Tracks(f, blocks[..j], seen)
    requires blocks[j].content.Text? && f.hash(blocks[j].content.text) in seen
    ensures Tracks(f, blocks[..j + 1], seen)
  {
    RegisterTracks(f, blocks, j, seen);
  }

  lemma DedupedStep(f: Texts, blocks: seq<Block>, j: nat, seen: map<string, nat>)
    requires j < |blocks| && Tracks(f, blocks[..j], seen)
    ensures var c := blocks[j].content;
      Deduped(f, blocks, j)
        == if IsLarge(f, c) && f.hash(c.text) in seen then
            DedupBlock(blocks[j].index, Text(Pointer(seen[f.hash(c.text)], |c.text|)))
           else blocks[j]
  {}

  /** The body of the loop of `dedup_blocks`. */
  method PlaceBlock(f: Texts, ghost blocks: seq<Block>, ghost j: nat, block: Block, seen: map<string, nat>)
    returns (placed: Block, nowSeen: map<string, nat>)
    requires j < |blocks| && block == blocks[j] && Tracks(f, blocks[..j], seen)
    ensures placed == Deduped(f, blocks, j) && Tracks(f, blocks[..j + 1], nowSeen)
  {
    var content := block.content;
    DedupedStep(f, blocks, j, seen);
    if content.Text? && f.bytes(content.text) >= MIN_BLOCK_BYTES && f.hash(content.text) in seen {
      ReplacedTracks(f, blocks, j, seen);
      return DedupBlock(block.index, Text(Pointer(seen[f.hash(content.text)], |content.text|))), seen;
    }
    RegisterTracks(f, blocks, j, seen);
    return block, Register(f, seen, block);
  }

  /** `dedup_blocks` */
  method DedupBlocks(f: Texts, blocks: seq<Block>) returns (result: seq<Block>)
    ensures result == DedupedAll(f, blocks)
  {
    result := [];
    var seen: map<string, nat> := map[];
    for j := 0 to |blocks|
      invariant |result| == j && forall k :: 0 <= k < j ==> result[k] == Deduped(f, blocks, k)
      invariant Tracks(f, blocks[..j], seen)
    {
      var placed;
      placed, seen := PlaceBlock(f, blocks, j, blocks[j], seen);
      result := result + [placed];
    }
  }

  /* ---------- What is lost, and when ---------- */

  /** The index of a block is its position, as the pipeline builds them. */
  predicate Indexed(blocks: seq<Block>) { forall i :: 0 <= i < |blocks| ==> blocks[i].index == i }

  predicate NoPointers(blocks: seq<Block>) {
    forall i :: 0 <= i < |blocks| && blocks[i].content.Text? ==> ReadPointer(blocks[i].content.text).None?
  }

  /** A reader that follows each pointer once. */
  function Resolved(coded: seq<Block>, j: nat): Block
    requires j < |coded|
  {
    var c := coded[j].content;
    var k := if c.Text? then ReadPointer(c.text) else None;
    if k.Some? && k.value < |coded| then coded[j].(content := coded[k.value].content) else coded[j]
  }

  function ResolvedAll(coded: seq<Block>): seq<Block> {
    seq(|coded|, j requires 0 <= j < |coded| => Resolved(coded, j))
  }

  /** Block `j` does not share its hash with a different text that came first. */
  predicate HashTellsApart(f: Texts, blocks: seq<Block>, j: nat)
    requires j < |blocks|
  {
    var source := SourceOf(f, blocks, j);
    source.Some? ==> blocks[source.value].content == blocks[j].content
  }

  predicate NoCollisions(f: Texts, blocks: seq<Block>) {
    forall j :: 0 <= j < |blocks| ==> HashTellsApart(f, blocks, j)
  }

  /** A block that is pointed at is kept: pointers never lead to pointers. */
  lemma SourceIsKept(f: Texts, blocks: seq<Block>, j: nat)
    requires j < |blocks| && SourceOf(f, blocks, j).Some?
    ensures var i := SourceOf(f, blocks, j).value;
      i < j && DedupedAll(f, blocks)[i] == blocks[i] && CanBeSource(blocks[i].content)
  {
    var h := f.hash(blocks[j].content.text);
    var i := FirstSource(f, blocks[..j], h).value;
    assert IsSource(f, blocks[i], h);
    assert forall k :: 0 <= k < i ==> !IsSource(f, blocks[..j][k], h);
  }

  /** A kept block that reads as a pointer to block `k` has the very content that block `k` ends up with. */
  predicate Harmless(f: Texts, blocks: seq<Block>, j: nat)
    requires j < |blocks|
  {
    var c := blocks[j].content;
    SourceOf(f, blocks, j).None? && c.Text? && ReadPointer(c.text).Some? && ReadPointer(c.text).value < |blocks| ==>
      Deduped(f, blocks, ReadPointer(c.text).value).content == c
  }

  lemma ResolvedAt(f: Texts, blocks: seq<Block>, j: nat)
    requires Indexed(blocks) && j < |blocks|
    ensures Resolved(DedupedAll(f, blocks), j) == blocks[j] <==> HashTellsApart(f, blocks, j) && Harmless(f, blocks, j)
  {
    if SourceOf(f, blocks, j).Some? {
      SourceIsKept(f, blocks, j);
      PointerIsRead(SourceOf(f, blocks, j).value, |blocks[j].content.text|);
    }
  }

  /**
   * Following the pointers restores the input exactly when no replaced block collides with another text and every kept
   * block that reads as a pointer is harmless.
   */
  lemma DedupRoundTrip(f: Texts, blocks: seq<Block>)
    requires Indexed(blocks)
    ensures ResolvedAll(DedupedAll(f, blocks)) == blocks <==>
      NoCollisions(f, blocks) && forall j :: 0 <= j < |blocks| ==> Harmless(f, blocks, j)
  {
    var restored := ResolvedAll(DedupedAll(f, blocks));
    forall j | 0 <= j < |blocks|
      ensures restored[j] == blocks[j] <==> HashTellsApart(f, blocks, j) && Harmless(f, blocks, j)
    {
      ResolvedAt(f, blocks, j);
    }
    assert restored == blocks <==> forall j :: 0 <= j < |blocks| ==> restored[j] == blocks[j];
  }

  /** In particular no collisions are enough when no text spells a pointer. */
  lemma PlainRoundTrip(f: Texts, blocks: seq<Block>)
    requires Indexed(blocks) && NoPointers(blocks)
    ensures ResolvedAll(DedupedAll(f, blocks)) == blocks <==> NoCollisions(f, blocks)
  {
    DedupRoundTrip(f, blocks);
  }

  /** An earlier text that is not blank has the hash of block `j`, which is a text of at least 200 bytes. */
  predicate IsRepeated(f: Texts, blocks: seq<Block>, j: nat)
    requires j < |blocks|
  {
    && blocks[j].content.Text? && f.bytes(blocks[j].content.text) >= 200
    && exists i :: 0 <= i < j && IsTwin(f, blocks, i, j)
  }

  predicate IsTwin(f: Texts, blocks: seq<Block>, i: nat, j: nat)
    requires i < |blocks| && j < |blocks| && blocks[j].content.Text?
  {
    && blocks[i].content.Text? && !IsBlank(blocks[i].content.text)
    && f.hash(blocks[i].content.text) == f.hash(blocks[j].content.text)
  }

  /** Exactly the repeated texts are replaced, by a pointer to the first text with their hash and with their length. */
  lemma RepeatedAreReplaced(f: Texts, blocks: seq<Block>, j: nat)
    requires j < |blocks|
    ensures !IsRepeated(f, blocks, j) ==> DedupedAll(f, blocks)[j] == blocks[j]
    ensures IsRepeated(f, blocks, j) ==>
      exists i :: 0 <= i < j && IsTwin(f, blocks, i, j) && (forall k :: 0 <= k < i ==> !IsTwin(f, blocks, k, j))
                  && DedupedAll(f, blocks)[j] == DedupBlock(blocks[j].index,
                       Text(Pointer(blocks[i].index, |blocks[j].content.text|)))
  {
    if blocks[j].content.Text? {
      var h := f.hash(blocks[j].content.text);
      var first := FirstSource(f, blocks[..j], h);
      assert forall i :: 0 <= i < j ==> (IsTwin(f, blocks, i, j) <==> IsSource(f, blocks[..j][i], h));
      if first.Some? && IsLarge(f, blocks[j].content) {
        assert IsTwin(f, blocks, first.value, j);
      }
    }
  }

  ghost predicate Injective(f: Texts) { forall s, t :: f.hash(s) == f.hash(t) ==> s == t }

  lemma InjectiveHasNoCollisions(f: Texts, blocks: seq<Block>)
    requires Injective(f)
    ensures NoCollisions(f, blocks)
  {
    forall j | 0 <= j < |blocks|
      ensures HashTellsApart(f, blocks, j)
    {
      if SourceOf(f, blocks, j).Some? {
        SourceIsKept(f, blocks, j);
      }
    }
  }

  /** Appending a turn never changes what earlier turns were turned into. */
  lemma LaterTurnsChangeNothing(f: Texts, blocks: seq<Block>, more: seq<Block>)
    ensures DedupedAll(f, blocks) <= DedupedAll(f, blocks + more)
  {
    forall j | 0 <= j < |blocks|
      ensures Deduped(f, blocks + more, j) == Deduped(f, blocks, j)
    {
      assert (blocks + more)[..j] == blocks[..j];
    }
  }

  /** No decoder restores all inputs: a text that spells a pointer is coded like the repetition it describes. */
  lemma PointersCollide(f: Texts, text: string)
    requires IsLarge(f, Text(text)) && CanBeSource(Text(text)) && f.bytes(Pointer(0, |text|)) < MIN_BLOCK_BYTES
    ensures var block, twin, spelled :=
        DedupBlock(0, Text(text)), DedupBlock(1, Text(text)), DedupBlock(1, Text(Pointer(0, |text|)));
      DedupedAll(f, [block, twin]) == DedupedAll(f, [block, spelled]) && [block, twin] != [block, spelled]
  {
    var block, twin, spelled := DedupBlock(0, Text(text)), DedupBlock(1, Text(text)),
        DedupBlock(1, Text(Pointer(0, |text|)));
    assert [block, twin][..1] == [block] && [block, twin][..0] == [] && [block][..0] == [];
    assert FirstSource(f, [block], f.hash(text)) == Some(0);
    assert DedupedAll(f, [block, twin]) == [block, spelled];
    assert DedupedAll(f, [block, spelled]) == [block, spelled];
  }
}

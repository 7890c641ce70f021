/**
 * Results of fresh reads as the pipeline protects them (`pipeline.py`): captured once, and put back after every phase.
 */
module Snapshots {
  import opened Prelude
  import opened Messages

  /* ---------- Snapshots of fresh reads ---------- */

  type Payloads = map<string, Content>

  function SnapshotBlocks(blocks: seq<Block>, ids: set<string>): Payloads {
    if blocks == [] then map[]
    else
      var n := |blocks| - 1;
      var rest := SnapshotBlocks(blocks[..n], ids);
      if IsResultBlock(blocks[n], ids) then rest[blocks[n].toolUseId := blocks[n].payload] else rest
  }

  function SnapshotMessage(m: Message, ids: set<string>): Payloads {
    (if IsResult(m, ids) then map[m.toolCallId.value := m.content] else map[])
    + if m.content.Blocks? then SnapshotBlocks(m.content.blocks, ids) else map[]
  }

  /** `_snapshot_read_results`: later results of the same call win. */
  function Snapshot(messages: seq<Message>, ids: set<string>): Payloads {
    if messages == [] then map[]
    else Snapshot(messages[..|messages| - 1], ids) + SnapshotMessage(messages[|messages| - 1], ids)
  }

  method SnapshotBlockResults(blocks: seq<Block>, ids: set<string>, given: Payloads) returns (snapshots: Payloads)
    ensures snapshots == given + SnapshotBlocks(blocks, ids)
  {
    snapshots := given;
    for k := 0 to |blocks|
      invariant snapshots == given + SnapshotBlocks(blocks[..k], ids)
    {
      assert blocks[..k + 1][..k] == blocks[..k];
      if IsResultBlock(blocks[k], ids) {
        snapshots := snapshots[blocks[k].toolUseId := blocks[k].payload];
      }
    }
    assert blocks[..|blocks|] == blocks;
  }

  method SnapshotMessageResults(m: Message, ids: set<string>, given: Payloads) returns (snapshots: Payloads)
    ensures snapshots == given + SnapshotMessage(m, ids)
  {
    snapshots := given;
    if IsResult(m, ids) {
      snapshots := snapshots[m.toolCallId.value := m.content];
    }
    if m.content.Blocks? {
      snapshots := SnapshotBlockResults(m.content.blocks, ids, snapshots);
    }
  }

  method SnapshotReadResults(messages: seq<Message>, ids: set<string>) returns (snapshots: Payloads)
    ensures snapshots == Snapshot(messages, ids)
  {
    snapshots := map[];
    for i := 0 to |messages|
      invariant snapshots == Snapshot(messages[..i], ids)
    {
      assert messages[..i + 1][..i] == messages[..i];
      snapshots := SnapshotMessageResults(messages[i], ids, snapshots);
    }
    assert messages[..|messages|] == messages;
  }

  ghost predicate BlocksMatch(blocks: seq<Block>, ids: set<string>, snapshots: Payloads) {
    forall k :: 0 <= k < |blocks| && IsResultBlock(blocks[k], ids) ==>
      blocks[k].toolUseId in snapshots && snapshots[blocks[k].toolUseId] == blocks[k].payload
  }

  /** A tool message with a captured id is restored as a whole, so the blocks inside it do not matter. */
  ghost predicate Matches(m: Message, ids: set<string>, snapshots: Payloads) {
    && (IsResult(m, ids) ==> m.toolCallId.value in snapshots && snapshots[m.toolCallId.value] == m.content)
    && (m.content.Blocks? && !IsResult(m, ids) ==> BlocksMatch(m.content.blocks, ids, snapshots))
  }

  ghost predicate AllMatch(messages: seq<Message>, ids: set<string>, snapshots: Payloads) {
    forall i :: 0 <= i < |messages| ==> Matches(messages[i], ids, snapshots)
  }

  /** Every result that is restored by itself is what the conversation holds last under its id. */
  ghost predicate Consistent(messages: seq<Message>, ids: set<string>) {
    AllMatch(messages, ids, Snapshot(messages, ids))
  }

  /** All results with the same id agree, those inside tool messages included; unique ids are the usual reason. */
  ghost predicate Agree(messages: seq<Message>, ids: set<string>) {
    exists payloads: Payloads :: AllKnown(messages, ids, payloads)
  }

  ghost predicate AllKnown(messages: seq<Message>, ids: set<string>, payloads: Payloads) {
    forall i :: 0 <= i < |messages| ==> Known(messages[i], ids, payloads)
  }

  ghost predicate Known(m: Message, ids: set<string>, payloads: Payloads) {
    && (IsResult(m, ids) ==> m.toolCallId.value in payloads && payloads[m.toolCallId.value] == m.content)
    && (m.content.Blocks? ==> BlocksMatch(m.content.blocks, ids, payloads))
  }

  /* ---------- Restoring ---------- */

  /** The call id that a block carries, whatever its type. */
  function IdOf(b: Block): Option<string> {
    match b
    case ToolResult(id, _) => Some(id)
    case OtherBlock(_, id, _) => id
    case _ => None
  }

  function RestoreBlock(b: Block, snapshots: Payloads): Block {
    if IdOf(b).None? || IdOf(b).value !in snapshots then b
    else
      match b
      case ToolResult(id, _) => ToolResult(id, snapshots[id])
      case OtherBlock(raw, id, _) => OtherBlock(raw, id, snapshots[IdOf(b).value])
  }

  function RestoreMessage(m: Message, snapshots: Payloads): Message {
    if m.role == "tool" && m.toolCallId.Some? && m.toolCallId.value in snapshots then
      m.(content := snapshots[m.toolCallId.value])
    else if m.content.Blocks? then
      var blocks := m.content.blocks;
      m.(content := Blocks(seq(|blocks|, k requires 0 <= k < |blocks| => RestoreBlock(blocks[k], snapshots))))
    else m
  }

  function RestoreReads(messages: seq<Message>, snapshots: Payloads): (r: seq<Message>)
    ensures |r| == |messages|
  {
    seq(|messages|, i requires 0 <= i < |messages| => RestoreMessage(messages[i], snapshots))
  }

  /** `now` is `out` with captured payloads put back, into whole tool messages or single blocks, and no other change. */
  predicate HasReadsBack(now: Message, out: Message, snapshots: Payloads) {
    && now == out.(content := now.content)
    && if out.role == "tool" && out.toolCallId.Some? && out.toolCallId.value in snapshots then
         now.content == snapshots[out.toolCallId.value]
       else if out.content.Blocks? then
         && now.content.Blocks? && |now.content.blocks| == |out.content.blocks|
         && forall k :: 0 <= k < |out.content.blocks| ==>
              HasPayloadBack(now.content.blocks[k], out.content.blocks[k], snapshots)
       else now.content == out.content
  }

  predicate HasPayloadBack(now: Block, out: Block, snapshots: Payloads) {
    match out
    case ToolResult(id, _) => now == if id in snapshots then ToolResult(id, snapshots[id]) else out
    case OtherBlock(raw, Some(id), _) => now == if id in snapshots then OtherBlock(raw, Some(id), snapshots[id])
        else out
    case _ => now == out
  }

  lemma ReadsArePutBack(out: Message, snapshots: Payloads)
    ensures HasReadsBack(RestoreMessage(out, snapshots), out, snapshots)
  {}

  method RestoreBlocks(given: seq<Block>, snapshots: Payloads) returns (blocks: seq<Block>, changed: bool)
    ensures blocks == seq(|given|, k requires 0 <= k < |given| => RestoreBlock(given[k], snapshots))
    ensures !changed ==> blocks == given
  {
    blocks, changed := [], false;
    for k := 0 to |given|
      invariant |blocks| == k && forall j :: 0 <= j < k ==> blocks[j] == RestoreBlock(given[j], snapshots)
      invariant !changed ==> blocks == given[..k]
    {
      if IdOf(given[k]).Some? && IdOf(given[k]).value in snapshots {
        blocks := blocks + [RestoreBlock(given[k], snapshots)];
        changed := true;
      } else {
        blocks := blocks + [given[k]];
      }
    }
    assert given[..|given|] == given;
  }

  /** `_restore_read_results` and its twin `_restore_read_results_no_risk`. */
  method RestoreReadResults(messages: seq<Message>, snapshots: Payloads) returns (restored: seq<Message>)
    ensures restored == RestoreReads(messages, snapshots)
    ensures |restored| == |messages|
    ensures forall i :: 0 <= i < |messages| ==> HasReadsBack(restored[i], messages[i], snapshots)
  {
    restored := [];
    for i := 0 to |messages|
      invariant |restored| == i && forall j :: 0 <= j < i ==> restored[j] == RestoreMessage(messages[j], snapshots)
    {
      var msg := messages[i];
      if msg.role == "tool" && msg.toolCallId.Some? && msg.toolCallId.value in snapshots {
        restored := restored + [msg.(content := snapshots[msg.toolCallId.value])];
        continue;
      }
      if msg.content.Blocks? {
        var blocks, changed := RestoreBlocks(msg.content.blocks, snapshots);
        if changed {
          restored := restored + [msg.(content := Blocks(blocks))];
          continue;
        }
      }
      restored := restored + [msg];
    }
    forall i | 0 <= i < |messages| ensures HasReadsBack(restored[i], messages[i], snapshots) {
      ReadsArePutBack(messages[i], snapshots);
    }
  }

  /** `_preserve_phase_safe`: a message that the phase changed without saving tokens gets its content back. */
  function PreserveSafe(before: seq<Message>, candidate: seq<Message>, snapshots: Payloads,
      tokens: Content -> int): (r: seq<Message>)
    ensures |r| == |candidate|
  {
    var restored := RestoreReads(candidate, snapshots);
    seq(|restored|, i requires 0 <= i < |restored| =>
      if i < |before| && before[i].content != restored[i].content
          && tokens(restored[i].content) >= tokens(before[i].content)
      then restored[i].(content := before[i].content) else restored[i])
  }

  /** With captured reads put back, a message keeps its new content if that saves tokens, and only then. */
  ghost predicate HasSavingKept(now: Message, out: Message, before: Option<Content>, snapshots: Payloads,
      tokens: Content -> int) {
    exists back :: HasReadsBack(back, out, snapshots) && now ==
      if before.Some? && tokens(back.content) >= tokens(before.value) then back.(content := before.value) else back
  }

  lemma SavingIsKept(before: seq<Message>, candidate: seq<Message>, snapshots: Payloads, tokens: Content -> int, i: nat)
    requires i < |candidate|
    ensures HasSavingKept(PreserveSafe(before, candidate, snapshots, tokens)[i], candidate[i],
                          if i < |before| then Some(before[i].content) else None, snapshots, tokens)
  {
    ReadsArePutBack(candidate[i], snapshots);
    assert HasReadsBack(RestoreReads(candidate, snapshots)[i], candidate[i], snapshots);
  }

  method PreservePhaseSafe(before: seq<Message>, candidate: seq<Message>, snapshots: Payloads, tokens: Content -> int)
    returns (restored: seq<Message>)
    ensures restored == PreserveSafe(before, candidate, snapshots, tokens)
    ensures |restored| == |candidate|
    ensures forall i :: 0 <= i < |before| && i < |restored| ==>
      restored[i].content == before[i].content || tokens(restored[i].content) < tokens(before[i].content)
    ensures forall i :: 0 <= i < |restored| ==>
      HasSavingKept(restored[i], candidate[i], if i < |before| then Some(before[i].content)
          else None, snapshots, tokens)
  {
    restored := RestoreReadResults(candidate, snapshots);
    ghost var base := restored;
    var n := if |before| <= |restored| then |before| else |restored|;
    for i := 0 to n
      invariant |restored| == |base|
      invariant forall j :: i <= j < |base| ==> restored[j] == base[j]
      invariant forall j :: 0 <= j < i ==> restored[j] == PreserveSafe(before, candidate, snapshots, tokens)[j]
    {
      if before[i].content != restored[i].content && tokens(restored[i].content) >= tokens(before[i].content) {
        restored := restored[i := restored[i].(content := before[i].content)];
      }
    }
    forall i | 0 <= i < |restored|
      ensures HasSavingKept(restored[i], candidate[i], if i < |before| then Some(before[i].content) else None,
                            snapshots, tokens)
    {
      SavingIsKept(before, candidate, snapshots, tokens, i);
    }
  }

  /* ---------- What the snapshot holds ---------- */

  /** The results of a conversation in order: a tool message first, then the blocks inside it. */
  function ResultsIn(messages: seq<Message>): seq<(string, Content)> {
    if messages == [] then []
    else ResultsIn(messages[..|messages| - 1]) + ResultsOf(messages[|messages| - 1])
  }

  function ResultsOf(m: Message): seq<(string, Content)> {
    (if m.role == "tool" && m.toolCallId.Some? then [(m.toolCallId.value, m.content)] else [])
    + if m.content.Blocks? then ResultsOfBlocks(m.content.blocks) else []
  }

  function ResultsOfBlocks(blocks: seq<Block>): seq<(string, Content)> {
    if blocks == [] then []
    else
      var last := blocks[|blocks| - 1];
      ResultsOfBlocks(blocks[..|blocks| - 1]) + if last.ToolResult? then [(last.toolUseId, last.payload)] else []
  }

  /** Result `k` is the last one of its call. */
  predicate IsLastResult(results: seq<(string, Content)>, k: nat) {
    k < |results| && forall j :: k < j < |results| ==> results[j].0 != results[k].0
  }

  /** Captured: for each of the ids the last payload among the results, and nothing else. */
  ghost predicate HoldsLast(snapshots: Payloads, results: seq<(string, Content)>, ids: set<string>) {
    && (forall k: nat :: IsLastResult(results, k) && results[k].0 in ids ==>
          results[k].0 in snapshots && snapshots[results[k].0] == results[k].1)
    && (forall id :: id in snapshots ==> id in ids && exists k :: 0 <= k < |results| && results[k].0 == id)
  }

  lemma HoldsLastOfBoth(a: Payloads, b: Payloads, r: seq<(string, Content)>, t: seq<(string, Content)>,
      ids: set<string>)
    requires HoldsLast(a, r, ids) && HoldsLast(b, t, ids)
    ensures HoldsLast(a + b, r + t, ids)
  {
    var all := r + t;
    forall k: nat | IsLastResult(all, k) && all[k].0 in ids
      ensures all[k].0 in a + b && (a + b)[all[k].0] == all[k].1
    {
      if k < |r| {
        LastInFront(r, t, k);
      } else {
        LastInBack(r, t, k);
      }
    }
    forall id | id in a + b ensures id in ids && exists k :: 0 <= k < |all| && all[k].0 == id {
      if id in b {
        var k :| 0 <= k < |t| && t[k].0 == id;
        assert all[|r| + k].0 == id;
      } else {
        var k :| 0 <= k < |r| && r[k].0 == id;
        assert all[k].0 == id;
      }
    }
  }

  lemma LastInFront(r: seq<(string, Content)>, t: seq<(string, Content)>, k: nat)
    requires k < |r| && IsLastResult(r + t, k)
    ensures IsLastResult(r, k) && forall j :: 0 <= j < |t| ==> t[j].0 != r[k].0
  {
    assert forall j :: 0 <= j < |t| ==> (r + t)[|r| + j] == t[j];
    assert forall j :: k < j < |r| ==> (r + t)[j] == r[j];
  }

  lemma LastInBack(r: seq<(string, Content)>, t: seq<(string, Content)>, k: nat)
    requires k >= |r| && IsLastResult(r + t, k)
    ensures IsLastResult(t, k - |r|)
  {
    assert forall j :: k - |r| < j < |t| ==> (r + t)[|r| + j] == t[j];
  }

  function One(id: string, payload: Content, ids: set<string>): Payloads {
    if id in ids then map[id := payload] else map[]
  }

  lemma HoldsOne(id: string, payload: Content, ids: set<string>)
    ensures HoldsLast(One(id, payload, ids), [(id, payload)], ids)
  {
    assert [(id, payload)][0].0 == id;
  }

  lemma {:induction false} BlocksHoldLast(blocks: seq<Block>, ids: set<string>)
    ensures HoldsLast(SnapshotBlocks(blocks, ids), ResultsOfBlocks(blocks), ids)
  {
    if blocks != [] {
      var front, last := blocks[..|blocks| - 1], blocks[|blocks| - 1];
      BlocksHoldLast(front, ids);
      if last.ToolResult? {
        OneMoreResult(SnapshotBlocks(front, ids), ResultsOfBlocks(front), last.toolUseId, last.payload, ids);
      }
      LastBlock(blocks, ids);
    }
  }

  lemma LastBlock(blocks: seq<Block>, ids: set<string>)
    requires blocks != []
    ensures var front, last := blocks[..|blocks| - 1], blocks[|blocks| - 1];
      && SnapshotBlocks(blocks, ids)
           == (if last.ToolResult? then SnapshotBlocks(front, ids) + One(last.toolUseId, last.payload, ids)
               else SnapshotBlocks(front, ids))
      && ResultsOfBlocks(blocks)
           == (if last.ToolResult? then ResultsOfBlocks(front) + [(last.toolUseId, last.payload)]
               else ResultsOfBlocks(front))
  {
    assert ResultsOfBlocks(blocks[..|blocks| - 1]) + [] == ResultsOfBlocks(blocks[..|blocks| - 1]);
  }

  lemma OneMoreResult(a: Payloads, r: seq<(string, Content)>, id: string, payload: Content, ids: set<string>)
    requires HoldsLast(a, r, ids)
    ensures HoldsLast(a + One(id, payload, ids), r + [(id, payload)], ids)
  {
    HoldsOne(id, payload, ids);
    HoldsLastOfBoth(a, One(id, payload, ids), r, [(id, payload)], ids);
  }

  lemma MessageHoldsLast(m: Message, ids: set<string>)
    ensures HoldsLast(SnapshotMessage(m, ids), ResultsOf(m), ids)
  {
    var own: Payloads := if IsResult(m, ids) then map[m.toolCallId.value := m.content] else map[];
    var ownResults := if m.role == "tool" && m.toolCallId.Some? then [(m.toolCallId.value, m.content)] else [];
    if m.role == "tool" && m.toolCallId.Some? {
      HoldsOne(m.toolCallId.value, m.content, ids);
    }
    assert HoldsLast(own, ownResults, ids);
    var blocks := if m.content.Blocks? then m.content.blocks else [];
    BlocksHoldLast(blocks, ids);
    HoldsLastOfBoth(own, SnapshotBlocks(blocks, ids), ownResults, ResultsOfBlocks(blocks), ids);
  }

  /** The snapshot holds, for each of the ids, the payload of its last result. */
  lemma {:induction false} SnapshotHoldsLast(messages: seq<Message>, ids: set<string>)
    ensures HoldsLast(Snapshot(messages, ids), ResultsIn(messages), ids)
  {
    if messages != [] {
      var front, last := messages[..|messages| - 1], messages[|messages| - 1];
      SnapshotHoldsLast(front, ids);
      MessageHoldsLast(last, ids);
      HoldsLastOfBoth(Snapshot(front, ids), SnapshotMessage(last, ids), ResultsIn(front), ResultsOf(last), ids);
    }
  }

  /** Everything captured is a payload that `payloads` knows under the same id. */
  ghost predicate IsPart(captured: Payloads, payloads: Payloads, ids: set<string>) {
    forall id :: id in captured ==> id in ids && id in payloads && captured[id] == payloads[id]
  }

  lemma {:induction false} BlocksCaptured(blocks: seq<Block>, ids: set<string>, payloads: Payloads)
    requires BlocksMatch(blocks, ids, payloads)
    ensures IsPart(SnapshotBlocks(blocks, ids), payloads, ids)
    ensures forall k :: 0 <= k < |blocks| && IsResultBlock(blocks[k], ids) ==>
        blocks[k].toolUseId in SnapshotBlocks(blocks, ids)
  {
    if blocks != [] {
      BlocksCaptured(blocks[..|blocks| - 1], ids, payloads);
    }
  }

  lemma MessageCaptured(m: Message, ids: set<string>, payloads: Payloads)
    requires Known(m, ids, payloads)
    ensures IsPart(SnapshotMessage(m, ids), payloads, ids)
    ensures Known(m, ids, SnapshotMessage(m, ids))
  {
    if m.content.Blocks? {
      BlocksCaptured(m.content.blocks, ids, payloads);
    }
  }

  /** When results with the same id agree, the snapshot holds the payload of every fresh result. */
  lemma {:induction false} AllCaptured(messages: seq<Message>, ids: set<string>, payloads: Payloads)
    requires AllKnown(messages, ids, payloads)
    ensures IsPart(Snapshot(messages, ids), payloads, ids)
    ensures AllKnown(messages, ids, Snapshot(messages, ids))
  {
    if messages != [] {
      var n := |messages| - 1;
      AllCaptured(messages[..n], ids, payloads);
      MessageCaptured(messages[n], ids, payloads);
      var rest, own := Snapshot(messages[..n], ids), SnapshotMessage(messages[n], ids);
      forall i | 0 <= i < |messages| ensures Known(messages[i], ids, rest + own) {
        KnownMore(messages[i], ids, if i < n then rest else own, rest + own, payloads);
      }
    }
  }

  lemma KnownMore(m: Message, ids: set<string>, small: Payloads, large: Payloads, payloads: Payloads)
    requires Known(m, ids, small) && IsPart(small, payloads, ids) && IsPart(large, payloads, ids)
    requires small.Keys <= large.Keys
    ensures Known(m, ids, large)
  {}

  /** Agreement is enough for consistency, and without mixed formats it is the same. */
  lemma AgreeIsConsistent(messages: seq<Message>, ids: set<string>)
    ensures Agree(messages, ids) ==> Consistent(messages, ids)
    ensures Unmixed(messages) && Consistent(messages, ids) ==> Agree(messages, ids)
  {
    if Agree(messages, ids) {
      var payloads: Payloads :| AllKnown(messages, ids, payloads);
      AllCaptured(messages, ids, payloads);
      forall i | 0 <= i < |messages| ensures Matches(messages[i], ids, Snapshot(messages, ids)) {
        assert Known(messages[i], ids, Snapshot(messages, ids));
      }
    }
    if Unmixed(messages) && Consistent(messages, ids) {
      forall i | 0 <= i < |messages| ensures Known(messages[i], ids, Snapshot(messages, ids)) {
        assert Matches(messages[i], ids, Snapshot(messages, ids));
        if IsResult(messages[i], ids) && messages[i].content.Blocks? {
          NoResultInside(messages, i, ids, Snapshot(messages, ids));
        }
      }
      assert AllKnown(messages, ids, Snapshot(messages, ids));
    }
  }

  lemma NoResultInside(messages: seq<Message>, i: nat, ids: set<string>, snapshots: Payloads)
    requires Unmixed(messages) && i < |messages| && IsResult(messages[i], ids) && messages[i].content.Blocks?
    ensures BlocksMatch(messages[i].content.blocks, ids, snapshots)
  {
    forall k | 0 <= k < |messages[i].content.blocks| ensures !IsResultBlock(messages[i].content.blocks[k], ids) {
      assert messages[i].content.blocks[k] in messages[i].content.blocks;
    }
  }

  /** Messages with the same fresh payloads match the same snapshots. */
  lemma MatchesSame(a: seq<Message>, b: seq<Message>, ids: set<string>, snapshots: Payloads)
    requires SamePayloads(a, b, ids)
    ensures AllMatch(a, ids, snapshots) <==> AllMatch(b, ids, snapshots)
  {
    forall i | 0 <= i < |a| ensures Matches(a[i], ids, snapshots) <==> Matches(b[i], ids, snapshots) {
      assert SamePayload(a[i], b[i], ids);
    }
  }

  lemma RestoredMessageKeeps(m: Message, n: Message, ids: set<string>, snapshots: Payloads)
    requires SameShape(m, n) && Matches(m, ids, snapshots) && snapshots.Keys <= ids
    ensures SamePayload(m, RestoreMessage(n, snapshots), ids)
  {}

  /** Whatever a shape-keeping transform did, restoring brings every fresh payload back. */
  lemma RestoreKeeps(before: seq<Message>, out: seq<Message>, ids: set<string>, snapshots: Payloads)
    requires |out| == |before| && forall i :: 0 <= i < |before| ==> SameShape(before[i], out[i])
    requires AllMatch(before, ids, snapshots) && snapshots.Keys <= ids
    ensures SamePayloads(before, RestoreReads(out, snapshots), ids)
  {
    forall i | 0 <= i < |before| ensures SamePayload(before[i], RestoreReads(out, snapshots)[i], ids) {
      assert SameShape(before[i], out[i]) && Matches(before[i], ids, snapshots);
      RestoredMessageKeeps(before[i], out[i], ids, snapshots);
    }
  }

  lemma {:induction false} SameBlocksCaptured(a: seq<Block>, b: seq<Block>, ids: set<string>)
    requires |a| == |b| && forall k :: 0 <= k < |a| ==> SameBlockShape(a[k], b[k])
    requires forall k :: 0 <= k < |a| && IsResultBlock(a[k], ids) ==> b[k] == a[k]
    ensures SnapshotBlocks(b, ids) == SnapshotBlocks(a, ids)
  {
    if a != [] {
      var n := |a| - 1;
      SameBlocksCaptured(a[..n], b[..n], ids);
      assert SameBlockShape(a[n], b[n]);
    }
  }

  lemma SameMessageCaptured(m: Message, n: Message, ids: set<string>)
    requires SamePayload(m, n, ids)
    ensures SnapshotMessage(n, ids) == SnapshotMessage(m, ids)
  {
    if m.content.Blocks? {
      SameBlocksCaptured(m.content.blocks, n.content.blocks, ids);
    }
  }

  lemma {:induction false} SameCaptured(a: seq<Message>, b: seq<Message>, ids: set<string>)
    requires SamePayloads(a, b, ids)
    ensures Snapshot(b, ids) == Snapshot(a, ids)
  {
    if a != [] {
      var n := |a| - 1;
      SameCaptured(a[..n], b[..n], ids);
      SameMessageCaptured(a[n], b[n], ids);
    }
  }

  lemma {:induction false} BlocksOfIds(blocks: seq<Block>, ids: set<string>)
    ensures SnapshotBlocks(blocks, ids).Keys <= ids
  {
    if blocks != [] {
      BlocksOfIds(blocks[..|blocks| - 1], ids);
    }
  }

  lemma {:induction false} CapturedIds(messages: seq<Message>, ids: set<string>)
    ensures Snapshot(messages, ids).Keys <= ids
  {
    if messages != [] {
      var m := messages[|messages| - 1];
      CapturedIds(messages[..|messages| - 1], ids);
      if m.content.Blocks? {
        BlocksOfIds(m.content.blocks, ids);
      }
    }
  }

  /** The snapshot taken after the lifecycle phase holds the original payload of every fresh result. */
  lemma SnapshotServes(messages: seq<Message>, current: seq<Message>, ids: set<string>)
    requires Consistent(messages, ids) && SamePayloads(messages, current, ids)
    ensures AllMatch(messages, ids, Snapshot(current, ids)) && Snapshot(current, ids).Keys <= ids
  {
    SameCaptured(messages, current, ids);
    CapturedIds(current, ids);
  }

  /* ---------- When snapshots by call id are enough ---------- */

  lemma {:induction false} BlocksCovered(blocks: seq<Block>, ids: set<string>, k: nat)
    requires k < |blocks| && IsResultBlock(blocks[k], ids)
    ensures blocks[k].toolUseId in SnapshotBlocks(blocks, ids)
  {
    if k < |blocks| - 1 {
      BlocksCovered(blocks[..|blocks| - 1], ids, k);
    }
  }

  lemma {:induction false} MessagesCovered(messages: seq<Message>, ids: set<string>, i: nat)
    requires i < |messages|
    ensures SnapshotMessage(messages[i], ids).Keys <= Snapshot(messages, ids).Keys
  {
    if i < |messages| - 1 {
      MessagesCovered(messages[..|messages| - 1], ids, i);
    }
  }

  lemma RestoredMatches(m: Message, ids: set<string>, snapshots: Payloads)
    requires SamePayload(m, RestoreMessage(m, snapshots), ids)
    requires SnapshotMessage(m, ids).Keys <= snapshots.Keys <= ids
    ensures Matches(m, ids, snapshots)
  {
    if m.content.Blocks? && !IsResult(m, ids) {
      var blocks := m.content.blocks;
      forall k | 0 <= k < |blocks| && IsResultBlock(blocks[k], ids)
        ensures blocks[k].toolUseId in snapshots && snapshots[blocks[k].toolUseId] == blocks[k].payload
      {
        BlocksCovered(blocks, ids, k);
        assert RestoreMessage(m, snapshots).content.blocks[k] == blocks[k];
      }
    }
  }

  /** Snapshot and restore keep the conversation's fresh payloads exactly when its results are consistent. */
  lemma RestoringIsFaithful(messages: seq<Message>, ids: set<string>)
    ensures SamePayloads(messages, RestoreReads(messages, Snapshot(messages, ids)), ids) <==> Consistent(messages, ids)
  {
    var snapshots := Snapshot(messages, ids);
    CapturedIds(messages, ids);
    if Consistent(messages, ids) {
      forall i | 0 <= i < |messages| ensures SameShape(messages[i], messages[i]) {}
      RestoreKeeps(messages, messages, ids, snapshots);
    }
    if SamePayloads(messages, RestoreReads(messages, snapshots), ids) {
      forall i | 0 <= i < |messages| ensures Matches(messages[i], ids, snapshots) {
        assert SamePayload(messages[i], RestoreReads(messages, snapshots)[i], ids);
        MessagesCovered(messages, ids, i);
        RestoredMatches(messages[i], ids, snapshots);
      }
    }
  }
}

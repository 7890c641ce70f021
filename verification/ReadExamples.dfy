/** Conversations that show where the promises of the read lifecycle end. */
module ReadExamples {
  import opened Prelude
  import opened Fields
  import opened Messages
  import opened ReadLifecycle

  const BOTH: Config := Config(true, true, 0, 0)

  const F: Field := Str("f")

  /** A call of a file tool on the file `f`, without a range. */
  function CallOf(id: string, tool: string): ToolCall { ToolCall(id, tool, Object(F, Null, Null, Null)) }

  function CallMessage(id: string, tool: string): Message { Message("assistant", None, [CallOf(id, tool)], Absent) }

  function ResultMessage(id: string, content: Content): Message { Message("tool", Some(id), [], content) }

  /* ---------- Building a conversation message by message ---------- */

  lemma MetadataOfLast(messages: seq<Message>, m: Message, call: ToolCall)
    requires CallsOf(m) == [call]
    ensures ToolMetadata(messages + [m]) == Put(ToolMetadata(messages), call)
  {
    assert (messages + [m])[..|messages|] == messages && (messages + [m])[|messages|] == m;
    PutAllOne(ToolMetadata(messages), call);
  }

  lemma PutAllOne(metadata: seq<ToolCall>, call: ToolCall)
    ensures PutAll(metadata, [call]) == Put(metadata, call)
  {
    assert [call][1..] == [] && PutAll(Put(metadata, call), []) == Put(metadata, call);
  }

  lemma MetadataOfCall(messages: seq<Message>, id: string, tool: string)
    ensures ToolMetadata(messages + [CallMessage(id, tool)]) == Put(ToolMetadata(messages), CallOf(id, tool))
  {
    assert CallsOf(CallMessage(id, tool)) == [CallOf(id, tool)];
    MetadataOfLast(messages, CallMessage(id, tool), CallOf(id, tool));
  }

  lemma MetadataOfResult(messages: seq<Message>, m: Message)
    requires m.role == "tool"
    ensures ToolMetadata(messages + [m]) == ToolMetadata(messages)
  {
    assert (messages + [m])[..|messages|] == messages;
    assert CallsOf(m) == [];
  }

  lemma HasCallOf(id: string, tool: string, wanted: string)
    ensures HasCall(CallMessage(id, tool), wanted) <==> id == wanted
  {
    assert CallsOf(CallMessage(id, tool)) == [CallOf(id, tool)];
    assert CallOf(id, tool) in [CallOf(id, tool)];
  }

  lemma HasNoCall(id: string, content: Content, wanted: string)
    ensures !HasCall(ResultMessage(id, content), wanted)
  {}

  lemma ToolNames()
    ensures "Read" in READ_TOOLS && "Edit" !in READ_TOOLS && "Edit" in MUTATING_TOOLS
  {
    assert READ_TOOLS[0] == "Read" && MUTATING_TOOLS[0] == "Edit";
    assert forall t :: t in READ_TOOLS ==> t[0] != 'E';
    assert "Edit"[0] == 'E';
  }

  lemma ReadOp(messages: seq<Message>, id: string, k: nat)
    requires k < |messages| && k == FindCall(messages, id)
    ensures OpOf(messages, CallOf(id, "Read")) == Some(FileOp(k, id, F, Read, Null, Null))
  {
    ToolNames();
  }

  lemma EditOp(messages: seq<Message>, id: string, k: nat)
    requires k < |messages| && k == FindCall(messages, id)
    ensures OpOf(messages, CallOf(id, "Edit")) == Some(FileOp(k, id, F, Edit, Null, Null))
  {
    ToolNames();
  }

  lemma FileOpsNext(messages: seq<Message>, before: seq<ToolCall>, call: ToolCall, ops: seq<FileOp>, op: FileOp)
    requires FileOps(messages, before) == ops && OpsOf(messages, call) == [op]
    ensures FileOps(messages, before + [call]) == ops + [op]
  {
    assert (before + [call])[..|before|] == before;
  }

  lemma FileOpsSkip(messages: seq<Message>, before: seq<ToolCall>, call: ToolCall, ops: seq<FileOp>)
    requires FileOps(messages, before) == ops && OpOf(messages, call) == None
    ensures FileOps(messages, before + [call]) == ops
  {
    assert (before + [call])[..|before|] == before;
    assert ops + [] == ops;
  }

  lemma FileOpsOfOne(messages: seq<Message>, a: ToolCall, o: FileOp)
    requires OpOf(messages, a) == Some(o)
    ensures FileOps(messages, [a]) == [o]
  {
    assert [a][..0] == [];
  }

  lemma FileOpsOfTwo(messages: seq<Message>, a: ToolCall, b: ToolCall, o: FileOp, p: FileOp)
    requires OpOf(messages, a) == Some(o) && OpOf(messages, b) == Some(p)
    ensures FileOps(messages, [a, b]) == [o, p]
  {
    FileOpsOfOne(messages, a, o);
    FileOpsNext(messages, [a], b, [o], p);
    assert [a] + [b] == [a, b];
  }

  lemma FileOpsOfThree(messages: seq<Message>, a: ToolCall, b: ToolCall, c: ToolCall, o: FileOp, p: FileOp, q: FileOp)
    requires OpOf(messages, a) == Some(o) && OpOf(messages, b) == Some(p) && OpOf(messages, c) == Some(q)
    ensures FileOps(messages, [a, b, c]) == [o, p, q]
  {
    FileOpsOfTwo(messages, a, b, o, p);
    FileOpsNext(messages, [a, b], c, [o, p], q);
    assert [a, b] + [c] == [a, b, c];
  }

  /* ---------- A fresh result that wraps a stale one ---------- */

  const WRAPPER: Message := ResultMessage("c", Blocks([ToolResult("a", Text("x"))]))

  /** A read, an edit, a second read, and a result of the second read that wraps the result of the first. */
  const MIXED: seq<Message> := [CallMessage("a", "Read"), CallMessage("b", "Edit"), CallMessage("c", "Read"), WRAPPER]

  const MIXED_OPS: seq<FileOp> :=
    [FileOp(0, "a", F, Read, Null, Null), FileOp(1, "b", F, Edit, Null, Null),
        FileOp(2, "c", F, Read, Null, Null)]

  lemma MixedMetadata()
    ensures ToolMetadata(MIXED) == [CallOf("a", "Read"), CallOf("b", "Edit"), CallOf("c", "Read")]
  {
    MetadataOfCall([], "a", "Read");
    MetadataOfCall([MIXED[0]], "b", "Edit");
    MetadataOfCall([MIXED[0], MIXED[1]], "c", "Read");
    MetadataOfResult([MIXED[0], MIXED[1], MIXED[2]], WRAPPER);
    assert [] + [MIXED[0]] == [MIXED[0]] && [MIXED[0]] + [MIXED[1]] == [MIXED[0], MIXED[1]];
    assert [MIXED[0], MIXED[1]] + [MIXED[2]] == [MIXED[0], MIXED[1], MIXED[2]];
    assert [MIXED[0], MIXED[1], MIXED[2]] + [WRAPPER] == MIXED;
    PutLast([CallOf("a", "Read")], CallOf("b", "Edit"));
    PutLast([CallOf("a", "Read"), CallOf("b", "Edit")], CallOf("c", "Read"));
  }

  lemma {:induction false} PutLast(metadata: seq<ToolCall>, call: ToolCall)
    requires IsUsable(call) && forall c :: c in metadata ==> c.id != call.id
    ensures Put(metadata, call) == metadata + [call]
  {
    if metadata != [] {
      PutLast(metadata[1..], call);
    }
  }

  lemma MixedCalls()
    ensures FindCall(MIXED, "a") == 0 && FindCall(MIXED, "b") == 1 && FindCall(MIXED, "c") == 2
  {
    forall id ensures HasCall(MIXED[0], id) <==> id == "a" { HasCallOf("a", "Read", id); }
    forall id ensures HasCall(MIXED[1], id) <==> id == "b" { HasCallOf("b", "Edit", id); }
    forall id ensures HasCall(MIXED[2], id) <==> id == "c" { HasCallOf("c", "Read", id); }
    assert "a"[0] != "b"[0] && "a"[0] != "c"[0] && "b"[0] != "c"[0];
    FindCallIsFirst(MIXED, "a", 0);
    FindCallIsFirst(MIXED, "b", 1);
    FindCallIsFirst(MIXED, "c", 2);
  }

  lemma MixedOps()
    ensures OpsIn(MIXED) == MIXED_OPS
  {
    MixedMetadata();
    MixedCalls();
    ReadOp(MIXED, "a", 0);
    EditOp(MIXED, "b", 1);
    ReadOp(MIXED, "c", 2);
    FileOpsOfThree(MIXED, CallOf("a", "Read"), CallOf("b", "Edit"), CallOf("c", "Read"), MIXED_OPS[0], MIXED_OPS[1],
        MIXED_OPS[2]);
  }

  lemma MixedStates(ops: seq<FileOp>)
    requires ops == MIXED_OPS
    ensures Classified(ops, BOTH, None, ops[0]) == Classification(0, "a", F, Stale)
    ensures Classified(ops, BOTH, None, ops[2]) == Classification(2, "c", F, Fresh)
  {
    assert IsLaterEdit(ops[1], ops[0]);
  }

  lemma MixedReads()
    ensures "c" in FreshReads(MIXED, BOTH)
    ensures Classification(0, "a", F, Stale) in ReadsOf(MIXED, BOTH)
  {
    MixedOps();
    var ops := OpsIn(MIXED);
    MixedStates(ops);
    ReadIsListed(ops, BOTH, None, ops[0]);
    ReadIsListed(ops, BOTH, None, ops[2]);
    FreshIsListed(ReadsOf(MIXED, BOTH), Classification(2, "c", F, Fresh));
  }

  lemma FreshIsListed(cs: seq<Classification>, c: Classification)
    requires c in cs && c.state.Fresh?
    ensures c.callId in FreshIds(cs)
  {}

  /** A result of a fresh read that wraps the result of a stale one is rewritten. */
  lemma MixedFormatsLoseFreshRead(store: Store)
    requires store.byteSize("x") >= 0 && store.persist("x", Classification(0, "a", F, Stale)).Some?
    ensures !SamePayloads(MIXED, Managed(MIXED, BOTH, store), FreshReads(MIXED, BOTH))
  {
    MixedReads();
    FreshIsNotReplaced(MIXED, BOTH);
    var r := Replacements(ReadsOf(MIXED, BOTH));
    assert BlockChanges(WRAPPER.content.blocks[0], r, BOTH, store) by {
      assert |MarkerFor("a", "x", r, BOTH, store)| > 1;
    }
    assert MIXED[3] == WRAPPER;
    assert WrapsReplaced(MIXED[3], MIXED, BOTH, store);
    FreshPayloadsKept(MIXED, BOTH, store);
  }

  /* ---------- A superseded read whose successor was never answered ---------- */

  /** A read, its result, and a second read of the file that has no result yet. */
  function Unanswered(text: string): seq<Message> {
    [CallMessage("a", "Read"), ResultMessage("a", Text(text)), CallMessage("c", "Read")]
  }

  const UNANSWERED_OPS: seq<FileOp> := [FileOp(0, "a", F, Read, Null, Null), FileOp(2, "c", F, Read, Null, Null)]

  const SUPERSEDED: Classification := Classification(0, "a", F, Superseded)

  lemma UnansweredMetadata(text: string)
    ensures ToolMetadata(Unanswered(text)) == [CallOf("a", "Read"), CallOf("c", "Read")]
  {
    var ms := Unanswered(text);
    MetadataOfCall([], "a", "Read");
    MetadataOfResult([ms[0]], ms[1]);
    MetadataOfCall([ms[0], ms[1]], "c", "Read");
    assert [] + [ms[0]] == [ms[0]] && [ms[0]] + [ms[1]] == [ms[0], ms[1]] && [ms[0], ms[1]] + [ms[2]] == ms;
    PutLast([CallOf("a", "Read")], CallOf("c", "Read"));
  }

  lemma UnansweredCalls(text: string)
    ensures FindCall(Unanswered(text), "a") == 0 && FindCall(Unanswered(text), "c") == 2
  {
    var ms := Unanswered(text);
    HasCallOf("a", "Read", "a");
    HasCallOf("a", "Read", "c");
    HasCallOf("c", "Read", "c");
    HasNoCall("a", Text(text), "c");
    FindCallIsFirst(ms, "a", 0);
    FindCallIsFirst(ms, "c", 2);
  }

  lemma UnansweredOps(text: string)
    ensures OpsIn(Unanswered(text)) == UNANSWERED_OPS
  {
    var ms := Unanswered(text);
    UnansweredMetadata(text);
    UnansweredCalls(text);
    ReadOp(ms, "a", 0);
    ReadOp(ms, "c", 2);
    FileOpsOfTwo(ms, CallOf("a", "Read"), CallOf("c", "Read"), UNANSWERED_OPS[0], UNANSWERED_OPS[1]);
  }

  lemma UnansweredStates(ops: seq<FileOp>)
    requires ops == UNANSWERED_OPS
    ensures Classified(ops, BOTH, None, ops[0]) == SUPERSEDED
    ensures Classified(ops, BOTH, None, ops[1]) == Classification(2, "c", F, Fresh)
  {
    assert Supersedes(ops[1], ops[0]);
  }

  lemma OnlyTheSecondIsFresh(ops: seq<FileOp>, c: Classification)
    requires ops == UNANSWERED_OPS && IsClassified(c, ops, BOTH, None) && c.state.Fresh?
    ensures c.callId == "c"
  {
    UnansweredStates(ops);
  }

  lemma UnansweredReads(text: string)
    ensures SUPERSEDED in ReadsOf(Unanswered(text), BOTH) && FreshReads(Unanswered(text), BOTH) == {"c"}
  {
    UnansweredOps(text);
    var ops, cs := OpsIn(Unanswered(text)), ReadsOf(Unanswered(text), BOTH);
    UnansweredStates(ops);
    ReadIsListed(ops, BOTH, None, ops[0]);
    ReadIsListed(ops, BOTH, None, ops[1]);
    FreshIsListed(cs, Classification(2, "c", F, Fresh));
    ReadsAreClassified(ops, BOTH, None);
    forall c | c in cs && c.state.Fresh? ensures c.callId == "c" {
      OnlyTheSecondIsFresh(ops, c);
    }
  }

  lemma NoResultOfSecondRead(text: string)
    ensures !HasResult(Unanswered(text), "c")
  {
    assert "a"[0] != "c"[0];
  }

  lemma UnansweredDoesNotRaise(text: string)
    ensures !Raises(Unanswered(text), BOTH)
  {
    var ms := Unanswered(text);
    forall m | m in ms ensures !RaisesAt(m) {
      assert m.toolCalls == [] || m.toolCalls == [CallOf("a", "Read")] || m.toolCalls == [CallOf("c", "Read")];
    }
    UnansweredMetadata(text);
    forall c | c in ToolMetadata(ms) ensures !RaisesOnPath(ms, c) {
      assert c == CallOf("a", "Read") || c == CallOf("c", "Read");
    }
    UnansweredOps(text);
    UnansweredRanges(OpsIn(ms));
  }

  lemma UnansweredRanges(ops: seq<FileOp>)
    requires ops == UNANSWERED_OPS
    ensures !RaisesOnRanges(ops, BOTH, None)
  {
    forall op | op in ops ensures Search(ops, op).Some? {
      assert forall later :: later in ops ==> Covers(later, op) == Some(true);
      AnyIsSome(ops, TestFor(op));
    }
  }

  lemma {:induction false} AnyIsSome(ops: seq<FileOp>, test: FileOp -> Option<bool>)
    requires forall op :: op in ops ==> test(op).Some?
    ensures Any(ops, test).Some?
  {
    if ops != [] {
      AnyIsSome(ops[..|ops| - 1], test);
    }
  }

  /** The marker takes the place of the only copy of the file: nothing that covers the read was ever answered. */
  lemma MarkerStandsAlone(text: string, store: Store)
    requires store.byteSize(text) >= 0 && store.persist(text, SUPERSEDED).Some?
    ensures MarkerAt(Managed(Unanswered(text), BOTH, store)[1], 0, SUPERSEDED, store.persist(text, SUPERSEDED).value)
    ensures !HasAnsweredCover(Unanswered(text), BOTH, SUPERSEDED)
  {
    var ms := Unanswered(text);
    UnansweredReads(text);
    MarkerIsPlaced(ms, BOTH, store, 1, SUPERSEDED);
    NoResultOfSecondRead(text);
  }

  /* ---------- Calls that make the whole pass raise ---------- */

  /** The read `a`, its result, and a last message, which may use either wire format. */
  function Ending(text: string, a: ToolCall, m: Message): seq<Message> {
    [Message("assistant", None, [a], Absent), ResultMessage("a", Text(text)), m]
  }

  predicate IsEnding(a: ToolCall, m: Message, b: ToolCall) {
    a.id == "a" && a.name == "Read" && m.role == "assistant" && CallsOf(m) == [b] && b.id == "b" && b.name != ""
  }

  lemma EndingMetadata(text: string, a: ToolCall, m: Message, b: ToolCall)
    requires IsEnding(a, m, b)
    ensures ToolMetadata(Ending(text, a, m)) == [a, b]
  {
    var ms := Ending(text, a, m);
    assert CallsOf(ms[0]) == [a];
    MetadataOfLast([], ms[0], a);
    MetadataOfResult([ms[0]], ms[1]);
    MetadataOfLast([ms[0], ms[1]], m, b);
    assert [] + [ms[0]] == [ms[0]] && [ms[0]] + [ms[1]] == [ms[0], ms[1]] && [ms[0], ms[1]] + [ms[2]] == ms;
    PutLast([a], b);
  }

  lemma EndingCalls(text: string, a: ToolCall, m: Message, b: ToolCall)
    requires IsEnding(a, m, b)
    ensures FindCall(Ending(text, a, m), "a") == 0 && FindCall(Ending(text, a, m), "b") == 2
  {
    var ms := Ending(text, a, m);
    assert CallsOf(ms[0]) == [a] && CallsOf(ms[1]) == [] && a in [a] && b in [b];
    FindCallIsFirst(ms, "a", 0);
    FindCallIsFirst(ms, "b", 2);
  }

  lemma FirstOp(text: string, a: ToolCall, m: Message, b: ToolCall)
    requires IsEnding(a, m, b) && a.arguments.Path() == F
    ensures OpOf(Ending(text, a, m), a) == Some(FileOp(0, "a", F, Read, a.arguments.Offset(), a.arguments.Limit()))
  {
    EndingCalls(text, a, m, b);
    ToolNames();
  }

  /** A last call that is no operation of its own leaves the read fresh. */
  lemma LoneReadIsFresh(text: string, m: Message, b: ToolCall)
    requires IsEnding(CallOf("a", "Read"), m, b) && OpOf(Ending(text, CallOf("a", "Read"), m), b) == None
    ensures "a" in FreshReads(Ending(text, CallOf("a", "Read"), m), BOTH)
  {
    var a := CallOf("a", "Read");
    var ms, op := Ending(text, a, m), FileOp(0, "a", F, Read, Null, Null);
    EndingMetadata(text, a, m, b);
    FirstOp(text, a, m, b);
    FileOpsOfOne(ms, a, op);
    FileOpsSkip(ms, [a], b, [op]);
    assert [a] + [b] == [a, b];
    LoneFresh(OpsIn(ms), op);
    ReadIsListed(OpsIn(ms), BOTH, None, op);
    FreshIsListed(ReadsOf(ms, BOTH), Classification(0, "a", F, Fresh));
  }

  lemma LoneFresh(ops: seq<FileOp>, op: FileOp)
    requires ops == [op] && op == FileOp(0, "a", F, Read, Null, Null)
    ensures Classified(ops, BOTH, None, op) == Classification(0, "a", F, Fresh)
  {}

  /** Arguments that parse to something that is not an object. */
  const NOT_AN_OBJECT: Message := Message("assistant", None, [ToolCall("b", "Bash", NotAnObject)], Absent)

  lemma NotAnObjectRaises(text: string)
    ensures Raises(Ending(text, CallOf("a", "Read"), NOT_AN_OBJECT), BOTH)
    ensures "a" in FreshReads(Ending(text, CallOf("a", "Read"), NOT_AN_OBJECT), BOTH)
  {
    var m := NOT_AN_OBJECT;
    assert m in Ending(text, CallOf("a", "Read"), m) && m.toolCalls[0] in m.toolCalls && RaisesOn(m.toolCalls[0]);
    LoneReadIsFresh(text, m, m.toolCalls[0]);
  }

  /** A read whose path is a list or a dictionary, in either wire format: it cannot be a key of the index. */
  lemma ListPathRaises(text: string, m: Message, path: Field)
    requires m.role == "assistant" && CallsOf(m) == [NestedPath(path)] && IsNested(path)
    ensures Raises(Ending(text, CallOf("a", "Read"), m), BOTH)
    ensures "a" in FreshReads(Ending(text, CallOf("a", "Read"), m), BOTH)
  {
    var a, b := CallOf("a", "Read"), NestedPath(path);
    EndingMetadata(text, a, m, b);
    EndingCalls(text, a, m, b);
    ToolNames();
    assert b in [a, b] && RaisesOnPath(Ending(text, a, m), b);
    LoneReadIsFresh(text, m, b);
  }

  function NestedPath(path: Field): ToolCall { ToolCall("b", "Read", Object(path, Null, Null, Null)) }

  predicate IsNested(path: Field) {
    (path.List? && path.elements != []) || (path.Dict? && path.entries != map[])
  }

  /** A read of ten lines, and a later one whose offset is a string: its end cannot be computed. */
  const LIMITED: ToolCall := ToolCall("a", "Read", Object(F, Null, Null, Number(10.0)))

  const STRING_OFFSET: ToolCall := ToolCall("b", "Read", Object(F, Null, Str("10"), Null))

  const STRING_OFFSET_OPS: seq<FileOp> :=
    [FileOp(0, "a", F, Read, Null, Number(10.0)), FileOp(2, "b", F, Read, Str("10"), Null)]

  lemma StringOffsetOps(text: string, m: Message)
    requires m.role == "assistant" && CallsOf(m) == [STRING_OFFSET]
    ensures OpsIn(Ending(text, LIMITED, m)) == STRING_OFFSET_OPS
  {
    var a, b := LIMITED, STRING_OFFSET;
    EndingMetadata(text, a, m, b);
    EndingCalls(text, a, m, b);
    FirstOp(text, a, m, b);
    ToolNames();
    FileOpsOfTwo(Ending(text, a, m), a, b, STRING_OFFSET_OPS[0], STRING_OFFSET_OPS[1]);
  }

  lemma StringOffsetStates(ops: seq<FileOp>)
    requires ops == STRING_OFFSET_OPS
    ensures RaisesOnRanges(ops, BOTH, None)
    ensures Classified(ops, BOTH, None, ops[0]) == Classification(0, "a", F, Fresh)
  {
    assert EndOf(ops[1]) == None && Covers(ops[1], ops[0]) == None;
    var test := TestFor(ops[0]);
    assert ops == [] + [ops[0]] + [ops[1]];
    AnyNext([], ops[0], test);
    AnyNext([] + [ops[0]], ops[1], test);
    assert RaisesOnRange(ops, BOTH, None, ops[0]);
  }

  lemma StringOffsetRaises(text: string, m: Message)
    requires m.role == "assistant" && CallsOf(m) == [STRING_OFFSET]
    ensures Raises(Ending(text, LIMITED, m), BOTH) && "a" in FreshReads(Ending(text, LIMITED, m), BOTH)
  {
    var ms := Ending(text, LIMITED, m);
    StringOffsetOps(text, m);
    StringOffsetStates(OpsIn(ms));
    ReadIsListed(OpsIn(ms), BOTH, None, OpsIn(ms)[0]);
    FreshIsListed(ReadsOf(ms, BOTH), Classification(0, "a", F, Fresh));
  }
}

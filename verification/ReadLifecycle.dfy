/**
 * Read lifecycle (`read_lifecycle.py`): every file read in a conversation is fresh, stale (the file was
 * edited later) or superseded (a later read covers it); the results of the last two become markers.
 */
module ReadLifecycle {
  import opened Prelude
  import opened Fields
  import opened Messages
  import opened OrderedDict

  /* ---------- File operations ---------- */

  datatype Operation = Read | Edit

  datatype FileOp = FileOp(
    msgIndex: nat, callId: string, path: Field, operation: Operation, offset: Field, limit: Field)

  const READ_TOOLS: seq<string> := ["Read", "read", "read_file"]

  const MUTATING_TOOLS: seq<string> :=
    ["Edit", "edit", "edit_file", "Write", "write", "write_file", "MultiEdit", "NotebookEdit", "apply_patch"]

  /** The `tool_use` blocks of a content list. */
  function BlockCalls(blocks: seq<Block>): seq<ToolCall> {
    if blocks == [] then []
    else if blocks[0].ToolUse? then [blocks[0].call] + BlockCalls(blocks[1..])
    else BlockCalls(blocks[1..])
  }

  /** The tool calls of an assistant message, in the order they are read. */
  function CallsOf(m: Message): seq<ToolCall> {
    if m.role != "assistant" then []
    else m.toolCalls + if m.content.Blocks? then BlockCalls(m.content.blocks) else []
  }

  /** Calls of both wire formats, and only those of assistant messages. */
  lemma CallsAreOfBothKinds(m: Message, call: ToolCall)
    ensures call in CallsOf(m) <==>
        m.role == "assistant" && (call in m.toolCalls || (m.content.Blocks? && ToolUse(call) in m.content.blocks))
  {
    if m.content.Blocks? {
      BlockCallsAre(m.content.blocks, call);
    }
  }

  lemma {:induction false} BlockCallsAre(blocks: seq<Block>, call: ToolCall)
    ensures call in BlockCalls(blocks) <==> ToolUse(call) in blocks
  {
    if blocks != [] {
      BlockCallsAre(blocks[1..], call);
      assert ToolUse(call) in blocks <==> blocks[0] == ToolUse(call) || ToolUse(call) in blocks[1..];
    }
  }

  /** A call without an id or a name is ignored. */
  predicate IsUsable(call: ToolCall) { call.id != "" && call.name != "" }

  /** Reading this entry of `tool_calls` raises: `get` is called on something that is not a dictionary. */
  predicate RaisesOn(call: ToolCall) {
    call.arguments.NoFunction? || (IsUsable(call) && call.arguments.NotAnObject?)
  }

  predicate RaisesAt(m: Message) { m.role == "assistant" && exists c :: c in m.toolCalls && RaisesOn(c) }

  predicate RaisesOnCalls(messages: seq<Message>) { exists m :: m in messages && RaisesAt(m) }

  lemma MalformedCallRaises(messages: seq<Message>, m: Message, call: ToolCall)
    requires m in messages && m.role == "assistant" && call in m.toolCalls
    requires call.arguments.NoFunction? || (call.id != "" && call.name != "" && call.arguments.NotAnObject?)
    ensures RaisesOnCalls(messages)
  {
    assert RaisesOn(call) && RaisesAt(m);
  }

  /** Assignment to a dictionary slot: a known id keeps its position, and the new value wins. */
  function Put(metadata: seq<ToolCall>, call: ToolCall): seq<ToolCall> {
    if !IsUsable(call) then metadata
    else if metadata == [] then [call]
    else if metadata[0].id == call.id then [call] + metadata[1..]
    else [metadata[0]] + Put(metadata[1..], call)
  }

  function PutAll(metadata: seq<ToolCall>, calls: seq<ToolCall>): seq<ToolCall>
    decreases |calls|
  {
    if calls == [] then metadata else PutAll(Put(metadata, calls[0]), calls[1..])
  }

  function ToolMetadata(messages: seq<Message>): seq<ToolCall> {
    if messages == [] then []
    else PutAll(ToolMetadata(messages[..|messages| - 1]), CallsOf(messages[|messages| - 1]))
  }

  /** A known id keeps its place, a new one goes to the end, and the others stay. */
  lemma {:induction false} PutKeepsPlaces(metadata: seq<ToolCall>, call: ToolCall)
    requires IsUsable(call)
    ensures var next := Put(metadata, call);
      && (forall i :: 0 <= i < |metadata| ==>
            i < |next| && next[i].id == metadata[i].id && (metadata[i].id != call.id ==> next[i] == metadata[i]))
      && |next| == |metadata| + (if exists i :: 0 <= i < |metadata| && metadata[i].id == call.id then 0 else 1)
      && (|next| > |metadata| ==> next[|metadata|] == call)
  {
    if metadata != [] && metadata[0].id != call.id {
      PutKeepsPlaces(metadata[1..], call);
      assert forall i :: 1 <= i < |metadata| ==> metadata[i] == metadata[1..][i - 1];
    }
  }

  lemma {:induction false} PutAllAppend(metadata: seq<ToolCall>, a: seq<ToolCall>, b: seq<ToolCall>)
    ensures PutAll(metadata, a + b) == PutAll(PutAll(metadata, a), b)
    decreases |a|
  {
    if a == [] {
      assert a + b == b;
    } else {
      PutAllAppend(Put(metadata, a[0]), a[1..], b);
      assert (a + b)[0] == a[0] && (a + b)[1..] == a[1..] + b;
    }
  }

  /** The loop over `tool_calls`; `None` where the source raises. */
  method ReadToolCalls(given: seq<ToolCall>, calls: seq<ToolCall>) returns (metadata: Option<seq<ToolCall>>)
    ensures metadata == if exists c :: c in calls && RaisesOn(c) then None else Some(PutAll(given, calls))
  {
    var known := given;
    for k := 0 to |calls|
      invariant PutAll(known, calls[k..]) == PutAll(given, calls)
      invariant forall j :: 0 <= j < k ==> !RaisesOn(calls[j])
    {
      assert calls[k..][1..] == calls[k + 1..];
      if calls[k].arguments.NoFunction? || (IsUsable(calls[k]) && calls[k].arguments.NotAnObject?) {
        assert calls[k] in calls;
        return None;
      }
      known := Put(known, calls[k]);
    }
    return Some(known);
  }

  /** The loop over the content blocks. */
  method ReadBlockCalls(given: seq<ToolCall>, blocks: seq<Block>) returns (metadata: seq<ToolCall>)
    ensures metadata == PutAll(given, BlockCalls(blocks))
  {
    metadata := given;
    for k := 0 to |blocks|
      invariant PutAll(metadata, BlockCalls(blocks[k..])) == PutAll(given, BlockCalls(blocks))
    {
      assert blocks[k..][1..] == blocks[k + 1..];
      if blocks[k].ToolUse? {
        assert ([blocks[k].call] + BlockCalls(blocks[k + 1..]))[1..] == BlockCalls(blocks[k + 1..]);
        metadata := Put(metadata, blocks[k].call);
      }
    }
  }

  method ReadCalls(given: seq<ToolCall>, m: Message) returns (metadata: Option<seq<ToolCall>>)
    ensures metadata == if RaisesAt(m) then None else Some(PutAll(given, CallsOf(m)))
  {
    if m.role != "assistant" {
      return Some(given);
    }
    metadata := ReadToolCalls(given, m.toolCalls);
    if metadata.Some? && m.content.Blocks? {
      PutAllAppend(given, m.toolCalls, BlockCalls(m.content.blocks));
      var more := ReadBlockCalls(metadata.value, m.content.blocks);
      metadata := Some(more);
    }
    assert m.toolCalls + [] == m.toolCalls;
  }

  lemma MetadataNext(messages: seq<Message>, i: nat)
    requires i < |messages|
    ensures ToolMetadata(messages[..i + 1]) == PutAll(ToolMetadata(messages[..i]), CallsOf(messages[i]))
  {
    assert messages[..i + 1][..i] == messages[..i];
  }

  /** `_build_tool_metadata`; `None` where it raises. */
  method BuildToolMetadata(messages: seq<Message>) returns (metadata: Option<seq<ToolCall>>)
    ensures metadata == if RaisesOnCalls(messages) then None else Some(ToolMetadata(messages))
  {
    var known := [];
    for i := 0 to |messages|
      invariant known == ToolMetadata(messages[..i])
      invariant forall j :: 0 <= j < i ==> !RaisesAt(messages[j])
    {
      MetadataNext(messages, i);
      var next := ReadCalls(known, messages[i]);
      if next.None? {
        assert messages[i] in messages;
        return None;
      }
      known := next.value;
    }
    assert messages[..|messages|] == messages;
    return Some(known);
  }

  /** All calls of a conversation, in order. */
  function AllCalls(messages: seq<Message>): seq<ToolCall> {
    if messages == [] then [] else AllCalls(messages[..|messages| - 1]) + CallsOf(messages[|messages| - 1])
  }

  /** `c` is a usable call, and no later usable one has its id. */
  ghost predicate IsLastWithId(calls: seq<ToolCall>, c: ToolCall) {
    exists i :: 0 <= i < |calls| && calls[i] == c && IsUsable(c)
             && forall j :: i < j < |calls| && IsUsable(calls[j]) ==> calls[j].id != c.id
  }

  lemma {:induction false} PutReplaces(metadata: seq<ToolCall>, call: ToolCall, c: ToolCall)
    requires DistinctIds(metadata)
    ensures c in Put(metadata, call) <==> if IsUsable(call) && c.id == call.id then c == call else c in metadata
  {
    if IsUsable(call) && metadata != [] {
      if metadata[0].id == call.id {
        assert c in metadata <==> c == metadata[0] || c in metadata[1..];
      } else {
        PutReplaces(metadata[1..], call, c);
        assert c in metadata <==> c == metadata[0] || c in metadata[1..];
      }
    }
  }

  lemma LastWithIdNext(calls: seq<ToolCall>, call: ToolCall, c: ToolCall)
    ensures IsLastWithId(calls + [call], c) <==>
        if IsUsable(call) && c.id == call.id then c == call else IsLastWithId(calls, c)
  {
    var more := calls + [call];
    assert more[|calls|] == call;
    if IsLastWithId(calls, c) && !(IsUsable(call) && c.id == call.id) {
      var i :| 0 <= i < |calls| && calls[i] == c && IsUsable(c)
            && forall j :: i < j < |calls| && IsUsable(calls[j]) ==> calls[j].id != c.id;
      assert more[i] == c && forall j :: i < j < |more| && IsUsable(more[j]) ==> more[j].id != c.id;
    }
    if IsLastWithId(more, c) && !(IsUsable(call) && c.id == call.id) {
      var i :| 0 <= i < |more| && more[i] == c && IsUsable(c)
            && forall j :: i < j < |more| && IsUsable(more[j]) ==> more[j].id != c.id;
      assert calls[i] == c && forall j :: i < j < |calls| ==> calls[j] == more[j];
    }
  }

  lemma {:induction false} PutAllIsLast(metadata: seq<ToolCall>, before: seq<ToolCall>, calls: seq<ToolCall>,
      c: ToolCall)
    requires DistinctIds(metadata) && forall d :: d in metadata <==> IsLastWithId(before, d)
    ensures DistinctIds(PutAll(metadata, calls))
    ensures c in PutAll(metadata, calls) <==> IsLastWithId(before + calls, c)
    decreases |calls|
  {
    if calls == [] {
      assert before + calls == before;
    } else {
      PutKeepsDistinct(metadata, calls[0]);
      forall d ensures d in Put(metadata, calls[0]) <==> IsLastWithId(before + [calls[0]], d) {
        PutReplaces(metadata, calls[0], d);
        LastWithIdNext(before, calls[0], d);
      }
      PutAllIsLast(Put(metadata, calls[0]), before + [calls[0]], calls[1..], c);
      assert before + [calls[0]] + calls[1..] == before + calls;
    }
  }

  /** The metadata hold, for each id, the last usable call with that id, and nothing else. */
  lemma {:induction false} MetadataIsLastCalls(messages: seq<Message>, c: ToolCall)
    ensures c in ToolMetadata(messages) <==> IsLastWithId(AllCalls(messages), c)
  {
    if messages != [] {
      var n := |messages| - 1;
      MetadataDistinct(messages[..n]);
      forall d ensures d in ToolMetadata(messages[..n]) <==> IsLastWithId(AllCalls(messages[..n]), d) {
        MetadataIsLastCalls(messages[..n], d);
      }
      PutAllIsLast(ToolMetadata(messages[..n]), AllCalls(messages[..n]), CallsOf(messages[n]), c);
    }
  }

  predicate DistinctIds(calls: seq<ToolCall>) {
    forall i, j :: 0 <= i < j < |calls| ==> calls[i].id != calls[j].id
  }

  lemma {:induction false} PutKeepsDistinct(metadata: seq<ToolCall>, call: ToolCall)
    requires DistinctIds(metadata)
    ensures DistinctIds(Put(metadata, call))
    ensures forall c :: c in Put(metadata, call) ==> c.id == call.id || c in metadata
  {
    if IsUsable(call) && metadata != [] && metadata[0].id != call.id {
      PutKeepsDistinct(metadata[1..], call);
      var rest := Put(metadata[1..], call);
      forall j | 0 <= j < |rest| ensures rest[j].id != metadata[0].id {
        assert rest[j] in rest;
      }
    }
  }

  lemma {:induction false} PutAllKeepsDistinct(metadata: seq<ToolCall>, calls: seq<ToolCall>)
    requires DistinctIds(metadata)
    ensures DistinctIds(PutAll(metadata, calls))
    decreases |calls|
  {
    if calls != [] {
      PutKeepsDistinct(metadata, calls[0]);
      PutAllKeepsDistinct(Put(metadata, calls[0]), calls[1..]);
    }
  }

  lemma {:induction false} MetadataDistinct(messages: seq<Message>)
    ensures DistinctIds(ToolMetadata(messages))
  {
    if messages != [] {
      MetadataDistinct(messages[..|messages| - 1]);
      PutAllKeepsDistinct(ToolMetadata(messages[..|messages| - 1]), CallsOf(messages[|messages| - 1]));
    }
  }

  /** The first assistant message that holds a call with this id, or `|messages|`. */
  function FindCall(messages: seq<Message>, id: string): (i: nat)
    ensures i <= |messages|
  {
    if messages == [] || exists c :: c in CallsOf(messages[0]) && c.id == id then 0
    else 1 + FindCall(messages[1..], id)
  }

  /** The call of a file tool with a path, in some message. */
  predicate IsFileCall(messages: seq<Message>, call: ToolCall) {
    && (call.name in READ_TOOLS || call.name in MUTATING_TOOLS)
    && Truthy(call.arguments.Path()) && FindCall(messages, call.id) < |messages|
  }

  /** A path that is a list or a dictionary cannot be a key of the index. */
  predicate RaisesOnPath(messages: seq<Message>, call: ToolCall) {
    IsFileCall(messages, call) && !IsHashable(call.arguments.Path())
  }

  predicate RaisesOnPaths(messages: seq<Message>, metadata: seq<ToolCall>) {
    exists c :: c in metadata && RaisesOnPath(messages, c)
  }

  function OpOf(messages: seq<Message>, call: ToolCall): Option<FileOp> {
    var i, path := FindCall(messages, call.id), call.arguments.Path();
    if !IsFileCall(messages, call) || !IsHashable(path) then None
    else if call.name in READ_TOOLS then
      Some(FileOp(i, call.id, path, Read, call.arguments.Offset(), call.arguments.Limit()))
    else Some(FileOp(i, call.id, path, Edit, Null, Null))
  }

  function OpsOf(messages: seq<Message>, call: ToolCall): seq<FileOp> {
    match OpOf(messages, call)
    case Some(op) => [op]
    case None => []
  }

  /** All file operations, in dictionary order. */
  function FileOps(messages: seq<Message>, metadata: seq<ToolCall>): seq<FileOp> {
    if metadata == [] then []
    else
      var n := |metadata| - 1;
      FileOps(messages, metadata[..n]) + OpsOf(messages, metadata[n])
  }

  /** The file operations of a conversation. */
  function OpsIn(messages: seq<Message>): seq<FileOp> { FileOps(messages, ToolMetadata(messages)) }

  predicate HasCall(m: Message, id: string) { exists c :: c in CallsOf(m) && c.id == id }

  /** An operation belongs to the first message that holds its call. */
  lemma {:induction false} FindCallIsFirst(messages: seq<Message>, id: string, k: nat)
    ensures k == FindCall(messages, id) <==>
            k <= |messages| && (forall i :: 0 <= i < k ==> !HasCall(messages[i], id))
                && (k < |messages| ==> HasCall(messages[k], id))
  {
    if messages != [] && !HasCall(messages[0], id) && k > 0 {
      FindCallIsFirst(messages[1..], id, k - 1);
    }
  }

  /** `op` is the operation of one of the recorded calls. */
  ghost predicate HasOp(messages: seq<Message>, metadata: seq<ToolCall>, op: FileOp) {
    exists c :: c in metadata && OpOf(messages, c) == Some(op)
  }

  lemma HasOpNext(messages: seq<Message>, before: seq<ToolCall>, call: ToolCall, op: FileOp)
    ensures HasOp(messages, before + [call], op) <==> HasOp(messages, before, op) || OpOf(messages, call) == Some(op)
  {
    var more := before + [call];
    assert more[|before|] == call;
    if HasOp(messages, before, op) {
      var c :| c in before && OpOf(messages, c) == Some(op);
      assert c in more;
    }
  }

  /** Every recorded call of a file tool is an operation, and nothing else is. */
  lemma {:induction false} FileOpsAreCalls(messages: seq<Message>, metadata: seq<ToolCall>, op: FileOp)
    ensures op in FileOps(messages, metadata) <==> HasOp(messages, metadata, op)
  {
    if metadata != [] {
      var n := |metadata| - 1;
      FileOpsAreCalls(messages, metadata[..n], op);
      HasOpNext(messages, metadata[..n], metadata[n], op);
      assert metadata == metadata[..n] + [metadata[n]];
    }
  }

  lemma {:induction false} FileOpsDistinct(messages: seq<Message>, metadata: seq<ToolCall>)
    requires DistinctIds(metadata)
    ensures DistinctOps(FileOps(messages, metadata))
  {
    if metadata != [] {
      var front, call := metadata[..|metadata| - 1], metadata[|metadata| - 1];
      FileOpsDistinct(messages, front);
      forall op | op in FileOps(messages, front) ensures op.callId != call.id {
        FileOpsAreCalls(messages, front, op);
      }
    }
  }

  predicate DistinctOps(ops: seq<FileOp>) {
    forall i, j :: 0 <= i < j < |ops| ==> ops[i].callId != ops[j].callId
  }

  /* ---------- The index by file ---------- */

  type FileIndex = seq<Entry<Field, seq<FileOp>>>

  function Index(ops: seq<FileOp>): FileIndex {
    if ops == [] then []
    else
      var n := |ops| - 1;
      Appended(Index(ops[..n]), ops[n].path, [ops[n]])
  }

  /** The operations on one file, in order. */
  function OnFile(ops: seq<FileOp>, path: Field): (own: seq<FileOp>)
    ensures forall op :: op in own <==> op in ops && op.path == path
  {
    if ops == [] then []
    else
      var n := |ops| - 1;
      assert forall op :: op in ops <==> op == ops[n] || op in ops[..n];
      OnFile(ops[..n], path) + if ops[n].path == path then [ops[n]] else []
  }

  /** Each file once, with its operations in order. */
  ghost predicate IsIndex(d: FileIndex, ops: seq<FileOp>) {
    && Distinct(d)
    && (forall k :: 0 <= k < |d| ==> d[k].value == OnFile(ops, d[k].key))
    && (forall path :: Has(d, path) <==> OnFile(ops, path) != [])
  }

  lemma {:induction false} IndexIsByFile(ops: seq<FileOp>)
    ensures IsIndex(Index(ops), ops)
  {
    if ops != [] {
      var n := |ops| - 1;
      IndexIsByFile(ops[..n]);
      IndexStep(Index(ops[..n]), ops[..n], ops[n]);
      assert ops == ops[..n] + [ops[n]];
    }
  }

  /** Files stand in the order of their first operations. */
  function FirstOn(ops: seq<FileOp>, path: Field): (i: nat)
    ensures i <= |ops| && (i < |ops| ==> ops[i].path == path) && forall j :: 0 <= j < i ==> ops[j].path != path
  {
    if ops == [] || ops[0].path == path then 0 else 1 + FirstOn(ops[1..], path)
  }

  ghost predicate InOrder(d: FileIndex, ops: seq<FileOp>) {
    && (forall i :: 0 <= i < |d| ==> FirstOn(ops, d[i].key) < |ops|)
    && (forall i, j :: 0 <= i < j < |d| ==> FirstOn(ops, d[i].key) < FirstOn(ops, d[j].key))
  }

  lemma FirstOnGrows(ops: seq<FileOp>, op: FileOp, path: Field)
    ensures FirstOn(ops, path) < |ops| ==> FirstOn(ops + [op], path) == FirstOn(ops, path)
    ensures FirstOn(ops, path) == |ops| && op.path == path ==> FirstOn(ops + [op], path) == |ops|
  {
    assert (ops + [op])[|ops|] == op && forall j :: 0 <= j < |ops| ==> (ops + [op])[j] == ops[j];
  }

  lemma {:induction false} IndexIsInOrder(ops: seq<FileOp>)
    ensures InOrder(Index(ops), ops)
  {
    if ops != [] {
      var front, op := ops[..|ops| - 1], ops[|ops| - 1];
      IndexIsInOrder(front);
      IndexIsByFile(front);
      OrderNext(Index(front), front, op);
      assert ops == front + [op];
    }
  }

  lemma OrderNext(d: FileIndex, ops: seq<FileOp>, op: FileOp)
    requires InOrder(d, ops) && IsIndex(d, ops)
    ensures InOrder(Appended(d, op.path, [op]), ops + [op])
  {
    var r, more := Appended(d, op.path, [op]), ops + [op];
    AppendedFacts(d, op.path, [op]);
    forall i | 0 <= i < |r|
      ensures FirstOn(more, r[i].key) == if i < |d| then FirstOn(ops, d[i].key) else |ops|
    {
      AppendedAt(d, op.path, [op], i);
      FirstOnGrows(ops, op, r[i].key);
      if i == |d| {
        NotOnFile(d, ops, op.path);
      }
    }
  }

  lemma FirstIsOnFile(ops: seq<FileOp>, path: Field)
    ensures FirstOn(ops, path) < |ops| ==> OnFile(ops, path) != []
  {
    if FirstOn(ops, path) < |ops| {
      assert ops[FirstOn(ops, path)] in OnFile(ops, path);
    }
  }

  lemma NotOnFile(d: FileIndex, ops: seq<FileOp>, path: Field)
    requires IsIndex(d, ops) && !Has(d, path)
    ensures FirstOn(ops, path) == |ops|
  {
    FirstIsOnFile(ops, path);
  }

  lemma OnFileNext(ops: seq<FileOp>, op: FileOp, path: Field)
    ensures OnFile(ops + [op], path) == OnFile(ops, path) + if op.path == path then [op] else []
  {
    assert (ops + [op])[..|ops|] == ops;
  }

  lemma IndexStep(d: FileIndex, ops: seq<FileOp>, op: FileOp)
    requires IsIndex(d, ops)
    ensures IsIndex(Appended(d, op.path, [op]), ops + [op])
  {
    var more, r := ops + [op], Appended(d, op.path, [op]);
    AppendedFacts(d, op.path, [op]);
    forall k | 0 <= k < |r| ensures r[k].value == OnFile(more, r[k].key) {
      IndexedValue(d, ops, op, k);
    }
    forall path ensures Has(r, path) <==> OnFile(more, path) != [] {
      HasAppended(d, op.path, [op], path);
      OnFileNext(ops, op, path);
    }
  }

  lemma IndexedValue(d: FileIndex, ops: seq<FileOp>, op: FileOp, k: nat)
    requires IsIndex(d, ops) && k < |Appended(d, op.path, [op])|
    ensures var e := Appended(d, op.path, [op])[k]; e.value == OnFile(ops + [op], e.key)
  {
    AppendedAt(d, op.path, [op], k);
    OnFileNext(ops, op, Appended(d, op.path, [op])[k].key);
  }

  lemma IndexNext(ops: seq<FileOp>, op: Option<FileOp>)
    ensures Index(ops + match op case Some(o) => [o] case None => [])
         == match op case Some(o) => Appended(Index(ops), o.path, [o]) case None => Index(ops)
  {
    if op.Some? {
      assert (ops + [op.value])[..|ops|] == ops;
    } else {
      assert ops + [] == ops;
    }
  }

  /** `_build_file_operation_index`; `None` where it raises. */
  method BuildFileOperationIndex(messages: seq<Message>, metadata: seq<ToolCall>) returns (index: Option<FileIndex>)
    ensures index == if RaisesOnPaths(messages, metadata) then None else Some(Index(FileOps(messages, metadata)))
  {
    var known := [];
    for k := 0 to |metadata|
      invariant known == Index(FileOps(messages, metadata[..k])) && !RaisesOnPaths(messages, metadata[..k])
    {
      PathsNext(messages, metadata, k);
      var raises, op := RaisesOnPath(messages, metadata[k]), OpOf(messages, metadata[k]);
      if raises {
        return None;
      }
      IndexNext(FileOps(messages, metadata[..k]), op);
      if op.Some? {
        known := Appended(known, op.value.path, [op.value]);
      }
    }
    assert metadata[..|metadata|] == metadata;
    return Some(known);
  }

  lemma PathsNext(messages: seq<Message>, metadata: seq<ToolCall>, k: nat)
    requires k < |metadata|
    ensures RaisesOnPaths(messages, metadata[..k + 1]) <==>
      RaisesOnPaths(messages, metadata[..k]) || RaisesOnPath(messages, metadata[k])
    ensures RaisesOnPath(messages, metadata[k]) ==> RaisesOnPaths(messages, metadata)
    ensures FileOps(messages, metadata[..k + 1])
         == FileOps(messages, metadata[..k]) + match OpOf(messages, metadata[k]) case Some(o) => [o] case None => []
  {
    assert metadata[..k + 1] == metadata[..k] + [metadata[k]];
    assert metadata[k] in metadata;
  }

  /* ---------- Classification ---------- */

  datatype State = Fresh | Stale | Superseded

  datatype Classification = Classification(msgIndex: nat, callId: string, path: Field, state: State)

  datatype Config = Config(compressStale: bool, compressSuperseded: bool, minSizeBytes: int, protectRecent: int)

  predicate IsFullRead(op: FileOp) { op.offset.Null? && op.limit.Null? }

  function StartOf(op: FileOp): Field { Or(op.offset, Number(0.0)) }

  /** The end of the range; `None` where the addition raises. */
  function EndOf(op: FileOp): Option<Field> { Plus(StartOf(op), Or(op.limit, Number(2000.0))) }

  /** `_read_covers`; `None` where it raises. */
  function Covers(later: FileOp, earlier: FileOp): Option<bool> {
    if IsFullRead(later) then Some(true)
    else if IsFullRead(earlier) then Some(false)
    else if EndOf(later).None? || EndOf(earlier).None? then None
    else
      var starts := AtMost(StartOf(later), StartOf(earlier));
      if starts != Some(true) then starts else AtMost(EndOf(earlier).value, EndOf(later).value)
  }

  predicate ReadCovers(later: FileOp, earlier: FileOp) { Covers(later, earlier) == Some(true) }

  predicate IsLaterEdit(op: FileOp, read: FileOp) {
    op.operation.Edit? && op.path == read.path && op.msgIndex > read.msgIndex
  }

  predicate EditedAfter(ops: seq<FileOp>, read: FileOp) {
    exists j :: 0 <= j < |ops| && IsLaterEdit(ops[j], read)
  }

  predicate IsLaterRead(op: FileOp, read: FileOp) {
    op.operation.Read? && op.path == read.path && op.msgIndex > read.msgIndex
  }

  /** `later` is a read of the same file, in a later message, that covers `read`. */
  predicate Supersedes(later: FileOp, read: FileOp) { IsLaterRead(later, read) && ReadCovers(later, read) }

  predicate SupersededBySome(ops: seq<FileOp>, read: FileOp) {
    exists j :: 0 <= j < |ops| && Supersedes(ops[j], read)
  }

  function StateOf(ops: seq<FileOp>, config: Config, protectedFrom: Option<int>, read: FileOp): State {
    if IsProtected(protectedFrom, read) then Fresh
    else if config.compressStale && EditedAfter(ops, read) then Stale
    else if config.compressSuperseded && SupersededBySome(ops, read) then Superseded
    else Fresh
  }

  /** Python's `any`: the first operation that passes the test ends the search, and so does one that raises. */
  function Any(ops: seq<FileOp>, test: FileOp -> Option<bool>): Option<bool> {
    if ops == [] then Some(false)
    else
      var n := |ops| - 1;
      var found := Any(ops[..n], test);
      if found != Some(false) then found else test(ops[n])
  }

  function TestFor(read: FileOp): FileOp -> Option<bool> {
    op => if IsLaterRead(op, read) then Covers(op, read) else Some(false)
  }

  /** The search for a later read that covers this one; `None` where it raises. */
  function Search(ops: seq<FileOp>, read: FileOp): Option<bool> { Any(ops, TestFor(read)) }

  predicate IsProtected(protectedFrom: Option<int>, op: FileOp) {
    protectedFrom.Some? && op.msgIndex >= protectedFrom.value
  }

  /** The range of a read cannot be compared with that of a later one. */
  predicate RaisesOnRange(ops: seq<FileOp>, config: Config, protectedFrom: Option<int>, op: FileOp) {
    config.compressSuperseded && op.operation.Read? && !IsProtected(protectedFrom, op) && Search(ops, op).None?
  }

  predicate RaisesOnRanges(ops: seq<FileOp>, config: Config, protectedFrom: Option<int>) {
    exists op :: op in ops && RaisesOnRange(ops, config, protectedFrom, op)
  }

  function ProtectedFrom(messages: seq<Message>, config: Config): Option<int> {
    if config.protectRecent > 0 then Some(|messages| - config.protectRecent) else None
  }

  function Classified(ops: seq<FileOp>, config: Config, protectedFrom: Option<int>, op: FileOp): Classification {
    Classification(op.msgIndex, op.callId, op.path, StateOf(ops, config, protectedFrom, op))
  }

  /** The reads among `ops`, classified by the operations `all` on their file. */
  function ClassifiedReads(ops: seq<FileOp>, all: seq<FileOp>, config: Config,
      protectedFrom: Option<int>): seq<Classification> {
    if ops == [] then []
    else
      var n := |ops| - 1;
      ClassifiedReads(ops[..n], all, config, protectedFrom)
      + if ops[n].operation.Read? then [Classified(all, config, protectedFrom, ops[n])] else []
  }

  /** File by file, and read by read. */
  function Classifications(index: FileIndex, config: Config, protectedFrom: Option<int>): seq<Classification> {
    if index == [] then []
    else
      var n := |index| - 1;
      Classifications(index[..n], config, protectedFrom)
      + ClassifiedReads(index[n].value, index[n].value, config, protectedFrom)
  }

  /** The classification of a conversation, whatever became of the pass that computes it. */
  function ReadsOf(messages: seq<Message>, config: Config): seq<Classification> {
    Classifications(Index(OpsIn(messages)), config, ProtectedFrom(messages, config))
  }

  /** One classification per read, and only reads are classified. */
  ghost predicate AreClassifications(cs: seq<Classification>, ops: seq<FileOp>, config: Config,
      protectedFrom: Option<int>) {
    && (forall op :: op in ops && op.operation.Read? ==> Classified(ops, config, protectedFrom, op) in cs)
    && (forall c :: c in cs ==> IsClassified(c, ops, config, protectedFrom))
  }

  ghost predicate IsClassified(c: Classification, ops: seq<FileOp>, config: Config, protectedFrom: Option<int>) {
    exists op :: op in ops && op.operation.Read? && c == Classified(ops, config, protectedFrom, op)
  }

  method LookForEdit(ops: seq<FileOp>, op: FileOp) returns (edited: bool)
    ensures edited == EditedAfter(ops, op)
  {
    edited := false;
    for j := 0 to |ops|
      invariant edited == EditedAfter(ops[..j], op)
    {
      EditedNext(ops, op, j);
      edited := edited || (ops[j].operation.Edit? && ops[j].path == op.path && ops[j].msgIndex > op.msgIndex);
    }
    assert ops[..|ops|] == ops;
  }

  lemma EditedNext(ops: seq<FileOp>, op: FileOp, j: nat)
    requires j < |ops|
    ensures EditedAfter(ops[..j + 1], op) <==> EditedAfter(ops[..j], op) || IsLaterEdit(ops[j], op)
  {
    var more, some := ops[..j + 1], ops[..j];
    assert more[j] == ops[j] && forall k :: 0 <= k < j ==> more[k] == some[k];
  }

  method LookForRead(ops: seq<FileOp>, op: FileOp) returns (superseded: Option<bool>)
    ensures superseded == Search(ops, op)
  {
    var test := TestFor(op);
    for j := 0 to |ops|
      invariant Any(ops[..j], test) == Some(false)
    {
      assert ops[..j + 1][..j] == ops[..j];
      superseded := test(ops[j]);
      if superseded != Some(false) {
        AnyEnds(ops, test, j + 1);
        return;
      }
    }
    assert ops[..|ops|] == ops;
    return Some(false);
  }

  /** What ends the search is its result. */
  lemma {:induction false} AnyEnds(ops: seq<FileOp>, test: FileOp -> Option<bool>, j: nat)
    requires j <= |ops| && Any(ops[..j], test) != Some(false)
    ensures Any(ops, test) == Any(ops[..j], test)
  {
    if j < |ops| {
      assert ops[..|ops| - 1][..j] == ops[..j];
      AnyEnds(ops[..|ops| - 1], test, j);
    } else {
      assert ops[..j] == ops;
    }
  }

  /** A search that does not raise says whether any operation passes. */
  lemma {:induction false} AnyFinds(ops: seq<FileOp>, test: FileOp -> Option<bool>)
    ensures Any(ops, test).Some? ==>
      (Any(ops, test).value <==> exists j :: 0 <= j < |ops| && test(ops[j]) == Some(true))
  {
    if ops != [] {
      var n := |ops| - 1;
      AnyFinds(ops[..n], test);
      assert forall k :: 0 <= k < n ==> ops[..n][k] == ops[k];
    }
  }

  /** A search that does not raise says whether any read supersedes this one. */
  lemma SearchFinds(ops: seq<FileOp>, read: FileOp)
    ensures Search(ops, read).Some? ==> Search(ops, read).value == SupersededBySome(ops, read)
  {
    AnyFinds(ops, TestFor(read));
    assert forall op :: TestFor(read)(op) == Some(true) <==> Supersedes(op, read);
  }

  /** The state of a read that is not protected; `None` where the search raises. */
  method ClassifyRead(ops: seq<FileOp>, config: Config, op: FileOp) returns (state: Option<State>)
    ensures state == if config.compressSuperseded && Search(ops, op).None? then None
                     else Some(StateOf(ops, config, None, op))
  {
    var edited, superseded := false, false;
    if config.compressStale {
      edited := LookForEdit(ops, op);
    }
    if config.compressSuperseded {
      var found := LookForRead(ops, op);
      if found.None? {
        return None;
      }
      SearchFinds(ops, op);
      superseded := found.value;
    }
    return Some(if edited then Stale else if superseded then Superseded else Fresh);
  }

  /** The loop over the reads of one file; `None` where it raises. */
  method ClassifyFile(ops: seq<FileOp>, config: Config, protectedFrom: Option<int>)
    returns (cs: Option<seq<Classification>>)
    ensures cs == if RaisesOnRanges(ops, config, protectedFrom) then None
                  else Some(ClassifiedReads(ops, ops, config, protectedFrom))
  {
    var known := [];
    for i := 0 to |ops|
      invariant known == ClassifiedReads(ops[..i], ops, config, protectedFrom)
      invariant forall j :: 0 <= j < i ==> !RaisesOnRange(ops, config, protectedFrom, ops[j])
    {
      assert ops[..i + 1][..i] == ops[..i];
      var op := ops[i];
      if op.operation.Edit? {
        continue;
      }
      var state := Some(Fresh);
      if !IsProtected(protectedFrom, op) {
        state := ClassifyRead(ops, config, op);
        if state.None? {
          assert RaisesOnRange(ops, config, protectedFrom, op);
          return None;
        }
      }
      known := known + [Classification(op.msgIndex, op.callId, op.path, state.value)];
    }
    assert ops[..|ops|] == ops;
    return Some(known);
  }

  predicate RaisesInFiles(index: FileIndex, config: Config, protectedFrom: Option<int>) {
    exists k :: 0 <= k < |index| && RaisesOnRanges(index[k].value, config, protectedFrom)
  }

  /** `_classify_reads`: the loop over the files; `None` where it raises. */
  method ClassifyReads(index: FileIndex, config: Config, protectedFrom: Option<int>)
    returns (cs: Option<seq<Classification>>)
    ensures cs == if RaisesInFiles(index, config, protectedFrom) then None
                  else Some(Classifications(index, config, protectedFrom))
  {
    var known := [];
    for k := 0 to |index|
      invariant known == Classifications(index[..k], config, protectedFrom)
      invariant forall j :: 0 <= j < k ==> !RaisesOnRanges(index[j].value, config, protectedFrom)
    {
      assert index[..k + 1][..k] == index[..k];
      var own := ClassifyFile(index[k].value, config, protectedFrom);
      if own.None? {
        return None;
      }
      known := known + own.value;
    }
    assert index[..|index|] == index;
    return Some(known);
  }

  lemma {:induction false} AnyOnFile(ops: seq<FileOp>, path: Field, test: FileOp -> Option<bool>)
    requires forall op :: op in ops && op.path != path ==> test(op) == Some(false)
    ensures Any(OnFile(ops, path), test) == Any(ops, test)
  {
    if ops != [] {
      var before, op := ops[..|ops| - 1], ops[|ops| - 1];
      AnyOnFile(before, path, test);
      if op.path == path {
        AnyNext(OnFile(before, path), op, test);
      } else {
        assert OnFile(before, path) + [] == OnFile(before, path);
      }
    }
  }

  lemma AnyNext(ops: seq<FileOp>, op: FileOp, test: FileOp -> Option<bool>)
    ensures Any(ops + [op], test) == if Any(ops, test) != Some(false) then Any(ops, test) else test(op)
  {
    assert (ops + [op])[..|ops|] == ops;
  }

  lemma SearchOnFile(ops: seq<FileOp>, read: FileOp)
    ensures Search(OnFile(ops, read.path), read) == Search(ops, read)
  {
    AnyOnFile(ops, read.path, TestFor(read));
  }

  /** Going file by file raises exactly when some range cannot be compared with a later one of the conversation. */
  lemma FilesRaise(ops: seq<FileOp>, config: Config, protectedFrom: Option<int>)
    ensures RaisesInFiles(Index(ops), config, protectedFrom) <==> RaisesOnRanges(ops, config, protectedFrom)
  {
    var index := Index(ops);
    IndexIsByFile(ops);
    if RaisesInFiles(index, config, protectedFrom) {
      var k :| 0 <= k < |index| && RaisesOnRanges(index[k].value, config, protectedFrom);
      var op :| op in index[k].value && RaisesOnRange(index[k].value, config, protectedFrom, op);
      SearchOnFile(ops, op);
      assert op in ops && RaisesOnRange(ops, config, protectedFrom, op);
    }
    if RaisesOnRanges(ops, config, protectedFrom) {
      var op :| op in ops && RaisesOnRange(ops, config, protectedFrom, op);
      SearchOnFile(ops, op);
      assert op in OnFile(ops, op.path) && Has(index, op.path);
      assert RaisesOnRange(index[Find(index, op.path)].value, config, protectedFrom, op);
    }
  }

  /** Only operations on its own file matter for a read. */
  lemma StateOnFile(ops: seq<FileOp>, config: Config, protectedFrom: Option<int>, read: FileOp)
    ensures StateOf(OnFile(ops, read.path), config, protectedFrom, read) == StateOf(ops, config, protectedFrom, read)
  {
    var own := OnFile(ops, read.path);
    EditedIsMember(ops, read);
    EditedIsMember(own, read);
    SupersededIsMember(ops, read);
    SupersededIsMember(own, read);
  }

  lemma EditedIsMember(ops: seq<FileOp>, read: FileOp)
    ensures EditedAfter(ops, read) <==> exists op :: op in ops && IsLaterEdit(op, read)
  {}

  lemma SupersededIsMember(ops: seq<FileOp>, read: FileOp)
    ensures SupersededBySome(ops, read) <==> exists op :: op in ops && Supersedes(op, read)
  {}

  lemma {:induction false} ClassifiedReadsAre(ops: seq<FileOp>, all: seq<FileOp>, config: Config,
      protectedFrom: Option<int>, c: Classification)
    ensures c in ClassifiedReads(ops, all, config, protectedFrom) <==>
      exists op :: op in ops && op.operation.Read? && c == Classified(all, config, protectedFrom, op)
  {
    if ops != [] {
      var n := |ops| - 1;
      ClassifiedReadsAre(ops[..n], all, config, protectedFrom, c);
      assert forall op :: op in ops <==> op == ops[n] || op in ops[..n];
    }
  }

  /** A file of the index contributes `c`. */
  ghost predicate IsOnFile(c: Classification, file: Entry<Field, seq<FileOp>>, config: Config,
      protectedFrom: Option<int>) {
    c in ClassifiedReads(file.value, file.value, config, protectedFrom)
  }

  lemma {:induction false} ClassificationsAre(index: FileIndex, config: Config, protectedFrom: Option<int>,
      c: Classification)
    ensures c in Classifications(index, config, protectedFrom) <==>
      exists k :: 0 <= k < |index| && IsOnFile(c, index[k], config, protectedFrom)
  {
    if index != [] {
      var n := |index| - 1;
      ClassificationsAre(index[..n], config, protectedFrom, c);
      assert forall k :: 0 <= k < n ==> index[..n][k] == index[k];
    }
  }

  /** Going file by file classifies exactly the reads of the conversation, each against all operations. */
  lemma ReadsAreClassified(ops: seq<FileOp>, config: Config, protectedFrom: Option<int>)
    ensures AreClassifications(Classifications(Index(ops), config, protectedFrom), ops, config, protectedFrom)
  {
    var index := Index(ops);
    var cs := Classifications(index, config, protectedFrom);
    IndexIsByFile(ops);
    forall op | op in ops && op.operation.Read? ensures Classified(ops, config, protectedFrom, op) in cs {
      ReadIsListed(ops, config, protectedFrom, op);
    }
    forall c | c in cs ensures IsClassified(c, ops, config, protectedFrom) {
      ClassificationsAre(index, config, protectedFrom, c);
      var k :| 0 <= k < |index| && IsOnFile(c, index[k], config, protectedFrom);
      ListedIsRead(ops, config, protectedFrom, c, index[k].key);
    }
  }

  lemma ReadIsListed(ops: seq<FileOp>, config: Config, protectedFrom: Option<int>, op: FileOp)
    requires op in ops && op.operation.Read?
    ensures Classified(ops, config, protectedFrom, op) in Classifications(Index(ops), config, protectedFrom)
  {
    var c, own := Classified(ops, config, protectedFrom, op), OnFile(ops, op.path);
    IndexIsByFile(ops);
    var k := Find(Index(ops), op.path);
    assert op in own;
    assert Has(Index(ops), op.path);
    StateOnFile(ops, config, protectedFrom, op);
    ClassifiedReadsAre(own, own, config, protectedFrom, c);
    assert IsOnFile(c, Index(ops)[k], config, protectedFrom);
    ClassificationsAre(Index(ops), config, protectedFrom, c);
  }

  lemma ListedIsRead(ops: seq<FileOp>, config: Config, protectedFrom: Option<int>, c: Classification, path: Field)
    requires c in ClassifiedReads(OnFile(ops, path), OnFile(ops, path), config, protectedFrom)
    ensures IsClassified(c, ops, config, protectedFrom)
  {
    var own := OnFile(ops, path);
    ClassifiedReadsAre(own, own, config, protectedFrom, c);
    var op :| op in own && op.operation.Read? && c == Classified(own, config, protectedFrom, op);
    StateOnFile(ops, config, protectedFrom, op);
  }

  /* ---------- Coverage is inclusion of lines ---------- */

  /** An offset or limit that is a number, or missing or falsy with a default. */
  function NumberOr(x: Field, default: real): Option<real> {
    match x
    case Number(value) => Some(if value == 0.0 then default else value)
    case Null => Some(default)
    case Str(text) => if text == "" then Some(default) else None
    case List(elements) => if elements == [] then Some(default) else None
    case Dict(entries) => if entries == map[] then Some(default) else None
  }

  /** Line `x` is in the range that was asked for: 2000 lines from the start, unless the call says otherwise. */
  predicate HasLine(op: FileOp, x: real) {
    || (op.offset == Null && op.limit == Null)
    || (var first, count := NumberOr(op.offset, 0.0), NumberOr(op.limit, 2000.0);
        first.Some? && count.Some? && first.value <= x < first.value + count.value)
  }

  /** The whole file, or a positive number of lines from some line on. */
  predicate IsLineRange(op: FileOp) {
    || (op.offset == Null && op.limit == Null)
    || (NumberOr(op.offset, 0.0).Some? && NumberOr(op.limit, 2000.0).Some? && NumberOr(op.limit, 2000.0).value > 0.0)
  }

  ghost predicate HasLinesOf(later: FileOp, earlier: FileOp) {
    forall x :: HasLine(earlier, x) ==> HasLine(later, x)
  }

  /** The start of a range that can be compared with a number is a number, and so is its end. */
  lemma NumericEnds(op: FileOp)
    ensures StartOf(op).Number? <==> NumberOr(op.offset, 0.0).Some?
    ensures StartOf(op).Number? ==> StartOf(op).value == NumberOr(op.offset, 0.0).value
    ensures StartOf(op).Number? && EndOf(op).Some? <==>
      NumberOr(op.offset, 0.0).Some? && NumberOr(op.limit, 2000.0).Some?
    ensures StartOf(op).Number? && EndOf(op).Some? ==>
      EndOf(op).value == Number(NumberOr(op.offset, 0.0).value + NumberOr(op.limit, 2000.0).value)
  {}

  /** Outside a bounded range there is a line of any other range that sticks out of it. */
  lemma LineOutside(first: real, count: real, start: real, end: real) returns (x: real)
    requires count > 0.0 && !(start <= first && end >= first + count)
    ensures first <= x < first + count && !(start <= x < end)
  {
    x := if start > first || end <= first then first else end;
  }

  /** A read covers another one exactly when it has all its lines, whatever the offset and limit of the later one. */
  lemma CoversLines(later: FileOp, earlier: FileOp)
    requires IsLineRange(earlier)
    ensures ReadCovers(later, earlier) <==> HasLinesOf(later, earlier)
  {
    NumericEnds(later);
    NumericEnds(earlier);
    if IsFullRead(earlier) && !IsFullRead(later) {
      NotAllLines(later);
    } else if !IsFullRead(later) {
      PartialLines(later, earlier);
    }
  }

  lemma NotAllLines(op: FileOp)
    requires !IsFullRead(op)
    ensures exists x :: !HasLine(op, x)
  {
    var first, count := NumberOr(op.offset, 0.0), NumberOr(op.limit, 2000.0);
    var x := if first.Some? && count.Some? then first.value + count.value else 0.0;
    assert !HasLine(op, x);
  }

  lemma PartialLines(later: FileOp, earlier: FileOp)
    requires IsLineRange(earlier) && !IsFullRead(earlier) && !IsFullRead(later)
    ensures ReadCovers(later, earlier) <==> HasLinesOf(later, earlier)
  {
    NumericEnds(later);
    NumericEnds(earlier);
    var first, count := NumberOr(earlier.offset, 0.0).value, NumberOr(earlier.limit, 2000.0).value;
    assert HasLine(earlier, first);
    if !ReadCovers(later, earlier) && NumberOr(later.offset, 0.0).Some? && NumberOr(later.limit, 2000.0).Some? {
      var start := NumberOr(later.offset, 0.0).value;
      var end := start + NumberOr(later.limit, 2000.0).value;
      var x := LineOutside(first, count, start, end);
      assert HasLine(earlier, x) && !HasLine(later, x);
    }
  }

  lemma CoversTransitive(a: FileOp, b: FileOp, c: FileOp)
    requires ReadCovers(a, b) && ReadCovers(b, c)
    ensures ReadCovers(a, c)
  {
    if !IsFullRead(a) {
      AtMostTransitive(StartOf(a), StartOf(b), StartOf(c));
      AtMostTransitive(EndOf(c).value, EndOf(b).value, EndOf(a).value);
    }
  }

  /** Among the reads that supersede `read`, the last one. */
  lemma {:induction false} LastSuperseding(ops: seq<FileOp>, read: FileOp, n: nat) returns (last: FileOp)
    requires n <= |ops| && exists j :: 0 <= j < n && Supersedes(ops[j], read)
    ensures last in ops[..n] && Supersedes(last, read)
    ensures forall j :: 0 <= j < n && Supersedes(ops[j], read) ==> ops[j].msgIndex <= last.msgIndex
  {
    var op := ops[n - 1];
    assert ops[..n][..n - 1] == ops[..n - 1];
    if exists j :: 0 <= j < n - 1 && Supersedes(ops[j], read) {
      last := LastSuperseding(ops, read, n - 1);
      assert last in ops[..n];
      if Supersedes(op, read) && op.msgIndex > last.msgIndex {
        last := op;
      }
    } else {
      last := op;
    }
  }

  /**
   * Superseding loses nothing: a superseded read has a strictly later fresh read of the same file that covers
   * it, whatever the protected tail; and with `compressStale` the file was not edited after the superseded read.
   */
  lemma SupersededIsCovered(ops: seq<FileOp>, config: Config, protectedFrom: Option<int>, read: FileOp)
      returns (keeper: FileOp)
    requires StateOf(ops, config, protectedFrom, read) == Superseded
    ensures keeper in ops && Supersedes(keeper, read) && StateOf(ops, config, protectedFrom, keeper) == Fresh
    ensures config.compressStale ==> !EditedAfter(ops, read)
    ensures IsLineRange(read) ==> HasLinesOf(keeper, read)
  {
    keeper := LastSuperseding(ops, read, |ops|);
    assert ops[..|ops|] == ops;
    assert EditedAfter(ops, keeper) ==> EditedAfter(ops, read);
    if SupersededBySome(ops, keeper) {
      var j :| 0 <= j < |ops| && Supersedes(ops[j], keeper);
      CoversTransitive(ops[j], keeper, read);
      assert Supersedes(ops[j], read);
    }
    if IsLineRange(read) {
      CoversLines(keeper, read);
    }
  }

  /* ---------- What the states mean ---------- */

  ghost predicate HasLaterEdit(ops: seq<FileOp>, read: FileOp) {
    exists op :: op in ops && op.operation == Edit && op.path == read.path && op.msgIndex > read.msgIndex
  }

  /** A later read of the same file asks for all the lines of this one. */
  ghost predicate HasLaterLines(ops: seq<FileOp>, read: FileOp) {
    exists op :: op in ops && op.operation == Read && op.path == read.path && op.msgIndex > read.msgIndex
              && HasLinesOf(op, read)
  }

  /** The states in terms of edits and lines alone; a read in the protected tail is always fresh. */
  lemma StateMeans(ops: seq<FileOp>, config: Config, protectedFrom: Option<int>, read: FileOp)
    requires IsLineRange(read)
    ensures var recent := protectedFrom.Some? && read.msgIndex >= protectedFrom.value;
      var stale := config.compressStale && HasLaterEdit(ops, read);
      StateOf(ops, config, protectedFrom, read)
        == if recent then Fresh else if stale then Stale
           else if config.compressSuperseded && HasLaterLines(ops, read) then Superseded else Fresh
  {
    EditedIsMember(ops, read);
    SupersededIsMember(ops, read);
    forall op ensures ReadCovers(op, read) <==> HasLinesOf(op, read) { CoversLines(op, read); }
  }

  /** The conversation's classifications: one for each read, with what the edits and lines around it say. */
  lemma ReadsMean(messages: seq<Message>, config: Config, read: FileOp)
    requires read in OpsIn(messages) && read.operation == Read && IsLineRange(read)
    ensures var ops := OpsIn(messages);
      var recent := config.protectRecent > 0 && read.msgIndex >= |messages| - config.protectRecent;
      var stale := config.compressStale && HasLaterEdit(ops, read);
      Classification(read.msgIndex, read.callId, read.path,
        if recent then Fresh else if stale then Stale
        else if config.compressSuperseded && HasLaterLines(ops, read) then Superseded else Fresh)
      in ReadsOf(messages, config)
  {
    StateMeans(OpsIn(messages), config, ProtectedFrom(messages, config), read);
    ReadIsListed(OpsIn(messages), config, ProtectedFrom(messages, config), read);
  }

  /** `file_path` comes before `path`, unless it is empty. */
  lemma PathMeans(arguments: Arguments, filePath: string, plainPath: string)
    requires arguments.Object? && arguments.filePath == Str(filePath) && arguments.plainPath == Str(plainPath)
    ensures arguments.Path() == Str(if filePath != "" then filePath else plainPath)
  {}

  lemma NamesAreListed(name: string)
    ensures name in READ_TOOLS <==> name in {"Read", "read", "read_file"}
    ensures name in MUTATING_TOOLS <==>
      name in {"Edit", "edit", "edit_file", "Write", "write", "write_file", "MultiEdit", "NotebookEdit", "apply_patch"}
  {
    assert READ_TOOLS[0] == "Read" && READ_TOOLS[1] == "read" && READ_TOOLS[2] == "read_file";
    assert MUTATING_TOOLS == ["Edit", "edit", "edit_file"] + ["Write", "write", "write_file"]
                             + ["MultiEdit", "NotebookEdit", "apply_patch"];
  }

  /** `keeper` is a fresh read of the conversation, later than the read behind `c`, on its file, and covers it. */
  ghost predicate IsCover(messages: seq<Message>, config: Config, c: Classification, keeper: FileOp) {
    && keeper in OpsIn(messages) && keeper.callId in FreshReads(messages, config)
    && exists read :: IsReadBehind(messages, config, c, read) && Supersedes(keeper, read)
  }

  /** `c` is the classification of the operation `read` of the conversation. */
  ghost predicate IsReadBehind(messages: seq<Message>, config: Config, c: Classification, read: FileOp) {
    && read in OpsIn(messages) && read.operation.Read?
    && c == Classified(OpsIn(messages), config, ProtectedFrom(messages, config), read)
  }

  /** Behind every superseded classification stands a fresh one of a later read that covers it. */
  lemma SupersededBesideFresh(messages: seq<Message>, config: Config, c: Classification)
      returns (read: FileOp, keeper: FileOp)
    requires c in ReadsOf(messages, config) && c.state.Superseded?
    ensures IsReadBehind(messages, config, c, read) && read.callId == c.callId && read.path == c.path
    ensures Supersedes(keeper, read) && IsCover(messages, config, c, keeper)
    ensures IsLineRange(read) ==> HasLinesOf(keeper, read)
  {
    var ops, from := OpsIn(messages), ProtectedFrom(messages, config);
    ReadsAreClassified(ops, config, from);
    assert IsClassified(c, ops, config, from);
    read :| read in ops && read.operation.Read? && c == Classified(ops, config, from, read);
    keeper := SupersededIsCovered(ops, config, from, read);
    assert Classified(ops, config, from, keeper) in ReadsOf(messages, config);
    assert IsReadBehind(messages, config, c, read);
  }

  /** Some read that covers the superseded one was answered in the conversation. */
  ghost predicate HasAnsweredCover(messages: seq<Message>, config: Config, c: Classification) {
    exists keeper :: IsCover(messages, config, c, keeper) && HasResult(messages, keeper.callId)
  }

  /** A result of a covering fresh read is in `result` as it was in the conversation. */
  ghost predicate HasVerbatimCover(messages: seq<Message>, result: seq<Message>, config: Config, c: Classification) {
    exists keeper :: IsCover(messages, config, c, keeper) && HasVerbatimResult(messages, result, keeper.callId)
  }

  /**
   * When fresh payloads were kept, a superseded read has a covering result beside it, verbatim, exactly when some
   * covering read was answered: the source supersedes a read as soon as a later one is called.
   */
  lemma CoverIsVerbatim(messages: seq<Message>, result: seq<Message>, config: Config, c: Classification)
    requires SamePayloads(messages, result, FreshReads(messages, config))
    ensures HasVerbatimCover(messages, result, config, c) <==> HasAnsweredCover(messages, config, c)
  {
    forall keeper | IsCover(messages, config, c, keeper)
      ensures HasVerbatimResult(messages, result, keeper.callId) <==> HasResult(messages, keeper.callId)
    {
      VerbatimIsAnswered(messages, result, FreshReads(messages, config), keeper.callId);
    }
  }

  function FreshIds(cs: seq<Classification>): set<string> {
    set c | c in cs && c.state.Fresh? :: c.callId
  }

  /** The call ids of the fresh reads of a conversation. */
  function FreshReads(messages: seq<Message>, config: Config): set<string> { FreshIds(ReadsOf(messages, config)) }

  /* ---------- Markers ---------- */

  /** The CCR store, which may fail, and the size of a text in bytes. */
  datatype Store = Store(persist: (string, Classification) -> Option<string>, byteSize: string -> int)

  function Marker(c: Classification, hash: string): string {
    if c.state.Stale? then
      "[Read content stale: " + Printed(c.path) + " was modified after this read \U{2014} re-read for current content. "
      + "Retrieve original: hash=" + hash + "]"
    else
      "[Read content superseded: " + Printed(c.path) + " was re-read later \U{2014} re-read if needed. "
      + "Retrieve original: hash=" + hash + "]"
  }

  type Replacing = map<string, Classification>

  /** The result `text` of call `id` gets a marker: its read is not fresh, it is not tiny and it can be stored. */
  predicate GetsMarker(id: string, text: string, r: Replacing, config: Config, store: Store) {
    id in r && store.byteSize(text) >= config.minSizeBytes && store.persist(text, r[id]).Some?
  }

  function MarkerFor(id: string, text: string, r: Replacing, config: Config, store: Store): string
    requires GetsMarker(id, text, r, config, store)
  {
    Marker(r[id], store.persist(text, r[id]).value)
  }

  /** `_replace_content`: the marker that takes the place of `text`, if any. */
  method ReplaceContent(text: string, c: Classification, config: Config, store: Store) returns (marker: Option<string>)
    ensures marker == if GetsMarker(c.callId, text, map[c.callId := c], config, store)
                      then Some(MarkerFor(c.callId, text, map[c.callId := c], config, store)) else None
  {
    if store.byteSize(text) < config.minSizeBytes {
      return None;
    }
    var hash := store.persist(text, c);
    if hash.None? {
      return None;
    }
    return Some(Marker(c, hash.value));
  }

  /** Call id to classification, for the reads that are not fresh. */
  function Replacements(cs: seq<Classification>): (r: Replacing)
    ensures forall id :: id in r ==> r[id] in cs && r[id].callId == id && !r[id].state.Fresh?
    ensures forall c :: c in cs && !c.state.Fresh? ==> c.callId in r
  {
    if cs == [] then map[]
    else
      var n := |cs| - 1;
      var r := Replacements(cs[..n]);
      assert forall c :: c in cs <==> c in cs[..n] || c == cs[n];
      if cs[n].state.Fresh? then r else r[cs[n].callId := cs[n]]
  }

  predicate BlockGetsMarker(b: Block, r: Replacing, config: Config, store: Store) {
    b.ToolResult? && b.payload.Text? && GetsMarker(b.toolUseId, b.payload.text, r, config, store)
  }

  function ReplaceBlock(b: Block, r: Replacing, config: Config, store: Store): Block {
    if BlockGetsMarker(b, r, config, store)
    then ToolResult(b.toolUseId, Text(MarkerFor(b.toolUseId, b.payload.text, r, config, store))) else b
  }

  function ReplaceBlocks(blocks: seq<Block>, r: Replacing, config: Config, store: Store): seq<Block> {
    seq(|blocks|, k requires 0 <= k < |blocks| => ReplaceBlock(blocks[k], r, config, store))
  }

  predicate MessageGetsMarker(m: Message, r: Replacing, config: Config, store: Store) {
    && m.role == "tool" && m.toolCallId.Some? && m.content.Text?
    && GetsMarker(m.toolCallId.value, m.content.text, r, config, store)
  }

  function ReplaceMessage(m: Message, r: Replacing, config: Config, store: Store): Message {
    if MessageGetsMarker(m, r, config, store) then
      m.(content := Text(MarkerFor(m.toolCallId.value, m.content.text, r, config, store)))
    else if m.content.Blocks? then m.(content := Blocks(ReplaceBlocks(m.content.blocks, r, config, store)))
    else m
  }

  function Replaced(messages: seq<Message>, r: Replacing, config: Config, store: Store): (result: seq<Message>)
    ensures |result| == |messages|
  {
    seq(|messages|, i requires 0 <= i < |messages| => ReplaceMessage(messages[i], r, config, store))
  }

  /** The conversation with its stale and superseded reads replaced. */
  function Managed(messages: seq<Message>, config: Config, store: Store): (result: seq<Message>)
    ensures |result| == |messages|
  {
    Replaced(messages, Replacements(ReadsOf(messages, config)), config, store)
  }

  method ProcessBlock(block: Block, r: Replacing, config: Config, store: Store)
      returns (newBlock: Block, replaced: bool)
    requires forall id :: id in r ==> r[id].callId == id
    ensures newBlock == ReplaceBlock(block, r, config, store)
    ensures replaced <==> BlockGetsMarker(block, r, config, store)
  {
    if block.ToolResult? && block.toolUseId in r && block.payload.Text? {
      var marker := ReplaceContent(block.payload.text, r[block.toolUseId], config, store);
      if marker.Some? {
        return ToolResult(block.toolUseId, Text(marker.value)), true;
      }
    }
    return block, false;
  }

  /** `_process_anthropic_blocks` */
  method ProcessBlocks(blocks: seq<Block>, r: Replacing, config: Config, store: Store)
      returns (newBlocks: seq<Block>, anyReplaced: bool)
    requires forall id :: id in r ==> r[id].callId == id
    ensures newBlocks == ReplaceBlocks(blocks, r, config, store)
    ensures anyReplaced <==> exists k :: 0 <= k < |blocks| && BlockGetsMarker(blocks[k], r, config, store)
    ensures !anyReplaced ==> newBlocks == blocks
  {
    newBlocks, anyReplaced := [], false;
    ghost var target := ReplaceBlocks(blocks, r, config, store);
    for k := 0 to |blocks|
      invariant newBlocks == target[..k]
      invariant anyReplaced <==> exists j :: 0 <= j < k && BlockGetsMarker(blocks[j], r, config, store)
    {
      var newBlock, replaced := ProcessBlock(blocks[k], r, config, store);
      newBlocks := newBlocks + [newBlock];
      anyReplaced := anyReplaced || replaced;
    }
    UnmarkedBlocks(blocks, r, config, store);
  }

  lemma UnmarkedBlocks(blocks: seq<Block>, r: Replacing, config: Config, store: Store)
    ensures (forall k :: 0 <= k < |blocks| ==> !BlockGetsMarker(blocks[k], r, config, store)) ==>
      ReplaceBlocks(blocks, r, config, store) == blocks
  {}

  /** The body of the loop over the messages. */
  method ProcessMessage(m: Message, r: Replacing, config: Config, store: Store) returns (result: Message)
    requires forall id :: id in r ==> r[id].callId == id
    ensures result == ReplaceMessage(m, r, config, store)
  {
    if m.role == "tool" && m.toolCallId.Some? && m.toolCallId.value in r && m.content.Text? {
      var marker := ReplaceContent(m.content.text, r[m.toolCallId.value], config, store);
      if marker.Some? {
        return m.(content := Text(marker.value));
      }
    }
    if m.content.Blocks? {
      var newBlocks, anyReplaced := ProcessBlocks(m.content.blocks, r, config, store);
      if anyReplaced {
        return m.(content := Blocks(newBlocks));
      }
    }
    return m;
  }

  /** `_apply_lifecycle` */
  method ApplyLifecycle(messages: seq<Message>, cs: seq<Classification>, config: Config, store: Store)
      returns (result: seq<Message>)
    ensures result == Replaced(messages, Replacements(cs), config, store)
  {
    var r := Replacements(cs);
    result := [];
    ghost var target := Replaced(messages, r, config, store);
    for i := 0 to |messages|
      invariant result == target[..i]
    {
      var next := ProcessMessage(messages[i], r, config, store);
      result := result + [next];
    }
  }

  /**
   * The whole pass raises: on a call that is not a dictionary where one is expected, on a path that is no key, or on a
   * range that cannot be compared with a later one.
   */
  predicate Raises(messages: seq<Message>, config: Config) {
    || RaisesOnCalls(messages) || RaisesOnPaths(messages, ToolMetadata(messages))
    || RaisesOnRanges(OpsIn(messages), config, ProtectedFrom(messages, config))
  }

  /** `classify_reads`: the rewritten messages and the ids of the fresh reads; `None` where it raises. */
  method ManageReads(messages: seq<Message>, config: Config, store: Store)
    returns (result: Option<seq<Message>>, freshIds: set<string>)
    ensures Raises(messages, config) ==> result == None && freshIds == {}
    ensures !Raises(messages, config) ==>
      result == Some(Managed(messages, config, store)) && freshIds == FreshReads(messages, config)
  {
    var metadata := BuildToolMetadata(messages);
    if metadata.None? {
      return None, {};
    }
    var index := BuildFileOperationIndex(messages, metadata.value);
    if index.None? {
      return None, {};
    }
    FilesRaise(OpsIn(messages), config, ProtectedFrom(messages, config));
    var cs := ClassifyReads(index.value, config, ProtectedFrom(messages, config));
    if cs.None? {
      return None, {};
    }
    var rewritten := ApplyLifecycle(messages, cs.value, config, store);
    return Some(rewritten), FreshIds(cs.value);
  }

  /** Message `m` is, or holds in block `k`, the marker of `c`. */
  predicate MarkerAt(m: Message, k: nat, c: Classification, hash: string) {
    || (IsResult(m, {c.callId}) && m.content == Text(Marker(c, hash)))
    || (m.content.Blocks? && k < |m.content.blocks|
        && m.content.blocks[k] == ToolResult(c.callId, Text(Marker(c, hash))))
  }

  /** Call ids are unique, so no id is both fresh and replaced, and each id has one classification. */
  lemma FreshIsNotReplaced(messages: seq<Message>, config: Config)
    ensures forall id :: id in FreshReads(messages, config) ==> id !in Replacements(ReadsOf(messages, config))
    ensures forall c :: c in ReadsOf(messages, config) && !c.state.Fresh? ==>
        Replacements(ReadsOf(messages, config))[c.callId] == c
  {
    var cs := ReadsOf(messages, config);
    forall c, d | c in cs && d in cs && c.callId == d.callId ensures c == d {
      OneClassification(messages, config, c, d);
    }
  }

  lemma OneClassification(messages: seq<Message>, config: Config, c: Classification, d: Classification)
    requires c in ReadsOf(messages, config) && d in ReadsOf(messages, config) && c.callId == d.callId
    ensures c == d
  {
    var ops, from := OpsIn(messages), ProtectedFrom(messages, config);
    MetadataDistinct(messages);
    FileOpsDistinct(messages, ToolMetadata(messages));
    ReadsAreClassified(ops, config, from);
    assert IsClassified(c, ops, config, from) && IsClassified(d, ops, config, from);
    var op :| op in ops && op.operation.Read? && c == Classified(ops, config, from, op);
    var op' :| op' in ops && op'.operation.Read? && d == Classified(ops, config, from, op');
    SameOp(ops, op, op');
  }

  lemma SameOp(ops: seq<FileOp>, op: FileOp, other: FileOp)
    requires DistinctOps(ops) && op in ops && other in ops && op.callId == other.callId
    ensures op == other
  {}

  /** A stored result of a stale or superseded read is where its marker ends up. */
  lemma MarkerIsPlaced(messages: seq<Message>, config: Config, store: Store, i: nat, c: Classification)
    requires c in ReadsOf(messages, config) && !c.state.Fresh?
    requires i < |messages| && IsResult(messages[i], {c.callId}) && messages[i].content.Text?
    requires store.byteSize(messages[i].content.text) >= config.minSizeBytes
    requires store.persist(messages[i].content.text, c).Some?
    ensures MarkerAt(Managed(messages, config, store)[i], 0, c, store.persist(messages[i].content.text, c).value)
  {
    FreshIsNotReplaced(messages, config);
  }

  /* ---------- What becomes of each result ---------- */

  /** The result `text` of call `id` is due for the marker of `c`: not fresh, not tiny, and stored. */
  predicate IsDue(c: Classification, id: string, text: string, config: Config, store: Store) {
    c.callId == id && c.state != Fresh && store.byteSize(text) >= config.minSizeBytes && store.persist(text, c).Some?
  }

  /** What becomes of a result of call `id`: the marker that is due, or what it was. */
  ghost predicate IsManaged(messages: seq<Message>, config: Config, store: Store, id: string, was: Content,
      now: Content) {
    if was.Text? && exists c :: c in ReadsOf(messages, config) && IsDue(c, id, was.text, config, store) then
      exists c :: c in ReadsOf(messages, config) && IsDue(c, id, was.text, config, store)
                  && now == Text(Marker(c, store.persist(was.text, c).value))
    else now == was
  }

  /** String results of tool messages, and results in blocks whatever the role, are managed; nothing else changes. */
  ghost predicate IsManagedMessage(messages: seq<Message>, config: Config, store: Store, m: Message, now: Message) {
    && now == m.(content := now.content)
    && if m.content.Blocks? then
         && now.content.Blocks? && |now.content.blocks| == |m.content.blocks|
         && forall k :: 0 <= k < |m.content.blocks| ==>
              IsManagedBlock(messages, config, store, m.content.blocks[k], now.content.blocks[k])
       else if m.role == "tool" && m.toolCallId.Some? then
         IsManaged(messages, config, store, m.toolCallId.value, m.content, now.content)
       else now.content == m.content
  }

  ghost predicate IsManagedBlock(messages: seq<Message>, config: Config, store: Store, b: Block, now: Block) {
    if b.ToolResult? then
      now.ToolResult? && now.toolUseId == b.toolUseId
      && IsManaged(messages, config, store, b.toolUseId, b.payload, now.payload)
    else now == b
  }

  lemma GetsMarkerIsDue(messages: seq<Message>, config: Config, store: Store, id: string, text: string)
    ensures var r := Replacements(ReadsOf(messages, config));
      && (GetsMarker(id, text, r, config, store) <==>
            exists c :: c in ReadsOf(messages, config) && IsDue(c, id, text, config, store))
      && (GetsMarker(id, text, r, config, store) ==>
            r[id] in ReadsOf(messages, config) && IsDue(r[id], id, text, config, store))
  {
    FreshIsNotReplaced(messages, config);
  }

  lemma BlockIsManaged(messages: seq<Message>, config: Config, store: Store, b: Block)
    ensures IsManagedBlock(messages, config, store, b,
                           ReplaceBlock(b, Replacements(ReadsOf(messages, config)), config, store))
  {
    if b.ToolResult? && b.payload.Text? {
      GetsMarkerIsDue(messages, config, store, b.toolUseId, b.payload.text);
    }
  }

  /** The pass replaces exactly the results that are due, each by its marker. */
  lemma ResultsAreManaged(messages: seq<Message>, config: Config, store: Store, i: nat)
    requires i < |messages|
    ensures IsManagedMessage(messages, config, store, messages[i], Managed(messages, config, store)[i])
  {
    var m, r := messages[i], Replacements(ReadsOf(messages, config));
    if m.content.Blocks? {
      forall k | 0 <= k < |m.content.blocks|
        ensures IsManagedBlock(messages, config, store, m.content.blocks[k],
                               ReplaceBlocks(m.content.blocks, r, config, store)[k])
      {
        BlockIsManaged(messages, config, store, m.content.blocks[k]);
      }
    } else if m.role == "tool" && m.toolCallId.Some? && m.content.Text? {
      GetsMarkerIsDue(messages, config, store, m.toolCallId.value, m.content.text);
    }
  }

  /** A marker names state and file, and ends in the hash under which the original text is stored. */
  lemma MarkerNamesFile(c: Classification, hash: string)
    requires c.path.Str?
    ensures c.state == Stale ==> "[Read content stale: " + c.path.text <= Marker(c, hash)
    ensures c.state == Superseded ==> "[Read content superseded: " + c.path.text <= Marker(c, hash)
    ensures hash + "]" == Marker(c, hash)[|Marker(c, hash)| - |hash| - 1..]
  {
    var all := Marker(c, hash);
    var front := all[..|all| - |hash| - 1];
    assert all == front + (hash + "]");
  }

  /* ---------- Which fresh results are kept ---------- */

  /** A block whose payload becomes a marker, and was not that marker before. */
  predicate BlockChanges(b: Block, r: Replacing, config: Config, store: Store) {
    BlockGetsMarker(b, r, config, store) && b.payload.text != MarkerFor(b.toolUseId, b.payload.text, r, config, store)
  }

  /** A tool message that is itself the result of a fresh read, and holds a result that becomes a marker. */
  ghost predicate WrapsReplaced(m: Message, messages: seq<Message>, config: Config, store: Store) {
    && IsResult(m, FreshReads(messages, config)) && m.content.Blocks?
    && exists k :: 0 <= k < |m.content.blocks| &&
         BlockChanges(m.content.blocks[k], Replacements(ReadsOf(messages, config)), config, store)
  }

  ghost predicate NoneWraps(messages: seq<Message>, config: Config, store: Store) {
    forall m :: m in messages ==> !WrapsReplaced(m, messages, config, store)
  }

  lemma BlocksChange(blocks: seq<Block>, r: Replacing, config: Config, store: Store)
    ensures ReplaceBlocks(blocks, r, config, store) == blocks <==>
      forall k :: 0 <= k < |blocks| ==> !BlockChanges(blocks[k], r, config, store)
  {
    var done := ReplaceBlocks(blocks, r, config, store);
    assert forall k :: 0 <= k < |blocks| ==> (done[k] == blocks[k] <==> !BlockChanges(blocks[k], r, config, store));
    assert done == blocks <==> forall k :: 0 <= k < |blocks| ==> done[k] == blocks[k];
  }

  /** The rewrite keeps every fresh payload of a message exactly when the message wraps no replaced result. */
  lemma MessageKept(m: Message, messages: seq<Message>, config: Config, store: Store)
    ensures SamePayload(m, ReplaceMessage(m, Replacements(ReadsOf(messages, config)), config, store),
        FreshReads(messages, config))
       <==> !WrapsReplaced(m, messages, config, store)
  {
    var r := Replacements(ReadsOf(messages, config));
    FreshIsNotReplaced(messages, config);
    if m.content.Blocks? {
      BlocksChange(m.content.blocks, r, config, store);
      BlocksKeepShape(m, r, FreshReads(messages, config), config, store);
    } else {
      TextKept(m, r, FreshReads(messages, config), config, store);
    }
  }

  lemma TextKept(m: Message, r: Replacing, ids: set<string>, config: Config, store: Store)
    requires !m.content.Blocks? && forall id :: id in ids ==> id !in r
    ensures SamePayload(m, ReplaceMessage(m, r, config, store), ids)
  {}

  lemma BlockKept(b: Block, r: Replacing, ids: set<string>, config: Config, store: Store)
    requires forall id :: id in ids ==> id !in r
    ensures SameBlockShape(b, ReplaceBlock(b, r, config, store))
    ensures IsResultBlock(b, ids) ==> ReplaceBlock(b, r, config, store) == b
  {}

  lemma BlocksKeepShape(m: Message, r: Replacing, ids: set<string>, config: Config, store: Store)
    requires m.content.Blocks? && forall id :: id in ids ==> id !in r
    ensures SamePayload(m, m.(content := Blocks(ReplaceBlocks(m.content.blocks, r, config, store))), ids)
       <==> (IsResult(m, ids) ==> ReplaceBlocks(m.content.blocks, r, config, store) == m.content.blocks)
  {
    var blocks := m.content.blocks;
    forall k | 0 <= k < |blocks|
      ensures SameBlockShape(blocks[k], ReplaceBlocks(blocks, r, config, store)[k])
      ensures IsResultBlock(blocks[k], ids) ==> ReplaceBlocks(blocks, r, config, store)[k] == blocks[k]
    {
      BlockKept(blocks[k], r, ids, config, store);
    }
  }

  /** Results of fresh reads are left alone exactly when none of them wraps a result that becomes a marker. */
  lemma FreshPayloadsKept(messages: seq<Message>, config: Config, store: Store)
    ensures SamePayloads(messages, Managed(messages, config, store), FreshReads(messages, config))
       <==> NoneWraps(messages, config, store)
    ensures Unmixed(messages) ==> NoneWraps(messages, config, store)
  {
    var result := Managed(messages, config, store);
    forall i | 0 <= i < |messages|
      ensures SamePayload(messages[i], result[i], FreshReads(messages, config)) <==>
          !WrapsReplaced(messages[i], messages, config, store)
    {
      MessageKept(messages[i], messages, config, store);
    }
    assert forall m :: m in messages ==> exists i :: 0 <= i < |messages| && messages[i] == m;
  }
}

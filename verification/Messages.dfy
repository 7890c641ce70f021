/** Chat messages, with the fields that the transforms look at. */
module Messages {
  import opened Prelude
  import opened Fields

  /**
   * The arguments of a tool call, or the input of a `tool_use` block. `NoFunction` is a call whose `function` is there
   * but not a dictionary (a call without one has no name), `NotJson` arguments that `json.loads` rejects, `NotAnObject`
   * arguments that parse to something else.
   */
  datatype Arguments =
    | NoFunction
    | NotJson
    | NotAnObject
    | Object(filePath: Field, plainPath: Field, offset: Field, limit: Field)
  {
    /** `args.get("file_path") or args.get("path")` */
    function Path(): Field { if Object? then Or(filePath, plainPath) else Null }

    function Offset(): Field { if Object? then offset else Null }

    function Limit(): Field { if Object? then limit else Null }
  }

  /** A call of a tool: an entry of `tool_calls` or a `tool_use` block. */
  datatype ToolCall = ToolCall(id: string, name: string, arguments: Arguments)

  /** A content block; a block of another type may carry a call id and a content, too. */
  datatype Block =
    | TextBlock(text: string)
    | ToolUse(call: ToolCall)
    | ToolResult(toolUseId: string, payload: Content)
    | OtherBlock(raw: string, otherId: Option<string>, payload: Content)

  /** Message content: a string, a list of blocks, or nothing that a transform reads. */
  datatype Content = Text(text: string) | Blocks(blocks: seq<Block>) | Absent

  /** `functionCall` and `callOutput`: it has a `function_call`; its type is `function_call_output`. */
  datatype Message = Message(
    role: string, toolCallId: Option<string>, toolCalls: seq<ToolCall>, content: Content,
    functionCall: bool := false, callOutput: bool := false)

  /* ---------- Tool results ---------- */

  /** The message as a whole is the result of a call with an id in `ids`. */
  predicate IsResult(m: Message, ids: set<string>) {
    m.role == "tool" && m.toolCallId.Some? && m.toolCallId.value in ids
  }

  predicate IsResultBlock(b: Block, ids: set<string>) { b.ToolResult? && b.toolUseId in ids }

  /** Only the payload of a result block may differ. */
  predicate SameBlockShape(b: Block, c: Block) {
    if b.ToolResult? then c.ToolResult? && c.toolUseId == b.toolUseId else !c.ToolResult?
  }

  /** Role and ids are the same, a content list keeps its blocks and their ids, other content keeps its kind. */
  predicate SameShape(m: Message, n: Message) {
    && n.role == m.role && n.toolCallId == m.toolCallId
    && (n.content.Blocks? <==> m.content.Blocks?)
    && (m.content.Blocks? ==>
          && |n.content.blocks| == |m.content.blocks|
          && forall k :: 0 <= k < |m.content.blocks| ==> SameBlockShape(m.content.blocks[k], n.content.blocks[k]))
  }

  /** The results of the calls in `ids` are identical in both messages. */
  predicate SamePayload(m: Message, n: Message, ids: set<string>) {
    && SameShape(m, n)
    && (IsResult(m, ids) ==> n.content == m.content)
    && (m.content.Blocks? ==>
          forall k :: 0 <= k < |m.content.blocks| && IsResultBlock(m.content.blocks[k], ids) ==>
            n.content.blocks[k] == m.content.blocks[k])
  }

  predicate SamePayloads(a: seq<Message>, b: seq<Message>, ids: set<string>) {
    |a| == |b| && forall i :: 0 <= i < |a| ==> SamePayload(a[i], b[i], ids)
  }

  lemma SamePayloadsTransitive(a: seq<Message>, b: seq<Message>, c: seq<Message>, ids: set<string>)
    requires SamePayloads(a, b, ids) && SamePayloads(b, c, ids)
    ensures SamePayloads(a, c, ids)
  {
    forall i | 0 <= i < |a| ensures SamePayload(a[i], c[i], ids) {
      assert SamePayload(a[i], b[i], ids) && SamePayload(b[i], c[i], ids);
    }
  }

  lemma SamePayloadsFewer(a: seq<Message>, b: seq<Message>, ids: set<string>, fewer: set<string>)
    requires SamePayloads(a, b, ids) && fewer <= ids
    ensures SamePayloads(a, b, fewer)
  {
    forall i | 0 <= i < |a| ensures SamePayload(a[i], b[i], fewer) {
      assert SamePayload(a[i], b[i], ids);
    }
  }

  /** A tool message does not carry result blocks of its own: the two wire formats are not mixed in one message. */
  predicate Unmixed(messages: seq<Message>) {
    forall i :: 0 <= i < |messages| && messages[i].role == "tool" && messages[i].content.Blocks? ==>
      forall b :: b in messages[i].content.blocks ==> !b.ToolResult?
  }

  /* ---------- The results of one call ---------- */

  /** Message `m` is, or holds in block `k`, a result of call `id`. */
  predicate ResultAt(m: Message, k: nat, id: string) {
    IsResult(m, {id}) || (m.content.Blocks? && k < |m.content.blocks| && IsResultBlock(m.content.blocks[k], {id}))
  }

  /** The call was answered somewhere in the conversation. */
  ghost predicate HasResult(messages: seq<Message>, id: string) {
    exists i, k: nat :: 0 <= i < |messages| && ResultAt(messages[i], k, id)
  }

  /** Messages `m` and `n` both are, or hold in block `k`, a result of call `id`, with the same payload. */
  predicate SameResultAt(m: Message, n: Message, k: nat, id: string) {
    || (IsResult(m, {id}) && IsResult(n, {id}) && n.content == m.content)
    || (&& m.content.Blocks? && n.content.Blocks? && k < |m.content.blocks| && k < |n.content.blocks|
        && IsResultBlock(m.content.blocks[k], {id}) && n.content.blocks[k] == m.content.blocks[k])
  }

  /** A result of the call is in both conversations, at the same place and with the same payload. */
  ghost predicate HasVerbatimResult(messages: seq<Message>, result: seq<Message>, id: string) {
    exists i, k: nat :: 0 <= i < |messages| && i < |result| && SameResultAt(messages[i], result[i], k, id)
  }

  /** When payloads were kept, a result of the call is verbatim in the other conversation exactly when there is one. */
  lemma VerbatimIsAnswered(messages: seq<Message>, result: seq<Message>, ids: set<string>, id: string)
    requires SamePayloads(messages, result, ids) && id in ids
    ensures HasVerbatimResult(messages, result, id) <==> HasResult(messages, id)
  {
    if HasResult(messages, id) {
      var i, k: nat :| 0 <= i < |messages| && ResultAt(messages[i], k, id);
      assert SamePayload(messages[i], result[i], ids);
      assert SameResultAt(messages[i], result[i], k, id);
    }
    if HasVerbatimResult(messages, result, id) {
      var i, k: nat :| 0 <= i < |messages| && i < |result| && SameResultAt(messages[i], result[i], k, id);
      assert ResultAt(messages[i], k, id);
    }
  }
}

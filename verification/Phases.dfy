/** The common contract of compression phases (`phases.py`): propose, validate, apply, report. */
module Phases {
  import opened Prelude
  import opened Messages

  datatype Status = Applied | Skipped | Rejected | Failed

  datatype Report = Report(name: string, status: Status, tokensBefore: int, tokensAfter: int) {
    function TokenDelta(): int { tokensAfter - tokensBefore }
  }

  datatype Outcome = Outcome(messages: seq<Message>, report: Report)

  /** `CallablePhase.validate`; the pipeline always preserves the message count. */
  predicate Accepts(original: seq<Message>, proposal: seq<Message>, allowInflation: bool, count: seq<Message> -> int) {
    |proposal| == |original| && (allowInflation || count(proposal) <= count(original))
  }

  /** `PhaseRunner.run` outside strict mode; a proposal of `None` is a transform that raised. */
  function Run(name: string, messages: seq<Message>, proposal: Option<seq<Message>>, allowInflation: bool,
      count: seq<Message> -> int): Outcome {
    var (output, status) :=
      match proposal
      case None => (messages, Failed)
      case Some(p) =>
        if !Accepts(messages, p, allowInflation, count) then (messages, Rejected)
        else if p != messages then (p, Applied)
        else (p, Skipped);
    Outcome(output, Report(name, status, count(messages), count(output)))
  }

  /** A phase never changes the number of messages, and only an inflating one can add tokens. */
  lemma RunIsSafe(name: string, messages: seq<Message>, proposal: Option<seq<Message>>, allowInflation: bool,
      count: seq<Message> -> int)
    ensures var o := Run(name, messages, proposal, allowInflation, count);
            && |o.messages| == |messages|
            && (o.report.TokenDelta() <= 0 || (allowInflation && o.report.status == Applied))
            && (o.messages != messages <==> o.report.status == Applied)
  {}

  /** When each status is reported, what a phase then leaves, and which numbers the report shows. */
  lemma StatusMeans(name: string, messages: seq<Message>, proposal: Option<seq<Message>>, allowInflation: bool,
      count: seq<Message> -> int)
    ensures var o := Run(name, messages, proposal, allowInflation, count);
            && (o.report.status == Failed <==> proposal.None?)
            && (o.report.status == Skipped <==> proposal == Some(messages))
            && (o.report.status == Rejected <==>
                  proposal.Some? && (|proposal.value| != |messages|
                                     || (!allowInflation && count(proposal.value) > count(messages))))
            && (o.report.status == Applied ==> proposal == Some(o.messages))
            && o.report.name == name
            && o.report.tokensBefore == count(messages) && o.report.tokensAfter == count(o.messages)
  {}
}

/** Provenance-aware protection of messages (`risk_policy.py`, with the classification of `ir.py`). */
module RiskPolicy {
  import opened Messages

  datatype Provenance = Trusted | User | Model | Tool | Provider

  datatype Risk = Immutable | Exact | High | Reversible | Normal

  /** `_classify_message`: trusted instructions are immutable; calls, and roles nobody knows, are exact. */
  function Classify(m: Message): (Provenance, Risk) {
    if m.role == "system" || m.role == "developer" then (Trusted, Immutable)
    else if m.role == "tool" || m.callOutput then (Tool, Reversible)
    else if m.role == "user" then (User, High)
    else if m.role == "assistant" then (Model, if m.toolCalls != [] || m.functionCall then Exact else Normal)
    else (Provider, Exact)
  }

  predicate IsExact(m: Message) { Classify(m).1.Immutable? || Classify(m).1.Exact? }

  predicate IsUser(m: Message) { Classify(m).0.User? }

  predicate IsLastUser(messages: seq<Message>, i: nat) {
    i < |messages| && IsUser(messages[i]) && forall k :: i < k < |messages| ==> !IsUser(messages[k])
  }

  /** The protected indices of a conversation. */
  function Protected(messages: seq<Message>): set<nat> {
    set i: nat | i < |messages| && (IsExact(messages[i]) || IsLastUser(messages, i))
  }

  datatype Label = Label(index: nat, provenance: Provenance, risk: Risk)

  function LabelOf(messages: seq<Message>, i: nat): Label
    requires i < |messages|
  {
    var (provenance, risk) := Classify(messages[i]);
    Label(i, provenance, risk)
  }

  /** Messages that must not be touched: instructions, calls, unknown roles, and the last request of the user. */
  predicate MustStay(messages: seq<Message>, i: nat)
    requires i < |messages|
  {
    var m := messages[i];
    || m.role in ["system", "developer"]
    || (m.role == "assistant" && !m.callOutput && (m.toolCalls != [] || m.functionCall))
    || (m.role !in ["system", "developer", "assistant", "user", "tool"] && !m.callOutput)
    || (m.role == "user" && !m.callOutput && forall k :: i < k < |messages| && messages[k].role == "user" ==>
          messages[k].callOutput)
  }

  lemma ProtectedMustStay(messages: seq<Message>, i: nat)
    requires i < |messages|
    ensures i in Protected(messages) <==> MustStay(messages, i)
  {
    var m := messages[i];
    assert IsExact(m) <==>
      || m.role == "system" || m.role == "developer"
      || (m.role == "assistant" && !m.callOutput && (m.toolCalls != [] || m.functionCall))
      || (m.role != "assistant" && m.role != "user" && m.role != "tool" && !m.callOutput);
    assert forall n: Message :: IsUser(n) <==> n.role == "user" && !n.callOutput;
  }

  method Assess(messages: seq<Message>) returns (protected: set<nat>, labels: seq<Label>)
    ensures protected == Protected(messages)
    ensures forall i: nat :: i in protected <==> i < |messages| && MustStay(messages, i)
    ensures |labels| == |messages| && forall i :: 0 <= i < |messages| ==> labels[i] == LabelOf(messages, i)
  {
    protected, labels := {}, [];
    for i := 0 to |messages|
      invariant protected == set k: nat | k < i && IsExact(messages[k])
      invariant |labels| == i && forall k :: 0 <= k < i ==> labels[k] == LabelOf(messages, k)
    {
      if IsExact(messages[i]) {
        protected := protected + {i};
      }
      labels := labels + [LabelOf(messages, i)];
    }
    ghost var exact := protected;
    for i := |messages| downto 0
      invariant protected == exact
      invariant forall k :: i <= k < |messages| ==> !IsUser(messages[k])
    {
      if IsUser(messages[i]) {
        protected := protected + {i};
        assert IsLastUser(messages, i);
        break;
      }
    }
    assert protected == Protected(messages);
    forall i: nat | i < |messages| ensures i in protected <==> MustStay(messages, i) {
      ProtectedMustStay(messages, i);
    }
  }

  function Restored(original: seq<Message>, candidate: seq<Message>, protected: set<nat>): (r: seq<Message>)
    ensures |r| == |candidate|
  {
    if |candidate| != |original| then candidate
    else seq(|candidate|, i requires 0 <= i < |candidate| => if i in protected then original[i] else candidate[i])
  }

  method Restore(original: seq<Message>, candidate: seq<Message>, protected: set<nat>) returns (restored: seq<Message>)
    requires forall i :: i in protected ==> i < |original|
    ensures restored == Restored(original, candidate, protected)
    ensures |restored| == |candidate|
    ensures forall i :: 0 <= i < |restored| ==>
      restored[i] == if |candidate| == |original| && i in protected then original[i] else candidate[i]
  {
    restored := candidate;
    if |candidate| != |original| {
      return;
    }
    var todo := protected;
    while todo != {}
      invariant todo <= protected && |restored| == |candidate|
      invariant forall i :: 0 <= i < |candidate| ==>
        restored[i] == if i in protected && i !in todo then original[i] else candidate[i]
      decreases |todo|
    {
      var i :| i in todo;
      restored := restored[i := original[i]];
      todo := todo - {i};
    }
  }
}

/**
 * A whole run of the pipeline (`apply` of `pipeline.py`, prefix cache off and not strict): the read lifecycle first,
 * the snapshot of fresh reads, the chain of phases, and the inflation guard.
 *
 * A read is fresh by the classification of the original conversation, whatever became of the lifecycle phase.
 */
module WholeRun {
  import opened Prelude
  import opened Messages
  import opened Phases
  import opened Snapshots
  import opened Pipeline
  import opened ReadLifecycle
  import RiskPolicy

  const LIFECYCLE: string := "read_lifecycle"

  /** What a run is configured with; `disabled` are the phases that calibration turned off. */
  datatype Setup = Setup(
    config: ReadLifecycle.Config, store: Store, riskPolicyEnabled: bool, phases: seq<Phase>, disabled: set<string>,
    tokens: Content -> int, count: seq<Message> -> int)

  /* ---------- The run as a function ---------- */

  /** The lifecycle phase is on, and no call makes it raise. */
  predicate LifecycleRuns(messages: seq<Message>, s: Setup) { LIFECYCLE !in s.disabled && !Raises(messages, s.config) }

  function ProtectedIn(messages: seq<Message>, s: Setup): set<nat> {
    if s.riskPolicyEnabled then RiskPolicy.Protected(messages) else {}
  }

  /** What `run_read_lifecycle` proposes: rewritten reads, with protected messages put back. */
  function LifecycleProposal(messages: seq<Message>, s: Setup): Option<seq<Message>> {
    if LIFECYCLE in s.disabled then Some(messages)
    else if Raises(messages, s.config) then None
    else Some(RiskPolicy.Restored(messages, Managed(messages, s.config, s.store), ProtectedIn(messages, s)))
  }

  function LifecycleOutcome(messages: seq<Message>, s: Setup): Outcome {
    Run(LIFECYCLE, messages, LifecycleProposal(messages, s), false, s.count)
  }

  function AfterLifecycle(messages: seq<Message>, s: Setup): seq<Message> { LifecycleOutcome(messages, s).messages }

  /** The ids whose results are captured. */
  function KnownFresh(messages: seq<Message>, s: Setup): set<string> {
    if LifecycleRuns(messages, s) then FreshReads(messages, s.config) else {}
  }

  function ContextOf(messages: seq<Message>, s: Setup): Context {
    Context(messages, ProtectedIn(messages, s), Snapshot(AfterLifecycle(messages, s), KnownFresh(messages, s)),
            s.disabled, s.tokens, s.count)
  }

  function Chained(messages: seq<Message>, s: Setup): seq<Message> {
    RunPhases(s.phases, AfterLifecycle(messages, s), ContextOf(messages, s))
  }

  /** The inflation guard reverts the run. */
  predicate IsReverted(messages: seq<Message>, s: Setup) { s.count(Chained(messages, s)) > s.count(messages) }

  function Final(messages: seq<Message>, s: Setup): seq<Message> {
    if IsReverted(messages, s) then messages else Chained(messages, s)
  }

  function AllReports(messages: seq<Message>, s: Setup): seq<Report> {
    [LifecycleOutcome(messages, s).report] + Reports(s.phases, AfterLifecycle(messages, s), ContextOf(messages, s))
  }

  /* ---------- The pipeline object ---------- */

  method ProposeLifecycle(messages: seq<Message>, s: Setup, protected: set<nat>)
    returns (proposal: Option<seq<Message>>, freshIds: set<string>)
    requires protected == ProtectedIn(messages, s)
    ensures proposal == LifecycleProposal(messages, s) && freshIds == KnownFresh(messages, s)
  {
    proposal, freshIds := Some(messages), {};
    if LIFECYCLE !in s.disabled {
      proposal, freshIds := ManageReads(messages, s.config, s.store);
      if proposal.Some? {
        var restored := RiskPolicy.Restore(messages, proposal.value, protected);
        proposal := Some(restored);
      }
    }
  }

  class TransformPipeline {
    var reports: seq<Report>
    var applied: seq<string>

    constructor ()
      ensures reports == [] && applied == []
    {
      reports, applied := [], [];
    }

    /** `_run_phase`: restores after the transform, runs the contract, and records what happened. */
    method RunOne(p: Phase, messages: seq<Message>, ctx: Context) returns (result: seq<Message>)
      requires forall i :: i in ctx.protected ==> i < |ctx.original|
      modifies this
      ensures result == RunPhase(p, messages, ctx).messages
      ensures reports == old(reports) + [RunPhase(p, messages, ctx).report]
      ensures applied == old(applied) + if result != messages then [p.transformName] else []
    {
      var proposal: Option<seq<Message>> := Some(messages);
      if p.transformName !in ctx.disabled {
        proposal := p.transform(messages);
        if proposal.Some? {
          var out := proposal.value;
          match p.guard {
            case ReadsOnly => out := RestoreReadResults(out, ctx.snapshots);
            case SavingOnly => out := PreservePhaseSafe(messages, out, ctx.snapshots, ctx.tokens);
            case WithPolicy =>
              out := RestoreReadResults(out, ctx.snapshots);
              out := RiskPolicy.Restore(ctx.original, out, ctx.protected);
            case Unguarded =>
          }
          proposal := Some(out);
        }
      }
      var outcome := Run(p.name, messages, proposal, p.allowInflation, ctx.count);
      reports := reports + [outcome.report];
      if outcome.report.status.Applied? {
        applied := applied + [p.transformName];
      }
      result := outcome.messages;
    }

    /** The chain of phases, each fed with what the last one left. */
    method RunChain(phases: seq<Phase>, messages: seq<Message>, ctx: Context) returns (result: seq<Message>)
      requires forall i :: i in ctx.protected ==> i < |ctx.original|
      modifies this
      ensures result == RunPhases(phases, messages, ctx)
      ensures reports == old(reports) + Reports(phases, messages, ctx)
    {
      result := messages;
      for k := 0 to |phases|
        invariant result == RunPhases(phases[..k], messages, ctx)
        invariant reports == old(reports) + Reports(phases[..k], messages, ctx)
      {
        assert phases[..k + 1][..k] == phases[..k];
        result := RunOne(phases[k], result, ctx);
      }
      assert phases[..|phases|] == phases;
    }

    /** `apply`; an empty conversation is returned at once. */
    method Apply(messages: seq<Message>, s: Setup) returns (result: seq<Message>)
      modifies this
      ensures result == Final(messages, s)
      ensures messages != [] ==> reports == AllReports(messages, s)
    {
      if messages == [] {
        EmptyStaysEmpty(s);
        return [];
      }
      var protected: set<nat> := {};
      if s.riskPolicyEnabled {
        var labels;
        protected, labels := RiskPolicy.Assess(messages);
      }
      var proposal, freshIds := ProposeLifecycle(messages, s, protected);
      var outcome := Run(LIFECYCLE, messages, proposal, false, s.count);
      reports, applied := [outcome.report], if outcome.report.status.Applied? then [LIFECYCLE] else [];
      var snapshots := SnapshotReadResults(outcome.messages, freshIds);
      var ctx := Context(messages, protected, snapshots, s.disabled, s.tokens, s.count);
      result := RunChain(s.phases, outcome.messages, ctx);
      if s.count(result) > s.count(messages) {
        result := messages;
      }
    }
  }

  lemma EmptyStaysEmpty(s: Setup)
    ensures Final([], s) == []
  {
    ChainAccounts(s.phases, AfterLifecycle([], s), ContextOf([], s));
  }

  /* ---------- What the risk policy protects ---------- */

  /** With the risk policy on, the lifecycle phase leaves every protected message as it was, in every outcome. */
  lemma ProtectedStay(messages: seq<Message>, s: Setup, i: nat)
    requires s.riskPolicyEnabled && i < |messages| && RiskPolicy.MustStay(messages, i)
    ensures |AfterLifecycle(messages, s)| == |messages| && AfterLifecycle(messages, s)[i] == messages[i]
  {
    RiskPolicy.ProtectedMustStay(messages, i);
  }

  /** Every other message is what the rewriting of reads makes of it, when the phase is applied. */
  lemma OthersAreManaged(messages: seq<Message>, s: Setup, i: nat)
    requires LifecycleOutcome(messages, s).report.status.Applied?
    requires i < |messages| && (s.riskPolicyEnabled ==> !RiskPolicy.MustStay(messages, i))
    ensures LifecycleRuns(messages, s)
    ensures AfterLifecycle(messages, s)[i] == Managed(messages, s.config, s.store)[i]
  {
    RiskPolicy.ProtectedMustStay(messages, i);
  }

  /** A phase with the policy guard that is applied puts every protected message back as the run got it. */
  lemma PolicyPhaseProtects(messages: seq<Message>, s: Setup, p: Phase, before: seq<Message>, i: nat)
    requires s.riskPolicyEnabled && |before| == |messages| && i < |messages| && RiskPolicy.MustStay(messages, i)
    requires p.guard.WithPolicy? && RunPhase(p, before, ContextOf(messages, s)).report.status.Applied?
    ensures RunPhase(p, before, ContextOf(messages, s)).messages[i] == messages[i]
  {
    RiskPolicy.ProtectedMustStay(messages, i);
    AppliedPhase(p, before, ContextOf(messages, s));
  }

  /* ---------- Fresh reads survive whole runs ---------- */

  lemma PolicyKeeps(messages: seq<Message>, rewritten: seq<Message>, protected: set<nat>, ids: set<string>)
    requires SamePayloads(messages, rewritten, ids)
    ensures SamePayloads(messages, RiskPolicy.Restored(messages, rewritten, protected), ids)
  {
    var restored := RiskPolicy.Restored(messages, rewritten, protected);
    forall i | 0 <= i < |messages| ensures SamePayload(messages[i], restored[i], ids) {
      assert SamePayload(messages[i], rewritten[i], ids);
    }
  }

  /** Restoring protected messages, and rejecting the whole rewrite, both keep fresh payloads. */
  lemma LifecycleKeeps(messages: seq<Message>, s: Setup)
    requires LifecycleRuns(messages, s) ==> NoneWraps(messages, s.config, s.store)
    ensures SamePayloads(messages, AfterLifecycle(messages, s), FreshReads(messages, s.config))
  {
    if LifecycleRuns(messages, s) {
      FreshPayloadsKept(messages, s.config, s.store);
      PolicyKeeps(messages, Managed(messages, s.config, s.store), ProtectedIn(messages, s),
          FreshReads(messages, s.config));
    }
  }

  ghost predicate PhasesAreSafe(phases: seq<Phase>, ids: set<string>) { forall p :: p in phases ==> IsSafe(p, ids) }

  /**
   * When the lifecycle phase ran, every result of a fresh read is in the final messages as it was, for any sequence of
   * phases, each applied, skipped, rejected, failed or disabled, and also when the run is reverted.
   */
  lemma FreshSurvive(messages: seq<Message>, s: Setup)
    requires LifecycleRuns(messages, s) && NoneWraps(messages, s.config, s.store)
    requires Consistent(messages, FreshReads(messages, s.config))
    requires PhasesAreSafe(s.phases, FreshReads(messages, s.config))
    ensures SamePayloads(messages, Final(messages, s), FreshReads(messages, s.config))
  {
    var ids := FreshReads(messages, s.config);
    LifecycleKeeps(messages, s);
    SnapshotServes(messages, AfterLifecycle(messages, s), ids);
    ChainKeeps(s.phases, AfterLifecycle(messages, s), ContextOf(messages, s), ids);
  }

  /* ---------- When the lifecycle phase did not run ---------- */

  /** A result of one of the calls has something in it that a transform may rewrite. */
  ghost predicate HasRewritable(messages: seq<Message>, ids: set<string>) {
    exists i, k: nat :: 0 <= i < |messages| && IsRewritable(messages[i], k, ids)
  }

  predicate IsRewritable(m: Message, k: nat, ids: set<string>) {
    || (IsResult(m, ids) && m.content != Blocks([]))
    || (m.content.Blocks? && k < |m.content.blocks| && IsResultBlock(m.content.blocks[k], ids))
  }

  /** A transform that empties every text, and puts a text where there is none. */
  function BlankPayload(c: Content): Content { if c == Text("") then Absent else Text("") }

  function BlankBlock(b: Block): Block {
    match b
    case TextBlock(text) => TextBlock(if text == "" then " " else "")
    case ToolUse(_) => OtherBlock("", None, Absent)
    case ToolResult(id, payload) => ToolResult(id, BlankPayload(payload))
    case OtherBlock(_, _, _) => TextBlock("")
  }

  function BlankMessage(m: Message): Message {
    match m.content
    case Blocks(blocks) => m.(content := Blocks(seq(|blocks|, k requires 0 <= k < |blocks| => BlankBlock(blocks[k]))))
    case _ => m.(content := BlankPayload(m.content))
  }

  function Blanked(messages: seq<Message>): (r: seq<Message>)
    ensures |r| == |messages|
  {
    seq(|messages|, i requires 0 <= i < |messages| => BlankMessage(messages[i]))
  }

  function BlankPhase(name: string): Phase { Phase(name, name, ReadsOnly, ms => Some(Blanked(ms)), false) }

  lemma BlankingIsSafe(name: string, ids: set<string>)
    ensures IsSafe(BlankPhase(name), ids)
  {
    forall ms: seq<Message>, i | 0 <= i < |ms| ensures SameShape(ms[i], Blanked(ms)[i]) {}
  }

  lemma BlankingLoses(messages: seq<Message>, ids: set<string>)
    requires HasRewritable(messages, ids)
    ensures !SamePayloads(messages, Blanked(messages), ids)
  {
    var i, k: nat :| 0 <= i < |messages| && IsRewritable(messages[i], k, ids);
    BlankingLosesAt(messages[i], k, ids);
    assert Blanked(messages)[i] == BlankMessage(messages[i]);
  }

  lemma BlankingLosesAt(m: Message, k: nat, ids: set<string>)
    requires IsRewritable(m, k, ids)
    ensures !SamePayload(m, BlankMessage(m), ids)
  {
    if m.content.Blocks? {
      var blocks := m.content.blocks;
      var blank := BlankMessage(m).content.blocks;
      assert forall j :: 0 <= j < |blocks| ==> blank[j] == BlankBlock(blocks[j]) != blocks[j];
      assert blocks != [] && blank[0] != blocks[0];
    }
  }

  lemma {:induction false} NothingCaptured(messages: seq<Message>)
    ensures Snapshot(messages, {}) == map[]
  {
    if messages != [] {
      var n := |messages| - 1;
      NothingCaptured(messages[..n]);
      if messages[n].content.Blocks? {
        NoBlocksCaptured(messages[n].content.blocks);
      }
    }
  }

  lemma {:induction false} NoBlocksCaptured(blocks: seq<Block>)
    ensures SnapshotBlocks(blocks, {}) == map[]
  {
    if blocks != [] {
      NoBlocksCaptured(blocks[..|blocks| - 1]);
    }
  }

  lemma NothingRestored(messages: seq<Message>)
    ensures RestoreReads(messages, map[]) == messages
  {
    forall i | 0 <= i < |messages| ensures RestoreMessage(messages[i], map[]) == messages[i] {
      if messages[i].content.Blocks? {
        assert RestoreMessage(messages[i], map[]).content.blocks == messages[i].content.blocks;
      }
    }
  }

  /**
   * The lifecycle phase was disabled or raised: one phase that rewrites, is allowed to and adds no tokens loses a
   * fresh read, because nothing was captured.
   */
  lemma LifecycleFailureLosesReads(messages: seq<Message>, s: Setup, name: string)
    requires !LifecycleRuns(messages, s) && HasRewritable(messages, FreshReads(messages, s.config))
    requires s.phases == [BlankPhase(name)] && name !in s.disabled
    requires s.count(Blanked(messages)) <= s.count(messages)
    ensures Final(messages, s) == Blanked(messages)
    ensures !SamePayloads(messages, Final(messages, s), FreshReads(messages, s.config))
  {
    FinalIsBlanked(messages, s, name);
    BlankingLoses(messages, FreshReads(messages, s.config));
  }

  lemma FinalIsBlanked(messages: seq<Message>, s: Setup, name: string)
    requires !LifecycleRuns(messages, s)
    requires s.phases == [BlankPhase(name)] && name !in s.disabled
    requires s.count(Blanked(messages)) <= s.count(messages)
    ensures Final(messages, s) == Blanked(messages)
  {
    NothingCaptured(messages);
    assert AfterLifecycle(messages, s) == messages;
    BlankPhaseBlanks(messages, ContextOf(messages, s), name);
  }

  lemma BlankPhaseBlanks(messages: seq<Message>, ctx: Context, name: string)
    requires ctx.snapshots == map[] && name !in ctx.disabled && ctx.count(Blanked(messages)) <= ctx.count(messages)
    ensures RunPhases([BlankPhase(name)], messages, ctx) == Blanked(messages)
  {
    NothingRestored(Blanked(messages));
    OnePhase(BlankPhase(name), messages, ctx);
  }

  lemma OnePhase(p: Phase, messages: seq<Message>, ctx: Context)
    ensures RunPhases([p], messages, ctx) == RunPhase(p, messages, ctx).messages
  {
    assert RunPhases([p][..0], messages, ctx) == messages;
  }

  /* ---------- Exactly when fresh reads always survive ---------- */

  /**
   * A setup with this lifecycle configuration and size of texts, the lifecycle phase off or on, and phases that keep
   * roles and ids.
   */
  ghost predicate IsSetup(s: Setup, messages: seq<Message>, config: ReadLifecycle.Config, size: string -> int,
      off: bool) {
    && s.config == config && s.store.byteSize == size && (LIFECYCLE in s.disabled <==> off)
    && PhasesAreSafe(s.phases, FreshReads(messages, config))
  }

  ghost predicate Survives(messages: seq<Message>, s: Setup) {
    SamePayloads(messages, Final(messages, s), FreshReads(messages, s.config))
  }

  ghost predicate AlwaysSurvives(
      messages: seq<Message>, config: ReadLifecycle.Config, size: string -> int, off: bool) {
    forall s: Setup :: IsSetup(s, messages, config, size, off) ==> Survives(messages, s)
  }

  /** Without anything to rewrite, keeping the shape keeps the payloads. */
  lemma ShapeIsEnough(messages: seq<Message>, result: seq<Message>, ids: set<string>)
    requires SamePayloads(messages, result, {}) && !HasRewritable(messages, ids)
    ensures SamePayloads(messages, result, ids)
  {
    forall i | 0 <= i < |messages| ensures SamePayload(messages[i], result[i], ids) {
      assert SamePayload(messages[i], result[i], {});
      forall k: nat ensures !IsRewritable(messages[i], k, ids) {}
      NotRewritable(messages[i], result[i], ids);
    }
  }

  lemma NotRewritable(m: Message, n: Message, ids: set<string>)
    requires SameShape(m, n) && forall k: nat :: !IsRewritable(m, k, ids)
    ensures SamePayload(m, n, ids)
  {
    assert !IsRewritable(m, 0, ids);
    if IsResult(m, ids) {
      assert m.content == Blocks([]) && n.content.blocks == [];
    }
    if m.content.Blocks? {
      forall k: nat | k < |m.content.blocks| ensures !IsResultBlock(m.content.blocks[k], ids) {
        assert !IsRewritable(m, k, ids);
      }
    }
  }

  lemma EmptyKnown(m: Message, ids: set<string>, payloads: Payloads)
    requires forall k: nat :: !IsRewritable(m, k, ids)
    requires payloads.Keys == ids && forall id :: id in ids ==> payloads[id] == Blocks([])
    ensures Known(m, ids, payloads)
  {
    assert !IsRewritable(m, 0, ids);
    if m.content.Blocks? {
      forall k: nat | k < |m.content.blocks| ensures !IsResultBlock(m.content.blocks[k], ids) {
        assert !IsRewritable(m, k, ids);
      }
    }
  }

  lemma NothingToAgreeOn(messages: seq<Message>, ids: set<string>)
    requires !HasRewritable(messages, ids)
    ensures Agree(messages, ids)
  {
    var payloads := map id | id in ids :: Blocks([]);
    forall i | 0 <= i < |messages| ensures Known(messages[i], ids, payloads) {
      forall k: nat ensures !IsRewritable(messages[i], k, ids) {}
      EmptyKnown(messages[i], ids, payloads);
    }
    assert AllKnown(messages, ids, payloads);
  }

  lemma NothingWraps(messages: seq<Message>, config: ReadLifecycle.Config, store: Store)
    requires !HasRewritable(messages, FreshReads(messages, config))
    ensures NoneWraps(messages, config, store)
  {
    forall i | 0 <= i < |messages| ensures !WrapsReplaced(messages[i], messages, config, store) {
      assert !IsRewritable(messages[i], 0, FreshReads(messages, config));
    }
  }

  lemma SafeForFewer(phases: seq<Phase>, ids: set<string>, fewer: set<string>)
    requires PhasesAreSafe(phases, ids) && fewer <= ids
    ensures PhasesAreSafe(phases, fewer)
  {
    forall p | p in phases ensures IsSafe(p, fewer) {
      if p.guard.Unguarded? {
        forall ms | p.transform(ms).Some? && |p.transform(ms).value| == |ms|
          ensures SamePayloads(ms, p.transform(ms).value, fewer)
        {
          SamePayloadsFewer(ms, p.transform(ms).value, ids, fewer);
        }
      }
    }
  }

  /** A chain without snapshots still keeps roles, ids and blocks. */
  lemma ShapeKept(phases: seq<Phase>, messages: seq<Message>, ctx: Context)
    requires ctx.original == messages && ctx.snapshots == map[] && PhasesAreSafe(phases, {})
    ensures SamePayloads(messages, RunPhases(phases, messages, ctx), {})
  {
    assert AllMatch(messages, {}, map[]);
    ChainKeeps(phases, messages, ctx, {});
  }

  lemma ShapeSurvives(messages: seq<Message>, s: Setup)
    requires !LifecycleRuns(messages, s) && PhasesAreSafe(s.phases, FreshReads(messages, s.config))
    ensures SamePayloads(messages, Final(messages, s), {})
  {
    NothingCaptured(messages);
    SafeForFewer(s.phases, FreshReads(messages, s.config), {});
    ShapeKept(s.phases, messages, ContextOf(messages, s));
  }

  /** Results with the same id disagree: capturing and restoring alone changes one of them. */
  lemma DisagreementLosesReads(messages: seq<Message>, s: Setup, name: string)
    requires LifecycleRuns(messages, s) && !Consistent(messages, FreshReads(messages, s.config))
    requires s.phases == [IdentityPhase(name)] && name !in s.disabled
    requires AfterLifecycle(messages, s) == messages && forall ms :: s.count(ms) == 0
    ensures !Survives(messages, s)
  {
    OnePhase(s.phases[0], messages, ContextOf(messages, s));
    RestoringIsFaithful(messages, FreshReads(messages, s.config));
  }

  function IdentityPhase(name: string): Phase { Phase(name, name, ReadsOnly, ms => Some(ms), false) }

  /** No risk policy, and a count that is always zero. */
  function PlainSetup(config: ReadLifecycle.Config, store: Store, phases: seq<Phase>, off: bool): Setup {
    Setup(config, store, false, phases, if off then {LIFECYCLE} else {}, _ => 0, _ => 0)
  }

  /** A store that accepts nothing, or gives every text the same hash. */
  function PlainStore(hash: Option<string>, size: string -> int): Store { Store((_, _) => hash, size) }

  /** Without a risk policy and with equal counts the lifecycle phase leaves what it makes of the reads. */
  lemma PlainLifecycle(messages: seq<Message>, s: Setup)
    requires LifecycleRuns(messages, s) && !s.riskPolicyEnabled && forall ms :: s.count(ms) == 0
    ensures AfterLifecycle(messages, s) == Managed(messages, s.config, s.store)
  {
    var managed := Managed(messages, s.config, s.store);
    var restored := RiskPolicy.Restored(messages, managed, ProtectedIn(messages, s));
    assert restored == managed;
  }

  lemma NothingStored(messages: seq<Message>, config: ReadLifecycle.Config, store: Store)
    requires forall text, c :: store.persist(text, c).None?
    ensures Managed(messages, config, store) == messages
  {
    var managed := Managed(messages, config, store);
    forall i | 0 <= i < |messages| ensures managed[i] == messages[i] {
      NotStored(messages[i], Replacements(ReadsOf(messages, config)), config, store);
    }
  }

  lemma NotStored(m: Message, r: Replacing, config: ReadLifecycle.Config, store: Store)
    requires forall text, c :: store.persist(text, c).None?
    ensures ReplaceMessage(m, r, config, store) == m
  {
    if m.content.Blocks? {
      assert ReplaceBlocks(m.content.blocks, r, config, store) == m.content.blocks;
    }
  }

  /** The tool message is the result of a fresh read, and its block `k` a replaced result that is not tiny. */
  predicate WrapsAt(m: Message, k: nat, messages: seq<Message>, config: ReadLifecycle.Config, size: string -> int) {
    && IsResult(m, FreshReads(messages, config)) && m.content.Blocks? && k < |m.content.blocks|
    && var b := m.content.blocks[k];
       b.ToolResult? && b.payload.Text? && b.toolUseId in Replacements(ReadsOf(messages, config))
       && size(b.payload.text) >= config.minSizeBytes
  }

  ghost predicate WrapsSome(messages: seq<Message>, config: ReadLifecycle.Config, size: string -> int) {
    exists i, k: nat :: 0 <= i < |messages| && WrapsAt(messages[i], k, messages, config, size)
  }

  lemma WrapsOnlyThese(messages: seq<Message>, config: ReadLifecycle.Config, store: Store)
    requires !WrapsSome(messages, config, store.byteSize)
    ensures NoneWraps(messages, config, store)
  {
    forall m | m in messages ensures !WrapsReplaced(m, messages, config, store) {
      var i :| 0 <= i < |messages| && messages[i] == m;
      forall k: nat ensures !WrapsAt(messages[i], k, messages, config, store.byteSize) {}
      NotWrapped(m, messages, config, store);
    }
  }

  lemma NotWrapped(m: Message, messages: seq<Message>, config: ReadLifecycle.Config, store: Store)
    requires forall k: nat :: !WrapsAt(m, k, messages, config, store.byteSize)
    ensures !WrapsReplaced(m, messages, config, store)
  {
    if IsResult(m, FreshReads(messages, config)) && m.content.Blocks? {
      forall k: nat | k < |m.content.blocks|
        ensures !BlockChanges(m.content.blocks[k], Replacements(ReadsOf(messages, config)), config, store)
      {
        assert !WrapsAt(m, k, messages, config, store.byteSize);
      }
    }
  }

  lemma MarkersDiffer(c: Classification, text: string)
    ensures Marker(c, "") != text || Marker(c, "x") != text
  {
    assert |Marker(c, "")| != |Marker(c, "x")|;
  }

  /** The hash with which the wrapped text is not its own marker already. */
  lemma SomeHashWraps(messages: seq<Message>, config: ReadLifecycle.Config, size: string -> int, i: nat, k: nat)
      returns (hash: string)
    requires i < |messages| && WrapsAt(messages[i], k, messages, config, size)
    ensures !NoneWraps(messages, config, PlainStore(Some(hash), size))
  {
    var m, r := messages[i], Replacements(ReadsOf(messages, config));
    hash := SomeHashChanges(m.content.blocks[k], r, config, size);
    assert m in messages && WrapsReplaced(m, messages, config, PlainStore(Some(hash), size));
  }

  lemma SomeHashChanges(b: Block, r: Replacing, config: ReadLifecycle.Config, size: string -> int)
      returns (hash: string)
    requires b.ToolResult? && b.payload.Text? && b.toolUseId in r && size(b.payload.text) >= config.minSizeBytes
    ensures BlockChanges(b, r, config, PlainStore(Some(hash), size))
  {
    MarkersDiffer(r[b.toolUseId], b.payload.text);
    hash := if Marker(r[b.toolUseId], "") != b.payload.text then "" else "x";
  }

  /**
   * Every setup keeps every fresh read exactly when: the lifecycle phase runs (it is on, and no call makes it raise),
   * results with the same id are consistent, and no fresh result wraps a replaced one; or the phase does not run, and
   * there is no result of a fresh read to rewrite.
   */
  lemma FreshSurviveExactly(messages: seq<Message>, config: ReadLifecycle.Config, size: string -> int, off: bool)
    ensures AlwaysSurvives(messages, config, size, off) <==>
      if off || Raises(messages, config) then !HasRewritable(messages, FreshReads(messages, config))
      else Consistent(messages, FreshReads(messages, config)) && !WrapsSome(messages, config, size)
  {
    var ids := FreshReads(messages, config);
    if off || Raises(messages, config) {
      if HasRewritable(messages, ids) {
        BlankSetupFails(messages, config, size, off);
      } else {
        forall s: Setup | IsSetup(s, messages, config, size, off) ensures Survives(messages, s) {
          SurvivesWithout(messages, s);
        }
      }
    } else if !Consistent(messages, ids) {
      IdentitySetupFails(messages, config, size);
    } else if WrapsSome(messages, config, size) {
      WrappingSetupFails(messages, config, size);
    } else {
      forall s: Setup | IsSetup(s, messages, config, size, off) ensures Survives(messages, s) {
        WrapsOnlyThese(messages, config, s.store);
        FreshSurvive(messages, s);
      }
    }
  }

  /** Without a fresh result to rewrite, nothing else is needed. */
  lemma SurvivesWithout(messages: seq<Message>, s: Setup)
    requires PhasesAreSafe(s.phases, FreshReads(messages, s.config))
    requires !HasRewritable(messages, FreshReads(messages, s.config))
    ensures Survives(messages, s)
  {
    if LifecycleRuns(messages, s) {
      NothingToAgreeOn(messages, FreshReads(messages, s.config));
      AgreeIsConsistent(messages, FreshReads(messages, s.config));
      NothingWraps(messages, s.config, s.store);
      FreshSurvive(messages, s);
    } else {
      ShapeSurvives(messages, s);
      ShapeIsEnough(messages, Final(messages, s), FreshReads(messages, s.config));
    }
  }

  lemma BlankSetupFails(messages: seq<Message>, config: ReadLifecycle.Config, size: string -> int, off: bool)
    requires (off || Raises(messages, config)) && HasRewritable(messages, FreshReads(messages, config))
    ensures !AlwaysSurvives(messages, config, size, off)
  {
    var s := PlainSetup(config, PlainStore(None, size), [BlankPhase("p")], off);
    assert "p"[0] != LIFECYCLE[0];
    BlankingIsSafe("p", FreshReads(messages, config));
    LifecycleFailureLosesReads(messages, s, "p");
    assert IsSetup(s, messages, config, size, off);
  }

  lemma IdentitySetupFails(messages: seq<Message>, config: ReadLifecycle.Config, size: string -> int)
    requires !Raises(messages, config) && !Consistent(messages, FreshReads(messages, config))
    ensures !AlwaysSurvives(messages, config, size, false)
  {
    var s := PlainSetup(config, PlainStore(None, size), [IdentityPhase("p")], false);
    PlainLifecycle(messages, s);
    NothingStored(messages, config, s.store);
    DisagreementLosesReads(messages, s, "p");
    assert IsSetup(s, messages, config, size, false);
  }

  lemma WrappingSetupFails(messages: seq<Message>, config: ReadLifecycle.Config, size: string -> int)
    requires !Raises(messages, config) && WrapsSome(messages, config, size)
    ensures !AlwaysSurvives(messages, config, size, false)
  {
    var i, k: nat :| 0 <= i < |messages| && WrapsAt(messages[i], k, messages, config, size);
    var hash := SomeHashWraps(messages, config, size, i, k);
    var s := PlainSetup(config, PlainStore(Some(hash), size), [], false);
    PlainLifecycle(messages, s);
    FreshPayloadsKept(messages, config, s.store);
    NothingAfterLifecycle(messages, s);
    assert IsSetup(s, messages, config, size, false) && !Survives(messages, s);
  }

  lemma NothingAfterLifecycle(messages: seq<Message>, s: Setup)
    requires s.phases == [] && forall ms :: s.count(ms) == 0
    ensures Final(messages, s) == AfterLifecycle(messages, s)
  {}

  /* ---------- What stands beside a superseded marker ---------- */

  /**
   * After a whole run a superseded read has a covering result beside it, verbatim in the final messages, exactly when
   * some covering fresh read was answered; a covering fresh read itself is always there.
   */
  lemma SupersededBesideVerbatim(messages: seq<Message>, s: Setup, c: Classification)
      returns (read: FileOp, keeper: FileOp)
    requires LifecycleRuns(messages, s) && NoneWraps(messages, s.config, s.store)
    requires Consistent(messages, FreshReads(messages, s.config))
    requires PhasesAreSafe(s.phases, FreshReads(messages, s.config))
    requires c in ReadsOf(messages, s.config) && c.state.Superseded?
    ensures IsReadBehind(messages, s.config, c, read) && Supersedes(keeper, read)
        && IsCover(messages, s.config, c, keeper)
    ensures IsLineRange(read) ==> HasLinesOf(keeper, read)
    ensures HasVerbatimCover(messages, Final(messages, s), s.config, c) <==> HasAnsweredCover(messages, s.config, c)
  {
    read, keeper := SupersededBesideFresh(messages, s.config, c);
    FreshSurvive(messages, s);
    CoverIsVerbatim(messages, Final(messages, s), s.config, c);
  }

  /** Every final message or block that carries a superseded marker has a verbatim covering result beside it. */
  ghost predicate MarkersAreCovered(messages: seq<Message>, result: seq<Message>, config: ReadLifecycle.Config) {
    forall c, i, k: nat, hash :: 0 <= i < |result| && IsSupersededMarker(messages, config, c, result[i], k, hash) ==>
      HasVerbatimCover(messages, result, config, c)
  }

  ghost predicate IsSupersededMarker(
      messages: seq<Message>, config: ReadLifecycle.Config, c: Classification, m: Message, k: nat, hash: string) {
    c in ReadsOf(messages, config) && c.state.Superseded? && MarkerAt(m, k, c, hash)
  }

  /** So no marker stands alone when every superseded read has an answered cover. */
  lemma MarkersSitBesideReads(messages: seq<Message>, s: Setup)
    requires LifecycleRuns(messages, s) && NoneWraps(messages, s.config, s.store)
    requires Consistent(messages, FreshReads(messages, s.config))
    requires PhasesAreSafe(s.phases, FreshReads(messages, s.config))
    requires forall c :: c in ReadsOf(messages, s.config) && c.state.Superseded? ==>
        HasAnsweredCover(messages, s.config, c)
    ensures MarkersAreCovered(messages, Final(messages, s), s.config)
  {
    var result := Final(messages, s);
    forall c, i, k: nat, hash | 0 <= i < |result| && IsSupersededMarker(messages, s.config, c, result[i], k, hash)
      ensures HasVerbatimCover(messages, result, s.config, c)
    {
      var read, keeper := SupersededBesideVerbatim(messages, s, c);
    }
  }

  /* ---------- Token accounting, and the standard pipeline ---------- */

  /** All deltas add up, the result has no more tokens, and only an inflating phase can cause a reversal. */
  lemma RunAccounts(messages: seq<Message>, s: Setup)
    ensures SumDeltas(AllReports(messages, s)) == s.count(Chained(messages, s)) - s.count(messages)
    ensures |Final(messages, s)| == |messages| && s.count(Final(messages, s)) <= s.count(messages)
    ensures (forall p :: p in s.phases ==> !p.allowInflation) ==> !IsReverted(messages, s)
  {
    var ctx, current := ContextOf(messages, s), AfterLifecycle(messages, s);
    ChainAccounts(s.phases, current, ctx);
    SumDeltasCons(LifecycleOutcome(messages, s).report, Reports(s.phases, current, ctx));
  }

  ghost predicate IsStandard(s: Setup, enabled: set<string>, transforms: Transforms, inj: Injector) {
    s.phases == StandardPhases(enabled, transforms, inj) && forall name :: KeepsShape(transforms(name))
  }

  lemma LastPhase(phases: seq<Phase>, p: Phase, messages: seq<Message>, ctx: Context)
    ensures var o := RunPhase(p, RunPhases(phases, messages, ctx), ctx);
      && RunPhases(phases + [p], messages, ctx) == o.messages
      && Reports(phases + [p], messages, ctx) == Reports(phases, messages, ctx) + [o.report]
  {
    assert (phases + [p])[..|phases|] == phases;
  }

  /** The last phase of a reverted standard run is the injection, and it added tokens. */
  lemma OnlyInjectionReverts(messages: seq<Message>, s: Setup, enabled: set<string>, transforms: Transforms,
      inj: Injector)
    requires IsStandard(s, enabled, transforms, inj) && IsReverted(messages, s)
    ensures INJECTION in enabled && INJECTION !in s.disabled
    ensures var last := AllReports(messages, s)[|AllReports(messages, s)| - 1];
      last.name == INJECTION && last.TokenDelta() > 0
  {
    var rewriting := EnabledPhases(REWRITING_PHASES, enabled, transforms);
    EnabledNeverInflate(REWRITING_PHASES, enabled, transforms);
    ChainAccounts(rewriting, AfterLifecycle(messages, s), ContextOf(messages, s));
    LastPhase(rewriting, InjectionPhase(inj), AfterLifecycle(messages, s), ContextOf(messages, s));
    assert rewriting + [] == rewriting;
  }

  /** With transforms that keep roles and ids, fresh reads survive, and only injection can revert the run. */
  lemma StandardRun(messages: seq<Message>, s: Setup, enabled: set<string>, transforms: Transforms, inj: Injector)
    requires IsStandard(s, enabled, transforms, inj)
    ensures s.count(Final(messages, s)) <= s.count(messages) && |Final(messages, s)| == |messages|
    ensures IsReverted(messages, s) ==> INJECTION in enabled && INJECTION !in s.disabled
    ensures (&& LifecycleRuns(messages, s) && NoneWraps(messages, s.config, s.store)
             && Consistent(messages, FreshReads(messages, s.config))) ==> Survives(messages, s)
    ensures !HasRewritable(messages, FreshReads(messages, s.config)) ==> Survives(messages, s)
  {
    var ids := FreshReads(messages, s.config);
    RunAccounts(messages, s);
    StandardPhasesAreSafe(enabled, transforms, inj, ids);
    if IsReverted(messages, s) {
      OnlyInjectionReverts(messages, s, enabled, transforms, inj);
    }
    if !HasRewritable(messages, ids) {
      SurvivesWithout(messages, s);
    } else if LifecycleRuns(messages, s) && NoneWraps(messages, s.config, s.store) && Consistent(messages, ids) {
      FreshSurvive(messages, s);
    }
  }
}

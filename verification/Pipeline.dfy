/**
 * The chain of phases (`pipeline.py`): transforms that may fail or be rejected, each behind the guard that protects
 * what it was not asked to change.
 */
module Pipeline {
  import opened Prelude
  import opened Messages
  import opened Phases
  import opened Snapshots
  import RiskPolicy

  /* ---------- Phases ---------- */

  /** How a phase protects what it was not asked to change. */
  datatype Guard = ReadsOnly | SavingOnly | WithPolicy | Unguarded

  /** A transform rewrites content; `None` stands for an exception. */
  type Transform = seq<Message> -> Option<seq<Message>>

  type Transforms = string -> Transform

  /** `name` is what reports say, `transformName` what calibration and the list of applied transforms say. */
  datatype Phase = Phase(
    name: string, transformName: string, guard: Guard, transform: Transform, allowInflation: bool)

  datatype Context = Context(
    original: seq<Message>, protected: set<nat>, snapshots: Payloads, disabled: set<string>,
    tokens: Content -> int, count: seq<Message> -> int)

  /** What the phase hands to the runner. */
  function Propose(p: Phase, before: seq<Message>, ctx: Context): Option<seq<Message>> {
    if p.transformName in ctx.disabled then Some(before)
    else match p.transform(before)
      case None => None
      case Some(out) =>
        Some(match p.guard
             case ReadsOnly => RestoreReads(out, ctx.snapshots)
             case SavingOnly => PreserveSafe(before, out, ctx.snapshots, ctx.tokens)
             case WithPolicy => RiskPolicy.Restored(ctx.original, RestoreReads(out, ctx.snapshots), ctx.protected)
             case Unguarded => out)
  }

  function RunPhase(p: Phase, before: seq<Message>, ctx: Context): Outcome {
    Run(p.name, before, Propose(p, before, ctx), p.allowInflation, ctx.count)
  }

  function RunPhases(phases: seq<Phase>, messages: seq<Message>, ctx: Context): seq<Message>
  {
    if phases == [] then messages
    else
      var n := |phases| - 1;
      RunPhase(phases[n], RunPhases(phases[..n], messages, ctx), ctx).messages
  }

  function Reports(phases: seq<Phase>, messages: seq<Message>, ctx: Context): seq<Report> {
    if phases == [] then []
    else
      var n := |phases| - 1;
      Reports(phases[..n], messages, ctx) + [RunPhase(phases[n], RunPhases(phases[..n], messages, ctx), ctx).report]
  }

  /** Each phase is fed with what the last one left, and reports in its turn. */
  lemma {:induction false} ChainStep(phases: seq<Phase>, messages: seq<Message>, ctx: Context, k: nat)
    requires k < |phases|
    ensures |Reports(phases, messages, ctx)| == |phases|
    ensures var o := RunPhase(phases[k], RunPhases(phases[..k], messages, ctx), ctx);
      RunPhases(phases[..k + 1], messages, ctx) == o.messages && Reports(phases, messages, ctx)[k] == o.report
  {
    assert phases[..k + 1][..k] == phases[..k];
    var n := |phases| - 1;
    if k < n {
      assert phases[..n][..k] == phases[..k] && phases[..n][..k + 1] == phases[..k + 1];
      ChainStep(phases[..n], messages, ctx, k);
    } else {
      assert phases[..n + 1] == phases;
      ReportCount(phases, messages, ctx);
    }
  }

  lemma {:induction false} ReportCount(phases: seq<Phase>, messages: seq<Message>, ctx: Context)
    ensures |Reports(phases, messages, ctx)| == |phases|
  {
    if phases != [] {
      ReportCount(phases[..|phases| - 1], messages, ctx);
    }
  }

  /** A phase that calibration disabled changes nothing and reports `skipped`, which counts as a success. */
  lemma DisabledPhaseSkips(p: Phase, messages: seq<Message>, ctx: Context)
    requires p.transformName in ctx.disabled
    ensures RunPhase(p, messages, ctx).messages == messages
    ensures RunPhase(p, messages, ctx).report.status == Skipped && RunPhase(p, messages, ctx).report.TokenDelta() == 0
  {}

  /* ---------- What the guards leave ---------- */

  /** Message `i` of an applied phase: what the transform made of it, as the guard of the phase lets it pass. */
  ghost predicate PassesGuard(guard: Guard, now: Message, out: Message, before: Message, ctx: Context, i: nat) {
    match guard
    case ReadsOnly => HasReadsBack(now, out, ctx.snapshots)
    case SavingOnly => HasSavingKept(now, out, Some(before.content), ctx.snapshots, ctx.tokens)
    case WithPolicy =>
      if i in ctx.protected && i < |ctx.original| then now == ctx.original[i] else HasReadsBack(now, out, ctx.snapshots)
    case Unguarded => now == out
  }

  /** An applied phase leaves the output of its transform, message by message behind its guard. */
  lemma AppliedPhase(p: Phase, before: seq<Message>, ctx: Context)
    requires |ctx.original| == |before| && RunPhase(p, before, ctx).report.status == Phases.Applied
    ensures p.transformName !in ctx.disabled && p.transform(before).Some?
    ensures var now, out := RunPhase(p, before, ctx).messages, p.transform(before).value;
      |now| == |out| == |before| &&
      forall i :: 0 <= i < |before| ==> PassesGuard(p.guard, now[i], out[i], before[i], ctx, i)
  {
    var now, out := RunPhase(p, before, ctx).messages, p.transform(before).value;
    forall i | 0 <= i < |before| ensures PassesGuard(p.guard, now[i], out[i], before[i], ctx, i) {
      ReadsArePutBack(out[i], ctx.snapshots);
      SavingIsKept(before, out, ctx.snapshots, ctx.tokens, i);
    }
  }

  /* ---------- Injection of retrieval instructions ---------- */

  datatype Injector = Injector(found: seq<Message> -> bool, instructions: seq<Message> -> string,
      rstrip: string -> string)

  function FirstSystem(messages: seq<Message>): (i: nat)
    ensures i <= |messages|
    ensures i < |messages| ==> messages[i].role == "system"
  {
    if messages == [] || messages[0].role == "system" then 0 else 1 + FirstSystem(messages[1..])
  }

  /** `inject_ccr`: instructions go into the first system message, or into a new first message. */
  function Inject(inj: Injector, messages: seq<Message>): seq<Message> {
    if !inj.found(messages) then messages
    else
      var i := FirstSystem(messages);
      if i < |messages| && messages[i].content.Text? then
        messages[i := messages[i].(content :=
            Text(inj.rstrip(messages[i].content.text) + "\n\n" + inj.instructions(messages)))]
      else [Message("system", None, [], Text(inj.instructions(messages)))] + messages
  }

  /** The instructions end the first system message, if that is a string; every other message stays. */
  lemma InstructionsArePlaced(inj: Injector, messages: seq<Message>, i: nat)
    requires inj.found(messages) && i < |messages|
    requires messages[i].role == "system" && forall k :: 0 <= k < i ==> messages[k].role != "system"
    ensures messages[i].content.Text? ==>
      var now := Inject(inj, messages);
      && |now| == |messages| && (forall k :: 0 <= k < |messages| && k != i ==> now[k] == messages[k])
      && now[i] == messages[i].(content :=
           Text(inj.rstrip(messages[i].content.text) + "\n\n" + inj.instructions(messages)))
    ensures !messages[i].content.Text? ==> |Inject(inj, messages)| == |messages| + 1
  {
    FirstSystemIs(messages, i);
  }

  lemma {:induction false} FirstSystemIs(messages: seq<Message>, i: nat)
    requires i < |messages| && messages[i].role == "system" && forall k :: 0 <= k < i ==> messages[k].role != "system"
    ensures FirstSystem(messages) == i
  {
    if i > 0 {
      FirstSystemIs(messages[1..], i - 1);
    }
  }

  const INJECTION: string := "ccr_tool_injection"

  function InjectionPhase(inj: Injector): Phase {
    Phase(INJECTION, INJECTION, Unguarded, ms => Some(Inject(inj, ms)), true)
  }

  /* ---------- The phases of a standard pipeline, in order ---------- */

  /** Report name, transform name and guard. */
  type Row = (string, string, Guard)

  const REWRITING_PHASES: seq<Row> := [
    ("output_shaper", "output_shaper", ReadsOnly), ("cache_aligner", "cache_aligner", ReadsOnly),
    ("json_canonicalization", "json_canonicalization", ReadsOnly),
    ("whitespace_canonicalization", "whitespace_canonicalization", ReadsOnly),
    ("token_normalization", "token_normalization", ReadsOnly),
    ("token_boundary_alignment", "token_boundary_alignment", ReadsOnly),
    ("sequential_normalization", "sequential_normalization", ReadsOnly),
    ("cross_turn_dedup", "cross_turn_dedup", ReadsOnly), ("semantic_dedup", "semantic_dedup", ReadsOnly),
    ("kv_cache_optimization", "kv_cache_optimization", ReadsOnly),
    ("Compression", "compress", SavingOnly), ("thinking_compactor", "thinking_compactor", WithPolicy)]

  function EnabledPhases(table: seq<Row>, enabled: set<string>, transforms: Transforms): seq<Phase> {
    if table == [] then []
    else
      var (name, transformName, guard) := table[0];
      (if transformName in enabled then [Phase(name, transformName, guard, transforms(transformName), false)] else [])
      + EnabledPhases(table[1..], enabled, transforms)
  }

  /** Phase `p` is what a row of the table describes. */
  ghost predicate IsRowOf(row: Row, p: Phase, transforms: Transforms) {
    p.name == row.0 && p.transformName == row.1 && p.guard == row.2 && p.transform == transforms(row.1)
    && !p.allowInflation
  }

  /** The enabled rows, in order. */
  function EnabledRows(table: seq<Row>, enabled: set<string>): seq<Row> {
    if table == [] then []
    else
      var n := |table| - 1;
      EnabledRows(table[..n], enabled) + if table[n].1 in enabled then [table[n]] else []
  }

  lemma {:induction false} EnabledAppend(a: seq<Row>, b: seq<Row>, enabled: set<string>, transforms: Transforms)
    ensures EnabledPhases(a + b, enabled, transforms)
         == EnabledPhases(a, enabled, transforms) + EnabledPhases(b, enabled, transforms)
  {
    if a == [] {
      assert a + b == b;
    } else {
      assert (a + b)[1..] == a[1..] + b;
      EnabledAppend(a[1..], b, enabled, transforms);
    }
  }

  /** One phase for each enabled row, in the order of the table. */
  lemma {:induction false} PhasesAreRows(table: seq<Row>, enabled: set<string>, transforms: Transforms)
    ensures |EnabledPhases(table, enabled, transforms)| == |EnabledRows(table, enabled)|
    ensures forall k :: 0 <= k < |EnabledRows(table, enabled)| ==>
      IsRowOf(EnabledRows(table, enabled)[k], EnabledPhases(table, enabled, transforms)[k], transforms)
  {
    if table != [] {
      var n := |table| - 1;
      PhasesAreRows(table[..n], enabled, transforms);
      EnabledAppend(table[..n], [table[n]], enabled, transforms);
      assert table == table[..n] + [table[n]] && [table[n]][1..] == [];
      OneRow(table[n], enabled, transforms);
    }
  }

  lemma OneRow(row: Row, enabled: set<string>, transforms: Transforms)
    ensures var phases := EnabledPhases([row], enabled, transforms);
      if row.1 in enabled then |phases| == 1 && IsRowOf(row, phases[0], transforms) else phases == []
  {
    assert [row][1..] == [];
    assert EnabledPhases([], enabled, transforms) == [];
  }

  function StandardPhases(enabled: set<string>, transforms: Transforms, inj: Injector): seq<Phase> {
    EnabledPhases(REWRITING_PHASES, enabled, transforms)
    + if INJECTION in enabled then [InjectionPhase(inj)] else []
  }

  /* ---------- Fresh reads survive every phase ---------- */

  /** The transform rewrites contents but keeps roles, ids and the blocks of a content list. */
  ghost predicate KeepsShape(t: Transform) {
    forall ms :: t(ms).Some? && |t(ms).value| == |ms| ==> forall i :: 0 <= i < |ms| ==> SameShape(ms[i], t(ms).value[i])
  }

  /** A phase is safe when its guard restores reads, or its transform leaves all results alone. */
  ghost predicate IsSafe(p: Phase, ids: set<string>) {
    if p.guard.Unguarded? then
      forall ms :: p.transform(ms).Some? && |p.transform(ms).value| == |ms| ==>
          SamePayloads(ms, p.transform(ms).value, ids)
    else KeepsShape(p.transform)
  }

  lemma PhaseKeeps(p: Phase, before: seq<Message>, ctx: Context, ids: set<string>)
    requires IsSafe(p, ids) && SamePayloads(ctx.original, before, ids)
    requires AllMatch(ctx.original, ids, ctx.snapshots) && ctx.snapshots.Keys <= ids
    ensures SamePayloads(ctx.original, RunPhase(p, before, ctx).messages, ids)
  {
    if p.transformName !in ctx.disabled && p.transform(before).Some? && |p.transform(before).value| == |before| {
      var out := p.transform(before).value;
      MatchesSame(ctx.original, before, ids, ctx.snapshots);
      if p.guard.Unguarded? {
        SamePayloadsTransitive(ctx.original, before, out, ids);
      } else {
        var restored := RestoreReads(out, ctx.snapshots);
        RestoreKeeps(before, out, ids, ctx.snapshots);
        if p.guard.SavingOnly? {
          SavingKeeps(before, out, ids, ctx);
          restored := PreserveSafe(before, out, ctx.snapshots, ctx.tokens);
        }
        SamePayloadsTransitive(ctx.original, before, restored, ids);
      }
    }
  }

  lemma SavingKeeps(before: seq<Message>, out: seq<Message>, ids: set<string>, ctx: Context)
    requires SamePayloads(before, RestoreReads(out, ctx.snapshots), ids)
    ensures SamePayloads(before, PreserveSafe(before, out, ctx.snapshots, ctx.tokens), ids)
  {
    forall i | 0 <= i < |before|
      ensures SamePayload(before[i], PreserveSafe(before, out, ctx.snapshots, ctx.tokens)[i], ids)
    {
      assert SamePayload(before[i], RestoreReads(out, ctx.snapshots)[i], ids);
    }
  }

  /** Fresh reads survive any sequence of safe phases, each applied, skipped, rejected or failed. */
  lemma {:induction false} ChainKeeps(phases: seq<Phase>, messages: seq<Message>, ctx: Context, ids: set<string>)
    requires forall p :: p in phases ==> IsSafe(p, ids)
    requires SamePayloads(ctx.original, messages, ids)
    requires AllMatch(ctx.original, ids, ctx.snapshots) && ctx.snapshots.Keys <= ids
    ensures SamePayloads(ctx.original, RunPhases(phases, messages, ctx), ids)
  {
    if phases != [] {
      var n := |phases| - 1;
      ChainKeeps(phases[..n], messages, ctx, ids);
      assert phases[n] in phases;
      PhaseKeeps(phases[n], RunPhases(phases[..n], messages, ctx), ctx, ids);
    }
  }

  /** Injection writes only into a system message, or changes the message count and is rejected. */
  lemma InjectionIsSafe(inj: Injector, ids: set<string>)
    ensures IsSafe(InjectionPhase(inj), ids)
  {
    forall ms | |Inject(inj, ms)| == |ms| ensures SamePayloads(ms, Inject(inj, ms), ids) {
      forall i | 0 <= i < |ms| ensures SamePayload(ms[i], Inject(inj, ms)[i], ids) {}
    }
  }

  /* ---------- Token accounting ---------- */

  function SumDeltas(reports: seq<Report>): int {
    if reports == [] then 0 else SumDeltas(reports[..|reports| - 1]) + reports[|reports| - 1].TokenDelta()
  }

  /** Phase deltas add up, and a gain in tokens is the work of a phase that may inflate. */
  lemma {:induction false} ChainAccounts(phases: seq<Phase>, messages: seq<Message>, ctx: Context)
    ensures SumDeltas(Reports(phases, messages, ctx))
        == ctx.count(RunPhases(phases, messages, ctx)) - ctx.count(messages)
    ensures |RunPhases(phases, messages, ctx)| == |messages|
    ensures (forall p :: p in phases ==> !p.allowInflation) ==>
        ctx.count(RunPhases(phases, messages, ctx)) <= ctx.count(messages)
  {
    if phases != [] {
      var n := |phases| - 1;
      ChainAccounts(phases[..n], messages, ctx);
      assert phases[n] in phases;
      var reports := Reports(phases, messages, ctx);
      assert reports[..|reports| - 1] == Reports(phases[..n], messages, ctx);
    }
  }

  lemma {:induction false} EnabledNeverInflate(table: seq<Row>, enabled: set<string>,
      transforms: Transforms)
    ensures forall p :: p in EnabledPhases(table, enabled, transforms) ==> !p.allowInflation
  {
    if table != [] {
      EnabledNeverInflate(table[1..], enabled, transforms);
    }
  }

  lemma {:induction false} EnabledPhasesAreSafe(
      table: seq<Row>, enabled: set<string>, transforms: Transforms, ids: set<string>)
    requires forall name :: KeepsShape(transforms(name))
    requires forall row :: row in table ==> !row.2.Unguarded?
    ensures forall p :: p in EnabledPhases(table, enabled, transforms) ==> IsSafe(p, ids)
  {
    if table != [] {
      EnabledPhasesAreSafe(table[1..], enabled, transforms, ids);
      assert table[0] in table;
    }
  }

  lemma RewritingPhasesAreGuarded()
    ensures forall row :: row in REWRITING_PHASES ==> !row.2.Unguarded?
  {}

  /** With shape-keeping transforms every standard phase is safe, and only the injection may add tokens. */
  lemma StandardPhasesAreSafe(enabled: set<string>, transforms: Transforms, inj: Injector, ids: set<string>)
    requires forall name :: KeepsShape(transforms(name))
    ensures forall p :: p in StandardPhases(enabled, transforms, inj) ==>
              IsSafe(p, ids) && (p.allowInflation ==> p == InjectionPhase(inj))
  {
    RewritingPhasesAreGuarded();
    EnabledNeverInflate(REWRITING_PHASES, enabled, transforms);
    EnabledPhasesAreSafe(REWRITING_PHASES, enabled, transforms, ids);
    InjectionIsSafe(inj, ids);
  }

  lemma {:induction false} SumDeltasCons(r: Report, reports: seq<Report>)
    ensures SumDeltas([r] + reports) == r.TokenDelta() + SumDeltas(reports)
  {
    if reports == [] {
      assert [r] + reports == [r] && [r][..0] == [];
    } else {
      var n := |reports| - 1;
      SumDeltasCons(r, reports[..n]);
      assert ([r] + reports)[..n + 1] == [r] + reports[..n];
    }
  }
}

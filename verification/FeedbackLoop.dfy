/**
 * Calibration and pipeline together: the controller's verdict decides whether a phase runs, and what the phase
 * reports, with the quality that the caller measured, is what the controller sees next.
 */
module FeedbackLoop {
  import opened Prelude
  import opened Messages
  import opened Calibration
  import Phases
  import Pipeline

  /** The status as the report spells it. */
  function StatusName(s: Phases.Status): string {
    match s
    case Applied => "applied"
    case Skipped => "skipped"
    case Rejected => "rejected"
    case Failed => "failed"
  }

  /** The loop for one phase: the controller's verdict on a window, and the rest of the pipeline's context. */
  datatype Loop = Loop(
    config: Config, gate: seq<Sample> -> bool, phase: Pipeline.Phase, context: Pipeline.Context)

  /** One request and the quality that is recorded with its reports, if any. */
  datatype Round = Round(input: seq<Message>, quality: Option<real>)

  function ContextFor(l: Loop, window: seq<Sample>): Pipeline.Context {
    l.context.(disabled := if l.gate(window) then {l.phase.transformName} else {})
  }

  /** What is recorded for a round: the phase runs as the controller allows, and its report is recorded. */
  function SampleAt(l: Loop, window: seq<Sample>, round: Round): Sample {
    var report := Pipeline.RunPhase(l.phase, round.input, ContextFor(l, window)).report;
    SampleOf(l.config, StatusName(report.status), round.quality)
  }

  function AfterRounds(l: Loop, window: seq<Sample>, rounds: seq<Round>): seq<Sample> {
    if rounds == [] then window
    else
      var before := AfterRounds(l, window, rounds[..|rounds| - 1]);
      Push(before, SampleAt(l, before, rounds[|rounds| - 1]), l.config.windowSize)
  }

  /** The samples of all rounds. */
  function Recorded(l: Loop, window: seq<Sample>, rounds: seq<Round>): (xs: seq<Sample>)
    ensures |xs| == |rounds|
  {
    if rounds == [] then []
    else
      var n := |rounds| - 1;
      Recorded(l, window, rounds[..n]) + [SampleAt(l, AfterRounds(l, window, rounds[..n]), rounds[n])]
  }

  lemma {:induction false} RoundsArePushed(l: Loop, window: seq<Sample>, rounds: seq<Round>)
    ensures AfterRounds(l, window, rounds) == PushAll(window, Recorded(l, window, rounds), l.config.windowSize)
  {
    if rounds != [] {
      RoundsArePushed(l, window, rounds[..|rounds| - 1]);
    }
  }

  /** The caller measured no quality below the minimum. */
  predicate IsGoodRound(l: Loop, round: Round) {
    round.quality.Some? ==> round.quality.value >= l.config.minimumQuality
  }

  predicate IsLowRound(l: Loop, round: Round) {
    round.quality.Some? && round.quality.value < l.config.minimumQuality
  }

  /** The round of a phase that is off is a success unless its quality is low. */
  lemma OffRoundIsSuccess(l: Loop, window: seq<Sample>, round: Round)
    requires l.gate(window)
    ensures SampleAt(l, window, round) == SampleOf(l.config, "skipped", round.quality)
    ensures SampleAt(l, window, round).success <==> IsGoodRound(l, round)
  {
    Pipeline.DisabledPhaseSkips(l.phase, round.input, ContextFor(l, window));
  }

  /** While the phase stays off, its window fills with good samples. */
  lemma {:induction false} OffRoundsAreGood(l: Loop, window: seq<Sample>, rounds: seq<Round>)
    requires forall k :: 0 <= k < |rounds| ==> IsGoodRound(l, rounds[k])
    requires forall k :: 0 <= k < |rounds| ==> l.gate(AfterRounds(l, window, rounds[..k]))
    ensures forall k :: 0 <= k < |rounds| ==> IsGood(l.config, Recorded(l, window, rounds)[k])
  {
    if rounds != [] {
      var n := |rounds| - 1;
      forall k | 0 <= k < n ensures l.gate(AfterRounds(l, window, rounds[..n][..k])) {
        assert rounds[..n][..k] == rounds[..k];
      }
      OffRoundsAreGood(l, window, rounds[..n]);
      OffRoundIsSuccess(l, AfterRounds(l, window, rounds[..n]), rounds[n]);
      QualityDecides(l.config, "skipped", rounds[n].quality);
    }
  }

  /** A low quality makes every sample low, on or off. */
  lemma {:induction false} LowRoundsAreLow(l: Loop, window: seq<Sample>, rounds: seq<Round>)
    requires forall k :: 0 <= k < |rounds| ==> IsLowRound(l, rounds[k])
    ensures forall k :: 0 <= k < |rounds| ==> IsLow(l.config, Recorded(l, window, rounds)[k])
  {
    if rounds != [] {
      LowRoundsAreLow(l, window, rounds[..|rounds| - 1]);
    }
  }

  /**
   * Whatever the requests and the transform. A phase that is off comes back on within `windowSize` rounds without a
   * low quality when a full window of successes passes the gate. When it does not pass, the phase stays off for ever,
   * whatever the qualities.
   */
  lemma OffPhaseComesBack(l: Loop, window: seq<Sample>, rounds: seq<Round>, sqrt: real -> real)
    requires IsGate(l.gate, l.config, sqrt) && |window| <= l.config.windowSize && l.gate(window)
    ensures CanRecover(l.config) && AllGood(l, rounds) && |rounds| >= l.config.windowSize ==>
      ComesBackBy(l, window, rounds, l.config.windowSize)
    ensures !CanRecover(l.config) ==> l.gate(AfterRounds(l, window, rounds))
  {
    if CanRecover(l.config) && AllGood(l, rounds) && |rounds| >= l.config.windowSize {
      var soon := rounds[..l.config.windowSize];
      GateRecovers(l.gate, l.config, window, Recorded(l, window, soon), sqrt);
      ComesBackInTime(l, window, soon);
      ComesBackSooner(l, window, rounds, l.config.windowSize);
    }
    RoundsArePushed(l, window, rounds);
    GateRecovers(l.gate, l.config, window, Recorded(l, window, rounds), sqrt);
  }

  predicate AllGood(l: Loop, rounds: seq<Round>) { forall k :: 0 <= k < |rounds| ==> IsGoodRound(l, rounds[k]) }

  /** The phase is on after one of the first `n` rounds. */
  ghost predicate ComesBackBy(l: Loop, window: seq<Sample>, rounds: seq<Round>, n: nat) {
    exists k :: 0 < k <= n && k <= |rounds| && !l.gate(AfterRounds(l, window, rounds[..k]))
  }

  lemma ComesBackSooner(l: Loop, window: seq<Sample>, rounds: seq<Round>, n: nat)
    requires n <= |rounds| && ComesBackBy(l, window, rounds[..n], n)
    ensures ComesBackBy(l, window, rounds, n)
  {
    var k :| 0 < k <= n && !l.gate(AfterRounds(l, window, rounds[..n][..k]));
    assert rounds[..n][..k] == rounds[..k];
  }

  /** If good samples in every round would bring the phase back, one of the rounds does. */
  lemma ComesBackInTime(l: Loop, window: seq<Sample>, rounds: seq<Round>)
    requires l.gate(window) && AllGood(l, rounds)
    requires (forall k :: 0 <= k < |rounds| ==> IsGood(l.config, Recorded(l, window, rounds)[k])) ==>
      !l.gate(PushAll(window, Recorded(l, window, rounds), l.config.windowSize))
    ensures ComesBackBy(l, window, rounds, |rounds|)
  {
    if !ComesBackBy(l, window, rounds, |rounds|) {
      forall k | 0 <= k < |rounds| ensures l.gate(AfterRounds(l, window, rounds[..k])) {
        assert AfterRounds(l, window, rounds[..0]) == window;
      }
      OffRoundsAreGood(l, window, rounds);
      RoundsArePushed(l, window, rounds);
      assert rounds[..|rounds|] == rounds;
    }
  }

  /** Low qualities lock the phase up, even when a full window of successes would pass, and even if it was on. */
  lemma LowQualitiesLockUp(l: Loop, window: seq<Sample>, rounds: seq<Round>, sqrt: real -> real)
    requires IsGate(l.gate, l.config, sqrt) && |window| <= l.config.windowSize
    requires |rounds| >= l.config.windowSize && forall k :: 0 <= k < |rounds| ==> IsLowRound(l, rounds[k])
    ensures l.gate(AfterRounds(l, window, rounds))
  {
    LowRoundsAreLow(l, window, rounds);
    RoundsArePushed(l, window, rounds);
    GateRecovers(l.gate, l.config, window, Recorded(l, window, rounds), sqrt);
  }
}

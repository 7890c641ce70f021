/** Whole runs that show where the promises of the pipeline end. */
module RunExamples {
  import opened Prelude
  import opened Messages
  import opened ReadLifecycle
  import opened Snapshots
  import opened ReadExamples
  import opened WholeRun
  import RiskPolicy

  /** The length of all string contents, as a token count. */
  function Characters(messages: seq<Message>): nat {
    if messages == [] then 0
    else
      var n := |messages| - 1;
      Characters(messages[..n]) + if messages[n].content.Text? then |messages[n].content.text| else 0
  }

  lemma CharactersOfThree(a: Message, b: Message, c: Message)
    requires !a.content.Text? && b.content.Text? && !c.content.Text?
    ensures Characters([a, b, c]) == |b.content.text|
  {
    assert [a, b, c][..2] == [a, b] && [a, b][..1] == [a] && [a][..0] == [];
    assert Characters([a]) == 0;
    assert Characters([a, b]) == |b.content.text|;
  }

  ghost predicate CountsCharacters(s: Setup) { forall ms :: s.count(ms) == Characters(ms) }

  /* ---------- A superseded marker with nothing beside it ---------- */

  /** Runs that count characters and store the result of the first read. */
  ghost predicate StoresFirstRead(s: Setup, text: string, hash: string) {
    && s.config == BOTH && LIFECYCLE !in s.disabled && s.phases == [] && CountsCharacters(s)
    && s.store.byteSize(text) >= 0 && s.store.persist(text, SUPERSEDED) == Some(hash)
    && |text| >= |Marker(SUPERSEDED, hash)|
  }

  lemma UnansweredManaged(text: string, s: Setup, hash: string)
    requires StoresFirstRead(s, text, hash)
    ensures Managed(Unanswered(text), BOTH, s.store)
         == [CallMessage("a", "Read"), ResultMessage("a", Text(Marker(SUPERSEDED, hash))), CallMessage("c", "Read")]
  {
    UnansweredReads(text);
    FreshIsNotReplaced(Unanswered(text), BOTH);
  }

  /** The marker is shorter than the result, so the lifecycle phase is applied and the run is not reverted. */
  lemma UnansweredFinal(text: string, s: Setup, hash: string)
    requires StoresFirstRead(s, text, hash)
    ensures LifecycleRuns(Unanswered(text), s)
    ensures Final(Unanswered(text), s) == Managed(Unanswered(text), BOTH, s.store)
  {
    var ms := Unanswered(text);
    var marked := Managed(ms, BOTH, s.store);
    UnansweredDoesNotRaise(text);
    UnansweredManaged(text, s, hash);
    CharactersOfThree(ms[0], ms[1], ms[2]);
    CharactersOfThree(marked[0], marked[1], marked[2]);
    assert marked[0] == ms[0] && marked[2] == ms[2] && !RiskPolicy.IsExact(ms[1]) && !RiskPolicy.IsUser(ms[1]);
    PolicyKeepsMarked(ms, marked, ProtectedIn(ms, s));
  }

  lemma PolicyKeepsMarked(messages: seq<Message>, marked: seq<Message>, protected: set<nat>)
    requires |messages| == |marked| == 3 && messages[0] == marked[0] && messages[2] == marked[2] && 1 !in protected
    ensures RiskPolicy.Restored(messages, marked, protected) == marked
  {}

  /**
   * A read, its long result, and a second read that has no result yet: the run ends with the marker of the first
   * result, and no result that covers it is anywhere in the final messages.
   */
  lemma MarkerMayStandAlone(text: string, s: Setup, hash: string)
    requires StoresFirstRead(s, text, hash)
    ensures LifecycleRuns(Unanswered(text), s) && Unmixed(Unanswered(text))
    ensures Agree(Unanswered(text), FreshReads(Unanswered(text), BOTH))
    ensures MarkerAt(Final(Unanswered(text), s)[1], 0, SUPERSEDED, hash)
    ensures !MarkersAreCovered(Unanswered(text), Final(Unanswered(text), s), BOTH)
  {
    var result := Final(Unanswered(text), s);
    UnansweredFinal(text, s, hash);
    MarkerIsFinal(text, s, hash);
    NoCover(text, result);
    UncoveredMarker(Unanswered(text), result, BOTH, SUPERSEDED, 1, hash);
    UnansweredAgrees(text);
    UnansweredIsUnmixed(text);
  }

  lemma UncoveredMarker(messages: seq<Message>, result: seq<Message>, config: Config, c: Classification, i: nat,
      hash: string)
    requires i < |result| && IsSupersededMarker(messages, config, c, result[i], 0, hash)
    requires !HasVerbatimCover(messages, result, config, c)
    ensures MarkerAt(result[i], 0, c, hash) && !MarkersAreCovered(messages, result, config)
  {}

  lemma UnansweredIsUnmixed(text: string)
    ensures Unmixed(Unanswered(text))
  {}

  lemma MarkerIsFinal(text: string, s: Setup, hash: string)
    requires StoresFirstRead(s, text, hash)
    requires Final(Unanswered(text), s) == Managed(Unanswered(text), BOTH, s.store)
    ensures IsSupersededMarker(Unanswered(text), BOTH, SUPERSEDED, Final(Unanswered(text), s)[1], 0, hash)
  {
    UnansweredReads(text);
    UnansweredManaged(text, s, hash);
  }

  lemma UnansweredAgrees(text: string)
    ensures Agree(Unanswered(text), FreshReads(Unanswered(text), BOTH))
  {
    UnansweredReads(text);
    NoResultOfSecondRead(text);
    NothingFresh(Unanswered(text), "c");
    NothingToAgreeOn(Unanswered(text), {"c"});
  }

  lemma NothingFresh(messages: seq<Message>, id: string)
    requires !HasResult(messages, id)
    ensures !HasRewritable(messages, {id})
  {
    forall i, k: nat | 0 <= i < |messages| ensures !IsRewritable(messages[i], k, {id}) {
      assert !ResultAt(messages[i], k, id);
    }
  }

  lemma NoCover(text: string, result: seq<Message>)
    ensures !HasVerbatimCover(Unanswered(text), result, BOTH, SUPERSEDED)
  {
    var ms := Unanswered(text);
    UnansweredReads(text);
    NoResultOfSecondRead(text);
    forall keeper | IsCover(ms, BOTH, SUPERSEDED, keeper) ensures !HasVerbatimResult(ms, result, keeper.callId) {
      assert keeper.callId == "c";
      forall i, k: nat | 0 <= i < |ms| && i < |result| ensures !SameResultAt(ms[i], result[i], k, "c") {
        assert !ResultAt(ms[i], k, "c");
      }
    }
  }

  /* ---------- A fresh read lost after the lifecycle phase raised ---------- */

  /** A phase that empties texts, in a run that counts characters. */
  ghost predicate EmptiesTexts(s: Setup, name: string) {
    s.config == BOTH && s.phases == [BlankPhase(name)] && name !in s.disabled && CountsCharacters(s)
  }

  lemma LosesRead(text: string, a: ToolCall, m: Message, s: Setup, name: string)
    requires EmptiesTexts(s, name)
    requires Raises(Ending(text, a, m), BOTH) && "a" in FreshReads(Ending(text, a, m), BOTH)
    ensures !Survives(Ending(text, a, m), s)
  {
    var ms := Ending(text, a, m);
    assert IsRewritable(ms[1], 0, FreshReads(ms, BOTH));
    BlankedHasNoText(ms);
    LifecycleFailureLosesReads(ms, s, name);
  }

  /**
   * A last message in either wire format whose call has arguments that are no object, a list or dictionary as path, or
   * the same path and a string as offset: the phase raises, and a phase that empties texts takes a fresh read.
   */
  lemma MalformedCallLosesRead(text: string, m: Message, s: Setup, name: string)
    requires EmptiesTexts(s, name) && m.role == "assistant"
    ensures !Survives(Ending(text, CallOf("a", "Read"), NOT_AN_OBJECT), s)
    ensures forall path :: IsNested(path) && CallsOf(m) == [NestedPath(path)] ==>
              !Survives(Ending(text, CallOf("a", "Read"), m), s)
    ensures CallsOf(m) == [STRING_OFFSET] ==> !Survives(Ending(text, LIMITED, m), s)
  {
    NotAnObjectRaises(text);
    LosesRead(text, CallOf("a", "Read"), NOT_AN_OBJECT, s, name);
    forall path | IsNested(path) && CallsOf(m) == [NestedPath(path)]
      ensures !Survives(Ending(text, CallOf("a", "Read"), m), s)
    {
      ListPathRaises(text, m, path);
      LosesRead(text, CallOf("a", "Read"), m, s, name);
    }
    if CallsOf(m) == [STRING_OFFSET] {
      StringOffsetRaises(text, m);
      LosesRead(text, LIMITED, m, s, name);
    }
  }

  lemma {:induction false} BlankedHasNoText(messages: seq<Message>)
    ensures Characters(Blanked(messages)) == 0
  {
    if messages != [] {
      var n := |messages| - 1;
      BlankedHasNoText(messages[..n]);
      assert Blanked(messages)[..n] == Blanked(messages[..n]);
    }
  }
}

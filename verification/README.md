# Formal model of Legroom's core algorithms

Legroom shortens chat conversations before they are sent to a language model. This project models its self-contained
algorithms in Dafny and proves what they keep, what they give back, and what they bound. `dafny verify dfyconfig.toml`
checks all of it. Code that overwrites lists, arrays or fields is modelled by methods with loops and by classes, each
proved against a specification function; code made of expressions is modelled by functions.

| file | models |
|---|---|
| `PrefixPointers.dfy`, `PrefixExamples.dfy` | prefix deduplication with pointers to earlier messages, and what pointers do not say |
| `CrossTurnDedup.dfy` | whole-block deduplication across turns |
| `ReadLifecycle.dfy`, `ReadExamples.dfy` | classification of file reads, their replacement by markers, and conversations where it hides too much |
| `Fields.dfy` | the values of call arguments under Python's `or`, `+` and `<=` |
| `Messages.dfy`, `Phases.dfy`, `Snapshots.dfy`, `Pipeline.dfy` | messages, the phase contract, the risk policy, captured reads, the phase chain |
| `WholeRun.dfy`, `RunExamples.dfy` | a whole run with its inflation guard, and runs that lose a read or leave a marker alone |
| `Calibration.dfy`, `Wilson.dfy`, `FeedbackLoop.dfy` | the rolling controller, its confidence bound, and controller and pipeline in a loop |
| `JsonText.dfy`, `BracketScanner.dfy`, `JsonSpans.dfy` | JSON texts, the bracket scanner, span finding and splicing |
| `KeyOrder.dfy`, `CanonicalJson.dfy` | key order and the two recursive canonicalizers |
| `OrderedDict.dfy`, `CompressionCache.dfy`, `StablePrefix.dfy` | the two least-recently-used caches |
| `UsageStream.dfy` | usage extraction from fragmented server-sent events |
| `AdaptiveSizer.dfy`, `Simhash.dfy` | the knee search and near-duplicate counting |
| `RetentionMask.dfy`, `LosslessCompaction.dfy` | run merging on a mask, the two line codings and their decoders |
| `Prelude.dfy` | options, white space and decimal numerals |

## Main results

- No pointer chains. `kv_cache_optimizer.py` never checks that the message a pointer names survives. It does: the
  ultrametric law of common prefixes, the order in which pairs are enumerated and the length test together imply that a
  source is never rewritten (`ChainsExcluded`). Which messages change is said from the messages alone (`Deduplicate`).
  The result is what the table says exactly when no entry shortens a text that already starts with a pointer
  (`ChainsExcludedExactly`), which is so when no recorded prefix starts like one. `PointerChainExists` breaks that
  condition, and ends in a chain, for every minimum prefix.
- A pointer does not say how long the removed prefix was. Different conversations get the same output, for every minimum
  prefix (`PointersCollide`); `RecoverableExactly` says when two plain messages can be recovered.
- Fresh reads survive whole runs. A read is fresh by the classification of the original conversation. When the lifecycle
  phase is on and does not raise, its payload is identical in the final messages, over all sequences of phases that keep
  roles and ids, each applied, skipped, rejected, failed or disabled, and over reverted runs, exactly when results that
  share an id are consistent and no fresh result wraps a replaced one. When the phase is off or raises, exactly when
  there is nothing to rewrite (`FreshSurviveExactly`).
- What makes the phase raise, for conversations whose ids, tool names and texts are strings: a call whose function is not
  a dictionary, named arguments that are JSON but not an object, a path that is a list or a dictionary, and offsets or
  limits that cannot be added or compared (`Raises`, `ManageReads`). One such call anywhere and a later phase may take
  another, fresh read (`MalformedCallLosesRead`).
- A superseded read always has a later fresh read of the conversation that holds all its lines; a covering result stands verbatim
  in the final messages exactly when some covering fresh read was answered (`SupersededBesideVerbatim`).
  `MarkerMayStandAlone` gives the run in which none was.
- Protected messages stay through the lifecycle phase and every phase with the policy guard (`ProtectedStay`,
  `PolicyPhaseProtects`), and every guard lets through exactly what it should (`AppliedPhase`).
- The bracket scanner is exact on every JSON object and array (`ScanIsExact`), all JSON values between texts
  without opening brackets are found and nothing else is touched (`TextIsReplaced`), and the canonical form is complete:
  equal exactly for trees that mean the same (`CanonicalIsComplete`).
- Calibration. A phase that is off comes back on within a window of rounds whose qualities are missing or at least the
  minimum, exactly when a full window of successes passes the gate (`OffPhaseComesBack`). Low qualities lock it up
  whatever the gate, because they are recorded with the report of the disabled phase, too (`LowQualitiesLockUp`).
- The bounded cache agrees with an unbounded reference store over all histories (`EntriesAreLive`, `RecentIsKept`).
- The line codings are undone by their decoders exactly under conditions on the input lines (`CollapseRoundTrip`,
  `HeadingsRoundTrip`).

## Conditions and what fails without them

- Results that share a call id must be consistent, which unique ids give: `RestoringIsFaithful` is an equivalence, and
  `AgreeIsConsistent` relates it to plain agreement.
- A result of a fresh read must not wrap the result of a replaced read: `FreshPayloadsKept` is an equivalence, and
  `MixedFormatsLoseFreshRead` gives an input. `Unmixed`, which is easier to check, implies it.
- Transforms keep roles, ids and the blocks of a content list (`KeepsShape`); those of the pipeline replace strings by
  strings.
- Hash functions are parameters. `DedupRoundTrip` is an equivalence for blocks numbered by position: no relevant
  collisions, and no text that spells a pointer to something else. No decoder restores all inputs
  (`CrossTurnDedup.PointersCollide`). The prefix cache assumes an injective key, as its documentation does.
- The line codings have no decoder for all inputs: `MarkersCollide` and `HeadingsCollide` give pairs of inputs with the
  same coding. The round trips of the decoders given here are equivalences.
- Chunk independence needs the buffer to stay within its limit, which is a condition on the stream and its cutting
  (`FitsIsNoOverflow`, `ShortLinesFit`). Over the limit the cutting can lose the usage of any `data:` line:
  `OverflowLosesUsage`, `CutLineReportsNothing`.

## Where code and documentation disagree

The model follows the code.

- The repository's README.md:306 and `risk_policy.py:23` say that protected messages are restored after every phase. Only
  `read_lifecycle` and `thinking_compactor` do that (`pipeline.py:733`, `pipeline.py:1140`); the guards of all other
  phases restore reads only, and the one of compression also undoes changes that save no tokens.
- When calibration disables `read_lifecycle`, or the phase raises, nothing is captured and later phases may rewrite the
  reads that the repository promises to keep (`LifecycleFailureLosesReads`). `read_lifecycle.py:184-188` catches
  only what parsing raises, and nothing catches an unhashable path (`:243`) or ranges that do not compare (`:299-303`).
- A disabled phase reports `skipped`, which counts as a success, so that it can come back. With a quality evaluator that
  keeps returning less than the minimum, or fails, which counts as zero (`proxy_server.py:389`), it stays off although
  it changes nothing.
- `read_lifecycle.py:344-346` supersedes a read as soon as a later covering call exists, answered or not, so the text that
  a superseded marker points to need not be in the conversation (`MarkerMayStandAlone`).
- The injection of retrieval instructions prepends a message when there is no usable system message, but the phase
  contract preserves the message count, so that proposal is always rejected.
- The tool canonicalizer promises sorted keys at every level; tools whose `function` is missing or not a dictionary are
  only copied (`tool_schema_canonicalizer.py:101-106`).
- `balanced_end.py:76` says that both bracket pairs are handled; only the kind that opens the span is counted. On JSON
  texts this makes no difference.
- `compute_optimal_k` promises a number of items to keep; with few near-distinct items and a bias above one it can exceed
  the number of items, because that branch is not clamped (`KeepsAtMost`).
- Without a stable message `get_or_compute` returns the first message both as prefix and in the tail (`PrefixAndTail`).
- A buffer limit of zero keeps the whole buffer, because a slice from `-0` is a slice from zero.

## Model

| member | source | states |
|---|---|---|
| `PrefixPointers.ExtractTextSegments` | legroom/compressors/kv_cache_optimizer.py:189-207 | exactly one segment, in index order, for each message whose text is not blank |
| `PrefixPointers.TextOfMeans` | legroom/compressors/kv_cache_optimizer.py:189-207 | a message takes part with its string, or with the texts of its text blocks joined by spaces, unless that is blank |
| `PrefixPointers.LongestCommonPrefix` | legroom/compressors/kv_cache_optimizer.py:248-254 | the result is a prefix of both texts and cannot be extended |
| `PrefixPointers.Ultrametric` | legroom/compressors/kv_cache_optimizer.py:224-236 | a third text that starts with the common prefix of two texts meets one of them in exactly that prefix |
| `PrefixPointers.FindCommonPrefixes` | legroom/compressors/kv_cache_optimizer.py:209-246 | the table holds, in order of the first pair that meets in it, exactly the long and frequent common prefixes, each with the set of all messages that start with it |
| `PrefixPointers.CarriersListed` | legroom/compressors/kv_cache_optimizer.py:234-246 | once all pairs were seen an entry lists every segment that starts with its prefix, not only those that meet in it |
| `PrefixPointers.SortedDistinct` | legroom/compressors/kv_cache_optimizer.py:129 | the distinct indices in increasing order, as Python's `sorted` of a set |
| `PrefixPointers.RewritePrefixes` | legroom/compressors/kv_cache_optimizer.py:125-159 | the nested overwriting loops compute the entry-by-entry rewrite of all messages |
| `PrefixPointers.RewriteCarriers` | legroom/compressors/kv_cache_optimizer.py:148-159 | the inner loop shortens exactly the later carriers of one prefix |
| `PrefixPointers.RewrittenOnce` | legroom/compressors/kv_cache_optimizer.py:148-159 | a message ends up rewritten by the first entry that shortens its original text, and by no other, exactly when no later entry shortens its new text again |
| `PrefixPointers.OnlyHeadsFitAgain` | legroom/compressors/kv_cache_optimizer.py:148-159 | only an entry whose prefix starts like a pointer can shorten a text again |
| `PrefixPointers.SourceIsLeast` | legroom/compressors/kv_cache_optimizer.py:129-147 | an entry lists exactly the carriers of its prefix, and its source is the earliest of them |
| `PrefixPointers.EarlierSourceFirst` | legroom/compressors/kv_cache_optimizer.py:224-236 | an entry with an earlier source stands before an entry with a later one |
| `PrefixPointers.SharedPrefix` | legroom/compressors/kv_cache_optimizer.py:147-159 | if an entry shortened the source of another one, it would also shorten every message that the other one shortens |
| `PrefixPointers.SourceStays` | legroom/compressors/kv_cache_optimizer.py:147-159 | the message that a pointer names is never rewritten itself |
| `PrefixPointers.ChainsExcludedExactly` | legroom/compressors/kv_cache_optimizer.py:125-159 | the loop leaves what the table says, each message verbatim or shortened by its first fitting entry to a pointer at a verbatim earlier message, exactly when no entry shortens a text again |
| `PrefixPointers.ChainsExcluded` | legroom/compressors/kv_cache_optimizer.py:125-159 | if no entry shortens a text again, and in particular if no recorded prefix starts like a pointer, after the loop every message is verbatim or a strictly shorter pointer plus rest whose source is verbatim and starts with the removed prefix |
| `PrefixPointers.Deduplicate` | legroom/compressors/kv_cache_optimizer.py:94-159 | phases 1 and 2 of `optimize`: the messages that change are exactly those with string content, of any role, that start with a frequent common prefix which an earlier message carries first and which is longer than the pointer to it; only the text changes, to a shorter one that starts like a pointer; each message is as the table says exactly when no entry shortens a text again; no pointer chains whenever texts that start like a pointer have less than the minimum prefix in common |
| `PrefixPointers.RepetitionsChange` | legroom/compressors/kv_cache_optimizer.py:148-159 | the rewriting loop changes exactly these messages, for every right table |
| `PrefixPointers.HeadsAreNotKeys` | legroom/compressors/kv_cache_optimizer.py:224-246 | texts that start like a pointer and have less than the minimum prefix in common, which a single such text always meets, give no entry that starts like one |
| `PrefixPointers.PointerNamesSource` | legroom/compressors/kv_cache_optimizer.py:136-158 | the pointer text names the source, and the original text is some part of the source from its start plus the rest; how long that part is the pointer does not say |
| `PrefixPointers.WholeSourceIsRight` | legroom/compressors/kv_cache_optimizer.py:136-158 | putting the whole source in place of the pointer gives the original text exactly when the removed prefix is the whole source |
| `PrefixExamples.OutputOfPair` | legroom/compressors/kv_cache_optimizer.py:94-159 | two plain messages have exactly one possible output, whatever right table was built: the later text shortened by the common prefix, if that is long enough to record and longer than the pointer |
| `PrefixExamples.PointersCollide` | legroom/compressors/kv_cache_optimizer.py:136-158 | texts that continue one source after prefixes of different lengths get the same output, for every minimum prefix, so no decoder of pointers exists |
| `PrefixExamples.RecoverableExactly` | legroom/compressors/kv_cache_optimizer.py:125-159 | two plain messages can be recovered from their output exactly when nothing was shortened or the source allows no other cut before the rest |
| `PrefixExamples.OnlyWholeSources` | legroom/compressors/kv_cache_optimizer.py:125-159 | a shortened text that can be recovered continues the whole source |
| `PrefixExamples.PointerChainExists` | legroom/compressors/kv_cache_optimizer.py:125-159 | for every minimum prefix there are three texts that start like a pointer and end in a pointer to a shortened message, so the condition on texts is needed at every setting |
| `Fields.AtMostTransitive` | legroom/analysis/read_lifecycle.py:285-305 | comparing argument values with `<=` is transitive wherever it does not raise, lists of lists included |
| `Fields.PlusMeans` | legroom/analysis/read_lifecycle.py:299-303 | numbers are added, strings and lists put one behind the other, and nothing else can be added |
| `Fields.ListsByDifference` | legroom/analysis/read_lifecycle.py:305 | lists are compared at their first difference, a shorter one coming first |
| `ReadLifecycle.BuildToolMetadata` | legroom/analysis/read_lifecycle.py:157-216 | the loop over messages and calls builds the dictionary as an ordered list, or raises exactly on a call whose function is not a dictionary or a named one whose arguments are JSON but not an object |
| `ReadLifecycle.CallsAreOfBothKinds` | legroom/analysis/read_lifecycle.py:165-216 | the calls of an assistant message are its tool calls and its `tool_use` blocks; other roles have none |
| `ReadLifecycle.PutKeepsPlaces` | legroom/analysis/read_lifecycle.py:190 | a known id keeps its place in the dictionary and a new one goes to the end |
| `ReadLifecycle.MetadataIsLastCalls` | legroom/analysis/read_lifecycle.py:157-216 | the dictionary holds, for each id, the last usable call with that id and nothing else |
| `ReadLifecycle.FindCallIsFirst` | legroom/analysis/read_lifecycle.py:257-282 | an operation gets the index of the first message that holds its call |
| `ReadLifecycle.FileOpsAreCalls` | legroom/analysis/read_lifecycle.py:219-254 | the operations are exactly those of the recorded calls of file tools with a path |
| `ReadLifecycle.BuildFileOperationIndex` | legroom/analysis/read_lifecycle.py:219-254 | the loop gives the dictionary from path to operations, paths in order of their first operation, or raises exactly on a call of a file tool, in either wire format, whose path is a list or a dictionary |
| `ReadLifecycle.IndexIsByFile` | legroom/analysis/read_lifecycle.py:219-254 | the entry of a path holds exactly the operations on that path, in order, and no path is missing or listed twice |
| `ReadLifecycle.IndexIsInOrder` | legroom/analysis/read_lifecycle.py:219-254 | paths stand in the order of their first operations |
| `ReadLifecycle.ClassifyReads` | legroom/analysis/read_lifecycle.py:308-365 | the nested loops list the classifications file by file, each from the operations on its file, or raise exactly when a search among later reads does |
| `ReadLifecycle.SearchFinds` | legroom/analysis/read_lifecycle.py:340-346 | a search that does not raise says whether some later read covers the range, although it stops early |
| `ReadLifecycle.FilesRaise` | legroom/analysis/read_lifecycle.py:308-346 | going file by file raises exactly when the range of some read that is not protected cannot be compared with a later one that the search meets |
| `ReadLifecycle.ReadsAreClassified` | legroom/analysis/read_lifecycle.py:308-365 | one classification for each read and none for anything else, with the state that the definitions of stale and superseded give over all operations |
| `ReadLifecycle.StateMeans` | legroom/analysis/read_lifecycle.py:327-353 | the state of a read in terms of edits and lines: fresh in the protected tail, stale when its file was edited later, superseded when a later read asks for all its lines |
| `ReadLifecycle.ReadsMean` | legroom/analysis/read_lifecycle.py:108-136 | the same for every read of a conversation, with the protected tail counted from its end |
| `ReadLifecycle.CoversLines` | legroom/analysis/read_lifecycle.py:285-305 | a read covers another one exactly when its range holds all lines of the other, with the defaults of line 0 and 2000 lines written out, whatever values offset and limit of the later read have |
| `ReadLifecycle.CoversTransitive` | legroom/analysis/read_lifecycle.py:285-305 | coverage of ranges is transitive, whatever values offsets and limits have, full-file reads included |
| `ReadLifecycle.SupersededIsCovered` | legroom/analysis/read_lifecycle.py:327-353 | a superseded read has a strictly later fresh read of the same file that covers it and holds every line of it, under any protected tail, and no later edit of the file when stale reads are compressed |
| `ReadLifecycle.SupersededBesideFresh` | legroom/analysis/read_lifecycle.py:327-363 | behind a superseded classification stands a read operation of the conversation, and a later operation of the conversation on the same file that is a fresh read and covers it |
| `ReadLifecycle.CoverIsVerbatim` | legroom/analysis/read_lifecycle.py:327-363 | when fresh payloads are kept, a covering result stands verbatim in the final messages exactly when some covering fresh read was answered |
| `ReadLifecycle.MarkerIsPlaced` | legroom/analysis/read_lifecycle.py:396-418 | the marker of a read that is not fresh stands in the message that held its result |
| `ReadLifecycle.ApplyLifecycle` | legroom/analysis/read_lifecycle.py:368-452 | the loop replaces exactly the string results of reads that are not fresh, unless tiny or not storable |
| `ReadLifecycle.ResultsAreManaged` | legroom/analysis/read_lifecycle.py:396-492 | in tool messages and in blocks of any role, exactly the string results of reads that are not fresh, not tiny and storable become the marker of their read, and nothing else changes |
| `ReadLifecycle.MarkerNamesFile` | legroom/analysis/read_lifecycle.py:522-536 | a marker names the state and the file and ends in the hash under which the text is stored |
| `ReadLifecycle.ProcessBlocks` | legroom/analysis/read_lifecycle.py:455-492 | the same for a list of content blocks; the flag is set exactly when some block gets a marker |
| `ReadLifecycle.FreshIsNotReplaced` | legroom/analysis/read_lifecycle.py:376-378 | no call id is both fresh and replaced |
| `ReadLifecycle.FreshPayloadsKept` | legroom/analysis/read_lifecycle.py:407-439 | results of fresh reads are untouched exactly when no fresh tool message holds a block with a replaced id, a text of at least the minimum size that is not its own marker already, and a store that takes it |
| `ReadExamples.MixedFormatsLoseFreshRead` | legroom/analysis/read_lifecycle.py:411-437 | a concrete conversation in which a fresh result wraps a stale one and is rewritten |
| `ReadExamples.MarkerStandsAlone` | legroom/analysis/read_lifecycle.py:344-346 | a read, its result, and an unanswered second read: the result becomes a superseded marker although no result covers it |
| `ReadExamples.NotAnObjectRaises` | legroom/analysis/read_lifecycle.py:184-188 | arguments that are valid JSON but not an object make the pass raise, beside a fresh read |
| `ReadExamples.ListPathRaises` | legroom/analysis/read_lifecycle.py:243 | so does a path that is a list or a dictionary, in either wire format |
| `ReadExamples.StringOffsetRaises` | legroom/analysis/read_lifecycle.py:299-303 | so does a later read of the same file whose offset is a string |
| `ReadLifecycle.ManageReads` | legroom/analysis/read_lifecycle.py:112-154 | the whole pass: nothing when a call, a path or a range makes it raise, else the rewritten messages and exactly the fresh reads |
| `Messages.SamePayloadsTransitive` | legroom/runtime/pipeline.py:78-106 | keeping the payloads of given calls composes over steps |
| `Phases.RunIsSafe` | legroom/runtime/phases.py:119-182 | whatever a phase proposes, the outcome keeps the message count, only an applied inflating phase adds tokens, and the status is `applied` exactly when messages changed |
| `Phases.StatusMeans` | legroom/runtime/phases.py:119-182 | failed exactly when the transform raised, rejected exactly on another message count or a forbidden gain in tokens, skipped exactly on equal messages, and otherwise applied with the proposal as it is; the report shows the counts before and after |
| `RiskPolicy.Assess` | legroom/runtime/risk_policy.py:25-45 | the protected indices are exactly the immutable and exact messages and the last user message, function calls and their outputs included, and every message gets its label |
| `RiskPolicy.ProtectedMustStay` | legroom/runtime/ir.py:131-146 | the protected messages by role: instructions, assistant messages with calls, unknown roles, and the last request of the user |
| `RiskPolicy.Restore` | legroom/runtime/risk_policy.py:47-58 | protected messages are the original ones, all others the candidate; another count changes nothing |
| `Snapshots.SnapshotReadResults` | legroom/runtime/pipeline.py:56-75 | the loop captures the payload of each result of a given call |
| `Snapshots.SnapshotHoldsLast` | legroom/runtime/pipeline.py:56-75 | what is captured for an id is the payload of its last result in order of messages and blocks, and nothing is captured for other ids |
| `Snapshots.RestoreReadResults` | legroom/runtime/pipeline.py:78-143 | captured payloads are put back into tool messages and every block with a captured call id, and nothing else changes |
| `Snapshots.PreservePhaseSafe` | legroom/runtime/pipeline.py:146-194 | after captured payloads were put back, a message keeps its new content exactly when that saves tokens, and has its old content otherwise |
| `Snapshots.AllCaptured` | legroom/runtime/pipeline.py:56-75 | when results with the same id agree, the snapshot holds the payload of every fresh result |
| `Snapshots.RestoringIsFaithful` | legroom/runtime/pipeline.py:56-106 | snapshot and restore leave every fresh result as it was exactly when each result that is restored by itself is the last one recorded under its id |
| `Snapshots.AgreeIsConsistent` | legroom/runtime/pipeline.py:56-75 | that is so when results with the same id agree, and without mixed formats only then |
| `Snapshots.RestoreKeeps` | legroom/runtime/pipeline.py:78-106 | whatever a transform did to contents, restoring brings every fresh payload back |
| `Pipeline.PhaseKeeps` | legroom/runtime/pipeline.py:579-617 | one phase, applied, skipped, rejected, failed or disabled, keeps every fresh payload |
| `Pipeline.AppliedPhase` | legroom/runtime/pipeline.py:579-617 | an applied phase leaves the output of its transform, message by message behind its guard: with captured reads back, with its saving or the old content, or with protected messages as the run got them |
| `Pipeline.ChainKeeps` | legroom/runtime/pipeline.py:767-1167 | any sequence of such phases keeps every fresh payload |
| `Pipeline.InjectionIsSafe` | legroom/ccr/tool_injection.py:144-171 | injecting retrieval instructions changes no result, or changes the message count and is rejected |
| `Pipeline.InstructionsArePlaced` | legroom/ccr/tool_injection.py:144-171 | the instructions end the first system message if that is a string, and every other message stays; else a message is added |
| `Pipeline.PhasesAreRows` | legroom/runtime/pipeline.py:767-1167 | one phase for each enabled row of the standard table, in its order, with its names, guard and transform |
| `Pipeline.StandardPhasesAreSafe` | legroom/runtime/pipeline.py:767-1167 | every phase of the standard sequence is safe for transforms that keep roles and ids, and only the injection may add tokens |
| `Pipeline.ChainStep` | legroom/runtime/pipeline.py:767-1167 | each phase is fed with what the last one left, and reports in its turn |
| `Pipeline.ChainAccounts` | legroom/runtime/pipeline.py:606-617 | the token deltas of the reports add up to the change in tokens, and without inflating phases the change is not positive |
| `WholeRun.TransformPipeline.RunOne` | legroom/runtime/pipeline.py:579-617 | one phase with its guard: result, report and list of applied transforms |
| `WholeRun.TransformPipeline.RunChain` | legroom/runtime/pipeline.py:767-1167 | each phase is fed with what the last one left, and every report is kept in order |
| `WholeRun.ProposeLifecycle` | legroom/runtime/pipeline.py:710-740 | the unchanged messages when calibration disables the phase, nothing when a call makes it raise, else rewritten reads with protected messages put back; only then are fresh reads known |
| `WholeRun.LifecycleKeeps` | legroom/runtime/pipeline.py:742-757 | the lifecycle phase keeps fresh payloads whether its proposal is applied, rejected, disabled or raises |
| `WholeRun.ProtectedStay` | legroom/runtime/pipeline.py:728-740 | with the risk policy on, the lifecycle phase leaves every protected message as it was, in every outcome |
| `WholeRun.OthersAreManaged` | legroom/runtime/pipeline.py:728-740 | when the phase is applied, every other message is what the rewriting of reads makes of it |
| `WholeRun.PolicyPhaseProtects` | legroom/runtime/pipeline.py:1130-1145 | an applied phase with the policy guard puts every protected message back as the run got it |
| `WholeRun.TransformPipeline.Apply` | legroom/runtime/pipeline.py:619-1191 | the whole run computes `Final` and leaves all reports in order |
| `WholeRun.FreshSurvive` | legroom/runtime/pipeline.py:742-1191 | when the lifecycle phase ran, every result of a read that the original conversation makes fresh is in the final messages as it was, for any sequence of safe phases, reverted runs included |
| `WholeRun.LifecycleFailureLosesReads` | legroom/runtime/pipeline.py:710-757 | with the lifecycle phase disabled or raising, one guarded phase that empties texts loses any fresh result that holds something |
| `WholeRun.FreshSurviveExactly` | legroom/runtime/pipeline.py:710-1191 | for every conversation: if the lifecycle phase is on and does not raise, all setups keep all fresh results exactly when these are consistent and none wraps a replaced one that is not tiny; otherwise exactly when no fresh result holds anything to rewrite |
| `RunExamples.MalformedCallLosesRead` | legroom/analysis/read_lifecycle.py:184-303 | whole runs that lose a fresh read, because arguments are not an object, a path is a list or a dictionary, or an offset is a string |
| `WholeRun.RunAccounts` | legroom/runtime/pipeline.py:606-617 | the deltas of a whole run, the lifecycle phase included, and no gain in tokens without an inflating phase |
| `Snapshots.SnapshotServes` | legroom/runtime/pipeline.py:752-757 | the snapshot taken after the lifecycle phase holds the original payload of every fresh result |
| `WholeRun.SupersededBesideVerbatim` | legroom/runtime/pipeline.py:752-765 | after a whole run a superseded read of the conversation has a later covering fresh read of the conversation, and a covering result stands verbatim in the final messages exactly when some covering fresh read was answered |
| `WholeRun.MarkersSitBesideReads` | legroom/runtime/pipeline.py:752-765 | if every superseded read has an answered cover, each final message or block with a superseded marker has a verbatim covering result beside it |
| `RunExamples.MarkerMayStandAlone` | legroom/analysis/read_lifecycle.py:344-346 | a whole run, whatever the long text of the first read, that ends with a superseded marker and no covering result, because the second read is unanswered |
| `WholeRun.OnlyInjectionReverts` | legroom/runtime/pipeline.py:1168-1191 | when a standard run is reverted, the injection was enabled, and its report is the last one and shows added tokens |
| `WholeRun.StandardRun` | legroom/runtime/pipeline.py:619-1191 | standard phases composed with the run: no more tokens and as many messages as before, reversal only through injection, fresh results kept under the same conditions |
| `Pipeline.DisabledPhaseSkips` | legroom/runtime/pipeline.py:595-598 | a phase disabled by calibration changes nothing and reports `skipped` with delta zero |
| `BracketScanner.FindBalancedEnd` | legroom/compressors/balanced_end.py:69-120 | the loop over depth, string and escape state returns the first closing bracket at depth zero, within the scan limit |
| `BracketScanner.EndByCounting` | legroom/compressors/balanced_end.py:69-120 | for any text the scan ends behind the first closing bracket that brings the depth back to zero, counting brackets that neither an odd number of backslashes nor an odd number of quotes hides |
| `BracketScanner.ValuePasses` | legroom/compressors/balanced_end.py:90-118 | reading any JSON value of RFC 8259 sections 2 to 7 at depth one or more brings the scan back to where it was |
| `BracketScanner.ScanIsExact` | legroom/compressors/balanced_end.py:69-120 | for every JSON object or array text and any text around it the scan ends exactly behind it if the limit reaches that far, and finds nothing otherwise, although one bracket kind is counted |
| `JsonSpans.FindJsonSpans` | legroom/compressors/json_canonicalizer.py:295-328 | the spans are in bounds, not empty, increasing and disjoint; each starts with an opening bracket that no letter or `$` precedes, is long enough, and is decoded |
| `JsonSpans.JsonIsSpan` | legroom/compressors/json_canonicalizer.py:295-328 | every such text is a span, unless an earlier span reaches over its start |
| `JsonSpans.CodeHasNoSpans` | legroom/compressors/recursive_json.py:67-72 | a text whose opening brackets all stand behind letters or `$` has no spans |
| `JsonSpans.SpansAreHits` | legroom/compressors/recursive_json.py:64-85 | every span is accepted by the filters, the scanner and the decoder |
| `JsonSpans.HitsAreCovered` | legroom/compressors/recursive_json.py:64-85 | every position that would be accepted lies in a span |
| `JsonSpans.SpliceBackToFront` | legroom/compressors/json_canonicalizer.py:179-200 | replacing from the last span to the first gives the text with every span rewritten and everything else unchanged, and counts the rewrites |
| `JsonSpans.SpliceFrontToBack` | legroom/compressors/recursive_json.py:28-49 | collecting pieces from the front gives the same text for the same rewrites, or nothing when nothing was rewritten |
| `JsonSpans.CanonicalizeText` | legroom/compressors/json_canonicalizer.py:170-200 | finding and splicing together; code, and texts whose spans are all too long or without canonical form, are unchanged |
| `JsonSpans.RouteEmbeddedJson` | legroom/compressors/recursive_json.py:11-49 | finding and splicing together, with the early exits for empty and marked texts; nothing for code, and nothing when every dispatch gives nothing, an empty text or the span itself |
| `JsonSpans.NothingRewritten` | legroom/compressors/json_canonicalizer.py:179-200 | without rewrites splicing is the identity |
| `JsonSpans.EmbeddedJsonIsReplaced` | legroom/compressors/recursive_json.py:28-85 | any number of JSON objects and arrays between texts without opening brackets are found, each whole and alone, and only they are replaced |
| `JsonSpans.TextIsReplaced` | legroom/compressors/recursive_json.py:28-85 | the same for a whole text |
| `KeyOrder.SortedIsSorted` | legroom/compressors/tool_schema_canonicalizer.py:121 | `sorted` on distinct keys gives strictly increasing keys in Python's string order |
| `KeyOrder.LessTotal` | legroom/compressors/tool_schema_canonicalizer.py:121 | the order on keys is total and strict |
| `KeyOrder.LessTransitive` | legroom/compressors/tool_schema_canonicalizer.py:121 | the order on keys is transitive |
| `KeyOrder.LessByDifference` | legroom/compressors/tool_schema_canonicalizer.py:121 | it is decided at the first difference, by code point or by length |
| `CanonicalJson.CollapseAgrees` | legroom/compressors/json_canonicalizer.py:245 | collapsing runs of spaces makes two strings equal exactly when they agree up to the length of such runs |
| `CanonicalJson.CanonicalIsComplete` | legroom/compressors/json_canonicalizer.py:202-228 | two trees get the same canonical form exactly when they agree up to key order, integral float against integer and, in the JSON variant, runs of spaces |
| `CanonicalJson.CanonicalizeIsCanonical` | legroom/compressors/tool_schema_canonicalizer.py:116-132 | every level of the result is strictly sorted, no whole number is a float, no run of spaces is left, and the meaning is unchanged |
| `CanonicalJson.CanonicalizeIdempotent` | legroom/compressors/tool_schema_canonicalizer.py:116-132 | canonicalizing twice is canonicalizing once |
| `CanonicalJson.ToolFormIsComplete` | legroom/compressors/tool_schema_canonicalizer.py:99-114 | exactly which tool definitions get the same form; tools without a function dictionary only when identical |
| `CanonicalJson.ToolFormIsCanonical` | legroom/compressors/tool_schema_canonicalizer.py:99-114 | the form of a tool is sorted, its function is canonical and means the same, and all other entries stay |
| `OrderedDict.WithoutFacts` | legroom/proxy/compression_cache.py:158-189 | removing a key keeps keys distinct and shortens the dictionary by at most that key |
| `CompressionCache.CompressionResultCache.Lookup` | legroom/proxy/compression_cache.py:158-168 | a hit exactly for an unexpired entry, which moves to the end; expired entries are deleted; counters move by one |
| `CompressionCache.CompressionResultCache.Store` | legroom/proxy/compression_cache.py:170-174 | the entry goes to the end and the oldest entries are dropped down to the size |
| `CompressionCache.CompressionResultCache.Forget` | legroom/proxy/compression_cache.py:188-189 | the key is gone |
| `CompressionCache.CompressionResultCache.Reset` | legroom/proxy/compression_cache.py:185-186 | all entries are gone |
| `CompressionCache.RunIsBounded` | legroom/proxy/compression_cache.py:173-174 | after any history there are at most `maxsize` entries and no key twice |
| `CompressionCache.LiveIsLatestPut` | legroom/proxy/compression_cache.py:158-189 | what the unbounded reference store holds is the latest put of the key, not replaced since |
| `CompressionCache.PutIsLive` | legroom/proxy/compression_cache.py:158-189 | every put is live until it is replaced or found expired |
| `CompressionCache.RecentIsTouchedSince` | legroom/proxy/compression_cache.py:158-189 | the keys counted as recent are exactly the others touched with no later touch of the key |
| `CompressionCache.EntriesAreLive` | legroom/proxy/compression_cache.py:158-189 | after any history every entry is what the unbounded reference store holds |
| `CompressionCache.RecentIsKept` | legroom/proxy/compression_cache.py:158-189 | a key that is still live is evicted only after at least `maxsize` distinct other keys were touched since its last touch |
| `CompressionCache.LookupIsRight` | legroom/proxy/compression_cache.py:158-168 | a hit returns the latest unexpired put, and with few other keys touched since it is a sure hit |
| `StablePrefix.PrefixAndTail` | legroom/runtime/stable_prefix.py:217-225 | prefix and tail share out the messages, except that the first one is in both when no message is stable |
| `StablePrefix.StableRoles` | legroom/runtime/stable_prefix.py:45-68 | system messages and declared tools are stable; requests, answers and all other roles are not |
| `StablePrefix.SharesKeepOrder` | legroom/runtime/stable_prefix.py:217-225 | both shares keep the order of the messages: each message stands right behind those of its kind that came before it |
| `StablePrefix.StablePrefixCache.Get` | legroom/runtime/stable_prefix.py:152-160 | a hit moves the entry to the end; the counters tell hits from misses |
| `StablePrefix.StablePrefixCache.Put` | legroom/runtime/stable_prefix.py:173-195 | the entry is stored at the end, and evictions are the entries dropped |
| `StablePrefix.StablePrefixCache.GetOrCompute` | legroom/runtime/stable_prefix.py:197-228 | the result is what uncached computation gives, and misses stay size plus evictions |
| `StablePrefix.ServeAll` | legroom/runtime/stable_prefix.py:130-228 | over any sequence of requests on a new cache every answer is the uncached one and the metrics add up |
| `UsageStream.BothProtocolsAgree` | legroom/integration/provider_cache.py:146-163 | usage dictionaries of both protocols are normalized to the same record, each number from its own field, whatever else they hold and in whatever order; missing fields count as zero |
| `UsageStream.LineReports` | legroom/integration/provider_cache.py:181-197 | a `data:` line, with any white space around line and payload, whose payload decodes to a dictionary reports the counts of its `response`, or its own when it has none, under the keys of either protocol, unless all are zero |
| `UsageStream.LineReportsNothing` | legroom/integration/provider_cache.py:181-197 | it reports nothing for `[DONE]`, for what is no dictionary, for a `response` that is something else, and without a usage dictionary |
| `UsageStream.OtherLineReportsNothing` | legroom/integration/provider_cache.py:181-184 | lines that do not start with `data:` report nothing |
| `UsageStream.NewParserReads` | legroom/integration/provider_cache.py:168-197 | a new parser that is fed one line ends with what the line reports |
| `UsageStream.LastReportWins` | legroom/integration/provider_cache.py:180-197 | the usage of a stream is that of its last reporting line |
| `UsageStream.SplitIsExact` | legroom/integration/provider_cache.py:178-179 | the pieces hold no newline, and put together again they are the stream |
| `UsageStream.StreamingUsageParser.Feed` | legroom/integration/provider_cache.py:174-197 | one call: limit, split, last usage among the finished lines |
| `UsageStream.SplitAppend` | legroom/integration/provider_cache.py:178-179 | splitting can stop anywhere and go on with the unfinished line |
| `UsageStream.FedIsWhole` | legroom/integration/provider_cache.py:174-197 | any fragmentation within the buffer limit leaves the state of the whole stream read at once |
| `UsageStream.ChunksDoNotMatter` | legroom/integration/provider_cache.py:174-197 | two fragmentations of one stream leave the same usage and buffer |
| `UsageStream.FitsIsNoOverflow` | legroom/integration/provider_cache.py:174-179 | the condition on the stream and its cutting is exactly that the buffer never exceeds its limit |
| `UsageStream.ShortLinesFit` | legroom/integration/provider_cache.py:175-179 | a stream of any length stays within the limit when its longest line and its longest chunk together do |
| `UsageStream.ShortStreamsFit` | legroom/integration/provider_cache.py:175-177 | a stream no longer than the limit stays within it however it is cut |
| `UsageStream.BufferIsLineEnd` | legroom/integration/provider_cache.py:175-179 | even over the limit the buffer depends on the bytes alone: the last bytes of the unfinished line |
| `UsageStream.OverflowLosesUsage` | legroom/integration/provider_cache.py:175-177 | for every decoder and every line that reports usage but not without its first byte, the usage is read or lost depending on the cutting |
| `UsageStream.CutLineReportsNothing` | legroom/integration/provider_cache.py:181-192 | every `data:` line reports nothing without its first byte |
| `Wilson.BoundInRange` | legroom/integration/calibration.py:90-99 | the bound lies between zero and the success rate, and the clamp at zero is never needed |
| `Wilson.BoundIncreases` | legroom/integration/calibration.py:90-99 | the bound is strictly increasing in the number of successes |
| `Wilson.BoundSolves` | legroom/integration/calibration.py:90-99 | it solves Wilson's equation: the squared distance to the rate is z*z/n times the variance at the bound |
| `Wilson.BoundOfAllSuccesses` | legroom/integration/calibration.py:90-99 | with only successes the bound is n/(n+z*z) |
| `Wilson.AllSuccessesGrows` | legroom/integration/calibration.py:90-99 | that value grows with the number of samples |
| `Calibration.CalibrationController.Record` | legroom/integration/calibration.py:44-52 | the sample is pushed on the window of the canonical name, or a bad quality changes nothing |
| `Calibration.WindowIsSuffix` | legroom/integration/calibration.py:40-52 | the window is the last `window_size` samples of what was there before and everything recorded since |
| `Calibration.EnabledBeforeMinSamples` | legroom/integration/calibration.py:77-83 | no phase is disabled before it has `min_samples` samples |
| `Calibration.MeanIsMean` | legroom/integration/calibration.py:73-75 | mean times number of qualities is their sum; samples without a quality do not count |
| `Calibration.VerdictMeans` | legroom/integration/calibration.py:66-84 | a window is disabled exactly when it has enough samples and its bound or its mean quality is too low |
| `Calibration.BoundMeans` | legroom/integration/calibration.py:66-99 | the bound of a window is Wilson's for its number of successes |
| `Calibration.MixedWindow` | legroom/integration/calibration.py:73-84 | one low quality among high ones does not disable a phase |
| `Calibration.CompressionIsCompress` | legroom/integration/calibration.py:102-104 | two names share a window exactly when they agree but for case and white space, or are `compression` and `compress` |
| `Calibration.BoundAtMostAllSuccesses` | legroom/integration/calibration.py:66-84 | the lower bound of a window is at most that of a window of successes only |
| `Calibration.QualityDecides` | legroom/integration/calibration.py:44-52 | a report is a success exactly when it is applied or skipped and its quality is not below the minimum |
| `Calibration.FeedbackRecovers` | legroom/integration/calibration.py:66-84 | if a full window of successes passes the gate, a full window of good samples enables any phase; if not, no samples at all enable a disabled one; a full window of low qualities disables any phase |
| `FeedbackLoop.OffRoundIsSuccess` | legroom/runtime/pipeline.py:595-617 | the report of a disabled phase is recorded as a success exactly when the quality measured with it is not below the minimum |
| `FeedbackLoop.OffPhaseComesBack` | legroom/proxy/proxy_server.py:380-393 | controller and pipeline together: for any requests and any transform a phase that is off comes back on within `window_size` rounds without low qualities if a full window of successes passes the gate, and otherwise never, whatever the qualities |
| `FeedbackLoop.LowQualitiesLockUp` | legroom/proxy/proxy_server.py:380-393 | after `window_size` rounds with qualities below the minimum the phase is off, whatever it was before and whatever the gate, and stays off as long as they last |
| `Simhash.ComputeFingerprint` | legroom/compressors/adaptive_sizer.py:51-76 | the vote loops compute the majority of each bit over the hashes of the shingles |
| `Simhash.MajorityMeans` | legroom/compressors/adaptive_sizer.py:63-75 | a bit is set exactly when more shingles have it set than clear; a tie leaves it clear |
| `Simhash.ShinglesArePairs` | legroom/compressors/adaptive_sizer.py:58-61 | the shingles are the pairs of neighbouring words, or the only word |
| `Simhash.DistanceIsMetric` | legroom/compressors/adaptive_sizer.py:79-80 | the Hamming distance is symmetric, zero only on equal fingerprints, and satisfies the triangle inequality |
| `Simhash.DistanceAdds` | legroom/compressors/adaptive_sizer.py:79-80 | it counts differing places one by one |
| `Simhash.CountUnique` | legroom/compressors/adaptive_sizer.py:83-100 | the loop counts the fingerprints that are near no earlier counted one |
| `Simhash.KeptIsMaximal` | legroom/compressors/adaptive_sizer.py:94-100 | the counted fingerprints are pairwise far apart and every item is near one of them |
| `Simhash.CountIsPacking` | legroom/compressors/adaptive_sizer.py:83-100 | the count is the size of a selection more than the threshold apart and at least the size of any selection more than twice the threshold apart |
| `AdaptiveSizer.CountBigrams` | legroom/compressors/adaptive_sizer.py:105-111 | the counter lists each distinct bigram once and counts it as often as it occurs |
| `AdaptiveSizer.RankBigrams` | legroom/compressors/adaptive_sizer.py:105-116 | all distinct bigrams, each once, by descending number of occurrences |
| `AdaptiveSizer.ComputeBigramCoverage` | legroom/compressors/adaptive_sizer.py:103-126 | coverage at k is min(k, T)/T for T distinct bigrams, and one without bigrams |
| `AdaptiveSizer.FindKnee` | legroom/compressors/adaptive_sizer.py:129-155 | the first position of the largest positive distance from the diagonal, or everything when there is none |
| `AdaptiveSizer.KneeClosedForm` | legroom/compressors/adaptive_sizer.py:103-155 | the search collapses to min(T, n), or 1 without bigrams |
| `AdaptiveSizer.ComputeOptimalK` | legroom/compressors/adaptive_sizer.py:9-45 | the result as a formula in the number of items, of near-distinct items and of distinct bigrams |
| `AdaptiveSizer.KeepsAtLeast` | legroom/compressors/adaptive_sizer.py:9-45 | small inputs are kept whole, and at least the minimum of the others |
| `AdaptiveSizer.KeepsAtMost` | legroom/compressors/adaptive_sizer.py:9-45 | more than all items is the answer exactly when at most twice the minimum are near-distinct and the biased number of these exceeds the items |
| `AdaptiveSizer.KneeIsBiased` | legroom/compressors/adaptive_sizer.py:37-45 | otherwise the biased knee, rounded down, moved into the range from the minimum to all items |
| `RetentionMask.MergeShortRuns` | legroom/compressors/ml_compressor.py:156-174 | the in-place pass keeps exactly the tokens that were kept or lie in a dropped run shorter than the minimum |
| `RetentionMask.MergedRuns` | legroom/compressors/ml_compressor.py:156-174 | the dropped runs left are exactly the runs of the original mask that are long enough |
| `RetentionMask.MergedKeeps` | legroom/compressors/ml_compressor.py:156-174 | no kept token is dropped |
| `RetentionMask.BuildParts` | legroom/compressors/ml_compressor.py:193-222 | the output loop produces the maximal stretches in order |
| `RetentionMask.EmittedIsRetained` | legroom/compressors/ml_compressor.py:198-206 | every kept token is emitted once, in order, and no dropped one is |
| `RetentionMask.PlaceholdersAreRuns` | legroom/compressors/ml_compressor.py:208-222 | the placeholders are exactly the maximal dropped runs |
| `RetentionMask.PartsAreDistinct` | legroom/compressors/ml_compressor.py:193-222 | parts come in order and do not overlap, so each run has one placeholder |
| `LosslessCompaction.CollapseRuns` | legroom/compressors/lossless_compaction.py:70-91 | the loops collapse each run longer than the limit to a marker and one line |
| `LosslessCompaction.CollapseRoundTrip` | legroom/compressors/lossless_compaction.py:70-91 | expanding the markers restores the lines exactly when every run of a line that would be expanded is itself collapsed or is the last line alone |
| `LosslessCompaction.NoMarkersIsEnough` | legroom/compressors/lossless_compaction.py:70-91 | that is so when no input line is a marker |
| `LosslessCompaction.NoLongRuns` | legroom/compressors/lossless_compaction.py:70-91 | no run longer than the limit is left anywhere when no input line is a marker |
| `LosslessCompaction.MarkersCollide` | legroom/compressors/lossless_compaction.py:70-91 | with a marker among the input lines two different inputs get the same coding, so no decoder exists |
| `LosslessCompaction.CompressSearchHeadings` | legroom/compressors/lossless_compaction.py:94-128 | the loop groups consecutive hits of one file under one heading |
| `LosslessCompaction.LongestPathIsRead` | legroom/compressors/lossless_compaction.py:23 | every line of the form path, number, content is read as a hit, with the longest possible path |
| `LosslessCompaction.HeadingsRoundTrip` | legroom/compressors/lossless_compaction.py:94-128 | expanding the headings restores every line exactly when no plain line but the first looks like an indented entry |
| `LosslessCompaction.HeadingsCollide` | legroom/compressors/lossless_compaction.py:94-128 | with such a plain line two different inputs get the same coding, so no decoder exists |
| `CrossTurnDedup.DedupBlocks` | legroom/analysis/cross_turn_dedup.py:47-81 | the loop over the `seen` dictionary replaces exactly the large texts whose hash an earlier non-blank text has |
| `CrossTurnDedup.RepeatedAreReplaced` | legroom/analysis/cross_turn_dedup.py:47-81 | exactly the texts of at least 200 bytes whose hash an earlier text that is not blank has become a pointer to the first such text; all others stay |
| `CrossTurnDedup.SourceIsKept` | legroom/analysis/cross_turn_dedup.py:66-79 | a pointer names an earlier block that is kept verbatim |
| `CrossTurnDedup.DedupRoundTrip` | legroom/analysis/cross_turn_dedup.py:47-81 | resolving the pointers restores the input exactly when no replaced text collides with the first text of its hash and every kept text that reads as a pointer to a block equals what that block became |
| `CrossTurnDedup.PlainRoundTrip` | legroom/analysis/cross_turn_dedup.py:47-81 | without texts that spell pointers, exactly when there are no such collisions |
| `CrossTurnDedup.InjectiveHasNoCollisions` | legroom/analysis/cross_turn_dedup.py:13-15 | an injective hash meets that condition |
| `CrossTurnDedup.LaterTurnsChangeNothing` | legroom/analysis/cross_turn_dedup.py:61 | appending blocks never changes what earlier blocks became |
| `CrossTurnDedup.PointersCollide` | legroom/analysis/cross_turn_dedup.py:66-76 | a text that spells a pointer gets the same coding as the repetition it describes |

## Left out

- Pipeline.InjectionIsSafe: the source writes the instructions into the system message in place, so the caller's list changes, the status is `skipped` and the inflation guard cannot undo it; messages are values here, so none of this is captured.
- WholeRun.TransformPipeline.Apply: strict mode, which re-raises, and the lookup and storage of prefixes around the chain are not modelled; the keys of lookup and storage come from different message lists.
- WholeRun.OnlyInjectionReverts: the source reports the injection as `skipped`, because it changes the list in place; here it is `applied`, so the status is not stated.
- WholeRun.StandardRun: the text injected in place stays in the messages that a reverted run returns; here it does not.
- Pipeline.StandardPhasesAreSafe: the transforms of the phases are arbitrary functions that keep roles and ids; what each of them compresses is not modelled.
- ReadLifecycle.BuildToolMetadata: ids, names and texts are strings without lone surrogates, and lists and dictionaries stand where the wire formats have them; other documents, numbers that are not finite, and numbers or nesting beyond what Python parses are not modelled.
- ReadLifecycle.ReplaceContent: a path that is a fraction or a boolean is printed as a whole number in markers.
- ReadLifecycle.ApplyLifecycle: the lists of transforms and hashes and the byte counts are not modelled.
- PrefixPointers.Deduplicate: the alignment to token boundaries that follows in `optimize` needs a tokenizer and is not modelled, nor are the statistics and the prefix map in the result.
- PrefixPointers.ChainsExcluded: a text that is shortened twice need not end in a chain; `ChainsExcludedExactly` says when the result is what the table says.
- PrefixExamples.RecoverableExactly: for two messages with texts that do not start like a pointer, and a minimum number of occurrences of at most two; more messages are covered by `PointersCollide` only.
- BracketScanner.FindBalancedEnd: the compiled variant for bytes is not modelled.
- CanonicalJson.CanonicalIsComplete: numbers are exact reals; infinite floats and NaN, for which `int` raises, and the text that `json.dumps` writes are not modelled.
- JsonSpans.CanonicalizeText: decoding a span and printing its canonical form is one function parameter.
- Wilson.BoundInRange: floats are exact reals with a square root given by its square; rounding is not modelled.
- AdaptiveSizer.ComputeOptimalK: rounding of floats, lower-casing and splitting into words are not modelled.
- Calibration.CalibrationController.Record: clean-up of names is a parameter, and reports are recorded one by one.
- CompressionCache.CompressionResultCache.Lookup: the clock is a parameter, copies of values are not modelled, and neither are the functions that build keys.
- StablePrefix.StablePrefixCache.GetOrCompute: key and compressor are parameters, the compressor pure; token counts of entries and `clear` are not modelled.
- UsageStream.StreamingUsageParser.Feed: decoding a payload is a parameter.
- RetentionMask.BuildParts: scores, thresholds, decoding of tokens and the text of a placeholder are not modelled.
- LosslessCompaction.CollapseRoundTrip: splitting a text into lines and joining them is not modelled.
- LosslessCompaction.HeadingsRoundTrip: only ASCII digits count as digits.
- Locks, threads and worker loops are not modelled.
- The HTTP proxy, routes, dashboard, command line and client libraries are input and output around these algorithms.
- The log and code compressors, salience and query scores are heuristics without an exact contract.
- The loop over the tools of a request body and the loop over all reports of a run only apply the modelled steps to each element.

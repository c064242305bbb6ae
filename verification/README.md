# missiond in Dafny

A Dafny 4.11 model of the stateful algorithms of missiond, with proofs of what they keep over
whole runs. `dafny verify dfyconfig.toml` checks everything.

| Files | What they model |
|---|---|
| `FrameDiff`, `Replay`, `Assembling`, `Extractor` | The incremental terminal extractor: screens, row operations, replay, and the streamed text |
| `Kernel`, `CellRuntimes`, `RuntimeRuns`, `Autopilot` | The guarded cell runtime: budgets, the idempotency window, activation modes, the autopilot cell |
| `Lines`, `SkillText`, `SkillRoundTrip`, `SkillFile`, `Frontmatter`, `TopicFile` | Skill files: writing a topic, taking front matter off and out, parsing sections |
| `SplitArgs` | The quote-aware argument splitter |
| `SlotDispatch`, `SlotProtocol`, `SlotGuards` | The per-slot dispatch lock: as an object, as interleaved atomic steps, and with its guards |
| `CompactRestart`, `CompactLock` | The compact restart of pending slots, alone and as one thread on the lock table |
| `Cooldown`, `DetectorHistory`, `AnomalyDetection` | The PTY anomaly detector and its report cooldown |
| `Utf8`, `Mmr`, `Hybrid` | Byte-limit truncation, MMR selection, hybrid search |
| `TaskTree`, `TaskOrder`, `TaskStores` | Board tasks: subtree deletion and reordering |
| `StyledRow`, `ExtractionLane` | Styled terminal rows; the extraction lane and the deep-analysis fuse |
| `Text`, `Sorting`, `Selection` | Trimming by the Unicode White_Space property; the standard library's stable sort; what it means to keep some elements of a list |

Objects the program updates in place are classes. Their methods are proved equal to functions of
everything the object has seen (kept in ghost fields), and the lemmas are about those functions.

For these properties the condition under which they hold is proved exact, in both directions:

- A frame keeps every correct transcript correct exactly if no stable row enters above the old
  window (`Replay.FrameKeepsAgreement`). For runs that break it, `Replay.UnskippedRowsAreRight`
  says which rows are still right, and `Extractor.ShrinkingGridLosesRow` shows a lost one.
- A skill file reads back as written exactly if every section is well formed and no front-matter
  value holds a rule with a heading line after it (`SkillFile.RoundTrip`, `TopicFile.TopicRoundTrip`).
- The front matter comes back as the fields it was written from exactly if no field holds a rule, a
  line feed, or a carriage return at its end (`Frontmatter.FrontmatterComesBackIff`).
- Joined arguments split back exactly if every part is trimmed, not empty and without a bare
  comma, and all but the last are closed (`SplitArgs.SplitJoinRoundTrip`). The last part may end
  inside quotes or an escape.
- Redelivering an event triggers its command again exactly if the budget admits the event and at
  least `capacity` further keys were accepted since (`Autopilot.RedeliveryIsSilentIff`). A failed
  command is tried again under the same condition (`Autopilot.FailedCommandIsRetriedIff`).
- A correlation keeps to its event budget exactly as long as its 32-bit counter has not wrapped
  (`RuntimeRuns.BudgetIsKeptIff`).
- A release keeps owners and held slots in step exactly if its thread owns the slot or nobody holds
  it (`SlotProtocol.ReleaseKeepsOwnersIff`).
- Collecting descendants ends exactly if no cycle lies at or below the start
  (`TaskTree.EndsIffAcyclic`).
- A byte position can be cut exactly if whole characters fill the bytes before it
  (`Utf8.BoundaryIffOffset`, `Utf8.SampleCutSucceedsIff`).

Others are proved under a hypothesis that is not claimed to be necessary: streaming equals batch
for runs that only grow at the bottom, exclusion for threads that release only what they own (which
`SlotGuards.GuardedRunsAreDisciplined` derives for users of guards, and `CompactLock` for the compact
restart), the ranks of merged ids for duplicate-free inputs, and what reordering shows for unique ids.

Points where the code differs from what one might expect, kept as they are:

- `release` does not check ownership, so exclusion needs the discipline that only owners release.
  `SlotProtocol.ReleaseKeepsOwnersIff` and `SlotProtocol.BareReleaseBreaksExclusion` make that exact.
- Idempotency keys are recorded before interpretation, so a failed command is not retried until its
  key has left the window (`Autopilot.FailedCommandIsRetriedIff`).
- The per-correlation counter is 32 bits wide. It is modelled as wrapping, which is what a release
  build does; a debug build stops instead. `RuntimeRuns.AdmittedIsQuota` and
  `RuntimeRuns.WrapReopensBudget` state the consequence.
- The anomaly sample is cut at byte 500 without looking for a character boundary
  (`Utf8.SampleCutSucceedsIff`, `Utf8.SampleCutCanFail`).
- Nothing stops two tasks from naming each other as parent; collecting their descendants then never
  ends (`TaskTree.TwoTaskCycle`).
- A stuck-slot reset leaves the lane idle with a running busy clock; the invariant of
  `ExtractionLane.Lane` says exactly when that is so.

What the program gets from outside is a parameter: the terminal grid, the stable-line regular
expressions (`Transient`), the cell's reply and the interpreter's verdicts, the world's answers
during a compact restart, similarity values, and the server's answer to a board action. Clock
readings come from a clock that never goes back.

## Model

| member | source | states |
|---|---|---|
| FrameDiff.StableAfterTrimEnd | crates/missiond-pty/src/extractor.rs:406-447 | stability depends only on the trimmed text |
| FrameDiff.RowOpFromPasses | crates/missiond-pty/src/extractor.rs:275-386 | at most one of the two passes touches a row, and what it yields is the operation that the row's stable text before and after calls for |
| FrameDiff.AddedAreEntered | crates/missiond-pty/src/extractor.rs:281-302 | the added rows are exactly the nonblank rows that came into view, not above the old window, from top to bottom |
| FrameDiff.ModifiedAreChanged | crates/missiond-pty/src/extractor.rs:304-315 | the modified rows are exactly the nonblank rows whose text changed, from top to bottom |
| FrameDiff.RowOpWhenTextIsNew | crates/missiond-pty/src/extractor.rs:332-386 | a row gets an operation exactly if its stable text is new, an append exactly if the old text goes on, and else its own text and wrap flag |
| FrameDiff.SortMovesGreatestLast | crates/missiond-pty/src/extractor.rs:388-400 | the stable sort puts an operation on a row below all others last, wherever it was pushed |
| FrameDiff.SortedPassesAreRowOps | crates/missiond-pty/src/extractor.rs:250-403 | added rows, then modified rows, then the sort, give exactly the row operations from top to bottom |
| FrameDiff.FrameOpsIncrease | crates/missiond-pty/src/extractor.rs:388-400 | a frame has at most one operation per row, strictly increasing in y |
| Replay.ReplayIsRowwise | crates/missiond-pty/src/extractor.rs:53-70 | replaying a frame, each row sees its own operation and no other |
| Replay.RowOpPatches | crates/missiond-pty/src/extractor.rs:352-385 | a row's operation turns its old stable text into its new one |
| Replay.FrameKeepsAgreement | crates/missiond-pty/src/extractor.rs:275-299 | a frame keeps every correct transcript correct if and only if no stable row enters above the old window |
| Replay.RunAgrees | crates/missiond-pty/src/extractor.rs:163-168 | over any run hiding no stable row, replaying all operations gives the end-trimmed text of every stable row of the latest screen |
| Replay.MonotoneRunAgrees | crates/missiond-pty/src/extractor.rs:250-315 | the same when the window's start never decreases |
| Replay.UnskippedRowsAreRight | crates/missiond-pty/src/extractor.rs:287-290 | over any run at all, every stable row is right that was not skipped above the old window since it was last set |
| Extractor.ShrinkingGridLosesRow | crates/missiond-pty/src/extractor.rs:287-290 | two captured grids after which a stable row is missing from the transcript |
| Assembling.JoinGrows | crates/missiond-pty/src/extractor.rs:477-480 | growing the last row of a joined text appends to it |
| Assembling.FrameStreams | crates/missiond-pty/src/extractor.rs:472-510 | one frame that grows at the bottom takes the joined old rows to the joined new rows |
| Assembling.StreamingEqualsBatch | crates/missiond-pty/src/extractor.rs:472-515 | over runs that only grow at the bottom, the text assembled from all operations is the final stable rows, joined by newlines except before rows that entered as wrapped continuations |
| Assembling.WrapsAreCurrent | crates/missiond-pty/src/extractor.rs:485-497 | if no stable row changes its wrap flag, those are the rows wrapped on the latest screen |
| Assembling.UnwrappedRowsAreLines | crates/missiond-pty/src/extractor.rs:485-497 | without wrapped rows the joined text is the rows joined by newlines |
| Extractor.GrowingGridNeverHides | crates/missiond-pty/src/extractor.rs:195-201 | a grid that never shrinks, or fits the window, hides no stable row |
| Extractor.RowTextReadsCells | crates/missiond-pty/src/extractor.rs:206-220 | a row's text is the characters of exactly the cells that are no spacers, in column order |
| Extractor.SpacersVanish | crates/missiond-pty/src/extractor.rs:206-220 | taking a spacer cell out of a row does not change its text |
| Extractor.IncrementalExtractor.constructor | crates/missiond-pty/src/extractor.rs:151-157 | starts without frames, with the default window of 20 screens and at least 800 lines |
| Extractor.IncrementalExtractor.Extract | crates/missiond-pty/src/extractor.rs:163-168 | records the captured screen and hands out exactly the row operations from the previous one |
| Extractor.IncrementalExtractor.Reset | crates/missiond-pty/src/extractor.rs:171-173 | forgets all frames |
| Extractor.IncrementalExtractor.CaptureScreen | crates/missiond-pty/src/extractor.rs:189-247 | one line for each of the bottom rows: the end-trimmed characters of exactly the cells that are no spacers, wrapped if the first cell says so |
| Extractor.IncrementalExtractor.ComputeDelta | crates/missiond-pty/src/extractor.rs:250-329 | the added rows, modified rows and operations are those of the two screens |
| Extractor.IncrementalExtractor.AllRows | crates/missiond-pty/src/extractor.rs:256-268 | on first capture every nonblank row is new |
| Extractor.IncrementalExtractor.CompareLines | crates/missiond-pty/src/extractor.rs:270-314 | later, entered rows not above the old window are added and changed nonblank rows modified |
| Extractor.IncrementalExtractor.ExtractStableOps | crates/missiond-pty/src/extractor.rs:332-403 | the operations are the sorted operations of the two lists |
| Extractor.IncrementalExtractor.TranscriptIsRight | crates/missiond-pty/src/extractor.rs:163-168 | whatever the object handed out on a run hiding no stable row rebuilds the latest screen |
| Extractor.IncrementalExtractor.StreamIsTheScreen | crates/missiond-pty/src/extractor.rs:504-515 | assembling what it handed out on a run growing at the bottom gives the latest screen's text |
| Extractor.TextAssembler.ApplyOp | crates/missiond-pty/src/extractor.rs:472-501 | the returned chunk is what the buffer grows by |
| Extractor.TextAssembler.ApplyAll | crates/missiond-pty/src/extractor.rs:504-510 | the returned text is the whole growth, and the buffer is the assembly of all operations |
| Extractor.TextAssembler.Finalize | crates/missiond-pty/src/extractor.rs:513-515 | returns the assembly of everything applied; after the operations of a run that only grew at the bottom, that is the latest screen's stable rows |
| Kernel.IdempotencyWindow.InsertNew | crates/missiond-kernel/src/lib.rs:386-396 | accepts a key exactly if it is not among the last `capacity` accepted ones; the window stays those |
| Kernel.OfferKeepsSpaced | crates/missiond-kernel/src/lib.rs:386-396 | any `capacity` + 1 consecutive accepted keys stay pairwise distinct |
| Kernel.WindowHasNoDuplicates | crates/missiond-kernel/src/lib.rs:386-396 | the window never holds a key twice |
| CellRuntimes.RuntimeGuard.CheckEvent | crates/missiond-organism-runtime/src/lib.rs:51-71 | refuses by depth without counting, else counts and refuses above the maximum; keys are untouched |
| CellRuntimes.RetainedPasses | crates/missiond-organism-runtime/src/lib.rs:73-83 | what is retained stands at increasing positions: every effect without a key, and a keyed command exactly if its key is not among the last `capacity` accepted before it |
| CellRuntimes.RuntimeGuard.RetainNewEffects | crates/missiond-organism-runtime/src/lib.rs:73-83 | keeps, in order, exactly the effects without a key and the keyed commands whose key is new |
| CellRuntimes.CellRuntime.HandleEvent | crates/missiond-organism-runtime/src/lib.rs:113-165 | the answer and the new guard and interpreter state, for every mode, reply and interpreter; the reported effects are exactly those that pass deduplication, and refusals and time-outs touch neither keys nor interpreter |
| CellRuntimes.CellRuntime.InterpretAll | crates/missiond-organism-runtime/src/lib.rs:150-155 | interprets the non-noop effects in order up to the first failure |
| RuntimeRuns.ModesAgreeOnGuard | crates/missiond-organism-runtime/src/lib.rs:122-134 | one event list drives the guard through the same states in every mode, whatever the interpreter answers |
| RuntimeRuns.PassiveModesInterpretNothing | crates/missiond-organism-runtime/src/lib.rs:136-149 | shadow and rollback never reach the interpreter |
| RuntimeRuns.InterpretedIsPrefix | crates/missiond-organism-runtime/src/lib.rs:150-155 | the interpreter sees a prefix of the non-noop effects, all of them if none fails |
| RuntimeRuns.StopsAtFailure | crates/missiond-organism-runtime/src/lib.rs:150-155 | it stops early only at an effect that failed |
| RuntimeRuns.SucceedsIffNoneFails | crates/missiond-organism-runtime/src/lib.rs:150-155 | interpretation succeeds if and only if no effect other than the no-ops fails |
| RuntimeRuns.NonNoopSkips | crates/missiond-organism-runtime/src/lib.rs:150-153 | exactly the no-ops are skipped, and the rest keeps its order |
| RuntimeRuns.ModeSimulation | crates/missiond-organism-runtime/src/lib.rs:135-164 | without failures, passive and active runs report the same effects event by event, and the active run interprets exactly the reported non-noop effects in order |
| RuntimeRuns.AcceptedAreRetained | crates/missiond-organism-runtime/src/lib.rs:73-83 | the keys deduplication accepts are those of the effects it lets through |
| RuntimeRuns.KeysAreCarried | crates/missiond-kernel/src/lib.rs:386-396 | the keys of a list of effects are those of its keyed commands, in order |
| RuntimeRuns.AcceptedAreReported | crates/missiond-organism-runtime/src/lib.rs:134-142 | over a run, the accepted keys are those of the reported effects |
| RuntimeRuns.RunIsSpaced | crates/missiond-kernel/src/lib.rs:386-396 | over any run, two acceptances of one key are more than `capacity` acceptances apart |
| RuntimeRuns.InterpretedWereAccepted | crates/missiond-organism-runtime/src/lib.rs:134-155 | the interpreted keyed commands sit, in order, among the accepted keys, even when the interpreter fails |
| RuntimeRuns.AtMostOnce | crates/missiond-organism-runtime/src/lib.rs:73-83 | if one key is interpreted twice, `capacity` further pairwise distinct keys were accepted in between |
| RuntimeRuns.ShortRunsNeverRepeat | crates/missiond-kernel/src/lib.rs:386-396 | a run accepting at most `capacity` + 1 keys interprets none twice |
| RuntimeRuns.CounterCounts | crates/missiond-organism-runtime/src/lib.rs:58-63 | the counter is the number of counted events modulo 2^32 |
| RuntimeRuns.AdmittedByCount | crates/missiond-organism-runtime/src/lib.rs:63-70 | an event is admitted exactly if it is shallow enough and its number within its correlation, modulo 2^32, is at most the maximum |
| RuntimeRuns.AdmittedIsQuota | crates/missiond-organism-runtime/src/lib.rs:51-71 | over any run, how many events of a correlation were admitted, as a function of how many were counted |
| RuntimeRuns.BudgetIsKeptIff | crates/missiond-organism-runtime/src/lib.rs:51-71 | at most the maximum many events of a correlation are admitted, and then as many of them as possible, if and only if fewer than 2^32 were counted |
| RuntimeRuns.WrapReopensBudget | crates/missiond-organism-runtime/src/lib.rs:62-70 | the event that wraps the counter is admitted, whatever the maximum |
| Autopilot.OnEvent | crates/missiond-organism-runtime/src/autopilot.rs:97-109 | every event yields one effect: which of the three keyed commands, or a no-op, by its kind, with the four waking kinds spelled out |
| Autopilot.PrefixesNeverCollide | crates/missiond-organism-runtime/src/autopilot.rs:40-80 | the three command families never share a key |
| Autopilot.KeysIdentifyCommands | crates/missiond-organism-runtime/src/autopilot.rs:40-80 | events share a key only if id and triggered command agree |
| Autopilot.EventsAddFewKeys | crates/missiond-organism-runtime/src/autopilot.rs:97-109 | n events of this cell add at most n keys, after those already there |
| Autopilot.DeliveryIsSilentIff | crates/missiond-organism-runtime/src/lib.rs:73-83 | in any guard state, an event that triggers a command emits none if and only if the budget refuses it or its key is in the window |
| Autopilot.RedeliveryIsSilentIff | crates/missiond-organism-runtime/src/lib.rs:73-83 | handled again after any inputs not offering its key, an event emits no second command if and only if the budget refuses it or fewer than `capacity` further keys were accepted |
| Autopilot.OtherIdsOfferOtherKeys | crates/missiond-organism-runtime/src/autopilot.rs:40-80 | events of this cell with other ids are such inputs |
| Autopilot.RedeliveryIsSilent | crates/missiond-organism-runtime/src/autopilot.rs:97-109 | an event handled again after fewer than `capacity` others, of whatever ids, emits no second command |
| Autopilot.EmptyWindowAlwaysRetries | crates/missiond-kernel/src/lib.rs:386-396 | with capacity 0 every admitted redelivery emits the command again |
| Autopilot.FailedCommandIsRetriedIff | crates/missiond-organism-runtime/src/lib.rs:134-155 | on redelivery the interpreter is given a failed command again if and only if the budget admits the event and at least `capacity` further keys were accepted since |
| Lines.FirstLine | crates/missiond-core/src/skill.rs:594 | a first line without line feed is split off, less one carriage return |
| Lines.SplitConcat | crates/missiond-core/src/skill.rs:594 | the lines of two texts one after the other are their lines, if the first ends a line |
| Lines.UnlinesRebuilds | crates/missiond-core/src/skill.rs:594-621 | re-joining lines rebuilds the text exactly if no carriage return was dropped, and else is shorter |
| Lines.SplitUnlinesIff | crates/missiond-core/src/skill.rs:594-621 | lines written out come back if and only if each is a single line without a carriage return at its end |
| Lines.Find | crates/missiond-core/src/skill.rs:452 | the first occurrence of a pattern, or none |
| SkillText.ParseSections | crates/missiond-core/src/skill.rs:588-634 | the numbered sections of the line-by-line reader, counted from zero |
| SkillText.MaterializeTopic | crates/missiond-core/src/skill.rs:866-914 | front matter, then all sections, then all fragments, as rendered; sections and fragments are exactly the blocks of those types in list order |
| SkillText.WriteFrontmatter | crates/missiond-core/src/skill.rs:866-882 | the fields that are present, in order, after the opening rule |
| SkillText.WriteSections | crates/missiond-core/src/skill.rs:895-906 | each section's title, content and closing rule, in order |
| SkillText.WriteFragments | crates/missiond-core/src/skill.rs:908-914 | one heading and one dash line per fragment, nothing without fragments |
| SkillRoundTrip.ReadAppends | crates/missiond-core/src/skill.rs:588-634 | finished sections are only ever appended to |
| SkillRoundTrip.HeadingIff | crates/missiond-core/src/skill.rs:596 | a heading is one or two hashes followed by a blank |
| SkillRoundTrip.SectionTextIsLines | crates/missiond-core/src/skill.rs:895-906 | the lines a section is written as |
| SkillRoundTrip.SectionsReadApart | crates/missiond-core/src/skill.rs:895-906 | written sections are read independently of each other |
| SkillRoundTrip.ReadYieldsReadable | crates/missiond-core/src/skill.rs:594-631 | every section read has a single-line heading as title and a trimmed content |
| SkillRoundTrip.OpenSectionIsRead | crates/missiond-core/src/skill.rs:594-631 | an open section is read; a further heading makes it two, a rule cuts its text short |
| SkillRoundTrip.ReadsBackIffWellFormed | crates/missiond-core/src/skill.rs:588-634 | a written section reads back as itself if and only if it is well formed |
| SkillFile.SectionsReadBackIffWellFormed | crates/missiond-core/src/skill.rs:895-906 | a list of sections reads back if and only if each is well formed |
| SkillFile.FragmentsRead | crates/missiond-core/src/skill.rs:908-914 | all fragments come back as the content of exactly one section |
| SkillFile.StripRendered | crates/missiond-core/src/skill.rs:446-457 | stripping ends at the first rule: the closing one, or one inside a value |
| SkillFile.FileReads | crates/missiond-core/src/skill.rs:446-457 | a file is read as sections hidden in its front matter, what each section yields, and one for the fragments |
| SkillFile.RoundTrip | crates/missiond-core/src/skill.rs:588-634 | parsing the stripped rendering returns titles, contents and sort orders 0, 1, 2, ... if and only if all sections are well formed and the front matter hides no heading |
| TopicFile.TopicRoundTrip | crates/missiond-core/src/skill.rs:884-914 | from the stored blocks on: the parsed file holds the section blocks in list order, numbered from zero, and then one section with a line per fragment block, if and only if every section block is well formed and no front-matter value has a rule with a heading line after it |
| TopicFile.FragmentLinesAre | crates/missiond-core/src/skill.rs:909-914 | one line per fragment: its content, line feeds replaced by blanks, behind a dash |
| SkillText.OfTypePicks | crates/missiond-core/src/skill.rs:885-893 | the filter picks exactly the blocks of one type, in order |
| Frontmatter.ExtractedIsSplit | crates/missiond-core/src/skill.rs:435-457 | extracting and stripping cut a file at its first two rules and leave nothing else out |
| Frontmatter.SplitIsExtracted | crates/missiond-core/src/skill.rs:435-457 | whatever is cut that way comes apart that way |
| Frontmatter.FrontmatterComesBackIff | crates/missiond-core/src/skill.rs:866-882 | the lines extracted from a written file are the fields that are present, in order, if and only if no field holds a rule, a line feed or a carriage return at its end |
| SplitArgs.SplitArgs | crates/missiond-core/benches/split_args.rs:11-48 | the trimmed nonblank segments between cutting commas |
| SplitArgs.ScannerCountsParities | crates/missiond-core/benches/split_args.rs:17-40 | the two flags are the parities of the trailing backslash run and of the unescaped quotes |
| SplitArgs.SegmentsRejoin | crates/missiond-core/benches/split_args.rs:17-43 | the untrimmed segments joined by commas are the input |
| SplitArgs.KeptKeepsPieces | crates/missiond-core/benches/split_args.rs:33-47 | the parts are exactly the pieces that are not blank, trimmed, in order |
| SplitArgs.CommasCutExactlyWhenBare | crates/missiond-core/benches/split_args.rs:32-38 | a comma splits if and only if it is neither quoted nor escaped |
| SplitArgs.SplitPartsAreTrimmed | crates/missiond-core/benches/split_args.rs:33-47 | every part is trimmed, not empty, and does not start with a comma |
| SplitArgs.SplitOffPart | crates/missiond-core/benches/split_args.rs:11-48 | a closed part in front is split off whole |
| SplitArgs.OpenPartSwallowsComma | crates/missiond-core/benches/split_args.rs:18-31 | a part leaving quotes or an escape open swallows the comma after it |
| SplitArgs.CutPartComesApart | crates/missiond-core/benches/split_args.rs:32-38 | a part with a bare comma never comes back whole |
| SplitArgs.SplitJoinRoundTrip | crates/missiond-core/benches/split_args.rs:11-48 | splitting joined parts returns them if and only if they are splittable |
| SlotDispatch.AtomicBool.CompareExchange | crates/missiond-daemon/src/slot_dispatch.rs:53-54 | sets the flag exactly if it had the expected value |
| SlotDispatch.SlotDispatchGuard.GetFlag | crates/missiond-daemon/src/slot_dispatch.rs:33-47 | returns the slot's flag, creating it clear once and never replacing any; nothing held changes |
| SlotDispatch.SlotDispatchGuard.TryAcquire | crates/missiond-daemon/src/slot_dispatch.rs:51-55 | succeeds exactly if the slot was not held, and holds it afterwards |
| SlotDispatch.SlotDispatchGuard.Release | crates/missiond-daemon/src/slot_dispatch.rs:58-60 | the slot is not held afterwards, all others are as before |
| SlotDispatch.SlotDispatchGuard.TryAcquireGuard | crates/missiond-daemon/src/slot_dispatch.rs:64-73 | yields a guard for the slot exactly if it was not held |
| SlotDispatch.SlotAcquireGuard.Drop | crates/missiond-daemon/src/slot_dispatch.rs:89-93 | dropping the guard gives back its slot and no other |
| SlotProtocol.StepRefines | crates/missiond-daemon/src/slot_dispatch.rs:33-60 | under any interleaving the flag access is the atomic effect of a call on the set of held slots; all other steps change no lock |
| SlotProtocol.RunsAreLinearizable | crates/missiond-daemon/src/slot_dispatch.rs:33-60 | every interleaving of any callers has the results of a sequential run of the atomic table, and no slot ever gets a second flag |
| SlotProtocol.ReleaseKeepsOwnersIff | crates/missiond-daemon/src/slot_dispatch.rs:58-60 | a release keeps owners and held slots in step if and only if its thread owns the slot or nobody holds it |
| SlotProtocol.StepKeepsOwners | crates/missiond-daemon/src/slot_dispatch.rs:51-60 | each step of callers that release only what they own keeps one owner per held slot |
| SlotProtocol.RunsAreExclusive | crates/missiond-daemon/src/slot_dispatch.rs:64-93 | over every such interleaving exactly the held slots have an owner, and only one |
| SlotGuards.GuardedRunsAreDisciplined | crates/missiond-daemon/src/slot_dispatch.rs:64-93 | threads that release only by dropping guards obtained from successful acquires release only what they own |
| SlotGuards.GuardsExclude | crates/missiond-daemon/src/slot_dispatch.rs:75-93 | in every interleaving of such threads, a slot with a guard is held and two guards of one slot belong to one thread |
| SlotProtocol.AtMostOneOwner | crates/missiond-daemon/src/slot_dispatch.rs:1-5 | from the empty table on, two owners of one slot are the same thread |
| SlotProtocol.BareReleaseBreaksExclusion | crates/missiond-daemon/src/slot_dispatch.rs:58-60 | a release by a thread owning nothing leads to two owners of one slot |
| CompactRestart.Supervisor.CheckPendingCompactRestarts | crates/missiond-daemon/src/supervisor.rs:75-150 | visits each pending slot once, with the events of its turn, and leaves pending exactly those not restarted |
| CompactRestart.Supervisor.RestartOne | crates/missiond-daemon/src/supervisor.rs:84-149 | the events of one slot's turn, in order, for every answer of the world |
| CompactRestart.TurnObeys | crates/missiond-daemon/src/supervisor.rs:91-134 | one turn obeys the lock discipline and ends holding nothing |
| CompactRestart.PassObeys | crates/missiond-daemon/src/supervisor.rs:75-150 | over every pending set, kill and requeue happen only under the slot's lock, two locks are never held, every killed slot is requeued and loses its claims before its lock is released and is respawned before it leaves the set, and the pass ends holding and owing nothing |
| CompactRestart.ReleasesMatchAcquires | crates/missiond-daemon/src/supervisor.rs:96-134 | each successful acquire has exactly one release, a failed one none |
| CompactRestart.DutiesMatchKills | crates/missiond-daemon/src/supervisor.rs:121-148 | each successful kill has exactly one requeue, release of claims, respawn and removal, unless still owed |
| CompactRestart.KilledSlotsAreServed | crates/missiond-daemon/src/supervisor.rs:121-148 | over a pass every slot is requeued, loses its claims, is respawned and removed exactly as often as it is killed |
| CompactRestart.PassAttempts | crates/missiond-daemon/src/supervisor.rs:84-118 | each pending slot is tried once if idle, and killed once if still idle under the lock; no other slot is touched |
| CompactLock.JointRunAgrees | crates/missiond-daemon/src/supervisor.rs:96-134 | interleaved with other threads on the lock table, the pass owns in the table exactly what its trace says it holds |
| CompactLock.RestartIsExclusive | crates/missiond-daemon/src/supervisor.rs:95-134 | nobody else owns a slot while the pass kills it, requeues its tasks, gives up its claims or is about to release it; its acquire succeeds exactly if nobody holds the slot then |
| CompactLock.NextPassMayStart | crates/missiond-daemon/src/supervisor.rs:75-150 | a pass leaves the table as it must be for the next one |
| Cooldown.GrantsAnswerByHistory | crates/missiond-pty/src/anomaly.rs:371-390 | the answers are the only ones that grant each request exactly if none of its key was granted less than a cooldown before |
| Cooldown.GrantsAreSpaced | crates/missiond-pty/src/anomaly.rs:383-389 | two granted requests for one key are at least a cooldown apart |
| Cooldown.FirstRequestIsGranted | crates/missiond-pty/src/anomaly.rs:383-389 | the first request for a key is granted |
| Cooldown.PrunedRunAnswers | crates/missiond-pty/src/anomaly.rs:372-390 | the pruning table answers as the whole history would |
| Cooldown.PruningIsInvisible | crates/missiond-pty/src/anomaly.rs:375-381 | under a clock that never goes back, pruning changes no answer |
| DetectorHistory.WindowedTwice | crates/missiond-pty/src/anomaly.rs:353-361 | what an earlier pruning dropped, no later window contains |
| DetectorHistory.WindowedIsSuffix | crates/missiond-pty/src/anomaly.rs:353-361 | in time order the window is a suffix: everything before it is older, nothing in it is |
| DetectorHistory.WantedIsDue | crates/missiond-pty/src/anomaly.rs:203-290 | read off the frames: an illegal transition, a stuck state, an unseen session or a low mean confidence over at least ten windowed frames is asked for exactly when it is due |
| DetectorHistory.WantedAnchorsAreLost | crates/missiond-pty/src/anomaly.rs:310-338 | exactly the observations are reported at which an anchor was missed for at least the third time running |
| DetectorHistory.TrailingMissesAreTrailing | crates/missiond-pty/src/anomaly.rs:310-338 | the miss count of an anchor is the length of the trailing run of misses among its own observations |
| DetectorHistory.ReportedAreGranted | crates/missiond-pty/src/anomaly.rs:371-390 | exactly the granted kinds are reported, in order |
| DetectorHistory.KeysTellKindsApart | crates/missiond-pty/src/anomaly.rs:213-330 | different kinds are limited separately |
| DetectorHistory.TotalConcat | crates/missiond-pty/src/anomaly.rs:363-369 | the total confidence adds up sample by sample |
| DetectorHistory.RunStartIsFirstOfRun | crates/missiond-pty/src/anomaly.rs:224-250 | the entry time is that of the first frame of the current run of equal recognised states |
| DetectorHistory.TrailingNoneIsTrailingRun | crates/missiond-pty/src/anomaly.rs:203-205 | the counter is the length of the trailing run of unrecognised frames |
| AnomalyDetection.AnomalyDetector.EmitIfCool | crates/missiond-pty/src/anomaly.rs:372-390 | grants exactly if no request of the key was granted less than a cooldown ago |
| AnomalyDetection.AnomalyDetector.PruneConfidenceWindow | crates/missiond-pty/src/anomaly.rs:353-361 | popping from the front leaves exactly the samples in the window, which are a suffix |
| AnomalyDetection.AnomalyDetector.AddFrame | crates/missiond-pty/src/anomaly.rs:199-201 | the deque stays the full history filtered by the window |
| AnomalyDetection.AnomalyDetector.AvgConfidence | crates/missiond-pty/src/anomaly.rs:363-369 | the mean of the windowed samples, none without samples |
| AnomalyDetection.AnomalyDetector.OnStateDetected | crates/missiond-pty/src/anomaly.rs:187-293 | asks to report exactly what is due by the frames so far, reports what is granted, and all fields stay functions of the history; the anchor checks are untouched |
| AnomalyDetection.AnomalyDetector.OnRecognized | crates/missiond-pty/src/anomaly.rs:203-250 | illegal transitions and stuck states, judged from the history |
| AnomalyDetection.AnomalyDetector.OnUnrecognized | crates/missiond-pty/src/anomaly.rs:251-269 | a long enough run of unrecognised frames |
| AnomalyDetection.AnomalyDetector.CheckAnchors | crates/missiond-pty/src/anomaly.rs:298-340 | a check too soon changes nothing; otherwise the observations are recorded and exactly the lost anchors asked for |
| AnomalyDetection.AnomalyDetector.RecordAnchor | crates/missiond-pty/src/anomaly.rs:310-338 | each anchor's count stays its trailing misses over the recorded checks |
| Utf8.EncodedShape | crates/missiond-core/src/embedding.rs:353 | only the first byte of a character is not a continuation byte |
| Utf8.LeadByteTellsLength | crates/missiond-core/src/embedding.rs:353 | the lead byte tells the length of a character, the least its code point fits into (section 3 of RFC 3629) |
| Utf8.EncodedValue | crates/missiond-core/src/embedding.rs:353 | the bytes of a character hold exactly its code point (section 3 of RFC 3629) |
| Utf8.EncodeIsInjective | crates/missiond-core/src/embedding.rs:347-357 | different texts have different bytes |
| Utf8.BoundariesAreOffsets | crates/missiond-core/src/embedding.rs:353 | inside a text the boundaries are exactly the character offsets |
| Utf8.FittingIsGreatest | crates/missiond-core/src/embedding.rs:347-357 | the number of characters that fit is the greatest such number |
| Utf8.LastBoundary | crates/missiond-core/src/embedding.rs:352-356 | the last boundary within the limit ends the longest fitting prefix, at most 3 bytes back |
| Utf8.CharBoundaryAt | crates/missiond-core/src/embedding.rs:348-357 | returns the byte length of the longest prefix of whole characters within the limit |
| Utf8.FloorCharBoundary | crates/missiond-daemon/src/events_sync.rs:416-425 | returns the same boundary |
| Utf8.TruncateSafe | crates/missiond-daemon/src/supervisor.rs:237-246 | returns the encoding of the longest prefix that fits |
| Utf8.QuotaTail | crates/missiond-daemon/src/supervisor.rs:204-216 | the checked tail is the longest suffix of whole characters within 8000 bytes |
| Utf8.BoundaryIffOffset | crates/missiond-core/src/embedding.rs:353 | a byte position is a boundary if and only if some number of whole characters takes that many bytes |
| Utf8.SampleCutSucceedsIff | crates/missiond-pty/src/anomaly.rs:343-351 | cutting a longer sample at byte 500 succeeds if and only if some number of whole characters takes 500 bytes |
| Utf8.SampleCutCanFail | crates/missiond-pty/src/anomaly.rs:343-351 | a text of 501 bytes on which the cut fails |
| Mmr.Select | crates/missiond-core/src/embedding.rs:247-274 | a greedy selection of distinct positions, max(1, min(top_k, n)) of them |
| Mmr.BestRemaining | crates/missiond-core/src/embedding.rs:255-270 | the scan finds the first best of the remaining positions |
| Mmr.MmrRerank | crates/missiond-core/src/embedding.rs:239-278 | returns the candidates' own indices in selection order |
| Mmr.GreedyPrefix | crates/missiond-core/src/embedding.rs:282-332 | the selection for a smaller top_k is a prefix of that for a larger one |
| Mmr.PureRelevanceKeepsOrder | crates/missiond-core/src/embedding.rs:237-274 | with lambda 1 and candidates sorted by score, positions come out as 0, 1, 2, ... |
| Mmr.MaxSimIsGreatest | crates/missiond-core/src/embedding.rs:257-264 | the similarity that counts against a candidate is its greatest to what was selected, at least zero |
| Mmr.PickPaysOff | crates/missiond-core/src/embedding.rs:265-270 | a pick gains at least as much weighted relevance over any other candidate as it loses in weighted novelty |
| Mmr.EquallyRelevantPicksNovel | crates/missiond-core/src/embedding.rs:265-270 | among candidates of the pick's relevance none is less similar to what was selected, if lambda is below 1 |
| Mmr.EquallySimilarPicksRelevant | crates/missiond-core/src/embedding.rs:265-270 | among candidates as similar as the pick none is more relevant, if lambda is above 0 |
| Sorting.SortSorts | crates/missiond-core/src/embedding.rs:104 | the sort yields a non-increasing permutation |
| Sorting.SortIsStable | crates/missiond-core/src/embedding.rs:104 | items of one key keep their order |
| Hybrid.HybridSearch | crates/missiond-core/src/embedding.rs:91-151 | exactly one scored result per merged id, by non-increasing score, all scores above zero and at most 1/(rrf_k+1) |
| Hybrid.MergeRankings | crates/missiond-core/src/embedding.rs:98-137 | the map of ids with their ranks in the two lists |
| Hybrid.NearestIsNearest | crates/missiond-core/src/embedding.rs:98-104 | cached entries by non-increasing similarity, each once |
| Hybrid.MergedRanks | crates/missiond-core/src/embedding.rs:109-137 | for duplicate-free inputs the ids are those of the first top_k full-text hits and the top_k nearest entries, with their ranks and similarity |
| Hybrid.MergedIdsHaveRank | crates/missiond-core/src/embedding.rs:109-137 | for any inputs, every merged id has a rank in one of the two lists |
| Hybrid.ResultsInRange | crates/missiond-core/src/embedding.rs:71-77 | so the scores of a search lie above zero and at most at 1/(rrf_k+1) |
| Hybrid.DominantComesFirst | crates/missiond-core/src/embedding.rs:139-150 | an id no worse in both rankings and better in one is placed before the other |
| Hybrid.VectorHitComesFirst | crates/missiond-core/src/embedding.rs:71-77 | of two ids found in one ranking only, at the same rank, the one from the vector ranking comes first |
| Hybrid.TopScore | crates/missiond-core/src/embedding.rs:71-77 | the top of both rankings scores 1/(rrf_k+1), of full text alone 0.4 and of vectors alone 0.6 of it |
| TaskTree.GetDescendantIds | packages/board/src/store.ts:7-15 | terminates on every acyclic subtree and lists each child followed by its own descendants |
| TaskTree.DescendantsListed | packages/board/src/store.ts:7-15 | exactly the strict descendants are listed |
| TaskTree.DescendantsListedOnce | packages/board/src/store.ts:7-15 | with unique ids each is listed once |
| TaskTree.DescendantsParentsFirst | packages/board/src/store.ts:7-15 | nothing is listed before all of its parents |
| TaskTree.CycleNestsForever | packages/board/src/store.ts:10-12 | on or above a cycle, call chains of every length exist |
| TaskTree.ChainsAreShort | packages/board/src/store.ts:10-12 | otherwise no call chain is longer than the number of descendants |
| TaskTree.EndsIffAcyclic | packages/board/src/store.ts:7-15 | collecting descendants ends, and then nests at most as deep as there are tasks, if and only if no cycle lies at or below the start |
| TaskTree.TwoTaskCycle | packages/board/src/store.ts:7-15 | two tasks with unique ids on which it never ends |
| TaskTree.DeletionLeavesNoOrphans | packages/board/src/store.ts:230-235 | deletion takes exactly the subtree, keeps all other tasks in their order, and no remaining parent was deleted |
| TaskOrder.MovedPermutes | packages/board/src/store.ts:269-271 | the splices keep every sibling and the relative order of all but the moved one, which lands at the clamped index |
| TaskOrder.ReorderShowsMovedOrder | packages/board/src/store.ts:257-276 | after reordering, the siblings sorted again stand in the moved order with orders 0, 1, 2, ...; every other entry is unchanged |
| TaskOrder.MovedLands | packages/board/src/store.ts:268-271 | the task lands at the place it is sent to, at the end if sent further, counted back from the end if negative |
| TaskOrder.NothingToMoveIff | packages/board/src/store.ts:259-266 | nothing is moved exactly if there is no such task, it is not shown among its siblings, or it stands there already |
| TaskStores.TaskStore.DeleteTask | packages/board/src/store.ts:227-242 | removes the subtree, or restores the previous list if the server refuses |
| TaskStores.TaskStore.ReorderTask | packages/board/src/store.ts:257-287 | renumbers the siblings, a repeated id by its last position, does nothing when there is nothing to move, restores on refusal |
| StyledRow.StyledLineFromCells | crates/missiond-pty/src/screenshot.rs:268-296 | the row up to its last visible cell; spans expand back to it cell by cell and neighbours differ |
| StyledRow.ExpandConcat | crates/missiond-pty/src/screenshot.rs:278-293 | spans stand for their cells one after the other |
| StyledRow.MaximalIsUnique | crates/missiond-pty/src/screenshot.rs:278-293 | there is only one such encoding |
| ExtractionLane.DeepAnalysisFuse.RecordCompletion | crates/missiond-daemon/src/state.rs:312-334 | fires exactly when the trailing run of empty completions has reached the threshold; output clears the fuse |
| ExtractionLane.FiresAfterEmptyRun | crates/missiond-daemon/src/state.rs:326-333 | with a positive threshold, firing means that the last `threshold` completions were all empty |
| ExtractionLane.FuseHoldsSinceBlown | crates/missiond-daemon/src/state.rs:326-333 | a blown fuse holds until that completion's time plus its duration, at least one second, however many empty completions follow |
| ExtractionLane.NoFuseOtherwise | crates/missiond-daemon/src/state.rs:312-333 | without a firing since the last output there is no fuse |
| ExtractionLane.Lane.BeginTask | crates/missiond-daemon/src/runtime_actors.rs:187-204 | the lane is busy with the given work and its replay cache is empty |
| ExtractionLane.Lane.ServeBatch | crates/missiond-daemon/src/runtime_actors.rs:207-217 | the batch is cached; phase and busy clock stay |
| ExtractionLane.Lane.CompleteTask | crates/missiond-daemon/src/runtime_actors.rs:220-235 | the lane is idle, phase, type, work and busy clock agreeing |
| ExtractionLane.Lane.TimeOut | crates/missiond-daemon/src/runtime_actors.rs:238-249 | the same, keeping the output count |
| ExtractionLane.Lane.ResetStuck | crates/missiond-daemon/src/supervisor.rs:500-544 | the lane is idle but its busy clock restarts |

## Left out

- PTY processes, tokio tasks and channels, database, HTTP, IPC, filesystem and serialisation code: I/O and wiring.
- Contents of regular expressions, JSON and YAML decoding, checksums: parameters or absent.
- Floating-point rounding and NaN: scores and similarities are exact reals, so "finite" is built in.
- Extractor.IncrementalExtractor.ComputeDelta: cursor position, timestamp and scroll amount are left out, because they are passed through without affecting any operation.
- Malformed snapshots whose row count disagrees with their window: capture never makes them.
- Tokenisation for the text variant of MMR and the cosine formula: similarity is a parameter of the one selection algorithm both variants share.
- Hexadecimal colour strings of styled spans and colour tables: lookups.
- Message texts and sample texts of anomalies: the kind and severity are kept.
- Counters of the anomaly detector: taken as unbounded, so fewer than 2^32 frames or checks in a row are assumed.
- CompactRestart.Supervisor.CheckPendingCompactRestarts: slots that other code adds to the pending set during a pass are not modelled; the lock is seen through the world's answer whether someone else holds it, which `CompactLock` ties to the lock table.
- SlotGuards.GuardedRunsAreDisciplined: a guard stays with the thread that acquired it; handing guards between threads is not modelled, since they borrow the table.
- TaskStores.TaskStore.DeleteTask: changes made to the list while the server's answer is outstanding are not modelled; the source would drop them on refusal, too.
- Concurrent interleavings of the extraction lane: the state lock is given up before the busy clock is stored, so only serialized commands keep the lane consistent.
- Forced reset by the extraction gate: it applies only in a phase no lane command enters, and leaves the busy clock alone.
- Prompt-echo stripping, event-stream deduplication, sandbox and genome checks, React UI and image rendering.

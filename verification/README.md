# Verified models of the Peritus discovery models and release checks

Peritus keeps small executable models beside its production code and compares the two case by case; its release
tooling checks evidence records the same way. This project states what those models promise, proves it for all
inputs and all runs, and, where the production counterpart is short enough, proves that it agrees with the model
everywhere rather than on generated cases.

| modules | subject |
|---|---|
| `LedgerModel`, `LedgerInvariant`, `LedgerSteps`, `LedgerEffects`, `LedgerVerdicts`, `LedgerCapture`, `LedgerHistory`, `LedgerReplies`, `LedgerText` | the accepted-input ledger: append-only revisions, a pending order with dependencies, numbered requests, a generation fence, the exact verdict on every command, the greedy capture of what the next request sees, and its text word for word |
| `LedgerMachine` | the same ledger as a class whose methods change its fields, proved against the functions of `LedgerModel` |
| `LedgerProduction`, `LedgerDecoded`, `LedgerProductionCapture` | the production transition, validation and captures, proved to agree with the model over whole histories, and what validation accepts among all ledger values, such as those read back from storage |
| `Invalidation`, `InvalidationEffects`, `InvalidationMachine`, `InvalidationProduction` | working memory: staleness spreading along dependencies, frontiers, repairs; the worklist and the production passes both compute one specification |
| `Graph`, `Closure`, `Elimination` | walks and reachability; the in-place closure, the stack search and the production elimination decide the same acyclicity |
| `Statistics` | the binomial fold, exact pass@k, and the production estimator's error bound |
| `Pointer`, `Plans`, `PlanCalls`, `PlanMachine`, `PlanPages` | JSON Pointer, the plan interpreter, what its calls carry and answer, the admit/execute/complete protocol with its log, and the production executor in pages |
| `Archive`, `Evidence`, `EvidenceBuild` | archive inventories, chains of compilation records, and the records an honest build writes |
| `Text` | UTF-8, and which text is accepted |
| `Common` | sequences |

A ledger, a memory and a log are values; functions such as `LedgerModel.Apply`, `Invalidation.Recomputed` and
`Plans.Interpret` say what each operation does to them, branch by branch. Classes and loops exist where the code
has them, and each is proved to compute those functions. The results about runs quantify over all sequences of
commands or operations, rejected ones included; runs of the ledger start from the empty ledger or from any other that
validation accepts.

Parameters stand for what the code takes from elsewhere: the request byte limit (`max`), the host an assembly runs
on, the bytes of a built product. Text is a sequence of Unicode scalar values and its length is the length of its
UTF-8 encoding; identities, digests, invocations and times are opaque or natural numbers.

Where the code and a document disagree the code is followed: the pointer evaluator accepts an array index with a
leading `+`, which section 4 of RFC 6901 does not allow (`Pointer.PlusIndexIsAccepted`, and
`Pointer.EvaluationHasPath` says exactly when a pointer is affected).

Specification functions without a contract of their own correspond to the source as follows:
`LedgerModel.ConstructorValid` and `Text.ValidText` to inputs.rs lines 320-342, `EnqueueRow` to 378-407, `Apply` to
408-423, `Mutate` to 424-486, `IncorporateRequest` to 487-524, `OrderValid` to 525-536, `Pick` and `CaptureView` to
537-569, `CaptureReplies` to 570-616; `Invalidation.CaptureBasis`, `Holds`, `Recomputed` and `Step` to
invalidation.rs lines 174-241 and 433-530; `Pointer.Evaluate` and `Plans.Interpret` to plans.rs lines 660-756.

## Model

| member | source | states |
|---|---|---|
| `Text.EncodedChar` | discovery/proptest-praxis/owner/inputs.rs:335-342 | every character has exactly one encoding, a sequence of the grammar in section 4 of RFC 3629, and reads back as itself |
| `Text.EncodesEverySequence` | discovery/proptest-praxis/owner/inputs.rs:335-342 | conversely every sequence of that grammar is the encoding of its character |
| `Text.EncodingKeepsOrder` | discovery/proptest-praxis/owner/inputs.rs:335-342 | byte order is code point order, so the encoding is the only such assignment |
| `Text.DecodesBytes` | discovery/proptest-praxis/owner/inputs.rs:335-342 | decoding the bytes of any text gives the text back |
| `Text.DecodedBytes` | discovery/proptest-praxis/owner/inputs.rs:335-342 | conversely whatever decodes is exactly the bytes of the decoded text |
| `Text.ByteLen` | discovery/proptest-praxis/owner/inputs.rs:335-342 | the length that limits are measured in is the number of bytes of the UTF-8 encoding |
| `Text.AcceptedText` | discovery/proptest-praxis/owner/inputs.rs:335-342 | text is accepted exactly when it has at most 8192 bytes, some character outside the 25 white-space code points, and no control character but newline and tab |
| `LedgerModel.LatestBefore` | discovery/proptest-praxis/owner/inputs.rs:344-346 | the newest row of an identity: the last match before the bound, or none exists |
| `LedgerModel.ExactIndex` | discovery/proptest-praxis/owner/inputs.rs:347-349 | the oldest row carrying exactly this identity and revision, or none exists |
| `LedgerModel.PendingIndex` | discovery/proptest-praxis/owner/inputs.rs:350-364 | success means the newest row of the identity, exactly the selected revision, and still queued or held |
| `LedgerModel.PendingIndexErrors` | discovery/proptest-praxis/owner/inputs.rs:350-364 | a refused selection is NotFound exactly when no row has its identity, StaleRevision exactly when the newest row is another revision, InvalidInput exactly when it is no longer pending |
| `LedgerSteps.RunKeepsInvariant` | discovery/proptest-praxis/owner/inputs.rs:378-536 | every run, from the empty or any other well-formed ledger, keeps the ledger shape: the order is duplicate-free and lists exactly the identities whose newest row is queued or held, superseded means a newer row exists, requests are bound to exactly the rows they incorporated, and the closing check holds |
| `LedgerSteps.MutateKeepsShape` | discovery/proptest-praxis/owner/inputs.rs:424-486 | each single command that passes its own guards keeps the shape; the order stays valid for every command except moves, reorders and an enqueue after a withdrawn dependency |
| `LedgerSteps.EnqueueStep` | discovery/proptest-praxis/owner/inputs.rs:378-407 | an appended input keeps the shape, and the order stays valid exactly when none of its dependencies was withdrawn |
| `LedgerSteps.EditStep` | discovery/proptest-praxis/owner/inputs.rs:429-438 | superseding the newest row and appending its successor keeps shape and order |
| `LedgerSteps.WithdrawStep` | discovery/proptest-praxis/owner/inputs.rs:444-454 | withdrawing an input nobody pending depends on keeps shape and order |
| `LedgerSteps.IncorporateStep` | discovery/proptest-praxis/owner/inputs.rs:487-524 | an accepted request keeps shape and order |
| `LedgerSteps.ReorderIsPermutation` | discovery/proptest-praxis/owner/inputs.rs:467-477 | equal length and one-way membership already make an accepted reorder a permutation |
| `LedgerSteps.MoveIsPermutation` | discovery/proptest-praxis/owner/inputs.rs:455-466 | removing and reinserting one identity permutes the order |
| `LedgerSteps.ClosingCheckIsExact` | discovery/proptest-praxis/owner/inputs.rs:408-423 | after its own guards pass, a command is refused by the closing check exactly when: an enqueue names a withdrawn dependency, an incorporation meets generation 0, or a move or reorder puts an input before one of its pending dependencies; never for edit, hold, withdraw or correct; always with InvalidInput |
| `LedgerEffects.AcceptedCommandEffect` | discovery/proptest-praxis/owner/inputs.rs:408-523 | what each accepted command leaves behind: the newest row of every input it names, the order, and the requests; a moved input stands directly before the named one, the others keep their order; nothing pending depends on a withdrawn input |
| `LedgerEffects.OnlyNamedInputsChange` | discovery/proptest-praxis/owner/inputs.rs:408-523 | an accepted command changes the newest row of no other identity |
| `LedgerEffects.MoveIsExact` | discovery/proptest-praxis/owner/inputs.rs:455-466 | removal and reinsertion leaves the others in order, with the moved input directly before the named one or last |
| `LedgerEffects.HistoryIsAppendOnly` | discovery/proptest-praxis/owner/inputs.rs:378-524 | between any two states of one run rows and requests are only added: a row keeps identity, revision, author, text, dependencies and correction, and stays exactly as it is once superseded, incorporated or withdrawn |
| `LedgerVerdicts.CommandVerdict` | discovery/proptest-praxis/owner/inputs.rs:320-536 | on every ledger of a run: each command is accepted exactly when the named revision is the newest pending one and its own conditions on text, dependencies, dependents, order and generation hold; IdempotencyConflict, NotFound and StaleRevision are each given exactly when stated, and every other refusal is InvalidInput |
| `LedgerVerdicts.RequestVerdict` | discovery/proptest-praxis/owner/inputs.rs:487-524 | the guards of an incorporation in their order: used invocation, items out of queue order, the first item that cannot be taken, a missing dependency |
| `LedgerVerdicts.QueueOrderIs` | discovery/proptest-praxis/owner/inputs.rs:491-496 | filtering the order by the items gives the items back exactly when they all stand in the order, each before the next |
| `LedgerVerdicts.ProductionVerdict` | crates/app/peritus-product-runner/src/control/inputs/transition.rs:33-192 | production accepts and refuses the same commands with the same errors on every ledger it accepts, lists over 65535 being InvalidInput |
| `LedgerCapture.CaptureSelectsExactlyEligible` | discovery/proptest-praxis/owner/inputs.rs:537-553 | one greedy pass picks exactly the newest selections of pending inputs all of whose transitive unincorporated dependencies are queued, themselves included |
| `LedgerCapture.PickInOrder` | discovery/proptest-praxis/owner/inputs.rs:542-552 | what is picked stands in queue order |
| `LedgerCapture.PickedOnce` | discovery/proptest-praxis/owner/inputs.rs:542-552 | no identity is picked twice |
| `LedgerCapture.PickedDepEarlier` | discovery/proptest-praxis/owner/inputs.rs:545-551 | every dependency of a picked input is incorporated or picked before it |
| `LedgerCapture.CaptureFailsOnlyForCapacity` | discovery/proptest-praxis/owner/inputs.rs:537-569 | on a reachable ledger a capture fails only because the conversation is too long, and otherwise lists the incorporated selections followed by the picked ones |
| `LedgerCapture.CapturedPrefixIncorporates` | discovery/proptest-praxis/owner/inputs.rs:408-423 | with a positive generation and an unused invocation, incorporating any prefix of the captured list succeeds; the next capture has the rest pending, the same included list and the same text |
| `LedgerCapture.PrefixAccepted` | discovery/proptest-praxis/owner/inputs.rs:487-524 | such a prefix passes every guard of incorporation: order, exact queued revisions, dependencies already included |
| `LedgerCapture.PrefixRemainder` | discovery/proptest-praxis/owner/inputs.rs:537-553 | after incorporating a prefix the next pass picks exactly the remainder, in the same order |
| `LedgerHistory.RequestsAreTopological` | discovery/proptest-praxis/owner/inputs.rs:487-524 | in every run the concatenated request lists are a duplicate-free topological order of the dependencies, and request v lists a row exactly when that row is Incorporated with invocation v |
| `LedgerHistory.RevisionsCountUp` | discovery/proptest-praxis/owner/inputs.rs:378-440 | in every run the n rows of an identity carry revisions 1 to n in history order, all but the last superseded |
| `LedgerHistory.RunKeepsAuthored` | discovery/proptest-praxis/owner/inputs.rs:378-440 | runs keep what the transition itself writes: all revisions of an input share its dependencies, and a correction depends on exactly its original |
| `LedgerHistory.DependenciesAreAcyclic` | discovery/proptest-praxis/owner/inputs.rs:378-407 | in every run from a ledger the transition wrote no input depends on itself through any path of dependencies |
| `LedgerHistory.CyclesAreWithdrawn` | crates/app/peritus-product-runner/src/control/inputs/transition.rs:194-290 | on any accepted ledger, read back or built, a cycle of dependencies can only join withdrawn inputs |
| `LedgerHistory.WithdrawnCycleIsAccepted` | crates/app/peritus-product-runner/src/control/inputs/transition.rs:205-262 | and such a cycle is accepted: a concrete ledger of two withdrawn inputs that depend on each other |
| `LedgerHistory.GenerationCountsChanges` | discovery/proptest-praxis/owner/inputs.rs:408-416 | in every run the generation is the number of accepted commands other than incorporations |
| `LedgerHistory.EqualGenerationSameInstructions` | discovery/proptest-praxis/owner/inputs.rs:408-423 | two states of one run with equal generation agree on every row's selection, author, text, dependencies and correction; the later order is the earlier one without the identities incorporated in between; both captures include the same selections |
| `LedgerHistory.TakenWerePicked` | discovery/proptest-praxis/owner/inputs.rs:487-524 | an accepted request takes only inputs that a capture taken just before would have picked |
| `LedgerReplies.ReplyCaptureFits` | discovery/proptest-praxis/owner/inputs.rs:570-616 | a successful reply capture renders at most the byte limit, separators, reply prefixes and leading blank included, although only the reply-free text and 32 bytes a reply were measured |
| `LedgerReplies.NoRepliesIsCapture` | discovery/proptest-praxis/owner/inputs.rs:570-616 | with no replies the reply capture is the plain capture |
| `LedgerReplies.ViewEndsWithUser` | discovery/proptest-praxis/owner/inputs.rs:584-601 | replies after the last listed input are withheld unless something is pending: a nonempty view ends with the line of the last included input |
| `LedgerReplies.RepliesShownExactly` | discovery/proptest-praxis/owner/inputs.rs:584-601 | the view shows exactly the replies of requests before the last one with inputs, or all of them when something is pending |
| `LedgerReplies.RunReplyCaptures` | discovery/proptest-praxis/owner/inputs.rs:570-616 | on every run: Capacity exactly when text and charge do not fit, InvalidInput exactly when they fit and some reply names no request, success otherwise and within the limit; without replies the plain capture |
| `LedgerText.CapturedText` | discovery/proptest-praxis/owner/inputs.rs:554-568 | the text of a capture is one paragraph "User: ..." for each included input with the text of its row, joined by blank lines; Capacity exactly when the encoding of that text is over the limit |
| `LedgerText.ReplyCaptureText` | discovery/proptest-praxis/owner/inputs.rs:584-615 | a capture with replies says word for word: the inputs of each request, directly followed by "Peritus (public reply): " and the supplied text when it is shown, then the pending inputs; the shown invocations are listed in request order and all else is as in the plain capture |
| `LedgerText.ShownReplyIsRead` | discovery/proptest-praxis/owner/inputs.rs:584-602 | whenever an invocation is listed as shown, the reply supplied for it stands in the conversation directly after the inputs of its request |
| `LedgerMachine.Ledger.EnqueueInput` | discovery/proptest-praxis/owner/inputs.rs:378-407 | the fields after the call are those of the specified ledger, or are untouched on an error |
| `LedgerMachine.Ledger.ItemIndices` | discovery/proptest-praxis/owner/inputs.rs:502-512 | all item indices, or the error of the first item that is not the exact, newest, queued revision |
| `LedgerMachine.Ledger.MarkItems` | discovery/proptest-praxis/owner/inputs.rs:513-520 | succeeds exactly when every item rests on what was included before it, and then has marked exactly the taken rows |
| `LedgerMachine.Ledger.IncorporateItems` | discovery/proptest-praxis/owner/inputs.rs:487-524 | the guarded in-place loop computes the specified successor or error |
| `LedgerMachine.Ledger.MutateBy` | discovery/proptest-praxis/owner/inputs.rs:424-486 | each in-place branch computes the specified successor or error |
| `LedgerMachine.Ledger.ApplyTo` | discovery/proptest-praxis/owner/inputs.rs:408-423 | returns a fresh successor or the specified error and leaves this ledger alone |
| `LedgerMachine.Ledger.TakeCapture` | discovery/proptest-praxis/owner/inputs.rs:537-569 | the growing loops return the specified capture |
| `LedgerMachine.Ledger.TakeReplyCapture` | discovery/proptest-praxis/owner/inputs.rs:570-616 | the loop over requests with its side list of shown replies returns the specified reply capture |
| `LedgerProduction.ValidateIsClosingCheck` | crates/app/peritus-product-runner/src/control/inputs/transition.rs:194-290 | on a shaped ledger with lists within the bound, validation accepts exactly what the closing check accepts, with the same error |
| `LedgerDecoded.ValidateAcceptsExactly` | crates/app/peritus-product-runner/src/control/inputs/transition.rs:194-290 | for every ledger value: validation passes exactly when revisions run from 1 with all but the last superseded, the order lists the pending identities once each and is valid, the requests are bound, topological and complete, and lists are within the bound |
| `LedgerDecoded.ValidateErrorExact` | crates/app/peritus-product-runner/src/control/inputs/transition.rs:194-290 | a refused ledger is StaleRevision exactly when everything before is in order and the first thing wrong with the requests is a selection no row carries; InvalidInput otherwise |
| `LedgerDecoded.ProductionAnswers` | crates/app/peritus-product-runner/src/control/inputs/transition.rs:33-143 | for every ledger value and command: production first refuses a ledger it does not accept, then answers as the independent model does, except for lists over 65535; what it returns is accepted again |
| `LedgerProduction.ItemsErrorExact` | crates/app/peritus-product-runner/src/control/inputs/transition.rs:264-282 | the running check of one request passes exactly when every item is bound to it, new, and depends only on what precedes it; otherwise it reports the first failing item, StaleRevision if no row carries that selection |
| `LedgerProduction.MarkAgrees` | crates/app/peritus-product-runner/src/control/inputs/transition.rs:125-132 | checking and marking item by item equals checking all items first and marking afterwards |
| `LedgerProduction.ProductionAgrees` | crates/app/peritus-product-runner/src/control/inputs/transition.rs:33-143 | one command on one reachable ledger: production and the independent model give the same successor or the same error, except that production refuses lists over 65535 with InvalidInput |
| `LedgerDecoded.ProdRunKeepsInvariant` | crates/app/peritus-product-runner/src/control/inputs/transition.rs:33-143 | from any accepted ledger every production run stays accepted and keeps the full invariant and the list bound |
| `LedgerDecoded.ProductionRunsAgree` | crates/app/peritus-product-runner/src/control/inputs/transition.rs:33-143 | from any accepted ledger, over every history within the list bound, both go through the same states and answer the next command alike |
| `LedgerDecoded.EmptyIsAccepted` | crates/app/peritus-product-runner/src/control/inputs/transition.rs:194-203 | the empty ledger is accepted, so these results cover every history from its beginning |
| `LedgerProductionCapture.ProductionCaptureAgrees` | crates/app/peritus-product-runner/src/control/inputs/capture.rs:165-213 | appending line by line under a running size check gives the same capture or error as rendering everything and measuring once |
| `LedgerProductionCapture.ProductionRepliesAgree` | crates/app/peritus-product-runner/src/control/inputs/capture.rs:91-163 | with nothing pinned, excluded or replaced the production reply capture equals the model's, including the leading blank before a first reply |
| `LedgerProductionCapture.ReplyViewOutcome` | crates/app/peritus-product-runner/src/control/inputs/capture.rs:105-163 | for any pinned, excluded and replaced replies, replacements being no longer than what they replace (compaction.rs line 167): Capacity exactly when text and charge do not fit, InvalidInput exactly for unknown replies or bad pins, otherwise a view within the limit that shows exactly the selected replies |
| `LedgerText.ReplyViewText` | crates/app/peritus-product-runner/src/control/inputs/capture.rs:105-163 | under any overlay the production view says word for word the inputs of each request, each shown reply in its own or its replacement words, then the pending inputs |
| `LedgerProductionCapture.ProductionRunCapturesAgree` | crates/app/peritus-product-runner/src/control/inputs/capture.rs:71-103 | both captures agree on every production run |
| `LedgerProductionCapture.ProductionPrefixIncorporates` | crates/app/peritus-product-runner/src/control/inputs/capture.rs:165-198 | the fit in production terms: on any accepted ledger any prefix of its capture, within the list bound and under an unused invocation, is accepted by its transition, and its next capture has the rest pending and the same text |
| `Invalidation.AffectedLeast` | discovery/proptest-praxis/src/invalidation.rs:209-241 | what is marked is contained in every set holding the stale and no longer holding entries and closed under dependents |
| `Invalidation.AffectedIs` | discovery/proptest-praxis/src/invalidation.rs:209-241 | any such closed set whose members all rest on a root is exactly the affected set |
| `Invalidation.RecomputeIdempotent` | discovery/proptest-praxis/src/invalidation.rs:209-241 | a second recomputation changes nothing, frontiers included |
| `Invalidation.RecomputeEstablishes` | discovery/proptest-praxis/src/invalidation.rs:209-241 | recomputation closes staleness under dependents, leaves fresh only entries whose capture holds with frontier 0, and bounds every frontier |
| `Invalidation.StepKeepsInvariant` | discovery/proptest-praxis/src/invalidation.rs:433-530 | after every operation a dependent of a stale entry is stale, every fresh capture holds with frontier 0, and source <= stale_through <= observations for every stale entry |
| `Invalidation.RunOf` | discovery/proptest-praxis/src/invalidation.rs:398-530 | the starting memory and every run satisfy that invariant |
| `Invalidation.FreshMatchesEnvironment` | discovery/proptest-praxis/src/invalidation.rs:174-206 | over every run a fresh entry rests on exactly what a capture taken now would record, its file present and its dependencies fresh |
| `Invalidation.RepairIsExact` | discovery/proptest-praxis/src/invalidation.rs:484-513 | a repair makes its entry fresh exactly when its direct dependencies are fresh and its tracked file exists, and leaves every other entry's stale flag, value, source and basis alone |
| `Invalidation.StaleIsPermanent` | discovery/proptest-praxis/src/invalidation.rs:209-241 | without a repair of that entry stale stays stale over any further operations, its value and source unchanged and its frontier never falling |
| `Invalidation.InvalidationCoversEvidence` | discovery/proptest-praxis/src/invalidation.rs:345-364 | after a host invalidation the entry is stale through every observation so far, its own source included |
| `InvalidationEffects.OperationIsExact` | discovery/proptest-praxis/src/invalidation.rs:433-530 | every operation but a repair, from any memory of a run: the files, candidate, conversation, observations and revision it leaves; an entry is stale afterwards exactly when it was, or rests however indirectly on one that the operation touches; content is kept, and the frontier moves exactly where staleness is new or the own basis is outlived |
| `InvalidationEffects.RepairIsExactEverywhere` | discovery/proptest-praxis/src/invalidation.rs:484-513 | a repair: the basis, value, source, flag and frontier of the repaired entry, and what stays of all others |
| `InvalidationEffects.StartsFresh` | discovery/proptest-praxis/src/invalidation.rs:398-430 | before the first operation every entry is fresh and rests on the starting environment |
| `InvalidationMachine.Spread` | discovery/proptest-praxis/src/invalidation.rs:218-225 | the queue over the reverse adjacency ends with exactly the affected set |
| `InvalidationMachine.Reversed` | discovery/proptest-praxis/src/invalidation.rs:212-217 | the reverse adjacency lists exactly the dependents of each node |
| `InvalidationMachine.WorkingMemory.Recompute` | discovery/proptest-praxis/src/invalidation.rs:209-241 | the worklist algorithm computes the recomputation in place |
| `InvalidationMachine.WorkingMemory.MarkStale` | discovery/proptest-praxis/src/invalidation.rs:226-240 | marking refreshes exactly the reached entries: flag set, frontier moved when newly stale or directly invalid |
| `InvalidationMachine.WorkingMemory.ChangeFile` | discovery/proptest-praxis/src/invalidation.rs:436-451 | the file operation in place, unchanged contents included |
| `InvalidationMachine.WorkingMemory.ChangeCandidate` | discovery/proptest-praxis/src/invalidation.rs:452-463 | the candidate operation in place |
| `InvalidationMachine.WorkingMemory.AdvanceConversation` | discovery/proptest-praxis/src/invalidation.rs:464-472 | the conversation operation in place |
| `InvalidationMachine.WorkingMemory.IngestObservation` | discovery/proptest-praxis/src/invalidation.rs:473-483 | an observation moves the counters and no entry |
| `InvalidationMachine.WorkingMemory.RepairEntry` | discovery/proptest-praxis/src/invalidation.rs:484-513 | the repair operation in place |
| `InvalidationMachine.WorkingMemory.InvalidateEntry` | discovery/proptest-praxis/src/invalidation.rs:345-364 | the host invalidation in place |
| `InvalidationProduction.OnePass` | crates/orchestration/peritus-context/src/working/invalidation.rs:22-54 | one scan that reads its own writes only marks reached entries, and reports no change only when no usable entry rests on an unusable one |
| `InvalidationProduction.ReachedLeast` | crates/orchestration/peritus-context/src/working/invalidation.rs:14-57 | what is marked lies in every set that holds the unusable, the no longer valid and those with an unknown dependency, and is closed under dependents |
| `InvalidationProduction.InvalidateEntries` | crates/orchestration/peritus-context/src/working/invalidation.rs:14-57 | at most as many passes as entries mark exactly what rests on something unusable, no longer valid or unknown; superseded entries keep their status, stale ones move their frontier only when directly invalid |
| `InvalidationProduction.MarkedExactly` | crates/orchestration/peritus-context/src/working/invalidation.rs:14-57 | entry by entry: stale afterwards exactly what rests on something stale, superseded, invalid or unknown, superseded entries excepted; the frontier is new exactly where staleness is, or where a stale entry is itself invalid |
| `InvalidationProduction.MarkedIsRecomputed` | crates/orchestration/peritus-context/src/working/invalidation.rs:14-57 | on the memories of the discovery model that is the result of its worklist, frontiers included |
| `Closure.PivotStable` | discovery/fuzz/src/lib.rs:511-518 | round k cannot change its own row and column, so reading updated entries is harmless |
| `Closure.ViaIsClosure` | discovery/fuzz/src/lib.rs:511-518 | the recurrence of the triple loop is nonempty-walk reachability, both ways |
| `Closure.CloseInPlace` | discovery/fuzz/src/lib.rs:511-518 | the in-place triple loop turns the direct-edge matrix into exactly nonempty-walk reachability |
| `Closure.DiagonalAccepts` | discovery/fuzz/src/lib.rs:519 | the diagonal of the closure is clear exactly on acyclic graphs |
| `Closure.MeetsRoot` | discovery/proptest-praxis/src/invalidation.rs:385-396 | the stack search from one root terminates and reports exactly whether the root reaches itself |
| `Closure.SearchAccepts` | discovery/proptest-praxis/src/invalidation.rs:385-396 | the search over all roots accepts exactly the acyclic graphs |
| `Elimination.InitialCounts` | crates/orchestration/peritus-context/src/graph/cycle_count_init.rs:6-27 | every count is the number of dependency entries naming that node |
| `Elimination.RemoveSource` | crates/orchestration/peritus-context/src/graph/cycle_count_update.rs:6-23 | removing a node subtracts each of its dependency entries once, without underflow |
| `Elimination.FirstRemovable` | crates/orchestration/peritus-context/src/graph/cycle_counts.rs:5-18 | the first remaining node without remaining dependents, or none exists |
| `Elimination.PeelOne` | crates/orchestration/peritus-context/src/graph/cycle.rs:26-53 | a node without remaining dependents lies on no cycle |
| `Elimination.StuckMeansCycle` | crates/orchestration/peritus-context/src/graph/cycle.rs:26-53 | when every remaining node has a remaining dependent, each of them is reached from a cycle |
| `Elimination.CycleMember` | crates/orchestration/peritus-context/src/graph/cycle.rs:26-53 | reports nothing exactly on acyclic graphs, and otherwise the least node that some cycle leads to |
| `Statistics.ExactStep` | discovery/fuzz/src/lib.rs:573-574 | every division of the fold is exact: after step i the accumulator is the binomial of n-k+i over i |
| `Statistics.Choose` | discovery/fuzz/src/lib.rs:569-575 | the fold computes Pascal's binomial, zero when k exceeds n |
| `Statistics.PassAtKRange` | discovery/fuzz/src/lib.rs:577-578 | the exact value lies in 0..1000000, is 1000000 exactly when fewer than k draws can miss, and 0 without successes |
| `Statistics.PassAtKMonotone` | discovery/fuzz/src/lib.rs:577-578 | it never falls as successes grow |
| `Statistics.RatioAgrees` | crates/analysis/peritus-eval/src/statistics/pass_at_k.rs:70-105 | the ratio of binomials is the ratio of the products of factors the estimator multiplies |
| `Statistics.CloseStep` | crates/analysis/peritus-eval/src/statistics/pass_at_k.rs:70-105 | one rounding step adds at most half a unit of error |
| `Statistics.FailureEstimate` | crates/analysis/peritus-eval/src/statistics/pass_at_k.rs:70-105 | the fixed-point loop never overflows and stays within k half-units of the true ratio |
| `Statistics.EstimatePassAtK` | crates/analysis/peritus-eval/src/statistics/pass_at_k.rs:70-105 | rejects exactly the invalid inputs; otherwise the estimate is the exact floor or one millionth above it, and within half a millionth plus k half-units of the fixed-point scale of the exact ratio, for all u32 totals and u16 k |
| `Pointer.UnescapeEscape` | discovery/proptest-praxis/owner/plans.rs:666-678 | reading an escaped key gives the key back (section 3 of RFC 6901) |
| `Pointer.EscapeUnescape` | discovery/proptest-praxis/owner/plans.rs:666-678 | a readable token is the escape of what it denotes, so escapes are unique |
| `Pointer.MalformedEscape` | discovery/proptest-praxis/owner/plans.rs:668-677 | a tilde not followed by 0 or 1 makes its token unreadable |
| `Pointer.UnreadableTokenFails` | discovery/proptest-praxis/owner/plans.rs:660-691 | one unreadable token anywhere makes the whole pointer evaluate to nothing |
| `Pointer.PointerReadsPrinted` | discovery/proptest-praxis/owner/plans.rs:660-691 | for any JSON tree and any existing path of keys and indices, the printed pointer evaluates to exactly the value there |
| `Pointer.EvaluationHasPath` | discovery/proptest-praxis/owner/plans.rs:660-691 | conversely, whatever evaluates lies at the path taken, and the pointer is that path printed exactly when no index carries a leading + |
| `Pointer.PlusIndexIsAccepted` | discovery/proptest-praxis/owner/plans.rs:681-686 | the code accepts "/+0", which section 4 of RFC 6901 excludes |
| `Pointer.DecodeToken` | discovery/proptest-praxis/owner/plans.rs:666-678 | the character loop decodes a token or fails |
| `Pointer.EvaluatePointer` | discovery/proptest-praxis/owner/plans.rs:660-691 | the cursor loop with its early exits computes the evaluation |
| `Plans.InterpretLoop` | discovery/proptest-praxis/owner/plans.rs:709-756 | the loop with its three exits computes the interpreter's result |
| `Plans.ReferenceMeaning` | discovery/proptest-praxis/owner/plans.rs:104-116 | the five pointers read the source's successor path, nothing, or a number |
| `Plans.InterpretIsClosedForm` | discovery/proptest-praxis/owner/plans.rs:709-756 | a run is decided by the first node without a path or with the stop: everything before it ran |
| `Plans.StopCutsPrefix` | discovery/proptest-praxis/owner/plans.rs:709-756 | for all stops and triggers the calls are a prefix of the unstopped run's calls |
| `Plans.ReferencesReadEarlierSuccess` | discovery/proptest-praxis/owner/plans.rs:721-736 | every call with a reference takes its path from an earlier, successful output |
| `PlanCalls.CallsAreExact` | discovery/proptest-praxis/owner/plans.rs:718-743 | every call of every run: the tool name, a query exactly for searches, and as path the literal of its node or the string its reference reads from the earlier, successful output |
| `PlanCalls.OutputsAreExact` | discovery/proptest-praxis/owner/plans.rs:574-576 | every output of every run failed exactly on a triggered child or dispatch error; its own path, the three copies of the next path, the number and the repeated content are read off the JSON |
| `PlanMachine.Control.AfterExecute` | discovery/proptest-praxis/owner/plans.rs:274-296 | withdraws authority and records the stop, on the triggering node only |
| `PlanMachine.Control.AdmitTool` | discovery/proptest-praxis/owner/plans.rs:332-357 | refuses a wrong role, effect or input revision untouched, else logs the admission and yields on its stop |
| `PlanMachine.Control.CompleteTool` | discovery/proptest-praxis/owner/plans.rs:358-386 | refuses a changed invocation identity untouched, else logs the completion and halts on its stop |
| `PlanMachine.RecordingExecutor.Execute` | discovery/proptest-praxis/owner/plans.rs:591-639 | runs a call only right after its admission with every earlier call completed and authority intact, and says which of these failed |
| `PlanMachine.ExpectedShape` | discovery/proptest-praxis/owner/plans.rs:709-756 | one output a call, each as expected, and a firing stop only at the last call |
| `PlanMachine.DirectReplay` | discovery/proptest-praxis/owner/plans.rs:758-805 | the replay accepts every interpreted plan, and when it accepts has executed exactly its calls |
| `PlanMachine.LogAcceptedExactly` | discovery/proptest-praxis/owner/plans.rs:922-968 | the log check entry by entry: numbered admissions and completions, the calls, their start and finish events, and the stop exactly once when reached |
| `PlanMachine.FireWithdraws` | discovery/proptest-praxis/owner/plans.rs:274-296 | cancellations stop the plan, changed input and revoked permission make it yield, and each sets only its own flag |
| `PlanMachine.Admit` | crates/app/peritus-product-runner/src/local_context/operation_plan/admission.rs:106-122 | admission asks the control only while authority lasts |
| `PlanMachine.Complete` | crates/app/peritus-product-runner/src/local_context/operation_plan/admission.rs:123-134 | completion logs, and continues only while authority lasts |
| `PlanPages.RunNode` | crates/app/peritus-product-runner/src/local_context/operation_plan/execution.rs:97-139 | one node resolved, admitted, executed and completed either continues as the interpreter does or ends as it does |
| `PlanPages.RunPage` | crates/app/peritus-product-runner/src/local_context/operation_plan/execution.rs:89-171 | a page commits consecutive steps with their own outputs, hands on exactly where it stopped, and either can be resumed after at least one step or ends as the interpreter does; a yielding page shows no outputs |
| `PlanPages.RunPlan` | crates/app/peritus-product-runner/src/local_context/operation_plan/execution.rs:21-171 | paging does not matter: for every way the page sizes fall out the joined pages commit each step once, in order, with the interpreter's status and outputs and a log that passes the log check (plans.rs lines 922-968); at most as many pages as nodes |
| `Archive.SafeNameIsCanonical` | packaging/distro/compiled.py:80-86 | a name is accepted exactly when its characters are printable and no backslash and it resolves, with no component skipped or undone, to a path at or below build that is the name itself |
| `Archive.SafeNamesStayInside` | packaging/distro/compiled.py:80-86 | no component on the way leaves build, and distinct names lead to distinct places |
| `Archive.SafeMemberExactly` | packaging/distro/compiled.py:80-88 | a regular file or directory without set-user, set-group or sticky bit, with finite nonnegative numbers; only trailing slashes of directory names are ignored |
| `Archive.StoredBelowBuild` | packaging/distro/compiled.py:129-132 | the root is stored as build, every other path component by component below it |
| `Archive.ValidateMembers` | packaging/distro/compiled.py:77-96 | accepts exactly the nonempty lists whose entries pass alone, have distinct names, and fit both bounds |
| `Archive.AcceptableInAnyOrder` | packaging/distro/compiled.py:77-96 | the verdict does not depend on the order of entries |
| `Archive.PreserveAll` | packaging/distro/compiled.py:113-124 | the save filter passes exactly when each entry passes alone and the running totals fit |
| `Archive.SavedInventoryRestores` | packaging/distro/compiled.py:126-132 | a tree saved under distinct relative paths reads back as an inventory that the restore check accepts |
| `Evidence.AcceptedCompilationIsAChain` | packaging/distro/compiled.py:146-178 | an accepted record is a release-first chain for one binding, of distinct invocations each begun after the last |
| `EvidenceBuild.WrittenCompilationIsAcceptedExactly` | packaging/distro/compiled.py:135-178 | what a build saves is accepted as a release exactly when it was properly observed, its archive is within the bound and its jobs are those asked for; a second compilation on top of it exactly when both are, for the rpm format, and as a distinct invocation begun after the first; never under the other stage |
| `Evidence.CliLibraryRestsOnDaemon` | packaging/native_transport.py:139-147 | any other library rests on a daemon library of the same binding, compiled by a distinct invocation that finished before |
| `Evidence.AcceptedEvidenceIsAChain` | packaging/rebuild.py:167-186 | accepted two-binary evidence has four ordered observations with pairwise distinct invocations: daemon library before CLI library before CLI binary, daemon library before daemon binary |
| `EvidenceBuild.BuiltEvidenceIsAcceptedExactly` | packaging/native_build.py:33-80 | for everything one site builds in four compilations, the records written are accepted exactly when all four were properly observed, the archives are within the bound, the host matches, candidate, role and products are those expected, and the four form that chain |
| `EvidenceBuild.BinaryIsOk` | packaging/native_inputs.py:143-163 | a written binary record passes exactly when candidate, role and product are those expected, it was properly observed, its library record passes, and it is later than that library and than the one below |
| `EvidenceBuild.CliLibraryIsOk` | packaging/native_transport.py:150-174 | a saved CLI library record passes its own check exactly when both were properly observed and kept and it is later than the daemon library it rests on |
| `Evidence.AcceptedEvidenceSharesEnvironment` | packaging/native_inputs.py:103-163 | both binaries were compiled for the same candidate, role, workflow and environment |
| `Evidence.AcceptedEvidenceNamesProducts` | packaging/rebuild.py:160-186 | accepted evidence vouches for exactly the observed products, the candidate and the role asked for, each compiled by the release command of its own package |
| `Evidence.AcceptedBinaryCommand` | packaging/native_transport.py:35-43 | the command of an accepted binary record, Windows included |
| `EvidenceBuild.AcceptedBinaryIsWritten` | packaging/native_inputs.py:143-163 | no field of an accepted binary record is free: it is the one written for its binding, library and observation |
| `EvidenceBuild.AcceptedBindingIsWritten` | packaging/native_inputs.py:149-154 | an accepted binding has the candidate, role, package and binary asked for, and no field but those, environment and workflow |
| `EvidenceBuild.AcceptedLibraryIsWritten` | packaging/native_transport.py:120-147 | an accepted library record is the one written for its binding, observation, previous library and archive |
| `EvidenceBuild.AcceptedCompilationIsWritten` | packaging/distro/compiled.py:146-178 | an accepted compilation record is the one written for its binding, observation, previous compilation and archive, its stage following from the previous one |

## Left out

- Counter overflow: ledger revisions and generations, observation counters and sequence numbers are naturals; the production code reports Capacity or an error when a machine integer would overflow.
- Ledger fields that cannot be zero by construction (authors) and the decoding of stored bytes: `LedgerDecoded` starts from the decoded value.
- Digests, manifests, serialization and the file-context suffix of a capture: only the identity of a digest matters to the ledger.
- LedgerProductionCapture.ReplyViewOutcome: assumes that no replacement is longer than its reply, which the prompt view enforces before it is used.
- LedgerProduction.ProductionAgrees: states the refusal of lists over 65535 entries as a difference, because the discovery model has no such bound.
- Working memory roles, wire forms, reopening and rejected requests: they leave the modelled memory alone, or concern code that is not part of this model; entry statuses are open or stale in the discovery model.
- InvalidationProduction.InvalidateEntries: a dependency is a position, and a position past the end stands for an unknown identity; the search by identity is not modelled.
- Context graphs: identifiers, contents and limits; nodes are numbered.
- Distribution summaries (mean, percentiles): plain table lookups on a sorted list.
- JSON numbers are integers, and Python's equality of `True` and `1` is not modelled.
- PlanPages.RunPlan: page sizes are a parameter, so the encoding of a page, its declared allocation, archiving and cursors as stored records are left out; argument validation is reduced to the path being a string; `serde_json`'s own pointer lookup is represented by the modelled evaluator, which reads the five pointers alike.
- Plan retrieval, cursors, decisions and the index: code that is not part of this model.
- Evidence.AcceptedEvidenceIsAChain: the two-binary, non-Windows case; the Windows case has no second binary.
- Archive.SavedInventoryRestores: tar encoding is reduced to the trailing slash of directory names; hashing, compression and file-system checks are left out.
- Metrics, fixtures, subprocesses, temporary directories, databases and proptest strategies: plumbing around the models.

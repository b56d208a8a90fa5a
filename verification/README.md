# Reversible masking: a verified model

The repository masks personal data in a text before it goes to a language model and restores it
in the answer. This project models its core in Dafny and proves what the design promises.

**Protocol.** `Protocol` is a transition system of the `/process` endpoint over a document store
(the authority) and a hot cache, each behind a circuit breaker. Any number of requests run at
once; a step is one backend call or one local computation; a backend call may fail before or after
it took effect or be refused by a breaker; cache entries may vanish, entries may expire, batched
updates may be flushed or lost, late ones may revive an expired document. `ProtocolSafety` gives the inductive invariant over stores and all
in-flight local copies, `ProtocolTheorems` and `ProtocolRuns` the promises over all runs. `Driver`
fixes the environment of one request, so that its outcome is determined; `Service` holds the
service and store classes as they are written, each method proved to end where the driver ends;
`Breaker` and `Stores` hold the breaker and the two authorities; `Documents` proves that the system
over the document store's own atomic operations, with expiry times and a clock, refines the
protocol.

**Transformation.** A text with marked pieces is a weave of literals and middle pieces
(`Weaving`); every splice of the repository, left to right or right to left, in Python or Go, is
proved to swap exactly the middle pieces. `Overlap` (over `Ranking` and `Selection`), `Identity`,
`Surrogates`, `Engine` and `Pipeline` follow a text from detector output to masked text and stored
occurrences; `Occurrences` rebuilds each text from the other. `TokenDemasking`, `Demasking` and
`DemaskExactness` restore reworded texts by value, and `RoundTrips` shows that what the pipeline
records is what this needs; `Aliases` builds the needles for names. `Context` and `Policies` decide what is masked. `GoOverlap`,
`GoSurrogates`, `GoMasking`, `GoWordBounded`, `GoTokens` and `GoRestoring` are the Go counterparts;
where the Go service restores less than the Python service, the last two say exactly when, for
texts in which nothing outside the shown tokens and surrogates looks like one.

**Identity.** `Persons` is the rule by which mentions of people are put together, `PersonTheorems`
what no run of it can do, `Resolver` the classes updated in place, `Naming` the roles and the
rendering of names.

**Arithmetic.** `Luhn`, `Sampling` and `Admission`.

A payload fingerprint is an injective function; detectors, keyword lists, morphology, surrogate
generators, hash streams and clocks are parameters. A character stands for a code point of the
Python service and for a byte of the Go service.

## Model

| member | source | states |
|---|---|---|
| `Protocol.ReversibleIsUndoable` | app/core/process_service.py:84-102 | with the service's own splices, what the protocol asks of a transform is exactly the reversibility the pipelines establish |
| `ProtocolSafety.RequestKeeps` | app/core/process_service.py:129-242 | every step of every request keeps the slot invariant, its own invariant, and only extends what the slot has committed to, under any backend failure before or after the effect |
| `ProtocolSafety.InsertKeeps` | app/storage/mongo_store.py:108-117 | the insert step keeps the invariant whether it wins, loses or fails after taking effect |
| `ProtocolSafety.ReclaimKeeps` | app/storage/mongo_store.py:118-124 | so does the conditional replace of an expired document |
| `ProtocolSafety.SaveKeeps` | app/core/process_service.py:174-194 | where a request goes after its save fits the slot: created, lost, or failed |
| `ProtocolTheorems.StepKeeps` | app/core/process_service.py:129-242 | every event of the whole system (arrival, step of any request, eviction, expiry, flush) keeps the global invariant |
| `ProtocolTheorems.ReachableInv` | app/core/process_service.py:105-109 | the invariant holds in every reachable state of every interleaving |
| `ProtocolTheorems.MaskedRepliesAreReversible` | app/core/process_service.py:183-206 | whenever a masking reply differs from its input, the authority holds a record of exactly that pair of texts whose inverse splice restores the input and whose splice gives the reply |
| `ProtocolTheorems.ResendingRestores` | app/core/process_service.py:145-164 | until expiry, any request of a consumer that may demask which sends such a reply back is answered with exactly the original payload, if the consumer whose request created the record may demask too |
| `ProtocolTheorems.CreatorIsKnown` | app/core/process_service.py:67-81 | the consumer whose request was answered on the creation of the record is the one whose rights and mode the record carries |
| `ProtocolTheorems.DemaskRepliesTell` | app/core/process_service.py:145-164 | every demasking reply, exactly: without the right to demask, of the creating or the asking consumer, the text itself; the masked text gives the payload; any other text is demasked by value with the record's mappings in the creating consumer's mode |
| `ProtocolTheorems.ResentRepliesAre` | app/core/process_service.py:145-161 | a masking reply sent back gives the payload when both consumers may demask, and itself otherwise |
| `ProtocolTheorems.CreatorsTextComesBack` | app/core/process_service.py:145-161 | the same told of requests only: the creating consumer's masked text comes back when it and the asking consumer may demask, and only then |
| `ProtocolRuns.ResendingCompletes` | app/core/process_service.py:129-164 | from every reachable state such a request can run to its end when the backends answer and both consumers may demask: it gets the payload, the record a lookup then reads is in DEMASKED_GRACE, and the slot can do it all again |
| `ProtocolRuns.FineRun` | app/core/process_service.py:129-164 | with working backends every request that looks up an existing record reaches a stored reply, and a demasking one leaves the record in grace |
| `ProtocolRuns.FirstRequestCompletes` | app/core/process_service.py:166-206 | with working backends a first request for a free id is answered with its own masked text, and both backends hold a record of payload, transform and the consumer's mode and right to demask |
| `ProtocolRuns.LoserCompletes` | app/core/process_service.py:186-199 | with working backends a request that lost the insert runs to its end: the winner's masked text for the same content, a conflict for other content |
| `ProtocolTheorems.UnstoredRepliesAreInputs` | app/core/process_service.py:177-182 | a reply given without a persisted record equals its own input, also after expiry |
| `ProtocolTheorems.CacheIsCoherent` | app/storage/resilient_store.py:140-167 | any cached record agrees with the authority on fingerprints, mode, mappings, occurrences and policy; only the lifecycle state may lag |
| `ProtocolTheorems.LocalCopiesAreCoherent` | app/storage/resilient_store.py:154-203 | the same for every record a request holds in a local variable at any point of any interleaving |
| `ProtocolTheorems.CoherentUntilExpiry` | app/storage/resilient_store.py:140-203 | coherence of cache and in-flight copies lasts from any coherent state to the next expiry; it is back after an expiry once the cache is empty and no copy is in flight |
| `ProtocolTheorems.AuthorityOnlyAges` | app/storage/mongo_store.py:108-167 | between any two expiries, from any state: once the authority holds a record no insert replaces it, and it changes in nothing but ACTIVE to DEMASKED_GRACE, never back |
| `ProtocolTheorems.WinnerDecides` | app/core/process_service.py:186-199 | all store-backed masking replies for one id are for one payload and equal, whatever transforms the losers computed |
| `ProtocolTheorems.LosersNeverServeTheirOwn` | app/core/process_service.py:186-199 | a request that lost the insert gets the winner's text, a conflict for other content, or an error; never its own text |
| `ProtocolRuns.RepliesStay` | app/core/process_service.py:129-164 | an answered request never changes its answer |
| `ProtocolRuns.ExpiryBreaksCoherence` | app/storage/resilient_store.py:140-152 | a concrete run in which a slow cache write after an expiry leaves cache and authority with different documents: the scope "until expiry" is needed |
| `Service.ResilientMappingStore.AuthCall` | app/storage/resilient_store.py:106-119 | refused exactly when the breaker is open; success and failure are recorded in the breaker, and nothing else changes |
| `Service.ResilientMappingStore.CacheCall` | app/storage/resilient_store.py:121-136 | the same, best effort; skipped when there is no cache |
| `Service.ResilientMappingStore.Get` | app/storage/resilient_store.py:154-167 | a cache hit, else the authority: whether it succeeds and what it finds, exactly, from the breakers, the fates of its calls and the stores; stores and breakers as the protocol's steps leave them; other ids untouched |
| `Service.ResilientMappingStore.ReadAuthority` | app/storage/resilient_store.py:158-167 | the authority's record, backfilled after a genuine miss; unavailable exactly when the call does not succeed |
| `Service.ResilientMappingStore.SaveIfAbsent` | app/storage/resilient_store.py:140-152 | succeeds exactly when the authority's call does, creates exactly when there was no record, and stores the record whenever the write took effect; the cache follows a creation; other ids untouched |
| `Service.ResilientMappingStore.MarkDemasked` | app/storage/resilient_store.py:183-203 | the authority is marked exactly when its call takes effect unbatched, the cache refreshes its copy; the end is that of the protocol and the answer survives any failure |
| `Service.ProcessService.Process` | app/core/process_service.py:129-164 | one call of the endpoint: outcome, both stores and both breakers are those of the protocol driven by these fates, this batching and these pipeline results; other ids untouched |
| `Service.ProcessService.Answer` | app/core/process_service.py:145-164 | an existing record: the reply is the protocol's answer for this record, and stores and breakers end as the drive does |
| `Service.ProcessService.FirstRequest` | app/core/process_service.py:166-206 | analyse, insert, and the created, failed and lost cases, with outcome, stores and breakers of the drive for this transform |
| `Service.ProcessService.ReadWinner` | app/core/process_service.py:186-199 | unreadable winner, conflict, or the winner's mask on the payload, as the drive determines |
| `Service.ProcessService.AnswerWithoutStorage` | app/core/process_service.py:210-232 | only a payload without token or star traces whose degraded transform has no mappings is answered, with itself |
| `Service.ProcessService.TransitionToGrace` | app/core/process_service.py:234-242 | an ACTIVE record is marked as the drive marks it, one in grace is left alone; the reply is the same |
| `Driver.Finish` | app/core/process_service.py:129-242 | a request driven through the protocol ends answered, for its own payload and consumer; every choice is fixed by breakers, fates and pipeline results |
| `Driver.FinishKeeps` | app/core/process_service.py:129-242 | the end of any drive keeps the slot invariant and satisfies the protocol's promise for its outcome |
| `Driver.MaskedOnlyWithRecord` | app/core/process_service.py:166-206 | whatever the backends do, a masking reply that differs from its payload leaves a record in the authority that turns it back |
| `Driver.FreshIdIsMasked` | app/core/process_service.py:166-206 | when both circuits admit calls and calls succeed, a free id is answered with the masked text of its transform, and both stores hold a record of payload, transform and the consumer's mode and right to demask |
| `Driver.KnownIdIsAnswered` | app/core/process_service.py:145-164 | when both circuits admit calls (closed, or a cooldown after opening) and calls succeed, a known id is answered from its record: the retry, the text itself without a right to demask, the exact original of the masked text, or demasking by value in the record's mode; each circuit that is called is closed afterwards and the cache holds the record |
| `Driver.RecoversAfterCooldown` | app/storage/resilient_store.py:35-49 | from any state of the breakers, one cooldown after the last failure and with calls that succeed, a known id is answered from its record and the circuits that were called are closed |
| `Driver.CachedIdSurvivesOutage` | app/storage/resilient_store.py:154-167 | a cached record answers completely without the authority, whatever becomes of the grace transition |
| `Driver.SecondCallIsDetermined` | app/core/process_service.py:129-206 | two calls in a row with working backends: what the second is told about any text follows from the two consumers' rights and modes, the payload and its transform |
| `Driver.FailedSaveFailsClosed` | app/core/process_service.py:174-182 | when the save of a first request fails, the payload is answered, with itself, if and only if the pipeline found nothing; the record is there if and only if the write took effect |
| `Driver.OutageFailsClosed` | app/core/process_service.py:210-232 | while every call fails and the cache knows nothing, the answer is the payload itself if it shows no trace and nothing is found in it, else unavailable |
| `Driver.SecondCallRestores` | app/core/process_service.py:145-164 | two calls in a row with any backend failures in between: the masked reply sent back is answered with the payload if the consumer that created the record and the asking one may demask, and with itself otherwise |
| `Breaker.CircuitStaysValid` | app/storage/resilient_store.py:46-59 | an opening time is present exactly while failures have reached the threshold |
| `Breaker.CircuitBreaker.Allow` | app/storage/resilient_store.py:35-44 | below the threshold always; at it or past it exactly when the cooldown has passed since the opening |
| `Breaker.CircuitBreaker.RecordSuccess` | app/storage/resilient_store.py:46-49 | no failures and no opening time are left |
| `Breaker.CircuitBreaker.RecordFailure` | app/storage/resilient_store.py:51-59 | one failure more; (re)opens from the threshold on |
| `Breaker.OutageBound` | app/storage/resilient_store.py:22-59 | while every call fails, an interval of length D sees at most threshold + floor(D / cooldown) calls, from any valid circuit |
| `Driver.StoreOutageBound` | app/storage/resilient_store.py:106-119 | the same for the calls of the store itself, failing before or after their effect |
| `Driver.HalfOpenExactlyWhen` | app/storage/resilient_store.py:35-44 | a guarded call gets through if and only if there are fewer failures than the threshold or a cooldown has passed since the opening |
| `Driver.SuccessForgives` | app/storage/resilient_store.py:46-59 | after a success, up to threshold failing calls all get through and count from zero; the threshold-th opens the circuit at its time |
| `Driver.RefusedExactlyWhen` | app/storage/resilient_store.py:22-59 | on such a run the next call is refused if and only if threshold calls failed and the cooldown since the last of them is not over |
| `Stores.InMemoryMappingStore.SaveIfAbsent` | app/storage/memory_store.py:24-30 | creates the record exactly when no live one exists |
| `Stores.InMemoryMappingStore.Get` | app/storage/memory_store.py:36-45 | returns the live record; dropping an expired entry is invisible to every later reader |
| `Stores.InMemoryMappingStore.Update` | app/storage/memory_store.py:32-34 | replaces the entry and nothing else |
| `Stores.InMemoryMappingStore.Delete` | app/storage/memory_store.py:47-49 | removes the entry and nothing else |
| `Stores.MongoMappingRepository.SaveIfAbsent` | app/storage/mongo_store.py:108-124 | insert, else reclaim only if expired: with a standing clock exactly the reference step; a live document always wins |
| `Stores.MongoMappingRepository.Get` | app/storage/mongo_store.py:137-141 | an expired document is not seen |
| `Stores.MongoMappingRepository.MarkDemasked` | app/storage/mongo_store.py:146-157 | at once, or noted; the 500th pending update forces the flush |
| `Stores.MongoMappingRepository.FlushGraceNow` | app/storage/mongo_store.py:169-176 | exactly the pending documents are aged and rescheduled, each with its own grace |
| `Stores.OneWinnerUntilExpiry` | app/storage/memory_store.py:24-30 | after a created save, a later save of the same id is created if and only if the first has expired |
| `Documents.DocumentsRefineProtocol` | app/storage/mongo_store.py:108-176 | every run over documents with expiry times and a clock, with separate insert and replace, updates by id, late purges and flushes, is a run of the protocol with the same requests, visible records and caches |
| `Documents.MaskedRepliesHaveDocuments` | app/core/process_service.py:183-206 | so until its document dies, a masking reply that differs from its input has a live document of exactly this pair of texts, which turns it back |
| `Documents.ResentRepliesComeBack` | app/core/process_service.py:145-164 | and sending it back gives the payload when the consumer whose request created the document and the asking one may demask, and the same text otherwise |
| `Documents.OneDocumentDecides` | app/storage/mongo_store.py:108-124 | all store-backed masking replies for one id agree, whatever comes between the separate operations of their saves |
| `Documents.FlushIsFlushes` | app/storage/mongo_store.py:169-176 | a whole flush is one update after the other, of every pending id |
| `Ranking.OrderedUnique` | app/context/overlap.py:14-17 | the order a stable sort leaves is unique, so a sort may be specified by its keys |
| `Selection.GreedySelects` | app/context/overlap.py:18-27 | the greedy run keeps a span exactly when no kept span of higher rank overlaps it |
| `Selection.SelectionUnique` | app/context/overlap.py:6-30 | there is only one such selection |
| `Selection.SelectionDisjoint` | app/context/overlap.py:6-30 | its spans are pairwise disjoint |
| `Overlap.ResolveOverlaps` | app/context/overlap.py:6-30 | the loop with sorted candidates keeps a candidate if and only if no kept one clashes with it that is more confident, or as confident and longer, or then earlier in the text, or then in the input; each once, disjoint, sorted by start |
| `Overlap.RankedByFields` | app/context/overlap.py:14-27 | the selection by sort keys is this rule about the fields of the candidates |
| `Weaving.SpliceSwapsMiddles` | app/core/process_service.py:84-92 | a left-to-right splice at the middle pieces of a text swaps exactly those pieces |
| `Weaving.BackSpliceSwapsMiddles` | app/demasking/demasker.py:45-49 | replacing in place from the right swaps the same pieces |
| `Weaving.SplicesAgree` | app/demasking/demasker.py:45-49 | for any spans in order both ways give the simultaneous substitution; everything outside survives in place |
| `Occurrences.SpliceSorted` | app/core/process_service.py:84-92 | the loop over the sorted occurrences is the splice |
| `Occurrences.ApplyMaskFromRecord` | app/core/process_service.py:95-97 | the splice along the original coordinates |
| `Occurrences.ApplyDemaskFromRecord` | app/core/process_service.py:100-102 | the splice along the masked coordinates |
| `Occurrences.WeaveSpansAscend` | app/core/process_service.py:87-87 | masked starts never descend, and equal ones (an empty replacement) keep their order under the stable sort |
| `Occurrences.RecordRestores` | app/core/process_service.py:84-102 | the occurrences of any masking rebuild each of the two documents from the other |
| `Occurrences.OccurrencesLocate` | app/replacement/engine.py:179-201 | each stored occurrence locates its original in the one text and its replacement in the other |
| `Engine.SpliceSpans` | app/replacement/engine.py:179-201 | the one-pass loop with cursor and running offset masks exactly the given spans and records exact coordinates in both texts |
| `Engine.MaskingReverses` | app/core/process_service.py:95-102 | any masking is replayed and reversed from its occurrences alone |
| `Engine.MaskingLocates` | app/replacement/engine.py:179-201 | every masked span of the record holds its replacement |
| `Identity.GroupPersonalDecisions` | app/replacement/identity.py:72-91 | one group per key in first-appearance order with exactly its decisions, numbered consecutively per prefix |
| `Identity.GroupsPartition` | app/replacement/identity.py:54-91 | every MASK decision is in exactly one group |
| `Identity.EntityIdInjective` | app/replacement/identity.py:84-86 | prefix and number can be read back from an entity id, whatever the prefixes |
| `Identity.TokensDistinct` | app/replacement/tokens.py:26-27 | different groups of one document have different tokens |
| `Surrogates.ChooseSurrogates` | app/replacement/engine.py:72-94 | each surrogate is the first usable one of twenty draws, given those chosen before it; the token only when none is usable |
| `Surrogates.ChosenMeans` | app/replacement/engine.py:58-94 | the first of twenty draws that is not empty, no earlier entity has, the source does not hold and whose forms do not collide; the token in brackets if and only if there is none |
| `Surrogates.SurrogatesDistinct` | app/replacement/engine.py:58-94 | all surrogates of one document differ, and every one that is not a fallback is absent from the source text |
| `Pipeline.BuildTransformResult` | app/replacement/engine.py:204-259 | grouping; one mapping per entity with its id, the surface of its first mention, its token and its chosen surrogate; masking at exactly the MASK spans by what its mapping gives |
| `Pipeline.TransformReverses` | app/replacement/engine.py:204-259 | every transform is reversible, and the identity when it maps nothing |
| `Pipeline.FirstMentionIsRecorded` | app/replacement/engine.py:115-119 | the mapping of an entity tells how it is written at its first place among the masked decisions |
| `Pipeline.MaskedDecisionIsRecorded` | app/replacement/engine.py:179-259 | every MASK decision has its occurrence: at its span, with what stood there, what its entity's mapping gives and the entity's id, and there are no others |
| `Pipeline.Process` | app/core/pipeline.py:28-50 | for any non-empty in-range candidates, verdicts, keys, draws and renderings: overlap resolution, decisions, grouping, surrogates, mappings and splice give a reversible masking of exactly the surviving MASK candidates |
| `RoundTrips.RecordedTokens` | app/replacement/engine.py:115-119 | the recorded mappings have minted, pairwise different tokens |
| `RoundTrips.TokensRestored` | app/demasking/demasker.py:107-113 | recorded tokens in any text of token-free literals are restored from the record alone, each to its entity's original |
| `RoundTrips.TokenModeRoundTrip` | app/replacement/engine.py:164-168 | token mode end to end: scanning the masked text gives the text with every masked span as its entity was first written, so exactly the text when entities recur unchanged |
| `RoundTrips.RecordedNeedles` | app/replacement/engine.py:72-94 | a recorded needle (token or surrogate) stands for one original, because the pipeline's surrogates differ from each other and from foreign tokens |
| `RoundTrips.SurrogatesRestored` | app/demasking/demasker.py:124-128 | recorded surrogates and tokens in any reworded text are restored from the record when each stands between non-word characters and nothing else looks like one |
| `Policies.OnlyMasksFall` | app/policies/engine.py:29-82 | one decision out per decision in with its span untouched; a mask survives exactly when the rules are met and the consumer wants it; other verdicts stay |
| `Policies.NearbyMeans` | app/policies/engine.py:40-68 | two candidates are near if and only if they overlap or the gap between them is at most the window and holds no blank line |
| `Policies.LonePinIsKept` | app/policies/engine.py:29-82 | under the default rules a masked PIN falls to KEEP if and only if no other candidate is a card number within 300 characters in the same paragraph |
| `Policies.OtherKindsAsWanted` | app/policies/engine.py:70-82 | for every other kind only the consumer decides |
| `Policies.EvaluateTwice` | app/policies/engine.py:29-82 | evaluating twice changes nothing |
| `TokenDemasking.MintedIsToken` | app/replacement/tokens.py:5-27 | every minted token is a bracketed word without inner brackets |
| `TokenDemasking.TokensDoNotOverlap` | app/replacement/tokens.py:26-27 | tokens neither overlap nor contain one another in any text |
| `TokenDemasking.DemaskToken` | app/demasking/demasker.py:107-113 | later mappings of a token win, and the text is scanned once from left to right |
| `TokenDemasking.LaterMappingWins` | app/demasking/demasker.py:107-113 | a token stands for the original of the last mapping that has it |
| `TokenDemasking.ScanIsExact` | app/demasking/demasker.py:107-113 | for any alternation of token-free literals and tokens the scan returns the literals with the originals in place; restored text is never rescanned |
| `TokenDemasking.FuzzyDemaskToken` | go-service/pii/demask.go:46-51 | one replacement pass per mapping that has a token |
| `TokenDemasking.GoRefinesPython` | go-service/pii/demask.go:42-51 | on every text whose only angle brackets belong to minted tokens, with bracket-free originals, the Go passes restore what the Python scan restores, in any order of mappings |
| `GoTokens.AgreeExactlyWhenUnnested` | go-service/pii/demask.go:46-51 | originals may hold tokens and other bracketed words: Go passes and Python scan restore the same from every text whose opening brackets all open bracketed words if and only if no original holds the token of a later mapping whose own original differs from it |
| `GoTokens.GoRescansRestoredText` | go-service/pii/demask.go:46-51 | two minted tokens on which they differ: an issuer that quotes the token of the document's e-mail address |
| `Demasking.FindAllSpans` | app/demasking/demasker.py:56-88 | every word-bounded occurrence of every needle, overlapping ones included, needle by needle |
| `Demasking.AllMatchesAre` | app/demasking/demasker.py:56-88 | what is found is exactly what matches |
| `Demasking.MatchesRead` | app/demasking/demasker.py:56-88 | what is found, character by character: the text of a needle with no word character on either side |
| `Demasking.ResolveAndApply` | app/demasking/demasker.py:35-49 | longest-first selection, then replacement in place from the right |
| `Demasking.LongestAreChosen` | app/demasking/demasker.py:35-43 | a match is kept if and only if no kept one clashes with it that is longer, or as long and further left, or then found earlier |
| `DemaskExactness.DemaskSynthetic` | app/demasking/demasker.py:115-128 | search, selection and replacement on a given list of needles |
| `DemaskExactness.ChosenAreTargets` | app/demasking/demasker.py:35-43 | when every match lies inside a surrogate and every surrogate matches, exactly the surrogates are chosen |
| `DemaskExactness.DemaskIsExact` | app/demasking/demasker.py:115-128 | on any reworded text the literals survive and every surrogate gives way to its own original, without coordinates |
| `DemaskExactness.ReplaceReversed` | app/demasking/demasker.py:45-49 | replacing in descending order of start is the right-to-left splice |
| `Aliases.RenderShape` | app/demasking/demasker.py:180-206 | fails exactly when a part is missing; otherwise the pieces in order, compact initials stuck together |
| `Aliases.WordShapesRead` | app/demasking/demasker.py:148-206 | how each shape of words reads for a full name |
| `Aliases.InitialShapesRead` | app/demasking/demasker.py:148-206 | how each shape with initials reads, spaced and compact |
| `Aliases.CollectShapePair` | app/demasking/demasker.py:218-233 | the pair for one shape and case, kept when its surface is new |
| `Aliases.PairReads` | app/demasking/demasker.py:209-233 | surface and restoration stand in the same shape and case, each in its own gender, the original in the synthetic one when it has none |
| `Aliases.AliasShapePairs` | app/demasking/demasker.py:236-246 | the pairs of all cases and shapes in the order in which they are tried |
| `Aliases.AsksOfCaseAre` | app/demasking/demasker.py:218-246 | within a case the five shapes of words come first, then each shape with initials, spaced before compact |
| `Aliases.AsksAre` | app/demasking/demasker.py:236-246 | the cases come in the order nominative, genitive, dative, accusative, ablative, locative |
| `Aliases.CollectedAre` | app/demasking/demasker.py:218-246 | the dictionary holds exactly the surfaces that some shape and case gives, each with the restoration of the first one that gives it |
| `Aliases.DemaskNames` | app/demasking/demasker.py:115-145 | search, selection and replacement with the needles of all mappings, names included |
| `Aliases.NamesComeBack` | app/demasking/demasker.py:115-128 | any mixture of tokens, surrogates and alias shapes of names in any reworded text comes back, an alias in the first shape and case that looks like it, when no needle stands for two originals and nothing else looks like one |
| `Aliases.PeopleShareAnAlias` | app/replacement/engine.py:72-94 | the retries keep surrogates apart, not aliases: two people whose synthetic identities agree in first name and surname have different surrogates, yet a reply with these two words is not restored rightly for both |
| `PersonTheorems.CompatibleMeans` | app/entity_resolution/resolver.py:58-156 | a compatible mention has no conflicting gender, agrees in every labelled word, and names the surname together with a first name, a patronymic or initials of which the first begins the first name, the second the patronymic, and there is no third |
| `PersonTheorems.CompatibleExactlyWhen` | app/entity_resolution/resolver.py:58-156 | the comparison succeeds if and only if the genders do not conflict and the words can be given roles (each its label, or the first free known part with this word) that include the surname, with initials that begin first name and patronymic in this order, or with a first name or patronymic matched |
| `PersonTheorems.PlacedExactlyWhen` | app/entity_resolution/resolver.py:182-210 | a mention is merged if and only if it can be one known person's and no other's; that person alone gains it, otherwise a new person does |
| `PersonTheorems.InitialsExactly` | app/entity_resolution/resolver.py:111-130 | the loop over the initials accepts exactly when the first begins the first name, the second the patronymic, and there is no third |
| `PersonTheorems.EveryRunKeeps` | app/entity_resolution/resolver.py:182-210 | the invariant of persons, annotations and partition holds after every mention of every run |
| `PersonTheorems.MentionsArePartitioned` | app/entity_resolution/resolver.py:182-210 | each mention lands in exactly one person, once |
| `PersonTheorems.NoFalseMerge` | app/entity_resolution/resolver.py:58-210 | two mentions of one person never differ in a word of the same role nor in a known gender |
| `PersonTheorems.MergesAreAttested` | app/entity_resolution/resolver.py:133-156 | a person with several mentions got its surname from the first one as labelled, and each later mention repeats the surname with a known first name or patronymic, or with initials that begin them in this order |
| `PersonTheorems.KnowledgeStays` | app/entity_resolution/resolver.py:159-174 | what is known of a person is never overwritten |
| `PersonTheorems.MentionsKeepTheirWords` | app/entity_resolution/resolver.py:177-179 | annotation only adds missing roles |
| `PersonTheorems.PersonsKeptApart` | app/entity_resolution/resolver.py:35-38 | different persons have different identity keys, whatever their names contain |
| `PersonTheorems.OneEntityPerPerson` | app/replacement/identity.py:64-91 | two mentions become one entity, hence one token, exactly when they were resolved to the same person |
| `Resolver.NameMention.AnnotateRoles` | app/entity_resolution/resolver.py:177-179 | the roles are written in place and nothing else |
| `Resolver.ResolvedPerson.MatchMentionWords` | app/entity_resolution/resolver.py:91-108 | the loop over the words computes the match of the rule, or none at the first conflict |
| `Resolver.ResolvedPerson.MatchMentionInitials` | app/entity_resolution/resolver.py:111-130 | the i-th initial must begin the first name or the patronymic in this order; a third one fails |
| `Resolver.ResolvedPerson.IsCompatible` | app/entity_resolution/resolver.py:133-156 | succeeds exactly when the mention can be the person's, in the declarative sense of `CompatibleExactlyWhen`; otherwise gives the roles of the rule |
| `Resolver.ResolvedPerson.Absorb` | app/entity_resolution/resolver.py:159-174 | appends the mention, takes a first known gender, and learns only unknown roles |
| `Resolver.PlaceMention` | app/entity_resolution/resolver.py:186-208 | updates exactly one person or adds one, in place, as the rule says |
| `Resolver.ResolvePersonEntities` | app/entity_resolution/resolver.py:182-210 | persons and annotated components at the end are those of a run of the rule over the mentions sorted by start |
| `Resolver.SortedMentions` | app/entity_resolution/resolver.py:182-187 | the mentions are taken by start, each once, equal starts as they came |
| `Naming.AssignRoles` | app/entity_resolution/naming.py:43-68 | complete distinct labels stand; two or three words always get a role each |
| `Naming.RolesByPlace` | app/entity_resolution/naming.py:52-67 | which role each place gets: first name, patronymic, surname when the patronymic is labelled in the middle, else surname, first name, patronymic; for two words by the first labelled patronymic, else surname and first name exactly when only the first is labelled a surname, else first name and surname |
| `Naming.AssignedRolesDistinct` | app/entity_resolution/naming.py:43-68 | the roles are distinct if and only if there are at most three words or the labels were distinct |
| `Naming.RolesSuitResolution` | app/entity_resolution/naming.py:43-68 | mentions of up to three words meet the condition of the resolver's theorems |
| `Naming.RenderLikeMention` | app/entity_resolution/naming.py:98-120 | fails exactly when a component has no role or no part; otherwise replaces from right to left |
| `Naming.ReplacedTexts` | app/entity_resolution/naming.py:98-120 | an initial is written as the first letter and a full stop, a word in its inflected form, of the part with its role |
| `Naming.RenderingKeepsShape` | app/entity_resolution/naming.py:98-120 | the rendered text is the mention with each component, and nothing else, exchanged |
| `Context.KeywordHit` | app/context/rules.py:165-183 | true exactly when the keyword starts a word somewhere and at most two word characters follow it |
| `Context.SentenceBounds` | app/context/rules.py:190-209 | the last sentence end before the span and the first after it, inside the radius |
| `Context.AttributedWindow` | app/context/rules.py:217-237 | each border is the nearest of radius, sentence end and other candidate |
| `Context.WindowRead` | app/context/rules.py:190-237 | in characters and distances: no sentence end inside, at most a radius away, and each border is at the text's end, the radius, a sentence end or another candidate |
| `Context.WindowIsLocal` | app/context/rules.py:217-237 | the window holds the candidate, meets no other candidate, and is at most two radii longer |
| `Context.SameWindow` | app/context/rules.py:217-237 | equally long texts that differ only inside other candidates have the same window |
| `Context.Engine.Decide` | app/context/engine.py:36-135 | a name with any personal, private, bank or strong-PII keyword in the lower-cased window is masked whatever speaks for a public figure, else kept with a public marker or as a known public figure, else uncertain where configured and masked otherwise; an address is masked on a personal marker, else kept on an organizational one in window or value; every other kind is masked |
| `Context.Engine.NameVerdictRead` | app/context/engine.py:77-107 | the scores decide a name by which lists have a keyword in the window, in this order |
| `Context.Engine.AddressVerdictRead` | app/context/engine.py:109-135 | and an address |
| `Context.OthersDoNotInterfere` | app/context/engine.py:36-135 | with overlap-free candidates, what other candidates say cannot change the verdict on this one |
| `GoOverlap.ResolveOverlaps` | go-service/pii/detectors.go:327-341 | sorting and compacting in the same array leaves exactly the candidates that clash with no kept one that starts earlier, or there is longer, or there comes first; in order and disjoint |
| `GoOverlap.PlacedByFields` | go-service/pii/detectors.go:327-350 | the selection by place is this rule about starts and ends |
| `GoOverlap.Compact` | go-service/pii/detectors.go:332-340 | the write index never overtakes the read index, and comparing with the last end is as good as comparing with all survivors |
| `GoOverlap.TiesDoNotMatter` | go-service/pii/detectors.go:343-350 | the sort is not stable, yet the surviving spans do not depend on how it leaves equal candidates |
| `GoMasking.BuildTransform` | go-service/pii/mask.go:302-412 | grouping, surrogate choice, mappings, entity-by-entity collection, sort and offset splice satisfy the same specification as the Python pipeline and are reversible |
| `GoMasking.GroupByKey` | go-service/pii/mask.go:312-336 | the slice of groups with an index by key is the same grouping |
| `GoMasking.Process` | go-service/pii/detectors.go:327-341 | candidates resolved in their own array, judged and transformed: the same specification end to end |
| `GoSurrogates.ChooseSurrogates` | go-service/pii/mask.go:338-356 | each surrogate is the first draw that is unused for its type and changed, or else the twentieth |
| `GoSurrogates.ChoicesMean` | go-service/pii/mask.go:338-356 | the first of twenty draws that no earlier entity of the type has and that differs from the original, or the twentieth if there is none |
| `GoSurrogates.ChoicesDetermined` | go-service/pii/mask.go:338-356 | the choices are determined by types, originals and draws |
| `GoSurrogates.DistinctExactlyWhen` | go-service/pii/mask.go:338-356 | surrogates of one type are pairwise distinct if and only if for every group one of twenty draws is unused and changed or the last one is unused, after the choices its inputs determine for the groups before it |
| `GoSurrogates.SurrogatesCanCoincide` | go-service/pii/mask.go:338-356 | with one value to draw from, two entities of one type share it |
| `GoMasking.SpliceMaskedToOriginal` | go-service/pii/demask.go:7-18 | the unsorted splice restores the originals between the literals |
| `GoMasking.SpliceOriginalToMasked` | go-service/pii/demask.go:22-33 | and the masks |
| `GoMasking.GoSplicesInvert` | go-service/pii/demask.go:7-33 | for the occurrences of any masking both splices are applicable and inverse to each other |
| `GoWordBounded.ReplaceWordBounded` | go-service/pii/demask.go:63-86 | replaces the leftmost word-bounded occurrences one after the other |
| `GoWordBounded.OneNeedleAgrees` | go-service/pii/demask.go:63-86 | for one surrogate it restores the same text as the Python search, selection and right-to-left splice, also when occurrences run into each other |
| `GoRestoring.FuzzyDemask` | go-service/pii/demask.go:42-61 | partial texts come back as they are; tokens, then in synthetic mode one word-bounded pass per surrogate |
| `GoRestoring.GoRestoresReworded` | go-service/pii/demask.go:42-61 | on any reworded mixture of tokens and surrogates, mappings in any order, every piece is restored to its original when the entities it shows survive the passes |
| `GoRestoring.ServicesAgree` | go-service/pii/demask.go:42-61 | there Go and Python restore the same text |
| `GoRestoring.ComesBackExactlyWhen` | go-service/pii/demask.go:51-58 | a surrogate alone comes back, whatever the other originals, if and only if no earlier surrogate stands in it and no later one in its original; a token alone if and only if no surrogate stands in its original, but for an original that is its own surrogate |
| `GoRestoring.RestoresExactlyWhenAllSurvive` | go-service/pii/demask.go:51-58 | the surrogate passes restore every reworded text over a given set of surrogates and tokens, whatever the originals of all entities it does not show, if and only if each of them meets that condition |
| `GoRestoring.LoneIsFineInPython` | app/demasking/demasker.py:124-128 | the Python service restores every lone surrogate as long as the surrogates differ |
| `GoRestoring.NestedIssuerComesBackWrong` | go-service/pii/mask.go:262-265 | a birth place and an issuer drawn for one city nest: on the issuer alone Go goes wrong and Python does not |
| `GoRestoring.RescannedIssuerComesBackWrong` | go-service/pii/demask.go:51-58 | without any nesting: the birth place surrogate stands in the original issuer, where Go replaces it after restoring; Python does not |
| `Luhn.SumDigits` | app/detectors/checksums.py:7-15 | the digit loop computes the weighted total |
| `Luhn.LuhnValid` | app/detectors/checksums.py:4-16 | false for an empty text or one with a non-digit, the exception for a digit without decimal value, else whether the total is divisible by ten |
| `Luhn.GoLuhnValid` | go-service/pii/checksums.go:4-26 | the same over the digits of the text, which must be 13 to 19 |
| `Luhn.CheckDigit` | app/replacement/synthetic_values.py:372-382 | the digit that makes the number valid, and no other does |
| `Luhn.GoCheckDigit` | go-service/pii/checksums.go:28-46 | the same digit by the other formula |
| `Luhn.SingleChangeDetected` | app/detectors/checksums.py:4-16 | any change of one digit breaks validity, at any length |
| `Luhn.SwapDetected` | app/detectors/checksums.py:4-16 | swapping neighbours breaks validity unless they are equal or are 0 and 9, exactly |
| `Sampling.ExactlyUniform` | app/replacement/synthetic_values.py:146-154 | every residue has the same positive number of accepted 64-bit words, with either limit |
| `Sampling.HalfAccepted` | go-service/pii/mask.go:26-37 | at least half of all words are accepted, and the Go limit fits 64 bits |
| `Sampling.LimitsAgree` | go-service/pii/mask.go:27-27 | the two limits differ exactly when n divides 2^64, by one round |
| `Sampling.DeterministicStream.RandBelow` | app/replacement/synthetic_values.py:146-154 | the first accepted word after the counter decides; all words before it were rejected |
| `Sampling.DeterministicStream.GoIntn` | go-service/pii/mask.go:26-37 | the same with the Go limit |
| `Admission.EwmaRate.Observe` | app/admission/controller.py:45-51 | the smoothed rate and the observation time |
| `Admission.SmoothedBetween` | app/admission/controller.py:45-51 | a smoothed rate stays between the old rate and the observation |
| `Admission.RetryAfterBounded` | app/admission/controller.py:162-184 | before rounding, Retry-After lies between min(min_retry, max_retry / 3) and max_retry |
| `Admission.RetryAfterGrows` | app/admission/controller.py:162-184 | at fixed rates it never falls as outstanding work grows |
| `Admission.RetryAfterIs` | app/admission/controller.py:162-184 | the wait exactly: the time the outstanding and incoming work takes at the service rate, times pressure, safety factor and two while the authority is degraded, between the floor (the minimum scaled by half the pressure, at most a third of the maximum) and the ceiling |
| `Admission.ObservedIs` | app/admission/controller.py:45-51 | the first observation starts the clock, each later one blends in the rate since the last, over at least a millisecond |
| `Admission.AdmissionController.TryAcquire` | app/admission/controller.py:104-127 | a ticket exactly when memory, concurrency and backlog allow it; counters equal the open tickets and their work; a rejection carries the computed wait and reason |
| `Admission.AdmissionController.Release` | app/admission/controller.py:129-136 | takes back exactly the ticket's share: the clamps at zero never bind |

## Left out

- Regex detectors, name recognition, keyword lists and morphology: detectors may produce any in-range non-empty candidates, inflection and needle lists are parameters.
- Partial masks, pool-based fake values, date formats and INN checksums: replacement strings are arbitrary in every theorem about masking.
- FastAPI routes, consumer registry and its errors, metrics, logging, health reports, settings, UI and the database clients.
- SHA-256, HMAC and serialization: fingerprints are injective (`Protocol.ValidWorld`), stored records come back as they were written. The protocol takes the two splices as functions, `Protocol.Splices` says which they are.
- ProtocolTheorems.CacheIsCoherent: claimed until the authority's entry first expires; `ProtocolRuns.ExpiryBreaksCoherence` shows why.
- ProtocolTheorems.ResendingRestores: claimed until expiry and for replies given from the stored record, for the same reason.
- Service.ProcessService.Process: threads of one process are not interleaved here, that is what the protocol modules do; the pipeline's result is a parameter required to be reversible, which `Pipeline.Process` establishes.
- Service.ResilientMappingStore.MarkDemasked: the time stamp of the transition is not recorded.
- Stores.MongoMappingRepository.FlushGraceNow: a flush whose bulk write fails drops its batch; in the protocol this is `Flush(false)`. A document without an expiry time is not modelled.
- Breaker.OutageBound: calls are one after another; concurrent half-open probes are possible and not bounded.
- DemaskExactness.DemaskIsExact: for any list of needles; the condition that a needle stands for one original is part of `Reworded`. `Aliases` builds the list for names.
- Aliases.DemaskNames: inflection of words is a parameter; so are the pairs of whole inflected names that mappings without an original identity get.
- GoRestoring.GoRestoresReworded: originals and surrogates without angle brackets (`GoTokens` treats originals that hold tokens), and texts in which a match of a surrogate lies inside a shown piece (`StaysInside`).
- GoTokens.AgreeExactlyWhenUnnested: originals are not empty, and neither they nor the texts hold an opening bracket that is never closed.
- GoMasking.BuildTransform: the decisions are required in the order of their spans, which overlap resolution guarantees; the splice loop is the one of `Engine.SpliceSpans`, statement for statement.
- RoundTrips.SurrogatesRestored: for documents without names; `Aliases.NamesComeBack` has the needles of names.
- Documents.DocumentsRefineProtocol: an operation acts on the documents at one instant, by a clock read then or, for a write, earlier; a read uses the clock of that instant.
- The Go service's first request is not a protocol model: it ignores whether its insert won.
- PersonTheorems.NoFalseMerge: requires distinct role labels inside one mention; `Naming.AssignedRolesDistinct` says exactly when role assignment gives them. Surfaces and alias types of a person are not modelled.
- Context.Engine.Decide: confidence values, reasons and the recorded scores are not modelled.
- Admission.RetryAfterBounded: on reals and before rounding to one decimal.
- Sampling.DeterministicStream.RandBelow: requires that some later word is accepted; the source would draw for ever otherwise.
- Admission.AdmissionController.TryAcquire: configuration values are non-negative, and how memory is read (at most once per second) is a parameter.

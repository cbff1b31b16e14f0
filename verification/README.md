# Verified models of STRATHMARK's protocols and transformations

STRATHMARK predicts wood-chopping times and assigns handicap marks. Around that engine stand a
trusted HTTP surface, an evidence pipeline and a release process. This project models the parts of
them whose correctness lies in interleavings, crashes, retries, whole runs, round trips or preserved
meaning, and proves what they promise.

`dafny verify dfyconfig.toml` checks the whole project.

## What is modelled

**Release alerts** (`ReleaseAlert`, `AlertConvergence`, `SinglePass`). One event plans a list of
issue commands; a process may die after any of them. The script is a class that scans the paginated
listing and sends commands until its life runs out. It is shown to refine a three-state machine
(absent, open, closed, with an attempt number), and that machine carries the results over whole
histories: two uninterrupted deliveries of a run's events, in any order and after any number of
interrupted ones, end in the one status the events decide. A single uninterrupted delivery is not
always enough; the orders for which it is are characterised, and a concrete order for which it is
not is given.

**Bounded work** (`Admission`, `RequestGate`, `ShadowSlots`). The admission counter and the login
limiter are classes with the fields of the original. The gate and the slot pools are state machines
over interleaved steps, with a ghost record of every acquire and release. Requests, messages, worker
starts and ends, timeouts and done-callbacks come in any order.

**The published API description** (`OpenApiMerge`, `OpenApiMeaning`). Renaming loop, reference
rewriting and overlay, and the meaning of a reference as the unfolding of its target to any depth
(Reference Object, section 4.8.23 of OpenAPI 3.1.0). A reference is resolved as a JSON pointer, so
it may lead to a part of a schema (pointers and array indices are read as RFC 6901 writes them,
`PointersAreRead` and `IndexIff`); the code rewrites references to whole schemas only, and one that
points inside a shared schema ends up in the frozen schema of that name. The loop, which runs in
sorted order with one rewrite of the whole document per name, is proved equal to one simultaneous
renaming. That order decides which documents are refused: a shared `LegacyX` that sorts before `X`
has itself been renamed away by the time `X` is processed, so no collision is reported; `Blocked`
states this.

**Delegated assertions** (`Base64Url`, `Attestation`, `Authorisation`, `NonceReplay`,
`DurableNonces`, `OneShotCalls`, `CanonicalJson`, `Utf16`, `JsonText`, `DigestText`). The codec of
sections 4 and 5 of RFC 4648 without padding, signing and decoding, validation, the authorisation
that ends in one nonce claim, assertions over whole runs, and request normalisation. The abstract
nonce ledger of `strathmark/auth.py` promises nothing about time. If it forgets expired claims,
assertions are one-shot over all interleavings exactly when a claim checks expiry again as it
settles. The durable ledger in `strathmark/ledger.py` checks expiry again, but with a clock it reads
before it waits for the write lock, and it purges by that reading. A claim that waits while another
one purges with a later reading can therefore accept an assertion a second time. Given the readings
in commit order, assertions are one-shot exactly when no transaction is overtaken in this way, and
over all interleavings exactly when the clock is read inside the transaction. Of the answers of
whole calls, whatever they ask, it is proved that no assertion is let in twice unless one of its
transactions is overtaken. Payload strings are sequences of code points, surrogates included, as in
Python: the hashed text does not tell a high surrogate followed by a low one from the one character
they stand for, so the digest separates requests exactly up to that.

**Release tags and GitHub releases** (`ReleaseTags`, `GithubRelease`). Tag preparation over a small
git model (commits, ancestry, annotated tags, a local and a remote repository) establishes what the
verifier demands, and no sequence of runs moves a tag. Publishing goes through draft, upload, check,
publish and check again, and is cut off after any mutating command.

**Evidence and the canonical request** (`Columns`, `SpeciesTable`, `PriorEvidence`,
`CanonicalRequest`). Column coalescing, the species table with its medians, the causal row filter
with exclusion accounting, and the sorted request.

**Smaller cores** (`MarkerEvaluator`, `WeightedAverage`, `ModelActivation`). The strict marker
evaluator and the lock reader that uses it, the robust weighted mean over reals, and the two-step
model activation.

`Wrappers`, `Lists`, `Tallies`, `Ordering` and `Medians` hold what these share.

Assumptions carried by parameters: JSON printing and parsing are inverse on payloads and a MAC has
32 bytes (`Attestation.Lawful`); the numbers and dates that occur in one competitor's evidence print
apart (`CanonicalRequest.FaithfulTo`), and so do the fractions that occur in the requests compared
(`JsonText.Tells`). The last two are shown to be met by some printer for any request.

## Model

| member | source | states |
|---|---|---|
| ReleaseAlert.GitHub.FindExisting | scripts/report_release_failure.py:31-52 | the nested scan over any pagination finds exactly the first issue of the flat listing that is this run's alert, and none when there is none |
| ReleaseAlert.GitHub.ReportFailure | scripts/report_release_failure.py:16-106 | one run of the script changes the issues exactly as the commands its life allows, so a process that lives long enough delivers the event whole |
| AlertConvergence.DeliveryRefines | scripts/report_release_failure.py:52-106 | cut at any command, a delivery moves its run's alert by one abstract transition, writes no other issue, creates no second alert and leaves every other run's status alone |
| AlertConvergence.OthersAreLeftAlone | scripts/report_release_failure.py:16-31 | an event of another repository, branch, workflow, trigger, state or conclusion writes nothing, and no event writes an issue that is not the bot's own alert of its run |
| AlertConvergence.FirstDelivery | scripts/report_release_failure.py:91-106 | without an alert a failure appends one open alert by the bot with its run and attempt, and a recovery writes nothing |
| AlertConvergence.LaterDelivery | scripts/report_release_failure.py:52-106 | on an existing alert a failure of a later attempt reopens it, records the attempt and comments; a recovery of no earlier attempt closes an open one once the publisher job has succeeded; anything else writes nothing |
| AlertConvergence.HistoryRefines | scripts/report_release_failure.py:28-106 | over any history of events of any runs with any cuts, a run's alert is where folding its own facts puts it, and there is at most one alert per run |
| AlertConvergence.Converges | scripts/report_release_failure.py:52-106 | after any interrupted history, delivering a run's events twice, each time in any order, ends in the status its facts decide: absent without a failure, closed exactly when the highest success is at least the highest failure, open otherwise |
| SinglePass.OnePassSettlesIff | scripts/report_release_failure.py:52-106 | one uninterrupted delivery of a run's events, from no alert, settles it exactly when nothing failed, or nothing recovers the highest failure, or something does after its first delivery, or the alert was by then already closed that high |
| SinglePass.OnePassMayMiss | scripts/report_release_failure.py:52-106 | four deliveries to an empty issue list leave the alert open although a later attempt recovered: its success arrived while the alert was closed |
| SinglePass.MovesIsFold | scripts/report_release_failure.py:52-106 | uninterrupted deliveries move a run's alert as its own facts do, one after the other |
| AlertConvergence.SettledIsDecided | scripts/report_release_failure.py:52-106 | the final status is a function of the set of facts alone |
| AlertConvergence.RecordsHighestFailure | scripts/report_release_failure.py:28-106 | after any uninterrupted history an open alert records exactly the highest failed attempt delivered, a closed one a delivered success no lower than every failure, and there is an alert only if something failed |
| AlertConvergence.NeverForgets | scripts/report_release_failure.py:52-106 | along any history, interrupted or not, alerts never disappear, the recorded attempt never decreases and no run gets two alerts |
| AlertConvergence.RerunCompletes | scripts/report_release_failure.py:76-106 | rerunning an event after a cut at any command reaches, for every run, the status of an uninterrupted delivery |
| AlertConvergence.RerunStatus | scripts/report_release_failure.py:83-91 | in the abstract machine a cut transition followed by the whole one is the whole one |
| Admission.WorkAdmission.Acquire | strathmark/admission.py:17-23 | a place is granted exactly when the pool and the caller have room, and the counters move together |
| Admission.WorkAdmission.Release | strathmark/admission.py:25-32 | returning a place keeps total and per-caller counts in balance and drops a caller at zero |
| Admission.ReturnUndoesReserve | strathmark/admission.py:17-32 | a release exactly undoes the acquire before it, caller table included |
| Admission.ReserveKeepsBalance | strathmark/admission.py:17-23 | a granted acquire keeps the counter equal to the sum over callers, within both limits, without idle keys |
| Admission.LoginAttempts.Admit | strathmark/admission.py:49-66 | a call is admitted exactly when all three budgets of its window have room, and both tables keep summing to the attempt counter |
| Admission.TablesAreBounded | strathmark/admission.py:38-66 | the account and source tables never hold more keys than admitted attempts, hence never more than the total budget |
| Admission.AnyIntervalIsBounded | strathmark/admission.py:49-66 | over any calls on a monotone clock, every half-open interval of window length holds at most twice the total, per-account and per-source budget |
| Admission.EpochWithinBudget | strathmark/admission.py:49-66 | each single window admits at most one budget per scope |
| Admission.BurstsMeetAtTheBoundary | strathmark/admission.py:49-58 | the factor two is reached |
| RequestGate.ReadBody | strathmark/api.py:992-1019 | the application is reached exactly when the first messages form one whole body of the declared and permitted length, with their concatenation; 413 exactly when chunks of one body exceed 262144 bytes, 400 exactly when a whole body has another length than declared, 408 exactly when a deadline expires first; nothing is answered exactly when the client disconnects or the wait is cancelled first |
| RequestGate.ReplayBody.Receive | strathmark/api.py:1020-1027 | the application is given the body once and a disconnect ever after |
| RequestGate.Serve | strathmark/api.py:989-1031 | every exit of an admitted call, a raising application and a cancelled wait included, leaves its pool exactly as it was found; the application is entered on a whole body only and is given it once |
| RequestGate.StepKeepsConsistent | strathmark/api.py:962-1031 | every step of any call keeps the pool counters equal to the calls holding places |
| RequestGate.OnlyAuthenticatedHoldPlaces | strathmark/api.py:962-991 | in every interleaving whoever holds or ever held a place arrived authenticated as the caller it is counted under, with a permitted declared length, at its own pool |
| RequestGate.ArrivalIsAdmittedIff | strathmark/api.py:962-991 | an arrival is answered 411, 400, 413, 503, 401 or 429 by the first thing that is wrong with it, recovery paths have four places and all others eight with two for each caller, and whoever is answered so takes no place |
| RequestGate.MessageDecides | strathmark/api.py:992-1029 | what each message makes of a call: an expired deadline 408, too many bytes 413, the end of a body of another length 400, more to come, the application entered on the whole body, or the place given up at once |
| RequestGate.GateIsBounded | strathmark/api.py:962-1031 | in every interleaving each pool counter is the sum of its callers' counts and the number of calls holding a place, no caller holds more than two or is remembered when idle, each admission is released exactly once when its call ends, and all buffers stay within twelve maximal bodies |
| RequestGate.ApplicationSeesWholeBody | strathmark/api.py:992-1029 | in every interleaving a request that reached the application carries exactly its own client's bytes, whole and of the declared length, and a rejected one is answered by what its own last message was |
| ShadowSlots.StepKeepsConsistent | strathmark/api.py:654-779 | every request, worker, timeout and reply step keeps slots and unfinished operations in balance |
| ShadowSlots.SlotsAreConserved | strathmark/api.py:654-779 | in every interleaving free slots and unfinished operations of a pool add up to its capacity, each slot is given back at most once and only after its operation ended, by its own worker or, for mirror replay, its own done-callback |
| ShadowSlots.TimeoutKeepsSlot | strathmark/api.py:745-779 | a timed-out operation keeps its slot at every later moment until its worker has ended |
| ShadowSlots.AdmittedNeverWaitsForWork | strathmark/api.py:654-703 | an admitted operation still queued never waits behind a full set of working threads |
| ShadowSlots.PoolsDoNotInterfere | strathmark/api.py:654-779 | a pool's own steps of any run, without any other, are a run by themselves that ends with the same operations and free slots of that pool and none of another |
| ShadowSlots.SlotsByKind | strathmark/api.py:440-454 | at every moment of every run the free critical slots and the unfinished calculations and outcome writes make two, and so do those of receipt lookups and status reads, and of drift reads and mirror replays |
| ShadowSlots.StepsKeepToTheirSlots | strathmark/api.py:654-779 | no step of a read or of a mirror replay changes the free critical slots, and likewise for the other two pools |
| ShadowSlots.RefusedIffTwoUnfinished | strathmark/api.py:654-779 | a request is refused exactly while two operations of the kinds it shares its slots with are unfinished, timed out or not |
| ShadowSlots.TwoThreads | strathmark/api.py:440-454 | a pool never has more than two threads taken, and a queued operation may start exactly while one is free |
| ShadowSlots.WaitersMove | strathmark/api.py:673-779 | a waiter is answered or given an exception from a settled result only, and times out at once or, for a read, by way of its grace period |
| ShadowSlots.TimeoutIsFinal | strathmark/api.py:728-735 | a waiter that has timed out is never answered, a result that arrives in the grace period included |
| ShadowSlots.WaitersAreHonest | strathmark/api.py:705-743 | in every run answers are of settled operations, only reads are in a grace period, and a mirror replay has its callback before it is answered |
| ShadowSlots.OwnStepsUseOnlyView | strathmark/api.py:654-779 | a pool's steps are enabled by and act on that pool's own slots and operations only |
| OpenApiMerge.RewriteAfterRename | strathmark/api.py:1799-1808 | one more rewriting pass after a simultaneous renaming is the renaming with one more name, unless the pass starts from an old or a new name |
| OpenApiMerge.RenameOneMore | strathmark/api.py:1824-1833 | one turn of the loop on the whole document adds exactly one name to the renaming |
| OpenApiMerge.RefusedAtItsTurn | strathmark/api.py:1824-1828 | in sorted order a name is refused exactly when its legacy name is a generated schema that has not been renamed out of the way before |
| OpenApiMerge.OpenApi.Authoritative | strathmark/api.py:1811-1843 | the sequential loop yields the simultaneous renaming overlaid with the contract, fails exactly when a name is refused, naming the first one, caches only successes and answers later calls from the first; the description it publishes holds the generated entries outside paths and components, and of those two the entries of both sides and no others |
| OpenApiMerge.MergedHolds | strathmark/api.py:1811-1843 | entry by entry: everything outside paths and components is generated, paths, component kinds and names are exactly the two sides', frozen entries are verbatim, generated ones have their references renamed, and a shared generated schema stands under its legacy name |
| OpenApiMerge.BlockedIsFirst | strathmark/api.py:1824-1828 | the collision that is reported is that of the smallest refused name, by code points |
| OpenApiMeaning.RenamingPreservesMeaning | strathmark/api.py:1799-1833 | if every reference of a fragment, and of the schemas it leads to, is followed, the renamed fragment unfolds to the original's meaning at every depth |
| OpenApiMeaning.ReferencePreserved | strathmark/api.py:1799-1833 | a reference to a whole schema, or to a part of a schema that is not shared, leads after the merge to the renamed target it led to before |
| OpenApiMeaning.RenameAt | strathmark/api.py:1799-1808 | rewriting references moves nothing inside a schema: what stands at a path is the rewriting of what stood there |
| OpenApiMeaning.ExtensionPreservesMeaning | strathmark/api.py:1835-1840 | adding schemas under names a fragment does not use leaves its meaning as it was |
| OpenApiMeaning.MergePreservesMeaning | strathmark/api.py:1811-1843 | after a successful merge that leaves legacy names alone, everything outside paths and components, surviving generated paths and components of other kinds, and generated schemas mean what they meant unless they refer to a part of a shared schema, and every frozen path and component is there verbatim with its own references unredirected |
| OpenApiMeaning.NoCollisionMeansNoError | strathmark/api.py:1824-1828 | when no frozen schema takes a legacy name, the merge fails exactly if a generated one has |
| OpenApiMeaning.NamesDecide | strathmark/api.py:1824-1840 | in a merge that is not refused, references to whole schemas and a given reference keep their meaning for every content of the two tables if and only if no frozen schema is named Legacy plus a shared name and the given reference does not point inside a shared schema |
| OpenApiMeaning.InsideReferenceBreaks | strathmark/api.py:1799-1808 | a reference to a part of a shared schema is left as it is and leads nowhere in a frozen schema without that part |
| OpenApiMeaning.RefusesIsCollides | strathmark/api.py:1824-1828 | whether the merge is refused is decided by the schema names of the two sides alone |
| OpenApiMeaning.TakenNameBreaks | strathmark/api.py:1835-1838 | a frozen schema with a legacy name does redirect a reference |
| Base64Url.RoundTrip | strathmark/auth.py:430-438 | decoding inverts encoding on every non-empty byte string, and the empty one is refused |
| Base64Url.DecodesIff | strathmark/auth.py:434-438 | a text decodes exactly when it is a non-empty alphabet string whose length is not one more than a multiple of four |
| Base64Url.CanonicalIff | strathmark/auth.py:430-438 | a decodable text is what encoding its bytes gives back exactly when its unused bits are zero |
| Base64Url.TwoTextsOneByte | strathmark/auth.py:434-438 | decoding alone is not injective, so the canonical comparison is needed |
| Base64Url.EncodeDropsPadding | strathmark/auth.py:430-431 | the unpadded text is alphabet only, completes to the padded code, and has (4n + 2) / 3 symbols for n bytes |
| Base64Url.EncodesBits | strathmark/auth.py:430-431 | each character is the symbol, in A-Z a-z 0-9 - _ order, of the next six bits of the bytes, with zeros after the last |
| Attestation.ValidInOneWindow | strathmark/auth.py:397-403 | a payload is valid during one interval, from five seconds before issue until expiry, and never again |
| Attestation.StructureIff | strathmark/auth.py:354-396 | a payload carries an assertion exactly when it has the twelve fields, each as required, and the assertion holds their values |
| Attestation.RolesByAction | strathmark/auth.py:34-42 | an admin may do all six actions, a judge all but mirror replay, the adapter apply outcomes only, and nothing else is an action |
| Attestation.SignsIff | strathmark/auth.py:200-213 | signing succeeds exactly for an ASCII key of 16 to 4096 characters and a payload that is valid now for this audience, and yields the canonical payload and its MAC around a dot |
| Attestation.AcceptedIff | strathmark/auth.py:325-351 | exactly the texts that are the canonical encoding of the payload, a dot and a text decoding to its MAC, between 32 and 8192 characters, verify to that payload |
| Attestation.PayloadTextIsUnique | strathmark/auth.py:346-351 | all accepted texts for one payload carry it in the same characters |
| Attestation.SignedVerifies | strathmark/auth.py:200-213 | a freshly signed payload verifies to itself exactly when it prints to at most 6111 bytes, which is where the length gate falls |
| Authorisation.SettleIsSound | strathmark/ledger.py:985-1031 | a transaction keeps every consumer within its share, keeps every claim its stamp does not call expired, and adds only a free one |
| Authorisation.Ledger.Stamp | strathmark/ledger.py:985-991 | the clock is read and the expiry checked before any transaction |
| Authorisation.Ledger.Commit | strathmark/ledger.py:993-1036 | the transaction purges by the stamp it carries, refuses a claim still there, and rolls back for a full consumer, on the claims as they are once it holds the lock |
| Authorisation.VerifyShadowAction | strathmark/auth.py:106-183 | a request is let in exactly when service, assertion and scope all hold, the claim is in time, no unexpired claim holds the nonce and the consumer has room; then the claim stands with the assertion's expiry; one that fails any check spends no nonce |
| Authorisation.AnswersAreHonest | strathmark/auth.py:164-183 | what each answer means for the claims found and left: a pass for a free nonce now claimed, a replay exactly when an unexpired claim stands, a late claim or a full consumer changing nothing |
| Authorisation.ErrorIsTheFirstFault | strathmark/auth.py:120-183 | of eighteen things that can be wrong with a call, in the order of the checks, the first is the one that is told, and a call with any of them is refused |
| Authorisation.ConfiguredIff | strathmark/auth.py:271-282 | a configuration is used exactly when both tables know the same consumers, each has as many secrets as consumers and they share none |
| Authorisation.TokenIff | strathmark/auth.py:315-322 | the bearer token is what follows the scheme, of 16 to 4096 ASCII characters |
| Authorisation.NamespaceEndsAtColon | strathmark/auth.py:419-420 | the namespace of an identity is what stands before its first colon |
| OneShotCalls.CallsMakeHistory | strathmark/auth.py:106-183 | any calls of any requests answer honestly over the claims of the calls before them, and passes are stamped inside their assertion's window |
| OneShotCalls.LetInOnce | strathmark/auth.py:164-183 | once a call has been let in its claim stands, and every later call with that consumer and nonce is refused, until some stamp reaches the expiry; as a replay, unless its own assertion has expired |
| OneShotCalls.TwiceIsOvertaken | strathmark/ledger.py:985-1036 | two passes for one assertion lie less than 65 seconds apart, with a call committed between them whose stamp is later than both |
| OneShotCalls.OneShotUnlessOvertaken | strathmark/auth.py:106-183 | unless some transaction is overtaken by a later stamp, no two calls of a service are let in with the same assertion, whatever is asked in between |
| OneShotCalls.CallsAreTransactions | strathmark/ledger.py:985-1036 | the claims that calls leave are those of the transactions of the authorised, timely ones |
| Authorisation.SignedIsAuthorised | strathmark/auth.py:106-213 | what a configured consumer signs for its own request is authorised exactly during the assertion's window |
| NonceReplay.AcceptedAtMostOnce | strathmark/auth.py:144-183 | in every interleaving in which no claim settles on an expired assertion, an assertion is accepted at most once and within [issued-5, issued+60), whatever expired claims the ledger forgets |
| NonceReplay.InstantCallsAreOneShot | strathmark/auth.py:144-183 | when no second passes between a validation and its claim, assertions are one-shot over any ledger, overlapping calls included |
| NonceReplay.SerialCallsAreOneShotIff | strathmark/auth.py:144-183 | calls that never overlap are one-shot over a ledger that ignores the clock if and only if no second passes inside a call |
| NonceReplay.OneShotIffRechecked | strathmark/auth.py:144-183 | with calls interleaved, a forgetting ledger makes assertions one-shot if and only if its claim checks expiry again |
| NonceReplay.SlowClaimRepeats | strathmark/auth.py:144-183 | a concrete interleaving that accepts an assertion twice over a ledger without the second check |
| DurableNonces.ScheduleIsOneShotIff | strathmark/ledger.py:985-1031 | transactions known by their stamps in commit order accept each assertion at most once, whatever assertions they carry, exactly when none has a later-stamped one between it and an earlier one of the same window |
| DurableNonces.LockWaitRepeats | strathmark/ledger.py:985-1031 | a claim that reads 59, waits for the lock while another claim purges at 60, and then commits accepts an assertion claimed at 5 again |
| DurableNonces.RunIsOneShotUnlessOvertaken | strathmark/ledger.py:961-1036 | in any interleaving without such an overtaking the durable ledger accepts each assertion at most once, with a stamp in [issued-5, issued+60) |
| DurableNonces.OneShotIffReadInside | strathmark/ledger.py:985-1031 | over all interleavings assertions are one-shot if and only if the clock is read inside the transaction |
| NonceReplay.PunctualTransactionRechecks | strathmark/ledger.py:985-1031 | a transaction whose stamp is still the current instant is a forgetting of expired claims followed by one rechecked claim |
| CanonicalJson.RefusedIffOffence | strathmark/auth.py:238-252 | a payload is refused exactly when some node, at any depth, is non-finite, has a key that is no string, or is of an unsupported kind |
| CanonicalJson.Idempotent | strathmark/auth.py:238-252 | normalising a normalised payload changes nothing |
| CanonicalJson.FixpointIffNormal | strathmark/auth.py:245-248 | normalisation leaves a document alone exactly when no whole number is written as a fraction |
| CanonicalJson.NormaliseReflects | strathmark/auth.py:238-252 | two payloads normalise to the same document up to key order exactly when they agree up to list or tuple and whole float or integer |
| CanonicalJson.CanonicalReflects | strathmark/auth.py:226-232 | sorted printing identifies exactly the documents that differ in the order of their keys only |
| CanonicalJson.CanonicalIsAscending | strathmark/auth.py:226-232 | in every object of the printed document, at any depth, each earlier name is a proper prefix of a later one or has the smaller code point where they first differ |
| CanonicalJson.EnvelopeIs | strathmark/auth.py:216-234 | the envelope has the members payload and schema_version in this order, its payload the normalised request with ascending keys throughout |
| CanonicalJson.EqualEnvelopesIffAgree | strathmark/auth.py:216-234 | two accepted requests have the same sorted envelope exactly when they agree |
| JsonText.PrintsAlikeIff | strathmark/auth.py:226-232 | two documents are written as the same text exactly when they are read back as the same document |
| JsonText.ReadBackIff | strathmark/auth.py:226-232 | a document is read back as it was exactly when no string or name in it has a high surrogate directly followed by a low one |
| JsonText.PrintIsInjective | strathmark/auth.py:226-232 | different documents without such surrogate pairs are written as different texts, escapes of ensure_ascii and decimal integers included |
| JsonText.PrintedForm | strathmark/auth.py:226-232 | what is written for each kind of value, character by character: quoted strings, commas and colons without blanks, brackets and braces |
| JsonText.EscapeWritesUnit | strathmark/auth.py:226-232 | printable ASCII stands for itself, seven characters have a short escape and every other code unit is written as a backslash, u and four lower-case hexadecimal digits |
| JsonText.DigitsAreDecimal | strathmark/auth.py:226-232 | integers are written as their decimal digits without leading zeros, a minus sign before negative ones |
| Utf16.RereadIff | strathmark/auth.py:226-232 | exactly the strings with a surrogate pair are read as another string, which has the same code units and no pair |
| JsonText.EscapeIsPrefixFree | strathmark/auth.py:226-232 | an escaped code unit and what follows it can be read off in one way only |
| DigestText.EqualTextsIffReadAlike | strathmark/auth.py:216-234 | any two accepted requests are hashed from the same text exactly when their sorted envelopes are read back as the same document |
| DigestText.TextIff | strathmark/auth.py:216-252 | a request has a text exactly when it is a mapping without an offence and no integer in it has more than 4300 digits |
| DigestText.EqualTextsIffAgree | strathmark/auth.py:216-234 | requests without a surrogate pair in any string or key are hashed from the same text exactly when they agree up to list or tuple, whole float or integer, and key order |
| DigestText.AgreeingTextsAreEqual | strathmark/auth.py:216-234 | accepted requests that agree are hashed from the same text, surrogate pairs or not |
| DigestText.PairsCollideIff | strathmark/auth.py:216-252 | a string has a surrogate pair if and only if some string without one, in its place, makes a request that does not agree and is hashed from the same text |
| DigestText.SurrogatesCollide | strathmark/auth.py:216-252 | the two code points 0xD800 and 0xDC00 and the one character 0x10000 are such strings |
| JsonText.DocumentsAreLegible | strathmark/auth.py:226-232 | for any two documents some way of writing fractions tells theirs apart |
| ReleaseTags.Workspace.PrepareRelease | scripts/prepare_pypi_release.py:131-215 | the imperative preparation, its tagging loop and its all-or-nothing push compute one transition of the repositories and one answer |
| ReleaseTags.RepublishesIff | scripts/prepare_pypi_release.py:131-215 | after a publish answer and any runs, a later run publishes that version and commit again exactly when its tested head is current and clean, carries the version, is new to PyPI and descends from the commit with the commit's own CI |
| ReleaseTags.AdvancingKeepsPublishable | scripts/prepare_pypi_release.py:131-215 | a published version stays publishable from the same commit while main advances and keeps the version |
| ReleaseTags.PublishedVerifies | scripts/prepare_pypi_release.py:131-215 | whenever preparation answers publish, the verifier accepts a clean checkout of the answered commit with the answered commit and object id, and the commit is on main with CI evidence |
| ReleaseTags.VerifierAccepts | scripts/verify_release_tag.py:44-109 | two annotated tags of a version that peel to a commit carrying that version are enough for the verifier |
| ReleaseTags.VerifiedStaysVerified | scripts/verify_release_tag.py:44-109 | what the verifier accepts on the remote's tags it accepts after any sequence of preparation runs, with the same result |
| ReleaseTags.VersionIsSafe | scripts/prepare_pypi_release.py:144-150 | every canonical version makes a tag name the verifier's safety check and the manual recovery accept |
| ReleaseTags.VersionIff | scripts/prepare_pypi_release.py:147-150 | the canonical versions are dotted digit runs followed by at most one a, b or rc number, one .post number and one .dev number |
| ReleaseTags.SafeTagIff | scripts/verify_release_tag.py:55-56 | a safe tag has no slash, backslash, space, tab or newline |
| ReleaseTags.ManualTagIff | scripts/prepare_pypi_release.py:105-106 | the manual recovery takes pypi-v, a digit and any digits, letters and dots |
| ReleaseTags.AncestorIff | scripts/prepare_pypi_release.py:164-169 | a commit counts as contained in main exactly when a way of parents leads from the head back to it |
| ReleaseTags.DeclinesIff | scripts/prepare_pypi_release.py:139-152 | a run declines, rather than refuses, exactly when main has advanced or PyPI has the version of a clean canonical checkout, and tags change only when it publishes or its push is rejected |
| ReleaseTags.TagsNeverMove | scripts/prepare_pypi_release.py:160-215 | no run moves an existing tag, locally or remotely, and version tags that agreed still peel to one commit |
| ReleaseTags.RunsNeverMoveTags | scripts/prepare_pypi_release.py:131-215 | the same over any sequence of runs, main advances, CI and index answers and deaths before the push |
| ReleaseTags.PublishedOnce | scripts/prepare_pypi_release.py:131-215 | a publish answer fixes its version: every later one, after any runs between, names the same commit and authorization object |
| ReleaseTags.PublishedLasts | scripts/prepare_pypi_release.py:131-215 | in any sequence of runs, the tags that one of them answered to publish are on the remote at the end |
| ReleaseTags.ManualAgreesWithAutomatic | scripts/prepare_pypi_release.py:97-128 | recovering a published version manually, after any runs, gives the automatic answer exactly when its commit is on main with its own CI, and the verifier then accepts it on the remote's tags |
| GithubRelease.CompleteIsExact | scripts/publish_github_release.py:55-68 | the complete asset check accepts exactly the expected set with matching digests and sizes |
| GithubRelease.GitHub.PublishRelease | scripts/publish_github_release.py:107-166 | a run issues exactly the commands of its plan that its life allows, and succeeds exactly on an acceptable listing if it lives that long |
| GithubRelease.OnlyExactIsPublished | scripts/publish_github_release.py:107-166 | from any listing and any cut, published releases are never written and a release leaves draft only with exactly the expected assets |
| GithubRelease.AttemptAdvances | scripts/publish_github_release.py:119-166 | an attempt cut anywhere leaves an acceptable listing with the same release, and a whole one publishes it |
| GithubRelease.RetriesComplete | scripts/publish_github_release.py:119-166 | after any number of dying attempts, one that lives leaves exactly one release of the tag, published: the one there was at the start, or else the draft the first attempt to get so far created |
| GithubRelease.PublishesIffAcceptable | scripts/publish_github_release.py:141-166 | a whole run ends with the release published if and only if it started acceptable |
| GithubRelease.PublishedIsFinal | scripts/publish_github_release.py:149-152 | on a matching published release a run issues no mutating command |
| GithubRelease.UploadsAppend | scripts/publish_github_release.py:153-156 | uploading appends the missing assets to the one draft and touches no other release |
| Columns.Coalesce | strathmark/features.py:261-274 | each field is filled, row by row, from its first candidate column that has a value |
| Columns.FirstPresentIsFirst | strathmark/features.py:267-273 | that value is present in a source before which every source is empty |
| Columns.OtherColumnsDoNotMatter | strathmark/features.py:261-274 | a column under a name no candidate mentions has no influence wherever it stands |
| SpeciesTable.PropertyLookup | strathmark/features.py:277-307 | repeated named species are refused and nothing else; every other table holds each named species' own readings with gaps pooled |
| SpeciesTable.ResolveIsFaithful | strathmark/features.py:239-254 | a species is flagged exactly when no usable row names it; a known one keeps its own finite readings |
| SpeciesTable.PooledIsTheMedian | strathmark/features.py:292-298 | a property is pooled as the median of the readings there are, or as its fixed default when there is none |
| SpeciesTable.WoodOrderDoesNotMatter | strathmark/features.py:277-307 | reordering the wood table changes no property of any species |
| Medians.MedianHalves | strathmark/features.py:292-298 | the median splits the list into halves on either side and is the odd entry out or the midpoint |
| Medians.MedianOfHalves | strathmark/decay.py:311-316 | any split of the list into halves around two inner values decides the median by those values |
| Medians.MedianIgnoresFar | strathmark/decay.py:311-316 | moving an entry that lies beyond the inner values on its own side moves no median |
| PriorEvidence.BuildPriorEvidence | strathmark/features.py:147-236 | accepted rows keep input order, every other row is counted under exactly its first reason, and included plus excluded is the total |
| PriorEvidence.ReasonIsTheFirstFault | strathmark/features.py:171-205 | a row is counted under the one fault it has that no other fault of it precedes: identity, event, time, date, diameter |
| PriorEvidence.EvidenceIsPrior | strathmark/features.py:171-233 | all evidence predates the cutoff, has positive time and diameter and says field by field what an accepted row says |
| PriorEvidence.EvidenceByPosition | strathmark/features.py:164-228 | the k-th evidence has every field of the k-th accepted row, each under its own name, with its species' own properties or the pooled ones and the mark; there is no further evidence |
| PriorEvidence.FutureEditsChangeNothing | strathmark/features.py:187-200 | adding, deleting, moving or editing undated, unreadable, same-day or future rows leaves the evidence unchanged |
| PriorEvidence.EarlierEvidenceIsARestriction | strathmark/features.py:187-200 | evidence at an earlier cutoff is the later evidence filtered by date |
| CanonicalRequest.KeyIsInjective | strathmark/calculator.py:160 | the sort key covers every evidence field: rows of one evidence with equal keys are equal |
| CanonicalRequest.OrderIsForgottenIff | strathmark/calculator.py:160 | every arrangement of the same rows gives the same sorted history exactly when no two different rows have the same key |
| CanonicalRequest.RequestsHaveFaithfulPrinters | strathmark/calculator.py:147-160 | for every request some way of printing tells the numbers and dates of its evidence apart |
| CanonicalRequest.HistoryIsNormalForm | strathmark/calculator.py:151-160 | two histories yield the same sorted history exactly when they hold the same evidence equally often |
| CanonicalRequest.SamePastSameRequest | strathmark/calculator.py:133-182 | permuting histories, or inserting and removing rows that are not dated before the cutoff, yields the identical request |
| CanonicalRequest.EqualRequestsIff | strathmark/calculator.py:133-182 | equal requests come only from equal frames, identities, overrides and evidence |
| CanonicalRequest.CanonicalActiveV2Request | strathmark/calculator.py:104-182 | the loop builds that request and fails exactly when the wood table repeats a species |
| CanonicalRequest.RequestSays | strathmark/calculator.py:133-182 | a request carries its frame, the wood's properties and, for each competitor in order, its identity, gender, override and exactly the evidence of its usable history entries |
| CanonicalRequest.EvidenceOfHistory | strathmark/calculator.py:137-160 | each usable history entry is evidence at its own place with its own event, time, date, diameter and species and its competitor's identity and gender |
| CanonicalRequest.KeyLeIsInOrder | strathmark/calculator.py:160 | of two rows in sorted order the first field, in evidence order, whose texts differ has the smaller text in the earlier row |
| MarkerEvaluator.SoundAndComplete | scripts/verify_toolchain.py:62-88 | the evaluator answers exactly on well-typed boolean markers, with what they mean |
| MarkerEvaluator.NothingIsHidden | scripts/verify_toolchain.py:67-80 | every node of an answered marker is well typed, so an ill-typed part is refused wherever it stands |
| MarkerEvaluator.ShortcutAgrees | scripts/verify_toolchain.py:67-71 | strictness costs no answer: where it answers, short-circuit evaluation answers the same |
| MarkerEvaluator.ShortcutHides | scripts/verify_toolchain.py:67-71 | strictness refuses more: short-circuiting would have hidden an unsupported node |
| MarkerEvaluator.LockedHashes | scripts/verify_toolchain.py:91-110 | the lock is refused exactly for an unreadable line, an ill-typed marker or no selected line; otherwise each identity carries exactly the hashes pinned for it by the lines that apply |
| WeightedAverage.MeanBalances | strathmark/decay.py:309-324 | the weighted mean is the one value the clipped times balance around |
| WeightedAverage.AverageOfLists | strathmark/decay.py:302-324 | the average of a list of times is the value on which the times, clipped by their median and median offset and each with the weight at its own place, have no pull |
| WeightedAverage.AverageStaysInRange | strathmark/decay.py:295-324 | with non-negative weights the average lies between the smallest and the largest time |
| WeightedAverage.OutliersAreBounded | strathmark/decay.py:312-324 | with five or more times and a positive MAD the average is within 2.5 MAD of the median |
| WeightedAverage.OutlierDistanceDoesNotMatter | strathmark/decay.py:309-324 | moving an outlier anywhere beyond the clipping interval on its own side leaves median, spread and average as they are |
| WeightedAverage.PlainWithoutOutliers | strathmark/decay.py:309-324 | with fewer than five times, no spread or no outlier, the average is the plain weighted mean |
| WeightedAverage.AverageExistsIff | strathmark/decay.py:295-307 | there is an average exactly for equally many times and weights, at least one, of positive total weight; the length error precedes the others |
| WeightedAverage.ReorderingChangesNothing | strathmark/decay.py:295-324 | jointly permuting times and weights changes neither result nor error |
| WeightedAverage.ScalingChangesNothing | strathmark/decay.py:302-324 | scaling all weights by a positive factor changes neither result nor error |
| ModelActivation.ModelVersions.SetActiveModel | strathmark/db.py:1331-1352 | cut after either update, the table has at most one active version per type; an unknown version changes nothing |
| ModelActivation.ModelVersions.Register | strathmark/db.py:1264-1284 | a new version starts inactive beside unchanged rows, so at most one stays active per type |
| ModelActivation.ActivatingFirstBreaksIff | strathmark/db.py:1343-1352 | the opposite order would break the index exactly when another version of the type is active |
| ModelActivation.RetryCompletes | strathmark/db.py:1343-1352 | a retry after any cut ends with the versions of an uninterrupted swap active |
| ModelActivation.LastSwapWins | strathmark/db.py:1331-1352 | after any activations, cut or not and of any types, the last uncut one of a type leaves exactly its target active in that type, for as long as only other types are touched |
| ModelActivation.WindowIff | strathmark/db.py:1320-1352 | the moment without an active version opens exactly when the target was not active already |

## Left out

- The V2 predictor, mark optimizer, V3 lifecycle, event store, job code, database clients, schemas, command lines, analytics and rendering are not part of this model: network and file access, or no deep invariant.
- SHA-256, HMAC, JSON text, pandas and numpy parsing, date parsing and git itself are parameters or small algebraic models; floating point is modelled by reals, so rounding is not captured.
- `prediction_bundle` of the canonical request: the species table in effect is one table; serialised rows are identified with the rows they serialise.
- `_load_secret_map`: the two secret tables are given as maps, absent where the environment holds no readable one; namespaced identities are matched by a parameter.
- References to components of other kinds, which are overlaid without renaming, and the texts of discriminator mappings, are given no meaning of their own; component names are taken to contain no slash, as section 4.8.7 of OpenAPI 3.1.0 demands, and percent-encoding in a pointer is not undone.
- OpenApiMerge.OpenApi.Authoritative: the document is rewritten as a value, so sharing of sub-objects inside the generated dictionary is not captured.
- ShadowSlots.SlotsAreConserved: submitting to an executor that has been shut down, which raises after the slot was taken, is not a step of the model.
- DigestText.EqualTextsIffAgree: is about requests without surrogate pairs, because the code hashes a pair like the character it stands for (DigestText.PairsCollideIff); the interpreter's limit on integer digits is its default, 4300.
- Strings outside payload normalisation are sequences of Unicode characters without surrogates.
- The wording of timeout messages about nonce state is not modelled; slots are.
- RequestGate.GateIsBounded: the ten and two second deadlines are one nondeterministic expiry.
- Releases of GitHub: uploads are atomic and no other writer is at work; release notes are compared in normalised form.
- ReleaseTags.PublishedVerifies: PyPI and CI answers are inputs of each run; the event checks of `successful_main_ci` are not modelled.
- Git's object names: commits are numbered as they are made, parents first, and every clone sees the whole history.
- Concurrent runs of the alert, tag, publishing and activation scripts against stale listings; each run sees the current state.
- NonceReplay.AcceptedAtMostOnce: is about the abstract ledger, whose claim is one instant; the durable ledger, whose claim is not, does not meet it (DurableNonces.OneShotIffReadInside).
- Authorisation.VerifyShadowAction: runs with nobody else at work; what other calls do between its clock readings and its transaction is in OneShotCalls, NonceReplay and DurableNonces.
- `classify_activity_level`, `select_half_life`, `effective_mark_ceiling`, `_mint_next_competitor_id`, field checks of artifacts and wheel inspection would only add easy members.

# InterMCP: a verified model of the request path

InterMCP is an MCP server whose request path is built from small stateful engines. This project
models nine of them in Dafny and proves what they promise: the log redactor, the tool cache and its
key, the upstream circuit breaker and tool namespacing, the receipt chain and its book, the
guardrails, the approval vault, the server-sent-event framing, the WebAssembly section scanner, and
the shell splitter with the meta-character gate. `dafny verify dfyconfig.toml` checks everything.

| file | engine |
|---|---|
| `RedactionTheory.dfy`, `Redactor.dfy` | what redaction means for any forward-looking patterns; the three scanners, sort, merge, rebuild |
| `SecretShapes.dfy`, `LogRedactor.dfy` | the three shapes of sensitive text, written out; `redact_for_log` against them |
| `Json.dfy` | compact JSON text, its unique readability, its quote and depth structure |
| `CacheModel.dfy`, `ToolCache.dfy` | the cache on values and over runs; the cache as an object |
| `Breaker.dfy`, `HubNames.dfy` | the circuit breaker under concurrent requests; prefixed tool names and the loader |
| `Receipts.dfy`, `ReceiptBook.dfy` | signed chains, file verification, checkpoints; the book over its file |
| `GuardrailLogs.dfy`, `Guardrails.dfy` | the rules on full logs and their bounds; the policy with pruned histories |
| `VaultProtocol.dfy`, `TimeLockedVault.dfy` | the approval protocol as a state machine; the vault as an object |
| `Sse.dfy` | event framing and the parser of WHATWG HTML, sections 9.2.5 and 9.2.6 |
| `Wasm.dfy` | the section scanner and the module encoding of the WebAssembly Core Specification 1.0 |
| `ShellText.dfy`, `Shell.dfy` | quoting, splitting, blanks and first words, written out; the splitter, the gate and the policy loop against them |
| `Basics.dfy` | `Option` and ASCII case |

Objects whose methods change fields in the source are classes; every method is tied to a function of
the old state, and the theorems are about those functions, over all inputs or all runs. Time is a
`nat` argument. Where a method and the function that specifies it could share a mistake, a law states
the result again without that function: with the words, character classes, limits and byte values of
the source as literals. Hashes and signatures are parameters; where a theorem needs collision freedom it asks
for it only of the receipts at hand. A block that runs under one lock is one atomic step.

## What turned out not to hold

Each of these is stated with its exact condition, next to a concrete case.

- A cache entry that fits the limits is stored whenever every entry owns an index slot. When two
  operations share a time stamp the older entry loses its slot and eviction cannot reach it:
  `StoredIffOrphansLeaveRoom` gives the exact condition, `TiedRun` and `TiedRefuses` a case.
- A half-open breaker recovers exactly when some admitted request is still in flight. The caller of
  `call_tool` runs its own 30 s timer around the one inside `send_request`, so a probe can end without
  recording anything: `HalfOpenRecoversIff`, `LostProbeSticks`, `ProbeCanBeLost`.
- Three errors in a row within 30 s need not trip the breaker, because the window starts at the first
  error that is counted. They leave it closed exactly when one error was counted before them and its
  window ends between the first and the second: `BurstStaysClosedIff`, with the failing family
  `BurstNeedNotTrip`.
- The receipt file keeps verifying exactly when nothing is appended through a book whose last append
  wrote its line and then failed to sync, until that book is reopened: `VerifiesIff`,
  `FailedSyncThenAppendBreaks`, `ReopeningSuffices`.
- The signer name of a receipt is covered neither by its hash nor by its signature:
  `SignerIsNotProtected`. It is all that is not covered: `SameTipIff`.
- The vault's cap of 256 is checked and used under two separate locks. It holds exactly when at most
  one call at a time is between them, and each further racing call can exceed it by one:
  `CapHoldsIff`, `PendingBounded`, `CapOvershoots`.
- `approve` can return true for a call that is denied, when the timer has already fired; a call is
  granted exactly when the approval found it waiting: `VaultSafety`, `LateApprovalIsLost`.
- The scanner reports the declared minimum exactly while it is below 2^32, which the standard demands;
  a five-group code can carry more, and the cast to 32 bits drops the rest. The page limit is enforced
  exactly when the minimum is below 2^32 or what the cast leaves exceeds the limit: `ReportExactIff`,
  `OversizedModuleAccepted`.

## Model

| member | source | states |
|---|---|---|
| Redactor.SkipWhile | src/server.rs:130-138 | the scanning loops stop at the end of the longest run of one character class |
| Redactor.HeaderAt | src/server.rs:97-123 | the authorization scan at one position finds header, optional blanks, scheme, blanks, and a value |
| Redactor.TokenAt | src/server.rs:126-143 | the bearer scan at one position asks for at least eight value characters |
| Redactor.FindKeyword | src/server.rs:161-167 | the first keyword in table order wins |
| Redactor.SecretAt | src/server.rs:158-202 | the keyword scan at one position asks for a separator and at least twelve value characters |
| Redactor.ScanHeaders | src/server.rs:97-123 | collects exactly the authorization matches of the text |
| Redactor.ScanTokens | src/server.rs:126-143 | collects exactly the bearer matches of the text |
| Redactor.ScanSecrets | src/server.rs:158-202 | collects exactly the keyword matches of the text |
| RedactionTheory.Sort | src/server.rs:208 | sorted by start then end, same intervals |
| RedactionTheory.Merge | src/server.rs:209-220 | the merged runs are ordered with gaps between them and cover exactly what the matches cover |
| RedactionTheory.RunsAreMaximal | src/server.rs:209-220 | each merged run is covered throughout and cannot be extended on either side |
| RedactionTheory.RunsAreUnique | src/server.rs:209-220 | separated runs are fixed by what they cover, so the merge result is the one list of maximal runs |
| RedactionTheory.Rebuild | src/server.rs:222-232 | the output is the input with every maximal covered run replaced by one marker and every uncovered character kept in order |
| Redactor.Replace | src/server.rs:204-232 | sort, merge and rebuild give that output for any patterns whose matches were collected |
| LogRedactor.AuthorizationIff | src/server.rs:97-123 | the authorization pattern matches exactly the header name, optional blanks, the scheme, blanks and everything up to white space |
| LogRedactor.BearerIff | src/server.rs:126-143 | the bearer pattern matches exactly the prefix and all the key characters after it, eight or more |
| LogRedactor.SecretIff | src/server.rs:145-202 | the keyword pattern matches exactly one of the nine words, separators, and all the key characters after them, twelve or more |
| LogRedactor.HiddenIff | src/server.rs:204-232 | a character is hidden exactly when it lies in a stretch of one of those three shapes |
| LogRedactor.SensitiveTextVanishes | src/server.rs:222-232 | a text that is sensitive from end to end leaves only the marker |
| LogRedactor.NothingSensitiveIsLeft | src/server.rs:87-233 | for every input, the output holds none of the three shapes, and a second pass changes nothing |
| LogRedactor.RedactForLog | src/server.rs:87-233 | the output is the input with each run of sensitive stretches replaced by one marker |
| RedactionTheory.NothingSurvives | src/server.rs:87-233 | for patterns that look only forward and never start in a marker, the output holds no match |
| Redactor.LooksShort | src/server.rs:97-202 | no pattern is completed by a marker: a match whose text is cut off by a marker was a match before |
| Redactor.NothingStartsInMarker | src/server.rs:226 | no pattern starts inside the marker, whatever follows it |
| Redactor.RedactionIsFinal | src/server.rs:87-233 | for every input, rescanning the output with all three patterns finds nothing and redacting again changes nothing |
| Json.TextForms | src/cache.rs:48-50 | what each kind of value looks like in compact JSON |
| Json.ListsGrow | src/cache.rs:48-50 | items and members are separated by single commas |
| Json.StringsReadBack | src/cache.rs:48-50 | a reader of RFC 8259, section 7 gets back every string that was escaped |
| Json.StringReadable | src/cache.rs:48-50 | an escaped string is determined by any text that starts with it and its closing quote |
| Json.ValueReadable | src/cache.rs:48-50 | a JSON value is determined by any text that starts with its compact form |
| Json.NeutralText | src/cache.rs:48-50 | compact JSON text balances quotes and brackets, and its colons are in strings or inside an object |
| Json.NoValueAfterColon | src/cache.rs:48-50 | no compact JSON text ends in a colon followed by a compact JSON text |
| CacheModel.KeyIdentifiesCall | src/cache.rs:48-50 | different pairs of tool name and arguments never share a key, even when names contain colons |
| CacheModel.SizesAre | src/cache.rs:52-66 | the estimated size of a value, kind by kind and part by part, in UTF-8 bytes |
| CacheModel.RemovedConsistent | src/cache.rs:105-108 | replacing an entry keeps the books and its subtraction does not saturate |
| CacheModel.DropConsistent | src/cache.rs:111-116 | an eviction round drops a live entry, keeps the books, and its subtraction does not saturate |
| CacheModel.RunConsistent | src/cache.rs:68-135 | on any clock every reachable cache counts its bytes exactly, stays within both limits, and every index slot names a live entry stamped with that time |
| CacheModel.HitIsLastWritten | src/cache.rs:68-99 | a hit returns the value of the last set of that key that was not refused as oversized, and only before its expiry |
| CacheModel.StampIsLastUse | src/cache.rs:74-80 | the stamp that orders eviction is the time of the last set or hit of the entry |
| CacheModel.StrictRunIndexed | src/cache.rs:68-135 | on a strictly increasing clock no entry ever loses its index slot |
| CacheModel.EvictsPrefix | src/cache.rs:110-120 | with all slots in place the victims are a least-recently-used prefix, and eviction removes nothing else |
| CacheModel.EvictsShortest | src/cache.rs:110-120 | every victim is in any least-recently-used prefix that makes room |
| CacheModel.SetIsFair | src/cache.rs:91-135 | with all slots in place, a set that fits is stored and evicts exactly the shortest least-recently-used prefix of the other entries that makes room |
| CacheModel.StrictSet | src/cache.rs:91-135 | the same for every run on a strictly increasing clock |
| CacheModel.HitUntilExpiry | src/cache.rs:68-135 | on a strictly increasing clock a set that fits is a hit exactly until it expires, whatever follows that neither evicts nor replaces it |
| CacheModel.StoredIffOrphansLeaveRoom | src/cache.rs:110-134 | on any clock a set that fits is stored exactly when the entries without a slot leave room |
| CacheModel.TiedRun | src/cache.rs:91-135 | two sets at one time leave the first entry without a slot |
| CacheModel.TiedRefuses | src/cache.rs:110-134 | in that state a set that fits the limits is refused |
| ToolCache.FirstSlot | src/cache.rs:111 | the first slot of the index is its smallest time |
| ToolCache.ToolCache.constructor | src/cache.rs:26-46 | a new cache is empty with the given limits |
| ToolCache.ToolCache.Get | src/cache.rs:68-89 | a live entry is returned and restamped, map and index together; otherwise nothing changes but the miss counter |
| ToolCache.ToolCache.RemoveExisting | src/cache.rs:105-108 | the replaced entry leaves the map, the index and the byte count |
| ToolCache.ToolCache.EvictOldest | src/cache.rs:110-120 | one eviction round drops the oldest slot and its entry |
| ToolCache.ToolCache.MakeRoom | src/cache.rs:110-120 | the eviction loop terminates with room made or the index empty |
| ToolCache.ToolCache.StoreIfRoom | src/cache.rs:122-134 | the entry is stored, with slot and bytes, exactly when there is room |
| ToolCache.ToolCache.Set | src/cache.rs:91-135 | the whole state after a set, refusals included; what is stored expires after the given time to live, or else the cache's own |
| ToolCache.Serve | src/cache.rs:68-135 | requests for other calls leave an entry as it was, or evict it |
| ToolCache.SetThenGet | src/cache.rs:68-135 | a call stored and asked for again is found exactly until its time to live is over, unless it was evicted |
| ToolCache.ToolCache.Stats | src/cache.rs:141-146 | hits, misses and number of entries |
| Breaker.UpstreamCircuit.constructor | src/hub.rs:72-80 | a new breaker is closed with no errors |
| Breaker.UpstreamCircuit.Gate | src/hub.rs:150-172 | who is let through, and the move from open to half-open |
| Breaker.UpstreamCircuit.RecordSuccess | src/hub.rs:213-218 | a success closes and clears the breaker from any state |
| Breaker.UpstreamCircuit.RecordError | src/hub.rs:220-248 | an error counts, trips, reopens or is ignored, by state and time |
| Breaker.OpenWaits | src/hub.rs:150-172 | after a trip and without a success nothing is admitted for 30 s, whatever stale outcomes arrive |
| Breaker.OpenAdmitsFirst | src/hub.rs:150-172 | the first request after those 30 s is admitted |
| Breaker.HalfOpenWaits | src/hub.rs:165-170 | with a probe out, the next admission comes 30 s after a later recorded error |
| Breaker.ProbeDecides | src/hub.rs:150-248 | after a failed probe the first request is admitted exactly from 30 s later on; after a success at once |
| Breaker.SuccessCloses | src/hub.rs:213-218 | after a success in any state every request is admitted until three more outcomes are recorded |
| Breaker.TrippedAdmissions | src/hub.rs:150-172 | admissions after a trip are at least 30 s apart with a recorded error between them |
| Breaker.CountMeansState | src/hub.rs:213-248 | in every reachable state the count is 3 exactly when the breaker is not closed, and the first error time is absent exactly when the count is 0 |
| Breaker.TripsOnBurst | src/hub.rs:229-245 | the breaker leaves closed only when the last three outcomes are errors, all within 30 s of the first of them |
| Breaker.ErrorsAreCounted | src/hub.rs:213-248 | after any run a closed breaker's count and first time are those that the recorded outcomes alone determine |
| Breaker.BurstStaysClosedIff | src/hub.rs:229-245 | after any run that leaves it closed, three errors in a row within 30 s, with anything sent or given up meanwhile, leave it closed exactly when one error was counted before and its window ends between the first and the second of them |
| Breaker.BurstNeedNotTrip | src/hub.rs:230-236 | runs from idle in which that happens, for every choice of such times |
| Breaker.LostProbeSticks | src/hub.rs:165-170 | half-open with nothing in flight refuses everything forever |
| Breaker.HalfOpenRecoversIff | src/hub.rs:150-211 | half-open can admit again exactly when some request is in flight |
| Breaker.ProbeCanBeLost | src/hub.rs:285-296 | a run that reaches half-open with nothing in flight |
| HubNames.JoinSplits | src/hub.rs:777-808 | a prefixed name splits at its first double underscore into the upstream and the tool it came from |
| HubNames.JoinInjective | src/hub.rs:777-808 | distinct pairs of upstream and tool never share a prefixed name |
| HubNames.AcceptedIff | src/hub.rs:777-808 | which names are accepted, as texts: no double underscore, none at the start, and for upstreams none at the end |
| HubNames.SplitFirstIff | src/hub.rs:808 | the split is at the first double underscore |
| HubNames.JoinSplitsIff | src/hub.rs:777-780 | an upstream name without a double underscore gets its tools back exactly when it does not end in an underscore, and otherwise shares the prefixed name with another pair |
| HubNames.AddTools | src/hub.rs:799-839 | adds exactly the accepted tools of one upstream, each once and in the order of the listing, when the firewall passes every new one, else reports the first new tool it stops |
| HubNames.RowWasPinned | src/hub.rs:814-828 | without drift every row goes back to a first listing that the firewall passed |
| HubNames.LoadHubTools | src/hub.rs:769-860 | succeeds exactly when every upstream name is accepted and the firewall passes the first listing of every accepted tool; the table then holds exactly the offered rows, each passed, with pairwise distinct names; otherwise the first offending upstream or tool is named |
| Receipts.VerifyFile | src/receipts.rs:306-379 | accepts exactly the files that hold a chain and sums them up, else names the first bad line and its fault |
| Receipts.SignedChainVerifies | src/receipts.rs:106-144 | a chain that starts from sixty-four zeros and is signed receipt by receipt verifies with its key and without one, and not with a key that signs differently |
| Receipts.KeyOnlyAdds | src/receipts.rs:125-144 | what verifies with a key verifies without one |
| Receipts.MeetsIff | src/receipts.rs:292-303 | a chain meets a checkpoint exactly when count and last hash are the same; it meets its own |
| Receipts.TipDeterminesChain | src/receipts.rs:306-379 | without collisions the last hash alone fixes every receipt of a verified chain |
| Receipts.CheckpointFixesChain | src/receipts.rs:292-303 | two verified chains that meet one checkpoint hold the same receipts at every position |
| Receipts.TruncationMissesCheckpoint | src/receipts.rs:292-303 | a proper prefix still verifies, but misses the checkpoint of the whole, by its last hash alone |
| Receipts.SameTipIff | src/receipts.rs:306-379 | for chains verified with one key, equal last hashes mean exactly that the records agree at every position up to the signer |
| Receipts.SignerIsNotProtected | src/receipts.rs:125-144 | renaming signers changes neither the verdict nor the summary |
| ReceiptBook.RunVerifies | src/receipts.rs:162-248 | over any run without failed syncs the file verifies and holds exactly the successful calls in order, and the memory is count plus one and the tip |
| ReceiptBook.VerifiesIff | src/receipts.rs:236-245 | with failed syncs the file verifies exactly when nothing was written through a stale book |
| ReceiptBook.FailedSyncThenAppendBreaks | src/receipts.rs:241-245 | one failed sync followed by one append breaks the file |
| ReceiptBook.ReopeningSuffices | src/receipts.rs:162-187 | reopening after every append that did not succeed keeps the file verifying |
| ReceiptBook.ReceiptBook.Open | src/receipts.rs:162-187 | opening refuses a file that does not verify and otherwise resumes its chain |
| ReceiptBook.ReceiptBook.RecordExecution | src/receipts.rs:189-248 | signs the next receipt, appends it, and advances the memory only after a successful sync |
| GuardrailLogs.HourlyBudget | src/guardrails.rs:46-73 | outputs accepted in any closed window of 3600 s total at most the budget |
| GuardrailLogs.MinuteRate | src/guardrails.rs:105-115 | passes of one tool in any half-open window of 60 s number at most the limit |
| GuardrailLogs.RunsBounded | src/guardrails.rs:117-132 | calls that pass the consecutive check never hold a longer run than the threshold |
| GuardrailLogs.RepeatsBounded | src/guardrails.rs:134-149 | any 64 consecutive signatures hold at most threshold accepted calls of one signature |
| GuardrailLogs.FitsIff | src/guardrails.rs:46-73 | an output is accepted exactly when it and those of the 3600 s before it fit the budget |
| GuardrailLogs.RateIff | src/guardrails.rs:105-115 | a call passes the rate check exactly when fewer than the limit of its tool passed in the last 60 s |
| GuardrailLogs.RunIff | src/guardrails.rs:117-132 | a call passes the consecutive check exactly when the last signatures, threshold many, are not all its own |
| GuardrailLogs.RepeatIff | src/guardrails.rs:134-149 | a call passes the repetition check exactly when its signature occurs fewer than threshold times among the 63 before it |
| Guardrails.DecisionIs | src/guardrails.rs:87-152 | what any call in clock order is told, in those numbers |
| GuardrailLogs.SignatureIdentifies | src/guardrails.rs:118 | a signature stands for one tool and one argument hash |
| Guardrails.ChecksBounded | src/guardrails.rs:87-152 | whatever calls arrive in clock order, the rate, run and repetition bounds hold of what was let through |
| Guardrails.PruneRemembers | src/guardrails.rs:98-103 | the global prune drops nothing a later decision looks at |
| Guardrails.GuardrailPolicy.constructor | src/guardrails.rs:19-30 | a new policy has seen nothing |
| Guardrails.GuardrailPolicy.PruneOutputs | src/guardrails.rs:51-58 | popping from the front keeps exactly the last hour |
| Guardrails.GuardrailPolicy.RecordOutput | src/guardrails.rs:46-73 | an output is accepted exactly when the full log of the last hour leaves room in the budget |
| Guardrails.GuardrailPolicy.EstimatedTokensUsed | src/guardrails.rs:75-85 | a quarter of the characters the full log holds for the last hour |
| Guardrails.GuardrailPolicy.CheckRate | src/guardrails.rs:92-115 | the rate decision is the one the unpruned log gives, global prune or not |
| Guardrails.GuardrailPolicy.PushRecent | src/guardrails.rs:137-142 | the window holds the newest 64 signatures |
| Guardrails.GuardrailPolicy.CheckSignature | src/guardrails.rs:117-151 | both loop decisions are the ones the full signature log gives |
| Guardrails.GuardrailPolicy.CheckCall | src/guardrails.rs:87-152 | every decision is the one the full logs give, and the logs grow accordingly |
| Guardrails.GuardrailPolicy.ResetSignature | src/guardrails.rs:154-157 | forgets signatures only |
| Guardrails.GuardrailPolicy.Reset | src/guardrails.rs:159-164 | forgets everything |
| Guardrails.PolicyBounds | src/guardrails.rs:46-152 | every valid policy keeps all four bounds since its last reset |
| VaultProtocol.StepSound | src/vault_lock.rs:87-216 | every step of waiter, supervisor, sweeper and timer keeps the protocol invariant |
| VaultProtocol.VaultSafety | src/vault_lock.rs:116-216 | in every interleaving a protected call is granted exactly when an approval found it waiting, each id is decided at most once, and a waiting call has exactly one of an entry, a decision or a dropped sender |
| VaultProtocol.AnswersExplained | src/vault_lock.rs:116-150 | in every run an unprotected call is granted from its start and never pending or decided; a call is saturated exactly when protected and begun with 256 entries or more pending; it fails exactly when its arguments could not be hashed |
| VaultProtocol.LateApprovalIsLost | src/vault_lock.rs:159-204 | a run in which approve returns true and the call is denied |
| VaultProtocol.PendingBounded | src/vault_lock.rs:125-150 | pending entries stay below the cap plus the number of racing calls |
| VaultProtocol.CapOvershoots | src/vault_lock.rs:125-150 | from the empty vault that bound is attained, for every number of racing calls |
| VaultProtocol.CapHoldsIff | src/vault_lock.rs:125-150 | the cap holds in all runs exactly when at most one call at a time is between check and insertion |
| TimeLockedVault.TimeLockedVault.constructor | src/vault_lock.rs:80-108 | a new vault holds nothing |
| TimeLockedVault.IgnoringCaseIff | src/vault_lock.rs:110-114 | names are the same exactly when they differ in nothing but the case of ASCII letters |
| TimeLockedVault.TimeLockedVault.IsProtected | src/vault_lock.rs:110-114 | some protected name equals the tool's, ignoring ASCII case |
| TimeLockedVault.TimeLockedVault.BeginCall | src/vault_lock.rs:121-130 | unprotected calls are granted at once, protected ones refused when the vault is full |
| TimeLockedVault.TimeLockedVault.InsertEntry | src/vault_lock.rs:134-150 | the entry is inserted, or hashing fails and the call with it |
| TimeLockedVault.TimeLockedVault.Approve | src/vault_lock.rs:194-204 | true exactly when the id is pending; the entry goes and a listening call is sent true |
| TimeLockedVault.TimeLockedVault.Reject | src/vault_lock.rs:206-216 | the same with false |
| TimeLockedVault.TimeLockedVault.SweepExpired | src/vault_lock.rs:93-94 | expired entries go and listening calls see a dropped sender |
| TimeLockedVault.TimeLockedVault.Poll | src/vault_lock.rs:159-177 | the channel is looked at before the timer |
| TimeLockedVault.TimeLockedVault.Expire | src/vault_lock.rs:159-181 | after a timeout the receiver goes before the entry |
| TimeLockedVault.TimeLockedVault.RemoveOwnEntry | src/vault_lock.rs:177-191 | the call removes its own entry and is denied |
| Sse.TwoPassesNormalize | src/http_server.rs:585 | the two replacements turn CRLF and CR into LF |
| Sse.NormalizedLine | src/http_server.rs:585 | each of CRLF, LF and CR ends a line and becomes LF; everything else stays |
| Sse.WriteDataLines | src/http_server.rs:586-591 | one data line per piece of the payload |
| Sse.SerializeMessage | src/http_server.rs:583-592 | the framed text of one payload |
| Sse.ServeSession | src/http_server.rs:567-609 | what the session loop has written after any turns |
| Sse.FramesAre | src/http_server.rs:567-604 | the bytes of the endpoint event, of a ping and of a payload of one line |
| Sse.EventRead | src/http_server.rs:583-592 | framed lines are read as one event with the payload's text |
| Sse.TurnsRead | src/http_server.rs:567-609 | from any reader between events, the lines of any turns are read as exactly one message event per payload |
| Sse.SessionRoundTrips | src/http_server.rs:567-607 | the standard parser reads the stream as the endpoint event and then one message event per payload, in order, with line ends normalised |
| Wasm.ReadLengthAt | src/wasm.rs:82-98 | the section length loop on any bytes |
| Wasm.ReadInsideAt | src/wasm.rs:111-125 | the bounded loops of the memory section on any bytes; the value stays below 2^35 |
| Wasm.InspectMemory | src/wasm.rs:107-150 | the pages a memory section declares |
| Wasm.ScanSections | src/wasm.rs:70-159 | the section loop terminates and never reads out of range |
| Wasm.InspectModule | src/wasm.rs:46-177 | header checks, section loop and limit on any bytes |
| Wasm.ModuleRoundTrips | src/wasm.rs:46-177 | every well-formed module is read as its sections: id-7 sections counted, last memory section reported, accepted exactly when within the limit |
| Wasm.TruncatedRefused | src/wasm.rs:100-104 | after any well-formed sections, a section shorter than its length says is refused |
| Wasm.EmptyMemoryIgnored | src/wasm.rs:107 | a memory section of length zero changes nothing about the reported memory |
| Wasm.LongLengthRefused | src/wasm.rs:88-92 | a length of more than five groups is refused |
| Wasm.ReachesTheLimitIff | src/wasm.rs:46-167 | on any bytes the page limit alone decides exactly when the header is the standard's and every section holds what it promises |
| Wasm.HeaderFaults | src/wasm.rs:50-68 | which fault any other header has |
| Wasm.ReportExactIff | src/wasm.rs:132-167 | of a module whose last memory section declares a minimum, the scanner sees max(1, minimum) pages exactly while the minimum is below 2^32, and enforces the limit exactly when the minimum is below 2^32 or what the cast leaves exceeds the limit |
| Wasm.OversizedModuleAccepted | src/wasm.rs:132-167 | a module of 17 bytes that declares 2^32 pages is accepted under a limit of zero pages |
| Shell.BareMeansClosed | src/tools/system.rs:101-118 | the quote automaton is outside quotes exactly after text in which every quote is closed |
| Shell.ContainsUnquotedShellMeta | src/tools/system.rs:101-118 | finds exactly the commands with one of nine characters after text in which every quote is closed |
| Shell.SplitChainedCommands | src/tools/system.rs:633-674 | returns the parts of the one split at the operators outside quotes, less a blank last part; no part holds such an operator |
| Shell.CutIsSplit | src/tools/system.rs:633-674 | the quote automaton cuts at every operator outside quotes and nowhere else, two equal signs being one operator |
| ShellText.SplitIsUnique | src/tools/system.rs:633-674 | a command can be cut so in one way only |
| Shell.PartsRebuild | src/tools/system.rs:633-674 | parts and dropped operators interleaved rebuild the command up to a blank trailing part |
| Shell.PartsResplit | src/tools/system.rs:633-674 | every part splits again to itself, or to nothing when blank |
| Shell.SplitsToItselfIff | src/tools/system.rs:633-674 | a command splits to exactly itself exactly when it is not blank and has no unquoted operator |
| Shell.WholeCommandIff | src/tools/system.rs:143-150 | the same with the characters as literals, for the splitter and for the gate |
| Shell.GateMeansOnePart | src/tools/system.rs:143-150 | a command the gate lets through is one part, itself |
| Shell.AsksIff | src/server.rs:638-644 | the policy is asked about a part without the blanks around it, and its longest beginning without a blank |
| Shell.EveryPartIsAsked | src/server.rs:638-644 | every part that holds more than listed blanks is asked about, in one way |
| Shell.CheckCommand | src/server.rs:631-661 | allows exactly when the policy allows every part so asked about, else returns the verdict on the first that it does not |
| Shell.RunMeansJudgedWhole | src/server.rs:631-661 | a command that passes gate and policy loop was judged whole |

## Left out

- Async runtime, sockets, TLS, HTTP parsing, process spawning and the supervisor loop: I/O; what they deliver is a parameter or an event here.
- `src/policy.rs`: the policy engine is a parameter of `Shell.CheckCommand`.
- SHA-256, HMAC, RFC 8785 canonical JSON and their failures: abstract functions; a failure before the append is an append that wrote nothing.
- `normalize_value_for_loop_detection`: the argument hash is a parameter of `CheckCall`, since Unicode case mapping is not modelled.
- `mask_secrets`, `validate_shell_command`, `SandboxPolicy`, taint tracking, discovery, auto-configuration, manifests, replay, `src/smac.rs`: not modelled; the last repeats the receipt chain with weaker checks.
- `SupplyChainFirewall`: its verdict on each tool is part of the listing that `HubNames.LoadHubTools` reads.
- `list_pending` and `safe_display_arguments`: they only show what is pending.
- JSON numbers are identified with their printed text, and objects with their members in printing order.
- Byte positions of the redactor are character positions here; all pattern characters are ASCII, so the two correspond.
- Or-ing seven-bit groups into disjoint positions is modelled as addition.
- Machine-word overflow beyond 64 bits and `Instant` underflow near the start of the clock are not modelled.
- Receipt lines that reach the disk only in part, two books on one file, and a last line without a line end are not modelled.
- Vault ids are distinct by assumption; the timer may fire at any time, which only adds runs.
- GuardrailPolicy.CheckCall: calls and outputs are taken in the order of their clock readings, although a reading is taken before the lock.

# Verification attempt tracking and IP blocking — a Dafny model

This project models the part of the NoCAPTCHA API and admin web app that decides
whether a client may try a human-verification challenge:

- **The verification cache service** (`VerificationCacheService`): an in-memory
  map from IP address to a record of recent verification attempts.
  - Every recorded attempt re-evaluates the record.
  - When an attempt is recorded for a record not flagged as blocked whose
    recent failures are at or above `maxFailedAttempts`, the record is
    blocked for `blockDurationMinutes`. An existing block is never extended,
    and a block that has run out is only lifted by that attempt; the address
    is re-blocked at its next attempt if the failures are still recent.
  - A block whose time has run out is lifted lazily: on the next `isBlocked`,
    the next recorded attempt or the periodic sweep.
  - Attempts older than twice the decision window are dropped.
  - The periodic sweep deletes a record that has no attempts left and no
    block flag when the sweep reaches it; one whose block has just run out is
    only unblocked by that sweep and deleted by the next
    (`CacheRecords.ExpiredEmptyRecordKeptOnce`). A record emptied by `unblockIp`, or by
    the lazy expiry in `isBlocked` of a manual block, stays in the map until
    the next sweep or a `clearRecord`, and `getCacheStats` counts it. An
    attempt recorded for it meanwhile makes it non-empty again.
  - Administrators can block, unblock and clear addresses and read statistics.
- **The verification middleware**:
  - `verificationBlocker` works out the client address and rejects blocked or
    rate-limited clients with HTTP 429.
  - `recordVerificationAttempt` wraps `res.json` and records one attempt for
    each JSON response whose body is an object, when the gate has attached
    the cache and a non-empty client address (so a 429 rejection records
    nothing). The attempt is successful exactly when the body's `success` is
    the boolean `true`.
- **The verification controller's request helpers**: `getClientIp` (first hop
  of `x-forwarded-for`, else `req.ip`, else the socket's address) and
  `detectDevice` (user-agent keyword classification).
- **The admin IP search form**: the `isValidIp` check (IPv4 with per-part
  range check, full-form IPv6, `::1`, `::`) and the guard sequence of its
  submit handler.

Time is an integer number of milliseconds. Every operation that reads the
clock takes it as a parameter `now`.

Files:
- `wrappers.dfy`: `Option`.
- `js_strings.dfy`: the JavaScript string operations the code relies on
  (`trim`, `split`, `toLowerCase` on ASCII, `includes`).
- `attempt_window.dfy`: the attempt list and its time filters.
- `cache_records.dfy`: the records and every cache transition as pure
  functions, with the lemmas that state what the transitions mean.
- `cache_service.dfy`: the service as a class whose `cache` field is a map the
  methods update in place. Each method is proved to produce exactly the state
  the matching function of `cache_records.dfy` describes. The loops of
  `getBlockedIps`, `getCacheStats` and `performCleanup` carry the invariants
  that prove this.
- `client_request.dfy`: the forwarded header and the request fields read from
  it.
- `verification_controller.dfy`: `getClientIp` and `detectDevice`.
- `verification_blocker.dfy`: the admission gate and the recording rule.
- `ip_search_form.dfy`: `isValidIp` and `handleSubmit`.

**Auto-blocking also follows a success.** `updateBlockStatus` blocks any
unblocked record whose recent failures are at or above `maxFailedAttempts`,
whatever the new attempt was. So after a manual `unblockIp`, the next attempt
re-blocks the address, even a successful one, while those failures are still
in the window. `CacheRecords.SuccessBlocksOnlyAtThreshold` states this.

## Model

| member | source | states |
|---|---|---|
| AttemptWindow.KeepSince | apps/api/src/services/verification_cache_service.ts:258-265 | the filtered attempts are exactly the attempts stamped at or after the cutoff, and never more than before |
| AttemptWindow.FailedCount | apps/api/src/services/verification_cache_service.ts:129-137 | the number of failed attempts never exceeds the number of attempts |
| AttemptWindow.SucceededCount | apps/api/src/services/verification_cache_service.ts:164-170 | the number of successful attempts never exceeds the number of attempts; with `FailedCount` it partitions them (`CountsPartition`) |
| AttemptWindow.CountsPartition | apps/api/src/services/verification_cache_service.ts:162-170 | failed plus successful attempts is exactly the number of attempts |
| AttemptWindow.KeepSinceAppend | apps/api/src/services/verification_cache_service.ts:73-79 | filtering a list with one attempt appended is filtering the list, then keeping the new attempt if it is inside the cutoff |
| AttemptWindow.KeepSinceConcat | apps/api/src/services/verification_cache_service.ts:258-265 | filtering distributes over concatenation |
| AttemptWindow.KeepSinceAllKept | apps/api/src/services/verification_cache_service.ts:288-294 | filtering keeps a list whose attempts are all inside the cutoff unchanged |
| AttemptWindow.KeepSinceNarrow | apps/api/src/services/verification_cache_service.ts:288-294 | filtering at an earlier cutoff, then at a later one, is filtering at the later one alone |
| AttemptWindow.FailedCountConcat | apps/api/src/services/verification_cache_service.ts:267-270 | the failure count of a concatenation is the sum of the failure counts |
| CacheRecords.AllWellFormedStore | apps/api/src/services/verification_cache_service.ts:267-286 | storing a record that sets or clears `blocked` and `blockUntil` together keeps the whole cache that way |
| CacheRecords.AllWellFormedDelete | apps/api/src/services/verification_cache_service.ts:202-204 | deleting a record keeps every record well-formed |
| CacheRecords.StoreTrimmedOverwrite | apps/api/src/services/verification_cache_service.ts:288-300 | `cleanOldAttempts` on a record just stored ignores what the address held before |
| CacheRecords.SumAttemptsRemove | apps/api/src/services/verification_cache_service.ts:230-235 | the attempt total over a set of addresses may be taken starting from any of them |
| CacheRecords.SumAttemptsScanStep | apps/api/src/services/verification_cache_service.ts:230-231 | visiting one more record in the stats scan adds exactly its attempt count to the running total |
| CacheRecords.ExpireOutsideEnds | apps/api/src/services/verification_cache_service.ts:209-217 | a scan asking `isBlocked` of every key changes nothing before it starts and has expired every key when it ends |
| CacheRecords.ExpireOutsideStep | apps/api/src/services/verification_cache_service.ts:211-213 | each `isBlocked` call of a scan applies lazy expiry to one more key |
| CacheRecords.SweptOutsideEnds | apps/api/src/services/verification_cache_service.ts:308-334 | the sweep changes nothing before it starts and leaves the swept cache when it ends |
| CacheRecords.SweptOutsideStep | apps/api/src/services/verification_cache_service.ts:313-333 | each sweep step either deletes the visited record or stores it trimmed and expired, and touches no other key |
| CacheRecords.SweptOutsideWellFormed | apps/api/src/services/verification_cache_service.ts:328-333 | the sweep, finished or not, keeps every record well-formed |
| CacheRecords.BlockedKeysScanStep | apps/api/src/services/verification_cache_service.ts:232-234 | visiting one more record in the stats scan adds one to the blocked count exactly when that record is blocked |
| CacheRecords.ScanFinished | apps/api/src/services/verification_cache_service.ts:237-241 | a scan with nothing left to visit has summed and counted over every record |
| CacheRecords.ExpireOutsideWellFormed | apps/api/src/services/verification_cache_service.ts:99-106 | lazy expiry of any set of keys keeps every record well-formed |
| CacheRecords.RetentionKeepsWindow | apps/api/src/services/verification_cache_service.ts:288-294 | trimming to twice the window never changes which attempts are recent |
| CacheRecords.ExpiryKeepsAnswer | apps/api/src/services/verification_cache_service.ts:99-110 | lazy expiry never changes the answer `isBlocked` gives at the same time, leaves no expired block, and keeps attempts and `lastAttempt` |
| CacheRecords.BlockedUntilInclusive | apps/api/src/services/verification_cache_service.ts:99-110 | a well-formed record is reported blocked exactly while `now <= blockUntil`; the boundary instant is still blocked |
| CacheRecords.AutoBlockRule | apps/api/src/services/verification_cache_service.ts:267-286 | `updateBlockStatus` blocks an unblocked record at the failure threshold for `blockDurationMinutes`, leaves others alone, never extends a block, lifts an expired one, and keeps attempts and `lastAttempt` |
| CacheRecords.RecordAttemptEffect | apps/api/src/services/verification_cache_service.ts:63-88 | after `recordAttempt` the record exists and holds the old attempts inside the retention horizon followed by the new attempt; `lastAttempt` is `now`; no other key changes |
| CacheRecords.RecordedRecord | apps/api/src/services/verification_cache_service.ts:84-87 | the record stored is the appended, re-evaluated record, trimmed; it is never deleted |
| CacheRecords.AppendedRecent | apps/api/src/services/verification_cache_service.ts:73-79 | appending an attempt stamped `now` adds it to the recent attempts, and adds one to the recent failures exactly when it failed |
| CacheRecords.FailureReachingThresholdBlocks | apps/api/src/services/verification_cache_service.ts:267-278 | a failure that brings an unblocked address's recent failures to the threshold blocks it at once until `now + blockDurationMinutes` |
| CacheRecords.SuccessBlocksOnlyAtThreshold | apps/api/src/services/verification_cache_service.ts:267-278 | after a success on an unblocked address, it is blocked exactly when its recent failures had already reached the threshold |
| CacheRecords.RemainingAttemptsBounds | apps/api/src/services/verification_cache_service.ts:116-124 | remaining attempts lie in `[0, maxAttemptsPerWindow]`, are the full quota for an unknown address, are 0 exactly when the window is full, and otherwise add up with the recent attempts to the quota |
| CacheRecords.FailedAttemptsBounded | apps/api/src/services/verification_cache_service.ts:129-137 | the failure count is 0 for an unknown address and never more than the recent attempts |
| CacheRecords.RecordStatsShape | apps/api/src/services/verification_cache_service.ts:142-175 | an unknown address gets the all-zero report; otherwise failed + successful = recent <= total, an expired block is reported as not blocked with no `blockUntil`, and a reported block has not ended |
| CacheRecords.BlockIpEffect | apps/api/src/services/verification_cache_service.ts:180-186 | an omitted or zero duration means the configured one; the address is blocked at any time up to the end of the duration and not after; history and every other key are kept |
| CacheRecords.BlockIpResets | apps/api/src/services/verification_cache_service.ts:180-186 | blocking twice is blocking once, with the second call's time and duration |
| CacheRecords.UnblockIpEffect | apps/api/src/services/verification_cache_service.ts:191-197 | unblocking an unknown address changes nothing; otherwise the address is not blocked at any time afterwards, its history is kept, and no other key changes |
| CacheRecords.ClearRecordForgets | apps/api/src/services/verification_cache_service.ts:202-204 | after clearing, the address reports as never seen and has its full quota |
| CacheRecords.BlockedCountBounded | apps/api/src/services/verification_cache_service.ts:222-242 | the blocked addresses are stored keys, so their number never exceeds the number of records |
| CacheRecords.ExpireAllKeepsAnswers | apps/api/src/services/verification_cache_service.ts:209-217 | asking `isBlocked` of every key keeps the keys, the attempts and the set of blocked addresses |
| CacheRecords.SweptShape | apps/api/src/services/verification_cache_service.ts:308-334 | the sweep deletes exactly the records left empty and unblocked by trimming, keeps only attempts inside the retention horizon in their order, and leaves no expired block |
| CacheRecords.SweepKeepsAnswers | apps/api/src/services/verification_cache_service.ts:308-334 | the sweep changes no recent count, no failure count, no `isBlocked` answer and no remaining quota at the time it runs |
| CacheRecords.ExpiredEmptyRecordKeptOnce | apps/api/src/services/verification_cache_service.ts:320-333 | a record left empty whose block has just run out survives one sweep unblocked and is deleted by the next |
| CacheRecords.SecondSweepLeavesNothingReclaimable | apps/api/src/services/verification_cache_service.ts:308-334 | after two sweeps at the same time every record still has attempts or an active block |
| CacheService.VerificationCacheService.constructor | apps/api/src/services/verification_cache_service.ts:36-48 | a new service has the given configuration and an empty cache |
| CacheService.VerificationCacheService.GetOrCreateRecord | apps/api/src/services/verification_cache_service.ts:247-256 | the record of the address is returned, a fresh one inserted when absent, and nothing else changes |
| CacheService.VerificationCacheService.CleanOldAttempts | apps/api/src/services/verification_cache_service.ts:288-300 | the record is stored trimmed, or deleted when it is left empty and unblocked |
| CacheService.VerificationCacheService.RecordAttempt | apps/api/src/services/verification_cache_service.ts:63-88 | the cache afterwards is `AfterRecordAttempt` of the cache before, and stays well-formed |
| CacheService.VerificationCacheService.IsBlocked | apps/api/src/services/verification_cache_service.ts:93-111 | the answer is false for an unknown address and otherwise whether the block is active; an expired block is cleared |
| CacheService.VerificationCacheService.GetRemainingAttempts | apps/api/src/services/verification_cache_service.ts:116-124 | the answer is the quota left in the window, between 0 and `maxAttemptsPerWindow` |
| CacheService.VerificationCacheService.GetFailedAttemptsCount | apps/api/src/services/verification_cache_service.ts:129-137 | the answer is the recent failure count, 0 for an unknown address |
| CacheService.VerificationCacheService.GetRecordStats | apps/api/src/services/verification_cache_service.ts:142-175 | the report is `StatsOf` the cache before, with failed + successful = recent <= total, and the address's block is lazily expired |
| CacheService.VerificationCacheService.BlockIp | apps/api/src/services/verification_cache_service.ts:180-186 | the cache afterwards is `AfterBlockIp` of the cache before |
| CacheService.VerificationCacheService.UnblockIp | apps/api/src/services/verification_cache_service.ts:191-197 | the cache afterwards is `AfterUnblockIp` of the cache before |
| CacheService.VerificationCacheService.ClearRecord | apps/api/src/services/verification_cache_service.ts:202-204 | the address is removed and nothing else changes |
| CacheService.VerificationCacheService.GetBlockedIps | apps/api/src/services/verification_cache_service.ts:209-217 | the list holds exactly the addresses that were blocked, each once, and every key is lazily expired |
| CacheService.VerificationCacheService.GetCacheStats | apps/api/src/services/verification_cache_service.ts:222-242 | the report gives the record count, the total of all attempt lists, and the blocked count, which is at most the record count; every key is lazily expired |
| CacheService.VerificationCacheService.PerformCleanup | apps/api/src/services/verification_cache_service.ts:308-334 | the cache afterwards is `Swept` of the cache before, and stays well-formed |
| CacheService.VerificationCacheService.Shutdown | apps/api/src/services/verification_cache_service.ts:344-349 | the cache is empty afterwards |
| ClientRequest.ForwardedAddress | apps/api/src/middleware/verification_blocker.ts:25-27 | there is no forwarded address exactly when the header is falsy; reading one throws exactly when the header is an empty array |
| ClientRequest.ForwardedStringFirstHop | apps/api/src/controllers/verification_controller.ts:21-25 | a string header yields the text before its first comma, trimmed |
| ClientRequest.ForwardedListNotSplit | apps/api/src/controllers/verification_controller.ts:23 | an array header whose first element neither starts nor ends with whitespace yields that element whole, without splitting on commas |
| ClientRequest.ForwardedAddressTrimmed | apps/api/src/controllers/verification_controller.ts:24 | a forwarded address never starts or ends with whitespace |
| VerificationController.GetClientIp | apps/api/src/controllers/verification_controller.ts:20-27 | the address is missing exactly when the header, `req.ip` and the socket's address all give nothing; it throws exactly for an empty array header |
| VerificationController.ClientIpFallback | apps/api/src/controllers/verification_controller.ts:26 | without a forwarded header a truthy `req.ip` wins, else the socket's address is used |
| VerificationController.ClientIpFromForwardedString | apps/api/src/controllers/verification_controller.ts:21-25 | a string header decides the address whatever `req.ip` says |
| VerificationController.DetectDevice | apps/api/src/controllers/verification_controller.ts:39-50 | there is no device class exactly when the user agent is absent or empty |
| VerificationController.DetectDeviceClassifies | apps/api/src/controllers/verification_controller.ts:42-49 | mobile exactly when a mobile keyword occurs in the lower-cased agent; tablet exactly when no mobile keyword but a tablet keyword occurs; desktop otherwise |
| VerificationController.DetectDeviceCaseInsensitive | apps/api/src/controllers/verification_controller.ts:42 | an agent and its lower-cased form are classified alike |
| VerificationController.MobileSurvivesExtension | apps/api/src/controllers/verification_controller.ts:43-45 | a mobile agent stays mobile whatever text surrounds it |
| VerificationController.AndroidTabletIsMobile | apps/api/src/controllers/verification_controller.ts:43-48 | mobile keywords are checked first: "Android Tablet" is a mobile |
| VerificationBlocker.ClientKey | apps/api/src/middleware/verification_blocker.ts:25-28 | the gate always has a key or a TypeError, never nothing |
| VerificationBlocker.ClientKeyAgreesWithController | apps/api/src/middleware/verification_blocker.ts:25-28 | the gate reads the same address as `getClientIp`, except that it uses `'unknown'` where the controller has nothing or an empty fallback address |
| VerificationBlocker.DecisionCases | apps/api/src/middleware/verification_blocker.ts:31-65 | rejected as blocked exactly when `isBlocked` holds; rate-limited exactly when not blocked and the window is full; admitted otherwise; a blocked rejection reports the recent failures and a block end not yet passed |
| VerificationBlocker.SweepInvisibleToGate | apps/api/src/middleware/verification_blocker.ts:31-59 | the periodic sweep never changes a decision of the gate made at the time it runs |
| VerificationBlocker.ThresholdFailureClosesGate | apps/api/src/middleware/verification_blocker.ts:31-45 | a failure that brings an unblocked address's recent failures to the threshold closes the gate until `now + blockDurationMinutes` |
| VerificationBlocker.ExpireKeyKeepsReaders | apps/api/src/middleware/verification_blocker.ts:31-48 | the lazy expiry done by `isBlocked` changes neither the stats of a blocked key nor the remaining attempts |
| VerificationBlocker.Gate | apps/api/src/middleware/verification_blocker.ts:17-66 | the decision is `DecideRequest` of the cache before, and the cache afterwards differs only by lazy expiry of the key |
| VerificationBlocker.RecorderRecordsOne | apps/api/src/middleware/verification_blocker.ts:81-95 | with a cache, a truthy address and an object body exactly one attempt is recorded, successful exactly when `success` is `true`, and no other address changes; otherwise the cache is untouched |
| VerificationBlocker.NonTrueSuccessIsFailure | apps/api/src/middleware/verification_blocker.ts:90 | an object body whose `success` is anything but the boolean `true`, truthy or not, or absent, is recorded as a failure |
| VerificationBlocker.RecordVerificationAttempt | apps/api/src/middleware/verification_blocker.ts:81-99 | the same body is passed on, and the cache afterwards is the cache with the recording rule applied |
| JsStrings.LeadingCount | apps/web/src/components/admin/IpSearchForm.tsx:34 | the number of leading characters `trim` drops: all of them satisfy the predicate and the next one does not |
| JsStrings.TrailingCount | apps/web/src/components/admin/IpSearchForm.tsx:34 | the number of trailing characters `trim` drops: all of them satisfy the predicate and the one before does not |
| JsStrings.StripSlice | apps/web/src/components/admin/IpSearchForm.tsx:34 | the trimmed string is a contiguous slice of the input, and only whitespace is dropped around it |
| JsStrings.StripHasNoEdge | apps/web/src/components/admin/IpSearchForm.tsx:34 | the trimmed string neither starts nor ends with whitespace |
| JsStrings.StripEmptyIff | apps/web/src/components/admin/IpSearchForm.tsx:34 | a string trims to nothing exactly when it is all whitespace |
| JsStrings.StripNoEdge | apps/web/src/components/admin/IpSearchForm.tsx:34 | a string that neither starts nor ends with whitespace is left unchanged by trimming |
| JsStrings.StripIdempotent | apps/web/src/components/admin/IpSearchForm.tsx:40-46 | trimming twice is trimming once |
| JsStrings.LowerChar | apps/api/src/controllers/verification_controller.ts:42 | an ASCII capital becomes the small letter 32 code points above it; every other character is kept |
| JsStrings.ToLowerAscii | apps/api/src/controllers/verification_controller.ts:42 | the lower-cased string has the same length and lower-cases each character in place |
| JsStrings.ToLowerAsciiIdempotent | apps/api/src/controllers/verification_controller.ts:42 | lower-casing an already lower-cased string changes nothing |
| JsStrings.ContainsIff | apps/api/src/controllers/verification_controller.ts:43-46 | `includes` holds exactly when the word occurs at some position |
| JsStrings.Split | apps/web/src/components/admin/IpSearchForm.tsx:17 | `split` with a one-character separator (also used at apps/api/src/controllers/verification_controller.ts:23) gives at least one piece and no piece holds the separator; `JoinSplit` and `SplitJoin` make it the inverse of `join` |
| JsStrings.JoinSplit | apps/web/src/components/admin/IpSearchForm.tsx:17 | joining the pieces of a split with the separator gives back the string |
| JsStrings.SplitJoin | apps/web/src/components/admin/IpSearchForm.tsx:17 | splitting a join of separator-free pieces gives back the pieces |
| JsStrings.AdjacentSeparatorsEmptyPiece | apps/web/src/components/admin/IpSearchForm.tsx:14 | two adjacent separators yield an empty piece after the first |
| IpSearchForm.DecimalValue | apps/web/src/components/admin/IpSearchForm.tsx:19 | the value of one, two or three digits is at most 9, 99 or 999 |
| IpSearchForm.Ipv4Accepted | apps/web/src/components/admin/IpSearchForm.tsx:12-21 | four digit groups of value at most 255, joined with dots, are accepted |
| IpSearchForm.Ipv4OutOfRangeRejected | apps/web/src/components/admin/IpSearchForm.tsx:16-22 | four digit groups with one above 255 are rejected and not retried as IPv6 |
| IpSearchForm.ColonIsNotIpv4 | apps/web/src/components/admin/IpSearchForm.tsx:12 | a string with a colon never has the IPv4 shape |
| IpSearchForm.Ipv6Accepted | apps/web/src/components/admin/IpSearchForm.tsx:14 | eight hex groups of one to four digits, joined with colons, are accepted |
| IpSearchForm.ValidIpForms | apps/web/src/components/admin/IpSearchForm.tsx:10-25 | every accepted string is one of the four accepted forms: four dotted decimal groups of value at most 255, eight colon-separated hex groups, `::1` or `::` |
| IpSearchForm.LiteralsAccepted | apps/web/src/components/admin/IpSearchForm.tsx:14 | `::1` and `::` are accepted; with `Ipv4Accepted`, `Ipv6Accepted` and `ValidIpForms` this characterises the check |
| IpSearchForm.CompressedIpv6Rejected | apps/web/src/components/admin/IpSearchForm.tsx:14 | any string holding `::` other than `::1` and `::` is rejected |
| IpSearchForm.PlaceholderExampleRejected | apps/web/src/components/admin/IpSearchForm.tsx:67 | the input's placeholder example `2001:0db8::1` is rejected |
| IpSearchForm.ValidIpAlphabet | apps/web/src/components/admin/IpSearchForm.tsx:10-25 | an accepted string holds only hex digits, dots and colons |
| IpSearchForm.ValidIpLength | apps/web/src/components/admin/IpSearchForm.tsx:10-25 | an accepted string is 2 to 39 characters long |
| IpSearchForm.ValidIpTrimmed | apps/web/src/components/admin/IpSearchForm.tsx:10-25 | an accepted string has no whitespace, so trimming leaves it unchanged |
| IpSearchForm.GuardCases | apps/web/src/components/admin/IpSearchForm.tsx:34-46 | blank input is refused before validation; validation runs on the trimmed input; a search starts only for a valid trimmed input, and with that input |
| IpSearchForm.ValidAddressSearchedAsTyped | apps/web/src/components/admin/IpSearchForm.tsx:40-46 | a valid address typed without surrounding whitespace is searched for as typed |
| IpSearchForm.GuardIgnoresSurroundingWhitespace | apps/web/src/components/admin/IpSearchForm.tsx:34-46 | submitting the trimmed text gives the same outcome as submitting the text |
| IpSearchForm.SearchForm.constructor | apps/web/src/components/admin/IpSearchForm.tsx:28-29 | the form starts with empty input and no error |
| IpSearchForm.SearchForm.SetInput | apps/web/src/components/admin/IpSearchForm.tsx:63-66 | typing replaces the input and clears the error |
| IpSearchForm.SearchForm.HandleSubmit | apps/web/src/components/admin/IpSearchForm.tsx:31-50 | the input is kept, the error shown is the one the guard sequence selects, and a search starts for the trimmed address exactly when the guard lets it through |

## Left out

- The singleton `getInstance` and the cleanup timer (`startCleanup`, `setInterval`, `clearInterval` in `shutdown`) are not modelled. `PerformCleanup` is the body the timer runs, taking the time as a parameter.
- Configuration parsing from environment variables is not modelled. The service is built from a `CacheConfig` whose values are positive; the source falls back to 10, 5, 5, 15 and 30 when a variable is unset. The `parseInt` results are used unchecked, so `NaN`, 0 or a negative value can reach the configuration; the model does not cover those configurations.
- Console logging in `updateBlockStatus` and `performCleanup` is not modelled. Neither is the sweep's `cleaned` counter, which only feeds that log line.
- The `ipAddress` field of a record and of an attempt is not modelled. It is always the key the record is stored under: it is set at creation and never reassigned. `getCacheStats` asks `isBlocked` by that field, which the model does by the key.
- Records are values in the map. Aliasing of a record object is not modelled: in the source, `getOrCreateRecord` hands out the stored object and callers mutate it in place. No reference escapes the class, so the observable cache is the same.
- CacheService.VerificationCacheService.GetBlockedIps: the order of the returned list is not modelled. The source returns the blocked keys in the map's insertion order; the model proves the list holds each blocked key exactly once.
- JavaScript numbers are modelled as unbounded integers. Dates are integer milliseconds, and one `now` stands for every clock read within a call.
- Express response mechanics are not modelled: `res.status(429).json(...)` bodies, messages, `next()`, and the rebinding of `res.json`. The gate's outcome is the `Decision` datatype; the recorder is the method that receives the body.
- `toLowerCase` is modelled for ASCII letters only. JavaScript also lower-cases two non-ASCII characters into ASCII letters: the Kelvin sign U+212A becomes `k`, and U+0130 `İ` becomes `i` followed by the combining dot U+0307. The device classification is still unaffected. No keyword (`mobile`, `android`, `iphone`, `tablet`, `ipad`) contains `k`. The `i` from `İ` is always followed by the combining dot, while every `i` in a keyword is followed by an ASCII letter.
- VerificationBlocker.JsValue: numbers inside response bodies are integers, because only their kind matters to the recording rule.
- The form's `onSearch` call, the error message it may set when the search fails, and the `loading`/disabled rendering state are not modelled. The model returns the address the handler would search for.
- IpSearchForm.DecimalValue is defined only on digit strings, which is the only way `isValidIp` uses `parseInt`.
- The controller's `verify` and metrics handlers, the DAO and the rest of the application are not part of this model.

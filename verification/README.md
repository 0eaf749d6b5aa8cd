# Viscos: verified models of its core logic

A Dafny model of the parts of Viscos that carry real logic, with proofs about
every input, every run or every interleaving. `dafny verify dfyconfig.toml`
checks the whole project.

| file | models |
|---|---|
| `Common.dfy`, `Text.dfy` | option/result types; `str::split`, integer parsing and printing, ASCII case |
| `Refresh.dfy`, `RefreshBatch.dfy` | CDN refresh: eligibility, retries with backoff, and the semaphore-bounded batch as a step relation |
| `Digest.dfy`, `Updater.dfy`, `Version.dfy`, `Background.dfy` | self-update: digest printer and scanner, download / verify / swap over a file system with crash points, release acceptance, and the background loop over all of it |
| `Calendar.dfy`, `Timestamp.dfy` | `days_from_civil` against day-by-day counting; the ISO-8601 parser on top of it |
| `Gateway.dfy` | gateway events fanned out to RAM cache, database and IPC channel, with evictions and failing statements |
| `JsBridge.dfy` | the `window.viscos` request/response protocol and its event subscribers |
| `Watchdog.dfy`, `Telemetry.dfy`, `Backend.dfy` | leak watchdog, its log over any number of sessions, and the backend chosen from that log |
| `Tier.dfy`, `DeepLink.dfy`, `FrameTimer.dfy` | adaptive cache sizes, `viscos://` links, frame budgets |

## How the outside world appears

- The fetcher is a function of URL index and attempt; the scheduler may take any
  enabled step (`RefreshBatch.Follows`).
- The file system is a map from paths to bytes. `Updater.Disk.history` records it
  after every operation, so each entry is a state a crash can leave. SHA-256 is an
  arbitrary function from byte strings to 32 bytes. `Updater.World` says which
  operations fail and where the download stops.
- Database tables are maps from keys to rows. A handler stops at its first failing
  operation, so the number of that operation describes every failure.
- Clocks, GDI counts, insert failures and IPC delivery are parameters of each step.
- Integers are unbounded except where a width matters: it is written out in
  `days_from_civil`, in integer parsing, in the saturating tier sizes and in the
  counter sums of `auto_tune`.

## Where the code and its documentation disagree

The model follows the code; each point is a theorem.

- Timestamps: the parser drops the UTC offset, so it is right exactly for offset
  zero (`Timestamp.ParseIsExactIffOffsetIsZero`). No field is checked for its range:
  the answer denotes what was printed exactly when that exists
  (`Timestamp.DenotesPrintedIffValid`), and instead of `None` an extreme month or day
  overflows, by an exact condition (`Timestamp.ParseValue`, `Calendar.OverflowIff`).
- `atomic_replace` is two renames with a state without executable in between, and on
  Unix the backup announced "for rollback" is removed at once (`Updater.AtomicReplace`,
  `Updater.Apply`).
- The loop logs that a failed update "will retry next interval". After a swap that
  failed between its renames no retry at the same path succeeds, and the first that is
  verified and can drop the backup loses the last copy of the program; over rounds at one
  path there is no other way to lose it (`Background.Setup.ProgramLostIff`,
  `Background.Setup.UpdatedIff`; two rounds of it in `Updater.RetryAfterFailedSwap`).
- `apply` reports success even if the new executable could not be given its mode, and
  the backup is removed all the same (`Updater.Apply`, `Updater.PostReplaceCleanup`).
- The loop keeps comparing with the version it started with. Versions go up exactly
  when remembering the installs would have made no difference
  (`Background.IncreasingIffTracked`, `Background.StepsBackIff`), and a release that is
  still the latest is applied again in every round
  (`Background.ConstantSourceReinstalls`).
- Version comparison, called semver-ish, ranks a pre-release above its release exactly
  when its tag has a number (`Version.PreReleaseNewerIffNumbered`).
- A closed IPC channel does not swallow events silently: the handler answers with an
  error, although everything is stored (`Gateway.ReplyTellsChannel`).
- The `viscos://user/...` links of the module documentation are not recognised
  (`DeepLink.UserLinksAreUnknown`).
- The comment on `is_rdp_session` says remote sessions force CEF; the choice is
  WebView2 (`Backend.WebView2Iff`).

## What the code does that a caller may not expect

- The default retry policy never reaches its 2 s backoff, which the source reserves for
  a longer policy (`Refresh.DefaultPolicySleeps`).
- READY writes its placeholder over a guild row that a GUILD_CREATE had filled
  (`Gateway.ReadyErasesGuild`); editing a message leaves the payload column stale
  (`Gateway.RawIsNeverEdited`); editing an unseen message creates no row
  (`Gateway.UpdateOfUnseenMessage`).
- The log line that opens `apply` cuts the digest after eight bytes and panics for an
  asset name, used as a fallback, in which that is inside a character (`Updater.Apply`,
  `Updater.CutInsideCharacter`).
- `FrameTimer::new(0)` falls back to a budget that reports 59 frames per second
  (`FrameTimer.FallbackReports59`).

## Model

| member | source | states |
|---|---|---|
| Refresh.SkipReasonIff | crates/viscos-media/src/refresh.rs:265-281 | exactly which URLs are skipped and for which reason: without `://`, with another scheme before the first one, or a bare scheme; the others are fetched |
| Refresh.SkippedIffIneligible | crates/viscos-media/src/refresh.rs:265-281 | a URL is fetched exactly when it is `http://` or `https://` followed by something |
| Refresh.RefreshOne | crates/viscos-media/src/refresh.rs:287-337 | no fetch for a skipped URL, and its reason; exactly k fetches when attempt k is the first success; otherwise `max_attempts` with the last error; sleeps the available backoffs between attempts and none after the last |
| Refresh.SucceedsOrNever | crates/viscos-media/src/refresh.rs:300-328 | the two cases of the retry contract are exhaustive and exclusive |
| Refresh.DefaultPolicySleeps | crates/viscos-media/src/refresh.rs:195-224 | under the default policy a URL sleeps 0, 100 or 600 ms in all |
| RefreshBatch.RunKeepsInvariant | crates/viscos-media/src/refresh.rs:370-398 | in every state of every interleaving each task is still on its way to its sequential outcome and the joined slots hold exactly those outcomes |
| RefreshBatch.PermitsConserved | crates/viscos-media/src/refresh.rs:370-386 | free permits, the spawner's permit and unfinished tasks add up to max(concurrency, 1); fetches in flight never exceed it |
| RefreshBatch.AlwaysProgress | crates/viscos-media/src/refresh.rs:374-398 | until all handles are joined some step is enabled, also with concurrency 0 |
| RefreshBatch.StepDecreasesMeasure | crates/viscos-media/src/refresh.rs:374-398 | every step uses up some of the remaining work |
| RefreshBatch.RunsAreBounded | crates/viscos-media/src/refresh.rs:374-398 | no interleaving is longer than n(2 max_attempts + 3) + n steps |
| RefreshBatch.EveryScheduleIsSequential | crates/viscos-media/src/refresh.rs:374-411 | whatever the schedule, the outcomes and the number of fetches per URL are those of refreshing the URLs one by one |
| RefreshBatch.OutcomesAreParallel | crates/viscos-media/src/refresh.rs:343-350 | outcome i is about URL i |
| RefreshBatch.BuildReport | crates/viscos-media/src/refresh.rs:400-411 | each counter is the number of outcomes of its status, and the counters add up |
| RefreshBatch.RefreshAll | crates/viscos-media/src/refresh.rs:357-423 | the batch terminates under any scheduler with the sequential report, in input order |
| Digest.HexEncode | crates/viscos-distribution/src/updater.rs:489-497 | two lower-case characters per byte that read as the byte in base 16 |
| Digest.HexDigitsAreThese | crates/viscos-distribution/src/updater.rs:244-244 | the hex digits are those of the two tables and no others |
| Digest.HexOfInjective | crates/viscos-distribution/src/updater.rs:489-497 | different byte strings print differently |
| Digest.ExtractSha256 | crates/viscos-distribution/src/updater.rs:237-256 | the lower-cased leftmost window of 64 hex digits if there is one, else nothing |
| Digest.LeftmostDigestUnique | crates/viscos-distribution/src/updater.rs:237-256 | that promise determines the answer |
| Digest.DigestIsLeftmostIff | crates/viscos-distribution/src/updater.rs:223-227 | a digest printed after a prefix is the leftmost window exactly when the prefix holds no window and does not end in a hex digit |
| Digest.ScanFindsPrinted | crates/viscos-distribution/src/updater.rs:223-227 | printing a digest into release notes and scanning them gives it back |
| Digest.PrintedEqualIffEqual | crates/viscos-distribution/src/updater.rs:528-536 | comparing printed digests accepts exactly equal digests, whatever the letter case |
| Updater.PathsDistinct | crates/viscos-distribution/src/updater.rs:459-468 | executable, temp file and backup are three different paths for every file name |
| Updater.SiblingNames | crates/viscos-distribution/src/updater.rs:459-468 | they lie in one directory; `.new` and `.old` are added to the name, `viscos.new` and `viscos.old` stand in for a name that cannot be used |
| Updater.Disk.Rename | crates/viscos-distribution/src/updater.rs:520-521 | a rename moves the content, replaces the target, and fails without effect |
| Updater.DownloadToFile | crates/viscos-distribution/src/updater.rs:502-511 | the destination is created empty and grows chunk by chunk, and nothing else changes at any moment; nothing at all if it cannot be created |
| Updater.VerifyTempHash | crates/viscos-distribution/src/updater.rs:528-536 | accepts exactly a file whose digest is the lower-cased expected one; a mismatch deletes the temp file, if that is permitted, and reports both digests; nothing else changes |
| Updater.AtomicReplace | crates/viscos-distribution/src/updater.rs:515-523 | the states the swap goes through and its result; some of them lack the executable exactly when it can be set aside; the new one has the mode of the download |
| Updater.PostReplaceCleanup | crates/viscos-distribution/src/updater.rs:578-588 | on Unix the executable is given its mode and the backup is removed, whether or not the former works |
| Updater.Apply | crates/viscos-distribution/src/updater.rs:372-406 | at every crash point the executable is as before, set aside as backup, or verified, and no other file changes; the answer to every way of failing and the files it leaves, exactly; when it succeeds, when it is missing at some crash point and when at the end; the panic of the opening log line; whether the result can be started |
| Updater.DigestsAreCuttable | crates/viscos-distribution/src/updater.rs:373-379 | only a fallback name can make that log line panic, never a digest that some download has |
| Updater.CutInsideCharacter | crates/viscos-distribution/src/updater.rs:377-377 | a name with a character that is not ASCII after seven that are makes the log line panic |
| Updater.RetryAfterFailedSwap | crates/viscos-distribution/src/updater.rs:515-523 | two attempts that lose the program: one fails between its renames, the next drops the backup and fails |
| Updater.ReleaseDigest | crates/viscos-distribution/src/updater.rs:224-227 | the digest of a release is the one found in its notes, else the asset name |
| Updater.InstallPublished | crates/viscos-distribution/src/updater.rs:372-406 | with notes that publish d, an update goes through for content with digest d and for nothing else |
| Updater.NoDigestNoUpdate | crates/viscos-distribution/src/updater.rs:224-227 | with notes that publish no digest, or none, nothing is installed and only the temp file changes, unless the asset is named like a digest |
| Version.CompareIsLexicographic | crates/viscos-distribution/src/updater.rs:597-597 | comparing component lists is the lexicographic order and its converse |
| Version.NewerIsStrictOrder | crates/viscos-distribution/src/updater.rs:590-598 | "newer" is antisymmetric and transitive on arbitrary strings |
| Version.NewerOnDotted | crates/viscos-distribution/src/updater.rs:590-598 | on dotted decimals with `u64` components it is exactly the lexicographic order of the numbers |
| Version.ComponentsIffNumber | crates/viscos-distribution/src/updater.rs:591-596 | a version has components exactly when some whole run of digits in it fits a `u64` |
| Version.PreReleaseNewerIffNumbered | crates/viscos-distribution/src/updater.rs:590-598 | `release-tag` counts as newer than `release` exactly when the tag has such a number, else as the same; never the other way round |
| Version.NumberNeedsDigit | crates/viscos-distribution/src/updater.rs:592-596 | what to look for: a tag with a number has a digit, and in at most 19 characters any digit will do |
| Version.StrippedTag | crates/viscos-distribution/src/updater.rs:58-73 | a tag of the own channel loses exactly its prefix, any other is kept whole |
| Version.StrippingIsIrrelevant | crates/viscos-distribution/src/updater.rs:58-73 | that never changes what counts as newer |
| Version.CheckIff | crates/viscos-distribution/src/updater.rs:330-352 | an error of the source is passed on as it is; a release is answered exactly if it is newer; else nothing |
| Version.ChainIncreases | crates/viscos-distribution/src/updater.rs:336-352 | along any chain of accepted installs versions strictly increase, so none repeats |
| Background.RunRound | crates/viscos-distribution/src/updater.rs:419-446 | one round: when it installs, panics or does nothing, and what it does to the program and its backup |
| Background.BackgroundCheck | crates/viscos-distribution/src/updater.rs:416-451 | the loop on the disk: the outcome of every round and the place of the program after them, nothing without `auto_apply`, its end by a panic |
| Background.Setup.ProgramLostIff | crates/viscos-distribution/src/updater.rs:433-438 | over any run that starts with the program: it is missing exactly if some round set it aside without installing the new one, and gone with its backup exactly if a later verified round could drop that; else the last one installed is there |
| Background.Setup.UpdatedIff | crates/viscos-distribution/src/updater.rs:419-438 | a round of such a run installs exactly if it could and no round before it broke the program |
| Background.InstallsAreNewer | crates/viscos-distribution/src/updater.rs:419-431 | every install of a run is newer than the version the loop was started with |
| Background.ConstantSourceReinstalls | crates/viscos-distribution/src/updater.rs:416-451 | a source that keeps answering the same newer release has it tried in every round |
| Background.ConstantSourceOnDisk | crates/viscos-distribution/src/updater.rs:416-451 | and, if nothing goes wrong, installed on the disk in every round |
| Background.StepsBackIff | crates/viscos-distribution/src/updater.rs:336-352 | one more round breaks the order exactly when its answer is newer than the start version but not than the installed one |
| Background.IncreasingIffTracked | crates/viscos-distribution/src/updater.rs:416-451 | versions go up over a run exactly when a loop that remembers its installs would have done the same |
| Background.MayStepBack | crates/viscos-distribution/src/updater.rs:416-451 | they need not: from 1.0 the loop installs 3.0 and then 2.0 |
| Calendar.NextDayIsOneDay | crates/viscos-cache/src/facade.rs:314-323 | moving one calendar day on, by the 4/100/400 rule, adds exactly one to the day number |
| Calendar.DaysCountSteps | crates/viscos-cache/src/facade.rs:312-323 | the closed form is the signed number of single-day steps from 1970-01-01 |
| Calendar.StepsAreUnique | crates/viscos-cache/src/facade.rs:314-323 | n steps lead from one date to another exactly when their day numbers differ by n |
| Calendar.DaysOrder | crates/viscos-cache/src/facade.rs:314-323 | day numbers are injective and ordered as dates |
| Calendar.EraBounds | crates/viscos-cache/src/facade.rs:317-320 | the two remainders stay in [0, 399] and [0, 146096] |
| Calendar.OverflowIff | crates/viscos-cache/src/facade.rs:314-323 | for all `i32` arguments: overflow exactly for the lowest 400 incomplete years, months beyond 14 million, or a day that leaves the type with its month; else the day number |
| Calendar.DayNumberBounds | crates/viscos-cache/src/facade.rs:307-323 | what does not overflow stays far inside the range in which the seconds fit an `i64` |
| Calendar.RunsOnIff | crates/viscos-cache/src/facade.rs:314-323 | exactly for which months a date counts on from the first of its month: -9 to 14, and seven more before leap years |
| Calendar.FiveMonthsAre153Days | crates/viscos-cache/src/facade.rs:318-319 | beyond that, five months always count 153 days, which fixes the day number of every month |
| Calendar.DateOnIsInverse | crates/viscos-cache/src/facade.rs:314-323 | every day number has its calendar date |
| Calendar.DenotesIffValid | crates/viscos-cache/src/facade.rs:314-323 | the date with the computed day number is the given one exactly when the given one exists |
| Timestamp.ParseReadsTheClock | crates/viscos-cache/src/facade.rs:288-310 | every valid RFC 3339 text of years 0000 to 9999 parses, to the seconds its clock shows |
| Timestamp.ParseIsExactIffOffsetIsZero | crates/viscos-cache/src/facade.rs:285-310 | the answer is ahead of the unix time the text denotes by its offset, hence right exactly when that is zero |
| Timestamp.ParsedOrderIsTimeOrder | crates/viscos-cache/src/facade.rs:288-310 | parsed zero-offset timestamps are ordered, and equal, as the instants are |
| Timestamp.NoTimeMarkRejected | crates/viscos-cache/src/facade.rs:291-293 | a text without `T` is rejected |
| Timestamp.ParsedYearsAreNatural | crates/viscos-cache/src/facade.rs:295-296 | no accepted text carries a negative year |
| Timestamp.ReadsIff | crates/viscos-cache/src/facade.rs:291-305 | exactly which texts have readable fields, and which: signs and zeros in front of numbers, any offset or none, and anything after a further hyphen, colon or `T` are read over |
| Timestamp.ParseValue | crates/viscos-cache/src/facade.rs:288-310 | for any readable fields: an overflow by an exact condition on month and day, else the seconds computed, never a rejection |
| Timestamp.RejectedIffUnreadable | crates/viscos-cache/src/facade.rs:291-305 | `None` exactly for a text without readable fields |
| Timestamp.DenotesPrintedIffValid | crates/viscos-cache/src/facade.rs:288-310 | the answer denotes the printed date and time exactly when those exist |
| Timestamp.SecondsNameOneInstant | crates/viscos-cache/src/facade.rs:307-309 | every answer denotes exactly one instant of the calendar |
| Timestamp.ParseRunsOnIff | crates/viscos-cache/src/facade.rs:297-307 | exactly when an impossible date counts on from the first of its month |
| Timestamp.ImpossibleDatesAccepted | crates/viscos-cache/src/facade.rs:297-307 | 30 February, day 0 and months 13 and 15 are accepted, and as what |
| Timestamp.InRangeFieldsNeverOverflow | crates/viscos-cache/src/facade.rs:295-309 | fields in calendar range always parse, for every year the parser can read |
| Timestamp.MonthOverflowsIff | crates/viscos-cache/src/facade.rs:307-319 | a text for the first of a month overflows exactly for months above 14035843 that do not wrap around to above -14035850 |
| Gateway.Bridge.OnMessageCreate | crates/viscos-api/src/gateway_cache_bridge.rs:225-268 | cache, row and announcement of a create, up to the operation that fails |
| Gateway.Bridge.OnMessageUpdate | crates/viscos-api/src/gateway_cache_bridge.rs:272-299 | cache, content column and announcement of an update, up to the operation that fails |
| Gateway.Bridge.OnGuildCreate | crates/viscos-api/src/gateway_cache_bridge.rs:307-328 | the guild row and the channel rows written before a failure |
| Gateway.Bridge.OnGuildUnavailable | crates/viscos-api/src/gateway_cache_bridge.rs:205-217 | a placeholder row |
| Gateway.Bridge.OnReady | crates/viscos-api/src/gateway_cache_bridge.rs:350-370 | placeholder rows and the login announcement |
| Gateway.Bridge.UpsertChannel | crates/viscos-api/src/gateway_cache_bridge.rs:376-391 | the channel row, guild 0 for a channel without guild |
| Gateway.Bridge.PushEvent | crates/viscos-api/src/gateway_cache_bridge.rs:394-400 | appended to an open channel, an error on a closed one |
| Gateway.Bridge.HandleEvent | crates/viscos-api/src/gateway_cache_bridge.rs:173-202 | dispatch; other events change nothing |
| Gateway.CacheHoldsLastWrite | crates/viscos-api/src/gateway_cache_bridge.rs:229-238 | after any history a message is cached exactly when written and not evicted since, with the content of its last create or update |
| Gateway.RowsHoldLastStoredWrite | crates/viscos-api/src/gateway_cache_bridge.rs:243-290 | rows exist exactly for stored creates; the content is the last one stored, all else is the create's |
| Gateway.RawIsNeverEdited | crates/viscos-api/src/gateway_cache_bridge.rs:240-290 | the payload column keeps the create after any number of edits |
| Gateway.AgreementCondition | crates/viscos-api/src/gateway_cache_bridge.rs:225-299 | cache and row agree exactly when the last write and the last stored write carry the same content |
| Gateway.StoresAgree | crates/viscos-api/src/gateway_cache_bridge.rs:225-299 | with a working database they always agree, whatever is evicted |
| Gateway.FailedUpdateDisagrees | crates/viscos-api/src/gateway_cache_bridge.rs:282-290 | a failing statement leaves the cache ahead of the row |
| Gateway.UpdateOfUnseenMessage | crates/viscos-api/src/gateway_cache_bridge.rs:282-295 | an update of an unseen message is cached and announced but has no row |
| Gateway.LogIsAnnouncements | crates/viscos-api/src/gateway_cache_bridge.rs:260-263 | an open channel carries, in order, exactly one event per stored READY, create and update |
| Gateway.ChannelDoesNotInterfere | crates/viscos-api/src/gateway_cache_bridge.rs:134-136 | cache and tables are the same whether the channel is open or closed |
| Gateway.ReplyTellsChannel | crates/viscos-api/src/gateway_cache_bridge.rs:394-400 | a closed channel turns the reply to a stored, announced event into an error |
| Gateway.AnnouncedHasRow | crates/viscos-api/src/gateway_cache_bridge.rs:243-263 | every announced creation has its row after every event |
| Gateway.GuildsHoldLastWrite | crates/viscos-api/src/gateway_cache_bridge.rs:205-362 | the guild table holds the last row written for each guild, partial writes included |
| Gateway.ReadyErasesGuild | crates/viscos-api/src/gateway_cache_bridge.rs:356-362 | READY replaces a filled guild row by an empty placeholder |
| Gateway.ChannelsHoldLastWrite | crates/viscos-api/src/gateway_cache_bridge.rs:322-324 | the channel table holds the last row written for each channel, partial writes included |
| JsBridge.Preload.EnsureIpcBridge | frontend/src/bridge.ts:160-174 | the listener is attached unless another one is |
| JsBridge.Preload.InstallViscosGlobal | frontend/src/bridge.ts:234-242 | only the first call resets the subscribers and attaches the listener; a global or listener already there is kept |
| JsBridge.Preload.OnEvent | frontend/src/bridge.ts:204-205 | adds the handler once, behind the others |
| JsBridge.Preload.CleanUp | frontend/src/bridge.ts:208-210 | removes it |
| JsBridge.Preload.HandleIncomingMessage | frontend/src/bridge.ts:105-158 | what each kind of message does |
| JsBridge.Preload.Broadcast | frontend/src/bridge.ts:146-157 | every handler is called once, in order, whichever throw; what they throw is logged in that order |
| JsBridge.Preload.Invoke | frontend/src/bridge.ts:188-202 | one request with messages arriving while it is sent, returning or throwing |
| JsBridge.RunKeepsInvariant | frontend/src/bridge.ts:126-138 | in every run each id is pending under its own promise or settled, never both |
| JsBridge.IssuedIsPendingOrSettled | frontend/src/bridge.ts:190-194 | the issued ids are the disjoint union of pending and settled ones |
| JsBridge.IssuedIdIsFresh | frontend/src/bridge.ts:190-194 | ids grow strictly and a new one is not in use |
| JsBridge.StrayResponseIgnored | frontend/src/bridge.ts:127-130 | late, duplicate and unknown responses change nothing |
| JsBridge.OnlyOwnThrowCallsAgain | frontend/src/bridge.ts:195-200 | a settled promise keeps its outcome; only its own throwing send calls it again, at most once |
| JsBridge.FirstSettlerDecides | frontend/src/bridge.ts:126-138 | a request is settled exactly when some step after its issue settles it, and the first such step decides with its own result or error |
| JsBridge.InvokeOutcome | frontend/src/bridge.ts:188-202 | one request after any run: the first answer while it is sent decides, even if sending then throws; else the throw rejects; else it is pending |
| JsBridge.WithoutListenerNothingArrives | frontend/src/bridge.ts:168-172 | behind a foreign listener no response ever settles a request |
| JsBridge.HandlersAreSubscribed | frontend/src/bridge.ts:204-211 | the handlers are those subscribed and not unsubscribed since, once each |
| JsBridge.HandlersInOrderOfJoining | frontend/src/bridge.ts:204-211 | over every run, of two current handlers the one whose membership began earlier comes first |
| JsBridge.EventReachesSubscribers | frontend/src/bridge.ts:140-157 | an event reaches every current subscriber exactly once and nobody else |
| JsBridge.EventInOrderOfJoining | frontend/src/bridge.ts:146-157 | the calls for an event are made in the order in which the handlers have joined |
| JsBridge.OnlyEventsDeliver | frontend/src/bridge.ts:105-158 | no other step calls a handler, and each part of the state is changed by its own steps only |
| JsBridge.OtherMessagesIgnored | frontend/src/bridge.ts:106-115 | text that is not JSON and messages of other kinds change nothing |
| Watchdog.GdiCounter.Sample | crates/viscos-watchdog/src/gdi.rs:85-98 | growth since the last sample, 0 without one or on a decrease |
| Watchdog.GdiCounter.Reset | crates/viscos-watchdog/src/gdi.rs:101-103 | forgets the baseline |
| Watchdog.SampleTick | crates/viscos-watchdog/src/watchdog.rs:155-193 | the actions of one tick after warm-up, in order, and what they store |
| Watchdog.Watch | crates/viscos-watchdog/src/watchdog.rs:131-196 | the loop, tied to its trace, the baseline, and the rows it appends to any earlier ones |
| Watchdog.RunSessions | crates/viscos-telemetry/src/store.rs:134-141 | sessions one after the other on the same store |
| Watchdog.TraceBlocks | crates/viscos-watchdog/src/watchdog.rs:145-194 | warm-up ticks do nothing; every later tick leaves its block of actions in order |
| Watchdog.RecordedAreReadings | crates/viscos-watchdog/src/watchdog.rs:155-162 | the hook sees exactly the counts after warm-up, in order |
| Watchdog.OneRestartPerCriticalReading | crates/viscos-watchdog/src/watchdog.rs:164-188 | critical samples, autosaves, emissions and restart records are equally many |
| Watchdog.AutosaveBeforeRestart | crates/viscos-watchdog/src/watchdog.rs:167-183 | every emission comes right after an autosave, even a failed one, and right before its record |
| Watchdog.RecordedRightAfterSample | crates/viscos-watchdog/src/watchdog.rs:155-162 | every sample is recorded at once, with its count, before any restart, and nothing else is |
| Watchdog.DeltaMeansGrowth | crates/viscos-watchdog/src/gdi.rs:81-103 | the reported delta is 0 after start-up and after each restart, else the growth since the previous tick |
| Watchdog.StoredAreReadings | crates/viscos-telemetry/src/sink.rs:57-61 | the store holds the samples of exactly the ticks whose insert succeeded |
| Watchdog.SampleRows | crates/viscos-telemetry/src/store.rs:134-141 | one row each, in the order of the ticks |
| Watchdog.RestartRows | crates/viscos-telemetry/src/store.rs:148-155 | the same for the restarts of critical ticks, with their time and reason |
| Watchdog.LogHoldsSessions | crates/viscos-telemetry/src/sink.rs:57-61 | the log holds what it held before and what some tick of some session stored, nothing else |
| Watchdog.RequiredIffLeakWatched | crates/viscos-telemetry/src/store.rs:178-189 | over any earlier log and any sessions, CEF is required exactly when the log can be read and holds, from before or from a tick after warm-up, 8500 or more within seven days |
| Watchdog.WebView2AfterSessionsIff | crates/viscos-webview/src/backend.rs:193-213 | after any sessions a local Windows 11 machine chooses WebView2 exactly for a readable log with a sample and without a leak of the last week |
| Watchdog.RestartLeadsToCef | crates/viscos-webview/src/backend.rs:193-213 | a tick of the last week that restarts the web view and whose sample is stored makes such a machine choose CEF, whether or not the restart itself is recorded |
| Telemetry.Store.RecordGdiSample | crates/viscos-telemetry/src/store.rs:134-141 | appends one row, or none when the insert fails |
| Telemetry.Store.RecordRestart | crates/viscos-telemetry/src/store.rs:148-155 | appends one row, or none when the insert fails |
| Telemetry.PeakIsMaximum | crates/viscos-telemetry/src/store.rs:162-170 | the peak is attained in the window and not exceeded there; none for an empty window |
| Telemetry.PeakMonotone | crates/viscos-telemetry/src/store.rs:162-170 | looking further back never lowers the peak |
| Telemetry.RequiredIffLeakSeen | crates/viscos-telemetry/src/store.rs:172-189 | `Required` exactly for a readable log with 8500 or more in seven days; `Unknown` exactly without samples or when the query fails |
| Backend.WebView2Iff | crates/viscos-webview/src/backend.rs:193-213 | WebView2 exactly in remote sessions, before Windows 11, or after a clean week that can be read |
| Backend.ParseBackendIff | crates/viscos-webview/src/backend.rs:299-308 | what each of the three words means, and an error, with the lower-cased core of the text, exactly for every other text |
| Backend.ResolveIff | crates/viscos-webview/src/backend.rs:270-291 | an error exactly for a meaningless command-line value or, without one, a meaningless non-blank configuration; a named backend wins; else the machine decides |
| Backend.FixedIffNamed | crates/viscos-webview/src/backend.rs:270-291 | all machines get the same backend exactly when an override names it |
| Backend.AutomaticIffUnnamed | crates/viscos-webview/src/backend.rs:270-291 | every machine chooses for itself exactly when nothing fails and no override names a backend |
| Backend.TrimIsBare | crates/viscos-webview/src/backend.rs:282-283 | trimming cuts all blanks off both ends and nothing else; it leaves nothing exactly for blank text |
| Backend.SaysIffTrimmed | crates/viscos-webview/src/backend.rs:300-300 | trimming and lower-casing recognise a word exactly in any letter case and with blanks around it |
| Tier.CacheTiers.AutoTune | crates/viscos-cache/src/tier.rs:88-134 | resizes by the class of the window; counter sums beyond `u64` overflow |
| Tier.CacheTiers.DefaultV1 | crates/viscos-cache/src/tier.rs:71-76 | 64 MB and 10 GB |
| Tier.RatioIsHitsOverSamples | crates/viscos-cache/src/tier.rs:96-107 | all three branches compute total hits over total samples |
| Tier.ClassifyByCounting | crates/viscos-cache/src/tier.rs:43-47 | the thresholds in whole numbers |
| Tier.SizesAreLevels | crates/viscos-cache/src/tier.rs:109-132 | after any run the disk size depends on the number of high windows alone, memory is a clamped walk over four sizes |
| Tier.SizesStayInBounds | crates/viscos-cache/src/tier.rs:27-30 | memory is 32, 64, 128 or 256 MB, disk 10, 15, 22.5 or 25 GB and never shrinking |
| Tier.ThreeHighWindowsFill | crates/viscos-cache/src/tier.rs:21-25 | three high windows fill both tiers; disk stays full, memory until the first low window |
| DeepLink.ParsePrinted | crates/viscos-shell/src/integration/deep_link.rs:54-95 | every linkable action parses back from its link, with any number of extra slashes |
| DeepLink.PrintInjective | crates/viscos-shell/src/integration/deep_link.rs:54-95 | distinct actions have distinct links |
| DeepLink.SlashRunsDoNotMatter | crates/viscos-shell/src/integration/deep_link.rs:55-56 | URLs with the same segments are understood alike |
| DeepLink.RecognisedIsLinkable | crates/viscos-shell/src/integration/deep_link.rs:58-85 | only actions with `u64` ids or non-empty slash-free codes are recognised |
| DeepLink.ParseIff | crates/viscos-shell/src/integration/deep_link.rs:54-95 | for every URL: what is rejected, what is recognised as which action, and that the rest is unknown |
| DeepLink.PathIsJoin | crates/viscos-shell/src/integration/deep_link.rs:55-56 | every path is its segments with extra slashes, and nothing else |
| Text.ParsesIffSpells | crates/viscos-shell/src/integration/deep_link.rs:61-79 | a number is read exactly from its decimal with an optional plus sign and any zeros in front |
| Text.DigitTable | crates/viscos-cache/src/facade.rs:296-298 | the ten digits stand for 0 to 9 |
| Text.PlaceValue | crates/viscos-cache/src/facade.rs:296-298 | digits count by powers of ten, the last one once |
| DeepLink.RecognisedIffPrinted | crates/viscos-shell/src/integration/deep_link.rs:54-95 | a URL means an action exactly when it is a printed link of it, up to slashes, signs and zeros |
| DeepLink.UserLinksAreUnknown | crates/viscos-shell/src/integration/deep_link.rs:3-8 | the announced `user` links are unknown |
| FrameTimer.BudgetFits | crates/viscos-shell/src/frame_timer.rs:39-42 | the budget is the whole number of microseconds that fits n times into a second; 16667 for rate 0 |
| FrameTimer.RateRoundTrip | crates/viscos-shell/src/frame_timer.rs:39-59 | up to 10^6 the reported rate is at least the requested one and gives the same budget |
| FrameTimer.RateExactIff | crates/viscos-shell/src/frame_timer.rs:39-59 | it is exact precisely when the next higher rate has another budget |
| FrameTimer.RateExactTo1000 | crates/viscos-shell/src/frame_timer.rs:39-59 | it is exact up to 1000 |
| FrameTimer.RateSaturates | crates/viscos-shell/src/frame_timer.rs:39-59 | above a million frames per second the budget is 0 and a million is reported |
| FrameTimer.FallbackReports59 | crates/viscos-shell/src/frame_timer.rs:40-42 | rate 0 falls back to 59, not 60 |
| FrameTimer.Timer.Tick | crates/viscos-shell/src/frame_timer.rs:62-72 | the counters follow the tick history |
| FrameTimer.Timer.Reset | crates/viscos-shell/src/frame_timer.rs:98-103 | back to an empty history |
| FrameTimer.Timer.Stats | crates/viscos-shell/src/frame_timer.rs:76-95 | drops below frames once a frame exists, with their exact ratio; the exact rate of frames since the start |
| FrameTimer.LateGapsCountPositions | crates/viscos-shell/src/frame_timer.rs:64-69 | drops are the ticks whose gap to the previous one exceeds the budget |

## Left out

- RefreshBatch.RefreshAll: task panics and a closed semaphore, which end the batch with an error.
- Updater.Apply: other processes changing the same files, files shared under case-insensitive names, and the detached removal of the backup on Windows, which happens after the update has returned; modes other than whether a file may be executed.
- Updater.ReleaseDigest: fetching and choosing the release (`fetch_latest`), which is a call into `self_update`.
- Background.BackgroundCheck: the endless loop is modelled for every finite number of rounds; the path that the operating system reports for the running program is a parameter of each round, and the fate of the program is stated for rounds that report the same path.
- Timestamp.ParseReadsTheClock: years outside 0000 to 9999 and leap seconds are not printed by the grammar the statement is about.
- Gateway.Bridge.HandleEvent: SQL types and constraints (a `u64` above the signed range makes a statement fail, which is one of the modelled failures), columns that are always null, and the capacity and expiry policy behind evictions.
- JsBridge.Preload.Invoke: requests issued by other code while `postMessage` runs are covered by the step relation, not by this method; handlers that change the subscriber set while it is iterated are not modelled; ids are integers, not doubles.
- Watchdog.Watch: the endless loop is modelled for every finite number of ticks; log output at the warning threshold is not modelled.
- Tier.CacheTiers.AutoTune: floating-point rounding; ratios are exact rationals.
- FrameTimer.Timer.Stats: floating-point rounding; rates and ratios are exact, times are natural numbers of nanoseconds.
- Backend.ResolveIff: lower-casing is ASCII only, as in the source.
- Network and Discord endpoints, windowing, tray, hotkeys, login, token storage, crash dumps and signing: calls into libraries or one-branch mappings.
- The `Cache` facade over SQLite and its hot cache, which is never filled.
- The test-only reset of the preload bridge, which reuses ids on purpose.

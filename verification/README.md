# Reply Forge, modelled and proved in Dafny

Reply Forge takes comments through a captcha-protected endpoint, keeps them unapproved in SQLite, and
lets a moderator approve or delete them. This project models the parts of the service that carry state
or arithmetic and proves what they promise, for all inputs and all interleavings. `dafny verify
dfyconfig.toml` checks it.

| file | models |
|---|---|
| `TokenBucket.dfy`, `TokenWindows.dfy` | one token bucket, and how many requests it admits in a window of time |
| `RateLimiter.dfy`, `RateLimiterRuns.dfy`, `RateLimiterLogs.dfy`, `RateLimiterBounds.dfy` | the per-IP rate limiter and its sweeper, every interleaving of lookups, Allow calls and sweeps, which logs they can produce, and how often an IP can be admitted |
| `Comments.dfy`, `Repository.dfy`, `Listing.dfy`, `Pagination.dfy` | the comments table and its statements, the ordered list behind the queries, the page arithmetic |
| `Service.dfy`, `Outcomes.dfy`, `ListReplies.dfy` | the comment service, what its operations store and answer, what its lists answer |
| `Moderation.dfy`, `ModerationFacts.dfy`, `ModerationRows.dfy`, `ModerationCounts.dfy`, `ModerationLists.dfy` | every interleaving of the service's requests, and lists read meanwhile |
| `Base64.dfy`, `Password.dfy`, `PasswordGrammar.dfy` | the Argon2id hash string: base64, decimals, scanner, printer, parser, verification, and the grammar of what is accepted |
| `Turnstile.dfy`, `Sessions.dfy` | the captcha cache and the admin session table |
| `Responses.dfy` | panic recovery inside request logging |
| `Text.dfy`, `Sanitizer.dfy` | the text pipeline applied at write and again at read |
| `Wrappers.dfy`, `Arithmetic.dfy` | options, results and the arithmetic several files share |

Objects whose methods change their fields are classes here too. Each method is proved against a function
of the old state, and the runs are built from those same functions, so a lemma about runs is about the
methods. A run is a sequence of events; what the scheduler, the clock, the network, the captcha service
and the storage engine do is part of the events or of the request that a `Spawn` event carries.

Several promises turn out to hold only under a condition. Those are stated as equivalences:

- Dropping an idle bucket is unobservable exactly when `rpm * (IDLE + 1 - d) >= burst * COST` and
  `d + slip <= IDLE`, where `d` bounds the delay from the lookup to reading the clock and `slip` the delay
  from there to getting hold of the bucket. At `d = slip = 0` this reads `5 * rpm >= burst`; the default
  configuration (10 and 15) meets it.
- In every run no window admits more than the burst and the refill, exactly when the first of these
  inequalities holds and either `slip = 0` or `burst = 1`. For any larger burst, the default included,
  requests that swap between reading the clock and entering the bucket make it refill the same time
  twice; every two requests can get back one refill of `slip` and no more.
- Public reads never show a comment without display id exactly when no Create can fail between its INSERT
  taking effect and its display id being set.
- Cached captcha answers are always answers to the same `token + ":" + ip` text. They are the requester's
  own exactly when no two of the requests made share such a text, and the cache is transparent exactly
  when requests that share one deserve the same answer. Colon-free tokens are enough for both.
- The total that a list shows matches its pages exactly when the writes between COUNT and SELECT gain the
  query as many rows as they cost it.
- Pages past the last are empty exactly when the wrapped 64-bit offset is past the end. A page number large
  enough to overflow the offset shows the first page again (`OverflowShowsFirstPage`).
- The logged status is the status sent exactly when the handler does not open with an informational or
  out-of-range code.
- One sanitizing pass is idempotent exactly when the text has at most one word or no word made of NULs
  only. The tests of `internal/sanitizer` ask for idempotence of single passes, which does not hold in
  general. The service's two passes always reach a fixed point.

Assumptions: the display-id generator may fail, but what it returns is injective and never empty; SHA-256
is injective; the HTML and normalisation stages add no NUL; equal timestamps are ordered by some
tie-break, any one, but the same for all pages and for both filters that one result compares. The
server's own response writer follows the documentation of `net/http`: it panics on codes outside 100 to
999 and sends informational codes at once without settling the final status. SQLite treats a negative
OFFSET as zero, as the repository's own tests expect.

## Model

| member | source | states |
|---|---|---|
| RateLimiter.Limiter.Allow | internal/middleware/ratelimit.go:54-56 | an Allow call refills for the time passed up to the cap, takes one token or refuses and leaves the bucket as it was |
| RateLimiter.RateLimiter.GetVisitor | internal/middleware/ratelimit.go:76-89 | the lookup returns the IP's own bucket, a full new one on a first visit, refreshes its last-seen time and touches no other visitor |
| RateLimiter.RateLimiter.Sweep | internal/middleware/ratelimit.go:98-104 | a sweep keeps exactly the visitors seen within the last five minutes, each by the clock read for it, unchanged |
| RateLimiter.RateLimiter.Admit | internal/middleware/ratelimit.go:53-56 | a request is answered by its own IP's bucket and leaves every other IP's bucket unchanged |
| TokenWindows.WindowBound | internal/middleware/ratelimit.go:33-55 | a single bucket admits at most burst requests plus the refill in any window, even when requests enter it up to `slip` after reading the clock and in another order, except that every two requests may get back one refill of `slip` |
| TokenWindows.PlainBoundIff | internal/middleware/ratelimit.go:33-55 | the bound without that exception holds for everything a bucket can answer if and only if requests enter it as they read the clock or the burst is one |
| TokenWindows.SwappedRequestsRefillTwice | internal/middleware/ratelimit.go:54-55 | for any rate, any burst of two or more and any `slip`, requests that swap after reading the clock are admitted until the window's bound is broken |
| TokenWindows.AdmittedIffWindowsAllow | internal/middleware/ratelimit.go:33-56 | with clocks in order a request is admitted if and only if no window would then hold more than burst and refill; no bucket level is mentioned |
| TokenWindows.BucketIsFirstComeFirstServed | internal/middleware/ratelimit.go:33-56 | the answers of a bucket are exactly those of first come, first served under the window bound |
| TokenWindows.RefusalsLeaveNoTrace | internal/middleware/ratelimit.go:54-56 | refused requests change nothing, in whatever order requests enter |
| RateLimiterRuns.NextAfterBurst | internal/middleware/ratelimit.go:33-56 | after a whole burst the next request is admitted once one token has come back at the rate per minute, and no sooner |
| RateLimiterRuns.EvictionIsInvisibleIff | internal/middleware/ratelimit.go:53-109 | in all timely runs every answer equals that of one never dropped bucket fed only that IP's requests, if and only if an idle bucket is sure to be full before it can be dropped and no request is five minutes late |
| RateLimiterLogs.LogsAreHistoriesIff | internal/middleware/ratelimit.go:53-109 | under that condition the answers an IP can get in timely runs are exactly those of one never dropped bucket to requests served nearly in the order of their clocks |
| RateLimiterLogs.PromptRunsServeFirstCome | internal/middleware/ratelimit.go:53-109 | in prompt runs an IP is refused just when admitting it would break a window, sweeps and other IPs included |
| RateLimiterBounds.RateIsBounded | internal/middleware/ratelimit.go:53-109 | when buckets are dropped full no IP is admitted more than burst plus refill in any window, evictions and entries of any lateness included, up to one refill of `slip` per two requests |
| RateLimiterBounds.RateIsBoundedIff | internal/middleware/ratelimit.go:53-109 | the plain bound holds for every IP and window in all timely runs if and only if buckets are dropped full and either requests enter them as they read the clock or the burst is one |
| RateLimiterRuns.DroppingForgesTokens | internal/middleware/ratelimit.go:100-102 | when the refill is too slow there is a run in which one IP is admitted exactly twice the burst around a sweep, more than the window allows |
| RateLimiterRuns.LateRequestIsForged | internal/middleware/ratelimit.go:53-104 | when a request can be five minutes late there is a run in which it is admitted by a bucket dropped meanwhile, against the answer of the never dropped one |
| RateLimiterRuns.SafeInMinutes | internal/middleware/ratelimit.go:33-34 | with Allow right after the lookup the condition is five times the rate per minute covering the burst |
| Repository.CommentRepository.Insert | internal/repository/comment_repository.go:50-66 | a new row gets the next id, no display id, the given fields; a lost or unreported statement is an error with the matching table |
| Repository.CommentRepository.UpdateDisplayID | internal/repository/comment_repository.go:68-84 | sets the display id of exactly that row, and reports failure when no row matched or the driver failed |
| Repository.CommentRepository.UpdateApproved | internal/repository/comment_repository.go:214-230 | sets the flag of exactly that row, and reports failure when no row matched or the driver failed |
| Repository.CommentRepository.Delete | internal/repository/comment_repository.go:232-247 | removes exactly that row, and reports failure when no row matched or the driver failed |
| Repository.CommentRepository.RunQuery | internal/repository/comment_repository.go:112-156 | count on the table it finds, then select and row-by-row scan on the table other requests have made of it, give the total and the page of the ordered list, or an error if any step fails |
| Listing.SelectSpec | internal/repository/comment_repository.go:105-121 | the list holds exactly the rows the filter wants, each once, ordered by creation time in the asked direction, and COUNT is its length |
| Listing.SortedIsUnique | internal/repository/comment_repository.go:118-121 | there is only one such list, whatever plan the engine follows |
| Listing.PublicListIsApprovedPart | internal/repository/comment_repository.go:104-212 | for the same post and order the public list is the approved subsequence of the admin list and the public total is its length |
| Pagination.FloatPageCountIsExact | internal/service/comment_service.go:207 | the page count computed through two conversions and a division rounded to nearest is the exact integer ceiling below 2^53 |
| Pagination.PagesStartInside | internal/repository/comment_repository.go:123-124 | every page up to the page count starts inside the list and its 64-bit offset does not overflow |
| Pagination.PageIsInterval | internal/repository/comment_repository.go:123-132 | every page but the last is full and the last holds the remainder |
| Pagination.PagesCoverList | internal/repository/comment_repository.go:123-132 | pages one to the page count, one after the other, are the whole list |
| Pagination.LaterPagesAreEmptyIff | internal/repository/comment_repository.go:123 | past the last page nothing is shown if and only if the wrapped offset is past the end, which holds while it fits in 64 bits |
| Pagination.OverflowShowsFirstPage | internal/repository/comment_repository.go:123 | a page number whose offset wraps to a negative value shows the first page |
| Pagination.WrapIsTwosComplement | internal/repository/comment_repository.go:123 | offsets are computed as 64-bit machine integers |
| Service.PagesHoldEveryRowOnce | internal/service/comment_service.go:175-216 | on one table the pages a reader can ask for hold every wanted row once, in order |
| ModerationLists.PagesMatchTotalInRunIff | internal/repository/comment_repository.go:112-132 | in any run a total counted at one instant agrees with every page selected later if and only if the writes logged in between gain the query as many rows as they cost it |
| Service.CommentService.Create | internal/service/comment_service.go:96-173 | the table and the reply after a call are those of the whole locked section, the captcha outcomes end early, and the three counters move as documented |
| Service.CommentService.ToggleApproval | internal/service/comment_service.go:277-304 | the table and the reply after a call are those of the whole locked section |
| Service.CommentService.Delete | internal/service/comment_service.go:306-319 | the table and the reply after a call are those of the whole locked section |
| Service.CommentService.List | internal/service/comment_service.go:175-216 | one clamped page of the public list with the total counted just before and its exact page count, or an error |
| Service.CommentService.ListAll | internal/service/comment_service.go:226-267 | one clamped page of the admin list with the total counted just before and its exact page count, or an error |
| Outcomes.CreateOutcome | internal/service/comment_service.go:96-173 | under every fault, which row Create leaves with which post, texts, address, browser and times, that it touches no other row, and whether it answers with that row or an internal error |
| Outcomes.ToggleOutcome | internal/service/comment_service.go:277-304 | a toggle flips the flag and update time of its row and keeps every other field and row; it answers with that row, "not found", or an internal error, and when |
| Outcomes.DeleteOutcome | internal/service/comment_service.go:306-319 | a delete removes its row only; it answers "deleted" if and only if the row was there and the statement is known to have run |
| ListReplies.ListedSpec | internal/service/comment_service.go:175-267 | a list answers with the page's stretch of the one ordered list of rows that may be shown, row by row, the total before it and the clamped page, or an error exactly when a step fails |
| ListReplies.StartOfPage | internal/repository/comment_repository.go:123 | while the offset fits in 64 bits the stretch starts after all earlier pages |
| ListReplies.RepliesShowOnlyWanted | internal/repository/comment_repository.go:104-110 | no public reply shows an unapproved comment, no reply for a post another post's, and each shows a stored row |
| ListReplies.RepliesCoverList | internal/service/comment_service.go:207-215 | the replies for pages one to the number of pages any reply names are, one after the other, the whole list |
| Moderation.Serializable | internal/service/comment_service.go:123-173 | every interleaving gives the table and replies of running the locked sections one at a time in lock-release order; that order holds every finished request exactly once and nothing else |
| Moderation.RunAlone | internal/service/comment_service.go:123-319 | a request that finds the lock free, or holds it, can always run to its end with the outcome of one uninterrupted section |
| ModerationFacts.ApprovedIsParity | internal/service/comment_service.go:277-290 | in every interleaving a live comment is approved exactly when its flag was written an odd number of times |
| ModerationFacts.RepliesTellTheTruth | internal/service/comment_service.go:292-303 | a successful toggle returns the value it wrote itself; a successful create returns its author's own text, sanitized twice, named and unapproved |
| ModerationFacts.IdsAreNeverReused | migrations/001_create_comments.sql:2 | over any run the id counter only grows and a used id that is gone never reappears |
| ModerationFacts.DisplayIdsWhenFree | internal/service/comment_service.go:126-141 | whenever the lock is free a row carries its generated display id, or none because its create failed in a listed way, and display ids are pairwise distinct |
| ModerationFacts.PublicRowIsNamedUnlessCreateFailed | internal/service/comment_service.go:126-147 | an approved row without display id can only come from a create that failed after its insert took effect |
| ModerationFacts.PublicReadsAreNamedIff | internal/service/comment_service.go:126-224 | over all runs no public read, by id or by list, shows an empty display id, if and only if no allowed create can fail between insert and naming, a failing id generator included |
| ModerationFacts.ServedTextIsClean | internal/service/comment_service.go:321-331 | at every reachable state the text of every comment is served clean |
| ModerationRows.TableIsItsHistory | internal/repository/comment_repository.go:50-247 | at every instant a row is there if and only if it was created and not removed, and holds its author's post, sanitized texts, address, browser and time, and the display id, flag and update time last written |
| ModerationRows.AnswersShowTheirComment | internal/service/comment_service.go:96-331 | every successful answer in every interleaving shows the post, creation time and twice sanitized texts of the request that created the comment, the caller's own or the toggled one |
| ModerationRows.StrippedNeverServed | internal/service/comment_service.go:97-98 | a character that tag stripping never lets through is in no stored and no served text |
| ModerationCounts.CountersBalance | internal/service/comment_service.go:100-157 | at every instant verifications are the refused, the created, the calls in flight and the storage failures, and no more comments are counted than rows inserted |
| Base64.DecodeIff | internal/auth/password.go:67-75 | a text decodes to given bytes if and only if, CR and LF aside, it is their encoding |
| Base64.RoundTrip | internal/auth/password.go:95-96 | decoding undoes encoding for byte strings of any length |
| Base64.NewlinesDoNotCount | internal/auth/password.go:67-75 | CR and LF may stand anywhere in an encoded text |
| Base64.DigitsAreTheNumber | internal/auth/password.go:95-96 | three bytes and their four digits are the same number, in base 256 and in base 64 |
| Base64.AlphabetIs | internal/auth/password.go:95-96 | the digits are spelled with the standard alphabet, in its order |
| Base64.TestVectors | internal/auth/password.go:95-96 | the encoder spells the seven vectors of RFC 4648 section 10, without padding |
| Password.PrintThenDecode | internal/auth/password.go:44-101 | parsing undoes printing for every salt, every hash and all in-range parameters |
| Password.AcceptedIsPrintable | internal/auth/password.go:44-78 | whatever spelling was accepted, its canonical spelling reads back to the same parameters, salt and hash |
| Password.VerifyPrinted | internal/auth/password.go:20-36 | a hash of any cost accepts exactly the passwords that derive its key with its own salt, cost and key length, and lets a panic of the derivation through |
| Password.VerifyAnySpelling | internal/auth/password.go:20-36 | any accepted spelling is checked like its canonical one, any other text is an error |
| Password.VerifyGenerated | internal/auth/password.go:20-36 | a generated hash accepts exactly the passwords that derive the same key at the documented cost |
| PasswordGrammar.AcceptedIff | internal/auth/password.go:44-78 | a text is accepted, with given parameters, salt and hash, if and only if a grammar of segments, numbers, signs and white space spells it |
| PasswordGrammar.Rejections | internal/auth/password.go:49-75 | which text with five separators is answered with which error |
| PasswordGrammar.SegmentsIff | internal/auth/password.go:45-47 | any other number of separators is an error of its own |
| Password.GeneratedFormat | internal/auth/password.go:98-100 | a generated hash names algorithm, version 19 and the documented cost |
| Password.LeadingTextIsIgnored | internal/auth/password.go:45-52 | text before the first separator never influences the result |
| Turnstile.TurnstileVerifier.Verify | internal/service/turnstile.go:46-86 | a fresh entry answers alone; otherwise an upstream answer is stored and returned, and an upstream error changes nothing |
| Turnstile.StepsAreVerify | internal/service/turnstile.go:46-86 | the three interleavable steps, run back to back, are one Verify call |
| Turnstile.SameKeyIff | internal/service/turnstile.go:41-44 | two requests share a key text if and only if they are equal or one token swallows the separating colon of the other |
| Turnstile.HeardIff | internal/service/turnstile.go:62-86 | in every interleaving a call holds or returns an upstream outcome of its own if and only if that outcome was the reply it was waiting for |
| Turnstile.CacheHoldsReplies | internal/service/turnstile.go:77-84 | errors are never stored: every entry holds the answer some call with that key had been sent, with the time at which that call stored it |
| Turnstile.CacheIsLastStore | internal/service/turnstile.go:81-83 | the cache holds exactly what was last stored under each key text |
| Turnstile.FromCacheIff | internal/service/turnstile.go:50-55 | a call is answered from the cache if and only if an answer for its key text was stored less than five minutes before, and then with the last one |
| Turnstile.CachedAnswersAreRecent | internal/service/turnstile.go:46-60 | in every interleaving a cached answer was an earlier call's own upstream answer for the same key text, stored less than five minutes before the lookup |
| Turnstile.CachedAnswersAreOwnIff | internal/service/turnstile.go:41-60 | over all runs cached answers were stored for the very same token and address, if and only if no two of the requests in use share a key text |
| Turnstile.CachedAnswersForColonFreeTokens | internal/service/turnstile.go:41-60 | with colon-free tokens every cached answer was stored for the very same token and address |
| Turnstile.TimestampsNeverDecrease | internal/service/turnstile.go:81-83 | entries are only replaced by newer ones |
| Turnstile.TransparentIff | internal/service/turnstile.go:46-86 | for a steady service every result of every interleaving is the service's answer, if and only if requests sharing a key text deserve the same answer |
| Turnstile.TransparentForColonFreeTokens | internal/service/turnstile.go:41-86 | with colon-free tokens the cache is transparent whatever a steady service answers and whatever the addresses contain |
| Sessions.SessionManager.CreateSession | internal/auth/session.go:41-55 | a drawn token is accepted until now plus the lifetime; when the random source fails nothing is stored |
| Sessions.SessionManager.DeleteSession | internal/auth/session.go:57-61 | exactly the named token is forgotten |
| Sessions.SessionManager.ValidateSession | internal/auth/session.go:63-76 | unknown and expired tokens are refused, an expired one is removed, nothing else changes |
| Sessions.SessionManager.Sweep | internal/auth/session.go:138-145 | a sweep keeps exactly the unexpired entries |
| Sessions.ValidationMatchesHistory | internal/auth/session.go:41-150 | wherever sweeps and validations fall, a token is accepted if and only if it was created, not deleted since, and its time is not over |
| Sessions.ValidationForgets | internal/auth/session.go:63-76 | a validation forgets the token it refuses for its age and no other |
| Sessions.RefusedStaysRefused | internal/auth/session.go:63-76 | a created token that is refused once is refused ever after, for freshly drawn tokens |
| Responses.Serve | internal/middleware/recovery.go:14-43 | a handler driven through both writers and the recovery sends and logs what the value-level description says |
| Responses.ExchangeIsExpected | internal/middleware/recovery.go:46-64 | two stateful writers and a recovery send exactly what a writer-free reference description says |
| Responses.LogIsExpected | internal/middleware/logging.go:48-59 | the logged status is that of the handler's opening, 500 for a panic before it and 200 by default |
| Responses.HeaderOnceAndFirst | internal/middleware/logging.go:73-85 | the server's writer gets at most one header and nothing before it |
| Responses.LoggedIsSentIff | internal/middleware/logging.go:48-59 | the logged status is the one sent if and only if the handler does not open with an informational or out-of-range code |
| Responses.LatePanicIsSilent | internal/middleware/recovery.go:27 | a panic after some output changes nothing that was sent or logged |
| Sanitizer.TwoPassesAreNulFirst | internal/sanitizer/sanitizer.go:25-28 | two passes do what one pass would do if it removed NULs before collapsing spaces |
| Sanitizer.OnePassIsEnoughIff | internal/sanitizer/sanitizer.go:27-28 | a second pass changes nothing if and only if there is at most one word or no word made only of NULs |
| Sanitizer.OnePassIsNotEnough | internal/sanitizer/sanitizer.go:27-28 | a word made only of NULs between two words makes the first pass leave a doubled space |
| Sanitizer.CleanIffFixed | internal/sanitizer/sanitizer.go:32-34 | the fixed points of the whitespace and NUL stages are exactly the clean texts |
| Sanitizer.ServedIsClean | internal/service/comment_service.go:97-98 | what is sanitized at write and again at read is clean for every input |
| Sanitizer.SanitizeKeepsVisible | internal/sanitizer/sanitizer.go:21-30 | a pass keeps the visible characters that unescaping, tag stripping and normalisation leave, in order, and adds none |
| Sanitizer.SanitizeKeepsWords | internal/sanitizer/sanitizer.go:25-28 | without NULs it keeps their words |
| Sanitizer.SanitizeIsTail | internal/sanitizer/sanitizer.go:21-30 | where normalisation has nothing to do a pass is the tail of what tag stripping leaves: its words, NULs removed from each, joined by single spaces |
| Sanitizer.OnlyStrippedTextCounts | internal/sanitizer/sanitizer.go:22-24 | inputs that tag stripping makes equal are stored and served alike |
| Text.TrimSpaceSpec | internal/sanitizer/sanitizer.go:25 | trimming takes all white space off both ends and nothing else |
| Text.SpacesAre | internal/sanitizer/sanitizer.go:25-33 | white space is the 25 characters of the Unicode property |
| Sanitizer.TailKeepsVisible | internal/sanitizer/sanitizer.go:25-28 | a pass keeps the visible characters and their order |

## Left out

- HTTP routing, JSON, cookies, SMTP, configuration, CORS, CSRF, request validation and the migration runner: I/O or single-branch checks.
- bluemonday, HTML unescaping, Unicode normalisation, sqids, Argon2 and SHA-256 are parameters with the stated assumptions.
- RateLimiter.Limiter.Allow: models the bucket in exact scaled integers; the library's floating-point tokens and its rounding are not modelled, nor are rates or bursts below one.
- RateLimiterRuns.EvictionIsInvisibleIff: the clock is monotone; a clock that is set back is not modelled.
- RateLimiterBounds.RateIsBounded: one direction; close to the threshold the allowance for `slip` covers the tokens an early drop forges, so this bound can hold where buckets are dropped before they are full. The bound without allowance has its exact condition in `RateIsBoundedIff`.
- Stop, the channels and the ticker periods: a tick is an event that may come at any time.
- Moderation.Serializable: each request's clock readings and storage failures are chosen when it is spawned; a request that never takes another step stands for a crashed or stuck one.
- ModerationFacts.IdsAreNeverReused: the id counter is unbounded; exhausting 64-bit ids is not modelled. `cmd/seed`, which can reset the counter, is not part of this model.
- Repository.CommentRepository.RunQuery: a write between SELECT and the end of the row scan is not modelled.
- GetByID and GetByIDUnrestricted: single lookups; public ones are covered by `PublicReadsAreNamedIff`.
- The routing test in front of the limiter and the 429 response: requests that are not limited never reach the bucket.
- Responses.Serve: requests for `/health` and `/debug/vars`, which skip the logging writer, are not modelled; neither is a handler that recovers from its own panic.
- Password.VerifyPassword: the constant-time comparison is plain equality.
- Error positions and texts of the base64 decoder and the scanner.

# coldemail-engine core, modelled in Dafny

This project models the decision-making core of the coldemail-engine outbound
system:

- **A/B-test store** (`outbound_engine.py`, `ABTestManager`): the `tests`,
  `variants` and `sends` tables and how `create_test`, `record_send`,
  `record_open` and `record_reply` change them. It also covers the
  significance decision of `check_significance` and the line cleanup applied
  to generated copy.
- **Instantly.ai client** (`instantly.py`, `InstantlyClient`):
  - client-side rate limiting and Retry-After handling;
  - exponential backoff with jitter and the retry loop of `_request`;
  - `_extract_list` and offset/limit pagination;
  - `InstantlySync.sync_campaign_results`.
- **Lead importer** (`leads/importer.py`, `LeadImporter`): header mapping,
  e-mail validation, filtering of generic addresses, in-file deduplication,
  row processing and the counters of `ImportResult`.
- **Health monitor and recommendation** (`analytics.py`): the campaign-health
  and account-health alert rules and `_generate_recommendation`.

The project is split into these files:

| File | Contents |
|---|---|
| `wrappers.dfy` | `Option` and `Result` |
| `text.dfy` | the Python string operations the core relies on: `strip`, `split`, ASCII `lower`, `replace`, integer formatting |
| `outbound_engine.dfy` | the store as values (`Tables`) with one update function per operation, plus the class `ABTestManager` whose methods update the tables in place |
| `instantly.dfy` | the client's clock and the retry loop, specified by `Attempts`/`RequestSpec` and implemented by `InstantlyClient.Request`; also pagination |
| `instantly_sync.dfy` | the sync of opens and replies |
| `importer.dfy` | the importer: pure specification functions plus the class `LeadImporter` with its `_seen_emails` set |
| `analytics.dfy` | the alert rules and the recommendation |

Inputs the source reads from the outside world become parameters:

- the current time (`datetime.now()`, `time.time()`);
- generated test and send ids;
- the random jitter of each backoff;
- the HTTP exchange of each attempt;
- the response of each page;
- the chi-squared p-value computed by SciPy.

`get_variant_for_send` picks its variant nondeterministically, standing in for
`random.choice`.

Where one might expect a stricter store or client than the code implements,
the model follows the code:

- `record_open` and `record_reply` have no first-observation guard. Every call
  adds one to the counters (`OpensMayExceedSends`, `RecordOpenTwice`).
- `sync_campaign_results` only counts matching events. It writes nothing to
  the store and keeps no checkpoint.
- `create_test` accepts an empty variant list (`CreateTestEmpty`).
- When the runner-up's reply rate is 0 and the best is positive,
  `_generate_recommendation` divides by zero while formatting its message.
  The model returns `Failure(ZeroDivision)` there (`RecommendationVerdicts`).
- A 2xx reply whose body is not JSON is retried like a network failure.
  `response.json()` raises `requests.exceptions.JSONDecodeError`, which is a
  `RequestException` from requests 2.27 on, so the last `except` branch of
  `_request` catches it (`UndecodableBody`). With older requests the
  `ValueError` would escape `_request` instead.
- `check_significance` reaches `chi2_contingency` with any counts. SciPy
  raises `ValueError` on a negative entry of the table and on a zero
  expected frequency. Here that means more opens or replies than sends, no
  success at all, or nothing but successes. The model reports `TestRaised`
  for these (`Decide`, `NoRepliesRaises`, `OverCountRaises`).

## Model

| member | source | states |
|---|---|---|
| OutboundEngine.VariantRow.Incremented | outbound_engine.py:371-373 | exactly the named counter grows by one; id, test and content are kept |
| OutboundEngine.Rate | outbound_engine.py:72-77 | rate times sends equals successes when sends > 0; the rate is 0 otherwise |
| OutboundEngine.RateBounds | outbound_engine.py:72-77 | a rate lies in [0, 1] when successes do not exceed sends |
| OutboundEngine.EmailVariant.OpenRate | outbound_engine.py:71-73 | opens per send: the rate times sends equals opens when there are sends, 0 otherwise |
| OutboundEngine.EmailVariant.ReplyRate | outbound_engine.py:75-77 | replies per send: the rate times sends equals replies when there are sends, 0 otherwise |
| OutboundEngine.Take | outbound_engine.py:139 | Python slice `[:n]`: a prefix whose length follows Python's rule for negative and oversized `n` |
| OutboundEngine.NonBlank | outbound_engine.py:139 | the kept lines are non-empty, already stripped and never more than the input |
| OutboundEngine.NonBlankCount | outbound_engine.py:139 | the number of lines that are non-blank once stripped: at most the number of lines, and 0 when every line is blank |
| OutboundEngine.NonBlankLength | outbound_engine.py:139 | exactly one line is kept per non-blank input line |
| OutboundEngine.NonBlankDropsEmpty | outbound_engine.py:139 | keeping the non-blank lines is stripping every line and dropping the empty results, and the count of kept lines is the count of non-empty stripped lines |
| OutboundEngine.NonBlankComplete | outbound_engine.py:139 | no non-blank line is dropped: the non-blank line `i` is kept, stripped, at the position given by the number of non-blank lines before it |
| OutboundEngine.StripAll | outbound_engine.py:139 | line `k` of the result is the stripped line `k` |
| OutboundEngine.NonBlankInOrder | outbound_engine.py:139 | the kept lines are a subsequence of the stripped lines, in the original order |
| OutboundEngine.CleanLines | outbound_engine.py:138-139 | at most `num_variants` lines; each non-blank, stripped and free of newlines; a subsequence of the input's stripped lines |
| OutboundEngine.CleanLinesComplete | outbound_engine.py:138-139 | exactly `min(num_variants, k)` lines for the `k` non-blank lines (`max(0, k + num_variants)` for a negative count, as the slice gives), and each of the first ones at its own position |
| OutboundEngine.NonBlankSubsequenceNoNewline | outbound_engine.py:138-139 | a kept line contains no newline when no input line does |
| OutboundEngine.NonBlankFrom | outbound_engine.py:139 | every kept line is the strip of an input line, whose index it returns |
| OutboundEngine.VariantId | outbound_engine.py:323 | the id `f"{test_id}_v{i}"` (no contract of its own; `VariantIdInjective` states that it is injective in i) |
| OutboundEngine.VariantIdInjective | outbound_engine.py:323 | `f"{test_id}_v{i}"` gives different ids for different indices |
| OutboundEngine.RowsIn | outbound_engine.py:344-347 | the selected rows all belong to the test and are stored rows; every stored row of the test is selected |
| OutboundEngine.NewRows | outbound_engine.py:322-327 | one new row per content string, row `k` built from `contents[k]` with id `_v{k}` |
| OutboundEngine.InsertVariants | outbound_engine.py:322-327 | inserting variants leaves the `tests` and `sends` tables unchanged |
| OutboundEngine.Bump | outbound_engine.py:371-373 | an `UPDATE ... = x + 1` changes only the named row, and no row when the id is unknown |
| OutboundEngine.RowsInSameRows | outbound_engine.py:442-447 | the selection depends only on the rows listed in the order |
| OutboundEngine.RowsInNone | outbound_engine.py:344-353 | a test without rows selects nothing |
| OutboundEngine.RowsInFrom | outbound_engine.py:344-347 | every selected row is the stored row under some position of the insertion order |
| OutboundEngine.RowsInDistinct | outbound_engine.py:344-347 | an order without repeats, over rows filed under their own ids, selects rows with pairwise different ids |
| OutboundEngine.StoreRowsDistinct | outbound_engine.py:268 | `variant_id` is the primary key, so the rows read for one test of a well-formed store have pairwise different ids |
| OutboundEngine.AddVariantRows | outbound_engine.py:324-327 | an insert under a fresh id appends the row to its own test's selection and to no other |
| OutboundEngine.AddVariantWellFormed | outbound_engine.py:324-327 | an insert under a fresh id for a known test keeps the tables well formed |
| OutboundEngine.InsertVariantsRows | outbound_engine.py:322-327 | the inserts append exactly the new rows to the test's selection |
| OutboundEngine.InsertVariantsOtherRows | outbound_engine.py:322-327 | the inserts leave every other test's selection unchanged |
| OutboundEngine.InsertVariantsWellFormed | outbound_engine.py:322-327 | the inserts keep the tables well formed |
| OutboundEngine.CreateTestEffect | outbound_engine.py:295-332 | fails iff the test id or one generated variant id exists; on success the test is running without a winner, its rows are exactly the new rows, other tests and sends are untouched, and the store stays well formed |
| OutboundEngine.AfterCreateTest | outbound_engine.py:295-332 | fails iff the test id or a generated variant id is taken, with that error; on success the sends are untouched and the test id is added to the tests |
| OutboundEngine.AfterRecordSend | outbound_engine.py:359-378 | fails with the duplicate send id iff it is taken; on success the tests and the variant order are untouched and the send is recorded |
| OutboundEngine.AfterRecordOpen | outbound_engine.py:380-395 | tests, variant order and the key sets are untouched; a known send gets `opened_at` set to the time given; an unknown send changes nothing |
| OutboundEngine.AfterRecordReply | outbound_engine.py:397-424 | tests, variant order and the key sets are untouched; a known send gets reply time and sentiment; an unknown send changes nothing |
| OutboundEngine.CreateTestEmpty | outbound_engine.py:317-332 | an empty variant list still creates the test, with no rows |
| OutboundEngine.RecordSendEffect | outbound_engine.py:359-378 | a fresh send id adds exactly one send row with the given variant, address and time, not opened or replied to; every earlier send row and the tests are unchanged |
| OutboundEngine.RecordSendCounts | outbound_engine.py:371-373 | the named variant gains one send and keeps its other counters, content and test; every other variant and the order are unchanged |
| OutboundEngine.RecordOpenEffect | outbound_engine.py:380-395 | a known send gets `opened_at` set and keeps its other columns; its variant gains one open and keeps everything else; every other send and variant is unchanged |
| OutboundEngine.RecordOpenTwice | outbound_engine.py:380-395 | two opens of one send add two opens and keep the later timestamp; sends are unchanged |
| OutboundEngine.RecordUnknownSend | outbound_engine.py:380-424 | an unknown send id changes nothing, for both open and reply |
| OutboundEngine.RecordReplyEffect | outbound_engine.py:397-424 | one more reply; one more positive reply iff the sentiment is "positive"; the variant's sends, opens, content and test are kept; reply time and sentiment are recorded, the send's id, variant, email, sent and open times are kept; other sends, variants and the tests are unchanged |
| OutboundEngine.OpensMayExceedSends | outbound_engine.py:380-395 | one send opened twice yields opens 2 against sends 1 |
| OutboundEngine.Rates | outbound_engine.py:454-476 | one rate per row: opens or replies over sends, or 0 without sends |
| OutboundEngine.MinSends | outbound_engine.py:463 | `min(sends)`: a lower bound attained by some row |
| OutboundEngine.Max | outbound_engine.py:477 | `max(rates)`: an upper bound that occurs in the list |
| OutboundEngine.IndexOf | outbound_engine.py:477 | `list.index`: the first position of the value |
| OutboundEngine.RateMap | outbound_engine.py:485 | the rate map's keys are exactly the variant ids |
| OutboundEngine.RateMapAt | outbound_engine.py:485 | with distinct ids, each variant's own rate is stored under its id |
| OutboundEngine.SampleTooSmall | outbound_engine.py:463-467 | the "Need 50+ sends per variant (min: N)" reason naming the smallest send count (no contract of its own; `Decide` and `SmallSampleScenario` state when and with which N it is returned) |
| OutboundEngine.Decide | outbound_engine.py:450-486 | fewer than 2 variants, or fewer than 50 sends on some variant (message names the minimum), is not significant; otherwise the chi-squared test raises on a table it rejects; otherwise evaluated with `significant` iff p < 0.05, a winner only when significant, the first variant with the highest rate as the winner, and one rate per variant |
| OutboundEngine.OverCountRaises | outbound_engine.py:460-471 | a variant with more opens than sends makes the test raise |
| OutboundEngine.TableAccepted | outbound_engine.py:460-471 | the `[successes, failures]` tables `chi2_contingency` accepts: no negative cell, and some successes and some failures overall; `Decide` evaluates exactly on these |
| OutboundEngine.NoRepliesRaises | outbound_engine.py:460-471 | two variants without any reply make the test on replies raise |
| OutboundEngine.DecideRates | outbound_engine.py:476-485 | every variant's own rate is reported |
| OutboundEngine.SmallSampleScenario | outbound_engine.py:463-467 | two variants with 40 sends give "Need 50+ sends per variant (min: 40)" |
| OutboundEngine.ABTestManager.constructor | outbound_engine.py:250-293 | opening a well-formed database gives a manager over exactly those tables |
| OutboundEngine.ABTestManager.CreateTest | outbound_engine.py:295-332 | the tables become `AfterCreateTest` of the old tables and the test id is returned; on a key clash the error is returned and nothing changes |
| OutboundEngine.ABTestManager.VariantIdClash | outbound_engine.py:322-327 | true exactly when one of the variant ids `create_test` would insert already names a variant, which makes an insert fail |
| OutboundEngine.ABTestManager.InsertRows | outbound_engine.py:322-327 | the tables become `InsertVariants` of the old tables: one row per content string, in order |
| OutboundEngine.ABTestManager.GetVariantForSend | outbound_engine.py:334-357 | fails with "no variants" iff the test has none; otherwise returns the id and content of one of the test's variants |
| OutboundEngine.ABTestManager.RecordSend | outbound_engine.py:359-378 | the tables become `AfterRecordSend`; a duplicate send id fails and changes nothing |
| OutboundEngine.ABTestManager.RecordOpen | outbound_engine.py:380-395 | the tables become `AfterRecordOpen` and stay well formed |
| OutboundEngine.ABTestManager.RecordReply | outbound_engine.py:397-424 | the tables become `AfterRecordReply` and stay well formed |
| OutboundEngine.ABTestManager.CheckSignificance | outbound_engine.py:426-486 | the result is `Decide` on the test's rows, selected in insertion order; when evaluated, every variant of the test is reported with its own rate |
| Text.SkipSpaces | leads/importer.py:256 | the first position from `from` on that is not whitespace, or the end; everything skipped is whitespace |
| Text.BackSpaces | leads/importer.py:256 | the end once trailing whitespace is dropped; everything dropped is whitespace |
| Text.IsSpace | leads/importer.py:256 | Python's `isspace` set: the characters `strip` removes (no contract of its own; used by `Strip`, `SkipSpaces` and `BackSpaces`) |
| Text.Strip | leads/importer.py:256 | `str.strip`: no longer than the input, and neither starting nor ending with whitespace |
| Text.StripPiece | leads/importer.py:256 | the stripped string is the piece of the input from its first non-whitespace character, with only whitespace outside it |
| Text.StripKeeps | leads/importer.py:256 | stripping adds no characters |
| Text.StripIdempotent | outbound_engine.py:138-139 | stripping twice is stripping once |
| Text.Split | outbound_engine.py:138 | `str.split(sep)`: at least one part, and no part contains the separator |
| Text.Join | outbound_engine.py:138 | `sep.join`, the inverse of `Split` (no contract of its own; `JoinSplit` states the round trip) |
| Text.JoinSplit | outbound_engine.py:138 | joining the parts with the separator gives back the input |
| Text.LowerChar | leads/importer.py:265 | ASCII lower case of one character |
| Text.Lower | leads/importer.py:265 | lower-cases each character and keeps the length |
| Text.ReplaceAll | leads/importer.py:226 | `str.replace`: a text shorter than the pattern is kept; a text starting with the pattern starts with the replacement; a same-length replacement keeps the length and a shorter one never lengthens |
| Text.ReplaceCharAt | leads/importer.py:226 | replacing one character by another maps each position independently |
| Text.ReplaceAbsent | leads/importer.py:260 | replacing an absent pattern leaves the string unchanged |
| Text.NatToString | outbound_engine.py:323 | decimal digits only; one digit exactly for numbers below 10 |
| Text.NatToStringValue | outbound_engine.py:323 | the digits printed denote the number |
| Text.IntToString | outbound_engine.py:466 | `str(n)`: a minus sign exactly for negative numbers, followed by digits denoting the magnitude |
| Text.NatToStringInjective | outbound_engine.py:323 | different numbers print differently |
| Instantly.Retryable | instantly.py:30 | membership in `RETRYABLE_STATUS_CODES` = {429, 500, 502, 503, 504} (no contract of its own; `RetryableIsError`, `Stops` and `AttemptsEndOnReply` state how it drives the retries) |
| Instantly.RetryableIsError | instantly.py:30 | every retryable status is an error status that `raise_for_status` would raise for |
| Instantly.AfterRateLimit | instantly.py:116-130 | the next request waits until both the Retry-After deadline and 200 ms after the previous request have passed, then becomes the previous request |
| Instantly.AfterRetryAfter | instantly.py:137-147 | no header leaves the deadline; a seconds header sets it that many seconds ahead; any other value sets it 5 s ahead |
| Instantly.Pow2 | instantly.py:134 | `2**attempt` is positive |
| Instantly.BackoffDelay | instantly.py:134 | `min(10 s, 0.5 s * 2**attempt)`: between 0.5 s and 10 s, doubling up to attempt 4 and capped from attempt 5 |
| Instantly.PowMonotone | instantly.py:134 | powers of two grow with the exponent |
| Instantly.BackoffMonotone | instantly.py:132-135 | the backoff delay never shrinks with the attempt number |
| Instantly.AfterBackoff | instantly.py:132-135 | a backoff sleeps between 0.5 s and 10.25 s, jitter included |
| Instantly.Attempts | instantly.py:169-219 | the attempts from number `k` on; its properties are the `Attempts*` lemmas below |
| Instantly.Stops | instantly.py:185-210 | the attempts that end the request: a reply with a non-retryable error status, any error status on the final attempt, or a decodable non-error body; `FirstStopDecides` states that the first of them decides |
| Instantly.Ending | instantly.py:191-210 | what the ending attempt gives: `InstantlyAPIError` with the status and payload for an error status, else the decoded body |
| Instantly.RequestSpec | instantly.py:149-219 | a whole `_request` call: the attempts from 0; its properties are `RequestOutcome`, `AttemptBound` and `AttemptsSpacing` |
| Instantly.NumAttempts | instantly.py:169 | counts attempt events |
| Instantly.NumAttemptsAppend | instantly.py:169 | attempt counts add over concatenation |
| Instantly.AttemptsStep | instantly.py:185-217 | an attempt that neither raises nor ends the request is followed by exactly one backoff event when attempts remain and by none after the final one, and then by the next attempt's run, which decides the outcome |
| Instantly.AttemptsShape | instantly.py:169-217 | attempts and backoffs alternate, with increasing attempt numbers from `k` |
| Instantly.AttemptsCount | instantly.py:169 | between 1 and `max_retries - k` attempts when attempts remain, none otherwise |
| Instantly.AttemptBound | instantly.py:169-219 | never more than `max_retries` attempts; with no retries allowed the request fails at once without attempting |
| Instantly.AttemptsStart | instantly.py:169-170 | the first event is an attempt released by the rate limiter, exactly when attempts remain |
| Instantly.AttemptsEndOnReply | instantly.py:185-203 | an HTTP error or a success ends on the last attempt's reply; a retryable status ends the request only on the final attempt |
| Instantly.AttemptsExhausted | instantly.py:194-219 | running out of retries reports `max_retries` and the last network failure |
| Instantly.AttemptsUnsupported | instantly.py:181-182 | an unsupported method fails on the first attempt it makes |
| Instantly.RequestOutcome | instantly.py:149-219 | an HTTP error carries the status and payload of the attempt that ended the request; success carries its decoded body; exhaustion carries the final attempt's network failure; an unsupported method stops after one attempt |
| Instantly.AttemptsContinue | instantly.py:185-217 | an attempt that does not end the request is followed by its backoff and the next attempt |
| Instantly.FirstStopDecides | instantly.py:185-210 | the first attempt whose reply stops the retries decides the outcome, after exactly the attempts up to it, whatever the later scripted exchanges are |
| Instantly.NotFoundStopsAtOnce | instantly.py:191-210 | a 404 on the first attempt raises with status 404 after one attempt and no backoff, though timeouts follow in the script |
| Instantly.FirstGap | instantly.py:116-135 | between two consecutive attempts lie the backoff delay, the 200 ms spacing and any Retry-After wait |
| Instantly.AttemptsSpacing | instantly.py:116-217 | every pair of consecutive attempts in a request is spaced by at least the backoff delay, 200 ms and the Retry-After deadline |
| Instantly.AllNetworkFailures | instantly.py:194-219 | when every attempt times out or fails to connect, all `max_retries` attempts run and the error names the last failure |
| Instantly.AllNetworkFailuresFrom | instantly.py:194-219 | the same from any attempt `k` on |
| Instantly.TwoThrottlesThenSuccess | instantly.py:185-192 | two 429 replies and then a 200 give the body, with backoffs of 0.5 s and 1 s plus jitter |
| Instantly.InstantlyClient.constructor | instantly.py:98-110 | a fresh client has no previous request and no Retry-After deadline |
| Instantly.InstantlyClient.RateLimit | instantly.py:116-130 | the client clock becomes `AfterRateLimit` of the old one |
| Instantly.InstantlyClient.SleepBackoff | instantly.py:132-135 | the client clock becomes `AfterBackoff` of the old one |
| Instantly.InstantlyClient.HandleRetryAfter | instantly.py:137-147 | the client clock becomes `AfterRetryAfter` of the old one |
| Instantly.InstantlyClient.Request | instantly.py:149-219 | the loop returns the outcome of `RequestSpec` and leaves its clock |
| Instantly.ExtractList | instantly.py:221-225 | a list is returned as is; an object gives its `key`, else its "data", else an empty list; anything else has no `.get` |
| Instantly.Iterated | instantly.py:253 | what `for`/`yield from` iterates: a list's items, a string's characters, an object's member names; nothing iterable for null, booleans and numbers |
| Instantly.Truthy | instantly.py:250 | Python truthiness of a decoded value, the negation of `not items`: false for null, false, 0 and empty strings, lists and objects (no contract of its own; `TruthyObject` and `PageStep` state its use) |
| Instantly.TruthyObject | instantly.py:250-251 | for a decoded object whose member names agree with its members, `not items` is false exactly when it has a member |
| Instantly.PageStep | instantly.py:247-253 | a failed request stops with that failure; a response without `.get` stops with `NoListIn` exactly when `_extract_list` raises; a falsy extracted value stops the pagination; a truthy value stops as uniterable exactly when it cannot be iterated, and otherwise yields exactly what iterating it gives (never nothing) |
| Instantly.Paginate | instantly.py:231-257 | at most one request per scripted response |
| Instantly.PaginateYields | instantly.py:231-257 | the items yielded are the pages' items in order; every page before the last was full and non-empty; a short page ends the run |
| Instantly.PaginateItems | instantly.py:245-257 | the items yielded are the items of the pages requested, in request order |
| Instantly.PaginateFullPages | instantly.py:250-257 | every page before the last was full and non-empty |
| Instantly.PaginateStop | instantly.py:250-257 | a short page ends the run at the request that returned it; without one the run lasts as long as the responses |
| Instantly.PaginateSkips | instantly.py:244-255 | each request's `skip` is the number of items yielded before it |
| Instantly.PaginateScenario | instantly.py:231-257 | pages of 100, 100 and 37 items stop after the third page with skips 0, 100, 200; an empty third page stops there too |
| Instantly.PaginateNonListPages | instantly.py:244-257 | a string page yields its characters and an object page its member names, and `skip` advances by that many; a number page raises |
| Instantly.PaginateAt | instantly.py:244-257 | from request `i` on, the pagination is that request's page, stopping or followed by the pagination from request `i + 1` at the advanced `skip` |
| Instantly.ReadPage | instantly.py:247-251 | the checks on one response give exactly `PageStep` |
| Instantly.PaginateLoop | instantly.py:231-257 | the loop yields exactly what `Paginate` describes |
| Sync.Matches | instantly.py:440-441 | an event counts iff it is an object whose "email" is a mapped lead; an unhashable email or a non-object raises |
| Sync.CountMatches | instantly.py:439-442 | the count never exceeds the number of events; its exact value is stated by `CountMatchesExact` |
| Sync.CountMatchesAppend | instantly.py:439-442 | counts of consecutive stretches add up; a crash in the first stretch wins |
| Sync.CountMatchesTwice | instantly.py:439-442 | a repeated event list is counted twice, with no deduplication |
| Sync.CountMatchesAll | instantly.py:439-442 | when every event matches, all of them are counted |
| Sync.CountMatchesExact | instantly.py:439-451 | the count completes iff every event can be read, and then equals the number of positions whose event is an object with a mapped email; repeated events count each time, others not at all |
| Sync.CountMatchesNone | instantly.py:439-451 | when no event has a mapped email, the count is 0 |
| Sync.OpenEvents | instantly.py:370-371 | a list or an object's "activities" list is iterated; a response that is neither a list nor an object raises |
| Sync.SyncSpec | instantly.py:419-455 | completes iff every open and reply read is an event and the pagination raises only API errors; then opens synced is the count of mapped open events (0 when that fetch failed), replies synced the count of mapped replies yielded, and the errors are exactly one per failed fetch, opens first |
| Sync.FailureIsolation | instantly.py:437-453 | a failed opens fetch gives zero opens and one leading error and leaves the replies part as it would otherwise be; a replies fetch failing after some pages keeps those replies and adds its error last |
| Sync.CountEvents | instantly.py:439-442 | the counting loop computes `CountMatches` |
| Sync.SyncCampaignResults | instantly.py:419-455 | the sync computes `SyncSpec` |
| Importer.Normalize | leads/importer.py:226 | a normalised header contains no space |
| Importer.TargetField | leads/importer.py:228-232 | a header whose normalised form is a mapping key maps to that key's field; any other maps to `custom_` followed by its normalised form |
| Importer.HeaderMap | leads/importer.py:221-234 | one entry per header of the file and no other; `HeaderMapValues` states each entry |
| Importer.HeaderMapValues | leads/importer.py:221-234 | a header's entry is the mapped field of its normalised form when that form is a key, else `custom_` followed by the normalised form |
| Importer.CustomMappingWins | leads/importer.py:159-161 | with the importer's mappings, a custom mapping of a normalised header wins over the default, a header without one keeps its default, and an unmapped one becomes custom |
| Importer.HeaderMapSnoc | leads/importer.py:225-232 | each header maps to its own target, independently of the other headers |
| Importer.TargetFieldIgnoresCase | leads/importer.py:226-232 | headers equal after lower-casing and stripping map to the same field |
| Importer.IndexOf | leads/importer.py:129-131 | the first position of a character, or the length when absent |
| Importer.LastIndexOf | leads/importer.py:129-131 | the last position of a character, or -1 when absent |
| Importer.ValidEmailIsRegex | leads/importer.py:129-131 | the executable check accepts exactly what the `EMAIL_REGEX` match accepts, a trailing newline included |
| Importer.ValidEmail | leads/importer.py:309-311 | the executable `_validate_email`; `ValidEmailIsRegex` states that it accepts exactly what the regex accepts |
| Importer.RegexAccepts | leads/importer.py:129-131 | what `EMAIL_REGEX.match` accepts: the whole address has the shape, or all of it but a final newline does |
| Importer.ShapeDeterminesSplit | leads/importer.py:129-131 | an accepted address splits at its first `@` and its last `.` |
| Importer.ValidEmailOneAt | leads/importer.py:129-131 | an accepted address has exactly one `@` |
| Importer.ValidStrippedHasNoNewline | leads/importer.py:129-131 | a stripped accepted address contains no newline |
| Importer.GenericPlain | leads/importer.py:134-145 | without a newline, an address is generic iff it ends in a throwaway domain or starts with a role prefix, ignoring case |
| Importer.IsGenericEmail | leads/importer.py:134-145 | a case-insensitive match of a throwaway domain at the end or a role prefix at the start; `GenericPlain` states it as plain suffix and prefix tests |
| Importer.GenericRoleAddress | leads/importer.py:141 | "Info@acme.io" is generic |
| Importer.GenericThrowawayDomain | leads/importer.py:135 | "jane@example.com" is generic |
| Importer.PersonalAddressNotGeneric | leads/importer.py:134-145 | "jane@acme.io" is not generic |
| Importer.MapRow | leads/importer.py:247-262 | standard fields never carry the custom prefix; custom fields are never empty |
| Importer.MapRowFieldsStep | leads/importer.py:251-262 | each column overwrites its standard field with its stripped value |
| Importer.MapRowLastWins | leads/importer.py:251-262 | a field's value comes from the last column mapped to it |
| Importer.MapRowHasField | leads/importer.py:251-262 | a column mapped to a standard field always sets it, empty values included |
| Importer.MapRowCustomStep | leads/importer.py:251-260 | each column with a non-empty custom cell overwrites its custom key; other columns leave the custom fields alone |
| Importer.MapRowCustomLastWins | leads/importer.py:251-260 | a custom key is a custom field name with every `custom_` removed, and holds the stripped cell of the last non-empty column under it |
| Importer.MapRowHasCustom | leads/importer.py:251-260 | every non-empty custom cell puts its key among the custom fields |
| Importer.ProcessRowSpec | leads/importer.py:236-307 | the seen set only grows, and at most by the row's lower-cased address |
| Importer.RowStepEffect | leads/importer.py:264-280 | the address is added to the seen set iff it passes the format and generic checks; duplicate iff it passes them and was seen; an accepted prospect carries the new address |
| Importer.LowerIdempotent | leads/importer.py:265 | lower-casing twice is lower-casing once |
| Importer.AcceptedProspect | leads/importer.py:264-307 | an accepted prospect has a valid lower-case new address, is not generic when skipping, takes first name, last name and company (all non-empty) and title, industry, company size and LinkedIn URL from the row's mapped fields, and carries the row's custom fields, or None exactly when there are none |
| Importer.SeenBeforeNameChecks | leads/importer.py:277-294 | a row rejected for a missing name or company still marks its address seen, so a later row with that address is a duplicate |
| Importer.RowEmail | leads/importer.py:265 | `mapped.get("email", "").lower()` on the mapped row (no contract of its own; `RowEmailOutcome` and `CheckOrder` state how it is checked) |
| Importer.ErrorMessage | leads/importer.py:267-294 | the `ValidationError` text of each rejection, with the address appended for a bad format or a generic address (no contract of its own) |
| Importer.RowEmailOutcome | leads/importer.py:264-294 | a row failing an email check is rejected for the first check it fails; a row passing them ends as a duplicate, an import or a missing-name or missing-company rejection |
| Importer.EmailChecksInOrder | leads/importer.py:267-274 | given that shape, each email check fails exactly when the outcome names it |
| Importer.CheckOrder | leads/importer.py:267-274 | missing e-mail, then bad format, then generic address, each checked in that order and each an if-and-only-if |
| Importer.NameChecks | leads/importer.py:282-307 | the checks after the address is recorded leave the seen set as it is, never report a duplicate, and an accepted prospect carries the recorded address |
| Importer.NameChecksInOrder | leads/importer.py:283-294 | once the address is new and passes its checks: missing first name, then missing last name, then missing company, each reported iff every earlier check passed; accepted iff all three are present |
| Importer.Record | leads/importer.py:199-217 | one more row processed; earlier prospects and errors are kept as a prefix |
| Importer.RecordCounts | leads/importer.py:199-217 | each row increments exactly one counter, appends a prospect iff imported and an error iff invalid, and the error carries the row number |
| Importer.ImportLoop | leads/importer.py:199-217 | the row loop with the row decision as a parameter; its properties are `ImportCounts` and `ImportRowNumbers` |
| Importer.ImportRows | leads/importer.py:199-217 | the row loop of `import_csv` with `_process_row` as the decision; `ImportCounts`, `TotalIsRowCount` and `ImportedEmails` state its properties |
| Importer.ImportLoopLast | leads/importer.py:199-217 | the result after a row is the result before it with that row's outcome recorded under its number |
| Importer.CountsStep | leads/importer.py:199-217 | recording a row keeps the counters adding up to the rows seen, one prospect per import and one error per invalid row |
| Importer.ImportCounts | leads/importer.py:199-217 | whatever each row's decision, imported, duplicates and invalid add up to the number of rows; one prospect per import; one error per invalid row |
| Importer.ImportRowNumbers | leads/importer.py:199-216 | whatever each row's decision, every error's row number lies between 2 and the number of rows + 1 |
| Importer.TotalIsRowCount | leads/importer.py:49-51 | `total_processed` equals the number of data rows |
| Importer.TotalProcessed | leads/importer.py:49-51 | imported plus duplicates plus invalid; `TotalIsRowCount` states that it is the row count |
| Importer.ImportRowsStep | leads/importer.py:199-217 | the import of the first `i + 1` rows is one row step after the import of the first `i` |
| Importer.ExtendProspects | leads/importer.py:277-280 | appending a prospect with a new valid lower-case address keeps the addresses valid, lower case, distinct and seen |
| Importer.ImportedEmails | leads/importer.py:264-280 | imported addresses are valid, lower case, pairwise distinct and all in the seen set |
| Importer.AcceptedThenDuplicate | leads/importer.py:276-280 | once a row is accepted, the same row against the seen set it left is a duplicate |
| Importer.ImportTwoRows | leads/importer.py:199-217 | two rows are decided in order, the second against the seen set the first left, and both are recorded |
| Importer.RepeatedRow | leads/importer.py:277-278 | the same good row twice gives one import and one duplicate |
| Importer.MissingRequired | leads/importer.py:343-348 | a required column is missing iff no header maps to it |
| Importer.LeadImporter.constructor | leads/importer.py:147-164 | custom mappings override the built-in ones; the seen set starts empty |
| Importer.LeadImporter.MapHeaders | leads/importer.py:221-234 | the map is `HeaderMap` and has exactly the file's headers as keys |
| Importer.LeadImporter.ProcessRow | leads/importer.py:236-307 | outcome and new seen set are those of `ProcessRowSpec` |
| Importer.LeadImporter.ImportCsv | leads/importer.py:166-219 | no header row fails; otherwise the seen set is cleared and the result is `ImportRows` over the mapped headers |
| Importer.LeadImporter.ProcessRows | leads/importer.py:199-217 | the row loop computes `ImportRows` |
| Analytics.When | analytics.py:273-303 | an alert is appended iff its condition holds, and nothing else is appended |
| Analytics.Get | analytics.py:268 | `dict.get` returns the stored value for a present key and the default for a missing one |
| Analytics.Percent | analytics.py:273-295 | `part / sends * 100` (no contract of its own; the three threshold lemmas state its comparisons with the thresholds) |
| Analytics.BounceThresholdCross | analytics.py:273-274 | bounce rate above 5 % iff 100 * bounces > 5 * sends |
| Analytics.OpenThresholdCross | analytics.py:284-285 | open rate below 15 % iff 100 * opens < 15 * sends |
| Analytics.ReplyThresholdCross | analytics.py:295-296 | reply rate below 1 % iff 100 * replies < sends |
| Analytics.CampaignAlerts | analytics.py:256-311 | one to three alerts; only "No sends yet" without sends |
| Analytics.CampaignAlertsOrder | analytics.py:256-311 | the alerts come in the order the checks run |
| Analytics.CampaignAlertsRaised | analytics.py:273-309 | high bounce iff rate > 5 %; low open iff rate < 15 % and sends > 100; low reply iff rate < 1 % and sends > 200; "ok" iff none of them |
| Analytics.CheckCampaignHealth | analytics.py:256-311 | the method returns `CampaignAlerts` |
| Analytics.NearLimitThreshold | analytics.py:329 | `sent_today >= daily_limit * 0.9` iff 10 * sent >= 9 * limit |
| Analytics.AccountAlerts | analytics.py:313-362 | one to three alerts |
| Analytics.AccountAlertsOrder | analytics.py:313-362 | the alerts come in the order the checks run |
| Analytics.AccountAlertsRaised | analytics.py:326-360 | near limit iff sent >= 90 % of the limit; warming iff day < 14; low reputation iff < 80; declining iff 80 <= reputation < 95; healthy iff none |
| Analytics.AccountDefaults | analytics.py:326-360 | empty stats give only "still warming (day 0)" |
| Analytics.CheckSendingAccountHealth | analytics.py:313-362 | the method returns `AccountAlerts` |
| Analytics.Max | analytics.py:227 | `max(rates)`: an upper bound that occurs in the list |
| Analytics.MaxIndex | analytics.py:227-228 | the first position of the maximum |
| Analytics.SecondLargest | analytics.py:228 | `sorted(rates, reverse=True)[1]` never exceeds the maximum |
| Analytics.SecondLargestRank | analytics.py:227-228 | maximum and runner-up sit at two different positions, and every other rate is at most the runner-up |
| Analytics.SecondLargestTie | analytics.py:228 | a tied maximum is also the runner-up |
| Analytics.RoundHalfEven | analytics.py:231 | Python `round`: within 0.5, and ties go to the even integer |
| Analytics.GenerateRecommendation | analytics.py:219-235 | under 200 sends keep testing; with fewer than two variants, insufficient data |
| Analytics.ClearLead | analytics.py:230 | `best > 0 and (best - second) / best > 0.2` (no contract of its own; `ClearLeadCross` states it without division) |
| Analytics.Message | analytics.py:221-235 | the string returned for each verdict, the strong-signal percentage written with `str` (no contract of its own) |
| Analytics.ClearLeadCross | analytics.py:230 | `best > 0 and (best - second) / best > 0.2` iff best > 0 and 4 * best > 5 * second |
| Analytics.RecommendationVerdicts | analytics.py:226-233 | with at least two rates: division by zero iff best > 0 and runner-up 0; strong signal iff a clear lead over a non-zero runner-up; "close" iff no clear lead |
| Analytics.TieIsClose | analytics.py:227-233 | a tie for the best rate is always "results are close" |

## Left out

- SQLite is modelled as three in-memory maps. Left out:
  - the DDL of `_init_db` (outbound_engine.py:250-293), beyond the empty tables;
  - connections, commit and the `OperationalError` paths.

  A violated primary key becomes a `Failure` and leaves the tables unchanged.
- `get_test_results` (outbound_engine.py:488-507) is not modelled because it is a pandas/SQL report. The `ROUND(..., 1)` percentages it computes are not modelled.
- The LLM calls of `CopyGenerator` are not modelled. Only the cleanup of their text (outbound_engine.py:138-139, 178-179) is.
- The chi-squared statistic of `stats.chi2_contingency` is not modelled. Its p-value is a parameter of `Decide`; only the tables it refuses are modelled.
- Real wall-clock time is not modelled. The client clock is integer milliseconds that only the sleeps advance, so time spent inside an HTTP exchange is taken as zero.
- Sub-millisecond jitter is not modelled. The jitter of `random.uniform(0, 0.25)` is an integer number of milliseconds in [0, 250].
- HTTP, JSON decoding and timeouts are not modelled; each attempt's result is an input. Left out:
  - that decoding names each object member exactly once: `Instantly.KeysAgree` states it, but responses are not required to satisfy it;
  - JSON numbers other than integers;
  - HTTP-date Retry-After values, which are treated as "not seconds", as the code does.
- `Instantly.Paginate`: running out of scripted responses is a stop of the model. The real loop would make another request there.
- Exceptions other than `InstantlyAPIError` that escape `sync_campaign_results` become `SyncCrash` values instead of propagating.
- CSV parsing, file existence, encodings and the BOM are not modelled. A file is its header list (absent when there is none) and its rows as (header, value) pairs.
- A CSV with two identical header names is not modelled: `csv.DictReader` keeps only the last value for such a name, and the model keeps every pair.
- `Text.Lower`: only ASCII letters are lower-cased. Python's `str.lower` and `re.IGNORECASE` also fold non-ASCII letters.
- The `Prospect` dataclass and its `to_context` are not modelled beyond the fields the importer fills.
- `validate_file`'s sampling of the first five rows (leads/importer.py:351-360) and its file errors are not modelled. Only its required-column check is (`MissingRequired`).
- The `import_from_*` helpers are not modelled because they are thin wrappers.
- Alert messages are not modelled. Each alert keeps the values its message and `value` field show, but not the text, and not the float formatting or `round(…, 2)` of `value`.
- Alert levels are modelled by `LevelOf`, which no contract states.
- Statistics are integers, and rates and percentages are exact reals. Float rounding is not modelled.
- The `spam_rate` threshold is not modelled because no alert rule reads it.
- NaN and infinite reply rates in `_generate_recommendation` are not modelled.
- `Analytics.GenerateRecommendation`: the percentage in the strong-signal message is `RoundHalfEven((best - second) / second * 100)`. Beyond the rounding contract of `RoundHalfEven`, no lemma states its value.
- The report builders of `analytics.py` other than `_generate_recommendation` are not modelled because they are pandas formatting.
- `get_account_health` is not modelled because it is a pandas report.
- The campaign and lead endpoints of `InstantlyClient` other than `_request`, `_extract_list`, `_paginate`, `get_lead_activity` and `iter_replies` are not modelled. They are one-line wrappers around `_request`.

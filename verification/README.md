# Deactivating the users of a list of addresses

A Dafny model of `deactivate_users.py`. This script runs one reconciliation pass against a Smartsheet account:

- it lists every user of the account, page by page;
- it reads a CSV file of e-mail addresses and sorts each address into one of three cases:
  - a user of the account, which is put on the worklist;
  - missing but in a controlled domain (the `DOMAINS` setting), which is invited and then put on the worklist;
  - outside control, which is skipped;
- it deactivates the worklist in order;
- it appends one row per successful deactivation to the audit file `processed_users.csv`.

A rate-limited list call or add-user call is retried with exponential backoff. The delays start at 2 and double, for at most seven retries, and the code gives up if the doubled delay exceeds 300. A deactivation POST is not retried that way: a rate-limit answer is just a body that does not say SUCCESS, which gets one immediate second POST and then counts as a failure.

No remote call, file or clock is modelled directly. Each one becomes data given to the model:

- **Listing.** The listing endpoint is a directory (`seq<User>`) that it pages through in pages of 1000. A script of `Signal`s says whether each list call was served, rate-limited or failed. Calls past the end of the script are served.
- **Invites.** Add-user calls are answered by a function of (data record, attempt).
- **Deactivation POSTs.** These are answered by a function of (worklist entry, POST number). An answer is a decoded body holding an optional `message`, or `Unreadable` for any exception from the POST or from decoding.
- **Time stamps.** The time stamp of worklist entry `k` is `clock(k)`.
- **Input and audit files.** The input file is `None` (missing) or its records. The audit file is a sequence of `Row`s, and the model returns the file as it is afterwards.
- **Sleeps.** `time.sleep` is not performed. The listing returns its delays as a list in `Listing.sleeps`, and `Calls.InviteSleeps` gives the list of delays of one `invite_user` call.

The model follows Python's semantics where they matter:

- An exception raised inside an `except` handler is not caught by a sibling handler of the same `try`, so it leaves the function.
- An address without `@` makes `email.split("@")[1]` raise `IndexError`.
- An empty record makes `user[0]` raise.
- An empty input file makes `next(users)` raise `StopIteration`.
- The retry path of `invite_user` returns a bare `True`, and `new_user.id` then raises `AttributeError`.

None of these exceptions is caught in `process_users`. Each one ends the run before the audit file is opened, and the model records such a run as `Aborted`. A user id of 0 is falsy in `if user_id:`, so that user is silently dropped.

Modules, one per concern of the script:

- `Text`: `split`, `join`, and the first index of a character.
- `Backoff`: the retry loop that appears three times in the script.
- `Directory` and `ListingFacts`: `get_all_users`, and what it guarantees.
- `Classifier`: the `DOMAINS` setting, the domain of an address, and the three-way decision.
- `Calls`: `invite_user` and `deactivate_user`.
- `Reconcile`: building the worklist.
- `Audit`: the deactivation loop and the audit rows.
- `Batch`: `process_users` as a whole.

In several places the code does something other than what its comments and messages suggest. The model follows the code:

- **Backoff cap.** The comment "5 minute max" and the assignment `backoff_time = 300` read like a clamp followed by one more attempt. The code instead returns at once when the doubled delay exceeds 300. Starting from 2, that branch can never be reached (`Backoff.BurstSchedule`).
- **Partial listings.** `get_all_users` returns the bare list whether it reached the end of the data, hit an error, or gave up after seven retries, so a partial listing looks like a complete one. The model's `Listing.end` tells the cases apart, but `process_users` ignores it, as the code does.
- **Listing before reading the input.** A missing input file is detected only after the whole account has been listed (deactivate_users.py:169 runs before line 178). The model lists first too.
- **Page requests.** The listing asks for one more page when the number of users `N` is a multiple of 1000, including `N = 0`: `N / 1000 + 1` requests in all, not `ceil(N / 1000)` (`ListingFacts.PlainListing`).
- **Errors for one address.** Several errors raised for a single address are not contained to that address and end the whole run: a malformed address, an empty record, a bare `True` from an invite retry, and an exception escaping a retry handler.

## Model

| member | source | states |
|---|---|---|
| Text.Split | deactivate_users.py:13 | `str.split` gives at least one piece, none of them containing the separator; exactly one piece iff the separator does not occur; the first piece is the longest separator-free prefix |
| Text.JoinSplit | deactivate_users.py:13 | joining the pieces of a split with the separator gives back the original text |
| Text.SplitJoin | deactivate_users.py:13 | splitting a join of separator-free pieces gives back exactly those pieces |
| Text.SplitAfterFirst | deactivate_users.py:184 | the pieces after the first are exactly the pieces of the text after the first separator |
| Classifier.ParseDomains | deactivate_users.py:13 | `DOMAINS` yields no domains iff it is unset or empty; otherwise the comma-separated pieces, untrimmed, none holding a comma, joining back to the setting |
| Classifier.DomainOf | deactivate_users.py:184 | the domain exists iff the address has an '@'; it is the text after the first '@', up to the next '@' or the end |
| Classifier.FirstMatch | deactivate_users.py:189 | the position of the first user with exactly this address, or none iff no user has it |
| Classifier.FirstMatchFound | deactivate_users.py:189 | a first match depends only on the users up to it: a longer snapshot that agrees on the first users finds it at the same place |
| Classifier.Classify | deactivate_users.py:182-202 | malformed iff no '@'; present iff listed, with the id of the first matching user; controlled iff unlisted and the domain is in `DOMAINS`; outside iff unlisted and the domain is not |
| Classifier.FirstMatchCovered | deactivate_users.py:172-189 | repeating users already in the snapshot does not move the first match |
| Classifier.ClassifyCovered | deactivate_users.py:172-202 | repeating users already in the snapshot does not change any address's classification |
| Backoff.Retry | deactivate_users.py:40-59 | from retry `a` with delay `2^(a+1)`: at most `7 - a` sleeps, the i-th of them `2^(a+i+1)`, and the cap branch is never taken |
| Backoff.UnderCap | deactivate_users.py:54-58 | after a refused retry the doubled delay is at most 256, below the 300 cap |
| Backoff.RetryStopsAtFirstNonRefusal | deactivate_users.py:41-59 | the loop stops at the first retry not refused and reports its answer or exception; it reports exhaustion iff all remaining retries are refused, and then it has slept once per retry |
| Backoff.RetryBurst | deactivate_users.py:40-59 | a burst entered after a rate limit makes at most seven retries, sleeps `2^(i+1)` before retry `i`, and never ends at the cap |
| Backoff.BurstSchedule | deactivate_users.py:40-57 | a burst makes at most 7 retries; the delays are 2, 4, 8, ... in turn, all between 2 and 128, below the 300 cap, so the early return at the cap is unreachable |
| Backoff.AllRefusedExhausts | deactivate_users.py:40-59 | seven refused retries sleep exactly 2, 4, 8, 16, 32, 64, 128 and then give up |
| Directory.PageOf | deactivate_users.py:33-35 | a page holds at most 1000 users and is the next slice of the directory; it is short iff fewer than 1000 users remain from its start, and a short page runs to the end of the directory (a full page may also end exactly at the end) |
| Directory.Walk | deactivate_users.py:31-37 | the listing never ends at the cap, and its first call asks for the page it starts from |
| Directory.Throttle | deactivate_users.py:38-59 | the rate-limit handler never ends at the cap, and the first call it records is the rate-limited call for the current page |
| Directory.ListAllUsers | deactivate_users.py:26-63 | `get_all_users` as written: it never ends at the cap and its first call asks for page 1 (its other guarantees are in the `ListingFacts` rows) |
| Directory.ListAllUsersFixed | deactivate_users.py:26-63 | `get_all_users` with a short page served by a retry ending the listing: it never ends at the cap and its first call asks for page 1 |
| ListingFacts.PlainWalk | deactivate_users.py:31-37 | with every call served from page `p` on: all users, pages `p`, `p+1`, ... up to the first short page, no sleeps |
| ListingFacts.PlainRequests | deactivate_users.py:31-37 | with every call served from page `p` on: the listing ends at the end of data after asking for pages `p`, `p+1`, ..., `N / 1000 + 1` in order |
| ListingFacts.PlainListing | deactivate_users.py:26-37 | with every call served: every user exactly once and in page order, `N / 1000 + 1` requests for pages 1, 2, 3, ..., no sleeps, ending at the end of data |
| ListingFacts.UnthrottledWalk | deactivate_users.py:31-62 | without rate limits from page `p` on: a prefix of the directory, no sleeps, the whole directory when ending at the end of data, and exactly the pages before the failed call when ending on an error |
| ListingFacts.UnthrottledPrefix | deactivate_users.py:31-62 | without rate limits from page `p` on, the users returned are a prefix of the directory, the whole of it at the end of data |
| ListingFacts.UnthrottledEnd | deactivate_users.py:31-62 | without rate limits the listing never sleeps and ends only at the end of data or on an error |
| ListingFacts.UnthrottledError | deactivate_users.py:60-62 | without rate limits, a listing that ends on an error returns exactly the users of the pages before the one whose call failed |
| ListingFacts.UnthrottledListing | deactivate_users.py:26-63 | without rate limits: no sleeps; the whole directory at the end of data; after an error, exactly the users of the pages before the failed call (`(k - 1) * 1000` users after `k` calls) |
| ListingFacts.AppendPage | deactivate_users.py:34 | appending the current page keeps the listing a prefix of the directory or a covering of it |
| ListingFacts.WalkEchoes | deactivate_users.py:31-37 | from any reachable loop state, the listing as written is a prefix of the directory or covers it with repeats |
| ListingFacts.ThrottleEchoes | deactivate_users.py:38-59 | from any reachable loop state, the rate-limit handler as written yields a prefix of the directory or a covering of it |
| ListingFacts.ListingEchoes | deactivate_users.py:26-63 | the listing as written is a prefix of the directory, or the whole directory followed by repeats of its users; always the latter at the end of data; after an error or spent retries it holds what was gathered before the page last asked for: the pages before it, or, back on the last page, the covered directory |
| ListingFacts.FixedWalkPrefix | deactivate_users.py:31-59 | with the retry break fixed, from page `p` on: a prefix of the directory, the whole of it at the end of data |
| ListingFacts.FixedThrottlePrefix | deactivate_users.py:38-59 | with the retry break fixed, the rate-limit handler yields a prefix of the directory, the whole of it at the end of data |
| ListingFacts.WalkStops | deactivate_users.py:31-62 | from any state the loop can reach, with or without rate limits, a listing that stops on an error or after spending its retries returns the users gathered before the page it was asking for |
| ListingFacts.ThrottleStops | deactivate_users.py:38-62 | the same for the rate-limit handler: giving up after seven refused retries, or an error after a served retry, keeps everything gathered so far |
| ListingFacts.FixedListingIsPrefix | deactivate_users.py:26-63 | with the retry break fixed, every listing is a prefix of the directory (each user at most once), the whole directory at the end of data, and after an error or spent retries exactly the pages before the page last asked for |
| ListingFacts.ThrottledShortListingRepeats | deactivate_users.py:44-47 | a directory under one page whose first call is rate-limited is listed twice as written, and once with the fix |
| ListingFacts.GiveUpKeepsAccumulated | deactivate_users.py:38-59 | eight rate limits in a row: the same page asked for eight times, sleeps 2 to 128, and the users gathered so far returned unchanged |
| Calls.InviteUser | deactivate_users.py:66-107 | a user is returned iff the first add-user call says SUCCESS, and it is that call's user; the bare `True` and an escaping exception arise only after a rate limit |
| Calls.InviteAfterRateLimit | deactivate_users.py:80-104 | after a rate-limited first call: no user is returned; `False` iff all seven retries are refused; the bare `True` only after a retry that said SUCCESS; an escaping exception only after a retry that raised one |
| Calls.InviteSleeps | deactivate_users.py:80-103 | `invite_user` sleeps only after a rate-limited first call, then at most seven delays, the i-th being `2^(i+1)` |
| Calls.InviteSleepsPerRetry | deactivate_users.py:80-103 | after a rate-limited first call there is one sleep per retry made: every retry before the last was refused, the last is not refused unless all seven were and `False` is returned |
| Calls.DeactivateUser | deactivate_users.py:110-130 | success iff some POST issued said SUCCESS; one or two POSTs, the second one issued iff the first was read and did not say SUCCESS |
| Calls.DeactivateSuccessRule | deactivate_users.py:113-130 | success iff the first response says SUCCESS, or it was read and the immediate second one does; any exception means failure |
| Reconcile.RowEffect | deactivate_users.py:182-202 | a record crashes the run iff it is empty, has no '@', or is controlled and its invite ends in the bare `True` or an exception; a queued entry carries the record's address and either the nonzero id of the first listed user with that address or the id of the user an invite returned; it is skipped iff it is unlisted with a domain outside `DOMAINS` |
| Reconcile.ListedIsQueued | deactivate_users.py:188-191 | a listed address whose first matching user has a nonzero id is queued with that id, without an invite |
| Reconcile.InvitedIsQueued | deactivate_users.py:192-197 | a missing address of a controlled domain whose first add-user call says SUCCESS is queued, as invited, with the id of the user that call returned |
| Reconcile.Assemble | deactivate_users.py:182-206 | the run gets a plan iff no record crashes; each record adds at most one worklist entry or skip; there are no more invites than worklist entries |
| Reconcile.BuildPlan | deactivate_users.py:182-202 | the `for user in users` loop yields a plan iff no record's effect crashes the run; at most one worklist entry or skip per record, and no more invites than worklist entries |
| Reconcile.AssembleAppend | deactivate_users.py:182-202 | the plan of two runs of effects is the plan of the first followed by that of the second |
| Reconcile.BuildPlanAppend | deactivate_users.py:182-202 | the worklist, invites and skips follow the input order: the plan of `xs + ys` is the plan of `xs` followed by that of `ys` |
| Reconcile.SingleRecord | deactivate_users.py:182-202 | one record contributes at most one worklist entry, invite and skip, exactly the ones its effect names |
| Reconcile.BuildPlanCovered | deactivate_users.py:172-202 | a snapshot that repeats users of the directory gives the same plan as the directory itself |
| Audit.Logged | deactivate_users.py:215-224 | one row per success, each a "Deactivated" record |
| Audit.LoggedExactlySuccesses | deactivate_users.py:215-224 | every row written belongs to a worklist entry that was deactivated, and every deactivated entry has its row with its address, id and time stamp |
| Audit.LoggedInOrder | deactivate_users.py:215-224 | the rows come in worklist order: the row of deactivated entry `k` sits right after the rows of the successes before it, and carries that entry's address, id and time stamp |
| Audit.FailuresWriteNothing | deactivate_users.py:220-224 | when every deactivation fails, no row is written |
| Audit.DeactivateAll | deactivate_users.py:210-224 | the audit file is only appended to: a header iff it was empty, then the rows of the successes in worklist order; each outcome is `deactivate_user` for that entry |
| Batch.ProcessUsers | deactivate_users.py:166-224 | the listing is `get_all_users`; the run stops on a missing input file iff the listing did not raise and the file is absent; a run that does not complete leaves the audit file unchanged; a completed run's plan is the one the records give over the listed users and `DOMAINS`, each outcome is `deactivate_user` for that entry, and the file gets a header iff it was empty, then exactly the rows of the successes in worklist order; the run completes iff the listing did not raise, the input file exists and is non-empty, and no record raises |
| Batch.CompletedRun | deactivate_users.py:166-224 | a run whose listing did not raise and whose records all pass goes through the whole worklist and appends the header-iff-empty and the rows of the successes |
| Batch.RerunAppendsAgain | deactivate_users.py:210-224 | a second run on the same input and account makes the same decisions and appends the same rows again, with no second header |
| Batch.RepeatedPageIsHarmless | deactivate_users.py:44-47 | when the listing reaches the end of data, the duplicated last page does not change the plan |
| Batch.DomainOfSimple | deactivate_users.py:184 | the domain of an address with a single '@' is everything after it |
| Classifier.SingleDomain | deactivate_users.py:13 | a non-empty `DOMAINS` setting without a comma is a single domain, exactly as written |
| Batch.EndToEndScenario | deactivate_users.py:166-224 | a listed address, a missing controlled one and an outside one, all calls SUCCESS: the first two are deactivated (the second after an invite), the third is skipped, and the audit file holds the header and two rows |

## Left out

- The Smartsheet SDK, `requests` and JSON decoding are not modelled. Their results are data given to the model: `Signal`, `InviteReply` and `Response`.
- `load_dotenv`, the token, the headers and `BASE_URL` are left out. They only configure the foreign calls.
- Opening and parsing the CSV files is left out. The input file is a sequence of records, and the audit file is a sequence of rows.
- `os.path.exists` / `os.stat(...).st_size == 0` is modelled as "the row sequence is empty".
- `time.sleep` is not performed. The delays of the listing and of `invite_user` are given as data instead.
- `datetime.now().isoformat()` is the given `clock`.
- The `print` calls are left out. Their only effect is console output.
- The rate-limit handler of `deactivate_user` (deactivate_users.py:131-159) is left out. `requests.post` never raises the SDK's rate-limit exception, so this branch is dead code.
- Directory.ListAllUsers: the script of disturbances is finite, and every call after it is served, so every modelled listing ends. The code as written can loop forever on one infinite pattern that the model cannot express: the call for the short last page is rate-limited, a retry is served that page, and the same happens again on every round of the `while` loop, which appends the page each time. This is a consequence of the behaviour at deactivate_users.py:46-47 listed under Findings; the corrected listing ends on every script, and a remote that only rate-limits ends the listing after eight calls (`ListingFacts.GiveUpKeepsAccumulated`).
- Classifier.DomainOf: an address without '@' is not excluded by a precondition. It is modelled as the `IndexError` it raises, which ends the run.
- Reconcile.BuildPlan: the plan does not collect the delays slept by the `invite_user` calls of its records. The delays of one call are `Calls.InviteSleeps` of that record's replies, and `Backoff.BurstSchedule` bounds them.
- Reconcile.RowEffect: the user returned by a successful invite is trusted as given. The model does not check that its e-mail matches the invited address.

## Findings

| source | as written | input that shows it | evidently intended | confidence | as-written member | corrected member |
|---|---|---|---|---|---|---|
| deactivate_users.py:46-47 | after a rate limit, a retry served a short page `break`s out of the retry `for` only, so the `while True` loop asks for the same page again and appends it a second time | a directory of fewer than 1000 users, whose first list call is rate-limited and whose retry is served: `get_all_users` returns every user twice | stop the listing after a short page, as at line 35-36, returning each user once | not executed | Directory.ListAllUsers (ListingFacts.ThrottledShortListingRepeats) | Directory.ListAllUsersFixed (ListingFacts.FixedListingIsPrefix) |

The duplicated page does no harm to the decisions of `process_users`. The script looks users up by address and takes the first match, so repeats change nothing (`Reconcile.BuildPlanCovered`, `Batch.RepeatedPageIsHarmless`). It only inflates the "Found N existing users" count. The same `break` is also the one way the listing as written can fail to end: a remote that keeps rate-limiting the call for the short last page and then serving it on a retry makes the `while` loop fetch and append that page again and again. `Batch.ProcessUsers` therefore keeps the listing as written.

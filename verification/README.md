# Sprig, modelled and proved

Sprig is a web app for looking after the plants of shared gardens. Care falls
due on schedules, members log it, and owners invite people and sitters. This
project models the parts of Sprig that keep state across requests or reshape
data on the way to a page and back, and proves what they promise for every
input, every run and every interleaving of requests.

`dafny verify dfyconfig.toml` checks the whole project.

| Part | Files |
|---|---|
| Rate limiting | `TokenBucket`, `Limiter`, `LimiterRuns`, `LimiterGrants`, `LimiterLayers`, `LayerGrants` |
| Gardens, invites, setup links, members | `Gardens`, `GardenStore`, `GardenRuns`, `InviteRuns`, `People` |
| Passkeys, push subscriptions, ceremonies | `AccountLocks`, `PasskeyCounter`, `Ceremonies` |
| Sessions and the garden of a request | `Sessions`, `SessionRuns`, `SessionSweeps`, `SessionDeadlines`, `SessionCookies`, `SessionRaces`, `Resolving`, `ResolveRuns` |
| Calendar arithmetic and due dates | `Civil`, `GregorianRules`, `LocalTime`, `SeedHistory`, `DueDates`, `NextDue`, `SeedSteps` |
| Activity log, calendar page, forms | `ActivityPages`, `LogItems`, `CalendarGrid`, `CalendarDays`, `FormText`, `CareSheet`, `CareEdits`, `ScheduleForm`, `ScheduleEdits` |

How things are modelled:

- A database table is a map. A transaction is one step that commits or changes
  nothing. What a request reads before its transaction is an earlier step, and
  any other request may run in between.
- Objects that change in place are classes whose methods are proved against a
  function of the old state. The lemmas about runs are about those functions.
- The clock, random tokens and ids, and whether a device's answer verifies are
  parameters. Time is whole nanoseconds, dates are day numbers of the Gregorian
  calendar, and a timezone is a fixed offset.
- A select with no selected option posts its first one, a checked radio button
  posts its value, a text input drops line breaks, and a hidden input's line
  breaks are rewritten, as browsers do.
- The cookie's Max-Age counts from the clock reading of the request that set it.

Where the code does not do what its comments say, the model follows the code
and proves exactly when the promise holds:

- A garden can be left with a closed owner. A signed-in request to `/setup`
  checks the account when it authenticates and not again in its transaction, so
  a setup that commits after the account closed makes a garden for it
  (`GardenRuns.ClosedOwnerIsReachable`). That is the only way
  (`GardenRuns.OwnersOpenExactly`).
- Promises about sessions hold while the statements of a session's requests do
  not overlap. A lookup reads the row in one statement and touches it in another,
  unconditional one. A read or a sweep that falls between another read and its
  touch can refuse a session in steady use (`SessionRaces.SteadyUseIsRefused`,
  `SessionRaces.SweepIsSeen`), two touches can leave the earlier deadline
  (`SessionRaces.RacingTouchMovesBack`), and their responses can leave a cookie
  that outlives the row (`SessionRaces.CookieOutlivesRow`). Exactly when each
  happens is `SessionRuns.SteadySessionsLastExactly`,
  `SessionSweeps.SweepsAreUnobservableExactly`,
  `SessionDeadlines.MovesBackExactly` and `SessionCookies.CookiesAgreeExactly`.
- Resolving a request's garden is several statements with no transaction around
  them, so a switch of gardens can be overwritten
  (`ResolveRuns.SwitchIsOverwritten`, `ResolveRuns.OverwritesExactly`).
- A limiter can allow more than its budget when calls reach it out of clock order
  (`LimiterRuns.OutOfOrderOverspends`), by no more than the readings go back
  (`LimiterRuns.WindowBound`).
- A refused answer leaves its passkey challenge in place where the handler
  answers inside a transaction, because the deletion is rolled back. Those are
  redeeming a sign-in link and recovering an account, and not the Passkeys page
  (`Ceremonies.RefusedIsAnsweredAgainExactly`, `Ceremonies.AnsweredTwice`). What
  happens at most once is a success.
- The seed steps months with `time.AddDate` and says that it matches the
  due-date engine, which clamps to the end of a short month. They agree exactly
  for days and weeks, and where the day exists in the target month
  (`SeedSteps.SeedMatchesEngineExactly`, `SeedSteps.JanuaryParts`).
- Saving the correcting sheet untouched keeps the event under a condition on the
  day, the note and the interval (`CareSheet.UntouchedSaveKeepsExactly`), and
  fails for a sheet left open over midnight (`CareSheet.MidnightMovesTheDay`) or
  a note of two lines (`CareSheet.LineBreaksAreLost`), which Undo can also change
  (`CareSheet.UndoRewritesLineBreaks`). Saving the schedule editor
  untouched keeps the schedule when the editor can show all of it
  (`ScheduleForm.EditorRoundTripsExactly`).

## Model

| member | source | states |
|---|---|---|
| `TokenBucket.SpendAccounts` | internal/http/ratelimit.go:66-74 | A token is taken only when a whole one is there, a refusal costs nothing, and the delay is exactly the shortfall. |
| `TokenBucket.IdleIsFresh` | internal/http/ratelimit.go:19-37 | A bucket unused for a whole refill answers as a new one does. |
| `RateLimit.Limiter.constructor` | internal/http/ratelimit.go:39-49 | A new limiter has no buckets and has never swept. |
| `RateLimit.Limiter.Allow` | internal/http/ratelimit.go:54-75 | The answer and the whole new state are those of one step: sweep if due, then spend from the key's bucket, new if it has none. |
| `RateLimit.Limiter.Sweep` | internal/http/ratelimit.go:80-87 | The loop leaves exactly the buckets seen less than a refill ago and records the time. |
| `LimiterRuns.SweepIsUnobservable` | internal/http/ratelimit.go:54-87 | Over every run on any keys at non-decreasing times, the sweeping limiter answers as one that never deletes a bucket. |
| `LimiterRuns.BucketsAreRecent` | internal/http/ratelimit.go:77-87 | After every call each bucket left was seen less than two refills ago. |
| `LimiterRuns.WindowBound` | internal/http/ratelimit.go:54-75 | In every run, whatever the clock readings, the calls allowed for one key in any window of length T number at most burst + floor((T + back) / period), where back is how far the readings of the limiter's calls go back in all. |
| `LimiterRuns.WindowBoundInOrder` | internal/http/ratelimit.go:54-75 | With the readings in order the bound is burst + floor(T / period). |
| `LimiterGrants.BurstIsGranted` | internal/http/ratelimit.go:39-75 | Whatever the clock readings and the other keys, the first burst calls on a key are allowed. |
| `LimiterGrants.RefusedExactlyWhenUsedUp` | internal/http/ratelimit.go:54-75 | With the readings in order, a call is refused if and only if for some window of length T ending at it the calls on its key allowed in the window are burst + floor(T / period), the whole budget. |
| `LimiterRuns.OutOfOrderOverspends` | internal/http/ratelimit.go:97-108 | A run out of clock order, which a reading taken before the mutex allows, that allows more than burst + floor(T / period). |
| `LimiterRuns.AnotherKeyOverspends` | internal/http/ratelimit.go:54-87 | A run in which the key's own readings are in order and a sweep by another key's call still makes it allow more. |
| `LimiterRuns.RetryIsExact` | internal/http/ratelimit.go:51-75 | After a refusal with delay d every call on the key before now + d is refused with the exact remaining delay, and the next is allowed if and only if it comes at or after now + d. |
| `LimiterRuns.RetryAfterIsEnough` | internal/http/ratelimit.go:97-108 | A client that waits the rounded-up Retry-After seconds is allowed if nobody else used the key (section 10.2.3 of RFC 9110). |
| `LimiterLayers.Wrap` | internal/http/mux.go:359-363 | The backwards loop nests the limiters with the first outermost. |
| `LimiterLayers.RefusedStays` | internal/http/ratelimit.go:89-112 | A request that a limiter refuses makes no further call, so it spends nothing from the limiters inside. |
| `LimiterLayers.EachLimiterIsAlone` | internal/http/mux.go:359-363 | However the calls of requests to the layers interleave, each limiter answers as it would alone on the calls that reach it. |
| `LimiterLayers.ThroughEveryLayerBefore` | internal/http/mux.go:359-363 | A request that has come as far as a layer was let through by every layer before it. |
| `LimiterLayers.EveryLayerBounds` | internal/http/mux.go:359-363 | Over every interleaving of single calls with any clock readings, no limiter lets through more requests on a key in a window than its budget for the window and its calls' back-steps, and every request that reaches its route passed them all. |
| `LimiterLayers.ReachedWithinBudget` | internal/http/ratelimit.go:97-112 | The requests that reach a route and called a layer on one key inside a window are no more than that layer's budget for the window and its calls' back-steps. |
| `LimiterLayers.RecoveryBudget` | internal/http/recover.go:269-300 | However their requests interleave, the three recovery routes together let through at most ten plus one for each six seconds of any window and of the shared limiter's back-steps, which are none on readings in order. |
| `LimiterLayers.RecoveryBudgetPerAddress` | internal/http/recover.go:269-300 | And from one address at most eight plus one for each seven and a half seconds of the window and of that limiter's back-steps. |
| `LayerGrants.ReachesExactly` | internal/http/ratelimit.go:89-112 | However requests interleave, one has reached its route if and only if every limiter has let it through. |
| `LayerGrants.EveryLayerGrants` | internal/http/mux.go:359-363 | In every interleaving each limiter of a stack lets the first burst calls on a key through, and with its own calls in order refuses one if and only if the budget of a window ending at it is used up by the calls it let through. |
| `GardenStore.Store.constructor` | internal/http/setup.go:222-231 | A new install has no rows. |
| `GardenStore.Store.Join` | internal/http/invited.go:419-459 | Commits if and only if the device answered, the invite is of the garden, unredeemed and in date, the account is new, the garden is there and the pair has no membership. Then one invite goes from open to redeemed, one open account and the one membership the invite describes appear, and all else is equal. Otherwise nothing changes. |
| `GardenStore.Store.WriteAcceptance` | internal/http/accept.go:178-194 | Commits if and only if the invite is of the garden, unredeemed and in date, and the membership is there or not as the request read, with the garden and the account there for a new one. Then one invite goes from open to redeemed and one membership is written, and all else is equal. Otherwise nothing changes. |
| `GardenStore.Store.SetUp` | internal/http/setup.go:339-439 | Commits if and only if the device answered, the link is unused and in date or none is needed, and the account, the garden and its membership are new. Then the link is used up and one account and one garden it owns appear. Otherwise nothing changes. |
| `GardenStore.Store.SetUpSignedIn` | internal/http/setup_signed_in.go:92-128 | Commits if and only if the link is unused and in date or none is needed, the account has a row and the garden is new. Then the link is used up and one garden owned by the account appears. Otherwise nothing changes. |
| `GardenStore.Store.SaveMembers` | internal/http/people.go:177-235 | The loop leaves the memberships with every change applied in order and touches no other row. |
| `GardenStore.Store.CloseUserAccount` | internal/http/close_account.go:153-182 | Commits if and only if the account is open and every garden it owns has another owner. Then it closes, its memberships and unredeemed sign-in links go, and every other row stays. Otherwise nothing changes. |
| `GardenStore.PostedChanges` | internal/http/people.go:262-293 | The post is refused if and only if some other member's row was posted badly. Otherwise the changes are those of the changed rows in order, never the reader's own and never to a role not offered. |
| `GardenRuns.SaveSparesOwner` | internal/http/people.go:177-235 | Whatever changes are saved, the owner's membership, other gardens and the set of members stay as they were, and nobody becomes an owner. |
| `GardenRuns.OwnerCannotClose` | internal/http/close_account.go:153-182 | The gardens the sole-owner check finds are exactly those the account owns. |
| `GardenRuns.StepIsSafe` | internal/http/accept.go:100-194 | Every step of every request keeps each garden's owner, even acting on a read made any time before. |
| `GardenRuns.OneOwner` | internal/http/setup.go:454-469 | In every state of every interleaving from an empty install each garden has exactly one owner, whose membership has no end date, though a sign-in link may hold the role owner. |
| `GardenRuns.OwnersStayOpenUnlessStale` | internal/http/setup_signed_in.go:92-128 | A step leaves a garden with a closed owner if and only if it is a signed-in setup of a new garden, with its door open, whose account has a row and is closed. |
| `GardenRuns.OwnersOpenExactly` | internal/http/close_account.go:153-182 | All owners are open in every state of a run if and only if no step of the run is such a setup. |
| `GardenRuns.ClosedOwnerIsReachable` | internal/http/setup_signed_in.go:92-128 | A run of six steps that leaves a garden owned by a closed account. |
| `GardenRuns.LinksWorkOnce` | internal/http/invited.go:216-248 | In every interleaving each invite and each setup link is spent by at most one committed transaction, even once its row is swept, and with sign-up off plain setup makes at most one account ever. |
| `GardenRuns.SpendWritesOneMembership` | internal/http/invited.go:419-492 | A spent join invite writes exactly the membership it describes, a sign-in link none, and a step that spends nothing leaves every invite as redeemed as it was. |
| `InviteRuns.InvitesExactly` | internal/http/invite.go:102-165 | Signing in and making an invite works, after any run, if and only if the account is open and owns the garden and the role is on offer. |
| `InviteRuns.SignInLinkIsMade` | internal/auth/signin_link.go:36-70 | A sign-in link is made if and only if a live membership was read and the garden and the account have rows. |
| `InviteRuns.LinksExactly` | internal/auth/signin_link.go:36-70 | Looking an account up and making it a link works, after any run, if and only if the account is open and has a live membership of the link's role. |
| `InviteRuns.StandsUntilTaken` | db/queries/invite.sql:22-67 | Over every run an invite stays as it was made if and only if no step spent it, revoked it, deleted its garden or, for a sign-in link, closed its account, replaced it or swept it once expired. One that is gone never comes back. |
| `InviteRuns.ReadExactly` | internal/http/invited.go:216-248 | While it stands, a request has read it if and only if one opened its page before it expired and before the membership it grants, or that of its account, had ended. |
| `InviteRuns.JoinsExactly` | internal/http/invited.go:419-492 | From making the invite on, over every run, a newcomer joins if and only if it was opened in time, nobody took it, it is in date, the device answered and the account is new, and the invite is then spent exactly once, on the membership it describes. |
| `InviteRuns.AcceptsExactly` | internal/http/accept.go:100-194 | And somebody with an account accepts if and only if it was opened in time, nobody took it, it is in date and their membership is still as it was looked up. |
| `InviteRuns.VisitorAcceptsExactly` | internal/http/accept.go:100-194 | Signing in, being looked up and accepting back to back works if and only if, besides, the account is open and has no live membership of the garden. |
| `InviteRuns.AddsDeviceExactly` | internal/http/invited.go:460-492 | And a sign-in link adds a device if and only if it was opened in time, nobody took it, it is in date and the device answered. |
| `InviteRuns.LinkStandsUntilTaken` | db/queries/setup_link.sql:8-25 | Over every run a setup link stays open if and only if no step used it and no sweep found it expired. |
| `InviteRuns.LinkSetsUpExactly` | internal/http/setup.go:339-439 | From printing a setup link on, it makes a garden for a newcomer if and only if nobody took it, it is in date, the device answered and the account is new, and for somebody signed in if and only if nobody took it and it is in date. |
| `InviteRuns.PlainSetsUpExactly` | internal/http/setup.go:339-439 | Without a link a newcomer sets up if and only if sign-up is on or there is no account, and somebody signed in if and only if sign-up is on. |
| `People.SavedAsPosted` | internal/http/people.go:177-293 | Saving People leaves each member listed with the role posted, unless their time is over, and with the date posted, if they have one, and leaves the reader and everybody else as they were. |
| `People.SavesExactly` | internal/http/people.go:177-235 | Signing in, reading a post and saving it writes its changes, after any run, if and only if the account is open, owns the garden, and the post leaves the reader alone and picks only roles on offer. |
| `People.RemovesExactly` | internal/http/people.go:312-375 | Signing in, opening a member and removing them works, after any run, if and only if the account is open, owns the garden and removes somebody else, and changes no other row. |
| `People.RemovedStaysOut` | internal/http/people.go:308-335 | A member who was removed has no membership, whatever was read before, until they come in again on an invite. |
| `AccountLocks.LocksKeepCounts` | internal/http/passkeys.go:123-158 | In every interleaving of lock, count and write steps an open account has a passkey and no account has more than ten browsers, even when a subscribe moves one from another account. |
| `AccountLocks.StepIsSafe` | internal/http/notifications.go:336-361 | Each step keeps both bounds and every count made under a lock. |
| `AccountLocks.BrowserMoves` | internal/http/notifications.go:336-361 | A browser that moves to an account leaves every other account with no more than it had. |
| `AccountLocks.CountDecides` | internal/http/notifications.go:336-361 | A transaction gets the lock if and only if the account has a row and nobody holds it. Whatever comes in between, a subscribe makes the browser the account's if and only if it had fewer than ten others when counted, a removal takes the account's passkey if and only if it had two or more, and all other rows are left. |
| `AccountLocks.WithoutTheLock` | internal/http/passkeys.go:123-158 | Without the lock two removals leave an open account with no passkey. |
| `PasskeyCounter.CountersIncrease` | internal/auth/passkey.go:377-443 | In every interleaving of sign-ins the stored counter is never less than it was and is the last one accepted, the non-zero counters accepted strictly increase and zero is never accepted after a non-zero one (sections 6.1.1 and 7.2 of Web Authentication Level 2). |
| `PasskeyCounter.StoredNeverDecreases` | internal/auth/passkey.go:377-400 | At no point of a run does the stored counter decrease. |
| `PasskeyCounter.RefusedExactly` | internal/auth/passkey.go:377-400 | In every interleaving a sign-in is refused if and only if its counter is not greater than the one stored when it checks or when it writes, both zero aside. |
| `PasskeyCounter.AcceptedExactly` | internal/auth/passkey.go:377-431 | Of the sign-ins alone: one is accepted if and only if its counter is greater than the registered one and all accepted before it wrote, or all are zero. |
| `PasskeyCounter.HonestIsAccepted` | internal/auth/passkey.go:416-431 | A device that counts up from what was registered is accepted every time. |
| `PasskeyCounter.ZerosAreNeverRefused` | internal/auth/passkey.go:426-431 | An authenticator that keeps no counter is never refused. |
| `PasskeyCounter.OutOfRangeRefusesAll` | internal/auth/passkey.go:433-443 | A row no ceremony could have written refuses every sign-in. |
| `Ceremonies.ChallengesSucceedOnce` | internal/auth/passkey.go:466-508 | Over every run a challenge has at most one successful answer and no answer after it, none at or after expiry, only for the account it was begun for, and setup returns the account id chosen then. |
| `Ceremonies.SucceedsExactly` | internal/auth/passkey.go:466-508 | Any steps after a challenge is begun, an answer succeeds if and only if no step took the challenge, it has not lapsed and the answer verifies, for a device on the account it was begun for, and for a setup of an account id chosen then. |
| `Ceremonies.RefusedIsAnsweredAgainExactly` | internal/auth/passkey.go:157-177 | After any run, a refused challenge can still be answered with success, before it lapses, if and only if it was refused where a sign-in link is redeemed (internal/http/invited.go:463-477) or an account recovered (internal/http/recover.go:203-248), and not on the Passkeys page. |
| `Ceremonies.AnsweredTwice` | internal/http/invited.go:463-477 | A challenge that is refused on a sign-in link and then answered with success. |
| `Sessions.SessionTable.constructor` | internal/auth/session.go:109-112 | The lifetime is cut to whole seconds and the touch interval is the smaller of five minutes and a tenth of it. |
| `Sessions.SessionTable.Create` | internal/auth/session.go:123-140 | One row is added, and its session answers at once. |
| `Sessions.SessionTable.Lookup` | internal/auth/session.go:146-179 | The answer and the rows are those of the lookup step: refuse and delete an expired row, touch one old enough, and leave any other. |
| `Sessions.SessionTable.Delete` | internal/auth/session.go:184-189 | The session is refused from then on, and every other answers as it did. |
| `Sessions.SessionTable.Sweep` | internal/auth/sweep.go:44-50 | Exactly the rows last seen a configured lifetime or more ago go, and every session answers from then on as it would have. |
| `SessionRuns.StatementsMakeALookup` | internal/auth/session.go:146-179 | A read and a second statement back to back are the whole lookup. |
| `SessionRuns.GoneForGood` | internal/auth/session.go:169-201 | However statements interleave, a session that has ended never comes back and is refused for ever. |
| `SessionRuns.SignedOutForGood` | internal/auth/session.go:184-189 | A session that is signed out answers nobody again, though a request of it has read and has yet to write. |
| `SessionRuns.SessionKeepsItsUser` | internal/auth/session.go:146-179 | In every interleaving a session answers for the account and garden it was made with. |
| `SessionRuns.RefusedExactlyWhenLate` | internal/auth/session.go:146-179 | Over every interleaving and whatever the clock does, a session nobody signs out is refused if and only if a read of it comes ttl or more after the last touch written, or a sweep takes its row while a read of it or a waiting touch is still to come. |
| `SessionRuns.SteadyIsLateOnlyInAGap` | internal/auth/session.go:146-179 | On a clock that does not go back, a session whose reads are at most ttl - touchAfter apart is late only between a read and its touch, or after a touch that moved the deadline back. |
| `SessionRuns.SteadySessionsLastExactly` | internal/auth/session.go:102-112 | From sign-in on, such a session is never refused if and only if no statement is late, and only those two gaps make one late. |
| `SessionRuns.SteadySessionsLast` | internal/http/authn.go:83-85 | So it is never refused when no read of it and no sweep falls between a read of it and its second statement. |
| `SessionDeadlines.MovesBackExactly` | internal/auth/session.go:164-178 | Over a whole interleaving a deadline never moves back if and only if the session's touches are written in the order of the clock readings of their requests. |
| `SessionDeadlines.DeadlinesNeverMoveBack` | internal/auth/session.go:146-179 | Whatever the clock does, that is so, and the deadline ends no earlier than it began, while no read of the session falls between another and its second statement. |
| `SessionRuns.LapsedSessionsEnd` | internal/auth/session.go:61-66 | On a clock that does not go back, a read that comes ttl or more after every earlier use is refused and so is every later one, even with a touch still to be written. |
| `SessionSweeps.SweepsAreUnobservableExactly` | internal/auth/sweep.go:44-50 | Over every interleaving and whatever the clock does, sweeps put anywhere change nothing any statement decides if and only if no touch, and no read before the deadline, is of a row a sweep has taken. |
| `SessionSweeps.SweepsShowOnlyInAGap` | db/queries/session.sql:37-45 | On a clock that does not go back, sweeps change nothing unless one takes a row between a read of its session and the touch. |
| `SessionCookies.ResponseSetsExactly` | internal/http/authn.go:71-85 | Whatever comes in between, every request is answered, and its response clears the cookie if and only if it was refused, sets it to end a lifetime after the request if and only if it touched the session, and leaves it otherwise. |
| `SessionCookies.CookiesAgreeExactly` | internal/auth/session.go:203-219 | From sign-in on, after every run that leaves the row, the cookie and the row agree if and only if the request whose touch was written last and the one whose response arrived last have the same clock reading, the sign-in's standing for none. |
| `SessionCookies.LastArrivalIsLastWriterExactly` | internal/http/authn.go:83-85 | Where no two clock readings are the same, they agree if and only if the last response to arrive is that of the last touch written. |
| `SessionCookies.BrowserAgreesWithRow` | internal/auth/session.go:203-219 | For a browser that waits for each response, the cookie expires at the very instant the row does, and a cookie still held is refused if and only if its row is gone (section 5.2.2 of RFC 6265). |
| `SessionRaces.SteadyUseIsRefused` | internal/auth/session.go:154-178 | A session in steady use that is refused, because a read falls between another and its touch. |
| `SessionRaces.SweepIsSeen` | internal/auth/sweep.go:44-50 | A sweep between a read and its touch that changes the answer. |
| `SessionRaces.RacingTouchMovesBack` | internal/auth/session.go:164-178 | Two overlapping requests that leave the earlier deadline. |
| `SessionRaces.CookieOutlivesRow` | internal/http/authn.go:83-85 | Two overlapping requests that leave the browser a cookie that outlives the row. |
| `Resolving.Resolver.constructor` | internal/auth/principal.go:66-68 | A resolver over a session table. |
| `Resolving.Resolver.GetMembership` | internal/auth/principal.go:85-93 | The account's membership of a garden, if and only if it has one. |
| `Resolving.Resolver.FirstLiveMembership` | internal/auth/principal.go:139-154 | The search returns the live membership listed before every other live one, and none if and only if all have ended. |
| `Resolving.Resolver.Resolve` | internal/auth/principal.go:79-121 | A request is refused exactly when its lookup is. Otherwise the row and the principal agree on a garden that is live, unchanged if it still was, the first live one if not, and none exactly when none is live. |
| `Resolving.BelongsIsUnique` | internal/auth/principal.go:70-78 | Those conditions determine the garden. |
| `Resolving.SettledSessionsStay` | internal/auth/principal.go:79-121 | An immediate second request moves neither the garden nor the deadline. |
| `Resolving.PicksLastThenOldest` | db/queries/membership.sql:15-23 | A new pick is the garden last switched to if that is live, and otherwise the oldest live membership. |
| `ResolveRuns.AloneResolves` | internal/auth/principal.go:79-121 | The statements of a resolve with nothing in between leave the row and the answer on the garden the session belongs on. |
| `ResolveRuns.OverwritesExactly` | internal/auth/principal.go:94-116 | Over every interleaving, a resolve takes the session off a live garden if and only if, since it read the session, another statement set the garden or changed the memberships, and the last that did left the session on a live garden other than the one chosen. |
| `ResolveRuns.SwitchIsOverwritten` | internal/http/gardens.go:116-152 | A switch to a live garden, between a resolve's list and its write, that is lost. |
| `Civil.MonthIsUnique` | internal/schedule/next.go:226-236 | A day lies in one month, at one day of it. |
| `Civil.RollsWhenTooLong` | internal/http/schedule_field.go:191-194 | A date keeps its day if and only if its month is long enough. |
| `GregorianRules.MonthsStart` | internal/schedule/next.go:226-236 | Each month starts as many days into its year as in the Gregorian calendar. |
| `GregorianRules.YearsStart` | internal/schedule/next.go:226-236 | Each year starts 365 days a year and a day for each leap year after year zero, by the rule of four, a hundred and four hundred. |
| `GregorianRules.WeekdaysFollow` | internal/http/calendar.go:537-540 | Weekdays follow each other. |
| `GregorianRules.MillenniumIsASaturday` | internal/http/calendar.go:537-540 | 1 January 2000 is a Saturday. |
| `SeedHistory.AdvanceGrows` | cmd/seed/history.go:37-50 | Stepping by more intervals lands later for every unit, by at least a day each, even where a day overflows its month. |
| `SeedHistory.Next` | cmd/seed/history.go:76-85 | The unbounded loop ends, on a date after the reference for an anchored repeating schedule. |
| `SeedHistory.NextDueIs` | cmd/seed/history.go:72-85 | A cadence is next due its number of days after the reference, a one-off on its anchor and a repeating schedule on its first repeat after the reference. |
| `SeedHistory.AnchorIsItsDate` | cmd/seed/history.go:60-68 | An anchor whose day exists is midnight of its day and month, the given number of years from the reference. |
| `SeedHistory.Occurrences` | cmd/seed/history.go:134-157 | The unbounded loop ends with exactly the in-season steps one to 199 days back, strictly newest first. |
| `DueDates.ClampsWhereAddDateRolls` | internal/schedule/next.go:226-236 | Clamping and Go's rolling agree if and only if the day exists in the target month, and clamping is never later. |
| `SeedSteps.SeedMatchesEngineExactly` | cmd/seed/history.go:34-50 | For every time, count, unit and number of intervals the seed and the engine step to the same date if and only if the unit is days or weeks or the day exists in the month they step to. |
| `SeedSteps.JanuaryParts` | cmd/seed/history.go:34-50 | A month from 31 January, in any year, the engine is in February and the seed in March. |
| `DueDates.StepsKeepTheDay` | internal/schedule/next.go:207-224 | A monthly series keeps the day of its anchor, or the last of a shorter month. |
| `DueDates.SkippedStepsAreBefore` | internal/schedule/next.go:136-160 | Every step the search skips falls before the day it searches from. |
| `DueDates.SearchSeries` | internal/schedule/next.go:115-134 | The search from the estimated step finds the earliest step after a day, as a search from the anchor would. |
| `DueDates.OpeningsBracket` | internal/schedule/next.go:188-205 | The last and the next opening of a season are a year apart, on either side of the day. |
| `NextDue.CareMovesACadence` | internal/schedule/next.go:97-108 | A cadence is next due one interval after the last care, whenever it was set, or after the day it was set while there is none. |
| `NextDue.SkipIsDueAfterItsDays` | internal/schedule/next.go:89-95 | A skip with an interval is due that many days after it, for every shape. |
| `NextDue.SeriesIsDueOnAStep` | internal/schedule/next.go:119-134 | A series is next due on its earliest step after the last care, or after the day it was set. |
| `NextDue.OneOffIsDueOnce` | internal/schedule/next.go:110-118 | A one-off is due on its date, and has none if and only if it has been done. |
| `NextDue.InSeasonExactly` | internal/schedule/next.go:179-186 | A month is in season if and only if it is met, going around the year from the first month of the season, no later than the last. |
| `NextDue.SeasonMovesADate` | internal/schedule/next.go:59-80 | With a season there is a date if and only if it is open today, and it is the first day in season that is neither before the date without the season nor before the latest opening. |
| `DueDates.SeasonIsUnbroken` | internal/schedule/next.go:179-186 | Every month from an opening to one in the same season is in season, around the year's end too. |
| `DueDates.Following` | internal/schedule/month.go:79-103 | The date after a day is later and in season. |
| `DueDates.InMonth` | internal/schedule/month.go:35-77 | The loop lists exactly the projected dates of the month, which the next two rows say in full. |
| `NextDue.CalendarStart` | internal/schedule/month.go:40-66 | The calendar starts on the first day in season that is neither past nor before the date due nor, while the season is open, before its opening, and overdue if and only if it was due in this season and is past. |
| `NextDue.CalendarLists` | internal/schedule/month.go:35-103 | It lists its start and then, for a cadence, the first day in season from one interval after each date and, for a series, the step after it, all that fall in the range and none other. |
| `DueDates.DatesRise` | internal/schedule/month.go:35-77 | Dates listed are in the range and in season and strictly rise. |
| `DueDates.MonthsJoin` | internal/schedule/month.go:35-77 | Adjoining months list together what the whole range does, so paging loses and repeats nothing. |
| `DueDates.SeriesIsComplete` | internal/schedule/month.go:79-92 | An anchored series lists a day if and only if it is the first date or a later step of the series. |
| `DueDates.CalendarStartsAtNext` | internal/schedule/next.go:59-80 | In season the calendar starts on the date Today calls due next, or on today and overdue once that has passed. |
| `ActivityPages.OlderExactly` | internal/http/activity.go:528-569 | A page is the newest of what is left in order, what is below its last row is what it leaves out, and Older is empty if and only if that is nothing. |
| `ActivityPages.WalkDescends` | internal/http/activity.go:178-198 | The pages of a walk are together in strictly descending order of time and id, whatever is logged, corrected or deleted between loads. |
| `ActivityPages.RepeatsOnlyWhenMovedBack` | internal/http/activity.go:178-198 | An event is shown twice only if it was corrected to an earlier time between the two loads. |
| `ActivityPages.WalkShowsOnlyTheLog` | internal/http/activity.go:298-342 | Everything on page k of a walk was in the table that page was loaded from, matched the filter and lay below the cursor. |
| `ActivityPages.StayingEventsShowOnce` | internal/http/activity.go:178-198 | An event that stays throughout the walk is shown exactly once, ties on the time included. |
| `ActivityPages.PagesJoin` | db/queries/care_event.sql:55-84 | On a log nobody changes the pages put together are the whole filtered log in order. |
| `ActivityPages.ShownExactly` | db/queries/care_event.sql:55-84 | On such a log an event is shown if and only if it is of the plant and the care asked for and lies from the first instant asked for to before the last. |
| `LogItems.Items` | internal/http/activity.go:597-618 | Erasing the markers gives back the events in order, counts sum to their number, each day has one marker over exactly its rows, and a label stands between days if and only if three or more were empty. |
| `LogItems.EveryRowIsUnderItsDay` | internal/http/activity.go:597-618 | Every row stands under the marker of its own day. |
| `LogItems.PlantItems` | internal/http/activity.go:630-643 | Erasing the labels gives back the events in order, and a label stands before a row if and only if its gap reaches the page's floor. |
| `LogItems.PlantSilenceFloor` | internal/http/activity.go:649-661 | The floor is twice the median gap of the page and at least a fortnight. |
| `LogItems.FloorIsTwiceTheMedian` | internal/http/activity.go:649-661 | That floor is fourteen days, or twice the one number that at most half of the gaps are less than and fewer than the rest are more than. |
| `LogItems.FewGapsAreLabelled` | internal/http/activity.go:649-661 | Fewer than half of the gaps on a page reach the floor. |
| `CalendarGrid.NewCalendarPage` | internal/http/calendar.go:428-526 | Weeks of seven cells with day d at flat index mondayIndex + d - 1, blanks elsewhere and no spare week, each day with the cares filed on it, logged first, and those covering it, and all cells and the list of the month together count every care once. |
| `CalendarGrid.EveryCareIsCountedOnce` | internal/http/calendar.go:447-464 | Shown and more over all cells of the weeks on the page, with the list of the month, count every logged and due care once. |
| `CalendarGrid.DaysPartition` | internal/http/calendar.go:447-464 | Filing by day puts every item on exactly one day. |
| `CalendarGrid.DaysStandUnderTheirWeekday` | internal/http/calendar.go:537-540 | Each day stands in the column of its weekday. |
| `CalendarDays.EveryDayStands` | internal/http/calendar.go:428-540 | Every day of the month stands under the heading of its weekday, Monday first, marked if and only if it is today, and shows the first three of its cares, logged and then due, with the count of the rest and who covers it. |
| `CalendarDays.FiledOnItsDate` | internal/http/calendar.go:447-464 | A logged care is filed on its date in the reader's timezone, and a due one on its date unless it is due some time in the month. |
| `CalendarGrid.StableSortSorts` | internal/http/calendar.go:557-597 | Due cares are permuted into overdue first and then plant order, and ties keep the order of their schedules. |
| `CalendarGrid.SittingCoversExactly` | internal/http/calendar.go:252-301 | A sitting covers a date if and only if the membership was made on or before it and the date's midnight comes before the end. |
| `CalendarGrid.Sittings` | internal/http/calendar.go:265-301 | On every date, the sittings covering it are those of the visible temporary members who have access that day, in order. |
| `CalendarGrid.InMonth` | internal/http/calendar.go:467-475 | Dropping the sittings with no day in the month changes no day of it. |
| `CareSheet.OneChipIsChecked` | internal/http/care.go:424-436 | Selecting leaves exactly one chip checked, the one asked for or the default. |
| `CareSheet.ReminderIsOffered` | internal/http/care.go:402-422 | The event's own interval is on offer beside all the others, once each. |
| `CareSheet.Sheet.constructor` | internal/http/care.go:334-371 | The sheet shows the draft, with one care and one interval chosen. |
| `CareSheet.Sheet.OfferReminder` | internal/http/care.go:406-422 | The loop inserts the missing interval before the first longer one and changes nothing else. |
| `CareSheet.Sheet.SelectReminder` | internal/http/care.go:428-436 | The loop checks the chosen chip and unchecks every other. |
| `CareSheet.Sheet.ForEvent` | internal/http/care.go:386-400 | The sheet over an event offers and selects its interval. |
| `CareSheet.WithEventCare` | internal/http/correct.go:474-491 | The event's care type is always on offer, in creation order, though archived since. |
| `CareEdits.ExtendedIsByCreation` | internal/http/correct.go:474-491 | Care types listed in the order they were made stay so with the event's own among them. |
| `CareSheet.NewSheetOver` | internal/http/correct.go:454-472 | The sheet over a row, or none for a care type the garden does not have. |
| `CareSheet.PostReadsBack` | internal/http/correct.go:498-521 | What an untouched sheet posts reads back as the draft it was opened with, its note without line breaks and trimmed. |
| `CareSheet.UntouchedSaveWrites` | internal/http/correct.go:183-275 | An untouched save is refused only for a time still to come, whatever happened to the care type or the schedule, and otherwise writes the posted time and the note on one line, trimmed. |
| `CareSheet.UntouchedSaveKeepsExactly` | internal/http/correct.go:493-521 | An untouched save keeps all but the seconds if and only if the day chip still names the event's day, the event is not to come, its note is one trimmed line and not empty, and it has an interval exactly as a skip. |
| `CareSheet.SameDaySaveKeeps` | internal/http/care.go:189-216 | So anything the sheets wrote, saved untouched the same day, is accepted and keeps all but the seconds. |
| `CareSheet.SavesAreAsLoggedExactly` | internal/http/care.go:124-168 | An accepted save of any form writes an event that the lemma above applies to if and only if the posted note, trimmed, is one line, which a text input sees to. |
| `CareEdits.AnsweredExactly` | internal/http/correct.go:183-232 | A post is a bad request if and only if it holds a value, a care type or a skip's interval that is not on offer, it is told that the care changed if and only if it skips another care type than was shown, that the time is wrong if and only if it is missing or still to come, and it is written otherwise. |
| `CareEdits.SavesWhatWasPosted` | internal/http/correct.go:233-252 | Whatever is posted over whatever event, each column saved is what was posted: the care type, now or the day and minute given, done or the skip's interval, and the note trimmed, and all else stays. |
| `CareSheet.MidnightMovesTheDay` | internal/http/correct.go:508-513 | A sheet opened before midnight that is refused after it, and a day later writes the wrong day. |
| `CareSheet.LineBreaksAreLost` | internal/http/care.go:124-134 | A note of two lines that an untouched save joins. |
| `FormText.TextInputKeepsExactly` | web/templates/partials/sheet.html:66-69 | A text posted from a text input and trimmed is kept if and only if it is trimmed and has no line break. |
| `FormText.TrimSpaceCutsBothEnds` | internal/http/care.go:124-134 | Trimming cuts spaces off both ends and nothing else. |
| `FormText.HiddenFieldKeepsExactly` | web/templates/pages/activity.html:136-147 | A hidden field comes back as it was if and only if its line breaks are all CR LF, for a form the browser submits, or it has no CR, for one htmx submits. |
| `CareSheet.UndoRestoresExactly` | internal/http/correct.go:322-450 | Undo after a delete gives back the very same events if and only if its dates are not to come, a skip has its interval, its note is not empty and survives a hidden field, and its plant, care type and performer remain. |
| `CareSheet.UndoRewritesLineBreaks` | internal/http/correct.go:322-450 | A note of two lines that comes back from Undo with another line break, for each way the form is sent. |
| `CareSheet.UndoTwiceIsOnce` | db/queries/care_event.sql:138-164 | A second Undo is refused. |
| `CareEdits.DeletesExactly` | internal/http/correct.go:285-316 | An event is deleted if and only if it is there and the reader gave the care or may delete anyone's, and nothing else goes. |
| `CareEdits.RestoresExactly` | internal/http/correct.go:322-450 | An Undo is accepted if and only if its times have come, a skip has its interval, what it refers to is there, the reader may and the id is free, and it adds just that event. |
| `ScheduleForm.AnchorYears` | internal/http/schedule_field.go:369-381 | The loop offers this year, the six after it and a past year of the schedule's own, and no other. |
| `ScheduleForm.NumberOptions` | internal/http/schedule_field.go:352-358 | The select posts the selected number, or the first when it is not an option. |
| `ScheduleForm.FillStaysOffered` | internal/http/schedule_field.go:101-151 | Whatever is posted, an accepted draft holds only values the selects offer, the year included. |
| `ScheduleForm.ParamsFitTheSchema` | internal/http/schedule_field.go:157-198 | Only the three shapes of the schema come out, each for its own choice, and a season only on a cadence. |
| `ScheduleForm.InvalidDateExactly` | internal/http/schedule_field.go:178-197 | "Invalid date" is said if and only if the day is past the end of its month. |
| `ScheduleEdits.AnsweredExactly` | internal/http/schedule_field.go:101-198 | Whatever is posted over whatever row, it is a bad request if and only if a value is not on offer, each message is said if and only if its own field is the first that is wrong, and it is saved if and only if none is. |
| `ScheduleEdits.SavesWhatWasPosted` | internal/http/schedule_field.go:101-198 | Every column saved is what was posted: number and unit, the months of the season in order, and the date, with a day of zero as month precision. |
| `ScheduleEdits.OldRowLeavesNoTrace` | internal/http/schedule_field.go:101-151 | Two old rows that offer the posted year save the same row. |
| `ScheduleEdits.OpensAsPosted` | internal/http/schedule_field.go:200-233 | The editor opened on what was saved shows what was posted. |
| `ScheduleForm.EditorRoundTripsExactly` | internal/http/schedule_field.go:200-233 | For every row the table can hold, rendering the editor, posting only the controls its shape renders and converting back gives the same row if and only if the editor can show every value of it. |
| `ScheduleForm.SavedRowsAreEditable` | internal/http/schedule.go:244-254 | Whatever form is posted over whatever row, what the editor saves is a row of the schema that it can show again in any later year. |
| `ScheduleForm.EditsRoundTrip` | internal/http/schedule.go:83-119 | Every schedule that any run of posts has made is kept by opening its editor and saving it untouched, in any later year. |

## Left out

- Who may open the correcting sheet: the roles' capabilities are a table, and only deleting and undoing depend on the event.
- Sign-in link pages, recovery code pages and the rest of the handlers around these transactions: they only route to what is modelled.
- go-webauthn, hashing, random tokens, base64 and JSON: a device's answer verifies or not, and tokens are unique ids.
- Number and date formatting, as in the cursor of the activity log and the interval field: values are carried as numbers, and text that does not parse as its own case.
- Daylight saving: a timezone is a fixed offset.
- Floating-point rounding in `rate.Limiter`: every rate the routes use has a whole-nanosecond period.
- Isolation below an atomic transaction, except for the row lock of `AccountLocks` and the statements of a session lookup and of a resolve.
- 32-bit overflow of a schedule's interval in days: the editor takes at most 999 units.
- Sorting and ORDER BY are functions with their properties proved, not the library's algorithm.
- A one-off that is already done: its editor opens as for no schedule, so it is not part of the editor's round trip.
- Bands, notes, labels and links on the calendar, and the text of every page: no property beyond what they are built from.
- Photos, push sending, background jobs, tracing, configuration and the command line: input and output.
- Seed content other than its dates: plain tables.

# BreathAway backend: model and proofs

A Dafny model of the parts of the BreathAway backend whose correctness rests on how several
functions work together: the credit ledger and its three readers, the life of likes and
matches, the request limiter, the text form of encrypted values with its batch decryption
and payload decryption, the data-key cache, and the bounded worker pool.

`dafny verify dfyconfig.toml` checks everything.

## How it is organised

| file | what it holds |
|---|---|
| `CreditLedger.dfy`, `CreditViews.dfy`, `CreditRuns.dfy` | the ledger of one user, the allocation behind the reader, the expiry worker and the warner, what each of them computes and when they agree, and whole runs |
| `FirstToExpire.dfy` | what draining bundles first-to-expire means, said of dates and amounts alone, and that the three views do it |
| `CreditsService.dfy`, `ExpiryFanOut.dfy` | the service's loops over the ledgers of all users, and the paged coordinators that publish user batches |
| `LikeMatch.dfy` | the tables and what each service call does to them, as functions |
| `LikeMatchInvariant.dfy`, `LikeMatchRuns.dfy` | the invariant, its preservation by every step, and whole runs |
| `LikeMatchOutcomes.dfy` | what each call answers and stores, said of rows alone, independently of the functions that define the steps |
| `UnmatchedPairs.dfy`, `ClaimedIdentities.dfy`, `ConcurrentLikes.dfy` | what an unmatch prevents, claiming identities, two users liking each other at once |
| `LikeMatchService.dfy` | the services' statements over mutable tables, each proved to perform its step |
| `RateLimiter.dfy` | the fixed-window limiter script and traces of calls |
| `EncryptedText.dfy`, `BatchDecryption.dfy` | printer and parser of the compact text, the deduplicating batch, payload trees |
| `KeyCache.dfy` | the cache of unwrapped data keys |
| `WorkerPool.dfy` | `mapWithConcurrency` as a state machine |

Code that changes state is a class or a method with loops, proved equal to a function on
values; the theorems are then about those functions, their runs and their invariants.

## Conventions

- The database is a set of maps, one service call or transaction is one step, and time is
  an integer number of milliseconds. Ids the database would generate, the reply of KMS to
  an encryption, and the row a lookup happens to return are parameters; a lookup may return
  any row that fits.
- User ids are natural numbers; only their total order is used. A match row is kept under
  its sorted pair of users, the key the database declares unique.
- `T`, `X`, `D`, `E` are all credits granted, the credits of lapsed bundles, the genuine
  debits and the EXPIRED debits of a ledger. Rows that tie on every sort key come back in
  insertion order; the balance is proved not to depend on that.
- A Redis key with expiry `e` exists at `t` exactly when `t < e`.
- Base64, AES-GCM, SHA-256 and KMS are functions with the inverse or injectivity
  assumptions written at each theorem.

## Where the code differs from its documentation

- `docs/docs/spec/features/credit-system.md` (lines 34-38) gives the balance as all
  credits minus all debits. The code computes max(0, T - max(D, X)). The two agree after an
  expiry pass exactly under the condition of `PlainSumIsBalance`; `PlainSumCanDiffer` is a run
  after which they do not.
- A spend made after a bundle lapsed unused is still charged to that bundle, so a
  successful spend need not lower the balance. `ConsumeLowersBalance` gives the exact cost.
- Comments in `likes.service.ts` (lines 340-348) say that an expired pending like does not
  block a new one. `ACTIVE_LIKE_FILTER` reads the clock once, when it is imported, so such a
  like blocks until the process restarts: `StaleFilterRefuses` says exactly when, and
  `StaleRefusalIsReachable` gives a run.
- The resolver does not compare sender and owner. A user who claims an identity on which
  they have a live pending like can be matched with themselves, and only then:
  `SelfMatchExactly`.
- A call refused by the lockout key is told only the lockout's remaining time. That wait can
  be too short when the window is longer than the lockout and than a second:
  `EveryWaitIsEnoughExactly`.
- The data-key cache hashes key id and wrapped key with no separator. It is transparent
  exactly when no configured key id begins another: `TransparentExactlyWhenPrefixFree`. It
  is called an LRU cache, but eviction is by age: `EvictionIsByAge`.

## Model

| member | source | states |
|---|---|---|
| CreditViews.BalanceClosed | src/modules/credits/credits.service.ts:92-161 | for every ledger and time the reader's fold equals max(0, T - max(D, X)) |
| CreditViews.BalanceIgnoresOrder | src/modules/credits/credits.service.ts:99-131 | the balance is the same for every order in which the query returns the rows, tie-breaks included |
| CreditViews.BalanceNeverRises | src/modules/credits/credits.service.ts:148-157 | on a fixed ledger the balance does not rise as time passes |
| CreditViews.BreakdownIsBalance | src/modules/credits/credits.service.ts:176-245 | the breakdown sums to the balance, lists live bundles of the ledger only, and every entry after the first is a whole bundle |
| CreditViews.ReaderIgnoresExpiryRows | src/modules/credits/credits.service.ts:112-120 | appending EXPIRED rows changes neither the balance nor the breakdown |
| FirstToExpire.ReaderListsFirstToExpire | src/modules/credits/credits.service.ts:196-242 | said of dates and amounts alone: the reader lists, in order of expiry and then creation, what the live bundles hold after genuine spends drained the bundles in that order, none losing anything before those ahead of it were used up |
| FirstToExpire.WorkerInsertsFirstToExpire | src/modules/credits/credits.service.ts:661-706 | said likewise: the worker inserts, in that order, one EXPIRED debit naming each lapsed bundle with what it holds after all debits |
| FirstToExpire.WarnerPicksFirstDue | src/modules/credits/credits.service.ts:793-846 | said likewise: the warner picks a bundle of the window with something left that no other such bundle precedes, and none only if there is none |
| FirstToExpire.PrecedingAreUsedUp | src/modules/credits/credits.service.ts:123-143 | in every such draining a bundle has lost something only if every bundle that lapses earlier, or is dated where it is permanent, or ties and was created earlier, is used up |
| CreditViews.ConsumeLowersBalance | src/modules/credits/credits.service.ts:541-609 | a successful spend of a lowers the balance by max(0, a - max(0, X - D)), and by a exactly when a is 0 or no lapsed bundle was left unused |
| CreditViews.SpendAfterLapseIsFree | src/modules/credits/credits.service.ts:113-158 | a ledger on which a successful spend of one credit leaves the balance at five |
| CreditViews.AllocateSplit | src/modules/credits/credits.service.ts:670-706 | draining X debits instead of fewer empties the lapsed bundles and leaves every unlapsed one as it was |
| CreditViews.LeftoversTotal | src/modules/credits/credits.service.ts:688-706 | what a pass writes off adds up to max(0, X - debits) |
| CreditViews.ExpireSums | src/modules/credits/credits.service.ts:650-727 | a pass raises the debits to X, changes neither T, D, X nor the queue, and leaves no lapsed bundle with a remainder |
| CreditViews.ExpireAgain | src/modules/credits/credits.service.ts:636-642 | repeating a pass at the same or an earlier time writes nothing |
| CreditViews.ExpireTwice | src/modules/credits/credits.service.ts:650-727 | two passes write the (bundle, amount) rows of one pass at the later time |
| CreditViews.ExpiryPassesMerge | src/modules/credits/credits.service.ts:650-727 | any number of passes at any times write exactly the (bundle, amount) rows of one pass at the latest time |
| CreditViews.PlainSumIsBalance | docs/docs/spec/features/credit-system.md:34-38 | after a pass, credits minus all debits equals the balance exactly when D <= T and either nothing was ever written off or all debits fit into the lapsed bundles |
| CreditRuns.PlainSumCanDiffer | docs/docs/spec/features/credit-system.md:34-38 | the ledger left by a run of five steps, solvent, on which the documented identity fails |
| CreditViews.WorkerAgreesWithReader | src/modules/credits/credits.service.ts:650-706 | after a pass the worker's allocation gives every unexpired bundle the reader's remainder exactly when nothing was written off, or all debits fit into the lapsed bundles, or max(D, X) >= T |
| CreditViews.DatedBundlesFirst | src/modules/credits/credits.service.ts:801-808 | the full queue is the dated bundles, sorted on their own, followed by the permanent ones |
| CreditViews.WarnerAgreesWithWorker | src/modules/credits/credits.service.ts:793-846 | over dated bundles only, the warner selects the bundle and amount of the full allocation |
| CreditViews.WarningIsReaderShare | src/modules/credits/credits.service.ts:793-846 | after a pass the warned bundle and amount are the first expiring entry of the reader's breakdown exactly when nothing was written off, or all debits fit into the lapsed bundles, or max(D, X) covers everything that lapses by the window's end |
| CreditRuns.ExpireClosesOnce | src/modules/credits/credits.service.ts:650-727 | on a settled ledger a pass writes EXPIRED rows only for bundles not closed before, within their amounts, and leaves the ledger settled up to the later time |
| CreditRuns.StepKeepsSound | src/modules/credits/credits.service.ts:431-727 | grants, checked spends, passes and waiting keep D <= T and the settled ledger |
| CreditRuns.RunsStaySolvent | src/modules/credits/credits.service.ts:431-727 | over every run from an empty ledger D <= T, and each bundle gets at most one EXPIRED row, for at most its amount |
| CreditRuns.RunSpendCosts | src/modules/credits/credits.service.ts:541-609 | in every run state with X <= D a successful spend lowers the balance by its amount, and the balance is T - D |
| CreditsService.CreditsService.GetBalance | src/modules/credits/credits.service.ts:92-161 | the loop computes max(0, T - max(D, X)) |
| CreditsService.CreditsService.GetExpiringCredits | src/modules/credits/credits.service.ts:176-245 | the loop lists, in order of expiry and then creation, what draining spends first-to-expire leaves of the live bundles; this adds up to the balance, with whole bundles after its head |
| CreditsService.CreditsService.GrantCredits | src/modules/credits/credits.service.ts:431-524 | LIKE_USAGE is refused with nothing written; otherwise one CREDIT row with the given amount, source, reference and expiry is appended to that user's ledger only |
| CreditsService.CreditsService.HasSufficientCredits | src/modules/credits/credits.service.ts:624-631 | true exactly when max(0, T - max(D, X)) covers the amount |
| CreditsService.CreditsService.ConsumeCredits | src/modules/credits/credits.service.ts:541-609 | succeeds exactly when max(0, T - max(D, X)) covers the amount, then appends one LIKE_USAGE debit of it and lowers the balance by the exact cost; otherwise nothing changes |
| CreditsService.CreditsService.ExpireCreditsForUsers | src/modules/credits/credits.service.ts:650-727 | the loop performs the pass of each listed user in turn; the rows it reports inserted are those by which the ledgers grew |
| CreditsService.CreditsService.CollectExpirations | src/modules/credits/credits.service.ts:670-706 | the inner loop builds the EXPIRED rows that draining all debits first-to-expire leaves to write: amount, bundle named, time of the pass |
| CreditsService.CreditsService.HandleExpiryWarningBatch | src/modules/credits/credits.service.ts:773-872 | one warning for each listed user with an expiring bundle, in order, with its days remaining and urgency |
| CreditsService.WarningsAreTimely | src/modules/credits/credits.service.ts:815-866 | every warning is for a listed user, for the bundle the warner must pick and what it holds; it lapses within seven days, the days are the nearest whole number and at least one, and it is urgent exactly when less than two and a half days are left |
| CreditsService.DueUsersAreWarned | src/modules/credits/credits.service.ts:786-866 | a listed user is warned unless no bundle of theirs is due, and at most once a listing |
| CreditsService.InsertedIsGrowth | src/modules/credits/credits.service.ts:650-727 | for every list of users, with repetitions, the rows counted are those by which all ledgers together grew |
| CreditsService.CreditsService.FindExpiring | src/modules/credits/credits.service.ts:815-846 | the search stops at a bundle of the window with something left after all debits that no other such bundle precedes, and finds none only if there is none |
| ExpiryFanOut.FanOut | src/modules/maintenance/maintenance.service.ts:77-160 | terminates; for a positive batch size the batches concatenate to the strictly ascending list of selected users, all but the last full, none empty; for size 0 nothing is published |
| ExpiryFanOut.ExpireCreditBundles | src/modules/maintenance/maintenance.service.ts:77-160 | the users published, ascending and each once, are exactly those holding a CREDIT row whose expiry is not after the pinned time |
| ExpiryFanOut.WarnExpiringCreditBundles | src/modules/maintenance/maintenance.service.ts:194-284 | the users published, ascending and each once, are exactly those holding a CREDIT row that lapses at least six and less than seven days on |
| ExpiryFanOut.OneDailyWindow | src/modules/maintenance/maintenance.service.ts:185-204 | over runs exactly a day apart every dated bundle falls into the window of exactly one run |
| ExpiryFanOut.AscendingRest | src/modules/maintenance/maintenance.service.ts:96-118 | the users beyond a page's last one, ascending, are those the page left over |
| ExpiryFanOut.DeliveryIsPointwise | src/modules/credits/credits.service.ts:650-727 | whatever list of users is delivered, with repetitions, each of them is expired once and nobody else is touched |
| ExpiryFanOut.DeliveryOrderIrrelevant | src/modules/credits/credits.service.ts:729-763 | deliveries that reach the same users leave the same ledgers |
| ExpiryFanOut.FanOutSettlesEveryone | src/modules/maintenance/maintenance.service.ts:77-160 | delivering every batch at least once in any order leaves no lapsed bundle of any user with an unused remainder |
| LikeMatch.Compatible | src/modules/matches/matches.service.ts:471-488 | intents are compatible exactly when they are equal or one of them is OPEN |
| LikeMatchInvariant.MatchedIffNamedOnce | src/modules/match-resolver/match-resolver.service.ts:339-417 | under the invariant a like is MATCHED exactly when an ACTIVE match names it, that match is unique, and it names two different likes |
| LikeMatchInvariant.LikesFixPairs | src/modules/match-resolver/match-resolver.service.ts:107-118 | no match of another pair can use either like, so the unique keys on the like columns are never hit |
| LikeMatchInvariant.ResolveCommits | src/modules/match-resolver/match-resolver.service.ts:66-170 | run alone the transaction commits: the pair's row is created or re-used ACTIVE with each like in its sender's column and its own intent, both likes become MATCHED, nothing else changes |
| LikeMatchOutcomes.ResolveAnswersTruly | src/modules/match-resolver/match-resolver.service.ts:66-170 | in sound tables the resolver answers match m exactly when the pair's row was not ACTIVE before and is ACTIVE after with id m; it does so exactly when a live like of the owner answers, the intents are equal or one is OPEN, neither has an unlifted block on the other and the pair was not ACTIVE; otherwise nothing is written |
| LikeMatchOutcomes.ConflictIsTold | src/modules/match-resolver/match-resolver.service.ts:172-190 | in any tables a unique-key conflict writes nothing and answers the row the pair has, if it has one |
| LikeMatchInvariant.ResolveKeepsInv | src/modules/match-resolver/match-resolver.service.ts:66-202 | resolving a current like keeps the invariant, whichever reverse like the lookup returns |
| LikeMatchInvariant.ExistingRowIsHandled | src/modules/likes/likes.service.ts:335-418 | a row for (sender, target) that is neither live PENDING nor re-usable belongs to an ACTIVE match, so it is refused |
| LikeMatchInvariant.StaleFilterRefuses | src/modules/likes/likes.types.ts:69-71 | creation is refused as already liked although the row is re-usable exactly when the row is PENDING and expired after the filter's import and not after now |
| LikeMatchRuns.StaleRefusalIsReachable | src/modules/likes/likes.service.ts:335-385 | a run of four steps from empty tables that ends in such a refusal |
| LikeMatchInvariant.CreateLikeKeepsInv | src/modules/likes/likes.service.ts:190-628 | creating a like keeps the invariant and never inserts a second row for a sender and target |
| LikeMatchOutcomes.CreateAnswersTruly | src/modules/likes/likes.service.ts:190-628 | in sound tables every answer of creation by its own condition on rows: no credit, nothing aimed at, no such identity, own identity, a live PENDING row, an ACTIVE match with the owner, else created; then exactly one row of sender and identity holds the intent and expiry passed, one debit of one credit names it, and a match is told exactly when one was made |
| LikeMatchOutcomes.RefusalMeans | src/modules/likes/likes.service.ts:297-418 | each refusal of a target exactly by its condition on rows, in the order of the code |
| LikeMatchInvariant.DeleteLikeKeepsInv | src/modules/likes/likes.service.ts:753-839 | deleting a like keeps the invariant |
| LikeMatchInvariant.UnmatchWrites | src/modules/matches/matches.service.ts:379-414 | exactly the match row and its two different likes change: the initiator's to WITHDRAWN, the other's to VOIDED |
| LikeMatchInvariant.UnmatchKeepsInv | src/modules/matches/matches.service.ts:350-459 | unmatching keeps the invariant |
| LikeMatchInvariant.ClaimKeepsInv | src/modules/identities/identities.service.ts:683-770 | claiming an unowned identity keeps the invariant if the claimant has no live pending like on it |
| LikeMatchInvariant.ResolveKeepsOthersCurrent | src/modules/identity-workflows/identity-workflows.service.ts:297-343 | resolving one like of the claim loop leaves the other summaries, read before the loop, true of the tables |
| LikeMatchInvariant.ResolveAllKeepsInv | src/modules/identity-workflows/identity-workflows.service.ts:286-348 | the whole claim loop keeps the invariant |
| LikeMatchOutcomes.WaitingLikesAreMatched | src/modules/identity-workflows/identity-workflows.service.ts:286-348 | whoever's undeleted, unexpired PENDING like waits on an identity of the claimant: if the claimant has a live like on an identity of the sender, all such likes fit the intent and no block stands, every run of the handler leaves the two matched |
| LikeMatchInvariant.BlockUserStands | src/modules/blocks/blocks.service.ts:59-211 | a new or re-used block row stands in both directions, keeps block rows unique and affects no other pair |
| LikeMatchInvariant.UnblockLifts | src/modules/blocks/blocks.service.ts:303-353 | after lifting a block the pair is blocked exactly when the other user has a block of their own; no other pair is affected |
| LikeMatchInvariant.CounterpartPointsAtUser | src/modules/auth/auth.service.ts:1252-1276 | the likes voided as counterparts are other people's likes on the deleted user's identities |
| LikeMatchInvariant.DeleteAccountKeepsInv | src/modules/auth/auth.service.ts:1250-1391 | deleting an account keeps the invariant |
| LikeMatchOutcomes.DeletionRemovesAccount | src/modules/auth/auth.service.ts:1250-1391 | after deletion the user, their ledger, likes and matches are gone, PENDING likes on their identities and the other party's like of every match of theirs are VOIDED, the identities are unowned, and every other row is as it was |
| LikeMatchOutcomes.ClosedStaysClosed | src/modules/auth/auth.service.ts:1383-1387 | over every run after the deletion, until the user registers again: no account, no ledger, no like, grant, claim or block of theirs, and nobody can block them |
| LikeMatchRuns.StepKeepsInv | src/modules/match-resolver/match-resolver.service.ts:66-202 | every step of the system keeps the like-match invariant |
| LikeMatchRuns.ReachableStatesAreSound | src/modules/match-resolver/match-resolver.service.ts:107-133 | the invariant holds in every state reachable from empty tables, where nobody claims an identity on which they have a live pending like |
| LikeMatchRuns.CreationNeverDuplicates | src/modules/likes/likes.service.ts:335-418 | in every reachable state creation never violates the unique (sender, target) key |
| LikeMatchRuns.ResolveActivates | src/modules/match-resolver/match-resolver.service.ts:256-328 | resolving can turn only its own pair ACTIVE, and only when intents, blocks and status allow it |
| LikeMatchRuns.StepRespectsBlocks | src/modules/match-resolver/match-resolver.service.ts:291-303 | no step turns a match ACTIVE while a block stands in either direction |
| LikeMatchRuns.RunKeepsBlockRows | prisma/schema.prisma:255-274 | over every run a blocker has at most one row per blocked user and none on themselves |
| LikeMatchRuns.DeletionLeavesOthersMatched | src/modules/auth/auth.service.ts:1250-1391 | after deletion no match names the user, no PENDING or MATCHED like targets their former identities, which are unowned, and every other ACTIVE match is unchanged with both likes MATCHED |
| LikeMatchRuns.StepCharges | src/modules/likes/likes.service.ts:457-541 | each step adds one credit to a user's genuine debits if it is a successful like of theirs and nothing otherwise |
| LikeMatchRuns.LikesArePaidFor | src/modules/likes/likes.service.ts:457-541 | over every run the genuine debits grow by exactly one credit per successful like and never exceed what was granted |
| UnmatchedPairs.StepKeepsDormant | src/modules/match-resolver/match-resolver.service.ts:212-243 | no step of anyone but a, except b claiming what a likes, makes a dormant pair active or gives a a live like on b |
| UnmatchedPairs.UnmatchMakesDormant | src/modules/matches/matches.service.ts:379-414 | a's unmatch leaves the pair dormant exactly when a has no other live PENDING or VOIDED like on b |
| UnmatchedPairs.UnmatchedStaysUnmatched | src/modules/matches/matches.service.ts:391-414 | after that no run in which a stays passive and b claims nothing a likes makes the pair ACTIVE, however often b likes a |
| UnmatchedPairs.RelikeReactivates | src/modules/match-resolver/match-resolver.service.ts:219-226 | when a re-likes b, by identity or by value, and b's like is still live, compatible and unblocked, the same match row becomes ACTIVE with no new like or match row |
| ClaimedIdentities.SelfMatchExactly | src/modules/identity-workflows/identity-workflows.service.ts:286-348 | after a claim some run of the handler matches the claimant with themselves exactly when they had an undeleted PENDING like on that identity that passes the filter |
| ClaimedIdentities.OwnLikeMatchesItself | src/modules/match-resolver/match-resolver.service.ts:216-219 | such a like is picked up, is a valid reverse like of itself, and its resolution commits: nothing else in sound tables stops it |
| ClaimedIdentities.SoundTablesMatchNobodyWithThemselves | src/modules/match-resolver/match-resolver.service.ts:66-202 | while the invariant holds no run of the handler matches a user with themselves |
| ClaimedIdentities.LeftoverLikeAnswersExactly | src/modules/auth/auth.service.ts:1252-1320 | a like on an identity of a deleted account is a reverse like for whoever claims the identity next exactly if it is undeleted, passes the filter and was PENDING, VOIDED or a counterpart of one of the account's matches |
| ClaimedIdentities.LeftoverLikeCompletesExactly | src/modules/match-resolver/match-resolver.service.ts:212-243 | when the new owner likes its sender back, that like completes their match exactly if it survived so, the intents fit and nothing is blocked |
| ClaimedIdentities.ChoiceStaysValid | src/modules/identity-workflows/identity-workflows.service.ts:330-343 | a fixed choice of reverse like stays a valid answer of the lookup until its pair is matched |
| ClaimedIdentities.ActiveAfterClaim | src/modules/identity-workflows/identity-workflows.service.ts:286-348 | the pairs ACTIVE after the loop are those ACTIVE before and those whose summary and chosen like are compatible and unblocked, all read before the loop |
| ClaimedIdentities.ClaimOrderIrrelevant | src/modules/identity-workflows/identity-workflows.service.ts:330-343 | for a fixed choice of reverse likes, every order of resolution leaves the same pairs ACTIVE |
| ConcurrentLikes.CommitKeepsRacing | src/modules/match-resolver/match-resolver.service.ts:172-190 | the first match transaction commits and the second meets the unique pair key |
| ConcurrentLikes.LostReadsTheMatch | src/modules/match-resolver/match-resolver.service.ts:172-190 | the caller that lost the race is told the id of the match the winner made |
| ConcurrentLikes.RaceEndsInOneMatch | src/modules/match-resolver/match-resolver.service.ts:66-202 | under every interleaving of two mutual creations with no prior rows the pair ends with exactly one ACTIVE match naming both likes, both MATCHED, and every caller that was told a match was told that one |
| ConcurrentLikes.RaceTerminates | src/modules/match-resolver/match-resolver.service.ts:66-202 | five turns of a caller are enough for it to finish, whatever the other does |
| LikeMatchRuns.StepBlocksExactly | src/modules/blocks/blocks.service.ts:59-376 | after any step a blocks b exactly if the step places that block, or it stood before and the step neither lifts it nor closes one of the two accounts; the check finds a block of either on the other |
| LikeMatchService.Tables.FindReverseLike | src/modules/match-resolver/match-resolver.service.ts:212-243 | returns a live PENDING or VOIDED like from b on an identity of a, and none only if there is none |
| LikeMatchService.Tables.ValidateMatchEligibility | src/modules/match-resolver/match-resolver.service.ts:256-328 | valid exactly when the intents are equal or one is OPEN, neither has an unlifted block on the other and the pair's row is not ACTIVE; then the existing row is returned |
| LikeMatchService.Tables.ExecuteMatchTransaction | src/modules/match-resolver/match-resolver.service.ts:339-417 | writes the row with the likes, intents and id given, ACTIVE, and both likes MATCHED, together and nothing else; or changes nothing on a unique-key conflict or a missing row |
| LikeMatchService.Tables.ResolveFromLike | src/modules/match-resolver/match-resolver.service.ts:66-202 | in sound tables answers exactly the match it made, under exactly the conditions on likes, intents, blocks and the pair's row, and writes nothing otherwise; in any tables a conflict is answered with the pair's row |
| LikeMatchService.Tables.CreateOwnLike | src/modules/likes/likes.service.ts:190-628 | in sound tables each answer by its own condition on rows, one row and one debit for a created like, and a match told exactly when one was made; the invariant stays and no row is duplicated |
| LikeMatchService.Tables.LocateTarget | src/modules/likes/likes.service.ts:228-295 | an id is taken as it is, a known value gives its identity, and nothing gives none, all without a change; a new value gets a new identity, unowned and unliked; locating again finds the same, and the invariant stays |
| LikeMatchService.Tables.CheckTarget | src/modules/likes/likes.service.ts:297-418 | returns the first refusal that applies, or a re-usable row if there is one |
| LikeMatchService.Tables.PersistAndCharge | src/modules/likes/likes.service.ts:457-541 | the like row and its debit are written together or not at all |
| LikeMatchService.Tables.DeleteOwnLike | src/modules/likes/likes.service.ts:753-839 | deletes, with status and time, exactly the sender's own undeleted PENDING like and changes nothing else; the two errors are told apart |
| LikeMatchService.Tables.UnmatchPair | src/modules/matches/matches.service.ts:350-459 | for exactly the participants of an undeleted ACTIVE match: the row becomes UNMATCHED and deleted, the caller's like WITHDRAWN, the other VOIDED, nothing else changes, and the invariant stays |
| LikeMatchService.Tables.CreateBlock | src/modules/blocks/blocks.service.ts:59-211 | self-block, missing user and standing block are refused in that order, each exactly by its condition; otherwise exactly one row, the pair's lifted one or a new one, becomes a standing block |
| LikeMatchService.Tables.DeleteBlock | src/modules/blocks/blocks.service.ts:303-353 | lifts exactly an unlifted row of the caller; the caller's block on that one user ends, every other stands, the other direction included, and rows stay unique |
| LikeMatchService.Tables.ClaimOrCreateIdentity | src/modules/identities/identities.service.ts:683-770 | refused exactly when another user owns the value's identity; otherwise that identity, or a new one for a new value, ends owned by the claimant and nothing else changes |
| LikeMatchService.Tables.HandleIdentityClaimed | src/modules/identity-workflows/identity-workflows.service.ts:244-348 | resolves once each of exactly the undeleted, unexpired PENDING likes on the user's identities, from summaries read before the loop; every one of them that fits ends matched, and the invariant stays |
| LikeMatchService.Tables.DissolveAllMatches | src/modules/auth/auth.service.ts:1252-1286 | voids the other party's like of every match of the user, ACTIVE or not, and no other; exactly those matches go |
| LikeMatchService.Tables.RetireLikes | src/modules/auth/auth.service.ts:1288-1320 | voids the pending likes on the user's identities; the user's own likes go with the account |
| LikeMatchService.Tables.LetGo | src/modules/auth/auth.service.ts:1345-1383 | afterwards nobody is blocked with the user, between other people exactly the same pairs are blocked, and the user's identities are unowned |
| LikeMatchService.Tables.DeleteUserAccount | src/modules/auth/auth.service.ts:1250-1391 | exactly for a user: the account, its ledger, likes and matches go, likes that pointed at it are VOIDED, its identities are unowned, and every other row stays |
| RateLimiter.Throttle.RunScript | src/infrastructure/redis/throttler-storage-redis.service.ts:19-60 | the script, command by command, performs the limiter step; under a lockout it changes nothing and replies limit + 1 and the seconds left, rounded up |
| RateLimiter.AllowedIsBounded | src/infrastructure/redis/throttler-storage-redis.service.ts:19-60 | with constant ttl and limit any half-open interval of k ttl holds at most (k + 1) limit allowed calls, for every trace |
| RateLimiter.WindowAllowsExactly | src/infrastructure/redis/throttler-storage-redis.service.ts:32-60 | of calls made within one window from an empty state exactly the first limit are allowed |
| RateLimiter.WindowReplies | src/infrastructure/redis/throttler-storage-redis.service.ts:32-60 | the whole reply to each call of a window up to the first refused one: its number, the seconds left of the window, whether it is refused and for how long |
| RateLimiter.RefusedStaysRefused | src/infrastructure/redis/throttler-storage-redis.service.ts:25-30 | after a refusal no call is allowed before both the window and the lockout have ended |
| RateLimiter.RefusedKeepsWindow | src/infrastructure/redis/throttler-storage-redis.service.ts:32-42 | a refused call does not move the window's end, unless it opens the window itself, which only a limit of zero allows |
| RateLimiter.TraceReaches | src/infrastructure/redis/throttler-storage-redis.service.ts:19-60 | after every trace the counter has an expiry and a lockout belongs to an overfull window or is older than the window |
| RateLimiter.WaitIsEnoughExactly | src/infrastructure/redis/throttler-storage-redis.service.ts:44-60 | after the returned wait the next call is allowed exactly when the window is over; a refusal by the counter always returns enough, with under a second to spare |
| RateLimiter.EveryWaitIsEnoughExactly | src/infrastructure/redis/throttler-storage-redis.service.ts:19-60 | every wait returned in every trace of calls is enough exactly when the limit is positive and there is no lockout, or the window is at most as long as the lockout or a second |
| RateLimiter.ShortLockoutIsNotEnough | src/infrastructure/redis/throttler-storage-redis.service.ts:25-30 | for every other configuration with a positive limit: limit + 1 calls at 0 and one during the lockout, whose returned wait is too short |
| EncryptedText.ParsePrint | src/core/identity-crypto/identity-crypto.service.ts:287-317 | the parser recovers all five fields from the printed text for every key id, colons included |
| EncryptedText.PrintParse | src/core/identity-crypto/identity-crypto.service.ts:299-317 | printing an accepted parse gives back the text, and the last four fields hold no colon |
| EncryptedText.ParseAcceptsExactly | src/core/identity-crypto/identity-crypto.service.ts:299-317 | a text is accepted exactly if it prints some key id and four colon-free fields |
| EncryptedText.JoinSplit | src/core/identity-crypto/identity-crypto.service.ts:304-315 | joining the parts of a split with colons gives back the string |
| BatchDecryption.DecryptEncrypt | src/core/identity-crypto/identity-crypto.service.ts:287-368 | decrypting the text of an encryption is opening the sealed parts: no field is lost or swapped on the way |
| BatchDecryption.OnlyPrintedTextsDecrypt | src/core/identity-crypto/identity-crypto.service.ts:330-353 | no text, plain text and malformed text give nothing: only a printed encryption can decrypt |
| BatchDecryption.CompositeInjective | src/core/identity-crypto/identity-crypto.service.ts:429-437 | the composite key determines key id and wrapped key, since a parsed wrapped key holds no colon |
| BatchDecryption.TableHoldsKeysNeeded | src/core/identity-crypto/identity-crypto.service.ts:395-437 | the key table has one entry for each distinct data key of the batch |
| BatchDecryption.Gather | src/core/identity-crypto/identity-crypto.service.ts:387-438 | the first pass collects the usable values in order and the first reference met for each data key |
| BatchDecryption.UnwrapKeys | src/core/identity-crypto/identity-crypto.service.ts:444-464 | every distinct key is unwrapped once, in any order, a failure giving null |
| BatchDecryption.OpenItems | src/core/identity-crypto/identity-crypto.service.ts:466-487 | every usable value gets what decrypting it alone gives; the other results are untouched |
| BatchDecryption.DecryptBatch | src/core/identity-crypto/identity-crypto.service.ts:380-490 | results[i] is what decryptText(values[i]) gives, for every list and index, and each distinct data key is unwrapped exactly once |
| BatchDecryption.CollectEncryptedStrings | src/common/interceptors/decryption.interceptor.ts:87-122 | appends the encrypted strings of the tree in traversal order |
| BatchDecryption.ReplaceIsDecrypted | src/common/interceptors/decryption.interceptor.ts:124-166 | replacing from a table that knows the tree's encrypted strings decrypts each of them where it stands |
| BatchDecryption.DecryptPayload | src/common/interceptors/decryption.interceptor.ts:47-85 | collecting, deduplicating, one batch and replacing equals decrypting each encrypted string of the tree where it stands, null where it does not decrypt, everything else unchanged |
| KeyCache.CacheStaysBounded | src/core/kms/cloud-kms-key-manager.service.ts:167-183 | over every run the cache lists each key once and holds at most 1000 entries |
| KeyCache.EvictionIsByAge | src/core/kms/cloud-kms-key-manager.service.ts:151-183 | a hit moves nothing; storing into a full cache drops the entry stored longest ago, even when the key is present already |
| KeyCache.RunStaysBacked | src/core/kms/cloud-kms-key-manager.service.ts:98-183 | over every run each entry goes back to a wrap or a KMS answer one lifetime before its expiry |
| KeyCache.CacheKeyIsInjective | src/core/kms/cloud-kms-key-manager.service.ts:147-149 | under a collisionless hash, and when no key id begins another, the cache key determines key id and wrapped key |
| KeyCache.CacheIsTransparent | src/core/kms/cloud-kms-key-manager.service.ts:122-165 | then every lookup of every run, with calls overlapping at will, gives nothing or what KMS would decrypt, from an event at most five minutes old |
| KeyCache.PrefixedIdsAnswerWrongly | src/core/kms/cloud-kms-key-manager.service.ts:147-149 | when one configured key id begins another, a run of one fetch makes the next lookup answer with another key |
| KeyCache.TransparentExactlyWhenPrefixFree | src/core/kms/cloud-kms-key-manager.service.ts:98-183 | for a collisionless hash, every lookup of every run against every KMS is right exactly when no configured key id begins another |
| KeyCache.CloudKmsKeyManager.GetCachedUnwrappedKey | src/core/kms/cloud-kms-key-manager.service.ts:151-165 | an answer comes from an entry that has not expired, leaves the cache alone and, when cache keys cannot be confused, is what KMS decrypts; after a miss no entry is left under the key, no other entry is touched, and no lookup made from now on answers differently |
| KeyCache.CloudKmsKeyManager.CacheUnwrappedKey | src/core/kms/cloud-kms-key-manager.service.ts:167-183 | the key is answered for exactly five minutes, no other entry is changed or added, and the cache keeps one place per key and its maximum |
| KeyCache.CloudKmsKeyManager.WrapDataKey | src/core/kms/cloud-kms-key-manager.service.ts:98-115 | returns KMS's ciphertext under the active key id and leaves its plaintext cached; without a ciphertext nothing changes |
| KeyCache.CloudKmsKeyManager.UnwrapDataKey | src/core/kms/cloud-kms-key-manager.service.ts:122-145 | answers the unexpired entry or else what KMS decrypts, errors included, and leaves the answer cached; without key-id prefixes or collisions it is always what KMS decrypts; the cache stays within its maximum |
| WorkerPool.PoolIsBounded | src/modules/matches/matches.service.ts:645-657 | at every point of every interleaving the indices taken are 0, 1, 2, ... each once, and at most limit items are in flight |
| WorkerPool.PoolTerminates | src/modules/matches/matches.service.ts:645-657 | every interleaving ends within three steps per item and one per worker |
| WorkerPool.PoolMapsExactly | src/modules/matches/matches.service.ts:635-659 | once no worker can move, the call has resolved with results[i] = fn(items[i]) for all i, fn called once on each, exactly when no item rejects and limit >= 1 or there are no items |
| WorkerPool.RejectionsAreReported | src/modules/matches/matches.service.ts:645-657 | with a positive limit the call resolves exactly when no item rejects |

## Left out

- Finer concurrency than the race of two first likes: elsewhere each service call or transaction is one step.
- LikeMatchService.Tables.HandleIdentityClaimed: the handler starts its resolutions together; here they run one after the other in any order. Its filter on deleted identities is not modelled, since identities are deleted only where ownership is left out above.
- LikeMatchService.Tables.CreateOwnLike: asynchronous creation (`isAsync`), whose resolution runs after the call returned, from a summary that may be out of date by then, is not modelled.
- LikeMatchService.Tables.ClaimOrCreateIdentity: an identity that another user owns is refused also when it is unverified, where the code re-assigns it. `IdentitiesService.delete`, that re-assignment and the other ways identities change move an identity while matches still name likes on it, which breaks the ownership part of the invariant.
- LikeMatchInvariant.ClaimKeepsInv: assumes that the claimant has no live pending like on the identity, as does every run theorem of its claims; `SelfMatchExactly` shows what happens exactly otherwise.
- UnmatchedPairs.UnmatchedStaysUnmatched: the step of b claiming an identity that a likes is excluded, since it gives a a live like on b.
- ConcurrentLikes.RaceEndsInOneMatch: starts with no prior like or match row of the pair, because two callers re-using VOIDED rows can race for them.
- ClaimedIdentities.ClaimOrderIrrelevant: the reverse like of each sender is fixed; with several candidates a lookup may choose differently in each order.
- CreditViews.WarnerAgreesWithWorker: bundles that tie on expiry and creation time come back in insertion order in both queries.
- RateLimiter.AllowedIsBounded: one key with a constant ttl and limit; collisions between key strings, the in-memory fallback and Redis losing a key are not modelled.
- KeyCache.CacheIsTransparent: assumes a collisionless hash and that KMS decrypts what it encrypted; the cache is emptied only by a restart.
- BatchDecryption.DecryptPayload: the tree has arrays, objects, strings and opaque leaves; object prototypes, cyclic objects and `Map` or `Set` values are not modelled.
- WorkerPool.PoolMapsExactly: a rejecting call stops its worker while the others go on; that the caller sees the rejection before they finish is not modelled. The only caller passes the limit 5 (`src/modules/matches/matches.service.ts`, lines 85 and 214).
- `canCreate`, ledger listings, and the session purge loop: they would add only easy members.
- Time-zone arithmetic for expiry dates: an expiry is any instant later than the grant or the like.
- Signs of amounts: amounts are natural numbers, so the absolute values taken on writing are the amounts themselves.
- LikeMatchService.Tables.DeleteUserAccount: the stamping of phone hashes, the detaching of payment transactions and the Firebase teardown before it are not modelled.
- LikeMatchService.Tables.CreateBlock: the phone hash stored with a block, kept for later accounts of the same phone, is not modelled.
- Labels, profiles, masking, list queries, notifications, audit and event emission, logging, controllers and guards.
- One-time passwords, sessions, payments, subscriptions, chat and webhooks.

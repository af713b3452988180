# OmniSwitch API: models and proofs

Models, in Dafny 4.11, of the parts of the OmniSwitch payment API whose correctness is not visible in any one
function, with proofs about them. `dafny verify dfyconfig.toml` checks everything.

| file | what it models |
|---|---|
| `Pairing.dfy`, `JaroWinkler.dfy` | the greedy character matching and the two similarity scores, as loops over mark arrays |
| `Names.dfy`, `Screening.dfy` | name normalization, and the sanctions screening built on the scores |
| `Revocation.dfy`, `Mfa.dfy`, `Sessions.dfy` | expiring revocation keys, the second factor, and all of login, logout, MFA trade, delegation and its revocation, and deactivation as one timed state machine |
| `Semaphore.dfy`, `Throttler.dfy` | the bulkhead semaphore under every interleaving, and the fixed-window hit counter over every trace |
| `Retention.dfy`, `LatestColumns.dfy`, `LegalHolds.dfy` | archiving transactions, deletion jobs and backups, all interleaved; what becomes of updates; legal holds and disputes |
| `Options.dfy`, `Sets.dfy` | an optional value, and the size of a subset |
| `Decimal.dfy`, `Partitions.dfy` | numerals, the calendar, and the monthly partitions |
| `Keyset.dfy`, `Finders.dfy` | keyset pagination over tables that change, for merchants and for the webhook delivery log |
| `Reviews.dfy` | the KYC and KYB decision machines |
| `WebhookSignature.dfy` | the signature header of outbound webhooks, printed and parsed |

Results worth knowing before reading further:

- **The Jaro loop is symmetric.** It is written as a pass over one string, yet a pairing it builds is the only
  *settled* one (no compatible pair of positions is passed over by both its ends for something later), and that
  notion does not change when the strings are exchanged. The same pairing is also a largest one. A score is 1
  exactly on equal strings, which is what the `HIT` test of the screening relies on.
- **"Revoke all" is final exactly for tokens the seven-day marker outlives.** Logins and MFA trades give one hour
  or less. A delegation may be given up to 30 days, and such a token validates again once the marker has lapsed
  (`Sessions.RevokeAllIsNotFinalForLongDelegations`). `Sessions.RevokeAllIsFinalIff` and
  `Sessions.DeactivationShutsOutIff` say exactly when the promise is kept.
- **A revoked agent token can come back.** Logging out writes a key that lasts as long as the token. Revoking the
  delegation afterwards replaces it by one that may end a little earlier, because the row's expiry and the
  token's are rounded differently. `Sessions.NeverAgainIff` says exactly when a token is gone for good, and
  `Sessions.LoggedOutAgentComesBack` gives a run. Tokens that are not an agent's are not affected.
- **Under MFA a delegation needs no code.** A session from before MFA was enabled can still create one
  (`Sessions.DelegationNeedsNoTrade`). Every other full token issued under MFA comes from an accepted trade
  (`Sessions.FullTokenUnderMfaIff`).
- **The delivery log loses rows that are too close in time.** The table stores microseconds and the cursor comes
  back in milliseconds, so a page that ends inside a millisecond skips the rest of it
  (`DeliveryLog.LogCanLoseADelivery`). `DeliveryLog.FollowsAllIff` gives the exact condition.
- **Archiving and deletion can lose an update, not a payment.** An archiving transaction copies rows and later
  deletes the live ones by id, so that an update in between is lost
  (`LatestColumns.ArchivingCanLoseAnUpdate`). A deletion job deletes by id what it selected and backed up earlier; if
  the payment was held, updated and archived again meanwhile, the backup has the older columns
  (`LatestColumns.DeletionCanLoseAnUpdate`). `LatestColumns.UpdateIsKeptIff` gives the exact condition for both.
- **A KYC submission can undo a KYB decision.** It saves the whole row it read before waiting for the provider.
  `Reviews.SubmissionIsAtomicIff` says exactly when that is harmless.
- **A legal hold is in force exactly if no archiving transaction has copied the payment.** `placeHold` looks a live
  payment up and then updates it, outside a transaction, and archiving deletes by id what it has copied. A hold
  misses if a transaction that has copied the payment commits before the update or is still under way at it
  (`LegalHolds.InterruptedHoldIff`, with runs in `HoldCanMiss` and `WholeHoldCanMiss`). `LegalHolds.HoldIsCertainIff`
  says what can be told at the lookup. A dispute protects an archived payment only from jobs that have not selected
  it yet (`LegalHolds.DisputedIsKeptIff`).
- **A verification with a backup code can undo a deactivation.** `verifyCode` saves the whole row it read before it
  compared the code (`Sessions.DeactivationCanBeUndone`). `Sessions.VerificationIsHarmlessIff` gives the condition.
- **Any stretch of one window length admits at most 2·limit − 1 hits**, one fewer than two full windows, and this
  is reached.
- The example in the comment of `normalizeName` does not match its code, which turns an apostrophe into a space.
  The model follows the code. So does the KYC model where a comment says that the application id is null outside
  review: a decision leaves it in place. The comment on `archivePayments` says that it may archive fewer rows than it
  counted; it may also archive more (`Retention.ArchivedCanExceedEligible`).

Modelling decisions. Scores are exact rationals (`real`). Times are integers of one clock that does not run
backwards. A Redis key lives while the clock is before its expiry. Randomness, bcrypt, TOTP, HMAC and Unicode
upper-casing are parameters with the law that is used of them stated as a predicate. A request is one atomic step,
except deactivation (two writes), archiving (copy, commit), deletion (select, backup, delete) and, in the lemmas
that say so, the hold on a live payment (lookup, update), a KYC or KYB submission (read, save) and a verification of
an MFA code (read, save). Creating a delegation takes time: its row
gets its expiry first and its token is signed later. Configuration thresholds and faults are
arguments. An `iat` of 0 is falsy in `jwt.strategy.ts`, so the results on "revoke all" are about tokens with another one.

## Model

| member | source | states |
|---|---|---|
| Pairing.MatchedIsSettled | src/modules/merchant/sanctions/jaro-winkler.ts:22-32 | the pass builds a one-to-one pairing of equal characters within the window, in which no compatible pair is passed over by both ends |
| Pairing.SettledIsUnique | src/modules/merchant/sanctions/jaro-winkler.ts:22-32 | for any two strings and any window there is at most one such pairing |
| Pairing.MatchedIsSymmetric | src/modules/merchant/sanctions/jaro-winkler.ts:22-32 | the pass with its strings exchanged makes the same pairs, the other way round |
| Pairing.CommonPrefixPairsWithItself | src/modules/merchant/sanctions/jaro-winkler.ts:22-32 | every position of a common prefix is paired with itself |
| Pairing.MatchedIsLargest | src/modules/merchant/sanctions/jaro-winkler.ts:17-32 | no one-to-one pairing of equal characters within the window has more pairs than the greedy one |
| JaroWinkler.MatchesIsLargest | src/modules/merchant/sanctions/jaro-winkler.ts:17-32 | with the window the code computes, `matches` is that maximum, and it is attained |
| JaroWinkler.MatchedSymmetric | src/modules/merchant/sanctions/jaro-winkler.ts:21-42 | matched characters, number of matches and transpositions agree when the strings are exchanged |
| JaroWinkler.TranspositionsNeverOne | src/modules/merchant/sanctions/jaro-winkler.ts:35-42 | the transposition count is never exactly 1 |
| JaroWinkler.LoopScoreOne | src/modules/merchant/sanctions/jaro-winkler.ts:17-44 | the loops alone score nonempty strings in [0,1], 1 exactly if equal (so the early return agrees with them) and 0 exactly if nothing matches |
| JaroWinkler.PrefixBoost | src/modules/merchant/sanctions/jaro-winkler.ts:55-63 | the boost never lowers a score, stays within 1, reaches 1 only from 1, and closes a tenth of the gap per prefix character |
| JaroWinkler.Range | src/modules/merchant/sanctions/jaro-winkler.ts:13-64 | 0 <= Jaro <= Jaro-Winkler <= 1 for all strings, and each is 1 exactly on equal strings |
| JaroWinkler.Symmetric | src/modules/merchant/sanctions/jaro-winkler.ts:13-64 | both scores are symmetric for all strings |
| JaroWinkler.ScoreOfMatching | src/modules/merchant/sanctions/jaro-winkler.ts:17-44 | for different strings and any matching m with the stated window (no pair passed over by both ends), with t positions at which the matched characters differ, three times the score is m over the length of the one, plus m over the length of the other, plus 1 - t/(2m), or 0 if m is 0 |
| JaroWinkler.ScoreOfPrefix | src/modules/merchant/sanctions/jaro-winkler.ts:54-63 | a common prefix of p characters, 4 at most, closes p tenths of the gap to 1 |
| JaroWinkler.FindMatch | src/modules/merchant/sanctions/jaro-winkler.ts:23-31 | the inner loop finds the first unmarked equal position of the window |
| JaroWinkler.MarkMatches | src/modules/merchant/sanctions/jaro-winkler.ts:18-32 | the marks left in both arrays are the two sides of the settled pairing, and the count its size |
| JaroWinkler.CountTranspositions | src/modules/merchant/sanctions/jaro-winkler.ts:35-42 | the two-pointer scan never leaves `bMatches` and counts the positions where the matched characters differ |
| JaroWinkler.JaroSimilarity | src/modules/merchant/sanctions/jaro-winkler.ts:13-45 | the whole method, early returns included, computes the score the lemmas are about; for different strings with m > 0 matches and t transpositions, three times it is m over the length of the one, plus m over the length of the other, plus 1 - t/(2m) |
| JaroWinkler.PrefixLength | src/modules/merchant/sanctions/jaro-winkler.ts:57-62 | the prefix loop finds the longest common prefix of at most the given length |
| JaroWinkler.JaroWinklerSimilarity | src/modules/merchant/sanctions/jaro-winkler.ts:54-64 | likewise for the boosted score |
| Names.NormalizeJoinsWords | src/modules/merchant/sanctions/jaro-winkler.ts:67-73 | the chain of replacements yields the words, in the sense of the next five rows, joined by single spaces |
| Names.ToUpperMaps | src/modules/merchant/sanctions/jaro-winkler.ts:69 | upper-casing goes character by character |
| Names.SeparatorsSeparate | src/modules/merchant/sanctions/jaro-winkler.ts:70-71 | a character that upper-casing leaves alone and that is neither A-Z nor 0-9 separates the words before it from those after it |
| Names.OneWord | src/modules/merchant/sanctions/jaro-winkler.ts:70-71 | characters that are A-Z or 0-9 after upper-casing make one word |
| Names.JoinIs | src/modules/merchant/sanctions/jaro-winkler.ts:71 | words are joined by one space, and none is put at an end |
| Names.PlainIsNormal | src/modules/merchant/sanctions/jaro-winkler.ts:67-73 | words of A-Z and 0-9 joined by single spaces are their own normal form |
| Names.CaseDoesNotMatter | src/modules/merchant/sanctions/jaro-winkler.ts:67-73 | names of one length that have the same upper case at each place have the same normal form |
| Names.SameNormalForm | src/modules/merchant/sanctions/jaro-winkler.ts:67-73 | two names normalize to the same string exactly if they have the same words |
| Names.NormalizeIsIdempotent | src/modules/merchant/sanctions/jaro-winkler.ts:67-73 | for any upper-casing that leaves A-Z, 0-9 and white space alone, normalizing twice changes nothing and keeps the words |
| Screening.EntryScore | src/modules/merchant/ofac-sdn-sanctions.adapter.ts:53 | the special case for equal names agrees with the similarity |
| Screening.BestEntry | src/modules/merchant/ofac-sdn-sanctions.adapter.ts:51-57 | the loop keeps the first entry with the largest score |
| Screening.BestDecides | src/modules/merchant/ofac-sdn-sanctions.adapter.ts:59-63 | the largest score is 1 exactly if the name is listed, and reaches the threshold exactly if some entry does |
| Screening.Screen | src/modules/merchant/ofac-sdn-sanctions.adapter.ts:47-68 | CLEAR exactly if every entry scores below the threshold, HIT exactly if the normalized name is listed and the threshold is at most 1, else POTENTIAL_MATCH, with the entry and score of the first best |
| Screening.SeverityGrows | src/modules/merchant/ofac-sdn-sanctions.adapter.ts:47-68 | adding entries never makes the outcome less severe, and the order of the entries does not matter |
| Screening.SeverityByThreshold | src/modules/merchant/ofac-sdn-sanctions.adapter.ts:59-63 | raising the threshold never makes it more severe |
| Screening.PreNormalizing | src/modules/merchant/ofac-sdn-sanctions.adapter.ts:48 | with such an upper-casing, normalizing a name before it is screened does not change the outcome |
| Screening.ScreeningIsMutual | src/modules/merchant/ofac-sdn-sanctions.adapter.ts:47-68 | screening x against a list of y is as severe as y against a list of x |
| Screening.ListedNameIsHit | src/modules/merchant/ofac-sdn-sanctions.adapter.ts:53-63 | for any threshold up to 1, a name with the words of a listed one is a HIT, whatever the separators |
| Screening.ListedInAnyCase | src/modules/merchant/ofac-sdn-sanctions.adapter.ts:53-63 | so a name that differs from a listed one only in case is a HIT for any threshold up to 1 |
| Revocation.RevokedUntilExpiry | src/shared/auth/token-revocation.service.ts:45-52 | a token revoked for its remaining whole seconds stays revoked until it expires |
| Revocation.PurgingIsInvisible | src/shared/auth/token-revocation.service.ts:45-65 | removing lapsed keys at any time changes no later answer |
| Revocation.TokenRevocationService.RevokeToken | src/shared/auth/token-revocation.service.ts:45-52 | revoked at exactly the instants before the key expires; nothing is written for a life that is over |
| Revocation.TokenRevocationService.RevokeAllForMerchant | src/shared/auth/token-revocation.service.ts:55-65 | for seven days, exactly the tokens issued in that second or before are revoked |
| Mfa.BackupCodesConserved | src/modules/merchant/mfa.service.ts:47-188 | in every reachable state enabled implies a secret and not enabled implies no hashes; while enabled, codes used since the last confirmation plus codes left make ten |
| Mfa.VerifyIff | src/modules/merchant/mfa.service.ts:108-142 | a code is accepted exactly if MFA is enabled with a secret and it is a valid TOTP code or matches a stored hash; a TOTP code changes nothing, another uses up the first hash it matches |
| Mfa.ConfirmIff | src/modules/merchant/mfa.service.ts:73-99 | MFA is enabled exactly by a valid TOTP code for the stored secret, with the ten hashes of the batch; without a secret that is a conflict |
| Mfa.DisableIff | src/modules/merchant/mfa.service.ts:145-160 | all three columns are cleared exactly by a code that is accepted, else nothing changes |
| Mfa.EnrollIff | src/modules/merchant/mfa.service.ts:47-64 | a secret is stored exactly while MFA is not enabled, and a conflict otherwise |
| Mfa.UsedAtMostMatching | src/modules/merchant/mfa.service.ts:108-142 | between confirmations a code is accepted as a backup code at most as often as stored hashes match it |
| Mfa.FreshBatchMatches | src/modules/merchant/mfa.service.ts:177-188 | given the law of the hash, a fresh batch is matched by a code as often as it was drawn |
| Mfa.DrawnOnceUsedOnce | src/modules/merchant/mfa.service.ts:73-142 | until the next confirmation a code drawn once is used up at most once, and is accepted until then while MFA stays enabled |
| Mfa.SecondUseIsRefusedIff | src/modules/merchant/mfa.service.ts:109-133 | a second verification of a used-up code is accepted, but as a TOTP code, if and only if it read the row before the first one saved it |
| Mfa.GenerateBackupCodes | src/modules/merchant/mfa.service.ts:177-188 | the loop hashes every code of the batch, in order |
| Mfa.MerchantRow.GenerateEnrollment | src/modules/merchant/mfa.service.ts:47-64 | stores a secret, or refuses if MFA is enabled, and keeps the columns consistent |
| Mfa.MerchantRow.ConfirmEnrollment | src/modules/merchant/mfa.service.ts:73-99 | enables MFA with ten fresh hashes, or refuses without a secret or with a wrong code |
| Mfa.MerchantRow.VerifyCode | src/modules/merchant/mfa.service.ts:108-142 | accepts a TOTP code, or uses up the first hash the code matches, or refuses and changes nothing |
| Mfa.MerchantRow.DisableMfa | src/modules/merchant/mfa.service.ts:145-160 | clears all three columns if the code is accepted |
| Sessions.RunWellFormed | src/modules/merchant/auth.controller.ts:116-242 | in every run token ids are unique, a delegation's row expires within the second of its token or before, a token's key lasts as long as the token unless its delegation was revoked, and no marker outlives one written now |
| Sessions.GuardIff | src/shared/auth/jwt.strategy.ts:58-87 | a token is let through exactly if it was issued, has not expired, names a merchant and neither its key nor a marker from its issue on is in force; a pending one only on the verify route |
| Sessions.RefusedChangesNothing | src/shared/guards/jwt-auth.guard.ts:24-57 | a request with any other token leaves the state as it was |
| Sessions.TradesIff | src/modules/merchant/auth.controller.ts:219-242 | a verify request succeeds exactly if the token is let through, the merchant is known, MFA is enabled with a secret, and the code is a valid TOTP code or matches a stored hash |
| Sessions.TradeUsesUpTheCode | src/modules/merchant/auth.controller.ts:219-242 | it leaves the hashes as they are for a valid TOTP code, and else removes the first hash the code matches |
| Sessions.MfaRequestsAre | src/modules/merchant/mfa.service.ts:47-160 | enrolment, confirmation and disabling by a session that is let through, in terms of the columns; no other row changes |
| Sessions.SwitchedByACode | src/modules/merchant/mfa.service.ts:73-160 | no step switches MFA on but a confirmation with a valid TOTP code, and none switches it off but a disabling with an accepted one |
| Sessions.DelegateIssues | src/modules/payment/application/controllers/delegation.controller.ts:77-105 | a full session that is not an agent's always gets the row and the agent token it asks for |
| Sessions.DeadForever | src/shared/auth/jwt.strategy.ts:67-87 | a token that is expired, or revoked until it expires by something no later step can cut short, never validates again in any run, also after the Redis keys have lapsed |
| Sessions.NeverAgainIff | src/shared/auth/jwt.strategy.ts:67-87 | an issued token never validates again, under every later run, if and only if it is expired, a marker outlives it, or a key does that the revocation of its delegation cannot cut short |
| Sessions.RevokedForeverIff | src/modules/merchant/auth.controller.ts:164-172 | a token that logs out or is traded never validates again if and only if it is not that of a delegation whose revocation can still cut its key short |
| Sessions.RevokedForever | src/modules/merchant/auth.controller.ts:164-172 | so a token that is not an agent's and logs out or is traded never validates again in any run |
| Sessions.DelegationRevokedForeverIff | src/modules/payment/application/services/delegation.service.ts:143-161 | revoking a delegation is final for its valid token if and only if the clock is not further into its second than at creation and the token was signed in the second of its creation |
| Sessions.LoggedOutAgentComesBack | src/modules/payment/application/services/delegation.service.ts:155-157 | a run in which an agent's token logs out, its delegation is revoked, and it validates again before it expires |
| Sessions.ValidUntilExpiry | src/shared/auth/jwt.strategy.ts:58-87 | a valid token that nobody revokes stays valid exactly until it expires |
| Sessions.FreshTokenValidates | src/modules/merchant/auth.controller.ts:116-156 | a token just issued to a merchant works, exactly unless that merchant's sessions were revoked in the same second |
| Sessions.RevokeAllExactly | src/shared/auth/token-revocation.service.ts:9-65 | after "revoke all", and unless it is revoked again, a token validates exactly from the lapse of the marker to its own expiry |
| Sessions.RevokeAllIsFinalIff | src/shared/auth/token-revocation.service.ts:9-65 | "revoke all" is final for a token, under every later run, if and only if the marker outlives it |
| Sessions.RevokeAllIsFinal | src/shared/auth/token-revocation.service.ts:55-65 | so it is final for every token issued in that second or before that lives at most seven days |
| Sessions.RevokeAllIsNotFinalForLongDelegations | src/modules/payment/application/dto/delegation.dto.ts:66-74 | a run in which a 30-day delegation validates after "revoke all" |
| Sessions.SealedUntilReactivation | src/modules/merchant/merchant.service.ts:1186-1198 | an inactive merchant all of whose tokens are dead has no valid token and is issued none until it is reactivated, also if delegations are revoked meanwhile |
| Sessions.DeactivationShutsOutIff | src/modules/merchant/merchant.service.ts:1186-1198 | with whole requests as steps, a completed deactivation, with anything interleaved between its writes, shuts the merchant out until reactivation if and only if every issued token is dead already or outlived by the marker |
| Sessions.StaysShortLived | src/modules/merchant/auth.controller.ts:116-242 | in every run only a delegation can make a token that lives longer than seven days |
| Sessions.DeactivationShutsOut | src/modules/merchant/merchant.service.ts:1186-1198 | so a deactivation shuts out every merchant if delegations are given at most seven days |
| Sessions.VerificationIsHarmlessIff | src/modules/merchant/mfa.service.ts:109-133 | whatever comes between reading and saving the row, a verification leaves it as it is whether the merchant is active, if and only if it uses no backup code |
| Sessions.DeactivationCanBeUndone | src/modules/merchant/mfa.service.ts:126-129 | a whole deactivation between reading and saving is undone, and the merchant is issued tokens again |
| Sessions.VerifiedAtOnce | src/modules/merchant/mfa.service.ts:109-133 | with nothing in between, reading and saving is the step that the machine takes |
| Sessions.TradesAreBounded | src/modules/merchant/auth.controller.ts:219-242 | in every run a token is traded for a full one at most once, or twice if it is an agent's |
| Sessions.TradedAgainIff | src/modules/merchant/auth.controller.ts:219-242 | given a code that stays good, a traded token can be traded again if and only if it is that of a delegation whose revocation can still cut its key short |
| Sessions.PendingOnlyTrades | src/shared/guards/jwt-auth.guard.ts:24-57 | every request made with a token, but the trade, leaves the state as it was if the token is pending |
| Sessions.Provenance | src/modules/merchant/auth.controller.ts:116-242 | every token of every run comes from a step that was entitled to issue it, with the lifetime of its kind |
| Sessions.FullTokenUnderMfaIff | src/modules/merchant/auth.controller.ts:116-242 | a full token issued while MFA is enabled comes from a verify request of that merchant that was let through with a valid TOTP code or one that matches a stored hash, if and only if the step was not a delegation, so always if it is not an agent's |
| Sessions.DelegationNeedsNoTrade | src/modules/payment/application/controllers/delegation.controller.ts:77-105 | a run without a trade after which MFA is enabled and a delegation issues a full token |
| Sessions.AuthorityOf | src/modules/merchant/auth.controller.ts:116-242 | every full token goes back to an accepted trade, to a login while MFA was off, or to a delegation by a token from before the run |
| Sessions.AuthController.IssueToken | src/modules/merchant/auth.controller.ts:116-156 | a token exactly for a known, active merchant with the right secret: fresh, pending for 300 seconds if MFA is enabled, else full for 3600; otherwise no change |
| Sessions.AuthController.RevokeCurrentToken | src/modules/merchant/auth.controller.ts:164-172 | if the guard lets the token through, it does not validate any more |
| Sessions.AuthController.VerifyMfa | src/modules/merchant/auth.controller.ts:219-242 | a full token comes back exactly if the guard lets the token through, the merchant is known, MFA is enabled with a secret, and the code is a valid TOTP code or matches a stored hash; then the old token is dead |
| Sessions.AuthController.RevokeDelegation | src/modules/payment/application/services/delegation.service.ts:143-161 | succeeds exactly once, for an administrator or a full session of the delegation's merchant that is not an agent's; the token stops validating at once exactly if its row has a second left |
| Sessions.AuthController.SetActive | src/modules/merchant/merchant.service.ts:1186-1198 | the two writes of a deactivation in their order, or a reactivation |
| Semaphores.Semaphore.Acquire | src/shared/utils/semaphore.ts:26-34 | keeps permits conserved and none free beside a waiter; the caller holds a permit at once exactly if fewer than maxConcurrent do, else it is last in the queue |
| Semaphores.Semaphore.Release | src/shared/utils/semaphore.ts:36-43 | keeps the same; the holder's permit passes to the caller that has waited longest, or becomes free if nobody waits |
| Semaphores.RunInv | src/shared/utils/semaphore.ts:9-44 | in every interleaving running + handed over + available = maxConcurrent, nobody waits beside a free permit, and the order of calls is the order of grants followed by the queue |
| Semaphores.Guarantees | src/shared/utils/semaphore.ts:9-44 | at most maxConcurrent hold a permit, all of them if anyone waits, and nobody is overtaken |
| Semaphores.GrantedByTheRightRelease | src/shared/utils/semaphore.ts:26-43 | a waiter with k ahead of it is granted by exactly the (k+1)th later release |
| Semaphores.WaitersAreNotAbandoned | src/shared/utils/semaphore.ts:17-24 | while anyone waits, and there is at least one permit, somebody holds one |
| Throttler.RedisThrottlerStorage.Increment | src/shared/throttler/redis-throttler-storage.service.ts:53-90 | one counter is incremented, its expiry set on the first hit only, and the reported wait ends within a second after the window |
| Throttler.CounterOfWindow | src/shared/throttler/redis-throttler-storage.service.ts:56-61 | the count is the hit's place in its window, which ends one ttl after the hit that opened it, whatever follows |
| Throttler.WindowBound | src/shared/throttler/redis-throttler-storage.service.ts:77-90 | a window lets through at most the largest limit used in it |
| Throttler.IntervalBound | src/shared/throttler/redis-throttler-storage.service.ts:77-90 | with hits in order of time and limits of at most `limit`, any stretch of one ttl lets through at most 2*limit - 1 of them |
| Throttler.IntervalBoundIsReached | src/shared/throttler/redis-throttler-storage.service.ts:77-90 | for every limit, and every ttl of at least two milliseconds, a trace that reaches the bound |
| Throttler.UnblocksAtWindowEnd | src/shared/throttler/redis-throttler-storage.service.ts:66-90 | under one limit, a blocked key stays blocked for the rest of the window and the first hit after it is let through |
| Retention.NothingIsLost | src/jobs/run-deletion-job.ts:92-156 | over any run with backups required, live and archive are disjoint, every payment ever live is live, archived or in a written backup, and so is every outbox entry, with its columns |
| LatestColumns.LatestColumnsAreKept | src/jobs/run-archiving-job.ts:89-121 | the latest columns of a payment are in a table or a backup after every run in which it is not updated while an archiving transaction or a deletion job under way has it with other columns |
| LatestColumns.UpdateIsKeptIff | src/jobs/run-archiving-job.ts:89-121 | an update of a live payment survives whatever follows that does not change the columns again, if and only if a backup has the new columns already, or no archiving transaction under way has copied it with other columns and no deletion job that selected it with other columns can still find it in the archive |
| LatestColumns.ArchivingCanLoseAnUpdate | src/jobs/run-archiving-job.ts:89-121 | a refund between the INSERT and the DELETE of an archiving transaction, after which its columns are nowhere |
| LatestColumns.DeletionCanLoseAnUpdate | src/jobs/run-deletion-job.ts:118-147 | a run after which the latest columns of a payment are nowhere, because a job deletes what it had selected and backed up before |
| Retention.ArchivesExactly | src/jobs/run-archiving-job.ts:89-122 | an archiving transaction that nothing interrupts moves a payment exactly if it is old enough, in one of the five final states, not held, not disputed, not mismatched and not copied by another one; the archive has its row |
| Retention.ArchivesEntryExactly | src/jobs/run-archiving-job.ts:140-172 | likewise an outbox entry exactly if it is old enough, PUBLISHED and not copied by another one; the archive has an equal row, and otherwise it stays live as it was |
| Retention.OnlyPublishedIsCopied | src/jobs/run-archiving-job.ts:151-164 | over any run, an entry that a transaction has copied was live, old enough and PUBLISHED at the INSERT that copied it |
| Retention.ArchivedAsWritten | src/jobs/run-archiving-job.ts:71-127 | a payment is archived as it was last written, new or updated |
| Retention.ArchivedAsEntered | src/jobs/run-archiving-job.ts:140-172 | so is a new outbox entry |
| Retention.ArchivedOncePublished | src/jobs/run-archiving-job.ts:140-172 | an old entry that is put into a state is archived next exactly if that is PUBLISHED |
| Retention.MismatchedStaysLive | src/jobs/run-archiving-job.ts:110-113 | a payment reported as mismatched before any transaction has copied it is live after every run |
| Retention.DisputedStaysLive | src/jobs/run-archiving-job.ts:109 | one disputed before that is live after every run in which the dispute is not closed |
| Retention.SelectsExactly | src/jobs/run-deletion-job.ts:100-115 | a deletion job selects an archived payment exactly if it is old enough, not held and not disputed, and an archived entry exactly if it is old enough |
| Retention.DeletesExactly | src/jobs/run-deletion-job.ts:118-147 | a deletion without a fault leaves exactly the other archived rows, as they were, and a required backup has every selected one |
| LegalHolds.ShieldedStaysLiveIff | src/jobs/run-archiving-job.ts:105-113 | a payment that is held, disputed, mismatched or not terminal stays live as long as it is any of these, if and only if no archiving transaction had copied it before |
| LegalHolds.HeldStaysLiveIff | src/modules/payment/application/services/legal-hold.service.ts:52-134 | a held payment stays live and held until released, also against a deletion job that had selected it, if and only if no archiving transaction under way has copied it |
| LegalHolds.HoldTakesEffectIff | src/modules/payment/application/services/legal-hold.service.ts:52-111 | a hold placed without interruption, on a payment of either table, is in force until released if and only if no archiving transaction under way has copied it |
| LegalHolds.InterruptedHoldIff | src/modules/payment/application/services/legal-hold.service.ts:53-57 | with anything between the lookup and the update of a live payment, the hold is in force until released if and only if no archiving transaction that has copied the payment commits in between or is under way at the update |
| LegalHolds.HoldIsCertainIff | src/modules/payment/application/services/legal-hold.service.ts:53-57 | at the lookup: if nobody touches the payment until the update and archiving that starts has at most a given threshold, the hold is in force after every such run and until released if and only if no transaction under way has copied the payment and it is younger than the threshold or shielded already |
| LegalHolds.HoldCanMiss | src/modules/payment/application/services/legal-hold.service.ts:53-57 | a whole archiving transaction between lookup and update, and the payment is archived without a hold |
| LegalHolds.WholeHoldCanMiss | src/jobs/run-archiving-job.ts:89-121 | a whole hold between the INSERT and the DELETE of an archiving transaction, and the payment is archived without it |
| LegalHolds.DisputedIsNeverDeleted | src/jobs/run-deletion-job.ts:100-108 | a payment that no job under way has selected is neither selected nor deleted as long as its dispute stays open |
| LegalHolds.DisputedIsKeptIff | src/jobs/run-deletion-job.ts:100-147 | a payment is safe while its dispute stays open if and only if no job under way had already selected it, or it is live and no archiving transaction has copied it |
| LegalHolds.YoungIsNeverDeleted | src/jobs/run-deletion-job.ts:100-108 | likewise for one younger, from its original creation, than every threshold used |
| LatestColumns.ColumnsAreKept | src/jobs/run-archiving-job.ts:89-117 | as long as the columns of a payment are not changed by an update, every row, copy and backup of it has the ones it had |
| Retention.DeletionIsThreeSteps | src/jobs/run-deletion-job.ts:99-147 | an uninterrupted deletion run is select, backup and delete of one job |
| Retention.Database.ArchivePayments | src/jobs/run-archiving-job.ts:71-132 | when nothing else runs meanwhile: all or nothing; it reports what it counted and what it moved, the two equal exactly if no other transaction under way has copied any of it |
| Retention.Database.CopyPayments | src/jobs/run-archiving-job.ts:89-116 | the INSERT: copies exactly the eligible rows that no other transaction has copied, and nobody else sees them |
| Retention.Database.FinishPayments | src/jobs/run-archiving-job.ts:118-127 | the DELETE and COMMIT move exactly the copied ids, and a rollback nothing; no row is gained or lost |
| Retention.ArchivedCanExceedEligible | src/jobs/run-archiving-job.ts:62-69 | a run in which a dispute closes between the count and the INSERT, which then takes a row that was not counted |
| Retention.Database.ArchiveLedgerOutbox | src/jobs/run-archiving-job.ts:140-179 | likewise for the outbox: it reports the number of entries that are old enough and PUBLISHED, and how many of them it moved |
| Retention.Database.CopyOutbox | src/jobs/run-archiving-job.ts:150-164 | the INSERT for outbox entries: exactly those that are old enough, PUBLISHED and not copied by another transaction, with equal rows |
| Retention.Database.FinishOutbox | src/jobs/run-archiving-job.ts:166-174 | their DELETE and COMMIT, or rollback |
| Retention.Database.RunDeletion | src/jobs/run-deletion-job.ts:92-156 | nothing is deleted if a required backup or the transaction fails; else the selected rows are, and the counts are the eligible ones |
| Decimal.ValueOfPrint | src/jobs/create-partitions-job.ts:59 | a printed number reads back as itself |
| Decimal.PrintIs | src/jobs/create-partitions-job.ts:59 | a number is printed as its decimal digits |
| Partitions.NewYearsDay | src/jobs/create-partitions-job.ts:56-57 | the month lengths add up to the first of January where the Gregorian leap-year count puts it |
| Partitions.MonthStartIs | src/jobs/create-partitions-job.ts:56-57 | `Date.UTC` with a month beyond December, as ECMA-262 computes it, gives the first day of the month that many months ahead, over any number of year ends |
| Partitions.NamesInjective | src/jobs/create-partitions-job.ts:59 | partition names are injective in the month |
| Partitions.NameIs | src/jobs/create-partitions-job.ts:59 | the name is the prefix, the year, an underscore and the month in two digits |
| Partitions.PartitionsAreDisjoint | src/jobs/create-partitions-job.ts:104-114 | no two partitions of a parent that has only monthly ones overlap |
| Partitions.CreationIsNotRefused | src/jobs/create-partitions-job.ts:104-114 | in such a parent a missing month overlaps nothing that is there |
| Partitions.StoredIff | src/jobs/create-partitions-job.ts:91-114 | in such a parent a day is in a partition exactly if its month's partition is there |
| Partitions.TurnsEnsureMonths | src/jobs/create-partitions-job.ts:91-118 | after a run the monthly partitions are those that were there and those of its range, with their bounds, and no others |
| Partitions.NothingNewIff | src/jobs/create-partitions-job.ts:103-117 | a run reports nothing created exactly if its whole range was there |
| Partitions.EnsureMonths | src/jobs/create-partitions-job.ts:85-120 | the loop computes names and bounds with `monthStart`, does those turns, and reports two checks a month and the created names in order |
| Partitions.PartitionMaintenance.EnsureUpcomingPartitions | src/jobs/create-partitions-job.ts:82-121 | the job, from the month of the given day on |
| Partitions.CoveredOnArrival | src/jobs/create-partitions-job.ts:91-118 | from any months at the start, a run finds its own month covered exactly if it was there at the start or the run before reached as far |
| Partitions.NoGapIff | src/jobs/create-partitions-job.ts:91-118 | from any months at the start, runs in order leave no gap if and only if the months between the range of a run and the next run were there at the start |
| Partitions.GapsFilledFromNothing | src/jobs/create-partitions-job.ts:91-118 | without a start this means that no run comes more than one month after the range of the run before |
| Partitions.RunsEnsureMonths | src/jobs/create-partitions-job.ts:82-121 | after any sequence of runs exactly the covered months are there |
| Partitions.StoredAfterRunsIff | src/jobs/create-partitions-job.ts:82-121 | from any monthly partitions, and for runs in any order, a day is stored exactly if its month was there or is in the range of a run |
| Partitions.EveryDayIsStoredIff | src/jobs/create-partitions-job.ts:82-121 | from any monthly partitions, every day from the first run's month to the last range is in a monthly partition if and only if the months between the range of a run and the next run were there at the start |
| Keyset.PageIsUnique | src/modules/merchant/merchant.service.ts:151-165 | a page is determined by the eligible rows, the cursor and the limit |
| Keyset.SweepInOrder | src/modules/merchant/merchant.service.ts:151-261 | whatever happens to the table, a sweep visits rows in order and none twice |
| Keyset.ExactSweep | src/modules/merchant/merchant.service.ts:151-261 | a finished sweep with exact cursors visits everything that was eligible throughout |
| Keyset.StillSweepIsSortedFilter | src/modules/merchant/merchant.service.ts:151-261 | on an unchanging table it is the sorted filter, and ends |
| Keyset.CompleteIff | src/shared/webhook-delivery-log/webhook-delivery-log.service.ts:95-103 | with cursors of lower precision every page size visits everything if and only if no row lies between another row and its rounded cursor |
| MerchantBatches.FindBatchIsPage | src/modules/merchant/merchant.service.ts:151-261 | filter, order and limit give that page, for each of the five finders |
| MerchantBatches.WantsIff | src/modules/merchant/merchant.service.ts:151-261 | the condition of each of the five finders on the row's columns |
| MerchantBatches.BatchIs | src/modules/merchant/merchant.service.ts:151-261 | a batch has wanted ids after the cursor, smallest first, and leaves one out only if it is full of smaller ones |
| MerchantBatches.RunSweep | src/modules/payment/application/services/risk-tiering.service.ts:286-317 | the batching loop performs the sweep, stopping on an empty or short batch |
| MerchantBatches.SweepIsFair | src/modules/payment/application/services/risk-tiering.service.ts:286-317 | a finished sweep visits nobody twice and everybody eligible throughout |
| MerchantBatches.SweepVisitsOnlyWanted | src/modules/merchant/merchant.service.ts:151-261 | and nobody whom none of its queries wanted: never an inactive merchant, nor a sanctions hit in the sanctions sweep |
| DeliveryLog.FindByMerchantIsPage | src/shared/webhook-delivery-log/webhook-delivery-log.service.ts:80-106 | the query gives the page after the cursor row's rounded key, newest first |
| DeliveryLog.MatchesIff | src/shared/webhook-delivery-log/webhook-delivery-log.service.ts:80-94 | the filters: the merchant's deliveries, of the event type and outcome asked for, if any; an empty type is no filter |
| DeliveryLog.PageIs | src/shared/webhook-delivery-log/webhook-delivery-log.service.ts:80-106 | a page has matching deliveries, newest first, older than the cursor's time cut to milliseconds or at that time with a smaller id, and leaves one out only if it is full of newer ones |
| DeliveryLog.FollowIsSweep | src/shared/webhook-delivery-log/webhook-delivery-log.service.ts:95-103 | passing back ids through a growing log is a sweep with rounded cursors |
| DeliveryLog.FollowsWholeLog | src/shared/webhook-delivery-log/webhook-delivery-log.service.ts:80-106 | following the ids to the end yields every matching delivery of the first request that no newer one cuts off, once, in order, whatever is logged meanwhile |
| DeliveryLog.WholeMillisAreReachable | src/shared/webhook-delivery-log/webhook-delivery-log.service.ts:95-103 | with times in whole milliseconds no delivery is cut off |
| DeliveryLog.FollowsAllIff | src/shared/webhook-delivery-log/webhook-delivery-log.service.ts:80-106 | with times in microseconds, every page size sees the whole of a log nobody writes to if and only if no two matching deliveries are too close |
| DeliveryLog.LogCanLoseADelivery | src/shared/webhook-delivery-log/webhook-delivery-log.service.ts:95-103 | a log of two deliveries in one millisecond and a page size that never shows one of them |
| Reviews.MerchantService.SubmitApplication | src/modules/merchant/merchant.service.ts:685-735 | succeeds exactly for a known merchant without a sanctions hit; then the verdict becomes the status, else nothing changes |
| Reviews.MerchantService.ConfirmApplication | src/modules/merchant/merchant.service.ts:751-768 | a pending application is decided; anything else is ignored |
| Reviews.SubmitIs | src/modules/merchant/merchant.service.ts:685-719 | what a submission writes, verdict by verdict, to the one row and check it is about |
| Reviews.ConfirmIs | src/modules/merchant/merchant.service.ts:751-768 | what a decision writes, outcome by outcome, to a check that is pending |
| Reviews.EndsAtFirstDecision | src/modules/merchant/merchant.service.ts:751-768 | under any deliveries, in any number and order, a pending application that is not resubmitted ends at its first decision |
| Reviews.SupersededIsInert | src/modules/merchant/merchant.service.ts:751-768 | decisions on an id that nobody has, and nobody is given, have no effect at all |
| Reviews.ResubmissionSupersedes | src/modules/merchant/merchant.service.ts:712-718 | a new submission leaves nobody with the previous id |
| Reviews.KindsDoNotInterfere | src/modules/merchant/merchant.service.ts:685-878 | if submissions are not interrupted, KYC ends as if there had been no KYB, and the other way round |
| Reviews.SaveIsSubmitIff | src/modules/merchant/merchant.service.ts:685-719 | with anything between reading and saving the row, a submission does what it would do in one step at the save if and only if the other check is then as it was read |
| Reviews.SubmissionIsAtomicIff | src/modules/merchant/merchant.service.ts:685-719 | whatever comes in between, but a submission of the other check by the same merchant, nothing is overwritten, if and only if the other check is not pending at the read |
| Reviews.DecisionIsOverwritten | src/modules/merchant/merchant.service.ts:685-719 | a decision on the other check that comes in between is undone: that check is pending again |
| Reviews.PendingAlwaysHasId | src/modules/merchant/merchant.service.ts:712-718 | pending implies an application id, in every run |
| WebhookSignature.HexRoundTrip | src/shared/utils/notification-delivery.util.ts:56 | hexadecimal digests decode to the bytes they were made from |
| WebhookSignature.HexDigitsAre | src/shared/utils/notification-delivery.util.ts:56 | digits are printed in lower case and read in both |
| WebhookSignature.HexEncodeIs | src/shared/utils/notification-delivery.util.ts:56 | a byte is printed as its high and its low digit |
| WebhookSignature.HexDecodeIs | sdk/node/src/webhooks.ts:54-55 | two digits are read as a byte, and reading stops at anything else |
| WebhookSignature.HexDecodePrefix | sdk/node/src/webhooks.ts:54-55 | n decoded bytes come from the first 2n characters, and what follows is ignored |
| WebhookSignature.ParseHeader | sdk/node/src/webhooks.ts:36-40 | the loop over the parts of the header computes the map that the lemmas below are about |
| WebhookSignature.AbsorbedIs | sdk/node/src/webhooks.ts:36-40 | a key holds the value of the last part that gives it one |
| WebhookSignature.ParseIntIs | sdk/node/src/webhooks.ts:46 | a time is read from a printed number with or without a sign, whatever follows it |
| WebhookSignature.NoNumber | sdk/node/src/webhooks.ts:46-47 | white space in front is skipped, and anything else is not a number |
| WebhookSignature.ParsesSigned | sdk/node/src/webhooks.ts:36-44 | the parser recovers the printed time and digest |
| WebhookSignature.SignIs | src/shared/utils/notification-delivery.util.ts:54-58 | the header is `t=`, the seconds, `,v1=` and the digest of seconds, dot and body |
| WebhookSignature.VerifyWebhookSignature | sdk/node/src/webhooks.ts:28-60 | accepts exactly if `t` and `v1` are there, `t` reads as a time within the tolerance, `v1` has at least 64 characters, its first 64 decode to the HMAC of `t`, a dot and the body, and no more of it decodes; a missing or malformed header is refused |
| WebhookSignature.SignThenVerify | src/shared/utils/notification-delivery.util.ts:54-58 | for any secret and body a signed header is accepted exactly while the clock is within tolerance of the printed second |
| WebhookSignature.AcceptedMeansSameDigest | sdk/node/src/webhooks.ts:51-56 | a signed header is accepted under another secret or body only if the two HMACs agree |
| WebhookSignature.MessageInjective | src/shared/utils/notification-delivery.util.ts:56 | for printed times the signed message determines time and body |
| WebhookSignature.OnlyTheSignedBody | sdk/node/src/webhooks.ts:28-60 | another body is accepted only on a collision of the HMAC |

## Left out

- Payment aggregates, the saga, the ledger, subscriptions, payouts and the circuit breaker.
- HTTP, controllers' DTOs, PSP, KYC, KYB and MATCH adapters, mocks, scripts and the SDKs in other languages.
- bcrypt, TOTP, HMAC, Vault and JWT signing themselves; a signature is taken to be unforgeable and a token id not to repeat.
- Floating-point rounding of the scores, and a screening threshold that is not a number.
- Strings are sequences of Unicode characters; the source compares UTF-16 code units.
- `Sessions` is a machine over values, and its controller class keeps the whole state in one field: sharing of rows between requests is not modelled beyond the order of steps. A delegation is not refused for a sanctions hit, and any lifetime is allowed.
- Other requests that overlap inside one handler: MFA enrolment and its confirmation, which also save a row read before, a login that reads the row before and signs after a deactivation, requests between the creation of a delegation and its signature.
- Restoring a held payment from the archive is one step, as is the commit of an archiving or deletion transaction; an INSERT that waits for another transaction and proceeds after its rollback is modelled as if that transaction had not been.
- The live columns that the archive insert does not copy; payments are keyed by id alone, ids being unique.
- Rows already in the default partition, which make Postgres refuse a new partition over them; dates before 1970 or after the year 9999.
- How long a semaphore caller runs; that every started call finishes is not claimed.
- Sweeps that never end because eligible rows keep being inserted ahead of them.

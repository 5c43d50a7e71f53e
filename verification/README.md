# Verified model of the DSEC API services

A Dafny model of the parts of the DSEC API that keep score, spend budgets and
hand out authority: the games points ledger and its monthly draw, the lineage
of API keys, the rate limiter, the DUSA ingest, and the codes and slugs. Code
that updates rows in place is modelled as a class over its tables, each method
proved equal to a transition function; the theorems about whole runs are lemmas
about those functions. Where the original relies on a lock, an atomic update or
a unique index, a second module models the statements of concurrent
transactions as steps of a state machine and proves what every interleaving
keeps.

`dafny verify dfyconfig.toml` checks the project.

| file | models |
|---|---|
| `GamesService.dfy`, `Ledger.dfy` | submitting a play, scoring, the attempt rows |
| `SubmitAnswers.dfy` | what a submit is answered, and how many plays a non-member gets |
| `GamesConcurrent.dfy`, `LoneSubmits.dfy`, `Bits.dfy` | submits interleaved under the daily advisory lock, alone, and the packed key |
| `OpenRows.dfy` | when an open row of a single-attempt game can hold points |
| `CodleEngine.dfy` | the Codle engine, as one instance of the arbitrary engine |
| `Calendar.dfy`, `Draws.dfy` | months and period keys, the monthly draw |
| `LateSubmits.dfy`, `OverlappingCloses.dfy` | the draw when submits reach the ledger after a close, and when closes overlap |
| `Ranking.dfy`, `Leaderboard.dfy` | standings, leaderboards, positions, streaks |
| `ApiKeys.dfy`, `KeyForest.dfy` | the scope algebra, the cascade and the forest |
| `KeyTransactions.dfy`, `KeyRequests.dfy` | mint and revoke transactions interleaved under row locks, and what a request comes to |
| `RateLimit.dfy`, `RateLimitConcurrent.dfy` | the limiter serially, its minute counters under concurrency |
| `LlmBudget.dfy` | the daily budget under concurrent keyless callers |
| `KeyedTriggers.dfy`, `KeyedOverrun.dfy` | a key's daily counter under concurrent callers, and how far they overrun its cap |
| `DedupeMigration.dfy` | the fold that makes the limiter's unique index hold |
| `IngestService.dfy`, `IngestParser.dfy` | landing the DUSA reports, reconciling the ledger |
| `LinkVerification.dfy`, `GameLinkService.dfy`, `Sessions.dfy` | link codes, Discord links, play sessions |
| `DocumentsService.dfy` | slugs |
| `Basics.dfy`, `Decimal.dfy` | option and result types, decimal numerals |

Time is an integer number of microseconds since the day before year 1, so day
numbers are the proleptic ordinals. An engine is an arbitrary record of
functions; nothing is assumed of it except where a row says *coherent*, which
means that a play it returns as finished is also stored as finished. The base
class does not ask for that, and the Codle engine does it. A submit carries two
clock readings, `now` (used for the round, the lock and the score) and `stamp`
(which becomes `played_at` at the flush).

## What the proofs show about the code

- The daily cap holds in every serial run, also across midnight. Interleaved,
  it holds exactly when submits that start on different days are never stamped
  on the same day: the lock is keyed on the day of `now` while the sum filters
  on `played_at`, so a submit that straddles midnight next to one of the new
  day can bank the cap twice (`GamesConcurrent.CapIffOneLockPerDay`).
- The winner of a cycle closed after its end is final under atomic submits. For
  any engines and any ledger, a submit that has started leaves the member totals
  of a month alone, whenever it is flushed and committed, exactly when it does
  not change what a row left open in that month is worth to a member, and does
  not insert member points having started before the month's end
  (`LateSubmits.NoStampMovesSpan`). Both kinds run through a real close, for
  every month: `LateSubmits.LateFlushMovesClosedMonth` finishes an open row
  late, `LateSubmits.LateCommitMovesClosedMonth` commits a stamped play late.
- A close takes no lock between reading the status and writing it. "Closed" is
  absorbing in every interleaving exactly when no two closes overlap
  (`OverlappingCloses.ClosedAbsorbsIff`). Overlapping unforced closes write the
  same winner; the winner an unforced close stored stands exactly when closes
  are never forced or never overlap (`OverlappingCloses.UnforcedWinnerStandsIff`).
- An open row of a single-attempt game holds no points in any run exactly when
  no reachable play is finished in the engine's result, unfinished in the
  detail it stores, and worth points (`OpenRows.OpenWorthlessIff`).
- A month has more accepted keys than its own: `is_valid_period_key` also takes
  a final newline, and year digits of any script. An accepted key is the
  canonical one exactly when it is seven characters long with an ASCII year
  (`Calendar.KeyIsCanonical`, `Calendar.NewlineAlias`, `Calendar.ScriptAlias`).
- A keyed trigger is counted by reading the row and writing it back, unlike the
  increments in SQL the module documents. The stored counter equals the
  admitted calls exactly when no call is counted between another's read and its
  write; one stale write undoes every count since its read. So from a cap of
  two on, any number of calls of one key can be admitted in a day
  (`KeyedTriggers.IncrementsLost`, `KeyedTriggers.KeyCapIff`). With at most m
  calls in flight the most that can be admitted is exactly the binomial
  coefficient of cap - 1 + m over m: the key's cap holds exactly when it is at
  most one or m is one, and two overlapping callers under the default cap of
  200 can be admitted 20100 times, past the default global cap of 1000 as well
  (`KeyedOverrun.BoundIsLeast`, `KeyedOverrun.GlobalCapIff`).
- Look-alike letters are folded after the prefix is stripped, so a code typed
  without the prefix is recovered in every look-alike spelling exactly when its
  core does not begin with DVCK (`LinkVerification.LookAlikesRecoverIff`).
- Rounding the five headline figures moves the printed balance identity by at
  most two cents, and two cents is reached.
- A membership report that repeats a student id not yet on the roster inserts
  two rows for it and is rolled back as a whole, import row included.

## Model

| member | source | states |
|---|---|---|
| GamesService.AttemptTable.WriteSingle | app/features/games/service.py:308-340 | the table after a turn of a single-attempt game: refused when finished, otherwise the one row is continued or opened and only a finishing turn is scored; every refusal leaves the table as it was |
| GamesService.AttemptTable.WriteReplayable | app/features/games/service.py:343-376 | the table after a replayable play: non-members over the cap and rejected plays leave it as it was, any other play appends one row |
| GamesService.AttemptTable.SubmitPlay | app/features/games/service.py:249-305 | an accepted play lands in the ledger, a refused one leaves it unchanged and is reported with its error |
| GamesService.LatestAttempt | app/features/games/service.py:186-195 | the row found is of this game, round and player, and no later row is |
| GamesService.TodaySelects | app/features/games/scoring.py:26-35 | `points_today` sums exactly the rows of this game and player stamped on today's UTC day or later |
| GamesService.DayWithinToday | app/features/games/scoring.py:26-35 | what `points_today` sums covers every row stamped on any day from today on, which is why a late stamp cannot escape the cap |
| GamesService.AwardIsLargest | app/features/games/scoring.py:38-58 | the award is never negative and is the largest number of points, up to what the engine pays, that fits under the cap |
| GamesService.AcceptedWritesOneRow | app/features/games/service.py:308-376 | an accepted submit writes exactly one row, of its own game, round and player, either new with this stamp or an open row of a single-attempt game that keeps its stamp; every other row is as it was |
| GamesService.RefusedExactlyWhenFinished | app/features/games/service.py:308-312 | a submit to a single-attempt game is refused as already played exactly when some row of that round and player is finished |
| SubmitAnswers.FirstAnswers | app/features/games/service.py:266-281 | an unknown game is refused exactly when there is no engine, and a bad session exactly when its check fails |
| SubmitAnswers.SingleAnswer | app/features/games/service.py:308-340 | a single-attempt game refuses exactly a finished last row, rejects exactly what the engine rejects of the detail so far, and otherwise stores the engine's score and detail, awarding only a finishing turn |
| SubmitAnswers.ReplayableAnswer | app/features/games/service.py:343-376 | a replayable game refuses exactly a non-member with at least the cap of rows in the round, rejects exactly what the engine rejects, and otherwise appends the engine's score and detail |
| SubmitAnswers.NonMemberQuota | app/features/games/service.py:343-352 | in every run, of n valid plays of one round by a player who is never a member exactly min(n, cap) are accepted, each as one row |
| GamesService.SubmitKeepsLedger | app/features/games/scoring.py:38-58 | one submit keeps points non-negative, stamps not before the round, and every day's total within the cap, even when `now` and the stamp fall on different days |
| GamesService.DailyCapInEveryRun | app/features/games/scoring.py:1-8 | for any engines and any serial run, the points of a (game, player) stamped on one UTC day never exceed the game's daily cap |
| GamesService.SubmitKeepsMachine | app/features/games/service.py:308-376 | one submit keeps one row per single-attempt round, open rows of a coherent engine worthless, and non-member plays within their cap |
| GamesService.MachineInEveryRun | app/features/games/service.py:308-376 | the same in every run, again for open rows of coherent engines, whatever membership does between plays |
| GamesService.RowsAreStable | app/features/games/service.py:308-340 | over any run the ledger only grows, finished rows and replayable plays never change, and no row changes game, round, player or stamp |
| GamesService.IncoherentEngineScoresOpenRow | app/features/games/service.py:320-334 | a concrete engine that returns finished without storing it leaves an open row that already holds points |
| OpenRows.SubmitKeepsOpenWorthless | app/features/games/service.py:308-340 | one submit keeps every row reached by turns of its player and open rows worthless, when no reachable play scores open |
| OpenRows.OpenWorthlessIff | app/features/games/service.py:308-340 | open rows of a single-attempt game are worthless in every run exactly when no play that turns can reach is finished in the result, unfinished in the stored detail and worth points |
| OpenRows.CoherentNeverScoresOpen | app/features/games/service.py:320-334 | a coherent engine has no such play |
| GamesConcurrent.PackedKeyIsLockKey | app/features/games/service.py:211-213 | the masked, shifted and or-ed key is the sum of its three fields |
| GamesConcurrent.PackedKeyFields | app/features/games/service.py:211-213 | each masked field can be read back from the key, and the key is below 2^62 |
| GamesConcurrent.PackedKeyInjective | app/features/games/service.py:211-213 | for player < 2^27, game < 2^10, day < 2^25 two (player, game, day) share the key exactly when they are equal |
| LoneSubmits.AloneIsApply | app/features/games/service.py:249-305 | a transaction that no other overlaps leaves the ledger of the serial submit and nothing locked |
| GamesConcurrent.StepKeepsSlots | app/features/games/service.py:198-214 | one statement of one transaction keeps lock ownership, what each transaction decided, one row per round, open rows of a coherent engine worthless, and the non-member cap |
| GamesConcurrent.SlotsInEveryInterleaving | app/features/games/service.py:198-214 | in every interleaving a single-attempt game has one row per round and player, open rows of a coherent engine hold no points, and non-member plays stay within their cap |
| GamesConcurrent.RowsStayInEveryInterleaving | app/features/games/service.py:308-376 | from any point of any interleaving on, the ledger only grows, finished rows and replayable plays never change, and no row changes game, round, player or stamp |
| GamesConcurrent.WriteKeepsFit | app/features/games/service.py:308-376 | a write committed under another lock never uses up the room a priced transaction was promised, when no two locks share a stamp day |
| GamesConcurrent.OneLockKeepsCap | app/features/games/service.py:198-214 | in every interleaving where one stamp day has one lock, no day's total exceeds the cap |
| GamesConcurrent.CapWithinOneDay | app/features/games/service.py:198-214 | in particular for submits that start and are stamped inside one day |
| GamesConcurrent.StraddlersBreakCap | app/features/games/service.py:198-214 | two submits that start on different days and are stamped on one day bank the cap twice in some interleaving |
| GamesConcurrent.CapIffOneLockPerDay | app/features/games/service.py:198-214 | the daily cap survives every interleaving exactly when no two submits started on different days can be stamped on the same day |
| CodleEngine.ScoreGuess | app/features/games/engines/codle.py:28-45 | green exactly where the letters agree, and every letter marked green or yellow as often as guess and answer both contain it |
| CodleEngine.GuessOutcome | app/features/games/engines/codle.py:72-122 | a guess is taken when it is five letters and the board is open; a hit on guess n is worth 7 - n, anything else nothing; the board ends with a hit or the sixth guess |
| CodleEngine.HitPays | app/features/games/engines/codle.py:124-128 | in the service a hit on guess n pays 10 * (7 - n) as far as the cap of 60 leaves room, a lost board nothing |
| CodleEngine.CodleIsCoherent | app/features/games/engines/codle.py:72-122 | the Codle engine stores a finished play as finished |
| CodleEngine.SixGuessesInEveryRun | app/features/games/engines/codle.py:48-128 | plugged into the service, with any notion of a letter, in every run a Codle row has one to six guesses, is open only below six, and is worth at most 60 points and none while open |
| Calendar.MonthsAbut | app/features/games/draws.py:58-66 | the end of a month's bounds is the start of the next, as many days later as the Gregorian month has |
| Calendar.MonthLengths | app/features/games/draws.py:58-66 | the lengths of the Gregorian months |
| Calendar.NewYear | app/features/games/draws.py:58-66 | day numbers are the proleptic ordinals: year 1 begins on day 1, 1970 on day 719163 |
| Calendar.CycleOf | app/features/games/draws.py:47-48 | every instant lies in the month its cycle names |
| Calendar.MonthsPartitionTime | app/features/games/draws.py:47-66 | and in the bounds of no other month |
| Calendar.DateTimeInItsCycle | app/features/games/draws.py:47-48 | the month of a datetime's own year and month fields is the one whose bounds contain it |
| Calendar.ParseFormatKey | app/features/games/draws.py:22-40 | a printed key reads back as its year and month exactly for years of four digits whose month end can be built; every other printed key is turned away |
| Calendar.ParseCanonical | app/features/games/draws.py:22-40 | the zero-padded key of every month whose bounds can be built is accepted as that month |
| Calendar.PrevKey | app/features/games/draws.py:51-55 | for every datetime the previous key names the month before, exactly when that month has a four-digit year, and leads back to its own key |
| Calendar.NextKey | app/features/games/draws.py:175-177 | for every datetime the next key names the month after, exactly when it has a four-digit year and its end can be built, and leads back to its own key |
| Calendar.KeysOfOneMonth | app/features/games/draws.py:22-40 | two accepted keys of one month are equal exactly when they have the same length and the same four year characters |
| Calendar.KeyIsCanonical | app/features/games/draws.py:22-40 | an accepted key is the canonical one of its month exactly when it is seven characters long and its year digits are ASCII |
| Calendar.NewlineAlias | app/features/games/draws.py:22-40 | the canonical key followed by a newline is accepted and names the same month |
| Calendar.ScriptAlias | app/features/games/draws.py:22-40 | so is the key with its year in fullwidth digits, which has the same length |
| Ranking.RankIsRanking | app/features/games/draws.py:90-98 | the list holds exactly the players with a positive total, each with that total, ordered by points then id |
| Ranking.SortedUnique | app/features/games/service.py:407-416 | the order is strict and total: two sorted lists with the same entries are equal |
| Ranking.RankConservesPoints | app/features/games/draws.py:90-98 | the listed points add up to all points the query selects |
| Ranking.PrintRanking | app/features/games/service.py:422-446 | the printed lines are the ranked totals numbered from 1 and cut at the limit, with the joined account and name, nobody with points missing |
| Ranking.ProfileShown | app/features/games/service.py:437-445 | a known player is shown by account and display name, everyone without a name as Anonymous Duck |
| Ranking.PositionIsBestTiedRank | app/features/games/service.py:449-477 | a position exists exactly when the player is on the unlimited list; it is the first of the entries tied with theirs |
| Leaderboard.ShowLeaderboard | app/features/games/service.py:396-477 | list and position of one window and game agree: everybody with points is listed with them, there is no position exactly when not listed, and otherwise it is the smallest rank among equal points |
| Leaderboard.WindowSelects | app/features/games/service.py:384-393 | each window selects the plays of the game, members or not, from today, from this week's Monday, or from this month on |
| Leaderboard.Mondays | app/features/games/service.py:387-389 | weekdays follow each other in sevens, and day 1 of the calendar is a Monday |
| Leaderboard.WeekStartsOnMonday | app/features/games/service.py:387-389 | the weekly window starts at midnight of the Monday at most six days back |
| Leaderboard.CycleStartsThisMonth | app/features/games/service.py:390-392 | the cycle window starts inside the month of `now`, not after today's midnight |
| Leaderboard.StreakDays | app/features/games/service.py:485-495 | the streak is the longest run of played days that ends today |
| Draws.KeyNamesItsMonth | app/features/games/draws.py:58-66 | the bounds read from any accepted key are those of its month |
| Draws.DrawTable.OpenCycle | app/features/games/draws.py:69-78 | an existing cycle is kept, a missing one is added open |
| Draws.DrawTable.Close | app/features/games/draws.py:138-183 | the table after the atomic close: a closed cycle is returned unchanged, a refusal leaves nothing behind, otherwise the cycle is closed and returned |
| Draws.CloseTouchesOneCycle | app/features/games/draws.py:138-183 | a close drops no cycle and changes only its own, apart from opening the next |
| Draws.CloseSucceeds | app/features/games/draws.py:147-160 | a close of a cycle not closed before is refused for a bad key, and otherwise succeeds exactly when forced or after the month's end |
| Draws.CloseOpensNextMonth | app/features/games/draws.py:162-177 | then the cycles are the old ones, its own, and the printed key of the month that begins where its own ends: open if it was missing, as it was if not |
| Draws.UnforcedCloseIsAfterEnd | app/features/games/draws.py:155-160 | without force a successful close happens after the month's end |
| Draws.WinnerHasMost | app/features/games/draws.py:131-135 | the winner holds the most member points of the month, the smallest id among equals, and there is none exactly when nobody has any |
| Draws.LaterSubmitKeepsMonth | app/features/games/service.py:308-376 | an atomic submit that starts after a month's end changes no total of that month |
| Draws.WinnerIsFinal | app/features/games/draws.py:138-183 | in every run of submits, closes and lookups, the winner and snapshot of a cycle closed after its end equal the standings recomputed at any later point |
| Draws.ClosedIsAbsorbing | app/features/games/draws.py:147-153 | no run changes a closed cycle, and closing it again, forced or not, returns the table as it is |
| LateSubmits.SubmitMovesSpan | app/features/games/service.py:308-376 | for any engines, ledger and stamp, a submit moves the member totals of a span of days exactly when it changes the member worth of a row left open in the span, or inserts member points with a stamp inside it |
| LateSubmits.NoStampMovesSpan | app/features/games/service.py:308-376 | whenever it is flushed, a submit that has started leaves the span alone exactly when it does not change an open row of the span and does not insert member points having started before its end; the condition is read off the inputs |
| LateSubmits.LateFlush | app/features/games/service.py:308-340 | for a coherent engine and open rows that hold nothing, a submit flushed after the span leaves it alone exactly when it is not a member finishing, for points that fit under the cap, a row left open in the span |
| LateSubmits.LateFlushStartedEarly | app/features/games/service.py:308-340 | a submit that changes an open row of a span started before the span's end |
| LateSubmits.WinnersStandWhileHarmless | app/features/games/draws.py:138-183 | in every run of submits committed in any order, winners and snapshots of cycles closed after their end stand as long as no submit meets the condition for that month |
| LateSubmits.LateFlushMovesClosedMonth | app/features/games/draws.py:138-183 | for every month: the round opened in its last microsecond, the cycle closed after its end without force with nobody as winner, the finishing turn flushed; the cycle is unchanged and no longer agrees with the standings |
| LateSubmits.LateCommitMovesClosedMonth | app/features/games/draws.py:138-183 | for every month: a play of a replayable game stamped in its last microsecond and committed after such a close does the same |
| OverlappingCloses.AloneIsCloseCycle | app/features/games/draws.py:138-173 | a close that no other overlaps leaves the cycle of the atomic close, accepted or refused |
| OverlappingCloses.InvInEveryInterleaving | app/features/games/draws.py:147-173 | in every interleaving of checks, roll-ups, writes and submits, an unforced close runs after the month's end and its roll-up stays current |
| OverlappingCloses.ClosedAbsorbsIff | app/features/games/draws.py:147-173 | a closed cycle never changes, in every interleaving, exactly when at most one close is in flight |
| OverlappingCloses.UnforcedWinnerStandsIff | app/features/games/draws.py:147-173 | once an unforced close has been written the stored winner and snapshot are what the ledger says, in every interleaving, exactly when closes are never forced or at most one is in flight |
| Draws.StandingsConserveMonths | app/features/games/draws.py:81-128 | the standings of consecutive cycles together hold exactly the member points of those months |
| Draws.StandingsConserveAll | app/features/games/draws.py:81-128 | over all cycles no member point is lost or counted twice |
| Draws.CycleTotalBound | app/features/games/scoring.py:55-58 | a player's total in one cycle is at most the sum of the games' daily caps times the days of the month |
| ApiKeys.HasScopeByMember | app/core/apikeys.py:121-161 | a set of scopes satisfies exactly what some one of its members covers |
| ApiKeys.WriteScopeNeeds | app/core/apikeys.py:144-161 | write:x needs itself, or coarse write when x is not finance or sponsors |
| ApiKeys.ReadScopeNeeds | app/core/apikeys.py:144-161 | read:x needs itself or write:x, or coarse read or write when x is not finance or sponsors |
| ApiKeys.CoarseReadNeeds | app/core/apikeys.py:129-133 | coarse read needs itself or coarse write |
| ApiKeys.OtherScopeNeeds | app/core/apikeys.py:135-136 | any other scope, coarse write included, needs itself |
| ApiKeys.ReadOnlyNeverWrites | app/core/apikeys.py:121-161 | read scopes, however many, satisfy no write scope |
| ApiKeys.CoversTransitive | app/core/apikeys.py:121-161 | covering is transitive over all scope strings, malformed ones included |
| ApiKeys.SubsetSatisfiesLess | app/features/admin/router.py:230-239 | a key whose scopes another key satisfies can do nothing that other key cannot |
| ApiKeys.IsolatedOnlyByName | app/core/apikeys.py:80-93 | finance and sponsors scopes are satisfied only by a scope of the same module, never by coarse read or write |
| KeyForest.KeyTable.RevokeLevel | app/features/admin/router.py:69-74 | the inner loop revokes the children not seen before, which become the next frontier |
| KeyForest.KeyTable.CascadeRevoke | app/features/admin/router.py:48-74 | revokes the root and exactly the keys reachable through the parent links, leaves every other key as it was, and ends on any finite parent graph, even a cyclic one |
| KeyForest.ReachIsDescent | app/features/admin/router.py:48-56 | in a forest, reachable means descendant |
| KeyForest.LiveUnderLiveAncestors | app/features/admin/router.py:48-56 | if no live key has a revoked parent, none has a revoked ancestor |
| KeyForest.AncestorSatisfies | app/features/admin/router.py:230-239 | whatever scope a key satisfies, each of its ancestors satisfies |
| KeyForest.IsolatedModulesStayOut | app/core/apikeys.py:80-93 | a tree whose root holds no scope of an isolated module contains no key that satisfies one |
| KeyForest.ReadOnlyTreesNeverWrite | app/features/admin/router.py:230-239 | a tree whose root holds only read scopes contains no key that satisfies a write scope |
| KeyTransactions.StepKeepsInv | app/features/admin/router.py:154-283 | one statement of one mint or revoke keeps the forest invariants, the locks and what each transaction knows |
| KeyTransactions.ForestInEveryInterleaving | app/features/admin/router.py:154-283 | in every interleaving no live key has a revoked ancestor, scopes never widen down the tree, and no key has more live children than the setting allows |
| KeyTransactions.CommitRevokesTheTree | app/features/admin/router.py:48-74 | at its commit a cascade revokes exactly the keys below its root as they are committed then, so no child slipped in |
| KeyTransactions.WaitsGoDown | app/features/admin/router.py:57-64 | a cascade only ever waits for a holder further down the tree |
| KeyTransactions.NoDeadlock | app/features/admin/router.py:187-281 | in every reachable state no transaction waits, through whatever others, for itself |
| KeyTransactions.EveryWaitEnds | app/features/admin/router.py:187-281 | and following who waits for whom from any transaction in flight ends at one that waits for nobody |
| KeyTransactions.FreeCanMove | app/features/admin/router.py:154-283 | and a transaction that waits for no other can make its next statement |
| KeyRequests.MintInserts | app/features/admin/router.py:236-247 | in every interleaving, from the beginning of a request on, its commit adds exactly one row, live, under the caller and with exactly the scopes asked for, every other row staying, and the conditions of the request hold at that moment |
| KeyRequests.LockDecides | app/features/admin/router.py:187-192 | under the caller's lock a request goes on exactly when the caller is live |
| KeyRequests.CheckDecides | app/features/admin/router.py:201-235 | in every reachable state a locked request goes on exactly when the caller has fewer live children than the limit and the scopes are valid and each satisfied by the caller |
| KeyRequests.RequestOutcome | app/features/admin/router.py:187-247 | on its own a request inserts its row exactly under those conditions and otherwise changes nothing |
| KeyRequests.CreateInserts | app/features/admin/router.py:118-140 | a key created by an admin is live, without parent, with exactly the valid scopes asked for |
| KeyRequests.RootLockDecides | app/features/admin/router.py:273-281 | a revoke goes on exactly when its root exists, revoked or not |
| KeyRequests.TransactionsEnd | app/features/admin/router.py:154-283 | a cascade ends only by its commit, a request only where it is decided, and rows change only at commits |
| RateLimit.Find | app/core/ratelimit.py:79-81 | the row found is the lowest-id row of its (key, bucket, window) |
| RateLimit.Limiter.BumpMinute | app/core/ratelimit.py:50-116 | the counter of the window, new or old, goes up by one and its new value is returned |
| RateLimit.Limiter.CheckRequest | app/core/ratelimit.py:118-145 | keyless callers are counted per address and keyed ones per key, a refused request being counted too |
| RateLimit.Limiter.CheckAndCountLlmGlobal | app/core/ratelimit.py:156-177 | at the global cap nothing is counted, below it one unit is |
| RateLimit.Limiter.CheckAndCountTrigger | app/core/ratelimit.py:219-282 | the global cap, then the key's own, then one unit; a refusal by the key's cap still leaves the day's row |
| RateLimit.Limiter.CronPrune | app/features/admin/router.py:437-443 | rows that started more than two days ago go, the others stay in order, and the number deleted is returned |
| RateLimit.AddFinds | app/core/ratelimit.py:83-103 | an increment lands in the found row or in a new last one, and raises what is read back by just that |
| RateLimit.SameMinuteCounter | app/core/ratelimit.py:118-139 | two requests share a counter exactly in the same minute and of the same key, or without a key from the same address |
| RateLimit.SameDayCounter | app/core/ratelimit.py:187-191 | two spending calls share a counter exactly on the same UTC day and of the same key, or both without one |
| RateLimit.BudgetInEveryRun | app/core/ratelimit.py:147-282 | run serially, the counters are exactly the calls let through: no key exceeds its daily cap, keyed and keyless calls together never exceed the global cap |
| RateLimit.RefusedOnlyWhenSpent | app/core/ratelimit.py:156-282 | after any serial run a call is let through exactly when neither its key's nor the global daily budget is fully spent |
| RateLimit.RequestsInEveryRun | app/core/ratelimit.py:118-145 | in any serial run, of the requests of a key whatever its address, or of an address without one, in a minute, all are counted and exactly min(n, limit) pass |
| RateLimit.PruneKeepsRecent | app/features/admin/router.py:437-443 | the prune leaves exactly the rows that started in the last two days, as often as they were there |
| RateLimit.DoIgnoresOldRows | app/core/ratelimit.py:28-33 | a call's decision does not depend on rows older than two days, and its write commutes with dropping them |
| RateLimit.PruningIsInvisible | app/features/admin/router.py:424-443 | with a clock that never goes back, pruning at arbitrary points changes no decision compared with never pruning |
| RateLimitConcurrent.StepKeepsInv | app/core/ratelimit.py:79-116 | one statement keeps: the values returned in a window are 1 to its counter, each once |
| RateLimitConcurrent.CallsAlwaysProceed | app/core/ratelimit.py:96-116 | whatever the others did, a call that has not returned can make its next statement |
| RateLimitConcurrent.NoIncrementLost | app/core/ratelimit.py:50-116 | in any interleaving, racing first inserts included, the n calls of a window return exactly 1 to n and min(n, limit) are admitted |
| RateLimitConcurrent.AnySixtySeconds | app/core/ratelimit.py:28-29 | any sixty-second interval admits at most twice the limit |
| LlmBudget.OverrunBounded | app/core/ratelimit.py:156-217 | with at most m keyless callers in flight, in any interleaving of check, select, update, insert and conflict, the counted units are exactly the admitted callers that returned and never exceed the cap plus m - 1 |
| LlmBudget.PassedAreCounted | app/core/ratelimit.py:156-217 | in every interleaving the callers that passed the check are those counted and those in flight, so none gets away uncounted |
| LlmBudget.CallersAlwaysProceed | app/core/ratelimit.py:192-217 | whatever the others did, a caller in flight can make its next statement |
| LlmBudget.OverrunReached | app/core/ratelimit.py:156-217 | some interleaving counts exactly cap plus m - 1 units |
| KeyedTriggers.StepLoses | app/core/ratelimit.py:281-282 | a write raises the counter together with the number of writes unless another call wrote since its read, and then the counter falls behind |
| KeyedTriggers.IncrementsLost | app/core/ratelimit.py:236-282 | in every interleaving, first inserts and conflicts included, the stored counter is at most the number of admitted calls, and equal to it exactly when no write is stale |
| KeyedTriggers.SerialWritesKeepCap | app/core/ratelimit.py:274-282 | without a stale write at most the cap is admitted |
| KeyedTriggers.AnyNumberAdmitted | app/core/ratelimit.py:274-282 | from a cap of two on any number of calls can be admitted while the counter stands at two |
| KeyedTriggers.KeyCapIff | app/core/ratelimit.py:274-282 | the key's daily cap bounds the admitted calls in every interleaving exactly when it is at most one |
| KeyedTriggers.CallsProceed | app/core/ratelimit.py:254-273 | the 503 for a conflict without a row does not occur, and a call is only ever held up by an uncommitted insert that can finish |
| KeyedTriggers.VerdictByCount | app/core/ratelimit.py:254-282 | a call is admitted only below the cap and refused only at it, by the stored count it read, also after a conflict, and none is dropped |
| KeyedTriggers.AloneIsSerial | app/core/ratelimit.py:219-282 | a call that no other overlaps does to its row what the serial transition does to the table, and is admitted alike |
| KeyedOverrun.PathsIsBinomial | app/core/ratelimit.py:274-282 | the number the bound is stated with is the binomial coefficient |
| KeyedOverrun.StepKeepsWithin | app/core/ratelimit.py:236-282 | one statement keeps the admitted calls plus what the slots in flight can still admit within the bound |
| KeyedOverrun.AdmittedWithin | app/core/ratelimit.py:236-282 | with at most m calls of a key in flight no interleaving admits more than the binomial coefficient of cap - 1 + m over m |
| KeyedOverrun.BoundReached | app/core/ratelimit.py:236-282 | some interleaving admits exactly that many |
| KeyedOverrun.BoundIsLeast | app/core/ratelimit.py:236-282 | a number bounds the admitted calls in every interleaving exactly when it is at least that bound |
| KeyedOverrun.KeyCapWithinIff | app/core/ratelimit.py:274-282 | with at most m in flight the key's cap holds in every interleaving exactly when it is at most one or m is one |
| KeyedOverrun.GlobalCapIff | app/core/ratelimit.py:228-234 | when one key alone spends and its cap is below the global one, the global check never refuses, and the global cap holds exactly when it is at least the bound |
| KeyedOverrun.TwoCallersBound | app/core/ratelimit.py:274-282 | for two callers the bound is cap * (cap + 1) / 2 |
| DedupeMigration.KeptRows | alembic/versions/b1d4f7a9c3e2_ratelimit_bucket_aware_unique.py:37-58 | the rows left are the lowest ids of their groups, each once, as the update left them |
| DedupeMigration.FoldPreservesSums | alembic/versions/b1d4f7a9c3e2_ratelimit_bucket_aware_unique.py:37-58 | after the fold every group has one row, holding exactly the sums of both counters the group had |
| DedupeMigration.RateLimitTable.Dedupe | alembic/versions/b1d4f7a9c3e2_ratelimit_bucket_aware_unique.py:37-58 | the update and the delete in place produce that table |
| DedupeMigration.LimiterKeepsUnique | app/core/ratelimit.py:64-71 | no limiter call and no prune breaks the uniqueness the fold established |
| IngestService.DusaTables.IngestMembership | app/features/ingest/service.py:220-269 | everyone is swept to not current, then the named rows are turned on in order; a repeated new student id fails the flush |
| IngestService.DusaTables.HandleUpload | app/features/ingest/service.py:74-168 | imports with what the upload says of its message, roster and reports after an upload, for each of duplicate, parse error, refusal by the guard, rolled-back conflict and success |
| IngestService.UpsertAllMeaning | app/features/ingest/service.py:237-258 | each student in the report gets the data of their last row, everyone else is kept |
| IngestService.ReportOutcome | app/features/ingest/service.py:125-168 | a parsed new membership report is refused exactly when it is empty, or the override is off and it is below four fifths of the last one, and each outcome leaves the stated import and reports |
| IngestService.OtherOutcomes | app/features/ingest/service.py:97-132 | an ingested message changes nothing, a parse error records just its import, and a P&L is always landed, the earlier ones superseded |
| IngestService.RosterAfterUpload | app/features/ingest/service.py:220-269 | an accepted report makes the current members exactly its student ids and deletes no one; any other outcome leaves the roster identical |
| IngestService.CurrentExactly | app/features/ingest/service.py:233-257 | after an accepted report a student is current exactly when some row carries their id and it is not empty |
| IngestService.CurrentIsLastReport | app/features/ingest/service.py:132-148 | over any run the current members are those of the last accepted report, and failures and refusals leave no trace |
| IngestService.ImportsInEveryRun | app/features/ingest/service.py:125-185 | ok membership imports and member reports, ok P&L imports and finance reports correspond one to one, and exactly the newest finance report is current |
| IngestService.OkIsAbsorbing | app/features/ingest/service.py:100-104 | no run changes an ok import, and its message uploaded again changes nothing |
| IngestService.ShrinkIsBounded | app/features/ingest/service.py:188-217 | with the override off, n further accepted reports leave a total of at least (4/5)^n of the first |
| IngestParser.BucketsAddUp | app/features/ingest/parser.py:286-304 | every line falls in exactly one of the four buckets |
| IngestParser.Reconciles | app/features/ingest/parser.py:239-257 | closing differs from opening + income - expense + other by at most two cents |
| IngestParser.TwoCentsReached | app/features/ingest/parser.py:239-257 | some ledger, of amounts that binary floats hold exactly, is off by exactly two cents |
| IngestParser.ReconcilesExactly | app/features/ingest/parser.py:239-257 | the identity is exact when all amounts are whole cents |
| IngestParser.KeepRows | app/features/ingest/parser.py:231-235 | the kept lines are, in order, the rows with an account and an amount, each filed under its account's kind |
| IngestParser.HeadlineSums | app/features/ingest/parser.py:239-257 | opening sums the 3xxx rows, income the 4xxx and 8xxx, closing all, with the sign turned; expense the 6xxx as they are; other the rest with the sign turned; over the given rows |
| IngestParser.KeptLineIsItsRow | app/features/ingest/parser.py:273-279 | a row counts exactly with an account and an amount, both kept as they are, and its absolute amount is within half a cent |
| IngestParser.ParsePnl | app/features/ingest/parser.py:231-258 | the headline is that of the kept lines and reconciles |
| LinkVerification.B32 | app/features/game_link/verification.py:29-38 | the loop over shifts spells the groups of five bits from the top |
| LinkVerification.EncodeDenotes | app/features/game_link/verification.py:29-38 | the groups denote the bytes, shifted left by the zero padding of at most four bits |
| LinkVerification.EncodeInjective | app/features/game_link/verification.py:29-38 | no two byte strings of one length print alike |
| LinkVerification.NormalizeIdempotent | app/features/game_link/verification.py:54-62 | reading is idempotent |
| LinkVerification.LookAlikes | app/features/game_link/verification.py:18 | O reads as 0, I and L as 1, U as V, every other character as itself |
| LinkVerification.OneCharacterReads | app/features/game_link/verification.py:54-62 | what each single character typed reads as |
| LinkVerification.PrintedShape | app/features/game_link/verification.py:48-51 | a printed code is DUCK-XXXX-XXXX |
| LinkVerification.NormalizeRecovers | app/features/game_link/verification.py:54-62 | reading recovers the core from any spelling of the code, in any case, with any separators, with or without the prefix |
| LinkVerification.LookAlikesRecover | app/features/game_link/verification.py:54-62 | a core typed with look-alike letters is recovered after the prefix, and without it exactly when what was typed does not itself begin with the prefix |
| LinkVerification.LookAlikesRecoverIff | app/features/game_link/verification.py:54-62 | every look-alike spelling without the prefix recovers a core exactly when the core does not begin with DVCK |
| LinkVerification.NormalizePrinted | app/features/game_link/verification.py:48-62 | in particular from the printed code |
| LinkVerification.EncodeIsFolded | app/features/game_link/verification.py:17-18 | every packed digest is left alone by the look-alike folding, so none collides by it |
| LinkVerification.FindPlayerByLinkCode | app/features/game_link/verification.py:72-80 | the first player whose recomputed core the code spells, or nobody when there is none or the length is wrong |
| LinkVerification.ClaimFindsIssuer | app/features/game_link/verification.py:72-80 | a claimed code resolves to its issuer exactly when no earlier player shares the core |
| LinkVerification.DistinctDigestsBindIssuer | app/features/game_link/verification.py:41-80 | with distinct digests every claimed code resolves to its issuer |
| GameLinkService.LinkTables.UpsertPlayer | app/features/game_link/service.py:57-83 | one player per account: an unknown account is added, a known one keeps its place and takes a given email, cleaned, and name |
| GameLinkService.LinkTables.PlayerByDiscord | app/features/game_link/service.py:37-43 | the linked player, exactly when there is a link |
| GameLinkService.LinkTables.LinkDiscord | app/features/game_link/service.py:86-102 | binds, or re-binds, just this Discord user to the player of the code; a code of nobody changes nothing |
| GameLinkService.LinkTables.ClaimIssuedCode | app/features/game_link/service.py:86-102 | an account's printed code, claimed, binds that account to the claimer and touches no other link |
| GameLinkService.CleanEmailIdempotent | app/features/game_link/service.py:23-24 | a cleaned email is its own cleaning |
| GameLinkService.CleanEmailTrims | app/features/game_link/service.py:23-24 | an email loses the blanks at its ends and its upper case, and nothing else |
| Sessions.VerifySigned | app/features/games/sessions.py:23-50 | a signed token verifies to its seed and time exactly when -60 <= now - issued <= ttl, and is otherwise refused as not yet valid or expired |
| Sessions.PlainParserReadsPrinted | app/features/games/sessions.py:29-43 | the parser of plain numerals reads back every printed integer, which is all that is assumed of `int` |
| Sessions.VerifiedWasSigned | app/features/games/sessions.py:33-50 | whatever verifies is two texts that `int` reads as seed and time and the signature of those texts, inside the window |
| Sessions.HonestPlay | app/features/games/service.py:229-246 | a play with a token of today's round passes exactly inside that window and when no longer than the elapsed time plus two seconds |
| Sessions.PlayPasses | app/features/games/service.py:229-246 | a play with a signed token passes exactly inside the window, for the round's own seed when it has one, and within the elapsed time plus two seconds, and is refused for the first of these that fails |
| Sessions.TokenMissing | app/features/games/service.py:230-232 | a play without a token, or with an empty one, is refused for that, and no other |
| Decimal.ReadShow | app/features/games/sessions.py:29-43 | an integer printed in decimal reads back as itself |
| DocumentsService.SlugifyIsSlug | app/features/documents/service.py:30-32 | every result is slug characters joined by single hyphens, not empty |
| DocumentsService.SlugifyFixesSlugs | app/features/documents/service.py:30-32 | the slugs are exactly the fixed points, so slugify is idempotent |
| DocumentsService.SlugifyJoinsWords | app/features/documents/service.py:30-32 | the slug is the text's runs of letters and digits, lower-cased, joined by single hyphens, or "page" when there are none |
| DocumentsService.TriedCount | app/features/documents/service.py:56-70 | n - 1 rounds try n - 1 different names |
| DocumentsService.EnsureUniqueSlug | app/features/documents/service.py:56-70 | ends within one round more than there are taken and reserved names, with the first candidate that is unreserved and held by no other document |
| DocumentsService.DocumentTable.CreateDocument | app/features/documents/service.py:157-165 | a sound slug is stored with the new document, a reserved or taken one changes nothing |
| DocumentsService.DocumentTable.UpdateDocument | app/features/documents/service.py:168-179 | likewise for an update, which may keep the document's own slug |
| DocumentsService.NewSlugIsSound | app/features/documents/service.py:41-53 | a slug that a request sets is free and, unless empty, normalised and unreserved; a non-empty text is refused exactly when its slug is reserved or held by another document |
| DocumentsService.EditMeans | app/features/documents/service.py:157-179 | what a missing, null or given slug makes of a create or an update |
| DocumentsService.SlugsInEveryRun | app/features/documents/service.py:157-179 | under any run of creates and updates slugs stay pairwise distinct and the non-empty ones normalised and unreserved |

## Left out

- HTTP routing, dependencies, schemas, authentication and configuration plumbing; settings such as limits and lifetimes are parameters.
- Cryptography: HMAC values and random keys are uninterpreted; a signature is only known to contain no dot.
- The flappy engine is not part of this model; Codle's word list and round payload are a parameter, its marks follow from the guesses and are not stored, and a guess is taken upper-cased and stripped.
- Creating a round: a round is named by its day, since (game, period key) is unique; the race in `get_or_create_today_round`, its stored payload and `ensure_games` are not modelled.
- The membership oracle (`is_current_member`) is a parameter of each submit, and in the interleaved model so is the outcome of the session check, which comes before the lock.
- GamesService.AttemptTable.SubmitPlay: the session check is an arbitrary predicate of the engine here; its concrete form is in Sessions, and the player is upserted in GameLinkService.
- Draws.DrawTable.Close: is one close on its own, overlapping ones being in OverlappingCloses; it takes only keys that the routes let through (`is_valid_period_key`); the stored snapshot keeps players and points, its account ids and names are those of Ranking.PrintRanking.
- OverlappingCloses.ClosedAbsorbsIff: is about one cycle with atomic submits; a close that loses the race to create the row is one that gives up, and the opening of the next cycle is left to Draws.
- Calendar.ParseFormatKey: is about the keys the code formats itself; `strftime` of years below 1000 depends on the platform. Decimal digits are those of Unicode 15.1.
- Leaderboard.StreakDays: has no first day of the calendar, so the loop's failure at year 1 does not occur.
- KeyForest and KeyTransactions: key expiry, names, owner labels and the owner gate of revoke-for-owner are left out; both revoke routes run the same cascade.
- KeyTransactions.NoDeadlock: ids grow down the tree because a child is inserted after its parent; the order in which a level's rows are locked is arbitrary.
- RateLimit.Limiter.CheckAndCountTrigger: is the call on its own; its conflicting first insert, rollback and 503 are in KeyedTriggers.
- RateLimitConcurrent.NoIncrementLost: the prune does not run inside an in-flight call, whose window it never reaches.
- LlmBudget.OverrunBounded: is about the keyless row of one day; callers are counted at each statement, not named.
- KeyedTriggers.KeyCapIff: starts at the per-key part; what the global check before it does is in KeyedOverrun.GlobalCapIff, for one key. The prune never reaches the row of the day.
- IngestService: the text of an import's detail, the member and finance figures of a report other than its total, the last-seen stamp, the email path and two uploads at the same time are not modelled; a report's total is its number of rows, named or not.
- IngestParser: opening the workbook, finding header rows, date and number coercion, and the counting of membership kinds; amounts are exact rationals, rounded half to even, and 0.8 is exactly four fifths.
- LinkVerification.NormalizeIdempotent: text is ASCII; Python's case mapping and `isalnum` on other characters are not modelled.
- Sessions.VerifySigned: what `int` reads beyond printed integers is left to an arbitrary parser.
- GameLinkService.LinkTables.UpsertPlayer: two first inserts of one account at the same time are not modelled; emails are ASCII.
- DocumentsService.EnsureUniqueSlug: the reserved names are a parameter, so it holds for the built-in ones and any other set.
- DocumentsService: text is ASCII, and the document type rule is left out because an update that sets only the type is not checked by the code.
- Email, Discord rendering, events, sponsors, storage, calendar webhooks and other CRUD would only add easy members.

/**
 * Submitting a play: the single write path of the points ledger
 * (app/features/games/service.py and scoring.py).
 */
module GamesService {
  import opened Basics
  import opened Calendar
  import opened Ledger

  /** What `validate_attempt` returns. */
  datatype Play = Play(rawScore: real, detail: Detail, finished: bool)

  /** An arbitrary game engine. `validateAttempt` returning None stands for its ValueError. */
  datatype Engine = Engine(
    pointsPerDayCap: int,
    singleAttemptPerRound: bool,
    nonmemberRoundPlayCap: int,
    generateRound: int -> Json,
    acceptsSession: (int, Json, int) -> bool,
    validateAttempt: (Json, Json, Option<Detail>) -> Option<Play>,
    rawToPoints: (real, Detail, bool) -> int)

  /** The most points the engine lets one player bank in a day. */
  function DailyCap(e: Engine): nat {
    Max(0, e.pointsPerDayCap)
  }

  /**
   * One call of `submit_attempt`. `now` is read on entry and used for the round, the lock and
   * the score; `stamp` is the clock at the flush, which becomes `played_at` of a new row.
   */
  datatype Submit = Submit(
    game: nat, player: nat, body: Json, isMember: bool, surface: Option<string>, now: int, stamp: int)

  datatype GameError = UnknownGame | BadSession | AlreadyPlayed | NonMemberCap | Rejected

  // ---- scoring.py ----

  function SinceToday(game: nat, player: nat, now: int): Query {
    Query(Some(game), Some(player), StartOfDay(now), None, false)
  }

  function PointsToday(rows: seq<Attempt>, game: nat, player: nat, now: int): int {
    Total(rows, SinceToday(game, player, now))
  }

  function AwardPoints(e: Engine, rows: seq<Attempt>, s: Submit, play: Play): int {
    var base := Max(0, e.rawToPoints(play.rawScore, play.detail, s.isMember));
    var remaining := Max(0, e.pointsPerDayCap - PointsToday(rows, s.game, s.player, s.now));
    Min(base, remaining)
  }

  // ---- service.py: reads ----

  /** `_latest_attempt`: the row with the greatest id for (game, round, player). */
  function LatestAttempt(rows: seq<Attempt>, game: nat, round: int, player: nat): (r: Option<nat>)
    ensures r.Some? ==> r.value < |rows| && SameRound(rows[r.value], game, round, player)
    ensures forall i :: 0 <= i < |rows| && SameRound(rows[i], game, round, player) ==> r.Some? && i <= r.value
  {
    if |rows| == 0 then None
    else if SameRound(rows[|rows| - 1], game, round, player) then Some(|rows| - 1)
    else LatestAttempt(rows[..|rows| - 1], game, round, player)
  }

  function AttemptCount(rows: seq<Attempt>, game: nat, round: int, player: nat): nat {
    if |rows| == 0 then 0
    else AttemptCount(rows[..|rows| - 1], game, round, player)
         + if SameRound(rows[|rows| - 1], game, round, player) then 1 else 0
  }

  // ---- service.py: the two write paths ----

  function RoundOf(s: Submit): int {
    DayOf(s.now)
  }

  function NewSurface(stored: Option<string>, given: Option<string>): Option<string> {
    if given.Some? && given.value != "" then given else stored
  }

  /** The points a validated play of a single-attempt game is worth now. */
  function SinglePoints(e: Engine, rows: seq<Attempt>, s: Submit, play: Play): int {
    if play.finished then AwardPoints(e, rows, s, play) else 0
  }

  /** `_submit_single`: the ledger after the commit and the position of the row written. */
  function SubmitSingle(e: Engine, rows: seq<Attempt>, s: Submit): Result<(seq<Attempt>, nat), GameError> {
    var existing := LatestAttempt(rows, s.game, RoundOf(s), s.player);
    if existing.Some? && rows[existing.value].detail.finished then Err(AlreadyPlayed)
    else
      var prior := if existing.Some? then Some(rows[existing.value].detail) else None;
      match e.validateAttempt(e.generateRound(RoundOf(s)), s.body, prior)
      case None => Err(Rejected)
      case Some(play) =>
        var points := SinglePoints(e, rows, s, play);
        if existing.Some? then
          var row := rows[existing.value];
          Ok((rows[existing.value := row.(rawScore := play.rawScore, detail := play.detail,
              isMemberPlay := s.isMember, surface := NewSurface(row.surface, s.surface), points := points)],
              existing.value))
        else
          Ok((rows + [NewRow(s, play, points)], |rows|))
  }

  function NewRow(s: Submit, play: Play, points: int): Attempt {
    Attempt(s.game, RoundOf(s), s.player, play.rawScore, points, play.detail, s.isMember, s.surface, s.stamp)
  }

  /** `_submit_replayable`: a new row per play, with non-members capped per round. */
  function SubmitReplayable(e: Engine, rows: seq<Attempt>, s: Submit): Result<(seq<Attempt>, nat), GameError> {
    if !s.isMember && AttemptCount(rows, s.game, RoundOf(s), s.player) >= e.nonmemberRoundPlayCap then
      Err(NonMemberCap)
    else
      match e.validateAttempt(e.generateRound(RoundOf(s)), s.body, None)
      case None => Err(Rejected)
      case Some(play) => Ok((rows + [NewRow(s, play, AwardPoints(e, rows, s, play))], |rows|))
  }

  /** `submit_attempt` run on its own. */
  function SubmitAttempt(engines: map<nat, Engine>, rows: seq<Attempt>, s: Submit)
    : Result<(seq<Attempt>, nat), GameError>
  {
    if s.game !in engines then Err(UnknownGame)
    else if !engines[s.game].acceptsSession(RoundOf(s), s.body, s.now) then Err(BadSession)
    else if engines[s.game].singleAttemptPerRound then SubmitSingle(engines[s.game], rows, s)
    else SubmitReplayable(engines[s.game], rows, s)
  }

  /** The ledger after a submit; a refused one writes no attempt row. */
  function Apply(engines: map<nat, Engine>, rows: seq<Attempt>, s: Submit): seq<Attempt> {
    match SubmitAttempt(engines, rows, s)
    case Ok(r) => r.0
    case Err(_) => rows
  }

  function Run(engines: map<nat, Engine>, rows: seq<Attempt>, run: seq<Submit>): seq<Attempt> {
    if |run| == 0 then rows
    else Apply(engines, Run(engines, rows, run[..|run| - 1]), run[|run| - 1])
  }

  // ---- The table, updated in place ----

  class AttemptTable {
    var attempts: seq<Attempt>

    constructor ()
      ensures attempts == []
    {
      attempts := [];
    }

    method WriteSingle(e: Engine, s: Submit) returns (r: Result<nat, GameError>)
      modifies this
      ensures match SubmitSingle(e, old(attempts), s)
              case Ok(w) => attempts == w.0 && r == Ok(w.1)
              case Err(x) => attempts == old(attempts) && r == Err(x)
    {
      var existing := LatestAttempt(attempts, s.game, RoundOf(s), s.player);
      var prior: Option<Detail> := None;
      if existing.Some? {
        if attempts[existing.value].detail.finished {
          return Err(AlreadyPlayed);
        }
        prior := Some(attempts[existing.value].detail);
      }
      var result := e.validateAttempt(e.generateRound(RoundOf(s)), s.body, prior);
      if result.None? {
        return Err(Rejected);
      }
      var play := result.value;
      var attempt := if existing.Some? then attempts[existing.value] else NewRow(s, play, 0);
      attempt := attempt.(rawScore := play.rawScore, detail := play.detail, isMemberPlay := s.isMember);
      attempt := attempt.(surface := NewSurface(attempt.surface, s.surface));
      if play.finished {
        attempt := attempt.(points := AwardPoints(e, attempts, s, play));
      } else {
        attempt := attempt.(points := 0);
      }
      if existing.None? {
        attempts := attempts + [attempt];
        r := Ok(|attempts| - 1);
      } else {
        attempts := attempts[existing.value := attempt];
        r := Ok(existing.value);
      }
    }

    method WriteReplayable(e: Engine, s: Submit) returns (r: Result<nat, GameError>)
      modifies this
      ensures match SubmitReplayable(e, old(attempts), s)
              case Ok(w) => attempts == w.0 && r == Ok(w.1)
              case Err(x) => attempts == old(attempts) && r == Err(x)
    {
      if !s.isMember {
        var played := AttemptCount(attempts, s.game, RoundOf(s), s.player);
        if played >= e.nonmemberRoundPlayCap {
          return Err(NonMemberCap);
        }
      }
      var result := e.validateAttempt(e.generateRound(RoundOf(s)), s.body, None);
      if result.None? {
        return Err(Rejected);
      }
      var points := AwardPoints(e, attempts, s, result.value);
      attempts := attempts + [NewRow(s, result.value, points)];
      r := Ok(|attempts| - 1);
    }

    /** `submit_attempt`: an accepted play lands in the ledger, a refused one leaves it as it was. */
    method SubmitPlay(engines: map<nat, Engine>, s: Submit) returns (r: Result<nat, GameError>)
      modifies this
      ensures attempts == Apply(engines, old(attempts), s)
      ensures match SubmitAttempt(engines, old(attempts), s)
              case Ok(w) => r == Ok(w.1)
              case Err(x) => r == Err(x)
    {
      if s.game !in engines {
        return Err(UnknownGame);
      }
      var engine := engines[s.game];
      if !engine.acceptsSession(RoundOf(s), s.body, s.now) {
        return Err(BadSession);
      }
      if engine.singleAttemptPerRound {
        r := WriteSingle(engine, s);
      } else {
        r := WriteReplayable(engine, s);
      }
    }
  }

  // ---- What one submit does ----

  /** The award is the largest number of points, up to what the play is worth, that still fits under the cap. */
  lemma AwardIsLargest(e: Engine, rows: seq<Attempt>, s: Submit, play: Play, n: int)
    requires NonNegative(rows)
    ensures var award, banked := AwardPoints(e, rows, s, play), PointsToday(rows, s.game, s.player, s.now);
            var worth := e.rawToPoints(play.rawScore, play.detail, s.isMember);
            && 0 <= award
            && (award > 0 ==> award <= worth && banked + award <= e.pointsPerDayCap)
            && (n <= worth && banked + n <= e.pointsPerDayCap ==> n <= award)
  {
  }

  /** An accepted submit writes one row of its own slot, continuing an open one if it can, and touches no other. */
  lemma AcceptedWritesOneRow(engines: map<nat, Engine>, rows: seq<Attempt>, s: Submit)
    requires SubmitAttempt(engines, rows, s).Ok?
    ensures var (after, i) := SubmitAttempt(engines, rows, s).value;
            && i < |after| == Max(|rows|, i + 1)
            && (forall k :: 0 <= k < |rows| && k != i ==> after[k] == rows[k])
            && SameRound(after[i], s.game, RoundOf(s), s.player) && after[i].isMemberPlay == s.isMember
            && (i < |rows| ==>
                  && IsSingle(engines, s.game) && SameRound(rows[i], s.game, RoundOf(s), s.player)
                  && !rows[i].detail.finished && after[i].playedAt == rows[i].playedAt)
            && (i == |rows| ==> after[i].playedAt == s.stamp && after[i].surface == s.surface)
  {
  }

  /** A round is over for a player exactly when one of their rows in it is finished. */
  lemma RefusedExactlyWhenFinished(engines: map<nat, Engine>, rows: seq<Attempt>, s: Submit)
    requires OneRowPerRound(engines, rows) && IsSingle(engines, s.game)
    requires engines[s.game].acceptsSession(RoundOf(s), s.body, s.now)
    ensures SubmitAttempt(engines, rows, s) == Err(AlreadyPlayed) <==>
            exists i :: 0 <= i < |rows| && SameRound(rows[i], s.game, RoundOf(s), s.player) && rows[i].detail.finished
  {
    forall i | 0 <= i < |rows| && SameRound(rows[i], s.game, RoundOf(s), s.player)
      ensures LatestAttempt(rows, s.game, RoundOf(s), s.player) == Some(i)
    {
      var last := LatestAttempt(rows, s.game, RoundOf(s), s.player).value;
      if i < last {
        assert false;
      }
    }
  }

  // ---- What every submit keeps ----

  /** A row is stamped no earlier than the day of the round it plays. */
  ghost predicate Stamped(rows: seq<Attempt>) {
    forall i :: 0 <= i < |rows| ==> rows[i].round <= DayOf(rows[i].playedAt)
  }

  ghost predicate CapHeld(engines: map<nat, Engine>, rows: seq<Attempt>) {
    forall g, p, d :: g in engines ==> Total(rows, OnDay(g, p, d)) <= DailyCap(engines[g])
  }

  ghost predicate LedgerInv(engines: map<nat, Engine>, rows: seq<Attempt>) {
    NonNegative(rows) && Stamped(rows) && CapHeld(engines, rows)
  }

  /** `points_today` sums exactly the rows of this game and player stamped on today's UTC day or later. */
  lemma TodaySelects(game: nat, player: nat, now: int, a: Attempt)
    ensures Matches(SinceToday(game, player, now), a) <==>
            a.game == game && a.player == player && DayOf(now) <= DayOf(a.playedAt)
  {
    StartOfDayIsDay(now);
    StartOfDayIsDay(a.playedAt);
  }

  /** Any row stamped on a day from `now` on counts in what `points_today` reads. */
  lemma DayWithinToday(rows: seq<Attempt>, g: nat, p: nat, d: int, now: int)
    requires NonNegative(rows) && DayOf(now) <= d
    ensures 0 <= Total(rows, OnDay(g, p, d)) <= PointsToday(rows, g, p, now)
  {
    StartOfDayIsDay(now);
    TotalMonotone(rows, OnDay(g, p, d), SinceToday(g, p, now));
  }

  lemma AppendKeepsLedger(engines: map<nat, Engine>, rows: seq<Attempt>, s: Submit, play: Play, points: int)
    requires LedgerInv(engines, rows) && s.now <= s.stamp && s.game in engines
    requires points == 0 || points == AwardPoints(engines[s.game], rows, s, play)
    ensures LedgerInv(engines, rows + [NewRow(s, play, points)])
  {
    var a := NewRow(s, play, points);
    forall g, p, d | g in engines
      ensures Total(rows + [a], OnDay(g, p, d)) <= DailyCap(engines[g])
    {
      TotalAppend(rows, a, OnDay(g, p, d));
      if Matches(OnDay(g, p, d), a) {
        DayWithinToday(rows, g, p, d, s.now);
      }
    }
  }

  lemma UpdateKeepsLedger(engines: map<nat, Engine>, rows: seq<Attempt>, s: Submit, play: Play, i: nat, a: Attempt)
    requires LedgerInv(engines, rows) && s.game in engines
    requires i < |rows| && SameRound(rows[i], s.game, RoundOf(s), s.player)
    requires SameRound(a, s.game, RoundOf(s), s.player) && a.playedAt == rows[i].playedAt
    requires a.points == 0 || a.points == AwardPoints(engines[s.game], rows, s, play)
    ensures LedgerInv(engines, rows[i := a])
  {
    forall g, p, d | g in engines
      ensures Total(rows[i := a], OnDay(g, p, d)) <= DailyCap(engines[g])
    {
      TotalUpdate(rows, i, a, OnDay(g, p, d));
      if Matches(OnDay(g, p, d), a) {
        DayWithinToday(rows, g, p, d, s.now);
      }
    }
  }

  /** One submit keeps the daily cap, even when `now` and the stamp are on different days. */
  lemma SubmitKeepsLedger(engines: map<nat, Engine>, rows: seq<Attempt>, s: Submit)
    requires LedgerInv(engines, rows) && s.now <= s.stamp
    ensures LedgerInv(engines, Apply(engines, rows, s))
  {
    if SubmitAttempt(engines, rows, s).Ok? {
      var e := engines[s.game];
      var r := SubmitAttempt(engines, rows, s).value;
      if e.singleAttemptPerRound {
        var existing := LatestAttempt(rows, s.game, RoundOf(s), s.player);
        var prior := if existing.Some? then Some(rows[existing.value].detail) else None;
        var play := e.validateAttempt(e.generateRound(RoundOf(s)), s.body, prior).value;
        if existing.Some? {
          UpdateKeepsLedger(engines, rows, s, play, r.1, r.0[r.1]);
        } else {
          AppendKeepsLedger(engines, rows, s, play, SinglePoints(e, rows, s, play));
        }
      } else {
        var play := e.validateAttempt(e.generateRound(RoundOf(s)), s.body, None).value;
        AppendKeepsLedger(engines, rows, s, play, AwardPoints(e, rows, s, play));
      }
    }
  }

  /**
   * In every serial run of submits, for any engines, the points of a (game, player) on rows
   * stamped on one UTC day never exceed the game's daily cap. Nothing is asked of the clock
   * except that a submit is not stamped before it started.
   */
  lemma {:induction false} DailyCapInEveryRun(engines: map<nat, Engine>, run: seq<Submit>)
    requires forall i :: 0 <= i < |run| ==> run[i].now <= run[i].stamp
    ensures LedgerInv(engines, Run(engines, [], run))
    ensures forall g, p, d :: g in engines ==>
              Total(Run(engines, [], run), OnDay(g, p, d)) <= DailyCap(engines[g])
  {
    if |run| > 0 {
      DailyCapInEveryRun(engines, run[..|run| - 1]);
      SubmitKeepsLedger(engines, Run(engines, [], run[..|run| - 1]), run[|run| - 1]);
    }
  }

  // ---- The attempt state machine ----

  /** A play the engine reports as finished is also stored as finished. */
  ghost predicate Coherent(e: Engine) {
    forall payload, body, prior ::
      var play := e.validateAttempt(payload, body, prior);
      play.Some? && play.value.finished ==> play.value.detail.finished
  }

  predicate IsSingle(engines: map<nat, Engine>, game: nat) {
    game in engines && engines[game].singleAttemptPerRound
  }

  ghost predicate OneRowPerRound(engines: map<nat, Engine>, rows: seq<Attempt>) {
    forall i, j | 0 <= i < j < |rows| && IsSingle(engines, rows[i].game) ::
      !SameRound(rows[j], rows[i].game, rows[i].round, rows[i].player)
  }

  ghost predicate UnfinishedHoldNothing(engines: map<nat, Engine>, rows: seq<Attempt>) {
    forall i | 0 <= i < |rows| && IsSingle(engines, rows[i].game) ::
      Coherent(engines[rows[i].game]) && !rows[i].detail.finished ==> rows[i].points == 0
  }

  function NonMemberPlays(rows: seq<Attempt>, game: nat, round: int, player: nat): (n: nat)
    ensures n <= AttemptCount(rows, game, round, player)
  {
    if |rows| == 0 then 0
    else NonMemberPlays(rows[..|rows| - 1], game, round, player)
         + if SameRound(rows[|rows| - 1], game, round, player) && !rows[|rows| - 1].isMemberPlay then 1 else 0
  }

  ghost predicate NonMembersCapped(engines: map<nat, Engine>, rows: seq<Attempt>) {
    forall g, r, p :: g in engines && !engines[g].singleAttemptPerRound ==>
      NonMemberPlays(rows, g, r, p) <= Max(0, engines[g].nonmemberRoundPlayCap)
  }

  ghost predicate MachineInv(engines: map<nat, Engine>, rows: seq<Attempt>) {
    OneRowPerRound(engines, rows) && UnfinishedHoldNothing(engines, rows) && NonMembersCapped(engines, rows)
  }

  lemma {:induction false} NonMemberPlaysUpdate(rows: seq<Attempt>, i: nat, a: Attempt, g: nat, r: int, p: nat)
    requires i < |rows| && a.game != g && rows[i].game != g
    ensures NonMemberPlays(rows[i := a], g, r, p) == NonMemberPlays(rows, g, r, p)
  {
    var n := |rows| - 1;
    if i == n {
      assert rows[i := a][..n] == rows[..n];
    } else {
      assert rows[i := a][..n] == rows[..n][i := a];
      NonMemberPlaysUpdate(rows[..n], i, a, g, r, p);
    }
  }

  lemma SubmitKeepsMachine(engines: map<nat, Engine>, rows: seq<Attempt>, s: Submit)
    requires MachineInv(engines, rows)
    ensures MachineInv(engines, Apply(engines, rows, s))
  {
    var after := Apply(engines, rows, s);
    if SubmitAttempt(engines, rows, s).Ok? {
      var r := SubmitAttempt(engines, rows, s).value;
      forall g, k, p | g in engines && !engines[g].singleAttemptPerRound
        ensures NonMemberPlays(after, g, k, p) <= Max(0, engines[g].nonmemberRoundPlayCap)
      {
        if r.1 < |rows| {
          NonMemberPlaysUpdate(rows, r.1, after[r.1], g, k, p);
        } else {
          assert after[..|rows|] == rows;
        }
      }
    }
  }

  /**
   * The attempt state machine over whole runs, whatever the membership of the players does:
   * a single-attempt game has at most one row per (game, round, player), an unfinished row of a
   * coherent engine holds no points, and the non-member plays of a round stay within their cap.
   */
  lemma {:induction false} MachineInEveryRun(engines: map<nat, Engine>, run: seq<Submit>)
    ensures MachineInv(engines, Run(engines, [], run))
  {
    if |run| > 0 {
      MachineInEveryRun(engines, run[..|run| - 1]);
      SubmitKeepsMachine(engines, Run(engines, [], run[..|run| - 1]), run[|run| - 1]);
    }
  }

  /** A row that no later submit may touch: finished, or a play of a replayable game. */
  ghost predicate Final(engines: map<nat, Engine>, a: Attempt) {
    a.game in engines ==> a.detail.finished || !engines[a.game].singleAttemptPerRound
  }

  /**
   * The ledger only grows, final rows never change again, and no row ever changes its
   * game, round, player or stamp.
   */
  lemma {:induction false} RowsAreStable(engines: map<nat, Engine>, rows: seq<Attempt>, run: seq<Submit>)
    ensures var after := Run(engines, rows, run);
            |rows| <= |after| &&
            forall i :: 0 <= i < |rows| ==>
              && SameRound(after[i], rows[i].game, rows[i].round, rows[i].player)
              && after[i].playedAt == rows[i].playedAt
              && (Final(engines, rows[i]) ==> after[i] == rows[i])
  {
    if |run| > 0 {
      RowsAreStable(engines, rows, run[..|run| - 1]);
    }
  }

  const ONE_POINT: Play := Play(1.0, Detail(true, ""), true)

  /** An engine that pays its whole cap of one point for every play. */
  function OnePointEngine(): Engine {
    Engine(1, false, 1, d => "", (r, b, n) => true, (p, b, o) => Some(ONE_POINT), (r, d, m) => 1)
  }

  /**
   * Without coherence an unfinished row can hold points: an engine that reports `finished` in its
   * result but not in the detail leaves a row that is open and already scored.
   */
  lemma IncoherentEngineScoresOpenRow(s: Submit)
    ensures exists e: Engine ::
      var rows := Apply(map[s.game := e], [], s);
      !Coherent(e) && |rows| == 1 && !rows[0].detail.finished && rows[0].points > 0
  {
    var play := Play(1.0, Detail(false, ""), true);
    var e := Engine(1, true, 0, d => "", (r, b, n) => true, (p, b, o) => Some(play), (r, d, m) => 1);
    assert e.validateAttempt("", "", None) == Some(play);
    assert PointsToday([], s.game, s.player, s.now) == 0;
    assert Apply(map[s.game := e], [], s) == [NewRow(s, play, 1)];
  }
}

/**
 * When an open row of a single-attempt game can hold points (app/features/games/service.py, `_submit_single`):
 * the row is scored when the engine's result is finished, but stays open until its stored detail is.
 */
module OpenRows {
  import opened Basics
  import opened Calendar
  import opened Ledger
  import opened GamesService

  /** What one submit of a player brings to the engine. */
  datatype Turn = Turn(body: Json, now: int)

  /** The play the last of these turns makes, when all of them are accepted in one round that stays open till then. */
  function PlayAfter(e: Engine, round: int, turns: seq<Turn>): Option<Play> {
    if |turns| == 0 then None
    else
      var n := |turns| - 1;
      var Turn(body, now) := turns[n];
      if DayOf(now) != round || !e.acceptsSession(round, body, now) then None
      else if n == 0 then e.validateAttempt(e.generateRound(round), body, None)
      else
        var before := PlayAfter(e, round, turns[..n]);
        if before.None? || before.value.detail.finished then None
        else e.validateAttempt(e.generateRound(round), body, Some(before.value.detail))
  }

  /** A play that is finished, stored as unfinished, and worth points. */
  predicate ScoresOpen(e: Engine, play: Play, isMember: bool) {
    && play.finished && !play.detail.finished
    && e.pointsPerDayCap > 0 && e.rawToPoints(play.rawScore, play.detail, isMember) > 0
  }

  /** No play that a player can reach by submitting turns is of that kind. */
  ghost predicate NeverScoresOpen(e: Engine) {
    forall round, turns, isMember ::
      PlayAfter(e, round, turns).Some? ==> !ScoresOpen(e, PlayAfter(e, round, turns).value, isMember)
  }

  ghost predicate OpenHoldNothing(rows: seq<Attempt>, game: nat) {
    forall i :: 0 <= i < |rows| && rows[i].game == game && !rows[i].detail.finished ==> rows[i].points == 0
  }

  /** In no run of submits, each stamped no earlier than it started, does an open row of the game hold points. */
  ghost predicate WorthlessInEveryRun(engines: map<nat, Engine>, game: nat) {
    forall run: seq<Submit> | (forall i :: 0 <= i < |run| ==> run[i].now <= run[i].stamp) ::
      OpenHoldNothing(Run(engines, [], run), game)
  }

  // ---- If no reachable play scores open, no run has such a row ----

  ghost predicate Reached(e: Engine, round: int, detail: Detail) {
    exists turns :: PlayAfter(e, round, turns).Some? && PlayAfter(e, round, turns).value.detail == detail
  }

  ghost predicate RowsReached(e: Engine, rows: seq<Attempt>, game: nat) {
    && NonNegative(rows)
    && forall i :: 0 <= i < |rows| && rows[i].game == game ==> Reached(e, rows[i].round, rows[i].detail)
  }

  /** The play of a submit is the one its turns lead to. */
  lemma SubmitTurns(e: Engine, rows: seq<Attempt>, s: Submit) returns (turns: seq<Turn>)
    requires RowsReached(e, rows, s.game) && e.acceptsSession(RoundOf(s), s.body, s.now) && SubmitSingle(e, rows, s).Ok?
    ensures var existing := LatestAttempt(rows, s.game, RoundOf(s), s.player);
            var prior := if existing.Some? then Some(rows[existing.value].detail) else None;
            PlayAfter(e, RoundOf(s), turns) == e.validateAttempt(e.generateRound(RoundOf(s)), s.body, prior)
  {
    var existing := LatestAttempt(rows, s.game, RoundOf(s), s.player);
    if existing.Some? {
      assert Reached(e, RoundOf(s), rows[existing.value].detail);
      var before :| PlayAfter(e, RoundOf(s), before).Some?
                    && PlayAfter(e, RoundOf(s), before).value.detail == rows[existing.value].detail;
      turns := before + [Turn(s.body, s.now)];
      assert turns[..|before|] == before;
    } else {
      turns := [Turn(s.body, s.now)];
    }
  }

  lemma SubmitKeepsOpenWorthless(engines: map<nat, Engine>, rows: seq<Attempt>, s: Submit, game: nat)
    requires IsSingle(engines, game) && NeverScoresOpen(engines[game])
    requires RowsReached(engines[game], rows, game) && OpenHoldNothing(rows, game)
    ensures RowsReached(engines[game], Apply(engines, rows, s), game) && OpenHoldNothing(Apply(engines, rows, s), game)
  {
    if s.game == game && SubmitAttempt(engines, rows, s).Ok? {
      var e := engines[game];
      var turns := SubmitTurns(e, rows, s);
      var play := PlayAfter(e, RoundOf(s), turns).value;
      assert !ScoresOpen(e, play, s.isMember);
      TotalMonotone(rows, SinceToday(game, s.player, s.now), SinceToday(game, s.player, s.now));
      var (after, at) := SubmitAttempt(engines, rows, s).value;
      assert after[at].detail == play.detail && Reached(e, RoundOf(s), play.detail);
    }
  }

  lemma {:induction false} RunKeepsOpenWorthless(engines: map<nat, Engine>, run: seq<Submit>, game: nat)
    requires IsSingle(engines, game) && NeverScoresOpen(engines[game])
    ensures var rows := Run(engines, [], run); RowsReached(engines[game], rows, game) && OpenHoldNothing(rows, game)
  {
    if |run| > 0 {
      RunKeepsOpenWorthless(engines, run[..|run| - 1], game);
      SubmitKeepsOpenWorthless(engines, Run(engines, [], run[..|run| - 1]), run[|run| - 1], game);
    }
  }

  // ---- If some reachable play scores open, submitting its turns leaves such a row ----

  function TurnOf(game: nat, isMember: bool, t: Turn): Submit {
    Submit(game, 0, t.body, isMember, None, t.now, t.now)
  }

  function Script(game: nat, isMember: bool, turns: seq<Turn>): seq<Submit> {
    seq(|turns|, i requires 0 <= i < |turns| => TurnOf(game, isMember, turns[i]))
  }

  /** One more turn of a player alone on the table, whose open row so far holds nothing. */
  lemma NextTurn(engines: map<nat, Engine>, rows: seq<Attempt>, game: nat, isMember: bool, t: Turn,
                 prior: Option<Detail>)
    requires IsSingle(engines, game) && engines[game].acceptsSession(DayOf(t.now), t.body, t.now)
    requires rows == [] <==> prior.None?
    requires prior.Some? ==> |rows| == 1 && SameRound(rows[0], game, DayOf(t.now), 0) && rows[0].detail == prior.value
    requires prior.Some? ==> !prior.value.finished && rows[0].points == 0
    requires engines[game].validateAttempt(engines[game].generateRound(DayOf(t.now)), t.body, prior).Some?
    ensures var e, after := engines[game], Apply(engines, rows, TurnOf(game, isMember, t));
            var play := e.validateAttempt(e.generateRound(DayOf(t.now)), t.body, prior).value;
            && |after| == 1 && SameRound(after[0], game, DayOf(t.now), 0) && after[0].detail == play.detail
            && (ScoresOpen(e, play, isMember) ==> after[0].points > 0)
  {
    var s := TurnOf(game, isMember, t);
    var today := SinceToday(game, 0, s.now);
    if prior.Some? {
      assert rows[..0] == [] && Total(rows[..0], today) == 0 && Worth(today, rows[0]) == 0;
      assert LatestAttempt(rows, game, RoundOf(s), 0) == Some(0);
    } else {
      assert rows == [] && Total(rows, today) == 0;
    }
  }

  /** The table holds the one row that these turns leave, and it is not an open row with points. */
  ghost predicate PlayedOut(e: Engine, game: nat, isMember: bool, round: int, turns: seq<Turn>, rows: seq<Attempt>) {
    && PlayAfter(e, round, turns).Some?
    && |rows| == 1 && SameRound(rows[0], game, round, 0)
    && rows[0].detail == PlayAfter(e, round, turns).value.detail
    && OpenHoldNothing(rows, game) && !ScoresOpen(e, PlayAfter(e, round, turns).value, isMember)
  }

  lemma FirstTurnPlays(engines: map<nat, Engine>, game: nat, isMember: bool, round: int, turns: seq<Turn>)
    requires IsSingle(engines, game) && |turns| == 1 && PlayAfter(engines[game], round, turns).Some?
    requires OpenHoldNothing(Apply(engines, [], TurnOf(game, isMember, turns[0])), game)
    ensures PlayedOut(engines[game], game, isMember, round, turns, Apply(engines, [], TurnOf(game, isMember, turns[0])))
  {
    NextTurn(engines, [], game, isMember, turns[0], None);
  }

  lemma LaterTurnPlays(engines: map<nat, Engine>, game: nat, isMember: bool, round: int, turns: seq<Turn>,
                       rows: seq<Attempt>)
    requires IsSingle(engines, game) && |turns| > 1 && PlayAfter(engines[game], round, turns).Some?
    requires PlayedOut(engines[game], game, isMember, round, turns[..|turns| - 1], rows)
    requires OpenHoldNothing(Apply(engines, rows, TurnOf(game, isMember, turns[|turns| - 1])), game)
    ensures PlayedOut(engines[game], game, isMember, round, turns,
                      Apply(engines, rows, TurnOf(game, isMember, turns[|turns| - 1])))
  {
    NextTurn(engines, rows, game, isMember, turns[|turns| - 1], Some(rows[0].detail));
  }

  lemma ScriptParts(game: nat, isMember: bool, turns: seq<Turn>)
    requires |turns| > 0
    ensures var n, run := |turns| - 1, Script(game, isMember, turns);
            && |run| == n + 1 && run[..n] == Script(game, isMember, turns[..n])
            && run[n] == TurnOf(game, isMember, turns[n])
  {
  }

  /** The script runs turn by turn. */
  lemma ScriptSnoc(engines: map<nat, Engine>, game: nat, isMember: bool, turns: seq<Turn>)
    requires |turns| > 0
    ensures var n := |turns| - 1;
            Run(engines, [], Script(game, isMember, turns))
            == Apply(engines, Run(engines, [], Script(game, isMember, turns[..n])), TurnOf(game, isMember, turns[n]))
  {
    ScriptParts(game, isMember, turns);
  }

  /** And is a run like any other. */
  lemma ScriptHoldsNothing(engines: map<nat, Engine>, game: nat, isMember: bool, turns: seq<Turn>)
    requires WorthlessInEveryRun(engines, game)
    ensures OpenHoldNothing(Run(engines, [], Script(game, isMember, turns)), game)
  {
  }

  lemma {:induction false} ScriptPlays(engines: map<nat, Engine>, game: nat, isMember: bool, round: int,
                                       turns: seq<Turn>)
    requires IsSingle(engines, game) && WorthlessInEveryRun(engines, game)
    requires PlayAfter(engines[game], round, turns).Some?
    ensures PlayedOut(engines[game], game, isMember, round, turns, Run(engines, [], Script(game, isMember, turns)))
  {
    var before := turns[..|turns| - 1];
    ScriptSnoc(engines, game, isMember, turns);
    ScriptHoldsNothing(engines, game, isMember, turns);
    if |turns| > 1 {
      ScriptPlays(engines, game, isMember, round, before);
      LaterTurnPlays(engines, game, isMember, round, turns, Run(engines, [], Script(game, isMember, before)));
    } else {
      assert Script(game, isMember, before) == [];
      FirstTurnPlays(engines, game, isMember, round, turns);
    }
  }

  /**
   * In a single-attempt game, open rows are worthless in every run exactly when no play that turns can reach
   * is finished in the engine's result, unfinished in the detail it stores, and worth points.
   */
  lemma OpenWorthlessIff(engines: map<nat, Engine>, game: nat)
    requires IsSingle(engines, game)
    ensures WorthlessInEveryRun(engines, game) <==> NeverScoresOpen(engines[game])
  {
    if NeverScoresOpen(engines[game]) {
      forall run: seq<Submit>
        ensures OpenHoldNothing(Run(engines, [], run), game)
      {
        RunKeepsOpenWorthless(engines, run, game);
      }
    } else {
      var round, turns, isMember :|
        PlayAfter(engines[game], round, turns).Some?
        && ScoresOpen(engines[game], PlayAfter(engines[game], round, turns).value, isMember);
      if WorthlessInEveryRun(engines, game) {
        ScriptPlays(engines, game, isMember, round, turns);
      }
    }
  }

  /** In particular for an engine that stores every finished play as finished. */
  lemma CoherentNeverScoresOpen(e: Engine)
    requires Coherent(e)
    ensures NeverScoresOpen(e)
  {
    forall round, turns: seq<Turn> | PlayAfter(e, round, turns).Some?
      ensures PlayAfter(e, round, turns).value.finished ==> PlayAfter(e, round, turns).value.detail.finished
    {
      var n := |turns| - 1;
      var before := PlayAfter(e, round, turns[..n]);
      var prior := if n == 0 then None else Some(before.value.detail);
      assert PlayAfter(e, round, turns) == e.validateAttempt(e.generateRound(round), turns[n].body, prior);
    }
  }
}

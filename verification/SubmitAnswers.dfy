/** What a submit is answered, case by case, and how many plays a non-member gets (app/features/games/service.py). */
module SubmitAnswers {
  import opened Basics
  import opened Calendar
  import opened Ledger
  import opened GamesService

  // ---- One submit ----

  /** The rows of one game, round and player. */
  function RowsOf(rows: seq<Attempt>, game: nat, round: int, player: nat): set<nat> {
    set i: nat | i < |rows| && SameRound(rows[i], game, round, player)
  }

  lemma {:induction false} CountIsCard(rows: seq<Attempt>, game: nat, round: int, player: nat)
    ensures AttemptCount(rows, game, round, player) == |RowsOf(rows, game, round, player)|
  {
    if |rows| > 0 {
      var n := |rows| - 1;
      CountIsCard(rows[..n], game, round, player);
      RowsOfSnoc(rows[..n], rows[n], game, round, player);
      assert rows == rows[..n] + [rows[n]];
    }
  }

  lemma RowsOfSnoc(rows: seq<Attempt>, a: Attempt, game: nat, round: int, player: nat)
    ensures var before := RowsOf(rows, game, round, player);
            RowsOf(rows + [a], game, round, player)
            == if SameRound(a, game, round, player) then before + {|rows|} else before
  {
  }

  /** Before any play is looked at: an unknown game, then a bad session. */
  lemma FirstAnswers(engines: map<nat, Engine>, rows: seq<Attempt>, s: Submit)
    ensures SubmitAttempt(engines, rows, s) == Err(UnknownGame) <==> s.game !in engines
    ensures SubmitAttempt(engines, rows, s) == Err(BadSession) <==>
            s.game in engines && !engines[s.game].acceptsSession(RoundOf(s), s.body, s.now)
  {
  }

  /** The submit reaches the rules of its game. */
  predicate Played(engines: map<nat, Engine>, s: Submit) {
    s.game in engines && engines[s.game].acceptsSession(RoundOf(s), s.body, s.now)
  }

  /** A player who is no member and has had the plays a non-member gets in the round. */
  predicate QuotaSpent(e: Engine, rows: seq<Attempt>, s: Submit) {
    !s.isMember && |RowsOf(rows, s.game, RoundOf(s), s.player)| >= e.nonmemberRoundPlayCap
  }

  /**
   * A replayable game refuses exactly the non-member whose quota is spent, then rejects exactly what the engine
   * rejects, and otherwise appends the engine's own score and detail.
   */
  lemma ReplayableAnswer(engines: map<nat, Engine>, rows: seq<Attempt>, s: Submit)
    requires Played(engines, s) && !engines[s.game].singleAttemptPerRound
    ensures var e, r := engines[s.game], SubmitAttempt(engines, rows, s);
            var play := e.validateAttempt(e.generateRound(RoundOf(s)), s.body, None);
            && (r == Err(NonMemberCap) <==> QuotaSpent(e, rows, s))
            && (r == Err(Rejected) <==> !QuotaSpent(e, rows, s) && play.None?)
            && (r.Ok? <==> !QuotaSpent(e, rows, s) && play.Some?)
            && (r.Ok? ==>
                  && r.value.1 == |rows| && |r.value.0| == |rows| + 1 && r.value.0[..|rows|] == rows
                  && r.value.0[|rows|].rawScore == play.value.rawScore && r.value.0[|rows|].detail == play.value.detail
                  && r.value.0[|rows|].points == AwardPoints(e, rows, s, play.value))
  {
    CountIsCard(rows, s.game, RoundOf(s), s.player);
  }

  /**
   * A single-attempt game refuses exactly a finished last row of the round, then rejects exactly what the engine
   * rejects of the detail so far, and otherwise stores the engine's score and detail, awarding only a finishing turn.
   */
  lemma SingleAnswer(engines: map<nat, Engine>, rows: seq<Attempt>, s: Submit, last: Option<nat>)
    requires Played(engines, s) && engines[s.game].singleAttemptPerRound
    requires last == LatestAttempt(rows, s.game, RoundOf(s), s.player)
    ensures var e, r := engines[s.game], SubmitAttempt(engines, rows, s);
            var over := last.Some? && rows[last.value].detail.finished;
            var prior := if last.Some? then Some(rows[last.value].detail) else None;
            var play := e.validateAttempt(e.generateRound(RoundOf(s)), s.body, prior);
            && (r == Err(AlreadyPlayed) <==> over)
            && (r == Err(Rejected) <==> !over && play.None?)
            && (r.Ok? <==> !over && play.Some?)
            && (r.Ok? ==>
                  var row := r.value.0[if last.Some? then last.value else |rows|];
                  && row.rawScore == play.value.rawScore && row.detail == play.value.detail
                  && row.points == (if play.value.finished then AwardPoints(e, rows, s, play.value) else 0)
                  && row.surface == (if s.surface.Some? && s.surface != Some("") then s.surface
                                     else if last.Some? then rows[last.value].surface else s.surface))
  {
  }

  // ---- A non-member's plays over whole runs ----

  predicate Mine(s: Submit, game: nat, round: int, player: nat) {
    s.game == game && RoundOf(s) == round && s.player == player
  }

  /** The plays of one slot in a run, and those of them that are accepted. */
  function Asked(run: seq<Submit>, game: nat, round: int, player: nat): nat {
    if |run| == 0 then 0
    else Asked(run[..|run| - 1], game, round, player) + if Mine(run[|run| - 1], game, round, player) then 1 else 0
  }

  function Accepted(engines: map<nat, Engine>, run: seq<Submit>, game: nat, round: int, player: nat): nat {
    if |run| == 0 then 0
    else
      var n := |run| - 1;
      var ok := SubmitAttempt(engines, Run(engines, [], run[..n]), run[n]).Ok?;
      Accepted(engines, run[..n], game, round, player) + if Mine(run[n], game, round, player) && ok then 1 else 0
  }

  /** A valid play of someone who is no member. */
  predicate ValidNonMemberPlay(engines: map<nat, Engine>, s: Submit) {
    && Played(engines, s) && !s.isMember
    && engines[s.game].validateAttempt(engines[s.game].generateRound(RoundOf(s)), s.body, None).Some?
  }

  lemma OthersKeepRows(engines: map<nat, Engine>, rows: seq<Attempt>, s: Submit, game: nat, round: int, player: nat)
    requires !Mine(s, game, round, player)
    ensures RowsOf(Apply(engines, rows, s), game, round, player) == RowsOf(rows, game, round, player)
  {
    if SubmitAttempt(engines, rows, s).Ok? {
      AcceptedWritesOneRow(engines, rows, s);
    }
  }

  lemma MineAddsRow(engines: map<nat, Engine>, rows: seq<Attempt>, s: Submit)
    requires ValidNonMemberPlay(engines, s) && !engines[s.game].singleAttemptPerRound
    ensures var before := RowsOf(rows, s.game, RoundOf(s), s.player);
            var spent := |before| >= engines[s.game].nonmemberRoundPlayCap;
            && (SubmitAttempt(engines, rows, s).Ok? <==> !spent)
            && |RowsOf(Apply(engines, rows, s), s.game, RoundOf(s), s.player)| == |before| + if spent then 0 else 1
  {
    ReplayableAnswer(engines, rows, s);
    if SubmitAttempt(engines, rows, s).Ok? {
      AcceptedWritesOneRow(engines, rows, s);
      var after := Apply(engines, rows, s);
      assert after == rows + [after[|rows|]];
      RowsOfSnoc(rows, after[|rows|], s.game, RoundOf(s), s.player);
    }
  }

  /**
   * In every run, among whatever others submit: of n valid plays of one round by a player who is never a member,
   * exactly min(n, cap) are accepted, and each of them is one row.
   */
  lemma {:induction false} NonMemberQuota(engines: map<nat, Engine>, run: seq<Submit>, game: nat, round: int,
                                          player: nat)
    requires game in engines && !engines[game].singleAttemptPerRound
    requires forall i :: 0 <= i < |run| && Mine(run[i], game, round, player) ==> ValidNonMemberPlay(engines, run[i])
    ensures Accepted(engines, run, game, round, player)
            == Min(Asked(run, game, round, player), Max(0, engines[game].nonmemberRoundPlayCap))
            == |RowsOf(Run(engines, [], run), game, round, player)|
  {
    if |run| > 0 {
      var n := |run| - 1;
      NonMemberQuota(engines, run[..n], game, round, player);
      var rows := Run(engines, [], run[..n]);
      if Mine(run[n], game, round, player) {
        MineAddsRow(engines, rows, run[n]);
      } else {
        OthersKeepRows(engines, rows, run[n], game, round, player);
      }
    }
  }
}

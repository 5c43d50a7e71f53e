/**
 * Submits that reach the ledger after the close of the month their row is stamped in
 * (app/features/games/service.py and draws.py): a row is stamped when it is flushed and visible when it is
 * committed, and the row of a single-attempt game is written again at every turn.
 */
module LateSubmits {
  import opened Basics
  import opened Calendar
  import opened Ledger
  import opened GamesService
  import opened Ranking
  import opened Draws

  // ---- Which submits move the member totals of a span of days ----

  predicate Accepted(engines: map<nat, Engine>, s: Submit) {
    s.game in engines && engines[s.game].acceptsSession(RoundOf(s), s.body, s.now)
  }

  function Validated(e: Engine, s: Submit, prior: Option<Detail>): Option<GamesService.Play> {
    e.validateAttempt(e.generateRound(RoundOf(s)), s.body, prior)
  }

  function MemberPoints(isMember: bool, points: int): int {
    if isMember then points else 0
  }

  /** The next turn of a row left open in the span, worth other member points than the row holds. */
  predicate ChangesOpenRow(engines: map<nat, Engine>, rows: seq<Attempt>, s: Submit, from: int, until: int) {
    && Accepted(engines, s) && engines[s.game].singleAttemptPerRound
    && var e, existing := engines[s.game], LatestAttempt(rows, s.game, RoundOf(s), s.player);
    && existing.Some?
    && var row := rows[existing.value];
    && !row.detail.finished && from * DAY <= row.playedAt < until * DAY
    && var play := Validated(e, s, Some(row.detail));
    && play.Some?
    && MemberPoints(s.isMember, SinglePoints(e, rows, s, play.value)) != MemberPoints(row.isMemberPlay, row.points)
  }

  /** A play of a member that continues no row, is worth points, and finds room under the daily cap. */
  predicate InsertsMemberPoints(engines: map<nat, Engine>, rows: seq<Attempt>, s: Submit) {
    && Accepted(engines, s) && s.isMember
    && var e, play := engines[s.game], Validated(engines[s.game], s, None);
    && play.Some? && e.rawToPoints(play.value.rawScore, play.value.detail, true) > 0
    && PointsToday(rows, s.game, s.player, s.now) < e.pointsPerDayCap
    && (e.singleAttemptPerRound ==>
          play.value.finished && LatestAttempt(rows, s.game, RoundOf(s), s.player).None?)
  }

  predicate MovesSpan(engines: map<nat, Engine>, rows: seq<Attempt>, s: Submit, from: int, until: int) {
    || ChangesOpenRow(engines, rows, s, from, until)
    || (InsertsMemberPoints(engines, rows, s) && from * DAY <= s.stamp < until * DAY)
  }

  /** The submit leaves every member total of the span as it was. */
  ghost predicate KeepsSpan(engines: map<nat, Engine>, rows: seq<Attempt>, s: Submit, from: int, until: int) {
    forall p: nat :: Total(Apply(engines, rows, s), Of(Span(from, until), p)) == Total(rows, Of(Span(from, until), p))
  }

  function WorthBefore(rows: seq<Attempt>, i: nat, q: Query): int {
    if i < |rows| then Worth(q, rows[i]) else 0
  }

  /** An accepted submit moves the totals of its own player by what its row is worth now and was before. */
  lemma SubmitMovesItsRow(engines: map<nat, Engine>, rows: seq<Attempt>, s: Submit, q: Query, p: nat)
    requires SubmitAttempt(engines, rows, s).Ok? && q.player.None?
    ensures var (after, i) := SubmitAttempt(engines, rows, s).value;
            && i < |after|
            && Total(after, Of(q, p)) - Total(rows, Of(q, p))
               == if p == s.player then Worth(q, after[i]) - WorthBefore(rows, i, q) else 0
  {
    var (after, i) := SubmitAttempt(engines, rows, s).value;
    if i < |rows| {
      TotalUpdate(rows, i, after[i], Of(q, p));
    } else {
      TotalAppend(rows, after[i], Of(q, p));
    }
  }

  lemma KeepsSpanByWorth(engines: map<nat, Engine>, rows: seq<Attempt>, s: Submit, from: int, until: int)
    requires SubmitAttempt(engines, rows, s).Ok?
    ensures var (after, i) := SubmitAttempt(engines, rows, s).value;
            && i < |after|
            && (KeepsSpan(engines, rows, s, from, until) <==>
                Worth(Span(from, until), after[i]) == WorthBefore(rows, i, Span(from, until)))
  {
    var (after, i) := SubmitAttempt(engines, rows, s).value;
    var q := Span(from, until);
    forall p: nat
      ensures Total(after, Of(q, p)) - Total(rows, Of(q, p))
              == if p == s.player then Worth(q, after[i]) - WorthBefore(rows, i, q) else 0
    {
      SubmitMovesItsRow(engines, rows, s, q, p);
    }
    assert Apply(engines, rows, s) == after;
    if KeepsSpan(engines, rows, s, from, until) {
      assert Total(after, Of(q, s.player)) == Total(rows, Of(q, s.player));
    }
  }

  /**
   * For any engines, any ledger and any stamp: a submit moves the member totals of a span of days exactly when
   * it changes the worth of a row left open in the span, or inserts member points with a stamp inside it.
   */
  lemma SubmitMovesSpan(engines: map<nat, Engine>, rows: seq<Attempt>, s: Submit, from: int, until: int)
    ensures KeepsSpan(engines, rows, s, from, until) <==> !MovesSpan(engines, rows, s, from, until)
  {
    if SubmitAttempt(engines, rows, s).Ok? {
      var (after, i) := SubmitAttempt(engines, rows, s).value;
      KeepsSpanByWorth(engines, rows, s, from, until);
      if i < |rows| {
        assert after[i].playedAt == rows[i].playedAt;
        assert !InsertsMemberPoints(engines, rows, s);
      } else {
        assert !ChangesOpenRow(engines, rows, s, from, until);
      }
    }
  }

  /**
   * What a caller can tell before the flush: whenever a submit that has started is flushed, it leaves the member
   * totals of the span alone, exactly when it does not change an open row of the span, and does not insert
   * member points having started before the span's end.
   */
  lemma NoStampMovesSpan(engines: map<nat, Engine>, rows: seq<Attempt>, s: Submit, from: int, until: int)
    requires from < until
    ensures (forall t: int :: s.now <= t ==> KeepsSpan(engines, rows, s.(stamp := t), from, until))
            <==> !ChangesOpenRow(engines, rows, s, from, until)
                 && !(InsertsMemberPoints(engines, rows, s) && s.now < until * DAY)
  {
    forall t: int
      ensures KeepsSpan(engines, rows, s.(stamp := t), from, until)
              <==> !ChangesOpenRow(engines, rows, s, from, until)
                   && !(InsertsMemberPoints(engines, rows, s) && from * DAY <= t < until * DAY)
    {
      SubmitMovesSpan(engines, rows, s.(stamp := t), from, until);
      StampDoesNotMatter(engines, rows, s, t, from, until);
    }
    var first := Max(s.now, from * DAY);
    assert KeepsSpan(engines, rows, s.(stamp := first), from, until) || s.now <= first;
    assert s.now < until * DAY ==> from * DAY <= first < until * DAY;
  }

  lemma StampDoesNotMatter(engines: map<nat, Engine>, rows: seq<Attempt>, s: Submit, t: int, from: int, until: int)
    ensures ChangesOpenRow(engines, rows, s.(stamp := t), from, until)
            <==> ChangesOpenRow(engines, rows, s, from, until)
    ensures InsertsMemberPoints(engines, rows, s.(stamp := t)) <==> InsertsMemberPoints(engines, rows, s)
  {
    assert RoundOf(s.(stamp := t)) == RoundOf(s);
  }

  /** For a coherent engine the open row holds nothing, so only a member's finishing turn changes it. */
  predicate FinishesOpenRow(engines: map<nat, Engine>, rows: seq<Attempt>, s: Submit, from: int, until: int) {
    && Accepted(engines, s) && engines[s.game].singleAttemptPerRound && s.isMember
    && var e, existing := engines[s.game], LatestAttempt(rows, s.game, RoundOf(s), s.player);
    && existing.Some? && !rows[existing.value].detail.finished
    && from * DAY <= rows[existing.value].playedAt < until * DAY
    && PointsToday(rows, s.game, s.player, s.now) < e.pointsPerDayCap
    && var play := Validated(e, s, Some(rows[existing.value].detail));
    && play.Some? && play.value.finished && e.rawToPoints(play.value.rawScore, play.value.detail, true) > 0
  }

  /** A submit to a coherent engine flushed after the span moves it exactly when it finishes such a row. */
  lemma LateFlush(engines: map<nat, Engine>, rows: seq<Attempt>, s: Submit, from: int, until: int)
    requires until * DAY <= s.stamp
    requires UnfinishedHoldNothing(engines, rows) && (s.game in engines ==> Coherent(engines[s.game]))
    ensures KeepsSpan(engines, rows, s, from, until) <==> !FinishesOpenRow(engines, rows, s, from, until)
  {
    SubmitMovesSpan(engines, rows, s, from, until);
    assert ChangesOpenRow(engines, rows, s, from, until) <==> FinishesOpenRow(engines, rows, s, from, until);
  }

  /** A submit that starts after the span's end never touches a row stamped inside it. */
  lemma LateFlushStartedEarly(engines: map<nat, Engine>, rows: seq<Attempt>, s: Submit, from: int, until: int)
    requires Stamped(rows) && ChangesOpenRow(engines, rows, s, from, until)
    ensures s.now < until * DAY
  {
    var stamp := rows[LatestAttempt(rows, s.game, RoundOf(s), s.player).value].playedAt;
    assert DayOf(s.now) <= DayOf(stamp) && stamp < until * DAY;
    StartOfDayIsDay(stamp);
    StartOfDayIsDay(s.now);
  }

  // ---- Winners over runs with late submits ----

  predicate MovesMonth(engines: map<nat, Engine>, rows: seq<Attempt>, s: Submit, key: string)
    requires ParseKey(key).Some?
  {
    var k := MonthNumberOf(key);
    MovesSpan(engines, rows, s, FirstDay(k), FirstDay(k + 1))
  }

  /** Closes follow the clock, and a submit, whenever it is committed, moves no month already closed after its end. */
  ghost predicate Harmless(engines: map<nat, Engine>, w: World, ev: Event) {
    match ev
    case Play(s) => forall key :: ClosedAfterEnd(w.cycles, key) ==> !MovesMonth(engines, w.rows, s, key)
    case Close(_, _, now, at) => w.clock <= now <= at
    case Look(_) => true
  }

  ghost predicate HarmlessRun(engines: map<nat, Engine>, w: World, run: seq<Event>) {
    forall i :: 0 <= i < |run| ==> Harmless(engines, RunDraw(engines, w, run[..i]), run[i])
  }

  lemma KeptSpanKeepsRank(engines: map<nat, Engine>, rows: seq<Attempt>, s: Submit, from: int, until: int)
    requires KeepsSpan(engines, rows, s, from, until)
    ensures Rank(Apply(engines, rows, s), Span(from, until)) == Rank(rows, Span(from, until))
  {
    SameTotalsSameRank(Apply(engines, rows, s), rows, Span(from, until));
  }

  lemma HarmlessKeepsStandings(engines: map<nat, Engine>, rows: seq<Attempt>, s: Submit, key: string)
    requires ParseKey(key).Some? && !MovesMonth(engines, rows, s, key)
    ensures Standings(Apply(engines, rows, s), key) == Standings(rows, key)
  {
    var from, until := FirstDay(MonthNumberOf(key)), FirstDay(MonthNumberOf(key) + 1);
    KeyNamesItsMonth(key);
    SubmitMovesSpan(engines, rows, s, from, until);
    KeptSpanKeepsRank(engines, rows, s, from, until);
  }

  lemma HarmlessKeepsStanding(engines: map<nat, Engine>, w: World, s: Submit, key: string)
    requires ClosedAfterEnd(w.cycles, key) && Stands(w, key) && !MovesMonth(engines, w.rows, s, key)
    ensures Stands(Evolve(engines, w, Event.Play(s)), key)
  {
    HarmlessKeepsStandings(engines, w.rows, s, key);
  }

  lemma HarmlessKeepsWinners(engines: map<nat, Engine>, w: World, ev: Event)
    requires WinnersStand(w) && Harmless(engines, w, ev)
    ensures WinnersStand(Evolve(engines, w, ev))
  {
    match ev
    case Play(s) =>
      forall key | ClosedAfterEnd(w.cycles, key)
        ensures Stands(Evolve(engines, w, ev), key)
      {
        HarmlessKeepsStanding(engines, w, s, key);
      }
    case Close(key, force, now, at) => CloseKeepsWinners(engines, w, key, force, now, at);
    case Look(key) =>
      forall k | ClosedAfterEnd(Evolve(engines, w, ev).cycles, k)
        ensures Stands(Evolve(engines, w, ev), k)
      {
        assert Stands(w, k);
      }
  }

  /**
   * In every run of submits committed in any order, the winner of a cycle closed after its end stands as long as
   * no submit meets the condition for that month.
   */
  lemma {:induction false} WinnersStandWhileHarmless(engines: map<nat, Engine>, w: World, run: seq<Event>)
    requires WinnersStand(w) && HarmlessRun(engines, w, run)
    ensures WinnersStand(RunDraw(engines, w, run))
  {
    if |run| > 0 {
      var before := run[..|run| - 1];
      assert forall i :: 0 <= i < |before| ==> run[..i] == before[..i];
      WinnersStandWhileHarmless(engines, w, before);
      HarmlessKeepsWinners(engines, RunDraw(engines, w, before), run[|run| - 1]);
    }
  }

  // ---- Both exceptions are real ----

  /** A two-turn game: the first submit opens the round, the second finishes it for one point. */
  function TwoTurnEngine(): Engine {
    Engine(1, true, 0, d => "", (r, b, n) => true,
           (p, b, prior: Option<Detail>) => Some(Turn(prior.Some?)), (r, d, m) => 1)
  }

  function Turn(finished: bool): GamesService.Play {
    GamesService.Play(1.0, Detail(finished, ""), finished)
  }

  function OpeningTurn(until: int): Submit {
    Submit(1, 7, "", true, None, until * DAY - 1, until * DAY - 1)
  }

  lemma TwoTurns(until: int)
    ensures var engines: map<nat, Engine> := map[1 := TwoTurnEngine()];
            var open := OpeningTurn(until);
            var row := NewRow(open, Turn(false), 0);
            && Apply(engines, [], open) == [row]
            && Apply(engines, [row], open.(stamp := until * DAY + 1))
               == [row.(detail := Detail(true, ""), points := 1)]
  {
    var e := TwoTurnEngine();
    var open := OpeningTurn(until);
    var row := NewRow(open, Turn(false), 0);
    var late := open.(stamp := until * DAY + 1);
    assert e.validateAttempt("", "", None) == Some(Turn(false));
    assert e.validateAttempt("", "", Some(row.detail)) == Some(Turn(true));
    assert LatestAttempt([row], 1, RoundOf(late), 7) == Some(0);
    TotalAppend([], row, SinceToday(1, 7, late.now));
    assert [] + [row] == [row];
    assert AwardPoints(e, [row], late, Turn(true)) == 1;
  }

  lemma RankOne(a: Attempt, q: Query)
    requires Matches(q, a) && q.player.None?
    ensures Rank([a], q) == if a.points > 0 then [Entry(a.player, a.points)] else []
  {
    assert [a][..0] == [] && Players([], q) == [];
    assert Players([a], q) == [a.player];
    var ps: seq<nat> := [a.player];
    assert ps[..0] == [] && RankPlayers(ps[..0], [a], q) == [];
    assert Insert(Entry(a.player, a.points), []) == [Entry(a.player, a.points)];
    TotalAppend([], a, Of(q, a.player));
    assert [] + [a] == [a];
  }

  lemma RanksOfTheTwoTurns(from: int, until: int)
    requires from < until
    ensures var row := NewRow(OpeningTurn(until), Turn(false), 0);
            && Rank([row], Span(from, until)) == []
            && Rank([row.(detail := Detail(true, ""), points := 1)], Span(from, until)) == [Entry(7, 1)]
  {
    var row := NewRow(OpeningTurn(until), Turn(false), 0);
    RankOne(row, Span(from, until));
    RankOne(row.(detail := Detail(true, ""), points := 1), Span(from, until));
  }

  /**
   * An open row can be finished late, in every month: a member opens a round in its last microsecond, the cycle is
   * closed after its end without force and stores that nobody won, and then the finishing turn, which also
   * started in that microsecond, is flushed. The cycle still says nobody, the standings say player 7.
   */
  lemma LateFlushMovesClosedMonth(key: string)
    requires ParseKey(key).Some?
    ensures var engines: map<nat, Engine> := map[1 := TwoTurnEngine()];
            var open := OpeningTurn(EndOf(key) / DAY);
            var started := Evolve(engines, World([], map[], open.now), Event.Play(open));
            var closed := Evolve(engines, started, Close(key, false, EndOf(key), EndOf(key)));
            var flushed := Evolve(engines, closed, Event.Play(open.(stamp := EndOf(key) + 1)));
            && ClosedAfterEnd(closed.cycles, key) && Stands(closed, key) && closed.cycles[key].winner == None
            && flushed.cycles == closed.cycles && !Stands(flushed, key)
            && Winner(Standings(flushed.rows, key)) == Some(Entry(7, 1))
  {
    var k := MonthNumberOf(key);
    KeyNamesItsMonth(key);
    FirstDayMonotone(k, k + 1);
    var until := FirstDay(k + 1);
    assert EndOf(key) == until * DAY && EndOf(key) / DAY == until;
    TwoTurns(until);
    RanksOfTheTwoTurns(FirstDay(k), until);
    CloseTouchesOneCycle(map[], [NewRow(OpeningTurn(until), Turn(false), 0)], key, false, EndOf(key), EndOf(key));
  }

  /** A play of a replayable game in the last microsecond before `until`. */
  function LastPlay(until: int): Submit {
    Submit(1, 7, "", true, None, until * DAY - 1, until * DAY - 1)
  }

  lemma LastPlayScores(until: int)
    ensures Apply(map[1 := OnePointEngine()], [], LastPlay(until)) == [NewRow(LastPlay(until), ONE_POINT, 1)]
  {
    var e, s := OnePointEngine(), LastPlay(until);
    assert e.validateAttempt("", "", None) == Some(ONE_POINT);
    assert PointsToday([], 1, 7, s.now) == 0;
  }

  lemma RanksOfTheLastPlay(from: int, until: int)
    requires from < until
    ensures Rank([], Span(from, until)) == []
    ensures Rank([NewRow(LastPlay(until), ONE_POINT, 1)], Span(from, until)) == [Entry(7, 1)]
  {
    RankOne(NewRow(LastPlay(until), ONE_POINT, 1), Span(from, until));
  }

  /**
   * And a play of any game can be committed late, in every month: it is stamped in the month's last microsecond,
   * the cycle is closed after its end without force before the play is committed, and stores that nobody won.
   */
  lemma LateCommitMovesClosedMonth(key: string)
    requires ParseKey(key).Some?
    ensures var engines: map<nat, Engine> := map[1 := OnePointEngine()];
            var play := LastPlay(EndOf(key) / DAY);
            var closed := Evolve(engines, World([], map[], play.stamp), Close(key, false, EndOf(key), EndOf(key)));
            var committed := Evolve(engines, closed, Event.Play(play));
            && play.stamp < EndOf(key)
            && ClosedAfterEnd(closed.cycles, key) && Stands(closed, key) && closed.cycles[key].winner == None
            && committed.cycles == closed.cycles && !Stands(committed, key)
            && Winner(Standings(committed.rows, key)) == Some(Entry(7, 1))
  {
    var k := MonthNumberOf(key);
    KeyNamesItsMonth(key);
    FirstDayMonotone(k, k + 1);
    var until := FirstDay(k + 1);
    assert EndOf(key) == until * DAY && EndOf(key) / DAY == until;
    LastPlayScores(until);
    RanksOfTheLastPlay(FirstDay(k), until);
    CloseTouchesOneCycle(map[], [], key, false, EndOf(key), EndOf(key));
  }
}

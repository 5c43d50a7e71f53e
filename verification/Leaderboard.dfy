/** Leaderboards as three time-window queries, and a player's streak (app/features/games/service.py). */
module Leaderboard {
  import opened Basics
  import opened Calendar
  import opened Ledger
  import opened Ranking

  datatype Window = Daily | Weekly | CycleToDate

  /** 0 is Monday, as `date.weekday` has it. */
  function Weekday(t: int): int {
    (DayOf(t) + 6) % 7
  }

  function WindowStart(w: Window, now: int): int
    requires DAY <= now
  {
    match w
    case Daily => StartOfDay(now)
    case Weekly => StartOfDay(now - Weekday(now) * DAY)
    case CycleToDate => FirstDay(CycleOf(now)) * DAY
  }

  /** The weekly window starts on the Monday of this week. */
  lemma WeekStartsOnMonday(now: int)
    ensures var start := StartOfDay(now - Weekday(now) * DAY);
            start == DayOf(start) * DAY && Weekday(start) == 0 && 0 <= DayOf(now) - DayOf(start) < 7
  {
    var d := Weekday(now);
    DaysEarlier(now, d);
    StartOfDayIsDay(now - d * DAY);
    assert (DayOf(now) - d + 6) % 7 == 0;
  }

  lemma DaysEarlier(t: int, d: int)
    ensures DayOf(t - d * DAY) == DayOf(t) - d
  {
  }

  /** The cycle window starts on the first of this month, no later than today's midnight. */
  lemma CycleStartsThisMonth(now: int)
    requires DAY <= now
    ensures var start := WindowStart(CycleToDate, now);
            InMonth(CycleOf(now), start) && start <= StartOfDay(now)
  {
    var k := CycleOf(now);
    FirstDayMonotone(k, k + 1);
    MidnightBelow(FirstDay(k), now);
  }

  lemma MidnightBelow(day: int, t: int)
    requires day * DAY <= t
    ensures day * DAY <= StartOfDay(t)
  {
  }

  function WindowQuery(w: Window, now: int, game: Option<nat>): Query
    requires DAY <= now
  {
    Query(game, None, WindowStart(w, now), None, false)
  }

  /** Day 1, the first of January of year 1, is a Monday. */
  lemma Mondays(t: int)
    ensures Weekday(t) == 0 <==> DayOf(t) % 7 == 1
    ensures Weekday(t + DAY) == (Weekday(t) + 1) % 7
  {
  }

  /**
   * The plays each window selects: from today on, from this week's Monday on, or from this month on, of the given
   * game or of all, members or not.
   */
  lemma WindowSelects(w: Window, now: int, game: Option<nat>, a: Attempt)
    requires DAY <= now && DAY <= a.playedAt
    ensures Matches(WindowQuery(w, now, game), a) <==>
            && (game.Some? ==> a.game == game.value)
            && match w
               case Daily => DayOf(now) <= DayOf(a.playedAt)
               case Weekly => DayOf(now) - Weekday(now) <= DayOf(a.playedAt)
               case CycleToDate => CycleOf(now) <= CycleOf(a.playedAt)
  {
    match w
    case Daily => DayReached(DayOf(now), a.playedAt);
    case Weekly =>
      DaysEarlier(now, Weekday(now));
      StartOfDayIsDay(now - Weekday(now) * DAY);
      DayReached(DayOf(now) - Weekday(now), a.playedAt);
    case CycleToDate => MonthReached(CycleOf(now), a.playedAt);
  }

  lemma DayReached(day: int, t: int)
    ensures day * DAY <= t <==> day <= DayOf(t)
  {
  }

  lemma MonthReached(k: int, t: int)
    requires DAY <= t
    ensures FirstDay(k) * DAY <= t <==> k <= CycleOf(t)
  {
    var j := CycleOf(t);
    if k <= j {
      FirstDayMonotone(k, j);
    } else {
      FirstDayMonotone(j + 1, k);
    }
  }

  /** The list has a line for the player, with these points. */
  ghost predicate ShownWith(board: seq<Line>, player: nat, points: int) {
    exists i :: 0 <= i < |board| && board[i].player == player && board[i].points == points
  }

  /** Everyone with points is listed, with those points. */
  ghost predicate ListsEveryone(rows: seq<Attempt>, q: Query, board: seq<Line>) {
    forall p: nat :: Total(rows, Of(q, p)) > 0 ==> ShownWith(board, p, Total(rows, Of(q, p)))
  }

  /** There is a position exactly for a listed player, and it is the smallest rank among the lines tied with theirs. */
  ghost predicate PositionFits(board: seq<Line>, position: Option<nat>, player: nat) {
    && (position.None? <==> forall i :: 0 <= i < |board| ==> board[i].player != player)
    && (position.Some? ==>
          && 1 <= position.value <= |board|
          && ShownWith(board, player, board[position.value - 1].points)
          && (forall i :: 0 <= i < |board| && board[i].points == board[position.value - 1].points ==>
                position.value <= i + 1))
  }

  /** `leaderboard` and `leaderboard_position` on the same window and game tell one story. */
  method ShowLeaderboard(rows: seq<Attempt>, profiles: map<nat, Profile>, w: Window, now: int, game: Option<nat>,
                         player: nat)
    returns (board: seq<Line>, position: Option<nat>)
    requires DAY <= now
    ensures forall i :: 0 <= i < |board| ==> board[i].rank == i + 1
    ensures ListsEveryone(rows, WindowQuery(w, now, game), board)
    ensures PositionFits(board, position, player)
  {
    var q := WindowQuery(w, now, game);
    board := PrintRanking(rows, q, profiles, None);
    position := Position(rows, q, player);
    EveryoneOnBoard(rows, q, board);
    PositionOnBoard(rows, q, board, player);
  }

  lemma EveryoneOnBoard(rows: seq<Attempt>, q: Query, board: seq<Line>)
    requires q.player.None? && |board| == |Rank(rows, q)|
    requires forall i :: 0 <= i < |board| ==> Entry(board[i].player, board[i].points) == Rank(rows, q)[i]
    ensures ListsEveryone(rows, q, board)
  {
    RankIsRanking(rows, q);
    forall p: nat | Total(rows, Of(q, p)) > 0
      ensures ShownWith(board, p, Total(rows, Of(q, p)))
    {
      assert Entry(p, Total(rows, Of(q, p))) in Rank(rows, q);
      var i :| 0 <= i < |board| && Rank(rows, q)[i] == Entry(p, Total(rows, Of(q, p)));
      assert board[i].player == p;
    }
  }

  lemma PositionOnBoard(rows: seq<Attempt>, q: Query, board: seq<Line>, player: nat)
    requires q.player.None? && |board| == |Rank(rows, q)|
    requires forall i :: 0 <= i < |board| ==> Entry(board[i].player, board[i].points) == Rank(rows, q)[i]
    ensures PositionFits(board, Position(rows, q, player), player)
  {
    var pos, list, mine := Position(rows, q, player), Rank(rows, q), Total(rows, Of(q, player));
    PositionIsBestTiedRank(rows, q, player);
    RankIsRanking(rows, q);
    if pos.Some? {
      assert Entry(player, mine) in list;
      var i :| 0 <= i < |list| && list[i] == Entry(player, mine);
      assert board[pos.value - 1].points == list[pos.value - 1].points == mine;
      assert board[i].player == player && board[i].points == mine;
      assert forall k :: 0 <= k < pos.value - 1 ==> board[k].points == list[k].points;
    } else {
      forall i | 0 <= i < |board|
        ensures board[i].player != player
      {
        assert list[i] in list;
      }
    }
  }

  // ---- Streaks ----

  function PlayedDays(rows: seq<Attempt>, player: nat): set<int> {
    set i | 0 <= i < |rows| && rows[i].player == player :: DayOf(rows[i].playedAt)
  }

  ghost predicate PlayedOn(rows: seq<Attempt>, player: nat, day: int) {
    exists i :: 0 <= i < |rows| && rows[i].player == player && DayOf(rows[i].playedAt) == day
  }

  /** The streak is the longest run of played days that ends today. */
  method StreakDays(rows: seq<Attempt>, player: nat, now: int) returns (streak: nat)
    ensures forall d :: DayOf(now) - streak < d <= DayOf(now) ==> PlayedOn(rows, player, d)
    ensures !PlayedOn(rows, player, DayOf(now) - streak)
  {
    var playedDays := PlayedDays(rows, player);
    streak := 0;
    var day := DayOf(now);
    ghost var left := playedDays;
    while day in playedDays
      invariant day == DayOf(now) - streak
      invariant forall d :: day < d <= DayOf(now) ==> PlayedOn(rows, player, d)
      invariant forall d :: d in playedDays && d <= day ==> d in left
      decreases left
    {
      left := left - {day};
      streak := streak + 1;
      day := day - 1;
    }
  }
}

/** The attempt ledger: its rows and the SQL aggregates the services read from it. */
module Ledger {
  import opened Basics
  import opened Calendar

  type Json = string

  /** An attempt's `detail` object: its `finished` flag and everything else in it. */
  datatype Detail = Detail(finished: bool, body: Json)

  /**
   * One row of `game_attempt`; the position in the table stands for the ascending id.
   * A round is named by the day of its period key: (game_id, period_key) is unique.
   */
  datatype Attempt = Attempt(
    game: nat, round: int, player: nat, rawScore: real, points: int,
    detail: Detail, isMemberPlay: bool, surface: Option<string>, playedAt: int)

  /** The WHERE clause of a points aggregate. */
  datatype Query = Query(game: Option<nat>, player: Option<nat>, from: int, until: Option<int>, membersOnly: bool)

  predicate Matches(q: Query, a: Attempt) {
    && (q.game.Some? ==> a.game == q.game.value)
    && (q.player.Some? ==> a.player == q.player.value)
    && q.from <= a.playedAt
    && (q.until.Some? ==> a.playedAt < q.until.value)
    && (q.membersOnly ==> a.isMemberPlay)
  }

  function Worth(q: Query, a: Attempt): int {
    if Matches(q, a) then a.points else 0
  }

  /** `coalesce(sum(points), 0)` over the rows a query selects. */
  function Total(rows: seq<Attempt>, q: Query): int {
    if |rows| == 0 then 0
    else Total(rows[..|rows| - 1], q) + Worth(q, rows[|rows| - 1])
  }

  /** The rows of one player and game stamped on one UTC day. */
  function OnDay(game: nat, player: nat, day: int): Query {
    Query(Some(game), Some(player), day * DAY, Some((day + 1) * DAY), false)
  }

  predicate NonNegative(rows: seq<Attempt>) {
    forall i :: 0 <= i < |rows| ==> rows[i].points >= 0
  }

  predicate SameRound(a: Attempt, game: nat, round: int, player: nat) {
    a.game == game && a.round == round && a.player == player
  }

  lemma TotalAppend(rows: seq<Attempt>, a: Attempt, q: Query)
    ensures Total(rows + [a], q) == Total(rows, q) + Worth(q, a)
  {
    assert (rows + [a])[..|rows|] == rows;
  }

  lemma {:induction false} TotalUpdate(rows: seq<Attempt>, i: nat, a: Attempt, q: Query)
    requires i < |rows|
    ensures Total(rows[i := a], q) == Total(rows, q) - Worth(q, rows[i]) + Worth(q, a)
  {
    var n := |rows| - 1;
    if i == n {
      assert rows[i := a][..n] == rows[..n];
    } else {
      assert rows[i := a][..n] == rows[..n][i := a];
      TotalUpdate(rows[..n], i, a, q);
    }
  }

  /** A query that selects more rows sums to at least as much. */
  lemma {:induction false} TotalMonotone(rows: seq<Attempt>, narrow: Query, wide: Query)
    requires NonNegative(rows)
    requires forall i :: 0 <= i < |rows| && Matches(narrow, rows[i]) ==> Matches(wide, rows[i])
    ensures 0 <= Total(rows, narrow) <= Total(rows, wide)
  {
    if |rows| > 0 {
      TotalMonotone(rows[..|rows| - 1], narrow, wide);
    }
  }

  /** A window cut in two sums to the two parts. */
  lemma {:induction false} TotalSplit(rows: seq<Attempt>, q: Query, cut: int)
    requires q.until.Some? && q.from <= cut <= q.until.value
    ensures Total(rows, q) == Total(rows, q.(until := Some(cut))) + Total(rows, q.(from := cut))
  {
    if |rows| > 0 {
      TotalSplit(rows[..|rows| - 1], q, cut);
    }
  }
}

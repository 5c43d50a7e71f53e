/**
 * Ranked point totals: GROUP BY player, HAVING sum > 0, ORDER BY sum DESC, player ASC.
 * `standings` and `leaderboard` both read this list; `leaderboard_position` counts instead.
 */
module Ranking {
  import opened Basics
  import opened Ledger

  datatype Entry = Entry(player: nat, points: int)

  /** The order of the list: more points first, the smaller player id among equals. */
  predicate Above(a: Entry, b: Entry) {
    a.points > b.points || (a.points == b.points && a.player < b.player)
  }

  function Of(q: Query, player: nat): Query {
    q.(player := Some(player))
  }

  /** The players with a selected row, each once. */
  function Players(rows: seq<Attempt>, q: Query): (ps: seq<nat>)
    ensures forall i, j :: 0 <= i < j < |ps| ==> ps[i] != ps[j]
    ensures forall i :: 0 <= i < |rows| && Matches(q, rows[i]) ==> rows[i].player in ps
  {
    if |rows| == 0 then []
    else
      var ps := Players(rows[..|rows| - 1], q);
      var last := rows[|rows| - 1];
      if Matches(q, last) && last.player !in ps then ps + [last.player] else ps
  }

  function Insert(e: Entry, list: seq<Entry>): seq<Entry> {
    if |list| == 0 || Above(e, list[0]) then [e] + list else [list[0]] + Insert(e, list[1..])
  }

  function RankPlayers(ps: seq<nat>, rows: seq<Attempt>, q: Query): seq<Entry> {
    if |ps| == 0 then []
    else
      var p := ps[|ps| - 1];
      var ranked := RankPlayers(ps[..|ps| - 1], rows, q);
      var points := Total(rows, Of(q, p));
      if points > 0 then Insert(Entry(p, points), ranked) else ranked
  }

  function Rank(rows: seq<Attempt>, q: Query): seq<Entry> {
    RankPlayers(Players(rows, q), rows, q)
  }

  // ---- The ranking is the one sorted list of the positive totals ----

  ghost predicate Sorted(list: seq<Entry>) {
    forall i, j :: 0 <= i < j < |list| ==> Above(list[i], list[j])
  }

  ghost predicate IsRanking(rows: seq<Attempt>, q: Query, list: seq<Entry>) {
    && Sorted(list)
    && forall p: nat, n :: Entry(p, n) in list <==> n == Total(rows, Of(q, p)) && n > 0
  }

  lemma {:induction false} InsertSorts(e: Entry, list: seq<Entry>)
    requires Sorted(list) && forall x :: x in list ==> x.player != e.player
    ensures Sorted(Insert(e, list))
    ensures forall x :: x in Insert(e, list) <==> x == e || x in list
  {
    if |list| == 0 || Above(e, list[0]) {
      forall j | 0 <= j < |list|
        ensures Above(e, list[j])
      {
        assert j == 0 || Above(list[0], list[j]);
      }
    } else {
      var rest := Insert(e, list[1..]);
      InsertSorts(e, list[1..]);
      assert list == [list[0]] + list[1..];
      forall j | 0 <= j < |rest|
        ensures Above(list[0], rest[j])
      {
        assert rest[j] in rest;
        if rest[j] == e {
          assert list[0] in list;
        } else {
          var i :| 0 <= i < |list[1..]| && list[1..][i] == rest[j];
          assert list[i + 1] == rest[j];
        }
      }
    }
  }

  lemma {:induction false} RankPlayersSorts(ps: seq<nat>, rows: seq<Attempt>, q: Query)
    requires forall i, j :: 0 <= i < j < |ps| ==> ps[i] != ps[j]
    ensures Sorted(RankPlayers(ps, rows, q))
    ensures forall p: nat, n ::
              Entry(p, n) in RankPlayers(ps, rows, q) <==> p in ps && n == Total(rows, Of(q, p)) && n > 0
  {
    if |ps| > 0 {
      var k := |ps| - 1;
      RankPlayersSorts(ps[..k], rows, q);
      assert ps == ps[..k] + [ps[k]];
      var ranked := RankPlayers(ps[..k], rows, q);
      var points := Total(rows, Of(q, ps[k]));
      if points > 0 {
        forall x | x in ranked
          ensures x.player != ps[k]
        {
          assert Entry(x.player, x.points) in ranked;
        }
        InsertSorts(Entry(ps[k], points), ranked);
      }
    }
  }

  lemma {:induction false} AbsentHasNothing(rows: seq<Attempt>, q: Query, p: nat)
    requires q.player.None? && p !in Players(rows, q)
    ensures Total(rows, Of(q, p)) == 0
  {
    if |rows| > 0 {
      AbsentHasNothing(rows[..|rows| - 1], q, p);
    }
  }

  /** The list holds exactly the players with a positive total, in the stated order. */
  lemma RankIsRanking(rows: seq<Attempt>, q: Query)
    requires q.player.None?
    ensures IsRanking(rows, q, Rank(rows, q))
  {
    RankPlayersSorts(Players(rows, q), rows, q);
    forall p: nat, n
      ensures Entry(p, n) in Rank(rows, q) <==> n == Total(rows, Of(q, p)) && n > 0
    {
      if p !in Players(rows, q) {
        AbsentHasNothing(rows, q, p);
      }
    }
  }

  lemma SameElementsBothEmpty(a: seq<Entry>, b: seq<Entry>)
    requires forall x :: x in a <==> x in b
    ensures |a| == 0 <==> |b| == 0
  {
    if |b| > 0 {
      assert b[0] in a;
    }
    if |a| > 0 {
      assert a[0] in b;
    }
  }

  lemma {:induction false} SortedUnique(a: seq<Entry>, b: seq<Entry>)
    requires Sorted(a) && Sorted(b) && forall x :: x in a <==> x in b
    ensures a == b
  {
    SameElementsBothEmpty(a, b);
    if |a| > 0 {
      assert a[0] in b && b[0] in a;
      assert a[0] == b[0];
      assert a[0] !in a[1..] && b[0] !in b[1..];
      forall x
        ensures x in a[1..] <==> x in b[1..]
      {
        assert x in a <==> x == a[0] || x in a[1..] by { assert a == [a[0]] + a[1..]; }
        assert x in b <==> x == b[0] || x in b[1..] by { assert b == [b[0]] + b[1..]; }
      }
      SortedUnique(a[1..], b[1..]);
    }
  }

  /** Two ledgers that give every player the same total have the same ranking. */
  lemma SameTotalsSameRank(rows: seq<Attempt>, other: seq<Attempt>, q: Query)
    requires q.player.None?
    requires forall p: nat :: Total(rows, Of(q, p)) == Total(other, Of(q, p))
    ensures Rank(rows, q) == Rank(other, q)
  {
    RankIsRanking(rows, q);
    RankIsRanking(other, q);
    var a, b := Rank(rows, q), Rank(other, q);
    forall x
      ensures x in a <==> x in b
    {
      assert x == Entry(x.player, x.points);
    }
    SortedUnique(a, b);
  }

  // ---- Nothing is lost by grouping ----

  function SumPoints(list: seq<Entry>): int {
    if |list| == 0 then 0 else list[0].points + SumPoints(list[1..])
  }

  function SumOver(ps: seq<nat>, rows: seq<Attempt>, q: Query): int {
    if |ps| == 0 then 0
    else SumOver(ps[..|ps| - 1], rows, q) + Total(rows, Of(q, ps[|ps| - 1]))
  }

  lemma {:induction false} InsertAdds(e: Entry, list: seq<Entry>)
    ensures SumPoints(Insert(e, list)) == e.points + SumPoints(list)
  {
    if |list| == 0 || Above(e, list[0]) {
      assert ([e] + list)[1..] == list;
    } else {
      InsertAdds(e, list[1..]);
      assert ([list[0]] + Insert(e, list[1..]))[1..] == Insert(e, list[1..]);
    }
  }

  lemma {:induction false} RankPlayersSum(ps: seq<nat>, rows: seq<Attempt>, q: Query)
    requires NonNegative(rows)
    ensures SumPoints(RankPlayers(ps, rows, q)) == SumOver(ps, rows, q)
  {
    if |ps| > 0 {
      var k := |ps| - 1;
      RankPlayersSum(ps[..k], rows, q);
      TotalMonotone(rows, Of(q, ps[k]), Of(q, ps[k]));
      InsertAdds(Entry(ps[k], Total(rows, Of(q, ps[k]))), RankPlayers(ps[..k], rows, q));
    }
  }

  /** The last row counts once for each time its player is listed. */
  lemma {:induction false} SumOverLast(ps: seq<nat>, rows: seq<Attempt>, q: Query)
    requires |rows| > 0 && q.player.None? && forall i, j :: 0 <= i < j < |ps| ==> ps[i] != ps[j]
    ensures var last := rows[|rows| - 1];
            SumOver(ps, rows, q) == SumOver(ps, rows[..|rows| - 1], q) + if last.player in ps then Worth(q, last) else 0
  {
    if |ps| > 0 {
      var k := |ps| - 1;
      SumOverLast(ps[..k], rows, q);
      assert ps == ps[..k] + [ps[k]];
    }
  }

  lemma {:induction false} SumOverAll(ps: seq<nat>, rows: seq<Attempt>, q: Query)
    requires q.player.None? && forall i, j :: 0 <= i < j < |ps| ==> ps[i] != ps[j]
    requires forall i :: 0 <= i < |rows| && Matches(q, rows[i]) ==> rows[i].player in ps
    ensures SumOver(ps, rows, q) == Total(rows, q)
  {
    if |rows| == 0 {
      SumOverNone(ps, rows, q);
    } else {
      SumOverAll(ps, rows[..|rows| - 1], q);
      SumOverLast(ps, rows, q);
    }
  }

  lemma {:induction false} SumOverNone(ps: seq<nat>, rows: seq<Attempt>, q: Query)
    requires |rows| == 0
    ensures SumOver(ps, rows, q) == 0
  {
    if |ps| > 0 {
      SumOverNone(ps[..|ps| - 1], rows, q);
    }
  }

  /** The points on the ranked list are all the points the query selects. */
  lemma RankConservesPoints(rows: seq<Attempt>, q: Query)
    requires q.player.None? && NonNegative(rows)
    ensures SumPoints(Rank(rows, q)) == Total(rows, q)
  {
    RankPlayersSum(Players(rows, q), rows, q);
    SumOverAll(Players(rows, q), rows, q);
  }

  // ---- The position read by counting ----

  function CountHigher(ps: seq<nat>, rows: seq<Attempt>, q: Query, mine: int): nat {
    if |ps| == 0 then 0
    else CountHigher(ps[..|ps| - 1], rows, q, mine)
         + if Total(rows, Of(q, ps[|ps| - 1])) > mine then 1 else 0
  }

  /** `leaderboard_position`: one more than the number of players with strictly more points. */
  function Position(rows: seq<Attempt>, q: Query, player: nat): Option<nat> {
    var mine := Total(rows, Of(q, player));
    if mine <= 0 then None else Some(CountHigher(Players(rows, q), rows, q, mine) + 1)
  }

  function EntriesHigher(list: seq<Entry>, mine: int): nat {
    if |list| == 0 then 0 else EntriesHigher(list[1..], mine) + if list[0].points > mine then 1 else 0
  }

  lemma {:induction false} InsertCounts(e: Entry, list: seq<Entry>, mine: int)
    ensures EntriesHigher(Insert(e, list), mine) == EntriesHigher(list, mine) + if e.points > mine then 1 else 0
  {
    if |list| == 0 || Above(e, list[0]) {
      assert ([e] + list)[1..] == list;
    } else {
      InsertCounts(e, list[1..], mine);
      assert ([list[0]] + Insert(e, list[1..]))[1..] == Insert(e, list[1..]);
    }
  }

  lemma {:induction false} HigherAgree(ps: seq<nat>, rows: seq<Attempt>, q: Query, mine: int)
    requires mine > 0
    ensures EntriesHigher(RankPlayers(ps, rows, q), mine) == CountHigher(ps, rows, q, mine)
  {
    if |ps| > 0 {
      var k := |ps| - 1;
      HigherAgree(ps[..k], rows, q, mine);
      InsertCounts(Entry(ps[k], Total(rows, Of(q, ps[k]))), RankPlayers(ps[..k], rows, q), mine);
    }
  }

  lemma {:induction false} HigherIsPrefix(list: seq<Entry>, mine: int)
    requires Sorted(list)
    ensures EntriesHigher(list, mine) <= |list|
    ensures forall i :: 0 <= i < |list| ==> (list[i].points > mine <==> i < EntriesHigher(list, mine))
  {
    if |list| > 0 {
      HigherIsPrefix(list[1..], mine);
      assert list == [list[0]] + list[1..];
      assert forall i :: 1 <= i < |list| ==> list[i] == list[1..][i - 1] && list[0].points >= list[i].points;
    }
  }

  lemma FirstOfTied(list: seq<Entry>, i: nat, n: nat)
    requires Sorted(list) && i < |list|
    requires forall k :: 0 <= k < |list| ==> (list[k].points > list[i].points <==> k < n)
    ensures n <= i && list[n].points == list[i].points
  {
    assert !(list[i].points > list[i].points);
    if n < i {
      assert Above(list[n], list[i]) && !(list[n].points > list[i].points);
    }
  }

  /**
   * The two rankings agree: a player has a position exactly when the unlimited list shows them, and
   * the position is the smallest rank among the entries tied with theirs.
   */
  lemma PositionIsBestTiedRank(rows: seq<Attempt>, q: Query, player: nat)
    requires q.player.None?
    ensures var list, pos := Rank(rows, q), Position(rows, q, player);
            && (pos.Some? <==> exists e :: e in list && e.player == player)
            && (pos.Some? ==>
                  && 1 <= pos.value <= |list|
                  && list[pos.value - 1].points == Total(rows, Of(q, player))
                  && (forall i :: 0 <= i < pos.value - 1 ==> list[i].points > Total(rows, Of(q, player)))
                  && (forall i :: 0 <= i < |list| && list[i].player == player ==> pos.value <= i + 1))
  {
    var list, mine := Rank(rows, q), Total(rows, Of(q, player));
    RankIsRanking(rows, q);
    if mine > 0 {
      assert Entry(player, mine) in list;
      var i :| 0 <= i < |list| && list[i] == Entry(player, mine);
      HigherAgree(Players(rows, q), rows, q, mine);
      HigherIsPrefix(list, mine);
      FirstOfTied(list, i, EntriesHigher(list, mine));
      forall k | 0 <= k < |list| && list[k].player == player
        ensures list[k].points == mine
      {
        assert Entry(player, list[k].points) in list;
      }
    } else {
      forall e | e in list
        ensures e.player != player
      {
        assert e == Entry(e.player, e.points);
      }
    }
  }

  // ---- The list as the services print it ----

  datatype Profile = Profile(accountId: int, displayName: Option<string>)

  datatype Line = Line(rank: nat, player: nat, accountId: Option<int>, name: string, points: int)

  function AccountOf(profiles: map<nat, Profile>, player: nat): Option<int> {
    if player in profiles then Some(profiles[player].accountId) else None
  }

  function NameOf(profiles: map<nat, Profile>, player: nat): string {
    if player in profiles && profiles[player].displayName.Some? && profiles[player].displayName.value != ""
    then profiles[player].displayName.value
    else "Anonymous Duck"
  }

  /** A known player is shown by their account and display name, everyone without a name as an anonymous duck. */
  lemma ProfileShown(profiles: map<nat, Profile>, player: nat)
    ensures player in profiles ==> AccountOf(profiles, player) == Some(profiles[player].accountId)
    ensures player !in profiles ==> AccountOf(profiles, player) == None && NameOf(profiles, player) == "Anonymous Duck"
    ensures player in profiles ==>
              NameOf(profiles, player) == match profiles[player].displayName
                                          case Some(name) => (if name != "" then name else "Anonymous Duck")
                                          case None => "Anonymous Duck"
  {
  }

  /** Joins the ranked totals with the players table and numbers them from 1. */
  method PrintRanking(rows: seq<Attempt>, q: Query, profiles: map<nat, Profile>, limit: Option<nat>)
    returns (out: seq<Line>)
    requires q.player.None?
    ensures limit.None? ==> |out| == |Rank(rows, q)|
    ensures limit.Some? ==> |out| == Min(limit.value, |Rank(rows, q)|)
    ensures forall i :: 0 <= i < |out| ==>
              out[i].rank == i + 1 && Entry(out[i].player, out[i].points) == Rank(rows, q)[i]
    ensures forall i :: 0 <= i < |out| ==>
              out[i].accountId == AccountOf(profiles, out[i].player) && out[i].name == NameOf(profiles, out[i].player)
    ensures forall i, j :: 0 <= i < j < |out| ==>
              Above(Entry(out[i].player, out[i].points), Entry(out[j].player, out[j].points))
    ensures forall p: nat :: limit.None? && Total(rows, Of(q, p)) > 0 ==>
              exists i :: 0 <= i < |out| && out[i].player == p && out[i].points == Total(rows, Of(q, p))
  {
    var ranked := Rank(rows, q);
    RankIsRanking(rows, q);
    var taken := if limit.Some? && limit.value < |ranked| then ranked[..limit.value] else ranked;
    out := [];
    for i := 0 to |taken|
      invariant |out| == i
      invariant forall k :: 0 <= k < i ==>
                  out[k].rank == k + 1 && Entry(out[k].player, out[k].points) == taken[k]
      invariant forall k :: 0 <= k < i ==>
                  && out[k].accountId == AccountOf(profiles, out[k].player)
                  && out[k].name == NameOf(profiles, out[k].player)
    {
      var e := taken[i];
      out := out + [Line(i + 1, e.player, AccountOf(profiles, e.player), NameOf(profiles, e.player), e.points)];
    }
    forall p: nat | limit.None? && Total(rows, Of(q, p)) > 0
      ensures exists i :: 0 <= i < |out| && out[i].player == p && out[i].points == Total(rows, Of(q, p))
    {
      assert Entry(p, Total(rows, Of(q, p))) in ranked;
      var i :| 0 <= i < |ranked| && ranked[i] == Entry(p, Total(rows, Of(q, p)));
      assert out[i].player == p;
    }
  }
}

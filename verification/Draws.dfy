/** The monthly draw over the ledger (app/features/games/draws.py). */
module Draws {
  import opened Basics
  import opened Calendar
  import opened Ledger
  import opened GamesService
  import opened Ranking

  /** The member plays stamped on days from `from` up to, not including, `until`. */
  function Span(from: int, until: int): Query {
    Query(None, None, from * DAY, Some(until * DAY), true)
  }

  /** The member plays of month k (months are numbered as in Calendar). */
  function CycleQuery(k: int): Query {
    Span(FirstDay(k), FirstDay(k + 1))
  }

  function MonthNumberOf(key: string): int
    requires ParseKey(key).Some?
  {
    MonthNumber(ParseKey(key).value.0, ParseKey(key).value.1)
  }

  function EndOf(key: string): int
    requires ParseKey(key).Some?
  {
    MonthBounds(ParseKey(key).value.0, ParseKey(key).value.1).1
  }

  function KeyQuery(key: string): Query
    requires ParseKey(key).Some?
  {
    var (start, end) := MonthBounds(ParseKey(key).value.0, ParseKey(key).value.1);
    Query(None, None, start, Some(end), true)
  }

  /** The bounds read from a key are those of its month. */
  lemma KeyNamesItsMonth(key: string)
    requires ParseKey(key).Some?
    ensures KeyQuery(key) == CycleQuery(MonthNumberOf(key))
    ensures EndOf(key) == FirstDay(MonthNumberOf(key) + 1) * DAY
  {
    var (y, m) := ParseKey(key).value;
    MonthNumberInverse(y, m);
    MonthsAbut(MonthNumber(y, m));
  }

  /** The members-only `standings` of a period key. */
  function Standings(rows: seq<Attempt>, key: string): seq<Entry>
    requires ParseKey(key).Some?
  {
    Rank(rows, KeyQuery(key))
  }

  function Winner(ranked: seq<Entry>): Option<Entry> {
    if |ranked| == 0 then None else Some(ranked[0])
  }

  /** The winner has the most member points of the month, the smallest id among equals; with no points nobody wins. */
  lemma WinnerHasMost(rows: seq<Attempt>, key: string, p: nat)
    requires ParseKey(key).Some?
    ensures match Winner(Standings(rows, key))
            case None => Total(rows, Of(KeyQuery(key), p)) <= 0
            case Some(e) =>
              && e.points == Total(rows, Of(KeyQuery(key), e.player)) && e.points > 0
              && (p != e.player ==> Total(rows, Of(KeyQuery(key), p)) < e.points
                                    || (Total(rows, Of(KeyQuery(key), p)) == e.points && e.player < p))
  {
    var q := KeyQuery(key);
    RankIsTopped(rows, q, p);
  }

  lemma RankIsTopped(rows: seq<Attempt>, q: Query, p: nat)
    requires q.player.None?
    ensures var list, mine := Rank(rows, q), Total(rows, Of(q, p));
            && (|list| == 0 ==> mine <= 0)
            && (|list| > 0 ==>
                  && list[0].points == Total(rows, Of(q, list[0].player)) && list[0].points > 0
                  && (p != list[0].player ==> mine <= 0 || Above(list[0], Entry(p, mine))))
  {
    var list, mine := Rank(rows, q), Total(rows, Of(q, p));
    RankIsRanking(rows, q);
    if |list| > 0 {
      assert Entry(list[0].player, list[0].points) in list;
    }
    if mine > 0 {
      assert Entry(p, mine) in list;
      var i :| 0 <= i < |list| && list[i] == Entry(p, mine);
      assert i > 0 ==> Above(list[0], list[i]);
    }
  }

  /** A `draw_cycle` row: while open it has no winner. */
  datatype Cycle =
    | Open
    | Closed(closedAt: int, winner: Option<Entry>, snapshot: seq<Entry>)

  type Cycles = map<string, Cycle>

  datatype CloseError = BadKey | NotEnded

  function GetOrCreateOpen(cycles: Cycles, key: string): Cycles {
    if key in cycles then cycles else cycles[key := Open]
  }

  /**
   * `close_cycle`: the table after it, or the refusal, which leaves no trace. The clock is read for the check
   * (`now`) and again for `closed_at` (`at`).
   */
  function CloseCycle(cycles: Cycles, rows: seq<Attempt>, key: string, force: bool, now: int, at: int)
    : Result<Cycles, CloseError>
  {
    if key in cycles && cycles[key].Closed? then Ok(cycles)
    else if ParseKey(key).None? then Err(BadKey)
    else if !force && now < EndOf(key) then Err(NotEnded)
    else
      var ranked := Standings(rows, key);
      var closed := GetOrCreateOpen(cycles, key)[key := Closed(at, Winner(ranked), ranked[..Min(25, |ranked|)])];
      Ok(GetOrCreateOpen(closed, NextCycleKey(ParseKey(key).value.0, ParseKey(key).value.1)))
  }

  /** The draw_cycle table, updated in place. */
  class DrawTable {
    var cycles: Cycles

    constructor ()
      ensures cycles == map[]
    {
      cycles := map[];
    }

    method OpenCycle(key: string)
      modifies this
      ensures cycles == GetOrCreateOpen(old(cycles), key)
    {
      if key !in cycles {
        cycles := cycles[key := Open];
      }
    }

    method Close(rows: seq<Attempt>, key: string, force: bool, now: int, at: int) returns (r: Result<Cycle, CloseError>)
      modifies this
      ensures match CloseCycle(old(cycles), rows, key, force, now, at)
              case Ok(after) => cycles == after && key in cycles && r == Ok(cycles[key]) && cycles[key].Closed?
              case Err(e) => cycles == old(cycles) && r == Err(e)
    {
      if key in cycles && cycles[key].Closed? {
        return Ok(cycles[key]);
      }
      var parsed := ParseKey(key);
      if parsed.None? {
        return Err(BadKey);
      }
      var (year, month) := parsed.value;
      var (start, end) := MonthBounds(year, month);
      if !force && now < end {
        return Err(NotEnded);
      }
      OpenCycle(key);
      var ranked := Standings(rows, key);
      var closed := Closed(at, Winner(ranked), ranked[..Min(25, |ranked|)]);
      cycles := cycles[key := closed];
      OpenCycle(NextCycleKey(year, month));
      r := Ok(closed);
    }
  }

  // ---- Runs of atomic submits and closes under a clock that never goes back ----

  datatype World = World(rows: seq<Attempt>, cycles: Cycles, clock: int)

  datatype Event =
    | Play(s: Submit)
    | Close(key: string, force: bool, now: int, at: int)
    | Look(key: string)

  /** Each event happens no earlier than the one before it, and a submit ends before the next event. */
  predicate Timely(w: World, ev: Event) {
    match ev
    case Play(s) => w.clock <= s.now <= s.stamp
    case Close(_, _, now, at) => w.clock <= now <= at
    case Look(_) => true
  }

  function Evolve(engines: map<nat, Engine>, w: World, ev: Event): World {
    match ev
    case Play(s) => World(Apply(engines, w.rows, s), w.cycles, Max(w.clock, s.stamp))
    case Close(key, force, now, at) =>
      var r := CloseCycle(w.cycles, w.rows, key, force, now, at);
      World(w.rows, if r.Ok? then r.value else w.cycles, at)
    case Look(key) => w.(cycles := GetOrCreateOpen(w.cycles, key))
  }

  function RunDraw(engines: map<nat, Engine>, w: World, run: seq<Event>): World {
    if |run| == 0 then w else Evolve(engines, RunDraw(engines, w, run[..|run| - 1]), run[|run| - 1])
  }

  ghost predicate TimelyRun(engines: map<nat, Engine>, w: World, run: seq<Event>) {
    forall i :: 0 <= i < |run| ==> Timely(RunDraw(engines, w, run[..i]), run[i])
  }

  /** The cycle was closed when its month was over. */
  predicate ClosedAfterEnd(cycles: Cycles, key: string) {
    key in cycles && ParseKey(key).Some? && cycles[key].Closed? && EndOf(key) <= cycles[key].closedAt
  }

  /** The stored winner and snapshot are what the ledger says now. */
  ghost predicate Stands(w: World, key: string)
    requires ClosedAfterEnd(w.cycles, key)
  {
    var ranked := Standings(w.rows, key);
    && w.cycles[key].closedAt <= w.clock
    && w.cycles[key].winner == Winner(ranked)
    && w.cycles[key].snapshot == ranked[..Min(25, |ranked|)]
  }

  ghost predicate WinnersStand(w: World) {
    forall key :: ClosedAfterEnd(w.cycles, key) ==> Stands(w, key)
  }

  /** A submit that starts after a month is over changes no total of that month. */
  lemma LaterSubmitKeepsMonth(engines: map<nat, Engine>, rows: seq<Attempt>, s: Submit, q: Query, day: int)
    requires Stamped(rows) && q.until == Some(day * DAY) && day * DAY <= s.now <= s.stamp
    ensures Total(Apply(engines, rows, s), q) == Total(rows, q)
  {
    if SubmitAttempt(engines, rows, s).Ok? {
      var r := SubmitAttempt(engines, rows, s).value;
      if r.1 < |rows| {
        TotalUpdate(rows, r.1, r.0[r.1], q);
        assert rows[r.1].round == RoundOf(s) >= day;
        assert rows[r.1].playedAt >= day * DAY;
      } else {
        TotalAppend(rows, r.0[r.1], q);
      }
    }
  }

  lemma LaterSubmitKeepsRank(engines: map<nat, Engine>, rows: seq<Attempt>, s: Submit, q: Query, day: int)
    requires Stamped(rows) && q.player.None? && q.until == Some(day * DAY) && day * DAY <= s.now <= s.stamp
    ensures Rank(Apply(engines, rows, s), q) == Rank(rows, q)
  {
    var after := Apply(engines, rows, s);
    forall p: nat
      ensures Total(after, Of(q, p)) == Total(rows, Of(q, p))
    {
      LaterSubmitKeepsMonth(engines, rows, s, Of(q, p), day);
    }
    SameTotalsSameRank(after, rows, q);
  }

  lemma SubmitKeepsStamped(engines: map<nat, Engine>, rows: seq<Attempt>, s: Submit)
    requires Stamped(rows) && s.now <= s.stamp
    ensures Stamped(Apply(engines, rows, s))
  {
  }

  /** A close writes its own cycle and at most adds the next one, open. */
  lemma CloseTouchesOneCycle(cycles: Cycles, rows: seq<Attempt>, key: string, force: bool, now: int, at: int)
    requires CloseCycle(cycles, rows, key, force, now, at).Ok?
    ensures var after := CloseCycle(cycles, rows, key, force, now, at).value;
            && (forall k :: k in cycles ==> k in after)
            && (forall k :: k in after && k != key ==> after[k] == if k in cycles then cycles[k] else Open)
            && key in after && after[key].Closed?
            && after[key] == if key in cycles && cycles[key].Closed? then cycles[key]
                             else var ranked := Standings(rows, key);
                                  Closed(at, Winner(ranked), ranked[..Min(25, |ranked|)])
  {
  }

  /** A close of a cycle not closed before succeeds exactly with an accepted key, forced or after the month's end. */
  lemma CloseSucceeds(cycles: Cycles, rows: seq<Attempt>, key: string, force: bool, now: int, at: int)
    requires !(key in cycles && cycles[key].Closed?)
    ensures var r := CloseCycle(cycles, rows, key, force, now, at);
            && (r == Err(BadKey) <==> ParseKey(key).None?)
            && (ParseKey(key).Some? ==> (r.Ok? <==> force || EndOf(key) <= now) && (r.Err? <==> r == Err(NotEnded)))
  {
  }

  /**
   * Then it leaves the old cycles, its own and the next, which is the printed key of the month whose bounds begin
   * where its own end: open if it was missing, and as it was if it was there.
   */
  lemma CloseOpensNextMonth(cycles: Cycles, rows: seq<Attempt>, key: string, force: bool, now: int, at: int)
    returns (y: nat, m: nat)
    requires !(key in cycles && cycles[key].Closed?) && CloseCycle(cycles, rows, key, force, now, at).Ok?
    ensures 1 <= m <= 12 && ParseKey(key).Some? && MonthBounds(y, m).0 == EndOf(key)
    ensures var after, next := CloseCycle(cycles, rows, key, force, now, at).value, FormatKey(y, m);
            && next != key && after.Keys == cycles.Keys + {key, next}
            && after[next] == (if next in cycles then cycles[next] else Open)
            && after[key] == (var ranked := Rank(rows, KeyQuery(key));
                              Closed(at, Winner(ranked), ranked[..Min(25, |ranked|)]))
            && forall k :: k in cycles && k != key ==> after[k] == cycles[k]
  {
    var (year, month) := ParseKey(key).value;
    CloseWrites(cycles, rows, key, force, now, at, NextCycleKey(year, month));
    y, m := NextKeyOf(key);
  }

  lemma NextKeyOf(key: string) returns (y: nat, m: nat)
    requires ParseKey(key).Some?
    ensures 1 <= m <= 12 && MonthBounds(y, m).0 == EndOf(key)
    ensures FormatKey(y, m) == NextCycleKey(ParseKey(key).value.0, ParseKey(key).value.1) && FormatKey(y, m) != key
  {
    var (year, month) := ParseKey(key).value;
    var n := MonthAfter(year, month);
    y, m := n.0, n.1;
    ParseFormatKey(y, m);
    NextMonthStartsAtEnd(year, month);
  }

  lemma CloseWrites(cycles: Cycles, rows: seq<Attempt>, key: string, force: bool, now: int, at: int, next: string)
    requires !(key in cycles && cycles[key].Closed?) && CloseCycle(cycles, rows, key, force, now, at).Ok?
    requires ParseKey(key).Some? && next == NextCycleKey(ParseKey(key).value.0, ParseKey(key).value.1)
    ensures var after, ranked := CloseCycle(cycles, rows, key, force, now, at).value, Rank(rows, KeyQuery(key));
            && after.Keys == cycles.Keys + {key, next}
            && after[key] == Closed(at, Winner(ranked), ranked[..Min(25, |ranked|)])
            && (next != key ==> after[next] == if next in cycles then cycles[next] else Open)
            && forall k :: k in cycles && k != key ==> after[k] == cycles[k]
  {
  }

  lemma NextMonthStartsAtEnd(y: nat, m: nat)
    requires 1 <= m <= 12
    ensures var n := MonthAfter(y, m); MonthBounds(n.0, n.1).0 == MonthBounds(y, m).1
  {
  }

  lemma SubmitKeepsWinners(engines: map<nat, Engine>, w: World, s: Submit)
    requires Stamped(w.rows) && WinnersStand(w) && w.clock <= s.now <= s.stamp
    ensures WinnersStand(Evolve(engines, w, Event.Play(s)))
  {
    var after := Evolve(engines, w, Event.Play(s));
    forall key | ClosedAfterEnd(after.cycles, key)
      ensures Stands(after, key)
    {
      assert Stands(w, key);
      KeyNamesItsMonth(key);
      LaterSubmitKeepsRank(engines, w.rows, s, KeyQuery(key), FirstDay(MonthNumberOf(key) + 1));
    }
  }

  lemma CloseKeepsWinners(engines: map<nat, Engine>, w: World, key: string, force: bool, now: int, at: int)
    requires WinnersStand(w) && w.clock <= now <= at
    ensures WinnersStand(Evolve(engines, w, Close(key, force, now, at)))
  {
    var after := Evolve(engines, w, Close(key, force, now, at));
    if CloseCycle(w.cycles, w.rows, key, force, now, at).Ok? {
      CloseTouchesOneCycle(w.cycles, w.rows, key, force, now, at);
    }
    forall k | ClosedAfterEnd(after.cycles, k)
      ensures Stands(after, k)
    {
      if ClosedAfterEnd(w.cycles, k) {
        assert Stands(w, k);
      }
    }
  }

  lemma EventKeepsWinners(engines: map<nat, Engine>, w: World, ev: Event)
    requires Stamped(w.rows) && WinnersStand(w) && Timely(w, ev)
    ensures Stamped(Evolve(engines, w, ev).rows) && WinnersStand(Evolve(engines, w, ev))
  {
    match ev
    case Play(s) =>
      SubmitKeepsStamped(engines, w.rows, s);
      SubmitKeepsWinners(engines, w, s);
    case Close(key, force, now, at) => CloseKeepsWinners(engines, w, key, force, now, at);
    case Look(key) =>
      var after := Evolve(engines, w, ev);
      forall k | ClosedAfterEnd(after.cycles, k)
        ensures Stands(after, k)
      {
        assert Stands(w, k);
      }
  }

  /**
   * The winner of a cycle closed after its month ended is final: at every later point of every run,
   * the stored winner and snapshot equal the top of the standings recomputed then.
   */
  lemma {:induction false} WinnerIsFinal(engines: map<nat, Engine>, w: World, run: seq<Event>)
    requires Stamped(w.rows) && WinnersStand(w) && TimelyRun(engines, w, run)
    ensures Stamped(RunDraw(engines, w, run).rows) && WinnersStand(RunDraw(engines, w, run))
  {
    if |run| > 0 {
      var before := run[..|run| - 1];
      assert forall i :: 0 <= i < |before| ==> run[..i] == before[..i];
      WinnerIsFinal(engines, w, before);
      EventKeepsWinners(engines, RunDraw(engines, w, before), run[|run| - 1]);
    }
  }

  /** Without `force`, a close that succeeds is a close after the end, so its winner is final. */
  lemma UnforcedCloseIsAfterEnd(cycles: Cycles, rows: seq<Attempt>, key: string, now: int, at: int)
    requires now <= at && !(key in cycles && cycles[key].Closed?)
    requires CloseCycle(cycles, rows, key, false, now, at).Ok?
    ensures ClosedAfterEnd(CloseCycle(cycles, rows, key, false, now, at).value, key)
  {
    CloseTouchesOneCycle(cycles, rows, key, false, now, at);
  }

  /** Closed is absorbing: no event of any run changes a closed cycle, and closing it again returns it as it is. */
  lemma {:induction false} ClosedIsAbsorbing(engines: map<nat, Engine>, w: World, run: seq<Event>, key: string)
    requires key in w.cycles && w.cycles[key].Closed?
    ensures var after := RunDraw(engines, w, run);
            && key in after.cycles && after.cycles[key] == w.cycles[key]
            && forall force, now, at :: CloseCycle(after.cycles, after.rows, key, force, now, at) == Ok(after.cycles)
  {
    if |run| > 0 {
      var n := |run| - 1;
      ClosedIsAbsorbing(engines, w, run[..n], key);
      EvolveKeepsClosed(engines, RunDraw(engines, w, run[..n]), run[n], key);
    }
  }

  lemma EvolveKeepsClosed(engines: map<nat, Engine>, w: World, ev: Event, key: string)
    requires key in w.cycles && w.cycles[key].Closed?
    ensures var after := Evolve(engines, w, ev); key in after.cycles && after.cycles[key] == w.cycles[key]
  {
    if ev.Close? && CloseCycle(w.cycles, w.rows, ev.key, ev.force, ev.now, ev.at).Ok? {
      CloseTouchesOneCycle(w.cycles, w.rows, ev.key, ev.force, ev.now, ev.at);
    }
  }

  // ---- Conservation and bounds over months ----

  function SumCycles(rows: seq<Attempt>, lo: int, hi: int): int
    requires lo <= hi
    decreases hi - lo
  {
    if lo == hi then 0 else SumCycles(rows, lo, hi - 1) + SumPoints(Rank(rows, CycleQuery(hi - 1)))
  }

  function MembersBetween(lo: int, hi: int): Query {
    Span(FirstDay(lo), FirstDay(hi))
  }

  /** The standings of consecutive cycles together hold exactly the member points of those months. */
  lemma {:induction false} StandingsConserveMonths(rows: seq<Attempt>, lo: int, hi: int)
    requires lo <= hi && NonNegative(rows)
    ensures SumCycles(rows, lo, hi) == Total(rows, MembersBetween(lo, hi))
    decreases hi - lo
  {
    if lo == hi {
      NothingSelected(rows, MembersBetween(lo, hi));
    } else {
      StandingsConserveMonths(rows, lo, hi - 1);
      OneMoreCycle(rows, lo, hi - 1);
    }
  }

  lemma OneMoreCycle(rows: seq<Attempt>, lo: int, k: int)
    requires lo <= k && NonNegative(rows)
    ensures Total(rows, MembersBetween(lo, k + 1))
            == Total(rows, MembersBetween(lo, k)) + SumPoints(Rank(rows, CycleQuery(k)))
  {
    RankConservesPoints(rows, CycleQuery(k));
    FirstDayMonotone(lo, k);
    FirstDayMonotone(k, k + 1);
    SpanSplit(rows, FirstDay(lo), FirstDay(k), FirstDay(k + 1));
  }

  lemma SpanSplit(rows: seq<Attempt>, from: int, cut: int, until: int)
    requires from <= cut <= until
    ensures Total(rows, Span(from, until)) == Total(rows, Span(from, cut)) + Total(rows, Span(cut, until))
  {
    TotalSplit(rows, Span(from, until), cut * DAY);
  }

  lemma {:induction false} NothingSelected(rows: seq<Attempt>, q: Query)
    requires q.until == Some(q.from)
    ensures Total(rows, q) == 0
  {
    if |rows| > 0 {
      NothingSelected(rows[..|rows| - 1], q);
    }
  }

  const ALL_MEMBERS: Query := Query(None, None, DAY, None, true)

  /** Every member point is in the standings of exactly one cycle: over all cycles nothing is lost or doubled. */
  lemma StandingsConserveAll(rows: seq<Attempt>, lo: int, hi: int)
    requires NonNegative(rows)
    requires forall i :: 0 <= i < |rows| ==> DAY <= rows[i].playedAt && lo <= CycleOf(rows[i].playedAt) < hi
    requires lo <= hi
    ensures SumCycles(rows, lo, hi) == Total(rows, ALL_MEMBERS)
  {
    StandingsConserveMonths(rows, lo, hi);
    forall i | 0 <= i < |rows|
      ensures Worth(MembersBetween(lo, hi), rows[i]) == Worth(ALL_MEMBERS, rows[i])
    {
      InsideSpan(rows[i], lo, hi);
    }
    SameWorth(rows, MembersBetween(lo, hi), ALL_MEMBERS);
  }

  lemma InsideSpan(a: Attempt, lo: int, hi: int)
    requires DAY <= a.playedAt && lo <= CycleOf(a.playedAt) < hi
    ensures Worth(MembersBetween(lo, hi), a) == Worth(ALL_MEMBERS, a)
  {
    var k := CycleOf(a.playedAt);
    FirstDayMonotone(lo, k);
    FirstDayMonotone(k + 1, hi);
    InsideDays(a, FirstDay(lo), FirstDay(k), FirstDay(k + 1), FirstDay(hi));
  }

  lemma InsideDays(a: Attempt, from: int, first: int, next: int, until: int)
    requires DAY <= a.playedAt && first * DAY <= a.playedAt < next * DAY && from <= first && next <= until
    ensures Worth(Span(from, until), a) == Worth(ALL_MEMBERS, a)
  {
  }

  lemma {:induction false} SameWorth(rows: seq<Attempt>, q: Query, r: Query)
    requires forall i :: 0 <= i < |rows| ==> Worth(q, rows[i]) == Worth(r, rows[i])
    ensures Total(rows, q) == Total(rows, r)
  {
    if |rows| > 0 {
      SameWorth(rows[..|rows| - 1], q, r);
    }
  }

  function OneGame(g: nat, player: nat, from: int, until: int): Query {
    Query(Some(g), Some(player), from * DAY, Some(until * DAY), false)
  }

  /** A span of days is worth at most the cap for each day. */
  lemma {:induction false} DaysBound(engines: map<nat, Engine>, rows: seq<Attempt>, g: nat, player: nat,
                                     from: int, until: int)
    requires LedgerInv(engines, rows) && g in engines && from <= until
    ensures Total(rows, OneGame(g, player, from, until)) <= DailyCap(engines[g]) * (until - from)
    decreases until - from
  {
    if from == until {
      NothingSelected(rows, OneGame(g, player, from, until));
    } else {
      DaysBound(engines, rows, g, player, from, until - 1);
      TotalSplit(rows, OneGame(g, player, from, until), (until - 1) * DAY);
      assert OneGame(g, player, from, until).(from := (until - 1) * DAY) == OnDay(g, player, until - 1);
    }
  }

  function SumGames(games: seq<nat>, rows: seq<Attempt>, q: Query): int {
    if |games| == 0 then 0
    else SumGames(games[..|games| - 1], rows, q) + Total(rows, q.(game := Some(games[|games| - 1])))
  }

  function SumCaps(games: seq<nat>, engines: map<nat, Engine>): nat
    requires forall g :: g in games ==> g in engines
  {
    if |games| == 0 then 0 else SumCaps(games[..|games| - 1], engines) + DailyCap(engines[games[|games| - 1]])
  }

  lemma {:induction false} SumGamesLast(games: seq<nat>, rows: seq<Attempt>, q: Query)
    requires |rows| > 0 && q.game.None? && NonNegative(rows)
    ensures var last := rows[|rows| - 1];
            SumGames(games, rows, q)
            >= SumGames(games, rows[..|rows| - 1], q) + if last.game in games then Worth(q, last) else 0
  {
    if |games| > 0 {
      var n := |games| - 1;
      SumGamesLast(games[..n], rows, q);
      assert games == games[..n] + [games[n]];
    }
  }

  lemma {:induction false} SplitByGame(games: seq<nat>, rows: seq<Attempt>, q: Query)
    requires q.game.None? && NonNegative(rows) && forall i :: 0 <= i < |rows| ==> rows[i].game in games
    ensures Total(rows, q) <= SumGames(games, rows, q)
  {
    if |rows| > 0 {
      SplitByGame(games, rows[..|rows| - 1], q);
      SumGamesLast(games, rows, q);
    } else {
      SumGamesNone(games, rows, q);
    }
  }

  lemma {:induction false} SumGamesNone(games: seq<nat>, rows: seq<Attempt>, q: Query)
    requires |rows| == 0
    ensures SumGames(games, rows, q) == 0
  {
    if |games| > 0 {
      SumGamesNone(games[..|games| - 1], rows, q);
    }
  }

  lemma {:induction false} SumGamesBound(engines: map<nat, Engine>, games: seq<nat>, rows: seq<Attempt>, player: nat,
                                         from: int, until: int)
    requires LedgerInv(engines, rows) && from <= until && forall g :: g in games ==> g in engines
    ensures SumGames(games, rows, Of(Span(from, until), player)) <= SumCaps(games, engines) * (until - from)
  {
    if |games| > 0 {
      var n := |games| - 1;
      SumGamesBound(engines, games[..n], rows, player, from, until);
      DaysBound(engines, rows, games[n], player, from, until);
      var inGame := Of(Span(from, until), player).(game := Some(games[n]));
      TotalMonotone(rows, inGame, OneGame(games[n], player, from, until));
      Distribute(SumCaps(games[..n], engines), DailyCap(engines[games[n]]), until - from);
    }
  }

  lemma Distribute(a: int, b: int, n: int)
    ensures (a + b) * n == a * n + b * n
  {
  }

  /** A player's total in one cycle is at most, per game, the daily cap times the days of that month. */
  lemma CycleTotalBound(engines: map<nat, Engine>, games: seq<nat>, rows: seq<Attempt>, player: nat, k: int)
    requires LedgerInv(engines, rows)
    requires forall g :: g in games ==> g in engines
    requires forall i :: 0 <= i < |rows| ==> rows[i].game in games
    ensures Total(rows, Of(CycleQuery(k), player))
            <= SumCaps(games, engines) * DaysInMonth(YearOf(k), MonthOf(k))
  {
    MonthsAbut(k);
    SplitByGame(games, rows, Of(CycleQuery(k), player));
    SumGamesBound(engines, games, rows, player, FirstDay(k), FirstDay(k + 1));
  }
}

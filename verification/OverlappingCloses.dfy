/**
 * Closes of one cycle interleaved statement by statement (app/features/games/draws.py, `close_cycle`): nothing is
 * locked between reading the status and writing it, and the last write stays.
 */
module OverlappingCloses {
  import opened Basics
  import opened Calendar
  import opened Ledger
  import opened GamesService
  import opened Ranking
  import opened Draws
  import LateSubmits

  /** A close that passed its checks, and one that has rolled up the standings. */
  datatype Phase = Checked(force: bool) | Rolled(force: bool, ranked: seq<Entry>)

  /** `settled` says that some unforced close has been written. */
  datatype Sys = Sys(rows: seq<Attempt>, cycle: Cycle, closers: map<nat, Phase>, clock: int, settled: bool)

  datatype Event =
    | Check(tid: nat, force: bool, now: int)
    | RollUp(tid: nat)
    | Write(tid: nat, at: int)
    | Abandon(tid: nat)
    | Submitted(s: Submit)

  /** Whether closes may be forced, and how many may be in flight at once. */
  datatype Rules = Rules(force: bool, most: nat)

  /** A closed cycle is returned as it is, and an unfinished month is refused: neither leaves a close in flight. */
  function DoCheck(key: string, rules: Rules, st: Sys, tid: nat, force: bool, now: int): Option<Sys>
    requires ParseKey(key).Some?
  {
    if tid in st.closers || |st.closers| >= rules.most || (force && !rules.force) || now < st.clock then None
    else if st.cycle.Closed? || (!force && now < EndOf(key)) then Some(st.(clock := now))
    else Some(st.(closers := st.closers[tid := Checked(force)], clock := now))
  }

  function DoRollUp(key: string, st: Sys, tid: nat): Option<Sys>
    requires ParseKey(key).Some?
  {
    if tid !in st.closers || !st.closers[tid].Checked? then None
    else Some(st.(closers := st.closers[tid := Rolled(st.closers[tid].force, Standings(st.rows, key))]))
  }

  function DoWrite(st: Sys, tid: nat, at: int): Option<Sys> {
    if tid !in st.closers || !st.closers[tid].Rolled? || at < st.clock then None
    else
      var Rolled(force, ranked) := st.closers[tid];
      Some(st.(cycle := Closed(at, Winner(ranked), ranked[..Min(25, |ranked|)]),
               closers := st.closers - {tid}, clock := at, settled := st.settled || !force))
  }

  /** One statement under a clock that never goes back; a submit is atomic. None: this cannot happen now. */
  function Step(engines: map<nat, Engine>, key: string, rules: Rules, st: Sys, ev: Event): Option<Sys>
    requires ParseKey(key).Some?
  {
    match ev
    case Check(tid, force, now) => DoCheck(key, rules, st, tid, force, now)
    case RollUp(tid) => DoRollUp(key, st, tid)
    case Write(tid, at) => DoWrite(st, tid, at)
    case Abandon(tid) => if tid !in st.closers then None else Some(st.(closers := st.closers - {tid}))
    case Submitted(s) =>
      if s.now < st.clock || s.stamp < s.now then None
      else Some(st.(rows := Apply(engines, st.rows, s), clock := s.stamp))
  }

  function Start(clock: int): Sys {
    Sys([], Open, map[], clock, false)
  }

  function Exec(engines: map<nat, Engine>, key: string, rules: Rules, clock: int, events: seq<Event>): Option<Sys>
    requires ParseKey(key).Some?
  {
    if |events| == 0 then Some(Start(clock))
    else
      var before := Exec(engines, key, rules, clock, events[..|events| - 1]);
      if before.None? then None else Step(engines, key, rules, before.value, events[|events| - 1])
  }

  // ---- Alone, a close is the atomic one ----

  /** The cycle after one close with no other statement in between. */
  function CloseAlone(engines: map<nat, Engine>, key: string, rules: Rules, st: Sys, tid: nat, force: bool, now: int,
                      at: int): Option<Cycle>
    requires ParseKey(key).Some?
  {
    var checked := Step(engines, key, rules, st, Check(tid, force, now));
    if checked.None? then None
    else if tid !in checked.value.closers then Some(checked.value.cycle)
    else
      var rolled := Step(engines, key, rules, checked.value, RollUp(tid));
      if rolled.None? then None
      else
        var written := Step(engines, key, rules, rolled.value, Write(tid, at));
        if written.None? then None else Some(written.value.cycle)
  }

  /** A close that no other overlaps leaves the cycle that the atomic close leaves, accepted or refused. */
  lemma AloneIsCloseCycle(engines: map<nat, Engine>, key: string, rules: Rules, st: Sys, tid: nat, force: bool,
                          now: int, at: int)
    requires ParseKey(key).Some? && tid !in st.closers && |st.closers| < rules.most && (force ==> rules.force)
    requires st.clock <= now <= at
    ensures var r := CloseCycle(map[key := st.cycle], st.rows, key, force, now, at);
            CloseAlone(engines, key, rules, st, tid, force, now, at)
            == Some(if r.Ok? && key in r.value then r.value[key] else st.cycle)
  {
    if CloseCycle(map[key := st.cycle], st.rows, key, force, now, at).Ok? {
      CloseTouchesOneCycle(map[key := st.cycle], st.rows, key, force, now, at);
    }
  }

  // ---- The invariant ----

  /** The stored winner and snapshot are what the ledger says now. */
  ghost predicate WinnerStands(st: Sys, key: string)
    requires ParseKey(key).Some?
  {
    var ranked := Standings(st.rows, key);
    st.cycle.Closed? && st.cycle.winner == Winner(ranked) && st.cycle.snapshot == ranked[..Min(25, |ranked|)]
  }

  /** An unforced close runs after the month's end, so its roll-up stays current. */
  predicate UnforcedCurrent(st: Sys, key: string, ph: Phase)
    requires ParseKey(key).Some?
  {
    !ph.force ==> EndOf(key) <= st.clock && (ph.Rolled? ==> ph.ranked == Standings(st.rows, key))
  }

  ghost predicate Inv(key: string, rules: Rules, st: Sys)
    requires ParseKey(key).Some?
  {
    && Stamped(st.rows) && |st.closers| <= rules.most
    && (forall tid :: tid in st.closers ==> UnforcedCurrent(st, key, st.closers[tid]))
    && (rules.most <= 1 && st.cycle.Closed? ==> st.closers == map[])
    && (!rules.force ==> forall tid :: tid in st.closers ==> !st.closers[tid].force)
    && (st.settled && (!rules.force || rules.most <= 1) ==> EndOf(key) <= st.clock && WinnerStands(st, key))
    && (st.settled ==> st.cycle.Closed?)
  }

  /** Once the month is over, an atomic submit changes none of its standings. */
  lemma PlayKeepsStandings(engines: map<nat, Engine>, key: string, rows: seq<Attempt>, s: Submit)
    requires ParseKey(key).Some? && Stamped(rows) && EndOf(key) <= s.now <= s.stamp
    ensures Standings(Apply(engines, rows, s), key) == Standings(rows, key)
  {
    KeyNamesItsMonth(key);
    LaterSubmitKeepsRank(engines, rows, s, KeyQuery(key), FirstDay(MonthNumberOf(key) + 1));
  }

  lemma PlayKeepsInv(engines: map<nat, Engine>, key: string, rules: Rules, st: Sys, s: Submit)
    requires ParseKey(key).Some? && Inv(key, rules, st) && Step(engines, key, rules, st, Submitted(s)).Some?
    ensures Inv(key, rules, Step(engines, key, rules, st, Submitted(s)).value)
  {
    SubmitKeepsStamped(engines, st.rows, s);
    if EndOf(key) <= st.clock {
      PlayKeepsStandings(engines, key, st.rows, s);
    }
  }

  lemma CloserCount(closers: map<nat, Phase>, tid: nat)
    ensures tid in closers ==> |closers - {tid}| == |closers| - 1
    ensures |closers| <= 1 && tid in closers ==> closers - {tid} == map[]
  {
    if tid in closers {
      assert closers == (closers - {tid})[tid := closers[tid]];
    }
  }

  lemma WriteKeepsInv(key: string, rules: Rules, st: Sys, tid: nat, at: int)
    requires ParseKey(key).Some? && Inv(key, rules, st) && DoWrite(st, tid, at).Some?
    ensures Inv(key, rules, DoWrite(st, tid, at).value)
  {
    CloserCount(st.closers, tid);
    assert UnforcedCurrent(st, key, st.closers[tid]);
  }

  lemma CheckKeepsInv(key: string, rules: Rules, st: Sys, tid: nat, force: bool, now: int)
    requires ParseKey(key).Some? && Inv(key, rules, st) && DoCheck(key, rules, st, tid, force, now).Some?
    ensures Inv(key, rules, DoCheck(key, rules, st, tid, force, now).value)
  {
  }

  lemma RollUpKeepsInv(key: string, rules: Rules, st: Sys, tid: nat)
    requires ParseKey(key).Some? && Inv(key, rules, st) && DoRollUp(key, st, tid).Some?
    ensures Inv(key, rules, DoRollUp(key, st, tid).value)
  {
    assert UnforcedCurrent(st, key, st.closers[tid]);
  }

  lemma AbandonKeepsInv(key: string, rules: Rules, st: Sys, tid: nat)
    requires ParseKey(key).Some? && Inv(key, rules, st) && tid in st.closers
    ensures Inv(key, rules, st.(closers := st.closers - {tid}))
  {
    CloserCount(st.closers, tid);
  }

  lemma StepKeepsInv(engines: map<nat, Engine>, key: string, rules: Rules, st: Sys, ev: Event)
    requires ParseKey(key).Some? && Inv(key, rules, st) && Step(engines, key, rules, st, ev).Some?
    ensures Inv(key, rules, Step(engines, key, rules, st, ev).value)
  {
    match ev
    case Check(tid, force, now) => CheckKeepsInv(key, rules, st, tid, force, now);
    case RollUp(tid) => RollUpKeepsInv(key, rules, st, tid);
    case Write(tid, at) => WriteKeepsInv(key, rules, st, tid, at);
    case Abandon(tid) => AbandonKeepsInv(key, rules, st, tid);
    case Submitted(s) => PlayKeepsInv(engines, key, rules, st, s);
  }

  lemma {:induction false} InvInEveryInterleaving(engines: map<nat, Engine>, key: string, rules: Rules, clock: int,
                                                  events: seq<Event>)
    requires ParseKey(key).Some? && Exec(engines, key, rules, clock, events).Some?
    ensures Inv(key, rules, Exec(engines, key, rules, clock, events).value)
  {
    if |events| > 0 {
      var n := |events| - 1;
      InvInEveryInterleaving(engines, key, rules, clock, events[..n]);
      StepKeepsInv(engines, key, rules, Exec(engines, key, rules, clock, events[..n]).value, events[n]);
    }
  }

  // ---- When the promises of a close survive ----

  ghost function Reachable(engines: map<nat, Engine>, key: string, rules: Rules, clock: int): iset<Sys>
    requires ParseKey(key).Some?
  {
    iset st | exists events :: Exec(engines, key, rules, clock, events) == Some(st)
  }

  /** A set of states that no statement leaves. */
  ghost predicate NoneLeaves(engines: map<nat, Engine>, key: string, rules: Rules, states: iset<Sys>)
    requires ParseKey(key).Some?
  {
    forall st, ev :: st in states && Step(engines, key, rules, st, ev).Some? ==>
      Step(engines, key, rules, st, ev).value in states
  }

  lemma ReachableIsClosed(engines: map<nat, Engine>, key: string, rules: Rules, clock: int)
    requires ParseKey(key).Some?
    ensures Start(clock) in Reachable(engines, key, rules, clock)
    ensures NoneLeaves(engines, key, rules, Reachable(engines, key, rules, clock))
  {
    var states := Reachable(engines, key, rules, clock);
    assert Exec(engines, key, rules, clock, []) == Some(Start(clock));
    forall st, ev | st in states && Step(engines, key, rules, st, ev).Some?
      ensures Step(engines, key, rules, st, ev).value in states
    {
      var events :| Exec(engines, key, rules, clock, events) == Some(st);
      assert (events + [ev])[..|events|] == events;
      assert Exec(engines, key, rules, clock, events + [ev]) == Step(engines, key, rules, st, ev);
    }
  }

  lemma Next(engines: map<nat, Engine>, key: string, rules: Rules, states: iset<Sys>, st: Sys, ev: Event, st': Sys)
    requires ParseKey(key).Some? && NoneLeaves(engines, key, rules, states) && st in states
    requires Step(engines, key, rules, st, ev) == Some(st')
    ensures st' in states
  {
  }

  /** No statement of any interleaving changes a closed cycle. */
  ghost predicate ClosedAbsorbs(key: string, rules: Rules)
    requires ParseKey(key).Some?
  {
    forall engines, clock, st, ev ::
      st in Reachable(engines, key, rules, clock) && st.cycle.Closed? && Step(engines, key, rules, st, ev).Some? ==>
        Step(engines, key, rules, st, ev).value.cycle == st.cycle
  }

  /** Once an unforced close has been written, the stored winner is what the ledger says, in every interleaving. */
  ghost predicate UnforcedWinnerStands(key: string, rules: Rules)
    requires ParseKey(key).Some?
  {
    forall engines, clock, st ::
      st in Reachable(engines, key, rules, clock) && st.settled ==> WinnerStands(st, key)
  }

  /** Two unforced closes can both have passed the check and rolled up. */
  lemma TwoCloses(e: map<nat, Engine>, key: string, rules: Rules, states: iset<Sys>, ranked: seq<Entry>)
    requires ParseKey(key).Some? && rules.most >= 2 && NoneLeaves(e, key, rules, states)
    requires Start(EndOf(key)) in states && ranked == Standings([], key)
    ensures Sys([], Open, map[0 := Rolled(false, ranked), 1 := Rolled(false, ranked)], EndOf(key), false) in states
  {
    var end := EndOf(key);
    var c, r := Checked(false), Rolled(false, ranked);
    var s1, s2 := Sys([], Open, map[0 := c], end, false), Sys([], Open, map[0 := c, 1 := c], end, false);
    var s3, s4 := Sys([], Open, map[0 := r, 1 := c], end, false), Sys([], Open, map[0 := r, 1 := r], end, false);
    Next(e, key, rules, states, Start(end), Check(0, false, end), s1);
    assert s1.closers[1 := c] == s2.closers;
    Next(e, key, rules, states, s1, Check(1, false, end), s2);
    assert s2.closers[0 := r] == s3.closers && s3.closers[1 := r] == s4.closers;
    Next(e, key, rules, states, s2, RollUp(0), s3);
    Next(e, key, rules, states, s3, RollUp(1), s4);
  }

  /** Then they write one after the other. */
  lemma TwoClosesWriteTwice(key: string, rules: Rules)
    requires ParseKey(key).Some? && rules.most >= 2
    ensures !ClosedAbsorbs(key, rules)
  {
    var e: map<nat, Engine>, end, ranked := map[], EndOf(key), Standings([], key);
    var states := Reachable(e, key, rules, end);
    ReachableIsClosed(e, key, rules, end);
    TwoCloses(e, key, rules, states, ranked);
    var r := Rolled(false, ranked);
    var both := Sys([], Open, map[0 := r, 1 := r], end, false);
    var closed := Sys([], Closed(end, Winner(ranked), ranked[..Min(25, |ranked|)]), map[1 := r], end, true);
    assert both.closers - {0} == closed.closers;
    Next(e, key, rules, states, both, Write(0, end), closed);
    assert Step(e, key, rules, closed, Write(1, end + 1)).value.cycle.closedAt == end + 1;
  }

  lemma AloneKeepsClosed(engines: map<nat, Engine>, key: string, rules: Rules, st: Sys, ev: Event)
    requires ParseKey(key).Some? && Inv(key, rules, st) && rules.most <= 1 && st.cycle.Closed?
    ensures Step(engines, key, rules, st, ev).Some? ==> Step(engines, key, rules, st, ev).value.cycle == st.cycle
  {
  }

  /** "Closed" is absorbing in every interleaving exactly when no two closes overlap. */
  lemma ClosedAbsorbsIff(key: string, rules: Rules)
    requires ParseKey(key).Some?
    ensures ClosedAbsorbs(key, rules) <==> rules.most <= 1
  {
    if rules.most <= 1 {
      forall engines, clock, st, ev |
        st in Reachable(engines, key, rules, clock) && st.cycle.Closed? && Step(engines, key, rules, st, ev).Some?
        ensures Step(engines, key, rules, st, ev).value.cycle == st.cycle
      {
        var events :| Exec(engines, key, rules, clock, events) == Some(st);
        InvInEveryInterleaving(engines, key, rules, clock, events);
        AloneKeepsClosed(engines, key, rules, st, ev);
      }
    } else {
      TwoClosesWriteTwice(key, rules);
    }
  }

  /** A forced close rolls up before the month's last play and writes after an unforced close did. */
  lemma ForcedOverwritesUnforced(key: string, rules: Rules)
    requires ParseKey(key).Some? && rules.force && rules.most >= 2
    ensures !UnforcedWinnerStands(key, rules)
  {
    var k := MonthNumberOf(key);
    KeyNamesItsMonth(key);
    FirstDayMonotone(k, k + 1);
    var until := FirstDay(k + 1);
    var end := EndOf(key);
    var e, play := map[1 := OnePointEngine()], LateSubmits.LastPlay(until);
    var rows := [NewRow(play, ONE_POINT, 1)];
    LateSubmits.LastPlayScores(until);
    LateSubmits.RanksOfTheLastPlay(FirstDay(k), until);
    assert Standings([], key) == [] && Standings(rows, key) == TOP;
    ForcedInterleaving(e, key, rules, play, rows);
  }

  const TOP: seq<Entry> := [Entry(7, 1)]

  /** The forced close rolls up, and then the month's last play comes in. */
  lemma ForcedRollsUpEarly(e: map<nat, Engine>, key: string, rules: Rules, states: iset<Sys>, play: Submit,
                           rows: seq<Attempt>)
    requires ParseKey(key).Some? && rules.force && rules.most >= 2 && NoneLeaves(e, key, rules, states)
    requires Start(play.now) in states && play.now == play.stamp && Apply(e, [], play) == rows
    requires Standings([], key) == []
    ensures Sys(rows, Open, map[0 := Rolled(true, [])], play.now, false) in states
  {
    var now := play.now;
    var s1 := Sys([], Open, map[0 := Checked(true)], now, false);
    var s2 := Sys([], Open, map[0 := Rolled(true, [])], now, false);
    Next(e, key, rules, states, Start(now), Check(0, true, now), s1);
    assert s1.closers[0 := Rolled(true, [])] == s2.closers;
    Next(e, key, rules, states, s1, RollUp(0), s2);
    Next(e, key, rules, states, s2, Submitted(play), s2.(rows := rows));
  }

  /** An unforced close runs through after the month's end. */
  lemma UnforcedRunsThrough(e: map<nat, Engine>, key: string, rules: Rules, states: iset<Sys>, now: int,
                            rows: seq<Attempt>)
    requires ParseKey(key).Some? && rules.most >= 2 && NoneLeaves(e, key, rules, states)
    requires Sys(rows, Open, map[0 := Rolled(true, [])], now, false) in states && now < EndOf(key)
    requires Standings(rows, key) == TOP
    ensures Sys(rows, Closed(EndOf(key), Winner(TOP), TOP[..1]), map[0 := Rolled(true, [])], EndOf(key), true) in states
  {
    var end, r0, r1 := EndOf(key), Rolled(true, []), Rolled(false, TOP);
    var s3 := Sys(rows, Open, map[0 := r0], now, false);
    var s4 := Sys(rows, Open, map[0 := r0, 1 := Checked(false)], end, false);
    var s5 := Sys(rows, Open, map[0 := r0, 1 := r1], end, false);
    var s6 := Sys(rows, Closed(end, Winner(TOP), TOP[..1]), map[0 := r0], end, true);
    assert s3.closers[1 := Checked(false)] == s4.closers;
    Next(e, key, rules, states, s3, Check(1, false, end), s4);
    assert s4.closers[1 := r1] == s5.closers && s5.closers - {1} == s6.closers;
    Next(e, key, rules, states, s4, RollUp(1), s5);
    Next(e, key, rules, states, s5, Write(1, end), s6);
  }

  /** And the forced one writes what it rolled up. */
  lemma ForcedInterleaving(e: map<nat, Engine>, key: string, rules: Rules, play: Submit, rows: seq<Attempt>)
    requires ParseKey(key).Some? && rules.force && rules.most >= 2
    requires play.now == play.stamp < EndOf(key) && Apply(e, [], play) == rows
    requires Standings([], key) == [] && Standings(rows, key) == TOP
    ensures !UnforcedWinnerStands(key, rules)
  {
    var end, states := EndOf(key), Reachable(e, key, rules, play.now);
    ReachableIsClosed(e, key, rules, play.now);
    ForcedRollsUpEarly(e, key, rules, states, play, rows);
    UnforcedRunsThrough(e, key, rules, states, play.now, rows);
    var closed := Sys(rows, Closed(end, Winner(TOP), TOP[..1]), map[0 := Rolled(true, [])], end, true);
    var last := DoWrite(closed, 0, end).value;
    Next(e, key, rules, states, closed, Write(0, end), last);
    assert last.settled && last.rows == rows && last.cycle.winner == None;
    assert !WinnerStands(last, key) by { assert Winner(TOP) == Some(TOP[0]); }
  }

  /**
   * The winner an unforced close stores stands in every interleaving exactly when no close may be forced or no
   * two closes overlap. Overlapping unforced closes write the same winner and snapshot, at another time.
   */
  lemma UnforcedWinnerStandsIff(key: string, rules: Rules)
    requires ParseKey(key).Some?
    ensures UnforcedWinnerStands(key, rules) <==> !rules.force || rules.most <= 1
  {
    if !rules.force || rules.most <= 1 {
      forall engines, clock, st | st in Reachable(engines, key, rules, clock) && st.settled
        ensures WinnerStands(st, key)
      {
        var events :| Exec(engines, key, rules, clock, events) == Some(st);
        InvInEveryInterleaving(engines, key, rules, clock, events);
      }
    } else {
      ForcedOverwritesUnforced(key, rules);
    }
  }
}

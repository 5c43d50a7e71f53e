/** The fixed-window counters of the rate limiter, one call at a time (app/core/ratelimit.py). */
module RateLimit {
  import opened Basics
  import opened Calendar

  /** Which counter a row is: a NULL key is None, and NULLs are not distinct. */
  datatype Group = Group(key: Option<nat>, bucket: string, window: int)

  /** One row of `rate_limit`; the position in the table stands for the ascending id. */
  datatype Row = Row(group: Group, count: nat, trigger: nat)

  type Table = seq<Row>

  datatype Limits = Limits(perMin: nat, perIpPerMin: nat, triggerPerDay: nat, globalDailyLlm: nat)

  // ---- Reads ----

  /** The lowest-id row of a group. */
  function Find(rows: Table, g: Group): (r: Option<nat>)
    ensures r.Some? ==> r.value < |rows| && rows[r.value].group == g
    ensures forall i :: 0 <= i < |rows| && rows[i].group == g ==> r.Some? && r.value <= i
  {
    if |rows| == 0 then None
    else if rows[0].group == g then Some(0)
    else
      var rest := Find(rows[1..], g);
      if rest.None? then None else Some(rest.value + 1)
  }

  function CountOf(rows: Table, g: Group): nat {
    var i := Find(rows, g);
    if i.None? then 0 else rows[i.value].count
  }

  function TriggerOf(rows: Table, g: Group): nat {
    var i := Find(rows, g);
    if i.None? then 0 else rows[i.value].trigger
  }

  predicate InBudget(g: Group, day: int) {
    g.bucket == "trigger" && g.window == day
  }

  /** `_global_llm_today` */
  function GlobalToday(rows: Table, day: int): nat {
    if |rows| == 0 then 0
    else (if InBudget(rows[0].group, day) then rows[0].trigger else 0) + GlobalToday(rows[1..], day)
  }

  // ---- Writes ----

  /** Add to the counters of a group's lowest-id row, inserting the row when there is none. */
  function Add(rows: Table, g: Group, count: nat, trigger: nat): Table {
    if |rows| == 0 then [Row(g, count, trigger)]
    else if rows[0].group == g then [Row(g, rows[0].count + count, rows[0].trigger + trigger)] + rows[1..]
    else [rows[0]] + Add(rows[1..], g, count, trigger)
  }

  function MinuteGroup(key: Option<nat>, ip: string, now: int): Group {
    Group(key, if key.None? then "ip:" + ip else "req", StartOfMinute(now))
  }

  function TriggerGroup(key: Option<nat>, now: int): Group {
    Group(key, "trigger", StartOfDay(now))
  }

  datatype Call =
    | Request(key: Option<nat>, ip: string, now: int)
    | LlmGlobal(now: int)
    | Trigger(keyId: nat, now: int)

  /** The table after a call, and whether the call was let through. */
  function Do(lim: Limits, rows: Table, c: Call): (Table, bool) {
    match c
    case Request(key, ip, now) =>
      var g := MinuteGroup(key, ip, now);
      (Add(rows, g, 1, 0), CountOf(rows, g) + 1 <= if key.None? then lim.perIpPerMin else lim.perMin)
    case LlmGlobal(now) =>
      if GlobalToday(rows, StartOfDay(now)) >= lim.globalDailyLlm then (rows, false)
      else (Add(rows, TriggerGroup(None, now), 0, 1), true)
    case Trigger(key, now) =>
      var g := TriggerGroup(Some(key), now);
      if GlobalToday(rows, StartOfDay(now)) >= lim.globalDailyLlm then (rows, false)
      else if TriggerOf(rows, g) >= lim.triggerPerDay then (Add(rows, g, 0, 0), false)
      else (Add(rows, g, 0, 1), true)
  }

  /** The nightly cron: rows that started more than two days ago go. */
  function Prune(rows: Table, now: int): Table {
    Since(rows, now - 2 * DAY)
  }

  function Since(rows: Table, cutoff: int): Table {
    if |rows| == 0 then []
    else if rows[0].group.window < cutoff then Since(rows[1..], cutoff)
    else [rows[0]] + Since(rows[1..], cutoff)
  }

  // ---- The table, updated in place ----

  class Limiter {
    var rows: Table

    constructor ()
      ensures rows == []
    {
      rows := [];
    }

    method BumpMinute(g: Group) returns (newCount: nat)
      modifies this
      ensures rows == Add(old(rows), g, 1, 0) && newCount == CountOf(old(rows), g) + 1
      ensures CountOf(rows, g) == newCount
    {
      AddFinds(rows, g, 1, 0);
      var rowId := Find(rows, g);
      if rowId.Some? {
        newCount := rows[rowId.value].count + 1;
        rows := rows[rowId.value := rows[rowId.value].(count := newCount)];
      } else {
        newCount := 1;
        rows := rows + [Row(g, 1, 0)];
      }
    }

    method CheckRequest(lim: Limits, key: Option<nat>, ip: string, now: int) returns (admitted: bool)
      modifies this
      ensures (rows, admitted) == Do(lim, old(rows), Request(key, ip, now))
    {
      if key.None? {
        var ipCount := BumpMinute(MinuteGroup(None, ip, now));
        admitted := ipCount <= lim.perIpPerMin;
      } else {
        var keyCount := BumpMinute(MinuteGroup(key, ip, now));
        admitted := keyCount <= lim.perMin;
      }
    }

    method CheckAndCountLlmGlobal(lim: Limits, now: int) returns (admitted: bool)
      modifies this
      ensures (rows, admitted) == Do(lim, old(rows), LlmGlobal(now))
    {
      if GlobalToday(rows, StartOfDay(now)) >= lim.globalDailyLlm {
        return false;
      }
      var g := TriggerGroup(None, now);
      AddFinds(rows, g, 0, 1);
      var rowId := Find(rows, g);
      if rowId.Some? {
        rows := rows[rowId.value := rows[rowId.value].(trigger := rows[rowId.value].trigger + 1)];
      } else {
        rows := rows + [Row(g, 0, 1)];
      }
      admitted := true;
    }

    method CheckAndCountTrigger(lim: Limits, key: nat, now: int) returns (admitted: bool)
      modifies this
      ensures (rows, admitted) == Do(lim, old(rows), Trigger(key, now))
    {
      if GlobalToday(rows, StartOfDay(now)) >= lim.globalDailyLlm {
        return false;
      }
      var g := TriggerGroup(Some(key), now);
      AddFinds(rows, g, 0, 0);
      AddFinds(rows, g, 0, 1);
      var rowId := Find(rows, g);
      var at: nat;
      if rowId.Some? {
        at := rowId.value;
      } else {
        at := |rows|;
        rows := rows + [Row(g, 0, 0)];
      }
      assert rows == Add(old(rows), g, 0, 0);
      if rows[at].trigger >= lim.triggerPerDay {
        return false;
      }
      assert rows[at := Row(g, rows[at].count, rows[at].trigger + 1)] == Add(old(rows), g, 0, 1);
      rows := rows[at := rows[at].(trigger := rows[at].trigger + 1)];
      admitted := true;
    }

    method CronPrune(now: int) returns (deleted: nat)
      modifies this
      ensures rows == Prune(old(rows), now) && deleted == |old(rows)| - |rows|
    {
      var kept: Table := [];
      var i := |rows|;
      deleted := 0;
      while i > 0
        invariant 0 <= i <= |rows| && kept == Since(rows[i..], now - 2 * DAY)
        invariant deleted == |rows[i..]| - |kept|
      {
        i := i - 1;
        assert rows[i..][1..] == rows[i + 1..];
        if rows[i].group.window < now - 2 * DAY {
          deleted := deleted + 1;
        } else {
          kept := [rows[i]] + kept;
        }
      }
      assert rows[0..] == rows;
      rows := kept;
    }
  }

  // ---- How a write moves the reads ----

  /** A write lands in the found row, or in a new last row. */
  lemma {:induction false} AddPlaces(rows: Table, g: Group, count: nat, trigger: nat)
    ensures var i := Find(rows, g);
            Add(rows, g, count, trigger) ==
              if i.Some? then rows[i.value := Row(g, rows[i.value].count + count, rows[i.value].trigger + trigger)]
              else rows + [Row(g, count, trigger)]
  {
    if |rows| > 0 && rows[0].group != g {
      AddPlaces(rows[1..], g, count, trigger);
    }
  }

  lemma AddFinds(rows: Table, g: Group, count: nat, trigger: nat)
    ensures var i := Find(rows, g);
            Add(rows, g, count, trigger) ==
              if i.Some? then rows[i.value := Row(g, rows[i.value].count + count, rows[i.value].trigger + trigger)]
              else rows + [Row(g, count, trigger)]
    ensures CountOf(Add(rows, g, count, trigger), g) == CountOf(rows, g) + count
    ensures TriggerOf(Add(rows, g, count, trigger), g) == TriggerOf(rows, g) + trigger
  {
    AddPlaces(rows, g, count, trigger);
    var i, after := Find(rows, g), Add(rows, g, count, trigger);
    var at := if i.Some? then i.value else |rows|;
    assert after[at].group == g;
    assert Find(after, g) == Some(at);
  }

  lemma {:induction false} AddElsewhere(rows: Table, g: Group, h: Group, count: nat, trigger: nat)
    requires g != h
    ensures CountOf(Add(rows, g, count, trigger), h) == CountOf(rows, h)
    ensures TriggerOf(Add(rows, g, count, trigger), h) == TriggerOf(rows, h)
  {
    if |rows| == 0 {
      assert Add(rows, g, count, trigger)[1..] == [];
    } else {
      var after := Add(rows, g, count, trigger);
      if rows[0].group == g {
        assert after[1..] == rows[1..];
      } else {
        assert after[1..] == Add(rows[1..], g, count, trigger);
        AddElsewhere(rows[1..], g, h, count, trigger);
      }
    }
  }

  lemma {:induction false} AddGlobal(rows: Table, g: Group, count: nat, trigger: nat, day: int)
    ensures GlobalToday(Add(rows, g, count, trigger), day)
            == GlobalToday(rows, day) + if InBudget(g, day) then trigger else 0
  {
    if |rows| > 0 && rows[0].group != g {
      AddGlobal(rows[1..], g, count, trigger, day);
      assert ([rows[0]] + Add(rows[1..], g, count, trigger))[1..] == Add(rows[1..], g, count, trigger);
    } else if |rows| > 0 {
      assert Add(rows, g, count, trigger)[1..] == rows[1..];
    } else {
      assert Add(rows, g, count, trigger)[1..] == [];
    }
  }

  function Run(lim: Limits, calls: seq<Call>): (Table, seq<bool>) {
    if |calls| == 0 then ([], [])
    else
      var (rows, log) := Run(lim, calls[..|calls| - 1]);
      var (rows', admitted) := Do(lim, rows, calls[|calls| - 1]);
      (rows', log + [admitted])
  }

  // ---- Which calls share a counter ----

  /** Requests share a counter exactly in one minute, and of one key, or without a key from one address. */
  lemma SameMinuteCounter(key: Option<nat>, ip: string, t: int, key': Option<nat>, ip': string, t': int)
    ensures MinuteGroup(key, ip, t) == MinuteGroup(key', ip', t') <==>
            key == key' && (key.None? ==> ip == ip') && t / MINUTE == t' / MINUTE
  {
    MinuteStart(t);
    MinuteStart(t');
    if key.None? && key'.None? {
      assert ("ip:" + ip)[3..] == ip && ("ip:" + ip')[3..] == ip';
    }
  }

  lemma MinuteStart(t: int)
    ensures StartOfMinute(t) == t / MINUTE * MINUTE
  {
  }

  /** Spending calls share a counter exactly on one UTC day and of one key, or without a key. */
  lemma SameDayCounter(key: Option<nat>, t: int, key': Option<nat>, t': int)
    ensures TriggerGroup(key, t) == TriggerGroup(key', t') <==> key == key' && t / DAY == t' / DAY
    ensures TriggerGroup(key, t) == Group(key, "trigger", t / DAY * DAY)
  {
    StartOfDayIsDay(t);
    StartOfDayIsDay(t');
  }

  /** And never with a request. */
  lemma CountersDiffer(key: Option<nat>, ip: string, t: int, key': Option<nat>, t': int)
    ensures MinuteGroup(key, ip, t) != TriggerGroup(key', t')
  {
    assert MinuteGroup(key, ip, t).bucket[0] != 't';
  }

  // ---- Budgets over whole serial runs ----

  /** A call that spends for this key, or without one, on a day. */
  predicate Spends(c: Call, key: Option<nat>, d: int) {
    match c
    case Request(_, _, _) => false
    case LlmGlobal(now) => key.None? && now / DAY == d
    case Trigger(k, now) => key == Some(k) && now / DAY == d
  }

  /** How many calls of a run were let through to spend for one key on a day, and for all on that day. */
  function Spent(lim: Limits, calls: seq<Call>, key: Option<nat>, d: int): nat {
    if |calls| == 0 then 0
    else
      var n := |calls| - 1;
      Spent(lim, calls[..n], key, d)
      + if Spends(calls[n], key, d) && Do(lim, Run(lim, calls[..n]).0, calls[n]).1 then 1 else 0
  }

  function SpentOn(lim: Limits, calls: seq<Call>, d: int): nat {
    if |calls| == 0 then 0
    else
      var n := |calls| - 1;
      var spends := !calls[n].Request? && calls[n].now / DAY == d;
      SpentOn(lim, calls[..n], d) + if spends && Do(lim, Run(lim, calls[..n]).0, calls[n]).1 then 1 else 0
  }

  lemma RequestLeavesBudget(rows: Table, key: Option<nat>, ip: string, now: int, g: Group, day: int)
    requires g.bucket == "trigger"
    ensures var after := Add(rows, MinuteGroup(key, ip, now), 1, 0);
            TriggerOf(after, g) == TriggerOf(rows, g) && GlobalToday(after, day) == GlobalToday(rows, day)
  {
    var m := MinuteGroup(key, ip, now);
    assert m.bucket[0] != 't';
    AddElsewhere(rows, m, g, 1, 0);
    AddGlobal(rows, m, 1, 0, day);
  }

  /**
   * Run one at a time, the trigger counters are exactly the calls let through: per key and day within the
   * key's daily cap, and over keyed and keyless callers together within the global daily cap.
   */
  lemma {:induction false} BudgetInEveryRun(lim: Limits, calls: seq<Call>, key: Option<nat>, d: int)
    ensures var rows := Run(lim, calls).0;
            && TriggerOf(rows, Group(key, "trigger", d * DAY)) == Spent(lim, calls, key, d)
            && (key.Some? ==> Spent(lim, calls, key, d) <= lim.triggerPerDay)
            && GlobalToday(rows, d * DAY) == SpentOn(lim, calls, d) <= lim.globalDailyLlm
  {
    if |calls| > 0 {
      var n := |calls| - 1;
      var rows := Run(lim, calls[..n]).0;
      BudgetInEveryRun(lim, calls[..n], key, d);
      BudgetStep(lim, rows, calls[n], key, d);
    }
  }

  /** A call that is let through adds one unit to its own counter and to its day's sum, which had room for it. */
  lemma BudgetStep(lim: Limits, rows: Table, c: Call, key: Option<nat>, d: int)
    ensures var (after, admitted) := Do(lim, rows, c);
            var g := Group(key, "trigger", d * DAY);
            && TriggerOf(after, g) == TriggerOf(rows, g) + (if Spends(c, key, d) && admitted then 1 else 0)
            && GlobalToday(after, d * DAY)
               == GlobalToday(rows, d * DAY) + (if !c.Request? && c.now / DAY == d && admitted then 1 else 0)
            && (Spends(c, key, d) && key.Some? && admitted ==> TriggerOf(rows, g) < lim.triggerPerDay)
            && (!c.Request? && c.now / DAY == d && admitted ==> GlobalToday(rows, d * DAY) < lim.globalDailyLlm)
  {
    var g := Group(key, "trigger", d * DAY);
    DayStart(c.now, d);
    match c
    case Request(k, ip, now) => RequestLeavesBudget(rows, k, ip, now, g, d * DAY);
    case LlmGlobal(now) => SpendMoves(rows, TriggerGroup(None, now), g, 1, d * DAY);
    case Trigger(k, now) =>
      SpendMoves(rows, TriggerGroup(Some(k), now), g, 1, d * DAY);
      SpendMoves(rows, TriggerGroup(Some(k), now), g, 0, d * DAY);
  }

  lemma DayStart(t: int, d: int)
    ensures StartOfDay(t) == d * DAY <==> t / DAY == d
  {
    StartOfDayIsDay(t);
  }

  lemma SpendMoves(rows: Table, at: Group, g: Group, trigger: nat, day: int)
    ensures TriggerOf(Add(rows, at, 0, trigger), g) == TriggerOf(rows, g) + if at == g then trigger else 0
    ensures GlobalToday(Add(rows, at, 0, trigger), day)
            == GlobalToday(rows, day) + if InBudget(at, day) then trigger else 0
  {
    AddGlobal(rows, at, 0, trigger, day);
    if at == g {
      AddFinds(rows, at, 0, trigger);
    } else {
      AddElsewhere(rows, at, g, 0, trigger);
    }
  }

  /** Below its budgets a call is let through: it is refused only when the run has spent one of them in full. */
  lemma RefusedOnlyWhenSpent(lim: Limits, calls: seq<Call>, c: Call)
    requires !c.Request?
    ensures Do(lim, Run(lim, calls).0, c).1
            <==> SpentOn(lim, calls, c.now / DAY) != lim.globalDailyLlm
                 && (c.Trigger? ==> Spent(lim, calls, Some(c.keyId), c.now / DAY) != lim.triggerPerDay)
  {
    var key := if c.Trigger? then Some(c.keyId) else None;
    BudgetInEveryRun(lim, calls, key, c.now / DAY);
    StartOfDayIsDay(c.now);
  }

  // ---- Requests over whole serial runs ----

  /** A request of a key, whatever its address, or without a key from an address, in a minute. */
  predicate Requests(c: Call, key: Option<nat>, ip: string, minute: int) {
    c.Request? && c.key == key && (key.None? ==> c.ip == ip) && c.now / MINUTE == minute
  }

  /** How many calls of a run are such requests, and how many of them are let through. */
  function Asked(calls: seq<Call>, key: Option<nat>, ip: string, minute: int): nat {
    if |calls| == 0 then 0
    else
      var n := |calls| - 1;
      Asked(calls[..n], key, ip, minute) + if Requests(calls[n], key, ip, minute) then 1 else 0
  }

  function LetThrough(lim: Limits, calls: seq<Call>, key: Option<nat>, ip: string, minute: int): nat {
    if |calls| == 0 then 0
    else
      var n := |calls| - 1;
      var passes := Do(lim, Run(lim, calls[..n]).0, calls[n]).1;
      LetThrough(lim, calls[..n], key, ip, minute) + if Requests(calls[n], key, ip, minute) && passes then 1 else 0
  }

  /**
   * Run one at a time, every request of a key, or of an address without one, is counted in its minute, and exactly
   * min(n, limit) of them pass.
   */
  lemma {:induction false} RequestsInEveryRun(lim: Limits, calls: seq<Call>, key: Option<nat>, ip: string, minute: int)
    ensures var limit := if key.None? then lim.perIpPerMin else lim.perMin;
            && CountOf(Run(lim, calls).0, MinuteGroup(key, ip, minute * MINUTE)) == Asked(calls, key, ip, minute)
            && LetThrough(lim, calls, key, ip, minute) == Min(limit, Asked(calls, key, ip, minute))
  {
    var g := MinuteGroup(key, ip, minute * MINUTE);
    assert g.bucket != "trigger" by { assert g.bucket[0] != 't'; }
    forall c: Call
      ensures Shares(c, g) <==> Requests(c, key, ip, minute)
    {
      if c.Request? {
        RequestsShare(c, key, ip, minute);
      }
    }
    CounterInEveryRun(lim, calls, key, ip, minute, g);
  }

  lemma {:induction false} CounterInEveryRun(lim: Limits, calls: seq<Call>, key: Option<nat>, ip: string, minute: int,
                                             g: Group)
    requires forall c: Call :: Shares(c, g) <==> Requests(c, key, ip, minute)
    requires g.bucket != "trigger" && g.key == key
    ensures var limit := if key.None? then lim.perIpPerMin else lim.perMin;
            && CountOf(Run(lim, calls).0, g) == Asked(calls, key, ip, minute)
            && LetThrough(lim, calls, key, ip, minute) == Min(limit, Asked(calls, key, ip, minute))
  {
    if |calls| > 0 {
      var n := |calls| - 1;
      CounterInEveryRun(lim, calls[..n], key, ip, minute, g);
      RequestStep(lim, Run(lim, calls[..n]).0, calls[n], key, g);
    }
  }

  /** The request counts in this group. */
  predicate Shares(c: Call, g: Group) {
    c.Request? && MinuteGroup(c.key, c.ip, c.now) == g
  }

  /** A request adds one to its counter and passes within the limit; no other call touches the counter. */
  lemma RequestStep(lim: Limits, rows: Table, c: Call, key: Option<nat>, g: Group)
    requires g.bucket != "trigger" && g.key == key
    ensures var (after, passes) := Do(lim, rows, c);
            var limit := if key.None? then lim.perIpPerMin else lim.perMin;
            && CountOf(after, g) == CountOf(rows, g) + (if Shares(c, g) then 1 else 0)
            && (Shares(c, g) ==> (passes <==> CountOf(rows, g) < limit))
  {
    match c
    case Request(k, a, now) => CountMoves(rows, MinuteGroup(k, a, now), g, 1, 0);
    case LlmGlobal(now) => CountMoves(rows, TriggerGroup(None, now), g, 0, 1);
    case Trigger(k, now) =>
      CountMoves(rows, TriggerGroup(Some(k), now), g, 0, 0);
      CountMoves(rows, TriggerGroup(Some(k), now), g, 0, 1);
  }

  lemma RequestsShare(c: Call, key: Option<nat>, ip: string, minute: int)
    requires c.Request?
    ensures MinuteGroup(c.key, c.ip, c.now) == MinuteGroup(key, ip, minute * MINUTE) <==> Requests(c, key, ip, minute)
  {
    SameMinuteCounter(c.key, c.ip, c.now, key, ip, minute * MINUTE);
    assert minute * MINUTE / MINUTE == minute;
  }

  lemma CountMoves(rows: Table, at: Group, g: Group, count: nat, trigger: nat)
    ensures CountOf(Add(rows, at, count, trigger), g) == CountOf(rows, g) + if at == g then count else 0
  {
    if at == g {
      AddFinds(rows, at, count, trigger);
    } else {
      AddElsewhere(rows, at, g, count, trigger);
    }
  }

  // ---- What the prune leaves ----

  /** Exactly the rows that started in the last two days, as often as they were there. */
  lemma {:induction false} PruneKeepsRecent(rows: Table, now: int)
    ensures forall r ::
              multiset(Prune(rows, now))[r] == if r.group.window >= now - 2 * DAY then multiset(rows)[r] else 0
  {
    if |rows| > 0 {
      PruneKeepsRecent(rows[1..], now);
      assert rows == [rows[0]] + rows[1..];
    }
  }

  // ---- Pruning is invisible ----

  datatype Event = Called(c: Call) | Pruned(at: int)

  function TimeOf(ev: Event): int {
    match ev
    case Called(c) => c.now
    case Pruned(at) => at
  }

  /** A run with the cron at arbitrary points: the table and the decisions. */
  function RunPruned(lim: Limits, events: seq<Event>): (Table, seq<bool>) {
    if |events| == 0 then ([], [])
    else
      var (rows, log) := RunPruned(lim, events[..|events| - 1]);
      match events[|events| - 1]
      case Called(c) => var (rows', admitted) := Do(lim, rows, c); (rows', log + [admitted])
      case Pruned(at) => (Prune(rows, at), log)
  }

  function CallsOf(events: seq<Event>): seq<Call> {
    if |events| == 0 then []
    else
      var n := |events| - 1;
      CallsOf(events[..n]) + if events[n].Called? then [events[n].c] else []
  }

  ghost predicate Nondecreasing(events: seq<Event>) {
    forall i, j :: 0 <= i < j < |events| ==> TimeOf(events[i]) <= TimeOf(events[j])
  }

  lemma {:induction false} SinceSince(rows: Table, early: int, late: int)
    requires early <= late
    ensures Since(Since(rows, early), late) == Since(rows, late)
  {
    if |rows| > 0 {
      SinceSince(rows[1..], early, late);
      assert ([rows[0]] + Since(rows[1..], early))[1..] == Since(rows[1..], early);
    }
  }

  lemma {:induction false} SinceReads(rows: Table, cutoff: int, g: Group)
    requires g.window >= cutoff
    ensures CountOf(Since(rows, cutoff), g) == CountOf(rows, g)
    ensures TriggerOf(Since(rows, cutoff), g) == TriggerOf(rows, g)
    ensures GlobalToday(Since(rows, cutoff), g.window) == GlobalToday(rows, g.window)
  {
    if |rows| > 0 {
      SinceReads(rows[1..], cutoff, g);
      assert ([rows[0]] + Since(rows[1..], cutoff))[1..] == Since(rows[1..], cutoff);
    }
  }

  lemma {:induction false} SinceAdd(rows: Table, cutoff: int, g: Group, count: nat, trigger: nat)
    requires g.window >= cutoff
    ensures Since(Add(rows, g, count, trigger), cutoff) == Add(Since(rows, cutoff), g, count, trigger)
  {
    if |rows| == 0 {
      assert [Row(g, count, trigger)][1..] == [];
    } else if rows[0].group == g {
      var r := Row(g, rows[0].count + count, rows[0].trigger + trigger);
      assert ([r] + rows[1..])[1..] == rows[1..];
      assert ([rows[0]] + Since(rows[1..], cutoff))[1..] == Since(rows[1..], cutoff);
    } else {
      SinceAdd(rows[1..], cutoff, g, count, trigger);
      assert ([rows[0]] + Add(rows[1..], g, count, trigger))[1..] == Add(rows[1..], g, count, trigger);
      assert ([rows[0]] + Since(rows[1..], cutoff))[1..] == Since(rows[1..], cutoff);
    }
  }

  /** A call sees and touches only rows of its own day: old rows may be there or not. */
  lemma DoIgnoresOldRows(lim: Limits, rows: Table, c: Call, cutoff: int)
    requires cutoff <= c.now - 2 * DAY
    ensures Do(lim, Since(rows, cutoff), c) == (Since(Do(lim, rows, c).0, cutoff), Do(lim, rows, c).1)
  {
    StartOfDayIsDay(c.now);
    var g := match c
      case Request(key, ip, now) => MinuteGroup(key, ip, now)
      case LlmGlobal(now) => TriggerGroup(None, now)
      case Trigger(key, now) => TriggerGroup(Some(key), now);
    assert g.window >= cutoff;
    SinceReads(rows, cutoff, g);
    SinceAdd(rows, cutoff, g, 1, 0);
    SinceAdd(rows, cutoff, g, 0, 1);
    SinceAdd(rows, cutoff, g, 0, 0);
  }

  /**
   * With a clock that never goes back, running the prune at arbitrary points changes no decision: the
   * admissions are those of the same calls on a table that is never pruned.
   */
  lemma {:induction false} PruningIsInvisible(lim: Limits, events: seq<Event>)
    requires Nondecreasing(events)
    ensures RunPruned(lim, events).1 == Run(lim, CallsOf(events)).1
    ensures |events| > 0 ==>
              var cutoff := TimeOf(events[|events| - 1]) - 2 * DAY;
              Since(RunPruned(lim, events).0, cutoff) == Since(Run(lim, CallsOf(events)).0, cutoff)
  {
    if |events| > 0 {
      var n := |events| - 1;
      var before := events[..n];
      PruningIsInvisible(lim, before);
      var cutoff := TimeOf(events[n]) - 2 * DAY;
      var p, u := RunPruned(lim, before).0, Run(lim, CallsOf(before)).0;
      assert Since(p, cutoff) == Since(u, cutoff) by {
        if n > 0 {
          var earlier := TimeOf(before[n - 1]) - 2 * DAY;
          assert earlier <= cutoff;
          SinceSince(p, earlier, cutoff);
          SinceSince(u, earlier, cutoff);
        }
      }
      match events[n]
      case Called(c) =>
        DoIgnoresOldRows(lim, p, c, cutoff);
        DoIgnoresOldRows(lim, u, c, cutoff);
        assert CallsOf(events)[..|CallsOf(before)|] == CallsOf(before);
      case Pruned(at) =>
        SinceSince(p, cutoff, cutoff);
        assert CallsOf(events) == CallsOf(before);
    }
  }
}

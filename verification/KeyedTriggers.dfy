/**
 * The daily trigger counter of one key under concurrent callers, statement by statement
 * (app/core/ratelimit.py, `check_and_count_trigger` after its global check). The counter is read into
 * memory and written back, so a write can undo the writes since its read.
 */
module KeyedTriggers {
  import opened Basics
  import opened Calendar
  import opened RateLimit

  /**
   * Where a call stands. `Seen` holds the counter it read and how many calls had been counted by then,
   * `Conflicted` has lost the race for the first insert and rolled back, `Unavailable` is the 503.
   */
  datatype Phase = Started | NoRow | Conflicted | Seen(count: nat, at: nat) | Admitted | Refused | Unavailable

  /**
   * The committed `trigger_count_today` of the key's row of the day, the call that has flushed an insert and
   * not committed it, the calls, and how many of them have been admitted and written their count.
   */
  datatype Sys = Sys(row: Option<nat>, inserter: Option<nat>, calls: map<nat, Phase>, writes: nat)

  datatype Event = Begin(tid: nat) | Select(tid: nat) | Insert(tid: nat) | Reselect(tid: nat) | Finish(tid: nat)

  const FRESH: Sys := Sys(None, None, map[], 0)

  function Stored(st: Sys): nat {
    if st.row.Some? then st.row.value else 0
  }

  function Goes(st: Sys, tid: nat, ph: Phase): Sys {
    st.(calls := st.calls[tid := ph])
  }

  /** The SELECT sees committed rows only. */
  function DoSelect(st: Sys, tid: nat): Option<Sys> {
    if tid !in st.calls || st.calls[tid] != Started then None
    else Some(Goes(st, tid, if st.row.Some? then Seen(st.row.value, st.writes) else NoRow))
  }

  /** The flush of a new row with count 0: it waits for an uncommitted one, and conflicts with a committed one. */
  function DoInsert(st: Sys, tid: nat): Option<Sys> {
    if tid !in st.calls || st.calls[tid] != NoRow || st.inserter.Some? then None
    else if st.row.Some? then Some(Goes(st, tid, Conflicted))
    else Some(Goes(st, tid, Seen(0, st.writes)).(inserter := Some(tid)))
  }

  function DoReselect(st: Sys, tid: nat): Option<Sys> {
    if tid !in st.calls || st.calls[tid] != Conflicted then None
    else Some(Goes(st, tid, if st.row.Some? then Seen(st.row.value, st.writes) else Unavailable))
  }

  /** Whether a call is about to write: it read a count below the cap. */
  predicate Writes(cap: nat, st: Sys, ev: Event) {
    ev.Finish? && ev.tid in st.calls && st.calls[ev.tid].Seen? && st.calls[ev.tid].count < cap
  }

  /** The per-key cap check, the write-back of what was read plus one, and the commit. */
  function DoFinish(cap: nat, st: Sys, tid: nat): Option<Sys> {
    if tid !in st.calls || !st.calls[tid].Seen? then None
    else
      var inserter := if st.inserter == Some(tid) then None else st.inserter;
      if st.calls[tid].count >= cap then
        var row := if st.inserter == Some(tid) then Some(0) else st.row;
        Some(Goes(st, tid, Refused).(row := row, inserter := inserter))
      else
        var row := Some(st.calls[tid].count + 1);
        Some(Goes(st, tid, Admitted).(row := row, inserter := inserter, writes := st.writes + 1))
  }

  /** `cap` is RATE_LIMIT_TRIGGER_PER_DAY. None: this cannot happen now. */
  function Step(cap: nat, st: Sys, ev: Event): Option<Sys> {
    match ev
    case Begin(tid) => if tid in st.calls then None else Some(Goes(st, tid, Started))
    case Select(tid) => DoSelect(st, tid)
    case Insert(tid) => DoInsert(st, tid)
    case Reselect(tid) => DoReselect(st, tid)
    case Finish(tid) => DoFinish(cap, st, tid)
  }

  function Exec(cap: nat, st: Sys, events: seq<Event>): Option<Sys> {
    if |events| == 0 then Some(st)
    else
      var before := Exec(cap, st, events[..|events| - 1]);
      if before.None? then None else Step(cap, before.value, events[|events| - 1])
  }

  // ---- What a stale write loses ----

  /** The call is about to write, and another call has written since it read. */
  predicate StaleWrite(cap: nat, st: Sys, ev: Event) {
    Writes(cap, st, ev) && st.calls[ev.tid].at != st.writes
  }

  /** How many writes of a schedule are stale. */
  function StaleWrites(cap: nat, events: seq<Event>): nat {
    if |events| == 0 then 0
    else
      var n := |events| - 1;
      var before := Exec(cap, FRESH, events[..n]);
      StaleWrites(cap, events[..n]) + if before.Some? && StaleWrite(cap, before.value, events[n]) then 1 else 0
  }

  /** What a call read: no more than there were writes, and what is stored if there was no write since. */
  predicate ReadSound(st: Sys, ph: Phase) {
    ph.Seen? ==> ph.count <= ph.at <= st.writes && (ph.at == st.writes ==> ph.count == Stored(st))
  }

  ghost predicate Inv(cap: nat, st: Sys) {
    && Stored(st) <= st.writes && Stored(st) <= cap
    && (forall tid :: tid in st.calls ==> ReadSound(st, st.calls[tid]))
    && (forall tid :: tid in st.calls ==>
          && (st.calls[tid].Seen? && st.inserter != Some(tid) ==> st.row.Some?)
          && (st.calls[tid].Conflicted? ==> st.row.Some?)
          && !st.calls[tid].Unavailable?)
    && (st.inserter.Some? ==> st.row.None? && st.inserter.value in st.calls && st.calls[st.inserter.value].Seen?)
    && (st.row.None? ==> st.writes == 0)
  }

  lemma StepKeepsInv(cap: nat, st: Sys, ev: Event)
    requires Inv(cap, st) && Step(cap, st, ev).Some?
    ensures Inv(cap, Step(cap, st, ev).value)
  {
  }

  /** A write raises the stored counter with the number of writes, unless it is stale; then it falls behind. */
  lemma StepLoses(cap: nat, st: Sys, ev: Event)
    requires Inv(cap, st) && Step(cap, st, ev).Some?
    ensures var st' := Step(cap, st, ev).value;
            && st'.writes == st.writes + (if Writes(cap, st, ev) then 1 else 0)
            && (Stored(st') == st'.writes <==> Stored(st) == st.writes && !StaleWrite(cap, st, ev))
  {
    if Writes(cap, st, ev) {
      assert ReadSound(st, st.calls[ev.tid]);
    }
  }

  function AdmittedCalls(st: Sys): set<nat> {
    set tid | tid in st.calls && st.calls[tid].Admitted?
  }

  lemma StepCounts(cap: nat, st: Sys, ev: Event)
    requires Step(cap, st, ev).Some? && |AdmittedCalls(st)| == st.writes
    ensures |AdmittedCalls(Step(cap, st, ev).value)| == Step(cap, st, ev).value.writes
  {
    var st' := Step(cap, st, ev).value;
    if Writes(cap, st, ev) {
      assert AdmittedCalls(st') == AdmittedCalls(st) + {ev.tid};
    } else {
      assert AdmittedCalls(st') == AdmittedCalls(st);
    }
  }

  /**
   * In every interleaving, first inserts included: each admitted call writes once, the stored counter never
   * exceeds the number of admitted calls, and it equals that number exactly when no write is stale, that is when no
   * call was counted between another's read and its write.
   */
  lemma {:induction false} IncrementsLost(cap: nat, events: seq<Event>)
    requires Exec(cap, FRESH, events).Some?
    ensures var st := Exec(cap, FRESH, events).value;
            && Inv(cap, st) && |AdmittedCalls(st)| == st.writes
            && Stored(st) <= st.writes
            && (Stored(st) == st.writes <==> StaleWrites(cap, events) == 0)
  {
    if |events| > 0 {
      var n := |events| - 1;
      IncrementsLost(cap, events[..n]);
      var st := Exec(cap, FRESH, events[..n]).value;
      StepKeepsInv(cap, st, events[n]);
      StepLoses(cap, st, events[n]);
      StepCounts(cap, st, events[n]);
    }
  }

  /** The 503 for a conflict without a row does not occur, and no call is stuck behind anything but an insert. */
  lemma CallsProceed(cap: nat, st: Sys, tid: nat)
    requires Inv(cap, st) && tid in st.calls
    ensures !st.calls[tid].Unavailable?
    ensures st.calls[tid].Started? ==> Step(cap, st, Select(tid)).Some?
    ensures st.calls[tid].NoRow? ==>
              if st.inserter.None? then Step(cap, st, Insert(tid)).Some?
              else Step(cap, st, Finish(st.inserter.value)).Some?
    ensures st.calls[tid].Conflicted? ==> Step(cap, st, Reselect(tid)).Some?
    ensures st.calls[tid].Seen? ==> Step(cap, st, Finish(tid)).Some?
  {
  }

  /**
   * A call is admitted only below the cap and refused only at it, by the count it read; none is dropped; and what a
   * call reads is the stored count, also after a conflict.
   */
  lemma VerdictByCount(cap: nat, st: Sys, ev: Event, tid: nat)
    requires Inv(cap, st) && Step(cap, st, ev).Some? && tid in st.calls
    ensures var was, after := st.calls[tid], Step(cap, st, ev).value;
            && tid in after.calls
            && (after.calls[tid] != was && after.calls[tid].Admitted? ==> was.Seen? && was.count < cap)
            && (after.calls[tid] != was && after.calls[tid].Refused? ==> was.Seen? && was.count >= cap)
            && (ev == Reselect(tid) ==> after.calls[tid] == Seen(Stored(st), st.writes))
            && (ev == Select(tid) && st.row.Some? ==> after.calls[tid] == Seen(Stored(st), st.writes))
  {
  }

  // ---- What this does to the key's daily cap ----

  /** Without a stale write the cap holds. */
  lemma SerialWritesKeepCap(cap: nat, events: seq<Event>)
    requires Exec(cap, FRESH, events).Some? && StaleWrites(cap, events) == 0
    ensures |AdmittedCalls(Exec(cap, FRESH, events).value)| <= cap
  {
    IncrementsLost(cap, events);
  }

  /** With a cap of one, only the call that inserts the row reads a count below it. */
  ghost predicate OneInv(st: Sys) {
    && (st.row.Some? ==> st.row.value == 1) && st.writes <= 1
    && (forall tid :: tid in st.calls && st.calls[tid].Seen? && st.calls[tid].count == 0 ==> st.inserter == Some(tid))
  }

  lemma {:induction false} CapOfOneHolds(events: seq<Event>)
    requires Exec(1, FRESH, events).Some?
    ensures Inv(1, Exec(1, FRESH, events).value) && OneInv(Exec(1, FRESH, events).value)
  {
    if |events| > 0 {
      var n := |events| - 1;
      CapOfOneHolds(events[..n]);
      StepKeepsInv(1, Exec(1, FRESH, events[..n]).value, events[n]);
      StepKeepsOne(Exec(1, FRESH, events[..n]).value, events[n]);
    }
  }

  lemma StepKeepsOne(st: Sys, ev: Event)
    requires Inv(1, st) && OneInv(st) && Step(1, st, ev).Some?
    ensures OneInv(Step(1, st, ev).value)
  {
  }

  /** A set of states that no statement leaves. */
  ghost predicate Closed(cap: nat, states: iset<Sys>) {
    forall st, ev :: st in states && Step(cap, st, ev).Some? ==> Step(cap, st, ev).value in states
  }

  lemma Next(cap: nat, states: iset<Sys>, st: Sys, ev: Event, st': Sys)
    requires Closed(cap, states) && st in states && Step(cap, st, ev) == Some(st')
    ensures st' in states
  {
  }

  /** One call has been counted, and k further calls have read its 1. */
  function Readers(k: nat): map<nat, Phase> {
    if k == 0 then map[0 := Admitted] else Readers(k - 1)[k := Seen(1, 1)]
  }

  /** The first j of those k have written. */
  function Finished(k: nat, j: nat): map<nat, Phase> {
    if j == 0 then Readers(k) else Finished(k, j - 1)[j := Admitted]
  }

  lemma {:induction false} ReadersAre(k: nat)
    ensures forall t: nat :: (t in Readers(k) <==> t <= k) && (1 <= t <= k ==> Readers(k)[t] == Seen(1, 1))
  {
    if k > 0 {
      ReadersAre(k - 1);
    }
  }

  lemma {:induction false} FinishedAre(k: nat, j: nat)
    requires j <= k
    ensures forall t: nat :: (t in Finished(k, j) <==> t <= k) && (j < t <= k ==> Finished(k, j)[t] == Seen(1, 1))
  {
    if j == 0 {
      ReadersAre(k);
    } else {
      FinishedAre(k, j - 1);
    }
  }

  lemma {:induction false} AllRead(cap: nat, states: iset<Sys>, k: nat)
    requires Closed(cap, states) && FRESH in states && cap > 0
    ensures Sys(Some(1), None, Readers(k), 1) in states
  {
    if k == 0 {
      var s1 := Sys(None, None, map[0 := Started], 0);
      var s2 := Sys(None, None, map[0 := NoRow], 0);
      var s3 := Sys(None, Some(0), map[0 := Seen(0, 0)], 0);
      assert s1.calls[0 := NoRow] == s2.calls && s2.calls[0 := Seen(0, 0)] == s3.calls;
      assert s3.calls[0 := Admitted] == Readers(0);
      Next(cap, states, FRESH, Begin(0), s1);
      Next(cap, states, s1, Select(0), s2);
      Next(cap, states, s2, Insert(0), s3);
      Next(cap, states, s3, Finish(0), Sys(Some(1), None, Readers(0), 1));
    } else {
      AllRead(cap, states, k - 1);
      ReadersAre(k - 1);
      var st := Sys(Some(1), None, Readers(k - 1), 1);
      Next(cap, states, st, Begin(k), Goes(st, k, Started));
      assert Goes(Goes(st, k, Started), k, Seen(1, 1)).calls == Readers(k);
      Next(cap, states, Goes(st, k, Started), Select(k), Sys(Some(1), None, Readers(k), 1));
    }
  }

  lemma {:induction false} AllFinish(cap: nat, states: iset<Sys>, k: nat, j: nat)
    requires Closed(cap, states) && FRESH in states && cap >= 2 && j <= k
    ensures Sys(Some(if j == 0 then 1 else 2), None, Finished(k, j), 1 + j) in states
  {
    if j == 0 {
      AllRead(cap, states, k);
    } else {
      AllFinish(cap, states, k, j - 1);
      FinishedAre(k, j - 1);
      var st := Sys(Some(if j == 1 then 1 else 2), None, Finished(k, j - 1), j);
      Next(cap, states, st, Finish(j), Sys(Some(2), None, Finished(k, j), 1 + j));
    }
  }

  ghost function Reachable(cap: nat): iset<Sys> {
    iset st | exists events :: Exec(cap, FRESH, events) == Some(st)
  }

  lemma ReachableIsClosed(cap: nat)
    ensures Closed(cap, Reachable(cap)) && FRESH in Reachable(cap)
  {
    forall st, ev | st in Reachable(cap) && Step(cap, st, ev).Some?
      ensures Step(cap, st, ev).value in Reachable(cap)
    {
      var events :| Exec(cap, FRESH, events) == Some(st);
      assert (events + [ev])[..|events|] == events;
      assert Exec(cap, FRESH, events + [ev]) == Step(cap, st, ev);
    }
    assert Exec(cap, FRESH, []) == Some(FRESH);
  }

  /** From a cap of two on, any number of calls can be admitted while the counter stands at two. */
  lemma AnyNumberAdmitted(cap: nat, n: nat)
    requires cap >= 2 && n >= 2
    ensures exists st :: st in Reachable(cap) && st.writes == n && Stored(st) == 2
  {
    ReachableIsClosed(cap);
    AllFinish(cap, Reachable(cap), n - 1, n - 1);
    assert Stored(Sys(Some(2), None, Finished(n - 1, n - 1), n)) == 2;
  }

  /** The key's daily cap bounds the admitted calls in every interleaving exactly when it is at most one. */
  lemma KeyCapIff(cap: nat)
    ensures (forall st :: st in Reachable(cap) ==> |AdmittedCalls(st)| <= cap) <==> cap <= 1
  {
    if cap <= 1 {
      forall st | st in Reachable(cap)
        ensures |AdmittedCalls(st)| <= cap
      {
        var events :| Exec(cap, FRESH, events) == Some(st);
        IncrementsLost(cap, events);
        if cap == 1 {
          CapOfOneHolds(events);
        } else {
          NoneUnderZero(events);
        }
      }
    } else {
      AnyNumberAdmitted(cap, cap + 1);
      var st :| st in Reachable(cap) && st.writes == cap + 1;
      var events :| Exec(cap, FRESH, events) == Some(st);
      IncrementsLost(cap, events);
    }
  }

  lemma {:induction false} NoneUnderZero(events: seq<Event>)
    requires Exec(0, FRESH, events).Some?
    ensures Exec(0, FRESH, events).value.writes == 0
  {
    if |events| > 0 {
      NoneUnderZero(events[..|events| - 1]);
    }
  }

  // ---- Alone, a call is the serial one ----

  function RowOf(rows: Table, g: Group): Option<nat> {
    var i := Find(rows, g);
    if i.None? then None else Some(rows[i.value].trigger)
  }

  lemma RowOfAdd(rows: Table, g: Group, trigger: nat)
    ensures RowOf(Add(rows, g, 0, trigger), g) == Some(TriggerOf(rows, g) + trigger)
  {
    AddFinds(rows, g, 0, trigger);
    var i, after := Find(rows, g), Add(rows, g, 0, trigger);
    assert after[if i.Some? then i.value else |rows|].group == g;
  }

  /** The statements of one call, one after another with none in between. */
  function CallAlone(cap: nat, st: Sys, tid: nat): Option<Sys>
    requires st.inserter.None? && tid !in st.calls
  {
    var begun := Step(cap, st, Begin(tid)).value;
    var selected := Step(cap, begun, Select(tid)).value;
    var read := if st.row.Some? then selected else Step(cap, selected, Insert(tid)).value;
    Step(cap, read, Finish(tid))
  }

  /** It leaves one more than was stored below the cap, and the same at the cap. */
  lemma AloneCounts(cap: nat, st: Sys, tid: nat)
    requires st.inserter.None? && tid !in st.calls
    ensures var after, fits := CallAlone(cap, st, tid), Stored(st) < cap;
            && after.Some? && after.value.inserter.None?
            && after.value.row == Some(if fits then Stored(st) + 1 else Stored(st))
            && tid in after.value.calls && after.value.calls[tid] == if fits then Admitted else Refused
  {
  }

  lemma SerialCounts(lim: Limits, rows: Table, key: nat, now: int)
    requires GlobalToday(rows, StartOfDay(now)) < lim.globalDailyLlm
    ensures var g := TriggerGroup(Some(key), now);
            var (rows', admitted) := Do(lim, rows, Trigger(key, now));
            && admitted == (TriggerOf(rows, g) < lim.triggerPerDay)
            && rows' == Add(rows, g, 0, if admitted then 1 else 0)
  {
  }

  /** A call that no other overlaps does to its row what the serial transition does to the table, and passes alike. */
  lemma AloneIsSerial(lim: Limits, rows: Table, key: nat, now: int, st: Sys, tid: nat)
    requires GlobalToday(rows, StartOfDay(now)) < lim.globalDailyLlm
    requires st.inserter.None? && tid !in st.calls && st.row == RowOf(rows, TriggerGroup(Some(key), now))
    ensures var after := CallAlone(lim.triggerPerDay, st, tid);
            var (rows', admitted) := Do(lim, rows, Trigger(key, now));
            && after.Some? && after.value.inserter.None?
            && after.value.row == RowOf(rows', TriggerGroup(Some(key), now))
            && tid in after.value.calls && after.value.calls[tid] == if admitted then Admitted else Refused
  {
    AloneCounts(lim.triggerPerDay, st, tid);
    SerialCounts(lim, rows, key, now);
    RowOfAdd(rows, TriggerGroup(Some(key), now), if Stored(st) < lim.triggerPerDay then 1 else 0);
    assert Stored(st) == TriggerOf(rows, TriggerGroup(Some(key), now));
  }
}

/**
 * The daily LLM budget under concurrent keyless callers, statement by statement (app/core/ratelimit.py,
 * `check_and_count_llm_global` and `_bump_global_trigger`): the day's sum is checked, then one unit is counted.
 */
module LlmBudget {
  import opened Basics

  /**
   * The NULL-keyed trigger row of the day, and how many callers stand before each statement: the check, the
   * SELECT, the UPDATE of a found row, the INSERT of a missing one, the UPDATE after a conflict. Callers carry
   * nothing that tells them apart. `admitted` counts those that passed the check and have returned.
   */
  datatype Sys = Sys(row: Option<nat>, checking: nat, passed: nat, found: nat, missing: nat, conflicted: nat,
                     admitted: nat)

  /** One statement of some caller. */
  datatype Event = Enter | Check | Select | Update | Insert | Retry

  /** The units counted today. */
  function Counted(st: Sys): nat {
    if st.row.Some? then st.row.value else 0
  }

  /** Callers that passed the check and have not returned. */
  function Promised(st: Sys): nat {
    st.passed + st.found + st.missing + st.conflicted
  }

  function InFlight(st: Sys): nat {
    st.checking + Promised(st)
  }

  /** The increment in SQL, under the row lock, and the return. */
  function Increment(st: Sys): Sys {
    st.(row := Some(Counted(st) + 1), admitted := st.admitted + 1)
  }

  /** At most `most` callers are in flight at once; `cap` is GLOBAL_DAILY_LLM_CAP. None: this cannot happen now. */
  function Step(cap: nat, most: nat, st: Sys, ev: Event): Option<Sys> {
    match ev
    case Enter => if InFlight(st) >= most then None else Some(st.(checking := st.checking + 1))
    case Check =>
      if st.checking == 0 then None
      else if Counted(st) >= cap then Some(st.(checking := st.checking - 1))
      else Some(st.(checking := st.checking - 1, passed := st.passed + 1))
    case Select =>
      if st.passed == 0 then None
      else if st.row.Some? then Some(st.(passed := st.passed - 1, found := st.found + 1))
      else Some(st.(passed := st.passed - 1, missing := st.missing + 1))
    case Update =>
      if st.found == 0 || st.row.None? then None else Some(Increment(st.(found := st.found - 1)))
    case Insert =>
      if st.missing == 0 then None
      else if st.row.Some? then Some(st.(missing := st.missing - 1, conflicted := st.conflicted + 1))
      else Some(Increment(st.(missing := st.missing - 1)))
    case Retry =>
      if st.conflicted == 0 || st.row.None? then None else Some(Increment(st.(conflicted := st.conflicted - 1)))
  }

  const MORNING: Sys := Sys(None, 0, 0, 0, 0, 0, 0)

  function Exec(cap: nat, most: nat, events: seq<Event>): Option<Sys> {
    if |events| == 0 then Some(MORNING)
    else
      var before := Exec(cap, most, events[..|events| - 1]);
      if before.None? then None else Step(cap, most, before.value, events[|events| - 1])
  }

  /**
   * Every admitted caller that returned is counted, racing first inserts included; and as one that passed will
   * count, units counted and promised stay below the cap plus the callers in flight.
   */
  ghost predicate Inv(cap: nat, most: nat, st: Sys) {
    && Counted(st) == st.admitted && (st.found + st.conflicted > 0 ==> st.row.Some?)
    && InFlight(st) <= most && Counted(st) + Promised(st) <= cap + most - 1
  }

  lemma StepKeepsInv(cap: nat, most: nat, st: Sys, ev: Event)
    requires Inv(cap, most, st) && Step(cap, most, st, ev).Some?
    ensures Inv(cap, most, Step(cap, most, st, ev).value)
  {
  }

  /**
   * In every interleaving with at most m keyless callers in flight the day's counted units are exactly the
   * admitted callers that returned, and never exceed cap + m - 1.
   */
  lemma {:induction false} OverrunBounded(cap: nat, most: nat, events: seq<Event>)
    requires most > 0 && Exec(cap, most, events).Some?
    ensures Inv(cap, most, Exec(cap, most, events).value)
    ensures Counted(Exec(cap, most, events).value) == Exec(cap, most, events).value.admitted <= cap + most - 1
  {
    if |events| > 0 {
      OverrunBounded(cap, most, events[..|events| - 1]);
      StepKeepsInv(cap, most, Exec(cap, most, events[..|events| - 1]).value, events[|events| - 1]);
    }
  }

  /** The check of a caller that finds room under the cap. */
  predicate Passes(cap: nat, st: Sys, ev: Event) {
    ev.Check? && st.checking > 0 && Counted(st) < cap
  }

  /** How many checks of a schedule do. */
  function PassCount(cap: nat, most: nat, events: seq<Event>): nat {
    if |events| == 0 then 0
    else
      var n := |events| - 1;
      var before := Exec(cap, most, events[..n]);
      PassCount(cap, most, events[..n]) + if before.Some? && Passes(cap, before.value, events[n]) then 1 else 0
  }

  lemma {:induction false} PassedReturnOrPromise(cap: nat, most: nat, events: seq<Event>)
    requires Exec(cap, most, events).Some?
    ensures PassCount(cap, most, events)
            == Exec(cap, most, events).value.admitted + Promised(Exec(cap, most, events).value)
  {
    if |events| > 0 {
      var n := |events| - 1;
      PassedReturnOrPromise(cap, most, events[..n]);
      StepConserves(cap, most, Exec(cap, most, events[..n]).value, events[n]);
    }
  }

  /**
   * No caller gets away uncounted: in every interleaving the callers that passed the check are those counted and
   * those still in flight, so when nobody is in flight the day's units are exactly the calls let through.
   */
  lemma PassedAreCounted(cap: nat, most: nat, events: seq<Event>)
    requires most > 0 && Exec(cap, most, events).Some?
    ensures var st := Exec(cap, most, events).value;
            && PassCount(cap, most, events) == Counted(st) + Promised(st)
            && (InFlight(st) == 0 ==> Counted(st) == PassCount(cap, most, events))
  {
    OverrunBounded(cap, most, events);
    PassedReturnOrPromise(cap, most, events);
  }

  lemma StepConserves(cap: nat, most: nat, st: Sys, ev: Event)
    requires Step(cap, most, st, ev).Some?
    ensures var after := Step(cap, most, st, ev).value;
            after.admitted + Promised(after)
            == st.admitted + Promised(st) + if Passes(cap, st, ev) then 1 else 0
  {
  }

  /** No caller is ever stuck: whoever is in flight can make the next statement, and none of them undoes a count. */
  lemma CallersAlwaysProceed(cap: nat, most: nat, st: Sys)
    requires Inv(cap, most, st)
    ensures st.checking > 0 ==> Step(cap, most, st, Check).Some?
    ensures st.passed > 0 ==> Step(cap, most, st, Select).Some?
    ensures st.found > 0 ==> Step(cap, most, st, Update).Some?
    ensures st.missing > 0 ==> Step(cap, most, st, Insert).Some?
    ensures st.conflicted > 0 ==> Step(cap, most, st, Retry).Some?
  {
  }

  // ---- The bound is reached ----

  /** A set of states that no statement leaves. */
  ghost predicate Closed(cap: nat, most: nat, states: iset<Sys>) {
    forall st, ev :: st in states && Step(cap, most, st, ev).Some? ==> Step(cap, most, st, ev).value in states
  }

  lemma Next(cap: nat, most: nat, states: iset<Sys>, st: Sys, ev: Event, st': Sys)
    requires Closed(cap, most, states) && st in states && Step(cap, most, st, ev) == Some(st')
    ensures st' in states
  {
  }

  /** When n callers have counted: the row is there once n > 0. */
  function RowAfter(n: nat): Option<nat> {
    if n == 0 then None else Some(n)
  }

  /** n callers have counted and returned, and k have passed the check and not looked for the row. */
  function Waiting(n: nat, k: nat): Sys {
    Sys(RowAfter(n), 0, k, 0, 0, 0, n)
  }

  /** A caller enters and passes the check. */
  lemma PassNext(cap: nat, most: nat, states: iset<Sys>, n: nat, k: nat)
    requires Closed(cap, most, states) && Waiting(n, k) in states && n < cap && k < most
    ensures Waiting(n, k + 1) in states
  {
    var entered := Waiting(n, k).(checking := 1);
    Next(cap, most, states, Waiting(n, k), Enter, entered);
    Next(cap, most, states, entered, Check, Waiting(n, k + 1));
  }

  /** A caller that passed counts its unit, with the update or the first insert. */
  lemma CountNext(cap: nat, most: nat, states: iset<Sys>, n: nat, k: nat)
    requires Closed(cap, most, states) && Waiting(n, k) in states && k > 0
    ensures Waiting(n + 1, k - 1) in states
  {
    if n == 0 {
      var looked := Waiting(n, k - 1).(missing := 1);
      Next(cap, most, states, Waiting(n, k), Select, looked);
      Next(cap, most, states, looked, Insert, Waiting(n + 1, k - 1));
    } else {
      var looked := Waiting(n, k - 1).(found := 1);
      Next(cap, most, states, Waiting(n, k), Select, looked);
      Next(cap, most, states, looked, Update, Waiting(n + 1, k - 1));
    }
  }

  /** n callers one after another count n units, while the cap is not reached. */
  lemma {:induction false} OneByOne(cap: nat, most: nat, states: iset<Sys>, n: nat)
    requires Closed(cap, most, states) && MORNING in states && most > 0 && n <= cap
    ensures Waiting(n, 0) in states
  {
    if n > 0 {
      OneByOne(cap, most, states, n - 1);
      PassNext(cap, most, states, n - 1, 0);
      CountNext(cap, most, states, n - 1, 1);
    }
  }

  /** From there, k callers can all pass the check before any of them counts. */
  lemma {:induction false} AllPass(cap: nat, most: nat, states: iset<Sys>, n: nat, k: nat)
    requires Closed(cap, most, states) && Waiting(n, 0) in states && n < cap && k <= most
    ensures Waiting(n, k) in states
  {
    if k > 0 {
      AllPass(cap, most, states, n, k - 1);
      PassNext(cap, most, states, n, k - 1);
    }
  }

  lemma {:induction false} AllCount(cap: nat, most: nat, states: iset<Sys>, n: nat, k: nat)
    requires Closed(cap, most, states) && Waiting(n, k) in states
    ensures Waiting(n + k, 0) in states
    decreases k
  {
    if k > 0 {
      CountNext(cap, most, states, n, k);
      AllCount(cap, most, states, n + 1, k - 1);
    }
  }

  ghost function Reachable(cap: nat, most: nat): iset<Sys> {
    iset st | exists events :: Exec(cap, most, events) == Some(st)
  }

  lemma ReachableIsClosed(cap: nat, most: nat)
    ensures Closed(cap, most, Reachable(cap, most)) && MORNING in Reachable(cap, most)
  {
    forall st, ev | st in Reachable(cap, most) && Step(cap, most, st, ev).Some?
      ensures Step(cap, most, st, ev).value in Reachable(cap, most)
    {
      var events :| Exec(cap, most, events) == Some(st);
      assert (events + [ev])[..|events|] == events;
      assert Exec(cap, most, events + [ev]) == Step(cap, most, st, ev);
    }
    assert Exec(cap, most, []) == Some(MORNING);
  }

  /** The bound is exact: some interleaving of m callers counts cap + m - 1 units. */
  lemma OverrunReached(cap: nat, most: nat)
    requires cap > 0 && most > 0
    ensures exists st :: st in Reachable(cap, most) && Counted(st) == cap + most - 1
  {
    ReachableIsClosed(cap, most);
    OneByOne(cap, most, Reachable(cap, most), cap - 1);
    AllPass(cap, most, Reachable(cap, most), cap - 1, most);
    AllCount(cap, most, Reachable(cap, most), cap - 1, most);
    assert Counted(Waiting(cap + most - 1, 0)) == cap + most - 1;
  }
}

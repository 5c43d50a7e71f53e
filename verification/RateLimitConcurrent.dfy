/** The limiter's counters under concurrent callers, statement by statement (app/core/ratelimit.py). */
module RateLimitConcurrent {
  import opened Basics
  import opened Calendar

  // ---- `_bump_minute`: one (key, bucket), every window ----

  /** Where a call stands: after its SELECT, after a failed INSERT, or returned. */
  datatype Phase = Started | FoundRow | NoRow | Conflicted | Returned(count: nat)

  datatype Caller = Caller(now: int, phase: Phase)

  /** The unique index allows one row per window, so the rows of one (key, bucket) are a map. */
  datatype Sys = Sys(counts: map<int, nat>, calls: map<nat, Caller>)

  datatype Event =
    | Begin(tid: nat, now: int)
    | Select(tid: nat)
    | Update(tid: nat)
    | Insert(tid: nat)
    | Retry(tid: nat)

  const FRESH: Sys := Sys(map[], map[])

  function WindowOf(c: Caller): int {
    StartOfMinute(c.now)
  }

  function CountIn(st: Sys, w: int): nat {
    if w in st.counts then st.counts[w] else 0
  }

  function Goes(st: Sys, tid: nat, ph: Phase): Sys
    requires tid in st.calls
  {
    st.(calls := st.calls[tid := st.calls[tid].(phase := ph)])
  }

  /** `count = count + 1 ... RETURNING count` under the row lock, then commit. */
  function Increment(st: Sys, tid: nat): Sys
    requires tid in st.calls
  {
    var w := WindowOf(st.calls[tid]);
    Goes(st, tid, Returned(CountIn(st, w) + 1)).(counts := st.counts[w := CountIn(st, w) + 1])
  }

  function Step(st: Sys, ev: Event): Option<Sys> {
    match ev
    case Begin(tid, now) =>
      if tid in st.calls then None else Some(st.(calls := st.calls[tid := Caller(now, Started)]))
    case Select(tid) =>
      if tid !in st.calls || st.calls[tid].phase != Started then None
      else Some(Goes(st, tid, if WindowOf(st.calls[tid]) in st.counts then FoundRow else NoRow))
    case Update(tid) =>
      if tid !in st.calls || st.calls[tid].phase != FoundRow || WindowOf(st.calls[tid]) !in st.counts then None
      else Some(Increment(st, tid))
    case Insert(tid) =>
      if tid !in st.calls || st.calls[tid].phase != NoRow then None
      else if WindowOf(st.calls[tid]) in st.counts then Some(Goes(st, tid, Conflicted))
      else Some(Goes(st, tid, Returned(1)).(counts := st.counts[WindowOf(st.calls[tid]) := 1]))
    case Retry(tid) =>
      if tid !in st.calls || st.calls[tid].phase != Conflicted || WindowOf(st.calls[tid]) !in st.counts then None
      else Some(Increment(st, tid))
  }

  function Exec(events: seq<Event>): Option<Sys> {
    if |events| == 0 then Some(FRESH)
    else
      var before := Exec(events[..|events| - 1]);
      if before.None? then None else Step(before.value, events[|events| - 1])
  }

  predicate ReturnedIn(st: Sys, tid: nat, w: int, r: int) {
    tid in st.calls && WindowOf(st.calls[tid]) == w && st.calls[tid].phase.Returned? && st.calls[tid].phase.count == r
  }

  ghost predicate SomeoneGot(st: Sys, w: int, r: int) {
    exists tid :: ReturnedIn(st, tid, w, r)
  }

  /** The returned values of a window are 1 to its counter, each once. */
  ghost predicate Inv(st: Sys) {
    && (forall tid, w, r :: ReturnedIn(st, tid, w, r) ==> 1 <= r <= CountIn(st, w))
    && (forall tid, tid', w, r :: ReturnedIn(st, tid, w, r) && ReturnedIn(st, tid', w, r) ==> tid == tid')
    && (forall w, r :: 1 <= r <= CountIn(st, w) ==> SomeoneGot(st, w, r))
    && (forall tid :: tid in st.calls && (st.calls[tid].phase.FoundRow? || st.calls[tid].phase.Conflicted?) ==>
          WindowOf(st.calls[tid]) in st.counts)
  }

  lemma StepKeepsInv(st: Sys, ev: Event)
    requires Inv(st) && Step(st, ev).Some?
    ensures Inv(Step(st, ev).value)
  {
    var st' := Step(st, ev).value;
    assert forall tid, w, r :: tid != ev.tid ==> (ReturnedIn(st', tid, w, r) <==> ReturnedIn(st, tid, w, r));
    forall w, r | 1 <= r <= CountIn(st', w)
      ensures SomeoneGot(st', w, r)
    {
      if r <= CountIn(st, w) {
        assert SomeoneGot(st, w, r);
        var tid :| ReturnedIn(st, tid, w, r);
        assert ReturnedIn(st', tid, w, r);
      } else {
        assert ReturnedIn(st', ev.tid, w, r);
      }
    }
  }

  lemma {:induction false} InvInEveryInterleaving(events: seq<Event>)
    requires Exec(events).Some?
    ensures Inv(Exec(events).value)
  {
    if |events| > 0 {
      InvInEveryInterleaving(events[..|events| - 1]);
      StepKeepsInv(Exec(events[..|events| - 1]).value, events[|events| - 1]);
    }
  }

  /** No call is ever stuck: whatever the others did, a call that has not returned can make its next statement. */
  lemma CallsAlwaysProceed(st: Sys, tid: nat)
    requires Inv(st) && tid in st.calls && !st.calls[tid].phase.Returned?
    ensures Step(st, match st.calls[tid].phase
                     case Started => Select(tid)
                     case FoundRow => Update(tid)
                     case NoRow => Insert(tid)
                     case Conflicted => Retry(tid)
                     case Returned(_) => Select(tid)).Some?
  {
  }

  function CallsIn(st: Sys, w: int): set<nat> {
    set tid | tid in st.calls && WindowOf(st.calls[tid]) == w
  }

  function AdmittedIn(st: Sys, w: int, limit: nat): set<nat> {
    set tid | tid in st.calls && WindowOf(st.calls[tid]) == w
              && st.calls[tid].phase.Returned? && st.calls[tid].phase.count <= limit
  }

  /** The calls of a window that returned at most n number exactly n, as long as the counter got that far. */
  lemma {:induction false} AdmittedCount(st: Sys, w: int, n: nat)
    requires Inv(st) && n <= CountIn(st, w)
    ensures |AdmittedIn(st, w, n)| == n
  {
    if n == 0 {
      forall tid | tid in AdmittedIn(st, w, 0)
        ensures false
      {
        assert ReturnedIn(st, tid, w, st.calls[tid].phase.count);
      }
      assert AdmittedIn(st, w, 0) == {};
    } else {
      AdmittedCount(st, w, n - 1);
      assert SomeoneGot(st, w, n);
      var tid :| ReturnedIn(st, tid, w, n);
      forall other | other in AdmittedIn(st, w, n)
        ensures other in AdmittedIn(st, w, n - 1) + {tid}
      {
        assert ReturnedIn(st, other, w, st.calls[other].phase.count);
      }
      assert AdmittedIn(st, w, n) == AdmittedIn(st, w, n - 1) + {tid};
    }
  }

  lemma AdmittedAtMost(st: Sys, w: int, limit: nat)
    requires Inv(st)
    ensures |AdmittedIn(st, w, limit)| == Min(limit, CountIn(st, w))
  {
    if limit <= CountIn(st, w) {
      AdmittedCount(st, w, limit);
    } else {
      AdmittedCount(st, w, CountIn(st, w));
      forall tid | tid in AdmittedIn(st, w, limit)
        ensures tid in AdmittedIn(st, w, CountIn(st, w))
      {
        assert ReturnedIn(st, tid, w, st.calls[tid].phase.count);
      }
      assert AdmittedIn(st, w, limit) == AdmittedIn(st, w, CountIn(st, w));
    }
  }

  /**
   * No increment is lost in any interleaving, racing first inserts included: once the n calls of a window
   * have all returned, the counter is n, the values they got are exactly 1 to n, and exactly
   * min(n, limit) of them are admitted.
   */
  lemma NoIncrementLost(events: seq<Event>, w: int, limit: nat)
    requires Exec(events).Some?
    requires forall tid :: tid in CallsIn(Exec(events).value, w) ==> Exec(events).value.calls[tid].phase.Returned?
    ensures var st := Exec(events).value;
            var n := |CallsIn(st, w)|;
            && CountIn(st, w) == n
            && (forall r :: 1 <= r <= n <==> SomeoneGot(st, w, r))
            && |AdmittedIn(st, w, limit)| == Min(n, limit)
  {
    InvInEveryInterleaving(events);
    var st := Exec(events).value;
    AdmittedCount(st, w, CountIn(st, w));
    AdmittedAtMost(st, w, limit);
    forall tid | tid in CallsIn(st, w)
      ensures tid in AdmittedIn(st, w, CountIn(st, w))
    {
      assert ReturnedIn(st, tid, w, st.calls[tid].phase.count);
    }
    assert CallsIn(st, w) == AdmittedIn(st, w, CountIn(st, w));
  }

  function AdmittedBetween(st: Sys, from: int, until: int, limit: nat): set<nat> {
    set tid | tid in st.calls && from <= st.calls[tid].now < until
              && st.calls[tid].phase.Returned? && st.calls[tid].phase.count <= limit
  }

  lemma SubsetOfUnion(a: set<nat>, b: set<nat>, c: set<nat>)
    requires a <= b + c
    ensures |a| <= |b| + |c|
  {
    assert |b + c| == |b| + |c - b| by { assert b + c == b + (c - b); }
    assert |c - b| <= |c| by { assert c == (c - b) + (c * b); }
    SubsetCount(a, b + c);
  }

  /** The price of fixed windows: any 60 seconds, wherever they start, admit at most twice the limit. */
  lemma AnySixtySeconds(events: seq<Event>, from: int, limit: nat)
    requires Exec(events).Some?
    ensures |AdmittedBetween(Exec(events).value, from, from + MINUTE, limit)| <= 2 * limit
  {
    InvInEveryInterleaving(events);
    var st := Exec(events).value;
    var w, until := StartOfMinute(from), from + MINUTE;
    var first, second := AdmittedIn(st, w, limit), AdmittedIn(st, w + MINUTE, limit);
    AdmittedAtMost(st, w, limit);
    AdmittedAtMost(st, w + MINUTE, limit);
    forall tid | tid in AdmittedBetween(st, from, until, limit)
      ensures tid in first + second
    {
      TwoWindows(from, st.calls[tid].now);
    }
    SubsetOfUnion(AdmittedBetween(st, from, until, limit), first, second);
  }

  lemma TwoWindows(from: int, t: int)
    requires from <= t < from + MINUTE
    ensures StartOfMinute(t) == StartOfMinute(from) || StartOfMinute(t) == StartOfMinute(from) + MINUTE
  {
  }
}

/**
 * How far concurrent callers of one key overrun its daily cap (app/core/ratelimit.py, `check_and_count_trigger`),
 * when at most a given number of them are in flight at once: exactly to a binomial coefficient.
 */
module KeyedOverrun {
  import opened Basics
  import opened KeyedTriggers

  // ---- Paths(n, r) is the binomial coefficient of n + r over r ----

  function Paths(n: nat, r: nat): nat
    ensures Paths(n, r) > 0
  {
    if n == 0 || r == 0 then 1 else Paths(n - 1, r) + Paths(n, r - 1)
  }

  function Factorial(n: nat): nat {
    if n == 0 then 1 else n * Factorial(n - 1)
  }

  lemma {:induction false} PathsIsBinomial(n: nat, r: nat)
    ensures Paths(n, r) * (Factorial(n) * Factorial(r)) == Factorial(n + r)
  {
    if n > 0 && r > 0 {
      PathsIsBinomial(n - 1, r);
      PathsIsBinomial(n, r - 1);
      var f, g := Factorial(n - 1), Factorial(r - 1);
      BinomialStep(Paths(n - 1, r), Paths(n, r - 1), n, r, f, g, Factorial(n + r - 1));
    }
  }

  lemma BinomialStep(p: nat, q: nat, n: nat, r: nat, f: nat, g: nat, all: nat)
    requires p * (f * (r * g)) == all && q * ((n * f) * g) == all
    ensures (p + q) * ((n * f) * (r * g)) == (n + r) * all
  {
    var t := (n * f) * (r * g);
    Associate(n, f, r * g);
    assert t == n * (f * (r * g));
    Associate(r, g, n * f);
    assert t == r * ((n * f) * g);
    PullOut(p, n, f * (r * g));
    PullOut(q, r, (n * f) * g);
    Distribute(p, q, t);
    Distribute(n, r, all);
  }

  lemma Associate(a: nat, b: nat, c: nat)
    ensures (a * b) * c == a * (b * c) && c * (a * b) == a * (c * b)
  {
  }

  lemma PullOut(a: nat, b: nat, c: nat)
    ensures a * (b * c) == b * (a * c)
  {
  }

  lemma Distribute(a: nat, b: nat, c: nat)
    ensures (a + b) * c == a * c + b * c
  {
  }

  lemma {:induction false} PathsMonotone(n: nat, r: nat, r': nat)
    requires r <= r'
    ensures Paths(n, r) <= Paths(n, r')
  {
    if r < r' {
      PathsMonotone(n, r, r' - 1);
    }
  }

  lemma {:induction false} PathsOfOne(n: nat)
    ensures Paths(n, 1) == n + 1
  {
    if n > 0 {
      PathsOfOne(n - 1);
    }
  }

  lemma {:induction false} PathsOfTwo(n: nat)
    ensures 2 * Paths(n, 2) == (n + 1) * (n + 2)
  {
    PathsOfOne(n);
    if n > 0 {
      PathsOfTwo(n - 1);
    }
  }

  // ---- At most `most` calls in flight ----

  function InFlight(st: Sys): set<nat> {
    set tid | tid in st.calls && !st.calls[tid].Admitted? && !st.calls[tid].Refused? && !st.calls[tid].Unavailable?
  }

  function StepWithin(cap: nat, most: nat, st: Sys, ev: Event): Option<Sys> {
    if ev.Begin? && |InFlight(st)| >= most then None else Step(cap, st, ev)
  }

  function ExecWithin(cap: nat, most: nat, events: seq<Event>): Option<Sys> {
    if |events| == 0 then Some(FRESH)
    else
      var before := ExecWithin(cap, most, events[..|events| - 1]);
      if before.None? then None else StepWithin(cap, most, before.value, events[|events| - 1])
  }

  // ---- What can still be admitted ----

  /** The calls that have read x, or less than x. */
  function Readers(st: Sys, x: nat): set<nat> {
    set tid | tid in st.calls && st.calls[tid].Seen? && st.calls[tid].count == x
  }

  function ReadersBelow(st: Sys, x: nat): set<nat> {
    set tid | tid in st.calls && st.calls[tid].Seen? && st.calls[tid].count < x
  }

  /** The slots that hold no read below the cap; each can still read what is stored. */
  function Free(cap: nat, most: nat, st: Sys): nat {
    if |ReadersBelow(st, cap)| <= most then most - |ReadersBelow(st, cap)| else 0
  }

  /** How many slots stand at x: they have read it, or are free while it is stored. */
  function Level(cap: nat, most: nat, st: Sys, x: nat): nat {
    |Readers(st, x)| + if x == Stored(st) then Free(cap, most, st) else 0
  }

  function Levels(cap: nat, most: nat, st: Sys): nat -> nat {
    x => Level(cap, most, st, x)
  }

  /**
   * Written in ascending order, the slots' values form a weakly increasing sequence of values up to the cap. This is
   * the number of such sequences, with r slots and values from x on, that come after the one with c(y) slots at y.
   */
  function Ahead(cap: nat, c: nat -> nat, x: nat, r: nat): int
    requires x <= cap
    decreases cap - x
  {
    if x == cap then 0
    else
      var k := Min(c(x), r);
      Paths(cap - x, r) - Paths(cap - x, r - k) + Ahead(cap, c, x + 1, r - k)
  }

  lemma {:induction false} AheadBounds(cap: nat, c: nat -> nat, x: nat, r: nat)
    requires x <= cap
    ensures 0 <= Ahead(cap, c, x, r) <= Paths(cap - x, r) - 1
    decreases cap - x
  {
    if x < cap {
      var k := Min(c(x), r);
      AheadBounds(cap, c, x + 1, r - k);
      PathsMonotone(cap - x, r - k, r);
    }
  }

  lemma {:induction false} AheadSame(cap: nat, c: nat -> nat, c': nat -> nat, x: nat, r: nat)
    requires x <= cap && forall y: nat :: x <= y < cap ==> c(y) == c'(y)
    ensures Ahead(cap, c, x, r) == Ahead(cap, c', x, r)
    decreases cap - x
  {
    if x < cap {
      AheadSame(cap, c, c', x + 1, r - Min(c(x), r));
    }
  }

  function Sum(c: nat -> nat, x: nat, y: nat): nat
    requires x <= y
    decreases y - x
  {
    if x == y then 0 else c(x) + Sum(c, x + 1, y)
  }

  /** Fewer slots at the lowest value that differs: the sequence comes later, so fewer are ahead. */
  lemma {:induction false} AheadDrops(cap: nat, c: nat -> nat, c': nat -> nat, x: nat, y: nat, r: nat)
    requires x <= y < cap && (forall z: nat :: x <= z < y ==> c(z) == c'(z)) && c'(y) < c(y)
    requires Sum(c, x, y + 1) <= r
    ensures Ahead(cap, c', x, r) < Ahead(cap, c, x, r)
    decreases cap - x
  {
    if x < y {
      AheadDrops(cap, c, c', x + 1, y, r - c(x));
    } else {
      assert Sum(c, x, x + 1) == c(x) + Sum(c, x + 1, x + 1);
      DropsAt(cap, c, c', x, r);
    }
  }

  lemma DropsAt(cap: nat, c: nat -> nat, c': nat -> nat, x: nat, r: nat)
    requires x < cap && c'(x) < c(x) <= r
    ensures Ahead(cap, c', x, r) < Ahead(cap, c, x, r)
  {
    var n, k, k' := cap - x, c(x), c'(x);
    AheadBounds(cap, c, x + 1, r - k);
    AheadBounds(cap, c', x + 1, r - k');
    assert Paths(n, r - k') == Paths(n - 1, r - k') + Paths(n, r - k' - 1);
    PathsMonotone(n, r - k, r - k' - 1);
  }

  // ---- How the statements move it ----

  lemma ReadersSplit(st: Sys, x: nat)
    ensures ReadersBelow(st, x + 1) == ReadersBelow(st, x) + Readers(st, x)
    ensures |ReadersBelow(st, x + 1)| == |ReadersBelow(st, x)| + |Readers(st, x)|
  {
    assert ReadersBelow(st, x) !! Readers(st, x);
  }

  lemma {:induction false} SumSnoc(c: nat -> nat, x: nat, y: nat)
    requires x <= y
    ensures Sum(c, x, y + 1) == Sum(c, x, y) + c(y)
    decreases y - x
  {
    if x < y {
      SumSnoc(c, x + 1, y);
    } else {
      assert Sum(c, x, x + 1) == c(x) + Sum(c, x + 1, x + 1);
    }
  }

  lemma {:induction false} LevelSum(cap: nat, most: nat, st: Sys, x: nat)
    ensures Sum(Levels(cap, most, st), 0, x)
            == |ReadersBelow(st, x)| + if Stored(st) < x then Free(cap, most, st) else 0
  {
    if x == 0 {
      assert ReadersBelow(st, 0) == {};
    } else {
      LevelSum(cap, most, st, x - 1);
      SumSnoc(Levels(cap, most, st), 0, x - 1);
      ReadersSplit(st, x - 1);
    }
  }

  lemma ReadersWithin(cap: nat, most: nat, st: Sys, x: nat)
    requires |InFlight(st)| <= most && x <= cap
    ensures |ReadersBelow(st, x)| <= |ReadersBelow(st, cap)| <= most
    ensures Sum(Levels(cap, most, st), 0, x) <= most
  {
    SubsetCount(ReadersBelow(st, x), ReadersBelow(st, cap));
    SubsetCount(ReadersBelow(st, cap), InFlight(st));
    LevelSum(cap, most, st, x);
  }

  /** A call that reads what is stored moves no slot. */
  lemma ReadKeepsLevels(cap: nat, most: nat, st: Sys, st': Sys, tid: nat, x: nat)
    requires tid in st.calls && !st.calls[tid].Seen? && |InFlight(st)| <= most && tid in InFlight(st)
    requires st'.calls == st.calls[tid := Seen(Stored(st), st.writes)] && Stored(st') == Stored(st) && x < cap
    ensures Level(cap, most, st', x) == Level(cap, most, st, x)
  {
    if Stored(st) < cap {
      assert ReadersBelow(st', cap) == ReadersBelow(st, cap) + {tid};
      OneMore(ReadersBelow(st, cap), tid);
      SubsetCount(ReadersBelow(st, cap) + {tid}, InFlight(st));
    } else {
      assert ReadersBelow(st', cap) == ReadersBelow(st, cap);
    }
    if x == Stored(st) {
      assert Readers(st', x) == Readers(st, x) + {tid};
      OneMore(Readers(st, x), tid);
    } else {
      assert Readers(st', x) == Readers(st, x);
    }
  }

  lemma OneMore(ids: set<nat>, tid: nat)
    requires tid !in ids
    ensures |ids + {tid}| == |ids| + 1
  {
  }

  /** A statement that reads and writes no count moves no slot, and neither does a refusal. */
  lemma QuietKeepsLevels(cap: nat, most: nat, st: Sys, st': Sys, tid: nat, ph: Phase, x: nat)
    requires st'.calls == st.calls[tid := ph] && !ph.Seen? && Stored(st') == Stored(st) && x < cap
    requires tid in st.calls && st.calls[tid].Seen? ==> st.calls[tid].count >= cap
    ensures Level(cap, most, st', x) == Level(cap, most, st, x)
  {
    assert Readers(st', x) == Readers(st, x);
    assert ReadersBelow(st', cap) == ReadersBelow(st, cap);
  }

  /** A write frees its slot and takes all free slots to the value it wrote. */
  lemma WriteMovesLevels(cap: nat, most: nat, st: Sys, st': Sys, tid: nat)
    requires tid in st.calls && st.calls[tid].Seen? && st.calls[tid].count < cap && |InFlight(st)| <= most
    requires st'.calls == st.calls[tid := Admitted] && st'.row == Some(st.calls[tid].count + 1)
    ensures Ahead(cap, Levels(cap, most, st'), 0, most) < Ahead(cap, Levels(cap, most, st), 0, most)
  {
    var h, v := st.calls[tid].count, Stored(st);
    var y := if v < h && Free(cap, most, st) > 0 then v else h;
    assert Readers(st', h) == Readers(st, h) - {tid};
    assert tid in Readers(st, h);
    assert forall x: nat :: x != h ==> Readers(st', x) == Readers(st, x);
    ReadersWithin(cap, most, st, y + 1);
    AheadDrops(cap, Levels(cap, most, st), Levels(cap, most, st'), 0, y, most);
  }

  // ---- The bound ----

  function Bound(cap: nat, most: nat): nat {
    if cap == 0 then 0 else Paths(cap - 1, most)
  }

  ghost predicate InvWithin(cap: nat, most: nat, st: Sys) {
    && Inv(cap, st) && |AdmittedCalls(st)| == st.writes && |InFlight(st)| <= most
    && (cap == 0 ==> st.writes == 0)
    && (cap > 0 && st.row.Some? ==> st.writes + Ahead(cap, Levels(cap, most, st), 0, most) <= Paths(cap - 1, most))
  }

  lemma StepKeepsInFlight(cap: nat, most: nat, st: Sys, ev: Event)
    requires StepWithin(cap, most, st, ev).Some? && |InFlight(st)| <= most
    ensures |InFlight(StepWithin(cap, most, st, ev).value)| <= most
  {
    var after := InFlight(StepWithin(cap, most, st, ev).value);
    if ev.Begin? {
      assert after == InFlight(st) + {ev.tid};
    } else {
      SubsetCount(after, InFlight(st));
    }
  }

  /** After the first write all slots stand at one. */
  lemma FirstWrite(cap: nat, most: nat, st: Sys, st': Sys, tid: nat)
    requires Inv(cap, st) && st.row.None? && cap > 0
    requires tid in st.calls && st.calls[tid].Seen? && st.calls[tid].count < cap && |InFlight(st)| <= most
    requires st'.calls == st.calls[tid := Admitted] && st'.row == Some(st.calls[tid].count + 1)
    ensures Ahead(cap, Levels(cap, most, st'), 0, most) <= Paths(cap - 1, most) - 1
  {
    assert ReadSound(st, st.calls[tid]);
    assert Readers(st', 0) == {};
    assert Ahead(cap, Levels(cap, most, st'), 0, most) == Ahead(cap, Levels(cap, most, st'), 1, most);
    AheadBounds(cap, Levels(cap, most, st'), 1, most);
  }

  /** Without a write, no slot moves. */
  lemma NoWriteKeepsAhead(cap: nat, most: nat, st: Sys, ev: Event)
    requires Inv(cap, st) && |InFlight(st)| <= most && StepWithin(cap, most, st, ev).Some? && !Writes(cap, st, ev)
    ensures var st' := StepWithin(cap, most, st, ev).value;
            Ahead(cap, Levels(cap, most, st'), 0, most) == Ahead(cap, Levels(cap, most, st), 0, most)
  {
    var st' := StepWithin(cap, most, st, ev).value;
    forall x: nat | x < cap
      ensures Level(cap, most, st', x) == Level(cap, most, st, x)
    {
      if st'.calls[ev.tid].Seen? {
        ReadKeepsLevels(cap, most, st, st', ev.tid, x);
      } else {
        QuietKeepsLevels(cap, most, st, st', ev.tid, st'.calls[ev.tid], x);
      }
    }
    AheadSame(cap, Levels(cap, most, st'), Levels(cap, most, st), 0, most);
  }

  lemma StepKeepsWithin(cap: nat, most: nat, st: Sys, ev: Event)
    requires InvWithin(cap, most, st) && StepWithin(cap, most, st, ev).Some?
    ensures InvWithin(cap, most, StepWithin(cap, most, st, ev).value)
  {
    var st' := StepWithin(cap, most, st, ev).value;
    StepKeepsInv(cap, st, ev);
    StepCounts(cap, st, ev);
    StepKeepsInFlight(cap, most, st, ev);
    if Writes(cap, st, ev) {
      if st.row.Some? {
        WriteMovesLevels(cap, most, st, st', ev.tid);
      } else {
        FirstWrite(cap, most, st, st', ev.tid);
      }
    } else {
      NoWriteKeepsAhead(cap, most, st, ev);
    }
  }

  /** With at most `most` calls in flight, no interleaving admits more than the bound. */
  lemma {:induction false} AdmittedWithin(cap: nat, most: nat, events: seq<Event>)
    requires ExecWithin(cap, most, events).Some?
    ensures InvWithin(cap, most, ExecWithin(cap, most, events).value)
    ensures |AdmittedCalls(ExecWithin(cap, most, events).value)| <= Bound(cap, most)
  {
    if |events| > 0 {
      var n := |events| - 1;
      AdmittedWithin(cap, most, events[..n]);
      StepKeepsWithin(cap, most, ExecWithin(cap, most, events[..n]).value, events[n]);
    }
    var st := ExecWithin(cap, most, events).value;
    AheadBounds(cap, Levels(cap, most, st), 0, most);
  }

  // ---- The bound is reached ----

  ghost function ReachableWithin(cap: nat, most: nat): iset<Sys> {
    iset st | exists events :: ExecWithin(cap, most, events) == Some(st)
  }

  /** A set of states that no statement leaves. */
  ghost predicate NoneLeaves(cap: nat, most: nat, states: iset<Sys>) {
    forall st, ev :: st in states && StepWithin(cap, most, st, ev).Some? ==>
      StepWithin(cap, most, st, ev).value in states
  }

  lemma ReachableStays(cap: nat, most: nat)
    ensures NoneLeaves(cap, most, ReachableWithin(cap, most)) && FRESH in ReachableWithin(cap, most)
  {
    forall st, ev | st in ReachableWithin(cap, most) && StepWithin(cap, most, st, ev).Some?
      ensures StepWithin(cap, most, st, ev).value in ReachableWithin(cap, most)
    {
      var events :| ExecWithin(cap, most, events) == Some(st);
      assert (events + [ev])[..|events|] == events;
      assert ExecWithin(cap, most, events + [ev]) == StepWithin(cap, most, st, ev);
    }
    assert ExecWithin(cap, most, []) == Some(FRESH);
  }

  lemma GoOn(cap: nat, most: nat, states: iset<Sys>, st: Sys, ev: Event, st': Sys)
    requires NoneLeaves(cap, most, states) && st in states && StepWithin(cap, most, st, ev) == Some(st')
    ensures st' in states
  {
  }

  /** A row is there, nobody inserts, and the ids from `next` on are unused. */
  ghost predicate Steady(cap: nat, st: Sys, next: nat) {
    st.row.Some? && st.inserter.None? && Stored(st) <= cap && forall tid :: tid in st.calls ==> tid < next
  }

  /** The calls in flight are the same, and stand where they stood. */
  ghost predicate SameInFlight(st: Sys, st': Sys) {
    InFlight(st') == InFlight(st) && forall tid :: tid in InFlight(st) ==> st'.calls[tid] == st.calls[tid]
  }

  /** A new call starts and reads the stored counter. */
  lemma ReadNext(cap: nat, most: nat, states: iset<Sys>, st: Sys, tid: nat) returns (st': Sys)
    requires NoneLeaves(cap, most, states) && st in states && Steady(cap, st, tid) && |InFlight(st)| < most
    ensures st' in states && st' == Goes(st, tid, Seen(Stored(st), st.writes))
    ensures Steady(cap, st', tid + 1) && InFlight(st') == InFlight(st) + {tid} && |InFlight(st')| == |InFlight(st)| + 1
  {
    var begun := Goes(st, tid, Started);
    st' := Goes(st, tid, Seen(Stored(st), st.writes));
    GoOn(cap, most, states, st, Begin(tid), begun);
    assert Goes(begun, tid, Seen(Stored(st), st.writes)) == st';
    GoOn(cap, most, states, begun, Select(tid), st');
    assert InFlight(st') == InFlight(st) + {tid};
  }

  /** And writes, whatever was written since. */
  lemma WriteNext(cap: nat, most: nat, states: iset<Sys>, st: Sys, tid: nat, next: nat) returns (st': Sys)
    requires NoneLeaves(cap, most, states) && st in states && Steady(cap, st, next)
    requires tid in st.calls && st.calls[tid].Seen? && st.calls[tid].count < cap
    ensures st' in states && Steady(cap, st', next)
    ensures Stored(st') == st.calls[tid].count + 1 && st'.writes == st.writes + 1
    ensures InFlight(st') == InFlight(st) - {tid}
    ensures forall other :: other in InFlight(st') ==> st'.calls[other] == st.calls[other]
  {
    st' := DoFinish(cap, st, tid).value;
    GoOn(cap, most, states, st, Finish(tid), st');
  }

  /**
   * k free slots can admit Paths(cap - v, k) - 1 calls from a stored v on: one slot reads v and waits, the others
   * admit what they can, the first writes v + 1, and all k go on from there.
   */
  lemma {:induction false} Burn(cap: nat, most: nat, states: iset<Sys>, st: Sys, k: nat, next: nat)
    returns (st': Sys, next': nat)
    requires NoneLeaves(cap, most, states) && st in states && Steady(cap, st, next) && |InFlight(st)| + k <= most
    ensures st' in states && Steady(cap, st', next') && SameInFlight(st, st')
    ensures next <= next' && st'.writes == st.writes + Paths(cap - Stored(st), k) - 1
    decreases cap - Stored(st), k
  {
    var v := Stored(st);
    if k == 0 || v == cap {
      st', next' := st, next;
    } else {
      var waiting := ReadNext(cap, most, states, st, next);
      var s3, n3 := Burn(cap, most, states, waiting, k - 1, next + 1);
      assert next in InFlight(waiting) && s3.calls[next] == Seen(v, st.writes);
      var s4 := WriteNext(cap, most, states, s3, next, n3);
      assert InFlight(s4) == InFlight(st);
      st', next' := Burn(cap, most, states, s4, k, n3);
    }
  }

  /** The first call of the day, alone. */
  lemma FirstCall(cap: nat, most: nat, states: iset<Sys>) returns (st: Sys)
    requires NoneLeaves(cap, most, states) && FRESH in states && cap > 0 && most > 0
    ensures st in states && Steady(cap, st, 1) && Stored(st) == 1 && st.writes == 1 && InFlight(st) == {}
  {
    var s1 := Sys(None, None, map[0 := Started], 0);
    var s2 := Sys(None, None, map[0 := NoRow], 0);
    var s3 := Sys(None, Some(0), map[0 := Seen(0, 0)], 0);
    st := Sys(Some(1), None, map[0 := Admitted], 1);
    assert InFlight(FRESH) == {};
    assert s1.calls[0 := NoRow] == s2.calls && s2.calls[0 := Seen(0, 0)] == s3.calls;
    assert s3.calls[0 := Admitted] == st.calls;
    GoOn(cap, most, states, FRESH, Begin(0), s1);
    GoOn(cap, most, states, s1, Select(0), s2);
    GoOn(cap, most, states, s2, Insert(0), s3);
    GoOn(cap, most, states, s3, Finish(0), st);
  }

  /** The bound is exact. */
  lemma BoundReached(cap: nat, most: nat) returns (st: Sys)
    requires most > 0
    ensures st in ReachableWithin(cap, most) && |AdmittedCalls(st)| == Bound(cap, most)
  {
    ReachableStays(cap, most);
    if cap == 0 {
      st := FRESH;
    } else {
      var first := FirstCall(cap, most, ReachableWithin(cap, most));
      var next;
      st, next := Burn(cap, most, ReachableWithin(cap, most), first, most, 1);
    }
    ReachableCounts(cap, most, st);
  }

  lemma ReachableCounts(cap: nat, most: nat, st: Sys)
    requires st in ReachableWithin(cap, most)
    ensures |AdmittedCalls(st)| == st.writes <= Bound(cap, most) && Stored(st) <= cap
  {
    var events :| ExecWithin(cap, most, events) == Some(st);
    AdmittedWithin(cap, most, events);
  }

  // ---- What this does to the caps ----

  /** A number bounds the admitted calls in every interleaving exactly when it is at least the bound. */
  lemma BoundIsLeast(cap: nat, most: nat, limit: nat)
    requires most > 0
    ensures (forall st :: st in ReachableWithin(cap, most) ==> |AdmittedCalls(st)| <= limit)
            <==> Bound(cap, most) <= limit
  {
    forall st | st in ReachableWithin(cap, most)
      ensures |AdmittedCalls(st)| <= Bound(cap, most)
    {
      ReachableCounts(cap, most, st);
    }
    var st := BoundReached(cap, most);
  }

  /** So with at most `most` calls in flight the key's cap holds exactly when it is at most one, or no two overlap. */
  lemma KeyCapWithinIff(cap: nat, most: nat)
    requires most > 0
    ensures (forall st :: st in ReachableWithin(cap, most) ==> |AdmittedCalls(st)| <= cap) <==> cap <= 1 || most == 1
  {
    BoundIsLeast(cap, most, cap);
    if cap > 0 {
      PathsOfOne(cap - 1);
      if cap > 1 && most > 1 {
        PathsMonotone(cap - 1, 2, most);
        assert Paths(cap - 1, 2) == Paths(cap - 2, 2) + Paths(cap - 1, 1);
      }
    }
  }

  /**
   * And on a day on which one key alone spends, with a cap below the global one: the global check never refuses,
   * since the stored counter stays within the key's cap, and the global cap holds exactly when it is at least the
   * bound.
   */
  lemma GlobalCapIff(cap: nat, most: nat, globalCap: nat)
    requires most > 0 && cap < globalCap
    ensures forall st :: st in ReachableWithin(cap, most) ==> Stored(st) < globalCap
    ensures (forall st :: st in ReachableWithin(cap, most) ==> |AdmittedCalls(st)| <= globalCap)
            <==> Bound(cap, most) <= globalCap
  {
    BoundIsLeast(cap, most, globalCap);
    forall st | st in ReachableWithin(cap, most)
      ensures Stored(st) < globalCap
    {
      ReachableCounts(cap, most, st);
    }
  }

  /** Two overlapping callers can be admitted cap * (cap + 1) / 2 times: 20100 times for the default cap of 200. */
  lemma TwoCallersBound(cap: nat)
    ensures 2 * Bound(cap, 2) == cap * (cap + 1)
  {
    if cap > 0 {
      PathsOfTwo(cap - 1);
    }
  }
}

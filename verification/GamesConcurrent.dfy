/**
 * Submits interleaved statement by statement. `_serialize_daily_writes` takes a transaction-scoped
 * advisory lock on (player, game, day of `now`); every later statement reads the committed ledger;
 * the row is stamped when it is flushed, and the lock is released at commit or rollback.
 */
module GamesConcurrent {
  import opened Basics
  import opened Bits
  import opened Calendar
  import opened Ledger
  import opened GamesService

  // ---- The lock key ----

  const P27: int := 0x8000000
  const P10: int := 0x400
  const P25: int := 0x2000000
  const P35: int := 0x8_0000_0000
  const P62: int := 0x4000_0000_0000_0000

  const PLAYER_BITS: nat := 27
  const GAME_BITS: nat := 10
  const DAY_BITS: nat := 25

  /** The key as the code computes it: its masks 0x7FFFFFF, 0x3FF and 0x1FFFFFF are 27, 10 and 25 ones. */
  function PackedKey(player: nat, game: nat, day: int): nat {
    Or(Or(Field(player, PLAYER_BITS, GAME_BITS + DAY_BITS), Field(game, GAME_BITS, DAY_BITS)), Field(day, DAY_BITS, 0))
  }

  /** The same key by arithmetic: the three masked fields do not overlap, so `|` adds them. */
  function LockKey(player: nat, game: nat, day: int): int {
    (player % P27) * P35 + (game % P10) * P25 + day % P25
  }

  lemma Powers()
    ensures Pow2(0) == 1 && Pow2(10) == P10 && Pow2(25) == P25 && Pow2(27) == P27 && Pow2(35) == P35
  {
    Pow2Five(0);
    Pow2Five(5);
    Pow2Five(10);
    Pow2Five(15);
    Pow2Five(20);
    Pow2Five(25);
    Pow2Five(30);
    assert Pow2(27) == 2 * Pow2(26) && Pow2(26) == 2 * Pow2(25);
  }

  lemma FieldIs(x: int, width: nat, shift: nat, m: nat)
    requires Pow2(width) == m
    ensures Field(x, width, shift) == (x % m) * Pow2(shift)
  {
    MaskIsRemainder(x, width);
  }

  /** The bit expression is that sum. */
  lemma PackedKeyIsLockKey(player: nat, game: nat, day: int)
    ensures PackedKey(player, game, day) == LockKey(player, game, day)
  {
    Powers();
    FieldIs(player, PLAYER_BITS, GAME_BITS + DAY_BITS, P27);
    FieldIs(game, GAME_BITS, DAY_BITS, P10);
    FieldIs(day, DAY_BITS, 0, P25);
    FieldsAdd(player % P27, game % P10, day % P25);
  }

  /** Each masked field can be read back from the key, so masking is the only loss, and it fits a signed bigint. */
  lemma PackedKeyFields(player: nat, game: nat, day: int)
    ensures var k := PackedKey(player, game, day);
            && k < P62
            && k / P35 == player % P27 && k / P25 % P10 == game % P10 && k % P25 == day % P25
  {
    PackedKeyIsLockKey(player, game, day);
    FieldsReadBack(player % P27, game % P10, day % P25);
  }

  lemma FieldsReadBack(a: nat, b: nat, c: nat)
    requires a < P27 && b < P10 && c < P25
    ensures var k := a * P35 + b * P25 + c;
            k < P62 && k / P35 == a && k / P25 % P10 == b && k % P25 == c
  {
    var k := a * P35 + b * P25 + c;
    assert b * P25 + c < P35;
    assert k == (a * P10 + b) * P25 + c;
    assert k / P25 == a * P10 + b;
  }

  lemma FieldsAdd(a: nat, b: nat, c: nat)
    requires a < P27 && b < P10 && c < P25
    ensures Or(Or(a * Pow2(35), b * Pow2(25)), c) == a * P35 + b * P25 + c
  {
    Powers();
    assert b * P25 < P35;
    OrIsSum(a, b * P25, 35);
    assert a * P35 + b * P25 == (a * P10 + b) * P25;
    OrIsSum(a * P10 + b, c, 25);
  }

  lemma LockKeyFields(player: nat, game: nat, day: int)
    requires player < P27 && game < P10 && 0 <= day < P25
    ensures LockKey(player, game, day) == player * P35 + (game * P25 + day)
  {
    assert player % P27 == player && game % P10 == game && day % P25 == day;
  }

  /** Within the field widths two different (player, game, day) never share a key, and a key fits a signed bigint. */
  lemma LockKeyInjective(player: nat, game: nat, day: int, player': nat, game': nat, day': int)
    requires player < P27 && game < P10 && 0 <= day < P25
    requires player' < P27 && game' < P10 && 0 <= day' < P25
    ensures 0 <= LockKey(player, game, day) < P62
    ensures LockKey(player, game, day) == LockKey(player', game', day')
            <==> player == player' && game == game' && day == day'
  {
    LockKeyFields(player, game, day);
    LockKeyFields(player', game', day');
    DigitsInjective(player, game, day, player', game', day');
  }

  /** So the key the code takes the lock on tells (player, game, day) apart within the field widths. */
  lemma PackedKeyInjective(player: nat, game: nat, day: int, player': nat, game': nat, day': int)
    requires player < P27 && game < P10 && 0 <= day < P25
    requires player' < P27 && game' < P10 && 0 <= day' < P25
    ensures PackedKey(player, game, day) == PackedKey(player', game', day')
            <==> player == player' && game == game' && day == day'
  {
    PackedKeyIsLockKey(player, game, day);
    PackedKeyIsLockKey(player', game', day');
    LockKeyInjective(player, game, day, player', game', day');
  }

  lemma DigitsInjective(a: nat, b: nat, c: int, a': nat, b': nat, c': int)
    requires a < P27 && b < P10 && 0 <= c < P25 && b' < P10 && 0 <= c' < P25
    ensures 0 <= a * P35 + (b * P25 + c) < P62
    ensures a * P35 + (b * P25 + c) == a' * P35 + (b' * P25 + c') <==> a == a' && b == b' && c == c'
  {
    var low, low' := b * P25 + c, b' * P25 + c';
    assert 0 <= low < P35 && 0 <= low' < P35;
  }

  // ---- The machine ----

  datatype Phase =
    | Waiting
    | Holding
    | Chosen(target: Option<nat>, play: Play)
    | Priced(target: Option<nat>, play: Play, points: int)

  datatype Tx = Tx(job: Submit, phase: Phase)

  datatype Sys = Sys(rows: seq<Attempt>, txs: map<nat, Tx>, locks: map<int, nat>)

  datatype Event =
    | Begin(tid: nat, job: Submit)
    | Lock(tid: nat)
    | Choose(tid: nat)
    | Price(tid: nat)
    | Commit(tid: nat, stamp: int)

  const IDLE: Sys := Sys([], map[], map[])

  function KeyOf(j: Submit): int {
    LockKey(j.player, j.game, RoundOf(j))
  }

  function Advance(st: Sys, tid: nat, phase: Phase): Sys
    requires tid in st.txs
  {
    st.(txs := st.txs[tid := st.txs[tid].(phase := phase)])
  }

  /** Commit or rollback: the transaction and its lock are gone. */
  function Release(st: Sys, tid: nat): Sys
    requires tid in st.txs
  {
    st.(txs := st.txs - {tid}, locks := st.locks - {KeyOf(st.txs[tid].job)})
  }

  /** The row to write and the validated play, read under the lock; None is a refusal. */
  function ChooseRow(e: Engine, rows: seq<Attempt>, j: Submit): Option<Phase> {
    var payload := e.generateRound(RoundOf(j));
    if e.singleAttemptPerRound then
      var existing := LatestAttempt(rows, j.game, RoundOf(j), j.player);
      if existing.Some? && rows[existing.value].detail.finished then None
      else
        var prior := if existing.Some? then Some(rows[existing.value].detail) else None;
        var play := e.validateAttempt(payload, j.body, prior);
        if play.None? then None else Some(Chosen(existing, play.value))
    else if !j.isMember && AttemptCount(rows, j.game, RoundOf(j), j.player) >= e.nonmemberRoundPlayCap then None
    else
      var play := e.validateAttempt(payload, j.body, None);
      if play.None? then None else Some(Chosen(None, play.value))
  }

  function PriceNow(e: Engine, rows: seq<Attempt>, j: Submit, play: Play): int {
    if e.singleAttemptPerRound then SinglePoints(e, rows, j, play) else AwardPoints(e, rows, j, play)
  }

  function Written(rows: seq<Attempt>, j: Submit, ph: Phase): seq<Attempt>
    requires ph.Priced? && (ph.target.Some? ==> ph.target.value < |rows|)
  {
    if ph.target.Some? then
      var row := rows[ph.target.value];
      rows[ph.target.value := row.(rawScore := ph.play.rawScore, detail := ph.play.detail,
        isMemberPlay := j.isMember, surface := NewSurface(row.surface, j.surface), points := ph.points)]
    else rows + [NewRow(j, ph.play, ph.points)]
  }

  /** A shape says which (day of `now`, day of the stamp) pairs the clock lets a submit have. */
  type Shape = (int, int) -> bool

  /** One statement of one transaction; None when it cannot happen now. */
  function Step(engines: map<nat, Engine>, shape: Shape, st: Sys, ev: Event): Option<Sys> {
    match ev
    case Begin(tid, job) =>
      if tid in st.txs || job.game !in engines then None
      else Some(st.(txs := st.txs[tid := Tx(job, Waiting)]))
    case Lock(tid) =>
      if tid !in st.txs || !st.txs[tid].phase.Waiting? || KeyOf(st.txs[tid].job) in st.locks then None
      else Some(Advance(st, tid, Holding).(locks := st.locks[KeyOf(st.txs[tid].job) := tid]))
    case Choose(tid) =>
      if tid !in st.txs || !st.txs[tid].phase.Holding? || st.txs[tid].job.game !in engines then None
      else
        var j := st.txs[tid].job;
        var chosen := ChooseRow(engines[j.game], st.rows, j);
        if chosen.None? then Some(Release(st, tid)) else Some(Advance(st, tid, chosen.value))
    case Price(tid) =>
      if tid !in st.txs || !st.txs[tid].phase.Chosen? || st.txs[tid].job.game !in engines then None
      else
        var Tx(j, ph) := st.txs[tid];
        Some(Advance(st, tid, Priced(ph.target, ph.play, PriceNow(engines[j.game], st.rows, j, ph.play))))
    case Commit(tid, stamp) =>
      if tid !in st.txs || !st.txs[tid].phase.Priced? then None
      else
        var Tx(j, ph) := st.txs[tid];
        if ph.target.Some? then
          if ph.target.value >= |st.rows| then None
          else Some(Release(st, tid).(rows := Written(st.rows, j, ph)))
        else if stamp < j.now || !shape(RoundOf(j), DayOf(stamp)) then None
        else Some(Release(st, tid).(rows := Written(st.rows, j.(stamp := stamp), ph)))
  }

  /** The state after a schedule, when every step of it can happen. */
  function Exec(engines: map<nat, Engine>, shape: Shape, events: seq<Event>): Option<Sys> {
    if |events| == 0 then Some(IDLE)
    else
      var before := Exec(engines, shape, events[..|events| - 1]);
      if before.None? then None else Step(engines, shape, before.value, events[|events| - 1])
  }

  // ---- What the lock alone protects ----

  predicate Holds(st: Sys, tid: nat) {
    tid in st.txs && !st.txs[tid].phase.Waiting?
  }

  predicate SameSlot(j: Submit, k: Submit) {
    j.game == k.game && j.player == k.player && RoundOf(j) == RoundOf(k)
  }

  /** A transaction past the lock owns its key, so two of them never share a (player, game, day). */
  ghost predicate LocksOwned(st: Sys) {
    forall tid :: Holds(st, tid) ==> KeyOf(st.txs[tid].job) in st.locks && st.locks[KeyOf(st.txs[tid].job)] == tid
  }

  ghost predicate ChoiceStands(engines: map<nat, Engine>, rows: seq<Attempt>, tx: Tx) {
    var j := tx.job;
    j.game in engines &&
    (tx.phase.Chosen? || tx.phase.Priced? ==>
      && (tx.phase.target.Some? ==>
            tx.phase.target.value < |rows| && SameRound(rows[tx.phase.target.value], j.game, RoundOf(j), j.player)
            && engines[j.game].singleAttemptPerRound && !rows[tx.phase.target.value].detail.finished)
      && (Coherent(engines[j.game]) && tx.phase.play.finished ==> tx.phase.play.detail.finished)
      && (engines[j.game].singleAttemptPerRound && tx.phase.Priced? && !tx.phase.play.finished ==> tx.phase.points == 0)
      && (engines[j.game].singleAttemptPerRound && tx.phase.target.None? ==>
            LatestAttempt(rows, j.game, RoundOf(j), j.player).None?)
      && (!engines[j.game].singleAttemptPerRound && !j.isMember ==>
            AttemptCount(rows, j.game, RoundOf(j), j.player) < engines[j.game].nonmemberRoundPlayCap))
  }

  ghost predicate SlotInv(engines: map<nat, Engine>, st: Sys) {
    && LocksOwned(st)
    && (forall tid :: tid in st.txs ==> ChoiceStands(engines, st.rows, st.txs[tid]))
    && MachineInv(engines, st.rows)
  }

  lemma {:induction false} CountUpdate(rows: seq<Attempt>, i: nat, a: Attempt, g: nat, r: int, p: nat)
    requires i < |rows| && SameRound(a, rows[i].game, rows[i].round, rows[i].player)
    ensures AttemptCount(rows[i := a], g, r, p) == AttemptCount(rows, g, r, p)
  {
    var n := |rows| - 1;
    if i == n {
      assert rows[i := a][..n] == rows[..n];
    } else {
      assert rows[i := a][..n] == rows[..n][i := a];
      CountUpdate(rows[..n], i, a, g, r, p);
    }
  }

  /** A committed write is invisible to the choice of any transaction on another slot. */
  lemma WriteKeepsChoice(engines: map<nat, Engine>, rows: seq<Attempt>, j: Submit, ph: Phase, tx: Tx)
    requires ph.Priced? && ChoiceStands(engines, rows, Tx(j, ph)) && ChoiceStands(engines, rows, tx)
    requires !SameSlot(j, tx.job)
    ensures ChoiceStands(engines, Written(rows, j, ph), tx)
  {
    var k := tx.job;
    var after := Written(rows, j, ph);
    if ph.target.Some? {
      CountUpdate(rows, ph.target.value, after[ph.target.value], k.game, RoundOf(k), k.player);
    } else {
      assert after[..|rows|] == rows;
    }
    assert forall i :: 0 <= i < |after| && SameRound(after[i], k.game, RoundOf(k), k.player) ==>
      i < |rows| && SameRound(rows[i], k.game, RoundOf(k), k.player);
  }

  lemma WriteKeepsSlots(engines: map<nat, Engine>, rows: seq<Attempt>, j: Submit, ph: Phase)
    requires ph.Priced? && ChoiceStands(engines, rows, Tx(j, ph))
    requires MachineInv(engines, rows)
    ensures MachineInv(engines, Written(rows, j, ph))
  {
    var after := Written(rows, j, ph);
    forall g, r, p | g in engines && !engines[g].singleAttemptPerRound
      ensures NonMemberPlays(after, g, r, p) <= Max(0, engines[g].nonmemberRoundPlayCap)
    {
      if ph.target.Some? {
        NonMemberPlaysUpdate(rows, ph.target.value, after[ph.target.value], g, r, p);
      } else {
        assert after[..|rows|] == rows;
      }
    }
  }

  lemma StampKeepsChoice(engines: map<nat, Engine>, rows: seq<Attempt>, tx: Tx, stamp: int)
    requires ChoiceStands(engines, rows, tx)
    ensures ChoiceStands(engines, rows, tx.(job := tx.job.(stamp := stamp)))
  {
    assert RoundOf(tx.job.(stamp := stamp)) == RoundOf(tx.job);
  }

  lemma StepKeepsSlots(engines: map<nat, Engine>, shape: Shape, st: Sys, ev: Event)
    requires SlotInv(engines, st) && Step(engines, shape, st, ev).Some?
    ensures SlotInv(engines, Step(engines, shape, st, ev).value)
  {
    var st' := Step(engines, shape, st, ev).value;
    if ev.Commit? {
      var Tx(j, ph) := st.txs[ev.tid];
      var w := if ph.target.Some? then j else j.(stamp := ev.stamp);
      StampKeepsChoice(engines, st.rows, Tx(j, ph), ev.stamp);
      assert ChoiceStands(engines, st.rows, Tx(w, ph));
      WriteKeepsSlots(engines, st.rows, w, ph);
      forall tid | tid in st'.txs
        ensures ChoiceStands(engines, st'.rows, st'.txs[tid])
      {
        var tx := st.txs[tid];
        if SameSlot(w, tx.job) {
          assert Holds(st, ev.tid) && KeyOf(tx.job) == KeyOf(j);
          assert tx.phase.Waiting?;
        } else {
          WriteKeepsChoice(engines, st.rows, w, ph, tx);
        }
      }
    }
  }

  /**
   * In every interleaving, a single-attempt game has at most one row per (game, round, player), an open row
   * of a coherent engine holds no points, and a replayable game records at most its cap of non-member plays
   * per round: the round of a submit is the day its lock names, so the reads that decide and the write that
   * follows are one critical section.
   */
  lemma {:induction false} SlotsInEveryInterleaving(engines: map<nat, Engine>, shape: Shape, events: seq<Event>)
    requires Exec(engines, shape, events).Some?
    ensures SlotInv(engines, Exec(engines, shape, events).value)
  {
    if |events| > 0 {
      SlotsInEveryInterleaving(engines, shape, events[..|events| - 1]);
      StepKeepsSlots(engines, shape, Exec(engines, shape, events[..|events| - 1]).value, events[|events| - 1]);
    }
  }

  /** The earlier rows are all still there, and those that are final are as they were. */
  ghost predicate Extends(engines: map<nat, Engine>, rows: seq<Attempt>, after: seq<Attempt>) {
    && |rows| <= |after|
    && forall i :: 0 <= i < |rows| ==>
         && SameRound(after[i], rows[i].game, rows[i].round, rows[i].player)
         && after[i].playedAt == rows[i].playedAt
         && (Final(engines, rows[i]) ==> after[i] == rows[i])
  }

  lemma StepExtends(engines: map<nat, Engine>, shape: Shape, st: Sys, ev: Event)
    requires SlotInv(engines, st) && Step(engines, shape, st, ev).Some?
    ensures Extends(engines, st.rows, Step(engines, shape, st, ev).value.rows)
  {
    if ev.Commit? {
      assert ChoiceStands(engines, st.rows, st.txs[ev.tid]);
    }
  }

  /**
   * A finished row never changes again: from any point of any interleaving on, the ledger only grows, final
   * rows stay as they are, and no row changes its game, round, player or stamp.
   */
  lemma {:induction false} RowsStayInEveryInterleaving(engines: map<nat, Engine>, shape: Shape,
                                                       events: seq<Event>, n: nat)
    requires n <= |events| && Exec(engines, shape, events).Some?
    ensures Exec(engines, shape, events[..n]).Some?
    ensures Extends(engines, Exec(engines, shape, events[..n]).value.rows, Exec(engines, shape, events).value.rows)
  {
    if n == |events| {
      assert events[..n] == events;
    } else {
      var last := |events| - 1;
      assert events[..last][..n] == events[..n];
      RowsStayInEveryInterleaving(engines, shape, events[..last], n);
      SlotsInEveryInterleaving(engines, shape, events[..last]);
      StepExtends(engines, shape, Exec(engines, shape, events[..last]).value, events[last]);
    }
  }

  // ---- The daily cap under interleaving ----

  /** All submits whose rows are stamped on one day started on one day, so they share that day's lock. */
  ghost predicate OneLockPerDay(shape: Shape) {
    forall d, d', e :: d <= e && d' <= e && shape(d, e) && shape(d', e) ==> d == d'
  }

  ghost predicate Shaped(shape: Shape, rows: seq<Attempt>) {
    forall i :: 0 <= i < |rows| ==>
      rows[i].round <= DayOf(rows[i].playedAt) && shape(rows[i].round, DayOf(rows[i].playedAt))
  }

  /** What a priced transaction is about to add still fits on every day it may be stamped on. */
  ghost predicate Fits(engines: map<nat, Engine>, shape: Shape, rows: seq<Attempt>, tx: Tx) {
    var j := tx.job;
    tx.phase.Priced? && j.game in engines ==>
      tx.phase.points >= 0 &&
      forall e :: RoundOf(j) <= e && shape(RoundOf(j), e) ==>
        tx.phase.points == 0 || Total(rows, OnDay(j.game, j.player, e)) + tx.phase.points <= DailyCap(engines[j.game])
  }

  ghost predicate CapInv(engines: map<nat, Engine>, shape: Shape, st: Sys) {
    && SlotInv(engines, st)
    && NonNegative(st.rows) && Shaped(shape, st.rows) && CapHeld(engines, st.rows)
    && forall tid :: tid in st.txs ==> Fits(engines, shape, st.rows, st.txs[tid])
  }

  lemma PriceFits(engines: map<nat, Engine>, shape: Shape, rows: seq<Attempt>, j: Submit, ph: Phase)
    requires NonNegative(rows) && j.game in engines && ph.Chosen?
    ensures Fits(engines, shape, rows, Tx(j, Priced(ph.target, ph.play, PriceNow(engines[j.game], rows, j, ph.play))))
  {
    forall e | RoundOf(j) <= e
      ensures 0 <= Total(rows, OnDay(j.game, j.player, e)) <= PointsToday(rows, j.game, j.player, j.now)
    {
      DayWithinToday(rows, j.game, j.player, e, j.now);
    }
  }

  /** How one committed write moves one day's total. */
  lemma WriteTotal(rows: seq<Attempt>, j: Submit, ph: Phase, q: Query)
    requires ph.Priced? && (ph.target.Some? ==> ph.target.value < |rows|)
    ensures var after := Written(rows, j, ph);
            var i := if ph.target.Some? then ph.target.value else |rows|;
            Total(after, q) == Total(rows, q) + Worth(q, after[i]) - (if i < |rows| then Worth(q, rows[i]) else 0)
  {
    var after := Written(rows, j, ph);
    if ph.target.Some? {
      TotalUpdate(rows, ph.target.value, after[ph.target.value], q);
    } else {
      TotalAppend(rows, after[|rows|], q);
    }
  }

  lemma WriteKeepsCap(engines: map<nat, Engine>, shape: Shape, rows: seq<Attempt>, j: Submit, ph: Phase)
    requires ph.Priced? && j.game in engines && ChoiceStands(engines, rows, Tx(j, ph))
    requires NonNegative(rows) && Shaped(shape, rows) && CapHeld(engines, rows)
    requires Fits(engines, shape, rows, Tx(j, ph))
    requires ph.target.None? ==> RoundOf(j) <= DayOf(j.stamp) && shape(RoundOf(j), DayOf(j.stamp))
    ensures var after := Written(rows, j, ph); NonNegative(after) && Shaped(shape, after) && CapHeld(engines, after)
  {
    var after := Written(rows, j, ph);
    var i := if ph.target.Some? then ph.target.value else |rows|;
    assert after[i].round == RoundOf(j) && shape(after[i].round, DayOf(after[i].playedAt));
    forall g, p, d | g in engines
      ensures Total(after, OnDay(g, p, d)) <= DailyCap(engines[g])
    {
      WriteTotal(rows, j, ph, OnDay(g, p, d));
      if Matches(OnDay(g, p, d), after[i]) {
        assert DayOf(after[i].playedAt) == d;
      }
    }
  }

  /** A write stamped under another lock cannot land on a day a priced transaction may use. */
  lemma WriteKeepsFit(engines: map<nat, Engine>, shape: Shape, rows: seq<Attempt>, j: Submit, ph: Phase, tx: Tx)
    requires OneLockPerDay(shape)
    requires ph.Priced? && j.game in engines && ChoiceStands(engines, rows, Tx(j, ph)) && Shaped(shape, rows)
    requires ph.target.None? ==> RoundOf(j) <= DayOf(j.stamp) && shape(RoundOf(j), DayOf(j.stamp))
    requires !SameSlot(j, tx.job) && Fits(engines, shape, rows, tx)
    ensures Fits(engines, shape, Written(rows, j, ph), tx)
  {
    var after, k := Written(rows, j, ph), tx.job;
    var i := if ph.target.Some? then ph.target.value else |rows|;
    if tx.phase.Priced? && k.game in engines {
      forall e | RoundOf(k) <= e && shape(RoundOf(k), e)
        ensures Total(after, OnDay(k.game, k.player, e)) == Total(rows, OnDay(k.game, k.player, e))
      {
        var q := OnDay(k.game, k.player, e);
        WriteTotal(rows, j, ph, q);
        var day := DayOf(after[i].playedAt);
        assert day != e || after[i].game != k.game || after[i].player != k.player;
        assert !Matches(q, after[i]);
        assert i < |rows| ==> !Matches(q, rows[i]);
      }
    }
  }

  /** A priced transaction, with the stamp of its insert, at its commit. */
  function StampedJob(j: Submit, ph: Phase, stamp: int): Submit
    requires ph.Priced?
  {
    if ph.target.Some? then j else j.(stamp := stamp)
  }

  lemma CommitKeepsCap(engines: map<nat, Engine>, shape: Shape, st: Sys, tid: nat, stamp: int)
    requires CapInv(engines, shape, st) && Step(engines, shape, st, Commit(tid, stamp)).Some?
    ensures var rows := Step(engines, shape, st, Commit(tid, stamp)).value.rows;
            NonNegative(rows) && Shaped(shape, rows) && CapHeld(engines, rows)
  {
    var Tx(j, ph) := st.txs[tid];
    assert ChoiceStands(engines, st.rows, Tx(j, ph)) && Fits(engines, shape, st.rows, Tx(j, ph));
    StampKeepsChoice(engines, st.rows, Tx(j, ph), stamp);
    var w := StampedJob(j, ph, stamp);
    assert RoundOf(w) == RoundOf(j);
    assert Fits(engines, shape, st.rows, Tx(w, ph));
    WriteKeepsCap(engines, shape, st.rows, w, ph);
  }

  lemma CommitKeepsFit(engines: map<nat, Engine>, shape: Shape, st: Sys, tid: nat, stamp: int, other: nat)
    requires OneLockPerDay(shape) && CapInv(engines, shape, st)
    requires Step(engines, shape, st, Commit(tid, stamp)).Some? && other in st.txs && other != tid
    ensures Fits(engines, shape, Step(engines, shape, st, Commit(tid, stamp)).value.rows, st.txs[other])
  {
    var Tx(j, ph) := st.txs[tid];
    var tx := st.txs[other];
    if SameSlot(j, tx.job) {
      assert Holds(st, tid) && KeyOf(tx.job) == KeyOf(j);
      assert tx.phase.Waiting?;
    } else {
      assert ChoiceStands(engines, st.rows, Tx(j, ph)) && Fits(engines, shape, st.rows, tx);
      StampKeepsChoice(engines, st.rows, Tx(j, ph), stamp);
      WriteKeepsFit(engines, shape, st.rows, StampedJob(j, ph, stamp), ph, tx);
    }
  }

  lemma StepKeepsCap(engines: map<nat, Engine>, shape: Shape, st: Sys, ev: Event)
    requires OneLockPerDay(shape) && CapInv(engines, shape, st) && Step(engines, shape, st, ev).Some?
    ensures CapInv(engines, shape, Step(engines, shape, st, ev).value)
  {
    var st' := Step(engines, shape, st, ev).value;
    StepKeepsSlots(engines, shape, st, ev);
    if ev.Price? {
      PriceFits(engines, shape, st.rows, st.txs[ev.tid].job, st.txs[ev.tid].phase);
    } else if ev.Commit? {
      CommitKeepsCap(engines, shape, st, ev.tid, ev.stamp);
      forall tid | tid in st'.txs
        ensures Fits(engines, shape, st'.rows, st'.txs[tid])
      {
        CommitKeepsFit(engines, shape, st, ev.tid, ev.stamp, tid);
      }
    }
  }

  lemma {:induction false} OneLockKeepsCap(engines: map<nat, Engine>, shape: Shape, events: seq<Event>)
    requires OneLockPerDay(shape) && Exec(engines, shape, events).Some?
    ensures CapInv(engines, shape, Exec(engines, shape, events).value)
  {
    if |events| > 0 {
      OneLockKeepsCap(engines, shape, events[..|events| - 1]);
      StepKeepsCap(engines, shape, Exec(engines, shape, events[..|events| - 1]).value, events[|events| - 1]);
    } else {
      assert Exec(engines, shape, events).value.rows == [];
    }
  }

  ghost predicate CapInEveryInterleaving(shape: Shape) {
    forall engines: map<nat, Engine>, events: seq<Event> ::
      Exec(engines, shape, events).Some? ==> CapHeld(engines, Exec(engines, shape, events).value.rows)
  }

  function Straddler(day: int, stampDay: int): Submit {
    Submit(1, 1, "", true, None, day * DAY, stampDay * DAY)
  }

  lemma ExecSnoc(engines: map<nat, Engine>, shape: Shape, events: seq<Event>, ev: Event)
    requires Exec(engines, shape, events).Some?
    ensures Exec(engines, shape, events + [ev]) == Step(engines, shape, Exec(engines, shape, events).value, ev)
  {
    assert (events + [ev])[..|events|] == events;
  }

  /** Two submits on different keys can both pass the lock before either reads the ledger. */
  lemma BothHold(engines: map<nat, Engine>, shape: Shape, j: Submit, j': Submit)
    requires KeyOf(j) != KeyOf(j') && j.game in engines && j'.game in engines
    ensures Exec(engines, shape, [Begin(0, j), Begin(1, j'), Lock(0), Lock(1)])
            == Some(Sys([], map[0 := Tx(j, Holding), 1 := Tx(j', Holding)], map[KeyOf(j) := 0, KeyOf(j') := 1]))
  {
    var one: seq<Event> := [Begin(0, j)];
    var two, three := one + [Begin(1, j')], one + [Begin(1, j')] + [Lock(0)];
    ExecSnoc(engines, shape, [], Begin(0, j));
    assert [] + one == one;
    ExecSnoc(engines, shape, one, Begin(1, j'));
    ExecSnoc(engines, shape, two, Lock(0));
    ExecSnoc(engines, shape, three, Lock(1));
    assert three + [Lock(1)] == [Begin(0, j), Begin(1, j'), Lock(0), Lock(1)];
    assert map[0 := Tx(j, Waiting)][1 := Tx(j', Waiting)][0 := Tx(j, Holding)][1 := Tx(j', Holding)]
        == map[0 := Tx(j, Holding), 1 := Tx(j', Holding)];
  }

  ghost predicate PaysOnePoint(engines: map<nat, Engine>, j: Submit) {
    j.game in engines && engines[j.game] == OnePointEngine() && j.isMember
  }

  /** Both then read the same empty day and are priced at the whole cap. */
  lemma BothPriced(engines: map<nat, Engine>, shape: Shape, events: seq<Event>, j: Submit, j': Submit)
    requires PaysOnePoint(engines, j) && PaysOnePoint(engines, j') && Exec(engines, shape, events).Some?
    requires var st := Exec(engines, shape, events).value;
             st.rows == [] && st.txs == map[0 := Tx(j, Holding), 1 := Tx(j', Holding)]
    ensures var p := Priced(None, ONE_POINT, 1);
            Exec(engines, shape, events + [Choose(0)] + [Choose(1)] + [Price(0)] + [Price(1)])
            == Some(Exec(engines, shape, events).value.(txs := map[0 := Tx(j, p), 1 := Tx(j', p)]))
  {
    var e, st := OnePointEngine(), Exec(engines, shape, events).value;
    var c, p := Chosen(None, ONE_POINT), Priced(None, ONE_POINT, 1);
    assert ChooseRow(e, [], j) == Some(c) && ChooseRow(e, [], j') == Some(c);
    assert PriceNow(e, [], j, ONE_POINT) == 1 && PriceNow(e, [], j', ONE_POINT) == 1;
    ExecSnoc(engines, shape, events, Choose(0));
    ExecSnoc(engines, shape, events + [Choose(0)], Choose(1));
    ExecSnoc(engines, shape, events + [Choose(0)] + [Choose(1)], Price(0));
    ExecSnoc(engines, shape, events + [Choose(0)] + [Choose(1)] + [Price(0)], Price(1));
    assert st.txs[0 := Tx(j, c)][1 := Tx(j', c)][0 := Tx(j, p)][1 := Tx(j', p)] == map[0 := Tx(j, p), 1 := Tx(j', p)];
  }

  /** And both commit: the second does not look at the day again. */
  lemma BothCommit(engines: map<nat, Engine>, shape: Shape, events: seq<Event>, j: Submit, j': Submit)
    requires Exec(engines, shape, events).Some? && j.now <= j.stamp && j'.now <= j'.stamp
    requires shape(RoundOf(j), DayOf(j.stamp)) && shape(RoundOf(j'), DayOf(j'.stamp))
    requires var st, p := Exec(engines, shape, events).value, Priced(None, ONE_POINT, 1);
             st.rows == [] && st.txs == map[0 := Tx(j, p), 1 := Tx(j', p)]
    ensures var last := Exec(engines, shape, events + [Commit(0, j.stamp)] + [Commit(1, j'.stamp)]);
            last.Some? && last.value.rows == [NewRow(j, ONE_POINT, 1)] + [NewRow(j', ONE_POINT, 1)]
  {
    assert j.(stamp := j.stamp) == j && j'.(stamp := j'.stamp) == j';
    ExecSnoc(engines, shape, events, Commit(0, j.stamp));
    assert Exec(engines, shape, events + [Commit(0, j.stamp)]).value.rows == [NewRow(j, ONE_POINT, 1)];
    ExecSnoc(engines, shape, events + [Commit(0, j.stamp)], Commit(1, j'.stamp));
  }

  lemma BothBank(engines: map<nat, Engine>, shape: Shape, j: Submit, j': Submit) returns (events: seq<Event>)
    requires KeyOf(j) != KeyOf(j') && j.now <= j.stamp && j'.now <= j'.stamp
    requires PaysOnePoint(engines, j) && PaysOnePoint(engines, j')
    requires shape(RoundOf(j), DayOf(j.stamp)) && shape(RoundOf(j'), DayOf(j'.stamp))
    ensures Exec(engines, shape, events).Some?
    ensures Exec(engines, shape, events).value.rows == [NewRow(j, ONE_POINT, 1)] + [NewRow(j', ONE_POINT, 1)]
  {
    events := [Begin(0, j), Begin(1, j'), Lock(0), Lock(1)];
    BothHold(engines, shape, j, j');
    BothPriced(engines, shape, events, j, j');
    events := events + [Choose(0)] + [Choose(1)] + [Price(0)] + [Price(1)];
    BothCommit(engines, shape, events, j, j');
    events := events + [Commit(0, j.stamp)] + [Commit(1, j'.stamp)];
  }

  /** Two submits under different locks that are stamped on one day bank the cap twice. */
  lemma TwoLocksBreakCap(engines: map<nat, Engine>, shape: Shape, j: Submit, j': Submit, e: int)
    requires KeyOf(j) != KeyOf(j') && j.now <= j.stamp && j'.now <= j'.stamp
    requires j.game == j'.game == 1 && j.player == j'.player == 1 && j.stamp == j'.stamp == e * DAY
    requires PaysOnePoint(engines, j) && PaysOnePoint(engines, j')
    requires shape(RoundOf(j), DayOf(j.stamp)) && shape(RoundOf(j'), DayOf(j'.stamp))
    ensures !CapInEveryInterleaving(shape)
  {
    var events := BothBank(engines, shape, j, j');
    TwicePaid(j, j', e);
    assert Total(Exec(engines, shape, events).value.rows, OnDay(1, 1, e)) > DailyCap(engines[1]);
  }

  /** Two submits that start on days d and d' and are both stamped on day e are such a pair. */
  lemma StraddlersBreakCap(shape: Shape, d: int, d': int, e: int)
    requires 0 <= d < d' <= e && d' < P25 && shape(d, e) && shape(d', e)
    ensures !CapInEveryInterleaving(shape)
  {
    var j, j' := Straddler(d, e), Straddler(d', e);
    DayOfMidnight(d);
    DayOfMidnight(d');
    DayOfMidnight(e);
    LockKeyInjective(1, 1, d, 1, 1, d');
    TwoLocksBreakCap(map[1 := OnePointEngine()], shape, j, j', e);
  }

  lemma DayOfMidnight(d: int)
    ensures DayOf(d * DAY) == d
  {
  }

  lemma TwicePaid(j: Submit, j': Submit, e: int)
    requires j.game == j'.game == 1 && j.player == j'.player == 1 && j.stamp == j'.stamp == e * DAY
    ensures Total([NewRow(j, ONE_POINT, 1)] + [NewRow(j', ONE_POINT, 1)], OnDay(1, 1, e)) == 2
  {
    TotalAppend([], NewRow(j, ONE_POINT, 1), OnDay(1, 1, e));
    TotalAppend([NewRow(j, ONE_POINT, 1)], NewRow(j', ONE_POINT, 1), OnDay(1, 1, e));
    assert [] + [NewRow(j, ONE_POINT, 1)] == [NewRow(j, ONE_POINT, 1)];
  }

  /**
   * The daily cap survives every interleaving exactly when no two submits that started on different
   * days can be stamped on the same one. Submits that start and are flushed inside one day meet it;
   * a submit that straddles midnight next to one of the new day does not.
   */
  lemma CapIffOneLockPerDay(shape: Shape)
    requires forall d, e :: shape(d, e) ==> 0 <= d < P25
    ensures CapInEveryInterleaving(shape) <==> OneLockPerDay(shape)
  {
    if OneLockPerDay(shape) {
      forall engines: map<nat, Engine>, events: seq<Event> | Exec(engines, shape, events).Some?
        ensures CapHeld(engines, Exec(engines, shape, events).value.rows)
      {
        OneLockKeepsCap(engines, shape, events);
      }
    } else {
      var d, d', e :| d <= e && d' <= e && shape(d, e) && shape(d', e) && d != d';
      if d < d' {
        StraddlersBreakCap(shape, d, d', e);
      } else {
        StraddlersBreakCap(shape, d', d, e);
      }
    }
  }

  /** In particular the cap holds in every interleaving of submits that stay inside one day. */
  lemma CapWithinOneDay(engines: map<nat, Engine>, events: seq<Event>)
    requires Exec(engines, (d, e) => d == e, events).Some?
    ensures CapHeld(engines, Exec(engines, (d, e) => d == e, events).value.rows)
  {
    var inside: Shape := (d, e) => d == e;
    OneLockKeepsCap(engines, inside, events);
  }
}

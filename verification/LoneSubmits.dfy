/** An interleaved submit that no other overlaps is the serial one (app/features/games/service.py). */
module LoneSubmits {
  import opened Basics
  import opened Calendar
  import opened Ledger
  import opened GamesService
  import opened GamesConcurrent

  /** The statements of one submit, one after another with none in between. */
  function SubmitAlone(engines: map<nat, Engine>, shape: Shape, st: Sys, tid: nat, j: Submit): Option<Sys> {
    var begun := Step(engines, shape, st, Begin(tid, j));
    if begun.None? then None
    else
      var locked := Step(engines, shape, begun.value, Lock(tid));
      if locked.None? then None
      else
        var chosen := Step(engines, shape, locked.value, Choose(tid));
        if chosen.None? || tid !in chosen.value.txs then chosen
        else
          var priced := Step(engines, shape, chosen.value, Price(tid));
          if priced.None? then None else Step(engines, shape, priced.value, Commit(tid, j.stamp))
  }

  /** A submit that no other overlaps leaves the ledger of `submit_attempt`, and nothing locked or in flight. */
  lemma AloneIsApply(engines: map<nat, Engine>, shape: Shape, st: Sys, tid: nat, j: Submit)
    requires tid !in st.txs && KeyOf(j) !in st.locks && j.game in engines
    requires engines[j.game].acceptsSession(RoundOf(j), j.body, j.now)
    requires j.now <= j.stamp && shape(RoundOf(j), DayOf(j.stamp))
    ensures SubmitAlone(engines, shape, st, tid, j) == Some(st.(rows := Apply(engines, st.rows, j)))
  {
    var e := engines[j.game];
    var locked := Sys(st.rows, st.txs[tid := Tx(j, Holding)], st.locks[KeyOf(j) := tid]);
    assert st.txs[tid := Tx(j, Waiting)][tid := Tx(j, Holding)] == locked.txs;
    assert Step(engines, shape, st.(txs := st.txs[tid := Tx(j, Waiting)]), Lock(tid)) == Some(locked);
    var chosen := ChooseRow(e, st.rows, j);
    assert forall ph :: locked.txs[tid := Tx(j, ph)] - {tid} == st.txs;
    assert locked.txs - {tid} == st.txs && locked.locks - {KeyOf(j)} == st.locks;
    if chosen.Some? {
      var Chosen(target, play) := chosen.value;
      var price := PriceNow(e, st.rows, j, play);
      var priced := Priced(target, play, price);
      assert locked.txs[tid := Tx(j, chosen.value)][tid := Tx(j, priced)] == locked.txs[tid := Tx(j, priced)];
      assert j.(stamp := j.stamp) == j;
      assert Written(st.rows, j, priced) == Apply(engines, st.rows, j);
    } else {
      assert Apply(engines, st.rows, j) == st.rows;
    }
  }
}

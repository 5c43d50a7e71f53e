/** What mint and revoke requests come to, over whole transactions (app/features/admin/router.py). */
module KeyRequests {
  import opened Basics
  import opened ApiKeys
  import opened KeyForest
  import opened KeyTransactions

  // ---- What a commit inserts ----

  /** The transaction still carries this request. */
  predicate Carries(tx: Tx, caller: nat, scopes: set<string>) {
    match tx
    case MintWaiting(c, s) => c == caller && s == scopes
    case MintLocked(c, s) => c == caller && s == scopes
    case MintChecked(c, s) => c == caller && s == scopes && scopes <= VALID_SCOPES
    case _ => false
  }

  predicate Begins(ev: Event, tid: nat) {
    (ev.BeginMint? || ev.BeginRevoke?) && ev.tid == tid
  }

  lemma StepCarries(st: Sys, ev: Event, tid: nat, caller: nat, scopes: set<string>)
    requires Step(st, ev).Some? && !Begins(ev, tid) && (tid in st.txs ==> Carries(st.txs[tid], caller, scopes))
    ensures var after := Step(st, ev).value; tid in after.txs ==> Carries(after.txs[tid], caller, scopes)
  {
  }

  /** The conditions on a request: a live caller, room for one more live child, and scopes that the caller satisfies. */
  ghost predicate Grants(keys: Keys, limit: nat, caller: nat, scopes: set<string>) {
    && caller in keys && !keys[caller].revoked
    && |set k | k in keys && keys[k].parent == Some(caller) && !keys[k].revoked| < limit
    && scopes <= VALID_SCOPES && forall s :: s in scopes ==> HasScope(keys[caller].scopes, s)
  }

  lemma GrantsMeans(keys: Keys, limit: nat, caller: nat, scopes: set<string>)
    requires caller in keys
    ensures Grants(keys, limit, caller, scopes) <==>
            && !keys[caller].revoked && BelowLimit(limit, keys, caller)
            && scopes <= VALID_SCOPES && Covered(keys[caller].scopes, scopes)
  {
    var counted := set k | k in keys && keys[k].parent == Some(caller) && !keys[k].revoked;
    assert LiveChildren(keys, caller) == counted;
  }

  /**
   * If the transaction can commit under this id, its commit adds exactly one row, live, under the caller and with
   * exactly these scopes, every other row stays, and the conditions of the request hold at that moment.
   */
  ghost predicate InsertsExactly(limit: nat, now: Sys, tid: nat, caller: nat, scopes: set<string>, id: nat) {
    var after := Step(now, CommitMint(tid, id));
    after.Some? ==>
      && id !in now.keys && after.value.keys == now.keys[id := Key(Some(caller), false, scopes)]
      && Grants(now.keys, limit, caller, scopes) && tid !in after.value.txs
  }

  ghost predicate Standing(limit: nat, now: Sys, tid: nat, caller: nat, scopes: set<string>) {
    Inv(now) && now.limit == limit && (tid in now.txs ==> Carries(now.txs[tid], caller, scopes))
  }

  lemma CommitInserts(st: Sys, tid: nat, caller: nat, scopes: set<string>, id: nat)
    requires Standing(st.limit, st, tid, caller, scopes)
    ensures InsertsExactly(st.limit, st, tid, caller, scopes, id)
  {
    if Step(st, CommitMint(tid, id)).Some? {
      assert TxInv(st, tid);
      GrantsMeans(st.keys, st.limit, caller, scopes);
    }
  }

  /** The n-th event begins the request, and its transaction id is not used again after it. */
  ghost predicate RequestAt(events: seq<Event>, n: nat, tid: nat, caller: nat, scopes: set<string>) {
    && n < |events| && events[n] == BeginMint(tid, caller, scopes)
    && forall i :: n < i < |events| ==> !Begins(events[i], tid)
  }

  lemma {:induction false} RequestCarried(st: Sys, events: seq<Event>, n: nat, tid: nat, caller: nat,
                                          scopes: set<string>)
    requires Exec(st, events).Some? && RequestAt(events, n, tid, caller, scopes)
    ensures var now := Exec(st, events).value; tid in now.txs ==> Carries(now.txs[tid], caller, scopes)
  {
    var last := |events| - 1;
    if n < last {
      RequestCarried(st, events[..last], n, tid, caller, scopes);
      StepCarries(Exec(st, events[..last]).value, events[last], tid, caller, scopes);
    }
  }

  /** In every interleaving, from the beginning of a request on, its commit inserts exactly what was asked for. */
  lemma MintInserts(st: Sys, events: seq<Event>, n: nat, tid: nat, caller: nat, scopes: set<string>, id: nat)
    requires Quiet(st) && Exec(st, events).Some? && RequestAt(events, n, tid, caller, scopes)
    ensures InsertsExactly(st.limit, Exec(st, events).value, tid, caller, scopes, id)
  {
    RequestCarried(st, events, n, tid, caller, scopes);
    InvInEveryInterleaving(st, events);
    LimitStays(st, events);
    CommitInserts(Exec(st, events).value, tid, caller, scopes, id);
  }

  // ---- When a request gets there ----

  /** Under the caller's free lock the request goes on exactly when the caller is live; no row changes. */
  lemma LockDecides(st: Sys, tid: nat, caller: nat, scopes: set<string>)
    requires tid in st.txs && st.txs[tid] == MintWaiting(caller, scopes) && caller in st.keys && caller !in st.locks
    ensures var after := Step(st, LockCaller(tid));
            && after.Some? && after.value.keys == st.keys && after.value.limit == st.limit
            && (tid in after.value.txs <==> !st.keys[caller].revoked)
            && (tid in after.value.txs ==> after.value.txs[tid] == MintLocked(caller, scopes))
  {
  }

  /** In every reachable state a locked request goes on exactly when the conditions hold then; no row changes. */
  lemma CheckDecides(st: Sys, tid: nat, caller: nat, scopes: set<string>)
    requires Inv(st) && tid in st.txs && st.txs[tid] == MintLocked(caller, scopes)
    ensures var after := Step(st, CheckMint(tid));
            && after.Some? && after.value.keys == st.keys
            && (tid in after.value.txs <==> Grants(st.keys, st.limit, caller, scopes))
            && (tid in after.value.txs ==> after.value.txs[tid] == MintChecked(caller, scopes))
  {
    assert TxInv(st, tid);
    GrantsMeans(st.keys, st.limit, caller, scopes);
  }

  /** And a checked one commits under any fresh id. */
  lemma CheckedCommits(st: Sys, tid: nat, caller: nat, scopes: set<string>, id: nat)
    requires tid in st.txs && st.txs[tid] == MintChecked(caller, scopes) && id !in st.keys && caller < id
    ensures Step(st, CommitMint(tid, id)).Some?
  {
  }

  /** The table after a request that no other transaction disturbs. */
  function RequestAlone(st: Sys, tid: nat, caller: nat, scopes: set<string>, id: nat): Option<Keys> {
    var begun := Step(st, BeginMint(tid, caller, scopes));
    if begun.None? then None
    else
      var locked := Step(begun.value, LockCaller(tid));
      if locked.None? then None
      else if tid !in locked.value.txs then Some(locked.value.keys)
      else
        var checked := Step(locked.value, CheckMint(tid));
        if checked.None? then None
        else if tid !in checked.value.txs then Some(checked.value.keys)
        else
          var after := Step(checked.value, CommitMint(tid, id));
          if after.None? then None else Some(after.value.keys)
  }

  /** On its own a request inserts its row exactly when the conditions hold, and otherwise changes nothing. */
  lemma RequestOutcome(st: Sys, tid: nat, caller: nat, scopes: set<string>, id: nat)
    requires tid !in st.txs && caller in st.keys && caller !in st.locks && id !in st.keys && caller < id
    ensures RequestAlone(st, tid, caller, scopes, id)
            == Some(if Grants(st.keys, st.limit, caller, scopes) then st.keys[id := Key(Some(caller), false, scopes)]
                    else st.keys)
  {
    GrantsMeans(st.keys, st.limit, caller, scopes);
  }

  /** A key an admin creates is live, has no parent and exactly the scopes asked for, all of them valid. */
  lemma CreateInserts(st: Sys, id: nat, scopes: set<string>)
    ensures Step(st, CreateKey(id, scopes)).Some? <==> id !in st.keys && scopes <= VALID_SCOPES
    ensures Step(st, CreateKey(id, scopes)).Some? ==>
              Step(st, CreateKey(id, scopes)).value == st.(keys := st.keys[id := Key(None, false, scopes)])
  {
  }

  // ---- Revoke requests ----

  /** Under its free lock a revoke goes on exactly when the root exists, revoked or not; no row changes. */
  lemma RootLockDecides(st: Sys, tid: nat, root: nat)
    requires tid in st.txs && st.txs[tid] == RevokeWaiting(root) && root !in st.locks
    ensures var after := Step(st, LockRoot(tid));
            && after.Some? && after.value.keys == st.keys
            && (tid in after.value.txs <==> root in st.keys)
            && (tid in after.value.txs ==> after.value.txs[tid] == Revoking(root, {root}, {root}, None))
  {
  }

  /** A cascade ends only by its commit, any other transaction only where it is decided; rows change only at commits. */
  lemma TransactionsEnd(st: Sys, ev: Event, tid: nat)
    requires Step(st, ev).Some? && tid in st.txs
    ensures var after := Step(st, ev).value;
            && (tid !in after.txs && st.txs[tid].Revoking? ==> ev == CommitRevoke(tid))
            && (tid !in after.txs && !st.txs[tid].Revoking? ==>
                  || ev == LockCaller(tid) || ev == CheckMint(tid) || ev == LockRoot(tid)
                  || (ev.CommitMint? && ev.tid == tid))
            && (after.keys != st.keys ==> ev.CreateKey? || ev.CommitMint? || ev.CommitRevoke?)
  {
  }
}

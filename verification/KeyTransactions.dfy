/**
 * Minting and revoking keys as interleaved transactions (app/features/admin/router.py).
 * Every statement that locks rows waits for them one at a time; a level of the cascade first fixes the
 * children it found and then locks them in any order; writes become visible at commit.
 */
module KeyTransactions {
  import opened Basics
  import opened ApiKeys
  import opened KeyForest

  datatype Tx =
    | MintWaiting(caller: nat, scopes: set<string>)
    | MintLocked(caller: nat, scopes: set<string>)
    | MintChecked(caller: nat, scopes: set<string>)
    | RevokeWaiting(root: nat)
    | Revoking(root: nat, seen: set<nat>, frontier: set<nat>, found: Option<set<nat>>)

  /**
   * The committed rows, the transactions in flight, and the owner of each locked row.
   * `limit` is the setting SELF_KEY_MAX_OUTSTANDING, which no statement changes.
   */
  datatype Sys = Sys(keys: Keys, txs: map<nat, Tx>, locks: map<nat, nat>, limit: nat)

  datatype Event =
    | CreateKey(id: nat, scopes: set<string>)
    | BeginMint(tid: nat, caller: nat, scopes: set<string>)
    | LockCaller(tid: nat)
    | CheckMint(tid: nat)
    | CommitMint(tid: nat, id: nat)
    | BeginRevoke(tid: nat, root: nat)
    | LockRoot(tid: nat)
    | FindLevel(tid: nat)
    | LockFound(tid: nat, k: nat)
    | EndLevel(tid: nat)
    | CommitRevoke(tid: nat)

  function LiveChildren(keys: Keys, p: nat): set<nat> {
    set k | k in keys && keys[k].parent == Some(p) && !keys[k].revoked
  }

  predicate BelowLimit(limit: nat, keys: Keys, p: nat) {
    |LiveChildren(keys, p)| < limit
  }

  function Move(st: Sys, tid: nat, tx: Tx): Sys {
    st.(txs := st.txs[tid := tx])
  }

  function Grant(st: Sys, tid: nat, k: nat): Sys {
    st.(locks := st.locks[k := tid])
  }

  /** Commit or rollback: every lock of the transaction is gone. */
  function End(st: Sys, tid: nat): Sys {
    st.(txs := st.txs - {tid}, locks := map k | k in st.locks && st.locks[k] != tid :: st.locks[k])
  }

  // ---- One statement each; None when it cannot happen now ----

  /** `create_key` is one insert. */
  function DoCreate(st: Sys, id: nat, scopes: set<string>): Option<Sys> {
    if id in st.keys || !(scopes <= VALID_SCOPES) then None
    else Some(st.(keys := st.keys[id := Key(None, false, scopes)]))
  }

  /** The caller row is re-read under lock; a revoked caller is refused (401). */
  function DoLockCaller(st: Sys, tid: nat): Option<Sys> {
    if tid !in st.txs || !st.txs[tid].MintWaiting? then None
    else
      var MintWaiting(caller, scopes) := st.txs[tid];
      if caller in st.locks || caller !in st.keys then None
      else if st.keys[caller].revoked then Some(End(st, tid))
      else Some(Grant(Move(st, tid, MintLocked(caller, scopes)), tid, caller))
  }

  /** The outstanding count, the valid scopes and the scope algebra (429, 400, 403). */
  function DoCheckMint(st: Sys, tid: nat): Option<Sys> {
    if tid !in st.txs || !st.txs[tid].MintLocked? || st.txs[tid].caller !in st.keys then None
    else
      var MintLocked(caller, scopes) := st.txs[tid];
      if BelowLimit(st.limit, st.keys, caller) && scopes <= VALID_SCOPES && Covered(st.keys[caller].scopes, scopes)
      then Some(Move(st, tid, MintChecked(caller, scopes)))
      else Some(End(st, tid))
  }

  /** The insert gets a fresh id, later than its parent's. */
  function DoCommitMint(st: Sys, tid: nat, id: nat): Option<Sys> {
    if tid !in st.txs || !st.txs[tid].MintChecked? || id in st.keys || id <= st.txs[tid].caller then None
    else
      var MintChecked(caller, scopes) := st.txs[tid];
      Some(End(st.(keys := st.keys[id := Key(Some(caller), false, scopes)]), tid))
  }

  /** The root is locked before the cascade; a missing one is a 404. */
  function DoLockRoot(st: Sys, tid: nat): Option<Sys> {
    if tid !in st.txs || !st.txs[tid].RevokeWaiting? then None
    else
      var root := st.txs[tid].root;
      if root in st.locks then None
      else if root !in st.keys then Some(End(st, tid))
      else Some(Grant(Move(st, tid, Revoking(root, {root}, {root}, None)), tid, root))
  }

  /** The level's query fixes which children it will lock. */
  function DoFindLevel(st: Sys, tid: nat): Option<Sys> {
    if tid !in st.txs || !st.txs[tid].Revoking? || st.txs[tid].found.Some? || st.txs[tid].frontier == {} then None
    else Some(Move(st, tid, st.txs[tid].(found := Some(ChildrenOf(st.keys, st.txs[tid].frontier)))))
  }

  function DoLockFound(st: Sys, tid: nat, k: nat): Option<Sys> {
    if tid !in st.txs || !st.txs[tid].Revoking? || st.txs[tid].found.None? then None
    else if k !in st.txs[tid].found.value || k in st.locks then None
    else Some(Grant(st, tid, k))
  }

  function DoEndLevel(st: Sys, tid: nat): Option<Sys> {
    if tid !in st.txs || !st.txs[tid].Revoking? || st.txs[tid].found.None? then None
    else
      var Revoking(root, seen, frontier, found) := st.txs[tid];
      if !(forall k :: k in found.value ==> Holds(st, tid, k)) then None
      else Some(Move(st, tid, Revoking(root, seen + found.value, found.value - seen, None)))
  }

  function DoCommitRevoke(st: Sys, tid: nat): Option<Sys> {
    if tid !in st.txs || !st.txs[tid].Revoking? || st.txs[tid].found.Some? || st.txs[tid].frontier != {} then None
    else Some(End(st.(keys := RevokeAll(st.keys, st.txs[tid].seen)), tid))
  }

  function Step(st: Sys, ev: Event): Option<Sys> {
    match ev
    case CreateKey(id, scopes) => DoCreate(st, id, scopes)
    case BeginMint(tid, caller, scopes) =>
      if tid in st.txs || caller !in st.keys then None else Some(Move(st, tid, MintWaiting(caller, scopes)))
    case LockCaller(tid) => DoLockCaller(st, tid)
    case CheckMint(tid) => DoCheckMint(st, tid)
    case CommitMint(tid, id) => DoCommitMint(st, tid, id)
    case BeginRevoke(tid, root) => if tid in st.txs then None else Some(Move(st, tid, RevokeWaiting(root)))
    case LockRoot(tid) => DoLockRoot(st, tid)
    case FindLevel(tid) => DoFindLevel(st, tid)
    case LockFound(tid, k) => DoLockFound(st, tid, k)
    case EndLevel(tid) => DoEndLevel(st, tid)
    case CommitRevoke(tid) => DoCommitRevoke(st, tid)
  }

  function Exec(st: Sys, events: seq<Event>): Option<Sys> {
    if |events| == 0 then Some(st)
    else
      var before := Exec(st, events[..|events| - 1]);
      if before.None? then None else Step(before.value, events[|events| - 1])
  }

  // ---- The invariant ----

  predicate Holds(st: Sys, tid: nat, k: nat) {
    k in st.locks && st.locks[k] == tid
  }

  ghost predicate MintInv(st: Sys, tid: nat, caller: nat) {
    caller in st.keys && !st.keys[caller].revoked && Holds(st, tid, caller)
  }

  /** The cascade reached k through its parent. */
  predicate FromAbove(keys: Keys, seen: set<nat>, root: nat, k: nat) {
    k in seen && k != root ==> k in keys && keys[k].parent.Some? && keys[k].parent.value in seen
  }

  ghost predicate RevokeInv(st: Sys, tid: nat, root: nat, seen: set<nat>, frontier: set<nat>, found: Option<set<nat>>) {
    && root in seen && frontier <= seen <= st.keys.Keys
    && (forall k :: k in seen ==> Holds(st, tid, k))
    && (forall k :: FromAbove(st.keys, seen, root, k))
    && ChildrenOf(st.keys, seen - frontier) <= seen
    && (found.Some? ==> found.value == ChildrenOf(st.keys, frontier))
    && (forall k :: Holds(st, tid, k) ==> k in seen || (found.Some? && k in found.value))
  }

  ghost predicate TxInv(st: Sys, tid: nat)
    requires tid in st.txs
  {
    match st.txs[tid]
    case MintWaiting(caller, _) => caller in st.keys && forall k :: !Holds(st, tid, k)
    case MintLocked(caller, _) => MintInv(st, tid, caller) && forall k :: Holds(st, tid, k) ==> k == caller
    case MintChecked(caller, scopes) =>
      MintInv(st, tid, caller) && (forall k :: Holds(st, tid, k) ==> k == caller)
      && BelowLimit(st.limit, st.keys, caller) && Covered(st.keys[caller].scopes, scopes)
    case RevokeWaiting(_) => forall k :: !Holds(st, tid, k)
    case Revoking(root, seen, frontier, found) => RevokeInv(st, tid, root, seen, frontier, found)
  }

  ghost predicate OutstandingBounded(limit: nat, keys: Keys) {
    forall p :: p in keys ==> |LiveChildren(keys, p)| <= limit
  }

  ghost predicate KeysInv(limit: nat, keys: Keys) {
    Forest(keys) && LiveUnderLive(keys) && ScopesInherited(keys) && OutstandingBounded(limit, keys)
  }

  ghost predicate Inv(st: Sys) {
    && KeysInv(st.limit, st.keys)
    && (forall k :: k in st.locks ==> st.locks[k] in st.txs)
    && (forall tid :: tid in st.txs ==> TxInv(st, tid))
  }

  // ---- Steps keep it ----

  lemma AddKeyKeepsForest(limit: nat, keys: Keys, id: nat, key: Key)
    requires KeysInv(limit, keys) && id !in keys && !key.revoked
    requires key.parent.Some? ==> key.parent.value in keys && key.parent.value < id
    requires key.parent.Some? ==> !keys[key.parent.value].revoked && BelowLimit(limit, keys, key.parent.value)
    requires key.parent.Some? ==> Covered(keys[key.parent.value].scopes, key.scopes)
    ensures KeysInv(limit, keys[id := key])
  {
    var after := keys[id := key];
    forall k
      ensures Rooted(after, k) && LiveParent(after, k) && Inherits(after, k)
    {
      assert Rooted(keys, k) && LiveParent(keys, k) && Inherits(keys, k);
    }
    forall p | p in after
      ensures |LiveChildren(after, p)| <= limit
    {
      if key.parent == Some(p) {
        assert LiveChildren(after, p) == LiveChildren(keys, p) + {id};
      } else {
        assert LiveChildren(after, p) == LiveChildren(keys, p);
        if p == id {
          assert forall k :: k in LiveChildren(keys, p) ==> !Rooted(keys, k);
          assert LiveChildren(after, p) == {};
        }
      }
    }
  }

  lemma RevokeKeepsForest(limit: nat, keys: Keys, seen: set<nat>)
    requires KeysInv(limit, keys) && ChildrenOf(keys, seen) <= seen
    ensures KeysInv(limit, RevokeAll(keys, seen))
  {
    var after := RevokeAll(keys, seen);
    forall k
      ensures Rooted(after, k) && LiveParent(after, k) && Inherits(after, k)
    {
      assert Rooted(keys, k) && LiveParent(keys, k) && Inherits(keys, k);
      assert k in ChildrenOf(keys, seen) ==> k in seen;
    }
    forall p | p in after
      ensures |LiveChildren(after, p)| <= limit
    {
      SubsetCount(LiveChildren(after, p), LiveChildren(keys, p));
    }
  }

  /** A new row leaves every other transaction's view intact: nobody else holds its parent. */
  lemma AddKeyKeepsTx(st: Sys, id: nat, key: Key, other: nat)
    requires id !in st.keys && other in st.txs && TxInv(st, other) && Forest(st.keys)
    requires key.parent.Some? ==> key.parent.value in st.keys && !Holds(st, other, key.parent.value)
    ensures TxInv(st.(keys := st.keys[id := key]), other)
  {
    var st' := st.(keys := st.keys[id := key]);
    assert forall k :: Holds(st', other, k) <==> Holds(st, other, k);
    match st.txs[other]
    case MintWaiting(_, _) =>
    case MintLocked(_, _) =>
    case RevokeWaiting(_) =>
    case MintChecked(caller, scopes) =>
      assert LiveChildren(st'.keys, caller) == LiveChildren(st.keys, caller);
    case Revoking(root, seen, frontier, found) =>
      assert ChildrenOf(st'.keys, seen - frontier) == ChildrenOf(st.keys, seen - frontier);
      assert ChildrenOf(st'.keys, frontier) == ChildrenOf(st.keys, frontier);
      forall k
        ensures FromAbove(st'.keys, seen, root, k)
      {
        assert FromAbove(st.keys, seen, root, k);
      }
  }

  /** Revoking rows another transaction holds leaves a transaction's view intact. */
  lemma RevokeKeepsTx(st: Sys, seen: set<nat>, other: nat)
    requires other in st.txs && TxInv(st, other)
    requires forall k :: k in seen ==> !Holds(st, other, k)
    ensures TxInv(st.(keys := RevokeAll(st.keys, seen)), other)
  {
    var st' := st.(keys := RevokeAll(st.keys, seen));
    assert forall k :: Holds(st', other, k) <==> Holds(st, other, k);
    match st.txs[other]
    case MintWaiting(_, _) =>
    case MintLocked(_, _) =>
    case RevokeWaiting(_) =>
    case MintChecked(caller, scopes) =>
      SubsetCount(LiveChildren(st'.keys, caller), LiveChildren(st.keys, caller));
    case Revoking(root, seen', frontier, found) =>
      assert ChildrenOf(st'.keys, seen' - frontier) == ChildrenOf(st.keys, seen' - frontier);
      assert ChildrenOf(st'.keys, frontier) == ChildrenOf(st.keys, frontier);
      forall k
        ensures FromAbove(st'.keys, seen', root, k)
      {
        assert FromAbove(st.keys, seen', root, k);
      }
  }

  /** A step that changes only what one transaction is and holds leaves the others alone. */
  lemma OthersKept(st: Sys, st': Sys, tid: nat)
    requires st'.keys == st.keys && st'.limit == st.limit
    requires forall other :: other in st.txs && other != tid ==> TxInv(st, other)
    requires forall other :: other in st'.txs && other != tid ==> other in st.txs && st'.txs[other] == st.txs[other]
    requires forall other, k :: other != tid ==> (Holds(st', other, k) <==> Holds(st, other, k))
    ensures forall other :: other in st'.txs && other != tid ==> TxInv(st', other)
  {
    forall other | other in st'.txs && other != tid
      ensures TxInv(st', other)
    {
      assert TxInv(st, other);
      assert forall k :: Holds(st', other, k) <==> Holds(st, other, k);
    }
  }

  lemma EndKeepsInv(st: Sys, tid: nat)
    requires KeysInv(st.limit, st.keys) && forall k :: k in st.locks ==> st.locks[k] in st.txs
    requires forall other :: other in st.txs && other != tid ==> TxInv(st, other)
    ensures Inv(End(st, tid))
  {
    OthersKept(st, End(st, tid), tid);
  }

  lemma CreateKeepsInv(st: Sys, id: nat, scopes: set<string>)
    requires Inv(st) && DoCreate(st, id, scopes).Some?
    ensures Inv(DoCreate(st, id, scopes).value)
  {
    var key := Key(None, false, scopes);
    AddKeyKeepsForest(st.limit, st.keys, id, key);
    forall other | other in st.txs
      ensures TxInv(st.(keys := st.keys[id := key]), other)
    {
      AddKeyKeepsTx(st, id, key, other);
    }
  }

  lemma CommitMintKeepsInv(st: Sys, tid: nat, id: nat)
    requires Inv(st)
    ensures DoCommitMint(st, tid, id).Some? ==> Inv(DoCommitMint(st, tid, id).value)
  {
    if DoCommitMint(st, tid, id).Some? {
      var MintChecked(caller, scopes) := st.txs[tid];
      var key := Key(Some(caller), false, scopes);
      assert TxInv(st, tid);
      AddKeyKeepsForest(st.limit, st.keys, id, key);
      var added := st.(keys := st.keys[id := key]);
      forall other | other in st.txs && other != tid
        ensures TxInv(added, other)
      {
        AddKeyKeepsTx(st, id, key, other);
      }
      EndKeepsInv(added, tid);
    }
  }

  lemma CommitRevokeKeepsInv(st: Sys, tid: nat)
    requires Inv(st)
    ensures DoCommitRevoke(st, tid).Some? ==> Inv(DoCommitRevoke(st, tid).value)
  {
    if DoCommitRevoke(st, tid).Some? {
      var seen := st.txs[tid].seen;
      assert TxInv(st, tid) && seen - {} == seen;
      RevokeKeepsForest(st.limit, st.keys, seen);
      var revoked := st.(keys := RevokeAll(st.keys, seen));
      forall other | other in st.txs && other != tid
        ensures TxInv(revoked, other)
      {
        RevokeKeepsTx(st, seen, other);
      }
      EndKeepsInv(revoked, tid);
    }
  }

  lemma LockCallerKeepsInv(st: Sys, tid: nat)
    requires Inv(st) && DoLockCaller(st, tid).Some?
    ensures Inv(DoLockCaller(st, tid).value)
  {
    var st' := DoLockCaller(st, tid).value;
    assert TxInv(st, tid);
    if st.keys[st.txs[tid].caller].revoked {
      EndKeepsInv(st, tid);
    } else {
      OthersKept(st, st', tid);
      assert forall k :: Holds(st', tid, k) <==> k == st.txs[tid].caller || Holds(st, tid, k);
      assert TxInv(st', tid);
    }
  }

  lemma CheckMintKeepsInv(st: Sys, tid: nat)
    requires Inv(st) && DoCheckMint(st, tid).Some?
    ensures Inv(DoCheckMint(st, tid).value)
  {
    var st' := DoCheckMint(st, tid).value;
    assert TxInv(st, tid);
    if tid in st'.txs {
      OthersKept(st, st', tid);
      assert forall k :: Holds(st', tid, k) <==> Holds(st, tid, k);
    } else {
      EndKeepsInv(st, tid);
    }
  }

  lemma LockRootKeepsInv(st: Sys, tid: nat)
    requires Inv(st) && DoLockRoot(st, tid).Some?
    ensures Inv(DoLockRoot(st, tid).value)
  {
    var st' := DoLockRoot(st, tid).value;
    var root := st.txs[tid].root;
    assert TxInv(st, tid);
    if root !in st.keys {
      EndKeepsInv(st, tid);
    } else {
      OthersKept(st, st', tid);
      LockRootKeepsTx(st, tid);
    }
  }

  lemma LockRootKeepsTx(st: Sys, tid: nat)
    requires DoLockRoot(st, tid).Some? && TxInv(st, tid) && st.txs[tid].root in st.keys
    ensures TxInv(DoLockRoot(st, tid).value, tid)
  {
    var st', root := DoLockRoot(st, tid).value, st.txs[tid].root;
    assert ChildrenOf(st.keys, {root} - {root}) == {};
    assert forall k :: Holds(st', tid, k) <==> k == root || Holds(st, tid, k);
  }

  lemma FindLevelKeepsInv(st: Sys, tid: nat)
    requires Inv(st) && DoFindLevel(st, tid).Some?
    ensures Inv(DoFindLevel(st, tid).value)
  {
    var st' := DoFindLevel(st, tid).value;
    var Revoking(root, seen, frontier, _) := st.txs[tid];
    assert TxInv(st, tid);
    OthersKept(st, st', tid);
    assert forall k :: Holds(st', tid, k) <==> Holds(st, tid, k);
    assert RevokeInv(st', tid, root, seen, frontier, Some(ChildrenOf(st.keys, frontier)));
  }

  lemma LockFoundKeepsInv(st: Sys, tid: nat, k: nat)
    requires Inv(st) && DoLockFound(st, tid, k).Some?
    ensures Inv(DoLockFound(st, tid, k).value)
  {
    var st' := DoLockFound(st, tid, k).value;
    assert TxInv(st, tid);
    OthersKept(st, st', tid);
    assert forall j :: Holds(st', tid, j) <==> j == k || Holds(st, tid, j);
  }

  lemma EndLevelKeepsInv(st: Sys, tid: nat)
    requires Inv(st) && DoEndLevel(st, tid).Some?
    ensures Inv(DoEndLevel(st, tid).value)
  {
    EndLevelKeepsTx(st, tid);
    OthersKept(st, DoEndLevel(st, tid).value, tid);
  }

  lemma EndLevelKeepsTx(st: Sys, tid: nat)
    requires DoEndLevel(st, tid).Some? && TxInv(st, tid)
    ensures TxInv(DoEndLevel(st, tid).value, tid)
  {
    var st' := DoEndLevel(st, tid).value;
    var Revoking(root, seen, frontier, found) := st.txs[tid];
    assert forall k :: Holds(st', tid, k) <==> Holds(st, tid, k);
    LevelKeepsSeen(st.keys, root, seen, frontier);
  }

  /** One level further: what the cascade has seen stays closed but for its new frontier, and reached from above. */
  lemma LevelKeepsSeen(keys: Keys, root: nat, seen: set<nat>, frontier: set<nat>)
    requires frontier <= seen && ChildrenOf(keys, seen - frontier) <= seen
    requires forall k :: FromAbove(keys, seen, root, k)
    ensures var found := ChildrenOf(keys, frontier);
            && ChildrenOf(keys, (seen + found) - (found - seen)) <= seen + found
            && forall k :: FromAbove(keys, seen + found, root, k)
  {
    var found := ChildrenOf(keys, frontier);
    assert (seen + found) - (found - seen) == seen;
    assert ChildrenOf(keys, seen) <= ChildrenOf(keys, seen - frontier) + ChildrenOf(keys, frontier);
    forall k
      ensures FromAbove(keys, seen + found, root, k)
    {
      assert FromAbove(keys, seen, root, k);
    }
  }

  lemma BeginKeepsInv(st: Sys, tid: nat, tx: Tx)
    requires Inv(st) && tid !in st.txs && (tx.RevokeWaiting? || (tx.MintWaiting? && tx.caller in st.keys))
    ensures Inv(Move(st, tid, tx))
  {
    OthersKept(st, Move(st, tid, tx), tid);
    assert forall k :: !Holds(Move(st, tid, tx), tid, k);
  }

  lemma StepKeepsInv(st: Sys, ev: Event)
    requires Inv(st)
    ensures Step(st, ev).Some? ==> Inv(Step(st, ev).value)
  {
    if Step(st, ev).Some? {
      match ev
      case CreateKey(id, scopes) => CreateKeepsInv(st, id, scopes);
      case BeginMint(tid, caller, scopes) => BeginKeepsInv(st, tid, MintWaiting(caller, scopes));
      case BeginRevoke(tid, root) => BeginKeepsInv(st, tid, RevokeWaiting(root));
      case CheckMint(tid) => CheckMintKeepsInv(st, tid);
      case LockCaller(tid) => LockCallerKeepsInv(st, tid);
      case LockRoot(tid) => LockRootKeepsInv(st, tid);
      case CommitMint(tid, id) => CommitMintKeepsInv(st, tid, id);
      case FindLevel(tid) => FindLevelKeepsInv(st, tid);
      case LockFound(tid, k) => LockFoundKeepsInv(st, tid, k);
      case EndLevel(tid) => EndLevelKeepsInv(st, tid);
      case CommitRevoke(tid) => CommitRevokeKeepsInv(st, tid);
    }
  }

  lemma {:induction false} BoundedIds(ids: set<nat>) returns (n: nat)
    ensures forall k :: k in ids ==> k < n
    decreases |ids|
  {
    n := 0;
    if ids != {} {
      var k :| k in ids;
      var m := BoundedIds(ids - {k});
      n := if k < m then m else k + 1;
      assert forall j :: j in ids ==> j == k || j in ids - {k};
    }
  }

  /** A table in which the forest invariants hold, with nothing in flight. */
  ghost predicate Quiet(st: Sys) {
    KeysInv(st.limit, st.keys) && st.txs == map[] && st.locks == map[]
  }

  lemma {:induction false} InvInEveryInterleaving(st: Sys, events: seq<Event>)
    requires Inv(st) && Exec(st, events).Some?
    ensures Inv(Exec(st, events).value)
  {
    if |events| > 0 {
      InvInEveryInterleaving(st, events[..|events| - 1]);
      StepKeepsInv(Exec(st, events[..|events| - 1]).value, events[|events| - 1]);
    }
  }

  lemma StepKeepsLimit(st: Sys, ev: Event)
    ensures Step(st, ev).Some? ==> Step(st, ev).value.limit == st.limit
  {
  }

  lemma {:induction false} LimitStays(st: Sys, events: seq<Event>)
    ensures Exec(st, events).Some? ==> Exec(st, events).value.limit == st.limit
  {
    if |events| > 0 && Exec(st, events).Some? {
      LimitStays(st, events[..|events| - 1]);
      StepKeepsLimit(Exec(st, events[..|events| - 1]).value, events[|events| - 1]);
    }
  }

  /**
   * In every interleaving of mints and cascading revokes, the committed table keeps its forest: no live key
   * has a revoked ancestor, whatever a key satisfies its ancestors satisfy, and no key has more than the
   * allowed number of live children.
   */
  lemma ForestInEveryInterleaving(st: Sys, events: seq<Event>)
    requires Quiet(st) && Exec(st, events).Some?
    ensures var keys := Exec(st, events).value.keys;
            && Forest(keys)
            && (forall a, k :: Above(keys, a, k) && !keys[k].revoked ==> a in keys && !keys[a].revoked)
            && (forall a, k :: Above(keys, a, k) ==> a in keys && Satisfies(keys[a].scopes, keys[k].scopes))
            && (forall p :: p in keys ==> |LiveChildren(keys, p)| <= st.limit)
  {
    InvInEveryInterleaving(st, events);
    LimitStays(st, events);
    KeysInvMeaning(st.limit, Exec(st, events).value.keys);
  }

  /** Whatever `lower` satisfies, `upper` satisfies. */
  ghost predicate Satisfies(upper: set<string>, lower: set<string>) {
    forall r :: HasScope(lower, r) ==> HasScope(upper, r)
  }

  lemma KeysInvMeaning(limit: nat, keys: Keys)
    requires KeysInv(limit, keys)
    ensures forall a, k :: Above(keys, a, k) && !keys[k].revoked ==> a in keys && !keys[a].revoked
    ensures forall a, k :: Above(keys, a, k) ==> a in keys && Satisfies(keys[a].scopes, keys[k].scopes)
  {
    forall a, k | Above(keys, a, k) && !keys[k].revoked
      ensures a in keys && !keys[a].revoked
    {
      LiveUnderLiveAncestors(keys, a, k);
    }
    forall a, k | Above(keys, a, k)
      ensures a in keys && Satisfies(keys[a].scopes, keys[k].scopes)
    {
      forall r | HasScope(keys[k].scopes, r)
        ensures a in keys && HasScope(keys[a].scopes, r)
      {
        AncestorSatisfies(keys, a, k, r);
      }
      AncestorIsKey(keys, a, k);
    }
  }

  lemma {:induction false} SeenHoldsDescendants(keys: Keys, seen: set<nat>, root: nat, k: nat)
    requires Forest(keys) && root in seen && ChildrenOf(keys, seen) <= seen && Above(keys, root, k)
    ensures k in seen
    decreases k
  {
    assert Rooted(keys, k);
    if root != k {
      SeenHoldsDescendants(keys, seen, root, keys[k].parent.value);
      assert k in ChildrenOf(keys, seen);
    }
  }

  lemma {:induction false} SeenIsBelowRoot(st: Sys, tid: nat, k: nat)
    requires Forest(st.keys) && tid in st.txs && st.txs[tid].Revoking? && TxInv(st, tid) && k in st.txs[tid].seen
    ensures Above(st.keys, st.txs[tid].root, k) && st.txs[tid].root <= k
    decreases k
  {
    assert Rooted(st.keys, k) && FromAbove(st.keys, st.txs[tid].seen, st.txs[tid].root, k);
    if k != st.txs[tid].root {
      SeenIsBelowRoot(st, tid, st.keys[k].parent.value);
    }
  }

  /**
   * The interleaved cascade refines the atomic one: when it commits, it revokes exactly the root and its
   * descendants in the table as committed at that moment, including children minted while it was running.
   */
  lemma CommitRevokesTheTree(st: Sys, tid: nat)
    requires Inv(st)
    ensures DoCommitRevoke(st, tid).Some? ==>
              var after := DoCommitRevoke(st, tid).value.keys;
              && after.Keys == st.keys.Keys
              && forall k :: k in st.keys ==>
                   after[k] == if Above(st.keys, st.txs[tid].root, k) then st.keys[k].(revoked := true) else st.keys[k]
  {
    if DoCommitRevoke(st, tid).Some? {
      var Revoking(root, seen, frontier, found) := st.txs[tid];
      assert TxInv(st, tid) && seen - {} == seen;
      forall k | k in st.keys
        ensures k in seen <==> Above(st.keys, root, k)
      {
        if k in seen {
          SeenIsBelowRoot(st, tid, k);
        }
        if Above(st.keys, root, k) {
          SeenHoldsDescendants(st.keys, seen, root, k);
        }
      }
    }
  }

  // ---- No deadlock ----

  /** The rows a transaction still has to lock before its current statement can finish. */
  function Needs(st: Sys, tid: nat): set<nat>
    requires tid in st.txs
  {
    match st.txs[tid]
    case MintWaiting(caller, _) => {caller}
    case RevokeWaiting(root) => {root}
    case Revoking(_, _, _, found) =>
      if found.Some? then set k | k in found.value && !Holds(st, tid, k) else {}
    case _ => {}
  }

  /** a cannot finish its statement before b ends. */
  ghost predicate WaitsFor(st: Sys, a: nat, b: nat) {
    a in st.txs && b in st.txs && a != b && exists k :: k in Needs(st, a) && Holds(st, b, k)
  }

  ghost predicate Free(st: Sys, tid: nat) {
    forall b :: !WaitsFor(st, tid, b)
  }

  /** Locks are taken top-down: a cascade only ever waits for the root of another, whose id is larger than its own. */
  lemma WaitsGoDown(st: Sys, a: nat, b: nat)
    requires Inv(st)
    ensures WaitsFor(st, a, b) && st.txs[a].Revoking? ==>
              && !st.txs[b].MintWaiting? && !st.txs[b].RevokeWaiting?
              && (st.txs[b].Revoking? ==> st.txs[a].root < st.txs[b].root)
  {
    if WaitsFor(st, a, b) && st.txs[a].Revoking? {
      var k :| k in Needs(st, a) && Holds(st, b, k);
      var p := st.keys[k].parent.value;
      assert TxInv(st, a) && TxInv(st, b);
      assert p in st.txs[a].frontier && Holds(st, a, p);
      assert Rooted(st.keys, k);
      if st.txs[b].Revoking? {
        assert FromAbove(st.keys, st.txs[b].seen, st.txs[b].root, k);
        assert k == st.txs[b].root;
        SeenIsBelowRoot(st, a, p);
      }
    }
  }

  /** Transactions each of which waits for the next. */
  ghost predicate WaitPath(st: Sys, path: seq<nat>) {
    && |path| > 0
    && (forall i :: 0 <= i < |path| ==> path[i] in st.txs)
    && (forall i :: 0 <= i < |path| - 1 ==> WaitsFor(st, path[i], path[i + 1]))
  }

  /** Only a cascade both waits and is waited for. */
  lemma WaitedAndWaiting(st: Sys, a: nat, b: nat, c: nat)
    requires Inv(st)
    ensures WaitsFor(st, a, b) && WaitsFor(st, b, c) ==> st.txs[b].Revoking?
  {
    if WaitsFor(st, a, b) && WaitsFor(st, b, c) {
      assert TxInv(st, b);
    }
  }

  /** From a cascade on, the roots along a path of waiting grow. */
  lemma {:induction false} WaitPathGoesDown(st: Sys, path: seq<nat>)
    requires Inv(st) && WaitPath(st, path) && |path| > 1 && st.txs[path[0]].Revoking?
    ensures st.txs[path[|path| - 1]].Revoking? ==> st.txs[path[0]].root < st.txs[path[|path| - 1]].root
  {
    var n := |path| - 1;
    assert WaitsFor(st, path[n - 1], path[n]);
    if n > 1 {
      assert WaitPath(st, path[..n]);
      WaitPathGoesDown(st, path[..n]);
      assert WaitsFor(st, path[n - 2], path[n - 1]);
      WaitedAndWaiting(st, path[n - 2], path[n - 1], path[n]);
    }
    WaitsGoDown(st, path[n - 1], path[n]);
  }

  lemma WaitsAreAcyclic(st: Sys, path: seq<nat>)
    requires Inv(st)
    ensures WaitPath(st, path) && |path| > 1 ==> path[0] != path[|path| - 1]
  {
    var n := |path| - 1;
    if WaitPath(st, path) && n > 0 && path[0] == path[n] {
      assert WaitsFor(st, path[n - 1], path[n]) && WaitsFor(st, path[0], path[1]);
      WaitedAndWaiting(st, path[n - 1], path[0], path[1]);
      WaitPathGoesDown(st, path);
    }
  }

  /** There is no deadlock: in no reachable state does a transaction wait, through whatever others, for itself. */
  lemma NoDeadlock(st: Sys, events: seq<Event>, path: seq<nat>)
    requires Quiet(st) && Exec(st, events).Some?
    ensures WaitPath(Exec(st, events).value, path) && |path| > 1 ==> path[0] != path[|path| - 1]
  {
    InvInEveryInterleaving(st, events);
    WaitsAreAcyclic(Exec(st, events).value, path);
  }

  /** A transaction that is waited for is a cascade further down, or waits for nobody itself. */
  lemma WaitedFor(st: Sys, a: nat, b: nat)
    requires Inv(st) && WaitsFor(st, a, b)
    ensures Free(st, b) || (st.txs[b].Revoking? && st.txs[b].root in st.keys)
    ensures st.txs[a].Revoking? && st.txs[b].Revoking? ==> st.txs[a].root < st.txs[b].root
  {
    assert TxInv(st, b);
    WaitsGoDown(st, a, b);
    if !st.txs[b].Revoking? {
      assert Needs(st, b) == {};
    }
  }

  lemma WaitPathCons(st: Sys, tid: nat, rest: seq<nat>)
    requires WaitPath(st, rest) && WaitsFor(st, tid, rest[0])
    ensures WaitPath(st, [tid] + rest) && ([tid] + rest)[|rest|] == rest[|rest| - 1]
  {
  }

  /** Following who waits for whom from any transaction ends at one that waits for nobody. */
  lemma {:induction false} FollowWaits(st: Sys, tid: nat, n: nat) returns (path: seq<nat>)
    requires Inv(st) && tid in st.txs && forall k :: k in st.keys ==> k < n
    ensures WaitPath(st, path) && path[0] == tid && Free(st, path[|path| - 1])
    decreases if st.txs[tid].Revoking? then n - st.txs[tid].root else n + 1
  {
    if b :| WaitsFor(st, tid, b) {
      WaitedFor(st, tid, b);
      var rest: seq<nat>;
      if Free(st, b) {
        rest := [b];
      } else {
        rest := FollowWaits(st, b, n);
      }
      WaitPathCons(st, tid, rest);
      path := [tid] + rest;
    } else {
      path := [tid];
    }
  }

  /** So behind every transaction in flight, in every reachable state, stands one that waits for no other. */
  lemma EveryWaitEnds(st: Sys, events: seq<Event>, tid: nat)
    requires Quiet(st) && Exec(st, events).Some? && tid in Exec(st, events).value.txs
    ensures var now := Exec(st, events).value;
            exists path :: WaitPath(now, path) && path[0] == tid && Free(now, path[|path| - 1])
  {
    InvInEveryInterleaving(st, events);
    var now := Exec(st, events).value;
    var n := BoundedIds(now.keys.Keys);
    var path := FollowWaits(now, tid, n);
  }

  /** The next statement of a transaction, locking a needed row first if there is one. */
  function NextEvent(st: Sys, tid: nat, k: nat, newId: nat): Event
    requires tid in st.txs
  {
    match st.txs[tid]
    case MintWaiting(_, _) => LockCaller(tid)
    case MintLocked(_, _) => CheckMint(tid)
    case MintChecked(_, _) => CommitMint(tid, newId)
    case RevokeWaiting(_) => LockRoot(tid)
    case Revoking(_, _, frontier, found) =>
      if found.None? then (if frontier == {} then CommitRevoke(tid) else FindLevel(tid))
      else if k in Needs(st, tid) then LockFound(tid, k)
      else EndLevel(tid)
  }

  lemma FreeNeedsAreUnlocked(st: Sys, tid: nat)
    requires Inv(st) && tid in st.txs && Free(st, tid)
    ensures forall j :: j in Needs(st, tid) ==> j !in st.locks
  {
    assert TxInv(st, tid);
    assert forall j :: j in Needs(st, tid) ==> !Holds(st, tid, j);
    assert forall j, b :: j in Needs(st, tid) && b != tid && Holds(st, b, j) && b in st.txs ==> WaitsFor(st, tid, b);
    forall j | j in Needs(st, tid)
      ensures j !in st.locks
    {
      if j in st.locks {
        assert Holds(st, st.locks[j], j);
      }
    }
  }

  lemma FreeMintCanMove(st: Sys, tid: nat, k: nat, newId: nat)
    requires Inv(st) && tid in st.txs && !st.txs[tid].Revoking? && forall j :: j in Needs(st, tid) ==> j !in st.locks
    requires forall j :: j in st.keys ==> j < newId
    ensures Step(st, NextEvent(st, tid, k, newId)).Some?
  {
    assert TxInv(st, tid);
    match st.txs[tid]
    case MintWaiting(caller, _) => assert caller in Needs(st, tid) && caller in st.keys;
    case MintLocked(caller, _) => assert caller in st.keys;
    case MintChecked(caller, _) => assert caller in st.keys && newId !in st.keys;
    case RevokeWaiting(root) => assert root in Needs(st, tid);
  }

  lemma FreeRevokeCanMove(st: Sys, tid: nat, k: nat, newId: nat)
    requires tid in st.txs && st.txs[tid].Revoking? && forall j :: j in Needs(st, tid) ==> j !in st.locks
    requires Needs(st, tid) != {} ==> k in Needs(st, tid)
    ensures Step(st, NextEvent(st, tid, k, newId)).Some?
  {
    var found := st.txs[tid].found;
    if found.Some? && k !in Needs(st, tid) {
      assert forall j :: j in found.value && !Holds(st, tid, j) ==> j in Needs(st, tid);
      assert DoEndLevel(st, tid).Some?;
    }
  }

  /** A transaction that waits for nobody can make its next statement, whichever needed row it locks first. */
  lemma FreeCanMove(st: Sys, tid: nat, k: nat, newId: nat)
    requires Inv(st) && tid in st.txs && Free(st, tid)
    requires Needs(st, tid) != {} ==> k in Needs(st, tid)
    requires forall j :: j in st.keys ==> j < newId
    ensures Step(st, NextEvent(st, tid, k, newId)).Some?
  {
    FreeNeedsAreUnlocked(st, tid);
    if st.txs[tid].Revoking? {
      FreeRevokeCanMove(st, tid, k, newId);
    } else {
      FreeMintCanMove(st, tid, k, newId);
    }
  }
}

/** The table of API keys and the cascade over `parent_key_id` (app/features/admin/router.py). */
module KeyForest {
  import opened Basics
  import opened ApiKeys

  datatype Key = Key(parent: Option<nat>, revoked: bool, scopes: set<string>)

  type Keys = map<nat, Key>

  // ---- The cascade on any finite parent graph ----

  /** A chain of keys, each minted from the one before it. */
  ghost predicate Chain(keys: Keys, path: seq<nat>) {
    && |path| > 0
    && (forall i :: 0 <= i < |path| ==> path[i] in keys)
    && (forall i :: 0 < i < |path| ==> keys[path[i]].parent == Some(path[i - 1]))
  }

  ghost predicate Reaches(keys: Keys, root: nat, k: nat) {
    exists path :: Chain(keys, path) && path[0] == root && path[|path| - 1] == k
  }

  lemma ReachesChild(keys: Keys, root: nat, p: nat, k: nat)
    requires Reaches(keys, root, p) && k in keys && keys[k].parent == Some(p)
    ensures Reaches(keys, root, k)
  {
    var path :| Chain(keys, path) && path[0] == root && path[|path| - 1] == p;
    assert Chain(keys, path + [k]);
  }

  /** Everything reachable from a member of a set closed under children is in the set. */
  lemma {:induction false} ClosedHoldsReach(keys: Keys, closed: set<nat>, path: seq<nat>)
    requires Chain(keys, path) && path[0] in closed
    requires forall k :: k in keys && keys[k].parent.Some? && keys[k].parent.value in closed ==> k in closed
    ensures path[|path| - 1] in closed
  {
    if |path| > 1 {
      assert Chain(keys, path[..|path| - 1]);
      ClosedHoldsReach(keys, closed, path[..|path| - 1]);
    }
  }

  function ChildrenOf(keys: Keys, frontier: set<nat>): set<nat> {
    set k | k in keys && keys[k].parent.Some? && keys[k].parent.value in frontier
  }

  function RevokeAll(keys: Keys, ids: set<nat>): Keys {
    map k | k in keys :: if k in ids then keys[k].(revoked := true) else keys[k]
  }

  class KeyTable {
    var keys: Keys

    constructor (initial: Keys)
      ensures keys == initial
    {
      keys := initial;
    }

    /** The loop body of the cascade: revokes the newly found children, which become the next frontier. */
    method RevokeLevel(children: set<nat>, seen: set<nat>, ghost before: Keys)
      returns (seen': set<nat>, frontier: set<nat>)
      requires keys == RevokeAll(before, seen) && children <= before.Keys
      modifies this
      ensures seen' == seen + children && frontier == children - seen
      ensures keys == RevokeAll(before, seen')
    {
      seen', frontier := seen, {};
      var todo := children;
      while todo != {}
        invariant todo <= children
        invariant seen' == seen + (children - todo)
        invariant frontier == (children - todo) - seen
        invariant keys == RevokeAll(before, seen')
      {
        var child :| child in todo;
        todo := todo - {child};
        if child !in seen' {
          seen' := seen' + {child};
          keys := keys[child := keys[child].(revoked := true)];
          frontier := frontier + {child};
        }
      }
    }

    /**
     * `_cascade_revoke`: revokes the root and exactly the keys reachable through parent_key_id, touches
     * nothing else, and ends on every finite parent graph, even a cyclic one.
     */
    method CascadeRevoke(root: nat)
      requires root in keys
      modifies this
      ensures keys.Keys == old(keys).Keys
      ensures forall k :: k in keys ==>
                && (Reaches(old(keys), root, k) ==> keys[k] == old(keys)[k].(revoked := true))
                && (!Reaches(old(keys), root, k) ==> keys[k] == old(keys)[k])
    {
      ghost var before := keys;
      keys := keys[root := keys[root].(revoked := true)];
      var frontier := {root};
      var seen := {root};
      assert Chain(before, [root]);
      while frontier != {}
        invariant keys == RevokeAll(before, seen)
        invariant root in seen && frontier <= seen <= before.Keys
        invariant forall k :: k in seen ==> Reaches(before, root, k)
        invariant ChildrenOf(before, seen - frontier) <= seen
        decreases before.Keys - seen, frontier
      {
        var children := ChildrenOf(keys, frontier);
        assert children == ChildrenOf(before, frontier);
        LevelReached(before, root, seen, frontier);
        ghost var seen0 := seen;
        seen, frontier := RevokeLevel(children, seen, before);
        assert seen - frontier == seen0;
      }
      SeenIsReach(before, root, seen);
    }
  }

  lemma LevelReached(keys: Keys, root: nat, seen: set<nat>, frontier: set<nat>)
    requires frontier <= seen <= keys.Keys
    requires forall k :: k in seen ==> Reaches(keys, root, k)
    requires ChildrenOf(keys, seen - frontier) <= seen
    ensures forall k :: k in ChildrenOf(keys, frontier) ==> Reaches(keys, root, k)
    ensures ChildrenOf(keys, seen) <= seen + ChildrenOf(keys, frontier)
  {
    forall k | k in ChildrenOf(keys, frontier)
      ensures Reaches(keys, root, k)
    {
      ReachesChild(keys, root, keys[k].parent.value, k);
    }
  }

  lemma SeenIsReach(keys: Keys, root: nat, seen: set<nat>)
    requires root in seen && seen <= keys.Keys
    requires forall k :: k in seen ==> Reaches(keys, root, k)
    requires ChildrenOf(keys, seen - {}) <= seen
    ensures forall k :: k in keys ==> (k in seen <==> Reaches(keys, root, k))
  {
    assert seen - {} == seen;
    forall k | k in keys && Reaches(keys, root, k)
      ensures k in seen
    {
      var path :| Chain(keys, path) && path[0] == root && path[|path| - 1] == k;
      forall j | j in keys && keys[j].parent.Some? && keys[j].parent.value in seen
        ensures j in seen
      {
        assert j in ChildrenOf(keys, seen);
      }
      ClosedHoldsReach(keys, seen, path);
    }
  }

  // ---- Lineage: a child is minted after its parent, so ids grow down a tree ----

  predicate Rooted(keys: Keys, k: nat) {
    k in keys && keys[k].parent.Some? ==> keys[k].parent.value in keys && keys[k].parent.value < k
  }

  ghost predicate Forest(keys: Keys) {
    forall k :: Rooted(keys, k)
  }

  /** a is k or one of its ancestors. */
  ghost predicate Above(keys: Keys, a: nat, k: nat)
    requires Forest(keys)
    decreases k
  {
    assert Rooted(keys, k);
    k in keys && (a == k || (keys[k].parent.Some? && Above(keys, a, keys[k].parent.value)))
  }

  /** In a forest, the keys the cascade reaches are the descendants of its root. */
  lemma {:induction false} ReachIsDescent(keys: Keys, root: nat, k: nat)
    requires Forest(keys) && root in keys
    ensures Reaches(keys, root, k) <==> Above(keys, root, k)
    decreases k
  {
    assert Rooted(keys, k);
    if Reaches(keys, root, k) {
      var path :| Chain(keys, path) && path[0] == root && path[|path| - 1] == k;
      if |path| > 1 {
        var up := path[..|path| - 1];
        assert Chain(keys, up);
        assert Reaches(keys, root, up[|up| - 1]);
        ReachIsDescent(keys, root, up[|up| - 1]);
      }
    }
    if Above(keys, root, k) {
      if root == k {
        assert Chain(keys, [root]);
      } else {
        ReachIsDescent(keys, root, keys[k].parent.value);
        ReachesChild(keys, root, keys[k].parent.value, k);
      }
    }
  }

  lemma {:induction false} AncestorIsKey(keys: Keys, a: nat, k: nat)
    requires Forest(keys) && Above(keys, a, k)
    ensures a in keys
    decreases k
  {
    assert Rooted(keys, k);
    if a != k {
      AncestorIsKey(keys, a, keys[k].parent.value);
    }
  }

  // ---- Forest invariants ----

  /** No live key has a revoked parent. */
  predicate LiveParent(keys: Keys, k: nat) {
    k in keys && !keys[k].revoked && keys[k].parent.Some? && keys[k].parent.value in keys ==>
      !keys[keys[k].parent.value].revoked
  }

  ghost predicate LiveUnderLive(keys: Keys) {
    forall k :: LiveParent(keys, k)
  }

  /** So no live key has a revoked ancestor. */
  lemma {:induction false} LiveUnderLiveAncestors(keys: Keys, a: nat, k: nat)
    requires Forest(keys) && LiveUnderLive(keys) && Above(keys, a, k) && !keys[k].revoked
    ensures a in keys && !keys[a].revoked
    decreases k
  {
    assert Rooted(keys, k) && LiveParent(keys, k);
    if a != k {
      LiveUnderLiveAncestors(keys, a, keys[k].parent.value);
    }
  }

  /** Every scope of a minted key was satisfied by its parent. */
  ghost predicate ScopesInherited(keys: Keys) {
    forall k :: Inherits(keys, k)
  }

  predicate Covered(granted: set<string>, scopes: set<string>) {
    forall s :: s in scopes ==> HasScope(granted, s)
  }

  predicate Inherits(keys: Keys, k: nat) {
    k in keys && keys[k].parent.Some? && keys[k].parent.value in keys ==>
      Covered(keys[keys[k].parent.value].scopes, keys[k].scopes)
  }

  /** Whatever a key satisfies, each of its ancestors satisfies. */
  lemma {:induction false} AncestorSatisfies(keys: Keys, a: nat, k: nat, required: string)
    requires Forest(keys) && ScopesInherited(keys) && Above(keys, a, k) && HasScope(keys[k].scopes, required)
    ensures a in keys && HasScope(keys[a].scopes, required)
    decreases k
  {
    assert Rooted(keys, k) && Inherits(keys, k);
    if a != k {
      var p := keys[k].parent.value;
      SubsetSatisfiesLess(keys[p].scopes, keys[k].scopes, required);
      AncestorSatisfies(keys, a, p, required);
    }
  }

  /** A tree whose root holds no finance or sponsors scope never contains a key that satisfies one. */
  lemma IsolatedModulesStayOut(keys: Keys, root: nat, k: nat, required: string)
    requires Forest(keys) && ScopesInherited(keys) && Above(keys, root, k) && root in keys
    requires Isolated(ModuleOf(required))
    requires forall s :: s in keys[root].scopes ==> ModuleOf(s) != ModuleOf(required)
    ensures !HasScope(keys[k].scopes, required)
  {
    if HasScope(keys[k].scopes, required) {
      AncestorSatisfies(keys, root, k, required);
      IsolatedOnlyByName(keys[root].scopes, required);
    }
  }

  /** A tree whose root holds only read scopes contains no key that satisfies a write scope. */
  lemma ReadOnlyTreesNeverWrite(keys: Keys, root: nat, k: nat, x: string)
    requires Forest(keys) && ScopesInherited(keys) && Above(keys, root, k) && root in keys
    requires forall s :: s in keys[root].scopes ==> ReadOnly(s)
    ensures !HasScope(keys[k].scopes, "write:" + x)
  {
    if HasScope(keys[k].scopes, "write:" + x) {
      AncestorSatisfies(keys, root, k, "write:" + x);
      ReadOnlyNeverWrites(keys[root].scopes, x);
    }
  }
}

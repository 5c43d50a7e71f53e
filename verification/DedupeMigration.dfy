/**
 * The fold that makes the limiter's unique key hold
 * (alembic/versions/b1d4f7a9c3e2_ratelimit_bucket_aware_unique.py).
 */
module DedupeMigration {
  import opened Basics
  import opened RateLimit
  import Calendar

  /** At most one row per (key, bucket, window): what the unique index demands. */
  ghost predicate Unique(rows: Table) {
    forall i, j :: 0 <= i < j < |rows| ==> rows[i].group != rows[j].group
  }

  function SumCount(rows: Table, g: Group): nat {
    if |rows| == 0 then 0
    else SumCount(rows[..|rows| - 1], g) + if rows[|rows| - 1].group == g then rows[|rows| - 1].count else 0
  }

  function SumTrigger(rows: Table, g: Group): nat {
    if |rows| == 0 then 0
    else SumTrigger(rows[..|rows| - 1], g) + if rows[|rows| - 1].group == g then rows[|rows| - 1].trigger else 0
  }

  function GroupSize(rows: Table, g: Group): nat {
    if |rows| == 0 then 0
    else GroupSize(rows[..|rows| - 1], g) + if rows[|rows| - 1].group == g then 1 else 0
  }

  /** Row i has the lowest id of its group. */
  predicate Keeps(rows: Table, i: nat)
    requires i < |rows|
  {
    Find(rows, rows[i].group) == Some(i)
  }

  /** The UPDATE: the kept row of a group of several takes the sums. */
  function Folded(rows: Table, i: nat): Row
    requires i < |rows|
  {
    var g := rows[i].group;
    if Keeps(rows, i) && GroupSize(rows, g) > 1 then Row(g, SumCount(rows, g), SumTrigger(rows, g)) else rows[i]
  }

  /** The DELETE over the first n rows: only kept rows stay, in id order. */
  function Kept(rows: Table, n: nat): Table
    requires n <= |rows|
  {
    if n == 0 then []
    else Kept(rows, n - 1) + if Keeps(rows, n - 1) then [Folded(rows, n - 1)] else []
  }

  lemma {:induction false} SingletonSums(rows: Table, i: nat)
    requires i < |rows| && GroupSize(rows, rows[i].group) <= 1
    ensures SumCount(rows, rows[i].group) == rows[i].count && SumTrigger(rows, rows[i].group) == rows[i].trigger
  {
    var n := |rows| - 1;
    if i < n {
      GroupSizePositive(rows[..n], i);
      SingletonSums(rows[..n], i);
    } else {
      EmptyGroup(rows[..n], rows[i].group);
    }
  }

  lemma {:induction false} GroupSizePositive(rows: Table, i: nat)
    requires i < |rows|
    ensures GroupSize(rows, rows[i].group) > 0
  {
    if i < |rows| - 1 {
      GroupSizePositive(rows[..|rows| - 1], i);
    }
  }

  lemma {:induction false} EmptyGroup(rows: Table, g: Group)
    requires GroupSize(rows, g) == 0 || forall i :: 0 <= i < |rows| ==> rows[i].group != g
    ensures SumCount(rows, g) == 0 && SumTrigger(rows, g) == 0
  {
    if |rows| > 0 {
      EmptyGroup(rows[..|rows| - 1], g);
    }
  }

  /** A kept row ends up with its group's sums, whether the group was folded or single. */
  lemma FoldedSums(rows: Table, i: nat)
    requires i < |rows| && Keeps(rows, i)
    ensures Folded(rows, i) == Row(rows[i].group, SumCount(rows, rows[i].group), SumTrigger(rows, rows[i].group))
  {
    if GroupSize(rows, rows[i].group) <= 1 {
      SingletonSums(rows, i);
    }
  }

  lemma {:induction false} KeptRows(rows: Table, n: nat)
    requires n <= |rows|
    ensures Unique(Kept(rows, n))
    ensures forall r :: r in Kept(rows, n) ==> exists i :: 0 <= i < n && Keeps(rows, i) && r == Folded(rows, i)
    ensures forall i :: 0 <= i < n && Keeps(rows, i) ==> Folded(rows, i) in Kept(rows, n)
  {
    if n > 0 {
      KeptRows(rows, n - 1);
      var before := Kept(rows, n - 1);
      if Keeps(rows, n - 1) {
        forall k | 0 <= k < |before|
          ensures before[k].group != rows[n - 1].group
        {
          assert before[k] in before;
          var i :| 0 <= i < n - 1 && Keeps(rows, i) && before[k] == Folded(rows, i);
          assert Folded(rows, i).group == rows[i].group;
        }
      }
    }
  }

  lemma {:induction false} UniqueSum(rows: Table, i: nat)
    requires Unique(rows) && i < |rows|
    ensures SumCount(rows, rows[i].group) == rows[i].count && SumTrigger(rows, rows[i].group) == rows[i].trigger
  {
    var n := |rows| - 1;
    if i < n {
      UniqueSum(rows[..n], i);
    } else {
      EmptyGroup(rows[..n], rows[i].group);
    }
  }

  /** After the fold every group has one row, and that row carries exactly the sums the group had. */
  lemma FoldPreservesSums(rows: Table, g: Group)
    ensures var after := Kept(rows, |rows|);
            && Unique(after)
            && SumCount(after, g) == SumCount(rows, g) && SumTrigger(after, g) == SumTrigger(rows, g)
            && CountOf(after, g) == SumCount(rows, g) && TriggerOf(after, g) == SumTrigger(rows, g)
            && (Find(after, g).Some? <==> Find(rows, g).Some?)
  {
    var after := Kept(rows, |rows|);
    KeptRows(rows, |rows|);
    var first := Find(rows, g);
    if first.Some? {
      FoldedSums(rows, first.value);
      var k :| 0 <= k < |after| && after[k] == Folded(rows, first.value);
      UniqueSum(after, k);
      assert Find(after, g).value <= k;
      assert Find(after, g).value == k;
    } else {
      forall k | 0 <= k < |after|
        ensures after[k].group != g
      {
        assert after[k] in after;
      }
      EmptyGroup(after, g);
      EmptyGroup(rows, g);
    }
  }

  class RateLimitTable {
    var rows: Table

    constructor (initial: Table)
      ensures rows == initial
    {
      rows := initial;
    }

    /** `UPDATE ... FROM (... HAVING COUNT(*) > 1)`, then `DELETE ... WHERE id <> keep_id`. */
    method Dedupe()
      modifies this
      ensures rows == Kept(old(rows), |old(rows)|)
      ensures Unique(rows)
      ensures forall g ::
                SumCount(rows, g) == SumCount(old(rows), g) && SumTrigger(rows, g) == SumTrigger(old(rows), g)
    {
      ghost var before := rows;
      var snapshot := rows;
      for i := 0 to |snapshot|
        invariant |rows| == |snapshot| && snapshot == before
        invariant forall k :: 0 <= k < i ==> rows[k] == Folded(before, k)
        invariant forall k :: i <= k < |rows| ==> rows[k] == before[k]
      {
        var g := snapshot[i].group;
        if Keeps(snapshot, i) && GroupSize(snapshot, g) > 1 {
          rows := rows[i := Row(g, SumCount(snapshot, g), SumTrigger(snapshot, g))];
        }
      }
      var updated := rows;
      var left: Table := [];
      for i := 0 to |updated|
        invariant left == Kept(before, i)
      {
        if Keeps(snapshot, i) {
          left := left + [updated[i]];
        }
      }
      rows := left;
      forall g
        ensures SumCount(rows, g) == SumCount(before, g) && SumTrigger(rows, g) == SumTrigger(before, g)
      {
        FoldPreservesSums(before, g);
      }
      KeptRows(before, |before|);
    }
  }

  /** The limiter itself never breaks what the fold established. */
  lemma {:induction false} AddKeepsUnique(rows: Table, g: Group, count: nat, trigger: nat)
    requires Unique(rows)
    ensures Unique(Add(rows, g, count, trigger))
  {
    AddFinds(rows, g, count, trigger);
  }

  lemma {:induction false} SinceKeepsUnique(rows: Table, cutoff: int)
    requires Unique(rows)
    ensures Unique(Since(rows, cutoff))
    ensures forall r :: r in Since(rows, cutoff) ==> r in rows
  {
    if |rows| > 0 {
      SinceKeepsUnique(rows[1..], cutoff);
      var rest := Since(rows[1..], cutoff);
      forall k | 0 <= k < |rest|
        ensures rest[k].group != rows[0].group
      {
        assert rest[k] in rows[1..];
      }
    }
  }

  /** Any call and any prune keep one row per group. */
  lemma LimiterKeepsUnique(lim: Limits, rows: Table, c: Call, at: int)
    requires Unique(rows)
    ensures Unique(Do(lim, rows, c).0) && Unique(Prune(rows, at))
  {
    SinceKeepsUnique(rows, at - 2 * Calendar.DAY);
    match c
    case Request(key, ip, now) => AddKeepsUnique(rows, MinuteGroup(key, ip, now), 1, 0);
    case LlmGlobal(now) => AddKeepsUnique(rows, TriggerGroup(None, now), 0, 1);
    case Trigger(key, now) =>
      AddKeepsUnique(rows, TriggerGroup(Some(key), now), 0, 1);
      AddKeepsUnique(rows, TriggerGroup(Some(key), now), 0, 0);
  }
}

/**
  One region's cleanup pass: every snapshot in the listing is put through
  the retention decision; each eligible one adds its size to the saving,
  and is then either counted (dry run) or handed to the delete call, which
  may fail without stopping the pass.

  The listings (volumes in use, snapshots) are inputs. The delete call is
  an oracle `deleteSucceeds` saying, per snapshot id, whether the call
  returns normally (true) or raises a client error (false).
 */
module RegionPass {
  import opened Retention

  /** The eligible snapshots of a listing, in listing order. */
  function EligibleSnapshots(snapshots: seq<Snapshot>, activeVolumes: set<string>, retentionDays: int, now: int): (eligible: seq<Snapshot>)
    ensures |eligible| <= |snapshots|
  {
    if snapshots == [] then []
    else
      var rest := EligibleSnapshots(snapshots[1..], activeVolumes, retentionDays, now);
      if ShouldDeleteSnapshot(snapshots[0], activeVolumes, retentionDays, now)
      then [snapshots[0]] + rest
      else rest
  }

  /** A snapshot is in the eligible list exactly when it is listed and the retention decision allows it. */
  lemma {:induction false} EligibleMembership(snapshots: seq<Snapshot>, s: Snapshot, activeVolumes: set<string>, retentionDays: int, now: int)
    ensures s in EligibleSnapshots(snapshots, activeVolumes, retentionDays, now)
        <==> s in snapshots && ShouldDeleteSnapshot(s, activeVolumes, retentionDays, now)
  {
    if snapshots != [] {
      EligibleMembership(snapshots[1..], s, activeVolumes, retentionDays, now);
      assert s in snapshots <==> s == snapshots[0] || s in snapshots[1..];
    }
  }

  /** The sum of the volume sizes of the given snapshots, in GB. */
  function TotalSize(snapshots: seq<Snapshot>): nat {
    if snapshots == [] then 0 else snapshots[0].volumeSize + TotalSize(snapshots[1..])
  }

  /** The ids of the given snapshots, in order. */
  function SnapshotIds(snapshots: seq<Snapshot>): seq<string> {
    seq(|snapshots|, i requires 0 <= i < |snapshots| => snapshots[i].snapshotId)
  }

  /** How many of the given snapshots the delete oracle removes. */
  function CountDeleted(snapshots: seq<Snapshot>, deleteSucceeds: string -> bool): (n: nat)
    ensures n <= |snapshots|
    ensures (forall s :: s in snapshots ==> deleteSucceeds(s.snapshotId)) ==> n == |snapshots|
    ensures (forall s :: s in snapshots ==> !deleteSucceeds(s.snapshotId)) ==> n == 0
  {
    if snapshots == [] then 0
    else
      assert forall s :: s in snapshots[1..] ==> s in snapshots;
      (if deleteSucceeds(snapshots[0].snapshotId) then 1 else 0) + CountDeleted(snapshots[1..], deleteSucceeds)
  }

  lemma {:induction false} EligibleAppend(a: seq<Snapshot>, b: seq<Snapshot>, activeVolumes: set<string>, retentionDays: int, now: int)
    ensures EligibleSnapshots(a + b, activeVolumes, retentionDays, now)
         == EligibleSnapshots(a, activeVolumes, retentionDays, now) + EligibleSnapshots(b, activeVolumes, retentionDays, now)
  {
    if a != [] {
      assert (a + b)[1..] == a[1..] + b;
      EligibleAppend(a[1..], b, activeVolumes, retentionDays, now);
    } else {
      assert a + b == b;
    }
  }

  lemma {:induction false} TotalSizeAppend(a: seq<Snapshot>, b: seq<Snapshot>)
    ensures TotalSize(a + b) == TotalSize(a) + TotalSize(b)
  {
    if a != [] {
      assert (a + b)[1..] == a[1..] + b;
      TotalSizeAppend(a[1..], b);
    } else {
      assert a + b == b;
    }
  }

  lemma {:induction false} CountDeletedAppend(a: seq<Snapshot>, b: seq<Snapshot>, deleteSucceeds: string -> bool)
    ensures CountDeleted(a + b, deleteSucceeds) == CountDeleted(a, deleteSucceeds) + CountDeleted(b, deleteSucceeds)
  {
    if a != [] {
      assert (a + b)[1..] == a[1..] + b;
      CountDeletedAppend(a[1..], b, deleteSucceeds);
    } else {
      assert a + b == b;
    }
  }

  /** Each snapshot occurs in the eligible list as often as it is listed, or not at all when it is ineligible. */
  lemma {:induction false} EligibleMultiplicity(snapshots: seq<Snapshot>, x: Snapshot, activeVolumes: set<string>, retentionDays: int, now: int)
    ensures multiset(EligibleSnapshots(snapshots, activeVolumes, retentionDays, now))[x]
         == if ShouldDeleteSnapshot(x, activeVolumes, retentionDays, now) then multiset(snapshots)[x] else 0
  {
    if snapshots != [] {
      EligibleMultiplicity(snapshots[1..], x, activeVolumes, retentionDays, now);
      assert snapshots == [snapshots[0]] + snapshots[1..];
      assert multiset(snapshots) == multiset{snapshots[0]} + multiset(snapshots[1..]);
    }
  }

  /** Removing the first of one list and a matching entry of a permutation of it leaves permutations. */
  lemma MultisetRemove(a: seq<Snapshot>, b: seq<Snapshot>, k: nat)
    requires multiset(a) == multiset(b)
    requires k < |b| && a != [] && b[k] == a[0]
    ensures multiset(a[1..]) == multiset(b[..k] + b[k + 1..])
  {
    var x := a[0];
    assert a == [x] + a[1..];
    assert b == b[..k] + [x] + b[k + 1..];
    assert multiset(a) == multiset{x} + multiset(a[1..]);
    assert multiset(b) == multiset(b[..k]) + multiset{x} + multiset(b[k + 1..]);
    assert multiset(b[..k] + b[k + 1..]) == multiset(b[..k]) + multiset(b[k + 1..]);
    assert multiset(a[1..]) == multiset(a) - multiset{x};
    assert multiset(b[..k]) + multiset(b[k + 1..]) == multiset(b) - multiset{x};
  }

  /** Taking the k-th snapshot out of a list lowers its total size by that snapshot's size. */
  lemma TotalSizeRemove(b: seq<Snapshot>, k: nat)
    requires k < |b|
    ensures TotalSize(b) == b[k].volumeSize + TotalSize(b[..k] + b[k + 1..])
  {
    assert TotalSize(b) == TotalSize(b[..k]) + TotalSize(b[k..]) by {
      assert b == b[..k] + b[k..];
      TotalSizeAppend(b[..k], b[k..]);
    }
    assert TotalSize(b[k..]) == b[k].volumeSize + TotalSize(b[k + 1..]) by {
      assert b[k..][1..] == b[k + 1..];
    }
    TotalSizeAppend(b[..k], b[k + 1..]);
  }

  /** The total size of a list of snapshots does not depend on their order. */
  lemma {:induction false} TotalSizePermutation(a: seq<Snapshot>, b: seq<Snapshot>)
    requires multiset(a) == multiset(b)
    ensures TotalSize(a) == TotalSize(b)
    decreases |a|
  {
    if a == [] {
      assert |b| == |multiset(b)| == 0;
      assert b == [];
    } else {
      var x := a[0];
      assert x in b by {
        assert x in multiset(a);
      }
      var k :| 0 <= k < |b| && b[k] == x;
      var rest := b[..k] + b[k + 1..];
      MultisetRemove(a, b, k);
      TotalSizePermutation(a[1..], rest);
      TotalSizeRemove(b, k);
      assert TotalSize(a) == x.volumeSize + TotalSize(a[1..]);
    }
  }

  /**
    The eligible snapshots, their number and their total size depend only on
    which snapshots are listed, not on the order of the listing.
   */
  lemma EligibleOrderIrrelevant(s: seq<Snapshot>, t: seq<Snapshot>, activeVolumes: set<string>, retentionDays: int, now: int)
    requires multiset(s) == multiset(t)
    ensures multiset(EligibleSnapshots(s, activeVolumes, retentionDays, now)) == multiset(EligibleSnapshots(t, activeVolumes, retentionDays, now))
    ensures |EligibleSnapshots(s, activeVolumes, retentionDays, now)| == |EligibleSnapshots(t, activeVolumes, retentionDays, now)|
    ensures TotalSize(EligibleSnapshots(s, activeVolumes, retentionDays, now)) == TotalSize(EligibleSnapshots(t, activeVolumes, retentionDays, now))
  {
    var es := EligibleSnapshots(s, activeVolumes, retentionDays, now);
    var et := EligibleSnapshots(t, activeVolumes, retentionDays, now);
    forall x
      ensures multiset(es)[x] == multiset(et)[x]
    {
      EligibleMultiplicity(s, x, activeVolumes, retentionDays, now);
      EligibleMultiplicity(t, x, activeVolumes, retentionDays, now);
    }
    assert multiset(es) == multiset(et);
    assert |es| == |multiset(es)| == |multiset(et)| == |et|;
    TotalSizePermutation(es, et);
  }

  /** One more listed snapshot extends the eligible list by itself when it is eligible, and by nothing otherwise. */
  lemma EligibleSnoc(prefix: seq<Snapshot>, x: Snapshot, activeVolumes: set<string>, retentionDays: int, now: int)
    ensures EligibleSnapshots(prefix + [x], activeVolumes, retentionDays, now)
         == EligibleSnapshots(prefix, activeVolumes, retentionDays, now)
            + (if ShouldDeleteSnapshot(x, activeVolumes, retentionDays, now) then [x] else [])
  {
    EligibleAppend(prefix, [x], activeVolumes, retentionDays, now);
    assert [x][1..] == [];
  }

  /** What one more eligible snapshot adds to the saving, the delete trace and the deleted count. */
  lemma QuantitiesSnoc(eligible: seq<Snapshot>, x: Snapshot, deleteSucceeds: string -> bool)
    ensures TotalSize(eligible + [x]) == TotalSize(eligible) + x.volumeSize
    ensures SnapshotIds(eligible + [x]) == SnapshotIds(eligible) + [x.snapshotId]
    ensures CountDeleted(eligible + [x], deleteSucceeds) == CountDeleted(eligible, deleteSucceeds) + (if deleteSucceeds(x.snapshotId) then 1 else 0)
  {
    TotalSizeAppend(eligible, [x]);
    CountDeletedAppend(eligible, [x], deleteSucceeds);
    assert [x][1..] == [];
  }

  /**
    process_region over given listings. `deleteCalls` records the ids passed
    to the delete call, in order. The saving counts every eligible snapshot,
    whether or not its deletion went through; the deleted count counts only
    dry-run simulations or deletions that succeeded.
   */
  method ProcessRegion(activeVolumes: set<string>, snapshots: seq<Snapshot>, retentionDays: int, dryRun: bool,
                       now: int, deleteSucceeds: string -> bool)
    returns (deletedCount: nat, sizeSaved: nat, ghost deleteCalls: seq<string>)
    ensures sizeSaved == TotalSize(EligibleSnapshots(snapshots, activeVolumes, retentionDays, now))
    ensures dryRun ==> deleteCalls == [] && deletedCount == |EligibleSnapshots(snapshots, activeVolumes, retentionDays, now)|
    ensures !dryRun ==> deleteCalls == SnapshotIds(EligibleSnapshots(snapshots, activeVolumes, retentionDays, now))
    ensures !dryRun ==> deletedCount == CountDeleted(EligibleSnapshots(snapshots, activeVolumes, retentionDays, now), deleteSucceeds)
    ensures deletedCount <= |EligibleSnapshots(snapshots, activeVolumes, retentionDays, now)|
  {
    deletedCount, sizeSaved, deleteCalls := 0, 0, [];
    ghost var eligible: seq<Snapshot> := [];
    for i := 0 to |snapshots|
      invariant eligible == EligibleSnapshots(snapshots[..i], activeVolumes, retentionDays, now)
      invariant sizeSaved == TotalSize(eligible)
      invariant deleteCalls == if dryRun then [] else SnapshotIds(eligible)
      invariant deletedCount == if dryRun then |eligible| else CountDeleted(eligible, deleteSucceeds)
    {
      var snapshot := snapshots[i];
      assert snapshots[..i + 1] == snapshots[..i] + [snapshot];
      var eligibleNow := ShouldDeleteSnapshot(snapshot, activeVolumes, retentionDays, now);
      EligibleSnoc(snapshots[..i], snapshot, activeVolumes, retentionDays, now);
      if eligibleNow {
        QuantitiesSnoc(eligible, snapshot, deleteSucceeds);
        eligible := eligible + [snapshot];
        sizeSaved := sizeSaved + snapshot.volumeSize;
        if !dryRun {
          var ok := deleteSucceeds(snapshot.snapshotId);
          deleteCalls := deleteCalls + [snapshot.snapshotId];
          if ok {
            deletedCount := deletedCount + 1;
          }
        } else {
          deletedCount := deletedCount + 1;
        }
      }
    }
    assert snapshots[..|snapshots|] == snapshots;
  }

  /**
    The same listing passed once in dry-run and once in live mode. The saving
    is always the same; the live count never exceeds the dry-run count, and
    equals it when every delete call for an eligible snapshot succeeds.
   */
  method CompareDryRunWithLive(activeVolumes: set<string>, snapshots: seq<Snapshot>, retentionDays: int,
                               now: int, deleteSucceeds: string -> bool)
    returns (dryDeleted: nat, drySaved: nat, liveDeleted: nat, liveSaved: nat)
    ensures drySaved == liveSaved
    ensures liveDeleted <= dryDeleted
    ensures (forall s :: s in snapshots && ShouldDeleteSnapshot(s, activeVolumes, retentionDays, now) ==> deleteSucceeds(s.snapshotId))
            ==> liveDeleted == dryDeleted
  {
    ghost var dryCalls, liveCalls;
    dryDeleted, drySaved, dryCalls := ProcessRegion(activeVolumes, snapshots, retentionDays, true, now, deleteSucceeds);
    liveDeleted, liveSaved, liveCalls := ProcessRegion(activeVolumes, snapshots, retentionDays, false, now, deleteSucceeds);
    ghost var eligible := EligibleSnapshots(snapshots, activeVolumes, retentionDays, now);
    if forall s :: s in snapshots && ShouldDeleteSnapshot(s, activeVolumes, retentionDays, now) ==> deleteSucceeds(s.snapshotId) {
      forall s | s in eligible
        ensures deleteSucceeds(s.snapshotId)
      {
        EligibleMembership(snapshots, s, activeVolumes, retentionDays, now);
      }
    }
  }
}

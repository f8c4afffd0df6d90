/**
  The transaction-id fence captured with a snapshot.  Snapshots report 64-bit transaction ids;
  the replication stream carries only the low 32 bits, which wrap around.
 */
module SnapshotFences {

  const TWO_31: int := 0x8000_0000
  const TWO_32: int := 0x1_0000_0000

  datatype SnapshotFence = SnapshotFence(xmax: nat, inProgress: seq<nat>)

  function Low32(xid: int): nat {
    xid % TWO_32
  }

  /** `wrapping_sub` of two 32-bit numbers. */
  function WrappingSub(a: nat, b: nat): nat {
    (a - b) % TWO_32
  }

  /** A 32-bit number read as signed is negative. */
  predicate NegativeAsI32(a: nat) {
    a >= TWO_31
  }

  predicate AlreadyInSnapshot(fence: SnapshotFence, xid: nat) {
    if exists x :: x in fence.inProgress && Low32(x) == xid then false
    else NegativeAsI32(WrappingSub(xid, Low32(fence.xmax)))
  }

  /** What the snapshot saw: committed before the horizon and not in progress. */
  predicate VisibleTo(fence: SnapshotFence, xid: nat) {
    xid < fence.xmax && xid !in fence.inProgress
  }

  /** The half-open window of ids that a 32-bit comparison can tell apart. */
  predicate InWindow(fence: SnapshotFence, xid: nat) {
    fence.xmax - TWO_31 <= xid < fence.xmax + TWO_31
  }

  lemma ModUnique(a: int, q: int, r: int)
    requires a == q * TWO_32 + r && 0 <= r < TWO_32
    ensures a % TWO_32 == r
  {
  }

  /** Subtracting the low halves and wrapping is subtracting the ids and wrapping. */
  lemma WrappedDifference(x: int, y: int)
    ensures WrappingSub(Low32(x), Low32(y)) == (x - y) % TWO_32
  {
    var qx, qy := x / TWO_32, y / TWO_32;
    var d := (x - y) % TWO_32;
    ModUnique(Low32(x) - Low32(y), (x - y) / TWO_32 - qx + qy, d);
  }

  /** Ids whose low halves agree and that are less than a wrap apart are the same. */
  lemma SameLow(x: int, y: int)
    requires Low32(x) == Low32(y) && -TWO_32 < x - y < TWO_32
    ensures x == y
  {
  }

  /** The exact comparison, for any id whose low half is not among those in progress. */
  lemma FenceComparison(fence: SnapshotFence, xid: nat)
    requires forall x :: x in fence.inProgress ==> Low32(x) != Low32(xid)
    ensures AlreadyInSnapshot(fence, Low32(xid)) <==> (xid - fence.xmax) % TWO_32 >= TWO_31
  {
    WrappedDifference(xid, fence.xmax);
  }

  /** Inside the window the 32-bit fence decides visibility exactly, across any number of wraparounds. */
  lemma FenceIsExact(fence: SnapshotFence, xid: nat)
    requires InWindow(fence, xid) && forall x :: x in fence.inProgress ==> InWindow(fence, x)
    ensures AlreadyInSnapshot(fence, Low32(xid)) <==> VisibleTo(fence, xid)
  {
    forall x | x in fence.inProgress && Low32(x) == Low32(xid)
      ensures x == xid
    {
      SameLow(x, xid);
    }
    if xid !in fence.inProgress {
      FenceComparison(fence, xid);
      if xid < fence.xmax {
        ModUnique(xid - fence.xmax, -1, xid - fence.xmax + TWO_32);
      }
    } else {
      assert xid in fence.inProgress && Low32(xid) == Low32(xid);
    }
  }

  // ----- outside the window -----

  /** The stream's 32 bits of an id are those of an id in progress. */
  predicate Collides(fence: SnapshotFence, xid: nat) {
    exists x :: x in fence.inProgress && Low32(x) == Low32(xid)
  }

  /** The fence says of the id what is the case. */
  predicate JudgedRight(fence: SnapshotFence, xid: nat) {
    AlreadyInSnapshot(fence, Low32(xid)) <==> VisibleTo(fence, xid)
  }

  /**
    For every fence and every id: one that shares its 32 bits with an id in progress is judged
    right exactly when the snapshot did not see it; any other exactly when the side of the
    horizon it lies on is also the nearer one modulo a full wrap.
   */
  lemma FenceRightIff(fence: SnapshotFence, xid: nat)
    ensures JudgedRight(fence, xid) <==>
              if Collides(fence, xid) then !VisibleTo(fence, xid)
              else (xid < fence.xmax <==> (xid - fence.xmax) % 0x1_0000_0000 >= 0x8000_0000)
  {
    if !Collides(fence, xid) {
      FenceComparison(fence, xid);
      assert xid in fence.inProgress ==> Low32(xid) == Low32(xid) && Collides(fence, xid);
    }
  }

  /** Half a wrap ahead of the horizon, a commit the snapshot did not see is skipped. */
  lemma NewCommitSkipped(xmax: nat)
    ensures var fence, xid := SnapshotFence(xmax, []), xmax + TWO_31;
            AlreadyInSnapshot(fence, Low32(xid)) && !VisibleTo(fence, xid)
  {
    FenceComparison(SnapshotFence(xmax, []), xmax + TWO_31);
  }

  /** More than half a wrap behind the horizon, a commit the snapshot saw is applied again. */
  lemma OldCommitApplied(xid: nat)
    ensures var fence := SnapshotFence(xid + TWO_31 + 1, []);
            !AlreadyInSnapshot(fence, Low32(xid)) && VisibleTo(fence, xid)
  {
    FenceComparison(SnapshotFence(xid + TWO_31 + 1, []), xid);
    ModUnique(-TWO_31 - 1, -1, TWO_31 - 1);
  }

  /** A whole wrap before an id in progress, a commit the snapshot saw is applied again. */
  lemma CollidingCommitApplied(xid: nat)
    ensures var fence := SnapshotFence(xid + TWO_32 + 1, [xid + TWO_32]);
            !AlreadyInSnapshot(fence, Low32(xid)) && VisibleTo(fence, xid)
  {
    ModUnique(xid + TWO_32, xid / TWO_32 + 1, Low32(xid));
    var fence := SnapshotFence(xid + TWO_32 + 1, [xid + TWO_32]);
    assert fence.inProgress[0] in fence.inProgress && Low32(xid + TWO_32) == Low32(xid);
  }
}

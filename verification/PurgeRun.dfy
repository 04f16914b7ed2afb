/** The purge of a replica as the sync agent runs it: it marks the disks that no user asked for, traces up from every
    leaf, and treats the disk under the head last.
 */
module PurgeRuns {
  import opened Layers
  import opened SectorMaps
  import opened SnapshotTree
  import opened LiveChains
  import opened Purges
  import opened Replicas

  /** Marks the disks in `system`, in any order. */
  method MarkSystem(r: Replica, system: set<DiskName>)
    requires r.Valid()
    modifies r`disks
    ensures r.Valid() && r.disks == Marked(old(r.disks), r.head, system)
  {
    hide TreeOk, FilesOk, CacheOk, Marked;
    ghost var d := r.disks;
    var todo := r.disks.Keys;
    MarkedStart(d, r.head, system);
    while todo != {}
      invariant r.Valid() && todo <= d.Keys == r.disks.Keys && r.disks == Marked(d, r.head, system - todo)
      decreases |todo|
    {
      var n :| n in todo;
      MarkedStep(d, r.head, system, todo, n);
      if n != r.head && n in system && !r.disks[n].removed {
        var err := r.MarkDiskAsRemoved(n);
      }
      todo := todo - {n};
    }
    assert system - {} == system;
  }

  /** One removal within a trace. */
  method RemoveOne(r: Replica, name: DiskName, ghost d0: Disks, ghost s0: Store)
    requires r.Valid() && !Refused(r.disks, r.head, name)
    requires PurgedTo(d0, s0, r.disks, r.store, r.base, r.head, r.volume.size)
    modifies r`disks, r`children, r`active, r`infoParent, r`store, r.volume`location, r.volume`files
    ensures r.Valid() && PurgedTo(d0, s0, r.disks, r.store, r.base, r.head, r.volume.size)
    ensures r.disks == if Leaves(old(r.disks), r.head, name) then WithoutNode(old(r.disks), name) else old(r.disks)
    ensures Executed(old(r.disks), old(r.store), r.disks, r.store, r.head, name)
  {
    hide PurgedTo, Executed, OthersKept, TopKept, Rooted, ChildMapOk, CacheOk, IsPath, Refused, Leaves;
    ghost var disks, store := r.disks, r.store;
    FilesStored(disks, r.base, r.active, store, r.volume.files);
    var err := r.ProcessRemove(name);
    PurgedStep(d0, s0, disks, store, r.disks, r.store, r.base, r.head, r.volume.size, name);
  }

  /** Traces up from one leaf, by the tree as it was when the trace began, and removes the marked disks on the way, but
      for the one directly under the head.  The leaf is still there, and so is every disk the trace comes to. */
  method TraceLeaf(r: Replica, leaf: DiskName, latest0: DiskName, ghost todo: set<DiskName>, ghost d0: Disks,
                   ghost s0: Store)
    returns (err: DiskError, latest: DiskName)
    requires r.Valid() && leaf in todo && Between(r.disks, r.head, latest0, todo)
    requires PurgedTo(d0, s0, r.disks, r.store, r.base, r.head, r.volume.size)
    modifies r`disks, r`children, r`active, r`infoParent, r`store, r.volume`location, r.volume`files
    ensures r.Valid() && PurgedTo(d0, s0, r.disks, r.store, r.base, r.head, r.volume.size)
    ensures err == if leaf == r.head && old(r.disks)[r.head].removed then IsHead else Ok
    ensures err == Ok ==> Between(r.disks, r.head, latest, todo - {leaf})
  {
    hide PurgedTo, Tracing, ChildMapOk, CacheOk, FilesOk, Executed, Leaves;
    var info := r.disks;
    ghost var q :| IsPath(r.disks, leaf, q);
    TraceStart(info, r.head, latest0, todo, leaf, q);
    if r.head in q {
      LeafIsLast(info, leaf, q, r.head);
    }
    hide Between, IsPath, Rooted;
    var cur := leaf;
    latest := latest0;
    while cur != NoDisk
      invariant r.Valid() && PurgedTo(d0, s0, r.disks, r.store, r.base, r.head, r.volume.size)
      invariant Tracing(r.disks, info, r.head, latest, q, todo - {leaf})
      invariant cur == if q == [] then NoDisk else q[|q| - 1]
      invariant (r.head in q ==> leaf == r.head) && (leaf == r.head && info[leaf].removed ==> cur == leaf)
      decreases |q|
    {
      TraceFacts(r.disks, info, r.head, latest, q, todo - {leaf});
      if info[cur].removed {
        if cur == r.head {
          return IsHead, latest;
        }
        if latest == NoDisk && r.head in ChildrenOf(info, cur) {
          TracePass(r.disks, info, r.head, latest, q, todo - {leaf}, cur);
          latest := cur;
        } else {
          ghost var d := r.disks;
          RemoveOne(r, cur, d0, s0);
          TraceStep(d, info, r.head, latest, q, todo - {leaf});
        }
      } else {
        TracePass(r.disks, info, r.head, latest, q, todo - {leaf}, latest);
      }
      q := q[..|q| - 1];
      cur := info[cur].parent;
    }
    if q != [] {
      TraceFacts(r.disks, info, r.head, latest, q, todo - {leaf});
    }
    TraceEnd(r.disks, info, r.head, latest, todo - {leaf});
    err := Ok;
  }

  /** A whole purge.  It fails only if the head is marked removed.  Otherwise nothing that can go is left: every disk
      still marked removed has several children or lies directly under the head, and there it holds nothing that the
      head holds.  The head and all disks not marked keep their images, and exactly the files of the disks that are
      gone are gone. */
  method PurgeSnapshots(r: Replica, system: set<DiskName>) returns (err: DiskError)
    requires r.Valid()
    modifies r`disks, r`children, r`active, r`infoParent, r`store, r.volume`location, r.volume`files
    ensures r.Valid()
    ensures err == if old(r.disks)[r.head].removed then IsHead else Ok
    ensures PurgedTo(Marked(old(r.disks), r.head, system), old(r.store), r.disks, r.store, r.base, r.head,
                     r.volume.size)
    ensures forall n | n in old(r.disks) && (n == r.head || (!old(r.disks)[n].removed && n !in system)) ::
              n in r.disks && KeepsImage(old(r.disks), old(r.store), r.disks, r.store, r.base, n, n)
    ensures err == Ok ==> forall n | n in r.disks :: Final(r.disks, r.head, n)
    ensures err == Ok ==> TopPruned(r.disks, r.store, r.head)
  {
    hide PurgedTo, ChildMapOk, CacheOk, FilesOk, Executed, Leaves, IsPath, Between, Marked, KeepsImage;
    var leaves := set n | n in r.disks && ChildrenOf(r.disks, n) == {};
    MarkedLeaves(r.disks, r.head, system);
    MarkedHead(r.disks, r.head, system);
    MarkSystem(r, system);
    ghost var d0, s0 := r.disks, r.store;
    PurgedNothing(d0, s0, r.base, r.active, r.volume.files, r.head, r.volume.size);
    BetweenStart(d0, r.head, leaves);
    hide Rooted;
    var latest, todo := NoDisk, leaves;
    while todo != {}
      invariant r.Valid() && PurgedTo(d0, s0, r.disks, r.store, r.base, r.head, r.volume.size)
      invariant Between(r.disks, r.head, latest, todo) && (r.head in todo || !d0[r.head].removed)
      decreases |todo|
    {
      var leaf :| leaf in todo;
      SameMarks(d0, s0, r.disks, r.store, r.base, r.head, r.volume.size);
      err, latest := TraceLeaf(r, leaf, latest, todo, d0, s0);
      if err != Ok {
        MarkedKeeps(old(r.disks), s0, r.disks, r.store, r.base, r.head, r.volume.size, system);
        return;
      }
      todo := todo - {leaf};
    }
    ghost var d, store := r.disks, r.store;
    LastStep(d, r.head, latest);
    FilesStored(d, r.base, r.active, store, r.volume.files);
    if latest != NoDisk {
      RemoveOne(r, latest, d0, s0);
    }
    LastPruned(d, store, r.store, r.head, latest);
    MarkedKeeps(old(r.disks), s0, r.disks, r.store, r.base, r.head, r.volume.size, system);
    err := Ok;
  }
}

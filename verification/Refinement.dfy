/** The replicas of the replication model are the replicas of the tree model: what `Replicas.Replica` proves of a
    write, a snapshot and a purge is what `Replication` takes a replica to do.
 */
module Refinement {
  import opened Layers
  import opened SectorMaps
  import opened DiffDisks
  import opened SnapshotTree
  import opened LiveChains
  import opened Replicas
  import opened Replication

  /** A replica as the replication model sees it. */
  ghost function RepOf(disks: Disks, store: Store, head: DiskName, base: seq<DiskName>): Rep
    requires head in disks && head in store && Stored(store, base)
  {
    Rep(disks - {head}, map n | n in store && n in disks && n != head :: store[n], disks[head].parent, store[head],
        LayersOf(store, base))
  }

  /** The tree and the files behind a replica. */
  ghost predicate Sound(disks: Disks, store: Store, head: DiskName, base: seq<DiskName>) {
    && Rooted(disks) && head.Head? && head in disks && ChildrenOf(disks, head) == {}
    && (forall n | n in disks :: n in store) && Stored(store, base)
    && (forall b | b in base :: b.BackingFile? && b !in disks)
  }

  lemma ParentPath(disks: Disks, store: Store, head: DiskName, base: seq<DiskName>, p: seq<DiskName>)
    requires Sound(disks, store, head, base) && IsPath(disks, head, p)
    ensures var r, q := RepOf(disks, store, head, base), p[..|p| - 1];
            && p == q + [head] && (if r.parent == NoDisk then q == [] else IsPath(r.disks, r.parent, q))
            && (forall m | m in q :: m in r.disks && m in r.store && r.store[m] == store[m])
  {
    var r, q := RepOf(disks, store, head, base), p[..|p| - 1];
    PathInDisks(disks, head, p);
    PathNotSelf(disks, head, p);
    PathLinks(disks, head, p, |p| - 1);
    if q != [] {
      PathPrefix(disks, head, p, |p| - 2);
      PathFrame(disks, r.disks, r.parent, q);
    }
  }

  /** The stack of layers is the same in both models. */
  lemma ChainRefines(disks: Disks, store: Store, head: DiskName, base: seq<DiskName>, p: seq<DiskName>)
    requires Sound(disks, store, head, base) && IsPath(disks, head, p)
    ensures var r := RepOf(disks, store, head, base);
            && RepOk(r, r.head.size) && Stored(store, base + p) && Chain(r) == LayersOf(store, base + p)
  {
    var r, q := RepOf(disks, store, head, base), p[..|p| - 1];
    ParentPath(disks, store, head, base, p);
    PathInDisks(disks, head, p);
    assert Rooted1(r.disks, r.parent);
    if r.parent != NoDisk {
      PathUnique(r.disks, r.parent, q, PathOf(r.disks, r.parent));
    }
    SameLayers(r.store, store, q);
    LayersConcat(store, base, q);
    LayersPush(store, base + q, head);
    assert base + p == base + q + [head];
  }

  /** A write of the device is the write of the replication model. */
  lemma WriteRefines(disks: Disks, store: Store, head: DiskName, base: seq<DiskName>, p: seq<DiskName>,
                     layers: seq<Layer>, off: nat, buf: seq<byte>)
    requires Sound(disks, store, head, base) && IsPath(disks, head, p)
    requires Stored(store, base + p) && LayersOf(store, base + p) == layers
    ensures RepOk(RepOf(disks, store, head, base), RepOf(disks, store, head, base).head.size) && layers != []
    ensures var store' := store[head := WriteTop(layers, off, buf)[|layers| - 1]];
            RepOf(disks, store', head, base) == WriteRep(RepOf(disks, store, head, base), off, buf)
  {
    hide WriteLayer;
    ChainRefines(disks, store, head, base, p);
    var store' := store[head := WriteTop(layers, off, buf)[|layers| - 1]];
    SameLayers(store, store', base);
    assert RepOf(disks, store', head, base).store == RepOf(disks, store, head, base).store;
  }

  /** A snapshot of the tree model is the snapshot of the replication model. */
  lemma SnapshotRefines(disks: Disks, store: Store, head: DiskName, base: seq<DiskName>, snap: DiskName,
                        newHead: DiskName)
    requires Sound(disks, store, head, base) && snap.Snapshot? && newHead.Head? && newHead != head
    requires snap !in disks && newHead !in disks && !disks[head].removed
    ensures var disks' := WithSnapshot(disks, head, snap, newHead);
            var store' := SnapshotStore(store, head, snap, newHead, store[head].size);
            && Stored(store', base)
            && RepOf(disks', store', newHead, base) == SnapRep(RepOf(disks, store, head, base), snap)
  {
    var disks' := WithSnapshot(disks, head, snap, newHead);
    var store' := SnapshotStore(store, head, snap, newHead, store[head].size);
    SameLayers(store, store', base);
    SnapshotDisks(disks, head, snap, newHead);
    SnapshotFiles(disks, store, head, snap, newHead);
    hide WithSnapshot, SnapshotStore;
    assert RepOf(disks', store', newHead, base) == SnapRep(RepOf(disks, store, head, base), snap);
  }

  lemma SnapshotDisks(disks: Disks, head: DiskName, snap: DiskName, newHead: DiskName)
    requires head in disks && snap !in disks && newHead !in disks && snap != newHead && !disks[head].removed
    ensures var disks' := WithSnapshot(disks, head, snap, newHead);
            && newHead in disks' && disks'[newHead].parent == snap
            && disks' - {newHead} == (disks - {head})[snap := Disk(disks[head].parent, false)]
  {
  }

  lemma SnapshotFiles(disks: Disks, store: Store, head: DiskName, snap: DiskName, newHead: DiskName)
    requires head in disks && head in store && snap !in disks && newHead !in disks && snap != newHead
    ensures var disks' := WithSnapshot(disks, head, snap, newHead);
            var store' := SnapshotStore(store, head, snap, newHead, store[head].size);
            && newHead in store' && store'[newHead] == Layer(store[head].size, map[])
            && (map n | n in store' && n in disks' && n != newHead :: store'[n])
               == (map n | n in store && n in disks && n != head :: store[n])[snap := store[head]]
  {
  }

  /** An operation that keeps the head's image and file, like a purge, keeps what the replica shows. */
  lemma CompactRefines(disks: Disks, store: Store, disks': Disks, store': Store, head: DiskName, base: seq<DiskName>,
                       vol: seq<Sector>)
    requires Sound(disks, store, head, base) && Sound(disks', store', head, base) && store'[head] == store[head]
    requires KeepsImage(disks, store, disks', store', base, head, head)
    requires Shows(RepOf(disks, store, head, base), vol)
    ensures Shows(RepOf(disks', store', head, base), vol)
  {
    var p :| IsPath(disks, head, p);
    var p' :| IsPath(disks', head, p');
    ChainRefines(disks, store, head, base, p);
    ChainRefines(disks', store', head, base, p');
    var a, b := LayersOf(store, base + p), LayersOf(store', base + p');
    assert SameImage(a, b);
    forall s | 0 <= s < |vol| ensures SectorAt(Chain(RepOf(disks', store', head, base)), s) == vol[s] {
      assert SectorAt(a, s) == SectorAt(b, s);
    }
  }

  // ----- the same of the class -----

  lemma ReplicaSound(r: Replica)
    requires r.Valid()
    ensures Sound(r.disks, r.store, r.head, r.base)
  {
  }

  ghost function View(r: Replica): Rep
    requires r.Valid()
    reads r, r.volume
  {
    ReplicaSound(r);
    RepOf(r.disks, r.store, r.head, r.base)
  }

  /** A write, whatever becomes of its parts: a replica that fails it keeps its snapshot disks and their files, and one
      that does not, where no touched sector is unmapped, makes the write of the replication model. */
  method WriteReplica(r: Replica, buf: seq<byte>, off: nat, first: Outcome, middle: Outcome, last: Outcome)
    returns (err: IOError)
    requires r.Valid() && off + |buf| <= r.volume.size
    modifies r`store, r.volume`location, r.volume`files, r.volume`holes
    ensures r.Valid() && View(r) == old(View(r)).(head := View(r).head) && KeepsDisks(old(View(r)), View(r))
    ensures err == if SomePartFails(off, |buf|, first, middle, last) then WriteFailed else NoError
    ensures err == NoError && old(r.volume.holes) !! Touched(off, |buf|) ==>
              RepOk(old(View(r)), old(View(r)).head.size) && View(r) == WriteRep(old(View(r)), off, buf)
  {
    hide TreeOk, FilesOk, CacheOk, ChildMapOk, IsPath, Rooted;
    ghost var p, layers := WritePath(r);
    WriteRefines(r.disks, r.store, r.head, r.base, p, layers, off, buf);
    ghost var disks, store, head := r.disks, r.store, r.head;
    hide Sound, WriteRep, WriteTop, Touched, RepOk, KeepsDisks, HeadWithin, OthersKept, PartlyWritten, Spliced;
    hide SomePartFails, FailsAt, LayersOf, Stored, StoreWithin;
    ghost var done, part;
    var count;
    count, err, done, part := r.WriteAt(buf, off, first, middle, last);
    LastFile(r);
    OnlyHead(disks, store, head, r.base, r.store[head]);
  }

  lemma OnlyHead(disks: Disks, store: Store, head: DiskName, base: seq<DiskName>, layer: Layer)
    requires Sound(disks, store, head, base)
    ensures var r, r' := RepOf(disks, store, head, base), RepOf(disks, store[head := layer], head, base);
            r' == r.(head := layer) && KeepsDisks(r, r')
  {
    SameLayers(store, store[head := layer], base);
    var r, r' := RepOf(disks, store, head, base), RepOf(disks, store[head := layer], head, base);
    assert r'.store == r.store;
  }

  lemma WritePath(r: Replica) returns (p: seq<DiskName>, layers: seq<Layer>)
    requires r.Valid()
    ensures Sound(r.disks, r.store, r.head, r.base) && IsPath(r.disks, r.head, p) && layers == r.volume.files[1..]
    ensures Stored(r.store, r.base + p) && LayersOf(r.store, r.base + p) == layers
  {
    ReplicaSound(r);
    p, layers := r.active[1 + |r.base|..], r.volume.files[1..];
    ChainIsFiles(r.base, p, r.active, r.store, r.volume.files);
  }

  lemma LastFile(r: Replica)
    requires r.Valid()
    ensures 2 <= |r.volume.files| && r.head in r.store && r.store[r.head] == r.volume.files[|r.volume.files| - 1]
    ensures r.volume.files[1..][|r.volume.files| - 2] == r.volume.files[|r.volume.files| - 1]
  {
    HeadIsLast(r.disks, r.children, r.head, r.base, r.active);
  }

  /** A snapshot that is not refused. */
  method SnapshotReplica(r: Replica, snap: DiskName) returns (err: DiskError)
    requires r.Valid() && snap.Snapshot? && |r.active| < 256
    requires r.store[r.head].size == r.volume.size && !r.disks[r.head].removed
    modifies r, r.volume
    ensures r.Valid() && View(r) == if err == Ok then SnapRep(old(View(r)), snap) else old(View(r))
  {
    ReplicaSound(r);
    ghost var disks, store, head := r.disks, r.store, r.head;
    hide Sound, SnapRep;
    err := r.CreateDisk(snap, r.volume.size);
    if err == Ok {
      SnapshotOf(disks, store, head, r.base, snap, r.head);
    }
  }

  lemma SnapshotOf(disks: Disks, store: Store, head: DiskName, base: seq<DiskName>, snap: DiskName, newHead: DiskName)
    requires Sound(disks, store, head, base) && snap.Snapshot? && newHead == NextHead(head)
    requires snap !in disks && newHead !in store && !disks[head].removed
    ensures var disks' := WithSnapshot(disks, head, snap, newHead);
            var store' := SnapshotStore(store, head, snap, newHead, store[head].size);
            && Stored(store', base)
            && RepOf(disks', store', newHead, base) == SnapRep(RepOf(disks, store, head, base), snap)
  {
    SnapshotRefines(disks, store, head, base, snap, newHead);
  }

  /** A purge of any disks in any order: what the replica shows stays, a step that the replication model allows. */
  method PurgeReplica(r: Replica, names: seq<DiskName>, ghost vol: seq<Sector>)
    requires r.Valid() && Shows(View(r), vol)
    modifies r`disks, r`children, r`active, r`infoParent, r`store, r.volume`location, r.volume`files
    ensures r.Valid() && Shows(View(r), vol)
  {
    ReplicaSound(r);
    ghost var disks, store := r.disks, r.store;
    hide Sound, Shows, KeepsImage;
    var _ := r.Purge(names);
    ReplicaSound(r);
    assert r.head in disks by { SoundHead(disks, store, r.head, r.base); }
    CompactRefines(disks, store, r.disks, r.store, r.head, r.base, vol);
  }

  lemma SoundHead(disks: Disks, store: Store, head: DiskName, base: seq<DiskName>)
    requires Sound(disks, store, head, base)
    ensures head in disks && head in store
  {
  }
}

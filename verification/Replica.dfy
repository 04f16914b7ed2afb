/** A replica: the disk tree with its child sets, the live chain from the head, the disk files by
    name, and the layered device opened over the chain.
 */
module Replicas {
  import opened Layers
  import opened SectorMaps
  import opened DiffDisks
  import opened SnapshotTree
  import opened LiveChains
  import opened Purges

  /** Reading the metadata files, in any order, rebuilds the child map. */
  method ReadChildren(disks: Disks) returns (children: Children)
    ensures ChildMapOk(disks, children)
  {
    children := map[];
    var todo := disks.Keys;
    while todo != {}
      invariant todo <= disks.Keys && Gathered(disks, children, todo)
      decreases |todo|
    {
      var n :| n in todo;
      Gather(disks, children, todo, n);
      hide Gathered;
      if disks[n].parent != NoDisk {
        children := AddChild(children, disks[n].parent, n);
      }
      todo := todo - {n};
    }
  }

  /** Walking the parents from `n` yields its path, base first; a disk without metadata on the way is an
      error, and then `n` has no path. */
  method WalkPath(disks: Disks, n: DiskName) returns (found: bool, path: seq<DiskName>)
    requires n != NoDisk && exists p :: Walks(disks, n, p)
    ensures found ==> IsPath(disks, n, path)
    ensures !found ==> forall p :: !IsPath(disks, n, p)
  {
    ghost var p :| Walks(disks, n, p);
    if p != [] { WalkIsPath(disks, n, p); }
    path := [];
    var cur := n;
    ghost var rest := p;
    while cur != NoDisk
      invariant rest + path == p && Walks(disks, cur, rest)
      invariant path == [] ==> cur == n
      invariant path != [] ==> path[0] in disks && cur == disks[path[0]].parent
      decreases |rest|
    {
      if cur !in disks {
        assert path == p;
        return false, path;
      }
      path := [cur] + path;
      assert rest == rest[..|rest| - 1] + [cur];
      rest := rest[..|rest| - 1];
      cur := disks[cur].parent;
    }
    assert path == p;
    return true, path;
  }

  /** Opens a replica from what is on disk: exactly if the head has a path of at most 250 disks.  If all disks
      have one, the replica satisfies the invariant. */
  method Open(disks: Disks, store: Store, head: DiskName, base: seq<DiskName>, size: nat, maxCount: nat)
    returns (r: Replica?)
    requires head != NoDisk && exists p :: Walks(disks, head, p)
    requires (forall n | n in disks :: n in store) && Stored(store, base)
    requires (forall n | n in store :: ValidLayer(store[n]))
    requires |base| <= 1 && size % 4096 == 0
    ensures r != null <==> exists p :: IsPath(disks, head, p) && |p| <= MAX_CHAIN
    ensures r != null ==>
              && fresh(r) && fresh(r.volume) && r.disks == disks && r.store == store && r.head == head
              && r.base == base && r.volume.size == size && r.snapshotMaxCount == maxCount
    ensures (&& r != null && Rooted(disks) && head.Head? && head in disks && ChildrenOf(disks, head) == {}
             && (forall b | b in base :: b.BackingFile? && b !in disks) && size <= store[head].size) ==> r.Valid()
  {
    var children := ReadChildren(disks);
    var found, path := WalkPath(disks, head);
    if !found {
      return null;
    }
    assert forall p | IsPath(disks, head, p) :: p == path by { OnlyPath(disks, head, path); }
    if |path| > MAX_CHAIN {
      return null;
    }
    OpenChain(disks, store, head, base, path);
    var sound := forall b | b in base :: b.BackingFile? && b !in disks;
    if sound && Rooted(disks) && head.Head? && ChildrenOf(disks, head) == {} {
      OpenedOk(disks, store, head, base, children, path);
    }
    hide *;
    var active := [NoDisk] + base + path;
    var files := [Layer(0, map[])] + LayersOf(store, base + path);
    r := Build(disks, children, active, files, store, head, base, size, maxCount);
  }

  method Build(disks: Disks, children: Children, active: seq<DiskName>, files: seq<Layer>, store: Store, head: DiskName,
               base: seq<DiskName>, size: nat, maxCount: nat) returns (r: Replica)
    requires 2 <= |files| <= 256 && size % 4096 == 0 && head in disks
    requires forall i | 1 <= i < |files| :: ValidLayer(files[i])
    ensures fresh(r) && fresh(r.volume) && r.disks == disks && r.store == store && r.head == head
    ensures r.base == base && r.volume.size == size && r.snapshotMaxCount == maxCount
    ensures (&& TreeOk(disks, children, head, base, active) && FilesOk(disks, base, active, store, files)
             && size <= files[|files| - 1].size && (forall b | b in base :: b.BackingFile?)) ==> r.Valid()
  {
    hide TreeOk, FilesOk, CacheOk;
    var volume := new DiffDisk(files, size);
    r := new Replica(volume, base, disks, children, active, head, store, maxCount);
  }

  lemma OpenChain(disks: Disks, store: Store, head: DiskName, base: seq<DiskName>, path: seq<DiskName>)
    requires IsPath(disks, head, path) && |path| <= MAX_CHAIN && |base| <= 1
    requires (forall n | n in disks :: n in store) && Stored(store, base)
    requires (forall n | n in store :: ValidLayer(store[n]))
    ensures head in disks && Stored(store, base + path)
    ensures var files := [Layer(0, map[])] + LayersOf(store, base + path);
            2 <= |files| <= 256 && forall i | 1 <= i < |files| :: ValidLayer(files[i])
  {
    PathInDisks(disks, head, path);
    assert path[|path| - 1] == head;
    hide IsPath, ValidLayer;
    OpenedFiles(store, base + path);
  }

  lemma OnlyPath(disks: Disks, n: DiskName, p: seq<DiskName>)
    requires IsPath(disks, n, p)
    ensures forall q | IsPath(disks, n, q) :: q == p
  {
    forall q | IsPath(disks, n, q) ensures q == p {
      PathUnique(disks, n, q, p);
    }
  }

  class Replica {
    const volume: DiffDisk
    const base: seq<DiskName>
    var disks: Disks
    var children: Children
    var active: seq<DiskName>
    var head: DiskName
    var infoParent: DiskName
    var store: Store
    var snapshotMaxCount: nat

    /** The bookkeeping is consistent; the opened files may lag behind the named ones. */
    ghost predicate ValidTree()
      reads this, volume
    {
      && TreeOk(disks, children, head, base, active)
      && infoParent == disks[head].parent
      && |volume.files| == |active|
      && volume.Valid() && volume.HeadCovers()
      && forall b | b in base :: b.BackingFile?
    }

    ghost predicate Valid()
      reads this, volume
    {
      ValidTree() && FilesOk(disks, base, active, store, volume.files)
    }

    /** The state a construction produces once metadata is read and the chain is opened. */
    constructor (volume: DiffDisk, base: seq<DiskName>, disks: Disks, children: Children, active: seq<DiskName>,
                 head: DiskName, store: Store, maxCount: nat)
      requires head in disks
      ensures this.volume == volume && this.base == base && this.disks == disks && this.children == children
      ensures this.active == active && this.head == head && this.store == store && snapshotMaxCount == maxCount
      ensures (&& TreeOk(disks, children, head, base, active) && FilesOk(disks, base, active, store, volume.files)
               && volume.Valid() && volume.HeadCovers() && (forall b | b in base :: b.BackingFile?)) ==> Valid()
    {
      this.volume, this.base, this.disks, this.children, this.active := volume, base, disks, children, active;
      this.head, this.infoParent, this.store, this.snapshotMaxCount := head, disks[head].parent, store, maxCount;
    }

    /** With nothing unmapped, the device presents the image of the head in the tree. */
    lemma DeviceShowsHead(p: seq<DiskName>)
      requires Valid() && volume.holes == {} && IsPath(disks, head, p)
      ensures Stored(store, base + p) && volume.Volume() == Image(LayersOf(store, base + p), volume.size)
    {
      PathUnique(disks, head, p, active[1 + |base|..]);
      VolumeIsImage(volume.location, volume.files, volume.size);
      ChainIsFiles(base, p, active, store, volume.files);
    }

    /** Position of a disk in the active list, 0 when it is not there. */
    method FindDisk(name: DiskName) returns (index: nat)
      ensures index < |active| || index == 0
      ensures index > 0 ==> active[index] == name
      ensures index == 0 ==> forall i | 1 <= i < |active| :: active[i] != name
    {
      var i := 1;
      while i < |active|
        invariant 1 <= i
        invariant forall j | 1 <= j < i && j < |active| :: active[j] != name
      {
        if active[i] == name {
          return i;
        }
        i := i + 1;
      }
      return 0;
    }

    /** The live chain, head first; the walk along the parents ends because the tree is rooted. */
    method Chain() returns (chain: seq<DiskName>)
      requires Valid()
      ensures |chain| == |active| - 1 - |base|
      ensures forall i | 0 <= i < |chain| :: chain[i] == active[|active| - 1 - i]
    {
      hide Rooted, ChildMapOk, CacheOk, FilesOk, ChildrenOf;
      chain := [];
      var cur := head;
      ghost var rest := active[1 + |base|..];
      while cur != NoDisk
        invariant |chain| + |rest| == |active| - 1 - |base|
        invariant rest == active[1 + |base|..|active| - |chain|]
        invariant if cur == NoDisk then rest == [] else IsPath(disks, cur, rest)
        invariant forall i | 0 <= i < |chain| :: chain[i] == active[|active| - 1 - i]
        decreases |rest|
      {
        chain := chain + [cur];
        PathLinks(disks, cur, rest, |rest| - 1);
        if |rest| > 1 { PathPrefix(disks, cur, rest, |rest| - 2); PathLinks(disks, cur, rest, |rest| - 2); }
        rest := rest[..|rest| - 1];
        cur := disks[cur].parent;
      }
    }

    /** The snapshot count; a backing file is counted like a snapshot. */
    function SnapshotUsage(): nat
      reads this
    {
      |Counted(disks, head)| + |base|
    }

    /** Counts the disks, in any order. */
    method CountSnapshots() returns (count: nat)
      ensures count == SnapshotUsage()
    {
      count := |base|;
      var todo := disks.Keys;
      assert Counted(disks, head) - todo == {};
      while todo != {}
        invariant todo <= disks.Keys && count == |base| + |Counted(disks, head) - todo|
        decreases |todo|
      {
        var n :| n in todo;
        CountOne(Counted(disks, head), todo, n);
        if !disks[n].removed && n != head {
          count := count + 1;
        }
        todo := todo - {n};
      }
      assert Counted(disks, head) - {} == Counted(disks, head);
    }

    /** Takes a snapshot: the head file gets the snapshot's name and a new empty head goes on top. */
    method CreateDisk(snap: DiskName, size: nat) returns (err: DiskError)
      requires Valid() && snap.Snapshot? && |active| < 256 && volume.size <= size
      modifies this, volume
      ensures Valid() && volume.size == old(volume.size) && volume.Volume() == old(volume.Volume())
      ensures err == if old(SnapshotUsage()) >= old(snapshotMaxCount) then TooManySnapshots
                     else if snap in old(disks) then AlreadyExists
                     else if NextHead(old(head)) in old(store) then HeadExists
                     else Ok
      ensures err != Ok ==>
                disks == old(disks) && children == old(children) && active == old(active) && head == old(head)
                && store == old(store) && volume.files == old(volume.files)
      ensures err == Ok ==>
                && head == NextHead(old(head))
                && disks == WithSnapshot(old(disks), old(head), snap, head)
                && active == old(active)[..|old(active)| - 1] + [snap, head]
                && store == SnapshotStore(old(store), old(head), snap, head, size)
                && volume.files == old(volume.files) + [Layer(size, map[])]
      ensures err == Ok ==> SnapshotKeepsImages(old(disks), old(store), disks, store, base, old(head), snap, head)
      ensures err == Ok ==> SnapshotUsage() == old(SnapshotUsage()) + if old(disks[head]).removed then 0 else 1
    {
      hide CacheOk, ChildMapOk, IsPath, Rooted, SnapshotKeepsImages, ValidLayer, ChildrenOf;
      var usage := CountSnapshots();
      if usage >= snapshotMaxCount {
        return TooManySnapshots;
      }
      if snap in disks {
        return AlreadyExists;
      }
      var oldHead, newHead := head, NextHead(head);
      if newHead in store {
        return HeadExists;
      }
      SnapshotCounts(disks, head, snap, newHead);
      InstallSnapshot(snap, newHead, size);
      err := Ok;
    }

    method InstallSnapshot(snap: DiskName, newHead: DiskName, size: nat)
      requires Valid() && snap.Snapshot? && newHead.Head? && |active| < 256 && volume.size <= size
      requires snap !in disks && newHead !in store
      modifies this, volume
      ensures Valid() && volume.size == old(volume.size) && head == newHead && volume.Volume() == old(volume.Volume())
      ensures disks == WithSnapshot(old(disks), old(head), snap, head)
      ensures active == old(active)[..|old(active)| - 1] + [snap, head]
      ensures store == SnapshotStore(old(store), old(head), snap, head, size)
      ensures volume.files == old(volume.files) + [Layer(size, map[])]
      ensures SnapshotKeepsImages(old(disks), old(store), disks, store, base, old(head), snap, head)
    {
      hide KeepsImage, SnapshotKeepsImages, ChildMapOk, IsPath, CacheOk, Rooted, ChildrenOf;
      SnapshotStep(disks, children,
                   AddChild(RmChild(AddChild(children, snap, newHead), disks[head].parent, head),
                            disks[head].parent, snap),
                   head, snap, newHead, base, active, active[..|active| - 1] + [snap, newHead],
                   store, volume.files, size);
      SnapshotValues(disks, store, active, head, snap, newHead, size);
      RenameHead(snap, newHead, size);
      volume.AppendHead(Layer(size, map[]));
      assert disks[head].parent == snap;
    }

    /** The bookkeeping of `CreateDisk`, in its order. */
    method RenameHead(snap: DiskName, newHead: DiskName, size: nat)
      requires head in disks && head in store && 0 < |active| && head.Head? && newHead.Head? && snap.Snapshot?
      requires newHead != head
      modifies this`disks, this`children, this`active, this`head, this`infoParent, this`store
      ensures disks == old(disks)[newHead := Disk(snap, false)][snap := old(disks[head])] - {old(head)}
      ensures store == old(store)[newHead := Layer(size, map[])][snap := old(store[head])] - {old(head)}
      ensures children == old(AddChild(RmChild(AddChild(children, snap, newHead), disks[head].parent, head),
                                       disks[head].parent, snap))
      ensures active == old(active)[|old(active)| - 1 := snap] + [newHead]
      ensures head == newHead && infoParent == snap
    {
      var oldHead := head;
      store := store[newHead := Layer(size, map[])];
      store := store[snap := store[oldHead]];
      disks := disks[newHead := Disk(snap, false)];
      children := AddChild(children, snap, newHead);
      disks := disks[snap := disks[oldHead]];
      var parent := disks[oldHead].parent;
      children := RmChild(children, parent, oldHead);
      children := AddChild(children, parent, snap);
      active := active[|active| - 1 := snap];
      disks := disks - {oldHead};
      head, infoParent := newHead, snap;
      active := active + [newHead];
      store := store - {oldHead};
    }

    /** Takes a disk with at most one child out of the tree and, if it is in the live chain, out of the
        chain.  `index` is its position in the chain, 0 when it is elsewhere. */
    method RemoveDiskNode(name: DiskName) returns (err: DiskError, index: nat)
      requires ValidTree() && name in disks && name != head && name !in base
      modifies this`disks, this`children, this`active, this`infoParent, volume`location, volume`files
      ensures ValidTree()
      ensures err == if |ChildrenOf(old(disks), name)| > 1 then HasChildren else Ok
      ensures err == HasChildren ==> disks == old(disks) && active == old(active) && volume.files == old(volume.files)
      ensures index < |old(active)| && (index > 0 ==> old(active)[index] == name && index < |old(active)| - 1)
      ensures err == Ok && index == 0 ==>
                (forall i | 1 <= i < |active| :: active[i] != name)
                && active == old(active) && volume.files == old(volume.files) && volume.location == old(volume.location)
      ensures err == Ok ==> disks == WithoutNode(old(disks), name)
      ensures err == Ok && index > 0 ==>
                && active == RemoveAt(old(active), index)
                && volume.files == RemoveAt(old(volume.files), index)
                && |volume.location| == |old(volume.location)|
                && forall s: nat | s < |volume.location| :: volume.location[s] == Shift(old(volume.location)[s], index)
    {
      hide IsPath, CacheOk;
      var kids := Kids(children, name);
      assert kids == ChildrenOf(disks, name);
      if name !in children {
        RemoveLeaf(name);
        return Ok, 0;
      }
      if |children[name]| > 1 {
        return HasChildren, 0;
      }
      var child :| child in kids;
      OnlyOne(kids, child);
      index := RemoveAbove(name, child);
      err := Ok;
    }

    method RemoveLeaf(name: DiskName)
      requires ValidTree() && name in disks && name != head && ChildrenOf(disks, name) == {}
      modifies this`disks, this`children
      ensures ValidTree() && disks == WithoutNode(old(disks), name)
      ensures forall i | 1 <= i < |active| :: active[i] != name
    {
      hide IsPath, CacheOk, Rooted, ChildMapOk;
      NotInChain(disks, children, head, base, active, name);
      RemovalTreeOk(disks, children, head, base, active, name, 0);
      LeafRemoval(disks, name);
      children := RmChild(children, disks[name].parent, name);
      disks := disks - {name};
    }

    /** The removal of a disk with the single child `child`. */
    method RemoveAbove(name: DiskName, child: DiskName) returns (index: nat)
      requires ValidTree() && name in disks && name != head && ChildrenOf(disks, name) == {child}
      modifies this`disks, this`children, this`active, this`infoParent, volume`location, volume`files
      ensures ValidTree() && disks == WithoutNode(old(disks), name)
      ensures index < |old(active)| && (index > 0 ==> old(active)[index] == name && index < |old(active)| - 1)
      ensures index == 0 ==>
                (forall i | 1 <= i < |active| :: active[i] != name)
                && active == old(active) && volume.files == old(volume.files) && volume.location == old(volume.location)
      ensures index > 0 ==>
                && active == RemoveAt(old(active), index)
                && volume.files == RemoveAt(old(volume.files), index)
                && |volume.location| == |old(volume.location)|
                && forall s: nat | s < |volume.location| :: volume.location[s] == Shift(old(volume.location)[s], index)
    {
      hide IsPath, CacheOk, Rooted, ChildMapOk;
      var parent := disks[name].parent;
      index := FindDisk(name);
      RemovalTreeOk(disks, children, head, base, active, name, index);
      ChildRemoval(disks, name, child);
      assert TheOnly(ChildrenOf(disks, name)) == child;
      assert RemovalChildren(disks, children, name)
          == AddChild(RmChild(children, parent, name), parent, child) - {name};
      children := AddChild(RmChild(children, parent, name), parent, child) - {name};
      disks := disks[child := Disk(parent, disks[child].removed)] - {name};
      if index > 0 {
        UpdateChain(index);
      }
    }

    method UpdateChain(index: nat)
      requires volume.Valid() && volume.HeadCovers() && |volume.files| == |active| && 1 <= index < |active| - 1
      requires head in disks
      modifies this`active, this`infoParent, volume`location, volume`files
      ensures volume.Valid() && volume.HeadCovers()
      ensures active == RemoveAt(old(active), index)
      ensures infoParent == if |old(active)| - 2 == index then disks[head].parent else old(infoParent)
      ensures volume.files == RemoveAt(old(volume.files), index)
      ensures |volume.location| == |old(volume.location)|
      ensures forall s: nat | s < |volume.location| :: volume.location[s] == Shift(old(volume.location)[s], index)
    {
      volume.RemoveIndex(index);
      if |active| - 2 == index {
        infoParent := disks[head].parent;
      }
      active := active[..index] + active[index + 1..];
    }

    /** Removes a disk with at most one child: tree entry, chain entry and file.  The disks that do not hang on
        it keep their images, which for a leaf are all the others. */
    method RemoveDiffDisk(name: DiskName) returns (err: DiskError)
      requires Valid() && name in disks
      modifies this`disks, this`children, this`active, this`infoParent, this`store, volume`location, volume`files
      ensures Valid()
      ensures err == if name == head then IsHead else if |ChildrenOf(old(disks), name)| > 1 then HasChildren else Ok
      ensures err != Ok ==> disks == old(disks) && store == old(store) && active == old(active)
      ensures err == Ok ==> Removed(old(disks), old(store), disks, store, base, name)
      ensures err == Ok ==>
                SnapshotUsage() == old(SnapshotUsage()) - if name in old(Counted(disks, head)) then 1 else 0
    {
      if name == head {
        return IsHead;
      }
      RemovalCounts(disks, head, name);
      ghost var disks0, store0 := disks, store;
      hide *;
      err := DropDisk(name);
      if err == Ok {
        RemovedTree(disks0, store0, disks, store, base, name);
      }
    }

    method DropDisk(name: DiskName) returns (err: DiskError)
      requires Valid() && name in disks && name != head
      modifies this`disks, this`children, this`active, this`infoParent, this`store, volume`location, volume`files
      ensures Valid()
      ensures err == if |ChildrenOf(old(disks), name)| > 1 then HasChildren else Ok
      ensures err != Ok ==> disks == old(disks) && store == old(store) && active == old(active)
      ensures err == Ok ==> Removed(old(disks), old(store), disks, store, base, name)
    {
      hide Removed, TreeOk, CacheOk, WithoutNode, FilesOk;
      ghost var disks0, active0, store0, files0 := disks, active, store, volume.files;
      SourceFile(name);
      var index;
      err, index := RemoveDiskNode(name);
      if err != Ok {
        return;
      }
      RemoveStep(disks0, old(children), head, base, active0, store0, files0, name, index);
      store := store - {name};
    }

    /** Rewrites the file of `name` in place, only where its single child `c` shadows it. */
    method RewriteFile(name: DiskName, c: DiskName, layer: Layer)
      requires Valid() && name in disks && name != head && ChildrenOf(disks, name) == {c}
      requires c in store && Shadowed(store[name], layer, store[c]) && ValidLayer(layer)
      modifies this`store, volume`files
      ensures Valid() && store == old(store)[name := layer]
      ensures OthersKept(disks, old(store), disks, store, base, name)
    {
      hide OthersKept, IsPath, ChildMapOk;
      assert c in ChildrenOf(disks, name);
      ShadowedOthers(disks, store, base, name, layer, c);
      var index := FindDisk(name);
      if index > 0 {
        ChainNext(disks, children, head, base, active, name, c, index);
        FileRewritten(disks, children, head, base, active, store, volume.files, index, layer);
        forall s: nat ensures Search(volume.files[index := layer], s) == Search(volume.files, s) {
          ShadowedSearch(volume.files, index, layer, s);
        }
        volume.SetFile(index, layer);
      }
      store := store[name := layer];
    }

    /** Gives the folded file of `source` the name of its only child and drops `source`. */
    method ReplaceDisk(target: DiskName, source: DiskName) returns (err: DiskError)
      requires Valid() && source in disks && source != head && ChildrenOf(disks, source) == {target}
      requires target in store && Folded(store[source], store[target])
      modifies this`disks, this`children, this`active, this`infoParent, this`store, volume`location, volume`files
      ensures Valid()
      ensures err == if target == head then IsHead else Ok
      ensures err == IsHead ==> disks == old(disks) && store == old(store)
      ensures err == Ok ==>
                && disks == WithoutNode(old(disks), source)
                && store == (old(store) - {source})[target := old(store)[source]]
                && OthersKept(old(disks), old(store), disks, store, base, source)
    {
      if target == head {
        return IsHead;
      }
      hide *;
      SwapFile(target, source);
      err := Ok;
    }

    method SwapFile(target: DiskName, source: DiskName)
      requires Valid() && source in disks && source != head && target != head && ChildrenOf(disks, source) == {target}
      requires target in store && Folded(store[source], store[target])
      modifies this`disks, this`children, this`active, this`infoParent, this`store, volume`location, volume`files
      ensures Valid()
      ensures disks == WithoutNode(old(disks), source) && store == (old(store) - {source})[target := old(store)[source]]
      ensures OthersKept(old(disks), old(store), disks, store, base, source)
    {
      hide OthersKept, TreeOk, FilesOk, CacheOk, Folded, WithoutNode;
      ghost var store0, files0, location0 := store, volume.files, volume.location;
      assert source in store && source !in base && ValidLayer(store[source]) by { SourceFile(source); }
      var file := store[source];
      store := store[target := file];
      var _, at := RemoveDiskNode(source);
      store := store - {source};
      ReplaceStep(old(disks), old(children), head, base, old(active), store0, files0, location0, volume.location,
                  volume.holes, source, target, at);
      var index := FindDisk(target);
      RefreshHandle(index, at, file, target);
    }

    lemma HeadStored()
      requires Valid()
      ensures head in disks && head in store
    {
    }

    lemma SourceFile(source: DiskName)
      requires Valid() && source in disks
      ensures source in store && source !in base && ValidLayer(store[source])
    {
    }

    /** Reopens the file behind a chain position. */
    method RefreshHandle(index: nat, ghost at: nat, file: Layer, target: DiskName)
      requires ValidTree() && ValidLayer(file) && at < |active| - 1 && (index < |active| || index == 0)
      requires at > 0 ==>
                 && 1 + |base| <= at && active[at] == target
                 && CacheOk(volume.location, volume.files[at := file], volume.holes)
      requires index > 0 ==> active[index] == target
      requires index == 0 ==> forall i | 1 <= i < |active| :: active[i] != target
      requires at == 0 ==> forall i | 1 <= i < |active| :: active[i] != target
      modifies volume`files
      ensures ValidTree()
      ensures volume.files == if at == 0 then old(volume.files) else old(volume.files)[at := file]
    {
      if index == 0 {
        return;
      }
      ActiveIndex(disks, children, head, base, active, at, index);
      volume.SetFile(index, file);
    }

    /** Marks a disk other than the head as removed. */
    method MarkDiskAsRemoved(name: DiskName) returns (err: DiskError)
      requires Valid()
      modifies this`disks
      ensures Valid()
      ensures err == if name == head then IsHead else Ok
      ensures disks == if name in old(disks) && name != head
                       then old(disks)[name := Disk(old(disks)[name].parent, true)] else old(disks)
      ensures SnapshotUsage() == old(SnapshotUsage()) - if name in old(Counted(disks, head)) then 1 else 0
    {
      if name == head {
        return IsHead;
      }
      if name in disks {
        MarkTreeOk(disks, children, head, base, active, name);
        MarkCounts(disks, head, name);
        disks := disks[name := Disk(disks[name].parent, true)];
      }
      err := Ok;
    }

    /** The actions that remove a disk marked as removed. */
    method PrepareRemoveDisk(name: DiskName) returns (err: DiskError, actions: seq<Action>)
      requires Valid()
      ensures err == if name == head then IsHead
                     else if name in disks && !disks[name].removed then NotMarkedRemoved
                     else Ok
      ensures err == Ok && name in disks ==> Planned(disks, head, name, actions)
      ensures err == Ok && name !in disks ==> actions == []
    {
      hide IsPath, CacheOk;
      if name !in disks {
        return Ok, [];
      }
      if name == head {
        return IsHead, [];
      }
      if !disks[name].removed {
        return NotMarkedRemoved, [];
      }
      assert Kids(children, name) == ChildrenOf(disks, name);
      if name !in children {
        return Ok, [OpRemove(name)];
      }
      if |children[name]| == 1 {
        var child :| child in children[name];
        OnlyOne(children[name], child);
        if child != head {
          return Ok, [OpCoalesce(name, child), OpReplace(name, child)];
        }
        return Ok, [OpPrune(name, child)];
      }
      return Ok, [];
    }

    /** Plans and executes the removal of one disk. */
    method ProcessRemove(name: DiskName) returns (err: DiskError)
      requires Valid()
      modifies this`disks, this`children, this`active, this`infoParent, this`store, volume`location, volume`files
      ensures Valid()
      ensures err == Ok <==> !Refused(old(disks), head, name)
      ensures OthersKept(old(disks), old(store), disks, store, base, name)
      ensures err != Ok ==> store == old(store)
      ensures TopKept(old(store), store, head, volume.size)
      ensures disks == if err == Ok && Leaves(old(disks), head, name) then WithoutNode(old(disks), name) else old(disks)
      ensures forall n | n in disks :: n in old(disks) && disks[n].removed == old(disks)[n].removed
      ensures Executed(old(disks), old(store), disks, store, head, name)
    {
      hide OthersKept, IsPath, CacheOk, ChildMapOk, TopKept, OutsideKept, ValidLayer, Executed, WithoutNode;
      OthersReflexive(disks, store, base, name);
      HeadStored();
      TopSame(store, head, volume.size);
      MarksKept(disks, name);
      var actions;
      err, actions := PrepareRemoveDisk(name);
      if err != Ok || actions == [] {
        NothingExecuted(disks, store, head, name);
        return;
      }
      match actions[0] {
        case OpRemove(source) =>
          LeafExecuted(disks, store, head, source);
          RemovalsKeepTop(store, source, source, head, volume.size);
          err := RemoveDiffDisk(source);
        case OpPrune(source, target) =>
          PruneDisk(source, target);
        case OpCoalesce(source, target) =>
          err := CoalesceAndReplace(source, target);
      }
    }

    /** Prunes from a disk what its only child shadows. */
    method PruneDisk(source: DiskName, target: DiskName)
      requires Valid() && source in disks && source != head && ChildrenOf(disks, source) == {target}
      modifies this`store, volume`files
      ensures Valid() && OthersKept(disks, old(store), disks, store, base, source)
      ensures TopKept(old(store), store, head, volume.size)
      ensures target == head && disks[source].removed ==>
                Executed(disks, old(store), disks, store, head, source)
    {
      hide OthersKept, IsPath, CacheOk, ChildMapOk, TopKept, ValidLayer, Rooted, Executed;
      assert target in ChildrenOf(disks, source);
      HeadStored();
      FoldIsShadowed(store[source], store[target]);
      RewritesValid(store[source], store[target]);
      RemovalsKeepTop(store, source, target, head, volume.size);
      if target == head && disks[source].removed {
        PruneExecuted(disks, store, head, source);
      }
      RewriteFile(source, target, Prune(store[source], store[target]));
    }

    /** Folds the only child into the disk's file, then lets that file take the child's place. */
    method CoalesceAndReplace(source: DiskName, target: DiskName) returns (err: DiskError)
      requires Valid() && source in disks && source != head && target != head && ChildrenOf(disks, source) == {target}
      modifies this`disks, this`children, this`active, this`infoParent, this`store, volume`location, volume`files
      ensures Valid() && err == Ok && disks == WithoutNode(old(disks), source)
      ensures OthersKept(old(disks), old(store), disks, store, base, source)
      ensures TopKept(old(store), store, head, volume.size)
      ensures old(disks)[source].removed ==> Executed(old(disks), old(store), disks, store, head, source)
    {
      hide OthersKept, IsPath, CacheOk, ChildMapOk, TopKept, ValidLayer, Executed;
      assert target in ChildrenOf(disks, source);
      ghost var store0 := store;
      FoldIsShadowed(store[source], store[target]);
      RewritesValid(store[source], store[target]);
      HeadStored();
      RemovalsKeepTop(store, source, target, head, volume.size);
      if disks[source].removed {
        MergeExecuted(disks, store, head, source, target);
      }
      var folded := Fold(store[target], store[source]);
      RewriteFile(source, target, folded);
      ghost var store1 := store;
      assert source != target by { ChildRemoval(disks, source, target); }
      err := ReplaceDisk(target, source);
      assert store == (store0 - {source})[target := folded];
      OthersTransitive(old(disks), store0, store1, disks, store, base, source);
    }

    /** Any sequence of removals, stopped by the first one that is refused.  Exactly the planned disks leave the tree,
        with their files; the head and every disk not marked removed keep their images. */
    method Purge(names: seq<DiskName>) returns (err: DiskError)
      requires Valid()
      modifies this`disks, this`children, this`active, this`infoParent, this`store, volume`location, volume`files
      ensures Valid()
      ensures disks == PurgeTree(old(disks), head, names)
      ensures LiveKept(old(disks), old(store), disks, store, base, head)
      ensures TopKept(old(store), store, head, volume.size)
      ensures store.Keys == old(store).Keys - (old(disks).Keys - disks.Keys)
      ensures forall n | n in disks :: n in old(disks) && disks[n].removed == old(disks)[n].removed
    {
      hide OthersKept, IsPath, CacheOk, ChildMapOk, LiveKept, WithoutNode, FilesOk, TopKept, Executed;
      err := Ok;
      PurgedNothing(disks, store, base, active, volume.files, head, volume.size);
      var i := 0;
      while i < |names|
        invariant 0 <= i <= |names|
        invariant Valid() && PurgedTo(old(disks), old(store), disks, store, base, head, volume.size)
        invariant PurgeTree(disks, head, names[i..]) == PurgeTree(old(disks), head, names)
      {
        ghost var disks1, store1 := disks, store;
        FilesStored(disks, base, active, store, volume.files);
        err := ProcessRemove(names[i]);
        if err != Ok {
          break;
        }
        PurgedStep(old(disks), old(store), disks1, store1, disks, store, base, head, volume.size, names[i]);
        assert names[i..][1..] == names[i + 1..];
        i := i + 1;
      }
    }

    /** Writes through the layered device, whose parts end as given.  In any case only the head's file changes, and
        every other disk keeps its image.  If all parts are stored, the volume is spliced, and where no touched sector
        is unmapped, the stack of the head becomes `WriteTop` of itself; if one fails, the parts before it are
        written. */
    method WriteAt(buf: seq<byte>, offset: nat, first: Outcome, middle: Outcome, last: Outcome)
      returns (count: nat, ioErr: IOError, ghost done: nat, ghost part: nat)
      requires Valid() && offset + |buf| <= volume.size
      modifies this`store, volume`location, volume`files, volume`holes
      ensures Valid() && (ioErr == NoError || ioErr == WriteFailed)
      ensures ioErr == WriteFailed <==> SomePartFails(offset, |buf|, first, middle, last)
      ensures ioErr == NoError ==>
                && count == (if 0 < |buf| && offset % 4096 + |buf| <= 4096 then 4096 else |buf|)
                && volume.Volume() == Spliced(old(volume.Volume()), offset, buf)
                && (old(volume.holes) !! Touched(offset, |buf|) ==>
                      volume.files[1..] == WriteTop(old(volume.files[1..]), offset, buf))
      ensures ioErr == WriteFailed ==>
                && done + part <= |buf| && FailsAt(offset, |buf|, first, middle, done, part)
                && PartlyWritten(old(volume.Volume()), volume.Volume(), offset, buf, done, part)
      ensures HeadWithin(old(volume.files), volume.files, offset, |buf|)
      ensures store == old(store)[head := store[head]] && OthersKept(disks, old(store), disks, store, base, head)
      ensures StoreWithin(old(store), volume.size) ==> StoreWithin(store, volume.size)
    {
      hide OthersKept, IsPath, ChildMapOk, ShownImage, CacheOk, FilesOk, Wrote, Touched, Spliced, StoreWithin;
      hide HeadWithin, PartlyWritten, WriteTop, SomePartFails, FailsAt;
      ghost var files0, loc0, v0, holes0 := volume.files, volume.location, volume.Volume(), volume.holes;
      FilesStored(disks, base, active, store, files0);
      HeadIsLast(disks, children, head, base, active);
      HeadFile(disks, base, active, store, files0);
      count, ioErr, done, part := volume.WriteAt(buf, offset, first, middle, last);
      WroteHead(files0, volume.files, offset, |buf|);
      if ioErr == NoError {
        WroteSplices(files0, volume.files, v0, volume.Volume(), holes0, volume.holes, offset, buf);
        if holes0 !! Touched(offset, |buf|) {
          WroteIsWriteTop(loc0, files0, volume.location, volume.files, holes0, volume.holes, volume.size, offset, buf);
        }
      }
      StoreHead(files0, offset, |buf|);
    }

    /** The head's file is the one the device has written. */
    method StoreHead(ghost files0: seq<Layer>, ghost offset: nat, ghost len: nat)
      requires ValidTree() && FilesOk(disks, base, active, store, files0) && offset + len <= volume.size
      requires HeadWithin(files0, volume.files, offset, len) && active[|active| - 1] == head
      modifies this`store
      ensures Valid() && store == old(store)[head := store[head]]
      ensures OthersKept(disks, old(store), disks, store, base, head)
      ensures StoreWithin(old(store), volume.size) ==> StoreWithin(store, volume.size)
    {
      hide OthersKept, IsPath, ChildMapOk, CacheOk, FilesOk, HeadWithin, StoreWithin;
      FilesStored(disks, base, active, store, files0);
      HeadFile(disks, base, active, store, files0);
      WroteHead(files0, volume.files, offset, len);
      var top := volume.files[|volume.files| - 1];
      if StoreWithin(store, volume.size) {
        WroteWithin(files0, volume.files, store, head, offset, len, volume.size);
      }
      HeadOthers(disks, store, base, head, top);
      FileRewritten(disks, children, head, base, active, store, files0, |active| - 1, top);
      store := store[head := top];
    }

    /** Grows the volume: a snapshot under a head of the new size, then a larger sector table. */
    method Expand(size: nat) returns (err: DiskError)
      requires Valid() && |active| < 256
      modifies this, volume
      ensures Valid()
      ensures size % 4096 != 0 ==> err == NotAMultiple
      ensures size % 4096 == 0 && size < old(volume.size) ==> err == Smaller
      ensures size % 4096 == 0 && size == old(volume.size) ==> err == Ok
      ensures size % 4096 == 0 && size > old(volume.size) ==>
                (err == Ok <==> old(SnapshotUsage()) < old(snapshotMaxCount) && ExpansionSnapshot(size) !in old(disks)
                                && NextHead(old(head)) !in old(store))
      ensures err == Ok ==> volume.size == size && volume.Volume()[..old(volume.size)] == old(volume.Volume())
      ensures err == Ok && StoreWithin(old(store), old(volume.size)) ==>
                StoreWithin(store, size) && forall pos | old(volume.size) <= pos < size :: volume.Volume()[pos] == 0
      ensures err != Ok || size == old(volume.size) ==>
                volume.size == old(volume.size) && disks == old(disks) && store == old(store)
      ensures err == Ok && size != old(volume.size) ==>
                && disks == WithSnapshot(old(disks), old(head), ExpansionSnapshot(size), head)
                && store == SnapshotStore(old(store), old(head), ExpansionSnapshot(size), head, size)
                && SnapshotKeepsImages(old(disks), old(store), disks, store, base, old(head), ExpansionSnapshot(size),
                                       head)
    {
      if size % 4096 != 0 {
        return NotAMultiple;
      }
      if volume.size > size {
        return Smaller;
      }
      if volume.size == size {
        assert volume.Volume()[..volume.size] == volume.Volume();
        return Ok;
      }
      hide *;
      err := GrowHead(size);
    }

    method GrowHead(size: nat) returns (err: DiskError)
      requires Valid() && |active| < 256 && size % 4096 == 0 && volume.size < size
      modifies this, volume
      ensures Valid()
      ensures err == Ok <==> old(SnapshotUsage()) < old(snapshotMaxCount) && ExpansionSnapshot(size) !in old(disks)
                             && NextHead(old(head)) !in old(store)
      ensures err != Ok ==> volume.size == old(volume.size) && disks == old(disks) && store == old(store)
      ensures err != NotAMultiple && err != Smaller
      ensures err == Ok ==>
                && volume.size == size && volume.Volume()[..old(volume.size)] == old(volume.Volume())
                && (StoreWithin(old(store), old(volume.size)) ==>
                      && StoreWithin(store, size)
                      && forall pos | old(volume.size) <= pos < size :: volume.Volume()[pos] == 0)
                && disks == WithSnapshot(old(disks), old(head), ExpansionSnapshot(size), head)
                && store == SnapshotStore(old(store), old(head), ExpansionSnapshot(size), head, size)
                && SnapshotKeepsImages(old(disks), old(store), disks, store, base, old(head), ExpansionSnapshot(size),
                                       head)
    {
      hide TreeOk, FilesOk, CacheOk, SnapshotKeepsImages, ShownImage, Decimal, NextHead, WithSnapshot, SnapshotStore;
      hide StoreWithin, DataWithin;
      HeadStored();
      SnapshotWithin(disks, base, active, store, volume.files, head, ExpansionSnapshot(size), NextHead(head),
                     volume.size, size);
      err := CreateDisk(ExpansionSnapshot(size), size);
      if err == Ok {
        volume.Expand(size);
      }
    }

    /** Unmaps the head and as many disks right under it as there are removed ones in reach: `count` files
        lose the trimmed range, and the shown volume changes only inside it.  These are the head and removed
        disks exactly if the removed disks form an unbroken run (or are all marked now), and then every disk
        that is neither the head nor marked removed keeps its image; `UnmapSafeIff` is the converse. */
    method UnmapAt(length: nat, offset: nat, markRemoved: bool) returns (ghost count: nat)
      requires Valid() && length < 0x1_0000_0000
      requires forall n | n in store :: store[n].size % 4096 == 0
      modifies this`disks, this`store, volume`files, volume`holes
      ensures Valid() && SameParents(old(disks), disks) && (!markRemoved ==> disks == old(disks))
      ensures count == UnmapCount(old(disks), active, 1 + |base|, markRemoved)
      ensures AllRemoved(disks, active, |active| - count)
              <==> markRemoved || UnbrokenRun(old(disks), active, 1 + |base|)
      ensures AllRemoved(disks, active, |active| - count) ==>
                forall n | n in disks && n != head && !disks[n].removed ::
                  n in old(disks) && KeepsImage(old(disks), old(store), disks, store, base, n, n)
      ensures StoreWithin(old(store), volume.size) ==> StoreWithin(store, volume.size)
      ensures length < 4096 ==> store == old(store) && volume.files == old(volume.files)
      ensures length >= 4096 ==>
                && store == Unmapped(old(store), active, |active| - count, TrimOffset(length, offset),
                                     TrimLength(length, offset))
                && SameOutside(volume.location, old(volume.files), volume.files, TrimOffset(length, offset),
                               TrimLength(length, offset))
    {
      hide TreeOk, FilesOk, CacheOk, KeepsImage, SameOutside, UnbrokenRun, SameParents, UnmapCount;
      hide AllRemoved, AllScanned, StoreWithin, Unmapped, TrimOffset, TrimLength;
      ChainLength();
      StoredBefore();
      var found := ScanRemoved(markRemoved);
      count := found;
      if !markRemoved {
        ChainDisks(disks, children, head, base, active);
        UnmapsRemovedIff(disks, active, 1 + |base|);
      }
      UnmapFiles(found, length, offset);
      if StoreWithin(old(store), volume.size) {
        UnmappedWithin(old(store), active, |active| - count, TrimOffset(length, offset), TrimLength(length, offset),
                       volume.size);
      }
      if AllRemoved(disks, active, |active| - count) {
        assert SameParents(old(disks), disks) && disks.Keys == old(disks).Keys by { SameNames(old(disks), disks); }
        UnmapKeepsOthers(old(disks), old(store), |active| - count);
      }
    }

    /** Unmaps `count` files from the head down. */
    method UnmapFiles(count: nat, length: nat, offset: nat)
      requires Valid() && length < 0x1_0000_0000 && 1 <= count <= |active| - 1 - |base|
      requires forall n | n in store :: store[n].size % 4096 == 0
      modifies this`store, volume`files, volume`holes
      ensures Valid() && store.Keys == old(store).Keys
      ensures forall n | n in store && n !in Treated(active, |active| - count) :: store[n] == old(store)[n]
      ensures length < 4096 ==> store == old(store) && volume.files == old(volume.files)
      ensures length >= 4096 ==>
                && store == Unmapped(old(store), active, |active| - count, TrimOffset(length, offset),
                                     TrimLength(length, offset))
                && SameOutside(volume.location, old(volume.files), volume.files, TrimOffset(length, offset),
                               TrimLength(length, offset))
    {
      hide TreeOk, CacheOk, SameOutside, ValidLayer, Punch, TrimOffset, TrimLength, Unmapped, Treated;
      ghost var files1, from := volume.files, |active| - count;
      DeviceSizes(base, active, store, volume.files);
      UnmapDevice(count, length, offset);
      hide FilesOk;
      SyncFiles(count, files1);
      SyncedStore(old(store), files1, from, length, TrimOffset(length, offset), TrimLength(length, offset));
    }

    method UnmapDevice(count: nat, length: nat, offset: nat)
      requires ValidTree() && length < 0x1_0000_0000 && 1 <= count <= |active| - 1 - |base|
      requires forall i | 1 <= i < |volume.files| :: volume.files[i].size % 4096 == 0
      modifies volume`files, volume`holes
      ensures ValidTree() && forall i | 0 <= i < |active| - count :: volume.files[i] == old(volume.files)[i]
      ensures length < 4096 ==> volume.files == old(volume.files)
      ensures length >= 4096 ==>
                && (forall i | |active| - count <= i < |active| ::
                      volume.files[i] == Punch(old(volume.files)[i], TrimOffset(length, offset),
                                               TrimLength(length, offset)))
                && SameOutside(volume.location, old(volume.files), volume.files, TrimOffset(length, offset),
                               TrimLength(length, offset))
    {
      hide TreeOk, CacheOk, SameOutside, ValidLayer, Punch, TrimOffset, TrimLength;
      var _ := volume.UnmapAt(count, length, offset);
    }

    lemma SyncedStore(store0: Store, files0: seq<Layer>, from: nat, length: nat, off: nat, len: nat)
      requires Valid() && FilesOk(disks, base, active, store0, files0) && store.Keys == store0.Keys
      requires 1 <= from <= |active|
      requires forall n | n in store && n !in Treated(active, from) :: store[n] == store0[n]
      requires length < 4096 ==> volume.files == files0
      requires length >= 4096 ==> forall i | from <= i < |active| :: volume.files[i] == Punch(files0[i], off, len)
      ensures length < 4096 ==> store == store0
      ensures length >= 4096 ==> store == Unmapped(store0, active, from, off, len)
    {
      hide TreeOk, CacheOk, ValidLayer, Unmapped;
      if length >= 4096 {
        StoreUnmapped(store0, store, active, from, files0, volume.files, off, len);
      } else {
        SameStore(store0, store, active, from, files0);
      }
    }

    lemma StoredBefore()
      requires Valid()
      ensures (forall m | m in disks :: m in store) && Stored(store, base)
    {
    }

    lemma UnmapKeepsOthers(disks0: Disks, store0: Store, lo: nat)
      requires Valid() && SameParents(disks0, disks) && 1 + |base| <= lo < |active| && AllRemoved(disks, active, lo)
      requires (forall m | m in disks :: m in store0) && Stored(store0, base)
      requires AllScanned(disks, active, lo)
      requires forall m | m in store0 :: m in store && (store[m] == store0[m] || m in Treated(active, lo))
      ensures forall n | n in disks && n != head && !disks[n].removed ::
                n in disks0 && KeepsImage(disks0, store0, disks, store, base, n, n)
    {
      hide KeepsImage, TreeOk, FilesOk, CacheOk, SameParents;
      hide Scanned;
      forall n | n in disks && n != head && !disks[n].removed
        ensures n in disks0 && KeepsImage(disks0, store0, disks, store, base, n, n)
      {
        UnmapOthers(disks0, disks, children, head, base, active, store0, store, lo, n);
      }
    }

    /** Counts the head and the removed disks among those reached from it, marking them on request. */
    method ScanRemoved(markRemoved: bool) returns (count: nat)
      requires Valid()
      modifies this`disks
      ensures Valid() && SameParents(old(disks), disks) && (!markRemoved ==> disks == old(disks))
      ensures count == UnmapCount(old(disks), active, 1 + |base|, markRemoved)
      ensures AllScanned(disks, active, |active| - count)
      ensures markRemoved ==> AllRemoved(disks, active, |active| - count)
    {
      hide TreeOk, FilesOk, CacheOk, Scanned, ScanFlags, CountSet, ChildrenOf, SameParents;
      count := 1;
      ChainLength();
      var idx := |active| - 2;
      var first := 1 + |base|;
      ghost var seen: seq<bool> := [];
      ghost var all := ScanFlags(disks, active, first, idx, markRemoved);
      ScanStart();
      while idx >= first
        invariant first - 1 <= idx <= |active| - 2
        invariant Valid() && SameParents(old(disks), disks) && (!markRemoved ==> disks == old(disks))
        invariant ReachedAbove(idx, markRemoved)
        invariant count == 1 + CountSet(seen) && |seen| == |active| - 2 - idx
        invariant seen + ScanFlags(old(disks), active, first, idx, markRemoved) == all
      {
        var name := active[idx];
        ChainEntry(idx);
        SameScan(old(disks), disks, active);
        SameNames(old(disks), disks);
        ScanStep(old(disks), active, first, idx, markRemoved, seen, all);
        if |Kids(children, name)| > 1 {
          break;
        }
        ghost var before := disks;
        MarkOnRequest(idx, markRemoved);
        SameParentsTransitive(old(disks), before, disks);
        if disks[name].removed {
          count := count + 1;
        }
        seen := seen + [disks[name].removed];
        idx := idx - 1;
      }
      if idx < first {
        ScanEnd(old(disks), active, first, idx, markRemoved);
        assert seen + [] == seen;
      }
      AllReached(idx, |active| - count, markRemoved);
    }

    /** Every position above `idx` is reached and, if that was asked for, marked. */
    ghost predicate ReachedAbove(idx: int, mark: bool)
      reads this
    {
      forall i: nat | idx < i < |active| - 1 :: Reached(i) && (mark ==> disks[active[i]].removed)
    }

    lemma ScanStart()
      ensures CountSet([]) == 0 && ReachedAbove(|active| - 2, true) && ReachedAbove(|active| - 2, false)
      ensures SameParents(disks, disks)
    {
    }

    lemma SameParentsTransitive(a: Disks, b: Disks, c: Disks)
      requires SameParents(a, b) && SameParents(b, c)
      ensures SameParents(a, c)
    {
    }

    lemma AllReached(idx: int, from: nat, mark: bool)
      requires ReachedAbove(idx, mark) && idx < from
      ensures AllScanned(disks, active, from) && (mark ==> AllRemoved(disks, active, from))
    {
      forall i: nat | from <= i < |active| - 1
        ensures active[i] in disks && Scanned(disks, active, i) && (mark ==> disks[active[i]].removed)
      {
        assert Reached(i);
      }
    }

    /** One disk of the scan: it is reached, and marked on request. */
    method MarkOnRequest(idx: nat, mark: bool)
      requires Valid() && 1 + |base| <= idx < |active| - 1 && |Kids(children, active[idx])| <= 1
      requires ReachedAbove(idx, mark)
      modifies this`disks
      ensures Valid() && SameParents(old(disks), disks) && (!mark ==> disks == old(disks))
      ensures ReachedAbove(idx - 1, mark) && active[idx] in old(disks) && active[idx] in disks
      ensures disks[active[idx]].removed == (mark || old(disks)[active[idx]].removed)
    {
      hide TreeOk, FilesOk, CacheOk, Scanned, ChildrenOf;
      ChainEntry(idx);
      if mark {
        MarkChainDisk(idx);
      }
      ReachNext(idx);
    }

    /** Position `i` of the chain is reached by the scan. */
    ghost predicate Reached(i: nat)
      reads this
    {
      i < |active| && active[i] in disks && Scanned(disks, active, i)
    }

    lemma ChainLength()
      requires Valid()
      ensures 1 + |base| < |active|
    {
    }

    lemma ReachNext(i: nat)
      requires Valid() && 1 + |base| <= i < |active| - 1 && |Kids(children, active[i])| <= 1
      requires forall j | i < j < |active| - 1 :: Reached(j)
      ensures Reached(i)
    {
      ChainEntry(i);
      forall m | i <= m < |active| - 1 ensures |ChildrenOf(disks, active[m])| <= 1 {
        if m > i { assert Reached(m); }
      }
    }

    method MarkChainDisk(idx: nat)
      requires Valid() && 1 + |base| <= idx < |active| - 1
      modifies this`disks
      ensures Valid() && SameParents(old(disks), disks)
      ensures active[idx] in old(disks)
      ensures disks == old(disks)[active[idx] := Disk(old(disks)[active[idx]].parent, true)]
      ensures forall i: nat | old(Reached(i)) :: Reached(i)
    {
      ChainEntry(idx);
      HeadIsLast(disks, children, head, base, active);
      if active[idx] == head { ActiveIndex(disks, children, head, base, active, idx, |active| - 1); }
      ghost var before := disks;
      var _ := MarkDiskAsRemoved(active[idx]);
      SameScan(before, disks, active);
    }

    lemma ChainEntry(i: nat)
      requires Valid() && 1 + |base| <= i < |active|
      ensures active[i] in disks && active[i] != NoDisk && Kids(children, active[i]) == ChildrenOf(disks, active[i])
    {
      ActiveIndex(disks, children, head, base, active, i, i);
    }

    /** The named files are the ones the device has open. */
    method SyncFiles(count: nat, ghost before: seq<Layer>)
      requires ValidTree() && 1 <= count <= |active| - 1 - |base| && FilesOk(disks, base, active, store, before)
      requires |before| == |volume.files| && forall i | 0 <= i < |active| - count :: volume.files[i] == before[i]
      modifies this`store
      ensures Valid()
      ensures store.Keys == old(store).Keys
      ensures forall n | n in store && n !in Treated(active, |active| - count) :: store[n] == old(store)[n]
    {
      hide TreeOk, CacheOk, ValidLayer, PartSynced;
      var i := |active| - count;
      SyncStart(count, before);
      while i < |active|
        invariant |active| - count <= i <= |active|
        invariant PartSynced(old(store), store, active, volume.files, |active| - count, i)
      {
        forall j | 1 <= j < |active| && active[j] == active[i] ensures j == i {
          ActiveIndex(disks, children, head, base, active, i, j);
        }
        SyncStep(old(store), store, active, volume.files, |active| - count, i);
        store := store[active[i] := volume.files[i]];
        i := i + 1;
      }
      SyncEnd(old(store), |active| - count);
    }

    lemma SyncStart(count: nat, before: seq<Layer>)
      requires ValidTree() && 1 <= count <= |active| - 1 - |base| && FilesOk(disks, base, active, store, before)
      requires |before| == |volume.files| && forall i | 0 <= i < |active| - count :: volume.files[i] == before[i]
      ensures PartSynced(store, store, active, volume.files, |active| - count, |active| - count)
    {
    }

    lemma SyncEnd(store0: Store, from: int)
      requires ValidTree() && PartSynced(store0, store, active, volume.files, from, |active|)
      requires (forall n | n in disks :: n in store0) && (forall n | n in base :: n in store0)
      ensures Valid() && store.Keys == store0.Keys
      ensures forall n | n in store && n !in Treated(active, from) :: store[n] == store0[n]
    {
      hide ValidLayer;
    }

    /** Reverts to a snapshot: a new empty head on top of it replaces the old head; the replica is reloaded. */
    method Revert(target: DiskName) returns (err: DiskError, r: Replica?)
      requires Valid() && |base| <= 1
      ensures err == if target !in disks then NotFound else if disks[target].removed then MarkedRemoved
                     else if NextHead(head) in store then HeadExists else Ok
      ensures err != Ok ==> r == null
      ensures err == Ok ==> (r != null <==> target != head && exists p :: IsPath(disks, target, p) && |p| < MAX_CHAIN)
      ensures err == Ok && r != null ==>
                && r.Valid() && r.head == NextHead(head) && r.base == base && r.volume.size == volume.size
                && r.snapshotMaxCount == snapshotMaxCount && r.disks.Keys == disks.Keys - {head} + {r.head}
                && (forall n | n in disks && n != head :: r.disks[n] == disks[n] && r.store[n] == store[n])
                && r.disks[r.head] == Disk(target, false) && r.store[r.head] == Layer(volume.size, map[])
                && KeepsImage(disks, store, r.disks, r.store, base, target, r.head)
                && OthersKept(disks, store, r.disks, r.store, base, head)
    {
      hide CacheOk, KeepsImage, OthersKept, ChildMapOk, IsPath, ChildrenOf, Walks, Rooted;
      if target !in disks {
        return NotFound, null;
      }
      if disks[target].removed {
        return MarkedRemoved, null;
      }
      var newHead := NextHead(head);
      if newHead in store {
        return HeadExists, null;
      }
      RevertedWalk(disks, head, newHead, target);
      if target != head {
        RevertImages(disks, store, base, head, newHead, target, volume.size);
      }
      r := Open(Reverted(disks, head, newHead, target), store[newHead := Layer(volume.size, map[])] - {head}, newHead,
                base, volume.size, snapshotMaxCount);
      err := Ok;
    }
  }
}

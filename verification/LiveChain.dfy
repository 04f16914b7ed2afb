/** The bookkeeping of a replica on values: child sets, the live chain of the head with its opened files,
    and what each operation of a replica does to tree, chain, files and images.
 */
module LiveChains {
  import opened Layers
  import opened SectorMaps
  import opened SnapshotTree

  type Children = map<DiskName, set<DiskName>>

  datatype DiskError =
    | Ok
    | TooManySnapshots
    | AlreadyExists
    | HeadExists
    | HasChildren
    | IsHead
    | MarkedRemoved
    | NotMarkedRemoved
    | NotFound
    | NotAMultiple
    | Smaller

  /** The most disks a live chain may have. */
  const MAX_CHAIN: nat := 250

  /** What a purge does to one disk. */
  datatype Action =
    | OpRemove(source: DiskName)
    | OpCoalesce(source: DiskName, target: DiskName)
    | OpReplace(source: DiskName, target: DiskName)
    | OpPrune(source: DiskName, target: DiskName)

  // ----- the child map -----

  function Kids(children: Children, p: DiskName): set<DiskName> {
    if p in children then children[p] else {}
  }

  /** The child sets are the exact inverse of the non-empty parents, and no empty set is stored.
      The entry of the empty name is not constrained: snapshots add to it, reloads do not. */
  ghost predicate ChildMapOk(disks: Disks, children: Children) {
    && (forall p | p in children :: children[p] != {})
    && (forall p: DiskName | p != NoDisk :: Kids(children, p) == ChildrenOf(disks, p))
  }

  function AddChild(children: Children, parent: DiskName, child: DiskName): Children {
    children[parent := Kids(children, parent) + {child}]
  }

  function RmChild(children: Children, parent: DiskName, child: DiskName): Children {
    if parent !in children || child !in children[parent] then children
    else if children[parent] - {child} == {} then children - {parent}
    else children[parent := children[parent] - {child}]
  }

  lemma RmChildKids(children: Children, parent: DiskName, child: DiskName)
    requires forall p | p in children :: children[p] != {}
    ensures var m := RmChild(children, parent, child);
            && (forall p | p in m :: m[p] != {})
            && (forall p :: Kids(m, p) == if p == parent then Kids(children, p) - {child} else Kids(children, p))
  {
  }

  lemma SnapshotChildMap(disks: Disks, children: Children, head: DiskName, snap: DiskName, newHead: DiskName)
    requires Rooted(disks) && ChildMapOk(disks, children) && head in disks && ChildrenOf(disks, head) == {}
    requires snap !in disks && newHead !in disks && snap != newHead && snap != NoDisk && newHead != NoDisk
    ensures var m := AddChild(RmChild(AddChild(children, snap, newHead), disks[head].parent, head), disks[head].parent,
                              snap);
            ChildMapOk(WithSnapshot(disks, head, snap, newHead), m)
  {
    var m0 := AddChild(children, snap, newHead);
    var parent := disks[head].parent;
    var m := AddChild(RmChild(m0, parent, head), parent, snap);
    RmChildKids(m0, parent, head);
    forall n | n in disks ensures disks[n].parent in disks || disks[n].parent == NoDisk {
      ParentInDisks(disks, n);
    }
    var disks' := WithSnapshot(disks, head, snap, newHead);
    forall p: DiskName | p != NoDisk ensures Kids(m, p) == ChildrenOf(disks', p) {
      SnapshotKids(disks, head, snap, newHead, p);
      assert Kids(m0, p) == if p == snap then {newHead} else ChildrenOf(disks, p);
    }
  }

  lemma SnapshotKids(disks: Disks, head: DiskName, snap: DiskName, newHead: DiskName, p: DiskName)
    requires head in disks && snap !in disks && newHead !in disks && snap != newHead && p != NoDisk && snap != NoDisk
    requires forall n | n in disks :: disks[n].parent in disks || disks[n].parent == NoDisk
    ensures ChildrenOf(WithSnapshot(disks, head, snap, newHead), p) ==
              if p == snap then {newHead}
              else if p == disks[head].parent then ChildrenOf(disks, p) - {head} + {snap}
              else ChildrenOf(disks, p)
    ensures ChildrenOf(disks, snap) == {}
  {
  }

  lemma RemovalChildMap(disks: Disks, children: Children, x: DiskName, kids: set<DiskName>)
    requires Rooted(disks) && ChildMapOk(disks, children) && x in disks && kids == ChildrenOf(disks, x)
    requires kids == {} || exists c :: kids == {c}
    ensures var m := RmChild(children, disks[x].parent, x);
            && (kids == {} ==> ChildMapOk(WithoutNode(disks, x), m))
            && (forall c | kids == {c} :: ChildMapOk(WithoutNode(disks, x), AddChild(m, disks[x].parent, c) - {x}))
  {
    hide RmChild, WithoutNode, Rooted, ChildrenOf;
    var parent := disks[x].parent;
    RmChildKids(children, parent, x);
    RemovalKids(disks, x);
    var m, disks' := RmChild(children, parent, x), WithoutNode(disks, x);
    forall c | kids == {c} ensures ChildMapOk(disks', AddChild(m, parent, c) - {x}) {
      OneChildMap(disks, children, x, parent, c, m, disks');
    }
  }

  lemma OneChildMap(disks: Disks, children: Children, x: DiskName, parent: DiskName, c: DiskName, m: Children,
                    disks': Disks)
    requires parent != x && ChildMapOk(disks, children) && ChildrenOf(disks, x) == {c}
    requires forall p | p in m :: m[p] != {}
    requires forall p :: Kids(m, p) == if p == parent then Kids(children, p) - {x} else Kids(children, p)
    requires forall p: DiskName | p != NoDisk ::
               ChildrenOf(disks', p) ==
               if p == x then {} else ChildrenOf(disks, p) - {x} + if p == parent then {c} else {}
    requires forall p | p != parent && p != NoDisk && p != x :: x !in ChildrenOf(disks, p)
    ensures ChildMapOk(disks', AddChild(m, parent, c) - {x})
  {
    hide ChildrenOf;
    var m' := AddChild(m, parent, c) - {x};
    forall p: DiskName | p != NoDisk ensures Kids(m', p) == ChildrenOf(disks', p) {
    }
  }

  /** The children of every disk after a removal. */
  lemma RemovalKids(disks: Disks, x: DiskName)
    requires Rooted(disks) && x in disks
    ensures x !in ChildrenOf(disks, x) && disks[x].parent != x
    ensures forall p | p != disks[x].parent :: x !in ChildrenOf(disks, p)
    ensures forall p: DiskName | p != NoDisk ::
              ChildrenOf(WithoutNode(disks, x), p) ==
              if p == x then {}
              else ChildrenOf(disks, p) - {x} + if p == disks[x].parent then ChildrenOf(disks, x) else {}
  {
    var p0 :| IsPath(disks, x, p0);
    PathNotSelf(disks, x, p0);
  }

  /** The child sets of the disks read so far; those in `todo` are still to be read. */
  ghost predicate Gathered(disks: Disks, children: Children, todo: set<DiskName>) {
    && (forall p | p in children :: children[p] != {})
    && (forall p: DiskName | p != NoDisk :: Kids(children, p) == ChildrenOf(disks, p) - todo)
  }

  lemma Gather(disks: Disks, children: Children, todo: set<DiskName>, n: DiskName)
    requires Gathered(disks, children, todo) && n in todo && n in disks
    ensures var more := if disks[n].parent == NoDisk then children else AddChild(children, disks[n].parent, n);
            Gathered(disks, more, todo - {n})
  {
  }

  // ----- the live chain -----

  /** Tree invariant: rooted (hence acyclic), exact child sets, a childless head, and the active list
      equal to the nil entry, the backing file if any, and the path from the root to the head. */
  ghost predicate TreeOk(disks: Disks, children: Children, head: DiskName, base: seq<DiskName>, active: seq<DiskName>) {
    && Rooted(disks) && ChildMapOk(disks, children)
    && head.Head? && head in disks && ChildrenOf(disks, head) == {}
    && 1 + |base| < |active| && active[0] == NoDisk && active[1..1 + |base|] == base
    && IsPath(disks, head, active[1 + |base|..])
    && (forall b | b in base :: b !in disks && b != NoDisk)
  }

  /** Every disk has its file, and the opened files are those of the active list, in order. */
  ghost predicate FilesOk(disks: Disks, base: seq<DiskName>, active: seq<DiskName>, store: Store, files: seq<Layer>) {
    && (forall n | n in disks :: n in store)
    && (forall n | n in base :: n in store)
    && (forall n | n in store :: ValidLayer(store[n]))
    && |files| == |active|
    && (forall i | 1 <= i < |active| :: active[i] in store && files[i] == store[active[i]])
  }

  /** The head after `old`: the pattern captures only the last digit of the number. */
  function NextHead(old': DiskName): DiskName {
    if old'.Head? then Head(old'.index % 10 + 1) else Head(0)
  }

  /** The head after `n` more snapshots. */
  function HeadAfter(h: DiskName, n: nat): DiskName
    decreases n
  {
    if n == 0 then h else HeadAfter(NextHead(h), n - 1)
  }

  /** Head names repeat: every name but the first comes back with the tenth snapshot, and not before. */
  lemma NamesComeRound(i: nat)
    requires 1 <= i <= 10
    ensures HeadAfter(Head(i), 10) == Head(i) && forall n | 0 < n < 10 :: HeadAfter(Head(i), n) != Head(i)
  {
    forall n | 0 <= n <= 10 ensures HeadAfter(Head(i), n) == Head(if i + n <= 10 then i + n else i + n - 10) {
      NamesAfter(i, n);
    }
  }

  lemma {:induction false} NamesAfter(i: nat, n: nat)
    requires 1 <= i <= 10 && n <= 10
    ensures HeadAfter(Head(i), n) == Head(if i + n <= 10 then i + n else i + n - 10)
    decreases n
  {
    if n > 0 {
      assert NextHead(Head(i)) == Head(if i < 10 then i + 1 else 1);
      NamesAfter(if i < 10 then i + 1 else 1, n - 1);
    }
  }

  lemma BaseEntry(base: seq<DiskName>, active: seq<DiskName>, j: nat)
    requires 1 <= j <= |base| < |active| && active[1..1 + |base|] == base
    ensures active[j] in base
  {
    assert base[j - 1] == active[j];
  }

  lemma ActiveIndex(disks: Disks, children: Children, head: DiskName, base: seq<DiskName>, active: seq<DiskName>,
                    i: nat, j: nat)
    requires TreeOk(disks, children, head, base, active)
    requires 1 + |base| <= i < |active| && 1 <= j < |active| && active[i] == active[j]
    ensures i == j && active[i] in disks
  {
    var p := active[1 + |base|..];
    PathLinks(disks, head, p, i - 1 - |base|);
    if j < 1 + |base| {
      BaseEntry(base, active, j);
    } else {
      PathDistinct(disks, head, p, i - 1 - |base|, j - 1 - |base|);
    }
  }

  lemma {:induction false} DropIsRemoveAt(p: seq<DiskName>, i: nat)
    requires i < |p| && forall j | 0 <= j < |p| && j != i :: p[j] != p[i]
    ensures Drop(p, p[i]) == RemoveAt(p, i)
  {
    var init := p[..|p| - 1];
    if i == |p| - 1 {
      DropNothing(init, p[i]);
    } else {
      DropIsRemoveAt(init, i);
      assert RemoveAt(init, i) + [p[|p| - 1]] == RemoveAt(p, i);
    }
  }

  lemma RemovalPath(disks: Disks, head: DiskName, p: seq<DiskName>, i: nat)
    requires IsPath(disks, head, p) && i < |p| && p[i] in disks && p[i] != head && p[i] != NoDisk
    ensures i < |p| - 1 && IsPath(WithoutNode(disks, p[i]), head, RemoveAt(p, i))
  {
    assert p[|p| - 1] == head;
    hide IsPath, Drop, WithoutNode;
    forall j | 0 <= j < |p| && p[j] == p[i] ensures j == i {
      PathDistinct(disks, head, p, i, j);
    }
    DropIsRemoveAt(p, i);
    RemovalPaths(disks, p[i], head, p);
  }

  /** Taking a node out of the tree takes exactly its entry out of the active list. */
  lemma RemovalChain(disks: Disks, children: Children, head: DiskName, base: seq<DiskName>, active: seq<DiskName>,
                     x: DiskName, index: nat)
    requires TreeOk(disks, children, head, base, active) && x in disks && x != head && x != NoDisk
    requires 1 <= index < |active| && active[index] == x
    ensures index < |active| - 1
    ensures var a := RemoveAt(active, index);
            && 1 + |base| < |a| && a[0] == NoDisk && a[1..1 + |base|] == base
            && IsPath(WithoutNode(disks, x), head, a[1 + |base|..])
  {
    hide IsPath, WithoutNode, ChildMapOk, Rooted, ChildrenOf;
    if index < 1 + |base| { BaseEntry(base, active, index); }
    var i := index - 1 - |base|;
    RemovalPath(disks, head, active[1 + |base|..], i);
    RemoveAtSuffix(active, 1 + |base|, i);
  }

  lemma RemoveAtSuffix(active: seq<DiskName>, n: nat, i: nat)
    requires n + i < |active|
    ensures RemoveAt(active, n + i)[n..] == RemoveAt(active[n..], i)
    ensures n > 0 ==> RemoveAt(active, n + i)[0] == active[0] && RemoveAt(active, n + i)[1..n] == active[1..n]
  {
  }

  /** A snapshot keeps the whole tree invariant. */
  lemma SnapshotTreeOk(disks: Disks, children: Children, children': Children, head: DiskName, snap: DiskName,
                       newHead: DiskName,
                       base: seq<DiskName>, active: seq<DiskName>, active': seq<DiskName>)
    requires TreeOk(disks, children, head, base, active)
    requires snap !in disks && newHead !in disks && snap.Snapshot? && newHead.Head? && snap !in base && newHead !in base
    requires children' == AddChild(RmChild(AddChild(children, snap, newHead), disks[head].parent, head),
                                   disks[head].parent, snap)
    requires active' == active[..|active| - 1] + [snap, newHead]
    ensures TreeOk(WithSnapshot(disks, head, snap, newHead), children', newHead, base, active')
  {
    var disks' := WithSnapshot(disks, head, snap, newHead);
    SnapshotChildMap(disks, children, head, snap, newHead);
    forall n | n in disks' ensures exists p :: IsPath(disks', n, p) {
      var n0 := if n == snap || n == newHead then head else n;
      var p :| IsPath(disks, n0, p);
      SnapshotPaths(disks, head, snap, newHead, n0, p);
    }
    var p := active[1 + |base|..];
    SnapshotPaths(disks, head, snap, newHead, head, p);
    assert active'[1 + |base|..] == p[..|p| - 1] + [snap, newHead];
    assert active'[1..1 + |base|] == base;
    forall n | n in disks ensures disks[n].parent in disks || disks[n].parent == NoDisk {
      ParentInDisks(disks, n);
    }
    SnapshotKids(disks, head, snap, newHead, newHead);
    assert ChildrenOf(disks, newHead) == {};
  }

  /** Snapshot and new head show what the old head showed; every other disk is as before. */
  ghost predicate SnapshotKeepsImages(disks: Disks, store: Store, disks': Disks, store': Store, base: seq<DiskName>,
                                      head: DiskName, snap: DiskName, newHead: DiskName) {
    && (forall n | n in disks && n != head :: n in disks' && KeepsImage(disks, store, disks', store', base, n, n))
    && KeepsImage(disks, store, disks', store', base, head, snap)
    && KeepsImage(disks, store, disks', store', base, head, newHead)
  }

  function SnapshotStore(store: Store, head: DiskName, snap: DiskName, newHead: DiskName, size: nat): Store
    requires head in store
  {
    (store - {head})[snap := store[head]][newHead := Layer(size, map[])]
  }

  // ----- the number of snapshots -----

  /** The disks that count against the limit: neither removed nor the head. */
  function Counted(disks: Disks, head: DiskName): set<DiskName> {
    set n | n in disks && !disks[n].removed && n != head
  }

  lemma CountOne(counted: set<DiskName>, todo: set<DiskName>, n: DiskName)
    requires n in todo
    ensures |counted - (todo - {n})| == |counted - todo| + if n in counted then 1 else 0
  {
    if n in counted {
      assert counted - (todo - {n}) == counted - todo + {n};
    } else {
      assert counted - (todo - {n}) == counted - todo;
    }
  }

  /** A new volume has no snapshot. */
  lemma NoneCounts(head: DiskName, disk: Disk)
    ensures Counted(map[head := disk], head) == {}
  {
  }

  lemma MarkCounts(disks: Disks, head: DiskName, n: DiskName)
    requires n in disks
    ensures |Counted(disks[n := Disk(disks[n].parent, true)], head)|
         == |Counted(disks, head)| - if n in Counted(disks, head) then 1 else 0
  {
    assert Counted(disks[n := Disk(disks[n].parent, true)], head) == Counted(disks, head) - {n};
  }

  lemma SnapshotCounts(disks: Disks, head: DiskName, snap: DiskName, newHead: DiskName)
    requires head in disks && snap !in disks && newHead !in disks && snap != newHead
    ensures |Counted(WithSnapshot(disks, head, snap, newHead), newHead)|
         == |Counted(disks, head)| + if disks[head].removed then 0 else 1
  {
    assert Counted(WithSnapshot(disks, head, snap, newHead), newHead)
        == Counted(disks, head) + if disks[head].removed then {} else {snap};
  }

  lemma RemovalCounts(disks: Disks, head: DiskName, x: DiskName)
    requires x in disks
    ensures |Counted(WithoutNode(disks, x), head)|
         == |Counted(disks, head)| - if x in Counted(disks, head) then 1 else 0
  {
    assert Counted(WithoutNode(disks, x), head) == Counted(disks, head) - {x};
  }

  /** Whether the snapshots `snaps` can be taken one after the other: no file has the next head's name. */
  predicate Takes(store: Store, head: DiskName, snaps: seq<DiskName>, size: nat)
    decreases |snaps|
  {
    snaps == [] ||
    (&& head in store && NextHead(head) !in store && snaps[0].Snapshot?
     && Takes(SnapshotStore(store, head, snaps[0], NextHead(head), size), NextHead(head), snaps[1..], size))
  }

  /** A file left under a head's name stays, so that the snapshots end before its name comes round. */
  lemma {:induction false} LeftoverStops(store: Store, head: DiskName, x: DiskName, snaps: seq<DiskName>, size: nat)
    requires x in store && x.Head? && x != head && Takes(store, head, snaps, size)
    ensures forall n | 1 <= n <= |snaps| :: HeadAfter(head, n) != x
    decreases |snaps|
  {
    if snaps != [] {
      var next := NextHead(head);
      LeftoverStops(SnapshotStore(store, head, snaps[0], next, size), next, x, snaps[1..], size);
      forall n | 1 <= n <= |snaps| ensures HeadAfter(head, n) != x {
        assert HeadAfter(head, n) == HeadAfter(next, n - 1);
      }
    }
  }

  lemma SnapshotOthers(disks: Disks, store: Store, base: seq<DiskName>, head: DiskName, snap: DiskName,
                       newHead: DiskName, size: nat, n: DiskName)
    requires Rooted(disks) && head in disks && ChildrenOf(disks, head) == {} && n in disks && n != head
    requires snap !in disks && newHead !in disks && snap != newHead && snap != NoDisk && newHead != NoDisk
    requires (forall n | n in disks :: n in store)
    requires (forall b | b in base :: b in store && b != snap && b != newHead && b != head)
    ensures KeepsImage(disks, store, WithSnapshot(disks, head, snap, newHead),
                       SnapshotStore(store, head, snap, newHead, size), base, n, n)
  {
    hide KeepsImage;
    var q :| IsPath(disks, n, q);
    PathInDisks(disks, n, q);
    if head in q { LeafIsLast(disks, n, q, head); }
    SnapshotPaths(disks, head, snap, newHead, n, q);
    KeepsUntouched(disks, store, WithSnapshot(disks, head, snap, newHead),
                   SnapshotStore(store, head, snap, newHead, size), base, n, q);
  }

  lemma SnapshotHead(disks: Disks, store: Store, base: seq<DiskName>, head: DiskName, snap: DiskName,
                     newHead: DiskName, size: nat, p: seq<DiskName>)
    requires head in disks && ChildrenOf(disks, head) == {} && IsPath(disks, head, p)
    requires snap !in disks && newHead !in disks && snap != newHead && snap != NoDisk && newHead != NoDisk
    requires (forall n | n in disks :: n in store)
    requires (forall b | b in base :: b in store && b != snap && b != newHead && b != head)
    ensures var disks', store' :=
            WithSnapshot(disks, head, snap, newHead), SnapshotStore(store, head, snap, newHead, size);
            && KeepsImage(disks, store, disks', store', base, head, snap)
            && KeepsImage(disks, store, disks', store', base, head, newHead)
  {
    hide KeepsImage;
    var disks', store' := WithSnapshot(disks, head, snap, newHead), SnapshotStore(store, head, snap, newHead, size);
    SnapshotPaths(disks, head, snap, newHead, head, p);
    var under := p[..|p| - 1];
    PathNotSelf(disks, head, p);
    PathInDisks(disks, head, p);
    assert forall m | m in under :: m in p;
    SameLayers(store, store', base + under);
    var u, e := LayersOf(store, base + under), Layer(size, map[]);
    LayersPush(store, base + under, head);
    LayersPush(store', base + under, snap);
    LayersPush(store', base + under + [snap], newHead);
    forall s: nat ensures SectorAt(u + [store[head]] + [e], s) == SectorAt(u + [store[head]], s) {
      SectorAtSnoc(u + [store[head]], e, s);
    }
    assert base + p == base + under + [head];
    assert base + (under + [snap]) == base + under + [snap];
    assert base + (under + [snap, newHead]) == base + under + [snap] + [newHead];
    KeepsOnly(disks, store, disks', store', base, head, p, snap, under + [snap]);
    KeepsOnly(disks, store, disks', store', base, head, p, newHead, under + [snap, newHead]);
  }

  lemma SnapshotValues(disks: Disks, store: Store, active: seq<DiskName>, head: DiskName, snap: DiskName,
                       newHead: DiskName, size: nat)
    requires head in disks && head in store && snap !in disks && newHead !in disks && newHead !in store
    requires snap.Snapshot? && head.Head? && newHead.Head? && 0 < |active|
    ensures disks[newHead := Disk(snap, false)][snap := disks[head]] - {head}
            == WithSnapshot(disks, head, snap, newHead)
    ensures store[newHead := Layer(size, map[])][snap := store[head]] - {head}
            == SnapshotStore(store, head, snap, newHead, size)
    ensures active[|active| - 1 := snap] + [newHead] == active[..|active| - 1] + [snap, newHead]
  {
  }

  /** Everything a snapshot does, on values. */
  lemma SnapshotStep(disks: Disks, children: Children, children': Children, head: DiskName, snap: DiskName,
                     newHead: DiskName, base: seq<DiskName>, active: seq<DiskName>, active': seq<DiskName>,
                     store: Store, files: seq<Layer>, size: nat)
    requires TreeOk(disks, children, head, base, active) && FilesOk(disks, base, active, store, files)
    requires snap !in disks && newHead !in store && snap.Snapshot? && newHead.Head?
    requires children' == AddChild(RmChild(AddChild(children, snap, newHead), disks[head].parent, head),
                                   disks[head].parent, snap)
    requires active' == active[..|active| - 1] + [snap, newHead]
    requires forall b | b in base :: b.BackingFile?
    ensures var disks', store' :=
            WithSnapshot(disks, head, snap, newHead), SnapshotStore(store, head, snap, newHead, size);
            && TreeOk(disks', children', newHead, base, active')
            && FilesOk(disks', base, active', store', files + [Layer(size, map[])])
            && SnapshotKeepsImages(disks, store, disks', store', base, head, snap, newHead)
  {
    hide KeepsImage, IsPath;
    var disks', store' := WithSnapshot(disks, head, snap, newHead), SnapshotStore(store, head, snap, newHead, size);
    SnapshotTreeOk(disks, children, children', head, snap, newHead, base, active, active');
    forall n | n in disks && n != head ensures KeepsImage(disks, store, disks', store', base, n, n) {
      SnapshotOthers(disks, store, base, head, snap, newHead, size, n);
    }
    SnapshotHead(disks, store, base, head, snap, newHead, size, active[1 + |base|..]);
    SnapshotFiles(disks, children, head, snap, newHead, base, active, active', store, files, size);
  }

  lemma SnapshotFiles(disks: Disks, children: Children, head: DiskName, snap: DiskName, newHead: DiskName,
                      base: seq<DiskName>, active: seq<DiskName>, active': seq<DiskName>,
                      store: Store, files: seq<Layer>, size: nat)
    requires TreeOk(disks, children, head, base, active) && FilesOk(disks, base, active, store, files)
    requires snap !in disks && newHead !in store && snap.Snapshot? && newHead.Head?
    requires active' == active[..|active| - 1] + [snap, newHead]
    requires forall b | b in base :: b.BackingFile?
    ensures FilesOk(WithSnapshot(disks, head, snap, newHead), base, active',
                    SnapshotStore(store, head, snap, newHead, size), files + [Layer(size, map[])])
  {
    var n, store', fs := |active|, SnapshotStore(store, head, snap, newHead, size), files + [Layer(size, map[])];
    assert active[n - 1] == active[1 + |base|..][n - 2 - |base|] == head;
    forall i | 1 <= i < |active'| ensures active'[i] in store' && fs[i] == store'[active'[i]] {
      if i < n - 1 {
        if active[i] == head { ActiveIndex(disks, children, head, base, active, n - 1, i); }
        if 1 + |base| <= i {
          ActiveIndex(disks, children, head, base, active, i, i);
        } else {
          BaseEntry(base, active, i);
        }
      }
    }
  }

  lemma RemovalRooted(disks: Disks, x: DiskName)
    requires Rooted(disks) && x in disks
    ensures Rooted(WithoutNode(disks, x))
  {
    forall n | n in WithoutNode(disks, x) ensures exists p :: IsPath(WithoutNode(disks, x), n, p) {
      var p :| IsPath(disks, n, p);
      RemovalPaths(disks, x, n, p);
    }
  }

  /** The whole removal of a node on values. */
  lemma RemovalTreeOk(disks: Disks, children: Children, head: DiskName, base: seq<DiskName>, active: seq<DiskName>,
                      x: DiskName, index: nat)
    requires TreeOk(disks, children, head, base, active) && x in disks && x != head
    requires |ChildrenOf(disks, x)| <= 1
    requires index < |active| && (index > 0 ==> active[index] == x)
    requires index == 0 ==> forall i | 1 <= i < |active| :: active[i] != x
    ensures index > 0 ==> |ChildrenOf(disks, x)| == 1 && index < |active| - 1
    ensures 0 < index == |active| - 2 || WithoutNode(disks, x)[head].parent == disks[head].parent
    ensures TreeOk(WithoutNode(disks, x), RemovalChildren(disks, children, x), head, base,
                   if index == 0 then active else RemoveAt(active, index))
  {
    hide ChildMapOk, Rooted, IsPath, RemovalChildren;
    RootedNames(disks);
    RemovalRooted(disks, x);
    RemovedChildMap(disks, children, x);
    RemovedHeadLeaf(disks, head, x);
    HeadParent(disks, children, head, base, active, x, index);
    if index == 0 {
      RemovalPaths(disks, x, head, active[1 + |base|..]);
      DropNothing(active[1 + |base|..], x);
    } else {
      RemovalChain(disks, children, head, base, active, x, index);
      if 1 + |base| > index { BaseEntry(base, active, index); }
      NextIsChild(disks, head, active[1 + |base|..], index - 1 - |base|);
    }
  }

  /** The head gets a new parent only when the disk right under it leaves. */
  lemma HeadParent(disks: Disks, children: Children, head: DiskName, base: seq<DiskName>, active: seq<DiskName>,
                   x: DiskName, index: nat)
    requires TreeOk(disks, children, head, base, active) && x in disks && x != head
    requires index < |active| && (index > 0 ==> active[index] == x)
    requires index == 0 ==> forall i | 1 <= i < |active| :: active[i] != x
    ensures 0 < index == |active| - 2 || WithoutNode(disks, x)[head].parent == disks[head].parent
  {
    hide ChildMapOk, Rooted, IsPath;
    if disks[head].parent == x {
      var p := active[1 + |base|..];
      HeadIsLast(disks, children, head, base, active);
      PathLinks(disks, head, p, |p| - 1);
      assert x != NoDisk by { RootedNames(disks); }
      assert p[|p| - 2] == active[|active| - 2];
      ActiveIndex(disks, children, head, base, active, |active| - 2, if index > 0 then index else |active| - 2);
    }
  }

  lemma RootedNames(disks: Disks)
    requires Rooted(disks)
    ensures NoDisk !in disks
  {
  }

  ghost function RemovalChildren(disks: Disks, children: Children, x: DiskName): Children
    requires x in disks && |ChildrenOf(disks, x)| <= 1
  {
    var m := RmChild(children, disks[x].parent, x);
    if ChildrenOf(disks, x) == {} then m
    else AddChild(m, disks[x].parent, TheOnly(ChildrenOf(disks, x))) - {x}
  }

  ghost function TheOnly(s: set<DiskName>): (c: DiskName)
    requires |s| == 1
    ensures s == {c}
  {
    var c :| c in s;
    OnlyOne(s, c);
    c
  }

  lemma OnlyOne(s: set<DiskName>, c: DiskName)
    requires |s| == 1 && c in s
    ensures s == {c}
  {
    assert |s - {c}| == 0;
  }

  lemma RemovedChildMap(disks: Disks, children: Children, x: DiskName)
    requires Rooted(disks) && ChildMapOk(disks, children) && x in disks && |ChildrenOf(disks, x)| <= 1
    ensures ChildMapOk(WithoutNode(disks, x), RemovalChildren(disks, children, x))
  {
    hide ChildMapOk;
    var kids := ChildrenOf(disks, x);
    if kids != {} {
      assert kids == {TheOnly(kids)};
    }
    RemovalChildMap(disks, children, x, kids);
  }

  lemma RemovedHeadLeaf(disks: Disks, head: DiskName, x: DiskName)
    requires Rooted(disks) && x in disks && head in disks && x != head && ChildrenOf(disks, head) == {}
    ensures ChildrenOf(WithoutNode(disks, x), head) == {}
  {
    assert x in ChildrenOf(disks, disks[x].parent);
  }

  /** A leaf other than the head is not in the live chain. */
  lemma NotInChain(disks: Disks, children: Children, head: DiskName, base: seq<DiskName>, active: seq<DiskName>,
                   x: DiskName)
    requires TreeOk(disks, children, head, base, active) && x in disks && x != head && ChildrenOf(disks, x) == {}
    ensures forall i | 1 <= i < |active| :: active[i] != x
  {
    forall i | 1 <= i < |active| && active[i] == x ensures false {
      if i < 1 + |base| {
        BaseEntry(base, active, i);
      } else {
        var p := active[1 + |base|..];
        assert p[i - 1 - |base|] == x;
        LeafIsLast(disks, head, p, x);
      }
    }
  }

  lemma LeafRemoval(disks: Disks, x: DiskName)
    requires x in disks && ChildrenOf(disks, x) == {}
    ensures WithoutNode(disks, x) == disks - {x}
    ensures forall n | n in disks && n != x :: WithoutNode(disks, x)[n].parent == disks[n].parent
  {
    forall n | n in disks && n != x ensures WithoutNode(disks, x)[n] == disks[n] {
      assert n in ChildrenOf(disks, disks[n].parent);
    }
  }

  lemma ChildRemoval(disks: Disks, x: DiskName, c: DiskName)
    requires x in disks && ChildrenOf(disks, x) == {c} && Rooted(disks)
    ensures c != x && WithoutNode(disks, x) == disks[c := Disk(disks[x].parent, disks[c].removed)] - {x}
  {
    var p :| IsPath(disks, x, p);
    PathNotSelf(disks, x, p);
    assert c in ChildrenOf(disks, x);
    forall n | n in disks && n != x ensures disks[n].parent == x <==> n == c {
      assert n in ChildrenOf(disks, x) <==> disks[n].parent == x;
    }
  }

  /** The search does not see a rewrite that the next layer shadows. */
  lemma ShadowedSearch(files: seq<Layer>, i: nat, layer: Layer, s: nat)
    requires 1 <= i < |files| - 1 && Shadowed(files[i], layer, files[i + 1])
    ensures Search(files[i := layer], s) == Search(files, s)
  {
    var r := Search(files, s);
    SearchFinds(files, s, r);
    SearchFinds(files[i := layer], s, r);
  }

  /** The only child of a disk in the live chain is the next one in the chain. */
  lemma ChainNext(disks: Disks, children: Children, head: DiskName, base: seq<DiskName>, active: seq<DiskName>,
                  x: DiskName, c: DiskName, index: nat)
    requires TreeOk(disks, children, head, base, active) && x in disks && x != head && ChildrenOf(disks, x) == {c}
    requires 1 <= index < |active| && active[index] == x
    ensures 1 + |base| <= index < |active| - 1 && active[index + 1] == c
  {
    var p := active[1 + |base|..];
    if index < 1 + |base| { BaseEntry(base, active, index); }
    var i := index - 1 - |base|;
    assert p[i] == x && p[|p| - 1] == head;
    NextIsChild(disks, head, p, i);
  }

  /** A disk outside the live chain has its child outside it too. */
  lemma ChainNotNext(disks: Disks, children: Children, head: DiskName, base: seq<DiskName>, active: seq<DiskName>,
                     x: DiskName, c: DiskName)
    requires TreeOk(disks, children, head, base, active) && x in disks && c in ChildrenOf(disks, x)
    requires forall i | 1 <= i < |active| :: active[i] != x
    ensures forall i | 1 <= i < |active| :: active[i] != c
  {
    forall i | 1 <= i < |active| ensures active[i] != c {
      if i < 1 + |base| {
        BaseEntry(base, active, i);
      } else {
        var p := active[1 + |base|..];
        assert p[i - 1 - |base|] == active[i] && (i > 1 + |base| ==> p[i - 2 - |base|] == active[i - 1]);
        PathLinks(disks, head, p, i - 1 - |base|);
      }
    }
  }

  /** Images kept by rewriting or replacing the file of `x`, for all disks at once. */
  ghost predicate OthersKept(disks: Disks, store: Store, disks': Disks, store': Store, base: seq<DiskName>,
                             x: DiskName) {
    forall n | n in disks && n != x :: n in disks' && KeepsImage(disks, store, disks', store', base, n, n)
  }

  lemma ShadowedOthers(disks: Disks, store: Store, base: seq<DiskName>, x: DiskName, x': Layer, c: DiskName)
    requires Rooted(disks) && (forall n | n in disks :: n in store) && Stored(store, base)
    requires (forall b | b in base :: b !in disks)
    requires x in disks && ChildrenOf(disks, x) == {c} && Shadowed(store[x], x', store[ChildIn(disks, x, c)])
    ensures OthersKept(disks, store, disks, store[x := x'], base, x)
  {
    hide KeepsImage;
    forall n | n in disks && n != x ensures KeepsImage(disks, store, disks, store[x := x'], base, n, n) {
      var p :| IsPath(disks, n, p);
      PathInDisks(disks, n, p);
      ShadowedKeepsImages(disks, store, base, x, x', c, n, p);
    }
  }

  lemma ReplaceOthers(disks: Disks, store: Store, base: seq<DiskName>, x: DiskName, c: DiskName)
    requires Rooted(disks) && (forall n | n in disks :: n in store) && Stored(store, base)
    requires (forall b | b in base :: b !in disks)
    requires x in disks && ChildrenOf(disks, x) == {c} && Folded(store[x], store[ChildIn(disks, x, c)])
    ensures OthersKept(disks, store, WithoutNode(disks, x), (store - {x})[c := store[x]], base, x)
  {
    hide KeepsImage;
    forall n | n in disks && n != x
      ensures KeepsImage(disks, store, WithoutNode(disks, x), (store - {x})[c := store[x]], base, n, n)
    {
      var p :| IsPath(disks, n, p);
      PathInDisks(disks, n, p);
      ReplaceKeepsImages(disks, store, base, x, c, n, p);
    }
  }

  /** The child, known to be a disk. */
  ghost function ChildIn(disks: Disks, x: DiskName, c: DiskName): (r: DiskName)
    requires c in ChildrenOf(disks, x)
    ensures r == c && r in disks
  {
    c
  }

  lemma LeafOthers(disks: Disks, store: Store, base: seq<DiskName>, x: DiskName)
    requires Rooted(disks) && (forall n | n in disks :: n in store) && Stored(store, base)
    requires (forall b | b in base :: b !in disks)
    requires x in disks && ChildrenOf(disks, x) == {}
    ensures OthersKept(disks, store, WithoutNode(disks, x), store - {x}, base, x)
  {
    hide KeepsImage;
    LeafRemoval(disks, x);
    forall n | n in disks && n != x ensures KeepsImage(disks, store, WithoutNode(disks, x), store - {x}, base, n, n) {
      var p :| IsPath(disks, n, p);
      PathInDisks(disks, n, p);
      if x in p { LeafIsLast(disks, n, p, x); }
      PathFrame(disks, WithoutNode(disks, x), n, p);
      KeepsUntouched(disks, store, WithoutNode(disks, x), store - {x}, base, n, p);
    }
  }

  /** The files after a replace: the chain without `x`, the folded file in the child's place. */
  lemma ReplaceFiles(disks: Disks, children: Children, head: DiskName, base: seq<DiskName>, active: seq<DiskName>,
                     store: Store,
                     files: seq<Layer>, x: DiskName, c: DiskName, index: nat)
    requires TreeOk(disks, children, head, base, active) && FilesOk(disks, base, active, store, files)
    requires x in disks && x != head && ChildrenOf(disks, x) == {c}
    requires index < |active| && (index > 0 ==> active[index] == x)
    requires index == 0 ==> forall i | 1 <= i < |active| :: active[i] != x
    ensures c in disks && c != x
    ensures index > 0 ==> 1 + |base| <= index < |active| - 1 && active[index + 1] == c
    ensures index == 0 ==> forall i | 1 <= i < |active| :: active[i] != c
    ensures FilesOk(WithoutNode(disks, x), base, if index == 0 then active else RemoveAt(active, index),
                    store[c := store[x]] - {x},
                    if index == 0 then files else RemoveAt(files, index)[index := files[index]])
  {
    hide ChildMapOk, IsPath, ValidLayer;
    assert c in ChildrenOf(disks, x);
    ChildRemoval(disks, x, c);
    if index == 0 {
      ChainNotNext(disks, children, head, base, active, x, c);
    } else {
      ChainNext(disks, children, head, base, active, x, c, index);
      forall j | 1 <= j < |active| ensures (active[j] == x <==> j == index) && (active[j] == c <==> j == index + 1) {
        if active[j] == x { ActiveIndex(disks, children, head, base, active, index, j); }
        if active[j] == c { ActiveIndex(disks, children, head, base, active, index + 1, j); }
      }
      ReplacedFiles(active, store, files, x, c, index);
    }
  }

  lemma ReplacedFiles(active: seq<DiskName>, store: Store, files: seq<Layer>, x: DiskName, c: DiskName, index: nat)
    requires 1 <= index < |active| - 1 && |files| == |active| && x in store
    requires forall j | 1 <= j < |active| :: (active[j] == x <==> j == index) && (active[j] == c <==> j == index + 1)
    requires forall i | 1 <= i < |active| :: active[i] in store && files[i] == store[active[i]]
    ensures var active', store', files' :=
            RemoveAt(active, index), store[c := store[x]] - {x}, RemoveAt(files, index)[index := files[index]];
            forall i | 1 <= i < |active'| :: active'[i] in store' && files'[i] == store'[active'[i]]
  {
    var active', store', files' :=
        RemoveAt(active, index), store[c := store[x]] - {x}, RemoveAt(files, index)[index := files[index]];
    assert active[index + 1] == c && active[index] == x;
    forall i | 1 <= i < |active'| ensures active'[i] in store' && files'[i] == store'[active'[i]] {
      var j := if i < index then i else i + 1;
      assert active'[i] == active[j] && active[j] != x;
    }
  }

  /** The files after a plain removal: the chain and the opened files lose the entry of `x`. */
  lemma RemovedFiles(disks: Disks, children: Children, head: DiskName, base: seq<DiskName>, active: seq<DiskName>,
                     store: Store, files: seq<Layer>, x: DiskName, index: nat)
    requires TreeOk(disks, children, head, base, active) && FilesOk(disks, base, active, store, files)
    requires x in disks && x != head && index < |active| && (index > 0 ==> active[index] == x)
    requires index == 0 ==> forall i | 1 <= i < |active| :: active[i] != x
    ensures FilesOk(WithoutNode(disks, x), base, if index == 0 then active else RemoveAt(active, index),
                    store - {x}, if index == 0 then files else RemoveAt(files, index))
  {
    hide ChildMapOk, IsPath, ValidLayer;
    if index > 0 {
      if index < 1 + |base| { BaseEntry(base, active, index); }
      var active', store', files' := RemoveAt(active, index), store - {x}, RemoveAt(files, index);
      forall i | 1 <= i < |active'| ensures active'[i] in store' && files'[i] == store'[active'[i]] {
        var j := if i < index then i else i + 1;
        if active[j] == x { ActiveIndex(disks, children, head, base, active, index, j); }
      }
    }
  }

  /** Disks that do not hang on `x` keep their images. */
  ghost predicate OutsideKept(disks: Disks, store: Store, disks': Disks, store': Store, base: seq<DiskName>,
                              x: DiskName) {
    forall n, p | IsPath(disks, n, p) && x !in p :: n in disks' && KeepsImage(disks, store, disks', store', base, n, n)
  }

  lemma RemovalOutside(disks: Disks, store: Store, base: seq<DiskName>, x: DiskName)
    requires x in disks && x != NoDisk && (forall n | n in disks :: n in store) && Stored(store, base) && x !in base
    ensures OutsideKept(disks, store, WithoutNode(disks, x), store - {x}, base, x)
  {
    hide KeepsImage;
    forall n, p | IsPath(disks, n, p) && x !in p
      ensures n in WithoutNode(disks, x) && KeepsImage(disks, store, WithoutNode(disks, x), store - {x}, base, n, n)
    {
      PathInDisks(disks, n, p);
      assert n in p;
      RemovalPaths(disks, x, n, p);
      DropNothing(p, x);
      KeepsUntouched(disks, store, WithoutNode(disks, x), store - {x}, base, n, p);
    }
  }

  lemma ReplaceCache(files: seq<Layer>, loc: seq<nat>, loc': seq<nat>, holes: set<nat>, i: nat)
    requires 3 <= |files| && 1 <= i < |files| - 1 && CacheOk(loc, files, holes)
    requires files[i + 1].data.Keys <= files[i].data.Keys
    requires |loc| == |loc'| && forall s: nat | s < |loc| :: loc'[s] == Shift(loc[s], i)
    ensures CacheOk(loc', RemoveAt(files, i)[i := files[i]], holes)
  {
    forall s: nat | s < |loc| && s !in holes
      ensures loc'[s] == 0 || loc'[s] == Search(RemoveAt(files, i)[i := files[i]], s)
    {
      ReplaceKeepsCache(files, i, s, loc[s]);
    }
  }

  /** Everything a replace does, on values. */
  lemma ReplaceStep(disks: Disks, children: Children, head: DiskName, base: seq<DiskName>, active: seq<DiskName>,
                    store: Store, files: seq<Layer>, loc: seq<nat>, loc': seq<nat>, holes: set<nat>,
                    x: DiskName, c: DiskName, index: nat)
    requires TreeOk(disks, children, head, base, active) && FilesOk(disks, base, active, store, files)
    requires 2 <= |files| && CacheOk(loc, files, holes)
    requires x in disks && x != head && c != head && ChildrenOf(disks, x) == {c} && c in store
    requires Folded(store[x], store[c])
    requires index < |active| && (index > 0 ==> active[index] == x)
    requires index == 0 ==> forall i | 1 <= i < |active| :: active[i] != x
    requires index > 0 ==> |loc| == |loc'| && forall s: nat | s < |loc| :: loc'[s] == Shift(loc[s], index)
    ensures var store' := (store - {x})[c := store[x]];
            && store' == store[c := store[x]] - {x}
            && OthersKept(disks, store, WithoutNode(disks, x), store', base, x)
            && FilesOk(WithoutNode(disks, x), base, if index == 0 then active else RemoveAt(active, index), store',
                       if index == 0 then files else RemoveAt(files, index)[index := store[x]])
    ensures index > 0 ==>
              && 1 + |base| <= index < |active| - 2 && active[index + 1] == c
              && CacheOk(loc', RemoveAt(files, index)[index := store[x]], holes)
    ensures index == 0 ==> forall i | 1 <= i < |active| :: active[i] != c
  {
    hide OthersKept, IsPath, ChildMapOk;
    assert c in ChildrenOf(disks, x);
    ReplaceOthers(disks, store, base, x, c);
    ReplaceFiles(disks, children, head, base, active, store, files, x, c, index);
    if index > 0 {
      ReplaceCache(files, loc, loc', holes, index);
      HeadIsLast(disks, children, head, base, active);
    }
  }

  lemma HeadIsLast(disks: Disks, children: Children, head: DiskName, base: seq<DiskName>, active: seq<DiskName>)
    requires TreeOk(disks, children, head, base, active)
    ensures active[|active| - 1] == head
  {
    var p := active[1 + |base|..];
    assert p[|p| - 1] == head;
  }

  /** Rewriting one file of the live chain rewrites exactly the opened file at its index. */
  lemma FileRewritten(disks: Disks, children: Children, head: DiskName, base: seq<DiskName>, active: seq<DiskName>,
                      store: Store, files: seq<Layer>, index: nat, layer: Layer)
    requires TreeOk(disks, children, head, base, active) && FilesOk(disks, base, active, store, files)
    requires 1 + |base| <= index < |active| && ValidLayer(layer)
    ensures FilesOk(disks, base, active, store[active[index] := layer], files[index := layer])
  {
    forall i | 1 <= i < |active| && active[i] == active[index] ensures i == index {
      ActiveIndex(disks, children, head, base, active, index, i);
    }
  }

  lemma AllReflexive(disks: Disks, base: seq<DiskName>, active: seq<DiskName>, store: Store, files: seq<Layer>,
                     head: DiskName)
    requires Rooted(disks) && FilesOk(disks, base, active, store, files)
    ensures LiveKept(disks, store, disks, store, base, head)
  {
    hide KeepsImage;
    forall n | n in disks ensures KeepsImage(disks, store, disks, store, base, n, n) {
      KeepsReflexive(disks, store, base, n);
    }
  }

  lemma NamedDisk(disks: Disks, children: Children, head: DiskName, base: seq<DiskName>, active: seq<DiskName>,
                  x: DiskName)
    requires TreeOk(disks, children, head, base, active) && x in disks
    ensures x != NoDisk && x !in base
  {
  }

  /** A plain removal: the disk and its file are gone.  The disks that do not hang on it keep their images,
      which for a leaf are all the others. */
  ghost predicate Removed(disks: Disks, store: Store, disks': Disks, store': Store, base: seq<DiskName>, x: DiskName)
    requires x in disks
  {
    && disks' == WithoutNode(disks, x) && store' == store - {x}
    && OutsideKept(disks, store, disks', store', base, x)
    && (ChildrenOf(disks, x) == {} ==> OthersKept(disks, store, disks', store', base, x))
  }

  lemma RemovedTree(disks: Disks, store: Store, disks': Disks, store': Store, base: seq<DiskName>, x: DiskName)
    requires x in disks && Removed(disks, store, disks', store', base, x)
    ensures disks' == WithoutNode(disks, x) && store' == store - {x}
  {
  }

  /** A plain removal on values: files and images. */
  lemma RemoveStep(disks: Disks, children: Children, head: DiskName, base: seq<DiskName>, active: seq<DiskName>,
                   store: Store, files: seq<Layer>, x: DiskName, index: nat)
    requires TreeOk(disks, children, head, base, active) && FilesOk(disks, base, active, store, files)
    requires x in disks && x != head && index < |active| && (index > 0 ==> active[index] == x)
    requires index == 0 ==> forall i | 1 <= i < |active| :: active[i] != x
    ensures FilesOk(WithoutNode(disks, x), base, if index == 0 then active else RemoveAt(active, index),
                    store - {x}, if index == 0 then files else RemoveAt(files, index))
    ensures Removed(disks, store, WithoutNode(disks, x), store - {x}, base, x)
  {
    NamedDisk(disks, children, head, base, active, x);
    FilesStored(disks, base, active, store, files);
    hide OthersKept, OutsideKept, IsPath, ChildMapOk, WithoutNode, ValidLayer, Rooted;
    RemovedFiles(disks, children, head, base, active, store, files, x, index);
    RemovalOutside(disks, store, base, x);
    if ChildrenOf(disks, x) == {} {
      LeafOthers(disks, store, base, x);
    }
  }

  lemma StoreUnmapped(store: Store, store': Store, active: seq<DiskName>, from: nat, files: seq<Layer>,
                      files': seq<Layer>,
                      off: nat, len: nat)
    requires 1 <= from <= |active| == |files| == |files'| && store'.Keys == store.Keys
    requires forall i | 1 <= i < |active| ::
               active[i] in store && files[i] == store[active[i]] && files'[i] == store'[active[i]]
    requires forall i | from <= i < |active| :: files'[i] == Punch(files[i], off, len)
    requires forall n | n in store && n !in Treated(active, from) :: store'[n] == store[n]
    ensures store' == Unmapped(store, active, from, off, len)
  {
    hide Punch;
    forall n | n in store && n in Treated(active, from) ensures store'[n] == Punch(store[n], off, len) {
      var i :| from <= i < |active| && active[i] == n;
      assert files'[i] == store'[active[i]];
    }
  }

  /** The files of the chain before position `i` are the opened ones, and those before `from` are untouched. */
  ghost predicate PartSynced(store: Store, store': Store, active: seq<DiskName>, files: seq<Layer>, from: int, i: int) {
    && store'.Keys == store.Keys && |files| == |active|
    && (forall n | n in store' :: ValidLayer(store'[n]))
    && (forall j | 1 <= j < i && j < |active| :: active[j] in store' && files[j] == store'[active[j]])
    && (forall n | n in store && n !in Treated(active, from) :: store'[n] == store[n])
  }

  lemma SyncStep(store: Store, store': Store, active: seq<DiskName>, files: seq<Layer>, from: int, i: nat)
    requires PartSynced(store, store', active, files, from, i) && from <= i < |active| && 1 <= i
    requires ValidLayer(files[i]) && active[i] in store
    requires forall j | 1 <= j < |active| && active[j] == active[i] :: j == i
    ensures PartSynced(store, store'[active[i] := files[i]], active, files, from, i + 1)
  {
    hide ValidLayer;
    assert active[i] in Treated(active, from);
  }

  lemma SameStore(store: Store, store': Store, active: seq<DiskName>, from: nat, files: seq<Layer>)
    requires 1 <= from <= |active| == |files| && store'.Keys == store.Keys
    requires forall i | 1 <= i < |active| :: active[i] in store && files[i] == store[active[i]] == store'[active[i]]
    requires forall n | n in store && n !in Treated(active, from) :: store'[n] == store[n]
    ensures store' == store
  {
    forall n | n in store && n in Treated(active, from) ensures store'[n] == store[n] {
      var i :| from <= i < |active| && active[i] == n;
      assert files[i] == store'[active[i]];
    }
  }

  lemma ChainIsFiles(base: seq<DiskName>, p: seq<DiskName>, active: seq<DiskName>, store: Store, files: seq<Layer>)
    requires 1 + |base| < |active| == |files| && active[1..1 + |base|] == base && p == active[1 + |base|..]
    requires forall i | 1 <= i < |active| :: active[i] in store && files[i] == store[active[i]]
    ensures Stored(store, base + p) && LayersOf(store, base + p) == files[1..]
  {
    var chain := base + p;
    assert chain == active[1..];
    forall i | 0 <= i < |chain| ensures chain[i] in store && files[1..][i] == store[chain[i]] {
      assert chain[i] == active[i + 1];
    }
  }

  lemma DeviceSizes(base: seq<DiskName>, active: seq<DiskName>, store: Store, files: seq<Layer>)
    requires |active| == |files| && forall i | 1 <= i < |active| :: active[i] in store && files[i] == store[active[i]]
    requires forall n | n in store :: store[n].size % 4096 == 0
    ensures forall i | 1 <= i < |files| :: files[i].size % 4096 == 0
  {
  }

  /** No file holds data beyond the volume. */
  ghost predicate StoreWithin(store: Store, size: nat) {
    forall n | n in store :: LayerWithin(store[n], size)
  }

  lemma FilesWithin(disks: Disks, base: seq<DiskName>, active: seq<DiskName>, store: Store, files: seq<Layer>,
                    size: nat)
    requires FilesOk(disks, base, active, store, files) && StoreWithin(store, size)
    ensures DataWithin(files, size)
  {
    hide LayerWithin;
  }

  /** A snapshot adds no data, so nothing lies beyond the volume that it is about to grow from. */
  lemma SnapshotWithin(disks: Disks, base: seq<DiskName>, active: seq<DiskName>, store: Store, files: seq<Layer>,
                       head: DiskName, snap: DiskName, newHead: DiskName, size: nat, newSize: nat)
    requires FilesOk(disks, base, active, store, files) && head in store && size <= newSize
    ensures StoreWithin(store, size) ==>
              && StoreWithin(SnapshotStore(store, head, snap, newHead, newSize), newSize)
              && DataWithin(files + [Layer(newSize, map[])], size)
  {
    if StoreWithin(store, size) {
      FilesWithin(disks, base, active, store, files, size);
    }
  }

  lemma HeadFile(disks: Disks, base: seq<DiskName>, active: seq<DiskName>, store: Store, files: seq<Layer>)
    requires FilesOk(disks, base, active, store, files) && 2 <= |active|
    ensures active[|active| - 1] in store && store[active[|active| - 1]] == files[|files| - 1]
  {
  }

  lemma WroteWithin(files: seq<Layer>, files': seq<Layer>, store: Store, head: DiskName, off: nat, len: nat, size: nat)
    requires HeadWithin(files, files', off, len) && off + len <= size && size % 4096 == 0
    requires head in store && store[head] == files[|files| - 1] && StoreWithin(store, size)
    ensures StoreWithin(store[head := files'[|files| - 1]], size)
  {
    assert LayerWithin(store[head], size);
    forall s | s in files'[|files| - 1].data ensures s * 4096 < size {
      if s !in files[|files| - 1].data { assert Touches(off, len, s); }
    }
  }

  /** The head's file is untouched, and no file gains data beyond the volume. */
  ghost predicate TopKept(store: Store, store': Store, head: DiskName, size: nat) {
    && head in store && head in store' && store'[head] == store[head]
    && (StoreWithin(store, size) ==> StoreWithin(store', size))
  }

  lemma TopSame(store: Store, head: DiskName, size: nat)
    requires head in store
    ensures TopKept(store, store, head, size)
  {
  }

  lemma TopTransitive(a: Store, b: Store, c: Store, head: DiskName, size: nat)
    requires TopKept(a, b, head, size) && TopKept(b, c, head, size)
    ensures TopKept(a, c, head, size)
  {
    hide StoreWithin;
  }

  /** Removing, pruning and folding a disk keep them. */
  lemma RemovalsKeepTop(store: Store, x: DiskName, c: DiskName, head: DiskName, size: nat)
    requires x in store && head in store && x != head
    ensures TopKept(store, store - {x}, head, size)
    ensures c in store ==> TopKept(store, store[x := Prune(store[x], store[c])], head, size)
    ensures c in store && c != head ==>
              var f := Fold(store[c], store[x]);
              TopKept(store, (store[x := f] - {x})[c := f], head, size)
  {
    if StoreWithin(store, size) && c in store {
      assert LayerWithin(store[x], size) && LayerWithin(store[c], size);
      assert LayerWithin(Fold(store[c], store[x]), size) && LayerWithin(Prune(store[x], store[c]), size);
    }
  }

  lemma UnmappedWithin(store: Store, active: seq<DiskName>, from: int, off: nat, len: nat, size: nat)
    requires StoreWithin(store, size)
    ensures StoreWithin(Unmapped(store, active, from, off, len), size)
  {
    var store' := Unmapped(store, active, from, off, len);
    forall n | n in store' ensures LayerWithin(store'[n], size) {
      assert LayerWithin(store[n], size);
    }
  }

  lemma WroteHead(files: seq<Layer>, files': seq<Layer>, off: nat, len: nat)
    requires HeadWithin(files, files', off, len)
    ensures |files'| == |files| >= 2 && files' == files[|files| - 1 := files'[|files| - 1]]
  {
  }

  lemma FilesStored(disks: Disks, base: seq<DiskName>, active: seq<DiskName>, store: Store, files: seq<Layer>)
    requires FilesOk(disks, base, active, store, files)
    ensures (forall n | n in disks :: n in store) && Stored(store, base) && |files| == |active|
  {
  }

  /** What a purge plans for a disk: remove a leaf; fold a disk with one child into it; prune a disk
      right under the head; nothing for a disk with several children. */
  predicate Planned(disks: Disks, head: DiskName, name: DiskName, actions: seq<Action>) {
    var kids := ChildrenOf(disks, name);
    if kids == {} then actions == [OpRemove(name)]
    else if |kids| > 1 then actions == []
    else if kids == {head} then actions == [OpPrune(name, head)]
    else |actions| == 2 && actions[0].OpCoalesce? && kids == {actions[0].target}
         && actions == [OpCoalesce(name, actions[0].target), OpReplace(name, actions[0].target)]
  }

  lemma OthersTransitive(d0: Disks, s0: Store, s1: Store, d2: Disks, s2: Store, base: seq<DiskName>, x: DiskName)
    requires Rooted(d0)
    requires OthersKept(d0, s0, d0, s1, base, x) && OthersKept(d0, s1, d2, s2, base, x)
    ensures OthersKept(d0, s0, d2, s2, base, x)
  {
    hide KeepsImage;
    forall n | n in d0 && n != x ensures n in d2 && KeepsImage(d0, s0, d2, s2, base, n, n) {
      KeepsTransitive(d0, s0, d0, s1, d2, s2, base, n);
    }
  }

  lemma OthersReflexive(disks: Disks, store: Store, base: seq<DiskName>, x: DiskName)
    requires Rooted(disks) && (forall m | m in disks :: m in store) && Stored(store, base)
    ensures OthersKept(disks, store, disks, store, base, x)
  {
    hide KeepsImage;
    forall n | n in disks && n != x ensures KeepsImage(disks, store, disks, store, base, n, n) {
      KeepsReflexive(disks, store, base, n);
    }
  }

  lemma RewritesValid(x: Layer, c: Layer)
    requires ValidLayer(x) && ValidLayer(c)
    ensures ValidLayer(Fold(c, x)) && ValidLayer(Prune(x, c))
  {
  }

  /** Marking changes no parent. */
  lemma MarkTreeOk(disks: Disks, children: Children, head: DiskName, base: seq<DiskName>, active: seq<DiskName>,
                   x: DiskName)
    requires TreeOk(disks, children, head, base, active) && x in disks
    ensures TreeOk(disks[x := Disk(disks[x].parent, true)], children, head, base, active)
  {
    var disks' := disks[x := Disk(disks[x].parent, true)];
    forall n | n in disks' ensures exists p :: IsPath(disks', n, p) {
      var p :| IsPath(disks, n, p);
      PathInDisks(disks, n, p);
      PathFrame(disks, disks', n, p);
    }
    PathInDisks(disks, head, active[1 + |base|..]);
    PathFrame(disks, disks', head, active[1 + |base|..]);
    forall p: DiskName ensures ChildrenOf(disks', p) == ChildrenOf(disks, p) {
    }
  }

  /** The head and the disks that are not marked removed survive with their image. */
  ghost predicate LiveKept(disks: Disks, store: Store, disks': Disks, store': Store, base: seq<DiskName>,
                           head: DiskName) {
    forall n | n in disks && (n == head || !disks[n].removed) ::
      n in disks' && disks'[n].removed == disks[n].removed && KeepsImage(disks, store, disks', store', base, n, n)
  }

  lemma LiveStep(d0: Disks, s0: Store, d1: Disks, s1: Store, d2: Disks, s2: Store, base: seq<DiskName>, head: DiskName,
                 x: DiskName)
    requires Rooted(d1) && LiveKept(d0, s0, d1, s1, base, head) && OthersKept(d1, s1, d2, s2, base, x)
    requires x != head && (x in d1 ==> d1[x].removed)
    requires forall n | n in d2 :: n in d1 && d2[n].removed == d1[n].removed
    ensures LiveKept(d0, s0, d2, s2, base, head)
  {
    hide KeepsImage;
    forall n | n in d0 && (n == head || !d0[n].removed)
      ensures n in d2 && d2[n].removed == d0[n].removed && KeepsImage(d0, s0, d2, s2, base, n, n)
    {
      KeepsTransitive(d0, s0, d1, s1, d2, s2, base, n);
    }
  }

  /** A disk that a purge refuses: the head, or one that is not marked removed. */
  predicate Refused(disks: Disks, head: DiskName, name: DiskName) {
    name == head || (name in disks && !disks[name].removed)
  }

  /** A disk whose removal takes it out of the tree: at most one child, and that is not the head. */
  predicate Leaves(disks: Disks, head: DiskName, name: DiskName) {
    name in disks && |ChildrenOf(disks, name)| <= 1 && ChildrenOf(disks, name) != {head}
  }

  /** The tree a purge of `names` leaves, up to the first one it refuses. */
  function PurgeTree(disks: Disks, head: DiskName, names: seq<DiskName>): Disks {
    if names == [] || Refused(disks, head, names[0]) then disks
    else PurgeTree(if Leaves(disks, head, names[0]) then WithoutNode(disks, names[0]) else disks, head, names[1..])
  }

  /** A write to sectors that are not unmapped turns the stack into exactly `WriteTop` of it. */
  lemma WroteIsWriteTop(loc: seq<nat>, files: seq<Layer>, loc': seq<nat>, files': seq<Layer>, holes: set<nat>,
                        holes': set<nat>,
                        size: nat, off: nat, buf: seq<byte>)
    requires 2 <= |files| == |files'| && |loc| == |loc'| && size == |loc| * 4096 && off + |buf| <= size
    requires CacheOk(loc, files, holes) && CacheOk(loc', files', holes') && holes !! Touched(off, |buf|)
    requires Wrote(files, files', ShownImage(loc, files, size), ShownImage(loc', files', size), holes, holes', off, buf)
    ensures files'[1..] == WriteTop(files[1..], off, buf)
  {
    var n := |files| - 1;
    var layers, h, h' := files[1..], files[n], files'[n];
    assert layers[|layers| - 1] == h;
    forall s | s in Touched(off, |buf|) ensures h'.data[s] == Splice(SectorAt(layers, s), s, off, buf) {
      forall k | 0 <= k < 4096 ensures h'.data[s][k] == Splice(SectorAt(layers, s), s, off, buf)[k] {
        WroteByte(loc, files, loc', files', holes, holes', size, off, buf, s, k);
      }
    }
    assert h'.data == h.data + SplicedSectors(layers, off, buf);
    assert h' == WriteLayer(layers, off, buf);
    assert files'[1..] == layers[|layers| - 1 := h'];
  }

  lemma WroteByte(loc: seq<nat>, files: seq<Layer>, loc': seq<nat>, files': seq<Layer>, holes: set<nat>,
                  holes': set<nat>,
                  size: nat, off: nat, buf: seq<byte>, s: nat, k: nat)
    requires 2 <= |files| == |files'| && |loc| == |loc'| && size == |loc| * 4096 && off + |buf| <= size
    requires CacheOk(loc, files, holes) && CacheOk(loc', files', holes') && holes !! Touched(off, |buf|)
    requires Wrote(files, files', ShownImage(loc, files, size), ShownImage(loc', files', size), holes, holes', off, buf)
    requires s in Touched(off, |buf|) && k < 4096
    ensures files'[|files| - 1].data[s][k] == Splice(SectorAt(files[1..], s), s, off, buf)[k]
  {
    hide Spliced, SectorAt;
    var pos, v := s * 4096 + k, ShownImage(loc, files, size);
    assert pos / 4096 == s && pos % 4096 == k && s < |loc|;
    assert Shown(loc', files', pos) == files'[|files| - 1].data[s][k] by {
      SearchFinds(files', s, |files| - 1);
    }
    ShownIsImage(loc, files, holes, pos);
    SplicedAt(v, off, buf, pos);
  }

  /** Rewriting the file of the childless head changes no other image. */
  lemma HeadOthers(disks: Disks, store: Store, base: seq<DiskName>, head: DiskName, layer: Layer)
    requires Rooted(disks) && (forall n | n in disks :: n in store) && Stored(store, base)
    requires (forall b | b in base :: b !in disks)
    requires head in disks && ChildrenOf(disks, head) == {}
    ensures OthersKept(disks, store, disks, store[head := layer], base, head)
  {
    hide KeepsImage;
    forall n | n in disks && n != head ensures KeepsImage(disks, store, disks, store[head := layer], base, n, n) {
      var p :| IsPath(disks, n, p);
      PathInDisks(disks, n, p);
      if head in p { LeafIsLast(disks, n, p, head); }
      KeepsUntouched(disks, store, disks, store[head := layer], base, n, p);
    }
  }

  /** Decimal digits of a number. */
  function Decimal(n: nat): string {
    if n < 10 then ["0123456789"[n]] else Decimal(n / 10) + ["0123456789"[n % 10]]
  }

  function ExpansionSnapshot(size: nat): DiskName {
    Snapshot("expand-" + Decimal(size))
  }

  /** Scanning down from the head, a disk is reached when it and all disks above it have one child. */
  ghost predicate Scanned(disks: Disks, active: seq<DiskName>, i: nat) {
    i < |active| - 1 && forall m | i <= m < |active| - 1 :: |ChildrenOf(disks, active[m])| <= 1
  }

  /** The reached disks that are marked removed lie directly under the head, without a gap. */
  ghost predicate UnbrokenRun(disks: Disks, active: seq<DiskName>, first: nat) {
    forall i, j |
      first <= i < j < |active| - 1 && Scanned(disks, active, i) && active[i] in disks && active[j] in disks ::
      disks[active[i]].removed ==> disks[active[j]].removed
  }

  /** Whether each disk that the scan reaches, from position `i` of the chain down, counts as removed. */
  function ScanFlags(disks: Disks, active: seq<DiskName>, first: nat, i: int, mark: bool): (flags: seq<bool>)
    requires i < |active|
    ensures |flags| <= if i < first then 0 else i - first + 1
    decreases i
  {
    if i < first || active[i] !in disks || |ChildrenOf(disks, active[i])| > 1 then []
    else [mark || disks[active[i]].removed] + ScanFlags(disks, active, first, i - 1, mark)
  }

  /** The number of flags that are set. */
  function CountSet(flags: seq<bool>): (n: nat)
    ensures n <= |flags|
  {
    if flags == [] then 0 else CountSet(flags[..|flags| - 1]) + if flags[|flags| - 1] then 1 else 0
  }

  /** Only removed disks are unmapped if and only if the removed ones form an unbroken run. */
  lemma {:induction false} CountedAreRemovedIff(flags: seq<bool>)
    ensures (forall i | 0 <= i < CountSet(flags) :: flags[i])
       <==> (forall i, j | 0 <= i < j < |flags| :: flags[j] ==> flags[i])
    ensures (forall i | 0 <= i < |flags| :: flags[i]) <==> CountSet(flags) == |flags|
  {
    if flags != [] {
      var init, last := flags[..|flags| - 1], flags[|flags| - 1];
      CountedAreRemovedIff(init);
      assert forall i | 0 <= i < |init| :: init[i] == flags[i];
      if last && !(forall i | 0 <= i < |init| :: flags[i]) {
        var i :| 0 <= i < |init| && !flags[i];
        assert !(flags[|init|] ==> flags[i]);
        if forall i | 0 <= i < CountSet(flags) :: flags[i] {
          FlagsBelow(init, CountSet(flags));
        }
      }
    }
  }

  lemma {:induction false} FlagsBelow(flags: seq<bool>, n: nat)
    requires n <= |flags| && forall i | 0 <= i < n :: flags[i]
    ensures n <= CountSet(flags)
  {
    if |flags| > n {
      FlagsBelow(flags[..|flags| - 1], n);
    } else if n > 0 {
      FlagsBelow(flags[..n - 1], n - 1);
    }
  }

  /** What the flags say of the disks of the chain. */
  lemma {:induction false} FlagsMean(disks: Disks, active: seq<DiskName>, first: nat, i: int, mark: bool)
    requires i < |active| && forall j | first <= j <= i :: active[j] in disks
    ensures var flags := ScanFlags(disks, active, first, i, mark);
            && (forall j: nat | i - |flags| < j <= i ::
                  && first <= j && flags[i - j] == (mark || disks[active[j]].removed)
                  && |ChildrenOf(disks, active[j])| <= 1)
            && (i - |flags| >= first ==> |ChildrenOf(disks, active[i - |flags|])| > 1)
    decreases i
  {
    if i >= first && |ChildrenOf(disks, active[i])| <= 1 {
      FlagsMean(disks, active, first, i - 1, mark);
      var rest, flags := ScanFlags(disks, active, first, i - 1, mark), ScanFlags(disks, active, first, i, mark);
      assert flags == [mark || disks[active[i]].removed] + rest;
      assert i - 1 - |rest| == i - |flags|;
    }
  }

  /** How many disks an unmap treats, the head included. */
  function UnmapCount(disks: Disks, active: seq<DiskName>, first: nat, mark: bool): (n: nat)
    requires 1 <= first < |active|
    ensures 1 <= n <= |active| - first
  {
    1 + CountSet(ScanFlags(disks, active, first, |active| - 2, mark))
  }

  ghost predicate AllScanned(disks: Disks, active: seq<DiskName>, from: int) {
    forall i | from <= i < |active| - 1 :: 0 <= i && active[i] in disks && Scanned(disks, active, i)
  }

  ghost predicate AllRemoved(disks: Disks, active: seq<DiskName>, from: int) {
    forall i | from <= i < |active| - 1 :: 0 <= i && active[i] in disks && disks[active[i]].removed
  }

  /** Below the head, an unmap treats only disks marked removed if and only if these form an unbroken run. */
  lemma UnmapsRemovedIff(disks: Disks, active: seq<DiskName>, first: nat)
    requires 1 <= first < |active| && forall j | first <= j < |active| :: active[j] in disks
    ensures AllRemoved(disks, active, |active| - UnmapCount(disks, active, first, false))
            <==> UnbrokenRun(disks, active, first)
  {
    var top := |active| - 2;
    var flags := ScanFlags(disks, active, first, top, false);
    FlagsMean(disks, active, first, top, false);
    CountedAreRemovedIff(flags);
    RunOfFlags(disks, active, first, flags);
    hide ScanFlags, UnbrokenRun;
    var from := |active| - 1 - CountSet(flags);
    if AllRemoved(disks, active, from) {
      forall k | 0 <= k < CountSet(flags) ensures flags[k] {
        var j: nat := top - k;
        assert disks[active[j]].removed && flags[top - j] == disks[active[j]].removed;
      }
    }
    if forall k | 0 <= k < CountSet(flags) :: flags[k] {
      forall j: nat | from <= j < |active| - 1 ensures active[j] in disks && disks[active[j]].removed {
        assert flags[top - j];
      }
    }
  }

  lemma RunOfFlags(disks: Disks, active: seq<DiskName>, first: nat, flags: seq<bool>)
    requires 1 <= first < |active| && forall j | first <= j < |active| :: active[j] in disks
    requires flags == ScanFlags(disks, active, first, |active| - 2, false)
    ensures UnbrokenRun(disks, active, first) <==> forall i, j | 0 <= i < j < |flags| :: flags[j] ==> flags[i]
  {
    var top := |active| - 2;
    FlagsMean(disks, active, first, top, false);
    hide ScanFlags;
    forall i: nat | first <= i < |active| - 1 ensures Scanned(disks, active, i) <==> top - i < |flags| {
      if top - i >= |flags| {
        var m: nat := top - |flags|;
        assert i <= m && |ChildrenOf(disks, active[m])| > 1;
      }
    }
    if forall i, j | 0 <= i < j < |flags| :: flags[j] ==> flags[i] {
      forall i: nat, j: nat | first <= i < j < |active| - 1 && Scanned(disks, active, i) && disks[active[i]].removed
        ensures disks[active[j]].removed
      {
        assert flags[top - i] ==> flags[top - j];
      }
    }
    if UnbrokenRun(disks, active, first) {
      forall i, j | 0 <= i < j < |flags| && flags[j] ensures flags[i] {
        var k: nat, l: nat := top - i, top - j;
        assert flags[top - k] == disks[active[k]].removed && flags[top - l] == disks[active[l]].removed;
        assert Scanned(disks, active, l);
      }
    }
  }

  /** One step of the scan, on the flags seen so far. */
  lemma ScanStep(disks: Disks, active: seq<DiskName>, first: nat, i: nat, mark: bool, seen: seq<bool>, all: seq<bool>)
    requires first <= i < |active| && active[i] in disks && seen + ScanFlags(disks, active, first, i, mark) == all
    ensures |ChildrenOf(disks, active[i])| > 1 ==> seen == all
    ensures |ChildrenOf(disks, active[i])| <= 1 ==>
              var flag := mark || disks[active[i]].removed;
              && seen + [flag] + ScanFlags(disks, active, first, i - 1, mark) == all
              && CountSet(seen + [flag]) == CountSet(seen) + if flag then 1 else 0
  {
    var flag := mark || disks[active[i]].removed;
    assert (seen + [flag])[..|seen|] == seen;
  }

  lemma ScanEnd(disks: Disks, active: seq<DiskName>, first: nat, i: int, mark: bool)
    requires i < first && i < |active|
    ensures ScanFlags(disks, active, first, i, mark) == []
  {
  }

  /** The files after an unmap: those from position `from` of the chain on lose the range. */
  ghost function Unmapped(store: Store, active: seq<DiskName>, from: int, off: nat, len: nat): Store {
    map n | n in store :: if n in Treated(active, from) then Punch(store[n], off, len) else store[n]
  }

  ghost function Treated(active: seq<DiskName>, from: int): set<DiskName> {
    set i | 0 <= i < |active| && from <= i :: active[i]
  }

  ghost predicate StoreFor(disks: Disks, base: seq<DiskName>, store: Store) {
    && (forall n | n in disks :: n in store) && Stored(store, base)
    && (forall n | n in store :: ValidLayer(store[n]) && store[n].size % 4096 == 0)
  }

  /** Whatever the files hold and whatever range is unmapped, the disks that are neither the head nor marked
      removed keep their images. */
  ghost predicate UnmapSafe(disks: Disks, head: DiskName, base: seq<DiskName>, active: seq<DiskName>, from: int) {
    forall store, off: nat, len: nat, n |
      StoreFor(disks, base, store) && n in disks && n != head && !disks[n].removed ::
      KeepsImage(disks, store, disks, Unmapped(store, active, from, off, len), base, n, n)
  }

  /** An unmap is safe for every volume if and only if the removed disks form an unbroken run below the head. */
  lemma UnmapSafeIff(disks: Disks, children: Children, head: DiskName, base: seq<DiskName>, active: seq<DiskName>)
    requires TreeOk(disks, children, head, base, active)
    ensures UnmapSafe(disks, head, base, active, |active| - UnmapCount(disks, active, 1 + |base|, false))
       <==> UnbrokenRun(disks, active, 1 + |base|)
  {
    ChainDisks(disks, children, head, base, active);
    var first := 1 + |base|;
    assert first < |active|;
    hide KeepsImage, UnmapCount, TreeOk, UnmapSafe, Scanned, UnbrokenRun;
    var from := |active| - UnmapCount(disks, active, first, false);
    UnmapsRemovedIff(disks, active, first);
    CountedScanned(disks, active, first);
    if UnbrokenRun(disks, active, first) {
      RunIsSafe(disks, children, head, base, active, from);
    } else {
      var i :| from <= i < |active| - 1 && !disks[active[i]].removed;
      UnmapLoses(disks, children, head, base, active, from, i);
    }
  }

  lemma RunIsSafe(disks: Disks, children: Children, head: DiskName, base: seq<DiskName>, active: seq<DiskName>,
                  from: nat)
    requires TreeOk(disks, children, head, base, active) && 1 + |base| <= from < |active|
    requires AllRemoved(disks, active, from) && forall i | from <= i < |active| - 1 :: Scanned(disks, active, i)
    ensures UnmapSafe(disks, head, base, active, from)
  {
    hide KeepsImage, TreeOk, Scanned;
    forall store, off: nat, len: nat, n | StoreFor(disks, base, store) && n in disks && n != head && !disks[n].removed
      ensures KeepsImage(disks, store, disks, Unmapped(store, active, from, off, len), base, n, n)
    {
      UnmapOthers(disks, disks, children, head, base, active, store, Unmapped(store, active, from, off, len), from, n);
    }
  }

  lemma ChainDisks(disks: Disks, children: Children, head: DiskName, base: seq<DiskName>, active: seq<DiskName>)
    requires TreeOk(disks, children, head, base, active)
    ensures forall j | 1 + |base| <= j < |active| :: active[j] in disks
  {
    forall j | 1 + |base| <= j < |active| ensures active[j] in disks {
      ActiveIndex(disks, children, head, base, active, j, j);
    }
  }

  lemma CountedScanned(disks: Disks, active: seq<DiskName>, first: nat)
    requires 1 <= first < |active| && forall j | first <= j < |active| :: active[j] in disks
    ensures forall i | |active| - UnmapCount(disks, active, first, false) <= i < |active| - 1 ::
              Scanned(disks, active, i)
  {
    var top := |active| - 2;
    FlagsMean(disks, active, first, top, false);
    var flags := ScanFlags(disks, active, first, top, false);
    assert forall m: nat | |active| - 1 - CountSet(flags) <= m < |active| - 1 :: |ChildrenOf(disks, active[m])| <= 1;
  }

  function Ones(): Sector {
    seq(4096, _ => 1)
  }

  /** One sector of ones in the file of `x`, nothing in all the others. */
  ghost function OneSector(disks: Disks, base: seq<DiskName>, x: DiskName): Store {
    (map b | b in base :: Layer(4096, if b == x then map[0 := Ones()] else map[]))
    + (map n | n in disks :: Layer(4096, if n == x then map[0 := Ones()] else map[]))
  }

  /** A disk of the chain that is treated though it is not removed can lose data. */
  lemma UnmapLoses(disks: Disks, children: Children, head: DiskName, base: seq<DiskName>, active: seq<DiskName>,
                   from: int, i: nat)
    requires TreeOk(disks, children, head, base, active) && 1 + |base| <= i < |active| - 1 && from <= i
    requires active[i] in disks && !disks[active[i]].removed
    ensures !UnmapSafe(disks, head, base, active, from)
  {
    var x := active[i];
    var p := ChainPath(disks, children, head, base, active, i);
    var store := OneSector(disks, base, x);
    var store' := Unmapped(store, active, from, 0, 4096);
    PathInDisks(disks, x, p);
    assert p[|p| - 1] == x && x in Treated(active, from);
    hide TreeOk, IsPath;
    OneSectorLost(disks, base, x, active, from, p);
    assert Stored(store, base + p) && !SameImage(LayersOf(store, base + p), LayersOf(store', base + p));
    assert !KeepsImage(disks, store, disks, store', base, x, x);
  }

  lemma ChainPath(disks: Disks, children: Children, head: DiskName, base: seq<DiskName>, active: seq<DiskName>, i: nat)
    returns (p: seq<DiskName>)
    requires TreeOk(disks, children, head, base, active) && 1 + |base| <= i < |active| - 1
    ensures IsPath(disks, active[i], p) && active[i] != head
  {
    var q := active[1 + |base|..];
    p := q[..i - |base|];
    PathPrefix(disks, head, q, i - 1 - |base|);
    HeadIsLast(disks, children, head, base, active);
    if active[i] == head { ActiveIndex(disks, children, head, base, active, i, |active| - 1); }
  }

  lemma OneSectorLost(disks: Disks, base: seq<DiskName>, x: DiskName, active: seq<DiskName>, from: int,
                      p: seq<DiskName>)
    requires p != [] && p[|p| - 1] == x && x in disks && x in Treated(active, from) && forall m | m in p :: m in disks
    ensures var store := OneSector(disks, base, x);
            var store' := Unmapped(store, active, from, 0, 4096);
            && StoreFor(disks, base, store) && Stored(store, base + p) && Stored(store', base + p)
            && !SameImage(LayersOf(store, base + p), LayersOf(store', base + p))
  {
    var store := OneSector(disks, base, x);
    var store' := Unmapped(store, active, from, 0, 4096);
    assert 0 in Touched(0, 4096);
    forall n | n in base + p ensures n in store && n in store' && 0 !in store'[n].data {
    }
    hide Unmapped, OneSector;
    LosesSector(store, store', base + p, x);
  }

  lemma LosesSector(store: Store, store': Store, chain: seq<DiskName>, x: DiskName)
    requires chain != [] && chain[|chain| - 1] == x && Stored(store, chain) && Stored(store', chain)
    requires store[x].data == map[0 := Ones()]
    requires forall n | n in chain :: 0 !in store'[n].data
    ensures !SameImage(LayersOf(store, chain), LayersOf(store', chain))
  {
    var a, b := LayersOf(store, chain), LayersOf(store', chain);
    assert SectorAt(a, 0) == Ones();
    NoSector(b, 0);
    assert Ones()[0] != Zeros()[0];
    assert SectorAt(a, 0) != SectorAt(b, 0);
  }

  lemma {:induction false} NoSector(layers: seq<Layer>, s: nat)
    requires forall i | 0 <= i < |layers| :: s !in layers[i].data
    ensures SectorAt(layers, s) == Zeros()
  {
    if layers != [] {
      NoSector(layers[..|layers| - 1], s);
    }
  }

  /** The smallest case: a removed base, a live snapshot and the head.  One disk is counted below the head,
      which is the live snapshot, and unmapping the first sector wipes it out of the snapshot's image. */
  lemma BrokenRunExample()
    ensures var old', live, head := Snapshot("old"), Snapshot("live"), Head(0);
            var disks := map[old' := Disk(NoDisk, true), live := Disk(old', false), head := Disk(live, false)];
            var active := [NoDisk, old', live, head];
            var store := map[old' := Layer(4096, map[]), live := Layer(4096, map[0 := Ones()]),
                             head := Layer(4096, map[])];
            && UnmapCount(disks, active, 1, false) == 2
            && !KeepsImage(disks, store, disks, Unmapped(store, active, 2, 0, 4096), [], live, live)
  {
    var old', live, head := Snapshot("old"), Snapshot("live"), Head(0);
    var disks := map[old' := Disk(NoDisk, true), live := Disk(old', false), head := Disk(live, false)];
    var active := [NoDisk, old', live, head];
    var store := map[old' := Layer(4096, map[]), live := Layer(4096, map[0 := Ones()]), head := Layer(4096, map[])];
    CountOfThree(disks, active, old', live, head);
    hide UnmapCount;
    var p := [old', live];
    assert p[..1] == [old'];
    assert IsPath(disks, old', [old']) && IsPath(disks, live, p);
    hide IsPath;
    var store' := Unmapped(store, active, 2, 0, 4096);
    assert live == active[2] && live in Treated(active, 2) && 0 in Touched(0, 4096);
    assert 0 !in store'[live].data && 0 !in store'[old'].data;
    hide Unmapped;
    LosesSector(store, store', p, live);
    assert [] + p == p;
  }

  lemma CountOfThree(disks: Disks, active: seq<DiskName>, old': DiskName, live: DiskName, head: DiskName)
    requires old' != live && live != head && head != old' && live != NoDisk && old' != NoDisk
    requires active == [NoDisk, old', live, head]
    requires disks == map[old' := Disk(NoDisk, true), live := Disk(old', false), head := Disk(live, false)]
    ensures UnmapCount(disks, active, 1, false) == 2
  {
    assert ChildrenOf(disks, live) <= {head} && ChildrenOf(disks, old') <= {live};
    assert |ChildrenOf(disks, live)| <= 1 && |ChildrenOf(disks, old')| <= 1 by {
      SubsetOfOne(ChildrenOf(disks, live), head);
      SubsetOfOne(ChildrenOf(disks, old'), live);
    }
    assert ScanFlags(disks, active, 1, 0, false) == [];
    assert ScanFlags(disks, active, 1, 1, false) == [true];
    assert ScanFlags(disks, active, 1, 2, false) == [false, true];
    assert [false, true][..1] == [false] && [false][..0] == [];
    assert CountSet([false]) == 0 && CountSet([false, true]) == 1;
  }

  lemma SubsetOfOne(s: set<DiskName>, x: DiskName)
    requires s <= {x}
    ensures |s| <= 1
  {
    assert s == {} || s == {x};
  }

  /** A path through a chain disk from which on every disk has one child ends in the chain. */
  lemma {:induction false} EndsInChain(disks: Disks, children: Children, head: DiskName, base: seq<DiskName>,
                                       active: seq<DiskName>,
                                       i: nat, n: DiskName, p: seq<DiskName>)
    returns (k: nat)
    requires TreeOk(disks, children, head, base, active) && 1 + |base| <= i < |active|
    requires i < |active| - 1 ==> Scanned(disks, active, i)
    requires IsPath(disks, n, p) && active[i] in p
    ensures i <= k < |active| && n == active[k]
    decreases |active| - i
  {
    HeadIsLast(disks, children, head, base, active);
    if n == active[i] {
      k := i;
    } else if i == |active| - 1 {
      LeafIsLast(disks, n, p, head);
    } else {
      var q := active[1 + |base|..];
      NextIsChild(disks, head, q, i - 1 - |base|);
      OnlyOne(ChildrenOf(disks, active[i]), active[i + 1]);
      var under, over := SplitAt(disks, active[i], active[i + 1], n, p);
      assert active[i + 1] == p[|under| + 1];
      k := EndsInChain(disks, children, head, base, active, i + 1, n, p);
    }
  }

  /** The same disks with the same parents; only marks differ. */
  ghost predicate SameParents(a: Disks, b: Disks) {
    a.Keys == b.Keys && forall n | n in a :: b[n].parent == a[n].parent
  }

  lemma SameNames(a: Disks, b: Disks)
    requires SameParents(a, b)
    ensures a.Keys == b.Keys
  {
  }

  lemma SameScan(a: Disks, b: Disks, active: seq<DiskName>)
    requires SameParents(a, b)
    ensures forall p :: ChildrenOf(a, p) == ChildrenOf(b, p)
    ensures forall i: nat :: Scanned(a, active, i) <==> Scanned(b, active, i)
  {
    forall p: DiskName ensures ChildrenOf(a, p) == ChildrenOf(b, p) {
    }
  }

  /** Files of the head and of the removed run under it may change; a disk that is neither keeps its image. */
  lemma UnmapOthers(disks: Disks, disks': Disks, children: Children, head: DiskName, base: seq<DiskName>,
                    active: seq<DiskName>,
                    store: Store, store': Store, lo: nat, n: DiskName)
    requires SameParents(disks, disks') && TreeOk(disks', children, head, base, active)
    requires (forall m | m in disks' :: m in store) && Stored(store, base)
    requires 1 + |base| <= lo < |active|
    requires forall i | lo <= i < |active| - 1 ::
               Scanned(disks', active, i) && active[i] in disks' && disks'[active[i]].removed
    requires forall m | m in store ::
               m in store' && (store'[m] == store[m] || exists i :: lo <= i < |active| && active[i] == m)
    requires n in disks' && n != head && !disks'[n].removed
    ensures n in disks && KeepsImage(disks, store, disks', store', base, n, n)
  {
    hide KeepsImage;
    HeadIsLast(disks', children, head, base, active);
    var p :| IsPath(disks', n, p);
    PathInDisks(disks', n, p);
    PathFrame(disks', disks, n, p);
    forall i | lo <= i < |active| ensures active[i] !in base + p {
      ActiveIndex(disks', children, head, base, active, i, i);
      if active[i] in p {
        var k := EndsInChain(disks', children, head, base, active, i, n, p);
      }
    }
    KeepsUntouched(disks, store, disks', store', base, n, p);
  }

  /** The tree of a revert: the old head is gone, a new empty head sits on the target. */
  function Reverted(disks: Disks, head: DiskName, newHead: DiskName, target: DiskName): Disks {
    (disks - {head})[newHead := Disk(target, false)]
  }

  lemma RevertedPaths(disks: Disks, head: DiskName, newHead: DiskName, target: DiskName, n: DiskName, p: seq<DiskName>)
    requires IsPath(disks, n, p) && n != head && head in disks && ChildrenOf(disks, head) == {}
    requires newHead !in disks && newHead != NoDisk
    ensures IsPath(Reverted(disks, head, newHead, target), n, p)
    ensures n == target ==> IsPath(Reverted(disks, head, newHead, target), newHead, p + [newHead])
  {
    PathInDisks(disks, n, p);
    if head in p { LeafIsLast(disks, n, p, head); }
    PathFrame(disks, Reverted(disks, head, newHead, target), n, p);
    assert (p + [newHead])[..|p|] == p;
  }

  /** The way up from the head of a revert: the target's path, or nothing but the new head if its parent is gone. */
  lemma RevertedWalk(disks: Disks, head: DiskName, newHead: DiskName, target: DiskName)
    requires Rooted(disks) && head in disks && ChildrenOf(disks, head) == {} && target in disks
    requires newHead !in disks && newHead != NoDisk
    ensures var disks' := Reverted(disks, head, newHead, target);
            && (exists p :: Walks(disks', newHead, p))
            && ((exists p :: IsPath(disks', newHead, p) && |p| <= MAX_CHAIN)
                <==> target != head && exists p :: IsPath(disks, target, p) && |p| < MAX_CHAIN)
  {
    var disks' := Reverted(disks, head, newHead, target);
    if target == head {
      assert [newHead][..0] == [];
      assert Walks(disks', head, []);
      assert Walks(disks', newHead, [newHead]);
      if exists p :: IsPath(disks', newHead, p) {
        var p :| IsPath(disks', newHead, p);
        PathLinks(disks', newHead, p, |p| - 1);
        if |p| > 1 { PathLinks(disks', newHead, p, |p| - 2); }
      }
    } else {
      var p :| IsPath(disks, target, p);
      RevertedPaths(disks, head, newHead, target, target, p);
      PathWalks(disks', newHead, p + [newHead]);
      forall q | IsPath(disks', newHead, q) ensures q == p + [newHead] {
        PathUnique(disks', newHead, q, p + [newHead]);
      }
      forall q | IsPath(disks, target, q) ensures q == p {
        PathUnique(disks, target, q, p);
      }
    }
  }

  /** Reverting to the head's own file would leave a head without a parent: the tree stays rooted if and
      only if the target is another disk. */
  lemma RevertRootedIff(disks: Disks, store: Store, head: DiskName, newHead: DiskName, target: DiskName)
    requires Rooted(disks) && head in disks && ChildrenOf(disks, head) == {} && target in disks
    requires newHead !in disks && newHead != NoDisk && (forall m | m in disks :: m in store)
    ensures Rooted(Reverted(disks, head, newHead, target)) <==> target != head
  {
    var disks' := Reverted(disks, head, newHead, target);
    if target != head {
      RevertImages(disks, store, [], head, newHead, target, 0);
    } else if Rooted(disks') {
      ParentInDisks(disks', newHead);
    }
  }

  /** After a revert the new head shows what the target shows, and all other disks what they showed. */
  lemma RevertImages(disks: Disks, store: Store, base: seq<DiskName>, head: DiskName, newHead: DiskName,
                     target: DiskName, size: nat)
    requires Rooted(disks) && head in disks && ChildrenOf(disks, head) == {} && target in disks && target != head
    requires newHead !in disks && newHead != NoDisk && (forall m | m in disks :: m in store) && Stored(store, base)
    requires head !in base && newHead !in base
    ensures var disks', store' := Reverted(disks, head, newHead, target), store[newHead := Layer(size, map[])] - {head};
            && Rooted(disks') && ChildrenOf(disks', newHead) == {}
            && KeepsImage(disks, store, disks', store', base, target, newHead)
            && OthersKept(disks, store, disks', store', base, head)
  {
    hide KeepsImage;
    var disks', store' := Reverted(disks, head, newHead, target), store[newHead := Layer(size, map[])] - {head};
    forall n | n in disks && n != head
      ensures KeepsImage(disks, store, disks', store', base, n, n) && exists p :: IsPath(disks', n, p)
    {
      var p :| IsPath(disks, n, p);
      PathInDisks(disks, n, p);
      if head in p { LeafIsLast(disks, n, p, head); }
      RevertedPaths(disks, head, newHead, target, n, p);
      KeepsUntouched(disks, store, disks', store', base, n, p);
    }
    var p :| IsPath(disks, target, p);
    RevertedPaths(disks, head, newHead, target, target, p);
    RevertedHead(disks, store, base, head, newHead, target, size, p);
    forall n | n in disks ensures disks[n].parent != newHead {
      ParentInDisks(disks, n);
    }
  }

  lemma RevertedHead(disks: Disks, store: Store, base: seq<DiskName>, head: DiskName, newHead: DiskName,
                     target: DiskName, size: nat, p: seq<DiskName>)
    requires IsPath(disks, target, p) && head in disks && ChildrenOf(disks, head) == {} && target != head
    requires newHead !in disks && newHead != NoDisk && (forall m | m in disks :: m in store) && Stored(store, base)
    requires head !in base && newHead !in base
    ensures KeepsImage(disks, store, Reverted(disks, head, newHead, target),
                       store[newHead := Layer(size, map[])] - {head}, base, target, newHead)
  {
    hide KeepsImage;
    var disks', store' := Reverted(disks, head, newHead, target), store[newHead := Layer(size, map[])] - {head};
    RevertedPaths(disks, head, newHead, target, target, p);
    PathInDisks(disks, target, p);
    if head in p { LeafIsLast(disks, target, p, head); }
    SameLayers(store, store', base + p);
    LayersPush(store', base + p, newHead);
    assert base + (p + [newHead]) == base + p + [newHead];
    forall s: nat
      ensures SectorAt(LayersOf(store', base + (p + [newHead])), s) == SectorAt(LayersOf(store, base + p), s)
    {
      SectorAtSnoc(LayersOf(store, base + p), Layer(size, map[]), s);
    }
    KeepsOnly(disks, store, disks', store', base, target, p, newHead, p + [newHead]);
  }

  /** `p` lists, base first, the disks met on the way from `n` up its parents, to the empty name or to a disk
      without metadata. */
  ghost predicate Walks(disks: Disks, n: DiskName, p: seq<DiskName>)
    decreases |p|
  {
    if n == NoDisk || n !in disks then p == []
    else 0 < |p| && p[|p| - 1] == n && Walks(disks, disks[n].parent, p[..|p| - 1])
  }

  /** The name reached from `n` after `k` steps up the parents. */
  ghost function Up(disks: Disks, n: DiskName, k: nat): DiskName
    decreases k
  {
    if k == 0 || n == NoDisk || n !in disks then n else Up(disks, disks[n].parent, k - 1)
  }

  /** The way up from `n` comes back to a disk it has met. */
  ghost predicate Repeats(disks: Disks, n: DiskName) {
    exists i: nat, j: nat :: i < j && Up(disks, n, i) == Up(disks, n, j) != NoDisk && Up(disks, n, i) in disks
  }

  /** The walk up the parents ends if and only if it meets no disk twice. */
  lemma WalkEndsIff(disks: Disks, n: DiskName)
    ensures (exists p :: Walks(disks, n, p)) <==> !Repeats(disks, n)
  {
    hide Walks;
    if p :| Walks(disks, n, p) {
      forall i: nat, j: nat | i < j && Up(disks, n, i) in disks && Up(disks, n, i) != NoDisk
        ensures Up(disks, n, i) != Up(disks, n, j)
      {
        if Up(disks, n, i) == Up(disks, n, j) {
          WalkUp(disks, n, p, i);
          WalkUp(disks, n, p, j);
          WalkLength(disks, Up(disks, n, i), p[..|p| - i], p[..|p| - j]);
        }
      }
    }
    if !Repeats(disks, n) {
      var p := WalkFrom(disks, n, 0, {});
      assert Walks(disks, n, p);
    }
  }

  lemma {:induction false} UpNext(disks: Disks, n: DiskName, k: nat)
    requires Up(disks, n, k) in disks && Up(disks, n, k) != NoDisk
    ensures Up(disks, n, k + 1) == disks[Up(disks, n, k)].parent
    decreases k
  {
    if k > 0 {
      UpNext(disks, disks[n].parent, k - 1);
    }
  }

  lemma {:induction false} WalkUp(disks: Disks, n: DiskName, p: seq<DiskName>, k: nat)
    requires Walks(disks, n, p) && Up(disks, n, k) in disks && Up(disks, n, k) != NoDisk
    ensures k < |p| && Walks(disks, Up(disks, n, k), p[..|p| - k])
    decreases k
  {
    var q := p[..|p| - 1];
    if k == 0 {
      assert p[..|p|] == p;
    } else {
      WalkUp(disks, disks[n].parent, q, k - 1);
      assert p[..|p| - k] == q[..|q| - (k - 1)];
    }
  }

  lemma {:induction false} WalkLength(disks: Disks, n: DiskName, p: seq<DiskName>, q: seq<DiskName>)
    requires Walks(disks, n, p) && Walks(disks, n, q)
    ensures |p| == |q|
    decreases |p|
  {
    if p != [] {
      WalkLength(disks, disks[n].parent, p[..|p| - 1], q[..|q| - 1]);
    }
  }

  ghost predicate MetBefore(disks: Disks, n: DiskName, k: nat, m: DiskName) {
    exists i: nat :: i < k && Up(disks, n, i) == m
  }

  /** Disks met on the way are used up one by one. */
  lemma {:induction false} WalkFrom(disks: Disks, n: DiskName, k: nat, met: set<DiskName>) returns (p: seq<DiskName>)
    requires !Repeats(disks, n) && met <= disks.Keys
    requires forall m | m in met :: MetBefore(disks, n, k, m)
    ensures Walks(disks, Up(disks, n, k), p)
    decreases |disks.Keys - met|
  {
    hide Up;
    var cur := Up(disks, n, k);
    p := [];
    if cur != NoDisk && cur in disks {
      assert cur !in met by {
        hide Walks;
        assert cur in met ==> MetBefore(disks, n, k, cur);
      }
      assert disks.Keys - (met + {cur}) == disks.Keys - met - {cur};
      UpNext(disks, n, k);
      forall m | m in met + {cur} ensures MetBefore(disks, n, k + 1, m) {
        assert m in met ==> MetBefore(disks, n, k, m);
      }
      var q := WalkFrom(disks, n, k + 1, met + {cur});
      p := q + [cur];
      assert p[..|p| - 1] == q;
    }
  }

  lemma {:induction false} PathWalks(disks: Disks, n: DiskName, p: seq<DiskName>)
    requires IsPath(disks, n, p)
    ensures Walks(disks, n, p)
    decreases |p|
  {
    if |p| > 1 {
      PathWalks(disks, disks[n].parent, p[..|p| - 1]);
    }
  }

  /** A walk that meets no missing disk is the path, and there is no path otherwise. */
  lemma {:induction false} WalkIsPath(disks: Disks, n: DiskName, p: seq<DiskName>)
    requires Walks(disks, n, p) && p != []
    ensures p[0] in disks && (IsPath(disks, n, p) <==> disks[p[0]].parent == NoDisk)
    ensures forall q | IsPath(disks, n, q) :: q == p
    decreases |p|
  {
    var rest, parent := p[..|p| - 1], disks[n].parent;
    assert p == rest + [n];
    if rest != [] {
      WalkIsPath(disks, parent, rest);
    }
    forall q | IsPath(disks, n, q) ensures q == p {
      assert q == q[..|q| - 1] + [n];
      assert |q| > 1 ==> IsPath(disks, parent, q[..|q| - 1]);
    }
  }

  /** Opening a directory whose tree is rooted gives the tree invariant, with the files in chain order. */
  lemma OpenedOk(disks: Disks, store: Store, head: DiskName, base: seq<DiskName>, children: Children,
                 path: seq<DiskName>)
    requires Rooted(disks) && head.Head? && head in disks && ChildrenOf(disks, head) == {}
    requires ChildMapOk(disks, children)
    requires (forall n | n in disks :: n in store) && Stored(store, base)
    requires (forall n | n in store :: ValidLayer(store[n]))
    requires |base| <= 1 && (forall b | b in base :: b.BackingFile? && b !in disks)
    requires IsPath(disks, head, path) && |path| <= MAX_CHAIN
    ensures Stored(store, base + path)
    ensures var active, files := [NoDisk] + base + path, [Layer(0, map[])] + LayersOf(store, base + path);
            && TreeOk(disks, children, head, base, active) && FilesOk(disks, base, active, store, files)
            && 2 <= |files| <= 256 && (forall i | 1 <= i < |files| :: ValidLayer(files[i]))
            && files[|files| - 1] == store[head]
  {
    PathInDisks(disks, head, path);
    assert path[|path| - 1] == head;
    hide Rooted, ChildMapOk, ValidLayer, IsPath, ChildrenOf;
    var chain := base + path;
    OpenedActive(base, path);
    OpenedFiles(store, chain);
    assert chain[|chain| - 1] == head;
  }

  lemma OpenedActive(base: seq<DiskName>, path: seq<DiskName>)
    ensures var active := [NoDisk] + base + path;
            && active == [NoDisk] + (base + path) && active[0] == NoDisk
            && active[1..1 + |base|] == base && active[1 + |base|..] == path
  {
  }

  lemma OpenedFiles(store: Store, chain: seq<DiskName>)
    requires Stored(store, chain) && forall n | n in store :: ValidLayer(store[n])
    ensures var active, files := [NoDisk] + chain, [Layer(0, map[])] + LayersOf(store, chain);
            && |files| == |active|
            && (forall i | 1 <= i < |active| ::
                  active[i] in store && files[i] == store[active[i]] && ValidLayer(files[i]))
            && (chain != [] ==> files[|files| - 1] == store[chain[|chain| - 1]])
  {
    hide ValidLayer;
    var active, files := [NoDisk] + chain, [Layer(0, map[])] + LayersOf(store, chain);
    forall i | 1 <= i < |active| ensures active[i] in store && files[i] == store[active[i]] && ValidLayer(files[i]) {
      var j := i - 1;
      assert active[i] == chain[j] && files[i] == LayersOf(store, chain)[j];
    }
  }
}

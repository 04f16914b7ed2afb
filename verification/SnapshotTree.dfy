/** The tree of disks of a replica, as parent links by name, and what each operation on the tree does
    to the path and to the image of every disk.
 */
module SnapshotTree {
  import opened Layers

  /** Disk file names.  `NoDisk` is the empty name: the parent of a base disk. */
  datatype DiskName = NoDisk | Head(index: nat) | Snapshot(id: string) | BackingFile(path: string)

  datatype Disk = Disk(parent: DiskName, removed: bool)

  type Disks = map<DiskName, Disk>
  type Store = map<DiskName, Layer>

  /** `p` lists, base first, the disks on the way from the root to `n`. */
  ghost predicate IsPath(disks: Disks, n: DiskName, p: seq<DiskName>)
    decreases |p|
  {
    && 0 < |p| && p[|p| - 1] == n && n != NoDisk && n in disks
    && if |p| == 1 then disks[n].parent == NoDisk
       else IsPath(disks, disks[n].parent, p[..|p| - 1])
  }

  /** Every disk hangs on a finite path from a root: the parent relation is closed and acyclic. */
  ghost predicate Rooted(disks: Disks) {
    NoDisk !in disks && forall n | n in disks :: exists p :: IsPath(disks, n, p)
  }

  function ChildrenOf(disks: Disks, parent: DiskName): set<DiskName> {
    set c | c in disks && disks[c].parent == parent
  }

  lemma {:induction false} PathUnique(disks: Disks, n: DiskName, p: seq<DiskName>, q: seq<DiskName>)
    requires IsPath(disks, n, p) && IsPath(disks, n, q)
    ensures p == q
    decreases |p|
  {
    if |p| == 1 || |q| == 1 {
      assert |p| == |q|;
    } else {
      PathUnique(disks, disks[n].parent, p[..|p| - 1], q[..|q| - 1]);
      assert p == p[..|p| - 1] + [n] && q == q[..|q| - 1] + [n];
    }
  }

  lemma {:induction false} PathPrefix(disks: Disks, n: DiskName, p: seq<DiskName>, i: nat)
    requires IsPath(disks, n, p) && i < |p|
    ensures IsPath(disks, p[i], p[..i + 1])
    decreases |p|
  {
    if i == |p| - 1 {
      assert p[..i + 1] == p;
    } else {
      PathPrefix(disks, disks[n].parent, p[..|p| - 1], i);
      assert p[..|p| - 1][..i + 1] == p[..i + 1];
    }
  }

  /** The links along a path, from its two ends. */
  lemma PathLinks(disks: Disks, n: DiskName, p: seq<DiskName>, i: nat)
    requires IsPath(disks, n, p) && i < |p|
    ensures p[i] in disks && p[i] != NoDisk
    ensures disks[p[i]].parent == if i == 0 then NoDisk else p[i - 1]
  {
    PathPrefix(disks, n, p, i);
    if i > 0 {
      assert p[..i + 1][..i] == p[..i];
      PathPrefix(disks, n, p, i - 1);
    }
  }

  /** No disk occurs twice on a path. */
  lemma PathDistinct(disks: Disks, n: DiskName, p: seq<DiskName>, i: nat, j: nat)
    requires IsPath(disks, n, p) && i < |p| && j < |p| && p[i] == p[j]
    ensures i == j
  {
    PathPrefix(disks, n, p, i);
    PathPrefix(disks, n, p, j);
    PathUnique(disks, p[i], p[..i + 1], p[..j + 1]);
  }

  /** A path survives any change that keeps the disks on it and their parents. */
  lemma {:induction false} PathFrame(disks: Disks, disks': Disks, n: DiskName, p: seq<DiskName>)
    requires IsPath(disks, n, p)
    requires forall m | m in p :: m in disks && m in disks' && disks'[m].parent == disks[m].parent
    ensures IsPath(disks', n, p)
    decreases |p|
  {
    assert n in p;
    if |p| > 1 {
      PathFrame(disks, disks', disks[n].parent, p[..|p| - 1]);
    }
  }

  /** A disk on a path that is not its end has the next one as a child. */
  lemma LeafIsLast(disks: Disks, n: DiskName, p: seq<DiskName>, x: DiskName)
    requires IsPath(disks, n, p) && x in p && ChildrenOf(disks, x) == {}
    ensures n == x
  {
    var i :| 0 <= i < |p| && p[i] == x;
    if i < |p| - 1 {
      NextIsChild(disks, n, p, i);
    }
  }

  lemma NextIsChild(disks: Disks, n: DiskName, p: seq<DiskName>, i: nat)
    requires IsPath(disks, n, p) && i + 1 < |p|
    ensures p[i + 1] in ChildrenOf(disks, p[i])
  {
    PathLinks(disks, n, p, i + 1);
  }

  lemma PathInDisks(disks: Disks, n: DiskName, p: seq<DiskName>)
    requires IsPath(disks, n, p)
    ensures forall m | m in p :: m in disks && m != NoDisk
  {
    forall i | 0 <= i < |p| ensures p[i] in disks && p[i] != NoDisk {
      PathLinks(disks, n, p, i);
    }
  }

  lemma ParentInDisks(disks: Disks, n: DiskName)
    requires Rooted(disks) && n in disks
    ensures disks[n].parent == NoDisk || disks[n].parent in disks
  {
    var p :| IsPath(disks, n, p);
    PathInDisks(disks, n, p);
    PathLinks(disks, n, p, |p| - 1);
  }

  // ----- snapshot and expansion: the head becomes a snapshot under a new head -----

  function WithSnapshot(disks: Disks, head: DiskName, snap: DiskName, newHead: DiskName): Disks
    requires head in disks
  {
    (disks - {head})[snap := disks[head]][newHead := Disk(snap, false)]
  }

  lemma SnapshotPaths(disks: Disks, head: DiskName, snap: DiskName, newHead: DiskName, n: DiskName, p: seq<DiskName>)
    requires IsPath(disks, n, p) && head in disks && ChildrenOf(disks, head) == {}
    requires snap !in disks && newHead !in disks && snap != newHead && snap != NoDisk && newHead != NoDisk
    ensures n != head ==> IsPath(WithSnapshot(disks, head, snap, newHead), n, p)
    ensures n == head ==>
              && IsPath(WithSnapshot(disks, head, snap, newHead), snap, p[..|p| - 1] + [snap])
              && IsPath(WithSnapshot(disks, head, snap, newHead), newHead, p[..|p| - 1] + [snap, newHead])
  {
    var disks' := WithSnapshot(disks, head, snap, newHead);
    PathInDisks(disks, n, p);
    if n != head {
      if head in p { LeafIsLast(disks, n, p, head); }
      PathFrame(disks, disks', n, p);
    } else {
      var q := p[..|p| - 1];
      assert (q + [snap])[..|q|] == q;
      if q != [] {
        PathInDisks(disks, disks[head].parent, q);
        if head in q { LeafIsLast(disks, disks[head].parent, q, head); PathLinks(disks, n, p, |p| - 1); }
        PathFrame(disks, disks', disks[head].parent, q);
      }
      assert (q + [snap, newHead])[..|q| + 1] == q + [snap];
    }
  }

  // ----- removal of a node: its children move to its parent -----

  function WithoutNode(disks: Disks, x: DiskName): Disks
    requires x in disks
  {
    map n | n in disks && n != x ::
      if disks[n].parent == x then Disk(disks[x].parent, disks[n].removed) else disks[n]
  }

  function Drop(p: seq<DiskName>, x: DiskName): seq<DiskName> {
    if p == [] then []
    else if p[|p| - 1] == x then Drop(p[..|p| - 1], x)
    else Drop(p[..|p| - 1], x) + [p[|p| - 1]]
  }

  lemma {:induction false} RemovalPaths(disks: Disks, x: DiskName, n: DiskName, p: seq<DiskName>)
    requires IsPath(disks, n, p) && x in disks && x != n && x != NoDisk
    ensures IsPath(WithoutNode(disks, x), n, Drop(p, x))
    decreases |p|
  {
    var disks' := WithoutNode(disks, x);
    var q := p[..|p| - 1];
    assert Drop(p, x) == Drop(q, x) + [n];
    if |p| == 1 {
      assert Drop(q, x) == [];
    } else {
      var parent := disks[n].parent;
      assert (Drop(q, x) + [n])[..|Drop(q, x)|] == Drop(q, x);
      if parent != x {
        RemovalPaths(disks, x, parent, q);
      } else if |q| == 1 {
        assert q[..0] == [];
        assert Drop(q, x) == [];
      } else {
        var grand := disks[x].parent;
        PathNotSelf(disks, x, q);
        RemovalPaths(disks, x, grand, q[..|q| - 1]);
      }
    }
  }

  lemma PathNotSelf(disks: Disks, x: DiskName, p: seq<DiskName>)
    requires IsPath(disks, x, p)
    ensures x !in p[..|p| - 1] && disks[x].parent != x
  {
    if x in p[..|p| - 1] {
      var i :| 0 <= i < |p| - 1 && p[i] == x;
      PathDistinct(disks, x, p, i, |p| - 1);
    }
    PathLinks(disks, x, p, |p| - 1);
    if |p| > 1 { assert p[|p| - 2] in p[..|p| - 1]; }
  }

  lemma {:induction false} DropNothing(p: seq<DiskName>, x: DiskName)
    requires x !in p
    ensures Drop(p, x) == p
  {
    if p != [] {
      DropNothing(p[..|p| - 1], x);
      assert p == p[..|p| - 1] + [p[|p| - 1]];
    }
  }

  lemma {:induction false} DropConcat(p: seq<DiskName>, q: seq<DiskName>, x: DiskName)
    ensures Drop(p + q, x) == Drop(p, x) + Drop(q, x)
  {
    if q == [] {
      assert p + q == p;
    } else {
      DropConcat(p, q[..|q| - 1], x);
      assert (p + q)[..|p + q| - 1] == p + q[..|q| - 1];
    }
  }

  lemma {:induction false} DropMiddle(under: seq<DiskName>, x: DiskName, c: DiskName, over: seq<DiskName>)
    requires x !in under && x !in over && x != c
    ensures Drop(under + [x, c] + over, x) == under + [c] + over
  {
    assert under + [x, c] + over == under + ([x] + ([c] + over));
    DropConcat(under, [x] + ([c] + over), x);
    DropConcat([x], [c] + over, x);
    DropNothing(under, x);
    DropNothing([c] + over, x);
    assert Drop([x], x) == Drop([x][..0], x) == [];
    assert under + ([] + ([c] + over)) == under + [c] + over;
  }

  /** Where a path passes `x`, whose only child is `c`, it goes on to `c`. */
  lemma SplitAt(disks: Disks, x: DiskName, c: DiskName, n: DiskName, p: seq<DiskName>)
    returns (under: seq<DiskName>, over: seq<DiskName>)
    requires IsPath(disks, n, p) && x in p && n != x && ChildrenOf(disks, x) == {c}
    ensures p == under + [x, c] + over
    ensures x !in under && x !in over && c !in under && c !in over && c != x
  {
    var i :| 0 <= i < |p| && p[i] == x;
    NextIsChild(disks, n, p, i);
    under, over := p[..i], p[i + 2..];
    forall j | 0 <= j < |p| && (p[j] == x || p[j] == c) ensures j == i || j == i + 1 {
      PathDistinct(disks, n, p, j, if p[j] == x then i else i + 1);
    }
    if c == x { PathDistinct(disks, n, p, i, i + 1); }
  }

  /** A path that avoids `x` avoids its child. */
  lemma ChildBringsParent(disks: Disks, x: DiskName, c: DiskName, n: DiskName, p: seq<DiskName>)
    requires IsPath(disks, n, p) && c in disks && disks[c].parent == x && x != NoDisk && c in p
    ensures x in p
  {
    var i :| 0 <= i < |p| && p[i] == c;
    PathLinks(disks, n, p, i);
  }

  // ----- images -----

  ghost predicate Stored(store: Store, p: seq<DiskName>) {
    forall m | m in p :: m in store
  }

  function LayersOf(store: Store, p: seq<DiskName>): (ls: seq<Layer>)
    requires Stored(store, p)
    ensures |ls| == |p|
    ensures forall i | 0 <= i < |p| :: ls[i] == store[p[i]]
  {
    seq(|p|, i requires 0 <= i < |p| => store[p[i]])
  }

  /** The image of disk `n`, over the optional backing file `base`, is the same before and after. */
  ghost predicate KeepsImage(disks: Disks, store: Store, disks': Disks, store': Store,
                             base: seq<DiskName>, n: DiskName, n': DiskName) {
    forall p, p' | IsPath(disks, n, p) && IsPath(disks', n', p') ::
      Stored(store, base + p) && Stored(store', base + p')
      && SameImage(LayersOf(store, base + p), LayersOf(store', base + p'))
  }

  lemma LayersConcat(store: Store, p: seq<DiskName>, q: seq<DiskName>)
    requires Stored(store, p + q)
    ensures Stored(store, p) && Stored(store, q)
    ensures LayersOf(store, p + q) == LayersOf(store, p) + LayersOf(store, q)
  {
    assert forall m | m in p :: m in p + q;
    assert forall m | m in q :: m in p + q;
  }

  lemma LayersPush(store: Store, p: seq<DiskName>, m: DiskName)
    requires Stored(store, p) && m in store
    ensures Stored(store, p + [m]) && LayersOf(store, p + [m]) == LayersOf(store, p) + [store[m]]
  {
  }

  lemma SameLayers(store: Store, store': Store, p: seq<DiskName>)
    requires Stored(store, p) && forall m | m in p :: m in store' && store'[m] == store[m]
    ensures Stored(store', p) && LayersOf(store', p) == LayersOf(store, p)
  {
  }

  /** Images of disks whose path and files are untouched. */
  lemma KeepsUntouched(disks: Disks, store: Store, disks': Disks, store': Store, base: seq<DiskName>, n: DiskName,
                       p: seq<DiskName>)
    requires IsPath(disks, n, p) && IsPath(disks', n, p) && Stored(store, base + p)
    requires forall m | m in base + p :: m in store' && store'[m] == store[m]
    ensures KeepsImage(disks, store, disks', store', base, n, n)
  {
    SameLayers(store, store', base + p);
    forall q, q' | IsPath(disks, n, q) && IsPath(disks', n, q') ensures q == p && q' == p {
      PathUnique(disks, n, q, p);
      PathUnique(disks', n, q', p);
    }
  }

  /** Two files in a row exchanged for others that show the same leave the whole stack's image. */
  lemma MiddleSwap(store: Store, store': Store, under: seq<DiskName>, mid: seq<DiskName>, mid': seq<DiskName>,
                   over: seq<DiskName>)
    requires Stored(store, under + mid + over) && Stored(store', under + mid' + over)
    requires forall m | m in under + over :: m in store && m in store' && store'[m] == store[m]
    requires Stored(store, under + mid) && Stored(store', under + mid')
    requires SameImage(LayersOf(store, under + mid), LayersOf(store', under + mid'))
    ensures SameImage(LayersOf(store, under + mid + over), LayersOf(store', under + mid' + over))
  {
    LayersConcat(store, under + mid, over);
    LayersConcat(store', under + mid', over);
    assert forall m | m in over :: m in under + over;
    SameLayers(store, store', over);
    forall s: nat
      ensures SectorAt(LayersOf(store, under + mid + over), s) == SectorAt(LayersOf(store', under + mid' + over), s)
    {
      SameImageUnder(LayersOf(store, under + mid), LayersOf(store', under + mid'), LayersOf(store, over), s);
    }
  }

  /** `x` holds everything its child holds, so that alone it shows what both showed. */
  ghost predicate Folded(x: Layer, c: Layer) {
    c.data.Keys <= x.data.Keys && forall s | s in c.data :: x.data[s] == c.data[s]
  }

  /** Replace: the folded file of `x` takes the name of its only child `c` and `x` leaves the tree.
      Every other disk shows what it showed. */
  lemma ReplaceKeepsImages(disks: Disks, store: Store, base: seq<DiskName>, x: DiskName, c: DiskName, n: DiskName,
                           p: seq<DiskName>)
    requires IsPath(disks, n, p) && Stored(store, base + p) && x in store && c in store && Folded(store[x], store[c])
    requires x in disks && c in disks && x != NoDisk && n != x && ChildrenOf(disks, x) == {c}
    requires x !in base && c !in base
    ensures KeepsImage(disks, store, WithoutNode(disks, x), (store - {x})[c := store[x]], base, n, n)
  {
    hide KeepsImage;
    var disks', store' := WithoutNode(disks, x), (store - {x})[c := store[x]];
    var p' := Drop(p, x);
    RemovalPaths(disks, x, n, p);
    if x !in p {
      assert c in ChildrenOf(disks, x);
      if c in p { ChildBringsParent(disks, x, c, n, p); }
      DropNothing(p, x);
      KeepsUntouched(disks, store, disks', store', base, n, p);
    } else {
      var under, over := SplitAt(disks, x, c, n, p);
      DropMiddle(under, x, c, over);
      FoldedStack(store, store', base + under, x, c, over);
      assert base + p == (base + under) + [x, c] + over && base + p' == (base + under) + [c] + over;
      KeepsOnly(disks, store, disks', store', base, n, p, n, p');
    }
  }

  /** Paths are unique, so one pair of them decides whether the image is kept. */
  lemma KeepsOnly(disks: Disks, store: Store, disks': Disks, store': Store, base: seq<DiskName>,
                  n: DiskName, p: seq<DiskName>, n': DiskName, p': seq<DiskName>)
    requires IsPath(disks, n, p) && IsPath(disks', n', p')
    requires Stored(store, base + p) && Stored(store', base + p')
    requires SameImage(LayersOf(store, base + p), LayersOf(store', base + p'))
    ensures KeepsImage(disks, store, disks', store', base, n, n')
  {
    forall q, q' | IsPath(disks, n, q) && IsPath(disks', n', q') ensures q == p && q' == p' {
      PathUnique(disks, n, q, p);
      PathUnique(disks', n', q', p');
    }
  }

  lemma FoldedStack(store: Store, store': Store, under: seq<DiskName>, x: DiskName, c: DiskName, over: seq<DiskName>)
    requires Stored(store, under + [x, c] + over) && x in store && c in store && Folded(store[x], store[c])
    requires x !in under && x !in over && c !in under && c !in over && c != x
    requires store' == (store - {x})[c := store[x]]
    ensures Stored(store', under + [c] + over)
    ensures SameImage(LayersOf(store, under + [x, c] + over), LayersOf(store', under + [c] + over))
  {
    assert forall m | m in under || m in over :: m in under + [x, c] + over;
    var u := LayersOf(store, under);
    SameLayers(store, store', under);
    assert LayersOf(store, under + [x, c]) == u + [store[x]] + [store[c]];
    assert LayersOf(store', under + [c]) == u + [store[x]];
    forall s: nat ensures SectorAt(LayersOf(store, under + [x, c]), s) == SectorAt(LayersOf(store', under + [c]), s) {
      SectorAtSnoc(u + [store[x]], store[c], s);
      SectorAtSnoc(u, store[x], s);
    }
    MiddleSwap(store, store', under, [x, c], [c], over);
  }

  /** `x'` differs from `x` only in sectors that `c` holds. */
  ghost predicate Shadowed(x: Layer, x': Layer, c: Layer) {
    forall s: nat | s !in c.data :: (s in x.data <==> s in x'.data) && (s in x.data ==> x'.data[s] == x.data[s])
  }

  lemma FoldIsShadowed(x: Layer, c: Layer)
    ensures Shadowed(x, Fold(c, x), c) && Folded(Fold(c, x), c)
    ensures Shadowed(x, Prune(x, c), c)
  {
  }

  /** Rewriting the file of `x` only under its only child `c` (folding the child in, pruning what the
      child shadows) changes no image but that of `x`. */
  lemma ShadowedKeepsImages(disks: Disks, store: Store, base: seq<DiskName>, x: DiskName, x': Layer, c: DiskName,
                            n: DiskName, p: seq<DiskName>)
    requires IsPath(disks, n, p) && Stored(store, base + p) && x in store && c in store
    requires Shadowed(store[x], x', store[c])
    requires x in disks && n != x && ChildrenOf(disks, x) == {c} && x !in base && c !in base
    ensures KeepsImage(disks, store, disks, store[x := x'], base, n, n)
  {
    hide KeepsImage;
    var store' := store[x := x'];
    if x !in p {
      KeepsUntouched(disks, store, disks, store', base, n, p);
    } else {
      var under, over := SplitAt(disks, x, c, n, p);
      ShadowedStack(store, store', base + under, x, c, over);
      assert base + p == (base + under) + [x, c] + over;
      KeepsOnly(disks, store, disks, store', base, n, p, n, p);
    }
  }

  lemma ShadowedStack(store: Store, store': Store, under: seq<DiskName>, x: DiskName, c: DiskName, over: seq<DiskName>)
    requires Stored(store, under + [x, c] + over) && x in store && c in store
    requires x !in under && x !in over && c !in under && c !in over && c != x
    requires x in store' && store' == store[x := store'[x]] && Shadowed(store[x], store'[x], store[c])
    ensures Stored(store', under + [x, c] + over)
    ensures SameImage(LayersOf(store, under + [x, c] + over), LayersOf(store', under + [x, c] + over))
  {
    assert forall m | m in under || m in over :: m in under + [x, c] + over;
    var u := LayersOf(store, under);
    SameLayers(store, store', under);
    assert LayersOf(store, under + [x, c]) == u + [store[x]] + [store[c]];
    assert LayersOf(store', under + [x, c]) == u + [store'[x]] + [store[c]];
    forall s: nat
      ensures SectorAt(LayersOf(store, under + [x, c]), s) == SectorAt(LayersOf(store', under + [x, c]), s)
    {
      SectorAtSnoc(u + [store[x]], store[c], s);
      SectorAtSnoc(u + [store'[x]], store[c], s);
      SectorAtSnoc(u, store[x], s);
      SectorAtSnoc(u, store'[x], s);
    }
    MiddleSwap(store, store', under, [x, c], [x, c], over);
  }

  lemma KeepsTransitive(d0: Disks, s0: Store, d1: Disks, s1: Store, d2: Disks, s2: Store, base: seq<DiskName>,
                        n: DiskName)
    requires Rooted(d1) && n in d1
    requires KeepsImage(d0, s0, d1, s1, base, n, n) && KeepsImage(d1, s1, d2, s2, base, n, n)
    ensures KeepsImage(d0, s0, d2, s2, base, n, n)
  {
    var q :| IsPath(d1, n, q);
  }

  lemma KeepsReflexive(disks: Disks, store: Store, base: seq<DiskName>, n: DiskName)
    requires Rooted(disks) && n in disks && (forall m | m in disks :: m in store) && Stored(store, base)
    ensures KeepsImage(disks, store, disks, store, base, n, n)
  {
    var p :| IsPath(disks, n, p);
    PathInDisks(disks, n, p);
    KeepsUntouched(disks, store, disks, store, base, n, p);
  }
}

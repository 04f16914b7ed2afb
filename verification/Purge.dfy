/** What a purge does to the tree and the files: the effect of one removal, and which disks a whole purge leaves. */
module Purges {
  import opened Layers
  import opened SnapshotTree
  import opened LiveChains

  /** The sectors of `child` laid over those of `parent`. */
  ghost predicate Holds(layer: Layer, child: Layer, parent: Layer) {
    && layer.data.Keys == child.data.Keys + parent.data.Keys
    && forall s | s in layer.data :: layer.data[s] == if s in child.data then child.data[s] else parent.data[s]
  }

  /** The sectors of `parent` that `child` does not hold. */
  ghost predicate HoldsRest(layer: Layer, child: Layer, parent: Layer) {
    && layer.size == parent.size && layer.data.Keys == parent.data.Keys - child.data.Keys
    && forall s | s in layer.data :: layer.data[s] == parent.data[s]
  }

  /** The effect of removing one disk that is marked removed.  Without children it goes with its file; an only child
      that is not the head moves to its parent and takes over its sectors; under the head it loses what the head holds;
      and with several children, or when it is refused or unknown, nothing changes. */
  ghost predicate Executed(disks: Disks, store: Store, disks': Disks, store': Store, head: DiskName, name: DiskName) {
    if name !in disks || name == head || !disks[name].removed || |ChildrenOf(disks, name)| > 1 then
      disks' == disks && store' == store
    else if ChildrenOf(disks, name) == {} then
      disks' == disks - {name} && store' == store - {name}
    else if ChildrenOf(disks, name) == {head} then
      && disks' == disks && name in store && head in store && name in store'
      && store' == store[name := store'[name]] && HoldsRest(store'[name], store[head], store[name])
    else
      exists c :: Merged(disks, store, disks', store', name, c)
  }

  ghost predicate Merged(disks: Disks, store: Store, disks': Disks, store': Store, name: DiskName, c: DiskName) {
    && ChildrenOf(disks, name) == {c} && c != name && name in disks && c in disks
    && disks' == disks[c := Disk(disks[name].parent, disks[c].removed)] - {name}
    && name in store && c in store && c in store'
    && store' == store[c := store'[c]] - {name} && Holds(store'[c], store[c], store[name])
  }

  lemma MarksKept(disks: Disks, name: DiskName)
    ensures name in disks ==>
              forall n | n in WithoutNode(disks, name) ::
                n in disks && WithoutNode(disks, name)[n].removed == disks[n].removed
  {
  }

  lemma NothingExecuted(disks: Disks, store: Store, head: DiskName, name: DiskName)
    requires name !in disks || name == head || !disks[name].removed || |ChildrenOf(disks, name)| > 1
    ensures Executed(disks, store, disks, store, head, name)
  {
  }

  lemma LeafExecuted(disks: Disks, store: Store, head: DiskName, name: DiskName)
    requires name in disks && name != head && disks[name].removed && ChildrenOf(disks, name) == {}
    ensures Executed(disks, store, WithoutNode(disks, name), store - {name}, head, name)
  {
    LeafRemoval(disks, name);
  }

  lemma PruneExecuted(disks: Disks, store: Store, head: DiskName, name: DiskName)
    requires name in disks && name != head && disks[name].removed && ChildrenOf(disks, name) == {head}
    requires name in store && head in store
    ensures Executed(disks, store, disks, store[name := Prune(store[name], store[head])], head, name)
  {
  }

  lemma MergeExecuted(disks: Disks, store: Store, head: DiskName, name: DiskName, c: DiskName)
    requires Rooted(disks) && name in disks && name != head && disks[name].removed && ChildrenOf(disks, name) == {c}
    requires c != head && name in store && c in store
    ensures Executed(disks, store, WithoutNode(disks, name), (store - {name})[c := Fold(store[c], store[name])], head,
                     name)
  {
    ChildRemoval(disks, name, c);
    assert c in ChildrenOf(disks, name);
    var store' := (store - {name})[c := Fold(store[c], store[name])];
    assert Merged(disks, store, WithoutNode(disks, name), store', name, c);
  }

  /** A file goes exactly with its disk. */
  lemma ExecutedKeys(disks: Disks, store: Store, disks': Disks, store': Store, head: DiskName, name: DiskName)
    requires Executed(disks, store, disks', store', head, name) && disks.Keys <= store.Keys
    ensures disks'.Keys <= disks.Keys && store'.Keys == store.Keys - (disks.Keys - disks'.Keys)
  {
  }

  /** Which disks a removal takes out of the tree. */
  lemma LeavesIff(disks: Disks, head: DiskName, name: DiskName)
    ensures Leaves(disks, head, name) <==>
            name in disks && (ChildrenOf(disks, name) == {} || exists c :: c != head && ChildrenOf(disks, name) == {c})
  {
    var kids := ChildrenOf(disks, name);
    if Leaves(disks, head, name) && kids != {} {
      var c :| c in kids;
      OnlyOne(kids, c);
    }
  }

  /** What any part of a purge keeps: the head and the disks not marked removed have their images, the head its file,
      the marks stay, and exactly the files of the disks that are gone are gone. */
  ghost predicate PurgedTo(d0: Disks, s0: Store, d1: Disks, s1: Store, base: seq<DiskName>, head: DiskName, size: nat) {
    && LiveKept(d0, s0, d1, s1, base, head) && TopKept(s0, s1, head, size)
    && (forall n | n in d1 :: n in d0 && d1[n].removed == d0[n].removed)
    && s1.Keys == s0.Keys - (d0.Keys - d1.Keys)
  }

  lemma PurgedNothing(d: Disks, s: Store, base: seq<DiskName>, active: seq<DiskName>, files: seq<Layer>, head: DiskName,
                      size: nat)
    requires Rooted(d) && FilesOk(d, base, active, s, files) && head in d
    ensures PurgedTo(d, s, d, s, base, head, size)
  {
    AllReflexive(d, base, active, s, files, head);
    FilesStored(d, base, active, s, files);
    TopSame(s, head, size);
  }

  lemma PurgedStep(d0: Disks, s0: Store, d1: Disks, s1: Store, d2: Disks, s2: Store, base: seq<DiskName>,
                   head: DiskName, size: nat, x: DiskName)
    requires Rooted(d1) && d1.Keys <= s1.Keys && PurgedTo(d0, s0, d1, s1, base, head, size)
    requires OthersKept(d1, s1, d2, s2, base, x) && TopKept(s1, s2, head, size) && !Refused(d1, head, x)
    requires Executed(d1, s1, d2, s2, head, x)
    requires forall n | n in d2 :: n in d1 && d2[n].removed == d1[n].removed
    ensures PurgedTo(d0, s0, d2, s2, base, head, size)
  {
    hide Executed, OthersKept, LiveKept, TopKept, Rooted;
    LiveStep(d0, s0, d1, s1, d2, s2, base, head, x);
    TopTransitive(s0, s1, s2, head, size);
    ExecutedKeys(d1, s1, d2, s2, head, x);
  }

  // ----- the whole purge -----

  /** A disk that a purge has nothing to do for: the head, one that is not marked removed, or one that cannot go because
      it has several children or lies directly under the head. */
  predicate Final(d: Disks, head: DiskName, n: DiskName)
    requires n in d
  {
    n == head || !d[n].removed || |ChildrenOf(d, n)| > 1 || ChildrenOf(d, n) == {head}
  }

  /** `n` is on the way from `l` to the root. */
  ghost predicate Above(d: Disks, n: DiskName, l: DiskName) {
    exists p :: IsPath(d, l, p) && n in p
  }

  ghost predicate AboveSome(d: Disks, n: DiskName, todo: set<DiskName>) {
    exists l :: l in todo && Above(d, n, l)
  }

  /** The leaves still to be traced are leaves of the tree. */
  ghost predicate LeavesLeft(d: Disks, todo: set<DiskName>) {
    forall l | l in todo :: l in d && ChildrenOf(d, l) == {}
  }

  /** `latest`, once found, is the disk directly under the head. */
  ghost predicate LatestOk(d: Disks, head: DiskName, latest: DiskName) {
    && head in d && (latest != NoDisk ==> latest in d && d[latest].removed && d[head].parent == latest)
  }

  /** The disk under the head has been found if it is marked removed, or is still to come: on the rest `q` of the trace
      or with the head's own trace. */
  ghost predicate LatestFound(d: Disks, head: DiskName, latest: DiskName, q: seq<DiskName>, todo: set<DiskName>)
    requires head in d
  {
    var x := d[head].parent;
    x in d && d[x].removed ==> latest == x || x in q || head in todo
  }

  /** Every disk is final, or kept for the end, or still to be met: on the rest `q` of the trace or above a leaf still
      to be traced. */
  ghost predicate Covered(d: Disks, head: DiskName, latest: DiskName, q: seq<DiskName>, todo: set<DiskName>) {
    forall n | n in d :: Final(d, head, n) || n == latest || n in q || AboveSome(d, n, todo)
  }

  /** The state of a trace whose rest is `q`; `info` is the tree as it was when the trace began. */
  ghost predicate Tracing(d: Disks, info: Disks, head: DiskName, latest: DiskName, q: seq<DiskName>,
                          todo: set<DiskName>) {
    && Rooted(d) && LatestOk(d, head, latest) && LatestFound(d, head, latest, q, todo)
    && Covered(d, head, latest, q, todo) && LeavesLeft(d, todo) && (forall m | m in q :: m !in todo)
    && (q != [] ==> IsPath(d, q[|q| - 1], q) && IsPath(info, q[|q| - 1], q))
    && (forall n | n in d :: n in info && info[n].removed == d[n].removed)
    && d[head].parent == info[head].parent
  }

  lemma TraceStart(d: Disks, head: DiskName, latest: DiskName, todo: set<DiskName>, l: DiskName, p: seq<DiskName>)
    requires Rooted(d) && LatestOk(d, head, latest) && LatestFound(d, head, latest, [], todo)
    requires Covered(d, head, latest, [], todo) && LeavesLeft(d, todo) && l in todo && IsPath(d, l, p)
    ensures Tracing(d, d, head, latest, p, todo - {l})
  {
    forall n | n in d && AboveSome(d, n, todo) ensures n in p || AboveSome(d, n, todo - {l}) {
      var k :| k in todo && Above(d, n, k);
      if k == l {
        var q :| IsPath(d, l, q) && n in q;
        PathUnique(d, l, p, q);
      }
    }
    forall m | m in p ensures m !in todo - {l} {
      if m in todo {
        LeafIsLast(d, l, p, m);
      }
    }
    if l == head {
      PathLinks(d, l, p, |p| - 1);
    }
  }

  lemma TraceEnd(d: Disks, info: Disks, head: DiskName, latest: DiskName, todo: set<DiskName>)
    requires Tracing(d, info, head, latest, [], todo)
    ensures Between(d, head, latest, todo)
  {
  }

  /** A step of the trace past a disk that stays in the tree. */
  lemma TracePass(d: Disks, info: Disks, head: DiskName, latest: DiskName, q: seq<DiskName>, todo: set<DiskName>,
                  latest': DiskName)
    requires Tracing(d, info, head, latest, q, todo) && q != [] && LatestOk(d, head, latest')
    requires latest' == latest || latest == NoDisk
    requires var cur := q[|q| - 1];
             && cur in d && (Final(d, head, cur) || cur == latest')
             && (cur == d[head].parent && d[cur].removed ==> latest' == cur)
    ensures Tracing(d, info, head, latest', q[..|q| - 1], todo)
    ensures var cur := q[|q| - 1];
            cur in info && info[cur].parent == if |q| == 1 then NoDisk else q[|q| - 2]
  {
    var cur, q' := q[|q| - 1], q[..|q| - 1];
    assert q == q' + [cur];
    PathLinks(info, cur, q, |q| - 1);
    if q' != [] {
      PathLinks(d, cur, q, |q| - 1);
    }
    hide Final, AboveSome;
    forall n | n in d ensures Final(d, head, n) || n == latest' || n in q' || AboveSome(d, n, todo) {
      assert NoDisk !in d by { NoEmptyName(d); }
    }
  }

  lemma NoEmptyName(d: Disks)
    requires Rooted(d)
    ensures NoDisk !in d
  {
  }

  /** A step of the trace that takes the disk out of the tree. */
  lemma TraceRemove(d: Disks, info: Disks, head: DiskName, latest: DiskName, q: seq<DiskName>, todo: set<DiskName>)
    requires Tracing(d, info, head, latest, q, todo) && q != []
    requires var cur := q[|q| - 1]; cur != head && Leaves(d, head, cur)
    ensures Tracing(WithoutNode(d, q[|q| - 1]), info, head, latest, q[..|q| - 1], todo)
    ensures var cur := q[|q| - 1];
            cur in info && info[cur].parent == if |q| == 1 then NoDisk else q[|q| - 2]
  {
    var x, q' := q[|q| - 1], q[..|q| - 1];
    var d' := WithoutNode(d, x);
    assert q == q' + [x];
    NodesLeft(d, x);
    MarksKept(d, x);
    HeadParentStays(d, head, x);
    hide IsPath, Covered, LeavesLeft, Rooted, Leaves, WithoutNode;
    RestOfPath(d, info, q);
    RemovalRooted(d, x);
    RemovalCovered(d, head, latest, q, todo);
    LeavesStay(d, x, todo);
    assert LatestOk(d', head, latest) && LatestFound(d', head, latest, q', todo);
  }

  lemma RestOfPath(d: Disks, info: Disks, q: seq<DiskName>)
    requires q != [] && IsPath(d, q[|q| - 1], q) && IsPath(info, q[|q| - 1], q)
    ensures var x, q' := q[|q| - 1], q[..|q| - 1];
            && x in d && x in info && info[x].parent == (if |q| == 1 then NoDisk else q[|q| - 2])
            && (q' != [] ==> IsPath(WithoutNode(d, x), q'[|q'| - 1], q') && IsPath(info, q'[|q'| - 1], q'))
  {
    var x, q' := q[|q| - 1], q[..|q| - 1];
    PathLinks(info, x, q, |q| - 1);
    PathNotSelf(d, x, q);
    if q' != [] {
      PathLinks(d, x, q, |q| - 1);
      assert q[|q| - 2] in q';
      RemovalPaths(d, x, q[|q| - 2], q');
      DropNothing(q', x);
    }
  }

  /** A step of the trace: the disk is removed or stays as it is. */
  lemma TraceStep(d: Disks, info: Disks, head: DiskName, latest: DiskName, q: seq<DiskName>, todo: set<DiskName>)
    requires Tracing(d, info, head, latest, q, todo) && q != []
    requires var cur := q[|q| - 1];
             cur in info && cur != head && info[cur].removed && (latest != NoDisk || head !in ChildrenOf(info, cur))
    ensures var cur := q[|q| - 1];
            && cur in d && cur in info && info[cur].parent == (if |q| == 1 then NoDisk else q[|q| - 2])
            && Tracing(if Leaves(d, head, cur) then WithoutNode(d, cur) else d, info, head, latest, q[..|q| - 1], todo)
  {
    TraceFacts(d, info, head, latest, q, todo);
    var cur := q[|q| - 1];
    if Leaves(d, head, cur) {
      TraceRemove(d, info, head, latest, q, todo);
    } else {
      assert head in ChildrenOf(info, cur) <==> info[head].parent == cur;
      TracePass(d, info, head, latest, q, todo, latest);
    }
  }

  lemma TraceFacts(d: Disks, info: Disks, head: DiskName, latest: DiskName, q: seq<DiskName>, todo: set<DiskName>)
    requires Tracing(d, info, head, latest, q, todo) && q != []
    ensures var cur := q[|q| - 1];
            && cur in d && cur in info && cur != NoDisk && info[cur].removed == d[cur].removed
            && head in d && head in info && info[head].parent == d[head].parent && LatestOk(d, head, latest)
  {
  }

  lemma NodesLeft(d: Disks, x: DiskName)
    requires x in d
    ensures WithoutNode(d, x).Keys == d.Keys - {x}
  {
  }

  lemma RemovalRooted(d: Disks, x: DiskName)
    requires Rooted(d) && x in d
    ensures Rooted(WithoutNode(d, x))
  {
    NoEmptyName(d);
    forall n | n in WithoutNode(d, x) ensures exists p :: IsPath(WithoutNode(d, x), n, p) {
      var p :| IsPath(d, n, p);
      RemovalPaths(d, x, n, p);
    }
  }

  lemma HeadParentStays(d: Disks, head: DiskName, x: DiskName)
    requires head in d && head != x && Leaves(d, head, x)
    ensures head in WithoutNode(d, x) && WithoutNode(d, x)[head] == d[head] && d[head].parent != x
  {
    LeavesIff(d, head, x);
    assert head in ChildrenOf(d, x) <==> d[head].parent == x;
  }

  /** Only the parent of the removed disk gets other children. */
  lemma OtherChildren(d: Disks, x: DiskName, n: DiskName)
    requires x in d && n != x && n != d[x].parent
    ensures ChildrenOf(WithoutNode(d, x), n) == ChildrenOf(d, n)
  {
  }

  lemma LeavesStay(d: Disks, x: DiskName, todo: set<DiskName>)
    requires LeavesLeft(d, todo) && x in d && x !in todo
    ensures LeavesLeft(WithoutNode(d, x), todo)
  {
    forall l | l in todo ensures l in WithoutNode(d, x) && ChildrenOf(WithoutNode(d, x), l) == {} {
      assert x in ChildrenOf(d, d[x].parent);
      OtherChildren(d, x, l);
    }
  }

  lemma AboveStays(d: Disks, x: DiskName, n: DiskName, l: DiskName)
    requires x in d && x != NoDisk && n != x && l != x && Above(d, n, l)
    ensures Above(WithoutNode(d, x), n, l)
  {
    var p :| IsPath(d, l, p) && n in p;
    RemovalPaths(d, x, l, p);
    DropKeeps(p, x, n);
  }

  lemma {:induction false} DropKeeps(p: seq<DiskName>, x: DiskName, n: DiskName)
    requires n in p && n != x
    ensures n in Drop(p, x)
  {
    if p[|p| - 1] != n {
      assert n in p[..|p| - 1];
      DropKeeps(p[..|p| - 1], x, n);
    }
  }

  lemma RemovalCovered(d: Disks, head: DiskName, latest: DiskName, q: seq<DiskName>, todo: set<DiskName>)
    requires Rooted(d) && Covered(d, head, latest, q, todo) && q != [] && IsPath(d, q[|q| - 1], q)
    requires (forall m | m in q :: m !in todo)
    ensures Covered(WithoutNode(d, q[|q| - 1]), head, latest, q[..|q| - 1], todo)
  {
    var x, q' := q[|q| - 1], q[..|q| - 1];
    var d' := WithoutNode(d, x);
    assert q == q' + [x];
    PathLinks(d, x, q, |q| - 1);
    forall n | n in d' ensures Final(d', head, n) || n == latest || n in q' || AboveSome(d', n, todo) {
      if n !in q' && AboveSome(d, n, todo) {
        var l :| l in todo && Above(d, n, l);
        AboveStays(d, x, n, l);
      } else if n !in q' {
        OtherChildren(d, x, n);
      }
    }
  }

  /** With every leaf traced, every disk is final, the one under the head too. */
  lemma AllFinal(d: Disks, head: DiskName, latest: DiskName)
    requires Rooted(d) && LatestOk(d, head, latest) && Covered(d, head, latest, [], {})
    ensures forall n | n in d :: Final(d, head, n)
  {
    NoEmptyName(d);
    if latest != NoDisk {
      var kids := ChildrenOf(d, latest);
      assert head in kids;
      if |kids| == 1 {
        OnlyOne(kids, head);
      }
    }
  }

  /** Every disk lies above a leaf. */
  lemma {:induction false} LeafBelow(d: Disks, n: DiskName) returns (l: DiskName, p: seq<DiskName>)
    requires Rooted(d) && n in d
    ensures l in d && ChildrenOf(d, l) == {} && IsPath(d, l, p) && n in p
  {
    p :| IsPath(d, n, p);
    l := n;
    while ChildrenOf(d, l) != {}
      invariant l in d && IsPath(d, l, p) && n in p
      decreases |d.Keys| - |p|
    {
      var c :| c in ChildrenOf(d, l);
      PathInDisks(d, l, p);
      assert (p + [c])[..|p|] == p;
      p, l := p + [c], c;
      PathShort(d, l, p);
    }
  }

  lemma PathShort(d: Disks, l: DiskName, p: seq<DiskName>)
    requires IsPath(d, l, p)
    ensures |p| <= |d.Keys|
  {
    var s := set m | m in p;
    PathInDisks(d, l, p);
    assert s <= d.Keys;
    forall i, j | 0 <= i < j < |p| ensures p[i] != p[j] {
      if p[i] == p[j] { PathDistinct(d, l, p, i, j); }
    }
    DistinctSize(p, s);
    SubsetSmaller(s, d.Keys);
  }

  lemma {:induction false} DistinctSize(p: seq<DiskName>, s: set<DiskName>)
    requires s == (set m | m in p) && forall i, j | 0 <= i < j < |p| :: p[i] != p[j]
    ensures |s| == |p|
  {
    if p != [] {
      var q := p[..|p| - 1];
      assert p == q + [p[|p| - 1]];
      DistinctSize(q, set m | m in q);
      assert s == (set m | m in q) + {p[|p| - 1]};
    }
  }

  lemma SubsetSmaller(s: set<DiskName>, t: set<DiskName>)
    requires s <= t
    ensures |s| <= |t|
  {
    assert t == s + (t - s);
  }

  /** Between two traces. */
  ghost predicate Between(d: Disks, head: DiskName, latest: DiskName, todo: set<DiskName>) {
    && LatestOk(d, head, latest) && LatestFound(d, head, latest, [], todo)
    && Covered(d, head, latest, [], todo) && LeavesLeft(d, todo)
  }

  /** The tree once the disks in `system` are marked removed. */
  function Marked(disks: Disks, head: DiskName, system: set<DiskName>): Disks {
    map n | n in disks :: if n in system && n != head then Disk(disks[n].parent, true) else disks[n]
  }

  lemma MarkedStart(d: Disks, head: DiskName, system: set<DiskName>)
    ensures Marked(d, head, system - d.Keys) == d && Marked(d, head, system).Keys == d.Keys
  {
  }

  lemma MarkedStep(d: Disks, head: DiskName, system: set<DiskName>, todo: set<DiskName>, n: DiskName)
    requires n in todo && n in d
    ensures var m, m' := Marked(d, head, system - todo), Marked(d, head, system - (todo - {n}));
            && m.Keys == d.Keys
            && m' == if n != head && n in system && !m[n].removed then m[n := Disk(m[n].parent, true)] else m
  {
  }

  /** To begin with, every leaf is to be traced. */
  lemma BetweenStart(d: Disks, head: DiskName, leaves: set<DiskName>)
    requires Rooted(d) && head in d && ChildrenOf(d, head) == {}
    requires leaves == set n | n in d && ChildrenOf(d, n) == {}
    ensures Between(d, head, NoDisk, leaves)
  {
    forall n | n in d ensures AboveSome(d, n, leaves) {
      var l, p := LeafBelow(d, n);
      assert Above(d, n, l);
    }
  }

  lemma MarkedLeaves(d: Disks, head: DiskName, system: set<DiskName>)
    ensures forall n :: ChildrenOf(Marked(d, head, system), n) == ChildrenOf(d, n)
  {
  }

  /** The disk under the head is pruned of what the head holds, if it is marked removed and has no other child. */
  ghost predicate TopPruned(d: Disks, store: Store, head: DiskName) {
    head in d &&
    var x := d[head].parent;
    x in d && d[x].removed && ChildrenOf(d, x) == {head} ==>
      x in store && head in store && store[x].data.Keys !! store[head].data.Keys
  }

  /** With every leaf traced: all disks are final, and the last step leaves the tree as it is. */
  lemma LastStep(d: Disks, head: DiskName, latest: DiskName)
    requires Rooted(d) && Between(d, head, latest, {})
    ensures forall n | n in d :: Final(d, head, n)
    ensures latest != NoDisk ==> latest in d && latest != head && d[latest].removed && !Leaves(d, head, latest)
  {
    AllFinal(d, head, latest);
    if latest != NoDisk {
      assert head in ChildrenOf(d, latest);
      var p :| IsPath(d, head, p);
      PathNotSelf(d, head, p);
    }
  }

  lemma LastPruned(d: Disks, store: Store, store': Store, head: DiskName, latest: DiskName)
    requires Rooted(d) && Between(d, head, latest, {}) && d.Keys <= store.Keys
    requires if latest == NoDisk then store' == store else Executed(d, store, d, store', head, latest)
    ensures TopPruned(d, store', head)
  {
    LastStep(d, head, latest);
    NoEmptyName(d);
    if latest != NoDisk && ChildrenOf(d, latest) == {head} {
      assert |ChildrenOf(d, latest)| == 1;
    }
  }

  lemma SameMarks(d0: Disks, s0: Store, d1: Disks, s1: Store, base: seq<DiskName>, head: DiskName, size: nat)
    requires PurgedTo(d0, s0, d1, s1, base, head, size) && head in d0
    ensures head in d1 && d1[head].removed == d0[head].removed
  {
  }

  lemma MarkedHead(d: Disks, head: DiskName, system: set<DiskName>)
    requires head in d
    ensures head in Marked(d, head, system) && Marked(d, head, system)[head] == d[head]
    ensures Marked(d, head, system).Keys == d.Keys
  {
  }

  /** Marking changes no image. */
  lemma MarkedKeeps(d: Disks, s0: Store, d1: Disks, s1: Store, base: seq<DiskName>, head: DiskName, size: nat,
                    system: set<DiskName>)
    requires PurgedTo(Marked(d, head, system), s0, d1, s1, base, head, size)
    ensures forall n | n in d && (n == head || (!d[n].removed && n !in system)) ::
              n in d1 && KeepsImage(d, s0, d1, s1, base, n, n)
  {
    hide TopKept, SameImage, LayersOf;
    var m := Marked(d, head, system);
    forall n, p | n in d && IsPath(d, n, p) ensures IsPath(m, n, p) {
      PathInDisks(d, n, p);
      PathFrame(d, m, n, p);
    }
    hide IsPath;
    forall n | n in d && (n == head || (!d[n].removed && n !in system))
      ensures n in d1 && KeepsImage(d, s0, d1, s1, base, n, n)
    {
      assert n in m && m[n] == d[n] && KeepsImage(m, s0, d1, s1, base, n, n);
    }
  }
}

/** Creating a disk and reverting, step by step on the directory of a replica: what a crash after any
    step leaves for the next open, and what the rollback of a failed step restores.
 */
module DiskSteps {
  import opened Layers
  import opened SnapshotTree
  import opened LiveChains

  datatype Path =
    | VolumeMeta
    | VolumeTmp
    | Img(name: DiskName)
    | Meta(name: DiskName)
    | MetaTmp(name: DiskName)
    | Checksum(name: DiskName)

  datatype Info = Info(head: DiskName, parent: DiskName, size: nat)

  /** File contents.  `Partial` is a file that is being written or whose contents are never parsed. */
  datatype Content = ImgFile(layer: Layer) | MetaFile(disk: Disk) | VolFile(info: Info) | Partial

  type FS = map<Path, Content>

  datatype Op =
    | Put(path: Path, content: Content)
    | Rename(from: Path, to: Path)
    | Link(from: Path, to: Path)
    | Delete(path: Path)
    | InMemory

  function Step(fs: FS, op: Op): FS {
    match op
    case Put(p, c) => fs[p := c]
    case Rename(a, b) => if a in fs then (fs - {a})[b := fs[a]] else fs
    case Link(a, b) => if a in fs && b !in fs then fs[b := fs[a]] else fs
    case Delete(p) => fs - {p}
    case InMemory => fs
  }

  // ----- opening from disk -----

  /** The disks the metadata files describe. */
  function DisksOf(fs: FS): Disks {
    map p | p in fs && p.Meta? && fs[p].MetaFile? :: p.name := fs[p].disk
  }

  ghost predicate HasImages(fs: FS, p: seq<DiskName>) {
    forall m | m in p :: Img(m) in fs && fs[Img(m)].ImgFile?
  }

  ghost function ImagesOf(fs: FS, p: seq<DiskName>): (ls: seq<Layer>)
    requires HasImages(fs, p)
    ensures |ls| == |p| && forall i | 0 <= i < |p| :: ls[i] == fs[Img(p[i])].layer
  {
    seq(|p|, i requires 0 <= i < |p| => fs[Img(p[i])].layer)
  }

  /** Opening the directory succeeds: the head has a path, of no more disks than a live chain may have.  Over the
      backing layers `base` it then shows `image`. */
  ghost predicate Reopens(fs: FS, base: seq<Layer>, image: seq<Layer>) {
    && VolumeMeta in fs && fs[VolumeMeta].VolFile?
    && exists p :: OpensAs(fs, base, image, p)
  }

  ghost predicate OpensAs(fs: FS, base: seq<Layer>, image: seq<Layer>, p: seq<DiskName>)
    requires VolumeMeta in fs && fs[VolumeMeta].VolFile?
  {
    && IsPath(DisksOf(fs), fs[VolumeMeta].info.head, p) && |p| <= MAX_CHAIN
    && HasImages(fs, p) && SameImage(base + ImagesOf(fs, p), image)
  }

  /** The head has one path, so its length decides. */
  lemma ReopensIff(fs: FS, base: seq<Layer>, image: seq<Layer>, p: seq<DiskName>)
    requires VolumeMeta in fs && fs[VolumeMeta].VolFile? && IsPath(DisksOf(fs), fs[VolumeMeta].info.head, p)
    requires HasImages(fs, p) && SameImage(base + ImagesOf(fs, p), image)
    ensures Reopens(fs, base, image) <==> |p| <= MAX_CHAIN
  {
    if |p| <= MAX_CHAIN {
      assert OpensAs(fs, base, image, p);
    }
    if Reopens(fs, base, image) {
      var q :| OpensAs(fs, base, image, q);
      PathUnique(DisksOf(fs), fs[VolumeMeta].info.head, p, q);
    }
  }

  /** A directory with a consistent head: what the operations start from. */
  ghost predicate Consistent(fs: FS, info: Info, p: seq<DiskName>) {
    && VolumeMeta in fs && fs[VolumeMeta] == VolFile(info)
    && info.head in DisksOf(fs) && ChildrenOf(DisksOf(fs), info.head) == {}
    && IsPath(DisksOf(fs), info.head, p) && HasImages(fs, p)
  }

  lemma SamePath(fs: FS, fs': FS, n: DiskName, p: seq<DiskName>)
    requires IsPath(DisksOf(fs), n, p)
    requires forall m | m in p :: Meta(m) in fs && Meta(m) in fs' && fs'[Meta(m)] == fs[Meta(m)]
    ensures IsPath(DisksOf(fs'), n, p)
  {
    PathInDisks(DisksOf(fs), n, p);
    forall m | m in p ensures m in DisksOf(fs) && m in DisksOf(fs') && DisksOf(fs')[m].parent == DisksOf(fs)[m].parent {
      assert Meta(m).name == m;
    }
    PathFrame(DisksOf(fs), DisksOf(fs'), n, p);
  }

  // ----- createDisk on a replica that has a head -----

  datatype Plan = Plan(old': DiskName, oldDisk: Disk, snap: DiskName, newHead: DiskName, info: Info, newSize: nat) {
    function NewInfo(): Info { Info(newHead, snap, newSize) }
  }

  /** The steps in order: 0-4 new head, 5-9 link the head to the snapshot, 10-12 volume metadata,
      13 memory, 14-16 snapshot metadata, 17 memory, 18-20 delete the old head. */
  function CreateOp(c: Plan, k: nat): Op {
    if k == 0 then Put(Img(c.newHead), ImgFile(Layer(0, map[])))
    else if k == 1 then Put(Img(c.newHead), ImgFile(Layer(c.newSize, map[])))
    else if k == 2 then Put(MetaTmp(c.newHead), Partial)
    else if k == 3 then Put(MetaTmp(c.newHead), MetaFile(Disk(c.snap, false)))
    else if k == 4 then Rename(MetaTmp(c.newHead), Meta(c.newHead))
    else if k == 5 then Delete(Meta(c.snap))
    else if k == 6 then Delete(Checksum(c.snap))
    else if k == 7 then Delete(Img(c.snap))
    else if k == 8 then Link(Img(c.old'), Img(c.snap))
    else if k == 9 then Link(Meta(c.old'), Meta(c.snap))
    else if k == 10 then Put(VolumeTmp, Partial)
    else if k == 11 then Put(VolumeTmp, VolFile(c.NewInfo()))
    else if k == 12 then Rename(VolumeTmp, VolumeMeta)
    else if k == 14 then Put(MetaTmp(c.snap), Partial)
    else if k == 15 then Put(MetaTmp(c.snap), MetaFile(c.oldDisk))
    else if k == 16 then Rename(MetaTmp(c.snap), Meta(c.snap))
    else if k == 18 then Delete(Img(c.old'))
    else if k == 19 then Delete(Meta(c.old'))
    else if k == 20 then Delete(Checksum(c.old'))
    else InMemory
  }

  /** The directory after the first `k` steps. */
  function Created(fs: FS, c: Plan, k: nat): FS {
    if k == 0 then fs else Step(Created(fs, c, k - 1), CreateOp(c, k - 1))
  }

  /** What the plan of a snapshot or an expansion is made from. */
  ghost predicate CreateReady(fs: FS, c: Plan, p: seq<DiskName>) {
    && Consistent(fs, c.info, p) && c.old' == c.info.head
    && c.oldDisk == DisksOf(fs)[c.old']
    && c.old'.Head? && c.newHead.Head? && c.snap.Snapshot? && c.newHead != c.old'
    && c.snap !in DisksOf(fs) && c.newHead !in DisksOf(fs)
    && Meta(c.old') in fs && fs[Meta(c.old')] == MetaFile(c.oldDisk)
  }

  /** The files the forward steps create besides the volume metadata. */
  predicate Scratch(c: Plan, p: Path) {
    p == VolumeTmp || (!p.VolumeMeta? && !p.VolumeTmp? && (p.name == c.newHead || p.name == c.snap))
  }

  ghost predicate SameAt(a: FS, b: FS, p: Path) {
    (p in a <==> p in b) && (p in a ==> a[p] == b[p])
  }

  /** The files that are not the plan's own stay as they were, until the old head is removed. */
  ghost predicate Untouched(fs: FS, g: FS, c: Plan, k: nat) {
    forall p: Path | p != VolumeMeta && !Scratch(c, p) && (k <= 18 || p.name != c.old' || (k == 19 && p.Meta?)) ::
      SameAt(fs, g, p)
  }

  /** Everything that later steps and a reopen rely on, after `k` steps. */
  ghost predicate CreateInv(fs: FS, g: FS, c: Plan, k: nat)
    requires Img(c.old') in fs
  {
    && Untouched(fs, g, c, k) && (k >= 20 ==> Meta(c.old') !in g)
    && VolumeAt(fs, g, c, k) && NewHeadAt(g, c, k) && SnapshotAt(fs, g, c, k)
  }

  ghost predicate VolumeAt(fs: FS, g: FS, c: Plan, k: nat) {
    && (k <= 12 ==> SameAt(fs, g, VolumeMeta))
    && (k > 12 ==> VolumeMeta in g && g[VolumeMeta] == VolFile(c.NewInfo()))
    && (k == 12 ==> VolumeTmp in g && g[VolumeTmp] == VolFile(c.NewInfo()))
  }

  ghost predicate NewHeadAt(g: FS, c: Plan, k: nat) {
    && (k >= 2 ==> Img(c.newHead) in g && g[Img(c.newHead)] == ImgFile(Layer(c.newSize, map[])))
    && (k == 4 ==> MetaTmp(c.newHead) in g && g[MetaTmp(c.newHead)] == MetaFile(Disk(c.snap, false)))
    && (k >= 5 ==> Meta(c.newHead) in g && g[Meta(c.newHead)] == MetaFile(Disk(c.snap, false)))
  }

  ghost predicate SnapshotAt(fs: FS, g: FS, c: Plan, k: nat)
    requires Img(c.old') in fs
  {
    && (6 <= k <= 9 ==> Meta(c.snap) !in g) && (k == 8 ==> Img(c.snap) !in g)
    && (k >= 9 ==> Img(c.snap) in g && g[Img(c.snap)] == fs[Img(c.old')])
    && (k >= 10 ==> Meta(c.snap) in g && g[Meta(c.snap)] == MetaFile(c.oldDisk))
    && (k == 16 ==> MetaTmp(c.snap) in g && g[MetaTmp(c.snap)] == MetaFile(c.oldDisk))
  }

  lemma {:induction false} CreateKeeps(fs: FS, c: Plan, p: seq<DiskName>, k: nat)
    requires CreateReady(fs, c, p)
    ensures Img(c.old') in fs && CreateInv(fs, Created(fs, c, k), c, k)
  {
    assert p[|p| - 1] == c.old';
    if k > 0 {
      CreateKeeps(fs, c, p, k - 1);
      CreateStep(fs, Created(fs, c, k - 1), c, k - 1);
    }
  }

  lemma UntouchedStep(fs: FS, g: FS, c: Plan, k: nat)
    requires Untouched(fs, g, c, k)
    ensures Untouched(fs, Step(g, CreateOp(c, k)), c, k + 1)
  {
  }

  lemma VolumeStep(fs: FS, g: FS, c: Plan, k: nat)
    requires VolumeAt(fs, g, c, k)
    ensures VolumeAt(fs, Step(g, CreateOp(c, k)), c, k + 1)
  {
  }

  lemma NewHeadStep(g: FS, c: Plan, k: nat)
    requires NewHeadAt(g, c, k) && c.newHead != c.old' && c.newHead != c.snap
    ensures NewHeadAt(Step(g, CreateOp(c, k)), c, k + 1)
  {
  }

  lemma SnapshotFileStep(fs: FS, g: FS, c: Plan, k: nat)
    requires Img(c.old') in fs && SnapshotAt(fs, g, c, k) && c.snap != c.old' && c.newHead != c.snap
    requires Meta(c.old') in fs && fs[Meta(c.old')] == MetaFile(c.oldDisk)
    requires k <= 18 ==> SameAt(fs, g, Img(c.old')) && SameAt(fs, g, Meta(c.old'))
    ensures SnapshotAt(fs, Step(g, CreateOp(c, k)), c, k + 1)
  {
  }

  lemma OldMetaStep(g: FS, c: Plan, k: nat)
    requires (k >= 20 ==> Meta(c.old') !in g) && c.old' != c.newHead && c.old' != c.snap
    ensures k >= 19 ==> Meta(c.old') !in Step(g, CreateOp(c, k))
  {
  }

  lemma CreateStep(fs: FS, g: FS, c: Plan, k: nat)
    requires Img(c.old') in fs && CreateInv(fs, g, c, k) && Meta(c.old') in fs
    requires fs[Meta(c.old')] == MetaFile(c.oldDisk)
    requires c.old'.Head? && c.newHead.Head? && c.snap.Snapshot? && c.newHead != c.old'
    ensures CreateInv(fs, Step(g, CreateOp(c, k)), c, k + 1)
  {
    hide Step, CreateOp, VolumeAt, NewHeadAt, SnapshotAt;
    UntouchedStep(fs, g, c, k);
    assert k <= 18 ==> SameAt(fs, g, Img(c.old')) && SameAt(fs, g, Meta(c.old'));
    VolumeStep(fs, g, c, k);
    NewHeadStep(g, c, k);
    SnapshotFileStep(fs, g, c, k);
    OldMetaStep(g, c, k);
  }

  /** Crash safety of a snapshot or expansion: after any number of its steps the directory opens, and the head
      shows what it showed before, if and only if the chain, which has one disk more once the volume metadata is
      replaced, is not too long. */
  lemma CreateCrashSafe(fs: FS, c: Plan, p: seq<DiskName>, k: nat, base: seq<Layer>)
    requires CreateReady(fs, c, p)
    ensures Reopens(Created(fs, c, k), base, base + ImagesOf(fs, p))
            <==> |p| <= if k <= 12 then MAX_CHAIN else MAX_CHAIN - 1
  {
    hide Created, CreateOp, DisksOf, IsPath, ImagesOf, Reopens;
    var g := Created(fs, c, k);
    CreateKeeps(fs, c, p, k);
    ChainNames(fs, c, p);
    if k <= 12 {
      OldHeadStays(fs, g, c, p, k, base);
    } else {
      NewHeadOpens(fs, g, c, p, base);
    }
  }

  lemma ChainNames(fs: FS, c: Plan, p: seq<DiskName>)
    requires CreateReady(fs, c, p)
    ensures forall m | m in p :: m != c.snap && m != c.newHead && Meta(m) in fs
    ensures p == p[..|p| - 1] + [c.old'] && c.old' !in p[..|p| - 1]
  {
    PathInDisks(DisksOf(fs), c.old', p);
    PathNotSelf(DisksOf(fs), c.old', p);
  }

  lemma OldHeadStays(fs: FS, g: FS, c: Plan, p: seq<DiskName>, k: nat, base: seq<Layer>)
    requires CreateReady(fs, c, p) && Img(c.old') in fs && CreateInv(fs, g, c, k) && k <= 12
    requires forall m | m in p :: m != c.snap && m != c.newHead && Meta(m) in fs
    ensures Reopens(g, base, base + ImagesOf(fs, p)) <==> |p| <= MAX_CHAIN
  {
    forall m | m in p ensures SameAt(fs, g, Meta(m)) && SameAt(fs, g, Img(m)) {
    }
    SamePath(fs, g, c.old', p);
    assert ImagesOf(g, p) == ImagesOf(fs, p);
    ReopensIff(g, base, base + ImagesOf(fs, p), p);
  }

  /** The directory once the volume metadata names the new head. */
  ghost predicate HeadMoved(fs: FS, g: FS, c: Plan)
    requires Img(c.old') in fs
  {
    && VolumeMeta in g && g[VolumeMeta] == VolFile(c.NewInfo())
    && Img(c.newHead) in g && g[Img(c.newHead)] == ImgFile(Layer(c.newSize, map[]))
    && Meta(c.newHead) in g && g[Meta(c.newHead)] == MetaFile(Disk(c.snap, false))
    && Img(c.snap) in g && g[Img(c.snap)] == fs[Img(c.old')]
    && Meta(c.snap) in g && g[Meta(c.snap)] == MetaFile(c.oldDisk)
    && forall m | m != c.old' && m != c.snap && m != c.newHead :: SameAt(fs, g, Meta(m)) && SameAt(fs, g, Img(m))
  }

  /** Its chain is the old one with the snapshot in the place of the old head and the empty new head
      on top. */
  lemma NewHeadOpens(fs: FS, g: FS, c: Plan, p: seq<DiskName>, base: seq<Layer>)
    requires CreateReady(fs, c, p) && Img(c.old') in fs && HeadMoved(fs, g, c)
    requires forall m | m in p :: m != c.snap && m != c.newHead && Meta(m) in fs
    requires p == p[..|p| - 1] + [c.old'] && c.old' !in p[..|p| - 1]
    ensures Reopens(g, base, base + ImagesOf(fs, p)) <==> |p| < MAX_CHAIN
  {
    hide IsPath;
    var p' := p[..|p| - 1] + [c.snap, c.newHead];
    CreatedPath(fs, g, c, p);
    CreatedImages(fs, g, c, p);
    var top := Layer(c.newSize, map[]);
    assert base + ImagesOf(g, p') == base + ImagesOf(fs, p) + [top];
    forall s: nat ensures SectorAt(base + ImagesOf(g, p'), s) == SectorAt(base + ImagesOf(fs, p), s) {
      SectorAtSnoc(base + ImagesOf(fs, p), top, s);
    }
    ReopensIff(g, base, base + ImagesOf(fs, p), p');
  }

  lemma CreatedImages(fs: FS, g: FS, c: Plan, p: seq<DiskName>)
    requires 0 < |p| && HasImages(fs, p) && Img(c.old') in fs && HeadMoved(fs, g, c)
    requires forall m | m in p :: m != c.snap && m != c.newHead
    requires p == p[..|p| - 1] + [c.old'] && c.old' !in p[..|p| - 1]
    ensures HasImages(g, p[..|p| - 1] + [c.snap, c.newHead])
    ensures ImagesOf(g, p[..|p| - 1] + [c.snap, c.newHead]) == ImagesOf(fs, p) + [Layer(c.newSize, map[])]
  {
    var q := p[..|p| - 1];
    assert c.old' in p;
    forall m | m in q ensures Img(m) in g && g[Img(m)] == fs[Img(m)] && g[Img(m)].ImgFile? {
      assert m in p && SameAt(fs, g, Img(m));
    }
  }

  lemma CreatedPath(fs: FS, g: FS, c: Plan, p: seq<DiskName>)
    requires IsPath(DisksOf(fs), c.old', p) && c.old' in DisksOf(fs) && c.oldDisk == DisksOf(fs)[c.old']
    requires Img(c.old') in fs && HeadMoved(fs, g, c) && c.snap != NoDisk && c.newHead != NoDisk
    requires forall m | m in p :: m != c.snap && m != c.newHead && Meta(m) in fs
    requires p == p[..|p| - 1] + [c.old'] && c.old' !in p[..|p| - 1]
    ensures IsPath(DisksOf(g), c.newHead, p[..|p| - 1] + [c.snap, c.newHead])
  {
    var q := p[..|p| - 1];
    var d, d' := DisksOf(fs), DisksOf(g);
    InDisks(g, c.snap);
    InDisks(g, c.newHead);
    if q != [] {
      forall m | m in q ensures Meta(m) in fs && Meta(m) in g && g[Meta(m)] == fs[Meta(m)] {
        assert m in p && SameAt(fs, g, Meta(m));
      }
      SamePath(fs, g, d[c.old'].parent, q);
    }
    assert (q + [c.snap])[..|q|] == q;
    assert IsPath(d', c.snap, q + [c.snap]);
    assert (q + [c.snap, c.newHead])[..|q| + 1] == q + [c.snap];
  }

  /** Completed, the steps leave on disk exactly the tree of the snapshot operation. */
  lemma CreatedTree(fs: FS, c: Plan, p: seq<DiskName>)
    requires CreateReady(fs, c, p)
    ensures DisksOf(Created(fs, c, 21)) == WithSnapshot(DisksOf(fs), c.old', c.snap, c.newHead)
  {
    hide Created, CreateOp, DisksOf, IsPath, HasImages, ChildrenOf;
    CreateKeeps(fs, c, p, 21);
    MovedTree(fs, Created(fs, c, 21), c);
  }

  lemma MovedTree(fs: FS, g: FS, c: Plan)
    requires Img(c.old') in fs && HeadMoved(fs, g, c) && Meta(c.old') !in g
    requires c.old' in DisksOf(fs) && c.oldDisk == DisksOf(fs)[c.old']
    requires c.old' != c.snap && c.old' != c.newHead && c.snap != c.newHead
    ensures DisksOf(g) == WithSnapshot(DisksOf(fs), c.old', c.snap, c.newHead)
  {
    hide DisksOf;
    var d := DisksOf(fs);
    forall n: DiskName
      ensures n in DisksOf(g) <==> n in WithSnapshot(d, c.old', c.snap, c.newHead)
      ensures n in DisksOf(g) ==> DisksOf(g)[n] == WithSnapshot(d, c.old', c.snap, c.newHead)[n]
    {
      InDisks(fs, n);
      InDisks(g, n);
    }
  }

  lemma InDisks(fs: FS, n: DiskName)
    ensures n in DisksOf(fs) <==> Meta(n) in fs && fs[Meta(n)].MetaFile?
    ensures n in DisksOf(fs) ==> DisksOf(fs)[n] == fs[Meta(n)].disk
  {
    assert Meta(n).name == n;
  }

  // ----- the whole directory after a snapshot -----

  /** The image files of the directory. */
  function StoreOf(fs: FS): Store {
    map p | p in fs && p.Img? && fs[p].ImgFile? :: p.name := fs[p].layer
  }

  lemma InStore(fs: FS, n: DiskName)
    ensures n in StoreOf(fs) <==> Img(n) in fs && fs[Img(n)].ImgFile?
    ensures n in StoreOf(fs) ==> StoreOf(fs)[n] == fs[Img(n)].layer
  {
    assert Img(n).name == n;
  }

  /** The directory that a snapshot is to leave: the old head is gone with its files, the snapshot has its image and
      metadata, the new head is empty, the volume names it, and every other file is as it was. */
  ghost predicate SnapshotDone(fs: FS, g: FS, c: Plan) {
    && OldHeadGone(fs, g, c)
    && (VolumeMeta in g && g[VolumeMeta] == VolFile(Info(c.newHead, c.snap, c.newSize)))
    && (Img(c.newHead) in g && g[Img(c.newHead)] == ImgFile(Layer(c.newSize, map[])))
    && (Meta(c.newHead) in g && g[Meta(c.newHead)] == MetaFile(Disk(c.snap, false)))
    && (Img(c.snap) in g && Img(c.old') in fs && g[Img(c.snap)] == fs[Img(c.old')])
    && (Meta(c.snap) in g && g[Meta(c.snap)] == MetaFile(c.oldDisk))
    && (forall n | n != c.old' && n != c.snap && n != c.newHead :: SameFiles(fs, g, n))
  }

  /** The old head's files and all temporary files are gone. */
  ghost predicate OldHeadGone(fs: FS, g: FS, c: Plan) {
    && (Img(c.old') !in g && Meta(c.old') !in g && Checksum(c.old') !in g && SameAt(fs, g, MetaTmp(c.old')))
    && (VolumeTmp !in g && MetaTmp(c.newHead) !in g && SameAt(fs, g, Checksum(c.newHead)))
    && (MetaTmp(c.snap) !in g && Checksum(c.snap) !in g)
  }

  ghost predicate SameFiles(fs: FS, g: FS, n: DiskName) {
    SameAt(fs, g, Img(n)) && SameAt(fs, g, Meta(n)) && SameAt(fs, g, MetaTmp(n)) && SameAt(fs, g, Checksum(n))
  }

  lemma CreatedNext(fs: FS, c: Plan, k: nat)
    ensures Created(fs, c, k + 1) == Step(Created(fs, c, k), CreateOp(c, k))
  {
  }

  /** The new head's files. */
  lemma FirstSteps(fs: FS, c: Plan)
    ensures Created(fs, c, 5) == (fs - {MetaTmp(c.newHead)})[Img(c.newHead) := ImgFile(Layer(c.newSize, map[]))]
                                   [Meta(c.newHead) := MetaFile(Disk(c.snap, false))]
  {
    assert Created(fs, c, 0) == fs;
    CreatedNext(fs, c, 0);
    CreatedNext(fs, c, 1);
    CreatedNext(fs, c, 2);
    CreatedNext(fs, c, 3);
    CreatedNext(fs, c, 4);
    hide Created;
  }

  /** The snapshot's files. */
  lemma LinkSteps(fs: FS, g: FS, c: Plan)
    requires g == Created(fs, c, 5) && c.old' != c.snap && Img(c.old') in g && Meta(c.old') in g
    ensures Created(fs, c, 10) == (g - {Checksum(c.snap)})[Img(c.snap) := g[Img(c.old')]]
                                    [Meta(c.snap) := g[Meta(c.old')]]
  {
    CreatedNext(fs, c, 5);
    CreatedNext(fs, c, 6);
    CreatedNext(fs, c, 7);
    CreatedNext(fs, c, 8);
    CreatedNext(fs, c, 9);
    hide Created;
  }

  /** The metadata of the volume and of the snapshot. */
  lemma MetaSteps(fs: FS, g: FS, c: Plan)
    requires g == Created(fs, c, 10)
    ensures Created(fs, c, 18) == (g - {VolumeTmp, MetaTmp(c.snap)})[VolumeMeta := VolFile(c.NewInfo())]
                                    [Meta(c.snap) := MetaFile(c.oldDisk)]
  {
    CreatedNext(fs, c, 10);
    CreatedNext(fs, c, 11);
    CreatedNext(fs, c, 12);
    CreatedNext(fs, c, 13);
    CreatedNext(fs, c, 14);
    CreatedNext(fs, c, 15);
    CreatedNext(fs, c, 16);
    CreatedNext(fs, c, 17);
    hide Created;
  }

  lemma DeleteSteps(fs: FS, c: Plan)
    ensures Created(fs, c, 21) == Created(fs, c, 18) - {Img(c.old'), Meta(c.old'), Checksum(c.old')}
  {
    CreatedNext(fs, c, 18);
    CreatedNext(fs, c, 19);
    CreatedNext(fs, c, 20);
    hide Created;
  }

  lemma GoneAfter(fs: FS, c: Plan, p: seq<DiskName>)
    requires CreateReady(fs, c, p)
    ensures OldHeadGone(fs, Created(fs, c, 21), c)
  {
    assert p[|p| - 1] == c.old';
    hide Created, CreateOp, Step, IsPath, DisksOf, HasImages, OldHeadGone;
    FirstSteps(fs, c);
    var g1 := Created(fs, c, 5);
    LinkSteps(fs, g1, c);
    var g2 := Created(fs, c, 10);
    MetaSteps(fs, g2, c);
    DeleteSteps(fs, c);
    AllSteps(fs, g1, g2, Created(fs, c, 18), Created(fs, c, 21), c);
  }

  /** Completed, a snapshot leaves exactly this directory. */
  lemma CreatedFiles(fs: FS, c: Plan, p: seq<DiskName>)
    requires CreateReady(fs, c, p)
    ensures SnapshotDone(fs, Created(fs, c, 21), c)
  {
    hide Created, CreateOp, Step, IsPath, DisksOf, HasImages, OldHeadGone;
    GoneAfter(fs, c, p);
    CreateKeeps(fs, c, p, 21);
  }

  lemma AllSteps(fs: FS, g1: FS, g2: FS, g3: FS, g4: FS, c: Plan)
    requires c.old' != c.newHead && c.old' != c.snap && c.newHead != c.snap && Img(c.old') in fs && Meta(c.old') in fs
    requires g1 == (fs - {MetaTmp(c.newHead)})[Img(c.newHead) := ImgFile(Layer(c.newSize, map[]))]
                     [Meta(c.newHead) := MetaFile(Disk(c.snap, false))]
    requires g2 == (g1 - {Checksum(c.snap)})[Img(c.snap) := g1[Img(c.old')]][Meta(c.snap) := g1[Meta(c.old')]]
    requires g3 == (g2 - {VolumeTmp, MetaTmp(c.snap)})[VolumeMeta := VolFile(c.NewInfo())]
                     [Meta(c.snap) := MetaFile(c.oldDisk)]
    requires g4 == g3 - {Img(c.old'), Meta(c.old'), Checksum(c.old')}
    ensures OldHeadGone(fs, g4, c)
  {
  }

  /** The image files are then those of the snapshot operation, and so are the disks. */
  lemma CreatedStore(fs: FS, c: Plan, p: seq<DiskName>)
    requires CreateReady(fs, c, p) && Img(c.old') in fs && fs[Img(c.old')].ImgFile?
    ensures var g := Created(fs, c, 21);
            && c.old' in StoreOf(fs)
            && StoreOf(g) == SnapshotStore(StoreOf(fs), c.old', c.snap, c.newHead, c.newSize)
            && DisksOf(g) == WithSnapshot(DisksOf(fs), c.old', c.snap, c.newHead)
  {
    hide Created, CreateOp, DisksOf, IsPath, HasImages, ChildrenOf, StoreOf;
    var g := Created(fs, c, 21);
    CreatedFiles(fs, c, p);
    CreatedTree(fs, c, p);
    InStore(fs, c.old');
    var store := SnapshotStore(StoreOf(fs), c.old', c.snap, c.newHead, c.newSize);
    forall n: DiskName
      ensures n in StoreOf(g) <==> n in store
      ensures n in StoreOf(g) ==> StoreOf(g)[n] == store[n]
    {
      InStore(fs, n);
      InStore(g, n);
      assert n != c.old' && n != c.snap && n != c.newHead ==> SameFiles(fs, g, n);
    }
  }

  // ----- a full chain -----

  /** The name of the `i`-th snapshot of the example. */
  function Nth(i: nat): DiskName {
    Snapshot(seq(i, _ => 'x'))
  }

  lemma NthDistinct(i: nat, j: nat)
    ensures Nth(i) == Nth(j) ==> i == j
  {
    assert |Nth(i).id| == i && |Nth(j).id| == j;
  }

  function ParentOf(i: nat): DiskName {
    if i == 0 then NoDisk else Nth(i - 1)
  }

  const EMPTY: Content := ImgFile(Layer(4096, map[]))

  /** A directory with a chain of `n` empty snapshots and an empty head on top. */
  function Directory(n: nat): FS {
    (map i | 0 <= i < n :: Img(Nth(i)) := EMPTY)
    + (map i | 0 <= i < n :: Meta(Nth(i)) := MetaFile(Disk(ParentOf(|Nth(i).id|), false)))
    + map[Img(Head(0)) := EMPTY, Meta(Head(0)) := MetaFile(Disk(ParentOf(n), false)),
          VolumeMeta := VolFile(Info(Head(0), ParentOf(n), 4096))]
  }

  function Names(n: nat): (p: seq<DiskName>)
    ensures |p| == n && forall i | 0 <= i < n :: p[i] == Nth(i)
  {
    seq(n, i requires 0 <= i => Nth(i))
  }

  ghost predicate HasSnapshot(fs: FS, i: nat) {
    && Img(Nth(i)) in fs && fs[Img(Nth(i))] == EMPTY
    && Meta(Nth(i)) in fs && fs[Meta(Nth(i))] == MetaFile(Disk(ParentOf(i), false))
  }

  lemma DirectoryHolds(n: nat)
    ensures forall i | 0 <= i < n :: HasSnapshot(Directory(n), i)
    ensures var fs := Directory(n);
            && Img(Head(0)) in fs && fs[Img(Head(0))] == EMPTY
            && Meta(Head(0)) in fs && fs[Meta(Head(0))] == MetaFile(Disk(ParentOf(n), false))
            && VolumeMeta in fs && fs[VolumeMeta] == VolFile(Info(Head(0), ParentOf(n), 4096))
  {
    forall i | 0 <= i < n ensures HasSnapshot(Directory(n), i) {
      HoldsNth(n, i);
    }
  }

  lemma HoldsNth(n: nat, i: nat)
    requires i < n
    ensures HasSnapshot(Directory(n), i)
  {
    assert |Nth(i).id| == i;
  }

  lemma DirectoryOnly(n: nat, m: DiskName)
    requires Meta(m) in Directory(n)
    ensures m == Head(0) || exists i :: 0 <= i < n && m == Nth(i)
  {
    hide Nth, ParentOf;
  }

  lemma {:induction false} NamesPath(fs: FS, n: nat)
    requires n > 0 && forall i | 0 <= i < n :: HasSnapshot(fs, i)
    ensures IsPath(DisksOf(fs), Nth(n - 1), Names(n))
  {
    assert HasSnapshot(fs, n - 1);
    InDisks(fs, Nth(n - 1));
    hide DisksOf;
    if n > 1 {
      NamesPath(fs, n - 1);
      assert Names(n)[..n - 1] == Names(n - 1);
    }
  }

  /** The plan of one more snapshot. */
  function NextPlan(n: nat): Plan {
    Plan(Head(0), Disk(ParentOf(n), false), Nth(n), Head(1), Info(Head(0), ParentOf(n), 4096), 4096)
  }

  lemma DirectoryReady(n: nat)
    ensures CreateReady(Directory(n), NextPlan(n), Names(n) + [Head(0)])
  {
    var fs := Directory(n);
    DirectoryHolds(n);
    hide Directory, HasSnapshot;
    forall m | Meta(m) in fs ensures m == Head(0) || exists i :: 0 <= i < n && m == Nth(i) {
      DirectoryOnly(n, m);
    }
    DirectoryPath(fs, n);
    DirectoryNames(fs, n);
    InDisks(fs, Head(0));
    hide DisksOf, IsPath, HasImages;
    assert Consistent(fs, NextPlan(n).info, Names(n) + [Head(0)]);
  }

  lemma DirectoryPath(fs: FS, n: nat)
    requires (forall i | 0 <= i < n :: HasSnapshot(fs, i)) && Img(Head(0)) in fs && fs[Img(Head(0))] == EMPTY
    requires Meta(Head(0)) in fs && fs[Meta(Head(0))] == MetaFile(Disk(ParentOf(n), false))
    ensures IsPath(DisksOf(fs), Head(0), Names(n) + [Head(0)]) && HasImages(fs, Names(n) + [Head(0)])
  {
    var p := Names(n) + [Head(0)];
    InDisks(fs, Head(0));
    hide DisksOf;
    assert p[..n] == Names(n);
    if n > 0 {
      NamesPath(fs, n);
    }
    forall m | m in p ensures Img(m) in fs && fs[Img(m)].ImgFile? {
      if m != Head(0) {
        var i :| 0 <= i < n && Names(n)[i] == m;
        assert HasSnapshot(fs, i);
      }
    }
  }

  lemma DirectoryNames(fs: FS, n: nat)
    requires forall i | 0 <= i < n :: HasSnapshot(fs, i)
    requires Meta(Head(0)) in fs && fs[Meta(Head(0))] == MetaFile(Disk(ParentOf(n), false))
    requires forall m | Meta(m) in fs :: m == Head(0) || exists i :: 0 <= i < n && m == Nth(i)
    ensures Nth(n) !in DisksOf(fs) && Head(1) !in DisksOf(fs) && ChildrenOf(DisksOf(fs), Head(0)) == {}
  {
    InDisks(fs, Nth(n));
    InDisks(fs, Head(1));
    forall i | 0 <= i < n ensures Nth(i) != Nth(n) {
      NthDistinct(i, n);
    }
    forall m | m in DisksOf(fs) ensures DisksOf(fs)[m].parent != Head(0) {
      InDisks(fs, m);
      if m != Head(0) {
        var i :| 0 <= i < n && m == Nth(i);
        assert HasSnapshot(fs, i);
      }
    }
  }

  /** A directory with 249 snapshots and a head opens.  One more snapshot, which the default limit of 250 allows,
      leaves it so that it does not open any more, from the replacement of the volume metadata on. */
  lemma FullChain(k: nat, base: seq<Layer>)
    ensures var fs, c, p := Directory(249), NextPlan(249), Names(249) + [Head(0)];
            && CreateReady(fs, c, p) && Reopens(fs, base, base + ImagesOf(fs, p))
            && (Reopens(Created(fs, c, k), base, base + ImagesOf(fs, p)) <==> k <= 12)
  {
    hide Directory, NextPlan, CreateReady, Created, Reopens, ImagesOf, Nth;
    DirectoryReady(249);
    var fs, c, p := Directory(249), NextPlan(249), Names(249) + [Head(0)];
    assert |p| == MAX_CHAIN;
    CreateCrashSafe(fs, c, p, k, base);
    CreateCrashSafe(fs, c, p, 0, base);
    NoSteps(fs, c);
  }

  lemma NoSteps(fs: FS, c: Plan)
    ensures Created(fs, c, 0) == fs
  {
  }

  // ----- what a stop leaves behind -----

  /** After which steps of a snapshot every disk of the directory has a path to its root: all but those between the
      metadata of the new head and that of the snapshot under it. */
  lemma CreatedRootedIff(fs: FS, c: Plan, p: seq<DiskName>, k: nat)
    requires CreateReady(fs, c, p) && Rooted(DisksOf(fs)) && Meta(c.newHead) !in fs && Meta(c.snap) !in fs
    ensures Rooted(DisksOf(Created(fs, c, k))) <==> !(5 <= k <= 9)
  {
    hide Created, DisksOf, IsPath, HasImages, Rooted, ChildrenOf, DisksAt;
    var d := DisksOf(fs);
    CreatedDisks(fs, c, p, k);
    StagesOf(d, c, k);
    var d' := DisksAt(d, c, k);
    if 5 <= k <= 9 {
      if Rooted(d') {
        ParentInDisks(d', c.newHead);
      }
    } else if k >= 10 {
      CreatedPaths(d, d', c);
    }
  }

  /** The disks on the way: the new head appears after step 4, the snapshot after step 9, the old head goes with
      step 19. */
  ghost function DisksAt(d: Disks, c: Plan, k: nat): Disks
    requires c.old' in d
  {
    var d1 := if k >= 5 then d[c.newHead := Disk(c.snap, false)] else d;
    var d2 := if k >= 10 then d1[c.snap := d[c.old']] else d1;
    if k >= 20 then d2 - {c.old'} else d2
  }

  lemma CreatedDisks(fs: FS, c: Plan, p: seq<DiskName>, k: nat)
    requires CreateReady(fs, c, p) && Meta(c.newHead) !in fs && Meta(c.snap) !in fs
    ensures DisksOf(Created(fs, c, k)) == DisksAt(DisksOf(fs), c, k)
  {
    hide Created, CreateOp, DisksOf, IsPath, CreateInv, DisksAt, HasImages, ChildrenOf;
    var g, d := Created(fs, c, k), DisksOf(fs);
    CreateKeeps(fs, c, p, k);
    if k <= 9 { SnapMetaLate(fs, c, k); }
    if k < 5 { NewMetaLate(fs, c, k); }
    forall n: DiskName
      ensures n in DisksOf(g) <==> n in DisksAt(d, c, k)
      ensures n in DisksOf(g) ==> DisksOf(g)[n] == DisksAt(d, c, k)[n]
    {
      CreatedDisk(fs, g, c, k, n);
    }
    assert DisksOf(g) == DisksAt(d, c, k);
  }

  lemma CreatedDisk(fs: FS, g: FS, c: Plan, k: nat, n: DiskName)
    requires Img(c.old') in fs && CreateInv(fs, g, c, k) && Meta(c.newHead) !in fs && Meta(c.snap) !in fs
    requires c.old' != c.newHead && c.old' != c.snap && c.newHead != c.snap
    requires c.old' in DisksOf(fs) && c.oldDisk == DisksOf(fs)[c.old']
    requires (k < 5 ==> Meta(c.newHead) !in g) && (k <= 9 ==> Meta(c.snap) !in g)
    ensures n in DisksOf(g) <==> n in DisksAt(DisksOf(fs), c, k)
    ensures n in DisksOf(g) ==> DisksOf(g)[n] == DisksAt(DisksOf(fs), c, k)[n]
  {
    hide DisksOf, CreateInv, DisksAt;
    InDisks(fs, n);
    InDisks(fs, c.old');
    InDisks(fs, c.newHead);
    InDisks(fs, c.snap);
    InDisks(g, n);
    MetaAt(fs, g, c, k, n);
    InDisksAt(DisksOf(fs), c, k, n);
  }

  lemma StagesOf(d: Disks, c: Plan, k: nat)
    requires c.old' in d && c.newHead !in d && c.snap !in d && c.newHead != c.snap
    ensures k < 5 ==> DisksAt(d, c, k) == d
    ensures 5 <= k <= 9 ==>
              var d' := DisksAt(d, c, k);
              c.newHead in d' && d'[c.newHead].parent == c.snap && c.snap !in d'
    ensures k >= 10 ==> Extends(d, DisksAt(d, c, k), c)
  {
  }

  lemma InDisksAt(d: Disks, c: Plan, k: nat, n: DiskName)
    requires c.old' in d && c.newHead !in d && c.snap !in d && c.newHead != c.snap
    ensures n in DisksAt(d, c, k) <==>
              if n == c.newHead then k >= 5 else if n == c.snap then k >= 10 else n in d && (k < 20 || n != c.old')
    ensures n in DisksAt(d, c, k) ==>
              DisksAt(d, c, k)[n] == if n == c.newHead then Disk(c.snap, false)
                                     else if n == c.snap then d[c.old'] else d[n]
  {
  }

  /** What the forward invariant says of one disk's metadata. */
  lemma MetaAt(fs: FS, g: FS, c: Plan, k: nat, n: DiskName)
    requires Img(c.old') in fs && CreateInv(fs, g, c, k) && c.old' != c.newHead && c.old' != c.snap
    ensures n != c.newHead && n != c.snap && n != c.old' ==> SameAt(fs, g, Meta(n))
    ensures if k >= 20 then Meta(c.old') !in g else SameAt(fs, g, Meta(c.old'))
    ensures k >= 5 ==> Meta(c.newHead) in g && g[Meta(c.newHead)] == MetaFile(Disk(c.snap, false))
    ensures k >= 10 ==> Meta(c.snap) in g && g[Meta(c.snap)] == MetaFile(c.oldDisk)
  {
  }

  ghost predicate Extends(d: Disks, d': Disks, c: Plan) {
    && c.newHead in d' && d'[c.newHead] == Disk(c.snap, false)
    && c.snap in d' && c.old' in d && d'[c.snap] == d[c.old']
    && (forall n | n in d && n != c.old' :: n in d' && d'[n] == d[n])
    && (forall n | n in d' :: n in d || n == c.snap || n == c.newHead)
    && (c.old' in d' ==> d'[c.old'] == d[c.old'])
  }

  lemma CreatedPaths(d: Disks, d': Disks, c: Plan)
    requires Rooted(d) && c.old' in d && c.snap !in d && c.newHead !in d && c.snap.Snapshot? && c.newHead.Head?
    requires c.old'.Head?
    requires ChildrenOf(d, c.old') == {} && Extends(d, d', c)
    ensures Rooted(d')
  {
    forall n | n in d' ensures exists p :: IsPath(d', n, p) {
      if n == c.snap || n == c.newHead {
        NewPaths(d, d', c);
      } else {
        var p :| IsPath(d, n, p);
        PathInDisks(d, n, p);
        if c.old' in p { LeafIsLast(d, n, p, c.old'); }
        PathFrame(d, d', n, p);
      }
    }
  }

  lemma NewPaths(d: Disks, d': Disks, c: Plan)
    requires Rooted(d) && c.old' in d && c.snap !in d && c.newHead !in d && c.snap.Snapshot? && c.newHead.Head?
    requires Extends(d, d', c)
    ensures (exists p :: IsPath(d', c.snap, p)) && (exists p :: IsPath(d', c.newHead, p))
  {
    var p :| IsPath(d, c.old', p);
    var q := p[..|p| - 1];
    PathNotSelf(d, c.old', p);
    PathInDisks(d, c.old', p);
    if q != [] {
      PathFrame(d, d', d[c.old'].parent, q);
    }
    assert (q + [c.snap])[..|q|] == q;
    assert IsPath(d', c.snap, q + [c.snap]);
    assert (q + [c.snap, c.newHead])[..|q| + 1] == q + [c.snap];
    assert IsPath(d', c.newHead, q + [c.snap, c.newHead]);
  }

  lemma {:induction false} NewMetaLate(fs: FS, c: Plan, k: nat)
    requires c.newHead != c.snap && Meta(c.newHead) !in fs && k <= 4
    ensures Meta(c.newHead) !in Created(fs, c, k)
  {
    if k > 0 {
      NewMetaLate(fs, c, k - 1);
    }
  }

  /** A stop after the first step and before the volume metadata is replaced leaves a file under the name that the next
      head of the old one would get, so that every later snapshot and revert is refused.  A stop after that and before
      the old head's file is deleted leaves this file; nine snapshots later its name comes round. */
  lemma StopRefusesSnapshots(fs: FS, c: Plan, p: seq<DiskName>, k: nat)
    requires CreateReady(fs, c, p) && c.newHead == NextHead(c.old')
    ensures 1 <= k <= 18 ==>
              var g := Created(fs, c, k);
              && VolumeMeta in g && g[VolumeMeta].VolFile?
              && var head := g[VolumeMeta].info.head;
                 if k <= 12 then head == c.old' && Img(NextHead(head)) in g
                 else head == c.newHead && Img(c.old') in g
  {
    CreateKeeps(fs, c, p, k);
    if 1 <= k <= 12 {
      HeadFileStays(fs, c, k);
    }
  }

  /** With such a file left behind, at most eight more snapshots can be taken. */
  lemma LeftoverLimits(store: Store, i: nat, snaps: seq<DiskName>, size: nat)
    requires 1 <= i <= 10 && Head(i) in store && Takes(store, NextHead(Head(i)), snaps, size)
    ensures |snaps| <= 8
  {
    NamesComeRound(i);
    assert HeadAfter(Head(i), 10) == HeadAfter(NextHead(Head(i)), 9);
    assert HeadAfter(Head(i), 1) == HeadAfter(NextHead(Head(i)), 0);
    LeftoverStops(store, NextHead(Head(i)), Head(i), snaps, size);
  }

  lemma {:induction false} HeadFileStays(fs: FS, c: Plan, k: nat)
    requires 1 <= k <= 12 && c.newHead != c.snap
    ensures Img(c.newHead) in Created(fs, c, k)
  {
    if k > 1 {
      HeadFileStays(fs, c, k - 1);
    } else {
      assert Created(fs, c, 0) == fs;
    }
  }

  // ----- revertDisk -----

  /** The steps in order: 0-4 new head on the target, 5-7 volume metadata, 8-10 delete the old head.
      The plan's `snap` is the snapshot reverted to. */
  function RevertOp(c: Plan, k: nat): Op {
    if k <= 4 then CreateOp(c, k)
    else if k == 5 then Put(VolumeTmp, Partial)
    else if k == 6 then Put(VolumeTmp, VolFile(c.NewInfo()))
    else if k == 7 then Rename(VolumeTmp, VolumeMeta)
    else if k == 8 then Delete(Img(c.old'))
    else if k == 9 then Delete(Meta(c.old'))
    else if k == 10 then Delete(Checksum(c.old'))
    else InMemory
  }

  function RevertedFS(fs: FS, c: Plan, k: nat): FS {
    if k == 0 then fs else Step(RevertedFS(fs, c, k - 1), RevertOp(c, k - 1))
  }

  ghost predicate RevertReady(fs: FS, c: Plan, p: seq<DiskName>, q: seq<DiskName>) {
    && Consistent(fs, c.info, p) && c.old' == c.info.head && c.old'.Head? && c.newHead.Head? && c.newHead != c.old'
    && c.newHead !in DisksOf(fs)
    && c.snap.Snapshot? && IsPath(DisksOf(fs), c.snap, q) && HasImages(fs, q)
  }

  ghost predicate RevertInv(fs: FS, g: FS, c: Plan, k: nat) {
    && (k <= 7 ==> SameAt(fs, g, VolumeMeta))
    && (k > 7 ==> VolumeMeta in g && g[VolumeMeta] == VolFile(c.NewInfo()))
    && (forall p: Path | p != VolumeMeta && p != VolumeTmp && p.name != c.newHead && (k <= 8 || p.name != c.old') ::
          SameAt(fs, g, p))
    && (k >= 2 ==> Img(c.newHead) in g && g[Img(c.newHead)] == ImgFile(Layer(c.newSize, map[])))
    && (k == 4 ==> MetaTmp(c.newHead) in g && g[MetaTmp(c.newHead)] == MetaFile(Disk(c.snap, false)))
    && (k >= 5 ==> Meta(c.newHead) in g && g[Meta(c.newHead)] == MetaFile(Disk(c.snap, false)))
    && (k == 7 ==> VolumeTmp in g && g[VolumeTmp] == VolFile(c.NewInfo()))
    && (k >= 5 ==> MetaTmp(c.newHead) !in g) && (k >= 8 ==> VolumeTmp !in g)
    && (k >= 9 ==> Img(c.old') !in g) && (k >= 10 ==> Meta(c.old') !in g) && (k >= 11 ==> Checksum(c.old') !in g)
  }

  lemma {:induction false} RevertKeeps(fs: FS, c: Plan, k: nat)
    requires c.newHead != c.old'
    ensures RevertInv(fs, RevertedFS(fs, c, k), c, k)
  {
    if k > 0 {
      RevertKeeps(fs, c, k - 1);
      RevertStep(fs, RevertedFS(fs, c, k - 1), c, k - 1);
    }
  }

  lemma RevertStep(fs: FS, g: FS, c: Plan, k: nat)
    requires RevertInv(fs, g, c, k) && c.newHead != c.old'
    ensures RevertInv(fs, Step(g, RevertOp(c, k)), c, k + 1)
  {
    var g' := Step(g, RevertOp(c, k));
    forall p: Path | p != VolumeMeta && p != VolumeTmp && p.name != c.newHead && (k + 1 <= 8 || p.name != c.old')
      ensures SameAt(fs, g', p)
    {
      assert SameAt(fs, g, p);
    }
  }

  /** Crash safety of a revert: before the volume metadata is replaced the old head opens unchanged, from then on
      the head shows exactly the snapshot reverted to, each if and only if its chain is not too long. */
  lemma RevertCrashSafe(fs: FS, c: Plan, p: seq<DiskName>, q: seq<DiskName>, k: nat, base: seq<Layer>)
    requires RevertReady(fs, c, p, q)
    ensures k <= 7 ==> (Reopens(RevertedFS(fs, c, k), base, base + ImagesOf(fs, p)) <==> |p| <= MAX_CHAIN)
    ensures k > 7 ==> (Reopens(RevertedFS(fs, c, k), base, base + ImagesOf(fs, q)) <==> |q| < MAX_CHAIN)
  {
    var g, d := RevertedFS(fs, c, k), DisksOf(fs);
    RevertKeeps(fs, c, k);
    hide RevertedFS;
    if k <= 7 {
      RevertPath(fs, g, c, k, c.old', p);
      ReopensIff(g, base, base + ImagesOf(fs, p), p);
    } else {
      if c.old' in q { LeafIsLast(d, c.snap, q, c.old'); }
      RevertPath(fs, g, c, k, c.snap, q);
      RevertedOpens(fs, g, c, q, base);
    }
  }

  /** Completed, a revert leaves no file of the old head and no temporary file, the new head on the target, and every
      other file as it was; so the disks and image files are those of the revert operation. */
  lemma RevertedFiles(fs: FS, c: Plan, p: seq<DiskName>, q: seq<DiskName>)
    requires RevertReady(fs, c, p, q)
    ensures var g := RevertedFS(fs, c, 11);
            && (Img(c.old') !in g && Meta(c.old') !in g && Checksum(c.old') !in g)
            && VolumeTmp !in g && MetaTmp(c.newHead) !in g
            && VolumeMeta in g && g[VolumeMeta] == VolFile(Info(c.newHead, c.snap, c.newSize))
            && (forall n | n != c.old' && n != c.newHead :: SameFiles(fs, g, n))
            && DisksOf(g) == Reverted(DisksOf(fs), c.old', c.newHead, c.snap)
            && StoreOf(g) == StoreOf(fs)[c.newHead := Layer(c.newSize, map[])] - {c.old'}
  {
    hide RevertedFS, DisksOf, IsPath, HasImages, ChildrenOf, StoreOf;
    var g := RevertedFS(fs, c, 11);
    RevertKeeps(fs, c, 11);
    assert forall n | n != c.old' && n != c.newHead :: SameFiles(fs, g, n);
    RevertedMaps(fs, g, c);
  }

  lemma RevertedMaps(fs: FS, g: FS, c: Plan)
    requires Img(c.old') !in g && Meta(c.old') !in g && c.old' != c.newHead
    requires Meta(c.newHead) in g && g[Meta(c.newHead)] == MetaFile(Disk(c.snap, false))
    requires Img(c.newHead) in g && g[Img(c.newHead)] == ImgFile(Layer(c.newSize, map[]))
    requires forall n | n != c.old' && n != c.newHead :: SameFiles(fs, g, n)
    ensures DisksOf(g) == Reverted(DisksOf(fs), c.old', c.newHead, c.snap)
    ensures StoreOf(g) == StoreOf(fs)[c.newHead := Layer(c.newSize, map[])] - {c.old'}
  {
    hide DisksOf, StoreOf;
    var disks := Reverted(DisksOf(fs), c.old', c.newHead, c.snap);
    var store := StoreOf(fs)[c.newHead := Layer(c.newSize, map[])] - {c.old'};
    forall n: DiskName
      ensures n in DisksOf(g) <==> n in disks
      ensures n in DisksOf(g) ==> DisksOf(g)[n] == disks[n]
    {
      InDisks(fs, n);
      InDisks(g, n);
      assert n != c.old' && n != c.newHead ==> SameFiles(fs, g, n);
    }
    forall n: DiskName
      ensures n in StoreOf(g) <==> n in store
      ensures n in StoreOf(g) ==> StoreOf(g)[n] == store[n]
    {
      InStore(fs, n);
      InStore(g, n);
      assert n != c.old' && n != c.newHead ==> SameFiles(fs, g, n);
    }
  }

  lemma RevertPath(fs: FS, g: FS, c: Plan, k: nat, n: DiskName, path: seq<DiskName>)
    requires RevertInv(fs, g, c, k) && c.newHead !in DisksOf(fs) && (k <= 7 || c.old' !in path)
    requires IsPath(DisksOf(fs), n, path) && HasImages(fs, path)
    ensures IsPath(DisksOf(g), n, path) && HasImages(g, path) && ImagesOf(g, path) == ImagesOf(fs, path)
  {
    PathInDisks(DisksOf(fs), n, path);
    forall m | m in path ensures Meta(m) in fs && SameAt(fs, g, Meta(m)) && SameAt(fs, g, Img(m)) {
      InDisks(fs, m);
    }
    SamePath(fs, g, n, path);
  }

  lemma RevertedOpens(fs: FS, g: FS, c: Plan, q: seq<DiskName>, base: seq<Layer>)
    requires IsPath(DisksOf(g), c.snap, q) && HasImages(fs, q) && HasImages(g, q) && ImagesOf(g, q) == ImagesOf(fs, q)
    requires VolumeMeta in g && g[VolumeMeta] == VolFile(c.NewInfo()) && c.newHead.Head?
    requires Img(c.newHead) in g && g[Img(c.newHead)] == ImgFile(Layer(c.newSize, map[]))
    requires Meta(c.newHead) in g && g[Meta(c.newHead)] == MetaFile(Disk(c.snap, false))
    ensures Reopens(g, base, base + ImagesOf(fs, q)) <==> |q| < MAX_CHAIN
  {
    var p', top := q + [c.newHead], Layer(c.newSize, map[]);
    InDisks(g, c.newHead);
    assert p'[..|q|] == q;
    assert base + ImagesOf(g, p') == base + ImagesOf(fs, q) + [top];
    forall s: nat ensures SectorAt(base + ImagesOf(g, p'), s) == SectorAt(base + ImagesOf(fs, q), s) {
      SectorAtSnoc(base + ImagesOf(fs, q), top, s);
    }
    ReopensIff(g, base, base + ImagesOf(fs, q), p');
  }

  // ----- rollback of a failed createDisk -----

  /** The in-memory bookkeeping createDisk touches. */
  datatype Mem = Mem(disks: Disks, children: Children, active: seq<DiskName>, info: Info)

  /** Memory at the failure of step `k`: the new entries are added by step 13. */
  function MemAt(m: Mem, c: Plan, k: nat): Mem
    requires c.old' in m.disks
  {
    if k <= 13 then m
    else m.(disks := m.disks[c.newHead := Disk(c.snap, false)][c.snap := m.disks[c.old']],
            children := AddChild(m.children, c.snap, c.newHead))
  }

  function RemoveDiskFiles(fs: FS, n: DiskName): FS {
    fs - {Img(n), Meta(n), Checksum(n)}
  }

  /** A metadata write that completes: temporary file, then rename. */
  function Encode(fs: FS, tmp: Path, to: Path, content: Content): FS {
    Step(Step(fs, Put(tmp, content)), Rename(tmp, to))
  }

  /** What the failing function cleans up itself before it returns the error of step `k`. */
  function OwnRollback(fs: FS, c: Plan, k: nat): FS {
    if k == 0 then fs
    else if k <= 4 then RemoveDiskFiles(if k == 1 then fs else fs - {MetaTmp(c.newHead)}, c.newHead)
    else if k <= 7 then fs
    else if k <= 9 then RemoveDiskFiles(fs, c.snap)
    else if k <= 12 then fs - {VolumeTmp}
    else fs - {MetaTmp(c.snap)}
  }

  /** The rollbacks collected so far, run in the order in which they were collected. */
  function Rollback(fs: FS, c: Plan, k: nat): FS {
    var g := OwnRollback(fs, c, k);
    if k <= 4 then g
    else
      var g1 := RemoveDiskFiles(g - {MetaTmp(c.newHead)}, c.newHead);
      if k <= 9 then g1
      else
        var g2 := RemoveDiskFiles(g1, c.snap);
        if k <= 12 then g2
        else Encode(g2, VolumeTmp, VolumeMeta, VolFile(c.info)) - {VolumeTmp}
  }

  function MemRollback(m: Mem, c: Plan, k: nat): Mem {
    if k <= 13 then m
    else m.(disks := m.disks - {c.newHead, c.snap}, children := m.children - {c.snap})
  }

  /** Whichever forward step fails, the rollback restores the volume metadata, every disk's metadata and
      file, and the bookkeeping; only leftovers under the snapshot's name may be gone. */
  lemma RollbackRestores(fs: FS, m: Mem, c: Plan, p: seq<DiskName>, k: nat)
    requires CreateReady(fs, c, p) && k <= 16 && k != 13
    requires m.disks == DisksOf(fs) && m.info == c.info && c.snap !in m.children
    requires Img(c.newHead) !in fs && Meta(c.newHead) !in fs && Meta(c.snap) !in fs
    ensures var g := Rollback(Created(fs, c, k), c, k);
            && DisksOf(g) == DisksOf(fs)
            && SameAt(fs, g, VolumeMeta)
            && (forall n | n != c.snap :: SameAt(fs, g, Img(n)) && SameAt(fs, g, Meta(n)))
            && IsPath(DisksOf(g), c.old', p) && HasImages(g, p) && ImagesOf(g, p) == ImagesOf(fs, p)
    ensures MemRollback(MemAt(m, c, k), c, k) == m
  {
    hide Created, Rollback, CreateInv;
    var g := Rollback(Created(fs, c, k), c, k);
    CreateKeeps(fs, c, p, k);
    RollbackFiles(fs, Created(fs, c, k), c, k);
    RollbackNewHead(fs, c, k);
    SameDisks(fs, g, c.snap);
    ChainNames(fs, c, p);
    SameImages(fs, g, p, c.snap);
    MemRestores(m, c, k);
  }

  /** From a directory without leftovers of the two new names, the rollback restores every file. */
  lemma RollbackExact(fs: FS, c: Plan, p: seq<DiskName>, k: nat)
    requires CreateReady(fs, c, p) && k <= 16 && k != 13 && forall f: Path | Scratch(c, f) :: f !in fs
    ensures Rollback(Created(fs, c, k), c, k) == fs
  {
    hide Created, CreateOp, CreateInv, IsPath, DisksOf, HasImages;
    var g := Created(fs, c, k);
    CreateKeeps(fs, c, p, k);
    OnlyScratch(fs, c, k);
    RollbackMeta(fs, g, c, k);
    forall f: Path ensures SameAt(fs, Rollback(g, c, k), f) {
      if Scratch(c, f) {
        RollbackScratch(g, c, k, f);
      } else if f != VolumeMeta {
        FileStays(fs, g, c, k, f);
        RollbackElse(g, c, k, f);
      }
    }
    hide Rollback;
    SameEverywhere(fs, Rollback(g, c, k));
  }

  lemma SameEverywhere(fs: FS, g: FS)
    requires forall f: Path :: SameAt(fs, g, f)
    ensures g == fs
  {
    forall f: Path ensures f in g <==> f in fs {
      assert SameAt(fs, g, f);
    }
    forall f | f in fs ensures g[f] == fs[f] {
      assert SameAt(fs, g, f);
    }
  }

  lemma FileStays(fs: FS, g: FS, c: Plan, k: nat, f: Path)
    requires Img(c.old') in fs && CreateInv(fs, g, c, k) && k <= 16 && !Scratch(c, f) && f != VolumeMeta
    ensures SameAt(fs, g, f)
  {
  }

  lemma RollbackElse(g: FS, c: Plan, k: nat, f: Path)
    requires !Scratch(c, f) && f != VolumeMeta
    ensures SameAt(g, Rollback(g, c, k), f)
  {
  }

  /** The files of the two new names that are there after `k` steps. */
  function ScratchAt(c: Plan, k: nat): set<Path> {
    (if k >= 1 then {Img(c.newHead)} else {}) + (if 3 <= k <= 4 then {MetaTmp(c.newHead)} else {})
    + (if k >= 5 then {Meta(c.newHead)} else {}) + (if k >= 9 then {Img(c.snap)} else {})
    + (if k >= 10 then {Meta(c.snap)} else {}) + (if 11 <= k <= 12 then {VolumeTmp} else {})
    + (if 15 <= k <= 16 then {MetaTmp(c.snap)} else {})
  }

  lemma {:induction false} OnlyScratch(fs: FS, c: Plan, k: nat)
    requires (forall f: Path | Scratch(c, f) :: f !in fs) && c.newHead != c.snap
    ensures forall f: Path | Scratch(c, f) && f in Created(fs, c, k) :: f in ScratchAt(c, k)
  {
    if k > 0 {
      OnlyScratch(fs, c, k - 1);
      ScratchStep(Created(fs, c, k - 1), c, k - 1);
    }
  }

  lemma ScratchStep(g: FS, c: Plan, k: nat)
    requires (forall f: Path | Scratch(c, f) && f in g :: f in ScratchAt(c, k)) && c.newHead != c.snap
    ensures forall f: Path | Scratch(c, f) && f in Step(g, CreateOp(c, k)) :: f in ScratchAt(c, k + 1)
  {
  }

  lemma RollbackScratch(g: FS, c: Plan, k: nat, f: Path)
    requires k <= 16 && k != 13 && c.newHead != c.snap && Scratch(c, f)
    requires forall f: Path | Scratch(c, f) && f in g :: f in ScratchAt(c, k)
    ensures f !in Rollback(g, c, k)
  {
  }

  lemma SameDisks(fs: FS, g: FS, snap: DiskName)
    requires forall n | n != snap :: SameAt(fs, g, Meta(n))
    requires Meta(snap) !in fs && Meta(snap) !in g
    ensures DisksOf(g) == DisksOf(fs)
  {
    hide DisksOf;
    forall n: DiskName ensures n in DisksOf(g) <==> n in DisksOf(fs)
      ensures n in DisksOf(g) ==> DisksOf(g)[n] == DisksOf(fs)[n]
    {
      InDisks(fs, n);
      InDisks(g, n);
    }
  }

  lemma SameImages(fs: FS, g: FS, p: seq<DiskName>, snap: DiskName)
    requires HasImages(fs, p) && forall m | m in p :: m != snap
    requires forall n | n != snap :: SameAt(fs, g, Img(n))
    ensures HasImages(g, p) && ImagesOf(g, p) == ImagesOf(fs, p)
  {
    forall m | m in p ensures SameAt(fs, g, Img(m)) {
    }
  }

  lemma MemRestores(m: Mem, c: Plan, k: nat)
    requires c.old' in m.disks && c.snap !in m.disks && c.newHead !in m.disks && c.snap !in m.children
    ensures MemRollback(MemAt(m, c, k), c, k) == m
  {
  }

  /** Files outside the two new names are as before, by the forward invariant. */
  lemma RollbackFiles(fs: FS, g: FS, c: Plan, k: nat)
    requires Img(c.old') in fs && CreateInv(fs, g, c, k) && k <= 16 && k != 13
    requires VolumeMeta in fs && fs[VolumeMeta] == VolFile(c.info)
    ensures var r := Rollback(g, c, k);
            && SameAt(fs, r, VolumeMeta)
            && (forall n | n != c.snap && n != c.newHead :: SameAt(fs, r, Img(n)) && SameAt(fs, r, Meta(n)))
  {
    RollbackMeta(fs, g, c, k);
    hide CreateInv, Rollback;
    forall n | n != c.snap && n != c.newHead
      ensures SameAt(fs, Rollback(g, c, k), Img(n)) && SameAt(fs, Rollback(g, c, k), Meta(n))
    {
      CreateOutside(fs, g, c, k, n);
      RollbackOutside(g, c, k, n);
    }
  }

  lemma RollbackOutside(g: FS, c: Plan, k: nat, n: DiskName)
    requires n != c.snap && n != c.newHead
    ensures SameAt(g, Rollback(g, c, k), Img(n)) && SameAt(g, Rollback(g, c, k), Meta(n))
  {
  }

  lemma CreateOutside(fs: FS, g: FS, c: Plan, k: nat, n: DiskName)
    requires Img(c.old') in fs && CreateInv(fs, g, c, k) && k <= 18 && n != c.snap && n != c.newHead
    ensures SameAt(fs, g, Img(n)) && SameAt(fs, g, Meta(n))
  {
  }

  lemma RollbackMeta(fs: FS, g: FS, c: Plan, k: nat)
    requires Img(c.old') in fs && CreateInv(fs, g, c, k) && k <= 16 && k != 13
    requires VolumeMeta in fs && fs[VolumeMeta] == VolFile(c.info)
    ensures SameAt(fs, Rollback(g, c, k), VolumeMeta)
  {
  }

  /** Nothing is left under the new head's name, and no metadata under the snapshot's. */
  lemma RollbackNewHead(fs: FS, c: Plan, k: nat)
    requires k <= 16 && k != 13 && c.newHead != c.snap && c.newHead != c.old'
    requires Img(c.newHead) !in fs && Meta(c.newHead) !in fs && Meta(c.snap) !in fs
    ensures var r := Rollback(Created(fs, c, k), c, k);
            Img(c.newHead) !in r && Meta(c.newHead) !in r && Meta(c.snap) !in r
  {
    if k <= 9 { SnapMetaLate(fs, c, k); }
  }

  lemma {:induction false} SnapMetaLate(fs: FS, c: Plan, k: nat)
    requires c.newHead != c.snap && c.newHead != c.old' && Meta(c.snap) !in fs && k <= 9
    ensures Meta(c.snap) !in Created(fs, c, k)
  {
    if k > 0 {
      SnapMetaLate(fs, c, k - 1);
    }
  }
}

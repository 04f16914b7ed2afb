/** Replication as a state machine: serialised writes and snapshots fan out to all replicas, failures
    turn replicas to ERR, and a new replica is rebuilt while writes go on.

    The abstract volume `vol` is what the client has been promised; the invariant ties every RW replica
    to it, and the replica being rebuilt to a target that evolves with the writes.
 */
module Replication {
  import opened Layers
  import opened SnapshotTree
  import opened Controllers

  /** One replica: its snapshot disks with their files, the head over the snapshot `parent`, and the layers of a
      backing file under them all. */
  datatype Rep = Rep(disks: Disks, store: Store, parent: DiskName, head: Layer, under: seq<Layer>)

  ghost predicate Rooted1(disks: Disks, n: DiskName) {
    n == NoDisk || exists p :: IsPath(disks, n, p)
  }

  /** The disks on the way to `n`, none for the empty name. */
  ghost function PathOf(disks: Disks, n: DiskName): (p: seq<DiskName>)
    requires Rooted1(disks, n)
    ensures if n == NoDisk then p == [] else IsPath(disks, n, p)
  {
    if n == NoDisk then [] else var p :| IsPath(disks, n, p); p
  }

  ghost predicate RepOk(r: Rep, size: nat) {
    && r.head.size == size && NoDisk !in r.disks
    && (forall n | n in r.disks :: n in r.store)
    && Rooted1(r.disks, r.parent)
  }

  ghost function Chain(r: Rep): (c: seq<Layer>)
    requires (forall n | n in r.disks :: n in r.store) && Rooted1(r.disks, r.parent)
    ensures c != [] && c[|c| - 1] == r.head
  {
    ChainStored(r);
    r.under + LayersOf(r.store, PathOf(r.disks, r.parent)) + [r.head]
  }

  lemma ChainStored(r: Rep)
    requires (forall n | n in r.disks :: n in r.store) && Rooted1(r.disks, r.parent)
    ensures Stored(r.store, PathOf(r.disks, r.parent))
  {
    if r.parent != NoDisk {
      PathInDisks(r.disks, r.parent, PathOf(r.disks, r.parent));
    }
  }

  /** The replica shows the volume. */
  ghost predicate Shows(r: Rep, vol: seq<Sector>) {
    RepOk(r, |vol| * 4096) && forall s | 0 <= s < |vol| :: SectorAt(Chain(r), s) == vol[s]
  }

  /** Disks of two replicas with the same parent and file. */
  ghost predicate SameDisk(a: Rep, b: Rep, n: DiskName) {
    && n in a.disks && n in b.disks && a.disks[n] == b.disks[n]
    && n in a.store && n in b.store && a.store[n] == b.store[n]
  }

  /** The snapshot disks of a replica and their files stay. */
  ghost predicate KeepsDisks(r: Rep, r': Rep) {
    forall n | n in r.disks && n in r.store :: SameDisk(r, r', n)
  }

  // ----- writes -----

  function SpliceAll(vol: seq<Sector>, off: nat, buf: seq<byte>): (v: seq<Sector>)
    ensures |v| == |vol| && forall s | 0 <= s < |vol| :: v[s] == Splice(vol[s], s, off, buf)
  {
    seq(|vol|, s requires 0 <= s < |vol| => Splice(vol[s], s, off, buf))
  }

  ghost function WriteRep(r: Rep, off: nat, buf: seq<byte>): Rep
    requires RepOk(r, r.head.size)
  {
    r.(head := WriteLayer(Chain(r), off, buf))
  }

  /** A replica that is not readable yet stores the aligned buffer as it is. */
  function StoreAligned(r: Rep, off: nat, buf: seq<byte>): Rep {
    r.(head := Layer(r.head.size, r.head.data + map s | s in Touched(off, |buf|) :: Splice(Zeros(), s, off, buf)))
  }

  predicate IsAligned(off: nat, len: nat) {
    off % 4096 == 0 && len % 4096 == 0
  }

  lemma WriteShows(r: Rep, vol: seq<Sector>, off: nat, buf: seq<byte>)
    requires Shows(r, vol)
    ensures Shows(WriteRep(r, off, buf), SpliceAll(vol, off, buf))
  {
    var r' := WriteRep(r, off, buf);
    assert Chain(r') == WriteTop(Chain(r), off, buf);
    forall s | 0 <= s < |vol| ensures SectorAt(Chain(r'), s) == Splice(vol[s], s, off, buf) {
      WriteSplices(Chain(r), off, buf, s);
    }
  }

  /** An aligned write needs nothing of the image below, so a readable replica stores the same. */
  lemma AlignedWriteSame(r: Rep, off: nat, buf: seq<byte>)
    requires RepOk(r, r.head.size) && IsAligned(off, |buf|)
    ensures WriteRep(r, off, buf) == StoreAligned(r, off, buf)
  {
    forall s | s in Touched(off, |buf|)
      ensures Splice(SectorAt(Chain(r), s), s, off, buf) == Splice(Zeros(), s, off, buf)
    {
      AlignedCovers(off, buf, s);
    }
    assert SplicedSectors(Chain(r), off, buf) == map s | s in Touched(off, |buf|) :: Splice(Zeros(), s, off, buf);
  }

  lemma AlignedCovers(off: nat, buf: seq<byte>, s: nat)
    requires IsAligned(off, |buf|) && s in Touched(off, |buf|)
    ensures off <= s * 4096 && s * 4096 + 4096 <= off + |buf|
  {
    var o, n := off / 4096, |buf| / 4096;
    assert off == o * 4096 && |buf| == n * 4096;
    assert o <= s < o + n;
  }

  /** The range a write is widened to while a replica is rebuilt. */
  function WideStart(off: nat): nat {
    off - off % 4096
  }

  function WideEnd(off: nat, len: nat): nat {
    if (off + len) % 4096 == 0 then off + len else ((off + len) / 4096 + 1) * 4096
  }

  ghost function WideByte(from: Rep, off: nat, buf: seq<byte>, pos: nat): byte
    requires RepOk(from, from.head.size)
  {
    if off <= pos < off + |buf| then buf[pos - off] else ByteAt(Chain(from), pos)
  }

  /** The widened buffer: whole sectors as read from `from`, with `buf` laid over them. */
  ghost function WideBuf(from: Rep, off: nat, buf: seq<byte>): (w: seq<byte>)
    requires RepOk(from, from.head.size)
    ensures |w| == WideEnd(off, |buf|) - WideStart(off)
    ensures forall i | 0 <= i < |w| :: w[i] == WideByte(from, off, buf, WideStart(off) + i)
  {
    var lo := WideStart(off);
    seq<byte>(WideEnd(off, |buf|) - lo, i requires 0 <= i => WideByte(from, off, buf, lo + i))
  }

  /** Widening keeps the write: inside the volume the sectors come out the same. */
  lemma WideSame(from: Rep, vol: seq<Sector>, off: nat, buf: seq<byte>)
    requires Shows(from, vol) && off + |buf| <= |vol| * 4096 && 0 < |buf|
    ensures IsAligned(WideStart(off), |WideBuf(from, off, buf)|)
    ensures SpliceAll(vol, WideStart(off), WideBuf(from, off, buf)) == SpliceAll(vol, off, buf)
  {
    WideAligned(off, |buf|, |vol|);
    forall s | 0 <= s < |vol|
      ensures Splice(vol[s], s, WideStart(off), WideBuf(from, off, buf)) == Splice(vol[s], s, off, buf)
    {
      WideSector(from, vol, off, buf, s);
    }
  }

  lemma WideAligned(off: nat, len: nat, n: nat)
    requires off + len <= n * 4096
    ensures WideStart(off) <= off && off + len <= WideEnd(off, len) <= n * 4096
    ensures WideStart(off) % 4096 == 0 && (WideEnd(off, len) - WideStart(off)) % 4096 == 0
  {
    assert WideStart(off) == off / 4096 * 4096;
    assert WideEnd(off, len) == (off + len + 4095) / 4096 * 4096;
  }

  lemma WideSector(from: Rep, vol: seq<Sector>, off: nat, buf: seq<byte>, s: nat)
    requires Shows(from, vol) && off + |buf| <= |vol| * 4096 && s < |vol|
    ensures Splice(vol[s], s, WideStart(off), WideBuf(from, off, buf)) == Splice(vol[s], s, off, buf)
  {
    WideAligned(off, |buf|, |vol|);
    var lo, w := WideStart(off), WideBuf(from, off, buf);
    var a, b := Splice(vol[s], s, lo, w), Splice(vol[s], s, off, buf);
    forall k | 0 <= k < 4096 ensures a[k] == b[k] {
      ReadsVolume(from, vol, s, k);
      hide WideStart, WideEnd, RepOk, Chain;
      var pos := s * 4096 + k;
      if lo <= pos < lo + |w| {
        assert w[pos - lo] == WideByte(from, off, buf, lo + (pos - lo));
        assert lo + (pos - lo) == pos;
      }
    }
    assert a == b;
  }

  lemma ReadsVolume(r: Rep, vol: seq<Sector>, s: nat, k: nat)
    requires Shows(r, vol) && s < |vol| && k < 4096
    ensures ByteAt(Chain(r), s * 4096 + k) == vol[s][k]
  {
    var pos := s * 4096 + k;
    assert pos / 4096 == s && pos % 4096 == k;
  }

  // ----- snapshots -----

  function SnapRep(r: Rep, name: DiskName): Rep {
    Rep(r.disks[name := Disk(r.parent, false)], r.store[name := r.head], name, Layer(r.head.size, map[]), r.under)
  }

  /** A name that is not on the way to the head can be taken, whatever disk had it. */
  lemma SnapShows(r: Rep, vol: seq<Sector>, name: DiskName)
    requires Shows(r, vol) && OffPath(r, name) && name != NoDisk
    ensures Shows(SnapRep(r, name), vol)
  {
    var r' := SnapRep(r, name);
    var p := PathOf(r.disks, r.parent);
    SnapPath(r, name);
    ChainStored(r);
    hide IsPath, SectorAt;
    SameLayers(r.store, r'.store, p);
    LayersPush(r'.store, p, name);
    assert Chain(r') == Chain(r) + [Layer(r.head.size, map[])];
    forall s | 0 <= s < |vol| ensures SectorAt(Chain(r'), s) == vol[s] {
      SectorAtSnoc(Chain(r), Layer(r.head.size, map[]), s);
    }
  }

  lemma SnapPath(r: Rep, name: DiskName)
    requires Rooted1(r.disks, r.parent) && OffPath(r, name) && name != NoDisk
    ensures var d', p := SnapRep(r, name).disks, PathOf(r.disks, r.parent);
            && IsPath(d', name, p + [name]) && PathOf(d', name) == p + [name] && name !in p
  {
    var d', p := SnapRep(r, name).disks, PathOf(r.disks, r.parent);
    if r.parent != NoDisk {
      PathInDisks(r.disks, r.parent, p);
      PathFrame(r.disks, d', r.parent, p);
    }
    assert (p + [name])[..|p|] == p;
    assert IsPath(d', name, p + [name]);
    PathUnique(d', name, p + [name], PathOf(d', name));
  }

  /** The name is not on the way from the head to the root. */
  ghost predicate OffPath(r: Rep, name: DiskName) {
    forall p | IsPath(r.disks, r.parent, p) :: name !in p
  }

  lemma NewNameOffPath(r: Rep, name: DiskName)
    requires name !in r.disks
    ensures OffPath(r, name)
  {
    forall p | IsPath(r.disks, r.parent, p) ensures name !in p {
      PathInDisks(r.disks, r.parent, p);
    }
  }

  /** After a snapshot the head has a path if and only if the name was not on its path before: a disk on the path that
      is replaced by the snapshot closes a cycle. */
  lemma SnapRootedIff(r: Rep, name: DiskName)
    requires Rooted1(r.disks, r.parent) && name != NoDisk
    ensures Rooted1(SnapRep(r, name).disks, name) <==> OffPath(r, name)
  {
    var d, d', p := r.disks, SnapRep(r, name).disks, PathOf(r.disks, r.parent);
    if OffPath(r, name) {
      SnapPath(r, name);
    } else if Rooted1(d', name) {
      var p0 :| IsPath(d, r.parent, p0) && name in p0;
      var q :| IsPath(d', name, q);
      var i :| 0 <= i < |p0| && p0[i] == name;
      PathNotSelf(d', name, q);
      PathLinks(d, r.parent, p0, |p0| - 1);
      MeetsName(d, d', r.parent, p0, i, q[..|q| - 1]);
    }
  }

  /** A path in the changed tree from a disk above `name` passes `name`. */
  lemma {:induction false} MeetsName(d: Disks, d': Disks, n: DiskName, p: seq<DiskName>, i: nat, q: seq<DiskName>)
    requires IsPath(d, n, p) && i < |p| && IsPath(d', n, q) && p[i] in d' && d' == d[p[i] := d'[p[i]]]
    ensures p[i] in q
    decreases |p|
  {
    if n != p[i] {
      var init := p[..|p| - 1];
      assert p[|p| - 1] == n;
      PathLinks(d, n, p, |p| - 1);
      MeetsName(d, d', d[n].parent, init, i, q[..|q| - 1]);
    } else {
      assert q[|q| - 1] == n;
    }
  }

  /** A replica that has the disks, files and head of another shows the same, whatever else it has. */
  lemma SameShows(r: Rep, t: Rep, vol: seq<Sector>)
    requires Shows(t, vol) && r.parent == t.parent && r.head == t.head && r.under == t.under
    requires NoDisk !in r.disks && (forall n | n in r.disks :: n in r.store)
    requires forall n | n in t.disks :: SameDisk(r, t, n)
    ensures Shows(r, vol)
  {
    var p := PathOf(t.disks, t.parent);
    if t.parent != NoDisk {
      PathInDisks(t.disks, t.parent, p);
      PathFrame(t.disks, r.disks, t.parent, p);
      PathUnique(r.disks, t.parent, p, PathOf(r.disks, t.parent));
    }
    ChainStored(t);
    SameLayers(t.store, r.store, p);
    assert Chain(r) == Chain(t);
  }

  // ----- the system -----

  /** Progress of a rebuild: `target` is what the new replica will be once the disks in `pending` are
      copied from `src`. */
  datatype Rebuild = Idle | Copying(target: Rep, pending: set<DiskName>, src: Addr)

  /** The volume and its replicas.  While a replica is being rebuilt, `since` are the disks made since it was added,
      and `known` the disks it has in memory: files that are copied into its directory become known at a reload. */
  datatype Sys = Sys(
    modes: Modes,
    reps: map<Addr, Rep>,
    vol: seq<Sector>,
    rebuild: Rebuild,
    since: set<DiskName>,
    known: set<DiskName>)

  /** Steps, with everything the environment decides as parameters: which replicas break and what they
      are left with, which replica answers a read. */
  datatype Step =
    | Write(off: nat, buf: seq<byte>, reader: Addr, broken: map<Addr, Rep>)
    | WriteRefused
    | TakeSnapshot(name: DiskName, broken: map<Addr, Rep>)
    | AddReplica(a: Addr, rep: Rep, name: DiskName)
    | AddRefused(name: DiskName, took: set<Addr>)
    | Fail(a: Addr)
    | Remove(a: Addr)
    | Prepare(a: Addr, list: Addr, src: Addr)
    | Copy(n: DiskName)
    | Reload(a: Addr)
    | Verify(a: Addr, rw: Addr)
    | Compact(a: Addr, rep: Rep)

  function Readable(s: Sys): set<Addr> {
    WithMode(s.modes, RW)
  }

  function Rebuilding(s: Sys): set<Addr> {
    WithMode(s.modes, WO)
  }

  /** The disks that a replica in use has in memory. */
  function KnownTo(s: Sys, a: Addr): set<DiskName>
    requires a in s.modes && a in s.reps
  {
    if s.modes[a] == WO then s.known else s.reps[a].disks.Keys
  }

  /** If the replica that files are copied from breaks, its snapshot disks and their files stay. */
  ghost predicate SourceStays(s: Sys, broken: map<Addr, Rep>) {
    s.rebuild.Copying? && s.rebuild.src in broken && s.rebuild.src in s.reps ==>
      KeepsDisks(s.reps[s.rebuild.src], broken[s.rebuild.src])
  }

  /** A snapshot name that no replica in use knows, and that is harmless to a rebuild: it is neither still to be copied
      nor on the path of the rebuild's target. */
  ghost predicate Fresh(s: Sys, name: DiskName) {
    && name.Snapshot?
    && (forall a | a in Writers(s.modes) && a in s.reps :: name !in KnownTo(s, a))
    && (s.rebuild.Copying? ==> name !in s.rebuild.pending && OffPath(s.rebuild.target, name))
  }

  /** A snapshot name that every replica in use knows. */
  predicate Everywhere(s: Sys, name: DiskName) {
    forall a | a in Writers(s.modes) && a in s.reps :: name in KnownTo(s, a)
  }

  /** The replicas that take a snapshot: one that knows the name refuses it, without an effect on its mode. */
  function Takers(s: Sys, name: DiskName): set<Addr> {
    set a | a in Writers(s.modes) && a in s.reps && name !in KnownTo(s, a)
  }

  ghost predicate SameContents(a: Rep, b: Rep) {
    a.disks == b.disks && forall n | n in a.disks :: SameDisk(a, b, n)
  }

  /** When a step can be taken. */
  ghost predicate Enabled(s: Sys, step: Step)
    requires s.modes.Keys <= s.reps.Keys
  {
    match step
    case Write(off, buf, reader, broken) =>
      && 0 < |buf| && off + |buf| <= |s.vol| * 4096
      && reader in Readable(s) && broken.Keys <= Writers(s.modes) && SourceStays(s, broken)
    case WriteRefused => true
    case TakeSnapshot(name, broken) =>
      && name.Snapshot? && broken.Keys <= Writers(s.modes) && SourceStays(s, broken)
      && (Rebuilding(s) == {} || Fresh(s, name) || Everywhere(s, name))
    case AddReplica(a, rep, name) =>
      && a !in s.modes && Rebuilding(s) == {} && Fresh(s, name)
      && rep.head.size == |s.vol| * 4096 && name !in rep.disks
      && NoDisk !in rep.disks && (forall n | n in rep.disks :: n in rep.store)
      && (forall b | b in Readable(s) :: rep.under == s.reps[b].under)
    case AddRefused(name, took) => Rebuilding(s) == {} && Fresh(s, name) && took <= Readable(s)
    case Fail(a) => true
    case Remove(a) => true
    case Prepare(a, list, src) =>
      && a in Rebuilding(s) && list in Readable(s) && src in Readable(s)
      && SameContents(s.reps[list], s.reps[src])
    case Copy(n) =>
      && s.rebuild.Copying? && n in s.rebuild.pending && s.rebuild.src in s.reps && Rebuilding(s) != {}
    case Reload(a) => a in Rebuilding(s) && Rooted1(s.reps[a].disks, s.reps[a].parent)
    case Verify(a, rw) =>
      && a in Rebuilding(s) && rw in Readable(s)
      && s.rebuild.Copying? && s.rebuild.pending == {} && s.known == s.reps[a].disks.Keys
      && s.known == s.reps[rw].disks.Keys
    case Compact(a, rep) => a in Readable(s) && Rebuilding(s) == {} && Shows(rep, s.vol)
  }

  // ----- what the steps do -----

  /** The write that reaches the replicas. */
  ghost function SentOff(s: Sys, step: Step): nat
    requires step.Write?
  {
    if Rebuilding(s) != {} && !IsAligned(step.off, |step.buf|) then WideStart(step.off) else step.off
  }

  ghost function SentBuf(s: Sys, step: Step): seq<byte>
    requires step.Write? && step.reader in s.reps && RepOk(s.reps[step.reader], s.reps[step.reader].head.size)
  {
    if Rebuilding(s) != {} && !IsAligned(step.off, |step.buf|)
    then WideBuf(s.reps[step.reader], step.off, step.buf) else step.buf
  }

  ghost function WriteOne(m: Mode, r: Rep, off: nat, buf: seq<byte>): Rep {
    if m == RW && RepOk(r, r.head.size) then WriteRep(r, off, buf) else if m == WO then StoreAligned(r, off, buf) else r
  }

  ghost function Written(s: Sys, off: nat, buf: seq<byte>, broken: map<Addr, Rep>): map<Addr, Rep>
    requires s.modes.Keys <= s.reps.Keys
  {
    map a | a in s.reps ::
      if a in broken then broken[a] else if a in s.modes then WriteOne(s.modes[a], s.reps[a], off, buf) else s.reps[a]
  }

  function Snapped(s: Sys, name: DiskName, who: set<Addr>, broken: map<Addr, Rep>): map<Addr, Rep>
    requires s.modes.Keys <= s.reps.Keys
  {
    map a | a in s.reps :: if a in broken then broken[a] else if a in who then SnapRep(s.reps[a], name) else s.reps[a]
  }

  /** The rebuild ends when no write-only replica is left. */
  function Settle(modes: Modes, rebuild: Rebuild): Rebuild {
    if WithMode(modes, WO) == {} then Idle else rebuild
  }

  ghost function Apply(s: Sys, step: Step): Sys
    requires Inv(s) && Enabled(s, step)
  {
    match step
    case Write(off, buf, reader, broken) => ApplyWrite(s, step)
    case WriteRefused => s
    case TakeSnapshot(name, broken) =>
      var modes := WithErrors(s.modes, broken.Keys);
      var rebuild := if s.rebuild.Copying? && Fresh(s, name) then s.rebuild.(target := SnapRep(s.rebuild.target, name))
                     else s.rebuild;
      Sys(modes, Snapped(s, name, Takers(s, name), broken), s.vol, Settle(modes, rebuild),
          if Fresh(s, name) then s.since + {name} else s.since, if Fresh(s, name) then s.known + {name} else s.known)
    case AddReplica(a, rep, name) =>
      Sys(s.modes[a := WO], Snapped(s, name, Writers(s.modes), map[])[a := SnapRep(rep, name)], s.vol, Idle, {},
          rep.disks.Keys + {name})
    case AddRefused(name, took) => s.(reps := Snapped(s, name, took, map[]))
    case Fail(a) =>
      var modes := SetMode(s.modes, a, ERR);
      s.(modes := modes, rebuild := Settle(modes, s.rebuild))
    case Remove(a) =>
      var modes := s.modes - {a};
      s.(modes := modes, rebuild := Settle(modes, s.rebuild))
    case Prepare(a, list, src) =>
      var t, r := s.reps[list], s.reps[a];
      var kept := map n | n in r.disks && (n in t.disks || n !in s.known) :: r.disks[n];
      s.(reps := s.reps[a := Rep(kept, r.store, t.parent, r.head, r.under)], rebuild := Copying(t, t.disks.Keys, src),
         known := s.known * t.disks.Keys)
    case Copy(n) => ApplyCopy(s, n)
    case Reload(a) => s.(known := s.reps[a].disks.Keys)
    case Verify(a, rw) => s.(modes := SetMode(s.modes, a, RW), rebuild := Idle, since := {}, known := {})
    case Compact(a, rep) => s.(reps := s.reps[a := rep])
  }

  /** A write lands on the rebuild's target as on the replica being rebuilt. */
  function StoredBy(rebuild: Rebuild, off: nat, buf: seq<byte>): Rebuild {
    if rebuild.Copying? then rebuild.(target := StoreAligned(rebuild.target, off, buf)) else rebuild
  }

  ghost function ApplyWrite(s: Sys, step: Step): Sys
    requires Inv(s) && Enabled(s, step) && step.Write?
  {
    assert s.modes[step.reader] == RW;
    var off, buf := SentOff(s, step), SentBuf(s, step);
    var modes := WithErrors(s.modes, step.broken.Keys);
    var rebuild := StoredBy(s.rebuild, off, buf);
    Sys(modes, Written(s, off, buf, step.broken), SpliceAll(s.vol, step.off, step.buf), Settle(modes, rebuild),
        s.since, s.known)
  }

  ghost function ApplyCopy(s: Sys, n: DiskName): Sys
    requires Inv(s) && Enabled(s, Copy(n))
  {
    var a :| a in Rebuilding(s);
    var r, src := s.reps[a], s.reps[s.rebuild.src];
    assert AgreesOn(src, s.rebuild.target, s.rebuild.pending);
    s.(reps := s.reps[a := r.(disks := r.disks[n := src.disks[n]], store := r.store[n := src.store[n]])],
       rebuild := s.rebuild.(pending := s.rebuild.pending - {n}))
  }

  // ----- the invariant -----

  ghost predicate AgreesOn(a: Rep, b: Rep, names: set<DiskName>) {
    forall n | n in names :: SameDisk(a, b, n)
  }

  /** Since a write-only replica was added: the heads and all disks created since are the same on it and
      on every RW replica. */
  ghost predicate NewLayersAgree(s: Sys, w: Addr)
    requires s.modes.Keys <= s.reps.Keys && w in s.modes
  {
    && s.reps[w].head.size == |s.vol| * 4096 && s.known <= s.reps[w].disks.Keys
    && NoDisk !in s.reps[w].disks && (forall n | n in s.reps[w].disks :: n in s.reps[w].store)
    && forall a | a in Readable(s) ::
         && s.reps[a].head == s.reps[w].head && s.reps[a].parent == s.reps[w].parent
         && s.reps[a].under == s.reps[w].under
         && AgreesOn(s.reps[a], s.reps[w], s.since)
  }

  /** The rebuild target shows the volume; the new replica has its head and all its disks but the pending ones, and
      those made since it was added; the source, in use or not, still has the pending ones. */
  ghost predicate TargetOk(s: Sys, w: Addr)
    requires s.modes.Keys <= s.reps.Keys && w in s.modes && s.rebuild.Copying?
  {
    var t, r := s.rebuild.target, s.reps[w];
    && Shows(t, s.vol) && t.head == r.head && t.parent == r.parent && t.under == r.under
    && s.rebuild.pending <= t.disks.Keys
    && AgreesOn(r, t, t.disks.Keys - s.rebuild.pending) && AgreesOn(r, t, s.since) && s.rebuild.src != w
    && (s.rebuild.src in s.reps ==> AgreesOn(s.reps[s.rebuild.src], t, s.rebuild.pending))
  }

  ghost predicate Inv(s: Sys) {
    && s.modes.Keys <= s.reps.Keys && AtMostOneWO(s.modes)
    && (forall a | a in Readable(s) :: Shows(s.reps[a], s.vol))
    && (forall w | w in Rebuilding(s) :: NewLayersAgree(s, w) && (s.rebuild.Copying? ==> TargetOk(s, w)))
    && (Rebuilding(s) == {} ==> s.rebuild.Idle?)
  }

  // ----- every step keeps the invariant -----

  lemma SentWrite(s: Sys, step: Step)
    requires Inv(s) && Enabled(s, step) && step.Write?
    ensures s.modes[step.reader] == RW && Shows(s.reps[step.reader], s.vol)
    ensures RepOk(s.reps[step.reader], s.reps[step.reader].head.size)
    ensures Rebuilding(s) != {} ==> IsAligned(SentOff(s, step), |SentBuf(s, step)|)
    ensures SpliceAll(s.vol, SentOff(s, step), SentBuf(s, step)) == SpliceAll(s.vol, step.off, step.buf)
  {
    hide NewLayersAgree, TargetOk, WideBuf, WideStart;
    WideSame(s.reps[step.reader], s.vol, step.off, step.buf);
  }

  lemma WriteKeeps(s: Sys, step: Step)
    requires Inv(s) && Enabled(s, step) && step.Write?
    ensures Inv(ApplyWrite(s, step))
  {
    hide Shows, TargetOk, NewLayersAgree, SpliceAll, AtMostOneWO, RepOk, StoreAligned;
    SentWrite(s, step);
    var s' := ApplyWrite(s, step);
    var off, buf := SentOff(s, step), SentBuf(s, step);
    ErrorsOnly(s.modes, step.broken.Keys);
    hide SentOff, SentBuf;
    forall a | a in Readable(s') ensures Shows(s'.reps[a], s'.vol) {
      WriteReadable(s.reps[a], s.vol, off, buf);
    }
    forall w | w in Rebuilding(s') ensures NewLayersAgree(s', w) && (s'.rebuild.Copying? ==> TargetOk(s', w)) {
      WriteRebuilding(s, s', off, buf, step.broken, w);
    }
  }

  lemma ErrorsOnly(modes: Modes, failed: set<Addr>)
    ensures var modes' := WithErrors(modes, failed);
            && WithMode(modes', RW) == WithMode(modes, RW) - failed
            && WithMode(modes', WO) == WithMode(modes, WO) - failed
            && (AtMostOneWO(modes) ==> AtMostOneWO(modes'))
  {
  }

  lemma WriteReadable(r: Rep, vol: seq<Sector>, off: nat, buf: seq<byte>)
    requires Shows(r, vol)
    ensures Shows(WriteOne(RW, r, off, buf), SpliceAll(vol, off, buf))
  {
    WriteShows(r, vol, off, buf);
  }

  /** While a replica is rebuilt every write is aligned, so all heads change alike. */
  lemma WriteRebuilding(s: Sys, s': Sys, off: nat, buf: seq<byte>, broken: map<Addr, Rep>, w: Addr)
    requires Inv(s) && IsAligned(off, |buf|) && w in Rebuilding(s) && w !in broken && SourceStays(s, broken)
    requires s'.modes == WithErrors(s.modes, broken.Keys) && s'.reps == Written(s, off, buf, broken)
    requires s'.vol == SpliceAll(s.vol, off, buf) && s'.since == s.since && s'.known == s.known
    requires Readable(s') == Readable(s) - broken.Keys
    requires s'.rebuild == StoredBy(s.rebuild, off, buf)
    ensures NewLayersAgree(s', w) && (s'.rebuild.Copying? ==> TargetOk(s', w))
  {
    hide Shows, StoreAligned;
    assert s'.reps[w] == StoreAligned(s.reps[w], off, buf);
    StoreKeeps(s.reps[w], off, buf);
    forall a | a in Readable(s')
      ensures s'.reps[a] == StoreAligned(s.reps[a], off, buf)
      ensures s'.reps[a].head == s'.reps[w].head && s'.reps[a].parent == s'.reps[w].parent
      ensures s'.reps[a].under == s'.reps[w].under && AgreesOn(s'.reps[a], s'.reps[w], s.since)
    {
      assert Shows(s.reps[a], s.vol);
      ReadableStores(s.reps[a], s.vol, off, buf);
      StoreKeeps(s.reps[a], off, buf);
      SameHeads(s.reps[a], s.reps[w], off, buf);
    }
    if s'.rebuild.Copying? {
      var t, src := s.rebuild.target, s.rebuild.src;
      ReadableStores(t, s.vol, off, buf);
      StoreKeeps(t, off, buf);
      SameHeads(t, s.reps[w], off, buf);
      if src in s.reps {
        WriteOneKeeps(if src in s.modes then s.modes[src] else ERR, s.reps[src], off, buf);
        SourceKeeps(s.reps[src], s'.reps[src], t, s.rebuild.pending);
      }
    }
  }

  /** A source that keeps its disks still has those to be copied. */
  lemma SourceKeeps(r: Rep, r': Rep, t: Rep, pending: set<DiskName>)
    requires AgreesOn(r, t, pending) && KeepsDisks(r, r')
    ensures AgreesOn(r', t, pending)
  {
    forall n | n in pending ensures SameDisk(r', t, n) {
      assert SameDisk(r, t, n);
    }
  }

  lemma WriteOneKeeps(m: Mode, r: Rep, off: nat, buf: seq<byte>)
    ensures KeepsDisks(r, WriteOne(m, r, off, buf)) && KeepsDisks(r, r)
  {
  }

  lemma StoreKeeps(r: Rep, off: nat, buf: seq<byte>)
    ensures var r' := StoreAligned(r, off, buf);
            && r'.disks == r.disks && r'.store == r.store && r'.parent == r.parent && r'.under == r.under
            && r'.head.size == r.head.size
  {
  }

  lemma SameHeads(a: Rep, b: Rep, off: nat, buf: seq<byte>)
    requires a.head == b.head
    ensures StoreAligned(a, off, buf).head == StoreAligned(b, off, buf).head
  {
  }

  lemma ReadableStores(r: Rep, vol: seq<Sector>, off: nat, buf: seq<byte>)
    requires Shows(r, vol) && IsAligned(off, |buf|)
    ensures WriteOne(RW, r, off, buf) == StoreAligned(r, off, buf)
    ensures Shows(StoreAligned(r, off, buf), SpliceAll(vol, off, buf))
  {
    AlignedWriteSame(r, off, buf);
    WriteShows(r, vol, off, buf);
  }

  lemma SnapshotKeeps(s: Sys, name: DiskName, broken: map<Addr, Rep>)
    requires Inv(s) && Enabled(s, TakeSnapshot(name, broken))
    ensures Inv(Apply(s, TakeSnapshot(name, broken)))
  {
    hide Shows, TargetOk, NewLayersAgree, AtMostOneWO, SnapRep, Fresh, Everywhere;
    var s' := Apply(s, TakeSnapshot(name, broken));
    ErrorsOnly(s.modes, broken.Keys);
    forall a | a in Readable(s') ensures Shows(s'.reps[a], s'.vol) {
      assert a in Readable(s) && a in Writers(s.modes);
      if name !in s.reps[a].disks {
        NewNameOffPath(s.reps[a], name);
        SnapShows(s.reps[a], s.vol, name);
      }
    }
    forall w | w in Rebuilding(s') ensures NewLayersAgree(s', w) && (s'.rebuild.Copying? ==> TargetOk(s', w)) {
      if Fresh(s, name) {
        FreshTakers(s, name);
        SnapshotRebuilding(s, s', name, broken, w);
      } else {
        NoTakers(s, name);
        RefusedRebuilding(s, s', name, broken, w);
      }
    }
  }

  lemma FreshTakers(s: Sys, name: DiskName)
    requires Fresh(s, name) && s.modes.Keys <= s.reps.Keys
    ensures Takers(s, name) == Writers(s.modes)
  {
  }

  lemma NoTakers(s: Sys, name: DiskName)
    requires Everywhere(s, name)
    ensures Takers(s, name) == {}
  {
  }

  /** A name that every replica has changes nothing but the replicas that break. */
  lemma RefusedRebuilding(s: Sys, s': Sys, name: DiskName, broken: map<Addr, Rep>, w: Addr)
    requires Inv(s) && w in Rebuilding(s) && w !in broken && SourceStays(s, broken)
    requires s'.modes == WithErrors(s.modes, broken.Keys) && s'.reps == Snapped(s, name, {}, broken)
    requires s'.vol == s.vol && s'.since == s.since && s'.known == s.known
    requires Readable(s') == Readable(s) - broken.Keys && s'.rebuild == s.rebuild
    ensures NewLayersAgree(s', w) && (s'.rebuild.Copying? ==> TargetOk(s', w))
  {
    hide Shows, AgreesOn, KeepsDisks;
    assert s'.reps[w] == s.reps[w];
    assert forall a | a in Readable(s') :: s'.reps[a] == s.reps[a];
    if s.rebuild.Copying? && s.rebuild.src in s.reps {
      var src := s.rebuild.src;
      WriteOneKeeps(ERR, s.reps[src], 0, []);
      SourceKeeps(s.reps[src], s'.reps[src], s.rebuild.target, s.rebuild.pending);
    }
  }

  /** A snapshot turns equal heads into equal disks and equal empty heads. */
  lemma SnapshotRebuilding(s: Sys, s': Sys, name: DiskName, broken: map<Addr, Rep>, w: Addr)
    requires Inv(s) && Fresh(s, name) && w in Rebuilding(s) && w !in broken && SourceStays(s, broken)
    requires s'.modes == WithErrors(s.modes, broken.Keys) && s'.reps == Snapped(s, name, Writers(s.modes), broken)
    requires s'.vol == s.vol && s'.since == s.since + {name} && s'.known == s.known + {name}
    requires Readable(s') == Readable(s) - broken.Keys
    requires s'.rebuild == if s.rebuild.Copying? then s.rebuild.(target := SnapRep(s.rebuild.target, name))
             else s.rebuild
    ensures NewLayersAgree(s', w) && (s'.rebuild.Copying? ==> TargetOk(s', w))
  {
    hide Shows;
    assert w in Writers(s.modes);
    forall a | a in Readable(s')
      ensures s'.reps[a] == SnapRep(s.reps[a], name)
      ensures s'.reps[a].head == s'.reps[w].head && s'.reps[a].parent == s'.reps[w].parent
      ensures s'.reps[a].under == s'.reps[w].under && AgreesOn(s'.reps[a], s'.reps[w], s.since + {name})
    {
      assert a in Readable(s) && a in Writers(s.modes);
      SnapAgrees(s.reps[a], s.reps[w], name, s.since);
    }
    if s.rebuild.Copying? {
      var t, r, p := s.rebuild.target, s.reps[w], s.rebuild.pending;
      SnapShows(t, s.vol, name);
      SnapAgrees(r, t, name, t.disks.Keys - p);
      SnapAgrees(r, t, name, s.since);
      assert SnapRep(t, name).disks.Keys - p == t.disks.Keys - p + {name};
      if s.rebuild.src in s.reps {
        SourceSnapped(s, s', name, broken);
      }
    }
  }

  ghost predicate InStep(a: Rep, b: Rep, names: set<DiskName>) {
    a.head == b.head && a.parent == b.parent && AgreesOn(a, b, names)
  }

  /** A replica that knows the disks `known`, as a snapshot request leaves it: a name it does not know is taken, and a
      file that is already there under that name is replaced. */
  function Asked(r: Rep, known: set<DiskName>, name: DiskName): Rep {
    if name in known then r else SnapRep(r, name)
  }

  /** A snapshot during a rebuild: an RW replica and the new one agree afterwards on the head and on the disks made
      since the rebuild began if and only if both or neither know its name, whatever files have been copied. */
  lemma SnapshotInStepIff(a: Rep, w: Rep, known: set<DiskName>, vol: seq<Sector>, name: DiskName, since: set<DiskName>)
    requires Shows(a, vol) && InStep(a, w, since) && name != NoDisk
    ensures InStep(Asked(a, a.disks.Keys, name), Asked(w, known, name),
                   if name in a.disks && name in known then since else since + {name})
       <==> (name in a.disks <==> name in known)
  {
    hide SectorAt;
    if name in a.disks && name !in known && a.parent == name {
      PathNotSelf(a.disks, name, PathOf(a.disks, name));
      assert AgreesOn(a, SnapRep(w, name), since + {name}) ==> SameDisk(a, SnapRep(w, name), name);
    } else if name !in a.disks && name !in known {
      SnapAgrees(a, w, name, since);
    }
  }

  /** A rebuild that goes wrong.  The RW replica has a disk `s1` under the snapshot `u` with which the new one was
      added; both are copied, but the new replica has not been reloaded. */
  function CopiedState(head: Layer): Sys {
    var s1, u := Snapshot("s1"), Snapshot("u");
    var rep := Rep(map[s1 := Disk(NoDisk, false), u := Disk(s1, false)],
                   map[s1 := Layer(4096, map[]), u := Layer(4096, map[])], u, head, []);
    Sys(map["a" := RW, "b" := WO], map["a" := rep, "b" := rep], [SectorAt([head], 0)], Copying(rep, {}, "a"), {}, {u})
  }

  /** A snapshot named `s1` is then refused by the RW replica and taken by the new one.  Their heads and parents differ,
      and the new head has no path: its parent `s1` now lies over `u`, and `u` over `s1`. */
  lemma CopiedNameClash(head: Layer)
    requires head.size == 4096 && head.data != map[]
    ensures var s, s1 := CopiedState(head), Snapshot("s1");
            var a, b := s.reps["a"], s.reps["b"];
            var b' := Asked(b, KnownTo(s, "b"), s1);
            && Inv(s) && s1 in b.disks && Asked(a, KnownTo(s, "a"), s1) == a
            && b'.head != a.head && b'.parent == s1 != a.parent
            && forall p :: !IsPath(b'.disks, b'.parent, p)
  {
    var s, s1, u := CopiedState(head), Snapshot("s1"), Snapshot("u");
    CopiedInv(head);
    hide Inv, IsPath;
    var b' := SnapRep(s.reps["b"], s1);
    forall p ensures !IsPath(b'.disks, s1, p) {
      NoCycle(b'.disks, s1, u, p);
    }
  }

  lemma CopiedInv(head: Layer)
    requires head.size == 4096
    ensures Inv(CopiedState(head))
  {
    var s := CopiedState(head);
    CopiedShows(s.reps["a"], s.vol, head);
    hide Shows;
    assert WithMode(s.modes, RW) == {"a"} && WithMode(s.modes, WO) == {"b"};
  }

  lemma CopiedShows(a: Rep, vol: seq<Sector>, head: Layer)
    requires a == CopiedState(head).reps["a"] && vol == [SectorAt([head], 0)] && head.size == 4096
    ensures Shows(a, vol)
  {
    CopiedPath(a);
    hide IsPath;
    EmptyShows(a, [Snapshot("s1"), Snapshot("u")], head);
  }

  /** Over empty snapshots a head shows just itself. */
  lemma EmptyShows(r: Rep, p: seq<DiskName>, head: Layer)
    requires IsPath(r.disks, r.parent, p) && NoDisk !in r.disks && (forall n | n in r.disks :: n in r.store)
    requires (forall n | n in r.store :: r.store[n].data == map[]) && r.under == []
    requires r.head == head && head.size == 4096
    ensures Shows(r, [SectorAt([head], 0)])
  {
    PathInDisks(r.disks, r.parent, p);
    assert p != [];
    assert r.parent != NoDisk by { PathLinks(r.disks, r.parent, p, |p| - 1); }
    PathUnique(r.disks, r.parent, p, PathOf(r.disks, r.parent));
    hide IsPath, SectorAt;
    var below := LayersOf(r.store, p);
    assert Chain(r) == below + [head];
    SectorAtSnoc(below, head, 0);
    SectorAtSnoc([], head, 0);
    EmptyLayers(below);
    EmptyLayers([]);
    assert [] + [head] == [head];
  }

  lemma {:induction false} EmptyLayers(layers: seq<Layer>)
    requires forall i | 0 <= i < |layers| :: layers[i].data == map[]
    ensures SectorAt(layers, 0) == Zeros()
  {
    if layers != [] {
      EmptyLayers(layers[..|layers| - 1]);
    }
  }

  /** Another rebuild that goes wrong.  The replica that gave the file list and the files has failed; the one RW replica
      left never had the disk `s1`, which has been copied. */
  function TargetState(head: Layer): Sys {
    var s1, u, e := Snapshot("s1"), Snapshot("u"), Layer(4096, map[]);
    var rep := CopiedState(head).reps["a"];
    var c := Rep(map[u := Disk(NoDisk, false)], map[u := e], u, head, []);
    Sys(map["a" := ERR, "b" := WO, "c" := RW], map["a" := rep, "b" := rep, "c" := c], [SectorAt([head], 0)],
        Copying(rep, {}, "a"), {}, {u})
  }

  /** A snapshot named `s1` is known to no replica in use and both take it.  They agree on the head and on the new disk,
      but the name was on the path of the rebuild's target, and the new replica's head has no path. */
  lemma TargetNameClash(head: Layer)
    requires head.size == 4096
    ensures var s, s1 := TargetState(head), Snapshot("s1");
            var b', c' := Asked(s.reps["b"], KnownTo(s, "b"), s1), Asked(s.reps["c"], KnownTo(s, "c"), s1);
            && Inv(s) && s1 !in KnownTo(s, "b") && s1 !in KnownTo(s, "c") && !Fresh(s, s1)
            && InStep(c', b', {s1}) && forall p :: !IsPath(b'.disks, b'.parent, p)
  {
    var s, s1, u := TargetState(head), Snapshot("s1"), Snapshot("u");
    var b := s.reps["b"];
    TargetInv(head);
    CopiedPath(b);
    hide Inv, IsPath;
    assert s1 in [s1, u];
    forall p ensures !IsPath(SnapRep(b, s1).disks, s1, p) {
      NoCycle(SnapRep(b, s1).disks, s1, u, p);
    }
  }

  lemma TargetInv(head: Layer)
    requires head.size == 4096
    ensures Inv(TargetState(head))
  {
    hide Shows, AtMostOneWO;
    var s := TargetState(head);
    TargetModes(s.modes);
    hide WithMode;
    CopiedShows(s.reps["b"], s.vol, head);
    LeftShows(s.reps["c"], s.vol, head);
  }

  lemma TargetModes(modes: map<Addr, Mode>)
    requires modes == map["a" := ERR, "b" := WO, "c" := RW]
    ensures WithMode(modes, RW) == {"c"} && WithMode(modes, WO) == {"b"} && AtMostOneWO(modes)
  {
  }

  lemma LeftShows(c: Rep, vol: seq<Sector>, head: Layer)
    requires c == TargetState(head).reps["c"] && vol == [SectorAt([head], 0)] && head.size == 4096
    ensures Shows(c, vol)
  {
    assert IsPath(c.disks, Snapshot("u"), [Snapshot("u")]);
    hide IsPath;
    EmptyShows(c, [Snapshot("u")], head);
  }

  lemma CopiedPath(a: Rep)
    requires a.parent == Snapshot("u")
    requires a.disks == map[Snapshot("s1") := Disk(NoDisk, false), Snapshot("u") := Disk(Snapshot("s1"), false)]
    ensures IsPath(a.disks, a.parent, [Snapshot("s1"), Snapshot("u")])
  {
    var s1, u := Snapshot("s1"), Snapshot("u");
    assert [s1, u][..1] == [s1];
    assert IsPath(a.disks, s1, [s1]) && IsPath(a.disks, u, [s1, u]);
  }

  /** Two disks that are each other's parents have no path. */
  lemma NoCycle(disks: Disks, x: DiskName, y: DiskName, p: seq<DiskName>)
    requires x in disks && y in disks && disks[x].parent == y && disks[y].parent == x && x != NoDisk && y != NoDisk
    ensures !IsPath(disks, x, p)
  {
    if IsPath(disks, x, p) {
      var n := |p|;
      PathLinks(disks, x, p, n - 1);
      PathLinks(disks, x, p, n - 2);
      PathDistinct(disks, x, p, n - 1, n - 3);
    }
  }

  lemma SnapAgrees(a: Rep, b: Rep, name: DiskName, names: set<DiskName>)
    requires a.head == b.head && a.parent == b.parent && AgreesOn(a, b, names)
    ensures AgreesOn(SnapRep(a, name), SnapRep(b, name), names + {name})
  {
  }

  lemma SnapAgrees2(a: Rep, b: Rep, name: DiskName, names: set<DiskName>)
    requires AgreesOn(a, b, names) && name !in names
    ensures AgreesOn(SnapRep(a, name), SnapRep(b, name), names) && AgreesOn(a, SnapRep(b, name), names)
  {
  }

  /** A snapshot leaves the source the disks to be copied, whether it takes it, breaks or is no longer in use. */
  lemma SourceSnapped(s: Sys, s': Sys, name: DiskName, broken: map<Addr, Rep>)
    requires s.rebuild.Copying? && s.rebuild.src in s.reps && name !in s.rebuild.pending && s.modes.Keys <= s.reps.Keys
    requires AgreesOn(s.reps[s.rebuild.src], s.rebuild.target, s.rebuild.pending) && SourceStays(s, broken)
    requires s'.reps == Snapped(s, name, Writers(s.modes), broken)
    ensures AgreesOn(s'.reps[s.rebuild.src], SnapRep(s.rebuild.target, name), s.rebuild.pending)
  {
    hide AgreesOn, SnapRep, KeepsDisks;
    var src, t, p := s.rebuild.src, s.rebuild.target, s.rebuild.pending;
    if src in broken {
      SourceKeeps(s.reps[src], broken[src], t, p);
      SnapAgrees2(broken[src], t, name, p);
    } else {
      SnapAgrees2(s.reps[src], t, name, p);
    }
  }

  lemma AddKeeps(s: Sys, a: Addr, rep: Rep, name: DiskName)
    requires Inv(s) && Enabled(s, AddReplica(a, rep, name))
    ensures Inv(Apply(s, AddReplica(a, rep, name)))
  {
    hide Shows, TargetOk, AtMostOneWO, SnapRep, NewLayersAgree;
    var s' := Apply(s, AddReplica(a, rep, name));
    FirstWO(s.modes, a, WO);
    assert Readable(s') == Readable(s) && Rebuilding(s') <= Rebuilding(s) + {a};
    forall b | b in Readable(s')
      ensures b in s.modes && s'.reps[b] == SnapRep(s.reps[b], name) && Shows(s'.reps[b], s'.vol)
    {
      assert b in Writers(s.modes);
      NewNameOffPath(s.reps[b], name);
      SnapShows(s.reps[b], s.vol, name);
    }
    AddedAgrees(s, s', a, rep, name);
  }

  /** With a snapshot just taken on all, the heads are equal and empty. */
  lemma AddedAgrees(s: Sys, s': Sys, a: Addr, rep: Rep, name: DiskName)
    requires s.modes.Keys <= s.reps.Keys && s'.modes.Keys <= s'.reps.Keys && a in s'.modes && name != NoDisk
    requires rep.head.size == |s.vol| * 4096 && NoDisk !in rep.disks && (forall n | n in rep.disks :: n in rep.store)
    requires s'.reps[a] == SnapRep(rep, name) && s'.vol == s.vol
    requires s'.since == {} && s'.known == rep.disks.Keys + {name}
    requires forall b | b in Readable(s') ::
               && b in s.modes && s'.reps[b] == SnapRep(s.reps[b], name)
               && Shows(s.reps[b], s.vol) && rep.under == s.reps[b].under
    ensures NewLayersAgree(s', a)
  {
    forall b | b in Readable(s') ensures s.reps[b].head.size == |s.vol| * 4096 {
      ShownDisks(s.reps[b], s.vol);
    }
    hide Shows;
  }

  lemma ShownDisks(r: Rep, vol: seq<Sector>)
    requires Shows(r, vol)
    ensures r.head.size == |vol| * 4096 && NoDisk !in r.disks && forall n | n in r.disks :: n in r.store
  {
  }

  lemma AddRefusedKeeps(s: Sys, name: DiskName, took: set<Addr>)
    requires Inv(s) && Enabled(s, AddRefused(name, took))
    ensures Inv(Apply(s, AddRefused(name, took)))
  {
    hide Shows, TargetOk, AtMostOneWO, NewLayersAgree, SnapRep;
    var s' := Apply(s, AddRefused(name, took));
    forall a | a in Readable(s') ensures Shows(s'.reps[a], s'.vol) {
      assert a in Writers(s.modes);
      NewNameOffPath(s.reps[a], name);
      SnapShows(s.reps[a], s.vol, name);
    }
  }

  /** Fewer replicas in use: failures and removals. */
  lemma FewerKeeps(s: Sys, s': Sys)
    requires Inv(s) && s'.vol == s.vol && s'.since == s.since && s'.known == s.known && s'.modes.Keys <= s'.reps.Keys
    requires Readable(s') <= Readable(s) && Rebuilding(s') <= Rebuilding(s)
    requires s'.reps == s.reps && forall a | a in s'.modes :: a in s.modes
    requires s'.rebuild == Settle(s'.modes, s.rebuild)
    ensures Inv(s')
  {
    hide Shows, AgreesOn;
    FewerWO(s.modes, s'.modes);
    forall w | w in Rebuilding(s') ensures NewLayersAgree(s', w) && (s'.rebuild.Copying? ==> TargetOk(s', w)) {
      assert w in Rebuilding(s) && NewLayersAgree(s, w);
    }
  }

  lemma PrepareKeeps(s: Sys, a: Addr, list: Addr, src: Addr)
    requires Inv(s) && Enabled(s, Prepare(a, list, src))
    ensures Inv(Apply(s, Prepare(a, list, src)))
  {
    hide Shows;
    var s' := Apply(s, Prepare(a, list, src));
    forall w | w in Rebuilding(s') ensures w == a && NewLayersAgree(s', w) && TargetOk(s', w) {
      assert NewLayersAgree(s, a);
      assert AgreesOn(s.reps[list], s.reps[a], s.since);
      forall b | b in Readable(s) ensures AgreesOn(s'.reps[b], s'.reps[a], s.since) {
      }
    }
  }

  lemma CopyKeeps(s: Sys, n: DiskName)
    requires Inv(s) && Enabled(s, Copy(n))
    ensures Inv(Apply(s, Copy(n)))
  {
    hide Shows;
    var s' := Apply(s, Copy(n));
    forall w | w in Rebuilding(s) ensures NewLayersAgree(s', w) && TargetOk(s', w) {
      assert NewLayersAgree(s, w) && TargetOk(s, w);
      ShownDisks(s.rebuild.target, s.vol);
      var r, t, src := s.reps[w], s.rebuild.target, s.reps[s.rebuild.src];
      var r' := r.(disks := r.disks[n := src.disks[n]], store := r.store[n := src.store[n]]);
      assert s'.reps == s.reps[w := r'];
      CopyAgrees(r, t, src, s.rebuild.pending, n);
      CopySince(r, r', t, src, s.since, n);
      hide SameDisk;
      forall b | b in Readable(s) ensures b != w && AgreesOn(s'.reps[b], s'.reps[w], s.since) {
        SinceSame(s.reps[b], r, r', s.since);
      }
    }
  }

  /** A copied disk that was made since the replica was added is one it already has. */
  lemma CopySince(r: Rep, r': Rep, t: Rep, src: Rep, since: set<DiskName>, n: DiskName)
    requires SameDisk(src, t, n) && AgreesOn(r, t, since)
    requires r' == r.(disks := r.disks[n := src.disks[n]], store := r.store[n := src.store[n]])
    ensures AgreesOn(r', t, since) && AgreesOn(r, r', since)
  {
    forall m | m in since ensures SameDisk(r', t, m) && SameDisk(r, r', m) {
      assert SameDisk(r, t, m);
    }
  }

  lemma SinceSame(b: Rep, r: Rep, r': Rep, since: set<DiskName>)
    requires AgreesOn(b, r, since) && AgreesOn(r, r', since)
    ensures AgreesOn(b, r', since)
  {
    forall n | n in since ensures SameDisk(b, r', n) {
      assert SameDisk(b, r, n) && SameDisk(r, r', n);
    }
  }

  /** The copying goes on when its source fails or is removed. */
  lemma CopyGoesOn(s: Sys, n: DiskName)
    requires Inv(s) && Enabled(s, Copy(n))
    ensures Enabled(s, Step.Fail(s.rebuild.src)) && Enabled(Apply(s, Step.Fail(s.rebuild.src)), Copy(n))
    ensures Enabled(s, Step.Remove(s.rebuild.src)) && Enabled(Apply(s, Step.Remove(s.rebuild.src)), Copy(n))
  {
    hide Shows, NewLayersAgree;
    var src := s.rebuild.src;
    var w :| w in Rebuilding(s);
    assert TargetOk(s, w) && src != w;
    assert w in WithMode(SetMode(s.modes, src, ERR), WO) && w in WithMode(s.modes - {src}, WO);
  }

  lemma CopyAgrees(r: Rep, t: Rep, src: Rep, pending: set<DiskName>, n: DiskName)
    requires AgreesOn(r, t, t.disks.Keys - pending) && AgreesOn(src, t, pending) && n in pending
    requires pending <= t.disks.Keys
    ensures AgreesOn(r.(disks := r.disks[n := src.disks[n]], store := r.store[n := src.store[n]]), t,
                     t.disks.Keys - (pending - {n}))
  {
    assert SameDisk(src, t, n);
    forall m | m in t.disks.Keys - (pending - {n}) && m != n ensures SameDisk(r, t, m) {
      assert m in t.disks.Keys - pending;
    }
  }

  lemma ReloadKeeps(s: Sys, a: Addr)
    requires Inv(s) && Enabled(s, Reload(a))
    ensures Inv(Apply(s, Reload(a)))
  {
    hide Shows, AgreesOn;
    var s' := Apply(s, Reload(a));
    forall w | w in Rebuilding(s')
      ensures w == a && NewLayersAgree(s', w) && (s'.rebuild.Copying? ==> TargetOk(s', w))
    {
      assert NewLayersAgree(s, a);
    }
  }

  /** With everything copied the new replica shows the volume, and can be reloaded. */
  lemma AllCopiedShows(s: Sys, a: Addr)
    requires Inv(s) && a in Rebuilding(s) && s.rebuild.Copying? && s.rebuild.pending == {}
    ensures Shows(s.reps[a], s.vol) && Enabled(s, Reload(a))
  {
    var t, r := s.rebuild.target, s.reps[a];
    assert TargetOk(s, a);
    forall n | n in t.disks ensures SameDisk(r, t, n) {
      assert n in t.disks.Keys - s.rebuild.pending;
    }
    SameShows(r, t, s.vol);
  }

  /** A promotion makes the new replica readable, and it shows the volume like the others. */
  lemma VerifyKeeps(s: Sys, a: Addr, rw: Addr)
    requires Inv(s) && Enabled(s, Verify(a, rw))
    ensures Inv(Apply(s, Verify(a, rw)))
    ensures Readable(Apply(s, Verify(a, rw))) == Readable(s) + {a} && Rebuilding(Apply(s, Verify(a, rw))) == {}
    ensures Apply(s, Verify(a, rw)).reps == s.reps && Apply(s, Verify(a, rw)).vol == s.vol
    ensures Shows(s.reps[a], s.vol)
  {
    AllCopiedShows(s, a);
    hide Shows, TargetOk, NewLayersAgree;
    var s' := Apply(s, Verify(a, rw));
    assert Readable(s') == Readable(s) + {a};
    assert Rebuilding(s') == Rebuilding(s) - {a};
    FewerWO(s.modes, s'.modes);
  }

  lemma StepKeeps(s: Sys, step: Step)
    requires Inv(s) && Enabled(s, step)
    ensures Inv(Apply(s, step)) && |Apply(s, step).vol| == |s.vol|
  {
    hide Shows, TargetOk, NewLayersAgree, SpliceAll;
    match step
    case Write(off, buf, reader, broken) => WriteKeeps(s, step);
    case WriteRefused =>
    case TakeSnapshot(name, broken) => SnapshotKeeps(s, name, broken);
    case AddReplica(a, rep, name) => AddKeeps(s, a, rep, name);
    case AddRefused(name, took) => AddRefusedKeeps(s, name, took);
    case Fail(a) => FewerKeeps(s, Apply(s, step));
    case Remove(a) => FewerKeeps(s, Apply(s, step));
    case Prepare(a, list, src) => PrepareKeeps(s, a, list, src);
    case Copy(n) => CopyKeeps(s, n);
    case Reload(a) => ReloadKeeps(s, a);
    case Verify(a, rw) => VerifyKeeps(s, a, rw);
    case Compact(a, rep) =>
  }

  // ----- runs -----

  /** A run: it starts in a state with the invariant, and each step is enabled where it is taken.  The
      invariant appears once more only because the steps are defined under it; that it holds in every
      state is what `RunsAgree` proves. */
  ghost predicate IsRun(states: seq<Sys>, steps: seq<Step>) {
    && |states| == |steps| + 1 && Inv(states[0])
    && forall i | 0 <= i < |steps| ::
         Inv(states[i]) ==> Enabled(states[i], steps[i]) && states[i + 1] == Apply(states[i], steps[i])
  }

  /** In every state of every run the invariant holds; in particular all RW replicas show one volume, and
      a replica being rebuilt agrees with them on everything written since it was added. */
  lemma {:induction false} RunsAgree(states: seq<Sys>, steps: seq<Step>, i: nat)
    requires IsRun(states, steps) && i < |states|
    ensures Inv(states[i])
    ensures forall a, b | a in Readable(states[i]) && b in Readable(states[i]) ::
              forall s | 0 <= s < |states[i].vol| ::
                  SectorAt(Chain(states[i].reps[a]), s) == SectorAt(Chain(states[i].reps[b]), s)
  {
    if i > 0 {
      RunsAgree(states, steps, i - 1);
      StepKeeps(states[i - 1], steps[i - 1]);
    }
  }

  /** A write is acknowledged when a readable replica is left after it. */
  ghost predicate Acknowledged(s: Sys, step: Step)
    requires Inv(s) && Enabled(s, step)
  {
    step.Write? && Readable(Apply(s, step)) != {}
  }

  /** The volume a client expects: the first one with the acknowledged writes laid over it in order. */
  ghost function Promised(states: seq<Sys>, steps: seq<Step>, i: nat): seq<Sector>
    requires IsRun(states, steps) && i < |states|
  {
    if i == 0 then states[0].vol
    else
      RunsAgree(states, steps, i - 1);
      if Acknowledged(states[i - 1], steps[i - 1])
      then SpliceAll(Promised(states, steps, i - 1), steps[i - 1].off, steps[i - 1].buf)
      else Promised(states, steps, i - 1)
  }

  /** Without a readable replica there will never be one again. */
  lemma NoneLeft(s: Sys, step: Step)
    requires Inv(s) && Enabled(s, step) && Readable(s) == {}
    ensures Readable(Apply(s, step)) == {}
  {
    hide Inv, Shows;
    if step.AddReplica? || step.TakeSnapshot? || step.Fail? || step.Remove? {
      assert Readable(Apply(s, step)) <= Readable(s);
    }
  }

  /** Exactly the acknowledged writes: whenever some replica is readable, every readable replica shows the
      first volume with all acknowledged writes applied in order, and nothing else. */
  lemma {:induction false} AcknowledgedWritesPresent(states: seq<Sys>, steps: seq<Step>, i: nat, a: Addr)
    requires IsRun(states, steps) && i < |states| && Inv(states[i]) && a in Readable(states[i])
    ensures Shows(states[i].reps[a], Promised(states, steps, i))
  {
    VolumePromised(states, steps, i);
  }

  /** What one step does to the volume: only an acknowledged write changes it while a replica is readable. */
  lemma StepPromise(s: Sys, step: Step)
    requires Inv(s) && Enabled(s, step) && Readable(Apply(s, step)) != {}
    ensures Readable(s) != {}
    ensures Apply(s, step).vol == if Acknowledged(s, step) then SpliceAll(s.vol, step.off, step.buf) else s.vol
  {
    hide Shows, TargetOk, NewLayersAgree, SpliceAll;
    if Readable(s) == {} {
      NoneLeft(s, step);
    }
  }

  lemma {:induction false} VolumePromised(states: seq<Sys>, steps: seq<Step>, i: nat)
    requires IsRun(states, steps) && i < |states| && Inv(states[i]) && Readable(states[i]) != {}
    ensures states[i].vol == Promised(states, steps, i)
  {
    hide Inv, Apply, Enabled, SpliceAll, Acknowledged, Readable;
    if i > 0 {
      RunsAgree(states, steps, i - 1);
      StepPromise(states[i - 1], steps[i - 1]);
      VolumePromised(states, steps, i - 1);
    }
  }

  /** A read answered by any readable replica returns the promised bytes. */
  lemma ReadsPromised(states: seq<Sys>, steps: seq<Step>, i: nat, a: Addr, s: nat, k: nat)
    requires IsRun(states, steps) && i < |states| && Inv(states[i]) && a in Readable(states[i])
    requires s < |Promised(states, steps, i)| && k < 4096
    ensures RepOk(states[i].reps[a], states[i].reps[a].head.size)
    ensures ByteAt(Chain(states[i].reps[a]), s * 4096 + k) == Promised(states, steps, i)[s][k]
  {
    AcknowledgedWritesPresent(states, steps, i, a);
    ReadsVolume(states[i].reps[a], Promised(states, steps, i), s, k);
  }
}

/** Incremental backup: loading the sector table from the extents of all layers, and listing the
    2 MiB blocks in which two snapshots of one chain can differ.
 */
module Backups {
  import opened Layers
  import opened SnapshotTree

  /** A data extent of a file, in bytes. */
  datatype Extent = Extent(logical: nat, length: nat) {
    function End(): nat { logical + length }
  }

  /** Extents as the file system reports them for one file: sector aligned, not empty, in order, and
      inside the volume of `sectors` sectors. */
  ghost predicate WellFormed(exts: seq<Extent>, sectors: nat) {
    && (forall e | e in exts ::
          e.logical % 4096 == 0 && e.length % 4096 == 0 && 0 < e.length && e.End() <= sectors * 4096)
    && (forall i, j | 0 <= i < j < |exts| :: exts[i].End() <= exts[j].logical)
  }

  predicate CoversSector(e: Extent, s: nat) {
    e.logical <= s * 4096 < e.End()
  }

  ghost predicate Covered(exts: seq<Extent>, s: nat) {
    exists i :: 0 <= i < |exts| && CoversSector(exts[i], s)
  }

  /** The extents are those of the layer's data. */
  ghost predicate Describes(exts: seq<Extent>, l: Layer) {
    forall s: nat :: s in l.data <==> Covered(exts, s)
  }

  const MAX_EXTENTS: nat := 1024

  /** The first extent from `i` on that ends after `start`. */
  function FirstAfter(exts: seq<Extent>, start: nat, i: nat): (r: nat)
    requires i <= |exts|
    ensures i <= r <= |exts|
    decreases |exts| - i
  {
    if i == |exts| || exts[i].End() > start then i else FirstAfter(exts, start, i + 1)
  }

  /** An extent query from `start` on returns at most `MAX_EXTENTS` extents. */
  function Fiemap(exts: seq<Extent>, start: nat): seq<Extent> {
    var i := FirstAfter(exts, start, 0);
    if |exts| - i <= MAX_EXTENTS then exts[i..] else exts[i..i + MAX_EXTENTS]
  }

  /** A query from the end of an extent continues with the next one. */
  lemma {:induction false} FiemapFrom(exts: seq<Extent>, sectors: nat, done: nat, start: nat)
    requires WellFormed(exts, sectors) && done <= |exts|
    requires start == if done == 0 then 0 else exts[done - 1].End()
    ensures Fiemap(exts, start) == if |exts| - done <= MAX_EXTENTS then exts[done..] else exts[done..done + MAX_EXTENTS]
  {
    hide WellFormed, FirstAfter;
    NextExtent(exts, sectors, done, start);
    SkipTo(exts, start, 0, done);
  }

  lemma NextExtent(exts: seq<Extent>, sectors: nat, done: nat, start: nat)
    requires WellFormed(exts, sectors) && done <= |exts|
    requires start == if done == 0 then 0 else exts[done - 1].End()
    ensures forall i | 0 <= i < done :: exts[i].End() <= start
    ensures done < |exts| ==> exts[done].End() > start
  {
    forall i | 0 <= i < done ensures exts[i].End() <= start {
      assert i == done - 1 || exts[i].End() <= exts[done - 1].logical;
    }
    if done < |exts| {
      assert exts[done] in exts && (done > 0 ==> start <= exts[done].logical);
    }
  }

  lemma {:induction false} SkipTo(exts: seq<Extent>, start: nat, i: nat, done: nat)
    requires i <= done <= |exts|
    requires forall j | i <= j < done :: exts[j].End() <= start
    requires done < |exts| ==> exts[done].End() > start
    ensures FirstAfter(exts, start, i) == done
    decreases done - i
  {
    if i < done {
      SkipTo(exts, start, i + 1, done);
    }
  }

  ghost predicate Marked(now: seq<nat>, was: seq<nat>, exts: seq<Extent>, index: nat) {
    |now| == |was| && forall s: nat | s < |was| :: now[s] == if Covered(exts, s) then index else was[s]
  }

  lemma MarkedMore(a: seq<nat>, b: seq<nat>, c: seq<nat>, exts: seq<Extent>, k: nat, index: nat)
    requires k < |exts| && Marked(b, a, exts[..k], index)
    requires |c| == |b| && forall s: nat | s < |b| :: c[s] == if CoversSector(exts[k], s) then index else b[s]
    ensures Marked(c, a, exts[..k + 1], index)
  {
    forall s: nat | s < |a| ensures Covered(exts[..k + 1], s) <==> Covered(exts[..k], s) || CoversSector(exts[k], s) {
      if Covered(exts[..k], s) {
        var i :| 0 <= i < k && CoversSector(exts[..k][i], s);
        assert CoversSector(exts[..k + 1][i], s);
      }
      if CoversSector(exts[k], s) { assert CoversSector(exts[..k + 1][k], s); }
      if Covered(exts[..k + 1], s) && !CoversSector(exts[k], s) {
        var i :| 0 <= i < k + 1 && CoversSector(exts[..k + 1][i], s);
        assert CoversSector(exts[..k][i], s);
      }
    }
  }

  lemma MarkedNone(location: seq<nat>, exts: seq<Extent>, index: nat)
    ensures Marked(location, location, exts[..0], index)
  {
  }

  /** Records `index` for the sectors of one extent. */
  method MarkExtent(location: seq<nat>, e: Extent, index: nat) returns (r: seq<nat>)
    requires e.logical % 4096 == 0 && e.length % 4096 == 0 && e.End() <= |location| * 4096
    ensures |r| == |location| && forall s: nat | s < |r| :: r[s] == if CoversSector(e, s) then index else location[s]
  {
    r := location;
    var i := 0;
    ghost var first, done := e.logical / 4096, 0;
    while i < e.length
      invariant i == done * 4096 && i <= e.length && |r| == |location|
      invariant forall s: nat | s < |r| :: r[s] == if first <= s < first + done then index else location[s]
    {
      r := r[(e.logical + i) / 4096 := index];
      i := i + 4096;
      done := done + 1;
    }
    forall s: nat ensures CoversSector(e, s) <==> first <= s < first + done {
      assert e.logical == first * 4096;
    }
  }

  /** Loads one batch; the extent flagged as the file's last one ends the loading. */
  method LoadBatch(location: seq<nat>, ghost was: seq<nat>, exts: seq<Extent>, ghost first: nat, batch: seq<Extent>,
                   index: nat)
    returns (r: seq<nat>, finished: bool)
    requires WellFormed(exts, |location|) && exts != []
    requires first + |batch| <= |exts| && batch == exts[first..first + |batch|]
    requires Marked(location, was, exts[..first], index)
    ensures |r| == |location| && Marked(r, was, if finished then exts else exts[..first + |batch|], index)
  {
    hide WellFormed, Covered;
    r := location;
    var j := 0;
    while j < |batch|
      invariant 0 <= j <= |batch| && |r| == |location|
      invariant Marked(r, was, exts[..first + j], index)
    {
      ExtentAt(exts, |location|, first + j);
      assert batch[j] == exts[first + j];
      ghost var before := r;
      r := MarkExtent(r, batch[j], index);
      MarkedMore(was, before, r, exts, first + j, index);
      if batch[j] == exts[|exts| - 1] {
        assert exts[..first + j + 1] == exts;
        return r, true;
      }
      j := j + 1;
    }
    finished := false;
  }

  lemma ExtentAt(exts: seq<Extent>, sectors: nat, i: nat)
    requires WellFormed(exts, sectors) && i < |exts|
    ensures exts[i].logical % 4096 == 0 && exts[i].length % 4096 == 0 && exts[i].End() <= sectors * 4096
    ensures exts[i] == exts[|exts| - 1] ==> i == |exts| - 1
  {
    assert exts[i] in exts;
    if i < |exts| - 1 {
      assert exts[i].End() <= exts[|exts| - 1].logical;
    }
  }

  /** Loads the extents of one file, batch by batch, into the sector table. */
  method LoadLocationList(location: seq<nat>, exts: seq<Extent>, index: nat) returns (r: seq<nat>)
    requires WellFormed(exts, |location|)
    ensures Marked(r, location, exts, index)
  {
    hide WellFormed, Covered, Marked, Fiemap;
    r := location;
    MarkedNone(location, exts, index);
    var start := 0;
    ghost var done := 0;
    while true
      invariant done <= |exts| && start == if done == 0 then 0 else exts[done - 1].End()
      invariant |r| == |location| && Marked(r, location, exts[..done], index)
      decreases |exts| - done
    {
      FiemapFrom(exts, |location|, done, start);
      var batch := Fiemap(exts, start);
      if |batch| == 0 {
        assert exts[..done] == exts;
        return;
      }
      var finished;
      r, finished := LoadBatch(r, location, exts, done, batch, index);
      if finished {
        return;
      }
      done := done + |batch|;
      start := batch[|batch| - 1].End();
    }
  }

  // ----- preload -----

  /** The topmost of the layers `first` to `n - 1` that holds the sector, 0 if none does. */
  function Holder(files: seq<Layer>, first: nat, s: nat, n: nat): (h: nat)
    requires 1 <= first && n <= |files|
    ensures h == 0 || (first <= h < n && s in files[h].data)
    ensures forall j | first <= j < n && h < j :: s !in files[j].data
  {
    if n <= first then 0
    else if s in files[n - 1].data then n - 1
    else Holder(files, first, s, n - 1)
  }

  /** The sector table after a preload that leaves a backing file out: the topmost layer with data. */
  ghost predicate Preloaded(location: seq<nat>, files: seq<Layer>, first: nat, n: nat)
    requires 1 <= first && n <= |files|
  {
    forall s: nat | s < |location| :: location[s] == Holder(files, first, s, n)
  }

  method Preload(files: seq<Layer>, extents: seq<seq<Extent>>, sectors: nat, hasBacking: bool)
    returns (location: seq<nat>)
    requires 2 <= |files| == |extents|
    requires forall i | 1 <= i < |files| :: WellFormed(extents[i], sectors) && Describes(extents[i], files[i])
    ensures |location| == sectors
    ensures Preloaded(location, files, if hasBacking then 2 else 1, |files|)
  {
    location := seq(sectors, _ => 0);
    var i := 1;
    while i < |files|
      invariant 1 <= i <= |files| && |location| == sectors
      invariant Preloaded(location, files, if hasBacking then 2 else 1, i)
    {
      if !(i == 1 && hasBacking) {
        location := LoadLocationList(location, extents[i], i);
        assert Describes(extents[i], files[i]);
      }
      i := i + 1;
    }
  }

  // ----- comparing two snapshots -----

  const NO_OFFSET: int := -1

  /** Sector `s` may differ between the snapshot at `to` and the one at `from`. */
  predicate Changed(location: seq<nat>, from: nat, to: nat, s: nat) {
    s < |location| && location[s] <= from % 256 && location[s] > to % 256
  }

  ghost predicate Increasing(blocks: seq<nat>) {
    forall i, j | 0 <= i < j < |blocks| :: blocks[i] < blocks[j]
  }

  /** The listed blocks are exactly those that contain a changed sector, in increasing order. */
  ghost predicate Lists(blocks: seq<nat>, location: seq<nat>, from: nat, to: nat, n: nat) {
    && Increasing(blocks)
    && (forall b | b in blocks :: b % 0x20_0000 == 0)
    && (forall b | b in blocks :: exists s: nat :: s < n && Changed(location, from, to, s) && b == BlockOffset(s))
    && (forall s: nat | s < n && Changed(location, from, to, s) :: BlockOffset(s) in blocks)
  }

  /** Byte offset of the block of a sector. */
  function BlockOffset(s: nat): nat {
    s * 4096 - (s * 4096) % 0x20_0000
  }

  method CompareSnapshot(location: seq<nat>, from: nat, to: nat) returns (blocks: seq<nat>)
    ensures Lists(blocks, location, from, to, |location|)
  {
    blocks := [];
    var last: int := NO_OFFSET;
    var i := 0;
    assert Lists(blocks, location, from, to, 0);
    hide Lists;
    while i < |location|
      invariant 0 <= i <= |location|
      invariant last == if blocks == [] then NO_OFFSET else blocks[|blocks| - 1]
      invariant blocks != [] ==> last <= i * 4096
      invariant Lists(blocks, location, from, to, i)
    {
      ListsMore(blocks, location, from, to, i);
      var val := location[i];
      if val <= from % 256 && val > to % 256 {
        var offset := i * 4096;
        offset := offset - offset % 0x20_0000;
        assert offset == BlockOffset(i) && Changed(location, from, to, i);
        if last != offset {
          LastBelow(blocks, location, from, to, i, offset);
          last := offset;
          blocks := blocks + [offset];
        }
      }
      i := i + 1;
    }
  }

  lemma ListsMore(blocks: seq<nat>, location: seq<nat>, from: nat, to: nat, n: nat)
    requires Lists(blocks, location, from, to, n) && n < |location|
    ensures (Changed(location, from, to, n) ==> BlockOffset(n) in blocks) ==> Lists(blocks, location, from, to, n + 1)
    ensures Changed(location, from, to, n) && (forall i | 0 <= i < |blocks| :: blocks[i] < BlockOffset(n)) ==>
              Lists(blocks + [BlockOffset(n)], location, from, to, n + 1)
  {
    BlockHolds(n);
    hide BlockOffset, Changed;
    var more := blocks + [BlockOffset(n)];
    forall b | b in more ensures b in blocks || b == BlockOffset(n) {
    }
    assert forall b | b in blocks :: b in more;
    assert BlockOffset(n) == more[|blocks|];
  }

  lemma BlockMonotone(s: nat, n: nat)
    requires s <= n
    ensures BlockOffset(s) <= BlockOffset(n)
  {
    BlockIsMultiple(s);
    BlockIsMultiple(n);
  }

  lemma BlockIsMultiple(s: nat)
    ensures BlockOffset(s) == s / 512 * 0x20_0000
  {
    assert s * 4096 == s / 512 * 0x20_0000 + s % 512 * 4096;
  }

  lemma LastBelow(blocks: seq<nat>, location: seq<nat>, from: nat, to: nat, n: nat, offset: nat)
    requires Lists(blocks, location, from, to, n) && offset == BlockOffset(n)
    requires blocks != [] ==> blocks[|blocks| - 1] != offset
    ensures forall i | 0 <= i < |blocks| :: blocks[i] < offset
  {
    if blocks != [] {
      var b := blocks[|blocks| - 1];
      assert b in blocks;
      var s: nat :| s < n && Changed(location, from, to, s) && b == BlockOffset(s);
      hide BlockOffset, Changed;
      BlockMonotone(s, n);
      forall i | 0 <= i < |blocks| ensures blocks[i] < offset {
        assert i == |blocks| - 1 || blocks[i] < b;
      }
    }
  }

  /** The snapshot `older` restored from the blocks of `newer`. */
  ghost function Patched(blocks: seq<nat>, newer: seq<Layer>, older: seq<Layer>, s: nat): Sector {
    if BlockOffset(s) in blocks then SectorAt(newer, s) else SectorAt(older, s)
  }

  /** Incremental backup is complete: with the table preloaded for the newer snapshot `files`, laying
      the listed blocks of the newer image over the image of the older snapshot, at index `to`, gives
      the newer image.  Without an older snapshot `to` is 0, or the backing file's index. */
  lemma IncrementalComplete(files: seq<Layer>, location: seq<nat>, blocks: seq<nat>, first: nat, to: nat, s: nat)
    requires 2 <= |files| <= 256 && 1 <= first <= 2 && to < |files| && first <= to + 1
    requires Preloaded(location, files, first, |files|) && Lists(blocks, location, |files| - 1, to, |location|)
    requires s < |location|
    ensures Patched(blocks, files[1..], files[1..to + 1], s) == SectorAt(files[1..], s)
  {
    if !Changed(location, |files| - 1, to, s) {
      var h := Holder(files, first, s, |files|);
      NothingAbove(files, to, |files|, s);
      assert files[1..|files|] == files[1..];
    }
  }

  /** And it lists no more than it must: a block is listed if and only if a layer above the older snapshot holds one of
      its sectors. */
  lemma ListedIff(files: seq<Layer>, location: seq<nat>, blocks: seq<nat>, first: nat, to: nat, b: nat)
    requires 2 <= |files| <= 256 && 1 <= first <= 2 && to < |files| && first <= to + 1
    requires Preloaded(location, files, first, |files|) && Lists(blocks, location, |files| - 1, to, |location|)
    ensures b in blocks <==>
            && b % 0x20_0000 == 0
            && exists s: nat, j: nat :: s < |location| && b <= s * 4096 < b + 0x20_0000 && Holds(files, to, j, s)
  {
    hide BlockOffset, Increasing;
    if b in blocks {
      var s: nat :| s < |location| && Changed(location, |files| - 1, to, s) && b == BlockOffset(s);
      var h := Holder(files, first, s, |files|);
      BlockHolds(s);
      assert Holds(files, to, h, s);
    }
    if b % 0x20_0000 == 0 {
      forall s: nat, j: nat | s < |location| && b <= s * 4096 < b + 0x20_0000 && Holds(files, to, j, s)
        ensures b in blocks
      {
        var h := Holder(files, first, s, |files|);
        assert Changed(location, |files| - 1, to, s);
        BlockOf(s, b);
      }
    }
  }

  ghost predicate Holds(files: seq<Layer>, to: nat, j: nat, s: nat) {
    to < j < |files| && s in files[j].data
  }

  lemma BlockHolds(s: nat)
    ensures BlockOffset(s) % 0x20_0000 == 0 && BlockOffset(s) <= s * 4096 < BlockOffset(s) + 0x20_0000
  {
    BlockIsMultiple(s);
  }

  lemma BlockOf(s: nat, b: nat)
    requires b % 0x20_0000 == 0 && b <= s * 4096 < b + 0x20_0000
    ensures b == BlockOffset(s)
  {
    BlockIsMultiple(s);
  }

  /** Layers without the sector do not change what is shown. */
  lemma {:induction false} NothingAbove(files: seq<Layer>, to: nat, n: nat, s: nat)
    requires to < n <= |files| && forall j | to < j < n :: s !in files[j].data
    ensures SectorAt(files[1..n], s) == SectorAt(files[1..to + 1], s)
    decreases n
  {
    if n > to + 1 {
      NothingAbove(files, to, n - 1, s);
      assert files[1..n] == files[1..n - 1] + [files[n - 1]];
      SectorAtSnoc(files[1..n - 1], files[n - 1], s);
    }
  }

  /** Index of a snapshot in the active list; the empty name stands for the empty or backing image. */
  method FindIndex(active: seq<DiskName>, id: DiskName, hasBacking: bool) returns (index: int)
    ensures id == NoDisk ==> index == if hasBacking then 1 else 0
    ensures id != NoDisk ==> -1 <= index < |active| && index != 0
    ensures id != NoDisk && index > 0 ==> active[index] == id && forall j | 1 <= j < index :: active[j] != id
    ensures id != NoDisk && index < 0 ==> forall j | 1 <= j < |active| :: active[j] != id
  {
    if id == NoDisk {
      return if hasBacking then 1 else 0;
    }
    var i := 1;
    while i < |active|
      invariant 1 <= i && forall j | 1 <= j < i && j < |active| :: active[j] != id
    {
      if active[i] == id {
        return i;
      }
      i := i + 1;
    }
    return -1;
  }
}

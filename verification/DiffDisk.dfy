/** The layered block device of one replica: a stack of differencing files, a per-sector cache of
    the layer that holds the sector, batched reads, and read-modify-write of unaligned writes.
 */
module DiffDisks {
  import opened Layers
  import opened SectorMaps

  datatype IOError = NoError | NotAligned | UnexpectedEOF | WriteFailed

  /** How the write of the head file ends: it stores everything, or it fails with `written` as its count after it has
      stored the touched ones among the sectors `stored`. */
  datatype Outcome = Complete | Failed(stored: map<nat, Sector>, written: nat)

  /** Whether some part of a write fails.  Only a split write has a middle part, and a last one if it ends within a
      sector. */
  predicate SomePartFails(off: nat, len: nat, first: Outcome, middle: Outcome, last: Outcome) {
    len > 0 && (first.Failed? || (IsSplit(off, len) && (middle.Failed? || (last.Failed? && (len + off) % 4096 > 0))))
  }

  /** The first failing part has length `part` and begins `done` bytes after the offset. */
  predicate FailsAt(off: nat, len: nat, first: Outcome, middle: Outcome, done: nat, part: nat) {
    var startCut, endOffset := 4096 - off % 4096, (len + off) % 4096;
    if !IsSplit(off, len) then
      done == 0 && part == len
    else if first.Failed? then
      done == 0 && part == startCut
    else if middle.Failed? then
      done == startCut && part == len - endOffset - startCut
    else
      done == len - endOffset && part == endOffset
  }

  class DiffDisk {
    var location: seq<nat>
    var files: seq<Layer>
    var size: nat
    ghost var holes: set<nat>

    ghost predicate Valid()
      reads this
    {
      && 2 <= |files| <= 256
      && (forall i | 1 <= i < |files| :: ValidLayer(files[i]))
      && size % 4096 == 0 && |location| == size / 4096
      && CacheOk(location, files, holes)
    }

    /** The head file reaches the end of the volume. */
    ghost predicate HeadCovers()
      reads this
    {
      2 <= |files| && size <= files[|files| - 1].size
    }

    /** The flat volume this device presents. */
    ghost function Volume(): (v: seq<byte>)
      requires Valid()
      reads this
      ensures |v| == size
    {
      ShownImage(location, files, size)
    }

    /** A new device over opened files: nothing is cached. */
    constructor (files: seq<Layer>, size: nat)
      requires 2 <= |files| <= 256 && size % 4096 == 0
      requires forall i | 1 <= i < |files| :: ValidLayer(files[i])
      ensures Valid() && this.files == files && this.size == size && holes == {}
    {
      this.files := files;
      this.size := size;
      this.location := seq(size / 4096, _ => 0);
      this.holes := {};
    }

    method Lookup(sector: nat) returns (target: nat)
      requires Valid()
      modifies this`location
      ensures Valid()
      ensures 1 <= target == old(Target(location, files, sector)) < |files|
      ensures SameTargets(old(location), location, files)
    {
      if sector >= |location| {
        return |files| - 1;
      }
      if location[sector] == 0 {
        var i := |files| - 1;
        while i > 1
          invariant 1 <= i < |files|
          invariant location == old(location)
          invariant forall j | i < j < |files| :: sector !in files[j].data
        {
          if sector in files[i].data {
            SearchFinds(files, sector, i);
            location := location[sector := i % 256];
            break;
          }
          i := i - 1;
        }
        if location[sector] == 0 {
          SearchFinds(files, sector, 1);
          location := location[sector := 1];
        }
      }
      target := location[sector];
    }

    /** Reads a run of sectors from one layer into `buf[lo + startSector * 4096 ..]`. */
    method Read(target: nat, buf: array<byte>, lo: nat, offset: nat, startSector: nat, sectors: nat)
      returns (count: int, err: IOError)
      requires Valid() && 1 <= target < |files|
      requires lo + (startSector + sectors) * 4096 <= buf.Length
      modifies buf
      ensures FileInto(buf[..], old(buf[..]), files[target], lo, offset, startSector * 4096, sectors * 4096)
      ensures err == NoError || err == UnexpectedEOF
      ensures count == if err == NoError then sectors * 4096 else size - (offset + startSector * 4096)
      ensures err == NoError <==>
                || offset + (startSector + sectors) * 4096 <= size
                || offset + (startSector + sectors) * 4096 <= files[target].size
    {
      var bufStart := startSector * 4096;
      var bufLength := sectors * 4096;
      var readStart := offset + bufStart;
      var readEnd := readStart + bufLength;
      var diskSize := files[target].size;
      count := 0;
      if readStart < diskSize {
        var n := if bufLength < diskSize - readStart then bufLength else diskSize - readStart;
        var layer := files[target];
        forall k | lo + bufStart <= k < lo + bufStart + n {
          buf[k] := LayerByte(layer, offset + k - lo);
        }
        count := n;
      }
      if readEnd <= diskSize {
        return count, NoError;
      }
      var from := if diskSize < readStart then readStart else diskSize;
      if readEnd <= size {
        return count + (readEnd - from), NoError;
      }
      return count + (size - from), UnexpectedEOF;
    }

    /** `Read` as one batch of a request of which the sectors before `first` are done. */
    method ReadBatch(target: nat, buf: array<byte>, lo: nat, startSector: nat, first: nat, sectors: nat,
                     ghost was: seq<byte>, ghost locs: seq<nat>)
      returns (count: int, err: IOError)
      requires Valid() && 1 <= target < |files|
      requires lo + (first + sectors) * 4096 <= buf.Length
      requires InRange(locs, files)
      requires ReadInto(buf[..], was, locs, files, lo, first * 4096, startSector * 4096)
      requires SameRun(locs, files, startSector + first, startSector + first + sectors, target)
      modifies buf
      ensures ReadInto(buf[..], was, locs, files, lo, (first + sectors) * 4096, startSector * 4096)
      ensures err == NoError || err == UnexpectedEOF
      ensures count == if err == NoError then sectors * 4096 else size - (startSector + first) * 4096
      ensures err == NoError <==>
                || startSector + first + sectors <= |location|
                || (startSector + first + sectors) * 4096 <= files[target].size
    {
      ghost var mid := buf[..];
      count, err := Read(target, buf, lo, startSector * 4096, first, sectors);
      ReadRun(was, mid, buf[..], locs, files, lo, startSector * 4096, first, sectors, target);
    }

    /** The batching loop: looks every sector up and reads each run of one layer in one go. */
    method ReadSectors(buf: array<byte>, lo: nat, startSector: nat, sectors: nat) returns (count: int, err: IOError)
      requires Valid() && 0 < sectors && lo + sectors * 4096 <= buf.Length
      modifies this`location, buf
      ensures Valid() && SameTargets(old(location), location, files)
      ensures ReadInto(buf[..], old(buf[..]), old(location), files, lo, sectors * 4096, startSector * 4096)
      ensures err == NoError || err == UnexpectedEOF
      ensures count == if err == NoError then sectors * 4096 else size - startSector * 4096
      ensures err == NoError <==>
                startSector + sectors <= |location| || (startSector + sectors) * 4096 <= files[|files| - 1].size
    {
      ghost var was, locs := buf[..], location;
      ReadNothing(was, locs, files, lo, startSector * 4096);
      assert InRange(locs, files) && 4096 * |location| == size;
      SameTargetsTrans(locs, locs, locs, files);
      hide ReadInto, Covered, Shown, Search, Target, SameRun, CacheOk, SameTargets, InRange, ValidLayer;
      count := 0;
      var readSectors := 1;
      RunStart(locs, files, startSector);
      var target := Lookup(startSector);
      var i := 1;
      while i < sectors
        invariant 1 <= readSectors <= i <= sectors
        invariant Valid() && SameTargets(locs, location, files)
        invariant 1 <= target < |files|
        invariant SameRun(locs, files, startSector + i - readSectors, startSector + i, target)
        invariant ReadInto(buf[..], was, locs, files, lo, (i - readSectors) * 4096, startSector * 4096)
        invariant count == (i - readSectors) * 4096
      {
        var newTarget := LookupNext(startSector + i, startSector + i - readSectors, target, locs);
        if newTarget == target {
          readSectors := readSectors + 1;
        } else {
          var c, e := ReadBatch(target, buf, lo, startSector, i - readSectors, readSectors, was, locs);
          assert e == NoError;
          count := count + c;
          readSectors := 1;
          target := newTarget;
        }
        i := i + 1;
      }
      var c, e := ReadBatch(target, buf, lo, startSector, sectors - readSectors, readSectors, was, locs);
      count, err := count + c, e;
      RunStep(locs, files, startSector + sectors - readSectors, startSector + sectors, target);
    }

    /** The layer of the sector after a run: the same, and the run goes on, or another one inside the table. */
    method LookupNext(sector: nat, from: nat, target: nat, ghost locs: seq<nat>) returns (newTarget: nat)
      requires Valid() && SameTargets(locs, location, files)
      requires from < sector && SameRun(locs, files, from, sector, target)
      modifies this`location
      ensures Valid() && SameTargets(locs, location, files) && 1 <= newTarget < |files|
      ensures if newTarget == target then SameRun(locs, files, from, sector + 1, target)
              else sector <= |location| && SameRun(locs, files, sector, sector + 1, newTarget)
    {
      ghost var before := location;
      SameTarget(locs, location, files, sector);
      RunStep(locs, files, from, sector, target);
      hide SameRun;
      newTarget := Lookup(sector);
      SameTargetsTrans(locs, before, location, files);
    }

    /** Aligned read of `len` bytes into `buf[lo..lo + len]`, in batches of one layer each. */
    method FullReadAt(buf: array<byte>, lo: nat, len: nat, offset: nat) returns (count: int, err: IOError)
      requires Valid() && lo + len <= buf.Length
      modifies this`location, buf
      ensures Valid() && SameTargets(old(location), location, files)
      ensures len % 4096 != 0 || offset % 4096 != 0 ==> err == NotAligned && count == 0 && buf[..] == old(buf[..])
      ensures len % 4096 == 0 && offset % 4096 == 0 ==>
                && ReadInto(buf[..], old(buf[..]), old(location), files, lo, len, offset)
                && (err == NoError <==> len == 0 || offset + len <= size || offset + len <= files[|files| - 1].size)
                && (err != NoError ==> err == UnexpectedEOF) && count == if err == NoError then len else size - offset
    {
      if len % 4096 != 0 || offset % 4096 != 0 {
        return 0, NotAligned;
      }
      if len == 0 {
        ReadNothing(buf[..], location, files, lo, offset);
        return 0, NoError;
      }
      count, err := ReadSectors(buf, lo, offset / 4096, len / 4096);
    }

    /** Records `target` as the layer of a run of sectors. */
    method MarkWritten(startSector: nat, sectors: nat, target: nat)
      requires startSector + sectors <= |location|
      modifies this`location
      ensures |location| == old(|location|)
      ensures forall s: nat | s < |location| ::
                location[s] == if startSector <= s < startSector + sectors then target else old(location[s])
    {
      var i := 0;
      while i < sectors
        invariant 0 <= i <= sectors && |location| == old(|location|)
        invariant forall s: nat | s < |location| ::
                    location[s] == if startSector <= s < startSector + i then target else old(location[s])
      {
        location := location[startSector + i := target];
        i := i + 1;
      }
    }

    /** Aligned write to the head; the sectors are marked as held by the head, even if the write fails.  A failed write
        leaves the table exact if and only if the head then holds them all or is the only layer
        (`FailedWriteSafeIff` says when this is certain). */
    method FullWriteAt(buf: seq<byte>, offset: nat, outcome: Outcome) returns (count: nat, err: IOError)
      requires Valid() && HeadCovers() && offset + |buf| <= size
      modifies this`location, this`files, this`holes
      ensures Valid() && HeadCovers()
      ensures |buf| % 4096 != 0 || offset % 4096 != 0 ==>
                && err == NotAligned && count == 0
                && files == old(files) && location == old(location) && holes == old(holes)
      ensures |buf| % 4096 == 0 && offset % 4096 == 0 && outcome.Complete? ==>
                && err == NoError && count == |buf|
                && Wrote(old(files), files, old(Volume()), Volume(), old(holes), holes, offset, buf)
      ensures |buf| % 4096 == 0 && offset % 4096 == 0 && outcome.Failed? ==>
                && err == WriteFailed && count == outcome.written
                && Failing(old(files), files, old(Volume()), Volume(), old(holes), holes, offset, |buf|, outcome.stored)
                && MarkedFor(location, old(location), Touched(offset, |buf|), |files| - 1)
                && (old(holes) == {} ==>
                      (CacheOk(location, files, {})
                       <==> |files| == 2 || Touched(offset, |buf|) <= files[|files| - 1].data.Keys))
    {
      if |buf| % 4096 != 0 || offset % 4096 != 0 {
        return 0, NotAligned;
      }
      hide *;
      if outcome.Failed? {
        TearSectors(offset, |buf|, outcome.stored);
        return outcome.written, WriteFailed;
      }
      StoreSectors(buf, offset);
      count, err := |buf|, NoError;
    }

    method StoreSectors(buf: seq<byte>, offset: nat)
      requires Valid() && HeadCovers() && offset + |buf| <= size && offset % 4096 == 0 && |buf| % 4096 == 0
      modifies this`location, this`files, this`holes
      ensures Valid() && HeadCovers()
      ensures Wrote(old(files), files, old(Volume()), Volume(), old(holes), holes, offset, buf)
    {
      hide ShownImage, Wrote;
      var target := (|files| - 1) % 256;
      files := StoreChunks(files, offset, buf);
      MarkWritten(offset / 4096, |buf| / 4096, target);
      holes := holes - Touched(offset, |buf|);
      AlignedWrite(old(location), old(files), location, old(holes), offset, buf, size);
      WroteIf(old(files), files, old(Volume()), Volume(), old(holes), holes, offset, buf);
    }

    method TearSectors(offset: nat, len: nat, stored: map<nat, Sector>)
      requires Valid() && HeadCovers() && offset + len <= size && offset % 4096 == 0 && len % 4096 == 0
      modifies this`location, this`files, this`holes
      ensures Valid() && HeadCovers()
      ensures Failing(old(files), files, old(Volume()), Volume(), old(holes), holes, offset, len, stored)
      ensures MarkedFor(location, old(location), Touched(offset, len), |files| - 1)
      ensures old(holes) == {} ==>
                (CacheOk(location, files, {}) <==> |files| == 2 || Touched(offset, len) <= files[|files| - 1].data.Keys)
    {
      hide ShownImage, Failing, TornHead, CacheOk;
      var target := (|files| - 1) % 256;
      TornHeadIsTorn(files[|files| - 1], offset, len, stored, size);
      files := files[|files| - 1 := TornHead(files[|files| - 1], offset, len, stored)];
      MarkWritten(offset / 4096, len / 4096, target);
      FailWrite(offset, len, stored, old(files), old(location));
    }

    /** The bookkeeping of a failed write. */
    ghost method FailWrite(offset: nat, len: nat, stored: map<nat, Sector>, files0: seq<Layer>, location0: seq<nat>)
      requires 2 <= |files0| <= 256 && (forall i | 1 <= i < |files0| :: ValidLayer(files0[i]))
      requires size % 4096 == 0 && |location0| == size / 4096 && CacheOk(location0, files0, holes)
      requires var head := TornHead(files0[|files0| - 1], offset, len, stored);
               Torn(files0[|files0| - 1], head, offset, len) && files == files0[|files0| - 1 := head]
      requires offset % 4096 == 0 && len % 4096 == 0 && offset + len <= size && |location| == |location0|
      requires forall s: nat | s < |location| ::
                 location[s] == if offset / 4096 <= s < offset / 4096 + len / 4096 then |files| - 1 else location0[s]
      modifies this`holes
      ensures Valid() && MarkedFor(location, location0, Touched(offset, len), |files| - 1)
      ensures Failing(files0, files, ShownImage(location0, files0, size), Volume(), old(holes), holes,
                      offset, len, stored)
      ensures old(holes) == {} ==>
                (CacheOk(location, files, {}) <==> |files| == 2 || Touched(offset, len) <= files[|files| - 1].data.Keys)
    {
      hide TornHead, CacheOk, Shown;
      var head := files[|files| - 1];
      AlignedSectors(offset, len);
      if holes == {} {
        FailedWriteCache(location0, files0, location, head, offset, len);
      }
      FailedWriteKeeps(location0, files0, location, head, holes, offset, len);
      holes := holes - Touched(offset, len) + (Touched(offset, len) - head.data.Keys);
    }

    /** Part of one sector: read the sector, overlay the buffer, write the sector. */
    method ReadModifyWrite(buf: seq<byte>, offset: nat, outcome: Outcome) returns (count: nat, err: IOError)
      requires Valid() && HeadCovers()
      requires offset % 4096 + |buf| <= 4096 && offset + |buf| <= size
      modifies this`location, this`files, this`holes
      ensures Valid() && HeadCovers()
      ensures |buf| == 0 || outcome.Complete? ==>
                && err == NoError && count == (if |buf| == 0 then 0 else 4096)
                && Wrote(old(files), files, old(Volume()), Volume(), old(holes), holes, offset, buf)
      ensures |buf| > 0 && outcome.Failed? ==>
                && err == WriteFailed && count == outcome.written
                && Failing(old(files), files, old(Volume()), Volume(), old(holes), holes, offset, |buf|, outcome.stored)
    {
      ghost var f, v, h := files, Volume(), holes;
      if |buf| == 0 {
        assert buf == [];
        assert 2 <= |files|;
        hide *;
        WroteNothing(files, Volume(), holes, offset);
        return 0, NoError;
      }
      InVolume(offset, |buf|, size);
      hide *;
      var readOffset := offset - offset % 4096;
      var whole := OverlaySector(buf, offset, readOffset);
      count, err := FullWriteAt(whole, readOffset, outcome);
      if outcome.Failed? {
        FailingSector(f, files, v, Volume(), h, holes, offset, |buf|, outcome.stored);
      } else {
        WroteSector(f, files, v, Volume(), h, holes, offset, buf, whole);
      }
    }

    /** The sector at `readOffset` with the buffer laid over it. */
    method OverlaySector(buf: seq<byte>, offset: nat, readOffset: nat) returns (whole: seq<byte>)
      requires Valid() && readOffset % 4096 == 0 && readOffset + 4096 <= size
      requires readOffset <= offset && offset + |buf| <= readOffset + 4096
      modifies this`location
      ensures Valid() && Volume() == old(Volume()) && |whole| == 4096
      ensures whole == Volume()[readOffset..offset] + buf + Volume()[offset + |buf|..readOffset + 4096]
    {
      hide *;
      var sector := ReadSector(readOffset);
      whole := sector[..offset - readOffset] + buf + sector[offset - readOffset + |buf|..];
      ghost var v := Volume();
      assert sector[..offset - readOffset] == v[readOffset..offset];
      assert sector[offset - readOffset + |buf|..] == v[offset + |buf|..readOffset + 4096];
    }

    /** One sector, read into a cleared buffer. */
    method ReadSector(offset: nat) returns (sector: seq<byte>)
      requires Valid() && offset % 4096 == 0 && offset + 4096 <= size
      modifies this`location
      ensures Valid() && Volume() == old(Volume())
      ensures sector == Volume()[offset..offset + 4096]
    {
      var readBuf := new byte[4096](_ => 0);
      assert readBuf[..] == seq(4096, _ => 0);
      var _, _ := FullReadAt(readBuf, 0, 4096, offset);
      sector := readBuf[..];
      CleanRead(sector, seq(4096, _ => 0), old(location), files, 0, 4096, offset, size);
      SameShown(old(location), location, files, size);
    }

    /** Any write inside the volume.  If its parts are stored, the flat volume changes by exactly the buffer, and only
        the touched sectors of the head layer change; a write within one sector reports the whole sector as its count.
        If a part fails, the parts before it are written (`done` bytes), and outside the sectors of the failing part
        (`part` bytes) nothing else changes; a write of several parts then reports 0. */
    method WriteAt(buf: seq<byte>, offset: nat, first: Outcome, middle: Outcome, last: Outcome)
      returns (count: nat, err: IOError, ghost done: nat, ghost part: nat)
      requires Valid() && HeadCovers() && offset + |buf| <= size
      modifies this`location, this`files, this`holes
      ensures Valid() && HeadCovers() && (err == NoError || err == WriteFailed)
      ensures HeadWithin(old(files), files, offset, |buf|)
      ensures err == WriteFailed <==> SomePartFails(offset, |buf|, first, middle, last)
      ensures err == NoError ==>
                && count == (if 0 < |buf| && offset % 4096 + |buf| <= 4096 then 4096 else |buf|)
                && Wrote(old(files), files, old(Volume()), Volume(), old(holes), holes, offset, buf)
      ensures err == WriteFailed ==>
                && count == (if IsSplit(offset, |buf|) then 0 else first.written) && done + part <= |buf|
                && FailsAt(offset, |buf|, first, middle, done, part)
                && PartlyWritten(old(Volume()), Volume(), offset, buf, done, part)
    {
      hide Wrote, ShownImage, Target, CacheOk, Failing, PartlyWritten, HeadWithin;
      done, part := 0, |buf|;
      ghost var f, v, h := files, Volume(), holes;
      var startOffset := offset % 4096;
      var startCut := 4096 - startOffset;
      var endOffset := (|buf| + offset) % 4096;
      if |buf| == 0 {
        assert buf == [];
        WroteNothing(files, Volume(), holes, offset);
        WroteIsWithin(f, files, v, Volume(), h, holes, offset, buf);
        return 0, NoError, 0, 0;
      }
      if startCut >= |buf| || (startOffset == 0 && endOffset == 0) {
        count, err := WriteOnce(buf, offset, first);
        if first.Failed? {
          FailingWhole(f, files, v, Volume(), h, holes, offset, buf, first.stored);
          FailingIsWithin(f, files, v, Volume(), h, holes, offset, |buf|, first.stored);
        } else {
          WroteIsWithin(f, files, v, Volume(), h, holes, offset, buf);
        }
        return;
      }
      Cuts(offset, |buf|);
      err, done, part := WriteSplit(buf, offset, startCut, endOffset, first, middle, last);
      count := if err == NoError then |buf| else 0;
    }

    /** A write that is aligned or lies in one sector. */
    method WriteOnce(buf: seq<byte>, offset: nat, outcome: Outcome) returns (count: nat, err: IOError)
      requires Valid() && HeadCovers() && offset + |buf| <= size && 0 < |buf|
      requires offset % 4096 + |buf| <= 4096 || (offset % 4096 == 0 && (|buf| + offset) % 4096 == 0)
      modifies this`location, this`files, this`holes
      ensures Valid() && HeadCovers()
      ensures outcome.Complete? ==>
                && err == NoError && count == (if offset % 4096 + |buf| <= 4096 then 4096 else |buf|)
                && Wrote(old(files), files, old(Volume()), Volume(), old(holes), holes, offset, buf)
      ensures outcome.Failed? ==>
                && err == WriteFailed && count == outcome.written
                && Failing(old(files), files, old(Volume()), Volume(), old(holes), holes, offset, |buf|, outcome.stored)
    {
      hide *;
      if offset % 4096 == 0 && (|buf| + offset) % 4096 == 0 {
        Aligned(offset, |buf|);
        count, err := FullWriteAt(buf, offset, outcome);
        return;
      }
      count, err := ReadModifyWrite(buf, offset, outcome);
    }

    /** The head, middle and tail parts of an unaligned write, in this order. */
    method WriteSplit(buf: seq<byte>, offset: nat, startCut: nat, endOffset: nat,
                      first: Outcome, middle: Outcome, last: Outcome)
      returns (err: IOError, ghost done: nat, ghost part: nat)
      requires Valid() && HeadCovers() && offset + |buf| <= size && 0 < startCut <= |buf| - endOffset
      requires offset % 4096 + startCut <= 4096 && (offset + startCut) % 4096 == 0 && endOffset <= 4096
      requires (|buf| - endOffset - startCut) % 4096 == 0 && (offset + |buf| - endOffset) % 4096 == 0
      modifies this`location, this`files, this`holes
      ensures Valid() && HeadCovers()
      ensures err == if first.Failed? || middle.Failed? || (last.Failed? && endOffset > 0) then WriteFailed else NoError
      ensures HeadWithin(old(files), files, offset, |buf|)
      ensures err == NoError ==> Wrote(old(files), files, old(Volume()), Volume(), old(holes), holes, offset, buf)
      ensures err == WriteFailed ==>
                && done == (if first.Failed? then 0 else if middle.Failed? then startCut else |buf| - endOffset)
                && part == (if first.Failed? then startCut
                            else if middle.Failed? then |buf| - endOffset - startCut else endOffset)
                && done + part <= |buf| && PartlyWritten(old(Volume()), Volume(), offset, buf, done, part)
    {
      hide *;
      var cut := |buf| - endOffset;
      ghost var f0, v0, h0 := files, Volume(), holes;
      done, part := 0, startCut;
      var count;
      var a, b, c := buf[..startCut], buf[startCut..cut], buf[cut..];
      count, err := ReadModifyWrite(a, offset, first);
      if first.Failed? {
        FirstFails(f0, files, v0, Volume(), h0, holes, offset, buf, startCut, first.stored);
        FailingIsWithin(f0, files, v0, Volume(), h0, holes, offset, startCut, first.stored);
        HeadWithinMore(f0, files, offset, startCut, |buf|);
        return;
      }
      ghost var f1, v1, h1 := files, Volume(), holes;
      WroteSplices(f0, f1, v0, v1, h0, h1, offset, a);
      done, part := startCut, cut - startCut;
      count, err := FullWriteAt(b, offset + startCut, middle);
      if middle.Failed? {
        FailingPart(v0, f1, files, v1, Volume(), h1, holes, offset, buf, done, part, middle.stored);
        FailingIsWithin(f1, files, v1, Volume(), h1, holes, offset + done, part, middle.stored);
        WroteIsWithin(f0, f1, v0, v1, h0, h1, offset, a);
        HeadWithinNext(f0, f1, files, offset, done, part, |buf|);
        return;
      }
      WroteTwice(f0, f1, files, v0, v1, Volume(), h0, h1, holes, offset, a, b);
      ghost var f2, v2, h2 := files, Volume(), holes;
      assert a + b == buf[..cut];
      WroteSplices(f0, f2, v0, v2, h0, h2, offset, buf[..cut]);
      done, part := cut, endOffset;
      count, err := ReadModifyWrite(c, offset + cut, last);
      if last.Failed? && endOffset > 0 {
        FailingPart(v0, f2, files, v2, Volume(), h2, holes, offset, buf, done, part, last.stored);
        FailingIsWithin(f2, files, v2, Volume(), h2, holes, offset + done, part, last.stored);
        WroteIsWithin(f0, f2, v0, v2, h0, h2, offset, buf[..cut]);
        HeadWithinNext(f0, f2, files, offset, done, part, |buf|);
        return;
      }
      WroteTwice(f0, f2, files, v0, v2, Volume(), h0, h2, holes, offset, buf[..cut], c);
      assert buf[..cut] + c == buf;
      WroteIsWithin(f0, files, v0, Volume(), h0, holes, offset, buf);
    }

    /** An aligned read into a part of `buf` that is still zero. */
    method ReadClean(buf: array<byte>, lo: nat, len: nat, offset: nat)
      requires Valid() && lo + len <= buf.Length
      requires len % 4096 == 0 && offset % 4096 == 0 && offset + len <= size
      requires forall k | lo <= k < lo + len :: buf[k] == 0
      modifies this`location, buf
      ensures Valid() && SameTargets(old(location), location, files) && Volume() == old(Volume())
      ensures buf[..] == old(buf[..])[..lo] + Volume()[offset..offset + len] + old(buf[..])[lo + len..]
    {
      hide ReadInto, ShownImage, Target;
      ghost var was := buf[..];
      assert forall k | lo <= k < lo + len :: was[k] == 0;
      var _, _ := FullReadAt(buf, lo, len, offset);
      CleanRead(buf[..], was, old(location), files, lo, len, offset, size);
      SameShown(old(location), location, files, size);
    }

    /** Reads the last sector of a request over whatever the scratch buffer held. */
    method ReadTail(readBuf: array<byte>, offset: nat, ghost locs: seq<nat>)
      requires Valid() && readBuf.Length == 4096 && offset % 4096 == 0 && offset + 4096 <= size
      requires InRange(locs, files) && SameTargets(locs, location, files)
      modifies this`location, readBuf
      ensures Valid() && SameTargets(locs, location, files)
      ensures TailRead(readBuf[..], old(readBuf[..]), locs, files, offset)
    {
      hide ReadInto, TailRead;
      ghost var was, mid := readBuf[..], location;
      var _, _ := FullReadAt(readBuf, 0, 4096, offset);
      SameRead(locs, mid, files, readBuf[..], was, 0, 4096, offset);
      ReadIsTail(readBuf[..], was, locs, files, offset);
    }

    /** The first, possibly partial, sector of an unaligned read; the scratch buffer keeps it. */
    method ReadFirst(buf: array<byte>, readBuf: array<byte>, base: nat, from: nat, cut: nat)
      requires Valid() && readBuf.Length == 4096 && buf != readBuf
      requires base % 4096 == 0 && base + 4096 <= size && from + cut <= 4096 && cut <= buf.Length
      requires forall k | 0 <= k < 4096 :: readBuf[k] == 0
      modifies this`location, buf, readBuf
      ensures Valid() && SameTargets(old(location), location, files) && Volume() == old(Volume())
      ensures readBuf[..] == Volume()[base..base + 4096]
      ensures buf[..] == Volume()[base + from..base + from + cut] + old(buf[cut..])
    {
      hide *;
      ReadClean(readBuf, 0, 4096, base);
      CopyHead(buf, readBuf, from, cut);
      SliceOfSlice(Volume(), base, 4096, from, cut);
    }

    method CopyHead(buf: array<byte>, readBuf: array<byte>, from: nat, cut: nat)
      requires readBuf.Length == 4096 && from + cut <= 4096 && cut <= buf.Length && buf != readBuf
      modifies buf
      ensures buf[..] == readBuf[..][from..from + cut] + old(buf[cut..])
    {
      forall k | 0 <= k < cut {
        buf[k] := readBuf[from + k];
      }
    }

    /** Any read inside the volume into a cleared buffer. */
    method ReadAt(buf: array<byte>, offset: nat) returns (count: int, err: IOError)
      requires Valid() && offset + buf.Length <= size
      requires forall k | 0 <= k < buf.Length :: buf[k] == 0
      modifies this`location, buf
      ensures Valid() && SameTargets(old(location), location, files)
      ensures err == NoError && count == buf.Length
      ensures ReadResult(buf[..], old(location), files, offset)
    {
      SameTargetsTrans(location, location, location, files);
      assert InRange(location, files);
      assert buf.Length == 0 ==> ReadResult(buf[..], location, files, offset);
      hide CacheOk, SameTargets, ShownImage, ReadResult, InRange;
      var len := buf.Length;
      ghost var locs := location;
      count, err := len, NoError;
      if len == 0 {
        return;
      }
      if offset % 4096 == 0 && (len + offset) % 4096 == 0 {
        Aligned(offset, len);
        ReadClean(buf, 0, len, offset);
        ExactResult(buf[..], locs, files, offset, size);
        return;
      }
      ReadUnaligned(buf, offset, offset % 4096, (len + offset) % 4096, locs);
    }

    /** A read that does not start or does not end with a sector, through a scratch buffer. */
    method ReadUnaligned(buf: array<byte>, offset: nat, startOffset: nat, endOffset: nat, ghost locs: seq<nat>)
      requires Valid() && offset + buf.Length <= size && 0 < buf.Length
      requires startOffset == offset % 4096 && endOffset == (buf.Length + offset) % 4096
      requires forall k | 0 <= k < buf.Length :: buf[k] == 0
      requires locs == location && InRange(locs, files)
      modifies this`location, buf
      ensures Valid() && SameTargets(locs, location, files)
      ensures ReadResult(buf[..], locs, files, offset)
    {
      hide CacheOk, SameTargets, ShownImage, ReadResult, InRange;
      var len, startCut := buf.Length, 4096 - startOffset;
      var readBuf := new byte[4096](_ => 0);
      InVolume(offset, len, size);
      if startCut >= len {
        ReadFirst(buf, readBuf, offset - startOffset, startOffset, len);
        ExactResult(buf[..], locs, files, offset, size);
        return;
      }
      ReadFirst(buf, readBuf, offset - startOffset, startOffset, startCut);
      SplitAfter(Volume()[offset..offset + startCut], old(buf[startCut..]), buf[..], startCut);
      ReadRest(buf, readBuf, offset, startCut, endOffset, locs);
    }

    /** The middle and the last sector of an unaligned read. */
    method ReadRest(buf: array<byte>, readBuf: array<byte>, offset: nat, startCut: nat, endOffset: nat,
                    ghost locs: seq<nat>)
      requires Valid() && offset + buf.Length <= size && readBuf.Length == 4096 && buf != readBuf
      requires InRange(locs, files) && SameTargets(locs, location, files)
      requires startCut == 4096 - offset % 4096 < buf.Length && endOffset == (buf.Length + offset) % 4096
      requires buf[..][..startCut] == ShownImage(locs, files, size)[offset..offset + startCut]
      requires forall k | startCut <= k < buf.Length :: buf[..][k] == 0
      requires var base := offset - offset % 4096;
               base + 4096 <= size && readBuf[..] == ShownImage(locs, files, size)[base..base + 4096]
      modifies this`location, buf, readBuf
      ensures Valid() && SameTargets(locs, location, files)
      ensures ReadResult(buf[..], locs, files, offset)
    {
      hide *;
      var len := buf.Length;
      Cuts(offset, len);
      var middle := len - endOffset - startCut;
      ReadMiddle(buf, offset, startCut, middle, locs);
      assert startCut + middle == len - endOffset && offset + startCut + middle == offset + len - endOffset;
      ReadEnd(buf, readBuf, offset, endOffset, locs);
    }

    /** The rest of a read whose whole sectors are done. */
    method ReadEnd(buf: array<byte>, readBuf: array<byte>, offset: nat, endOffset: nat, ghost locs: seq<nat>)
      requires Valid() && offset + buf.Length <= size && readBuf.Length == 4096 && buf != readBuf
      requires InRange(locs, files) && SameTargets(locs, location, files)
      requires 4096 - offset % 4096 < buf.Length && endOffset == (buf.Length + offset) % 4096
      requires endOffset <= buf.Length
      requires buf[..][..buf.Length - endOffset]
               == ShownImage(locs, files, size)[offset..offset + buf.Length - endOffset]
      requires var base := offset - offset % 4096;
               base + 4096 <= size && readBuf[..] == ShownImage(locs, files, size)[base..base + 4096]
      modifies this`location, buf, readBuf
      ensures Valid() && SameTargets(locs, location, files)
      ensures ReadResult(buf[..], locs, files, offset)
    {
      assert 2 <= |files|;
      hide *;
      if endOffset > 0 {
        ReadLast(buf, readBuf, offset, endOffset, locs);
        return;
      }
      ExactWhole(buf[..], buf.Length, locs, files, offset, size);
    }

    /** The last, partial, sector, read over the first one in the scratch buffer. */
    method ReadLast(buf: array<byte>, readBuf: array<byte>, offset: nat, endOffset: nat, ghost locs: seq<nat>)
      requires Valid() && offset + buf.Length <= size && readBuf.Length == 4096 && buf != readBuf
      requires InRange(locs, files) && SameTargets(locs, location, files)
      requires 4096 - offset % 4096 < buf.Length && 0 < endOffset == (buf.Length + offset) % 4096
      requires endOffset <= buf.Length
      requires buf[..][..buf.Length - endOffset]
               == ShownImage(locs, files, size)[offset..offset + buf.Length - endOffset]
      requires var base := offset - offset % 4096;
               base + 4096 <= size && readBuf[..] == ShownImage(locs, files, size)[base..base + 4096]
      modifies this`location, buf, readBuf
      ensures Valid() && SameTargets(locs, location, files)
      ensures ReadResult(buf[..], locs, files, offset)
    {
      hide CacheOk, SameTargets, ShownImage, ReadResult, InRange, TailRead, TailStart;
      var len := buf.Length;
      ghost var first, mid := readBuf[..], buf[..];
      LastInVolume(offset, len, size);
      ReadTail(readBuf, offset + len - endOffset, locs);
      ghost var scratch := readBuf[..];
      CopyTail(buf, readBuf, endOffset);
      assert mid[..len - endOffset] == old(buf[..len - endOffset]);
      TailResult(locs, files, size, offset, mid, buf[..], first, scratch);
    }

    /** The whole sectors after the first one. */
    method ReadMiddle(buf: array<byte>, offset: nat, startCut: nat, len: nat, ghost locs: seq<nat>)
      requires Valid() && startCut + len <= buf.Length && offset + startCut + len <= size
      requires InRange(locs, files) && SameTargets(locs, location, files)
      requires (offset + startCut) % 4096 == 0 && len % 4096 == 0
      requires buf[..][..startCut] == ShownImage(locs, files, size)[offset..offset + startCut]
      requires forall k | startCut <= k < buf.Length :: buf[..][k] == 0
      modifies this`location, buf
      ensures Valid() && SameTargets(locs, location, files)
      ensures buf[..][..startCut + len] == ShownImage(locs, files, size)[offset..offset + startCut + len]
    {
      assert InRange(location, files);
      hide CacheOk, SameTargets, ShownImage, InRange;
      ghost var was, mid := buf[..], location;
      SameShown(locs, location, files, size);
      ghost var v := Volume();
      assert forall k | startCut <= k < startCut + len :: buf[k] == was[k];
      ReadClean(buf, startCut, len, offset + startCut);
      SameTargetsTrans(locs, mid, location, files);
      MiddleRead(v, was, buf[..], offset, startCut, len);
    }

    method CopyTail(buf: array<byte>, readBuf: array<byte>, endOffset: nat)
      requires readBuf.Length == 4096 && endOffset <= 4096 && endOffset <= buf.Length && buf != readBuf
      modifies buf
      ensures buf[..] == old(buf[..buf.Length - endOffset]) + readBuf[..endOffset]
    {
      var from := buf.Length - endOffset;
      forall k | from <= k < buf.Length {
        buf[k] := readBuf[k - from];
      }
    }

    /** Takes layer `index` out and moves the cached indices above it down by one. */
    method RemoveIndex(index: nat)
      requires Valid() && 1 <= index < |files| && 3 <= |files|
      modifies this`location, this`files
      ensures Valid()
      ensures files == RemoveAt(old(files), index)
      ensures |location| == old(|location|)
      ensures forall s: nat | s < |location| :: location[s] == Shift(old(location[s]), index)
    {
      var i := 0;
      while i < |location|
        invariant 0 <= i <= |location| == old(|location|) && files == old(files)
        invariant forall s: nat | s < |location| ::
                    location[s] == if s < i then Shift(old(location[s]), index) else old(location[s])
      {
        if location[i] == index % 256 {
          location := location[i := 0];
        } else if location[i] > index % 256 {
          location := location[i := location[i] - 1];
        }
        i := i + 1;
      }
      files := files[..index] + files[index + 1..];
      forall s: nat | s < |location|
        ensures location[s] < |files| && (location[s] == 0 || s in holes || location[s] == Search(files, s))
      {
        if s !in holes {
          ShiftKeepsCache(old(files), index, s, old(location[s]));
        }
      }
    }

    /** Replaces the file behind one index, for instance after it has been relinked. */
    method SetFile(index: nat, layer: Layer)
      requires Valid() && 1 <= index < |files| && ValidLayer(layer)
      requires CacheOk(location, files[index := layer], holes)
      modifies this`files
      ensures Valid() && files == old(files)[index := layer]
    {
      files := files[index := layer];
    }

    /** Puts a new empty head on top. */
    method AppendHead(head: Layer)
      requires Valid() && |files| < 256 && head.data == map[]
      modifies this`files
      ensures Valid() && files == old(files) + [head] && Volume() == old(Volume())
    {
      forall s: nat ensures Search(files + [head], s) == Search(files, s) {
        SearchFinds(files, s, Search(files, s));
        SearchFinds(files + [head], s, Search(files, s));
      }
      EmptyHeadShows(location, files, head, size);
      files := files + [head];
    }

    /** Grows the sector table to a larger volume. */
    method Expand(newSize: nat)
      requires Valid() && size <= newSize && newSize % 4096 == 0
      modifies this`location, this`size
      ensures Valid() && size == newSize
      ensures location == old(location) + seq(newSize / 4096 - old(size) / 4096, _ => 0)
      ensures Volume()[..old(size)] == old(Volume())
      ensures forall pos | old(size) <= pos < newSize :: Volume()[pos] == ByteAt(files[1..], pos)
      ensures DataWithin(files, old(size)) ==> forall pos | old(size) <= pos < newSize :: Volume()[pos] == 0
    {
      var newLocationSize := newSize / 4096;
      if newSize % 4096 != 0 {
        newLocationSize := newLocationSize + 1;
      }
      location := location + seq(newLocationSize - |location|, _ => 0);
      size := newSize;
      forall pos | old(size) <= pos < newSize
        ensures Volume()[pos] == ByteAt(files[1..], pos)
        ensures DataWithin(files, old(size)) ==> Volume()[pos] == 0
      {
        AddedBytes(location, files, old(size), pos);
      }
    }

    /** Unmaps the head and as many layers below it as there are further unmappable disks. */
    method UnmapAt(unmappable: nat, length: nat, offset: nat) returns (failed: bool)
      requires Valid() && length < 0x1_0000_0000
      requires forall i | 1 <= i < |files| :: files[i].size % 4096 == 0
      modifies this`files, this`holes
      ensures Valid() && !failed && |files| == old(|files|) && (old(HeadCovers()) ==> HeadCovers())
      ensures length < 4096 ==> files == old(files) && holes == old(holes)
      ensures var o, l := TrimOffset(length, offset), TrimLength(length, offset);
              length >= 4096 ==>
                && (forall i | 0 <= i < |files| ::
                     files[i] == if 0 < i && |files| - 1 - i < unmappable
                                 then Punch(old(files[i]), o, l) else old(files[i]))
                && SameOutside(location, old(files), files, o, l)
                && holes == old(holes) + Touched(o, l)
    {
      if length < 4096 {
        return false;
      }
      var o, l := TrimOffset(length, offset), TrimLength(length, offset);
      TrimIsLargest(length, offset);
      if l == 0 {
        assert Touched(o, l) == {} && SameOutside(location, old(files), files, o, l);
        assert forall x: Layer :: Punch(x, o, l) == Layer(x.size, x.data);
        return false;
      }
      if length < l {
        return true;
      }
      var idx := |files| - 1;
      while idx > 0 && unmappable > |files| - 1 - idx
        invariant 0 <= idx < |files| == old(|files|) && holes == old(holes)
        invariant idx == |files| - 1 || |files| - 2 - idx < unmappable
        invariant forall i | 0 <= i < |files| ::
                    files[i] == if idx < i then Punch(old(files[i]), o, l) else old(files[i])
      {
        var apparentSize := files[idx].size;
        var len := if apparentSize < o + l then apparentSize - o else l;
        if apparentSize < o || len <= 0 {
          PunchBeyond(files[idx], o, l, 0);
        } else {
          PunchBeyond(files[idx], o, l, len);
          files := files[idx := Punch(files[idx], o, len)];
        }
        idx := idx - 1;
      }
      forall pos: nat | !(o <= pos < o + l)
        ensures Shown(location, files, pos) == old(Shown(location, files, pos))
      {
        PunchOutside(location, old(files), files, o, l, pos);
      }
      holes := holes + Touched(o, l);
      UnmapKeepsCache(location, old(files), files, old(holes), o, l);
      failed := false;
    }
  }
}

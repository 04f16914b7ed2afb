/** What reads, writes, removals and unmaps mean for a stack of differencing files with a per-sector
    cache of the layer that holds the sector.

    `files[0]` is the nil entry, `files[1]` the base and the last entry the writable head.
 */
module SectorMaps {
  import opened Layers

  /** The layer a top-down search finds for a sector; layer 1 is the answer when no higher layer
      holds it, whether or not layer 1 does. */
  function SearchFrom(files: seq<Layer>, s: nat, i: nat): (r: nat)
    requires 1 <= i < |files|
    ensures 1 <= r <= i
  {
    if i == 1 || s in files[i].data then i else SearchFrom(files, s, i - 1)
  }

  function Search(files: seq<Layer>, s: nat): (r: nat)
    requires 2 <= |files|
    ensures 1 <= r < |files|
  {
    SearchFrom(files, s, |files| - 1)
  }

  /** The search result is the topmost layer above the base that holds the sector, or the base. */
  ghost predicate Finds(files: seq<Layer>, s: nat, r: nat) {
    && 1 <= r < |files|
    && (r > 1 ==> s in files[r].data)
    && forall j | r < j < |files| :: s !in files[j].data
  }

  lemma {:induction false} SearchFromFinds(files: seq<Layer>, s: nat, i: nat)
    requires 1 <= i < |files|
    requires forall j | i < j < |files| :: s !in files[j].data
    ensures Finds(files, s, SearchFrom(files, s, i))
  {
    if i > 1 && s !in files[i].data {
      SearchFromFinds(files, s, i - 1);
    }
  }

  lemma SearchFinds(files: seq<Layer>, s: nat, r: nat)
    requires 2 <= |files|
    ensures r == Search(files, s) <==> Finds(files, s, r)
  {
    SearchFromFinds(files, s, |files| - 1);
  }

  /** The layer a read of the sector goes to: the cached one if there is one. */
  function Target(location: seq<nat>, files: seq<Layer>, s: nat): nat
    requires 2 <= |files|
  {
    if s >= |location| then |files| - 1
    else if location[s] == 0 then Search(files, s)
    else location[s]
  }

  /** Each entry is unknown (0) or exactly what the search finds.  Sectors in `holes` were unmapped
      since they were last written, or their last write failed, and only their range is known. */
  ghost predicate CacheOk(location: seq<nat>, files: seq<Layer>, holes: set<nat>)
    requires 2 <= |files|
  {
    forall s: nat | s < |location| ::
      location[s] < |files| && (location[s] == 0 || s in holes || location[s] == Search(files, s))
  }

  ghost predicate SameTargets(a: seq<nat>, b: seq<nat>, files: seq<Layer>)
    requires 2 <= |files|
  {
    |a| == |b| && forall s: nat | s < |a| :: Target(a, files, s) == Target(b, files, s)
  }

  ghost predicate InRange(location: seq<nat>, files: seq<Layer>) {
    forall s: nat | s < |location| :: location[s] < |files|
  }

  /** The byte a read shows, and whether the layer it comes from reaches that far. */
  ghost function Shown(location: seq<nat>, files: seq<Layer>, pos: nat): byte
    requires 2 <= |files| && InRange(location, files)
  {
    LayerByte(files[Target(location, files, pos / 4096)], pos)
  }

  ghost predicate Covered(location: seq<nat>, files: seq<Layer>, pos: nat)
    requires 2 <= |files| && InRange(location, files)
  {
    pos < files[Target(location, files, pos / 4096)].size
  }

  ghost function ShownImage(location: seq<nat>, files: seq<Layer>, size: nat): (v: seq<byte>)
    requires 2 <= |files| && InRange(location, files)
    ensures |v| == size
    ensures forall i | 0 <= i < size :: v[i] == Shown(location, files, i)
  {
    seq(size, i requires 0 <= i => Shown(location, files, i))
  }

  /** The layers' own image of a sector is what its search target holds. */
  lemma {:induction false} SearchShowsImage(files: seq<Layer>, s: nat)
    requires 2 <= |files|
    ensures var l := files[Search(files, s)];
            SectorAt(files[1..], s) == if s in l.data then l.data[s] else Zeros()
  {
    SearchFromShowsImage(files, s, |files| - 1);
    assert files[1..|files|] == files[1..];
  }

  lemma {:induction false} SearchFromShowsImage(files: seq<Layer>, s: nat, i: nat)
    requires 1 <= i < |files|
    ensures var l := files[SearchFrom(files, s, i)];
            SectorAt(files[1..i + 1], s) == if s in l.data then l.data[s] else Zeros()
  {
    assert files[1..i + 1] == files[1..i] + [files[i]];
    SectorAtSnoc(files[1..i], files[i], s);
    if i > 1 {
      SearchFromShowsImage(files, s, i - 1);
    } else {
      assert files[1..1] == [];
    }
  }

  /** Outside the unmapped sectors, reading through the cache shows the overlay of the layers. */
  lemma ShownIsImage(location: seq<nat>, files: seq<Layer>, holes: set<nat>, pos: nat)
    requires 2 <= |files| && CacheOk(location, files, holes)
    requires pos / 4096 < |location| && pos / 4096 !in holes
    ensures Shown(location, files, pos) == ByteAt(files[1..], pos)
  {
    SearchShowsImage(files, pos / 4096);
  }

  /** The index shift of a layer removal, as the removal loop computes it entry by entry. */
  function Shift(entry: nat, index: nat): nat {
    if entry == index then 0 else if entry > index then entry - 1 else entry
  }

  function RemoveAt<T>(s: seq<T>, index: nat): (r: seq<T>)
    requires index < |s|
    ensures |r| == |s| - 1
    ensures forall i | 0 <= i < |r| :: r[i] == if i < index then s[i] else s[i + 1]
  {
    s[..index] + s[index + 1..]
  }

  /** Shifting the cached indices keeps every known entry exactly the search result, whatever layer
      is taken out. */
  lemma ShiftKeepsCache(files: seq<Layer>, index: nat, s: nat, entry: nat)
    requires 3 <= |files| && 1 <= index < |files|
    requires entry < |files| && (entry == 0 || entry == Search(files, s))
    ensures var e, fs := Shift(entry, index), RemoveAt(files, index);
            e < |fs| && (e == 0 || e == Search(fs, s))
  {
    var e, fs := Shift(entry, index), RemoveAt(files, index);
    if e != 0 {
      SearchFinds(files, s, entry);
      SearchFinds(fs, s, e);
    }
  }

  /** Swapping a coalesced file in below keeps the cache: with layer `i` holding everything its child
      holds, taking `i` out and giving the child's slot the file of layer `i` agrees with the search. */
  lemma ReplaceKeepsCache(files: seq<Layer>, i: nat, s: nat, entry: nat)
    requires 3 <= |files| && 1 <= i < |files| - 1
    requires files[i + 1].data.Keys <= files[i].data.Keys
    requires entry < |files| && (entry == 0 || entry == Search(files, s))
    ensures var e, fs := Shift(entry, i), RemoveAt(files, i)[i := files[i]];
            e < |fs| && (e == 0 || e == Search(fs, s))
  {
    var e, fs := Shift(entry, i), RemoveAt(files, i)[i := files[i]];
    if e != 0 {
      SearchFinds(files, s, entry);
      SearchFinds(fs, s, e);
    }
  }

  /** `now` is `was` after the bytes `[start, start + len)` of a request at `offset`, placed at `lo`,
      have been read from one file; bytes past the file's end are left alone. */
  ghost predicate FileInto(now: seq<byte>, was: seq<byte>, l: Layer, lo: nat, offset: nat, start: nat, len: nat) {
    |now| == |was| && forall k | 0 <= k < |now| ::
      now[k] == if lo + start <= k < lo + start + len && offset + k - lo < l.size
                then LayerByte(l, offset + k - lo) else was[k]
  }

  /** `now` is `was` after the first `done` bytes of the request have been read through the cache. */
  ghost predicate ReadInto(now: seq<byte>, was: seq<byte>, location: seq<nat>, files: seq<Layer>,
                           lo: nat, done: nat, offset: nat)
    requires 2 <= |files| && InRange(location, files)
  {
    |now| == |was| && forall k | 0 <= k < |now| ::
      now[k] == if lo <= k < lo + done && Covered(location, files, offset + k - lo)
                then Shown(location, files, offset + k - lo) else was[k]
  }

  lemma ReadNothing(was: seq<byte>, location: seq<nat>, files: seq<Layer>, lo: nat, offset: nat)
    requires 2 <= |files| && InRange(location, files)
    ensures ReadInto(was, was, location, files, lo, 0, offset)
  {
  }

  ghost predicate SameRun(location: seq<nat>, files: seq<Layer>, from: nat, to: nat, target: nat)
    requires 2 <= |files|
  {
    forall s: nat | from <= s < to :: Target(location, files, s) == target
  }

  /** The next sector either extends the run or starts a new one; past the table every sector maps to the head, so a
      change of layer is inside it. */
  lemma RunStep(locs: seq<nat>, files: seq<Layer>, from: nat, to: nat, target: nat)
    requires 2 <= |files| && from < to && SameRun(locs, files, from, to, target)
    ensures Target(locs, files, to) == target ==> SameRun(locs, files, from, to + 1, target)
    ensures Target(locs, files, to) != target ==>
              to <= |locs| && SameRun(locs, files, to, to + 1, Target(locs, files, to))
    ensures to > |locs| ==> target == |files| - 1
  {
    assert Target(locs, files, to - 1) == target;
  }

  lemma RunStart(locs: seq<nat>, files: seq<Layer>, s: nat)
    requires 2 <= |files|
    ensures SameRun(locs, files, s, s + 1, Target(locs, files, s))
  {
  }

  /** One batch extends what has been read. */
  lemma ReadRun(was: seq<byte>, mid: seq<byte>, now: seq<byte>, location: seq<nat>, files: seq<Layer>,
                lo: nat, offset: nat, first: nat, sectors: nat, target: nat)
    requires 2 <= |files| && InRange(location, files)
    requires offset % 4096 == 0 && target < |files|
    requires ReadInto(mid, was, location, files, lo, first * 4096, offset)
    requires SameRun(location, files, offset / 4096 + first, offset / 4096 + first + sectors, target)
    requires FileInto(now, mid, files[target], lo, offset, first * 4096, sectors * 4096)
    ensures ReadInto(now, was, location, files, lo, (first + sectors) * 4096, offset)
  {
    forall k | 0 <= k < |now|
      ensures now[k] == if lo <= k < lo + (first + sectors) * 4096 && Covered(location, files, offset + k - lo)
                        then Shown(location, files, offset + k - lo) else was[k]
    {
      if lo + first * 4096 <= k < lo + (first + sectors) * 4096 {
        assert Target(location, files, (offset + k - lo) / 4096) == target;
      }
    }
  }

  /** A read into a cleared buffer yields the volume, also past the end of short layers. */
  lemma CleanRead(now: seq<byte>, was: seq<byte>, location: seq<nat>, files: seq<Layer>, lo: nat, len: nat,
                  offset: nat, size: nat)
    requires 2 <= |files| && InRange(location, files)
    requires forall i | 1 <= i < |files| :: ValidLayer(files[i])
    requires ReadInto(now, was, location, files, lo, len, offset) && lo + len <= |now| && offset + len <= size
    requires forall k | lo <= k < lo + len :: was[k] == 0
    ensures now == was[..lo] + ShownImage(location, files, size)[offset..offset + len] + was[lo + len..]
  {
    forall k | lo <= k < lo + len
      ensures now[k] == Shown(location, files, offset + k - lo)
    {
      if !Covered(location, files, offset + k - lo) {
        UncoveredIsZero(location, files, offset + k - lo);
      }
    }
  }

  lemma UncoveredIsZero(location: seq<nat>, files: seq<Layer>, pos: nat)
    requires 2 <= |files| && InRange(location, files)
    requires forall i | 1 <= i < |files| :: ValidLayer(files[i])
    requires !Covered(location, files, pos)
    ensures Shown(location, files, pos) == 0
  {
    assert pos == pos / 4096 * 4096 + pos % 4096;
    assert ValidLayer(files[Target(location, files, pos / 4096)]);
  }

  /** The flat volume with `buf` spliced in. */
  function Spliced(v: seq<byte>, off: nat, buf: seq<byte>): (r: seq<byte>)
    requires off + |buf| <= |v|
    ensures |r| == |v|
  {
    v[..off] + buf + v[off + |buf|..]
  }

  lemma SplicedAt(v: seq<byte>, off: nat, buf: seq<byte>, i: nat)
    requires off + |buf| <= |v| && i < |v|
    ensures Spliced(v, off, buf)[i] == if off <= i < off + |buf| then buf[i - off] else v[i]
  {
  }

  lemma SplicedTwice(v: seq<byte>, off: nat, a: seq<byte>, b: seq<byte>)
    requires off + |a| + |b| <= |v|
    ensures Spliced(Spliced(v, off, a), off + |a|, b) == Spliced(v, off, a + b)
  {
  }

  /** What a write does to the layers: only the head changes, and in the head only the touched
      sectors, all of which it then holds. */
  ghost predicate HeadOnly(files: seq<Layer>, files': seq<Layer>, off: nat, len: nat) {
    && 2 <= |files'| == |files|
    && files' == files[|files| - 1 := files'[|files| - 1]]
    && var h, h' := files[|files| - 1], files'[|files| - 1];
       && h'.size == h.size
       && h'.data.Keys == h.data.Keys + Touched(off, len)
       && forall s | s in h.data && !Touches(off, len, s) :: h'.data[s] == h.data[s]
  }

  lemma HeadOnlyTwice(f0: seq<Layer>, f1: seq<Layer>, f2: seq<Layer>, off: nat, a: nat, b: nat)
    requires HeadOnly(f0, f1, off, a) && HeadOnly(f1, f2, off + a, b)
    ensures HeadOnly(f0, f2, off, a + b)
    ensures Touched(off, a + b) == Touched(off, a) + Touched(off + a, b)
  {
    forall s: nat ensures Touches(off, a + b, s) <==> Touches(off, a, s) || Touches(off + a, b, s) {
    }
  }

  /** The sectors of a buffer; an aligned one covers each of them entirely. */
  function ToChunks(off: nat, buf: seq<byte>): map<nat, Sector> {
    map s | s in Touched(off, |buf|) :: Splice(Zeros(), s, off, buf)
  }

  /** An aligned write to the head with its sectors marked splices the shown volume. */
  lemma ChunksSplice(loc: seq<nat>, files: seq<Layer>, loc': seq<nat>, files': seq<Layer>,
                     off: nat, buf: seq<byte>, size: nat)
    requires 2 <= |files| && InRange(loc, files) && InRange(loc', files') && |loc| == |loc'|
    requires off % 4096 == 0 && |buf| % 4096 == 0 && off + |buf| <= size == |loc| * 4096
    requires HeadOnly(files, files', off, |buf|)
    requires forall s | s in Touched(off, |buf|) ::
               files'[|files| - 1].data[s] == Splice(Zeros(), s, off, buf)
    requires forall s: nat | s < |loc| :: loc'[s] == if s in Touched(off, |buf|) then |files| - 1 else loc[s]
    ensures ShownImage(loc', files', size) == Spliced(ShownImage(loc, files, size), off, buf)
  {
    var v := Spliced(ShownImage(loc, files, size), off, buf);
    forall pos: nat | pos < size ensures Shown(loc', files', pos) == v[pos] {
      if pos / 4096 in Touched(off, |buf|) {
        ChunkByte(off, buf, pos);
      } else {
        SameSearch(files, files', pos / 4096);
      }
    }
  }

  lemma ChunkByte(off: nat, buf: seq<byte>, pos: nat)
    requires off % 4096 == 0 && |buf| % 4096 == 0 && pos / 4096 in Touched(off, |buf|)
    ensures off <= pos < off + |buf|
    ensures Splice(Zeros(), pos / 4096, off, buf)[pos % 4096] == buf[pos - off]
  {
    var o, n, s := off / 4096, |buf| / 4096, pos / 4096;
    assert off == o * 4096 && |buf| == n * 4096 && pos == s * 4096 + pos % 4096;
    assert o <= s < o + n;
  }

  /** The search for a sector depends only on which layers hold it. */
  lemma SameSearch(files: seq<Layer>, files': seq<Layer>, s: nat)
    requires 2 <= |files| == |files'|
    requires forall i | 1 <= i < |files| :: s in files[i].data <==> s in files'[i].data
    ensures Search(files', s) == Search(files, s)
  {
    SearchFinds(files, s, Search(files, s));
    SearchFinds(files', s, Search(files, s));
  }

  /** The write's cache update keeps the cache exact and clears the written sectors' holes. */
  lemma MarkKeepsCache(loc: seq<nat>, files: seq<Layer>, loc': seq<nat>, files': seq<Layer>, holes: set<nat>, off: nat,
                       len: nat)
    requires 2 <= |files| && CacheOk(loc, files, holes) && |loc| == |loc'|
    requires HeadOnly(files, files', off, len)
    requires forall s: nat | s < |loc| :: loc'[s] == if s in Touched(off, len) then |files| - 1 else loc[s]
    ensures CacheOk(loc', files', holes - Touched(off, len))
  {
    forall s: nat | s < |loc|
      ensures loc'[s] < |files'| && (loc'[s] == 0 || s in holes - Touched(off, len) || loc'[s] == Search(files', s))
    {
      if s in Touched(off, len) {
        SearchFinds(files', s, |files| - 1);
      } else {
        SameSearch(files, files', s);
      }
    }
  }

  /** The files after the head file's aligned write. */
  function StoreChunks(files: seq<Layer>, off: nat, buf: seq<byte>): seq<Layer>
    requires 2 <= |files| && off % 4096 == 0 && |buf| % 4096 == 0
  {
    var h := files[|files| - 1];
    files[|files| - 1 := Layer(h.size, h.data + ToChunks(off, buf))]
  }

  /** An aligned write: exact effect on the layers, on the shown volume and on the cache. */
  lemma AlignedWrite(loc: seq<nat>, files: seq<Layer>, loc': seq<nat>, holes: set<nat>, off: nat, buf: seq<byte>,
                     size: nat)
    requires 2 <= |files| && CacheOk(loc, files, holes) && |loc| == |loc'|
    requires off % 4096 == 0 && |buf| % 4096 == 0 && off + |buf| <= size == |loc| * 4096
    requires size <= files[|files| - 1].size && ValidLayer(files[|files| - 1])
    requires forall s: nat | s < |loc| ::
               loc'[s] == if off / 4096 <= s < off / 4096 + |buf| / 4096 then |files| - 1 else loc[s]
    ensures var files' := StoreChunks(files, off, buf);
            && HeadOnly(files, files', off, |buf|)
            && CacheOk(loc', files', holes - Touched(off, |buf|))
            && ValidLayer(files'[|files| - 1])
            && ShownImage(loc', files', size) == Spliced(ShownImage(loc, files, size), off, buf)
  {
    var files' := StoreChunks(files, off, buf);
    forall s: nat ensures s in Touched(off, |buf|) <==> off / 4096 <= s < off / 4096 + |buf| / 4096 {
    }
    MarkKeepsCache(loc, files, loc', files', holes, off, |buf|);
    ChunksSplice(loc, files, loc', files', off, buf, size);
  }

  /** The whole effect of a write: the volume is spliced, only touched head sectors change, and they
      are no longer unmapped. */
  ghost predicate Wrote(files: seq<Layer>, files': seq<Layer>, v: seq<byte>, v': seq<byte>,
                        holes: set<nat>, holes': set<nat>, off: nat, buf: seq<byte>)
    requires off + |buf| <= |v|
  {
    && HeadOnly(files, files', off, |buf|)
    && v' == Spliced(v, off, buf)
    && holes' == holes - Touched(off, |buf|)
  }

  /** The sectors of an aligned range. */
  lemma AlignedSectors(off: nat, len: nat)
    requires off % 4096 == 0 && len % 4096 == 0
    ensures forall s: nat :: s in Touched(off, len) <==> off / 4096 <= s < off / 4096 + len / 4096
  {
  }

  lemma WroteIf(files: seq<Layer>, files': seq<Layer>, v: seq<byte>, v': seq<byte>,
                holes: set<nat>, holes': set<nat>, off: nat, buf: seq<byte>)
    requires off + |buf| <= |v| && HeadOnly(files, files', off, |buf|) && v' == Spliced(v, off, buf)
    requires holes' == holes - Touched(off, |buf|)
    ensures Wrote(files, files', v, v', holes, holes', off, buf)
  {
  }

  lemma WroteNothing(files: seq<Layer>, v: seq<byte>, holes: set<nat>, off: nat)
    requires off <= |v| && 2 <= |files|
    ensures Wrote(files, files, v, v, holes, holes, off, [])
  {
  }

  lemma WroteTwice(f0: seq<Layer>, f1: seq<Layer>, f2: seq<Layer>, v0: seq<byte>, v1: seq<byte>, v2: seq<byte>,
                   h0: set<nat>, h1: set<nat>, h2: set<nat>, off: nat, a: seq<byte>, b: seq<byte>)
    requires off + |a| + |b| <= |v0| == |v1|
    requires Wrote(f0, f1, v0, v1, h0, h1, off, a)
    requires Wrote(f1, f2, v1, v2, h1, h2, off + |a|, b)
    ensures Wrote(f0, f2, v0, v2, h0, h2, off, a + b)
  {
    HeadOnlyTwice(f0, f1, f2, off, |a|, |b|);
    SplicedTwice(v0, off, a, b);
  }

  /** Writing back a sector with `buf` laid over what it showed splices only `buf`. */
  lemma WroteSector(f: seq<Layer>, f': seq<Layer>, v: seq<byte>, v': seq<byte>, h: set<nat>, h': set<nat>,
                    off: nat, buf: seq<byte>, whole: seq<byte>)
    requires 0 < |buf| && off % 4096 + |buf| <= 4096 == |whole| && off - off % 4096 + 4096 <= |v|
    requires var lo := off - off % 4096;
             whole == v[lo..off] + buf + v[off + |buf|..lo + 4096]
    requires Wrote(f, f', v, v', h, h', off - off % 4096, whole)
    ensures Wrote(f, f', v, v', h, h', off, buf)
  {
    var s := off / 4096;
    var lo := off - off % 4096;
    assert forall t: nat :: Touches(off, |buf|, t) <==> t == s;
    assert forall t: nat :: Touches(lo, 4096, t) <==> t == s;
    assert Touched(lo, 4096) == Touched(off, |buf|);
  }

  lemma Aligned(off: nat, len: nat)
    requires off % 4096 == 0 && (len + off) % 4096 == 0
    ensures len % 4096 == 0
  {
  }

  /** Where an unaligned request of more than the first partial sector is cut. */
  lemma Cuts(off: nat, len: nat)
    requires 4096 - off % 4096 < len
    ensures var startCut, endOffset := 4096 - off % 4096, (len + off) % 4096;
            && startCut <= len - endOffset
            && (off + startCut) % 4096 == 0 && (len - endOffset - startCut) % 4096 == 0
            && (off + len - endOffset) % 4096 == 0
  {
  }

  /** Where the last partial sector of a request that spans more than its first sector starts. */
  function TailStart(off: nat, len: nat): nat {
    if 4096 - off % 4096 < len then off + len - (off + len) % 4096 else off + len
  }

  /** What a read yields at `pos`.  The last partial sector is read into the scratch buffer of the
      first one, which is not cleared: where that sector's layer ends early the bytes of the first
      sector (at `base`) show through. */
  ghost function ReadByte(location: seq<nat>, files: seq<Layer>, base: nat, tail: nat, pos: nat): byte
    requires 2 <= |files| && InRange(location, files)
  {
    if pos >= tail && !Covered(location, files, pos)
    then Shown(location, files, base + (pos - tail))
    else Shown(location, files, pos)
  }

  lemma SameShown(a: seq<nat>, b: seq<nat>, files: seq<Layer>, size: nat)
    requires 2 <= |files| && InRange(a, files) && InRange(b, files) && SameTargets(a, b, files)
    ensures forall pos: nat :: Shown(a, files, pos) == Shown(b, files, pos)
    ensures ShownImage(a, files, size) == ShownImage(b, files, size)
  {
    forall pos: nat ensures Shown(a, files, pos) == Shown(b, files, pos) {
      assert pos / 4096 < |a| ==> Target(a, files, pos / 4096) == Target(b, files, pos / 4096);
    }
  }

  lemma SameTarget(a: seq<nat>, b: seq<nat>, files: seq<Layer>, s: nat)
    requires 2 <= |files| && SameTargets(a, b, files)
    ensures Target(a, files, s) == Target(b, files, s)
  {
  }

  lemma SameTargetsTrans(a: seq<nat>, b: seq<nat>, c: seq<nat>, files: seq<Layer>)
    requires 2 <= |files| && SameTargets(a, b, files) && SameTargets(b, c, files)
    ensures SameTargets(a, c, files)
  {
    hide Target;
  }

  lemma SliceOfSlice(v: seq<byte>, base: nat, len: nat, from: nat, cut: nat)
    requires base + len <= |v| && from + cut <= len
    ensures v[base..base + len][from..from + cut] == v[base + from..base + from + cut]
  {
    var a, b := v[base..base + len][from..from + cut], v[base + from..base + from + cut];
    assert |a| == |b| && forall k | 0 <= k < cut :: a[k] == b[k];
  }

  lemma SliceConcat(v: seq<byte>, a: nat, b: nat, c: nat)
    requires a <= b <= c <= |v|
    ensures v[a..b] + v[b..c] == v[a..c]
  {
  }

  /** A read of `len` more bytes extends the part of the buffer that shows the volume. */
  lemma MiddleRead(v: seq<byte>, was: seq<byte>, now: seq<byte>, off: nat, cut: nat, len: nat)
    requires off + cut + len <= |v| && cut + len <= |was| && was[..cut] == v[off..off + cut]
    requires now == was[..cut] + v[off + cut..off + cut + len] + was[cut + len..]
    ensures now[..cut + len] == v[off..off + cut + len]
  {
    SliceConcat(v, off, off + cut, off + cut + len);
  }

  lemma SplitAfter(x: seq<byte>, y: seq<byte>, whole: seq<byte>, n: nat)
    requires whole == x + y && n == |x|
    ensures whole[..n] == x && (forall k | n <= k < |whole| :: whole[k] == y[k - n])
  {
  }

  /** The sector of a position inside the volume lies inside it. */
  lemma InVolume(off: nat, len: nat, size: nat)
    requires off + len <= size && 0 < len && size % 4096 == 0
    ensures (off - off % 4096) % 4096 == 0 && off - off % 4096 + 4096 <= size
  {
  }

  lemma LastInVolume(off: nat, len: nat, size: nat)
    requires off + len <= size && size % 4096 == 0 && 4096 - off % 4096 < len
    ensures var tail := TailStart(off, len);
            && tail == off + len - (len + off) % 4096 && tail % 4096 == 0 && off <= tail
            && ((len + off) % 4096 > 0 ==> tail + 4096 <= size)
  {
  }

  lemma SameRead(a: seq<nat>, b: seq<nat>, files: seq<Layer>, now: seq<byte>, was: seq<byte>, lo: nat, len: nat,
                 offset: nat)
    requires 2 <= |files| && InRange(a, files) && InRange(b, files) && SameTargets(a, b, files)
    requires ReadInto(now, was, b, files, lo, len, offset)
    ensures ReadInto(now, was, a, files, lo, len, offset)
  {
    SameShown(a, b, files, 0);
    forall pos: nat ensures Covered(a, files, pos) == Covered(b, files, pos) {
      assert pos / 4096 < |a| ==> Target(a, files, pos / 4096) == Target(b, files, pos / 4096);
    }
  }

  /** A whole read: every byte is what `ReadByte` says. */
  ghost predicate ReadResult(now: seq<byte>, locs: seq<nat>, files: seq<Layer>, off: nat)
    requires 2 <= |files| && InRange(locs, files)
  {
    forall k | 0 <= k < |now| :: now[k] == ReadByte(locs, files, off - off % 4096, TailStart(off, |now|), off + k)
  }

  /** A read that ends with a sector, or inside its first one, is a plain slice of the volume. */
  lemma ExactResult(now: seq<byte>, locs: seq<nat>, files: seq<Layer>, off: nat, size: nat)
    requires 2 <= |files| && InRange(locs, files) && off + |now| <= size
    requires (off + |now|) % 4096 == 0 || off % 4096 + |now| <= 4096
    requires now == ShownImage(locs, files, size)[off..off + |now|]
    ensures ReadResult(now, locs, files, off)
  {
    hide Shown, Covered;
    var v := ShownImage(locs, files, size);
    forall k | 0 <= k < |now| ensures now[k] == v[off + k] {
    }
    assert TailStart(off, |now|) == off + |now|;
  }

  lemma ExactWhole(now: seq<byte>, n: nat, locs: seq<nat>, files: seq<Layer>, off: nat, size: nat)
    requires 2 <= |files| && InRange(locs, files) && n == |now| && off + n <= size && (n + off) % 4096 == 0
    requires now[..n] == ShownImage(locs, files, size)[off..off + n]
    ensures ReadResult(now, locs, files, off)
  {
    hide ShownImage, ReadResult;
    assert now[..n] == now;
    ExactResult(now, locs, files, off, size);
  }

  /** The sector at `tail` read over the scratch buffer: bytes beyond its layer are left alone. */
  ghost predicate TailRead(now: seq<byte>, was: seq<byte>, locs: seq<nat>, files: seq<Layer>, tail: nat)
    requires 2 <= |files| && InRange(locs, files)
  {
    |now| == |was| && forall j | 0 <= j < |now| ::
      now[j] == if Covered(locs, files, tail + j) then Shown(locs, files, tail + j) else was[j]
  }

  lemma ReadIsTail(now: seq<byte>, was: seq<byte>, locs: seq<nat>, files: seq<Layer>, tail: nat)
    requires 2 <= |files| && InRange(locs, files) && ReadInto(now, was, locs, files, 0, |was|, tail)
    ensures TailRead(now, was, locs, files, tail)
  {
    hide Covered, Shown;
    forall j | 0 <= j < |now|
      ensures now[j] == if Covered(locs, files, tail + j) then Shown(locs, files, tail + j) else was[j]
    {
      assert tail + j - 0 == tail + j;
    }
  }

  /** The bytes of the last sector of a read, taken from the scratch buffer. */
  lemma TailResult(locs: seq<nat>, files: seq<Layer>, size: nat, off: nat, mid: seq<byte>, now: seq<byte>,
                   first: seq<byte>, scratch: seq<byte>)
    requires 2 <= |files| && InRange(locs, files) && off + |now| <= size
    requires |first| == |scratch| == 4096 && |mid| == |now| && 4096 - off % 4096 < |now|
    requires var base := off - off % 4096;
             base + 4096 <= size && first == ShownImage(locs, files, size)[base..base + 4096]
    requires var tail := TailStart(off, |now|);
             && tail + 4096 >= off + |now| && mid[..tail - off] == ShownImage(locs, files, size)[off..tail]
             && now == mid[..tail - off] + scratch[..off + |now| - tail]
             && TailRead(scratch, first, locs, files, tail)
    ensures ReadResult(now, locs, files, off)
  {
    hide Covered, Shown;
    var v, base, tail := ShownImage(locs, files, size), off - off % 4096, TailStart(off, |now|);
    forall k | 0 <= k < |now| ensures now[k] == ReadByte(locs, files, base, tail, off + k) {
      if k >= tail - off {
        var j := k - (tail - off);
        assert now[k] == scratch[j] && tail + j == off + k;
        assert first[j] == v[base + j] == Shown(locs, files, base + j);
      } else {
        assert now[k] == v[off..tail][k];
      }
    }
  }

  /** A read of a whole range is exact if and only if no byte of its last sector that lies beyond that
      sector's layer is covered by a nonzero byte of the first sector. */
  lemma ReadExactIff(locs: seq<nat>, files: seq<Layer>, off: nat, len: nat)
    requires 2 <= |files| && InRange(locs, files)
    requires forall i | 1 <= i < |files| :: ValidLayer(files[i])
    ensures var base, tail := off - off % 4096, TailStart(off, len);
            (forall pos: nat | off <= pos < off + len ::
               ReadByte(locs, files, base, tail, pos) == Shown(locs, files, pos))
            <==>
            (forall pos: nat | tail <= pos < off + len ::
               Covered(locs, files, pos) || Shown(locs, files, base + (pos - tail)) == 0)
  {
    hide Shown, Covered;
    var base, tail := off - off % 4096, TailStart(off, len);
    assert off <= tail;
    forall pos: nat | tail <= pos < off + len
      ensures ReadByte(locs, files, base, tail, pos) == Shown(locs, files, pos)
         <==> Covered(locs, files, pos) || Shown(locs, files, base + (pos - tail)) == 0
    {
      if !Covered(locs, files, pos) {
        UncoveredIsZero(locs, files, pos);
      }
    }
  }

  /** After an expansion the exactness can fail: a base file of one sector full of ones, an empty head
      of two sectors, and a read of bytes 1 to 4096.  Its last byte lies beyond the base file and must
      read as zero, but the read yields the first byte of the volume. */
  lemma StaleTail(ones: Sector)
    requires forall k | 0 <= k < 4096 :: ones[k] == 1
    ensures var files := [Layer(0, map[]), Layer(4096, map[0 := ones]), Layer(8192, map[])];
            && ValidLayer(files[1]) && ValidLayer(files[2])
            && Shown([0, 0], files, 4096) == 0
            && ReadByte([0, 0], files, 0, TailStart(1, 4096), 4096) == 1
  {
    var files := [Layer(0, map[]), Layer(4096, map[0 := ones]), Layer(8192, map[])];
    SearchFinds(files, 0, 1);
    SearchFinds(files, 1, 1);
    assert TailStart(1, 4096) == 4096;
  }

  /** What a failed write may leave of the head: some touched sectors are stored, the others are not. */
  ghost predicate Torn(h: Layer, h': Layer, off: nat, len: nat) {
    && ValidLayer(h') && h'.size == h.size
    && h.data.Keys <= h'.data.Keys <= h.data.Keys + Touched(off, len)
    && forall s | s in h.data && !Touches(off, len, s) :: h'.data[s] == h.data[s]
  }

  /** The head after a failed write that stored the touched ones among the sectors `stored`. */
  function TornHead(h: Layer, off: nat, len: nat, stored: map<nat, Sector>): Layer {
    Layer(h.size, h.data + map s | s in stored && s in Touched(off, len) :: stored[s])
  }

  lemma TornHeadIsTorn(h: Layer, off: nat, len: nat, stored: map<nat, Sector>, size: nat)
    requires ValidLayer(h) && off + len <= size <= h.size && size % 4096 == 0
    ensures Torn(h, TornHead(h, off, len, stored), off, len)
  {
    forall s | s in Touched(off, len) ensures s * 4096 + 4096 <= size {
    }
  }

  /** The whole effect of a failed write of the sectors touched by a range: the head is torn, no byte of another sector
      changes, the touched sectors read as what the head holds, and those it does not hold are no longer known. */
  ghost predicate Failing(files: seq<Layer>, files': seq<Layer>, v: seq<byte>, v': seq<byte>,
                          holes: set<nat>, holes': set<nat>, off: nat, len: nat, stored: map<nat, Sector>) {
    && 2 <= |files| && |v'| == |v|
    && files' == files[|files| - 1 := TornHead(files[|files| - 1], off, len, stored)]
    && (forall pos: nat | pos < |v| ::
          v'[pos] == if Touches(off, len, pos / 4096) then LayerByte(files'[|files| - 1], pos) else v[pos])
    && holes' == holes - Touched(off, len) + (Touched(off, len) - files'[|files| - 1].data.Keys)
  }

  /** What any write does to the layers, whether it succeeds or fails: only the head changes, it loses nothing, and it
      changes only in the touched sectors. */
  ghost predicate HeadWithin(files: seq<Layer>, files': seq<Layer>, off: nat, len: nat) {
    && 2 <= |files'| == |files|
    && files' == files[|files| - 1 := files'[|files| - 1]]
    && var h, h' := files[|files| - 1], files'[|files| - 1];
       && h'.size == h.size && h.data.Keys <= h'.data.Keys <= h.data.Keys + Touched(off, len)
       && forall s | s in h.data && !Touches(off, len, s) :: h'.data[s] == h.data[s]
  }

  lemma WroteIsWithin(files: seq<Layer>, files': seq<Layer>, v: seq<byte>, v': seq<byte>, h: set<nat>, h': set<nat>,
                      off: nat, buf: seq<byte>)
    requires off + |buf| <= |v| && Wrote(files, files', v, v', h, h', off, buf)
    ensures HeadWithin(files, files', off, |buf|)
  {
  }

  lemma FailingIsWithin(files: seq<Layer>, files': seq<Layer>, v: seq<byte>, v': seq<byte>, h: set<nat>, h': set<nat>,
                        off: nat, len: nat, stored: map<nat, Sector>)
    requires Failing(files, files', v, v', h, h', off, len, stored)
    ensures HeadWithin(files, files', off, len)
  {
  }

  /** Two writes in a row stay within their range, and within any longer one. */
  lemma HeadWithinNext(f0: seq<Layer>, f1: seq<Layer>, f2: seq<Layer>, off: nat, a: nat, b: nat, len: nat)
    requires HeadWithin(f0, f1, off, a) && HeadWithin(f1, f2, off + a, b) && a + b <= len
    ensures HeadWithin(f0, f2, off, len)
  {
    forall s: nat ensures Touches(off, a, s) || Touches(off + a, b, s) ==> Touches(off, len, s) {
    }
  }

  lemma HeadWithinMore(f: seq<Layer>, f': seq<Layer>, off: nat, a: nat, len: nat)
    requires HeadWithin(f, f', off, a) && a <= len
    ensures HeadWithin(f, f', off, len)
  {
    forall s: nat ensures Touches(off, a, s) ==> Touches(off, len, s) {
    }
  }

  /** A failing write within one sector is one of the whole sector. */
  lemma FailingSector(f: seq<Layer>, f': seq<Layer>, v: seq<byte>, v': seq<byte>, h: set<nat>, h': set<nat>,
                      off: nat, len: nat, stored: map<nat, Sector>)
    requires 0 < len && off % 4096 + len <= 4096
    requires Failing(f, f', v, v', h, h', off - off % 4096, 4096, stored)
    ensures Failing(f, f', v, v', h, h', off, len, stored)
  {
    var s, lo := off / 4096, off - off % 4096;
    assert forall t: nat :: Touches(off, len, t) <==> t == s;
    assert forall t: nat :: Touches(lo, 4096, t) <==> t == s;
    assert Touched(lo, 4096) == Touched(off, len);
  }

  /** What a write leaves when the part of length `part` after the first `done` bytes fails: these bytes are written,
      and outside the sectors of the failing part nothing else changes. */
  ghost predicate PartlyWritten(v: seq<byte>, v': seq<byte>, off: nat, buf: seq<byte>, done: nat, part: nat)
    requires off + |buf| <= |v| && done + part <= |buf|
  {
    && |v'| == |v|
    && forall pos: nat | pos < |v| && !Touches(off + done, part, pos / 4096) ::
         v'[pos] == Spliced(v, off, buf[..done])[pos]
  }

  lemma FailingPart(v0: seq<byte>, files: seq<Layer>, files': seq<Layer>, v: seq<byte>, v': seq<byte>, h: set<nat>,
                    h': set<nat>, off: nat, buf: seq<byte>, done: nat, part: nat, stored: map<nat, Sector>)
    requires off + |buf| <= |v0| && done + part <= |buf| && v == Spliced(v0, off, buf[..done])
    requires Failing(files, files', v, v', h, h', off + done, part, stored)
    ensures PartlyWritten(v0, v', off, buf, done, part)
  {
    hide Touches;
  }

  /** A write that is done in several parts: neither aligned nor within one sector. */
  predicate IsSplit(off: nat, len: nat) {
    4096 - off % 4096 < len && !(off % 4096 == 0 && (len + off) % 4096 == 0)
  }

  lemma FailingWhole(files: seq<Layer>, files': seq<Layer>, v: seq<byte>, v': seq<byte>, h: set<nat>, h': set<nat>,
                     off: nat, buf: seq<byte>, stored: map<nat, Sector>)
    requires off + |buf| <= |v| && Failing(files, files', v, v', h, h', off, |buf|, stored)
    ensures PartlyWritten(v, v', off, buf, 0, |buf|)
  {
    FirstFails(files, files', v, v', h, h', off, buf, |buf|, stored);
  }

  lemma FirstFails(files: seq<Layer>, files': seq<Layer>, v: seq<byte>, v': seq<byte>, h: set<nat>, h': set<nat>,
                   off: nat, buf: seq<byte>, part: nat, stored: map<nat, Sector>)
    requires off + |buf| <= |v| && part <= |buf| && Failing(files, files', v, v', h, h', off, part, stored)
    ensures PartlyWritten(v, v', off, buf, 0, part)
  {
    assert buf[..0] == [] && v[..off] + [] + v[off..] == v;
    FailingPart(v, files, files', v, v', h, h', off, buf, 0, part, stored);
  }

  lemma WroteSplices(files: seq<Layer>, files': seq<Layer>, v: seq<byte>, v': seq<byte>, h: set<nat>, h': set<nat>,
                     off: nat, buf: seq<byte>)
    requires off + |buf| <= |v| && Wrote(files, files', v, v', h, h', off, buf)
    ensures v' == Spliced(v, off, buf)
  {
  }

  /** The table after a write, successful or not. */
  ghost predicate MarkedFor(loc': seq<nat>, loc: seq<nat>, touched: set<nat>, index: nat) {
    |loc'| == |loc| && forall s: nat | s < |loc| :: loc'[s] == if s in touched then index else loc[s]
  }

  /** A failed write is marked in the table like a successful one.  The table is exact afterwards if and only
      if the touched sectors are in the head, or there is no layer under the head to find. */
  lemma FailedWriteCache(loc: seq<nat>, files: seq<Layer>, loc': seq<nat>, h: Layer, off: nat, len: nat)
    requires 2 <= |files| && CacheOk(loc, files, {}) && Torn(files[|files| - 1], h, off, len)
    requires MarkedFor(loc', loc, Touched(off, len), |files| - 1)
    requires forall s | s in Touched(off, len) :: s < |loc|
    ensures CacheOk(loc', files[|files| - 1 := h], {}) <==> |files| == 2 || Touched(off, len) <= h.data.Keys
  {
    var n, fs, touched := |files| - 1, files[|files| - 1 := h], Touched(off, len);
    forall s: nat | s < |loc|
      ensures (loc'[s] == 0 || loc'[s] == Search(fs, s)) <==> (s in touched ==> n == 1 || s in h.data)
    {
      SearchFinds(fs, s, n);
      if s !in touched {
        SameSearch(files, fs, s);
      }
    }
    hide Search, Torn;
    if CacheOk(loc', fs, {}) && n != 1 {
      forall s | s in touched ensures s in h.data {
        assert loc'[s] == n;
      }
    }
  }

  ghost predicate ExactWhateverStored(loc: seq<nat>, files: seq<Layer>, head: Layer, off: nat, len: nat)
    requires 2 <= |files|
  {
    forall h | Torn(head, h, off, len) :: CacheOk(loc, files[|files| - 1 := h], {})
  }

  /** Whatever a failed write stores, the table stays exact if and only if the head held all the touched
      sectors before, or it is the only layer. */
  lemma FailedWriteSafeIff(loc: seq<nat>, files: seq<Layer>, loc': seq<nat>, off: nat, len: nat)
    requires 2 <= |files| && CacheOk(loc, files, {}) && ValidLayer(files[|files| - 1])
    requires MarkedFor(loc', loc, Touched(off, len), |files| - 1)
    requires forall s | s in Touched(off, len) :: s < |loc|
    ensures ExactWhateverStored(loc', files, files[|files| - 1], off, len)
       <==> |files| == 2 || Touched(off, len) <= files[|files| - 1].data.Keys
  {
    var head := files[|files| - 1];
    assert Torn(head, head, off, len);
    hide CacheOk, Touched;
    forall h | Torn(head, h, off, len)
      ensures CacheOk(loc', files[|files| - 1 := h], {}) <==> |files| == 2 || Touched(off, len) <= h.data.Keys
      ensures head.data.Keys <= h.data.Keys
    {
      FailedWriteCache(loc, files, loc', h, off, len);
    }
  }

  /** A failed write can lose data: over a base sector of ones, a write that stores nothing leaves the table
      pointing at the empty head, and the volume reads as zero. */
  lemma FailedWriteLoses(ones: Sector)
    requires forall k | 0 <= k < 4096 :: ones[k] == 1
    ensures var files := [Layer(0, map[]), Layer(4096, map[0 := ones]), Layer(4096, map[])];
            && CacheOk([0], files, {}) && Shown([0], files, 0) == 1
            && Torn(files[2], files[2], 0, 4096) && MarkedFor([2], [0], Touched(0, 4096), 2)
            && Shown([2], files, 0) == 0 && !CacheOk([2], files, {})
  {
    var files := [Layer(0, map[]), Layer(4096, map[0 := ones]), Layer(4096, map[])];
    SearchFinds(files, 0, 1);
    assert 0 in Touched(0, 4096);
  }

  /** Outside the touched sectors a failed write changes no byte, and the table stays exact for all sectors
      that the head holds afterwards. */
  lemma FailedWriteKeeps(loc: seq<nat>, files: seq<Layer>, loc': seq<nat>, h: Layer, holes: set<nat>, off: nat,
                         len: nat)
    requires 2 <= |files| && CacheOk(loc, files, holes) && Torn(files[|files| - 1], h, off, len)
    requires MarkedFor(loc', loc, Touched(off, len), |files| - 1)
    ensures CacheOk(loc', files[|files| - 1 := h], holes - Touched(off, len) + (Touched(off, len) - h.data.Keys))
    ensures forall pos: nat | pos / 4096 < |loc| ::
              Shown(loc', files[|files| - 1 := h], pos)
              == if Touches(off, len, pos / 4096) then LayerByte(h, pos) else Shown(loc, files, pos)
  {
    var fs, touched := files[|files| - 1 := h], Touched(off, len);
    forall s: nat | s < |loc|
      ensures s in touched && s in h.data ==> Search(fs, s) == |files| - 1
      ensures s !in touched ==> Search(fs, s) == Search(files, s)
    {
      if s in touched {
        SearchFinds(fs, s, |files| - 1);
      } else {
        SameSearch(files, fs, s);
      }
    }
    hide Search;
    forall pos: nat | pos / 4096 < |loc|
      ensures Shown(loc', fs, pos)
              == if Touches(off, len, pos / 4096) then LayerByte(h, pos) else Shown(loc, files, pos)
    {
      assert pos / 4096 in touched <==> Touches(off, len, pos / 4096);
    }
  }

  /** No layer holds data beyond the volume. */
  ghost predicate DataWithin(files: seq<Layer>, size: nat) {
    forall i | 1 <= i < |files| :: LayerWithin(files[i], size)
  }

  ghost predicate LayerWithin(l: Layer, size: nat) {
    forall s | s in l.data :: s * 4096 < size
  }

  /** Beyond the data of all layers the image is zero. */
  lemma {:induction false} ZeroBeyond(layers: seq<Layer>, size: nat, s: nat)
    requires (forall l | l in layers :: LayerWithin(l, size)) && s * 4096 >= size
    ensures SectorAt(layers, s) == Zeros()
  {
    if layers != [] {
      assert LayerWithin(layers[|layers| - 1], size);
      ZeroBeyond(layers[..|layers| - 1], size, s);
    }
  }

  /** The bytes that an expansion adds: the table knows nothing of them, so they are the image's. */
  lemma AddedBytes(loc: seq<nat>, files: seq<Layer>, size: nat, pos: nat)
    requires 2 <= |files| && InRange(loc, files) && pos / 4096 < |loc| && loc[pos / 4096] == 0
    ensures Shown(loc, files, pos) == ByteAt(files[1..], pos)
    ensures DataWithin(files, size) && size % 4096 == 0 && pos >= size ==> Shown(loc, files, pos) == 0
  {
    SearchShowsImage(files, pos / 4096);
    if DataWithin(files, size) && size % 4096 == 0 && pos >= size {
      ZeroBeyond(files[1..], size, pos / 4096);
    }
  }

  /** An empty head on top changes no byte inside the sector table. */
  lemma EmptyHeadShows(loc: seq<nat>, files: seq<Layer>, head: Layer, size: nat)
    requires 2 <= |files| && InRange(loc, files) && head.data == map[] && size == |loc| * 4096
    requires forall s: nat :: Search(files + [head], s) == Search(files, s)
    ensures ShownImage(loc, files + [head], size) == ShownImage(loc, files, size)
  {
    forall pos: nat | pos < size ensures Shown(loc, files + [head], pos) == Shown(loc, files, pos) {
      assert pos / 4096 < |loc|;
    }
  }

  /** With nothing unmapped the device presents the overlay of its layers. */
  lemma VolumeIsImage(loc: seq<nat>, files: seq<Layer>, size: nat)
    requires 2 <= |files| && CacheOk(loc, files, {}) && size == |loc| * 4096
    ensures ShownImage(loc, files, size) == Image(files[1..], size)
  {
    forall pos: nat | pos < size ensures Shown(loc, files, pos) == ByteAt(files[1..], pos) {
      ShownIsImage(loc, files, {}, pos);
    }
  }

  /** Subtraction of unsigned 32-bit integers. */
  function Minus32(a: nat, b: nat): nat {
    (a - b) % 0x1_0000_0000
  }

  /** The offset and length an unmap request of at least one sector is trimmed to. */
  function TrimOffset(length: nat, offset: nat): nat {
    if offset % 4096 != 0 then offset + 4096 - offset % 4096 else offset
  }

  function TrimLength(length: nat, offset: nat): nat {
    var l := if offset % 4096 != 0 then Minus32(length, 4096 - offset % 4096) else length;
    if (length + offset) % 4096 != 0 then Minus32(l, (length + offset) % 4096) else l
  }

  /** The trimming never wraps around, so the length guard behind it cannot fire, and it yields the
      largest sector-aligned range inside the request. */
  lemma TrimIsLargest(length: nat, offset: nat)
    requires 4096 <= length < 0x1_0000_0000
    ensures var o, l := TrimOffset(length, offset), TrimLength(length, offset);
            && l <= length
            && o % 4096 == 0 && l % 4096 == 0
            && offset <= o && o + l <= offset + length
            && forall s: nat | offset <= s * 4096 && s * 4096 + 4096 <= offset + length ::
                 o <= s * 4096 && s * 4096 + 4096 <= o + l
  {
    var q, a, last, b := offset / 4096, offset % 4096, (length + offset) / 4096, (length + offset) % 4096;
    var first := if a != 0 then q + 1 else q;
    assert offset == q * 4096 + a && length + offset == last * 4096 + b;
    var l := if a != 0 then length - (4096 - a) else length;
    assert first <= last && l == last * 4096 + b - first * 4096;
    if a != 0 { Minus32Exact(length, 4096 - a); }
    if b != 0 { Minus32Exact(l, b); }
    hide Minus32;
    assert TrimOffset(length, offset) == first * 4096;
    assert TrimLength(length, offset) == (last - first) * 4096;
  }

  lemma Minus32Exact(a: nat, b: nat)
    requires b <= a < 0x1_0000_0000
    ensures Minus32(a, b) == a - b
  {
  }

  /** Punching an aligned range out of a file. */
  function Punch(l: Layer, off: nat, len: nat): Layer {
    Layer(l.size, l.data - Touched(off, len))
  }

  /** Every byte outside a range reads as before. */
  ghost predicate SameOutside(loc: seq<nat>, files: seq<Layer>, files': seq<Layer>, off: nat, len: nat)
    requires 2 <= |files| == |files'| && InRange(loc, files)
  {
    forall pos: nat | !(off <= pos < off + len) :: Shown(loc, files', pos) == Shown(loc, files, pos)
  }

  /** Outside the punched range every read is as before. */
  lemma PunchOutside(loc: seq<nat>, files: seq<Layer>, files': seq<Layer>, off: nat, len: nat, pos: nat)
    requires 2 <= |files| == |files'| && InRange(loc, files)
    requires off % 4096 == 0 && len % 4096 == 0 && !(off <= pos < off + len)
    requires forall i | 0 <= i < |files| :: files'[i] == files[i] || files'[i] == Punch(files[i], off, len)
    ensures Shown(loc, files', pos) == Shown(loc, files, pos)
    ensures pos / 4096 !in Touched(off, len)
  {
    var s, o, n := pos / 4096, off / 4096, len / 4096;
    assert off == o * 4096 && len == n * 4096 && pos == s * 4096 + pos % 4096;
    assert s !in Touched(off, len);
    SameSearch(files, files', s);
  }

  /** What a read yields inside an unmapped range.  The table is not touched, so that a sector it knows in one of the
      punched layers, those from `lo` on, reads as zero, while an unknown one shows what lies below them. */
  lemma UnmappedReads(loc: seq<nat>, files: seq<Layer>, files': seq<Layer>, lo: nat, off: nat, len: nat, pos: nat)
    requires 2 <= |files| && CacheOk(loc, files, {}) && Punched(files, files', lo, off, len)
    requires pos / 4096 < |loc| && pos / 4096 in Touched(off, len)
    ensures var s := pos / 4096;
            Shown(loc, files', pos) == if loc[s] == 0 || loc[s] < lo then ByteAt(files'[1..], pos) else 0
  {
    var s := pos / 4096;
    if loc[s] == 0 {
      SearchShowsImage(files', s);
    } else if loc[s] < lo {
      SearchFinds(files, s, loc[s]);
      SearchFinds(files', s, loc[s]);
      SearchShowsImage(files', s);
    }
  }

  /** The files after an unmap of the layers from `lo` on. */
  ghost predicate Punched(files: seq<Layer>, files': seq<Layer>, lo: nat, off: nat, len: nat) {
    && |files'| == |files| && 1 <= lo
    && forall i | 0 <= i < |files| :: files'[i] == if lo <= i then Punch(files[i], off, len) else files[i]
  }

  /** Two replicas with equal files, whose tables are exact, read an unmapped byte alike if and only if no punched layer
      held its sector, or both or neither had looked it up, or nothing but zero lies below. */
  lemma UnmappedAgreeIff(a: seq<nat>, b: seq<nat>, files: seq<Layer>, files': seq<Layer>, lo: nat, off: nat, len: nat,
                         pos: nat)
    requires 2 <= |files| && CacheOk(a, files, {}) && CacheOk(b, files, {}) && Punched(files, files', lo, off, len)
    requires |a| == |b| && pos / 4096 < |a| && pos / 4096 in Touched(off, len)
    ensures var s := pos / 4096;
            Shown(a, files', pos) == Shown(b, files', pos) <==>
            Search(files, s) < lo || (a[s] == 0 <==> b[s] == 0) || ByteAt(files'[1..], pos) == 0
  {
    UnmappedReads(a, files, files', lo, off, len, pos);
    UnmappedReads(b, files, files', lo, off, len, pos);
    hide Shown, ByteAt;
  }

  /** Punching only the part of the range inside the file is punching the range. */
  lemma PunchBeyond(layer: Layer, off: nat, len: nat, cut: nat)
    requires ValidLayer(layer) && layer.size % 4096 == 0 && off % 4096 == 0
    requires cut <= len && (off + cut >= layer.size || cut == len)
    ensures Punch(layer, off, cut) == Punch(layer, off, len)
    ensures cut == 0 ==> Punch(layer, off, len) == layer
  {
    forall s | s in layer.data ensures s in Touched(off, cut) <==> s in Touched(off, len) {
      assert s * 4096 + 4096 <= layer.size;
    }
  }

  lemma UnmapKeepsCache(loc: seq<nat>, files: seq<Layer>, files': seq<Layer>, holes: set<nat>, off: nat, len: nat)
    requires 2 <= |files| == |files'| && CacheOk(loc, files, holes)
    requires forall i | 0 <= i < |files| :: files'[i] == files[i] || files'[i] == Punch(files[i], off, len)
    ensures CacheOk(loc, files', holes + Touched(off, len))
  {
    forall s: nat | s < |loc| && s !in Touched(off, len) ensures Search(files', s) == Search(files, s) {
      SameSearch(files, files', s);
    }
  }
}

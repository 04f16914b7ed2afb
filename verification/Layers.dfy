/** Sparse differencing layers and the volume image they overlay to.

    A layer is what the engine sees of one disk file: an apparent size in bytes and the sectors
    that hold data (the ones an extent query reports).  A chain of layers is listed base first,
    so the last layer is the one that is searched first.
 */
module Layers {

  type byte = x: int | 0 <= x < 256

  /** A volume sector is 4096 bytes (VolumeSectorSize). */
  type Sector = s: seq<byte> | |s| == 4096 witness seq(4096, _ => 0)

  /** What an unwritten sector reads as. */
  function Zeros(): (z: Sector)
    ensures forall k | 0 <= k < 4096 :: z[k] == 0
  {
    seq(4096, _ => 0)
  }

  datatype Layer = Layer(size: nat, data: map<nat, Sector>)

  /** Data lies inside the file, and the part of the last sector beyond the file's end is zero. */
  ghost predicate ValidLayer(l: Layer) {
    forall s | s in l.data ::
      s * 4096 < l.size && forall k | 0 <= k < 4096 && s * 4096 + k >= l.size :: l.data[s][k] == 0
  }

  /** The byte a single file yields at `pos`; a hole reads as zero. */
  function LayerByte(l: Layer, pos: nat): byte {
    if pos / 4096 in l.data then l.data[pos / 4096][pos % 4096] else 0
  }

  /** The sector the chain shows: the topmost layer that holds it wins. */
  function SectorAt(layers: seq<Layer>, s: nat): Sector {
    if layers == [] then Zeros()
    else if s in layers[|layers| - 1].data then layers[|layers| - 1].data[s]
    else SectorAt(layers[..|layers| - 1], s)
  }

  function ByteAt(layers: seq<Layer>, pos: nat): byte {
    SectorAt(layers, pos / 4096)[pos % 4096]
  }

  /** Two chains that show the same volume. */
  ghost predicate SameImage(a: seq<Layer>, b: seq<Layer>) {
    forall s: nat :: SectorAt(a, s) == SectorAt(b, s)
  }

  /** The volume as one flat byte sequence. */
  ghost function Image(layers: seq<Layer>, size: nat): (image: seq<byte>)
    ensures |image| == size
    ensures forall i | 0 <= i < size :: image[i] == ByteAt(layers, i)
  {
    seq(size, i requires 0 <= i => ByteAt(layers, i))
  }

  /** Sector `s` of a volume after `buf` has been spliced in at byte `off`. */
  function Splice(was: Sector, s: nat, off: nat, buf: seq<byte>): (r: Sector)
    ensures forall k | 0 <= k < 4096 ::
              r[k] == if off <= s * 4096 + k < off + |buf| then buf[s * 4096 + k - off] else was[k]
  {
    seq(4096, k requires 0 <= k < 4096 =>
      if off <= s * 4096 + k < off + |buf| then buf[s * 4096 + k - off] else was[k])
  }

  /** The sectors a write of `len` bytes at `off` touches. */
  predicate Touches(off: nat, len: nat, s: nat) {
    s * 4096 < off + len && off < s * 4096 + 4096 && 0 < len
  }

  function Touched(off: nat, len: nat): (r: set<nat>)
    ensures forall s: nat :: s in r <==> Touches(off, len, s)
  {
    set s: nat | off / 4096 <= s < (off + len) / 4096 + 1 && Touches(off, len, s)
  }

  /** The sectors a write stores: every touched one whole, with the bytes around the buffer taken
      from the image. */
  function SplicedSectors(layers: seq<Layer>, off: nat, buf: seq<byte>): map<nat, Sector> {
    map s | s in Touched(off, |buf|) :: Splice(SectorAt(layers, s), s, off, buf)
  }

  /** What writing `buf` at `off` makes of the top layer. */
  function WriteLayer(layers: seq<Layer>, off: nat, buf: seq<byte>): Layer
    requires layers != []
  {
    Layer(layers[|layers| - 1].size, layers[|layers| - 1].data + SplicedSectors(layers, off, buf))
  }

  function WriteTop(layers: seq<Layer>, off: nat, buf: seq<byte>): seq<Layer>
    requires layers != []
  {
    layers[|layers| - 1 := WriteLayer(layers, off, buf)]
  }

  lemma {:induction false} SectorAtSnoc(layers: seq<Layer>, top: Layer, s: nat)
    ensures SectorAt(layers + [top], s) == if s in top.data then top.data[s] else SectorAt(layers, s)
  {
    assert (layers + [top])[..|layers|] == layers;
  }

  /** A sector-by-sector splice is a flat splice of the whole volume. */
  lemma {:induction false} WriteSplices(layers: seq<Layer>, off: nat, buf: seq<byte>, s: nat)
    requires layers != []
    ensures SectorAt(WriteTop(layers, off, buf), s) == Splice(SectorAt(layers, s), s, off, buf)
  {
    var below := layers[..|layers| - 1];
    assert WriteTop(layers, off, buf) == below + [WriteLayer(layers, off, buf)];
    SectorAtSnoc(below, WriteLayer(layers, off, buf), s);
    if !Touches(off, |buf|, s) {
      assert Splice(SectorAt(layers, s), s, off, buf) == SectorAt(layers, s);
    }
  }

  lemma {:induction false} FlatSplice(layers: seq<Layer>, off: nat, buf: seq<byte>, size: nat)
    requires layers != [] && off + |buf| <= size
    ensures Image(WriteTop(layers, off, buf), size)
         == Image(layers, size)[..off] + buf + Image(layers, size)[off + |buf|..]
  {
    var a, b := Image(WriteTop(layers, off, buf), size), Image(layers, size);
    var c := b[..off] + buf + b[off + |buf|..];
    forall i | 0 <= i < size ensures a[i] == c[i] {
      FlatByte(layers, off, buf, i);
      assert c[i] == if off <= i < off + |buf| then buf[i - off] else b[i];
    }
  }

  lemma FlatByte(layers: seq<Layer>, off: nat, buf: seq<byte>, i: nat)
    requires layers != []
    ensures ByteAt(WriteTop(layers, off, buf), i) == if off <= i < off + |buf| then buf[i - off] else ByteAt(layers, i)
  {
    hide WriteTop, SectorAt;
    WriteSplices(layers, off, buf, i / 4096);
    assert i == i / 4096 * 4096 + i % 4096;
  }

  /** Lower layers only matter through the image they show. */
  lemma {:induction false} SameImageUnder(a: seq<Layer>, b: seq<Layer>, over: seq<Layer>, s: nat)
    requires SectorAt(a, s) == SectorAt(b, s)
    ensures SectorAt(a + over, s) == SectorAt(b + over, s)
  {
    if over == [] {
      assert a + over == a && b + over == b;
    } else {
      var rest, top := over[..|over| - 1], over[|over| - 1];
      SameImageUnder(a, b, rest, s);
      assert a + over == (a + rest) + [top] && b + over == (b + rest) + [top];
      SectorAtSnoc(a + rest, top, s);
      SectorAtSnoc(b + rest, top, s);
    }
  }

  /** Folding a child into its parent, as the coalesce step of a purge does: the child wins, and the
      file grows to the larger of the two sizes. */
  function Fold(child: Layer, parent: Layer): Layer {
    Layer(if child.size < parent.size then parent.size else child.size, parent.data + child.data)
  }

  /** Pruning drops from the parent the sectors its child shadows. */
  function Prune(parent: Layer, child: Layer): Layer {
    Layer(parent.size, parent.data - child.data.Keys)
  }
}

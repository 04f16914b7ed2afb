/** The framing of messages on a data connection: a fixed little-endian header, then the payload. */
module Wires {

  import opened Layers
  import opened Integers

  const MAGIC_VERSION: nat := 0x1b01

  datatype Message = Message(magic: nat, sequence: nat, kind: nat, offset: int, size: nat, data: seq<byte>)

  /** The fields fit their Go types. */
  predicate Typed(m: Message) {
    && m.magic < U16 && m.sequence < U32 && m.kind < U32
    && MIN_INT64 <= m.offset <= MAX_INT64 && m.size < U32
  }

  datatype Reading = Got(message: Message) | EndOfStream | UnexpectedEnd | WrongVersion(magic: nat)

  // ----- integers -----

  function Pow256(k: nat): (p: nat)
    ensures p > 0
  {
    if k == 0 then 1 else 256 * Pow256(k - 1)
  }

  /** The low `k` bytes of `n`, least significant first. */
  function LittleEndian(n: nat, k: nat): (s: seq<byte>)
    ensures |s| == k
  {
    if k == 0 then [] else [(n % 256) as byte] + LittleEndian(n / 256, k - 1)
  }

  function Value(s: seq<byte>): nat {
    if s == [] then 0 else s[0] as int + 256 * Value(s[1..])
  }

  lemma {:induction false} ValueOfLittleEndian(n: nat, k: nat)
    requires n < Pow256(k)
    ensures Value(LittleEndian(n, k)) == n
  {
    if k > 0 {
      ValueOfLittleEndian(n / 256, k - 1);
      assert LittleEndian(n, k)[1..] == LittleEndian(n / 256, k - 1);
    }
  }

  lemma {:induction false} LittleEndianOfValue(s: seq<byte>)
    ensures Value(s) < Pow256(|s|) && LittleEndian(Value(s), |s|) == s
  {
    if s != [] {
      LittleEndianOfValue(s[1..]);
      assert Value(s) % 256 == s[0] as int && Value(s) / 256 == Value(s[1..]);
    }
  }

  lemma Powers()
    ensures Pow256(2) == U16 && Pow256(4) == U32 && Pow256(8) == U64
  {
    assert Pow256(1) == 256 && Pow256(2) == U16 && Pow256(3) == 0x100_0000 && Pow256(4) == U32;
    assert Pow256(5) == 0x100_0000_0000 && Pow256(6) == 0x1_0000_0000_0000 && Pow256(7) == 0x100_0000_0000_0000;
  }

  /** Conversions between int64 and uint64 keep the bit pattern. */
  function ToUint64(n: int): nat
    requires MIN_INT64 <= n <= MAX_INT64
  {
    if n < 0 then n + U64 else n
  }

  function ToInt64(n: nat): (r: int)
    requires n < U64
    ensures MIN_INT64 <= r <= MAX_INT64 && ToUint64(r) == n
  {
    if n > MAX_INT64 then n - U64 else n
  }

  // ----- frames -----

  const HEADER_SIZE: nat := 26

  /** The header; the payload's length is cut to 32 bits. */
  function Header(m: Message): (h: seq<byte>)
    requires Typed(m)
    ensures |h| == HEADER_SIZE
  {
    LittleEndian(m.magic, 2) + LittleEndian(m.sequence, 4) + LittleEndian(m.kind, 4) +
    LittleEndian(ToUint64(m.offset), 8) + LittleEndian(m.size, 4) + LittleEndian(|m.data| % U32, 4)
  }

  function Encode(m: Message): seq<byte>
    requires Typed(m)
  {
    Header(m) + m.data
  }

  /** The fields at their places in a header, with the length last. */
  function Parse(h: seq<byte>): (r: (Message, nat))
    requires |h| == HEADER_SIZE
    ensures Typed(r.0) && r.0.data == [] && r.1 < U32
  {
    Powers();
    LittleEndianOfValue(h[0..2]); LittleEndianOfValue(h[2..6]); LittleEndianOfValue(h[6..10]);
    LittleEndianOfValue(h[10..18]); LittleEndianOfValue(h[18..22]); LittleEndianOfValue(h[22..26]);
    (Message(Value(h[0..2]), Value(h[2..6]), Value(h[6..10]), ToInt64(Value(h[10..18])), Value(h[18..22]), []),
     Value(h[22..26]))
  }

  lemma {:induction false} LittleEndianAt(n: nat, k: nat, i: nat)
    requires i < k
    ensures LittleEndian(n, k)[i] as int == n / Pow256(i) % 256
  {
    if i > 0 {
      LittleEndianAt(n / 256, k - 1, i - 1);
      DivTwice(n, 256, Pow256(i - 1));
    }
  }

  lemma {:induction false} PowSplit(i: nat, j: nat)
    ensures Pow256(i + j) == Pow256(i) * Pow256(j)
  {
    if i > 0 {
      PowSplit(i - 1, j);
    }
  }

  /** The bytes of a negative number are those of its two's complement. */
  lemma TwosComplement(n: int, i: nat)
    requires MIN_INT64 <= n <= MAX_INT64 && i < 8
    ensures ToUint64(n) / Pow256(i) % 256 == n / Pow256(i) % 256
  {
    Powers();
    PowSplit(i, 8 - i);
    var p, q := Pow256(i), Pow256(7 - i);
    assert Pow256(8 - i) == 256 * q;
    if n < 0 {
      Shifted(n, p, q);
    }
  }

  lemma Shifted(n: int, p: nat, q: nat)
    requires p > 0
    ensures (n + p * (256 * q)) / p % 256 == n / p % 256
  {
    var d, r, k := n / p, n % p, 256 * q;
    Product(d, k, p);
    assert n == d * p + r;
    DivOf(n + p * k, p, d + k, r);
    SameLowByte(d, q);
  }

  lemma Product(d: int, k: nat, p: nat)
    ensures (d + k) * p == d * p + p * k
  {
  }

  lemma SameLowByte(d: int, q: nat)
    ensures (d + 256 * q) % 256 == d % 256
  {
  }

  /** The layout of a frame: which byte of which field stands where. */
  lemma Layout(m: Message)
    requires Typed(m)
    ensures |Encode(m)| == 26 + |m.data| && Encode(m)[26..] == m.data
    ensures forall i: nat | i < 2 :: Encode(m)[i] as int == m.magic / Pow256(i) % 256
    ensures forall i: nat | i < 4 :: Encode(m)[2 + i] as int == m.sequence / Pow256(i) % 256
    ensures forall i: nat | i < 4 :: Encode(m)[6 + i] as int == m.kind / Pow256(i) % 256
    ensures forall i: nat | i < 8 :: Encode(m)[10 + i] as int == m.offset / Pow256(i) % 256
    ensures forall i: nat | i < 4 :: Encode(m)[18 + i] as int == m.size / Pow256(i) % 256
    ensures forall i: nat | i < 4 :: Encode(m)[22 + i] as int == |m.data| % U32 / Pow256(i) % 256
  {
    var a, b, c := LittleEndian(m.magic, 2), LittleEndian(m.sequence, 4), LittleEndian(m.kind, 4);
    var d, e, f := LittleEndian(ToUint64(m.offset), 8), LittleEndian(m.size, 4), LittleEndian(|m.data| % U32, 4);
    Pieces(a, b, c, d, e, f);
    hide LittleEndian, Pow256, ToUint64;
    FieldBytes(m.magic, 2);
    FieldBytes(m.sequence, 4);
    FieldBytes(m.kind, 4);
    FieldBytes(ToUint64(m.offset), 8);
    FieldBytes(m.size, 4);
    FieldBytes(|m.data| % U32, 4);
    forall i: nat | i < 8 ensures Encode(m)[10 + i] as int == m.offset / Pow256(i) % 256 {
      TwosComplement(m.offset, i);
    }
  }

  lemma FieldBytes(n: nat, k: nat)
    ensures forall i: nat | i < k :: LittleEndian(n, k)[i] as int == n / Pow256(i) % 256
  {
    forall i: nat | i < k ensures LittleEndian(n, k)[i] as int == n / Pow256(i) % 256 {
      LittleEndianAt(n, k, i);
    }
  }

  /** Reads one message; the second result is what is left of the stream. */
  function Decode(s: seq<byte>): (r: (Reading, seq<byte>))
  {
    if |s| == 0 then (EndOfStream, [])
    else if |s| < HEADER_SIZE then (UnexpectedEnd, [])
    else
      var (m, length) := Parse(s[..HEADER_SIZE]);
      var rest := s[HEADER_SIZE..];
      if m.magic != MAGIC_VERSION then (WrongVersion(m.magic), rest)
      else if length == 0 then (Got(m), rest)
      else if |rest| == 0 then (EndOfStream, [])
      else if |rest| < length then (UnexpectedEnd, [])
      else (Got(m.(data := rest[..length])), rest[length..])
  }

  /** The pieces of a header lie where the offsets say. */
  lemma Pieces(a: seq<byte>, b: seq<byte>, c: seq<byte>, d: seq<byte>, e: seq<byte>, f: seq<byte>)
    requires |a| == 2 && |b| == |c| == |e| == |f| == 4 && |d| == 8
    ensures var h := a + b + c + d + e + f;
            && h[0..2] == a && h[2..6] == b && h[6..10] == c && h[10..18] == d && h[18..22] == e && h[22..26] == f
  {
    var ab, abc, abcd := a + b, a + b + c, a + b + c + d;
    var abcde := abcd + e;
    assert ab[0..2] == a && ab[2..6] == b;
    assert abc[0..6] == ab && abc[6..10] == c;
    assert abcd[0..10] == abc && abcd[10..18] == d;
    assert abcde[0..18] == abcd && abcde[18..22] == e;
  }

  /** Reading a header gives back the fields that were written. */
  lemma ParseHeader(m: Message)
    requires Typed(m)
    ensures Parse(Header(m)) == (m.(data := []), |m.data| % U32)
  {
    hide Value, LittleEndian;
    Powers();
    Pieces(LittleEndian(m.magic, 2), LittleEndian(m.sequence, 4), LittleEndian(m.kind, 4),
           LittleEndian(ToUint64(m.offset), 8), LittleEndian(m.size, 4), LittleEndian(|m.data| % U32, 4));
    ValueOfLittleEndian(m.magic, 2); ValueOfLittleEndian(m.sequence, 4); ValueOfLittleEndian(m.kind, 4);
    ValueOfLittleEndian(ToUint64(m.offset), 8); ValueOfLittleEndian(m.size, 4); ValueOfLittleEndian(|m.data| % U32, 4);
  }

  /** A header is determined by what is read from it. */
  lemma HeaderOfParse(h: seq<byte>, data: seq<byte>)
    requires |h| == HEADER_SIZE && |data| == Parse(h).1
    ensures Header(Parse(h).0.(data := data)) == h
  {
    hide Value, LittleEndian;
    LittleEndianOfValue(h[0..2]); LittleEndianOfValue(h[2..6]); LittleEndianOfValue(h[6..10]);
    LittleEndianOfValue(h[10..18]); LittleEndianOfValue(h[18..22]); LittleEndianOfValue(h[22..26]);
    assert h == h[0..2] + h[2..6] + h[6..10] + h[10..18] + h[18..22] + h[22..26];
    var m := Parse(h).0.(data := data);
    assert |data| % U32 == |data|;
    assert Header(m) == h[0..2] + h[2..6] + h[6..10] + h[10..18] + h[18..22] + h[22..26];
  }

  /** A written message is read back, with the stream left at the next one, if and only if it carries the
      right version and its payload's length fits 32 bits. */
  lemma RoundTripIff(m: Message, rest: seq<byte>)
    requires Typed(m)
    ensures Decode(Encode(m) + rest) == (Got(m), rest) <==> m.magic == MAGIC_VERSION && |m.data| < U32
  {
    hide Parse, Header;
    var s := Encode(m) + rest;
    ParseHeader(m);
    assert s[..HEADER_SIZE] == Header(m);
    assert s[HEADER_SIZE..] == m.data + rest;
    if |m.data| < U32 {
      assert |m.data| % U32 == |m.data|;
      assert (m.data + rest)[..|m.data|] == m.data && (m.data + rest)[|m.data|..] == rest;
    }
  }

  /** Nothing else reads as a message: the bytes consumed are its encoding. */
  lemma DecodeIsEncoded(s: seq<byte>)
    requires Decode(s).0.Got?
    ensures var m := Decode(s).0.message;
            && Typed(m) && m.magic == MAGIC_VERSION && |m.data| < U32
            && s == Encode(m) + Decode(s).1
  {
    hide Parse, Header;
    var h := s[..HEADER_SIZE];
    var m := Decode(s).0.message;
    assert |m.data| == Parse(h).1;
    assert m == Parse(h).0.(data := m.data);
    HeaderOfParse(h, m.data);
    assert s[HEADER_SIZE..] == m.data + Decode(s).1;
    assert s == h + s[HEADER_SIZE..];
  }

  /** A stream that ends within a message: it is noticed, but for an end right after the header, which reads like the
      clean end of a stream. */
  lemma CutFrame(m: Message, k: nat)
    requires Typed(m) && m.magic == MAGIC_VERSION && |m.data| < U32 && k <= |Encode(m)|
    ensures Decode(Encode(m)[..k]) ==
            if k == |Encode(m)| then (Got(m), []) else if k == 0 || k == 26 then (EndOfStream, [])
            else (UnexpectedEnd, [])
  {
    hide Parse, Header;
    var s := Encode(m)[..k];
    if k == |Encode(m)| {
      assert s == Encode(m) + [];
      RoundTripIff(m, []);
    } else if k >= 26 {
      ParseHeader(m);
      assert s[..26] == Header(m) && |s[26..]| == k - 26;
      assert |m.data| % U32 == |m.data|;
    }
  }

  lemma WrongVersionRead(m: Message, rest: seq<byte>)
    requires Typed(m) && m.magic != MAGIC_VERSION
    ensures Decode(Encode(m) + rest).0 == WrongVersion(m.magic)
  {
    hide Parse, Header;
    ParseHeader(m);
    assert (Encode(m) + rest)[..26] == Header(m);
  }

  // ----- streams -----

  predicate Sendable(ms: seq<Message>) {
    forall m | m in ms :: Typed(m) && m.magic == MAGIC_VERSION && |m.data| < U32
  }

  function EncodeAll(ms: seq<Message>): seq<byte>
    requires Sendable(ms)
  {
    if ms == [] then [] else Encode(ms[0]) + EncodeAll(ms[1..])
  }

  /** Reads until something other than a message comes. */
  function DecodeAll(s: seq<byte>): (r: (seq<Message>, Reading))
    decreases |s|
  {
    var (reading, rest) := Decode(s);
    if reading.Got? then
      var (ms, last) := DecodeAll(rest);
      ([reading.message] + ms, last)
    else ([], reading)
  }

  /** Any sequence of messages written back to back is read back as that sequence, up to a clean end. */
  lemma {:induction false} StreamRoundTrip(ms: seq<Message>)
    requires Sendable(ms)
    ensures DecodeAll(EncodeAll(ms)) == (ms, EndOfStream)
  {
    assert Decode([]) == (EndOfStream, []);
    hide Encode, Decode;
    if ms != [] {
      RoundTripIff(ms[0], EncodeAll(ms[1..]));
      StreamRoundTrip(ms[1..]);
      assert ms == [ms[0]] + ms[1..];
    }
  }

  // ----- the wire -----

  /** `sent` is what has been flushed to the connection and `input` what is still to be read. */
  class Wire {
    var writeHeader: array<byte>
    var readHeader: array<byte>
    var sent: seq<byte>
    var input: seq<byte>

    ghost predicate Valid()
      reads this
    {
      writeHeader != readHeader && writeHeader.Length == HEADER_SIZE && readHeader.Length == HEADER_SIZE
    }

    constructor (input: seq<byte>)
      ensures Valid() && fresh(writeHeader) && fresh(readHeader) && sent == [] && this.input == input
    {
      writeHeader := new byte[HEADER_SIZE](_ => 0);
      readHeader := new byte[HEADER_SIZE](_ => 0);
      sent := [];
      this.input := input;
    }

    /** Stores an unsigned integer of `k` bytes at a place in the header. */
    method Put(offset: nat, n: nat, k: nat)
      requires Valid() && offset + k <= HEADER_SIZE
      modifies writeHeader
      ensures writeHeader[..offset + k] == old(writeHeader[..offset]) + LittleEndian(n, k)
      ensures writeHeader[offset + k..] == old(writeHeader[offset + k..])
    {
      ghost var was := writeHeader[..];
      var i, left := 0, n;
      while i < k
        invariant 0 <= i <= k
        invariant writeHeader[..offset + i] + LittleEndian(left, k - i) == was[..offset] + LittleEndian(n, k)
        invariant writeHeader[offset + i..] == was[offset + i..]
      {
        writeHeader[offset + i] := (left % 256) as byte;
        left := left / 256;
        i := i + 1;
      }
    }

    method Write(m: Message)
      requires Valid() && Typed(m)
      modifies this`sent, writeHeader
      ensures sent == old(sent) + Encode(m)
    {
      hide LittleEndian;
      Put(0, m.magic, 2);
      Put(2, m.sequence, 4);
      Put(6, m.kind, 4);
      Put(10, ToUint64(m.offset), 8);
      Put(18, m.size, 4);
      Put(22, |m.data| % U32, 4);
      assert writeHeader[..] == writeHeader[..26] == Header(m);
      sent := sent + writeHeader[..];
      if |m.data| > 0 {
        sent := sent + m.data;
      }
    }

    /** Fills a buffer of `n` bytes from the stream: an error when the stream ends before or within it. */
    method ReadFull(n: nat) returns (bytes: seq<byte>, ok: bool, empty: bool)
      requires n > 0
      modifies this`input
      ensures ok <==> n <= |old(input)|
      ensures if ok then bytes == old(input)[..n] && input == old(input)[n..] else input == []
      ensures empty <==> old(input) == []
    {
      empty := |input| == 0;
      ok := n <= |input|;
      var taken := if ok then n else |input|;
      bytes := input[..taken];
      input := input[taken..];
    }

    method Read() returns (r: Reading)
      requires Valid()
      modifies this`input, readHeader
      ensures (r, input) == Decode(old(input))
    {
      hide Value;
      var bytes, ok, empty := ReadFull(HEADER_SIZE);
      if !ok {
        return if empty then EndOfStream else UnexpectedEnd;
      }
      forall i | 0 <= i < HEADER_SIZE {
        readHeader[i] := bytes[i];
      }
      assert readHeader[..] == bytes;
      var m, length := Fields();
      if m.magic != MAGIC_VERSION {
        return WrongVersion(m.magic);
      }
      if length > 0 {
        var data, full, none := ReadFull(length);
        if !full {
          return if none then EndOfStream else UnexpectedEnd;
        }
        m := m.(data := data);
      }
      return Got(m);
    }

    /** The header's fields. */
    method Fields() returns (m: Message, length: nat)
      requires Valid()
      ensures (m, length) == Parse(readHeader[..])
    {
      ghost var h := readHeader[..];
      var offset := 0;
      var magic := Get(offset, 2);
      offset := offset + 2;
      var sequence := Get(offset, 4);
      offset := offset + 4;
      var kind := Get(offset, 4);
      offset := offset + 4;
      var place := Get(offset, 8);
      offset := offset + 8;
      var size := Get(offset, 4);
      offset := offset + 4;
      length := Get(offset, 4);
      Powers();
      LittleEndianOfValue(h[10..18]);
      m := Message(magic, sequence, kind, ToInt64(place), size, []);
    }

    /** The unsigned integer of `k` bytes at a place in the header. */
    method Get(offset: nat, k: nat) returns (n: nat)
      requires Valid() && offset + k <= HEADER_SIZE
      ensures n == Value(readHeader[..][offset..offset + k])
    {
      n := 0;
      var i := k;
      while i > 0
        invariant 0 <= i <= k
        invariant n == Value(readHeader[..][offset + i..offset + k])
      {
        i := i - 1;
        n := readHeader[offset + i] as int + 256 * n;
        assert readHeader[..][offset + i..offset + k][1..] == readHeader[..][offset + i + 1..offset + k];
      }
    }
  }
}

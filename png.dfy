/**
 * The PNG framing of icons/generate-icons.js: the table-driven CRC-32 of
 * section 5.5 of the PNG Specification (Second Edition), the chunk layout of
 * section 5.3 (length, type, data, CRC of type and data), the IHDR fields of
 * section 11.2.2 and the signature/IHDR/IDAT/IEND assembly of createPNG. The
 * compressed image data is a parameter.
 */
module Png {
  import opened Wrappers

  /** A byte of a Buffer. */
  newtype byte = x: int | 0 <= x < 256

  // ---------------------------------------------------------------------------
  // CRC-32
  // ---------------------------------------------------------------------------

  /** The reversed generator polynomial of the PNG CRC. */
  const POLY: bv32 := 0xEDB8_8320

  /** One reflected shift/xor step (generate-icons.js:20): shift right, xor the polynomial when the bit shifted out was set. */
  function Step(c: bv32): bv32 {
    if c & 1 == 1 then POLY ^ (c >> 1) else c >> 1
  }

  /** n steps from c. */
  function Steps(c: bv32, n: nat): bv32
    decreases n
  {
    if n == 0 then c else Step(Steps(c, n - 1))
  }

  /** The table entry for the byte value k: k after eight steps (generate-icons.js:17-23). */
  function TableEntry(k: int): bv32
    requires 0 <= k < 256
  {
    Steps(k as bv32, 8)
  }

  /** The table index of a register and a byte: the low byte of their xor. */
  function Index(crc: bv32, b: byte): (k: int)
    ensures 0 <= k < 256
  {
    ((crc ^ b as bv32) & 0xFF) as int
  }

  /** The register after one byte, through the table (generate-icons.js:26). */
  function Update(crc: bv32, b: byte): bv32 {
    TableEntry(Index(crc, b)) ^ (crc >> 8)
  }

  /** The register after the bytes, starting from crc: a left fold of Update. */
  function Register(crc: bv32, data: seq<byte>): bv32
    decreases |data|
  {
    if data == [] then crc else Update(Register(crc, data[..|data| - 1]), data[|data| - 1])
  }

  /** crc32(data): the register from all ones, with the final xor (generate-icons.js:13-30). */
  function Crc(data: seq<byte>): bv32 {
    Register(0xFFFF_FFFF, data) ^ 0xFFFF_FFFF
  }

  /** The table of crc32 (generate-icons.js:15-23): entry i is i after eight steps, computed by the inner loop. */
  method MakeTable() returns (table: array<bv32>)
    ensures fresh(table) && table.Length == 256
    ensures forall k | 0 <= k < 256 :: table[k] == TableEntry(k)
  {
    table := new bv32[256](_ => 0);
    for i := 0 to 256
      invariant forall k | 0 <= k < i :: table[k] == TableEntry(k)
    {
      var c := i as bv32;
      for j := 0 to 8
        invariant c == Steps(i as bv32, j)
      {
        c := Step(c);
      }
      assert c == TableEntry(i);
      table[i] := c;
    }
  }

  /** The loop of crc32 (generate-icons.js:25-27): one table lookup per byte, from the register crc. */
  method UpdateAll(table: array<bv32>, crc: bv32, data: seq<byte>) returns (r: bv32)
    requires table.Length == 256
    requires forall k | 0 <= k < 256 :: table[k] == TableEntry(k)
    ensures r == Register(crc, data)
  {
    r := crc;
    for i := 0 to |data|
      invariant r == Register(crc, data[..i])
    {
      RegisterNext(crc, data, i);
      r := table[Index(r, data[i])] ^ (r >> 8);
    }
    assert data[..|data|] == data;
  }

  /** crc32 (generate-icons.js:13-30): the table, the loop from all ones, then the final xor. */
  method Crc32(data: seq<byte>) returns (r: bv32)
    ensures r == Crc(data)
  {
    var table := MakeTable();
    var crc := UpdateAll(table, 0xFFFF_FFFF, data);
    r := crc ^ 0xFFFF_FFFF;
  }

  /** One more byte is one more Update. */
  lemma RegisterNext(crc: bv32, data: seq<byte>, i: nat)
    requires i < |data|
    ensures Register(crc, data[..i + 1]) == Update(Register(crc, data[..i]), data[i])
  {
    assert data[..i + 1][..i] == data[..i];
  }

  /** The empty input has CRC 0. */
  lemma CrcEmpty()
    ensures Crc([]) == 0
  {
  }

  /** The register after s and then x: one more Update. */
  lemma RegisterSnoc(crc: bv32, s: seq<byte>, x: byte)
    ensures Register(crc, s + [x]) == Update(Register(crc, s), x)
  {
    assert (s + [x])[..|s|] == s;
  }

  /** The register is a fold: running over a + b is running over b from the register after a. */
  lemma {:induction false} RegisterAppend(crc: bv32, a: seq<byte>, b: seq<byte>)
    ensures Register(crc, a + b) == Register(Register(crc, a), b)
    decreases |b|
  {
    if b == [] {
      assert a + b == a;
    } else {
      var front, last := b[..|b| - 1], b[|b| - 1];
      assert b == front + [last];
      assert a + b == (a + front) + [last];
      RegisterAppend(crc, a, front);
      RegisterSnoc(crc, a + front, last);
      RegisterSnoc(Register(crc, a), front, last);
    }
  }

  /** The CRC of a + b, from the register after a, with the final xor applied once. */
  lemma CrcAppend(a: seq<byte>, b: seq<byte>)
    ensures Crc(a + b) == Register(Register(0xFFFF_FFFF, a), b) ^ 0xFFFF_FFFF
  {
    RegisterAppend(0xFFFF_FFFF, a, b);
  }

  // ---------------------------------------------------------------------------
  // Chunks
  // ---------------------------------------------------------------------------

  /** One more than the largest number writeUInt32BE accepts. */
  const LIMIT: nat := 0x1_0000_0000

  /** The four bytes of n, most significant first (`writeUInt32BE`, which throws unless 0 <= n < 2^32). */
  function BE32(n: nat): (r: seq<byte>)
    requires n < LIMIT
    ensures |r| == 4
  {
    [(n / 0x100_0000) as byte, (n / 0x1_0000 % 0x100) as byte, (n / 0x100 % 0x100) as byte, (n % 0x100) as byte]
  }

  /** The number four bytes hold, most significant first (`readUInt32BE`). */
  function ReadBE32(b: seq<byte>): (n: nat)
    requires |b| == 4
    ensures n < LIMIT
  {
    b[0] as int * 0x100_0000 + b[1] as int * 0x1_0000 + b[2] as int * 0x100 + b[3] as int
  }

  /** Reading back what writeUInt32BE wrote gives the number. */
  lemma ReadWrittenBE32(n: nat)
    requires n < LIMIT
    ensures ReadBE32(BE32(n)) == n
  {
    var b := BE32(n);
    assert n / 0x100 == (n / 0x1_0000) * 0x100 + n / 0x100 % 0x100;
    assert n / 0x1_0000 == (n / 0x100_0000) * 0x100 + n / 0x1_0000 % 0x100;
  }

  /** A chunk: a four-byte type and its data. */
  datatype Chunk = Chunk(kind: seq<byte>, data: seq<byte>)

  /** The bytes of a chunk: length, type, data, CRC of type and data (section 5.3 of the PNG Specification). */
  function ChunkBytes(kind: seq<byte>, data: seq<byte>): (r: seq<byte>)
    requires |data| < LIMIT
    ensures |r| == 8 + |kind| + |data|
  {
    BE32(|data|) + kind + data + BE32(Crc(kind + data) as int)
  }

  /** `writeUInt32BE(value, offset)` on a buffer: the four bytes at offset become BE32(value). */
  method WriteUInt32BE(buf: array<byte>, value: nat, offset: nat)
    requires value < LIMIT && offset + 4 <= buf.Length
    modifies buf
    ensures buf[..] == old(buf[..offset]) + BE32(value) + old(buf[offset + 4..])
  {
    var bytes := BE32(value);
    buf[offset] := bytes[0];
    buf[offset + 1] := bytes[1];
    buf[offset + 2] := bytes[2];
    buf[offset + 3] := bytes[3];
  }

  /** `Buffer.alloc(4)` followed by `writeUInt32BE(value)`: the four bytes of value. */
  method UInt32Buffer(value: nat) returns (bytes: seq<byte>)
    requires value < LIMIT
    ensures bytes == BE32(value)
  {
    var buf := new byte[4](_ => 0);
    WriteUInt32BE(buf, value, 0);
    bytes := buf[..];
  }

  /** createChunk (generate-icons.js:32-42): the length and CRC buffers written, then the four parts concatenated. */
  method CreateChunk(kind: seq<byte>, data: seq<byte>) returns (chunk: seq<byte>)
    requires |data| < LIMIT
    ensures chunk == ChunkBytes(kind, data)
  {
    var length := UInt32Buffer(|data|);
    var crcValue := Crc32(kind + data);
    var crc := UInt32Buffer(crcValue as int);
    chunk := length + kind + data + crc;
  }

  /** The chunk at the start of bytes and what follows it, when its length fits and its CRC matches. */
  function ReadChunk(bytes: seq<byte>): (r: Option<(Chunk, seq<byte>)>)
    ensures r.Some? ==> |r.value.1| < |bytes|
  {
    if |bytes| < 12 then None
    else
      var n := ReadBE32(bytes[..4]);
      if |bytes| < 12 + n then None
      else
        var kind, data := bytes[4..8], bytes[8..8 + n];
        if ReadBE32(bytes[8 + n..12 + n]) != Crc(kind + data) as int then None
        else Some((Chunk(kind, data), bytes[12 + n..]))
  }

  /** A chunk createChunk wrote is read back, with what follows it. */
  lemma ReadCreatedChunk(kind: seq<byte>, data: seq<byte>, rest: seq<byte>)
    requires |kind| == 4 && |data| < LIMIT
    ensures ReadChunk(ChunkBytes(kind, data) + rest) == Some((Chunk(kind, data), rest))
  {
    var n := |data|;
    var length, crc := BE32(n), BE32(Crc(kind + data) as int);
    Parts(length, kind, data, crc, rest);
    ReadWrittenBE32(n);
    ReadWrittenBE32(Crc(kind + data) as int);
  }

  /** The five parts of a concatenation are its slices at the running lengths. */
  lemma Parts(p: seq<byte>, q: seq<byte>, r: seq<byte>, s: seq<byte>, t: seq<byte>)
    ensures var b, i, j, k := p + q + r + s + t, |p| + |q|, |p| + |q| + |r|, |p| + |q| + |r| + |s|;
      && b[..|p|] == p && b[|p|..i] == q && b[i..j] == r && b[j..k] == s && b[k..] == t
  {
  }

  /** The chunks of a byte string, in order, when each one reads. */
  function ReadChunks(bytes: seq<byte>): Option<seq<Chunk>>
    decreases |bytes|
  {
    if bytes == [] then Some([])
    else
      match ReadChunk(bytes)
      case None => None
      case Some((chunk, rest)) =>
        match ReadChunks(rest)
        case None => None
        case Some(chunks) => Some([chunk] + chunks)
  }

  /** A chunk createChunk wrote, in front of bytes that read as chunks, adds itself to their front. */
  lemma ReadChunksCons(kind: seq<byte>, data: seq<byte>, rest: seq<byte>)
    requires |kind| == 4 && |data| < LIMIT && ReadChunks(rest).Some?
    ensures ReadChunks(ChunkBytes(kind, data) + rest) == Some([Chunk(kind, data)] + ReadChunks(rest).value)
  {
    ReadCreatedChunk(kind, data, rest);
  }

  /** A chunk createChunk can write and ReadChunk can read: a four-byte type and a length writeUInt32BE accepts. */
  predicate Writable(c: Chunk) {
    |c.kind| == 4 && |c.data| < LIMIT
  }

  /** The chunks, written one after the other. */
  function ChunksBytes(chunks: seq<Chunk>): seq<byte>
    requires forall i | 0 <= i < |chunks| :: Writable(chunks[i])
    decreases |chunks|
  {
    if chunks == [] then []
    else
      assert Writable(chunks[0]);
      ChunkBytes(chunks[0].kind, chunks[0].data) + ChunksBytes(chunks[1..])
  }

  /** Chunks written one after the other read back as the same chunks, in order. */
  lemma {:induction false} ReadWrittenChunks(chunks: seq<Chunk>)
    requires forall i | 0 <= i < |chunks| :: Writable(chunks[i])
    ensures ReadChunks(ChunksBytes(chunks)) == Some(chunks)
    decreases |chunks|
  {
    if chunks != [] {
      ReadWrittenChunks(chunks[1..]);
      ReadChunksCons(chunks[0].kind, chunks[0].data, ChunksBytes(chunks[1..]));
      assert [Chunk(chunks[0].kind, chunks[0].data)] + chunks[1..] == chunks;
    }
  }

  // ---------------------------------------------------------------------------
  // createPNG
  // ---------------------------------------------------------------------------

  /** The PNG signature (section 5.2). */
  const SIGNATURE: seq<byte> := [0x89, 0x50, 0x4E, 0x47, 0x0D, 0x0A, 0x1A, 0x0A]

  /** The chunk types, as ASCII bytes. */
  const IHDR: seq<byte> := [0x49, 0x48, 0x44, 0x52]
  const IDAT: seq<byte> := [0x49, 0x44, 0x41, 0x54]
  const IEND: seq<byte> := [0x49, 0x45, 0x4E, 0x44]

  /** The IHDR data for a square image: width and height, bit depth 8, colour type 2 (RGB), no compression, filter or interlace variants. */
  function HeaderData(size: nat): (r: seq<byte>)
    requires size < LIMIT
    ensures |r| == 13
  {
    BE32(size) + BE32(size) + [8, 2, 0, 0, 0]
  }

  /** The chunks createPNG writes: IHDR with the header, IDAT with the data and an empty IEND. */
  function PngChunks(size: nat, idat: seq<byte>): (chunks: seq<Chunk>)
    requires size < LIMIT && |idat| < LIMIT
    ensures forall i | 0 <= i < |chunks| :: Writable(chunks[i])
  {
    [Chunk(IHDR, HeaderData(size)), Chunk(IDAT, idat), Chunk(IEND, [])]
  }

  /** The file createPNG returns for the compressed data idat. */
  function PngBytes(size: nat, idat: seq<byte>): seq<byte>
    requires size < LIMIT && |idat| < LIMIT
  {
    SIGNATURE + ChunksBytes(PngChunks(size, idat))
  }

  /** Three chunks written one after the other. */
  lemma ChunksBytesThree(a: Chunk, b: Chunk, c: Chunk)
    requires Writable(a) && Writable(b) && Writable(c)
    ensures ChunksBytes([a, b, c]) == ChunkBytes(a.kind, a.data) + (ChunkBytes(b.kind, b.data) + ChunkBytes(c.kind, c.data))
  {
    var chunks := [a, b, c];
    assert chunks[1..] == [b, c] && chunks[1..][1..] == [c] && chunks[1..][1..][1..] == [];
    var third := ChunkBytes(c.kind, c.data);
    assert ChunksBytes([c]) == third + [] == third;
  }

  /** The bytes of createPNG's three chunks, one after the other. */
  lemma PngChunksBytes(size: nat, idat: seq<byte>)
    requires size < LIMIT && |idat| < LIMIT
    ensures ChunksBytes(PngChunks(size, idat)) == ChunkBytes(IHDR, HeaderData(size)) + (ChunkBytes(IDAT, idat) + ChunkBytes(IEND, []))
  {
    ChunksBytesThree(Chunk(IHDR, HeaderData(size)), Chunk(IDAT, idat), Chunk(IEND, []));
  }

  /** The framing of createPNG (generate-icons.js:44-55, 91-98), with the deflated pixels given as idat. */
  method CreatePng(size: nat, idat: seq<byte>) returns (png: seq<byte>)
    requires size < LIMIT && |idat| < LIMIT
    ensures png == PngBytes(size, idat)
  {
    var ihdr := new byte[13](_ => 0);
    WriteUInt32BE(ihdr, size, 0);
    WriteUInt32BE(ihdr, size, 4);
    ihdr[8] := 8;
    ihdr[9] := 2;
    ihdr[10] := 0;
    ihdr[11] := 0;
    ihdr[12] := 0;
    assert ihdr[..] == HeaderData(size);
    var header := CreateChunk(IHDR, ihdr[..]);
    var image := CreateChunk(IDAT, idat);
    var end := CreateChunk(IEND, []);
    PngChunksBytes(size, idat);
    png := SIGNATURE + (header + (image + end));
  }

  /**
   * The file is the signature followed by exactly three chunks that read
   * back: IHDR with the header, IDAT with the data and an empty IEND; its
   * length is 57 plus the data's.
   */
  lemma PngLayout(size: nat, idat: seq<byte>)
    requires size < LIMIT && |idat| < LIMIT
    ensures var png := PngBytes(size, idat);
      && |png| == 57 + |idat|
      && png[..8] == SIGNATURE
      && ReadChunks(png[8..]) == Some(PngChunks(size, idat))
  {
    var png := PngBytes(size, idat);
    PngChunksBytes(size, idat);
    assert png[8..] == ChunksBytes(PngChunks(size, idat));
    ReadWrittenChunks(PngChunks(size, idat));
  }

  /** The IHDR fields read back: width and height are the size, then 8, 2, 0, 0, 0. */
  lemma HeaderFields(size: nat)
    requires size < LIMIT
    ensures var h := HeaderData(size);
      && ReadBE32(h[0..4]) == size
      && ReadBE32(h[4..8]) == size
      && h[8..] == [8, 2, 0, 0, 0]
  {
    var h := HeaderData(size);
    assert h[0..4] == BE32(size) && h[4..8] == BE32(size);
    ReadWrittenBE32(size);
  }
}

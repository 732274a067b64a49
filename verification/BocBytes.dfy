module BocBytes {
  // The bytes a bag of cells is spelled in: fixed-width numbers, a cell's record, the checksum.

  import opened Basics
  import opened Cells
  import opened Packing
  import opened Hashing

  const MAGIC: seq<byte> := [0xb5, 0xee, 0x9c, 0x72]
  const MAX_CELLS: nat := 0x2_0000
  const MAX_DEPTH: nat := 1024
  const WITH_HASHES: nat := 16

  // ---------------------------------------------------------------- numbers

  function Pow256(n: nat): (r: nat)
    ensures r > 0
  {
    if n == 0 then 1 else 256 * Pow256(n - 1)
  }

  /** The low `width` bytes of a number, most significant first. */
  function BigEndian(x: nat, width: nat): (r: seq<byte>)
    ensures |r| == width
  {
    if width == 0 then [] else BigEndian(x / 256, width - 1) + [x % 256]
  }

  function FromBigEndian(bytes: seq<byte>): (r: nat)
    ensures r < Pow256(|bytes|)
  {
    if bytes == [] then 0 else 256 * FromBigEndian(bytes[..|bytes| - 1]) + bytes[|bytes| - 1]
  }

  /** What is written in `width` bytes reads back as the number's low `width` bytes. */
  lemma {:induction false} ReadsLowBytes(x: nat, width: nat)
    ensures FromBigEndian(BigEndian(x, width)) == x % Pow256(width)
  {
    if width > 0 {
      ReadsLowBytes(x / 256, width - 1);
      assert BigEndian(x, width)[..width - 1] == BigEndian(x / 256, width - 1);
      ModSplits(x, Pow256(width - 1));
    }
  }

  lemma {:induction false} ModSplits(x: nat, p: nat)
    requires p > 0
    ensures x % (256 * p) == 256 * (x / 256 % p) + x % 256
  {
    var high, low := x / 256, x % 256;
    var q, r := high / p, high % p;
    assert high == q * p + r;
    assert x == q * (256 * p) + (256 * r + low) by { Regroup(q, p, r, low); }
    ModUnique(x, 256 * p, q, 256 * r + low);
  }

  lemma {:induction false} Regroup(q: nat, p: nat, r: nat, low: nat)
    ensures 256 * (q * p + r) + low == q * (256 * p) + (256 * r + low)
  {}

  lemma {:induction false} ReadsBack(x: nat, width: nat)
    requires x < Pow256(width)
    ensures FromBigEndian(BigEndian(x, width)) == x
  {
    ReadsLowBytes(x, width);
    ModUnique(x, Pow256(width), 0, x);
  }

  /** The fewest bytes a number is written in, and never none. */
  function ByteWidth(x: nat): (r: nat)
    ensures r >= 1 && x < Pow256(r)
  {
    if x < 256 then 1 else 1 + ByteWidth(x / 256)
  }

  lemma {:induction false} WidthWithin(x: nat, n: nat)
    requires n >= 1 && x < Pow256(n)
    ensures ByteWidth(x) <= n
  {
    if x >= 256 {
      assert Pow256(n) == 256 * Pow256(n - 1);
      WidthWithin(x / 256, n - 1);
    }
  }

  // ---------------------------------------------------------------- the checksum

  function CrcShift(crc: bv32): bv32 { if crc & 1 != 0 then (crc >> 1) ^ 0x82F6_3B78 else crc >> 1 }

  function CrcRounds(crc: bv32, rounds: nat): bv32
    decreases rounds
  {
    if rounds == 0 then crc else CrcRounds(CrcShift(crc), rounds - 1)
  }

  function CrcByte(crc: bv32, b: byte): bv32 { CrcRounds(crc ^ (b as bv32), 8) }

  function CrcUpdate(crc: bv32, bytes: seq<byte>): bv32 {
    if bytes == [] then crc else CrcByte(CrcUpdate(crc, bytes[..|bytes| - 1]), bytes[|bytes| - 1])
  }

  method FoldByte(start: bv32, b: byte) returns (crc: bv32)
    ensures crc == CrcByte(start, b)
  {
    hide CrcShift;
    crc := start ^ (b as bv32);
    for bit := 0 to 8
      invariant CrcRounds(crc, 8 - bit) == CrcByte(start, b)
    {
      crc := CrcShift(crc);
    }
  }

  /** Computes `CrcUpdate`, shifting each byte out bit by bit. */
  method Crc32cUpdate(start: bv32, bytes: seq<byte>) returns (crc: bv32)
    ensures crc == CrcUpdate(start, bytes)
  {
    hide CrcByte;
    crc := start;
    for i := 0 to |bytes|
      invariant crc == CrcUpdate(start, bytes[..i])
    {
      assert bytes[..i + 1][..i] == bytes[..i];
      crc := FoldByte(crc, bytes[i]);
    }
    assert bytes[..|bytes|] == bytes;
  }

  const CRC_INIT: bv32 := 0xFFFF_FFFF

  function LowByte(x: bv32): byte { ((x & 0xff) as bv8) as int }

  function LittleEndian(x: bv32): (r: seq<byte>)
    ensures |r| == 4
  {
    [LowByte(x), LowByte(x >> 8), LowByte(x >> 16), LowByte(x >> 24)]
  }

  /** The four checksum bytes of a running checksum. */
  function CrcTail(crc: bv32): (r: seq<byte>)
    ensures |r| == 4
  {
    LittleEndian(!crc)
  }

  /** A checksum carried from piece to piece is the checksum of the pieces together. */
  lemma {:induction false} CrcJoins(crc: bv32, a: seq<byte>, b: seq<byte>)
    ensures CrcUpdate(crc, a + b) == CrcUpdate(CrcUpdate(crc, a), b)
  {
    hide CrcByte;
    if b == [] {
      assert a + b == a;
    } else {
      assert (a + b)[..|a + b| - 1] == a + b[..|b| - 1];
      CrcJoins(crc, a, b[..|b| - 1]);
    }
  }

  // ---------------------------------------------------------------- a cell's record

  /** The levels a cell keeps a hash for: zero, and each its mask marks. */
  function Levels(mask: Mask): (r: seq<nat>)
    ensures |r| == mask.Count() + 1
  {
    [0] + (if mask.one then [1] else []) + (if mask.two then [2] else []) + (if mask.three then [3] else [])
  }

  function HashesOf(sha: Sha, c: Cell): (r: seq<Hash>)
    ensures |r| == c.mask.Count() + 1
  {
    seq(|Levels(c.mask)|, k requires 0 <= k < |Levels(c.mask)| => HashAt(sha, c, Levels(c.mask)[k]))
  }

  function DepthsOf(c: Cell): (r: seq<nat>)
    ensures |r| == c.mask.Count() + 1
  {
    seq(|Levels(c.mask)|, k requires 0 <= k < |Levels(c.mask)| => DepthAt(c, Levels(c.mask)[k]))
  }

  /** A cell's own hashes and then depths, as a bag that stores them carries them. */
  function StoredRun(sha: Sha, c: Cell): (r: seq<byte>)
    ensures |r| == 34 * (c.mask.Count() + 1)
  {
    HashBytes(HashesOf(sha, c)) + DepthBytes(DepthsOf(c))
  }

  function IndexBytes(indices: seq<nat>, width: nat): (r: seq<byte>)
    ensures |r| == |indices| * width
  {
    if indices == [] then []
    else
      Step(|indices|, width);
      IndexBytes(indices[..|indices| - 1], width) + BigEndian(indices[|indices| - 1], width)
  }

  lemma {:induction false} Step(n: nat, width: nat)
    requires n > 0
    ensures n * width == (n - 1) * width + width
  {}

  /** The two descriptors as a bag stores them: the whole mask, and whether hashes follow. */
  function Descriptors(c: Cell, stored: bool): (r: seq<byte>)
    ensures |r| == 2
  {
    [(|c.refs| + (if c.IsExotic() then 8 else 0) + 32 * c.mask.Byte() + (if stored then WITH_HASHES else 0)) % 256,
     BitsDescriptor(c.bits) % 256]
  }

  /** A cell as a bag holds it: descriptors, its hashes if asked for, its data, its references. */
  function Record(sha: Sha, c: Cell, indices: seq<nat>, refSize: nat, stored: bool): (r: seq<byte>)
    ensures |r| == 2 + (if stored then 34 * (c.mask.Count() + 1) else 0) + |Pack(c.bits)| + |indices| * refSize
  {
    Descriptors(c, stored) + (if stored then StoredRun(sha, c) else []) + Pack(c.bits) + IndexBytes(indices, refSize)
  }
}

module BocExact {
  // Reading a bag, the other way round: whatever is accepted is spelled one way, byte for byte, by
  // what was read out of it, and the index a writer adds points at the cells.

  import opened Basics
  import opened Cells
  import opened Packing
  import opened Hashing
  import opened BocBytes
  import opened BocWrite
  import opened BocRead
  import opened BocRoundTrip

  // ---------------------------------------------------------------- numbers

  lemma {:induction false} WritesBack(bytes: seq<byte>)
    ensures BigEndian(FromBigEndian(bytes), |bytes|) == bytes
  {
    if bytes != [] {
      WritesBack(bytes[..|bytes| - 1]);
      assert bytes == bytes[..|bytes| - 1] + [bytes[|bytes| - 1]];
    }
  }

  lemma {:induction false} UintSpells(s: seq<byte>, n: nat)
    requires TakeUint(s, n).Ok?
    ensures s == BigEndian(TakeUint(s, n).value.0, n) + TakeUint(s, n).value.1
    ensures n == 1 ==> TakeUint(s, n).value.0 < 256 && s[0] == TakeUint(s, n).value.0
  {
    hide FromBigEndian;
    var bytes := Take(s, n).value.0;
    WritesBack(bytes);
    if n == 1 { OneByte(bytes); }
  }

  lemma {:induction false} OneByte(bytes: seq<byte>)
    requires |bytes| == 1
    ensures FromBigEndian(bytes) == bytes[0] as int
  {
    assert bytes[..0] == [];
  }

  lemma {:induction false} IndicesSpell(s: seq<byte>, n: nat, width: nat, low: int, count: nat)
    requires TakeIndices(s, n, width, low, count).Ok?
    ensures var (list, rest) := TakeIndices(s, n, width, low, count).value;
      s == IndexBytes(list, width) + rest
    decreases n
  {
    hide BigEndian, TakeUint;
    if n > 0 {
      UintSpells(s, width);
      var (index, after) := TakeUint(s, width).value;
      IndicesSpell(after, n - 1, width, low, count);
      var (more, _) := TakeIndices(after, n - 1, width, low, count).value;
      IndexBytesFront(index, more, width);
    }
  }

  // ---------------------------------------------------------------- a cell's data

  lemma {:induction false} ZerosAre(b: nat, j: nat)
    requires b > 0 && j <= TrailingZeros(b)
    ensures b / Pow2(j) % 2 == if j == TrailingZeros(b) then 1 else 0
    decreases b
  {
    if b % 2 == 0 {
      if j == 0 {
        assert b / Pow2(0) == b;
      } else {
        assert TrailingZeros(b) == 1 + TrailingZeros(b / 2) by { ZerosOfHalf(b); }
        ZerosAre(b / 2, j - 1);
        HalvedAgain(b, j - 1);
      }
    } else {
      assert b / Pow2(0) == b;
    }
  }

  lemma {:induction false} ZerosOfHalf(b: nat)
    requires b > 0 && b % 2 == 0
    ensures TrailingZeros(b) == 1 + TrailingZeros(b / 2)
  {}

  lemma {:induction false} HalvedAgain(b: nat, j: nat)
    ensures b / Pow2(j + 1) == b / 2 / Pow2(j)
  {
    var p := Pow2(j);
    var q, r := b / 2 / p, b / 2 % p;
    assert b / 2 == q * p + r;
    assert b == q * (2 * p) + (2 * r + b % 2) by { Doubled(q, p, r, b % 2); }
    DivUnique(b, 2 * p, q, 2 * r + b % 2);
  }

  lemma {:induction false} Doubled(q: nat, p: nat, r: nat, low: nat)
    ensures 2 * (q * p + r) + low == q * (2 * p) + (2 * r + low)
  {}

  lemma {:induction false} DivUnique(x: nat, p: nat, q: nat, r: nat)
    requires p > 0 && r < p && x == q * p + r
    ensures x / p == q
  {
    ModUnique(x, p, q, r);
  }

  /** A completed byte: bits, a one, and zeros to its end. */
  lemma {:induction false} MarkedByte(b: byte)
    requires b > 0
    ensures var zeros := TrailingZeros(b);
      zeros < 8 && ToBits(b, 8) == ToBits(b, 8)[..7 - zeros] + [true] + Repeat(false, zeros)
  {
    hide TrailingZeros, ByteOf, ToBits;
    var zeros, s := TrailingZeros(b), ToBits(b, 8);
    ZerosWithin(b);
    ByteSpellsBack(b);
    forall k | 7 - zeros <= k < 8 ensures s[k] == (k == 7 - zeros) {
      ByteBit(s, k);
      ZerosAre(b, 7 - k);
    }
  }

  lemma {:induction false} ZerosWithin(b: byte)
    requires b > 0
    ensures TrailingZeros(b) < 8
  {
    hide TrailingZeros;
    assert Pow2(8) == 256;
    if TrailingZeros(b) >= 8 { Pow2Monotone(8, TrailingZeros(b)); }
  }

  /** Completing the bits in front of the mark gives the marked bits back. */
  lemma {:induction false} Completed(all: Bits, last: nat, zeros: nat)
    requires |all| == 8 * last + 8 && zeros < 7
    requires all[8 * last + 7 - zeros..] == [true] + Repeat(false, zeros)
    ensures Padded(all[..8 * last + 7 - zeros]) == all
  {
    var bits := all[..8 * last + 7 - zeros];
    assert |bits| % 8 == 7 - zeros;
    assert all == bits + all[8 * last + 7 - zeros..];
  }

  lemma {:induction false} MarkAt(data: seq<byte>)
    requires data != [] && data[|data| - 1] > 0
    ensures var zeros := TrailingZeros(data[|data| - 1]);
      zeros < 8 && Unpack(data)[8 * |data| - 1 - zeros..] == [true] + Repeat(false, zeros)
  {
    hide TrailingZeros, ToBits;
    var last, b := |data| - 1, data[|data| - 1];
    var zeros, tail := TrailingZeros(b), ToBits(b, 8);
    MarkedByte(b);
    UnpackedByte(data, last);
    assert Unpack(data)[8 * last..8 * last + 8][7 - zeros..] == Unpack(data)[8 * last + 7 - zeros..];
    assert tail[7 - zeros..] == [true] + Repeat(false, zeros);
  }

  lemma {:induction false} SamePacked(bits: Bits, data: seq<byte>)
    requires Padded(bits) == Unpack(data)
    ensures Pack(bits) == data
  {
    hide ToBits, ByteOf;
    assert |bits| <= |Padded(bits)| == 8 * |data|;
    PackUnpack(data);
    assert Padded(Unpack(data)) == Unpack(data);
  }

  /** Data that is accepted is the only data its bits have. */
  lemma {:induction false} DataSpells(d2: nat, data: seq<byte>)
    requires |data| == d2 / 2 + d2 % 2 && BitLen(d2, data).Ok? && BitLen(d2, data).value <= 8 * |data|
    ensures var bits := Unpack(data)[..BitLen(d2, data).value];
      Pack(bits) == data && BitsDescriptor(bits) == d2
  {
    hide TrailingZeros, ToBits, Unpack, Pack, Padded;
    var bits := Unpack(data)[..BitLen(d2, data).value];
    if d2 % 2 == 0 {
      assert bits == Unpack(data);
      PackUnpack(data);
    } else {
      MarkAt(data);
      Completed(Unpack(data), |data| - 1, TrailingZeros(data[|data| - 1]));
      SamePacked(bits, data);
    }
  }

  // ---------------------------------------------------------------- a record

  /** The first descriptor: references, kind, whether hashes follow, and the levels. */
  function FirstDescriptor(raw: RawCell): nat {
    |raw.refs| + (if raw.kind.Ordinary? then 0 else 8) + (if raw.stored.Some? then 16 else 0) + 32 * raw.mask.Byte()
  }

  lemma {:induction false} DescriptorSplits(d1: nat)
    requires d1 < 256
    ensures d1 == d1 % 8 + (if d1 / 8 % 2 == 1 then 8 else 0) + (if d1 / 16 % 2 == 1 then 16 else 0)
      + 32 * MaskOf(d1 / 32).Byte()
  {
    MaskSpells(d1 / 32);
    hide MaskOf, Mask.Byte;
    Halved(d1);
    var a, b, c := d1 / 8, d1 / 16, d1 / 32;
    assert d1 == 8 * a + d1 % 8 && a == 2 * b + a % 2 && b == 2 * c + b % 2;
    assert a % 2 == (if a % 2 == 1 then 1 else 0) && b % 2 == (if b % 2 == 1 then 1 else 0);
  }

  lemma {:induction false} Halved(x: nat)
    ensures x / 16 == x / 8 / 2 && x / 32 == x / 16 / 2
  {}

  lemma {:induction false} MaskSpells(m: nat)
    requires m < 8
    ensures MaskOf(m).Byte() == m
  {}

  lemma {:induction false} PartsSpell(
      s: seq<byte>, refCount: nat, exotic: bool, withHashes: bool, mask: Mask, d2: nat, index: nat, count: nat,
      refSize: nat)
    requires ReadParts(s, refCount, exotic, withHashes, mask, d2, index, count, refSize).Ok?
    ensures var (raw, rest) := ReadParts(s, refCount, exotic, withHashes, mask, d2, index, count, refSize).value;
      && s == (if raw.stored.Some? then raw.stored.value else [])
              + (Pack(raw.bits) + (IndexBytes(raw.refs, refSize) + rest))
      && |raw.refs| == refCount && raw.mask == mask && raw.stored.Some? == withHashes
      && (raw.kind.Ordinary? <==> !exotic) && BitsDescriptor(raw.bits) == d2
      && (raw.stored.Some? ==> |raw.stored.value| == 34 * (mask.Count() + 1))
  {
    hide TrailingZeros, Unpack, Pack, IndexBytes, TakeIndices, BitLen, BitsDescriptor;
    var (stored, s1) := TakeStored(s, withHashes, mask).value;
    var (data, s2) := Take(s1, d2 / 2 + d2 % 2).value;
    var (refs, rest) := TakeIndices(s2, refCount, refSize, index, count).value;
    DataSpells(d2, data);
    IndicesSpell(s2, refCount, refSize, index, count);
    var kind := Classify(exotic, data, mask, refCount).value;
    if withHashes { assert s == stored.value + s1; }
  }

  /**
    A record that is accepted is spelled by the cell read out of it, byte for byte: descriptors,
    the hashes it carried, the data completed in the one way, and references that point forward
    and inside the bag.
   */
  lemma {:induction false} ReadCellSpells(s: seq<byte>, index: nat, count: nat, refSize: nat)
    requires ReadCell(s, index, count, refSize).Ok?
    ensures var (raw, rest) := ReadCell(s, index, count, refSize).value;
      && FirstDescriptor(raw) < 256 && BitsDescriptor(raw.bits) < 256
      && s == [FirstDescriptor(raw), BitsDescriptor(raw.bits)] + (if raw.stored.Some? then raw.stored.value else [])
              + Pack(raw.bits) + IndexBytes(raw.refs, refSize) + rest
      && |raw.bits| <= 1023 && |raw.refs| <= 4
      && forall i :: 0 <= i < |raw.refs| ==> index < raw.refs[i] < count
  {
    hide ReadParts, IndexBytes, Pack, BitsDescriptor, FromBigEndian, MaskOf, BigEndian;
    UintSpells(s, 1);
    var (d1, s1) := TakeUint(s, 1).value;
    UintSpells(s1, 1);
    var (d2, s2) := TakeUint(s1, 1).value;
    assert s == [d1, d2] + s2;
    PartsSpell(s2, d1 % 8, d1 / 8 % 2 == 1, d1 / 16 % 2 == 1, MaskOf(d1 / 32), d2, index, count, refSize);
    DescriptorSplits(d1);
    PartsWithin(s2, d1 % 8, d1 / 8 % 2 == 1, d1 / 16 % 2 == 1, MaskOf(d1 / 32), d2, index, count, refSize);
    var (raw, rest) := ReadCell(s, index, count, refSize).value;
    var run := if raw.stored.Some? then raw.stored.value else [];
    hide FirstDescriptor;
    FiveParts([d1, d2], run, Pack(raw.bits), IndexBytes(raw.refs, refSize), rest);
  }

  lemma {:induction false} FiveParts(a: seq<byte>, b: seq<byte>, c: seq<byte>, d: seq<byte>, e: seq<byte>)
    ensures a + (b + (c + (d + e))) == a + b + c + d + e
  {}

  lemma {:induction false} PartsWithin(
      s: seq<byte>, refCount: nat, exotic: bool, withHashes: bool, mask: Mask, d2: nat, index: nat, count: nat,
      refSize: nat)
    requires ReadParts(s, refCount, exotic, withHashes, mask, d2, index, count, refSize).Ok?
    ensures var raw := ReadParts(s, refCount, exotic, withHashes, mask, d2, index, count, refSize).value.0;
      |raw.bits| <= 1023 && |raw.refs| <= 4 && forall i :: 0 <= i < |raw.refs| ==> index < raw.refs[i] < count
  {
    hide BitLen, Unpack, Classify, TakeStored;
  }

  /** An exotic cell has the references its kind has: none, one covered tree, or two. */
  lemma {:induction false} KindsHaveTheirReferences(s: seq<byte>, index: nat, count: nat, refSize: nat)
    requires ReadCell(s, index, count, refSize).Ok?
    ensures var raw := ReadCell(s, index, count, refSize).value.0;
      match raw.kind
      case Ordinary => |raw.refs| <= 4
      case PrunedBranch | LibraryReference => |raw.refs| == 0
      case MerkleProof => |raw.refs| == 1
      case MerkleUpdate => |raw.refs| == 2
  {
    hide BitLen, Unpack, TakeStored, TakeUint;
  }

  /** Hashes a record carries are believed only where they are the cell's own. */
  lemma {:induction false} CarriedHashesAreOwn(sha: Sha, raw: seq<RawCell>, i: nat)
    requires Forward(raw) && i < |raw| && BuiltAt(sha, raw, i).Ok? && BuiltAt(sha, raw, i).value.Some?
    ensures raw[i].stored.Some? ==> raw[i].stored.value == StoredRun(sha, BuiltAt(sha, raw, i).value.value)
  {
    hide StoredRun, Masked, HoldsStored, BuiltRefs;
  }

  // ---------------------------------------------------------------- the header

  /** What a header that was accepted says of itself. */
  ghost predicate Stated(h: BagHeader, flags: byte, offsetSize: byte, ceiling: nat, index: seq<byte>, rest: seq<byte>) {
    && h.refSize == flags % 8 && 1 <= h.refSize <= 4 && 1 <= offsetSize <= 8
    && h.count <= ceiling && 1 <= |h.rootList| <= ceiling
    && (forall i :: 0 <= i < |h.rootList| ==> h.rootList[i] < h.count)
    && h.hasIndex == (flags / 128 % 2 == 1) && h.hasChecksum == (flags / 64 % 2 == 1)
    && h.hasCacheBits == (flags / 32 % 2 == 1)
    && |index| == (if h.hasIndex then Times(h.count, offsetSize) else 0)
    && |rest| == h.area + (if h.hasChecksum then 4 else 0)
    && 2 * h.count <= Times(|h.rootList|, h.refSize) + |index| + |rest|
  }

  lemma {:induction false} ListsSpell(s: seq<byte>, flags: byte, offsetSize: byte, ceiling: nat, count: nat, roots: nat,
      absent: nat, area: nat) returns (index: seq<byte>)
    requires 1 <= flags % 8 <= 4 && 1 <= offsetSize <= 8
    requires ReadLists(s, flags, offsetSize, ceiling, count, roots, absent, area).Ok?
    ensures var (h, rest) := ReadLists(s, flags, offsetSize, ceiling, count, roots, absent, area).value;
      && absent == 0 && h.count == count && h.area == area && |h.rootList| == roots
      && Stated(h, flags, offsetSize, ceiling, index, rest)
      && s == IndexBytes(h.rootList, h.refSize) + index + rest
  {
    hide TakeIndices, IndexBytes, Times;
    var (rootList, s1) := TakeIndices(s, roots, flags % 8, -1, count).value;
    IndicesSpell(s, roots, flags % 8, -1, count);
    index := Take(s1, if flags / 128 % 2 == 1 then Times(count, offsetSize) else 0).value.0;
    IndexLength(rootList, flags % 8);
  }

  lemma {:induction false} IndexLength(list: seq<nat>, width: nat)
    ensures |IndexBytes(list, width)| == Times(|list|, width)
  {}

  /** The counts of a header, in its widths. */
  function CountBytes(h: BagHeader, offsetSize: byte): seq<byte> {
    BigEndian(h.count, h.refSize) + BigEndian(|h.rootList|, h.refSize) + BigEndian(0, h.refSize)
      + BigEndian(h.area, offsetSize)
  }

  lemma {:induction false} CountsSpell(s: seq<byte>, flags: byte, offsetSize: byte, ceiling: nat)
      returns (index: seq<byte>)
    requires 1 <= flags % 8 <= 4 && 1 <= offsetSize <= 8 && ReadCounts(s, flags, offsetSize, ceiling).Ok?
    ensures var (h, rest) := ReadCounts(s, flags, offsetSize, ceiling).value;
      && Stated(h, flags, offsetSize, ceiling, index, rest)
      && s == CountBytes(h, offsetSize) + (IndexBytes(h.rootList, h.refSize) + index + rest)
  {
    hide ReadLists, IndexBytes, BigEndian, TakeUint, Stated;
    var w := flags % 8;
    UintSpells(s, w);
    var (count, s2) := TakeUint(s, w).value;
    UintSpells(s2, w);
    var (roots, s3) := TakeUint(s2, w).value;
    UintSpells(s3, w);
    var (absent, s4) := TakeUint(s3, w).value;
    UintSpells(s4, offsetSize);
    var (area, s5) := TakeUint(s4, offsetSize).value;
    index := ListsSpell(s5, flags, offsetSize, ceiling, count, roots, absent, area);
    var (h, rest) := ReadLists(s5, flags, offsetSize, ceiling, count, roots, absent, area).value;
    StatedParts(h, flags, offsetSize, ceiling, index, rest);
    FiveParts(BigEndian(count, w), BigEndian(roots, w), BigEndian(absent, w), BigEndian(area, offsetSize), s5);
  }

  lemma {:induction false} StatedParts(h: BagHeader, flags: byte, offsetSize: byte, ceiling: nat, index: seq<byte>,
      rest: seq<byte>)
    requires Stated(h, flags, offsetSize, ceiling, index, rest)
    ensures h.refSize == flags % 8 && h.hasChecksum == (flags / 64 % 2 == 1)
  {}

  lemma {:induction false} MagicSpells(bytes: seq<byte>)
    requires |bytes| >= 6 && bytes[..4] == MAGIC
    ensures bytes == MAGIC + [bytes[4], bytes[5]] + bytes[6..]
  {}

  lemma {:induction false} ByteAhead(s: seq<byte>)
    requires TakeUint(s, 1).Ok?
    ensures |s| >= 1 && TakeUint(s, 1).value == (s[0] as int, s[1..])
  {
    OneByte(s[..1]);
  }

  lemma {:induction false} ChecksumHolds(bytes: seq<byte>)
    requires CheckCrc(bytes).Ok?
    ensures |bytes| >= 4 && bytes[|bytes| - 4..] == CrcTail(CrcUpdate(CRC_INIT, bytes[..|bytes| - 4]))
  {
    hide CrcTail, CrcUpdate;
  }

  /**
    A header that is accepted is spelled by what was read out of it, byte for byte but for an index
    nobody reads: the counts in the widths it states, the roots, and behind it exactly the cells it
    announces and a checksum that is the checksum of everything before.
   */
  lemma {:induction false} HeaderSpells(bytes: seq<byte>, ceiling: nat)
      returns (flags: byte, offsetSize: byte, index: seq<byte>)
    requires ReadHeader(bytes, ceiling).Ok?
    ensures var (h, rest) := ReadHeader(bytes, ceiling).value;
      && Stated(h, flags, offsetSize, ceiling, index, rest)
      && bytes == MAGIC + [flags, offsetSize]
           + (CountBytes(h, offsetSize) + (IndexBytes(h.rootList, h.refSize) + index + rest))
      && (h.hasChecksum ==>
            |bytes| >= 4 && bytes[|bytes| - 4..] == CrcTail(CrcUpdate(CRC_INIT, bytes[..|bytes| - 4])))
  {
    hide ReadCounts, CountBytes, IndexBytes, CrcTail, CrcUpdate, TakeUint, Stated, CheckCrc;
    ByteAhead(bytes[4..]);
    ByteAhead(bytes[4..][1..]);
    flags, offsetSize := bytes[4], bytes[5];
    assert bytes[4..][1..][1..] == bytes[6..];
    index := CountsSpell(bytes[6..], flags, offsetSize, ceiling);
    MagicSpells(bytes);
    var (h, rest) := ReadHeader(bytes, ceiling).value;
    StatedParts(h, flags, offsetSize, ceiling, index, rest);
    if h.hasChecksum { ChecksumHolds(bytes); }
  }

  // ---------------------------------------------------------------- the index

  lemma {:induction false} OffsetsGrow(sha: Sha, order: seq<Cell>, links: seq<seq<nat>>, refSize: nat, stored: bool,
      upTo: nat, k: nat)
    requires |links| == |order| && k < upTo <= |order|
    ensures Offsets(sha, order, links, refSize, stored, upTo)[k]
      == EndOf(Offsets(sha, order, links, refSize, stored, k + 1))
    ensures Offsets(sha, order, links, refSize, stored, upTo)[..k] == Offsets(sha, order, links, refSize, stored, k)
  {
    hide Record;
    if k < upTo - 1 {
      OffsetsGrow(sha, order, links, refSize, stored, upTo - 1, k);
      var rest := Offsets(sha, order, links, refSize, stored, upTo - 1);
      assert Offsets(sha, order, links, refSize, stored, upTo)[..k] == rest[..k];
    }
  }

  /** The cells from `k` on are what is left of the area past the end of the cell before. */
  lemma {:induction false} BodyPast(sha: Sha, order: seq<Cell>, links: seq<seq<nat>>, refSize: nat, stored: bool,
      k: nat)
    requires |links| == |order| && k <= |order|
    ensures var body, at := BodyFrom(sha, order, links, refSize, stored, 0),
        EndOf(Offsets(sha, order, links, refSize, stored, k));
      at <= |body| && body[at..] == BodyFrom(sha, order, links, refSize, stored, k)
    decreases k
  {
    hide Record;
    if k > 0 {
      BodyPast(sha, order, links, refSize, stored, k - 1);
      var body := BodyFrom(sha, order, links, refSize, stored, 0);
      var before := EndOf(Offsets(sha, order, links, refSize, stored, k - 1));
      var record := Record(sha, order[k - 1], links[k - 1], refSize, stored);
      assert body[before..] == record + BodyFrom(sha, order, links, refSize, stored, k);
      assert body[before + |record|..] == body[before..][|record|..];
    }
  }

  lemma {:induction false} EntryOfIndex(list: seq<nat>, width: nat, k: nat)
    requires k < |list|
    ensures Times(k, width) + width <= |IndexBytes(list, width)|
    ensures IndexBytes(list, width)[Times(k, width)..Times(k, width) + width] == BigEndian(list[k], width)
  {
    hide BigEndian;
    var last := |list| - 1;
    IndexBytesStep(list, width);
    var front := IndexBytes(list[..last], width);
    if k < last {
      EntryOfIndex(list[..last], width, k);
      assert IndexBytes(list, width)[Times(k, width)..Times(k, width) + width]
        == front[Times(k, width)..Times(k, width) + width];
    }
  }

  /** Entry `k` of an index of `n` entries that ends some bytes. */
  function IndexEntry(opening: seq<byte>, n: nat, width: nat, k: nat): seq<byte> {
    var at := |opening| - Times(n, width) + Times(k, width);
    if 0 <= at <= at + width <= |opening| then opening[at..at + width] else []
  }

  lemma {:induction false} IndexAtEnd(front: seq<byte>, list: seq<nat>, width: nat, k: nat)
    requires k < |list|
    ensures IndexEntry(front + IndexBytes(list, width), |list|, width, k) == BigEndian(list[k], width)
  {
    hide BigEndian, Times, IndexBytes;
    var index := IndexBytes(list, width);
    IndexLength(list, width);
    EntryOfIndex(list, width, k);
    var at := |front| + Times(k, width);
    assert (front + index)[at..at + width] == index[Times(k, width)..Times(k, width) + width];
  }

  /**
    An index points at the cells: entry `k`, read out of the bytes written, is where cell `k` ends
    in the area, and the bytes from where the one before ends up to there are its record.
   */
  lemma {:induction false} IndexFindsCells(sha: Sha, plan: Plan, options: BocOptions, k: nat)
    requires plan.Valid() && options.index && k < |plan.order|
    ensures var body, n, stored := Body(sha, plan, options), |plan.order|, options.storedHashes;
      var end := FromBigEndian(IndexEntry(Opening(sha, plan, options), n, ByteWidth(|body|), k));
      var start := EndOf(Offsets(sha, plan.order, plan.links, ByteWidth(n), stored, k));
      && (k > 0 ==> start == FromBigEndian(IndexEntry(Opening(sha, plan, options), n, ByteWidth(|body|), k - 1)))
      && (k == 0 ==> start == 0) && start <= end <= |body|
      && body[start..end] == Record(sha, plan.order[k], plan.links[k], ByteWidth(n), stored)
  {
    hide Record, Opening, Offsets, BodyFrom, ByteWidth, FromBigEndian, IndexEntry, EndOf;
    EntryIsEnd(sha, plan, options, k);
    if k > 0 { EntryIsEnd(sha, plan, options, k - 1); }
    RecordHere(sha, plan.order, plan.links, ByteWidth(|plan.order|), options.storedHashes, k);
    NoOffsets(sha, plan.order, plan.links, ByteWidth(|plan.order|), options.storedHashes);
  }

  lemma {:induction false} NoOffsets(sha: Sha, order: seq<Cell>, links: seq<seq<nat>>, refSize: nat, stored: bool)
    requires |links| == |order|
    ensures EndOf(Offsets(sha, order, links, refSize, stored, 0)) == 0
  {}

  lemma {:induction false} EntryIsEnd(sha: Sha, plan: Plan, options: BocOptions, k: nat)
    requires plan.Valid() && options.index && k < |plan.order|
    ensures FromBigEndian(
        IndexEntry(Opening(sha, plan, options), |plan.order|, ByteWidth(|Body(sha, plan, options)|), k))
      == EndOf(Offsets(sha, plan.order, plan.links, ByteWidth(|plan.order|), options.storedHashes, k + 1))
  {
    hide Record, BigEndian, FromBigEndian, ByteWidth, BodyFrom, Offsets, IndexBytes, IndexEntry, EndOf;
    var n, refSize, stored := |plan.order|, ByteWidth(|plan.order|), options.storedHashes;
    var body, w := Body(sha, plan, options), ByteWidth(|Body(sha, plan, options)|);
    var offsets := Offsets(sha, plan.order, plan.links, refSize, stored, n);
    OffsetsGrow(sha, plan.order, plan.links, refSize, stored, n, k);
    BodyPast(sha, plan.order, plan.links, refSize, stored, k + 1);
    EndsWithIndex(sha, plan, options);
    var opening := Opening(sha, plan, options);
    var front := opening[..|opening| - |IndexBytes(offsets, w)|];
    assert opening == front + IndexBytes(offsets, w);
    IndexAtEnd(front, offsets, w, k);
    assert offsets[k] <= |body| < Pow256(w);
    ReadsBack(offsets[k], w);
  }

  lemma {:induction false} EndsWithIndex(sha: Sha, plan: Plan, options: BocOptions)
    requires plan.Valid() && options.index
    ensures var opening, w := Opening(sha, plan, options), ByteWidth(|Body(sha, plan, options)|);
      var index := IndexBytes(
        Offsets(sha, plan.order, plan.links, ByteWidth(|plan.order|), options.storedHashes, |plan.order|), w);
      |index| <= |opening| && opening[|opening| - |index|..] == index
  {
    hide Body, Offsets, IndexBytes, BigEndian, ByteWidth, Flags;
  }

  lemma {:induction false} RecordHere(sha: Sha, order: seq<Cell>, links: seq<seq<nat>>, refSize: nat, stored: bool,
      k: nat)
    requires |links| == |order| && k < |order|
    ensures var body := BodyFrom(sha, order, links, refSize, stored, 0);
      var start, end := EndOf(Offsets(sha, order, links, refSize, stored, k)),
        EndOf(Offsets(sha, order, links, refSize, stored, k + 1));
      start <= end <= |body| && body[start..end] == Record(sha, order[k], links[k], refSize, stored)
  {
    hide Record;
    BodyPast(sha, order, links, refSize, stored, k);
    BodyPast(sha, order, links, refSize, stored, k + 1);
    var body := BodyFrom(sha, order, links, refSize, stored, 0);
    var start := EndOf(Offsets(sha, order, links, refSize, stored, k));
    var record := Record(sha, order[k], links[k], refSize, stored);
    assert body[start..] == record + BodyFrom(sha, order, links, refSize, stored, k + 1);
    assert body[start..start + |record|] == body[start..][..|record|];
  }
}

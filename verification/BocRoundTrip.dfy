module BocRoundTrip {
  // What is written is read back: a bag of cells, under any options, is the roots it was made from,
  // and whatever a bag reads as is well made.

  import opened Basics
  import opened Cells
  import opened Packing
  import opened Hashing
  import opened Topology
  import opened BocBytes
  import opened BocWrite
  import opened BocRead

  // ---------------------------------------------------------------- data and its completion mark

  lemma {:induction false} UnpackPack(bits: Bits)
    ensures Unpack(Pack(bits)) == Padded(bits)
  {
    hide ToBits, Padded, ByteOf;
    var p, data := Padded(bits), Pack(bits);
    forall k | 0 <= k < |p| ensures Unpack(data)[k] == p[k] {
      var i := k / 8;
      ByteIsBits(p[8 * i..8 * i + 8]);
      UnpackedByte(data, i);
      assert Unpack(data)[8 * i..8 * i + 8][k - 8 * i] == p[8 * i..8 * i + 8][k - 8 * i];
    }
  }

  lemma {:induction false} ByteIsBits(s: Bits)
    requires |s| == 8
    ensures ToBits(ByteOf(s), 8) == s
  {
    BitsOfValue(s);
  }

  lemma {:induction false} ZerosOfDouble(v: nat)
    requires v > 0
    ensures TrailingZeros(2 * v) == 1 + TrailingZeros(v)
  {}

  lemma {:induction false} ZerosOfMarked(s: Bits, k: nat)
    ensures Value(s + [true] + Repeat(false, k)) > 0
    ensures TrailingZeros(Value(s + [true] + Repeat(false, k))) == k
  {
    hide TrailingZeros;
    var all := s + [true] + Repeat(false, k);
    if k == 0 {
      assert all == s + [true] && all[..|all| - 1] == s;
      OddHasNone(Value(all));
    } else {
      assert all[..|all| - 1] == s + [true] + Repeat(false, k - 1) && !all[|all| - 1];
      ZerosOfMarked(s, k - 1);
      ZerosOfDouble(Value(s + [true] + Repeat(false, k - 1)));
    }
  }

  lemma {:induction false} OddHasNone(v: nat)
    requires v % 2 == 1
    ensures TrailingZeros(v) == 0
  {}

  /** A cell's descriptor and data give its bits back. */
  lemma {:induction false} DataReadsBack(bits: Bits)
    requires |bits| <= MAX_BITS
    ensures var d2, data := BitsDescriptor(bits), Pack(bits);
      d2 < 256 && |data| == d2 / 2 + d2 % 2 && BitLen(d2, data) == Ok(|bits|) && Unpack(data)[..|bits|] == bits
  {
    hide TrailingZeros, Value;
    var data, n := Pack(bits), |bits|;
    UnpackPack(bits);
    if n % 8 != 0 {
      var last := |data| - 1;
      var tail := bits[8 * last..];
      assert Padded(bits)[8 * last..8 * last + 8] == tail + [true] + Repeat(false, 7 - n % 8);
      ZerosOfMarked(tail, 7 - n % 8);
      assert data[last] == Value(tail + [true] + Repeat(false, 7 - n % 8));
    }
  }

  // ---------------------------------------------------------------- records

  lemma {:induction false} TakeFront(a: seq<byte>, rest: seq<byte>)
    ensures Take(a + rest, |a|) == Ok((a, rest))
  {
    assert (a + rest)[..|a|] == a && (a + rest)[|a|..] == rest;
  }

  lemma {:induction false} TakeByte(b: byte, rest: seq<byte>)
    ensures TakeUint([b] + rest, 1) == Ok((b, rest))
  {
    TakeFront([b], rest);
    assert [b][..0] == [];
  }

  lemma {:induction false} TakeNumber(x: nat, width: nat, rest: seq<byte>)
    ensures TakeUint(BigEndian(x, width) + rest, width) == Ok((x % Pow256(width), rest))
    ensures x < Pow256(width) ==> x % Pow256(width) == x
  {
    hide Take;
    TakeFront(BigEndian(x, width), rest);
    ReadsLowBytes(x, width);
    if x < Pow256(width) { ReadsBack(x, width); }
  }

  lemma {:induction false} IndexBytesStep(indices: seq<nat>, width: nat)
    requires indices != []
    ensures IndexBytes(indices, width)
      == IndexBytes(indices[..|indices| - 1], width) + BigEndian(indices[|indices| - 1], width)
  {}

  lemma {:induction false} IndexBytesFront(x: nat, more: seq<nat>, width: nat)
    ensures IndexBytes([x] + more, width) == BigEndian(x, width) + IndexBytes(more, width)
  {
    hide BigEndian;
    if more == [] {
      assert [x] + more == [x] && [x][..0] == [];
      assert IndexBytes([x], width) == [] + BigEndian(x, width);
    } else {
      var init, last := more[..|more| - 1], more[|more| - 1];
      assert ([x] + more)[..|more|] == [x] + init && ([x] + more)[|more|] == last;
      IndexBytesFront(x, init, width);
      IndexBytesStep([x] + more, width);
      IndexBytesStep(more, width);
      Onward(BigEndian(x, width), IndexBytes(init, width), BigEndian(last, width));
    }
  }

  lemma {:induction false} IndicesReadBack(indices: seq<nat>, width: nat, low: int, count: nat, rest: seq<byte>)
    requires forall i :: 0 <= i < |indices| ==> low < indices[i] < count && indices[i] < Pow256(width)
    ensures TakeIndices(IndexBytes(indices, width) + rest, |indices|, width, low, count) == Ok((indices, rest))
  {
    if indices == [] {
      assert IndexBytes(indices, width) + rest == rest;
    } else {
      hide TakeUint, IndexBytes, BigEndian;
      var x, more := indices[0], indices[1..];
      assert indices == [x] + more;
      IndexBytesFront(x, more, width);
      assert BigEndian(x, width) + IndexBytes(more, width) + rest
        == BigEndian(x, width) + (IndexBytes(more, width) + rest);
      TakeNumber(x, width, IndexBytes(more, width) + rest);
      IndicesReadBack(more, width, low, count, rest);
    }
  }

  /** What a cell's record reads as. */
  function RawOf(sha: Sha, c: Cell, indices: seq<nat>, stored: bool): RawCell {
    RawCell(c.bits, indices, c.kind, c.mask, if stored then Some(StoredRun(sha, c)) else None)
  }

  lemma {:induction false} KindReadsBack(c: Cell)
    requires Classified(c)
    ensures Classify(c.IsExotic(), Pack(c.bits), c.mask, |c.refs|) == Ok(c.kind)
  {
    hide Pack;
  }

  lemma {:induction false} MaskReadsBack(mask: Mask)
    ensures MaskOf(mask.Byte()) == mask
  {}

  /** The first descriptor, taken apart again. */
  lemma {:induction false} DescriptorReadsBack(refs: nat, exotic: bool, mask: Mask, stored: bool)
    requires refs <= MAX_REFS
    ensures var d1 := refs + (if exotic then 8 else 0) + 32 * mask.Byte() + (if stored then WITH_HASHES else 0);
      && d1 < 256 && d1 % 8 == refs && (d1 / 8 % 2 == 1) == exotic && (d1 / 16 % 2 == 1) == stored
      && d1 / 32 == mask.Byte()
  {
    hide Mask.Byte;
  }

  lemma {:induction false} StoredReadsBack(sha: Sha, c: Cell, stored: bool, rest: seq<byte>)
    ensures TakeStored((if stored then StoredRun(sha, c) else []) + rest, stored, c.mask) ==
      Ok((if stored then Some(StoredRun(sha, c)) else None, rest))
  {
    hide StoredRun, Take;
    if stored { TakeFront(StoredRun(sha, c), rest); } else { assert [] + rest == rest; }
  }

  lemma {:induction false} RecordLayout(sha: Sha, c: Cell, indices: seq<nat>, width: nat, stored: bool, rest: seq<byte>)
    ensures var d := Descriptors(c, stored);
      Record(sha, c, indices, width, stored) + rest == [d[0]] + ([d[1]] +
        ((if stored then StoredRun(sha, c) else []) + (Pack(c.bits) + (IndexBytes(indices, width) + rest))))
  {
    hide Descriptors, StoredRun, Pack, IndexBytes;
    var d := Descriptors(c, stored);
    assert d == [d[0]] + [d[1]];
  }

  lemma {:induction false} PartsReadBack(sha: Sha, c: Cell, indices: seq<nat>, width: nat, stored: bool, index: nat,
      count: nat, rest: seq<byte>)
    requires Fits(c) && Classified(c) && |indices| == |c.refs|
    requires forall k :: 0 <= k < |indices| ==> index < indices[k] < count && indices[k] < Pow256(width)
    ensures ReadParts((if stored then StoredRun(sha, c) else []) + (Pack(c.bits) + (IndexBytes(indices, width) + rest)),
        |c.refs|, c.IsExotic(), stored, c.mask, BitsDescriptor(c.bits), index, count, width)
      == Ok((RawOf(sha, c, indices, stored), rest))
  {
    hide Take, TakeIndices, TakeStored, BitLen, Classify, Pack, Unpack, StoredRun, IndexBytes, BitsDescriptor;
    var s3 := IndexBytes(indices, width) + rest;
    var s2 := Pack(c.bits) + s3;
    DataReadsBack(c.bits);
    StoredReadsBack(sha, c, stored, s2);
    TakeFront(Pack(c.bits), s3);
    KindReadsBack(c);
    IndicesReadBack(indices, width, index, count, rest);
  }

  lemma {:induction false} DescriptorsReadBack(c: Cell, stored: bool)
    requires Fits(c)
    ensures var d := Descriptors(c, stored);
      && d[0] % 8 == |c.refs| && (d[0] / 8 % 2 == 1) == c.IsExotic() && (d[0] / 16 % 2 == 1) == stored
      && MaskOf(d[0] / 32) == c.mask && d[1] == BitsDescriptor(c.bits)
  {
    hide Mask.Byte, MaskOf;
    DescriptorReadsBack(|c.refs|, c.IsExotic(), c.mask, stored);
    MaskReadsBack(c.mask);
  }

  /** A record read back, whatever follows it. */
  lemma {:induction false} RecordReadsBack(sha: Sha, c: Cell, indices: seq<nat>, width: nat, stored: bool, index: nat,
      count: nat, rest: seq<byte>)
    requires Fits(c) && Classified(c) && |indices| == |c.refs|
    requires forall k :: 0 <= k < |indices| ==> index < indices[k] < count && indices[k] < Pow256(width)
    ensures ReadCell(Record(sha, c, indices, width, stored) + rest, index, count, width)
      == Ok((RawOf(sha, c, indices, stored), rest))
  {
    hide TakeUint, Pack, StoredRun, IndexBytes, Record, Descriptors, ReadParts, Classified, MaskOf, BitsDescriptor;
    var d := Descriptors(c, stored);
    var s1 := (if stored then StoredRun(sha, c) else []) + (Pack(c.bits) + (IndexBytes(indices, width) + rest));
    RecordLayout(sha, c, indices, width, stored, rest);
    DescriptorsReadBack(c, stored);
    TakeByte(d[0], [d[1]] + s1);
    TakeByte(d[1], s1);
    PartsReadBack(sha, c, indices, width, stored, index, count, rest);
  }

  // ---------------------------------------------------------------- the cell area

  /** An order whose cells are well made and whose links are the forward positions of references. */
  ghost predicate Linked(order: seq<Cell>, links: seq<seq<nat>>) {
    && |links| == |order|
    && (forall i :: 0 <= i < |order| ==> Sound(order[i]) && |links[i]| == |order[i].refs|)
    && (forall i, k :: 0 <= i < |order| && 0 <= k < |links[i]| ==>
          i < links[i][k] < |order| && order[links[i][k]] == order[i].refs[k])
  }

  ghost function RawFrom(sha: Sha, order: seq<Cell>, links: seq<seq<nat>>, stored: bool, k: nat): (r: seq<RawCell>)
    requires |links| == |order| && k <= |order|
    ensures |r| == |order| - k && forall i :: 0 <= i < |r| ==> r[i] == RawOf(sha, order[k + i], links[k + i], stored)
    decreases |order| - k
  {
    if k == |order| then [] else [RawOf(sha, order[k], links[k], stored)] + RawFrom(sha, order, links, stored, k + 1)
  }

  lemma {:induction false} CellsReadBack(
      sha: Sha, order: seq<Cell>, links: seq<seq<nat>>, width: nat, stored: bool, k: nat, rest: seq<byte>)
    requires Linked(order, links) && k <= |order| && |order| <= Pow256(width)
    ensures ReadCells(BodyFrom(sha, order, links, width, stored, k) + rest, k, |order|, width)
      == Ok(RawFrom(sha, order, links, stored, k))
    decreases |order| - k
  {
    hide Record, ReadCell, RawOf, Fits, Classified, Masked;
    if k < |order| {
      var after := BodyFrom(sha, order, links, width, stored, k + 1) + rest;
      assert BodyFrom(sha, order, links, width, stored, k) + rest
        == Record(sha, order[k], links[k], width, stored) + after;
      RecordReadsBack(sha, order[k], links[k], width, stored, k, |order|, after);
      CellsReadBack(sha, order, links, width, stored, k + 1, rest);
    }
  }

  // ---------------------------------------------------------------- the graph

  lemma {:induction false} RawIsForward(sha: Sha, order: seq<Cell>, links: seq<seq<nat>>, stored: bool)
    requires Linked(order, links)
    ensures Forward(RawFrom(sha, order, links, stored, 0))
  {
    hide Sound;
  }

  lemma {:induction false} BuildsBack(sha: Sha, order: seq<Cell>, links: seq<seq<nat>>, stored: bool, i: nat)
    requires Linked(order, links) && i < |order| && Forward(RawFrom(sha, order, links, stored, 0))
    ensures BuiltAt(sha, RawFrom(sha, order, links, stored, 0), i) == Ok(Some(order[i]))
    decreases |order| - i, 1
  {
    hide Assemble, Sound, BuiltAt;
    var raw := RawFrom(sha, order, links, stored, 0);
    assert raw[i] == RawOf(sha, order[i], links[i], stored);
    RefsBuildBack(sha, order, links, stored, i, |links[i]|);
    assert order[i].refs[..|links[i]|] == order[i].refs;
    AssemblesBack(sha, order[i], links[i], stored);
    BuiltUnfolds(sha, raw, i);
  }

  lemma {:induction false} RefsBuildBack(sha: Sha, order: seq<Cell>, links: seq<seq<nat>>, stored: bool, i: nat, n: nat)
    requires Linked(order, links) && i < |order| && n <= |links[i]| && Forward(RawFrom(sha, order, links, stored, 0))
    ensures RawFrom(sha, order, links, stored, 0)[i].refs == links[i]
    ensures BuiltRefs(sha, RawFrom(sha, order, links, stored, 0), i, n) == Some(order[i].refs[..n])
    decreases |order| - i, 0, n
  {
    hide Assemble, Sound, BuiltAt;
    var raw := RawFrom(sha, order, links, stored, 0);
    assert raw[i] == RawOf(sha, order[i], links[i], stored);
    if n > 0 {
      RefsBuildBack(sha, order, links, stored, i, n - 1);
      BuildsBack(sha, order, links, stored, links[i][n - 1]);
      assert order[i].refs[..n] == order[i].refs[..n - 1] + [order[i].refs[n - 1]];
    }
  }

  lemma {:induction false} AssemblesBack(sha: Sha, c: Cell, indices: seq<nat>, stored: bool)
    requires Sound(c)
    ensures BocRead.Assemble(sha, RawOf(sha, c, indices, stored), c.refs) == Ok(c)
  {
    hide StoredRun, Pack;
    assert c == Cell(c.kind, c.bits, c.refs, c.mask);
  }

  lemma {:induction false} SameHeight(sha: Sha, order: seq<Cell>, links: seq<seq<nat>>, stored: bool, i: nat)
    requires Linked(order, links) && i < |order| && Forward(RawFrom(sha, order, links, stored, 0))
    ensures RawHeight(RawFrom(sha, order, links, stored, 0), i) == HeightOf(order[i])
    decreases |order| - i
  {
    hide Sound, RawOf, Tallest;
    var raw := RawFrom(sha, order, links, stored, 0);
    RefsBuildBack(sha, order, links, stored, i, 0);
    var a := seq(|raw[i].refs|, k requires 0 <= k < |raw[i].refs| => RawHeight(raw, raw[i].refs[k]));
    var b := seq(|order[i].refs|, k requires 0 <= k < |order[i].refs| => HeightOf(order[i].refs[k]));
    forall k | 0 <= k < |a| ensures a[k] == b[k] { SameHeight(sha, order, links, stored, links[i][k]); }
    assert a == b;
    HeightUnfolds(order[i], b);
    RawHeightUnfolds(raw, i, a);
  }

  lemma {:induction false} HeightUnfolds(c: Cell, below: seq<nat>)
    requires |below| == |c.refs| && forall k :: 0 <= k < |below| ==> below[k] == HeightOf(c.refs[k])
    ensures HeightOf(c) == Tallest(below)
  {
    assert below == seq(|c.refs|, i requires 0 <= i < |c.refs| => HeightOf(c.refs[i]));
  }

  lemma {:induction false} RawHeightUnfolds(raw: seq<RawCell>, i: nat, below: seq<nat>)
    requires Forward(raw) && i < |raw| && |below| == |raw[i].refs|
    requires forall k :: 0 <= k < |below| ==> below[k] == RawHeight(raw, raw[i].refs[k])
    ensures RawHeight(raw, i) == Tallest(below)
  {
    assert below == seq(|raw[i].refs|, k requires 0 <= k < |raw[i].refs| => RawHeight(raw, raw[i].refs[k]));
  }

  lemma {:induction false} RootsReadBack(sha: Sha, order: seq<Cell>, links: seq<seq<nat>>, stored: bool, list: seq<nat>,
      roots: seq<Cell>)
    requires Linked(order, links) && Forward(RawFrom(sha, order, links, stored, 0)) && |list| == |roots|
    requires forall i :: 0 <= i < |list| ==> list[i] < |order| && order[list[i]] == roots[i]
    ensures RootsOf(sha, RawFrom(sha, order, links, stored, 0), list) == Ok(roots)
  {
    hide Linked, BuiltAt, RawFrom, Forward;
    if list != [] {
      var n := |list| - 1;
      RootsReadBack(sha, order, links, stored, list[..n], roots[..n]);
      BuildsBack(sha, order, links, stored, list[n]);
      assert roots == roots[..n] + [roots[n]];
    }
  }

  /** Built from its own records a graph is itself, unless some cell of it is too deep to build. */
  lemma {:induction false} GraphReadsBack(sha: Sha, order: seq<Cell>, links: seq<seq<nat>>, stored: bool,
      list: seq<nat>, roots: seq<Cell>)
    requires Linked(order, links) && |list| == |roots|
    requires forall i :: 0 <= i < |list| ==> list[i] < |order| && order[list[i]] == roots[i]
    ensures Forward(RawFrom(sha, order, links, stored, 0))
    ensures Finish(sha, RawFrom(sha, order, links, stored, 0), list) ==
      if exists i :: 0 <= i < |order| && HeightOf(order[i]) > MAX_DEPTH then Err(TooDeep) else Ok(roots)
  {
    hide HeightOf, BuiltAt, RawHeight, RawOf, Sound;
    RawIsForward(sha, order, links, stored);
    var raw := RawFrom(sha, order, links, stored, 0);
    forall i | 0 <= i < |order| ensures RawHeight(raw, i) == HeightOf(order[i]) {
      SameHeight(sha, order, links, stored, i);
    }
    forall i | 0 <= i < |order| ensures BuiltAt(sha, raw, i).Ok? { BuildsBack(sha, order, links, stored, i); }
    NoneRefused(sha, raw, 0);
    RootsReadBack(sha, order, links, stored, list, roots);
  }

  // ---------------------------------------------------------------- the header

  lemma {:induction false} BodyBounds(sha: Sha, order: seq<Cell>, links: seq<seq<nat>>, width: nat, stored: bool,
      k: nat)
    requires Linked(order, links) && k <= |order| && width <= 3
    ensures 2 * (|order| - k) <= |BodyFrom(sha, order, links, width, stored, k)| <= 300 * (|order| - k)
    decreases |order| - k
  {
    hide Record, Classified, Masked;
    if k < |order| {
      BodyBounds(sha, order, links, width, stored, k + 1);
      assert |links[k]| <= 4;
      assert |links[k]| * width <= 12;
    }
  }

  lemma {:induction false} Widths(count: nat, area: nat)
    requires count <= MAX_CELLS && area <= 300 * MAX_CELLS
    ensures ByteWidth(count) <= 3 && ByteWidth(area) <= 4
  {
    assert Pow256(3) == 0x100_0000 && Pow256(4) == 0x1_0000_0000;
    WidthWithin(count, 3);
    WidthWithin(area, 4);
  }

  lemma {:induction false} FlagsReadBack(refSize: nat, options: BocOptions)
    requires 1 <= refSize <= 3
    ensures var f := Flags(refSize, options);
      && f % 8 == refSize && (f / 128 % 2 == 1) == options.index && (f / 64 % 2 == 1) == options.crc32c
      && f / 32 % 2 == 0
  {}

  /** The four numbers, whatever follows: the root count comes back cut to the reference width. */
  lemma {:induction false} CountsReadBack(count: nat, roots: nat, area: nat, flags: nat, offsetSize: nat, ceiling: nat,
      t: seq<byte>)
    requires count < Pow256(flags % 8) && area < Pow256(offsetSize)
    ensures var w := flags % 8;
      ReadCounts(BigEndian(count, w) + (BigEndian(roots, w) + (BigEndian(0, w) + (BigEndian(area, offsetSize) + t))),
        flags, offsetSize, ceiling)
      == ReadLists(t, flags, offsetSize, ceiling, count, roots % Pow256(w), 0, area)
  {
    hide TakeUint, BigEndian, ReadLists;
    var w := flags % 8;
    var s3 := BigEndian(area, offsetSize) + t;
    var s2 := BigEndian(0, w) + s3;
    var s1 := BigEndian(roots, w) + s2;
    TakeNumber(count, w, s1);
    TakeNumber(roots, w, s2);
    TakeNumber(0, w, s3);
    TakeNumber(area, offsetSize, t);
  }

  lemma {:induction false} CrcChecks(bytes: seq<byte>)
    ensures CheckCrc(Sealed(bytes, true)) == Ok(())
  {
    hide CrcUpdate, CrcTail;
    var tail := CrcTail(CrcUpdate(CRC_INIT, bytes));
    assert (bytes + tail)[..|bytes + tail| - 4] == bytes && (bytes + tail)[|bytes + tail| - 4..] == tail;
  }

  /** The rest of a bag, past its four numbers. */
  function Lists(sha: Sha, plan: Plan, options: BocOptions): seq<byte>
    requires plan.Valid()
  {
    IndexBytes(plan.rootList, ByteWidth(|plan.order|))
      + (IndexRun(sha, plan, options) + (Body(sha, plan, options) + Seal(sha, plan, options)))
  }

  function IndexRun(sha: Sha, plan: Plan, options: BocOptions): (r: seq<byte>)
    requires plan.Valid()
    ensures |r| == if options.index then Times(|plan.order|, ByteWidth(|Body(sha, plan, options)|)) else 0
  {
    if options.index then
      IndexBytes(Offsets(sha, plan.order, plan.links, ByteWidth(|plan.order|), options.storedHashes, |plan.order|),
        ByteWidth(|Body(sha, plan, options)|))
    else []
  }

  function Seal(sha: Sha, plan: Plan, options: BocOptions): (r: seq<byte>)
    requires plan.Valid()
    ensures |r| == if options.crc32c then 4 else 0
  {
    if options.crc32c then CrcTail(CrcUpdate(CRC_INIT, Opening(sha, plan, options) + Body(sha, plan, options))) else []
  }

  ghost function Bag(sha: Sha, plan: Plan, options: BocOptions): seq<byte>
    requires plan.Valid()
  {
    Sealed(Opening(sha, plan, options) + Body(sha, plan, options), options.crc32c)
  }

  lemma {:induction false} OpeningLayout(sha: Sha, plan: Plan, options: BocOptions)
    requires plan.Valid()
    ensures var w, o := ByteWidth(|plan.order|), ByteWidth(|Body(sha, plan, options)|);
      Opening(sha, plan, options) == MAGIC + ([Flags(w, options)] + [o % 256]) + BigEndian(|plan.order|, w)
        + BigEndian(|plan.rootList|, w) + BigEndian(0, w) + BigEndian(|Body(sha, plan, options)|, o)
        + IndexBytes(plan.rootList, w) + IndexRun(sha, plan, options)
  {
    hide Body, IndexBytes, BigEndian, ByteWidth, Offsets, Flags;
    var w, o := ByteWidth(|plan.order|), ByteWidth(|Body(sha, plan, options)|);
    assert [Flags(w, options), o % 256] == [Flags(w, options)] + [o % 256];
  }

  lemma {:induction false} BagLayout(sha: Sha, plan: Plan, options: BocOptions)
    requires plan.Valid()
    ensures var w, o := ByteWidth(|plan.order|), ByteWidth(|Body(sha, plan, options)|);
      Bag(sha, plan, options) == MAGIC + ([Flags(w, options)] + ([o % 256] +
        (BigEndian(|plan.order|, w) + (BigEndian(|plan.rootList|, w) + (BigEndian(0, w)
          + (BigEndian(|Body(sha, plan, options)|, o) + Lists(sha, plan, options)))))))
  {
    hide Body, IndexBytes, BigEndian, CrcUpdate, CrcTail, ByteWidth, Flags, Opening, IndexRun, Seal;
    var w, o := ByteWidth(|plan.order|), ByteWidth(|Body(sha, plan, options)|);
    var body := Body(sha, plan, options);
    OpeningLayout(sha, plan, options);
    BagIsSealed(sha, plan, options);
    Regrouped(MAGIC, [Flags(w, options)], [o % 256], BigEndian(|plan.order|, w), BigEndian(|plan.rootList|, w),
      BigEndian(0, w), BigEndian(|body|, o), IndexBytes(plan.rootList, w), IndexRun(sha, plan, options), body,
        Seal(sha, plan, options));
  }

  lemma {:induction false} BagIsSealed(sha: Sha, plan: Plan, options: BocOptions)
    requires plan.Valid()
    ensures Bag(sha, plan, options) == Opening(sha, plan, options) + Body(sha, plan, options) + Seal(sha, plan, options)
  {
    hide Body, Opening, CrcUpdate, CrcTail;
    var all := Opening(sha, plan, options) + Body(sha, plan, options);
    assert all + [] == all;
  }

  lemma {:induction false} Regrouped(
      m: seq<byte>, f: seq<byte>, o: seq<byte>, c: seq<byte>, r: seq<byte>, z: seq<byte>, a: seq<byte>,
      list: seq<byte>, run: seq<byte>, body: seq<byte>, seal: seq<byte>)
    ensures m + (f + o) + c + r + z + a + list + run + body + seal
      == m + (f + (o + (c + (r + (z + (a + (list + (run + (body + seal)))))))))
  {}

  /** A bag's own bytes past the size bytes decide what its header reads as. */
  lemma {:induction false} HeaderDecides(sha: Sha, plan: Plan, options: BocOptions)
    requires plan.Valid() && Linked(plan.order, plan.links) && 1 <= |plan.order| <= MAX_CELLS
    ensures var w, o, area := ByteWidth(|plan.order|), ByteWidth(|Body(sha, plan, options)|),
      |Body(sha, plan, options)|;
      && w <= 3 && o <= 4 && 2 * |plan.order| <= area
      && ReadHeader(Bag(sha, plan, options), MAX_CELLS) ==
         ReadLists(Lists(sha, plan, options), Flags(w, options), o, MAX_CELLS, |plan.order|,
           |plan.rootList| % Pow256(w), 0, area)
  {
    hide Body, ReadLists, ReadCounts, Lists, Take, TakeUint, BigEndian, Flags, Linked, CheckCrc, Sealed, Opening,
      Pow256;
    var body := Body(sha, plan, options);
    var w, o := ByteWidth(|plan.order|), ByteWidth(|body|);
    AreaBounds(sha, plan, options);
    Widths(|plan.order|, |body|);
    FlagsReadBack(w, options);
    BagLayout(sha, plan, options);
    var s3 := BigEndian(|plan.order|, w) + (BigEndian(|plan.rootList|, w)
      + (BigEndian(0, w) + (BigEndian(|body|, o) + Lists(sha, plan, options))));
    var s2 := [o] + s3;
    var s1 := [Flags(w, options)] + s2;
    TakeFront(MAGIC, s1);
    TakeByte(Flags(w, options), s2);
    TakeByte(o, s3);
    if options.crc32c { CrcChecks(Opening(sha, plan, options) + body); }
    CountsReadBack(|plan.order|, |plan.rootList|, |body|, Flags(w, options), o, MAX_CELLS, Lists(sha, plan, options));
  }

  lemma {:induction false} AreaBounds(sha: Sha, plan: Plan, options: BocOptions)
    requires plan.Valid() && Linked(plan.order, plan.links) && 1 <= |plan.order| <= MAX_CELLS
    ensures 2 * |plan.order| <= |Body(sha, plan, options)| <= 300 * MAX_CELLS
  {
    hide Linked;
    assert Pow256(3) == 0x100_0000;
    WidthWithin(|plan.order|, 3);
    BodyBounds(sha, plan.order, plan.links, ByteWidth(|plan.order|), options.storedHashes, 0);
  }

  // ---------------------------------------------------------------- whole bags

  /** The lists a bag announces, read back when its root count fits what it was written in. */
  lemma {:induction false} ListsReadBack(sha: Sha, plan: Plan, options: BocOptions)
    requires plan.Valid() && Linked(plan.order, plan.links) && 1 <= |plan.order| <= MAX_CELLS
    requires 1 <= |plan.rootList| <= MAX_CELLS && forall i :: 0 <= i < |plan.rootList| ==>
      plan.rootList[i] < |plan.order|
    ensures var w, o, area := ByteWidth(|plan.order|), ByteWidth(|Body(sha, plan, options)|),
      |Body(sha, plan, options)|;
      ReadLists(Lists(sha, plan, options), Flags(w, options), o, MAX_CELLS, |plan.order|, |plan.rootList|, 0, area)
      == Ok((BagHeader(|plan.order|, w, plan.rootList, options.index, options.crc32c, false, area),
             Body(sha, plan, options) + Seal(sha, plan, options)))
  {
    hide Body, Seal, IndexRun, Flags, Take, TakeIndices, Linked, Pow256, ByteWidth, IndexBytes;
    var body, run, seal := Body(sha, plan, options), IndexRun(sha, plan, options), Seal(sha, plan, options);
    var w := ByteWidth(|plan.order|);
    AreaBounds(sha, plan, options);
    Widths(|plan.order|, |body|);
    FlagsReadBack(w, options);
    IndicesReadBack(plan.rootList, w, -1, |plan.order|, run + (body + seal));
    TakeFront(run, body + seal);
  }

  lemma {:induction false} PlanIsLinked(sha: Sha, roots: seq<Cell>)
    requires Apart(sha, roots) && PlanOf(sha, roots).Ok? && forall i :: 0 <= i < |roots| ==> Sound(roots[i])
    ensures var plan := PlanOf(sha, roots).value;
      && Linked(plan.order, plan.links) && 1 <= |plan.order| <= MAX_CELLS && |plan.rootList| == |roots|
      && (forall i :: 0 <= i < |roots| ==> plan.rootList[i] < |plan.order| && plan.order[plan.rootList[i]] == roots[i])
  {
    hide Order, Apart, Sound, Reach, Links, Positions;
    var plan := PlanOf(sha, roots).value;
    OrderIsTopological(sha, roots);
    forall i | 0 <= i < |roots| ensures roots[i] in Reach(roots) { RootIsReached(roots, i); }
    PositionsOfMembers(sha, roots, plan.order, roots);
    forall i | 0 <= i < |plan.order| ensures Sound(plan.order[i]) { ReachedIsSound(roots, plan.order[i]); }
    forall i | 0 <= i < |plan.order|
      ensures |plan.links[i]| == |plan.order[i].refs|
      ensures forall k :: 0 <= k < |plan.links[i]| ==>
        i < plan.links[i][k] < |plan.order| && plan.order[plan.links[i][k]] == plan.order[i].refs[k]
    {
      LinksPointForward(sha, roots, plan.order, plan.links, i);
    }
    assert plan.order[plan.rootList[0]] == roots[0];
  }

  lemma {:induction false} RootIsReached(roots: seq<Cell>, i: nat)
    requires i < |roots|
    ensures roots[i] in Reach(roots)
  {
    assert roots[i] in Below(roots[i]);
  }

  lemma {:induction false} ReachedIsSound(roots: seq<Cell>, c: Cell)
    requires c in Reach(roots) && forall i :: 0 <= i < |roots| ==> Sound(roots[i])
    ensures Sound(c)
  {
    hide Sound;
    var i: nat :| i < |roots| && c in Below(roots[i]);
    SoundBelow(roots[i], c);
  }

  lemma {:induction false} SoundBelow(c: Cell, d: Cell)
    requires Sound(c) && d in Below(c)
    ensures Sound(d) && HeightOf(d) <= HeightOf(c)
    decreases c
  {
    hide Fits, Classified, Masked, HeightOf;
    if d != c {
      var i: nat :| i < |c.refs| && d in Below(c.refs[i]);
      SoundBelow(c.refs[i], d);
      ChildIsLower(c, i);
    }
  }

  lemma {:induction false} LinksPointForward(sha: Sha, roots: seq<Cell>, order: seq<Cell>, links: seq<seq<nat>>, i: nat)
    requires Apart(sha, roots) && Topological(roots, order) && Links(sha, order, |order|) == Ok(links) && i < |order|
    ensures |links[i]| == |order[i].refs|
    ensures forall k :: 0 <= k < |links[i]| ==> i < links[i][k] < |order| && order[links[i][k]] == order[i].refs[k]
  {
    hide Apart, Reach, Links, Positions, Position;
    var c := order[i];
    assert c in order;
    forall k | 0 <= k < |c.refs| ensures c.refs[k] in Reach(roots) { ReachCloses(roots, c, k); }
    PositionsOfMembers(sha, roots, order, c.refs);
    forall k | 0 <= k < |links[i]| ensures i < links[i][k] < |order| && order[links[i][k]] == c.refs[k] {
      assert c.refs[k] in order[i + 1..];
      var j :| 0 <= j < |order[i + 1..]| && order[i + 1..][j] == c.refs[k];
      assert order[i + 1 + j] == c.refs[k];
    }
  }

  lemma {:induction false} RootsLength(sha: Sha, raw: seq<RawCell>, list: seq<nat>)
    requires Forward(raw) && (forall i :: 0 <= i < |list| ==> list[i] < |raw|) && RootsOf(sha, raw, list).Ok?
    ensures |RootsOf(sha, raw, list).value| == |list|
  {
    hide BuiltAt;
    if list != [] { RootsLength(sha, raw, list[..|list| - 1]); }
  }

  lemma {:induction false} ParsedLength(sha: Sha, bytes: seq<byte>, ceiling: nat)
    requires ParseBoc(sha, bytes, ceiling).Ok?
    ensures ReadHeader(bytes, ceiling).Ok? && |ParseBoc(sha, bytes, ceiling).value|
      == |ReadHeader(bytes, ceiling).value.0.rootList|
  {
    hide ReadHeader, ReadCells, RootsOf, TooTall, LowestFrom;
    var (header, rest) := ReadHeader(bytes, ceiling).value;
    var raw := ReadCells(rest, 0, header.count, header.refSize).value;
    HeaderRoots(bytes, ceiling);
    ReadIsForward(rest, 0, header.count, header.refSize);
    RootsLength(sha, raw, header.rootList);
  }

  /** No more roots than the width its positions are written in can count. */
  ghost predicate RootsFit(sha: Sha, roots: seq<Cell>) {
    |roots| < Pow256(ByteWidth(|Order(sha, roots)|)) && |roots| <= MAX_CELLS
  }

  ghost predicate Shallow(roots: seq<Cell>) { forall i :: 0 <= i < |roots| ==> HeightOf(roots[i]) <= MAX_DEPTH }

  lemma {:induction false} ShallowOrder(sha: Sha, roots: seq<Cell>)
    requires Apart(sha, roots) && forall i :: 0 <= i < |roots| ==> Sound(roots[i])
    ensures Shallow(roots) <==> forall i :: 0 <= i < |Order(sha, roots)| ==> HeightOf(Order(sha, roots)[i]) <= MAX_DEPTH
  {
    hide Order, Apart, Sound, HeightOf, Below;
    OrderIsTopological(sha, roots);
    var order := Order(sha, roots);
    forall i | 0 <= i < |order| && Shallow(roots) ensures HeightOf(order[i]) <= MAX_DEPTH {
      assert order[i] in order;
      var r: nat :| r < |roots| && order[i] in Below(roots[r]);
      SoundBelow(roots[r], order[i]);
    }
    if forall i :: 0 <= i < |order| ==> HeightOf(order[i]) <= MAX_DEPTH {
      forall r | 0 <= r < |roots| ensures HeightOf(roots[r]) <= MAX_DEPTH { RootIsReached(roots, r); }
    }
  }

  lemma {:induction false} FittingBagReads(sha: Sha, roots: seq<Cell>, options: BocOptions)
    requires Apart(sha, roots) && (forall i :: 0 <= i < |roots| ==> Sound(roots[i])) && PlanOf(sha, roots).Ok?
      && RootsFit(sha, roots)
    ensures ParseBoc(sha, Bag(sha, PlanOf(sha, roots).value, options), MAX_CELLS)
      == if Shallow(roots) then Ok(roots) else Err(TooDeep)
  {
    hide Order, Apart, Sound, PlanOf, Linked, ReadHeader, ReadCells, ReadLists, Finish, Lists, Bag, Pow256, ByteWidth,
      Shallow, HeightOf;
    var plan := PlanOf(sha, roots).value;
    var body, seal := Body(sha, plan, options), Seal(sha, plan, options);
    var w := ByteWidth(|plan.order|);
    PlanIsLinked(sha, roots);
    HeaderDecides(sha, plan, options);
    ReadsBack(|roots|, w);
    ReadsLowBytes(|roots|, w);
    RootsNotEmpty(sha, roots);
    ListsReadBack(sha, plan, options);
    CellsReadBack(sha, plan.order, plan.links, w, options.storedHashes, 0, seal);
    GraphReadsBack(sha, plan.order, plan.links, options.storedHashes, plan.rootList, roots);
    ShallowOrder(sha, roots);
  }

  lemma {:induction false} RootsNotEmpty(sha: Sha, roots: seq<Cell>)
    requires PlanOf(sha, roots).Ok?
    ensures roots != []
  {}

  lemma {:induction false} CrowdedBagDoesNot(sha: Sha, roots: seq<Cell>, options: BocOptions)
    requires Apart(sha, roots) && (forall i :: 0 <= i < |roots| ==> Sound(roots[i])) && PlanOf(sha, roots).Ok?
      && !RootsFit(sha, roots)
    ensures ParseBoc(sha, Bag(sha, PlanOf(sha, roots).value, options), MAX_CELLS) != Ok(roots)
  {
    hide Order, Apart, Sound, PlanOf, Linked, ReadHeader, ParseBoc, Lists, Bag, Pow256, ByteWidth, Body, TakeIndices;
    var plan := PlanOf(sha, roots).value;
    var bag, w := Bag(sha, plan, options), ByteWidth(|plan.order|);
    PlanIsLinked(sha, roots);
    HeaderDecides(sha, plan, options);
    if ParseBoc(sha, bag, MAX_CELLS).Ok? {
      ParsedLength(sha, bag, MAX_CELLS);
      if |roots| < Pow256(w) { ReadsBack(|roots|, w); ReadsLowBytes(|roots|, w); }
    }
  }

  /**
    A bag reads back as the roots it was written from, under every choice of index, checksum and
    stored hashes, exactly when there are no more roots than a position's width can count and
    than a bag may hold, and no tree deeper than the reader builds.
   */
  lemma {:induction false} BagReadsBack(sha: Sha, roots: seq<Cell>, options: BocOptions)
    requires Apart(sha, roots) && (forall i :: 0 <= i < |roots| ==> Sound(roots[i]))
      && Serialized(sha, roots, options).Ok?
    ensures ParseBoc(sha, Serialized(sha, roots, options).value, MAX_CELLS) == Ok(roots)
      <==> RootsFit(sha, roots) && Shallow(roots)
  {
    hide Apart, Sound, PlanOf, ParseBoc, Opening, Body, Sealed, RootsFit, Shallow;
    if RootsFit(sha, roots) { FittingBagReads(sha, roots, options); } else { CrowdedBagDoesNot(sha, roots, options); }
  }

  /** A graph serializes exactly when it has a root and no more cells than a bag may hold. */
  lemma {:induction false} SerializesWithin(sha: Sha, roots: seq<Cell>, options: BocOptions)
    requires Apart(sha, roots)
    ensures Serialized(sha, roots, options).Ok? <==> roots != [] && |Order(sha, roots)| <= MAX_CELLS
  {
    hide Apart, Order, Opening, Body, Sealed, Reach, Links, Positions;
    if roots != [] {
      OrderIsTopological(sha, roots);
      LinksOfOrder(sha, roots, Order(sha, roots), |Order(sha, roots)|);
      forall i | 0 <= i < |roots| ensures roots[i] in Reach(roots) { RootIsReached(roots, i); }
      PositionsOfMembers(sha, roots, Order(sha, roots), roots);
    }
  }

  // ---------------------------------------------------------------- too many roots

  const EMPTY_CELL := Cell(Ordinary, [], [], NO_LEVELS)

  /** A root count that is a multiple of what the width holds is written as zero, and refused as no roots at all. */
  lemma {:induction false} RootlessBagIsRefused(sha: Sha, roots: seq<Cell>, options: BocOptions)
    requires Apart(sha, roots) && (forall i :: 0 <= i < |roots| ==> Sound(roots[i])) && PlanOf(sha, roots).Ok?
    requires |roots| % Pow256(ByteWidth(|Order(sha, roots)|)) == 0
    ensures ParseBoc(sha, Bag(sha, PlanOf(sha, roots).value, options), MAX_CELLS) == Err(BadHeader)
  {
    hide Order, Apart, Sound, PlanOf, Linked, ReadHeader, Lists, Bag, Pow256, ByteWidth, Body, TakeIndices;
    PlanIsLinked(sha, roots);
    HeaderDecides(sha, PlanOf(sha, roots).value, options);
  }

  /**
    Two hundred and fifty-six roots naming one cell: their count does not fit its byte, and the
    bag is refused as rootless.
   */
  lemma {:induction false} ManyRootsOfOneCell(sha: Sha, options: BocOptions)
    ensures var roots := seq(256, _ => EMPTY_CELL);
      && Serialized(sha, roots, options).Ok?
      && ParseBoc(sha, Serialized(sha, roots, options).value, MAX_CELLS) == Err(BadHeader)
  {
    hide Order, ParseBoc, Sound, PlanOf, Opening, Body, Sealed;
    var roots := seq(256, _ => EMPTY_CELL);
    OneCellReached(roots);
    OrderIsTopological(sha, roots);
    OneCellOrdered(roots, Order(sha, roots));
    SerializesWithin(sha, roots, options);
    EmptyIsSound();
    assert Pow256(1) == 256;
    RootlessBagIsRefused(sha, roots, options);
  }

  lemma {:induction false} EmptyIsSound()
    ensures Sound(EMPTY_CELL)
  {}

  lemma {:induction false} OneCellReached(roots: seq<Cell>)
    requires |roots| > 0 && forall i :: 0 <= i < |roots| ==> roots[i] == EMPTY_CELL
    ensures Reach(roots) == {EMPTY_CELL}
  {
    assert Below(EMPTY_CELL) == {EMPTY_CELL};
    assert roots[0] in Below(roots[0]);
  }

  lemma {:induction false} AllAlike(order: seq<Cell>, c: Cell, i: nat, j: nat)
    requires i < j < |order| && forall k :: 0 <= k < |order| ==> order[k] == c
    ensures order[i] == order[j]
  {}

  lemma {:induction false} OneCellOrdered(roots: seq<Cell>, order: seq<Cell>)
    requires Topological(roots, order) && Reach(roots) == {EMPTY_CELL}
    ensures |order| == 1
  {
    hide Reach;
    assert forall i :: 0 <= i < |order| ==> order[i] in order;
    assert EMPTY_CELL in order;
    if |order| > 1 { AllAlike(order, EMPTY_CELL, 0, 1); }
  }

  // ---------------------------------------------------------------- whatever is read is well made

  lemma {:induction false} MarkInPlace(b: nat, w: nat, z: nat)
    requires 0 < b < Pow2(w) && TrailingZeros(b) == z && z < w
    ensures ToBits(b, w)[w - 1 - z] && forall j :: w - 1 - z < j < w ==> !ToBits(b, w)[j]
    decreases w
  {
    if b % 2 == 0 {
      ZerosOfDouble(b / 2);
      MarkInPlace(b / 2, w - 1, z - 1);
    }
  }

  /** The bits read off a record's data are held as that data again. */
  lemma {:induction false} ReadDataPacksBack(d2: nat, data: seq<byte>)
    requires |data| == d2 / 2 + d2 % 2 && BitLen(d2, data).Ok? && BitLen(d2, data).value <= 8 * |data|
    ensures Pack(Unpack(data)[..BitLen(d2, data).value]) == data
  {
    hide ToBits, TrailingZeros, ByteOf;
    var length, all := BitLen(d2, data).value, Unpack(data);
    var bits := all[..length];
    if d2 % 2 == 0 {
      assert bits == all;
    } else {
      var last := |data| - 1;
      var z := TrailingZeros(data[last]);
      assert Pow2(8) == 256;
      MarkInPlace(data[last], 8, z);
      UnpackedByte(data, last);
      var tail := all[8 * last..8 * last + 8];
      assert forall j :: 8 * last <= j < |all| ==> all[j] == tail[j - 8 * last];
      assert all == bits + [true] + Repeat(false, z);
      assert Padded(bits) == all;
    }
    PackUnpack(data);
    SamePacking(bits, all);
  }

  lemma {:induction false} SamePacking(bits: Bits, all: Bits)
    requires Padded(bits) == all
    ensures Pack(bits) == Pack(all)
  {
    assert Padded(all) == all;
  }

  /** What reading a record guarantees of the cell built from it, over any children. */
  ghost predicate RawSound(raw: RawCell) {
    && |raw.bits| <= MAX_BITS && |raw.refs| <= MAX_REFS
    && (!raw.kind.Ordinary? ==> |raw.bits| > 0 && Classify(true, Pack(raw.bits), raw.mask, |raw.refs|) == Ok(raw.kind))
  }

  lemma {:induction false} ReadCellIsSound(s: seq<byte>, index: nat, count: nat, refSize: nat)
    requires ReadCell(s, index, count, refSize).Ok?
    ensures RawSound(ReadCell(s, index, count, refSize).value.0)
  {
    hide Take, TakeUint, TakeIndices, TakeStored, BitLen, MaskOf, Pack, Unpack, Classify;
    var (d1, s1) := TakeUint(s, 1).value;
    var (d2, s2) := TakeUint(s1, 1).value;
    var mask := MaskOf(d1 / 32);
    var (stored, s3) := TakeStored(s2, d1 / 16 % 2 == 1, mask).value;
    var data := Take(s3, d2 / 2 + d2 % 2).value.0;
    ReadDataPacksBack(d2, data);
    ClassifiedHasData(d1 / 8 % 2 == 1, data, mask, d1 % 8);
  }

  lemma {:induction false} ClassifiedHasData(exotic: bool, data: seq<byte>, mask: Mask, refCount: nat)
    ensures Classify(exotic, data, mask, refCount).Ok? ==>
      (exotic <==> !Classify(exotic, data, mask, refCount).value.Ordinary?) && (exotic ==> data != [])
  {}

  lemma {:induction false} ReadCellsAreSound(s: seq<byte>, index: nat, count: nat, refSize: nat)
    requires index <= count && ReadCells(s, index, count, refSize).Ok?
    ensures forall i :: 0 <= i < count - index ==> RawSound(ReadCells(s, index, count, refSize).value[i])
    decreases count - index
  {
    hide ReadCell, RawSound;
    if index < count {
      ReadCellIsSound(s, index, count, refSize);
      var rest := ReadCell(s, index, count, refSize).value.1;
      ReadCellsAreSound(rest, index + 1, count, refSize);
      var raw, more := ReadCells(s, index, count, refSize).value, ReadCells(rest, index + 1, count, refSize).value;
      forall i | 0 <= i < |raw| ensures RawSound(raw[i]) { if i > 0 { assert raw[i] == more[i - 1]; } }
    }
  }

  lemma {:induction false} AssembledIsSound(sha: Sha, raw: RawCell, refs: seq<Cell>)
    requires RawSound(raw) && |refs| == |raw.refs| && BocRead.Assemble(sha, raw, refs).Ok?
    requires forall k :: 0 <= k < |refs| ==> Sound(refs[k])
    ensures Sound(BocRead.Assemble(sha, raw, refs).value)
  {
    hide StoredRun, Pack;
  }

  lemma {:induction false} BuiltIsSound(sha: Sha, raw: seq<RawCell>, i: nat)
    requires Forward(raw) && i < |raw| && forall k :: 0 <= k < |raw| ==> RawSound(raw[k])
    ensures BuiltAt(sha, raw, i).Ok? && BuiltAt(sha, raw, i).value.Some? ==> Sound(BuiltAt(sha, raw, i).value.value)
    decreases |raw| - i, 1
  {
    hide BocRead.Assemble, Sound, RawSound, BuiltAt;
    BuiltUnfolds(sha, raw, i);
    BuiltRefsAreSound(sha, raw, i, |raw[i].refs|);
    var refs := BuiltRefs(sha, raw, i, |raw[i].refs|);
    if refs.Some? && BocRead.Assemble(sha, raw[i], refs.value).Ok? { AssembledIsSound(sha, raw[i], refs.value); }
  }

  lemma {:induction false} BuiltRefsAreSound(sha: Sha, raw: seq<RawCell>, i: nat, n: nat)
    requires Forward(raw) && i < |raw| && n <= |raw[i].refs| && forall k :: 0 <= k < |raw| ==> RawSound(raw[k])
    ensures BuiltRefs(sha, raw, i, n).Some? ==>
      |BuiltRefs(sha, raw, i, n).value| == n && forall k :: 0 <= k < n ==> Sound(BuiltRefs(sha, raw, i, n).value[k])
    decreases |raw| - i, 0, n
  {
    hide BocRead.Assemble, Sound, RawSound, BuiltAt;
    if n > 0 {
      BuiltRefsAreSound(sha, raw, i, n - 1);
      BuiltIsSound(sha, raw, raw[i].refs[n - 1]);
    }
  }

  lemma {:induction false} RootsAreSound(sha: Sha, raw: seq<RawCell>, list: seq<nat>)
    requires Forward(raw) && (forall k :: 0 <= k < |raw| ==> RawSound(raw[k]))
      && (forall i :: 0 <= i < |list| ==> list[i] < |raw|)
    requires RootsOf(sha, raw, list).Ok?
    ensures forall i :: 0 <= i < |RootsOf(sha, raw, list).value| ==> Sound(RootsOf(sha, raw, list).value[i])
  {
    hide Sound, RawSound, BuiltAt;
    if list != [] {
      RootsAreSound(sha, raw, list[..|list| - 1]);
      BuiltIsSound(sha, raw, list[|list| - 1]);
    }
  }

  /** Whatever bytes a bag is read from, the cells it gives are well made all the way down. */
  lemma {:induction false} ParsedIsSound(sha: Sha, bytes: seq<byte>, ceiling: nat)
    requires ParseBoc(sha, bytes, ceiling).Ok?
    ensures forall i :: 0 <= i < |ParseBoc(sha, bytes, ceiling).value| ==> Sound(ParseBoc(sha, bytes, ceiling).value[i])
  {
    hide ReadHeader, ReadCells, RootsOf, TooTall, LowestFrom, Sound, RawSound;
    var (header, rest) := ReadHeader(bytes, ceiling).value;
    var raw := ReadCells(rest, 0, header.count, header.refSize).value;
    HeaderRoots(bytes, ceiling);
    ReadIsForward(rest, 0, header.count, header.refSize);
    ReadCellsAreSound(rest, 0, header.count, header.refSize);
    RootsAreSound(sha, raw, header.rootList);
  }
}

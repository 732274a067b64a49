module BocRead {
  // Reading a bag of cells: the header held to the bytes it describes, the cells one by one, and
  // the graph built children first in whatever order a plan asks for.

  import opened Basics
  import opened Cells
  import opened Packing
  import opened Hashing
  import opened Topology
  import opened BocBytes

  // ---------------------------------------------------------------- the reader

  function Take(s: seq<byte>, n: nat): (r: Result<(seq<byte>, seq<byte>)>)
    ensures r.Ok? ==> |r.value.0| == n && r.value.0 + r.value.1 == s
  {
    if |s| < n then Err(Truncated) else Ok((s[..n], s[n..]))
  }

  function TakeUint(s: seq<byte>, n: nat): (r: Result<(nat, seq<byte>)>)
    ensures r.Ok? ==> |r.value.1| + n == |s|
  {
    var (bytes, rest) :- Take(s, n);
    Ok((FromBigEndian(bytes), rest))
  }

  /** `n` numbers of a fixed width, each held to a predicate as it is read. */
  function TakeIndices(s: seq<byte>, n: nat, width: nat, low: int, count: nat): (r: Result<(seq<nat>, seq<byte>)>)
    ensures r.Ok? ==> |r.value.0| == n && forall i :: 0 <= i < n ==> low < r.value.0[i] < count
  {
    if n == 0 then Ok(([], s))
    else
      var (index, rest) :- TakeUint(s, width);
      if index >= count || index <= low then Err(BadReference)
      else
        var (more, rest) :- TakeIndices(rest, n - 1, width, low, count);
        Ok(([index] + more, rest))
  }

  // ---------------------------------------------------------------- the header

  datatype BagHeader = BagHeader(
    count: nat, refSize: nat, rootList: seq<nat>, hasIndex: bool, hasChecksum: bool, hasCacheBits: bool, area: nat)

  function CheckCrc(bytes: seq<byte>): Result<()> {
    if |bytes| < 4 then Err(Truncated)
    else if CrcTail(CrcUpdate(CRC_INIT, bytes[..|bytes| - 4])) != bytes[|bytes| - 4..] then Err(Checksum)
    else Ok(())
  }

  /** The four numbers after the two size bytes, and the lists they announce. */
  function ReadCounts(s: seq<byte>, flags: nat, offsetSize: nat, ceiling: nat): Result<(BagHeader, seq<byte>)> {
    var (count, s) :- TakeUint(s, flags % 8);
    var (roots, s) :- TakeUint(s, flags % 8);
    var (absent, s) :- TakeUint(s, flags % 8);
    var (area, s) :- TakeUint(s, offsetSize);
    ReadLists(s, flags, offsetSize, ceiling, count, roots, absent, area)
  }

  /** The two lists behind the counts, and that exactly the announced area remains. */
  function ReadLists(s: seq<byte>, flags: nat, offsetSize: nat, ceiling: nat, count: nat, roots: nat, absent: nat,
      area: nat)
      : (r: Result<(BagHeader, seq<byte>)>)
    ensures r.Ok? ==> |r.value.0.rootList| == roots
  {
    if absent != 0 then Err(BadHeader)
    else if count > ceiling then Err(TooManyCells)
    else if roots == 0 || roots > ceiling then Err(BadHeader)
    else if 2 * count > |s| then Err(Truncated)
    else if Times(roots, flags % 8) > |s| then Err(Truncated)
    else
      var (rootList, s) :- TakeIndices(s, roots, flags % 8, -1, count);
      var hasIndex, hasChecksum := flags / 128 % 2 == 1, flags / 64 % 2 == 1;
      var (_, s) :- Take(s, if hasIndex then Times(count, offsetSize) else 0);
      if |s| != area + (if hasChecksum then 4 else 0) then Err(BadHeader)
      else Ok((BagHeader(count, flags % 8, rootList, hasIndex, hasChecksum, flags / 32 % 2 == 1, area), s))
  }

  /** The header as a function of all the bytes, and the bytes its cells begin at. */
  function ReadHeader(bytes: seq<byte>, ceiling: nat): Result<(BagHeader, seq<byte>)> {
    var (magic, s) :- Take(bytes, 4);
    if magic != MAGIC then Err(NotABagOfCells)
    else
      var (flags, s) :- TakeUint(s, 1);
      var (offsetSize, s) :- TakeUint(s, 1);
      if !(1 <= flags % 8 <= 4) then Err(BadHeader)
      else if !(1 <= offsetSize <= 8) then Err(BadHeader)
      else
        var _ :- if flags / 64 % 2 == 1 then CheckCrc(bytes) else Ok(());
        ReadCounts(s, flags, offsetSize, ceiling)
  }

  /** A position moving through a bag's bytes. */
  class Reader {
    const bytes: seq<byte>
    var at: nat

    ghost predicate Valid()
      reads this
    {
      at <= |bytes|
    }

    ghost function Rest(): seq<byte>
      requires Valid()
      reads this
    {
      bytes[at..]
    }

    constructor (bytes: seq<byte>)
      ensures Valid() && this.bytes == bytes && Rest() == bytes
    {
      this.bytes, at := bytes, 0;
    }

    method TakeBytes(n: nat) returns (r: Result<seq<byte>>)
      requires Valid()
      modifies this
      ensures Valid() && at >= old(at)
      ensures match Take(old(Rest()), n) case Err(e) => r == Err(e)
        case Ok((front, rest)) => r == Ok(front) && Rest() == rest
    {
      if at + n > |bytes| { return Err(Truncated); }
      var out := bytes[at..at + n];
      assert Rest()[..n] == out && Rest()[n..] == bytes[at + n..];
      at := at + n;
      return Ok(out);
    }

    method Uint(n: nat) returns (r: Result<nat>)
      requires Valid()
      modifies this
      ensures Valid() && at >= old(at)
      ensures match TakeUint(old(Rest()), n) case Err(e) => r == Err(e)
        case Ok((x, rest)) => r == Ok(x) && Rest() == rest
    {
      var taken := TakeBytes(n);
      if taken.Err? { return Err(taken.error); }
      var value: nat := 0;
      for i := 0 to |taken.value|
        invariant value == FromBigEndian(taken.value[..i]) && at == old(at) + n && Valid()
      {
        assert taken.value[..i + 1][..i] == taken.value[..i];
        value := 256 * value + taken.value[i];
      }
      assert taken.value[..|taken.value|] == taken.value;
      return Ok(value);
    }

    /** The root list: each entry held under the cell count as it is read. */
    method Roots(n: nat, width: nat, count: nat) returns (r: Result<seq<nat>>)
      requires Valid()
      modifies this
      ensures Valid()
      ensures match TakeIndices(old(Rest()), n, width, -1, count) case Err(e) => r == Err(e)
        case Ok((list, rest)) => r == Ok(list) && Rest() == rest
    {
      hide TakeUint;
      var list: seq<nat> := [];
      ghost var whole := TakeIndices(Rest(), n, width, -1, count);
      assert whole == Prefixed([], whole) by { PrefixedNone(whole); }
      for i := 0 to n
        invariant Valid() && |list| == i
        invariant whole == Prefixed(list, TakeIndices(Rest(), n - i, width, -1, count))
      {
        ghost var before := Rest();
        var index := Uint(width);
        if index.Err? { return Err(index.error); }
        if index.value >= count { return Err(BadReference); }
        PrefixedOne(list, index.value, TakeIndices(Rest(), n - i - 1, width, -1, count));
        list := list + [index.value];
      }
      assert list + [] == list;
      return Ok(list);
    }
  }

  /** What was read, put before what is left to read. */
  ghost function Prefixed(list: seq<nat>, rest: Result<(seq<nat>, seq<byte>)>): Result<(seq<nat>, seq<byte>)> {
    match rest case Err(e) => Err(e) case Ok((more, s)) => Ok((list + more, s))
  }

  lemma {:induction false} PrefixedNone(rest: Result<(seq<nat>, seq<byte>)>)
    ensures Prefixed([], rest) == rest
  {
    if rest.Ok? { assert [] + rest.value.0 == rest.value.0; }
  }

  lemma {:induction false} PrefixedOne(list: seq<nat>, x: nat, rest: Result<(seq<nat>, seq<byte>)>)
    ensures Prefixed(list, Prefixed([x], rest)) == Prefixed(list + [x], rest)
  {
    if rest.Ok? { assert list + ([x] + rest.value.0) == list + [x] + rest.value.0; }
  }

  /** Reads the header field by field, the reader left at the first cell. */
  method ReadHeaderFrom(reader: Reader, ceiling: nat) returns (r: Result<BagHeader>)
    requires reader.Valid() && reader.at == 0
    modifies reader
    ensures reader.Valid()
    ensures match ReadHeader(reader.bytes, ceiling) case Err(e) => r == Err(e)
      case Ok((header, rest)) => r == Ok(header) && reader.Rest() == rest
  {
    hide Take, TakeUint, TakeIndices, CheckCrc, ReadCounts;
    ghost var bytes := reader.bytes;
    assert reader.Rest() == bytes;
    var magic := reader.TakeBytes(4);
    if magic.Err? { return Err(magic.error); }
    if magic.value != MAGIC { return Err(NotABagOfCells); }
    var flags := reader.Uint(1);
    if flags.Err? { return Err(flags.error); }
    var offsetSize := reader.Uint(1);
    if offsetSize.Err? { return Err(offsetSize.error); }
    if !(1 <= flags.value % 8 <= 4) { return Err(BadHeader); }
    if !(1 <= offsetSize.value <= 8) { return Err(BadHeader); }
    if flags.value / 64 % 2 == 1 {
      var checked := CheckCrc(reader.bytes);
      if checked.Err? { return Err(checked.error); }
    }
    r := ReadCountsFrom(reader, flags.value, offsetSize.value, ceiling);
  }

  method ReadCountsFrom(reader: Reader, flags: nat, offsetSize: nat, ceiling: nat) returns (r: Result<BagHeader>)
    requires reader.Valid()
    modifies reader
    ensures reader.Valid()
    ensures match ReadCounts(old(reader.Rest()), flags, offsetSize, ceiling) case Err(e) => r == Err(e)
      case Ok((header, rest)) => r == Ok(header) && reader.Rest() == rest
  {
    hide Take, TakeUint, TakeIndices, ReadLists, Times;
    var count := reader.Uint(flags % 8);
    if count.Err? { return Err(count.error); }
    var roots := reader.Uint(flags % 8);
    if roots.Err? { return Err(roots.error); }
    var absent := reader.Uint(flags % 8);
    if absent.Err? { return Err(absent.error); }
    var area := reader.Uint(offsetSize);
    if area.Err? { return Err(area.error); }
    r := ReadListsFrom(reader, flags, offsetSize, ceiling, count.value, roots.value, absent.value, area.value);
  }

  method ReadListsFrom(
      reader: Reader, flags: nat, offsetSize: nat, ceiling: nat, count: nat, roots: nat, absent: nat, area: nat)
      returns (r: Result<BagHeader>)
    requires reader.Valid()
    modifies reader
    ensures reader.Valid()
    ensures match ReadLists(old(reader.Rest()), flags, offsetSize, ceiling, count, roots, absent, area)
      case Err(e) => r == Err(e) case Ok((header, rest)) => r == Ok(header) && reader.Rest() == rest
  {
    hide Take, TakeIndices, Times;
    if absent != 0 { return Err(BadHeader); }
    if count > ceiling { return Err(TooManyCells); }
    if roots == 0 || roots > ceiling { return Err(BadHeader); }
    if 2 * count > |reader.bytes| - reader.at { return Err(Truncated); }
    if Times(roots, flags % 8) > |reader.bytes| - reader.at { return Err(Truncated); }
    var rootList := reader.Roots(roots, flags % 8, count);
    if rootList.Err? { return Err(rootList.error); }
    var hasIndex, hasChecksum := flags / 128 % 2 == 1, flags / 64 % 2 == 1;
    var index := reader.TakeBytes(if hasIndex then Times(count, offsetSize) else 0);
    if index.Err? { return Err(index.error); }
    if |reader.bytes| - reader.at != area + (if hasChecksum then 4 else 0) { return Err(BadHeader); }
    return Ok(BagHeader(count, flags % 8, rootList.value, hasIndex, hasChecksum, flags / 32 % 2 == 1, area));
  }

  // ---------------------------------------------------------------- the cells

  datatype RawCell = RawCell(bits: Bits, refs: seq<nat>, kind: CellType, mask: Mask, stored: Option<seq<byte>>)

  function TrailingZeros(b: nat): (r: nat)
    ensures b > 0 ==> b >= Pow2(r)
    ensures b == 0 ==> r == 8
  {
    if b == 0 then 8 else if b % 2 == 1 then 0 else TrailingZerosOf(b)
  }

  function TrailingZerosOf(b: nat): (r: nat)
    requires b > 0 && b % 2 == 0
    ensures b >= Pow2(r)
    decreases b
  {
    if b / 2 % 2 == 1 then 1 else 1 + TrailingZerosOf(b / 2)
  }

  /** How many of the data's bits are real, by the descriptor and the completion mark. */
  function BitLen(d2: nat, data: seq<byte>): Result<nat> {
    if d2 % 2 == 0 then Ok(d2 / 2 * 8)
    else if data == [] then Err(Malformed)
    else
      var zeros := TrailingZeros(data[|data| - 1]);
      if zeros >= 7 then Err(Malformed) else Ok(d2 / 2 * 8 + 7 - zeros)
  }

  function MaskOf(x: nat): Mask { Mask(x % 2 == 1, x / 2 % 2 == 1, x / 4 % 2 == 1) }

  function KindOf(tag: byte): Result<CellType> {
    match tag
    case 1 => Ok(PrunedBranch)
    case 2 => Ok(LibraryReference)
    case 3 => Ok(MerkleProof)
    case 4 => Ok(MerkleUpdate)
    case _ => Err(Malformed)
  }

  /** A cell's kind, and what the kind asks of the data and the reference count. */
  function Classify(exotic: bool, data: seq<byte>, mask: Mask, refCount: nat): Result<CellType> {
    if !exotic then Ok(Ordinary)
    else if data == [] then Err(Malformed)
    else
      var kind :- KindOf(data[0]);
      if refCount != ExpectedRefs(kind) then Err(Malformed)
      else if kind.PrunedBranch? && (|data| < 2 || data[1] != mask.Byte()) then Err(Malformed)
      else if kind.PrunedBranch? && (mask == NO_LEVELS || |data| != 2 + 34 * mask.Count()) then Err(Malformed)
      else Ok(kind)
  }

  function TakeStored(s: seq<byte>, present: bool, mask: Mask): Result<(Option<seq<byte>>, seq<byte>)> {
    if !present then Ok((None, s))
    else
      var (run, rest) :- Take(s, 34 * (mask.Count() + 1));
      Ok((Some(run), rest))
  }

  /** A record past its descriptors: stored hashes, data and references, which point strictly forward. */
  function ReadParts(
      s: seq<byte>, refCount: nat, exotic: bool, withHashes: bool, mask: Mask, d2: nat,
      index: nat, count: nat, refSize: nat): Result<(RawCell, seq<byte>)>
  {
    if refCount > MAX_REFS then Err(Malformed)
    else
      var (stored, s) :- TakeStored(s, withHashes, mask);
      var (data, s) :- Take(s, d2 / 2 + d2 % 2);
      var length :- BitLen(d2, data);
      if length > MAX_BITS || length > 8 * |data| then Err(Malformed)
      else
        var kind :- Classify(exotic, data, mask, refCount);
        var (refs, s) :- TakeIndices(s, refCount, refSize, index, count);
        Ok((RawCell(Unpack(data)[..length], refs, kind, mask, stored), s))
  }

  /** One cell's record. */
  function ReadCell(s: seq<byte>, index: nat, count: nat, refSize: nat): Result<(RawCell, seq<byte>)> {
    var (d1, s) :- TakeUint(s, 1);
    var (d2, s) :- TakeUint(s, 1);
    ReadParts(s, d1 % 8, d1 / 8 % 2 == 1, d1 / 16 % 2 == 1, MaskOf(d1 / 32), d2, index, count, refSize)
  }

  /** The records from `index` on. */
  function ReadCells(s: seq<byte>, index: nat, count: nat, refSize: nat): (r: Result<seq<RawCell>>)
    requires index <= count
    ensures r.Ok? ==> |r.value| == count - index
    decreases count - index
  {
    if index == count then Ok([])
    else
      var (raw, rest) :- ReadCell(s, index, count, refSize);
      var more :- ReadCells(rest, index + 1, count, refSize);
      Ok([raw] + more)
  }

  // ---------------------------------------------------------------- heights

  predicate Forward(raw: seq<RawCell>) {
    forall i, k :: 0 <= i < |raw| && 0 <= k < |raw[i].refs| ==> i < raw[i].refs[k] < |raw|
  }

  /** The depth a cell would be built to, worked out before any is. */
  function RawHeight(raw: seq<RawCell>, i: nat): nat
    requires Forward(raw) && i < |raw|
    decreases |raw| - i
  {
    Tallest(seq(|raw[i].refs|, k requires 0 <= k < |raw[i].refs| => RawHeight(raw, raw[i].refs[k])))
  }

  predicate TooTall(raw: seq<RawCell>)
    requires Forward(raw)
  {
    exists i :: 0 <= i < |raw| && RawHeight(raw, i) > MAX_DEPTH
  }

  // ---------------------------------------------------------------- building

  /** Puts a read cell together, refusing a mask other than the one computed or stored hashes that differ. */
  function Assemble(sha: Sha, raw: RawCell, refs: seq<Cell>): Result<Cell> {
    var c := Cell(raw.kind, raw.bits, refs, raw.mask);
    if !Masked(c) || (c.kind.PrunedBranch? && !HoldsStored(c)) then Err(Malformed)
    else if raw.stored.Some? && raw.stored.value != StoredRun(sha, c) then Err(Malformed)
    else Ok(c)
  }

  /** The cell at `i`: built, refused, or not built because something below it was refused. */
  function BuiltAt(sha: Sha, raw: seq<RawCell>, i: nat): Result<Option<Cell>>
    requires Forward(raw) && i < |raw|
    decreases |raw| - i, 1
  {
    var refs := BuiltRefs(sha, raw, i, |raw[i].refs|);
    if refs.None? then Ok(None)
    else
      var c :- Assemble(sha, raw[i], refs.value);
      Ok(Some(c))
  }

  /** The first `n` children of the cell at `i`, if all of them were built. */
  function BuiltRefs(sha: Sha, raw: seq<RawCell>, i: nat, n: nat): Option<seq<Cell>>
    requires Forward(raw) && i < |raw| && n <= |raw[i].refs|
    decreases |raw| - i, 0, n
  {
    if n == 0 then Some([])
    else
      var rest, last := BuiltRefs(sha, raw, i, n - 1), BuiltAt(sha, raw, raw[i].refs[n - 1]);
      if rest.Some? && last.Ok? && last.value.Some? then Some(rest.value + [last.value.value]) else None
  }

  /** The refusal at the lowest position from `i` on, which is the one reported. */
  function LowestFrom(sha: Sha, raw: seq<RawCell>, i: nat): Option<Error>
    requires Forward(raw) && i <= |raw|
    decreases |raw| - i
  {
    if i == |raw| then None
    else if BuiltAt(sha, raw, i).Err? then Some(BuiltAt(sha, raw, i).error)
    else LowestFrom(sha, raw, i + 1)
  }

  function RootsOf(sha: Sha, raw: seq<RawCell>, rootList: seq<nat>): Result<seq<Cell>>
    requires Forward(raw) && forall i :: 0 <= i < |rootList| ==> rootList[i] < |raw|
  {
    if rootList == [] then Ok([])
    else
      var rest :- RootsOf(sha, raw, rootList[..|rootList| - 1]);
      var last := BuiltAt(sha, raw, rootList[|rootList| - 1]);
      if last.Ok? && last.value.Some? then Ok(rest + [last.value.value]) else Err(BadReference)
  }

  lemma {:induction false} ReadIsForward(s: seq<byte>, index: nat, count: nat, refSize: nat)
    requires index <= count && ReadCells(s, index, count, refSize).Ok?
    ensures var raw := ReadCells(s, index, count, refSize).value;
      forall i, k :: 0 <= i < |raw| && 0 <= k < |raw[i].refs| ==> index + i < raw[i].refs[k] < count
    decreases count - index
  {
    hide TakeStored, BitLen, Classify, MaskOf, Take;
    if index < count {
      var (first, rest) := ReadCell(s, index, count, refSize).value;
      ReadIsForward(rest, index + 1, count, refSize);
      var more := ReadCells(rest, index + 1, count, refSize).value;
      var raw := ReadCells(s, index, count, refSize).value;
      forall i, k | 0 <= i < |raw| && 0 <= k < |raw[i].refs| ensures index + i < raw[i].refs[k] < count {
        if i > 0 { assert raw[i] == more[i - 1]; }
      }
    }
  }

  function Finish(sha: Sha, raw: seq<RawCell>, rootList: seq<nat>): Result<seq<Cell>>
    requires Forward(raw) && forall i :: 0 <= i < |rootList| ==> rootList[i] < |raw|
  {
    if TooTall(raw) then Err(TooDeep)
    else if LowestFrom(sha, raw, 0).Some? then Err(LowestFrom(sha, raw, 0).value)
    else RootsOf(sha, raw, rootList)
  }

  lemma {:induction false} HeaderRoots(bytes: seq<byte>, ceiling: nat)
    requires ReadHeader(bytes, ceiling).Ok?
    ensures var header := ReadHeader(bytes, ceiling).value.0;
      forall i :: 0 <= i < |header.rootList| ==> header.rootList[i] < header.count
  {
    hide Take, CheckCrc;
  }

  /** A bag read whole. */
  function ParseBoc(sha: Sha, bytes: seq<byte>, ceiling: nat): Result<seq<Cell>> {
    var (header, rest) :- ReadHeader(bytes, ceiling);
    var raw :- ReadCells(rest, 0, header.count, header.refSize);
    HeaderRoots(bytes, ceiling);
    ReadIsForward(rest, 0, header.count, header.refSize);
    Finish(sha, raw, header.rootList)
  }

  // ---------------------------------------------------------------- any plan builds the same

  /** An order of all the positions in which every cell comes after the cells it refers to. */
  ghost predicate ChildrenFirst(raw: seq<RawCell>, plan: seq<nat>) {
    && (forall a, b :: 0 <= a < b < |plan| ==> plan[a] != plan[b])
    && (forall i :: 0 <= i < |raw| ==> i in plan) && (forall a :: 0 <= a < |plan| ==> plan[a] < |raw|)
    && (forall a, k :: 0 <= a < |plan| && 0 <= k < |raw[plan[a]].refs| ==> raw[plan[a]].refs[k] in plan[..a])
  }

  /** Positions taken by rising height are such an order, whatever comes first within a height. */
  lemma {:induction false} ByHeightIsChildrenFirst(raw: seq<RawCell>, plan: seq<nat>)
    requires Forward(raw) && (forall a, b :: 0 <= a < b < |plan| ==> plan[a] != plan[b])
    requires (forall i :: 0 <= i < |raw| ==> i in plan) && (forall a :: 0 <= a < |plan| ==> plan[a] < |raw|)
    requires forall a, b :: 0 <= a < b < |plan| ==> RawHeight(raw, plan[a]) <= RawHeight(raw, plan[b])
    ensures ChildrenFirst(raw, plan)
  {
    hide RawHeight;
    forall a, k | 0 <= a < |plan| && 0 <= k < |raw[plan[a]].refs| ensures raw[plan[a]].refs[k] in plan[..a] {
      var child := raw[plan[a]].refs[k];
      RefIsLower(raw, plan[a], k);
      assert child in plan;
      var b :| 0 <= b < |plan| && plan[b] == child;
      assert b < a;
      assert plan[..a][b] == child;
    }
  }

  lemma {:induction false} RefIsLower(raw: seq<RawCell>, i: nat, k: nat)
    requires Forward(raw) && i < |raw| && k < |raw[i].refs|
    ensures RawHeight(raw, raw[i].refs[k]) < RawHeight(raw, i)
  {
    var below := seq(|raw[i].refs|, j requires 0 <= j < |raw[i].refs| => RawHeight(raw, raw[i].refs[j]));
    assert below[k] < Tallest(below);
  }

  /** The children of a cell out of what has been built so far. */
  function Gather(built: seq<Option<Cell>>, refs: seq<nat>): Option<seq<Cell>>
    requires forall k :: 0 <= k < |refs| ==> refs[k] < |built|
  {
    if refs == [] then Some([])
    else
      var rest, last := Gather(built, refs[..|refs| - 1]), built[refs[|refs| - 1]];
      if rest.Some? && last.Some? then Some(rest.value + [last.value]) else None
  }

  ghost function Slot(sha: Sha, raw: seq<RawCell>, i: nat): Option<Cell>
    requires Forward(raw) && i < |raw|
  {
    if BuiltAt(sha, raw, i).Ok? then BuiltAt(sha, raw, i).value else None
  }

  lemma {:induction false} GathersBuilt(sha: Sha, raw: seq<RawCell>, built: seq<Option<Cell>>, i: nat, n: nat)
    requires Forward(raw) && i < |raw| && |built| == |raw| && n <= |raw[i].refs|
    requires forall k :: 0 <= k < n ==> built[raw[i].refs[k]] == Slot(sha, raw, raw[i].refs[k])
    ensures Gather(built, raw[i].refs[..n]) == BuiltRefs(sha, raw, i, n)
  {
    hide Assemble;
    if n > 0 {
      assert raw[i].refs[..n][..n - 1] == raw[i].refs[..n - 1];
      GathersBuilt(sha, raw, built, i, n - 1);
    }
  }

  /** The refusal kept so far: the one at the lowest position of those done. */
  ghost predicate KeptLowest(sha: Sha, raw: seq<RawCell>, done: seq<nat>, lowest: Option<(nat, Error)>)
    requires Forward(raw) && forall a :: 0 <= a < |done| ==> done[a] < |raw|
  {
    match lowest
    case None => forall a :: 0 <= a < |done| ==> BuiltAt(sha, raw, done[a]).Ok?
    case Some((at, error)) =>
      && at in done && at < |raw| && BuiltAt(sha, raw, at) == Err(error)
      && forall a :: 0 <= a < |done| && done[a] < at ==> BuiltAt(sha, raw, done[a]).Ok?
  }

  lemma {:induction false} EmptyKept(sha: Sha, raw: seq<RawCell>)
    requires Forward(raw)
    ensures KeptLowest(sha, raw, [], None)
  {}

  lemma {:induction false} KeepOne(sha: Sha, raw: seq<RawCell>, done: seq<nat>, i: nat, lowest: Option<(nat, Error)>)
    requires Forward(raw) && i < |raw| && (forall a :: 0 <= a < |done| ==> done[a] < |raw|)
      && KeptLowest(sha, raw, done, lowest)
    ensures KeptLowest(sha, raw, done + [i],
      if BuiltAt(sha, raw, i).Err? && (lowest.None? || i < lowest.value.0) then Some((i, BuiltAt(sha, raw, i).error))
        else lowest)
  {
    hide BuiltAt;
    assert forall a :: 0 <= a < |done| ==> (done + [i])[a] == done[a];
    assert (done + [i])[|done|] == i;
  }

  lemma {:induction false} LowestIsFirst(sha: Sha, raw: seq<RawCell>, i: nat, at: nat)
    requires Forward(raw) && i <= at < |raw| && BuiltAt(sha, raw, at).Err?
    requires forall k :: i <= k < at ==> BuiltAt(sha, raw, k).Ok?
    ensures LowestFrom(sha, raw, i) == Some(BuiltAt(sha, raw, at).error)
    decreases at - i
  {
    hide BuiltAt;
    if i < at { LowestIsFirst(sha, raw, i + 1, at); }
  }

  lemma {:induction false} NoneRefused(sha: Sha, raw: seq<RawCell>, i: nat)
    requires Forward(raw) && i <= |raw| && forall k :: i <= k < |raw| ==> BuiltAt(sha, raw, k).Ok?
    ensures LowestFrom(sha, raw, i) == None
    decreases |raw| - i
  {
    hide BuiltAt;
    if i < |raw| { NoneRefused(sha, raw, i + 1); }
  }

  /**
    Builds every cell in the order of a plan, keeping the refusal at the lowest position. Which
    plan is followed changes neither what is built nor which refusal is reported.
   */
  method BuildPlanned(sha: Sha, raw: seq<RawCell>, plan: seq<nat>)
      returns (built: seq<Option<Cell>>, lowest: Option<(nat, Error)>)
    requires Forward(raw) && ChildrenFirst(raw, plan)
    ensures |built| == |raw| && forall i :: 0 <= i < |raw| ==> built[i] == Slot(sha, raw, i)
    ensures LowestFrom(sha, raw, 0) == if lowest.Some? then Some(lowest.value.1) else None
  {
    hide BuiltAt, BuiltRefs, Assemble, KeptLowest, Gather;
    EmptyKept(sha, raw);
    built, lowest := seq(|raw|, _ => None), None;
    for a := 0 to |plan|
      invariant |built| == |raw|
      invariant forall b :: 0 <= b < a ==> built[plan[b]] == Slot(sha, raw, plan[b])
      invariant KeptLowest(sha, raw, plan[..a], lowest)
    {
      var i := plan[a];
      assert forall k :: 0 <= k < |raw[i].refs| ==> raw[i].refs[k] in plan[..a];
      assert raw[i].refs[..|raw[i].refs|] == raw[i].refs;
      GathersBuilt(sha, raw, built, i, |raw[i].refs|);
      BuiltUnfolds(sha, raw, i);
      assert plan[..a + 1] == plan[..a] + [i];
      KeepOne(sha, raw, plan[..a], i, lowest);
      var refs := Gather(built, raw[i].refs);
      if refs.Some? {
        var cell := Assemble(sha, raw[i], refs.value);
        if cell.Ok? {
          built := built[i := Some(cell.value)];
        } else {
          built := built[i := None];
          if lowest.None? || i < lowest.value.0 { lowest := Some((i, cell.error)); }
        }
      } else {
        built := built[i := None];
      }
    }
    assert plan[..|plan|] == plan;
    PlanCovers(sha, raw, plan, built, lowest);
  }

  lemma {:induction false} BuiltUnfolds(sha: Sha, raw: seq<RawCell>, i: nat)
    requires Forward(raw) && i < |raw|
    ensures BuiltAt(sha, raw, i) ==
      match BuiltRefs(sha, raw, i, |raw[i].refs|)
      case None => Ok(None)
      case Some(refs) =>
        match Assemble(sha, raw[i], refs)
        case Err(e) => Err(e)
        case Ok(c) => Ok(Some(c))
  {
    hide Assemble;
  }

  lemma {:induction false} PlanCovers(
      sha: Sha, raw: seq<RawCell>, plan: seq<nat>, built: seq<Option<Cell>>, lowest: Option<(nat, Error)>)
    requires Forward(raw) && ChildrenFirst(raw, plan) && |built| == |raw| && KeptLowest(sha, raw, plan, lowest)
    requires forall b :: 0 <= b < |plan| ==> built[plan[b]] == Slot(sha, raw, plan[b])
    ensures forall i :: 0 <= i < |raw| ==> built[i] == Slot(sha, raw, i)
    ensures LowestFrom(sha, raw, 0) == if lowest.Some? then Some(lowest.value.1) else None
  {
    hide BuiltAt;
    forall i | 0 <= i < |raw| ensures built[i] == Slot(sha, raw, i) { assert i in plan; }
    if lowest.Some? {
      forall k | 0 <= k < lowest.value.0 ensures BuiltAt(sha, raw, k).Ok? { assert k in plan; }
      LowestIsFirst(sha, raw, 0, lowest.value.0);
    } else {
      forall k | 0 <= k < |raw| ensures BuiltAt(sha, raw, k).Ok? { assert k in plan; }
      NoneRefused(sha, raw, 0);
    }
  }
}

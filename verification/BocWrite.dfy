module BocWrite {
  // The two bag writers over one plan: all bytes at once, or in pieces, and the same bytes.

  import opened Basics
  import opened Cells
  import opened Packing
  import opened Hashing
  import opened Topology
  import opened BocBytes

  datatype BocOptions = BocOptions(index: bool, crc32c: bool, storedHashes: bool)

  // ---------------------------------------------------------------- positions

  /** Where the order holds a cell of this identity; a later one answers for an earlier. */
  function Position(sha: Sha, order: seq<Cell>, c: Cell): (r: Result<nat>)
    ensures r.Ok? ==> r.value < |order| && ReprHash(sha, order[r.value]) == ReprHash(sha, c)
  {
    if order == [] then Err(Malformed)
    else if ReprHash(sha, order[|order| - 1]) == ReprHash(sha, c) then Ok(|order| - 1)
    else Position(sha, order[..|order| - 1], c)
  }

  /** The positions of some cells, refusing if any is not in the order. */
  function Positions(sha: Sha, order: seq<Cell>, cells: seq<Cell>): (r: Result<seq<nat>>)
    ensures r.Ok? ==> |r.value| == |cells| && forall i :: 0 <= i < |cells| ==>
      Position(sha, order, cells[i]) == Ok(r.value[i])
  {
    if cells == [] then Ok([])
    else
      var rest :- Positions(sha, order, cells[..|cells| - 1]);
      var last :- Position(sha, order, cells[|cells| - 1]);
      Ok(rest + [last])
  }

  /** Each cell's references as positions. */
  function Links(sha: Sha, order: seq<Cell>, upTo: nat): (r: Result<seq<seq<nat>>>)
    requires upTo <= |order|
    ensures r.Ok? ==> |r.value| == upTo && forall i :: 0 <= i < upTo ==>
      Positions(sha, order, order[i].refs) == Ok(r.value[i])
  {
    if upTo == 0 then Ok([])
    else
      var rest :- Links(sha, order, upTo - 1);
      var last :- Positions(sha, order, order[upTo - 1].refs);
      Ok(rest + [last])
  }

  lemma {:induction false} PositionIsPlace(sha: Sha, roots: seq<Cell>, order: seq<Cell>, i: nat)
    requires Apart(sha, roots) && i < |order| && (forall k :: 0 <= k < |order| ==> order[k] in Reach(roots))
    requires forall j, k :: 0 <= j < k < |order| ==> order[j] != order[k]
    ensures Position(sha, order, order[i]) == Ok(i)
  {
    hide Reach, ReprHash;
    if i < |order| - 1 {
      var init := order[..|order| - 1];
      assert order[|order| - 1] != order[i];
      PositionIsPlace(sha, roots, init, i);
    }
  }

  lemma {:induction false} PositionOfMember(sha: Sha, roots: seq<Cell>, order: seq<Cell>, c: Cell)
    requires Apart(sha, roots) && Topological(roots, order) && c in Reach(roots)
    ensures Position(sha, order, c).Ok? && order[Position(sha, order, c).value] == c
  {
    hide Reach, ReprHash, Apart;
    var i :| 0 <= i < |order| && order[i] == c;
    assert forall k :: 0 <= k < |order| ==> order[k] in order;
    PositionIsPlace(sha, roots, order, i);
  }

  lemma {:induction false} PositionsOfMembers(sha: Sha, roots: seq<Cell>, order: seq<Cell>, cells: seq<Cell>)
    requires Apart(sha, roots) && Topological(roots, order) && forall i :: 0 <= i < |cells| ==> cells[i] in Reach(roots)
    ensures Positions(sha, order, cells).Ok?
    ensures forall i :: 0 <= i < |cells| ==> order[Positions(sha, order, cells).value[i]] == cells[i]
  {
    hide Reach, Apart, Topological, Position;
    if cells != [] {
      PositionsOfMembers(sha, roots, order, cells[..|cells| - 1]);
      PositionOfMember(sha, roots, order, cells[|cells| - 1]);
    }
    forall i | 0 <= i < |cells| ensures order[Positions(sha, order, cells).value[i]] == cells[i] {
      PositionOfMember(sha, roots, order, cells[i]);
    }
  }

  lemma {:induction false} LinksOfOrder(sha: Sha, roots: seq<Cell>, order: seq<Cell>, upTo: nat)
    requires Apart(sha, roots) && Topological(roots, order) && upTo <= |order|
    ensures Links(sha, order, upTo).Ok?
  {
    hide Reach, Apart, Positions;
    if upTo > 0 {
      LinksOfOrder(sha, roots, order, upTo - 1);
      var c := order[upTo - 1];
      assert c in order;
      forall k | 0 <= k < |c.refs| ensures c.refs[k] in Reach(roots) { ReachCloses(roots, c, k); }
      PositionsOfMembers(sha, roots, order, c.refs);
    }
  }

  // ---------------------------------------------------------------- the bytes

  /** The cell area from cell `k` on. */
  function BodyFrom(sha: Sha, order: seq<Cell>, links: seq<seq<nat>>, refSize: nat, stored: bool, k: nat): seq<byte>
    requires |links| == |order| && k <= |order|
    decreases |order| - k
  {
    if k == |order| then []
    else Record(sha, order[k], links[k], refSize, stored) + BodyFrom(sha, order, links, refSize, stored, k + 1)
  }

  /** Where each cell ends in the cell area. */
  function Offsets(sha: Sha, order: seq<Cell>, links: seq<seq<nat>>, refSize: nat, stored: bool,
      upTo: nat): (r: seq<nat>)
    requires |links| == |order| && upTo <= |order|
    ensures |r| == upTo
  {
    if upTo == 0 then []
    else
      var rest := Offsets(sha, order, links, refSize, stored, upTo - 1);
      rest + [EndOf(rest) + |Record(sha, order[upTo - 1], links[upTo - 1], refSize, stored)|]
  }

  function EndOf(offsets: seq<nat>): nat { if offsets == [] then 0 else offsets[|offsets| - 1] }

  lemma {:induction false} OffsetsEnd(sha: Sha, order: seq<Cell>, links: seq<seq<nat>>, refSize: nat, stored: bool,
      k: nat)
    requires |links| == |order| && k <= |order|
    ensures EndOf(Offsets(sha, order, links, refSize, stored, k)) + |BodyFrom(sha, order, links, refSize, stored, k)|
      == |BodyFrom(sha, order, links, refSize, stored, 0)|
    decreases k
  {
    hide Record;
    if k > 0 { OffsetsEnd(sha, order, links, refSize, stored, k - 1); }
  }

  function Flags(refSize: nat, options: BocOptions): byte {
    (refSize + (if options.index then 0x80 else 0) + (if options.crc32c then 0x40 else 0)) % 256
  }

  /** Everything before the cell area. */
  function HeaderBytes(count: nat, area: nat, options: BocOptions, rootList: seq<nat>, offsets: seq<nat>): seq<byte> {
    var refSize, offsetSize := ByteWidth(count), ByteWidth(area);
    MAGIC + [Flags(refSize, options), offsetSize % 256]
    + BigEndian(count, refSize) + BigEndian(|rootList|, refSize) + BigEndian(0, refSize) + BigEndian(area, offsetSize)
    + IndexBytes(rootList, refSize) + (if options.index then IndexBytes(offsets, offsetSize) else [])
  }

  function Sealed(bytes: seq<byte>, checksum: bool): seq<byte> {
    if checksum then bytes + CrcTail(CrcUpdate(CRC_INIT, bytes)) else bytes
  }

  /** What both writers settle before a byte is out: the order, the references, and the roots. */
  datatype Plan = Plan(order: seq<Cell>, links: seq<seq<nat>>, rootList: seq<nat>) {
    predicate Valid() { |links| == |order| }
  }

  ghost function PlanOf(sha: Sha, roots: seq<Cell>): (r: Result<Plan>)
    ensures r.Ok? ==> r.value.Valid() && r.value.order == Order(sha, roots)
  {
    if roots == [] then Err(BadHeader)
    else
      var order := Order(sha, roots);
      var links :- Links(sha, order, |order|);
      if |order| > MAX_CELLS then Err(TooManyCells)
      else
        var rootList :- Positions(sha, order, roots);
        Ok(Plan(order, links, rootList))
  }

  function Body(sha: Sha, plan: Plan, options: BocOptions): seq<byte>
    requires plan.Valid()
  {
    BodyFrom(sha, plan.order, plan.links, ByteWidth(|plan.order|), options.storedHashes, 0)
  }

  function Opening(sha: Sha, plan: Plan, options: BocOptions): seq<byte>
    requires plan.Valid()
  {
    HeaderBytes(|plan.order|, |Body(sha, plan, options)|, options, plan.rootList,
      Offsets(sha, plan.order, plan.links, ByteWidth(|plan.order|), options.storedHashes, |plan.order|))
  }

  /** The bag itself. */
  ghost function Serialized(sha: Sha, roots: seq<Cell>, options: BocOptions): Result<seq<byte>> {
    var plan :- PlanOf(sha, roots);
    Ok(Sealed(Opening(sha, plan, options) + Body(sha, plan, options), options.crc32c))
  }

  // ---------------------------------------------------------------- the writers

  /** The order, the references and the root positions, refusing no roots and too many cells. */
  method MakePlan(sha: Sha, roots: seq<Cell>) returns (r: Result<Plan>)
    ensures r == PlanOf(sha, roots)
  {
    hide Order, Links, Positions;
    if roots == [] { return Err(BadHeader); }
    var order := OrderCells(sha, roots);
    var links := Links(sha, order, |order|);
    if links.Err? { return Err(links.error); }
    if |order| > MAX_CELLS { return Err(TooManyCells); }
    var rootList := Positions(sha, order, roots);
    if rootList.Err? { return Err(rootList.error); }
    return Ok(Plan(order, links.value, rootList.value));
  }

  /** The bag in one buffer: the cells are written first, and the header from where they ended. */
  method SerializeBocWith(sha: Sha, roots: seq<Cell>, options: BocOptions) returns (r: Result<seq<byte>>)
    ensures r == Serialized(sha, roots, options)
  {
    hide Record, HeaderBytes, Sealed, PlanOf, ByteWidth;
    var made := MakePlan(sha, roots);
    if made.Err? { return Err(made.error); }
    var plan := made.value;
    var count, refSize := |plan.order|, ByteWidth(|plan.order|);
    var body: seq<byte>, offsets: seq<nat> := [], [];
    for k := 0 to count
      invariant body + BodyFrom(sha, plan.order, plan.links, refSize, options.storedHashes, k)
        == Body(sha, plan, options)
      invariant offsets == Offsets(sha, plan.order, plan.links, refSize, options.storedHashes, k)
      invariant |body| == EndOf(offsets)
    {
      var record := Record(sha, plan.order[k], plan.links[k], refSize, options.storedHashes);
      Onward(body, record, BodyFrom(sha, plan.order, plan.links, refSize, options.storedHashes, k + 1));
      body := body + record;
      offsets := offsets + [|body|];
    }
    assert body + [] == body;
    var header := HeaderBytes(count, |body|, options, plan.rootList, offsets);
    return Ok(Sealed(header + body, options.crc32c));
  }

  lemma {:induction false} Onward(a: seq<byte>, b: seq<byte>, c: seq<byte>)
    ensures a + (b + c) == a + b + c
  {}

  const CHUNK_TARGET: nat := 16384

  datatype Phase = InHeader | InBody | InCrc | Done

  /** What is left of a bag once its first bytes, folded into `running`, are out. */
  function RestOf(crc: bool, running: bv32, body: seq<byte>): seq<byte> {
    body + if crc then CrcTail(CrcUpdate(running, body)) else []
  }

  /** A bag written a chunk at a time. */
  class BocChunks {
    const sha: Sha
    const order: seq<Cell>
    const links: seq<seq<nat>>
    const refSize: nat
    const crc: bool
    const stored: bool
    var header: seq<byte>
    var running: bv32
    var cursor: nat
    var phase: Phase

    ghost predicate Valid()
      reads this
    {
      && |links| == |order| && cursor <= |order|
      && (phase.InHeader? ==> cursor == 0 && header != [])
      && (phase.InCrc? ==> crc)
    }

    /** The bytes still to come. */
    ghost function Remaining(): seq<byte>
      requires Valid()
      reads this
    {
      match phase
      case InHeader => header + RestOf(crc, running, BodyFrom(sha, order, links, refSize, stored, 0))
      case InBody => RestOf(crc, running, BodyFrom(sha, order, links, refSize, stored, cursor))
      case InCrc => CrcTail(running)
      case Done => []
    }

    /** The body is sized in a first pass, so that the header can be written before any cell. */
    constructor (sha: Sha, plan: Plan, options: BocOptions)
      requires plan.Valid()
      ensures Valid() && phase == InHeader
      ensures Remaining() == Sealed(Opening(sha, plan, options) + Body(sha, plan, options), options.crc32c)
    {
      hide Record, HeaderBytes, CrcUpdate, CrcTail, ByteWidth;
      var size := ByteWidth(|plan.order|);
      var length, offsets := 0, [];
      for k := 0 to |plan.order|
        invariant offsets == Offsets(sha, plan.order, plan.links, size, options.storedHashes, k)
          && length == EndOf(offsets)
      {
        length := length + RecordLength(sha, plan.order[k], plan.links[k], size, options.storedHashes);
        offsets := offsets + [length];
      }
      OffsetsEnd(sha, plan.order, plan.links, size, options.storedHashes, |plan.order|);
      var opening := HeaderBytes(|plan.order|, length, options, plan.rootList, offsets);
      HeaderOpens(|plan.order|, length, options, plan.rootList, offsets);
      CrcJoins(CRC_INIT, opening, Body(sha, plan, options));
      this.sha, order, links, refSize := sha, plan.order, plan.links, size;
      crc, stored := options.crc32c, options.storedHashes;
      header, running := opening, CrcUpdate(CRC_INIT, opening);
      cursor, phase := 0, InHeader;
      Onward(opening, Body(sha, plan, options), CrcTail(CrcUpdate(CRC_INIT, opening + Body(sha, plan, options))));
    }

    /** The next chunk, or nothing once the bag is out. */
    method Next() returns (chunk: Option<seq<byte>>)
      requires Valid()
      modifies this
      ensures Valid()
      ensures chunk.None? ==> old(Remaining()) == [] && Remaining() == []
      ensures chunk.Some? ==> chunk.value != [] && old(Remaining()) == chunk.value + Remaining()
    {
      hide Record, CrcUpdate, CrcTail;
      if phase.InHeader? {
        phase := InBody;
        return Some(header);
      }
      if phase.InBody? && cursor < |order| {
        var out := TakeCells();
        return Some(out);
      }
      if phase.InBody? {
        assert CrcUpdate(running, []) == running by { CrcOfNothing(running); }
        phase := if crc then InCrc else Done;
      }
      if phase.InCrc? {
        phase := Done;
        return Some(CrcTail(running));
      }
      return None;
    }

    /** Whole cells up to the chunk's target size, at least one of them. */
    method TakeCells() returns (chunk: seq<byte>)
      requires Valid() && phase.InBody? && cursor < |order|
      modifies this
      ensures Valid() && chunk != [] && old(Remaining()) == chunk + Remaining()
    {
      hide CrcUpdate, CrcTail, Record;
      chunk := [];
      ghost var before := BodyFrom(sha, order, links, refSize, stored, cursor);
      while cursor < |order| && |chunk| < CHUNK_TARGET
        invariant Valid() && phase.InBody? && running == old(running)
        invariant chunk + BodyFrom(sha, order, links, refSize, stored, cursor) == before
        invariant cursor == old(cursor) || chunk != []
        decreases |order| - cursor
      {
        var record := Record(sha, order[cursor], links[cursor], refSize, stored);
        Onward(chunk, record, BodyFrom(sha, order, links, refSize, stored, cursor + 1));
        chunk := chunk + record;
        cursor := cursor + 1;
      }
      ghost var after := BodyFrom(sha, order, links, refSize, stored, cursor);
      CrcJoins(running, chunk, after);
      running := CrcUpdate(running, chunk);
      Onward(chunk, after, if crc then CrcTail(CrcUpdate(running, after)) else []);
    }
  }

  /** How long a cell's record is, without writing it. */
  function RecordLength(sha: Sha, c: Cell, indices: seq<nat>, refSize: nat, stored: bool): (r: nat)
    ensures r == |Record(sha, c, indices, refSize, stored)|
  {
    2 + (if stored then 34 * (c.mask.Count() + 1) else 0) + |Pack(c.bits)| + |indices| * refSize
  }

  lemma {:induction false} HeaderOpens(count: nat, area: nat, options: BocOptions, rootList: seq<nat>,
      offsets: seq<nat>)
    ensures HeaderBytes(count, area, options, rootList, offsets) != []
  {
    assert HeaderBytes(count, area, options, rootList, offsets)[0] == 0xb5;
  }

  lemma {:induction false} CrcOfNothing(crc: bv32)
    ensures CrcUpdate(crc, []) == crc
  {}

  /** The chunks, put together, are the bag the one-buffer writer makes. */
  method CollectChunks(sha: Sha, roots: seq<Cell>, options: BocOptions) returns (r: Result<seq<byte>>)
    ensures r == Serialized(sha, roots, options)
  {
    hide PlanOf, Sealed, Opening, Body;
    var made := MakePlan(sha, roots);
    if made.Err? { return Err(made.error); }
    var chunks := new BocChunks(sha, made.value, options);
    var out: seq<byte> := [];
    ghost var bag := chunks.Remaining();
    var next := chunks.Next();
    while next.Some?
      invariant fresh(chunks) && chunks.Valid()
      invariant next.Some? ==> out + (next.value + chunks.Remaining()) == bag
      invariant next.None? ==> out == bag
      decreases if next.Some? then 1 + |chunks.Remaining()| else 0
    {
      ghost var was := chunks.Remaining();
      Onward(out, next.value, was);
      out := out + next.value;
      next := chunks.Next();
      assert next.None? ==> out + [] == out;
    }
    return Ok(out);
  }
}

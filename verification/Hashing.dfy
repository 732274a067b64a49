module Hashing {
  // Hashes and depths by level: their definition on cells, and the loops that compute them from
  // what children are already known to answer.

  import opened Basics
  import opened Cells
  import opened Packing

  type Hash = s: seq<byte> | |s| == 32 witness seq(32, _ => 0)

  /** The hash function. Nothing is assumed of it here but its width. */
  type Sha = seq<byte> -> Hash

  const MAX_DEPTH_VALUE: nat := 65535

  // ---------------------------------------------------------------- the pieces of a representation

  function Tag(kind: CellType): byte {
    match kind
    case Ordinary => 0
    case PrunedBranch => 1
    case LibraryReference => 2
    case MerkleProof => 3
    case MerkleUpdate => 4
  }

  /** Under a Merkle cell, children are asked one level higher. */
  function Shift(kind: CellType): nat { if kind.MerkleProof? || kind.MerkleUpdate? then 1 else 0 }

  predicate Marks(mask: Mask, level: nat) {
    (level == 1 && mask.one) || (level == 2 && mask.two) || (level == 3 && mask.three)
  }

  function RefsDescriptor(refs: nat, exotic: bool, mask: Mask, level: nat): byte {
    (refs + (if exotic then 8 else 0) + 32 * mask.Applied(level).Byte()) % 256
  }

  function Heading(refs: nat, c: Cell, level: nat): (r: seq<byte>)
    ensures |r| == 2
  {
    [RefsDescriptor(refs, c.IsExotic(), c.mask, level), BitsDescriptor(c.bits) % 256]
  }

  function U16(x: nat): (r: seq<byte>)
    ensures |r| == 2
  {
    [x / 256 % 256, x % 256]
  }

  /** The number two bytes spell, or zero past the end. */
  function FromU16(data: seq<byte>, at: nat): (r: nat)
    ensures r <= MAX_DEPTH_VALUE
  {
    if at + 2 <= |data| then 256 * (data[at] as int) + data[at + 1] as int else 0
  }

  function DepthBytes(depths: seq<nat>): (r: seq<byte>)
    ensures |r| == 2 * |depths|
  {
    if depths == [] then [] else DepthBytes(depths[..|depths| - 1]) + U16(depths[|depths| - 1])
  }

  function HashBytes(hashes: seq<Hash>): (r: seq<byte>)
    ensures |r| == 32 * |hashes|
  {
    if hashes == [] then [] else HashBytes(hashes[..|hashes| - 1]) + hashes[|hashes| - 1]
  }

  /** The depth over children of these depths, saturating as a sixteen-bit count does. */
  function Above(depths: seq<nat>): (r: nat)
    ensures r <= MAX_DEPTH_VALUE
  {
    if depths == [] then 0
    else
      var rest, last := Above(depths[..|depths| - 1]), depths[|depths| - 1];
      var one := if last >= MAX_DEPTH_VALUE then MAX_DEPTH_VALUE else last + 1;
      if one > rest then one else rest
  }

  function NoHash(): Hash { seq(32, _ => 0) }

  // ---------------------------------------------------------------- what a pruned branch stores

  /** Whether a placeholder's data is long enough for the hashes and depths its mask announces. */
  predicate HoldsStored(c: Cell) { |Pack(c.bits)| >= 2 + 34 * c.mask.Count() }

  function StoredHash(c: Cell, index: nat): Hash {
    if 34 + 32 * index <= |Pack(c.bits)| then Pack(c.bits)[2 + 32 * index..34 + 32 * index] else NoHash()
  }

  function StoredDepth(c: Cell, index: nat): (r: nat)
    ensures r <= MAX_DEPTH_VALUE
  {
    FromU16(Pack(c.bits), 2 + 32 * c.mask.Count() + 2 * index)
  }

  // ---------------------------------------------------------------- hashes and depths by level

  /** The depth a cell answers with at a level. */
  function DepthAt(c: Cell, level: nat): (r: nat)
    ensures r <= MAX_DEPTH_VALUE
    decreases c, level + 1
  {
    if c.kind.PrunedBranch? then
      if c.mask.HashIndex(level) < c.mask.Count() then StoredDepth(c, c.mask.HashIndex(level)) else 0
    else if level > 0 && !Marks(c.mask, level) then DepthAt(c, level - 1)
    else Above(ChildDepths(c, level + Shift(c.kind)))
  }

  function ChildDepths(c: Cell, level: nat): (r: seq<nat>)
    ensures |r| == |c.refs|
    decreases c, 0
  {
    seq(|c.refs|, i requires 0 <= i < |c.refs| => DepthAt(c.refs[i], level))
  }

  /** The hash a cell answers with at a level. */
  function HashAt(sha: Sha, c: Cell, level: nat): Hash
    decreases c, level + 1, 1
  {
    if c.kind.PrunedBranch? then
      if c.mask.HashIndex(level) < c.mask.Count() then StoredHash(c, c.mask.HashIndex(level))
      else sha(PlaceholderRepr(c))
    else if level > 0 && !Marks(c.mask, level) then HashAt(sha, c, level - 1)
    else sha(ReprAt(sha, c, level))
  }

  function ChildHashes(sha: Sha, c: Cell, level: nat): (r: seq<Hash>)
    ensures |r| == |c.refs|
    decreases c, 0, 0
  {
    seq(|c.refs|, i requires 0 <= i < |c.refs| => HashAt(sha, c.refs[i], level))
  }

  /** A placeholder as it stands: what its own topmost hash is taken over. */
  function PlaceholderRepr(c: Cell): seq<byte> { Heading(0, c, c.mask.Level()) + Pack(c.bits) }

  /** What the hash of a level is taken over: the data or the hash below, then the children. */
  function ReprAt(sha: Sha, c: Cell, level: nat): seq<byte>
    decreases c, level + 1, 0
  {
    Heading(|c.refs|, c, level)
    + (if level == 0 then Pack(c.bits) else HashAt(sha, c, level - 1))
    + (DepthBytes(ChildDepths(c, level + Shift(c.kind))) + HashBytes(ChildHashes(sha, c, level + Shift(c.kind))))
  }

  /** The hash all proofs are about. */
  function LevelZero(sha: Sha, c: Cell): Hash { HashAt(sha, c, 0) }

  /** The hash at a cell's own level, which tells the cell itself apart. */
  function ReprHash(sha: Sha, c: Cell): Hash { HashAt(sha, c, c.mask.Level()) }

  /** Above a cell's own level its topmost answer stands. */
  lemma {:induction false} Settles(sha: Sha, c: Cell, level: nat)
    requires level >= c.mask.Level()
    ensures HashAt(sha, c, level) == ReprHash(sha, c)
    ensures DepthAt(c, level) == DepthAt(c, c.mask.Level())
  {
    if level > c.mask.Level() && !c.kind.PrunedBranch? { Settles(sha, c, level - 1); }
  }

  // ---------------------------------------------------------------- well-made cells

  function ImpliedMask(kind: CellType, children: Mask, stored: Mask): Mask {
    match kind
    case PrunedBranch => stored
    case LibraryReference => NO_LEVELS
    case MerkleProof | MerkleUpdate => children.Down()
    case Ordinary => children
  }

  function ExpectedRefs(kind: CellType): nat
    requires !kind.Ordinary?
  {
    match kind
    case PrunedBranch | LibraryReference => 0
    case MerkleProof => 1
    case MerkleUpdate => 2
  }

  /** What a parsed cell's kind asks of its data and references. */
  predicate Classified(c: Cell) {
    c.IsExotic() ==>
      && |c.bits| > 0 && Pack(c.bits)[0] == Tag(c.kind)
      && |c.refs| == ExpectedRefs(c.kind)
      && (c.kind.PrunedBranch? ==>
            && c.mask != NO_LEVELS
            && |Pack(c.bits)| == 2 + 34 * c.mask.Count()
            && Pack(c.bits)[1] == c.mask.Byte())
  }

  predicate Fits(c: Cell) { |c.bits| <= MAX_BITS && |c.refs| <= MAX_REFS }

  predicate Masked(c: Cell) { c.mask == ImpliedMask(c.kind, UnionOfMasks(c.refs), c.mask) }

  /** A cell as a parse or a builder leaves it, all the way down. */
  predicate Sound(c: Cell)
    decreases c
  {
    Fits(c) && Classified(c) && Masked(c) && forall i :: 0 <= i < |c.refs| ==> Sound(c.refs[i])
  }

  predicate Under(a: Mask, b: Mask) { (a.one ==> b.one) && (a.two ==> b.two) && (a.three ==> b.three) }

  lemma {:induction false} UnionCovers(cells: seq<Cell>, i: nat)
    requires i < |cells|
    ensures Under(cells[i].mask, UnionOfMasks(cells))
  {
    if i < |cells| - 1 { UnionCovers(cells[..|cells| - 1], i); }
  }

  lemma {:induction false} UnionIsLeast(cells: seq<Cell>, bound: Mask)
    requires forall i :: 0 <= i < |cells| ==> Under(cells[i].mask, bound)
    ensures Under(UnionOfMasks(cells), bound)
  {
    if cells != [] { UnionIsLeast(cells[..|cells| - 1], bound); }
  }

  // ---------------------------------------------------------------- the loop

  /** Hashes and depths in mask order, as a finished cell carries them. */
  datatype Identity = Identity(mask: Mask, hashes: seq<Hash>, depths: seq<nat>) {
    predicate AnswersAt(level: nat) { mask.HashIndex(level) < |hashes| == |depths| }

    function Hash(level: nat): Hash
      requires AnswersAt(level)
    {
      hashes[mask.HashIndex(level)]
    }

    function Depth(level: nat): nat
      requires AnswersAt(level)
    {
      depths[mask.HashIndex(level)]
    }
  }

  /** An identity answers at every level as the cell's definition does. */
  ghost predicate Right(sha: Sha, id: Identity, c: Cell) {
    && id.mask == c.mask && |id.hashes| == |id.depths| == c.mask.Count() + 1
    && forall level: nat ::
         && id.hashes[c.mask.HashIndex(level)] == HashAt(sha, c, level)
         && id.depths[c.mask.HashIndex(level)] == DepthAt(c, level)
  }

  function MasksOf(ids: seq<Identity>): Mask {
    if ids == [] then NO_LEVELS else MasksOf(ids[..|ids| - 1]).Union(ids[|ids| - 1].mask)
  }

  lemma {:induction false} SameMasks(ids: seq<Identity>, cells: seq<Cell>)
    requires |ids| == |cells| && forall i :: 0 <= i < |ids| ==> ids[i].mask == cells[i].mask
    ensures MasksOf(ids) == UnionOfMasks(cells)
  {
    if ids != [] { SameMasks(ids[..|ids| - 1], cells[..|cells| - 1]); }
  }

  /** Identities that answer for a run of cells as the cells do. */
  ghost predicate AllRight(sha: Sha, ids: seq<Identity>, cells: seq<Cell>) {
    |ids| == |cells| && forall i :: 0 <= i < |ids| ==> Right(sha, ids[i], cells[i])
  }

  lemma {:induction false} RightAt(sha: Sha, ids: seq<Identity>, cells: seq<Cell>, i: nat, level: nat)
    requires AllRight(sha, ids, cells) && i < |cells|
    ensures ids[i].AnswersAt(level)
    ensures ids[i].Hash(level) == HashAt(sha, cells[i], level) && ids[i].Depth(level) == DepthAt(cells[i], level)
  {
    assert Right(sha, ids[i], cells[i]);
  }

  /** Every child's depth, and the depth over them. */
  method FeedDepths(sha: Sha, c: Cell, children: seq<Identity>, level: nat) returns (depth: nat, tail: seq<byte>)
    requires AllRight(sha, children, c.refs)
    ensures depth == Above(ChildDepths(c, level)) && tail == DepthBytes(ChildDepths(c, level))
  {
    hide HashAt, DepthAt, Right, Identity.Hash, Identity.Depth, Identity.AnswersAt;
    ghost var depths := ChildDepths(c, level);
    depth, tail := 0, [];
    for i := 0 to |children|
      invariant depth == Above(depths[..i]) && tail == DepthBytes(depths[..i])
    {
      RightAt(sha, children, c.refs, i, level);
      var at := children[i].Depth(level);
      assert depths[..i + 1][..i] == depths[..i];
      var one := if at >= MAX_DEPTH_VALUE then MAX_DEPTH_VALUE else at + 1;
      depth := if one > depth then one else depth;
      tail := tail + U16(at);
    }
    assert depths[..|children|] == depths;
  }

  /** Every child's hash. */
  method FeedHashes(sha: Sha, c: Cell, children: seq<Identity>, level: nat) returns (tail: seq<byte>)
    requires AllRight(sha, children, c.refs)
    ensures tail == HashBytes(ChildHashes(sha, c, level))
  {
    hide HashAt, DepthAt, Right, Identity.Hash, Identity.Depth, Identity.AnswersAt;
    ghost var hashes := ChildHashes(sha, c, level);
    tail := [];
    for i := 0 to |children|
      invariant tail == HashBytes(hashes[..i])
    {
      RightAt(sha, children, c.refs, i, level);
      assert hashes[..i + 1][..i] == hashes[..i];
      tail := tail + children[i].Hash(level);
    }
    assert hashes[..|children|] == hashes;
  }

  /** The hash and the depth a level opens, given what the level below answered. */
  method OpenLevel(sha: Sha, c: Cell, children: seq<Identity>, level: nat, below: seq<byte>)
      returns (hash: Hash, depth: nat)
    requires AllRight(sha, children, c.refs) && !c.kind.PrunedBranch? && (level == 0 || Marks(c.mask, level))
    requires below == if level == 0 then Pack(c.bits) else HashAt(sha, c, level - 1)
    ensures hash == HashAt(sha, c, level) && depth == DepthAt(c, level)
  {
    hide AllRight, DepthBytes, HashBytes, ChildDepths, ChildHashes, Above, Heading;
    var depths: seq<byte>;
    depth, depths := FeedDepths(sha, c, children, level + Shift(c.kind));
    var hashes := FeedHashes(sha, c, children, level + Shift(c.kind));
    hash := sha(Heading(|c.refs|, c, level) + below + (depths + hashes));
  }

  method PlaceholderIdentity(sha: Sha, c: Cell) returns (r: Result<Identity>)
    requires c.kind.PrunedBranch?
    ensures r.Ok? <==> HoldsStored(c)
    ensures r.Ok? ==> Right(sha, r.value, c)
  {
    hide StoredHash, StoredDepth, Pack, PlaceholderRepr;
    var stored := c.mask.Count();
    var hashes: seq<Hash>, depths: seq<nat> := [], [];
    if |Pack(c.bits)| < 2 + 34 * stored { return Err(Malformed); }
    for index := 0 to stored
      invariant |hashes| == |depths| == index
      invariant forall k :: 0 <= k < index ==> hashes[k] == StoredHash(c, k) && depths[k] == StoredDepth(c, k)
    {
      hashes, depths := hashes + [StoredHash(c, index)], depths + [StoredDepth(c, index)];
    }
    return Ok(Identity(c.mask, hashes + [sha(PlaceholderRepr(c))], depths + [0]));
  }

  lemma {:induction false} NextIndex(mask: Mask, level: nat)
    ensures mask.HashIndex(level + 1) == mask.HashIndex(level) + (if Marks(mask, level + 1) then 1 else 0)
    ensures level >= mask.Level() ==> mask.HashIndex(level) == mask.Count()
    ensures mask.HashIndex(0) == 0
  {}

  lemma {:induction false} StaysPut(sha: Sha, c: Cell, level: nat)
    requires !c.kind.PrunedBranch? && !Marks(c.mask, level + 1)
    ensures HashAt(sha, c, level + 1) == HashAt(sha, c, level) && DepthAt(c, level + 1) == DepthAt(c, level)
  {}

  /** Computes a non-placeholder's identity, lowest level first, each hash feeding the next. */
  method LevelIdentity(sha: Sha, c: Cell, children: seq<Identity>) returns (id: Identity)
    requires AllRight(sha, children, c.refs)
    requires !c.kind.PrunedBranch?
    ensures Right(sha, id, c)
  {
    hide Mask.HashIndex, Mask.Level, Mask.Count, Marks, ReprAt, HashAt, DepthAt, AllRight;
    var hash, depth := OpenLevel(sha, c, children, 0, Pack(c.bits));
    var hashes, depths := [hash], [depth];
    NextIndex(c.mask, 0);
    var level := 0;
    while level < c.mask.Level()
      invariant level <= c.mask.Level()
      invariant |hashes| == |depths| == c.mask.HashIndex(level) + 1
      invariant forall l: nat :: l <= level ==>
        && c.mask.HashIndex(l) <= c.mask.HashIndex(level)
        && hashes[c.mask.HashIndex(l)] == HashAt(sha, c, l)
        && depths[c.mask.HashIndex(l)] == DepthAt(c, l)
    {
      NextIndex(c.mask, level);
      if !Marks(c.mask, level + 1) { StaysPut(sha, c, level); }
      level := level + 1;
      if c.mask.HashIndex(level) == |hashes| {
        hash, depth := OpenLevel(sha, c, children, level, hashes[|hashes| - 1]);
        hashes, depths := hashes + [hash], depths + [depth];
      }
    }
    id := Identity(c.mask, hashes, depths);
    NextIndex(c.mask, level);
    forall l: nat ensures
      && c.mask.HashIndex(l) < |hashes|
      && hashes[c.mask.HashIndex(l)] == HashAt(sha, c, l) && depths[c.mask.HashIndex(l)] == DepthAt(c, l)
    {
      if l > level { Settles(sha, c, l); NextIndex(c.mask, l); }
    }
  }

  /** Decides whether a cell is well made over known children, and gives its identity if so. */
  method Summarize(sha: Sha, c: Cell, children: seq<Identity>) returns (r: Result<Identity>)
    requires AllRight(sha, children, c.refs)
    ensures r.Ok? <==> Masked(c) && (c.kind.PrunedBranch? ==> HoldsStored(c))
    ensures r.Ok? ==> Right(sha, r.value, c)
  {
    hide HashAt, DepthAt;
    SameMasks(children, c.refs);
    if c.mask != ImpliedMask(c.kind, MasksOf(children), c.mask) { return Err(Malformed); }
    if c.kind.PrunedBranch? {
      r := PlaceholderIdentity(sha, c);
    } else {
      var id := LevelIdentity(sha, c, children);
      r := Ok(id);
    }
  }
}

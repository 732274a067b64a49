module Merkle {
  // Merkle proofs: the cell that covers a tree by hash, built, read through and checked.

  import opened Basics
  import opened Cells
  import opened Packing
  import opened Hashing

  /** The level-zero hashes and then the depths of the covered trees, after the tag of the kind. */
  function CoveringData(sha: Sha, kind: CellType, covered: seq<Cell>): seq<byte> {
    [Tag(kind)] + HashBytes(Hashes(sha, covered)) + DepthBytes(Depths(covered))
  }

  function Hashes(sha: Sha, cells: seq<Cell>): (r: seq<Hash>)
    ensures |r| == |cells|
  {
    seq(|cells|, i requires 0 <= i < |cells| => LevelZero(sha, cells[i]))
  }

  function Depths(cells: seq<Cell>): (r: seq<nat>)
    ensures |r| == |cells|
  {
    seq(|cells|, i requires 0 <= i < |cells| => DepthAt(cells[i], 0))
  }

  /** An exotic cell standing for ordinary trees: a proof over one, an update over two. */
  function CoveringCell(sha: Sha, kind: CellType, covered: seq<Cell>): Result<Cell>
    requires kind.MerkleProof? || kind.MerkleUpdate?
  {
    var bits := Unpack(CoveringData(sha, kind, covered));
    if exists i :: 0 <= i < |covered| && covered[i].IsExotic() then Err(Malformed)
    else if |bits| > MAX_BITS then Err(NoRoomForBits)
    else if |covered| > MAX_REFS then Err(NoRoomForRefs)
    else Ok(Cell(kind, bits, covered, UnionOfMasks(covered).Down()))
  }

  method CoverData(sha: Sha, kind: CellType, covered: seq<Cell>) returns (data: seq<byte>)
    ensures data == CoveringData(sha, kind, covered)
  {
    hide LevelZero, DepthAt;
    data := [Tag(kind)];
    ghost var hashes, depths := Hashes(sha, covered), Depths(covered);
    for i := 0 to |covered|
      invariant data == [Tag(kind)] + HashBytes(hashes[..i])
    {
      assert hashes[..i + 1][..i] == hashes[..i];
      data := data + LevelZero(sha, covered[i]);
    }
    assert hashes[..|covered|] == hashes;
    for i := 0 to |covered|
      invariant data == [Tag(kind)] + HashBytes(hashes) + DepthBytes(depths[..i])
    {
      assert depths[..i + 1][..i] == depths[..i];
      data := data + U16(DepthAt(covered[i], 0));
    }
    assert depths[..|covered|] == depths;
  }

  /** Builds a covering cell a tree at a time: the mask, then every hash, every depth, every tree. */
  method CoverTrees(sha: Sha, kind: CellType, covered: seq<Cell>) returns (r: Result<Cell>)
    requires kind.MerkleProof? || kind.MerkleUpdate?
    ensures r == CoveringCell(sha, kind, covered)
  {
    hide CoveringData, Unpack;
    var mask := NO_LEVELS;
    for i := 0 to |covered|
      invariant (forall k :: 0 <= k < i ==> !covered[k].IsExotic()) && mask == UnionOfMasks(covered[..i])
    {
      if covered[i].IsExotic() { return Err(Malformed); }
      assert covered[..i + 1][..i] == covered[..i];
      mask := mask.Union(covered[i].mask);
    }
    assert covered[..|covered|] == covered;
    var data := CoverData(sha, kind, covered);
    if |Unpack(data)| > MAX_BITS { return Err(NoRoomForBits); }
    if |covered| > MAX_REFS { return Err(NoRoomForRefs); }
    return Ok(Cell(kind, Unpack(data), covered, mask.Down()));
  }

  /** The Merkle proof over `content`. */
  function CreateProof(sha: Sha, content: Cell): Result<Cell> { CoveringCell(sha, MerkleProof, [content]) }

  /** Bytes `[at, at + 32)` of a cell's data, if it has them. */
  function HashIn(c: Cell, at: nat): Option<Hash> {
    if at + 32 <= |Pack(c.bits)| then Some(Pack(c.bits)[at..at + 32]) else None
  }

  function DepthIn(c: Cell, at: nat): Option<nat> {
    if at + 2 <= |Pack(c.bits)| then Some(FromU16(Pack(c.bits), at)) else None
  }

  /** What a proof shows, its stored hash and depth confirmed against it. */
  function Virtualize(sha: Sha, proof: Cell): Result<Cell> {
    if !proof.kind.MerkleProof? || |proof.refs| == 0 then Err(Malformed)
    else if HashIn(proof, 1) != Some(LevelZero(sha, proof.refs[0])) then Err(Malformed)
    else if DepthIn(proof, 33) != Some(DepthAt(proof.refs[0], 0)) then Err(Malformed)
    else Ok(proof.refs[0])
  }

  /** What a proof shows, its hash being the `expected` one. */
  function VerifyMerkleProof(sha: Sha, cell: Cell, expected: Hash): Result<Cell> {
    if !cell.kind.MerkleProof? then Err(NotAMerkleProof)
    else if HashIn(cell, 1).None? then Err(Malformed)
    else if HashIn(cell, 1) != Some(expected) then Err(ProofNotAnchored)
    else if |cell.refs| == 0 then Err(Malformed)
    else if LevelZero(sha, cell.refs[0]) != expected then Err(ProofInconsistent)
    else if DepthIn(cell, 33).None? then Err(Malformed)
    else if DepthIn(cell, 33) != Some(DepthAt(cell.refs[0], 0)) then Err(ProofInconsistent)
    else Ok(cell.refs[0])
  }

  /** Checking against a root is reading through, and the content hashing to that root. */
  lemma {:induction false} VerifyIsAnchoredVirtualize(sha: Sha, cell: Cell, expected: Hash, content: Cell)
    ensures VerifyMerkleProof(sha, cell, expected) == Ok(content)
      <==> Virtualize(sha, cell) == Ok(content) && LevelZero(sha, content) == expected
  {
    hide LevelZero, Pack;
  }

  lemma {:induction false} DepthSpells(depth: nat, before: seq<byte>)
    requires depth <= MAX_DEPTH_VALUE
    ensures FromU16(before + U16(depth), |before|) == depth
  {}

  lemma {:induction false} ProofData(sha: Sha, content: Cell)
    ensures var data := CoveringData(sha, MerkleProof, [content]);
      && |data| == 35 && data[0] == 3
      && data[1..33] == LevelZero(sha, content) && FromU16(data, 33) == DepthAt(content, 0)
  {
    hide LevelZero, DepthAt;
    var hash, depth := LevelZero(sha, content), DepthAt(content, 0);
    assert Hashes(sha, [content]) == [hash] && Depths([content]) == [depth];
    assert [hash][..0] == [] && HashBytes([hash]) == [] + hash && [] + hash == hash;
    assert [depth][..0] == [] && DepthBytes([depth]) == [] + U16(depth) && [] + U16(depth) == U16(depth);
    assert |[3] + hash| == 33;
    DepthSpells(depth, [3] + hash);
  }

  /** Exactly the ordinary trees can be proved, and a well-made one's proof is well made and verifies to the tree. */
  lemma {:induction false} ProofVerifies(sha: Sha, content: Cell)
    requires Sound(content)
    ensures CreateProof(sha, content).Ok? <==> !content.IsExotic()
    ensures content.IsExotic() ==> CreateProof(sha, content) == Err(Malformed)
    ensures !content.IsExotic() ==>
      var proof := CreateProof(sha, content).value;
      Sound(proof) && VerifyMerkleProof(sha, proof, LevelZero(sha, content)) == Ok(content)
  {
    hide LevelZero, DepthAt, Pack, CoveringData, UnionOfMasks, Unpack, CreateProof, Mask.Down;
    ProofIsMade(sha, content);
    if !content.IsExotic() {
      ProofData(sha, content);
      var proof := CreateProof(sha, content).value;
      assert Pack(proof.bits) == CoveringData(sha, MerkleProof, [content]);
    }
  }

  lemma {:induction false} ProofIsMade(sha: Sha, content: Cell)
    ensures content.IsExotic() ==> CreateProof(sha, content) == Err(Malformed)
    ensures !content.IsExotic() ==>
      && CreateProof(sha, content).Ok?
      && var proof := CreateProof(sha, content).value;
         && proof.kind == MerkleProof && proof.refs == [content] && proof.mask == UnionOfMasks([content]).Down()
         && |proof.bits| == 280 && Pack(proof.bits) == CoveringData(sha, MerkleProof, [content])
  {
    hide LevelZero, DepthAt, Pack, CoveringData, UnionOfMasks, Unpack;
    assert [content][0] == content;
    var data := CoveringData(sha, MerkleProof, [content]);
    ProofData(sha, content);
    PackUnpack(data);
  }

  /** A proof is a level lower than what it covers: each level of it is the one above in the content. */
  lemma {:induction false} ProofIsALevelLower(sha: Sha, content: Cell)
    requires CreateProof(sha, content).Ok?
    ensures var proof := CreateProof(sha, content).value;
      proof.mask == Mask(content.mask.two, content.mask.three, false)
  {
    hide LevelZero, DepthAt, Pack, CoveringData, Unpack;
    assert [content][..0] == [] && UnionOfMasks([content]) == UnionOfMasks([]).Union(content.mask);
  }

  /**
    A proof that is accepted says what it covers: its cell opens with the kind, and stores the hash
    it was accepted for and the depth of the tree it gives back, whose own hash that is.
   */
  lemma {:induction false} AcceptedProofStates(sha: Sha, proof: Cell, expected: Hash)
    requires Sound(proof) && VerifyMerkleProof(sha, proof, expected).Ok?
    ensures var content := VerifyMerkleProof(sha, proof, expected).value;
      && proof.refs == [content] && LevelZero(sha, content) == expected && |Pack(proof.bits)| >= 35
      && Pack(proof.bits)[0] == 3 && Pack(proof.bits)[1..33] == expected
      && 256 * (Pack(proof.bits)[33] as int) + Pack(proof.bits)[34] as int == DepthAt(content, 0)
  {
    hide LevelZero, DepthAt, Pack, Masked, Fits;
  }

  /** The hash read out of an update at the new tree's place is the new tree's. */
  lemma {:induction false} UpdateNamesNewTree(sha: Sha, before: Cell, after: Cell)
    requires CoveringCell(sha, MerkleUpdate, [before, after]).Ok?
    ensures HashIn(CoveringCell(sha, MerkleUpdate, [before, after]).value, 33) == Some(LevelZero(sha, after))
  {
    hide LevelZero, DepthAt, Pack;
    var a, b, data := LevelZero(sha, before), LevelZero(sha, after), CoveringData(sha, MerkleUpdate, [before, after]);
    PackUnpack(data);
    assert Hashes(sha, [before, after]) == [a, b];
    assert [a, b][..1] == [a] && [a][..0] == [] && HashBytes([a, b]) == [] + a + b;
    assert data[33..65] == b;
  }
}

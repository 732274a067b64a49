module Cells {
  // Cells as values, with the two limits every builder and reader keeps to.

  import opened Basics

  datatype CellType = Ordinary | PrunedBranch | LibraryReference | MerkleProof | MerkleUpdate

  /** A three-bit level mask: which of the levels one, two and three a cell is significant at. */
  datatype Mask = Mask(one: bool, two: bool, three: bool) {
    function Union(other: Mask): Mask {
      Mask(one || other.one, two || other.two, three || other.three)
    }

    /** The mask one level down, as a Merkle cell carries it over what it covers. */
    function Down(): Mask { Mask(two, three, false) }

    /** The last level marked in the mask; zero for none. */
    function Level(): (r: nat)
      ensures r <= 3
    {
      if three then 3 else if two then 2 else if one then 1 else 0
    }

    /** What a hash at `level` sees of the mask: marks above it are dropped. */
    function Applied(level: nat): Mask {
      Mask(one && level >= 1, two && level >= 2, three && level >= 3)
    }

    function Count(): (r: nat)
      ensures r <= 3
    {
      Bit(one) + Bit(two) + Bit(three)
    }

    /** The position, among the hashes kept, of the one in force at `level`. */
    function HashIndex(level: nat): (r: nat)
      ensures r <= Count()
    {
      Applied(level).Count()
    }

    function Byte(): (r: nat)
      ensures r < 8
    {
      Bit(one) + 2 * Bit(two) + 4 * Bit(three)
    }
  }

  const NO_LEVELS := Mask(false, false, false)

  const MAX_BITS: nat := 1023
  const MAX_REFS: nat := 4

  datatype Cell = Cell(kind: CellType, bits: Bits, refs: seq<Cell>, mask: Mask) {
    predicate IsExotic() { !kind.Ordinary? }
  }

  /** The union of the masks of some cells. */
  function UnionOfMasks(cells: seq<Cell>): Mask {
    if cells == [] then NO_LEVELS else UnionOfMasks(cells[..|cells| - 1]).Union(cells[|cells| - 1].mask)
  }

  /** Bits and references without a kind: a builder's holding, a slice's remainder, a stored value. */
  datatype Payload = Payload(bits: Bits, refs: seq<Cell>)

  /**
    The whole payload as one ordinary cell. The source checks the limits store by store, and
    holdings only grow, so checking the total decides the same.
   */
  function Build(p: Payload): (r: Result<Cell>)
    ensures r.Ok? <==> |p.bits| <= MAX_BITS && |p.refs| <= MAX_REFS
    ensures r.Ok? ==> r.value.bits == p.bits && r.value.refs == p.refs && !r.value.IsExotic()
  {
    if |p.bits| > MAX_BITS then Err(NoRoomForBits)
    else if |p.refs| > MAX_REFS then Err(NoRoomForRefs)
    else Ok(Cell(Ordinary, p.bits, p.refs, UnionOfMasks(p.refs)))
  }
}

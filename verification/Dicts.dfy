module Dicts {
  // The dictionary as its callers hold it: an object whose root is looked up in, stored to and
  // removed from by keys given as bytes.

  import opened Basics
  import opened Cells
  import opened Packing
  import opened DictTree
  import opened DictCells
  import opened DictWrites

  // ---------------------------------------------------------------- keys

  /** The source's shift and mask on one byte; `KeyBits` says it is the bit of the unpacked key. */
  function KeyBit(key: seq<byte>, index: nat): bool {
    index / 8 < |key| && key[index / 8] / Pow2(7 - index % 8) % 2 == 1
  }

  /** The first `n` bits of the unpacked key, where it has that many. */
  function KeyOf(key: seq<byte>, n: nat): (r: Result<Bits>)
    ensures r.Ok? <==> n <= 8 * |key|
    ensures r.Ok? ==> r.value == Unpack(key)[..n]
  {
    if |key| < (n + 7) / 8 then Err(KeyLength)
    else
      KeyBits(key, n);
      Ok(seq(n, i requires 0 <= i < n => KeyBit(key, i)))
  }

  lemma {:induction false} KeyBits(key: seq<byte>, n: nat)
    requires n <= 8 * |key|
    ensures forall i :: 0 <= i < n ==> KeyBit(key, i) == Unpack(key)[i]
  {
    hide ToBits, ByteOf;
    forall i | 0 <= i < n ensures KeyBit(key, i) == Unpack(key)[i] {
      ByteSpellsBack(key[i / 8]);
      ByteBit(ToBits(key[i / 8], 8), i % 8);
    }
  }

  // ---------------------------------------------------------------- one write

  /** What a store leaves at the root. */
  function StoreAt<E>(sh: Shape<E>, root: Option<Cell>, key: Bits, entry: Entry<E>): Result<Cell> {
    if root.None? then LeafCell(sh, key, entry, |key|) else StoreFrom(sh, root.value, key, entry)
  }

  /** What a removal leaves at the root, and whether the key was there. */
  function RemoveAt<E>(sh: Shape<E>, root: Option<Cell>, key: Bits): Result<(bool, Option<Cell>)> {
    if root.None? then Ok((false, None))
    else
      var removal :- RemoveFrom(sh, root.value, key);
      match removal
      case NotThere => Ok((false, root))
      case NothingLeft => Ok((true, None))
      case Left(cell) => Ok((true, Some(cell)))
  }

  function LookupAt<E>(sh: Shape<E>, root: Option<Cell>, key: Bits): Result<Answer<E>> {
    if root.None? then Ok(Absent) else LookupFrom(sh, root.value, key)
  }

  lemma {:induction false} StoreIsDescent<E>(sh: Shape<E>, root: Cell, key: Bits, entry: Entry<E>)
    ensures StoreFrom(sh, root, key, entry) ==
      match DescendFrom(sh, [], root, key, 0)
      case Err(e) => Err(e)
      case Ok(w) => Rebuilt(sh, w.path, Bottom(sh, w, key, entry))
  {
    hide StoreFrom, DescendFrom, Bottom;
    StoreDescends(sh, [], root, key, 0, entry);
    assert key[0..] == key;
  }

  lemma {:induction false} RemoveIsDescent<E>(sh: Shape<E>, root: Cell, key: Bits)
    ensures RemoveFrom(sh, root, key) ==
      match DescendFrom(sh, [], root, key, 0)
      case Err(e) => Err(e)
      case Ok(w) => Dropped(sh, w)
  {
    hide RemoveFrom, DescendFrom, Dropped;
    RemoveDescends(sh, [], root, key, 0);
    assert key[0..] == key;
  }

  class Dict<E> {
    const shape: Shape<E>
    const keyBits: nat
    var root: Option<Cell>

    constructor (shape: Shape<E>, root: Option<Cell>, keyBits: nat)
      ensures this.shape == shape && this.root == root && this.keyBits == keyBits
    {
      this.shape, this.root, this.keyBits := shape, root, keyBits;
    }

    /** Takes any root as it is; only the key's width is judged, a wider one having no label that fits. */
    static method FromRoot(shape: Shape<E>, root: Option<Cell>, keyBits: nat) returns (r: Result<Dict<E>>)
      ensures r.Ok? <==> keyBits <= MAX_BITS
      ensures r.Ok? ==> fresh(r.value) && r.value.shape == shape && r.value.root == root && r.value.keyBits == keyBits
    {
      if keyBits > MAX_BITS { return Err(Malformed); }
      var dict := new Dict(shape, root, keyBits);
      return Ok(dict);
    }

    method Lookup(key: seq<byte>) returns (r: Result<Answer<E>>)
      ensures r == match KeyOf(key, keyBits) case Err(e) => Err(e) case Ok(bits) => LookupAt(shape, root, bits)
    {
      var bits := KeyOf(key, keyBits);
      if bits.Err? { return Err(bits.error); }
      r := FindLeaf(shape, root, bits.value);
    }

    /** The root becomes what `StoreAt` gives, or stays. */
    method Store(key: seq<byte>, extra: E, value: Payload) returns (r: Result<()>)
      modifies this`root
      ensures KeyOf(key, keyBits).Err? ==> r == Err(KeyLength) && root == old(root)
      ensures KeyOf(key, keyBits).Ok? ==>
        match StoreAt(shape, old(root), KeyOf(key, keyBits).value, Entry(extra, value))
        case Err(e) => r == Err(e) && root == old(root)
        case Ok(cell) => r == Ok(()) && root == Some(cell)
    {
      hide StoreFrom, LeafCell, Diverges, Rebuilt, Bottom, DescendFrom;
      var read := KeyOf(key, keyBits);
      if read.Err? { return Err(read.error); }
      var bits, entry := read.value, Entry(extra, value);
      if root.None? {
        var leaf := LeafCell(shape, bits, entry, keyBits);
        if leaf.Err? { return Err(leaf.error); }
        root := Some(leaf.value);
        return Ok(());
      }
      var walked := Descend(shape, root.value, bits);
      StoreIsDescent(shape, root.value, bits, entry);
      if walked.Err? { return Err(walked.error); }
      var w := walked.value;
      var bottom := Bottom(shape, w, bits, entry);
      if bottom.Err? {
        RebuiltErr(shape, w.path, bottom.error);
        return Err(bottom.error);
      }
      var whole := Rebuild(shape, w.path, bottom.value);
      if whole.Err? { return Err(whole.error); }
      root := Some(whole.value);
      return Ok(());
    }

    /** The root becomes what `RemoveAt` gives, or stays. */
    method Remove(key: seq<byte>) returns (r: Result<bool>)
      modifies this`root
      ensures KeyOf(key, keyBits).Err? ==> r == Err(KeyLength) && root == old(root)
      ensures KeyOf(key, keyBits).Ok? ==>
        match RemoveAt(shape, old(root), KeyOf(key, keyBits).value)
        case Err(e) => r == Err(e) && root == old(root)
        case Ok((there, changed)) => r == Ok(there) && root == changed
    {
      hide RemoveFrom, Diverges, Rebuilt, DescendFrom, CollapseCell;
      var read := KeyOf(key, keyBits);
      if read.Err? { return Err(read.error); }
      if root.None? { return Ok(false); }
      var walked := Descend(shape, root.value, read.value);
      RemoveIsDescent(shape, root.value, read.value);
      if walked.Err? { return Err(walked.error); }
      var w := walked.value;
      if w.diverged.Some? { return Ok(false); }
      if w.path == [] {
        root := None;
        return Ok(true);
      }
      var n := |w.path| - 1;
      var merged := CollapseCell(shape, w.path[n]);
      if merged.Err? {
        RebuiltErr(shape, w.path[..n], merged.error);
        return Err(merged.error);
      }
      var whole := Rebuild(shape, w.path[..n], merged.value);
      if whole.Err? { return Err(whole.error); }
      root := Some(whole.value);
      return Ok(true);
    }
  }
}

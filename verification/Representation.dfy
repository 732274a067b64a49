module Representation {
  // What a cell is hashed as, said without the recursion that computes it: its depth is the length
  // of the longest path below it, and every byte of its representation has its place.

  import opened Basics
  import opened Cells
  import opened Packing
  import opened Hashing
  import opened Usage
  import Topology

  // ---------------------------------------------------------------- depth

  /** Nothing below stands for something else. */
  predicate Visible(c: Cell)
    decreases c
  {
    !c.kind.PrunedBranch? && forall i :: 0 <= i < |c.refs| ==> Visible(c.refs[i])
  }

  function Capped(x: nat): nat { if x < MAX_DEPTH_VALUE then x else MAX_DEPTH_VALUE }

  function Heights(c: Cell): (r: seq<nat>)
    ensures |r| == |c.refs|
  {
    seq(|c.refs|, i requires 0 <= i < |c.refs| => Topology.HeightOf(c.refs[i]))
  }

  lemma {:induction false} AboveIsTallest(depths: seq<nat>, heights: seq<nat>)
    requires |depths| == |heights| && forall i :: 0 <= i < |depths| ==> depths[i] == Capped(heights[i])
    ensures Above(depths) == Capped(Topology.Tallest(heights))
  {
    if depths != [] { AboveIsTallest(depths[..|depths| - 1], heights[..|heights| - 1]); }
  }

  /** Where nothing is pruned every level answers one depth, the height of the tree, Merkle cells included. */
  lemma {:induction false} DepthIsHeight(c: Cell, level: nat)
    requires Visible(c)
    ensures DepthAt(c, level) == Capped(Topology.HeightOf(c))
    decreases c, level
  {
    hide Above, Topology.Tallest;
    if level > 0 && !Marks(c.mask, level) {
      DepthIsHeight(c, level - 1);
    } else {
      var below := ChildDepths(c, level + Shift(c.kind));
      forall i | 0 <= i < |c.refs| ensures below[i] == Capped(Heights(c)[i]) {
        DepthIsHeight(c.refs[i], level + Shift(c.kind));
      }
      AboveIsTallest(below, Heights(c));
      assert Topology.HeightOf(c) == Topology.Tallest(Heights(c)) by {
        assert Heights(c) == seq(|c.refs|, i requires 0 <= i < |c.refs| => Topology.HeightOf(c.refs[i]));
      }
    }
  }

  /** A path of this length leads somewhere, and none longer does. */
  ghost predicate Longest(c: Cell, n: nat) {
    && (exists path: Path :: |path| == n && At(c, path).Some?)
    && (forall path: Path :: At(c, path).Some? ==> |path| <= n)
  }

  lemma {:induction false} NoPathIsLonger(c: Cell, path: Path)
    requires At(c, path).Some?
    ensures |path| <= Topology.HeightOf(c)
    decreases |path|
  {
    if path != [] {
      NoPathIsLonger(c.refs[path[0]], path[1..]);
      Topology.ChildIsLower(c, path[0]);
    }
  }

  lemma {:induction false} PathOfHeight(c: Cell) returns (path: Path)
    ensures |path| == Topology.HeightOf(c) && At(c, path).Some?
    decreases c
  {
    hide Topology.Tallest;
    if Topology.HeightOf(c) == 0 { return []; }
    var below := seq(|c.refs|, i requires 0 <= i < |c.refs| => Topology.HeightOf(c.refs[i]));
    assert Topology.HeightOf(c) == Topology.Tallest(below);
    var i :| 0 <= i < |below| && below[i] == Topology.HeightOf(c) - 1;
    var rest := PathOfHeight(c.refs[i]);
    path := [i] + rest;
    assert path[1..] == rest;
  }

  /**
    The depth a cell answers with is the length of the longest path below it, as far as sixteen
    bits count.
   */
  lemma {:induction false} DepthIsLongestPath(c: Cell, level: nat, n: nat)
    requires Visible(c)
    ensures Longest(c, n) ==> DepthAt(c, level) == if n <= 65535 then n else 65535
    ensures DepthAt(c, level) < 65535 ==> Longest(c, DepthAt(c, level))
  {
    hide DepthAt, At;
    DepthIsHeight(c, level);
    var tall := PathOfHeight(c);
    forall path: Path | At(c, path).Some? ensures |path| <= Topology.HeightOf(c) { NoPathIsLonger(c, path); }
  }

  /** Pruned, a tree answers with the longest path of the tree it was pruned from. */
  lemma {:induction false} PrunedDepthIsLongestPath(sha: Sha, c: Cell, keep: set<Hash>, n: nat)
    requires Visible(c) && Sound(c) && PruneCell(sha, c, keep).Ok? && Longest(c, n)
    ensures DepthAt(PruneCell(sha, c, keep).value, 0) == if n <= 65535 then n else 65535
  {
    hide DepthAt, PruneCell, Longest, Sound, Visible;
    PruneKeepsRoot(sha, c, keep);
    DepthIsLongestPath(c, 0, n);
  }

  // ---------------------------------------------------------------- the bytes hashed

  lemma {:induction false} DepthBytesAt(depths: seq<nat>, i: nat)
    requires i < |depths|
    ensures DepthBytes(depths)[2 * i] == depths[i] / 256 % 256 && DepthBytes(depths)[2 * i + 1] == depths[i] % 256
  {
    if i < |depths| - 1 { DepthBytesAt(depths[..|depths| - 1], i); }
  }

  lemma {:induction false} HashBytesAt(hashes: seq<Hash>, i: nat)
    requires i < |hashes|
    ensures HashBytes(hashes)[32 * i..32 * i + 32] == hashes[i]
  {
    if i < |hashes| - 1 {
      HashBytesAt(hashes[..|hashes| - 1], i);
      var front := HashBytes(hashes[..|hashes| - 1]);
      assert HashBytes(hashes)[32 * i..32 * i + 32] == front[32 * i..32 * i + 32];
    }
  }

  lemma {:induction false} ByteIsItself(x: int)
    requires 0 <= x < 256
    ensures x % 256 == x
  {}

  lemma {:induction false} DataLength(bits: Bits)
    requires |bits| <= MAX_BITS
    ensures BitsDescriptor(bits) < 256
  {}

  lemma {:induction false} HeadingBytes(c: Cell, level: nat)
    requires Fits(c)
    ensures var r := Heading(|c.refs|, c, level);
      && r[0] as int == |c.refs| + 8 * Bit(c.IsExotic()) + 32 * Bit(c.mask.one && level >= 1)
                        + 64 * Bit(c.mask.two && level >= 2) + 128 * Bit(c.mask.three && level >= 3)
      && r[1] as int == |c.bits| / 8 + (|c.bits| + 7) / 8
  {
    DataLength(c.bits);
    hide BitsDescriptor;
    ByteIsItself(BitsDescriptor(c.bits));
    ByteIsItself(|c.refs| + (if c.IsExotic() then 8 else 0) + 32 * c.mask.Applied(level).Byte());
    assert BitsDescriptor(c.bits) == |c.bits| / 8 + (|c.bits| + 7) / 8 by { DescriptorIs(c.bits); }
  }

  lemma {:induction false} DescriptorIs(bits: Bits)
    ensures BitsDescriptor(bits) == |bits| / 8 + (|bits| + 7) / 8
  {}

  /** A part of what follows a place, seen from the start. */
  lemma {:induction false} Part(front: seq<byte>, tail: seq<byte>, from: nat, width: nat)
    requires from + width <= |tail|
    ensures (front + tail)[|front| + from..|front| + from + width] == tail[from..from + width]
  {}

  /** What comes ahead of the children: the data, or at a level above zero the hash below. */
  function Ahead(sha: Sha, c: Cell, level: nat): seq<byte> {
    if level == 0 then Pack(c.bits) else HashAt(sha, c, level - 1)
  }

  lemma {:induction false} ReprParts(sha: Sha, c: Cell, level: nat)
    ensures var below := level + Shift(c.kind);
      ReprAt(sha, c, level) == Heading(|c.refs|, c, level) + Ahead(sha, c, level)
        + (DepthBytes(ChildDepths(c, below)) + HashBytes(ChildHashes(sha, c, below)))
  {
    hide HashAt, DepthAt, DepthBytes, HashBytes, Pack, Heading;
  }

  /**
    What a level's hash is taken over opens with one byte for how many references there are, the
    kind, and the levels up to this one, and one for how long the data is; then comes the data, or
    the hash below.
   */
  lemma {:induction false} OpeningBytes(sha: Sha, c: Cell, level: nat)
    requires Fits(c)
    ensures var r, data := ReprAt(sha, c, level), Ahead(sha, c, level);
      && |r| == 2 + |data| + 34 * |c.refs|
      && r[0] as int == |c.refs| + 8 * Bit(c.IsExotic()) + 32 * Bit(c.mask.one && level >= 1)
                        + 64 * Bit(c.mask.two && level >= 2) + 128 * Bit(c.mask.three && level >= 3)
      && r[1] as int == |c.bits| / 8 + (|c.bits| + 7) / 8
      && r[2..2 + |data|] == data
  {
    hide ReprAt, DepthBytes, HashBytes, Ahead, Heading, Bit;
    HeadingBytes(c, level);
    ReprParts(sha, c, level);
  }

  /** Then come the references: each one's depth in two bytes, high first, and after them all each one's hash. */
  lemma {:induction false} ReferenceBytes(sha: Sha, c: Cell, level: nat, i: nat)
    requires i < |c.refs|
    ensures var r, at := ReprAt(sha, c, level), 2 + |Ahead(sha, c, level)|;
      var below := level + if c.kind.MerkleProof? || c.kind.MerkleUpdate? then 1 else 0;
      && |r| == at + 34 * |c.refs|
      && 256 * (r[at + 2 * i] as int) + r[at + 2 * i + 1] as int == DepthAt(c.refs[i], below)
      && r[at + 2 * |c.refs| + 32 * i..at + 2 * |c.refs| + 32 * i + 32] == HashAt(sha, c.refs[i], below)
  {
    hide HashAt, DepthAt, DepthBytes, HashBytes, Heading, Ahead, ReprAt;
    var below := level + Shift(c.kind);
    var front := Heading(|c.refs|, c, level) + Ahead(sha, c, level);
    var depths, hashes := DepthBytes(ChildDepths(c, below)), HashBytes(ChildHashes(sha, c, below));
    ReprParts(sha, c, level);
    DepthBytesAt(ChildDepths(c, below), i);
    HashBytesAt(ChildHashes(sha, c, below), i);
    Part(front + depths, hashes, 32 * i, 32);
    assert front + (depths + hashes) == front + depths + hashes;
  }

  // ---------------------------------------------------------------- what a placeholder stores

  /** How many of a mask's levels are at or below this one. */
  function Marked(mask: Mask, level: nat): nat {
    Bit(mask.one && level >= 1) + Bit(mask.two && level >= 2) + Bit(mask.three && level >= 3)
  }

  /**
    A placeholder stores one hash for each level it hides, lowest first, and after them one depth
    for each: below the level it stands at it answers those, and from there up its own hash.
   */
  lemma {:induction false} PlaceholderBytes(sha: Sha, c: Cell, level: nat)
    requires c.kind.PrunedBranch? && HoldsStored(c)
    ensures var data, k := Pack(c.bits), Marked(c.mask, level);
      var n := Bit(c.mask.one) + Bit(c.mask.two) + Bit(c.mask.three);
      && k <= n && |data| >= 2 + 34 * n
      && (k < n ==>
            && HashAt(sha, c, level) == data[2 + 32 * k..34 + 32 * k]
            && DepthAt(c, level) == 256 * (data[2 + 32 * n + 2 * k] as int) + data[2 + 32 * n + 2 * k + 1] as int)
      && (k == n ==> HashAt(sha, c, level) == sha(PlaceholderRepr(c)) && DepthAt(c, level) == 0)
  {
    hide Pack, PlaceholderRepr;
    var n, k := c.mask.Count(), c.mask.HashIndex(level);
    assert k == Marked(c.mask, level);
    if k < n { assert 34 + 32 * k <= 2 + 34 * n && 2 + 32 * n + 2 * k + 2 <= 2 + 34 * n; }
  }
}

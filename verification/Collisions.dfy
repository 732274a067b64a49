module Collisions {
  // What a hash settles, given that the inputs actually hashed do not collide: at its own level a
  // cell is known by it, and at level zero a tree is known but for what its placeholders hide.

  import opened Basics
  import opened Cells
  import opened Packing
  import opened Hashing

  /** The inputs a cell's own hashes are taken over. */
  ghost function Own(sha: Sha, c: Cell): set<seq<byte>> {
    if c.kind.PrunedBranch? then {PlaceholderRepr(c)}
    else set level: nat | level <= 3 && (level == 0 || Marks(c.mask, level)) :: ReprAt(sha, c, level)
  }

  /** Every input hashed in working out a tree's identities. */
  ghost function Fed(sha: Sha, c: Cell): set<seq<byte>>
    decreases c
  {
    Own(sha, c) + set i: nat, x | i < |c.refs| && x in Fed(sha, c.refs[i]) :: x
  }

  /** No two different inputs among these share a hash. */
  ghost predicate Distinct(sha: Sha, inputs: set<seq<byte>>) {
    forall x, y :: x in inputs && y in inputs && sha(x) == sha(y) ==> x == y
  }

  lemma {:induction false} FewerDistinct(sha: Sha, some: set<seq<byte>>, inputs: set<seq<byte>>)
    requires Distinct(sha, inputs) && some <= inputs
    ensures Distinct(sha, some)
  {}

  lemma {:induction false} FedBelow(sha: Sha, c: Cell, i: nat)
    requires i < |c.refs|
    ensures Fed(sha, c.refs[i]) <= Fed(sha, c)
  {}

  lemma {:induction false} OwnAmongFed(sha: Sha, a: Cell, b: Cell)
    requires Distinct(sha, Fed(sha, a) + Fed(sha, b))
    ensures Distinct(sha, Own(sha, a) + Own(sha, b))
  {
    hide Own;
  }

  // ---------------------------------------------------------------- reading a representation apart

  lemma {:induction false} SameMaskByte(a: Mask, b: Mask)
    requires a.Byte() == b.Byte()
    ensures a == b
  {}

  lemma {:induction false} SplitByte(low: nat, high: nat, low': nat, high': nat)
    requires low < 32 && low' < 32 && high < 8 && high' < 8 && (low + 32 * high) % 256 == (low' + 32 * high') % 256
    ensures low == low' && high == high'
  {
    assert low + 32 * high < 256 && low' + 32 * high' < 256;
  }

  lemma {:induction false} SameCounts(r: nat, e: bool, m: Mask, r': nat, e': bool, m': Mask)
    requires r <= MAX_REFS && r' <= MAX_REFS
    requires (r + (if e then 8 else 0) + 32 * m.Byte()) % 256 == (r' + (if e' then 8 else 0) + 32 * m'.Byte()) % 256
    ensures r == r' && e == e' && m == m'
  {
    hide Mask.Byte;
    var low, low' := r + (if e then 8 else 0), r' + (if e' then 8 else 0);
    assert low <= 12 && low' <= 12;
    SplitByte(low, m.Byte(), low', m'.Byte());
    SameMaskByte(m, m');
  }

  lemma {:induction false} SameLength(a: Bits, b: Bits)
    requires |a| <= MAX_BITS && |b| <= MAX_BITS && BitsDescriptor(a) % 256 == BitsDescriptor(b) % 256
    ensures BitsDescriptor(a) == BitsDescriptor(b) && (|a| + 7) / 8 == (|b| + 7) / 8
  {}

  lemma {:induction false} SameHeading(a: Cell, la: nat, ra: nat, b: Cell, lb: nat, rb: nat)
    requires Fits(a) && Fits(b) && ra <= MAX_REFS && rb <= MAX_REFS
    requires Heading(ra, a, la) == Heading(rb, b, lb)
    ensures ra == rb && a.IsExotic() == b.IsExotic() && a.mask.Applied(la) == b.mask.Applied(lb)
    ensures BitsDescriptor(a.bits) == BitsDescriptor(b.bits) && |Pack(a.bits)| == |Pack(b.bits)|
  {
    hide Mask.Applied, Mask.Byte, BitsDescriptor, Pack;
    assert Heading(ra, a, la)[0] == Heading(rb, b, lb)[0] && Heading(ra, a, la)[1] == Heading(rb, b, lb)[1];
    SameCounts(ra, a.IsExotic(), a.mask.Applied(la), rb, b.IsExotic(), b.mask.Applied(lb));
    SameLength(a.bits, b.bits);
  }

  lemma {:induction false} SplitAlike(h: seq<byte>, s: seq<byte>, t: seq<byte>, h': seq<byte>, s': seq<byte>,
      t': seq<byte>)
    requires |h| == |h'| && h + s + t == h' + s' + t'
    ensures h == h' && (|s| == |s'| ==> s == s' && t == t')
  {
    assert h == (h + s + t)[..|h|] && h' == (h' + s' + t')[..|h|];
    if |s| == |s'| {
      assert s == (h + s + t)[|h|..|h| + |s|] && s' == (h' + s' + t')[|h|..|h| + |s|];
      assert t == (h + s + t)[|h| + |s|..] && t' == (h' + s' + t')[|h| + |s|..];
    }
  }

  lemma {:induction false} SameHashes(a: seq<Hash>, b: seq<Hash>)
    requires |a| == |b| && HashBytes(a) == HashBytes(b)
    ensures a == b
  {
    if a != [] {
      var n := |a| - 1;
      assert a[n] == HashBytes(a)[32 * n..] && b[n] == HashBytes(b)[32 * n..];
      assert HashBytes(a[..n]) == HashBytes(a)[..32 * n] && HashBytes(b[..n]) == HashBytes(b)[..32 * n];
      SameHashes(a[..n], b[..n]);
    }
  }

  /** What a level's input says, taken apart again. */
  lemma {:induction false} SameRepr(sha: Sha, a: Cell, la: nat, b: Cell, lb: nat)
    requires Fits(a) && Fits(b) && (la == 0 <==> lb == 0)
    requires ReprAt(sha, a, la) == ReprAt(sha, b, lb)
    ensures |a.refs| == |b.refs| && a.IsExotic() == b.IsExotic() && a.mask.Applied(la) == b.mask.Applied(lb)
    ensures la == 0 ==> a.bits == b.bits
    ensures la > 0 ==> HashAt(sha, a, la - 1) == HashAt(sha, b, lb - 1)
    ensures ChildHashes(sha, a, la + Shift(a.kind)) == ChildHashes(sha, b, lb + Shift(b.kind))
  {
    hide HashAt, ChildDepths, ChildHashes, DepthBytes, HashBytes, Mask.Applied, Heading, Pack, BitsDescriptor;
    var ha, hb := Heading(|a.refs|, a, la), Heading(|b.refs|, b, lb);
    var ba: seq<byte> := if la == 0 then Pack(a.bits) else HashAt(sha, a, la - 1);
    var bb: seq<byte> := if lb == 0 then Pack(b.bits) else HashAt(sha, b, lb - 1);
    var da, db := DepthBytes(ChildDepths(a, la + Shift(a.kind))), DepthBytes(ChildDepths(b, lb + Shift(b.kind)));
    var sa, sb := HashBytes(ChildHashes(sha, a, la + Shift(a.kind))),
      HashBytes(ChildHashes(sha, b, lb + Shift(b.kind)));
    SplitAlike(ha, ba, da + sa, hb, bb, db + sb);
    SameHeading(a, la, |a.refs|, b, lb, |b.refs|);
    SplitAlike(ha, ba, da + sa, hb, bb, db + sb);
    assert [] + da + sa == da + sa && [] + db + sb == db + sb;
    SplitAlike([], da, sa, [], db, sb);
    SameHashes(ChildHashes(sha, a, la + Shift(a.kind)), ChildHashes(sha, b, lb + Shift(b.kind)));
    if la == 0 { PackInjective(a.bits, b.bits); }
  }

  lemma {:induction false} SameTagSameKind(a: Cell, b: Cell)
    requires Classified(a) && Classified(b) && a.bits == b.bits && a.IsExotic() == b.IsExotic()
    ensures a.kind == b.kind
  {}

  // ---------------------------------------------------------------- level zero

  /** Well made, and marked at no level: whatever is pruned inside it is under a Merkle cell, which accounts for it. */
  predicate Full(c: Cell) { Sound(c) && c.mask == NO_LEVELS }

  /**
    `p` is the full tree `f` with some branches pruned: it hashes as `f` does, and where it holds
    a cell it holds `f`'s own bits and kind, and below an ordinary cell the same again.
   */
  ghost predicate Covers(sha: Sha, p: Cell, f: Cell)
    decreases p
  {
    && Sound(p) && Full(f) && LevelZero(sha, p) == LevelZero(sha, f)
    && (!p.kind.PrunedBranch? ==>
          && p.bits == f.bits && p.kind == f.kind && |p.refs| == |f.refs|
          && (!p.IsExotic() ==> forall i :: 0 <= i < |p.refs| ==> Covers(sha, p.refs[i], f.refs[i])))
  }

  lemma {:induction false} FullBelow(f: Cell, i: nat)
    requires Full(f) && !f.IsExotic() && i < |f.refs|
    ensures Full(f.refs[i])
  {
    UnionCovers(f.refs, i);
  }

  lemma {:induction false} HashedAtZero(sha: Sha, c: Cell)
    requires !c.kind.PrunedBranch?
    ensures ReprAt(sha, c, 0) in Fed(sha, c) && LevelZero(sha, c) == sha(ReprAt(sha, c, 0))
  {
    assert ReprAt(sha, c, 0) in Own(sha, c);
  }

  /** Equal level-zero hashes mean the first tree agrees with the full one wherever it shows anything. */
  lemma {:induction false} LevelZeroCovers(sha: Sha, p: Cell, f: Cell)
    requires Sound(p) && Full(f) && LevelZero(sha, p) == LevelZero(sha, f)
    requires Distinct(sha, Fed(sha, p) + Fed(sha, f))
    ensures Covers(sha, p, f)
    decreases p
  {
    hide ReprAt, Fed, Own, UnionOfMasks;
    if !p.kind.PrunedBranch? {
      HashedAtZero(sha, p);
      HashedAtZero(sha, f);
      SameRepr(sha, p, 0, f, 0);
      SameTagSameKind(p, f);
      if !p.IsExotic() {
        forall i | 0 <= i < |p.refs| ensures Covers(sha, p.refs[i], f.refs[i]) {
          FullBelow(f, i);
          FedBelow(sha, p, i);
          FedBelow(sha, f, i);
          assert ChildHashes(sha, p, 0)[i] == ChildHashes(sha, f, 0)[i];
          LevelZeroCovers(sha, p.refs[i], f.refs[i]);
        }
      }
    }
  }

  /** Full trees with equal level-zero hashes are equal. */
  lemma {:induction false} FullIsIdentified(sha: Sha, a: Cell, b: Cell)
    requires Full(a) && Full(b) && LevelZero(sha, a) == LevelZero(sha, b) && Distinct(sha, Fed(sha, a) + Fed(sha, b))
    ensures a == b
  {
    OwnHashIsIdentity(sha, a, b);
  }

  // ---------------------------------------------------------------- a cell's own level

  lemma {:induction false} HashedAtTop(sha: Sha, c: Cell)
    ensures c.kind.PrunedBranch? ==> PlaceholderRepr(c) in Fed(sha, c) && ReprHash(sha, c) == sha(PlaceholderRepr(c))
    ensures !c.kind.PrunedBranch? ==>
      ReprAt(sha, c, c.mask.Level()) in Fed(sha, c) && ReprHash(sha, c) == sha(ReprAt(sha, c, c.mask.Level()))
    ensures c.mask.Applied(c.mask.Level()) == c.mask
  {
    if !c.kind.PrunedBranch? { assert ReprAt(sha, c, c.mask.Level()) in Own(sha, c); }
  }

  /** The hashes of a cell's lower levels chain down to its data. */
  lemma {:induction false} SameData(sha: Sha, a: Cell, b: Cell, level: nat)
    requires Fits(a) && Fits(b) && !a.kind.PrunedBranch? && !b.kind.PrunedBranch? && a.mask == b.mask && level <= 3
    requires HashAt(sha, a, level) == HashAt(sha, b, level) && Distinct(sha, Own(sha, a) + Own(sha, b))
    ensures a.bits == b.bits
    decreases level
  {
    hide ReprAt, Pack, ChildHashes;
    if level > 0 && !Marks(a.mask, level) {
      SameData(sha, a, b, level - 1);
    } else {
      assert ReprAt(sha, a, level) in Own(sha, a) && ReprAt(sha, b, level) in Own(sha, b);
      SameRepr(sha, a, level, b, level);
      if level > 0 { SameData(sha, a, b, level - 1); }
    }
  }

  lemma {:induction false} PlaceholderHeading(sha: Sha, a: Cell, b: Cell)
    requires Fits(a) && Fits(b) && PlaceholderRepr(a) == ReprAt(sha, b, b.mask.Level())
    ensures b.refs == [] && a.IsExotic() == b.IsExotic() && a.mask == b.mask
  {
    hide Pack, BitsDescriptor, Heading, HashAt, ChildDepths, ChildHashes, DepthBytes, HashBytes, Mask.Byte,
      Mask.Applied;
    var level := b.mask.Level();
    HashedAtTop(sha, a);
    HashedAtTop(sha, b);
    var body: seq<byte> := if level == 0 then Pack(b.bits) else HashAt(sha, b, level - 1);
    var tail := DepthBytes(ChildDepths(b, level + Shift(b.kind)))
      + HashBytes(ChildHashes(sha, b, level + Shift(b.kind)));
    assert Heading(0, a, a.mask.Level()) + Pack(a.bits) + [] == PlaceholderRepr(a);
    SplitAlike(Heading(0, a, a.mask.Level()), Pack(a.bits), [], Heading(|b.refs|, b, level), body, tail);
    SameHeading(a, a.mask.Level(), 0, b, level, |b.refs|);
  }

  /** A placeholder is never taken for a cell of another kind. */
  lemma {:induction false} PlaceholderApart(sha: Sha, a: Cell, b: Cell)
    requires Sound(a) && Sound(b) && a.kind.PrunedBranch? && !b.kind.PrunedBranch?
    ensures PlaceholderRepr(a) != ReprAt(sha, b, b.mask.Level())
  {
    hide ReprAt, PlaceholderRepr, Pack;
    if PlaceholderRepr(a) == ReprAt(sha, b, b.mask.Level()) { PlaceholderHeading(sha, a, b); }
  }

  lemma {:induction false} SamePlaceholder(a: Cell, b: Cell)
    requires Sound(a) && Sound(b) && a.kind.PrunedBranch? && b.kind.PrunedBranch?
    requires PlaceholderRepr(a) == PlaceholderRepr(b)
    ensures a == b
  {
    hide Pack, BitsDescriptor, Heading, Mask.Byte;
    var (ha, hb) := (Heading(0, a, a.mask.Level()), Heading(0, b, b.mask.Level()));
    assert ha + Pack(a.bits) + [] == PlaceholderRepr(a) && hb + Pack(b.bits) + [] == PlaceholderRepr(b);
    SplitAlike(ha, Pack(a.bits), [], hb, Pack(b.bits), []);
    SameHeading(a, a.mask.Level(), 0, b, b.mask.Level(), 0);
    SplitAlike(ha, Pack(a.bits), [], hb, Pack(b.bits), []);
    PackInjective(a.bits, b.bits);
  }

  lemma {:induction false} ChildSettled(sha: Sha, c: Cell, i: nat)
    requires Sound(c) && !c.kind.PrunedBranch? && i < |c.refs|
    ensures ChildHashes(sha, c, c.mask.Level() + Shift(c.kind))[i] == ReprHash(sha, c.refs[i])
  {
    UnionCovers(c.refs, i);
    Settles(sha, c.refs[i], c.mask.Level() + Shift(c.kind));
  }

  /** Two cells with one hash at their own level are one cell: equality by hash is equality. */
  lemma {:induction false} OwnHashIsIdentity(sha: Sha, a: Cell, b: Cell)
    requires Sound(a) && Sound(b) && ReprHash(sha, a) == ReprHash(sha, b)
    requires Distinct(sha, Fed(sha, a) + Fed(sha, b))
    ensures a == b
    decreases a
  {
    hide ReprAt, UnionOfMasks, HashAt, ReprHash, Pack, PlaceholderRepr;
    HashedAtTop(sha, a);
    HashedAtTop(sha, b);
    if a.kind.PrunedBranch? != b.kind.PrunedBranch? {
      if a.kind.PrunedBranch? { PlaceholderApart(sha, a, b); } else { PlaceholderApart(sha, b, a); }
    } else if a.kind.PrunedBranch? {
      SamePlaceholder(a, b);
    } else {
      SameWhole(sha, a, b);
      forall i | 0 <= i < |a.refs| ensures a.refs[i] == b.refs[i] {
        ChildSettled(sha, a, i);
        ChildSettled(sha, b, i);
        FedBelow(sha, a, i);
        FedBelow(sha, b, i);
        OwnHashIsIdentity(sha, a.refs[i], b.refs[i]);
      }
      assert a.refs == b.refs;
    }
  }

  /** The part of a cell its topmost input settles without looking below its children. */
  lemma {:induction false} SameWhole(sha: Sha, a: Cell, b: Cell)
    requires Sound(a) && Sound(b) && !a.kind.PrunedBranch? && !b.kind.PrunedBranch?
    requires ReprHash(sha, a) == ReprHash(sha, b) && Distinct(sha, Fed(sha, a) + Fed(sha, b))
    ensures a.kind == b.kind && a.bits == b.bits && a.mask == b.mask && |a.refs| == |b.refs|
    ensures ChildHashes(sha, a, a.mask.Level() + Shift(a.kind)) == ChildHashes(sha, b, b.mask.Level() + Shift(b.kind))
  {
    hide UnionOfMasks, HashAt, Pack, PlaceholderRepr, ReprAt, Fed, Own, ChildHashes, Mask.Applied;
    HashedAtTop(sha, a);
    HashedAtTop(sha, b);
    OwnAmongFed(sha, a, b);
    SameTopMask(sha, a, b);
    SameRepr(sha, a, a.mask.Level(), b, b.mask.Level());
    SameData(sha, a, b, a.mask.Level());
    SameTagSameKind(a, b);
  }

  lemma {:induction false} WholeAtTop(mask: Mask)
    ensures mask.Applied(mask.Level()) == mask
  {}

  lemma {:induction false} SameTopMask(sha: Sha, a: Cell, b: Cell)
    requires Fits(a) && Fits(b) && ReprAt(sha, a, a.mask.Level()) == ReprAt(sha, b, b.mask.Level())
    ensures a.mask == b.mask
  {
    hide HashAt, ChildDepths, ChildHashes, DepthBytes, HashBytes, Heading, Pack, BitsDescriptor, Mask.Level,
      Mask.Applied;
    var la, lb := a.mask.Level(), b.mask.Level();
    WholeAtTop(a.mask);
    WholeAtTop(b.mask);
    SplitAlike(Heading(|a.refs|, a, la), if la == 0 then Pack(a.bits) else HashAt(sha, a, la - 1),
      DepthBytes(ChildDepths(a, la + Shift(a.kind))) + HashBytes(ChildHashes(sha, a, la + Shift(a.kind))),
      Heading(|b.refs|, b, lb), if lb == 0 then Pack(b.bits) else HashAt(sha, b, lb - 1),
      DepthBytes(ChildDepths(b, lb + Shift(b.kind))) + HashBytes(ChildHashes(sha, b, lb + Shift(b.kind))));
    SameHeading(a, la, |a.refs|, b, lb, |b.refs|);
  }
}

module Usage {
  // Usage trees: marking, pruning to the marks, and proofs of what is left.

  import opened Basics
  import opened Cells
  import opened Packing
  import opened Hashing
  import opened Merkle

  const LEVEL_ONE := Mask(true, false, false)

  /** Stands for `c` with one stored hash and depth, those `c` has at level zero. */
  function PrunedBranchOf(sha: Sha, c: Cell): Cell {
    Cell(PrunedBranch, Unpack([1, 1] + LevelZero(sha, c) + U16(DepthAt(c, 0))), [], LEVEL_ONE)
  }

  lemma {:induction false} StandsFor(sha: Sha, c: Cell)
    ensures var b := PrunedBranchOf(sha, c);
      Sound(b) && LevelZero(sha, b) == LevelZero(sha, c) && DepthAt(b, 0) == DepthAt(c, 0)
  {
    hide Pack;
    var hash, depth := LevelZero(sha, c), DepthAt(c, 0);
    var data := [1, 1] + hash + U16(depth);
    PackUnpack(data);
    assert |[1, 1] + hash| == 34;
    DepthSpells(depth, [1, 1] + hash);
    var b := PrunedBranchOf(sha, c);
    hide LevelZero, DepthAt;
    assert b.mask.Count() == 1 && b.mask.HashIndex(0) == 0;
    assert StoredHash(b, 0) == data[2..34] && StoredDepth(b, 0) == FromU16(data, 34);
    assert data[2..34] == hash;
    AnswersStored(sha, b);
  }

  lemma {:induction false} AnswersStored(sha: Sha, b: Cell)
    requires b.kind.PrunedBranch? && b.mask == LEVEL_ONE
    ensures LevelZero(sha, b) == StoredHash(b, 0) && DepthAt(b, 0) == StoredDepth(b, 0)
  {}

  // ---------------------------------------------------------------- pruning

  /** The tree rebuilt over the marked cells, with a placeholder for every subtree not marked. */
  function PruneCell(sha: Sha, c: Cell, keep: set<Hash>): Result<Cell>
    decreases c, |c.refs| + 1
  {
    if ReprHash(sha, c) !in keep then Ok(PrunedBranchOf(sha, c))
    else if c.IsExotic() then Err(Malformed)
    else
      var refs :- PruneRefs(sha, c, |c.refs|, keep);
      Build(Payload(c.bits, refs))
  }

  /** The first `count` children of a kept cell, pruned in turn. */
  function PruneRefs(sha: Sha, c: Cell, count: nat, keep: set<Hash>): (r: Result<seq<Cell>>)
    requires count <= |c.refs|
    ensures r.Ok? ==> |r.value| == count
    decreases c, count
  {
    if count == 0 then Ok([])
    else
      var rest :- PruneRefs(sha, c, count - 1, keep);
      var last :- PruneCell(sha, c.refs[count - 1], keep);
      Ok(rest + [last])
  }

  lemma {:induction false} PrunedRef(sha: Sha, c: Cell, count: nat, keep: set<Hash>, i: nat)
    requires i < count <= |c.refs| && PruneRefs(sha, c, count, keep).Ok?
    ensures PruneCell(sha, c.refs[i], keep) == Ok(PruneRefs(sha, c, count, keep).value[i])
    decreases count
  {
    if i < count - 1 { PrunedRef(sha, c, count - 1, keep, i); }
  }

  /** Rebuilds a cell against the marked set, bit by bit and reference by reference. */
  method Rebuild(sha: Sha, c: Cell, keep: set<Hash>) returns (r: Result<Cell>)
    ensures r == PruneCell(sha, c, keep)
    decreases c
  {
    if ReprHash(sha, c) !in keep { return Ok(PrunedBranchOf(sha, c)); }
    if c.IsExotic() { return Err(Malformed); }
    var bits: Bits, refs: seq<Cell> := [], [];
    for i := 0 to |c.bits|
      invariant bits == c.bits[..i]
    {
      bits := bits + [c.bits[i]];
    }
    assert bits == c.bits;
    for i := 0 to |c.refs|
      invariant PruneRefs(sha, c, i, keep) == Ok(refs)
    {
      var child := Rebuild(sha, c.refs[i], keep);
      if child.Err? {
        RefusedRef(sha, c, |c.refs|, keep, i);
        return Err(child.error);
      }
      refs := refs + [child.value];
    }
    return Build(Payload(bits, refs));
  }

  lemma {:induction false} RefusedRef(sha: Sha, c: Cell, count: nat, keep: set<Hash>, i: nat)
    requires i < count <= |c.refs| && PruneRefs(sha, c, i, keep).Ok? && PruneCell(sha, c.refs[i], keep).Err?
    ensures PruneRefs(sha, c, count, keep) == Err(PruneCell(sha, c.refs[i], keep).error)
    decreases count
  {
    hide PruneCell;
    if i < count - 1 { RefusedRef(sha, c, count - 1, keep, i); }
  }

  // ---------------------------------------------------------------- what pruning keeps

  /** No exotic cell is kept, as far down as the kept cells reach. */
  ghost predicate KeepsOrdinary(sha: Sha, c: Cell, keep: set<Hash>)
    decreases c
  {
    ReprHash(sha, c) in keep ==> !c.IsExotic() && forall i :: 0 <= i < |c.refs| ==> KeepsOrdinary(sha, c.refs[i], keep)
  }

  /** Pruning succeeds exactly when it would keep nothing exotic. */
  lemma {:induction false} PruneSucceeds(sha: Sha, c: Cell, keep: set<Hash>)
    requires Sound(c)
    ensures PruneCell(sha, c, keep).Ok? <==> KeepsOrdinary(sha, c, keep)
    decreases c, |c.refs| + 1
  {
    hide ReprHash, LevelZero, PrunedBranchOf;
    if ReprHash(sha, c) in keep && !c.IsExotic() { PruneRefsSucceed(sha, c, |c.refs|, keep); }
  }

  lemma {:induction false} PruneRefsSucceed(sha: Sha, c: Cell, count: nat, keep: set<Hash>)
    requires Sound(c) && count <= |c.refs|
    ensures PruneRefs(sha, c, count, keep).Ok? <==> forall i :: 0 <= i < count ==> KeepsOrdinary(sha, c.refs[i], keep)
    decreases c, count
  {
    hide KeepsOrdinary, PruneCell;
    if count > 0 {
      PruneRefsSucceed(sha, c, count - 1, keep);
      PruneSucceeds(sha, c.refs[count - 1], keep);
    }
  }

  lemma {:induction false} SameAtZero(sha: Sha, a: Cell, b: Cell)
    requires !a.IsExotic() && !b.IsExotic() && a.bits == b.bits && |a.refs| == |b.refs|
    requires forall i :: 0 <= i < |a.refs| ==> LevelZero(sha, a.refs[i]) == LevelZero(sha, b.refs[i])
    requires forall i :: 0 <= i < |a.refs| ==> DepthAt(a.refs[i], 0) == DepthAt(b.refs[i], 0)
    ensures LevelZero(sha, a) == LevelZero(sha, b) && DepthAt(a, 0) == DepthAt(b, 0)
  {
    hide DepthBytes, HashBytes, Above, Pack;
    assert ChildDepths(a, 0) == ChildDepths(b, 0);
    assert ChildHashes(sha, a, 0) == ChildHashes(sha, b, 0);
    assert a.mask.Applied(0) == b.mask.Applied(0);
    assert Heading(|a.refs|, a, 0) == Heading(|b.refs|, b, 0);
    assert ReprAt(sha, a, 0) == ReprAt(sha, b, 0);
  }

  /** A pruned tree is well made and stands for the original, node by node, at level zero. */
  lemma {:induction false} PruneKeepsRoot(sha: Sha, c: Cell, keep: set<Hash>)
    requires Sound(c) && PruneCell(sha, c, keep).Ok?
    ensures var p := PruneCell(sha, c, keep).value;
      && Sound(p) && LevelZero(sha, p) == LevelZero(sha, c) && DepthAt(p, 0) == DepthAt(c, 0)
      && p.IsExotic() == (ReprHash(sha, c) !in keep)
    decreases c
  {
    hide LevelZero, DepthAt, PrunedBranchOf, PruneRefs, ReprHash, UnionOfMasks;
    var p := PruneCell(sha, c, keep).value;
    if ReprHash(sha, c) !in keep {
      StandsFor(sha, c);
      PlaceholderExotic(sha, c);
    } else {
      forall i | 0 <= i < |c.refs|
        ensures Sound(p.refs[i]) && LevelZero(sha, p.refs[i]) == LevelZero(sha, c.refs[i])
        ensures DepthAt(p.refs[i], 0) == DepthAt(c.refs[i], 0)
      {
        PrunedRef(sha, c, |c.refs|, keep, i);
        PruneKeepsRoot(sha, c.refs[i], keep);
      }
      SameAtZero(sha, p, c);
    }
  }

  /** Pruning a whole tree raises it one level and no more, however many branches are cut. */
  lemma {:induction false} PrunedIsLevelOne(sha: Sha, c: Cell, keep: set<Hash>)
    requires Sound(c) && c.mask == NO_LEVELS && PruneCell(sha, c, keep).Ok?
    ensures Under(PruneCell(sha, c, keep).value.mask, LEVEL_ONE)
    decreases c
  {
    hide LevelZero, DepthAt, ReprHash, PruneRefs, UnionOfMasks, Unpack;
    if ReprHash(sha, c) in keep {
      var p := PruneCell(sha, c, keep).value;
      forall i | 0 <= i < |p.refs| ensures Under(p.refs[i].mask, LEVEL_ONE) {
        PrunedRef(sha, c, |c.refs|, keep, i);
        UnionCovers(c.refs, i);
        PrunedIsLevelOne(sha, c.refs[i], keep);
      }
      UnionIsLeast(p.refs, LEVEL_ONE);
    }
  }

  /** So a proof out of a whole tree stands at level zero, as any cell of a bag that is not pruned does. */
  lemma {:induction false} ProofStandsAlone(sha: Sha, c: Cell, keep: set<Hash>)
    requires Sound(c) && c.mask == NO_LEVELS && PruneCell(sha, c, keep).Ok?
    requires CreateProof(sha, PruneCell(sha, c, keep).value).Ok?
    ensures CreateProof(sha, PruneCell(sha, c, keep).value).value.mask == NO_LEVELS
  {
    hide PruneCell, CreateProof, Sound;
    PrunedIsLevelOne(sha, c, keep);
    ProofIsALevelLower(sha, PruneCell(sha, c, keep).value);
  }

  lemma {:induction false} PlaceholderExotic(sha: Sha, c: Cell)
    ensures PrunedBranchOf(sha, c).IsExotic()
  {}

  // ---------------------------------------------------------------- paths

  /** A path from a cell down: which reference to take at each step. */
  type Path = seq<nat>

  function At(c: Cell, path: Path): Option<Cell>
    decreases |path|
  {
    if path == [] then Some(c)
    else if path[0] < |c.refs| then At(c.refs[path[0]], path[1..])
    else None
  }

  /** The marks hold each cell met along `path`, `c` and the last included. */
  predicate AllKept(sha: Sha, c: Cell, path: Path, keep: set<Hash>)
    decreases |path|
  {
    && ReprHash(sha, c) in keep
    && (path != [] ==> path[0] < |c.refs| && AllKept(sha, c.refs[path[0]], path[1..], keep))
  }

  lemma {:induction false} KeptStillKept(sha: Sha, c: Cell, path: Path, keep: set<Hash>, more: set<Hash>)
    requires AllKept(sha, c, path, keep) && keep <= more
    ensures AllKept(sha, c, path, more)
    decreases |path|
  {
    if path != [] { KeptStillKept(sha, c.refs[path[0]], path[1..], keep, more); }
  }

  /** Marks along a path keep the path: its end is where it was, with the same bits and hash. */
  lemma {:induction false} MarkedIsReachable(sha: Sha, c: Cell, path: Path, keep: set<Hash>)
    requires Sound(c) && PruneCell(sha, c, keep).Ok? && AllKept(sha, c, path, keep)
    ensures var was, now := At(c, path), At(PruneCell(sha, c, keep).value, path);
      && was.Some? && now.Some? && !now.value.IsExotic() && now.value.bits == was.value.bits
      && |now.value.refs| == |was.value.refs| && LevelZero(sha, now.value) == LevelZero(sha, was.value)
    decreases |path|
  {
    hide LevelZero, ReprHash, PruneRefs;
    PruneKeepsRoot(sha, c, keep);
    if path != [] {
      PrunedRef(sha, c, |c.refs|, keep, path[0]);
      MarkedIsReachable(sha, c.refs[path[0]], path[1..], keep);
    }
  }

  /** The first unmarked cell on a path is a placeholder in the pruned tree, and hides what is below it. */
  lemma {:induction false} UnmarkedIsHidden(sha: Sha, c: Cell, path: Path, step: nat, keep: set<Hash>)
    requires Sound(c) && PruneCell(sha, c, keep).Ok? && AllKept(sha, c, path, keep)
    requires At(c, path).Some? && step < |At(c, path).value.refs|
      && ReprHash(sha, At(c, path).value.refs[step]) !in keep
    ensures At(PruneCell(sha, c, keep).value, path + [step]) ==
      Some(PrunedBranchOf(sha, At(c, path).value.refs[step]))
    decreases |path|
  {
    hide LevelZero, ReprHash, PruneRefs, PrunedBranchOf;
    PruneKeepsRoot(sha, c, keep);
    if path == [] {
      PrunedRef(sha, c, |c.refs|, keep, step);
      var p := PruneCell(sha, c, keep).value;
      assert ([] + [step])[1..] == [] && At(p.refs[step], []) == Some(p.refs[step]);
    } else {
      PrunedRef(sha, c, |c.refs|, keep, path[0]);
      assert (path + [step])[1..] == path[1..] + [step];
      UnmarkedIsHidden(sha, c.refs[path[0]], path[1..], step, keep);
    }
  }

  /** Somewhere at or below `c` is a cell with this hash. */
  ghost predicate Occurs(sha: Sha, c: Cell, target: Hash) {
    exists path: Path :: At(c, path).Some? && ReprHash(sha, At(c, path).value) == target
  }

  lemma {:induction false} OccursBelow(sha: Sha, c: Cell, target: Hash)
    requires ReprHash(sha, c) != target
    ensures Occurs(sha, c, target) <==> exists i :: 0 <= i < |c.refs| && Occurs(sha, c.refs[i], target)
  {
    hide ReprHash;
    if Occurs(sha, c, target) {
      var path: Path :| At(c, path).Some? && ReprHash(sha, At(c, path).value) == target;
      assert path != [];
      assert At(c.refs[path[0]], path[1..]).Some?;
      assert Occurs(sha, c.refs[path[0]], target);
    }
    if i :| 0 <= i < |c.refs| && Occurs(sha, c.refs[i], target) {
      var path: Path :| At(c.refs[i], path).Some? && ReprHash(sha, At(c.refs[i], path).value) == target;
      assert ([i] + path)[1..] == path;
      assert At(c, [i] + path) == At(c.refs[i], path);
    }
  }

  /**
    Depth first, marks a path to the target if there is one. The answer says whether there is;
    marks are added only if so.
   */
  method MarkPathTo(sha: Sha, node: Cell, target: Hash, used: set<Hash>)
      returns (found: bool, marked: set<Hash>, ghost path: Path)
    ensures found <==> Occurs(sha, node, target)
    ensures used <= marked && (!found ==> marked == used)
    ensures found ==>
      AllKept(sha, node, path, marked) && At(node, path).Some? && ReprHash(sha, At(node, path).value) == target
    decreases node
  {
    hide ReprHash;
    path := [];
    if ReprHash(sha, node) == target {
      assert At(node, path).Some?;
      return true, used + {target}, path;
    }
    OccursBelow(sha, node, target);
    for i := 0 to |node.refs|
      invariant forall k :: 0 <= k < i ==> !Occurs(sha, node.refs[k], target)
    {
      ghost var below: Path;
      found, marked, below := MarkPathTo(sha, node.refs[i], target, used);
      if found {
        KeptStillKept(sha, node.refs[i], below, marked, marked + {ReprHash(sha, node)});
        marked := marked + {ReprHash(sha, node)};
        path := [i] + below;
        assert path[1..] == below;
        return;
      }
    }
    return false, used, path;
  }

  // ---------------------------------------------------------------- the usage tree

  /** A tree and what has been touched of it. */
  class UsageTree {
    const sha: Sha
    const root: Cell
    var used: set<Hash>

    /** The root is among the marks, so a skeleton is never a lone placeholder. */
    ghost predicate Valid()
      reads this
    {
      ReprHash(sha, root) in used
    }

    constructor (sha: Sha, root: Cell)
      ensures Valid() && this.sha == sha && this.root == root && used == {ReprHash(sha, root)}
    {
      this.sha, this.root := sha, root;
      used := {ReprHash(sha, root)};
    }

    method Mark(cell: Cell)
      requires Valid()
      modifies this
      ensures Valid() && used == old(used) + {ReprHash(sha, cell)}
    {
      used := used + {ReprHash(sha, cell)};
    }

    /** Marks a cell with its whole path; whatever was reachable through marks before still is. */
    method MarkPath(cell: Cell) returns (found: bool, ghost path: Path)
      requires Valid()
      modifies this
      ensures Valid() && old(used) <= used && (!found ==> used == old(used))
      ensures found <==> Occurs(sha, root, ReprHash(sha, cell))
      ensures found ==>
        AllKept(sha, root, path, used) && At(root, path).Some?
          && ReprHash(sha, At(root, path).value) == ReprHash(sha, cell)
    {
      found, used, path := MarkPathTo(sha, root, ReprHash(sha, cell), used);
    }

    /** The skeleton of the marked cells. */
    method Prune() returns (r: Result<Cell>)
      requires Valid()
      ensures r == PruneCell(sha, root, used)
    {
      r := Rebuild(sha, root, used);
    }

    /**
      Proves what `Prune` gives; it fails exactly if an exotic cell is marked, and verifies under
      the whole tree's hash.
     */
    method Prove() returns (r: Result<Cell>)
      requires Valid()
      ensures Sound(root) ==> (r.Ok? <==> KeepsOrdinary(sha, root, used))
      ensures Sound(root) && r.Ok? ==>
        && PruneCell(sha, root, used).Ok? && Sound(r.value)
        && VerifyMerkleProof(sha, r.value, LevelZero(sha, root)) == PruneCell(sha, root, used)
    {
      hide LevelZero, ReprHash, PruneCell, CreateProof, VerifyMerkleProof, KeepsOrdinary;
      var pruned := Prune();
      if Sound(root) { PruneSucceeds(sha, root, used); }
      if pruned.Err? { return Err(pruned.error); }
      if Sound(root) {
        PruneKeepsRoot(sha, root, used);
        ProofVerifies(sha, pruned.value);
      }
      r := CreateProof(sha, pruned.value);
    }
  }

  /** End to end: a target marked with its path is readable in what the proof shows. */
  lemma {:induction false} ProofShowsTarget(sha: Sha, root: Cell, used: set<Hash>, path: Path)
    requires Sound(root) && KeepsOrdinary(sha, root, used) && AllKept(sha, root, path, used)
    ensures PruneCell(sha, root, used).Ok? && CreateProof(sha, PruneCell(sha, root, used).value).Ok?
    ensures var proof := CreateProof(sha, PruneCell(sha, root, used).value).value;
      var shown := VerifyMerkleProof(sha, proof, LevelZero(sha, root));
      && shown.Ok? && At(shown.value, path).Some? && At(root, path).Some?
      && At(shown.value, path).value.bits == At(root, path).value.bits
      && LevelZero(sha, At(shown.value, path).value) == LevelZero(sha, At(root, path).value)
  {
    hide LevelZero, ReprHash, PruneCell, CreateProof, VerifyMerkleProof, KeepsOrdinary, At;
    PruneSucceeds(sha, root, used);
    PruneKeepsRoot(sha, root, used);
    RootKept(sha, root, path, used);
    ProofVerifies(sha, PruneCell(sha, root, used).value);
    MarkedIsReachable(sha, root, path, used);
  }

  lemma {:induction false} RootKept(sha: Sha, c: Cell, path: Path, keep: set<Hash>)
    requires AllKept(sha, c, path, keep)
    ensures ReprHash(sha, c) in keep
  {}
}

module DictWrites {
  // Writes on cells, in the source's steps (descent, split, collapse, rebuild) and as recursions
  // on the tree, proved to agree before either is tied to an encoded tree.

  import opened Basics
  import opened Cells
  import opened DictTree
  import opened DictCells

  /**
    A fork the descent went through, with the side it took: what `Rebuilt` needs of each level to
    put a changed child back.
   */
  datatype Step = Step(node: Cell, edge: Bits, remaining: nat, branch: bool) {
    predicate Valid() { |edge| < remaining }

    /** The width both subtrees of the fork are encoded under. */
    function Below(): nat
      requires Valid()
    {
      remaining - |edge| - 1
    }

    /** The subtree that a rebuild keeps and a collapse is left with. */
    function Sibling(): Result<Cell> {
      if 1 - Bit(branch) < |node.refs| then Ok(node.refs[1 - Bit(branch)]) else Err(Malformed)
    }
  }

  /** One level of `Rebuilt`: the same edge and the kept subtree beside a new `child`. */
  function RebuildStep<E>(sh: Shape<E>, step: Step, child: Cell): Result<Cell>
    requires step.Valid()
  {
    var sibling :- step.Sibling();
    if step.branch then ForkCell(sh, step.edge, step.remaining, sibling, child)
    else ForkCell(sh, step.edge, step.remaining, child, sibling)
  }

  /** A node's contents under another label. */
  function RelabelCell<E>(sh: Shape<E>, edge: Bits, max: nat, body: Bits, refs: seq<Cell>): Result<Cell> {
    Build(Payload(WriteEdge(sh, edge, max) + body, refs))
  }

  /** `Split` on cells: the node's own contents under the rest of its edge, beside a new leaf. */
  function SplitCell<E>(sh: Shape<E>, node: Cell, edge: Bits, body: Bits, at: nat, key: Bits,
      entry: Entry<E>): Result<Cell>
    requires at < |edge| && at < |key|
  {
    var below := |key| - at - 1;
    var kept :- RelabelCell(sh, edge[at + 1..], below, body, node.refs);
    var leaf :- LeafCell(sh, key[at + 1..], entry, below);
    if edge[at] then ForkCell(sh, edge[..at], |key|, leaf, kept)
    else ForkCell(sh, edge[..at], |key|, kept, leaf)
  }

  /** `Merge` on cells: the subtree that is left takes over the fork's edge and its own side's bit. */
  function CollapseCell<E>(sh: Shape<E>, parent: Step): Result<Cell>
    requires parent.Valid()
  {
    var sibling :- parent.Sibling();
    if sibling.IsExotic() then Err(Pruned)
    else
      var (below, body) :- ReadEdge(sh, sibling.bits, parent.Below());
      RelabelCell(sh, parent.edge + [!parent.branch] + below, parent.remaining, body, sibling.refs)
  }

  // ---------------------------------------------------------------- the writes as recursions

  function StoreFrom<E>(sh: Shape<E>, node: Cell, key: Bits, entry: Entry<E>): Result<Cell>
    decreases |key|
  {
    if node.IsExotic() then Err(Pruned)
    else
      var (edge, body) :- ReadEdge(sh, node.bits, |key|);
      match Diverges(edge, key)
      case Some(at) => SplitCell(sh, node, edge, body, at, key, entry)
      case None =>
        if |edge| == |key| then LeafCell(sh, key, entry, |key|)
        else
          var bit := key[|edge|];
          var _ :- CheckFork(sh, Payload(body, node.refs));
          if Bit(bit) >= |node.refs| then Err(Malformed)
          else
            var child :- StoreFrom(sh, node.refs[Bit(bit)], key[|edge| + 1..], entry);
            RebuildStep(sh, Step(node, edge, |key|, bit), child)
  }

  datatype CellRemoval = NotThere | NothingLeft | Left(cell: Cell)

  function RemoveFrom<E>(sh: Shape<E>, node: Cell, key: Bits): Result<CellRemoval>
    decreases |key|
  {
    if node.IsExotic() then Err(Pruned)
    else
      var (edge, body) :- ReadEdge(sh, node.bits, |key|);
      if Diverges(edge, key).Some? then Ok(NotThere)
      else if |edge| == |key| then Ok(NothingLeft)
      else
        var bit := key[|edge|];
        var _ :- CheckFork(sh, Payload(body, node.refs));
        if Bit(bit) >= |node.refs| then Err(Malformed)
        else
          var step := Step(node, edge, |key|, bit);
          var below :- RemoveFrom(sh, node.refs[Bit(bit)], key[|edge| + 1..]);
          match below
          case NotThere => Ok(NotThere)
          case NothingLeft =>
            var merged :- CollapseCell(sh, step);
            Ok(Left(merged))
          case Left(child) =>
            var fork :- RebuildStep(sh, step, child);
            Ok(Left(fork))
  }

  // ---------------------------------------------------------------- the loops

  /** A descent's outcome: the node it stopped at, what of the key was spent, and what `Rebuilt` puts back. */
  datatype Walk = Walk(path: seq<Step>, node: Cell, edge: Bits, body: Bits, consumed: nat, diverged: Option<nat>)

  predicate ValidPath(path: seq<Step>) {
    forall i :: 0 <= i < |path| ==> path[i].Valid()
  }

  /**
    A changed subtree carried up the recorded forks, the last of them first; a level that does not
    fit fails it.
   */
  function Rebuilt<E>(sh: Shape<E>, path: seq<Step>, child: Result<Cell>): Result<Cell>
    requires ValidPath(path)
    decreases |path|
  {
    if path == [] || child.Err? then child
    else Rebuilt(sh, path[..|path| - 1], RebuildStep(sh, path[|path| - 1], child.value))
  }

  method Rebuild<E>(sh: Shape<E>, steps: seq<Step>, bottom: Cell) returns (r: Result<Cell>)
    requires ValidPath(steps)
    ensures r == Rebuilt(sh, steps, Ok(bottom))
  {
    var path, child := steps, bottom;
    while path != []
      invariant ValidPath(path)
      invariant Rebuilt(sh, steps, Ok(bottom)) == Rebuilt(sh, path, Ok(child))
    {
      var step := path[|path| - 1];
      path := path[..|path| - 1];
      var rebuilt := RebuildStep(sh, step, child);
      if rebuilt.Err? { return rebuilt; }
      child := rebuilt.value;
    }
    return Ok(child);
  }

  /** What a store leaves at the node where the descent stopped. */
  function Bottom<E>(sh: Shape<E>, w: Walk, key: Bits, entry: Entry<E>): Result<Cell>
    requires w.consumed <= |key| && w.diverged == Diverges(w.edge, key[w.consumed..])
  {
    var tail := key[w.consumed..];
    match w.diverged
    case Some(at) => SplitCell(sh, w.node, w.edge, w.body, at, tail, entry)
    case None => LeafCell(sh, tail, entry, |tail|)
  }

  /** What a removal leaves, given where the descent stopped. */
  function Dropped<E>(sh: Shape<E>, w: Walk): Result<CellRemoval>
    requires ValidPath(w.path)
  {
    if w.diverged.Some? then Ok(NotThere)
    else if w.path == [] then Ok(NothingLeft)
    else
      var n := |w.path| - 1;
      var root :- Rebuilt(sh, w.path[..n], CollapseCell(sh, w.path[n]));
      Ok(Left(root))
  }

  /** `Rebuilt` for a removal, whose outcome may leave the path as it was or nothing at all. */
  function CarriedUp<E>(sh: Shape<E>, path: seq<Step>, below: Result<CellRemoval>): Result<CellRemoval>
    requires ValidPath(path)
  {
    if below.Err? || path == [] then below
    else match below.value
    case NotThere => below
    case NothingLeft =>
      var root :- Rebuilt(sh, path[..|path| - 1], CollapseCell(sh, path[|path| - 1]));
      Ok(Left(root))
    case Left(child) =>
      var root :- Rebuilt(sh, path, Ok(child));
      Ok(Left(root))
  }

  /** One level of the descent: an ending, or the fork to record before going on. */
  datatype Sight =
    | Stops(edge: Bits, body: Bits, diverged: Option<nat>)
    | GoesOn(step: Step, child: Cell)

  function Look<E>(sh: Shape<E>, node: Cell, ahead: Bits): (r: Result<Sight>)
    ensures r.Ok? && r.value.GoesOn? ==> r.value.step.Valid() && |r.value.step.edge| < |ahead|
  {
    if node.IsExotic() then Err(Pruned)
    else
      var (edge, body) :- ReadEdge(sh, node.bits, |ahead|);
      var diverged := Diverges(edge, ahead);
      if diverged.Some? || |edge| == |ahead| then Ok(Stops(edge, body, diverged))
      else
        var _ :- CheckFork(sh, Payload(body, node.refs));
        var bit := ahead[|edge|];
        if Bit(bit) >= |node.refs| then Err(Malformed)
        else Ok(GoesOn(Step(node, edge, |ahead|, bit), node.refs[Bit(bit)]))
  }

  lemma {:induction false} RebuiltBelow<E>(sh: Shape<E>, path: seq<Step>, step: Step, child: Cell)
    requires ValidPath(path) && step.Valid()
    ensures Rebuilt(sh, path + [step], Ok(child)) == Rebuilt(sh, path, RebuildStep(sh, step, child))
  {
    assert (path + [step])[..|path|] == path;
  }

  lemma {:induction false} StoreGoesOn<E>(sh: Shape<E>, path: seq<Step>, node: Cell, key: Bits, entry: Entry<E>)
    requires ValidPath(path) && Look(sh, node, key).Ok? && Look(sh, node, key).value.GoesOn?
    ensures var on := Look(sh, node, key).value;
      Rebuilt(sh, path, StoreFrom(sh, node, key, entry)) ==
      Rebuilt(sh, path + [on.step], StoreFrom(sh, on.child, key[|on.step.edge| + 1..], entry))
  {
    hide FirstGap, Diverges, ReadEdge, CheckFork, SplitCell, LeafCell, RebuildStep;
    var on := Look(sh, node, key).value;
    var below := StoreFrom(sh, on.child, key[|on.step.edge| + 1..], entry);
    if below.Ok? { RebuiltBelow(sh, path, on.step, below.value); }
  }

  lemma {:induction false} RemoveGoesOn<E>(sh: Shape<E>, path: seq<Step>, node: Cell, key: Bits)
    requires ValidPath(path) && Look(sh, node, key).Ok? && Look(sh, node, key).value.GoesOn?
    ensures var on := Look(sh, node, key).value;
      CarriedUp(sh, path, RemoveFrom(sh, node, key)) ==
      CarriedUp(sh, path + [on.step], RemoveFrom(sh, on.child, key[|on.step.edge| + 1..]))
  {
    hide FirstGap, Diverges, ReadEdge, CheckFork, CollapseCell, RebuildStep;
    var on := Look(sh, node, key).value;
    var below := RemoveFrom(sh, on.child, key[|on.step.edge| + 1..]);
    if below.Ok? && below.value.Left? { RebuiltBelow(sh, path, on.step, below.value.cell); }
    assert (path + [on.step])[..|path|] == path;
  }

  /** The descent from a node reached by `path` after `consumed` bits, as a recursion. */
  function DescendFrom<E>(sh: Shape<E>, path: seq<Step>, node: Cell, bits: Bits, consumed: nat): (r: Result<Walk>)
    requires ValidPath(path) && consumed <= |bits|
    ensures r.Ok? ==>
      var w := r.value;
      && ValidPath(w.path) && w.consumed <= |bits| && w.diverged == Diverges(w.edge, bits[w.consumed..])
      && (w.diverged.None? ==> |w.edge| == |bits| - w.consumed)
    decreases |bits| - consumed
  {
    hide FirstGap, ReadEdge, CheckFork;
    var sight :- Look(sh, node, bits[consumed..]);
    match sight
    case Stops(edge, body, diverged) => Ok(Walk(path, node, edge, body, consumed, diverged))
    case GoesOn(step, child) => DescendFrom(sh, path + [step], child, bits, consumed + |step.edge| + 1)
  }

  /** Computes `DescendFrom` by iteration, for cells that need not encode any tree. */
  method Descend<E>(sh: Shape<E>, root: Cell, bits: Bits) returns (r: Result<Walk>)
    ensures r == DescendFrom(sh, [], root, bits, 0)
  {
    hide Look;
    var path: seq<Step> := [];
    var node := root;
    var consumed: nat := 0;
    while true
      invariant ValidPath(path) && consumed <= |bits|
      invariant DescendFrom(sh, [], root, bits, 0) == DescendFrom(sh, path, node, bits, consumed)
      decreases |bits| - consumed
    {
      var sight := Look(sh, node, bits[consumed..]);
      if sight.Err? { return Err(sight.error); }
      match sight.value {
        case Stops(edge, body, diverged) =>
          return Ok(Walk(path, node, edge, body, consumed, diverged));
        case GoesOn(step, child) =>
          path, node, consumed := path + [step], child, consumed + |step.edge| + 1;
      }
    }
  }

  lemma {:induction false} StoreStops<E>(sh: Shape<E>, node: Cell, key: Bits, entry: Entry<E>)
    requires Look(sh, node, key).Ok? ==> Look(sh, node, key).value.Stops?
    ensures StoreFrom(sh, node, key, entry) ==
      match Look(sh, node, key)
      case Err(e) => Err(e)
      case Ok(at) => Bottom(sh, Walk([], node, at.edge, at.body, 0, at.diverged), key, entry)
  {
    hide FirstGap, ReadEdge, CheckFork, SplitCell, LeafCell;
    assert key[0..] == key;
  }

  lemma {:induction false} RebuiltErr<E>(sh: Shape<E>, path: seq<Step>, e: Error)
    requires ValidPath(path)
    ensures Rebuilt(sh, path, Err(e)) == Err(e)
  {}

  /** Storing is descending, changing what the descent stopped at, and rebuilding the path. */
  lemma {:induction false} StoreDescends<E>(sh: Shape<E>, path: seq<Step>, node: Cell, bits: Bits, consumed: nat,
      entry: Entry<E>)
    requires ValidPath(path) && consumed <= |bits|
    ensures Rebuilt(sh, path, StoreFrom(sh, node, bits[consumed..], entry)) ==
      match DescendFrom(sh, path, node, bits, consumed)
      case Err(e) => Err(e)
      case Ok(w) => Rebuilt(sh, w.path, Bottom(sh, w, bits, entry))
    decreases |bits| - consumed
  {
    hide Look, StoreFrom, Rebuilt, SplitCell, LeafCell;
    var ahead := bits[consumed..];
    var sight := Look(sh, node, ahead);
    if sight.Ok? && sight.value.GoesOn? {
      var on := sight.value;
      StoreGoesOn(sh, path, node, ahead, entry);
      assert ahead[|on.step.edge| + 1..] == bits[consumed + |on.step.edge| + 1..];
      StoreDescends(sh, path + [on.step], on.child, bits, consumed + |on.step.edge| + 1, entry);
    } else {
      StoreStops(sh, node, ahead, entry);
      assert ahead[0..] == ahead;
      if sight.Err? { RebuiltErr(sh, path, sight.error); }
    }
  }

  lemma {:induction false} RemoveStops<E>(sh: Shape<E>, path: seq<Step>, node: Cell, key: Bits)
    requires ValidPath(path)
    requires Look(sh, node, key).Ok? ==> Look(sh, node, key).value.Stops?
    ensures CarriedUp(sh, path, RemoveFrom(sh, node, key)) ==
      match Look(sh, node, key)
      case Err(e) => Err(e)
      case Ok(at) => Dropped(sh, Walk(path, node, at.edge, at.body, 0, at.diverged))
  {
    hide FirstGap, ReadEdge, CheckFork, CollapseCell, RebuildStep;
  }

  /** Removing is descending, dropping what the descent stopped at, and rebuilding the path. */
  lemma {:induction false} RemoveDescends<E>(sh: Shape<E>, path: seq<Step>, node: Cell, bits: Bits, consumed: nat)
    requires ValidPath(path) && consumed <= |bits|
    ensures CarriedUp(sh, path, RemoveFrom(sh, node, bits[consumed..])) ==
      match DescendFrom(sh, path, node, bits, consumed)
      case Err(e) => Err(e)
      case Ok(w) => Dropped(sh, w)
    decreases |bits| - consumed
  {
    hide Look, RemoveFrom, CarriedUp, CollapseCell, Rebuilt;
    var ahead := bits[consumed..];
    var sight := Look(sh, node, ahead);
    if sight.Ok? && sight.value.GoesOn? {
      var on := sight.value;
      RemoveGoesOn(sh, path, node, ahead);
      assert ahead[|on.step.edge| + 1..] == bits[consumed + |on.step.edge| + 1..];
      RemoveDescends(sh, path + [on.step], on.child, bits, consumed + |on.step.edge| + 1);
    } else {
      RemoveStops(sh, path, node, ahead);
    }
  }
}

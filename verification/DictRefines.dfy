module DictRefines {
  // Every write over cells is the same write over the tree the cells encode: it succeeds exactly
  // where the changed tree fits its cells, and then it leaves that tree's one canonical cell.

  import opened Basics
  import opened Cells
  import opened DictTree
  import opened DictCells
  import opened DictWrites

  lemma {:induction false} RelabelEncoded<E>(sh: Shape<E>, t: Tree<E>, n: nat, edge: Bits, max: nat)
    requires WellFormed(t, n) && !t.Opaque? && Encode(sh, t, n).Ok? && max + |t.edge| == n + |edge|
    ensures WellFormed(Relabel(t, edge), max)
    ensures Encode(sh, Relabel(t, edge), max) ==
            RelabelCell(sh, edge, max, Body(sh, t, n), Encode(sh, t, n).value.refs)
  {
    hide Body, ForkExtra, WriteExtra, WriteEdge;
    if t.Leaf? { EncodedLeaf(sh, t, n); } else { EncodedFork(sh, t, n); }
  }

  /** A fork over two subtrees encodes exactly where both of them and the fork itself do. */
  function Joined<E>(sh: Shape<E>, edge: Bits, n: nat, bit: bool, child: Result<Cell>,
      sibling: Result<Cell>): Result<Cell>
    requires |edge| < n
  {
    var c :- child;
    var s :- sibling;
    if bit then ForkCell(sh, edge, n, s, c) else ForkCell(sh, edge, n, c, s)
  }

  lemma {:induction false} JoinEncoded<E>(sh: Shape<E>, edge: Bits, n: nat, bit: bool, child: Tree<E>, sibling: Tree<E>)
    requires |edge| < n && WellFormed(child, n - |edge| - 1) && WellFormed(sibling, n - |edge| - 1)
    ensures WellFormed(Join(edge, bit, child, sibling), n)
    ensures Agree(Encode(sh, Join(edge, bit, child, sibling), n),
                  Joined(sh, edge, n, bit, Encode(sh, child, n - |edge| - 1), Encode(sh, sibling, n - |edge| - 1)))
  {
    hide ForkCell;
  }

  // ---------------------------------------------------------------- storing

  /** A store over cells answers as the store over the tree says it should. */
  ghost predicate StoreAgrees<E>(sh: Shape<E>, t: Tree<E>, key: Bits, entry: Entry<E>)
    requires WellFormed(t, |key|) && Encode(sh, t, |key|).Ok?
  {
    var stored := StoreFrom(sh, Encode(sh, t, |key|).value, key, entry);
    match Insert(t, key, entry.extra, entry.value)
    case Err(e) => stored == Err(e)
    case Ok(changed) => Agree(stored, Encode(sh, changed, |key|))
  }

  lemma {:induction false} SplitRefines<E>(sh: Shape<E>, t: Tree<E>, key: Bits, entry: Entry<E>, at: nat)
    requires Exact(sh.labels) && WellFormed(t, |key|) && !t.Opaque? && Encode(sh, t, |key|).Ok?
    requires at < |t.edge| && at < |key|
    ensures var split := Split(t, at, key, entry.extra, entry.value);
      && WellFormed(split, |key|)
      && Agree(SplitCell(sh, Encode(sh, t, |key|).value, t.edge, Body(sh, t, |key|), at, key, entry),
               Encode(sh, split, |key|))
  {
    hide Encode, Body, LeafCell, ForkCell, RelabelCell;
    var below := |key| - at - 1;
    var kept, leaf := Relabel(t, t.edge[at + 1..]), Leaf(key[at + 1..], entry.extra, entry.value);
    RelabelEncoded(sh, t, |key|, t.edge[at + 1..], below);
    LeafEncoded(sh, leaf, below);
    JoinEncoded(sh, t.edge[..at], |key|, t.edge[at], kept, leaf);
  }

  lemma {:induction false} LeafEncoded<E>(sh: Shape<E>, t: Tree<E>, n: nat)
    requires t.Leaf? && WellFormed(t, n)
    ensures Encode(sh, t, n) == LeafCell(sh, t.edge, Entry(t.extra, t.value), n)
  {}

  lemma {:induction false} StoreHere<E>(sh: Shape<E>, t: Tree<E>, key: Bits, entry: Entry<E>)
    requires Exact(sh.labels) && WellFormed(t, |key|) && !t.Opaque? && Encode(sh, t, |key|).Ok?
    requires Diverges(t.edge, key).Some? || t.Leaf?
    ensures StoreAgrees(sh, t, key, entry)
  {
    hide Encode, Body, LeafCell, SplitCell, ReadEdge, FirstGap;
    EncodedReads(sh, t, |key|);
    match Diverges(t.edge, key)
    case Some(at) => SplitRefines(sh, t, key, entry, at);
    case None => LeafEncoded(sh, Leaf(key, entry.extra, entry.value), |key|);
  }

  /** What the walk sees at an encoded fork the key does not part from. */
  lemma {:induction false} LookThrough<E(!new)>(sh: Shape<E>, t: Tree<E>, key: Bits)
    requires Lawful(sh) && ForksBare(sh) && WellFormed(t, |key|) && t.Fork? && Encode(sh, t, |key|).Ok?
    requires Diverges(t.edge, key).None?
    ensures var c, bit, below := Encode(sh, t, |key|).value, key[|t.edge|], |key| - |t.edge| - 1;
      && |c.refs| == 2
      && Look(sh, c, key) == Ok(GoesOn(Step(c, t.edge, |key|, bit), c.refs[Bit(bit)]))
      && Encode(sh, Child(t, bit), below) == Ok(c.refs[Bit(bit)])
      && Encode(sh, Child(t, !bit), below) == Ok(c.refs[1 - Bit(bit)])
  {
    hide Encode, Body, ReadEdge, FirstGap, CheckFork, ForkExtra, WriteExtra, ForkCell, ForksBare;
    EncodedReads(sh, t, |key|);
    EncodedForkRefs(sh, t, |key|);
    EncodedForkChecks(sh, t, |key|);
  }

  lemma {:induction false} StoreBelow<E>(sh: Shape<E>, node: Cell, key: Bits, entry: Entry<E>)
    requires Look(sh, node, key).Ok? && Look(sh, node, key).value.GoesOn?
    ensures var on := Look(sh, node, key).value;
      StoreFrom(sh, node, key, entry) ==
      match StoreFrom(sh, on.child, key[|on.step.edge| + 1..], entry)
      case Err(e) => Err(e)
      case Ok(child) => RebuildStep(sh, on.step, child)
  {
    hide ReadEdge, FirstGap, CheckFork, RebuildStep;
  }

  lemma {:induction false} RebuildEncoded<E>(sh: Shape<E>, step: Step, child: Cell, sibling: Cell)
    requires step.Valid() && step.Sibling() == Ok(sibling)
    ensures RebuildStep(sh, step, child) ==
            Joined(sh, step.edge, step.remaining, step.branch, Ok(child), Ok(sibling))
  {
    hide ForkCell;
  }

  lemma {:induction false} StoreDown<E(!new)>(sh: Shape<E>, t: Tree<E>, key: Bits, entry: Entry<E>)
    requires Lawful(sh) && ForksBare(sh) && WellFormed(t, |key|) && t.Fork? && Encode(sh, t, |key|).Ok?
    requires Diverges(t.edge, key).None?
    requires Encode(sh, Child(t, key[|t.edge|]), |key| - |t.edge| - 1).Ok?
    requires StoreAgrees(sh, Child(t, key[|t.edge|]), key[|t.edge| + 1..], entry)
    ensures StoreAgrees(sh, t, key, entry)
  {
    hide Encode, StoreFrom, Look, FirstGap, RebuildStep, Joined;
    var c, bit := Encode(sh, t, |key|).value, key[|t.edge|];
    var rest := key[|t.edge| + 1..];
    LookThrough(sh, t, key);
    StoreBelow(sh, c, key, entry);
    var below := Insert(Child(t, bit), rest, entry.extra, entry.value);
    var stored := StoreFrom(sh, c.refs[Bit(bit)], rest, entry);
    if below.Ok? {
      JoinEncoded(sh, t.edge, |key|, bit, below.value, Child(t, !bit));
      if stored.Ok? {
        RebuildEncoded(sh, Step(c, t.edge, |key|, bit), stored.value, c.refs[1 - Bit(bit)]);
      } else {
        JoinedErr(sh, t.edge, |key|, bit, Encode(sh, below.value, |rest|), Ok(c.refs[1 - Bit(bit)]));
      }
    }
  }

  lemma {:induction false} JoinedErr<E>(sh: Shape<E>, edge: Bits, n: nat, bit: bool, child: Result<Cell>,
      sibling: Result<Cell>)
    requires |edge| < n && child.Err?
    ensures Joined(sh, edge, n, bit, child, sibling).Err?
  {}

  lemma {:induction false} StoreWithheld<E>(sh: Shape<E>, t: Tree<E>, key: Bits, entry: Entry<E>)
    requires t.Opaque? && WellFormed(t, |key|) && Encode(sh, t, |key|).Ok?
    ensures StoreAgrees(sh, t, key, entry)
  {}

  lemma {:induction false} StoreRefines<E(!new)>(sh: Shape<E>, t: Tree<E>, key: Bits, entry: Entry<E>)
    requires Lawful(sh) && ForksBare(sh) && WellFormed(t, |key|) && Encode(sh, t, |key|).Ok?
    ensures StoreAgrees(sh, t, key, entry)
    decreases t
  {
    hide Exact, ForksBare, StoreAgrees, StoreFrom, Body;
    if t.Opaque? {
      StoreWithheld(sh, t, key, entry);
    } else {
      if Diverges(t.edge, key).Some? || t.Leaf? {
        StoreHere(sh, t, key, entry);
      } else {
        LookThrough(sh, t, key);
        StoreRefines(sh, Child(t, key[|t.edge|]), key[|t.edge| + 1..], entry);
        StoreDown(sh, t, key, entry);
      }
    }
  }

  // ---------------------------------------------------------------- removing

  /** A removal over cells answers as the removal over the tree says it should. */
  ghost predicate RemoveAgrees<E>(sh: Shape<E>, t: Tree<E>, key: Bits)
    requires WellFormed(t, |key|) && Encode(sh, t, |key|).Ok?
  {
    var removed := RemoveFrom(sh, Encode(sh, t, |key|).value, key);
    match Delete(t, key)
    case Err(e) => removed == Err(e)
    case Ok(Missing) => removed == Ok(NotThere)
    case Ok(Emptied) => removed == Ok(NothingLeft)
    case Ok(Remains(changed)) =>
      match Encode(sh, changed, |key|)
      case Ok(cell) => removed == Ok(Left(cell))
      case Err(_) => removed.Err?
  }

  lemma {:induction false} RemoveHere<E>(sh: Shape<E>, t: Tree<E>, key: Bits)
    requires Exact(sh.labels) && WellFormed(t, |key|) && !t.Opaque? && Encode(sh, t, |key|).Ok?
    requires Diverges(t.edge, key).Some? || t.Leaf?
    ensures RemoveAgrees(sh, t, key)
  {
    hide Encode, Body, ReadEdge, FirstGap;
    EncodedReads(sh, t, |key|);
  }

  lemma {:induction false} RemoveBelow<E>(sh: Shape<E>, node: Cell, key: Bits)
    requires Look(sh, node, key).Ok? && Look(sh, node, key).value.GoesOn?
    ensures var on := Look(sh, node, key).value;
      RemoveFrom(sh, node, key) ==
      match RemoveFrom(sh, on.child, key[|on.step.edge| + 1..])
      case Err(e) => Err(e)
      case Ok(NotThere) => Ok(NotThere)
      case Ok(NothingLeft) =>
        (match CollapseCell(sh, on.step) case Err(e) => Err(e) case Ok(cell) => Ok(Left(cell)))
      case Ok(Left(child)) =>
        (match RebuildStep(sh, on.step, child) case Err(e) => Err(e) case Ok(cell) => Ok(Left(cell)))
  {
    hide ReadEdge, FirstGap, CheckFork, RebuildStep, CollapseCell;
  }

  lemma {:induction false} CollapseRefines<E>(sh: Shape<E>, step: Step, survivor: Tree<E>)
    requires Exact(sh.labels) && step.Valid() && WellFormed(survivor, step.Below())
    requires Encode(sh, survivor, step.Below()).Ok?
    requires step.Sibling() == Encode(sh, survivor, step.Below())
    ensures survivor.Opaque? ==> CollapseCell(sh, step) == Err(Pruned)
    ensures !survivor.Opaque? ==>
      && WellFormed(Merge(step.edge, !step.branch, survivor), step.remaining)
      && CollapseCell(sh, step) == Encode(sh, Merge(step.edge, !step.branch, survivor), step.remaining)
  {
    hide Encode, Body, ReadEdge, RelabelCell;
    if !survivor.Opaque? {
      EncodedReads(sh, survivor, step.Below());
      RelabelEncoded(sh, survivor, step.Below(), Through(step.edge, !step.branch, survivor.edge), step.remaining);
    }
  }

  lemma {:induction false} RemoveDown<E(!new)>(sh: Shape<E>, t: Tree<E>, key: Bits)
    requires Lawful(sh) && ForksBare(sh) && WellFormed(t, |key|) && t.Fork? && Encode(sh, t, |key|).Ok?
    requires Diverges(t.edge, key).None?
    requires Encode(sh, Child(t, key[|t.edge|]), |key| - |t.edge| - 1).Ok?
    requires RemoveAgrees(sh, Child(t, key[|t.edge|]), key[|t.edge| + 1..])
    ensures RemoveAgrees(sh, t, key)
  {
    hide Encode, RemoveFrom, Look, FirstGap, RebuildStep, CollapseCell, Joined;
    var c, bit := Encode(sh, t, |key|).value, key[|t.edge|];
    var rest := key[|t.edge| + 1..];
    LookThrough(sh, t, key);
    RemoveBelow(sh, c, key);
    var step := Step(c, t.edge, |key|, bit);
    var below := Delete(Child(t, bit), rest);
    if below.Ok? && below.value.Emptied? {
      CollapseRefines(sh, step, Child(t, !bit));
    } else if below.Ok? && below.value.Remains? {
      JoinEncoded(sh, t.edge, |key|, bit, below.value.tree, Child(t, !bit));
      var removed := RemoveFrom(sh, c.refs[Bit(bit)], rest);
      if removed.Ok? {
        RebuildEncoded(sh, step, removed.value.cell, c.refs[1 - Bit(bit)]);
      } else {
        JoinedErr(sh, t.edge, |key|, bit, Encode(sh, below.value.tree, |rest|), Ok(c.refs[1 - Bit(bit)]));
      }
    }
  }

  lemma {:induction false} RemoveUnseen<E>(sh: Shape<E>, t: Tree<E>, key: Bits)
    requires Exact(sh.labels) && WellFormed(t, |key|) && Encode(sh, t, |key|).Ok? && t.Opaque?
    ensures RemoveAgrees(sh, t, key)
  {}

  lemma {:induction false} RemoveRefines<E(!new)>(sh: Shape<E>, t: Tree<E>, key: Bits)
    requires Lawful(sh) && ForksBare(sh) && WellFormed(t, |key|) && Encode(sh, t, |key|).Ok?
    ensures RemoveAgrees(sh, t, key)
    decreases t
  {
    hide RemoveAgrees, FirstGap, ForkCell, LeafCell, ForkExtra, ReadEdge;
    if t.Opaque? {
      RemoveUnseen(sh, t, key);
    } else {
      if Diverges(t.edge, key).Some? || t.Leaf? {
        RemoveHere(sh, t, key);
      } else {
        LookThrough(sh, t, key);
        RemoveRefines(sh, Child(t, key[|t.edge|]), key[|t.edge| + 1..]);
        RemoveDown(sh, t, key);
      }
    }
  }
}

module DictWalk {
  // Walking a dictionary: the stacked walk over cells, leaf by leaf, in ascending key order.

  import opened Basics
  import opened Cells
  import opened DictTree
  import opened DictMap
  import opened DictCells
  import opened DictHistories

  /** A stack entry: a subtree's cell, the key that leads to it, and the width it is encoded under. */
  datatype Pending = Pending(node: Cell, prefix: Bits, remaining: nat)

  /** A step's yield: `None` once nothing is ahead. */
  type Stepped<E> = Option<(Bits, E, DictEntry)>

  /** The stack is the cells of these trees, top last. */
  ghost predicate Stacks<E>(sh: Shape<E>, stack: seq<Pending>, trees: seq<Tree<E>>) {
    && |stack| == |trees|
    && forall i :: 0 <= i < |stack| ==>
         && Whole(trees[i]) && WellFormed(trees[i], stack[i].remaining)
         && Encode(sh, trees[i], stack[i].remaining) == Ok(stack[i].node)
  }

  /** The items of the stacked trees, the last of them first. */
  ghost function Ahead<E>(stack: seq<Pending>, trees: seq<Tree<E>>): seq<Item<E>>
    requires |stack| == |trees| && forall i :: 0 <= i < |trees| ==> Whole(trees[i])
  {
    if stack == [] then []
    else
      var n := |stack| - 1;
      Items(trees[n], stack[n].prefix) + Ahead(stack[..n], trees[..n])
  }

  /** A step yields this item's key and summary, and where its leaf opens. */
  ghost predicate Yields<E>(sh: Shape<E>, stepped: Stepped<E>, item: Item<E>) {
    && stepped.Some?
    && stepped.value.0 == item.0
    && stepped.value.1 == item.1.extra
    && stepped.value.2.Valid() && stepped.value.2.Contents() == Opens(sh, item.1)
  }

  /** A bound on the visits a stack has left, for termination. */
  function Work(stack: seq<Pending>): nat {
    if stack == [] then 0
    else 2 * Pow2(stack[|stack| - 1].remaining) - 1 + Work(stack[..|stack| - 1])
  }

  lemma {:induction false} WorkPopped(stack: seq<Pending>)
    requires stack != []
    ensures Work(stack) == 2 * Pow2(stack[|stack| - 1].remaining) - 1 + Work(stack[..|stack| - 1])
    ensures Work(stack[..|stack| - 1]) < Work(stack)
  {}

  lemma {:induction false} WorkPushed(stack: seq<Pending>, a: Pending, b: Pending, remaining: nat)
    requires a.remaining < remaining && b.remaining < remaining
    ensures Work(stack + [a, b]) < Work(stack) + 2 * Pow2(remaining) - 1
  {
    assert (stack + [a, b])[..|stack| + 1] == stack + [a];
    assert (stack + [a])[..|stack|] == stack;
    Pow2Monotone(a.remaining, remaining - 1);
    Pow2Monotone(b.remaining, remaining - 1);
  }

  /** One pop: a leaf's item, or the two subtrees to push in its place. */
  datatype Popped<+E> = AtLeaf(key: Bits, extra: E, entry: DictEntry) | AtFork(high: Pending, low: Pending)

  function Pop<E>(sh: Shape<E>, top: Pending): (r: Result<Popped<E>>)
    ensures r.Ok? && r.value.AtFork? ==> r.value.high.remaining < top.remaining && r.value.low.remaining < top.remaining
  {
    if top.node.IsExotic() then Err(Pruned)
    else
      var (edge, body) :- ReadEdge(sh, top.node.bits, top.remaining);
      var key := top.prefix + edge;
      if |edge| == top.remaining then
        var (extra, value) :- ReadExtra(sh, Payload(body, top.node.refs));
        Ok(AtLeaf(key, extra, DictEntry(top.node, |top.node.bits| - |value.bits|)))
      else if |top.node.refs| < 2 then Err(Malformed)
      else
        var below := top.remaining - |edge| - 1;
        Ok(AtFork(Pending(top.node.refs[1], key + [true], below), Pending(top.node.refs[0], key + [false], below)))
  }

  lemma {:induction false} PopLeaf<E(!new)>(sh: Shape<E>, t: Tree<E>, top: Pending)
    requires Lawful(sh) && t.Leaf? && WellFormed(t, top.remaining) && Encode(sh, t, top.remaining) == Ok(top.node)
    ensures var r := Pop(sh, top);
      && r.Ok? && r.value.AtLeaf?
      && |Items(t, top.prefix)| == 1
      && Yields(sh, Some((r.value.key, r.value.extra, r.value.entry)), Items(t, top.prefix)[0])
  {
    hide Encode, ReadExtra, WriteExtra, Body;
    EncodedReads(sh, t, top.remaining);
    EncodedLeaf(sh, t, top.remaining);
    ExtraReadsBack(sh, t.extra, t.value);
    assert top.node.bits[|top.node.bits| - |t.value.bits|..] == t.value.bits;
  }

  lemma {:induction false} PopFork<E(!new)>(sh: Shape<E>, t: Tree<E>, top: Pending)
    requires Lawful(sh) && ForksBare(sh)
    requires t.Fork? && WellFormed(t, top.remaining) && Encode(sh, t, top.remaining) == Ok(top.node)
    ensures var below, key := top.remaining - |t.edge| - 1, top.prefix + t.edge;
      && |top.node.refs| == 2
      && Pop(sh, top) ==
         Ok(AtFork(Pending(top.node.refs[1], key + [true], below), Pending(top.node.refs[0], key + [false], below)))
      && Encode(sh, t.left, below) == Ok(top.node.refs[0])
      && Encode(sh, t.right, below) == Ok(top.node.refs[1])
  {
    hide Encode, ReadExtra, Body, ForkExtra, WriteExtra, ForksBare;
    EncodedReads(sh, t, top.remaining);
    EncodedForkRefs(sh, t, top.remaining);
  }

  lemma {:induction false} AheadPushed<E>(stack: seq<Pending>, trees: seq<Tree<E>>, t: Tree<E>, high: Pending,
      low: Pending, prefix: Bits)
    requires |stack| == |trees| && forall i :: 0 <= i < |trees| ==> Whole(trees[i])
    requires t.Fork? && Whole(t) && low.prefix == prefix + t.edge + [false] && high.prefix == prefix + t.edge + [true]
    ensures Ahead(stack + [high, low], trees + [t.right, t.left]) == Items(t, prefix) + Ahead(stack, trees)
  {
    var n := |stack|;
    assert (stack + [high, low])[..n + 1] == stack + [high]
      && (trees + [t.right, t.left])[..n + 1] == trees + [t.right];
    assert (stack + [high])[..n] == stack && (trees + [t.right])[..n] == trees;
    assert Items(t, prefix) == Items(t.left, low.prefix) + Items(t.right, high.prefix);
  }

  /**
    Pops until something is yielded or the stack is empty. `trees` is what the stack stands for,
    where it stands for trees at all; any other stack is walked the same.
   */
  method WalkStep<E(!new)>(sh: Shape<E>, before: seq<Pending>, ghost trees: seq<Tree<E>>)
    returns (r: Result<Stepped<E>>, stack: seq<Pending>, ghost left: seq<Tree<E>>)
    ensures r.Ok? && r.value.Some? ==> Work(stack) < Work(before)
    ensures Lawful(sh) && ForksBare(sh) && Stacks(sh, before, trees) ==>
      && r.Ok? && Stacks(sh, stack, left)
      && (Ahead(before, trees) == [] ==> r.value.None? && stack == [])
      && (Ahead(before, trees) != [] ==>
            Yields(sh, r.value, Ahead(before, trees)[0]) && Ahead(stack, left) == Ahead(before, trees)[1..])
  {
    hide Pop, Encode, Yields, Work, Items, ForksBare;
    stack, left := before, trees;
    ghost var good := Lawful(sh) && ForksBare(sh) && Stacks(sh, before, trees);
    while stack != []
      invariant Work(stack) <= Work(before)
      invariant good ==>
        Lawful(sh) && ForksBare(sh) && Stacks(sh, stack, left) && Ahead(stack, left) == Ahead(before, trees)
      decreases Work(stack)
    {
      var n := |stack| - 1;
      var top := stack[n];
      ghost var t := if good then Some(left[n]) else None;
      WorkPopped(stack);
      stack := stack[..n];
      if good { left := left[..n]; }
      var popped := Pop(sh, top);
      if good {
        if t.value.Leaf? { PopLeaf(sh, t.value, top); } else { PopFork(sh, t.value, top); }
      }
      if popped.Err? { return Err(popped.error), stack, left; }
      match popped.value {
        case AtLeaf(key, extra, entry) =>
          return Ok(Some((key, extra, entry))), stack, left;
        case AtFork(high, low) =>
          WorkPushed(stack, high, low, top.remaining);
          if good {
            AheadPushed(stack, left, t.value, high, low, top.prefix);
            left := left + [t.value.right, t.value.left];
          }
          stack := stack + [high, low];
      }
    }
    return Ok(None), stack, left;
  }

  /** One entry of a walk. */
  type Visited<E> = (Bits, E, DictEntry)

  /** An iterator that, past an end or a failure, has nothing more to give. */
  class DictIter<E(!new)> {
    const shape: Shape<E>
    var stack: seq<Pending>
    var done: bool
    ghost var trees: seq<Tree<E>>

    constructor (shape: Shape<E>, root: Option<Cell>, keyBits: nat, ghost t: Option<Tree<E>>)
      ensures this.shape == shape && !done
      ensures stack == match root case None => [] case Some(cell) => [Pending(cell, [], keyBits)]
      ensures trees == match t case None => [] case Some(tree) => [tree]
    {
      this.shape, done := shape, false;
      stack := match root case None => [] case Some(cell) => [Pending(cell, [], keyBits)];
      trees := match t case None => [] case Some(tree) => [tree];
    }

    /** The stack is the cells of some trees, so what `Ahead` says of it is what `Next` will yield. */
    ghost predicate Standing()
      reads this
    {
      Lawful(shape) && ForksBare(shape) && Stacks(shape, stack, trees) && (done ==> stack == [])
    }

    method Next() returns (r: Option<Result<Visited<E>>>)
      modifies this`stack, this`done, this`trees
      ensures old(done) ==> r.None? && done && stack == old(stack)
      ensures r.Some? && r.value.Ok? ==> !done && Work(stack) < Work(old(stack))
      ensures r.None? || r.value.Err? ==> done
      ensures old(Standing()) ==> Standing()
      ensures old(Standing()) && old(Ahead(stack, trees)) == [] ==> r.None?
      ensures old(Standing()) && old(Ahead(stack, trees)) != [] ==>
        && r.Some? && r.value.Ok?
        && Yields(shape, Some(r.value.value), old(Ahead(stack, trees))[0])
        && Ahead(stack, trees) == old(Ahead(stack, trees))[1..]
    {
      if done { return None; }
      var stepped: Result<Stepped<E>>;
      stepped, stack, trees := WalkStep(shape, stack, trees);
      if stepped.Err? {
        done := true;
        return Some(Err(stepped.error));
      }
      if stepped.value.None? {
        done := true;
        return None;
      }
      return Some(Ok(stepped.value.value));
    }
  }

  /** The walk is the map: every key once, ascending, each with its own leaf, and then the end. */
  ghost predicate Lists<E>(sh: Shape<E>, walked: seq<Visited<E>>, m: Content<E>) {
    && (forall i, j :: 0 <= i < j < |walked| ==> Less(walked[i].0, walked[j].0))
    && (forall i :: 0 <= i < |walked| ==>
          walked[i].0 in m && Yields(sh, Some(walked[i]), (walked[i].0, m[walked[i].0])))
    && (forall k :: k in m ==> exists i :: 0 <= i < |walked| && walked[i].0 == k)
  }

  /** A walk reads every entry's value, all of them, exactly when no summary in the map writes a reference. */
  lemma {:induction false} WalkGivesValues<E>(sh: Shape<E>, walked: seq<Visited<E>>, m: Content<E>)
    requires Lists(sh, walked, m)
    ensures (forall i :: 0 <= i < |walked| ==> walked[i].2.Contents() == m[walked[i].0].value)
      <==> (forall k :: k in m ==> Bare(sh, m[k].extra))
  {
    hide WriteExtra;
    forall i | 0 <= i < |walked|
      ensures walked[i].2.Contents() == m[walked[i].0].value <==> Bare(sh, m[walked[i].0].extra)
    {
      var e := m[walked[i].0];
      var w := WriteExtra(sh, e.extra).refs;
      assert w == [] ==> w + e.value.refs == e.value.refs;
      assert |w + e.value.refs| == |w| + |e.value.refs|;
    }
    if forall i :: 0 <= i < |walked| ==> walked[i].2.Contents() == m[walked[i].0].value {
      forall k | k in m ensures Bare(sh, m[k].extra) {
        var i :| 0 <= i < |walked| && walked[i].0 == k;
      }
    }
  }

  lemma {:induction false} ItemsListMap<E>(
      sh: Shape<E>, t: Option<Tree<E>>, m: Content<E>, n: nat, walked: seq<Visited<E>>)
    requires Models(t, m, n)
    requires var items := match t case None => [] case Some(tree) => Items(tree, []);
      |walked| == |items| && forall i :: 0 <= i < |items| ==> Yields(sh, Some(walked[i]), items[i])
    ensures Lists(sh, walked, m)
  {
    if t.Some? {
      var items := Items(t.value, []);
      ItemsAreListing(t.value, m, n);
      forall k | k in m ensures exists i :: 0 <= i < |walked| && walked[i].0 == k {
        var i :| 0 <= i < |items| && items[i].0 == k;
        assert walked[i].0 == k;
      }
    }
  }

  ghost function ItemsOf<E>(t: Option<Tree<E>>): seq<Item<E>>
    requires t.Some? ==> Whole(t.value)
  {
    match t case None => [] case Some(tree) => Items(tree, [])
  }

  /** The tree behind a map's root, and that a walk started there has all of its items ahead. */
  lemma {:induction false} WalkStarts<E(!new)>(sh: Shape<E>, root: Option<Cell>, n: nat, m: Content<E>)
      returns (t: Option<Tree<E>>)
    requires Lawful(sh) && Holds(sh, root, m, n)
    ensures Models(t, m, n) && (t.Some? ==> Whole(t.value))
    ensures var stack := match root case None => [] case Some(cell) => [Pending(cell, [], n)];
      var trees := match t case None => [] case Some(tree) => [tree];
      Stacks(sh, stack, trees) && Ahead(stack, trees) == ItemsOf(t)
  {
    hide Encode, Lawful;
    t :| Models(t, m, n) && EncodeRoot(sh, t, n) == Ok(root);
  }

  /** Runs a walk to its end, or to its failure. */
  method WalkAll<E(!new)>(sh: Shape<E>, root: Option<Cell>, n: nat, ghost m: Content<E>)
      returns (r: Result<seq<Visited<E>>>)
    ensures Lawful(sh) && ForksBare(sh) && Holds(sh, root, m, n) ==> r.Ok? && Lists(sh, r.value, m)
  {
    hide Encode, Yields, Work, Lists, Lawful, ForksBare, Ahead, Models, Items, Holds, WellFormed;
    ghost var good, t, items: seq<Item<E>> := Lawful(sh) && ForksBare(sh) && Holds(sh, root, m, n), None, [];
    if good {
      t := WalkStarts(sh, root, n, m);
      items := ItemsOf(t);
    }
    var iter := new DictIter(sh, root, n, t);
    var walked: seq<Visited<E>> := [];
    while true
      invariant iter.shape == sh && fresh(iter) && !iter.done
      invariant good ==> iter.Standing() && |walked| <= |items| && Ahead(iter.stack, iter.trees) == items[|walked|..]
      invariant good ==> forall i :: 0 <= i < |walked| ==> Yields(sh, Some(walked[i]), items[i])
      decreases Work(iter.stack)
    {
      var next := iter.Next();
      if next.None? {
        if good { ItemsListMap(sh, t, m, n, walked); }
        return Ok(walked);
      }
      if next.value.Err? { return Err(next.value.error); }
      walked := walked + [next.value.value];
    }
  }
}

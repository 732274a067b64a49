module PostOrder {
  // The order of a bag said by recursion: a depth-first walk from the roots, each cell after all
  // it references and each once, turned around. The loop over a stack walks the same way.

  import opened Cells
  import opened Hashing
  import opened Topology

  /** What a walk has met, and what it has left behind it. */
  datatype Walked = Walked(seen: set<Hash>, out: seq<Cell>)

  /** A cell not met before, behind everything below it, first reference first. */
  function WalkCell(sha: Sha, c: Cell, seen: set<Hash>): Walked
    decreases c, |c.refs| + 1
  {
    if ReprHash(sha, c) in seen then Walked(seen, [])
    else
      var below := WalkRefs(sha, c, 0, seen + {ReprHash(sha, c)});
      Walked(below.seen, below.out + [c])
  }

  /** The references of a cell from the `k`th on. */
  function WalkRefs(sha: Sha, c: Cell, k: nat, seen: set<Hash>): Walked
    requires k <= |c.refs|
    decreases c, |c.refs| - k
  {
    if k == |c.refs| then Walked(seen, [])
    else
      var first := WalkCell(sha, c.refs[k], seen);
      var rest := WalkRefs(sha, c, k + 1, first.seen);
      Walked(rest.seen, first.out + rest.out)
  }

  /** The roots from the `k`th on. */
  function WalkRoots(sha: Sha, roots: seq<Cell>, k: nat, seen: set<Hash>): Walked
    requires k <= |roots|
    decreases |roots| - k
  {
    if k == |roots| then Walked(seen, [])
    else
      var first := WalkCell(sha, roots[k], seen);
      var rest := WalkRoots(sha, roots, k + 1, first.seen);
      Walked(rest.seen, first.out + rest.out)
  }

  lemma {:induction false} WithinFront(roots: seq<Cell>, a: seq<Step>, b: seq<Step>)
    requires Within(roots, a + b)
    ensures Within(roots, a) && Within(roots, b)
  {
    forall i | 0 <= i < |a| ensures a[i].cell in Reach(roots) { assert (a + b)[i] == a[i]; }
    forall i | 0 <= i < |b| ensures b[i].cell in Reach(roots) { assert (a + b)[|a| + i] == b[i]; }
  }

  lemma {:induction false} OnTop(sha: Sha, roots: seq<Cell>, seen: set<Hash>, order: seq<Cell>, rest: seq<Step>,
      step: Step)
    requires Within(roots, rest + [step])
    ensures Within(roots, rest)
    ensures step.Emit? ==>
      WalkFrom(sha, roots, seen, order, rest + [step]) == WalkFrom(sha, roots, seen, order + [step.cell], rest)
    ensures step.Visit? && ReprHash(sha, step.cell) in seen ==>
      WalkFrom(sha, roots, seen, order, rest + [step]) == WalkFrom(sha, roots, seen, order, rest)
    ensures step.Visit? && ReprHash(sha, step.cell) !in seen ==>
      && Within(roots, rest + [Emit(step.cell)] + Children(step.cell))
      && WalkFrom(sha, roots, seen, order, rest + [step]) == WalkFrom(sha, roots, seen + {ReprHash(sha, step.cell)},
           order, rest + [Emit(step.cell)] + Children(step.cell))
  {
    hide ReprHash, Reach;
    var stack := rest + [step];
    assert stack[|stack| - 1] == step && stack[..|stack| - 1] == rest;
    WithinFront(roots, rest, [step]);
    assert [step][0] == step && step.cell in Reach(roots);
    ChildrenWithin(roots, rest, step.cell);
  }

  /** Visiting a cell off the top of the stack is walking it and everything below. */
  lemma {:induction false} StackCell(sha: Sha, roots: seq<Cell>, seen: set<Hash>, order: seq<Cell>, rest: seq<Step>,
      c: Cell)
    requires Within(roots, rest + [Visit(c)])
    ensures Within(roots, rest)
    ensures var d := WalkCell(sha, c, seen);
      WalkFrom(sha, roots, seen, order, rest + [Visit(c)]) == WalkFrom(sha, roots, d.seen, order + d.out, rest)
    decreases c, |c.refs| + 1
  {
    hide ReprHash, WalkFrom, Within;
    OnTop(sha, roots, seen, order, rest, Visit(c));
    if ReprHash(sha, c) in seen {
      assert order + [] == order;
    } else {
      var now := seen + {ReprHash(sha, c)};
      assert Children(c)[..|c.refs|] == Children(c);
      StackRefs(sha, roots, now, order, rest + [Emit(c)], c, 0);
      var below := WalkRefs(sha, c, 0, now);
      OnTop(sha, roots, below.seen, order + below.out, rest, Emit(c));
      assert order + below.out + [c] == order + (below.out + [c]);
    }
  }

  lemma {:induction false} StackRefs(sha: Sha, roots: seq<Cell>, seen: set<Hash>, order: seq<Cell>, rest: seq<Step>,
      c: Cell, k: nat)
    requires k <= |c.refs| && Within(roots, rest + Children(c)[..|c.refs| - k])
    ensures Within(roots, rest)
    ensures var d := WalkRefs(sha, c, k, seen);
      WalkFrom(sha, roots, seen, order, rest + Children(c)[..|c.refs| - k])
      == WalkFrom(sha, roots, d.seen, order + d.out, rest)
    decreases c, |c.refs| - k
  {
    hide ReprHash, WalkFrom, Within, WalkCell;
    var ahead := Children(c)[..|c.refs| - k];
    if k == |c.refs| {
      assert rest + ahead == rest && order + [] == order;
    } else {
      var behind := Children(c)[..|c.refs| - (k + 1)];
      assert ahead == behind + [Visit(c.refs[k])];
      assert rest + ahead == rest + behind + [Visit(c.refs[k])];
      var first := WalkCell(sha, c.refs[k], seen);
      StackCell(sha, roots, seen, order, rest + behind, c.refs[k]);
      StackRefs(sha, roots, first.seen, order + first.out, rest, c, k + 1);
      var d := WalkRefs(sha, c, k + 1, first.seen);
      assert order + first.out + d.out == order + (first.out + d.out);
    }
  }

  lemma {:induction false} StackRoots(sha: Sha, roots: seq<Cell>, seen: set<Hash>, order: seq<Cell>, k: nat)
    requires k <= |roots| && Within(roots, Pending(roots)[..|roots| - k])
    ensures WalkFrom(sha, roots, seen, order, Pending(roots)[..|roots| - k])
      == order + WalkRoots(sha, roots, k, seen).out
    decreases |roots| - k
  {
    hide ReprHash, Within, WalkCell;
    var ahead := Pending(roots)[..|roots| - k];
    if k == |roots| {
      assert ahead == [] && order + [] == order;
    } else {
      hide WalkFrom;
      var behind := Pending(roots)[..|roots| - (k + 1)];
      assert ahead == behind + [Visit(roots[k])];
      var first := WalkCell(sha, roots[k], seen);
      StackCell(sha, roots, seen, order, behind, roots[k]);
      StackRoots(sha, roots, first.seen, order + first.out, k + 1);
      var d := WalkRoots(sha, roots, k + 1, first.seen);
      assert order + first.out + d.out == order + (first.out + d.out);
    }
  }

  /** The order a bag stores its cells in is the depth-first post-order from its roots, turned around. */
  lemma {:induction false} OrderIsPostOrder(sha: Sha, roots: seq<Cell>)
    ensures Order(sha, roots) == Reversed(WalkRoots(sha, roots, 0, {}).out)
  {
    hide ReprHash, WalkFrom, WalkRoots;
    PendingWithin(roots);
    assert Pending(roots)[..|roots|] == Pending(roots);
    StackRoots(sha, roots, {}, [], 0);
    assert [] + WalkRoots(sha, roots, 0, {}).out == WalkRoots(sha, roots, 0, {}).out;
  }
}

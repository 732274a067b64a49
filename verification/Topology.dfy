module Topology {
  // The order a bag writes its cells in: every distinct cell once, every reference forward.

  import opened Basics
  import opened Cells
  import opened Hashing
  import opened Collisions

  // ---------------------------------------------------------------- the graph

  /** Every cell at or below `c`. */
  function Below(c: Cell): (r: set<Cell>)
    ensures c in r
    decreases c
  {
    {c} + set i: nat, d | i < |c.refs| && d in Below(c.refs[i]) :: d
  }

  function Reach(roots: seq<Cell>): set<Cell> { set i: nat, d | i < |roots| && d in Below(roots[i]) :: d }

  lemma {:induction false} BelowCloses(c: Cell, d: Cell, k: nat)
    requires d in Below(c) && k < |d.refs|
    ensures d.refs[k] in Below(c)
    decreases c
  {
    if d == c {
      assert c.refs[k] in Below(c.refs[k]);
    } else {
      var i: nat :| i < |c.refs| && d in Below(c.refs[i]);
      BelowCloses(c.refs[i], d, k);
    }
  }

  lemma {:induction false} ReachCloses(roots: seq<Cell>, d: Cell, k: nat)
    requires d in Reach(roots) && k < |d.refs|
    ensures d.refs[k] in Reach(roots)
  {
    var i: nat :| i < |roots| && d in Below(roots[i]);
    BelowCloses(roots[i], d, k);
  }

  /** How many references separate a cell from the deepest cell below it. */
  function HeightOf(c: Cell): nat
    decreases c, 0
  {
    Tallest(seq(|c.refs|, i requires 0 <= i < |c.refs| => HeightOf(c.refs[i])))
  }

  function Tallest(below: seq<nat>): (r: nat)
    ensures forall i :: 0 <= i < |below| ==> below[i] < r
    ensures r > 0 ==> exists i :: 0 <= i < |below| && below[i] == r - 1
  {
    if below == [] then 0
    else
      var rest, last := Tallest(below[..|below| - 1]), below[|below| - 1] + 1;
      if last > rest then last else rest
  }

  lemma {:induction false} ChildIsLower(c: Cell, k: nat)
    requires k < |c.refs|
    ensures HeightOf(c.refs[k]) < HeightOf(c)
  {
    var below := seq(|c.refs|, i requires 0 <= i < |c.refs| => HeightOf(c.refs[i]));
    assert below[k] < Tallest(below);
  }

  /** Cells of a graph that share an identity are one cell. */
  ghost predicate Apart(sha: Sha, roots: seq<Cell>) {
    forall a, b :: a in Reach(roots) && b in Reach(roots) && ReprHash(sha, a) == ReprHash(sha, b) ==> a == b
  }

  // ---------------------------------------------------------------- the walk

  datatype Step = Visit(cell: Cell) | Emit(cell: Cell)

  ghost predicate Within(roots: seq<Cell>, stack: seq<Step>) {
    forall i :: 0 <= i < |stack| ==> stack[i].cell in Reach(roots)
  }

  ghost function Keys(sha: Sha, roots: seq<Cell>): set<Hash> { set c | c in Reach(roots) :: ReprHash(sha, c) }

  /** A cell's children as steps, the first of them on top. */
  function Children(c: Cell): (r: seq<Step>)
    ensures |r| == |c.refs| && forall i :: 0 <= i < |r| ==> r[i] == Visit(c.refs[|c.refs| - 1 - i])
  {
    seq(|c.refs|, i requires 0 <= i < |c.refs| => Visit(c.refs[|c.refs| - 1 - i]))
  }

  lemma {:induction false} ChildrenWithin(roots: seq<Cell>, rest: seq<Step>, c: Cell)
    requires Within(roots, rest) && c in Reach(roots)
    ensures Within(roots, rest + [Emit(c)] + Children(c))
  {
    forall k | 0 <= k < |c.refs| ensures c.refs[k] in Reach(roots) { ReachCloses(roots, c, k); }
  }

  /** The walk from a state on: what it emits, in the order it emits it. */
  ghost function WalkFrom(sha: Sha, roots: seq<Cell>, seen: set<Hash>, order: seq<Cell>, stack: seq<Step>): seq<Cell>
    requires Within(roots, stack)
    decreases Keys(sha, roots) - seen, |stack|
  {
    if stack == [] then order
    else
      var step, rest := stack[|stack| - 1], stack[..|stack| - 1];
      if step.Emit? then WalkFrom(sha, roots, seen, order + [step.cell], rest)
      else if ReprHash(sha, step.cell) in seen then WalkFrom(sha, roots, seen, order, rest)
      else
        ChildrenWithin(roots, rest, step.cell);
        assert ReprHash(sha, step.cell) in Keys(sha, roots);
        WalkFrom(sha, roots, seen + {ReprHash(sha, step.cell)}, order, rest + [Emit(step.cell)] + Children(step.cell))
  }

  function Pending(roots: seq<Cell>): (r: seq<Step>)
    ensures |r| == |roots| && forall i :: 0 <= i < |r| ==> r[i] == Visit(roots[|roots| - 1 - i])
  {
    seq(|roots|, i requires 0 <= i < |roots| => Visit(roots[|roots| - 1 - i]))
  }

  lemma {:induction false} PendingWithin(roots: seq<Cell>)
    ensures Within(roots, Pending(roots))
  {
    forall i | 0 <= i < |roots| ensures roots[i] in Reach(roots) { assert roots[i] in Below(roots[i]); }
  }

  function Reversed(s: seq<Cell>): (r: seq<Cell>)
    ensures |r| == |s| && forall i :: 0 <= i < |s| ==> r[i] == s[|s| - 1 - i]
  {
    seq(|s|, i requires 0 <= i < |s| => s[|s| - 1 - i])
  }

  /** The order of a bag: parents before children. */
  ghost function Order(sha: Sha, roots: seq<Cell>): seq<Cell> {
    PendingWithin(roots);
    Reversed(WalkFrom(sha, roots, {}, [], Pending(roots)))
  }

  // ---------------------------------------------------------------- what the walk keeps

  ghost predicate Marked(sha: Sha, roots: seq<Cell>, seen: set<Hash>, order: seq<Cell>, stack: seq<Step>) {
    forall c :: c in Reach(roots) ==> (ReprHash(sha, c) in seen <==> c in order || Emit(c) in stack)
  }

  /** Everything above a cell waiting to be emitted is below it in the graph. */
  ghost predicate Descends(stack: seq<Step>) {
    forall p, q :: 0 <= p < q < |stack| && stack[p].Emit? ==> HeightOf(stack[q].cell) < HeightOf(stack[p].cell)
  }

  predicate Once(order: seq<Cell>, stack: seq<Step>) {
    && (forall i, j :: 0 <= i < j < |order| ==> order[i] != order[j])
    && (forall p :: 0 <= p < |stack| && stack[p].Emit? ==> stack[p].cell !in order)
  }

  /** Every emitted cell's children were emitted before it. */
  predicate ChildrenFirst(order: seq<Cell>) {
    forall i, k :: 0 <= i < |order| && 0 <= k < |order[i].refs| ==> order[i].refs[k] in order[..i]
  }

  /** At or past position `from` of the stack, some step is about `c`. */
  ghost predicate Above(stack: seq<Step>, from: nat, c: Cell) { exists q :: from <= q < |stack| && stack[q].cell == c }

  ghost predicate Awaited(order: seq<Cell>, stack: seq<Step>) {
    forall p, k :: 0 <= p < |stack| && stack[p].Emit? && 0 <= k < |stack[p].cell.refs| ==>
      stack[p].cell.refs[k] in order || Above(stack, p + 1, stack[p].cell.refs[k])
  }

  ghost predicate RootsComing(roots: seq<Cell>, order: seq<Cell>, stack: seq<Step>) {
    forall i :: 0 <= i < |roots| ==> roots[i] in order || Above(stack, 0, roots[i])
  }

  ghost predicate Inv(sha: Sha, roots: seq<Cell>, seen: set<Hash>, order: seq<Cell>, stack: seq<Step>) {
    && Within(roots, stack) && (forall i :: 0 <= i < |order| ==> order[i] in Reach(roots))
    && Marked(sha, roots, seen, order, stack) && Descends(stack) && Once(order, stack)
    && ChildrenFirst(order) && Awaited(order, stack) && RootsComing(roots, order, stack)
  }

  lemma {:induction false} EmitsAfterChildren(order: seq<Cell>, c: Cell)
    requires ChildrenFirst(order) && forall k :: 0 <= k < |c.refs| ==> c.refs[k] in order
    ensures ChildrenFirst(order + [c])
  {
    forall i, k | 0 <= i < |order + [c]| && 0 <= k < |(order + [c])[i].refs|
      ensures (order + [c])[i].refs[k] in (order + [c])[..i]
    {
      if i < |order| {
        assert (order + [c])[..i] == order[..i];
      } else {
        assert (order + [c])[..i] == order;
      }
    }
  }

  lemma {:induction false} EmitAwaited(order: seq<Cell>, rest: seq<Step>, c: Cell)
    requires Awaited(order, rest + [Emit(c)])
    ensures Awaited(order + [c], rest) && forall k :: 0 <= k < |c.refs| ==> c.refs[k] in order
  {
    var stack := rest + [Emit(c)];
    BelowTop(rest, Emit(c));
    forall p, k | 0 <= p < |rest| && rest[p].Emit? && 0 <= k < |rest[p].cell.refs|
      ensures rest[p].cell.refs[k] in order + [c] || Above(rest, p + 1, rest[p].cell.refs[k])
    {
      assert stack[p] == rest[p];
    }
    forall k | 0 <= k < |c.refs| ensures c.refs[k] in order {
      assert stack[|rest|].cell.refs[k] == c.refs[k] && !Above(stack, |rest| + 1, c.refs[k]);
    }
  }

  lemma {:induction false} EmitOnce(order: seq<Cell>, rest: seq<Step>, c: Cell)
    requires Once(order, rest + [Emit(c)]) && Descends(rest + [Emit(c)])
    ensures Once(order + [c], rest)
  {
    hide HeightOf;
    var stack := rest + [Emit(c)];
    assert stack[|rest|] == Emit(c) && c !in order;
    forall p | 0 <= p < |rest| && rest[p].Emit? ensures rest[p].cell !in order + [c] {
      assert stack[p] == rest[p] && HeightOf(stack[|rest|].cell) < HeightOf(stack[p].cell);
    }
  }

  lemma {:induction false} EmitMarked(sha: Sha, roots: seq<Cell>, seen: set<Hash>, order: seq<Cell>, rest: seq<Step>,
      c: Cell)
    requires Marked(sha, roots, seen, order, rest + [Emit(c)])
    ensures Marked(sha, roots, seen, order + [c], rest)
  {
    hide Reach, ReprHash;
    forall d | d in Reach(roots) ensures ReprHash(sha, d) in seen <==> d in order + [c] || Emit(d) in rest {
      assert Emit(d) in rest + [Emit(c)] <==> Emit(d) in rest || d == c;
    }
  }

  lemma {:induction false} PopKeeps(roots: seq<Cell>, order: seq<Cell>, rest: seq<Step>, top: Step, out: seq<Cell>)
    requires Within(roots, rest + [top]) && Descends(rest + [top]) && RootsComing(roots, order, rest + [top])
    requires top.cell in out && forall d :: d in order ==> d in out
    ensures Within(roots, rest) && Descends(rest) && RootsComing(roots, out, rest)
  {
    hide HeightOf, Reach;
    var stack := rest + [top];
    assert forall p :: 0 <= p < |rest| ==> stack[p] == rest[p];
    BelowTop(rest, top);
  }

  /** Emitting: everything the cell waited on is out. */
  lemma {:induction false} EmitKeeps(sha: Sha, roots: seq<Cell>, seen: set<Hash>, order: seq<Cell>, rest: seq<Step>,
      c: Cell)
    requires Inv(sha, roots, seen, order, rest + [Emit(c)])
    ensures Inv(sha, roots, seen, order + [c], rest)
  {
    hide Reach, ChildrenFirst, Awaited, Once, Marked, Descends, RootsComing;
    assert (rest + [Emit(c)])[|rest|].cell == c;
    EmitAwaited(order, rest, c);
    EmitsAfterChildren(order, c);
    EmitOnce(order, rest, c);
    EmitMarked(sha, roots, seen, order, rest, c);
    PopKeeps(roots, order, rest, Emit(c), order + [c]);
  }

  /** A cell met again on top of the stack is out already: were it waiting, it would be below itself. */
  lemma {:induction false} MetIsOut(rest: seq<Step>, c: Cell)
    requires Descends(rest + [Visit(c)])
    ensures Emit(c) !in rest
  {
    var stack := rest + [Visit(c)];
    forall r | 0 <= r < |rest| ensures rest[r] != Emit(c) { assert stack[r] == rest[r] && stack[|rest|].cell == c; }
  }

  /** Passing over a cell already met: whoever waited on it has it. */
  lemma {:induction false} SkipKeeps(sha: Sha, roots: seq<Cell>, seen: set<Hash>, order: seq<Cell>, rest: seq<Step>,
      c: Cell)
    requires Inv(sha, roots, seen, order, rest + [Visit(c)]) && ReprHash(sha, c) in seen
    ensures Inv(sha, roots, seen, order, rest)
  {
    hide HeightOf, Reach, ReprHash;
    var stack := rest + [Visit(c)];
    assert stack[|rest|] == Visit(c);
    assert forall p :: 0 <= p < |rest| ==> stack[p] == rest[p];
    MetIsOut(rest, c);
    assert c in order;
    BelowTop(rest, Visit(c));
    assert Awaited(order, rest) by {
      forall p, k | 0 <= p < |rest| && rest[p].Emit? && 0 <= k < |rest[p].cell.refs|
        ensures rest[p].cell.refs[k] in order || Above(rest, p + 1, rest[p].cell.refs[k])
      {
        assert stack[p].Emit?;
      }
    }
    assert Marked(sha, roots, seen, order, rest) by {
      forall d | d in Reach(roots) ensures ReprHash(sha, d) in seen <==> d in order || Emit(d) in rest {
        assert Emit(d) in stack <==> Emit(d) in rest;
      }
    }
  }

  /** Taking the top off the stack takes away only what it was about. */
  lemma {:induction false} BelowTop(rest: seq<Step>, top: Step)
    ensures forall from: nat, d :: Above(rest + [top], from, d) ==> Above(rest, from, d) || d == top.cell
  {
    var stack := rest + [top];
    forall from: nat, d | Above(stack, from, d) ensures Above(rest, from, d) || d == top.cell {
      var q :| from <= q < |stack| && stack[q].cell == d;
      if q < |rest| { assert rest[q].cell == d; }
    }
  }

  lemma {:induction false} VisitDescends(rest: seq<Step>, c: Cell)
    requires Descends(rest + [Visit(c)])
    ensures Descends(rest + [Emit(c)] + Children(c))
  {
    hide HeightOf;
    var stack, now := rest + [Visit(c)], rest + [Emit(c)] + Children(c);
    forall p, q | 0 <= p < q < |now| && now[p].Emit? ensures HeightOf(now[q].cell) < HeightOf(now[p].cell) {
      assert p <= |rest|;
      if q > |rest| { ChildIsLower(c, |c.refs| - 1 - (q - |rest| - 1)); }
      if p < |rest| {
        assert stack[p] == now[p] && stack[|rest|] == Visit(c)
          && HeightOf(stack[|rest|].cell) < HeightOf(stack[p].cell);
        if q < |rest| { assert stack[q] == now[q]; }
      }
    }
  }

  lemma {:induction false} VisitAwaited(order: seq<Cell>, rest: seq<Step>, c: Cell)
    requires Awaited(order, rest + [Visit(c)])
    ensures Awaited(order, rest + [Emit(c)] + Children(c))
  {
    var stack, now := rest + [Visit(c)], rest + [Emit(c)] + Children(c);
    forall p, k | 0 <= p < |now| && now[p].Emit? && 0 <= k < |now[p].cell.refs|
      ensures now[p].cell.refs[k] in order || Above(now, p + 1, now[p].cell.refs[k])
    {
      if p < |rest| {
        assert stack[p] == now[p];
        StillAbove(rest, c, p + 1, now[p].cell.refs[k]);
      } else {
        assert now[|rest| + 1 + (|c.refs| - 1 - k)] == Visit(c.refs[k]);
      }
    }
  }

  lemma {:induction false} StillAbove(rest: seq<Step>, c: Cell, from: nat, d: Cell)
    ensures Above(rest + [Visit(c)], from, d) ==> Above(rest + [Emit(c)] + Children(c), from, d)
  {
    var stack, now := rest + [Visit(c)], rest + [Emit(c)] + Children(c);
    if Above(stack, from, d) {
      var q :| from <= q < |stack| && stack[q].cell == d;
      assert now[q].cell == d;
    }
  }

  /** Meeting a cell: it waits under its children, and everyone waiting on it waits on. */
  lemma {:induction false} VisitKeeps(sha: Sha, roots: seq<Cell>, seen: set<Hash>, order: seq<Cell>, rest: seq<Step>,
      c: Cell)
    requires Apart(sha, roots) && Inv(sha, roots, seen, order, rest + [Visit(c)]) && ReprHash(sha, c) !in seen
    ensures Inv(sha, roots, seen + {ReprHash(sha, c)}, order, rest + [Emit(c)] + Children(c))
  {
    hide HeightOf, Reach, ReprHash, Awaited, Descends;
    var stack, now := rest + [Visit(c)], rest + [Emit(c)] + Children(c);
    assert stack[|rest|] == Visit(c) && c in Reach(roots);
    assert forall p :: 0 <= p < |rest| ==> stack[p] == rest[p];
    assert Within(roots, rest);
    ChildrenWithin(roots, rest, c);
    VisitDescends(rest, c);
    VisitAwaited(order, rest, c);
    assert Once(order, now) by {
      assert c !in order;
      forall p | 0 <= p < |now| && now[p].Emit? ensures now[p].cell !in order {
        if p < |rest| { assert stack[p].Emit?; }
      }
    }
    assert RootsComing(roots, order, now) by {
      forall i | 0 <= i < |roots| ensures roots[i] in order || Above(now, 0, roots[i]) {
        StillAbove(rest, c, 0, roots[i]);
      }
    }
    assert Marked(sha, roots, seen + {ReprHash(sha, c)}, order, now) by {
      forall d | d in Reach(roots)
        ensures ReprHash(sha, d) in seen + {ReprHash(sha, c)} <==> d in order || Emit(d) in now
      {
        assert Emit(d) in now <==> Emit(d) in rest || d == c;
        assert Emit(d) in stack <==> Emit(d) in rest;
      }
    }
  }

  /** A run of cells that is a bag's emission order, children first. */
  ghost predicate Emitted(roots: seq<Cell>, order: seq<Cell>) {
    && (forall i, j :: 0 <= i < j < |order| ==> order[i] != order[j])
    && ChildrenFirst(order)
    && (forall c :: c in order <==> c in Reach(roots))
  }

  lemma {:induction false} ClosedCovers(order: seq<Cell>, c: Cell, d: Cell)
    requires ChildrenFirst(order) && c in order && d in Below(c)
    ensures d in order
    decreases c
  {
    if d != c {
      var i: nat :| i < |c.refs| && d in Below(c.refs[i]);
      var at :| 0 <= at < |order| && order[at] == c;
      assert order[at].refs[i] in order[..at];
      ClosedCovers(order, c.refs[i], d);
    }
  }

  lemma {:induction false} NothingLeft(sha: Sha, roots: seq<Cell>, seen: set<Hash>, order: seq<Cell>)
    requires Inv(sha, roots, seen, order, [])
    ensures Emitted(roots, order)
  {
    hide ReprHash, Below;
    forall c | c in Reach(roots) ensures c in order {
      var i: nat :| i < |roots| && c in Below(roots[i]);
      ClosedCovers(order, roots[i], c);
    }
  }

  lemma {:induction false} WalkEmits(sha: Sha, roots: seq<Cell>, seen: set<Hash>, order: seq<Cell>, stack: seq<Step>)
    requires Apart(sha, roots) && Inv(sha, roots, seen, order, stack)
    ensures Emitted(roots, WalkFrom(sha, roots, seen, order, stack))
    decreases Keys(sha, roots) - seen, |stack|
  {
    hide HeightOf, ReprHash, Reach, Keys, Marked, Descends, Once, Awaited, RootsComing, ChildrenFirst, Emitted;
    if stack == [] {
      NothingLeft(sha, roots, seen, order);
    } else {
      var step, rest := stack[|stack| - 1], stack[..|stack| - 1];
      assert stack == rest + [step];
      if step.Emit? {
        EmitKeeps(sha, roots, seen, order, rest, step.cell);
        WalkEmits(sha, roots, seen, order + [step.cell], rest);
      } else if ReprHash(sha, step.cell) in seen {
        SkipKeeps(sha, roots, seen, order, rest, step.cell);
        WalkEmits(sha, roots, seen, order, rest);
      } else {
        VisitKeeps(sha, roots, seen, order, rest, step.cell);
        KeyOfStep(sha, roots, step.cell);
        WalkEmits(sha, roots, seen + {ReprHash(sha, step.cell)}, order, rest + [Emit(step.cell)] + Children(step.cell));
      }
    }
  }

  lemma {:induction false} StartHolds(sha: Sha, roots: seq<Cell>)
    ensures Inv(sha, roots, {}, [], Pending(roots))
  {
    hide HeightOf, ReprHash, Reach;
    PendingWithin(roots);
    var stack := Pending(roots);
    forall i | 0 <= i < |roots| ensures Above(stack, 0, roots[i]) { assert stack[|roots| - 1 - i].cell == roots[i]; }
  }

  /** An order with every cell once and every reference pointing forward. */
  ghost predicate Topological(roots: seq<Cell>, order: seq<Cell>) {
    && (forall i, j :: 0 <= i < j < |order| ==> order[i] != order[j])
    && (forall c :: c in order <==> c in Reach(roots))
    && (forall i, k :: 0 <= i < |order| && 0 <= k < |order[i].refs| ==> order[i].refs[k] in order[i + 1..])
  }

  /** The order a bag is written in holds every reachable cell exactly once, each before its children. */
  lemma {:induction false} OrderIsTopological(sha: Sha, roots: seq<Cell>)
    requires Apart(sha, roots)
    ensures Topological(roots, Order(sha, roots))
  {
    hide Reach, ReprHash, WalkFrom, Apart;
    StartHolds(sha, roots);
    WalkEmits(sha, roots, {}, [], Pending(roots));
    var out := WalkFrom(sha, roots, {}, [], Pending(roots));
    ReversedIsTopological(roots, out);
  }

  lemma {:induction false} ReversedIsTopological(roots: seq<Cell>, out: seq<Cell>)
    requires Emitted(roots, out)
    ensures Topological(roots, Reversed(out))
  {
    hide Reach;
    var order, n := Reversed(out), |out|;
    forall i, j | 0 <= i < j < n ensures order[i] != order[j] { assert out[n - 1 - j] != out[n - 1 - i]; }
    forall c ensures c in order <==> c in out {
      if c in order { var i :| 0 <= i < n && order[i] == c; assert out[n - 1 - i] == c; }
      if c in out { var i :| 0 <= i < n && out[i] == c; assert order[n - 1 - i] == c; }
    }
    forall i, k | 0 <= i < n && 0 <= k < |order[i].refs| ensures order[i].refs[k] in order[i + 1..] {
      ReversedChild(out, i, k);
    }
  }

  lemma {:induction false} ReversedChild(out: seq<Cell>, i: nat, k: nat)
    requires ChildrenFirst(out) && i < |out| && k < |Reversed(out)[i].refs|
    ensures Reversed(out)[i].refs[k] in Reversed(out)[i + 1..]
  {
    var order, at := Reversed(out), |out| - 1 - i;
    assert out[at].refs[k] in out[..at];
    var j :| 0 <= j < at && out[j] == out[at].refs[k];
    assert order[i + 1..][|out| - 1 - j - (i + 1)] == order[|out| - 1 - j] == out[j];
  }

  /** With no collision among what was hashed, cells that share an identity are one cell. */
  lemma {:induction false} HashesKeepApart(sha: Sha, roots: seq<Cell>, inputs: set<seq<byte>>)
    requires Distinct(sha, inputs) && forall i :: 0 <= i < |roots| ==> Sound(roots[i]) && Fed(sha, roots[i]) <= inputs
    ensures Apart(sha, roots)
  {
    hide Distinct, Sound, ReprHash, Fed, Below;
    forall a, b | a in Reach(roots) && b in Reach(roots) && ReprHash(sha, a) == ReprHash(sha, b) ensures a == b {
      var i: nat :| i < |roots| && a in Below(roots[i]);
      var j: nat :| j < |roots| && b in Below(roots[j]);
      BelowIsSound(sha, roots[i], a);
      BelowIsSound(sha, roots[j], b);
      FewerDistinct(sha, Fed(sha, a) + Fed(sha, b), inputs);
      OwnHashIsIdentity(sha, a, b);
    }
  }

  lemma {:induction false} BelowIsSound(sha: Sha, c: Cell, d: Cell)
    requires Sound(c) && d in Below(c)
    ensures Sound(d) && Fed(sha, d) <= Fed(sha, c)
    decreases c
  {
    hide Fed, Fits, Classified, Masked;
    if d != c {
      var i: nat :| i < |c.refs| && d in Below(c.refs[i]);
      FedBelow(sha, c, i);
      BelowIsSound(sha, c.refs[i], d);
    }
  }

  // ---------------------------------------------------------------- the loop

  /** Walks the graph with a stack of its own, marking each cell as it is met. */
  method OrderCells(sha: Sha, roots: seq<Cell>) returns (order: seq<Cell>)
    ensures order == Order(sha, roots)
  {
    hide Reach, ReprHash, Keys;
    var seen: set<Hash>, out: seq<Cell>, stack := {}, [], Pending(roots);
    PendingWithin(roots);
    while stack != []
      invariant Within(roots, stack)
      invariant WalkFrom(sha, roots, {}, [], Pending(roots)) == WalkFrom(sha, roots, seen, out, stack)
      decreases Keys(sha, roots) - seen, |stack|
    {
      var step, rest := stack[|stack| - 1], stack[..|stack| - 1];
      if step.Emit? {
        out, stack := out + [step.cell], rest;
      } else if ReprHash(sha, step.cell) in seen {
        stack := rest;
      } else {
        ChildrenWithin(roots, rest, step.cell);
        KeyOfStep(sha, roots, step.cell);
        seen := seen + {ReprHash(sha, step.cell)};
        stack := rest + [Emit(step.cell)] + Children(step.cell);
      }
    }
    order := Reversed(out);
  }

  lemma {:induction false} KeyOfStep(sha: Sha, roots: seq<Cell>, c: Cell)
    requires c in Reach(roots)
    ensures ReprHash(sha, c) in Keys(sha, roots)
  {}
}

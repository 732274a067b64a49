module DictTree {
  // The dictionary with no cell and no encoding in sight: trees of edges over keys of one width,
  // what lookups, stores and removals do to them, and why equal answers mean equal trees.
  //
  // A leaf's edge is what its key has left at that point; a fork's edge is what its two sides'
  // keys have in common there. `Opaque` is a subtree a proof kept back.

  import opened Basics
  import opened Cells

  datatype Tree<+E> =
    | Leaf(edge: Bits, extra: E, value: Payload)
    | Fork(edge: Bits, left: Tree<E>, right: Tree<E>)
    | Opaque(cell: Cell)

  /** A value with the summary stored for it. */
  datatype Entry<+E> = Entry(extra: E, value: Payload)

  /** The three answers a proof can give; `Withheld` claims nothing about the key. */
  datatype Lookup<+T> = Found(value: T) | Absent | Withheld

  /** Every path of the tree spells `n` bits: each leaf's edge ends it, each fork's stops short of it. */
  predicate WellFormed<E>(t: Tree<E>, n: nat) {
    match t
    case Leaf(edge, _, _) => |edge| == n
    case Fork(edge, left, right) =>
      && |edge| < n
      && WellFormed(left, n - |edge| - 1)
      && WellFormed(right, n - |edge| - 1)
    case Opaque(cell) => cell.IsExotic()
  }

  /** No branch of the tree is withheld. */
  predicate Whole<E>(t: Tree<E>) {
    match t
    case Leaf(_, _, _) => true
    case Fork(_, left, right) => Whole(left) && Whole(right)
    case Opaque(_) => false
  }

  function Child<E>(t: Tree<E>, bit: bool): Tree<E>
    requires t.Fork?
  {
    if bit then t.right else t.left
  }

  /** A fork over `edge` with `child` on the `bit` side. */
  function Join<E>(edge: Bits, bit: bool, child: Tree<E>, sibling: Tree<E>): Tree<E> {
    if bit then Fork(edge, sibling, child) else Fork(edge, child, sibling)
  }

  /** The same node under another edge. */
  function Relabel<E>(t: Tree<E>, edge: Bits): (r: Tree<E>)
    requires !t.Opaque?
    ensures Whole(t) ==> Whole(r)
    ensures forall n: nat :: WellFormed(t, n) && |t.edge| <= n ==> WellFormed(r, n - |t.edge| + |edge|)
  {
    match t
    case Leaf(_, extra, value) => Leaf(edge, extra, value)
    case Fork(_, left, right) => Fork(edge, left, right)
  }

  function FirstGap(edge: Bits, key: Bits, from: nat): (r: Option<nat>)
    requires from <= |edge| && from <= |key|
    ensures r.Some? ==> from <= r.value < |edge| && r.value < |key| && edge[r.value] != key[r.value]
    ensures forall i :: from <= i < |edge| && i < |key| && (r.Some? ==> i < r.value) ==> edge[i] == key[i]
    decreases |edge| - from
  {
    if from == |edge| || from == |key| then None
    else if edge[from] != key[from] then Some(from)
    else FirstGap(edge, key, from + 1)
  }

  /** Where an edge and a key first differ, comparing no further than both reach. */
  function Diverges(edge: Bits, key: Bits): (r: Option<nat>)
    ensures r.Some? ==>
      r.value < |edge| && r.value < |key| && edge[r.value] != key[r.value] && edge[..r.value] == key[..r.value]
    ensures r.None? && |edge| <= |key| ==> edge == key[..|edge|]
    ensures r.None? && |key| <= |edge| ==> key == edge[..|key|]
  {
    FirstGap(edge, key, 0)
  }

  // ---------------------------------------------------------------- what a tree holds

  function Get<E>(t: Tree<E>, key: Bits): Lookup<Entry<E>>
    requires WellFormed(t, |key|)
    decreases t
  {
    match t
    case Opaque(_) => Withheld
    case Leaf(edge, extra, value) => if edge == key then Found(Entry(extra, value)) else Absent
    case Fork(edge, left, right) =>
      if edge == key[..|edge|] then Get(Child(t, key[|edge|]), key[|edge| + 1..]) else Absent
  }

  /** The key that reaches `key` below the `bit` branch of an edge. */
  function Through(edge: Bits, bit: bool, key: Bits): (r: Bits)
    ensures |r| == |edge| + 1 + |key|
    ensures r[..|edge|] == edge && r[|edge|] == bit && r[|edge| + 1..] == key
  {
    edge + [bit] + key
  }

  lemma {:induction false} ThroughIsKey(edge: Bits, key: Bits)
    requires |edge| < |key| && edge == key[..|edge|]
    ensures Through(edge, key[|edge|], key[|edge| + 1..]) == key
  {}

  lemma {:induction false} GetThrough<E>(t: Tree<E>, bit: bool, key: Bits)
    requires t.Fork? && WellFormed(t, |t.edge| + 1 + |key|)
    ensures Get(t, Through(t.edge, bit, key)) == Get(Child(t, bit), key)
  {}

  // ---------------------------------------------------------------- storing a key

  /** A fork over the shared front of edge and key, with `t` and a new leaf under their remainders. */
  function Split<E>(t: Tree<E>, at: nat, key: Bits, extra: E, value: Payload): Tree<E>
    requires !t.Opaque? && at < |t.edge| && at < |key|
  {
    Join(t.edge[..at], t.edge[at], Relabel(t, t.edge[at + 1..]), Leaf(key[at + 1..], extra, value))
  }

  function Insert<E>(t: Tree<E>, key: Bits, extra: E, value: Payload): (r: Result<Tree<E>>)
    requires WellFormed(t, |key|)
    ensures r.Ok? ==> WellFormed(r.value, |key|)
    decreases t
  {
    if t.Opaque? then Err(Pruned)
    else match Diverges(t.edge, key)
    case Some(at) => Ok(Split(t, at, key, extra, value))
    case None =>
      if t.Leaf? then Ok(Leaf(key, extra, value))
      else
        var bit := key[|t.edge|];
        var child :- Insert(Child(t, bit), key[|t.edge| + 1..], extra, value);
        Ok(Join(t.edge, bit, child, Child(t, !bit)))
  }

  /** A store fails on a tree exactly where a lookup of the same key would learn nothing. */
  lemma {:induction false} InsertReaches<E>(t: Tree<E>, key: Bits, extra: E, value: Payload)
    requires WellFormed(t, |key|)
    ensures Insert(t, key, extra, value).Ok? <==> Get(t, key) != Withheld
    ensures Whole(t) ==> Insert(t, key, extra, value).Ok? && Whole(Insert(t, key, extra, value).value)
    decreases t
  {
    if t.Fork? && Diverges(t.edge, key).None? {
      InsertReaches(Child(t, key[|t.edge|]), key[|t.edge| + 1..], extra, value);
    }
  }

  lemma {:induction false} Cancel(p: Bits, a: Bits, b: Bits)
    ensures p + a == p + b <==> a == b
  {
    assert (p + a)[|p|..] == a && (p + b)[|p|..] == b;
  }

  lemma {:induction false} Slices(p: Bits, k: Bits, m: nat)
    requires m < |k|
    ensures (p + k)[..|p| + m] == p + k[..m]
    ensures (p + k)[|p| + m] == k[m] && (p + k)[|p| + m + 1..] == k[m + 1..]
  {}

  /** Spending the front of an edge and the same bits of a key changes no answer. */
  lemma {:induction false} RelabelGet<E>(t: Tree<E>, p: Bits, k: Bits)
    requires !t.Opaque? && p <= t.edge && WellFormed(t, |p| + |k|)
    ensures WellFormed(Relabel(t, t.edge[|p|..]), |k|)
    ensures Get(Relabel(t, t.edge[|p|..]), k) == Get(t, p + k)
  {
    var short := t.edge[|p|..];
    assert t.edge == p + short;
    if t.Fork? {
      Slices(p, k, |short|);
      Cancel(p, short, k[..|short|]);
    } else {
      Cancel(p, short, k);
    }
  }

  /** A key that differs from the edge has no entry. */
  lemma {:induction false} OffEdge<E>(t: Tree<E>, p: Bits, k: Bits)
    requires !t.Opaque? && p <= t.edge && WellFormed(t, |k|) && p != k[..|p|]
    ensures Get(t, k) == Absent
  {
    assert t.edge[..|p|] == p;
    if t.Fork? { assert k[..|t.edge|][..|p|] == k[..|p|]; }
  }

  lemma {:induction false} JoinGet<E>(edge: Bits, bit: bool, child: Tree<E>, sibling: Tree<E>, k: Bits)
    requires |edge| < |k|
    requires WellFormed(child, |k| - |edge| - 1) && WellFormed(sibling, |k| - |edge| - 1)
    ensures WellFormed(Join(edge, bit, child, sibling), |k|)
    ensures Get(Join(edge, bit, child, sibling), k) ==
      if edge != k[..|edge|] then Absent
      else Get(if k[|edge|] == bit then child else sibling, k[|edge| + 1..])
  {}

  lemma {:induction false} SplitKept<E>(t: Tree<E>, at: nat, key: Bits, extra: E, value: Payload, k: Bits)
    requires !t.Opaque? && at < |t.edge| && |k| == |key| && WellFormed(t, |key|)
    requires k[..at + 1] == t.edge[..at + 1]
    ensures WellFormed(Split(t, at, key, extra, value), |k|)
    ensures Get(Split(t, at, key, extra, value), k) == Get(t, k)
  {
    var p, head := t.edge[..at + 1], t.edge[..at];
    var kept, leaf := Relabel(t, t.edge[at + 1..]), Leaf(key[at + 1..], extra, value);
    assert k == p + k[at + 1..];
    RelabelGet(t, p, k[at + 1..]);
    JoinGet(head, t.edge[at], kept, leaf, k);
    assert k[..at] == p[..at] == head && k[at] == p[at] == t.edge[at];
  }

  lemma {:induction false} FreshGet<E>(head: Bits, bit: bool, kept: Tree<E>, key: Bits, extra: E, value: Payload,
      k: Bits)
    requires |head| < |key| == |k| && head == key[..|head|] && key[|head|] != bit
    requires WellFormed(kept, |k| - |head| - 1)
    requires !(head == k[..|head|] && k[|head|] == bit)
    ensures var joined := Join(head, bit, kept, Leaf(key[|head| + 1..], extra, value));
      && WellFormed(joined, |k|)
      && Get(joined, k) == if k == key then Found(Entry(extra, value)) else Absent
  {
    JoinGet(head, bit, kept, Leaf(key[|head| + 1..], extra, value), k);
    if head == k[..|head|] {
      ThroughIsKey(head, k);
      ThroughIsKey(head, key);
    }
  }

  lemma {:induction false} SplitGet<E>(t: Tree<E>, at: nat, key: Bits, extra: E, value: Payload, k: Bits)
    requires !t.Opaque? && at < |t.edge| && |k| == |key| && WellFormed(t, |key|)
    requires t.edge[..at] == key[..at] && t.edge[at] != key[at]
    ensures WellFormed(Split(t, at, key, extra, value), |k|)
    ensures Get(Split(t, at, key, extra, value), k) == if k == key then Found(Entry(extra, value)) else Get(t, k)
  {
    hide FirstGap;
    if k[..at + 1] == t.edge[..at + 1] {
      SplitKept(t, at, key, extra, value, k);
      assert k[..at + 1][at] == t.edge[at];
    } else {
      var p := t.edge[..at + 1];
      RelabelGet(t, p, k[at + 1..]);
      assert k[..at + 1] == k[..at] + [k[at]] && p == t.edge[..at] + [t.edge[at]];
      FreshGet(t.edge[..at], t.edge[at], Relabel(t, t.edge[at + 1..]), key, extra, value, k);
      OffEdge(t, p, k);
    }
  }

  /** A store changes what the tree answers for its own key and for no other. */
  lemma {:induction false} InsertGet<E>(t: Tree<E>, key: Bits, extra: E, value: Payload, k: Bits)
    requires WellFormed(t, |key|) && |k| == |key| && Insert(t, key, extra, value).Ok?
    ensures Get(Insert(t, key, extra, value).value, k) == if k == key then Found(Entry(extra, value)) else Get(t, k)
    decreases t
  {
    match Diverges(t.edge, key)
    case Some(at) => SplitGet(t, at, key, extra, value, k);
    case None =>
      if t.Fork? {
        var edge, bit := t.edge, key[|t.edge|];
        ThroughIsKey(edge, key);
        if edge == k[..|edge|] {
          ThroughIsKey(edge, k);
          if k[|edge|] == bit {
            InsertGet(Child(t, bit), key[|edge| + 1..], extra, value, k[|edge| + 1..]);
          }
        }
      }
  }

  // ---------------------------------------------------------------- dropping a key

  datatype Removal<+E> = Missing | Emptied | Remains(tree: Tree<E>)

  /** A fork with one subtree left, as one node: outer edge, side, inner edge. */
  function Merge<E>(edge: Bits, bit: bool, survivor: Tree<E>): (r: Tree<E>)
    requires !survivor.Opaque?
    ensures Whole(survivor) ==> Whole(r)
    ensures forall n: nat :: WellFormed(survivor, n) ==> WellFormed(r, |edge| + 1 + n)
  {
    Relabel(survivor, Through(edge, bit, survivor.edge))
  }

  function Delete<E>(t: Tree<E>, key: Bits): (r: Result<Removal<E>>)
    requires WellFormed(t, |key|)
    ensures r.Ok? && r.value.Remains? ==> WellFormed(r.value.tree, |key|)
    decreases t
  {
    if t.Opaque? then Err(Pruned)
    else if Diverges(t.edge, key).Some? then Ok(Missing)
    else if t.Leaf? then Ok(Emptied)
    else
      var bit := key[|t.edge|];
      var sibling := Child(t, !bit);
      var below :- Delete(Child(t, bit), key[|t.edge| + 1..]);
      assert WellFormed(sibling, |key| - |t.edge| - 1);
      match below
      case Missing => Ok(Missing)
      case Emptied => if sibling.Opaque? then Err(Pruned) else Ok(Remains(Merge(t.edge, !bit, sibling)))
      case Remains(child) => Ok(Remains(Join(t.edge, bit, child, sibling)))
  }

  lemma {:induction false} MergeGet<E>(edge: Bits, bit: bool, survivor: Tree<E>, k: Bits)
    requires !survivor.Opaque? && |edge| < |k| && WellFormed(survivor, |k| - |edge| - 1)
    ensures WellFormed(Merge(edge, bit, survivor), |k|)
    ensures Get(Merge(edge, bit, survivor), k) ==
      if edge == k[..|edge|] && k[|edge|] == bit then Get(survivor, k[|edge| + 1..]) else Absent
  {
    var p, merged := edge + [bit], Merge(edge, bit, survivor);
    assert merged.edge == p + survivor.edge;
    assert k[..|p|] == k[..|edge|] + [k[|edge|]];
    if p == k[..|p|] {
      assert k == p + k[|p|..];
      RelabelGet(merged, p, k[|p|..]);
      assert Relabel(merged, merged.edge[|p|..]) == survivor;
      assert k[..|edge|] == p[..|edge|] == edge && k[|edge|] == p[|edge|];
    } else {
      OffEdge(merged, p, k);
    }
  }

  lemma {:induction false} DeleteMissing<E>(t: Tree<E>, key: Bits)
    requires WellFormed(t, |key|)
    ensures Delete(t, key) == Ok(Missing) <==> Get(t, key) == Absent
    ensures Get(t, key) == Withheld ==> Delete(t, key).Err?
    ensures Whole(t) ==> Delete(t, key).Ok?
    ensures Whole(t) && Delete(t, key).value.Remains? ==> Whole(Delete(t, key).value.tree)
    decreases t
  {
    if t.Fork? && Diverges(t.edge, key).None? {
      var bit := key[|t.edge|];
      DeleteMissing(Child(t, bit), key[|t.edge| + 1..]);
      assert Whole(t) ==> Whole(Child(t, bit)) && Whole(Child(t, !bit));
    }
  }

  /** Where a removal empties the tree, the key was the only one it held. */
  lemma {:induction false} DeleteEmptied<E>(t: Tree<E>, key: Bits, k: Bits)
    requires WellFormed(t, |key|) && |k| == |key| && Delete(t, key) == Ok(Emptied)
    ensures t.Leaf? && t.edge == key
    ensures Get(t, k) == if k == key then Found(Entry(t.extra, t.value)) else Absent
  {}

  /** A removal changes what the tree answers for its own key and for no other. */
  lemma {:induction false} DeleteGet<E>(t: Tree<E>, key: Bits, k: Bits)
    requires WellFormed(t, |key|) && |k| == |key|
    requires Delete(t, key).Ok? && Delete(t, key).value.Remains?
    ensures Get(Delete(t, key).value.tree, k) == if k == key then Absent else Get(t, k)
    decreases t
  {
    var edge, bit := t.edge, key[|t.edge|];
    ThroughIsKey(edge, key);
    var below := Delete(Child(t, bit), key[|edge| + 1..]).value;
    if edge == k[..|edge|] { ThroughIsKey(edge, k); }
    if below.Emptied? {
      MergeGet(edge, !bit, Child(t, !bit), k);
      if edge == k[..|edge|] && k[|edge|] == bit {
        DeleteEmptied(Child(t, bit), key[|edge| + 1..], k[|edge| + 1..]);
      }
    } else if edge == k[..|edge|] && k[|edge|] == bit {
      DeleteGet(Child(t, bit), key[|edge| + 1..], k[|edge| + 1..]);
    }
  }

  // ---------------------------------------------------------------- one tree per key set

  /** A key the tree holds: the leftmost. */
  function SomeKey<E>(t: Tree<E>): (key: Bits)
    requires Whole(t)
  {
    match t
    case Leaf(edge, _, _) => edge
    case Fork(edge, left, _) => Through(edge, false, SomeKey(left))
  }

  lemma {:induction false} SomeKeyFound<E>(t: Tree<E>, n: nat)
    requires WellFormed(t, n) && Whole(t)
    ensures |SomeKey(t)| == n && Get(t, SomeKey(t)).Found? && t.edge <= SomeKey(t)
    decreases t
  {
    if t.Fork? { SomeKeyFound(t.left, n - |t.edge| - 1); }
  }

  lemma {:induction false} FoundKeepsEdge<E>(t: Tree<E>, key: Bits)
    requires WellFormed(t, |key|) && Get(t, key).Found?
    ensures t.edge <= key
  {}

  ghost predicate SameAnswers<E>(a: Tree<E>, b: Tree<E>, n: nat)
    requires WellFormed(a, n) && WellFormed(b, n)
  {
    forall k: Bits :: |k| == n ==> Get(a, k) == Get(b, k)
  }

  /** An edge is the longest run its keys share, so the other tree's edge is no longer. */
  lemma {:induction false} EdgeNoLonger<E>(a: Tree<E>, b: Tree<E>, n: nat)
    requires WellFormed(a, n) && WellFormed(b, n) && Whole(a) && Whole(b) && SameAnswers(a, b, n)
    ensures |b.edge| <= |a.edge| && b.edge <= SomeKey(a)
  {
    SomeKeyFound(a, n);
    FoundKeepsEdge(b, SomeKey(a));
    if |a.edge| < |b.edge| {
      var below := n - |a.edge| - 1;
      SomeKeyFound(a.left, below);
      SomeKeyFound(a.right, below);
      var zero, one := Through(a.edge, false, SomeKey(a.left)), Through(a.edge, true, SomeKey(a.right));
      GetThrough(a, false, SomeKey(a.left));
      GetThrough(a, true, SomeKey(a.right));
      FoundKeepsEdge(b, zero);
      FoundKeepsEdge(b, one);
      assert false;
    }
  }

  lemma {:induction false} SameEdge<E>(a: Tree<E>, b: Tree<E>, n: nat)
    requires WellFormed(a, n) && WellFormed(b, n) && Whole(a) && Whole(b) && SameAnswers(a, b, n)
    ensures a.edge == b.edge
  {
    EdgeNoLonger(a, b, n);
    EdgeNoLonger(b, a, n);
    SomeKeyFound(a, n);
    assert a.edge == SomeKey(a)[..|a.edge|] == b.edge;
  }

  lemma {:induction false} SameChildren<E>(a: Tree<E>, b: Tree<E>, n: nat, bit: bool)
    requires a.Fork? && b.Fork? && a.edge == b.edge
    requires WellFormed(a, n) && WellFormed(b, n) && SameAnswers(a, b, n)
    ensures SameAnswers(Child(a, bit), Child(b, bit), n - |a.edge| - 1)
  {
    forall k: Bits | |k| == n - |a.edge| - 1
      ensures Get(Child(a, bit), k) == Get(Child(b, bit), k)
    {
      GetThrough(a, bit, k);
      GetThrough(b, bit, k);
    }
  }

  /** Canonicity: two whole trees that answer every key alike are the same tree. */
  lemma {:induction false} Canonical<E>(a: Tree<E>, b: Tree<E>, n: nat)
    requires WellFormed(a, n) && WellFormed(b, n) && Whole(a) && Whole(b) && SameAnswers(a, b, n)
    ensures a == b
    decreases a
  {
    SameEdge(a, b, n);
    if a.Leaf? {
      assert Get(a, a.edge) == Get(b, a.edge);
    } else {
      SameChildren(a, b, n, false);
      SameChildren(a, b, n, true);
      Canonical(a.left, b.left, n - |a.edge| - 1);
      Canonical(a.right, b.right, n - |a.edge| - 1);
    }
  }
}

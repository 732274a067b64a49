module DictBuild {
  // The bulk build and the re-rooting over cells.

  import opened Basics
  import opened Cells
  import opened DictTree
  import opened DictMap
  import opened DictBulk
  import opened DictCells
  import opened DictWrites
  import opened DictRefines
  import opened Dicts
  import opened DictHistories
  import Labels

  // ---------------------------------------------------------------- laying out a sorted run

  lemma {:induction false} ForkEncoded<E>(sh: Shape<E>, t: Tree<E>, n: nat)
    requires t.Fork? && WellFormed(t, n)
    ensures Encode(sh, t, n) ==
      match Encode(sh, t.left, n - |t.edge| - 1)
      case Err(e) => Err(e)
      case Ok(l) =>
        match Encode(sh, t.right, n - |t.edge| - 1)
        case Err(e) => Err(e)
        case Ok(r) => ForkCell(sh, t.edge, n, l, r)
  {
    hide ForkCell;
  }

  /** Computes the encoding of `Layout`, subtree by subtree, without laying out the tree. */
  method BuildRun<E>(sh: Shape<E>, items: seq<Item<E>>, depth: nat, remaining: nat) returns (r: Result<Cell>)
    requires items != [] ==> Run(items, depth, remaining)
    ensures items == [] ==> r == Err(Malformed)
    ensures items != [] ==> r == Encode(sh, Layout(items, depth, remaining), remaining)
    decreases remaining
  {
    hide Encode, Layout, LeafCell, ForkCell, Sorted, Zeros;
    if items == [] { return Err(Malformed); }
    var first, last := items[0], items[|items| - 1];
    var shared: nat := 0;
    while shared < remaining && first.0[depth + shared] == last.0[depth + shared]
      invariant shared <= remaining
      invariant FirstGap(first.0, last.0, depth) == FirstGap(first.0, last.0, depth + shared)
    {
      shared := shared + 1;
    }
    if shared == remaining {
      LayoutOfOne(sh, items, depth, remaining);
      r := LeafCell(sh, last.0[depth..], last.1, remaining);
      return;
    }
    var at := depth + shared;
    LayoutFork(items, depth, remaining, at);
    ForkEncoded(sh, Layout(items, depth, remaining), remaining);
    var z, below := Zeros(items, at), remaining - shared - 1;
    var left := BuildRun(sh, items[..z], at + 1, below);
    if left.Err? { return left; }
    var right := BuildRun(sh, items[z..], at + 1, below);
    if right.Err? { return right; }
    r := ForkCell(sh, first.0[depth..at], remaining, left.value, right.value);
  }

  lemma {:induction false} LayoutOfOne<E>(sh: Shape<E>, items: seq<Item<E>>, depth: nat, remaining: nat)
    requires Run(items, depth, remaining) && FirstGap(items[0].0, items[|items| - 1].0, depth).None?
    ensures Encode(sh, Layout(items, depth, remaining), remaining) ==
            LeafCell(sh, items[|items| - 1].0[depth..], items[|items| - 1].1, remaining)
  {
    hide LeafCell, Sorted;
    var last := items[|items| - 1];
    LeafEncoded(sh, Leaf(last.0[depth..], last.1.extra, last.1.value), remaining);
  }

  /** One item before its key is read as bits. */
  type Given<E> = (seq<byte>, E, Payload)

  /** The items as bit keys, or the failure of the first key too short. */
  function Keyed<E>(given: seq<Given<E>>, n: nat): (r: Result<seq<Item<E>>>)
    ensures r.Ok? ==> |r.value| == |given| && OfWidth(r.value, n)
  {
    if given == [] then Ok([])
    else
      var last := given[|given| - 1];
      var init :- Keyed(given[..|given| - 1], n);
      var key :- KeyOf(last.0, n);
      Ok(init + [(key, Entry(last.1, last.2))])
  }

  /** The root a bulk build of bit-keyed items leaves. */
  function BulkRoot<E>(sh: Shape<E>, items: seq<Item<E>>, n: nat): Result<Option<Cell>>
    requires OfWidth(items, n)
  {
    if items == [] then Ok(None)
    else
      LayoutModels(items, n);
      var cell :- Encode(sh, Layout(StableSort(items), 0, n), n);
      Ok(Some(cell))
  }

  method BuildAll<E>(sh: Shape<E>, n: nat, given: seq<Given<E>>) returns (r: Result<Option<Cell>>)
    ensures n > MAX_BITS ==> r == Err(Malformed)
    ensures n <= MAX_BITS && Keyed(given, n).Err? ==> r == Err(KeyLength)
    ensures n <= MAX_BITS && Keyed(given, n).Ok? ==> r == BulkRoot(sh, Keyed(given, n).value, n)
  {
    hide Encode, Layout, StableSort, Run;
    if n > MAX_BITS { return Err(Malformed); }
    var items: seq<Item<E>> := [];
    for i := 0 to |given|
      invariant Keyed(given[..i], n) == Ok(items)
    {
      assert given[..i + 1][..i] == given[..i];
      var key := KeyOf(given[i].0, n);
      if key.Err? {
        KeyedErr(given, i + 1, n);
        return Err(key.error);
      }
      items := items + [(key.value, Entry(given[i].1, given[i].2))];
    }
    assert given[..|given|] == given;
    if items == [] { return Ok(None); }
    LayoutModels(items, n);
    var cell := BuildRun(sh, StableSort(items), 0, n);
    if cell.Err? { return Err(cell.error); }
    return Ok(Some(cell.value));
  }

  lemma {:induction false} KeyedErr<E>(given: seq<Given<E>>, upto: nat, n: nat)
    requires upto <= |given| && Keyed(given[..upto], n).Err?
    ensures Keyed(given, n).Err?
    decreases |given| - upto
  {
    if upto < |given| {
      assert given[..upto + 1][..upto] == given[..upto];
      KeyedErr(given, upto + 1, n);
    } else {
      assert given[..upto] == given;
    }
  }

  // ---------------------------------------------------------------- the bulk build is canonical

  /** A bulk build that succeeds leaves the canonical root of the map its items give. */
  lemma {:induction false} BulkHolds<E(!new)>(sh: Shape<E>, items: seq<Item<E>>, n: nat)
    requires OfWidth(items, n) && BulkRoot(sh, items, n).Ok?
    ensures Holds(sh, BulkRoot(sh, items, n).value, MapOf(items), n)
  {
    hide Encode, Layout, StableSort, Run;
    if items == [] {
      EmptyHolds(sh, n);
    } else {
      LayoutModels(items, n);
      var t := Some(Layout(StableSort(items), 0, n));
      assert Models(t, MapOf(items), n) && EncodeRoot(sh, t, n) == BulkRoot(sh, items, n);
    }
  }

  /** A bulk build is refused exactly when the map has no canonical cell. */
  lemma {:induction false} BulkSucceeds<E(!new)>(sh: Shape<E>, items: seq<Item<E>>, n: nat)
    requires OfWidth(items, n)
    ensures BulkRoot(sh, items, n).Ok? <==> Storable(sh, MapOf(items), n)
  {
    hide Encode, Layout, StableSort, Run, Storable;
    if items == [] {
      var none: Option<Tree<E>> := None;
      StorableEncodes(sh, none, MapOf(items), n);
    } else {
      LayoutModels(items, n);
      StorableEncodes(sh, Some(Layout(StableSort(items), 0, n)), MapOf(items), n);
    }
  }

  // ---------------------------------------------------------------- what only a bulk build holds

  /** The lengths of the labels a two-bit key meets: alone, over two keys, and under a fork. */
  lemma {:induction false} TwoBitLabels(a: bool, b: bool)
    ensures |WriteEdge(PLAIN, [a, b], 2)| >= 5 && |WriteEdge(PLAIN, [a], 2)| <= 6 && |WriteEdge(PLAIN, [], 0)| == 2
  {
    assert BitLength(2) == 2 && BitLength(0) == 0;
  }

  function Wide(): Payload { Payload(Repeat(false, 1020), []) }

  function WideItem(b: bool): Item<()> { ([true, b], Entry((), Wide())) }

  lemma {:induction false} WideAloneFails(b: bool)
    ensures LeafCell(PLAIN, [true, b], Entry((), Wide()), 2).Err?
  {
    hide WriteEdge;
    TwoBitLabels(true, b);
  }

  lemma {:induction false} WideUnderFork()
    ensures var leaf := Leaf([], (), Wide());
      var tree := Fork([true], leaf, leaf);
      WellFormed(tree, 2) && Encode(PLAIN, tree, 2).Ok?
  {
    hide WriteEdge;
    TwoBitLabels(true, true);
    var leaf := Leaf([], (), Wide());
    assert Encode(PLAIN, leaf, 0).Ok?;
  }

  lemma {:induction false} WideTreeModels()
    ensures var leaf := Leaf([], (), Wide());
      Models(Some(Fork([true], leaf, leaf)), MapOf([WideItem(false), WideItem(true)]), 2)
  {
    var leaf := Leaf([], (), Wide());
    var t := Fork([true], leaf, leaf);
    var m := MapOf([WideItem(false), WideItem(true)]);
    WideMap();
    forall k: Bits | |k| == 2 ensures Get(t, k) == if k in m then Found(m[k]) else Absent {
      assert k == [k[0], k[1]];
      assert k[..1] == [k[0]] && k[1..] == [k[1]] && k[2..] == [];
    }
  }

  lemma {:induction false} WideMap()
    ensures MapOf([WideItem(false), WideItem(true)])
      == map[[true, false] := Entry((), Wide()), [true, true] := Entry((), Wide())]
  {
    var a, b := WideItem(false), WideItem(true);
    assert [a, b][..1] == [a] && [a][..0] == [];
    assert MapOf([a]) == map[[true, false] := Entry((), Wide())];
  }

  /**
    Two values whose own labels would not fit beside them, over keys that share a bit: together
    they have a cell, and a bulk build makes it; alone neither has, so no store can begin.
   */
  lemma {:induction false} BulkHoldsMore()
    ensures var items := [WideItem(false), WideItem(true)];
      && BulkRoot(PLAIN, items, 2).Ok?
      && (forall b: bool :: StoreAt(PLAIN, None, [true, b], Entry((), Wide())).Err?)
  {
    hide Encode, Storable, Models;
    WideUnderFork();
    WideTreeModels();
    var leaf := Leaf([], (), Wide());
    var items := [WideItem(false), WideItem(true)];
    StorableEncodes(PLAIN, Some(Fork([true], leaf, leaf)), MapOf(items), 2);
    BulkSucceeds(PLAIN, items, 2);
    forall b: bool ensures StoreAt(PLAIN, None, [true, b], Entry((), Wide())).Err? { WideAloneFails(b); }
  }

  /** Wherever writes one at a time build a map at all, the bulk build builds the same cell. */
  lemma {:induction false} BulkMatchesWrites<E(!new)>(sh: Shape<E>, items: seq<Item<E>>, writes: seq<Write<E>>, n: nat)
    requires Lawful(sh) && ForksBare(sh) && OfWidth(items, n) && OverWidth(writes, n)
    requires Outcome(sh, writes).Ok? && Meaning(writes) == MapOf(items)
    ensures BulkRoot(sh, items, n) == Outcome(sh, writes)
  {
    hide Encode, Layout, StableSort, Run, Outcome, Meaning;
    OutcomeHolds(sh, writes, n);
    var m := MapOf(items);
    var t :| Models(t, m, n) && EncodeRoot(sh, t, n) == Ok(Outcome(sh, writes).value);
    if items == [] {
      var none: Option<Tree<E>> := None;
      OneTreePerMap(t, none, m, n);
    } else {
      LayoutModels(items, n);
      OneTreePerMap(t, Some(Layout(StableSort(items), 0, n)), m, n);
    }
  }

  // ---------------------------------------------------------------- re-rooting

  function RerootFrom<E>(sh: Shape<E>, node: Cell, n: nat, want: Bits): Result<Option<Cell>>
    decreases |want|
  {
    if node.IsExotic() then Err(Pruned)
    else if want == [] then Ok(Some(node))
    else
      var (edge, body) :- ReadEdge(sh, node.bits, n);
      if Diverges(edge, want).Some? then Ok(None)
      else if |want| <= |edge| then
        var cell :- RelabelCell(sh, edge[|want|..], n - |want|, body, node.refs);
        Ok(Some(cell))
      else if |edge| == n then Ok(None)
      else if Bit(want[|edge|]) >= |node.refs| then Err(Malformed)
      else RerootFrom(sh, node.refs[Bit(want[|edge|])], n - |edge| - 1, want[|edge| + 1..])
  }

  /** Computes `RerootFrom` by iteration, for cells that need not encode any tree. */
  method RerootAt<E>(sh: Shape<E>, root: Cell, n: nat, want: Bits) returns (r: Result<Option<Cell>>)
    ensures r == RerootFrom(sh, root, n, want)
  {
    hide FirstGap, ReadEdge, RelabelCell;
    var node := root;
    var remaining: nat, matched: nat := n, 0;
    while true
      invariant matched <= |want|
      invariant RerootFrom(sh, root, n, want) == RerootFrom(sh, node, remaining, want[matched..])
      decreases |want| - matched
    {
      if node.IsExotic() { return Err(Pruned); }
      var ahead := want[matched..];
      if ahead == [] { return Ok(Some(node)); }
      var read := ReadEdge(sh, node.bits, remaining);
      if read.Err? { return Err(read.error); }
      var (edge, body) := read.value;
      if Diverges(edge, ahead).Some? { return Ok(None); }
      if |ahead| <= |edge| {
        var cell := RelabelCell(sh, edge[|ahead|..], remaining - |ahead|, body, node.refs);
        if cell.Err? { return Err(cell.error); }
        return Ok(Some(cell.value));
      }
      if |edge| == remaining { return Ok(None); }
      var bit := ahead[|edge|];
      if Bit(bit) >= |node.refs| { return Err(Malformed); }
      node := node.refs[Bit(bit)];
      assert ahead[|edge| + 1..] == want[matched + |edge| + 1..];
      matched, remaining := matched + |edge| + 1, remaining - |edge| - 1;
    }
  }

  lemma {:induction false} RerootStep<E>(sh: Shape<E>, node: Cell, n: nat, want: Bits, edge: Bits, body: Bits)
    requires !node.IsExotic() && want != [] && ReadEdge(sh, node.bits, n) == Ok((edge, body))
    requires |edge| < n && |node.refs| >= 2
    ensures RerootFrom(sh, node, n, want) ==
      if Diverges(edge, want).Some? then Ok(None)
      else if |want| <= |edge| then
        (match RelabelCell(sh, edge[|want|..], n - |want|, body, node.refs) case Err(e) => Err(e)
          case Ok(c) => Ok(Some(c)))
      else RerootFrom(sh, node.refs[Bit(want[|edge|])], n - |edge| - 1, want[|edge| + 1..])
  {
    hide FirstGap, ReadEdge, RelabelCell;
  }

  /** Re-rooting cells is re-rooting the tree they encode. */
  ghost predicate RerootEncodes<E>(sh: Shape<E>, t: Tree<E>, n: nat, want: Bits)
    requires WellFormed(t, n) && |want| <= n && Encode(sh, t, n).Ok?
  {
    var r := RerootFrom(sh, Encode(sh, t, n).value, n, want);
    match Reroot(t, want, n)
    case Err(e) => r == Err(e)
    case Ok(None) => r == Ok(None)
    case Ok(Some(sub)) =>
      match Encode(sh, sub, n - |want|)
      case Ok(cell) => r == Ok(Some(cell))
      case Err(_) => r.Err?
  }

  lemma {:induction false} RerootLeaf<E>(sh: Shape<E>, node: Cell, n: nat, want: Bits, edge: Bits, body: Bits)
    requires !node.IsExotic() && |want| <= n == |edge| && want != [] && ReadEdge(sh, node.bits, n) == Ok((edge, body))
    ensures RerootFrom(sh, node, n, want) ==
      if Diverges(edge, want).Some? then Ok(None)
      else (match RelabelCell(sh, edge[|want|..], n - |want|, body, node.refs) case Err(e) => Err(e)
        case Ok(c) => Ok(Some(c)))
  {
    hide FirstGap, ReadEdge, RelabelCell;
  }

  lemma {:induction false} RerootEnds<E(!new)>(sh: Shape<E>, t: Tree<E>, n: nat, want: Bits)
    requires Exact(sh.labels) && ForksBare(sh) && WellFormed(t, n) && |want| <= n && Encode(sh, t, n).Ok?
    requires !t.Opaque? && want != [] && (Diverges(t.edge, want).Some? || |want| <= |t.edge|)
    ensures RerootEncodes(sh, t, n, want)
  {
    hide Encode, ReadEdge, RelabelCell, RerootFrom, FirstGap, Body, ForksBare;
    var c := Encode(sh, t, n).value;
    EncodedReads(sh, t, n);
    if t.Fork? {
      EncodedForkRefs(sh, t, n);
      RerootStep(sh, c, n, want, t.edge, Body(sh, t, n));
    } else {
      RerootLeaf(sh, c, n, want, t.edge, Body(sh, t, n));
    }
    if Diverges(t.edge, want).None? { RelabelEncoded(sh, t, n, t.edge[|want|..], n - |want|); }
  }

  lemma {:induction false} RerootRefines<E(!new)>(sh: Shape<E>, t: Tree<E>, n: nat, want: Bits)
    requires Exact(sh.labels) && ForksBare(sh) && WellFormed(t, n) && |want| <= n && Encode(sh, t, n).Ok?
    ensures RerootEncodes(sh, t, n, want)
    decreases t
  {
    hide Encode, ReadEdge, RelabelCell, RerootFrom, FirstGap, Body, ForkExtra, WriteExtra, ForksBare;
    var c := Encode(sh, t, n).value;
    if t.Opaque? || want == [] {
      RerootAtEdge(sh, c, n, want);
    } else if Diverges(t.edge, want).Some? || |want| <= |t.edge| {
      RerootEnds(sh, t, n, want);
    } else {
      EncodedReads(sh, t, n);
      EncodedForkRefs(sh, t, n);
      RerootStep(sh, c, n, want, t.edge, Body(sh, t, n));
      RerootRefines(sh, Child(t, want[|t.edge|]), n - |t.edge| - 1, want[|t.edge| + 1..]);
    }
  }

  lemma {:induction false} RerootAtEdge<E>(sh: Shape<E>, node: Cell, n: nat, want: Bits)
    requires |want| <= n && (node.IsExotic() || want == [])
    ensures RerootFrom(sh, node, n, want) == if node.IsExotic() then Err(Pruned) else Ok(Some(node))
  {}

  /** Cutting the front off a label under a no wider key never lengthens what is written. */
  ghost predicate Shrinking(labels: Codec) {
    forall run: Bits, cut: nat, max: nat, narrower: nat {:trigger labels.write(run[cut..], narrower),
      labels.write(run, max)} ::
      cut <= |run| <= max && narrower <= max ==> |labels.write(run[cut..], narrower)| <= |labels.write(run, max)|
  }

  lemma {:induction false} TonLabelsShrink()
    ensures Shrinking(TON_LABELS)
  {
    forall run: Bits, cut: nat, max: nat, narrower: nat | cut <= |run| <= max && narrower <= max {
      Labels.TailCostsNoMore(run, cut, max, narrower);
    }
  }

  /** The sub-dictionary of a tree that fits its cells fits its cells. */
  lemma {:induction false} RerootFits<E>(sh: Shape<E>, t: Tree<E>, n: nat, want: Bits)
    requires Exact(sh.labels) && Shrinking(sh.labels) && WellFormed(t, n) && |want| <= n
    requires Encode(sh, t, n).Ok? && Reroot(t, want, n).Ok? && Reroot(t, want, n).value.Some?
    ensures Encode(sh, Reroot(t, want, n).value.value, n - |want|).Ok?
    decreases t
  {
    hide Encode, FirstGap, Body, Labels.Encode, Labels.Read, ForkCell, ForkExtra, WriteExtra;
    if want != [] {
      if |want| <= |t.edge| {
        RelabelEncoded(sh, t, n, t.edge[|want|..], n - |want|);
        EncodedReads(sh, t, n);
        assert |WriteEdge(sh, t.edge[|want|..], n - |want|)| <= |WriteEdge(sh, t.edge, n)|;
      } else {
        EncodedFork(sh, t, n);
        RerootFits(sh, Child(t, want[|t.edge|]), n - |t.edge| - 1, want[|t.edge| + 1..]);
      }
    }
  }

  /**
    The sub-dictionary under a prefix: never a failure on a whole dictionary, nothing exactly
    where no key begins with the prefix, and otherwise the canonical root of the carved map.
   */
  lemma {:induction false} RerootHolds<E(!new)>(sh: Shape<E>, root: Cell, m: Content<E>, n: nat, want: Bits,
      sub: Content<E>)
    requires Exact(sh.labels) && Shrinking(sh.labels) && ForksBare(sh) && |want| <= n
    requires Holds(sh, Some(root), m, n) && Carved(m, want, sub, n)
    ensures RerootFrom(sh, root, n, want).Ok?
    ensures Holds(sh, RerootFrom(sh, root, n, want).value, sub, n - |want|)
    ensures RerootFrom(sh, root, n, want).value.None? <==> forall k :: k in m ==> !(want <= k)
  {
    hide Encode, RerootFrom, Carved, Reroot;
    var t :| Models(t, m, n) && EncodeRoot(sh, t, n) == Ok(Some(root));
    RerootModels(t.value, want, m, sub, n);
    RerootRefines(sh, t.value, n, want);
    var r := Reroot(t.value, want, n).value;
    if r.Some? { RerootFits(sh, t.value, n, want); }
    assert EncodeRoot(sh, r, n - |want|) == Ok(RerootFrom(sh, root, n, want).value);
  }
}

module DictAug {
  // Augmented dictionaries: what any write leaves stored at a fork is the in-order combine of its
  // leaves, and the check on the read side tells such trees from others.

  import opened Basics
  import opened Cells
  import opened DictTree
  import opened DictMap
  import opened DictCells
  import opened DictHistories

  /** The summary of a tree: its leaves' summaries combined along its forks. */
  function Summary<E>(sh: Shape<E>, t: Tree<E>): Result<E>
    requires sh.extras.Aug?
  {
    match t
    case Leaf(_, extra, _) => Ok(extra)
    case Opaque(_) => Err(Pruned)
    case Fork(_, left, right) =>
      var l :- Summary(sh, left);
      var r :- Summary(sh, right);
      sh.extras.combine(l, r)
  }

  lemma {:induction false} ExtraOfWritten<E(!new)>(
      sh: Shape<E>, node: Cell, edge: Bits, n: nat, extra: E, body: Bits, rest: Payload)
    requires Lawful(sh) && !node.IsExotic() && |edge| <= n
    requires node.bits == WriteEdge(sh, edge, n) + body
      && Payload(body, node.refs) == Behind(WriteExtra(sh, extra), rest)
    ensures ExtraOf(sh, node, n) == Ok(extra)
  {
    hide ReadEdge, ReadExtra, WriteEdge, WriteExtra, Behind;
    EdgeReadsBack(sh, edge, n, body);
    ExtraReadsBack(sh, extra, rest);
  }

  /** An encoded tree's nodes store what `Summary` says of their subtrees. */
  lemma {:induction false} StoredSummary<E(!new)>(sh: Shape<E>, t: Tree<E>, n: nat)
    requires Lawful(sh) && sh.extras.Aug? && !t.Opaque? && WellFormed(t, n) && Encode(sh, t, n).Ok?
    ensures Summary(sh, t).Ok? && ExtraOf(sh, Encode(sh, t, n).value, n) == Summary(sh, t)
    decreases t
  {
    hide Encode, Body, ReadEdge, WriteEdge, ReadExtra, WriteExtra;
    var c := Encode(sh, t, n).value;
    EncodedReads(sh, t, n);
    if t.Leaf? {
      EncodedLeaf(sh, t, n);
      ExtraOfWritten(sh, c, t.edge, n, t.extra, Body(sh, t, n), t.value);
    } else {
      EncodedFork(sh, t, n);
      var below := n - |t.edge| - 1;
      var left, right := Encode(sh, t.left, below).value, Encode(sh, t.right, below).value;
      assert Body(sh, t, n) + [] == Body(sh, t, n);
      ExtraOfWritten(sh, c, t.edge, n, ForkExtra(sh, left, right, below).value, Body(sh, t, n),
        Payload([], [left, right]));
      StoredSummary(sh, t.left, below);
      StoredSummary(sh, t.right, below);
    }
  }

  // ---------------------------------------------------------------- in key order

  /** Combining a run of summaries left to right, until some two refuse. */
  function Fold<E>(combine: (E, E) -> Result<E>, s: seq<E>): Result<E>
    requires s != []
  {
    if |s| == 1 then Ok(s[0])
    else
      var x :- Fold(combine, s[..|s| - 1]);
      combine(x, s[|s| - 1])
  }

  function Joined<E>(combine: (E, E) -> Result<E>, a: Result<E>, b: Result<E>): Result<E> {
    var x :- a;
    var y :- b;
    combine(x, y)
  }

  /** Both fail, or both give the same. */
  predicate Alike<E(==)>(a: Result<E>, b: Result<E>) { a.Ok? == b.Ok? && (a.Ok? ==> a.value == b.value) }

  /** Three summaries combine alike from either end, or are refused from both. */
  ghost predicate Associative<E(!new)>(combine: (E, E) -> Result<E>) {
    forall a: E, b: E, c: E :: Regroups(combine, a, b, c)
  }

  ghost predicate Regroups<E>(combine: (E, E) -> Result<E>, a: E, b: E, c: E) {
    Alike(Joined(combine, combine(a, b), Ok(c)), Joined(combine, Ok(a), combine(b, c)))
  }

  lemma {:induction false} FoldOne<E>(combine: (E, E) -> Result<E>, s: seq<E>, x: E)
    requires s != []
    ensures Fold(combine, s + [x]) == Joined(combine, Fold(combine, s), Ok(x))
  {
    assert (s + [x])[..|s|] == s;
  }

  lemma {:induction false} FoldJoins<E(!new)>(combine: (E, E) -> Result<E>, a: seq<E>, b: seq<E>)
    requires Associative(combine) && a != [] && b != []
    ensures Alike(Fold(combine, a + b), Joined(combine, Fold(combine, a), Fold(combine, b)))
  {
    var init, last := b[..|b| - 1], b[|b| - 1];
    assert b == init + [last];
    assert a + b == (a + init) + [last];
    if init == [] {
      assert b == [last] && a + b == a + [last];
      FoldOne(combine, a, last);
    } else {
      FoldJoins(combine, a, init);
      FoldOne(combine, a + init, last);
      FoldOne(combine, init, last);
      var x, y := Fold(combine, a), Fold(combine, init);
      if x.Ok? && y.Ok? { assert Regroups(combine, x.value, y.value, last); }
    }
  }

  function Extras<E>(items: seq<Item<E>>): (s: seq<E>)
    ensures |s| == |items|
  {
    seq(|items|, i requires 0 <= i < |items| => items[i].1.extra)
  }

  /** Under an associative combine the summary is the leaves' summaries folded in key order. */
  lemma {:induction false} SummaryFolds<E(!new)>(sh: Shape<E>, t: Tree<E>, prefix: Bits)
    requires sh.extras.Aug? && Associative(sh.extras.combine) && Whole(t)
    ensures Alike(Summary(sh, t), Fold(sh.extras.combine, Extras(Items(t, prefix))))
    decreases t
  {
    if t.Fork? {
      hide Associative, Fold, Extras;
      var left, right := Items(t.left, prefix + t.edge + [false]), Items(t.right, prefix + t.edge + [true]);
      SummaryFolds(sh, t.left, prefix + t.edge + [false]);
      SummaryFolds(sh, t.right, prefix + t.edge + [true]);
      FoldJoins(sh.extras.combine, Extras(left), Extras(right));
      ExtrasJoin(left, right);
    }
  }

  lemma {:induction false} ExtrasJoin<E>(left: seq<Item<E>>, right: seq<Item<E>>)
    ensures Extras(left + right) == Extras(left) + Extras(right)
  {}

  /** A tree of three entries that pairs the last two first. */
  function Three<E>(a: E, b: E, c: E): Tree<E> { Fork([], Single(a), Fork([], Single(b), Single(c))) }

  function Single<E>(e: E): Tree<E> { Leaf([], e, Payload([], [])) }

  lemma {:induction false} ThreeFolds<E>(sh: Shape<E>, a: E, b: E, c: E)
    requires sh.extras.Aug?
    ensures var combine := sh.extras.combine;
      && Whole(Three(a, b, c))
      && Summary(sh, Three(a, b, c)) == Joined(combine, Ok(a), combine(b, c))
      && Fold(combine, Extras(Items(Three(a, b, c), []))) == Joined(combine, combine(a, b), Ok(c))
  {
    var combine, t, pair := sh.extras.combine, Three(a, b, c), Fork([], Single(b), Single(c));
    assert Whole(Single(b)) && Whole(Single(c)) && Whole(pair) && Whole(Single(a));
    assert Summary(sh, Single(b)) == Ok(b) && Summary(sh, Single(c)) == Ok(c);
    assert Summary(sh, pair) == combine(b, c);
    var low: Bits, high: Bits := [] + [] + [false], [] + [] + [true];
    assert Items(t, []) == Items(Single(a), low) + Items(pair, high);
    assert Items(pair, high) == Items(Single(b), high + [] + [false]) + Items(Single(c), high + [] + [true]);
    assert Extras(Items(t, [])) == [a, b] + [c] && [a, b] == [a] + [b];
    FoldOne(combine, [a], b);
    FoldOne(combine, [a, b], c);
  }

  ghost predicate FoldsByKey<E>(sh: Shape<E>, t: Tree<E>)
    requires sh.extras.Aug? && Whole(t)
  {
    Alike(Summary(sh, t), Fold(sh.extras.combine, Extras(Items(t, []))))
  }

  /** Exactly when: every tree's summary is its fold by rising key if and only if the combine is associative. */
  lemma {:induction false} FoldsExactlyWhen<E(!new)>(sh: Shape<E>)
    requires sh.extras.Aug?
    ensures (forall t: Tree<E> :: Whole(t) ==> FoldsByKey(sh, t)) <==> Associative(sh.extras.combine)
  {
    hide Fold, Extras, Items, Summary, Three;
    if Associative(sh.extras.combine) {
      forall t: Tree<E> | Whole(t) ensures FoldsByKey(sh, t) {
        SummaryFolds(sh, t, []);
      }
    }
    if forall t: Tree<E> :: Whole(t) ==> FoldsByKey(sh, t) {
      forall a: E, b: E, c: E ensures Regroups(sh.extras.combine, a, b, c) {
        ThreeFolds(sh, a, b, c);
        assert FoldsByKey(sh, Three(a, b, c));
      }
    }
  }

  /** Whatever writes or bulk build left it, the root of a map stores the combine along the map's one tree. */
  lemma {:induction false} HeldIsCombined<E(!new)>(sh: Shape<E>, root: Cell, m: Content<E>, n: nat, t: Tree<E>)
    requires Lawful(sh) && sh.extras.Aug? && Holds(sh, Some(root), m, n) && Models(Some(t), m, n)
    ensures Summary(sh, t).Ok? && ExtraOf(sh, root, n) == Summary(sh, t)
  {
    hide Encode, ExtraOf, Summary, Lawful;
    var held :| Models(held, m, n) && EncodeRoot(sh, held, n) == Ok(Some(root));
    OneTreePerMap(held, Some(t), m, n);
    WholeIsThere(t);
    StoredSummary(sh, t, n);
  }

  /** And where the combine is associative, that is the summaries of the map's entries folded by rising key. */
  lemma {:induction false} HeldSummary<E(!new)>(
      sh: Shape<E>, root: Cell, m: Content<E>, n: nat, items: seq<Item<E>>)
    requires Lawful(sh) && sh.extras.Aug? && Associative(sh.extras.combine)
    requires Holds(sh, Some(root), m, n) && Listing(items, m)
    ensures items != [] && ExtraOf(sh, root, n).Ok? && ExtraOf(sh, root, n) == Fold(sh.extras.combine, Extras(items))
  {
    hide Encode, Items, Extras, Fold, Associative, ExtraOf, Summary, Lawful, Listing;
    var held :| Models(held, m, n) && EncodeRoot(sh, held, n) == Ok(Some(root));
    var t := held.value;
    assert Models(Some(t), m, n);
    HeldIsCombined(sh, root, m, n, t);
    SummaryFolds(sh, t, []);
    ItemsAreListing(t, m, n);
    OneListing(items, Items(t, []), m, n);
  }

  lemma {:induction false} WholeIsThere<E>(t: Tree<E>)
    requires Whole(t)
    ensures !t.Opaque?
  {}

  // ---------------------------------------------------------------- listing the forks

  /** Every visible fork's path and stored summary, parents first and left before right. */
  function CollectForks<E>(sh: Shape<E>, node: Cell, remaining: nat, prefix: Bits): Result<seq<(Bits, E)>>
    decreases remaining
  {
    if node.IsExotic() then Ok([])
    else
      var (edge, s) :- ReadEdge(sh, node.bits, remaining);
      if |edge| >= remaining then Ok([])
      else
        var (extra, _) :- ReadExtra(sh, Payload(s, node.refs));
        if |node.refs| < 2 then Err(Malformed)
        else
          var here, below := prefix + edge, remaining - |edge| - 1;
          var left :- CollectForks(sh, node.refs[0], below, here + [false]);
          var right :- CollectForks(sh, node.refs[1], below, here + [true]);
          Ok([(here, extra)] + left + right)
  }

  /** The forks of a tree with the summaries they owe. */
  function Forks<E>(sh: Shape<E>, t: Tree<E>, prefix: Bits): seq<(Bits, Result<E>)>
    requires sh.extras.Aug?
  {
    if !t.Fork? then []
    else
      [(prefix + t.edge, Summary(sh, t))] + Forks(sh, t.left, prefix + t.edge + [false])
        + Forks(sh, t.right, prefix + t.edge + [true])
  }

  /** Two listings of forks with the same paths, the first's summaries being those owed. */
  ghost predicate ListsForks<E>(got: seq<(Bits, E)>, want: seq<(Bits, Result<E>)>) {
    |got| == |want| && forall i :: 0 <= i < |got| ==> got[i].0 == want[i].0 && Ok(got[i].1) == want[i].1
  }

  lemma {:induction false} CollectsForks<E(!new)>(sh: Shape<E>, t: Tree<E>, n: nat, prefix: Bits)
    requires Lawful(sh) && ForksBare(sh) && sh.extras.Aug? && WellFormed(t, n) && Encode(sh, t, n).Ok?
    ensures CollectForks(sh, Encode(sh, t, n).value, n, prefix).Ok?
    ensures ListsForks(CollectForks(sh, Encode(sh, t, n).value, n, prefix).value, Forks(sh, t, prefix))
    decreases t
  {
    hide Encode, Body, ReadEdge, ReadExtra, WriteExtra, ForkCell, ForkExtra, Lawful, ForksBare, ListsForks, Summary;
    NoForks<E>();
    if !t.Opaque? {
      LawfulIsExact(sh);
      EncodedReads(sh, t, n);
      if t.Fork? {
        var c, here, below := Encode(sh, t, n).value, prefix + t.edge, n - |t.edge| - 1;
        EncodedForkRefs(sh, t, n);
        StoredSummary(sh, t, n);
        CollectsForks(sh, t.left, below, here + [false]);
        CollectsForks(sh, t.right, below, here + [true]);
        ForksJoin((here, ExtraOf(sh, c, n).value),
          CollectForks(sh, c.refs[0], below, here + [false]).value,
          CollectForks(sh, c.refs[1], below, here + [true]).value,
          Forks(sh, t.left, here + [false]), Forks(sh, t.right, here + [true]));
      }
    }
  }

  lemma {:induction false} NoForks<E>()
    ensures ListsForks<E>([], [])
  {}

  lemma {:induction false} ForksJoin<E>(
      first: (Bits, E), a: seq<(Bits, E)>, b: seq<(Bits, E)>, c: seq<(Bits, Result<E>)>, d: seq<(Bits, Result<E>)>)
    requires ListsForks(a, c) && ListsForks(b, d)
    ensures ListsForks([first] + a + b, [(first.0, Ok(first.1))] + c + d)
  {}

  lemma {:induction false} LawfulIsExact<E(!new)>(sh: Shape<E>)
    requires Lawful(sh)
    ensures Exact(sh.labels)
  {}

  // ---------------------------------------------------------------- the read-side check

  /** Rebuilds each visible fork over its visible children and holds it to the one stored. */
  function ValidateNode<E>(sh: Shape<E>, node: Cell, remaining: nat): Result<()>
    decreases remaining
  {
    if node.IsExotic() then Ok(())
    else
      var (edge, _) :- ReadEdge(sh, node.bits, remaining);
      if |edge| == remaining then Ok(())
      else if |node.refs| < 2 then Err(Malformed)
      else
        var left, right, below := node.refs[0], node.refs[1], remaining - |edge| - 1;
        var _ :- CheckSummary(sh, node, edge, remaining, left, right);
        var _ :- ValidateNode(sh, left, below);
        ValidateNode(sh, right, below)
  }

  function CheckSummary<E>(sh: Shape<E>, node: Cell, edge: Bits, remaining: nat, left: Cell, right: Cell): Result<()>
    requires |edge| < remaining
  {
    if left.IsExotic() || right.IsExotic() then Ok(())
    else
      var fork :- ForkCell(sh, edge, remaining, left, right);
      if fork == node then Ok(()) else Err(Malformed)
  }

  /** The check accepts every tree the writers leave, placeholders and all. */
  lemma {:induction false} ValidateAccepts<E(!new)>(sh: Shape<E>, t: Tree<E>, n: nat)
    requires Exact(sh.labels) && ForksBare(sh) && WellFormed(t, n) && Encode(sh, t, n).Ok?
    ensures ValidateNode(sh, Encode(sh, t, n).value, n) == Ok(())
    decreases t
  {
    hide Encode, ReadEdge, Body, ForkCell, ForkExtra, WriteExtra, ForksBare;
    if !t.Opaque? {
      EncodedReads(sh, t, n);
      if t.Fork? {
        EncodedForkRefs(sh, t, n);
        ValidateAccepts(sh, t.left, n - |t.edge| - 1);
        ValidateAccepts(sh, t.right, n - |t.edge| - 1);
      }
    }
  }

  /** A cell every node of which, as far as the key reaches, is there to be read. */
  predicate Visible<E>(sh: Shape<E>, node: Cell, remaining: nat)
    decreases remaining
  {
    && !node.IsExotic()
    && ReadEdge(sh, node.bits, remaining).Ok?
    && var (edge, _) := ReadEdge(sh, node.bits, remaining).value;
       |edge| < remaining ==>
         && |node.refs| >= 2
         && Visible(sh, node.refs[0], remaining - |edge| - 1)
         && Visible(sh, node.refs[1], remaining - |edge| - 1)
  }

  /** The summary a visible cell ought to carry: its leaves' own, combined along its forks. */
  function Owed<E>(sh: Shape<E>, node: Cell, remaining: nat): Result<E>
    requires sh.extras.Aug? && Visible(sh, node, remaining)
    decreases remaining
  {
    var (edge, _) := ReadEdge(sh, node.bits, remaining).value;
    if |edge| == remaining then ExtraOf(sh, node, remaining)
    else
      var l :- Owed(sh, node.refs[0], remaining - |edge| - 1);
      var r :- Owed(sh, node.refs[1], remaining - |edge| - 1);
      sh.extras.combine(l, r)
  }

  lemma {:induction false} CheckedFork<E(!new)>(sh: Shape<E>, node: Cell, edge: Bits, remaining: nat, left: Cell,
      right: Cell)
    requires Lawful(sh) && |edge| < remaining && ForkCell(sh, edge, remaining, left, right) == Ok(node)
    ensures ForkExtra(sh, left, right, remaining - |edge| - 1).Ok?
    ensures ExtraOf(sh, node, remaining) == ForkExtra(sh, left, right, remaining - |edge| - 1)
  {
    hide ForkExtra, ExtraOf, WriteEdge, WriteExtra, ReadEdge;
    var extra := ForkExtra(sh, left, right, remaining - |edge| - 1).value;
    var body := WriteExtra(sh, extra).bits;
    assert body + [] == body;
    ExtraOfWritten(sh, node, edge, remaining, extra, body, Payload([], [left, right]));
  }

  /**
    Where everything is visible, passing the check means storing what the leaves combine to, at
    the root and so, applied below, everywhere.
   */
  lemma {:induction false} ValidateSound<E(!new)>(sh: Shape<E>, node: Cell, remaining: nat)
    requires Lawful(sh) && sh.extras.Aug? && Visible(sh, node, remaining) && ValidateNode(sh, node, remaining).Ok?
    ensures ExtraOf(sh, node, remaining) == Owed(sh, node, remaining)
    decreases remaining
  {
    hide ReadEdge, ReadExtra, ForkCell;
    var (edge, _) := ReadEdge(sh, node.bits, remaining).value;
    if |edge| < remaining {
      var left, right, below := node.refs[0], node.refs[1], remaining - |edge| - 1;
      ValidateSound(sh, left, below);
      ValidateSound(sh, right, below);
      CheckedFork(sh, node, edge, remaining, left, right);
    }
  }

  /** Every fork over two visible children stores their combine, placeholders elsewhere or not. */
  ghost predicate Summarized<E>(sh: Shape<E>, node: Cell, remaining: nat)
    requires sh.extras.Aug?
    decreases remaining
  {
    if node.IsExotic() then true
    else
      && ReadEdge(sh, node.bits, remaining).Ok?
      && var (edge, _) := ReadEdge(sh, node.bits, remaining).value;
         |edge| < remaining ==>
           && |node.refs| >= 2
           && var left, right, below := node.refs[0], node.refs[1], remaining - |edge| - 1;
              && (!left.IsExotic() && !right.IsExotic() ==> Combines(sh, node, remaining, left, right, below))
              && Summarized(sh, left, below) && Summarized(sh, right, below)
  }

  ghost predicate Combines<E>(sh: Shape<E>, node: Cell, remaining: nat, left: Cell, right: Cell, below: nat)
    requires sh.extras.Aug?
  {
    && ExtraOf(sh, left, below).Ok? && ExtraOf(sh, right, below).Ok? && ExtraOf(sh, node, remaining).Ok?
    && ExtraOf(sh, node, remaining)
       == sh.extras.combine(ExtraOf(sh, left, below).value, ExtraOf(sh, right, below).value)
  }

  /** Whatever is withheld, a tree that passes the check has no visible fork storing another summary. */
  lemma {:induction false} ValidateReachesForks<E(!new)>(sh: Shape<E>, node: Cell, remaining: nat)
    requires Lawful(sh) && sh.extras.Aug? && ValidateNode(sh, node, remaining).Ok?
    ensures Summarized(sh, node, remaining)
    decreases remaining
  {
    hide ReadEdge, ReadExtra, ForkCell, ExtraOf;
    if !node.IsExotic() {
      var (edge, _) := ReadEdge(sh, node.bits, remaining).value;
      if |edge| < remaining {
        var left, right, below := node.refs[0], node.refs[1], remaining - |edge| - 1;
        ValidateReachesForks(sh, left, below);
        ValidateReachesForks(sh, right, below);
        if !left.IsExotic() && !right.IsExotic() {
          CheckedFork(sh, node, edge, remaining, left, right);
        }
      }
    }
  }
}

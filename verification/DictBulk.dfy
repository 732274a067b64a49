module DictBulk {
  // The bulk build: the tree a sorted run of items lays out, and the map it stands for.

  import opened Basics
  import opened DictTree
  import opened DictMap

  /** What the last of the items under `key` carries. */
  function Last<E>(items: seq<Item<E>>, key: Bits): (r: Lookup<Entry<E>>)
    ensures !r.Withheld?
  {
    if items == [] then Absent
    else if items[|items| - 1].0 == key then Found(items[|items| - 1].1)
    else Last(items[..|items| - 1], key)
  }

  /** Stores taken as map updates in turn, so that later ones win. */
  function MapOf<E>(items: seq<Item<E>>): Content<E> {
    if items == [] then map[]
    else MapOf(items[..|items| - 1])[items[|items| - 1].0 := items[|items| - 1].1]
  }

  lemma {:induction false} MapOfIsLast<E>(items: seq<Item<E>>, key: Bits)
    ensures Last(items, key) == if key in MapOf(items) then Found(MapOf(items)[key]) else Absent
  {
    if items != [] { MapOfIsLast(items[..|items| - 1], key); }
  }

  lemma {:induction false} MapOfKeys<E>(items: seq<Item<E>>, key: Bits)
    requires key in MapOf(items)
    ensures exists i :: 0 <= i < |items| && items[i].0 == key
  {
    var n := |items| - 1;
    if items[n].0 != key {
      MapOfKeys(items[..n], key);
      var i :| 0 <= i < n && items[..n][i].0 == key;
      assert items[i].0 == key;
    }
  }

  lemma {:induction false} LastOfJoin<E>(a: seq<Item<E>>, b: seq<Item<E>>, key: Bits)
    ensures Last(a + b, key) == if Last(b, key).Found? then Last(b, key) else Last(a, key)
  {
    if b == [] {
      assert a + b == a;
    } else {
      LastOfJoin(a, b[..|b| - 1], key);
      assert (a + b)[..|a + b| - 1] == a + b[..|b| - 1];
    }
  }

  lemma {:induction false} LastAbsent<E>(items: seq<Item<E>>, key: Bits)
    requires forall i :: 0 <= i < |items| ==> items[i].0 != key
    ensures Last(items, key) == Absent
  {
    if items != [] { LastAbsent(items[..|items| - 1], key); }
  }

  // ---------------------------------------------------------------- sorting

  predicate NotAfter(a: Bits, b: Bits) { a == b || Less(a, b) }

  predicate Sorted<E>(items: seq<Item<E>>) {
    forall i, j :: 0 <= i < j < |items| ==> NotAfter(items[i].0, items[j].0)
  }

  predicate NoneAfter<E>(items: seq<Item<E>>, key: Bits) {
    forall i :: 0 <= i < |items| ==> NotAfter(items[i].0, key)
  }

  predicate OfWidth<E>(items: seq<Item<E>>, n: nat) {
    forall i :: 0 <= i < |items| ==> |items[i].0| == n
  }

  lemma {:induction false} NotAfterTransitive(a: Bits, b: Bits, c: Bits)
    requires NotAfter(a, b) && NotAfter(b, c)
    ensures NotAfter(a, c)
  {
    if a != b && b != c { LessTransitive(a, b, c); }
  }

  /** Insertion past all keys not greater, which is what keeps the sort stable. */
  function InsertStable<E>(sorted: seq<Item<E>>, item: Item<E>): (r: seq<Item<E>>)
    ensures |r| == |sorted| + 1
  {
    var n := |sorted|;
    if n == 0 || NotAfter(sorted[n - 1].0, item.0) then sorted + [item]
    else InsertStable(sorted[..n - 1], item) + [sorted[n - 1]]
  }

  /** The stable sort by key. */
  function StableSort<E>(items: seq<Item<E>>): (r: seq<Item<E>>)
    ensures |r| == |items|
  {
    if items == [] then [] else InsertStable(StableSort(items[..|items| - 1]), items[|items| - 1])
  }

  lemma {:induction false} InsertStableSorted<E>(sorted: seq<Item<E>>, item: Item<E>, n: nat)
    requires Sorted(sorted) && OfWidth(sorted, n) && |item.0| == n
    ensures Sorted(InsertStable(sorted, item)) && OfWidth(InsertStable(sorted, item), n)
    ensures forall key: Bits :: NoneAfter(sorted, key) && NotAfter(item.0, key) ==>
      NoneAfter(InsertStable(sorted, item), key)
  {
    var m := |sorted|;
    if m == 0 {
    } else if NotAfter(sorted[m - 1].0, item.0) {
      forall i | 0 <= i < m ensures NotAfter(sorted[i].0, item.0) {
        if i < m - 1 { NotAfterTransitive(sorted[i].0, sorted[m - 1].0, item.0); }
      }
    } else {
      InsertStableSorted(sorted[..m - 1], item, n);
      LessTotal(sorted[m - 1].0, item.0);
      assert NoneAfter(sorted[..m - 1], sorted[m - 1].0);
      assert NoneAfter(InsertStable(sorted[..m - 1], item), sorted[m - 1].0);
    }
  }

  lemma {:induction false} InsertStableLast<E>(sorted: seq<Item<E>>, item: Item<E>, n: nat, key: Bits)
    requires Sorted(sorted) && OfWidth(sorted, n) && |item.0| == n
    ensures Last(InsertStable(sorted, item), key) == if item.0 == key then Found(item.1) else Last(sorted, key)
  {
    var m := |sorted|;
    var r := InsertStable(sorted, item);
    if m == 0 || NotAfter(sorted[m - 1].0, item.0) {
      assert r[..m] == sorted;
    } else {
      InsertStableLast(sorted[..m - 1], item, n, key);
      LessTotal(sorted[m - 1].0, item.0);
      assert r[..m] == InsertStable(sorted[..m - 1], item);
    }
  }

  /** The sort orders the keys and, being stable, changes no key's last value. */
  lemma {:induction false} StableSortKeepsLast<E>(items: seq<Item<E>>, n: nat)
    requires OfWidth(items, n)
    ensures Sorted(StableSort(items)) && OfWidth(StableSort(items), n)
    ensures forall key: Bits :: Last(StableSort(items), key) == Last(items, key)
  {
    if items != [] {
      var init, item := items[..|items| - 1], items[|items| - 1];
      StableSortKeepsLast(init, n);
      InsertStableSorted(StableSort(init), item, n);
      forall key: Bits { InsertStableLast(StableSort(init), item, n, key); }
    }
  }

  // ---------------------------------------------------------------- a sorted run

  lemma {:induction false} LessAt(a: Bits, b: Bits, at: nat)
    requires at < |a| && at < |b| && a[..at] == b[..at] && a[at] != b[at]
    ensures Less(a, b) == b[at]
  {
    assert a == a[..at] + a[at..] && b == a[..at] + b[at..];
    LessBelow(a[..at], a[at..], b[at..]);
  }

  /** In a sorted run the middle keys share whatever prefix the first and last share. */
  lemma {:induction false} Between(a: Bits, b: Bits, c: Bits, upto: nat)
    requires |a| == |b| == |c| && upto <= |a| && a[..upto] == c[..upto]
    requires NotAfter(a, b) && NotAfter(b, c)
    ensures b[..upto] == a[..upto]
  {
    match Diverges(a, b)
    case None =>
      assert b == a;
    case Some(at) =>
      if at < upto {
        LessAt(a, b, at);
        assert c[..at] == c[..upto][..at] == a[..upto][..at] == a[..at];
        assert c[at] == c[..upto][at] == a[..upto][at] == a[at];
        LessAt(b, c, at);
        assert false;
      } else {
        assert b[..upto] == b[..at][..upto] == a[..at][..upto];
      }
  }

  /** Items `Layout` is defined on: at least one, sorted, equal in the bits above `depth`. */
  predicate Run<E>(items: seq<Item<E>>, depth: nat, remaining: nat) {
    && |items| > 0
    && OfWidth(items, depth + remaining)
    && Sorted(items)
    && forall i :: 0 <= i < |items| ==> items[i].0[..depth] == items[0].0[..depth]
  }

  /** How many leading items carry a clear bit at `at`. */
  function Zeros<E>(items: seq<Item<E>>, at: nat): (r: nat)
    requires forall i :: 0 <= i < |items| ==> at < |items[i].0|
    ensures r <= |items|
    ensures forall i :: 0 <= i < r ==> !items[i].0[at]
    ensures r < |items| ==> items[r].0[at]
  {
    if items == [] || items[0].0[at] then 0 else 1 + Zeros(items[1..], at)
  }

  lemma {:induction false} RunShares<E>(items: seq<Item<E>>, depth: nat, remaining: nat, upto: nat)
    requires Run(items, depth, remaining) && upto <= depth + remaining
    requires items[0].0[..upto] == items[|items| - 1].0[..upto]
    ensures forall i :: 0 <= i < |items| ==> items[i].0[..upto] == items[0].0[..upto]
  {
    forall i | 0 < i < |items| - 1 ensures items[i].0[..upto] == items[0].0[..upto] {
      Between(items[0].0, items[i].0, items[|items| - 1].0, upto);
    }
  }

  lemma {:induction false} GapAgrees(a: Bits, b: Bits, depth: nat)
    requires |a| == |b| && depth <= |a| && a[..depth] == b[..depth]
    ensures match FirstGap(a, b, depth)
      case None => a == b
      case Some(at) => a[..at] == b[..at]
  {
    forall i | 0 <= i < depth ensures a[i] == b[i] { assert a[..depth][i] == b[..depth][i]; }
  }

  /** Where the ends of a run part, the run splits into two runs, neither of them empty. */
  lemma {:induction false} RunSplits<E>(items: seq<Item<E>>, depth: nat, remaining: nat, at: nat)
    requires Run(items, depth, remaining)
    requires FirstGap(items[0].0, items[|items| - 1].0, depth) == Some(at)
    ensures depth <= at < depth + remaining
    ensures forall i :: 0 <= i < |items| ==> items[i].0[..at] == items[0].0[..at]
    ensures 0 < Zeros(items, at) < |items|
    ensures forall i :: Zeros(items, at) <= i < |items| ==> items[i].0[at]
    ensures Run(items[..Zeros(items, at)], at + 1, depth + remaining - at - 1)
    ensures Run(items[Zeros(items, at)..], at + 1, depth + remaining - at - 1)
  {
    var first, last := items[0].0, items[|items| - 1].0;
    GapAgrees(first, last, depth);
    RunShares(items, depth, remaining, at);
    LessAt(first, last, at);
    var z := Zeros(items, at);
    forall i | z <= i < |items| ensures items[i].0[at] {
      if z < i && !items[i].0[at] {
        LessAt(items[z].0, items[i].0, at);
      }
    }
    forall i | 0 <= i < |items| ensures items[i].0[..at + 1] == first[..at] + [items[i].0[at]] {
      assert items[i].0[..at + 1] == items[i].0[..at] + [items[i].0[at]];
    }
  }

  /** The tree a sorted run lays out below the `depth` key bits its items share. */
  function Layout<E>(items: seq<Item<E>>, depth: nat, remaining: nat): (t: Tree<E>)
    requires Run(items, depth, remaining)
    ensures WellFormed(t, remaining) && Whole(t)
    decreases remaining
  {
    hide Sorted, Less, Zeros;
    var first, last := items[0], items[|items| - 1];
    match FirstGap(first.0, last.0, depth)
    case None => Leaf(last.0[depth..], last.1.extra, last.1.value)
    case Some(at) =>
      RunSplits(items, depth, remaining, at);
      var z, below := Zeros(items, at), depth + remaining - at - 1;
      Fork(first.0[depth..at], Layout(items[..z], at + 1, below), Layout(items[z..], at + 1, below))
  }

  lemma {:induction false} LayoutLeaf<E>(items: seq<Item<E>>, depth: nat, k: Bits)
    requires Run(items, depth, |k|) && FirstGap(items[0].0, items[|items| - 1].0, depth).None?
    ensures Get(Layout(items, depth, |k|), k) == Last(items, items[0].0[..depth] + k)
  {
    var first, last := items[0].0, items[|items| - 1].0;
    GapAgrees(first, last, depth);
    RunShares(items, depth, |k|, depth + |k|);
    assert last == first[..depth] + last[depth..];
    Cancel(first[..depth], last[depth..], k);
    if last[depth..] != k {
      forall i | 0 <= i < |items| ensures items[i].0 != first[..depth] + k {
        assert items[i].0 == items[i].0[..depth + |k|] && last == last[..depth + |k|];
      }
      LastAbsent(items, first[..depth] + k);
    }
  }

  lemma {:induction false} LastOnSide<E>(items: seq<Item<E>>, z: nat, at: nat, key: Bits)
    requires z <= |items| && at < |key| && OfWidth(items, |key|)
    requires forall i :: 0 <= i < |items| ==> items[i].0[at] == (z <= i)
    ensures Last(items, key) == if key[at] then Last(items[z..], key) else Last(items[..z], key)
  {
    assert items == items[..z] + items[z..];
    LastOfJoin(items[..z], items[z..], key);
    if key[at] { LastAbsent(items[..z], key); } else { LastAbsent(items[z..], key); }
  }

  lemma {:induction false} LayoutOff<E>(items: seq<Item<E>>, depth: nat, k: Bits, at: nat)
    requires Run(items, depth, |k|) && depth <= at < depth + |k|
    requires forall i :: 0 <= i < |items| ==> items[i].0[..at] == items[0].0[..at]
    requires items[0].0[depth..at] != k[..at - depth]
    ensures Last(items, items[0].0[..depth] + k) == Absent
  {
    var key := items[0].0[..depth] + k;
    forall i | 0 <= i < |items| ensures items[i].0 != key {
      assert items[i].0[..at][depth..] == items[0].0[depth..at] && key[depth..at] == k[..at - depth];
    }
    LastAbsent(items, key);
  }

  lemma {:induction false} LayoutOn(side: Bits, head: Bits, depth: nat, k: Bits, at: nat)
    requires depth <= at < depth + |k| == |side| == |head|
    requires side[..at] == head[..at] && head[depth..at] == k[..at - depth] && side[at] == k[at - depth]
    ensures side[..at + 1] + k[at - depth + 1..] == head[..depth] + k
  {
    assert side[..at + 1] == head[..at] + [side[at]];
    assert head[..at] == head[..depth] + head[depth..at];
    assert k == k[..at - depth] + [k[at - depth]] + k[at - depth + 1..];
  }

  lemma {:induction false} LayoutFork<E>(items: seq<Item<E>>, depth: nat, remaining: nat, at: nat)
    requires Run(items, depth, remaining)
    requires FirstGap(items[0].0, items[|items| - 1].0, depth) == Some(at)
    ensures depth <= at < depth + remaining && 0 < Zeros(items, at) < |items|
    ensures var z, below := Zeros(items, at), depth + remaining - at - 1;
      && Run(items[..z], at + 1, below) && Run(items[z..], at + 1, below)
      && Layout(items, depth, remaining) ==
         Fork(items[0].0[depth..at], Layout(items[..z], at + 1, below), Layout(items[z..], at + 1, below))
  {
    hide Run, Zeros;
    RunSplits(items, depth, remaining, at);
  }

  /** A lookup in the tree a run lays out finds the last of the items under the key. */
  lemma {:induction false} LayoutGet<E>(items: seq<Item<E>>, depth: nat, k: Bits)
    requires Run(items, depth, |k|)
    ensures Get(Layout(items, depth, |k|), k) == Last(items, items[0].0[..depth] + k)
    decreases |k|
  {
    hide Layout, Last, Less, NotAfter, Sorted, Zeros, WellFormed, Whole;
    var first := items[0].0;
    match FirstGap(first, items[|items| - 1].0, depth)
    case None => LayoutLeaf(items, depth, k);
    case Some(at) =>
      RunSplits(items, depth, |k|, at);
      LayoutFork(items, depth, |k|, at);
      var z, len := Zeros(items, at), at - depth;
      var rest := k[len + 1..];
      if first[depth..at] == k[..len] {
        LastOnSide(items, z, at, first[..depth] + k);
        var side := if k[len] then items[z..] else items[..z];
        LayoutOn(side[0].0, first, depth, k, at);
        LayoutGet(side, at + 1, rest);
      } else {
        LayoutOff(items, depth, k, at);
      }
  }

  /** The bulk build stands for the map the items give, duplicates resolved to the last. */
  lemma {:induction false} LayoutModels<E>(items: seq<Item<E>>, n: nat)
    requires items != [] && OfWidth(items, n)
    ensures Run(StableSort(items), 0, n)
    ensures Models(Some(Layout(StableSort(items), 0, n)), MapOf(items), n)
  {
    StableSortKeepsLast(items, n);
    var sorted := StableSort(items);
    forall k: Bits | |k| == n
      ensures Get(Layout(sorted, 0, n), k) == if k in MapOf(items) then Found(MapOf(items)[k]) else Absent
    {
      LayoutGet(sorted, 0, k);
      assert sorted[0].0[..0] + k == k;
      MapOfIsLast(items, k);
    }
    forall k | k in MapOf(items) ensures |k| == n { MapOfKeys(items, k); }
  }
}

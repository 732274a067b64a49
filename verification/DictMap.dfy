module DictMap {
  // The tree refines a finite map: the map a tree stands for, the one tree a map has, and the
  // order a walk meets its keys in.

  import opened Basics
  import opened Cells
  import opened DictTree

  type Content<E> = map<Bits, Entry<E>>

  /** The dictionary rooted at `t`, over `n`-bit keys, holds exactly `m`. */
  ghost predicate Models<E>(t: Option<Tree<E>>, m: Content<E>, n: nat) {
    && (forall k :: k in m ==> |k| == n)
    && match t
       case None => m == map[]
       case Some(tree) =>
         && WellFormed(tree, n)
         && Whole(tree)
         && forall k: Bits :: |k| == n ==> Get(tree, k) == if k in m then Found(m[k]) else Absent
  }

  /** One tree per key set: a map has a single dictionary, whichever writes led to it. */
  lemma {:induction false} OneTreePerMap<E>(a: Option<Tree<E>>, b: Option<Tree<E>>, m: Content<E>, n: nat)
    requires Models(a, m, n) && Models(b, m, n)
    ensures a == b
  {
    if a.Some? { SomeKeyFound(a.value, n); }
    if b.Some? { SomeKeyFound(b.value, n); }
    if a.Some? && b.Some? {
      assert SameAnswers(a.value, b.value, n);
      Canonical(a.value, b.value, n);
    }
  }

  // ---------------------------------------------------------------- writes

  /** What one store leaves: a lone leaf where there was nothing. */
  function Put<E>(t: Option<Tree<E>>, key: Bits, extra: E, value: Payload): (r: Result<Tree<E>>)
    requires t.Some? ==> WellFormed(t.value, |key|)
    ensures r.Ok? ==> WellFormed(r.value, |key|)
  {
    if t.None? then Ok(Leaf(key, extra, value)) else Insert(t.value, key, extra, value)
  }

  lemma {:induction false} PutModels<E>(t: Option<Tree<E>>, m: Content<E>, key: Bits, extra: E, value: Payload)
    requires Models(t, m, |key|)
    ensures Put(t, key, extra, value).Ok?
    ensures Models(Some(Put(t, key, extra, value).value), m[key := Entry(extra, value)], |key|)
  {
    if t.Some? {
      InsertReaches(t.value, key, extra, value);
      forall k: Bits | |k| == |key| { InsertGet(t.value, key, extra, value, k); }
    }
  }

  /** What one removal leaves, and whether the key was there. */
  function Drop<E>(t: Option<Tree<E>>, key: Bits): (r: Result<(bool, Option<Tree<E>>)>)
    requires t.Some? ==> WellFormed(t.value, |key|)
    ensures r.Ok? && r.value.1.Some? ==> WellFormed(r.value.1.value, |key|)
  {
    if t.None? then Ok((false, None))
    else
      var removal :- Delete(t.value, key);
      match removal
      case Missing => Ok((false, t))
      case Emptied => Ok((true, None))
      case Remains(tree) => Ok((true, Some(tree)))
  }

  lemma {:induction false} DropModels<E>(t: Option<Tree<E>>, m: Content<E>, key: Bits)
    requires Models(t, m, |key|)
    ensures Drop(t, key).Ok? && Drop(t, key).value.0 == (key in m)
    ensures Models(Drop(t, key).value.1, m - {key}, |key|)
  {
    if t.Some? {
      DeleteMissing(t.value, key);
      var removal := Delete(t.value, key).value;
      if removal.Emptied? {
        forall k: Bits | |k| == |key| { DeleteEmptied(t.value, key, k); }
        assert m - {key} == map[];
      } else if removal.Remains? {
        forall k: Bits | |k| == |key| { DeleteGet(t.value, key, k); }
      } else {
        assert m - {key} == m;
      }
    }
  }

  // ---------------------------------------------------------------- re-rooting

  /** The subtree of every key that begins with `want`, under the key that is left. */
  function Reroot<E>(t: Tree<E>, want: Bits, n: nat): (r: Result<Option<Tree<E>>>)
    requires WellFormed(t, n) && |want| <= n
    ensures r.Ok? && r.value.Some? ==> WellFormed(r.value.value, n - |want|)
    decreases t
  {
    if t.Opaque? then Err(Pruned)
    else if want == [] then Ok(Some(t))
    else if Diverges(t.edge, want).Some? then Ok(None)
    else if |want| <= |t.edge| then Ok(Some(Relabel(t, t.edge[|want|..])))
    else Reroot(Child(t, want[|t.edge|]), want[|t.edge| + 1..], n - |t.edge| - 1)
  }

  lemma {:induction false} PrefixParts<E>(t: Tree<E>, at: nat, want: Bits, k: Bits)
    requires !t.Opaque? && WellFormed(t, |want| + |k|)
    requires at < |t.edge| && at < |want| && t.edge[at] != want[at]
    ensures Get(t, want + k) == Absent
  {
    var p := t.edge[..at + 1];
    assert (want + k)[..|p|][at] == want[at] && p[at] == t.edge[at];
    OffEdge(t, p, want + k);
  }

  /** Looking `k` up under the new root is looking `want` followed by `k` up under the old one. */
  ghost predicate RerootAgrees<E>(t: Tree<E>, want: Bits, k: Bits)
    requires WellFormed(t, |want| + |k|) && Reroot(t, want, |want| + |k|).Ok?
  {
    Get(t, want + k) ==
    match Reroot(t, want, |want| + |k|).value
    case None => Absent
    case Some(r) => Get(r, k)
  }

  lemma {:induction false} RerootBelow<E>(t: Tree<E>, want: Bits, k: Bits)
    requires WellFormed(t, |want| + |k|) && Reroot(t, want, |want| + |k|).Ok?
    requires t.Fork? && |t.edge| < |want| && Diverges(t.edge, want).None?
    ensures var child, rest := Child(t, want[|t.edge|]), want[|t.edge| + 1..];
      && Reroot(child, rest, |rest| + |k|) == Reroot(t, want, |want| + |k|)
      && Get(t, want + k) == Get(child, rest + k)
  {
    hide FirstGap, Get;
    var edge, bit, rest := t.edge, want[|t.edge|], want[|t.edge| + 1..];
    assert want + k == Through(edge, bit, rest + k);
    GetThrough(t, bit, rest + k);
  }

  lemma {:induction false} RerootGet<E>(t: Tree<E>, want: Bits, k: Bits)
    requires WellFormed(t, |want| + |k|) && Reroot(t, want, |want| + |k|).Ok?
    ensures RerootAgrees(t, want, k)
    decreases t
  {
    if want == [] {
      assert want + k == k;
    } else if Diverges(t.edge, want).Some? {
      PrefixParts(t, Diverges(t.edge, want).value, want, k);
    } else if |want| <= |t.edge| {
      RelabelGet(t, want, k);
    } else {
      RerootBelow(t, want, k);
      RerootGet(Child(t, want[|t.edge|]), want[|t.edge| + 1..], k);
    }
  }

  lemma {:induction false} RerootWhole<E>(t: Tree<E>, want: Bits, n: nat)
    requires WellFormed(t, n) && |want| <= n && Whole(t)
    ensures Reroot(t, want, n).Ok?
    ensures Reroot(t, want, n).value.Some? ==> Whole(Reroot(t, want, n).value.value)
    decreases t
  {
    if want != [] && Diverges(t.edge, want).None? && |want| > |t.edge| {
      RerootWhole(Child(t, want[|t.edge|]), want[|t.edge| + 1..], n - |t.edge| - 1);
    }
  }

  /** `sub` holds the entries of `m` whose keys begin with `want`, with it removed. */
  ghost predicate Carved<E>(m: Content<E>, want: Bits, sub: Content<E>, n: nat) {
    && (forall k :: k in sub ==> |k| + |want| == n)
    && forall k: Bits :: |k| + |want| == n ==>
         (k in sub <==> want + k in m) && (k in sub ==> sub[k] == m[want + k])
  }

  lemma {:induction false} CarvedEmpty<E>(m: Content<E>, want: Bits, sub: Content<E>, n: nat)
    requires Carved(m, want, sub, n) && |want| <= n && forall k :: k in m ==> |k| == n
    ensures sub == map[] <==> forall k :: k in m ==> !(want <= k)
  {
    forall k | k in m && want <= k ensures k[|want|..] in sub {
      assert want + k[|want|..] == k;
    }
    forall k | k in sub ensures want + k in m && want <= want + k {}
  }

  /**
    Re-rooting is exact: the result is the one dictionary of the carved map, and there is none
    exactly where no key of the map begins with the prefix.
   */
  lemma {:induction false} RerootModels<E>(t: Tree<E>, want: Bits, m: Content<E>, sub: Content<E>, n: nat)
    requires |want| <= n && Models(Some(t), m, n) && Carved(m, want, sub, n)
    ensures Reroot(t, want, n).Ok? && Models(Reroot(t, want, n).value, sub, n - |want|)
    ensures Reroot(t, want, n).value.None? <==> forall k :: k in m ==> !(want <= k)
  {
    RerootWhole(t, want, n);
    CarvedEmpty(m, want, sub, n);
    var r := Reroot(t, want, n).value;
    forall k: Bits | |k| + |want| == n
      ensures (if k in sub then Found(sub[k]) else Absent) == match r case None => Absent case Some(s) => Get(s, k)
    {
      RerootGet(t, want, k);
    }
    if r.Some? { SomeKeyFound(r.value, n - |want|); }
  }

  // ---------------------------------------------------------------- key order

  /** Ascending order over keys of one width. */
  predicate Less(a: Bits, b: Bits) {
    a != [] && b != [] && if a[0] == b[0] then Less(a[1..], b[1..]) else b[0]
  }

  lemma {:induction false} LessBelow(p: Bits, a: Bits, b: Bits)
    ensures Less(p + a, p + b) == Less(a, b)
  {
    if p == [] {
      assert p + a == a && p + b == b;
    } else {
      LessBelow(p[1..], a, b);
      assert (p + a)[1..] == p[1..] + a && (p + b)[1..] == p[1..] + b;
    }
  }

  lemma {:induction false} LessTransitive(a: Bits, b: Bits, c: Bits)
    requires Less(a, b) && Less(b, c)
    ensures Less(a, c)
  {
    if a[0] == b[0] == c[0] { LessTransitive(a[1..], b[1..], c[1..]); }
  }

  lemma {:induction false} LessTotal(a: Bits, b: Bits)
    requires |a| == |b|
    ensures Less(a, b) || a == b || Less(b, a)
    ensures !Less(a, a)
    ensures Less(a, b) ==> a != b && !Less(b, a)
  {
    if a != [] {
      LessTotal(a[1..], b[1..]);
      assert a == [a[0]] + a[1..] && b == [b[0]] + b[1..];
    }
  }

  // ---------------------------------------------------------------- walking

  type Item<E> = (Bits, Entry<E>)

  /** The entries of `t`, left before right, each key spelled in full behind `prefix`. */
  function Items<E>(t: Tree<E>, prefix: Bits): (s: seq<Item<E>>)
    requires Whole(t)
    ensures |s| > 0
  {
    match t
    case Leaf(edge, extra, value) => [(prefix + edge, Entry(extra, value))]
    case Fork(edge, left, right) =>
      Items(left, prefix + edge + [false]) + Items(right, prefix + edge + [true])
  }

  predicate Ascending<E>(s: seq<Item<E>>) {
    forall i, j :: 0 <= i < j < |s| ==> Less(s[i].0, s[j].0)
  }

  lemma {:induction false} ItemsUnderPrefix<E>(t: Tree<E>, prefix: Bits, n: nat)
    requires Whole(t) && WellFormed(t, n)
    ensures forall i :: 0 <= i < |Items(t, prefix)| ==>
      |Items(t, prefix)[i].0| == |prefix| + n && prefix <= Items(t, prefix)[i].0
    decreases t
  {
    if t.Fork? {
      ItemsUnderPrefix(t.left, prefix + t.edge + [false], n - |t.edge| - 1);
      ItemsUnderPrefix(t.right, prefix + t.edge + [true], n - |t.edge| - 1);
    }
  }

  /** The walk meets the keys in ascending order, so it meets each of them once. */
  lemma {:induction false} ItemsAscend<E>(t: Tree<E>, prefix: Bits, n: nat)
    requires Whole(t) && WellFormed(t, n)
    ensures Ascending(Items(t, prefix))
    decreases t
  {
    if t.Fork? {
      var p, below := prefix + t.edge, n - |t.edge| - 1;
      var left, right := Items(t.left, p + [false]), Items(t.right, p + [true]);
      ItemsAscend(t.left, p + [false], below);
      ItemsAscend(t.right, p + [true], below);
      ItemsUnderPrefix(t.left, p + [false], below);
      ItemsUnderPrefix(t.right, p + [true], below);
      forall i, j | 0 <= i < |left| && 0 <= j < |right| ensures Less(left[i].0, right[j].0) {
        var a, b := left[i].0, right[j].0;
        assert a == p + a[|p|..] && b == p + b[|p|..] && !a[|p|] && b[|p|];
        LessBelow(p, a[|p|..], b[|p|..]);
      }
      var both := left + right;
      assert Items(t, prefix) == both;
      forall i, j | 0 <= i < j < |both| ensures Less(both[i].0, both[j].0) {
        if j < |left| {
          assert both[i] == left[i] && both[j] == left[j];
        } else if i < |left| {
          assert both[i] == left[i] && both[j] == right[j - |left|];
        } else {
          assert both[i] == right[i - |left|] && both[j] == right[j - |left|];
        }
      }
    }
  }

  /** A key that leaves a fork's edge is none of its items. */
  lemma {:induction false} OffEdgeItems<E>(t: Tree<E>, prefix: Bits, k: Bits)
    requires Whole(t) && WellFormed(t, |k|) && t.Fork? && t.edge != k[..|t.edge|]
    ensures forall i :: 0 <= i < |Items(t, prefix)| ==> Items(t, prefix)[i].0 != prefix + k
  {
    var edge, below, p := t.edge, |k| - |t.edge| - 1, prefix + t.edge;
    ItemsUnderPrefix(t.left, p + [false], below);
    ItemsUnderPrefix(t.right, p + [true], below);
    var left, right, all := Items(t.left, p + [false]), Items(t.right, p + [true]), Items(t, prefix);
    assert all == left + right;
    forall i | 0 <= i < |all| ensures all[i].0 != prefix + k {
      assert all[i] == if i < |left| then left[i] else right[i - |left|];
      assert p <= p + [i >= |left|] <= all[i].0;
      assert all[i].0[|prefix|..|p|] == edge && (prefix + k)[|prefix|..|p|] == k[..|edge|];
    }
  }

  /** The walk yields a key with a value exactly where a lookup finds that value under it. */
  lemma {:induction false} ItemsAreAnswers<E>(t: Tree<E>, prefix: Bits, k: Bits, e: Entry<E>)
    requires Whole(t) && WellFormed(t, |k|)
    ensures (prefix + k, e) in Items(t, prefix) <==> Get(t, k) == Found(e)
    decreases t
  {
    if t.Leaf? {
      Cancel(prefix, t.edge, k);
    } else {
      var edge, below := t.edge, |k| - |t.edge| - 1;
      var p := prefix + edge;
      ItemsUnderPrefix(t.left, p + [false], below);
      ItemsUnderPrefix(t.right, p + [true], below);
      if edge == k[..|edge|] {
        var bit, rest := k[|edge|], k[|edge| + 1..];
        ThroughIsKey(edge, k);
        assert prefix + k == p + [bit] + rest;
        ItemsAreAnswers(Child(t, bit), p + [bit], rest, e);
        var other := Items(Child(t, !bit), p + [!bit]);
        forall i | 0 <= i < |other| ensures other[i].0 != prefix + k {
          assert other[i].0[|p|] == !bit && (prefix + k)[|p|] == bit;
        }
      } else {
        OffEdgeItems(t, prefix, k);
      }
    }
  }

  /** The entries of a map, each once, by rising key. */
  ghost predicate Listing<E>(items: seq<Item<E>>, m: Content<E>) {
    && Ascending(items)
    && (forall i :: 0 <= i < |items| ==> items[i].0 in m && m[items[i].0] == items[i].1)
    && (forall k :: k in m ==> exists i :: 0 <= i < |items| && items[i].0 == k)
  }

  /** What a walk of a map's tree yields is that map's listing. */
  lemma {:induction false} ItemsAreListing<E>(t: Tree<E>, m: Content<E>, n: nat)
    requires Models(Some(t), m, n)
    ensures Listing(Items(t, []), m)
  {
    var items := Items(t, []);
    ItemsAscend(t, [], n);
    ItemsUnderPrefix(t, [], n);
    forall i | 0 <= i < |items| ensures items[i].0 in m && m[items[i].0] == items[i].1 {
      assert [] + items[i].0 == items[i].0;
      ItemsAreAnswers(t, [], items[i].0, items[i].1);
    }
    forall k | k in m ensures exists i :: 0 <= i < |items| && items[i].0 == k {
      assert [] + k == k;
      ItemsAreAnswers(t, [], k, m[k]);
      var i :| 0 <= i < |items| && items[i] == (k, m[k]);
    }
  }

  lemma {:induction false} EmptyListing<E>(a: seq<Item<E>>, m: Content<E>)
    requires Listing(a, m)
    ensures a == [] <==> m == map[]
  {
    if a != [] { assert a[0].0 in m; }
  }

  lemma {:induction false} SameFirst<E>(a: seq<Item<E>>, b: seq<Item<E>>, m: Content<E>, n: nat)
    requires Listing(a, m) && Listing(b, m) && (forall k :: k in m ==> |k| == n) && a != [] && b != []
    ensures a[0] == b[0]
  {
    var i :| 0 <= i < |a| && a[i].0 == b[0].0;
    var j :| 0 <= j < |b| && b[j].0 == a[0].0;
    LessTotal(a[0].0, b[0].0);
  }

  lemma {:induction false} RestIsListing<E>(a: seq<Item<E>>, m: Content<E>, n: nat)
    requires Listing(a, m) && (forall k :: k in m ==> |k| == n) && a != []
    ensures Listing(a[1..], m - {a[0].0})
  {
    forall i | 0 < i < |a| ensures a[i].0 != a[0].0 { LessTotal(a[0].0, a[i].0); }
    forall k | k in m - {a[0].0} ensures exists i :: 0 <= i < |a[1..]| && a[1..][i].0 == k {
      var i :| 0 <= i < |a| && a[i].0 == k;
      assert a[1..][i - 1].0 == k;
    }
  }

  /** A map has one listing. */
  lemma {:induction false} OneListing<E>(a: seq<Item<E>>, b: seq<Item<E>>, m: Content<E>, n: nat)
    requires Listing(a, m) && Listing(b, m) && forall k :: k in m ==> |k| == n
    ensures a == b
  {
    hide Listing;
    EmptyListing(a, m);
    EmptyListing(b, m);
    if a != [] && b != [] {
      SameFirst(a, b, m, n);
      RestIsListing(a, m, n);
      RestIsListing(b, m, n);
      OneListing(a[1..], b[1..], m - {a[0].0}, n);
      assert a == [a[0]] + a[1..] && b == [b[0]] + b[1..];
    }
  }
}

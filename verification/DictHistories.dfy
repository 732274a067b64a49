module DictHistories {
  // Whole histories of writes: every one that succeeds leaves the canonical cell of the map it
  // means, so the order of the writes, the keys that came and went, and the bulk build all agree.

  import opened Basics
  import opened Cells
  import opened DictTree
  import opened DictMap
  import opened DictCells
  import opened DictWrites
  import opened DictRefines
  import opened Dicts

  /** The root a dictionary's tree is, or nothing. */
  function EncodeRoot<E>(sh: Shape<E>, t: Option<Tree<E>>, n: nat): Result<Option<Cell>>
    requires t.Some? ==> WellFormed(t.value, n)
  {
    if t.None? then Ok(None)
    else
      var cell :- Encode(sh, t.value, n);
      Ok(Some(cell))
  }

  /** `root` is the canonical cell of the one tree `m` has. */
  ghost predicate Holds<E(!new)>(sh: Shape<E>, root: Option<Cell>, m: Content<E>, n: nat) {
    exists t: Option<Tree<E>> :: Models(t, m, n) && EncodeRoot(sh, t, n) == Ok(root)
  }

  /** Two roots of the same map are the same cell, and so the same hash. */
  lemma {:induction false} OneRootPerMap<E(!new)>(sh: Shape<E>, a: Option<Cell>, b: Option<Cell>, m: Content<E>, n: nat)
    requires Holds(sh, a, m, n) && Holds(sh, b, m, n)
    ensures a == b
  {
    var t :| Models(t, m, n) && EncodeRoot(sh, t, n) == Ok(a);
    var u :| Models(u, m, n) && EncodeRoot(sh, u, n) == Ok(b);
    OneTreePerMap(t, u, m, n);
  }

  /** A lookup on a root answers exactly as its map does. */
  ghost predicate AnswersAs<E>(r: Result<Answer<E>>, m: Content<E>, key: Bits) {
    Answers(r, Held(m, key))
  }

  function Held<E>(m: Content<E>, key: Bits): Lookup<Entry<E>> { if key in m then Found(m[key]) else Absent }

  /** The entry under the key, if there is one, has a summary that writes no reference. */
  predicate BareAt<E>(sh: Shape<E>, m: Content<E>, key: Bits) { key in m ==> Bare(sh, m[key].extra) }

  lemma {:induction false} HoldsAnswers<E(!new)>(sh: Shape<E>, root: Option<Cell>, m: Content<E>, key: Bits)
    requires Lawful(sh) && ForksBare(sh) && Holds(sh, root, m, |key|)
    ensures Lands(sh, LookupAt(sh, root, key), Held(m, key))
    ensures AnswersAs(LookupAt(sh, root, key), m, key) <==> BareAt(sh, m, key)
  {
    hide LookupFrom, Encode, Bare;
    var t :| Models(t, m, |key|) && EncodeRoot(sh, t, |key|) == Ok(root);
    if t.Some? { LookupRefines(sh, t.value, key); }
    LandedAnswers(sh, LookupAt(sh, root, key), Held(m, key));
  }

  // ---------------------------------------------------------------- one write

  /** A store that succeeds takes the root of a map to the root of the changed map. */
  lemma {:induction false} StoreHolds<E(!new)>(sh: Shape<E>, root: Option<Cell>, m: Content<E>, key: Bits,
      entry: Entry<E>)
    requires Lawful(sh) && ForksBare(sh) && Holds(sh, root, m, |key|) && StoreAt(sh, root, key, entry).Ok?
    ensures Holds(sh, Some(StoreAt(sh, root, key, entry).value), m[key := entry], |key|)
  {
    hide StoreFrom, Encode, Insert, LeafCell;
    var t :| Models(t, m, |key|) && EncodeRoot(sh, t, |key|) == Ok(root);
    PutModels(t, m, key, entry.extra, entry.value);
    var changed := Put(t, key, entry.extra, entry.value).value;
    if t.Some? {
      StoreRefines(sh, t.value, key, entry);
    } else {
      LeafEncoded(sh, changed, |key|);
    }
    assert EncodeRoot(sh, Some(changed), |key|) == Ok(Some(StoreAt(sh, root, key, entry).value));
  }

  /** A removal that succeeds says whether the key was there and leaves the root without it. */
  lemma {:induction false} RemoveHolds<E(!new)>(sh: Shape<E>, root: Option<Cell>, m: Content<E>, key: Bits)
    requires Lawful(sh) && ForksBare(sh) && Holds(sh, root, m, |key|) && RemoveAt(sh, root, key).Ok?
    ensures RemoveAt(sh, root, key).value.0 == (key in m)
    ensures Holds(sh, RemoveAt(sh, root, key).value.1, m - {key}, |key|)
  {
    hide RemoveFrom, Encode, Delete;
    var t :| Models(t, m, |key|) && EncodeRoot(sh, t, |key|) == Ok(root);
    DropModels(t, m, key);
    var changed := Drop(t, key).value.1;
    if t.Some? { RemoveRefines(sh, t.value, key); }
    assert EncodeRoot(sh, changed, |key|) == Ok(RemoveAt(sh, root, key).value.1);
  }

  // ---------------------------------------------------------------- histories

  datatype Write<+E> = Keep(key: Bits, entry: Entry<E>) | Discard(key: Bits)

  /** What one write makes of a map. */
  function Written<E>(m: Content<E>, write: Write<E>): Content<E> {
    match write
    case Keep(key, entry) => m[key := entry]
    case Discard(key) => m - {key}
  }

  /** The map a history of writes means. */
  function Meaning<E>(writes: seq<Write<E>>): Content<E> {
    if writes == [] then map[]
    else
      Written(Meaning(writes[..|writes| - 1]), writes[|writes| - 1])
  }

  /** The root a history of writes leaves, or the failure of the first that fails. */
  function Outcome<E>(sh: Shape<E>, writes: seq<Write<E>>): Result<Option<Cell>> {
    if writes == [] then Ok(None)
    else
      var root :- Outcome(sh, writes[..|writes| - 1]);
      match writes[|writes| - 1]
      case Keep(key, entry) => var cell :- StoreAt(sh, root, key, entry); Ok(Some(cell))
      case Discard(key) => var removed :- RemoveAt(sh, root, key); Ok(removed.1)
  }

  predicate OverWidth<E>(writes: seq<Write<E>>, n: nat) {
    forall i :: 0 <= i < |writes| ==> |writes[i].key| == n
  }

  /** Every history that succeeds leaves the canonical root of the map it means. */
  lemma {:induction false} OutcomeHolds<E(!new)>(sh: Shape<E>, writes: seq<Write<E>>, n: nat)
    requires Lawful(sh) && ForksBare(sh) && OverWidth(writes, n) && Outcome(sh, writes).Ok?
    ensures Holds(sh, Outcome(sh, writes).value, Meaning(writes), n)
  {
    hide StoreAt, RemoveAt, Holds;
    if writes == [] {
      EmptyHolds(sh, n);
    } else {
      var init := writes[..|writes| - 1];
      OutcomeHolds(sh, init, n);
      var root := Outcome(sh, init).value;
      match writes[|writes| - 1]
      case Keep(key, entry) => StoreHolds(sh, root, Meaning(init), key, entry);
      case Discard(key) => RemoveHolds(sh, root, Meaning(init), key);
    }
  }

  /** The map has a canonical cell at all: every node of its one tree fits a cell. */
  ghost predicate Storable<E(!new)>(sh: Shape<E>, m: Content<E>, n: nat) {
    exists root: Option<Cell> :: Holds(sh, root, m, n)
  }

  lemma {:induction false} StorableEncodes<E(!new)>(sh: Shape<E>, t: Option<Tree<E>>, m: Content<E>, n: nat)
    requires Models(t, m, n)
    ensures Storable(sh, m, n) <==> EncodeRoot(sh, t, n).Ok?
  {
    hide Encode;
    if EncodeRoot(sh, t, n).Ok? { assert Holds(sh, EncodeRoot(sh, t, n).value, m, n); }
    if Storable(sh, m, n) {
      var root :| Holds(sh, root, m, n);
      var u :| Models(u, m, n) && EncodeRoot(sh, u, n) == Ok(root);
      OneTreePerMap(t, u, m, n);
    }
  }

  /** A store is refused exactly when the changed map has no canonical cell. */
  lemma {:induction false} StoreSucceeds<E(!new)>(sh: Shape<E>, root: Option<Cell>, m: Content<E>, key: Bits,
      entry: Entry<E>)
    requires Lawful(sh) && ForksBare(sh) && Holds(sh, root, m, |key|)
    ensures StoreAt(sh, root, key, entry).Ok? <==> Storable(sh, m[key := entry], |key|)
  {
    hide StoreFrom, Encode, Insert, LeafCell, Storable;
    var t :| Models(t, m, |key|) && EncodeRoot(sh, t, |key|) == Ok(root);
    PutModels(t, m, key, entry.extra, entry.value);
    var changed := Put(t, key, entry.extra, entry.value).value;
    StorableEncodes(sh, Some(changed), m[key := entry], |key|);
    if t.Some? {
      StoreRefines(sh, t.value, key, entry);
    } else {
      LeafEncoded(sh, changed, |key|);
    }
  }

  /** A removal is refused exactly when the map without the key has no canonical cell. */
  lemma {:induction false} RemoveSucceeds<E(!new)>(sh: Shape<E>, root: Option<Cell>, m: Content<E>, key: Bits)
    requires Lawful(sh) && ForksBare(sh) && Holds(sh, root, m, |key|)
    ensures RemoveAt(sh, root, key).Ok? <==> Storable(sh, m - {key}, |key|)
  {
    hide RemoveFrom, Encode, Delete, Storable;
    var t :| Models(t, m, |key|) && EncodeRoot(sh, t, |key|) == Ok(root);
    DropModels(t, m, key);
    var changed := Drop(t, key).value.1;
    StorableEncodes(sh, changed, m - {key}, |key|);
    if t.Some? { RemoveRefines(sh, t.value, key); }
  }

  /** A history runs to its end exactly when every map on the way has a canonical cell. */
  lemma {:induction false} OutcomeSucceeds<E(!new)>(sh: Shape<E>, writes: seq<Write<E>>, n: nat)
    requires Lawful(sh) && ForksBare(sh) && OverWidth(writes, n)
    ensures Outcome(sh, writes).Ok? <==> forall k :: 0 <= k <= |writes| ==> Storable(sh, Meaning(writes[..k]), n)
  {
    hide StoreAt, RemoveAt, Holds, Storable;
    if writes == [] {
      EmptyHolds(sh, n);
      HoldsStorable(sh, None, map[], n);
      assert writes[..0] == writes;
    } else {
      var init := writes[..|writes| - 1];
      OutcomeSucceeds(sh, init, n);
      assert forall k :: 0 <= k <= |init| ==> init[..k] == writes[..k];
      assert writes[..|writes|] == writes;
      if Outcome(sh, init).Ok? {
        OutcomeHolds(sh, init, n);
        var root := Outcome(sh, init).value;
        match writes[|writes| - 1]
        case Keep(key, entry) => StoreSucceeds(sh, root, Meaning(init), key, entry);
        case Discard(key) => RemoveSucceeds(sh, root, Meaning(init), key);
      }
    }
  }

  lemma {:induction false} HoldsStorable<E(!new)>(sh: Shape<E>, root: Option<Cell>, m: Content<E>, n: nat)
    requires Holds(sh, root, m, n)
    ensures Storable(sh, m, n)
  {}

  lemma {:induction false} EmptyHolds<E(!new)>(sh: Shape<E>, n: nat)
    ensures Holds<E>(sh, None, map[], n)
  {
    var t: Option<Tree<E>> := None;
    assert Models(t, map[], n) && EncodeRoot(sh, t, n) == Ok(None);
  }

  /** Histories that mean the same map leave the same cell, whatever order they ran in. */
  lemma {:induction false} OrderDoesNotMatter<E(!new)>(sh: Shape<E>, a: seq<Write<E>>, b: seq<Write<E>>, n: nat)
    requires Lawful(sh) && ForksBare(sh) && OverWidth(a, n) && OverWidth(b, n)
    requires Outcome(sh, a).Ok? && Outcome(sh, b).Ok? && Meaning(a) == Meaning(b)
    ensures Outcome(sh, a) == Outcome(sh, b)
  {
    hide Outcome, Meaning, Holds;
    OutcomeHolds(sh, a, n);
    OutcomeHolds(sh, b, n);
    OneRootPerMap(sh, Outcome(sh, a).value, Outcome(sh, b).value, Meaning(a), n);
  }

  /**
    Every lookup after a history lands where the map the history means puts it, and answers with
    the value itself exactly when the entry's summary writes no reference.
   */
  lemma {:induction false} HistoryAnswers<E(!new)>(sh: Shape<E>, writes: seq<Write<E>>, key: Bits)
    requires Lawful(sh) && ForksBare(sh) && OverWidth(writes, |key|) && Outcome(sh, writes).Ok?
    ensures Lands(sh, LookupAt(sh, Outcome(sh, writes).value, key), Held(Meaning(writes), key))
    ensures AnswersAs(LookupAt(sh, Outcome(sh, writes).value, key), Meaning(writes), key)
      <==> BareAt(sh, Meaning(writes), key)
  {
    hide Outcome, Meaning, Holds, AnswersAs, LookupAt, Lands, BareAt;
    OutcomeHolds(sh, writes, |key|);
    HoldsAnswers(sh, Outcome(sh, writes).value, Meaning(writes), key);
  }

  /** A history without the writes to one key. */
  function Without<E>(writes: seq<Write<E>>, key: Bits): seq<Write<E>> {
    if writes == [] then []
    else
      var init, last := Without(writes[..|writes| - 1], key), writes[|writes| - 1];
      if last.key == key then init else init + [last]
  }

  lemma {:induction false} WithoutMeans<E>(writes: seq<Write<E>>, key: Bits, n: nat)
    requires OverWidth(writes, n)
    ensures OverWidth(Without(writes, key), n)
    ensures Meaning(Without(writes, key)) == Meaning(writes) - {key}
  {
    hide Written;
    if writes != [] {
      var init, last := writes[..|writes| - 1], writes[|writes| - 1];
      WithoutMeans(init, key, n);
      OneWriteOn(Meaning(init), last, key);
      if last.key != key {
        assert (Without(init, key) + [last])[..|Without(init, key)|] == Without(init, key);
      }
    }
  }

  lemma {:induction false} OneWriteOn<E>(m: Content<E>, write: Write<E>, key: Bits)
    ensures Written(m, write) - {key} == if write.key == key then m - {key} else Written(m - {key}, write)
  {}

  /** A history that ends by discarding a key leaves what it would have left without ever writing that key. */
  lemma {:induction false} RemovalLeavesNoTrace<E(!new)>(sh: Shape<E>, writes: seq<Write<E>>, key: Bits)
    requires Lawful(sh) && ForksBare(sh) && OverWidth(writes, |key|)
    requires Outcome(sh, writes + [Discard(key)]).Ok? && Outcome(sh, Without(writes, key)).Ok?
    ensures Outcome(sh, writes + [Discard(key)]) == Outcome(sh, Without(writes, key))
  {
    hide Outcome;
    WithoutMeans(writes, key, |key|);
    assert (writes + [Discard(key)])[..|writes|] == writes;
    OrderDoesNotMatter(sh, writes + [Discard(key)], Without(writes, key), |key|);
  }
}

module DictCells {
  // The dictionary in cells: how a node is spelled, and the reads and writes over cells as the
  // source performs them, each tied to what it does to the tree the cells encode.

  import opened Basics
  import opened Cells
  import opened DictTree
  import Labels

  // ---------------------------------------------------------------- the two shapes

  /** A label codec: what is written for an edge at a given width, and the reading of it. */
  datatype Codec = Codec(write: (Bits, nat) -> Bits, read: (Bits, nat) -> Result<(Bits, Bits)>)

  /** What a label is written as reads back as the label, whatever follows it. */
  ghost predicate Exact(labels: Codec) {
    forall run: Bits, max: nat, s: Bits :: |run| <= max ==>
      labels.read(labels.write(run, max) + s, max) == Ok((run, s))
  }

  /** The codec the format fixes. */
  const TON_LABELS: Codec := Codec(Labels.Encode, Labels.Read)

  lemma {:induction false} TonLabelsExact()
    ensures Exact(TON_LABELS)
  {
    forall run: Bits, max: nat, s: Bits | |run| <= max { Labels.RoundTrip(run, max, s); }
  }

  /**
    The two kinds of node body ahead of a value: empty, or a summary with the caller's own
    reading, writing and combining. A summary may hold references as well as bits; a reading
    says how many of each it spent.
   */
  datatype Extras<!E> =
    | Plain(unit: E)
    | Aug(read: Payload -> Result<(E, nat, nat)>, write: E -> Payload, combine: (E, E) -> Result<E>)

  datatype Shape<!E> = Shape(labels: Codec, extras: Extras<E>)

  ghost predicate Same<E>(a: E, b: E) { a == b }

  /** A plain shape has one summary, and an augmented one reads back what it writes. */
  ghost predicate Lawful<E(!new)>(sh: Shape<E>) {
    && Exact(sh.labels)
    && match sh.extras
       case Plain(unit) => forall e: E :: Same(e, unit)
       case Aug(read, write, _) => forall e: E, rest: Payload ::
         read(Behind(write(e), rest)) == Ok((e, |write(e).bits|, |write(e).refs|))
  }

  /** One payload and then another. */
  function Behind(front: Payload, rest: Payload): Payload {
    Payload(front.bits + rest.bits, front.refs + rest.refs)
  }

  /** The summary writes no reference. */
  predicate Bare<E>(sh: Shape<E>, extra: E) { WriteExtra(sh, extra).refs == [] }

  /**
    Combining never gives a summary that writes a reference. The readers of a fork take its first
    two references for its children, and a summary's references are written ahead of those, so
    this is what they rest on.
   */
  ghost predicate ForksBare<E(!new)>(sh: Shape<E>) {
    sh.extras.Aug? ==>
      forall a: E, b: E :: sh.extras.combine(a, b).Ok? ==> Bare(sh, sh.extras.combine(a, b).value)
  }

  /** A plain dictionary as the format spells it. */
  const PLAIN: Shape<()> := Shape(TON_LABELS, Plain(()))

  lemma {:induction false} PlainIsLawful()
    ensures Lawful(PLAIN) && ForksBare(PLAIN) && Bare(PLAIN, ())
  {
    TonLabelsExact();
    forall e: () ensures Same(e, ()) { assert e == (); }
  }

  /** An edge and the bits after it, where the codec reads one. */
  function ReadEdge<E>(sh: Shape<E>, s: Bits, max: nat): (r: Result<(Bits, Bits)>)
    ensures r.Ok? ==> |r.value.0| <= max && |r.value.1| <= |s|
  {
    var (edge, rest) :- sh.labels.read(s, max);
    if |edge| > max || |rest| > |s| then Err(LabelTooLong) else Ok((edge, rest))
  }

  function WriteEdge<E>(sh: Shape<E>, edge: Bits, max: nat): Bits { sh.labels.write(edge, max) }

  lemma {:induction false} EdgeReadsBack<E>(sh: Shape<E>, edge: Bits, max: nat, rest: Bits)
    requires Exact(sh.labels) && |edge| <= max
    ensures ReadEdge(sh, WriteEdge(sh, edge, max) + rest, max) == Ok((edge, rest))
  {}

  /** A summary and what comes after it, by the shape's own reading. */
  function ReadExtra<E>(sh: Shape<E>, s: Payload): (r: Result<(E, Payload)>)
    ensures r.Ok? ==> |r.value.1.bits| <= |s.bits|
  {
    match sh.extras
    case Plain(unit) => Ok((unit, s))
    case Aug(read, _, _) =>
      var (extra, bits, refs) :- read(s);
      if bits > |s.bits| then Err(NotEnoughBits)
      else if refs > |s.refs| then Err(NotEnoughRefs)
      else Ok((extra, Payload(s.bits[bits..], s.refs[refs..])))
  }

  function WriteExtra<E>(sh: Shape<E>, extra: E): Payload {
    match sh.extras
    case Plain(_) => Payload([], [])
    case Aug(_, write, _) => write(extra)
  }

  lemma {:induction false} ExtraReadsBack<E(!new)>(sh: Shape<E>, extra: E, rest: Payload)
    requires Lawful(sh)
    ensures ReadExtra(sh, Behind(WriteExtra(sh, extra), rest)) == Ok((extra, rest))
  {
    var w := WriteExtra(sh, extra);
    if sh.extras.Plain? {
      assert Same(extra, sh.extras.unit);
      assert Behind(w, rest) == rest;
    } else {
      assert (w.bits + rest.bits)[|w.bits|..] == rest.bits && (w.refs + rest.refs)[|w.refs|..] == rest.refs;
    }
  }

  /** A fork's bits have to be spent by its summary; this is why rebuilding one loses none. */
  function CheckFork<E>(sh: Shape<E>, s: Payload): Result<()> {
    var (_, rest) :- ReadExtra(sh, s);
    if rest.bits == [] then Ok(()) else Err(Malformed)
  }

  /** Reads a summary past a label of any form; a placeholder has none. */
  function ExtraOf<E>(sh: Shape<E>, node: Cell, max: nat): Result<E> {
    if node.IsExotic() then Err(Pruned)
    else
      var (_, s) :- ReadEdge(sh, node.bits, max);
      var (extra, _) :- ReadExtra(sh, Payload(s, node.refs));
      Ok(extra)
  }

  /** What combining two children's stored summaries gives, or the failure to read or combine them. */
  function ForkExtra<E>(sh: Shape<E>, left: Cell, right: Cell, below: nat): Result<E> {
    match sh.extras
    case Plain(unit) => Ok(unit)
    case Aug(_, _, combine) =>
      var l :- ExtraOf(sh, left, below);
      var r :- ExtraOf(sh, right, below);
      combine(l, r)
  }

  // ---------------------------------------------------------------- nodes

  function LeafCell<E>(sh: Shape<E>, key: Bits, entry: Entry<E>, max: nat): (r: Result<Cell>)
    ensures r.Ok? ==> !r.value.IsExotic() && WriteEdge(sh, key, max) <= r.value.bits
  {
    var held := Behind(WriteExtra(sh, entry.extra), entry.value);
    Build(Payload(WriteEdge(sh, key, max) + held.bits, held.refs))
  }

  function ForkCell<E>(sh: Shape<E>, edge: Bits, max: nat, left: Cell, right: Cell): (r: Result<Cell>)
    requires |edge| < max
    ensures r.Ok? ==> !r.value.IsExotic() && WriteEdge(sh, edge, max) <= r.value.bits
  {
    var extra :- ForkExtra(sh, left, right, max - |edge| - 1);
    var summary := WriteExtra(sh, extra);
    Build(Payload(WriteEdge(sh, edge, max) + summary.bits, summary.refs + [left, right]))
  }

  /** The cell a tree is: one canonical spelling, or the failure of some node to fit a cell. */
  function Encode<E>(sh: Shape<E>, t: Tree<E>, n: nat): (r: Result<Cell>)
    requires WellFormed(t, n)
    ensures r.Ok? ==> r.value.IsExotic() == t.Opaque?
    ensures r.Ok? && !t.Opaque? ==> WriteEdge(sh, t.edge, n) <= r.value.bits
    decreases t
  {
    match t
    case Opaque(cell) => Ok(cell)
    case Leaf(edge, extra, value) => LeafCell(sh, edge, Entry(extra, value), n)
    case Fork(edge, left, right) =>
      var l :- Encode(sh, left, n - |edge| - 1);
      var r :- Encode(sh, right, n - |edge| - 1);
      ForkCell(sh, edge, n, l, r)
  }

  /** Two results that both fail, or succeed with the same cell. */
  predicate Agree(a: Result<Cell>, b: Result<Cell>) {
    a.Ok? == b.Ok? && (a.Ok? ==> a.value == b.value)
  }

  /** Everything a node's cell holds past its label. */
  function Body<E>(sh: Shape<E>, t: Tree<E>, n: nat): Bits
    requires WellFormed(t, n) && Encode(sh, t, n).Ok? && !t.Opaque?
  {
    Encode(sh, t, n).value.bits[|WriteEdge(sh, t.edge, n)|..]
  }

  lemma {:induction false} EncodedReads<E>(sh: Shape<E>, t: Tree<E>, n: nat)
    requires Exact(sh.labels) && WellFormed(t, n) && !t.Opaque? && Encode(sh, t, n).Ok?
    ensures var c := Encode(sh, t, n).value;
      && ReadEdge(sh, c.bits, n) == Ok((t.edge, Body(sh, t, n)))
      && c.bits == WriteEdge(sh, t.edge, n) + Body(sh, t, n)
      && |c.bits| <= MAX_BITS && |c.refs| <= MAX_REFS
      && c == Cell(Ordinary, c.bits, c.refs, UnionOfMasks(c.refs))
  {
    var c := Encode(sh, t, n).value;
    assert c.bits == WriteEdge(sh, t.edge, n) + Body(sh, t, n);
    EdgeReadsBack(sh, t.edge, n, Body(sh, t, n));
  }

  lemma {:induction false} EncodedLeaf<E>(sh: Shape<E>, t: Tree<E>, n: nat)
    requires WellFormed(t, n) && t.Leaf? && Encode(sh, t, n).Ok?
    ensures Payload(Body(sh, t, n), Encode(sh, t, n).value.refs) == Behind(WriteExtra(sh, t.extra), t.value)
  {
    var body := Behind(WriteExtra(sh, t.extra), t.value).bits;
    assert (WriteEdge(sh, t.edge, n) + body)[|WriteEdge(sh, t.edge, n)|..] == body;
  }

  lemma {:induction false} ForkCellParts<E>(sh: Shape<E>, edge: Bits, max: nat, left: Cell, right: Cell)
    requires |edge| < max && ForkCell(sh, edge, max, left, right).Ok?
    ensures ForkExtra(sh, left, right, max - |edge| - 1).Ok?
    ensures var c, summary := ForkCell(sh, edge, max, left, right).value,
        WriteExtra(sh, ForkExtra(sh, left, right, max - |edge| - 1).value);
      && c.bits[|WriteEdge(sh, edge, max)|..] == summary.bits
      && c.refs == summary.refs + [left, right]
  {
    var body := WriteExtra(sh, ForkExtra(sh, left, right, max - |edge| - 1).value).bits;
    assert (WriteEdge(sh, edge, max) + body)[|WriteEdge(sh, edge, max)|..] == body;
  }

  /** A fork's cell: its summary, whose references come first, and its two children. */
  lemma {:induction false} EncodedFork<E>(sh: Shape<E>, t: Tree<E>, n: nat)
    requires WellFormed(t, n) && t.Fork? && Encode(sh, t, n).Ok?
    ensures var c, below := Encode(sh, t, n).value, n - |t.edge| - 1;
      && Encode(sh, t.left, below).Ok? && Encode(sh, t.right, below).Ok?
      && var left, right := Encode(sh, t.left, below).value, Encode(sh, t.right, below).value;
         && ForkCell(sh, t.edge, n, left, right) == Ok(c) && ForkExtra(sh, left, right, below).Ok?
         && var summary := WriteExtra(sh, ForkExtra(sh, left, right, below).value);
            Body(sh, t, n) == summary.bits && c.refs == summary.refs + [left, right]
  {
    var below := n - |t.edge| - 1;
    ForkCellParts(sh, t.edge, n, Encode(sh, t.left, below).value, Encode(sh, t.right, below).value);
  }

  lemma {:induction false} ForkExtraIsBare<E(!new)>(sh: Shape<E>, left: Cell, right: Cell, below: nat)
    requires ForksBare(sh) && ForkExtra(sh, left, right, below).Ok?
    ensures Bare(sh, ForkExtra(sh, left, right, below).value)
  {
    hide ExtraOf;
  }

  /** Where combined summaries write no reference, a fork's two references are its children. */
  lemma {:induction false} EncodedForkRefs<E(!new)>(sh: Shape<E>, t: Tree<E>, n: nat)
    requires ForksBare(sh) && WellFormed(t, n) && t.Fork? && Encode(sh, t, n).Ok?
    ensures var c, below := Encode(sh, t, n).value, n - |t.edge| - 1;
      && |c.refs| == 2
      && Encode(sh, t.left, below) == Ok(c.refs[0])
      && Encode(sh, t.right, below) == Ok(c.refs[1])
      && ForkCell(sh, t.edge, n, c.refs[0], c.refs[1]) == Ok(c)
  {
    hide Encode, ForkExtra, ForkCell, WriteExtra, ForksBare;
    EncodedFork(sh, t, n);
    var below := n - |t.edge| - 1;
    ForkExtraIsBare(sh, Encode(sh, t.left, below).value, Encode(sh, t.right, below).value, below);
  }

  lemma {:induction false} EncodedForkChecks<E(!new)>(sh: Shape<E>, t: Tree<E>, n: nat)
    requires Lawful(sh) && WellFormed(t, n) && t.Fork? && Encode(sh, t, n).Ok?
    ensures CheckFork(sh, Payload(Body(sh, t, n), Encode(sh, t, n).value.refs)).Ok?
  {
    hide Encode, WriteExtra, ForkExtra, ForkCell, ReadExtra, Lawful;
    EncodedFork(sh, t, n);
    var below := n - |t.edge| - 1;
    var left, right := Encode(sh, t.left, below).value, Encode(sh, t.right, below).value;
    var extra := ForkExtra(sh, left, right, below).value;
    assert Body(sh, t, n) + [] == Body(sh, t, n);
    ExtraReadsBack(sh, extra, Payload([], [left, right]));
  }

  // ---------------------------------------------------------------- looking up

  /** A leaf's cell with the position past its label and summary. */
  datatype DictEntry = DictEntry(cell: Cell, offset: nat) {
    predicate Valid() { offset <= |cell.bits| }

    /** The value, as a reader opening the cell at that position meets it. */
    function Contents(): Payload
      requires Valid()
    {
      Payload(cell.bits[offset..], cell.refs)
    }
  }

  type Answer<E> = Lookup<(E, DictEntry)>

  /** Lookup as a recursion on the key; `LookupRefines` ties it to `Get`. */
  function LookupFrom<E>(sh: Shape<E>, node: Cell, bits: Bits): (r: Result<Answer<E>>)
    decreases |bits|
  {
    if node.IsExotic() then Ok(Withheld)
    else
      var (edge, s) :- ReadEdge(sh, node.bits, |bits|);
      if Diverges(edge, bits).Some? then Ok(Absent)
      else if |edge| == |bits| then
        var (extra, value) :- ReadExtra(sh, Payload(s, node.refs));
        Ok(Found((extra, DictEntry(node, |node.bits| - |value.bits|))))
      else
        var branch := Bit(bits[|edge|]);
        if branch >= |node.refs| then Err(Malformed)
        else LookupFrom(sh, node.refs[branch], bits[|edge| + 1..])
  }

  /** Computes `LookupFrom` by iteration, for cells that need not encode any tree. */
  method FindLeaf<E>(sh: Shape<E>, root: Option<Cell>, bits: Bits) returns (r: Result<Answer<E>>)
    ensures r == match root case None => Ok(Absent) case Some(cell) => LookupFrom(sh, cell, bits)
  {
    hide FirstGap, ReadEdge, ReadExtra;
    if root.None? { return Ok(Absent); }
    var node := root.value;
    var remaining: nat, consumed: nat := |bits|, 0;
    while true
      invariant consumed + remaining == |bits|
      invariant LookupFrom(sh, root.value, bits) == LookupFrom(sh, node, bits[consumed..])
      decreases remaining
    {
      if node.IsExotic() { return Ok(Withheld); }
      var read := ReadEdge(sh, node.bits, remaining);
      if read.Err? { return Err(read.error); }
      var (edge, s) := read.value;
      var ahead := bits[consumed..];
      if Diverges(edge, ahead).Some? { return Ok(Absent); }
      consumed, remaining := consumed + |edge|, remaining - |edge|;
      if remaining == 0 {
        var extra := ReadExtra(sh, Payload(s, node.refs));
        if extra.Err? { return Err(extra.error); }
        var value := extra.value.1;
        return Ok(Found((extra.value.0, DictEntry(node, |node.bits| - |value.bits|))));
      }
      var branch := Bit(bits[consumed]);
      assert ahead[|edge|] == bits[consumed] && ahead[|edge| + 1..] == bits[consumed + 1..];
      consumed, remaining := consumed + 1, remaining - 1;
      if branch >= |node.refs| { return Err(Malformed); }
      node := node.refs[branch];
    }
  }

  /** What the cells answer is what the tree answers, with the leaf's own value. */
  ghost predicate Answers<E>(r: Result<Answer<E>>, want: Lookup<Entry<E>>) {
    match want
    case Withheld => r == Ok(Withheld)
    case Absent => r == Ok(Absent)
    case Found(entry) =>
      && r.Ok? && r.value.Found?
      && r.value.value.0 == entry.extra
      && r.value.value.1.Valid() && r.value.value.1.Contents() == entry.value
  }

  /**
    What a found entry opens on: the position is kept in bits alone, so the references of the
    summary are still ahead of the value's.
   */
  function Opens<E>(sh: Shape<E>, entry: Entry<E>): Payload {
    Payload(entry.value.bits, WriteExtra(sh, entry.extra).refs + entry.value.refs)
  }

  /** Where a lookup that meets this leaf lands, whatever its summary writes. */
  ghost predicate Lands<E>(sh: Shape<E>, r: Result<Answer<E>>, want: Lookup<Entry<E>>) {
    match want
    case Found(entry) =>
      && r.Ok? && r.value.Found?
      && r.value.value.0 == entry.extra
      && r.value.value.1.Valid() && r.value.value.1.Contents() == Opens(sh, entry)
    case _ => Answers(r, want)
  }

  /** Landing on a leaf is answering with its value exactly when the leaf's summary writes no reference. */
  lemma {:induction false} LandedAnswers<E>(sh: Shape<E>, r: Result<Answer<E>>, want: Lookup<Entry<E>>)
    requires Lands(sh, r, want)
    ensures Answers(r, want) <==> (want.Found? ==> Bare(sh, want.value.extra))
  {
    hide WriteExtra;
    if want.Found? {
      var w := WriteExtra(sh, want.value.extra).refs;
      assert w == [] ==> w + want.value.value.refs == want.value.value.refs;
      assert |w + want.value.value.refs| == |w| + |want.value.value.refs|;
    }
  }

  lemma {:induction false} LeafLands<E(!new)>(sh: Shape<E>, t: Tree<E>, bits: Bits)
    requires Lawful(sh) && t.Leaf? && WellFormed(t, |bits|) && Encode(sh, t, |bits|).Ok?
    ensures Lands(sh, LookupFrom(sh, Encode(sh, t, |bits|).value, bits), Get(t, bits))
  {
    hide Encode, Body, ReadExtra, WriteExtra, ReadEdge, FirstGap;
    EncodedReads(sh, t, |bits|);
    EncodedLeaf(sh, t, |bits|);
    if Diverges(t.edge, bits).None? {
      var c := Encode(sh, t, |bits|).value;
      ExtraReadsBack(sh, t.extra, t.value);
      assert c.bits[|c.bits| - |t.value.bits|..] == t.value.bits;
    }
  }

  /** A leaf, written and looked up, gives its value back if and only if its summary writes no reference. */
  lemma {:induction false} LeafReadsBack<E(!new)>(sh: Shape<E>, key: Bits, entry: Entry<E>)
    requires Lawful(sh) && LeafCell(sh, key, entry, |key|).Ok?
    ensures Answers(LookupFrom(sh, LeafCell(sh, key, entry, |key|).value, key), Found(entry)) <==> Bare(sh, entry.extra)
  {
    hide LookupFrom, LeafCell;
    var t := Leaf(key, entry.extra, entry.value);
    LeafLands(sh, t, key);
    LandedAnswers(sh, LookupFrom(sh, LeafCell(sh, key, entry, |key|).value, key), Found(entry));
  }

  lemma {:induction false} LookupStep<E>(sh: Shape<E>, node: Cell, bits: Bits, edge: Bits, s: Bits)
    requires !node.IsExotic() && ReadEdge(sh, node.bits, |bits|) == Ok((edge, s))
    requires Diverges(edge, bits).None? && |edge| < |bits| && |node.refs| >= 2
    ensures LookupFrom(sh, node, bits) == LookupFrom(sh, node.refs[Bit(bits[|edge|])], bits[|edge| + 1..])
  {
  }

  /**
    Of any fork written, whatever its summary: the lookup goes on in the cell's first or second
    reference, and those are the first two of the summary's references and the children.
   */
  lemma {:induction false} ForkGoesOn<E>(sh: Shape<E>, t: Tree<E>, bits: Bits)
    requires Exact(sh.labels) && t.Fork? && WellFormed(t, |bits|) && Encode(sh, t, |bits|).Ok?
    requires Diverges(t.edge, bits).None?
    ensures var c, below := Encode(sh, t, |bits|).value, |bits| - |t.edge| - 1;
      && Encode(sh, t.left, below).Ok? && Encode(sh, t.right, below).Ok?
      && var left, right := Encode(sh, t.left, below).value, Encode(sh, t.right, below).value;
         && ForkExtra(sh, left, right, below).Ok?
         && var refs := WriteExtra(sh, ForkExtra(sh, left, right, below).value).refs + [left, right];
            LookupFrom(sh, c, bits) == LookupFrom(sh, refs[Bit(bits[|t.edge|])], bits[|t.edge| + 1..])
  {
    hide Encode, LookupFrom, FirstGap, ReadEdge, ForkCell, ForkExtra, WriteExtra;
    EncodedReads(sh, t, |bits|);
    EncodedFork(sh, t, |bits|);
    LookupStep(sh, Encode(sh, t, |bits|).value, bits, t.edge, Body(sh, t, |bits|));
  }

  lemma {:induction false} ForkAnswers<E(!new)>(sh: Shape<E>, t: Tree<E>, bits: Bits)
    requires Exact(sh.labels) && ForksBare(sh) && t.Fork? && WellFormed(t, |bits|) && Encode(sh, t, |bits|).Ok?
      && Diverges(t.edge, bits).None?
    ensures var child, rest := Child(t, bits[|t.edge|]), bits[|t.edge| + 1..];
      && Encode(sh, child, |rest|).Ok?
      && Get(t, bits) == Get(child, rest)
      && LookupFrom(sh, Encode(sh, t, |bits|).value, bits) == LookupFrom(sh, Encode(sh, child, |rest|).value, rest)
  {
    hide Encode, LookupFrom, FirstGap, ReadEdge, ForkCell, ForkExtra, ForksBare;
    EncodedReads(sh, t, |bits|);
    EncodedForkRefs(sh, t, |bits|);
    LookupStep(sh, Encode(sh, t, |bits|).value, bits, t.edge, Body(sh, t, |bits|));
  }

  lemma {:induction false} LookupRefines<E(!new)>(sh: Shape<E>, t: Tree<E>, bits: Bits)
    requires Lawful(sh) && ForksBare(sh) && WellFormed(t, |bits|) && Encode(sh, t, |bits|).Ok?
    ensures Lands(sh, LookupFrom(sh, Encode(sh, t, |bits|).value, bits), Get(t, bits))
    decreases t
  {
    hide FirstGap, ForkCell, LeafCell, WriteExtra, ForksBare;
    if t.Leaf? {
      LeafLands(sh, t, bits);
    } else if t.Fork? {
      if Diverges(t.edge, bits).None? {
        ForkAnswers(sh, t, bits);
        LookupRefines(sh, Child(t, bits[|t.edge|]), bits[|t.edge| + 1..]);
      } else {
        EncodedReads(sh, t, |bits|);
      }
    }
  }
}

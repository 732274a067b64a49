module DictCarried {
  // Summaries that carry references, as a currency collection with extra currencies does. They are
  // written ahead of a leaf's value and of a fork's children, and the readers count references from
  // the start of the cell: what that costs, and exactly when it costs nothing.

  import opened Basics
  import opened Cells
  import opened DictTree
  import opened DictCells
  import opened DictWrites
  import opened DictRefines
  import opened Dicts
  import opened DictHistories
  import opened DictAug
  import Labels

  // ---------------------------------------------------------------- forks

  /** These references, though a summary's, happen to be the children the readers look for. */
  predicate Coincide(refs: seq<Cell>, left: Cell, right: Cell) {
    refs != [] && refs[0] == left && if |refs| == 1 then left == right else refs[1] == right
  }

  /**
    Of every fork that is written: its first two references, which every reader takes for the
    children, are the children exactly when its summary writes no reference, or writes those very
    cells.
   */
  lemma {:induction false} ForkShowsChildren<E>(sh: Shape<E>, t: Tree<E>, n: nat)
    requires WellFormed(t, n) && t.Fork? && Encode(sh, t, n).Ok?
    ensures var c, below := Encode(sh, t, n).value, n - |t.edge| - 1;
      && Encode(sh, t.left, below).Ok? && Encode(sh, t.right, below).Ok? && |c.refs| >= 2
      && var left, right := Encode(sh, t.left, below).value, Encode(sh, t.right, below).value;
         && ForkExtra(sh, left, right, below).Ok?
         && var refs := WriteExtra(sh, ForkExtra(sh, left, right, below).value).refs;
            c.refs[..2] == [left, right] <==> refs == [] || Coincide(refs, left, right)
  {
    hide Encode, ForkExtra, ForkCell, WriteExtra;
    EncodedFork(sh, t, n);
    var c, below := Encode(sh, t, n).value, n - |t.edge| - 1;
    var left, right := Encode(sh, t.left, below).value, Encode(sh, t.right, below).value;
    FirstTwo(WriteExtra(sh, ForkExtra(sh, left, right, below).value).refs, left, right);
  }

  lemma {:induction false} FirstTwo(refs: seq<Cell>, left: Cell, right: Cell)
    ensures (refs + [left, right])[..2] == [left, right] <==> refs == [] || Coincide(refs, left, right)
  {
    var all := refs + [left, right];
    assert all[..2] == [all[0], all[1]];
  }

  // ---------------------------------------------------------------- a collection's reference

  type Other = Option<Cell>

  /** An optional reference behind a bit, as the extra currencies of a collection are written. */
  function WriteOther(other: Other): Payload {
    if other.Some? then Payload([true], [other.value]) else Payload([false], [])
  }

  function ReadOther(s: Payload): Result<(Other, nat, nat)> {
    if s.bits == [] then Err(NotEnoughBits)
    else if !s.bits[0] then Ok((None, 1, 0))
    else if s.refs == [] then Err(NotEnoughRefs)
    else Ok((Some(s.refs[0]), 1, 1))
  }

  /** A combine that refuses to add extra currencies. */
  function NoneOrRefused(a: Other, b: Other): Result<Other> {
    if a.None? && b.None? then Ok(None) else Err(Malformed)
  }

  /** A combine that keeps the first. */
  function KeepFirst(a: Other, b: Other): Result<Other> { Ok(a) }

  const REFUSING: Shape<Other> := Shape(TON_LABELS, Aug(ReadOther, WriteOther, NoneOrRefused))
  const KEEPING: Shape<Other> := Shape(TON_LABELS, Aug(ReadOther, WriteOther, KeepFirst))

  lemma {:induction false} OtherReadsBack(other: Other, rest: Payload)
    ensures ReadOther(Behind(WriteOther(other), rest))
      == Ok((other, |WriteOther(other).bits|, |WriteOther(other).refs|))
  {}

  lemma {:induction false} BothAreLawful()
    ensures Lawful(REFUSING) && ForksBare(REFUSING)
    ensures Lawful(KEEPING) && !ForksBare(KEEPING)
  {
    TonLabelsExact();
    forall other: Other, rest: Payload { OtherReadsBack(other, rest); }
    var some: Other := Some(BLANK);
    assert KEEPING.extras.combine(some, some) == Ok(some) && !Bare(KEEPING, some);
  }

  // ---------------------------------------------------------------- one entry

  const BLANK := Cell(Ordinary, [], [], NO_LEVELS)
  const NOTE := Cell(Ordinary, [true], [], NO_LEVELS)

  lemma {:induction false} EmptyEdgeIsShort(max: nat)
    ensures |Labels.Encode([], max)| <= 2
  {
    hide Labels.Encode, Labels.Read;
    Labels.EveryFormReadsBack([], max, []);
    var short := Labels.ShortForm([]);
    assert short + [] == short;
    Labels.EncodeIsShortest(short, max);
  }

  /**
    One entry with extra currencies and a value that is a reference, stored and looked up: the
    entry found opens on the currencies' reference, and the value's comes after it.
   */
  lemma {:induction false} EntryOpensOnItsSummary()
    ensures var entry := Entry(Some(BLANK), Payload([], [NOTE]));
      var stored := StoreAt(REFUSING, None, [], entry);
      && stored.Ok?
      && var found := LookupAt(REFUSING, Some(stored.value), []);
         && found.Ok? && found.value.Found? && found.value.value.1.Valid()
         && found.value.value.1.Contents() == Payload([], [BLANK, NOTE]) != entry.value
  {
    hide LookupFrom;
    var entry := Entry(Some(BLANK), Payload([], [NOTE]));
    BothAreLawful();
    EmptyEdgeIsShort(0);
    LeafLands(REFUSING, Leaf([], entry.extra, entry.value), []);
  }

  // ---------------------------------------------------------------- two entries

  function Side(bit: bool): Entry<Other> { Entry(Some(BLANK), Payload([bit], [])) }

  function Pair(): Tree<Other> {
    Fork([], Leaf([], Side(false).extra, Side(false).value), Leaf([], Side(true).extra, Side(true).value))
  }

  function PairWrites(): seq<Write<Other>> { [Keep([false], Side(false)), Keep([true], Side(true))] }

  function SideCell(bit: bool): Cell
    requires LeafCell(KEEPING, [], Side(bit), 0).Ok?
  {
    LeafCell(KEEPING, [], Side(bit), 0).value
  }

  lemma {:induction false} SidesFit(bit: bool)
    ensures LeafCell(KEEPING, [], Side(bit), 0).Ok?
    ensures LeafCell(KEEPING, [bit], Side(bit), 1).Ok?
    ensures ExtraOf(KEEPING, SideCell(bit), 0) == Ok(Some(BLANK)) && !SideCell(bit).IsExotic()
  {
    hide ReadEdge, ReadExtra, Labels.Encode, Labels.Read;
    EmptyEdgeIsShort(0);
    OneBitIsShort(bit);
    BothAreLawful();
    StoredSummary(KEEPING, Leaf([], Side(bit).extra, Side(bit).value), 0);
  }

  lemma {:induction false} OneBitIsShort(bit: bool)
    ensures |Labels.Encode([bit], 1)| <= 4
  {
    hide Labels.Encode, Labels.Read;
    Labels.EveryFormReadsBack([bit], 1, []);
    var short := Labels.ShortForm([bit]);
    assert short + [] == short;
    Labels.EncodeIsShortest(short, 1);
  }

  /** The two entries' cell: the summary's reference first, and the children behind it. */
  lemma {:induction false} PairCell()
    ensures LeafCell(KEEPING, [], Side(false), 0).Ok? && LeafCell(KEEPING, [], Side(true), 0).Ok?
    ensures WellFormed(Pair(), 1) && Encode(KEEPING, Pair(), 1).Ok?
    ensures Encode(KEEPING, Pair(), 1).value.refs == [BLANK, SideCell(false), SideCell(true)]
  {
    hide LeafCell, ExtraOf, Labels.Encode, Labels.Read;
    SidesFit(false);
    SidesFit(true);
    EmptyEdgeIsShort(1);
  }

  /** Two stores reach that cell: the second splits the first's leaf, and no fork is read on the way. */
  lemma {:induction false} PairIsWritten()
    ensures WellFormed(Pair(), 1) && Encode(KEEPING, Pair(), 1).Ok?
    ensures Outcome(KEEPING, PairWrites()) == Ok(Some(Encode(KEEPING, Pair(), 1).value))
  {
    hide LeafCell, ExtraOf, StoreFrom, Encode;
    PairCell();
    SidesFit(false);
    BothAreLawful();
    var writes, first := PairWrites(), Leaf([false], Side(false).extra, Side(false).value);
    assert writes[..1] == [Keep([false], Side(false))] && writes[..1][..0] == [];
    LeafEncoded(KEEPING, first, 1);
    SplitIsPair(first);
    StoreHere(KEEPING, first, [true], Side(true));
    var root := Some(LeafCell(KEEPING, [false], Side(false), 1).value);
    assert Outcome(KEEPING, writes[..1]) == Ok(root) by {
      assert Outcome(KEEPING, writes[..1][..0]) == Ok(None);
      assert StoreAt(KEEPING, None, [false], Side(false)) == LeafCell(KEEPING, [false], Side(false), 1);
    }
    assert StoreAt(KEEPING, root, [true], Side(true)) == Encode(KEEPING, Pair(), 1);
  }

  lemma {:induction false} SplitIsPair(first: Tree<Other>)
    requires first == Leaf([false], Side(false).extra, Side(false).value)
    ensures Diverges(first.edge, [true]) == Some(0)
    ensures Insert(first, [true], Side(true).extra, Side(true).value) == Ok(Pair())
  {
    assert [false][..0] == [] && [false][1..] == [] && [true][1..] == [];
  }

  /**
    What becomes of them: one key is not found but refused, the other answers with the first
    one's value, and the check refuses the tree its own writers left.
   */
  lemma {:induction false} PairIsMisread()
    ensures Outcome(KEEPING, PairWrites()).Ok? && Outcome(KEEPING, PairWrites()).value.Some?
    ensures var root := Outcome(KEEPING, PairWrites()).value.value;
      && LookupFrom(KEEPING, root, [false]).Err?
      && Lands(KEEPING, LookupFrom(KEEPING, root, [true]), Found(Side(false)))
      && ValidateNode(KEEPING, root, 1).Err?
      && CollectForks(KEEPING, root, 1, []).Err?
  {
    hide LeafCell, Encode, LookupFrom, ReadEdge, ReadExtra, ExtraOf, Outcome, ForkCell, Lands;
    PairIsWritten();
    PairCell();
    BothAreLawful();
    var root := Encode(KEEPING, Pair(), 1).value;
    EncodedReads(KEEPING, Pair(), 1);
    BlankIsNoNode();
    assert Diverges([], [false]).None? && Diverges([], [true]).None?;
    assert [false][1..] == [] && [true][1..] == [];
    LookupStep(KEEPING, root, [false], [], Body(KEEPING, Pair(), 1));
    LookupStep(KEEPING, root, [true], [], Body(KEEPING, Pair(), 1));
    LeftLands();
    SidesFit(false);
  }

  lemma {:induction false} BlankIsNoNode()
    ensures ReadEdge(KEEPING, BLANK.bits, 0).Err? && LookupFrom(KEEPING, BLANK, []).Err?
      && ExtraOf(KEEPING, BLANK, 0).Err?
  {}

  lemma {:induction false} LeftLands()
    ensures LeafCell(KEEPING, [], Side(false), 0).Ok?
    ensures Lands(KEEPING, LookupFrom(KEEPING, SideCell(false), []), Found(Side(false)))
  {
    hide LookupFrom, LeafCell, ExtraOf, Lands;
    SidesFit(false);
    BothAreLawful();
    LeafLands(KEEPING, Leaf([], Side(false).extra, Side(false).value), []);
  }
}

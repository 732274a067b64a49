module States {
  // States and blocks laid out from the ground up: a shard tree, the masterchain state that
  // records it, a state's accounts, a block's parts. Each reader is held to the layout: it finds
  // the part that was put there, under the account's own address bits.

  import opened Basics
  import opened Cells
  import opened Packing
  import opened Hashing
  import opened Merkle
  import opened DictTree
  import opened DictMap
  import opened DictCells
  import opened Dicts
  import opened DictHistories
  import opened Reads
  import opened BlockReads
  import opened Layouts

  // ---------------------------------------------------------------- the shard tree

  /** A workchain's shards: one, or two halves of the addresses split again. */
  datatype ShardTree =
    | Shard(fields: ShardFields, rest: Bits, refs: seq<Cell>)
    | Halves(low: ShardTree, high: ShardTree)

  predicate TreeFit(t: ShardTree) {
    match t
    case Shard(fields, _, _) => ShardFit(fields)
    case Halves(low, high) => TreeFit(low) && TreeFit(high)
  }

  function TreeCell(t: ShardTree): Cell {
    match t
    case Shard(fields, rest, refs) => Cell(Ordinary, [false] + (ShardBits(fields) + rest), refs, UnionOfMasks(refs))
    case Halves(low, high) =>
      var halves := [TreeCell(low), TreeCell(high)];
      Cell(Ordinary, [true], halves, UnionOfMasks(halves))
  }

  /** Every shard with the address prefix it covers: a half's shards begin with the half's bit. */
  function Shards(t: ShardTree, prefix: Bits): (r: seq<(Bits, ShardFields)>) {
    match t
    case Shard(fields, _, _) => [(prefix, fields)]
    case Halves(low, high) => Shards(low, prefix + [false]) + Shards(high, prefix + [true])
  }

  /** How far the deepest shard is split. */
  function Splits(t: ShardTree): nat {
    match t
    case Shard(_, _, _) => 0
    case Halves(low, high) => 1 + if Splits(low) > Splits(high) then Splits(low) else Splits(high)
  }

  lemma {:induction false} ShardsExtend(t: ShardTree, prefix: Bits)
    ensures forall i :: 0 <= i < |Shards(t, prefix)| ==> prefix <= Shards(t, prefix)[i].0
    ensures forall i :: 0 <= i < |Shards(t, prefix)| ==> |Shards(t, prefix)[i].0| <= |prefix| + Splits(t)
  {
    if t.Halves? {
      ShardsExtend(t.low, prefix + [false]);
      ShardsExtend(t.high, prefix + [true]);
      assert prefix <= prefix + [false] && prefix <= prefix + [true];
    }
  }

  lemma {:induction false} TreeCellReads(t: ShardTree)
    requires TreeFit(t)
    ensures !TreeCell(t).IsExotic()
    ensures t.Shard? ==>
      && LoadBits(Parse(TreeCell(t)), 1).Ok? && LoadBits(Parse(TreeCell(t)), 1).value.0 == [false]
      && LoadShardDescr(LoadBits(Parse(TreeCell(t)), 1).value.1) == Ok(ShardDescr(t.fields.seqno, t.fields.rootHash))
    ensures t.Halves? ==>
      && LoadBits(Parse(TreeCell(t)), 1).Ok? && LoadBits(Parse(TreeCell(t)), 1).value.0 == [true]
      && TreeCell(t).refs == [TreeCell(t.low), TreeCell(t.high)]
  {
    hide LoadBits, LoadShardDescr, ShardBits, TreeFit;
    if t.Shard? {
      OneBit(false, ShardBits(t.fields) + t.rest, t.refs);
      FitOf(t);
      ShardReadsBack(t.fields, t.rest, t.refs);
    } else {
      OneBit(true, [], TreeCell(t).refs);
      assert [true] + [] == [true];
    }
  }

  lemma {:induction false} FitOf(t: ShardTree)
    requires TreeFit(t)
    ensures t.Shard? ==> ShardFit(t.fields)
    ensures t.Halves? ==> TreeFit(t.low) && TreeFit(t.high)
  {}

  lemma {:induction false} WalkFrom(t: ShardTree, id: seq<byte>, prefix: Bits, i: nat)
    requires TreeFit(t) && i < |Shards(t, prefix)| && Shards(t, prefix)[i].0 <= Unpack(id)
    ensures var (path, f) := Shards(t, prefix)[i];
      ShardFrom(TreeCell(t), id, |prefix|) ==
        if |path| <= MAX_SPLIT_DEPTH then Ok(Found(ShardDescr(f.seqno, f.rootHash))) else Err(Malformed)
    decreases t
  {
    hide LoadShardDescr, KeyBit, Unpack, TreeFit, TreeCell, LoadBits;
    TreeCellReads(t);
    FitOf(t);
    ShardsExtend(t, prefix);
    if t.Halves? {
      var cut := |Shards(t.low, prefix + [false])|;
      var bit := i >= cut;
      var half, at := if bit then t.high else t.low, if bit then i - cut else i;
      ShardsExtend(half, prefix + [bit]);
      var path := Shards(t, prefix)[i].0;
      assert path == Shards(half, prefix + [bit])[at].0;
      assert prefix + [bit] <= path <= Unpack(id);
      assert (prefix + [bit])[|prefix|] == bit;
      KeyBits(id, |path|);
      if |prefix| <= MAX_SPLIT_DEPTH { WalkFrom(half, id, prefix + [bit], at); }
    }
  }

  /**
    The walk takes the half each address bit names: of a tree laid out, it gives the record of the
    shard whose prefix the account's address begins with, and refuses one split past the limit.
   */
  lemma {:induction false} ShardOfAccount(t: ShardTree, id: seq<byte>, i: nat)
    requires TreeFit(t) && i < |Shards(t, [])| && Shards(t, [])[i].0 <= Unpack(id)
    ensures var (path, f) := Shards(t, [])[i];
      ShardFrom(TreeCell(t), id, 0) ==
        if |path| <= 60 then Ok(Found(ShardDescr(f.seqno, f.rootHash))) else Err(Malformed)
  {
    hide ShardFrom, TreeCell, Shards, Unpack;
    WalkFrom(t, id, [], i);
  }

  lemma {:induction false} CoverFrom(t: ShardTree, bits: Bits, prefix: Bits) returns (i: nat)
    requires prefix <= bits && |prefix| + Splits(t) <= |bits|
    ensures i < |Shards(t, prefix)| && Shards(t, prefix)[i].0 <= bits
    ensures forall j :: 0 <= j < |Shards(t, prefix)| && Shards(t, prefix)[j].0 <= bits ==> j == i
    decreases t
  {
    if t.Shard? { return 0; }
    var bit := bits[|prefix|];
    var low: seq<(Bits, ShardFields)>, high: seq<(Bits, ShardFields)> :=
      Shards(t.low, prefix + [false]), Shards(t.high, prefix + [true]);
    assert prefix + [bit] <= bits;
    i := CoverFrom(if bit then t.high else t.low, bits, prefix + [bit]);
    ShardsExtend(if bit then t.low else t.high, prefix + [!bit]);
    forall j | 0 <= j < |low + high| && (low + high)[j].0 <= bits
      ensures j == if bit then |low| + i else i
    {
      var other := if bit then low else high;
      assert forall k :: 0 <= k < |other| ==> (prefix + [!bit])[|prefix|] == other[k].0[|prefix|];
    }
    i := if bit then |low| + i else i;
  }

  /** The shards share the addresses out: every address is under exactly one. */
  lemma {:induction false} OneShardEach(t: ShardTree, id: seq<byte>) returns (i: nat)
    requires Splits(t) <= 8 * |id|
    ensures i < |Shards(t, [])| && Shards(t, [])[i].0 <= Unpack(id)
    ensures forall j :: 0 <= j < |Shards(t, [])| && Shards(t, [])[j].0 <= Unpack(id) ==> j == i
  {
    i := CoverFrom(t, Unpack(id), []);
  }

  // ---------------------------------------------------------------- a state

  /** A state's references: outgoing messages, accounts, totals, and a masterchain state's extra. */
  datatype StateParts = StateParts(fields: StateFields, rest: Bits, queue: Cell, accounts: Cell, totals: Cell,
      custom: Option<Cell>)

  function StateCell(p: StateParts): Cell {
    var refs := [p.queue, p.accounts, p.totals] + MaybeRefs(p.custom);
    Cell(Ordinary, StateBits(p.fields) + p.rest, refs, UnionOfMasks(refs))
  }

  predicate PartsFit(p: StateParts) { StateFit(p.fields) && p.fields.custom == p.custom.Some? }

  /** A masterchain state's extra, up to its dictionary of workchains. */
  function ExtraCell(workchains: Option<Cell>, rest: Bits, refs: seq<Cell>): Cell {
    var all := MaybeRefs(workchains) + refs;
    Cell(Ordinary, ToBits(MC_STATE_EXTRA_TAG, 16) + (MaybeBit(workchains) + rest), all, UnionOfMasks(all))
  }

  /** A workchain is looked up by its number, negative ones included. */
  lemma {:induction false} WorkchainKeyReads(workchain: int)
    requires -0x8000_0000 <= workchain < 0x8000_0000
    ensures |WorkchainKey(workchain)| == 32 && Signed32(Value(WorkchainKey(workchain))) == workchain
  {
    PowersOfTwo();
    ValueOfBits(workchain % 0x1_0000_0000, 32);
  }

  lemma {:induction false} ExtraIsFound(p: StateParts)
    requires PartsFit(p)
    requires p.custom.Some? ==>
      !p.custom.value.IsExotic() && CheckTag(p.custom.value, 16, MC_STATE_EXTRA_TAG) == Ok(())
    ensures MasterchainExtra(StateCell(p)) == Ok(if p.custom.Some? then Found(p.custom.value) else Absent)
  {
    hide HasExtra, CheckTag, StateBits;
    var refs := [p.queue, p.accounts, p.totals] + MaybeRefs(p.custom);
    StateReadsBack(p.fields, p.rest, refs, UnionOfMasks(refs));
  }

  lemma {:induction false} ExtraCellReads(workchains: Option<Cell>, rest: Bits, refs: seq<Cell>, workchain: int,
      id: seq<byte>)
    ensures var cell := ExtraCell(workchains, rest, refs);
      && CheckTag(cell, 16, MC_STATE_EXTRA_TAG) == Ok(())
      && ShardFor(cell, workchain, id) ==
         if workchains.None? then Ok(Absent) else ShardUnder(workchains.value, WorkchainKey(workchain), id)
  {
    hide LoadBits, ToBits, Pow2, Value, LoadMaybeRef, ShardUnder;
    PowersOfTwo();
    LoadField(MC_STATE_EXTRA_TAG, 16, MaybeBit(workchains) + rest, MaybeRefs(workchains) + refs);
    LoadMaybe(workchains, rest, refs);
  }

  /** A dictionary entry of a workchain: the tree behind a reference. */
  lemma {:induction false} ShardUnderHolds(root: Cell, m: Content<()>, key: Bits, id: seq<byte>)
    requires Holds(PLAIN, Some(root), m, |key|)
    ensures key !in m ==> ShardUnder(root, key, id) == Ok(Absent)
    ensures key in m && m[key].value.refs != [] ==> ShardUnder(root, key, id) == ShardFrom(m[key].value.refs[0], id, 0)
  {
    hide Holds, LookupFrom, Lawful, ShardFrom;
    PlainIsLawful();
    HoldsAnswers(PLAIN, Some(root), m, key);
  }

  /**
    From the tree up: a masterchain state whose extra holds this shard tree under the workchain
    records, for any account, the shard its address falls under.
   */
  lemma {:induction false} StateRecordsItsShards(p: StateParts, root: Cell, rest: Bits, refs: seq<Cell>,
      m: Content<()>, workchain: int, t: ShardTree, id: seq<byte>, i: nat)
    requires PartsFit(p) && p.custom == Some(ExtraCell(Some(root), rest, refs)) && Holds(PLAIN, Some(root), m, 32)
    requires WorkchainKey(workchain) in m && m[WorkchainKey(workchain)].value.refs != []
      && m[WorkchainKey(workchain)].value.refs[0] == TreeCell(t)
    requires TreeFit(t) && i < |Shards(t, [])| && Shards(t, [])[i].0 <= Unpack(id) && |Shards(t, [])[i].0| <= 60
    ensures var f := Shards(t, [])[i].1;
      RecordedShard(StateCell(p), workchain, id) == Ok(Found(ShardDescr(f.seqno, f.rootHash)))
  {
    hide MasterchainExtra, ShardFor, ShardUnder, Holds, ShardFrom, TreeCell, Shards, Unpack, ToBits, StateCell,
      CheckTag, TreeFit;
    ExtraCellReads(Some(root), rest, refs, workchain, id);
    ExtraIsFound(p);
    ShardUnderHolds(root, m, WorkchainKey(workchain), id);
    ShardOfAccount(t, id, i);
  }

  /** And a workchain it does not list, or a state with no extra, records none. */
  lemma {:induction false} StateRecordsNoOther(p: StateParts, root: Option<Cell>, rest: Bits, refs: seq<Cell>,
      m: Content<()>, workchain: int, id: seq<byte>)
    requires PartsFit(p) && (p.custom == None || p.custom == Some(ExtraCell(root, rest, refs)))
    requires root.Some? ==> Holds(PLAIN, root, m, 32) && WorkchainKey(workchain) !in m
    ensures RecordedShard(StateCell(p), workchain, id) == Ok(Absent)
  {
    hide MasterchainExtra, ShardFor, ShardUnder, Holds, ToBits, StateCell, CheckTag;
    ExtraCellReads(root, rest, refs, workchain, id);
    ExtraIsFound(p);
    if root.Some? { ShardUnderHolds(root.value, m, WorkchainKey(workchain), id); }
  }

  // ---------------------------------------------------------------- accounts

  /** What a plain reader meets at an entry of any dictionary: the summary, and then the value. */
  ghost predicate LandsWhole<E>(sh: Shape<E>, r: Result<Answer<()>>, want: Lookup<Entry<E>>) {
    match want
    case Withheld => r == Ok(Withheld)
    case Absent => r == Ok(Absent)
    case Found(entry) =>
      && r.Ok? && r.value.Found? && r.value.value.1.Valid()
      && r.value.value.1.Contents() == Behind(WriteExtra(sh, entry.extra), entry.value)
  }

  lemma {:induction false} PlainLeaf<E>(sh: Shape<E>, t: Tree<E>, bits: Bits)
    requires sh.labels == TON_LABELS && t.Leaf? && WellFormed(t, |bits|) && Encode(sh, t, |bits|).Ok?
    ensures LandsWhole(sh, LookupFrom(PLAIN, Encode(sh, t, |bits|).value, bits), Get(t, bits))
  {
    hide Encode, Body, WriteExtra, FirstGap, Exact;
    TonLabelsExact();
    EncodedReads(sh, t, |bits|);
    EncodedLeaf(sh, t, |bits|);
    var c, body := Encode(sh, t, |bits|).value, Body(sh, t, |bits|);
    assert ReadEdge(PLAIN, c.bits, |bits|) == ReadEdge(sh, c.bits, |bits|);
    assert c.bits[|c.bits| - |body|..] == body;
  }

  lemma {:induction false} SameEdges<E>(sh: Shape<E>)
    requires sh.labels == TON_LABELS
    ensures forall s: Bits, max: nat :: ReadEdge(PLAIN, s, max) == ReadEdge(sh, s, max)
  {}

  lemma {:induction false} PlainFork<E(!new)>(sh: Shape<E>, t: Tree<E>, bits: Bits)
    requires sh.labels == TON_LABELS && ForksBare(sh) && t.Fork? && WellFormed(t, |bits|) && Encode(sh, t, |bits|).Ok?
    ensures Diverges(t.edge, bits).Some? ==> LookupFrom(PLAIN, Encode(sh, t, |bits|).value, bits) == Ok(Absent)
    ensures Diverges(t.edge, bits).None? ==>
      var child, rest := Child(t, bits[|t.edge|]), bits[|t.edge| + 1..];
      && Encode(sh, child, |rest|).Ok?
      && LookupFrom(PLAIN, Encode(sh, t, |bits|).value, bits)
         == LookupFrom(PLAIN, Encode(sh, child, |rest|).value, rest)
  {
    hide Encode, Body, FirstGap, Exact, ForkCell, ForksBare, ReadEdge, ReadExtra;
    assert forall s: Bits, max: nat :: ReadEdge(PLAIN, s, max) == ReadEdge(sh, s, max) by { SameEdges(sh); }
    TonLabelsExact();
    EncodedReads(sh, t, |bits|);
    EncodedForkRefs(sh, t, |bits|);
  }

  /**
    A summarized dictionary read as a plain one, as the accounts are: the same entries, each
    opening on its summary.
   */
  lemma {:induction false} PlainReadsSummarized<E(!new)>(sh: Shape<E>, t: Tree<E>, bits: Bits)
    requires sh.labels == TON_LABELS && ForksBare(sh) && WellFormed(t, |bits|) && Encode(sh, t, |bits|).Ok?
    ensures LandsWhole(sh, LookupFrom(PLAIN, Encode(sh, t, |bits|).value, bits), Get(t, bits))
    decreases t
  {
    hide Encode, LookupFrom, WriteExtra, ForksBare, FirstGap;
    match t
    case Leaf(_, _, _) => PlainLeaf(sh, t, bits);
    case Fork(_, _, _) =>
      PlainFork(sh, t, bits);
      if Diverges(t.edge, bits).None? {
        PlainReadsSummarized(sh, Child(t, bits[|t.edge|]), bits[|t.edge| + 1..]);
      }
    case Opaque(_) => OpaqueIsWithheld(sh, t, bits);
  }

  lemma {:induction false} OpaqueIsWithheld<E>(sh: Shape<E>, t: Tree<E>, bits: Bits)
    requires t.Opaque? && WellFormed(t, |bits|)
    ensures Encode(sh, t, |bits|).Ok? && LookupFrom(PLAIN, Encode(sh, t, |bits|).value, bits) == Ok(Withheld)
    ensures Get(t, bits) == Withheld
  {}

  /** The accounts dictionary, up to its root. */
  function AccountsCell(root: Option<Cell>, rest: Bits, refs: seq<Cell>): Cell {
    var all := MaybeRefs(root) + refs;
    Cell(Ordinary, MaybeBit(root) + rest, all, UnionOfMasks(all))
  }

  /** An entry that opens with this account: its summary and its value together spell it. */
  ghost predicate SpellsAccount<E>(sh: Shape<E>, entry: Entry<E>, a: AccountFields) {
    && AccountFit(a)
    && exists rest: Bits, refs: seq<Cell> ::
         Behind(WriteExtra(sh, entry.extra), entry.value) == Payload(AccountBits(a) + rest, AccountRefs(a) + refs)
  }

  lemma {:induction false} AccountsRead<E(!new)>(sh: Shape<E>, root: Cell, m: Content<E>, key: Bits, a: AccountFields)
    requires sh.labels == TON_LABELS && ForksBare(sh) && Holds(sh, Some(root), m, |key|)
    ensures key !in m ==> AccountAt(root, key) == Ok(Absent)
    ensures key in m && SpellsAccount(sh, m[key], a) ==>
      AccountAt(root, key) == Ok(Found(AccountEntry(a.account, a.lastHash, a.lastLt)))
  {
    hide LookupFrom, Encode, LoadAccount, WriteExtra, AccountBits, AccountRefs, AccountFit, ForksBare;
    var t :| Models(t, m, |key|) && EncodeRoot(sh, t, |key|) == Ok(Some(root));
    PlainReadsSummarized(sh, t.value, key);
    assert Get(t.value, key) == Held(m, key);
    if key in m && SpellsAccount(sh, m[key], a) {
      var rest: Bits, refs: seq<Cell> :|
        Behind(WriteExtra(sh, m[key].extra), m[key].value) == Payload(AccountBits(a) + rest, AccountRefs(a) + refs);
      AccountReadsBack(a, rest, refs);
    }
  }

  /**
    From the accounts up: a state answers for an account as its dictionary says under the whole of
    its address, and a state with no accounts answers that there is none.
   */
  lemma {:induction false} StateAnswersItsAccounts<E(!new)>(p: StateParts, sh: Shape<E>, root: Option<Cell>, rest: Bits,
      refs: seq<Cell>, m: Content<E>, id: seq<byte>, a: AccountFields)
    requires p.accounts == AccountsCell(root, rest, refs) && |id| == 32
    requires root.Some? ==> sh.labels == TON_LABELS && ForksBare(sh) && Holds(sh, root, m, 256)
    ensures root.None? || Unpack(id) !in m ==> StateAccount(StateCell(p), id) == Ok(Absent)
    ensures root.Some? && Unpack(id) in m && SpellsAccount(sh, m[Unpack(id)], a) ==>
      StateAccount(StateCell(p), id) == Ok(Found(AccountEntry(a.account, a.lastHash, a.lastLt)))
  {
    hide Holds, AccountAt, LoadMaybeRef, Unpack, SpellsAccount, ForksBare, StateBits;
    LoadMaybe(root, rest, refs);
    assert KeyOf(id, 256) == Ok(Unpack(id)) by { assert Unpack(id)[..256] == Unpack(id); }
    if root.Some? { AccountsRead(sh, root.value, m, Unpack(id), a); }
  }

  // ---------------------------------------------------------------- a block

  /** A block's references: header, value flow, the update of the state, and the extra. */
  function BlockCell(header: Cell, flow: Cell, update: Cell, extra: Cell): Cell {
    var refs := [header, flow, update, extra];
    Cell(Ordinary, ToBits(BLOCK_TAG, 32), refs, UnionOfMasks(refs))
  }

  /** A block reads as a block, by the header it carries, leaving the state its update leads to. */
  lemma {:induction false} BlockCellReads(sha: Sha, f: HeaderFields, rest: Bits, refs: seq<Cell>, header: Cell,
      flow: Cell, before: Cell, after: Cell, extra: Cell)
    requires HeaderFit(f) && !header.IsExotic() && Parse(header) == Payload(HeaderBits(f) + rest, refs)
    requires CoveringCell(sha, MerkleUpdate, [before, after]).Ok?
    ensures var block := BlockCell(header, flow, CoveringCell(sha, MerkleUpdate, [before, after]).value, extra);
      && CheckTag(block, 32, BLOCK_TAG) == Ok(())
      && HeaderOf(block)
         == Ok(BlockHeader(f.workchain, ShardOf(f.prefix, f.prefixBits), f.seqno, f.keyBlock, f.genUtime))
      && NewStateHash(block) == Ok(LevelZero(sha, after))
  {
    hide LoadHeader, HeaderBits, LevelZero, HashIn, LoadBits, Value, Pow2, ToBits, CoveringData;
    PowersOfTwo();
    var update := CoveringCell(sha, MerkleUpdate, [before, after]).value;
    HeaderReadsBack(f, rest, refs);
    UpdateNamesNewTree(sha, before, after);
    assert ToBits(BLOCK_TAG, 32) + [] == ToBits(BLOCK_TAG, 32);
    LoadField(BLOCK_TAG, 32, [], [header, flow, update, extra]);
  }
}

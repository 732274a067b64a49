module BlockReads {
  // What a chain reads out of a block: its header, and the validator set its configuration names.
  // Read through a proof, each is refused or is what the full block says.

  import opened Basics
  import opened Cells
  import opened Packing
  import opened Hashing
  import opened Collisions
  import opened DictCells
  import opened Reads
  import opened Validators

  const BLOCK_INFO_TAG := 0x9bc7a987
  const BLOCK_EXTRA_TAG := 0x4a33f6fd
  const MC_BLOCK_EXTRA_TAG := 0xcca5
  const VALIDATORS_TAG := 0x11
  const VALIDATORS_EXT_TAG := 0x12
  const ED25519_PUBKEY_TAG := 0x8e81278a
  const CURRENT_VALIDATORS := 34
  const CURRENT_TEMP_VALIDATORS := 35

  // ---------------------------------------------------------------- the header

  datatype BlockHeader = BlockHeader(workchain: int, shard: nat, seqno: nat, keyBlock: bool, genUtime: nat)

  /** Reads a signed word. */
  function Signed32(x: nat): int { if x >= 0x8000_0000 then x - 0x1_0000_0000 else x }

  /** The shard of a prefix: its declared bits, then a terminating bit, then nothing. */
  function ShardOf(prefix: nat, length: nat): nat
    requires length <= 60
  {
    Times(prefix / Pow2(63 - length) / 2 * 2 + 1, Pow2(63 - length))
  }

  /** A shard's identity: only the declared bits of the prefix count, and a terminator follows them. */
  function LoadShardIdent(s: Payload): Result<((int, nat), Payload)> {
    var (ident, s) :- LoadBits(s, 2);
    if Value(ident) != 0 then Err(WrongConstructor)
    else
      var (length, s) :- LoadBits(s, 6);
      if Value(length) > 60 then Err(Malformed)
      else
        var (workchain, s) :- LoadBits(s, 32);
        var (prefix, s) :- LoadBits(s, 64);
        Ok(((Signed32(Value(workchain)), ShardOf(Value(prefix), Value(length))), s))
  }

  function LoadHeader(s: Payload): Result<BlockHeader> {
    var (tag, s) :- LoadBits(s, 32);
    if Value(tag) != BLOCK_INFO_TAG then Err(WrongConstructor)
    else
      var (_, s) :- LoadBits(s, 38);
      var (key, s) :- LoadBits(s, 1);
      var (_, s) :- LoadBits(s, 9);
      var (seqno, s) :- LoadBits(s, 32);
      var (_, s) :- LoadBits(s, 32);
      var (ident, s) :- LoadShardIdent(s);
      var (utime, s) :- LoadBits(s, 32);
      var (_, s) :- LoadBits(s, 256);
      Ok(BlockHeader(ident.0, ident.1, Value(seqno), key[0], Value(utime)))
  }

  function HeaderOf(block: Cell): Result<BlockHeader> {
    if |block.refs| == 0 then Err(Malformed)
    else if block.refs[0].IsExotic() then Err(NotCovered)
    else LoadHeader(Parse(block.refs[0]))
  }

  // ---------------------------------------------------------------- the configuration

  function SkipCurrency(s: Payload): Result<Payload> {
    var s :- SkipCoins(s);
    var (_, s) :- LoadMaybeRef(s);
    Ok(s)
  }

  /** Steps over `n` references. */
  function SkipRefs(s: Payload, n: nat): Result<Payload> {
    if |s.refs| < n then Err(NotEnoughRefs) else Ok(Payload(s.bits, s.refs[n..]))
  }

  /** The masterchain extra inside a block's extra, past the three descriptors and two hashes. */
  function LoadCustom(s: Payload): Result<Option<Cell>> {
    var (tag, s) :- LoadBits(s, 32);
    if Value(tag) != BLOCK_EXTRA_TAG then Err(WrongConstructor)
    else
      var s :- SkipRefs(s, 3);
      var (_, s) :- LoadBits(s, 512);
      var (custom, _) :- LoadMaybeRef(s);
      Ok(custom)
  }

  /** The configuration inside a masterchain extra, present only in a key block. */
  function LoadConfig(s: Payload): Result<Cell> {
    var (tag, s) :- LoadBits(s, 16);
    if Value(tag) != MC_BLOCK_EXTRA_TAG then Err(WrongConstructor)
    else
      var (key, s) :- LoadBits(s, 1);
      if !key[0] then Err(NotAKeyBlock)
      else
        var (_, s) :- LoadMaybeRef(s);
        var (_, s) :- LoadMaybeRef(s);
        var s :- SkipCurrency(s);
        var s :- SkipCurrency(s);
        var (_, s) :- LoadRef(s);
        var (_, s) :- LoadBits(s, 256);
        var (config, _) :- LoadRef(s);
        Ok(config)
  }

  function ConfigOf(block: Cell): Result<Cell> {
    if |block.refs| < 4 then Err(Malformed)
    else if block.refs[3].IsExotic() then Err(NotCovered)
    else
      var custom :- LoadCustom(Parse(block.refs[3]));
      if custom.None? then Err(NotAKeyBlock)
      else if custom.value.IsExotic() then Err(NotCovered)
      else LoadConfig(Parse(custom.value))
  }

  // ---------------------------------------------------------------- the validator set

  function LoadValidator(s: Payload): Result<Validator> {
    var (tag, s) :- LoadBits(s, 8);
    if Value(tag) != 0x53 && Value(tag) != 0x73 then Err(WrongConstructor)
    else
      var (curve, s) :- LoadBits(s, 32);
      if Value(curve) != ED25519_PUBKEY_TAG then Err(WrongConstructor)
      else
        var (key, s) :- LoadBits(s, 256);
        var (weight, _) :- LoadBits(s, 64);
        Ok(Validator(Pack(key), Value(weight)))
  }

  /** The id signatures name a validator by, from the tagged key. */
  function ShortId(sha: Sha, key: seq<byte>): Id { Value(Unpack(sha([0xc6, 0xb4, 0x13, 0x48] + key))) }

  /** What a lookup landed on, read by `Contents`: a withheld entry is refused, never skipped. */
  function LoadEntry(root: Cell, key: Bits): Result<Option<Payload>> {
    var answer :- LookupFrom(PLAIN, root, key);
    match answer
    case Withheld => Err(NotCovered)
    case Absent => Ok(None)
    case Found((_, entry)) =>
      var (_, s) :- LoadBits(Parse(entry.cell), entry.offset);
      Ok(Some(s))
  }

  /** The members from `index` up to `main`, weighed as they are read. */
  function MembersFrom(sha: Sha, list: Cell, index: nat, main: nat, total: nat): Result<seq<Member>>
    requires index <= main
    decreases main - index
  {
    if index == main then Ok([])
    else
      var entry :- LoadEntry(list, ToBits(index, 16));
      if entry.None? then Err(Malformed)
      else
        var validator :- LoadValidator(entry.value);
        if total + validator.weight > MAX_U64 then Err(Malformed)
        else
          var rest :- MembersFrom(sha, list, index + 1, main, total + validator.weight);
          Ok([Member(ShortId(sha, validator.publicKey), validator)] + rest)
  }

  datatype SetHead = SetHead(main: nat, list: Cell)

  /** The opening of a validator set: how many entries may sign, and the list they are in. */
  function LoadSetHead(s: Payload): Result<SetHead> {
    var (tag, s) :- LoadBits(s, 8);
    if Value(tag) != VALIDATORS_TAG && Value(tag) != VALIDATORS_EXT_TAG then Err(WrongConstructor)
    else
      var (_, s) :- LoadBits(s, 64);
      var (total, s) :- LoadBits(s, 16);
      var (main, s) :- LoadBits(s, 16);
      if Value(main) == 0 || Value(main) > Value(total) then Err(Malformed)
      else if Value(tag) == VALIDATORS_TAG then
        var (list, _) :- LoadRef(s);
        Ok(SetHead(Value(main), list))
      else
        var (_, s) :- LoadBits(s, 64);
        var (list, _) :- LoadMaybeRef(s);
        if list.None? then Err(Malformed) else Ok(SetHead(Value(main), list.value))
  }

  /** A set from members already weighed, refusing a list that names a key twice. */
  function Assemble(members: seq<Member>): Result<ValidatorSet> {
    if NoRepeats(members) then Ok(ValidatorSet(SortById(members), TotalWeight(members))) else Err(Malformed)
  }

  function SetFromCell(sha: Sha, param: Cell): Result<ValidatorSet> {
    var head :- LoadSetHead(Parse(param));
    var members :- MembersFrom(sha, head.list, 0, head.main, 0);
    Assemble(members)
  }

  /** Reads a set's members in index order, weighing them as it goes, and assembles the set. */
  method ReadSet(sha: Sha, param: Cell) returns (r: Result<ValidatorSet>)
    ensures r == SetFromCell(sha, param)
    ensures r.Ok? ==> Built(r.value)
  {
    hide LoadEntry, LoadValidator, LoadSetHead, ShortId, ToBits, Built, NoRepeats, SortById;
    var head := LoadSetHead(Parse(param));
    if head.Err? { return Err(head.error); }
    var list, main := head.value.list, head.value.main;
    var members: seq<Member>, total: nat := [], 0;
    AfterNone(MembersFrom(sha, list, 0, main, 0));
    for index := 0 to main
      invariant total == TotalWeight(members) <= MAX_U64
      invariant MembersFrom(sha, list, 0, main, 0) == After(members, MembersFrom(sha, list, index, main, total))
    {
      var entry := LoadEntry(list, ToBits(index, 16));
      if entry.Err? { return Err(entry.error); }
      if entry.value.None? { return Err(Malformed); }
      var validator := LoadValidator(entry.value.value);
      if validator.Err? { return Err(validator.error); }
      if total + validator.value.weight > MAX_U64 { return Err(Malformed); }
      var member := Member(ShortId(sha, validator.value.publicKey), validator.value);
      AfterOne(members, member, MembersFrom(sha, list, index + 1, main, total + validator.value.weight));
      assert (members + [member])[..|members|] == members;
      members, total := members + [member], total + validator.value.weight;
    }
    assert members + [] == members;
    r := BuildSet(members, total);
  }

  /**
    A signed list that a set read out of a configuration does not count: one validator, its id
    the hash of its key, behind two entries of its own that fail.
   */
  lemma {:induction false} OneValidatorStarved(sha: Sha, key: seq<byte>, weight: nat, check: Check, good: seq<byte>,
      bad: seq<byte>)
    requires |key| == 32 && 0 < weight <= MAX_U64 && check(key, good) && !check(key, bad)
    ensures var id := ShortId(sha, key);
      var built := Assemble([Member(id, Validator(key, weight))]);
      var entries := [Signature(id, bad), Signature(id, bad), Signature(id, good)];
      && built.Ok? && Built(built.value)
      && 3 * SignedWeight(built.value, check, entries) > 2 * weight
      && 3 * TallyFrom(built.value, check, entries, 0, 0, {}, 0) <= 2 * weight
  {
    hide TallyFrom, ShortId;
    var id := ShortId(sha, key);
    var member := Member(id, Validator(key, weight));
    assert [member][..0] == [] && SortById([]) == [] && SortById([member]) == [member];
    assert TotalWeight([member]) == TotalWeight([]) + weight;
    var s := Assemble([member]).value;
    assert s == ValidatorSet([member], weight) && s.members[0] == member;
    var failing, passing := Signature(id, bad), Signature(id, good);
    assert Repeated(failing, 2) + [passing] == [failing, failing, passing];
    PaddingStarvesATally(s, check, 0, bad, [passing]);
    assert Signs(s, check, [passing][0], 0) && id in Signers(s, check, [passing]);
  }

  /** What is left, put after what has been read. */
  ghost function After(members: seq<Member>, rest: Result<seq<Member>>): Result<seq<Member>> {
    match rest case Err(e) => Err(e) case Ok(more) => Ok(members + more)
  }

  lemma {:induction false} AfterNone(rest: Result<seq<Member>>)
    ensures After([], rest) == rest
  {
    if rest.Ok? { assert [] + rest.value == rest.value; }
  }

  lemma {:induction false} AfterOne(members: seq<Member>, member: Member, rest: Result<seq<Member>>)
    ensures After(members, After([member], rest)) == After(members + [member], rest)
  {
    if rest.Ok? { assert members + ([member] + rest.value) == members + [member] + rest.value; }
  }

  /**
    The set a configuration names: the temporary one where there is one, the elected one where
    the configuration shows there is not. Parameters sit behind references.
   */
  function SetFromConfig(sha: Sha, config: Cell): Result<ValidatorSet> {
    var temporary :- LoadEntry(config, ToBits(CURRENT_TEMP_VALIDATORS, 32));
    if temporary.Some? then
      var (param, _) :- LoadRef(temporary.value);
      SetFromCell(sha, param)
    else
      var elected :- LoadEntry(config, ToBits(CURRENT_VALIDATORS, 32));
      if elected.None? then Err(Malformed)
      else
        var (param, _) :- LoadRef(elected.value);
        SetFromCell(sha, param)
  }

  lemma {:induction false} MembersWeigh(sha: Sha, list: Cell, index: nat, main: nat, total: nat)
    requires index <= main && MembersFrom(sha, list, index, main, total).Ok? && total <= MAX_U64
    ensures total + TotalWeight(MembersFrom(sha, list, index, main, total).value) <= MAX_U64
    ensures |MembersFrom(sha, list, index, main, total).value| == main - index
    decreases main - index
  {
    hide LoadEntry, LoadValidator, ShortId;
    if index < main {
      var validator := LoadValidator(LoadEntry(list, ToBits(index, 16)).value.value).value;
      var rest := MembersFrom(sha, list, index + 1, main, total + validator.weight).value;
      MembersWeigh(sha, list, index + 1, main, total + validator.weight);
      PrependWeighs(Member(ShortId(sha, validator.publicKey), validator), rest);
    }
  }

  lemma {:induction false} AssembledIsBuilt(members: seq<Member>)
    requires TotalWeight(members) <= MAX_U64 && Assemble(members).Ok?
    ensures Built(Assemble(members).value) && |Assemble(members).value.members| == |members|
  {
    SortOrders(members);
    SortWeighs(members);
    SortedApart(members);
  }

  lemma {:induction false} SomeoneSigns(s: Payload)
    requires LoadSetHead(s).Ok?
    ensures LoadSetHead(s).value.main >= 1
  {
    hide LoadBits, LoadRef, LoadMaybeRef, Value;
  }

  lemma {:induction false} SortedApart(members: seq<Member>)
    requires NoRepeats(members) && InOrder(SortById(members))
    ensures Ordered(SortById(members))
  {
    hide SortById, NoRepeats;
    var sorted := SortById(members);
    forall i, j | 0 <= i < j < |sorted| ensures sorted[i].id < sorted[j].id {
      if sorted[i].id == sorted[j].id {
        CountTwice(sorted, i, j);
        CountSort(members, sorted[i].id);
        CountWithoutRepeats(members, sorted[i].id);
      }
    }
  }

  /** Every set read out of a configuration is ordered, without repeats, and weighed from its entries. */
  lemma {:induction false} ReadSetsAreBuilt(sha: Sha, config: Cell)
    requires SetFromConfig(sha, config).Ok?
    ensures Built(SetFromConfig(sha, config).value) && SetFromConfig(sha, config).value.members != []
  {
    hide LoadEntry, LoadRef, LoadSetHead, MembersFrom, Assemble, Built;
    var temporary := LoadEntry(config, ToBits(CURRENT_TEMP_VALIDATORS, 32)).value;
    var from := if temporary.Some? then temporary.value
      else LoadEntry(config, ToBits(CURRENT_VALIDATORS, 32)).value.value;
    var head := LoadSetHead(Parse(LoadRef(from).value.0)).value;
    MembersWeigh(sha, head.list, 0, head.main, 0);
    SomeoneSigns(Parse(LoadRef(from).value.0));
    AssembledIsBuilt(MembersFrom(sha, head.list, 0, head.main, 0).value);
  }

  // ---------------------------------------------------------------- read through a proof

  lemma {:induction false} SameBitsSameIdent(s: Payload, t: Payload)
    requires s.bits == t.bits
    ensures LoadShardIdent(s).Ok? == LoadShardIdent(t).Ok?
    ensures LoadShardIdent(s).Ok? ==>
      LoadShardIdent(s).value.0 == LoadShardIdent(t).value.0
        && LoadShardIdent(s).value.1.bits == LoadShardIdent(t).value.1.bits
    ensures LoadShardIdent(s).Err? ==> LoadShardIdent(s).error == LoadShardIdent(t).error
  {
    hide Value, ShardOf;
  }

  lemma {:induction false} SameBitsSameHeader(s: Payload, t: Payload)
    requires s.bits == t.bits
    ensures LoadHeader(s) == LoadHeader(t)
  {
    hide Value, LoadShardIdent;
    if |s.bits| >= 32 + 38 + 1 + 9 + 32 + 32 {
      var at := 32 + 38 + 1 + 9 + 32 + 32;
      SameBitsSameIdent(Payload(s.bits[at..], s.refs), Payload(t.bits[at..], t.refs));
      assert s.bits[32..][38..][1..][9..][32..][32..] == s.bits[at..];
    }
  }

  /** The header a proved block shows is the full block's. */
  lemma {:induction false} ProvedHeader(sha: Sha, p: Cell, f: Cell)
    requires Covers(sha, p, f) && !p.IsExotic() && HeaderOf(p).Ok?
    ensures HeaderOf(f) == HeaderOf(p)
  {
    hide Covers, LoadHeader;
    ShownAlike(sha, p, f);
    CoversBelow(sha, p, f, 0);
    ShownAlike(sha, p.refs[0], f.refs[0]);
    SameBitsSameHeader(Parse(p.refs[0]), Parse(f.refs[0]));
  }

  lemma {:induction false} SkipRefsAlike(sha: Sha, s: Payload, t: Payload, n: nat)
    requires CoversAll(sha, s, t)
    ensures SkipRefs(s, n).Ok? == SkipRefs(t, n).Ok?
    ensures SkipRefs(s, n).Ok? ==> CoversAll(sha, SkipRefs(s, n).value, SkipRefs(t, n).value)
  {
    hide Covers;
  }

  lemma {:induction false} LoadCustomAlike(sha: Sha, s: Payload, t: Payload)
    requires CoversAll(sha, s, t) && LoadCustom(s).Ok?
    ensures LoadCustom(t).Ok? && LoadCustom(s).value.Some? == LoadCustom(t).value.Some?
    ensures LoadCustom(s).value.Some? ==> Covers(sha, LoadCustom(s).value.value, LoadCustom(t).value.value)
  {
    hide Covers, CoversAll, LoadBits, SkipRefs, LoadMaybeRef, Value;
    LoadBitsAlike(sha, s, t, 32);
    var (s1, t1) := (LoadBits(s, 32).value.1, LoadBits(t, 32).value.1);
    SkipRefsAlike(sha, s1, t1, 3);
    var (s2, t2) := (SkipRefs(s1, 3).value, SkipRefs(t1, 3).value);
    LoadBitsAlike(sha, s2, t2, 512);
    LoadMaybeRefAlike(sha, LoadBits(s2, 512).value.1, LoadBits(t2, 512).value.1);
  }

  lemma {:induction false} SkipCurrencyAlike(sha: Sha, s: Payload, t: Payload)
    requires CoversAll(sha, s, t) && SkipCurrency(s).Ok?
    ensures SkipCurrency(t).Ok? && CoversAll(sha, SkipCurrency(s).value, SkipCurrency(t).value)
  {
    hide Covers, CoversAll, SkipCoins, LoadMaybeRef;
    CoinsAlike(sha, s, t);
    LoadMaybeRefAlike(sha, SkipCoins(s).value, SkipCoins(t).value);
  }

  lemma {:induction false} LoadConfigAlike(sha: Sha, s: Payload, t: Payload)
    requires CoversAll(sha, s, t) && LoadConfig(s).Ok?
    ensures LoadConfig(t).Ok? && Covers(sha, LoadConfig(s).value, LoadConfig(t).value)
  {
    hide Covers, CoversAll, LoadBits, LoadMaybeRef, LoadRef, SkipCurrency, Value;
    LoadBitsAlike(sha, s, t, 16);
    var (s1, t1) := (LoadBits(s, 16).value.1, LoadBits(t, 16).value.1);
    LoadBitsAlike(sha, s1, t1, 1);
    var (s2, t2) := (LoadBits(s1, 1).value.1, LoadBits(t1, 1).value.1);
    LoadMaybeRefAlike(sha, s2, t2);
    var (s3, t3) := (LoadMaybeRef(s2).value.1, LoadMaybeRef(t2).value.1);
    LoadMaybeRefAlike(sha, s3, t3);
    var (s4, t4) := (LoadMaybeRef(s3).value.1, LoadMaybeRef(t3).value.1);
    SkipCurrencyAlike(sha, s4, t4);
    var (s5, t5) := (SkipCurrency(s4).value, SkipCurrency(t4).value);
    SkipCurrencyAlike(sha, s5, t5);
    var (s6, t6) := (SkipCurrency(s5).value, SkipCurrency(t5).value);
    LoadRefAlike(sha, s6, t6);
    var (s7, t7) := (LoadRef(s6).value.1, LoadRef(t6).value.1);
    LoadBitsAlike(sha, s7, t7, 256);
    LoadRefAlike(sha, LoadBits(s7, 256).value.1, LoadBits(t7, 256).value.1);
  }

  lemma {:induction false} ProvedConfig(sha: Sha, p: Cell, f: Cell)
    requires Covers(sha, p, f) && !p.IsExotic() && ConfigOf(p).Ok?
    ensures ConfigOf(f).Ok? && Covers(sha, ConfigOf(p).value, ConfigOf(f).value)
  {
    hide Covers, CoversAll, LoadCustom, LoadConfig;
    ShownAlike(sha, p, f);
    CoversBelow(sha, p, f, 3);
    ParsedAlike(sha, p.refs[3], f.refs[3]);
    LoadCustomAlike(sha, Parse(p.refs[3]), Parse(f.refs[3]));
    var custom, other := LoadCustom(Parse(p.refs[3])).value.value, LoadCustom(Parse(f.refs[3])).value.value;
    ParsedAlike(sha, custom, other);
    LoadConfigAlike(sha, Parse(custom), Parse(other));
  }

  lemma {:induction false} LoadEntryAlike(sha: Sha, p: Cell, f: Cell, key: Bits)
    requires Covers(sha, p, f) && LoadEntry(p, key).Ok?
    ensures LoadEntry(f, key).Ok? && LoadEntry(p, key).value.Some? == LoadEntry(f, key).value.Some?
    ensures LoadEntry(p, key).value.Some? ==>
      CoversAll(sha, LoadEntry(p, key).value.value, LoadEntry(f, key).value.value)
  {
    hide Covers, CoversAll, LookupFrom, LoadBits;
    ProvedLookup(sha, p, f, key);
    var (a, b) := (LookupFrom(PLAIN, p, key).value, LookupFrom(PLAIN, f, key).value);
    if a.Found? { LoadBitsAlike(sha, Parse(a.value.1.cell), Parse(b.value.1.cell), a.value.1.offset); }
  }

  lemma {:induction false} SameBitsSameValidator(s: Payload, t: Payload)
    requires s.bits == t.bits
    ensures LoadValidator(s) == LoadValidator(t)
  {
    hide Value, Pack;
  }

  lemma {:induction false} MembersAlike(sha: Sha, p: Cell, f: Cell, index: nat, main: nat, total: nat)
    requires Covers(sha, p, f) && index <= main && MembersFrom(sha, p, index, main, total).Ok?
    ensures MembersFrom(sha, f, index, main, total) == MembersFrom(sha, p, index, main, total)
    decreases main - index
  {
    hide Covers, LoadEntry, LoadValidator, ShortId, ToBits;
    if index < main {
      LoadEntryAlike(sha, p, f, ToBits(index, 16));
      var (s, t) := (LoadEntry(p, ToBits(index, 16)).value.value, LoadEntry(f, ToBits(index, 16)).value.value);
      SameBitsSameValidator(s, t);
      MembersAlike(sha, p, f, index + 1, main, total + LoadValidator(s).value.weight);
    }
  }

  lemma {:induction false} LoadSetHeadAlike(sha: Sha, s: Payload, t: Payload)
    requires CoversAll(sha, s, t) && LoadSetHead(s).Ok?
    ensures LoadSetHead(t).Ok? && LoadSetHead(s).value.main == LoadSetHead(t).value.main
    ensures Covers(sha, LoadSetHead(s).value.list, LoadSetHead(t).value.list)
  {
    hide Covers, CoversAll, LoadBits, LoadMaybeRef, LoadRef, Value;
    LoadBitsAlike(sha, s, t, 8);
    var (s1, t1) := (LoadBits(s, 8).value.1, LoadBits(t, 8).value.1);
    LoadBitsAlike(sha, s1, t1, 64);
    var (s2, t2) := (LoadBits(s1, 64).value.1, LoadBits(t1, 64).value.1);
    LoadBitsAlike(sha, s2, t2, 16);
    var (s3, t3) := (LoadBits(s2, 16).value.1, LoadBits(t2, 16).value.1);
    LoadBitsAlike(sha, s3, t3, 16);
    var (s4, t4) := (LoadBits(s3, 16).value.1, LoadBits(t3, 16).value.1);
    LoadRefAlike(sha, s4, t4);
    LoadBitsAlike(sha, s4, t4, 64);
    if LoadBits(s4, 64).Ok? { LoadMaybeRefAlike(sha, LoadBits(s4, 64).value.1, LoadBits(t4, 64).value.1); }
  }

  /** No placeholder opens as a validator set does. */
  lemma {:induction false} SetIsShown(sha: Sha, p: Cell)
    requires Sound(p) && LoadSetHead(Parse(p)).Ok?
    ensures !p.IsExotic()
  {
    hide LoadMaybeRef, LoadRef, Value;
    assert Padded(p.bits)[0..8] == p.bits[..8];
    assert Pack(p.bits)[0] == Value(p.bits[..8]);
  }

  lemma {:induction false} ProvedSetCell(sha: Sha, p: Cell, f: Cell)
    requires Covers(sha, p, f) && SetFromCell(sha, p).Ok?
    ensures SetFromCell(sha, f) == SetFromCell(sha, p)
  {
    hide CoversAll, LoadSetHead, MembersFrom, Assemble;
    SetIsShown(sha, p);
    ParsedAlike(sha, p, f);
    LoadSetHeadAlike(sha, Parse(p), Parse(f));
    var (a, b) := (LoadSetHead(Parse(p)).value, LoadSetHead(Parse(f)).value);
    MembersAlike(sha, a.list, b.list, 0, a.main, 0);
  }

  /**
    The validator set a proved configuration names is the full configuration's own: a pruned
    temporary set is refused, and never read as there being none.
   */
  lemma {:induction false} ProvedSet(sha: Sha, p: Cell, f: Cell)
    requires Covers(sha, p, f) && SetFromConfig(sha, p).Ok?
    ensures SetFromConfig(sha, f) == SetFromConfig(sha, p)
  {
    hide Covers, CoversAll, LoadEntry, LoadRef, SetFromCell, ToBits;
    var temp, main := ToBits(CURRENT_TEMP_VALIDATORS, 32), ToBits(CURRENT_VALIDATORS, 32);
    LoadEntryAlike(sha, p, f, temp);
    var key := if LoadEntry(p, temp).value.Some? then temp else main;
    LoadEntryAlike(sha, p, f, key);
    var (s, t) := (LoadEntry(p, key).value.value, LoadEntry(f, key).value.value);
    LoadRefAlike(sha, s, t);
    ProvedSetCell(sha, LoadRef(s).value.0, LoadRef(t).value.0);
  }
}

module Layouts {
  // The records the readers walk, spelled field by field as the block format lays them out, and
  // each reader held to its record: every field it takes is the field that was written.

  import opened Basics
  import opened Cells
  import opened Packing
  import opened Hashing
  import opened Reads
  import opened Validators
  import opened BlockReads
  import opened Builders

  // ---------------------------------------------------------------- fields

  /** Bits of a stated width whose value no reader looks at. */
  predicate Field(bits: Bits, width: nat) { |bits| == width }

  lemma {:induction false} LoadFront(a: Bits, rest: Bits, refs: seq<Cell>)
    ensures LoadBits(Payload(a + rest, refs), |a|) == Ok((a, Payload(rest, refs)))
  {
    assert (a + rest)[..|a|] == a && (a + rest)[|a|..] == rest;
  }

  /** A field and what follows it, whether or not anything reads its value. */
  lemma {:induction false} LoadField(x: nat, width: nat, rest: Bits, refs: seq<Cell>)
    requires x < Pow2(width)
    ensures LoadBits(Payload(ToBits(x, width) + rest, refs), width) == Ok((ToBits(x, width), Payload(rest, refs)))
    ensures Value(ToBits(x, width)) == x
  {
    hide LoadBits, ToBits;
    LoadFront(ToBits(x, width), rest, refs);
    ValueOfBits(x, width);
  }

  lemma {:induction false} PowersOfTwo()
    ensures Pow2(1) == 2 && Pow2(2) == 4 && Pow2(4) == 16 && Pow2(6) == 64 && Pow2(8) == 256 && Pow2(16) == 0x1_0000
    ensures Pow2(32) == 0x1_0000_0000 && Pow2(64) == 0x1_0000_0000_0000_0000
  {
    assert Pow2(8) == 256;
    Pow2Add(8, 8);
    Pow2Add(16, 16);
    Pow2Add(32, 32);
  }

  lemma {:induction false} OneBit(bit: bool, rest: Bits, refs: seq<Cell>)
    ensures LoadBits(Payload([bit] + rest, refs), 1) == Ok(([bit], Payload(rest, refs)))
  {
    LoadFront([bit], rest, refs);
  }

  /** An optional reference: a bit, and the reference when it is set. */
  function MaybeBit(cell: Option<Cell>): Bits { [cell.Some?] }

  function MaybeRefs(cell: Option<Cell>): seq<Cell> { if cell.Some? then [cell.value] else [] }

  lemma {:induction false} LoadMaybe(cell: Option<Cell>, rest: Bits, refs: seq<Cell>)
    ensures LoadMaybeRef(Payload(MaybeBit(cell) + rest, MaybeRefs(cell) + refs)) == Ok((cell, Payload(rest, refs)))
  {
    hide LoadBits;
    OneBit(cell.Some?, rest, MaybeRefs(cell) + refs);
    if cell.Some? {
      assert ([cell.value] + refs)[1..] == refs;
    } else {
      assert MaybeRefs(cell) + refs == refs;
    }
  }

  lemma {:induction false} LoadFirstRef(cell: Cell, bits: Bits, refs: seq<Cell>)
    ensures LoadRef(Payload(bits, [cell] + refs)) == Ok((cell, Payload(bits, refs)))
  {
    assert ([cell] + refs)[1..] == refs;
  }

  /** An amount, as a variable integer of at most fifteen bytes. */
  lemma {:induction false} SkipAmount(amount: nat, rest: Bits, refs: seq<Cell>)
    requires ByteLen(amount) < 16
    ensures SkipCoins(Payload(VarUint(amount, 16) + rest, refs)) == Ok(Payload(rest, refs))
  {
    hide LoadBits, ToBits, ByteLen;
    VarUintFits(amount, 16);
    assert LengthBits(16) == 4;
    var length, value := ToBits(ByteLen(amount), 4), ToBits(amount, 8 * ByteLen(amount));
    assert VarUint(amount, 16) + rest == length + (value + rest);
    LoadField(ByteLen(amount), 4, value + rest, refs);
    LoadFront(value, rest, refs);
  }

  // ---------------------------------------------------------------- shard states

  datatype ShardFields = ShardFields(later: bool, seqno: nat, regMcSeqno: Bits, startLt: Bits, endLt: Bits,
      rootHash: Hash)

  predicate ShardFit(f: ShardFields) {
    f.seqno < 0x1_0000_0000 && Field(f.regMcSeqno, 32) && Field(f.startLt, 64) && Field(f.endLt, 64)
  }

  /** A shard's record, in either version of its tag. */
  function ShardBits(f: ShardFields): Bits {
    ToBits(if f.later then 0xb else 0xa, 4)
      + (ToBits(f.seqno, 32) + ((f.regMcSeqno + f.startLt + f.endLt) + Unpack(f.rootHash)))
  }

  lemma {:induction false} ShardReadsBack(f: ShardFields, rest: Bits, refs: seq<Cell>)
    requires ShardFit(f)
    ensures LoadShardDescr(Payload(ShardBits(f) + rest, refs)) == Ok(ShardDescr(f.seqno, f.rootHash))
  {
    hide LoadBits, ToBits, Pow2, Value, Pack, Unpack;
    PowersOfTwo();
    var tag: nat := if f.later then 0xb else 0xa;
    var skipped, hash := f.regMcSeqno + f.startLt + f.endLt, Unpack(f.rootHash);
    var s2 := skipped + (hash + rest);
    var s1 := ToBits(f.seqno, 32) + s2;
    assert ShardBits(f) + rest == ToBits(tag, 4) + s1;
    LoadField(tag, 4, s1, refs);
    LoadField(f.seqno, 32, s2, refs);
    LoadFront(skipped, hash + rest, refs);
    LoadFront(hash, rest, refs);
    PackUnpack(f.rootHash);
  }

  datatype AccountFields = AccountFields(
    splitDepth: Bits, balance: nat, currencies: Option<Cell>, account: Cell, lastHash: Hash, lastLt: nat)

  predicate AccountFit(f: AccountFields) {
    Field(f.splitDepth, 5) && ByteLen(f.balance) < 16 && f.lastLt < 0x1_0000_0000_0000_0000
  }

  /** An account's leaf: the summary of depth and balance, then the account and how it last changed. */
  function AccountBits(f: AccountFields): Bits {
    f.splitDepth + (VarUint(f.balance, 16) + (MaybeBit(f.currencies) + (Unpack(f.lastHash) + ToBits(f.lastLt, 64))))
  }

  function AccountRefs(f: AccountFields): seq<Cell> { MaybeRefs(f.currencies) + [f.account] }

  lemma {:induction false} AccountReadsBack(f: AccountFields, rest: Bits, refs: seq<Cell>)
    requires AccountFit(f)
    ensures LoadAccount(Payload(AccountBits(f) + rest, AccountRefs(f) + refs))
      == Ok(AccountEntry(f.account, f.lastHash, f.lastLt))
  {
    hide LoadBits, LoadRef, LoadMaybeRef, SkipCoins, ToBits, Pow2, Value, Pack, Unpack, VarUint, MaybeBit, MaybeRefs,
      ByteLen;
    PowersOfTwo();
    var lt, hash := ToBits(f.lastLt, 64), Unpack(f.lastHash);
    var s4 := lt + rest;
    var s3 := hash + s4;
    var s2 := MaybeBit(f.currencies) + s3;
    var s1 := VarUint(f.balance, 16) + s2;
    assert AccountBits(f) + rest == f.splitDepth + s1;
    var r1 := [f.account] + refs;
    assert AccountRefs(f) + refs == MaybeRefs(f.currencies) + r1;
    LoadFront(f.splitDepth, s1, MaybeRefs(f.currencies) + r1);
    SkipAmount(f.balance, s2, MaybeRefs(f.currencies) + r1);
    LoadMaybe(f.currencies, s3, r1);
    LoadFirstRef(f.account, s3, refs);
    LoadFront(hash, s4, refs);
    LoadField(f.lastLt, 64, rest, refs);
    PackUnpack(f.lastHash);
  }

  datatype StateFields = StateFields(
    globalId: Bits, prefixBits: Bits, workchain: Bits, prefix: Bits,
    seqno: Bits, vertSeqno: Bits, genUtime: Bits, genLt: Bits, minRefMcSeqno: Bits, beforeSplit: bool, custom: bool)

  predicate StateFit(f: StateFields) {
    && Field(f.globalId, 32) && Field(f.prefixBits, 6) && Field(f.workchain, 32) && Field(f.prefix, 64)
    && Field(f.seqno, 32) && Field(f.vertSeqno, 32) && Field(f.genUtime, 32) && Field(f.genLt, 64)
    && Field(f.minRefMcSeqno, 32)
  }

  /** A state's own fields, up to whether a masterchain extra follows. */
  function StateBits(f: StateFields): Bits {
    (ToBits(SHARD_STATE_TAG, 32) + f.globalId) + (ToBits(0, 2) + ((f.prefixBits + f.workchain + f.prefix)
      + ((f.seqno + f.vertSeqno + f.genUtime + f.genLt + f.minRefMcSeqno + [f.beforeSplit]) + [f.custom])))
  }

  lemma {:induction false} StateReadsBack(f: StateFields, rest: Bits, refs: seq<Cell>, mask: Mask)
    requires StateFit(f)
    ensures HasExtra(Cell(Ordinary, StateBits(f) + rest, refs, mask)) == Ok(f.custom)
    ensures CheckTag(Cell(Ordinary, StateBits(f) + rest, refs, mask), 32, SHARD_STATE_TAG) == Ok(())
  {
    hide LoadBits, ToBits, Pow2, Value;
    PowersOfTwo();
    var opening, ident := ToBits(SHARD_STATE_TAG, 32) + f.globalId, f.prefixBits + f.workchain + f.prefix;
    var counts := f.seqno + f.vertSeqno + f.genUtime + f.genLt + f.minRefMcSeqno + [f.beforeSplit];
    var s4 := [f.custom] + rest;
    var s3 := counts + s4;
    var s2 := ident + s3;
    var s1 := ToBits(0, 2) + s2;
    assert StateBits(f) + rest == opening + s1;
    assert opening + s1 == ToBits(SHARD_STATE_TAG, 32) + (f.globalId + s1);
    LoadField(SHARD_STATE_TAG, 32, f.globalId + s1, refs);
    LoadFront(opening, s1, refs);
    LoadField(0, 2, s2, refs);
    LoadFront(ident, s3, refs);
    LoadFront(counts, s4, refs);
    OneBit(f.custom, rest, refs);
  }

  // ---------------------------------------------------------------- block headers

  datatype HeaderFields = HeaderFields(
    version: Bits, flagsBefore: Bits, keyBlock: bool, vertIncr: bool, flags: Bits, seqno: nat, vertSeqno: Bits,
    prefixBits: nat, workchain: int, prefix: nat, genUtime: nat, lts: Bits, listHash: Bits, catchain: Bits,
    minRef: Bits, prevKey: Bits)

  predicate HeaderFit(f: HeaderFields) {
    && Field(f.version, 32) && Field(f.flagsBefore, 6) && Field(f.flags, 8) && f.seqno < 0x1_0000_0000
    && Field(f.vertSeqno, 32)
    && f.prefixBits <= 60 && -0x8000_0000 <= f.workchain < 0x8000_0000 && f.prefix < 0x1_0000_0000_0000_0000
    && f.genUtime < 0x1_0000_0000 && Field(f.lts, 128) && Field(f.listHash, 32) && Field(f.catchain, 32)
    && Field(f.minRef, 32) && Field(f.prevKey, 32)
  }

  function IdentBits(f: HeaderFields): Bits
    requires HeaderFit(f)
  {
    ToBits(0, 2) + (ToBits(f.prefixBits, 6) + (ToBits(f.workchain % 0x1_0000_0000, 32) + ToBits(f.prefix, 64)))
  }

  function HeaderBits(f: HeaderFields): Bits
    requires HeaderFit(f)
  {
    ToBits(BLOCK_INFO_TAG, 32) + ((f.version + f.flagsBefore) + ([f.keyBlock] + (([f.vertIncr] + f.flags)
      + (ToBits(f.seqno, 32) + (f.vertSeqno + (IdentBits(f) + (ToBits(f.genUtime, 32)
        + (f.lts + f.listHash + f.catchain + f.minRef + f.prevKey))))))))
  }

  lemma {:induction false} IdentReadsBack(f: HeaderFields, rest: Bits, refs: seq<Cell>)
    requires HeaderFit(f)
    ensures LoadShardIdent(Payload(IdentBits(f) + rest, refs))
      == Ok(((f.workchain, ShardOf(f.prefix, f.prefixBits)), Payload(rest, refs)))
  {
    hide LoadBits, ToBits, Pow2, Value, ShardOf;
    PowersOfTwo();
    var s3 := ToBits(f.prefix, 64) + rest;
    var s2 := ToBits(f.workchain % 0x1_0000_0000, 32) + s3;
    var s1 := ToBits(f.prefixBits, 6) + s2;
    assert IdentBits(f) + rest == ToBits(0, 2) + s1;
    LoadField(0, 2, s1, refs);
    LoadField(f.prefixBits, 6, s2, refs);
    LoadField(f.workchain % 0x1_0000_0000, 32, s3, refs);
    LoadField(f.prefix, 64, rest, refs);
  }

  lemma {:induction false} HeaderReadsBack(f: HeaderFields, rest: Bits, refs: seq<Cell>)
    requires HeaderFit(f)
    ensures LoadHeader(Payload(HeaderBits(f) + rest, refs))
      == Ok(BlockHeader(f.workchain, ShardOf(f.prefix, f.prefixBits), f.seqno, f.keyBlock, f.genUtime))
  {
    hide LoadBits, ToBits, Pow2, Value, ShardOf, LoadShardIdent, IdentBits;
    PowersOfTwo();
    var opening, middle := f.version + f.flagsBefore, [f.vertIncr] + f.flags;
    var ending := f.lts + f.listHash + f.catchain + f.minRef + f.prevKey;
    var s8 := ending + rest;
    var s7 := ToBits(f.genUtime, 32) + s8;
    var s6 := IdentBits(f) + s7;
    var s5 := f.vertSeqno + s6;
    var s4 := ToBits(f.seqno, 32) + s5;
    var s3 := middle + s4;
    var s2 := [f.keyBlock] + s3;
    var s1 := opening + s2;
    assert HeaderBits(f) + rest == ToBits(BLOCK_INFO_TAG, 32) + s1;
    LoadField(BLOCK_INFO_TAG, 32, s1, refs);
    LoadFront(opening, s2, refs);
    OneBit(f.keyBlock, s3, refs);
    LoadFront(middle, s4, refs);
    LoadField(f.seqno, 32, s5, refs);
    LoadFront(f.vertSeqno, s6, refs);
    IdentReadsBack(f, s7, refs);
    LoadField(f.genUtime, 32, s8, refs);
    LoadFront(ending, rest, refs);
  }

  /** A shard's number is its prefix's declared bits, one terminating bit, and zeros below. */
  lemma {:induction false} ShardIsPrefixAndMark(prefix: nat, length: nat)
    requires length <= 60
    ensures ShardOf(prefix, length) / Pow2(64 - length) == prefix / Pow2(64 - length)
    ensures ShardOf(prefix, length) % Pow2(64 - length) == Pow2(63 - length)
  {
    var p := Pow2(63 - length);
    var q := prefix / p / 2;
    ShiftAgain(prefix, 63 - length);
    assert (q * 2 + 1) * p == q * (2 * p) + p by { Regroup2(q, 1, p); }
    ModUnique(ShardOf(prefix, length), 2 * p, q, p);
  }

  // ---------------------------------------------------------------- validator sets

  function ValidatorBits(withAddress: bool, v: Validator): Bits
    requires |v.publicKey| == 32 && v.weight <= MAX_U64
  {
    ToBits(if withAddress then 0x73 else 0x53, 8)
      + (ToBits(ED25519_PUBKEY_TAG, 32) + (Unpack(v.publicKey) + ToBits(v.weight, 64)))
  }

  lemma {:induction false} ValidatorReadsBack(withAddress: bool, v: Validator, rest: Bits, refs: seq<Cell>)
    requires |v.publicKey| == 32 && v.weight <= MAX_U64
    ensures LoadValidator(Payload(ValidatorBits(withAddress, v) + rest, refs)) == Ok(v)
  {
    hide LoadBits, ToBits, Pow2, Value, Pack, Unpack;
    PowersOfTwo();
    var tag: nat := if withAddress then 0x73 else 0x53;
    var key := Unpack(v.publicKey);
    var s3 := ToBits(v.weight, 64) + rest;
    var s2 := key + s3;
    var s1 := ToBits(ED25519_PUBKEY_TAG, 32) + s2;
    assert ValidatorBits(withAddress, v) + rest == ToBits(tag, 8) + s1;
    LoadField(tag, 8, s1, refs);
    LoadField(ED25519_PUBKEY_TAG, 32, s2, refs);
    LoadFront(key, s3, refs);
    LoadField(v.weight, 64, rest, refs);
    PackUnpack(v.publicKey);
  }

  datatype SetFields = SetFields(extended: bool, since: Bits, until: Bits, total: nat, main: nat, declared: Bits,
      list: Cell)

  predicate SetFit(f: SetFields) {
    Field(f.since, 32) && Field(f.until, 32) && 1 <= f.main <= f.total < 0x1_0000 && Field(f.declared, 64)
  }

  function SetBits(f: SetFields): Bits {
    ToBits(if f.extended then VALIDATORS_EXT_TAG else VALIDATORS_TAG, 8) + ((f.since + f.until)
      + (ToBits(f.total, 16) + (ToBits(f.main, 16) + if f.extended then f.declared + [true] else [])))
  }

  /** The list a set is read from, and how many of it may sign, in either version. */
  lemma {:induction false} SetReadsBack(f: SetFields, rest: Bits, refs: seq<Cell>)
    requires SetFit(f)
    ensures LoadSetHead(Payload(SetBits(f) + rest, [f.list] + refs)) == Ok(SetHead(f.main, f.list))
  {
    hide LoadBits, LoadRef, LoadMaybeRef, ToBits, Pow2, Value;
    PowersOfTwo();
    var tag := if f.extended then VALIDATORS_EXT_TAG else VALIDATORS_TAG;
    var window, all := f.since + f.until, [f.list] + refs;
    var s4 := if f.extended then f.declared + ([true] + rest) else rest;
    var s3 := ToBits(f.main, 16) + s4;
    var s2 := ToBits(f.total, 16) + s3;
    var s1 := window + s2;
    assert SetBits(f) + rest == ToBits(tag, 8) + s1;
    LoadField(tag, 8, s1, all);
    LoadFront(window, s2, all);
    LoadField(f.total, 16, s3, all);
    LoadField(f.main, 16, s4, all);
    if f.extended {
      LoadFront(f.declared, [true] + rest, all);
      LoadMaybe(Some(f.list), rest, refs);
    } else {
      LoadFirstRef(f.list, rest, refs);
    }
  }

  // ---------------------------------------------------------------- the way to a configuration

  datatype ExtraFields = ExtraFields(inMsg: Cell, outMsg: Cell, accounts: Cell, seed: Bits, createdBy: Bits,
      custom: Option<Cell>)

  predicate ExtraFit(f: ExtraFields) { Field(f.seed, 256) && Field(f.createdBy, 256) }

  function ExtraBits(f: ExtraFields): Bits {
    ToBits(BLOCK_EXTRA_TAG, 32) + ((f.seed + f.createdBy) + MaybeBit(f.custom))
  }

  function ExtraRefs(f: ExtraFields): seq<Cell> { [f.inMsg, f.outMsg, f.accounts] + MaybeRefs(f.custom) }

  lemma {:induction false} ExtraReadsBack(f: ExtraFields, rest: Bits, refs: seq<Cell>)
    requires ExtraFit(f)
    ensures LoadCustom(Payload(ExtraBits(f) + rest, ExtraRefs(f) + refs)) == Ok(f.custom)
  {
    hide LoadBits, LoadMaybeRef, ToBits, Pow2, Value, MaybeBit, MaybeRefs;
    PowersOfTwo();
    var hashes, all, r1 := f.seed + f.createdBy, ExtraRefs(f) + refs, MaybeRefs(f.custom) + refs;
    var s2 := MaybeBit(f.custom) + rest;
    var s1 := hashes + s2;
    assert ExtraBits(f) + rest == ToBits(BLOCK_EXTRA_TAG, 32) + s1;
    assert all[3..] == r1;
    LoadField(BLOCK_EXTRA_TAG, 32, s1, all);
    LoadFront(hashes, s2, r1);
    LoadMaybe(f.custom, rest, refs);
  }

  datatype CustomFields = CustomFields(
    shardHashes: Option<Cell>, shardFees: Option<Cell>, fees: nat, feeCurrencies: Option<Cell>,
    created: nat, createdCurrencies: Option<Cell>, messages: Cell, configAddress: Bits, config: Cell)

  predicate CustomFit(f: CustomFields) {
    ByteLen(f.fees) < 16 && ByteLen(f.created) < 16 && Field(f.configAddress, 256)
  }

  /** The part of a key block's masterchain extra from its fees on, and the references that go with it. */
  function FeesBits(f: CustomFields): Bits {
    VarUint(f.fees, 16) + (MaybeBit(f.feeCurrencies)
      + (VarUint(f.created, 16) + (MaybeBit(f.createdCurrencies) + f.configAddress)))
  }

  function FeesRefs(f: CustomFields): seq<Cell> {
    MaybeRefs(f.feeCurrencies) + (MaybeRefs(f.createdCurrencies) + [f.messages, f.config])
  }

  function CustomBits(f: CustomFields): Bits {
    ToBits(MC_BLOCK_EXTRA_TAG, 16) + ([true] + (MaybeBit(f.shardHashes) + (MaybeBit(f.shardFees) + FeesBits(f))))
  }

  function CustomRefs(f: CustomFields): seq<Cell> { MaybeRefs(f.shardHashes) + (MaybeRefs(f.shardFees) + FeesRefs(f)) }

  lemma {:induction false} CurrencyReadsBack(amount: nat, currencies: Option<Cell>, rest: Bits, refs: seq<Cell>)
    requires ByteLen(amount) < 16
    ensures SkipCurrency(Payload(VarUint(amount, 16) + (MaybeBit(currencies) + rest), MaybeRefs(currencies) + refs))
      == Ok(Payload(rest, refs))
  {
    hide SkipCoins, LoadMaybeRef, VarUint, MaybeBit, MaybeRefs, ByteLen;
    SkipAmount(amount, MaybeBit(currencies) + rest, MaybeRefs(currencies) + refs);
    LoadMaybe(currencies, rest, refs);
  }

  lemma {:induction false} ConfigReadsBack(f: CustomFields, rest: Bits, refs: seq<Cell>)
    requires CustomFit(f)
    ensures LoadConfig(Payload(CustomBits(f) + rest, CustomRefs(f) + refs)) == Ok(f.config)
  {
    hide LoadBits, LoadMaybeRef, LoadRef, SkipCurrency, ToBits, Pow2, Value, MaybeBit, MaybeRefs, VarUint, ByteLen;
    PowersOfTwo();
    var r5 := [f.config] + refs;
    var r4 := [f.messages] + r5;
    var r3 := MaybeRefs(f.createdCurrencies) + r4;
    var r2 := MaybeRefs(f.feeCurrencies) + r3;
    var r1 := MaybeRefs(f.shardFees) + r2;
    var all := MaybeRefs(f.shardHashes) + r1;
    assert [f.messages, f.config] + refs == r4;
    assert CustomRefs(f) + refs == all;
    var s6 := f.configAddress + rest;
    var s5 := VarUint(f.created, 16) + (MaybeBit(f.createdCurrencies) + s6);
    var s4 := VarUint(f.fees, 16) + (MaybeBit(f.feeCurrencies) + s5);
    var s3 := MaybeBit(f.shardFees) + s4;
    var s2 := MaybeBit(f.shardHashes) + s3;
    var s1 := [true] + s2;
    assert CustomBits(f) + rest == ToBits(MC_BLOCK_EXTRA_TAG, 16) + s1;
    LoadField(MC_BLOCK_EXTRA_TAG, 16, s1, all);
    OneBit(true, s2, all);
    LoadMaybe(f.shardHashes, s3, r1);
    LoadMaybe(f.shardFees, s4, r2);
    CurrencyReadsBack(f.fees, f.feeCurrencies, s5, r3);
    CurrencyReadsBack(f.created, f.createdCurrencies, s6, r4);
    LoadFirstRef(f.messages, s6, r5);
    LoadFront(f.configAddress, rest, r5);
    LoadFirstRef(f.config, rest, refs);
  }
}

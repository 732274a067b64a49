module Reads {
  // Reads through a proof: dictionary, shard tree, account and block reads on a covering tree
  // give the full tree's answer or none.

  import opened Basics
  import opened Cells
  import opened Packing
  import opened Hashing
  import opened Collisions
  import opened Merkle
  import opened DictTree
  import opened DictCells
  import opened Dicts

  // ---------------------------------------------------------------- reading a cell in order

  function Parse(c: Cell): Payload { Payload(c.bits, c.refs) }

  function LoadBits(s: Payload, n: nat): Result<(Bits, Payload)> {
    if |s.bits| < n then Err(NotEnoughBits) else Ok((s.bits[..n], Payload(s.bits[n..], s.refs)))
  }

  function LoadRef(s: Payload): Result<(Cell, Payload)> {
    if s.refs == [] then Err(NotEnoughRefs) else Ok((s.refs[0], Payload(s.bits, s.refs[1..])))
  }

  function LoadMaybeRef(s: Payload): Result<(Option<Cell>, Payload)> {
    var (bit, rest) :- LoadBits(s, 1);
    if !bit[0] then Ok((None, rest))
    else
      var (cell, rest) :- LoadRef(rest);
      Ok((Some(cell), rest))
  }

  /** An amount: four bits of length, then that many bytes. */
  function SkipCoins(s: Payload): Result<Payload> {
    var (length, rest) :- LoadBits(s, 4);
    var (_, rest) :- LoadBits(rest, 8 * Value(length));
    Ok(rest)
  }

  /** Whether a cell opens with the `width`-bit constructor tag `tag`. */
  function CheckTag(c: Cell, width: nat, tag: nat): Result<()> {
    var (bits, _) :- LoadBits(Parse(c), width);
    if Value(bits) == tag then Ok(()) else Err(WrongConstructor)
  }

  const BLOCK_TAG := 0x11ef55aa
  const SHARD_STATE_TAG := 0x9023afe2
  const MC_STATE_EXTRA_TAG := 0xcc26
  const MAX_SPLIT_DEPTH: nat := 60
  const MASTERCHAIN := -1

  // ---------------------------------------------------------------- the shard tree

  datatype ShardDescr = ShardDescr(seqno: nat, rootHash: seq<byte>)

  /** A shard's record: its tag, its block's number, three fields passed over, its block's hash. */
  function LoadShardDescr(s: Payload): Result<ShardDescr> {
    var (tag, s) :- LoadBits(s, 4);
    if Value(tag) != 0xa && Value(tag) != 0xb then Err(WrongConstructor)
    else
      var (seqno, s) :- LoadBits(s, 32);
      var (_, s) :- LoadBits(s, 160);
      var (hash, _) :- LoadBits(s, 256);
      Ok(ShardDescr(Value(seqno), Pack(hash)))
  }

  /** The leaf of the shard tree an account falls under, as a recursion over the split depth. */
  function ShardFrom(node: Cell, id: seq<byte>, depth: nat): Result<Lookup<ShardDescr>>
    decreases MAX_SPLIT_DEPTH + 1 - depth
  {
    if depth > MAX_SPLIT_DEPTH then Err(Malformed)
    else if node.IsExotic() then Ok(Withheld)
    else
      var (fork, rest) :- LoadBits(Parse(node), 1);
      if !fork[0] then
        var descr :- LoadShardDescr(rest);
        Ok(Found(descr))
      else if depth / 8 >= |id| || Bit(KeyBit(id, depth)) >= |node.refs| then Err(Malformed)
      else ShardFrom(node.refs[Bit(KeyBit(id, depth))], id, depth + 1)
  }

  /** Walks a shard tree down to the leaf the account's address bits lead to. */
  method FindShard(root: Cell, id: seq<byte>) returns (r: Result<Lookup<ShardDescr>>)
    ensures r == ShardFrom(root, id, 0)
  {
    hide LoadShardDescr, KeyBit;
    var node := root;
    for depth := 0 to MAX_SPLIT_DEPTH + 1
      invariant ShardFrom(root, id, 0) == ShardFrom(node, id, depth)
    {
      if node.IsExotic() { return Ok(Withheld); }
      var fork := LoadBits(Parse(node), 1);
      if fork.Err? { return Err(fork.error); }
      if !fork.value.0[0] {
        var descr := LoadShardDescr(fork.value.1);
        return if descr.Err? then Err(descr.error) else Ok(Found(descr.value));
      }
      if depth / 8 >= |id| || Bit(KeyBit(id, depth)) >= |node.refs| { return Err(Malformed); }
      node := node.refs[Bit(KeyBit(id, depth))];
    }
    return Err(Malformed);
  }

  // ---------------------------------------------------------------- states and blocks

  datatype AccountEntry = AccountEntry(account: Cell, lastHash: seq<byte>, lastLt: nat)

  /** Reads an entry of the accounts dictionary behind its balance summary. */
  function LoadAccount(s: Payload): Result<AccountEntry> {
    var (_, s) :- LoadBits(s, 5);
    var s :- SkipCoins(s);
    var (_, s) :- LoadMaybeRef(s);
    var (account, s) :- LoadRef(s);
    var (hash, s) :- LoadBits(s, 256);
    var (lt, _) :- LoadBits(s, 64);
    Ok(AccountEntry(account, Pack(hash), Value(lt)))
  }

  /** What a state says about an account. A withheld dictionary is a shrug, not an empty one. */
  function StateAccount(state: Cell, id: seq<byte>): Result<Lookup<AccountEntry>> {
    if |state.refs| < 2 then Err(Malformed)
    else if state.refs[1].IsExotic() then Ok(Withheld)
    else
      var (root, _) :- LoadMaybeRef(Parse(state.refs[1]));
      if root.None? then Ok(Absent)
      else
        var key :- KeyOf(id, 256);
        AccountAt(root.value, key)
  }

  function AccountAt(root: Cell, key: Bits): Result<Lookup<AccountEntry>> {
    var answer :- LookupFrom(PLAIN, root, key);
    match answer
    case Withheld => Ok(Withheld)
    case Absent => Ok(Absent)
    case Found((_, entry)) =>
      var (_, leaf) :- LoadBits(Parse(entry.cell), entry.offset);
      var account :- LoadAccount(leaf);
      Ok(Found(account))
  }

  /** Whether a state carries a masterchain extra, past the fields before that bit. */
  function HasExtra(state: Cell): Result<bool> {
    var (_, s) :- LoadBits(Parse(state), 64);
    var (ident, s) :- LoadBits(s, 2);
    if Value(ident) != 0 then Err(Malformed)
    else
      var (_, s) :- LoadBits(s, 102);
      var (_, s) :- LoadBits(s, 193);
      var (custom, _) :- LoadBits(s, 1);
      Ok(custom[0])
  }

  function MasterchainExtra(state: Cell): Result<Lookup<Cell>> {
    var present :- HasExtra(state);
    if !present then Ok(Absent)
    else if |state.refs| < 4 then Err(Malformed)
    else if state.refs[3].IsExotic() then Ok(Withheld)
    else
      var _ :- CheckTag(state.refs[3], 16, MC_STATE_EXTRA_TAG);
      Ok(Found(state.refs[3]))
  }

  /** A workchain number as a key: its thirty-two bits in two's complement. */
  function WorkchainKey(workchain: int): Bits { ToBits(workchain % 0x1_0000_0000, 32) }

  function ShardFor(extra: Cell, workchain: int, id: seq<byte>): Result<Lookup<ShardDescr>> {
    var (_, s) :- LoadBits(Parse(extra), 16);
    var (root, _) :- LoadMaybeRef(s);
    if root.None? then Ok(Absent) else ShardUnder(root.value, WorkchainKey(workchain), id)
  }

  function ShardUnder(root: Cell, key: Bits, id: seq<byte>): Result<Lookup<ShardDescr>> {
    var answer :- LookupFrom(PLAIN, root, key);
    match answer
    case Withheld => Ok(Withheld)
    case Absent => Ok(Absent)
    case Found((_, entry)) =>
      var (_, leaf) :- LoadBits(Parse(entry.cell), entry.offset);
      var (tree, _) :- LoadRef(leaf);
      ShardFrom(tree, id, 0)
  }

  /** The shard a masterchain state records for an account. */
  function RecordedShard(state: Cell, workchain: int, id: seq<byte>): Result<Lookup<ShardDescr>> {
    var extra :- MasterchainExtra(state);
    match extra
    case Found(cell) => ShardFor(cell, workchain, id)
    case Absent => Ok(Absent)
    case Withheld => Ok(Withheld)
  }

  /** The hash of the state a block leaves behind, as its update names it. */
  function NewStateHash(block: Cell): Result<Hash> {
    if |block.refs| < 3 || !block.refs[2].kind.MerkleUpdate? then Err(Malformed)
    else if HashIn(block.refs[2], 33).None? then Err(Malformed)
    else Ok(HashIn(block.refs[2], 33).value)
  }

  // ---------------------------------------------------------------- what a covering tree reads as

  ghost predicate CoversAll(sha: Sha, s: Payload, t: Payload) {
    s.bits == t.bits && |s.refs| == |t.refs| && forall i :: 0 <= i < |s.refs| ==> Covers(sha, s.refs[i], t.refs[i])
  }

  lemma {:induction false} ParsedAlike(sha: Sha, p: Cell, f: Cell)
    requires Covers(sha, p, f) && !p.IsExotic()
    ensures CoversAll(sha, Parse(p), Parse(f)) && !f.IsExotic()
  {}

  lemma {:induction false} CoversBelow(sha: Sha, p: Cell, f: Cell, i: nat)
    requires Covers(sha, p, f) && !p.IsExotic() && i < |p.refs|
    ensures |p.refs| == |f.refs| && Covers(sha, p.refs[i], f.refs[i])
  {}

  /** Where a covering tree shows a cell at all, it shows the full tree's own. */
  lemma {:induction false} ShownAlike(sha: Sha, p: Cell, f: Cell)
    requires Covers(sha, p, f)
    ensures !p.IsExotic() ==> !f.IsExotic() && p.bits == f.bits && |p.refs| == |f.refs|
    ensures p.kind.MerkleUpdate? ==> f.kind.MerkleUpdate? && p.bits == f.bits
  {}

  /** Two lookups that end alike, landing on the same leaf of a tree and of one covering it. */
  ghost predicate LandsAlike(sha: Sha, a: Result<Answer<()>>, b: Result<Answer<()>>) {
    match a
    case Err(e) => b == Err(e)
    case Ok(Withheld) => true
    case Ok(Absent) => b == Ok(Absent)
    case Ok(Found((_, entry))) =>
      && b.Ok? && b.value.Found? && b.value.value.1.offset == entry.offset
      && CoversAll(sha, Parse(entry.cell), Parse(b.value.value.1.cell))
  }

  /**
    A dictionary read through a proof is withheld, or is the read of the full dictionary: a
    pruned branch is never an absence, and no absence or entry is other than the true one.
   */
  lemma {:induction false} ProvedLookup(sha: Sha, p: Cell, f: Cell, key: Bits)
    requires Covers(sha, p, f)
    ensures LandsAlike(sha, LookupFrom(PLAIN, p, key), LookupFrom(PLAIN, f, key))
    decreases |key|
  {
    hide ReadEdge, FirstGap, Covers;
    if !p.IsExotic() {
      ParsedAlike(sha, p, f);
      var read := ReadEdge(PLAIN, p.bits, |key|);
      if read.Ok? {
        var (edge, s) := read.value;
        if Diverges(edge, key).None? && |edge| < |key| {
          var branch := Bit(key[|edge|]);
          if branch < |p.refs| {
            CoversBelow(sha, p, f, branch);
            ProvedLookup(sha, p.refs[branch], f.refs[branch], key[|edge| + 1..]);
          }
        }
      }
    }
  }

  lemma {:induction false} SameBitsSameDescr(s: Payload, t: Payload)
    requires s.bits == t.bits
    ensures LoadShardDescr(s) == LoadShardDescr(t)
  {}

  /** The shard tree read through a proof: withheld, or the record the full tree holds. */
  lemma {:induction false} ProvedShard(sha: Sha, p: Cell, f: Cell, id: seq<byte>, depth: nat)
    requires Covers(sha, p, f)
    ensures ShardFrom(p, id, depth) == Ok(Withheld) || ShardFrom(p, id, depth) == ShardFrom(f, id, depth)
    decreases MAX_SPLIT_DEPTH + 1 - depth
  {
    hide LoadShardDescr, KeyBit, Covers;
    if depth <= MAX_SPLIT_DEPTH && !p.IsExotic() {
      ParsedAlike(sha, p, f);
      var branch := Bit(KeyBit(id, depth));
      if |p.bits| > 0 { SameBitsSameDescr(LoadBits(Parse(p), 1).value.1, LoadBits(Parse(f), 1).value.1); }
      if branch < |p.refs| {
        CoversBelow(sha, p, f, branch);
        ProvedShard(sha, p.refs[branch], f.refs[branch], id, depth + 1);
      }
    }
  }

  lemma {:induction false} LoadRefAlike(sha: Sha, s: Payload, t: Payload)
    requires CoversAll(sha, s, t)
    ensures LoadRef(s).Ok? == LoadRef(t).Ok?
    ensures LoadRef(s).Ok? ==>
      Covers(sha, LoadRef(s).value.0, LoadRef(t).value.0) && CoversAll(sha, LoadRef(s).value.1, LoadRef(t).value.1)
  {
    hide Covers;
  }

  lemma {:induction false} LoadBitsAlike(sha: Sha, s: Payload, t: Payload, n: nat)
    requires CoversAll(sha, s, t)
    ensures LoadBits(s, n).Ok? == LoadBits(t, n).Ok?
    ensures LoadBits(s, n).Ok? ==>
      LoadBits(s, n).value.0 == LoadBits(t, n).value.0 && CoversAll(sha, LoadBits(s, n).value.1, LoadBits(t, n).value.1)
  {
    hide Covers;
  }

  lemma {:induction false} LoadMaybeRefAlike(sha: Sha, s: Payload, t: Payload)
    requires CoversAll(sha, s, t)
    ensures LoadMaybeRef(s).Ok? == LoadMaybeRef(t).Ok?
    ensures LoadMaybeRef(s).Ok? ==>
      var (a, b) := (LoadMaybeRef(s).value, LoadMaybeRef(t).value);
      && a.0.Some? == b.0.Some? && (a.0.Some? ==> Covers(sha, a.0.value, b.0.value))
      && CoversAll(sha, a.1, b.1)
  {
    hide Covers, CoversAll, LoadBits, LoadRef;
    LoadBitsAlike(sha, s, t, 1);
    if LoadBits(s, 1).Ok? { LoadRefAlike(sha, LoadBits(s, 1).value.1, LoadBits(t, 1).value.1); }
  }

  ghost predicate SameEntry(sha: Sha, a: AccountEntry, b: AccountEntry) {
    Covers(sha, a.account, b.account) && a.lastHash == b.lastHash && a.lastLt == b.lastLt
  }

  lemma {:induction false} CoinsAlike(sha: Sha, s: Payload, t: Payload)
    requires CoversAll(sha, s, t)
    ensures SkipCoins(s).Ok? == SkipCoins(t).Ok?
      && (SkipCoins(s).Ok? ==> CoversAll(sha, SkipCoins(s).value, SkipCoins(t).value))
  {
    hide Covers, CoversAll, LoadBits;
    LoadBitsAlike(sha, s, t, 4);
    if LoadBits(s, 4).Ok? {
      LoadBitsAlike(sha, LoadBits(s, 4).value.1, LoadBits(t, 4).value.1, 8 * Value(LoadBits(s, 4).value.0));
    }
  }

  lemma {:induction false} LoadAccountAlike(sha: Sha, s: Payload, t: Payload)
    requires CoversAll(sha, s, t)
    ensures LoadAccount(s).Ok? == LoadAccount(t).Ok?
    ensures LoadAccount(s).Ok? ==> SameEntry(sha, LoadAccount(s).value, LoadAccount(t).value)
  {
    hide Covers, CoversAll, LoadBits, LoadRef, LoadMaybeRef, SkipCoins, Pack;
    LoadBitsAlike(sha, s, t, 5);
    if LoadBits(s, 5).Err? { return; }
    var (s1, t1) := (LoadBits(s, 5).value.1, LoadBits(t, 5).value.1);
    CoinsAlike(sha, s1, t1);
    if SkipCoins(s1).Err? { return; }
    var (s2, t2) := (SkipCoins(s1).value, SkipCoins(t1).value);
    LoadMaybeRefAlike(sha, s2, t2);
    if LoadMaybeRef(s2).Err? { return; }
    var (s3, t3) := (LoadMaybeRef(s2).value.1, LoadMaybeRef(t2).value.1);
    LoadRefAlike(sha, s3, t3);
    if LoadRef(s3).Err? { return; }
    var (s4, t4) := (LoadRef(s3).value.1, LoadRef(t3).value.1);
    LoadBitsAlike(sha, s4, t4, 256);
    if LoadBits(s4, 256).Err? { return; }
    LoadBitsAlike(sha, LoadBits(s4, 256).value.1, LoadBits(t4, 256).value.1, 64);
  }

  /** Two reads of an account that agree, unless the first was withheld. */
  ghost predicate ReadsAlike(sha: Sha, a: Result<Lookup<AccountEntry>>, b: Result<Lookup<AccountEntry>>) {
    match a
    case Err(_) => b.Err?
    case Ok(Withheld) => true
    case Ok(Absent) => b == Ok(Absent)
    case Ok(Found(entry)) => b.Ok? && b.value.Found? && SameEntry(sha, entry, b.value.value)
  }

  lemma {:induction false} AccountAtAlike(sha: Sha, p: Cell, f: Cell, key: Bits)
    requires Covers(sha, p, f)
    ensures ReadsAlike(sha, AccountAt(p, key), AccountAt(f, key))
  {
    hide Covers, CoversAll, LookupFrom, LoadAccount, LoadBits, SameEntry;
    ProvedLookup(sha, p, f, key);
    var (a, b) := (LookupFrom(PLAIN, p, key), LookupFrom(PLAIN, f, key));
    if a.Ok? && a.value.Found? {
      var (x, y) := (a.value.value.1, b.value.value.1);
      LoadBitsAlike(sha, Parse(x.cell), Parse(y.cell), x.offset);
      if LoadBits(Parse(x.cell), x.offset).Ok? {
        LoadAccountAlike(sha, LoadBits(Parse(x.cell), x.offset).value.1, LoadBits(Parse(y.cell), y.offset).value.1);
      }
    }
  }

  /** What a proved state says about an account is withheld, or is what the full state says. */
  lemma {:induction false} ProvedAccount(sha: Sha, p: Cell, f: Cell, id: seq<byte>)
    requires Covers(sha, p, f) && !p.IsExotic()
    ensures ReadsAlike(sha, StateAccount(p, id), StateAccount(f, id))
  {
    hide Covers, CoversAll, AccountAt, SameEntry, LoadMaybeRef, KeyOf;
    ShownAlike(sha, p, f);
    if |p.refs| >= 2 {
      CoversBelow(sha, p, f, 1);
      if !p.refs[1].IsExotic() {
        ParsedAlike(sha, p.refs[1], f.refs[1]);
        LoadMaybeRefAlike(sha, Parse(p.refs[1]), Parse(f.refs[1]));
        var root := LoadMaybeRef(Parse(p.refs[1]));
        if root.Ok? && root.value.0.Some? && KeyOf(id, 256).Ok? {
          AccountAtAlike(sha, root.value.0.value, LoadMaybeRef(Parse(f.refs[1])).value.0.value, KeyOf(id, 256).value);
        }
      }
    }
  }

  lemma {:induction false} ShardUnderAlike(sha: Sha, p: Cell, f: Cell, key: Bits, id: seq<byte>)
    requires Covers(sha, p, f)
    ensures ShardUnder(p, key, id).Ok? && ShardUnder(p, key, id).value != Withheld ==>
      ShardUnder(p, key, id) == ShardUnder(f, key, id)
  {
    hide Covers, CoversAll, LookupFrom, LoadBits, LoadRef, ShardFrom;
    ProvedLookup(sha, p, f, key);
    var (a, b) := (LookupFrom(PLAIN, p, key), LookupFrom(PLAIN, f, key));
    if a.Ok? && a.value.Found? {
      var (x, y) := (a.value.value.1, b.value.value.1);
      LoadBitsAlike(sha, Parse(x.cell), Parse(y.cell), x.offset);
      if LoadBits(Parse(x.cell), x.offset).Ok? {
        var (s, t) := (LoadBits(Parse(x.cell), x.offset).value.1, LoadBits(Parse(y.cell), y.offset).value.1);
        LoadRefAlike(sha, s, t);
        if LoadRef(s).Ok? { ProvedShard(sha, LoadRef(s).value.0, LoadRef(t).value.0, id, 0); }
      }
    }
  }

  lemma {:induction false} ShardForAlike(sha: Sha, p: Cell, f: Cell, workchain: int, id: seq<byte>)
    requires Covers(sha, p, f) && !p.IsExotic()
    ensures ShardFor(p, workchain, id).Ok? && ShardFor(p, workchain, id).value != Withheld ==>
      ShardFor(p, workchain, id) == ShardFor(f, workchain, id)
  {
    hide Covers, CoversAll, LoadBits, LoadMaybeRef, ShardUnder;
    ParsedAlike(sha, p, f);
    LoadBitsAlike(sha, Parse(p), Parse(f), 16);
    if LoadBits(Parse(p), 16).Ok? {
      var (s, t) := (LoadBits(Parse(p), 16).value.1, LoadBits(Parse(f), 16).value.1);
      LoadMaybeRefAlike(sha, s, t);
      var root := LoadMaybeRef(s);
      if root.Ok? && root.value.0.Some? {
        ShardUnderAlike(sha, root.value.0.value, LoadMaybeRef(t).value.0.value, WorkchainKey(workchain), id);
      }
    }
  }

  lemma {:induction false} SameBitsSameExtra(a: Cell, b: Cell)
    requires a.bits == b.bits
    ensures HasExtra(a) == HasExtra(b)
  {
    assert forall n: nat :: LoadBits(Parse(a), n).Ok? == LoadBits(Parse(b), n).Ok?;
  }

  /** The shard a proved masterchain state records is withheld, or is the one recorded. */
  lemma {:induction false} ProvedRecord(sha: Sha, p: Cell, f: Cell, workchain: int, id: seq<byte>)
    requires Covers(sha, p, f) && !p.IsExotic()
    ensures RecordedShard(p, workchain, id).Ok? && RecordedShard(p, workchain, id).value != Withheld ==>
      RecordedShard(p, workchain, id) == RecordedShard(f, workchain, id)
  {
    hide Covers, HasExtra, ShardFor, CheckTag;
    ShownAlike(sha, p, f);
    SameBitsSameExtra(p, f);
    if |p.refs| >= 4 && !p.refs[3].IsExotic() {
      CoversBelow(sha, p, f, 3);
      ShownAlike(sha, p.refs[3], f.refs[3]);
      SameTag(p.refs[3], f.refs[3], 16, MC_STATE_EXTRA_TAG);
      ShardForAlike(sha, p.refs[3], f.refs[3], workchain, id);
    }
  }

  lemma {:induction false} SameTag(a: Cell, b: Cell, width: nat, tag: nat)
    requires a.bits == b.bits
    ensures CheckTag(a, width, tag) == CheckTag(b, width, tag)
  {}

  /** The state hash a proved block names is the one the full block names. */
  lemma {:induction false} ProvedStateHash(sha: Sha, p: Cell, f: Cell)
    requires Covers(sha, p, f) && !p.IsExotic() && NewStateHash(p).Ok?
    ensures NewStateHash(f) == NewStateHash(p)
  {
    hide Covers, HashIn;
    ShownAlike(sha, p, f);
    CoversBelow(sha, p, f, 2);
    ShownAlike(sha, p.refs[2], f.refs[2]);
    assert HashIn(p.refs[2], 33) == HashIn(f.refs[2], 33) by { SameHashIn(p.refs[2], f.refs[2], 33); }
  }

  lemma {:induction false} SameHashIn(a: Cell, b: Cell, at: nat)
    requires a.bits == b.bits
    ensures HashIn(a, at) == HashIn(b, at)
  {}
}

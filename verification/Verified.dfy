module Verified {
  // The engine's own checks over parsed proofs, and what an accepted account read is worth: it is
  // the account the true state holds, cell for cell, or a true absence.

  import opened Basics
  import opened Cells
  import opened Packing
  import opened Hashing
  import opened Collisions
  import opened Merkle
  import opened DictTree
  import opened DictCells
  import opened Dicts
  import opened Reads
  import BocRead
  import BocRoundTrip

  // ---------------------------------------------------------------- the checks

  /** The first proof from `i` on that claims this root, checked. */
  function RootedFrom(sha: Sha, roots: seq<Cell>, expected: Hash, i: nat): Result<Cell>
    requires i <= |roots|
    decreases |roots| - i
  {
    if i == |roots| then Err(ProofNotAnchored)
    else if roots[i].kind.MerkleProof? && HashIn(roots[i], 1) == Some(expected) then
      VerifyMerkleProof(sha, roots[i], expected)
    else RootedFrom(sha, roots, expected, i + 1)
  }

  method RootedAt(sha: Sha, roots: seq<Cell>, expected: Hash) returns (r: Result<Cell>)
    ensures r == RootedFrom(sha, roots, expected, 0)
  {
    hide VerifyMerkleProof, HashIn;
    for i := 0 to |roots|
      invariant RootedFrom(sha, roots, expected, 0) == RootedFrom(sha, roots, expected, i)
    {
      if roots[i].kind.MerkleProof? && HashIn(roots[i], 1) == Some(expected) {
        return VerifyMerkleProof(sha, roots[i], expected);
      }
    }
    return Err(ProofNotAnchored);
  }

  /** The state hash named inside a proved block. */
  function BlockState(sha: Sha, roots: seq<Cell>, blockHash: Hash): Result<Hash> {
    var block :- RootedFrom(sha, roots, blockHash, 0);
    var _ :- CheckTag(block, 32, BLOCK_TAG);
    NewStateHash(block)
  }

  function ShardState(sha: Sha, roots: seq<Cell>, stateHash: Hash): Result<Cell> {
    var state :- RootedFrom(sha, roots, stateHash, 0);
    var _ :- CheckTag(state, 32, SHARD_STATE_TAG);
    Ok(state)
  }

  /** The state a block leaves behind, as far as the proofs show it. */
  function ProvedState(sha: Sha, roots: seq<Cell>, blockHash: Hash): Result<Cell> {
    var stateHash :- BlockState(sha, roots, blockHash);
    ShardState(sha, roots, stateHash)
  }

  /** The block hash a masterchain state records for the shard of an account. */
  function RecordedBlock(state: Cell, workchain: int, id: seq<byte>): Result<Hash> {
    var extra :- MasterchainExtra(state);
    if !extra.Found? then Err(NotCovered)
    else
      var record :- ShardFor(extra.value, workchain, id);
      match record
      case Found(descr) => if |descr.rootHash| == 32 then Ok(descr.rootHash) else Err(Malformed)
      case Absent => Err(Malformed)
      case Withheld => Err(NotCovered)
  }

  /** Derives, under the trusted block, which shard block an account is to be read from. */
  function VerifyShardBlock(sha: Sha, proof: Result<seq<Cell>>, trusted: Hash, workchain: int,
      id: seq<byte>): Result<Hash> {
    var roots :- proof;
    var state :- ProvedState(sha, roots, trusted);
    RecordedBlock(state, workchain, id)
  }

  lemma {:induction false} RecordedBlockIs(state: Cell, workchain: int, id: seq<byte>, hash: Hash)
    ensures RecordedBlock(state, workchain, id) == Ok(hash) <==>
      && RecordedShard(state, workchain, id).Ok? && RecordedShard(state, workchain, id).value.Found?
      && RecordedShard(state, workchain, id).value.value.rootHash == hash
  {
    hide MasterchainExtra, ShardFor;
  }

  /** All of a server's answer to a read, its bags parsed or failed. */
  datatype AccountRead = AccountRead(
    trusted: Hash, workchain: int, id: seq<byte>,
    shardProof: Result<seq<Cell>>, proof: Result<seq<Cell>>, stateIsEmpty: bool, state: Result<seq<Cell>>)

  datatype Verdict = Nonexistent | Account(root: Cell)

  function BlockOf(sha: Sha, read: AccountRead): Result<Hash> {
    if read.workchain == MASTERCHAIN then Ok(read.trusted)
    else VerifyShardBlock(sha, read.shardProof, read.trusted, read.workchain, read.id)
  }

  /** Whether the account sent is the one the proof binds: whole, ordinary, and of that hash. */
  function BindAccount(sha: Sha, read: AccountRead, entry: AccountEntry): Result<Verdict> {
    if read.stateIsEmpty then Err(NotBound)
    else
      var roots :- read.state;
      if roots == [] then Err(Malformed)
      else if roots[0].IsExotic() || roots[0].mask != NO_LEVELS then Err(NotBound)
      else if LevelZero(sha, roots[0]) != LevelZero(sha, entry.account) then Err(NotBound)
      else Ok(Account(roots[0]))
  }

  function VerifyAccount(sha: Sha, read: AccountRead): Result<Verdict> {
    var blockHash :- BlockOf(sha, read);
    var roots :- read.proof;
    var state :- ProvedState(sha, roots, blockHash);
    var answer :- StateAccount(state, read.id);
    match answer
    case Withheld => Err(NotCovered)
    case Absent => if read.stateIsEmpty then Ok(Nonexistent) else Err(NotBound)
    case Found(entry) => BindAccount(sha, read, entry)
  }

  // ---------------------------------------------------------------- what they are worth

  ghost predicate AllSound(cells: seq<Cell>) { forall i :: 0 <= i < |cells| ==> Sound(cells[i]) }

  ghost function FedAll(sha: Sha, cells: seq<Cell>): set<seq<byte>> {
    set i: nat, x | i < |cells| && x in Fed(sha, cells[i]) :: x
  }

  /** A full block of this hash, and the full state it leaves behind. */
  ghost predicate Leaves(sha: Sha, blockHash: Hash, block: Cell, state: Cell) {
    Full(block) && Full(state) && LevelZero(sha, block) == blockHash && NewStateHash(block) == Ok(LevelZero(sha, state))
  }

  lemma {:induction false} RootedIsRoot(sha: Sha, roots: seq<Cell>, expected: Hash, i: nat)
    requires AllSound(roots) && i <= |roots| && RootedFrom(sha, roots, expected, i).Ok?
    ensures var c := RootedFrom(sha, roots, expected, i).value;
      Sound(c) && LevelZero(sha, c) == expected && Fed(sha, c) <= FedAll(sha, roots)
    decreases |roots| - i
  {
    hide LevelZero, HashIn, DepthAt, DepthIn, Fits, Classified, Masked;
    if roots[i].kind.MerkleProof? && HashIn(roots[i], 1) == Some(expected) {
      FedBelow(sha, roots[i], 0);
      assert Fed(sha, roots[i]) <= FedAll(sha, roots);
    } else {
      RootedIsRoot(sha, roots, expected, i + 1);
    }
  }

  // A constructor tag no exotic cell opens with: its first byte is past every kind's own.

  lemma {:induction false} Pow2Of24()
    ensures Pow2(24) == 0x1000000
  {
    Pow2Add(8, 8);
    Pow2Add(16, 8);
    assert Pow2(8) == 256;
  }

  lemma {:induction false} FirstByte(c: Cell)
    requires |c.bits| >= 32
    ensures Value(c.bits[..32]) < 0x1000000 * (Pack(c.bits)[0] as int) + 0x1000000
  {
    hide Value, Pow2;
    var top, low := c.bits[..8], c.bits[8..32];
    assert c.bits[..32] == top + low && Padded(c.bits)[..8] == top && Padded(c.bits)[0..8] == top;
    ValueJoins(top, low);
    Pow2Of24();
  }

  lemma {:induction false} TaggedIsOrdinary(c: Cell, tag: nat)
    requires Sound(c) && CheckTag(c, 32, tag).Ok? && tag >= 0x5000000
    ensures !c.IsExotic()
  {
    hide Pack;
    FirstByte(c);
  }

  /** A block's proof and a state's proof cover the block and the state they are rooted at. */
  lemma {:induction false} ProvedStateCovers(sha: Sha, roots: seq<Cell>, blockHash: Hash, block: Cell, state: Cell)
    requires AllSound(roots) && Leaves(sha, blockHash, block, state) && ProvedState(sha, roots, blockHash).Ok?
    requires Distinct(sha, FedAll(sha, roots) + Fed(sha, block) + Fed(sha, state))
    ensures var p := ProvedState(sha, roots, blockHash).value;
      Covers(sha, p, state) && !p.IsExotic() && Fed(sha, p) <= FedAll(sha, roots)
  {
    hide RootedFrom, Fed, FedAll, LevelZero, NewStateHash, CheckTag, Sound, Covers;
    RootedIsRoot(sha, roots, blockHash, 0);
    var shown := RootedFrom(sha, roots, blockHash, 0).value;
    LevelZeroCovers(sha, shown, block);
    TaggedIsOrdinary(shown, BLOCK_TAG);
    ProvedStateHash(sha, shown, block);
    RootedIsRoot(sha, roots, LevelZero(sha, state), 0);
    var p := RootedFrom(sha, roots, LevelZero(sha, state), 0).value;
    LevelZeroCovers(sha, p, state);
    TaggedIsOrdinary(p, SHARD_STATE_TAG);
  }

  /** Among any roots, the first proof that claims a hash is the one it is read from, whatever else comes before. */
  lemma {:induction false} FirstClaimIsRead(sha: Sha, roots: seq<Cell>, expected: Hash, from: nat, i: nat)
    requires from <= i < |roots| && roots[i].kind == MerkleProof && HashIn(roots[i], 1) == Some(expected)
    requires forall j :: from <= j < i ==> roots[j].kind != MerkleProof || HashIn(roots[j], 1) != Some(expected)
    ensures RootedFrom(sha, roots, expected, from) == VerifyMerkleProof(sha, roots[i], expected)
    decreases i - from
  {
    hide VerifyMerkleProof, HashIn;
    if from < i { FirstClaimIsRead(sha, roots, expected, from + 1, i); }
  }

  /** Deriving a shard block through a proof gives the full masterchain state's record. */
  lemma {:induction false} ShardBlockIsRecorded(
      sha: Sha, roots: seq<Cell>, trusted: Hash, workchain: int, id: seq<byte>, block: Cell, state: Cell)
    requires AllSound(roots) && Leaves(sha, trusted, block, state)
    requires VerifyShardBlock(sha, Ok(roots), trusted, workchain, id).Ok?
    requires Distinct(sha, FedAll(sha, roots) + Fed(sha, block) + Fed(sha, state))
    ensures var record := RecordedShard(state, workchain, id);
      && record.Ok? && record.value.Found?
      && VerifyShardBlock(sha, Ok(roots), trusted, workchain, id) == Ok(record.value.value.rootHash)
  {
    hide ProvedState, RecordedShard, RecordedBlock, Leaves, AllSound, Covers;
    var shown := ProvedState(sha, roots, trusted).value;
    ProvedStateCovers(sha, roots, trusted, block, state);
    RecordedBlockIs(shown, workchain, id, RecordedBlock(shown, workchain, id).value);
    ProvedRecord(sha, shown, state, workchain, id);
  }

  /** The verdict the full state gives. */
  ghost predicate True(verdict: Verdict, answer: Result<Lookup<AccountEntry>>) {
    match verdict
    case Nonexistent => answer == Ok(Absent)
    case Account(root) => answer.Ok? && answer.value.Found? && answer.value.value.account == root
  }

  /** An account bound to a covering entry is the account the full state holds, cell for cell. */
  lemma {:induction false} BoundIsTrue(sha: Sha, read: AccountRead, shown: AccountEntry, held: AccountEntry)
    requires SameEntry(sha, shown, held) && BindAccount(sha, read, shown).Ok?
    requires read.state.Ok? ==>
      AllSound(read.state.value) && Distinct(sha, FedAll(sha, read.state.value) + Fed(sha, held.account))
    ensures BindAccount(sha, read, shown) == Ok(Account(held.account))
  {
    hide LevelZero, Fed;
    var root := read.state.value[0];
    assert Fed(sha, root) <= FedAll(sha, read.state.value);
    FullIsIdentified(sha, root, held.account);
  }

  lemma {:induction false} LookupWithin(sha: Sha, root: Cell, key: Bits, i: nat)
    requires var found := LookupFrom(PLAIN, root, key);
      found.Ok? && found.value.Found? && i < |found.value.value.1.cell.refs|
    ensures Fed(sha, LookupFrom(PLAIN, root, key).value.value.1.cell.refs[i]) <= Fed(sha, root)
    decreases |key|
  {
    hide ReadEdge, ReadExtra, FirstGap, Fed;
    var (edge, s) := ReadEdge(PLAIN, root.bits, |key|).value;
    if |edge| == |key| {
      FedBelow(sha, root, i);
    } else {
      var branch := Bit(key[|edge|]);
      LookupWithin(sha, root.refs[branch], key[|edge| + 1..], i);
      FedBelow(sha, root, branch);
    }
  }

  lemma {:induction false} MaybeRefIsRef(s: Payload)
    requires LoadMaybeRef(s).Ok?
    ensures LoadMaybeRef(s).value.0.Some? ==> LoadMaybeRef(s).value.0.value in s.refs
    ensures forall c :: c in LoadMaybeRef(s).value.1.refs ==> c in s.refs
  {}

  lemma {:induction false} AccountIsRef(s: Payload)
    requires LoadAccount(s).Ok?
    ensures LoadAccount(s).value.account in s.refs
  {
    hide LoadMaybeRef, Pack, Value;
    var t := SkipCoins(LoadBits(s, 5).value.1).value;
    MaybeRefIsRef(t);
  }

  /** An account read out of a state is part of it. */
  lemma {:induction false} AccountWithin(sha: Sha, state: Cell, id: seq<byte>)
    requires StateAccount(state, id).Ok? && StateAccount(state, id).value.Found?
    ensures Fed(sha, StateAccount(state, id).value.value.account) <= Fed(sha, state)
  {
    hide Fed, LookupFrom, LoadAccount, LoadMaybeRef, KeyOf;
    var accounts := state.refs[1];
    MaybeRefIsRef(Parse(accounts));
    var root, key := LoadMaybeRef(Parse(accounts)).value.0.value, KeyOf(id, 256).value;
    var entry := LookupFrom(PLAIN, root, key).value.value.1;
    AccountIsRef(LoadBits(Parse(entry.cell), entry.offset).value.1);
    var i :| 0 <= i < |entry.cell.refs| && entry.cell.refs[i] == StateAccount(state, id).value.value.account;
    LookupWithin(sha, root, key, i);
    var j :| 0 <= j < |accounts.refs| && accounts.refs[j] == root;
    FedBelow(sha, accounts, j);
    FedBelow(sha, state, 1);
  }

  ghost predicate Readable(sha: Sha, parsed: Result<seq<Cell>>, inputs: set<seq<byte>>) {
    parsed.Ok? ==> AllSound(parsed.value) && FedAll(sha, parsed.value) <= inputs
  }

  /** Whatever bytes a proof arrives as, what they parse to is well made: nothing is asked of the server. */
  lemma {:induction false} ParsedIsReadable(sha: Sha, bytes: seq<byte>, ceiling: nat, inputs: set<seq<byte>>)
    requires BocRead.ParseBoc(sha, bytes, ceiling).Ok? ==>
      FedAll(sha, BocRead.ParseBoc(sha, bytes, ceiling).value) <= inputs
    ensures Readable(sha, BocRead.ParseBoc(sha, bytes, ceiling), inputs)
  {
    hide BocRead.ParseBoc, Sound, FedAll;
    if BocRead.ParseBoc(sha, bytes, ceiling).Ok? { BocRoundTrip.ParsedIsSound(sha, bytes, ceiling); }
  }

  /** An accepted read against a block that leaves this state is what the state says. */
  lemma {:induction false} StateReadIsTrue(sha: Sha, read: AccountRead, inputs: set<seq<byte>>, block: Cell,
      state: Cell)
    requires VerifyAccount(sha, read).Ok? && BlockOf(sha, read).Ok?
      && Leaves(sha, BlockOf(sha, read).value, block, state)
    requires Distinct(sha, inputs) && Fed(sha, block) + Fed(sha, state) <= inputs
    requires Readable(sha, read.proof, inputs) && Readable(sha, read.state, inputs)
    ensures True(VerifyAccount(sha, read).value, StateAccount(state, read.id))
  {
    hide ProvedState, StateAccount, BlockOf, BindAccount, Leaves, AllSound, Covers, Distinct, Fed, FedAll, SameEntry;
    var roots, blockHash := read.proof.value, BlockOf(sha, read).value;
    FewerDistinct(sha, FedAll(sha, roots) + Fed(sha, block) + Fed(sha, state), inputs);
    ProvedStateCovers(sha, roots, blockHash, block, state);
    var shown := ProvedState(sha, roots, blockHash).value;
    ProvedAccount(sha, shown, state, read.id);
    var answer := StateAccount(shown, read.id).value;
    if answer.Found? {
      var held := StateAccount(state, read.id).value.value;
      AccountWithin(sha, state, read.id);
      if read.state.Ok? { FewerDistinct(sha, FedAll(sha, read.state.value) + Fed(sha, held.account), inputs); }
      BoundIsTrue(sha, read, answer.value, held);
    }
  }

  /**
    An account read that passes is the truth. For the masterchain the state is the trusted
    block's own; for a shard it is the state of the block the trusted masterchain state records,
    whatever block the server answered out of. With no collision among what was hashed, an
    accepted account is the account of that state cell for cell, and an accepted absence is an
    absence: leaving a branch out of a proof never reads as one.
   */
  lemma {:induction false} AccountReadIsTrue(
      sha: Sha, read: AccountRead, inputs: set<seq<byte>>, mcBlock: Cell, mcState: Cell, block: Cell, state: Cell)
    requires VerifyAccount(sha, read).Ok? && Leaves(sha, read.trusted, mcBlock, mcState)
    requires read.workchain == MASTERCHAIN ==> block == mcBlock && state == mcState
    requires read.workchain != MASTERCHAIN ==>
      var record := RecordedShard(mcState, read.workchain, read.id);
      record.Ok? && record.value.Found? && |record.value.value.rootHash| == 32 ==>
        Leaves(sha, record.value.value.rootHash, block, state)
    requires Distinct(sha, inputs) && Fed(sha, mcBlock) + Fed(sha, mcState) + Fed(sha, block)
      + Fed(sha, state) <= inputs
    requires Readable(sha, read.shardProof, inputs) && Readable(sha, read.proof, inputs)
      && Readable(sha, read.state, inputs)
    ensures True(VerifyAccount(sha, read).value, StateAccount(state, read.id))
    ensures VerifyAccount(sha, read).value.Nonexistent? <==> read.stateIsEmpty
    ensures read.workchain != MASTERCHAIN ==>
      RecordedShard(mcState, read.workchain, read.id).Ok?
        && RecordedShard(mcState, read.workchain, read.id).value.Found?
  {
    hide ProvedState, StateAccount, RecordedShard, BindAccount, Leaves, AllSound, Distinct, Fed, FedAll, True;
    if read.workchain != MASTERCHAIN {
      var roots := read.shardProof.value;
      FewerDistinct(sha, FedAll(sha, roots) + Fed(sha, mcBlock) + Fed(sha, mcState), inputs);
      ShardBlockIsRecorded(sha, roots, read.trusted, read.workchain, read.id, mcBlock, mcState);
    }
    StateReadIsTrue(sha, read, inputs, block, state);
    EmptyIsNonexistent(sha, read);
  }

  /** An answer of nothing and an answer of something are never taken for each other. */
  lemma {:induction false} EmptyIsNonexistent(sha: Sha, read: AccountRead)
    requires VerifyAccount(sha, read).Ok?
    ensures VerifyAccount(sha, read).value.Nonexistent? <==> read.stateIsEmpty
  {
    hide ProvedState, StateAccount, BlockOf, LevelZero;
  }

  // ---------------------------------------------------------------- an honest answer passes

  /** A block and the state it leaves, each whole or already cut down, that a proof may be built over. */
  ghost predicate Provable(sha: Sha, block: Cell, state: Cell) {
    && Sound(block) && !block.IsExotic() && Sound(state) && !state.IsExotic()
    && LevelZero(sha, block) != LevelZero(sha, state)
    && CheckTag(block, 32, BLOCK_TAG).Ok? && CheckTag(state, 32, SHARD_STATE_TAG).Ok?
    && NewStateHash(block) == Ok(LevelZero(sha, state))
  }

  /** The two proofs a read is sent with. */
  function ProofsOf(sha: Sha, block: Cell, state: Cell): Result<seq<Cell>> {
    var blockProof :- CreateProof(sha, block);
    var stateProof :- CreateProof(sha, state);
    Ok([blockProof, stateProof])
  }

  /** The answer of a server that holds the cells the verdict depends on. */
  function HonestRead(
      sha: Sha, trusted: Hash, workchain: int, id: seq<byte>, shardProof: Result<seq<Cell>>, proof: Result<seq<Cell>>,
      held: Lookup<AccountEntry>): AccountRead
  {
    AccountRead(trusted, workchain, id, shardProof, proof, !held.Found?,
      Ok(if held.Found? then [held.value.account] else []))
  }

  lemma {:induction false} HonestRoots(sha: Sha, block: Cell, state: Cell)
    requires Sound(block) && !block.IsExotic() && Sound(state) && !state.IsExotic()
      && LevelZero(sha, block) != LevelZero(sha, state)
    ensures ProofsOf(sha, block, state).Ok?
    ensures var roots := ProofsOf(sha, block, state).value;
      && RootedFrom(sha, roots, LevelZero(sha, block), 0) == Ok(block)
      && RootedFrom(sha, roots, LevelZero(sha, state), 0) == Ok(state)
  {
    hide LevelZero, HashIn, DepthIn, DepthAt, Sound, CreateProof;
    ProofVerifies(sha, block);
    ProofVerifies(sha, state);
    ClaimsRoot(sha, CreateProof(sha, block).value, LevelZero(sha, block));
    ClaimsRoot(sha, CreateProof(sha, state).value, LevelZero(sha, state));
  }

  lemma {:induction false} ClaimsRoot(sha: Sha, proof: Cell, root: Hash)
    requires VerifyMerkleProof(sha, proof, root).Ok?
    ensures proof.kind.MerkleProof? && HashIn(proof, 1) == Some(root)
  {
    hide LevelZero, HashIn, DepthIn, DepthAt;
  }

  lemma {:induction false} HonestState(sha: Sha, block: Cell, state: Cell)
    requires Provable(sha, block, state)
    ensures ProofsOf(sha, block, state).Ok?
    ensures ProvedState(sha, ProofsOf(sha, block, state).value, LevelZero(sha, block)) == Ok(state)
  {
    hide LevelZero, NewStateHash, CheckTag, RootedFrom, ProofsOf, Sound;
    HonestRoots(sha, block, state);
  }

  /** What the state says, as a verdict: an account it shows is whole and ordinary. */
  ghost predicate Shows(state: Cell, id: seq<byte>, held: Lookup<AccountEntry>) {
    && StateAccount(state, id) == Ok(held) && !held.Withheld?
    && (held.Found? ==> !held.value.account.IsExotic() && held.value.account.mask == NO_LEVELS)
  }

  function VerdictOf(held: Lookup<AccountEntry>): Verdict {
    if held.Found? then Account(held.value.account) else Nonexistent
  }

  /** A masterchain read honestly proved is accepted, and the verdict is the state's own. */
  lemma {:induction false} HonestReadPasses(sha: Sha, block: Cell, state: Cell, id: seq<byte>,
      held: Lookup<AccountEntry>)
    requires Provable(sha, block, state) && Shows(state, id, held)
    ensures var proof := ProofsOf(sha, block, state);
      VerifyAccount(sha, HonestRead(sha, LevelZero(sha, block), MASTERCHAIN, id, Ok([]), proof, held))
        == Ok(VerdictOf(held))
  {
    hide LevelZero, StateAccount, Provable, ProvedState, ProofsOf;
    HonestState(sha, block, state);
  }

  /**
    A shard read honestly proved is accepted: the masterchain state records the shard's block,
    and the verdict is the state's that block leaves.
   */
  lemma {:induction false} HonestShardReadPasses(
      sha: Sha, mcBlock: Cell, mcState: Cell, block: Cell, state: Cell, workchain: int, id: seq<byte>,
      descr: ShardDescr, held: Lookup<AccountEntry>)
    requires workchain != MASTERCHAIN && Provable(sha, mcBlock, mcState) && Provable(sha, block, state)
    requires RecordedShard(mcState, workchain, id) == Ok(Found(descr)) && descr.rootHash == LevelZero(sha, block)
    requires Shows(state, id, held)
    ensures var shardProof, proof := ProofsOf(sha, mcBlock, mcState), ProofsOf(sha, block, state);
      VerifyAccount(sha, HonestRead(sha, LevelZero(sha, mcBlock), workchain, id, shardProof, proof, held))
        == Ok(VerdictOf(held))
  {
    hide LevelZero, StateAccount, Provable, ProvedState, ProofsOf, RecordedShard, RecordedBlock;
    RecordedBlockIs(mcState, workchain, id, LevelZero(sha, block));
    HonestState(sha, mcBlock, mcState);
    HonestState(sha, block, state);
  }
}

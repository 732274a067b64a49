module EndToEnd {
  // The proven read: sync to a head, then read an account there. What an accepted one says is the
  // truth under a fresh block the chain of signatures leads to, whatever any server sent.

  import opened Basics
  import opened Cells
  import opened Hashing
  import opened Collisions
  import opened Reads
  import opened BlockReads
  import opened Verified
  import opened Chain
  import opened Sync

  /** A server's answer to a read of one account, its bags parsed or failed. */
  datatype Answer = Answer(
    shardProof: Result<seq<Cell>>, proof: Result<seq<Cell>>, stateIsEmpty: bool, state: Result<seq<Cell>>)

  function ReadOf(trusted: Hash, workchain: int, id: seq<byte>, answer: Answer): AccountRead {
    AccountRead(trusted, workchain, id, answer.shardProof, answer.proof, answer.stateIsEmpty, answer.state)
  }

  /** Reads at a block the caller names, which has to be a masterchain block. */
  function AccountAt(
      sha: Sha, trusted: DomainId, workchain: int, id: seq<byte>, answer: Result<Answer>): Result<Verdict>
  {
    if !IsMasterchain(trusted) then Err(NotBound)
    else
      var sent :- answer;
      VerifyAccount(sha, ReadOf(trusted.rootHash, workchain, id, sent))
  }

  /** A block that is not the masterchain's anchors no read. */
  lemma {:induction false} OnlyAtMasterchain(
      sha: Sha, trusted: DomainId, workchain: int, id: seq<byte>, answer: Result<Answer>)
    ensures AccountAt(sha, trusted, workchain, id, answer).Ok? ==>
      trusted.workchain == -1 && trusted.shard == 0x8000_0000_0000_0000
  {
    hide VerifyAccount;
  }

  /** What there is behind a run and a read: the blocks themselves, and the states the last of them leads to. */
  datatype Truth = Truth(blocks: seq<Cell>, mcState: Cell, block: Cell, state: Cell)

  /** A true block stands at every id of the run, and everything that arrived was hashed among `inputs`. */
  ghost predicate ChainBehind(env: Env, from: WireId, run: seq<Link>, blocks: seq<Cell>, inputs: set<seq<byte>>) {
    && |blocks| == |run| + 1
    && (forall k :: 0 <= k <= |run| ==> IsBlock(env.sha, blocks[k], Start(from, run, k).rootHash, inputs))
    && (forall k :: 0 <= k < |run| && run[k].Forward? ==>
          Arrived(env.sha, run[k].configProof, inputs) && Arrived(env.sha, run[k].destProof, inputs))
  }

  /** The state the head leaves, and the state the account is in: the head's own, or the shard's it records. */
  ghost predicate StateBehind(
      sha: Sha, head: Cell, workchain: int, id: seq<byte>, truth: Truth, answer: Answer, inputs: set<seq<byte>>)
  {
    && Leaves(sha, LevelZero(sha, head), head, truth.mcState)
    && (workchain == MASTERCHAIN ==> truth.block == head && truth.state == truth.mcState)
    && (workchain != MASTERCHAIN ==>
          var record := RecordedShard(truth.mcState, workchain, id);
          record.Ok? && record.value.Found? && |record.value.value.rootHash| == 32 ==>
            Leaves(sha, record.value.value.rootHash, truth.block, truth.state))
    && Fed(sha, head) + Fed(sha, truth.mcState) + Fed(sha, truth.block) + Fed(sha, truth.state) <= inputs
    && Readable(sha, answer.shardProof, inputs) && Readable(sha, answer.proof, inputs)
    && Readable(sha, answer.state, inputs)
  }

  ghost predicate Behind(env: Env, start: DomainId, run: seq<Link>, workchain: int, id: seq<byte>, answer: Answer,
      truth: Truth, inputs: set<seq<byte>>) {
    && Distinct(env.sha, inputs) && ChainBehind(env, ToWire(start), run, truth.blocks, inputs)
    && StateBehind(env.sha, truth.blocks[|run|], workchain, id, truth, answer, inputs)
  }

  /** The chain of trust: at each step the block before names who signs, and they signed for the block after. */
  ghost predicate SignedAllAlong(env: Env, run: seq<Link>, blocks: seq<Cell>)
    requires |blocks| == |run| + 1
  {
    forall i :: 0 <= i < |run| ==> run[i].Forward? && SignedFor(env, blocks[i], run[i].signatures, run[i].to)
  }

  /** The head is what its id says and is recent by its own header. */
  ghost predicate FreshHead(head: Cell, id: WireId, now: nat, limit: nat) {
    && HeaderOf(head).Ok? && HeaderOf(head).value.seqno == Height(id.seqno)
    && HeaderOf(head).value.workchain == -1 && HeaderOf(head).value.shard == 0x8000_0000_0000_0000
    && FreshEnough(HeaderOf(head).value.genUtime, now, limit).Ok?
  }

  /** Signed for all along the run, to a fresh head whose state says what the verdict says. */
  ghost predicate Grounded(env: Env, run: seq<Link>, head: DomainId, now: nat, limit: nat, verdict: Verdict,
      id: seq<byte>, truth: Truth) {
    && |truth.blocks| == |run| + 1 && SignedAllAlong(env, run, truth.blocks)
    && FreshHead(truth.blocks[|run|], ToWire(head), now, limit) && True(verdict, StateAccount(truth.state, id))
  }

  /** A synced run's head is a masterchain block, so a read there is never refused for not being at one. */
  lemma {:induction false} HeadIsMasterchain(
      env: Env, world: World, limit: nat, start: DomainId, run: seq<Link>, report: SyncReport, anchor: Option<DomainId>)
    requires Synced(env, world, limit, start, run, report, anchor)
    ensures IsMasterchain(report.head)
  {
    hide SourceSet, DestHeader, SignedMessage, Tally, Fresh, Rises, Trusted;
    var last := |run| - 1;
    assert LinkOk(env, run[last], Start(ToWire(start), run, last));
  }

  lemma {:induction false} SyncedChainMeans(env: Env, world: World, limit: nat, start: DomainId, run: seq<Link>,
      report: SyncReport, anchor: Option<DomainId>, blocks: seq<Cell>, inputs: set<seq<byte>>)
    requires Synced(env, world, limit, start, run, report, anchor)
    requires Distinct(env.sha, inputs) && ChainBehind(env, ToWire(start), run, blocks, inputs)
    ensures SignedAllAlong(env, run, blocks)
    ensures FreshHead(blocks[|run|], ToWire(report.head), world.now, limit)
  {
    hide LinkOk, IsBlock, Arrived, Distinct, SignedFor, HeaderOf, DestHeader, FreshEnough, Rises, Trusted, HeaderIs;
    var from, last := ToWire(start), |run| - 1;
    forall i | 0 <= i < |run| ensures run[i].Forward? && SignedFor(env, blocks[i], run[i].signatures, run[i].to) {
      ChainMeans(env, from, run, blocks, inputs, i);
    }
    ChainMeans(env, from, run, blocks, inputs, last);
    assert LinkOk(env, run[last], Start(from, run, last)) && Start(from, run, |run|) == run[last].to;
    assert IsBlock(env.sha, blocks[|run|], Start(from, run, |run|).rootHash, inputs);
    LinkHeader(env, run[last], Start(from, run, last), blocks[|run|], inputs);
  }

  /**
    End to end: a read accepted at the head of a synced run rests on signatures all along the true
    chain, is at a fresh head, and says what the state that head leads to says.
   */
  lemma {:induction false} ReadAtHeadIsTrue(
      env: Env, world: World, limit: nat, start: DomainId, run: seq<Link>, report: SyncReport, anchor: Option<DomainId>,
      workchain: int, id: seq<byte>, answer: Answer, truth: Truth, inputs: set<seq<byte>>)
    requires Synced(env, world, limit, start, run, report, anchor)
    requires Behind(env, start, run, workchain, id, answer, truth, inputs)
    requires AccountAt(env.sha, report.head, workchain, id, Ok(answer)).Ok?
    ensures Grounded(env, run, report.head, world.now, limit,
      AccountAt(env.sha, report.head, workchain, id, Ok(answer)).value, id, truth)
  {
    hide Distinct, Arrived, Fed, LevelZero, VerifyAccount, Readable, True, StateAccount, LinksOk, Rises, Fresh, Trusted,
      RecordedShard, NewStateHash, Full, SignedAllAlong, FreshHead;
    SyncedChainMeans(env, world, limit, start, run, report, anchor, truth.blocks, inputs);
    var head, read := truth.blocks[|run|], ReadOf(report.head.rootHash, workchain, id, answer);
    assert IsBlock(env.sha, head, Start(ToWire(start), run, |run|).rootHash, inputs);
    AccountReadIsTrue(env.sha, read, inputs, head, truth.mcState, truth.block, truth.state);
  }

  /**
    The read a caller makes without naming a block: syncs, then reads at the head the sync proved.

    It succeeds exactly when the sync does and the answer checks out there. Then, whatever the
    servers sent and whatever blocks and states the network truly holds, the signatures lead from
    where the client stood to a fresh head, and the verdict is the truth of the state that head
    leads to. A failed read never moves the anchor unless the sync before it succeeded.
   */
  method ReadAccount(client: Client, env: Env, world: World, workchain: int, id: seq<byte>,
      answers: DomainId -> Result<Answer>)
      returns (r: Result<(Verdict, DomainId)>, ghost run: seq<Link>, ghost synced: Result<SyncReport>)
    modifies client`anchor
    ensures synced.Err? ==> r.Err? && client.anchor == old(client.anchor)
    ensures synced.Ok? ==>
      && old(client.Origin()).Some?
      && Synced(env, world, client.maxHeadAge, old(client.Origin()).value, run, synced.value, client.anchor)
    ensures r.Ok? <==>
      && synced.Ok? && answers(synced.value.head).Ok?
      && VerifyAccount(
           env.sha, ReadOf(synced.value.head.rootHash, workchain, id, answers(synced.value.head).value)).Ok?
    ensures r.Ok? ==>
      && r.value.1 == synced.value.head
      && forall truth: Truth, inputs: set<seq<byte>> ::
           Behind(env, old(client.Origin()).value, run, workchain, id, answers(r.value.1).value, truth, inputs) ==>
             Grounded(env, run, r.value.1, world.now, client.maxHeadAge, r.value.0, id, truth)
  {
    hide Synced, Finishes, VerifyAccount, Behind, Grounded;
    ghost var origin := client.Origin();
    var report, links, _ := client.Sync(env, world);
    run, synced := links, report;
    if report.Err? { return Err(report.error), run, synced; }
    var head := report.value.head;
    HeadIsMasterchain(env, world, client.maxHeadAge, origin.value, run, report.value, client.anchor);
    var answer := answers(head);
    var verdict := AccountAt(env.sha, head, workchain, id, answer);
    if verdict.Err? { return Err(verdict.error), run, synced; }
    forall truth: Truth, inputs: set<seq<byte>>
      | Behind(env, origin.value, run, workchain, id, answer.value, truth, inputs)
      ensures Grounded(env, run, head, world.now, client.maxHeadAge, verdict.value, id, truth)
    {
      ReadAtHeadIsTrue(env, world, client.maxHeadAge, origin.value, run, report.value, client.anchor, workchain, id,
        answer.value, truth, inputs);
    }
    return Ok((verdict.value, head)), run, synced;
  }
}

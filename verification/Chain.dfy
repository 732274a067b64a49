module Chain {
  // A block proof chain, checked link by link: what an accepted link establishes about the block
  // it starts from and the block it leads to, and how heights move along a chain.

  import opened Basics
  import opened Cells
  import opened Hashing
  import opened Collisions
  import opened Merkle
  import opened Reads
  import opened Verified
  import opened Validators
  import opened BlockReads

  const MASTERCHAIN_SHARD: nat := 0x8000_0000_0000_0000

  datatype BlockId = BlockId(workchain: int, shard: nat, seqno: int, rootHash: Hash, fileHash: Hash)

  predicate FitsI32(x: int) { -0x8000_0000 <= x < 0x8000_0000 }
  predicate FitsU32(x: int) { 0 <= x < 0x1_0000_0000 }

  /** A block as the wire names it: its number a signed thirty-two-bit field. */
  type WireId = b: BlockId | FitsI32(b.seqno) witness BlockId(0, 0, 0, NoHash(), NoHash())

  /** A block as the client holds it: its number a height, counted unsigned. */
  type DomainId = b: BlockId | FitsU32(b.seqno) witness BlockId(0, 0, 0, NoHash(), NoHash())

  /** A wire number taken as unsigned. */
  function Height(seqno: int): (r: nat)
    requires FitsI32(seqno)
    ensures FitsU32(r)
  {
    if seqno < 0 then seqno + 0x1_0000_0000 else seqno
  }

  function ToDomain(b: WireId): DomainId { b.(seqno := Height(b.seqno)) }

  function ToWire(b: DomainId): WireId { b.(seqno := Signed32(b.seqno)) }

  lemma {:induction false} CastsAreInverse(w: WireId, d: DomainId)
    ensures ToWire(ToDomain(w)) == w && ToDomain(ToWire(d)) == d
  {}

  // ---------------------------------------------------------------- messages

  /** A proof as it arrived: how many bytes, and the bag they parse to. */
  datatype Proof = Proof(length: nat, roots: Result<seq<Cell>>)

  datatype SignatureSet =
    | Ordinary(signatures: seq<Signature>)
    | Simplex(signatures: seq<Signature>, session: Hash, slot: int, candidate: seq<byte>)

  datatype Link =
    | Back(destProof: Proof, stateProof: Proof)
    | Forward(toKeyBlock: bool, from: WireId, to: WireId, destProof: Proof, configProof: Proof,
      signatures: SignatureSet)

  datatype Reply = Reply(complete: bool, from: WireId, to: WireId, steps: seq<Link>)

  /** What a validator's key goes over: a block's identity, or a finalize vote for a candidate. */
  datatype Message = BlockMessage(root: Hash, file: Hash) | VoteMessage(session: Hash, slot: int, candidate: Hash)

  /** The primitives the chain rests on: the hash, the signature check, and the candidate's reading. */
  datatype Env = Env(
    sha: Sha, verify: (seq<byte>, Message, seq<byte>) -> bool, candidate: seq<byte> -> Option<WireId>)

  datatype ProvenBlock = ProvenBlock(id: WireId, keyBlock: bool, genUtime: nat)

  // ---------------------------------------------------------------- one link

  predicate IsMasterchain(b: BlockId) { b.workchain == MASTERCHAIN && b.shard == MASTERCHAIN_SHARD }

  /** The block a proof covers, required to root at `rootHash` and to be a block. */
  function CoveredBlock(sha: Sha, proof: Proof, rootHash: Hash): Result<Cell> {
    var roots :- proof.roots;
    if roots == [] then Err(Malformed)
    else
      var block :- VerifyMerkleProof(sha, roots[0], rootHash);
      var _ :- CheckTag(block, 32, BLOCK_TAG);
      Ok(block)
  }

  /** The validators that decide a link, out of the proof of its source. */
  function SourceSet(env: Env, proof: Proof, rootHash: Hash): Result<ValidatorSet> {
    var block :- CoveredBlock(env.sha, proof, rootHash);
    var config :- ConfigOf(block);
    SetFromConfig(env.sha, config)
  }

  function DestHeader(env: Env, proof: Proof, rootHash: Hash): Result<BlockHeader> {
    var block :- CoveredBlock(env.sha, proof, rootHash);
    HeaderOf(block)
  }

  predicate HeaderIs(header: BlockHeader, to: WireId) {
    header.seqno == Height(to.seqno) && header.workchain == to.workchain && header.shard == to.shard
  }

  /** The message signed for a block: a vote counts only if its candidate is that block. */
  function SignedMessage(env: Env, set_: SignatureSet, to: WireId): Result<Message> {
    match set_
    case Ordinary(_) => Ok(BlockMessage(to.rootHash, to.fileHash))
    case Simplex(_, session, slot, candidate) =>
      if env.candidate(candidate) != Some(to) then Err(ChainBroken)
      else Ok(VoteMessage(session, slot, env.sha(candidate)))
  }

  /** The signature check over one message. */
  function Checking(env: Env, message: Message): Check { (key, bytes) => env.verify(key, message, bytes) }

  /** The weight the tally of a link's signatures arrives at. */
  ghost function Tally(env: Env, s: ValidatorSet, message: Message, entries: seq<Signature>): nat {
    TallyFrom(s, Checking(env, message), entries, 0, 0, {}, 0)
  }

  /** Everything asked of a link that must start at `from`. */
  ghost predicate LinkOk(env: Env, link: Link, from: WireId) {
    && link.Forward? && link.from == from
    && IsMasterchain(link.from) && IsMasterchain(link.to) && link.to.seqno > link.from.seqno
    && SourceSet(env, link.configProof, link.from.rootHash).Ok?
    && DestHeader(env, link.destProof, link.to.rootHash).Ok?
    && HeaderIs(DestHeader(env, link.destProof, link.to.rootHash).value, link.to)
    && DestHeader(env, link.destProof, link.to.rootHash).value.keyBlock == link.toKeyBlock
    && SignedMessage(env, link.signatures, link.to).Ok?
    && var s := SourceSet(env, link.configProof, link.from.rootHash).value;
       3 * Tally(env, s, SignedMessage(env, link.signatures, link.to).value, link.signatures.signatures)
         > 2 * s.totalWeight
  }

  lemma {:induction false} SourceSetBuilt(env: Env, proof: Proof, rootHash: Hash)
    requires SourceSet(env, proof, rootHash).Ok?
    ensures Built(SourceSet(env, proof, rootHash).value)
  {
    hide SetFromConfig, CoveredBlock, ConfigOf, Built;
    ReadSetsAreBuilt(env.sha, ConfigOf(CoveredBlock(env.sha, proof, rootHash).value).value);
  }

  method VerifyLink(env: Env, link: Link, from: WireId) returns (r: Result<ProvenBlock>)
    ensures r.Ok? <==> LinkOk(env, link, from)
    ensures r.Ok? ==>
      r.value == ProvenBlock(link.to, link.toKeyBlock, DestHeader(env, link.destProof, link.to.rootHash).value.genUtime)
  {
    hide SourceSet, DestHeader, SignedMessage, TallyFrom, Built, Checking, Signers;
    if link.Back? { return Err(BackwardLink); }
    if link.from != from { return Err(ChainBroken); }
    if !IsMasterchain(link.from) || !IsMasterchain(link.to) { return Err(ChainBroken); }
    if link.to.seqno <= link.from.seqno { return Err(ChainBroken); }
    var source := SourceSet(env, link.configProof, link.from.rootHash);
    if source.Err? { return Err(source.error); }
    SourceSetBuilt(env, link.configProof, link.from.rootHash);
    var header := DestHeader(env, link.destProof, link.to.rootHash);
    if header.Err? { return Err(header.error); }
    if !HeaderIs(header.value, link.to) { return Err(ChainBroken); }
    if header.value.keyBlock != link.toKeyBlock { return Err(ChainBroken); }
    var message := SignedMessage(env, link.signatures, link.to);
    if message.Err? { return Err(message.error); }
    var carried, _ := CarriedWeight(source.value, link.signatures.signatures, Checking(env, message.value));
    if !Carries(source.value, carried.value) { return Err(NotEnoughWeight); }
    return Ok(ProvenBlock(link.to, header.value.keyBlock, header.value.genUtime));
  }

  // ---------------------------------------------------------------- what a link establishes

  /** The message speaks of this block and no other: its hashes, or a candidate that is it. */
  ghost predicate Binds(env: Env, message: Message, signatures: SignatureSet, to: WireId) {
    match message
    case BlockMessage(root, file) => root == to.rootHash && file == to.fileHash
    case VoteMessage(_, _, candidate) =>
      signatures.Simplex? && env.sha(signatures.candidate) == candidate
        && env.candidate(signatures.candidate) == Some(to)
  }

  /** More than two thirds of the set the source's configuration names validly signed for `to`. */
  ghost predicate SignedFor(env: Env, source: Cell, signatures: SignatureSet, to: WireId) {
    && ConfigOf(source).Ok? && SetFromConfig(env.sha, ConfigOf(source).value).Ok?
    && var s := SetFromConfig(env.sha, ConfigOf(source).value).value;
       && Built(s)
       && exists message: Message ::
            && Binds(env, message, signatures, to)
            && 3 * SignedWeight(s, Checking(env, message), signatures.signatures) > 2 * s.totalWeight
  }

  /** A proof whose cells are well made and hashed among `inputs`. */
  ghost predicate Arrived(sha: Sha, proof: Proof, inputs: set<seq<byte>>) { Readable(sha, proof.roots, inputs) }

  /** A full block of this root hash, hashed among `inputs`. */
  ghost predicate IsBlock(sha: Sha, block: Cell, rootHash: Hash, inputs: set<seq<byte>>) {
    Full(block) && LevelZero(sha, block) == rootHash && Fed(sha, block) <= inputs
  }

  lemma {:induction false} CoveredIsShown(sha: Sha, proof: Proof, rootHash: Hash, block: Cell, inputs: set<seq<byte>>)
    requires CoveredBlock(sha, proof, rootHash).Ok? && Arrived(sha, proof, inputs)
    requires IsBlock(sha, block, rootHash, inputs) && Distinct(sha, inputs)
    ensures Covers(sha, CoveredBlock(sha, proof, rootHash).value, block)
      && !CoveredBlock(sha, proof, rootHash).value.IsExotic()
  {
    hide LevelZero, Fed, CheckTag, Distinct, Fits, Classified, Masked, HashIn, DepthIn, DepthAt, Covers;
    var root, shown := proof.roots.value[0], CoveredBlock(sha, proof, rootHash).value;
    assert Fed(sha, root) <= FedAll(sha, proof.roots.value);
    FedBelow(sha, root, 0);
    FewerDistinct(sha, Fed(sha, shown) + Fed(sha, block), inputs);
    LevelZeroCovers(sha, shown, block);
    TaggedIsOrdinary(shown, BLOCK_TAG);
  }

  /** The set a link was decided by is the one its true source names, and it carries what that set signed. */
  lemma {:induction false} LinkIsSigned(env: Env, link: Link, from: WireId, source: Cell, inputs: set<seq<byte>>)
    requires LinkOk(env, link, from) && Distinct(env.sha, inputs) && Arrived(env.sha, link.configProof, inputs)
    requires IsBlock(env.sha, source, from.rootHash, inputs)
    ensures ConfigOf(source).Ok? && SetFromConfig(env.sha, ConfigOf(source).value).Ok?
    ensures SignedMessage(env, link.signatures, link.to).Ok?
    ensures var s, message := SetFromConfig(env.sha, ConfigOf(source).value).value,
        SignedMessage(env, link.signatures, link.to).value;
      Built(s) && 3 * SignedWeight(s, Checking(env, message), link.signatures.signatures) > 2 * s.totalWeight
  {
    hide CoveredBlock, HeaderOf, SetFromConfig, ConfigOf, Covers, TallyFrom, Built, Distinct, Fed, Signers,
      SignedMessage;
    CoveredIsShown(env.sha, link.configProof, from.rootHash, source, inputs);
    var shown := CoveredBlock(env.sha, link.configProof, from.rootHash).value;
    ProvedConfig(env.sha, shown, source);
    ProvedSet(env.sha, ConfigOf(shown).value, ConfigOf(source).value);
    SourceSetBuilt(env, link.configProof, link.from.rootHash);
    TallyIsSigned(SourceSet(env, link.configProof, link.from.rootHash).value,
      Checking(env, SignedMessage(env, link.signatures, link.to).value), link.signatures.signatures);
  }

  lemma {:induction false} LinkHeader(env: Env, link: Link, from: WireId, dest: Cell, inputs: set<seq<byte>>)
    requires LinkOk(env, link, from) && Distinct(env.sha, inputs) && Arrived(env.sha, link.destProof, inputs)
    requires IsBlock(env.sha, dest, link.to.rootHash, inputs)
    ensures HeaderOf(dest) == DestHeader(env, link.destProof, link.to.rootHash)
  {
    hide CoveredBlock, HeaderOf, SourceSet, Covers, Tally, Distinct, Fed, SignedMessage;
    CoveredIsShown(env.sha, link.destProof, link.to.rootHash, dest, inputs);
    ProvedHeader(env.sha, CoveredBlock(env.sha, link.destProof, link.to.rootHash).value, dest);
  }

  /**
    An accepted link speaks of the true blocks: more than two thirds of the set the source
    block's own configuration names signed for exactly the destination, and the destination's
    own header has the height, the shard and the kind the link claims.
   */
  lemma {:induction false} LinkMeans(env: Env, link: Link, from: WireId, source: Cell, dest: Cell,
      inputs: set<seq<byte>>)
    requires LinkOk(env, link, from) && Distinct(env.sha, inputs)
    requires Arrived(env.sha, link.configProof, inputs) && Arrived(env.sha, link.destProof, inputs)
    requires IsBlock(env.sha, source, from.rootHash, inputs) && IsBlock(env.sha, dest, link.to.rootHash, inputs)
    ensures SignedFor(env, source, link.signatures, link.to)
    ensures link.to.seqno > from.seqno && from.workchain == -1 && from.shard == 0x8000_0000_0000_0000
    ensures HeaderOf(dest).Ok? && HeaderOf(dest).value.keyBlock == link.toKeyBlock
    ensures var header := HeaderOf(dest).value;
      header.seqno == Height(link.to.seqno) && header.workchain == -1 && header.shard == 0x8000_0000_0000_0000
  {
    hide DestHeader, HeaderOf, SetFromConfig, ConfigOf, SourceSet, Tally, Built, IsBlock, Arrived, Distinct, Signers;
    LinkIsSigned(env, link, from, source, inputs);
    LinkHeader(env, link, from, dest, inputs);
    assert Binds(env, SignedMessage(env, link.signatures, link.to).value, link.signatures, link.to);
  }

  /** Different destinations are different messages: no one signature can stand for both. */
  lemma {:induction false} MessagesDiffer(env: Env, a: Link, b: Link, from: WireId, destA: Cell, destB: Cell,
      inputs: set<seq<byte>>)
    requires LinkOk(env, a, from) && LinkOk(env, b, from) && a.to != b.to && Distinct(env.sha, inputs)
    requires Arrived(env.sha, a.destProof, inputs) && Arrived(env.sha, b.destProof, inputs)
    requires IsBlock(env.sha, destA, a.to.rootHash, inputs) && IsBlock(env.sha, destB, b.to.rootHash, inputs)
    requires a.signatures.Simplex? && b.signatures.Simplex? ==>
      a.signatures.candidate in inputs && b.signatures.candidate in inputs
    ensures SignedMessage(env, a.signatures, a.to) != SignedMessage(env, b.signatures, b.to)
  {
    hide HeaderOf, DestHeader, SourceSet, Tally, LevelZero, Fed, Full, Arrived;
    LinkHeader(env, a, from, destA, inputs);
    LinkHeader(env, b, from, destB, inputs);
    if a.to.rootHash == b.to.rootHash {
      FewerDistinct(env.sha, Fed(env.sha, destA) + Fed(env.sha, destB), inputs);
      FullIsIdentified(env.sha, destA, destB);
    }
  }

  /**
    Accountable safety: two accepted links out of one true block, to different blocks, leave more
    than a third of the weight the block's own configuration names having validly signed both of
    two different messages. Where the two blocks are of one height the chain forked, and these
    are the members that signed for both sides.
   */
  lemma {:induction false} ForkIsAccountable(env: Env, a: Link, b: Link, from: WireId, source: Cell,
      destA: Cell, destB: Cell, inputs: set<seq<byte>>)
    requires LinkOk(env, a, from) && LinkOk(env, b, from) && a.to != b.to && Distinct(env.sha, inputs)
    requires Arrived(env.sha, a.configProof, inputs) && Arrived(env.sha, a.destProof, inputs)
    requires Arrived(env.sha, b.configProof, inputs) && Arrived(env.sha, b.destProof, inputs)
    requires IsBlock(env.sha, source, from.rootHash, inputs)
    requires IsBlock(env.sha, destA, a.to.rootHash, inputs) && IsBlock(env.sha, destB, b.to.rootHash, inputs)
    requires a.signatures.Simplex? && b.signatures.Simplex? ==>
      a.signatures.candidate in inputs && b.signatures.candidate in inputs
    ensures ConfigOf(source).Ok? && SetFromConfig(env.sha, ConfigOf(source).value).Ok?
    ensures var s := SetFromConfig(env.sha, ConfigOf(source).value).value;
      exists x: Message, y: Message ::
        && x != y && Binds(env, x, a.signatures, a.to) && Binds(env, y, b.signatures, b.to)
        && WeightOf(s.members,
          Signers(s, Checking(env, x), a.signatures.signatures)
          * Signers(s, Checking(env, y), b.signatures.signatures)) * 3 > s.totalWeight
  {
    hide DestHeader, SourceSet, SetFromConfig, ConfigOf, Tally, Built, IsBlock, Arrived, Distinct, Signers, WeightOf,
      Checking;
    LinkIsSigned(env, a, from, source, inputs);
    LinkIsSigned(env, b, from, source, inputs);
    MessagesDiffer(env, a, b, from, destA, destB, inputs);
    var s := SetFromConfig(env.sha, ConfigOf(source).value).value;
    var x, y := SignedMessage(env, a.signatures, a.to).value, SignedMessage(env, b.signatures, b.to).value;
    QuorumsIntersect(s, Signers(s, Checking(env, x), a.signatures.signatures),
      Signers(s, Checking(env, y), b.signatures.signatures));
    assert Binds(env, x, a.signatures, a.to) && Binds(env, y, b.signatures, b.to);
  }

  // ---------------------------------------------------------------- an honest link

  /** A block, whole or already cut down, that a proof may be built over. */
  ghost predicate ShownBlock(sha: Sha, block: Cell, id: WireId) {
    && Sound(block) && !block.IsExotic() && CheckTag(block, 32, BLOCK_TAG).Ok?
    && LevelZero(sha, block) == id.rootHash && IsMasterchain(id)
  }

  /** How many bytes the two proofs of a link are written in. */
  datatype Lengths = Lengths(dest: nat, config: nat)

  /** What a server holding two blocks and the signatures over the second sends as a link. */
  function HonestLink(sha: Sha, source: Cell, from: WireId, dest: Cell, to: WireId, key: bool,
      signatures: SignatureSet, lengths: Lengths): Link {
    Forward(key, from, to, HonestProof(sha, dest, lengths.dest), HonestProof(sha, source, lengths.config), signatures)
  }

  function HonestProof(sha: Sha, block: Cell, length: nat): Proof {
    match CreateProof(sha, block) case Err(e) => Proof(length, Err(e)) case Ok(proof) => Proof(length, Ok([proof]))
  }

  /** What makes a true link: the set the source names, the destination's own header, and the signatures. */
  ghost predicate TrueLink(env: Env, source: Cell, from: WireId, dest: Cell, to: WireId, key: bool,
      signatures: SignatureSet) {
    && to.seqno > from.seqno
    && HeaderOf(dest).Ok? && HeaderIs(HeaderOf(dest).value, to) && HeaderOf(dest).value.keyBlock == key
    && ConfigOf(source).Ok? && SetFromConfig(env.sha, ConfigOf(source).value).Ok?
    && SignedMessage(env, signatures, to).Ok?
    && var s, check := SetFromConfig(env.sha, ConfigOf(source).value).value,
         Checking(env, SignedMessage(env, signatures, to).value);
       3 * SignedWeight(s, check, Reached(s, check, signatures.signatures)) > 2 * s.totalWeight
  }

  lemma {:induction false} HonestProofCovers(sha: Sha, block: Cell, length: nat, id: WireId)
    requires ShownBlock(sha, block, id)
    ensures CoveredBlock(sha, HonestProof(sha, block, length), id.rootHash) == Ok(block)
  {
    hide LevelZero, CheckTag, CreateProof, Sound;
    ProofVerifies(sha, block);
  }

  /**
    A link honestly proved is accepted exactly when it is true of its two blocks: the height
    rises, the destination's header is the one claimed, and the distinct valid signers the tally
    reaches carry the set the source's own configuration names.
   */
  lemma {:induction false} HonestLinkDecides(
      env: Env, source: Cell, from: WireId, dest: Cell, to: WireId, key: bool, signatures: SignatureSet,
      lengths: Lengths)
    requires ShownBlock(env.sha, source, from) && ShownBlock(env.sha, dest, to)
    ensures LinkOk(env, HonestLink(env.sha, source, from, dest, to, key, signatures, lengths), from)
      <==> TrueLink(env, source, from, dest, to, key, signatures)
  {
    hide CoveredBlock, HonestProof, ConfigOf, HeaderOf, SetFromConfig, SignedMessage, TallyFrom, Built, Reached,
      Signers, WeightOf;
    HonestProofCovers(env.sha, source, lengths.config, from);
    HonestProofCovers(env.sha, dest, lengths.dest, to);
    if ConfigOf(source).Ok? && SetFromConfig(env.sha, ConfigOf(source).value).Ok?
      && SignedMessage(env, signatures, to).Ok? {
      ReadSetsAreBuilt(env.sha, ConfigOf(source).value);
      TallyDecides(SetFromConfig(env.sha, ConfigOf(source).value).value,
        Checking(env, SignedMessage(env, signatures, to).value), signatures.signatures);
    }
  }

  /**
    Links live: an honest link to a true, higher block, whose list names each member at most twice,
    is accepted exactly when the members that did not validly sign weigh less than a third.
   */
  lemma {:induction false} QuorumPasses(
      env: Env, source: Cell, from: WireId, dest: Cell, to: WireId, key: bool, signatures: SignatureSet,
      lengths: Lengths)
    requires ShownBlock(env.sha, source, from) && ShownBlock(env.sha, dest, to) && to.seqno > from.seqno
    requires HeaderOf(dest).Ok? && HeaderIs(HeaderOf(dest).value, to) && HeaderOf(dest).value.keyBlock == key
    requires ConfigOf(source).Ok? && SetFromConfig(env.sha, ConfigOf(source).value).Ok?
    requires SignedMessage(env, signatures, to).Ok?
    requires var s := SetFromConfig(env.sha, ConfigOf(source).value).value;
      forall i :: 0 <= i < |s.members| ==> Naming(signatures.signatures, s.members[i].id) <= 2
    ensures var s, check := SetFromConfig(env.sha, ConfigOf(source).value).value,
        Checking(env, SignedMessage(env, signatures, to).value);
      LinkOk(env, HonestLink(env.sha, source, from, dest, to, key, signatures, lengths), from)
      <==> 3 * WeightOf(s.members, Missing(s, check, signatures.signatures)) < s.totalWeight
  {
    hide CoveredBlock, HonestLink, ConfigOf, HeaderOf, SetFromConfig, SignedMessage, LinkOk, Built, Reached, Signers,
      WeightOf, Missing, Naming, ShownBlock;
    HonestLinkDecides(env, source, from, dest, to, key, signatures, lengths);
    ReadSetsAreBuilt(env.sha, ConfigOf(source).value);
    var s, check := SetFromConfig(env.sha, ConfigOf(source).value).value,
      Checking(env, SignedMessage(env, signatures, to).value);
    NamedTwiceFits(s, signatures.signatures);
    UnexhaustedIsReached(s, check, signatures.signatures);
    MissingDecide(s, check, signatures.signatures);
  }

  // ---------------------------------------------------------------- a whole chain

  /** The id step `i` has to continue from. */
  function Start(from: WireId, steps: seq<Link>, i: nat): WireId
    requires i <= |steps|
  {
    if i == 0 || !steps[i - 1].Forward? then from else steps[i - 1].to
  }

  function End(from: WireId, steps: seq<Link>): WireId { Start(from, steps, |steps|) }

  ghost predicate LinksOk(env: Env, from: WireId, steps: seq<Link>) {
    forall i :: 0 <= i < |steps| ==> LinkOk(env, steps[i], Start(from, steps, i))
  }

  ghost predicate ChainOk(env: Env, anchor: WireId, reply: Reply) {
    reply.from == anchor && reply.steps != [] && LinksOk(env, anchor, reply.steps)
      && End(anchor, reply.steps) == reply.to
  }

  /** Decides `ChainOk`, one link after another. */
  method VerifyChain(env: Env, anchor: WireId, reply: Reply) returns (r: Result<ProvenBlock>)
    ensures r.Ok? <==> ChainOk(env, anchor, reply)
    ensures r.Ok? ==>
      && r.value.id == End(anchor, reply.steps) == reply.to && reply.from == anchor
      && reply.steps[|reply.steps| - 1].Forward? && r.value.keyBlock == reply.steps[|reply.steps| - 1].toKeyBlock
      && DestHeader(env, reply.steps[|reply.steps| - 1].destProof, r.value.id.rootHash).Ok?
      && r.value.genUtime
         == DestHeader(env, reply.steps[|reply.steps| - 1].destProof, r.value.id.rootHash).value.genUtime
  {
    hide DestHeader, SourceSet, SignedMessage, TallyFrom;
    if reply.from != anchor { return Err(ChainBroken); }
    if reply.steps == [] { return Err(ChainBroken); }
    var proven: Option<ProvenBlock> := None;
    for i := 0 to |reply.steps|
      invariant forall k :: 0 <= k < i ==> LinkOk(env, reply.steps[k], Start(anchor, reply.steps, k))
      invariant proven.None? <==> i == 0
      invariant i > 0 ==>
        && reply.steps[i - 1].Forward? && proven.value.id == reply.steps[i - 1].to
        && proven.value.keyBlock == reply.steps[i - 1].toKeyBlock
        && DestHeader(env, reply.steps[i - 1].destProof, proven.value.id.rootHash).Ok?
        && proven.value.genUtime
           == DestHeader(env, reply.steps[i - 1].destProof, proven.value.id.rootHash).value.genUtime
    {
      var from := if proven.None? then anchor else proven.value.id;
      var step := VerifyLink(env, reply.steps[i], from);
      if step.Err? { return Err(step.error); }
      proven := Some(step.value);
    }
    if proven.value.id != reply.to { return Err(ChainBroken); }
    return Ok(proven.value);
  }

  /** Two chains that meet are one chain. */
  lemma {:induction false} ChainsJoin(env: Env, from: WireId, a: seq<Link>, b: seq<Link>)
    requires LinksOk(env, from, a) && LinksOk(env, End(from, a), b)
    ensures LinksOk(env, from, a + b) && (b != [] ==> End(from, a + b) == End(End(from, a), b))
  {
    hide LinkOk;
    forall i | 0 <= i < |a + b| ensures LinkOk(env, (a + b)[i], Start(from, a + b, i)) {
      if i < |a| {
        assert LinkOk(env, a[i], Start(from, a, i));
      } else {
        assert LinkOk(env, b[i - |a|], Start(End(from, a), b, i - |a|));
        AllForward(env, from, a);
        AllForward(env, End(from, a), b);
      }
    }
    if b != [] { AllForward(env, End(from, a), b); }
  }

  lemma {:induction false} LinkStep(env: Env, link: Link, from: WireId)
    requires LinkOk(env, link, from)
    ensures link.Forward? && link.from == from && link.to.seqno > from.seqno
  {
    hide SourceSet, DestHeader, SignedMessage, Tally, Carries;
  }

  lemma {:induction false} AllForward(env: Env, from: WireId, steps: seq<Link>)
    requires LinksOk(env, from, steps)
    ensures forall i :: 0 <= i < |steps| ==> steps[i].Forward?
  {
    hide LinkOk;
    forall i | 0 <= i < |steps| ensures steps[i].Forward? { LinkStep(env, steps[i], Start(from, steps, i)); }
  }

  /** Every link of an accepted chain speaks of the true blocks at its two ends. */
  lemma {:induction false} ChainMeans(env: Env, from: WireId, steps: seq<Link>, blocks: seq<Cell>,
      inputs: set<seq<byte>>, i: nat)
    requires LinksOk(env, from, steps) && Distinct(env.sha, inputs) && |blocks| == |steps| + 1 && i < |steps|
    requires forall k :: 0 <= k <= |steps| ==> IsBlock(env.sha, blocks[k], Start(from, steps, k).rootHash, inputs)
    requires forall k :: 0 <= k < |steps| && steps[k].Forward? ==>
      Arrived(env.sha, steps[k].configProof, inputs) && Arrived(env.sha, steps[k].destProof, inputs)
    ensures steps[i].Forward? && SignedFor(env, blocks[i], steps[i].signatures, steps[i].to)
    ensures HeaderOf(blocks[i + 1]).Ok? && HeaderOf(blocks[i + 1]).value.keyBlock == steps[i].toKeyBlock
    ensures var header := HeaderOf(blocks[i + 1]).value;
      header.seqno == Height(steps[i].to.seqno) && header.workchain == -1 && header.shard == 0x8000_0000_0000_0000
  {
    hide LinkOk, IsBlock, Arrived, Distinct, SignedFor, HeaderOf;
    AllForward(env, from, steps);
    assert Start(from, steps, i + 1) == steps[i].to;
    assert LinkOk(env, steps[i], Start(from, steps, i));
    assert IsBlock(env.sha, blocks[i], Start(from, steps, i).rootHash, inputs);
    assert IsBlock(env.sha, blocks[i + 1], Start(from, steps, i + 1).rootHash, inputs);
    LinkMeans(env, steps[i], Start(from, steps, i), blocks[i], blocks[i + 1], inputs);
  }

  // ---------------------------------------------------------------- heights

  /** Along an accepted chain the signed numbers rise at every step. */
  lemma {:induction false} RisesSigned(env: Env, from: WireId, steps: seq<Link>, i: nat, j: nat)
    requires LinksOk(env, from, steps) && i < j <= |steps|
    ensures Start(from, steps, i).seqno < Start(from, steps, j).seqno
    decreases j - i
  {
    hide LinkOk;
    AllForward(env, from, steps);
    LinkStep(env, steps[j - 1], Start(from, steps, j - 1));
    if i < j - 1 { RisesSigned(env, from, steps, i, j - 1); }
  }

  /**
    Links are compared signed and the anchor unsigned. A chain whose last block is higher than
    its first, unsigned, rises unsigned at every step between: crossing the sign would leave the
    end lower than the start.
   */
  lemma {:induction false} RisesUnsigned(env: Env, from: WireId, steps: seq<Link>, i: nat, j: nat)
    requires LinksOk(env, from, steps) && i < j <= |steps| && Height(End(from, steps).seqno) > Height(from.seqno)
    ensures Height(Start(from, steps, i).seqno) < Height(Start(from, steps, j).seqno)
  {
    hide LinksOk;
    RisesSigned(env, from, steps, i, j);
    if i > 0 { RisesSigned(env, from, steps, 0, i); }
    if j < |steps| { RisesSigned(env, from, steps, j, |steps|); }
  }

  // ---------------------------------------------------------------- an honest chain

  /** Blocks in a row with their ids, and for each but the first the signatures and proofs it is linked with. */
  datatype Blocks = Blocks(
    cells: seq<Cell>, ids: seq<WireId>, keys: seq<bool>, signatures: seq<SignatureSet>, lengths: seq<Lengths>) {
    predicate Valid() { |cells| == |ids| == |keys| == |signatures| == |lengths| > 0 }
  }

  ghost predicate TrueAt(env: Env, b: Blocks, i: nat)
    requires b.Valid() && 0 < i < |b.cells|
  {
    && ShownBlock(env.sha, b.cells[i - 1], b.ids[i - 1]) && ShownBlock(env.sha, b.cells[i], b.ids[i])
    && TrueLink(env, b.cells[i - 1], b.ids[i - 1], b.cells[i], b.ids[i], b.keys[i], b.signatures[i])
  }

  function LinkAt(sha: Sha, b: Blocks, i: nat): Link
    requires b.Valid() && 0 < i < |b.cells|
  {
    HonestLink(sha, b.cells[i - 1], b.ids[i - 1], b.cells[i], b.ids[i], b.keys[i], b.signatures[i],
      b.lengths[i])
  }

  function HonestSteps(sha: Sha, b: Blocks): (steps: seq<Link>)
    requires b.Valid()
    ensures |steps| == |b.cells| - 1
  {
    seq(|b.cells| - 1, i requires 0 <= i < |b.cells| - 1 => LinkAt(sha, b, i + 1))
  }

  /** A row of true blocks, each signed for by the one before, is a chain its checker accepts from end to end. */
  lemma {:induction false} HonestChainPasses(env: Env, b: Blocks)
    requires b.Valid() && |b.cells| > 1 && forall i: nat :: 0 < i < |b.cells| ==> TrueAt(env, b, i)
    ensures ChainOk(env, b.ids[0], Reply(true, b.ids[0], b.ids[|b.ids| - 1], HonestSteps(env.sha, b)))
  {
    hide LinkOk, TrueLink, ShownBlock, HonestProof;
    var steps := HonestSteps(env.sha, b);
    forall i | 0 <= i < |steps| ensures LinkOk(env, steps[i], Start(b.ids[0], steps, i)) {
      assert steps[i] == LinkAt(env.sha, b, i + 1) && Start(b.ids[0], steps, i) == b.ids[i];
      assert TrueAt(env, b, i + 1);
      HonestLinkDecides(env, b.cells[i], b.ids[i], b.cells[i + 1], b.ids[i + 1], b.keys[i + 1], b.signatures[i + 1],
        b.lengths[i + 1]);
    }
  }
}

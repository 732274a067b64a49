module Sync {
  // Syncing: from the anchor to whatever head a server names, whatever the server answers.

  import opened Basics
  import opened Cells
  import opened Hashing
  import opened Merkle
  import opened Chain

  const MAX_LINKS_PER_REPLY: nat := 64
  const MAX_LINKS_PER_SYNC: nat := 4096
  const MAX_ROUNDS: nat := 512
  const MAX_PROOF_BYTES: nat := 0x10_0000
  const MAX_SIGNATURES: nat := 1024
  const MAX_CLOCK_SKEW: nat := 300

  // ---------------------------------------------------------------- the bounds

  predicate StepWithin(step: Link) {
    match step
    case Forward(_, _, _, dest, config, signatures) =>
      dest.length <= MAX_PROOF_BYTES && config.length <= MAX_PROOF_BYTES && |signatures.signatures| <= MAX_SIGNATURES
    case Back(dest, state) => dest.length <= MAX_PROOF_BYTES && state.length <= MAX_PROOF_BYTES
  }

  predicate ReplyWithin(reply: Reply) {
    |reply.steps| <= MAX_LINKS_PER_REPLY && forall i :: 0 <= i < |reply.steps| ==> StepWithin(reply.steps[i])
  }

  /** Decides `ReplyWithin`, on lengths alone. */
  method WithinBounds(reply: Reply) returns (r: Result<()>)
    ensures r.Ok? <==> ReplyWithin(reply)
  {
    if |reply.steps| > MAX_LINKS_PER_REPLY { return Err(SyncRefused); }
    for i := 0 to |reply.steps|
      invariant forall k :: 0 <= k < i ==> StepWithin(reply.steps[k])
    {
      if !StepWithin(reply.steps[i]) { return Err(SyncRefused); }
    }
    return Ok(());
  }

  /** The two counters whose limits end every walk. */
  class Walk {
    var rounds: nat
    var links: nat

    constructor ()
      ensures rounds == 0 && links == 0
    {
      rounds, links := 0, 0;
    }

    method Round(count: nat) returns (r: Result<()>)
      modifies this
      ensures rounds == old(rounds) + 1
      ensures r.Ok? <==> rounds <= MAX_ROUNDS && old(links) + count <= MAX_LINKS_PER_SYNC
      ensures r.Ok? ==> links == old(links) + count
    {
      rounds := rounds + 1;
      if rounds > MAX_ROUNDS { return Err(SyncRefused); }
      links := links + count;
      if links > MAX_LINKS_PER_SYNC { return Err(SyncRefused); }
      return Ok(());
    }
  }

  /** A head is neither older than the bound nor stamped past what the clock can explain. */
  function FreshEnough(genUtime: nat, now: nat, limit: nat): (r: Result<()>)
    ensures r.Ok? <==> genUtime <= now + MAX_CLOCK_SKEW && now <= genUtime + limit
  {
    if genUtime > now + MAX_CLOCK_SKEW then Err(ClockBehind)
    else
      var age := if now > genUtime then now - genUtime else 0;
      if age > limit then Err(Stale) else Ok(())
  }

  /** A walk may take as long as a head may be old; under no bound it may take its first reply all the same. */
  function WorthContinuing(elapsed: nat, limit: nat): (r: Result<()>)
    ensures r.Ok? <==> limit == 0 || elapsed <= limit
  {
    if limit != 0 && elapsed > limit then Err(SyncRefused) else Ok(())
  }

  /** Computes `KeyBlockIn`, last step first. */
  method LastKeyBlock(steps: seq<Link>) returns (r: Option<DomainId>)
    ensures r == KeyBlockIn(steps)
  {
    var i := |steps|;
    assert steps[..i] == steps;
    while i > 0
      invariant 0 <= i <= |steps| && KeyBlockIn(steps) == KeyBlockIn(steps[..i])
    {
      i := i - 1;
      assert steps[..i + 1][..i] == steps[..i];
      if steps[i].Forward? && steps[i].toKeyBlock { return Some(ToDomain(steps[i].to)); }
    }
    return None;
  }

  function KeyBlockIn(steps: seq<Link>): Option<DomainId> {
    if steps == [] then None
    else if steps[|steps| - 1].Forward? && steps[|steps| - 1].toKeyBlock then Some(ToDomain(steps[|steps| - 1].to))
    else KeyBlockIn(steps[..|steps| - 1])
  }

  // ---------------------------------------------------------------- the run

  /** What a run leaves trusted: its final key block, else its start. */
  function Trusted(start: DomainId, run: seq<Link>): DomainId {
    var key := KeyBlockIn(run);
    if key.Some? then key.value else start
  }

  lemma {:induction false} KeyBlockJoins(a: seq<Link>, b: seq<Link>)
    ensures KeyBlockIn(a + b) == if KeyBlockIn(b).Some? then KeyBlockIn(b) else KeyBlockIn(a)
  {
    if b == [] {
      assert a + b == a;
    } else {
      assert (a + b)[..|a + b| - 1] == a + b[..|b| - 1];
      KeyBlockJoins(a, b[..|b| - 1]);
    }
  }

  /** Heights rise, unsigned, at every step of a run. */
  ghost predicate Rises(from: WireId, run: seq<Link>) {
    forall i, j :: 0 <= i < j <= |run| ==> Height(Start(from, run, i).seqno) < Height(Start(from, run, j).seqno)
  }

  /** A run of accepted links from `from` that rises all the way. */
  ghost predicate Proven(env: Env, from: WireId, run: seq<Link>) { LinksOk(env, from, run) && Rises(from, run) }

  lemma {:induction false} RunStarts(env: Env, start: DomainId)
    ensures Proven(env, ToWire(start), []) && End(ToWire(start), []) == ToWire(start) && Trusted(start, []) == start
  {}

  lemma {:induction false} RunGrows(env: Env, from: WireId, run: seq<Link>, steps: seq<Link>)
    requires Proven(env, from, run) && LinksOk(env, End(from, run), steps) && steps != []
    requires Height(End(End(from, run), steps).seqno) > Height(End(from, run).seqno)
    ensures Proven(env, from, run + steps) && End(from, run + steps) == End(End(from, run), steps)
  {
    hide LinksOk;
    ChainsJoin(env, from, run, steps);
    AllForward(env, from, run);
    AllForward(env, End(from, run), steps);
    forall i, j | 0 <= i < j <= |run + steps|
      ensures Height(Start(from, run + steps, i).seqno) < Height(Start(from, run + steps, j).seqno)
    {
      StartInJoin(from, run, steps, i);
      StartInJoin(from, run, steps, j);
      if i < |run| {
        if j > |run| { RisesUnsigned(env, End(from, run), steps, 0, j - |run|); }
        assert j >= |run| ==> Height(Start(from, run, i).seqno) < Height(Start(from, run, |run|).seqno);
      } else {
        RisesUnsigned(env, End(from, run), steps, i - |run|, j - |run|);
      }
    }
  }

  lemma {:induction false} StartInJoin(from: WireId, a: seq<Link>, b: seq<Link>, i: nat)
    requires i <= |a + b| && (forall k :: 0 <= k < |a| ==> a[k].Forward?)
      && (forall k :: 0 <= k < |b| ==> b[k].Forward?)
    ensures Start(from, a + b, i) == if i <= |a| then Start(from, a, i) else Start(End(from, a), b, i - |a|)
  {}

  lemma {:induction false} TrustedHeight(env: Env, start: DomainId, run: seq<Link>)
    requires Proven(env, ToWire(start), run)
    ensures start.seqno <= Trusted(start, run).seqno
    ensures Trusted(start, run) != start ==>
      exists i :: 0 <= i < |run| && run[i].Forward? && run[i].toKeyBlock && ToDomain(run[i].to) == Trusted(start, run)
  {
    hide LinksOk;
    AllForward(env, ToWire(start), run);
    CastsAreInverse(ToWire(start), start);
    if KeyBlockIn(run).Some? {
      var i := KeyBlockPlace(run);
      assert Start(ToWire(start), run, i + 1) == run[i].to;
      assert Height(Start(ToWire(start), run, 0).seqno) < Height(Start(ToWire(start), run, i + 1).seqno);
    }
  }

  lemma {:induction false} KeyBlockPlace(run: seq<Link>) returns (i: nat)
    requires KeyBlockIn(run).Some?
    ensures i < |run| && run[i].Forward? && run[i].toKeyBlock && KeyBlockIn(run) == Some(ToDomain(run[i].to))
    ensures forall k :: i < k < |run| ==> !(run[k].Forward? && run[k].toKeyBlock)
  {
    var last := |run| - 1;
    if run[last].Forward? && run[last].toKeyBlock { return last; }
    i := KeyBlockPlace(run[..last]);
  }

  // ---------------------------------------------------------------- the client

  datatype SyncReport = SyncReport(head: DomainId, links: nat, rounds: nat)

  /**
    Everything a sync meets outside the client: the head the server names, its answer to each
    request in turn, the time each request is made at, and the clock at the end. Any of it may be
    anything.
   */
  datatype World = World(head: Result<DomainId>, replies: nat -> Result<Reply>, elapsed: nat -> nat, now: nat)

  /** The request of this round is made no later than a head may be old, where there is such a bound. */
  ghost predicate InTime(world: World, limit: nat, round: nat) { limit == 0 || world.elapsed(round) <= limit }

  /** One round's answer is in time, in bounds and a checked chain on from `current`, strictly higher. */
  ghost predicate Accepted(env: Env, world: World, limit: nat, current: DomainId, rounds: nat, links: nat) {
    && InTime(world, limit, rounds) && world.replies(rounds).Ok?
    && var reply := world.replies(rounds).value;
       && ReplyWithin(reply) && rounds < MAX_ROUNDS && links + |reply.steps| <= MAX_LINKS_PER_SYNC
       && ChainOk(env, ToWire(current), reply)
       && ToDomain(End(ToWire(current), reply.steps)).seqno > current.seqno
  }

  /** From `current` the answers lead on, key block by key block, to a fresh proof of exactly the target. */
  ghost predicate Finishes(
      env: Env, world: World, limit: nat, current: DomainId, target: DomainId, rounds: nat, links: nat)
    decreases if rounds < MAX_ROUNDS then MAX_ROUNDS - rounds else 0
  {
    && Accepted(env, world, limit, current, rounds, links)
    && var reply := world.replies(rounds).value;
       var reached := ToDomain(End(ToWire(current), reply.steps));
       if reply.complete then reached == target && Fresh(env, reply.steps, world.now, limit)
       else
         && reply.steps[|reply.steps| - 1].Forward? && reply.steps[|reply.steps| - 1].toKeyBlock
         && Finishes(env, world, limit, reached, target, rounds + 1, links + |reply.steps|)
  }

  /**
    One round: waits no longer than is worth it, takes the answer, holds it to the bounds and
    checks it as a chain on from `current`.
   */
  method Ask(env: Env, world: World, limit: nat, current: DomainId, walk: Walk)
      returns (r: Result<(Reply, ProvenBlock)>, ghost asked: bool)
    modifies walk
    ensures r.Ok? <==> Accepted(env, world, limit, current, old(walk.rounds), old(walk.links))
    ensures asked <==> limit == 0 || world.elapsed(old(walk.rounds)) <= limit
    ensures r.Ok? ==> asked && Answered(env, world, current, old(walk.rounds), r.value.0, r.value.1)
    ensures r.Ok? ==> walk.rounds == old(walk.rounds) + 1 && walk.links == old(walk.links) + |r.value.0.steps|
  {
    hide ChainOk, LinksOk, DestHeader, ReplyWithin, WorthContinuing;
    asked := false;
    var worth := WorthContinuing(world.elapsed(walk.rounds), limit);
    if worth.Err? { return Err(worth.error), asked; }
    var answer := world.replies(walk.rounds);
    asked := true;
    if answer.Err? { return Err(answer.error), asked; }
    var reply := answer.value;
    var bounds := WithinBounds(reply);
    if bounds.Err? { return Err(bounds.error), asked; }
    var counted := walk.Round(|reply.steps|);
    if counted.Err? { return Err(counted.error), asked; }
    var proven := VerifyChain(env, ToWire(current), reply);
    if proven.Err? { return Err(proven.error), asked; }
    if ToDomain(proven.value.id).seqno <= current.seqno { return Err(SyncRefused), asked; }
    assert reply.steps != [] by { NotEmpty(env, ToWire(current), reply); }
    return Ok((reply, proven.value)), asked;
  }

  lemma {:induction false} NotEmpty(env: Env, anchor: WireId, reply: Reply)
    requires ChainOk(env, anchor, reply)
    ensures reply.steps != []
  {}

  /** What an accepted answer proved about its last block. */
  ghost predicate Answered(env: Env, world: World, current: DomainId, rounds: nat, reply: Reply, proven: ProvenBlock) {
    && world.replies(rounds) == Ok(reply) && reply.steps != [] && proven.id == End(ToWire(current), reply.steps)
    && var last := reply.steps[|reply.steps| - 1];
       && last.Forward? && last.to == proven.id && proven.keyBlock == last.toKeyBlock
       && DestHeader(env, last.destProof, last.to.rootHash).Ok?
       && proven.genUtime == DestHeader(env, last.destProof, last.to.rootHash).value.genUtime
  }

  /** One round of a finishing walk, from what the round answered. */
  lemma {:induction false} FinishesOn(
      env: Env, world: World, limit: nat, current: DomainId, target: DomainId, rounds: nat, links: nat, reply: Reply,
      proven: ProvenBlock)
    requires Accepted(env, world, limit, current, rounds, links) && Answered(env, world, current, rounds, reply, proven)
    ensures Finishes(env, world, limit, current, target, rounds, links) <==>
      if reply.complete then ToDomain(proven.id) == target && FreshEnough(proven.genUtime, world.now, limit).Ok?
      else
        proven.keyBlock && Finishes(env, world, limit, ToDomain(proven.id), target, rounds + 1, links + |reply.steps|)
    ensures FreshEnough(proven.genUtime, world.now, limit).Ok? ==> Fresh(env, reply.steps, world.now, limit)
  {
    hide Accepted, DestHeader, FreshEnough, End, ToDomain, ToWire;
  }

  lemma {:induction false} FreshLonger(env: Env, run: seq<Link>, steps: seq<Link>, now: nat, limit: nat)
    requires Fresh(env, steps, now, limit)
    ensures Fresh(env, run + steps, now, limit)
  {
    hide DestHeader, FreshEnough;
  }

  /**
    What a sync that succeeded stands on: a proven run from `start` to the named head, fresh, its
    last key block kept.
   */
  ghost predicate Synced(
      env: Env, world: World, limit: nat, start: DomainId, run: seq<Link>, report: SyncReport, anchor: Option<DomainId>)
  {
    && run != [] && Proven(env, ToWire(start), run)
    && world.head == Ok(report.head) && ToWire(report.head) == End(ToWire(start), run)
    && anchor == Some(Trusted(start, run)) && Fresh(env, run, world.now, limit)
    && report.links == |run| <= MAX_LINKS_PER_SYNC && report.rounds <= MAX_ROUNDS
  }

  class Client {
    var anchor: Option<DomainId>
    const initBlock: Option<DomainId>
    const maxHeadAge: nat

    constructor (initBlock: Option<DomainId>, maxHeadAge: nat)
      ensures anchor == None && this.initBlock == initBlock && this.maxHeadAge == maxHeadAge
    {
      anchor := None;
      this.initBlock, this.maxHeadAge := initBlock, maxHeadAge;
    }

    /** Where a sync starts from. */
    function Origin(): Option<DomainId>
      reads this`anchor
    {
      if anchor.Some? then anchor else initBlock
    }

    /**
      Walks to the head the server names.

      Whatever the server answers, the walk ends within one request past the round bound, and
      anything but a finished, fresh walk to exactly the named head leaves the anchor as it was.
      It finishes exactly when the answers lead there. A finished one is a run of accepted links
      from where the client stood to that head, rising at every step; the anchor is the run's
      last key block, and never lower than where the client stood.
     */
    method Sync(env: Env, world: World) returns (r: Result<SyncReport>, ghost run: seq<Link>, ghost asked: nat)
      modifies this`anchor
      ensures asked <= MAX_ROUNDS + 1 && (r.Ok? ==> r.value.rounds == asked)
      ensures forall i: nat :: i < asked ==> maxHeadAge == 0 || world.elapsed(i) <= maxHeadAge
      ensures r.Err? ==> anchor == old(anchor)
      ensures r.Ok? ==>
        old(Origin()).Some? && Synced(env, world, maxHeadAge, old(Origin()).value, run, r.value, anchor)
      ensures r.Ok? <==>
        && old(Origin()).Some? && world.head.Ok? && world.head.value.seqno > old(Origin()).value.seqno
        && Finishes(env, world, maxHeadAge, old(Origin()).value, world.head.value, 0, 0)
      ensures old(Origin()).Some? ==> Origin().Some? && old(Origin()).value.seqno <= Origin().value.seqno
    {
      hide LinksOk, Proven, KeyBlockIn, DestHeader, Trusted, FreshEnough, Finishes, Accepted, Fresh;
      run, asked := [], 0;
      if Origin().None? { return Err(NoInitBlock), run, asked; }
      var start := Origin().value;
      if world.head.Err? { return Err(world.head.error), run, asked; }
      var target := world.head.value;
      if target.seqno <= start.seqno { return Err(SyncRefused), run, asked; }

      var current, trusted := start, start;
      var walk := new Walk();
      RunStarts(env, start);
      while true
        invariant fresh(walk) && walk.rounds == asked <= MAX_ROUNDS && walk.links == |run| <= MAX_LINKS_PER_SYNC
        invariant anchor == old(anchor)
        invariant forall i: nat :: i < asked ==> maxHeadAge == 0 || world.elapsed(i) <= maxHeadAge
        invariant Proven(env, ToWire(start), run) && ToWire(current) == End(ToWire(start), run)
        invariant trusted == current == Trusted(start, run)
        invariant Finishes(env, world, maxHeadAge, start, target, 0, 0)
          <==> Finishes(env, world, maxHeadAge, current, target, walk.rounds, walk.links)
        decreases MAX_ROUNDS - walk.rounds
      {
        ghost var rounds, links := walk.rounds, walk.links;
        var answer, wasAsked := Ask(env, world, maxHeadAge, current, walk);
        if wasAsked { asked := asked + 1; }
        AcceptedMeans(env, world, maxHeadAge, current, target, rounds, links);
        if answer.Err? { return Err(answer.error), run, asked; }
        var reply, proven := answer.value.0, answer.value.1;
        var reached := ToDomain(proven.id);
        FinishesOn(env, world, maxHeadAge, current, target, rounds, links, reply, proven);
        Advance(env, start, run, current, reply, reached);
        if FreshEnough(proven.genUtime, world.now, maxHeadAge).Ok? {
          FreshLonger(env, run, reply.steps, world.now, maxHeadAge);
        }
        run := run + reply.steps;
        var key := LastKeyBlock(reply.steps);
        if key.Some? { trusted := key.value; }
        current := reached;
        if reply.complete {
          if current != target { return Err(SyncRefused), run, asked; }
          var age := FreshEnough(proven.genUtime, world.now, maxHeadAge);
          if age.Err? { return Err(age.error), run, asked; }
          anchor := Some(trusted);
          TrustedHeight(env, start, run);
          return Ok(SyncReport(current, walk.links, walk.rounds)), run, asked;
        }
        if !proven.keyBlock { return Err(SyncRefused), run, asked; }
      }
    }
  }

  lemma {:induction false} AcceptedMeans(
      env: Env, world: World, limit: nat, current: DomainId, target: DomainId, rounds: nat, links: nat)
    ensures Finishes(env, world, limit, current, target, rounds, links) ==>
      Accepted(env, world, limit, current, rounds, links)
    ensures Accepted(env, world, limit, current, rounds, links) ==>
      && rounds < MAX_ROUNDS && world.replies(rounds).Ok?
      && links + |world.replies(rounds).value.steps| <= MAX_LINKS_PER_SYNC
      && ChainOk(env, ToWire(current), world.replies(rounds).value)
      && ToDomain(End(ToWire(current), world.replies(rounds).value.steps)).seqno > current.seqno
  {}

  /** Over any run of syncs, with any servers, the height a client's trust rests at never falls. */
  method SyncMany(client: Client, env: Env, worlds: seq<World>) returns (reports: seq<Result<SyncReport>>)
    modifies client`anchor
    ensures |reports| == |worlds|
    ensures old(client.anchor).Some? ==> client.anchor.Some?
    ensures old(client.Origin()).Some? ==>
      client.Origin().Some? && old(client.Origin()).value.seqno <= client.Origin().value.seqno
    ensures client.anchor.Some? && old(client.anchor).None? ==>
      client.initBlock.Some? && client.initBlock.value.seqno <= client.anchor.value.seqno
    ensures (forall i :: 0 <= i < |reports| ==> reports[i].Err?) ==> client.anchor == old(client.anchor)
  {
    hide Proven, Trusted, Fresh, End;
    reports := [];
    for i := 0 to |worlds|
      invariant |reports| == i
      invariant old(client.anchor).Some? ==> client.anchor.Some?
      invariant old(client.Origin()).Some? ==>
        client.Origin().Some? && old(client.Origin()).value.seqno <= client.Origin().value.seqno
      invariant client.anchor.Some? && old(client.anchor).None? ==> client.initBlock.Some?
      invariant client.anchor == old(client.anchor) || exists k :: 0 <= k < i && reports[k].Ok?
    {
      var report, _, _ := client.Sync(env, worlds[i]);
      ghost var before := reports;
      reports := reports + [report];
      assert forall k :: 0 <= k < i ==> reports[k] == before[k];
      assert reports[i] == report;
    }
  }

  /** The head's own stamp, proved with the last link, is within the freshness bound of the clock. */
  ghost predicate Fresh(env: Env, run: seq<Link>, now: nat, limit: nat) {
    && run != [] && run[|run| - 1].Forward?
    && DestHeader(env, run[|run| - 1].destProof, run[|run| - 1].to.rootHash).Ok?
    && FreshEnough(DestHeader(env, run[|run| - 1].destProof, run[|run| - 1].to.rootHash).value.genUtime, now, limit).Ok?
  }

  /** One accepted reply lengthens the run, and moves what is trusted to its last key block. */
  lemma {:induction false} Advance(env: Env, start: DomainId, run: seq<Link>, current: DomainId, reply: Reply,
      reached: DomainId)
    requires Proven(env, ToWire(start), run) && ToWire(current) == End(ToWire(start), run)
    requires current == Trusted(start, run)
    requires ChainOk(env, ToWire(current), reply) && reached == ToDomain(End(ToWire(current), reply.steps))
    requires reached.seqno > current.seqno
    ensures Proven(env, ToWire(start), run + reply.steps) && ToWire(reached) == End(ToWire(start), run + reply.steps)
    ensures Trusted(start, run + reply.steps)
      == if KeyBlockIn(reply.steps).Some? then KeyBlockIn(reply.steps).value else current
    ensures reply.steps[|reply.steps| - 1].Forward? && reached == ToDomain(reply.steps[|reply.steps| - 1].to)
    ensures reply.steps[|reply.steps| - 1].toKeyBlock ==> KeyBlockIn(reply.steps) == Some(reached)
  {
    hide LinksOk, Proven;
    CastsAreInverse(End(ToWire(current), reply.steps), reached);
    CastsAreInverse(ToWire(current), current);
    AllForward(env, ToWire(current), reply.steps);
    RunGrows(env, ToWire(start), run, reply.steps);
    KeyBlockJoins(run, reply.steps);
  }

  // ---------------------------------------------------------------- an honest server

  /** Where the walk stands after `i` of the parts a server cuts its chain into. */
  function Stop(start: DomainId, parts: seq<seq<Link>>, i: nat): DomainId
    requires i <= |parts|
  {
    if i == 0 then start else ToDomain(End(ToWire(Stop(start, parts, i - 1)), parts[i - 1]))
  }

  function LinksIn(parts: seq<seq<Link>>, i: nat): nat
    requires i <= |parts|
  {
    if i == 0 then 0 else LinksIn(parts, i - 1) + |parts[i - 1]|
  }

  /** A part that may be served on its own: accepted links, rising, no more of them than a reply holds. */
  ghost predicate Part(env: Env, from: DomainId, part: seq<Link>) {
    && part != [] && |part| <= MAX_LINKS_PER_REPLY && (forall i :: 0 <= i < |part| ==> StepWithin(part[i]))
    && LinksOk(env, ToWire(from), part) && ToDomain(End(ToWire(from), part)).seqno > from.seqno
  }

  /** The bounds a row of blocks has to be sent within: how many, and how large their proofs and signature lists. */
  predicate SentWithin(b: Blocks)
    requires b.Valid()
  {
    && |b.cells| <= MAX_LINKS_PER_REPLY + 1
    && forall i :: 0 < i < |b.cells| ==>
         && b.lengths[i].dest <= MAX_PROOF_BYTES && b.lengths[i].config <= MAX_PROOF_BYTES
         && |b.signatures[i].signatures| <= MAX_SIGNATURES
  }

  /** A row of true blocks, honestly proved, is a part exactly when it is sent within the bounds and ends higher. */
  lemma {:induction false} TrueBlocksServe(env: Env, b: Blocks)
    requires b.Valid() && |b.cells| > 1 && forall i: nat :: 0 < i < |b.cells| ==> TrueAt(env, b, i)
    ensures Part(env, ToDomain(b.ids[0]), HonestSteps(env.sha, b))
      <==> SentWithin(b) && Height(b.ids[|b.ids| - 1].seqno) > Height(b.ids[0].seqno)
  {
    hide LinksOk, TrueAt, HonestProof;
    HonestChainPasses(env, b);
    CastsAreInverse(b.ids[0], ToDomain(b.ids[0]));
    var steps := HonestSteps(env.sha, b);
    assert forall i :: 0 <= i < |steps| ==> steps[i] == LinkAt(env.sha, b, i + 1);
    if forall i :: 0 <= i < |steps| ==> StepWithin(steps[i]) {
      forall i | 0 < i < |b.cells|
        ensures b.lengths[i].dest <= MAX_PROOF_BYTES && b.lengths[i].config <= MAX_PROOF_BYTES
          && |b.signatures[i].signatures| <= MAX_SIGNATURES
      {
        assert StepWithin(steps[i - 1]);
        ProofLength(env.sha, b.cells[i], b.lengths[i].dest);
        ProofLength(env.sha, b.cells[i - 1], b.lengths[i].config);
      }
    }
    if SentWithin(b) {
      forall i | 0 <= i < |steps| ensures StepWithin(steps[i]) {
        ProofLength(env.sha, b.cells[i + 1], b.lengths[i + 1].dest);
        ProofLength(env.sha, b.cells[i], b.lengths[i + 1].config);
      }
    }
  }

  lemma {:induction false} ProofLength(sha: Sha, block: Cell, length: nat)
    ensures HonestProof(sha, block, length).length == length
  {
    hide CreateProof;
  }

  /** The part served in round `i` is one, and all but the last end at a key block. */
  ghost predicate PartAt(env: Env, start: DomainId, parts: seq<seq<Link>>, i: nat)
    requires i < |parts|
  {
    && Part(env, Stop(start, parts, i), parts[i])
    && (i < |parts| - 1 ==> parts[i][|parts[i]| - 1].Forward? && parts[i][|parts[i]| - 1].toKeyBlock)
  }

  /** A chain to the head, cut at key blocks into parts. */
  ghost predicate CutAtKeyBlocks(env: Env, start: DomainId, parts: seq<seq<Link>>) {
    && 0 < |parts| <= MAX_ROUNDS && LinksIn(parts, |parts|) <= MAX_LINKS_PER_SYNC
    && (forall i: nat :: i < |parts| ==> PartAt(env, start, parts, i))
  }

  ghost predicate ServesAt(world: World, limit: nat, start: DomainId, parts: seq<seq<Link>>, i: nat)
    requires i < |parts|
  {
    && (limit == 0 || world.elapsed(i) <= limit)
    && world.replies(i) ==
       Ok(Reply(i == |parts| - 1, ToWire(Stop(start, parts, i)), ToWire(Stop(start, parts, i + 1)), parts[i]))
  }

  /** A server that answers each request with the next part, in time. */
  ghost predicate Serves(world: World, limit: nat, start: DomainId, parts: seq<seq<Link>>) {
    forall i: nat :: i < |parts| ==> ServesAt(world, limit, start, parts, i)
  }

  lemma {:induction false} LinksGrow(parts: seq<seq<Link>>, i: nat)
    requires i <= |parts|
    ensures LinksIn(parts, i) <= LinksIn(parts, |parts|)
    decreases |parts| - i
  {
    if i < |parts| { LinksGrow(parts, i + 1); }
  }

  lemma {:induction false} NextStop(start: DomainId, parts: seq<seq<Link>>, i: nat)
    requires i < |parts|
    ensures Stop(start, parts, i + 1) == ToDomain(End(ToWire(Stop(start, parts, i)), parts[i]))
    ensures ToWire(Stop(start, parts, i + 1)) == End(ToWire(Stop(start, parts, i)), parts[i])
    ensures LinksIn(parts, i + 1) == LinksIn(parts, i) + |parts[i]|
  {
    hide End, ToDomain, ToWire;
    CastsAreInverse(End(ToWire(Stop(start, parts, i)), parts[i]), start);
  }

  lemma {:induction false} ServedIsAccepted(env: Env, world: World, limit: nat, start: DomainId, parts: seq<seq<Link>>,
      i: nat)
    requires i < |parts| <= MAX_ROUNDS && LinksIn(parts, |parts|) <= MAX_LINKS_PER_SYNC
    requires PartAt(env, start, parts, i) && ServesAt(world, limit, start, parts, i)
    ensures Accepted(env, world, limit, Stop(start, parts, i), i, LinksIn(parts, i))
  {
    hide LinksOk, End, WorthContinuing, StepWithin, Stop, LinksIn, ToWire, ToDomain;
    LinksGrow(parts, i + 1);
    NextStop(start, parts, i);
  }

  lemma {:induction false} HonestFrom(
      env: Env, world: World, limit: nat, start: DomainId, parts: seq<seq<Link>>, i: nat)
    requires CutAtKeyBlocks(env, start, parts) && Serves(world, limit, start, parts) && i < |parts|
    requires Fresh(env, parts[|parts| - 1], world.now, limit)
    ensures Finishes(env, world, limit, Stop(start, parts, i), Stop(start, parts, |parts|), i, LinksIn(parts, i))
    decreases |parts| - i
  {
    hide End, WorthContinuing, Accepted, Fresh, Part, Stop, LinksIn, ToWire, ToDomain;
    assert PartAt(env, start, parts, i) && ServesAt(world, limit, start, parts, i);
    ServedIsAccepted(env, world, limit, start, parts, i);
    NextStop(start, parts, i);
    if i < |parts| - 1 { HonestFrom(env, world, limit, start, parts, i + 1); }
  }

  /**
    The other direction of safety: however an honest server cuts a chain to its head at key
    blocks, within the bounds, the walk over its answers finishes.
   */
  lemma {:induction false} HonestServerFinishes(env: Env, world: World, limit: nat, start: DomainId,
      parts: seq<seq<Link>>)
    requires CutAtKeyBlocks(env, start, parts) && Serves(world, limit, start, parts)
    requires world.head == Ok(Stop(start, parts, |parts|)) && Fresh(env, parts[|parts| - 1], world.now, limit)
    ensures world.head.value.seqno > start.seqno
    ensures Finishes(env, world, limit, start, world.head.value, 0, 0)
  {
    hide Finishes, Fresh, Serves, PartAt;
    HonestFrom(env, world, limit, start, parts, 0);
    StopsRise(env, start, parts, |parts|);
  }

  lemma {:induction false} StopsRise(env: Env, start: DomainId, parts: seq<seq<Link>>, i: nat)
    requires CutAtKeyBlocks(env, start, parts) && 0 < i <= |parts|
    ensures Stop(start, parts, i).seqno > start.seqno
  {
    hide LinksOk, End, ToWire, ToDomain;
    assert PartAt(env, start, parts, i - 1);
    if i > 1 { StopsRise(env, start, parts, i - 1); }
  }
}

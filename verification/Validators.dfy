module Validators {
  // Validator sets and the signature tally, with what the tally's budget and early exit do to its
  // answer.

  import opened Basics

  const MAX_U64: nat := 0xffff_ffff_ffff_ffff

  /**
    A validator's short id: thirty-two bytes, taken as the number they spell. Byte strings of one
    length are ordered as those numbers are.
   */
  type Id = nat

  datatype Validator = Validator(publicKey: seq<byte>, weight: nat)

  datatype Member = Member(id: Id, validator: Validator)

  datatype ValidatorSet = ValidatorSet(members: seq<Member>, totalWeight: nat)

  // ---------------------------------------------------------------- weights

  /** The weight of the members whose ids are among `ids`. */
  ghost function WeightOf(members: seq<Member>, ids: set<Id>): nat {
    if members == [] then 0
    else
      var last := members[|members| - 1];
      WeightOf(members[..|members| - 1], ids) + if last.id in ids then last.validator.weight else 0
  }

  function TotalWeight(members: seq<Member>): nat {
    if members == [] then 0 else TotalWeight(members[..|members| - 1]) + members[|members| - 1].validator.weight
  }

  predicate Ordered(members: seq<Member>) {
    forall i, j :: 0 <= i < j < |members| ==> members[i].id < members[j].id
  }

  /** A set as its constructor leaves it: one entry an id, in order, weighed from those entries. */
  predicate Built(s: ValidatorSet) {
    && Ordered(s.members) && s.totalWeight == TotalWeight(s.members) && s.totalWeight <= MAX_U64
  }

  predicate Names(members: seq<Member>, id: Id) { exists i :: 0 <= i < |members| && members[i].id == id }

  /** The quorum: three times the weight exceeds twice the total. */
  predicate Carries(s: ValidatorSet, weight: nat) { weight * 3 > s.totalWeight * 2 }

  lemma {:induction false} WeightWithin(members: seq<Member>, some: set<Id>, more: set<Id>)
    requires some <= more
    ensures WeightOf(members, some) <= WeightOf(members, more) <= TotalWeight(members)
  {
    if members != [] { WeightWithin(members[..|members| - 1], some, more); }
  }

  lemma {:induction false} WeightOutside(members: seq<Member>, ids: set<Id>, id: Id)
    requires !Names(members, id)
    ensures WeightOf(members, ids + {id}) == WeightOf(members, ids)
  {
    if members != [] {
      var init := members[..|members| - 1];
      assert forall i :: 0 <= i < |init| ==> init[i] == members[i];
      assert members[|members| - 1].id != id;
      WeightOutside(init, ids, id);
    }
  }

  /** Counting one more member adds its weight, once. */
  lemma {:induction false} WeightGrows(members: seq<Member>, ids: set<Id>, at: nat)
    requires Ordered(members) && at < |members| && members[at].id !in ids
    ensures WeightOf(members, ids + {members[at].id}) == WeightOf(members, ids) + members[at].validator.weight
  {
    var init := members[..|members| - 1];
    if at == |members| - 1 {
      WeightOutside(init, ids, members[at].id);
    } else {
      WeightGrows(init, ids, at);
    }
  }

  lemma {:induction false} WeightSplits(members: seq<Member>, a: set<Id>, b: set<Id>)
    ensures WeightOf(members, a) + WeightOf(members, b) == WeightOf(members, a + b) + WeightOf(members, a * b)
  {
    if members != [] { WeightSplits(members[..|members| - 1], a, b); }
  }

  /** Any two groups that each carry a set share more than a third of its weight. */
  lemma {:induction false} QuorumsIntersect(s: ValidatorSet, a: set<Id>, b: set<Id>)
    requires Built(s)
    requires 3 * WeightOf(s.members, a) > 2 * s.totalWeight && 3 * WeightOf(s.members, b) > 2 * s.totalWeight
    ensures WeightOf(s.members, a * b) * 3 > s.totalWeight
  {
    WeightSplits(s.members, a, b);
    WeightWithin(s.members, a + b, a + b);
  }

  // ---------------------------------------------------------------- building a set

  function InsertById(m: Member, members: seq<Member>): (r: seq<Member>)
    ensures multiset(r) == multiset(members) + multiset{m} && |r| == |members| + 1
  {
    if members == [] then [m]
    else
      assert members == [members[0]] + members[1..];
      if m.id <= members[0].id then [m] + members
      else [members[0]] + InsertById(m, members[1..])
  }

  function SortById(members: seq<Member>): (r: seq<Member>)
    ensures multiset(r) == multiset(members) && |r| == |members|
  {
    if members == [] then []
    else
      assert members == members[..|members| - 1] + [members[|members| - 1]];
      InsertById(members[|members| - 1], SortById(members[..|members| - 1]))
  }

  predicate InOrder(members: seq<Member>) {
    forall i, j :: 0 <= i < j < |members| ==> members[i].id <= members[j].id
  }

  predicate AllFrom(low: Id, members: seq<Member>) { forall i :: 0 <= i < |members| ==> low <= members[i].id }

  lemma {:induction false} PrependInOrder(m: Member, members: seq<Member>)
    requires InOrder(members) && AllFrom(m.id, members)
    ensures InOrder([m] + members)
  {}

  lemma {:induction false} InsertKeepsOrder(m: Member, members: seq<Member>)
    requires InOrder(members)
    ensures InOrder(InsertById(m, members))
    ensures forall low: Id :: low <= m.id && AllFrom(low, members) ==> AllFrom(low, InsertById(m, members))
    decreases |members|, 1
  {
    if members == [] {
      assert InsertById(m, members) == [m];
    } else if m.id <= members[0].id {
      PrependInOrder(m, members);
    } else {
      var rest := InsertById(m, members[1..]);
      hide InOrder;
      InsertKeepsOrderTail(m, members);
      PrependInOrder(members[0], rest);
      assert InsertById(m, members) == [members[0]] + rest;
      forall low: Id | low <= m.id && AllFrom(low, members) ensures AllFrom(low, [members[0]] + rest) {
        assert AllFrom(low, members[1..]);
      }
    }
  }

  lemma {:induction false} InsertKeepsOrderTail(m: Member, members: seq<Member>)
    requires InOrder(members) && members != [] && m.id > members[0].id
    ensures InOrder(InsertById(m, members[1..])) && AllFrom(members[0].id, InsertById(m, members[1..]))
    ensures forall low: Id :: low <= m.id && AllFrom(low, members[1..]) ==> AllFrom(low, InsertById(m, members[1..]))
    decreases |members|, 0
  {
    InsertKeepsOrder(m, members[1..]);
    assert AllFrom(members[0].id, members[1..]);
  }

  lemma {:induction false} SortOrders(members: seq<Member>)
    ensures InOrder(SortById(members))
  {
    if members != [] {
      SortOrders(members[..|members| - 1]);
      InsertKeepsOrder(members[|members| - 1], SortById(members[..|members| - 1]));
    }
  }

  lemma {:induction false} InsertWeighs(m: Member, members: seq<Member>)
    ensures TotalWeight(InsertById(m, members)) == TotalWeight(members) + m.validator.weight
  {
    if members != [] {
      if m.id <= members[0].id {
        PrependWeighs(m, members);
      } else {
        InsertWeighs(m, members[1..]);
        PrependWeighs(members[0], InsertById(m, members[1..]));
        PrependWeighs(members[0], members[1..]);
        assert members == [members[0]] + members[1..];
      }
    }
  }

  lemma {:induction false} PrependWeighs(m: Member, members: seq<Member>)
    ensures TotalWeight([m] + members) == m.validator.weight + TotalWeight(members)
  {
    if members == [] {
      assert [m] + members == [m] && [m][..0] == [];
    } else {
      assert ([m] + members)[..|members|] == [m] + members[..|members| - 1];
      PrependWeighs(m, members[..|members| - 1]);
    }
  }

  lemma {:induction false} SortWeighs(members: seq<Member>)
    ensures TotalWeight(SortById(members)) == TotalWeight(members)
  {
    if members != [] {
      SortWeighs(members[..|members| - 1]);
      InsertWeighs(members[|members| - 1], SortById(members[..|members| - 1]));
    }
  }

  /** No id is named twice. */
  predicate NoRepeats(members: seq<Member>) {
    forall i, j :: 0 <= i < j < |members| ==> members[i].id != members[j].id
  }

  /**
    Sorts a weighed list and looks for neighbours of one id. It refuses exactly a list that names
    an id twice, and keeps every member of any other.
   */
  method BuildSet(list: seq<Member>, total: nat) returns (r: Result<ValidatorSet>)
    requires total == TotalWeight(list) <= MAX_U64
    ensures r == if NoRepeats(list) then Ok(ValidatorSet(SortById(list), total)) else Err(Malformed)
    ensures r.Ok? ==> Built(r.value) && multiset(r.value.members) == multiset(list)
  {
    var members := SortById(list);
    SortOrders(list);
    SortWeighs(list);
    var i := 0;
    while i + 1 < |members|
      invariant i == 0 || i < |members|
      invariant forall k :: 0 <= k < i ==> members[k].id != members[k + 1].id
    {
      if members[i].id == members[i + 1].id {
        RepeatFound(list, members, i);
        return Err(Malformed);
      }
      i := i + 1;
    }
    AdjacentDistinct(members);
    DistinctBack(list, members);
    return Ok(ValidatorSet(members, total));
  }

  lemma {:induction false} AdjacentDistinct(members: seq<Member>)
    requires InOrder(members) && forall k :: 0 <= k < |members| - 1 ==> members[k].id != members[k + 1].id
    ensures Ordered(members)
  {
    forall i, j | 0 <= i < j < |members| ensures members[i].id < members[j].id {
      assert members[i].id <= members[i + 1].id && members[i].id != members[i + 1].id;
    }
  }

  // The number of entries naming an id, which a permutation keeps.

  ghost function Count(members: seq<Member>, id: Id): nat {
    if members == [] then 0 else Count(members[..|members| - 1], id) + if members[|members| - 1].id == id then 1 else 0
  }

  lemma {:induction false} CountInsert(m: Member, members: seq<Member>, id: Id)
    ensures Count(InsertById(m, members), id) == Count(members, id) + if m.id == id then 1 else 0
  {
    if members != [] {
      if m.id <= members[0].id {
        CountPrepend(m, members, id);
      } else {
        CountInsert(m, members[1..], id);
        CountPrepend(members[0], InsertById(m, members[1..]), id);
        CountPrepend(members[0], members[1..], id);
        assert members == [members[0]] + members[1..];
      }
    } else {
      assert [m][..0] == [];
    }
  }

  lemma {:induction false} CountPrepend(m: Member, members: seq<Member>, id: Id)
    ensures Count([m] + members, id) == Count(members, id) + if m.id == id then 1 else 0
  {
    if members == [] {
      assert [m] + members == [m] && [m][..0] == [];
    } else {
      assert ([m] + members)[..|members|] == [m] + members[..|members| - 1];
      CountPrepend(m, members[..|members| - 1], id);
    }
  }

  lemma {:induction false} CountSort(members: seq<Member>, id: Id)
    ensures Count(SortById(members), id) == Count(members, id)
  {
    if members != [] {
      CountSort(members[..|members| - 1], id);
      CountInsert(members[|members| - 1], SortById(members[..|members| - 1]), id);
    }
  }

  lemma {:induction false} CountTwice(members: seq<Member>, i: nat, j: nat)
    requires i < j < |members| && members[i].id == members[j].id
    ensures Count(members, members[i].id) >= 2
  {
    var init := members[..|members| - 1];
    if j < |members| - 1 { CountTwice(init, i, j); } else { CountOnce(init, i); }
  }

  lemma {:induction false} CountOnce(members: seq<Member>, i: nat)
    requires i < |members|
    ensures Count(members, members[i].id) >= 1
  {
    if i < |members| - 1 { CountOnce(members[..|members| - 1], i); }
  }

  lemma {:induction false} CountWithoutRepeats(members: seq<Member>, id: Id)
    requires NoRepeats(members)
    ensures Count(members, id) <= 1 && (!Names(members, id) ==> Count(members, id) == 0)
  {
    if members != [] {
      var init, last := members[..|members| - 1], members[|members| - 1];
      CountWithoutRepeats(init, id);
      assert last.id == id ==> !Names(init, id);
      assert Names(init, id) ==> Names(members, id) by {
        if Names(init, id) { var i :| 0 <= i < |init| && init[i].id == id; assert members[i].id == id; }
      }
    }
  }

  lemma {:induction false} RepeatFound(list: seq<Member>, members: seq<Member>, i: nat)
    requires members == SortById(list) && i + 1 < |members| && members[i].id == members[i + 1].id
    ensures !NoRepeats(list)
  {
    hide SortById, NoRepeats;
    CountTwice(members, i, i + 1);
    CountSort(list, members[i].id);
    if NoRepeats(list) { CountWithoutRepeats(list, members[i].id); }
  }

  lemma {:induction false} DistinctBack(list: seq<Member>, members: seq<Member>)
    requires members == SortById(list) && Ordered(members)
    ensures NoRepeats(list)
  {
    hide SortById;
    forall i, j | 0 <= i < j < |list| ensures list[i].id != list[j].id {
      CountSort(list, list[i].id);
      CountWithoutRepeats(members, list[i].id);
      if list[i].id == list[j].id { CountTwice(list, i, j); }
    }
  }

  // ---------------------------------------------------------------- searching

  /** The place of `id` in an ordered run, or the place it would take. */
  method Search(ids: seq<Id>, id: Id) returns (found: bool, at: nat)
    requires forall i, j :: 0 <= i < j < |ids| ==> ids[i] < ids[j]
    ensures at <= |ids| && (found ==> at < |ids| && ids[at] == id)
    ensures !found ==> (forall i :: 0 <= i < at ==> ids[i] < id) && (forall i :: at <= i < |ids| ==> id < ids[i])
  {
    var low, high := 0, |ids|;
    while low < high
      invariant 0 <= low <= high <= |ids|
      invariant forall i :: 0 <= i < low ==> ids[i] < id
      invariant forall i :: high <= i < |ids| ==> id < ids[i]
    {
      var mid := (low + high) / 2;
      if ids[mid] == id { return true, mid; }
      if ids[mid] < id { low := mid + 1; } else { high := mid; }
    }
    return false, low;
  }

  function Ids(members: seq<Member>): (r: seq<Id>)
    ensures |r| == |members|
  {
    seq(|members|, i requires 0 <= i < |members| => members[i].id)
  }

  /** The member of this id, exactly when the set has one. */
  method Find(s: ValidatorSet, id: Id) returns (r: Option<nat>)
    requires Built(s)
    ensures r.Some? <==> Names(s.members, id)
    ensures r.Some? ==> r.value < |s.members| && s.members[r.value].id == id
  {
    var found, at := Search(Ids(s.members), id);
    if found { return Some(at); }
    assert forall i :: 0 <= i < |s.members| ==> s.members[i].id == Ids(s.members)[i];
    return None;
  }

  // ---------------------------------------------------------------- the tally

  datatype Signature = Signature(signer: Id, bytes: seq<byte>)

  /** Which signatures verify: of a key, over the one message at hand. */
  type Check = (seq<byte>, seq<byte>) -> bool

  predicate Signs(s: ValidatorSet, check: Check, entry: Signature, at: nat)
    requires at < |s.members|
  {
    s.members[at].id == entry.signer && check(s.members[at].validator.publicKey, entry.bytes)
  }

  /** The members some entry validly signs for. */
  ghost function Signers(s: ValidatorSet, check: Check, entries: seq<Signature>): set<Id> {
    set i: nat, at: nat | i < |entries| && at < |s.members| && Signs(s, check, entries[i], at) :: s.members[at].id
  }

  /** How many entries name a member at all. */
  ghost function Named(s: ValidatorSet, entries: seq<Signature>): (r: nat)
    ensures r <= |entries|
  {
    if entries == [] then 0
    else Named(s, entries[..|entries| - 1]) + if Names(s.members, entries[|entries| - 1].signer) then 1 else 0
  }

  lemma {:induction false} NamedAlong(s: ValidatorSet, entries: seq<Signature>, i: nat)
    requires i <= |entries|
    ensures Named(s, entries[..i]) <= Named(s, entries)
    decreases |entries| - i
  {
    if i < |entries| {
      assert entries[..i + 1][..i] == entries[..i];
      NamedAlong(s, entries, i + 1);
    } else {
      assert entries[..i] == entries;
    }
  }

  lemma {:induction false} SignersStep(s: ValidatorSet, check: Check, entries: seq<Signature>, i: nat)
    requires Ordered(s.members) && i < |entries|
    ensures Signers(s, check, entries[..i]) <= Signers(s, check, entries[..i + 1]) <= Signers(s, check, entries)
    ensures !Names(s.members, entries[i].signer) ==>
      Signers(s, check, entries[..i + 1]) == Signers(s, check, entries[..i])
  {
    var before, now := entries[..i], entries[..i + 1];
    assert forall k :: 0 <= k < i ==> before[k] == now[k] == entries[k];
    forall id | id in Signers(s, check, now)
      ensures id in Signers(s, check, before) || id == entries[i].signer
      ensures id in Signers(s, check, entries)
    {
      var k: nat, at: nat :| k < |now| && at < |s.members| && Signs(s, check, now[k], at) && s.members[at].id == id;
      assert Signs(s, check, entries[k], at);
      if k < i { assert Signs(s, check, before[k], at); }
    }
    forall id | id in Signers(s, check, before) ensures id in Signers(s, check, now) {
      var k: nat, at: nat :| k < |before| && at < |s.members| && Signs(s, check, before[k], at)
        && s.members[at].id == id;
      assert Signs(s, check, now[k], at);
    }
  }

  lemma {:induction false} LastSigns(s: ValidatorSet, check: Check, entries: seq<Signature>, i: nat, at: nat)
    requires Ordered(s.members) && i < |entries| && at < |s.members| && s.members[at].id == entries[i].signer
    ensures Signers(s, check, entries[..i + 1]) == Signers(s, check, entries[..i]) +
      if check(s.members[at].validator.publicKey, entries[i].bytes) then {entries[i].signer} else {}
  {
    var before, now := entries[..i], entries[..i + 1];
    assert now[i] == entries[i];
    if check(s.members[at].validator.publicKey, entries[i].bytes) { assert Signs(s, check, now[i], at); }
    forall id ensures id in Signers(s, check, now) <==>
      id in Signers(s, check, before) || (id == entries[i].signer
        && check(s.members[at].validator.publicKey, entries[i].bytes))
    {
      if id in Signers(s, check, now) {
        var k: nat, m: nat :| k < |now| && m < |s.members| && Signs(s, check, now[k], m) && s.members[m].id == id;
        if k < i { assert Signs(s, check, before[k], m); } else { assert m == at; }
      }
      if id in Signers(s, check, before) {
        var k: nat, m: nat :| k < |before| && m < |s.members| && Signs(s, check, before[k], m) && s.members[m].id == id;
        assert Signs(s, check, now[k], m);
      }
    }
  }

  ghost function SetOf(ids: seq<Id>): set<Id> { set x | x in ids }

  lemma {:induction false} InsertInOrder(ids: seq<Id>, at: nat, id: Id)
    requires at <= |ids| && (forall i, j :: 0 <= i < j < |ids| ==> ids[i] < ids[j])
    requires (forall i :: 0 <= i < at ==> ids[i] < id) && (forall i :: at <= i < |ids| ==> id < ids[i])
    ensures var r := ids[..at] + [id] + ids[at..];
      (forall i, j :: 0 <= i < j < |r| ==> r[i] < r[j]) && SetOf(r) == SetOf(ids) + {id}
  {
    var r := ids[..at] + [id] + ids[at..];
    assert forall x :: x in ids <==> x in ids[..at] || x in ids[at..];
    assert forall x :: x in r <==> x in ids || x == id;
  }

  lemma {:induction false} Counted(ids: seq<Id>, id: Id, found: bool, at: nat)
    requires at <= |ids| && (found ==> at < |ids| && ids[at] == id)
    requires !found ==> (forall i :: 0 <= i < at ==> ids[i] < id) && (forall i :: at <= i < |ids| ==> id < ids[i])
    ensures found <==> id in SetOf(ids)
  {}

  /** Ids a tally has counted: in order, each a member some entry validly signed for. */
  ghost predicate Tallied(s: ValidatorSet, check: Check, entries: seq<Signature>, counted: seq<Id>, weight: nat) {
    && (forall i, j :: 0 <= i < j < |counted| ==> counted[i] < counted[j])
    && SetOf(counted) <= Signers(s, check, entries)
    && weight == WeightOf(s.members, SetOf(counted))
  }

  lemma {:induction false} TallyNone(s: ValidatorSet, check: Check, entries: seq<Signature>)
    ensures Tallied(s, check, entries[..0], [], 0)
    ensures SetOf([]) == {} == Signers(s, check, entries[..0])
  {
    assert SetOf([]) == {};
    WeightNothing(s.members);
  }

  lemma {:induction false} WeightNothing(members: seq<Member>)
    ensures WeightOf(members, {}) == 0
  {
    if members != [] { WeightNothing(members[..|members| - 1]); }
  }

  /** Counting a verified signature of a member not yet counted. */
  lemma {:induction false} TallyOne(
      s: ValidatorSet, check: Check, entries: seq<Signature>, i: nat, counted: seq<Id>, weight: nat, at: nat,
      member: nat)
    requires Built(s) && i < |entries| && Tallied(s, check, entries[..i], counted, weight)
    requires member < |s.members| && Signs(s, check, entries[i], member) && at <= |counted|
    requires (forall k :: 0 <= k < at ==> counted[k] < entries[i].signer)
    requires (forall k :: at <= k < |counted| ==> entries[i].signer < counted[k])
    ensures Tallied(s, check, entries[..i + 1], counted[..at] + [entries[i].signer] + counted[at..],
      weight + s.members[member].validator.weight)
    ensures weight + s.members[member].validator.weight <= s.totalWeight
  {
    hide Signers;
    var id, was := entries[i].signer, SetOf(counted);
    LastSigns(s, check, entries, i, member);
    InsertInOrder(counted, at, id);
    assert id !in was;
    WeightGrows(s.members, was, member);
    WeightWithin(s.members, was + {id}, was + {id});
  }

  lemma {:induction false} TallySkips(s: ValidatorSet, check: Check, entries: seq<Signature>, i: nat, counted: seq<Id>,
      weight: nat)
    requires Ordered(s.members) && i < |entries| && Tallied(s, check, entries[..i], counted, weight)
    ensures Tallied(s, check, entries[..i + 1], counted, weight)
  {
    hide Signers;
    SignersStep(s, check, entries, i);
  }

  /** The run stopped trying signatures with some left: more named entries than the budget. */
  ghost predicate Exhausted(s: ValidatorSet, entries: seq<Signature>) { Named(s, entries) > 2 * |s.members| }

  /** The tally from an entry on, given what has been tried and counted so far. */
  ghost function TallyFrom(
      s: ValidatorSet, check: Check, entries: seq<Signature>, i: nat, attempts: nat, counted: set<Id>, weight: nat): nat
    requires i <= |entries|
    decreases |entries| - i
  {
    if i == |entries| then weight
    else
      var entry := entries[i];
      if !Names(s.members, entry.signer) || entry.signer in counted then
        TallyFrom(s, check, entries, i + 1, attempts, counted, weight)
      else if attempts >= 2 * |s.members| then weight
      else if !check(KeyOf(s, entry.signer), entry.bytes) then
        TallyFrom(s, check, entries, i + 1, attempts + 1, counted, weight)
      else
        var now := weight + WeightFor(s, entry.signer);
        if Carries(s, now) then now
        else TallyFrom(s, check, entries, i + 1, attempts + 1, counted + {entry.signer}, now)
  }

  ghost function Place(s: ValidatorSet, id: Id): (r: nat)
    requires Names(s.members, id)
    ensures r < |s.members| && s.members[r].id == id
  {
    var i :| 0 <= i < |s.members| && s.members[i].id == id;
    i
  }

  ghost function KeyOf(s: ValidatorSet, id: Id): seq<byte>
    requires Names(s.members, id)
  {
    s.members[Place(s, id)].validator.publicKey
  }

  ghost function WeightFor(s: ValidatorSet, id: Id): nat
    requires Names(s.members, id)
  {
    s.members[Place(s, id)].validator.weight
  }

  /** What was signed: the weight of the members some entry validly signs for. */
  ghost function SignedWeight(s: ValidatorSet, check: Check, entries: seq<Signature>): nat {
    WeightOf(s.members, Signers(s, check, entries))
  }

  /**
    Computes `TallyFrom` by iteration, keeping the counted ids sorted. What it counts was validly
    signed, each member once; a built set cannot overflow it; and while the tries last, a total
    that does not carry is everything that was signed.
   */
  method CarriedWeight(s: ValidatorSet, entries: seq<Signature>, check: Check)
      returns (r: Result<nat>, ghost counted: set<Id>)
    requires Built(s)
    ensures r.Ok?
    ensures counted <= Signers(s, check, entries) && r.value == WeightOf(s.members, counted)
    ensures 3 * r.value <= 2 * s.totalWeight && !Exhausted(s, entries) ==> counted == Signers(s, check, entries)
    ensures r.value == TallyFrom(s, check, entries, 0, 0, {}, 0)
    ensures 3 * r.value > 2 * s.totalWeight ==> 3 * SignedWeight(s, check, entries) > 2 * s.totalWeight
    ensures !Exhausted(s, entries) ==>
      (3 * r.value > 2 * s.totalWeight <==> 3 * SignedWeight(s, check, entries) > 2 * s.totalWeight)
  {
    hide Signers, Names, WeightOf, Tallied, SetOf;
    var budget: nat, attempts: nat, weight: nat := 2 * |s.members|, 0, 0;
    var ids: seq<Id> := [];
    TallyNone(s, check, entries);
    TallyMeans(s, check, entries);
    assert entries[..|entries|] == entries;
    for i := 0 to |entries|
      invariant Tallied(s, check, entries[..i], ids, weight) && weight <= s.totalWeight
      invariant attempts <= Named(s, entries[..i])
      invariant SetOf(ids) == Signers(s, check, entries[..i])
      invariant TallyFrom(s, check, entries, 0, 0, {}, 0)
        == TallyFrom(s, check, entries, i, attempts, SetOf(ids), weight)
    {
      counted := SetOf(ids);
      TalliedFacts(s, check, entries[..i], ids, weight);
      SignersStep(s, check, entries, i);
      assert entries[..i + 1][..i] == entries[..i];
      NamedAlong(s, entries, i + 1);
      TallySkips(s, check, entries, i, ids, weight);
      var member := Find(s, entries[i].signer);
      if member.None? { continue; }
      LastSigns(s, check, entries, i, member.value);
      assert member.value == Place(s, entries[i].signer);
      var found, at := Search(ids, entries[i].signer);
      Counted(ids, entries[i].signer, found, at);
      if found { continue; }
      if attempts >= budget { return Ok(weight), counted; }
      attempts := attempts + 1;
      if !check(s.members[member.value].validator.publicKey, entries[i].bytes) { continue; }
      TallyOne(s, check, entries, i, ids, weight, at, member.value);
      InsertInOrder(ids, at, entries[i].signer);
      ids := ids[..at] + [entries[i].signer] + ids[at..];
      if weight + s.members[member.value].validator.weight > MAX_U64 { return Err(Malformed), counted; }
      weight := weight + s.members[member.value].validator.weight;
      if Carries(s, weight) {
        TalliedFacts(s, check, entries[..i + 1], ids, weight);
        return Ok(weight), SetOf(ids);
      }
    }
    TalliedFacts(s, check, entries, ids, weight);
    return Ok(weight), SetOf(ids);
  }

  lemma {:induction false} TalliedFacts(s: ValidatorSet, check: Check, entries: seq<Signature>, counted: seq<Id>,
      weight: nat)
    requires Tallied(s, check, entries, counted, weight)
    ensures forall i, j :: 0 <= i < j < |counted| ==> counted[i] < counted[j]
    ensures SetOf(counted) <= Signers(s, check, entries) && weight == WeightOf(s.members, SetOf(counted))
  {}

  /** Neither the order of the signatures nor repeating one changes what was signed. */
  lemma {:induction false} OrderDoesNotMatter(s: ValidatorSet, check: Check, a: seq<Signature>, b: seq<Signature>)
    requires forall entry :: entry in a <==> entry in b
    ensures SignedWeight(s, check, a) == SignedWeight(s, check, b)
  {
    SignersWithin(s, check, a, b);
    SignersWithin(s, check, b, a);
    assert Signers(s, check, a) == Signers(s, check, b);
  }

  lemma {:induction false} SignersWithin(s: ValidatorSet, check: Check, a: seq<Signature>, b: seq<Signature>)
    requires forall entry :: entry in a ==> entry in b
    ensures Signers(s, check, a) <= Signers(s, check, b)
  {
    forall id | id in Signers(s, check, a) ensures id in Signers(s, check, b) {
      var k: nat, at: nat :| k < |a| && at < |s.members| && Signs(s, check, a[k], at) && s.members[at].id == id;
      assert a[k] in b;
      var j: nat :| j < |b| && b[j] == a[k];
      assert Signs(s, check, b[j], at);
    }
  }

  /** How many entries name this id. */
  ghost function Naming(entries: seq<Signature>, id: Id): nat {
    if entries == [] then 0
    else Naming(entries[..|entries| - 1], id) + if entries[|entries| - 1].signer == id then 1 else 0
  }

  /** How many entries name the members, counted member by member. */
  ghost function NamingAll(members: seq<Member>, entries: seq<Signature>): nat {
    if members == [] then 0
    else NamingAll(members[..|members| - 1], entries) + Naming(entries, members[|members| - 1].id)
  }

  lemma {:induction false} OneEntryMore(members: seq<Member>, entries: seq<Signature>)
    requires Ordered(members) && entries != []
    ensures NamingAll(members, entries) ==
      NamingAll(members, entries[..|entries| - 1]) + if Names(members, entries[|entries| - 1].signer) then 1 else 0
  {
    if members != [] {
      var init, last, id := members[..|members| - 1], members[|members| - 1], entries[|entries| - 1].signer;
      OneEntryMore(init, entries);
      assert Names(members, id) <==> Names(init, id) || last.id == id by {
        if Names(init, id) { var i :| 0 <= i < |init| && init[i].id == id; assert members[i].id == id; }
      }
      assert last.id == id ==> !Names(init, id);
    }
  }

  lemma {:induction false} NamedIsNaming(s: ValidatorSet, entries: seq<Signature>)
    requires Ordered(s.members)
    ensures Named(s, entries) == NamingAll(s.members, entries)
  {
    hide Names;
    if entries == [] {
      NamingNothing(s.members);
    } else {
      NamedIsNaming(s, entries[..|entries| - 1]);
      OneEntryMore(s.members, entries);
    }
  }

  lemma {:induction false} NamingNothing(members: seq<Member>)
    ensures NamingAll(members, []) == 0
  {
    if members != [] { NamingNothing(members[..|members| - 1]); }
  }

  lemma {:induction false} NamingAtMostTwice(members: seq<Member>, entries: seq<Signature>)
    requires forall i :: 0 <= i < |members| ==> Naming(entries, members[i].id) <= 2
    ensures NamingAll(members, entries) <= 2 * |members|
  {
    if members != [] { NamingAtMostTwice(members[..|members| - 1], entries); }
  }

  /** A list that names each member at most twice, among any number of strangers, is never cut short. */
  lemma {:induction false} NamedTwiceFits(s: ValidatorSet, entries: seq<Signature>)
    requires Built(s) && forall i :: 0 <= i < |s.members| ==> Naming(entries, s.members[i].id) <= 2
    ensures !Exhausted(s, entries)
  {
    NamedIsNaming(s, entries);
    NamingAtMostTwice(s.members, entries);
  }

  // ---------------------------------------------------------------- what the budget reaches

  /** How many entries are tried: those naming a member no earlier entry validly signed for. */
  ghost function Tries(s: ValidatorSet, check: Check, entries: seq<Signature>): nat {
    if entries == [] then 0
    else
      var before := Tries(s, check, entries[..|entries| - 1]);
      if Tried(s, check, entries[..|entries| - 1], entries[|entries| - 1]) then before + 1 else before
  }

  ghost predicate Tried(s: ValidatorSet, check: Check, before: seq<Signature>, entry: Signature) {
    Names(s.members, entry.signer) && entry.signer !in Signers(s, check, before)
  }

  /** The front of the list two tries a member pay for. */
  ghost function Reached(s: ValidatorSet, check: Check, entries: seq<Signature>): (r: seq<Signature>)
    ensures r <= entries
  {
    if entries == [] || Tries(s, check, entries) <= 2 * |s.members| then entries
    else Reached(s, check, entries[..|entries| - 1])
  }

  /** A list within the budget by its names alone is reached to its end. */
  lemma {:induction false} UnexhaustedIsReached(s: ValidatorSet, check: Check, entries: seq<Signature>)
    requires !Exhausted(s, entries)
    ensures Reached(s, check, entries) == entries
  {
    TriesAreNamed(s, check, entries);
  }

  lemma {:induction false} TriesAreNamed(s: ValidatorSet, check: Check, entries: seq<Signature>)
    ensures Tries(s, check, entries) <= Named(s, entries)
  {
    hide Signers, Names;
    if entries != [] { TriesAreNamed(s, check, entries[..|entries| - 1]); }
  }

  lemma {:induction false} TriesAlong(s: ValidatorSet, check: Check, entries: seq<Signature>, i: nat)
    requires i <= |entries|
    ensures Tries(s, check, entries[..i]) <= Tries(s, check, entries)
    decreases |entries| - i
  {
    if i < |entries| {
      assert entries[..i + 1][..i] == entries[..i];
      TriesAlong(s, check, entries, i + 1);
    } else {
      assert entries[..i] == entries;
    }
  }

  /** Whatever is within the budget is reached. */
  lemma {:induction false} ReachedCovers(s: ValidatorSet, check: Check, entries: seq<Signature>, i: nat)
    requires i <= |entries| && Tries(s, check, entries[..i]) <= 2 * |s.members|
    ensures entries[..i] <= Reached(s, check, entries)
  {
    if i == |entries| {
      assert entries[..i] == entries;
    } else if Tries(s, check, entries) > 2 * |s.members| {
      assert entries[..|entries| - 1][..i] == entries[..i];
      ReachedCovers(s, check, entries[..|entries| - 1], i);
    }
  }

  /** The try past the budget is where the list is cut. */
  lemma {:induction false} ReachedStops(s: ValidatorSet, check: Check, entries: seq<Signature>, i: nat)
    requires i < |entries| && Tries(s, check, entries[..i]) == 2 * |s.members|
      && Tried(s, check, entries[..i], entries[i])
    ensures Reached(s, check, entries) == entries[..i]
  {
    hide Tried;
    assert entries[..i + 1][..i] == entries[..i];
    TriesAlong(s, check, entries, i + 1);
    var init := entries[..|entries| - 1];
    assert init[..i] == entries[..i];
    if i < |init| { ReachedStops(s, check, init, i); } else { assert init == entries[..i]; }
  }

  /** Where one entry leaves what was signed and what was tried. */
  lemma {:induction false} OneTryOn(s: ValidatorSet, check: Check, entries: seq<Signature>, i: nat)
    requires Built(s) && i < |entries|
    ensures var before, now, entry := entries[..i], entries[..i + 1], entries[i];
      && Tries(s, check, now) == Tries(s, check, before) + (if Tried(s, check, before, entry) then 1 else 0)
      && Signers(s, check, now) ==
         if Tried(s, check, before, entry) && check(KeyOf(s, entry.signer), entry.bytes)
         then Signers(s, check, before) + {entry.signer} else Signers(s, check, before)
  {
    hide Signers, WeightOf;
    assert entries[..i + 1][..i] == entries[..i];
    SignersStep(s, check, entries, i);
    if Names(s.members, entries[i].signer) {
      LastSigns(s, check, entries, i, Place(s, entries[i].signer));
    }
  }

  lemma {:induction false} CarriedIsKept(s: ValidatorSet, check: Check, entries: seq<Signature>, i: nat)
    requires i <= |entries| && Tries(s, check, entries[..i]) <= 2 * |s.members|
    requires Carries(s, SignedWeight(s, check, entries[..i]))
    ensures Carries(s, SignedWeight(s, check, Reached(s, check, entries)))
  {
    hide Signers, WeightOf, Tries, Reached;
    ReachedCovers(s, check, entries, i);
    var front, reached := entries[..i], Reached(s, check, entries);
    assert forall entry :: entry in front ==> entry in reached;
    SignersWithin(s, check, front, reached);
    WeightWithin(s.members, Signers(s, check, front), Signers(s, check, reached));
  }

  lemma {:induction false} WeightGrowsFor(s: ValidatorSet, counted: set<Id>, id: Id)
    requires Built(s) && Names(s.members, id) && id !in counted
    ensures WeightOf(s.members, counted + {id}) == WeightOf(s.members, counted) + WeightFor(s, id)
  {
    WeightGrows(s.members, counted, Place(s, id));
  }

  lemma {:induction false} TallyReaches(
      s: ValidatorSet, check: Check, entries: seq<Signature>, i: nat, attempts: nat, counted: set<Id>, weight: nat)
    requires Built(s) && i <= |entries| && attempts == Tries(s, check, entries[..i]) <= 2 * |s.members|
    requires counted == Signers(s, check, entries[..i]) && weight == WeightOf(s.members, counted) && !Carries(s, weight)
    ensures Carries(s, TallyFrom(s, check, entries, i, attempts, counted, weight))
      <==> Carries(s, SignedWeight(s, check, Reached(s, check, entries)))
    decreases |entries| - i
  {
    hide Signers, WeightOf, Built, Tries;
    if i == |entries| {
      assert entries[..i] == entries;
    } else {
      var entry := entries[i];
      OneTryOn(s, check, entries, i);
      if !Tried(s, check, entries[..i], entry) {
        TallyReaches(s, check, entries, i + 1, attempts, counted, weight);
      } else if attempts == 2 * |s.members| {
        ReachedStops(s, check, entries, i);
      } else if !check(KeyOf(s, entry.signer), entry.bytes) {
        TallyReaches(s, check, entries, i + 1, attempts + 1, counted, weight);
      } else {
        WeightGrowsFor(s, counted, entry.signer);
        var now := weight + WeightFor(s, entry.signer);
        if Carries(s, now) {
          CarriedIsKept(s, check, entries, i + 1);
        } else {
          TallyReaches(s, check, entries, i + 1, attempts + 1, counted + {entry.signer}, now);
        }
      }
    }
  }

  /**
    Exactly what the budgeted, early-exit tally decides, of any list: whether the distinct valid
    signers among the entries its budget reaches carry the set.
   */
  lemma {:induction false} TallyDecides(s: ValidatorSet, check: Check, entries: seq<Signature>)
    requires Built(s)
    ensures 3 * TallyFrom(s, check, entries, 0, 0, {}, 0) > 2 * s.totalWeight
      <==> 3 * SignedWeight(s, check, Reached(s, check, entries)) > 2 * s.totalWeight
  {
    assert entries[..0] == [] && Signers(s, check, []) == {};
    WeightNothing(s.members);
    TallyReaches(s, check, entries, 0, 0, {}, 0);
  }

  /** What the tally counted was signed, whatever padded the list. */
  lemma {:induction false} TallyIsSigned(s: ValidatorSet, check: Check, entries: seq<Signature>)
    requires Built(s) && 3 * TallyFrom(s, check, entries, 0, 0, {}, 0) > 2 * s.totalWeight
    ensures 3 * SignedWeight(s, check, entries) > 2 * s.totalWeight
  {
    WeightNothing(s.members);
    TallyBounded(s, check, entries, 0, 0, {}, 0);
  }

  lemma {:induction false} TallyBounded(
      s: ValidatorSet, check: Check, entries: seq<Signature>, i: nat, attempts: nat, counted: set<Id>, weight: nat)
    requires Built(s) && i <= |entries| && counted <= Signers(s, check, entries)
      && weight == WeightOf(s.members, counted)
    ensures TallyFrom(s, check, entries, i, attempts, counted, weight) <= SignedWeight(s, check, entries)
    decreases |entries| - i
  {
    hide WeightOf, Built;
    WeightWithin(s.members, counted, Signers(s, check, entries));
    if i < |entries| {
      var entry := entries[i];
      if !Names(s.members, entry.signer) || entry.signer in counted {
        TallyBounded(s, check, entries, i + 1, attempts, counted, weight);
      } else if attempts < 2 * |s.members| {
        if check(KeyOf(s, entry.signer), entry.bytes) {
          assert Signs(s, check, entries[i], Place(s, entry.signer));
          WeightGrowsFor(s, counted, entry.signer);
          WeightWithin(s.members, counted + {entry.signer}, Signers(s, check, entries));
          TallyBounded(s, check, entries, i + 1, attempts + 1, counted + {entry.signer},
            weight + WeightFor(s, entry.signer));
        } else {
          TallyBounded(s, check, entries, i + 1, attempts + 1, counted, weight);
        }
      }
    }
  }

  /** What the tally's answer is worth, of any list and of one it gets through. */
  lemma {:induction false} TallyMeans(s: ValidatorSet, check: Check, entries: seq<Signature>)
    requires Built(s)
    ensures var tally := TallyFrom(s, check, entries, 0, 0, {}, 0);
      && (3 * tally > 2 * s.totalWeight ==> 3 * SignedWeight(s, check, entries) > 2 * s.totalWeight)
      && (!Exhausted(s, entries) ==>
            (3 * tally > 2 * s.totalWeight <==> 3 * SignedWeight(s, check, entries) > 2 * s.totalWeight))
  {
    hide TallyFrom, Reached, Signers, WeightOf;
    if 3 * TallyFrom(s, check, entries, 0, 0, {}, 0) > 2 * s.totalWeight { TallyIsSigned(s, check, entries); }
    TallyDecides(s, check, entries);
    if !Exhausted(s, entries) { UnexhaustedIsReached(s, check, entries); }
  }

  // ---------------------------------------------------------------- who did not sign

  /** The members no entry validly signs for. */
  ghost function Missing(s: ValidatorSet, check: Check, entries: seq<Signature>): set<Id> {
    (set at: nat | at < |s.members| :: s.members[at].id) - Signers(s, check, entries)
  }

  lemma {:induction false} WeightOfAll(members: seq<Member>, ids: set<Id>)
    requires forall at :: 0 <= at < |members| ==> members[at].id in ids
    ensures WeightOf(members, ids) == TotalWeight(members)
  {
    if members != [] { WeightOfAll(members[..|members| - 1], ids); }
  }

  /** Carrying a set, said of those who did not sign: they weigh less than a third. */
  lemma {:induction false} MissingDecide(s: ValidatorSet, check: Check, entries: seq<Signature>)
    requires Built(s)
    ensures SignedWeight(s, check, entries) + WeightOf(s.members, Missing(s, check, entries)) == s.totalWeight
    ensures 3 * SignedWeight(s, check, entries) > 2 * s.totalWeight
      <==> 3 * WeightOf(s.members, Missing(s, check, entries)) < s.totalWeight
  {
    hide WeightOf, Signers;
    var some, none := Signers(s, check, entries), Missing(s, check, entries);
    forall at | 0 <= at < |s.members| ensures s.members[at].id in some + none {}
    WeightSplits(s.members, some, none);
    WeightOfAll(s.members, some + none);
    assert some * none == {};
    WeightNothing(s.members);
  }

  /**
    The tally lives: of a list naming each member at most twice, among any strangers, it accepts
    exactly when the members that did not validly sign weigh less than a third.
   */
  lemma {:induction false} TallyLives(s: ValidatorSet, check: Check, entries: seq<Signature>)
    requires Built(s) && forall i :: 0 <= i < |s.members| ==> Naming(entries, s.members[i].id) <= 2
    ensures 3 * TallyFrom(s, check, entries, 0, 0, {}, 0) > 2 * s.totalWeight
      <==> 3 * WeightOf(s.members, Missing(s, check, entries)) < s.totalWeight
  {
    hide TallyFrom, WeightOf, Missing, Signers, Reached;
    NamedTwiceFits(s, entries);
    UnexhaustedIsReached(s, check, entries);
    TallyDecides(s, check, entries);
    MissingDecide(s, check, entries);
  }

  // ---------------------------------------------------------------- past the budget

  /** One failing entry, repeated. */
  function Repeated(entry: Signature, count: nat): (r: seq<Signature>)
    ensures |r| == count
  {
    seq(count, _ => entry)
  }

  lemma {:induction false} SpentTallyStands(
      s: ValidatorSet, check: Check, entries: seq<Signature>, i: nat, attempts: nat, counted: set<Id>, weight: nat)
    requires i <= |entries| && attempts >= 2 * |s.members|
    ensures TallyFrom(s, check, entries, i, attempts, counted, weight) == weight
    decreases |entries| - i
  {
    if i < |entries| { SpentTallyStands(s, check, entries, i + 1, attempts, counted, weight); }
  }

  lemma {:induction false} PaddingSpends(
      s: ValidatorSet, check: Check, at: nat, bad: seq<byte>, entries: seq<Signature>, i: nat)
    requires Built(s) && at < |s.members| && !check(s.members[at].validator.publicKey, bad)
    requires i <= 2 * |s.members| <= |entries|
    requires entries[..2 * |s.members|] == Repeated(Signature(s.members[at].id, bad), 2 * |s.members|)
    ensures TallyFrom(s, check, entries, i, i, {}, 0) == 0
    decreases 2 * |s.members| - i
  {
    if i == 2 * |s.members| {
      SpentTallyStands(s, check, entries, i, i, {}, 0);
    } else {
      var id := s.members[at].id;
      assert entries[i] == entries[..2 * |s.members|][i];
      assert Names(s.members, id) && Place(s, id) == at;
      PaddingSpends(s, check, at, bad, entries, i + 1);
    }
  }

  /**
    The budget bites on every set and every list: behind as many failing entries as it allows,
    all naming one member, nothing is counted, though everything signed is signed still.
   */
  lemma {:induction false} PaddingStarvesATally(
      s: ValidatorSet, check: Check, at: nat, bad: seq<byte>, entries: seq<Signature>)
    requires Built(s) && at < |s.members| && !check(s.members[at].validator.publicKey, bad)
    ensures var padded := Repeated(Signature(s.members[at].id, bad), 2 * |s.members|) + entries;
      && 3 * TallyFrom(s, check, padded, 0, 0, {}, 0) <= 2 * s.totalWeight
      && SignedWeight(s, check, padded) >= SignedWeight(s, check, entries)
  {
    hide TallyFrom, Signers, WeightOf;
    var pad := Repeated(Signature(s.members[at].id, bad), 2 * |s.members|);
    assert (pad + entries)[..2 * |s.members|] == pad;
    PaddingSpends(s, check, at, bad, pad + entries, 0);
    SignersWithin(s, check, entries, pad + entries);
    WeightWithin(s.members, Signers(s, check, entries), Signers(s, check, pad + entries));
  }
}

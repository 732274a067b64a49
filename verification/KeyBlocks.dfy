module KeyBlocks {
  // A key block laid out from the ground up: validators listed in a dictionary, the set in a
  // configuration, the configuration in a block. Reading it gives the set that was listed, so a
  // link over such blocks is judged by those validators and no others.

  import opened Basics
  import opened Cells
  import opened Hashing
  import opened DictMap
  import opened DictCells
  import opened DictHistories
  import opened Reads
  import opened Validators
  import opened BlockReads
  import opened Layouts

  // ---------------------------------------------------------------- entries

  /** A reader of entries meets exactly what a dictionary's map holds. */
  lemma {:induction false} EntryReads(root: Cell, m: Content<()>, key: Bits)
    requires Holds(PLAIN, Some(root), m, |key|)
    ensures LoadEntry(root, key) == Ok(if key in m then Some(m[key].value) else None)
  {
    hide Holds, LookupFrom, Lawful;
    PlainIsLawful();
    HoldsAnswers(PLAIN, Some(root), m, key);
  }

  // ---------------------------------------------------------------- the listed validators

  /** An entry that opens with this validator, in either of its layouts. */
  ghost predicate Spells(entry: Payload, v: Validator) {
    && |v.publicKey| == 32 && v.weight <= MAX_U64
    && exists withAddress: bool, rest: Bits :: entry.bits == ValidatorBits(withAddress, v) + rest
  }

  lemma {:induction false} SpelledReads(entry: Payload, v: Validator)
    requires Spells(entry, v)
    ensures LoadValidator(entry) == Ok(v)
  {
    hide LoadValidator, ValidatorBits;
    var withAddress: bool, rest: Bits :| entry.bits == ValidatorBits(withAddress, v) + rest;
    ValidatorReadsBack(withAddress, v, rest, entry.refs);
  }

  /** The entries under the first indices are these validators, in order. */
  ghost predicate ListsValidators(m: Content<()>, vs: seq<Validator>) {
    forall i: nat :: i < |vs| ==> ListsAt(m, i, vs[i])
  }

  ghost predicate ListsAt(m: Content<()>, i: nat, v: Validator) {
    ToBits(i, 16) in m && Spells(m[ToBits(i, 16)].value, v)
  }

  function MemberOf(sha: Sha, v: Validator): Member { Member(ShortId(sha, v.publicKey), v) }

  function MembersOf(sha: Sha, vs: seq<Validator>): (members: seq<Member>)
    ensures |members| == |vs|
  {
    seq(|vs|, i requires 0 <= i < |vs| => MemberOf(sha, vs[i]))
  }

  function WeightFrom(vs: seq<Validator>, index: nat): nat
    requires index <= |vs|
    decreases |vs| - index
  {
    if index == |vs| then 0 else vs[index].weight + WeightFrom(vs, index + 1)
  }

  lemma {:induction false} MembersReadBack(sha: Sha, list: Cell, m: Content<()>, vs: seq<Validator>, index: nat,
      total: nat)
    requires Holds(PLAIN, Some(list), m, 16) && ListsValidators(m, vs)
    requires index <= |vs| && total + WeightFrom(vs, index) <= MAX_U64
    ensures MembersFrom(sha, list, index, |vs|, total) == Ok(MembersOf(sha, vs)[index..])
    decreases |vs| - index
  {
    hide Holds, LoadEntry, LoadValidator, ToBits, Spells;
    if index < |vs| {
      assert ListsAt(m, index, vs[index]);
      EntryReads(list, m, ToBits(index, 16));
      SpelledReads(m[ToBits(index, 16)].value, vs[index]);
      MembersReadBack(sha, list, m, vs, index + 1, total + vs[index].weight);
      var members := MembersOf(sha, vs);
      assert members[index..] == [MemberOf(sha, vs[index])] + members[index + 1..];
    } else {
      assert MembersOf(sha, vs)[index..] == [];
    }
  }

  /** A set's cell, its list holding these validators, reads as the set of exactly them. */
  lemma {:induction false} SetIsListed(sha: Sha, f: SetFields, rest: Bits, refs: seq<Cell>, mask: Mask, m: Content<()>,
      vs: seq<Validator>)
    requires SetFit(f) && f.main == |vs| && Holds(PLAIN, Some(f.list), m, 16) && ListsValidators(m, vs)
    requires WeightFrom(vs, 0) <= MAX_U64
    ensures SetFromCell(sha, Cell(Ordinary, SetBits(f) + rest, [f.list] + refs, mask)) == Assemble(MembersOf(sha, vs))
  {
    hide Holds, LoadSetHead, SetBits, MembersFrom, Assemble;
    SetReadsBack(f, rest, refs);
    MembersReadBack(sha, f.list, m, vs, 0, 0);
    assert MembersOf(sha, vs)[0..] == MembersOf(sha, vs);
  }

  // ---------------------------------------------------------------- the configuration and the block

  /** Parameter 35 is the set chosen for now, parameter 34 the one elected for the round. */
  const TEMPORARY: Bits := ToBits(35, 32)
  const ELECTED: Bits := ToBits(34, 32)

  /** The parameter a configuration's map puts in force: the temporary set where there is one. */
  ghost predicate InForce(m: Content<()>, param: Cell) {
    var key := if TEMPORARY in m then TEMPORARY else ELECTED;
    key in m && m[key].value.refs != [] && m[key].value.refs[0] == param
  }

  lemma {:induction false} ConfigNamesSet(sha: Sha, config: Cell, m: Content<()>, param: Cell)
    requires Holds(PLAIN, Some(config), m, 32) && InForce(m, param)
    ensures SetFromConfig(sha, config) == SetFromCell(sha, param)
  {
    hide Holds, LoadEntry, SetFromCell, ToBits;
    EntryReads(config, m, TEMPORARY);
    EntryReads(config, m, ELECTED);
  }

  /** A key block's parts, laid out in its fourth reference; its other references and fields are any. */
  lemma {:induction false} KeyBlockReadsBack(block: Cell, x: ExtraFields, c: CustomFields, extra: Cell, custom: Cell)
    requires |block.refs| >= 4 && block.refs[3] == extra && !extra.IsExotic() && !custom.IsExotic()
    requires ExtraFit(x) && x.custom == Some(custom) && Parse(extra) == Payload(ExtraBits(x), ExtraRefs(x))
    requires CustomFit(c) && Parse(custom) == Payload(CustomBits(c), CustomRefs(c))
    ensures ConfigOf(block) == Ok(c.config)
  {
    hide LoadCustom, LoadConfig, ExtraBits, ExtraRefs, CustomBits, CustomRefs, ExtraFit, CustomFit;
    Layouts.ExtraReadsBack(x, [], []);
    ConfigReadsBack(c, [], []);
    assert ExtraBits(x) + [] == ExtraBits(x) && ExtraRefs(x) + [] == ExtraRefs(x);
    assert CustomBits(c) + [] == CustomBits(c) && CustomRefs(c) + [] == CustomRefs(c);
  }

  /**
    From the validators up: whatever block carries a configuration whose set in force lists these
    validators, each key once and within the weight a set may have, names the set of exactly them.
   */
  lemma {:induction false} BlockNamesItsValidators(
      sha: Sha, block: Cell, config: Cell, params: Content<()>, f: SetFields, rest: Bits, refs: seq<Cell>, mask: Mask,
      list: Content<()>, vs: seq<Validator>)
    requires ConfigOf(block) == Ok(config) && Holds(PLAIN, Some(config), params, 32)
    requires InForce(params, Cell(Ordinary, SetBits(f) + rest, [f.list] + refs, mask))
    requires SetFit(f) && f.main == |vs| && Holds(PLAIN, Some(f.list), list, 16) && ListsValidators(list, vs)
    requires WeightFrom(vs, 0) <= MAX_U64 && NoRepeats(MembersOf(sha, vs))
    ensures var named := SetFromConfig(sha, ConfigOf(block).value);
      named == Ok(ValidatorSet(SortById(MembersOf(sha, vs)), TotalWeight(MembersOf(sha, vs)))) && Built(named.value)
  {
    hide Holds, ConfigOf, SetFromConfig, SetFromCell, SetBits, InForce, ListsValidators, NoRepeats, SortById, Built;
    ConfigNamesSet(sha, config, params, Cell(Ordinary, SetBits(f) + rest, [f.list] + refs, mask));
    SetIsListed(sha, f, rest, refs, mask, list, vs);
    ReadSetsAreBuilt(sha, config);
  }
}

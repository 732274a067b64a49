module Records {
  // Each reader of a record said by position: exactly which bits it accepts, and which of them
  // its answer is. What is not such a record is refused.

  import opened Basics
  import opened Cells
  import opened Packing
  import opened Reads
  import opened Validators
  import opened BlockReads

  /** What is left of a run once `from` bits of it are read. */
  function From(s: Payload, from: nat): Payload
    requires from <= |s.bits|
  {
    Payload(s.bits[from..], s.refs)
  }

  lemma {:induction false} LoadAt(s: Payload, from: nat, n: nat)
    requires from <= |s.bits|
    ensures from + n <= |s.bits| ==> LoadBits(From(s, from), n) == Ok((s.bits[from..from + n], From(s, from + n)))
    ensures from + n > |s.bits| ==> LoadBits(From(s, from), n).Err?
  {
    if from + n <= |s.bits| {
      assert s.bits[from..][..n] == s.bits[from..from + n] && s.bits[from..][n..] == s.bits[from + n..];
    }
  }

  lemma {:induction false} FromStart(s: Payload)
    ensures From(s, 0) == s
  {
    assert s.bits[0..] == s.bits;
  }

  /** The number a field spells. */
  function Spells(s: Payload, from: nat, to: nat): nat
    requires from <= to <= |s.bits|
  {
    Value(s.bits[from..to])
  }

  lemma {:induction false} TagExactly(c: Cell, width: nat, tag: nat)
    ensures CheckTag(c, width, tag).Ok? <==> |c.bits| >= width && Value(c.bits[..width]) == tag
  {
    hide Value;
  }

  /** A shard's record: 452 bits opening with `a` or `b`; the number at 4, the block's hash at 196. */
  lemma {:induction false} ShardExactly(s: Payload)
    ensures LoadShardDescr(s).Ok? <==> |s.bits| >= 452 && (Spells(s, 0, 4) == 0xa || Spells(s, 0, 4) == 0xb)
    ensures LoadShardDescr(s).Ok? ==>
      LoadShardDescr(s).value == ShardDescr(Spells(s, 4, 36), Pack(s.bits[196..452]))
  {
    hide LoadBits, Value, Pack, From;
    FromStart(s);
    LoadAt(s, 0, 4);
    if |s.bits| >= 4 { LoadAt(s, 4, 32); }
    if |s.bits| >= 36 { LoadAt(s, 36, 160); }
    if |s.bits| >= 196 { LoadAt(s, 196, 256); }
  }

  /** A validator: 360 bits opening with `53` or `73` and the curve's tag; the key at 40, the weight at 296. */
  lemma {:induction false} ValidatorExactly(s: Payload)
    ensures LoadValidator(s).Ok? <==>
      && |s.bits| >= 360 && (Spells(s, 0, 8) == 0x53 || Spells(s, 0, 8) == 0x73) && Spells(s, 8, 40) == 0x8e81278a
    ensures LoadValidator(s).Ok? ==>
      LoadValidator(s).value == Validator(Pack(s.bits[40..296]), Spells(s, 296, 360))
  {
    hide LoadBits, Value, Pack, From;
    FromStart(s);
    LoadAt(s, 0, 8);
    if |s.bits| >= 8 { LoadAt(s, 8, 32); }
    if |s.bits| >= 40 { LoadAt(s, 40, 256); }
    if |s.bits| >= 296 { LoadAt(s, 296, 64); }
  }

  lemma {:induction false} IdentExactly(s: Payload, at: nat)
    requires at <= |s.bits|
    ensures LoadShardIdent(From(s, at)).Ok? <==>
      && |s.bits| >= at + 104 && Spells(s, at, at + 2) == 0 && Spells(s, at + 2, at + 8) <= 60
    ensures LoadShardIdent(From(s, at)).Ok? ==>
      LoadShardIdent(From(s, at)).value == ((Signed32(Spells(s, at + 8, at + 40)),
        ShardOf(Spells(s, at + 40, at + 104), Spells(s, at + 2, at + 8))), From(s, at + 104))
  {
    hide LoadBits, Value, From, ShardOf;
    LoadAt(s, at, 2);
    if |s.bits| >= at + 2 { LoadAt(s, at + 2, 6); }
    if |s.bits| >= at + 8 { LoadAt(s, at + 8, 32); }
    if |s.bits| >= at + 40 { LoadAt(s, at + 40, 64); }
  }

  /**
    A header: 536 bits opening with its tag, its shard prefix no longer than sixty bits; the kind
    at 70, the number at 80, workchain and shard at 152 and 184, the time at 248.
   */
  lemma {:induction false} HeaderExactly(s: Payload)
    ensures LoadHeader(s).Ok? <==>
      && |s.bits| >= 536 && Spells(s, 0, 32) == 0x9bc7a987 && Spells(s, 144, 146) == 0 && Spells(s, 146, 152) <= 60
    ensures LoadHeader(s).Ok? ==>
      LoadHeader(s).value == BlockHeader(Signed32(Spells(s, 152, 184)),
        ShardOf(Spells(s, 184, 248), Spells(s, 146, 152)), Spells(s, 80, 112), s.bits[70], Spells(s, 248, 280))
  {
    hide LoadBits, Value, From, ShardOf, LoadShardIdent;
    FromStart(s);
    LoadAt(s, 0, 32);
    if |s.bits| >= 32 { LoadAt(s, 32, 38); }
    if |s.bits| >= 70 { LoadAt(s, 70, 1); }
    if |s.bits| >= 71 { LoadAt(s, 71, 9); }
    if |s.bits| >= 80 { LoadAt(s, 80, 32); }
    if |s.bits| >= 112 { LoadAt(s, 112, 32); }
    if |s.bits| >= 144 { IdentExactly(s, 144); }
    if |s.bits| >= 248 { LoadAt(s, 248, 32); }
    if |s.bits| >= 280 { LoadAt(s, 280, 256); }
  }

  /**
    A validator set: its tag, and at 72 and 88 how many there are and how many of them sign, at
    least one and no more than all; then the list, behind a bit in the later layout.
   */
  lemma {:induction false} SetExactly(s: Payload)
    ensures LoadSetHead(s).Ok? <==>
      && |s.bits| >= 104 && (Spells(s, 0, 8) == 0x11 || Spells(s, 0, 8) == 0x12)
      && 1 <= Spells(s, 88, 104) <= Spells(s, 72, 88) && s.refs != []
      && (Spells(s, 0, 8) == 0x12 ==> |s.bits| >= 169 && s.bits[168])
    ensures LoadSetHead(s).Ok? ==> LoadSetHead(s).value == SetHead(Spells(s, 88, 104), s.refs[0])
  {
    hide LoadBits, Value, From;
    FromStart(s);
    LoadAt(s, 0, 8);
    if |s.bits| >= 8 { LoadAt(s, 8, 64); }
    if |s.bits| >= 72 { LoadAt(s, 72, 16); }
    if |s.bits| >= 88 { LoadAt(s, 88, 16); }
    if |s.bits| >= 104 {
      LoadAt(s, 104, 64);
      assert From(s, 104).refs == s.refs by { SameRefs(s, 104); }
    }
    if |s.bits| >= 168 {
      LoadAt(s, 168, 1);
      if |s.bits| >= 169 { SameRefs(s, 169); }
    }
  }

  lemma {:induction false} SameRefs(s: Payload, from: nat)
    requires from <= |s.bits|
    ensures From(s, from).refs == s.refs
  {}

  /** Whether a state has an extra: bit 361, in a state of at least that much whose shard reads as one. */
  lemma {:induction false} HasExtraExactly(state: Cell)
    ensures var s := Parse(state);
      && (HasExtra(state).Ok? <==> |s.bits| >= 362 && Spells(s, 64, 66) == 0)
      && (HasExtra(state).Ok? ==> HasExtra(state).value == s.bits[361])
  {
    hide LoadBits, Value, From;
    var s := Parse(state);
    FromStart(s);
    LoadAt(s, 0, 64);
    if |s.bits| >= 64 { LoadAt(s, 64, 2); }
    if |s.bits| >= 66 { LoadAt(s, 66, 102); }
    if |s.bits| >= 168 { LoadAt(s, 168, 193); }
    if |s.bits| >= 361 { LoadAt(s, 361, 1); }
  }

  /** A configuration is read only out of a key block's custom cell, and that only out of a block's extra. */
  lemma {:induction false} ConfigIsTagged(s: Payload)
    ensures LoadConfig(s).Ok? ==> |s.bits| >= 17 && Spells(s, 0, 16) == 0xcca5 && s.bits[16]
    ensures LoadCustom(s).Ok? ==> |s.bits| >= 545 && |s.refs| >= 3 && Spells(s, 0, 32) == 0x4a33f6fd
  {
    hide LoadBits, Value, From, LoadMaybeRef, LoadRef, SkipCurrency;
    FromStart(s);
    LoadAt(s, 0, 16);
    LoadAt(s, 0, 32);
    if |s.bits| >= 16 { LoadAt(s, 16, 1); }
    if LoadCustom(s).Ok? {
      var t := SkipRefs(From(s, 32), 3).value;
      SameRefs(s, 32);
      CustomIsLong(s);
    }
  }

  lemma {:induction false} CustomIsLong(s: Payload)
    requires LoadCustom(s).Ok?
    ensures |s.bits| >= 545
  {
    hide Value;
  }
}

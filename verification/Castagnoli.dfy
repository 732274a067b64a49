module Castagnoli {
  // What the checksum is, apart from the loop that computes it: the remainder left by dividing the
  // message, as a polynomial over the field of two elements, by the Castagnoli polynomial.

  import opened Basics
  import opened BocBytes

  // ---------------------------------------------------------------- polynomials

  /** The powers with coefficient one in the generator. */
  const POWERS: set<nat> := {32, 28, 27, 26, 25, 23, 22, 20, 19, 18, 14, 13, 11, 10, 9, 8, 6, 0}

  /** The generator, highest power first. */
  function Generator(): (r: Bits)
    ensures |r| == 33
  {
    seq(33, i requires 0 <= i < 33 => 32 - i in POWERS)
  }

  function Sum(a: Bits, b: Bits): (r: Bits)
    requires |a| == |b|
    ensures |r| == |a|
  {
    seq(|a|, i requires 0 <= i < |a| => a[i] != b[i])
  }

  /** Long division, highest power first: what is left once nothing as high as the generator is. */
  function Remainder(p: Bits): (r: Bits)
    ensures |p| >= 32 ==> |r| == 32
    decreases |p|
  {
    if |p| <= 32 then p
    else if p[0] then Remainder(Sum(p[1..33], Generator()[1..]) + p[33..])
    else Remainder(p[1..])
  }

  // ---------------------------------------------------------------- words

  // A word's operations by name, so that a proof about many of them need not look inside one.

  function Odd(c: bv32): bool { c & 1 != 0 }
  function Half(c: bv32): bv32 { c >> 1 }
  function Plus(a: bv32, b: bv32): bv32 { a ^ b }
  predicate Within(a: bv32, b: bv32) { a <= b }
  function Unit(bit: bool): bv32 { if bit then 1 else 0 }

  lemma {:induction false} HalfOfSum(a: bv32, b: bv32)
    ensures Half(Plus(a, b)) == Plus(Half(a), Half(b))
  {}

  lemma {:induction false} OddSum(a: bv32, b: bv32)
    ensures Odd(Plus(a, b)) == (Odd(a) != Odd(b))
  {}

  lemma {:induction false} HalvesWithin(a: bv32, b: bv32)
    requires Within(a, b)
    ensures Within(Half(a), Half(b))
  {}

  lemma {:induction false} NothingWithin(a: bv32)
    requires Within(a, 0)
    ensures a == 0
  {}

  lemma {:induction false} PlusNothing(a: bv32)
    ensures Plus(a, 0) == a
  {}

  lemma {:induction false} Regrouped(a: bv32, b: bv32, c: bv32)
    ensures Plus(Plus(a, b), c) == Plus(Plus(a, c), b)
  {
    Associates(a, b, c);
    Associates(a, c, b);
    Commutes(b, c);
    hide Plus;
  }

  lemma {:induction false} Associates(a: bv32, b: bv32, c: bv32)
    ensures Plus(Plus(a, b), c) == Plus(a, Plus(b, c))
  {}

  lemma {:induction false} Commutes(a: bv32, b: bv32)
    ensures Plus(a, b) == Plus(b, a)
  {}

  lemma {:induction false} UnitIsLow(bit: bool)
    ensures Odd(Unit(bit)) == bit && Half(Unit(bit)) == 0
  {}

  lemma {:induction false} ZeroIsEven()
    ensures !Odd(0) && Half(0) == 0
  {}

  lemma {:induction false} ShiftIs(c: bv32)
    ensures CrcShift(c) == if Odd(c) then Plus(Half(c), 0x82F6_3B78) else Half(c)
  {}

  // ---------------------------------------------------------------- the register

  /** The low `n` bits of a word, lowest first: the running checksum as a polynomial. */
  function Low(c: bv32, n: nat): (r: Bits)
    ensures |r| == n
    decreases n
  {
    if n == 0 then [] else [Odd(c)] + Low(Half(c), n - 1)
  }

  lemma {:induction false} LowOfSum(a: bv32, b: bv32, n: nat)
    ensures Low(Plus(a, b), n) == Sum(Low(a, n), Low(b, n))
    decreases n
  {
    hide Odd, Half, Plus;
    if n > 0 {
      HalfOfSum(a, b);
      OddSum(a, b);
      LowOfSum(Half(a), Half(b), n - 1);
    }
  }

  function Shifted(c: bv32, n: nat): bv32
    decreases n
  {
    if n == 0 then c else Shifted(Half(c), n - 1)
  }

  lemma {:induction false} LowOneMore(c: bv32, n: nat)
    ensures Low(c, n + 1) == Low(c, n) + [Odd(Shifted(c, n))]
    decreases n
  {
    hide Odd, Half;
    if n > 0 { LowOneMore(Half(c), n - 1); }
  }

  lemma {:induction false} ShiftedWithin(c: bv32, bound: bv32, n: nat)
    requires Within(c, bound)
    ensures Within(Shifted(c, n), Shifted(bound, n))
    decreases n
  {
    hide Within, Half;
    if n > 0 {
      HalvesWithin(c, bound);
      ShiftedWithin(Half(c), Half(bound), n - 1);
    }
  }

  lemma {:induction false} HalfFour(c: bv32)
    ensures Half(Half(Half(Half(c)))) == c >> 4
  {}

  lemma {:induction false} ShiftedFour(c: bv32, n: nat)
    ensures Shifted(c, n + 4) == Shifted(c >> 4, n)
  {
    HalfFour(c);
    hide Half;
    assert Shifted(c, n + 4) == Shifted(Half(c), n + 3);
    assert Shifted(Half(c), n + 3) == Shifted(Half(Half(c)), n + 2);
    assert Shifted(Half(Half(c)), n + 2) == Shifted(Half(Half(Half(c))), n + 1);
  }

  lemma {:induction false} AllShiftedOut(c: bv32)
    ensures Shifted(c, 32) == 0
  {
    assert Within(c, 0xFFFF_FFFF);
    ShiftedWithin(c, 0xFFFF_FFFF, 32);
    ShiftedFour(0xFFFF_FFFF, 28);
    ShiftedFour(0x0FFF_FFFF, 24);
    ShiftedFour(0x00FF_FFFF, 20);
    ShiftedFour(0x000F_FFFF, 16);
    ShiftedFour(0xFFFF, 12);
    ShiftedFour(0x0FFF, 8);
    ShiftedFour(0x00FF, 4);
    ShiftedFour(0x000F, 0);
    NothingWithin(Shifted(c, 32));
  }

  lemma {:induction false} LowFirst(c: bv32, n: nat)
    requires n > 0
    ensures Low(c, n) == [Odd(c)] + Low(Half(c), n - 1)
  {}

  /** Shifting the register is multiplying by the variable, before the high power is taken out. */
  lemma {:induction false} LowOfShift(c: bv32)
    ensures Low(Half(c), 32) == Low(c, 32)[1..] + [false]
  {
    hide Low, Odd, Half;
    LowOneMore(c, 32);
    AllShiftedOut(c);
    ZeroIsEven();
    LowFirst(c, 33);
    LowFirst(c, 32);
    var low := Low(c, 32);
    assert [Odd(c)] + Low(Half(c), 32) == low + [false];
    assert (low + [false])[1..] == low[1..] + [false];
  }

  lemma {:induction false} LowFour(c: bv32, n: nat)
    ensures Low(c, n + 4) == [Odd(c), Odd(Half(c)), Odd(Half(Half(c))), Odd(Half(Half(Half(c))))]
      + Low(Half(Half(Half(Half(c)))), n)
  {
    hide Low, Odd, Half;
    LowFirst(c, n + 4);
    LowFirst(Half(c), n + 3);
    LowFirst(Half(Half(c)), n + 2);
    LowFirst(Half(Half(Half(c))), n + 1);
  }

  /** The constant of the loop is the generator under its highest power, in the register's order. */
  lemma {:induction false} ConstantIsGenerator()
    ensures Low(0x82F6_3B78, 32) == Generator()[1..]
  {
    hide Low;
    LowFour(0x82F6_3B78, 28);
    LowFour(0x082F_63B7, 24);
    LowFour(0x0082_F63B, 20);
    LowFour(0x0008_2F63, 16);
    LowFour(0x0000_82F6, 12);
    LowFour(0x0000_082F, 8);
    LowFour(0x0000_0082, 4);
    LowFour(0x0000_0008, 0);
    LowNone(0);
  }

  lemma {:induction false} LowNone(c: bv32)
    ensures Low(c, 0) == []
  {}

  // ---------------------------------------------------------------- one bit at a time

  function FeedBit(c: bv32, bit: bool): bv32 { CrcShift(Plus(c, Unit(bit))) }

  function FeedBits(c: bv32, bits: Bits): bv32
    decreases |bits|
  {
    if bits == [] then c else FeedBits(FeedBit(c, bits[0]), bits[1..])
  }

  lemma {:induction false} FeedJoins(c: bv32, a: Bits, b: Bits)
    ensures FeedBits(c, a + b) == FeedBits(FeedBits(c, a), b)
    decreases |a|
  {
    hide FeedBit;
    if a == [] {
      assert a + b == b;
    } else {
      assert (a + b)[1..] == a[1..] + b;
      FeedJoins(FeedBit(c, a[0]), a[1..], b);
    }
  }

  lemma {:induction false} LowBitFirst(c: bv32, b: bv32)
    ensures CrcShift(Plus(c, b)) == Plus(FeedBit(c, Odd(b)), Half(b))
  {
    hide CrcShift, Plus, Odd, Half, Unit;
    var unit := Unit(Odd(b));
    ShiftIs(Plus(c, b));
    ShiftIs(Plus(c, unit));
    HalfOfSum(c, b);
    HalfOfSum(c, unit);
    OddSum(c, b);
    OddSum(c, unit);
    UnitIsLow(Odd(b));
    PlusNothing(Half(c));
    Regrouped(Half(c), Half(b), 0x82F6_3B78);
  }

  /** Taking a word in whole and shifting is taking its bits in one by one. */
  lemma {:induction false} RoundsFeed(c: bv32, b: bv32, n: nat)
    ensures CrcRounds(Plus(c, b), n) == Plus(FeedBits(c, Low(b, n)), Shifted(b, n))
    decreases n
  {
    hide CrcShift, FeedBit, Plus, Odd, Half;
    if n > 0 {
      LowBitFirst(c, b);
      RoundsFeed(FeedBit(c, Odd(b)), Half(b), n - 1);
      assert Low(b, n)[0] == Odd(b) && Low(b, n)[1..] == Low(Half(b), n - 1);
    }
  }

  /** The bits of a message, each byte's lowest first. */
  function MessageBits(bytes: seq<byte>): (r: Bits)
    ensures |r| == 8 * |bytes|
  {
    if bytes == [] then [] else MessageBits(bytes[..|bytes| - 1]) + Low(bytes[|bytes| - 1] as bv32, 8)
  }

  lemma {:induction false} ByteShiftedOut(b: byte)
    ensures Shifted(b as bv32, 8) == 0
  {
    assert Within(b as bv32, 0xff);
    ShiftedWithin(b as bv32, 0xff, 8);
    ShiftedFour(0xff, 4);
    ShiftedFour(0x0f, 0);
    NothingWithin(Shifted(b as bv32, 8));
  }

  lemma {:induction false} ByteFeeds(c: bv32, b: byte)
    ensures CrcByte(c, b) == FeedBits(c, Low(b as bv32, 8))
  {
    assert c ^ (b as bv32) == Plus(c, b as bv32);
    hide Low, Shifted, Plus, FeedBits, CrcRounds;
    RoundsFeed(c, b as bv32, 8);
    ByteShiftedOut(b);
    PlusNothing(FeedBits(c, Low(b as bv32, 8)));
  }

  lemma {:induction false} UpdateFeeds(c: bv32, bytes: seq<byte>)
    ensures CrcUpdate(c, bytes) == FeedBits(c, MessageBits(bytes))
  {
    hide FeedBits, CrcByte, Low;
    if bytes != [] {
      var init, b := bytes[..|bytes| - 1], bytes[|bytes| - 1];
      UpdateFeeds(c, init);
      ByteFeeds(CrcUpdate(c, init), b);
      FeedJoins(c, MessageBits(init), Low(b as bv32, 8));
    } else {
      FeedNone(c);
    }
  }

  lemma {:induction false} FeedNone(c: bv32)
    ensures FeedBits(c, []) == c
  {}

  // ---------------------------------------------------------------- one step of the division

  /** The register taking in a bit, as polynomials. */
  lemma {:induction false} FeedIsStep(c: bv32, bit: bool)
    ensures var r, next := Low(c, 32), Low(FeedBit(c, bit), 32);
      next == if r[0] != bit then Sum(r[1..] + [false], Generator()[1..]) else r[1..] + [false]
  {
    hide Low, Generator, Unit, Odd, Half, Plus, CrcShift;
    var x := Plus(c, Unit(bit));
    ShiftIs(x);
    OddSum(c, Unit(bit));
    HalfOfSum(c, Unit(bit));
    UnitIsLow(bit);
    PlusNothing(Half(c));
    LowFirst(c, 32);
    LowOfShift(c);
    if Odd(x) {
      LowOfSum(Half(c), 0x82F6_3B78, 32);
      ConstantIsGenerator();
    }
  }

  function Zeros(n: nat): Bits { Repeat(false, n) }

  /** The message made room for, with the register added in at the top. */
  function Dividend(r: Bits, message: Bits): (p: Bits)
    requires |r| == 32
    ensures |p| == |message| + 32
  {
    Sum(r + Zeros(|message|), message + Zeros(32))
  }

  lemma {:induction false} DivisionStep(r: Bits, message: Bits, next: Bits)
    requires |r| == 32 == |next| && message != []
    requires next == if r[0] != message[0] then Sum(r[1..] + [false], Generator()[1..]) else r[1..] + [false]
    ensures Remainder(Dividend(r, message)) == Remainder(Dividend(next, message[1..]))
  {
    hide Generator;
    var p, q := Dividend(r, message), Dividend(next, message[1..]);
    assert p[0] == (r[0] != message[0]);
    if p[0] {
      var left := Sum(p[1..33], Generator()[1..]) + p[33..];
      forall k | 0 <= k < |q| ensures left[k] == q[k] {
        if k < 32 {
          assert left[k] == (p[1 + k] != Generator()[1..][k]);
          assert next[k] == ((r[1..] + [false])[k] != Generator()[1..][k]);
        } else {
          assert left[k] == p[1 + k];
        }
      }
      assert left == q;
    } else {
      forall k | 0 <= k < |q| ensures p[1..][k] == q[k] {
        assert p[1..][k] == p[1 + k] && (k < 32 ==> next[k] == (r[1..] + [false])[k]);
      }
      assert p[1..] == q;
    }
  }

  lemma {:induction false} FeedDivides(c: bv32, message: Bits)
    ensures Low(FeedBits(c, message), 32) == Remainder(Dividend(Low(c, 32), message))
    decreases |message|
  {
    hide Low, FeedBit;
    if message == [] {
      assert Dividend(Low(c, 32), []) == Low(c, 32);
    } else {
      hide Remainder;
      var next := FeedBit(c, message[0]);
      FeedIsStep(c, message[0]);
      DivisionStep(Low(c, 32), message, Low(next, 32));
      FeedDivides(next, message[1..]);
    }
  }

  /**
    The running checksum over any bytes is the remainder of the message by the generator: the
    message shifted past the generator's degree, the starting register added in at the top.
   */
  lemma {:induction false} ChecksumIsRemainder(start: bv32, bytes: seq<byte>)
    ensures Low(CrcUpdate(start, bytes), 32) == Remainder(Dividend(Low(start, 32), MessageBits(bytes)))
  {
    hide Low, FeedBits, Remainder, MessageBits, CrcUpdate;
    UpdateFeeds(start, bytes);
    FeedDivides(start, MessageBits(bytes));
  }

  /** It is written complemented, lowest byte first. */
  lemma {:induction false} TailIsComplement()
    ensures CrcTail(0xFBFC_FDFE) == [0x01, 0x02, 0x03, 0x04]
  {
    assert !(0xFBFC_FDFE as bv32) == 0x0403_0201;
  }
}

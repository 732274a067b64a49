module Builders {
  // The builder and the slice: packed bytes and a cursor over them, each proved to be the run of
  // bits and the references it stands for, and to be left as it was by anything it refuses.

  import opened Basics
  import opened Cells
  import opened Packing
  import opened BocBytes

  const U64: nat := 64
  const U128: nat := 128

  // ---------------------------------------------------------------- bits in bytes

  /** The bits filled out to whole bytes with zeros. */
  function Filled(bits: Bits): (r: Bits)
    ensures |r| == 8 * ((|bits| + 7) / 8) && bits <= r
  {
    bits + Repeat(false, 8 * ((|bits| + 7) / 8) - |bits|)
  }

  /** The bytes a builder holds for these bits: no completion mark until it is finished. */
  function Bytes(bits: Bits): (r: seq<byte>)
    ensures |r| == (|bits| + 7) / 8
  {
    seq((|bits| + 7) / 8, i requires 0 <= i < (|bits| + 7) / 8 => ByteOf(Filled(bits)[8 * i..8 * i + 8]))
  }

  /** A byte with the bit worth `2^place` set. */
  function SetBit(b: byte, place: nat): byte
    requires place < 8
  {
    assert Pow2(8) == 256;
    Pow2Monotone(place, 7);
    if b / Pow2(place) % 2 == 1 || b + Pow2(place) >= 256 then b else b + Pow2(place)
  }

  /** A byte with its low `n` bits cleared. */
  function ClearLow(b: byte, n: nat): byte {
    LowIsLess(b, Pow2(n));
    b - b % Pow2(n)
  }

  lemma {:induction false} LowIsLess(x: nat, p: nat)
    requires p > 0
    ensures x % p <= x
  {
    var q := x / p;
    assert q * p >= 0;
    assert x == q * p + x % p;
  }

  function BitAt(data: seq<byte>, index: nat): bool {
    index / 8 < |data| && data[index / 8] / Pow2(7 - index % 8) % 2 == 1
  }

  lemma {:induction false} ValueOfZeros(k: nat)
    ensures Value(Repeat(false, k)) == 0
  {
    if k > 0 {
      assert Repeat(false, k)[..k - 1] == Repeat(false, k - 1);
      ValueOfZeros(k - 1);
    }
  }

  lemma {:induction false} ValueShifted(s: Bits, k: nat)
    ensures Value(s + Repeat(false, k)) == Value(s) * Pow2(k)
  {
    ValueJoins(s, Repeat(false, k));
    ValueOfZeros(k);
  }

  /** Filling the next bit of a partly filled byte. */
  lemma {:induction false} NextBit(t: Bits, bit: bool)
    requires |t| < 8
    ensures |t + Repeat(false, 8 - |t|)| == 8 == |t + [bit] + Repeat(false, 7 - |t|)|
    ensures var was := ByteOf(t + Repeat(false, 8 - |t|));
      ByteOf(t + [bit] + Repeat(false, 7 - |t|)) == if bit then SetBit(was, 7 - |t|) else was
  {
    hide Value;
    var place := 7 - |t|;
    ValueShifted(t, 8 - |t|);
    ValueShifted(t + [bit], place);
    OneMore(t, bit);
    assert Pow2(8) == 256 && Pow2(8 - |t|) == 2 * Pow2(place);
    SetsNext(Value(t), Pow2(place), Bit(bit));
    assert ByteOf(t + [bit] + Repeat(false, place)) == (2 * Value(t) + Bit(bit)) * Pow2(place);
    assert ByteOf(t + Repeat(false, 8 - |t|)) == Value(t) * (2 * Pow2(place));
  }

  lemma {:induction false} OneMore(t: Bits, bit: bool)
    ensures Value(t + [bit]) == 2 * Value(t) + Bit(bit)
  {
    assert (t + [bit])[..|t|] == t;
  }

  lemma {:induction false} SetsNext(v: nat, p: nat, bit: nat)
    requires p > 0 && bit <= 1
    ensures (2 * v + bit) * p == v * (2 * p) + bit * p
    ensures v * (2 * p) / p == 2 * v
  {
    ModUnique(v * (2 * p), p, 2 * v, 0);
  }

  lemma {:induction false} BytesGrow(bits: Bits, bit: bool)
    ensures |bits| % 8 == 0 ==> Bytes(bits + [bit]) == Bytes(bits) + [if bit then SetBit(0, 7) else 0]
    ensures |bits| % 8 != 0 ==>
      var last := |bits| / 8;
      Bytes(bits + [bit]) == Bytes(bits)[last := if bit then SetBit(Bytes(bits)[last], 7 - |bits| % 8)
        else Bytes(bits)[last]]
  {
    hide ByteOf, SetBit;
    var more, last := bits + [bit], |bits| / 8;
    var t := bits[8 * last..];
    var was, now := Filled(bits), Filled(more);
    FilledNow(bits, bit);
    forall i | 0 <= i < last ensures Bytes(more)[i] == Bytes(bits)[i] {
      assert now[8 * i..8 * i + 8] == was[8 * i..8 * i + 8];
    }
    NextBit(t, bit);
    if |bits| % 8 == 0 {
      assert t == [];
      ZeroByte();
      assert [] + Repeat(false, 8) == Repeat(false, 8);
    } else {
      assert was[8 * last..8 * last + 8] == t + Repeat(false, 8 - |t|);
    }
  }

  lemma {:induction false} FilledNow(bits: Bits, bit: bool)
    ensures var last := |bits| / 8;
      var t := bits[8 * last..];
      && (|bits| + 8) / 8 == last + 1 && |t| == |bits| % 8 && |Filled(bits + [bit])| == 8 * last + 8
      && Filled(bits + [bit])[8 * last..8 * last + 8] == t + [bit] + Repeat(false, 7 - |t|)
  {
    var last := |bits| / 8;
    var t := bits[8 * last..];
    assert Filled(bits + [bit]) == bits + [bit] + Repeat(false, 7 - |t|);
  }

  lemma {:induction false} ZeroByte()
    ensures ByteOf(Repeat(false, 8)) == 0
  {
    ValueOfZeros(8);
  }

  /** Marking where the bits end turns a builder's bytes into a cell's data. */
  lemma {:induction false} MarkCompletes(bits: Bits)
    ensures |bits| % 8 == 0 ==> Pack(bits) == Bytes(bits)
    ensures |bits| % 8 != 0 ==>
      Pack(bits) == Bytes(bits)[|bits| / 8 := SetBit(Bytes(bits)[|bits| / 8], 7 - |bits| % 8)]
  {
    hide ByteOf, SetBit;
    if |bits| % 8 == 0 {
      assert Padded(bits) == bits && Filled(bits) == bits;
    } else {
      BytesGrow(bits, true);
      assert Padded(bits) == Filled(bits + [true]);
      assert Pack(bits) == Bytes(bits + [true]);
    }
  }

  lemma {:induction false} CutByte(s: Bits, r: nat)
    requires |s| == 8 && r <= 8
    ensures |s[..r] + Repeat(false, 8 - r)| == 8
    ensures ByteOf(s[..r] + Repeat(false, 8 - r)) == ClearLow(ByteOf(s), 8 - r)
  {
    var high, low := s[..r], s[r..];
    assert s == high + low;
    ValueJoins(high, low);
    ValueShifted(high, 8 - r);
    ModUnique(Value(s), Pow2(8 - r), Value(high), Value(low));
  }

  /** Dropping bits off the end leaves the bytes those bits would have been stored as. */
  lemma {:induction false} BytesCut(bits: Bits, n: nat)
    requires n <= |bits|
    ensures (n + 7) / 8 <= |Bytes(bits)|
    ensures n % 8 == 0 ==> Bytes(bits[..n]) == Bytes(bits)[..n / 8]
    ensures n % 8 != 0 ==> Bytes(bits[..n]) == Bytes(bits)[..n / 8] + [ClearLow(Bytes(bits)[n / 8], 8 - n % 8)]
  {
    hide ByteOf, ClearLow, Pow2, Filled;
    var cut, last := bits[..n], n / 8;
    forall i | 0 <= i < last ensures Bytes(cut)[i] == Bytes(bits)[i] { FilledCut(bits, n, i); }
    if n % 8 != 0 {
      FilledCut(bits, n, last);
      CutByte(Filled(bits)[8 * last..8 * last + 8], n % 8);
      assert Bytes(cut)[last] == ClearLow(Bytes(bits)[last], 8 - n % 8);
    }
  }

  /** Cut bits filled out: the bytes before the cut as they were, the cut byte's tail zeroed. */
  lemma {:induction false} FilledCut(bits: Bits, n: nat, i: nat)
    requires n <= |bits| && 8 * i < n
    ensures 8 * i + 8 <= |Filled(bits[..n])| && 8 * i + 8 <= |Filled(bits)|
    ensures i < n / 8 ==> Filled(bits[..n])[8 * i..8 * i + 8] == Filled(bits)[8 * i..8 * i + 8]
    ensures i == n / 8 ==>
      Filled(bits[..n])[8 * i..8 * i + 8] == Filled(bits)[8 * i..8 * i + 8][..n % 8] + Repeat(false, 8 - n % 8)
  {
    if i < n / 8 {
      assert Filled(bits[..n])[8 * i..8 * i + 8] == bits[8 * i..8 * i + 8];
      assert Filled(bits)[8 * i..8 * i + 8] == bits[8 * i..8 * i + 8];
    } else {
      assert (n + 7) / 8 == i + 1;
      assert Filled(bits[..n]) == bits[..n] + Repeat(false, 8 - n % 8);
      assert Filled(bits)[8 * i..8 * i + 8][..n % 8] == bits[8 * i..n];
    }
  }

  /** The bit a packed byte holds is the bit that was stored. */
  lemma {:induction false} BitAtReads(bits: Bits, i: nat)
    requires i < |bits|
    ensures BitAt(Pack(bits), i) == bits[i] && BitAt(Bytes(bits), i) == bits[i]
  {
    hide ByteOf;
    var at, k := i / 8, i % 8;
    ByteBit(Padded(bits)[8 * at..8 * at + 8], k);
    ByteBit(Filled(bits)[8 * at..8 * at + 8], k);
    assert Padded(bits)[8 * at..8 * at + 8][k] == bits[i] && Filled(bits)[8 * at..8 * at + 8][k] == bits[i];
  }

  /** The first `n` bits of some bytes. */
  function ReadBits(data: seq<byte>, n: nat): (r: Bits)
    ensures |r| == n
  {
    seq(n, i requires 0 <= i < n => BitAt(data, i))
  }

  lemma {:induction false} ReadBitsBack(bits: Bits)
    ensures ReadBits(Bytes(bits), |bits|) == bits && ReadBits(Pack(bits), |bits|) == bits
  {
    hide BitAt, Bytes, Pack;
    forall i | 0 <= i < |bits| ensures BitAt(Bytes(bits), i) == bits[i] && BitAt(Pack(bits), i) == bits[i] {
      BitAtReads(bits, i);
    }
  }

  // ---------------------------------------------------------------- numbers

  /** Whether `x` fits `n` bits of two's complement. */
  predicate FitsSigned(x: int, n: nat) {
    if n == 0 then x == 0 else -(Pow2(n - 1) as int) <= x < Pow2(n - 1)
  }

  function Unsigned(x: int, n: nat): nat
    requires FitsSigned(x, n)
  {
    if x < 0 then x + Pow2(n) else x
  }

  function SignExtend(raw: nat, n: nat): int { if n > 0 && raw >= Pow2(n - 1) then raw - Pow2(n) else raw }

  lemma {:induction false} SignReadsBack(x: int, n: nat)
    requires FitsSigned(x, n)
    ensures Unsigned(x, n) < Pow2(n) && SignExtend(Unsigned(x, n), n) == x
  {}

  /** The least byte count that holds `x`, none for zero. */
  function ByteLen(x: nat): (r: nat)
    ensures x < Pow256(r) && (r > 0 ==> Pow256(r - 1) <= x)
  {
    if x == 0 then 0 else 1 + ByteLen(x / 256)
  }

  lemma {:induction false} BytesAreBits(n: nat)
    ensures Pow256(n) == Pow2(8 * n)
  {
    if n > 0 {
      BytesAreBits(n - 1);
      Pow2Add(8 * (n - 1), 8);
      assert Pow2(8) == 256;
    }
  }

  /** How wide the length of a variable integer of at most `max - 1` bytes is. */
  function LengthBits(max: nat): nat
    requires max >= 2
  {
    BitLength(max - 1)
  }

  /** A variable integer: how many bytes, then the bytes. */
  function VarUint(x: nat, max: nat): Bits
    requires max >= 2
  {
    ToBits(ByteLen(x), LengthBits(max)) + ToBits(x, 8 * ByteLen(x))
  }

  /** Whatever byte count holds the number is at least the one written; a reader also takes longer ones. */
  lemma {:induction false} VarUintIsMinimal(x: nat, n: nat)
    requires x < Pow2(8 * n)
    ensures ByteLen(x) <= n
  {
    BytesAreBits(n);
    if ByteLen(x) > n {
      Pow256Monotone(n, ByteLen(x) - 1);
    }
  }

  lemma {:induction false} Pow256Monotone(a: nat, b: nat)
    requires a <= b
    ensures Pow256(a) <= Pow256(b)
    decreases b - a
  {
    if a < b { Pow256Monotone(a + 1, b); }
  }

  lemma {:induction false} VarUintFits(x: nat, max: nat)
    requires max >= 2 && ByteLen(x) < max
    ensures ByteLen(x) < Pow2(LengthBits(max)) && x < Pow2(8 * ByteLen(x))
  {
    BytesAreBits(ByteLen(x));
    BitLengthMonotone(ByteLen(x), max - 1);
    Pow2Monotone(BitLength(ByteLen(x)), LengthBits(max));
  }

  /** What a signed number's width is measured on: itself, or a negative's complement. */
  function Magnitude(x: int): nat { if x < 0 then -x - 1 else x }

  /** The least byte count whose signed range holds `x`. */
  function SignedByteLen(x: int): nat { if x == 0 then 0 else (BitLength(Magnitude(x)) + 8) / 8 }

  lemma {:induction false} SignedFits(x: int, n: nat)
    requires n > 0
    ensures FitsSigned(x, n) <==> BitLength(Magnitude(x)) < n
  {
    var m := Magnitude(x);
    assert FitsSigned(x, n) <==> m < Pow2(n - 1);
    if BitLength(m) < n {
      Pow2Monotone(BitLength(m), n - 1);
    } else {
      Pow2Monotone(n - 1, BitLength(m) - 1);
    }
  }

  /** A byte count holds a signed number exactly when it is at least the count the number takes. */
  lemma {:induction false} SignedByteLenIsLeast(x: int, n: nat)
    ensures FitsSigned(x, 8 * n) <==> SignedByteLen(x) <= n
  {
    hide FitsSigned;
    assert BitLength(0) == 0;
    if n > 0 { SignedFits(x, 8 * n); } else { ZeroWidth(x); }
  }

  lemma {:induction false} ZeroWidth(x: int)
    ensures FitsSigned(x, 0) <==> x == 0
  {}

  /** A signed variable integer: how many bytes, then the bytes in two's complement. */
  function VarInt(x: int, max: nat): Bits
    requires max >= 2
  {
    SignedByteLenIsLeast(x, SignedByteLen(x));
    ToBits(SignedByteLen(x), LengthBits(max)) + ToBits(Unsigned(x, 8 * SignedByteLen(x)), 8 * SignedByteLen(x))
  }

  lemma {:induction false} LengthFits(count: nat, max: nat)
    requires max >= 2 && count < max
    ensures count < Pow2(LengthBits(max))
  {
    BitLengthMonotone(count, max - 1);
    Pow2Monotone(BitLength(count), LengthBits(max));
  }

  // ---------------------------------------------------------------- the builder

  lemma {:induction false} ShiftAgain(value: nat, k: nat)
    ensures value / Pow2(k) / 2 == value / Pow2(k + 1)
  {
    var p := Pow2(k);
    var q := value / p;
    var r, h, b := value % p, q / 2, q % 2;
    assert q * p + r == value by { assert value == value / p * p + value % p; }
    Regroup2(h, b, p);
    LessThanDouble(b, p, r);
    ModUnique(value, 2 * p, h, b * p + r);
  }

  lemma {:induction false} Regroup2(h: nat, b: nat, p: nat)
    ensures (2 * h + b) * p == h * (2 * p) + b * p
  {}

  lemma {:induction false} LessThanDouble(b: nat, p: nat, r: nat)
    requires b <= 1 && r < p
    ensures b * p + r < 2 * p
  {}

  lemma {:induction false} ShiftOne(x: nat)
    ensures x / Pow2(0) == x
  {}

  lemma {:induction false} NoBits(x: nat)
    ensures ToBits(x, 0) == []
  {}

  lemma {:induction false} BitsOn(x: nat, width: nat)
    ensures ToBits(x, width + 1) == ToBits(x / 2, width) + [x % 2 == 1]
  {}

  class Builder {
    var data: seq<byte>
    var bits: nat
    var refs: seq<Cell>
    ghost var held: Bits

    ghost predicate Valid()
      reads this
    {
      bits == |held| <= MAX_BITS && data == Bytes(held) && |refs| <= MAX_REFS
    }

    constructor ()
      ensures Valid() && held == [] && refs == []
    {
      data, bits, refs, held := [], 0, [], [];
    }

    method StoreBit(bit: bool) returns (r: Result<()>)
      requires Valid()
      modifies this
      ensures Valid() && refs == old(refs) && (r.Ok? <==> |old(held)| < MAX_BITS)
      ensures held == if r.Ok? then old(held) + [bit] else old(held)
    {
      hide Bytes, SetBit;
      if bits == MAX_BITS { return Err(NoRoomForBits); }
      BytesGrow(held, bit);
      if bits % 8 == 0 { data := data + [0]; }
      if bit {
        var last := |data| - 1;
        data := data[last := SetBit(data[last], 7 - bits % 8)];
      }
      bits := bits + 1;
      held := held + [bit];
      return Ok(());
    }

    /** The bits of a number, highest first; anything that does not fit stores nothing. */
    method StoreNumber(value: nat, n: nat, width: nat) returns (r: Result<()>)
      requires Valid()
      modifies this
      ensures Valid() && refs == old(refs)
      ensures r.Ok? <==> n <= width && value < Pow2(n) && |old(held)| + n <= MAX_BITS
      ensures held == if r.Ok? then old(held) + ToBits(value, n) else old(held)
    {
      hide Bytes, Pow2, ToBits;
      if n > width { return Err(TooWide); }
      if value >= Pow2(n) { return Err(Malformed); }
      if bits + n > MAX_BITS { return Err(NoRoomForBits); }
      var offset: nat := n;
      NoBits(value / Pow2(n));
      while offset > 0
        invariant Valid() && refs == old(refs) && offset <= n
        invariant held == old(held) + ToBits(value / Pow2(offset), n - offset)
      {
        offset := offset - 1;
        ShiftAgain(value, offset);
        BitsOn(value / Pow2(offset), n - offset - 1);
        var stored := StoreBit(value / Pow2(offset) % 2 == 1);
      }
      ShiftOne(value);
      return Ok(());
    }

    method StoreUint(value: nat, n: nat) returns (r: Result<()>)
      requires Valid() && value <= 0xffff_ffff_ffff_ffff
      modifies this
      ensures Valid() && refs == old(refs)
      ensures r.Ok? <==> n <= U64 && value < Pow2(n) && |old(held)| + n <= MAX_BITS
      ensures held == if r.Ok? then old(held) + ToBits(value, n) else old(held)
    {
      r := StoreNumber(value, n, U64);
    }

    /** A signed number in two's complement. */
    method StoreInt(value: int, n: nat) returns (r: Result<()>)
      requires Valid() && -0x8000_0000_0000_0000 <= value < 0x8000_0000_0000_0000
      modifies this
      ensures Valid() && refs == old(refs)
      ensures r.Ok? <==> n <= U64 && FitsSigned(value, n) && |old(held)| + n <= MAX_BITS
      ensures held == if r.Ok? then old(held) + ToBits(Unsigned(value, n), n) else old(held)
    {
      hide ToBits, Bytes;
      if n > U64 { return Err(TooWide); }
      if !FitsSigned(value, n) { return Err(Malformed); }
      SignReadsBack(value, n);
      r := StoreNumber(Unsigned(value, n), n, U64);
    }

    /** A variable integer. Room for the length and the value is checked at once, so neither is stored alone. */
    method StoreVarUint(value: nat, max: nat) returns (r: Result<()>)
      requires Valid() && value < Pow2(U128)
      modifies this
      ensures Valid() && refs == old(refs)
      ensures max < 2 ==> r.Err?
      ensures max >= 2 ==>
        (r.Ok? <==>
          && ByteLen(value) < max && LengthBits(max) <= U64
          && |old(held)| + LengthBits(max) + 8 * ByteLen(value) <= MAX_BITS)
      ensures r.Err? ==> held == old(held)
      ensures r.Ok? ==> held == old(held) + VarUint(value, max)
    {
      hide ToBits, Bytes, Pow2, ByteLen, BitLength;
      if max < 2 { return Err(Malformed); }
      var lengthBits, count := LengthBits(max), ByteLen(value);
      if count >= max { return Err(Malformed); }
      if lengthBits > U64 { return Err(TooWide); }
      if bits + lengthBits + 8 * count > MAX_BITS { return Err(NoRoomForBits); }
      VarUintFits(value, max);
      SixteenBytes(value);
      r := StoreNumber(count, lengthBits, U64);
      r := StoreNumber(value, 8 * count, U128);
    }

    /** Stores `VarInt`: length and value, both or neither. */
    method StoreVarInt(value: int, max: nat) returns (r: Result<()>)
      requires Valid() && FitsSigned(value, U128)
      modifies this
      ensures Valid() && refs == old(refs)
      ensures max < 2 ==> r.Err?
      ensures max >= 2 ==>
        (r.Ok? <==>
          && SignedByteLen(value) < max && LengthBits(max) <= U64
          && |old(held)| + LengthBits(max) + 8 * SignedByteLen(value) <= MAX_BITS)
      ensures r.Err? ==> held == old(held)
      ensures r.Ok? ==> held == old(held) + VarInt(value, max)
    {
      hide ToBits, Bytes, Pow2, SignedByteLen, BitLength, FitsSigned;
      if max < 2 { return Err(Malformed); }
      var lengthBits, count := LengthBits(max), SignedByteLen(value);
      if count >= max { return Err(Malformed); }
      if lengthBits > U64 { return Err(TooWide); }
      if bits + lengthBits + 8 * count > MAX_BITS { return Err(NoRoomForBits); }
      LengthFits(count, max);
      SignedByteLenIsLeast(value, count);
      SignedByteLenIsLeast(value, 16);
      SignReadsBack(value, 8 * count);
      r := StoreNumber(count, lengthBits, U64);
      r := StoreNumber(Unsigned(value, 8 * count), 8 * count, U128);
    }

    /** Appends all of `run`, or nothing. */
    method StoreBits(run: Bits) returns (r: Result<()>)
      requires Valid()
      modifies this
      ensures Valid() && refs == old(refs) && (r.Ok? <==> |old(held)| + |run| <= MAX_BITS)
      ensures held == if r.Ok? then old(held) + run else old(held)
    {
      hide Bytes;
      if bits + |run| > MAX_BITS { return Err(NoRoomForBits); }
      for i := 0 to |run|
        invariant Valid() && refs == old(refs) && held == old(held) + run[..i]
      {
        var stored := StoreBit(run[i]);
        assert run[..i + 1] == run[..i] + [run[i]];
      }
      assert run[..|run|] == run;
      return Ok(());
    }

    method StoreRef(cell: Cell) returns (r: Result<()>)
      requires Valid()
      modifies this
      ensures Valid() && held == old(held) && (r.Ok? <==> |old(refs)| < MAX_REFS)
      ensures refs == if r.Ok? then old(refs) + [cell] else old(refs)
    {
      if |refs| >= MAX_REFS { return Err(NoRoomForRefs); }
      refs := refs + [cell];
      return Ok(());
    }

    /** Drops bits off the end, clearing what is left of a cut byte so that later bits land on zeros. */
    method TruncateBits(n: nat) returns (r: Result<()>)
      requires Valid()
      modifies this
      ensures Valid() && refs == old(refs) && (r.Ok? <==> n <= |old(held)|)
      ensures held == if r.Ok? then old(held)[..n] else old(held)
    {
      hide Bytes, ClearLow;
      if n > bits { return Err(NotEnoughBits); }
      BytesCut(held, n);
      bits := n;
      data := data[..(n + 7) / 8];
      if n % 8 != 0 {
        var last := |data| - 1;
        data := data[last := ClearLow(data[last], 8 - n % 8)];
      }
      held := held[..n];
      return Ok(());
    }

    /** Finishes the cell: its data is the held bits, marked where they end. */
    method Finish() returns (cell: Result<Cell>, bytes: seq<byte>)
      requires Valid()
      ensures cell == Cells.Build(Payload(held, refs)) && cell.Ok? && bytes == Pack(held)
    {
      hide Bytes, SetBit, Pack;
      bytes := data;
      ReadBitsBack(held);
      MarkCompletes(held);
      if bits % 8 != 0 {
        var last := |bytes| - 1;
        bytes := bytes[last := SetBit(bytes[last], 7 - bits % 8)];
      }
      cell := Cells.Build(Payload(ReadBits(data, bits), refs));
    }
  }

  lemma {:induction false} SixteenBytes(value: nat)
    requires value < Pow2(U128)
    ensures ByteLen(value) <= 16
  {
    VarUintIsMinimal(value, 16);
  }

  // ---------------------------------------------------------------- the slice

  /** A variable integer stands at the front: its length is there, and the bytes the length names. */
  predicate VarAhead(s: Bits, max: nat) {
    && max >= 2 && LengthBits(max) <= U64 && LengthBits(max) <= |s|
    && 8 * Value(s[..LengthBits(max)]) <= U128 && LengthBits(max) + 8 * Value(s[..LengthBits(max)]) <= |s|
  }

  function VarWidth(s: Bits, max: nat): (r: nat)
    requires VarAhead(s, max)
    ensures LengthBits(max) + r <= |s|
  {
    8 * Value(s[..LengthBits(max)])
  }

  lemma {:induction false} VarRawFits(s: Bits, max: nat)
    requires VarAhead(s, max)
    ensures VarWidth(s, max) <= 128 && VarRaw(s, max) < Pow2(VarWidth(s, max)) <= Pow2(128)
  {
    hide Value, Pow2;
    Pow2Monotone(VarWidth(s, max), 128);
  }

  function VarRaw(s: Bits, max: nat): nat
    requires VarAhead(s, max)
  {
    Value(s[LengthBits(max)..LengthBits(max) + VarWidth(s, max)])
  }

  class Slice {
    const cell: Cell
    const endBit: nat
    const endRef: nat
    var bit: nat
    var nextRef: nat

    ghost predicate Valid()
      reads this
    {
      bit <= endBit <= |cell.bits| && nextRef <= endRef <= |cell.refs|
    }

    /** What is left to read. */
    ghost function Left(): Payload
      requires Valid()
      reads this
    {
      Payload(cell.bits[bit..endBit], cell.refs[nextRef..endRef])
    }

    constructor (cell: Cell)
      ensures Valid() && this.cell == cell && Left() == Payload(cell.bits, cell.refs)
    {
      this.cell := cell;
      bit, nextRef, endBit, endRef := 0, 0, |cell.bits|, |cell.refs|;
    }

    constructor Window(cell: Cell, bit: nat, endBit: nat, nextRef: nat, endRef: nat)
      requires bit <= endBit <= |cell.bits| && nextRef <= endRef <= |cell.refs|
      ensures Valid() && this.cell == cell && Left() == Payload(cell.bits[bit..endBit], cell.refs[nextRef..endRef])
    {
      this.cell, this.bit, this.endBit, this.nextRef, this.endRef := cell, bit, endBit, nextRef, endRef;
    }

    method LoadBit() returns (r: Result<bool>)
      requires Valid()
      modifies this
      ensures Valid() && (r.Ok? <==> |old(Left()).bits| > 0)
      ensures r.Ok? ==> old(Left()).bits == [r.value] + Left().bits && Left().refs == old(Left()).refs
      ensures r.Err? ==> Left() == old(Left())
    {
      hide BitAt, Pack;
      if bit == endBit { return Err(NotEnoughBits); }
      BitAtReads(cell.bits, bit);
      var b := BitAt(Pack(cell.bits), bit);
      bit := bit + 1;
      return Ok(b);
    }

    /** The next `n` bits as a number, or nothing moved. */
    method LoadNumber(n: nat, width: nat) returns (r: Result<nat>)
      requires Valid()
      modifies this
      ensures Valid() && (r.Ok? <==> n <= width && n <= |old(Left()).bits|)
      ensures r.Ok? ==>
        r.value == Value(old(Left()).bits[..n]) && Left() == Payload(old(Left()).bits[n..], old(Left()).refs)
      ensures r.Err? ==> Left() == old(Left())
    {
      hide BitAt, Pack;
      if n > width { return Err(TooWide); }
      if n > endBit - bit { return Err(NotEnoughBits); }
      var start := bit;
      ghost var run := cell.bits[start..start + n];
      bit := bit + n;
      var value := 0;
      for i := 0 to n
        invariant bit == start + n && nextRef == old(nextRef) && value == Value(run[..i])
      {
        BitAtReads(cell.bits, start + i);
        assert run[..i + 1][..i] == run[..i];
        value := 2 * value + Bit(BitAt(Pack(cell.bits), start + i));
      }
      assert run[..n] == run && old(Left()).bits[..n] == run;
      return Ok(value);
    }

    /** Decides `VarAhead`; on any failure the position is where it began. */
    method ReadVar(max: nat) returns (r: Result<(nat, nat)>)
      requires Valid()
      modifies this
      ensures Valid() && (r.Err? ==> Left() == old(Left())) && (r.Ok? <==> VarAhead(old(Left()).bits, max))
      ensures r.Ok? ==>
        && r.value == (VarRaw(old(Left()).bits, max), VarWidth(old(Left()).bits, max))
        && Left() == Payload(old(Left()).bits[LengthBits(max) + VarWidth(old(Left()).bits, max)..], old(Left()).refs)
    {
      hide BitLength, Value;
      if max < 2 { return Err(Malformed); }
      var start, w := bit, LengthBits(max);
      ghost var s := Left().bits;
      var length := LoadNumber(w, U64);
      if length.Err? { return Err(length.error); }
      assert Left().bits == s[w..];
      var n := 8 * length.value;
      var raw := LoadNumber(n, U128);
      if raw.Err? {
        bit := start;
        return Err(raw.error);
      }
      assert s[w..][..n] == s[w..w + n] && s[w..][n..] == s[w + n..];
      return Ok((raw.value, n));
    }

    method LoadVarUint(max: nat) returns (r: Result<nat>)
      requires Valid()
      modifies this
      ensures Valid() && (r.Err? ==> Left() == old(Left())) && (r.Ok? <==> VarAhead(old(Left()).bits, max))
      ensures r.Ok? ==>
        && r.value == VarRaw(old(Left()).bits, max) && r.value < Pow2(128)
        && Left() == Payload(old(Left()).bits[LengthBits(max) + VarWidth(old(Left()).bits, max)..], old(Left()).refs)
    {
      hide VarAhead, VarRaw, VarWidth, Pow2;
      ghost var s := Left().bits;
      var read := ReadVar(max);
      if read.Ok? { VarRawFits(s, max); }
      return if read.Err? then Err(read.error) else Ok(read.value.0);
    }

    /** Reads back what `StoreVarInt` stored; any length it meets is taken. */
    method LoadVarInt(max: nat) returns (r: Result<int>)
      requires Valid()
      modifies this
      ensures Valid() && (r.Err? ==> Left() == old(Left())) && (r.Ok? <==> VarAhead(old(Left()).bits, max))
      ensures r.Ok? ==>
        && r.value == SignExtend(VarRaw(old(Left()).bits, max), VarWidth(old(Left()).bits, max))
        && VarWidth(old(Left()).bits, max) <= 128
        && Left() == Payload(old(Left()).bits[LengthBits(max) + VarWidth(old(Left()).bits, max)..], old(Left()).refs)
    {
      hide VarAhead, VarRaw, VarWidth;
      ghost var s := Left().bits;
      var read := ReadVar(max);
      if read.Ok? { VarRawFits(s, max); }
      return if read.Err? then Err(read.error) else Ok(SignExtend(read.value.0, read.value.1));
    }

    /** The next `n` bits as they were stored, or nothing moved. */
    method LoadBits(n: nat) returns (r: Result<Bits>)
      requires Valid()
      modifies this
      ensures Valid() && (r.Ok? <==> n <= |old(Left()).bits|)
      ensures r.Ok? ==> r.value == old(Left()).bits[..n] && Left() == Payload(old(Left()).bits[n..], old(Left()).refs)
      ensures r.Err? ==> Left() == old(Left())
    {
      hide BitAt, Pack;
      if n > endBit - bit { return Err(NotEnoughBits); }
      var start, run := bit, [];
      bit := bit + n;
      for i := 0 to n
        invariant bit == start + n && nextRef == old(nextRef) && run == cell.bits[start..start + i]
      {
        BitAtReads(cell.bits, start + i);
        run := run + [BitAt(Pack(cell.bits), start + i)];
      }
      assert old(Left()).bits[..n] == run;
      return Ok(run);
    }

    /** The next `n` bits as a signed number. */
    method LoadInt(n: nat) returns (r: Result<int>)
      requires Valid()
      modifies this
      ensures Valid() && (r.Ok? <==> n <= U64 && n <= |old(Left()).bits|)
      ensures r.Ok? ==>
        r.value == SignExtend(Value(old(Left()).bits[..n]), n)
        && Left() == Payload(old(Left()).bits[n..], old(Left()).refs)
      ensures r.Err? ==> Left() == old(Left())
    {
      var raw := LoadNumber(n, U64);
      return if raw.Err? then Err(raw.error) else Ok(SignExtend(raw.value, n));
    }

    /** A cursor over the next `n` bits and `m` references alone, and this one past them. */
    method LoadSlice(n: nat, m: nat) returns (r: Result<Slice>)
      requires Valid()
      modifies this
      ensures Valid() && (r.Ok? <==> n <= |old(Left()).bits| && m <= |old(Left()).refs|)
      ensures r.Ok? ==>
        && fresh(r.value) && r.value.Valid()
        && r.value.Left() == Payload(old(Left()).bits[..n], old(Left()).refs[..m])
        && Left() == Payload(old(Left()).bits[n..], old(Left()).refs[m..])
      ensures r.Err? ==> Left() == old(Left())
    {
      if n > endBit - bit { return Err(NotEnoughBits); }
      if m > endRef - nextRef { return Err(NotEnoughRefs); }
      var window := new Slice.Window(cell, bit, bit + n, nextRef, nextRef + m);
      assert Left().bits[..n] == cell.bits[bit..bit + n] && Left().refs[..m] == cell.refs[nextRef..nextRef + m];
      bit, nextRef := bit + n, nextRef + m;
      return Ok(window);
    }

    method LoadRef() returns (r: Result<Cell>)
      requires Valid()
      modifies this
      ensures Valid() && (r.Ok? <==> |old(Left()).refs| > 0)
      ensures r.Ok? ==> old(Left()).refs == [r.value] + Left().refs && Left().bits == old(Left()).bits
      ensures r.Err? ==> Left() == old(Left())
    {
      if nextRef >= endRef { return Err(NotEnoughRefs); }
      var c := cell.refs[nextRef];
      nextRef := nextRef + 1;
      return Ok(c);
    }
  }

  /** What a variable integer is stored as is read as that integer, whatever follows. */
  lemma {:induction false} VarUintReadsBack(x: nat, max: nat, rest: Bits)
    requires max >= 2 && LengthBits(max) <= U64 && ByteLen(x) < max && x < Pow2(U128)
    ensures var s := VarUint(x, max) + rest;
      VarAhead(s, max) && VarRaw(s, max) == x && s[LengthBits(max) + VarWidth(s, max)..] == rest
  {
    hide ToBits, Value, ByteLen, BitLength;
    var w, count := LengthBits(max), ByteLen(x);
    var s := VarUint(x, max) + rest;
    VarUintFits(x, max);
    SixteenBytes(x);
    ValueOfBits(count, w);
    ValueOfBits(x, 8 * count);
    assert s[..w] == ToBits(count, w) && s[w..w + 8 * count] == ToBits(x, 8 * count);
  }

  /** What a signed variable integer is stored as is read as that integer, whatever follows. */
  lemma {:induction false} VarIntReadsBack(x: int, max: nat, rest: Bits)
    requires max >= 2 && LengthBits(max) <= U64 && SignedByteLen(x) < max && FitsSigned(x, U128)
    ensures var s := VarInt(x, max) + rest;
      && VarAhead(s, max) && SignExtend(VarRaw(s, max), VarWidth(s, max)) == x
      && s[LengthBits(max) + VarWidth(s, max)..] == rest
  {
    hide ToBits, Value, BitLength, FitsSigned, SignExtend, SignedByteLen;
    var w, count := LengthBits(max), SignedByteLen(x);
    SignedByteLenIsLeast(x, count);
    SignedByteLenIsLeast(x, 16);
    SignReadsBack(x, 8 * count);
    LengthFits(count, max);
    ValueOfBits(count, w);
    ValueOfBits(Unsigned(x, 8 * count), 8 * count);
    var s := VarInt(x, max) + rest;
    assert s[..w] == ToBits(count, w) && s[w..w + 8 * count] == ToBits(Unsigned(x, 8 * count), 8 * count);
  }

  lemma {:induction false} UintReadsBack(x: nat, n: nat, rest: Bits)
    requires x < Pow2(n)
    ensures var s := ToBits(x, n) + rest; Value(s[..n]) == x && s[n..] == rest
  {
    hide ToBits, Value;
    ValueOfBits(x, n);
    assert (ToBits(x, n) + rest)[..n] == ToBits(x, n);
  }

  lemma {:induction false} IntReadsBack(x: int, n: nat, rest: Bits)
    requires FitsSigned(x, n)
    ensures var s := ToBits(Unsigned(x, n), n) + rest; SignExtend(Value(s[..n]), n) == x && s[n..] == rest
  {
    hide ToBits, Value, SignExtend;
    SignReadsBack(x, n);
    UintReadsBack(Unsigned(x, n), n, rest);
  }

  // ---------------------------------------------------------------- any fields, stored and loaded

  /** Something a builder stores and a slice loads back. */
  datatype Field =
    | Uint(value: nat, width: nat) | Int(number: int, width: nat) | Run(run: Bits)
    | VarUintField(value: nat, max: nat) | VarIntField(number: int, max: nat) | Ref(cell: Cell)

  /** Within the machine word its store takes. */
  predicate InWord(f: Field) {
    match f
    case Uint(value, _) => value <= 0xffff_ffff_ffff_ffff
    case Int(number, _) => -0x8000_0000_0000_0000 <= number < 0x8000_0000_0000_0000
    case VarUintField(value, _) => value < Pow2(U128)
    case VarIntField(number, _) => FitsSigned(number, U128)
    case _ => true
  }

  /** Whether a field has a spelling at all, room aside. */
  predicate Spellable(f: Field) {
    match f
    case Uint(value, width) => width <= U64 && value < Pow2(width)
    case Int(number, width) => width <= U64 && FitsSigned(number, width)
    case VarUintField(value, max) => max >= 2 && LengthBits(max) <= U64 && ByteLen(value) < max && value < Pow2(U128)
    case VarIntField(number, max) =>
      max >= 2 && LengthBits(max) <= U64 && FitsSigned(number, U128) && SignedByteLen(number) < max
    case _ => true
  }

  ghost function Spelled(f: Field): Payload
    requires Spellable(f)
  {
    match f
    case Uint(value, width) => Payload(ToBits(value, width), [])
    case Int(number, width) => Payload(ToBits(Unsigned(number, width), width), [])
    case Run(run) => Payload(run, [])
    case VarUintField(value, max) => Payload(VarUint(value, max), [])
    case VarIntField(number, max) => Payload(VarInt(number, max), [])
    case Ref(cell) => Payload([], [cell])
  }

  /** Stores a field, whole or not at all: it is refused exactly when it has no spelling or no room. */
  method StoreField(b: Builder, f: Field) returns (r: Result<()>)
    requires b.Valid() && InWord(f)
    modifies b
    ensures b.Valid()
    ensures r.Ok? ==> Spellable(f) && b.held == old(b.held) + Spelled(f).bits && b.refs == old(b.refs) + Spelled(f).refs
    ensures r.Err? ==> b.held == old(b.held) && b.refs == old(b.refs)
    ensures r.Err? ==> Spellable(f) ==>
      |old(b.held)| + |Spelled(f).bits| > MAX_BITS || |old(b.refs)| + |Spelled(f).refs| > MAX_REFS
  {
    hide ToBits, FitsSigned, SignedByteLen, ByteLen, Pow2, BitLength, Bytes;
    match f
    case Uint(value, width) => r := b.StoreUint(value, width);
    case Int(number, width) => r := b.StoreInt(number, width);
    case Run(run) => r := b.StoreBits(run);
    case VarUintField(value, max) => r := b.StoreVarUint(value, max);
    case VarIntField(number, max) => r := b.StoreVarInt(number, max);
    case Ref(cell) => r := b.StoreRef(cell);
  }

  /** Loads a field of the kind and width of `like`; of its value nothing is used. */
  method LoadField(s: Slice, like: Field, ghost rest: Payload) returns (r: Result<Field>)
    requires s.Valid()
    modifies s
    ensures s.Valid()
    ensures Spellable(like) && old(s.Left()) == Follow(like, rest) ==> r == Ok(like) && s.Left() == rest
  {
    hide ToBits, FitsSigned, SignedByteLen, ByteLen, SignExtend, Value, VarAhead, VarRaw, VarWidth, VarUint, VarInt;
    match like
    case Uint(_, width) =>
      FieldReadsBack(like, rest);
      var x := s.LoadNumber(width, U64);
      r := if x.Ok? then Ok(Uint(x.value, width)) else Err(x.error);
    case Int(_, width) =>
      FieldReadsBack(like, rest);
      var x := s.LoadInt(width);
      r := if x.Ok? then Ok(Int(x.value, width)) else Err(x.error);
    case Run(run) =>
      FieldReadsBack(like, rest);
      var x := s.LoadBits(|run|);
      r := if x.Ok? then Ok(Run(x.value)) else Err(x.error);
    case VarUintField(_, max) =>
      FieldReadsBack(like, rest);
      var x := s.LoadVarUint(max);
      r := if x.Ok? then Ok(VarUintField(x.value, max)) else Err(x.error);
    case VarIntField(_, max) =>
      FieldReadsBack(like, rest);
      var x := s.LoadVarInt(max);
      r := if x.Ok? then Ok(VarIntField(x.value, max)) else Err(x.error);
    case Ref(_) =>
      FieldReadsBack(like, rest);
      var x := s.LoadRef();
      r := if x.Ok? then Ok(Ref(x.value)) else Err(x.error);
  }

  /** A field and what comes after it. */
  ghost function Follow(f: Field, rest: Payload): Payload
    requires Spellable(f)
  {
    Payload(Spelled(f).bits + rest.bits, Spelled(f).refs + rest.refs)
  }

  /** What each load finds at the front of a field's spelling. */
  lemma {:induction false} FieldReadsBack(f: Field, rest: Payload)
    ensures Spellable(f) ==>
      var s := Follow(f, rest);
      match f
      case Uint(value, n) => Value(s.bits[..n]) == value && s.bits[n..] == rest.bits && s.refs == rest.refs
      case Int(number, n) => SignExtend(Value(s.bits[..n]), n) == number && s.bits[n..] == rest.bits
        && s.refs == rest.refs
      case Run(run) => s.bits[..|run|] == run && s.bits[|run|..] == rest.bits && s.refs == rest.refs
      case VarUintField(value, max) =>
        && VarAhead(s.bits, max) && VarRaw(s.bits, max) == value
        && s.bits[LengthBits(max) + VarWidth(s.bits, max)..] == rest.bits && s.refs == rest.refs
      case VarIntField(number, max) =>
        && VarAhead(s.bits, max) && SignExtend(VarRaw(s.bits, max), VarWidth(s.bits, max)) == number
        && s.bits[LengthBits(max) + VarWidth(s.bits, max)..] == rest.bits && s.refs == rest.refs
      case Ref(cell) => s.bits == rest.bits && s.refs[0] == cell && s.refs[1..] == rest.refs
  {
    hide ToBits, FitsSigned, SignedByteLen, ByteLen, SignExtend, Value, VarAhead, VarRaw, VarWidth, VarUint, VarInt;
    if Spellable(f) {
      match f
      case Uint(value, n) => UintReadsBack(value, n, rest.bits);
      case Int(number, n) => IntReadsBack(number, n, rest.bits);
      case VarUintField(value, max) => VarUintReadsBack(value, max, rest.bits);
      case VarIntField(number, max) => VarIntReadsBack(number, max, rest.bits);
      case _ =>
    }
  }

  /** The fields one after another. */
  ghost function SpelledAll(fields: seq<Field>): Payload
    requires forall i :: 0 <= i < |fields| ==> Spellable(fields[i])
  {
    if fields == [] then Payload([], []) else Follow(fields[0], SpelledAll(fields[1..]))
  }

  lemma {:induction false} SpelledOneMore(fields: seq<Field>, f: Field)
    requires Spellable(f) && forall i :: 0 <= i < |fields| ==> Spellable(fields[i])
    ensures var all := SpelledAll(fields);
      SpelledAll(fields + [f]) == Payload(all.bits + Spelled(f).bits, all.refs + Spelled(f).refs)
  {
    hide Spelled, Spellable;
    if fields == [] {
      assert fields + [f] == [f] && [f][1..] == [];
    } else {
      assert (fields + [f])[1..] == fields[1..] + [f];
      SpelledOneMore(fields[1..], f);
    }
  }

  /** The fields cannot all be stored after what is held. */
  ghost predicate Refused(held: nat, refs: nat, fields: seq<Field>) {
    || (exists i :: 0 <= i < |fields| && !Spellable(fields[i]))
    || held + |SpelledAll(fields).bits| > MAX_BITS || refs + |SpelledAll(fields).refs| > MAX_REFS
  }

  lemma {:induction false} NoRoomForOne(held: nat, refs: nat, fields: seq<Field>, i: nat)
    requires i < |fields| && forall k :: 0 <= k < i ==> Spellable(fields[k])
    requires Spellable(fields[i]) ==>
      var all := SpelledAll(fields[..i]);
      || held + |all.bits| + |Spelled(fields[i]).bits| > MAX_BITS
      || refs + |all.refs| + |Spelled(fields[i]).refs| > MAX_REFS
    ensures Refused(held, refs, fields)
  {
    hide Spelled, Spellable, SpelledAll;
    if forall k :: 0 <= k < |fields| ==> Spellable(fields[k]) { SpelledWithin(fields, i); }
  }

  lemma {:induction false} NotRefused(held: nat, refs: nat, fields: seq<Field>)
    requires forall i :: 0 <= i < |fields| ==> Spellable(fields[i])
    requires held + |SpelledAll(fields).bits| <= MAX_BITS && refs + |SpelledAll(fields).refs| <= MAX_REFS
    ensures !Refused(held, refs, fields)
  {
    hide Spelled, Spellable, SpelledAll;
  }

  /** Stores fields one after another until one is refused. */
  method StoreAll(b: Builder, fields: seq<Field>) returns (r: Result<()>)
    requires b.Valid() && forall i :: 0 <= i < |fields| ==> InWord(fields[i])
    modifies b
    ensures b.Valid() && (r.Ok? ==> forall i :: 0 <= i < |fields| ==> Spellable(fields[i]))
    ensures r.Ok? ==> b.held == old(b.held) + SpelledAll(fields).bits && b.refs == old(b.refs) + SpelledAll(fields).refs
    ensures r.Err? <==> Refused(|old(b.held)|, |old(b.refs)|, fields)
  {
    hide Spelled, Spellable, InWord, SpelledAll, Refused;
    SpelledNone();
    for i := 0 to |fields|
      invariant b.Valid() && forall k :: 0 <= k < i ==> Spellable(fields[k])
      invariant b.held == old(b.held) + SpelledAll(fields[..i]).bits
        && b.refs == old(b.refs) + SpelledAll(fields[..i]).refs
    {
      var stored := StoreField(b, fields[i]);
      if stored.Err? {
        NoRoomForOne(|old(b.held)|, |old(b.refs)|, fields, i);
        return Err(stored.error);
      }
      SpelledOneMore(fields[..i], fields[i]);
      assert fields[..i] + [fields[i]] == fields[..i + 1];
    }
    assert fields[..|fields|] == fields;
    NotRefused(|old(b.held)|, |old(b.refs)|, fields);
    return Ok(());
  }

  /** Loads fields of these kinds and widths one after another. */
  method LoadAll(s: Slice, fields: seq<Field>) returns (r: Result<seq<Field>>)
    requires s.Valid()
    modifies s
    ensures s.Valid()
    ensures (forall i :: 0 <= i < |fields| ==> Spellable(fields[i])) && old(s.Left()) == SpelledAll(fields) ==>
      r == Ok(fields) && s.Left() == Payload([], [])
  {
    hide Spelled, Spellable, SpelledAll, Follow;
    ghost var due := (forall i :: 0 <= i < |fields| ==> Spellable(fields[i])) && s.Left() == SpelledAll(fields);
    var loaded: seq<Field> := [];
    assert fields[0..] == fields;
    SpelledNone();
    for i := 0 to |fields|
      invariant s.Valid() && (due ==> loaded == fields[..i] && s.Left() == SpelledAll(fields[i..]))
    {
      ghost var rest := if due then SpelledAll(fields[i + 1..]) else Payload([], []);
      if due {
        SpelledNext(fields[i..]);
        assert fields[i..][1..] == fields[i + 1..];
      }
      var next := LoadField(s, fields[i], rest);
      if next.Err? { return Err(next.error); }
      loaded := loaded + [next.value];
    }
    assert fields[|fields|..] == [] && fields[..|fields|] == fields;
    return Ok(loaded);
  }

  /**
    Whatever fields a builder takes after whatever it held, a slice of the finished cell, past
    what was held, loads those very fields in order. Only what has no spelling or no room is
    refused.
   */
  method StoreThenLoad(before: Bits, fields: seq<Field>) returns (r: Result<seq<Field>>)
    requires forall i :: 0 <= i < |fields| ==> InWord(fields[i])
    ensures r.Ok? ==> r.value == fields
    ensures r.Err? <==> |before| > MAX_BITS || Refused(|before|, 0, fields)
  {
    hide Spelled, Spellable, InWord, SpelledAll, Refused;
    var b := new Builder();
    var first := b.StoreBits(before);
    if first.Err? { return Err(first.error); }
    var stored := StoreAll(b, fields);
    if stored.Err? { return Err(stored.error); }
    var cell, _ := b.Finish();
    var s := new Slice(cell.value);
    var skipped := s.LoadBits(|before|);
    assert s.Left() == SpelledAll(fields);
    r := LoadAll(s, fields);
  }

  lemma {:induction false} SpelledNone()
    ensures SpelledAll([]) == Payload([], [])
  {}

  lemma {:induction false} SpelledNext(fields: seq<Field>)
    requires fields != [] && forall i :: 0 <= i < |fields| ==> Spellable(fields[i])
    ensures SpelledAll(fields) == Follow(fields[0], SpelledAll(fields[1..]))
  {}

  /** The front of some fields, with one more of them, is no longer than all of them. */
  lemma {:induction false} SpelledWithin(fields: seq<Field>, i: nat)
    requires i < |fields| && forall k :: 0 <= k < |fields| ==> Spellable(fields[k])
    ensures |SpelledAll(fields[..i]).bits| + |Spelled(fields[i]).bits| <= |SpelledAll(fields).bits|
    ensures |SpelledAll(fields[..i]).refs| + |Spelled(fields[i]).refs| <= |SpelledAll(fields).refs|
  {
    hide Spelled, Spellable;
    if i == 0 {
      assert fields[..0] == [];
    } else {
      assert fields[..i][1..] == fields[1..][..i - 1] && fields[..i][0] == fields[0];
      SpelledWithin(fields[1..], i - 1);
    }
  }
}

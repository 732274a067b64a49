module Packing {
  // Bits in bytes and back, and that a cell's data with its descriptor loses nothing.

  import opened Basics

  /** The bits with the completion mark: a set bit and zeros up to a whole byte, unless already whole. */
  function Padded(bits: Bits): (r: Bits)
    ensures |r| == 8 * ((|bits| + 7) / 8) && bits <= r
  {
    if |bits| % 8 == 0 then bits else bits + [true] + Repeat(false, 7 - |bits| % 8)
  }

  function ByteOf(s: Bits): byte
    requires |s| == 8
  {
    assert Pow2(8) == 256;
    Value(s)
  }

  /** The data bytes a run of bits is held as. */
  function Pack(bits: Bits): (r: seq<byte>)
    ensures |r| == (|bits| + 7) / 8
  {
    seq((|bits| + 7) / 8, i requires 0 <= i < (|bits| + 7) / 8 => ByteOf(Padded(bits)[8 * i..8 * i + 8]))
  }

  /** Eight bits a byte. */
  function Unpack(bytes: seq<byte>): (r: Bits)
    ensures |r| == 8 * |bytes|
  {
    seq(8 * |bytes|, k requires 0 <= k < 8 * |bytes| => ToBits(bytes[k / 8], 8)[k % 8])
  }

  lemma {:induction false} UnpackedByte(bytes: seq<byte>, i: nat)
    requires i < |bytes|
    ensures Unpack(bytes)[8 * i..8 * i + 8] == ToBits(bytes[i], 8)
  {
    forall k | 0 <= k < 8 ensures Unpack(bytes)[8 * i..8 * i + 8][k] == ToBits(bytes[i], 8)[k] {
      assert (8 * i + k) / 8 == i && (8 * i + k) % 8 == k;
    }
  }

  /** The second descriptor of a cell: `floor(b / 8) + ceil(b / 8)`. */
  function BitsDescriptor(bits: Bits): nat { |bits| / 8 + (|bits| + 7) / 8 }

  lemma {:induction false} ByteSpellsBack(x: byte)
    ensures ByteOf(ToBits(x, 8)) == x
  {
    assert Pow2(8) == 256;
    ValueOfBits(x, 8);
  }

  /** A bit of a byte, by shifting, is the bit it was spelled with. */
  lemma {:induction false} ByteBit(s: Bits, k: nat)
    requires |s| == 8 && k < 8
    ensures (ByteOf(s) / Pow2(7 - k) % 2 == 1) == s[k]
  {
    hide Value, Pow2;
    var high, low := s[..k + 1], s[k + 1..];
    assert s == high + low;
    ValueJoins(high, low);
    ModUnique(Value(s), Pow2(7 - k), Value(high), Value(low));
    LastBit(high);
  }

  lemma {:induction false} LastBit(s: Bits)
    requires s != []
    ensures (Value(s) % 2 == 1) == s[|s| - 1]
  {}

  lemma {:induction false} PackUnpack(bytes: seq<byte>)
    ensures Pack(Unpack(bytes)) == bytes
  {
    hide ToBits, ByteOf, Unpack;
    forall i | 0 <= i < |bytes| ensures Pack(Unpack(bytes))[i] == bytes[i] {
      UnpackedByte(bytes, i);
      ByteSpellsBack(bytes[i]);
    }
  }

  lemma {:induction false} SameByte(a: Bits, b: Bits)
    requires |a| == |b| == 8 && ByteOf(a) == ByteOf(b)
    ensures a == b
  {
    BitsOfValue(a);
    BitsOfValue(b);
  }

  lemma {:induction false} SamePadding(a: Bits, b: Bits)
    requires Pack(a) == Pack(b)
    ensures Padded(a) == Padded(b)
  {
    var p, q := Padded(a), Padded(b);
    assert |Pack(a)| == |Pack(b)|;
    forall k | 0 <= k < |p| ensures p[k] == q[k] {
      var i := k / 8;
      assert Pack(a)[i] == Pack(b)[i];
      SameByte(p[8 * i..8 * i + 8], q[8 * i..8 * i + 8]);
      assert p[8 * i..8 * i + 8][k - 8 * i] == q[8 * i..8 * i + 8][k - 8 * i];
    }
  }

  /** The completion mark is the last set bit of padded data, so its place gives the length away. */
  lemma {:induction false} MarkedLength(a: Bits, b: Bits)
    requires Padded(a) == Padded(b) && |a| % 8 != 0 && |b| % 8 != 0
    ensures |a| >= |b|
  {
    var p := Padded(b);
    assert p[|b|];
    assert forall i :: |a| < i < |p| ==> !Padded(a)[i];
  }

  /** Data bytes and the bit descriptor settle the bits: the completion mark hides nothing. */
  lemma {:induction false} PackInjective(a: Bits, b: Bits)
    requires Pack(a) == Pack(b) && BitsDescriptor(a) == BitsDescriptor(b)
    ensures a == b
  {
    SamePadding(a, b);
    assert |Pack(a)| == |Pack(b)|;
    if |a| % 8 != 0 {
      MarkedLength(a, b);
      MarkedLength(b, a);
    }
    assert a == Padded(a)[..|a|] && b == Padded(b)[..|b|];
  }
}

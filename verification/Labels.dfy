module Labels {
  // An edge label of a dictionary: three encodings that all read back, one of which is written.

  import opened Basics

  /** Whether one bit repeated spells the whole run. */
  predicate Uniform(run: Bits) {
    forall i :: 1 <= i < |run| ==> run[i] == run[0]
  }

  function ShortForm(run: Bits): Bits {
    [false] + Repeat(true, |run|) + [false] + run
  }

  function LongForm(run: Bits, max: nat): Bits {
    [true, false] + ToBits(|run|, BitLength(max)) + run
  }

  function SameForm(run: Bits, max: nat): Bits {
    [true, true] + [run != [] && run[0]] + ToBits(|run|, BitLength(max))
  }

  function ShortCost(len: nat): nat { 2 * len + 2 }
  function LongCost(len: nat, max: nat): nat { 2 + BitLength(max) + len }
  function SameCost(max: nat): nat { 3 + BitLength(max) }

  /** The least of the three lengths decides; at equal lengths the short form wins, then the long. */
  function Encode(run: Bits, max: nat): (s: Bits) {
    var len := |run|;
    if ShortCost(len) <= LongCost(len, max) && (!Uniform(run) || ShortCost(len) <= SameCost(max)) then
      ShortForm(run)
    else if !Uniform(run) || LongCost(len, max) <= SameCost(max) then
      LongForm(run, max)
    else
      SameForm(run, max)
  }

  // ---------------------------------------------------------------- reading

  datatype Header = Spelled(count: nat) | Repeated(bit: bool, count: nat)

  /** A unary count under `max`, and the bits after the zero that ends it. */
  function ReadUnary(s: Bits, count: nat, max: nat): (r: Result<(nat, Bits)>)
    ensures r.Ok? ==> |r.value.1| < |s| && (r.value.0 <= max || r.value.0 == count)
  {
    if s == [] then Err(NotEnoughBits)
    else if !s[0] then Ok((count, s[1..]))
    else if count + 1 > max then Err(LabelTooLong)
    else ReadUnary(s[1..], count + 1, max)
  }

  /** An explicit count under `max`, and the bits after it. */
  function ReadCount(s: Bits, max: nat): (r: Result<(nat, Bits)>)
    ensures r.Ok? ==> r.value.0 <= max && |r.value.1| <= |s|
  {
    var width := BitLength(max);
    if |s| < width then Err(NotEnoughBits)
    else if Value(s[..width]) > max then Err(LabelTooLong)
    else Ok((Value(s[..width]), s[width..]))
  }

  function ReadHeader(s: Bits, max: nat): (r: Result<(Header, Bits)>)
    ensures r.Ok? ==> r.value.0.count <= max && |r.value.1| < |s|
  {
    if s == [] then Err(NotEnoughBits)
    else if !s[0] then
      var (count, rest) :- ReadUnary(s[1..], 0, max);
      Ok((Spelled(count), rest))
    else if |s| < 2 then Err(NotEnoughBits)
    else if !s[1] then
      var (count, rest) :- ReadCount(s[2..], max);
      Ok((Spelled(count), rest))
    else if |s| < 3 then Err(NotEnoughBits)
    else
      var (count, rest) :- ReadCount(s[3..], max);
      Ok((Repeated(s[2], count), rest))
  }

  /** Reads a label under `max` off the front of `s`: the label, and what follows it. */
  function Read(s: Bits, max: nat): (r: Result<(Bits, Bits)>)
    ensures r.Ok? ==> |r.value.0| <= max && |r.value.1| < |s|
  {
    var (header, rest) :- ReadHeader(s, max);
    match header
    case Spelled(count) =>
      if |rest| < count then Err(NotEnoughBits) else Ok((rest[..count], rest[count..]))
    case Repeated(bit, count) => Ok((Repeat(bit, count), rest))
  }

  // ---------------------------------------------------------------- the codec is exact

  lemma {:induction false} ReadUnaryOf(n: nat, s: Bits, count: nat, max: nat)
    requires count + n <= max
    ensures ReadUnary(Repeat(true, n) + [false] + s, count, max) == Ok((count + n, s))
    decreases n
  {
    var all := Repeat(true, n) + [false] + s;
    if n == 0 {
      assert all[1..] == s;
    } else {
      ReadUnaryOf(n - 1, s, count + 1, max);
      assert all[1..] == Repeat(true, n - 1) + [false] + s;
    }
  }

  lemma {:induction false} ReadCountOf(n: nat, s: Bits, max: nat)
    requires n <= max
    ensures ReadCount(ToBits(n, BitLength(max)) + s, max) == Ok((n, s))
  {
    var width := BitLength(max);
    var all := ToBits(n, width) + s;
    assert all[..width] == ToBits(n, width) && all[width..] == s;
    ValueOfBits(n, width);
  }

  lemma {:induction false} ReadShort(run: Bits, max: nat, s: Bits)
    requires |run| <= max
    ensures Read(ShortForm(run) + s, max) == Ok((run, s))
  {
    var all := ShortForm(run) + s;
    assert all[1..] == Repeat(true, |run|) + [false] + (run + s);
    ReadUnaryOf(|run|, run + s, 0, max);
    assert (run + s)[..|run|] == run && (run + s)[|run|..] == s;
  }

  lemma {:induction false} ReadLong(run: Bits, max: nat, s: Bits)
    requires |run| <= max
    ensures Read(LongForm(run, max) + s, max) == Ok((run, s))
  {
    hide ReadCount, ToBits, BitLength;
    var all := LongForm(run, max) + s;
    assert all[2..] == ToBits(|run|, BitLength(max)) + (run + s);
    ReadCountOf(|run|, run + s, max);
    assert (run + s)[..|run|] == run && (run + s)[|run|..] == s;
  }

  lemma {:induction false} ReadSame(run: Bits, max: nat, s: Bits)
    requires |run| <= max && Uniform(run)
    ensures Read(SameForm(run, max) + s, max) == Ok((run, s))
  {
    var all := SameForm(run, max) + s;
    assert all[3..] == ToBits(|run|, BitLength(max)) + s;
    ReadCountOf(|run|, s, max);
    assert Repeat(run != [] && run[0], |run|) == run;
  }

  /** All three forms of a label read back as it, whatever follows them. */
  lemma {:induction false} EveryFormReadsBack(run: Bits, max: nat, s: Bits)
    requires |run| <= max
    ensures Read(ShortForm(run) + s, max) == Ok((run, s))
    ensures Read(LongForm(run, max) + s, max) == Ok((run, s))
    ensures Uniform(run) ==> Read(SameForm(run, max) + s, max) == Ok((run, s))
  {
    ReadShort(run, max, s);
    ReadLong(run, max, s);
    if Uniform(run) { ReadSame(run, max, s); }
  }

  /** The written form reads back and the bits behind it are all that is left. */
  lemma {:induction false} RoundTrip(run: Bits, max: nat, s: Bits)
    requires |run| <= max
    ensures Read(Encode(run, max) + s, max) == Ok((run, s))
  {
    EveryFormReadsBack(run, max, s);
  }

  lemma {:induction false} UnarySpent(s: Bits, count: nat, max: nat)
    requires ReadUnary(s, count, max).Ok?
    ensures var (n, rest) := ReadUnary(s, count, max).value;
      |s| == |rest| + (n - count) + 1
  {
    if s[0] { UnarySpent(s[1..], count + 1, max); }
  }

  /** A run that reads as a label spends what one of the label's forms takes. */
  lemma {:induction false} ReadSpends(s: Bits, max: nat)
    requires Read(s, max).Ok?
    ensures var (run, rest) := Read(s, max).value;
      var spent := |s| - |rest|;
      || spent == ShortCost(|run|)
      || spent == LongCost(|run|, max)
      || (Uniform(run) && spent == SameCost(max))
  {
    if !s[0] { UnarySpent(s[1..], 0, max); }
  }

  /** Which constructor a label opens with: short under `0`, long under `10`, same under `11`. */
  function Opening(s: Bits): nat
    requires s != [] && (s[0] ==> |s| > 1)
  {
    if !s[0] then 0 else if !s[1] then 1 else 2
  }

  lemma {:induction false} UnarySpelled(s: Bits, count: nat, max: nat)
    requires ReadUnary(s, count, max).Ok?
    ensures var (n, rest) := ReadUnary(s, count, max).value;
      n >= count && s == Repeat(true, n - count) + [false] + rest
  {
    if s[0] {
      UnarySpelled(s[1..], count + 1, max);
      var (n, rest) := ReadUnary(s, count, max).value;
      assert Repeat(true, n - count) == [true] + Repeat(true, n - count - 1);
      assert s == [true] + s[1..];
    }
  }

  lemma {:induction false} CountSpelled(s: Bits, max: nat)
    requires ReadCount(s, max).Ok?
    ensures var (n, rest) := ReadCount(s, max).value;
      s == ToBits(n, BitLength(max)) + rest
  {
    var width := BitLength(max);
    BitsOfValue(s[..width]);
    assert s == s[..width] + s[width..];
  }

  lemma {:induction false} ReadIsShort(s: Bits, max: nat)
    requires Read(s, max).Ok? && !s[0]
    ensures var (run, rest) := Read(s, max).value;
      s == ShortForm(run) + rest
  {
    hide ReadUnary;
    var (run, rest) := Read(s, max).value;
    var (count, behind) := ReadUnary(s[1..], 0, max).value;
    UnarySpelled(s[1..], 0, max);
    assert s == [false] + s[1..] && behind == run + rest;
  }

  lemma {:induction false} ReadIsLong(s: Bits, max: nat)
    requires Read(s, max).Ok? && s[0] && !s[1]
    ensures var (run, rest) := Read(s, max).value;
      s == LongForm(run, max) + rest
  {
    hide ReadCount, ToBits, BitLength;
    var (run, rest) := Read(s, max).value;
    var (count, behind) := ReadCount(s[2..], max).value;
    CountSpelled(s[2..], max);
    assert s == [true, false] + s[2..] && behind == run + rest;
  }

  lemma {:induction false} ReadIsSame(s: Bits, max: nat)
    requires Read(s, max).Ok? && s[0] && s[1]
    ensures var (run, rest) := Read(s, max).value;
      Uniform(run) && (run != [] ==> s == SameForm(run, max) + rest)
  {
    hide ReadCount, ToBits, BitLength;
    var (run, rest) := Read(s, max).value;
    CountSpelled(s[3..], max);
    assert s == [true, true] + [s[2]] + s[3..];
  }

  /** Whatever reads as a label is one of its forms, told by how it opens; only an empty repeat has two. */
  lemma {:induction false} ReadIsAForm(s: Bits, max: nat)
    requires Read(s, max).Ok?
    ensures s != [] && (s[0] ==> |s| > 1)
    ensures var (run, rest) := Read(s, max).value;
      && (Opening(s) == 0 ==> s == ShortForm(run) + rest)
      && (Opening(s) == 1 ==> s == LongForm(run, max) + rest)
      && (Opening(s) == 2 ==> Uniform(run) && (run != [] ==> s == SameForm(run, max) + rest))
  {
    hide ShortForm, LongForm, SameForm, Uniform, ReadUnary, ReadCount;
    if !s[0] {
      ReadIsShort(s, max);
    } else if !s[1] {
      ReadIsLong(s, max);
    } else {
      ReadIsSame(s, max);
    }
  }

  /**
    At equal lengths the first constructor is written: of everything that reads as a label and is
    as short as its written form, none opens with an earlier one.
   */
  lemma {:induction false} TiesGoToTheFirst(s: Bits, max: nat)
    requires Read(s, max).Ok?
    requires var (run, rest) := Read(s, max).value;
      |s| - |rest| == |Encode(run, max)|
    ensures s != [] && (s[0] ==> |s| > 1)
    ensures var written := Encode(Read(s, max).value.0, max);
      written != [] && (written[0] ==> |written| > 1) && Opening(written) <= Opening(s)
  {
    ReadIsAForm(s, max);
    ReadSpends(s, max);
  }

  /** So exactly one text is ever written for a label: the shortest, and of those the first to open. */
  lemma {:induction false} OneWriting(s: Bits, max: nat)
    requires Read(s, max).Ok? && Read(s, max).value.1 == []
    ensures s != [] && (s[0] ==> |s| > 1)
    ensures var written := Encode(Read(s, max).value.0, max);
      && written != [] && (written[0] ==> |written| > 1)
      && (|s| == |written| && Opening(s) == Opening(written) ==> s == written)
  {
    var run := Read(s, max).value.0;
    ReadIsAForm(s, max);
    assert s + [] == s;
  }

  /** A leaf hung directly under a fork has the empty label, and that is two zeros. */
  lemma {:induction false} EmptyLabel(max: nat)
    ensures Encode([], max) == [false, false]
  {
    assert Repeat(true, 0) == [];
  }

  /** Among everything that reads as a label, nothing takes fewer bits than its written form. */
  lemma {:induction false} EncodeIsShortest(s: Bits, max: nat)
    requires Read(s, max).Ok?
    ensures var (run, rest) := Read(s, max).value;
      |Encode(run, max)| + |rest| <= |s|
  {
    ReadSpends(s, max);
  }

  /** Shortening a label under a no wider key never lengthens what is written. */
  lemma {:induction false} TailCostsNoMore(run: Bits, cut: nat, max: nat, narrower: nat)
    requires cut <= |run| <= max && narrower <= max
    ensures |Encode(run[cut..], narrower)| <= |Encode(run, max)|
  {
    BitLengthMonotone(narrower, max);
    var tail := run[cut..];
    if Uniform(run) && |tail| > 0 {
      forall i | 1 <= i < |tail| ensures tail[i] == tail[0] {
        assert tail[i] == run[cut + i] && tail[0] == run[cut];
      }
    }
  }
}

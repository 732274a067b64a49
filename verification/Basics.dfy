module Basics {
  // Results, bytes and bit runs: what every other module of the project is written over.

  datatype Option<+T> = None | Some(value: T)

  /** The failures the modelled code reports, without the text each carries. */
  datatype Error =
    | NoRoomForBits | NoRoomForRefs | NotEnoughBits | NotEnoughRefs
    | TooWide | LabelTooLong | KeyLength | Pruned | Malformed
    | NotABagOfCells | Truncated | BadHeader | Checksum | BadReference
    | TooManyCells | TooDeep | Encoding
    | NotAMerkleProof | ProofNotAnchored | ProofInconsistent | WrongConstructor | NotCovered | NotBound
    | NotAKeyBlock | BackwardLink | ChainBroken | NotEnoughWeight
    | Desynchronized | PayloadTooLarge | ImplausibleLength | NoAnswer
    | NoInitBlock | SyncRefused | Stale | ClockBehind | Timeout | Transport

  /** A failure-compatible result. */
  datatype Result<+T> = Ok(value: T) | Err(error: Error) {
    predicate IsFailure() { Err? }
    function PropagateFailure<U>(): Result<U>
      requires Err?
    {
      Err(error)
    }
    function Extract(): T
      requires Ok?
    {
      value
    }
  }

  type byte = x: int | 0 <= x < 256

  /** A run of bits, most significant first. */
  type Bits = seq<bool>

  // ---------------------------------------------------------------- bits and numbers

  function Bit(b: bool): nat { if b then 1 else 0 }

  function Pow2(n: nat): (r: nat)
    ensures r > 0
  {
    if n == 0 then 1 else 2 * Pow2(n - 1)
  }

  /** The number a run spells, most significant bit first. */
  function Value(s: Bits): (r: nat)
    ensures r < Pow2(|s|)
  {
    if s == [] then 0 else 2 * Value(s[..|s| - 1]) + Bit(s[|s| - 1])
  }

  /** The low `width` bits of `x`, most significant first. */
  function ToBits(x: nat, width: nat): (s: Bits)
    ensures |s| == width
  {
    if width == 0 then [] else ToBits(x / 2, width - 1) + [x % 2 == 1]
  }

  lemma {:induction false} ValueOfBits(x: nat, width: nat)
    requires x < Pow2(width)
    ensures Value(ToBits(x, width)) == x
  {
    if width > 0 {
      ValueOfBits(x / 2, width - 1);
      assert ToBits(x, width)[..width - 1] == ToBits(x / 2, width - 1);
    }
  }

  lemma {:induction false} BitsOfValue(s: Bits)
    ensures ToBits(Value(s), |s|) == s
  {
    if s != [] {
      var init, last := s[..|s| - 1], s[|s| - 1];
      BitsOfValue(init);
      var x := 2 * Value(init) + Bit(last);
      assert Value(s) == x && x / 2 == Value(init) && (x % 2 == 1) == last;
      assert ToBits(x, |s|) == ToBits(x / 2, |s| - 1) + [x % 2 == 1];
      assert s == init + [last];
    }
  }

  lemma {:induction false} Pow2Monotone(a: nat, b: nat)
    requires a <= b
    ensures Pow2(a) <= Pow2(b)
    decreases b - a
  {
    if a < b { Pow2Monotone(a + 1, b); }
  }

  lemma {:induction false} Pow2Add(a: nat, b: nat)
    ensures Pow2(a + b) == Pow2(a) * Pow2(b)
  {
    if b > 0 { Pow2Add(a, b - 1); }
  }

  lemma {:induction false} Double(v: nat, p: nat, low: nat)
    ensures 2 * (v * p + low) == v * (2 * p) + 2 * low
  {}

  lemma {:induction false} ValueJoins(a: Bits, b: Bits)
    ensures Value(a + b) == Value(a) * Pow2(|b|) + Value(b)
  {
    if b == [] {
      assert a + b == a;
    } else {
      var init := b[..|b| - 1];
      assert (a + b)[..|a + b| - 1] == a + init;
      ValueJoins(a, init);
      Double(Value(a), Pow2(|init|), Value(init));
    }
  }

  lemma {:induction false} ModUnique(x: nat, m: nat, q: nat, r: nat)
    requires m > 0 && x == q * m + r && r < m
    ensures x % m == r && x / m == q
  {
    var p := x / m;
    assert p * m + x % m == x;
    Difference(p, q, m);
    Difference(q, p, m);
    if p > q { AtLeastOnce(p - q, m); }
    if p < q { AtLeastOnce(q - p, m); }
  }

  lemma {:induction false} AtLeastOnce(k: int, m: nat)
    requires k >= 1
    ensures k * m >= m
  {
    Difference(k, 1, m);
    assert (k - 1) * m >= 0;
  }

  lemma {:induction false} Difference(a: int, b: int, m: int)
    ensures (a - b) * m == a * m - b * m
  {}

  /** How many bits `x` takes: the width of a field that holds every value up to it. */
  function BitLength(x: nat): (r: nat)
    ensures x < Pow2(r)
    ensures x > 0 ==> r > 0 && Pow2(r - 1) <= x
  {
    if x == 0 then 0 else 1 + BitLength(x / 2)
  }

  lemma {:induction false} BitLengthMonotone(a: nat, b: nat)
    requires a <= b
    ensures BitLength(a) <= BitLength(b)
  {
    if a > 0 { BitLengthMonotone(a / 2, b / 2); }
  }

  function Times(a: nat, b: nat): nat { a * b }

  function Repeat(b: bool, n: nat): (s: Bits)
    ensures |s| == n && forall i :: 0 <= i < n ==> s[i] == b
  {
    seq(n, _ => b)
  }
}

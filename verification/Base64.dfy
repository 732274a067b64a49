module Base64 {
  // Base64, strictly: one spelling for every run of bytes, and the decoder that works a character
  // at a time agreeing with the one that works a quantum at a time.

  import opened Basics

  const PAD: byte := 61

  // ---------------------------------------------------------------- the alphabet

  /** The character a six-bit value is written as. */
  function Digit(x: nat): byte {
    if x < 26 then 65 + x else if x < 52 then 71 + x else if x < 62 then x - 4 else if x == 62 then 43 else 47
  }

  /** The inverse of `Digit`, where there is one. */
  function Sextet(c: byte): Result<Six>
  {
    if 65 <= c <= 90 then Ok(c - 65)
    else if 97 <= c <= 122 then Ok(c - 71)
    else if 48 <= c <= 57 then Ok(c + 4)
    else if c == 43 then Ok(62)
    else if c == 47 then Ok(63)
    else Err(Encoding)
  }

  lemma {:induction false} DigitReadsBack(x: nat)
    requires x < 64
    ensures Sextet(Digit(x)) == Ok(x) && Digit(x) != PAD
  {}

  lemma {:induction false} SextetWritesBack(c: byte)
    requires Sextet(c).Ok?
    ensures Digit(Sextet(c).value) == c && c != PAD
  {}

  // Three bytes as four six-bit values, and back.

  function S0(a: byte): nat { a / 4 }
  function S1(a: byte, b: byte): nat { a % 4 * 16 + b / 16 }
  function S2(b: byte, c: byte): nat { b % 16 * 4 + c / 64 }
  function S3(c: byte): nat { c % 64 }

  /** A six-bit value. */
  type Six = x: int | 0 <= x < 64

  function J0(w: Six, x: Six): byte { w * 4 + x / 16 }
  function J1(x: Six, y: Six): byte { x % 16 * 16 + y / 4 }
  function J2(y: Six, z: Six): byte { y % 4 * 64 + z }

  lemma {:induction false} SplitsFit(a: byte, b: byte, c: byte)
    ensures S0(a) < 64 && S1(a, b) < 64 && S2(b, c) < 64 && S3(c) < 64
    ensures S1(a, 0) % 16 == 0 && S2(b, 0) % 4 == 0
  {}

  lemma {:induction false} JoinsSplit(a: byte, b: byte, c: byte)
    ensures S0(a) < 64 && S1(a, b) < 64 && S2(b, c) < 64 && S3(c) < 64
    ensures J0(S0(a), S1(a, b)) == a && J1(S1(a, b), S2(b, c)) == b && J2(S2(b, c), S3(c)) == c
  {}

  lemma {:induction false} SplitsJoin(w: Six, x: Six, y: Six, z: Six)
    ensures S0(J0(w, x)) == w && S1(J0(w, x), J1(x, y)) == x && S2(J1(x, y), J2(y, z)) == y && S3(J2(y, z)) == z
    ensures y % 4 == 0 ==> S2(J1(x, y), 0) == y
    ensures x % 16 == 0 ==> S1(J0(w, x), 0) == x
  {}

  // ---------------------------------------------------------------- encoding

  /** Three bytes a quantum; a short last quantum padded to four characters. */
  function Encode(bytes: seq<byte>): seq<byte> {
    if bytes == [] then []
    else if |bytes| == 1 then [Digit(S0(bytes[0])), Digit(S1(bytes[0], 0)), PAD, PAD]
    else if |bytes| == 2 then [Digit(S0(bytes[0])), Digit(S1(bytes[0], bytes[1])), Digit(S2(bytes[1], 0)), PAD]
    else Quantum(bytes[0], bytes[1], bytes[2]) + Encode(bytes[3..])
  }

  function Quantum(a: byte, b: byte, c: byte): (r: seq<byte>)
    ensures |r| == 4
  {
    [Digit(S0(a)), Digit(S1(a, b)), Digit(S2(b, c)), Digit(S3(c))]
  }

  // ---------------------------------------------------------------- decoding by quanta

  /** How many pads a text ends in. */
  function Padding(text: seq<byte>): (r: nat)
    ensures r <= |text|
  {
    if text == [] || text[|text| - 1] != PAD then 0 else 1 + Padding(text[..|text| - 1])
  }

  function Whole(a: byte, b: byte, c: byte, d: byte): Result<seq<byte>> {
    var w :- Sextet(a);
    var x :- Sextet(b);
    var y :- Sextet(c);
    var z :- Sextet(d);
    Ok([J0(w, x), J1(x, y), J2(y, z)])
  }

  /** The characters that carry data, a quantum at a time, refusing bits no byte carries. */
  function DecodeBody(body: seq<byte>): Result<seq<byte>> {
    if body == [] then Ok([])
    else if |body| == 1 then Err(Encoding)
    else if |body| == 2 then
      var w :- Sextet(body[0]);
      var x :- Sextet(body[1]);
      if x % 16 != 0 then Err(Encoding) else Ok([J0(w, x)])
    else if |body| == 3 then
      var w :- Sextet(body[0]);
      var x :- Sextet(body[1]);
      var y :- Sextet(body[2]);
      if y % 4 != 0 then Err(Encoding) else Ok([J0(w, x), J1(x, y)])
    else
      var first :- Whole(body[0], body[1], body[2], body[3]);
      var rest :- DecodeBody(body[4..]);
      Ok(first + rest)
  }

  function Decode(text: seq<byte>): Result<seq<byte>> {
    if |text| % 4 != 0 then Err(Encoding)
    else if Padding(text) > 2 then Err(Encoding)
    else DecodeBody(text[..|text| - Padding(text)])
  }

  // ---------------------------------------------------------------- one spelling

  /** The characters of an encoding that carry data. */
  function Carried(bytes: seq<byte>): seq<byte> {
    if bytes == [] then []
    else if |bytes| == 1 then [Digit(S0(bytes[0])), Digit(S1(bytes[0], 0))]
    else if |bytes| == 2 then [Digit(S0(bytes[0])), Digit(S1(bytes[0], bytes[1])), Digit(S2(bytes[1], 0))]
    else Quantum(bytes[0], bytes[1], bytes[2]) + Carried(bytes[3..])
  }

  function Pads(n: nat): seq<byte> { if n % 3 == 0 then [] else if n % 3 == 1 then [PAD, PAD] else [PAD] }

  lemma {:induction false} EncodeIsCarried(bytes: seq<byte>)
    ensures Encode(bytes) == Carried(bytes) + Pads(|bytes|)
    ensures (|Carried(bytes)| + |Pads(|bytes|)|) % 4 == 0
  {
    hide Digit, S0, S1, S2, S3, Quantum;
    if |bytes| >= 3 {
      EncodeIsCarried(bytes[3..]);
      assert |bytes[3..]| % 3 == |bytes| % 3 && Pads(|bytes|) == Pads(|bytes[3..]|);
    }
  }

  lemma {:induction false} CarriedIsData(bytes: seq<byte>)
    ensures Carried(bytes) == [] || Carried(bytes)[|Carried(bytes)| - 1] != PAD
  {
    hide Digit, S0, S1, S2, S3;
    if bytes != [] {
      var last := bytes[|bytes| - 1];
      SplitsFit(last, 0, 0);
      SplitsFit(0, last, 0);
      if |bytes| == 1 {
        DigitReadsBack(S1(last, 0));
      } else if |bytes| == 2 {
        DigitReadsBack(S2(last, 0));
      } else {
        CarriedIsData(bytes[3..]);
        SplitsFit(bytes[2], bytes[2], bytes[2]);
        DigitReadsBack(S3(bytes[2]));
      }
    }
  }

  lemma {:induction false} PaddingOf(body: seq<byte>, pads: seq<byte>)
    requires (body == [] || body[|body| - 1] != PAD) && forall i :: 0 <= i < |pads| ==> pads[i] == PAD
    ensures Padding(body + pads) == |pads|
    decreases |pads|
  {
    if pads == [] {
      assert body + pads == body;
    } else {
      assert (body + pads)[..|body + pads| - 1] == body + pads[..|pads| - 1];
      PaddingOf(body, pads[..|pads| - 1]);
    }
  }

  lemma {:induction false} QuantumReadsBack(a: byte, b: byte, c: byte)
    ensures var q := Quantum(a, b, c); Whole(q[0], q[1], q[2], q[3]) == Ok([a, b, c])
  {
    hide Digit, Sextet, S0, S1, S2, S3, J0, J1, J2;
    JoinsSplit(a, b, c);
    DigitReadsBack(S0(a));
    DigitReadsBack(S1(a, b));
    DigitReadsBack(S2(b, c));
    DigitReadsBack(S3(c));
  }

  lemma {:induction false} CarriedReadsBack(bytes: seq<byte>)
    ensures DecodeBody(Carried(bytes)) == Ok(bytes)
  {
    hide Digit, Sextet, Whole, S0, S1, S2, S3, J0, J1, J2;
    if |bytes| == 1 {
      JoinsSplit(bytes[0], 0, 0);
      SplitsFit(bytes[0], 0, 0);
      DigitReadsBack(S0(bytes[0]));
      DigitReadsBack(S1(bytes[0], 0));
      assert bytes == [bytes[0]];
    } else if |bytes| == 2 {
      JoinsSplit(bytes[0], bytes[1], 0);
      SplitsFit(bytes[0], bytes[1], 0);
      DigitReadsBack(S0(bytes[0]));
      DigitReadsBack(S1(bytes[0], bytes[1]));
      DigitReadsBack(S2(bytes[1], 0));
      assert bytes == [bytes[0], bytes[1]];
    } else if |bytes| >= 3 {
      var q, rest := Quantum(bytes[0], bytes[1], bytes[2]), Carried(bytes[3..]);
      QuantumReadsBack(bytes[0], bytes[1], bytes[2]);
      CarriedReadsBack(bytes[3..]);
      assert (q + rest)[4..] == rest;
      assert bytes == [bytes[0], bytes[1], bytes[2]] + bytes[3..];
    }
  }

  /** Encoding and then decoding gives the bytes back. */
  lemma {:induction false} DecodesEncoded(bytes: seq<byte>)
    ensures Decode(Encode(bytes)) == Ok(bytes)
  {
    hide Carried, DecodeBody, Encode, Padding;
    EncodeIsCarried(bytes);
    CarriedIsData(bytes);
    PaddingOf(Carried(bytes), Pads(|bytes|));
    CarriedReadsBack(bytes);
    assert (Carried(bytes) + Pads(|bytes|))[..|Carried(bytes)|] == Carried(bytes);
  }

  lemma {:induction false} WholeWritesBack(a: byte, b: byte, c: byte, d: byte)
    requires Whole(a, b, c, d).Ok?
    ensures var s := Whole(a, b, c, d).value; |s| == 3 && Quantum(s[0], s[1], s[2]) == [a, b, c, d]
  {
    hide Digit, Sextet, S0, S1, S2, S3, J0, J1, J2;
    SextetWritesBack(a);
    SextetWritesBack(b);
    SextetWritesBack(c);
    SextetWritesBack(d);
    SplitsJoin(Sextet(a).value, Sextet(b).value, Sextet(c).value, Sextet(d).value);
  }

  lemma {:induction false} BodyWritesBack(body: seq<byte>)
    requires DecodeBody(body).Ok?
    ensures Carried(DecodeBody(body).value) == body && (|body| + |Pads(|DecodeBody(body).value|)|) % 4 == 0
  {
    hide Digit, Sextet, Whole, S0, S1, S2, S3, J0, J1, J2, Quantum, Pads;
    PadsOfFew();
    if |body| == 2 {
      SextetWritesBack(body[0]);
      SextetWritesBack(body[1]);
      SplitsJoin(Sextet(body[0]).value, Sextet(body[1]).value, 0, 0);
    } else if |body| == 3 {
      SextetWritesBack(body[0]);
      SextetWritesBack(body[1]);
      SextetWritesBack(body[2]);
      SplitsJoin(Sextet(body[0]).value, Sextet(body[1]).value, Sextet(body[2]).value, 0);
      assert body == [body[0], body[1], body[2]];
    } else if |body| >= 4 {
      WholeWritesBack(body[0], body[1], body[2], body[3]);
      BodyWritesBack(body[4..]);
      var first, rest := Whole(body[0], body[1], body[2], body[3]).value, DecodeBody(body[4..]).value;
      assert (first + rest)[3..] == rest;
      assert body == [body[0], body[1], body[2], body[3]] + body[4..];
      PadsOfMore(|rest|);
    }
  }

  lemma {:induction false} PadsOfFew()
    ensures |Pads(0)| == 0 && |Pads(1)| == 2 && |Pads(2)| == 1
  {}

  lemma {:induction false} PadsOfMore(n: nat)
    ensures Pads(3 + n) == Pads(n)
  {}

  lemma {:induction false} PaddingIsPads(text: seq<byte>)
    ensures forall i :: |text| - Padding(text) <= i < |text| ==> text[i] == PAD
  {
    if text != [] && text[|text| - 1] == PAD { PaddingIsPads(text[..|text| - 1]); }
  }

  /** A text that decodes is the encoding of what it decodes to: no run of bytes has two spellings. */
  lemma {:induction false} OneSpelling(text: seq<byte>)
    requires Decode(text).Ok?
    ensures Encode(Decode(text).value) == text
  {
    hide Carried, DecodeBody, Encode, Padding;
    var n := |text| - Padding(text);
    var body, bytes := text[..n], Decode(text).value;
    BodyWritesBack(body);
    EncodeIsCarried(bytes);
    PaddingIsPads(text);
    SamePads(n, Padding(text), |bytes|);
    assert text == body + text[n..];
    assert text[n..] == Pads(|bytes|);
  }

  lemma {:induction false} SamePads(n: nat, padding: nat, count: nat)
    requires (n + padding) % 4 == 0 && padding <= 2 && (n + |Pads(count)|) % 4 == 0
    ensures |Pads(count)| == padding
  {}

  // ---------------------------------------------------------------- decoding by characters

  /** The alphabet a config is read in also takes the two address-safe characters. */
  function Standard(c: byte): byte { if c == 45 then 43 else if c == 95 then 47 else c }

  function StandardText(text: seq<byte>): (r: seq<byte>)
    ensures |r| == |text|
  {
    seq(|text|, i requires 0 <= i < |text| => Standard(text[i]))
  }

  lemma {:induction false} StandardKeepsPadding(text: seq<byte>)
    ensures Padding(StandardText(text)) == Padding(text)
  {
    if text != [] {
      assert StandardText(text)[..|text| - 1] == StandardText(text[..|text| - 1]);
      StandardKeepsPadding(text[..|text| - 1]);
    }
  }

  lemma {:induction false} BadCharacterRefused(body: seq<byte>, i: nat)
    requires i < |body| && Sextet(body[i]).Err?
    ensures DecodeBody(body).Err?
  {
    if |body| >= 4 && i >= 4 { BadCharacterRefused(body[4..], i - 4); }
  }

  /** The bytes read so far, and what the rest decodes to after them. */
  function Onto(done: seq<byte>, rest: Result<seq<byte>>): Result<seq<byte>> {
    match rest case Err(e) => Err(e) case Ok(more) => Ok(done + more)
  }

  lemma {:induction false} OneQuantumOn(done: seq<byte>, body: seq<byte>)
    requires |body| >= 4 && Whole(body[0], body[1], body[2], body[3]).Ok?
    ensures Onto(done, DecodeBody(body))
      == Onto(done + Whole(body[0], body[1], body[2], body[3]).value, DecodeBody(body[4..]))
  {
    hide Whole;
    var first, rest := Whole(body[0], body[1], body[2], body[3]).value, DecodeBody(body[4..]);
    if rest.Ok? { assert done + (first + rest.value) == done + first + rest.value; }
  }

  // The accumulator after one, two, three and four characters of a quantum, in its low bits.

  const WORD: nat := 0x1_0000_0000

  function Shifted(acc: nat, x: Six): (r: nat)
    ensures r < WORD
  {
    (acc * 64 + x) % WORD
  }

  /** Cutting to a word keeps the low bits: `m * n` is the word, and `v` fits under `m`. */
  lemma {:induction false} WordKeepsLow(k: nat, v: nat, m: nat, n: nat)
    requires v < m && n > 0
    ensures m * n > 0 && (m * k + v) % (m * n) == m * (k % n) + v
  {
    var q, r := k / n, k % n;
    assert k == q * n + r;
    Spread(q, n, r, m, v);
    Bounded(r, n, m, v);
    ModUnique(m * k + v, m * n, q, m * r + v);
  }

  lemma {:induction false} Spread(q: nat, n: nat, r: nat, m: nat, v: nat)
    ensures m * (q * n + r) + v == q * (m * n) + (m * r + v)
  {}

  lemma {:induction false} Bounded(r: nat, n: nat, m: nat, v: nat)
    requires r < n && v < m
    ensures m * r + v < m * n && m * n > 0
  {
    assert m * (r + 1) == m * r + m;
    assert m * (r + 1) <= m * n;
  }

  lemma {:induction false} AfterOneCharacter(acc: nat, w: Six)
    ensures Shifted(acc, w) % 64 == w
  {}

  lemma {:induction false} AfterTwo(acc: nat, w: Six, x: Six)
    requires acc % 64 == w
    ensures Shifted(acc, x) / 16 % 256 == J0(w, x) && Shifted(acc, x) % 16 == x % 16
  {
    var k, v := acc / 64, (w as int) * 64 + x;
    WordKeepsLow(k, v, 4096, 0x10_0000);
    assert acc * 64 + x == 4096 * k + v;
    LowOf(k % 0x10_0000, v, w, x);
  }

  lemma {:induction false} LowOf(j: nat, v: nat, w: Six, x: Six)
    requires v == (w as int) * 64 + x
    ensures (4096 * j + v) / 16 % 256 == J0(w, x) && (4096 * j + v) % 16 == x % 16
  {
    var high: nat, low: nat := J0(w, x), x % 16;
    assert v == 16 * high + low;
    ModUnique(4096 * j + v, 16, 256 * j + high, low);
    ModUnique(256 * j + high, 256, j, high);
  }

  lemma {:induction false} AfterThree(acc: nat, x: Six, y: Six)
    requires acc % 16 == x % 16
    ensures Shifted(acc, y) / 4 % 256 == J1(x, y) && Shifted(acc, y) % 4 == y % 4
  {
    var k, v := acc / 16, (x as int) % 16 * 64 + y;
    WordKeepsLow(k, v, 1024, 0x40_0000);
    assert acc * 64 + y == 1024 * k + v;
    NextOf(k % 0x40_0000, v, x, y);
  }

  lemma {:induction false} NextOf(j: nat, v: nat, x: Six, y: Six)
    requires v == (x as int) % 16 * 64 + y
    ensures (1024 * j + v) / 4 % 256 == J1(x, y) && (1024 * j + v) % 4 == y % 4
  {
    var high: nat, low: nat := J1(x, y), y % 4;
    assert v == 4 * high + low;
    ModUnique(1024 * j + v, 4, 256 * j + high, low);
    ModUnique(256 * j + high, 256, j, high);
  }

  lemma {:induction false} AfterFour(acc: nat, y: Six, z: Six)
    requires acc % 4 == y % 4
    ensures Shifted(acc, z) % 256 == J2(y, z)
  {}

  /**
    Where the accumulator stands some characters into a quantum of these values: what is out, and
    what is left over.
   */
  ghost predicate Holding(acc: nat, left: nat, out: seq<byte>, done: seq<byte>, q: seq<Six>) {
    && |q| < 4
    && (|q| == 0 ==> left == 0 && out == done)
    && (|q| == 1 ==> left == 6 && acc % 64 == q[0] && out == done)
    && (|q| == 2 ==> left == 4 && acc % 16 == q[1] % 16 && out == done + [J0(q[0], q[1])])
    && (|q| == 3 ==> left == 2 && acc % 4 == q[2] % 4 && out == done + [J0(q[0], q[1]), J1(q[1], q[2])])
  }

  /** One character in: shift, and put a byte out once eight bits are there. */
  function Fed(acc: nat, left: nat, out: seq<byte>, x: Six): (nat, nat, seq<byte>) {
    var now := Shifted(acc, x);
    if left + 6 >= 8 then (now, left - 2, out + [now / Pow2(left - 2) % 256]) else (now, left + 6, out)
  }

  lemma {:induction false} FeedsOn(acc: nat, left: nat, out: seq<byte>, done: seq<byte>, q: seq<Six>, x: Six)
    requires Holding(acc, left, out, done, q)
    ensures var (a, l, o) := Fed(acc, left, out, x);
      && (|q| < 3 ==> Holding(a, l, o, done, q + [x]))
      && (|q| == 3 ==> Holding(a, l, o, done + [J0(q[0], q[1]), J1(q[1], q[2]), J2(q[2], x)], []))
  {
    hide Shifted, J0, J1, J2;
    assert Pow2(0) == 1 && Pow2(2) == 4 && Pow2(4) == 16;
    if |q| == 0 {
      AfterOneCharacter(acc, x);
    } else if |q| == 1 {
      AfterTwo(acc, q[0], x);
    } else if |q| == 2 {
      AfterThree(acc, q[1], x);
      assert done + [J0(q[0], q[1])] + [J1(q[1], x)] == done + [J0(q[0], q[1]), J1(q[1], x)];
    } else {
      AfterFour(acc, q[2], x);
      assert Shifted(acc, x) / 1 == Shifted(acc, x);
      assert done + [J0(q[0], q[1]), J1(q[1], q[2])] + [J2(q[2], x)]
        == done + [J0(q[0], q[1]), J1(q[1], q[2]), J2(q[2], x)];
    }
  }

  /** The values of a run of characters of the alphabet. */
  function Sextets(body: seq<byte>): (r: seq<Six>)
    requires forall i :: 0 <= i < |body| ==> Sextet(body[i]).Ok?
    ensures |r| == |body|
  {
    seq(|body|, i requires 0 <= i < |body| => Sextet(body[i]).value)
  }

  /** When the text runs out, the bits kept back are those the last quantum does not turn into bytes. */
  lemma {:induction false} EndsAlike(acc: nat, left: nat, out: seq<byte>, done: seq<byte>, body: seq<byte>)
    requires |body| < 4 && |body| != 1 && (forall i :: 0 <= i < |body| ==> Sextet(body[i]).Ok?)
    requires Holding(acc, left, out, done, Sextets(body))
    ensures acc % Pow2(left) == 0 ==> Onto(done, DecodeBody(body)) == Ok(out)
    ensures acc % Pow2(left) != 0 ==> DecodeBody(body).Err?
  {
    hide Sextet, J0, J1, J2;
    assert Pow2(0) == 1 && Pow2(2) == 4 && Pow2(4) == 16;
    if body == [] { assert done + [] == done; }
  }

  /**
    Decodes a character at a time over an accumulator, taking either alphabet. It accepts and
    gives exactly what decoding by quanta does of the same text in the standard alphabet.
   */
  method DecodeByCharacter(text: seq<byte>) returns (r: Option<seq<byte>>)
    ensures r == match Decode(StandardText(text)) case Err(_) => None case Ok(bytes) => Some(bytes)
  {
    hide Sextet, DecodeBody, Fed, Holding, Padding, Whole;
    if |text| % 4 != 0 { return None; }
    var padding := Padding(text);
    StandardKeepsPadding(text);
    if padding > 2 { return None; }
    var body := text[..|text| - padding];
    ghost var std := StandardText(body);
    assert StandardText(text)[..|body|] == std;
    var acc: nat, left: nat, out: seq<byte> := 0, 0, [];
    ghost var done: seq<byte>, from: nat := [], 0;
    StartsHolding();
    OntoNothing(DecodeBody(std));
    assert std[0..] == std && std[0..0] == [];
    for i := 0 to |body|
      invariant from <= i < from + 4 && from % 4 == 0
      invariant forall k :: 0 <= k < i ==> Sextet(std[k]).Ok?
      invariant Onto([], DecodeBody(std)) == Onto(done, DecodeBody(std[from..]))
      invariant Holding(acc, left, out, done, Sextets(std[from..i]))
    {
      var x := Sextet(Standard(body[i]));
      if x.Err? {
        BadCharacterRefused(std, i);
        return None;
      }
      FeedsOn(acc, left, out, done, Sextets(std[from..i]), x.value);
      assert std[from..i + 1] == std[from..i] + [std[i]];
      assert Sextets(std[from..i + 1]) == Sextets(std[from..i]) + [x.value];
      var fed := Fed(acc, left, out, x.value);
      acc, left, out := fed.0, fed.1, fed.2;
      if i + 1 == from + 4 {
        ghost var q := std[from..];
        WholeOf(q);
        OneQuantumOn(done, q);
        done := done + Whole(q[0], q[1], q[2], q[3]).value;
        assert q[4..] == std[from + 4..];
        from := from + 4;
        assert std[from..from] == [];
      }
    }
    ghost var last := std[from..];
    assert last == std[from..|body|];
    EndsAlike(acc, left, out, done, last);
    if acc % Pow2(left) != 0 { return None; }
    return Some(out);
  }

  lemma {:induction false} StartsHolding()
    ensures Holding(0, 0, [], [], Sextets([]))
  {}

  lemma {:induction false} OntoNothing(rest: Result<seq<byte>>)
    ensures Onto([], rest) == rest
  {
    if rest.Ok? { assert [] + rest.value == rest.value; }
  }

  lemma {:induction false} WholeOf(q: seq<byte>)
    requires |q| >= 4 && forall k :: 0 <= k < 4 ==> Sextet(q[k]).Ok?
    ensures Whole(q[0], q[1], q[2], q[3]) == Ok([J0(Sextet(q[0]).value, Sextet(q[1]).value),
      J1(Sextet(q[1]).value, Sextet(q[2]).value), J2(Sextet(q[2]).value, Sextet(q[3]).value)])
  {
    hide Sextet, J0, J1, J2;
  }

  // ---------------------------------------------------------------- the chunk loops

  /** Writes a quantum per three bytes, the last one padded. */
  method EncodeText(bytes: seq<byte>) returns (text: seq<byte>)
    ensures text == Encode(bytes)
  {
    hide Quantum, Digit, S0, S1, S2, S3;
    text := [];
    var at := 0;
    while at < |bytes|
      invariant at <= |bytes| && text + Encode(bytes[at..]) == Encode(bytes)
      decreases |bytes| - at
    {
      var left := bytes[at..];
      var quantum :=
        if |left| == 1 then [Digit(S0(left[0])), Digit(S1(left[0], 0)), PAD, PAD]
        else if |left| == 2 then [Digit(S0(left[0])), Digit(S1(left[0], left[1])), Digit(S2(left[1], 0)), PAD]
        else Quantum(left[0], left[1], left[2]);
      var step := if |left| < 3 then |left| else 3;
      assert left[step..] == bytes[at + step..];
      EncodeStep(left, step, quantum);
      assert text + (quantum + Encode(left[step..])) == text + quantum + Encode(left[step..]);
      text, at := text + quantum, at + step;
    }
    assert bytes[at..] == [] && text + [] == text;
  }

  lemma {:induction false} EncodeStep(left: seq<byte>, step: nat, quantum: seq<byte>)
    requires left != [] && step == if |left| < 3 then |left| else 3
    requires quantum ==
      if |left| == 1 then [Digit(S0(left[0])), Digit(S1(left[0], 0)), PAD, PAD]
      else if |left| == 2 then [Digit(S0(left[0])), Digit(S1(left[0], left[1])), Digit(S2(left[1], 0)), PAD]
      else Quantum(left[0], left[1], left[2])
    ensures Encode(left) == quantum + Encode(left[step..])
  {
    hide Quantum, Digit, S0, S1, S2, S3;
    if |left| < 3 { assert left[step..] == [] && quantum + [] == quantum; }
  }

  /** Reads a quantum at a time, refusing anything no encoder writes. */
  method DecodeText(text: seq<byte>) returns (r: Result<seq<byte>>)
    ensures r == Decode(text)
  {
    hide Whole, Sextet, Padding, J0, J1, J2;
    if |text| % 4 != 0 { return Err(Encoding); }
    var padding := Padding(text);
    if padding > 2 { return Err(Encoding); }
    var body := text[..|text| - padding];
    var out: seq<byte>, at := [], 0;
    OntoNothing(DecodeBody(body));
    assert body[0..] == body;
    while at + 4 <= |body|
      invariant at <= |body| && at % 4 == 0 && DecodeBody(body) == Onto(out, DecodeBody(body[at..]))
    {
      var q := body[at..];
      var quantum := Whole(q[0], q[1], q[2], q[3]);
      if quantum.Err? { return Err(quantum.error); }
      OneQuantumOn(out, q);
      assert q[4..] == body[at + 4..];
      out, at := out + quantum.value, at + 4;
    }
    var last := DecodeBody(body[at..]);
    if last.Err? { return Err(last.error); }
    return Ok(out + last.value);
  }
}

module Adnl {
  // The ADNL session: frames under two running keystreams, and the flag that refuses to go on once
  // a transfer stopped somewhere the keystreams cannot follow.

  import opened Basics
  import opened Hashing

  const MIN_FRAME: nat := 64
  const MAX_FRAME: nat := 0x100_0000
  const MAX_FRAMES_PER_QUERY: nat := 8

  // ---------------------------------------------------------------- frames

  /** A keystream: what becomes of a byte at a position of the stream. */
  type Stream = (nat, byte) -> byte

  /** Mixing a byte with the keystream twice at one position gives it back. */
  ghost predicate Involutive(mix: Stream) { forall at: nat, b: byte :: mix(at, mix(at, b)) == b }

  function Apply(mix: Stream, at: nat, data: seq<byte>): (r: seq<byte>)
    ensures |r| == |data|
  {
    seq(|data|, i requires 0 <= i < |data| => mix(at + i, data[i]))
  }

  function LittleEndian32(x: nat): (r: seq<byte>)
    ensures |r| == 4
  {
    [x % 256, x / 256 % 256, x / 65536 % 256, x / 16777216 % 256]
  }

  function FromLittleEndian32(s: seq<byte>): nat
    requires |s| == 4
  {
    (s[0] as int) + 256 * (s[1] as int) + 65536 * (s[2] as int) + 16777216 * (s[3] as int)
  }

  lemma {:induction false} LengthReadsBack(x: nat)
    requires x <= MAX_FRAME
    ensures FromLittleEndian32(LittleEndian32(x)) == x
  {
    var a, b, c := x / 256, x / 65536, x / 16777216;
    assert x == 256 * a + x % 256;
    assert a == 256 * b + a % 256;
    assert b == 256 * c + b % 256;
    assert c % 256 == c;
  }

  datatype Message = Message(nonce: Hash, payload: seq<byte>)

  predicate Sendable(m: Message) { |m.payload| + MIN_FRAME <= MAX_FRAME }

  /** A frame in the clear: its length, a nonce, the payload, and a checksum over the two. */
  function Frame(sha: Sha, m: Message): (r: seq<byte>)
    ensures |r| == 4 + MIN_FRAME + |m.payload|
  {
    LittleEndian32(|m.payload| + MIN_FRAME) + (m.nonce + m.payload + sha(m.nonce + m.payload))
  }

  /** What the front of a stream opens as. */
  datatype Opening = Opened(payload: seq<byte>, size: nat) | NeedMore | Refused(error: Error)

  function OpenBody(sha: Sha, mix: Stream, at: nat, body: seq<byte>): Result<seq<byte>> {
    if |body| < MIN_FRAME then Err(Truncated)
    else
      var clear := Apply(mix, at, body);
      var inner := clear[..|clear| - 32];
      if clear[|clear| - 32..] != sha(inner) then Err(Checksum) else Ok(inner[32..])
  }

  function OpenLen(mix: Stream, at: nat, prefix: seq<byte>): (r: Result<nat>)
    requires |prefix| == 4
    ensures r.Ok? ==> MIN_FRAME <= r.value <= MAX_FRAME
  {
    var length := FromLittleEndian32(Apply(mix, at, prefix));
    if MIN_FRAME <= length <= MAX_FRAME then Ok(length) else Err(ImplausibleLength)
  }

  function OpenNext(sha: Sha, mix: Stream, at: nat, s: seq<byte>): Opening {
    if |s| < 4 then NeedMore
    else
      match OpenLen(mix, at, s[..4])
      case Err(e) => Refused(e)
      case Ok(length) =>
        if |s| < 4 + length then NeedMore
        else
          match OpenBody(sha, mix, at + 4, s[4..4 + length])
          case Err(e) => Refused(e)
          case Ok(payload) => Opened(payload, 4 + length)
  }

  /** Everything a peer in step makes of a stream: the payloads of the whole frames on it. */
  function OpenAll(sha: Sha, mix: Stream, at: nat, s: seq<byte>): seq<seq<byte>>
    decreases |s|
  {
    var next := OpenNext(sha, mix, at, s);
    if next.Opened? && 0 < next.size <= |s| then [next.payload] + OpenAll(sha, mix, at + next.size, s[next.size..])
      else []
  }

  /** Messages sealed one after another under one keystream. */
  function SealAll(sha: Sha, mix: Stream, at: nat, messages: seq<Message>): seq<byte> {
    if messages == [] then []
    else
      SealAll(sha, mix, at, messages[..|messages| - 1])
      + Apply(mix, at + SealedSize(messages[..|messages| - 1]), Frame(sha, messages[|messages| - 1]))
  }

  function SealedSize(messages: seq<Message>): nat {
    if messages == [] then 0
    else SealedSize(messages[..|messages| - 1]) + 4 + MIN_FRAME + |messages[|messages| - 1].payload|
  }

  function Payloads(messages: seq<Message>): (r: seq<seq<byte>>)
    ensures |r| == |messages|
  {
    seq(|messages|, i requires 0 <= i < |messages| => messages[i].payload)
  }

  // ---------------------------------------------------------------- what is sealed opens

  lemma {:induction false} ApplyTwice(mix: Stream, at: nat, data: seq<byte>)
    requires Involutive(mix)
    ensures Apply(mix, at, Apply(mix, at, data)) == data
  {}

  lemma {:induction false} ApplySlice(mix: Stream, at: nat, data: seq<byte>, from: nat, to: nat)
    requires from <= to <= |data|
    ensures Apply(mix, at, data)[from..to] == Apply(mix, at + from, data[from..to])
  {
    var all, part := Apply(mix, at, data), data[from..to];
    forall i | 0 <= i < to - from ensures all[from..to][i] == Apply(mix, at + from, part)[i] {
      assert all[from..to][i] == all[from + i] == mix(at + (from + i), data[from + i]);
      assert part[i] == data[from + i] && at + (from + i) == at + from + i;
    }
  }

  lemma {:induction false} FrameParts(sha: Sha, m: Message)
    ensures Frame(sha, m)[..4] == LittleEndian32(|m.payload| + MIN_FRAME)
    ensures Frame(sha, m)[4..] == m.nonce + m.payload + sha(m.nonce + m.payload)
  {
    hide LittleEndian32;
  }

  lemma {:induction false} BodyOpens(sha: Sha, mix: Stream, at: nat, m: Message)
    requires Involutive(mix)
    ensures OpenBody(sha, mix, at, Apply(mix, at, m.nonce + m.payload + sha(m.nonce + m.payload))) == Ok(m.payload)
  {
    hide Involutive, Apply;
    var inner := m.nonce + m.payload;
    var clear := inner + sha(inner);
    ApplyTwice(mix, at, clear);
    assert clear[..|clear| - 32] == inner && clear[|clear| - 32..] == sha(inner) && inner[32..] == m.payload;
  }

  lemma {:induction false} LengthOpens(sha: Sha, mix: Stream, at: nat, m: Message)
    requires Involutive(mix) && Sendable(m)
    ensures OpenLen(mix, at, Apply(mix, at, Frame(sha, m))[..4]) == Ok(|m.payload| + MIN_FRAME)
  {
    hide Involutive, Apply, LittleEndian32, FromLittleEndian32;
    ApplySlice(mix, at, Frame(sha, m), 0, 4);
    FrameParts(sha, m);
    assert Frame(sha, m)[0..4] == Frame(sha, m)[..4];
    assert Apply(mix, at, Frame(sha, m))[0..4] == Apply(mix, at, Frame(sha, m))[..4];
    ApplyTwice(mix, at, LittleEndian32(|m.payload| + MIN_FRAME));
    LengthReadsBack(|m.payload| + MIN_FRAME);
  }

  /** A frame sealed where the peer stands opens as its payload, whatever follows it. */
  lemma {:induction false} SealedOpens(sha: Sha, mix: Stream, at: nat, m: Message, rest: seq<byte>)
    requires Involutive(mix) && Sendable(m)
    ensures OpenNext(sha, mix, at, Apply(mix, at, Frame(sha, m)) + rest) == Opened(m.payload, |Frame(sha, m)|)
  {
    hide Involutive, Apply, OpenLen, OpenBody, Frame;
    var wire := Apply(mix, at, Frame(sha, m));
    LengthOpens(sha, mix, at, m);
    assert (wire + rest)[..4] == wire[..4];
    assert (wire + rest)[4..|wire|] == wire[4..|wire|];
    ApplySlice(mix, at, Frame(sha, m), 4, |wire|);
    FrameParts(sha, m);
    assert Frame(sha, m)[4..|wire|] == Frame(sha, m)[4..];
    BodyOpens(sha, mix, at + 4, m);
  }

  /** A frame cut short is waited on, never misread. */
  lemma {:induction false} CutNeedsMore(sha: Sha, mix: Stream, at: nat, m: Message, k: nat)
    requires Involutive(mix) && Sendable(m) && k < |Frame(sha, m)|
    ensures OpenNext(sha, mix, at, Apply(mix, at, Frame(sha, m))[..k]) == NeedMore
  {
    hide Involutive, Apply, OpenLen, OpenBody, Frame;
    if k >= 4 {
      LengthOpens(sha, mix, at, m);
      assert Apply(mix, at, Frame(sha, m))[..k][..4] == Apply(mix, at, Frame(sha, m))[..4];
    }
  }

  lemma {:induction false} SealedLength(sha: Sha, mix: Stream, at: nat, messages: seq<Message>)
    ensures |SealAll(sha, mix, at, messages)| == SealedSize(messages)
  {
    if messages != [] { SealedLength(sha, mix, at, messages[..|messages| - 1]); }
  }

  lemma {:induction false} SizePrepends(m: Message, more: seq<Message>)
    ensures SealedSize([m] + more) == 4 + MIN_FRAME + |m.payload| + SealedSize(more)
  {
    if more == [] {
      assert [m] + more == [m] && [m][..0] == [];
    } else {
      assert ([m] + more)[..|more|] == [m] + more[..|more| - 1];
      SizePrepends(m, more[..|more| - 1]);
    }
  }

  lemma {:induction false} SealPrepends(sha: Sha, mix: Stream, at: nat, m: Message, more: seq<Message>)
    ensures SealAll(sha, mix, at, [m] + more)
      == Apply(mix, at, Frame(sha, m)) + SealAll(sha, mix, at + |Frame(sha, m)|, more)
  {
    hide Apply, Frame;
    if more == [] {
      assert [m] + more == [m] && [m][..0] == [];
    } else {
      var init, last := more[..|more| - 1], more[|more| - 1];
      var front, all := [m] + init, [m] + more;
      assert all[..|all| - 1] == front && all[|all| - 1] == last;
      SealPrepends(sha, mix, at, m, init);
      SizePrepends(m, init);
      assert SealAll(sha, mix, at, all)
        == SealAll(sha, mix, at, front) + Apply(mix, at + SealedSize(front), Frame(sha, last));
    }
  }

  /** A stream of whole frames and then a cut one opens as exactly the whole ones, in order. */
  lemma {:induction false} StreamOpens(sha: Sha, mix: Stream, at: nat, messages: seq<Message>, tail: seq<byte>)
    requires Involutive(mix) && (forall i :: 0 <= i < |messages| ==> Sendable(messages[i]))
    requires OpenNext(sha, mix, at + SealedSize(messages), tail) == NeedMore
    ensures OpenAll(sha, mix, at, SealAll(sha, mix, at, messages) + tail) == Payloads(messages)
    decreases |messages|
  {
    hide Involutive, Apply, Frame, OpenNext, SealAll, SealedSize;
    SealedNothing(sha, mix, at);
    if messages == [] {
      assert [] + tail == tail;
    } else {
      var m, more := messages[0], messages[1..];
      assert messages == [m] + more;
      SealPrepends(sha, mix, at, m, more);
      SizePrepends(m, more);
      var wire, rest := Apply(mix, at, Frame(sha, m)), SealAll(sha, mix, at + |Frame(sha, m)|, more) + tail;
      assert SealAll(sha, mix, at, messages) + tail == wire + rest;
      SealedOpens(sha, mix, at, m, rest);
      assert (wire + rest)[|wire|..] == rest;
      StreamOpens(sha, mix, at + |Frame(sha, m)|, more, tail);
      assert Payloads(messages) == [m.payload] + Payloads(more);
    }
  }

  // ---------------------------------------------------------------- the connection

  /** How a transfer ended: whole, or given up on after so many bytes, failed or dropped. */
  datatype Fate = Whole | Cut(after: nat)

  /** A connection: how far each keystream has run, what is on the wire, what has been read. */
  datatype Conn = Conn(tx: nat, rx: nat, intact: bool, sent: seq<byte>, taken: nat)

  /** The session's keystreams, its hash, and all the server will ever send. */
  datatype Session = Session(sha: Sha, send: Stream, receive: Stream, input: seq<byte>)

  const FRESH := Conn(0, 0, true, [], 0)

  /** How many of `n` bytes a transfer moved. */
  function Moved(fate: Fate, n: nat): (r: nat)
    ensures r <= n && (fate.Whole? ==> r == n) && (forall k: nat :: k <= n && fate == Cut(k) ==> r == k)
  {
    match fate case Whole => n case Cut(k) => if k < n then k else n
  }

  function SendStep(session: Session, s: Conn, m: Message, fate: Fate): (Conn, Result<()>) {
    if !s.intact then (s, Err(Desynchronized))
    else if |m.payload| + MIN_FRAME > MAX_FRAME then (s, Err(PayloadTooLarge))
    else
      var wire := Apply(session.send, s.tx, Frame(session.sha, m));
      var now := s.(tx := s.tx + |wire|, sent := s.sent + wire[..Moved(fate, |wire|)], intact := fate.Whole?);
      (now, if fate.Whole? then Ok(()) else Err(Transport))
  }

  /** Whether `n` more bytes arrive: the transfer was let finish, and the stream has them. */
  predicate Arrives(session: Session, s: Conn, n: nat, fate: Fate) { fate.Whole? && s.taken + n <= |session.input| }

  function Short(session: Session, s: Conn, n: nat, fate: Fate): Conn {
    var left := if s.taken <= |session.input| then |session.input| - s.taken else 0;
    s.(taken := s.taken + Moved(fate, if n < left then n else left), intact := false)
  }

  function RecvStep(session: Session, s: Conn, first: Fate, second: Fate): (Conn, Result<seq<byte>>) {
    if !s.intact then (s, Err(Desynchronized))
    else if !Arrives(session, s, 4, first) then (Short(session, s, 4, first), Err(Transport))
    else
      var prefix := session.input[s.taken..s.taken + 4];
      var read := s.(taken := s.taken + 4, rx := s.rx + 4, intact := false);
      match OpenLen(session.receive, s.rx, prefix)
      case Err(e) => (read, Err(e))
      case Ok(length) =>
        if !Arrives(session, read, length, second) then (Short(session, read, length, second), Err(Transport))
        else
          var body := session.input[read.taken..read.taken + length];
          var done := read.(taken := read.taken + length, rx := read.rx + length);
          match OpenBody(session.sha, session.receive, read.rx, body)
          case Err(e) => (done, Err(e))
          case Ok(payload) => (done.(intact := true), Ok(payload))
  }

  // ---------------------------------------------------------------- whole runs

  datatype Op = Send(message: Message, fate: Fate) | Recv(first: Fate, second: Fate)

  /**
    What a run leaves: the connection, the messages sent whole, the one whose send was given up
    on with how many of its bytes had gone, and the payloads received.
   */
  datatype Trace = Trace(conn: Conn, sent: seq<Message>, cut: Option<(Message, nat)>, received: seq<seq<byte>>)

  function Step(session: Session, t: Trace, op: Op): Trace {
    match op
    case Send(m, fate) =>
      var (conn, r) := SendStep(session, t.conn, m, fate);
      var cut := if r == Err(Transport) then Some((m, |conn.sent| - |t.conn.sent|)) else t.cut;
      Trace(conn, if r.Ok? then t.sent + [m] else t.sent, cut, t.received)
    case Recv(first, second) =>
      var (conn, r) := RecvStep(session, t.conn, first, second);
      Trace(conn, t.sent, t.cut, if r.Ok? then t.received + [r.value] else t.received)
  }

  function Run(session: Session, ops: seq<Op>): Trace {
    if ops == [] then Trace(FRESH, [], None, []) else Step(session, Run(session, ops[..|ops| - 1]), ops[|ops| - 1])
  }

  /** The sending half: the wire holds the frames sent whole, and while intact nothing else. */
  ghost predicate SendsWhole(session: Session, t: Trace) {
    && (forall i :: 0 <= i < |t.sent| ==> Sendable(t.sent[i]))
    && (t.conn.intact ==> t.conn.tx == SealedSize(t.sent) && t.cut.None?)
    && (t.cut.None? ==> t.conn.sent == SealAll(session.sha, session.send, 0, t.sent))
    && (t.cut.Some? ==> CutBy(session, t, t.cut.value.0, t.cut.value.1))
  }

  /** After the whole frames, the first `k` bytes of one more. */
  ghost predicate CutBy(session: Session, t: Trace, m: Message, k: nat) {
    && Sendable(m) && k <= |Frame(session.sha, m)|
    && t.conn.sent == SealAll(session.sha, session.send, 0, t.sent)
         + Apply(session.send, SealedSize(t.sent), Frame(session.sha, m))[..k]
  }

  lemma {:induction false} SealAppends(sha: Sha, mix: Stream, messages: seq<Message>, m: Message)
    ensures SealAll(sha, mix, 0, messages + [m])
      == SealAll(sha, mix, 0, messages) + Apply(mix, SealedSize(messages), Frame(sha, m))
    ensures SealedSize(messages + [m]) == SealedSize(messages) + |Frame(sha, m)|
  {
    assert (messages + [m])[..|messages|] == messages;
  }

  lemma {:induction false} SendStepKeeps(session: Session, t: Trace, m: Message, fate: Fate)
    requires SendsWhole(session, t)
    ensures SendsWhole(session, Step(session, t, Send(m, fate)))
  {
    hide Apply, Frame, SealAll, SealedSize;
    if t.conn.intact && Sendable(m) {
      var wire := Apply(session.send, t.conn.tx, Frame(session.sha, m));
      var now := Step(session, t, Send(m, fate));
      SealAppends(session.sha, session.send, t.sent, m);
      if fate.Whole? {
        assert wire[..|wire|] == wire;
      } else {
        assert now.cut == Some((m, Moved(fate, |wire|)));
      }
    }
  }

  lemma {:induction false} RecvKeepsSent(session: Session, t: Trace, first: Fate, second: Fate)
    requires SendsWhole(session, t)
    ensures SendsWhole(session, Step(session, t, Recv(first, second)))
  {
    hide Apply, Frame, SealAll, SealedSize, OpenLen, OpenBody;
    var now := Step(session, t, Recv(first, second));
    assert now.conn.sent == t.conn.sent && now.conn.tx == t.conn.tx && (now.conn.intact ==> t.conn.intact);
  }

  lemma {:induction false} RunSendsWhole(session: Session, ops: seq<Op>)
    ensures SendsWhole(session, Run(session, ops))
  {
    hide SendsWhole;
    if ops == [] {
      StartSendsWhole(session);
    } else {
      RunSendsWhole(session, ops[..|ops| - 1]);
      var t, op := Run(session, ops[..|ops| - 1]), ops[|ops| - 1];
      match op
      case Send(m, fate) => SendStepKeeps(session, t, m, fate);
      case Recv(first, second) => RecvKeepsSent(session, t, first, second);
    }
  }

  lemma {:induction false} StartSendsWhole(session: Session)
    ensures SendsWhole(session, Trace(FRESH, [], None, []))
  {}

  /** The messages every byte of whose frame is on the wire. */
  function WhollyOut(session: Session, t: Trace): seq<Message> {
    if t.cut.Some? && t.cut.value.1 == |Frame(session.sha, t.cut.value.0)| then t.sent + [t.cut.value.0] else t.sent
  }

  /**
    However a run of transfers ends, failed or dropped at any byte, a server in step with the
    session makes of the wire exactly the messages whose sends succeeded, in order, and after
    them the one given up on exactly if its last byte was out. It never misreads a frame.
   */
  lemma {:induction false} ServerReadsWhatWasSent(session: Session, ops: seq<Op>)
    requires Involutive(session.send)
    ensures var t := Run(session, ops);
      && OpenAll(session.sha, session.send, 0, t.conn.sent) == Payloads(WhollyOut(session, t))
      && (t.conn.intact ==> WhollyOut(session, t) == t.sent)
  {
    hide Run, OpenAll, SealAll, Apply, Frame, Involutive, SealedSize;
    RunSendsWhole(session, ops);
    var t := Run(session, ops);
    NothingNeedsMore(session.sha, session.send, SealedSize(t.sent));
    StreamOpens(session.sha, session.send, 0, t.sent, []);
    var whole := SealAll(session.sha, session.send, 0, t.sent);
    assert whole + [] == whole;
    if t.cut.Some? {
      var (m, k) := t.cut.value;
      var wire := Apply(session.send, SealedSize(t.sent), Frame(session.sha, m));
      if k == |wire| {
        assert wire[..k] == wire;
        SealAppends(session.sha, session.send, t.sent, m);
        NothingNeedsMore(session.sha, session.send, SealedSize(t.sent + [m]));
        StreamOpens(session.sha, session.send, 0, t.sent + [m], []);
        assert whole + wire + [] == whole + wire;
      } else {
        CutNeedsMore(session.sha, session.send, SealedSize(t.sent), m, k);
        StreamOpens(session.sha, session.send, 0, t.sent, wire[..k]);
      }
    }
  }

  /** Whatever the peer sends, while the flag is up each keystream has run exactly as far as the bytes moved. */
  lemma {:induction false} CountersMatch(session: Session, ops: seq<Op>)
    requires Run(session, ops).conn.intact
    ensures var c := Run(session, ops).conn; c.tx == |c.sent| && c.rx == c.taken <= |session.input|
  {
    hide OpenLen, OpenBody, Apply, Frame;
    if ops != [] {
      var t, op := Run(session, ops[..|ops| - 1]), ops[|ops| - 1];
      assert t.conn.intact;
      CountersMatch(session, ops[..|ops| - 1]);
    }
  }

  lemma {:induction false} NothingNeedsMore(sha: Sha, mix: Stream, at: nat)
    ensures OpenNext(sha, mix, at, []) == NeedMore
  {}

  // ---------------------------------------------------------------- receiving

  lemma {:induction false} SealSplits(sha: Sha, mix: Stream, a: seq<Message>, b: seq<Message>)
    ensures SealAll(sha, mix, 0, a + b) == SealAll(sha, mix, 0, a) + SealAll(sha, mix, SealedSize(a), b)
    ensures SealedSize(a + b) == SealedSize(a) + SealedSize(b)
    decreases |b|
  {
    hide Apply, Frame;
    if b == [] {
      assert a + b == a && SealAll(sha, mix, 0, a) + [] == SealAll(sha, mix, 0, a);
    } else {
      var init := b[..|b| - 1];
      assert (a + b)[..|a + b| - 1] == a + init;
      SealSplits(sha, mix, a, init);
    }
  }

  /** A receive let finish is the opening of the next frame where the client stands. */
  lemma {:induction false} RecvOpensNext(session: Session, s: Conn, first: Fate, second: Fate)
    requires s.intact && s.rx == s.taken <= |session.input| && RecvStep(session, s, first, second).1.Ok?
    ensures var (now, r) := RecvStep(session, s, first, second);
      var next := OpenNext(session.sha, session.receive, s.rx, session.input[s.taken..]);
      && next == Opened(r.value, now.taken - s.taken) && now.rx == now.taken && now.intact
  {
    hide OpenLen, OpenBody;
    var rest := session.input[s.taken..];
    assert rest[..4] == session.input[s.taken..s.taken + 4];
    var length := OpenLen(session.receive, s.rx, rest[..4]).value;
    assert rest[4..4 + length] == session.input[s.taken + 4..s.taken + 4 + length];
  }

  /** Against a server that sealed `inbox`: what was received is the front of it, in order. */
  ghost predicate ReceivesInOrder(session: Session, inbox: seq<Message>, t: Trace) {
    && |t.received| <= |inbox| && t.received == Payloads(inbox)[..|t.received|]
    && (t.conn.intact ==> t.conn.rx == t.conn.taken == SealedSize(inbox[..|t.received|]))
  }

  lemma {:induction false} RecvKeepsOrder(session: Session, inbox: seq<Message>, t: Trace, first: Fate, second: Fate)
    requires Involutive(session.receive) && (forall i :: 0 <= i < |inbox| ==> Sendable(inbox[i]))
    requires session.input == SealAll(session.sha, session.receive, 0, inbox) && ReceivesInOrder(session, inbox, t)
    ensures ReceivesInOrder(session, inbox, Step(session, t, Recv(first, second)))
  {
    hide Involutive, SealAll, SealedSize, OpenNext, RecvStep;
    var n := |t.received|;
    var (conn, r) := RecvStep(session, t.conn, first, second);
    RefusalBreaks(session, t.conn, first, second);
    if r.Ok? {
      var at := SealedSize(inbox[..n]);
      FrontOfInbox(session, inbox, n);
      assert n == |inbox| ==> inbox[n..] == [];
      RecvOpensNext(session, t.conn, first, second);
      if n < |inbox| {
        NextInInbox(session, inbox, n);
        SealAppends(session.sha, session.receive, inbox[..n], inbox[n]);
        assert inbox[..n] + [inbox[n]] == inbox[..n + 1];
      } else {
        SealedNothing(session.sha, session.receive, at);
        NothingNeedsMore(session.sha, session.receive, at);
      }
    }
  }

  /** Past the first `n` frames of what the server sealed, the rest of it as sealed there. */
  lemma {:induction false} FrontOfInbox(session: Session, inbox: seq<Message>, n: nat)
    requires n <= |inbox| && session.input == SealAll(session.sha, session.receive, 0, inbox)
    ensures SealedSize(inbox[..n]) <= |session.input|
    ensures session.input[SealedSize(inbox[..n])..]
      == SealAll(session.sha, session.receive, SealedSize(inbox[..n]), inbox[n..])
  {
    hide SealAll, SealedSize;
    assert inbox == inbox[..n] + inbox[n..];
    SealSplits(session.sha, session.receive, inbox[..n], inbox[n..]);
    SealedLength(session.sha, session.receive, 0, inbox[..n]);
  }

  lemma {:induction false} NextInInbox(session: Session, inbox: seq<Message>, n: nat)
    requires Involutive(session.receive) && n < |inbox| && Sendable(inbox[n])
    requires session.input == SealAll(session.sha, session.receive, 0, inbox)
    ensures var at := SealedSize(inbox[..n]);
      && at <= |session.input|
      && OpenNext(session.sha, session.receive, at, session.input[at..])
           == Opened(inbox[n].payload, |Frame(session.sha, inbox[n])|)
  {
    hide Involutive, SealAll, SealedSize, OpenNext, Frame;
    FrontOfInbox(session, inbox, n);
    NextOpens(session.sha, session.receive, SealedSize(inbox[..n]), inbox[n..]);
  }

  /** A receive that nothing interrupts takes the frame that opens where the client stands. */
  lemma {:induction false} WholeRecvOpens(session: Session, s: Conn, payload: seq<byte>, length: nat)
    requires s.intact && s.rx == s.taken <= |session.input|
    requires OpenNext(session.sha, session.receive, s.rx, session.input[s.taken..]) == Opened(payload, length)
    ensures var (now, r) := RecvStep(session, s, Whole, Whole);
      r == Ok(payload) && now.intact
  {
    hide OpenLen, OpenBody;
    var rest := session.input[s.taken..];
    assert rest[..4] == session.input[s.taken..s.taken + 4];
    var body := OpenLen(session.receive, s.rx, rest[..4]).value;
    assert rest[4..4 + body] == session.input[s.taken + 4..s.taken + 4 + body];
  }

  /** No transfer of the run was given up on. */
  predicate Uncut(ops: seq<Op>) {
    forall i :: 0 <= i < |ops| ==>
      match ops[i] case Send(_, fate) => fate.Whole? case Recv(first, second) => first.Whole? && second.Whole?
  }

  function Receives(ops: seq<Op>): nat {
    if ops == [] then 0
    else Receives(ops[..|ops| - 1]) + if ops[|ops| - 1].Recv? then 1 else 0
  }

  /** Nothing is lost either: uninterrupted, every receive a frame was sealed for takes it, and the connection holds. */
  lemma {:induction false} UncutRunReceives(session: Session, inbox: seq<Message>, ops: seq<Op>)
    requires Involutive(session.receive) && (forall i :: 0 <= i < |inbox| ==> Sendable(inbox[i]))
    requires session.input == SealAll(session.sha, session.receive, 0, inbox)
    requires Uncut(ops) && Receives(ops) <= |inbox|
    ensures var t := Run(session, ops);
      t.conn.intact && t.received == Payloads(inbox)[..Receives(ops)]
  {
    hide Involutive, SealAll, SealedSize, OpenNext, RecvStep, Frame;
    ClientReceivesInOrder(session, inbox, ops);
    if ops != [] {
      var init, op := ops[..|ops| - 1], ops[|ops| - 1];
      UncutRunReceives(session, inbox, init);
      ClientReceivesInOrder(session, inbox, init);
      var t, n := Run(session, init), Receives(init);
      if op.Recv? {
        assert t.conn.rx == t.conn.taken == SealedSize(inbox[..n]);
        NextInInbox(session, inbox, n);
        WholeRecvOpens(session, t.conn, inbox[n].payload, |Frame(session.sha, inbox[n])|);
      }
    }
  }

  lemma {:induction false} SealedNothing(sha: Sha, mix: Stream, at: nat)
    ensures SealAll(sha, mix, at, []) == [] && SealedSize([]) == 0
  {}

  lemma {:induction false} NextOpens(sha: Sha, mix: Stream, at: nat, messages: seq<Message>)
    requires Involutive(mix) && messages != [] && Sendable(messages[0])
    ensures OpenNext(sha, mix, at, SealAll(sha, mix, at, messages))
      == Opened(messages[0].payload, |Frame(sha, messages[0])|)
  {
    hide Involutive, SealAll, OpenNext, Frame;
    assert messages == [messages[0]] + messages[1..];
    SealPrepends(sha, mix, at, messages[0], messages[1..]);
    SealedOpens(sha, mix, at, messages[0], SealAll(sha, mix, at + |Frame(sha, messages[0])|, messages[1..]));
  }

  /** Anything but a whole, checked frame leaves the connection refusing to go on. */
  lemma {:induction false} RefusalBreaks(session: Session, s: Conn, first: Fate, second: Fate)
    ensures RecvStep(session, s, first, second).1.Err? ==> !RecvStep(session, s, first, second).0.intact
    ensures RecvStep(session, s, first, second).1.Ok? ==> s.intact
    ensures s.intact && RecvStep(session, s, first, second).1.Ok? ==> s.taken + 4 <= |session.input|
  {
    hide OpenLen, OpenBody;
  }

  /**
    Whatever the fates of its transfers, a client of a server that sealed `inbox` receives the
    front of it, in order and unaltered, and nothing else.
   */
  lemma {:induction false} ClientReceivesInOrder(session: Session, inbox: seq<Message>, ops: seq<Op>)
    requires Involutive(session.receive) && (forall i :: 0 <= i < |inbox| ==> Sendable(inbox[i]))
    requires session.input == SealAll(session.sha, session.receive, 0, inbox)
    ensures ReceivesInOrder(session, inbox, Run(session, ops))
  {
    hide Involutive, SealAll, SendStep, RecvStep;
    if ops == [] {
      assert inbox[..0] == [];
    } else {
      ClientReceivesInOrder(session, inbox, ops[..|ops| - 1]);
      var t, op := Run(session, ops[..|ops| - 1]), ops[|ops| - 1];
      match op
      case Send(m, fate) => SendLeavesReceived(session, t.conn, m, fate);
      case Recv(first, second) => RecvKeepsOrder(session, inbox, t, first, second);
    }
  }

  lemma {:induction false} SendLeavesReceived(session: Session, s: Conn, m: Message, fate: Fate)
    ensures var now := SendStep(session, s, m, fate).0;
      now.rx == s.rx && now.taken == s.taken && (now.intact ==> s.intact)
  {}

  /** A lowered flag is final: nothing is sent, taken or mended by any later transfer. */
  lemma {:induction false} BrokenStaysBroken(session: Session, ops: seq<Op>, more: seq<Op>)
    requires !Run(session, ops).conn.intact
    ensures Run(session, ops + more) == Run(session, ops)
    decreases |more|
  {
    hide OpenLen, OpenBody, Apply, Frame;
    if more == [] {
      assert ops + more == ops;
    } else {
      assert (ops + more)[..|ops + more| - 1] == ops + more[..|more| - 1];
      BrokenStaysBroken(session, ops, more[..|more| - 1]);
    }
  }

  // ---------------------------------------------------------------- the driver

  /** What a payload reads as: an answer to a query id, something else, or nothing this client models. */
  datatype Reading = Answer(id: Hash, bytes: seq<byte>) | Other | Undecodable

  predicate AnswersTo(decode: seq<byte> -> Reading, id: Hash, payload: seq<byte>) {
    payload != [] && decode(payload).Answer? && decode(payload).id == id
  }

  /** Reading on for an answer, after `i` frames of which so many did not decode. */
  function Awaited(
      session: Session, s: Conn, id: Hash, decode: seq<byte> -> Reading, fates: nat -> (Fate, Fate), i: nat,
      undecodable: nat)
      : (Conn, Result<seq<byte>>)
    requires i <= MAX_FRAMES_PER_QUERY
    decreases MAX_FRAMES_PER_QUERY - i
  {
    if i == MAX_FRAMES_PER_QUERY then (s, Err(if undecodable == MAX_FRAMES_PER_QUERY then Malformed else NoAnswer))
    else
      var (now, r) := RecvStep(session, s, fates(i).0, fates(i).1);
      if r.Err? then (now, Err(r.error))
      else if AnswersTo(decode, id, r.value) then (now, Ok(decode(r.value).bytes))
      else
        var more := if r.value != [] && decode(r.value).Undecodable? then undecodable + 1 else undecodable;
        Awaited(session, now, id, decode, fates, i + 1, more)
  }

  function Asked(
      session: Session, s: Conn, id: Hash, m: Message, decode: seq<byte> -> Reading, sending: Fate,
      fates: nat -> (Fate, Fate))
      : (Conn, Result<seq<byte>>)
  {
    var (now, r) := SendStep(session, s, m, sending);
    if r.Err? then (now, Err(r.error)) else Awaited(session, now, id, decode, fates, 0, 0)
  }

  // ---------------------------------------------------------------- queries as runs

  /** The receives a query makes while it waits. */
  function AwaitedOps(
      session: Session, s: Conn, id: Hash, decode: seq<byte> -> Reading, fates: nat -> (Fate, Fate), i: nat): seq<Op>
    requires i <= MAX_FRAMES_PER_QUERY
    decreases MAX_FRAMES_PER_QUERY - i
  {
    if i == MAX_FRAMES_PER_QUERY then []
    else
      var (now, r) := RecvStep(session, s, fates(i).0, fates(i).1);
      var here := [Recv(fates(i).0, fates(i).1)];
      if r.Err? || AnswersTo(decode, id, r.value) then here
      else here + AwaitedOps(session, now, id, decode, fates, i + 1)
  }

  /** A query: what it asks, how its send fares and how each of its receives does. */
  datatype Ask = Ask(id: Hash, message: Message, sending: Fate, fates: nat -> (Fate, Fate))

  function OpsOf(session: Session, s: Conn, decode: seq<byte> -> Reading, ask: Ask): seq<Op> {
    var (now, r) := SendStep(session, s, ask.message, ask.sending);
    [Send(ask.message, ask.sending)]
      + if r.Err? then [] else AwaitedOps(session, now, ask.id, decode, ask.fates, 0)
  }

  /** The connection after queries one after another, and the transfers they come to. */
  function AskedAll(session: Session, decode: seq<byte> -> Reading, asks: seq<Ask>): Conn {
    if asks == [] then FRESH
    else
      var s, ask := AskedAll(session, decode, asks[..|asks| - 1]), asks[|asks| - 1];
      Asked(session, s, ask.id, ask.message, decode, ask.sending, ask.fates).0
  }

  function OpsOfAll(session: Session, decode: seq<byte> -> Reading, asks: seq<Ask>): seq<Op> {
    if asks == [] then []
    else
      var init := asks[..|asks| - 1];
      OpsOfAll(session, decode, init) + OpsOf(session, AskedAll(session, decode, init), decode, asks[|asks| - 1])
  }

  lemma {:induction false} RunsOn(session: Session, ops: seq<Op>, op: Op)
    ensures Run(session, ops + [op]) == Step(session, Run(session, ops), op)
  {
    assert (ops + [op])[..|ops|] == ops;
  }

  lemma {:induction false} AwaitedIsRun(
      session: Session, ops: seq<Op>, id: Hash, decode: seq<byte> -> Reading, fates: nat -> (Fate, Fate), i: nat,
      undecodable: nat)
    requires i <= MAX_FRAMES_PER_QUERY
    ensures var t := Run(session, ops);
      var after := Run(session, ops + AwaitedOps(session, t.conn, id, decode, fates, i));
      && after.conn == Awaited(session, t.conn, id, decode, fates, i, undecodable).0
      && after.sent == t.sent
    decreases MAX_FRAMES_PER_QUERY - i
  {
    hide RecvStep, SendStep, Run;
    var s := Run(session, ops).conn;
    if i == MAX_FRAMES_PER_QUERY {
      assert ops + [] == ops;
    } else {
      var op := Recv(fates(i).0, fates(i).1);
      var (now, r) := RecvStep(session, s, fates(i).0, fates(i).1);
      RunsOn(session, ops, op);
      if r.Ok? && !AnswersTo(decode, id, r.value) {
        var more := if r.value != [] && decode(r.value).Undecodable? then undecodable + 1 else undecodable;
        AwaitedIsRun(session, ops + [op], id, decode, fates, i + 1, more);
        var rest := AwaitedOps(session, now, id, decode, fates, i + 1);
        assert ops + ([op] + rest) == ops + [op] + rest;
      }
    }
  }

  lemma {:induction false} AskedIsRun(session: Session, ops: seq<Op>, decode: seq<byte> -> Reading, ask: Ask)
    ensures var t := Run(session, ops);
      var after := Run(session, ops + OpsOf(session, t.conn, decode, ask));
      && after.conn == Asked(session, t.conn, ask.id, ask.message, decode, ask.sending, ask.fates).0
      && after.sent
         == (if SendStep(session, t.conn, ask.message, ask.sending).1.Ok? then t.sent + [ask.message] else t.sent)
  {
    hide RecvStep, SendStep, Run, Awaited, AwaitedOps;
    var s, op := Run(session, ops).conn, Send(ask.message, ask.sending);
    var (now, r) := SendStep(session, s, ask.message, ask.sending);
    RunsOn(session, ops, op);
    if r.Err? {
      assert ops + ([op] + []) == ops + [op];
    } else {
      AwaitedIsRun(session, ops + [op], ask.id, decode, ask.fates, 0, 0);
      var rest := AwaitedOps(session, now, ask.id, decode, ask.fates, 0);
      assert ops + ([op] + rest) == ops + [op] + rest;
    }
  }

  /** The queries that are not refused for their size. */
  function SendableOf(asks: seq<Ask>): seq<Message> {
    if asks == [] then []
    else
      var init, last := SendableOf(asks[..|asks| - 1]), asks[|asks| - 1].message;
      if Sendable(last) then init + [last] else init
  }

  /** A query that leaves the flag up was sent, or refused for its size alone. */
  lemma {:induction false} AskedIsSent(session: Session, s: Conn, decode: seq<byte> -> Reading, ask: Ask)
    requires Asked(session, s, ask.id, ask.message, decode, ask.sending, ask.fates).0.intact
    ensures s.intact && (SendStep(session, s, ask.message, ask.sending).1.Ok? <==> Sendable(ask.message))
  {
    hide Awaited, Apply, Frame;
  }

  /**
    Any sequence of queries is a run of sends and receives, so what holds of every run holds of
    it; while the flag is up, the messages that run sent are the queries.
   */
  lemma {:induction false} QueriesAreARun(session: Session, decode: seq<byte> -> Reading, asks: seq<Ask>)
    ensures var t := Run(session, OpsOfAll(session, decode, asks));
      && t.conn == AskedAll(session, decode, asks)
      && (t.conn.intact ==> t.sent == SendableOf(asks))
  {
    hide OpsOf, Asked, SendStep;
    if asks != [] {
      var init, ask := asks[..|asks| - 1], asks[|asks| - 1];
      QueriesAreARun(session, decode, init);
      AskedIsRun(session, OpsOfAll(session, decode, init), decode, ask);
      if AskedAll(session, decode, asks).intact { AskedIsSent(session, AskedAll(session, decode, init), decode, ask); }
    }
  }

  /**
    What that gives for queries, however their transfers fared: while the flag is up the counters
    match the bytes moved and the server reads exactly the queries, in order.
   */
  lemma {:induction false} QueriesStayInStep(session: Session, decode: seq<byte> -> Reading, asks: seq<Ask>)
    requires Involutive(session.send) && AskedAll(session, decode, asks).intact
    ensures var c := AskedAll(session, decode, asks);
      && c.tx == |c.sent| && c.rx == c.taken <= |session.input|
      && OpenAll(session.sha, session.send, 0, c.sent) == Payloads(SendableOf(asks))
  {
    hide Run, OpsOfAll, AskedAll, OpenAll, Involutive;
    var ops := OpsOfAll(session, decode, asks);
    QueriesAreARun(session, decode, asks);
    CountersMatch(session, ops);
    ServerReadsWhatWasSent(session, ops);
  }

  /** The client stands before the `n`th frame of what the server sealed. */
  ghost predicate Stands(session: Session, inbox: seq<Message>, n: nat, s: Conn) {
    n <= |inbox| && s.intact && s.rx == s.taken == SealedSize(inbox[..n])
  }

  lemma {:induction false} StandsOn(session: Session, inbox: seq<Message>, n: nat, s: Conn)
    requires Involutive(session.receive) && n < |inbox| && Sendable(inbox[n]) && Stands(session, inbox, n, s)
    requires session.input == SealAll(session.sha, session.receive, 0, inbox)
    ensures var (now, r) := RecvStep(session, s, Whole, Whole);
      r == Ok(inbox[n].payload) && Stands(session, inbox, n + 1, now)
  {
    hide Involutive, SealAll, SealedSize, OpenNext, RecvStep, Frame;
    NextInInbox(session, inbox, n);
    WholeRecvOpens(session, s, inbox[n].payload, |Frame(session.sha, inbox[n])|);
    RecvOpensNext(session, s, Whole, Whole);
    SealAppends(session.sha, session.receive, inbox[..n], inbox[n]);
    assert inbox[..n] + [inbox[n]] == inbox[..n + 1];
  }

  /** An answer sealed within the frames a query reads is found, whatever comes before it, and it is the first. */
  lemma {:induction false} AnswerIsFound(
      session: Session, inbox: seq<Message>, n: nat, s: Conn, id: Hash, decode: seq<byte> -> Reading,
      fates: nat -> (Fate, Fate), i: nat, undecodable: nat, j: nat)
    requires Involutive(session.receive) && (forall k :: 0 <= k < |inbox| ==> Sendable(inbox[k]))
    requires session.input == SealAll(session.sha, session.receive, 0, inbox)
    requires n <= j < |inbox| && Stands(session, inbox, n, s) && i + (j - n) < MAX_FRAMES_PER_QUERY
    requires forall k: nat :: fates(k) == (Whole, Whole)
    requires AnswersTo(decode, id, inbox[j].payload) && forall k :: n <= k < j ==>
      !AnswersTo(decode, id, inbox[k].payload)
    ensures Awaited(session, s, id, decode, fates, i, undecodable).1 == Ok(decode(inbox[j].payload).bytes)
    decreases j - n
  {
    hide Involutive, SealAll, Stands, RecvStep;
    StandsOn(session, inbox, n, s);
    assert fates(i) == (Whole, Whole);
    if n < j {
      var (now, r) := RecvStep(session, s, Whole, Whole);
      var more := if r.value != [] && decode(r.value).Undecodable? then undecodable + 1 else undecodable;
      assert !AnswersTo(decode, id, inbox[n].payload);
      AnswerIsFound(session, inbox, n + 1, now, id, decode, fates, i + 1, more, j);
    }
  }

  predicate Unreadable(decode: seq<byte> -> Reading, payload: seq<byte>) {
    payload != [] && decode(payload).Undecodable?
  }

  /** How many of these frames decode as nothing. */
  function UnreadableIn(decode: seq<byte> -> Reading, frames: seq<Message>): (r: nat)
    ensures r <= |frames|
    ensures r == |frames| <==> forall k :: 0 <= k < |frames| ==> Unreadable(decode, frames[k].payload)
  {
    if frames == [] then 0
    else (if Unreadable(decode, frames[0].payload) then 1 else 0) + UnreadableIn(decode, frames[1..])
  }

  lemma {:induction false} NoneAnswers(
      session: Session, inbox: seq<Message>, n: nat, s: Conn, id: Hash, decode: seq<byte> -> Reading,
      fates: nat -> (Fate, Fate), i: nat, undecodable: nat)
    requires Involutive(session.receive) && (forall k :: 0 <= k < |inbox| ==> Sendable(inbox[k]))
    requires session.input == SealAll(session.sha, session.receive, 0, inbox)
    requires i <= MAX_FRAMES_PER_QUERY && n + (MAX_FRAMES_PER_QUERY - i) <= |inbox| && Stands(session, inbox, n, s)
    requires forall k: nat :: fates(k) == (Whole, Whole)
    requires forall k :: n <= k < n + (MAX_FRAMES_PER_QUERY - i) ==> !AnswersTo(decode, id, inbox[k].payload)
    ensures var ahead := inbox[n..n + (MAX_FRAMES_PER_QUERY - i)];
      Awaited(session, s, id, decode, fates, i, undecodable).1
      == Err(if undecodable + UnreadableIn(decode, ahead) == MAX_FRAMES_PER_QUERY then Malformed else NoAnswer)
    decreases MAX_FRAMES_PER_QUERY - i
  {
    hide Involutive, SealAll, Stands, RecvStep;
    if i < MAX_FRAMES_PER_QUERY {
      StandsOn(session, inbox, n, s);
      assert fates(i) == (Whole, Whole);
      var (now, r) := RecvStep(session, s, Whole, Whole);
      var more := if r.value != [] && decode(r.value).Undecodable? then undecodable + 1 else undecodable;
      assert !AnswersTo(decode, id, inbox[n].payload);
      NoneAnswers(session, inbox, n + 1, now, id, decode, fates, i + 1, more);
      var ahead := inbox[n..n + (MAX_FRAMES_PER_QUERY - i)];
      assert ahead[0] == inbox[n] && ahead[1..] == inbox[n + 1..n + 1 + (MAX_FRAMES_PER_QUERY - (i + 1))];
    }
  }

  /**
    A query that reads its eight frames and finds no answer says so, and says that it understood
    nothing exactly when it understood none of the eight.
   */
  lemma {:induction false} UnansweredQuery(
      session: Session, inbox: seq<Message>, n: nat, s: Conn, id: Hash, decode: seq<byte> -> Reading,
      fates: nat -> (Fate, Fate))
    requires Involutive(session.receive) && (forall k :: 0 <= k < |inbox| ==> Sendable(inbox[k]))
    requires session.input == SealAll(session.sha, session.receive, 0, inbox)
    requires n + 8 <= |inbox| && Stands(session, inbox, n, s) && forall k: nat :: fates(k) == (Whole, Whole)
    requires forall k :: n <= k < n + 8 ==> !AnswersTo(decode, id, inbox[k].payload)
    ensures Awaited(session, s, id, decode, fates, 0, 0).1
      == Err(if forall k :: n <= k < n + 8 ==> Unreadable(decode, inbox[k].payload) then Malformed else NoAnswer)
  {
    hide Involutive, SealAll, Stands, Awaited, AnswersTo, Unreadable;
    NoneAnswers(session, inbox, n, s, id, decode, fates, 0, 0);
    var ahead := inbox[n..n + 8];
    assert forall k :: 0 <= k < 8 ==> ahead[k] == inbox[n + k];
    if forall k :: 0 <= k < |ahead| ==> Unreadable(decode, ahead[k].payload) {
      assert forall k :: n <= k < n + 8 ==> inbox[k] == ahead[k - n];
    }
  }

  /** The two keystreams of a session, each advanced by every byte it mixes. */
  class SessionCiphers {
    const sha: Sha
    const send: Stream
    const receive: Stream
    var tx: nat
    var rx: nat

    constructor (session: Session)
      ensures sha == session.sha && send == session.send && receive == session.receive && tx == 0 && rx == 0
    {
      sha, send, receive, tx, rx := session.sha, session.send, session.receive, 0, 0;
    }

    /** Seals one frame. A payload too large for one is refused before the keystream moves. */
    method Seal(m: Message) returns (r: Result<seq<byte>>)
      modifies this`tx
      ensures !Sendable(m) ==> r == Err(PayloadTooLarge) && tx == old(tx)
      ensures Sendable(m) ==> r == Ok(Apply(send, old(tx), Frame(sha, m))) && tx == old(tx) + |Frame(sha, m)|
    {
      if |m.payload| + MIN_FRAME > MAX_FRAME { return Err(PayloadTooLarge); }
      var frame := Frame(sha, m);
      var wire := Apply(send, tx, frame);
      tx := tx + |frame|;
      return Ok(wire);
    }

    method OpenLength(prefix: seq<byte>) returns (r: Result<nat>)
      requires |prefix| == 4
      modifies this`rx
      ensures r == OpenLen(receive, old(rx), prefix) && rx == old(rx) + 4
    {
      r := OpenLen(receive, rx, prefix);
      rx := rx + 4;
    }

    method OpenPayload(body: seq<byte>) returns (r: Result<seq<byte>>)
      modifies this`rx
      ensures r == OpenBody(sha, receive, old(rx), body) && rx == old(rx) + if |body| < MIN_FRAME then 0 else |body|
    {
      if |body| < MIN_FRAME { return Err(Truncated); }
      r := OpenBody(sha, receive, rx, body);
      rx := rx + |body|;
    }
  }

  class AdnlConnection {
    const session: Session
    const ciphers: SessionCiphers
    var intact: bool
    var sent: seq<byte>
    var taken: nat

    ghost predicate Valid() {
      ciphers.sha == session.sha && ciphers.send == session.send && ciphers.receive == session.receive
    }

    function State(): Conn
      reads this, ciphers
    {
      Conn(ciphers.tx, ciphers.rx, intact, sent, taken)
    }

    constructor (session: Session)
      ensures Valid() && this.session == session && fresh(ciphers) && State() == FRESH
    {
      this.session := session;
      ciphers := new SessionCiphers(session);
      intact, sent, taken := true, [], 0;
    }

    /** Sends one frame. The flag is down while the write is under way, so a write given up on leaves it down. */
    method Send(m: Message, fate: Fate) returns (r: Result<()>)
      requires Valid()
      modifies this, ciphers
      ensures (State(), r) == SendStep(session, old(State()), m, fate)
      ensures !Sendable(m) ==> State() == old(State()) && r.Err?
    {
      hide Apply, Frame;
      if !intact { return Err(Desynchronized); }
      var sealed := ciphers.Seal(m);
      if sealed.Err? { return Err(sealed.error); }
      var frame := sealed.value;
      intact := false;
      sent := sent + frame[..Moved(fate, |frame|)];
      if fate.Cut? { return Err(Transport); }
      intact := true;
      return Ok(());
    }

    /** Receives one frame. The flag is down from before the prefix is read until the checksum matched. */
    method Recv(first: Fate, second: Fate) returns (r: Result<seq<byte>>)
      requires Valid()
      modifies this, ciphers
      ensures (State(), r) == RecvStep(session, old(State()), first, second)
    {
      hide OpenLen, OpenBody;
      if !intact { return Err(Desynchronized); }
      intact := false;
      if !Arrives(session, State(), 4, first) {
        taken := Short(session, State(), 4, first).taken;
        return Err(Transport);
      }
      var prefix := session.input[taken..taken + 4];
      taken := taken + 4;
      var length := ciphers.OpenLength(prefix);
      if length.Err? { return Err(length.error); }
      if !Arrives(session, State(), length.value, second) {
        taken := Short(session, State(), length.value, second).taken;
        return Err(Transport);
      }
      var body := session.input[taken..taken + length.value];
      taken := taken + length.value;
      var payload := ciphers.OpenPayload(body);
      if payload.Err? { return Err(payload.error); }
      intact := true;
      return Ok(payload.value);
    }

    /**
      Sends a query and reads frames until one answers it. Empty frames, other messages and
      frames of unknown kinds are passed over; no more than the bound is read; and only a frame
      answering this very id is ever returned.
     */
    method Query(id: Hash, m: Message, decode: seq<byte> -> Reading, sending: Fate, fates: nat -> (Fate, Fate))
        returns (r: Result<seq<byte>>, ghost read: seq<seq<byte>>)
      requires Valid()
      modifies this, ciphers
      ensures |read| <= MAX_FRAMES_PER_QUERY
      ensures r.Ok? ==>
        intact && read != [] && read[|read| - 1] != [] && decode(read[|read| - 1]) == Answer(id, r.value)
      ensures r == Err(NoAnswer) || r == Err(Malformed) ==>
        intact && |read| == MAX_FRAMES_PER_QUERY && Silent(decode, id, read)
      ensures r == Err(Malformed) ==> forall i :: 0 <= i < |read| ==> read[i] != [] && decode(read[i]).Undecodable?
      ensures old(!intact) ==> r == Err(Desynchronized) && State() == old(State())
      ensures (State(), r) == Asked(session, old(State()), id, m, decode, sending, fates)
    {
      hide SendStep, RecvStep;
      read := [];
      var outcome := Send(m, sending);
      SendSettles(session, old(State()), m, sending);
      if outcome.Err? { return Err(outcome.error), read; }
      var undecodable := 0;
      ghost var after := State();
      for i := 0 to MAX_FRAMES_PER_QUERY
        invariant intact && |read| == i && Silent(decode, id, read) && undecodable <= i
        invariant Awaited(session, after, id, decode, fates, 0, 0)
          == Awaited(session, State(), id, decode, fates, i, undecodable)
        invariant undecodable == i ==> forall k :: 0 <= k < i ==> read[k] != [] && decode(read[k]).Undecodable?
      {
        ghost var before := State();
        var frame := Recv(fates(i).0, fates(i).1);
        RecvSettles(session, before, fates(i).0, fates(i).1);
        if frame.Err? { return Err(frame.error), read; }
        var payload := frame.value;
        read := read + [payload];
        if payload == [] { continue; }
        match decode(payload)
        case Answer(answered, bytes) => if answered == id { return Ok(bytes), read; }
        case Other =>
        case Undecodable => undecodable := undecodable + 1;
      }
      if undecodable == MAX_FRAMES_PER_QUERY { return Err(Malformed), read; }
      return Err(NoAnswer), read;
    }
  }

  /** None of these frames answers the query. */
  ghost predicate Silent(decode: seq<byte> -> Reading, id: Hash, frames: seq<seq<byte>>) {
    forall i :: 0 <= i < |frames| && frames[i] != [] && decode(frames[i]).Answer? ==> decode(frames[i]).id != id
  }

  lemma {:induction false} SendSettles(session: Session, s: Conn, m: Message, fate: Fate)
    ensures var (now, r) := SendStep(session, s, m, fate);
      && (r.Ok? ==> now.intact) && (!s.intact ==> now == s && r == Err(Desynchronized))
      && r != Err(NoAnswer) && r != Err(Malformed)
  {}

  lemma {:induction false} RecvSettles(session: Session, s: Conn, first: Fate, second: Fate)
    ensures var (now, r) := RecvStep(session, s, first, second);
      (r.Ok? ==> now.intact) && r != Err(NoAnswer) && r != Err(Malformed)
  {}
}

/**
  The framing of the plain TCP sessions: a four-byte big-endian length, a type byte, and for
  ordinary messages the body. `Parse` says what a whole byte stream means to a receiver.
 */
module TcpFraming {
  import opened Bytes

  type Message = seq<Byte>

  const HEADER_SIZE := 5
  const NORMAL: Byte := 0
  const PING: Byte := 1
  const PONG: Byte := 2
  const MAX_BODY_LENGTH := 10 * 1024 * 1024
  const TWO32 := 0x1_0000_0000

  datatype Frame = Normal(message: Message) | Ping | Pong

  /** The length is cut to 32 bits before it is put in network order. */
  function Header(length: nat, kind: Byte): (h: seq<Byte>)
    ensures |h| == HEADER_SIZE
  {
    var n := length % TWO32;
    [n / 0x100 / 0x100 / 0x100, n / 0x100 / 0x100 % 0x100, n / 0x100 % 0x100, n % 0x100, kind]
  }

  function LengthOf(h: seq<Byte>): Uint32
    requires |h| == HEADER_SIZE
  {
    var b0: int, b1: int, b2: int := h[0], h[1], h[2];
    ((b0 * 0x100 + b1) * 0x100 + b2) * 0x100 + h[3]
  }

  lemma HeaderRoundTrip(length: nat, kind: Byte)
    ensures LengthOf(Header(length, kind)) == length % TWO32 && Header(length, kind)[4] == kind
  {}

  function FrameBytes(f: Frame): seq<Byte> {
    match f
    case Normal(m) => Header(|m|, NORMAL) + m
    case Ping => Header(0, PING)
    case Pong => Header(0, PONG)
  }

  function Wire(fs: seq<Frame>): seq<Byte> {
    if fs == [] then [] else FrameBytes(fs[0]) + Wire(fs[1..])
  }

  function Messages(fs: seq<Frame>): seq<Message> {
    if fs == [] then [] else (if fs[0].Normal? then [fs[0].message] else []) + Messages(fs[1..])
  }

  function Pings(fs: seq<Frame>): nat {
    if fs == [] then 0 else (if fs[0].Ping? then 1 else 0) + Pings(fs[1..])
  }

  function Pongs(fs: seq<Frame>): nat {
    if fs == [] then 0 else (if fs[0].Pong? then 1 else 0) + Pongs(fs[1..])
  }

  // ---------------------------------------------------------------- what a stream means

  /** Messages delivered, pings to answer, bytes of a frame still incomplete, and whether the receiver gave up. */
  datatype Outcome = Outcome(messages: seq<Message>, pings: nat, rest: seq<Byte>, closed: bool)

  function Then(messages: seq<Message>, pings: nat, later: Outcome): Outcome {
    Outcome(messages + later.messages, pings + later.pings, later.rest, later.closed)
  }

  function Waiting(bytes: seq<Byte>): Outcome { Outcome([], 0, bytes, false) }

  const REFUSED := Outcome([], 0, [], true)

  /** What the receiver does with the first frame of a stream: wait for more of it, give up, or take `used` bytes. */
  datatype Next = More | GiveUp | Took(messages: seq<Message>, pings: nat, used: nat)

  function NextFrame(bytes: seq<Byte>): (r: Next)
    ensures r.Took? ==> 0 < r.used <= |bytes|
  {
    if |bytes| < HEADER_SIZE then More
    else
      var length, kind := LengthOf(bytes[..HEADER_SIZE]), bytes[4];
      if length > MAX_BODY_LENGTH then GiveUp
      else if kind == NORMAL then
        if |bytes| < HEADER_SIZE + length then More
        else Took([bytes[HEADER_SIZE..HEADER_SIZE + length]], 0, HEADER_SIZE + length)
      else if kind == PING then Took([], 1, HEADER_SIZE)
      else if kind == PONG then Took([], 0, HEADER_SIZE)
      else GiveUp
  }

  function Parse(bytes: seq<Byte>): Outcome {
    match NextFrame(bytes)
    case More => Waiting(bytes)
    case GiveUp => REFUSED
    case Took(messages, pings, used) => Then(messages, pings, Parse(bytes[used..]))
  }

  lemma ParseIncomplete(held: seq<Byte>)
    requires NextFrame(held) == More
    ensures Parse(held) == Waiting(held)
  {}

  lemma NextAppend(a: seq<Byte>, b: seq<Byte>)
    requires NextFrame(a) != More
    ensures NextFrame(a + b) == NextFrame(a)
  {
    hide LengthOf;
    assert (a + b)[..HEADER_SIZE] == a[..HEADER_SIZE];
    var n := HEADER_SIZE + LengthOf(a[..HEADER_SIZE]);
    if |a| >= n { assert (a + b)[HEADER_SIZE..n] == a[HEADER_SIZE..n]; }
  }

  /** Parsing can be resumed: only the bytes of the unfinished frame have to be kept. */
  lemma {:induction false} ParseAppend(a: seq<Byte>, b: seq<Byte>)
    ensures Parse(a).closed ==> Parse(a + b) == Parse(a)
    ensures !Parse(a).closed ==> Parse(a + b) == Then(Parse(a).messages, Parse(a).pings, Parse(Parse(a).rest + b))
    ensures !Parse(a).closed ==> NextFrame(Parse(a).rest) == More
    decreases |a|
  {
    hide NextFrame;
    match NextFrame(a)
    case More =>
    case GiveUp => NextAppend(a, b);
    case Took(messages, _, used) =>
      NextAppend(a, b);
      assert (a + b)[used..] == a[used..] + b;
      ParseAppend(a[used..], b);
      var later := Parse(Parse(a).rest + b).messages;
      assert messages + (Parse(a[used..]).messages + later) == messages + Parse(a[used..]).messages + later;
  }

  /** More bytes never take back a delivered message. */
  lemma ParseGrows(a: seq<Byte>, b: seq<Byte>)
    requires a <= b
    ensures Parse(a).messages <= Parse(b).messages && Parse(a).pings <= Parse(b).pings
  {
    ParseAppend(a, b[|a|..]);
    assert a + b[|a|..] == b;
  }

  // ---------------------------------------------------------------- sending and receiving

  predicate Fits(f: Frame) { f.Normal? ==> |f.message| <= MAX_BODY_LENGTH }

  lemma NextOfFrame(f: Frame, later: seq<Byte>)
    requires Fits(f)
    ensures NextFrame(FrameBytes(f) + later)
      == Took(if f.Normal? then [f.message] else [], if f.Ping? then 1 else 0, |FrameBytes(f)|)
  {
    hide Header, LengthOf;
    var length := if f.Normal? then |f.message| else 0;
    var kind := match f case Normal(_) => NORMAL case Ping => PING case Pong => PONG;
    var bytes := FrameBytes(f) + later;
    HeaderRoundTrip(length, kind);
    assert bytes[..HEADER_SIZE] == Header(length, kind);
    if f.Normal? { assert bytes[HEADER_SIZE..HEADER_SIZE + length] == f.message; }
  }

  lemma ParseFrame(f: Frame, later: seq<Byte>)
    requires Fits(f)
    ensures Parse(FrameBytes(f) + later)
      == Then(if f.Normal? then [f.message] else [], if f.Ping? then 1 else 0, Parse(later))
  {
    hide NextFrame, FrameBytes;
    NextOfFrame(f, later);
    assert (FrameBytes(f) + later)[|FrameBytes(f)|..] == later;
  }

  /** A stream of frames that fit delivers exactly their messages, in order, whatever pings and pongs lie between. */
  lemma {:induction false} ParseWire(fs: seq<Frame>, later: seq<Byte>)
    requires forall f :: f in fs ==> Fits(f)
    ensures Parse(Wire(fs) + later) == Then(Messages(fs), Pings(fs), Parse(later))
    decreases |fs|
  {
    hide FrameBytes, Parse;
    if fs == [] {
      assert Wire(fs) + later == later;
    } else {
      ParseWire(fs[1..], later);
      ParseFrame(fs[0], Wire(fs[1..]) + later);
      assert Wire(fs) + later == FrameBytes(fs[0]) + (Wire(fs[1..]) + later);
      assert Messages(fs) + Parse(later).messages
        == (if fs[0].Normal? then [fs[0].message] else []) + (Messages(fs[1..]) + Parse(later).messages);
    }
  }

  /** A frame that does not fit is refused, or read as a message of another length. */
  lemma OversizeIsNotDelivered(m: Message, later: seq<Byte>)
    requires |m| > MAX_BODY_LENGTH
    ensures var got := Parse(FrameBytes(Normal(m)) + later).messages; got == [] || got[0] != m
  {
    hide Header, LengthOf;
    var bytes := FrameBytes(Normal(m)) + later;
    HeaderRoundTrip(|m|, NORMAL);
    assert bytes[..HEADER_SIZE] == Header(|m|, NORMAL);
  }

  /**
    Messages in equals messages out exactly when no message is longer than the receiver allows; lengths are
    unbounded here, and the 32-bit length field wraps.
   */
  lemma {:induction false} DeliveredIff(fs: seq<Frame>)
    ensures Parse(Wire(fs)).messages == Messages(fs) <==> (forall f :: f in fs ==> Fits(f))
    decreases |fs|
  {
    hide FrameBytes, Parse;
    if forall f :: f in fs ==> Fits(f) {
      ParseWire(fs, []);
      assert Wire(fs) + [] == Wire(fs);
      ParseNothing();
    } else if Fits(fs[0]) {
      DeliveredIff(fs[1..]);
      ParseFrame(fs[0], Wire(fs[1..]));
      assert fs == [fs[0]] + fs[1..];
      var first := if fs[0].Normal? then [fs[0].message] else [];
      var got, sent := Parse(Wire(fs[1..])).messages, Messages(fs[1..]);
      SameTail(first, got, sent);
    } else {
      OversizeIsNotDelivered(fs[0].message, Wire(fs[1..]));
    }
  }

  lemma {:induction false} MessageOfFrame(fs: seq<Frame>, f: Frame)
    requires f in fs && f.Normal?
    ensures f.message in Messages(fs)
    decreases |fs|
  {
    if f != fs[0] { MessageOfFrame(fs[1..], f); }
  }

  lemma SameTail<T>(first: seq<T>, a: seq<T>, b: seq<T>)
    ensures first + a == first + b <==> a == b
  {
    assert (first + a)[|first|..] == a && (first + b)[|first|..] == b;
  }

  lemma ParseNothing()
    ensures Parse([]) == Waiting([])
  {}

  lemma {:induction false} WireAppend(fs: seq<Frame>, f: Frame)
    ensures Messages(fs + [f]) == Messages(fs) + (if f.Normal? then [f.message] else [])
    ensures Wire(fs + [f]) == Wire(fs) + FrameBytes(f)
    ensures Pings(fs + [f]) == Pings(fs) + (if f.Ping? then 1 else 0)
    ensures Pongs(fs + [f]) == Pongs(fs) + (if f.Pong? then 1 else 0)
    decreases |fs|
  {
    hide FrameBytes;
    if fs != [] {
      assert (fs + [f])[1..] == fs[1..] + [f];
      WireAppend(fs[1..], f);
    }
  }

  // ---------------------------------------------------------------- pings that announce a payload

  /** The length of a PING or PONG is checked against the limit, and then not used: the next byte starts a new header. */
  lemma ControlIgnoresLength(n: nat, kind: Byte, after: seq<Byte>)
    requires n <= MAX_BODY_LENGTH && (kind == PING || kind == PONG)
    ensures Parse(Header(n, kind) + after) == Then([], if kind == PING then 1 else 0, Parse(after))
  {
    hide Header, LengthOf;
    HeaderRoundTrip(n, kind);
    var bytes := Header(n, kind) + after;
    assert bytes[..HEADER_SIZE] == Header(n, kind) && bytes[HEADER_SIZE..] == after;
  }

  /** So a payload is read as frames of its own: whatever message it spells is delivered. */
  lemma PayloadTakenForFrame(m: Message, kind: Byte, rest: seq<Byte>)
    requires HEADER_SIZE + |m| <= MAX_BODY_LENGTH && (kind == PING || kind == PONG)
    ensures var payload := FrameBytes(Normal(m));
      Parse(Header(|payload|, kind) + (payload + rest)).messages == [m] + Parse(rest).messages
  {
    hide Parse, Header;
    var payload := FrameBytes(Normal(m));
    ControlIgnoresLength(|payload|, kind, payload + rest);
    ParseFrame(Normal(m), rest);
  }

  /** A PING or PONG that announces `n` bytes is skipped with all of them exactly when there are none. */
  lemma PayloadSkippedIff(n: nat, kind: Byte)
    requires n <= MAX_BODY_LENGTH && (kind == PING || kind == PONG)
    ensures (forall p: seq<Byte>, rest: seq<Byte> :: |p| == n ==>
               Parse(Header(n, kind) + (p + rest)) == Then([], if kind == PING then 1 else 0, Parse(rest)))
      <==> n == 0
  {
    hide Header, Parse;
    var pings := if kind == PING then 1 else 0;
    if n == 0 {
      forall p: seq<Byte>, rest: seq<Byte> | |p| == n
        ensures Parse(Header(n, kind) + (p + rest)) == Then([], pings, Parse(rest))
      {
        ControlIgnoresLength(n, kind, rest);
        assert p + rest == rest;
      }
    } else {
      var p: seq<Byte> := seq(n, _ => 0xFF);
      PayloadMatters(n, kind, p);
    }
  }

  lemma PayloadMatters(n: nat, kind: Byte, p: seq<Byte>)
    requires 0 < n == |p| <= MAX_BODY_LENGTH && (kind == PING || kind == PONG)
    requires forall i :: 0 <= i < |p| ==> p[i] == 0xFF
    ensures Parse(Header(n, kind) + (p + [])) != Then([], if kind == PING then 1 else 0, Parse([]))
  {
    hide Parse, Header;
    ControlIgnoresLength(n, kind, p + []);
    assert p + [] == p;
    ParseNothing();
    OnesAreNotNothing(p);
  }

  lemma OnesAreNotNothing(p: seq<Byte>)
    requires p != [] && forall i :: 0 <= i < |p| ==> p[i] == 0xFF
    ensures Parse(p).rest != [] || Parse(p).closed
  {
    if |p| >= HEADER_SIZE { assert LengthOf(p[..HEADER_SIZE]) == 0xFFFF_FFFF; }
  }

  // ---------------------------------------------------------------- the bytes themselves

  /** Every frame, byte by byte: the length in four bytes, the most significant first, and the type byte. */
  lemma FramesAreBytes(m: Message, b3: Byte, b2: Byte, b1: Byte, b0: Byte)
    ensures |m| == 0x100_0000 * b3 + 0x1_0000 * b2 + 0x100 * b1 + b0 ==> FrameBytes(Normal(m)) == [b3, b2, b1, b0, 0] + m
    ensures FrameBytes(Ping) == [0, 0, 0, 0, 1] && FrameBytes(Pong) == [0, 0, 0, 0, 2]
  {
    BigEndian(b3, b2, b1, b0, 0);
  }

  lemma LowByte(m: nat, b: Byte)
    ensures (0x100 * m + b) / 0x100 == m && (0x100 * m + b) % 0x100 == b
  {}

  lemma BigEndian(b3: Byte, b2: Byte, b1: Byte, b0: Byte, kind: Byte)
    ensures Header(0x100_0000 * b3 + 0x1_0000 * b2 + 0x100 * b1 + b0, kind) == [b3, b2, b1, b0, kind]
    ensures LengthOf([b3, b2, b1, b0, kind]) == 0x100_0000 * b3 + 0x1_0000 * b2 + 0x100 * b1 + b0
  {
    var n3: nat := b3;
    var n2 := 0x100 * n3 + b2;
    var n1 := 0x100 * n2 + b1;
    var n := 0x100 * n1 + b0;
    LowByte(n3, b2);
    LowByte(n2, b1);
    LowByte(n1, b0);
    assert n < TWO32 && n % TWO32 == n;
    assert Header(n, kind) == [n3, n2 % 0x100, n1 % 0x100, n % 0x100, kind];
  }

  /** A header ends the connection exactly when it announces more than 10 MiB or has a type byte above 2. */
  lemma GivesUpIff(b3: Byte, b2: Byte, b1: Byte, b0: Byte, kind: Byte, after: seq<Byte>)
    ensures NextFrame([b3, b2, b1, b0, kind] + after) == GiveUp
      <==> 0x100_0000 * b3 + 0x1_0000 * b2 + 0x100 * b1 + b0 > 10_485_760 || kind > 2
  {
    var h := [b3, b2, b1, b0, kind];
    hide LengthOf;
    BigEndian(b3, b2, b1, b0, kind);
    assert (h + after)[..HEADER_SIZE] == h;
  }

  /** Of a header within the limit, type 0 takes its body with it, types 1 and 2 take nothing more, and only type 1 is a ping. */
  lemma TypesOfFrames(b3: Byte, b2: Byte, b1: Byte, b0: Byte, body: seq<Byte>, after: seq<Byte>)
    requires |body| == 0x100_0000 * b3 + 0x1_0000 * b2 + 0x100 * b1 + b0 <= 10_485_760
    ensures NextFrame([b3, b2, b1, b0, 0] + body + after) == Took([body], 0, 5 + |body|)
    ensures NextFrame([b3, b2, b1, b0, 1] + after) == Took([], 1, 5)
    ensures NextFrame([b3, b2, b1, b0, 2] + after) == Took([], 0, 5)
    ensures forall n :: 0 <= n < 5 + |body| ==> NextFrame(([b3, b2, b1, b0, 0] + body)[..n]) == More
  {
    hide LengthOf;
    BigEndian(b3, b2, b1, b0, 0);
    BigEndian(b3, b2, b1, b0, 1);
    BigEndian(b3, b2, b1, b0, 2);
    assert ([b3, b2, b1, b0, 0] + body + after)[..HEADER_SIZE] == [b3, b2, b1, b0, 0];
    assert ([b3, b2, b1, b0, 0] + body + after)[HEADER_SIZE..HEADER_SIZE + |body|] == body;
    assert ([b3, b2, b1, b0, 1] + after)[..HEADER_SIZE] == [b3, b2, b1, b0, 1];
    assert ([b3, b2, b1, b0, 2] + after)[..HEADER_SIZE] == [b3, b2, b1, b0, 2];
    var whole := [b3, b2, b1, b0, 0] + body;
    forall n | 0 <= n < 5 + |body| ensures NextFrame(whole[..n]) == More {
      if n >= 5 { assert whole[..n][..HEADER_SIZE] == [b3, b2, b1, b0, 0]; }
    }
  }
}

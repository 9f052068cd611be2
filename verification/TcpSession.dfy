/**
  One plain TCP session: the incremental reader with its header array and its reused body
  buffer, and the send queue. Completion handlers are methods; the socket hands over bytes in
  chunks of any size and takes whole frames.
 */
module TcpSession {
  import opened Bytes
  import opened TcpFraming

  const MAX_SEND_QUEUE_SIZE := 1024

  /** The read that is outstanding. */
  datatype Phase = ReadingHeader | ReadingBody(length: nat) | Stopped

  /** The frames handed to the socket carry the accepted messages in order, and the rest is still queued. */
  predicate QueueInv(open: bool, writing: bool, queue: seq<Message>, output: seq<Frame>, accepted: seq<Message>) {
    && |queue| <= MAX_SEND_QUEUE_SIZE
    && (writing ==> queue != [])
    && Messages(output) <= accepted
    && (open ==> (writing <==> queue != []))
    && (open ==> accepted == Messages(output) + (if queue == [] then [] else queue[1..]))
  }

  /** A message joins the queue, and goes out at once if nothing was queued. */
  lemma QueueAdd(open: bool, writing: bool, queue: seq<Message>, output: seq<Frame>, accepted: seq<Message>, m: Message)
    requires QueueInv(open, writing, queue, output, accepted) && |queue| < MAX_SEND_QUEUE_SIZE
    ensures QueueInv(open, writing || queue == [], queue + [m],
                     if queue == [] && open then output + [Normal(m)] else output, accepted + [m])
  {
    hide Messages;
    WireAppend(output, Normal(m));
    if queue != [] {
      assert (queue + [m])[1..] == queue[1..] + [m];
    } else {
      assert (queue + [m])[1..] == [];
    }
  }

  /** The message in flight leaves the queue, and the next one goes out. */
  lemma QueueRemove(open: bool, queue: seq<Message>, output: seq<Frame>, accepted: seq<Message>)
    requires QueueInv(open, true, queue, output, accepted)
    ensures var rest := queue[1..];
      QueueInv(open, rest != [], rest, if rest != [] && open then output + [Normal(rest[0])] else output, accepted)
  {
    hide Messages;
    var rest := queue[1..];
    if open && rest != [] {
      WireAppend(output, Normal(rest[0]));
      Regroup(Messages(output), rest);
    }
  }

  lemma Regroup(front: seq<Message>, rest: seq<Message>)
    requires rest != []
    ensures front + rest == (front + [rest[0]]) + rest[1..]
  {}

  lemma QueueFront(open: bool, writing: bool, queue: seq<Message>, output: seq<Frame>, accepted: seq<Message>)
    requires QueueInv(open, writing, queue, output, accepted)
    ensures writing ==> queue != []
  {}

  lemma QueueHeartbeat(open: bool, writing: bool, queue: seq<Message>, output: seq<Frame>, accepted: seq<Message>, f: Frame)
    requires QueueInv(open, writing, queue, output, accepted) && !f.Normal?
    ensures QueueInv(open, writing, queue, output + [f], accepted)
  {
    WireAppend(output, f);
  }

  /** Closing leaves what was handed to the socket a prefix of what was accepted; a failed write ends writing. */
  lemma QueueClose(open: bool, writing: bool, queue: seq<Message>, output: seq<Frame>, accepted: seq<Message>, w: bool)
    requires QueueInv(open, writing, queue, output, accepted) && (w ==> writing)
    ensures QueueInv(false, w, queue, output, accepted)
  {}

  class TCPSession {
    const header: array<Byte>
    var bodyBuffer: array<Byte>
    var phase: Phase
    var got: nat
    var open: bool
    var sendQueue: seq<Message>
    var writing: bool
    // calls of the message handler, of `send_heartbeat(PONG)` and of the close callback; frames handed to the socket
    var delivered: seq<Message>
    var pongsSent: nat
    var closeCalls: nat
    var output: seq<Frame>
    // every byte read so far, and every message the queue took
    ghost var received: seq<Byte>
    ghost var accepted: seq<Message>

    /** The bytes of the unfinished frame, as they lie in the two buffers. */
    function Held(): seq<Byte>
      requires phase.ReadingHeader? ==> got <= header.Length
      requires phase.ReadingBody? ==> got <= bodyBuffer.Length
      reads this`phase, this`got, this`bodyBuffer, header, bodyBuffer
    {
      match phase
      case ReadingHeader => header[..got]
      case ReadingBody(_) => header[..] + bodyBuffer[..got]
      case Stopped => []
    }

    ghost predicate BuffersOk()
      reads this`phase, this`got, this`bodyBuffer, header, bodyBuffer
    {
      && header.Length == HEADER_SIZE && bodyBuffer != header
      && (phase.ReadingHeader? ==> got <= HEADER_SIZE)
      && (phase.ReadingBody? ==>
            && got <= phase.length <= bodyBuffer.Length && phase.length <= MAX_BODY_LENGTH
            && LengthOf(header[..]) == phase.length && header[4] == NORMAL)
    }

    /**
      What was delivered, and what is held, is what the bytes received mean. A reader that stopped may have had the
      header of an empty message whose body it no longer read.
     */
    ghost predicate Faithful()
      requires BuffersOk()
      reads this`phase, this`got, this`bodyBuffer, this`delivered, this`pongsSent, this`received, header, bodyBuffer
    {
      if phase.Stopped? then
        && (Parse(received).messages == delivered || Parse(received).messages == delivered + [[]])
        && Parse(received).pings == pongsSent
      else Parse(received) == Then(delivered, pongsSent, Parse(Held()))
    }

    ghost predicate ReaderOk()
      reads this`phase, this`got, this`bodyBuffer, this`delivered, this`pongsSent, this`received, this`open, header, bodyBuffer
    {
      && BuffersOk() && Faithful()
      && (phase.ReadingHeader? ==> got < HEADER_SIZE)
      && (phase.ReadingBody? ==> got < phase.length)
      && (Parse(received).closed || phase.Stopped? ==> !open)
    }

    ghost predicate WriterOk()
      reads this`open, this`writing, this`sendQueue, this`output, this`accepted
    {
      QueueInv(open, writing, sendQueue, output, accepted)
    }

    /** Every ping so far was answered by one PONG frame; only a closed socket no longer takes one. */
    ghost predicate Answered()
      reads this`open, this`output, this`pongsSent
    {
      Pongs(output) <= pongsSent && (open ==> Pongs(output) == pongsSent)
    }

    ghost predicate Valid()
      reads this, header, bodyBuffer
    {
      ReaderOk() && WriterOk() && Answered() && closeCalls == (if open then 0 else 1)
    }

    constructor ()
      ensures Valid() && open && received == [] && accepted == [] && delivered == [] && output == []
      ensures phase == ReadingHeader && got == 0 && fresh(header) && fresh(bodyBuffer)
    {
      header := new Byte[HEADER_SIZE](_ => 0);
      bodyBuffer := new Byte[MAX_BODY_LENGTH](_ => 0);
      phase, got, open := ReadingHeader, 0, true;
      sendQueue, writing, output, accepted := [], false, [], [];
      delivered, pongsSent, closeCalls, received := [], 0, 0, [];
    }

    // ---------------------------------------------------------------- closing and writing

    /** `close`: only the first call closes the socket and reports it. */
    method Close()
      requires closeCalls == (if open then 0 else 1)
      modifies this`open, this`closeCalls
      ensures !open && closeCalls == 1
    {
      if open {
        open := false;
        closeCalls := closeCalls + 1;
      }
    }

    /** `do_write`: the front of the queue goes out with its header. */
    method DoWrite()
      requires sendQueue != []
      modifies this`writing, this`output
      ensures writing && output == if open then old(output) + [Normal(sendQueue[0])] else old(output)
    {
      writing := true;
      if open { output := output + [Normal(sendQueue[0])]; }
    }

    /** The handler that `send` posts: a full queue drops the message. */
    method Send(message: Message)
      requires Valid()
      modifies this`sendQueue, this`writing, this`output, this`accepted
      ensures Valid()
      ensures |old(sendQueue)| >= 1024 ==>
        sendQueue == old(sendQueue) && accepted == old(accepted) && output == old(output)
      ensures |old(sendQueue)| < 1024 ==>
        && sendQueue == old(sendQueue) + [message] && accepted == old(accepted) + [message]
        && output == if old(sendQueue) == [] && open then old(output) + [Normal(message)] else old(output)
    {
      hide ReaderOk, QueueInv, Pongs;
      WireAppend(output, Normal(message));
      if |sendQueue| >= MAX_SEND_QUEUE_SIZE { return; }
      QueueAdd(open, writing, sendQueue, output, accepted, message);
      var writeInProgress := sendQueue != [];
      sendQueue := sendQueue + [message];
      accepted := accepted + [message];
      if !writeInProgress { DoWrite(); }
    }

    /** The write in flight finished. */
    method WriteDone(ok: bool)
      requires Valid() && writing
      modifies this`sendQueue, this`writing, this`output, this`open, this`closeCalls
      ensures Valid() && accepted == old(accepted)
      ensures !ok ==> !open && sendQueue == old(sendQueue) && output == old(output)
      ensures ok ==>
        && open == old(open) && old(sendQueue) != [] && sendQueue == old(sendQueue)[1..]
        && output == if sendQueue != [] && open then old(output) + [Normal(sendQueue[0])] else old(output)
    {
      hide Parse, LengthOf, QueueInv, Pongs, Messages, Pings, Wire;
      if |sendQueue| > 1 { WireAppend(output, Normal(sendQueue[1])); }
      QueueFront(open, writing, sendQueue, output, accepted);
      writing := false;
      if !ok {
        QueueClose(open, true, sendQueue, output, accepted, false);
        Close();
        return;
      }
      QueueRemove(open, sendQueue, output, accepted);
      sendQueue := sendQueue[1..];
      if sendQueue != [] { DoWrite(); }
    }

    /** The heartbeat timer: a PING, as long as the socket is open. */
    method OnHeartbeatTimer()
      requires Valid()
      modifies this`output
      ensures Valid() && output == if open then old(output) + [Ping] else old(output)
    {
      hide ReaderOk, QueueInv, Pongs;
      WireAppend(output, Ping);
      if open { SendHeartbeat(PING); }
    }

    /** `send_heartbeat`: only PING and PONG, and past the queue. */
    method SendHeartbeat(kind: Byte)
      requires WriterOk()
      modifies this`output
      ensures WriterOk()
      ensures output == if open && (kind == PING || kind == PONG) then
        old(output) + [if kind == PING then Ping else Pong] else old(output)
    {
      hide QueueInv;
      if kind != PING && kind != PONG { return; }
      QueueHeartbeat(open, writing, sendQueue, output, accepted, if kind == PING then Ping else Pong);
      if open { output := output + [if kind == PING then Ping else Pong]; }
    }

    // ---------------------------------------------------------------- reading

    /** `do_read_header`: on a closed socket the read fails at once. */
    method DoReadHeader()
      requires header.Length == HEADER_SIZE && bodyBuffer != header
      modifies this`phase, this`got
      ensures phase == if open then ReadingHeader else Stopped
      ensures BuffersOk() && got == 0 && Held() == []
    {
      phase, got := if open then ReadingHeader else Stopped, 0;
    }

    /** Bytes arrive for the read that is outstanding, at most as many as it still wants. */
    method Fill(bytes: seq<Byte>)
      requires BuffersOk() && Faithful() && !phase.Stopped?
      requires NextFrame(Held()) == More
      requires |bytes| <= (if phase.ReadingHeader? then HEADER_SIZE else phase.length) - got
      modifies this`got, this`received, header, bodyBuffer
      ensures BuffersOk() && Faithful() && got == old(got) + |bytes| && received == old(received) + bytes
    {
      hide Parse, NextFrame, LengthOf;
      ghost var before := Held();
      ResumeAt(received, delivered, pongsSent, before, bytes);
      var start := got;
      if phase.ReadingHeader? {
        forall i | 0 <= i < |bytes| { header[start + i] := bytes[i]; }
        assert header[..start + |bytes|] == before + bytes;
      } else {
        forall i | 0 <= i < |bytes| { bodyBuffer[start + i] := bytes[i]; }
        assert header[..] + bodyBuffer[..start + |bytes|] == before + bytes;
        assert header[..] == old(header[..]);
      }
      got := start + |bytes|;
      received := received + bytes;
    }

    ghost predicate Between()
      reads this, header, bodyBuffer
    {
      BuffersOk() && Faithful() && WriterOk() && Answered() && closeCalls == (if open then 0 else 1)
    }

    /** The body is complete: build the message, hand it over, and read on. */
    method OnBody()
      requires Between() && phase.ReadingBody? && got == phase.length
      modifies this`phase, this`got, this`delivered
      ensures Valid() && delivered == old(delivered) + [old(bodyBuffer[..got])]
      ensures phase == if open then ReadingHeader else Stopped
    {
      hide Parse, NextFrame, LengthOf, QueueInv;
      TakeBody(received, delivered, pongsSent, header[..], bodyBuffer[..got]);
      delivered := delivered + [bodyBuffer[..phase.length]];
      DoReadHeader();
    }

    /**
      `do_read_body`: the buffer only ever grows. On a closed socket the read fails at once, on an open one the read of
      an empty body is complete at once.
     */
    method DoReadBody(length: nat)
      requires Between() && phase.ReadingHeader? && got == HEADER_SIZE
      requires length == LengthOf(header[..]) <= MAX_BODY_LENGTH && header[4] == NORMAL
      modifies this`phase, this`got, this`delivered, this`bodyBuffer
      ensures Valid() && (bodyBuffer == old(bodyBuffer) || fresh(bodyBuffer))
      ensures delivered == if open && length == 0 then old(delivered) + [[]] else old(delivered)
      ensures phase == if !open then Stopped else if length == 0 then ReadingHeader else ReadingBody(length)
    {
      hide Parse, NextFrame, LengthOf, QueueInv;
      assert header[..HEADER_SIZE] == header[..];
      AwaitBody(received, delivered, pongsSent, header[..]);
      if length > bodyBuffer.Length {
        var larger := new Byte[length](i requires 0 <= i reads this, bodyBuffer => if i < bodyBuffer.Length then bodyBuffer[i] else 0);
        bodyBuffer := larger;
      }
      got := 0;
      if !open {
        phase := Stopped;
      } else if length == 0 {
        phase := ReadingBody(0);
        assert Held() == header[..] == header[..HEADER_SIZE];
        OnBody();
      } else {
        phase := ReadingBody(length);
        assert Held() == header[..] == header[..HEADER_SIZE];
      }
    }

    /** The header is complete. A session that was closed meanwhile delivers nothing more. */
    method OnHeader()
      requires Between() && phase.ReadingHeader? && got == HEADER_SIZE
      modifies this`phase, this`got, this`delivered, this`bodyBuffer, this`pongsSent, this`output, this`open, this`closeCalls
      ensures Valid() && (bodyBuffer == old(bodyBuffer) || fresh(bodyBuffer))
      ensures !old(open) ==> phase == Stopped && delivered == old(delivered)
      ensures var length, kind := LengthOf(old(header[..])), old(header[4]);
        && open == (old(open) && length <= 10_485_760 && kind <= 2)
        && output == (if old(open) && length <= 10_485_760 && kind == 1 then old(output) + [Pong] else old(output))
    {
      hide Parse, NextFrame, LengthOf, QueueInv, Pongs, Messages, Pings, Wire;
      WireAppend(output, Pong);
      assert header[..HEADER_SIZE] == header[..];
      TakeControl(received, delivered, pongsSent, header[..]);
      var length, kind := LengthOf(header[..]), header[4];
      if length > MAX_BODY_LENGTH {
        Stop();
        return;
      }
      if kind == NORMAL {
        DoReadBody(length);
        return;
      }
      if kind == PING {
        SendHeartbeat(PONG);
        pongsSent := pongsSent + 1;
      } else if kind != PONG {
        Stop();
        return;
      }
      DoReadHeader();
    }

    method Stop()
      requires WriterOk() && closeCalls == (if open then 0 else 1)
      modifies this`phase, this`open, this`closeCalls
      ensures phase == Stopped && !open && WriterOk() && closeCalls == 1
    {
      hide QueueInv, Pongs;
      QueueClose(open, writing, sendQueue, output, accepted, writing);
      Close();
      phase := Stopped;
    }

    lemma ReaderWaits()
      requires BuffersOk() && Faithful() && !phase.Stopped?
      requires got < if phase.ReadingHeader? then HEADER_SIZE else phase.length
      ensures NextFrame(Held()) == More && !Parse(received).closed
    {
      hide LengthOf, Parse;
      if phase.ReadingBody? { assert Held()[..HEADER_SIZE] == header[..]; }
      ParseIncomplete(Held());
    }

    /** The socket delivers a chunk of any size; what a closed session had not asked for is never read. */
    method Receive(chunk: seq<Byte>)
      requires Valid()
      modifies this, header, bodyBuffer
      ensures Valid() && (bodyBuffer == old(bodyBuffer) || fresh(bodyBuffer))
      ensures old(received) <= received <= old(received) + chunk
      ensures !phase.Stopped? ==> received == old(received) + chunk
      ensures sendQueue == old(sendQueue) && accepted == old(accepted) && writing == old(writing)
      ensures old(output) <= output && forall i :: |old(output)| <= i < |output| ==> output[i] == Pong
    {
      hide Parse, NextFrame, LengthOf, QueueInv, ReaderOk, Answered;
      var pos := 0;
      while pos < |chunk| && phase != Stopped
        invariant pos <= |chunk| && Valid() && (bodyBuffer == old(bodyBuffer) || fresh(bodyBuffer))
        invariant received == old(received) + chunk[..pos]
        invariant sendQueue == old(sendQueue) && accepted == old(accepted) && writing == old(writing)
        invariant old(output) <= output && forall i :: |old(output)| <= i < |output| ==> output[i] == Pong
      {
        var n := Take(chunk[pos..]);
        assert chunk[..pos] + chunk[pos..][..n] == chunk[..pos + n];
        pos := pos + n;
      }
    }

    /** One outstanding read takes what it can of the bytes at hand; when it is satisfied its handler runs. */
    method Take(bytes: seq<Byte>) returns (used: nat)
      requires Valid() && bytes != [] && phase != Stopped
      modifies this`phase, this`got, this`delivered, this`bodyBuffer, this`pongsSent, this`output
      modifies this`open, this`closeCalls, this`received, header, bodyBuffer
      ensures Valid() && (bodyBuffer == old(bodyBuffer) || fresh(bodyBuffer))
      ensures 0 < used <= |bytes| && received == old(received) + bytes[..used]
      ensures old(phase).ReadingHeader? ==>
        used == if |bytes| < HEADER_SIZE - old(got) then |bytes| else HEADER_SIZE - old(got)
      ensures old(phase).ReadingHeader? && !old(open) ==> delivered == old(delivered)
      ensures output == old(output) || output == old(output) + [Pong]
    {
      hide Parse, NextFrame, LengthOf, QueueInv, Pongs;
      ReaderWaits();
      var wanted := (if phase.ReadingHeader? then HEADER_SIZE else phase.length) - got;
      used := if |bytes| < wanted then |bytes| else wanted;
      Fill(bytes[..used]);
      if used < wanted {
        ReaderWaits();
      } else if phase.ReadingHeader? {
        OnHeader();
      } else {
        OnBody();
      }
    }

    /** The outstanding read failed. */
    method ReadFails()
      requires Valid() && phase != Stopped
      modifies this`phase, this`open, this`closeCalls
      ensures Valid() && phase == Stopped && !open
    {
      hide NextFrame, LengthOf, QueueInv;
      ReaderWaits();
      Stop();
    }

    /** The read timer ran out, or another component closes the session; its read is still outstanding. */
    method Expire()
      requires Valid()
      modifies this`open, this`closeCalls
      ensures Valid() && !open
    {
      hide NextFrame, LengthOf, QueueInv;
      QueueClose(open, writing, sendQueue, output, accepted, writing);
      Close();
    }
  }

  /** The meaning of a longer stream, in terms of what was delivered and what is held. */
  lemma ResumeAt(received: seq<Byte>, delivered: seq<Message>, pings: nat, held: seq<Byte>, bytes: seq<Byte>)
    requires Parse(received) == Then(delivered, pings, Parse(held)) && NextFrame(held) == More
    ensures Parse(received + bytes) == Then(delivered, pings, Parse(held + bytes))
  {
    hide NextFrame, Parse;
    ParseIncomplete(held);
    ParseAppend(received, bytes);
    var later := Parse(held + bytes);
    assert delivered + [] == delivered;
  }

  lemma TakeBody(received: seq<Byte>, delivered: seq<Message>, pings: nat, h: seq<Byte>, body: seq<Byte>)
    requires Parse(received) == Then(delivered, pings, Parse(h + body))
    requires |h| == HEADER_SIZE && LengthOf(h) == |body| <= MAX_BODY_LENGTH && h[4] == NORMAL
    ensures Parse(received) == Then(delivered + [body], pings, Waiting([]))
    ensures Parse([]) == Waiting([])
  {
    hide LengthOf;
    assert (h + body)[..HEADER_SIZE] == h && (h + body)[HEADER_SIZE..HEADER_SIZE + |body|] == body;
    assert (h + body)[HEADER_SIZE + |body|..] == [];
    ParseIncomplete([]);
    assert Parse(h + body) == Then([body], 0, Waiting([]));
    assert delivered + ([body] + []) == delivered + [body];
  }

  lemma AwaitBody(received: seq<Byte>, delivered: seq<Message>, pings: nat, h: seq<Byte>)
    requires Parse(received) == Then(delivered, pings, Parse(h))
    requires |h| == HEADER_SIZE && LengthOf(h) <= MAX_BODY_LENGTH && h[4] == NORMAL
    ensures Parse(received)
      == if LengthOf(h) > 0 then Then(delivered, pings, Waiting(h)) else Then(delivered + [[]], pings, Waiting([]))
  {
    hide LengthOf;
    assert h[..HEADER_SIZE] == h;
    if LengthOf(h) == 0 {
      assert h + [] == h;
      TakeBody(received, delivered, pings, h, []);
    }
  }

  /** A complete header that is not the start of a message. */
  lemma TakeControl(received: seq<Byte>, delivered: seq<Message>, pings: nat, h: seq<Byte>)
    requires Parse(received) == Then(delivered, pings, Parse(h)) && |h| == HEADER_SIZE
    ensures Parse([]) == Waiting([])
    ensures LengthOf(h) <= MAX_BODY_LENGTH && h[4] == PING ==> Parse(received) == Then(delivered, pings + 1, Waiting([]))
    ensures LengthOf(h) <= MAX_BODY_LENGTH && h[4] == PONG ==> Parse(received) == Then(delivered, pings, Waiting([]))
    ensures LengthOf(h) > MAX_BODY_LENGTH || h[4] !in {NORMAL, PING, PONG} ==> Parse(received) == Then(delivered, pings, REFUSED)
  {
    hide LengthOf;
    assert h[..HEADER_SIZE] == h && h[HEADER_SIZE..] == [];
    ParseIncomplete([]);
  }

  /**
    End to end: `b` has read some prefix of the bytes of `a`'s frames, in chunks of any size. What it delivered is a
    prefix of what `a`'s queue accepted, and is all of it once the whole stream has arrived and the queue is empty;
    only a receiver that was closed meanwhile may lack one last message, and only an empty one. An open receiver has
    answered every PING with one PONG.
   */
  lemma Delivery(a: TCPSession, b: TCPSession)
    requires a.Valid() && b.Valid() && b.received <= Wire(a.output)
    requires forall m :: m in a.accepted ==> |m| <= MAX_BODY_LENGTH
    ensures b.delivered <= a.accepted
    ensures b.received == Wire(a.output) ==>
      && (b.delivered == Messages(a.output) || (!b.open && b.delivered + [[]] == Messages(a.output)))
      && b.pongsSent == Pings(a.output)
    ensures b.received == Wire(a.output) ==>
      Pongs(b.output) <= Pings(a.output) && (b.open ==> Pongs(b.output) == Pings(a.output))
    ensures b.received == Wire(a.output) && a.open && a.sendQueue == [] ==>
      b.delivered == a.accepted || (!b.open && b.delivered + [[]] == a.accepted)
  {
    hide LengthOf, NextFrame, Parse, FrameBytes;
    forall f | f in a.output ensures Fits(f) {
      if f.Normal? { MessageOfFrame(a.output, f); }
    }
    ParseWire(a.output, []);
    ParseNothing();
    assert Wire(a.output) + [] == Wire(a.output);
    ParseGrows(b.received, Wire(a.output));
    Delivered(b);
    assert b.delivered <= Parse(b.received).messages <= Messages(a.output) + [] == Messages(a.output);
  }

  /** What a session delivered, read off the bytes it received; all of it, as long as it is open. */
  lemma Delivered(b: TCPSession)
    requires b.Valid()
    ensures var o := Parse(b.received);
      && (b.delivered == o.messages || (!b.open && b.delivered + [[]] == o.messages))
      && b.pongsSent == o.pings
  {
    hide LengthOf, NextFrame, Parse;
    if b.phase != Stopped {
      b.ReaderWaits();
      ParseIncomplete(b.Held());
    }
  }

  /**
    Such a receiver exists: closed while it waits for a header, it is then handed the header of an empty message, the
    only frame there is, and does not deliver it.
   */
  method EmptyMessageUndelivered() returns (b: TCPSession)
    ensures b.Valid() && b.received == Wire([Normal([])]) && Messages([Normal([])]) == [[]] && b.delivered == []
  {
    hide Header, Parse, NextFrame, LengthOf, QueueInv;
    var h := Header(0, NORMAL);
    var frames := [Normal([])];
    assert FrameBytes(frames[0]) == h + [] == h && frames[1..] == [];
    assert Wire(frames) == h + [] == h && Messages(frames) == [[]] + Messages([]);
    b := new TCPSession();
    b.Expire();
    var used := b.Take(h);
    assert [] + h[..HEADER_SIZE] == h;
  }
}

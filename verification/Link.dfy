/** A connection, down to its bytes: a sender's queue, the bytes on the wire and a receiver that
    may hold half a frame.  Seen from outside it is the channel of whole frames that the pipeline
    is proved over. */
module Link {
  import opened ByteOrder
  import opened Framing
  import P = Pipeline

  /** The bytes taken are the frames removed and the started part of the head. */
  lemma WireIs(s: Sender)
    requires s.Faithful() && s.OnlyHead()
    ensures s.wire == Stream(s.left) + s.Started()
  {
    hide Stream, Encode, Rest, Commute;
    NoneLeft();
    var x: Bytes, y: Bytes := [], [];
    if s.queue != [] { x, y := HeadStarted(s.queue); }
    StreamAppend(s.left, Payloads(s.queue));
    Moved(s.wire, Stream(s.left), x, y, []);
  }

  lemma {:induction false} StreamLonger(fs: seq<Payload>, gs: seq<Payload>)
    requires fs <= gs
    ensures |Stream(fs)| <= |Stream(gs)|
  {
    StreamAppend(fs, gs[|fs|..]);
    assert gs == fs + gs[|fs|..];
  }

  /** While the head is not wholly out, every frame that has arrived is one that has left. */
  lemma ArrivedHasLeft(s: Sender, r: Receiver)
    requires s.Faithful() && s.OnlyHead() && (s.queue != [] ==> s.queue[0].off < |s.queue[0].payload| + 4)
    requires r.Valid() && r.consumed <= s.wire
    ensures r.Taken() <= s.left
  {
    hide Stream, Encode, Rest;
    FramesArrive(s, r);
    WireIs(s);
    TakenApart(r);
    if |r.Taken()| > |s.left| {
      var h := s.queue[0].payload;
      StreamSnoc(s.left, h);
      assert s.left + [h] == s.All()[..|s.left| + 1];
      assert s.left + [h] <= r.Taken();
      StreamLonger(s.left + [h], r.Taken());
      assert false;
    }
  }

  /** A receiver that has not finished a frame can go on. */
  lemma CanGoOn(s: Sender, r: Receiver)
    requires s.Faithful() && r.Valid() && !r.Complete() && r.consumed <= s.wire
    ensures r.hasBuffer ==> |r.body| < Int32(r.raw)
  {
    hide Stream, Encode, Rest;
    if r.off >= 4 {
      assert s.wire <= Stream(s.All());
      assert r.Part()[..4] == r.raw;
      LengthIsReal(r.received, r.Part(), s.All());
    }
  }

  /** The packets as bytes. */
  ghost function Coded(code: P.Packet -> Payload, ps: seq<P.Packet>): seq<Payload> {
    seq(|ps|, i requires 0 <= i < |ps| => code(ps[i]))
  }

  lemma CodedHead(code: P.Packet -> Payload, ps: seq<P.Packet>)
    ensures |Coded(code, ps)| == |ps|
    ensures ps != [] ==> Coded(code, ps[1..]) == Coded(code, ps)[1..] && Coded(code, ps)[0] == code(ps[0])
  {
  }

  lemma CodedSnoc(code: P.Packet -> Payload, ps: seq<P.Packet>, qs: seq<P.Packet>)
    ensures qs != [] ==> Coded(code, ps + [qs[0]]) == Coded(code, ps) + [code(qs[0])]
  {
  }

  lemma CodedFront(code: P.Packet -> Payload, p: P.Packet, ps: seq<P.Packet>)
    ensures Coded(code, [p] + ps) == [code(p)] + Coded(code, ps)
  {
  }

  lemma CommuteNothing(f: Payload)
    ensures Commute([], Encode(f))
  {
  }

  lemma PrefixAfter(c: Bytes, r: Bytes, l: Bytes, b: Bytes, w: Bytes)
    requires r <= l + b && c + l + b <= w
    ensures c + r <= w
  {
    assert c + l + b == c + (l + b);
  }

  /** The step that a send takes. */
  ghost function SendOf(b: Buffer, header: Io, body: Io): P.Step
    requires b.off <= |b.payload| + 4
  {
    OutIff(b, header, body);
    if TakesAll(b, header, body) then P.CSendHead else P.CSendPart(AfterSend(b, header, body) - b.off)
  }

  class Link {
    const sender: Sender
    const receiver: Receiver

    ghost predicate Valid()
      reads sender, receiver
    {
      && sender.Faithful() && sender.OnlyHead()
      && (sender.queue != [] ==> sender.queue[0].off < |sender.queue[0].payload| + 4)
      && receiver.Valid() && !receiver.Complete() && receiver.consumed <= sender.wire
      && receiver.received <= sender.left
    }

    /** The frames still queued, the head perhaps half sent. */
    ghost function Queued(): seq<Payload>
      reads sender
    {
      Payloads(sender.queue)
    }

    /** The frames that have left the queue and not arrived whole. */
    ghost function InFlight(): seq<Payload>
      requires Valid()
      reads sender, receiver
    {
      sender.left[|receiver.received|..]
    }

    /** This link is the way from the client to the server of s. */
    ghost predicate Carries(code: P.Packet -> Payload, s: P.Sys)
      reads sender, receiver
    {
      && Valid() && Queued() == Coded(code, s.c.toSend) && InFlight() == Coded(code, s.c2s)
      && s.c.headSent == if sender.queue == [] then 0 else sender.queue[0].off
    }

    /** This link is the way back from the server of s, whose queue is part of the wire there. */
    ghost predicate CarriesBack(code: P.Packet -> Payload, s: P.Sys)
      reads sender, receiver
    {
      Valid() && InFlight() + Queued() == Coded(code, s.s2c)
    }

    constructor ()
      ensures Valid() && Queued() == InFlight() == [] && fresh(sender) && fresh(receiver)
    {
      sender := new Sender();
      receiver := new Receiver();
    }

    /** The connection is gone, with the queue and all that was under way. */
    method Reset()
      modifies sender, receiver
      ensures Valid() && Queued() == InFlight() == [] && sender.queue == []
    {
      sender.Forget();
      receiver.Restart();
    }

    /** A new connection on which a first frame is under way; the queue waits behind it. */
    method Prime(f: Payload)
      requires Unsent(sender.queue)
      modifies sender, receiver
      ensures Valid() && Queued() == old(Queued()) && InFlight() == [f] && sender.queue == old(sender.queue)
    {
      sender.Reconnect(f);
      receiver.Restart();
    }

    /** A frame is put in front of an unsent queue. */
    method PushFront(f: Payload)
      requires Valid() && Unsent(sender.queue)
      modifies sender
      ensures Valid() && Queued() == [f] + old(Queued()) && InFlight() == old(InFlight()) && Unsent(sender.queue)
    {
      hide Stream, Encode, Rest;
      CommuteNothing(f);
      assert sender.Started() == [];
      sender.QueueFront(f);
    }

    /** A frame is queued. */
    method Push(f: Payload)
      requires Valid()
      modifies sender
      ensures Valid() && Queued() == old(Queued()) + [f] && InFlight() == old(InFlight())
      ensures sender.queue == old(sender.queue) + [Buffer(f, 0)]
    {
      hide Stream, Encode, Rest;
      sender.Queue(f);
    }

    /** One `send_buffer`: the head stays, or it leaves the queue and is in flight. */
    method Send(header: Io, body: Io) returns (rc: int)
      requires Valid() && sender.queue != []
      modifies sender
      ensures Valid() && rc in {-1, 0, 1}
      ensures rc == 1 ==> Queued() == old(Queued())[1..] && InFlight() == old(InFlight()) + [old(Queued())[0]]
      ensures rc == 1 ==> sender.queue == old(sender.queue)[1..] && Unsent(sender.queue)
      ensures rc != 1 ==> Queued() == old(Queued()) && InFlight() == old(InFlight())
      ensures rc != 1 ==> sender.queue == [Touched(old(sender.queue[0]), header, body)] + old(sender.queue)[1..]
      ensures rc == Result(old(sender.queue[0]), header, body)
    {
      hide Stream, Encode, Rest;
      ghost var q, h := sender.queue, sender.queue[0].payload;
      rc := sender.SendBuffer(header, body);
      if rc == 1 {
        sender.RemoveSent();
        assert Payloads(q) == [h] + Payloads(q[1..]);
        assert sender.queue != [] ==> sender.queue[0] == q[1..][0];
      } else {
        assert Payloads(sender.queue) == Payloads(q);
      }
    }

    /** One `recv_buffer` with bytes that are on the wire: nothing changes, or the oldest frame in
        flight has arrived. */
    method Receive(header: In, rest: In) returns (got: bool, rc: int)
      requires Valid()
      requires receiver.consumed + LengthBytes(receiver.off, header) + BytesOf(rest) <= sender.wire
      modifies receiver
      ensures Valid() && (got <==> rc == 1) && rc in {-1, 0, 1}
      ensures got ==> old(InFlight()) != [] && InFlight() == old(InFlight())[1..]
      ensures receiver.consumed == old(receiver.consumed) + old(receiver.Reads(header, rest))
      ensures rc == -1 <==> old(receiver.Fails(header, rest))
      ensures got ==> receiver.received == old(receiver.received) + [old(InFlight())[0]]
      ensures !got ==> InFlight() == old(InFlight()) && receiver.received == old(receiver.received)
    {
      hide Stream, Encode, Rest, Receiver.Part, Receiver.Reads, Receiver.Fails, LengthBytes, BytesOf;
      CanGoOn(sender, receiver);
      ghost var was := receiver.received;
      receiver.ReadsAtMost(header, rest);
      PrefixAfter(receiver.consumed, receiver.Reads(header, rest), LengthBytes(receiver.off, header), BytesOf(rest), sender.wire);
      rc := receiver.RecvBuffer(header, rest);
      got := rc == 1;
      ArrivedHasLeft(sender, receiver);
      if got {
        receiver.QueueReceived();
        assert was + [receiver.received[|was|]] == receiver.received;
      }
    }

    /** What has been sent and read is not in flight. */
    lemma NothingInFlight()
      requires Valid() && receiver.consumed == sender.wire && (sender.queue != [] ==> sender.queue[0].off == 0)
      ensures InFlight() == [] && receiver.off == 0
    {
      hide Encode, Rest;
      WireIs(sender);
      TakenApart(receiver);
      assert sender.Started() == [];
      if receiver.off >= 4 { CanGoOn(sender, receiver); LengthHere(); }
      ReadInOneWay(receiver.received, receiver.Part(), sender.left);
    }

    lemma LengthHere()
      requires Valid() && receiver.off >= 4
      ensures receiver.Part()[..4] == receiver.raw && receiver.hasBuffer
    {
      hide Stream, Encode, Rest;
      assert receiver.Part()[..4] == receiver.raw;
      LengthIsReal(receiver.received, receiver.Part(), sender.All());
    }

    // ------------------------------------------------ the steps of the pipeline, on bytes

    /** `send_buffer` is the step that sends a part of the head, or the step that sends its end. */
    method SendStep(header: Io, body: Io, ghost code: P.Packet -> Payload, ghost s: P.Sys)
      returns (rc: int, ghost t: P.Step)
      requires Carries(code, s) && s.c.state == P.Connected && sender.queue != []
      modifies sender
      ensures P.Enabled(s, t) && rc in {-1, 0, 1}
      ensures rc == Result(old(sender.queue[0]), header, body) && t == SendOf(old(sender.queue[0]), header, body)
      ensures Carries(code, P.Apply(s, t))
    {
      hide Link.Valid, Coded;
      ghost var was := sender.queue[0].off;
      CodedHead(code, s.c.toSend);
      CodedSnoc(code, s.c2s, s.c.toSend);
      rc := Send(header, body);
      t := if rc == 1 then P.CSendHead else P.CSendPart(sender.queue[0].off - was);
    }

    // ------------------------------------------------------ other changes of a wire, on bytes

    /** A packet is queued for the server. */
    method PushPacket(p: P.Packet, code: P.Packet -> Payload, ghost s: P.Sys, ghost s': P.Sys)
      requires Carries(code, s)
      requires s'.c.toSend == s.c.toSend + [p] && s'.c2s == s.c2s && s'.c.headSent == s.c.headSent
      modifies sender
      ensures Carries(code, s')
    {
      hide Link.Valid, Coded;
      CodedSnoc(code, s.c.toSend, [p]);
      QueueOfCoded(code, s);
      Push(code(p));
    }

    lemma QueueOfCoded(code: P.Packet -> Payload, s: P.Sys)
      requires Carries(code, s)
      ensures |sender.queue| == |s.c.toSend| && (s.c.headSent == 0 ==> Unsent(sender.queue))
    {
      assert |Queued()| == |sender.queue|;
    }

    lemma HeadOff(code: P.Packet -> Payload, s: P.Sys)
      requires Carries(code, s)
      ensures s.c.headSent == if sender.queue == [] then 0 else sender.queue[0].off
    {
    }

    /** A packet is put in front for the server, the head being unsent. */
    method PushPacketFront(p: P.Packet, code: P.Packet -> Payload, ghost s: P.Sys, ghost s': P.Sys)
      requires Carries(code, s) && s.c.headSent == 0
      requires s'.c.toSend == [p] + s.c.toSend && s'.c2s == s.c2s && s'.c.headSent == 0
      modifies sender
      ensures Carries(code, s')
    {
      hide Link.Valid, Coded;
      QueueOfCoded(code, s);
      CodedFront(code, p, s.c.toSend);
      PushFront(code(p));
    }

    /** The server queues a packet for the client. */
    method PushReply(p: P.Packet, code: P.Packet -> Payload, ghost s: P.Sys, ghost s': P.Sys)
      requires CarriesBack(code, s) && s'.s2c == s.s2c + [p]
      modifies sender
      ensures CarriesBack(code, s')
    {
      hide Link.Valid, Coded;
      CodedSnoc(code, s.s2c, [p]);
      ghost var f, q := InFlight(), Queued();
      Push(code(p));
      assert f + (q + [code(p)]) == f + q + [code(p)];
    }

    /** The server's `send`: the wire back as a whole stays as it is. */
    method SendReply(header: Io, body: Io, ghost code: P.Packet -> Payload, ghost s: P.Sys) returns (rc: int)
      requires CarriesBack(code, s) && sender.queue != []
      modifies sender
      ensures CarriesBack(code, s) && rc in {-1, 0, 1}
      ensures rc == Result(old(sender.queue[0]), header, body)
    {
      hide Link.Valid, Coded;
      ghost var f, q := InFlight(), Queued();
      QueuedNotEmpty();
      rc := Send(header, body);
      assert q == [q[0]] + q[1..];
      assert f + [q[0]] + q[1..] == f + q;
    }

    lemma QueuedNotEmpty()
      requires sender.queue != []
      ensures Queued() != []
    {
      assert |Queued()| == |sender.queue|;
    }

    /** The server's `recv`: nothing, or the oldest packet under way. */
    method TakePacket(header: In, rest: In, ghost code: P.Packet -> Payload, ghost s: P.Sys, ghost s': P.Sys) returns (got: bool)
      requires Carries(code, s)
      requires s.c2s != [] ==> s'.c2s == s.c2s[1..] && s'.c.toSend == s.c.toSend && s'.c.headSent == s.c.headSent
      requires receiver.consumed + LengthBytes(receiver.off, header) + BytesOf(rest) <= sender.wire
      modifies receiver
      ensures receiver.consumed == old(receiver.consumed) + old(receiver.Reads(header, rest))
      ensures got ==> s.c2s != [] && Carries(code, s') && receiver.received == old(receiver.received) + [code(s.c2s[0])]
      ensures !got ==> Carries(code, s)
    {
      var rc;
      hide Link.Valid, Coded;
      CodedHead(code, s.c2s);
      got, rc := Receive(header, rest);
    }

    /** The client's `recv_buffer`: nothing, or the oldest packet on the wire back. */
    method TakeReply(header: In, rest: In, ghost code: P.Packet -> Payload, ghost s: P.Sys) returns (got: bool, rc: int)
      requires CarriesBack(code, s)
      requires receiver.consumed + LengthBytes(receiver.off, header) + BytesOf(rest) <= sender.wire
      modifies receiver
      ensures (got <==> rc == 1) && rc in {-1, 0, 1} && (rc == -1 <==> old(receiver.Fails(header, rest)))
      ensures receiver.consumed == old(receiver.consumed) + old(receiver.Reads(header, rest))
      ensures got ==> s.s2c != [] && receiver.received == old(receiver.received) + [code(s.s2c[0])]
      ensures got ==> Valid() && InFlight() + Queued() == Coded(code, s.s2c[1..])
      ensures !got ==> CarriesBack(code, s)
    {
      hide Link.Valid, Coded;
      CodedHead(code, s.s2c);
      got, rc := Receive(header, rest);
      assert got ==> (old(InFlight()) + Queued())[1..] == old(InFlight())[1..] + Queued();
    }
  }
}

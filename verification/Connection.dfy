/** The whole way of a request, on bytes: the client's handle with its linked lists, two links and a
    server that answers in order.  Whatever the sockets do, what happens is a run of the pipeline. */
module Connection {
  import opened Common
  import opened ByteOrder
  import opened Framing
  import opened Link
  import opened ZHandle
  import P = Pipeline
  import S = PipelineSafety
  import O = PipelineOutcomes
  import Jute

  /** What is coded can be decoded again, by a reader who knows whether a connect response is due. */
  ghost predicate Inverse(code: P.Packet -> Payload, decode: (bool, Payload) -> P.Packet) {
    forall p: P.Packet :: decode(p.Handshake?, code(p)) == p
  }

  /** Such a code: the headers as the protocol writes them. */
  function HeaderOf(p: P.Packet): Payload {
    match p
    case Frame(xid, zxid, err) => Jute.EncodeInt(xid) + Jute.EncodeLong(zxid) + Jute.EncodeInt(err)
    case Handshake(session) => Jute.EncodeLong(session)
  }

  function ReadHeader(handshake: bool, f: Payload): P.Packet {
    if handshake && |f| == 8 then P.Handshake(Jute.DecodeLong(f))
    else if |f| == 16 then P.Frame(Jute.DecodeInt(f[..4]), Jute.DecodeLong(f[4..12]), Jute.DecodeInt(f[12..]))
    else P.Frame(0, 0, 0)
  }

  /** The length of a frame is written like any int. */
  lemma LengthIsInt(n: nat)
    requires n < INT_LIMIT
    ensures Be32(n) == Jute.EncodeInt(n)
  {
    Jute.IntOnWire(n, Be32(n));
    assert Jute.DecodeInt(Be32(n)) == n;
  }

  lemma HeadersComeBack()
    ensures Inverse(HeaderOf, ReadHeader)
  {
    hide Jute.EncodeInt, Jute.EncodeLong, Jute.DecodeInt, Jute.DecodeLong;
    forall p: P.Packet ensures ReadHeader(p.Handshake?, HeaderOf(p)) == p {
      match p
      case Frame(xid, zxid, err) =>
        var f := HeaderOf(p);
        assert f[..4] == Jute.EncodeInt(xid) && f[4..12] == Jute.EncodeLong(zxid) && f[12..] == Jute.EncodeInt(err);
        Jute.IntRoundTrip(xid);
        Jute.LongRoundTrip(zxid);
        Jute.IntRoundTrip(err);
      case Handshake(session) =>
        Jute.LongRoundTrip(session);
    }
  }

  lemma Gone(s: P.Sys, rc: int32)
    requires P.Enabled(s, P.CError(rc))
    ensures P.Apply(s, P.CError(rc)) == P.Sys(P.HandleError(s.c, rc), false, [], [], [])
    ensures P.HandleError(s.c, rc).toSend == [] && P.HandleError(s.c, rc).headSent == 0
  {
    S.HandleErrorFrame(s.c, rc);
  }

  lemma SentSys(s: P.Sys, t: P.Step)
    requires P.Enabled(s, t) && (t.CSendHead? || t.CSendPart?)
    ensures var s' := P.Apply(s, t);
      && s'.greeted == s.greeted && s'.pending == s.pending && s'.s2c == s.s2c
      && s'.c == (if t.CSendHead? then s.c.(toSend := s.c.toSend[1..], headSent := 0) else s.c.(headSent := s.c.headSent + t.n))
  {
  }

  /** What a received packet changes, by how it ends. */
  lemma ReceivedSys(s: P.Sys, w: bool, a: nat)
    requires P.Enabled(s, P.CReceive(w, a))
    ensures var s', p := P.Apply(s, P.CReceive(w, a)), s.s2c[0];
      && s'.c == P.Receive(s.c, p, w, a)
      && (!s'.c.open ==> s' == P.Sys(s'.c, false, [], [], []) && s'.c.toSend == [] && s'.c.headSent == 0)
      && (s'.c.open ==> s' == s.(c := s'.c, s2c := s.s2c[1..]) && s'.c.headSent == s.c.headSent)
      && (s'.c.open ==> s'.c.toSend == if s.c.primer then P.Preamble(w, a) + s.c.toSend else s.c.toSend)
  {
    S.HandleErrorFrame(s.c.(state := P.Expired), P.ZSESSIONEXPIRED);
  }

  lemma ProcessedSys(s: P.Sys)
    requires P.Enabled(s, P.CProcess) && s.c.open
    ensures var s' := P.Apply(s, P.CProcess);
      && s'.c == P.ProcessReply(s.c)
      && (!s'.c.open ==> s' == P.Sys(s'.c, false, [], [], []) && s'.c.toSend == [] && s'.c.headSent == 0)
      && (s'.c.open ==> s' == s.(c := s'.c) && s'.c.headSent == s.c.headSent && s'.c.toSend == s.c.toSend)
  {
    var c := s.c;
    var hdr := c.toProcess[0];
    var c1 := c.(toProcess := c.toProcess[1..], lastZxid := if hdr.zxid > 0 then hdr.zxid else c.lastZxid);
    S.HandleErrorFrame(c1.(state := P.AuthFailed), P.ZAUTHFAILED);
    S.HandleErrorFrame(c1, P.ZRUNTIMEINCONSISTENCY);
  }

  /** The reader knows from the state of the session what comes next. */
  lemma NextKnown(s: P.Sys)
    requires S.Inv(s)
    ensures s.c.open && s.s2c != [] ==> (s.c.primer <==> s.s2c[0].Handshake?)
    ensures s.c2s != [] ==> (!s.greeted <==> s.c2s[0].Handshake?)
    ensures s.pending != [] ==> s.pending[0].Frame?
    ensures s.c.toProcess != [] ==> s.c.toProcess[0].Frame? && s.c.open && !P.Unrecoverable(s.c.state)
    ensures s.c.primer && s.c.open ==> s.c.headSent == 0
  {
    if s.s2c != [] { assert s.s2c[0] in s.s2c; }
    if s.c2s != [] { assert s.c2s[0] in s.c2s; }
    if s.pending != [] { assert s.pending[0] in s.pending; }
    if s.c.toProcess != [] { assert s.c.toProcess[0] in s.c.toProcess; }
  }

  class Connection {
    const code: P.Packet -> Payload
    const decode: (bool, Payload) -> P.Packet    // told whether a connect response is due
    const client: Handle
    const up: Link
    const down: Link
    var greeted: bool
    var pending: seq<P.Packet>                   // what the server has taken and not answered
    ghost var sys: P.Sys
    ghost var steps: seq<P.Step>

    ghost function Footprint(): set<object>
      reads client.toSend, client.sent, client.toProcess, client.completions
    {
      {this, up.sender, up.receiver, down.sender, down.receiver} + client.Footprint()
    }

    /** Nothing is shared. */
    ghost predicate Separate()
      reads client.toSend, client.sent, client.toProcess, client.completions
    {
      && client.Footprint() !! {this, up.sender, up.receiver, down.sender, down.receiver}
      && up.sender != down.sender && up.receiver != down.receiver
    }

    /** The bytes and lists stand for the state s of the pipeline. */
    ghost predicate StandsFor(s: P.Sys)
      reads this, up.sender, up.receiver, down.sender, down.receiver
      reads client, client.toSend, client.sent, client.toProcess, client.completions
    {
      && client.View() == s.c && greeted == s.greeted && pending == s.pending
      && up.Carries(code, s) && down.CarriesBack(code, s)
    }

    /** And the steps taken lead to that state. */
    ghost predicate Valid()
      reads this, up.sender, up.receiver, down.sender, down.receiver
      reads client, client.toSend, client.sent, client.toProcess, client.completions
      reads client.toSend.Repr, client.sent.Repr, client.toProcess.Repr, client.completions.Repr
    {
      client.Valid() && Separate() && Inverse(code, decode) && StandsFor(sys) && P.Run(P.INITIAL, steps, sys)
    }

    /** A new handle that has not connected yet. */
    constructor (code: P.Packet -> Payload, decode: (bool, Payload) -> P.Packet, client: Handle)
      requires Inverse(code, decode) && client.Valid() && client.View() == P.FRESH
      ensures Valid() && steps == [] && this.client == client && this.code == code && this.decode == decode
      ensures fresh(Footprint() - client.Footprint())
    {
      hide Handle.Valid, Handle.View, Link.Valid, Link.Queued, Link.InFlight, Connection.Valid, P.Run, Inverse;
      this.code, this.decode, this.client := code, decode, client;
      up := new Link();
      down := new Link();
      greeted, pending, sys, steps := false, [], P.INITIAL, [];
      new;
      Begun();
    }

    lemma Begun()
      requires client.Valid() && Separate() && client.View() == P.FRESH && !greeted && pending == []
      requires Inverse(code, decode) && sys == P.INITIAL && steps == []
      requires up.Valid() && up.Queued() == up.InFlight() == [] && down.Valid() && down.Queued() == down.InFlight() == []
      ensures Valid()
    {
      hide Link.Valid, Handle.View, Handle.Valid, Inverse;
      assert |up.Queued()| == |up.sender.queue|;
    }

    /** One more step of the pipeline has been taken. */
    ghost method Stepped(t: P.Step)
      requires client.Valid() && Separate() && Inverse(code, decode) && P.Run(P.INITIAL, steps, sys)
      requires P.Enabled(sys, t) && StandsFor(P.Apply(sys, t))
      modifies `sys, `steps
      ensures Valid() && steps == old(steps) + [t] && sys == P.Apply(old(sys), t)
    {
      hide Handle.Valid, Link.Valid, Link.Carries, Link.CarriesBack, P.Apply, P.Enabled, P.Run;
      S.RunSnoc(P.INITIAL, steps, sys, t);
      sys, steps := P.Apply(sys, t), steps + [t];
    }

    /** What every run keeps holds of the bytes and lists. */
    lemma Kept()
      requires Valid()
      ensures S.Inv(sys)
    {
      hide Handle.Valid, Link.Valid, S.Inv, P.Run;
      StartsWell();
      S.RunKeepsInv(P.INITIAL, steps, sys);
    }

    lemma StartsWell()
      ensures S.Inv(P.INITIAL)
    {
    }

    // ------------------------------------------------------------------ the client's side

    /** A call of the client, given what its test of the session has said. */
    method Submit(ok: bool, xid: int32, sync: bool)
      requires Valid() && !P.Reserved(xid) && xid != P.PING_XID
      modifies Footprint()
      ensures Valid() && fresh(Footprint() - old(Footprint()))
      ensures steps == if ok then old(steps) + [P.CSubmit(xid, sync)] else old(steps)
    {
      hide Handle.Valid, Handle.View, Link.Valid, Link.Carries, Link.CarriesBack, P.Run, Inverse;
      if !ok { return; }
      ghost var s' := P.Apply(sys, P.CSubmit(xid, sync));
      client.SubmitRequest(true, xid, sync);
      up.PushPacket(P.Frame(xid, 0, 0), code, sys, s');
      Unmoved(sys, s');
      Stepped(P.CSubmit(xid, sync));
    }

    method Ping()
      requires Valid() && client.state == P.Connected
      modifies Footprint()
      ensures Valid() && fresh(Footprint() - old(Footprint())) && steps == old(steps) + [P.CPing]
    {
      hide Handle.Valid, Link.Valid, Link.Carries, Link.CarriesBack, P.Run, Inverse;
      ghost var s' := P.Apply(sys, P.CPing);
      client.SubmitRequest(true, P.PING_XID, false);
      up.PushPacket(P.Frame(P.PING_XID, 0, 0), code, sys, s');
      Unmoved(sys, s');
      Stepped(P.CPing);
    }

    /** The wire back does not depend on what the step changed. */
    lemma Unmoved(s: P.Sys, s': P.Sys)
      requires down.CarriesBack(code, s) && s'.s2c == s.s2c
      ensures down.CarriesBack(code, s')
    {
    }

    lemma UnmovedUp(s: P.Sys, s': P.Sys)
      requires up.Carries(code, s) && s'.c2s == s.c2s && s'.c.toSend == s.c.toSend && s'.c.headSent == s.c.headSent
      ensures up.Carries(code, s')
    {
    }

    /** A connect is under way. */
    method StartConnect()
      requires Valid() && !client.open && !P.Unrecoverable(client.state)
      modifies Footprint()
      ensures Valid() && Footprint() == old(Footprint()) && steps == old(steps) + [P.CConnect]
    {
      hide Handle.Valid, Link.Valid, Link.Carries, Link.CarriesBack, P.Run, Inverse;
      ghost var s' := P.Apply(sys, P.CConnect);
      client.StartConnect();
      UnmovedUp(sys, s');
      Unmoved(sys, s');
      Stepped(P.CConnect);
    }

    /** The socket is connected and the connect request is on it; what was queued waits behind. */
    method Prime()
      requires Valid() && ((!client.open && !P.Unrecoverable(client.state)) || client.state == P.Connecting)
      modifies Footprint()
      ensures Valid() && fresh(Footprint() - old(Footprint())) && steps == old(steps) + [P.CPrime]
    {
      hide Handle.Valid, Link.Valid, Link.Carries, Link.CarriesBack, P.Run, Inverse, S.Inv;
      Kept();
      NoneStarted();
      ghost var s' := P.Apply(sys, P.CPrime);
      Renew(client.session, s');
      client.Prime();
      Stepped(P.CPrime);
    }

    /** Both links begin anew, with the connect request on the way. */
    method Renew(session: int64, ghost s': P.Sys)
      requires up.Carries(code, sys) && sys.c.headSent == 0 && up.sender != down.sender && up.receiver != down.receiver
      requires s'.c.toSend == sys.c.toSend && s'.c.headSent == 0 && s'.c2s == [P.Handshake(session)] && s'.s2c == []
      modifies `greeted, `pending, up.sender, up.receiver, down.sender, down.receiver
      ensures up.Carries(code, s') && down.CarriesBack(code, s') && !greeted && pending == []
    {
      hide Link.Valid;
      up.QueueOfCoded(code, sys);
      WaitingIs(sys);
      up.Prime(code(P.Handshake(session)));
      down.Reset();
      greeted, pending := false, [];
      Primed(session, sys, s');
    }

    lemma NoneStarted()
      requires S.Inv(sys) && (!sys.c.open || sys.c.state == P.Connecting)
      ensures sys.c.headSent == 0
    {
    }

    lemma WaitingIs(s: P.Sys)
      requires up.Carries(code, s)
      ensures Payloads(up.sender.queue) == Coded(code, s.c.toSend)
    {
    }

    lemma Primed(session: int64, s: P.Sys, s': P.Sys)
      requires up.Valid() && up.Queued() == Coded(code, s.c.toSend) && Unsent(up.sender.queue)
      requires up.InFlight() == [code(P.Handshake(session))]
      requires down.Valid() && down.Queued() == down.InFlight() == []
      requires s'.c.toSend == s.c.toSend && s'.c.headSent == 0 && s'.c2s == [P.Handshake(session)] && s'.s2c == []
      ensures up.Carries(code, s') && down.CarriesBack(code, s')
    {
      hide Link.Valid;
      assert [] + [] == Coded(code, []);
    }

    /** `zoo_add_auth`, with nothing of the head out. */
    method AddAuth()
      requires Valid() && client.headSent == 0
      modifies Footprint()
      ensures Valid() && fresh(Footprint() - old(Footprint())) && steps == old(steps) + [P.CAddAuth]
    {
      hide Handle.Valid, Link.Valid, Link.Carries, Link.CarriesBack, P.Run, Inverse;
      ghost var s' := P.Apply(sys, P.CAddAuth);
      client.AddToSend(P.Frame(P.AUTH_XID, 0, 0), true);
      up.PushPacketFront(P.Frame(P.AUTH_XID, 0, 0), code, sys, s');
      Unmoved(sys, s');
      Stepped(P.CAddAuth);
    }

    /** Any error of the socket, and any timeout: both links are gone with it. */
    method Fail(rc: int32)
      requires Valid() && (client.open || client.state == P.Closed)
      modifies Footprint()
      ensures Valid() && fresh(Footprint() - old(Footprint())) && steps == old(steps) + [P.CError(rc)]
    {
      hide Handle.Valid, Link.Valid, Link.Carries, Link.CarriesBack, P.Run, Inverse, P.HandleError, P.Apply;
      ghost var s' := P.Apply(sys, P.CError(rc));
      Gone(sys, rc);
      client.CloseOnError(rc);
      Reset(s');
      Stepped(P.CError(rc));
    }

    /** The connection is gone, with all that was on it. */
    method Reset(ghost s': P.Sys)
      requires s'.c.toSend == [] && s'.c.headSent == 0 && s'.c2s == s'.s2c == []
      requires up.sender != down.sender && up.receiver != down.receiver
      modifies `greeted, `pending, up.sender, up.receiver, down.sender, down.receiver
      ensures up.Carries(code, s') && down.CarriesBack(code, s') && !greeted && pending == []
    {
      hide Link.Valid;
      up.Reset();
      down.Reset();
      greeted, pending := false, [];
      assert [] + [] == Coded(code, s'.s2c);
    }

    /** A callback or a watcher has run. */
    method Deliver()
      requires Valid() && client.View().completions != []
      modifies Footprint()
      ensures Valid() && Footprint() == old(Footprint()) && steps == old(steps) + [P.CDeliver]
    {
      hide Handle.Valid, Link.Valid, Link.Carries, Link.CarriesBack, P.Run, Inverse;
      ghost var s' := P.Apply(sys, P.CDeliver);
      client.DeliverFirst();
      UnmovedUp(sys, s');
      Unmoved(sys, s');
      Stepped(P.CDeliver);
    }

    /** One `send_buffer` on the head.  A send that fails ends the connection. */
    method Send(header: Io, body: Io) returns (rc: int, ghost t: P.Step)
      requires Valid() && client.state == P.Connected && up.sender.queue != []
      modifies Footprint()
      ensures Valid() && fresh(Footprint() - old(Footprint())) && rc in {-1, 0, 1}
      ensures rc == Result(old(up.sender.queue[0]), header, body) && t == SendOf(old(up.sender.queue[0]), header, body)
      ensures steps == old(steps) + if rc < 0 then [t, P.CError(ZCONNECTIONLOSS)] else [t]
    {
      hide Handle.Valid, Handle.View, Link.Valid, Link.Carries, Link.CarriesBack, P.Run, P.Apply, P.Enabled, StandsFor, Inverse;
      rc, t := SendOnce(header, body);
      if rc < 0 {
        IsOpen();
        Fail(ZCONNECTIONLOSS);
      }
    }

    method SendOnce(header: Io, body: Io) returns (rc: int, ghost t: P.Step)
      requires Valid() && client.state == P.Connected && up.sender.queue != []
      modifies Footprint()
      ensures Valid() && Footprint() == old(Footprint()) && rc in {-1, 0, 1} && client.state == P.Connected
      ensures rc == Result(old(up.sender.queue[0]), header, body) && t == SendOf(old(up.sender.queue[0]), header, body)
      ensures steps == old(steps) + [t]
    {
      hide Handle.Valid, Link.Valid, Link.Carries, Link.CarriesBack, P.Run, P.Apply, Inverse;
      up.QueueOfCoded(code, sys);
      rc, t := up.SendStep(header, body, code, sys);
      ghost var s' := P.Apply(sys, t);
      SentSys(sys, t);
      up.HeadOff(code, s');
      client.HeadOut(rc == 1, if up.sender.queue == [] then 0 else up.sender.queue[0].off);
      Unmoved(sys, s');
      Stepped(t);
    }

    lemma IsOpen()
      requires Valid() && client.state == P.Connected
      ensures client.open
    {
      hide Handle.Valid, Link.Valid, P.Run;
      Kept();
      OpenHere(sys);
    }

    lemma OpenHere(s: P.Sys)
      requires S.Inv(s) && s.c.state == P.Connected
      ensures s.c.open
    {
    }

    /** One `recv_buffer` with bytes that are on the wire back, and what `check_events` does with the
        packet, if it is whole.  A receive that fails ends the connection. */
    method ClientReceive(header: In, rest: In, hasWatches: bool, auths: nat) returns (rc: int)
      requires Valid() && client.open
      requires down.receiver.consumed + LengthBytes(down.receiver.off, header) + BytesOf(rest) <= down.sender.wire
      modifies Footprint()
      ensures Valid() && fresh(Footprint() - old(Footprint())) && rc in {-1, 0, 1}
      ensures rc == -1 <==> old(down.receiver.Fails(header, rest))
      ensures rc >= 0 && client.open ==>
        down.receiver.consumed == old(down.receiver.consumed) + old(down.receiver.Reads(header, rest))
      ensures steps == old(steps) + if rc == 1 then [P.CReceive(hasWatches, auths)]
                                    else if rc < 0 then [P.CError(ZCONNECTIONLOSS)] else []
    {
      hide Handle.Valid, Link.Valid, Link.Carries, Link.CarriesBack, P.Run, P.Apply, Inverse, S.Inv;
      Kept();
      NextKnown(sys);
      var got;
      got, rc := down.TakeReply(header, rest, code, sys);
      if got {
        var f := down.receiver.received[|down.receiver.received| - 1];
        Decoded(sys.s2c[0]);
        Accept(decode(client.primer, f), hasWatches, auths);
      } else if rc < 0 {
        Fail(ZCONNECTIONLOSS);
      }
    }

    lemma Decoded(p: P.Packet)
      requires Inverse(code, decode)
      ensures decode(p.Handshake?, code(p)) == p
    {
    }

    /** `check_events` with a whole packet, which has left the wire back. */
    method Accept(p: P.Packet, hasWatches: bool, auths: nat)
      requires client.Valid() && Separate() && Inverse(code, decode) && P.Run(P.INITIAL, steps, sys) && S.Inv(sys)
      requires client.View() == sys.c && greeted == sys.greeted && pending == sys.pending && up.Carries(code, sys)
      requires sys.c.open && sys.s2c != [] && p == sys.s2c[0] && (sys.c.primer ==> p.Handshake?)
      requires down.Valid() && down.InFlight() + down.Queued() == Coded(code, sys.s2c[1..])
      modifies Footprint()
      ensures Valid() && fresh(Footprint() - old(Footprint())) && steps == old(steps) + [P.CReceive(hasWatches, auths)]
      ensures client.open ==> down.receiver.consumed == old(down.receiver.consumed)
    {
      hide Handle.Valid, Link.Valid, Link.Carries, Link.CarriesBack, P.Run, P.Apply, P.Receive, P.Preamble, Coded, Inverse, S.Inv;
      NextKnown(sys);
      ghost var s' := P.Apply(sys, P.CReceive(hasWatches, auths));
      ReceivedSys(sys, hasWatches, auths);
      var connecting := client.primer;
      client.ReceivePacket(p, hasWatches, auths);
      FollowUp(connecting, hasWatches, auths, s');
      Stepped(P.CReceive(hasWatches, auths));
    }

    /** What a received packet means for the links. */
    method FollowUp(connecting: bool, hasWatches: bool, auths: nat, ghost s': P.Sys)
      requires client.Valid() && Separate() && client.View() == s'.c
      requires up.Carries(code, sys) && greeted == sys.greeted && pending == sys.pending
      requires down.Valid() && sys.s2c != [] && down.InFlight() + down.Queued() == Coded(code, sys.s2c[1..])
      requires !s'.c.open ==> s' == P.Sys(s'.c, false, [], [], []) && s'.c.toSend == [] && s'.c.headSent == 0
      requires s'.c.open ==> s' == sys.(c := s'.c, s2c := sys.s2c[1..]) && s'.c.headSent == sys.c.headSent
      requires s'.c.open ==> s'.c.toSend == if connecting then P.Preamble(hasWatches, auths) + sys.c.toSend else sys.c.toSend
      requires connecting && s'.c.open ==> sys.c.headSent == 0
      modifies `greeted, `pending, up.sender, up.receiver, down.sender, down.receiver
      ensures client.Valid() && StandsFor(s') && (client.open ==> down.receiver.consumed == old(down.receiver.consumed))
    {
      hide Handle.Valid, Link.Valid, Link.Carries, P.Preamble, Coded;
      if !client.open {
        Reset(s');
      } else if connecting {
        PushPreamble(hasWatches, auths, sys, s');
      } else {
        UnmovedUp(sys, s');
      }
    }

    /** The frames put in front on connect, as bytes. */
    method PushPreamble(hasWatches: bool, auths: nat, ghost s: P.Sys, ghost s': P.Sys)
      requires up.Carries(code, s) && s.c.headSent == 0
      requires s'.c.toSend == P.Preamble(hasWatches, auths) + s.c.toSend && s'.c2s == s.c2s && s'.c.headSent == 0
      modifies up.sender
      ensures up.Carries(code, s')
    {
      hide Link.Valid, Link.Carries, P.Preamble, Coded;
      ghost var cur := s;
      PreambleStart(hasWatches, s.c.toSend);
      if hasWatches {
        cur := s.(c := s.c.(toSend := [P.Frame(P.SET_WATCHES_XID, 0, 0)] + s.c.toSend));
        up.PushPacketFront(P.Frame(P.SET_WATCHES_XID, 0, 0), code, s, cur);
      }
      for i := 0 to auths
        invariant up.Carries(code, cur) && cur.c2s == s.c2s && cur.c.headSent == 0
        invariant cur.c.toSend == P.Preamble(hasWatches, i) + s.c.toSend
      {
        ghost var next := cur.(c := cur.c.(toSend := [P.Frame(P.AUTH_XID, 0, 0)] + cur.c.toSend));
        PreambleMore(hasWatches, i, s.c.toSend);
        up.PushPacketFront(P.Frame(P.AUTH_XID, 0, 0), code, cur, next);
        cur := next;
      }
      UnmovedUp(cur, s');
    }

    /** One turn of the reply loop. */
    method Process() returns (verdict: P.Verdict)
      requires Valid() && client.View().toProcess != []
      modifies Footprint()
      ensures Valid() && fresh(Footprint() - old(Footprint())) && steps == old(steps) + [P.CProcess]
      ensures verdict == P.Handled || verdict == P.AuthRefused
    {
      hide Handle.Valid, Link.Valid, Link.Carries, Link.CarriesBack, P.Run, P.Apply, P.ProcessReply, P.Judge, Inverse, S.Inv, Handle.View;
      Kept();
      NextKnown(sys);
      S.InOrderHere(sys);
      ghost var s' := P.Apply(sys, P.CProcess);
      ProcessedSys(sys);
      verdict := client.ProcessOne();
      FollowReply(s');
      Stepped(P.CProcess);
    }

    /** What a processed reply means for the links. */
    method FollowReply(ghost s': P.Sys)
      requires client.Valid() && Separate() && client.View() == s'.c
      requires up.Carries(code, sys) && down.CarriesBack(code, sys) && greeted == sys.greeted && pending == sys.pending
      requires !s'.c.open ==> s' == P.Sys(s'.c, false, [], [], []) && s'.c.toSend == [] && s'.c.headSent == 0
      requires s'.c.open ==> s' == sys.(c := s'.c) && s'.c.headSent == sys.c.headSent && s'.c.toSend == sys.c.toSend
      modifies `greeted, `pending, up.sender, up.receiver, down.sender, down.receiver
      ensures client.Valid() && StandsFor(s')
    {
      hide Handle.Valid, Link.Valid, Link.Carries, Link.CarriesBack;
      if !client.open {
        Reset(s');
      } else {
        UnmovedUp(sys, s');
        Unmoved(sys, s');
      }
    }

    // ------------------------------------------------------------------- the server's side

    /** The server reads bytes that are on the wire; a whole packet is the connect request, which is
        answered, or a request. */
    method ServerReceive(header: In, rest: In, session: int64) returns (got: bool)
      requires Valid()
      requires up.receiver.consumed + LengthBytes(up.receiver.off, header) + BytesOf(rest) <= up.sender.wire
      modifies Footprint()
      ensures Valid() && Footprint() == old(Footprint())
      ensures up.receiver.consumed == old(up.receiver.consumed) + old(up.receiver.Reads(header, rest))
      ensures steps == old(steps) + if !got then [] else if old(greeted) then [P.STake] else [P.SGreet(session)]
    {
      hide Handle.Valid, Link.Valid, Link.Carries, Link.CarriesBack, P.Run, P.Apply, Inverse, S.Inv;
      Kept();
      NextKnown(sys);
      ghost var s1 := if sys.c2s == [] then sys else sys.(c2s := sys.c2s[1..]);
      got := up.TakePacket(header, rest, code, sys, s1);
      if got {
        Decoded(sys.c2s[0]);
        if greeted {
          TakeRequest(decode(false, up.receiver.received[|up.receiver.received| - 1]), s1);
        } else {
          Greet(session, s1);
        }
      }
    }

    method TakeRequest(p: P.Packet, ghost s1: P.Sys)
      requires client.Valid() && Separate() && Inverse(code, decode) && P.Run(P.INITIAL, steps, sys)
      requires client.View() == sys.c && greeted == sys.greeted && pending == sys.pending && down.CarriesBack(code, sys)
      requires sys.c2s != [] && p == sys.c2s[0] && p.Frame? && s1 == sys.(c2s := sys.c2s[1..]) && up.Carries(code, s1)
      modifies this
      ensures Valid() && steps == old(steps) + [P.STake] && Footprint() == old(Footprint())
    {
      hide Handle.Valid, Link.Valid, Link.Carries, Link.CarriesBack, P.Run, Inverse;
      if !P.Reserved(p.xid) { pending := pending + [p]; }
      ghost var s' := P.Apply(sys, P.STake);
      UnmovedUp(s1, s');
      Unmoved(sys, s');
      Stepped(P.STake);
    }

    /** The connect request is answered. */
    method Greet(session: int64, ghost s1: P.Sys)
      requires client.Valid() && Separate() && Inverse(code, decode) && P.Run(P.INITIAL, steps, sys)
      requires client.View() == sys.c && greeted == sys.greeted && pending == sys.pending && down.CarriesBack(code, sys)
      requires sys.c2s != [] && sys.c2s[0].Handshake? && s1 == sys.(c2s := sys.c2s[1..]) && up.Carries(code, s1)
      modifies this, down.sender
      ensures Valid() && steps == old(steps) + [P.SGreet(session)] && Footprint() == old(Footprint())
    {
      hide Handle.Valid, Link.Valid, Link.Carries, Link.CarriesBack, P.Run, Inverse;
      ghost var s' := P.Apply(sys, P.SGreet(session));
      UnmovedUp(s1, s');
      down.PushReply(P.Handshake(session), code, sys, s');
      greeted := true;
      Stepped(P.SGreet(session));
    }

    /** The server answers the oldest request it holds. */
    method ServerAnswer(zxid: int64, err: int32)
      requires Valid() && pending != []
      modifies Footprint()
      ensures Valid() && Footprint() == old(Footprint()) && steps == old(steps) + [P.SAnswer(zxid, err)]
    {
      hide Handle.Valid, Link.Valid, Link.Carries, Link.CarriesBack, P.Run, Inverse, S.Inv;
      Kept();
      NextKnown(sys);
      ghost var s' := P.Apply(sys, P.SAnswer(zxid, err));
      down.PushReply(P.Frame(pending[0].xid, zxid, err), code, sys, s');
      pending := pending[1..];
      UnmovedUp(sys, s');
      Stepped(P.SAnswer(zxid, err));
    }

    /** A watch event, or the answer to an auth or set-watches frame. */
    method ServerPush(xid: int32, zxid: int64, err: int32)
      requires Valid() && greeted && P.Reserved(xid)
      modifies Footprint()
      ensures Valid() && Footprint() == old(Footprint()) && steps == old(steps) + [P.SPush(xid, zxid, err)]
    {
      hide Handle.Valid, Link.Valid, Link.Carries, Link.CarriesBack, P.Run, Inverse;
      ghost var s' := P.Apply(sys, P.SPush(xid, zxid, err));
      down.PushReply(P.Frame(xid, zxid, err), code, sys, s');
      UnmovedUp(sys, s');
      Stepped(P.SPush(xid, zxid, err));
    }

    /** The server sends bytes of what it has queued: no step of the pipeline. */
    method ServerSend(header: Io, body: Io) returns (rc: int)
      requires Valid() && down.sender.queue != []
      modifies Footprint()
      ensures Valid() && Footprint() == old(Footprint()) && steps == old(steps)
    {
      hide Handle.Valid, Link.Valid, Link.Carries, Link.CarriesBack, P.Run, Inverse;
      rc := down.SendReply(header, body, code, sys);
    }

    /** So it holds of the lists of the handle, whatever bytes went which way: a reply that is taken next
        belongs to the oldest outstanding request, callbacks come in the order of the calls with their
        own headers, and `outstanding_sync` is the number of callers that wait. */
    lemma BytesKeepOrder()
      requires Valid()
      ensures var c := client.View();
        && (c.toProcess != [] ==> c.toProcess[0].Frame? && (P.Judge(c) == P.Handled || P.Judge(c) == P.AuthRefused))
        && S.Select(S.Entries(c.finished), P.Async) <= S.Select(c.issued, P.Async)
        && c.outstandingSync == |S.Select(c.sent, P.Sync)|
        && (forall i | 0 <= i < |c.issued| :: multiset(S.Everywhere(c))[c.issued[i]] == 1)
    {
      hide Handle.Valid, Link.Valid, Link.Carries, Link.CarriesBack, P.Run, Inverse, P.Judge, S.Select, S.Entries, S.Everywhere;
      S.RepliesComeInOrder(steps, sys);
      S.EndsInOrder(steps, sys);
      forall i | 0 <= i < |sys.c.issued| ensures multiset(S.Everywhere(sys.c))[sys.c.issued[i]] == 1 {
        S.EveryRequestOnce(steps, sys, i);
      }
    }

    /** And callers, callbacks and watchers have been told, or will be, what the steps say, in order: every
        lost request its code, every answered one its reply, every watcher its event. */
    lemma BytesTell(k: P.Kind)
      requires Valid()
      ensures var c := client.View();
        O.OfKind(c.finished, k) + O.OfKind(c.completions, k) == O.OfKind(O.Log(P.INITIAL, steps), k)
    {
      hide Handle.Valid, Link.Valid, Link.Carries, Link.CarriesBack, P.Run, Inverse, O.OfKind, O.Log;
      O.OutcomesInOrder(steps, sys, k);
    }
  }
  /** A first connection can be made, with headers as the code. */
  method Begin() returns (c: Connection)
    ensures c.Valid() && c.steps == [] && c.code == HeaderOf && fresh(c.Footprint())
  {
    hide Handle.Valid, Handle.View, Connection.Valid, Inverse;
    HeadersComeBack();
    var client := new Handle();
    c := new Connection(HeaderOf, ReadHeader, client);
  }
}

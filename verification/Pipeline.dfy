/** The request pipeline of the ZooKeeper C client (zookeeper.c), as functions on
    the state of one client handle, and the system it forms with two FIFO channels
    and a server that answers in arrival order.

    Every function of the first half is one critical section of the client.  The
    class `ZHandle` carries the same sections out in place. */
module Pipeline {
  import opened Common

  // Transaction ids the protocol keeps for itself (zk_adaptor.h).
  const WATCHER_EVENT_XID := -1
  const PING_XID := -2
  const AUTH_XID := -4
  const SET_WATCHES_XID := -8

  // Client error codes (zookeeper.h).
  const ZRUNTIMEINCONSISTENCY := -2
  const ZSESSIONEXPIRED := -112
  const ZAUTHFAILED := -115

  /** Frames with these ids answer no entry of `sent_requests`. */
  predicate Reserved(xid: int32) {
    xid == WATCHER_EVENT_XID || xid == AUTH_XID || xid == SET_WATCHES_XID
  }

  /** A unit on the wire.  `Handshake` is the connect request or its response; a
      `Frame` is a request or a reply (a request carries zeroes in `zxid`, `err`). */
  datatype Packet = Frame(xid: int32, zxid: int64, err: int32) | Handshake(session: int64)

  /** A `completion_list_t`.  `id` is the identity of the allocation; a `Watch` entry
      carries an event and belongs to no request. */
  datatype Entry = Request(id: nat, xid: int32, sync: bool) | Watch

  datatype Kind = Sync | Ping | Async | Event

  function KindOf(e: Entry): Kind {
    match e
    case Watch => Event
    case Request(_, xid, sync) => if sync then Sync else if xid == PING_XID then Ping else Async
  }

  /** How an entry ends: with a reply header (from the server, or made up when the
      connection is lost), or, for a waiting caller or a ping, with a return code only. */
  datatype Outcome = Replied(header: Packet) | ConnectionLost(rc: int32)

  datatype Done = Done(entry: Entry, outcome: Outcome)

  datatype Session = Closed | Connecting | Associating | Connected | Expired | AuthFailed

  predicate Unrecoverable(s: Session) {
    s == Expired || s == AuthFailed
  }

  /** The fields of `zhandle_t` the pipeline uses.  `open` is `fd != -1`, `primer` is
      `input_buffer == &primer_buffer`, `headSent` is `to_send.head->curr_offset`.
      `issued` and `finished` record every entry ever queued and ever ended. */
  datatype Client = Client(
    state: Session,
    open: bool,
    primer: bool,
    session: int64,
    toSend: seq<Packet>,
    headSent: nat,
    sent: seq<Entry>,
    toProcess: seq<Packet>,
    completions: seq<Done>,
    outstandingSync: int,
    lastZxid: int64,
    issued: seq<Entry>,
    finished: seq<Done>)

  const FRESH := Client(Closed, false, false, 0, [], 0, [], [], [], 0, 0, [], [])

  // ---------------------------------------------------------------- client sections

  /** `add_completion` followed by `queue_buffer_bytes`, as every request does. */
  function Submit(c: Client, xid: int32, sync: bool): Client {
    var e := Request(|c.issued|, xid, sync);
    c.(sent := c.sent + [e],
       issued := c.issued + [e],
       outstandingSync := c.outstandingSync + (if sync then 1 else 0),
       toSend := c.toSend + [Frame(xid, 0, 0)])
  }

  /** The head of `sent_requests` ends: a waiting caller and a ping with `quiet`, an
      asynchronous request with `reply`, which its callback will see. */
  function EndFirst(c: Client, quiet: Outcome, reply: Outcome): Client
    requires c.sent != []
  {
    var e := c.sent[0];
    var c1 := c.(sent := c.sent[1..]);
    match KindOf(e)
    case Sync => c1.(outstandingSync := c.outstandingSync - 1, finished := c.finished + [Done(e, quiet)])
    case Ping => c1.(finished := c.finished + [Done(e, quiet)])
    case Async => c1.(completions := c.completions + [Done(e, reply)])
    case Event => c1
  }

  function XidOf(e: Entry): int32 {
    if e.Watch? then WATCHER_EVENT_XID else e.xid
  }

  /** One turn of the loop of `free_completions`: a reply is made up for a callback. */
  function FreeFirst(c: Client, rc: int32): Client
    requires c.sent != []
  {
    EndFirst(c, ConnectionLost(rc), Replied(Frame(XidOf(c.sent[0]), -1, rc)))
  }

  function FreeCompletions(c: Client, rc: int32): Client
    decreases |c.sent|
  {
    if c.sent == [] then c else FreeCompletions(FreeFirst(c, rc), rc)
  }

  function SessionEvent(): Done {
    Done(Watch, Replied(Frame(WATCHER_EVENT_XID, 0, 0)))
  }

  function HandleError(c: Client, rc: int32): Client {
    var events := if Unrecoverable(c.state) || c.state == Connected then [SessionEvent()] else [];
    var c1 := FreeCompletions(c.(completions := c.completions + events, toSend := [], headSent := 0, toProcess := []), rc);
    c1.(open := false, state := if Unrecoverable(c.state) then c.state else Closed)
  }

  /** `prime_connection` once the connect request is on the wire. */
  function PrimeConnection(c: Client): Client {
    c.(state := Associating, open := true, primer := true)
  }

  function Repeat(n: nat, p: Packet): seq<Packet> {
    seq(n, _ => p)
  }

  /** What `send_set_watches` and then `send_auth_info` put in front of the queue. */
  function Preamble(hasWatches: bool, auths: nat): seq<Packet> {
    Repeat(auths, Frame(AUTH_XID, 0, 0)) + if hasWatches then [Frame(SET_WATCHES_XID, 0, 0)] else []
  }

  /** `check_events` after a whole packet has been received. */
  function Receive(c: Client, p: Packet, hasWatches: bool, auths: nat): Client
    requires c.primer ==> p.Handshake?
  {
    if !c.primer then
      c.(toProcess := c.toProcess + [p])
    else if c.session != 0 && c.session != p.session then
      HandleError(c.(state := Expired), ZSESSIONEXPIRED)
    else
      c.(session := p.session, state := Connected, primer := false,
         toSend := Preamble(hasWatches, auths) + c.toSend,
         completions := c.completions + [SessionEvent()])
  }

  datatype Verdict = Handled | AuthRefused | OutOfOrder | AssertionFailed

  /** What the reply at the head of `to_process` leads to (zookeeper.c:2172-2281). */
  function Judge(c: Client): Verdict
    requires c.toProcess != [] && c.toProcess[0].Frame?
  {
    var hdr := c.toProcess[0];
    if hdr.xid == WATCHER_EVENT_XID || hdr.xid == SET_WATCHES_XID then Handled
    else if hdr.xid == AUTH_XID then (if hdr.err != 0 then AuthRefused else Handled)
    else if c.sent == [] then AssertionFailed
    else if XidOf(c.sent[0]) != hdr.xid then OutOfOrder
    else Handled
  }

  function ProcessReply(c: Client): Client
    requires c.toProcess != [] && c.toProcess[0].Frame?
  {
    var hdr := c.toProcess[0];
    var c1 := c.(toProcess := c.toProcess[1..], lastZxid := if hdr.zxid > 0 then hdr.zxid else c.lastZxid);
    match Judge(c)
    case AuthRefused => HandleError(c1.(state := AuthFailed), ZAUTHFAILED)
    case OutOfOrder => HandleError(c1, ZRUNTIMEINCONSISTENCY)
    case AssertionFailed => c1
    case Handled =>
      if hdr.xid == WATCHER_EVENT_XID then c1.(completions := c.completions + [Done(Watch, Replied(hdr))])
      else if hdr.xid == SET_WATCHES_XID || hdr.xid == AUTH_XID then c1
      else EndFirst(c1, Replied(hdr), Replied(hdr))
  }

  /** One turn of `process_completions`. */
  function Deliver(c: Client): Client
    requires c.completions != []
  {
    c.(completions := c.completions[1..], finished := c.finished + [c.completions[0]])
  }

  // ------------------------------------------------------------------ the system

  /** A client, its connection, and the server end of that connection: requests on
      the wire, requests taken but not answered, replies on the wire. */
  datatype Sys = Sys(c: Client, greeted: bool, c2s: seq<Packet>, pending: seq<Packet>, s2c: seq<Packet>)

  const INITIAL := Sys(FRESH, false, [], [], [])

  datatype Step =
    | CSubmit(xid: int32, sync: bool)      // any zoo_a* call, from any thread, at any time after its test of the session
    | CPing                              // zookeeper_interest
    | CConnect                           // non-blocking connect under way
    | CPrime                             // connected; connect request sent
    | CAddAuth                           // zoo_add_auth in front of an unsent head; the session may have died since its test
    | CSendPart(n: nat)                  // send_buffer accepted some bytes of the head
    | CSendHead                          // send_buffer finished the head
    | CReceive(hasWatches: bool, auths: nat)
    | CProcess
    | CError(rc: int32)                    // any socket error or timeout; closed: socket() or connect() failed
    | CDeliver                           // the completion thread
    | SGreet(session: int64)
    | STake
    | SAnswer(zxid: int64, err: int32)
    | SPush(xid: int32, zxid: int64, err: int32) // watch event, auth or set-watches reply, at any time

  predicate Enabled(s: Sys, t: Step) {
    var c := s.c;
    match t
    case CSubmit(xid, _) => !Reserved(xid) && xid != PING_XID
    case CPing => c.state == Connected
    case CConnect => !c.open && !Unrecoverable(c.state)
    case CPrime => (!c.open && !Unrecoverable(c.state)) || c.state == Connecting
    case CAddAuth => c.headSent == 0
    case CSendPart(_) => c.state == Connected && c.toSend != []
    case CSendHead => c.state == Connected && c.toSend != []
    case CReceive(_, _) => c.open && s.s2c != [] && (c.primer ==> s.s2c[0].Handshake?)
    case CProcess => !Unrecoverable(c.state) && c.toProcess != [] && c.toProcess[0].Frame?
    case CError(_) => c.open || c.state == Closed
    case CDeliver => c.completions != []
    case SGreet(_) => s.c2s != [] && s.c2s[0].Handshake?
    case STake => s.c2s != [] && s.c2s[0].Frame?
    case SAnswer(_, _) => s.pending != [] && s.pending[0].Frame?
    case SPush(xid, _, _) => s.greeted && Reserved(xid)
  }

  /** A closed socket takes the connection and all that was in flight with it. */
  function Settle(s: Sys): Sys {
    if s.c.open then s else Sys(s.c, false, [], [], [])
  }

  function Apply(s: Sys, t: Step): Sys
    requires Enabled(s, t)
  {
    var c := s.c;
    match t
    case CSubmit(xid, sync) => s.(c := Submit(c, xid, sync))
    case CPing => s.(c := Submit(c, PING_XID, false))
    case CConnect => s.(c := c.(state := Connecting, open := true))
    case CPrime => Sys(PrimeConnection(c), false, [Handshake(c.session)], [], [])
    case CAddAuth => s.(c := c.(toSend := [Frame(AUTH_XID, 0, 0)] + c.toSend))
    case CSendPart(n) => s.(c := c.(headSent := c.headSent + n))
    case CSendHead => s.(c := c.(toSend := c.toSend[1..], headSent := 0), c2s := s.c2s + [c.toSend[0]])
    case CReceive(w, a) => Settle(s.(c := Receive(c, s.s2c[0], w, a), s2c := s.s2c[1..]))
    case CProcess => Settle(s.(c := ProcessReply(c)))
    case CError(rc) => Settle(s.(c := HandleError(c, rc)))
    case CDeliver => s.(c := Deliver(c))
    case SGreet(session) => s.(greeted := true, c2s := s.c2s[1..], s2c := s.s2c + [Handshake(session)])
    case STake =>
      // Reserved requests are answered, if at all, by SPush.
      s.(c2s := s.c2s[1..], pending := if Reserved(s.c2s[0].xid) then s.pending else s.pending + [s.c2s[0]])
    case SAnswer(zxid, err) =>
      s.(pending := s.pending[1..], s2c := s.s2c + [Frame(s.pending[0].xid, zxid, err)])
    case SPush(xid, zxid, err) => s.(s2c := s.s2c + [Frame(xid, zxid, err)])
  }

  /** The state after a list of steps, as far as they are enabled. */
  ghost predicate Run(s: Sys, steps: seq<Step>, s': Sys)
    decreases |steps|
  {
    if steps == [] then s' == s
    else Enabled(s, steps[0]) && Run(Apply(s, steps[0]), steps[1..], s')
  }
}

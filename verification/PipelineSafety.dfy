/** What every run of the pipeline keeps, and what follows for its callers. */
module PipelineSafety {
  import opened Common
  import opened Pipeline

  // ------------------------------------------------------------------ projections

  /** The ids of the frames that belong to an entry of `sent_requests`, in order. */
  ghost function Wanted(s: seq<Packet>): seq<int> {
    if s == [] then []
    else (if s[0].Frame? && !Reserved(s[0].xid) then [s[0].xid] else []) + Wanted(s[1..])
  }

  lemma {:induction false} WantedAppend(a: seq<Packet>, b: seq<Packet>)
    ensures Wanted(a + b) == Wanted(a) + Wanted(b)
  {
    if a == [] {
      assert a + b == b;
    } else {
      assert (a + b)[1..] == a[1..] + b;
      WantedAppend(a[1..], b);
    }
  }

  lemma {:induction false} PreambleUnwanted(hasWatches: bool, auths: nat)
    ensures Wanted(Preamble(hasWatches, auths)) == []
  {
    var p := Preamble(hasWatches, auths);
    if auths > 0 {
      assert p[1..] == Preamble(hasWatches, auths - 1);
      PreambleUnwanted(hasWatches, auths - 1);
    }
  }

  ghost function Xids(es: seq<Entry>): seq<int> {
    seq(|es|, i requires 0 <= i < |es| => XidOf(es[i]))
  }

  ghost function Select(es: seq<Entry>, k: Kind): seq<Entry> {
    if es == [] then []
    else (if KindOf(es[0]) == k then [es[0]] else []) + Select(es[1..], k)
  }

  lemma {:induction false} SelectAppend(a: seq<Entry>, b: seq<Entry>, k: Kind)
    ensures Select(a + b, k) == Select(a, k) + Select(b, k)
  {
    if a == [] {
      assert a + b == b;
    } else {
      assert (a + b)[1..] == a[1..] + b && (a + b)[0] == a[0];
      SelectAppend(a[1..], b, k);
    }
  }

  ghost function Entries(ds: seq<Done>): seq<Entry> {
    seq(|ds|, i requires 0 <= i < |ds| => ds[i].entry)
  }

  // ------------------------------------------------------------------- invariants

  /** Every request of kind `k` ever issued, in the order in which it was issued,
      read off the places an entry can be: ended, ready to be delivered, outstanding. */
  ghost function Places(c: Client, k: Kind): seq<Entry> {
    Select(Entries(c.finished), k) + Select(Entries(c.completions), k) + Select(c.sent, k)
  }

  /** A reply header handed over with a request carries that request's own id. */
  ghost predicate OwnHeader(d: Done) {
    d.entry.Request? && d.outcome.Replied? ==>
      d.outcome.header.Frame? && d.outcome.header.xid == d.entry.xid
  }

  ghost predicate LedgerOk(c: Client) {
    && (forall k | k != Event :: Places(c, k) == Select(c.issued, k))
    && c.outstandingSync == |Select(c.sent, Sync)|
    && (forall d | d in c.completions + c.finished :: OwnHeader(d))
    && (forall d | d in c.completions :: KindOf(d.entry) == Async || KindOf(d.entry) == Event)
    && (forall e | e in c.sent :: e.Request? && !Reserved(e.xid))
    && (forall i | 0 <= i < |c.issued| :: c.issued[i].Request? && c.issued[i].id == i)
  }

  ghost predicate Frames(s: seq<Packet>) {
    forall p | p in s :: p.Frame?
  }

  /** Where the session and its connection are at the same time. */
  ghost predicate ShapeOk(s: Sys) {
    var c := s.c;
    && Frames(c.toSend) && Frames(c.toProcess)
    && (forall p | p in s.pending :: p.Frame? && !Reserved(p.xid))
    && (c.open <==> c.state in {Connecting, Associating, Connected})
    && (c.state != Connected ==> c.headSent == 0 && c.toProcess == [])
    && (c.state != Connected && c.state != Associating ==>
          !s.greeted && s.c2s == s.pending == s.s2c == [])
    && (c.state == Associating ==>
          && c.primer && s.pending == []
          && (if s.greeted then s.c2s == [] && s.s2c != [] && s.s2c[0].Handshake? && Frames(s.s2c[1..])
              else s.s2c == [] && |s.c2s| == 1 && s.c2s[0].Handshake?))
    && (c.state == Connected ==> !c.primer && s.greeted && Frames(s.c2s) && Frames(s.s2c))
  }

  /** The requests on their way round: replies received, replies on the wire, requests
      the server holds, requests on the wire, requests queued. */
  ghost function Round(s: Sys): seq<int> {
    Wanted(s.c.toProcess) + (Wanted(s.s2c) + (Wanted(s.pending) + (Wanted(s.c2s) + Wanted(s.c.toSend))))
  }

  ghost predicate OrderOk(s: Sys) {
    Xids(s.c.sent) == Round(s)
  }

  ghost predicate Inv(s: Sys) {
    LedgerOk(s.c) && ShapeOk(s) && OrderOk(s)
  }

  // ------------------------------------------------------------------- the ledger

  lemma SelectSingle(e: Entry, k: Kind)
    ensures Select([e], k) == if KindOf(e) == k then [e] else []
  {
    assert [e][1..] == [];
  }

  lemma {:induction false} NothingSelected(es: seq<Entry>, k: Kind)
    requires forall e | e in es :: KindOf(e) != k
    ensures Select(es, k) == []
  {
    if es != [] { NothingSelected(es[1..], k); }
  }

  lemma SelectPush(ds: seq<Done>, d: Done, k: Kind)
    ensures Select(Entries(ds + [d]), k) == Select(Entries(ds), k) + if KindOf(d.entry) == k then [d.entry] else []
  {
    assert Entries(ds + [d]) == Entries(ds) + [d.entry];
    SelectAppend(Entries(ds), [d.entry], k);
    SelectSingle(d.entry, k);
  }

  lemma LedgerEvent(c: Client, d: Done)
    requires LedgerOk(c) && d.entry == Watch
    ensures LedgerOk(c.(completions := c.completions + [d]))
  {
    var c' := c.(completions := c.completions + [d]);
    forall k | k != Event ensures Places(c', k) == Places(c, k) { SelectPush(c.completions, d, k); }
  }

  lemma LedgerSubmit(c: Client, xid: int32, sync: bool)
    requires LedgerOk(c) && !Reserved(xid)
    ensures LedgerOk(Submit(c, xid, sync))
  {
    hide Select;
    var e := Request(|c.issued|, xid, sync);
    var c' := Submit(c, xid, sync);
    SelectSingle(e, Sync);
    SelectAppend(c.sent, [e], Sync);
    forall k | k != Event ensures Places(c', k) == Select(c'.issued, k) {
      SelectAppend(c.sent, [e], k);
      SelectAppend(c.issued, [e], k);
      Further(Select(Entries(c.finished), k), Select(Entries(c.completions), k), Select(c.sent, k), Select([e], k));
    }
  }

  lemma Further<T>(f: seq<T>, d: seq<T>, r: seq<T>, x: seq<T>)
    ensures f + d + (r + x) == f + d + r + x
  {
  }

  /** Taking the head of `sent` over to where `EndFirst` puts it moves no place. */
  lemma PlacesEndFirst(c: Client, quiet: Outcome, reply: Outcome, k: Kind)
    requires c.sent != [] && k != Event && c.sent[0].Request?
    requires forall d | d in c.completions :: KindOf(d.entry) == Async || KindOf(d.entry) == Event
    ensures Places(EndFirst(c, quiet, reply), k) == Places(c, k)
  {
    var e, c' := c.sent[0], EndFirst(c, quiet, reply);
    var x := if KindOf(e) == k then [e] else [];
    var f, d, r := Select(Entries(c.finished), k), Select(Entries(c.completions), k), Select(c.sent[1..], k);
    if KindOf(e) == Async {
      SelectPush(c.completions, Done(e, reply), k);
      assert Places(c', k) == f + (d + x) + r;
    } else {
      SelectPush(c.finished, Done(e, quiet), k);
      if KindOf(e) == k { NothingSelected(Entries(c.completions), k); }
      assert Places(c', k) == (f + x) + d + r;
      assert x == [] || d == [];
    }
    Regroup(f, d, x, r);
  }

  lemma Regroup<T>(f: seq<T>, d: seq<T>, x: seq<T>, r: seq<T>)
    ensures f + (d + x) + r == f + d + (x + r)
    ensures (f + x) + (d + r) == f + ((x + d) + r)
    ensures x == [] || d == [] ==> (f + x) + d + r == f + d + (x + r)
  {
  }

  lemma LedgerEndFirst(c: Client, quiet: Outcome, reply: Outcome)
    requires LedgerOk(c) && c.sent != []
    requires OwnHeader(Done(c.sent[0], quiet)) && OwnHeader(Done(c.sent[0], reply))
    ensures LedgerOk(EndFirst(c, quiet, reply))
  {
    var c' := EndFirst(c, quiet, reply);
    forall k | k != Event ensures Places(c', k) == Select(c'.issued, k) {
      PlacesEndFirst(c, quiet, reply, k);
    }
    assert c'.outstandingSync == |Select(c'.sent, Sync)|;
  }

  lemma LedgerDeliver(c: Client)
    requires LedgerOk(c) && c.completions != []
    ensures LedgerOk(Deliver(c))
  {
    hide Select;
    var d := c.completions[0];
    assert Entries(c.completions) == [d.entry] + Entries(c.completions[1..]);
    forall k | k != Event ensures Places(Deliver(c), k) == Places(c, k) {
      SelectPush(c.finished, d, k);
      SelectSingle(d.entry, k);
      SelectAppend([d.entry], Entries(c.completions[1..]), k);
      Regroup(Select(Entries(c.finished), k), [], Select([d.entry], k), Select(Entries(c.completions[1..]), k));
    }
  }

  lemma {:induction false} LedgerFreeCompletions(c: Client, rc: int32)
    requires LedgerOk(c)
    ensures var c' := FreeCompletions(c, rc);
      LedgerOk(c') && c' == c.(sent := [], outstandingSync := 0, completions := c'.completions, finished := c'.finished)
    decreases |c.sent|
  {
    if c.sent != [] {
      LedgerEndFirst(c, ConnectionLost(rc), Replied(Frame(XidOf(c.sent[0]), -1, rc)));
      LedgerFreeCompletions(FreeFirst(c, rc), rc);
    }
  }

  lemma LedgerHandleError(c: Client, rc: int32)
    requires LedgerOk(c)
    ensures var c' := HandleError(c, rc);
      && LedgerOk(c') && c'.sent == [] && c'.toSend == c'.toProcess == [] && c'.headSent == 0
      && !c'.open && c'.state == (if Unrecoverable(c.state) then c.state else Closed)
  {
    LedgerEvent(c, SessionEvent());
    var events := if Unrecoverable(c.state) || c.state == Connected then [SessionEvent()] else [];
    var c1 := c.(completions := c.completions + events, toSend := [], headSent := 0, toProcess := []);
    assert c.completions + [] == c.completions;
    LedgerFreeCompletions(c1, rc);
  }

  // --------------------------------------------------------------- step by step

  lemma LedgerReceive(s: Sys, w: bool, a: nat)
    requires LedgerOk(s.c) && Enabled(s, CReceive(w, a))
    ensures LedgerOk(Apply(s, CReceive(w, a)).c)
  {
    var c, p := s.c, s.s2c[0];
    if c.primer && c.session != 0 && c.session != p.session {
      LedgerHandleError(c.(state := Expired), ZSESSIONEXPIRED);
    } else if c.primer {
      LedgerEvent(c, SessionEvent());
    }
  }

  lemma LedgerProcess(c: Client)
    requires LedgerOk(c) && c.toProcess != [] && c.toProcess[0].Frame?
    ensures LedgerOk(ProcessReply(c))
  {
    hide HandleError;
    var hdr := c.toProcess[0];
    var c1 := c.(toProcess := c.toProcess[1..], lastZxid := if hdr.zxid > 0 then hdr.zxid else c.lastZxid);
    match Judge(c)
    case AuthRefused => LedgerHandleError(c1.(state := AuthFailed), ZAUTHFAILED);
    case OutOfOrder => LedgerHandleError(c1, ZRUNTIMEINCONSISTENCY);
    case AssertionFailed =>
    case Handled =>
      if hdr.xid == WATCHER_EVENT_XID {
        LedgerEvent(c1, Done(Watch, Replied(hdr)));
      } else if !Reserved(hdr.xid) {
        LedgerEndFirst(c1, Replied(hdr), Replied(hdr));
      }
  }

  lemma LedgerApply(s: Sys, t: Step)
    requires Inv(s) && Enabled(s, t)
    ensures LedgerOk(Apply(s, t).c)
  {
    hide ProcessReply, HandleError, Receive;
    var c := s.c;
    match t
    case CSubmit(xid, sync) => LedgerSubmit(c, xid, sync);
    case CPing => LedgerSubmit(c, PING_XID, false);
    case CReceive(w, a) => LedgerReceive(s, w, a);
    case CProcess => LedgerProcess(c);
    case CError(rc) => LedgerHandleError(c, rc);
    case CDeliver => LedgerDeliver(c);
    case _ =>
  }

  lemma {:induction false} FreeCompletionsFrame(c: Client, rc: int32)
    ensures var c' := FreeCompletions(c, rc);
      c' == c.(sent := [], outstandingSync := c'.outstandingSync, completions := c'.completions, finished := c'.finished)
    decreases |c.sent|
  {
    if c.sent != [] { FreeCompletionsFrame(FreeFirst(c, rc), rc); }
  }

  lemma HandleErrorFrame(c: Client, rc: int32)
    ensures var c' := HandleError(c, rc);
      && c'.sent == [] && c'.toSend == c'.toProcess == [] && c'.headSent == 0
      && !c'.open && c'.state == (if Unrecoverable(c.state) then c.state else Closed)
  {
    var events := if Unrecoverable(c.state) || c.state == Connected then [SessionEvent()] else [];
    FreeCompletionsFrame(c.(completions := c.completions + events, toSend := [], headSent := 0, toProcess := []), rc);
  }

  lemma ShapeServer(s: Sys, t: Step)
    requires ShapeOk(s) && Enabled(s, t) && (t.SGreet? || t.STake? || t.SAnswer? || t.SPush?)
    ensures ShapeOk(Apply(s, t))
  {
    match t
    case SGreet(_) => assert s.c2s[0] in s.c2s;
    case SAnswer(_, _) => assert s.pending[0] in s.pending;
    case _ =>
  }

  /** A broken connection leaves nothing behind. */
  lemma ShapeBroken(s: Sys, c: Client, rc: int32)
    requires s.pending == s.s2c == s.c2s == [] && !s.greeted && s.c == HandleError(c, rc)
    ensures ShapeOk(s)
  {
    HandleErrorFrame(c, rc);
  }

  lemma ShapeProcess(s: Sys)
    requires ShapeOk(s) && Enabled(s, CProcess)
    ensures ShapeOk(Apply(s, CProcess))
  {
    var c, s' := s.c, Apply(s, CProcess);
    var hdr := c.toProcess[0];
    var c1 := c.(toProcess := c.toProcess[1..], lastZxid := if hdr.zxid > 0 then hdr.zxid else c.lastZxid);
    if Judge(c) == AuthRefused {
      HandleErrorFrame(c1.(state := AuthFailed), ZAUTHFAILED);
      ShapeBroken(s', c1.(state := AuthFailed), ZAUTHFAILED);
    } else if Judge(c) == OutOfOrder {
      HandleErrorFrame(c1, ZRUNTIMEINCONSISTENCY);
      ShapeBroken(s', c1, ZRUNTIMEINCONSISTENCY);
    }
  }

  lemma ShapeApply(s: Sys, t: Step)
    requires ShapeOk(s) && Enabled(s, t)
    ensures ShapeOk(Apply(s, t))
  {
    var c, s' := s.c, Apply(s, t);
    match t
    case CReceive(w, a) =>
      assert s.s2c[0] in s.s2c;
      var c1 := c.(state := Expired);
      HandleErrorFrame(c1, ZSESSIONEXPIRED);
      if s'.c == HandleError(c1, ZSESSIONEXPIRED) { ShapeBroken(s', c1, ZSESSIONEXPIRED); }
    case CProcess => ShapeProcess(s);
    case CError(rc) => HandleErrorFrame(c, rc); ShapeBroken(s', c, rc);
    case SGreet(_) => ShapeServer(s, t);
    case STake => ShapeServer(s, t);
    case SAnswer(_, _) => ShapeServer(s, t);
    case SPush(_, _, _) => ShapeServer(s, t);
    case _ =>
  }

  /** The theorem about one reply: it belongs to the oldest outstanding entry. */
  lemma InOrderHere(s: Sys)
    requires Inv(s) && s.c.toProcess != []
    ensures s.c.toProcess[0].Frame?
    ensures Judge(s.c) == Handled || Judge(s.c) == AuthRefused
  {
    var hdr := s.c.toProcess[0];
    if !Reserved(hdr.xid) {
      assert Xids(s.c.sent)[0] == hdr.xid;
    }
  }

  /** Handing the head of one stretch over to the end of the stretch before it. */
  lemma HandOver(before: seq<Packet>, after: seq<Packet>, p: Packet, rest: seq<int>)
    requires after != [] && Wanted([p]) == Wanted([after[0]])
    ensures Wanted(before + [p]) + (Wanted(after[1..]) + rest) == Wanted(before) + (Wanted(after) + rest)
  {
    WantedAppend(before, [p]);
    WantedAppend([after[0]], after[1..]);
    assert after == [after[0]] + after[1..];
    Regroup(Wanted(before), Wanted(after[1..]), Wanted([p]), rest);
  }

  lemma OrderServer(s: Sys, t: Step)
    requires OrderOk(s) && Enabled(s, t) && (t.SGreet? || t.STake? || t.SAnswer? || t.SPush?)
    ensures OrderOk(Apply(s, t))
  {
    match t
    case SGreet(session) => WantedAppend(s.s2c, [Handshake(session)]);
    case STake => OrderTake(s);
    case SAnswer(zxid, err) => OrderAnswer(s, zxid, err);
    case SPush(xid, zxid, err) => WantedAppend(s.s2c, [Frame(xid, zxid, err)]);
  }

  lemma OrderTake(s: Sys)
    requires OrderOk(s) && Enabled(s, STake)
    ensures OrderOk(Apply(s, STake))
  {
    HandOver(s.pending, s.c2s, s.c2s[0], Wanted(s.c.toSend));
  }

  lemma OrderAnswer(s: Sys, zxid: int64, err: int32)
    requires OrderOk(s) && Enabled(s, SAnswer(zxid, err))
    ensures OrderOk(Apply(s, SAnswer(zxid, err)))
  {
    HandOver(s.s2c, s.pending, Frame(s.pending[0].xid, zxid, err), Wanted(s.c2s) + Wanted(s.c.toSend));
  }

  lemma Push<T>(a: seq<T>, b: seq<T>, c: seq<T>, d: seq<T>, e: seq<T>, x: seq<T>)
    ensures a + (b + (c + (d + (e + x)))) == a + (b + (c + (d + e))) + x
  {
  }

  lemma OrderSubmit(s: Sys, xid: int32, sync: bool)
    requires OrderOk(s) && !Reserved(xid)
    ensures OrderOk(s.(c := Submit(s.c, xid, sync)))
  {
    hide Wanted;
    WantedAppend(s.c.toSend, [Frame(xid, 0, 0)]);
    RequestWanted(xid);
    assert Xids(Submit(s.c, xid, sync).sent) == Xids(s.c.sent) + [xid];
    Push(Wanted(s.c.toProcess), Wanted(s.s2c), Wanted(s.pending), Wanted(s.c2s), Wanted(s.c.toSend), [xid]);
  }

  lemma RequestWanted(xid: int32)
    requires !Reserved(xid)
    ensures Wanted([Frame(xid, 0, 0)]) == [xid]
  {
  }

  lemma OrderReceive(s: Sys, w: bool, a: nat)
    requires OrderOk(s) && ShapeOk(s) && Enabled(s, CReceive(w, a))
    ensures OrderOk(Apply(s, CReceive(w, a)))
  {
    var c, p := s.c, s.s2c[0];
    if !c.primer {
      HandOver(c.toProcess, s.s2c, p, Wanted(s.pending) + (Wanted(s.c2s) + Wanted(c.toSend)));
    } else {
      OrderHandshake(s, w, a);
    }
  }

  lemma OrderHandshake(s: Sys, w: bool, a: nat)
    requires OrderOk(s) && ShapeOk(s) && Enabled(s, CReceive(w, a)) && s.c.primer
    ensures OrderOk(Apply(s, CReceive(w, a)))
  {
    hide Wanted, Preamble, HandleError;
    var c := s.c;
    HandleErrorFrame(c.(state := Expired), ZSESSIONEXPIRED);
    PreambleUnwanted(w, a);
    WantedAppend(Preamble(w, a), c.toSend);
    HandshakeUnwanted(s.s2c);
  }

  lemma HandshakeUnwanted(s: seq<Packet>)
    requires s != [] && s[0].Handshake?
    ensures Wanted(s) == Wanted(s[1..]) && Wanted([]) == []
  {
  }

  /** A reply meets its entry: both lists lose their first id. */
  lemma OrderMatched(s: Sys)
    requires OrderOk(s) && s.c.toProcess != [] && s.c.toProcess[0].Frame? && !Reserved(s.c.toProcess[0].xid)
    requires s.c.sent != []
    ensures Xids(s.c.sent[1..]) == Round(s.(c := s.c.(toProcess := s.c.toProcess[1..])))
  {
    var hdr := s.c.toProcess[0];
    assert Xids(s.c.sent[1..]) == Xids(s.c.sent)[1..];
    Pop(hdr.xid, Wanted(s.c.toProcess[1..]),
        Wanted(s.s2c) + (Wanted(s.pending) + (Wanted(s.c2s) + Wanted(s.c.toSend))));
  }

  lemma OrderRefused(s: Sys)
    requires Inv(s) && Enabled(s, CProcess) && Judge(s.c) == AuthRefused
    ensures OrderOk(Apply(s, CProcess))
  {
    hide LedgerOk, ShapeOk;
    var c := s.c;
    var hdr := c.toProcess[0];
    var c1 := c.(toProcess := c.toProcess[1..], lastZxid := if hdr.zxid > 0 then hdr.zxid else c.lastZxid);
    HandleErrorFrame(c1.(state := AuthFailed), ZAUTHFAILED);
  }

  /** A reply that answers no request leaves both lists alone. */
  lemma OrderReserved(s: Sys)
    requires OrderOk(s) && s.c.open && Enabled(s, CProcess) && Judge(s.c) == Handled && Reserved(s.c.toProcess[0].xid)
    ensures OrderOk(Apply(s, CProcess))
  {
    hide Wanted, Xids, ProcessReply;
    ReservedAfter(s.c);
    WantedAppend([s.c.toProcess[0]], s.c.toProcess[1..]);
    Unwanted(s.c.toProcess[0]);
    assert s.c.toProcess == [s.c.toProcess[0]] + s.c.toProcess[1..];
  }

  lemma Unwanted(p: Packet)
    requires p.Handshake? || Reserved(p.xid)
    ensures Wanted([p]) == []
  {
    assert [p][1..] == [];
  }

  lemma ReservedAfter(c: Client)
    requires c.toProcess != [] && c.toProcess[0].Frame? && Judge(c) == Handled && Reserved(c.toProcess[0].xid)
    ensures var c' := ProcessReply(c);
      c'.sent == c.sent && c'.toProcess == c.toProcess[1..] && c'.toSend == c.toSend && c'.open == c.open
  {
    hide HandleError, EndFirst;
  }

  lemma OrderAnswered(s: Sys)
    requires OrderOk(s) && s.c.open && Enabled(s, CProcess) && Judge(s.c) == Handled && !Reserved(s.c.toProcess[0].xid)
    ensures OrderOk(Apply(s, CProcess))
  {
    hide HandleError, Wanted, Xids, ProcessReply;
    SentAfter(s.c);
    OrderMatched(s);
  }

  lemma SentAfter(c: Client)
    requires c.toProcess != [] && c.toProcess[0].Frame? && Judge(c) == Handled && !Reserved(c.toProcess[0].xid)
    ensures var c' := ProcessReply(c);
      && c.sent != [] && c'.sent == c.sent[1..] && c'.toProcess == c.toProcess[1..] && c'.toSend == c.toSend && c'.open == c.open
  {
    hide HandleError;
    match KindOf(c.sent[0])
    case Sync =>
    case Ping =>
    case Async =>
    case Event =>
  }

  lemma StillOpen(s: Sys)
    requires ShapeOk(s) && s.c.toProcess != []
    ensures s.c.open
  {
  }

  lemma OrderProcess(s: Sys)
    requires Inv(s) && Enabled(s, CProcess)
    ensures OrderOk(Apply(s, CProcess))
  {
    hide LedgerOk, ShapeOk, OrderOk, Judge, Apply;
    InOrderHere(s);
    StillOpen(s);
    if Judge(s.c) == AuthRefused {
      OrderRefused(s);
    } else if Reserved(s.c.toProcess[0].xid) {
      OrderReserved(s);
    } else {
      OrderAnswered(s);
    }
  }

  lemma Pop<T>(x: T, a: seq<T>, r: seq<T>)
    ensures ([x] + a + r)[1..] == a + r
  {
  }

  lemma OrderSend(s: Sys)
    requires OrderOk(s) && Enabled(s, CSendHead)
    ensures OrderOk(Apply(s, CSendHead))
  {
    HandOver(s.c2s, s.c.toSend, s.c.toSend[0], []);
    assert Wanted(s.c.toSend) + [] == Wanted(s.c.toSend);
    assert Wanted(s.c.toSend[1..]) + [] == Wanted(s.c.toSend[1..]);
  }

  lemma OrderLocal(s: Sys, t: Step)
    requires ShapeOk(s) && OrderOk(s) && Enabled(s, t)
    requires t.CAddAuth? || t.CConnect? || t.CPrime? || t.CSendPart? || t.CDeliver?
    ensures OrderOk(Apply(s, t))
  {
    var c := s.c;
    match t
    case CAddAuth => OrderAhead(s, Frame(AUTH_XID, 0, 0));
    case CPrime => assert Wanted([Handshake(c.session)]) == [];
    case _ =>
  }

  /** A frame nobody waits for may jump the queue. */
  lemma OrderAhead(s: Sys, p: Packet)
    requires OrderOk(s) && Wanted([p]) == []
    ensures OrderOk(s.(c := s.c.(toSend := [p] + s.c.toSend)))
  {
    hide Wanted, Xids;
    WantedAppend([p], s.c.toSend);
  }

  lemma OrderApply(s: Sys, t: Step)
    requires Inv(s) && Enabled(s, t)
    ensures OrderOk(Apply(s, t))
  {
    var c := s.c;
    match t
    case CSubmit(xid, sync) => OrderSubmit(s, xid, sync);
    case CPing => OrderSubmit(s, PING_XID, false);
    case CSendHead => OrderSend(s);
    case CReceive(w, a) => OrderReceive(s, w, a);
    case CProcess => OrderProcess(s);
    case CError(rc) => HandleErrorFrame(c, rc);
    case SGreet(_) => OrderServer(s, t);
    case STake => OrderServer(s, t);
    case SAnswer(_, _) => OrderServer(s, t);
    case SPush(_, _, _) => OrderServer(s, t);
    case _ => OrderLocal(s, t);
  }

  // --------------------------------------------------------------- over whole runs

  lemma {:induction false} RunSnoc(a: Sys, steps: seq<Step>, b: Sys, t: Step)
    requires Run(a, steps, b) && Enabled(b, t)
    ensures Run(a, steps + [t], Apply(b, t))
    decreases |steps|
  {
    if steps == [] {
      assert ([] + [t])[1..] == [];
    } else {
      RunSnoc(Apply(a, steps[0]), steps[1..], b, t);
      assert (steps + [t])[1..] == steps[1..] + [t];
    }
  }

  lemma {:induction false} RunKeepsInv(s: Sys, steps: seq<Step>, s': Sys)
    requires Inv(s) && Run(s, steps, s')
    ensures Inv(s')
    decreases |steps|
  {
    if steps != [] {
      LedgerApply(s, steps[0]);
      ShapeApply(s, steps[0]);
      OrderApply(s, steps[0]);
      RunKeepsInv(Apply(s, steps[0]), steps[1..], s');
    }
  }

  /** In every run, whatever the partial sends, watch events, reconnects and errors: a
      reply taken from the queue belongs to the oldest outstanding request, so neither
      the out-of-order branch nor the assertion before it is reached; and the client
      reads a handshake exactly when a handshake is what comes next. */
  lemma RepliesComeInOrder(steps: seq<Step>, s: Sys)
    requires Run(INITIAL, steps, s)
    ensures s.c.toProcess != [] ==>
      s.c.toProcess[0].Frame? && (Judge(s.c) == Handled || Judge(s.c) == AuthRefused)
    ensures s.c.open && s.s2c != [] ==> (s.c.primer <==> s.s2c[0].Handshake?)
    ensures s.c.headSent > 0 ==> s.c.state == Connected
  {
    RunKeepsInv(INITIAL, steps, s);
    if s.c.toProcess != [] { InOrderHere(s); }
    if s.s2c != [] { assert s.s2c[0] in s.s2c; }
  }

  lemma {:induction false} SelectCounts(es: seq<Entry>, e: Entry)
    ensures multiset(Select(es, KindOf(e)))[e] == multiset(es)[e]
  {
    if es != [] {
      SelectCounts(es[1..], e);
      assert es == [es[0]] + es[1..];
    }
  }

  /** Everything the client still knows about requests, finished ones included. */
  ghost function Everywhere(c: Client): seq<Entry> {
    Entries(c.finished) + Entries(c.completions) + c.sent
  }

  /** In every run each issued request is in exactly one place, once. */
  lemma EveryRequestOnce(steps: seq<Step>, s: Sys, i: nat)
    requires Run(INITIAL, steps, s) && i < |s.c.issued|
    ensures multiset(Everywhere(s.c))[s.c.issued[i]] == 1
  {
    RunKeepsInv(INITIAL, steps, s);
    PlacedOnce(s.c, i);
  }

  lemma PlacedOnce(c: Client, i: nat)
    requires LedgerOk(c) && i < |c.issued|
    ensures multiset(Everywhere(c))[c.issued[i]] == 1
  {
    var e := c.issued[i];
    var k := KindOf(e);
    assert Places(c, k) == Select(c.issued, k);
    SelectAppend(Entries(c.finished), Entries(c.completions), k);
    SelectAppend(Entries(c.finished) + Entries(c.completions), c.sent, k);
    assert Select(Everywhere(c), k) == Places(c, k);
    SelectCounts(Everywhere(c), e);
    SelectCounts(c.issued, e);
    OnceIssued(c.issued, i);
  }

  /** In every run callbacks are made in the order of the calls; a request that ended
      with a header, real or made up on a lost connection, saw its own id; and
      `outstanding_sync` is the number of callers that still wait. */
  lemma EndsInOrder(steps: seq<Step>, s: Sys)
    requires Run(INITIAL, steps, s)
    ensures Select(Entries(s.c.finished), Async) <= Select(s.c.issued, Async)
    ensures forall d | d in s.c.finished + s.c.completions && d.entry.Request? && d.outcome.Replied? ::
      d.outcome.header.Frame? && d.outcome.header.xid == d.entry.xid
    ensures s.c.outstandingSync == |Select(s.c.sent, Sync)|
  {
    RunKeepsInv(INITIAL, steps, s);
    assert Places(s.c, Async) == Select(s.c.issued, Async);
    assert forall d | d in s.c.finished + s.c.completions :: d in s.c.completions + s.c.finished;
  }

  lemma OnceIssued(es: seq<Entry>, i: nat)
    requires i < |es| && forall j | 0 <= j < |es| :: es[j].Request? && es[j].id == j
    ensures multiset(es)[es[i]] == 1
  {
    assert es == es[..i] + [es[i]] + es[i + 1..];
    assert es[i] !in es[..i] && es[i] !in es[i + 1..];
  }

  /** When nothing is in flight nothing is outstanding: no request is forgotten, across
      any number of lost connections. */
  lemma QuietMeansDone(steps: seq<Step>, s: Sys)
    requires Run(INITIAL, steps, s)
    requires s.c.toSend == s.c.toProcess == s.c2s == s.pending == s.s2c == []
    ensures s.c.sent == []
    ensures forall e | e in s.c.issued :: e in Entries(s.c.finished) + Entries(s.c.completions)
  {
    RunKeepsInv(INITIAL, steps, s);
    assert |Xids(s.c.sent)| == 0;
    forall e | e in s.c.issued ensures e in Entries(s.c.finished) + Entries(s.c.completions) {
      var i :| 0 <= i < |s.c.issued| && s.c.issued[i] == e;
      EveryRequestOnce(steps, s, i);
      assert e in multiset(Everywhere(s.c));
    }
  }
}

/** How requests end and what watchers are told, over every run: the steps of a run say who is told
    what, and the client's lists hold just that. */
module PipelineOutcomes {
  import opened Common
  import opened Pipeline
  import opened PipelineSafety

  // ------------------------------------------------------------------ what a step tells

  ghost function OfKind(ds: seq<Done>, k: Kind): seq<Done> {
    if ds == [] then [] else (if KindOf(ds[0].entry) == k then [ds[0]] else []) + OfKind(ds[1..], k)
  }

  lemma {:induction false} OfKindAppend(a: seq<Done>, b: seq<Done>, k: Kind)
    ensures OfKind(a + b, k) == OfKind(a, k) + OfKind(b, k)
  {
    if a == [] {
      assert a + b == b;
    } else {
      assert (a + b)[1..] == a[1..] + b && (a + b)[0] == a[0];
      OfKindAppend(a[1..], b, k);
    }
  }

  lemma OneOfKind(d: Done, k: Kind)
    ensures OfKind([d], k) == (if KindOf(d.entry) == k then [d] else []) && OfKind([], k) == []
  {
    assert [d][1..] == [];
  }

  /** Everything of a kind that has been delivered or can be, with its outcome, in order. */
  ghost function Told(c: Client, k: Kind): seq<Done> {
    OfKind(c.finished, k) + OfKind(c.completions, k)
  }

  /** The code with which a step brings the connection down, if it does. */
  function Failure(s: Sys, t: Step): Option<int32>
    requires Enabled(s, t)
  {
    var c := s.c;
    match t
    case CError(rc) => Some(rc)
    case CReceive(_, _) =>
      if c.primer && c.session != 0 && s.s2c[0].session != c.session then Some(ZSESSIONEXPIRED) else None
    case CProcess =>
      var hdr := c.toProcess[0];
      if hdr.xid == AUTH_XID && hdr.err != 0 then Some(ZAUTHFAILED)
      else if !Reserved(hdr.xid) && c.sent != [] && XidOf(c.sent[0]) != hdr.xid then Some(ZRUNTIMEINCONSISTENCY)
      else None
    case _ => None
  }

  /** What a request is told that is lost with its connection: a caller that waits and a ping only the
      code, a callback a header with its own id, no zxid and the code. */
  function Lost(e: Entry, rc: int32): Done {
    if KindOf(e) == Async then Done(e, Replied(Frame(XidOf(e), -1, rc))) else Done(e, ConnectionLost(rc))
  }

  ghost function AllLost(es: seq<Entry>, rc: int32): seq<Done> {
    seq(|es|, i requires 0 <= i < |es| => Lost(es[i], rc))
  }

  /** Does the application hear of the end of this connection?  Not if the session was never there. */
  predicate Noticed(s: Sys, t: Step) {
    !t.CError? || s.c.state == Connected || Unrecoverable(s.c.state)
  }

  /** Who is told what by a step. */
  ghost function Fate(s: Sys, t: Step): seq<Done>
    requires Enabled(s, t)
  {
    var c := s.c;
    match Failure(s, t)
    case Some(rc) => (if Noticed(s, t) then [SessionEvent()] else []) + AllLost(c.sent, rc)
    case None =>
      if t.CReceive? && c.primer then [SessionEvent()]
      else if t.CProcess? && c.toProcess[0].xid == WATCHER_EVENT_XID then [Done(Watch, Replied(c.toProcess[0]))]
      else if t.CProcess? && !Reserved(c.toProcess[0].xid) && c.sent != [] then [Done(c.sent[0], Replied(c.toProcess[0]))]
      else []
  }

  // ------------------------------------------------------------------ one step

  /** Requests alone are outstanding, and callbacks and events alone wait for delivery. */
  ghost predicate InPlace(c: Client) {
    && (forall e | e in c.sent :: e.Request?)
    && (forall d | d in c.completions :: KindOf(d.entry) == Async || KindOf(d.entry) == Event)
  }

  lemma {:induction false} NoneOfKind(ds: seq<Done>, k: Kind)
    requires forall d | d in ds :: KindOf(d.entry) != k
    ensures OfKind(ds, k) == []
  {
    if ds != [] { NoneOfKind(ds[1..], k); }
  }

  lemma Regrouped<T>(f: seq<T>, d: seq<T>, x: seq<T>)
    ensures f + (d + x) == (f + d) + x
    ensures d == [] ==> (f + x) + d == (f + d) + x
  {
  }

  lemma ReadyTold(c: Client, d: Done, k: Kind)
    ensures Told(c.(completions := c.completions + [d]), k) == Told(c, k) + if KindOf(d.entry) == k then [d] else []
  {
    hide OfKind;
    OfKindAppend(c.completions, [d], k);
    OneOfKind(d, k);
    Regrouped(OfKind(c.finished, k), OfKind(c.completions, k), OfKind([d], k));
  }

  lemma EndedTold(c: Client, quiet: Outcome, reply: Outcome, k: Kind)
    requires InPlace(c) && c.sent != []
    ensures var e := c.sent[0];
      Told(EndFirst(c, quiet, reply), k) ==
        Told(c, k) + if KindOf(e) == k then [Done(e, if KindOf(e) == Async then reply else quiet)] else []
    ensures InPlace(EndFirst(c, quiet, reply))
  {
    hide OfKind, Told;
    var e := c.sent[0];
    if KindOf(e) == Async {
      ReadyTold(c.(sent := c.sent[1..]), Done(e, reply), k);
      assert Told(c.(sent := c.sent[1..]), k) == Told(c, k) by { SameTold(c, c.(sent := c.sent[1..]), k); }
      SameTold(EndFirst(c, quiet, reply), c.(completions := c.completions + [Done(e, reply)]), k);
    } else {
      FinishedTold(c, Done(e, quiet), k);
      SameTold(EndFirst(c, quiet, reply), c.(finished := c.finished + [Done(e, quiet)]), k);
    }
  }

  lemma SameTold(c: Client, c': Client, k: Kind)
    requires c.finished == c'.finished && c.completions == c'.completions
    ensures Told(c, k) == Told(c', k)
  {
  }

  lemma FinishedTold(c: Client, d: Done, k: Kind)
    requires InPlace(c) && (KindOf(d.entry) == Sync || KindOf(d.entry) == Ping)
    ensures Told(c.(finished := c.finished + [d]), k) == Told(c, k) + if KindOf(d.entry) == k then [d] else []
  {
    hide OfKind;
    OfKindAppend(c.finished, [d], k);
    OneOfKind(d, k);
    if KindOf(d.entry) == k { NoneOfKind(c.completions, k); }
    Regrouped(OfKind(c.finished, k), OfKind(c.completions, k), OfKind([d], k));
  }

  lemma FirstFreed(c: Client, rc: int32, k: Kind)
    requires InPlace(c) && c.sent != []
    ensures FreeFirst(c, rc).sent == c.sent[1..] && InPlace(FreeFirst(c, rc))
    ensures Told(FreeFirst(c, rc), k) == Told(c, k) + OfKind([Lost(c.sent[0], rc)], k)
  {
    hide Told, InPlace;
    EndedTold(c, ConnectionLost(rc), Replied(Frame(XidOf(c.sent[0]), -1, rc)), k);
    OneOfKind(Lost(c.sent[0], rc), k);
  }

  lemma LostFirst(es: seq<Entry>, rc: int32, k: Kind)
    ensures AllLost([], rc) == [] == OfKind([], k)
    ensures es != [] ==> OfKind(AllLost(es, rc), k) == OfKind([Lost(es[0], rc)], k) + OfKind(AllLost(es[1..], rc), k)
  {
    hide OfKind, Lost;
    OneOfKind(SessionEvent(), k);
    if es != [] {
      assert AllLost(es, rc) == [Lost(es[0], rc)] + AllLost(es[1..], rc);
      OfKindAppend([Lost(es[0], rc)], AllLost(es[1..], rc), k);
    }
  }

  /** Failing all outstanding requests tells each one the code, and nobody else anything. */
  lemma {:induction false} FreedTold(c: Client, rc: int32, k: Kind)
    requires InPlace(c)
    ensures Told(FreeCompletions(c, rc), k) == Told(c, k) + OfKind(AllLost(c.sent, rc), k)
    decreases |c.sent|
  {
    hide Told, InPlace, FreeFirst, OfKind, AllLost, Lost;
    LostFirst(c.sent, rc, k);
    if c.sent != [] {
      FirstFreed(c, rc, k);
      FreedTold(FreeFirst(c, rc), rc, k);
    }
  }

  lemma ErrorTold(c: Client, rc: int32, k: Kind)
    requires InPlace(c)
    ensures Told(HandleError(c, rc), k) == Told(c, k)
      + OfKind((if Unrecoverable(c.state) || c.state == Connected then [SessionEvent()] else []) + AllLost(c.sent, rc), k)
  {
    hide OfKind, FreeCompletions;
    var events := if Unrecoverable(c.state) || c.state == Connected then [SessionEvent()] else [];
    var c1 := c.(completions := c.completions + events, toSend := [], headSent := 0, toProcess := []);
    if events == [] { assert c.completions + [] == c.completions; } else { ReadyTold(c, SessionEvent(), k); }
    OneOfKind(SessionEvent(), k);
    OfKindAppend(events, AllLost(c.sent, rc), k);
    FreedTold(c1, rc, k);
    FreeCompletionsFrame(c1, rc);
  }

  lemma DeliveredTold(c: Client, k: Kind)
    requires c.completions != []
    ensures Told(Deliver(c), k) == Told(c, k)
  {
    hide OfKind;
    var d := c.completions[0];
    assert c.completions == [d] + c.completions[1..];
    OfKindAppend([d], c.completions[1..], k);
    OfKindAppend(c.finished, [d], k);
    Regrouped(OfKind(c.finished, k), OfKind([d], k), OfKind(c.completions[1..], k));
  }

  lemma ReceivedTold(s: Sys, t: Step, k: Kind)
    requires InPlace(s.c) && Enabled(s, t) && t.CReceive?
    ensures Told(Apply(s, t).c, k) == Told(s.c, k) + OfKind(Fate(s, t), k)
  {
    hide OfKind, HandleError;
    OneOfKind(SessionEvent(), k);
    if Failure(s, t).Some? {
      ErrorTold(s.c.(state := Expired), ZSESSIONEXPIRED, k);
    } else if s.c.primer {
      ReadyTold(s.c, SessionEvent(), k);
    }
  }

  /** The head of `to_process` is taken off. */
  function Popped(c: Client): Client
    requires c.toProcess != [] && c.toProcess[0].Frame?
  {
    c.(toProcess := c.toProcess[1..], lastZxid := if c.toProcess[0].zxid > 0 then c.toProcess[0].zxid else c.lastZxid)
  }

  lemma ProcessedTold(s: Sys, k: Kind)
    requires InPlace(s.c) && Enabled(s, CProcess) && s.c.state == Connected
    ensures Told(Apply(s, CProcess).c, k) == Told(s.c, k) + OfKind(Fate(s, CProcess), k)
  {
    hide OfKind, Told, HandleError, EndFirst, InPlace;
    var c, c1 := s.c, Popped(s.c);
    var hdr := c.toProcess[0];
    SameTold(c, c1, k);
    OneOfKind(Done(Watch, Replied(hdr)), k);
    assert Apply(s, CProcess).c == ProcessReply(c);
    if Failure(s, CProcess).Some? {
      FailedTold(s, k);
    } else if hdr.xid == WATCHER_EVENT_XID {
      ReadyTold(c1, Done(Watch, Replied(hdr)), k);
    } else if !Reserved(hdr.xid) && c.sent != [] {
      OneOfKind(Done(c.sent[0], Replied(hdr)), k);
      InPlacePopped(c);
      EndedTold(c1, Replied(hdr), Replied(hdr), k);
    }
  }

  lemma InPlacePopped(c: Client)
    requires InPlace(c) && c.toProcess != [] && c.toProcess[0].Frame?
    ensures InPlace(Popped(c))
  {
  }

  lemma FailedTold(s: Sys, k: Kind)
    requires InPlace(s.c) && Enabled(s, CProcess) && s.c.state == Connected && Failure(s, CProcess).Some?
    ensures Told(ProcessReply(s.c), k) == Told(s.c, k) + OfKind(Fate(s, CProcess), k)
  {
    hide OfKind, Told, HandleError, EndFirst, InPlace;
    var c, c1 := s.c, Popped(s.c);
    InPlacePopped(c);
    SameTold(c, c1, k);
    if c.toProcess[0].xid == AUTH_XID {
      SameTold(c, c1.(state := AuthFailed), k);
      InPlaceIn(c1, AuthFailed);
      ErrorTold(c1.(state := AuthFailed), ZAUTHFAILED, k);
    } else {
      ErrorTold(c1, ZRUNTIMEINCONSISTENCY, k);
    }
  }

  lemma InPlaceIn(c: Client, state: Session)
    requires InPlace(c)
    ensures InPlace(c.(state := state))
  {
  }

  lemma InPlaceHere(s: Sys)
    requires Inv(s)
    ensures InPlace(s.c) && (s.c.toProcess != [] ==> s.c.state == Connected)
  {
  }

  /** A step tells what its fate says, and nothing that was told is taken back. */
  lemma StepTells(s: Sys, t: Step, k: Kind)
    requires Inv(s) && Enabled(s, t)
    ensures Told(Apply(s, t).c, k) == Told(s.c, k) + OfKind(Fate(s, t), k)
  {
    hide Inv, OfKind, HandleError, ProcessReply, Receive, InPlace;
    InPlaceHere(s);
    OneOfKind(SessionEvent(), k);
    match t
    case CReceive(_, _) => ReceivedTold(s, t, k);
    case CProcess => ProcessedTold(s, k);
    case CError(rc) => ErrorTold(s.c, rc, k);
    case CDeliver => DeliveredTold(s.c, k);
    case _ =>
  }

  // ------------------------------------------------------------------ whole runs

  /** Who is told what by the steps of a run. */
  ghost function Log(s: Sys, steps: seq<Step>): seq<Done>
    decreases |steps|
  {
    if steps == [] || !Enabled(s, steps[0]) then []
    else Fate(s, steps[0]) + Log(Apply(s, steps[0]), steps[1..])
  }

  lemma InvStep(s: Sys, t: Step)
    requires Inv(s) && Enabled(s, t)
    ensures Inv(Apply(s, t))
  {
    LedgerApply(s, t);
    ShapeApply(s, t);
    OrderApply(s, t);
  }

  lemma {:induction false} RunTells(s: Sys, steps: seq<Step>, s': Sys, k: Kind)
    requires Inv(s) && Run(s, steps, s')
    ensures Told(s'.c, k) == Told(s.c, k) + OfKind(Log(s, steps), k)
    decreases |steps|
  {
    hide Inv, Told, Fate, Enabled, Apply;
    if steps != [] {
      StepTells(s, steps[0], k);
      InvStep(s, steps[0]);
      RunTells(Apply(s, steps[0]), steps[1..], s', k);
      OfKindAppend(Fate(s, steps[0]), Log(Apply(s, steps[0]), steps[1..]), k);
    }
  }

  lemma InitialInv()
    ensures Inv(INITIAL)
  {
  }

  /** In every run the callbacks, the waiting callers, the pings and the watchers have each been told
      exactly what the steps of the run say, in that order. */
  lemma OutcomesInOrder(steps: seq<Step>, s: Sys, k: Kind)
    requires Run(INITIAL, steps, s)
    ensures Told(s.c, k) == OfKind(Log(INITIAL, steps), k)
  {
    hide Inv;
    InitialInv();
    RunTells(INITIAL, steps, s, k);
  }

  lemma {:induction false} OfKindMember(ds: seq<Done>, d: Done)
    ensures d in OfKind(ds, KindOf(d.entry)) <==> d in ds
  {
    if ds != [] { OfKindMember(ds[1..], d); }
  }

  lemma {:induction false} Logged(s: Sys, steps: seq<Step>, s': Sys, d: Done) returns (i: nat, u: Sys)
    requires Run(s, steps, s') && d in Log(s, steps)
    ensures i < |steps| && Run(s, steps[..i], u) && Enabled(u, steps[i]) && d in Fate(u, steps[i])
    decreases |steps|
  {
    hide Fate, Enabled, Apply;
    if d in Fate(s, steps[0]) {
      i, u := 0, s;
    } else {
      i, u := Logged(Apply(s, steps[0]), steps[1..], s', d);
      assert steps[..i + 1][0] == steps[0] && steps[..i + 1][1..] == steps[1..][..i];
      i := i + 1;
    }
  }

  /** In every run a request that has ended was outstanding at some step, and either that step brought
      the connection down and the request was told its code, or it was the oldest and that step handed
      it the reply that came next, error, zxid and all. */
  lemma WhyItEnded(steps: seq<Step>, s: Sys, d: Done) returns (i: nat, u: Sys)
    requires Run(INITIAL, steps, s) && d in s.c.finished + s.c.completions && d.entry.Request?
    ensures i < |steps| && Run(INITIAL, steps[..i], u) && Enabled(u, steps[i]) && d.entry in u.c.sent
    ensures match Failure(u, steps[i])
            case Some(rc) =>
              if d.entry.sync || d.entry.xid == PING_XID then d.outcome == ConnectionLost(rc)
              else d.outcome == Replied(Frame(d.entry.xid, -1, rc))
            case None => steps[i] == CProcess && d.entry == u.c.sent[0] && d.outcome == Replied(u.c.toProcess[0])
  {
    hide Inv, Run, Told, Log;
    InTold(s.c, d);
    OutcomesInOrder(steps, s, KindOf(d.entry));
    OfKindMember(Log(INITIAL, steps), d);
    i, u := Logged(INITIAL, steps, s, d);
    InFate(u, steps[i], d);
  }

  lemma InFate(s: Sys, t: Step, d: Done)
    requires Enabled(s, t) && d in Fate(s, t) && d.entry.Request?
    ensures d.entry in s.c.sent
    ensures match Failure(s, t)
            case Some(rc) => d == Lost(d.entry, rc)
            case None => t == CProcess && d.entry == s.c.sent[0] && d.outcome == Replied(s.c.toProcess[0])
  {
  }

  lemma InTold(c: Client, d: Done)
    ensures d in Told(c, KindOf(d.entry)) <==> d in c.finished + c.completions
  {
    OfKindMember(c.finished, d);
    OfKindMember(c.completions, d);
  }

  // ------------------------------------------------------------------ watch events

  /** The watch events among packets. */
  ghost function Watched(ps: seq<Packet>): seq<Packet> {
    if ps == [] then []
    else (if ps[0].Frame? && ps[0].xid == WATCHER_EVENT_XID then [ps[0]] else []) + Watched(ps[1..])
  }

  lemma {:induction false} WatchedAppend(a: seq<Packet>, b: seq<Packet>)
    ensures Watched(a + b) == Watched(a) + Watched(b)
  {
    if a == [] {
      assert a + b == b;
    } else {
      assert (a + b)[1..] == a[1..] + b && (a + b)[0] == a[0];
      WatchedAppend(a[1..], b);
    }
  }

  lemma WatchedOne(p: Packet)
    ensures Watched([p]) == (if p.Frame? && p.xid == WATCHER_EVENT_XID then [p] else []) && Watched([]) == []
  {
    assert [p][1..] == [];
  }

  /** Of the present connection: the watch events the server has sent, and those whose watchers have
      been called or are due.  Of all connections: the replies taken off `to_process`. */
  datatype Heard = Heard(pushed: seq<Packet>, taken: seq<Packet>, replies: seq<Packet>)

  ghost function Hear(h: Heard, s: Sys, t: Step): Heard
    requires Enabled(s, t)
  {
    var replies := if t.CProcess? then h.replies + [s.c.toProcess[0]] else h.replies;
    if t.CPrime? || Failure(s, t).Some? then Heard([], [], replies)
    else Heard(if t.SPush? then h.pushed + Watched([Frame(t.xid, t.zxid, t.err)]) else h.pushed,
               if t.CProcess? then h.taken + Watched([s.c.toProcess[0]]) else h.taken, replies)
  }

  ghost function HeardIn(h: Heard, s: Sys, steps: seq<Step>): Heard
    decreases |steps|
  {
    if steps == [] || !Enabled(s, steps[0]) then h else HeardIn(Hear(h, s, steps[0]), Apply(s, steps[0]), steps[1..])
  }

  /** The last positive zxid, or 0. */
  function LastPositive(ps: seq<Packet>): int64
    requires Frames(ps)
  {
    if ps == [] then 0
    else if ps[|ps| - 1].zxid > 0 then ps[|ps| - 1].zxid
    else LastPositive(ps[..|ps| - 1])
  }

  ghost predicate HeardOk(s: Sys, h: Heard) {
    && h.pushed == h.taken + Coming(s)
    && (forall p | p in h.taken :: Done(Watch, Replied(p)) in s.c.finished + s.c.completions)
    && Frames(h.replies) && s.c.lastZxid == LastPositive(h.replies)
  }

  lemma {:induction false} WatchedMember(ps: seq<Packet>, p: Packet)
    ensures p in Watched(ps) <==> p in ps && p.Frame? && p.xid == WATCHER_EVENT_XID
  {
    if ps != [] { WatchedMember(ps[1..], p); }
  }

  lemma OneMoreReply(ps: seq<Packet>, p: Packet)
    requires Frames(ps) && p.Frame?
    ensures Frames(ps + [p]) && LastPositive(ps + [p]) == if p.zxid > 0 then p.zxid else LastPositive(ps)
  {
    assert (ps + [p])[..|ps|] == ps;
  }

  /** What is ready or delivered stays so. */
  lemma StillTold(s: Sys, t: Step, d: Done)
    requires Inv(s) && Enabled(s, t) && d in s.c.finished + s.c.completions
    ensures d in Apply(s, t).c.finished + Apply(s, t).c.completions
  {
    hide Inv, Told, Fate, Apply;
    StepTells(s, t, KindOf(d.entry));
    InTold(s.c, d);
    InTold(Apply(s, t).c, d);
  }

  lemma TellsFate(s: Sys, t: Step, d: Done)
    requires Inv(s) && Enabled(s, t) && d in Fate(s, t)
    ensures d in Apply(s, t).c.finished + Apply(s, t).c.completions
  {
    hide Inv, Told, Fate, Apply;
    StepTells(s, t, KindOf(d.entry));
    OfKindMember(Fate(s, t), d);
    InTold(Apply(s, t).c, d);
  }

  /** The lists and the zxid after a step: after a failure nothing is left of the connection. */
  lemma ProcessedLists(s: Sys)
    requires Inv(s) && Enabled(s, CProcess)
    ensures var s' := Apply(s, CProcess);
      && (if Failure(s, CProcess).Some? then s'.c.toProcess == s'.s2c == []
          else s'.c.toProcess == s.c.toProcess[1..] && s'.s2c == s.s2c)
      && s'.c.lastZxid == Popped(s.c).lastZxid
  {
    hide HandleError;
    ErrorFrame(Popped(s.c).(state := AuthFailed), ZAUTHFAILED);
    ErrorFrame(Popped(s.c), ZRUNTIMEINCONSISTENCY);
  }

  lemma ErrorFrame(c: Client, rc: int32)
    ensures var c' := HandleError(c, rc);
      && c'.toProcess == [] && !c'.open && c'.lastZxid == c.lastZxid && c'.session == c.session
      && c'.state == if Unrecoverable(c.state) then c.state else Closed
  {
    var events := if Unrecoverable(c.state) || c.state == Connected then [SessionEvent()] else [];
    FreeCompletionsFrame(c.(completions := c.completions + events, toSend := [], headSent := 0, toProcess := []), rc);
  }

  lemma ReceivedLists(s: Sys, t: Step)
    requires Inv(s) && Enabled(s, t) && t.CReceive?
    ensures var s' := Apply(s, t);
      && (if Failure(s, t).Some? then s'.c.toProcess == s'.s2c == []
          else s'.s2c == s.s2c[1..] && s'.c.toProcess == s.c.toProcess + if s.c.primer then [] else [s.s2c[0]])
      && s'.c.lastZxid == s.c.lastZxid
  {
    hide HandleError;
    ErrorFrame(s.c.(state := Expired), ZSESSIONEXPIRED);
  }

  /** The watch events of the present connection that have not been told of. */
  ghost function Coming(s: Sys): seq<Packet> {
    Watched(s.c.toProcess) + Watched(s.s2c)
  }

  /** They stay in order on their way through the wire and the queue. */
  lemma WatchesMove(s: Sys, h: Heard, t: Step)
    requires Inv(s) && HeardOk(s, h) && Enabled(s, t)
    ensures Hear(h, s, t).pushed == Hear(h, s, t).taken + Coming(Apply(s, t))
  {
    hide Watched, ProcessReply, Receive, HandleError, Inv;
    WatchedOne(Handshake(0));
    match t
    case CProcess => WatchProcessed(s); Shift(h.taken, Watched([s.c.toProcess[0]]), Watched(s.c.toProcess[1..]), Watched(s.s2c));
    case CReceive(_, _) => WatchReceived(s, t);
    case CError(rc) => ErrorFrame(s.c, rc);
    case CPrime => NothingYet(s);
    case SGreet(_) => WatchServed(s, t, Handshake(t.session));
    case SAnswer(zxid, err) => Answered(s, zxid, err); WatchServed(s, t, Frame(s.pending[0].xid, zxid, err));
    case SPush(xid, zxid, err) => WatchServed(s, t, Frame(xid, zxid, err));
    case _ =>
  }

  lemma WatchProcessed(s: Sys)
    requires Inv(s) && Enabled(s, CProcess)
    ensures var x := s.c.toProcess;
      && Watched(x) == Watched([x[0]]) + Watched(x[1..])
      && Coming(Apply(s, CProcess)) == if Failure(s, CProcess).Some? then [] else Watched(x[1..]) + Watched(s.s2c)
  {
    hide Watched, ProcessReply, Inv;
    var x := s.c.toProcess;
    WatchedOne(Handshake(0));
    ProcessedLists(s);
    assert x == [x[0]] + x[1..];
    WatchedAppend([x[0]], x[1..]);
  }

  lemma WatchReceived(s: Sys, t: Step)
    requires Inv(s) && Enabled(s, t) && t.CReceive?
    ensures Coming(Apply(s, t)) == if Failure(s, t).Some? then [] else Coming(s)
  {
    hide Watched, Receive, Inv;
    var x, y := s.c.toProcess, s.s2c;
    WatchedOne(Handshake(0));
    WatchedOne(y[0]);
    ReceivedLists(s, t);
    assert y == [y[0]] + y[1..] && x + [] == x;
    WatchedAppend([y[0]], y[1..]);
    WatchedAppend(x, [y[0]]);
  }

  lemma WatchServed(s: Sys, t: Step, p: Packet)
    requires Enabled(s, t) && Apply(s, t).s2c == s.s2c + [p] && Apply(s, t).c == s.c
    ensures Coming(Apply(s, t)) == Coming(s) + Watched([p])
    ensures p.Handshake? ==> Watched([p]) == [] && Coming(Apply(s, t)) == Coming(s)
  {
    hide Watched, Apply, Enabled;
    WatchedAppend(s.s2c, [p]);
    WatchedOne(p);
  }

  lemma Shift<T>(a: seq<T>, b: seq<T>, c: seq<T>, d: seq<T>)
    ensures a + ((b + c) + d) == (a + b) + (c + d) == a + (b + (c + d)) == (a + (b + c)) + d
  {
  }

  lemma NothingYet(s: Sys)
    requires Inv(s) && Enabled(s, CPrime)
    ensures s.c.toProcess == []
  {
  }

  lemma Answered(s: Sys, zxid: int64, err: int32)
    requires Inv(s) && s.pending != [] && s.pending[0].Frame?
    ensures Watched([Frame(s.pending[0].xid, zxid, err)]) == []
  {
    WatchedOne(Frame(s.pending[0].xid, zxid, err));
    assert s.pending[0] in s.pending;
  }

  lemma HeardStep(s: Sys, h: Heard, t: Step)
    requires Inv(s) && HeardOk(s, h) && Enabled(s, t)
    ensures HeardOk(Apply(s, t), Hear(h, s, t))
  {
    hide Inv, Watched, LastPositive, Frames;
    WatchesMove(s, h, t);
    TakenTold(s, h, t);
    RepliesRead(s, h, t);
  }

  lemma TakenTold(s: Sys, h: Heard, t: Step)
    requires Inv(s) && HeardOk(s, h) && Enabled(s, t)
    ensures forall p | p in Hear(h, s, t).taken ::
      Done(Watch, Replied(p)) in Apply(s, t).c.finished + Apply(s, t).c.completions
  {
    hide Inv, Watched, Apply;
    forall p | p in Hear(h, s, t).taken
      ensures Done(Watch, Replied(p)) in Apply(s, t).c.finished + Apply(s, t).c.completions
    {
      var d := Done(Watch, Replied(p));
      if p in h.taken {
        StillTold(s, t, d);
      } else {
        WatchedMember([s.c.toProcess[0]], p);
        TellsFate(s, t, d);
      }
    }
  }

  lemma RepliesRead(s: Sys, h: Heard, t: Step)
    requires Inv(s) && HeardOk(s, h) && Enabled(s, t)
    ensures Frames(Hear(h, s, t).replies) && Apply(s, t).c.lastZxid == LastPositive(Hear(h, s, t).replies)
  {
    hide Inv, Watched, LastPositive, Frames, ProcessReply, Receive, HandleError;
    match t
    case CProcess => ProcessedLists(s); OneMoreReply(h.replies, s.c.toProcess[0]);
    case CReceive(_, _) => ReceivedLists(s, t);
    case CError(rc) => ErrorFrame(s.c, rc);
    case _ =>
  }

  lemma {:induction false} RunHears(s: Sys, h: Heard, steps: seq<Step>, s': Sys)
    requires Inv(s) && HeardOk(s, h) && Run(s, steps, s')
    ensures HeardOk(s', HeardIn(h, s, steps))
    decreases |steps|
  {
    hide Inv, HeardOk, Hear, Enabled, Apply;
    if steps != [] {
      HeardStep(s, h, steps[0]);
      InvStep(s, steps[0]);
      RunHears(Apply(s, steps[0]), Hear(h, s, steps[0]), steps[1..], s');
    }
  }

  /** In every run the watch events the server has sent on the present connection are, in this order,
      those whose watchers have been called or are due, those received and those on the wire. */
  lemma WatchEventsKept(steps: seq<Step>, s: Sys)
    requires Run(INITIAL, steps, s)
    ensures var h := HeardIn(Heard([], [], []), INITIAL, steps);
      && h.pushed == h.taken + Coming(s)
      && forall p | p in h.taken :: Done(Watch, Replied(p)) in s.c.finished + s.c.completions
  {
    hide Inv;
    InitialInv();
    NoneHeard();
    RunHears(INITIAL, Heard([], [], []), steps, s);
  }

  /** `last_zxid` is the last positive zxid of all the replies read. */
  lemma LastZxidIs(steps: seq<Step>, s: Sys)
    requires Run(INITIAL, steps, s)
    ensures var h := HeardIn(Heard([], [], []), INITIAL, steps);
      Frames(h.replies) && s.c.lastZxid == LastPositive(h.replies)
  {
    hide Inv;
    InitialInv();
    NoneHeard();
    RunHears(INITIAL, Heard([], [], []), steps, s);
  }

  lemma NoneHeard()
    ensures HeardOk(INITIAL, Heard([], [], []))
  {
    assert [] + (Watched([]) + Watched([])) == [];
  }

  // ------------------------------------------------------------------ the session

  /** A connect response ends the session exactly if it carries another id than the session has; if not,
      the client is connected under that id, and the credentials go out before anything else, then the
      watches, then what has waited. */
  lemma HandshakeDecides(s: Sys, w: bool, a: nat)
    requires Inv(s) && Enabled(s, CReceive(w, a)) && s.c.primer
    ensures var c, p, c' := s.c, s.s2c[0], Apply(s, CReceive(w, a)).c;
      && (c.session != 0 && p.session != c.session ==> c'.state == Expired && !c'.open)
      && (c.session == 0 || p.session == c.session ==>
           && c'.state == Connected && c'.session == p.session && !c'.primer
           && |c'.toSend| == a + (if w then 1 else 0) + |c.toSend|
           && (forall i | 0 <= i < a :: c'.toSend[i] == Frame(AUTH_XID, 0, 0))
           && (w ==> c'.toSend[a] == Frame(SET_WATCHES_XID, 0, 0))
           && c'.toSend[|c'.toSend| - |c.toSend|..] == c.toSend)
  {
    ErrorFrame(s.c.(state := Expired), ZSESSIONEXPIRED);
  }

  lemma SessionStep(s: Sys, t: Step)
    requires Inv(s) && Enabled(s, t)
    ensures s.c.session != 0 ==> Apply(s, t).c.session == s.c.session
    ensures Unrecoverable(s.c.state) ==> Apply(s, t).c.state == s.c.state
  {
    hide HandleError, ProcessReply, Receive, Inv;
    match t
    case CError(rc) => ErrorFrame(s.c, rc);
    case CReceive(_, _) => SessionReceived(s, t);
    case CProcess => SessionProcessed(s);
    case CConnect =>
    case CPrime => NotDead(s);
    case _ =>
  }

  lemma SessionReceived(s: Sys, t: Step)
    requires Inv(s) && Enabled(s, t) && t.CReceive?
    ensures !Unrecoverable(s.c.state) && (s.c.session != 0 ==> Apply(s, t).c.session == s.c.session)
  {
    hide HandleError;
    ErrorFrame(s.c.(state := Expired), ZSESSIONEXPIRED);
  }

  lemma SessionProcessed(s: Sys)
    requires Inv(s) && Enabled(s, CProcess)
    ensures !Unrecoverable(s.c.state) && Apply(s, CProcess).c.session == s.c.session
  {
    hide HandleError, Inv;
    ErrorFrame(Popped(s.c).(state := AuthFailed), ZAUTHFAILED);
    ErrorFrame(Popped(s.c), ZRUNTIMEINCONSISTENCY);
  }

  lemma NotDead(s: Sys)
    requires Enabled(s, CPrime)
    ensures !Unrecoverable(s.c.state)
  {
  }

  /** Once there is a session its id never changes, across any reconnects, and a session that is dead
      stays dead. */
  lemma {:induction false} SessionStays(s: Sys, steps: seq<Step>, s': Sys)
    requires Inv(s) && Run(s, steps, s')
    ensures s.c.session != 0 ==> s'.c.session == s.c.session
    ensures Unrecoverable(s.c.state) ==> s'.c.state == s.c.state
    decreases |steps|
  {
    hide Inv, Enabled, Apply;
    if steps != [] {
      SessionStep(s, steps[0]);
      InvStep(s, steps[0]);
      SessionStays(Apply(s, steps[0]), steps[1..], s');
    }
  }

  // ------------------------------------------------------------------ a run to the end

  lemma Go(steps: seq<Step>, s: Sys, t: Step) returns (steps': seq<Step>, s': Sys)
    requires Run(INITIAL, steps, s) && Enabled(s, t)
    ensures Run(INITIAL, steps', s') && s' == Apply(s, t)
  {
    hide Run, Enabled, Apply;
    RunSnoc(INITIAL, steps, s, t);
    steps', s' := steps + [t], Apply(s, t);
  }

  /** The client connects for the first time. */
  lemma Connects(session: int64) returns (steps: seq<Step>, s: Sys)
    ensures Run(INITIAL, steps, s) && s == Sys(FRESH.(state := Connected, open := true, session := session,
                                                      completions := [SessionEvent()]), true, [], [], [])
  {
    hide Run;
    NoSteps();
    steps, s := Go([], INITIAL, CPrime);
    steps, s := Go(steps, s, SGreet(session));
    assert s.s2c == [Handshake(session)] && s.c2s == [];
    steps, s := Go(steps, s, CReceive(false, 0));
    assert Preamble(false, 0) == [];
  }

  lemma NoSteps()
    ensures Run(INITIAL, [], INITIAL)
  {
  }

  /** And a request is queued, sent, taken, answered and received: its caller is told what the server said. */
  lemma OneRequest(session: int64, xid: int32, sync: bool, zxid: int64, err: int32) returns (steps: seq<Step>, s: Sys)
    requires !Reserved(xid) && xid != PING_XID
    ensures Run(INITIAL, steps, s) && s.c.state == Connected && s.c.session == session && s.c.sent == []
    ensures Done(Request(0, xid, sync), Replied(Frame(xid, zxid, err))) in s.c.finished + s.c.completions
  {
    hide Run;
    steps, s := Connects(session);
    steps, s := Go(steps, s, CSubmit(xid, sync));
    assert s.c.toSend == [Frame(xid, 0, 0)] && s.c.sent == [Request(0, xid, sync)];
    steps, s := Go(steps, s, CSendHead);
    assert s.c2s == [Frame(xid, 0, 0)] && s.c.toSend == [];
    steps, s := Go(steps, s, STake);
    assert s.pending == [Frame(xid, 0, 0)] && s.c2s == [];
    steps, s := Go(steps, s, SAnswer(zxid, err));
    assert s.s2c == [Frame(xid, zxid, err)] && s.pending == [];
    steps, s := Go(steps, s, CReceive(false, 0));
    assert s.c.toProcess == [Frame(xid, zxid, err)] && s.s2c == [];
    steps, s := Go(steps, s, CProcess);
  }
}

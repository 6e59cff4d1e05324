/** The client handle in place: the loops and updates of zookeeper.c, each proved to do
    what the function of the same section in `Pipeline` says. */
module ZHandle {
  import opened Pipeline
  import opened Common
  import opened LinkedQueue
  import opened PipelineSafety

  /** The loop of `zookeeper_process`: it stops at the first reply it refuses. */
  ghost function ProcessAll(c: Client): Client
    requires Frames(c.toProcess)
    decreases |c.toProcess|
  {
    if c.toProcess == [] then c
    else if Judge(c) != Handled then ProcessReply(c)
    else ProcessAll(ProcessReply(c))
  }

  ghost function DeliverAll(c: Client): Client
    decreases |c.completions|
  {
    if c.completions == [] then c else DeliverAll(Deliver(c))
  }

  ghost function Times(n: nat, t: Step): seq<Step> {
    seq(n, _ => t)
  }

  lemma InvApply(s: Sys, t: Step)
    requires Inv(s) && Enabled(s, t)
    ensures Inv(Apply(s, t))
  {
    LedgerApply(s, t);
    ShapeApply(s, t);
    OrderApply(s, t);
  }

  lemma RunPrepend(s: Sys, t: Step, n: nat, s': Sys)
    requires Enabled(s, t) && Run(Apply(s, t), Times(n, t), s')
    ensures Run(s, Times(n + 1, t), s')
  {
    assert Times(n + 1, t)[1..] == Times(n, t);
  }

  lemma ProcessReplyFrame(c: Client)
    requires c.toProcess != [] && c.toProcess[0].Frame?
    ensures var c' := ProcessReply(c);
      if Judge(c) == Handled || Judge(c) == AssertionFailed
      then c'.toProcess == c.toProcess[1..] && c'.state == c.state && c'.open == c.open
      else c'.toProcess == []
  {
    var hdr := c.toProcess[0];
    var c1 := c.(toProcess := c.toProcess[1..], lastZxid := if hdr.zxid > 0 then hdr.zxid else c.lastZxid);
    HandleErrorFrame(c1.(state := AuthFailed), ZAUTHFAILED);
    HandleErrorFrame(c1, ZRUNTIMEINCONSISTENCY);
  }

  /** The loop is a run of the system, so it inherits what every run keeps. */
  lemma {:induction false} ProcessAllIsRun(s: Sys) returns (n: nat, s': Sys)
    requires Inv(s) && !Unrecoverable(s.c.state)
    ensures Frames(s.c.toProcess) && Run(s, Times(n, CProcess), s') && s'.c == ProcessAll(s.c)
    ensures s'.c.toProcess == []
    decreases |s.c.toProcess|
  {
    if s.c.toProcess == [] {
      n, s' := 0, s;
    } else {
      InOrderHere(s);
      ProcessReplyFrame(s.c);
      var s1 := Apply(s, CProcess);
      assert s1.c == ProcessReply(s.c);
      if Judge(s.c) == Handled {
        InvApply(s, CProcess);
        n, s' := ProcessAllIsRun(s1);
      } else {
        n, s' := 0, s1;
      }
      RunPrepend(s, CProcess, n, s');
      n := n + 1;
    }
  }

  /** The entry taken from a list and what is left of it. */
  ghost function Listed(e: Option<Entry>, rest: seq<Entry>): seq<Entry> {
    if e.Some? then [e.value] + rest else rest
  }

  lemma PreambleStart(hasWatches: bool, rest: seq<Packet>)
    ensures Preamble(hasWatches, 0) + rest == if hasWatches then [Frame(SET_WATCHES_XID, 0, 0)] + rest else rest
  {
    assert Repeat(0, Frame(AUTH_XID, 0, 0)) == [];
  }

  lemma PreambleMore(hasWatches: bool, i: nat, rest: seq<Packet>)
    ensures Preamble(hasWatches, i + 1) + rest == [Frame(AUTH_XID, 0, 0)] + (Preamble(hasWatches, i) + rest)
  {
    assert Preamble(hasWatches, i + 1) == [Frame(AUTH_XID, 0, 0)] + Preamble(hasWatches, i);
  }

  /** Delivering one completion after the other is delivering the list. */
  lemma {:induction false} DeliverAllIs(c: Client)
    ensures DeliverAll(c) == c.(completions := [], finished := c.finished + c.completions)
    decreases |c.completions|
  {
    if c.completions == [] {
      assert c.finished + [] == c.finished;
    } else {
      DeliverAllIs(Deliver(c));
      assert c.completions == [c.completions[0]] + c.completions[1..];
    }
  }

  ghost function Ready(d: Option<Done>, rest: seq<Done>): seq<Done> {
    if d.Some? then [d.value] + rest else rest
  }

  lemma NoneToFree(c: Client, rc: int32)
    ensures FreeCompletions(c.(sent := []), rc) == c.(sent := [])
  {
  }

  /** One turn of the loop of `free_completions`, the rest of the list standing by. */
  lemma OneFreed(c: Client, e: Entry, rest: seq<Entry>, rc: int32)
    requires c.sent == []
    ensures FreeCompletions(c.(sent := [e] + rest), rc) ==
      FreeCompletions(FreeFirst(c.(sent := [e]), rc).(sent := rest), rc)
  {
    assert ([e] + rest)[1..] == rest;
    assert FreeFirst(c.(sent := [e] + rest), rc) == FreeFirst(c.(sent := [e]), rc).(sent := rest);
  }

  class Handle {
    var state: Session
    var open: bool
    var primer: bool
    var session: int64
    const toSend: Queue<Packet>
    var headSent: nat
    const sent: Queue<Entry>
    const toProcess: Queue<Packet>
    const completions: Queue<Done>
    var outstandingSync: int
    var lastZxid: int64
    var issued: seq<Entry>
    var finished: seq<Done>

    /** The handle, its four lists and their nodes. */
    ghost function Footprint(): set<object>
      reads toSend, sent, toProcess, completions
    {
      {this, toSend, sent, toProcess, completions} + toSend.Repr + sent.Repr + toProcess.Repr + completions.Repr
    }

    ghost predicate Valid()
      reads toSend, sent, toProcess, completions
      reads toSend.Repr, sent.Repr, toProcess.Repr, completions.Repr
    {
      && toSend.Valid() && sent.Valid() && toProcess.Valid() && completions.Valid()
      && toSend in toSend.Repr && sent in sent.Repr && toProcess in toProcess.Repr && completions in completions.Repr
      && this !in toSend.Repr + sent.Repr + toProcess.Repr + completions.Repr
      && toSend.Repr !! sent.Repr !! toProcess.Repr !! completions.Repr
    }

    ghost function View(): Client
      reads this, toSend, sent, toProcess, completions
    {
      Client(state, open, primer, session, toSend.Contents(), headSent, sent.Contents(), toProcess.Contents(),
             completions.Contents(), outstandingSync, lastZxid, issued, finished)
    }

    constructor ()
      ensures Valid() && View() == FRESH && fresh(Footprint())
    {
      hide Queue.Valid, Queue.Contents;
      state, open, primer, session := Closed, false, false, 0;
      toSend := new Queue();
      sent := new Queue();
      toProcess := new Queue();
      completions := new Queue();
      headSent, outstandingSync, lastZxid, issued, finished := 0, 0, 0, [], [];
    }

    // ------------------------------------------------------------------ the four lists

    method AddToSend(p: Packet, addToFront: bool)
      requires Valid()
      modifies toSend.Repr
      ensures Valid() && fresh(Footprint() - old(Footprint())) && fresh(toSend.Repr - old(toSend.Repr))
      ensures View() == old(View()).(toSend := if addToFront then [p] + old(View()).toSend else old(View()).toSend + [p])
    {
      hide Queue.Valid, Queue.Contents;
      toSend.Enqueue(p, addToFront);
    }

    method AddSent(e: Entry, addToFront: bool)
      requires Valid()
      modifies sent.Repr
      ensures Valid() && fresh(Footprint() - old(Footprint())) && fresh(sent.Repr - old(sent.Repr))
      ensures View() == old(View()).(sent := if addToFront then [e] + old(View()).sent else old(View()).sent + [e])
    {
      hide Queue.Valid, Queue.Contents;
      sent.Enqueue(e, addToFront);
    }

    method AddToProcess(p: Packet)
      requires Valid()
      modifies toProcess.Repr
      ensures Valid() && fresh(Footprint() - old(Footprint())) && fresh(toProcess.Repr - old(toProcess.Repr))
      ensures View() == old(View()).(toProcess := old(View()).toProcess + [p])
    {
      hide Queue.Valid, Queue.Contents;
      toProcess.Enqueue(p, false);
    }

    method AddCompletion(d: Done)
      requires Valid()
      modifies completions.Repr
      ensures Valid() && fresh(Footprint() - old(Footprint())) && fresh(completions.Repr - old(completions.Repr))
      ensures View() == old(View()).(completions := old(View()).completions + [d])
    {
      hide Queue.Valid, Queue.Contents;
      completions.Enqueue(d, false);
    }

    method TakeSent() returns (r: Option<Entry>)
      requires Valid()
      modifies sent
      ensures Valid() && Footprint() == old(Footprint())
      ensures r == None <==> old(View()).sent == []
      ensures r == None ==> View() == old(View())
      ensures r.Some? ==> old(View()).sent == [r.value] + View().sent && View() == old(View()).(sent := old(View()).sent[1..])
    {
      hide Queue.Valid, Queue.Contents;
      r := sent.Dequeue();
    }

    method TakeToProcess() returns (r: Option<Packet>)
      requires Valid()
      modifies toProcess
      ensures Valid() && Footprint() == old(Footprint())
      ensures r == None <==> old(View()).toProcess == []
      ensures r == None ==> View() == old(View())
      ensures r.Some? ==>
        old(View()).toProcess == [r.value] + View().toProcess && View() == old(View()).(toProcess := old(View()).toProcess[1..])
    {
      hide Queue.Valid, Queue.Contents;
      r := toProcess.Dequeue();
    }

    method TakeCompletion() returns (r: Option<Done>)
      requires Valid()
      modifies completions
      ensures Valid() && Footprint() == old(Footprint())
      ensures r == None <==> old(View()).completions == []
      ensures r == None ==> View() == old(View())
      ensures r.Some? ==>
        old(View()).completions == [r.value] + View().completions && View() == old(View()).(completions := old(View()).completions[1..])
    {
      hide Queue.Valid, Queue.Contents;
      r := completions.Dequeue();
    }

    /** `free_buffers` */
    static method FreeBuffers(list: Queue<Packet>)
      requires list.Valid()
      modifies list
      ensures list.Valid() && list.Contents() == [] && list.Repr == old(list.Repr)
    {
      hide Queue.Valid, Queue.Contents;
      var r := list.Dequeue();
      while r.Some?
        invariant list.Valid() && (r == None ==> list.Contents() == []) && list.Repr == old(list.Repr)
        decreases r.Some?, |list.Contents()|
      {
        r := list.Dequeue();
      }
    }

    method CleanBuffers()
      requires Valid()
      modifies toSend, toProcess, this`headSent
      ensures Valid() && Footprint() == old(Footprint())
      ensures View() == old(View()).(toSend := [], headSent := 0, toProcess := [])
    {
      hide Queue.Valid, Queue.Contents;
      FreeBuffers(toSend);
      headSent := 0;
      FreeBuffers(toProcess);
    }

    // -------------------------------------------------------------- the client's sections

    /** The test the `zoo_a*` calls make before they take the lock. */
    method MayCall() returns (ok: bool)
      ensures ok <==> !Unrecoverable(state)
    {
      ok := !Unrecoverable(state);
    }

    /** The common part of the `zoo_a*` calls, given what the test has said; the session may have died
        since. */
    method SubmitRequest(ok: bool, xid: int32, sync: bool)
      requires Valid()
      modifies Footprint()
      ensures Valid() && fresh(Footprint() - old(Footprint()))
      ensures View() == if ok then Submit(old(View()), xid, sync) else old(View())
    {
      hide Queue.Valid, Queue.Contents;
      if !ok { return; }
      var e := Request(|issued|, xid, sync);
      AddSent(e, false);
      issued := issued + [e];
      if sync { outstandingSync := outstandingSync + 1; }
      AddToSend(Frame(xid, 0, 0), false);
    }

    /** A detached list shares nothing with the handle. */
    ghost predicate Detached(list: Queue<Entry>)
      reads toSend, sent, toProcess, completions, list, list.Repr
    {
      list.Valid() && list in list.Repr && list.Repr !! Footprint()
    }

    /** The list changes hands as a whole. */
    method DetachSent() returns (list: Queue<Entry>)
      requires Valid()
      modifies sent
      ensures Valid() && Detached(list) && Footprint() <= old(Footprint()) && list.Repr <= old(Footprint()) + {list} && fresh(list)
      ensures View() == old(View()).(sent := []) && list.Contents() == old(View()).sent
      ensures completions.Repr == old(completions.Repr)
    {
      hide Queue.Valid, Queue.Contents;
      list := sent.TakeAll();
    }

    /** `free_completions` */
    method FreeCompletionList(rc: int32)
      requires Valid()
      modifies Footprint()
      ensures Valid() && fresh(Footprint() - old(Footprint()))
      ensures View() == FreeCompletions(old(View()), rc)
    {
      hide Queue.Valid, Queue.Contents, FreeCompletions, Handle.Valid, Handle.View;
      ghost var before := View();
      var list := DetachSent();
      FreeAll(list, rc);
      assert View() == FreeCompletions(before.(sent := []).(sent := before.sent), rc);
    }

    method FreeAll(list: Queue<Entry>, rc: int32)
      requires Valid() && Detached(list) && View().sent == []
      modifies this, completions.Repr, list
      ensures Valid() && fresh(Footprint() - old(Footprint()))
      ensures View() == FreeCompletions(old(View()).(sent := old(list.Contents())), rc)
    {
      hide Queue.Valid, Queue.Contents, FreeCompletions, Handle.Valid;
      ghost var all := list.Contents();
      var e := FirstOf(list);
      assert Listed(e, list.Contents()) == all;
      FreeDetached(list, e, rc);
    }

    method FirstOf(list: Queue<Entry>) returns (e: Option<Entry>)
      requires Valid() && Detached(list)
      modifies list
      ensures Valid() && Detached(list) && View() == old(View()) && Footprint() == old(Footprint())
      ensures old(list.Contents()) == Listed(e, list.Contents()) && (e == None ==> list.Contents() == [])
      ensures completions.Repr == old(completions.Repr)
    {
      hide Queue.Valid, Queue.Contents;
      e := list.Dequeue();
    }

    /** Its loop over the list it has detached. */
    method FreeDetached(list: Queue<Entry>, first: Option<Entry>, rc: int32)
      requires Valid() && Detached(list) && View().sent == [] && (first == None ==> list.Contents() == [])
      modifies this, completions.Repr, list
      ensures Valid() && fresh(Footprint() - old(Footprint()))
      ensures View() == FreeCompletions(old(View()).(sent := Listed(first, old(list.Contents()))), rc)
    {
      hide Queue.Valid, Queue.Contents, FreeCompletions, Handle.Valid, Detached;
      var e := first;
      ghost var start := View().(sent := Listed(first, list.Contents()));
      while e.Some?
        invariant Valid() && Detached(list) && View().sent == [] && fresh(Footprint() - old(Footprint()))
        invariant (e == None ==> list.Contents() == [])
        invariant fresh(completions.Repr - old(completions.Repr))
        invariant FreeCompletions(View().(sent := Listed(e, list.Contents())), rc) == FreeCompletions(start, rc)
        decreases e.Some?, |list.Contents()|
      {
        e := FreeNext(list, e.value, rc);
      }
      assert Listed(e, list.Contents()) == [] == View().sent;
      NoneToFree(View(), rc);
    }

    method FreeNext(list: Queue<Entry>, e: Entry, rc: int32) returns (next: Option<Entry>)
      requires Valid() && Detached(list) && View().sent == []
      modifies this, completions.Repr, list
      ensures Valid() && Detached(list) && View().sent == [] && fresh(Footprint() - old(Footprint()))
      ensures fresh(completions.Repr - old(completions.Repr))
      ensures next == None ==> old(list.Contents()) == [] == list.Contents()
      ensures next.Some? ==> |list.Contents()| < |old(list.Contents())|
      ensures FreeCompletions(View().(sent := Listed(next, list.Contents())), rc) ==
        FreeCompletions(old(View()).(sent := [e] + old(list.Contents())), rc)
    {
      hide Queue.Valid, Queue.Contents, FreeCompletions;
      ghost var c, rest := View(), list.Contents();
      FreeEntry(e, rc);
      OneFreed(c, e, rest, rc);
      next := list.Dequeue();
      assert Listed(next, list.Contents()) == rest;
    }

    method FreeEntry(e: Entry, rc: int32)
      requires Valid()
      modifies this, completions.Repr
      ensures Valid() && fresh(Footprint() - old(Footprint())) && fresh(completions.Repr - old(completions.Repr))
      ensures View() == FreeFirst(old(View()).(sent := [e]), rc).(sent := old(View()).sent)
    {
      hide Queue.Valid, Queue.Contents;
      match e
      case Request(_, xid, sync) =>
        if sync {
          outstandingSync := outstandingSync - 1;
          finished := finished + [Done(e, ConnectionLost(rc))];
        } else if xid == PING_XID {
          finished := finished + [Done(e, ConnectionLost(rc))];
        } else {
          AddCompletion(Done(e, Replied(Frame(xid, -1, rc))));
        }
      case Watch =>
    }

    method QueueSessionEvent()
      requires Valid()
      modifies completions.Repr
      ensures Valid() && fresh(Footprint() - old(Footprint())) && fresh(completions.Repr - old(completions.Repr))
      ensures View() == old(View()).(completions := old(View()).completions + [SessionEvent()])
    {
      hide Queue.Valid, Queue.Contents;
      AddCompletion(SessionEvent());
    }

    /** The session event of `handle_error`, if anyone knows of the session. */
    method Notify()
      requires Valid()
      modifies completions.Repr
      ensures Valid() && fresh(Footprint() - old(Footprint())) && fresh(completions.Repr - old(completions.Repr))
      ensures var c := old(View());
        View() == c.(completions := c.completions + if Unrecoverable(c.state) || c.state == Connected then [SessionEvent()] else [])
    {
      hide Queue.Valid, Queue.Contents;
      ghost var before := View();
      if Unrecoverable(state) || state == Connected {
        QueueSessionEvent();
      } else {
        assert before.completions + [] == before.completions;
      }
    }

    /** `handle_error` */
    method CloseOnError(rc: int32)
      requires Valid()
      modifies Footprint()
      ensures Valid() && fresh(Footprint() - old(Footprint()))
      ensures View() == HandleError(old(View()), rc)
    {
      hide Queue.Valid, Queue.Contents, FreeCompletions, Handle.Valid, Handle.View;
      Notify();
      CleanBuffers();
      FreeCompletionsFrame(View(), rc);
      FreeCompletionList(rc);
      Disconnect();
    }

    method Disconnect()
      requires Valid()
      modifies `open, `state
      ensures Valid() && Footprint() == old(Footprint())
      ensures var c := old(View()); View() == c.(open := false, state := if Unrecoverable(c.state) then c.state else Closed)
    {
      hide Queue.Valid, Queue.Contents;
      open := false;
      if !Unrecoverable(state) { state := Closed; }
    }

    /** `send_set_watches`, then one turn per known credential, each at the front. */
    method QueuePreamble(hasWatches: bool, auths: nat)
      requires Valid()
      modifies toSend.Repr
      ensures Valid() && fresh(Footprint() - old(Footprint()))
      ensures View() == old(View()).(toSend := Preamble(hasWatches, auths) + old(View()).toSend)
    {
      hide Queue.Valid, Queue.Contents, Preamble;
      ghost var before := View();
      PreambleStart(hasWatches, before.toSend);
      if hasWatches { AddToSend(Frame(SET_WATCHES_XID, 0, 0), true); }
      for i := 0 to auths
        invariant Valid() && fresh(Footprint() - old(Footprint())) && fresh(toSend.Repr - old(toSend.Repr))
        invariant View() == before.(toSend := Preamble(hasWatches, i) + before.toSend)
      {
        AddToSend(Frame(AUTH_XID, 0, 0), true);
        PreambleMore(hasWatches, i, before.toSend);
      }
    }

    /** `check_events`, after a whole packet has come in. */
    method ReceivePacket(p: Packet, hasWatches: bool, auths: nat)
      requires Valid() && (primer ==> p.Handshake?)
      modifies Footprint()
      ensures Valid() && fresh(Footprint() - old(Footprint()))
      ensures View() == Receive(old(View()), p, hasWatches, auths)
    {
      hide Queue.Valid, Queue.Contents, HandleError, Preamble;
      if !primer {
        AddToProcess(p);
      } else if session != 0 && session != p.session {
        state := Expired;
        CloseOnError(ZSESSIONEXPIRED);
      } else {
        session, state := p.session, Connected;
        QueuePreamble(hasWatches, auths);
        primer := false;
        QueueSessionEvent();
      }
    }

    /** `hdr` has met its entry e, which has left `sent_requests`. */
    method CompleteRequest(hdr: Packet, e: Entry)
      requires Valid()
      modifies this, completions.Repr
      ensures Valid() && fresh(Footprint() - old(Footprint()))
      ensures View() == EndFirst(old(View()).(sent := [e] + old(View()).sent), Replied(hdr), Replied(hdr))
    {
      hide Queue.Valid, Queue.Contents;
      assert ([e] + View().sent)[1..] == View().sent;
      match e
      case Watch =>
      case Request(_, xid, sync) =>
        if !sync && xid == PING_XID {
          finished := finished + [Done(e, Replied(hdr))];
        } else if !sync {
          AddCompletion(Done(e, Replied(hdr)));
        } else {
          outstandingSync := outstandingSync - 1;
          finished := finished + [Done(e, Replied(hdr))];
        }
    }

    method TakeReply() returns (hdr: Packet)
      requires Valid() && View().toProcess != [] && View().toProcess[0].Frame?
      modifies toProcess, `lastZxid
      ensures Valid() && Footprint() == old(Footprint()) && hdr == old(View()).toProcess[0]
      ensures View() == old(View()).(toProcess := old(View()).toProcess[1..], lastZxid := if hdr.zxid > 0 then hdr.zxid else old(lastZxid))
    {
      hide Queue.Valid, Queue.Contents;
      var r := TakeToProcess();
      hdr := r.value;
      if hdr.zxid > 0 { lastZxid := hdr.zxid; }
    }

    /** One turn of the reply loop.  A reply that finds no outstanding entry is a failed
        assertion in the source; here it is a verdict. */
    method ProcessOne() returns (verdict: Verdict)
      requires Valid() && View().toProcess != [] && View().toProcess[0].Frame?
      modifies Footprint()
      ensures Valid() && fresh(Footprint() - old(Footprint()))
      ensures View() == ProcessReply(old(View())) && verdict == Judge(old(View()))
    {
      hide Queue.Valid, Queue.Contents, HandleError, EndFirst;
      var hdr := TakeReply();
      if hdr.xid == WATCHER_EVENT_XID {
        AddCompletion(Done(Watch, Replied(hdr)));
        return Handled;
      } else if hdr.xid == SET_WATCHES_XID {
        return Handled;
      } else if hdr.xid == AUTH_XID {
        if hdr.err == 0 { return Handled; }
        state := AuthFailed;
        CloseOnError(ZAUTHFAILED);
        return AuthRefused;
      } else {
        verdict := MatchReply(hdr);
      }
    }

    /** A reply against the head of `sent_requests`; an entry that does not match goes back. */
    method MatchReply(hdr: Packet) returns (verdict: Verdict)
      requires Valid() && hdr.Frame?
      modifies Footprint()
      ensures Valid() && fresh(Footprint() - old(Footprint()))
      ensures verdict == (if old(View()).sent == [] then AssertionFailed
                          else if XidOf(old(View()).sent[0]) != hdr.xid then OutOfOrder else Handled)
      ensures View() == if verdict == AssertionFailed then old(View())
                        else if verdict == OutOfOrder then HandleError(old(View()), ZRUNTIMEINCONSISTENCY)
                        else EndFirst(old(View()), Replied(hdr), Replied(hdr))
    {
      hide Queue.Valid, Queue.Contents, HandleError, EndFirst;
      ghost var before := View();
      var r := TakeSent();
      if r == None { return AssertionFailed; }
      var e := r.value;
      assert [e] + View().sent == before.sent && View().(sent := before.sent) == before;
      if XidOf(e) != hdr.xid {
        AddSent(e, true);
        CloseOnError(ZRUNTIMEINCONSISTENCY);
        return OutOfOrder;
      }
      CompleteRequest(hdr, e);
      return Handled;
    }

    /** The reply loop of `zookeeper_process`, over everything received so far. */
    method ProcessReplies() returns (verdict: Verdict)
      requires Valid() && Frames(View().toProcess)
      modifies Footprint()
      ensures Valid() && fresh(Footprint() - old(Footprint()))
      ensures View() == ProcessAll(old(View()))
      ensures verdict == Handled ==> View().toProcess == []
    {
      hide Queue.Valid, Queue.Contents, ProcessReply, Judge;
      verdict := Handled;
      var more := toProcess.head != null;
      MoreToProcess();
      while more
        invariant Valid() && fresh(Footprint() - old(Footprint()))
        invariant Frames(View().toProcess) && verdict == Handled && (more <==> View().toProcess != [])
        invariant ProcessAll(View()) == ProcessAll(old(View()))
        decreases |View().toProcess|
      {
        ProcessReplyFrame(View());
        verdict := ProcessOne();
        if verdict != Handled { return; }
        more := toProcess.head != null;
        MoreToProcess();
      }
    }

    lemma MoreToProcess()
      requires Valid()
      ensures toProcess.head != null <==> View().toProcess != []
    {
      assert toProcess.head != null <==> toProcess.nodes != [];
    }

    /** `process_completions` */
    method ProcessCompletions()
      requires Valid()
      modifies completions, `finished
      ensures Valid() && Footprint() == old(Footprint())
      ensures View() == DeliverAll(old(View()))
      ensures View() == old(View()).(completions := [], finished := old(finished) + old(View()).completions)
    {
      hide Queue.Valid, Queue.Contents, DeliverAll, Handle.Valid, Handle.Footprint;
      ghost var before := View();
      DeliverAllIs(before);
      var d := TakeCompletion();
      while d.Some?
        invariant Valid() && Footprint() == old(Footprint())
        invariant d == None ==> View().completions == []
        invariant finished + Ready(d, View().completions) == old(finished) + before.completions
        invariant View() == before.(completions := View().completions, finished := finished)
        decreases d.Some?, |View().completions|
      {
        d := DeliverOne(d.value);
      }
    }

    method DeliverOne(d: Done) returns (next: Option<Done>)
      requires Valid()
      modifies completions, `finished
      ensures Valid() && Footprint() == old(Footprint())
      ensures next == None ==> View().completions == old(View()).completions == []
      ensures next.Some? ==> |View().completions| < |old(View()).completions|
      ensures finished + Ready(next, View().completions) == old(finished) + ([d] + old(View()).completions)
      ensures View() == old(View()).(completions := View().completions, finished := finished)
    {
      hide Queue.Valid, Queue.Contents;
      ghost var rest := View().completions;
      finished := finished + [d];
      next := TakeCompletion();
      assert Ready(next, View().completions) == rest;
      assert old(finished) + [d] + rest == old(finished) + ([d] + rest);
    }

    // ----------------------------------------------------------- connecting and sending

    /** `zookeeper_interest`, when a non-blocking connect is under way. */
    method StartConnect()
      requires Valid()
      modifies this
      ensures Valid() && Footprint() == old(Footprint()) && View() == old(View()).(state := Connecting, open := true)
    {
      state, open := Connecting, true;
    }

    /** `prime_connection`, when the connect request is on the wire. */
    method Prime()
      requires Valid()
      modifies this
      ensures Valid() && Footprint() == old(Footprint()) && View() == PrimeConnection(old(View()))
    {
      state, open, primer := Associating, true, true;
    }

    /** Part of the head, or all of it, is out. */
    method HeadOut(all: bool, off: nat)
      requires Valid() && View().toSend != []
      modifies toSend, `headSent
      ensures Valid() && Footprint() == old(Footprint())
      ensures View() == if all then old(View()).(toSend := old(View()).toSend[1..], headSent := 0)
                        else old(View()).(headSent := off)
    {
      hide Queue.Valid, Queue.Contents;
      headSent := off;
      if all {
        var _ := toSend.Dequeue();
        headSent := 0;
      }
    }

    /** One turn of `process_completions`. */
    method DeliverFirst()
      requires Valid() && View().completions != []
      modifies completions, `finished
      ensures Valid() && Footprint() == old(Footprint()) && View() == Deliver(old(View()))
    {
      hide Queue.Valid, Queue.Contents;
      var d := TakeCompletion();
      finished := finished + [d.value];
    }
  }
}

/** Frames on a byte stream: `send_buffer` and `recv_buffer` of zookeeper.c move a
    four-byte length and then the payload, in pieces of any size. */
module Framing {
  import opened ByteOrder

  const INT_LIMIT := 0x8000_0000

  /** `htonl`, for the non-negative `int` lengths of buffers. */
  function Be32(n: nat): (b: Bytes)
    requires n < INT_LIMIT
    ensures |b| == 4
  {
    [(n / 0x100 / 0x100 / 0x100) as byte, (n / 0x100 / 0x100 % 0x100) as byte, (n / 0x100 % 0x100) as byte, (n % 0x100) as byte]
  }

  /** `ntohl`; a length with the top bit set is a negative `int`. */
  function Int32(b: Bytes): int
    requires |b| == 4
  {
    var u := ((b[0] as int * 0x100 + b[1] as int) * 0x100 + b[2] as int) * 0x100 + b[3] as int;
    if u < INT_LIMIT then u else u - 0x1_0000_0000
  }

  lemma Int32Be32(n: nat)
    requires n < INT_LIMIT
    ensures Int32(Be32(n)) == n
  {
  }

  lemma Digit(q: nat, r: nat)
    requires r < 0x100
    ensures (q * 0x100 + r) / 0x100 == q && (q * 0x100 + r) % 0x100 == r
  {
  }

  lemma Be32Int32(b: Bytes)
    requires |b| == 4 && Int32(b) >= 0
    ensures Int32(b) < INT_LIMIT && Be32(Int32(b)) == b
  {
    var q1 := b[0] as int;
    var q2 := q1 * 0x100 + b[1] as int;
    var q3 := q2 * 0x100 + b[2] as int;
    Digit(q1, b[1] as int);
    Digit(q2, b[2] as int);
    Digit(q3, b[3] as int);
  }

  /** The buffers the protocol queues: every one holds at least a header. */
  type Payload = f: Bytes | 0 < |f| < INT_LIMIT witness [0]

  function Encode(f: Payload): (e: Bytes)
    ensures |e| == |f| + 4 && e[..4] == Be32(|f|) && e[4..] == f
  {
    Be32(|f|) + f
  }

  ghost function Stream(fs: seq<Payload>): Bytes {
    if fs == [] then [] else Encode(fs[0]) + Stream(fs[1..])
  }

  lemma {:induction false} StreamAppend(a: seq<Payload>, b: seq<Payload>)
    ensures Stream(a + b) == Stream(a) + Stream(b)
  {
    if a == [] {
      assert a + b == b;
    } else {
      assert (a + b)[1..] == a[1..] + b;
      StreamAppend(a[1..], b);
    }
  }

  lemma StreamSnoc(a: seq<Payload>, f: Payload)
    ensures Stream(a + [f]) == Stream(a) + Encode(f)
  {
    StreamAppend(a, [f]);
    assert [f][1..] == [];
    assert Stream([f]) == Encode(f);
  }

  lemma StreamOne(f: Payload)
    ensures Stream([]) == [] && Stream([f]) == Encode(f)
  {
    assert [f][1..] == [];
  }

  // ------------------------------------------------------------------ the stream

  /** What a reader holds of a frame it has not finished. */
  ghost predicate Unfinished(part: Bytes) {
    |part| < 4 || |part| - 4 < Int32(part[..4])
  }

  /** Two streams that agree as far as the first frame of one goes start with that frame. */
  lemma SameHead(r: Payload, a: Bytes, f: Payload, b: Bytes)
    requires Encode(r) + a <= Encode(f) + b
    ensures r == f && a <= b
  {
    var x, y := Encode(r) + a, Encode(f) + b;
    assert x[..4] == Be32(|r|) && y[..4] == Be32(|f|);
    assert x[..4] == y[..4];
    Int32Be32(|f|);
    Int32Be32(|r|);
    assert r == x[4..4 + |r|] == y[4..4 + |f|] == f;
    assert a == x[4 + |r|..] && b == y[4 + |f|..];
  }

  /** A stream is read in one way only: whatever has been taken apart so far is the
      beginning of what was put together, and all of it once every byte has arrived. */
  lemma {:induction false} ReadInOneWay(rs: seq<Payload>, part: Bytes, fs: seq<Payload>)
    requires Stream(rs) + part <= Stream(fs)
    ensures rs <= fs
    ensures Stream(rs) + part == Stream(fs) && Unfinished(part) ==> rs == fs && part == []
  {
    if rs == [] {
      if fs != [] && part == Stream(fs) {
        Int32Be32(|fs[0]|);
        assert part[..4] == Be32(|fs[0]|);
      }
    } else {
      assert Stream(rs) + part == Encode(rs[0]) + (Stream(rs[1..]) + part);
      SameHead(rs[0], Stream(rs[1..]) + part, fs[0], Stream(fs[1..]));
      ReadInOneWay(rs[1..], part, fs[1..]);
      assert rs == [rs[0]] + rs[1..] && fs == [fs[0]] + fs[1..];
    }
  }

  // ------------------------------------------------------------------- the sender

  /** What `send` reports: some bytes taken, `EAGAIN`, or another error. */
  datatype Io = Took(n: nat) | WouldBlock | Broken

  function Min(a: nat, b: nat): nat {
    if a < b then a else b
  }

  /** A `buffer_list_t` on its way out; `off` counts the length bytes too. */
  datatype Buffer = Buffer(payload: Payload, off: nat)

  /** One turn of `flush_send_queue`: the time since its start and what `poll` says, which count
      with a timeout only, and what the socket says. */
  datatype Turn = Turn(elapsed: int, poll: int, header: Io, body: Io)

  const ZOK := 0
  const ZSYSTEMERROR := -1
  const ZCONNECTIONLOSS := -4
  const ZOPERATIONTIMEOUT := -7

  ghost function Payloads(bs: seq<Buffer>): seq<Payload> {
    seq(|bs|, i requires 0 <= i < |bs| => bs[i].payload)
  }

  /** The bytes of the buffers that are not out yet. */
  ghost function Rest(bs: seq<Buffer>): Bytes {
    if bs == [] then []
    else (if bs[0].off <= |bs[0].payload| + 4 then Encode(bs[0].payload)[bs[0].off..] else []) + Rest(bs[1..])
  }

  /** Buffers of which nothing is out. */
  ghost predicate Unsent(bs: seq<Buffer>) {
    forall i | 0 <= i < |bs| :: bs[i].off == 0
  }

  lemma {:induction false} RestUnsent(bs: seq<Buffer>)
    requires Unsent(bs)
    ensures Rest(bs) == Stream(Payloads(bs))
  {
    if bs != [] {
      RestUnsent(bs[1..]);
      assert Payloads(bs)[1..] == Payloads(bs[1..]);
    }
  }

  /** A queue is its head and the rest. */
  lemma HeadAndRest(b: Buffer, bs: seq<Buffer>)
    requires b.off <= |b.payload| + 4
    ensures Rest([b] + bs) == Encode(b.payload)[b.off..] + Rest(bs)
    ensures Payloads([b] + bs) == [b.payload] + Payloads(bs)
  {
    hide Encode;
    assert ([b] + bs)[1..] == bs;
  }

  lemma NoneLeft()
    ensures Rest([]) == [] && Stream([]) == [] && Payloads([]) == []
  {
  }

  lemma {:induction false} RestSnoc(bs: seq<Buffer>, f: Payload)
    requires forall i | 0 <= i < |bs| :: bs[i].off <= |bs[i].payload| + 4
    ensures Rest(bs + [Buffer(f, 0)]) == Rest(bs) + Encode(f)
  {
    hide Encode, Rest;
    NoneLeft();
    if bs == [] {
      HeadAndRest(Buffer(f, 0), []);
      assert [Buffer(f, 0)] + [] == bs + [Buffer(f, 0)];
    } else {
      RestSnoc(bs[1..], f);
      HeadAndRest(bs[0], bs[1..]);
      HeadAndRest(bs[0], bs[1..] + [Buffer(f, 0)]);
      assert bs == [bs[0]] + bs[1..];
      assert [bs[0]] + (bs[1..] + [Buffer(f, 0)]) == bs + [Buffer(f, 0)];
    }
  }

  /** How much of a buffer is out when the socket has answered: at most what was offered, and of
      the payload nothing before the length is out. */
  function AfterSend(b: Buffer, header: Io, body: Io): nat
    requires b.off <= |b.payload| + 4
  {
    var o := if b.off < 4 && header.Took? then b.off + Min(header.n, 4 - b.off) else b.off;
    if o >= 4 && body.Took? then o + Min(body.n, |b.payload| + 4 - o) else o
  }

  /** The socket takes all it is offered of a buffer: what is missing of the length, then of the payload. */
  predicate TakesAll(b: Buffer, header: Io, body: Io)
    requires b.off <= |b.payload| + 4
  {
    && (b.off < 4 ==> header.Took? && header.n >= 4 - b.off)
    && body.Took? && body.n >= |b.payload| - (if b.off < 4 then 0 else b.off - 4)
  }

  /** The first of the two sends that is not taken whole fails. */
  predicate SendFails(b: Buffer, header: Io, body: Io) {
    if b.off < 4 then header.Broken? || (header.Took? && header.n >= 4 - b.off && body.Broken?) else body.Broken?
  }

  /** What `send_buffer` returns for a buffer that was not out. */
  function Result(b: Buffer, header: Io, body: Io): int
    requires b.off <= |b.payload| + 4
  {
    if SendFails(b, header, body) then -1 else if TakesAll(b, header, body) then 1 else 0
  }

  /** A buffer that was not out is out exactly if the socket took all it was offered; it never gives back. */
  lemma OutIff(b: Buffer, header: Io, body: Io)
    requires b.off <= |b.payload| + 4
    ensures b.off <= AfterSend(b, header, body) <= |b.payload| + 4
    ensures b.off < |b.payload| + 4 ==>
      (AfterSend(b, header, body) == |b.payload| + 4 <==> TakesAll(b, header, body))
    ensures TakesAll(b, header, body) ==> AfterSend(b, header, body) == |b.payload| + 4
    ensures SendFails(b, header, body) ==> !TakesAll(b, header, body)
  {
  }

  /** What a turn says before the socket is asked, with a timeout. */
  function Waited(turn: Turn, timeout: int): int {
    if timeout == 0 then ZOK
    else if turn.elapsed > timeout || turn.poll == 0 then ZOPERATIONTIMEOUT
    else if turn.poll < 0 then ZSYSTEMERROR
    else ZOK
  }

  /** The head after a send. */
  function Touched(b: Buffer, header: Io, body: Io): Buffer
    requires b.off <= |b.payload| + 4
  {
    b.(off := AfterSend(b, header, body))
  }

  /** No buffer is further than its end. */
  ghost predicate WithinEnds(q: seq<Buffer>) {
    forall i | 0 <= i < |q| :: q[i].off <= |q[i].payload| + 4
  }

  /** Queue, result and number of turns of `flush_send_queue` on a connected session. */
  ghost function Flushed(q: seq<Buffer>, turns: seq<Turn>, timeout: int): (seq<Buffer>, int, nat)
    requires WithinEnds(q)
    decreases |turns|
  {
    if q == [] || turns == [] then (q, ZOK, 0)
    else
      var b, turn := Touched(q[0], turns[0].header, turns[0].body), turns[0];
      OutIff(q[0], turn.header, turn.body);
      if Waited(turn, timeout) != ZOK then (q, Waited(turn, timeout), 1)
      else if SendFails(q[0], turn.header, turn.body) then ([b] + q[1..], ZCONNECTIONLOSS, 1)
      else if b.off < |b.payload| + 4 && timeout == 0 then ([b] + q[1..], ZOK, 1)
      else
        var r := Flushed(if b.off == |b.payload| + 4 then q[1..] else [b] + q[1..], turns[1..], timeout);
        (r.0, r.1, r.2 + 1)
  }

  ghost function Later(r: (seq<Buffer>, int, nat), used: nat): (seq<Buffer>, int, nat) {
    (r.0, r.1, r.2 + used)
  }

  /** As many turns as buffers, and a socket that is ready and takes all it is offered. */
  ghost predicate Emptying(q: seq<Buffer>, turns: seq<Turn>, timeout: int)
    requires WithinEnds(q)
  {
    |q| <= |turns| && forall i | 0 <= i < |q| ::
      Waited(turns[i], timeout) == ZOK && TakesAll(q[i], turns[i].header, turns[i].body)
  }

  /** Then the queue is empty afterwards. */
  lemma {:induction false} FlushEmpties(q: seq<Buffer>, turns: seq<Turn>, timeout: int)
    requires WithinEnds(q) && Emptying(q, turns, timeout)
    ensures Flushed(q, turns, timeout) == ([], ZOK, |q|)
  {
    if q != [] {
      OutIff(q[0], turns[0].header, turns[0].body);
      FlushEmpties(q[1..], turns[1..], timeout);
    }
  }

  /** Without a timeout, as long as there are turns: the buffers before some k are taken whole, each at
      its turn, and the k-th, if there is one, is offered and not taken whole; what is left is it, as far
      as it was taken, and those behind it. */
  lemma {:induction false} FlushStops(q: seq<Buffer>, turns: seq<Turn>) returns (k: nat)
    requires (forall i | 0 <= i < |q| :: q[i].off < |q[i].payload| + 4) && |q| <= |turns|
    ensures k <= |q| && forall i | 0 <= i < k :: TakesAll(q[i], turns[i].header, turns[i].body)
    ensures k == |q| ==> Flushed(q, turns, 0) == ([], ZOK, k)
    ensures k < |q| ==>
      && !TakesAll(q[k], turns[k].header, turns[k].body)
      && Flushed(q, turns, 0) == ([Touched(q[k], turns[k].header, turns[k].body)] + q[k + 1..],
                                  if SendFails(q[k], turns[k].header, turns[k].body) then ZCONNECTIONLOSS else ZOK, k + 1)
  {
    if q == [] { return 0; }
    OutIff(q[0], turns[0].header, turns[0].body);
    if !TakesAll(q[0], turns[0].header, turns[0].body) { return 0; }
    var j := FlushStops(q[1..], turns[1..]);
    k := j + 1;
  }

  /** It stops with an error only for what the last turn says, and without one only if the queue is
      empty, the turns are used up or, without a timeout, the head was not taken whole. */
  lemma {:induction false} FlushEnds(q: seq<Buffer>, turns: seq<Turn>, timeout: int)
    requires WithinEnds(q)
    ensures var (q', rc, used) := Flushed(q, turns, timeout);
      && WithinEnds(q') && used <= |turns|
      && (rc == ZOK ==> q' == [] || used == |turns| || (timeout == 0 && used > 0 && q'[0].off < |q'[0].payload| + 4))
      && (rc != ZOK ==> used > 0 && q' != [])
      && (rc == ZOPERATIONTIMEOUT ==> timeout != 0 && (turns[used - 1].elapsed > timeout || turns[used - 1].poll == 0))
      && (rc == ZSYSTEMERROR ==> timeout != 0 && turns[used - 1].poll < 0)
      && (rc == ZCONNECTIONLOSS ==> turns[used - 1].header.Broken? || turns[used - 1].body.Broken?)
      && rc in {ZOK, ZSYSTEMERROR, ZCONNECTIONLOSS, ZOPERATIONTIMEOUT}
    decreases |turns|
  {
    if q != [] && turns != [] {
      var b, turn := Touched(q[0], turns[0].header, turns[0].body), turns[0];
      OutIff(q[0], turn.header, turn.body);
      FlushEnds(if b.off == |b.payload| + 4 then q[1..] else [b] + q[1..], turns[1..], timeout);
    }
  }

  /** Started bytes that may stand before or after a frame. */
  ghost predicate Commute(x: Bytes, e: Bytes) {
    x + e == e + x
  }

  class Sender {
    var queue: seq<Buffer>
    ghost var left: seq<Payload>   // the frames that have been sent and removed
    ghost var wire: Bytes          // every byte the socket has taken

    /** Every frame queued so far, in the order of the queue. */
    ghost function All(): seq<Payload>
      reads this
    {
      left + Payloads(queue)
    }

    /** The bytes of the head that are out. */
    ghost function Started(): Bytes
      reads this
    {
      if queue != [] && queue[0].off <= |queue[0].payload| + 4 then Encode(queue[0].payload)[..queue[0].off] else []
    }

    ghost predicate Valid()
      reads this
    {
      forall i | 0 <= i < |queue| :: queue[i].off <= |queue[i].payload| + 4
    }

    /** Every byte that has been sent and every byte that will be, if nothing more is queued. */
    ghost function Final(): Bytes
      reads this
    {
      wire + Rest(queue)
    }

    /** The wire will carry the frames queued, one after the other. */
    ghost predicate Faithful()
      reads this
    {
      Valid() && Final() == Stream(All())
    }

    /** Only the head may have been started. */
    ghost predicate OnlyHead()
      reads this
    {
      queue != [] ==> Unsent(queue[1..])
    }

    constructor ()
      ensures Faithful() && OnlyHead() && All() == [] && wire == []
    {
      queue, left, wire := [], [], [];
    }

    /** The connection is gone, and the queue with it. */
    method Forget()
      modifies this
      ensures Faithful() && OnlyHead() && left == [] && queue == [] && wire == []
    {
      queue, left, wire := [], [], [];
    }

    /** A new connection: a first frame is out at once, before what has waited for it. */
    method Reconnect(f: Payload)
      requires Unsent(queue)
      modifies this
      ensures Faithful() && OnlyHead() && left == [f] && queue == old(queue) && wire == Encode(f)
    {
      left, wire := [f], Encode(f);
      hide Encode, Rest;
      StreamOne(f);
      RestUnsent(queue);
      StreamAppend([f], Payloads(queue));
    }

    method Queue(f: Payload)
      requires Valid()
      modifies this
      ensures Valid() && All() == old(All()) + [f] && wire == old(wire) && left == old(left)
      ensures queue == old(queue) + [Buffer(f, 0)] && Final() == old(Final()) + Encode(f)
      ensures old(Faithful()) ==> Faithful()
      ensures old(OnlyHead()) ==> OnlyHead()
    {
      hide Stream, Encode, Rest;
      RestSnoc(queue, f);
      StreamSnoc(All(), f);
      queue := queue + [Buffer(f, 0)];
      assert Payloads(queue) == Payloads(old(queue)) + [f];
    }

    /** Front-queueing.  If only the head has been started, the wire still carries the frames
        queued exactly if the bytes that are out and the new frame may change places. */
    method QueueFront(f: Payload)
      requires Valid()
      modifies this
      ensures Valid() && wire == old(wire) && left == old(left) && queue == [Buffer(f, 0)] + old(queue)
      ensures All() == left + [f] + Payloads(old(queue)) && Final() == wire + Encode(f) + Rest(old(queue))
      ensures old(Faithful()) && old(OnlyHead()) ==> (Faithful() <==> Commute(old(Started()), Encode(f)))
      ensures OnlyHead() <==> Unsent(old(queue))
    {
      hide Stream, Encode, Rest;
      ghost var q := queue;
      if Faithful() && OnlyHead() { FrontQueued(left, wire, queue, f); }
      queue := [Buffer(f, 0)] + queue;
      HeadAndRest(Buffer(f, 0), q);
      assert queue[1..] == q && Encode(f)[0..] == Encode(f);
      assert All() == left + [f] + Payloads(q);
    }

    method Advance(n: nat)
      requires Valid() && queue != [] && queue[0].off + n <= |queue[0].payload| + 4
      modifies this
      ensures Valid() && All() == old(All()) && left == old(left) && Final() == old(Final())
      ensures queue == [old(queue)[0].(off := old(queue[0].off) + n)] + old(queue)[1..]
      ensures old(wire) <= wire && |wire| == |old(wire)| + n
    {
      hide Stream, Encode, Rest;
      var b := queue[0];
      ghost var e := Encode(b.payload);
      HeadAndRest(b, queue[1..]);
      HeadAndRest(b.(off := b.off + n), queue[1..]);
      assert queue == [b] + queue[1..];
      assert e[b.off..] == e[b.off..b.off + n] + e[b.off + n..];
      wire := wire + e[b.off..b.off + n];
      queue := [b.(off := b.off + n)] + queue[1..];
    }

    /** `send_buffer` on the head.  The socket is asked at most twice, and takes at most
        what it is offered. */
    method SendBuffer(header: Io, body: Io) returns (rc: int)
      requires Valid() && queue != []
      modifies this
      ensures Valid() && All() == old(All()) && left == old(left) && old(wire) <= wire && Final() == old(Final())
      ensures queue == [Touched(old(queue[0]), header, body)] + old(queue)[1..]
      ensures rc == if SendFails(old(queue[0]), header, body) then -1
                    else if queue[0].off == |queue[0].payload| + 4 then 1 else 0
      ensures old(queue[0].off < |queue[0].payload| + 4) && rc < 0 ==> queue[0].off < |queue[0].payload| + 4
      ensures old(queue[0].off) <= queue[0].off
    {
      hide Stream, Rest;
      if queue[0].off < 4 {
        if header.Broken? { return -1; }
        if header.WouldBlock? { return 0; }
        Advance(Min(header.n, 4 - queue[0].off));
      }
      if queue[0].off >= 4 {
        if body.Broken? { return -1; }
        if body.Took? { Advance(Min(body.n, |queue[0].payload| + 4 - queue[0].off)); }
      }
      rc := if queue[0].off == |queue[0].payload| + 4 then 1 else 0;
    }

    /** `remove_buffer`, which `flush_send_queue` calls once the head is out. */
    method RemoveSent()
      requires Valid() && queue != [] && queue[0].off == |queue[0].payload| + 4
      modifies this
      ensures Valid() && All() == old(All()) && wire == old(wire) && queue == old(queue)[1..] && Final() == old(Final())
      ensures left == old(left) + [old(queue[0].payload)]
      ensures old(OnlyHead()) ==> OnlyHead()
    {
      hide Stream, Encode, Rest;
      var b := queue[0];
      HeadAndRest(b, queue[1..]);
      assert queue == [b] + queue[1..];
      assert Encode(b.payload)[b.off..] == [];
      left := left + [b.payload];
      queue := queue[1..];
    }

    /** `flush_send_queue`, over the turns it will take.  Nothing is lost and nothing reordered;
        without an error, and with turns to spare, it stops only when the session is not connected,
        when nothing is left to send, or, without a timeout, when the socket takes no more. */
    method Flush(connected: bool, timeout: int, turns: seq<Turn>) returns (rc: int, used: nat)
      requires Valid()
      modifies this
      ensures Valid() && All() == old(All()) && old(wire) <= wire && Final() == old(Final()) && used <= |turns|
      ensures old(OnlyHead()) ==> OnlyHead()
      ensures (queue, rc, used) == if connected then Flushed(old(queue), turns, timeout) else (old(queue), ZOK, 0)
      ensures rc == ZOK && used < |turns| ==>
        !connected || queue == [] || (timeout == 0 && used > 0 && queue[0].off < |queue[0].payload| + 4)
      ensures connected && Emptying(old(queue), turns, timeout) ==>
        rc == ZOK && queue == [] && wire == old(wire) + Rest(old(queue))
    {
      hide Stream, Rest, Encode, Flushed, AfterSend, TakesAll, SendFails, Waited, Later, Sender.OnlyHead;
      ghost var q, all := queue, Flushed(queue, turns, timeout);
      FlushEnds(q, turns, timeout);
      if Emptying(q, turns, timeout) { FlushEmpties(q, turns, timeout); }
      NoneLeft();
      LaterNone(all);
      assert turns[0..] == turns;
      rc, used := ZOK, 0;
      while used < |turns| && queue != [] && connected
        invariant Valid() && All() == old(All()) && old(wire) <= wire && Final() == old(Final())
        invariant used <= |turns| && rc == ZOK && (old(OnlyHead()) ==> OnlyHead())
        invariant !connected ==> used == 0 && wire == old(wire) && queue == q
        invariant connected ==> Later(Flushed(queue, turns[used..], timeout), used) == all
      {
        var turn := turns[used];
        assert turns[used..] == [turn] + turns[used + 1..];
        var going;
        rc, going := FlushOnce(timeout, turn, turns[used + 1..], used);
        used := used + 1;
        if !going { break; }
      }
      if connected && rc == ZOK && (queue == [] || used == |turns|) { NoneToFlush(queue, turns[used..], timeout, used); }
    }

    /** One turn of `flush_send_queue`, and whether it goes on. */
    method FlushOnce(timeout: int, turn: Turn, ghost turns: seq<Turn>, ghost used: nat) returns (rc: int, going: bool)
      requires Valid() && queue != []
      modifies this
      ensures Valid() && All() == old(All()) && old(wire) <= wire && Final() == old(Final())
      ensures old(OnlyHead()) ==> OnlyHead()
      ensures going ==> rc == ZOK
      ensures Later(Flushed(old(queue), [turn] + turns, timeout), used) ==
        if going then Later(Flushed(queue, turns, timeout), used + 1) else (queue, rc, used + 1)
    {
      hide Stream, Rest, Encode, Flushed, AfterSend, TakesAll, SendFails;
      FlushedFrom(queue, turn, turns, timeout);
      if timeout != 0 {
        if turn.elapsed > timeout { return ZOPERATIONTIMEOUT, false; }
        if turn.poll <= 0 { return if turn.poll == 0 then ZOPERATIONTIMEOUT else ZSYSTEMERROR, false; }
      }
      var sent := SendBuffer(turn.header, turn.body);
      if sent == 0 && timeout == 0 { return ZOK, false; }
      if sent < 0 { return ZCONNECTIONLOSS, false; }
      if sent > 0 { RemoveSent(); }
      return ZOK, true;
    }
  }

  lemma LaterNone(r: (seq<Buffer>, int, nat))
    ensures Later(r, 0) == r
  {
  }

  lemma NoneToFlush(q: seq<Buffer>, turns: seq<Turn>, timeout: int, used: nat)
    requires WithinEnds(q) && (q == [] || turns == [])
    ensures Later(Flushed(q, turns, timeout), used) == (q, ZOK, used)
  {
  }

  /** The queue with its head as a send leaves it. */
  function Sent(q: seq<Buffer>, turn: Turn): seq<Buffer>
    requires WithinEnds(q) && q != []
  {
    [Touched(q[0], turn.header, turn.body)] + q[1..]
  }

  /** The first turn of `Flushed`. */
  lemma FlushedFrom(q: seq<Buffer>, turn: Turn, turns: seq<Turn>, timeout: int)
    requires WithinEnds(q) && q != []
    ensures WithinEnds(Sent(q, turn)) && WithinEnds(q[1..])
    ensures Flushed(q, [turn] + turns, timeout) ==
      if Waited(turn, timeout) != ZOK then (q, Waited(turn, timeout), 1)
      else if SendFails(q[0], turn.header, turn.body) then (Sent(q, turn), ZCONNECTIONLOSS, 1)
      else if Sent(q, turn)[0].off < |q[0].payload| + 4 && timeout == 0 then (Sent(q, turn), ZOK, 1)
      else Later(Flushed(if Sent(q, turn)[0].off == |q[0].payload| + 4 then q[1..] else Sent(q, turn), turns, timeout), 1)
  {
    hide AfterSend, TakesAll, SendFails;
    OutIff(q[0], turn.header, turn.body);
    assert ([turn] + turns)[1..] == turns;
  }

  /** A queue of which only the head has been started: what is left of it and what it is. */
  lemma HeadStarted(q: seq<Buffer>) returns (x: Bytes, y: Bytes)
    requires q != [] && q[0].off <= |q[0].payload| + 4 && Unsent(q[1..])
    ensures x == Encode(q[0].payload)[..q[0].off]
    ensures Rest(q) == y && Stream(Payloads(q)) == x + y
  {
    hide Stream, Encode;
    var b, z := q[0], Stream(Payloads(q[1..]));
    var h := Encode(b.payload);
    x, y := h[..b.off], h[b.off..] + z;
    RestUnsent(q[1..]);
    assert Payloads(q) == [b.payload] + Payloads(q[1..]);
    StreamAppend([b.payload], Payloads(q[1..]));
    StreamOne(b.payload);
    assert h == h[..b.off] + h[b.off..];
  }

  /** A frame in front of a queue of which only the head has been started. */
  lemma FrontQueued(left: seq<Payload>, wire: Bytes, q: seq<Buffer>, f: Payload)
    requires wire + Rest(q) == Stream(left + Payloads(q))
    requires q != [] ==> q[0].off <= |q[0].payload| + 4 && Unsent(q[1..])
    ensures var x := if q == [] then [] else Encode(q[0].payload)[..q[0].off];
      wire + Encode(f) + Rest(q) == Stream(left + [f] + Payloads(q)) <==> Commute(x, Encode(f))
  {
    hide Stream, Encode, Rest, Commute;
    var x: Bytes, y: Bytes := [], [];
    if q == [] { NoneLeft(); } else { x, y := HeadStarted(q); }
    StreamAppend(left, Payloads(q));
    StreamAppend(left + [f], Payloads(q));
    StreamSnoc(left, f);
    Moved(wire, Stream(left), x, y, Encode(f));
  }

  lemma Moved(wire: Bytes, a: Bytes, x: Bytes, y: Bytes, e: Bytes)
    requires wire + y == a + (x + y)
    ensures wire == a + x
    ensures wire + e + y == (a + e) + (x + y) <==> Commute(x, e)
  {
    assert wire == (wire + y)[..|wire|] == (a + (x + y))[..|a + x|] == a + x;
    var m, n := wire + e + y, (a + e) + (x + y);
    assert m == a + ((x + e) + y) && n == a + ((e + x) + y);
    if m == n {
      assert x + e == m[|a|..|a| + |x| + |e|] == n[|a|..|a| + |x| + |e|] == e + x;
    }
  }

  // ----------------------------------------------------------------- the receiver

  /** What `recv` reports: some bytes, end of stream, `EAGAIN`, or another error. */
  datatype In = Got(bytes: Bytes) | Closed | Again | Failed

  /** The bytes of `sizeof(buffer_list_t)` (24 on a 64-bit host) as `allocate_buffer` leaves them in `len`,
      low byte first. */
  const FRESH_LEN: Bytes := [24, 0, 0, 0]

  /** A little-endian host reads the four bytes of `len` like this before `ntohl`. */
  function HostInt(b: Bytes): int
    requires |b| == 4
  {
    Int32([b[3], b[2], b[1], b[0]])
  }

  /** The bytes of `len` when more of them have come in. */
  function Filled(raw: Bytes, off: nat, taken: Bytes): (r: Bytes)
    requires |raw| == 4 && off + |taken| <= 4
    ensures |r| == 4
  {
    raw[..off] + taken + raw[off + |taken|..]
  }

  lemma HeaderFilled(raw: Bytes, off: nat, taken: Bytes)
    requires |raw| == 4 && off + |taken| <= 4 && raw[off..] == FRESH_LEN[off..]
    ensures var r, n := Filled(raw, off, taken), off + |taken|;
      && r[..n] == raw[..off] + taken && r[n..] == FRESH_LEN[n..]
      && (n == 4 ==> r + [] == raw[..off] + taken)
  {
    var r, n := Filled(raw, off, taken), off + |taken|;
    assert r[n..] == raw[n..] == raw[off..][|taken|..] == FRESH_LEN[off..][|taken|..] == FRESH_LEN[n..];
    assert n == 4 ==> r == r[..4];
  }

  ghost function BytesOf(i: In): Bytes {
    if i.Got? then i.bytes else []
  }

  /** What is read of the length, at most what is missing of it. */
  ghost function LengthBytes(off: nat, header: In): Bytes {
    if off < 4 then BytesOf(header)[..Min(|BytesOf(header)|, 4 - off)] else []
  }

  /** What is read of the payload, at most what is missing of it. */
  ghost function PayloadBytes(missing: nat, rest: In): Bytes {
    BytesOf(rest)[..Min(|BytesOf(rest)|, missing)]
  }

  /** `recv` says that nothing more comes. */
  predicate Ends(i: In) {
    i.Closed? || i.Failed? || i == Got([])
  }

  class Receiver {
    var off: nat
    var raw: Bytes          // the memory of `len`
    var body: Bytes
    var hasBuffer: bool
    var received: seq<Payload>
    ghost var consumed: Bytes

    ghost function Part(): Bytes
      reads this
    {
      if off < 4 && |raw| == 4 then raw[..off] else raw + body
    }

    ghost predicate Valid()
      reads this
    {
      && |raw| == 4
      && (off < 4 ==> raw[off..] == FRESH_LEN[off..] && body == [] && !hasBuffer)
      && (off >= 4 ==> off == 4 + |body| && (hasBuffer <==> Int32(raw) >= 0) && (hasBuffer ==> |body| <= Int32(raw)))
      && consumed == Stream(received) + Part()
    }

    /** What `recv_buffer` reads, given what the socket says: of the length what is missing, and when
        the length is there, of the payload what is missing. */
    ghost function Reads(header: In, rest: In): Bytes
      requires Valid()
      reads this
    {
      var l := LengthBytes(off, header);
      if off >= 4 then (if hasBuffer then PayloadBytes(Int32(raw) - |body|, rest) else [])
      else if off + |l| == 4 && Int32(raw[..off] + l) >= 0 then l + PayloadBytes(Int32(raw[..off] + l), rest)
      else l
    }

    /** It fails if nothing more comes of the length, or, once that is there, of the payload; a payload
        of length zero reads as the end. */
    ghost predicate Fails(header: In, rest: In)
      requires Valid()
      reads this
    {
      var l := LengthBytes(off, header);
      if off >= 4 then hasBuffer && (Ends(rest) || |body| == Int32(raw))
      else Ends(header) || (off + |l| == 4 && Int32(raw[..off] + l) >= 0 && (Ends(rest) || Int32(raw[..off] + l) == 0))
    }

    lemma ReadsAtMost(header: In, rest: In)
      requires Valid()
      ensures Reads(header, rest) <= LengthBytes(off, header) + BytesOf(rest)
    {
      hide Stream, Int32;
    }

    /** A whole frame has arrived and is not queued yet. */
    ghost predicate Complete()
      reads this
    {
      off >= 4 && |raw| == 4 && hasBuffer && 0 < |body| == Int32(raw)
    }

    /** The frames that have arrived whole. */
    ghost function Taken(): seq<Payload>
      reads this
    {
      if Complete() then received + [body] else received
    }

    constructor ()
      ensures Valid() && received == [] && consumed == []
    {
      off, raw, body, hasBuffer, received, consumed := 0, FRESH_LEN, [], false, [], [];
    }

    /** A new connection. */
    method Restart()
      modifies this
      ensures Valid() && received == [] && consumed == [] && off == 0
    {
      off, raw, body, hasBuffer, received, consumed := 0, FRESH_LEN, [], false, [], [];
    }

    /** The first half of `recv_buffer`: the length. */
    method RecvLength(header: In, ghost rest: In) returns (rc: int)
      requires Valid() && off < 4
      modifies this
      ensures Valid() && received == old(received) && old(consumed) <= consumed && body == []
      ensures rc in {-1, 0, 1} && (rc != 1 ==> off < 4)
      ensures consumed == old(consumed) + LengthBytes(old(off), header)
      ensures hasBuffer ==> off == 4 && Int32(raw) >= 0
      ensures old(Reads(header, rest)) ==
        LengthBytes(old(off), header) + if hasBuffer then PayloadBytes(Int32(raw), rest) else []
      ensures old(Fails(header, rest)) <==> Ends(header) || (hasBuffer && (Ends(rest) || Int32(raw) == 0))
      ensures rc == if Ends(header) then -1 else if header.Again? then 0 else 1
    {
      hide Stream, Filled, Int32, Encode;
      if header.Again? { return 0; }
      if !header.Got? || header.bytes == [] { return -1; }
      var n := Min(|header.bytes|, 4 - off);
      var taken := header.bytes[..n];
      HeaderFilled(raw, off, taken);
      assert consumed + taken == Stream(received) + (raw[..off] + taken);
      raw := Filled(raw, off, taken);
      consumed := consumed + taken;
      off := off + n;
      if off == 4 { hasBuffer := Int32(raw) >= 0; }
      assert off == 4 ==> raw == raw[..off];
      rc := 1;
    }

    lemma InBody(header: In, rest: In)
      requires Valid() && off >= 4
      ensures LengthBytes(off, header) == []
      ensures Reads(header, rest) == if hasBuffer then PayloadBytes(Int32(raw) - |body|, rest) else []
      ensures Fails(header, rest) <==> hasBuffer && (Ends(rest) || |body| == Int32(raw))
    {
    }

    /** The second half: the payload. */
    method RecvBody(rest: In) returns (rc: int)
      requires Valid() && hasBuffer && |body| <= Int32(raw)
      modifies this
      ensures Valid() && received == old(received) && old(consumed) <= consumed
      ensures off >= 4 && hasBuffer && raw == old(raw) && old(body) <= body && rc in {-1, 0, 1}
      ensures rc != 1 ==> body == old(body)
      ensures consumed == old(consumed) + PayloadBytes(Int32(raw) - |old(body)|, rest)
      ensures rc == if |old(body)| == Int32(raw) || Ends(rest) then -1 else if rest.Again? then 0 else 1
    {
      var want := Int32(raw) - (off - 4);
      if want > 0 && rest.Again? { return 0; }
      if want == 0 || !rest.Got? || rest.bytes == [] { return -1; }
      var taken := rest.bytes[..Min(|rest.bytes|, want)];
      body := body + taken;
      consumed := consumed + taken;
      off := off + |taken|;
      rc := 1;
    }

    /** An unfinished header is compared in host order; it is never taken for a frame. */
    lemma UnfinishedLength()
      requires Valid() && off < 4
      ensures off != HostInt(raw) + 4
    {
      assert raw[3] == raw[off..][3 - off] == FRESH_LEN[off..][3 - off] == 0;
    }

    /** `recv_buffer`.  A header of length zero is followed by a request for no bytes,
        which reads as end of stream. */
    method RecvBuffer(header: In, rest: In) returns (rc: int)
      requires Valid()
      requires hasBuffer ==> |body| < Int32(raw)
      modifies this
      ensures Valid() && received == old(received) && old(consumed) <= consumed
      ensures rc in {-1, 0, 1}
      ensures rc == 1 <==> off >= 4 && hasBuffer && 0 < |body| == Int32(raw)
      ensures rc == -1 <==> old(Fails(header, rest))
      ensures consumed == old(consumed) + old(Reads(header, rest))
    {
      hide Stream, Int32, Receiver.Part, Receiver.Reads, Receiver.Fails, LengthBytes, PayloadBytes;
      ghost var was := consumed;
      if off >= 4 { InBody(header, rest); }
      if off < 4 {
        rc := RecvLength(header, rest);
        if rc != 1 { return; }
      }
      assert consumed == was + LengthBytes(old(off), header);
      if hasBuffer {
        rc := RecvBody(rest);
        if rc != 1 { return; }
      }
      if off < 4 { UnfinishedLength(); }
      var len := if off < 4 then HostInt(raw) else Int32(raw);
      rc := if off == len + 4 then 1 else 0;
    }

    /** `check_events`: a finished buffer is queued and a fresh one started. */
    method QueueReceived()
      requires Valid() && off >= 4 && hasBuffer && 0 < |body| == Int32(raw)
      modifies this
      ensures Valid() && received == old(received) + [old(body)] && consumed == old(consumed) && off == 0
    {
      Be32Int32(raw);
      StreamSnoc(received, body);
      received := received + [body];
      off, raw, body, hasBuffer := 0, FRESH_LEN, [], false;
    }
  }

  /** A length that a sender has put on the wire is not zero and not negative. */
  lemma {:induction false} LengthIsReal(rs: seq<Payload>, part: Bytes, fs: seq<Payload>)
    requires Stream(rs) + part <= Stream(fs) && |part| >= 4
    ensures Int32(part[..4]) > 0
  {
    if rs == [] {
      Int32Be32(|fs[0]|);
      assert part[..4] == Stream(fs)[..4] == Be32(|fs[0]|);
    } else {
      assert Stream(rs) + part == Encode(rs[0]) + (Stream(rs[1..]) + part);
      SameHead(rs[0], Stream(rs[1..]) + part, fs[0], Stream(fs[1..]));
      LengthIsReal(rs[1..], part, fs[1..]);
    }
  }

  /** However the bytes were split on either side: the frames the receiver has whole are the
      beginning of what was queued, in order; and nothing is missing once every byte sent
      has been read and the queue is empty. */
  lemma FramesArrive(s: Sender, r: Receiver)
    requires s.Faithful() && r.Valid() && r.consumed <= s.wire
    ensures r.Taken() <= s.All()
    ensures r.consumed == s.wire && s.queue == [] ==> r.Taken() == s.All() && (r.Complete() || r.off == 0)
  {
    hide Stream, Encode;
    var part := if r.Complete() then [] else r.Part();
    assert s.wire <= Stream(s.All());
    TakenApart(r);
    assert r.off >= 4 ==> r.Part()[..4] == r.raw;
    if |r.Part()| >= 4 { LengthIsReal(r.received, r.Part(), s.All()); }
    ReadInOneWay(r.Taken(), part, s.All());
  }

  lemma TakenApart(r: Receiver)
    requires r.Valid()
    ensures r.consumed == Stream(r.Taken()) + if r.Complete() then [] else r.Part()
  {
    hide Stream;
    if r.Complete() {
      Be32Int32(r.raw);
      StreamSnoc(r.received, r.body);
    }
  }

  // --------------------------------------------------------- front-queueing by zoo_add_auth

  const AUTH_XID: Bytes := [255, 255, 255, 252]

  /** A request header is an xid and a type; auth frames carry the xid -4. */
  ghost predicate IsAuth(f: Bytes) {
    |f| >= 8 && f[..4] == AUTH_XID
  }

  /** `zoo_add_auth` puts an auth frame in front on a connected session.  That leaves the stream right
      exactly if the frame at the head is unsent, unless the head is an auth frame of the same length
      with eight bytes or more out. */
  lemma FrontQueueSafeIffUnsent(h: Payload, off: nat, a: Payload)
    requires off <= |h| + 4 && IsAuth(a) && |h| >= 8 && (off < 8 || !IsAuth(h) || |h| != |a|)
    ensures Commute(Encode(h)[..off], Encode(a)) <==> off == 0
  {
    var x, e := Encode(h)[..off], Encode(a);
    assert e[0] as int < 0x80;
    assert e[4..8] == a[..4];
    assert e[4] == 255 && e[5] == 255 && e[6] == 255 && e[7] == 252;
    assert off >= 8 ==> x[4..8] == h[..4] && x[..4] == Be32(|h|);
    if off > 0 && x + e == e + x {
      Int32Be32(|h|);
      Int32Be32(|a|);
      Periodic(x, e);
    }
  }

  /** An auth frame in front of a started one of the same length: the stream is right exactly if the two
      agree in what is out and the new frame, turned round there, is itself. */
  lemma AuthBehindAuth(h: Payload, off: nat, a: Payload)
    requires |h| == |a| && off <= |a| + 4
    ensures var x, e := Encode(h)[..off], Encode(a);
      Commute(x, e) <==> x == e[..off] && e[off..] + e[..off] == e
  {
    hide Encode;
    CommutesWith(Encode(h)[..off], Encode(a));
  }

  lemma CommutesWith(x: Bytes, e: Bytes)
    requires |x| <= |e|
    ensures Commute(x, e) <==> x == e[..|x|] && e[|x|..] + e[..|x|] == e
  {
    var y := e[|x|..];
    assert e == e[..|x|] + y;
    if x + e == e + x {
      assert x == (x + e)[..|x|] == (e + x)[..|x|] == e[..|x|];
      assert (x + e)[|x|..] == e && (x + (y + x))[|x|..] == y + x;
    }
    if x == e[..|x|] && y + x == e {
      assert x + (y + x) == (x + y) + x;
    }
  }

  lemma Periodic(x: Bytes, e: Bytes)
    requires x + e == e + x && |e| >= 8 && 0 < |x|
    ensures |x| < 8 ==> e[|x|] == e[0] && (|x| == 3 ==> e[6] == e[0]) && (|x| < 3 ==> e[4] == e[0])
    ensures |x| >= 8 ==> x[4..8] == e[4..8] && x[..4] == e[..4]
  {
    var n := |x|;
    assert forall i | n <= i < |e| :: (x + e)[i] == e[i - n] && (e + x)[i] == e[i];
    if n >= 8 {
      assert x[4..8] == (x + e)[4..8] == (e + x)[4..8] == e[4..8];
      assert x[..4] == (x + e)[..4] == (e + x)[..4] == e[..4];
    }
  }

  /** A request to read the node /a: xid 1, type 4, the path, and no watch. */
  const GET_FRAME: Payload := [0, 0, 0, 1, 0, 0, 0, 4, 0, 0, 0, 2, 47, 97, 0]

  /** An auth packet: xid -4, type 100, then type 0, the scheme digest and the certificate u:p. */
  const AUTH_FRAME: Payload :=
    [255, 255, 255, 252, 0, 0, 0, 100, 0, 0, 0, 0, 0, 0, 0, 6, 100, 105, 103, 101, 115, 116, 0, 0, 0, 3, 117, 58, 112]

  /** A frame of which n bytes are out. */
  method HalfSent(h: Payload, n: nat) returns (s: Sender)
    requires n < |h| + 4
    ensures fresh(s) && s.Faithful() && s.OnlyHead()
    ensures s.queue == [Buffer(h, n)] && s.left == [] && s.wire == Encode(h)[..n]
  {
    hide Stream, Rest, Encode;
    NoneLeft();
    ghost var e := Encode(h);
    s := new Sender();
    s.Queue(h);
    assert s.queue == [Buffer(h, 0)] && s.Final() == e;
    var rc := s.SendBuffer(Took(n), Took(if n < 4 then 0 else n - 4));
    HeadAndRest(Buffer(h, n), []);
    assert s.queue == [Buffer(h, n)] + [];
    assert s.wire == (s.wire + e[n..])[..n];
  }

  /** Each buffer carries its own offset, so the rest of a half-sent frame follows after the frame
      that was put in front of it. */
  method FrontThenSend(h: Payload, n: nat, a: Payload) returns (s: Sender)
    requires n < |h| + 4
    ensures s.Valid() && s.queue == [] && s.All() == [a, h]
    ensures s.wire == Encode(h)[..n] + Encode(a) + Encode(h)[n..]
    ensures s.wire == Stream([a, h]) <==> Commute(Encode(h)[..n], Encode(a))
  {
    hide Stream, Rest, Encode, Commute;
    NoneLeft();
    s := HalfSent(h, n);
    HeadAndRest(Buffer(h, n), []);
    assert s.queue == [Buffer(h, n)] + [];
    s.QueueFront(a);
    assert s.Final() == Encode(h)[..n] + Encode(a) + Encode(h)[n..];
    var rc := s.SendBuffer(Took(4), Took(|a|));
    s.RemoveSent();
    rc := s.SendBuffer(Took(4), Took(|h|));
    s.RemoveSent();
    assert s.All() == [a, h];
  }

  /** An auth packet is put in front of a request of which the length is out and the payload is not.
      Once both are sent, the first frame on the wire is one that nobody queued. */
  method FrontQueueBehindStartedHead() returns (s: Sender, ghost read: Payload)
    ensures s.Valid() && s.queue == [] && s.All() == [AUTH_FRAME, GET_FRAME] && !s.Faithful()
    ensures Encode(read) <= s.wire && read !in s.All()
  {
    hide Stream, Rest, Encode, Commute;
    NoneLeft();
    AuthIsAuth();
    FrontQueueSafeIffUnsent(GET_FRAME, 4, AUTH_FRAME);
    s := FrontThenSend(GET_FRAME, 4, AUTH_FRAME);
    read := [0, 0, 0, 29, 255, 255, 255, 252, 0, 0, 0, 100, 0, 0, 0];
    FirstRead(read);
  }

  lemma AuthIsAuth()
    ensures IsAuth(AUTH_FRAME) && !IsAuth(GET_FRAME)
  {
    assert GET_FRAME[..4][0] == 0;
    assert AUTH_FRAME[..4] == AUTH_XID;
  }

  lemma FirstRead(read: Payload)
    requires read == [0, 0, 0, 29, 255, 255, 255, 252, 0, 0, 0, 100, 0, 0, 0]
    ensures Encode(read) <= Encode(GET_FRAME)[..4] + Encode(AUTH_FRAME) + Encode(GET_FRAME)[4..]
    ensures read != AUTH_FRAME && read != GET_FRAME
  {
    hide Be32, Encode;
    var g, a := Encode(GET_FRAME), Encode(AUTH_FRAME);
    Auth29();
    assert |read| == |GET_FRAME| == 15 && g[..4] == Be32(15) && Encode(read) == Encode(read)[..4] + Encode(read)[4..];
    assert a[..15] == a[..4] + a[4..15] && a[4..15] == a[4..][..11];
    assert g[..4] + a + g[4..] == g[..4] + (a[..15] + (a[15..] + g[4..]));
  }

  lemma Auth29()
    ensures |AUTH_FRAME| == 29 && Be32(29) == [0, 0, 0, 29]
    ensures AUTH_FRAME[..11] == [255, 255, 255, 252, 0, 0, 0, 100, 0, 0, 0]
  {
  }
}

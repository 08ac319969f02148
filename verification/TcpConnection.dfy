/**
 `TcpConnection` of server/src/core: protocol detection, request handling, the push queue and the two
 write paths. `conn_mutex_` makes `read`, `process`, `write` and `to_write_bytes` one step each, which workers
 interleave; `enqueue_message` takes no lock and may come at any time, also while a flush is under way. The queue is
 the sequential FIFO that `MpscQueue` is proved to refine.
 */
module TcpConnections {
  import opened Wrappers
  import opened Buffers
  import opened Framing
  import Outgoing
  import EndToEnd
  import HttpRequests

  datatype ConnType = HTTP | PROTOBUF

  predicate IsHttpRequest(data: Bytes) {
    |data| >= 4 && data[..4] in {"GET ", "POST", "HEAD", "PUT ", "DELE"}
  }

  /** Protocol detection never takes a frame stream for HTTP, however little of it has arrived. */
  lemma FramesAreNotHttp(ps: seq<Bytes>, n: nat)
    requires AllWithin(ps, MAX_MESSAGE_SIZE) && n <= |Wire(ps)|
    ensures !IsHttpRequest(Wire(ps)[..n])
  {
    if n >= 4 {
      assert Pow256(3) == 0x100_0000;
      LeadingZero(|ps[0]|, HEADER_SIZE);
      assert Wire(ps)[..n][..4][0] == '\0';
    }
  }

  /** The known beginnings have a space at the end or none at all. */
  lemma KnownBeginnings(data: Bytes)
    requires IsHttpRequest(data)
    ensures data[0] != ' ' && data[1] != ' ' && data[2] != ' '
    ensures data[3] == ' ' <==> data[..3] in ["GET", "PUT"]
  {
    var p := data[..4];
    assert p[0] == data[0] && p[1] == data[1] && p[2] == data[2] && p[3] == data[3] && data[..3] == p[..3];
    assert "GET "[..3] == "GET" && "PUT "[..3] == "PUT";
  }

  /** A printed request is taken for HTTP from its fourth byte on exactly if its method is one of the five known. */
  lemma RequestsAreHttpIff(l: HttpRequests.RequestLine, rest: string, data: Bytes)
    requires HttpRequests.Token(l.verb) && |data| >= 4 && data <= HttpRequests.PrintRequestLine(l) + rest
    ensures IsHttpRequest(data) <==>
              l.verb in ["GET", "PUT"] || (|l.verb| >= 4 && l.verb[..4] in ["POST", "HEAD", "DELE"])
  {
    var n := |l.verb|;
    assert forall i :: 0 <= i < n && i < |data| ==> data[i] == l.verb[i] && l.verb[i] in l.verb;
    assert n < |data| ==> data[n] == ' ';
    if IsHttpRequest(data) {
      KnownBeginnings(data);
    }
    if n >= 4 {
      assert data[..4] == l.verb[..4];
    } else if n == 3 {
      assert data[..3] == l.verb && data[..4] == l.verb + " ";
      assert "GET" + " " == "GET " && "PUT" + " " == "PUT ";
    }
  }

  lemma SentIntoTail(sent: Bytes, head: Bytes, tail: Bytes, len: nat)
    requires |head| < len <= |head| + |tail|
    ensures (sent + (head + tail)[..len]) + ([] + tail[len - |head|..]) == sent + (head + tail)
  {
  }

  lemma SentInHead(sent: Bytes, head: Bytes, tail: Bytes, len: nat)
    requires len <= |head|
    ensures (sent + (head + tail)[..len]) + (head[len..] + tail) == sent + (head + tail)
  {
  }

  /** What `OnWrite_` does with the connection after a write. */
  datatype Verdict = AwaitRead | AwaitWrite | Close

  // ---------- the write loops as a function of the kernel's answers ----------

  /** In level-triggered mode a write loop stops once less than this is left. */
  const LOW_WATER := 10240

  /** The last result of a write loop, the bytes it leaves, and the answers it has not used. */
  datatype Drained = Drained(len: int, again: bool, left: nat, kernel: seq<Reply>)

  /** The loops of lines 157-185 and 187-197 on byte counts: write until refused, done, or few enough are left. */
  function Drain(isEt: bool, pending: nat, kernel: seq<Reply>): Drained
    decreases pending
  {
    var reply, later := ReplyTo(kernel, pending), Later(kernel);
    var left := if reply.r > 0 then pending - reply.r else pending;
    if reply.r <= 0 || left == 0 || (!isEt && left < LOW_WATER) then Drained(reply.r, reply.again, left, later)
    else Drain(isEt, left, later)
  }

  lemma {:induction false} DrainStep(isEt: bool, pending: nat, kernel: seq<Reply>, reply: Reply, left: nat, done: bool)
    requires reply == ReplyTo(kernel, pending) && left == pending - (if reply.r > 0 then reply.r else 0)
    requires done <==> reply.r <= 0 || left == 0 || (!isEt && left < LOW_WATER)
    ensures Drain(isEt, pending, kernel)
            == if done then Drained(reply.r, reply.again, left, Later(kernel)) else Drain(isEt, left, Later(kernel))
  {
  }

  lemma {:induction false} DrainTakes(isEt: bool, pending: nat, kernel: seq<Reply>)
    ensures Drain(isEt, pending, kernel).left <= pending
    decreases pending
  {
    var reply := ReplyTo(kernel, pending);
    if reply.r > 0 {
      DrainTakes(isEt, pending - reply.r, Later(kernel));
    }
  }

  /** A loop that ends on a successful write leaves bytes only in level-triggered mode, and then few. */
  lemma {:induction false} LeavesBytes(isEt: bool, pending: nat, kernel: seq<Reply>)
    ensures var d := Drain(isEt, pending, kernel);
            d.len > 0 && d.left > 0 ==> !isEt && d.left < LOW_WATER
    decreases pending
  {
    var reply := ReplyTo(kernel, pending);
    if reply.r > 0 && reply.r < pending && (isEt || pending - reply.r >= LOW_WATER) {
      LeavesBytes(isEt, pending - reply.r, Later(kernel));
    }
  }

  /** And some kernel makes it leave bytes exactly in level-triggered mode with two bytes or more pending. */
  lemma {:induction false} CanLeaveBytesIff(isEt: bool, pending: nat)
    ensures (exists kernel :: Drain(isEt, pending, kernel).len > 0 && Drain(isEt, pending, kernel).left > 0) <==>
              !isEt && pending >= 2
  {
    if !isEt && pending >= 2 {
      var kernel := [Reply(pending - 1, false)];
      assert Drain(isEt, pending, kernel) == Drained(pending - 1, false, 1, []);
    } else {
      forall kernel
        ensures !(Drain(isEt, pending, kernel).len > 0 && Drain(isEt, pending, kernel).left > 0)
      {
        LeavesBytes(isEt, pending, kernel);
      }
    }
  }

  /** The result of `write` after its flush: without `writev`, an empty buffer is not offered at all. */
  function WriteResult(isEt: bool, http: bool, pending: nat, kernel: seq<Reply>): Drained {
    if pending == 0 && !http then Drained(-1, false, 0, kernel) else Drain(isEt, pending, kernel)
  }

  // ---------- what other threads do meanwhile ----------

  function Frames(ps: seq<Bytes>): (fs: seq<Bytes>)
    ensures |fs| == |ps| && forall i :: 0 <= i < |ps| ==> fs[i] == Frame(ps[i])
  {
    seq(|ps|, i requires 0 <= i < |ps| => Frame(ps[i]))
  }

  lemma QueueGrows(queue: seq<Bytes>, batch: seq<Bytes>, i: nat)
    requires i < |batch|
    ensures (queue + Frames(batch[..i])) + [Frame(batch[i])] == queue + Frames(batch[..i + 1])
    ensures batch[..i] + [batch[i]] == batch[..i + 1]
  {
  }

  function Entry(arrivals: seq<seq<Bytes>>, i: nat): seq<Bytes> {
    if i < |arrivals| then arrivals[i] else []
  }

  /**
   The payloads that are enqueued in time for a flush: `n` messages wait before its `i`-th dequeue, and it goes on
   until a dequeue finds the queue empty.
   */
  function InTimeFrom(n: nat, arrivals: seq<seq<Bytes>>, i: nat): seq<Bytes>
    decreases if i < |arrivals| then |arrivals| - i else 0, n
  {
    var e := Entry(arrivals, i);
    if n + |e| == 0 then [] else e + InTimeFrom(n + |e| - 1, arrivals, i + 1)
  }

  function InTime(n: nat, arrivals: seq<seq<Bytes>>): seq<Bytes> {
    InTimeFrom(n, arrivals, 0)
  }

  /** With `taken` enqueued before the `i`-th dequeue, and what is still to come, it is `all`. */
  ghost predicate TakenLeft(n: nat, arrivals: seq<seq<Bytes>>, i: nat, taken: seq<Bytes>, all: seq<Bytes>) {
    taken + InTimeFrom(n, arrivals, i) == all
  }

  lemma {:induction false} NextTaken(n: nat, arrivals: seq<seq<Bytes>>, i: nat, taken: seq<Bytes>, all: seq<Bytes>)
    requires TakenLeft(n, arrivals, i, taken, all)
    ensures var e := Entry(arrivals, i);
            if n + |e| == 0 then taken + e == all
            else TakenLeft(n + |e| - 1, arrivals, i + 1, taken + e, all)
  {
    var e := Entry(arrivals, i);
    if n + |e| > 0 {
      var rest := InTimeFrom(n + |e| - 1, arrivals, i + 1);
      assert taken + (e + rest) == (taken + e) + rest;
    }
  }

  /** A flush under way, or over: the run so far, and what has been enqueued in time. */
  ghost predicate Flushing(o: Outgoing.Out, es: seq<Outgoing.Event>, now: Outgoing.Out,
                           arrivals: seq<seq<Bytes>>, i: nat, found: bool, taken: seq<Bytes>, all: seq<Bytes>) {
    && Outgoing.Leads(o, es, now, taken)
    && if found then TakenLeft(|now.queue|, arrivals, i, taken, all) else taken == all && now.queue == []
  }

  lemma {:induction false} FlushGoesOn(o: Outgoing.Out, es: seq<Outgoing.Event>, now: Outgoing.Out,
                                       arrivals: seq<seq<Bytes>>, i: nat, taken: seq<Bytes>, all: seq<Bytes>,
                                       more: seq<Outgoing.Event>, next: Outgoing.Out)
    requires Flushing(o, es, now, arrivals, i, true, taken, all) && Outgoing.Leads(now, more, next, Entry(arrivals, i))
    requires var n := |now.queue| + |Entry(arrivals, i)|; if n > 0 then |next.queue| == n - 1 else next.queue == []
    ensures Flushing(o, es + more, next, arrivals, i + 1, |now.queue| + |Entry(arrivals, i)| > 0,
                     taken + Entry(arrivals, i), all)
  {
    NextTaken(|now.queue|, arrivals, i, taken, all);
    Outgoing.LeadsOn(o, es, now, taken, more, next, Entry(arrivals, i));
  }

  /** How many bytes a flush moves to the write buffer: those of the queue, and of what is enqueued in time. */
  function Flushed(queue: seq<Bytes>, arrivals: seq<seq<Bytes>>): nat {
    Outgoing.Size(queue) + Outgoing.FramedSize(InTime(|queue|, arrivals))
  }

  lemma {:induction false} FirstInTime(n: nat, arrivals: seq<seq<Bytes>>)
    ensures var e := Entry(arrivals, 0);
            InTime(n, arrivals) == if n + |e| == 0 then [] else e + InTimeFrom(n + |e| - 1, arrivals, 1)
  {
  }

  /** A flush that has emptied the queue has moved exactly those bytes. */
  lemma {:induction false} FlushMoves(o: Outgoing.Out, es: seq<Outgoing.Event>, o': Outgoing.Out,
                                      arrivals: seq<seq<Bytes>>)
    requires Outgoing.Leads(o, es, o', InTime(|o.queue|, arrivals)) && o'.queue == [] && o'.sent == o.sent
    ensures |o'.buffered| == |o.buffered| + Flushed(o.queue, arrivals)
  {
    Outgoing.LeadsConserves(o, es, o', InTime(|o.queue|, arrivals));
  }

  /** A flush that finds a message moves some bytes. */
  lemma {:induction false} FlushedSome(queue: seq<Bytes>, arrivals: seq<seq<Bytes>>)
    requires forall i :: 0 <= i < |queue| ==> |queue[i]| >= HEADER_SIZE
    ensures |queue| > 0 || |Entry(arrivals, 0)| > 0 ==> Flushed(queue, arrivals) > 0
  {
    SomeFramed(InTime(|queue|, arrivals));
  }

  lemma {:induction false} SomeFramed(ps: seq<Bytes>)
    ensures Outgoing.FramedSize(ps) > 0 <==> |ps| > 0
  {
  }

  /** What `process` of another worker adds: a serialised response, or an HTTP header and perhaps a file. */
  datatype Response = Response(body: Bytes, mapped: Bytes)

  /** What another worker does between two locked steps of this one. */
  datatype Other = Answered(r: Response) | Wrote(arrivals: seq<seq<Bytes>>)

  /** The bytes to write and the kernel's answers to come, after another worker's step on a protobuf connection. */
  function AfterOther(isEt: bool, left: nat, kernel: seq<Reply>, o: Other): (nat, seq<Reply>) {
    match o
    case Answered(r) => (left + HEADER_SIZE + |r.body|, kernel)
    case Wrote(arrivals) =>
      var d := WriteResult(isEt, false, left + Flushed([], arrivals), kernel);
      (d.left, d.kernel)
  }

  function Meanwhile(isEt: bool, left: nat, kernel: seq<Reply>, between: seq<Other>): (nat, seq<Reply>)
    decreases |between|
  {
    if |between| == 0 then (left, kernel)
    else
      var (left', kernel') := AfterOther(isEt, left, kernel, between[0]);
      Meanwhile(isEt, left', kernel', between[1..])
  }

  /** The step appends a response or flushes a push. */
  predicate Adds(o: Other) {
    match o case Answered(_) => true case Wrote(arrivals) => |Entry(arrivals, 0)| > 0
  }

  lemma {:induction false} FlushedIff(arrivals: seq<seq<Bytes>>)
    ensures Flushed([], arrivals) > 0 <==> |Entry(arrivals, 0)| > 0
  {
    SomeFramed(InTime(0, arrivals));
  }

  /** Other workers add to what is pending only by such steps. */
  lemma {:induction false} NothingAdded(isEt: bool, left: nat, kernel: seq<Reply>, between: seq<Other>)
    requires forall i :: 0 <= i < |between| ==> !Adds(between[i])
    ensures Meanwhile(isEt, left, kernel, between).0 <= left
    decreases |between|
  {
    if |between| > 0 {
      FlushedIff(between[0].arrivals);
      var d := WriteResult(isEt, false, left, kernel);
      DrainTakes(isEt, left, kernel);
      NothingAdded(isEt, d.left, d.kernel, between[1..]);
    }
  }

  /** A kernel that takes nothing more leaves all that is added. */
  lemma {:induction false} SilentKernel(isEt: bool, left: nat, between: seq<Other>)
    ensures Meanwhile(isEt, left, [], between).0 >= left
    ensures (exists i :: 0 <= i < |between| && Adds(between[i])) ==> Meanwhile(isEt, left, [], between).0 > left
    decreases |between|
  {
    if |between| > 0 {
      var o, rest := between[0], between[1..];
      var more := match o case Answered(r) => HEADER_SIZE + |r.body| case Wrote(arrivals) => Flushed([], arrivals);
      if o.Wrote? {
        FlushedIff(o.arrivals);
        assert WriteResult(isEt, false, left + more, []).left == left + more;
      }
      assert Meanwhile(isEt, left, [], between) == Meanwhile(isEt, left + more, [], rest);
      SilentKernel(isEt, left + more, rest);
      if !Adds(o) && exists i :: 0 <= i < |between| && Adds(between[i]) {
        var i :| 0 <= i < |between| && Adds(between[i]);
        assert rest[i - 1] == between[i];
      }
    }
  }

  /** Bytes are pending when `to_write_bytes` is asked, though the kernel refused none of those offered before. */
  predicate PendingUnrefused(isEt: bool, pending: nat, between: seq<Other>, kernel: seq<Reply>) {
    var d := WriteResult(isEt, false, pending, kernel);
    (d.len > 0 || pending == 0) && Meanwhile(isEt, d.left, d.kernel, between).0 > 0
  }

  /**
   `OnWrite_` then closes the connection. For some kernel this happens exactly when another worker appends a
   response or flushes a push between `write` and `to_write_bytes`, or in level-triggered mode with two bytes or
   more pending.
   */
  lemma {:induction false} CanCloseUnrefusedIff(isEt: bool, pending: nat, between: seq<Other>)
    ensures (exists kernel :: PendingUnrefused(isEt, pending, between, kernel)) <==>
              (exists i :: 0 <= i < |between| && Adds(between[i])) || (!isEt && pending >= 2)
  {
    if exists i :: 0 <= i < |between| && Adds(between[i]) {
      var kernel := if pending == 0 then [] else [Reply(pending, false)];
      SilentKernel(isEt, 0, between);
      var d := WriteResult(isEt, false, pending, kernel);
      assert d.left == 0 && d.kernel == [];
      assert PendingUnrefused(isEt, pending, between, kernel);
    } else if !isEt && pending >= 2 {
      var kernel := [Reply(pending - 1, false)];
      SilentKernel(isEt, 1, between);
      assert WriteResult(isEt, false, pending, kernel) == Drained(pending - 1, false, 1, []);
      assert PendingUnrefused(isEt, pending, between, kernel);
    } else {
      CanLeaveBytesIff(isEt, pending);
      forall kernel
        ensures !PendingUnrefused(isEt, pending, between, kernel)
      {
        var d := WriteResult(isEt, false, pending, kernel);
        assert !(Drain(isEt, pending, kernel).len > 0 && Drain(isEt, pending, kernel).left > 0);
        NothingAdded(isEt, d.left, d.kernel, between);
      }
    }
  }

  // ---------- a script of calls on one connection ----------

  /** One pass of `read`, a call of `process`, a push by another thread, or a `write`. */
  datatype Call =
    | Read(n: nat)
    | Process
    | Push(payload: Bytes)
    | Write(arrivals: seq<seq<Bytes>>)

  /** A pass of `read` delivers `k` of the `n` bytes asked for, all unless fewer are left or there is no room. */
  predicate ReadsEnough(n: nat, left: nat, k: nat) {
    k <= n && k <= left && (k == n || k == left || k >= OVERFLOW_SIZE)
  }

  /** A payload is answered if it parses and the response to it serialises. */
  function AnswerOf(parses: Bytes -> bool, respond: (nat, Bytes) -> Option<Bytes>): EndToEnd.Answer {
    (k, p) => if parses(p) then respond(k, p) else None
  }

  /** What a call came to: its events, and the kernel's answers that are left. */
  datatype Done = Done(log: seq<EndToEnd.Event>, kernel: seq<Reply>)

  function LogOf(dones: seq<Done>): seq<EndToEnd.Event> {
    if |dones| == 0 then [] else LogOf(dones[..|dones| - 1]) + dones[|dones| - 1].log
  }

  function KernelAfter(kernel: seq<Reply>, dones: seq<Done>): seq<Reply> {
    if |dones| == 0 then kernel else dones[|dones| - 1].kernel
  }

  /**
   The call did its work between the states `c` and `c'`: it read as much as it could, handled a request, enqueued its
   payload, or emptied the queue into the buffer and wrote until the kernel or the mode ended the loop.
   */
  ghost predicate CallOk(isEt: bool, wire: Bytes, c: EndToEnd.Conn, c': EndToEnd.Conn, kernel: seq<Reply>,
                         call: Call, d: Done)
    requires c.reader.arrived <= |wire|
  {
    match call
    case Read(n) =>
      && |d.log| == 1 && d.log[0].Arrive? && ReadsEnough(n, |wire| - c.reader.arrived, d.log[0].n)
      && d.kernel == kernel
    case Process => d == Done([EndToEnd.Process], kernel)
    case Push(payload) => d == Done([EndToEnd.Enqueue(payload)], kernel)
    case Write(arrivals) =>
      var r := WriteResult(isEt, false, |c.out.buffered| + Flushed(c.out.queue, arrivals), kernel);
      && EndToEnd.SenderOnly(d.log) && EndToEnd.EnqueuedIn(d.log) == InTime(|c.out.queue|, arrivals)
      && c'.out.queue == [] && |c'.out.buffered| == r.left && d.kernel == r.kernel
  }

  lemma WriteIsOk(isEt: bool, wire: Bytes, c: EndToEnd.Conn, c': EndToEnd.Conn, kernel: seq<Reply>,
                  arrivals: seq<seq<Bytes>>, d: Done, r: Drained)
    requires c.reader.arrived <= |wire| && EndToEnd.SenderOnly(d.log)
    requires EndToEnd.EnqueuedIn(d.log) == InTime(|c.out.queue|, arrivals)
    requires r == WriteResult(isEt, false, |c.out.buffered| + Flushed(c.out.queue, arrivals), kernel)
    requires c'.out.queue == [] && |c'.out.buffered| == r.left && d.kernel == r.kernel
    ensures CallOk(isEt, wire, c, c', kernel, Write(arrivals), d)
  {
  }

  /** Every call of the script did its work. */
  ghost predicate AllOk(isEt: bool, answer: EndToEnd.Answer, wire: Bytes, kernel: seq<Reply>,
                        script: seq<Call>, dones: seq<Done>) {
    && |dones| <= |script|
    && forall i :: 0 <= i < |dones| ==>
         CallOk(isEt, wire, EndToEnd.After(answer, wire, LogOf(dones[..i])),
                EndToEnd.After(answer, wire, LogOf(dones[..i]) + dones[i].log),
                KernelAfter(kernel, dones[..i]), script[i], dones[i])
  }

  lemma {:induction false} OneMoreDone(isEt: bool, answer: EndToEnd.Answer, wire: Bytes, kernel: seq<Reply>,
                                       script: seq<Call>, dones: seq<Done>, d: Done)
    requires AllOk(isEt, answer, wire, kernel, script, dones) && |dones| < |script|
    requires CallOk(isEt, wire, EndToEnd.After(answer, wire, LogOf(dones)),
                    EndToEnd.After(answer, wire, LogOf(dones) + d.log), KernelAfter(kernel, dones), script[|dones|], d)
    ensures AllOk(isEt, answer, wire, kernel, script, dones + [d])
    ensures LogOf(dones + [d]) == LogOf(dones) + d.log && KernelAfter(kernel, dones + [d]) == d.kernel
  {
    var all := dones + [d];
    assert all[..|dones|] == dones;
    forall i | 0 <= i < |dones|
      ensures all[..i] == dones[..i] && all[i] == dones[i]
    {
    }
  }

  lemma ProcessSends(parses: Bytes -> bool, respond: (nat, Bytes) -> Option<Bytes>, r: Reader)
    ensures EndToEnd.Sends(AnswerOf(parses, respond), r, EndToEnd.Process)
            == match Decode(r.buffer)
               case Payload(p) =>
                 if parses(p) && respond(|r.taken|, p).Some?
                 then [Outgoing.Respond(respond(|r.taken|, p).value)] else []
               case _ => []
  {
  }

  class TcpConnection {
    const sock: Socket
    const readBuff: Buffer
    const writeBuff: Buffer
    const isEt: bool

    var determined: bool
    var connType: ConnType
    var outgoing: seq<Bytes>

    // iov_[0] is a window of the write buffer's store, iov_[1] a window of the mapped file.
    var iovCnt: nat
    var headBase: nat
    var headLen: nat
    var file: Bytes
    var fileOff: nat

    constructor (isEt: bool, kernel: seq<Reply>)
      ensures Valid() && this.isEt == isEt && fresh(sock) && fresh(readBuff) && fresh(writeBuff)
      ensures fresh(readBuff.store) && fresh(writeBuff.store)
      ensures sock.kernel == kernel && iovCnt == 0
      ensures Net() == Outgoing.EMPTY && readBuff.Contents() == [] && !determined
    {
      sock := new Socket(kernel);
      readBuff := new Buffer();
      writeBuff := new Buffer();
      this.isEt := isEt;
      determined, connType, outgoing := false, HTTP, [];
      iovCnt, headBase, headLen, file, fileOff := 0, 0, 0, [], 0;
    }

    ghost predicate Valid()
      reads this, readBuff, writeBuff
    {
      && readBuff != writeBuff && readBuff.store != writeBuff.store && readBuff.Valid() && writeBuff.Valid()
      && forall i :: 0 <= i < |outgoing| ==> |outgoing[i]| >= HEADER_SIZE
    }

    /** The connection as the abstract sender of module `Outgoing`. */
    ghost function Net(): Outgoing.Out
      requires Valid()
      reads this, sock, readBuff, writeBuff, writeBuff.store
    {
      Outgoing.Out(sock.sent, writeBuff.Contents(), outgoing)
    }

    method EnqueueMessage(data: Bytes) returns (ghost es: seq<Outgoing.Event>)
      requires Valid()
      modifies this`outgoing
      ensures Valid() && es == [Outgoing.Enqueue(data)] && Outgoing.Leads(old(Net()), es, Net(), [data])
      ensures outgoing == old(outgoing) + [Frame(data)]
    {
      es := [Outgoing.Enqueue(data)];
      Outgoing.LeadsByOne(Net(), es[0]);
      outgoing := outgoing + [Frame(data)];
    }

    /** Other threads enqueue any number of messages. */
    method EnqueueAll(batch: seq<Bytes>) returns (ghost es: seq<Outgoing.Event>)
      requires Valid()
      modifies this`outgoing
      ensures Valid() && Outgoing.Leads(old(Net()), es, Net(), batch)
      ensures outgoing == old(outgoing) + Frames(batch)
    {
      ghost var net := Net();
      es := [];
      Outgoing.LeadsNowhere(net);
      for i := 0 to |batch|
        invariant Valid() && Outgoing.Leads(net, es, Net(), batch[..i])
        invariant outgoing == net.queue + Frames(batch[..i])
      {
        ghost var before := Net();
        ghost var more := EnqueueMessage(batch[i]);
        Outgoing.LeadsOn(net, es, before, batch[..i], more, Net(), [batch[i]]);
        QueueGrows(net.queue, batch, i);
        es := es + more;
      }
      assert batch[..|batch|] == batch;
    }

    /** One round of the flush loop: a queued frame goes to the end of the write buffer. */
    method FlushOne() returns (ghost es: seq<Outgoing.Event>)
      requires Valid() && |outgoing| > 0
      modifies this`outgoing, writeBuff, writeBuff.store
      ensures Valid() && (writeBuff.store == old(writeBuff.store) || fresh(writeBuff.store))
      ensures Outgoing.Leads(old(Net()), es, Net(), [])
      ensures outgoing == old(outgoing)[1..]
    {
      es := [Outgoing.Flush];
      Outgoing.LeadsByOne(Net(), es[0]);
      var msg := outgoing[0];
      outgoing := outgoing[1..];
      writeBuff.Append(msg);
    }

    /** One round of the flush loop, before which other threads enqueue `arrived`. */
    method FlushRound(arrived: seq<Bytes>) returns (found: bool, ghost es: seq<Outgoing.Event>)
      requires Valid()
      modifies this`outgoing, writeBuff, writeBuff.store
      ensures Valid() && (writeBuff.store == old(writeBuff.store) || fresh(writeBuff.store))
      ensures Outgoing.Leads(old(Net()), es, Net(), arrived)
      ensures found <==> |old(outgoing)| + |arrived| > 0
      ensures found ==> |outgoing| == |old(outgoing)| + |arrived| - 1
      ensures !found ==> outgoing == [] && unchanged(writeBuff) && writeBuff.store[..] == old(writeBuff.store[..])
    {
      ghost var net := Net();
      es := EnqueueAll(arrived);
      found := |outgoing| > 0;
      if found {
        ghost var before := Net();
        ghost var more := FlushOne();
        Outgoing.LeadsOn(net, es, before, arrived, more, Net(), []);
        assert arrived + [] == arrived;
        es := es + more;
      }
    }

    /** Rounds from the `from`-th dequeue on, until one finds the queue empty. */
    method FlushRounds(arrivals: seq<seq<Bytes>>, from: nat) returns (ghost es: seq<Outgoing.Event>)
      requires Valid()
      modifies this`outgoing, writeBuff, writeBuff.store
      ensures Valid() && (writeBuff.store == old(writeBuff.store) || fresh(writeBuff.store))
      ensures Outgoing.Leads(old(Net()), es, Net(), InTimeFrom(|old(outgoing)|, arrivals, from)) && outgoing == []
    {
      ghost var net, all, taken: seq<Bytes> := Net(), InTimeFrom(|outgoing|, arrivals, from), [];
      Outgoing.LeadsNowhere(net);
      var i: nat := from;
      es := [];
      while true
        invariant Valid() && (writeBuff.store == old(writeBuff.store) || fresh(writeBuff.store))
        invariant Flushing(net, es, Net(), arrivals, i, true, taken, all)
        decreases if i < |arrivals| then |arrivals| - i else 0, |outgoing|
      {
        ghost var before := Net();
        ghost var more;
        var found;
        found, more := FlushRound(Entry(arrivals, i));
        FlushGoesOn(net, es, before, arrivals, i, taken, all, more, Net());
        es, taken, i := es + more, taken + Entry(arrivals, i), i + 1;
        if !found {
          break;
        }
      }
    }

    /**
     Empties the queue into the write buffer. `arrivals` is what other threads enqueue meanwhile: the
     messages of its i-th entry just before the i-th dequeue.
     */
    method FlushPendingToBuffer(arrivals: seq<seq<Bytes>>) returns (hasData: bool, ghost es: seq<Outgoing.Event>)
      requires Valid()
      modifies this`outgoing, writeBuff, writeBuff.store
      ensures Valid() && (writeBuff.store == old(writeBuff.store) || fresh(writeBuff.store))
      ensures Outgoing.Leads(old(Net()), es, Net(), InTime(|old(outgoing)|, arrivals)) && outgoing == []
      ensures |writeBuff.Contents()| == |old(writeBuff.Contents())| + Flushed(old(outgoing), arrivals)
      ensures hasData <==> |old(outgoing)| > 0 || |Entry(arrivals, 0)| > 0
      ensures hasData ==> |writeBuff.Contents()| > |old(writeBuff.Contents())|
      ensures !hasData ==> unchanged(writeBuff) && writeBuff.store[..] == old(writeBuff.store[..])
    {
      ghost var net, all, first := Net(), InTime(|outgoing|, arrivals), Entry(arrivals, 0);
      FirstInTime(|outgoing|, arrivals);
      FlushedSome(outgoing, arrivals);
      hasData, es := FlushRound(Entry(arrivals, 0));
      if hasData {
        ghost var before, rest := Net(), InTimeFrom(|outgoing|, arrivals, 1);
        ghost var more := FlushRounds(arrivals, 1);
        Outgoing.LeadsOn(net, es, before, first, more, Net(), rest);
        assert first + rest == all;
        es := es + more;
      }
      FlushMoves(net, es, Net(), arrivals);
    }

    /** One round of the loop of lines 187-197; `done` tells whether it was the last one. */
    method WriteRound() returns (len: int, again: bool, done: bool, ghost es: seq<Outgoing.Event>)
      requires Valid() && writeBuff.Contents() != []
      modifies writeBuff`readPos, sock
      ensures Valid() && Outgoing.Leads(old(Net()), es, Net(), [])
      ensures |sock.sent| + |writeBuff.Contents()| == |old(sock.sent)| + |old(writeBuff.Contents())|
      ensures !done ==> 0 < |writeBuff.Contents()| < |old(writeBuff.Contents())|
      ensures Drain(isEt, |old(writeBuff.Contents())|, old(sock.kernel))
              == if done then Drained(len, again, |writeBuff.Contents()|, sock.kernel)
                 else Drain(isEt, |writeBuff.Contents()|, sock.kernel)
    {
      ghost var net := Net();
      es := [];
      Outgoing.LeadsNowhere(net);
      len, again := writeBuff.WriteFd(sock);
      if len > 0 {
        es := [Outgoing.Taken(len)];
        Outgoing.LeadsByOne(net, es[0]);
        assert Net() == Outgoing.Step(net, es[0]);
      }
      done := len <= 0 || writeBuff.ReadableBytes() == 0 || (!isEt && writeBuff.ReadableBytes() < LOW_WATER);
    }

    /** The loop of lines 187-197: the kernel takes prefixes of the buffer until it stops. */
    method WriteBuffered() returns (len: int, again: bool, ghost es: seq<Outgoing.Event>)
      requires Valid()
      modifies writeBuff`readPos, sock
      ensures Valid() && Outgoing.Leads(old(Net()), es, Net(), [])
      ensures |sock.sent| + |writeBuff.Contents()| == |old(sock.sent)| + |old(writeBuff.Contents())|
      ensures Drained(len, again, |writeBuff.Contents()|, sock.kernel)
              == WriteResult(isEt, false, |old(writeBuff.Contents())|, old(sock.kernel))
      ensures len > 0 && |writeBuff.Contents()| > 0 ==> !isEt && |writeBuff.Contents()| < LOW_WATER
    {
      len, again, es := -1, false, [];
      ghost var net, pending, kernel := Net(), |writeBuff.Contents()|, sock.kernel;
      Outgoing.LeadsNowhere(net);
      LeavesBytes(isEt, pending, kernel);
      var done := writeBuff.ReadableBytes() == 0;
      while !done
        invariant Valid() && Outgoing.Leads(net, es, Net(), [])
        invariant |sock.sent| + |writeBuff.Contents()| == |old(sock.sent)| + pending
        invariant pending == 0 ==> done && len == -1 && !again && |writeBuff.Contents()| == 0 && sock.kernel == kernel
        invariant !done ==> writeBuff.Contents() != []
        invariant pending > 0 ==>
                    Drain(isEt, pending, kernel)
                    == if done then Drained(len, again, |writeBuff.Contents()|, sock.kernel)
                       else Drain(isEt, |writeBuff.Contents()|, sock.kernel)
        decreases !done, writeBuff.ReadableBytes()
      {
        ghost var before := Net();
        ghost var more;
        len, again, done, more := WriteRound();
        Outgoing.LeadsOn(net, es, before, [], more, Net(), []);
        es := es + more;
      }
    }

    // ---------- HTTP responses ----------

    /** The bytes that `writev` is offered: the rest of the header, then the rest of the file. */
    ghost function Segments(): Bytes
      requires Valid() && HttpValid()
      reads this, readBuff, writeBuff, writeBuff.store
    {
      HeadSegment() + FileSegment()
    }

    function HeadSegment(): Bytes
      requires Valid() && headBase + headLen <= writeBuff.store.Length
      reads this, readBuff, writeBuff, writeBuff.store
    {
      writeBuff.store[headBase..headBase + headLen]
    }

    function FileSegment(): Bytes
      requires fileOff <= |file|
      reads this
    {
      if iovCnt > 1 then file[fileOff..] else []
    }

    /** `iov_[0]` still points at exactly the unsent bytes of `write_buff_`. */
    ghost predicate HttpValid()
      requires Valid()
      reads this, readBuff, writeBuff, writeBuff.store
    {
      && fileOff <= |file|
      && headBase + headLen <= writeBuff.store.Length
      && HeadSegment() == writeBuff.Contents() && (headLen > 0 ==> headBase == writeBuff.readPos)
    }

    /** The response header is in the buffer; `mapped` is the file, absent when empty or unmapped. */
    method SetupIovForHttp(mapped: Bytes)
      requires Valid()
      modifies this`iovCnt, this`headBase, this`headLen, this`file, this`fileOff
      ensures Valid() && HttpValid() && iovCnt > 0
      ensures Segments() == writeBuff.Contents() + mapped && FileSegment() == mapped
    {
      headBase, headLen := writeBuff.readPos, writeBuff.ReadableBytes();
      iovCnt, file, fileOff := 1, [], 0;
      if |mapped| > 0 {
        file, iovCnt := mapped, 2;
      }
    }

    /** Lines 170-173: the header is fully sent. */
    method DropHeader()
      requires Valid() && HttpValid()
      modifies this`headLen, writeBuff`readPos, writeBuff`writePos
      ensures Valid() && HttpValid() && HeadSegment() == []
    {
      if headLen > 0 {
        writeBuff.RetrieveAll();
        headLen := 0;
      }
    }

    /** Lines 165-173: the header is fully sent and part of the file went with it. */
    method AdvanceIntoFile(len: nat)
      requires Valid() && HttpValid() && iovCnt > 1 && headLen < len <= headLen + |file| - fileOff
      modifies this`headLen, this`fileOff, writeBuff`readPos, writeBuff`writePos
      ensures Valid() && HttpValid()
      ensures HeadSegment() == [] && FileSegment() == old(FileSegment())[len - old(headLen)..]
    {
      fileOff := fileOff + (len - headLen);
      DropHeader();
    }

    /** Lines 175-178: only header bytes were sent. */
    method AdvanceInHeader(len: nat)
      requires Valid() && HttpValid() && len <= headLen
      modifies this`headBase, this`headLen, writeBuff`readPos
      ensures Valid() && HttpValid()
      ensures HeadSegment() == old(HeadSegment())[len..] && FileSegment() == old(FileSegment())
    {
      ghost var head := writeBuff.Contents();
      assert HeadSegment() == head && (headLen > 0 ==> headBase + headLen == writeBuff.writePos);
      headBase, headLen := headBase + len, headLen - len;
      writeBuff.Retrieve(len);
      assert headLen > 0 ==> headBase == writeBuff.readPos && headBase + headLen == writeBuff.writePos;
      assert HeadSegment() == writeBuff.Contents();
    }

    /** One `writev` of both windows, which then advance past what was sent. */
    method WritevOnce() returns (len: int, again: bool)
      requires Valid() && HttpValid()
      modifies this`headBase, this`headLen, this`fileOff, writeBuff`readPos, writeBuff`writePos, sock
      ensures Valid() && HttpValid() && sock.sent + Segments() == old(sock.sent + Segments())
      ensures |Segments()| == |old(Segments())| - (if len > 0 then len else 0)
      ensures Reply(len, again) == ReplyTo(old(sock.kernel), |old(Segments())|)
      ensures sock.kernel == Later(old(sock.kernel))
    {
      ghost var sent, head, tail := sock.sent, HeadSegment(), FileSegment();
      len, again := sock.Write(HeadSegment() + FileSegment());
      if len > headLen {
        assert iovCnt > 1;
        SentIntoTail(sent, head, tail, len);
        AdvanceIntoFile(len);
        assert sock.sent == sent + (head + tail)[..len] && Segments() == [] + tail[len - |head|..];
      } else if len > 0 {
        SentInHead(sent, head, tail, len);
        AdvanceInHeader(len);
        assert sock.sent == sent + (head + tail)[..len] && Segments() == head[len..] + tail;
      }
    }

    /** One round of the loop of lines 157-185; `done` tells whether it was the last one. */
    method WritevRound() returns (len: int, again: bool, done: bool)
      requires Valid() && HttpValid()
      modifies this`headBase, this`headLen, this`fileOff, writeBuff`readPos, writeBuff`writePos, sock
      ensures Valid() && HttpValid() && sock.sent + Segments() == old(sock.sent + Segments())
      ensures !done ==> |Segments()| < |old(Segments())|
      ensures Drain(isEt, |old(Segments())|, old(sock.kernel))
              == if done then Drained(len, again, |Segments()|, sock.kernel)
                 else Drain(isEt, |Segments()|, sock.kernel)
    {
      ghost var pending, kernel := |Segments()|, sock.kernel;
      len, again := WritevOnce();
      var remaining := headLen + |FileSegment()|;
      assert remaining == |Segments()|;
      done := len <= 0 || remaining == 0 || (!isEt && remaining < LOW_WATER);
      DrainStep(isEt, pending, kernel, Reply(len, again), remaining, done);
    }

    /**
     The loop of lines 157-185. Header and file leave in order and without gaps; in edge-triggered mode
     the loop ends only when both are sent or the kernel refuses.
     */
    method WriteHttp() returns (len: int, again: bool)
      requires Valid() && HttpValid()
      modifies this`headBase, this`headLen, this`fileOff, writeBuff`readPos, writeBuff`writePos, sock
      ensures Valid() && HttpValid()
      ensures sock.sent + Segments() == old(sock.sent + Segments())
      ensures Drained(len, again, |Segments()|, sock.kernel) == Drain(isEt, |old(Segments())|, old(sock.kernel))
      ensures len > 0 && |Segments()| > 0 ==> !isEt && |Segments()| < LOW_WATER
    {
      ghost var all, pending, kernel := sock.sent + Segments(), |Segments()|, sock.kernel;
      LeavesBytes(isEt, pending, kernel);
      var done := false;
      len, again := -1, false;
      while !done
        invariant Valid() && HttpValid() && sock.sent + Segments() == all
        invariant Drain(isEt, pending, kernel)
                  == if done then Drained(len, again, |Segments()|, sock.kernel)
                     else Drain(isEt, |Segments()|, sock.kernel)
        decreases !done, |Segments()|
      {
        len, again, done := WritevRound();
      }
    }

    /** Whether this connection writes with `writev`. */
    predicate SendsHttp()
      reads this
    {
      connType == HTTP && iovCnt > 0
    }

    function ToWriteBytes(): nat
      requires Valid() && (SendsHttp() ==> fileOff <= |file|)
      reads this, readBuff, writeBuff
    {
      if SendsHttp() then headLen + |FileSegment()| else writeBuff.ReadableBytes()
    }

    /** The two write loops, lines 156-198. */
    method Send() returns (len: int, again: bool, ghost es: seq<Outgoing.Event>)
      requires Valid() && (SendsHttp() ==> HttpValid())
      modifies this`headBase, this`headLen, this`fileOff, writeBuff`readPos, writeBuff`writePos, sock
      ensures Valid()
      ensures SendsHttp() ==> HttpValid() && sock.sent + Segments() == old(sock.sent + Segments())
      ensures !SendsHttp() ==> Outgoing.Leads(old(Net()), es, Net(), [])
      ensures |sock.sent| + ToWriteBytes() == |old(sock.sent)| + old(ToWriteBytes())
      ensures Drained(len, again, ToWriteBytes(), sock.kernel)
              == WriteResult(isEt, SendsHttp(), old(ToWriteBytes()), old(sock.kernel))
      ensures len > 0 && ToWriteBytes() > 0 ==> !isEt && ToWriteBytes() < LOW_WATER
    {
      es := [];
      if SendsHttp() {
        ghost var all, pending := sock.sent + Segments(), ToWriteBytes();
        assert pending == |Segments()|;
        len, again := WriteHttp();
        assert ToWriteBytes() == |Segments()| && |sock.sent| + |Segments()| == |all|;
      } else {
        len, again, es := WriteBuffered();
      }
    }

    /** The bytes that a call of `write` has to send, known before the call. */
    function Pending(arrivals: seq<seq<Bytes>>): nat
      requires Valid() && (SendsHttp() ==> fileOff <= |file|)
      reads this, readBuff, writeBuff
    {
      ToWriteBytes() + if SendsHttp() then 0 else Flushed(outgoing, arrivals)
    }

    /** The flush of line 153, as far as the write loops are concerned. */
    method FlushForWrite(arrivals: seq<seq<Bytes>>) returns (stale: bool, ghost es: seq<Outgoing.Event>)
      requires Valid() && (SendsHttp() ==> HttpValid())
      modifies this`outgoing, writeBuff, writeBuff.store
      ensures Valid() && (writeBuff.store == old(writeBuff.store) || fresh(writeBuff.store))
      ensures outgoing == [] && Outgoing.Leads(old(Net()), es, Net(), InTime(|old(outgoing)|, arrivals))
      ensures stale <==> SendsHttp() && (|old(outgoing)| > 0 || |Entry(arrivals, 0)| > 0)
      ensures stale ==> |writeBuff.Contents()| > headLen
      ensures SendsHttp() && !stale ==> HttpValid() && Segments() == old(Segments())
      ensures !stale ==> ToWriteBytes() == old(Pending(arrivals))
    {
      ghost var head := writeBuff.Contents();
      var hasData;
      hasData, es := FlushPendingToBuffer(arrivals);
      stale := SendsHttp() && hasData;
      if SendsHttp() && !hasData {
        assert writeBuff.Contents() == head;
        assert HeadSegment() == writeBuff.Contents();
        assert Segments() == head + FileSegment();
      }
    }

    /** `Send` after the flush `es` from the state `net`. */
    method SendFlushed(ghost net: Outgoing.Out, ghost es: seq<Outgoing.Event>, ghost ps: seq<Bytes>)
      returns (len: int, again: bool, ghost all: seq<Outgoing.Event>)
      requires Valid() && (SendsHttp() ==> HttpValid()) && Outgoing.Leads(net, es, Net(), ps)
      modifies this`headBase, this`headLen, this`fileOff, writeBuff`readPos, writeBuff`writePos, sock
      ensures Valid()
      ensures SendsHttp() ==> HttpValid() && sock.sent + Segments() == old(sock.sent + Segments())
      ensures !SendsHttp() ==> Outgoing.Leads(net, all, Net(), ps)
      ensures |sock.sent| + ToWriteBytes() == |old(sock.sent)| + old(ToWriteBytes())
      ensures Drained(len, again, ToWriteBytes(), sock.kernel)
              == WriteResult(isEt, SendsHttp(), old(ToWriteBytes()), old(sock.kernel))
      ensures len > 0 && ToWriteBytes() > 0 ==> !isEt && ToWriteBytes() < LOW_WATER
    {
      ghost var before := Net();
      ghost var more;
      len, again, more := Send();
      all := es + more;
      if !SendsHttp() {
        Outgoing.LeadsOn(net, es, before, ps, more, Net(), []);
        assert ps + [] == ps;
      }
    }

    /**
     `write`: flush the queue, then send. A protobuf connection makes a run of `Outgoing` events; on an HTTP
     connection header and file go out in order. If a push is flushed on an HTTP connection, `iov_[0]` no
     longer covers the write buffer; the model stops there and tells so by `stale`.
     */
    method Write(arrivals: seq<seq<Bytes>>)
      returns (len: int, again: bool, stale: bool, ghost es: seq<Outgoing.Event>)
      requires Valid() && (SendsHttp() ==> HttpValid())
      modifies this`outgoing, this`headBase, this`headLen, this`fileOff, writeBuff, writeBuff.store, sock
      ensures Valid() && (writeBuff.store == old(writeBuff.store) || fresh(writeBuff.store))
      ensures outgoing == []
      ensures stale <==> SendsHttp() && (|old(outgoing)| > 0 || |Entry(arrivals, 0)| > 0)
      ensures SendsHttp() ==> fileOff <= |file| && (stale <==> |writeBuff.Contents()| > headLen)
      ensures SendsHttp() && !stale ==> HttpValid() && sock.sent + Segments() == old(sock.sent + Segments())
      ensures !SendsHttp() ==> Outgoing.Leads(old(Net()), es, Net(), InTime(|old(outgoing)|, arrivals))
      ensures !stale ==> |sock.sent| + ToWriteBytes() == |old(sock.sent)| + old(Pending(arrivals))
      ensures !stale ==> Drained(len, again, ToWriteBytes(), sock.kernel)
                         == WriteResult(isEt, SendsHttp(), old(Pending(arrivals)), old(sock.kernel))
      ensures len > 0 && ToWriteBytes() > 0 ==> !stale && !isEt && ToWriteBytes() < LOW_WATER
    {
      len, again := -1, false;
      ghost var net, ps := Net(), InTime(|outgoing|, arrivals);
      stale, es := FlushForWrite(arrivals);
      if !stale {
        len, again, es := SendFlushed(net, es, ps);
      }
    }

    /** Another worker's `process` answers one request. */
    method Answer(r: Response)
      requires Valid() && (SendsHttp() ==> HttpValid())
      modifies this`iovCnt, this`headBase, this`headLen, this`file, this`fileOff, writeBuff, writeBuff.store
      ensures Valid() && (writeBuff.store == old(writeBuff.store) || fresh(writeBuff.store))
      ensures SendsHttp() ==> HttpValid()
      ensures ToWriteBytes() == |old(writeBuff.Contents())|
                                + if connType == HTTP then |r.body| + |r.mapped| else HEADER_SIZE + |r.body|
    {
      if connType == HTTP {
        ProcessHttp(r.body, r.mapped);
        assert ToWriteBytes() == |Segments()|;
      } else {
        ghost var es := EncodeMessage(r.body);
      }
    }

    /** Another worker's `write`. */
    method OtherWrites(arrivals: seq<seq<Bytes>>) returns (stale: bool)
      requires Valid() && (SendsHttp() ==> HttpValid()) && outgoing == []
      modifies this`outgoing, this`headBase, this`headLen, this`fileOff, writeBuff, writeBuff.store, sock
      ensures Valid() && (writeBuff.store == old(writeBuff.store) || fresh(writeBuff.store)) && outgoing == []
      ensures (stale ==> connType == HTTP) && (SendsHttp() ==> fileOff <= |file| && (!stale ==> HttpValid()))
      ensures connType != HTTP ==>
                var d := WriteResult(isEt, false, old(ToWriteBytes()) + Flushed([], arrivals), old(sock.kernel));
                ToWriteBytes() == d.left && sock.kernel == d.kernel
    {
      ghost var d := WriteResult(isEt, SendsHttp(), Pending(arrivals), sock.kernel);
      assert connType != HTTP ==> Pending(arrivals) == ToWriteBytes() + Flushed([], arrivals);
      var len, again;
      ghost var es;
      len, again, stale, es := Write(arrivals);
      assert !stale ==> Drained(len, again, ToWriteBytes(), sock.kernel) == d;
    }

    /** One step of another worker. */
    method OtherStep(o: Other) returns (stale: bool)
      requires Valid() && (SendsHttp() ==> HttpValid()) && outgoing == []
      modifies this, writeBuff, writeBuff.store, sock
      ensures Valid() && (writeBuff.store == old(writeBuff.store) || fresh(writeBuff.store))
      ensures connType == old(connType) && outgoing == [] && (SendsHttp() ==> fileOff <= |file|)
      ensures stale ==> connType == HTTP
      ensures !stale && SendsHttp() ==> HttpValid()
      ensures connType != HTTP ==>
                (ToWriteBytes(), sock.kernel) == AfterOther(isEt, old(ToWriteBytes()), old(sock.kernel), o)
    {
      stale := false;
      match o
      case Answered(r) => Answer(r);
      case Wrote(arrivals) => stale := OtherWrites(arrivals);
    }

    /** Other workers answer and write, one step after the other. */
    method Interference(between: seq<Other>) returns (stale: bool)
      requires Valid() && (SendsHttp() ==> HttpValid()) && outgoing == []
      modifies this, writeBuff, writeBuff.store, sock
      ensures Valid() && connType == old(connType) && (SendsHttp() ==> fileOff <= |file|)
      ensures stale ==> connType == HTTP
      ensures !stale && SendsHttp() ==> HttpValid()
      ensures connType != HTTP ==>
                (ToWriteBytes(), sock.kernel) == Meanwhile(isEt, old(ToWriteBytes()), old(sock.kernel), between)
      ensures between == [] ==> !stale && ToWriteBytes() == old(ToWriteBytes()) && sock.kernel == old(sock.kernel)
    {
      ghost var goal := Meanwhile(isEt, ToWriteBytes(), sock.kernel, between);
      stale := false;
      for i := 0 to |between|
        invariant Valid() && (writeBuff.store == old(writeBuff.store) || fresh(writeBuff.store))
        invariant connType == old(connType) && (SendsHttp() ==> HttpValid()) && outgoing == [] && !stale
        invariant connType != HTTP ==> Meanwhile(isEt, ToWriteBytes(), sock.kernel, between[i..]) == goal
        invariant i == 0 ==> ToWriteBytes() == old(ToWriteBytes()) && sock.kernel == old(sock.kernel)
      {
        assert between[i..][0] == between[i] && between[i..][1..] == between[i + 1..];
        stale := OtherStep(between[i]);
        if stale {
          return;
        }
      }
    }

    /**
     `OnWrite_`. `write` and `to_write_bytes` lock the connection one after the other, and other workers may do
     the steps `between` in the meantime. A connection that then has bytes to write is closed exactly when the
     last write of this worker was not refused with `EAGAIN`; `CanCloseUnrefusedIff` says when that can happen
     although the kernel refused nothing.
     */
    method OnWrite(arrivals: seq<seq<Bytes>>, between: seq<Other>, keepAlive: bool)
      returns (verdict: Verdict, len: int, again: bool, stale: bool, ghost d: Drained)
      requires Valid() && (SendsHttp() ==> HttpValid())
      modifies this, writeBuff, writeBuff.store, sock
      ensures Valid() && connType == old(connType) && (SendsHttp() ==> fileOff <= |file|)
      ensures stale ==> connType == HTTP
      ensures between == [] ==> (stale <==> old(SendsHttp()) && (|old(outgoing)| > 0 || |Entry(arrivals, 0)| > 0))
      ensures !stale ==> d == WriteResult(isEt, old(SendsHttp()), old(Pending(arrivals)), old(sock.kernel))
                         && len == d.len && again == d.again
      ensures !stale && between == [] ==> ToWriteBytes() == d.left && sock.kernel == d.kernel
      ensures connType != HTTP ==> (ToWriteBytes(), sock.kernel) == Meanwhile(isEt, d.left, d.kernel, between)
      ensures !stale ==> (verdict == AwaitRead <==> ToWriteBytes() == 0 && keepAlive)
      ensures !stale ==> (verdict == AwaitWrite <==> ToWriteBytes() > 0 && len < 0 && again)
      ensures connType != HTTP && PendingUnrefused(isEt, old(Pending(arrivals)), between, old(sock.kernel)) ==>
                verdict == Close && ToWriteBytes() > 0
      ensures !stale && between == [] && verdict == Close && ToWriteBytes() > 0 && len > 0 ==>
                !isEt && ToWriteBytes() < LOW_WATER
    {
      ghost var es;
      len, again, stale, es := Write(arrivals);
      d := Drained(len, again, ToWriteBytes(), sock.kernel);
      if stale {
        return Close, len, again, stale, d;
      }
      stale := Interference(between);
      if ToWriteBytes() == 0 {
        verdict := if keepAlive then AwaitRead else Close;
      } else {
        verdict := if len < 0 && again then AwaitWrite else Close;
      }
    }

    // ---------- requests ----------

    /** Lines 72-89: the first bytes fix the protocol for good. */
    method DetermineProtocol() returns (known: bool)
      requires Valid()
      modifies this`determined, this`connType
      ensures known == determined == (old(determined) || readBuff.Contents() != [])
      ensures old(determined) ==> connType == old(connType)
      ensures known && !old(determined) ==> (connType == HTTP <==> IsHttpRequest(readBuff.Contents()))
    {
      if !determined {
        if readBuff.ReadableBytes() == 0 {
          return false;
        }
        connType := if IsHttpRequest(readBuff.Contents()) then HTTP else PROTOBUF;
        determined := true;
      }
      known := true;
    }

    /** Consumes exactly what `Decode` says; a payload that does not parse is dropped on its own. */
    method TryDecodeMessage(parses: Bytes -> bool) returns (request: Option<Bytes>)
      requires Valid()
      modifies readBuff`readPos
      ensures Valid() && readBuff.Contents() == Leftover(old(readBuff.Contents()))
      ensures request == match Decode(old(readBuff.Contents()))
                         case Payload(p) => if parses(p) then Some(p) else None
                         case _ => None
    {
      if readBuff.ReadableBytes() < HEADER_SIZE {
        return None;
      }
      var data := readBuff.Contents();
      var msgLen := LengthField(data);
      if msgLen > MAX_MESSAGE_SIZE {
        readBuff.Retrieve(HEADER_SIZE);
        return None;
      }
      if readBuff.ReadableBytes() < HEADER_SIZE + msgLen {
        return None;
      }
      var payload := data[HEADER_SIZE..HEADER_SIZE + msgLen];
      readBuff.Retrieve(HEADER_SIZE + msgLen);
      request := if parses(payload) then Some(payload) else None;
    }

    /** The length and the payload are appended one after the other. */
    method EncodeMessage(serialized: Bytes) returns (ghost es: seq<Outgoing.Event>)
      requires Valid()
      modifies writeBuff, writeBuff.store
      ensures Valid() && (writeBuff.store == old(writeBuff.store) || fresh(writeBuff.store))
      ensures es == [Outgoing.Respond(serialized)] && Net() == Outgoing.Exec(old(Net()), es)
    {
      es := [Outgoing.Respond(serialized)];
      assert es[..0] == [];
      ghost var before := writeBuff.Contents();
      writeBuff.Append(BigEndian(|serialized|, HEADER_SIZE));
      writeBuff.Append(serialized);
      assert (before + BigEndian(|serialized|, HEADER_SIZE)) + serialized == before + Frame(serialized);
    }

    /**
     `ProtobufHandler::Process`: at most one request is taken and answered. `respond` stands for dispatch
     and serialisation, which can fail.
     */
    method ProcessProtobuf(parses: Bytes -> bool, respond: Bytes -> Option<Bytes>)
      returns (ok: bool, ghost es: seq<Outgoing.Event>)
      requires Valid()
      modifies readBuff`readPos, writeBuff, writeBuff.store
      ensures Valid() && (writeBuff.store == old(writeBuff.store) || fresh(writeBuff.store))
      ensures readBuff.Contents() == Leftover(old(readBuff.Contents()))
      ensures ok <==> Decode(old(readBuff.Contents())).Payload? && parses(Decode(old(readBuff.Contents())).payload)
      ensures Net() == Outgoing.Exec(old(Net()), es)
      ensures es == if ok && respond(Decode(old(readBuff.Contents())).payload).Some?
                    then [Outgoing.Respond(respond(Decode(old(readBuff.Contents())).payload).value)] else []
    {
      es := [];
      var request := TryDecodeMessage(parses);
      if request.None? {
        return false, [];
      }
      ok := true;
      var reply := respond(request.value);
      if reply.Some? {
        es := EncodeMessage(reply.value);
      }
    }

    /** `HttpHandler::Process` has parsed a request; its answer is a header and perhaps a mapped file. */
    method ProcessHttp(header: Bytes, mapped: Bytes)
      requires Valid()
      modifies this`iovCnt, this`headBase, this`headLen, this`file, this`fileOff, writeBuff, writeBuff.store
      ensures Valid() && (writeBuff.store == old(writeBuff.store) || fresh(writeBuff.store))
      ensures HttpValid() && iovCnt > 0
      ensures Segments() == old(writeBuff.Contents()) + header + mapped && FileSegment() == mapped
      ensures writeBuff.Contents() == old(writeBuff.Contents()) + header
    {
      writeBuff.Append(header);
      SetupIovForHttp(mapped);
    }

    /** One pass of the loop of `read`: the bytes delivered join the unread ones. */
    method ReadOnce(input: Delivery) returns (r: int)
      requires Valid()
      requires input.Delivered? ==> |input.bytes| <= readBuff.WritableBytes() + OVERFLOW_SIZE
      modifies readBuff, readBuff.store
      ensures Valid() && (readBuff.store == old(readBuff.store) || fresh(readBuff.store))
      ensures readBuff.Contents() == old(readBuff.Contents()) + if input.Delivered? then input.bytes else []
    {
      r := readBuff.ReadFd(input);
    }

    // ---------- whole runs ----------

    /** The connection is what the model of both directions says after the events `es` on the wire of `ps`. */
    ghost predicate Mirrors(answer: EndToEnd.Answer, ps: seq<Bytes>, es: seq<EndToEnd.Event>)
      reads this, sock, readBuff, readBuff.store, writeBuff, writeBuff.store
    {
      && Valid() && iovCnt == 0 && (determined ==> connType == PROTOBUF)
      && var c := EndToEnd.After(answer, Wire(ps), es);
        && Net() == c.out && readBuff.Contents() == c.reader.buffer && (!determined ==> c.reader.taken == [])
    }

    /** One pass of `read`: `n` bytes of the wire, unless fewer are left or `readv` has no room for all of them. */
    method ReadSome(n: nat, wire: Bytes, arrived: nat) returns (k: nat)
      requires Valid() && arrived <= |wire|
      modifies readBuff, readBuff.store
      ensures Valid() && (readBuff.store == old(readBuff.store) || fresh(readBuff.store))
      ensures ReadsEnough(n, |wire| - arrived, k)
      ensures readBuff.Contents() == old(readBuff.Contents()) + wire[arrived..arrived + k]
    {
      k := readBuff.WritableBytes() + OVERFLOW_SIZE;
      k := if n < k then n else k;
      k := if |wire| - arrived < k then |wire| - arrived else k;
      var r := ReadOnce(Delivered(wire[arrived..arrived + k]));
    }

    method ServeRead(n: nat, wire: Bytes, arrived: nat,
                     ghost answer: EndToEnd.Answer, ghost ps: seq<Bytes>, ghost es: seq<EndToEnd.Event>)
      returns (k: nat, ghost d: Done)
      requires wire == Wire(ps) && Mirrors(answer, ps, es) && arrived == EndToEnd.After(answer, wire, es).reader.arrived
      modifies readBuff, readBuff.store
      ensures Mirrors(answer, ps, es + d.log) && (readBuff.store == old(readBuff.store) || fresh(readBuff.store))
      ensures d == Done([EndToEnd.Arrive(k)], sock.kernel) && ReadsEnough(n, |wire| - arrived, k)
      ensures EndToEnd.After(answer, wire, es + d.log).reader.arrived == arrived + k
      ensures EndToEnd.After(answer, wire, es + d.log).reader.taken == EndToEnd.After(answer, wire, es).reader.taken
    {
      k := ReadSome(n, wire, arrived);
      d := Done([EndToEnd.Arrive(k)], sock.kernel);
      EndToEnd.AfterStep(answer, wire, es, EndToEnd.Arrive(k));
    }

    /** Protocol detection on a frame stream: protobuf, as soon as anything has arrived. */
    method DetectFrames(ghost ps: seq<Bytes>, ghost r: Reader) returns (known: bool)
      requires Valid() && AllWithin(ps, MAX_MESSAGE_SIZE) && InStep(ps, r) && readBuff.Contents() == r.buffer
      requires if determined then connType == PROTOBUF else r.taken == []
      modifies this`determined, this`connType
      ensures known == determined && (determined ==> connType == PROTOBUF)
      ensures !known ==> r.buffer == [] && r.taken == []
    {
      if !determined {
        assert [] + r.buffer == r.buffer;
        FramesAreNotHttp(ps, r.arrived);
      }
      known := DetermineProtocol();
    }

    /** `ProcessProtobuf` is one `Process` step of the model. */
    method TakeRequest(parses: Bytes -> bool, respond: (nat, Bytes) -> Option<Bytes>, taken: nat,
                       ghost wire: Bytes, ghost c: EndToEnd.Conn)
      returns (taken': nat)
      requires Valid() && Net() == c.out && readBuff.Contents() == c.reader.buffer
      requires c.reader.arrived <= |wire| && taken == |c.reader.taken|
      modifies readBuff`readPos, writeBuff, writeBuff.store
      ensures Valid() && (writeBuff.store == old(writeBuff.store) || fresh(writeBuff.store))
      ensures var c' := EndToEnd.Step(AnswerOf(parses, respond), wire, c, EndToEnd.Process);
              Net() == c'.out && readBuff.Contents() == c'.reader.buffer && taken' == |c'.reader.taken|
    {
      taken' := taken;
      if Decode(readBuff.Contents()).Payload? {
        taken' := taken + 1;
      }
      ProcessSends(parses, respond, c.reader);
      EndToEnd.StepIsExec(AnswerOf(parses, respond), wire, c, EndToEnd.Process);
      var ok;
      ghost var sends;
      ok, sends := ProcessProtobuf(parses, p => respond(taken, p));
    }

    method ServeProcess(parses: Bytes -> bool, respond: (nat, Bytes) -> Option<Bytes>, taken: nat,
                        ghost ps: seq<Bytes>, ghost es: seq<EndToEnd.Event>)
      returns (taken': nat, ghost d: Done)
      requires AllWithin(ps, MAX_MESSAGE_SIZE) && Mirrors(AnswerOf(parses, respond), ps, es)
      requires taken == |EndToEnd.After(AnswerOf(parses, respond), Wire(ps), es).reader.taken|
      modifies this`determined, this`connType, readBuff`readPos, writeBuff, writeBuff.store
      ensures Mirrors(AnswerOf(parses, respond), ps, es + d.log) && d == Done([EndToEnd.Process], sock.kernel)
      ensures writeBuff.store == old(writeBuff.store) || fresh(writeBuff.store)
      ensures var c, c' := EndToEnd.After(AnswerOf(parses, respond), Wire(ps), es),
                           EndToEnd.After(AnswerOf(parses, respond), Wire(ps), es + d.log);
              c'.reader.arrived == c.reader.arrived && taken' == |c'.reader.taken|
    {
      ghost var answer, c := AnswerOf(parses, respond), EndToEnd.After(AnswerOf(parses, respond), Wire(ps), es);
      EndToEnd.ReaderInStep(answer, ps, es);
      EndToEnd.AfterStep(answer, Wire(ps), es, EndToEnd.Process);
      d := Done([EndToEnd.Process], sock.kernel);
      taken' := taken;
      var known := DetectFrames(ps, c.reader);
      if known {
        taken' := TakeRequest(parses, respond, taken, Wire(ps), c);
      }
    }

    method ServeWrite(arrivals: seq<seq<Bytes>>,
                      ghost answer: EndToEnd.Answer, ghost ps: seq<Bytes>, ghost es: seq<EndToEnd.Event>)
      returns (ghost d: Done)
      requires Mirrors(answer, ps, es)
      modifies this`outgoing, this`headBase, this`headLen, this`fileOff, writeBuff, writeBuff.store, sock
      ensures Mirrors(answer, ps, es + d.log) && (writeBuff.store == old(writeBuff.store) || fresh(writeBuff.store))
      ensures d.kernel == sock.kernel
      ensures var c, c' := EndToEnd.After(answer, Wire(ps), es), EndToEnd.After(answer, Wire(ps), es + d.log);
              c'.reader == c.reader && CallOk(isEt, Wire(ps), c, c', old(sock.kernel), Call.Write(arrivals), d)
    {
      ghost var c, queued := EndToEnd.After(answer, Wire(ps), es), InTime(|outgoing|, arrivals);
      ghost var kernel := sock.kernel;
      ghost var r := WriteResult(isEt, false, |c.out.buffered| + Flushed(c.out.queue, arrivals), sock.kernel);
      assert Pending(arrivals) == |c.out.buffered| + Flushed(c.out.queue, arrivals);
      var len, again, stale;
      ghost var sends;
      len, again, stale, sends := Write(arrivals);
      assert Drained(len, again, |Net().buffered|, sock.kernel) == r;
      EndToEnd.LiftedLeads(answer, Wire(ps), es, sends, Net(), queued);
      d := Done(EndToEnd.LiftAll(sends), sock.kernel);
      WriteIsOk(isEt, Wire(ps), c, c.(out := Net()), kernel, arrivals, d, r);
    }

    method ServePush(payload: Bytes, ghost answer: EndToEnd.Answer, ghost ps: seq<Bytes>, ghost es: seq<EndToEnd.Event>)
      returns (ghost d: Done)
      requires Mirrors(answer, ps, es)
      modifies this`outgoing
      ensures Mirrors(answer, ps, es + d.log) && d == Done([EndToEnd.Enqueue(payload)], sock.kernel)
      ensures EndToEnd.After(answer, Wire(ps), es + d.log).reader == EndToEnd.After(answer, Wire(ps), es).reader
    {
      ghost var sends := EnqueueMessage(payload);
      d := Done([EndToEnd.Enqueue(payload)], sock.kernel);
      EndToEnd.AfterStep(answer, Wire(ps), es, EndToEnd.Enqueue(payload));
      assert Net() == Outgoing.Step(old(Net()), Outgoing.Enqueue(payload));
    }

    /** One call of the script; `arrived` and `taken` count bytes read and payloads taken so far. */
    method ServeCall(parses: Bytes -> bool, respond: (nat, Bytes) -> Option<Bytes>, call: Call, wire: Bytes,
                     arrived: nat, taken: nat, ghost ps: seq<Bytes>, ghost es: seq<EndToEnd.Event>)
      returns (arrived': nat, taken': nat, ghost d: Done)
      requires wire == Wire(ps) && AllWithin(ps, MAX_MESSAGE_SIZE) && Mirrors(AnswerOf(parses, respond), ps, es)
      requires var r := EndToEnd.After(AnswerOf(parses, respond), wire, es).reader;
               arrived == r.arrived && taken == |r.taken|
      modifies this, sock, readBuff, readBuff.store, writeBuff, writeBuff.store
      ensures Mirrors(AnswerOf(parses, respond), ps, es + d.log) && d.kernel == sock.kernel
      ensures var r := EndToEnd.After(AnswerOf(parses, respond), wire, es + d.log).reader;
              arrived' == r.arrived && taken' == |r.taken|
      ensures readBuff.store == old(readBuff.store) || fresh(readBuff.store)
      ensures writeBuff.store == old(writeBuff.store) || fresh(writeBuff.store)
      ensures CallOk(isEt, wire, EndToEnd.After(AnswerOf(parses, respond), wire, es),
                     EndToEnd.After(AnswerOf(parses, respond), wire, es + d.log), old(sock.kernel), call, d)
    {
      ghost var answer := AnswerOf(parses, respond);
      arrived', taken' := arrived, taken;
      match call
      case Read(n) =>
        var k;
        k, d := ServeRead(n, wire, arrived, answer, ps, es);
        arrived' := arrived + k;
      case Process => taken', d := ServeProcess(parses, respond, taken, ps, es);
      case Push(payload) => d := ServePush(payload, answer, ps, es);
      case Write(arrivals) => d := ServeWrite(arrivals, answer, ps, es);
    }

    /**
     Any script of calls on a new connection whose client sends the frames of `ps` is a run of `EndToEnd` in which every
     call does its work, so what is proved there about every run holds of the bytes this class has sent.
     */
    method Serve(parses: Bytes -> bool, respond: (nat, Bytes) -> Option<Bytes>, ps: seq<Bytes>, script: seq<Call>)
      returns (ghost dones: seq<Done>)
      requires Valid() && Net() == Outgoing.EMPTY && readBuff.Contents() == [] && !determined && iovCnt == 0
      requires AllWithin(ps, MAX_MESSAGE_SIZE)
      modifies this, sock, readBuff, readBuff.store, writeBuff, writeBuff.store
      ensures Valid() && |dones| == |script|
      ensures AllOk(isEt, AnswerOf(parses, respond), Wire(ps), old(sock.kernel), script, dones)
      ensures var c := EndToEnd.After(AnswerOf(parses, respond), Wire(ps), LogOf(dones));
              Net() == c.out && readBuff.Contents() == c.reader.buffer
    {
      ghost var answer, kernel := AnswerOf(parses, respond), sock.kernel;
      var wire, arrived, taken := Wire(ps), 0, 0;
      dones := [];
      for i := 0 to |script|
        invariant Mirrors(answer, ps, LogOf(dones)) && |dones| == i && sock.kernel == KernelAfter(kernel, dones)
        invariant AllOk(isEt, answer, wire, kernel, script, dones)
        invariant var r := EndToEnd.After(answer, wire, LogOf(dones)).reader; arrived == r.arrived && taken == |r.taken|
        invariant readBuff.store == old(readBuff.store) || fresh(readBuff.store)
        invariant writeBuff.store == old(writeBuff.store) || fresh(writeBuff.store)
      {
        ghost var d;
        arrived, taken, d := ServeCall(parses, respond, script[i], wire, arrived, taken, ps, LogOf(dones));
        OneMoreDone(isEt, answer, wire, kernel, script, dones, d);
        dones := dones + [d];
      }
    }
  }
}

/**
 The outgoing half of a protobuf connection as a transition system: producers enqueue framed pushes,
 request handling appends framed responses, a flush moves queued pushes to the write buffer, and the
 kernel takes any prefix of the buffer (server/src/core/tcp_connection.cpp).
 */
module Outgoing {
  import opened Wrappers
  import opened Framing

  datatype Event =
    | Enqueue(payload: Bytes)
    | Respond(payload: Bytes)
    | Flush
    | Taken(n: nat)

  /** The bytes already sent, the readable bytes of `write_buff_`, and the framed queue. */
  datatype Out = Out(sent: Bytes, buffered: Bytes, queue: seq<Bytes>)

  const EMPTY := Out([], [], [])

  function Step(o: Out, e: Event): Out {
    match e
    case Enqueue(p) => o.(queue := o.queue + [Frame(p)])
    case Respond(p) => o.(buffered := o.buffered + Frame(p))
    case Flush => if |o.queue| == 0 then o else o.(buffered := o.buffered + o.queue[0], queue := o.queue[1..])
    case Taken(n) =>
      if n <= |o.buffered| then o.(sent := o.sent + o.buffered[..n], buffered := o.buffered[n..]) else o
  }

  function Exec(o: Out, es: seq<Event>): Out {
    if |es| == 0 then o else Step(Exec(o, es[..|es| - 1]), es[|es| - 1])
  }

  lemma {:induction false} ExecConcat(o: Out, a: seq<Event>, b: seq<Event>)
    ensures Exec(o, a + b) == Exec(Exec(o, a), b)
  {
    if |b| == 0 {
      assert a + b == a;
    } else {
      ExecConcat(o, a, b[..|b| - 1]);
      assert (a + b)[..|a + b| - 1] == a + b[..|b| - 1];
    }
  }

  /** No event of the run is a response. */
  predicate Unprompted(es: seq<Event>) {
    forall i :: 0 <= i < |es| ==> !es[i].Respond?
  }

  // ---------- what a run was asked to deliver, read off its events alone ----------

  datatype Item = Response(payload: Bytes) | Push(payload: Bytes)

  function EnqueuedBy(e: Event): seq<Bytes> {
    match e case Enqueue(p) => [p] case _ => []
  }

  /** Every payload given to `enqueue_message`, in queue order. */
  function Enqueued(es: seq<Event>): seq<Bytes> {
    if |es| == 0 then [] else Enqueued(es[..|es| - 1]) + EnqueuedBy(es[|es| - 1])
  }

  lemma {:induction false} EnqueuedConcat(a: seq<Event>, b: seq<Event>)
    ensures Enqueued(a + b) == Enqueued(a) + Enqueued(b)
  {
    if |b| == 0 {
      assert a + b == a;
    } else {
      EnqueuedConcat(a, b[..|b| - 1]);
      assert (a + b)[..|a + b| - 1] == a + b[..|b| - 1];
    }
  }

  /** A run without responses that leads from `o` to `o'` and enqueues exactly these payloads, in order. */
  ghost predicate Leads(o: Out, es: seq<Event>, o': Out, payloads: seq<Bytes>) {
    Unprompted(es) && o' == Exec(o, es) && Enqueued(es) == payloads
  }

  lemma {:induction false} LeadsOn(o: Out, es: seq<Event>, o1: Out, ps: seq<Bytes>,
                                   more: seq<Event>, o2: Out, qs: seq<Bytes>)
    requires Leads(o, es, o1, ps) && Leads(o1, more, o2, qs)
    ensures Leads(o, es + more, o2, ps + qs)
  {
    ExecConcat(o, es, more);
    EnqueuedConcat(es, more);
  }

  lemma {:induction false} LeadsNowhere(o: Out)
    ensures Leads(o, [], o, [])
  {
  }

  lemma {:induction false} LeadsByOne(o: Out, e: Event)
    requires !e.Respond?
    ensures Leads(o, [e], Step(o, e), EnqueuedBy(e))
  {
    assert [e][..0] == [];
  }

  /** The bytes in a queue of frames, and those of payloads once framed. */
  function Size(queue: seq<Bytes>): nat {
    if |queue| == 0 then 0 else |queue[0]| + Size(queue[1..])
  }

  function FramedSize(ps: seq<Bytes>): nat {
    if |ps| == 0 then 0 else FramedSize(ps[..|ps| - 1]) + HEADER_SIZE + |ps[|ps| - 1]|
  }

  lemma {:induction false} SizeAppend(queue: seq<Bytes>, f: Bytes)
    ensures Size(queue + [f]) == Size(queue) + |f|
  {
    if |queue| > 0 {
      SizeAppend(queue[1..], f);
      assert (queue + [f])[1..] == queue[1..] + [f];
    } else {
      assert queue + [f] == [f] && [f][1..] == [];
    }
  }

  function InFlight(o: Out): nat {
    |o.sent| + |o.buffered| + Size(o.queue)
  }

  lemma {:induction false} StepConserves(o: Out, e: Event)
    requires !e.Respond?
    ensures InFlight(Step(o, e)) == InFlight(o) + FramedSize(EnqueuedBy(e))
  {
    match e
    case Enqueue(p) =>
      SizeAppend(o.queue, Frame(p));
      assert [p][..0] == [];
    case Flush =>
    case Taken(_) =>
  }

  lemma {:induction false} FramedSizeAppend(ps: seq<Bytes>, e: Event)
    ensures FramedSize(ps + EnqueuedBy(e)) == FramedSize(ps) + FramedSize(EnqueuedBy(e))
  {
    match e
    case Enqueue(p) =>
      assert (ps + [p])[..|ps|] == ps;
      assert [p][..0] == [];
    case _ => assert ps + [] == ps;
  }

  /** No byte is lost or made up on the way from the queue over the buffer to the kernel. */
  lemma {:induction false} BytesConserved(o: Out, es: seq<Event>)
    requires Unprompted(es)
    ensures InFlight(Exec(o, es)) == InFlight(o) + FramedSize(Enqueued(es))
  {
    if |es| > 0 {
      var before, e := es[..|es| - 1], es[|es| - 1];
      BytesConserved(o, before);
      StepConserves(Exec(o, before), e);
      FramedSizeAppend(Enqueued(before), e);
    }
  }

  lemma {:induction false} LeadsConserves(o: Out, es: seq<Event>, o': Out, payloads: seq<Bytes>)
    requires Leads(o, es, o', payloads)
    ensures InFlight(o') == InFlight(o) + FramedSize(payloads)
  {
    BytesConserved(o, es);
  }

  function RespondedBy(e: Event): seq<Bytes> {
    match e case Respond(p) => [p] case _ => []
  }

  /** Every response encoded, in order. */
  function Responded(es: seq<Event>): seq<Bytes> {
    if |es| == 0 then [] else Responded(es[..|es| - 1]) + RespondedBy(es[|es| - 1])
  }

  function WaitingAfter(w: seq<Bytes>, e: Event): seq<Bytes> {
    match e
    case Enqueue(p) => w + [p]
    case Flush => if |w| == 0 then w else w[1..]
    case _ => w
  }

  /** The payloads still in the queue. */
  function Waiting(es: seq<Event>): seq<Bytes> {
    if |es| == 0 then [] else WaitingAfter(Waiting(es[..|es| - 1]), es[|es| - 1])
  }

  function LoggedBy(w: seq<Bytes>, e: Event): seq<Item> {
    match e
    case Respond(p) => [Response(p)]
    case Flush => if |w| == 0 then [] else [Push(w[0])]
    case _ => []
  }

  /** The items in the order in which they entered the write buffer. */
  function Log(es: seq<Event>): seq<Item> {
    if |es| == 0 then []
    else Log(es[..|es| - 1]) + LoggedBy(Waiting(es[..|es| - 1]), es[|es| - 1])
  }

  function Payloads(items: seq<Item>): (ps: seq<Bytes>)
    ensures |ps| == |items|
    ensures forall i :: 0 <= i < |items| ==> ps[i] == items[i].payload
  {
    seq(|items|, i requires 0 <= i < |items| => items[i].payload)
  }

  function Pushes(items: seq<Item>): seq<Bytes> {
    if |items| == 0 then []
    else Pushes(items[..|items| - 1]) + if items[|items| - 1].Push? then [items[|items| - 1].payload] else []
  }

  function Responses(items: seq<Item>): seq<Bytes> {
    if |items| == 0 then []
    else Responses(items[..|items| - 1]) + if items[|items| - 1].Response? then [items[|items| - 1].payload] else []
  }

  ghost predicate Framed(queue: seq<Bytes>, ps: seq<Bytes>) {
    |queue| == |ps| && forall i :: 0 <= i < |ps| ==> queue[i] == Frame(ps[i])
  }

  // ---------- whole runs ----------

  lemma {:induction false} PayloadsGrow(items: seq<Item>, i: Item)
    ensures Wire(Payloads(items + [i])) == Wire(Payloads(items)) + Frame(i.payload)
  {
    assert Payloads(items + [i]) == Payloads(items) + [i.payload];
    WireConcat(Payloads(items), [i.payload]);
    WireOne(i.payload);
  }

  lemma Regroup(a: Bytes, b: Bytes, c: Bytes)
    ensures a + (b + c) == (a + b) + c
  {
  }

  lemma {:induction false} StepKeepsFrames(o: Out, items: seq<Item>, w: seq<Bytes>, e: Event)
    requires o.sent + o.buffered == Wire(Payloads(items)) && Framed(o.queue, w)
    ensures var o' := Step(o, e);
            && o'.sent + o'.buffered == Wire(Payloads(items + LoggedBy(w, e)))
            && Framed(o'.queue, WaitingAfter(w, e))
  {
    assert items + [] == items;
    match e
    case Enqueue(p) =>
    case Respond(p) =>
      PayloadsGrow(items, Response(p));
      Regroup(o.sent, o.buffered, Frame(p));
    case Flush =>
      if |w| > 0 {
        PayloadsGrow(items, Push(w[0]));
        Regroup(o.sent, o.buffered, o.queue[0]);
      }
    case Taken(n) =>
      if n <= |o.buffered| {
        Regroup(o.sent, o.buffered[..n], o.buffered[n..]);
        assert o.buffered[..n] + o.buffered[n..] == o.buffered;
      }
  }

  /** Sent bytes followed by the buffer are always a concatenation of whole frames, never torn or lost. */
  lemma {:induction false} StreamIsWholeFrames(es: seq<Event>)
    ensures var o := Exec(EMPTY, es);
            o.sent + o.buffered == Wire(Payloads(Log(es))) && Framed(o.queue, Waiting(es))
  {
    if |es| > 0 {
      var before := es[..|es| - 1];
      StreamIsWholeFrames(before);
      StepKeepsFrames(Exec(EMPTY, before), Log(before), Waiting(before), es[|es| - 1]);
    }
  }

  lemma {:induction false} ItemsGrow(items: seq<Item>, i: Item)
    ensures Pushes(items + [i]) == Pushes(items) + if i.Push? then [i.payload] else []
    ensures Responses(items + [i]) == Responses(items) + if i.Response? then [i.payload] else []
  {
  }

  lemma {:induction false} StepKeepsOrders(items: seq<Item>, w: seq<Bytes>, e: Event)
    ensures Pushes(items + LoggedBy(w, e)) + WaitingAfter(w, e) == (Pushes(items) + w) + EnqueuedBy(e)
    ensures Responses(items + LoggedBy(w, e)) == Responses(items) + RespondedBy(e)
  {
    assert items + [] == items;
    match e
    case Enqueue(_) =>
    case Respond(p) => ItemsGrow(items, Response(p));
    case Flush =>
      if |w| > 0 {
        ItemsGrow(items, Push(w[0]));
        assert w == [w[0]] + w[1..];
      }
    case Taken(_) =>
  }

  /** Pushes leave in queue order, responses in the order of their requests; nothing is dropped or doubled. */
  lemma {:induction false} LogKeepsBothOrders(es: seq<Event>)
    ensures Pushes(Log(es)) + Waiting(es) == Enqueued(es)
    ensures Responses(Log(es)) == Responded(es)
  {
    if |es| > 0 {
      var before := es[..|es| - 1];
      LogKeepsBothOrders(before);
      StepKeepsOrders(Log(before), Waiting(before), es[|es| - 1]);
    }
  }

  lemma {:induction false} PushesPrefix(items: seq<Item>, k: nat)
    requires k <= |items|
    ensures Pushes(items[..k]) <= Pushes(items)
    ensures Responses(items[..k]) <= Responses(items)
    decreases |items|
  {
    if k == |items| {
      assert items[..k] == items;
    } else {
      PushesPrefix(items[..|items| - 1], k);
      assert items[..|items| - 1][..k] == items[..k];
    }
  }

  /**
   Main theorem: cut the bytes sent so far anywhere, and the client's reader finds exactly the items of the
   log whose frames end before the cut (up to the first above the client's limit): whole responses in order,
   and whole pushes that are a prefix of the queue order.
   */
  lemma {:induction false} ClientReadsPrefixOfLog(es: seq<Event>, n: nat)
    requires n <= |Exec(EMPTY, es).sent|
    requires AllWithin(Payloads(Log(es)), TWO_32 - 1)
    ensures var got := WholeFrames(Exec(EMPTY, es).sent[..n], CLIENT_LIMIT);
            && EndWithin(Payloads(Log(es)), n, CLIENT_LIMIT, got)
            && |got| <= |Log(es)| && got == Payloads(Log(es)[..|got|])
            && Pushes(Log(es)[..|got|]) <= Enqueued(es)
            && Responses(Log(es)[..|got|]) <= Responded(es)
  {
    StreamIsWholeFrames(es);
    LogKeepsBothOrders(es);
    var o, ps := Exec(EMPTY, es), Payloads(Log(es));
    assert o.sent[..n] == Wire(ps)[..n];
    PrefixGivesPrefix(ps, n, CLIENT_LIMIT);
    var got := WholeFrames(o.sent[..n], CLIENT_LIMIT);
    assert got == Payloads(Log(es)[..|got|]);
    PushesPrefix(Log(es), |got|);
  }

  /**
   With nothing left in the buffer or the queue, the client gets every response and every push exactly
   when none is above the client's limit.
   */
  lemma {:induction false} ClientReadsEverything(es: seq<Event>)
    requires Exec(EMPTY, es).buffered == [] && Exec(EMPTY, es).queue == []
    requires AllWithin(Payloads(Log(es)), TWO_32 - 1)
    ensures WholeFrames(Exec(EMPTY, es).sent, CLIENT_LIMIT) == Payloads(Log(es)) <==>
              AllWithin(Payloads(Log(es)), CLIENT_LIMIT)
    ensures Pushes(Log(es)) == Enqueued(es) && Responses(Log(es)) == Responded(es)
  {
    StreamIsWholeFrames(es);
    LogKeepsBothOrders(es);
    WholeWireGivesAll(Payloads(Log(es)), CLIENT_LIMIT);
    assert Exec(EMPTY, es).sent + [] == Exec(EMPTY, es).sent;
  }
}

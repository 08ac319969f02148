/**
 Both directions of one protobuf connection together: request frames arrive in arbitrary chunks, each decoded
 request may be answered, pushes are enqueued by other threads at any time, and the kernel takes the
 outgoing bytes piece by piece.
 */
module EndToEnd {
  import opened Wrappers
  import opened Framing
  import Outgoing

  datatype Event =
    | Arrive(n: nat)
    | Process
    | Enqueue(payload: Bytes)
    | Flush
    | Taken(n: nat)

  datatype Conn = Conn(reader: Reader, out: Outgoing.Out)

  /** The serialised answer to the k-th payload; none when it does not parse or the answer does not serialise. */
  type Answer = (nat, Bytes) -> Option<Bytes>

  function Sends(answer: Answer, r: Reader, e: Event): seq<Outgoing.Event> {
    match e
    case Arrive(_) => []
    case Process =>
      (match Decode(r.buffer)
       case Payload(p) => if answer(|r.taken|, p).Some? then [Outgoing.Respond(answer(|r.taken|, p).value)] else []
       case _ => [])
    case Enqueue(p) => [Outgoing.Enqueue(p)]
    case Flush => [Outgoing.Flush]
    case Taken(n) => [Outgoing.Taken(n)]
  }

  function Receives(e: Event): seq<Input> {
    match e case Arrive(n) => [Input.Arrive(n)] case Process => [Input.Process] case _ => []
  }

  function AllReceives(es: seq<Event>): seq<Input> {
    if |es| == 0 then [] else AllReceives(es[..|es| - 1]) + Receives(es[|es| - 1])
  }

  /** The reader after a run on the client's wire. */
  function ReaderAfter(wire: Bytes, es: seq<Event>): (r: Reader)
    ensures r.arrived <= |wire|
  {
    ReadAll(wire, AllReceives(es))
  }

  /** The sender's events of a run. */
  function AllSends(answer: Answer, wire: Bytes, es: seq<Event>): seq<Outgoing.Event> {
    if |es| == 0 then []
    else
      AllSends(answer, wire, es[..|es| - 1]) + Sends(answer, ReaderAfter(wire, es[..|es| - 1]), es[|es| - 1])
  }

  /** The answers to a list of requests, in order. */
  function Answers(answer: Answer, ps: seq<Bytes>): seq<Bytes> {
    if |ps| == 0 then []
    else
      var last := answer(|ps| - 1, ps[|ps| - 1]);
      Answers(answer, ps[..|ps| - 1]) + if last.Some? then [last.value] else []
  }

  /** `process` and `write` step by step on both halves. */
  function Step(answer: Answer, wire: Bytes, c: Conn, e: Event): Conn
    requires c.reader.arrived <= |wire|
  {
    match e
    case Arrive(n) => c.(reader := Read(wire, c.reader, Input.Arrive(n)))
    case Process =>
      var reader := Read(wire, c.reader, Input.Process);
      (match Decode(c.reader.buffer)
       case Payload(p) =>
         if answer(|c.reader.taken|, p).Some?
         then Conn(reader, Outgoing.Step(c.out, Outgoing.Respond(answer(|c.reader.taken|, p).value)))
         else c.(reader := reader)
       case _ => c.(reader := reader))
    case Enqueue(p) => c.(out := Outgoing.Step(c.out, Outgoing.Enqueue(p)))
    case Flush => c.(out := Outgoing.Step(c.out, Outgoing.Flush))
    case Taken(n) => c.(out := Outgoing.Step(c.out, Outgoing.Taken(n)))
  }

  function After(answer: Answer, wire: Bytes, es: seq<Event>): (c: Conn)
    ensures c.reader.arrived <= |wire|
  {
    if |es| == 0 then Conn(Reader([], 0, []), Outgoing.EMPTY)
    else Step(answer, wire, After(answer, wire, es[..|es| - 1]), es[|es| - 1])
  }

  lemma {:induction false} AfterStep(answer: Answer, wire: Bytes, es: seq<Event>, e: Event)
    ensures After(answer, wire, es + [e]) == Step(answer, wire, After(answer, wire, es), e)
  {
    assert (es + [e])[..|es|] == es;
  }

  /** A sender's event that is not a response, as an event of the connection. */
  function Lift(e: Outgoing.Event): Event
    requires !e.Respond?
  {
    match e case Enqueue(p) => Enqueue(p) case Flush => Flush case Taken(n) => Taken(n)
  }

  function LiftAll(es: seq<Outgoing.Event>): seq<Event>
    requires Outgoing.Unprompted(es)
  {
    if |es| == 0 then [] else LiftAll(es[..|es| - 1]) + [Lift(es[|es| - 1])]
  }

  lemma LiftedStep(answer: Answer, wire: Bytes, c: Conn, e: Outgoing.Event)
    requires c.reader.arrived <= |wire| && !e.Respond?
    ensures Step(answer, wire, c, Lift(e)) == c.(out := Outgoing.Step(c.out, e))
  {
  }

  /** Pushes, flushes and sent bytes act on the sender alone. */
  lemma {:induction false} LiftedRun(answer: Answer, wire: Bytes, es: seq<Event>, more: seq<Outgoing.Event>)
    requires Outgoing.Unprompted(more)
    ensures var c := After(answer, wire, es);
            After(answer, wire, es + LiftAll(more)) == c.(out := Outgoing.Exec(c.out, more))
  {
    if |more| == 0 {
      assert es + LiftAll(more) == es;
    } else {
      var before, e := more[..|more| - 1], more[|more| - 1];
      LiftedRun(answer, wire, es, before);
      assert es + LiftAll(more) == (es + LiftAll(before)) + [Lift(e)];
      AfterStep(answer, wire, es + LiftAll(before), Lift(e));
      LiftedStep(answer, wire, After(answer, wire, es + LiftAll(before)), e);
    }
  }

  /** The payloads enqueued in a run, in order. */
  function EnqueuedIn(es: seq<Event>): seq<Bytes> {
    if |es| == 0 then []
    else EnqueuedIn(es[..|es| - 1]) + match es[|es| - 1] case Enqueue(p) => [p] case _ => []
  }

  /** The run is one of the sender alone. */
  predicate SenderOnly(es: seq<Event>) {
    forall i :: 0 <= i < |es| ==> es[i].Enqueue? || es[i].Flush? || es[i].Taken?
  }

  lemma {:induction false} LiftedEvents(es: seq<Outgoing.Event>)
    requires Outgoing.Unprompted(es)
    ensures SenderOnly(LiftAll(es)) && EnqueuedIn(LiftAll(es)) == Outgoing.Enqueued(es)
  {
    if |es| > 0 {
      var before, e := es[..|es| - 1], es[|es| - 1];
      LiftedEvents(before);
      var lifted := LiftAll(es);
      assert lifted[..|lifted| - 1] == LiftAll(before) && lifted[|lifted| - 1] == Lift(e);
    }
  }

  lemma {:induction false} LiftedLeads(answer: Answer, wire: Bytes, es: seq<Event>, more: seq<Outgoing.Event>,
                                       out: Outgoing.Out, payloads: seq<Bytes>)
    requires Outgoing.Leads(After(answer, wire, es).out, more, out, payloads)
    ensures After(answer, wire, es + LiftAll(more)) == After(answer, wire, es).(out := out)
    ensures SenderOnly(LiftAll(more)) && EnqueuedIn(LiftAll(more)) == payloads
  {
    LiftedRun(answer, wire, es, more);
    LiftedEvents(more);
  }

  /** What an event does to the reader alone. */
  function ReaderStep(wire: Bytes, r: Reader, e: Event): Reader
    requires r.arrived <= |wire|
  {
    match e
    case Arrive(n) => Read(wire, r, Input.Arrive(n))
    case Process => Read(wire, r, Input.Process)
    case _ => r
  }

  lemma {:induction false} ReaderGrows(wire: Bytes, es: seq<Event>)
    requires |es| > 0
    ensures ReaderAfter(wire, es) == ReaderStep(wire, ReaderAfter(wire, es[..|es| - 1]), es[|es| - 1])
  {
    var inputs, more := AllReceives(es[..|es| - 1]), Receives(es[|es| - 1]);
    if |more| == 1 {
      assert (inputs + more)[..|inputs|] == inputs;
    } else {
      assert inputs + more == inputs;
    }
  }

  lemma {:induction false} StepIsExec(answer: Answer, wire: Bytes, c: Conn, e: Event)
    requires c.reader.arrived <= |wire|
    ensures Step(answer, wire, c, e)
            == Conn(ReaderStep(wire, c.reader, e), Outgoing.Exec(c.out, Sends(answer, c.reader, e)))
  {
    var sends := Sends(answer, c.reader, e);
    if |sends| == 1 {
      assert sends[..0] == [];
      assert Outgoing.Exec(c.out, sends) == Outgoing.Step(Outgoing.Exec(c.out, sends[..0]), sends[0]);
    }
  }

  /** The two halves of a run are a run of the reader and a run of the sender. */
  lemma {:induction false} HalvesAreRuns(answer: Answer, wire: Bytes, es: seq<Event>)
    ensures After(answer, wire, es)
            == Conn(ReaderAfter(wire, es), Outgoing.Exec(Outgoing.EMPTY, AllSends(answer, wire, es)))
  {
    if |es| > 0 {
      var before, e := es[..|es| - 1], es[|es| - 1];
      HalvesAreRuns(answer, wire, before);
      ReaderGrows(wire, es);
      StepIsExec(answer, wire, After(answer, wire, before), e);
      Outgoing.ExecConcat(Outgoing.EMPTY, AllSends(answer, wire, before),
                          Sends(answer, ReaderAfter(wire, before), e));
    }
  }

  lemma {:induction false} ReaderInStep(answer: Answer, ps: seq<Bytes>, es: seq<Event>)
    requires AllWithin(ps, MAX_MESSAGE_SIZE)
    ensures InStep(ps, After(answer, Wire(ps), es).reader)
  {
    HalvesAreRuns(answer, Wire(ps), es);
    ServerReadsInStep(ps, AllReceives(es));
  }

  lemma {:induction false} RespondedConcat(a: seq<Outgoing.Event>, b: seq<Outgoing.Event>)
    requires |b| <= 1
    ensures Outgoing.Responded(a + b)
            == Outgoing.Responded(a) + if |b| == 1 then Outgoing.RespondedBy(b[0]) else []
  {
    if |b| == 1 {
      assert (a + b)[..|a|] == a;
    } else {
      assert a + b == a;
    }
  }

  /** One event answers the request it takes, if it takes one. */
  lemma {:induction false} AnswersGrow(answer: Answer, wire: Bytes, r: Reader, e: Event)
    requires r.arrived <= |wire|
    ensures var sends := Sends(answer, r, e);
            Answers(answer, ReaderStep(wire, r, e).taken)
            == Answers(answer, r.taken) + if |sends| == 1 then Outgoing.RespondedBy(sends[0]) else []
  {
    if e.Process? && Decode(r.buffer).Payload? {
      var p := Decode(r.buffer).payload;
      assert (r.taken + [p])[..|r.taken|] == r.taken;
    }
  }

  lemma {:induction false} RespondsToStep(answer: Answer, wire: Bytes, sent: seq<Outgoing.Event>, r: Reader, e: Event)
    requires r.arrived <= |wire| && Outgoing.Responded(sent) == Answers(answer, r.taken)
    ensures Outgoing.Responded(sent + Sends(answer, r, e)) == Answers(answer, ReaderStep(wire, r, e).taken)
  {
    RespondedConcat(sent, Sends(answer, r, e));
    AnswersGrow(answer, wire, r, e);
  }

  /** The responses encoded are the answers to the requests taken off the wire, in the same order. */
  lemma {:induction false} RespondsToTaken(answer: Answer, wire: Bytes, es: seq<Event>)
    ensures Outgoing.Responded(AllSends(answer, wire, es)) == Answers(answer, ReaderAfter(wire, es).taken)
  {
    if |es| > 0 {
      var before, e := es[..|es| - 1], es[|es| - 1];
      RespondsToTaken(answer, wire, before);
      ReaderGrows(wire, es);
      RespondsToStep(answer, wire, AllSends(answer, wire, before), ReaderAfter(wire, before), e);
    }
  }

  lemma {:induction false} AnswersPrefix(answer: Answer, ps: seq<Bytes>, k: nat)
    requires k <= |ps|
    ensures Answers(answer, ps[..k]) <= Answers(answer, ps)
  {
    if k == |ps| {
      assert ps[..k] == ps;
    } else {
      AnswersPrefix(answer, ps[..|ps| - 1], k);
      assert ps[..|ps| - 1][..k] == ps[..k];
    }
  }

  /**
   Main theorem for a connection: whatever the chunks in, the pieces out, the schedule of requests, pushes and
   flushes, and wherever the client stops reading, what the client has read are exactly the items of the log
   that end before that point; the responses among them answer the client's requests in order, and the
   pushes among them are a prefix of the queue.
   */
  lemma {:induction false} ClientGetsItsAnswersInOrder(answer: Answer, ps: seq<Bytes>, es: seq<Event>, n: nat)
    requires AllWithin(ps, MAX_MESSAGE_SIZE)
    requires n <= |After(answer, Wire(ps), es).out.sent|
    requires AllWithin(Outgoing.Payloads(Outgoing.Log(AllSends(answer, Wire(ps), es))), TWO_32 - 1)
    ensures var sends := AllSends(answer, Wire(ps), es);
            var got := WholeFrames(After(answer, Wire(ps), es).out.sent[..n], CLIENT_LIMIT);
            && EndWithin(Outgoing.Payloads(Outgoing.Log(sends)), n, CLIENT_LIMIT, got)
            && |got| <= |Outgoing.Log(sends)| && got == Outgoing.Payloads(Outgoing.Log(sends)[..|got|])
            && Outgoing.Responses(Outgoing.Log(sends)[..|got|]) <= Answers(answer, ps)
            && Outgoing.Pushes(Outgoing.Log(sends)[..|got|]) <= Outgoing.Enqueued(sends)
  {
    HalvesAreRuns(answer, Wire(ps), es);
    RespondsToTaken(answer, Wire(ps), es);
    Outgoing.ClientReadsPrefixOfLog(AllSends(answer, Wire(ps), es), n);
    TakenAnswersPrefix(answer, ps, es);
  }

  lemma {:induction false} TakenAnswersPrefix(answer: Answer, ps: seq<Bytes>, es: seq<Event>)
    requires AllWithin(ps, MAX_MESSAGE_SIZE)
    ensures Answers(answer, ReaderAfter(Wire(ps), es).taken) <= Answers(answer, ps)
  {
    ServerReadsInStep(ps, AllReceives(es));
    var taken := ReaderAfter(Wire(ps), es).taken;
    assert taken == ps[..|taken|];
    AnswersPrefix(answer, ps, |taken|);
  }

  /**
   The complete case: once all requests have arrived and been processed and everything buffered or queued
   has been sent, the log holds exactly the answers to all requests and all pushes, each in order; the client
   has read all of it exactly when nothing in it is above the client's limit.
   */
  lemma {:induction false} ClientGetsAllAnswers(answer: Answer, ps: seq<Bytes>, es: seq<Event>)
    requires AllWithin(ps, MAX_MESSAGE_SIZE)
    requires var c := After(answer, Wire(ps), es);
             && c.reader.arrived == |Wire(ps)| && c.reader.buffer == []
             && c.out.buffered == [] && c.out.queue == []
    requires AllWithin(Outgoing.Payloads(Outgoing.Log(AllSends(answer, Wire(ps), es))), TWO_32 - 1)
    ensures var sends := AllSends(answer, Wire(ps), es);
            var log := Outgoing.Log(sends);
            && Outgoing.Responses(log) == Answers(answer, ps) && Outgoing.Pushes(log) == Outgoing.Enqueued(sends)
            && (WholeFrames(After(answer, Wire(ps), es).out.sent, CLIENT_LIMIT) == Outgoing.Payloads(log) <==>
                AllWithin(Outgoing.Payloads(log), CLIENT_LIMIT))
  {
    HalvesAreRuns(answer, Wire(ps), es);
    RespondsToTaken(answer, Wire(ps), es);
    Outgoing.ClientReadsEverything(AllSends(answer, Wire(ps), es));
    ServerReadsInStep(ps, AllReceives(es));
    AllTaken(ps, ReaderAfter(Wire(ps), es));
  }

  /** A reader in step with an empty buffer at the end of the wire has taken every payload. */
  lemma {:induction false} AllTaken(ps: seq<Bytes>, r: Reader)
    requires InStep(ps, r) && r.arrived == |Wire(ps)| && r.buffer == []
    ensures r.taken == ps
  {
    BufferIsRest(ps, r);
    assert |ps[|r.taken|..]| == 0;
  }
}

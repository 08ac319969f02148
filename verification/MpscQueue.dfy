/**
 The lock-free queue of server/src/core/mpsc_queue.h as a transition system with one action per
 atomic access. Any number of producers interleave with one consumer. Node identities are never
 reused: a deleted node stays in `mem`, and `freed` records the deletion.
 */
module MpscQueue {
  import opened Wrappers

  type NodeId = nat
  type Thread = nat

  datatype Cell<T> = Cell(data: Option<T>, next: Option<NodeId>)

  /** Where a producer stands inside `enqueue`; every value but `Idle` names the atomic access it does next. */
  datatype Producer<T> =
    | Idle
    | LoadTail(val: T, node: NodeId)
    | LoadNext(val: T, node: NodeId, oldTail: NodeId)
    | Recheck(val: T, node: NodeId, oldTail: NodeId, next: Option<NodeId>)
    | Link(val: T, node: NodeId, oldTail: NodeId)
    | SwingOwn(val: T, node: NodeId, oldTail: NodeId)
    | SwingOther(val: T, node: NodeId, oldTail: NodeId, succ: NodeId)

  /** Where the consumer stands inside `dequeue` or `empty`. */
  datatype Consumer<T> =
    | Ready
    | Peeking(head: NodeId)
    | GotHead(head: NodeId)
    | GotNext(head: NodeId, succ: NodeId)
    | GotData(head: NodeId, succ: NodeId, value: Option<T>)
    | MovedHead(head: NodeId)

  datatype State<T> = State(
    mem: map<NodeId, Cell<T>>,
    freed: set<NodeId>,
    head: NodeId,
    tail: NodeId,
    producers: map<Thread, Producer<T>>,
    consumer: Consumer<T>)

  datatype Action<T> =
    | Alloc(t: Thread, node: NodeId, val: T)  // line 22
    | ReadTail(t: Thread)                     // line 24
    | ReadNext(t: Thread)                     // line 25
    | CheckTail(t: Thread)                    // line 26
    | CasNext(t: Thread, spurious: bool)      // line 28, a weak compare-exchange
    | CasTailOwn(t: Thread)                   // line 30
    | CasTailHelp(t: Thread)                  // line 35
    | ReadHead                                // line 42
    | ReadHeadNext                            // lines 43-47
    | TakeData                                // line 49
    | StoreHead                               // line 50
    | DeleteHead                              // line 51
    | PeekHead                                // line 68
    | PeekNext                                // lines 69-70

  /** What a caller can observe of one action; everything else is silent. */
  datatype Event<T> =
    | Silent
    | Enqueued(t: Thread, val: T)
    | Dequeued(val: T)
    | FoundEmpty
    | FoundNonEmpty

  function Init<T>(): State<T> {
    State(map[0 := Cell(None, None)], {}, 0, 0, map[], Ready)
  }

  function Pc<T>(s: State<T>, t: Thread): Producer<T> {
    if t in s.producers then s.producers[t] else Idle
  }

  function NextOf<T>(s: State<T>, n: NodeId): Option<NodeId> {
    if n in s.mem then s.mem[n].next else None
  }

  function DataOf<T>(s: State<T>, n: NodeId): Option<T> {
    if n in s.mem then s.mem[n].data else None
  }

  function SetPc<T>(s: State<T>, t: Thread, p: Producer<T>): State<T> {
    s.(producers := s.producers[t := p])
  }

  /** Program order only: the guard of an action never looks at another thread. */
  predicate Enabled<T>(s: State<T>, a: Action<T>) {
    match a
    case Alloc(t, node, _) => Pc(s, t).Idle? && node !in s.mem
    case ReadTail(t) => Pc(s, t).LoadTail?
    case ReadNext(t) => Pc(s, t).LoadNext?
    case CheckTail(t) => Pc(s, t).Recheck?
    case CasNext(t, _) => Pc(s, t).Link?
    case CasTailOwn(t) => Pc(s, t).SwingOwn?
    case CasTailHelp(t) => Pc(s, t).SwingOther?
    case ReadHead => s.consumer.Ready?
    case ReadHeadNext => s.consumer.GotHead?
    case TakeData => s.consumer.GotNext?
    case StoreHead => s.consumer.GotData?
    case DeleteHead => s.consumer.MovedHead?
    case PeekHead => s.consumer.Ready?
    case PeekNext => s.consumer.Peeking?
  }

  /** The compare-exchange of line 28 succeeds. */
  predicate Links<T>(s: State<T>, a: Action<T>)
    requires Enabled(s, a)
  {
    a.CasNext? && !a.spurious && Pc(s, a.t).oldTail in s.mem && NextOf(s, Pc(s, a.t).oldTail).None?
  }

  function Step<T>(s: State<T>, a: Action<T>): State<T>
    requires Enabled(s, a)
  {
    match a
    case Alloc(t, node, val) =>
      SetPc(s.(mem := s.mem[node := Cell(Some(val), None)]), t, LoadTail(val, node))
    case ReadTail(t) =>
      var p := Pc(s, t);
      SetPc(s, t, LoadNext(p.val, p.node, s.tail))
    case ReadNext(t) =>
      var p := Pc(s, t);
      SetPc(s, t, Recheck(p.val, p.node, p.oldTail, NextOf(s, p.oldTail)))
    case CheckTail(t) =>
      var p := Pc(s, t);
      if p.oldTail != s.tail then SetPc(s, t, LoadTail(p.val, p.node))
      else if p.next.None? then SetPc(s, t, Link(p.val, p.node, p.oldTail))
      else SetPc(s, t, SwingOther(p.val, p.node, p.oldTail, p.next.value))
    case CasNext(t, _) =>
      var p := Pc(s, t);
      if Links(s, a) then
        SetPc(s.(mem := s.mem[p.oldTail := s.mem[p.oldTail].(next := Some(p.node))]),
              t, SwingOwn(p.val, p.node, p.oldTail))
      else SetPc(s, t, LoadTail(p.val, p.node))
    case CasTailOwn(t) =>
      var p := Pc(s, t);
      SetPc(s.(tail := if s.tail == p.oldTail then p.node else s.tail), t, Idle)
    case CasTailHelp(t) =>
      var p := Pc(s, t);
      SetPc(s.(tail := if s.tail == p.oldTail then p.succ else s.tail), t, LoadTail(p.val, p.node))
    case ReadHead => s.(consumer := GotHead(s.head))
    case ReadHeadNext =>
      var n := NextOf(s, s.consumer.head);
      s.(consumer := if n.None? then Ready else GotNext(s.consumer.head, n.value))
    case TakeData =>
      var n := s.consumer.succ;
      s.(mem := if n in s.mem then s.mem[n := s.mem[n].(data := None)] else s.mem,
         consumer := GotData(s.consumer.head, n, DataOf(s, n)))
    case StoreHead => s.(head := s.consumer.succ, consumer := MovedHead(s.consumer.head))
    case DeleteHead => s.(freed := s.freed + {s.consumer.head}, consumer := Ready)
    case PeekHead => s.(consumer := Peeking(s.head))
    case PeekNext => s.(consumer := Ready)
  }

  function EventOf<T>(s: State<T>, a: Action<T>): Event<T>
    requires Enabled(s, a)
  {
    match a
    case CasNext(t, _) =>
      if Links(s, a) && DataOf(s, Pc(s, t).node).Some?
      then Enqueued(t, DataOf(s, Pc(s, t).node).value) else Silent
    case ReadHeadNext => if NextOf(s, s.consumer.head).None? then FoundEmpty else Silent
    case PeekNext => if NextOf(s, s.consumer.head).None? then FoundEmpty else FoundNonEmpty
    case StoreHead => if s.consumer.value.Some? then Dequeued(s.consumer.value.value) else Silent
    case _ => Silent
  }

  // ---------- runs ----------

  /**
   The state after a schedule of actions. Every interleaving is a schedule; an action whose guard
   does not hold when its turn comes is skipped, so no schedule is excluded.
   */
  function After<T>(acts: seq<Action<T>>): State<T> {
    if |acts| == 0 then Init()
    else
      var s := After(acts[..|acts| - 1]);
      if Enabled(s, acts[|acts| - 1]) then Step(s, acts[|acts| - 1]) else s
  }

  function LastEvent<T>(acts: seq<Action<T>>): Event<T>
    requires |acts| > 0
  {
    var s := After(acts[..|acts| - 1]);
    if Enabled(s, acts[|acts| - 1]) then EventOf(s, acts[|acts| - 1]) else Silent
  }

  function Trace<T>(acts: seq<Action<T>>): (es: seq<Event<T>>)
    ensures |es| == |acts|
  {
    if |acts| == 0 then [] else Trace(acts[..|acts| - 1]) + [LastEvent(acts)]
  }

  // ---------- the sequential queue the code is meant to be ----------

  function Fifo<T(==)>(q: seq<T>, e: Event<T>): Option<seq<T>> {
    match e
    case Silent => Some(q)
    case Enqueued(_, v) => Some(q + [v])
    case Dequeued(v) => if q != [] && q[0] == v then Some(q[1..]) else None
    case FoundEmpty => if q == [] then Some(q) else None
    case FoundNonEmpty => if q != [] then Some(q) else None
  }

  /** Replays a trace on the sequential queue; `None` when the queue could not have answered so. */
  function Replay<T(==)>(es: seq<Event<T>>): Option<seq<T>> {
    if es == [] then Some([])
    else
      var q := Replay(es[..|es| - 1]);
      if q.None? then None else Fifo(q.value, es[|es| - 1])
  }

  // ---------- history of a run ----------

  /** Every node ever linked, in link order, and the positions of `head_` and `tail_` in it. */
  datatype History = History(chain: seq<NodeId>, h: nat, t: nat)

  function Observe<T>(g: History, s: State<T>, a: Action<T>): History
    requires Enabled(s, a)
  {
    match a
    case CasNext(t, _) => if Links(s, a) then g.(chain := g.chain + [Pc(s, t).node]) else g
    case CasTailOwn(t) => if s.tail == Pc(s, t).oldTail then g.(t := g.t + 1) else g
    case CasTailHelp(t) => if s.tail == Pc(s, t).oldTail then g.(t := g.t + 1) else g
    case StoreHead => g.(h := g.h + 1)
    case _ => g
  }

  function HistoryOf<T>(acts: seq<Action<T>>): History {
    if |acts| == 0 then History([0], 0, 0)
    else
      var s := After(acts[..|acts| - 1]);
      var g := HistoryOf(acts[..|acts| - 1]);
      if Enabled(s, acts[|acts| - 1]) then Observe(g, s, acts[|acts| - 1]) else g
  }

  // ---------- invariant ----------

  ghost predicate Distinct(chain: seq<NodeId>) {
    forall i, j :: 0 <= i < j < |chain| ==> chain[i] != chain[j]
  }

  ghost predicate Linked<T>(s: State<T>, chain: seq<NodeId>)
    requires 0 < |chain|
  {
    && (forall i :: 0 <= i < |chain| ==> chain[i] in s.mem)
    && (forall i :: 0 <= i < |chain| - 1 ==> s.mem[chain[i]].next == Some(chain[i + 1]))
    && s.mem[chain[|chain| - 1]].next == None
  }

  /** `x` was the tail at some time, so it lies at or before the tail. */
  ghost predicate WasTail(x: NodeId, g: History) {
    exists p :: 0 <= p <= g.t < |g.chain| && g.chain[p] == x
  }

  ghost predicate Follows(x: NodeId, y: NodeId, g: History) {
    exists p :: 0 <= p <= g.t && p + 1 < |g.chain| && g.chain[p] == x && g.chain[p + 1] == y
  }

  predicate Owns<T>(p: Producer<T>) {
    !p.Idle? && !p.SwingOwn?
  }

  ghost predicate ProducerOk<T>(s: State<T>, g: History, p: Producer<T>) {
    && (Owns(p) ==> p.node in s.mem && s.mem[p.node] == Cell(Some(p.val), None) && p.node !in g.chain)
    && (p.LoadNext? || p.Link? ==> WasTail(p.oldTail, g))
    && (p.Recheck? ==> WasTail(p.oldTail, g) && (p.next.Some? ==> Follows(p.oldTail, p.next.value, g)))
    && (p.SwingOwn? ==> Follows(p.oldTail, p.node, g))
    && (p.SwingOther? ==> Follows(p.oldTail, p.succ, g))
  }

  ghost predicate ProducersOk<T>(s: State<T>, g: History) {
    && (forall t :: t in s.producers ==> ProducerOk(s, g, s.producers[t]))
    && (forall t, u :: t in s.producers && u in s.producers && t != u
          && Owns(s.producers[t]) && Owns(s.producers[u])
          ==> s.producers[t].node != s.producers[u].node)
  }

  ghost predicate ConsumerOk<T>(s: State<T>, g: History)
    requires g.h < |g.chain|
  {
    match s.consumer
    case Ready => true
    case Peeking(hd) => hd == s.head
    case GotHead(hd) => hd == s.head
    case GotNext(hd, n) => hd == s.head && g.h + 1 < |g.chain| && n == g.chain[g.h + 1]
    case GotData(hd, n, v) =>
      hd == s.head && g.h + 1 < |g.chain| && n == g.chain[g.h + 1] && v.Some?
    case MovedHead(hd) => g.h >= 1 && hd == g.chain[g.h - 1]
  }

  /** The value at a linked node: still in the node, or just moved out by the consumer. */
  function ValueAt<T>(s: State<T>, n: NodeId): Option<T> {
    if s.consumer.GotData? && s.consumer.succ == n then s.consumer.value else DataOf(s, n)
  }

  /** How many nodes the consumer has deleted: all it has moved past, but for one delete still due. */
  function DeletedCount<T>(s: State<T>, g: History): int {
    if s.consumer.MovedHead? then g.h - 1 else g.h
  }

  /** The deleted nodes are exactly the oldest `DeletedCount` links. */
  ghost predicate FreedOk<T>(s: State<T>, g: History)
    requires 0 <= DeletedCount(s, g) <= |g.chain|
  {
    s.freed == set n | n in g.chain[..DeletedCount(s, g)]
  }

  ghost predicate Inv<T>(s: State<T>, g: History) {
    && 0 < |g.chain| && Distinct(g.chain) && Linked(s, g.chain)
    && g.h < |g.chain| && s.head == g.chain[g.h]
    && g.t < |g.chain| <= g.t + 2 && s.tail == g.chain[g.t]
    && (forall i :: g.h < i < |g.chain| ==> ValueAt(s, g.chain[i]).Some?)
    && ConsumerOk(s, g)
    && ProducersOk(s, g)
    && FreedOk(s, g)
  }

  /** The abstract queue: the values linked after the head. */
  ghost function Contents<T>(s: State<T>, g: History): (q: seq<T>)
    requires Inv(s, g)
    ensures |q| == |g.chain| - g.h - 1
    ensures forall i :: 0 <= i < |q| ==> Some(q[i]) == ValueAt(s, g.chain[g.h + 1 + i])
  {
    seq(|g.chain| - g.h - 1, i requires 0 <= i < |g.chain| - g.h - 1 => ValueAt(s, g.chain[g.h + 1 + i]).value)
  }
}

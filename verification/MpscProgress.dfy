/** How far the queue's pointers can drift apart, what each producer gets, and lock-freedom. */
module MpscProgress {
  import opened Wrappers
  import opened MpscQueue
  import opened MpscRefinement

  // ---------- pointer positions ----------

  function CountEnqueued<T>(es: seq<Event<T>>): nat {
    if |es| == 0 then 0 else CountEnqueued(es[..|es| - 1]) + if es[|es| - 1].Enqueued? then 1 else 0
  }

  function CountDequeued<T>(es: seq<Event<T>>): nat {
    if |es| == 0 then 0 else CountDequeued(es[..|es| - 1]) + if es[|es| - 1].Dequeued? then 1 else 0
  }

  /** A link action is always observed as an `Enqueued` event carrying the caller's own value. */
  lemma LinkEvent<T>(s: State<T>, g: History, a: Action<T>)
    requires Inv(s, g) && Enabled(s, a)
    ensures Links(s, a) <==> EventOf(s, a).Enqueued?
    ensures Links(s, a) ==> EventOf(s, a) == Enqueued(a.t, Pc(s, a.t).val)
    ensures a.StoreHead? <==> EventOf(s, a).Dequeued?
  {
  }

  /** The positions kept in the history count what callers saw. */
  lemma {:induction false} PositionsCountEvents<T(!new)>(acts: seq<Action<T>>)
    ensures |HistoryOf(acts).chain| == 1 + CountEnqueued(Trace(acts))
    ensures HistoryOf(acts).h == CountDequeued(Trace(acts))
  {
    if |acts| > 0 {
      var before := acts[..|acts| - 1];
      PositionsCountEvents(before);
      assert Trace(acts)[..|acts| - 1] == Trace(before);
      RefinesFifo(before);
      if Enabled(After(before), acts[|acts| - 1]) {
        LinkEvent(After(before), HistoryOf(before), acts[|acts| - 1]);
      }
    }
  }

  /**
   In every reachable state `tail_` is the last node or the one before it, and `head_` passes it by
   at most one. A deleted node is still named by `tail_` exactly when the head has passed it and the
   delete has been carried out.
   */
  lemma TailLagsByOne<T(!new)>(acts: seq<Action<T>>)
    ensures var s, g := After(acts), HistoryOf(acts);
            && g.t < |g.chain| <= g.t + 2 && s.tail == g.chain[g.t]
            && g.h < |g.chain| && s.head == g.chain[g.h] && g.h <= g.t + 1
            && (s.tail in s.freed <==> g.h == g.t + 1 && !s.consumer.MovedHead?)
            && (s.head !in s.freed)
  {
    RefinesFifo(acts);
    var s, g := After(acts), HistoryOf(acts);
    var k := DeletedCount(s, g);
    if g.t < k {
      assert g.chain[..k][g.t] == s.tail;
    }
  }

  /**
   What a producer dereferences: always an allocated node at or before the tail, deleted exactly when the
   consumer has deleted that far.
   */
  lemma OldTailIsALink<T(!new)>(acts: seq<Action<T>>, t: Thread)
    requires Pc(After(acts), t).LoadNext? || Pc(After(acts), t).Link?
    ensures var s, g, x := After(acts), HistoryOf(acts), Pc(After(acts), t).oldTail;
            && x in s.mem
            && exists i :: 0 <= i <= g.t < |g.chain| && g.chain[i] == x && (x in s.freed <==> i < DeletedCount(s, g))
  {
    RefinesFifo(acts);
    var s, g := After(acts), HistoryOf(acts);
    var x := Pc(s, t).oldTail;
    assert ProducerOk(s, g, Pc(s, t));
    var i :| 0 <= i <= g.t < |g.chain| && g.chain[i] == x;
    if i < DeletedCount(s, g) {
      assert g.chain[..DeletedCount(s, g)][i] == x;
    }
  }

  lemma ObserveAdvances<T>(g: History, s: State<T>, a: Action<T>)
    requires Enabled(s, a)
    ensures var g' := Observe(g, s, a); g.chain <= g'.chain && g.h <= g'.h && g.t <= g'.t
  {
  }

  /** Links are only ever appended, and neither pointer moves backwards. */
  lemma {:induction false} PointersOnlyAdvance<T>(acts: seq<Action<T>>, more: seq<Action<T>>)
    ensures var g, g' := HistoryOf(acts), HistoryOf(acts + more);
            g.chain <= g'.chain && g.h <= g'.h && g.t <= g'.t
  {
    if |more| == 0 {
      assert acts + more == acts;
    } else {
      var rest, a := more[..|more| - 1], more[|more| - 1];
      PointersOnlyAdvance(acts, rest);
      assert (acts + more)[..|acts + more| - 1] == acts + rest;
      if Enabled(After(acts + rest), a) {
        ObserveAdvances(HistoryOf(acts + rest), After(acts + rest), a);
      }
    }
  }

  ghost predicate Reachable<T(!new)>(s: State<T>, g: History) {
    exists acts :: After(acts) == s && HistoryOf(acts) == g
  }

  lemma StepReachable<T(!new)>(s: State<T>, g: History, a: Action<T>)
    requires Reachable(s, g) && Enabled(s, a)
    ensures Reachable(Step(s, a), Observe(g, s, a))
  {
    var acts :| After(acts) == s && HistoryOf(acts) == g;
    assert (acts + [a])[..|acts|] == acts;
    assert After(acts + [a]) == Step(s, a);
  }

  /** A producer can link its node and be preempted before it swings the tail. */
  lemma LinkedNotSwung<T(!new)>(v: T) returns (s: State<T>, g: History)
    ensures Reachable(s, g) && g.h == g.t && s.consumer.Ready? && NextOf(s, s.head).Some?
    ensures s.head == s.tail && s.mem.Keys == {0, 1} && Pc(s, 1).Idle?
  {
    s, g := Init<T>(), History([0], 0, 0);
    assert After<T>([]) == s && HistoryOf<T>([]) == g;
    StepReachable(s, g, Alloc(0, 1, v));
    s := Step(s, Alloc(0, 1, v));
    StepReachable(s, g, ReadTail(0));
    s := Step(s, ReadTail(0));
    StepReachable(s, g, ReadNext(0));
    s := Step(s, ReadNext(0));
    StepReachable(s, g, CheckTail(0));
    s := Step(s, CheckTail(0));
    assert Pc(s, 0) == Link(v, 1, 0);
    StepReachable(s, g, CasNext(0, false));
    s, g := Step(s, CasNext(0, false)), Observe(g, s, CasNext(0, false));
  }

  lemma ConsumerTakes<T(!new)>(s: State<T>, g: History) returns (s': State<T>, g': History)
    requires Reachable(s, g) && s.consumer.Ready? && NextOf(s, s.head).Some?
    ensures Reachable(s', g') && g' == g.(h := g.h + 1)
    ensures s' == s.(mem := s'.mem, head := s'.head, consumer := MovedHead(s.head)) && s'.mem.Keys == s.mem.Keys
  {
    StepReachable(s, g, ReadHead);
    var s1 := Step(s, ReadHead);
    StepReachable(s1, g, ReadHeadNext);
    var s2 := Step(s1, ReadHeadNext);
    StepReachable(s2, g, TakeData);
    var s3 := Step(s2, TakeData);
    StepReachable(s3, g, StoreHead);
    s', g' := Step(s3, StoreHead), Observe(g, s3, StoreHead);
  }

  /** The bound on the head is attained: the consumer overtakes a producer that has not swung the tail. */
  lemma HeadCanPassTail<T(!new)>(v: T)
    ensures exists s: State<T>, g :: Reachable(s, g) && g.h == g.t + 1
  {
    var s, g := LinkedNotSwung(v);
    var s', g' := ConsumerTakes(s, g);
  }

  /** The consumer deletes the node it has left, and a second producer starts a call and reads the tail. */
  lemma DeleteThenRead<T(!new)>(s: State<T>, g: History, v: T) returns (s': State<T>)
    requires Reachable(s, g) && s.consumer == MovedHead(s.tail) && Pc(s, 1).Idle? && 2 !in s.mem
    ensures Reachable(s', g) && Pc(s', 1) == LoadNext(v, 2, s.tail) && s.tail in s'.freed
  {
    StepReachable(s, g, DeleteHead);
    var s1 := Step(s, DeleteHead);
    StepReachable(s1, g, Alloc(1, 2, v));
    var s2 := Step(s1, Alloc(1, 2, v));
    StepReachable(s2, g, ReadTail(1));
    s' := Step(s2, ReadTail(1));
  }

  /** So a producer can be about to read the link of a deleted node (line 25 after line 51). */
  lemma DeletedTailCanBeRead<T(!new)>(v: T)
    ensures exists s: State<T>, g, t :: Reachable(s, g) && Pc(s, t).LoadNext? && Pc(s, t).oldTail in s.freed
  {
    var s, g := LinkedNotSwung(v);
    var s', g' := ConsumerTakes(s, g);
    var s'' := DeleteThenRead(s', g', v);
  }

  // ---------- what each producer gets ----------

  /** The values thread `t` has called `enqueue` with, in order. */
  function Calls<T>(acts: seq<Action<T>>, t: Thread): seq<T> {
    if |acts| == 0 then []
    else
      var a := acts[|acts| - 1];
      Calls(acts[..|acts| - 1], t) +
      if a.Alloc? && a.t == t && Enabled(After(acts[..|acts| - 1]), a) then [a.val] else []
  }

  function EnqueuedBy<T>(es: seq<Event<T>>, t: Thread): seq<T> {
    if |es| == 0 then []
    else
      var e := es[|es| - 1];
      EnqueuedBy(es[..|es| - 1], t) + if e.Enqueued? && e.t == t then [e.val] else []
  }

  /** The value of a call that has not taken effect yet. */
  function Waiting<T>(p: Producer<T>): seq<T> {
    if Owns(p) then [p.val] else []
  }

  predicate ByProducer<T>(a: Action<T>, t: Thread) {
    match a
    case Alloc(u, _, _) => u == t
    case ReadTail(u) => u == t
    case ReadNext(u) => u == t
    case CheckTail(u) => u == t
    case CasNext(u, _) => u == t
    case CasTailOwn(u) => u == t
    case CasTailHelp(u) => u == t
    case _ => false
  }

  /** An action of another thread leaves a producer's call alone. */
  lemma OtherCallStep<T>(s: State<T>, g: History, a: Action<T>, t: Thread)
    requires Inv(s, g) && Enabled(s, a) && !ByProducer(a, t)
    ensures Pc(Step(s, a), t) == Pc(s, t) && !(a.Alloc? && a.t == t)
    ensures EventOf(s, a).Enqueued? ==> EventOf(s, a).t != t
  {
    LinkEvent(s, g, a);
  }

  /** An action of the producer itself: a call starts, takes effect, or goes on waiting. */
  lemma OwnCallStep<T>(s: State<T>, g: History, a: Action<T>, t: Thread)
    requires Inv(s, g) && Enabled(s, a) && ByProducer(a, t)
    ensures a.Alloc? ==> Waiting(Pc(s, t)) == [] && Waiting(Pc(Step(s, a), t)) == [a.val] && !EventOf(s, a).Enqueued?
    ensures Links(s, a) ==> EventOf(s, a).Enqueued? && EventOf(s, a).t == t
                            && Waiting(Pc(s, t)) == [EventOf(s, a).val] && Waiting(Pc(Step(s, a), t)) == []
    ensures !a.Alloc? && !Links(s, a) ==>
              !EventOf(s, a).Enqueued? && Waiting(Pc(Step(s, a), t)) == Waiting(Pc(s, t))
  {
    LinkEvent(s, g, a);
  }

  lemma CallStep<T>(s: State<T>, g: History, a: Action<T>, t: Thread)
    requires Inv(s, g) && Enabled(s, a)
    ensures var called := if a.Alloc? && a.t == t then [a.val] else [];
            var e := EventOf(s, a);
            var done := if e.Enqueued? && e.t == t then [e.val] else [];
            Waiting(Pc(s, t)) + called == done + Waiting(Pc(Step(s, a), t))
  {
    if ByProducer(a, t) {
      OwnCallStep(s, g, a, t);
    } else {
      OtherCallStep(s, g, a, t);
    }
  }

  lemma Regroup<T>(done: seq<T>, waiting: seq<T>, called: seq<T>, now: seq<T>, waiting': seq<T>)
    requires waiting + called == now + waiting'
    ensures (done + waiting) + called == (done + now) + waiting'
  {
    assert (done + waiting) + called == done + (waiting + called);
  }

  lemma TraceGrows<T>(acts: seq<Action<T>>, t: Thread)
    requires |acts| > 0
    ensures var e := LastEvent(acts);
            EnqueuedBy(Trace(acts), t)
            == EnqueuedBy(Trace(acts[..|acts| - 1]), t) + if e.Enqueued? && e.t == t then [e.val] else []
  {
  }

  /** Each call takes effect exactly once, with its own value, in the caller's program order. */
  lemma {:induction false} CallsTakeEffectOnceInOrder<T(!new)>(acts: seq<Action<T>>, t: Thread)
    ensures Calls(acts, t) == EnqueuedBy(Trace(acts), t) + Waiting(Pc(After(acts), t))
  {
    if |acts| > 0 {
      var before, a := acts[..|acts| - 1], acts[|acts| - 1];
      CallsTakeEffectOnceInOrder(before, t);
      TraceGrows(acts, t);
      var s, e := After(before), LastEvent(acts);
      if Enabled(s, a) {
        RefinesFifo(before);
        CallStep(s, HistoryOf(before), a, t);
        Regroup(EnqueuedBy(Trace(before), t), Waiting(Pc(s, t)), if a.Alloc? && a.t == t then [a.val] else [],
                if e.Enqueued? && e.t == t then [e.val] else [], Waiting(Pc(After(acts), t)));
      }
    }
  }

  // ---------- lock-freedom ----------

  /** The action ends an attempt of `t` without linking its node, and not by a spurious failure. */
  predicate Fails<T>(s: State<T>, a: Action<T>, t: Thread) {
    && Enabled(s, a)
    && ((a.CheckTail? && a.t == t && Pc(s, t).oldTail != s.tail)
        || (a.CasNext? && a.t == t && !a.spurious && !Links(s, a))
        || (a.CasTailHelp? && a.t == t))
  }

  function Failures<T>(acts: seq<Action<T>>, t: Thread): nat {
    if |acts| == 0 then 0
    else
      Failures(acts[..|acts| - 1], t) + if Fails(After(acts[..|acts| - 1]), acts[|acts| - 1], t) then 1 else 0
  }

  /**
   Every failure so far is paid for by growth of list length plus tail position. Inside an attempt the
   account is kept at the position of the tail that the attempt has read.
   */
  ghost predicate Paid<T>(g: History, p: Producer<T>, f: nat) {
    if p.Idle? || p.LoadTail? || p.SwingOwn? then 1 + f <= |g.chain| + g.t
    else if p.Link? || (p.Recheck? && p.next.None?) then
      exists i :: 0 <= i <= g.t && i < |g.chain| && g.chain[i] == p.oldTail && f <= 2 * i
    else
      exists i :: 0 <= i <= g.t && i < |g.chain| && g.chain[i] == p.oldTail && 1 + f <= |g.chain| + i
  }

  lemma KeepPaid<T>(g: History, g': History, p: Producer<T>, f: nat)
    requires g.chain <= g'.chain && g.t <= g'.t
    requires Paid(g, p, f)
    ensures Paid(g', p, f)
  {
  }

  lemma AllocKeepsPaid<T>(s: State<T>, g: History, a: Action<T>, t: Thread, f: nat)
    requires Enabled(s, a) && Paid(g, Pc(s, t), f) && a.Alloc? && a.t == t
    ensures Paid(Observe(g, s, a), Pc(Step(s, a), t), f) && !Fails(s, a, t)
  {
    assert Pc(Step(s, a), t) == LoadTail(a.val, a.node);
  }

  lemma ReadTailKeepsPaid<T>(s: State<T>, g: History, a: Action<T>, t: Thread, f: nat)
    requires Inv(s, g) && Enabled(s, a) && Paid(g, Pc(s, t), f) && a.ReadTail? && a.t == t
    ensures Paid(Observe(g, s, a), Pc(Step(s, a), t), f) && !Fails(s, a, t)
  {
    assert g.chain[g.t] == s.tail;
  }

  lemma ReadNextKeepsPaid<T>(s: State<T>, g: History, a: Action<T>, t: Thread, f: nat)
    requires Inv(s, g) && Enabled(s, a) && Paid(g, Pc(s, t), f) && a.ReadNext? && a.t == t
    ensures Paid(Observe(g, s, a), Pc(Step(s, a), t), f) && !Fails(s, a, t)
  {
    var p := Pc(s, t);
    var i :| 0 <= i <= g.t && i < |g.chain| && g.chain[i] == p.oldTail && 1 + f <= |g.chain| + i;
    if NextOf(s, p.oldTail).None? {
      NullNextIsLast(s, g, p.oldTail);
    }
  }

  lemma CheckTailKeepsPaid<T>(s: State<T>, g: History, a: Action<T>, t: Thread, f: nat)
    requires Inv(s, g) && Enabled(s, a) && Paid(g, Pc(s, t), f) && a.CheckTail? && a.t == t
    ensures Paid(Observe(g, s, a), Pc(Step(s, a), t), f + if Fails(s, a, t) then 1 else 0)
  {
    var p := Pc(s, t);
    if p.next.None? {
      var i :| 0 <= i <= g.t && i < |g.chain| && g.chain[i] == p.oldTail && f <= 2 * i;
    } else {
      var i :| 0 <= i <= g.t && i < |g.chain| && g.chain[i] == p.oldTail && 1 + f <= |g.chain| + i;
    }
  }

  lemma CasKeepsPaid<T>(s: State<T>, g: History, a: Action<T>, t: Thread, f: nat)
    requires Inv(s, g) && Enabled(s, a) && Paid(g, Pc(s, t), f)
    requires a.CasNext? || a.CasTailOwn? || a.CasTailHelp?
    requires a.t == t
    ensures Paid(Observe(g, s, a), Pc(Step(s, a), t), f + if Fails(s, a, t) then 1 else 0)
  {
    var p := Pc(s, t);
    assert ProducerOk(s, g, p);
    if a.CasNext? {
      var i :| 0 <= i <= g.t && i < |g.chain| && g.chain[i] == p.oldTail && f <= 2 * i;
      if !Links(s, a) && !a.spurious {
        assert i != |g.chain| - 1;
      }
    } else if a.CasTailHelp? {
      var i :| 0 <= i <= g.t && i < |g.chain| && g.chain[i] == p.oldTail && 1 + f <= |g.chain| + i;
      if s.tail != p.oldTail {
        assert i < g.t;
      }
    }
  }

  lemma OtherStepKeepsPaid<T>(s: State<T>, g: History, a: Action<T>, t: Thread, f: nat)
    requires Enabled(s, a) && !ByProducer(a, t) && Paid(g, Pc(s, t), f)
    ensures Paid(Observe(g, s, a), Pc(Step(s, a), t), f) && !Fails(s, a, t)
  {
    assert Pc(Step(s, a), t) == Pc(s, t);
    KeepPaid(g, Observe(g, s, a), Pc(s, t), f);
  }

  lemma StepKeepsPaid<T>(s: State<T>, g: History, a: Action<T>, t: Thread, f: nat)
    requires Inv(s, g) && Enabled(s, a) && Paid(g, Pc(s, t), f)
    ensures Paid(Observe(g, s, a), Pc(Step(s, a), t), f + if Fails(s, a, t) then 1 else 0)
  {
    if !ByProducer(a, t) {
      OtherStepKeepsPaid(s, g, a, t, f);
    } else {
      match a
      case Alloc(_, _, _) => AllocKeepsPaid(s, g, a, t, f);
      case ReadTail(_) => ReadTailKeepsPaid(s, g, a, t, f);
      case ReadNext(_) => ReadNextKeepsPaid(s, g, a, t, f);
      case CheckTail(_) => CheckTailKeepsPaid(s, g, a, t, f);
      case _ => CasKeepsPaid(s, g, a, t, f);
    }
  }

  /** List length plus tail position: what every failure must have made grow. */
  function Growth(g: History): nat {
    |g.chain| + g.t
  }

  lemma {:induction false} PaidNext<T(!new)>(acts: seq<Action<T>>, t: Thread, f: nat)
    requires |acts| > 0 && Paid(HistoryOf(acts[..|acts| - 1]), Pc(After(acts[..|acts| - 1]), t), f)
    ensures Paid(HistoryOf(acts), Pc(After(acts), t), f + Failures(acts, t) - Failures(acts[..|acts| - 1], t))
  {
    var before, a := acts[..|acts| - 1], acts[|acts| - 1];
    if Enabled(After(before), a) {
      RefinesFifo(before);
      StepKeepsPaid(After(before), HistoryOf(before), a, t, f);
    }
  }

  lemma {:induction false} PaidAlong<T(!new)>(acts: seq<Action<T>>, more: seq<Action<T>>, t: Thread, f: nat)
    requires Paid(HistoryOf(acts), Pc(After(acts), t), f)
    ensures Failures(acts, t) <= Failures(acts + more, t)
    ensures Paid(HistoryOf(acts + more), Pc(After(acts + more), t), f + Failures(acts + more, t) - Failures(acts, t))
  {
    if |more| == 0 {
      assert acts + more == acts;
    } else {
      var rest := more[..|more| - 1];
      PaidAlong(acts, rest, t, f);
      assert (acts + more)[..|acts + more| - 1] == acts + rest;
      PaidNext(acts + more, t, f + Failures(acts + rest, t) - Failures(acts, t));
    }
  }

  lemma PaidIsWithinGrowth<T>(g: History, p: Producer<T>, f: nat)
    requires Paid(g, p, f)
    ensures 1 + f <= Growth(g)
  {
  }

  /**
   From the moment a producer reads the tail, every attempt it then fails, however threads are scheduled,
   is matched by growth of the list or progress of the tail since that moment.
   */
  lemma FailuresMeanProgress<T(!new)>(acts: seq<Action<T>>, t: Thread, more: seq<Action<T>>)
    requires Enabled(After(acts), ReadTail(t))
    ensures var read := acts + [ReadTail(t)];
            Growth(HistoryOf(read + more)) >= Growth(HistoryOf(read)) + Failures(read + more, t) - Failures(read, t)
  {
    var read := acts + [ReadTail(t)];
    assert read[..|acts|] == acts;
    RefinesFifo(acts);
    var g := HistoryOf(read);
    assert g.chain[g.t] == Pc(After(read), t).oldTail;
    PaidAlong(read, more, t, Growth(g) - 1);
    PaidIsWithinGrowth(HistoryOf(read + more), Pc(After(read + more), t),
                       Growth(g) - 1 + Failures(read + more, t) - Failures(read, t));
  }

  /**
   Lock-freedom over whole runs: however threads are scheduled, one producer's failed attempts number
   at most twice the enqueues completed by all producers together.
   */
  lemma LockFree<T(!new)>(acts: seq<Action<T>>, t: Thread)
    ensures Failures(acts, t) <= 2 * CountEnqueued(Trace(acts))
  {
    assert [] + acts == acts;
    PaidAlong([], acts, t, 0);
    PaidIsWithinGrowth(HistoryOf(acts), Pc(After(acts), t), Failures(acts, t));
    TailLagsByOne(acts);
    PositionsCountEvents(acts);
  }
}

/** Every attempt of a producer is accounted for, and a producer left alone completes its call. */
module MpscCompletion {
  import opened Wrappers
  import opened MpscQueue
  import opened MpscRefinement
  import opened MpscProgress

  // ---------- attempts ----------

  /** The reads of the tail by thread `t`, one for each round of its loop, whatever ended the round before. */
  function Rounds<T>(acts: seq<Action<T>>, t: Thread): nat {
    if |acts| == 0 then 0
    else
      Rounds(acts[..|acts| - 1], t) +
      if acts[|acts| - 1] == ReadTail(t) && Enabled(After(acts[..|acts| - 1]), acts[|acts| - 1]) then 1 else 0
  }

  /** The weak compare-exchanges of thread `t` that failed spuriously. */
  function Spurious<T>(acts: seq<Action<T>>, t: Thread): nat {
    if |acts| == 0 then 0
    else
      var a := acts[|acts| - 1];
      Spurious(acts[..|acts| - 1], t) +
      if a.CasNext? && a.t == t && a.spurious && Enabled(After(acts[..|acts| - 1]), a) then 1 else 0
  }

  function AtStart<T>(p: Producer<T>): nat {
    if p.LoadTail? then 1 else 0
  }

  lemma RoundStep<T>(s: State<T>, a: Action<T>, t: Thread)
    requires Enabled(s, a)
    ensures (if a == ReadTail(t) then 1 else 0) + AtStart(Pc(Step(s, a), t))
            == AtStart(Pc(s, t)) + (if a.Alloc? && a.t == t then 1 else 0)
               + (if a.CasNext? && a.t == t && a.spurious then 1 else 0) + (if Fails(s, a, t) then 1 else 0)
  {
    if !ByProducer(a, t) {
      assert Pc(Step(s, a), t) == Pc(s, t);
    }
  }

  /** A round begins with a call, after a spurious failure, or after a failure that `LockFree` accounts for. */
  lemma {:induction false} RoundsBalance<T>(acts: seq<Action<T>>, t: Thread)
    ensures Rounds(acts, t) + AtStart(Pc(After(acts), t))
            == |Calls(acts, t)| + Spurious(acts, t) + Failures(acts, t)
  {
    if |acts| > 0 {
      var before, a := acts[..|acts| - 1], acts[|acts| - 1];
      RoundsBalance(before, t);
      if Enabled(After(before), a) {
        RoundStep(After(before), a, t);
      }
    }
  }

  /**
   However threads are scheduled, a producer goes round its loop at most once per call, once per spurious failure,
   and twice per enqueue completed by anyone.
   */
  lemma RoundsAreBounded<T(!new)>(acts: seq<Action<T>>, t: Thread)
    ensures Rounds(acts, t) <= |Calls(acts, t)| + Spurious(acts, t) + 2 * CountEnqueued(Trace(acts))
  {
    RoundsBalance(acts, t);
    LockFree(acts, t);
  }

  // ---------- a producer on its own ----------

  /** The next access of a producer inside a call, with no spurious failure. */
  function NextAction<T>(p: Producer<T>, t: Thread): Action<T>
    requires !p.Idle?
  {
    match p
    case LoadTail(_, _) => ReadTail(t)
    case LoadNext(_, _, _) => ReadNext(t)
    case Recheck(_, _, _, _) => CheckTail(t)
    case Link(_, _, _) => CasNext(t, false)
    case SwingOwn(_, _, _) => CasTailOwn(t)
    case SwingOther(_, _, _, _) => CasTailHelp(t)
  }

  /** Up to `n` accesses of thread `t` alone, ending when its call returns. */
  function Alone<T>(s: State<T>, t: Thread, n: nat): (acts: seq<Action<T>>)
    ensures |acts| <= n
    decreases n
  {
    if n == 0 || Pc(s, t).Idle? then []
    else
      var a := NextAction(Pc(s, t), t);
      [a] + Alone(Step(s, a), t, n - 1)
  }

  /** Whether a link has been added that the tail does not name yet. */
  function Lag(g: History): int {
    |g.chain| - 1 - g.t
  }

  /** Accesses left for a producer at the start of a round. */
  function FromStart(g: History): int {
    if Lag(g) == 0 then 5 else 9
  }

  /** A bound on the accesses left for a producer that runs alone. */
  function Left<T>(s: State<T>, g: History, p: Producer<T>): int {
    match p
    case Idle => 0
    case SwingOwn(_, _, _) => 1
    case LoadTail(_, _) => FromStart(g)
    case LoadNext(_, _, x) => if x != s.tail then 2 + FromStart(g) else if Lag(g) == 0 then 4 else 8
    case Recheck(_, _, x, next) =>
      if x != s.tail then 1 + FromStart(g)
      else if next.Some? then 7
      else if Lag(g) == 0 then 3 else 11
    case Link(_, _, x) => if x == s.tail && Lag(g) == 0 then 2 else 1 + FromStart(g)
    case SwingOther(_, _, x, _) => if x == s.tail then 6 else 1 + FromStart(g)
  }

  lemma LeftIsBounded<T>(s: State<T>, g: History, p: Producer<T>)
    requires Inv(s, g)
    ensures 0 <= Left(s, g, p) <= 11 && (Left(s, g, p) == 0 <==> p.Idle?)
  {
  }

  /** The link after the tail is there exactly when the tail lags. */
  lemma TailNext<T>(s: State<T>, g: History)
    requires Inv(s, g)
    ensures s.tail in s.mem && (NextOf(s, s.tail).None? <==> Lag(g) == 0) && 0 <= Lag(g) <= 1
  {
  }

  lemma LocalLeft<T>(s: State<T>, g: History, t: Thread)
    requires Inv(s, g) && (Pc(s, t).LoadTail? || Pc(s, t).LoadNext? || Pc(s, t).Recheck?)
    ensures var a := NextAction(Pc(s, t), t);
            Left(Step(s, a), Observe(g, s, a), Pc(Step(s, a), t)) < Left(s, g, Pc(s, t))
  {
    TailNext(s, g);
    assert ProducerOk(s, g, Pc(s, t));
  }

  /** A former tail that is not the tail has a successor, so linking to it fails. */
  lemma PassedHasNext<T>(s: State<T>, g: History, x: NodeId)
    requires Inv(s, g) && WasTail(x, g) && x != s.tail
    ensures x in s.mem && NextOf(s, x).Some?
  {
    var i :| 0 <= i <= g.t < |g.chain| && g.chain[i] == x;
    assert i < g.t && s.mem[g.chain[i]].next == Some(g.chain[i + 1]);
  }

  lemma LinkLeft<T>(s: State<T>, g: History, t: Thread)
    requires Inv(s, g) && Pc(s, t).Link?
    ensures var a := NextAction(Pc(s, t), t);
            Left(Step(s, a), Observe(g, s, a), Pc(Step(s, a), t)) < Left(s, g, Pc(s, t))
  {
    var p := Pc(s, t);
    TailNext(s, g);
    assert ProducerOk(s, g, p);
    if p.oldTail != s.tail {
      PassedHasNext(s, g, p.oldTail);
    }
  }

  lemma SwingLeft<T>(s: State<T>, g: History, t: Thread)
    requires Inv(s, g) && (Pc(s, t).SwingOwn? || Pc(s, t).SwingOther?)
    ensures var a := NextAction(Pc(s, t), t);
            Left(Step(s, a), Observe(g, s, a), Pc(Step(s, a), t)) < Left(s, g, Pc(s, t))
  {
    TailNext(s, g);
    assert ProducerOk(s, g, Pc(s, t));
  }

  /** Every access of a producer that runs alone brings its return nearer. */
  lemma StepIsNearer<T>(s: State<T>, g: History, t: Thread)
    requires Inv(s, g) && !Pc(s, t).Idle?
    ensures var a := NextAction(Pc(s, t), t);
            Left(Step(s, a), Observe(g, s, a), Pc(Step(s, a), t)) < Left(s, g, Pc(s, t))
  {
    if Pc(s, t).Link? {
      LinkLeft(s, g, t);
    } else if Pc(s, t).SwingOwn? || Pc(s, t).SwingOther? {
      SwingLeft(s, g, t);
    } else {
      LocalLeft(s, g, t);
    }
  }

  lemma {:induction false} LeftInRun<T(!new)>(acts: seq<Action<T>>, t: Thread)
    ensures var left, p := Left(After(acts), HistoryOf(acts), Pc(After(acts), t)), Pc(After(acts), t);
            0 <= left <= 11 && (left == 0 <==> p.Idle?)
  {
    RefinesFifo(acts);
    LeftIsBounded(After(acts), HistoryOf(acts), Pc(After(acts), t));
  }

  lemma {:induction false} AloneUnfolds<T>(acts: seq<Action<T>>, s: State<T>, t: Thread, n: nat)
    requires !Pc(s, t).Idle? && n > 0
    ensures var a := NextAction(Pc(s, t), t);
            acts + Alone(s, t, n) == (acts + [a]) + Alone(Step(s, a), t, n - 1)
  {
  }

  /** The producer's next access at the end of a run. */
  lemma {:induction false} OneMore<T(!new)>(acts: seq<Action<T>>, t: Thread, n: nat) returns (more: seq<Action<T>>)
    requires !Pc(After(acts), t).Idle? && n > 0
    ensures Calls(more, t) == Calls(acts, t)
    ensures acts + Alone(After(acts), t, n) == more + Alone(After(more), t, n - 1)
    ensures Left(After(more), HistoryOf(more), Pc(After(more), t))
            < Left(After(acts), HistoryOf(acts), Pc(After(acts), t))
  {
    var s := After(acts);
    RefinesFifo(acts);
    var a := NextAction(Pc(s, t), t);
    more := acts + [a];
    assert more[..|acts|] == acts;
    StepIsNearer(s, HistoryOf(acts), t);
    AloneUnfolds(acts, s, t, n);
  }

  /** Left alone for `n` accesses at the end of the run, the producer returns and makes no other call. */
  ghost predicate Returns<T(!new)>(acts: seq<Action<T>>, t: Thread, n: nat) {
    var run := acts + Alone(After(acts), t, n);
    Pc(After(run), t).Idle? && Calls(run, t) == Calls(acts, t)
  }

  lemma {:induction false} ReturnedAlready<T(!new)>(acts: seq<Action<T>>, t: Thread, n: nat)
    requires Pc(After(acts), t).Idle?
    ensures Returns(acts, t, n)
  {
    assert acts + Alone(After(acts), t, n) == acts;
  }

  lemma {:induction false} ReturnsLater<T(!new)>(acts: seq<Action<T>>, more: seq<Action<T>>, t: Thread, n: nat)
    requires n > 0 && Returns(more, t, n - 1) && Calls(more, t) == Calls(acts, t)
    requires acts + Alone(After(acts), t, n) == more + Alone(After(more), t, n - 1)
    ensures Returns(acts, t, n)
  {
  }

  lemma {:induction false} AloneReturns<T(!new)>(acts: seq<Action<T>>, t: Thread, n: nat)
    requires Left(After(acts), HistoryOf(acts), Pc(After(acts), t)) <= n
    ensures Returns(acts, t, n)
    decreases n
  {
    LeftInRun(acts, t);
    if Pc(After(acts), t).Idle? {
      ReturnedAlready(acts, t, n);
    } else {
      var more := OneMore(acts, t, n);
      AloneReturns(more, t, n - 1);
      ReturnsLater(acts, more, t, n);
    }
  }

  /**
   Solo completion: from every reachable state, a producer inside a call that runs alone and meets no spurious
   failure returns within eleven accesses, and a value still waiting has been enqueued once.
   */
  lemma CompletesAlone<T(!new)>(acts: seq<Action<T>>, t: Thread)
    ensures var run := acts + Alone(After(acts), t, 11);
            && Pc(After(run), t).Idle?
            && EnqueuedBy(Trace(run), t) == EnqueuedBy(Trace(acts), t) + Waiting(Pc(After(acts), t))
  {
    LeftInRun(acts, t);
    AloneReturns(acts, t, 11);
    var run := acts + Alone(After(acts), t, 11);
    CallsTakeEffectOnceInOrder(acts, t);
    CallsTakeEffectOnceInOrder(run, t);
    assert EnqueuedBy(Trace(run), t) + [] == EnqueuedBy(Trace(run), t);
  }

  // ---------- the consumer on its own ----------

  /** A dequeue that nobody interrupts answers empty exactly when the queue is, and otherwise hands out its front. */
  lemma {:induction false} DequeuesFront<T(!new)>(s: State<T>, g: History)
    requires Inv(s, g) && s.consumer.Ready?
    ensures var s1 := Step(s, ReadHead);
            && Enabled(s1, ReadHeadNext)
            && (EventOf(s1, ReadHeadNext).FoundEmpty? <==> Contents(s, g) == [])
            && (Contents(s, g) == [] ==> Step(s1, ReadHeadNext).consumer.Ready?)
    ensures Contents(s, g) != [] ==>
              var s2 := Step(Step(s, ReadHead), ReadHeadNext);
              && Enabled(s2, TakeData) && Enabled(Step(s2, TakeData), StoreHead)
              && EventOf(Step(s2, TakeData), StoreHead) == Dequeued(Contents(s, g)[0])
              && var s4 := Step(Step(s2, TakeData), StoreHead);
                Enabled(s4, DeleteHead) && Step(s4, DeleteHead).consumer.Ready?
                && s4.head == g.chain[g.h + 1] && Step(s4, DeleteHead).freed == s.freed + {s.head}
  {
    HeadNext(s, g);
    if Contents(s, g) != [] {
      var n := g.chain[g.h + 1];
      assert ValueAt(s, n).Some? && Some(Contents(s, g)[0]) == ValueAt(s, n);
    }
  }
}

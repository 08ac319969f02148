/** Every interleaving of the queue's atomic accesses refines the sequential queue `Fifo`. */
module MpscRefinement {
  import opened Wrappers
  import opened MpscQueue

  // ---------- frame lemmas for the producers an action does not belong to ----------

  /** Thread `t` moves to `p`; nodes owned by the others are untouched and stay unlinked. */
  lemma KeepProducers<T>(s: State<T>, g: History, s': State<T>, g': History, t: Thread, p: Producer<T>)
    requires ProducersOk(s, g)
    requires s'.producers == s.producers[t := p]
    requires g.chain <= g'.chain && g.t <= g'.t < |g'.chain|
    requires forall u :: u in s.producers && u != t && Owns(s.producers[u]) ==>
               var n := s.producers[u].node;
               n in s'.mem && s'.mem[n] == s.mem[n] && n !in g'.chain && (Owns(p) ==> n != p.node)
    requires ProducerOk(s', g', p)
    ensures ProducersOk(s', g')
  {
  }

  /** The consumer moves; no producer and no link changes. */
  lemma KeepAllProducers<T>(s: State<T>, g: History, s': State<T>, g': History)
    requires ProducersOk(s, g)
    requires s'.producers == s.producers && g'.chain == g.chain && g'.t == g.t < |g.chain|
    requires forall n :: n in s.mem && n !in g.chain ==> n in s'.mem && s'.mem[n] == s.mem[n]
    ensures ProducersOk(s', g')
  {
  }

  lemma SameContents<T>(s: State<T>, g: History, s': State<T>, g': History)
    requires Inv(s, g) && Inv(s', g') && g'.chain == g.chain && g'.h == g.h
    requires forall i :: g.h < i < |g.chain| ==> ValueAt(s', g.chain[i]) == ValueAt(s, g.chain[i])
    ensures Contents(s', g') == Contents(s, g)
  {
  }

  // ---------- one lemma per kind of action ----------

  /** What a single action must establish. */
  ghost predicate Simulates<T(!new)>(s: State<T>, g: History, a: Action<T>)
    requires Enabled(s, a) && Inv(s, g)
  {
    var s', g' := Step(s, a), Observe(g, s, a);
    Inv(s', g') && Fifo(Contents(s, g), EventOf(s, a)) == Some(Contents(s', g'))
  }

  lemma AllocSimulates<T(!new)>(s: State<T>, g: History, a: Action<T>)
    requires Inv(s, g) && Enabled(s, a) && a.Alloc?
    ensures Simulates(s, g, a)
  {
    var s' := Step(s, a);
    assert a.node !in g.chain;
    KeepProducers(s, g, s', g, a.t, LoadTail(a.val, a.node));
    SameContents(s, g, s', g);
  }

  predicate IsLocal<T>(s: State<T>, a: Action<T>)
    requires Enabled(s, a)
  {
    a.ReadTail? || a.ReadNext? || a.CheckTail? || (a.CasNext? && !Links(s, a))
  }

  lemma LocalKeepsProducers<T>(s: State<T>, g: History, a: Action<T>)
    requires Inv(s, g) && Enabled(s, a) && IsLocal(s, a)
    ensures ProducersOk(Step(s, a), g)
  {
    var s' := Step(s, a);
    var p := Pc(s, a.t);
    var p' := Pc(s', a.t);
    assert ProducerOk(s, g, p);
    if a.ReadTail? {
      assert g.chain[g.t] == p'.oldTail;
    } else if a.ReadNext? {
      var i :| 0 <= i <= g.t < |g.chain| && g.chain[i] == p.oldTail;
      if p'.next.Some? {
        assert g.chain[i + 1] == p'.next.value;
      }
    }
    assert ProducerOk(s', g, p');
    KeepProducers(s, g, s', g, a.t, p');
  }

  /** A step that changes one program counter and nothing else. */
  lemma SetPcKeeps<T>(s: State<T>, g: History, t: Thread, p: Producer<T>)
    requires Inv(s, g) && ProducersOk(SetPc(s, t, p), g)
    ensures Inv(SetPc(s, t, p), g)
    ensures Contents(SetPc(s, t, p), g) == Contents(s, g)
  {
    SameContents(s, g, SetPc(s, t, p), g);
  }

  /** Loads and failed compare-exchanges of a producer change only its own program counter. */
  lemma LocalSimulates<T(!new)>(s: State<T>, g: History, a: Action<T>)
    requires Inv(s, g) && Enabled(s, a) && IsLocal(s, a)
    ensures Simulates(s, g, a)
  {
    LocalKeepsProducers(s, g, a);
    var s' := Step(s, a);
    assert s' == SetPc(s, a.t, Pc(s', a.t));
    SetPcKeeps(s, g, a.t, Pc(s', a.t));
  }

  /** A node whose `next` is still null is the last one, and then it is also the tail. */
  lemma NullNextIsLast<T>(s: State<T>, g: History, x: NodeId)
    requires Inv(s, g) && WasTail(x, g) && s.mem[x].next.None?
    ensures x == g.chain[|g.chain| - 1] && g.t == |g.chain| - 1
  {
    var i :| 0 <= i <= g.t < |g.chain| && g.chain[i] == x;
    forall k | 0 <= k < |g.chain| - 1
      ensures NextOf(s, g.chain[k]).Some?
    {
      assert s.mem[g.chain[k]].next == Some(g.chain[k + 1]);
    }
  }

  lemma LinkKeepsLinks<T>(s: State<T>, g: History, a: Action<T>)
    requires Inv(s, g) && Enabled(s, a) && Links(s, a)
    ensures var chain := Observe(g, s, a).chain; Distinct(chain) && Linked(Step(s, a), chain)
  {
    var s', chain := Step(s, a), Observe(g, s, a).chain;
    var p := Pc(s, a.t);
    assert ProducerOk(s, g, p);
    NullNextIsLast(s, g, p.oldTail);
    forall i | 0 <= i < |chain| - 1
      ensures s'.mem[chain[i]].next == Some(chain[i + 1])
    {
      if i < |g.chain| - 1 {
        assert g.chain[i] != p.oldTail;
        assert s.mem[g.chain[i]].next == Some(g.chain[i + 1]);
      }
    }
  }

  lemma LinkKeepsProducers<T>(s: State<T>, g: History, a: Action<T>)
    requires Inv(s, g) && Enabled(s, a) && Links(s, a)
    ensures ProducersOk(Step(s, a), Observe(g, s, a))
  {
    var s', g' := Step(s, a), Observe(g, s, a);
    var p := Pc(s, a.t);
    assert ProducerOk(s, g, p);
    NullNextIsLast(s, g, p.oldTail);
    assert Follows(p.oldTail, p.node, g') by {
      assert g'.chain[g.t] == p.oldTail && g'.chain[g.t + 1] == p.node;
    }
    KeepProducers(s, g, s', g', a.t, SwingOwn(p.val, p.node, p.oldTail));
  }

  lemma LinkKeepsValues<T>(s: State<T>, g: History, a: Action<T>)
    requires Inv(s, g) && Enabled(s, a) && Links(s, a)
    ensures var s', g' := Step(s, a), Observe(g, s, a);
            && (forall i :: 0 <= i < |g.chain| ==>
                  g'.chain[i] == g.chain[i] && ValueAt(s', g'.chain[i]) == ValueAt(s, g.chain[i]))
            && ValueAt(s', Pc(s, a.t).node) == Some(Pc(s, a.t).val)
            && DataOf(s, Pc(s, a.t).node) == Some(Pc(s, a.t).val)
  {
  }

  lemma LinkKeepsInv<T>(s: State<T>, g: History, a: Action<T>)
    requires Inv(s, g) && Enabled(s, a) && Links(s, a)
    ensures Inv(Step(s, a), Observe(g, s, a))
  {
    var g' := Observe(g, s, a);
    assert ProducerOk(s, g, Pc(s, a.t));
    NullNextIsLast(s, g, Pc(s, a.t).oldTail);
    LinkKeepsLinks(s, g, a);
    LinkKeepsProducers(s, g, a);
    LinkKeepsValues(s, g, a);
    assert g'.chain[..DeletedCount(s, g)] == g.chain[..DeletedCount(s, g)];
  }

  lemma LinkSimulates<T(!new)>(s: State<T>, g: History, a: Action<T>)
    requires Inv(s, g) && Enabled(s, a) && Links(s, a)
    ensures Simulates(s, g, a)
  {
    LinkKeepsInv(s, g, a);
    LinkKeepsValues(s, g, a);
    assert Contents(Step(s, a), Observe(g, s, a)) == Contents(s, g) + [Pc(s, a.t).val];
  }

  lemma SwingKeepsProducers<T>(s: State<T>, g: History, a: Action<T>)
    requires Inv(s, g) && Enabled(s, a) && (a.CasTailOwn? || a.CasTailHelp?)
    ensures var s', g' := Step(s, a), Observe(g, s, a);
            && g'.t < |g'.chain| && s'.tail == g'.chain[g'.t]
            && ProducersOk(s', g')
  {
    var s', g' := Step(s, a), Observe(g, s, a);
    var p := Pc(s, a.t);
    assert ProducerOk(s, g, p);
    var target := if a.CasTailOwn? then p.node else p.succ;
    var i :| 0 <= i <= g.t && i + 1 < |g.chain| && g.chain[i] == p.oldTail && g.chain[i + 1] == target;
    KeepProducers(s, g, s', g', a.t, Pc(s', a.t));
  }

  /** A producer ends its step and the tail moves; links, values and the consumer stay. */
  lemma SetTailKeeps<T>(s: State<T>, g: History, s': State<T>, g': History)
    requires Inv(s, g) && ProducersOk(s', g')
    requires s' == s.(tail := s'.tail, producers := s'.producers) && g' == g.(t := g'.t)
    requires g.t <= g'.t < |g.chain| && s'.tail == g.chain[g'.t]
    ensures Inv(s', g') && Contents(s', g') == Contents(s, g)
  {
    SameContents(s, g, s', g');
  }

  lemma SwingSimulates<T(!new)>(s: State<T>, g: History, a: Action<T>)
    requires Inv(s, g) && Enabled(s, a) && (a.CasTailOwn? || a.CasTailHelp?)
    ensures Simulates(s, g, a)
  {
    SwingKeepsProducers(s, g, a);
    SetTailKeeps(s, g, Step(s, a), Observe(g, s, a));
  }

  /** `head_` has a successor exactly when the abstract queue is not empty. */
  lemma HeadNext<T>(s: State<T>, g: History)
    requires Inv(s, g)
    ensures NextOf(s, s.head).None? <==> Contents(s, g) == []
    ensures NextOf(s, s.head).Some? ==> g.h + 1 < |g.chain| && NextOf(s, s.head).value == g.chain[g.h + 1]
  {
    if g.h < |g.chain| - 1 {
      assert s.mem[g.chain[g.h]].next == Some(g.chain[g.h + 1]);
    }
  }

  /** The consumer only looked: nothing but its program counter changed. */
  lemma SetConsumerKeeps<T>(s: State<T>, g: History, c: Consumer<T>)
    requires Inv(s, g) && ConsumerOk(s.(consumer := c), g)
    requires !s.consumer.GotData? && !s.consumer.MovedHead? && !c.GotData? && !c.MovedHead?
    ensures Inv(s.(consumer := c), g)
    ensures Contents(s.(consumer := c), g) == Contents(s, g)
  {
    var s' := s.(consumer := c);
    KeepAllProducers(s, g, s', g);
    SameContents(s, g, s', g);
  }

  lemma LookSimulates<T(!new)>(s: State<T>, g: History, a: Action<T>)
    requires Inv(s, g) && Enabled(s, a)
    requires a.ReadHead? || a.ReadHeadNext? || a.PeekHead? || a.PeekNext?
    ensures Simulates(s, g, a)
  {
    HeadNext(s, g);
    SetConsumerKeeps(s, g, Step(s, a).consumer);
  }

  lemma TakeSimulates<T(!new)>(s: State<T>, g: History, a: Action<T>)
    requires Inv(s, g) && Enabled(s, a) && a.TakeData?
    ensures Simulates(s, g, a)
  {
    var s' := Step(s, a);
    var n := s.consumer.succ;
    assert n == g.chain[g.h + 1] && ValueAt(s, n).Some?;
    assert Linked(s', g.chain);
    KeepAllProducers(s, g, s', g);
    assert forall i :: g.h < i < |g.chain| ==> ValueAt(s', g.chain[i]) == ValueAt(s, g.chain[i]);
    assert FreedOk(s', g);
    SameContents(s, g, s', g);
  }

  lemma StoreKeepsInv<T>(s: State<T>, g: History, a: Action<T>)
    requires Inv(s, g) && Enabled(s, a) && a.StoreHead?
    ensures Inv(Step(s, a), Observe(g, s, a))
    ensures forall i :: g.h + 1 < i < |g.chain| ==> ValueAt(Step(s, a), g.chain[i]) == ValueAt(s, g.chain[i])
  {
    KeepAllProducers(s, g, Step(s, a), Observe(g, s, a));
  }

  /** The values after the head, with the head moved by one. */
  lemma StoreDropsFront<T>(s: State<T>, g: History, s': State<T>, g': History)
    requires Inv(s, g) && Inv(s', g') && g' == g.(h := g.h + 1)
    requires forall i :: g'.h < i < |g.chain| ==> ValueAt(s', g.chain[i]) == ValueAt(s, g.chain[i])
    ensures |Contents(s, g)| > 0 && Some(Contents(s, g)[0]) == ValueAt(s, g.chain[g.h + 1])
    ensures Contents(s', g') == Contents(s, g)[1..]
  {
    var q, q' := Contents(s, g), Contents(s', g');
    forall i | 0 <= i < |q'|
      ensures q'[i] == q[1..][i]
    {
      assert Some(q[i + 1]) == ValueAt(s, g.chain[g.h + 2 + i]) == Some(q'[i]);
    }
  }

  lemma StoreSimulates<T(!new)>(s: State<T>, g: History, a: Action<T>)
    requires Inv(s, g) && Enabled(s, a) && a.StoreHead?
    ensures Simulates(s, g, a)
  {
    StoreKeepsInv(s, g, a);
    StoreDropsFront(s, g, Step(s, a), Observe(g, s, a));
  }

  /** One more link is gone. */
  lemma DeleteFrees<T>(s: State<T>, g: History, a: Action<T>)
    requires Inv(s, g) && Enabled(s, a) && a.DeleteHead?
    ensures FreedOk(Step(s, a), g)
  {
    assert g.chain[..g.h] == g.chain[..g.h - 1] + [s.consumer.head];
  }

  lemma DeleteKeepsInv<T>(s: State<T>, g: History, a: Action<T>)
    requires Inv(s, g) && Enabled(s, a) && a.DeleteHead?
    ensures Inv(Step(s, a), g)
  {
    KeepAllProducers(s, g, Step(s, a), g);
    DeleteFrees(s, g, a);
  }

  lemma DeleteSimulates<T(!new)>(s: State<T>, g: History, a: Action<T>)
    requires Inv(s, g) && Enabled(s, a) && a.DeleteHead?
    ensures Simulates(s, g, a)
  {
    DeleteKeepsInv(s, g, a);
    SameContents(s, g, Step(s, a), g);
  }

  lemma StepSimulates<T(!new)>(s: State<T>, g: History, a: Action<T>)
    requires Inv(s, g) && Enabled(s, a)
    ensures Simulates(s, g, a)
  {
    match a
    case Alloc(_, _, _) => AllocSimulates(s, g, a);
    case ReadTail(_) => LocalSimulates(s, g, a);
    case ReadNext(_) => LocalSimulates(s, g, a);
    case CheckTail(_) => LocalSimulates(s, g, a);
    case CasNext(_, _) =>
      if Links(s, a) { LinkSimulates(s, g, a); } else { LocalSimulates(s, g, a); }
    case CasTailOwn(_) => SwingSimulates(s, g, a);
    case CasTailHelp(_) => SwingSimulates(s, g, a);
    case ReadHead => LookSimulates(s, g, a);
    case ReadHeadNext => LookSimulates(s, g, a);
    case TakeData => TakeSimulates(s, g, a);
    case StoreHead => StoreSimulates(s, g, a);
    case DeleteHead => DeleteSimulates(s, g, a);
    case PeekHead => LookSimulates(s, g, a);
    case PeekNext => LookSimulates(s, g, a);
  }

  // ---------- whole runs ----------

  /** Main theorem: the trace of every interleaving is one the sequential queue could have produced. */
  lemma {:induction false} RefinesFifo<T(!new)>(acts: seq<Action<T>>)
    ensures Inv(After(acts), HistoryOf(acts))
    ensures Replay(Trace(acts)) == Some(Contents(After(acts), HistoryOf(acts)))
  {
    if |acts| > 0 {
      var before := acts[..|acts| - 1];
      RefinesFifo(before);
      if Enabled(After(before), acts[|acts| - 1]) {
        StepSimulates(After(before), HistoryOf(before), acts[|acts| - 1]);
      }
      assert Trace(acts)[..|acts| - 1] == Trace(before);
    } else {
      assert Contents(Init<T>(), HistoryOf(acts)) == [];
    }
  }
}

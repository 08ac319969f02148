/**
 The connection pool of server/src/pool/sqlconnpool.cpp: a queue of connections under a mutex, and a
 semaphore that counts them. Any number of threads interleave the separate steps of `GetConn` and
 `FreeConn`. `Init` asks for `size` connections, of which `avail` could be opened, but always sets the
 semaphore to `size`.
 */
module SqlConnPool {
  import opened Wrappers

  type Thread = nat
  type Conn = nat

  /** `Checked` has seen a non-empty queue (line 37), `Waited` has passed `sem_wait` (line 43), and so on. */
  datatype Pc =
    | Idle
    | Checked
    | Waited
    | PopLocked          // holds the mutex, line 44
    | Popped(conn: Conn) // holds the mutex, lines 45-46
    | Using(conn: Conn)
    | PushLocked(conn: Conn) // holds the mutex, line 52
    | Pushed             // holds the mutex, line 53
    | Posted             // holds the mutex, line 54

  /** `broken` records a `front`/`pop` on an empty queue. */
  datatype State = State(queue: seq<Conn>, sem: nat, lock: Option<Thread>, pcs: map<Thread, Pc>, broken: bool)

  datatype Action =
    | Check(t: Thread)
    | SemWait(t: Thread)
    | LockForPop(t: Thread)
    | Pop(t: Thread)
    | ReturnConn(t: Thread)
    | LockForPush(t: Thread)
    | Push(t: Thread)
    | SemPost(t: Thread)
    | Leave(t: Thread)

  function Init(avail: nat, size: nat): State {
    State(seq(avail, i => i), size, None, map[], false)
  }

  function PcOf(s: State, t: Thread): Pc {
    if t in s.pcs then s.pcs[t] else Idle
  }

  predicate Enabled(s: State, a: Action) {
    var p := PcOf(s, a.t);
    match a
    case Check(_) => p.Idle?
    case SemWait(_) => p.Checked? && s.sem > 0
    case LockForPop(_) => p.Waited? && s.lock.None?
    case Pop(_) => p.PopLocked?
    case ReturnConn(_) => p.Popped?
    case LockForPush(_) => p.Using? && s.lock.None?
    case Push(_) => p.PushLocked?
    case SemPost(_) => p.Pushed?
    case Leave(_) => p.Posted?
  }

  function Step(s: State, a: Action): State
    requires Enabled(s, a)
  {
    var p := PcOf(s, a.t);
    match a
    case Check(t) => if |s.queue| == 0 then s else s.(pcs := s.pcs[t := Checked])
    case SemWait(t) => s.(sem := s.sem - 1, pcs := s.pcs[t := Waited])
    case LockForPop(t) => s.(lock := Some(t), pcs := s.pcs[t := PopLocked])
    case Pop(t) =>
      if |s.queue| == 0 then s.(broken := true)
      else s.(queue := s.queue[1..], pcs := s.pcs[t := Popped(s.queue[0])])
    case ReturnConn(t) => s.(lock := None, pcs := s.pcs[t := Using(p.conn)])
    case LockForPush(t) => s.(lock := Some(t), pcs := s.pcs[t := PushLocked(p.conn)])
    case Push(t) => s.(queue := s.queue + [p.conn], pcs := s.pcs[t := Pushed])
    case SemPost(t) => s.(sem := s.sem + 1, pcs := s.pcs[t := Posted])
    case Leave(t) => s.(lock := None, pcs := s.pcs[t := Idle])
  }

  /** The state after a schedule; an action that is not enabled at its turn is skipped. */
  function After(s: State, acts: seq<Action>): State {
    if |acts| == 0 then s
    else
      var m := After(s, acts[..|acts| - 1]);
      if Enabled(m, acts[|acts| - 1]) then Step(m, acts[|acts| - 1]) else m
  }

  // ---------- invariant ----------

  predicate BetweenWaitAndPop(p: Pc) { p.Waited? || p.PopLocked? }

  predicate HoldsLock(p: Pc) { p.PopLocked? || p.Popped? || p.PushLocked? || p.Pushed? || p.Posted? }

  predicate Holds(p: Pc) { p.Popped? || p.Using? || p.PushLocked? }

  /** Threads between `sem_wait` and the pop, and threads that have pushed but not yet posted. */
  function Waiters(s: State): set<Thread> { set t | t in s.pcs && BetweenWaitAndPop(s.pcs[t]) }

  function Unposted(s: State): set<Thread> { set t | t in s.pcs && s.pcs[t].Pushed? }

  /** The semaphore is ahead of the queue by the connections that could not be opened. */
  ghost predicate Counted(s: State, missing: nat) {
    |s.queue| + missing == s.sem + |Waiters(s)| + |Unposted(s)|
  }

  ghost predicate LockOk(s: State) {
    forall t: Thread :: HoldsLock(PcOf(s, t)) <==> s.lock == Some(t)
  }

  /** The connection a thread has been lent. */
  function Lent(s: State, t: Thread): Option<Conn> {
    var p := PcOf(s, t);
    if Holds(p) then Some(p.conn) else None
  }

  /** Every opened connection is in exactly one place: once in the queue or with one thread. */
  ghost predicate Conserved(s: State, avail: nat) {
    && (forall i, j :: 0 <= i < j < |s.queue| ==> s.queue[i] != s.queue[j])
    && (forall c :: c in s.queue ==> c < avail)
    && (forall t :: Lent(s, t).Some? ==> Lent(s, t).value !in s.queue && Lent(s, t).value < avail)
    && (forall t, u :: t != u && Lent(s, t).Some? ==> Lent(s, t) != Lent(s, u))
    && (forall c :: 0 <= c < avail ==> c in s.queue || exists t :: Lent(s, t) == Some(c))
  }

  ghost predicate Inv(s: State, avail: nat, missing: nat) {
    Counted(s, missing) && LockOk(s) && Conserved(s, avail)
  }

  lemma SizeWith(a: set<Thread>, b: set<Thread>, x: Thread)
    requires a - {x} == b - {x}
    ensures |a| - (if x in a then 1 else 0) == |b| - (if x in b then 1 else 0)
  {
    assert a == if x in a then (a - {x}) + {x} else a - {x};
    assert b == if x in b then (b - {x}) + {x} else b - {x};
  }

  lemma WaitersAfter(s: State, s': State, t: Thread, p: Pc)
    requires s'.pcs == s.pcs[t := p]
    ensures |Waiters(s')| - (if BetweenWaitAndPop(p) then 1 else 0)
            == |Waiters(s)| - (if BetweenWaitAndPop(PcOf(s, t)) then 1 else 0)
  {
    assert Waiters(s) - {t} == Waiters(s') - {t};
    SizeWith(Waiters(s), Waiters(s'), t);
  }

  lemma UnpostedAfter(s: State, s': State, t: Thread, p: Pc)
    requires s'.pcs == s.pcs[t := p]
    ensures |Unposted(s')| - (if p.Pushed? then 1 else 0) == |Unposted(s)| - (if PcOf(s, t).Pushed? then 1 else 0)
  {
    assert Unposted(s) - {t} == Unposted(s') - {t};
    SizeWith(Unposted(s), Unposted(s'), t);
  }

  lemma StepKeepsCount(s: State, a: Action, missing: nat)
    requires Enabled(s, a) && Counted(s, missing)
    ensures Counted(Step(s, a), missing)
  {
    var s' := Step(s, a);
    if s'.pcs != s.pcs {
      WaitersAfter(s, s', a.t, PcOf(s', a.t));
      UnpostedAfter(s, s', a.t, PcOf(s', a.t));
    } else {
      assert Waiters(s') == Waiters(s) && Unposted(s') == Unposted(s);
    }
  }

  lemma NothingMoved(s: State, s': State, avail: nat)
    requires Conserved(s, avail) && s'.queue == s.queue && forall t :: Lent(s', t) == Lent(s, t)
    ensures Conserved(s', avail)
  {
  }

  lemma PopConserves(s: State, t: Thread, avail: nat)
    requires Enabled(s, Pop(t)) && Conserved(s, avail)
    ensures Conserved(Step(s, Pop(t)), avail)
  {
    var s' := Step(s, Pop(t));
    if |s.queue| == 0 {
      NothingMoved(s, s', avail);
    } else {
      var c0 := s.queue[0];
      assert s.queue == [c0] + s'.queue;
      assert c0 in s.queue && c0 !in s'.queue && forall c :: c in s'.queue ==> c in s.queue;
      assert Lent(s', t) == Some(c0) && forall u :: u != t ==> Lent(s', u) == Lent(s, u);
      forall c | 0 <= c < avail && c !in s'.queue
        ensures exists u :: Lent(s', u) == Some(c)
      {
        if c != c0 {
          var u :| Lent(s, u) == Some(c);
          assert Lent(s', u) == Some(c);
        }
      }
    }
  }

  lemma PushConserves(s: State, t: Thread, avail: nat)
    requires Enabled(s, Push(t)) && Conserved(s, avail)
    ensures Conserved(Step(s, Push(t)), avail)
  {
    var s' := Step(s, Push(t));
    var c0 := PcOf(s, t).conn;
    assert Lent(s, t) == Some(c0);
    assert Lent(s', t) == None && forall u :: u != t ==> Lent(s', u) == Lent(s, u);
    forall c | 0 <= c < avail && c !in s'.queue
      ensures exists u :: Lent(s', u) == Some(c)
    {
      var u :| Lent(s, u) == Some(c);
      assert Lent(s', u) == Some(c);
    }
  }

  lemma StepKeepsConserved(s: State, a: Action, avail: nat)
    requires Enabled(s, a) && Conserved(s, avail)
    ensures Conserved(Step(s, a), avail)
  {
    match a
    case Pop(t) => PopConserves(s, t, avail);
    case Push(t) => PushConserves(s, t, avail);
    case _ => NothingMoved(s, Step(s, a), avail);
  }

  lemma StepKeepsLock(s: State, a: Action)
    requires Enabled(s, a) && LockOk(s)
    ensures LockOk(Step(s, a))
  {
  }

  lemma StepKeepsInv(s: State, a: Action, avail: nat, missing: nat)
    requires Enabled(s, a) && Inv(s, avail, missing)
    ensures Inv(Step(s, a), avail, missing)
  {
    StepKeepsCount(s, a, missing);
    StepKeepsConserved(s, a, avail);
    StepKeepsLock(s, a);
  }

  /**
   In every reachable state the queue is as long as the semaphore says once threads between wait and pop
   and an unposted push are added, and no connection is lent twice or lost.
   */
  lemma {:induction false} PoolIsConsistent(avail: nat, size: nat, acts: seq<Action>)
    requires avail <= size
    ensures Inv(After(Init(avail, size), acts), avail, size - avail)
  {
    var s := Init(avail, size);
    if |acts| == 0 {
      forall c | 0 <= c < avail
        ensures c in s.queue
      {
        assert s.queue[c] == c;
      }
      assert Waiters(s) == {} && Unposted(s) == {};
    } else {
      PoolIsConsistent(avail, size, acts[..|acts| - 1]);
      var m := After(s, acts[..|acts| - 1]);
      if Enabled(m, acts[|acts| - 1]) {
        StepKeepsInv(m, acts[|acts| - 1], avail, size - avail);
      }
    }
  }

  // ---------- what a caller gets ----------

  ghost predicate IsLent(s: State, c: Conn) {
    exists t :: Lent(s, t) == Some(c)
  }

  /** `GetConn` turns a caller away exactly when every opened connection is lent at that moment. */
  lemma RefusedIff(avail: nat, size: nat, acts: seq<Action>, t: Thread)
    requires avail <= size && Enabled(After(Init(avail, size), acts), Check(t))
    ensures var s := After(Init(avail, size), acts);
            PcOf(Step(s, Check(t)), t).Idle? <==> forall c :: 0 <= c < avail ==> IsLent(s, c)
  {
    var s := After(Init(avail, size), acts);
    PoolIsConsistent(avail, size, acts);
    if |s.queue| > 0 {
      var c := s.queue[0];
      assert c in s.queue;
      assert 0 <= c < avail && !IsLent(s, c);
    } else {
      forall c | 0 <= c < avail
        ensures IsLent(s, c)
      {
        assert c !in s.queue;
      }
    }
  }

  /** No thread is inside `GetConn` or `FreeConn`. */
  ghost predicate Rested(s: State) {
    forall t :: PcOf(s, t).Idle? || PcOf(s, t).Using?
  }

  lemma RestedBalance(s: State, avail: nat, missing: nat)
    requires Inv(s, avail, missing) && Rested(s)
    ensures |s.queue| + missing == s.sem && s.lock == None
  {
    forall t | t in s.pcs
      ensures !BetweenWaitAndPop(s.pcs[t]) && !s.pcs[t].Pushed?
    {
      assert PcOf(s, t) == s.pcs[t];
    }
    assert Waiters(s) == {} && Unposted(s) == {};
    forall t: Thread
      ensures s.lock != Some(t)
    {
      assert !HoldsLock(PcOf(s, t));
    }
  }

  /** With nobody else inside, a caller of `GetConn` is lent the connection at the front. */
  lemma GetsFront(s: State, avail: nat, missing: nat, t: Thread)
    requires Inv(s, avail, missing) && Rested(s) && PcOf(s, t).Idle? && |s.queue| > 0
    ensures Enabled(s, Check(t)) && Enabled(Step(s, Check(t)), SemWait(t))
    ensures var s2 := Step(Step(s, Check(t)), SemWait(t));
            && Enabled(s2, LockForPop(t)) && Enabled(Step(s2, LockForPop(t)), Pop(t))
            && var s4 := Step(Step(s2, LockForPop(t)), Pop(t));
              && Enabled(s4, ReturnConn(t))
              && Step(s4, ReturnConn(t))
                 == State(s.queue[1..], s.sem - 1, None, s.pcs[t := Using(s.queue[0])], s.broken)
  {
    RestedBalance(s, avail, missing);
    assert s.pcs[t := Checked][t := Waited][t := PopLocked][t := Popped(s.queue[0])][t := Using(s.queue[0])]
           == s.pcs[t := Using(s.queue[0])];
  }

  /** With nobody else inside, `FreeConn` puts the connection at the end of the queue. */
  lemma FreesToEnd(s: State, avail: nat, missing: nat, t: Thread)
    requires Inv(s, avail, missing) && Rested(s) && PcOf(s, t).Using?
    ensures Enabled(s, LockForPush(t)) && Enabled(Step(s, LockForPush(t)), Push(t))
    ensures var s2 := Step(Step(s, LockForPush(t)), Push(t));
            && Enabled(s2, SemPost(t)) && Enabled(Step(s2, SemPost(t)), Leave(t))
            && Step(Step(s2, SemPost(t)), Leave(t))
               == State(s.queue + [PcOf(s, t).conn], s.sem + 1, None, s.pcs[t := Idle], s.broken)
  {
    RestedBalance(s, avail, missing);
    var c := PcOf(s, t).conn;
    assert s.pcs[t := PushLocked(c)][t := Pushed][t := Posted][t := Idle] == s.pcs[t := Idle];
  }

  // ---------- when can a thread pop an empty queue? ----------

  lemma StepKeepsSound(s: State, a: Action, avail: nat)
    requires Enabled(s, a) && Inv(s, avail, 0) && !s.broken
    ensures !Step(s, a).broken
  {
    if a.Pop? {
      assert a.t in Waiters(s);
    }
  }

  lemma {:induction false} FullPoolIsSound(size: nat, acts: seq<Action>)
    ensures !After(Init(size, size), acts).broken
  {
    if |acts| > 0 {
      var before := acts[..|acts| - 1];
      FullPoolIsSound(size, before);
      PoolIsConsistent(size, size, before);
      var s := After(Init(size, size), before);
      if Enabled(s, acts[|acts| - 1]) {
        StepKeepsSound(s, acts[|acts| - 1], size);
      }
    }
  }

  lemma {:induction false} EmptyPoolIsSound(size: nat, acts: seq<Action>)
    ensures After(Init(0, size), acts) == Init(0, size)
  {
    if |acts| > 0 {
      EmptyPoolIsSound(size, acts[..|acts| - 1]);
    }
  }

  ghost predicate Reaches(s: State, s': State) {
    exists acts :: After(s, acts) == s'
  }

  lemma Then(s: State, m: State, a: Action)
    requires Reaches(s, m) && Enabled(m, a)
    ensures Reaches(s, Step(m, a))
  {
    var acts :| After(s, acts) == m;
    assert (acts + [a])[..|acts|] == acts;
    assert After(s, acts + [a]) == Step(m, a);
  }

  function PcAt(t: Thread, w: nat, u: nat): Pc {
    if t < u then Using(t) else if t < w then Waited else Checked
  }

  /** `n` threads have seen a non-empty queue, the first `w` passed the semaphore, the first `u` got a connection. */
  function Stage(avail: nat, size: nat, n: nat, w: nat, u: nat): State
    requires u <= avail && w <= size
  {
    State(Init(avail, size).queue[u..], size - w, None, map t: Thread | 0 <= t < n :: PcAt(t, w, u), false)
  }

  lemma {:induction false} AllCheck(avail: nat, size: nat, n: nat)
    requires 0 < avail
    ensures Reaches(Init(avail, size), Stage(avail, size, n, 0, 0))
  {
    var s := Init(avail, size);
    if n == 0 {
      assert After(s, []) == s == Stage(avail, size, n, 0, 0);
    } else {
      AllCheck(avail, size, n - 1);
      var m := Stage(avail, size, n - 1, 0, 0);
      Then(s, m, Check(n - 1));
      assert m.pcs[n - 1 := Checked] == Stage(avail, size, n, 0, 0).pcs;
    }
  }

  /** The next thread passes the semaphore. */
  lemma WaitOne(avail: nat, size: nat, n: nat, w: nat)
    requires 0 < avail && w < n <= size
    ensures var m := Stage(avail, size, n, w, 0);
            Enabled(m, SemWait(w)) && Step(m, SemWait(w)) == Stage(avail, size, n, w + 1, 0)
  {
    var m := Stage(avail, size, n, w, 0);
    assert PcOf(m, w) == PcAt(w, w, 0) == Checked;
    assert m.pcs[w := Waited] == Stage(avail, size, n, w + 1, 0).pcs;
  }

  lemma {:induction false} AllWait(avail: nat, size: nat, n: nat, w: nat)
    requires 0 < avail && w <= n <= size
    ensures Reaches(Init(avail, size), Stage(avail, size, n, w, 0))
  {
    if w == 0 {
      AllCheck(avail, size, n);
    } else {
      AllWait(avail, size, n, w - 1);
      WaitOne(avail, size, n, w - 1);
      Then(Init(avail, size), Stage(avail, size, n, w - 1, 0), SemWait(w - 1));
    }
  }

  /** The next thread takes its connection off the queue. */
  lemma TakeOne(avail: nat, size: nat, n: nat, u: nat)
    requires u < avail < n <= size
    ensures var m1 := Step(Stage(avail, size, n, n, u), LockForPop(u));
            && Enabled(Stage(avail, size, n, n, u), LockForPop(u)) && Enabled(m1, Pop(u))
            && Enabled(Step(m1, Pop(u)), ReturnConn(u))
            && Step(Step(m1, Pop(u)), ReturnConn(u)) == Stage(avail, size, n, n, u + 1)
  {
    var m := Stage(avail, size, n, n, u);
    assert PcOf(m, u) == PcAt(u, n, u) == Waited;
    assert m.queue[0] == u && m.queue[1..] == Init(avail, size).queue[u + 1..];
    assert m.pcs[u := PopLocked][u := Popped(u)][u := Using(u)] == Stage(avail, size, n, n, u + 1).pcs;
  }

  lemma {:induction false} Drain(avail: nat, size: nat, n: nat, u: nat)
    requires 0 < avail < n <= size && u <= avail
    ensures Reaches(Init(avail, size), Stage(avail, size, n, n, u))
  {
    var s := Init(avail, size);
    if u == 0 {
      AllWait(avail, size, n, n);
    } else {
      Drain(avail, size, n, u - 1);
      TakeOne(avail, size, n, u - 1);
      var m := Stage(avail, size, n, n, u - 1);
      Then(s, m, LockForPop(u - 1));
      var m1 := Step(m, LockForPop(u - 1));
      Then(s, m1, Pop(u - 1));
      Then(s, Step(m1, Pop(u - 1)), ReturnConn(u - 1));
    }
  }

  /**
   A pop on an empty queue is possible exactly when some but not all connections could be opened: the
   empty check of line 37 is not repeated after the semaphore, and the semaphore promises too many.
   */
  lemma PopsEmptyQueueIffPartlyOpened(avail: nat, size: nat)
    requires avail <= size
    ensures (exists acts :: After(Init(avail, size), acts).broken) <==> 0 < avail < size
  {
    var s := Init(avail, size);
    if 0 < avail < size {
      var n := avail + 1;
      Drain(avail, size, n, avail);
      var m := Stage(avail, size, n, n, avail);
      assert PcOf(m, avail) == PcAt(avail, n, avail) == Waited;
      Then(s, m, LockForPop(avail));
      var m1 := Step(m, LockForPop(avail));
      Then(s, m1, Pop(avail));
      var acts :| After(s, acts) == Step(m1, Pop(avail));
      assert After(s, acts).broken;
    } else {
      forall acts
        ensures !After(s, acts).broken
      {
        if avail == size {
          FullPoolIsSound(size, acts);
        } else {
          EmptyPoolIsSound(size, acts);
        }
      }
    }
  }
}

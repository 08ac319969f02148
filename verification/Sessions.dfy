/**
 Sessions: `init`, `set_user_id` and `close_conn` of server/src/core/tcp_connection.cpp with the registry
 of server/src/service/push_service.cpp and the global `user_count`. None of the three takes the mutex of the
 connection for its own state, and both the event loop and the workers call `close_conn`; so every test and every
 write is an action of its own, and any threads interleave them.
 */
module Sessions {
  type Thread = nat
  type ConnId = nat
  type User = nat

  /** `user == 0` stands for not logged in; `http` for a connection whose protocol is HTTP. */
  datatype Conn = Conn(open: bool, user: User, http: bool)

  /** Where a thread stands inside `close_conn` or `set_user_id`. */
  datatype Pc =
    | Idle
    | Seen(c: ConnId)               // has found `is_close_` false, line 42
    | Marked(c: ConnId)             // has set it, line 43
    | Counted(c: ConnId)            // has decremented `user_count`, line 44
    | Assigned(c: ConnId, user: User) // has set `user_id_`, line 56

  datatype State = State(
    conns: map<ConnId, Conn>,
    registry: map<User, ConnId>,
    userCount: int,
    pcs: map<Thread, Pc>)

  const EMPTY := State(map[], map[], 0, map[])

  datatype Action =
    | Init(c: ConnId, http: bool)
    | Assign(t: Thread, c: ConnId, user: User) // line 56
    | Register(t: Thread)                      // line 58
    | Test(t: Thread, c: ConnId)               // line 42
    | Mark(t: Thread)                          // line 43
    | Decrement(t: Thread)                     // line 44
    | Unregister(t: Thread)                    // lines 46-48

  function PcOf(s: State, t: Thread): Pc {
    if t in s.pcs then s.pcs[t] else Idle
  }

  function SetPc(s: State, t: Thread, p: Pc): State {
    s.(pcs := s.pcs[t := p])
  }

  /**
   Program order only. Every accepted socket gets a new connection object, and only the protobuf handler logs
   users in; a login does not ask whether its connection has been closed meanwhile.
   */
  predicate Enabled(s: State, a: Action) {
    match a
    case Init(c, _) => c !in s.conns
    case Assign(t, c, _) => PcOf(s, t).Idle? && c in s.conns && !s.conns[c].http
    case Register(t) => PcOf(s, t).Assigned?
    case Test(t, c) => PcOf(s, t).Idle? && c in s.conns
    case Mark(t) => PcOf(s, t).Seen? && PcOf(s, t).c in s.conns
    case Decrement(t) => PcOf(s, t).Marked?
    case Unregister(t) => PcOf(s, t).Counted? && PcOf(s, t).c in s.conns
  }

  function Step(s: State, a: Action): State
    requires Enabled(s, a)
  {
    match a
    case Init(c, http) => s.(conns := s.conns[c := Conn(true, 0, http)], userCount := s.userCount + 1)
    case Assign(t, c, u) => SetPc(s.(conns := s.conns[c := s.conns[c].(user := u)]), t, Assigned(c, u))
    case Register(t) => SetPc(s.(registry := s.registry[PcOf(s, t).user := PcOf(s, t).c]), t, Idle)
    case Test(t, c) => if s.conns[c].open then SetPc(s, t, Seen(c)) else s
    case Mark(t) =>
      var c := PcOf(s, t).c;
      SetPc(s.(conns := s.conns[c := s.conns[c].(open := false)]), t, Marked(c))
    case Decrement(t) => SetPc(s.(userCount := s.userCount - 1), t, Counted(PcOf(s, t).c))
    case Unregister(t) =>
      var u := s.conns[PcOf(s, t).c].user;
      SetPc(s.(registry := if u != 0 then s.registry - {u} else s.registry), t, Idle)
  }

  /** An action that is not possible at its turn is skipped. */
  function Next(s: State, a: Action): State {
    if Enabled(s, a) then Step(s, a) else s
  }

  function Exec(s: State, acts: seq<Action>): State {
    if |acts| == 0 then s else Next(Exec(s, acts[..|acts| - 1]), acts[|acts| - 1])
  }

  function After(acts: seq<Action>): State {
    Exec(EMPTY, acts)
  }

  /** One `close_conn` by thread `t` and one `set_user_id`, as their actions. */
  function CloseBy(t: Thread, c: ConnId): seq<Action> {
    [Test(t, c), Mark(t), Decrement(t), Unregister(t)]
  }

  function LoginBy(t: Thread, c: ConnId, u: User): seq<Action> {
    [Assign(t, c, u), Register(t)]
  }

  lemma {:induction false} ExecConcat(s: State, a: seq<Action>, b: seq<Action>)
    ensures Exec(s, a + b) == Exec(Exec(s, a), b)
  {
    if |b| == 0 {
      assert a + b == a;
    } else {
      ExecConcat(s, a, b[..|b| - 1]);
      assert (a + b)[..|a + b| - 1] == a + b[..|b| - 1];
    }
  }

  lemma {:induction false} ExecOne(s: State, a: Action)
    ensures Exec(s, [a]) == Next(s, a)
  {
    assert [a][..0] == [];
  }

  lemma {:induction false} ExecTwo(s: State, a: Action, b: Action)
    ensures Exec(s, [a, b]) == Next(Next(s, a), b)
  {
    assert [a, b] == [a] + [b];
    ExecConcat(s, [a], [b]);
    ExecOne(s, a);
    ExecOne(Next(s, a), b);
  }

  lemma {:induction false} MarkAlone(s: State, t: Thread, c: ConnId)
    requires PcOf(s, t).Idle? && c in s.conns
    ensures Exec(s, [Test(t, c), Mark(t)])
            == if s.conns[c].open then SetPc(s.(conns := s.conns[c := s.conns[c].(open := false)]), t, Marked(c)) else s
  {
    ExecTwo(s, Test(t, c), Mark(t));
    assert s.pcs[t := Seen(c)][t := Marked(c)] == s.pcs[t := Marked(c)];
  }

  lemma {:induction false} LeaveAlone(s: State, t: Thread, c: ConnId)
    requires PcOf(s, t) == Marked(c) && c in s.conns
    ensures Exec(s, [Decrement(t), Unregister(t)])
            == State(s.conns, s.registry - (if s.conns[c].user != 0 then {s.conns[c].user} else {}),
                     s.userCount - 1, s.pcs[t := Idle])
  {
    ExecTwo(s, Decrement(t), Unregister(t));
    assert s.pcs[t := Counted(c)][t := Idle] == s.pcs[t := Idle];
    assert s.registry - {} == s.registry;
  }

  /** A `close_conn` that nobody interrupts closes an open connection once, and does nothing to a closed one. */
  lemma {:induction false} CloseAlone(s: State, t: Thread, c: ConnId)
    requires PcOf(s, t).Idle? && c in s.conns
    ensures Exec(s, CloseBy(t, c))
            == if !s.conns[c].open then s
               else State(s.conns[c := s.conns[c].(open := false)],
                          s.registry - (if s.conns[c].user != 0 then {s.conns[c].user} else {}),
                          s.userCount - 1, s.pcs[t := Idle])
  {
    assert CloseBy(t, c) == [Test(t, c), Mark(t)] + [Decrement(t), Unregister(t)];
    ExecConcat(s, [Test(t, c), Mark(t)], [Decrement(t), Unregister(t)]);
    MarkAlone(s, t, c);
    var m := Exec(s, [Test(t, c), Mark(t)]);
    if s.conns[c].open {
      LeaveAlone(m, t, c);
      assert m.pcs[t := Idle] == s.pcs[t := Idle];
    } else {
      ExecTwo(m, Decrement(t), Unregister(t));
    }
  }

  /** And so for a login: the user's entry names the connection, whether it is still open or not. */
  lemma {:induction false} LoginAlone(s: State, t: Thread, c: ConnId, u: User)
    requires PcOf(s, t).Idle? && c in s.conns && !s.conns[c].http
    ensures Exec(s, LoginBy(t, c, u))
            == State(s.conns[c := s.conns[c].(user := u)], s.registry[u := c], s.userCount, s.pcs[t := Idle])
  {
    ExecTwo(s, Assign(t, c, u), Register(t));
    assert s.pcs[t := Assigned(c, u)][t := Idle] == s.pcs[t := Idle];
  }

  // ---------- the classes behind it ----------

  /** The mutable connections, registry and counter; `Act` is one access, and `Run` any interleaving of them. */
  class Server {
    var conns: map<ConnId, Conn>
    var online: map<User, ConnId>
    var userCount: int
    var pcs: map<Thread, Pc>

    constructor ()
      ensures View() == EMPTY
    {
      conns, online, userCount, pcs := map[], map[], 0, map[];
    }

    function View(): State
      reads this
    {
      State(conns, online, userCount, pcs)
    }

    method AddClient(user: User, c: ConnId)
      modifies this`online
      ensures online == old(online)[user := c]
    {
      online := online[user := c];
    }

    method RemoveClient(user: User)
      modifies this`online
      ensures online == old(online) - {user}
    {
      if user in online {
        online := online - {user};
      }
    }

    /** One access of one thread. */
    method Act(a: Action)
      requires Enabled(View(), a)
      modifies this
      ensures View() == Step(old(View()), a)
    {
      match a
      case Init(c, http) =>
        userCount := userCount + 1;
        conns := conns[c := Conn(true, 0, http)];
      case Assign(t, c, u) =>
        conns := conns[c := conns[c].(user := u)];
        pcs := pcs[t := Assigned(c, u)];
      case Register(t) =>
        AddClient(pcs[t].user, pcs[t].c);
        pcs := pcs[t := Idle];
      case Test(t, c) =>
        if conns[c].open {
          pcs := pcs[t := Seen(c)];
        }
      case Mark(t) =>
        var c := pcs[t].c;
        conns := conns[c := conns[c].(open := false)];
        pcs := pcs[t := Marked(c)];
      case Decrement(t) =>
        userCount := userCount - 1;
        pcs := pcs[t := Counted(pcs[t].c)];
      case Unregister(t) =>
        var user := conns[pcs[t].c].user;
        if user != 0 {
          RemoveClient(user);
        }
        pcs := pcs[t := Idle];
    }

    /** `close_conn` from end to end, when no other thread gets in between. */
    method CloseConn(t: Thread, c: ConnId)
      requires PcOf(View(), t).Idle? && c in conns
      modifies this
      ensures View() == Exec(old(View()), CloseBy(t, c))
      ensures c in conns && !conns[c].open && (old(conns)[c].open ==> userCount == old(userCount) - 1)
      ensures !old(conns)[c].open ==> View() == old(View())
    {
      CloseAlone(View(), t, c);
      if conns[c].open {
        conns := conns[c := conns[c].(open := false)];
        userCount := userCount - 1;
        if conns[c].user != 0 {
          RemoveClient(conns[c].user);
        }
        pcs := pcs[t := Idle];
      }
    }

    /** `set_user_id` from end to end; the connection may have been closed by then. */
    method SetUserId(t: Thread, c: ConnId, user: User)
      requires PcOf(View(), t).Idle? && c in conns && !conns[c].http
      modifies this
      ensures View() == Exec(old(View()), LoginBy(t, c, user))
      ensures user in online && online[user] == c && conns == old(conns)[c := old(conns)[c].(user := user)]
    {
      LoginAlone(View(), t, c, user);
      conns := conns[c := conns[c].(user := user)];
      AddClient(user, c);
      pcs := pcs[t := Idle];
    }

    /** Any interleaving of accesses on a new server leads to the state the theorems below are about. */
    method Run(acts: seq<Action>)
      requires View() == EMPTY
      modifies this
      ensures View() == After(acts)
    {
      for i := 0 to |acts|
        invariant View() == After(acts[..i])
      {
        assert acts[..i + 1][..i] == acts[..i];
        if Enabled(View(), acts[i]) {
          Act(acts[i]);
        }
      }
      assert acts[..|acts|] == acts;
    }
  }

  // ---------- what holds of every reachable state ----------

  /** Threads stand at connections that exist, and one that has marked its connection keeps it closed. */
  ghost predicate WellFormed(s: State) {
    && (forall t :: !PcOf(s, t).Idle? ==> PcOf(s, t).c in s.conns)
    && (forall t :: PcOf(s, t).Marked? || PcOf(s, t).Counted? ==> !s.conns[PcOf(s, t).c].open)
    && (forall t :: PcOf(s, t).Assigned? ==> !s.conns[PcOf(s, t).c].http)
  }

  /** An action moves the thread that takes it and no other. */
  lemma OthersStay(s: State, a: Action, t: Thread)
    requires a.Init? || a.t != t
    ensures PcOf(Next(s, a), t) == PcOf(s, t)
  {
  }

  lemma NextWellFormed(s: State, a: Action)
    requires WellFormed(s)
    ensures WellFormed(Next(s, a))
  {
    forall t | a.Init? || a.t != t
      ensures PcOf(Next(s, a), t) == PcOf(s, t)
    {
      OthersStay(s, a, t);
    }
  }

  lemma {:induction false} RunWellFormed(acts: seq<Action>)
    ensures WellFormed(After(acts))
  {
    if |acts| > 0 {
      RunWellFormed(acts[..|acts| - 1]);
      NextWellFormed(After(acts[..|acts| - 1]), acts[|acts| - 1]);
    }
  }

  /** No thread is inside `close_conn` or `set_user_id`. */
  ghost predicate Quiet(s: State) {
    forall t :: PcOf(s, t).Idle?
  }

  // ---------- user_count ----------

  function Open(s: State): set<ConnId> {
    set c | c in s.conns && s.conns[c].open
  }

  /** Threads that have closed a connection and not counted it yet. */
  function Uncounted(s: State): set<Thread> {
    set t | t in s.pcs && s.pcs[t].Marked?
  }

  /** The action marks a connection that another thread has closed since the test. */
  predicate Doubles(s: State, a: Action) {
    a.Mark? && Enabled(s, a) && !s.conns[PcOf(s, a.t).c].open
  }

  function Doubled(acts: seq<Action>): nat {
    if |acts| == 0 then 0
    else Doubled(acts[..|acts| - 1]) + if Doubles(After(acts[..|acts| - 1]), acts[|acts| - 1]) then 1 else 0
  }

  lemma SizeWith(a: set<nat>, b: set<nat>, x: nat)
    requires a - {x} == b - {x}
    ensures |a| - (if x in a then 1 else 0) == |b| - (if x in b then 1 else 0)
  {
    assert a == if x in a then (a - {x}) + {x} else a - {x};
    assert b == if x in b then (b - {x}) + {x} else b - {x};
  }

  lemma OpenWith(s: State, c: ConnId, conn: Conn)
    ensures |Open(s.(conns := s.conns[c := conn]))|
            == |Open(s)| + (if conn.open then 1 else 0) - (if c in Open(s) then 1 else 0)
  {
    var now := Open(s.(conns := s.conns[c := conn]));
    assert c in now <==> conn.open;
    assert Open(s) - {c} == now - {c};
    SizeWith(Open(s), now, c);
  }

  lemma OpenAfter(s: State, a: Action)
    requires Enabled(s, a)
    ensures |Open(Step(s, a))| == |Open(s)| + (if a.Init? then 1 else if a.Mark? && !Doubles(s, a) then -1 else 0)
  {
    var s' := Step(s, a);
    if a.Init? || a.Assign? || a.Mark? {
      var c := if a.Mark? then PcOf(s, a.t).c else a.c;
      OpenWith(s, c, s'.conns[c]);
      assert Open(s') == Open(s.(conns := s.conns[c := s'.conns[c]]));
    } else {
      assert Open(s') == Open(s);
    }
  }

  lemma UncountedWith(s: State, t: Thread, p: Pc)
    ensures |Uncounted(SetPc(s, t, p))|
            == |Uncounted(s)| + (if p.Marked? then 1 else 0) - (if PcOf(s, t).Marked? then 1 else 0)
  {
    var now := Uncounted(SetPc(s, t, p));
    assert t in now <==> p.Marked?;
    assert Uncounted(s) - {t} == now - {t};
    SizeWith(Uncounted(s), now, t);
  }

  lemma UncountedAfter(s: State, a: Action)
    requires Enabled(s, a)
    ensures |Uncounted(Step(s, a))| == |Uncounted(s)| + (if a.Mark? then 1 else if a.Decrement? then -1 else 0)
  {
    var s' := Step(s, a);
    if !a.Init? && s'.pcs != s.pcs {
      UncountedWith(s, a.t, PcOf(s', a.t));
      assert Uncounted(s') == Uncounted(SetPc(s, a.t, PcOf(s', a.t)));
    } else {
      assert Uncounted(s') == Uncounted(s);
    }
  }

  /** The books of every run: open connections, decrements still to come, and connections closed twice. */
  lemma {:induction false} UserCountBalance(acts: seq<Action>)
    ensures var s := After(acts); s.userCount == |Open(s)| + |Uncounted(s)| - Doubled(acts)
  {
    if |acts| == 0 {
      assert Open(EMPTY) == {} && Uncounted(EMPTY) == {};
    } else {
      var s, a := After(acts[..|acts| - 1]), acts[|acts| - 1];
      UserCountBalance(acts[..|acts| - 1]);
      if Enabled(s, a) {
        OpenAfter(s, a);
        UncountedAfter(s, a);
      }
    }
  }

  /** No two threads have found the same connection open. */
  ghost predicate OneCloser(s: State) {
    forall t, u :: t != u && PcOf(s, t).Seen? && PcOf(s, u).Seen? ==> PcOf(s, t).c != PcOf(s, u).c
  }

  ghost predicate ClosesAlone(acts: seq<Action>) {
    forall i :: 0 <= i <= |acts| ==> OneCloser(After(acts[..i]))
  }

  ghost predicate SeenAreOpen(s: State) {
    forall t :: PcOf(s, t).Seen? ==> PcOf(s, t).c in s.conns && s.conns[PcOf(s, t).c].open
  }

  lemma NextKeepsSeenOpen(s: State, a: Action)
    requires SeenAreOpen(s) && OneCloser(s)
    ensures SeenAreOpen(Next(s, a)) && !Doubles(s, a)
  {
    forall t | a.Init? || a.t != t
      ensures PcOf(Next(s, a), t) == PcOf(s, t)
    {
      OthersStay(s, a, t);
    }
  }

  lemma {:induction false} AloneNeverDoubles(acts: seq<Action>)
    requires ClosesAlone(acts)
    ensures Doubled(acts) == 0 && SeenAreOpen(After(acts))
  {
    if |acts| > 0 {
      var before := acts[..|acts| - 1];
      forall i | 0 <= i <= |before|
        ensures OneCloser(After(before[..i]))
      {
        assert before[..i] == acts[..i];
      }
      AloneNeverDoubles(before);
      assert before[..|before|] == before;
      NextKeepsSeenOpen(After(before), acts[|acts| - 1]);
    }
  }

  /** A connection will be marked twice: two threads are about to, or one is and it is closed already. */
  ghost predicate WillDouble(s: State, c: ConnId) {
    exists t :: PcOf(s, t) == Seen(c) && c in s.conns
                && (!s.conns[c].open || exists u :: u != t && PcOf(s, u) == Seen(c))
  }

  lemma NextKeepsWillDouble(s: State, a: Action, c: ConnId)
    requires WillDouble(s, c)
    ensures WillDouble(Next(s, a), c) || Doubles(s, a)
  {
    if Enabled(s, a) {
      var s' := Step(s, a);
      var t :| PcOf(s, t) == Seen(c) && c in s.conns
               && (!s.conns[c].open || exists u :: u != t && PcOf(s, u) == Seen(c));
      if s.conns[c].open {
        var u :| u != t && PcOf(s, u) == Seen(c);
        if a == Mark(t) {
          assert PcOf(s', u) == Seen(c);
        } else {
          assert PcOf(s', t) == Seen(c);
          assert a == Mark(u) || PcOf(s', u) == Seen(c);
        }
      } else if a != Mark(t) {
        assert PcOf(s', t) == Seen(c);
      }
    }
  }

  /** Two threads that have found the same connection open end in a double close. */
  lemma {:induction false} TogetherDoubles(acts: seq<Action>, i: nat, c: ConnId)
    requires i <= |acts| && WillDouble(After(acts[..i]), c)
    ensures Doubled(acts) > 0 || WillDouble(After(acts), c)
  {
    if i == |acts| {
      assert acts[..i] == acts;
    } else {
      var before := acts[..|acts| - 1];
      assert before[..i] == acts[..i];
      TogetherDoubles(before, i, c);
      if WillDouble(After(before), c) {
        NextKeepsWillDouble(After(before), acts[|acts| - 1], c);
      }
    }
  }

  /**
   Once every thread has left `close_conn`, `user_count` is the number of open connections exactly when no two
   threads ever had found the same connection open at the same time.
   */
  lemma {:induction false} UserCountExactIff(acts: seq<Action>)
    requires Quiet(After(acts))
    ensures After(acts).userCount == |Open(After(acts))| <==> ClosesAlone(acts)
  {
    UserCountBalance(acts);
    assert forall t :: t in After(acts).pcs ==> PcOf(After(acts), t).Idle?;
    assert Uncounted(After(acts)) == {};
    if ClosesAlone(acts) {
      AloneNeverDoubles(acts);
    } else {
      var i :| 0 <= i <= |acts| && !OneCloser(After(acts[..i]));
      var s := After(acts[..i]);
      RunWellFormed(acts[..i]);
      var t, u :| t != u && PcOf(s, t).Seen? && PcOf(s, u).Seen? && PcOf(s, t).c == PcOf(s, u).c;
      assert PcOf(s, u) == Seen(PcOf(s, t).c);
      TogetherDoubles(acts, i, PcOf(s, t).c);
    }
  }

  ghost predicate Reachable(s: State) {
    exists acts :: After(acts) == s
  }

  lemma {:induction false} MoreReachable(s: State, more: seq<Action>)
    requires Reachable(s)
    ensures Reachable(Exec(s, more))
  {
    var acts :| After(acts) == s;
    ExecConcat(EMPTY, acts, more);
    assert After(acts + more) == Exec(s, more);
  }

  /** A server with one open connection. */
  lemma {:induction false} OneConnection(c: ConnId) returns (s: State)
    ensures Reachable(s) && s == State(map[c := Conn(true, 0, false)], map[], 1, map[])
  {
    ExecOne(EMPTY, Init(c, false));
    s := After([Init(c, false)]);
  }

  lemma {:induction false} BothMark(s: State, c: ConnId)
    requires s == State(map[c := Conn(true, 0, false)], map[], 1, map[])
    ensures Exec(Exec(s, [Test(1, c), Test(2, c)]), [Mark(1), Mark(2)])
            == State(map[c := Conn(false, 0, false)], map[], 1, map[1 := Marked(c), 2 := Marked(c)])
  {
    ExecTwo(s, Test(1, c), Test(2, c));
    ExecTwo(Exec(s, [Test(1, c), Test(2, c)]), Mark(1), Mark(2));
  }

  lemma {:induction false} BothCount(s: State, c: ConnId)
    requires s == State(map[c := Conn(false, 0, false)], map[], 1, map[1 := Marked(c), 2 := Marked(c)])
    ensures Exec(s, [Decrement(1), Decrement(2)]) == State(s.conns, map[], -1, map[1 := Counted(c), 2 := Counted(c)])
  {
    ExecTwo(s, Decrement(1), Decrement(2));
  }

  lemma {:induction false} BothLeave(s: State, c: ConnId)
    requires s == State(map[c := Conn(false, 0, false)], map[], -1, map[1 := Counted(c), 2 := Counted(c)])
    ensures Exec(s, [Unregister(1), Unregister(2)]) == State(s.conns, map[], -1, map[1 := Idle, 2 := Idle])
  {
    ExecTwo(s, Unregister(1), Unregister(2));
  }

  /** Two threads closing the same connection, step by step in turn, leave the count at minus one. */
  lemma {:induction false} UserCountCanBeOff()
    ensures exists s :: Reachable(s) && Quiet(s) && Open(s) == {} && s.userCount == -1
  {
    var s := OneConnection(0);
    BothMark(s, 0);
    MoreReachable(s, [Test(1, 0), Test(2, 0)]);
    MoreReachable(Exec(s, [Test(1, 0), Test(2, 0)]), [Mark(1), Mark(2)]);
    var m := State(map[0 := Conn(false, 0, false)], map[], 1, map[1 := Marked(0), 2 := Marked(0)]);
    BothCount(m, 0);
    MoreReachable(m, [Decrement(1), Decrement(2)]);
    var counted := Exec(m, [Decrement(1), Decrement(2)]);
    BothLeave(counted, 0);
    MoreReachable(counted, [Unregister(1), Unregister(2)]);
    var off := State(m.conns, map[], -1, map[1 := Idle, 2 := Idle]);
    assert Reachable(off) && Quiet(off) && Open(off) == {};
  }
}

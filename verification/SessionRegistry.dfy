/** What the registry of the push service is good for in every run of the session machine. */
module SessionRegistry {
  import opened Sessions

  /** Some thread has closed `c` and has yet to unregister its user. */
  ghost predicate BeingClosed(s: State, c: ConnId) {
    exists t :: PcOf(s, t) == Marked(c) || PcOf(s, t) == Counted(c)
  }

  /** The connection is open, or its entry is about to be erased. */
  ghost predicate Live(s: State, c: ConnId) {
    c in s.conns && (s.conns[c].open || BeingClosed(s, c))
  }

  ghost predicate EntryOk(s: State, u: User, c: ConnId) {
    u != 0 && Live(s, c) && s.conns[c].user == u && !s.conns[c].http
  }

  /** Every entry points to a live protobuf connection that carries the entry's user. */
  ghost predicate Sound(s: State) {
    forall u :: u in s.registry ==> EntryOk(s, u, s.registry[u])
  }

  /**
   When an action leaves the registry sound. Only the two halves of a login can break it: the assignment if the
   connection has the entry of another user, and the registration if it names no user (id 0 is what a failed
   lookup yields), if the connection has been given another user since, or if it has been closed and unregistered.
   */
  ghost predicate Keeps(s: State, a: Action)
    requires WellFormed(s)
  {
    match a
    case Assign(_, c, u) =>
      Enabled(s, a) ==>
        var was := s.conns[c].user; was == u || was !in s.registry || s.registry[was] != c
    case Register(t) =>
      Enabled(s, a) ==>
        var p := PcOf(s, t); p.user != 0 && s.conns[p.c].user == p.user && Live(s, p.c)
    case _ => true
  }

  lemma BeingClosedAfter(s: State, a: Action, c: ConnId)
    requires WellFormed(s) && !a.Unregister?
    ensures BeingClosed(s, c) ==> BeingClosed(Next(s, a), c)
    ensures !a.Mark? && BeingClosed(Next(s, a), c) ==> BeingClosed(s, c)
  {
    forall t | a.Init? || a.t != t
      ensures PcOf(Next(s, a), t) == PcOf(s, t)
    {
      OthersStay(s, a, t);
    }
    if BeingClosed(s, c) {
      var t :| PcOf(s, t) == Marked(c) || PcOf(s, t) == Counted(c);
      assert PcOf(Next(s, a), t) == Marked(c) || PcOf(Next(s, a), t) == Counted(c);
    }
  }

  lemma AssignSoundIff(s: State, a: Action)
    requires WellFormed(s) && Sound(s) && a.Assign?
    ensures Sound(Next(s, a)) <==> Keeps(s, a)
  {
    forall c
      ensures BeingClosed(s, c) <==> BeingClosed(Next(s, a), c)
    {
      BeingClosedAfter(s, a, c);
    }
  }

  lemma RegisterSoundIff(s: State, a: Action)
    requires WellFormed(s) && Sound(s) && a.Register?
    ensures Sound(Next(s, a)) <==> Keeps(s, a)
  {
    forall c
      ensures BeingClosed(s, c) <==> BeingClosed(Next(s, a), c)
    {
      BeingClosedAfter(s, a, c);
    }
    if Enabled(s, a) {
      var u := PcOf(s, a.t).user;
      assert u in Next(s, a).registry;
    }
  }

  lemma UnregisterSound(s: State, a: Action)
    requires WellFormed(s) && Sound(s) && a.Unregister?
    ensures Sound(Next(s, a))
  {
    if Enabled(s, a) {
      var s', c := Step(s, a), PcOf(s, a.t).c;
      forall u | u in s'.registry
        ensures EntryOk(s', u, s'.registry[u])
      {
        var d := s.registry[u];
        assert EntryOk(s, u, d) && d != c;
        if !s.conns[d].open {
          var t :| PcOf(s, t) == Marked(d) || PcOf(s, t) == Counted(d);
          OthersStay(s, a, t);
          assert PcOf(s', t) == PcOf(s, t);
        }
      }
    }
  }

  lemma OthersSound(s: State, a: Action)
    requires WellFormed(s) && Sound(s) && (a.Init? || a.Test? || a.Mark? || a.Decrement?)
    ensures Sound(Next(s, a))
  {
    forall c
      ensures BeingClosed(s, c) ==> BeingClosed(Next(s, a), c)
    {
      BeingClosedAfter(s, a, c);
    }
    if a.Mark? && Enabled(s, a) {
      assert PcOf(Next(s, a), a.t) == Marked(PcOf(s, a.t).c);
    }
  }

  /** From a sound registry an action leads to a sound one exactly when its condition holds. */
  lemma StepSoundIff(s: State, a: Action)
    requires WellFormed(s) && Sound(s)
    ensures Sound(Next(s, a)) <==> Keeps(s, a)
  {
    match a
    case Assign(_, _, _) => AssignSoundIff(s, a);
    case Register(_) => RegisterSoundIff(s, a);
    case Unregister(_) => UnregisterSound(s, a);
    case _ => OthersSound(s, a);
  }

  /** Every action of the run meets its condition. */
  ghost predicate AllKeep(acts: seq<Action>) {
    forall i :: 0 <= i < |acts| ==> WellFormed(After(acts[..i])) && Keeps(After(acts[..i]), acts[i])
  }

  lemma {:induction false} KeepingIsSound(acts: seq<Action>, n: nat)
    requires AllKeep(acts) && n <= |acts|
    ensures Sound(After(acts[..n]))
  {
    if n > 0 {
      KeepingIsSound(acts, n - 1);
      assert acts[..n][..n - 1] == acts[..n - 1];
      StepSoundIff(After(acts[..n - 1]), acts[n - 1]);
    }
  }

  /** For every run: the registry is sound throughout exactly when every login met its two conditions. */
  lemma {:induction false} AlwaysSoundIff(acts: seq<Action>)
    ensures (forall n :: 0 <= n <= |acts| ==> Sound(After(acts[..n]))) <==> AllKeep(acts)
  {
    if AllKeep(acts) {
      forall n | 0 <= n <= |acts|
        ensures Sound(After(acts[..n]))
      {
        KeepingIsSound(acts, n);
      }
    }
    if forall n :: 0 <= n <= |acts| ==> Sound(After(acts[..n])) {
      forall i | 0 <= i < |acts|
        ensures WellFormed(After(acts[..i])) && Keeps(After(acts[..i]), acts[i])
      {
        RunWellFormed(acts[..i]);
        assert acts[..i + 1][..i] == acts[..i];
        assert Sound(After(acts[..i])) && Sound(After(acts[..i + 1]));
        StepSoundIff(After(acts[..i]), acts[i]);
      }
    }
  }

  // ---------- runs of single logins ----------

  /** No connection logs in twice, and logins name a user. */
  ghost predicate LogsInOnce(acts: seq<Action>) {
    && (forall i, j :: 0 <= i < j < |acts| && acts[i].Assign? && acts[j].Assign? ==> acts[i].c != acts[j].c)
    && (forall i :: 0 <= i < |acts| && acts[i].Assign? ==> acts[i].user != 0)
  }

  /** No connection has been closed by the time its login is registered. */
  ghost predicate RegistersWhileOpen(acts: seq<Action>) {
    forall i :: 0 <= i < |acts| && acts[i].Register? && Enabled(After(acts[..i]), acts[i]) ==>
      var s := After(acts[..i]); var c := PcOf(s, acts[i].t).c; c in s.conns && s.conns[c].open
  }

  /** The run contains this login. */
  ghost predicate Named(acts: seq<Action>, c: ConnId, u: User) {
    exists i :: 0 <= i < |acts| && acts[i].Assign? && acts[i].c == c && acts[i].user == u
  }

  lemma {:induction false} NamedGrows(acts: seq<Action>, c: ConnId, u: User)
    requires |acts| > 0 && Named(acts[..|acts| - 1], c, u)
    ensures Named(acts, c, u)
  {
    var before := acts[..|acts| - 1];
    var i :| 0 <= i < |before| && before[i].Assign? && before[i].c == c && before[i].user == u;
    assert acts[i] == before[i];
  }

  /** A connection's user comes from a login on it. */
  lemma {:induction false} UserWasNamed(acts: seq<Action>, c: ConnId)
    requires c in After(acts).conns && After(acts).conns[c].user != 0
    ensures Named(acts, c, After(acts).conns[c].user)
  {
    if |acts| > 0 {
      var before, a := acts[..|acts| - 1], acts[|acts| - 1];
      if c in After(before).conns && After(before).conns[c].user == After(acts).conns[c].user {
        UserWasNamed(before, c);
        NamedGrows(acts, c, After(acts).conns[c].user);
      } else {
        assert acts[|acts| - 1].Assign? && a.c == c && a.user == After(acts).conns[c].user;
      }
    }
  }

  /** Between the halves of a single login the connection keeps the user it was given. */
  lemma {:induction false} AssignedIsCurrent(acts: seq<Action>, t: Thread)
    requires LogsInOnce(acts) && PcOf(After(acts), t).Assigned?
    ensures var s, p := After(acts), PcOf(After(acts), t);
            p.c in s.conns && s.conns[p.c].user == p.user && p.user != 0 && Named(acts, p.c, p.user)
  {
    if |acts| > 0 {
      var before, a := acts[..|acts| - 1], acts[|acts| - 1];
      var p := PcOf(After(acts), t);
      if a.Assign? && a.t == t && Enabled(After(before), a) {
        assert acts[|acts| - 1].c == p.c;
      } else {
        if a.Init? || a.t != t {
          OthersStay(After(before), a, t);
        }
        assert PcOf(After(before), t) == p;
        AssignedIsCurrent(before, t);
        NamedGrows(acts, p.c, p.user);
        var i :| 0 <= i < |before| && before[i].Assign? && before[i].c == p.c && before[i].user == p.user;
        assert acts[i] == before[i];
      }
    }
  }

  /** The first half of a single login finds a connection without a user. */
  lemma {:induction false} NotNamedBefore(acts: seq<Action>, a: Action)
    requires LogsInOnce(acts + [a]) && a.Assign? && a.c in After(acts).conns
    ensures After(acts).conns[a.c].user == 0
  {
    forall i | 0 <= i < |acts| && acts[i].Assign?
      ensures acts[i].c != a.c
    {
      assert (acts + [a])[i] == acts[i] && (acts + [a])[|acts|] == a;
    }
    if After(acts).conns[a.c].user != 0 {
      UserWasNamed(acts, a.c);
    }
  }

  /**
   In every run where no connection logs in twice and every login is registered before its connection is
   closed, each entry points to a connection of its user that is open or about to be unregistered.
   */
  lemma {:induction false} RegistryIsSound(acts: seq<Action>)
    requires LogsInOnce(acts) && RegistersWhileOpen(acts)
    ensures Sound(After(acts))
    ensures Quiet(After(acts)) ==>
              var s := After(acts); forall u :: u in s.registry ==> s.conns[s.registry[u]] == Conn(true, u, false)
  {
    if |acts| > 0 {
      var before, a := acts[..|acts| - 1], acts[|acts| - 1];
      forall i | 0 <= i <= |before|
        ensures before[..i] == acts[..i]
      {
      }
      RegistryIsSound(before);
      RunWellFormed(before);
      assert acts == before + [a];
      if a.Assign? && Enabled(After(before), a) {
        NotNamedBefore(before, a);
      } else if a.Register? && Enabled(After(before), a) {
        AssignedIsCurrent(before, a.t);
        assert acts[..|before|] == before && acts[|before|] == a;
      }
      StepSoundIff(After(before), a);
    }
  }

  // ---------- the other direction ----------

  /** Single logins, and no user on two connections. */
  ghost predicate OneConnectionPerUser(acts: seq<Action>) {
    && LogsInOnce(acts)
    && forall i, j :: 0 <= i < j < |acts| && acts[i].Assign? && acts[j].Assign? ==> acts[i].user != acts[j].user
  }

  /** The connection is the entry of its user, or its login is still to be registered. */
  ghost predicate Listed(s: State, c: ConnId)
    requires c in s.conns
  {
    var u := s.conns[c].user;
    (u in s.registry && s.registry[u] == c) || exists t :: PcOf(s, t) == Assigned(c, u)
  }

  ghost predicate Complete(s: State) {
    forall c :: c in s.conns && s.conns[c].open && s.conns[c].user != 0 ==> Listed(s, c)
  }

  ghost predicate UsersDiffer(s: State) {
    forall c, d :: c in s.conns && d in s.conns && c != d && s.conns[c].user != 0 ==> s.conns[c].user != s.conns[d].user
  }

  lemma NamedOnce(acts: seq<Action>, c: ConnId, d: ConnId, u: User)
    requires OneConnectionPerUser(acts) && Named(acts, c, u) && Named(acts, d, u)
    ensures c == d
  {
    var i :| 0 <= i < |acts| && acts[i].Assign? && acts[i].c == c && acts[i].user == u;
    var j :| 0 <= j < |acts| && acts[j].Assign? && acts[j].c == d && acts[j].user == u;
    assert i == j;
  }

  lemma {:induction false} NamedUsersDiffer(acts: seq<Action>)
    requires OneConnectionPerUser(acts)
    ensures UsersDiffer(After(acts))
  {
    var s := After(acts);
    forall c, d | c in s.conns && d in s.conns && c != d && s.conns[c].user != 0
      ensures s.conns[c].user != s.conns[d].user
    {
      if s.conns[c].user == s.conns[d].user {
        UserWasNamed(acts, c);
        UserWasNamed(acts, d);
        NamedOnce(acts, c, d, s.conns[c].user);
      }
    }
  }

  /** Every user whose login is under way is the one its connection has. */
  ghost predicate AssignedCurrent(s: State) {
    forall t :: PcOf(s, t).Assigned? ==>
      PcOf(s, t).c in s.conns && s.conns[PcOf(s, t).c].user == PcOf(s, t).user != 0
  }

  lemma NextComplete(s: State, a: Action)
    requires WellFormed(s) && Complete(s) && UsersDiffer(s) && AssignedCurrent(s)
    ensures Complete(Next(s, a))
  {
    var s' := Next(s, a);
    forall c | c in s'.conns && s'.conns[c].open && s'.conns[c].user != 0
      ensures Listed(s', c)
    {
      if a.Assign? && Enabled(s, a) && a.c == c {
        assert PcOf(s', a.t) == Assigned(c, s'.conns[c].user);
      } else {
        assert Listed(s, c) && s'.conns[c].user == s.conns[c].user;
        if exists t :: PcOf(s, t) == Assigned(c, s.conns[c].user) {
          var t :| PcOf(s, t) == Assigned(c, s.conns[c].user);
          if a.Init? || a.t != t {
            OthersStay(s, a, t);
          }
          assert PcOf(s', t) == PcOf(s, t) || s'.registry[s.conns[c].user] == c;
        }
      }
    }
  }

  /**
   The converse: in every run of single logins with no user on two connections, every open connection with a user
   is the entry of that user, unless its login is still to be registered.
   */
  lemma {:induction false} RegistryIsComplete(acts: seq<Action>)
    requires OneConnectionPerUser(acts)
    ensures Complete(After(acts))
  {
    if |acts| > 0 {
      var before := acts[..|acts| - 1];
      RegistryIsComplete(before);
      RunWellFormed(before);
      NamedUsersDiffer(before);
      forall t | PcOf(After(before), t).Assigned?
        ensures var s, p := After(before), PcOf(After(before), t);
                p.c in s.conns && s.conns[p.c].user == p.user != 0
      {
        AssignedIsCurrent(before, t);
      }
      NextComplete(After(before), acts[|acts| - 1]);
    }
  }

  // ---------- what the code does not promise ----------

  /**
   A login that completes after its connection was closed leaves an entry for a closed connection, since nothing
   in the login asks.
   */
  lemma {:induction false} LateLoginIsUnsound(u: User)
    requires u != 0
    ensures exists s, c :: Reachable(s) && Quiet(s) && u in s.registry && s.registry[u] == c
                           && c in s.conns && !s.conns[c].open && !Sound(s)
  {
    var s := OneConnection(0);
    CloseAlone(s, 1, 0);
    MoreReachable(s, CloseBy(1, 0));
    var s1 := Exec(s, CloseBy(1, 0));
    LoginAlone(s1, 2, 0, u);
    MoreReachable(s1, LoginBy(2, 0, u));
    var s2 := Exec(s1, LoginBy(2, 0, u));
    assert Quiet(s2) && s2.registry[u] == 0 && !s2.conns[0].open;
    assert !Live(s2, 0);
    assert !EntryOk(s2, u, s2.registry[u]);
  }

  /**
   What unregistering one connection does to another that is reachable by pushes: it stays reachable exactly
   when the two are not logged in as the same user. `remove_client` erases by user, not by connection.
   */
  lemma CloseUnregistersSameUser(s: State, t: Thread, d: ConnId)
    requires WellFormed(s) && Sound(s) && Enabled(s, Unregister(t)) && PcOf(s, t).c != d
    requires d in s.conns && s.conns[d].user in s.registry && s.registry[s.conns[d].user] == d
    ensures var s', u := Step(s, Unregister(t)), s.conns[d].user;
            && s'.conns == s.conns
            && (u in s'.registry && s'.registry[u] == d <==> s.conns[PcOf(s, t).c].user != u)
  {
  }

  /** And that happens: of two connections of one user, closing the first unregisters the second. */
  lemma {:induction false} SecondConnectionCanBeLost(u: User)
    requires u != 0
    ensures exists s :: Reachable(s) && Quiet(s) && 1 in s.conns
                        && s.conns[1] == Conn(true, u, false) && u !in s.registry
  {
    var s := OneConnection(0);
    ExecOne(s, Init(1, false));
    MoreReachable(s, [Init(1, false)]);
    var s0 := Exec(s, [Init(1, false)]);
    LoginAlone(s0, 1, 0, u);
    MoreReachable(s0, LoginBy(1, 0, u));
    var s1 := Exec(s0, LoginBy(1, 0, u));
    LoginAlone(s1, 1, 1, u);
    MoreReachable(s1, LoginBy(1, 1, u));
    var s2 := Exec(s1, LoginBy(1, 1, u));
    CloseAlone(s2, 1, 0);
    MoreReachable(s2, CloseBy(1, 0));
    var s3 := Exec(s2, CloseBy(1, 0));
    assert Quiet(s3) && s3.conns[1] == Conn(true, u, false) && u !in s3.registry;
  }
}

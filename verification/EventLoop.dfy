/**
 What the event loop of server/src/core/webserver.cpp does to the set of connections, as a run of happenings; the
 times at which timers are started are part of the happenings.
 */
module EventLoop {
  import opened HeapTimers

  const MAX_FD := 65536

  /** One result of `accept`; registering the socket with epoll can fail. */
  datatype Accept = Accept(fd: Int32, registers: bool)

  /** What the loop meets, in order. `WorkerCloses` is a step of the thread pool between two events. */
  datatype Event =
    | Listen(accepts: seq<Accept>)
    | Hangup(fd: int)
    | Ready(fd: int)
    | WorkerCloses(fd: int)

  datatype Turn = Turn(clock: int, events: seq<Event>)

  /** Connections that are not closed, descriptors in the epoll interest list, and when each timer was started. */
  datatype Conns = Conns(open: set<int>, registered: set<int>, seen: map<int, int>)

  /** The timers of `gone` fired in a check that ended at `at`; or an event was handled, starting timers at `times`. */
  datatype Happening = Fired(gone: set<int>, at: int) | Handled(e: Event, times: seq<int>)

  // ---------- accepting ----------

  /** The results of `accept` that one call of `DealListen_` asks for: all in edge-triggered mode, else one. */
  function Asked(et: bool, accepts: seq<Accept>): seq<Accept> {
    if et || |accepts| == 0 then accepts else accepts[..1]
  }

  /**
   The clients let in from position `i` on: those before the first failed `accept` and before the server is full.
   `accept` never returns a descriptor that is still open.
   */
  function AdmittedFrom(open: set<int>, accepts: seq<Accept>, i: nat): seq<Accept>
    requires i <= |accepts|
    decreases |accepts| - i
  {
    if i == |accepts| || accepts[i].fd <= 0 || |open| >= MAX_FD then []
    else if accepts[i].fd in open then AdmittedFrom(open, accepts, i + 1)
    else [accepts[i]] + AdmittedFrom(open + {accepts[i].fd}, accepts, i + 1)
  }

  function Admitted(open: set<int>, accepts: seq<Accept>): seq<Accept> {
    AdmittedFrom(open, accepts, 0)
  }

  /** `clients` have been let in before position `i`, and with those still to come they are `goal`. */
  ghost predicate LeftToAdmit(open: set<int>, accepts: seq<Accept>, i: nat, clients: seq<Accept>, goal: seq<Accept>) {
    i <= |accepts| && clients + AdmittedFrom(open, accepts, i) == goal
  }

  lemma {:induction false} NextAccept(open: set<int>, accepts: seq<Accept>, i: nat,
                                      clients: seq<Accept>, goal: seq<Accept>)
    requires LeftToAdmit(open, accepts, i, clients, goal)
    ensures i == |accepts| || accepts[i].fd <= 0 || |open| >= MAX_FD ==> clients == goal
    ensures i < |accepts| && accepts[i].fd > 0 && |open| < MAX_FD ==>
              if accepts[i].fd in open then LeftToAdmit(open, accepts, i + 1, clients, goal)
              else LeftToAdmit(open + {accepts[i].fd}, accepts, i + 1, clients + [accepts[i]], goal)
  {
    if i < |accepts| && accepts[i].fd > 0 && |open| < MAX_FD && accepts[i].fd !in open {
      var rest := AdmittedFrom(open + {accepts[i].fd}, accepts, i + 1);
      assert clients + ([accepts[i]] + rest) == (clients + [accepts[i]]) + rest;
    }
  }

  /** As long as there is room, everyone with a new descriptor is let in. */
  lemma {:induction false} AdmitsWhileRoom(open: set<int>, accepts: seq<Accept>, i: nat)
    requires i <= |accepts| && |open| + |accepts| - i <= MAX_FD
    requires forall j :: i <= j < |accepts| ==> accepts[j].fd > 0 && accepts[j].fd !in open
    requires forall j, k :: i <= j < k < |accepts| ==> accepts[j].fd != accepts[k].fd
    ensures AdmittedFrom(open, accepts, i) == accepts[i..]
    decreases |accepts| - i
  {
    if i < |accepts| {
      AdmitsWhileRoom(open + {accepts[i].fd}, accepts, i + 1);
      assert accepts[i..] == [accepts[i]] + accepts[i + 1..];
    }
  }

  /** Nobody is let in after a failed `accept`. */
  lemma {:induction false} AdmitsNoneAfterFailure(open: set<int>, accepts: seq<Accept>, i: nat, n: nat, a: Accept)
    requires i <= n < |accepts| && accepts[n].fd <= 0 && a in AdmittedFrom(open, accepts, i)
    ensures exists j :: i <= j < n && accepts[j] == a
    decreases n - i
  {
    if accepts[i].fd in open {
      AdmitsNoneAfterFailure(open, accepts, i + 1, n, a);
    } else if a != accepts[i] {
      AdmitsNoneAfterFailure(open + {accepts[i].fd}, accepts, i + 1, n, a);
    }
  }

  function Admit(c: Conns, a: Accept, at: int): Conns {
    Conns(c.open + {a.fd}, c.registered + (if a.registers then {a.fd} else {}), c.seen[a.fd := at])
  }

  function AdmitAll(c: Conns, clients: seq<Accept>, times: seq<int>): Conns
    requires |times| == |clients|
  {
    if |clients| == 0 then c
    else
      var n := |clients| - 1;
      Admit(AdmitAll(c, clients[..n], times[..n]), clients[n], times[n])
  }

  lemma {:induction false} AdmitOneMore(c: Conns, clients: seq<Accept>, times: seq<int>, a: Accept, at: int)
    requires |times| == |clients|
    ensures AdmitAll(c, clients + [a], times + [at]) == Admit(AdmitAll(c, clients, times), a, at)
  {
    assert (clients + [a])[..|clients|] == clients && (times + [at])[..|times|] == times;
  }

  /** Exactly the clients let in are open in addition. */
  lemma {:induction false} OpenAfterAdmitting(c: Conns, clients: seq<Accept>, times: seq<int>, fd: int)
    requires |times| == |clients|
    ensures fd in AdmitAll(c, clients, times).open <==>
              fd in c.open || exists i :: 0 <= i < |clients| && clients[i].fd == fd
    ensures fd in AdmitAll(c, clients, times).registered <==>
              fd in c.registered || exists i :: 0 <= i < |clients| && clients[i].fd == fd && clients[i].registers
  {
    if |clients| > 0 {
      var n := |clients| - 1;
      OpenAfterAdmitting(c, clients[..n], times[..n], fd);
      assert forall i :: 0 <= i < n ==> clients[..n][i] == clients[i];
    }
  }

  // ---------- runs ----------

  function After(et: bool, c: Conns, h: Happening): Conns {
    match h
    case Fired(gone, _) => Conns(c.open - gone, c.registered - gone, c.seen - gone)
    case Handled(Listen(accepts), times) =>
      var clients := Admitted(c.open, Asked(et, accepts));
      if |times| == |clients| then AdmitAll(c, clients, times) else c
    case Handled(Hangup(fd), _) => c.(open := c.open - {fd}, registered := c.registered - {fd})
    case Handled(WorkerCloses(fd), _) => c.(open := c.open - {fd}, registered := c.registered - {fd})
    case Handled(Ready(fd), times) => if |times| == 1 then c.(seen := c.seen[fd := times[0]]) else c
  }

  function Run(et: bool, c: Conns, log: seq<Happening>): Conns {
    if |log| == 0 then c else After(et, Run(et, c, log[..|log| - 1]), log[|log| - 1])
  }

  lemma {:induction false} RunConcat(et: bool, c: Conns, a: seq<Happening>, b: seq<Happening>)
    ensures Run(et, c, a + b) == Run(et, Run(et, c, a), b)
  {
    if |b| == 0 {
      assert a + b == a;
    } else {
      RunConcat(et, c, a, b[..|b| - 1]);
      assert (a + b)[..|a + b| - 1] == a + b[..|b| - 1];
    }
  }

  lemma {:induction false} RunOne(et: bool, c: Conns, h: Happening)
    ensures Run(et, c, [h]) == After(et, c, h)
  {
    assert [h][..0] == [];
  }

  /** The client was let in by this happening. */
  ghost predicate Opens(et: bool, c: Conns, h: Happening, fd: int) {
    && h.Handled? && h.e.Listen?
    && var clients := Admitted(c.open, Asked(et, h.e.accepts));
      |h.times| == |clients| && exists i :: 0 <= i < |clients| && clients[i].fd == fd
  }

  /** The peer hung up, a worker closed the connection, or its timer fired. */
  predicate Closes(h: Happening, fd: int) {
    match h
    case Fired(gone, _) => fd in gone
    case Handled(e, _) => (e.Hangup? || e.WorkerCloses?) && e.fd == fd
  }

  lemma {:induction false} OpenStep(et: bool, c: Conns, h: Happening, fd: int)
    ensures fd in After(et, c, h).open <==> Opens(et, c, h, fd) || (fd in c.open && !Closes(h, fd))
    ensures Opens(et, c, h, fd) ==> !Closes(h, fd)
  {
    if h.Handled? && h.e.Listen? {
      var clients := Admitted(c.open, Asked(et, h.e.accepts));
      if |h.times| == |clients| {
        OpenAfterAdmitting(c, clients, h.times, fd);
      }
    }
  }

  /** Open at the start, or let in by the happening before position `i`. */
  ghost predicate OpenedBy(et: bool, c: Conns, log: seq<Happening>, i: nat, fd: int)
    requires i <= |log|
  {
    if i == 0 then fd in c.open else Opens(et, Run(et, c, log[..i - 1]), log[i - 1], fd)
  }

  ghost predicate OpenSince(et: bool, c: Conns, log: seq<Happening>, i: nat, fd: int)
    requires i <= |log|
  {
    OpenedBy(et, c, log, i, fd) && forall j :: i <= j < |log| ==> !Closes(log[j], fd)
  }

  /** A descriptor is open at the end exactly if it was open or let in, and nothing has closed it since then. */
  lemma {:induction false} OpenIff(et: bool, c: Conns, log: seq<Happening>, fd: int)
    ensures fd in Run(et, c, log).open <==> exists i :: 0 <= i <= |log| && OpenSince(et, c, log, i, fd)
  {
    if |log| == 0 {
      assert OpenSince(et, c, log, 0, fd) <==> fd in c.open;
    } else {
      var n := |log| - 1;
      var before, h := log[..n], log[n];
      OpenIff(et, c, before, fd);
      OpenStep(et, Run(et, c, before), h, fd);
      forall i | 0 <= i <= n
        ensures OpenSince(et, c, log, i, fd) <==> OpenSince(et, c, before, i, fd) && !Closes(h, fd)
      {
        SinceGrows(et, c, log, i, fd);
      }
      assert OpenSince(et, c, log, |log|, fd) <==> Opens(et, Run(et, c, before), h, fd);
      if exists i :: 0 <= i <= |log| && OpenSince(et, c, log, i, fd) {
        var i :| 0 <= i <= |log| && OpenSince(et, c, log, i, fd);
        assert i == |log| || (0 <= i <= |before| && OpenSince(et, c, before, i, fd));
      }
      if fd in Run(et, c, before).open && !Closes(h, fd) {
        var i :| 0 <= i <= |before| && OpenSince(et, c, before, i, fd);
        assert 0 <= i <= |log| && OpenSince(et, c, log, i, fd);
      }
    }
  }

  lemma {:induction false} SinceGrows(et: bool, c: Conns, log: seq<Happening>, i: nat, fd: int)
    requires |log| > 0 && i < |log|
    ensures OpenSince(et, c, log, i, fd) <==>
              OpenSince(et, c, log[..|log| - 1], i, fd) && !Closes(log[|log| - 1], fd)
  {
    var before := log[..|log| - 1];
    assert forall j :: 0 <= j < |before| ==> before[j] == log[j];
    if i > 0 {
      assert before[..i - 1] == log[..i - 1];
    }
  }

  // ---------- scripts ----------

  /** Whether epoll can deliver the event: descriptors come from the interest list. */
  predicate Deliverable(registered: set<int>, e: Event) {
    (e.Hangup? || e.Ready?) ==> e.fd in registered
  }

  /** The events of the script that can be delivered, in order. */
  function Delivered(registered: set<int>, events: seq<Event>): seq<Event> {
    if |events| == 0 then []
    else
      var e := events[|events| - 1];
      Delivered(registered, events[..|events| - 1]) + if Deliverable(registered, e) then [e] else []
  }

  /** The happenings are the handling of these events. */
  ghost predicate HandlesAll(log: seq<Happening>, events: seq<Event>) {
    |log| == |events| && forall i :: 0 <= i < |log| ==> log[i].Handled? && log[i].e == events[i]
  }

  /** Silent at time `t` for more than the timeout less a millisecond. */
  predicate Silent(timeoutMs: int, since: map<int, int>, fd: int, t: int)
    requires fd in since
  {
    t - since[fd] > timeoutMs * MS - MS
  }

  /** A check of the timers, begun at `clock`: only silent connections, and all that were silent then. */
  ghost predicate FiresRightly(timeoutMs: int, c: Conns, clock: int, h: Happening) {
    && h.Fired? && clock <= h.at
    && (forall fd :: fd in h.gone ==> fd in c.seen && Silent(timeoutMs, c.seen, fd, h.at))
    && (forall fd :: fd in c.seen && Silent(timeoutMs, c.seen, fd, clock) ==> fd in h.gone)
  }

  lemma FiresSooner(timeoutMs: int, c: Conns, clock: int, later: int, h: Happening)
    requires clock <= later && FiresRightly(timeoutMs, c, later, h)
    ensures FiresRightly(timeoutMs, c, clock, h)
  {
    assert forall fd :: fd in c.seen && Silent(timeoutMs, c.seen, fd, clock) ==> Silent(timeoutMs, c.seen, fd, later);
  }

  lemma HandlesOneMore(log: seq<Happening>, events: seq<Event>, i: nat, times: seq<int>)
    requires i < |events| && HandlesAll(log, events[..i])
    ensures HandlesAll(log + [Handled(events[i], times)], events[..i + 1])
  {
  }

  /** No timer is dropped between two moments, and none is moved but to a later reading of the clock. */
  ghost predicate Refreshed(seen: map<int, int>, now: int, seen': map<int, int>, now': int) {
    && now <= now'
    && forall fd :: fd in seen ==> fd in seen' && (seen'[fd] == seen[fd] || now <= seen'[fd] <= now')
  }

  lemma RefreshedTwice(seen: map<int, int>, now: int, seen1: map<int, int>, now1: int, seen2: map<int, int>, now2: int)
    requires Refreshed(seen, now, seen1, now1) && Refreshed(seen1, now1, seen2, now2)
    ensures Refreshed(seen, now, seen2, now2)
  {
  }

  predicate Within(times: seq<int>, from: int, to: int) {
    forall i :: 0 <= i < |times| ==> from <= times[i] <= to
  }

  /** Every descriptor that was ready has been seen since. */
  ghost predicate ReadySeen(events: seq<Event>, n: nat, seen: map<int, int>, since: int) {
    forall i :: 0 <= i < n && i < |events| && events[i].Ready? ==> events[i].fd in seen && since <= seen[events[i].fd]
  }

  lemma ReadySeenOneMore(events: seq<Event>, i: nat, seen: map<int, int>, since: int, now: int,
                         seen': map<int, int>, now': int)
    requires i < |events| && since <= now && ReadySeen(events, i, seen, since) && Refreshed(seen, now, seen', now')
    requires events[i].Ready? ==> events[i].fd in seen' && now <= seen'[events[i].fd]
    ensures ReadySeen(events, i + 1, seen', since)
  {
    forall j | 0 <= j <= i && events[j].Ready?
      ensures events[j].fd in seen' && since <= seen'[events[j].fd]
    {
    }
  }

  /** One turn of the loop: the timers, then every event that can be delivered after that; `cut` if it ended there. */
  ghost predicate TurnOk(et: bool, timeoutMs: int, c: Conns, turn: Turn, log: seq<Happening>, cut: bool) {
    && |log| > 0 && FiresRightly(timeoutMs, c, turn.clock, log[0])
    && if cut then |log| == 1
       else HandlesAll(log[1..], Delivered(After(et, c, log[0]).registered, turn.events))
  }

  function Flat(logs: seq<seq<Happening>>): seq<Happening> {
    if |logs| == 0 then [] else Flat(logs[..|logs| - 1]) + logs[|logs| - 1]
  }

  /** The run follows the script turn by turn; if `cut`, its last turn ended after the timers. */
  ghost predicate Follows(et: bool, timeoutMs: int, c: Conns, turns: seq<Turn>, logs: seq<seq<Happening>>, cut: bool) {
    && |logs| <= |turns|
    && forall k :: 0 <= k < |logs| ==>
         TurnOk(et, timeoutMs, Run(et, c, Flat(logs[..k])), turns[k], logs[k], cut && k == |logs| - 1)
  }

  lemma {:induction false} FollowsOneMore(et: bool, timeoutMs: int, c: Conns, turns: seq<Turn>,
                                          logs: seq<seq<Happening>>, log: seq<Happening>, cut: bool)
    requires Follows(et, timeoutMs, c, turns, logs, false) && |logs| < |turns|
    requires TurnOk(et, timeoutMs, Run(et, c, Flat(logs)), turns[|logs|], log, cut)
    ensures Follows(et, timeoutMs, c, turns, logs + [log], cut)
    ensures Run(et, c, Flat(logs + [log])) == Run(et, Run(et, c, Flat(logs)), log)
  {
    var all := logs + [log];
    assert all[..|logs|] == logs;
    forall k | 0 <= k < |logs|
      ensures all[..k] == logs[..k] && all[k] == logs[k]
    {
    }
    RunConcat(et, c, Flat(logs), log);
  }
}

/**
 The event loop of server/src/core/webserver.cpp as the driver of the timer and of the set of
 connections. The kernel and the worker threads are the script handed to `Start`.
 */
module Webservers {
  import opened TimerHeap
  import opened HeapTimers
  import opened EventLoop

  class Webserver {
    const timer: HeapTimer
    const timeoutMs: int
    const listenEt: bool              // the listening socket is edge-triggered
    var connections: set<int>         // keys of connections_
    var open: set<int>                // those whose is_close_ is false
    var registered: set<int>          // the epoll interest list
    var now: int                      // latest clock reading
    ghost var lastSeen: map<int, int> // last accept, read or write event of each fd that has a timer

    constructor (timeoutMs: int, listenEt: bool, now: int)
      requires timeoutMs > 0
      ensures Valid() && fresh(timer) && View() == Conns({}, {}, map[])
      ensures this.timeoutMs == timeoutMs && this.listenEt == listenEt
    {
      timer := new HeapTimer();
      this.timeoutMs, this.listenEt := timeoutMs, listenEt;
      this.now := now;
      connections, open, registered, lastSeen := {}, {}, {}, map[];
    }

    /**
     Every timer stands one timeout after the last event, and every open connection has one; the timer's
     `ref_` may be wrong.
     */
    ghost predicate Timed()
      reads this, timer
    {
      && timer.Sorted() && timeoutMs > 0
      && timer.Timers().Keys == lastSeen.Keys
      && (forall fd :: fd in lastSeen ==> lastSeen[fd] <= now && timer.Timers()[fd] == lastSeen[fd] + timeoutMs * MS)
      && registered <= open <= connections * lastSeen.Keys
    }

    /** The state that the runs of module `EventLoop` are about. */
    ghost function View(): Conns
      reads this
    {
      Conns(open, registered, lastSeen)
    }

    ghost predicate Valid()
      reads this, timer
    {
      Timed() && timer.Exact()
    }

    /** The clock did not run backwards, no timer was dropped, and none was moved but to a later reading. */
    twostate predicate OnlyRefreshed()
      reads this
    {
      Refreshed(old(lastSeen), old(now), lastSeen, now) && connections >= old(connections)
    }

    method AdvanceTo(clock: int)
      requires Valid()
      modifies this`now
      ensures Valid() && old(now) <= now && clock <= now
    {
      now := if clock > now then clock else now;
    }

    /** A reading of the clock, any time later. */
    method ReadClock()
      requires Valid()
      modifies this`now
      ensures Valid() && old(now) <= now
    {
      var later: int := *;
      AdvanceTo(later);
    }

    method CloseConn(fd: int)
      requires Valid()
      modifies this`open, this`registered
      ensures Valid() && open == old(open) - {fd} && registered == old(registered) - {fd}
    {
      registered := registered - {fd};
      open := open - {fd};
    }

    /** The timer part of `AddClient_`. */
    method StartTimer(fd: Int32)
      requires Valid() && fd >= 0
      modifies timer, this`lastSeen
      ensures Valid() && lastSeen == old(lastSeen)[fd := now]
    {
      var outside, overflows := timer.Add(fd, timeoutMs, now);
      lastSeen := lastSeen[fd := now];
    }

    method AddClient(a: Accept)
      requires Valid() && a.fd > 0 && a.fd !in open
      modifies this, timer
      ensures Valid() && old(now) <= now
      ensures open == old(open) + {a.fd} && connections == old(connections) + {a.fd}
      ensures registered == old(registered) + if a.registers then {a.fd} else {}
      ensures lastSeen == old(lastSeen)[a.fd := now]
    {
      ReadClock();
      connections := connections + {a.fd};
      StartTimer(a.fd);
      open := open + {a.fd};
      if a.registers {
        registered := registered + {a.fd};
      }
    }

    /** Since `start`, when the state was `c`, exactly `clients` have been let in. */
    ghost predicate LetInSince(c: Conns, start: int, clients: seq<Accept>, times: seq<int>)
      reads this
    {
      && |times| == |clients| && View() == AdmitAll(c, clients, times)
      && Refreshed(c.seen, start, lastSeen, now) && Within(times, start, now)
    }

    /** One more client is let in. */
    method LetIn(a: Accept, ghost c: Conns, ghost start: int, ghost clients: seq<Accept>, ghost times: seq<int>)
      requires Valid() && a.fd > 0 && a.fd !in open && LetInSince(c, start, clients, times)
      modifies this, timer
      ensures Valid() && connections >= old(connections) && open == old(open) + {a.fd}
      ensures LetInSince(c, start, clients + [a], times + [now])
    {
      ghost var seen, t := lastSeen, now;
      AddClient(a);
      RefreshedTwice(c.seen, start, seen, t, lastSeen, now);
      AdmitOneMore(c, clients, times, a, now);
    }

    /** One more result of `accept`, the `i`-th of those asked for. */
    method AcceptOne(asked: seq<Accept>, i: nat, ghost goal: seq<Accept>,
                     ghost c: Conns, ghost start: int, ghost clients: seq<Accept>, ghost times: seq<int>)
      returns (ghost clients': seq<Accept>, ghost times': seq<int>)
      requires Valid() && LetInSince(c, start, clients, times) && LeftToAdmit(open, asked, i, clients, goal)
      requires i < |asked| && asked[i].fd > 0 && |open| < MAX_FD
      modifies this, timer
      ensures Valid() && connections >= old(connections)
      ensures LetInSince(c, start, clients', times') && LeftToAdmit(open, asked, i + 1, clients', goal)
    {
      NextAccept(open, asked, i, clients, goal);
      clients', times' := clients, times;
      if asked[i].fd !in open {
        LetIn(asked[i], c, start, clients, times);
        clients', times' := clients + [asked[i]], times + [now];
      }
    }

    /**
     Lets in exactly the clients before the first failed `accept` and before the server is full, and starts
     a timer for each at a time within the call.
     */
    method DealListen(accepts: seq<Accept>) returns (ghost times: seq<int>)
      requires Valid()
      modifies this, timer
      ensures Valid() && OnlyRefreshed()
      ensures var clients := Admitted(old(open), Asked(listenEt, accepts));
              |times| == |clients| && View() == AdmitAll(old(View()), clients, times)
      ensures Within(times, old(now), now)
    {
      var asked := Asked(listenEt, accepts);
      ghost var c, start, known, goal := View(), now, connections, Admitted(open, asked);
      ghost var clients: seq<Accept> := [];
      times := [];
      var i := 0;
      while i < |asked| && asked[i].fd > 0 && |open| < MAX_FD
        invariant 0 <= i <= |asked| && Valid() && connections >= known && LetInSince(c, start, clients, times)
        invariant LeftToAdmit(open, asked, i, clients, goal)
        decreases |asked| - i
      {
        clients, times := AcceptOne(asked, i, goal, c, start, clients, times);
        i := i + 1;
      }
      NextAccept(open, asked, i, clients, goal);
    }

    /**
     `DealRead_` and `DealWrite_` refresh the timer. The requirement is the assertion of `Adjust`; heap
     order survives because no stored expiry lies after the new one.
     */
    method ExtendTime(fd: int)
      requires Valid() && fd in lastSeen
      modifies this`now, this`lastSeen, timer
      ensures Valid() && old(now) <= now && lastSeen == old(lastSeen)[fd := now]
    {
      ReadClock();
      ghost var slot := timer.refs[fd];
      assert slot > 0 ==> timer.heap[Parent(slot)].expires <= now + timeoutMs * MS by {
        if slot > 0 {
          var up := timer.heap[Parent(slot)];
          assert timer.Timers()[up.id] == up.expires;
        }
      }
      timer.Adjust(fd, timeoutMs, now);
      lastSeen := lastSeen[fd := now];
    }

    /** The timers of `gone` have fired and their callbacks are still to run. */
    ghost predicate TimedBut(gone: set<int>)
      reads this, timer
    {
      && timer.Sorted() && timeoutMs > 0
      && timer.Timers().Keys == lastSeen.Keys - gone
      && (forall fd :: fd in lastSeen && fd !in gone ==>
            lastSeen[fd] <= now && timer.Timers()[fd] == lastSeen[fd] + timeoutMs * MS)
      && registered <= open <= connections * lastSeen.Keys
    }

    /** The timer callback, once per fired descriptor: the timer is gone and the connection is closed. */
    method CloseFired(gone: set<int>)
      requires TimedBut(gone)
      modifies this`open, this`registered, this`lastSeen
      ensures Timed() && View() == Conns(old(open) - gone, old(registered) - gone, old(lastSeen) - gone)
    {
      open := open - gone;
      registered := registered - gone;
      lastSeen := lastSeen - gone;
    }

    /** `GetNextTick` in terms of the last events: `gone` are the descriptors whose timers fired. */
    method RunTimer(asWritten: bool) returns (gone: set<int>, broken: bool)
      requires Valid()
      modifies timer, this`now
      ensures TimedBut(gone) && old(now) <= now && gone <= lastSeen.Keys
      ensures FiresRightly(timeoutMs, View(), old(now), Fired(gone, now))
      ensures broken <==> asWritten && gone != {} && |lastSeen| > 1
      ensures timer.Exact() <==> !broken
      ensures broken ==> timer.FrontLost()
    {
      AsManyTimers(timer.heap, timer.index);
      SameSize(timer.Timers(), lastSeen);
      ghost var timers, t0 := timer.Timers(), now;
      var size := |timer.heap|;
      var wait, fired, t1, t2, least := timer.GetNextTick(now, asWritten);
      gone := set fd | fd in fired;
      broken := asWritten && |fired| > 0 && size != 1;
      if |fired| > 0 {
        assert fired[0] in gone && timers != map[];
      } else {
        assert gone == {};
      }
      FiredAreSilent(timeoutMs, View(), timers, gone, t0, t1, t2);
      now := t2;
    }

    /** The check itself, from the latest clock reading on. */
    method CheckNow(asWritten: bool) returns (gone: set<int>, broken: bool)
      requires Valid()
      modifies this, timer
      ensures Timed() && connections == old(connections) && old(now) <= now
      ensures FiresRightly(timeoutMs, old(View()), old(now), Fired(gone, now))
      ensures View() == After(listenEt, old(View()), Fired(gone, now))
      ensures broken <==> asWritten && gone != {} && |old(lastSeen)| > 1
      ensures timer.Exact() <==> !broken
      ensures broken ==> timer.FrontLost()
    {
      gone, broken := RunTimer(asWritten);
      CloseFired(gone);
    }

    /**
     The timer check at the head of each turn closes the descriptors `gone` and no others: only such that have been
     silent for more than the timeout less one millisecond, and all that silent. With line 53 of the timer
     `asWritten`, this breaks the back index exactly when a timer fires and it was not the only one.
     */
    method CheckTimers(clock: int, asWritten: bool) returns (gone: set<int>, broken: bool)
      requires Valid()
      modifies this, timer
      ensures Timed() && connections == old(connections) && old(now) <= now && clock <= now
      ensures FiresRightly(timeoutMs, old(View()), clock, Fired(gone, now))
      ensures View() == After(listenEt, old(View()), Fired(gone, now))
      ensures broken <==> asWritten && gone != {} && |old(lastSeen)| > 1
      ensures Valid() <==> !broken
      ensures broken ==> timer.FrontLost()
    {
      ghost var c := View();
      AdvanceTo(clock);
      ghost var t := now;
      gone, broken := CheckNow(asWritten);
      FiresSooner(timeoutMs, c, clock, t, Fired(gone, now));
    }

    /**
     One event of a batch whose descriptor has a connection object and a timer, open or not. A hang-up and a close
     by a worker take the descriptor out of the open ones and off epoll, and leave its timer; an event restarts
     the timer; the listening socket lets clients in.
     */
    method HandleEvent(e: Event) returns (ghost times: seq<int>)
      requires Valid() && (e.Hangup? || e.Ready? ==> e.fd in connections && e.fd in lastSeen)
      modifies this, timer
      ensures Valid() && OnlyRefreshed()
      ensures View() == After(listenEt, old(View()), Handled(e, times))
      ensures e.Hangup? || e.WorkerCloses? ==>
                open == old(open) - {e.fd} && registered == old(registered) - {e.fd} && lastSeen == old(lastSeen)
      ensures e.Ready? ==> open == old(open) && registered == old(registered) && lastSeen == old(lastSeen)[e.fd := now]
      ensures e.Listen? ==> |times| == |Admitted(old(open), Asked(listenEt, e.accepts))|
      ensures Within(times, old(now), now)
    {
      times := [];
      match e
      case Listen(accepts) => times := DealListen(accepts);
      case Hangup(fd) => CloseConn(fd);
      case Ready(fd) =>
        ExtendTime(fd);
        times := [now];
      case WorkerCloses(fd) => CloseConn(fd);
    }

    /**
     One batch of events. The batch was collected before it is handled, so a descriptor in it may be
     closed by then; its connection object and its timer are still there, which is what the lookups
     and the assertion of `Adjust` rely on. Every descriptor that was ready has its timer restarted, and
     no timer is dropped; the clock may advance at every event.
     */
    method HandleBatch(events: seq<Event>) returns (ghost log: seq<Happening>)
      requires Valid() && forall i :: 0 <= i < |events| ==> Deliverable(registered, events[i])
      modifies this, timer
      ensures Valid() && OnlyRefreshed()
      ensures HandlesAll(log, events) && View() == Run(listenEt, old(View()), log)
      ensures ReadySeen(events, |events|, lastSeen, old(now))
    {
      ghost var live, start, c, known := registered, now, View(), connections;
      log := [];
      for i := 0 to |events|
        invariant Valid() && Refreshed(c.seen, start, lastSeen, now) && connections >= known
        invariant live <= connections * lastSeen.Keys
        invariant HandlesAll(log, events[..i]) && View() == Run(listenEt, c, log)
        invariant ReadySeen(events, i, lastSeen, start)
      {
        ghost var seen, t := lastSeen, now;
        ghost var times := HandleEvent(events[i]);
        ReadySeenOneMore(events, i, seen, start, t, lastSeen, now);
        RefreshedTwice(c.seen, start, seen, t, lastSeen, now);
        RunOneMore(listenEt, c, log, Handled(events[i], times));
        HandlesOneMore(log, events, i, times);
        log := log + [Handled(events[i], times)];
      }
      assert events[..|events|] == events;
    }

    /** The events of the script that epoll can deliver. */
    method Collect(events: seq<Event>) returns (batch: seq<Event>)
      ensures batch == Delivered(registered, events)
      ensures forall j :: 0 <= j < |batch| ==> Deliverable(registered, batch[j])
    {
      batch := [];
      for i := 0 to |events|
        invariant batch == Delivered(registered, events[..i])
        invariant forall j :: 0 <= j < |batch| ==> Deliverable(registered, batch[j])
      {
        assert events[..i + 1][..i] == events[..i];
        if Deliverable(registered, events[i]) {
          batch := batch + [events[i]];
        }
      }
      assert events[..|events|] == events;
    }

    /** One turn of the loop. */
    method DoTurn(turn: Turn, asWritten: bool) returns (broken: bool, ghost log: seq<Happening>)
      requires Valid()
      modifies this, timer
      ensures Timed() && now >= old(now)
      ensures TurnOk(listenEt, timeoutMs, old(View()), turn, log, broken)
      ensures View() == Run(listenEt, old(View()), log)
      ensures broken ==> asWritten && timer.FrontLost()
      ensures Valid() <==> !broken
    {
      var gone;
      gone, broken := CheckTimers(turn.clock, asWritten);
      ghost var fired := Fired(gone, now);
      log := [fired];
      RunOne(listenEt, old(View()), fired);
      if !broken {
        var batch := Collect(turn.events);
        ghost var handled := HandleBatch(batch);
        RunConcat(listenEt, old(View()), log, handled);
        log := log + handled;
        assert log[1..] == handled;
      }
    }

    /**
     The loop of `Start`, over any finite script of clock readings and events. The run it makes follows the
     script, so by `OpenIff` a descriptor is open at the end exactly if it was open or let in, and since then
     neither hung up, closed by a worker nor timed out. With line 53 of the timer as intended the back index is
     never broken; with the line `asWritten` all is well up to the first check that fires one of several timers,
     where the run of the model ends.
     */
    method Start(turns: seq<Turn>, asWritten: bool) returns (broken: bool, ghost logs: seq<seq<Happening>>)
      requires Valid()
      modifies this, timer
      ensures Timed() && now >= old(now)
      ensures Follows(listenEt, timeoutMs, old(View()), turns, logs, broken)
      ensures View() == Run(listenEt, old(View()), Flat(logs)) && (!broken ==> |logs| == |turns|)
      ensures broken ==> asWritten && timer.FrontLost()
      ensures Valid() <==> !broken
    {
      broken, logs := false, [];
      ghost var c := View();
      for k := 0 to |turns|
        invariant Valid() && now >= old(now) && !broken && |logs| == k
        invariant Follows(listenEt, timeoutMs, c, turns, logs, false) && View() == Run(listenEt, c, Flat(logs))
      {
        ghost var log;
        broken, log := DoTurn(turns[k], asWritten);
        FollowsOneMore(listenEt, timeoutMs, c, turns, logs, log, broken);
        logs := logs + [log];
        if broken {
          return;
        }
      }
    }
  }

  lemma {:induction false} RunOneMore(et: bool, c: Conns, log: seq<Happening>, h: Happening)
    ensures Run(et, c, log + [h]) == After(et, Run(et, c, log), h)
  {
    assert (log + [h])[..|log|] == log;
  }

  /** A timer is due when its connection has been silent long enough. */
  lemma FiredAreSilent(timeoutMs: int, c: Conns, timers: map<int, int>, gone: set<int>, t0: int, t1: int, t2: int)
    requires timers.Keys == c.seen.Keys && forall fd :: fd in timers ==> timers[fd] == c.seen[fd] + timeoutMs * MS
    requires t0 <= t1 <= t2 && (forall fd :: fd in timers && Due(timers[fd], t0) ==> fd in gone)
    requires forall fd :: fd in gone ==> fd in timers && Due(timers[fd], t1)
    ensures FiresRightly(timeoutMs, c, t0, Fired(gone, t2))
  {
    forall fd | fd in c.seen && Silent(timeoutMs, c.seen, fd, t0)
      ensures fd in gone
    {
      assert fd in timers && Due(timers[fd], t0);
    }
    forall fd | fd in gone
      ensures fd in c.seen && Silent(timeoutMs, c.seen, fd, t2)
    {
      assert fd in timers.Keys && Due(timers[fd], t1);
    }
  }

  lemma SameSize(a: map<int, int>, b: map<int, int>)
    requires a.Keys == b.Keys
    ensures |a| == |b|
  {
    assert |a.Keys| == |a| && |b.Keys| == |b|;
  }
}

/**
 The persistence worker of server/src/dao/async_msg_writer.cpp: batches taken off the queue, retries,
 and the final drain. The queue is the FIFO that `MpscQueue` is proved to refine; producers may add to it
 between any two steps of the worker.
 */
module AsyncMsgWriters {
  import opened MessageStore

  const BATCH_SIZE := 100
  const MAX_RETRIES := 3

  /** What became of one batch: how often it was offered, what was reported, whether it reached the tables. */
  datatype Offer = Offer(msgs: seq<Message>, attempts: nat, reported: bool, applied: bool)

  /** The store's answer to one batch: a reported success was applied, a failure may have been. */
  datatype Answer = Answer(ok: bool, applied: bool)

  /** What comes next; without an answer the call fails without effect. */
  function NextAnswer(answers: seq<Answer>): Answer {
    if |answers| == 0 then Answer(false, false) else Answer(answers[0].ok, answers[0].ok || answers[0].applied)
  }

  function Later(answers: seq<Answer>): seq<Answer> {
    if |answers| == 0 then [] else answers[1..]
  }

  /** The `i`-th answer to come is a success. */
  predicate Succeeds(answers: seq<Answer>, i: nat) {
    i < |answers| && answers[i].ok
  }

  /** None of the first `n` answers is a success. */
  predicate FailsUpTo(answers: seq<Answer>, n: nat) {
    forall i :: 0 <= i < n ==> !Succeeds(answers, i)
  }

  function Drop(answers: seq<Answer>, n: nat): seq<Answer> {
    if n <= |answers| then answers[n..] else []
  }

  function Offered(done: seq<Offer>): seq<Message> {
    if |done| == 0 then [] else Offered(done[..|done| - 1]) + done[|done| - 1].msgs
  }

  /** The messages of the batches that reached the tables, each once, in order. */
  function Persisted(done: seq<Offer>): seq<Message> {
    if |done| == 0 then []
    else Persisted(done[..|done| - 1]) + if done[|done| - 1].applied then done[|done| - 1].msgs else []
  }

  ghost predicate OfferOk(o: Offer) {
    0 < |o.msgs| <= BATCH_SIZE && 0 < o.attempts <= MAX_RETRIES + 1 && (o.reported ==> o.applied)
  }

  /** An offer of the retry loop: it ends with the first success, or after the last retry. */
  ghost predicate TurnOffer(o: Offer, answers: seq<Answer>) {
    && (o.reported <==> exists i :: 0 <= i <= MAX_RETRIES && Succeeds(answers, i))
    && (o.reported ==> 0 < o.attempts && Succeeds(answers, o.attempts - 1) && FailsUpTo(answers, o.attempts - 1))
    && (!o.reported ==> o.attempts == MAX_RETRIES + 1)
  }

  /** The offers of the drain: each is made once and meets the next answer. */
  ghost predicate DrainOffers(offers: seq<Offer>, answers: seq<Answer>) {
    forall i :: 0 <= i < |offers| ==> offers[i].attempts == 1 && (offers[i].reported <==> Succeeds(answers, i))
  }

  lemma {:induction false} OneMoreDrained(offers: seq<Offer>, o: Offer, answers: seq<Answer>)
    requires DrainOffers(offers, answers) && DrainOffers([o], Drop(answers, |offers|))
    ensures DrainOffers(offers + [o], answers) && Later(Drop(answers, |offers|)) == Drop(answers, |offers| + 1)
  {
    assert [o][0] == o;
  }

  lemma {:induction false} OneMoreOffer(key: KeyOf, db: Db, done: seq<Offer>, o: Offer)
    ensures Offered(done + [o]) == Offered(done) + o.msgs
    ensures Persisted(done + [o]) == Persisted(done) + if o.applied then o.msgs else []
    ensures InsertEach(key, db, Persisted(done + [o]))
            == if o.applied then InsertEach(key, InsertEach(key, db, Persisted(done)), o.msgs)
               else InsertEach(key, db, Persisted(done))
  {
    assert (done + [o])[..|done|] == done;
    InsertEachConcat(key, db, Persisted(done), if o.applied then o.msgs else []);
    assert Persisted(done) + [] == Persisted(done);
  }

  class AsyncMsgWriter {
    const key: KeyOf
    ghost const initial: Db
    var queue: seq<Message>
    var answers: seq<Answer> // the store's answers to the batches to come
    ghost var db: Db
    ghost var enqueued: seq<Message> // every message ever given to Enqueue
    ghost var done: seq<Offer>

    constructor (key: KeyOf, answers: seq<Answer>, ghost db: Db)
      ensures Valid([]) && this.key == key && initial == db && enqueued == [] && done == [] && this.answers == answers
    {
      this.key, this.answers := key, answers;
      initial := db;
      this.db := db;
      queue, enqueued, done := [], [], [];
    }

    /**
     With `batch` in the worker's hands: nothing enqueued is lost, doubled or reordered, and the tables hold
     exactly what inserting the messages of the applied batches one by one, once each, would give.
     */
    ghost predicate Valid(batch: seq<Message>)
      reads this
    {
      && enqueued == Offered(done) + batch + queue
      && (forall i :: 0 <= i < |done| ==> OfferOk(done[i]))
      && db == InsertEach(key, initial, Persisted(done))
    }

    method Enqueue(msg: Message, ghost batch: seq<Message>)
      requires Valid(batch)
      modifies this`queue, this`enqueued
      ensures Valid(batch) && enqueued == old(enqueued) + [msg] && queue == old(queue) + [msg]
    {
      queue := queue + [msg];
      enqueued := enqueued + [msg];
    }

    /** Any producers enqueue any messages. */
    method Interference(ghost batch: seq<Message>)
      requires Valid(batch)
      modifies this`queue, this`enqueued
      ensures Valid(batch) && old(enqueued) <= enqueued && old(queue) <= queue
    {
      var more: seq<Message> := *;
      for i := 0 to |more|
        invariant Valid(batch) && old(enqueued) <= enqueued && old(queue) <= queue
      {
        Enqueue(more[i], batch);
      }
    }

    method Dequeue(batch: seq<Message>) returns (more: seq<Message>)
      requires Valid(batch) && |queue| > 0
      modifies this`queue
      ensures Valid(more) && |more| == |batch| + 1 && more + queue == batch + old(queue)
    {
      more := batch + [queue[0]];
      queue := queue[1..];
      assert more + queue == batch + old(queue);
      assert Offered(done) + more + queue == Offered(done) + (more + queue);
      assert Offered(done) + batch + old(queue) == Offered(done) + (batch + old(queue));
    }

    /** `dequeue_bulk`; `producing` says whether producers are still running. */
    method DequeueBulk(producing: bool) returns (batch: seq<Message>)
      requires Valid([])
      modifies this`queue, this`enqueued
      ensures Valid(batch) && |batch| <= BATCH_SIZE && old(enqueued) <= enqueued
      ensures old(queue) != [] ==> batch != []
      ensures |batch| < BATCH_SIZE ==> queue == []
      ensures !producing ==> enqueued == old(enqueued) && old(queue) == batch + queue
    {
      batch := [];
      while |batch| < BATCH_SIZE
        invariant Valid(batch) && |batch| <= BATCH_SIZE && old(enqueued) <= enqueued
        invariant old(queue) != [] ==> batch != [] || queue != []
        invariant !producing ==> enqueued == old(enqueued) && old(queue) == batch + queue
      {
        if producing {
          Interference(batch);
        }
        if |queue| == 0 {
          break;
        }
        batch := Dequeue(batch);
      }
    }

    /**
     One call of `InsertBatch`. A reported success was applied; a failure may or may not have been. The
     statements are those of `BuildBatch`, applied all or none.
     */
    method InsertBatch(batch: seq<Message>) returns (ok: bool, ghost applied: bool)
      modifies this`db, this`answers
      ensures Answer(ok, applied) == NextAnswer(old(answers)) && answers == Later(old(answers))
      ensures db == if applied then InsertEach(key, old(db), batch) else old(db)
    {
      var answer := NextAnswer(answers);
      ok, applied, answers := answer.ok, answer.applied, Later(answers);
      var statements := BuildBatch(batch);
      if applied {
        db := Apply(key, db, statements);
      }
      BatchIsInsertEach(key, old(db), batch);
    }

    /**
     The retry loop of lines 40-53. The batch is offered until the store reports success, four times at most;
     the joint effect of all attempts is that of one or none.
     */
    method Persist(batch: seq<Message>) returns (success: bool, attempts: nat, ghost applied: bool)
      requires Valid(batch)
      modifies this`db, this`queue, this`enqueued, this`answers
      ensures 0 < attempts <= MAX_RETRIES + 1 && answers == Drop(old(answers), attempts)
      ensures TurnOffer(Offer(batch, attempts, success, applied), old(answers)) && (success ==> applied)
      ensures done == old(done) && old(enqueued) <= enqueued && enqueued == Offered(done) + batch + queue
      ensures db == if applied then InsertEach(key, old(db), batch) else old(db)
    {
      success, attempts, applied := false, 0, false;
      while attempts <= MAX_RETRIES
        invariant 0 <= attempts <= MAX_RETRIES + 1 && !success
        invariant answers == Drop(old(answers), attempts) && FailsUpTo(old(answers), attempts)
        invariant done == old(done) && old(enqueued) <= enqueued && enqueued == Offered(done) + batch + queue
        invariant db == if applied then InsertEach(key, old(db), batch) else old(db)
      {
        var ok, now := InsertBatch(batch);
        if applied && now {
          BatchIsInsertEach(key, old(db), batch);
          BatchIsInsertEach(key, InsertEach(key, old(db), batch), batch);
          ReplayIsHarmless(key, old(db), AllRows(batch));
        }
        applied := applied || now;
        assert ok == Succeeds(old(answers), attempts);
        attempts := attempts + 1;
        if ok {
          success := true;
          return;
        }
        var more: seq<Message> := *;
        queue := queue + more;
        enqueued := enqueued + more;
      }
    }

    /** The batch has been dealt with and is put on record. */
    ghost method Record(o: Offer, before: Db)
      requires OfferOk(o) && enqueued == Offered(done) + o.msgs + queue
      requires forall i :: 0 <= i < |done| ==> OfferOk(done[i])
      requires before == InsertEach(key, initial, Persisted(done))
      requires db == if o.applied then InsertEach(key, before, o.msgs) else before
      modifies this`done
      ensures Valid([]) && done == old(done) + [o]
    {
      OneMoreOffer(key, initial, done, o);
      done := done + [o];
      assert Offered(done) + [] == Offered(done);
    }

    /** Lines 38-58: a batch is offered to the store and put on record. */
    method OfferBatch(batch: seq<Message>) returns (ghost o: Offer)
      requires Valid(batch) && 0 < |batch| <= BATCH_SIZE
      modifies this
      ensures Valid([]) && old(enqueued) <= enqueued && done == old(done) + [o] && o.msgs == batch
      ensures TurnOffer(o, old(answers)) && answers == Drop(old(answers), o.attempts)
    {
      ghost var before := db;
      ghost var applied;
      var success, attempts;
      success, attempts, applied := Persist(batch);
      o := Offer(batch, attempts, success, applied);
      Record(o, before);
    }

    /**
     One turn of the loop of lines 36-62. What waits in the queue is served, and a batch is given up only after
     the last retry.
     */
    method Turn() returns (ghost offers: seq<Offer>)
      requires Valid([])
      modifies this
      ensures Valid([]) && old(enqueued) <= enqueued && done == old(done) + offers
      ensures |offers| <= 1 && (old(queue) != [] ==> offers != [])
      ensures offers != [] ==> TurnOffer(offers[0], old(answers))
      ensures answers == if offers == [] then old(answers) else Drop(old(answers), offers[0].attempts)
    {
      offers := [];
      var batch := DequeueBulk(true);
      if |batch| > 0 {
        ghost var o := OfferBatch(batch);
        offers := [o];
      } else {
        assert batch == [];
      }
    }

    /** One round of the drain. */
    method DrainBatch() returns (ghost o: Offer)
      requires Valid([]) && |queue| > 0
      modifies this
      ensures Valid([]) && enqueued == old(enqueued) && |queue| < |old(queue)|
      ensures done == old(done) + [o] && DrainOffers([o], old(answers))
      ensures answers == Later(old(answers))
    {
      var batch := DequeueBulk(false);
      ghost var before := db;
      var ok, applied := InsertBatch(batch);
      o := Offer(batch, 1, ok, applied);
      Record(o, before);
    }

    /** The drain of lines 64-72, once producers have stopped: each remaining batch is offered once. */
    method DrainQueue() returns (ghost offers: seq<Offer>)
      requires Valid([])
      modifies this
      ensures Valid([]) && enqueued == old(enqueued) && done == old(done) + offers && queue == []
      ensures DrainOffers(offers, old(answers)) && answers == Drop(old(answers), |offers|)
    {
      ghost var first, base, all := answers, done, enqueued;
      offers := [];
      while |queue| > 0
        invariant Valid([]) && enqueued == all && done == base + offers
        invariant DrainOffers(offers, first) && answers == Drop(first, |offers|)
        decreases |queue|
      {
        ghost var o := DrainBatch();
        OneMoreDrained(offers, o, first);
        assert (base + offers) + [o] == base + (offers + [o]);
        offers := offers + [o];
      }
    }

    /**
     `WorkerLoop` for any number of turns before `running_` is cleared. At its end every message ever
     enqueued has been offered, in queue order, as part of exactly one batch; a message is missing from the
     tables only if every attempt of its batch failed without effect. A batch of the turns is reported or was
     tried four times, one of the drain was tried once.
     */
    method WorkerLoop(turns: nat) returns (ghost drain: nat)
      requires Valid([])
      modifies this
      ensures Valid([]) && queue == [] && old(enqueued) <= enqueued
      ensures enqueued == Offered(done)
      ensures db == InsertEach(key, initial, Persisted(done))
      ensures |old(done)| <= drain <= |done| && drain <= |old(done)| + turns && old(done) <= done
      ensures forall i :: |old(done)| <= i < drain ==> done[i].reported || done[i].attempts == MAX_RETRIES + 1
      ensures forall i :: drain <= i < |done| ==> done[i].attempts == 1
      ensures old(queue) != [] && turns > 0 ==> drain > |old(done)|
    {
      ghost var base := done;
      for i := 0 to turns
        invariant Valid([]) && old(enqueued) <= enqueued && base <= done && |done| <= |base| + i
        invariant old(queue) != [] ==> if i == 0 then queue != [] else |done| > |base|
        invariant forall j :: |base| <= j < |done| ==> done[j].reported || done[j].attempts == MAX_RETRIES + 1
      {
        ghost var offers := Turn();
      }
      drain := |done|;
      ghost var offers := DrainQueue();
      assert Offered(done) + [] + [] == Offered(done);
    }
  }
}

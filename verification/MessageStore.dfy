/** The writes of server/src/dao/msg_scylla_dao.cpp as lists of upserts on the two message tables. */
module MessageStore {
  import opened Wrappers
  import Ids

  const TWO_63 := 0x8000_0000_0000_0000
  const TWO_64 := 0x1_0000_0000_0000_0000

  datatype Message = Message(msgId: nat, sender: nat, receiver: nat, contentType: int, content: Bytes, timestamp: nat)

  /** A bound column value. */
  datatype Value = Text(text: string) | Number(number: int) | Blob(bytes: Bytes)

  datatype Table = Messages | UserMessages

  /** One `INSERT`, which in this store replaces any row with the same primary key. */
  datatype Upsert = Upsert(table: Table, columns: seq<Value>)

  /** `static_cast<cass_int64_t>` of a `uint64_t`. */
  function Int64(n: nat): Value {
    var low := n % TWO_64;
    Number(if low < TWO_63 then low else low - TWO_64)
  }

  /** And the conversion back. */
  function UInt64(i: int): nat {
    i % TWO_64
  }

  function HistoryRow(m: Message): Upsert {
    Upsert(Messages, [Text(Ids.GenerateP2PConvId(m.sender, m.receiver)), Int64(m.timestamp), Int64(m.msgId),
                      Int64(m.sender), Int64(m.receiver), Number(m.contentType), Blob(m.content)])
  }

  function InboxRow(m: Message, user: nat): Upsert {
    Upsert(UserMessages, [Int64(user), Int64(m.msgId), Int64(m.sender), Int64(m.receiver),
                          Number(m.contentType), Blob(m.content), Int64(m.timestamp)])
  }

  /** The three statements of `InsertMessage`: history, receiver's inbox, sender's inbox. */
  function MessageRows(m: Message): seq<Upsert> {
    [HistoryRow(m), InboxRow(m, m.receiver), InboxRow(m, m.sender)]
  }

  /** The message that `GetMessagesForUser` reads back from a row of an inbox. */
  function ReadInboxRow(columns: seq<Value>): Option<Message> {
    if |columns| == 7 && columns[1].Number? && columns[2].Number? && columns[3].Number?
       && columns[4].Number? && columns[5].Blob? && columns[6].Number?
    then
      Some(Message(UInt64(columns[1].number), UInt64(columns[2].number), UInt64(columns[3].number),
                   columns[4].number, columns[5].bytes, UInt64(columns[6].number)))
    else None
  }

  /** Every field of a message is within its 64-bit type. */
  predicate Fits(m: Message) {
    m.msgId < TWO_64 && m.sender < TWO_64 && m.receiver < TWO_64 && m.timestamp < TWO_64
  }

  /** What is written to an inbox is what is read from it. */
  lemma InboxRoundTrip(m: Message, user: nat)
    requires Fits(m)
    ensures ReadInboxRow(InboxRow(m, user).columns) == Some(m)
  {
    Int64RoundTrip(m.msgId);
    Int64RoundTrip(m.sender);
    Int64RoundTrip(m.receiver);
    Int64RoundTrip(m.timestamp);
  }

  lemma Int64RoundTrip(n: nat)
    requires n < TWO_64
    ensures Int64(n).Number? && UInt64(Int64(n).number) == n
  {
  }

  function AllRows(msgs: seq<Message>): seq<Upsert> {
    if |msgs| == 0 then [] else AllRows(msgs[..|msgs| - 1]) + MessageRows(msgs[|msgs| - 1])
  }

  /** The loop of `InsertBatch` adds exactly the statements of `InsertMessage` on each message, in order. */
  method BuildBatch(msgs: seq<Message>) returns (batch: seq<Upsert>)
    ensures batch == AllRows(msgs)
  {
    batch := [];
    for i := 0 to |msgs|
      invariant batch == AllRows(msgs[..i])
    {
      var m := msgs[i];
      batch := batch + [HistoryRow(m)];
      batch := batch + [InboxRow(m, m.receiver)];
      batch := batch + [InboxRow(m, m.sender)];
      assert msgs[..i + 1][..i] == msgs[..i];
    }
    assert msgs[..|msgs|] == msgs;
  }

  // ---------- effect on the tables, for any choice of primary keys ----------

  /** The primary key of a row; the schema is not part of the repository, so it is arbitrary. */
  type KeyOf = Upsert -> seq<Value>

  type Db = map<(Table, seq<Value>), seq<Value>>

  function Put(key: KeyOf, db: Db, u: Upsert): Db {
    db[(u.table, key(u)) := u.columns]
  }

  function Apply(key: KeyOf, db: Db, us: seq<Upsert>): Db {
    if |us| == 0 then db else Put(key, Apply(key, db, us[..|us| - 1]), us[|us| - 1])
  }

  /** Inserting messages one by one. */
  function InsertEach(key: KeyOf, db: Db, msgs: seq<Message>): Db {
    if |msgs| == 0 then db
    else Apply(key, InsertEach(key, db, msgs[..|msgs| - 1]), MessageRows(msgs[|msgs| - 1]))
  }

  lemma {:induction false} ApplyConcat(key: KeyOf, db: Db, a: seq<Upsert>, b: seq<Upsert>)
    ensures Apply(key, db, a + b) == Apply(key, Apply(key, db, a), b)
  {
    if |b| == 0 {
      assert a + b == a;
    } else {
      ApplyConcat(key, db, a, b[..|b| - 1]);
      assert (a + b)[..|a + b| - 1] == a + b[..|b| - 1];
    }
  }

  /** A batch is a fold of single inserts. */
  lemma {:induction false} BatchIsInsertEach(key: KeyOf, db: Db, msgs: seq<Message>)
    ensures Apply(key, db, AllRows(msgs)) == InsertEach(key, db, msgs)
  {
    if |msgs| > 0 {
      BatchIsInsertEach(key, db, msgs[..|msgs| - 1]);
      ApplyConcat(key, db, AllRows(msgs[..|msgs| - 1]), MessageRows(msgs[|msgs| - 1]));
    }
  }

  /** What a list of upserts writes does not depend on what was there. */
  lemma {:induction false} ApplyIsOverlay(key: KeyOf, db: Db, us: seq<Upsert>)
    ensures Apply(key, db, us) == db + Apply(key, map[], us)
  {
    if |us| > 0 {
      ApplyIsOverlay(key, db, us[..|us| - 1]);
    }
  }

  /** Applying the same batch again changes nothing, so a retry after an ambiguous failure is harmless. */
  lemma {:induction false} ReplayIsHarmless(key: KeyOf, db: Db, us: seq<Upsert>)
    ensures Apply(key, Apply(key, db, us), us) == Apply(key, db, us)
  {
    ApplyIsOverlay(key, db, us);
    ApplyIsOverlay(key, Apply(key, db, us), us);
  }

  // ---------- ties within one batch ----------

  /** How the store settles two writes to the same row that carry the same timestamp. */
  type TieRule = (seq<Value>, seq<Value>) -> seq<Value>

  /** The rows that a batch leaves, under any rule for ties. */
  function Settled(key: KeyOf, tie: TieRule, us: seq<Upsert>): Db {
    if |us| == 0 then map[]
    else
      var before, u := Settled(key, tie, us[..|us| - 1]), us[|us| - 1];
      var k := (u.table, key(u));
      before[k := if k in before then tie(before[k], u.columns) else u.columns]
  }

  function ApplyTied(key: KeyOf, tie: TieRule, db: Db, us: seq<Upsert>): Db {
    db + Settled(key, tie, us)
  }

  /** A rule that picks by value alone, such as the larger value column by column. */
  ghost predicate ByValue(tie: TieRule) {
    && (forall v :: tie(v, v) == v)
    && (forall v, w :: tie(v, w) == tie(w, v))
    && (forall v, w, x :: tie(tie(v, w), x) == tie(v, tie(w, x)))
  }

  /** A row that is settled has taken every write to it into account. */
  lemma {:induction false} Absorbs(key: KeyOf, tie: TieRule, us: seq<Upsert>, i: nat)
    requires i < |us| && ByValue(tie)
    ensures var k := (us[i].table, key(us[i]));
            k in Settled(key, tie, us) && tie(Settled(key, tie, us)[k], us[i].columns) == Settled(key, tie, us)[k]
  {
    var before, y := us[..|us| - 1], us[|us| - 1].columns;
    var k, x := (us[i].table, key(us[i])), us[i].columns;
    if i < |us| - 1 {
      Absorbs(key, tie, before, i);
      var v := Settled(key, tie, before)[k];
      assert tie(tie(v, y), x) == tie(v, tie(y, x)) == tie(v, tie(x, y)) == tie(tie(v, x), y) == tie(v, y);
    } else if k in Settled(key, tie, before) {
      var v := Settled(key, tie, before)[k];
      assert tie(tie(v, x), x) == tie(v, tie(x, x)) == tie(v, x);
    }
  }

  lemma {:induction false} AddAbsorbed(key: KeyOf, tie: TieRule, us: seq<Upsert>, u: Upsert)
    requires var k, rows := (u.table, key(u)), Settled(key, tie, us);
             k in rows && tie(rows[k], u.columns) == rows[k]
    ensures Settled(key, tie, us + [u]) == Settled(key, tie, us)
  {
    assert (us + [u])[..|us|] == us;
  }

  /**
   A retry whose writes tie with those of the attempt before it, whole or cut off anywhere, changes nothing if
   the store picks by value.
   */
  lemma {:induction false} TiedReplayIsHarmless(key: KeyOf, tie: TieRule, db: Db, us: seq<Upsert>, n: nat)
    requires n <= |us| && ByValue(tie)
    ensures ApplyTied(key, tie, db, us + us[..n]) == ApplyTied(key, tie, db, us)
  {
    ReplaySettles(key, tie, us, n);
  }

  lemma {:induction false} ReplaySettles(key: KeyOf, tie: TieRule, us: seq<Upsert>, n: nat)
    requires n <= |us| && ByValue(tie)
    ensures Settled(key, tie, us + us[..n]) == Settled(key, tie, us)
  {
    if n == 0 {
      assert us + us[..0] == us;
    } else {
      ReplaySettles(key, tie, us, n - 1);
      Absorbs(key, tie, us, n - 1);
      AddAbsorbed(key, tie, us + us[..n - 1], us[n - 1]);
      assert us + us[..n] == (us + us[..n - 1]) + [us[n - 1]];
    }
  }

  /** Writes of one batch to the same row agree. */
  ghost predicate TiesAgree(key: KeyOf, us: seq<Upsert>) {
    forall i, j :: 0 <= i < j < |us| && us[i].table == us[j].table && key(us[i]) == key(us[j]) ==>
      us[i].columns == us[j].columns
  }

  lemma {:induction false} SettledRow(key: KeyOf, tie: TieRule, us: seq<Upsert>, i: nat)
    requires i < |us| && TiesAgree(key, us) && forall v :: tie(v, v) == v
    ensures var k := (us[i].table, key(us[i]));
            k in Settled(key, tie, us) && Settled(key, tie, us)[k] == us[i].columns
  {
    var before, u := us[..|us| - 1], us[|us| - 1];
    var k := (us[i].table, key(us[i]));
    if i < |us| - 1 {
      SettledRow(key, tie, before, i);
    } else if k in Settled(key, tie, before) {
      SettledKey(key, tie, before, k);
      var j :| 0 <= j < |before| && (before[j].table, key(before[j])) == k;
      SettledRow(key, tie, before, j);
    }
  }

  lemma {:induction false} SettledKey(key: KeyOf, tie: TieRule, us: seq<Upsert>, k: (Table, seq<Value>))
    ensures k in Settled(key, tie, us) <==> exists i :: 0 <= i < |us| && (us[i].table, key(us[i])) == k
  {
    if |us| > 0 {
      var before, u := us[..|us| - 1], us[|us| - 1];
      SettledKey(key, tie, before, k);
      if k in Settled(key, tie, before) {
        var i :| 0 <= i < |before| && (before[i].table, key(before[i])) == k;
        assert us[i] == before[i];
      }
    }
  }

  /** With the rule that the last write wins, this is `Apply`. */
  lemma {:induction false} LastWriteIsApply(key: KeyOf, db: Db, us: seq<Upsert>)
    ensures ApplyTied(key, (a, b) => b, db, us) == Apply(key, db, us)
  {
    if |us| > 0 {
      LastWriteIsApply(key, db, us[..|us| - 1]);
    } else {
      assert db + map[] == db;
    }
  }

  /** When the writes to each row agree, no idempotent rule can be told from applying them in order. */
  lemma {:induction false} AgreeingTiesAreApply(key: KeyOf, tie: TieRule, db: Db, us: seq<Upsert>)
    requires TiesAgree(key, us) && forall v :: tie(v, v) == v
    ensures ApplyTied(key, tie, db, us) == Apply(key, db, us)
  {
    if |us| > 0 {
      var before, u := us[..|us| - 1], us[|us| - 1];
      AgreeingTiesAreApply(key, tie, db, before);
      SettledRow(key, tie, us, |us| - 1);
    } else {
      assert db + map[] == db;
    }
  }

  // ---------- reading back ----------

  /** A row that `where user_id = ?` selects for the user and that reads as the message. */
  predicate InboxEntry(columns: seq<Value>, user: nat, m: Message) {
    |columns| == 7 && columns[0] == Int64(user) && ReadInboxRow(columns) == Some(m)
  }

  /** The message is among the rows selected for the user (lines 176-212). */
  ghost predicate InInbox(db: Db, user: nat, m: Message) {
    exists k :: k in db && k.0 == UserMessages && InboxEntry(db[k], user, m)
  }

  /** The message that a row of the history stands for, by the names of its columns. */
  function ReadHistoryRow(columns: seq<Value>): Option<Message> {
    if |columns| == 7 && columns[1].Number? && columns[2].Number? && columns[3].Number?
       && columns[4].Number? && columns[5].Number? && columns[6].Blob?
    then
      Some(Message(UInt64(columns[2].number), UInt64(columns[3].number), UInt64(columns[4].number),
                   columns[5].number, columns[6].bytes, UInt64(columns[1].number)))
    else None
  }

  predicate HistoryEntry(columns: seq<Value>, a: nat, b: nat, m: Message) {
    |columns| == 7 && columns[0] == Text(Ids.GenerateP2PConvId(a, b)) && ReadHistoryRow(columns) == Some(m)
  }

  /** The message is in the history of the conversation of two users. */
  ghost predicate InHistory(db: Db, a: nat, b: nat, m: Message) {
    exists k :: k in db && k.0 == Messages && HistoryEntry(db[k], a, b, m)
  }

  /**
   Primary keys that tell rows apart as the tables need it: inboxes by user and message id, the history by
   conversation, timestamp and message id.
   */
  ghost predicate TellsApart(key: KeyOf) {
    && (forall x, y :: |x| == |y| == 7 ==>
          (key(Upsert(UserMessages, x)) == key(Upsert(UserMessages, y)) <==> x[0] == y[0] && x[1] == y[1]))
    && (forall x, y :: |x| == |y| == 7 ==>
          (key(Upsert(Messages, x)) == key(Upsert(Messages, y)) <==> x[0] == y[0] && x[1] == y[1] && x[2] == y[2]))
  }

  /** A value that a 64-bit column can hold. */
  predicate Storable(v: Value) {
    v.Number? ==> -TWO_63 <= v.number < TWO_63
  }

  /** Every row is stored under its own key, and its leading columns are storable. */
  ghost predicate Keyed(key: KeyOf, db: Db) {
    forall k :: k in db ==>
      && |db[k]| == 7 && key(Upsert(k.0, db[k])) == k.1
      && Storable(db[k][0]) && Storable(db[k][1]) && Storable(db[k][2])
  }

  lemma StorableRoundTrip(v: Value)
    requires v.Number? && Storable(v)
    ensures Int64(UInt64(v.number)) == v
  {
  }

  lemma Int64Injective(m: nat, n: nat)
    requires m < TWO_64 && n < TWO_64
    ensures Int64(m) == Int64(n) <==> m == n
  {
    Int64RoundTrip(m);
    Int64RoundTrip(n);
  }

  lemma {:induction false} SameInboxKey(key: KeyOf, x: seq<Value>, y: seq<Value>)
    requires TellsApart(key) && |x| == |y| == 7
    ensures key(Upsert(UserMessages, x)) == key(Upsert(UserMessages, y)) <==> x[0] == y[0] && x[1] == y[1]
  {
  }

  lemma {:induction false} SameHistoryKey(key: KeyOf, x: seq<Value>, y: seq<Value>)
    requires TellsApart(key) && |x| == |y| == 7
    ensures key(Upsert(Messages, x)) == key(Upsert(Messages, y)) <==> x[0] == y[0] && x[1] == y[1] && x[2] == y[2]
  {
  }

  /** The leading columns of a row that a user finds are those the message is written with. */
  lemma {:induction false} InboxPlace(columns: seq<Value>, user: nat, x: Message)
    requires InboxEntry(columns, user, x) && Storable(columns[1])
    ensures columns[0] == InboxRow(x, user).columns[0] && columns[1] == InboxRow(x, user).columns[1]
  {
    StorableRoundTrip(columns[1]);
  }

  /** There is one place for a message in a user's inbox. */
  lemma {:induction false} InboxSlot(key: KeyOf, db: Db, user: nat, x: Message)
    requires TellsApart(key) && Keyed(key, db)
    ensures var k := (UserMessages, key(InboxRow(x, user)));
            InInbox(db, user, x) <==> k in db && InboxEntry(db[k], user, x)
  {
    if InInbox(db, user, x) {
      var j :| j in db && j.0 == UserMessages && InboxEntry(db[j], user, x);
      InboxPlace(db[j], user, x);
      SameInboxKey(key, db[j], InboxRow(x, user).columns);
    }
  }

  /** The place is shared exactly by messages of the same id in the same inbox. */
  lemma {:induction false} SameInboxSlot(key: KeyOf, x: Message, user: nat, m: Message, owner: nat)
    requires TellsApart(key) && Fits(m) && Fits(x) && owner < TWO_64 && user < TWO_64
    ensures key(InboxRow(x, user)) == key(InboxRow(m, owner)) <==> user == owner && x.msgId == m.msgId
  {
    Int64Injective(user, owner);
    Int64Injective(x.msgId, m.msgId);
    SameInboxKey(key, InboxRow(x, user).columns, InboxRow(m, owner).columns);
  }

  lemma {:induction false} KeyedPut(key: KeyOf, db: Db, u: Upsert)
    requires Keyed(key, db) && |u.columns| == 7
    requires Storable(u.columns[0]) && Storable(u.columns[1]) && Storable(u.columns[2])
    ensures Keyed(key, Put(key, db, u))
  {
  }

  /** Writing an inbox row replaces the message of the same id in that inbox, and nothing else is seen to change. */
  lemma {:induction false} InboxAfterPut(key: KeyOf, db: Db, m: Message, owner: nat, user: nat, x: Message)
    requires TellsApart(key) && Keyed(key, db) && Fits(m) && Fits(x) && owner < TWO_64 && user < TWO_64
    ensures var after := Put(key, db, InboxRow(m, owner));
            && Keyed(key, after)
            && (InInbox(after, user, x) <==>
                (user == owner && x == m) || (InInbox(db, user, x) && !(user == owner && x.msgId == m.msgId)))
  {
    var after := Put(key, db, InboxRow(m, owner));
    InboxRoundTrip(m, owner);
    KeyedPut(key, db, InboxRow(m, owner));
    InboxSlot(key, db, user, x);
    InboxSlot(key, after, user, x);
    SameInboxSlot(key, x, user, m, owner);
  }

  lemma {:induction false} HistoryRoundTrip(m: Message)
    requires Fits(m)
    ensures HistoryEntry(HistoryRow(m).columns, m.sender, m.receiver, m)
  {
    Int64RoundTrip(m.msgId);
    Int64RoundTrip(m.sender);
    Int64RoundTrip(m.receiver);
    Int64RoundTrip(m.timestamp);
  }

  predicate SamePair(a: nat, b: nat, m: Message) {
    (a == m.sender && b == m.receiver) || (a == m.receiver && b == m.sender)
  }

  /** A history row is found exactly in the conversation of its two users. */
  lemma {:induction false} HistoryEntryIff(m: Message, a: nat, b: nat, x: Message)
    requires Fits(m)
    ensures HistoryEntry(HistoryRow(m).columns, a, b, x) <==> SamePair(a, b, m) && x == m
  {
    HistoryRoundTrip(m);
    Ids.ConvIdIdentifiesPair(a, b, m.sender, m.receiver);
  }

  /** The columns that place a message in the history of a conversation. */
  function HistoryPlace(a: nat, b: nat, x: Message): seq<Value> {
    [Text(Ids.GenerateP2PConvId(a, b)), Int64(x.timestamp), Int64(x.msgId), Number(0), Number(0), Number(0), Number(0)]
  }

  lemma {:induction false} HistoryPlaced(columns: seq<Value>, a: nat, b: nat, x: Message)
    requires HistoryEntry(columns, a, b, x) && Storable(columns[1]) && Storable(columns[2])
    ensures columns[..3] == HistoryPlace(a, b, x)[..3]
  {
    StorableRoundTrip(columns[1]);
    StorableRoundTrip(columns[2]);
  }

  lemma {:induction false} HistorySlot(key: KeyOf, db: Db, a: nat, b: nat, x: Message)
    requires TellsApart(key) && Keyed(key, db)
    ensures var k := (Messages, key(Upsert(Messages, HistoryPlace(a, b, x))));
            InHistory(db, a, b, x) <==> k in db && HistoryEntry(db[k], a, b, x)
  {
    if InHistory(db, a, b, x) {
      var j :| j in db && j.0 == Messages && HistoryEntry(db[j], a, b, x);
      HistoryPlaced(db[j], a, b, x);
      var place := HistoryPlace(a, b, x);
      assert forall i :: 0 <= i < 3 ==> db[j][i] == db[j][..3][i] && place[i] == place[..3][i];
      SameHistoryKey(key, db[j], place);
    }
  }

  lemma {:induction false} SameHistorySlot(key: KeyOf, a: nat, b: nat, x: Message, m: Message)
    requires TellsApart(key) && Fits(m) && Fits(x)
    ensures key(Upsert(Messages, HistoryPlace(a, b, x))) == key(HistoryRow(m)) <==>
              SamePair(a, b, m) && x.timestamp == m.timestamp && x.msgId == m.msgId
  {
    Ids.ConvIdIdentifiesPair(a, b, m.sender, m.receiver);
    Int64Injective(x.timestamp, m.timestamp);
    Int64Injective(x.msgId, m.msgId);
    SameHistoryKey(key, HistoryPlace(a, b, x), HistoryRow(m).columns);
  }

  lemma {:induction false} HistoryAfterPut(key: KeyOf, db: Db, m: Message, a: nat, b: nat, x: Message)
    requires TellsApart(key) && Keyed(key, db) && Fits(m) && Fits(x)
    ensures var after := Put(key, db, HistoryRow(m));
            && Keyed(key, after)
            && (InHistory(after, a, b, x) <==>
                || (SamePair(a, b, m) && x == m)
                || (InHistory(db, a, b, x)
                    && !(SamePair(a, b, m) && x.timestamp == m.timestamp && x.msgId == m.msgId)))
  {
    var after := Put(key, db, HistoryRow(m));
    HistoryEntryIff(m, a, b, x);
    KeyedPut(key, db, HistoryRow(m));
    HistorySlot(key, db, a, b, x);
    HistorySlot(key, after, a, b, x);
    SameHistorySlot(key, a, b, x, m);
  }

  /** The two tables do not touch each other. */
  lemma {:induction false} TablesApart(key: KeyOf, db: Db, u: Upsert, user: nat, a: nat, b: nat, x: Message)
    ensures u.table == Messages ==> (InInbox(Put(key, db, u), user, x) <==> InInbox(db, user, x))
    ensures u.table == UserMessages ==> (InHistory(Put(key, db, u), a, b, x) <==> InHistory(db, a, b, x))
  {
    var after := Put(key, db, u);
    assert forall k :: k in db && k.0 != u.table ==> k in after && after[k] == db[k];
    assert forall k :: k in after && k.0 != u.table ==> k in db && after[k] == db[k];
  }

  lemma {:induction false} ThreePuts(key: KeyOf, db: Db, m: Message)
    ensures Apply(key, db, MessageRows(m))
            == Put(key, Put(key, Put(key, db, HistoryRow(m)), InboxRow(m, m.receiver)), InboxRow(m, m.sender))
  {
    var us := MessageRows(m);
    assert us[..2] == [HistoryRow(m), InboxRow(m, m.receiver)];
    assert us[..2][..1] == [HistoryRow(m)] && us[..2][..1][..0] == [];
    assert Apply(key, db, us) == Put(key, Apply(key, db, us[..2]), InboxRow(m, m.sender));
    assert Apply(key, db, us[..2]) == Put(key, Apply(key, db, us[..2][..1]), InboxRow(m, m.receiver));
  }

  /** Whatever the keys, sender and receiver find the message, unless one of its two rows replaces the other. */
  lemma {:induction false} BothInboxesHaveMessage(key: KeyOf, db: Db, m: Message)
    requires Fits(m)
    ensures InInbox(Apply(key, db, MessageRows(m)), m.sender, m)
    ensures m.sender == m.receiver || key(InboxRow(m, m.receiver)) != key(InboxRow(m, m.sender)) ==>
              InInbox(Apply(key, db, MessageRows(m)), m.receiver, m)
  {
    var after := Apply(key, db, MessageRows(m));
    ThreePuts(key, db, m);
    InboxRoundTrip(m, m.sender);
    InboxRoundTrip(m, m.receiver);
    var sent, received := (UserMessages, key(InboxRow(m, m.sender))), (UserMessages, key(InboxRow(m, m.receiver)));
    assert sent in after && InboxEntry(after[sent], m.sender, m);
    if sent != received {
      assert received in after && InboxEntry(after[received], m.receiver, m);
    }
  }

  predicate IsParty(user: nat, m: Message) {
    user == m.sender || user == m.receiver
  }

  /**
   After an insert a user finds the message exactly if it is the sender or the receiver, and otherwise what was
   found before; only a message of the same id gives way, and only in those two inboxes.
   */
  lemma {:induction false} InboxAfterInsert(key: KeyOf, db: Db, m: Message, user: nat, x: Message)
    requires TellsApart(key) && Keyed(key, db) && Fits(m) && Fits(x) && user < TWO_64
    ensures var after := Apply(key, db, MessageRows(m));
            && Keyed(key, after)
            && (InInbox(after, user, x) <==>
                (IsParty(user, m) && x == m) || (InInbox(db, user, x) && !(IsParty(user, m) && x.msgId == m.msgId)))
  {
    var db1 := Put(key, db, HistoryRow(m));
    var db2 := Put(key, db1, InboxRow(m, m.receiver));
    ThreePuts(key, db, m);
    HistoryAfterPut(key, db, m, 0, 0, x);
    TablesApart(key, db, HistoryRow(m), user, 0, 0, x);
    InboxAfterPut(key, db1, m, m.receiver, user, x);
    InboxAfterPut(key, db2, m, m.sender, user, x);
  }

  /** After an insert the conversation of sender and receiver, and no other, has the message. */
  lemma {:induction false} HistoryAfterInsert(key: KeyOf, db: Db, m: Message, a: nat, b: nat, x: Message)
    requires TellsApart(key) && Keyed(key, db) && Fits(m) && Fits(x)
    ensures InHistory(Apply(key, db, MessageRows(m)), a, b, x) <==>
              || (SamePair(a, b, m) && x == m)
              || (InHistory(db, a, b, x)
                  && !(SamePair(a, b, m) && x.timestamp == m.timestamp && x.msgId == m.msgId))
  {
    var db1 := Put(key, db, HistoryRow(m));
    var db2 := Put(key, db1, InboxRow(m, m.receiver));
    ThreePuts(key, db, m);
    HistoryAfterPut(key, db, m, a, b, x);
    TablesApart(key, db1, InboxRow(m, m.receiver), 0, a, b, x);
    TablesApart(key, db2, InboxRow(m, m.sender), 0, a, b, x);
  }

  /** Distinct message ids, each fitting its type. */
  ghost predicate DistinctIds(msgs: seq<Message>) {
    && (forall i :: 0 <= i < |msgs| ==> Fits(msgs[i]))
    && (forall i, j :: 0 <= i < j < |msgs| ==> msgs[i].msgId != msgs[j].msgId)
  }

  /** The user is party to a message of the list. */
  ghost predicate Sent(msgs: seq<Message>, user: nat, x: Message) {
    exists i :: 0 <= i < |msgs| && IsParty(user, msgs[i]) && msgs[i] == x
  }

  ghost predicate Replaced(msgs: seq<Message>, user: nat, id: nat) {
    exists i :: 0 <= i < |msgs| && IsParty(user, msgs[i]) && msgs[i].msgId == id
  }

  /** After a whole list of messages every user finds exactly its own ones, and what was not replaced by them. */
  lemma {:induction false} InboxAfterAll(key: KeyOf, db: Db, msgs: seq<Message>, user: nat, x: Message)
    requires TellsApart(key) && Keyed(key, db) && DistinctIds(msgs) && Fits(x) && user < TWO_64
    ensures var after := InsertEach(key, db, msgs);
            && Keyed(key, after)
            && (InInbox(after, user, x) <==>
                Sent(msgs, user, x) || (InInbox(db, user, x) && !Replaced(msgs, user, x.msgId)))
  {
    if |msgs| > 0 {
      var before, m := msgs[..|msgs| - 1], msgs[|msgs| - 1];
      assert before + [m] == msgs;
      OneMoreSent(before, m, user, x);
      InboxAfterAll(key, db, before, user, x);
      InboxAfterInsert(key, InsertEach(key, db, before), m, user, x);
    }
  }

  lemma OneMoreSent(before: seq<Message>, m: Message, user: nat, x: Message)
    requires DistinctIds(before + [m])
    ensures var msgs := before + [m];
            && (Sent(msgs, user, x) <==> Sent(before, user, x) || (IsParty(user, m) && x == m))
            && (Replaced(msgs, user, x.msgId) <==>
                Replaced(before, user, x.msgId) || (IsParty(user, m) && x.msgId == m.msgId))
            && (IsParty(user, m) && x.msgId == m.msgId ==> !Sent(before, user, x))
  {
    var msgs := before + [m];
    assert msgs[|before|] == m;
    assert forall i :: 0 <= i < |before| ==> msgs[i] == before[i];
    if Sent(before, user, x) {
      var i :| 0 <= i < |before| && IsParty(user, before[i]) && before[i] == x;
      assert msgs[i] == before[i];
    }
    if Replaced(before, user, x.msgId) {
      var i :| 0 <= i < |before| && IsParty(user, before[i]) && before[i].msgId == x.msgId;
      assert msgs[i] == before[i];
    }
  }

  // ---------- the query ----------

  const READ_LIMIT := 500

  /** The messages of a user's rows. */
  ghost function InboxOf(db: Db, user: nat): (ms: set<Message>)
    ensures forall m :: m in ms <==> InInbox(db, user, m)
  {
    set k | k in db && k.0 == UserMessages && |db[k]| == 7 && db[k][0] == Int64(user) && ReadInboxRow(db[k]).Some?
      :: ReadInboxRow(db[k]).value
  }

  /** `ORDER BY timestamp DESC LIMIT 500`: newest first, and whatever is left over is no newer. */
  ghost predicate Answers(rows: set<Message>, result: seq<Message>) {
    && (forall i :: 0 <= i < |result| ==> result[i] in rows)
    && (forall i, j :: 0 <= i < j < |result| ==> result[i] != result[j] && result[i].timestamp >= result[j].timestamp)
    && |result| == (if |rows| < READ_LIMIT then |rows| else READ_LIMIT)
    && (forall m, i :: m in rows && m !in result && 0 <= i < |result| ==> m.timestamp <= result[i].timestamp)
  }

  lemma {:induction false} DistinctSize(result: seq<Message>)
    requires forall i, j :: 0 <= i < j < |result| ==> result[i] != result[j]
    ensures |set m | m in result| == |result|
  {
    if |result| > 0 {
      var before := result[..|result| - 1];
      DistinctSize(before);
      assert (set m | m in result) == (set m | m in before) + {result[|result| - 1]};
    }
  }

  lemma SubsetSize(a: set<Message>, b: set<Message>)
    requires a <= b
    ensures |a| <= |b| && (|a| == |b| ==> a == b)
  {
    assert b == a + (b - a);
  }

  /** A message that fewer than 500 others are as new as is in every answer. */
  lemma {:induction false} RecentIsRead(rows: set<Message>, result: seq<Message>, m: Message)
    requires Answers(rows, result) && m in rows
    requires |set x | x in rows && x.timestamp >= m.timestamp| <= READ_LIMIT
    ensures m in result
  {
    var read, recent := set x | x in result, set x | x in rows && x.timestamp >= m.timestamp;
    DistinctSize(result);
    if m !in result {
      SubsetSize(read, rows);
      assert |rows| >= READ_LIMIT;
      assert read <= recent - {m};
      SubsetSize(read, recent - {m});
    }
  }

  lemma {:induction false} InsertEachConcat(key: KeyOf, db: Db, a: seq<Message>, b: seq<Message>)
    ensures InsertEach(key, db, a + b) == InsertEach(key, InsertEach(key, db, a), b)
  {
    if |b| == 0 {
      assert a + b == a;
    } else {
      InsertEachConcat(key, db, a, b[..|b| - 1]);
      assert (a + b)[..|a + b| - 1] == a + b[..|b| - 1];
    }
  }
}

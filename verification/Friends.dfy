/** The friend table of sql/schema.sql under the operations of server/src/dao/friend_dao.cpp. */
module Friends {
  import opened Wrappers

  type User = nat

  datatype Status = Pending | Accepted | Rejected

  datatype Row = Row(user: User, friend: User, status: Status, verifyMsg: string)

  datatype AddResult = Success | AlreadyExists | DbError

  predicate Matches(row: Row, user: User, friend: User) {
    row.user == user && row.friend == friend
  }

  /** `select ... where user_id = user and friend_id = friend`. */
  function StatusOf(rows: seq<Row>, user: User, friend: User): Option<Status> {
    if |rows| == 0 then None
    else if Matches(rows[0], user, friend) then Some(rows[0].status)
    else StatusOf(rows[1..], user, friend)
  }

  /** `update ... set status where user_id = user and friend_id = friend`. */
  function Update(rows: seq<Row>, user: User, friend: User, status: Status): seq<Row> {
    if |rows| == 0 then []
    else
      [if Matches(rows[0], user, friend) then rows[0].(status := status) else rows[0]] +
      Update(rows[1..], user, friend, status)
  }

  /** The unique key on the ordered pair. */
  ghost predicate Unique(rows: seq<Row>) {
    forall i, j :: 0 <= i < j < |rows| ==> rows[i].user != rows[j].user || rows[i].friend != rows[j].friend
  }

  /** The insert of `AddFriend` as the table admits it: a duplicate violates the unique key and is refused. */
  function Requested(rows: seq<Row>, sender: User, receiver: User, msg: string): seq<Row> {
    if StatusOf(rows, sender, receiver).Some? then rows else rows + [Row(sender, receiver, Pending, msg)]
  }

  /** The committed transaction of `HandleFriend`. */
  function Handled(rows: seq<Row>, receiver: User, sender: User, accept: bool): seq<Row> {
    if accept then
      var decided := Update(rows, sender, receiver, Accepted);
      if StatusOf(decided, receiver, sender).None? then decided + [Row(receiver, sender, Accepted, "")]
      else Update(decided, receiver, sender, Accepted)
    else Update(rows, sender, receiver, Rejected)
  }

  class FriendDao {
    var rows: seq<Row>

    /** Other connections run any operations; rows stay unique and none disappears. */
    method Interference()
      requires Unique(rows)
      modifies this
      ensures Unique(rows) && forall u, f :: StatusOf(old(rows), u, f).Some? ==> StatusOf(rows, u, f).Some?
    {
      var ops: seq<Op> := *;
      for i := 0 to |ops|
        invariant Unique(rows) && forall u, f :: StatusOf(old(rows), u, f).Some? ==> StatusOf(rows, u, f).Some?
      {
        ExecKeepsUnique(rows, ops[i]);
        forall u, f
          ensures StatusOf(rows, u, f).Some? ==> StatusOf(Exec(rows, ops[i]), u, f).Some?
        {
          ExecKeepsDecided(rows, ops[i], u, f);
        }
        rows := Exec(rows, ops[i]);
      }
    }

    /**
     Select, then insert, without a transaction around the two. Whatever other connections do in between,
     the table changes exactly by inserting the pending row if it is absent at that moment. `fails` stands
     for a lost connection or a query that throws.
     */
    method AddFriend(sender: User, receiver: User, msg: string, fails: bool)
      returns (result: AddResult, ghost before: seq<Row>)
      requires Unique(rows)
      modifies this
      ensures Unique(rows)
      ensures fails ==> result == DbError && rows == before
      ensures !fails ==> rows == Requested(before, sender, receiver, msg)
      ensures !fails ==> (result == Success <==> StatusOf(before, sender, receiver).None?)
      ensures !fails ==> (result == AlreadyExists <==> StatusOf(old(rows), sender, receiver).Some?)
    {
      var found := StatusOf(rows, sender, receiver).Some?;
      Interference();
      before := rows;
      if fails {
        return DbError, before;
      }
      if found {
        return AlreadyExists, before;
      }
      if StatusOf(rows, sender, receiver).Some? {
        return DbError, before;
      }
      AppendKeepsUnique(rows, Row(sender, receiver, Pending, msg));
      rows := rows + [Row(sender, receiver, Pending, msg)];
      result := Success;
    }

    /** All queries of the transaction commit together, or an error rolls every one of them back. */
    method HandleFriend(receiver: User, sender: User, accept: bool, fails: bool) returns (done: Option<User>)
      requires Unique(rows)
      modifies this
      ensures Unique(rows)
      ensures fails ==> done == None && rows == old(rows)
      ensures !fails ==> done == Some(sender) && rows == Handled(old(rows), receiver, sender, accept)
    {
      HandledKeepsUnique(rows, receiver, sender, accept);
      var saved := rows;
      if accept {
        rows := Update(rows, sender, receiver, Accepted);
        if StatusOf(rows, receiver, sender).None? {
          rows := rows + [Row(receiver, sender, Accepted, "")];
        } else {
          rows := Update(rows, receiver, sender, Accepted);
        }
      } else {
        rows := Update(rows, sender, receiver, Rejected);
      }
      if fails {
        rows := saved;
        return None;
      }
      done := Some(sender);
    }
  }

  // ---------- rows ----------

  lemma {:induction false} StatusFound(rows: seq<Row>, i: nat)
    requires i < |rows|
    ensures StatusOf(rows, rows[i].user, rows[i].friend).Some?
  {
    if i > 0 {
      StatusFound(rows[1..], i - 1);
    }
  }

  lemma AppendKeepsUnique(rows: seq<Row>, row: Row)
    requires Unique(rows) && StatusOf(rows, row.user, row.friend).None?
    ensures Unique(rows + [row])
  {
    forall i | 0 <= i < |rows|
      ensures rows[i].user != row.user || rows[i].friend != row.friend
    {
      StatusFound(rows, i);
    }
  }

  lemma {:induction false} StatusOfAppend(rows: seq<Row>, row: Row, u: User, f: User)
    ensures StatusOf(rows + [row], u, f)
            == if StatusOf(rows, u, f).Some? then StatusOf(rows, u, f)
               else if Matches(row, u, f) then Some(row.status) else None
  {
    if |rows| > 0 {
      StatusOfAppend(rows[1..], row, u, f);
      assert (rows + [row])[1..] == rows[1..] + [row];
    } else {
      assert rows + [row] == [row] && [row][1..] == [];
    }
  }

  lemma {:induction false} UpdateRows(rows: seq<Row>, user: User, friend: User, status: Status)
    ensures var rows' := Update(rows, user, friend, status);
            && |rows'| == |rows|
            && forall i :: 0 <= i < |rows| ==> rows'[i].user == rows[i].user && rows'[i].friend == rows[i].friend
  {
    if |rows| > 0 {
      UpdateRows(rows[1..], user, friend, status);
    }
  }

  lemma {:induction false} StatusOfUpdate(rows: seq<Row>, user: User, friend: User, status: Status, u: User, f: User)
    ensures StatusOf(Update(rows, user, friend, status), u, f)
            == if u == user && f == friend && StatusOf(rows, u, f).Some? then Some(status) else StatusOf(rows, u, f)
  {
    if |rows| > 0 {
      StatusOfUpdate(rows[1..], user, friend, status, u, f);
      assert Update(rows, user, friend, status)[1..] == Update(rows[1..], user, friend, status);
    }
  }

  lemma HandledKeepsUnique(rows: seq<Row>, receiver: User, sender: User, accept: bool)
    requires Unique(rows)
    ensures Unique(Handled(rows, receiver, sender, accept))
  {
    UpdateRows(rows, sender, receiver, if accept then Accepted else Rejected);
    if accept {
      var decided := Update(rows, sender, receiver, Accepted);
      if StatusOf(decided, receiver, sender).None? {
        AppendKeepsUnique(decided, Row(receiver, sender, Accepted, ""));
      } else {
        UpdateRows(decided, receiver, sender, Accepted);
      }
    }
  }

  /** What every query sees after `HandleFriend`. */
  lemma StatusOfHandled(rows: seq<Row>, receiver: User, sender: User, accept: bool, u: User, f: User)
    ensures StatusOf(Handled(rows, receiver, sender, accept), u, f)
            == if accept && u == receiver && f == sender then Some(Accepted)
               else if u == sender && f == receiver && StatusOf(rows, u, f).Some?
                 then Some(if accept then Accepted else Rejected)
               else StatusOf(rows, u, f)
  {
    if accept {
      var decided := Update(rows, sender, receiver, Accepted);
      StatusOfUpdate(rows, sender, receiver, Accepted, u, f);
      if StatusOf(decided, receiver, sender).None? {
        StatusOfAppend(decided, Row(receiver, sender, Accepted, ""), u, f);
      } else {
        StatusOfUpdate(decided, receiver, sender, Accepted, u, f);
      }
    } else {
      StatusOfUpdate(rows, sender, receiver, Rejected, u, f);
    }
  }

  /** A request is pending from then on unless the pair was known already. */
  lemma StatusOfRequested(rows: seq<Row>, sender: User, receiver: User, msg: string, u: User, f: User)
    ensures StatusOf(Requested(rows, sender, receiver, msg), u, f)
            == if u == sender && f == receiver && StatusOf(rows, u, f).None? then Some(Pending)
               else StatusOf(rows, u, f)
  {
    StatusOfAppend(rows, Row(sender, receiver, Pending, msg), u, f);
  }

  /** The message of the row of a pair. */
  function MessageOf(rows: seq<Row>, user: User, friend: User): Option<string> {
    if |rows| == 0 then None
    else if Matches(rows[0], user, friend) then Some(rows[0].verifyMsg)
    else MessageOf(rows[1..], user, friend)
  }

  lemma {:induction false} MessageOfAppend(rows: seq<Row>, row: Row, u: User, f: User)
    ensures MessageOf(rows + [row], u, f)
            == if MessageOf(rows, u, f).Some? then MessageOf(rows, u, f)
               else if Matches(row, u, f) then Some(row.verifyMsg) else None
    ensures MessageOf(rows, u, f).Some? <==> StatusOf(rows, u, f).Some?
  {
    if |rows| > 0 {
      MessageOfAppend(rows[1..], row, u, f);
      assert (rows + [row])[1..] == rows[1..] + [row];
    } else {
      assert rows + [row] == [row] && [row][1..] == [];
    }
  }

  lemma {:induction false} MessageOfUpdate(rows: seq<Row>, user: User, friend: User, status: Status, u: User, f: User)
    ensures MessageOf(Update(rows, user, friend, status), u, f) == MessageOf(rows, u, f)
  {
    if |rows| > 0 {
      MessageOfUpdate(rows[1..], user, friend, status, u, f);
      assert Update(rows, user, friend, status)[1..] == Update(rows[1..], user, friend, status);
    }
  }

  /** A request is stored with its message, unless the pair was known already. */
  lemma MessageOfRequested(rows: seq<Row>, sender: User, receiver: User, msg: string, u: User, f: User)
    ensures MessageOf(Requested(rows, sender, receiver, msg), u, f)
            == if u == sender && f == receiver && StatusOf(rows, u, f).None? then Some(msg) else MessageOf(rows, u, f)
  {
    MessageOfAppend(rows, Row(sender, receiver, Pending, msg), u, f);
  }

  /** Handling a request changes no message. */
  lemma MessageOfHandled(rows: seq<Row>, receiver: User, sender: User, accept: bool, u: User, f: User)
    requires MessageOf(rows, u, f).Some?
    ensures MessageOf(Handled(rows, receiver, sender, accept), u, f) == MessageOf(rows, u, f)
  {
    MessageOfUpdate(rows, sender, receiver, if accept then Accepted else Rejected, u, f);
    if accept {
      var decided := Update(rows, sender, receiver, Accepted);
      MessageOfAppend(decided, Row(receiver, sender, Accepted, ""), u, f);
      MessageOfUpdate(decided, receiver, sender, Accepted, u, f);
    }
  }

  /** `GetPendingRequests`: the senders whose request to `user` is undecided, with their messages. */
  function PendingFor(rows: seq<Row>, user: User): seq<(User, string)> {
    if |rows| == 0 then []
    else
      (if rows[0].friend == user && rows[0].status == Pending then [(rows[0].user, rows[0].verifyMsg)] else []) +
      PendingFor(rows[1..], user)
  }

  /** Exactly the pending senders are listed, with the message of their request; with the unique key each once. */
  lemma {:induction false} PendingForIsExact(rows: seq<Row>, user: User, sender: User, msg: string)
    requires Unique(rows)
    ensures multiset(PendingFor(rows, user))[(sender, msg)]
            == if StatusOf(rows, sender, user) == Some(Pending) && MessageOf(rows, sender, user) == Some(msg)
               then 1 else 0
  {
    if |rows| > 0 {
      PendingForIsExact(rows[1..], user, sender, msg);
      if Matches(rows[0], sender, user) {
        NoDuplicate(rows, 0);
      }
    }
  }

  lemma {:induction false} NoDuplicate(rows: seq<Row>, i: nat)
    requires i < |rows| && Unique(rows)
    ensures StatusOf(rows[i + 1..], rows[i].user, rows[i].friend).None?
  {
    AbsentStatus(rows[i + 1..], rows[i].user, rows[i].friend);
  }

  lemma {:induction false} AbsentStatus(rows: seq<Row>, u: User, f: User)
    requires forall i :: 0 <= i < |rows| ==> !Matches(rows[i], u, f)
    ensures StatusOf(rows, u, f).None?
  {
    if |rows| > 0 {
      AbsentStatus(rows[1..], u, f);
    }
  }

  // ---------- symmetry ----------

  ghost predicate Symmetric(rows: seq<Row>) {
    forall u, f :: StatusOf(rows, u, f) == Some(Accepted) ==> StatusOf(rows, f, u) == Some(Accepted)
  }

  /**
   `HandleFriend` does not look at the request's status. From a symmetric table it leaves a symmetric one
   exactly when an acceptance finds the request, and a rejection does not hit an accepted friendship.
   */
  lemma HandledSymmetricIff(rows: seq<Row>, receiver: User, sender: User, accept: bool)
    requires Symmetric(rows)
    ensures Symmetric(Handled(rows, receiver, sender, accept)) <==>
              || receiver == sender
              || (accept && StatusOf(rows, sender, receiver).Some?)
              || (!accept && StatusOf(rows, sender, receiver) != Some(Accepted))
  {
    var rows' := Handled(rows, receiver, sender, accept);
    forall u, f
      ensures StatusOf(rows', u, f)
              == if accept && u == receiver && f == sender then Some(Accepted)
                 else if u == sender && f == receiver && StatusOf(rows, u, f).Some?
                   then Some(if accept then Accepted else Rejected)
                 else StatusOf(rows, u, f)
    {
      StatusOfHandled(rows, receiver, sender, accept, u, f);
    }
    if !accept && StatusOf(rows, sender, receiver) == Some(Accepted) && receiver != sender {
      assert StatusOf(rows', receiver, sender) == Some(Accepted);
    }
    if accept && StatusOf(rows, sender, receiver).None? && receiver != sender {
      assert StatusOf(rows', receiver, sender) == Some(Accepted);
    }
  }

  // ---------- whole runs ----------

  datatype Op =
    | Add(sender: User, receiver: User, msg: string)
    | Handle(receiver: User, sender: User, accept: bool)

  function Exec(rows: seq<Row>, op: Op): seq<Row> {
    match op
    case Add(s, r, m) => Requested(rows, s, r, m)
    case Handle(r, s, accept) => Handled(rows, r, s, accept)
  }

  function Run(ops: seq<Op>): seq<Row> {
    if |ops| == 0 then [] else Exec(Run(ops[..|ops| - 1]), ops[|ops| - 1])
  }

  predicate Decided(s: Option<Status>) {
    s == Some(Accepted) || s == Some(Rejected)
  }

  lemma ExecKeepsDecided(rows: seq<Row>, op: Op, u: User, f: User)
    ensures Decided(StatusOf(rows, u, f)) ==> Decided(StatusOf(Exec(rows, op), u, f))
    ensures StatusOf(rows, u, f).Some? ==> StatusOf(Exec(rows, op), u, f).Some?
  {
    match op
    case Add(s, r, m) => StatusOfRequested(rows, s, r, m, u, f);
    case Handle(r, s, accept) => StatusOfHandled(rows, r, s, accept, u, f);
  }

  lemma ExecKeepsUnique(rows: seq<Row>, op: Op)
    requires Unique(rows)
    ensures Unique(Exec(rows, op))
  {
    match op
    case Add(s, r, m) =>
      if StatusOf(rows, s, r).None? {
        AppendKeepsUnique(rows, Row(s, r, Pending, m));
      }
    case Handle(r, s, accept) => HandledKeepsUnique(rows, r, s, accept);
  }

  /** In every run there is at most one row per ordered pair. */
  lemma {:induction false} RunIsUnique(ops: seq<Op>)
    ensures Unique(Run(ops))
  {
    if |ops| > 0 {
      RunIsUnique(ops[..|ops| - 1]);
      ExecKeepsUnique(Run(ops[..|ops| - 1]), ops[|ops| - 1]);
    }
  }

  /** However a run goes on, a request keeps the message it was made with. */
  lemma {:induction false} MessageStays(ops: seq<Op>, more: seq<Op>, u: User, f: User)
    requires MessageOf(Run(ops), u, f).Some?
    ensures MessageOf(Run(ops + more), u, f) == MessageOf(Run(ops), u, f)
  {
    if |more| == 0 {
      assert ops + more == ops;
    } else {
      var rest := more[..|more| - 1];
      MessageStays(ops, rest, u, f);
      assert (ops + more)[..|ops + more| - 1] == ops + rest;
      var rows := Run(ops + rest);
      match more[|more| - 1]
      case Add(s, r, m) =>
        MessageOfAppend(rows, Row(s, r, Pending, m), u, f);
        MessageOfRequested(rows, s, r, m, u, f);
      case Handle(r, s, accept) => MessageOfHandled(rows, r, s, accept, u, f);
    }
  }

  /** However a run goes on, no decided row becomes pending again and no row disappears. */
  lemma {:induction false} DecidedStaysDecided(ops: seq<Op>, more: seq<Op>, u: User, f: User)
    ensures Decided(StatusOf(Run(ops), u, f)) ==> Decided(StatusOf(Run(ops + more), u, f))
    ensures StatusOf(Run(ops), u, f).Some? ==> StatusOf(Run(ops + more), u, f).Some?
  {
    if |more| == 0 {
      assert ops + more == ops;
    } else {
      var rest := more[..|more| - 1];
      DecidedStaysDecided(ops, rest, u, f);
      assert (ops + more)[..|ops + more| - 1] == ops + rest;
      ExecKeepsDecided(Run(ops + rest), more[|more| - 1], u, f);
    }
  }

  /** Accepting a request that was never made makes a one-sided friendship; nothing in `HandleFriend` asks. */
  lemma {:induction false} FriendshipCanBeOneSided()
    ensures !Symmetric(Run([Handle(1, 2, true)]))
  {
    assert [Handle(1, 2, true)][..0] == [];
    var rows := Run([Handle(1, 2, true)]);
    assert rows == Handled([], 1, 2, true);
    StatusOfHandled([], 1, 2, true, 1, 2);
    StatusOfHandled([], 1, 2, true, 2, 1);
    assert StatusOf(rows, 1, 2) == Some(Accepted) && StatusOf(rows, 2, 1) == None;
  }

  /** And rejecting a request that has been accepted before leaves one side of the friendship. */
  lemma {:induction false} RejectionCanBeOneSided()
    ensures !Symmetric(Run([Add(2, 1, ""), Handle(1, 2, true), Handle(1, 2, false)]))
  {
    var ops := [Add(2, 1, ""), Handle(1, 2, true), Handle(1, 2, false)];
    assert ops[..2] == [Add(2, 1, ""), Handle(1, 2, true)] && ops[..2][..1] == [Add(2, 1, "")] && ops[..1][..0] == [];
    var asked := Requested([], 2, 1, "");
    var friends := Handled(asked, 1, 2, true);
    assert Run(ops[..1]) == asked && Run(ops[..2]) == friends;
    assert Run(ops) == Handled(friends, 1, 2, false);
    StatusOfRequested([], 2, 1, "", 2, 1);
    StatusOfHandled(asked, 1, 2, true, 1, 2);
    StatusOfHandled(asked, 1, 2, true, 2, 1);
    StatusOfHandled(friends, 1, 2, false, 1, 2);
    StatusOfHandled(friends, 1, 2, false, 2, 1);
    assert StatusOf(Run(ops), 1, 2) == Some(Accepted) && StatusOf(Run(ops), 2, 1) == Some(Rejected);
  }

  /** Every request in the run is handled while it is pending. */
  ghost predicate HandlesOnlyPending(ops: seq<Op>) {
    forall i :: 0 <= i < |ops| && ops[i].Handle? ==>
      StatusOf(Run(ops[..i]), ops[i].sender, ops[i].receiver) == Some(Pending)
  }

  /** If requests are handled only while pending, accepted friendship is symmetric throughout. */
  lemma {:induction false} FriendshipStaysSymmetric(ops: seq<Op>)
    requires HandlesOnlyPending(ops)
    ensures Symmetric(Run(ops))
  {
    if |ops| > 0 {
      var before, op := ops[..|ops| - 1], ops[|ops| - 1];
      forall i | 0 <= i < |before|
        ensures before[..i] == ops[..i]
      {
      }
      FriendshipStaysSymmetric(before);
      var rows := Run(before);
      match op
      case Add(s, r, m) =>
        forall u, f
          ensures StatusOf(Exec(rows, op), u, f) == Some(Accepted) <==> StatusOf(rows, u, f) == Some(Accepted)
        {
          StatusOfRequested(rows, s, r, m, u, f);
        }
      case Handle(r, s, accept) =>
        assert ops[|before|] == op && ops[..|before|] == before;
        HandledSymmetricIff(rows, r, s, accept);
    }
  }
}

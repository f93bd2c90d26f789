/** The rows of the server's SQLite tables and the queries the route
    handlers run on them, as functions on sequences of rows.

    A table is a sequence in row-id order. For a query without ORDER BY
    that is one order SQLite may return rows in, not the only one; here it
    decides which pending call `check_call` reports and the order of the
    user list. */
module ServerTables {
  import opened Wrappers

  /** `users`: the password is stored as given (the source does not hash it). */
  datatype UserRow = UserRow(username: string, password: string, email: string)

  datatype CallStatus = Pending | Accepted

  /** `calls`, without the row id and the creation time. */
  datatype CallRow = CallRow(caller: string, receiver: string, callId: string, status: CallStatus)

  /** `messages`; the timestamp is the insertion time, given by the caller. */
  datatype MessageRow = MessageRow(sender: string, receiver: string, message: string, isSystem: bool, timestamp: int)

  /** `recovery`; the expiry is a time given by the caller. */
  datatype RecoveryRow = RecoveryRow(username: string, recoveryId: string, expiresAt: int)

  // ---------------------------------------------------------------------------
  // Filtering, the WHERE clause of SELECT and DELETE
  // ---------------------------------------------------------------------------

  /** The rows that satisfy `keep`, in table order. */
  function Filter<T(!new)>(s: seq<T>, keep: T -> bool): (r: seq<T>)
    ensures |r| <= |s|
    ensures forall x :: x in r <==> x in s && keep(x)
    ensures forall x :: multiset(r)[x] == if keep(x) then multiset(s)[x] else 0
  {
    if s == [] then []
    else
      var rest := Filter(s[1..], keep);
      assert s == [s[0]] + s[1..];
      if keep(s[0]) then [s[0]] + rest else rest
  }

  /** Filtering twice with the same condition is filtering once: a repeated
      DELETE removes nothing more. */
  lemma {:induction false} FilterIdempotent<T(!new)>(s: seq<T>, keep: T -> bool)
    ensures Filter(Filter(s, keep), keep) == Filter(s, keep)
  {
    if s != [] {
      FilterIdempotent(s[1..], keep);
    }
  }

  // ---------------------------------------------------------------------------
  // users
  // ---------------------------------------------------------------------------

  /** The UNIQUE constraints on `username` and on `email`: no two rows share
      either, and no row is there twice. */
  predicate UsersUnique(users: seq<UserRow>) {
    && (forall u, v :: u in users && v in users && (u.username == v.username || u.email == v.email) ==> u == v)
    && (forall u :: u in users ==> multiset(users)[u] <= 1)
  }

  predicate HasUser(users: seq<UserRow>, name: string) {
    exists u :: u in users && u.username == name
  }

  predicate HasEmail(users: seq<UserRow>, email: string) {
    exists u :: u in users && u.email == email
  }

  /** `SELECT ... FROM users WHERE username = ?`, first row. */
  function FindUser(users: seq<UserRow>, name: string): (r: Option<UserRow>)
    ensures r.Some? <==> HasUser(users, name)
    ensures r.Some? ==> r.value in users && r.value.username == name
  {
    if users == [] then None
    else if users[0].username == name then Some(users[0])
    else
      var r := FindUser(users[1..], name);
      assert forall u :: u in users[1..] ==> u in users;
      assert HasUser(users, name) ==> users[0].username == name || HasUser(users[1..], name) by {
        if HasUser(users, name) {
          var u :| u in users && u.username == name;
          assert users == [users[0]] + users[1..];
        }
      }
      r
  }

  /** Under the UNIQUE constraint a name has one row, so the first row found
      is the only one. */
  lemma FindUserIsTheRow(users: seq<UserRow>, u: UserRow)
    requires UsersUnique(users) && u in users
    ensures FindUser(users, u.username) == Some(u)
  {
  }

  /** The row INSERT adds when the constraints let it. */
  lemma InsertKeepsUnique(users: seq<UserRow>, u: UserRow)
    requires UsersUnique(users)
    requires !HasUser(users, u.username) && !HasEmail(users, u.email)
    ensures UsersUnique(users + [u])
  {
    assert u !in users;
    assert multiset(users + [u]) == multiset(users) + multiset{u};
  }

  /** `SELECT username FROM users WHERE username != ?`, in table order. */
  function UsernamesExcept(users: seq<UserRow>, me: string): (r: seq<string>)
    ensures forall x :: x in r <==> x != me && HasUser(users, x)
  {
    if users == [] then []
    else
      var rest := UsernamesExcept(users[1..], me);
      assert users == [users[0]] + users[1..];
      assert forall x :: HasUser(users, x) <==> users[0].username == x || HasUser(users[1..], x) by {
        forall x ensures HasUser(users, x) ==> users[0].username == x || HasUser(users[1..], x) {
          if HasUser(users, x) {
            var u :| u in users && u.username == x;
          }
        }
      }
      if users[0].username != me then [users[0].username] + rest else rest
  }

  /** The list grows row by row, as the handler's list comprehension builds it. */
  lemma {:induction false} UsernamesExceptSnoc(users: seq<UserRow>, u: UserRow, me: string)
    ensures UsernamesExcept(users + [u], me)
      == UsernamesExcept(users, me) + (if u.username != me then [u.username] else [])
    decreases |users|
  {
    if users == [] {
      assert [] + [u] == [u];
    } else {
      assert (users + [u])[1..] == users[1..] + [u];
      UsernamesExceptSnoc(users[1..], u, me);
    }
  }

  predicate Distinct<T(==)>(s: seq<T>) {
    forall i, j :: 0 <= i < j < |s| ==> s[i] != s[j]
  }

  /** Under the UNIQUE constraint the user list names nobody twice. */
  lemma {:induction false} UsernamesExceptDistinct(users: seq<UserRow>, me: string)
    requires UsersUnique(users)
    ensures Distinct(UsernamesExcept(users, me))
  {
    if users != [] {
      var tail := users[1..];
      assert users == [users[0]] + tail;
      assert multiset(users) == multiset{users[0]} + multiset(tail);
      assert UsersUnique(tail) by {
        assert forall u :: u in tail ==> u in users;
      }
      UsernamesExceptDistinct(tail, me);
      var rest := UsernamesExcept(tail, me);
      assert users[0] in users && multiset(users)[users[0]] == 1 + multiset(tail)[users[0]];
      assert users[0] !in tail;
      assert users[0].username !in rest;
      if users[0].username != me {
        assert UsernamesExcept(users, me) == [users[0].username] + rest;
      }
    }
  }

  // ---------------------------------------------------------------------------
  // calls
  // ---------------------------------------------------------------------------

  /** The UNIQUE constraint on `call_id`. */
  predicate CallIdsUnique(calls: seq<CallRow>) {
    forall i, j :: 0 <= i < j < |calls| ==> calls[i].callId != calls[j].callId
  }

  predicate HasCallId(calls: seq<CallRow>, id: string) {
    exists c :: c in calls && c.callId == id
  }

  predicate PendingFor(c: CallRow, me: string) {
    c.receiver == me && c.status == Pending
  }

  /** `SELECT caller, receiver FROM calls WHERE call_id = ? AND status = 'pending'`, first row. */
  function FindPendingCall(calls: seq<CallRow>, id: string): (r: Option<CallRow>)
    ensures r.Some? <==> exists c :: c in calls && c.callId == id && c.status == Pending
    ensures r.Some? ==> r.value in calls && r.value.callId == id && r.value.status == Pending
  {
    if calls == [] then None
    else if calls[0].callId == id && calls[0].status == Pending then Some(calls[0])
    else
      assert calls == [calls[0]] + calls[1..];
      FindPendingCall(calls[1..], id)
  }

  /** `SELECT call_id, caller FROM calls WHERE receiver = ? AND status = 'pending'`,
      the first row: the earliest pending call to `me`. */
  function FirstPendingFor(calls: seq<CallRow>, me: string): (r: Option<nat>)
    ensures r.Some? <==> exists c :: c in calls && PendingFor(c, me)
    ensures r.Some? ==> r.value < |calls| && PendingFor(calls[r.value], me)
    ensures r.Some? ==> forall i :: 0 <= i < r.value ==> !PendingFor(calls[i], me)
  {
    if calls == [] then None
    else if PendingFor(calls[0], me) then Some(0)
    else
      assert calls == [calls[0]] + calls[1..];
      var r := FirstPendingFor(calls[1..], me);
      if r.Some? then Some(r.value + 1) else None
  }

  /** `UPDATE calls SET status = 'accepted' WHERE call_id = ?`: no row is
      added, removed or moved, no id or party changes, the rows with that id
      are accepted, the others are untouched, and ids stay unique. */
  function SetAccepted(calls: seq<CallRow>, id: string): (r: seq<CallRow>)
    ensures |r| == |calls|
    ensures forall i :: 0 <= i < |calls| ==>
      r[i].callId == calls[i].callId && r[i].caller == calls[i].caller && r[i].receiver == calls[i].receiver
    ensures forall i :: 0 <= i < |calls| && calls[i].callId == id ==> r[i].status == Accepted
    ensures forall i :: 0 <= i < |calls| && calls[i].callId != id ==> r[i] == calls[i]
    ensures CallIdsUnique(calls) ==> CallIdsUnique(r)
    ensures !HasCallId(calls, id) ==> r == calls
  {
    seq(|calls|, i requires 0 <= i < |calls| =>
      if calls[i].callId == id then calls[i].(status := Accepted) else calls[i])
  }

  /** Under the UNIQUE constraint on `call_id`, the update changes exactly one
      row: the one with that id. */
  lemma SetAcceptedOneRow(calls: seq<CallRow>, id: string, i: nat)
    requires CallIdsUnique(calls) && i < |calls| && calls[i].callId == id
    ensures SetAccepted(calls, id) == calls[i := calls[i].(status := Accepted)]
  {
    var r := SetAccepted(calls, id);
    forall j | 0 <= j < |calls| && j != i ensures r[j] == calls[j] {
      assert calls[j].callId != id by {
        if j < i { assert calls[j].callId != calls[i].callId; }
        else { assert calls[i].callId != calls[j].callId; }
      }
    }
  }

  /** `DELETE FROM calls WHERE call_id = ?`. */
  function RemoveCall(calls: seq<CallRow>, id: string): (r: seq<CallRow>)
    ensures forall c :: c in r <==> c in calls && c.callId != id
  {
    if calls == [] then []
    else
      assert calls == [calls[0]] + calls[1..];
      if calls[0].callId == id then RemoveCall(calls[1..], id)
      else [calls[0]] + RemoveCall(calls[1..], id)
  }

  /** The DELETE is the WHERE filter `call_id != ?`: the kept rows stay in
      table order with their multiplicities. */
  lemma {:induction false} RemoveCallIsFilter(calls: seq<CallRow>, id: string)
    ensures RemoveCall(calls, id) == Filter(calls, (c: CallRow) => c.callId != id)
    ensures forall c :: multiset(RemoveCall(calls, id))[c] == if c.callId != id then multiset(calls)[c] else 0
  {
    if calls != [] {
      RemoveCallIsFilter(calls[1..], id);
    }
  }

  lemma {:induction false} RemoveCallKeepsUnique(calls: seq<CallRow>, id: string)
    requires CallIdsUnique(calls)
    ensures CallIdsUnique(RemoveCall(calls, id))
  {
    if calls != [] {
      var tail := calls[1..];
      assert CallIdsUnique(tail) by {
        forall i, j | 0 <= i < j < |tail| ensures tail[i].callId != tail[j].callId {
          assert tail[i] == calls[i + 1] && tail[j] == calls[j + 1];
        }
      }
      RemoveCallKeepsUnique(tail, id);
      var rest := RemoveCall(tail, id);
      if calls[0].callId != id {
        var r := [calls[0]] + rest;
        forall i, j | 0 <= i < j < |r| ensures r[i].callId != r[j].callId {
          if i == 0 {
            assert r[j] == rest[j - 1] && rest[j - 1] in rest;
            var k :| 0 <= k < |tail| && tail[k] == r[j];
            assert calls[k + 1] == r[j];
          } else {
            assert r[i] == rest[i - 1] && r[j] == rest[j - 1];
          }
        }
      }
    }
  }

  /** Deleting a call twice is deleting it once, and deleting an id that has
      no row changes nothing. */
  lemma {:induction false} RemoveCallIdempotent(calls: seq<CallRow>, id: string)
    ensures RemoveCall(RemoveCall(calls, id), id) == RemoveCall(calls, id)
    ensures !HasCallId(calls, id) ==> RemoveCall(calls, id) == calls
  {
    if calls != [] {
      RemoveCallIdempotent(calls[1..], id);
      assert forall c :: c in calls[1..] ==> c in calls;
    }
  }

  /** An accepted call is never reported as incoming. */
  lemma AcceptedNotReported(calls: seq<CallRow>, id: string, me: string)
    requires CallIdsUnique(calls)
    requires forall c :: c in calls && PendingFor(c, me) ==> c.callId == id
    ensures FirstPendingFor(SetAccepted(calls, id), me).None?
  {
    var r := SetAccepted(calls, id);
    forall c | c in r ensures !PendingFor(c, me) {
      var i :| 0 <= i < |r| && r[i] == c;
      assert calls[i] in calls;
    }
  }

  // ---------------------------------------------------------------------------
  // messages and recovery
  // ---------------------------------------------------------------------------

  /** The WHERE clause of `get_messages`: one of the two users sent the
      message to the other. */
  predicate Between(m: MessageRow, a: string, b: string) {
    (m.sender == a && m.receiver == b) || (m.sender == b && m.receiver == a)
  }

  /** The messages between `a` and `b`, in either direction, with their
      multiplicities. */
  function Conversation(msgs: seq<MessageRow>, a: string, b: string): (r: seq<MessageRow>)
    ensures forall m :: multiset(r)[m] == if Between(m, a, b) then multiset(msgs)[m] else 0
  {
    Filter(msgs, (m: MessageRow) => Between(m, a, b))
  }

  /** Both users of a conversation read the same messages. */
  lemma ConversationSymmetric(msgs: seq<MessageRow>, a: string, b: string)
    ensures multiset(Conversation(msgs, a, b)) == multiset(Conversation(msgs, b, a))
  {
    assert forall m :: Between(m, a, b) == Between(m, b, a);
  }

  predicate SortedByTime(ms: seq<MessageRow>) {
    forall i, j :: 0 <= i < j < |ms| ==> ms[i].timestamp <= ms[j].timestamp
  }

  function InsertByTime(m: MessageRow, ms: seq<MessageRow>): (r: seq<MessageRow>)
    requires SortedByTime(ms)
    ensures SortedByTime(r)
    ensures multiset(r) == multiset(ms) + multiset{m}
  {
    if ms == [] then [m]
    else if m.timestamp <= ms[0].timestamp then [m] + ms
    else
      var rest := InsertByTime(m, ms[1..]);
      assert ms == [ms[0]] + ms[1..];
      FirstIsLowest(ms[0], ms[1..], m, rest);
      [ms[0]] + rest
  }

  lemma FirstIsLowest(first: MessageRow, tail: seq<MessageRow>, m: MessageRow, rest: seq<MessageRow>)
    requires SortedByTime([first] + tail) && first.timestamp < m.timestamp
    requires SortedByTime(rest) && multiset(rest) == multiset(tail) + multiset{m}
    ensures SortedByTime([first] + rest)
  {
    forall i | 0 <= i < |rest| ensures first.timestamp <= rest[i].timestamp {
      assert rest[i] in multiset(rest);
      if rest[i] != m {
        assert rest[i] in tail;
        var k :| 0 <= k < |tail| && tail[k] == rest[i];
        var s := [first] + tail;
        assert s[0] == first && s[k + 1] == rest[i];
      }
    }
  }

  /** `ORDER BY timestamp`: SQLite leaves the order of equal timestamps
      open; this sort keeps table order among them. */
  function SortByTime(ms: seq<MessageRow>): (r: seq<MessageRow>)
    ensures SortedByTime(r)
    ensures multiset(r) == multiset(ms)
  {
    if ms == [] then []
    else
      assert ms == [ms[0]] + ms[1..];
      InsertByTime(ms[0], SortByTime(ms[1..]))
  }

  /** `DELETE FROM users WHERE username = ?`. */
  function RemoveUser(users: seq<UserRow>, name: string): (r: seq<UserRow>)
    ensures forall u :: u in r <==> u in users && u.username != name
  {
    Filter(users, (u: UserRow) => u.username != name)
  }

  /** `DELETE FROM messages WHERE sender = ? OR receiver = ?`. */
  function RemoveMessagesOf(msgs: seq<MessageRow>, name: string): (r: seq<MessageRow>)
    ensures forall m :: m in r <==> m in msgs && m.sender != name && m.receiver != name
  {
    Filter(msgs, (m: MessageRow) => m.sender != name && m.receiver != name)
  }

  /** `DELETE FROM recovery WHERE username = ?`. */
  function RemoveRecoveryOf(recovery: seq<RecoveryRow>, name: string): (r: seq<RecoveryRow>)
    ensures forall x :: x in r <==> x in recovery && x.username != name
  {
    Filter(recovery, (x: RecoveryRow) => x.username != name)
  }

  /** Removing a user keeps both UNIQUE constraints. */
  lemma RemoveUserKeepsUnique(users: seq<UserRow>, name: string)
    requires UsersUnique(users)
    ensures UsersUnique(RemoveUser(users, name))
  {
  }
}

/** The route handlers of the server that read or change the call, user,
    message and recovery tables, as functions from the tables and the
    request to the new tables and the response.

    The authentication cookie, the JSON body, the fresh call id that
    `uuid.uuid4()` would give and the insertion time are parameters.  Each
    handler follows the source's order of checks, with its error strings and
    status codes. */
module Routes {
  import opened Wrappers
  import opened ServerTables

  datatype Db = Db(users: seq<UserRow>, calls: seq<CallRow>, messages: seq<MessageRow>, recovery: seq<RecoveryRow>)

  /** The UNIQUE constraints of the schema that the handlers rely on. */
  predicate DbValid(db: Db) {
    UsersUnique(db.users) && CallIdsUnique(db.calls)
  }

  /** A member value of a JSON object body: a string, or any other JSON
      value (number, boolean, null, list, object). */
  datatype Member = Text(text: string) | NonText

  /** What `request.get_json()` gives:
      - `Unparsable`: a body that does not parse; the call raises inside the
        handler's `try`, and its `except` answers 500;
      - `Null`: JSON `null`;
      - `Object`: a JSON object, member by member;
      - `Scalar`: a top-level array, string, number or boolean, with its
        Python truthiness. */
  datatype RequestBody =
    | Unparsable
    | Null
    | Object(members: map<string, Member>)
    | Scalar(truthy: bool)

  /** `data.get(key)`, kept only when it is a non-empty string. */
  function Field(body: RequestBody, key: string): (r: Option<string>)
    ensures r.Some? <==> body.Object? && key in body.members && body.members[key].Text? && body.members[key].text != ""
    ensures r.Some? ==> body.members[key] == Text(r.value)
  {
    if body.Object? && key in body.members && body.members[key].Text? && body.members[key].text != ""
    then Some(body.members[key].text) else None
  }

  /** `not data`: JSON null, an empty object, or a falsy scalar (`[]`, `""`,
      `0`, `false`).  An object with any member is truthy, whatever the
      member's value. */
  predicate Falsy(body: RequestBody) {
    body.Null? || (body.Object? && body.members == map[]) || (body.Scalar? && !body.truthy)
  }

  /** The body makes the handler raise before any table is touched: either
      `get_json` fails, or the body is a truthy scalar and `data.get`
      raises `AttributeError`.  Every handler's `except` answers 500. */
  predicate Raises(body: RequestBody) {
    body.Unparsable? || (body.Scalar? && body.truthy)
  }

  datatype ResponseBody =
    | Error(error: string)
    | Info(message: string)
    | CallInitiated(callId: string)                 // with 'message': 'Call initiated'
    | CallAccepted(caller: string)                  // with 'message': 'Call accepted'
    | IncomingCall(callId: string, caller: string)  // 'has_call': true
    | NoIncomingCall                                // 'has_call': false
    | UserList(usernames: seq<string>)
    | MessageList(messages: seq<MessageRow>)

  /** What the response does to the `username` cookie. */
  datatype CookieChange = KeepCookie | SetUsername(name: string, maxAge: nat) | DeleteUsername

  datatype Response = Response(status: nat, body: ResponseBody, cookie: CookieChange)

  datatype Outcome = Outcome(db: Db, response: Response)

  const CookieMaxAge: nat := 3600

  function Reply(status: nat, body: ResponseBody): Response {
    Response(status, body, KeepCookie)
  }

  const Unauthorized := Reply(401, Error("Unauthorized"))
  const InvalidJson := Reply(400, Error("Invalid JSON data"))

  /** `check_auth(request.cookies)`: the `username` cookie, when it is there,
      not empty, and names a user. */
  function CheckAuth(db: Db, cookie: Option<string>): (u: Option<string>)
    ensures u.Some? <==> cookie.Some? && cookie.value != "" && HasUser(db.users, cookie.value)
    ensures u.Some? ==> u.value == cookie.value
  {
    if cookie.None? || cookie.value == "" then None
    else
      match FindUser(db.users, cookie.value)
      case None => None
      case Some(row) => Some(row.username)
  }

  // ---------------------------------------------------------------------------
  // The call table
  // ---------------------------------------------------------------------------

  /** POST /call/initiate. */
  function InitiateCall(db: Db, cookie: Option<string>, body: RequestBody, freshId: string): Outcome {
    var me := CheckAuth(db, cookie);
    if me.None? then Outcome(db, Unauthorized)
    else if Raises(body) then Outcome(db, Reply(500, Error("Server error during call initiation")))
    else if Falsy(body) then Outcome(db, InvalidJson)
    else
      var receiver := Field(body, "receiver");
      if receiver.None? then Outcome(db, Reply(400, Error("Receiver is required")))
      else if !HasUser(db.users, receiver.value) then Outcome(db, Reply(404, Error("User not found")))
      // a clash with an existing call_id breaks the UNIQUE constraint
      else if HasCallId(db.calls, freshId) then Outcome(db, Reply(500, Error("Server error during call initiation")))
      else Outcome(db.(calls := db.calls + [CallRow(me.value, receiver.value, freshId, Pending)]),
                   Reply(200, CallInitiated(freshId)))
  }

  /** POST /call/accept. */
  function AcceptCall(db: Db, cookie: Option<string>, body: RequestBody): Outcome {
    var me := CheckAuth(db, cookie);
    if me.None? then Outcome(db, Unauthorized)
    else if Raises(body) then Outcome(db, Reply(500, Error("Server error during call acceptance")))
    else if Falsy(body) then Outcome(db, InvalidJson)
    else
      var id := Field(body, "call_id");
      if id.None? then Outcome(db, Reply(400, Error("Call ID is required")))
      else
        var call := FindPendingCall(db.calls, id.value);
        if call.None? || call.value.receiver != me.value then
          Outcome(db, Reply(400, Error("Invalid call or not authorized")))
        else Outcome(db.(calls := SetAccepted(db.calls, id.value)), Reply(200, CallAccepted(call.value.caller)))
  }

  /** POST /call/end.  Any signed-in user may end any call. */
  function EndCall(db: Db, cookie: Option<string>, body: RequestBody): Outcome {
    var me := CheckAuth(db, cookie);
    if me.None? then Outcome(db, Unauthorized)
    else if Raises(body) then Outcome(db, Reply(500, Error("Server error during call ending")))
    else if Falsy(body) then Outcome(db, InvalidJson)
    else
      var id := Field(body, "call_id");
      if id.None? then Outcome(db, Reply(400, Error("Call ID is required")))
      else Outcome(db.(calls := RemoveCall(db.calls, id.value)), Reply(200, Info("Call ended")))
  }

  /** GET /call/check: the earliest pending call to the signed-in user. */
  function CheckCall(db: Db, cookie: Option<string>): Response {
    var me := CheckAuth(db, cookie);
    if me.None? then Unauthorized
    else
      match FirstPendingFor(db.calls, me.value)
      case None => Reply(200, NoIncomingCall)
      case Some(i) => Reply(200, IncomingCall(db.calls[i].callId, db.calls[i].caller))
  }

  // ---------------------------------------------------------------------------
  // Users and messages
  // ---------------------------------------------------------------------------

  /** POST /register.  The password is stored as given. */
  function Register(db: Db, body: RequestBody): Outcome {
    if Raises(body) then Outcome(db, Reply(500, Error("Server error during registration")))
    else if Falsy(body) then Outcome(db, InvalidJson)
    else
      var username := Field(body, "username");
      var password := Field(body, "password");
      var email := Field(body, "email");
      if username.None? || password.None? || email.None? then
        Outcome(db, Reply(400, Error("Username, password, and email are required")))
      else if HasUser(db.users, username.value) || HasEmail(db.users, email.value) then
        Outcome(db, Reply(400, Error("Username or email already exists")))
      else
        Outcome(db.(users := db.users + [UserRow(username.value, password.value, email.value)]),
                Response(201, Info("User registered successfully"), SetUsername(username.value, CookieMaxAge)))
  }

  /** POST /login: the stored password must equal the one given. */
  function Login(db: Db, body: RequestBody): Response {
    if Raises(body) then Reply(500, Error("Server error during login"))
    else if Falsy(body) then InvalidJson
    else
      var username := Field(body, "username");
      var password := Field(body, "password");
      if username.None? || password.None? then Reply(400, Error("Username and password are required"))
      else
        var row := FindUser(db.users, username.value);
        if row.Some? && row.value.password == password.value then
          Response(200, Info("Login successful"), SetUsername(username.value, CookieMaxAge))
        else Reply(401, Error("Invalid username or password"))
  }

  /** POST /deleteacc: reads the cookie itself, without `check_auth`, and
      deletes the user's row, messages and recovery rows; calls stay. */
  function DeleteAccount(db: Db, cookie: Option<string>): Outcome {
    if cookie.None? || cookie.value == "" then Outcome(db, Reply(400, Error("No username cookie found")))
    else
      var name := cookie.value;
      Outcome(db.(users := RemoveUser(db.users, name),
                  messages := RemoveMessagesOf(db.messages, name),
                  recovery := RemoveRecoveryOf(db.recovery, name)),
              Response(200, Info("Account " + name + " deleted successfully"), DeleteUsername))
  }

  /** GET /users. */
  function GetUsers(db: Db, cookie: Option<string>): Response {
    var me := CheckAuth(db, cookie);
    if me.None? then Unauthorized
    else Reply(200, UserList(UsernamesExcept(db.users, me.value)))
  }

  /** GET /messages?receiver=... */
  function GetMessages(db: Db, cookie: Option<string>, receiver: Option<string>): Response {
    var me := CheckAuth(db, cookie);
    if me.None? then Unauthorized
    else if receiver.None? || receiver.value == "" then Reply(400, Error("Receiver is required"))
    else Reply(200, MessageList(SortByTime(Conversation(db.messages, me.value, receiver.value))))
  }

  /** POST /messages.  `isSystem` is the value `data.get('is_system', False)`
      yields, false when the body has no such member; `now` is the insertion
      time.  The receiver is not checked against the users table. */
  function SendMessage(db: Db, cookie: Option<string>, body: RequestBody, isSystem: bool, now: int): Outcome {
    var me := CheckAuth(db, cookie);
    if me.None? then Outcome(db, Unauthorized)
    else if Raises(body) then Outcome(db, Reply(500, Error("Server error while sending message")))
    else if Falsy(body) then Outcome(db, InvalidJson)
    else
      var receiver := Field(body, "receiver");
      var message := Field(body, "message");
      if receiver.None? || message.None? then Outcome(db, Reply(400, Error("Receiver and message are required")))
      else Outcome(db.(messages := db.messages + [MessageRow(me.value, receiver.value, message.value, isSystem, now)]),
                   Reply(201, Info("Message sent successfully")))
  }

  // ---------------------------------------------------------------------------
  // Properties
  // ---------------------------------------------------------------------------

  /** Without a valid cookie every call, user-list and message endpoint
      answers 401 and changes nothing. */
  lemma UnauthorizedChangesNothing(db: Db, cookie: Option<string>, body: RequestBody, id: string,
                                   receiver: Option<string>, isSystem: bool, now: int)
    requires CheckAuth(db, cookie).None?
    ensures InitiateCall(db, cookie, body, id) == Outcome(db, Unauthorized)
    ensures AcceptCall(db, cookie, body) == Outcome(db, Unauthorized)
    ensures EndCall(db, cookie, body) == Outcome(db, Unauthorized)
    ensures CheckCall(db, cookie) == Unauthorized
    ensures GetUsers(db, cookie) == Unauthorized
    ensures GetMessages(db, cookie, receiver) == Unauthorized
    ensures SendMessage(db, cookie, body, isSystem, now) == Outcome(db, Unauthorized)
    ensures Unauthorized.status == 401
  {
  }

  /** initiate_call adds a row only on success, and then exactly one: the
      signed-in caller, the named receiver, the fresh id, pending.  A missing
      receiver is a 400 and an unknown one a 404. */
  lemma InitiateCallRows(db: Db, cookie: Option<string>, body: RequestBody, freshId: string)
    requires DbValid(db)
    ensures var o := InitiateCall(db, cookie, body, freshId);
      && DbValid(o.db)
      && o.db.users == db.users && o.db.messages == db.messages && o.db.recovery == db.recovery
      && (o.response.status == 200 <==>
            CheckAuth(db, cookie).Some? && Field(body, "receiver").Some?
            && HasUser(db.users, Field(body, "receiver").value) && !HasCallId(db.calls, freshId))
      && (o.response.status == 200 ==>
            o.db.calls == db.calls + [CallRow(cookie.value, Field(body, "receiver").value, freshId, Pending)]
            && o.response.body == CallInitiated(freshId))
      && (o.response.status != 200 ==> o.db == db)
      && (CheckAuth(db, cookie).Some? && !Raises(body) && !Falsy(body) && Field(body, "receiver").None? ==>
            o.response == Reply(400, Error("Receiver is required")))
      && (CheckAuth(db, cookie).Some? && Field(body, "receiver").Some?
            && !HasUser(db.users, Field(body, "receiver").value) ==>
            o.response == Reply(404, Error("User not found")))
  {
    var o := InitiateCall(db, cookie, body, freshId);
    if o.response.status == 200 {
      var c := db.calls;
      var r := o.db.calls;
      forall i, j | 0 <= i < j < |r| ensures r[i].callId != r[j].callId {
        if j == |c| {
          assert r[i] in c;
        }
      }
    }
  }

  /** accept_call succeeds exactly when a pending call has that id and the
      signed-in user is its receiver; it then marks only that row accepted
      and returns its caller.  Otherwise nothing changes. */
  lemma AcceptCallRule(db: Db, cookie: Option<string>, body: RequestBody)
    requires DbValid(db)
    ensures var o := AcceptCall(db, cookie, body);
      var id := Field(body, "call_id");
      && DbValid(o.db)
      && (o.response.status == 200 <==>
            CheckAuth(db, cookie).Some? && id.Some?
            && exists i :: 0 <= i < |db.calls| && db.calls[i].callId == id.value
                 && db.calls[i].status == Pending && db.calls[i].receiver == cookie.value)
      && (o.response.status == 200 ==>
            exists i :: 0 <= i < |db.calls| && db.calls[i].callId == id.value
              && o.response.body == CallAccepted(db.calls[i].caller)
              && o.db == db.(calls := db.calls[i := db.calls[i].(status := Accepted)]))
      && (o.response.status != 200 ==> o.db == db)
  {
    var o := AcceptCall(db, cookie, body);
    var id := Field(body, "call_id");
    if CheckAuth(db, cookie).Some? && id.Some? {
      var call := FindPendingCall(db.calls, id.value);
      if call.Some? {
        var i :| 0 <= i < |db.calls| && db.calls[i] == call.value;
        if o.response.status == 200 {
          SetAcceptedOneRow(db.calls, id.value, i);
        }
      }
    }
  }

  /** end_call answers 200 whether or not the call exists, removes only rows
      with that id, and ending twice is ending once. */
  lemma EndCallIdempotent(db: Db, cookie: Option<string>, body: RequestBody)
    requires CheckAuth(db, cookie).Some? && Field(body, "call_id").Some?
    ensures var o := EndCall(db, cookie, body);
      && o.response == Reply(200, Info("Call ended"))
      && (DbValid(db) ==> DbValid(o.db))
      && (forall c :: c in o.db.calls <==> c in db.calls && c.callId != Field(body, "call_id").value)
      && o.db.users == db.users && o.db.messages == db.messages && o.db.recovery == db.recovery
      && EndCall(o.db, cookie, body) == o
      && (!HasCallId(db.calls, Field(body, "call_id").value) ==> o.db == db)
  {
    RemoveCallIdempotent(db.calls, Field(body, "call_id").value);
    if DbValid(db) {
      RemoveCallKeepsUnique(db.calls, Field(body, "call_id").value);
    }
  }

  /** check_call reports a call exactly when some call to the signed-in user
      is pending, and what it reports is such a call. */
  lemma CheckCallReportsPending(db: Db, cookie: Option<string>)
    requires CheckAuth(db, cookie).Some?
    ensures var r := CheckCall(db, cookie);
      && r.status == 200
      && (r.body.IncomingCall? <==> exists c :: c in db.calls && PendingFor(c, cookie.value))
      && (r.body.IncomingCall? ==>
            exists c :: c in db.calls && PendingFor(c, cookie.value)
              && c.callId == r.body.callId && c.caller == r.body.caller)
      && (!r.body.IncomingCall? ==> r.body == NoIncomingCall)
  {
    var f := FirstPendingFor(db.calls, cookie.value);
    if f.Some? {
      assert db.calls[f.value] in db.calls;
    }
  }

  /** In the state right after a successful accept, check_call reports
      that call to nobody. */
  lemma AcceptedCallNotReportedAgain(db: Db, cookie: Option<string>, body: RequestBody, anyone: Option<string>)
    requires DbValid(db)
    requires AcceptCall(db, cookie, body).response.status == 200
    ensures var after := AcceptCall(db, cookie, body).db;
      var r := CheckCall(after, anyone);
      r.body.IncomingCall? ==> r.body.callId != Field(body, "call_id").value
  {
    var id := Field(body, "call_id").value;
    var after := AcceptCall(db, cookie, body).db;
    assert after.calls == SetAccepted(db.calls, id);
    var me := CheckAuth(after, anyone);
    if me.Some? {
      var f := FirstPendingFor(after.calls, me.value);
      if f.Some? {
        assert after.calls[f.value].status == Pending;
      }
    }
  }

  /** register adds a row only when every field is there and neither the
      username nor the email is taken; the constraints still hold after. */
  lemma RegisterRule(db: Db, body: RequestBody)
    requires DbValid(db)
    ensures var o := Register(db, body);
      var u := Field(body, "username");
      var p := Field(body, "password");
      var e := Field(body, "email");
      && DbValid(o.db)
      && o.db.calls == db.calls && o.db.messages == db.messages
      && (o.response.status == 201 <==>
            u.Some? && p.Some? && e.Some? && !HasUser(db.users, u.value) && !HasEmail(db.users, e.value))
      && (o.response.status == 201 ==>
            o.db.users == db.users + [UserRow(u.value, p.value, e.value)]
            && o.db.recovery == db.recovery
            && o.response.cookie == SetUsername(u.value, 3600))
      && (o.response.status != 201 ==> o.db == db && o.response.cookie == KeepCookie)
      && (!Raises(body) && !Falsy(body) && (u.None? || p.None? || e.None?) ==> o.response.status == 400)
      && (u.Some? && p.Some? && e.Some? && (HasUser(db.users, u.value) || HasEmail(db.users, e.value)) ==>
            o.response == Reply(400, Error("Username or email already exists")))
  {
    var o := Register(db, body);
    if o.response.status == 201 {
      InsertKeepsUnique(db.users, UserRow(Field(body, "username").value, Field(body, "password").value, Field(body, "email").value));
    }
  }

  /** login succeeds exactly when the user exists and the stored password
      equals the given one. */
  lemma LoginRule(db: Db, body: RequestBody)
    requires DbValid(db)
    ensures var r := Login(db, body);
      var u := Field(body, "username");
      var p := Field(body, "password");
      && (r.status == 200 <==>
            u.Some? && p.Some? && exists row :: row in db.users && row.username == u.value && row.password == p.value)
      && (r.status == 200 ==> r.cookie == SetUsername(u.value, CookieMaxAge))
      && (r.status != 200 ==> r.cookie == KeepCookie)
  {
    var u := Field(body, "username");
    var p := Field(body, "password");
    if u.Some? && p.Some? {
      if row :| row in db.users && row.username == u.value && row.password == p.value {
        FindUserIsTheRow(db.users, row);
      }
    }
  }

  /** Who has just registered can log in with the same username and
      password. */
  lemma RegisterThenLogin(db: Db, body: RequestBody)
    requires DbValid(db)
    requires Register(db, body).response.status == 201
    ensures Login(Register(db, body).db, body).status == 200
  {
    var u := Field(body, "username").value;
    var row := UserRow(u, Field(body, "password").value, Field(body, "email").value);
    var after := Register(db, body).db;
    RegisterRule(db, body);
    assert row in after.users;
    FindUserIsTheRow(after.users, row);
  }

  /** deleteacc removes the user, every message they sent or received, and
      their recovery rows; every other row stays, and the cookie no longer
      authenticates. */
  lemma DeleteAccountCascade(db: Db, cookie: Option<string>)
    requires DbValid(db)
    requires cookie.Some? && cookie.value != ""
    ensures var o := DeleteAccount(db, cookie);
      var name := cookie.value;
      && DbValid(o.db)
      && o.response.status == 200 && o.response.cookie == DeleteUsername
      && (forall u :: u in o.db.users <==> u in db.users && u.username != name)
      && (forall m :: m in o.db.messages <==> m in db.messages && m.sender != name && m.receiver != name)
      && (forall x :: x in o.db.recovery <==> x in db.recovery && x.username != name)
      && o.db.calls == db.calls
      && CheckAuth(o.db, cookie).None?
  {
    RemoveUserKeepsUnique(db.users, cookie.value);
  }

  /** Deleting an account twice leaves the tables as deleting it once. */
  lemma DeleteAccountIdempotent(db: Db, cookie: Option<string>)
    ensures DeleteAccount(DeleteAccount(db, cookie).db, cookie).db == DeleteAccount(db, cookie).db
  {
    if cookie.Some? && cookie.value != "" {
      var name := cookie.value;
      FilterIdempotent(db.users, (u: UserRow) => u.username != name);
      FilterIdempotent(db.messages, (m: MessageRow) => m.sender != name && m.receiver != name);
      FilterIdempotent(db.recovery, (x: RecoveryRow) => x.username != name);
    }
  }

  /** get_users lists every other user, each once. */
  lemma GetUsersRule(db: Db, cookie: Option<string>)
    requires DbValid(db) && CheckAuth(db, cookie).Some?
    ensures var r := GetUsers(db, cookie);
      && r.status == 200 && r.body.UserList?
      && (forall x :: x in r.body.usernames <==> x != cookie.value && HasUser(db.users, x))
      && Distinct(r.body.usernames)
  {
    UsernamesExceptDistinct(db.users, cookie.value);
  }

  /** get_messages returns exactly the messages between the two users, in
      either direction, ordered by time; both users read the same ones. */
  lemma GetMessagesRule(db: Db, cookie: Option<string>, other: string)
    requires CheckAuth(db, cookie).Some? && other != ""
    ensures var r := GetMessages(db, cookie, Some(other));
      && r.status == 200 && r.body.MessageList?
      && SortedByTime(r.body.messages)
      && (forall m :: multiset(r.body.messages)[m] ==
            if Between(m, cookie.value, other) then multiset(db.messages)[m] else 0)
      && multiset(r.body.messages) == multiset(Conversation(db.messages, other, cookie.value))
  {
    ConversationSymmetric(db.messages, cookie.value, other);
  }

  /** send_message inserts exactly one row, from the signed-in user, when
      the body is an object with a truthy receiver and message; then only
      `messages` changes.  Otherwise nothing changes, and a missing field is
      a 400 naming both fields. */
  lemma SendMessageRule(db: Db, cookie: Option<string>, body: RequestBody, isSystem: bool, now: int)
    requires DbValid(db)
    ensures var o := SendMessage(db, cookie, body, isSystem, now);
      var me := CheckAuth(db, cookie);
      var receiver := Field(body, "receiver");
      var message := Field(body, "message");
      && DbValid(o.db)
      && (o.response.status == 201 <==>
            me.Some? && !Raises(body) && !Falsy(body) && receiver.Some? && message.Some?)
      && (o.response.status == 201 ==>
            o.db == db.(messages := db.messages + [MessageRow(me.value, receiver.value, message.value, isSystem, now)])
            && o.response == Reply(201, Info("Message sent successfully")))
      && (o.response.status != 201 ==> o.db == db)
      && (me.Some? && !Raises(body) && !Falsy(body) && (receiver.None? || message.None?) ==>
            o.response == Reply(400, Error("Receiver and message are required")))
  {
  }

  /** A body holding only `is_system` is a truthy object, so it passes the
      `not data` test and is refused for its missing fields. */
  lemma SystemFlagAloneIsMissingFields(db: Db, me: string, now: int)
    requires CheckAuth(db, Some(me)).Some?
    ensures SendMessage(db, Some(me), Object(map["is_system" := NonText]), true, now)
      == Outcome(db, Reply(400, Error("Receiver and message are required")))
  {
    var body := Object(map["is_system" := NonText]);
    assert !Falsy(body) by { assert "is_system" in body.members; }
    assert Field(body, "receiver").None?;
  }

  /** A message sent is then among the messages both users read. */
  lemma SentMessageIsRead(db: Db, cookie: Option<string>, body: RequestBody, isSystem: bool, now: int)
    requires SendMessage(db, cookie, body, isSystem, now).response.status == 201
    ensures var me := cookie.value;
      var other := Field(body, "receiver").value;
      var after := SendMessage(db, cookie, body, isSystem, now).db;
      var sent := MessageRow(me, other, Field(body, "message").value, isSystem, now);
      && GetMessages(after, cookie, Some(other)).body.MessageList?
      && sent in GetMessages(after, cookie, Some(other)).body.messages
  {
    var me := cookie.value;
    var other := Field(body, "receiver").value;
    var after := SendMessage(db, cookie, body, isSystem, now).db;
    var sent := MessageRow(me, other, Field(body, "message").value, isSystem, now);
    assert after.users == db.users;
    assert sent in after.messages;
    var ms := GetMessages(after, cookie, Some(other)).body.messages;
    assert multiset(ms)[sent] == multiset(after.messages)[sent];
  }
}

/** The server's database, updated in place by the route handlers.

    `Database` holds the four tables as fields; each handler method changes
    only the tables its SQL writes, and is proved to produce the tables and
    the response that the matching function of `Routes` gives, keeping the
    UNIQUE constraints.  The properties proved in `Routes` therefore hold of
    these methods. */
module Server {
  import opened Wrappers
  import opened ServerTables
  import Routes

  class Database {
    var users: seq<UserRow>
    var calls: seq<CallRow>
    var messages: seq<MessageRow>
    var recovery: seq<RecoveryRow>

    function Model(): Routes.Db
      reads this
    {
      Routes.Db(users, calls, messages, recovery)
    }

    ghost predicate Valid()
      reads this
    {
      Routes.DbValid(Model())
    }

    constructor ()
      ensures Model() == Routes.Db([], [], [], []) && Valid()
    {
      users := [];
      calls := [];
      messages := [];
      recovery := [];
    }

    /** `check_auth(request.cookies)`. */
    method CheckAuth(cookie: Option<string>) returns (me: Option<string>)
      ensures me == Routes.CheckAuth(Model(), cookie)
      ensures me.Some? <==> cookie.Some? && cookie.value != "" && HasUser(users, cookie.value)
    {
      if cookie.None? || cookie.value == "" {
        return None;
      }
      var row := FindUser(users, cookie.value);
      me := if row.Some? then Some(row.value.username) else None;
    }

    /** POST /call/initiate. */
    method InitiateCall(cookie: Option<string>, body: Routes.RequestBody, freshId: string)
      returns (resp: Routes.Response)
      requires Valid()
      modifies this`calls
      ensures Valid()
      ensures Routes.Outcome(Model(), resp) == Routes.InitiateCall(old(Model()), cookie, body, freshId)
    {
      Routes.InitiateCallRows(Model(), cookie, body, freshId);
      var me := CheckAuth(cookie);
      if me.None? {
        return Routes.Unauthorized;
      }
      if Routes.Raises(body) {
        return Routes.Reply(500, Routes.Error("Server error during call initiation"));
      }
      if Routes.Falsy(body) {
        return Routes.InvalidJson;
      }
      var receiver := Routes.Field(body, "receiver");
      if receiver.None? {
        return Routes.Reply(400, Routes.Error("Receiver is required"));
      }
      if FindUser(users, receiver.value).None? {
        return Routes.Reply(404, Routes.Error("User not found"));
      }
      if exists c :: c in calls && c.callId == freshId {
        return Routes.Reply(500, Routes.Error("Server error during call initiation"));
      }
      calls := calls + [CallRow(me.value, receiver.value, freshId, Pending)];
      resp := Routes.Reply(200, Routes.CallInitiated(freshId));
    }

    /** POST /call/accept. */
    method AcceptCall(cookie: Option<string>, body: Routes.RequestBody) returns (resp: Routes.Response)
      requires Valid()
      modifies this`calls
      ensures Valid()
      ensures Routes.Outcome(Model(), resp) == Routes.AcceptCall(old(Model()), cookie, body)
    {
      Routes.AcceptCallRule(Model(), cookie, body);
      var me := CheckAuth(cookie);
      if me.None? {
        return Routes.Unauthorized;
      }
      if Routes.Raises(body) {
        return Routes.Reply(500, Routes.Error("Server error during call acceptance"));
      }
      if Routes.Falsy(body) {
        return Routes.InvalidJson;
      }
      var id := Routes.Field(body, "call_id");
      if id.None? {
        return Routes.Reply(400, Routes.Error("Call ID is required"));
      }
      var call := FindPendingCall(calls, id.value);
      if call.None? || call.value.receiver != me.value {
        return Routes.Reply(400, Routes.Error("Invalid call or not authorized"));
      }
      calls := SetAccepted(calls, id.value);
      resp := Routes.Reply(200, Routes.CallAccepted(call.value.caller));
    }

    /** POST /call/end. */
    method EndCall(cookie: Option<string>, body: Routes.RequestBody) returns (resp: Routes.Response)
      requires Valid()
      modifies this`calls
      ensures Valid()
      ensures Routes.Outcome(Model(), resp) == Routes.EndCall(old(Model()), cookie, body)
    {
      var me := CheckAuth(cookie);
      if me.None? {
        return Routes.Unauthorized;
      }
      if Routes.Raises(body) {
        return Routes.Reply(500, Routes.Error("Server error during call ending"));
      }
      if Routes.Falsy(body) {
        return Routes.InvalidJson;
      }
      var id := Routes.Field(body, "call_id");
      if id.None? {
        return Routes.Reply(400, Routes.Error("Call ID is required"));
      }
      calls := RemoveCall(calls, id.value);
      resp := Routes.Reply(200, Routes.Info("Call ended"));
      RemoveCallKeepsUnique(old(calls), id.value);
    }

    /** GET /call/check. */
    method CheckCall(cookie: Option<string>) returns (resp: Routes.Response)
      ensures resp == Routes.CheckCall(Model(), cookie)
    {
      var me := CheckAuth(cookie);
      if me.None? {
        return Routes.Unauthorized;
      }
      var first := FirstPendingFor(calls, me.value);
      if first.None? {
        return Routes.Reply(200, Routes.NoIncomingCall);
      }
      resp := Routes.Reply(200, Routes.IncomingCall(calls[first.value].callId, calls[first.value].caller));
    }

    /** POST /register. */
    method Register(body: Routes.RequestBody) returns (resp: Routes.Response)
      requires Valid()
      modifies this`users
      ensures Valid()
      ensures Routes.Outcome(Model(), resp) == Routes.Register(old(Model()), body)
    {
      Routes.RegisterRule(Model(), body);
      if Routes.Raises(body) {
        return Routes.Reply(500, Routes.Error("Server error during registration"));
      }
      if Routes.Falsy(body) {
        return Routes.InvalidJson;
      }
      var username := Routes.Field(body, "username");
      var password := Routes.Field(body, "password");
      var email := Routes.Field(body, "email");
      if username.None? || password.None? || email.None? {
        return Routes.Reply(400, Routes.Error("Username, password, and email are required"));
      }
      if (exists u :: u in users && u.username == username.value) || (exists u :: u in users && u.email == email.value) {
        return Routes.Reply(400, Routes.Error("Username or email already exists"));
      }
      users := users + [UserRow(username.value, password.value, email.value)];
      resp := Routes.Response(201, Routes.Info("User registered successfully"),
                              Routes.SetUsername(username.value, Routes.CookieMaxAge));
    }

    /** POST /login. */
    method Login(body: Routes.RequestBody) returns (resp: Routes.Response)
      ensures resp == Routes.Login(Model(), body)
    {
      if Routes.Raises(body) {
        return Routes.Reply(500, Routes.Error("Server error during login"));
      }
      if Routes.Falsy(body) {
        return Routes.InvalidJson;
      }
      var username := Routes.Field(body, "username");
      var password := Routes.Field(body, "password");
      if username.None? || password.None? {
        return Routes.Reply(400, Routes.Error("Username and password are required"));
      }
      var row := FindUser(users, username.value);
      if row.Some? && row.value.password == password.value {
        return Routes.Response(200, Routes.Info("Login successful"), Routes.SetUsername(username.value, Routes.CookieMaxAge));
      }
      resp := Routes.Reply(401, Routes.Error("Invalid username or password"));
    }

    /** POST /deleteacc. */
    method DeleteAccount(cookie: Option<string>) returns (resp: Routes.Response)
      requires Valid()
      modifies this`users, this`messages, this`recovery
      ensures Valid()
      ensures Routes.Outcome(Model(), resp) == Routes.DeleteAccount(old(Model()), cookie)
    {
      if cookie.None? || cookie.value == "" {
        return Routes.Reply(400, Routes.Error("No username cookie found"));
      }
      var name := cookie.value;
      Routes.DeleteAccountCascade(Model(), cookie);
      users := RemoveUser(users, name);
      messages := RemoveMessagesOf(messages, name);
      recovery := RemoveRecoveryOf(recovery, name);
      resp := Routes.Response(200, Routes.Info("Account " + name + " deleted successfully"), Routes.DeleteUsername);
    }

    /** GET /users: the list is built row by row. */
    method GetUsers(cookie: Option<string>) returns (resp: Routes.Response)
      ensures resp == Routes.GetUsers(Model(), cookie)
    {
      var me := CheckAuth(cookie);
      if me.None? {
        return Routes.Unauthorized;
      }
      var names: seq<string> := [];
      var i := 0;
      while i < |users|
        invariant 0 <= i <= |users|
        invariant names == UsernamesExcept(users[..i], me.value)
      {
        UsernamesExceptSnoc(users[..i], users[i], me.value);
        assert users[..i + 1] == users[..i] + [users[i]];
        if users[i].username != me.value {
          names := names + [users[i].username];
        }
        i := i + 1;
      }
      assert users[..i] == users;
      resp := Routes.Reply(200, Routes.UserList(names));
    }

    /** GET /messages?receiver=... */
    method GetMessages(cookie: Option<string>, receiver: Option<string>) returns (resp: Routes.Response)
      ensures resp == Routes.GetMessages(Model(), cookie, receiver)
    {
      var me := CheckAuth(cookie);
      if me.None? {
        return Routes.Unauthorized;
      }
      if receiver.None? || receiver.value == "" {
        return Routes.Reply(400, Routes.Error("Receiver is required"));
      }
      resp := Routes.Reply(200, Routes.MessageList(SortByTime(Conversation(messages, me.value, receiver.value))));
    }

    /** POST /messages. */
    method SendMessage(cookie: Option<string>, body: Routes.RequestBody, isSystem: bool, now: int)
      returns (resp: Routes.Response)
      requires Valid()
      modifies this`messages
      ensures Valid()
      ensures Routes.Outcome(Model(), resp) == Routes.SendMessage(old(Model()), cookie, body, isSystem, now)
    {
      var me := CheckAuth(cookie);
      if me.None? {
        return Routes.Unauthorized;
      }
      if Routes.Raises(body) {
        return Routes.Reply(500, Routes.Error("Server error while sending message"));
      }
      if Routes.Falsy(body) {
        return Routes.InvalidJson;
      }
      var receiver := Routes.Field(body, "receiver");
      var message := Routes.Field(body, "message");
      if receiver.None? || message.None? {
        return Routes.Reply(400, Routes.Error("Receiver and message are required"));
      }
      messages := messages + [MessageRow(me.value, receiver.value, message.value, isSystem, now)];
      resp := Routes.Reply(201, Routes.Info("Message sent successfully"));
    }
  }
}

# ArteMessenger call signalling and account tables, in Dafny

This project models the core of ArteMessenger, a small Flask messenger with
one-to-one video calls. It covers two sides.

**The browser session** (`static/script.js`). The module-level globals are
`selectedUser`, `peerConnection`, `callId`, `callCheckInterval`,
`iceCandidatesBuffer` and the two chat polling timers. The model covers:

- the guarded, in-order flush of buffered ICE candidates;
- one tick of the call status check;
- the `endCall` teardown;
- the idempotent start and stop of the three repeating timers;
- the page visibility and unload handlers;
- the single-instance incoming-call popup.

**The browser's pure helpers.** `escapeHtml`, the password policy and
required-field checks of the register and login forms, and `getCurrentUser`,
the cookie parser.

**The server** (`main.py`):

- the route handlers that read and change the `users`, `calls`, `messages`
  and `recovery` tables: `check_auth`, `initiate_call`, `accept_call`,
  `end_call`, `check_call`, `register`, `login`, `deleteacc`, `get_users`,
  `get_messages` and `send_message`;
- the in-memory signalling store `call_data` with its save and get helpers.

Layout:

| file | module | contents |
|---|---|---|
| `wrappers.dfy` | `Wrappers` | `Option` |
| `client_helpers.dfy` | `ClientHelpers` | `escapeHtml`, form checks, password policy, cookie parsing |
| `session_spec.dfy` | `SessionSpec` | the browser session as a record of its globals, with one function per handler, and the invariants those handlers keep |
| `call_client.dfy` | `CallClient` | classes `PeerConnection` and `Client`, whose methods update the globals in place and are proved against `SessionSpec` |
| `server_tables.dfy` | `ServerTables` | table rows and the queries and updates on them |
| `server_routes.dfy` | `Routes` | each route handler as a function from tables and request to new tables and response, with properties |
| `server.dfy` | `Server` | class `Database`, whose route methods update the tables in place and are proved against `Routes` |
| `signaling_store.dfy` | `SignalingStore` | `call_data` as a map, class `CallDataStore`, and what a run of saves leaves behind |

Conventions used throughout:

- **Tables.** Each SQLite table is a sequence of rows in insertion (rowid)
  order. That is one order SQLite may return rows in for a query without
  ORDER BY, not the only one. `fetchone()` is the first matching row in
  that order.
- **Environment inputs.** These are parameters:
  - the `username` cookie;
  - the parsed JSON body;
  - the id `uuid.uuid4()` would return;
  - the reading of `time.time()` and the message timestamp;
  - every network reply the browser waits on.
- **Timers.** A timer is a handle in a map of live intervals. `setInterval`
  registers a fresh handle and `clearInterval` removes one.

## Model

| member | source | states |
|---|---|---|
| ClientHelpers.Trim | static/script.js:300-302 | `String.prototype.trim`: the result is a slice `s[i..j]` of the input with only whitespace before `i` and after `j`, and no whitespace at either end; it is empty exactly when the input is all whitespace |
| ClientHelpers.TrimStart | static/script.js:300-302 | the result is a suffix of the input, and everything dropped is whitespace |
| ClientHelpers.TrimEnd | static/script.js:300-302 | the result is a prefix of the input, and everything dropped is whitespace |
| ClientHelpers.Split | static/script.js:688 | `split(';')` yields at least one piece, and no piece contains the separator |
| ClientHelpers.JoinSplit | static/script.js:688 | joining the pieces of a split gives back the string |
| ClientHelpers.SplitJoin | static/script.js:688 | splitting a join of separator-free pieces gives back the pieces |
| ClientHelpers.SplitPiece | static/script.js:688 | splitting at the first separator gives the leading piece followed by the split of the rest |
| ClientHelpers.SplitWhole | static/script.js:688 | a string without the separator splits into itself alone |
| ClientHelpers.ReplaceAll | static/script.js:287-292 | after a global `replace`, the replaced character is gone unless it is in the replacement; a string without it is unchanged |
| ClientHelpers.ReplaceAllConcat | static/script.js:287-292 | a global `replace` distributes over concatenation |
| ClientHelpers.EscapeChar | static/script.js:288-292 | each character maps to one or more characters |
| ClientHelpers.EscapeEach | static/script.js:285-293 | the per-character escape leaves no raw `<`, `>`, `"` or `'` |
| ClientHelpers.AmpersandsStartEntities | static/script.js:288-292 | every `&` in the per-character escape begins one of `&amp;`, `&lt;`, `&gt;`, `&quot;` or `&#039;`, so no raw `&` survives |
| ClientHelpers.ChainOfChar | static/script.js:288-292 | on a single character, the five-replacement chain equals its per-character escape |
| ClientHelpers.ChainIsPerCharacter | static/script.js:288-292 | because `&` is replaced first, the chain equals mapping each character on its own |
| ClientHelpers.EscapeHtmlIsPerCharacter | static/script.js:285-293 | `escapeHtml` gives '' for missing input and otherwise the per-character escape; the output contains no markup character |
| ClientHelpers.AmpersandLastWouldDoubleEscape | static/script.js:288 | with `&` replaced last, `<` would come out as `&amp;lt;`, which is why the order matters |
| ClientHelpers.DecodeEscapedChar | static/script.js:288-292 | decoding an escaped character restores that character, whatever follows |
| ClientHelpers.DecodeEscape | static/script.js:285-293 | decoding the HTML entities of `escapeHtml(s)` gives back `s` |
| ClientHelpers.DecodeEscapeEach | static/script.js:288-292 | decoding undoes the per-character escape |
| ClientHelpers.EscapeHtmlInjective | static/script.js:285-293 | two strings with the same escape are equal |
| ClientHelpers.LookaheadOverAlphabet | static/script.js:307 | over the allowed alphabet, the `(?=.*[...])` lookahead succeeds exactly when the string contains a character of the class |
| ClientHelpers.PasswordRegexIsPolicy | static/script.js:307-311 | the password regex accepts exactly the passwords with 8 or more characters, all in `[A-Za-z0-9@$!%*?&]`, with a lowercase letter, an uppercase letter, a digit and one of `@$!%*?&` |
| ClientHelpers.ForeignCharacterRefused | static/script.js:307-311 | a password with any character outside the allowed alphabet is refused |
| ClientHelpers.CheckRegisterForm | static/script.js:300-311 | the form is refused for a missing field exactly when a trimmed field is empty; it is posted exactly when every field is present and the trimmed password passes the policy; the posted fields are the trimmed ones |
| ClientHelpers.CheckLoginForm | static/script.js:340-346 | the form is refused exactly when a trimmed field is empty; otherwise the trimmed, non-empty fields are posted |
| ClientHelpers.CookieSegments | static/script.js:687-694 | one segment per cookie pair |
| ClientHelpers.TrimPlain | static/script.js:689 | trimming a segment removes only the single space the cookie header puts after `;` |
| ClientHelpers.TrimSegment | static/script.js:689 | trimming a `name=value` segment after `; ` leaves exactly the pair |
| ClientHelpers.ParsePlainSegment | static/script.js:689-690 | a `name=value` segment parses to its name and the value's first `=`-field |
| ClientHelpers.CookieTableOfHeader | static/script.js:688-692 | for a well-formed header, the table maps each name to the value of its last occurrence |
| ClientHelpers.GetCurrentUserOfHeader | static/script.js:687-694 | `getCurrentUser` returns the value of the last `username` pair of a well-formed header, or nothing when there is none |
| ClientHelpers.UsernameIsPlain | static/script.js:693 | the key `username` is plain cookie text without `=` |
| ClientHelpers.ValueWithEqualsIsCut | static/script.js:689 | a `username` value that contains `=` is cut at its first `=` |
| ClientHelpers.BareSegment | static/script.js:689 | a segment holding only a name, without `=`, parses to that name with an undefined value |
| ClientHelpers.LastSegmentDecides | static/script.js:688-692 | in the `reduce` fold, the last segment with a key decides that key's value |
| ClientHelpers.SplitAtLastSeparator | static/script.js:688 | a string with a single `;` splits into the two sides |
| ClientHelpers.BareKeyHidesEarlierValue | static/script.js:688-692 | a last segment naming a key without `=` makes that key's entry undefined, whatever came before it |
| ClientHelpers.BareUsernameHidesEarlierValue | static/script.js:687-694 | a later bare `username` segment hides an earlier `username=value` and makes the user undefined |
| SessionSpec.WithHandle | static/script.js:2-6 | setting one timer variable leaves the other two as they were |
| SessionSpec.OneTimerPerPoller | static/script.js:157-162 | while the timer invariant holds, a poller's live timers are exactly its stored handle, or none when it is null |
| SessionSpec.TimersFrame | static/script.js:1-7 | the timer invariant depends only on the timer globals and the live-interval table |
| SessionSpec.StartKeepsTimers | static/script.js:157-162 | starting a poller keeps the timer invariant |
| SessionSpec.StopKeepsTimers | static/script.js:659-664 | stopping a poller keeps the timer invariant |
| SessionSpec.StartLeavesOneTimer | static/script.js:647-656 | starting clears the old timer, stores the fresh handle, and leaves exactly that one live timer for the poller; the other pollers are untouched |
| SessionSpec.StartTwiceLeavesOneTimer | static/script.js:667-677 | starting the same poller twice still leaves exactly one live timer |
| SessionSpec.StopIsIdempotent | static/script.js:679-684 | stopping a poller that is not running changes nothing; afterwards the variable is null with no live timer; stopping twice is stopping once |
| SessionSpec.FlushAppliesInOrder | static/script.js:199-208 | with a remote description set, the flush applies the buffered candidates in insertion order, after those already applied, and empties the buffer |
| SessionSpec.FlushGuard | static/script.js:200 | without a remote description, or with an empty buffer, the flush changes nothing |
| SessionSpec.EndCallResets | static/script.js:30-46 | `endCall` drops the peer connection and keeps the buffer. The end request goes out exactly when a `callId` existed. Once it is answered, `callId` and `callCheckInterval` are null with no live status timer. A rejected request leaves `callId` and the status timer in place |
| SessionSpec.EndCallKeepsTimers | static/script.js:30-46 | `endCall` keeps the timer invariant |
| SessionSpec.QuietTicks | static/script.js:163-167 | a tick with no `callId`, or whose status request rejected or was not OK, changes nothing |
| SessionSpec.SecondAcceptedTickIsQuiet | static/script.js:171-186 | an "accepted" tick with an answer sets the remote description; every later "accepted" tick changes nothing, so the answer is applied at most once |
| SessionSpec.AcceptedWithoutAnswer | static/script.js:175-185 | an "accepted" tick whose SDP reply has no answer leaves the remote description unset and the buffer unflushed |
| SessionSpec.EndedTickTearsDown | static/script.js:187-191 | an "ended" tick tears the call down (peer connection, `callId` and status timer gone; one end request sent), and every later tick is quiet |
| SessionSpec.OnePopupAtATime | static/script.js:727-728 | while the incoming-call popup is shown, a second call does not replace it |
| SessionSpec.InitialInv | static/script.js:1-7 | the page's initial globals satisfy the session invariant |
| SessionSpec.TickKeepsInv | static/script.js:162-196 | a status tick keeps the session invariant |
| SessionSpec.StartKeepsInv | static/script.js:647-656 | starting a poller keeps the session invariant |
| SessionSpec.StopKeepsInv | static/script.js:659-664 | stopping a poller keeps the session invariant |
| SessionSpec.SelectUserKeepsInv | static/script.js:546-557 | `selectUser` keeps the session invariant |
| SessionSpec.VisibilityKeepsInv | static/script.js:821-832 | the visibility handler keeps the session invariant |
| SessionSpec.QuietEventKeepsInv | static/script.js:697-709 | events that touch no timer keep the session invariant |
| SessionSpec.StepKeepsInv | static/script.js:1-7 | every handler keeps the session invariant (timer bookkeeping consistent, and no candidate applied before a remote description) |
| SessionSpec.RunKeepsInv | static/script.js:1-7 | every sequence of handler runs from a good state keeps the session invariant |
| SessionSpec.Gathered | static/script.js:7 | one arrival event per remote candidate received before the answer |
| SessionSpec.GatheringOnlyBuffers | static/script.js:7 | receiving remote candidates only appends them to the buffer, in order |
| SessionSpec.GatheredBeforeAnswerAppliedInOrder | static/script.js:171-181 | remote candidates received before the answer are all applied once it is set, in arrival order, and the buffer ends empty |
| CallClient.PeerConnection.constructor | static/script.js:4 | a new peer connection has no remote description and no applied candidates |
| CallClient.PeerConnection.SetRemoteDescription | static/script.js:180 | sets the remote description and nothing else |
| CallClient.PeerConnection.AddIceCandidate | static/script.js:203 | appends one candidate, after the remote description is set |
| CallClient.PeerConnection.Close | static/script.js:32 | marks the connection closed |
| CallClient.Client.constructor | static/script.js:1-7 | the globals start as the initial session state |
| CallClient.Client.SetInterval | static/script.js:162 | registers a fresh handle for the poller |
| CallClient.Client.ClearInterval | static/script.js:44 | removes the handle from the live intervals |
| CallClient.Client.AddCandidate | static/script.js:7 | appends a remote candidate received before the answer to `iceCandidatesBuffer` |
| CallClient.Client.AttachCall | static/script.js:4-5 | sets `callId` and a fresh peer connection |
| CallClient.Client.ProcessBufferedIceCandidates | static/script.js:199-208 | the loop leaves the globals as `SessionSpec.Flush` says: the peer connection has applied every buffered candidate in order, and the buffer is [] |
| CallClient.Client.EndCall | static/script.js:30-46 | closes the old peer connection and leaves the globals as `SessionSpec.EndCall` says |
| CallClient.Client.StatusTick | static/script.js:162-196 | one tick leaves the globals as `SessionSpec.StatusTick` says and keeps the invariant |
| CallClient.Client.StartCallStatusCheck | static/script.js:157-162 | leaves the globals as `SessionSpec.StartPoller` says for the status check |
| CallClient.Client.StartMessagePolling | static/script.js:647-656 | leaves the globals as `SessionSpec.StartPoller` says for message polling |
| CallClient.Client.StopMessagePolling | static/script.js:659-664 | leaves the globals as `SessionSpec.StopPoller` says for message polling |
| CallClient.Client.StartUsersPolling | static/script.js:667-677 | leaves the globals as `SessionSpec.StartPoller` says for user polling |
| CallClient.Client.StopUsersPolling | static/script.js:679-684 | leaves the globals as `SessionSpec.StopPoller` says for user polling |
| CallClient.Client.SelectUser | static/script.js:546-557 | sets `selectedUser` and restarts message polling |
| CallClient.Client.OnVisibilityChange | static/script.js:821-832 | hidden: both chat pollers stopped; visible on /main: user polling restarted, and message polling when a user is selected |
| CallClient.Client.OnBeforeUnload | static/script.js:834-837 | both chat pollers stopped |
| CallClient.Client.ShowIncomingCallNotification | static/script.js:727-753 | shows the popup unless one is already shown |
| CallClient.Client.DismissIncomingCall | static/script.js:755-759 | the 30-second timeout removes the popup |
| CallClient.Client.DeclineCall | static/script.js:697-709 | sends the end request, then removes the popup unless the request rejected |
| ServerTables.Filter | main.py:402-404 | a `DELETE ... WHERE` keeps exactly the rows the condition spares, with their multiplicities |
| ServerTables.FilterIdempotent | main.py:402-404 | deleting the same rows twice is deleting them once |
| ServerTables.FindUser | main.py:131-132 | `SELECT ... WHERE username = ?` finds a row exactly when the user exists, and the row found has that username |
| ServerTables.FindUserIsTheRow | main.py:371-373 | with unique usernames, the lookup finds that user's only row |
| ServerTables.InsertKeepsUnique | main.py:78-81 | inserting a row whose username and email are both new keeps the UNIQUE columns unique |
| ServerTables.UsernamesExcept | main.py:422-423 | the listed names are exactly the existing users other than the caller |
| ServerTables.UsernamesExceptSnoc | main.py:422-423 | listing one more row appends its name when it is not the caller's |
| ServerTables.UsernamesExceptDistinct | main.py:422-423 | with unique usernames, each name is listed once |
| ServerTables.FindPendingCall | main.py:167-169 | the pending-call lookup finds a row exactly when a pending call has that id |
| ServerTables.FirstPendingFor | main.py:225-228 | the first pending call to the user, exactly when one exists, with none before it |
| ServerTables.SetAccepted | main.py:177 | `UPDATE ... SET status='accepted' WHERE call_id = ?` keeps the row count and every row's id, caller and receiver; rows with that id become accepted and all others are untouched; call ids stay unique; an absent id changes nothing |
| ServerTables.SetAcceptedOneRow | main.py:177 | under the UNIQUE constraint on `call_id`, the update changes exactly the one row with that id |
| ServerTables.RemoveCall | main.py:206 | `DELETE FROM calls WHERE call_id = ?` keeps exactly the rows with another id |
| ServerTables.RemoveCallIsFilter | main.py:206 | the DELETE equals the WHERE filter `call_id != ?`: the kept rows stay in table order with their multiplicities |
| ServerTables.RemoveCallKeepsUnique | main.py:206 | deleting a call keeps call ids unique |
| ServerTables.RemoveCallIdempotent | main.py:206 | deleting twice is deleting once; deleting an absent id changes nothing |
| ServerTables.AcceptedNotReported | main.py:175-228 | once its only pending call is accepted, the user has no pending call to report |
| ServerTables.Conversation | main.py:441-444 | the messages between two users, in either direction, each with its multiplicity in the table |
| ServerTables.ConversationSymmetric | main.py:443 | the conversation of a with b holds the same messages as that of b with a |
| ServerTables.InsertByTime | main.py:444 | inserting into a time-sorted list keeps it sorted and adds exactly the one message |
| ServerTables.FirstIsLowest | main.py:444 | an earlier head stays first in front of a sorted insertion |
| ServerTables.SortByTime | main.py:444 | `ORDER BY timestamp` yields a time-sorted permutation |
| ServerTables.RemoveUser | main.py:402 | keeps exactly the users with another name |
| ServerTables.RemoveMessagesOf | main.py:403 | keeps exactly the messages the user neither sent nor received |
| ServerTables.RemoveRecoveryOf | main.py:404 | keeps exactly the recovery rows of other users |
| ServerTables.RemoveUserKeepsUnique | main.py:402 | deleting a user keeps usernames and emails unique |
| Routes.CheckAuth | main.py:245-258 | a user is signed in exactly when the `username` cookie is there, non-empty, and names an existing user |
| Routes.UnauthorizedChangesNothing | main.py:113-483 | without a valid cookie (`check_auth` at main.py:245-258), each call, user-list and message endpoint answers 401 "Unauthorized" and changes no table |
| Routes.InitiateCallRows | main.py:113-147 | succeeds exactly when signed in, the receiver is given and exists, and the fresh id is unused; it then adds exactly one row (caller, receiver, fresh id, pending). A missing receiver is 400, an unknown one 404, and any failure leaves the tables unchanged |
| Routes.AcceptCallRule | main.py:149-185 | succeeds exactly when a pending call has that id and the signed-in user is its receiver. It then sets only that row to accepted and returns its caller; otherwise nothing changes |
| Routes.EndCallIdempotent | main.py:187-214 | answers 200 "Call ended" whether or not the call exists. It removes only rows with that id, leaves `users`, `messages` and `recovery` as they were, keeps call ids unique, and ending twice is ending once |
| Routes.CheckCallReportsPending | main.py:216-243 | reports `has_call: true` exactly when a pending call to the signed-in user exists, and what it reports is such a call |
| Routes.AcceptedCallNotReportedAgain | main.py:175-228 | in the state right after a successful accept, check_call does not report that call to anyone |
| Routes.RegisterRule | main.py:324-355 | adds a row, and sets the cookie for 3600 seconds, exactly when all three fields are given and neither username nor email is taken. Otherwise the tables and cookie stay as they were, with 400 for missing fields or a duplicate. The UNIQUE constraints hold after |
| Routes.LoginRule | main.py:357-379 | 200, setting the cookie, exactly when both fields are given and a row has that username and that password; otherwise the cookie is untouched |
| Routes.RegisterThenLogin | main.py:324-379 | who has just registered can log in with the same username and password |
| Routes.DeleteAccountCascade | main.py:394-412 | with a cookie, removes the user row, every message they sent or received, and their recovery rows. Every other row stays, calls included, and the cookie no longer authenticates |
| Routes.DeleteAccountIdempotent | main.py:394-412 | deleting an account twice leaves the tables as deleting it once |
| Routes.GetUsersRule | main.py:414-428 | lists every user except the caller, each once |
| Routes.GetMessagesRule | main.py:430-456 | returns exactly the messages between the two users, in either direction, ordered by timestamp; the same messages the other user reads |
| Routes.SendMessageRule | main.py:459-483 | 201 exactly when signed in and the body neither raises nor is falsy and has a truthy receiver and message; then exactly one row from the signed-in user is appended to `messages` and no other table changes; otherwise nothing changes, and a missing field answers 400 "Receiver and message are required" |
| Routes.SystemFlagAloneIsMissingFields | main.py:464-472 | a body holding only `is_system` is a truthy object, so a signed-in sender gets 400 "Receiver and message are required" and no table changes |
| Routes.SentMessageIsRead | main.py:458-483 | a message that was sent appears in what the sender then reads from that conversation |
| Server.Database.constructor | main.py:73-111 | the tables start empty |
| Server.Database.CheckAuth | main.py:245-258 | returns what `Routes.CheckAuth` says: a user only for an existing, non-empty cookie |
| Server.Database.InitiateCall | main.py:113-147 | leaves tables and response as `Routes.InitiateCall` says and keeps the constraints |
| Server.Database.AcceptCall | main.py:149-185 | leaves tables and response as `Routes.AcceptCall` says and keeps the constraints |
| Server.Database.EndCall | main.py:187-214 | leaves tables and response as `Routes.EndCall` says and keeps the constraints |
| Server.Database.CheckCall | main.py:216-243 | answers what `Routes.CheckCall` says, changing nothing |
| Server.Database.Register | main.py:324-355 | leaves tables and response as `Routes.Register` says and keeps the constraints |
| Server.Database.Login | main.py:357-379 | answers what `Routes.Login` says, changing nothing |
| Server.Database.DeleteAccount | main.py:394-412 | leaves tables and response as `Routes.DeleteAccount` says and keeps the constraints |
| Server.Database.GetUsers | main.py:414-428 | the loop over the user rows answers what `Routes.GetUsers` says, changing nothing |
| Server.Database.GetMessages | main.py:430-456 | answers what `Routes.GetMessages` says, changing nothing |
| Server.Database.SendMessage | main.py:458-483 | leaves tables and response as `Routes.SendMessage` says and keeps the constraints |
| SignalingStore.WithOffer | main.py:619-623 | sets the offer and timestamp of that call only; its answer and candidates, and every other call, stay |
| SignalingStore.WithAnswer | main.py:625-629 | sets the answer and timestamp of that call only; its offer and candidates, and every other call, stay |
| SignalingStore.WithCandidate | main.py:636-640 | appends the candidate to that call's list and sets its timestamp; offer, answer and every other call stay |
| SignalingStore.CandidatesAreAppendOnly | main.py:636-645 | after any run of saves, a call's candidate list is its old list followed by every candidate saved for it, in order |
| SignalingStore.OfferIsLastSaved | main.py:619-640 | a call's offer is the last one saved for it; answer and candidate saves keep it |
| SignalingStore.UnsavedIdIsEmpty | main.py:631-645 | an id that was never saved reads as empty through `get_sdp` and `get_ice_candidates`: no offer, no answer, no candidates |
| SignalingStore.CallDataStore.constructor | main.py:18 | the store starts empty |
| SignalingStore.CallDataStore.SaveOffer | main.py:619-623 | updates `call_data` in place as `WithOffer` says; `get_sdp` then reads the new offer and the old answer, `get_ice_candidates` the old list, and other calls read as before |
| SignalingStore.CallDataStore.SaveAnswer | main.py:625-629 | updates `call_data` in place as `WithAnswer` says; `get_sdp` then reads the new answer and the old offer, `get_ice_candidates` the old list, and other calls read as before |
| SignalingStore.CallDataStore.SaveIceCandidate | main.py:636-640 | updates `call_data` in place as `WithCandidate` says: `setdefault(...).append`; `get_ice_candidates` then reads the old list followed by the new candidate, and `get_sdp` of every call reads the same offer and answer |
| SignalingStore.CallDataStore.GetIceCandidates | main.py:642-645 | the saved list of a known call; [] for an unknown call and for a known call with no candidate list |

## Left out

- Media, WebRTC and recording: `getUserMedia`, `MediaRecorder` and the
  upload and download of recordings. The peer connection keeps only its
  remote description, its applied candidates and whether it is closed.
- CallClient.Client.AttachCall: an environment step with no assignment in
  the script. `peerConnection` and `callId` are declared null
  (static/script.js:4-5) and only ever reset; the script never creates a
  peer connection or sets a call id. The method stands for whatever code
  would.
- CallClient.Client.AddCandidate: an environment step with no assignment
  in the script. `iceCandidatesBuffer` is declared empty
  (static/script.js:7) and only ever cleared; the script never pushes a
  candidate. The method stands for whatever code would.
- DOM and presentation: notifications, styles, button states, the popup's
  HTML, the error banner.
- Network plumbing (`initiateCall`, `sendCallNotification`, `acceptCall`,
  `checkForIncomingCalls`, `loadUsers`, `loadMessages`, `sendMessage`,
  the page redirects). Their replies are parameters. The only request the
  model records is the `/call/end` body, as a list of call ids sent.
- The client and server are not composed. The server's `/call/check` never
  returns a `status` field, and no `/call/sdp` route exists, so the client
  tick is modelled against an abstract status reply and an abstract SDP
  reply.
- The timer that the page load starts for `checkForIncomingCalls` is not
  tracked. No variable holds it, and nothing ever stops it.
- Real timers and overlapping in-flight ticks. These are concurrency: one
  tick is one atomic step.
- CallClient.Client.ProcessBufferedIceCandidates: requires a peer
  connection. The script reads `peerConnection.remoteDescription` first,
  so with a null `peerConnection` it throws a TypeError before changing
  anything; that throwing call is not modelled.
- `addIceCandidate` and `setRemoteDescription` rejecting are not modelled.
  Both are browser API calls; the model takes them as succeeding.
- SessionSpec.EndCall: the model keeps `callId` and the status timer when
  the `/call/end` request rejects, because the script's `await fetch`
  throws before those lines. A design that finishes the local teardown
  regardless of the server's answer would clear them; the model follows
  the code. The ICE buffer is left as it was, as in the code.
- SMTP recovery mail, the recovery routes, and recovery-link expiry
  (date/time parsing). `recovery` rows take part only in the cascade of
  `deleteacc`.
- `init_db` schema creation and migration, and `clear_database.py`. The
  UNIQUE columns appear as the invariant `DbValid`.
- Routes.SendMessage: the stored `is_system` value is a boolean
  parameter, given by the caller; other JSON values of it are not stored.
  A member named `is_system` does count toward the body's truthiness, as
  it does in the code.
- Routes.Field: a member whose value is not a string (a number, boolean,
  list, object or null) counts toward the body's truthiness, but
  `data.get` of it is treated as absent. The code would pass a truthy
  non-string value on to SQLite; that is not modelled.
- Routes.GetMessages: SQLite does not fix the order of rows with equal
  timestamps. The model keeps their insertion order, which is one of the
  orders SQLite may return.
- ServerTables.FirstPendingFor: the `check_call` query has no ORDER BY,
  so SQLite may return the pending calls in any order. The model takes the
  first in insertion order, which is one admissible answer; which of
  several pending calls is reported is not otherwise fixed.
- Routes.GetUsers: the `get_users` query has no ORDER BY and may be
  answered from the UNIQUE index on `username`. The model lists users in
  insertion order, which is one admissible order; the set of names and
  that each appears once are what it proves.
- Routes.AcceptedCallNotReportedAgain: holds for the state right after
  the accept. Later route steps are not covered: `end_call` followed by an
  `initiate_call` whose fresh id equals the old one would make a pending
  call with that id again.
- Routes.InitiateCall: a `uuid4` clash with an existing call id answers
  500, as the UNIQUE constraint makes the INSERT raise. The probability of
  that is not modelled.
- Database failures other than the UNIQUE constraints (the
  `OperationalError` and generic `except` branches) are not modelled. A
  body that does not parse as JSON is: `get_json` raises inside the
  handler's `try`, so the answer is 500. So is a top-level array, string,
  number or boolean body that is truthy: `data.get` raises
  `AttributeError` inside the `try`. A falsy one answers 400 "Invalid JSON
  data".
- `check_auth`'s own `except` branch (a failing database) is not modelled.
- Passwords are stored and compared as plain text, as in the code; no
  hashing is modelled.
- `end_call` does not check that the signed-in user is a party to the
  call, and `deleteacc` leaves the user's calls in place. The model keeps
  both behaviours.
- The value `get_sdp` returns is the dictionary stored in `call_data`, so
  a caller could change the store through it. The model returns a copy.
- The store's `timestamp` is the `time.time()` reading passed in as `now`.
- Logging (`print`, `console.log`) is left out.

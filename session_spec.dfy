/** The call session of the browser script, as a state machine over values.

    The script keeps its session in module-level variables: `selectedUser`,
    `peerConnection`, `callId`, `iceCandidatesBuffer` and three timer handles.
    `State` holds those, plus what the browser keeps on the script's behalf:
    the live `setInterval` registrations, the handle the next `setInterval`
    returns, the bodies of the `POST /call/end` requests sent so far, and
    whether the incoming-call popup is on the page.  Each operation of the
    script is a function from the state before to the state after; the
    network replies it awaits are parameters.  The class in `call_client.dfy`
    runs the same operations in place and is proved against these functions. */
module SessionSpec {
  import opened Wrappers

  type Candidate = string
  type Sdp = string

  /** The three repeating timers whose handles the script keeps. */
  datatype Poller = CallStatusCheck | MessagePolling | UsersPolling

  /** What the script sees of its RTCPeerConnection: whether a remote
      description is set, and the ICE candidates added to it, in order. */
  datatype Peer = Peer(remoteDescription: Option<Sdp>, applied: seq<Candidate>)

  /** The `#incomingCallNotification` popup: who calls, and which call. */
  datatype IncomingCall = IncomingCall(caller: string, callId: string)

  datatype State = State(
    selectedUser: Option<string>,
    peer: Option<Peer>,                   // peerConnection
    callId: Option<string>,
    buffer: seq<Candidate>,               // iceCandidatesBuffer
    callCheckInterval: Option<nat>,
    messagePollingInterval: Option<nat>,
    usersPollingInterval: Option<nat>,
    intervals: map<nat, Poller>,          // live setInterval registrations, by handle
    nextHandle: nat,                      // the handle the next setInterval returns
    endRequests: seq<string>,             // the call ids posted to /call/end, in order
    notification: Option<IncomingCall>)

  /** The page as it loads: every variable null, the buffer empty, no timer. */
  const Initial := State(None, None, None, [], None, None, None, map[], 1, [], None)

  /** JavaScript truthiness of a string variable: not null and not empty. */
  predicate Truthy(s: Option<string>) {
    s.Some? && s.value != ""
  }

  // ---------------------------------------------------------------------------
  // Repeating timers
  // ---------------------------------------------------------------------------

  function Handle(s: State, k: Poller): Option<nat> {
    match k
    case CallStatusCheck => s.callCheckInterval
    case MessagePolling => s.messagePollingInterval
    case UsersPolling => s.usersPollingInterval
  }

  function WithHandle(s: State, k: Poller, h: Option<nat>): (r: State)
    ensures Handle(r, k) == h
    ensures forall j :: j != k ==> Handle(r, j) == Handle(s, j)
  {
    match k
    case CallStatusCheck => s.(callCheckInterval := h)
    case MessagePolling => s.(messagePollingInterval := h)
    case UsersPolling => s.(usersPollingInterval := h)
  }

  /** `startCallStatusCheck`, `startMessagePolling`, `startUsersPolling`:
      `if (h) clearInterval(h); h = setInterval(...)`. */
  function StartPoller(s: State, k: Poller): State {
    var h := Handle(s, k);
    var live := if h.Some? then s.intervals - {h.value} else s.intervals;
    WithHandle(s.(intervals := live[s.nextHandle := k], nextHandle := s.nextHandle + 1), k, Some(s.nextHandle))
  }

  /** `stopMessagePolling`, `stopUsersPolling`, and the last block of
      `endCall`: `if (h) { clearInterval(h); h = null; }`. */
  function StopPoller(s: State, k: Poller): State {
    var h := Handle(s, k);
    if h.Some? then WithHandle(s.(intervals := s.intervals - {h.value}), k, None) else s
  }

  /** Handles are positive, as `setInterval` returns them, so a stored handle
      is truthy exactly when it is present; every live registration is the one
      its poller's variable holds, and every held handle is live. */
  ghost predicate TimersValid(s: State) {
    && s.nextHandle >= 1
    && (forall h :: h in s.intervals ==> 1 <= h < s.nextHandle && Handle(s, s.intervals[h]) == Some(h))
    && (forall k :: Handle(s, k).Some? ==> Handle(s, k).value in s.intervals && s.intervals[Handle(s, k).value] == k)
  }

  /** The live timers of one poller. */
  function LiveTimers(s: State, k: Poller): set<nat> {
    set h | h in s.intervals && s.intervals[h] == k
  }

  /** Under the invariant a poller has exactly one live timer while its
      variable holds a handle, and none otherwise. */
  lemma OneTimerPerPoller(s: State, k: Poller)
    requires TimersValid(s)
    ensures LiveTimers(s, k) == if Handle(s, k).Some? then {Handle(s, k).value} else {}
  {
    forall h | h in LiveTimers(s, k) ensures Handle(s, k) == Some(h) {
    }
  }

  /** The timer invariant reads only the timer fields. */
  lemma TimersFrame(s: State, t: State)
    requires t.intervals == s.intervals && t.nextHandle == s.nextHandle
    requires t.callCheckInterval == s.callCheckInterval
    requires t.messagePollingInterval == s.messagePollingInterval
    requires t.usersPollingInterval == s.usersPollingInterval
    ensures TimersValid(s) == TimersValid(t)
  {
    forall k ensures Handle(s, k) == Handle(t, k) {
    }
  }

  lemma StartKeepsTimers(s: State, k: Poller)
    requires TimersValid(s)
    ensures TimersValid(StartPoller(s, k))
  {
    var r := StartPoller(s, k);
    forall h | h in r.intervals
      ensures 1 <= h < r.nextHandle && Handle(r, r.intervals[h]) == Some(h)
    {
      if h != s.nextHandle {
        assert h in s.intervals && s.intervals[h] == r.intervals[h];
      }
    }
    forall j ensures Handle(r, j).Some? ==> Handle(r, j).value in r.intervals && r.intervals[Handle(r, j).value] == j {
      if j != k && Handle(s, j).Some? {
        assert Handle(s, j) != Handle(s, k);
      }
    }
  }

  lemma StopKeepsTimers(s: State, k: Poller)
    requires TimersValid(s)
    ensures TimersValid(StopPoller(s, k))
  {
    var r := StopPoller(s, k);
    if Handle(s, k).Some? {
      forall h | h in r.intervals ensures 1 <= h < r.nextHandle && Handle(r, r.intervals[h]) == Some(h) {
        assert r.intervals[h] == s.intervals[h];
      }
      forall j | Handle(r, j).Some? ensures Handle(r, j).value in r.intervals && r.intervals[Handle(r, j).value] == j {
        assert s.intervals[Handle(s, j).value] == j;
      }
    }
  }

  /** Starting a poller clears the timer it had and registers one new timer,
      which is then its only live one; the other pollers keep theirs. */
  lemma StartLeavesOneTimer(s: State, k: Poller)
    requires TimersValid(s)
    ensures var r := StartPoller(s, k);
      && Handle(r, k) == Some(s.nextHandle)
      && LiveTimers(r, k) == {s.nextHandle}
      && (Handle(s, k).Some? ==> Handle(s, k).value !in r.intervals)
      && forall j :: j != k ==> Handle(r, j) == Handle(s, j) && LiveTimers(r, j) == LiveTimers(s, j)
  {
    StartKeepsTimers(s, k);
    var r := StartPoller(s, k);
    OneTimerPerPoller(r, k);
    forall j | j != k ensures LiveTimers(r, j) == LiveTimers(s, j) {
      OneTimerPerPoller(r, j);
      OneTimerPerPoller(s, j);
    }
  }

  /** Starting twice in a row still leaves exactly one live timer. */
  lemma StartTwiceLeavesOneTimer(s: State, k: Poller)
    requires TimersValid(s)
    ensures var r := StartPoller(StartPoller(s, k), k);
      LiveTimers(r, k) == {Handle(r, k).value}
  {
    StartKeepsTimers(s, k);
    StartLeavesOneTimer(StartPoller(s, k), k);
  }

  /** Stopping a poller that is not running changes nothing; stopping a
      running one leaves its variable null and no live timer of its own. */
  lemma StopIsIdempotent(s: State, k: Poller)
    requires TimersValid(s)
    ensures Handle(s, k).None? ==> StopPoller(s, k) == s
    ensures Handle(StopPoller(s, k), k).None? && LiveTimers(StopPoller(s, k), k) == {}
    ensures StopPoller(StopPoller(s, k), k) == StopPoller(s, k)
  {
    StopKeepsTimers(s, k);
    OneTimerPerPoller(StopPoller(s, k), k);
  }

  // ---------------------------------------------------------------------------
  // The ICE candidate buffer
  // ---------------------------------------------------------------------------

  /** The producer of the buffer: a remote ICE candidate received before the
      answer is set, kept for `addIceCandidate` (static/script.js:203). */
  function AddCandidate(s: State, c: Candidate): State {
    s.(buffer := s.buffer + [c])
  }

  /** `processBufferedIceCandidates()`: with a remote description set and a
      non-empty buffer, add every buffered candidate to the peer connection in
      order, then empty the buffer; otherwise do nothing.  Reading
      `peerConnection.remoteDescription` needs a peer connection. */
  function Flush(s: State): State
    requires s.peer.Some?
  {
    var p := s.peer.value;
    if p.remoteDescription.Some? && |s.buffer| > 0
    then s.(peer := Some(p.(applied := p.applied + s.buffer)), buffer := [])
    else s
  }

  /** With a remote description, flushing applies the whole buffer after what
      was applied before, in insertion order, and leaves the buffer empty. */
  lemma FlushAppliesInOrder(s: State)
    requires s.peer.Some? && s.peer.value.remoteDescription.Some?
    ensures Flush(s).peer.Some?
    ensures Flush(s).peer.value.applied == s.peer.value.applied + s.buffer
    ensures Flush(s).buffer == []
    ensures Flush(s).peer.value.remoteDescription == s.peer.value.remoteDescription
  {
  }

  /** Without a remote description, or with nothing buffered, flushing
      applies nothing and keeps the buffer. */
  lemma FlushGuard(s: State)
    requires s.peer.Some?
    requires s.peer.value.remoteDescription.None? || s.buffer == []
    ensures Flush(s) == s
  {
  }

  // ---------------------------------------------------------------------------
  // endCall and the status tick
  // ---------------------------------------------------------------------------

  /** `endCall()`.  The peer connection is closed and dropped.  With a truthy
      `callId` the call id is posted to /call/end; if that request rejects
      (`endRequestThrows`), the exception leaves the function there, keeping
      `callId` and the status timer.  Otherwise `callId` becomes null and the
      status timer is stopped.  The buffer is left as it is. */
  function EndCall(s: State, endRequestThrows: bool): State {
    var closed := s.(peer := None);
    if Truthy(s.callId) then
      var sent := closed.(endRequests := s.endRequests + [s.callId.value]);
      if endRequestThrows then sent else StopPoller(sent.(callId := None), CallStatusCheck)
    else StopPoller(closed, CallStatusCheck)
  }

  /** What `fetch('/call/check?id=...')` and `response.json()` gave: a
      rejection (network failure, or a body that is not JSON), a response that
      is not OK, or the `status` field of the body (None when it has none). */
  datatype StatusReply = StatusThrew | StatusNotOk | StatusBody(status: Option<string>)

  /** What `fetch('/call/sdp?call_id=...')` and `.json()` gave: a rejection,
      or the `answer` field of the body (None when absent or falsy). */
  datatype SdpReply = SdpThrew | SdpBody(answer: Option<Sdp>)

  /** One tick of the timer `startCallStatusCheck` registers.  Exceptions
      are caught by the tick's own `try`, so a failing step leaves the state
      as it was at that point. */
  function StatusTick(s: State, reply: StatusReply, sdp: SdpReply, endRequestThrows: bool): State {
    if !Truthy(s.callId) then s
    else match reply
      case StatusThrew => s
      case StatusNotOk => s
      case StatusBody(status) =>
        if status == Some("accepted") then
          if s.peer.None? then s   // reading remoteDescription of null throws
          else if s.peer.value.remoteDescription.Some? then s
          else match sdp
            case SdpThrew => s
            case SdpBody(answer) =>
              if answer.Some? then Flush(s.(peer := Some(s.peer.value.(remoteDescription := answer))))
              else s
        else if status == Some("ended") then EndCall(s, endRequestThrows)
        else s
  }

  /** After `endCall` (its request answered), the peer connection, the call id
      and the status timer are all gone; the end request went out exactly when
      there was a call id.  A rejected request leaves the call id and the
      timer in place. */
  lemma EndCallResets(s: State, endRequestThrows: bool)
    requires TimersValid(s)
    ensures var r := EndCall(s, endRequestThrows);
      && r.peer.None?
      && r.buffer == s.buffer
      && r.endRequests == (if Truthy(s.callId) then s.endRequests + [s.callId.value] else s.endRequests)
      && (!endRequestThrows || !Truthy(s.callId) ==>
            r.callCheckInterval.None? && LiveTimers(r, CallStatusCheck) == {} && !Truthy(r.callId))
      && (Truthy(s.callId) && !endRequestThrows ==> r.callId.None?)
      && (Truthy(s.callId) && endRequestThrows ==>
            r.callId == s.callId && r.callCheckInterval == s.callCheckInterval)
  {
    if Truthy(s.callId) {
      var sent := s.(peer := None, endRequests := s.endRequests + [s.callId.value], callId := None);
      TimersFrame(s, sent);
      StopIsIdempotent(sent, CallStatusCheck);
    } else {
      TimersFrame(s, s.(peer := None));
      StopIsIdempotent(s.(peer := None), CallStatusCheck);
    }
  }

  lemma EndCallKeepsTimers(s: State, endRequestThrows: bool)
    requires TimersValid(s)
    ensures TimersValid(EndCall(s, endRequestThrows))
  {
    if Truthy(s.callId) {
      var sent := s.(peer := None, endRequests := s.endRequests + [s.callId.value]);
      TimersFrame(s, sent);
      TimersFrame(s, sent.(callId := None));
      StopKeepsTimers(sent.(callId := None), CallStatusCheck);
    } else {
      TimersFrame(s, s.(peer := None));
      StopKeepsTimers(s.(peer := None), CallStatusCheck);
    }
  }

  /** A tick without a call id, or whose status request failed or was not
      OK, changes nothing. */
  lemma QuietTicks(s: State, reply: StatusReply, sdp: SdpReply, endRequestThrows: bool)
    requires !Truthy(s.callId) || !reply.StatusBody?
    ensures StatusTick(s, reply, sdp, endRequestThrows) == s
  {
  }

  /** An "accepted" tick fetches and applies the answer only while no remote
      description is set: once a tick with an answer has run, the remote
      description is set and every later "accepted" tick changes nothing, so
      the answer is applied at most once. */
  lemma SecondAcceptedTickIsQuiet(s: State, answer: Sdp, sdp2: SdpReply, e1: bool, e2: bool)
    requires Truthy(s.callId) && s.peer.Some?
    ensures var t := StatusTick(s, StatusBody(Some("accepted")), SdpBody(Some(answer)), e1);
      && t.peer.Some? && t.peer.value.remoteDescription.Some?
      && StatusTick(t, StatusBody(Some("accepted")), sdp2, e2) == t
  {
    if s.peer.value.remoteDescription.None? {
      var set_ := s.(peer := Some(s.peer.value.(remoteDescription := Some(answer))));
      FlushAppliesInOrder(set_);
    }
  }

  /** An "accepted" tick whose SDP reply has no answer leaves the remote
      description unset and the buffer as it was. */
  lemma AcceptedWithoutAnswer(s: State, e: bool)
    ensures StatusTick(s, StatusBody(Some("accepted")), SdpBody(None), e) == s
  {
  }

  /** An "ended" tick tears the call down, and every later tick is quiet. */
  lemma EndedTickTearsDown(s: State, sdp: SdpReply, reply: StatusReply, sdp2: SdpReply, e: bool)
    requires TimersValid(s) && Truthy(s.callId)
    ensures var t := StatusTick(s, StatusBody(Some("ended")), sdp, false);
      && t.peer.None? && t.callId.None? && t.callCheckInterval.None?
      && LiveTimers(t, CallStatusCheck) == {}
      && t.endRequests == s.endRequests + [s.callId.value]
      && StatusTick(t, reply, sdp2, e) == t
  {
    EndCallResets(s, false);
  }

  // ---------------------------------------------------------------------------
  // The rest of the session: attaching a call, chat polling, the popup
  // ---------------------------------------------------------------------------

  /** The producer of `callId` and `peerConnection`: the call set-up that
      creates a fresh peer connection for the call `id`. */
  function AttachCall(s: State, id: string): State {
    s.(callId := Some(id), peer := Some(Peer(None, [])))
  }

  /** `selectUser(user)`: remember the peer and (re)start message polling. */
  function SelectUser(s: State, user: string): State {
    StartPoller(s.(selectedUser := Some(user)), MessagePolling)
  }

  /** The `visibilitychange` handler: a hidden page stops both chat pollers;
      a visible /main page restarts user polling, and message polling when a
      peer is selected. */
  function OnVisibilityChange(s: State, hidden: bool, onMainPage: bool): State {
    if hidden then StopPoller(StopPoller(s, MessagePolling), UsersPolling)
    else if onMainPage then
      var t := StartPoller(s, UsersPolling);
      if Truthy(s.selectedUser) then StartPoller(t, MessagePolling) else t
    else s
  }

  /** The `beforeunload` handler: stop both chat pollers. */
  function OnBeforeUnload(s: State): State {
    StopPoller(StopPoller(s, MessagePolling), UsersPolling)
  }

  /** `showIncomingCallNotification(caller, callId)`: does nothing while a
      popup is already on the page. */
  function ShowIncomingCallNotification(s: State, caller: string, callId: string): State {
    if s.notification.Some? then s else s.(notification := Some(IncomingCall(caller, callId)))
  }

  /** The popup's 30-second timeout removes it if it is still there. */
  function DismissIncomingCall(s: State): State {
    s.(notification := None)
  }

  /** `declineCall(callId)`: post the call id to /call/end, then remove the
      popup; a rejected request skips the removal (the error is caught). */
  function DeclineCall(s: State, callId: string, endRequestThrows: bool): State {
    var sent := s.(endRequests := s.endRequests + [callId]);
    if endRequestThrows then sent else sent.(notification := None)
  }

  /** The popup is single-instance: a second call shown while one is up is
      dropped, and the first stays. */
  lemma OnePopupAtATime(s: State, c1: string, id1: string, c2: string, id2: string)
    requires s.notification.None?
    ensures ShowIncomingCallNotification(ShowIncomingCallNotification(s, c1, id1), c2, id2).notification
      == Some(IncomingCall(c1, id1))
  {
  }

  // ---------------------------------------------------------------------------
  // Runs of events and the session invariant
  // ---------------------------------------------------------------------------

  /** `CandidateGathered` stands for a remote candidate that arrives and is
      buffered; the local connection's own candidates go to the other side
      and never enter this buffer. */
  datatype Event =
    | CandidateGathered(candidate: Candidate)
    | CallAttached(id: string)
    | BufferFlushed
    | StatusCheckStarted
    | StatusTicked(reply: StatusReply, sdp: SdpReply, endRequestThrows: bool)
    | CallEnded(endRequestThrows: bool)
    | UserSelected(user: string)
    | MessagePollingStarted
    | MessagePollingStopped
    | UsersPollingStarted
    | UsersPollingStopped
    | VisibilityChanged(hidden: bool, onMainPage: bool)
    | PageUnloading
    | IncomingCallShown(caller: string, callId: string)
    | IncomingCallDismissed
    | IncomingCallDeclined(id: string, endRequestThrows: bool)

  /** One event.  A flush without a peer connection throws in the script;
      here it changes nothing. */
  function Step(s: State, e: Event): State {
    match e
    case CandidateGathered(c) => AddCandidate(s, c)
    case CallAttached(id) => AttachCall(s, id)
    case BufferFlushed => if s.peer.Some? then Flush(s) else s
    case StatusCheckStarted => StartPoller(s, CallStatusCheck)
    case StatusTicked(reply, sdp, t) => StatusTick(s, reply, sdp, t)
    case CallEnded(t) => EndCall(s, t)
    case UserSelected(u) => SelectUser(s, u)
    case MessagePollingStarted => StartPoller(s, MessagePolling)
    case MessagePollingStopped => StopPoller(s, MessagePolling)
    case UsersPollingStarted => StartPoller(s, UsersPolling)
    case UsersPollingStopped => StopPoller(s, UsersPolling)
    case VisibilityChanged(hidden, onMain) => OnVisibilityChange(s, hidden, onMain)
    case PageUnloading => OnBeforeUnload(s)
    case IncomingCallShown(caller, id) => ShowIncomingCallNotification(s, caller, id)
    case IncomingCallDismissed => DismissIncomingCall(s)
    case IncomingCallDeclined(id, t) => DeclineCall(s, id, t)
  }

  function Run(s: State, events: seq<Event>): State
    decreases |events|
  {
    if events == [] then s else Run(Step(s, events[0]), events[1..])
  }

  /** No candidate reaches the peer connection before its remote description. */
  predicate NoEarlyCandidates(s: State) {
    s.peer.Some? && s.peer.value.remoteDescription.None? ==> s.peer.value.applied == []
  }

  ghost predicate Inv(s: State) {
    TimersValid(s) && NoEarlyCandidates(s)
  }

  lemma InitialInv()
    ensures Inv(Initial)
  {
  }

  lemma TickKeepsInv(s: State, reply: StatusReply, sdp: SdpReply, endRequestThrows: bool)
    requires Inv(s)
    ensures Inv(StatusTick(s, reply, sdp, endRequestThrows))
  {
    var r := StatusTick(s, reply, sdp, endRequestThrows);
    if r == EndCall(s, endRequestThrows) {
      EndCallKeepsTimers(s, endRequestThrows);
    } else if r != s {
      var p := s.peer.value.(remoteDescription := sdp.answer);
      assert r == Flush(s.(peer := Some(p)));
      FlushAppliesInOrder(s.(peer := Some(p)));
      TimersFrame(s, r);
    }
  }

  lemma StartKeepsInv(s: State, k: Poller)
    requires Inv(s)
    ensures Inv(StartPoller(s, k))
  {
    StartKeepsTimers(s, k);
  }

  lemma StopKeepsInv(s: State, k: Poller)
    requires Inv(s)
    ensures Inv(StopPoller(s, k))
  {
    StopKeepsTimers(s, k);
  }

  lemma SelectUserKeepsInv(s: State, u: string)
    requires Inv(s)
    ensures Inv(SelectUser(s, u))
  {
    TimersFrame(s, s.(selectedUser := Some(u)));
    StartKeepsInv(s.(selectedUser := Some(u)), MessagePolling);
  }

  lemma VisibilityKeepsInv(s: State, hidden: bool, onMainPage: bool)
    requires Inv(s)
    ensures Inv(OnVisibilityChange(s, hidden, onMainPage))
  {
    StopKeepsInv(s, MessagePolling);
    StopKeepsInv(StopPoller(s, MessagePolling), UsersPolling);
    StartKeepsInv(s, UsersPolling);
    StartKeepsInv(StartPoller(s, UsersPolling), MessagePolling);
  }

  /** The events that leave every timer field alone. */
  predicate TouchesNoTimer(e: Event) {
    e.CandidateGathered? || e.CallAttached? || e.BufferFlushed? || e.IncomingCallShown?
    || e.IncomingCallDismissed? || e.IncomingCallDeclined?
  }

  lemma QuietEventKeepsInv(s: State, e: Event)
    requires Inv(s) && TouchesNoTimer(e)
    ensures Inv(Step(s, e))
  {
    TimersFrame(s, Step(s, e));
  }

  lemma StepKeepsInv(s: State, e: Event)
    requires Inv(s)
    ensures Inv(Step(s, e))
  {
    if TouchesNoTimer(e) {
      QuietEventKeepsInv(s, e);
    } else {
      match e
      case StatusCheckStarted => StartKeepsInv(s, CallStatusCheck);
      case StatusTicked(reply, sdp, t) => TickKeepsInv(s, reply, sdp, t);
      case CallEnded(t) => EndCallKeepsTimers(s, t);
      case UserSelected(u) => SelectUserKeepsInv(s, u);
      case MessagePollingStarted => StartKeepsInv(s, MessagePolling);
      case MessagePollingStopped => StopKeepsInv(s, MessagePolling);
      case UsersPollingStarted => StartKeepsInv(s, UsersPolling);
      case UsersPollingStopped => StopKeepsInv(s, UsersPolling);
      case VisibilityChanged(hidden, onMain) => VisibilityKeepsInv(s, hidden, onMain);
      case PageUnloading =>
        StopKeepsInv(s, MessagePolling);
        StopKeepsInv(StopPoller(s, MessagePolling), UsersPolling);
    }
  }

  /** Every reachable session keeps the invariant: each running poller has
      exactly one live timer, and no candidate is applied early. */
  lemma {:induction false} RunKeepsInv(s: State, events: seq<Event>)
    requires Inv(s)
    ensures Inv(Run(s, events))
    decreases |events|
  {
    if events != [] {
      StepKeepsInv(s, events[0]);
      RunKeepsInv(Step(s, events[0]), events[1..]);
    }
  }

  /** One arrival event per remote candidate, in order. */
  function Gathered(cs: seq<Candidate>): (es: seq<Event>)
    ensures |es| == |cs|
  {
    seq(|cs|, i requires 0 <= i < |cs| => CandidateGathered(cs[i]))
  }

  /** Receiving remote candidates only appends them to the buffer, in order. */
  lemma {:induction false} GatheringOnlyBuffers(s: State, cs: seq<Candidate>)
    ensures Run(s, Gathered(cs)) == s.(buffer := s.buffer + cs)
    decreases |cs|
  {
    if cs == [] {
      assert s.buffer + cs == s.buffer;
    } else {
      assert Gathered(cs)[1..] == Gathered(cs[1..]);
      GatheringOnlyBuffers(AddCandidate(s, cs[0]), cs[1..]);
      assert s.buffer + [cs[0]] + cs[1..] == s.buffer + cs;
    }
  }

  /** Remote candidates received before the answer arrives are applied,
      after the answer is set, all of them and in the order they arrived, and
      the buffer is left empty. */
  lemma GatheredBeforeAnswerAppliedInOrder(s: State, cs: seq<Candidate>, answer: Sdp, e: bool)
    requires Truthy(s.callId) && s.peer.Some? && s.peer.value.remoteDescription.None?
    ensures var t := StatusTick(Run(s, Gathered(cs)), StatusBody(Some("accepted")), SdpBody(Some(answer)), e);
      && t.peer == Some(Peer(Some(answer), s.peer.value.applied + s.buffer + cs))
      && t.buffer == []
  {
    GatheringOnlyBuffers(s, cs);
    var g := s.(buffer := s.buffer + cs);
    var p := s.peer.value.(remoteDescription := Some(answer));
    assert StatusTick(g, StatusBody(Some("accepted")), SdpBody(Some(answer)), e) == Flush(g.(peer := Some(p)));
    FlushAppliesInOrder(g.(peer := Some(p)));
    assert s.peer.value.applied + (s.buffer + cs) == s.peer.value.applied + s.buffer + cs;
  }
}

/** The call session of the browser script, run in place.

    `Client` holds the script's module-level variables as fields and updates
    them the way the script's functions do; `PeerConnection` is the part of
    the browser's RTCPeerConnection the script uses.  Every method is proved
    to take the session from `old(Model())` to the state the matching
    function of `SessionSpec` computes, and to keep `Valid()`, so the
    properties proved there hold of this code. */
module CallClient {
  import opened Wrappers
  import SessionSpec

  /** An RTCPeerConnection: its remote description, the ICE candidates added
      to it in order, and whether it was closed. */
  class PeerConnection {
    var remoteDescription: Option<SessionSpec.Sdp>
    var applied: seq<SessionSpec.Candidate>
    var closed: bool

    constructor ()
      ensures remoteDescription == None && applied == [] && !closed
    {
      remoteDescription := None;
      applied := [];
      closed := false;
    }

    method SetRemoteDescription(d: SessionSpec.Sdp)
      modifies this
      ensures remoteDescription == Some(d)
      ensures applied == old(applied) && closed == old(closed)
    {
      remoteDescription := Some(d);
    }

    /** WebRTC rejects a remote candidate while no remote description is set;
        the script only calls this once the answer is applied. */
    method AddIceCandidate(c: SessionSpec.Candidate)
      requires remoteDescription.Some?
      modifies this
      ensures applied == old(applied) + [c]
      ensures remoteDescription == old(remoteDescription) && closed == old(closed)
    {
      applied := applied + [c];
    }

    method Close()
      modifies this
      ensures closed
      ensures remoteDescription == old(remoteDescription) && applied == old(applied)
    {
      closed := true;
    }
  }

  class Client {
    var selectedUser: Option<string>
    var messagePollingInterval: Option<nat>
    var usersPollingInterval: Option<nat>
    var peerConnection: PeerConnection?
    var callId: Option<string>
    var callCheckInterval: Option<nat>
    var iceCandidatesBuffer: seq<SessionSpec.Candidate>
    // Kept for the script by the browser and the page:
    var intervals: map<nat, SessionSpec.Poller>
    var nextHandle: nat
    var endRequests: seq<string>
    var notification: Option<SessionSpec.IncomingCall>

    /** The session these fields hold. */
    function Model(): SessionSpec.State
      reads this, peerConnection
    {
      SessionSpec.State(
        selectedUser,
        if peerConnection == null then None
        else Some(SessionSpec.Peer(peerConnection.remoteDescription, peerConnection.applied)),
        callId, iceCandidatesBuffer, callCheckInterval, messagePollingInterval,
        usersPollingInterval, intervals, nextHandle, endRequests, notification)
    }

    /** The session invariant, and the peer connection held is an open one. */
    ghost predicate Valid()
      reads this, peerConnection
    {
      SessionSpec.Inv(Model()) && (peerConnection != null ==> !peerConnection.closed)
    }

    /** The page as it loads. */
    constructor ()
      ensures Model() == SessionSpec.Initial && Valid()
    {
      selectedUser := None;
      messagePollingInterval := None;
      usersPollingInterval := None;
      peerConnection := null;
      callId := None;
      callCheckInterval := None;
      iceCandidatesBuffer := [];
      intervals := map[];
      nextHandle := 1;
      endRequests := [];
      notification := None;
      new;
      SessionSpec.InitialInv();
    }

    /** The browser's `setInterval`: registers a timer under a new handle. */
    method SetInterval(k: SessionSpec.Poller) returns (h: nat)
      modifies this`intervals, this`nextHandle
      ensures h == old(nextHandle)
      ensures intervals == old(intervals)[h := k] && nextHandle == old(nextHandle) + 1
    {
      h := nextHandle;
      intervals := intervals[h := k];
      nextHandle := nextHandle + 1;
    }

    /** The browser's `clearInterval`. */
    method ClearInterval(h: nat)
      modifies this`intervals
      ensures intervals == old(intervals) - {h}
    {
      intervals := intervals - {h};
    }

    /** A remote candidate received before the answer, kept until it is set. */
    method AddCandidate(c: SessionSpec.Candidate)
      requires Valid()
      modifies this`iceCandidatesBuffer
      ensures Valid()
      ensures Model() == SessionSpec.AddCandidate(old(Model()), c)
    {
      iceCandidatesBuffer := iceCandidatesBuffer + [c];
      SessionSpec.StepKeepsInv(old(Model()), SessionSpec.CandidateGathered(c));
    }

    /** The call set-up: a fresh peer connection for the call `id`. */
    method AttachCall(id: string)
      requires Valid()
      modifies this
      ensures Valid() && fresh(peerConnection)
      ensures Model() == SessionSpec.AttachCall(old(Model()), id)
    {
      peerConnection := new PeerConnection();
      callId := Some(id);
      SessionSpec.StepKeepsInv(old(Model()), SessionSpec.CallAttached(id));
    }

    /** `processBufferedIceCandidates()`. */
    method ProcessBufferedIceCandidates()
      requires peerConnection != null
      modifies this`iceCandidatesBuffer, peerConnection
      ensures peerConnection == old(peerConnection) && peerConnection.closed == old(peerConnection.closed)
      ensures Model() == SessionSpec.Flush(old(Model()))
    {
      if peerConnection.remoteDescription.Some? && |iceCandidatesBuffer| > 0 {
        var i := 0;
        while i < |iceCandidatesBuffer|
          invariant 0 <= i <= |iceCandidatesBuffer|
          invariant iceCandidatesBuffer == old(iceCandidatesBuffer)
          invariant peerConnection.applied == old(peerConnection.applied) + iceCandidatesBuffer[..i]
          invariant peerConnection.remoteDescription == old(peerConnection.remoteDescription)
          invariant peerConnection.closed == old(peerConnection.closed)
        {
          peerConnection.AddIceCandidate(iceCandidatesBuffer[i]);
          i := i + 1;
        }
        assert iceCandidatesBuffer[..i] == iceCandidatesBuffer;
        iceCandidatesBuffer := [];
      }
    }

    /** `endCall()`; `endRequestThrows` says whether the awaited POST to
        /call/end rejects, which leaves the function at that point. */
    method EndCall(endRequestThrows: bool)
      requires Valid()
      modifies this, peerConnection
      ensures Valid()
      ensures old(peerConnection) != null ==> old(peerConnection).closed
      ensures Model() == SessionSpec.EndCall(old(Model()), endRequestThrows)
    {
      SessionSpec.EndCallKeepsTimers(Model(), endRequestThrows);
      if peerConnection != null {
        peerConnection.Close();
        peerConnection := null;
      }
      if SessionSpec.Truthy(callId) {
        endRequests := endRequests + [callId.value];
        if endRequestThrows {
          return;
        }
        callId := None;
      }
      if callCheckInterval.Some? {
        ClearInterval(callCheckInterval.value);
        callCheckInterval := None;
      }
    }

    /** One tick of the call status timer, with the replies it awaits. */
    method StatusTick(reply: SessionSpec.StatusReply, sdp: SessionSpec.SdpReply, endRequestThrows: bool)
      requires Valid()
      modifies this, peerConnection
      ensures Valid()
      ensures Model() == SessionSpec.StatusTick(old(Model()), reply, sdp, endRequestThrows)
    {
      if !SessionSpec.Truthy(callId) {
        return;
      }
      match reply {
        case StatusThrew =>
        case StatusNotOk =>
        case StatusBody(status) =>
          if status == Some("accepted") {
            // A null peer connection throws here, and the tick's catch ends it.
            if peerConnection != null && peerConnection.remoteDescription.None? {
              match sdp {
                case SdpThrew =>
                case SdpBody(answer) =>
                  if answer.Some? {
                    SessionSpec.TickKeepsInv(old(Model()), reply, sdp, endRequestThrows);
                    peerConnection.SetRemoteDescription(answer.value);
                    ProcessBufferedIceCandidates();
                  }
              }
            }
          } else if status == Some("ended") {
            EndCall(endRequestThrows);
          }
      }
    }

    /** `startCallStatusCheck()`. */
    method StartCallStatusCheck()
      requires Valid()
      modifies this`intervals, this`nextHandle, this`callCheckInterval
      ensures Valid()
      ensures Model() == SessionSpec.StartPoller(old(Model()), SessionSpec.CallStatusCheck)
    {
      ghost var s0 := Model();
      ghost var live := if callCheckInterval.Some? then intervals - {callCheckInterval.value} else intervals;
      if callCheckInterval.Some? {
        ClearInterval(callCheckInterval.value);
      }
      var h := SetInterval(SessionSpec.CallStatusCheck);
      callCheckInterval := Some(h);
      assert Model() == s0.(intervals := live[s0.nextHandle := SessionSpec.CallStatusCheck],
                            nextHandle := s0.nextHandle + 1, callCheckInterval := Some(s0.nextHandle));
      SessionSpec.StartKeepsInv(s0, SessionSpec.CallStatusCheck);
      assert SessionSpec.Inv(Model());
    }

    /** `startMessagePolling()`. */
    method StartMessagePolling()
      requires Valid()
      modifies this`intervals, this`nextHandle, this`messagePollingInterval
      ensures Valid()
      ensures Model() == SessionSpec.StartPoller(old(Model()), SessionSpec.MessagePolling)
    {
      ghost var s0 := Model();
      ghost var live := if messagePollingInterval.Some? then intervals - {messagePollingInterval.value} else intervals;
      if messagePollingInterval.Some? {
        ClearInterval(messagePollingInterval.value);
      }
      var h := SetInterval(SessionSpec.MessagePolling);
      messagePollingInterval := Some(h);
      assert Model() == s0.(intervals := live[s0.nextHandle := SessionSpec.MessagePolling],
                            nextHandle := s0.nextHandle + 1, messagePollingInterval := Some(s0.nextHandle));
      SessionSpec.StartKeepsInv(s0, SessionSpec.MessagePolling);
      assert SessionSpec.Inv(Model());
    }

    /** `stopMessagePolling()`. */
    method StopMessagePolling()
      requires Valid()
      modifies this`intervals, this`messagePollingInterval
      ensures Valid()
      ensures Model() == SessionSpec.StopPoller(old(Model()), SessionSpec.MessagePolling)
    {
      if messagePollingInterval.Some? {
        ClearInterval(messagePollingInterval.value);
        messagePollingInterval := None;
      }
      SessionSpec.StopKeepsInv(old(Model()), SessionSpec.MessagePolling);
    }

    /** `startUsersPolling()`. */
    method StartUsersPolling()
      requires Valid()
      modifies this`intervals, this`nextHandle, this`usersPollingInterval
      ensures Valid()
      ensures Model() == SessionSpec.StartPoller(old(Model()), SessionSpec.UsersPolling)
    {
      ghost var s0 := Model();
      ghost var live := if usersPollingInterval.Some? then intervals - {usersPollingInterval.value} else intervals;
      if usersPollingInterval.Some? {
        ClearInterval(usersPollingInterval.value);
      }
      var h := SetInterval(SessionSpec.UsersPolling);
      usersPollingInterval := Some(h);
      assert Model() == s0.(intervals := live[s0.nextHandle := SessionSpec.UsersPolling],
                            nextHandle := s0.nextHandle + 1, usersPollingInterval := Some(s0.nextHandle));
      SessionSpec.StartKeepsInv(s0, SessionSpec.UsersPolling);
      assert SessionSpec.Inv(Model());
    }

    /** `stopUsersPolling()`. */
    method StopUsersPolling()
      requires Valid()
      modifies this`intervals, this`usersPollingInterval
      ensures Valid()
      ensures Model() == SessionSpec.StopPoller(old(Model()), SessionSpec.UsersPolling)
    {
      if usersPollingInterval.Some? {
        ClearInterval(usersPollingInterval.value);
        usersPollingInterval := None;
      }
      SessionSpec.StopKeepsInv(old(Model()), SessionSpec.UsersPolling);
    }

    /** `selectUser(user)`, without the page updates and the first load. */
    method SelectUser(user: string)
      requires Valid()
      modifies this`selectedUser, this`intervals, this`nextHandle, this`messagePollingInterval
      ensures Valid()
      ensures Model() == SessionSpec.SelectUser(old(Model()), user)
    {
      selectedUser := Some(user);
      SessionSpec.TimersFrame(old(Model()), Model());
      StartMessagePolling();
    }

    /** The `visibilitychange` handler. */
    method OnVisibilityChange(hidden: bool, onMainPage: bool)
      requires Valid()
      modifies this`intervals, this`nextHandle, this`messagePollingInterval, this`usersPollingInterval
      ensures Valid()
      ensures Model() == SessionSpec.OnVisibilityChange(old(Model()), hidden, onMainPage)
    {
      if hidden {
        StopMessagePolling();
        StopUsersPolling();
      } else if onMainPage {
        StartUsersPolling();
        if SessionSpec.Truthy(selectedUser) {
          StartMessagePolling();
        }
      }
    }

    /** The `beforeunload` handler. */
    method OnBeforeUnload()
      requires Valid()
      modifies this`intervals, this`messagePollingInterval, this`usersPollingInterval
      ensures Valid()
      ensures Model() == SessionSpec.OnBeforeUnload(old(Model()))
    {
      StopMessagePolling();
      StopUsersPolling();
    }

    /** `showIncomingCallNotification(caller, callId)`. */
    method ShowIncomingCallNotification(caller: string, id: string)
      requires Valid()
      modifies this`notification
      ensures Valid()
      ensures Model() == SessionSpec.ShowIncomingCallNotification(old(Model()), caller, id)
    {
      SessionSpec.StepKeepsInv(Model(), SessionSpec.IncomingCallShown(caller, id));
      if notification.Some? {
        return;
      }
      notification := Some(SessionSpec.IncomingCall(caller, id));
    }

    /** The popup's 30-second timeout. */
    method DismissIncomingCall()
      requires Valid()
      modifies this`notification
      ensures Valid()
      ensures Model() == SessionSpec.DismissIncomingCall(old(Model()))
    {
      SessionSpec.StepKeepsInv(Model(), SessionSpec.IncomingCallDismissed);
      notification := None;
    }

    /** `declineCall(callId)`. */
    method DeclineCall(id: string, endRequestThrows: bool)
      requires Valid()
      modifies this`endRequests, this`notification
      ensures Valid()
      ensures Model() == SessionSpec.DeclineCall(old(Model()), id, endRequestThrows)
    {
      SessionSpec.StepKeepsInv(Model(), SessionSpec.IncomingCallDeclined(id, endRequestThrows));
      endRequests := endRequests + [id];
      if endRequestThrows {
        return;
      }
      notification := None;
    }
  }
}

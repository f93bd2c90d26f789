/** The server's in-memory signalling store `call_data`: for each call id, a
    record of the last offer, the last answer, the ICE candidates saved in
    order, and the time of the last save.  `CallDataStore` updates it in
    place as the source's helpers do; the functions beside it say what one
    save does, and the lemmas what a run of saves leaves behind. */
module SignalingStore {
  import opened Wrappers

  type Sdp = string
  type Candidate = string

  /** One entry of `call_data`; a key the source never wrote is None.  The
      clock reading of `time.time()` is given by the caller. */
  datatype Entry = Entry(offer: Option<Sdp>, answer: Option<Sdp>, iceCandidates: Option<seq<Candidate>>, timestamp: Option<int>)

  const Empty := Entry(None, None, None, None)

  /** `call_data.get(call_id, {})`. */
  function Lookup(store: map<string, Entry>, callId: string): (e: Entry)
    ensures callId !in store ==> e == Empty
    ensures callId in store ==> e == store[callId]
  {
    if callId in store then store[callId] else Empty
  }

  /** `.get('ice_candidates', [])` of an entry. */
  function Candidates(e: Entry): seq<Candidate> {
    if e.iceCandidates.Some? then e.iceCandidates.value else []
  }

  /** What `save_offer` leaves in the store. */
  function WithOffer(store: map<string, Entry>, callId: string, offer: Sdp, now: int): (r: map<string, Entry>)
    ensures callId in r && r[callId].offer == Some(offer) && r[callId].timestamp == Some(now)
    ensures r[callId].answer == Lookup(store, callId).answer
    ensures r[callId].iceCandidates == Lookup(store, callId).iceCandidates
    ensures forall k :: k != callId ==> Lookup(r, k) == Lookup(store, k)
  {
    store[callId := Lookup(store, callId).(offer := Some(offer), timestamp := Some(now))]
  }

  /** What `save_answer` leaves in the store. */
  function WithAnswer(store: map<string, Entry>, callId: string, answer: Sdp, now: int): (r: map<string, Entry>)
    ensures callId in r && r[callId].answer == Some(answer) && r[callId].timestamp == Some(now)
    ensures r[callId].offer == Lookup(store, callId).offer
    ensures r[callId].iceCandidates == Lookup(store, callId).iceCandidates
    ensures forall k :: k != callId ==> Lookup(r, k) == Lookup(store, k)
  {
    store[callId := Lookup(store, callId).(answer := Some(answer), timestamp := Some(now))]
  }

  /** What `save_ice_candidate` leaves in the store: `setdefault(...).append`. */
  function WithCandidate(store: map<string, Entry>, callId: string, c: Candidate, now: int): (r: map<string, Entry>)
    ensures callId in r && Candidates(r[callId]) == Candidates(Lookup(store, callId)) + [c]
    ensures r[callId].offer == Lookup(store, callId).offer && r[callId].answer == Lookup(store, callId).answer
    ensures r[callId].timestamp == Some(now)
    ensures forall k :: k != callId ==> Lookup(r, k) == Lookup(store, k)
  {
    var e := Lookup(store, callId);
    store[callId := e.(iceCandidates := Some(Candidates(e) + [c]), timestamp := Some(now))]
  }

  /** One call of a saving helper. */
  datatype Save =
    | SaveOffer(callId: string, sdp: Sdp, now: int)
    | SaveAnswer(callId: string, sdp: Sdp, now: int)
    | SaveIceCandidate(callId: string, candidate: Candidate, now: int)

  function Apply(store: map<string, Entry>, s: Save): map<string, Entry> {
    match s
    case SaveOffer(id, sdp, now) => WithOffer(store, id, sdp, now)
    case SaveAnswer(id, sdp, now) => WithAnswer(store, id, sdp, now)
    case SaveIceCandidate(id, c, now) => WithCandidate(store, id, c, now)
  }

  /** The store after the saves, in order. */
  function Replay(store: map<string, Entry>, saves: seq<Save>): map<string, Entry>
    decreases |saves|
  {
    if saves == [] then store else Apply(Replay(store, saves[..|saves| - 1]), saves[|saves| - 1])
  }

  /** The candidates saved for `callId`, in the order of the saves. */
  function SavedCandidates(saves: seq<Save>, callId: string): seq<Candidate>
    decreases |saves|
  {
    if saves == [] then []
    else
      var last := saves[|saves| - 1];
      SavedCandidates(saves[..|saves| - 1], callId)
        + (if last.SaveIceCandidate? && last.callId == callId then [last.candidate] else [])
  }

  /** The last offer saved for `callId`, if any. */
  function LastOffer(saves: seq<Save>, callId: string): Option<Sdp>
    decreases |saves|
  {
    if saves == [] then None
    else
      var last := saves[|saves| - 1];
      if last.SaveOffer? && last.callId == callId then Some(last.sdp)
      else LastOffer(saves[..|saves| - 1], callId)
  }

  /** Candidates are append-only: after any run of saves, a call's list is
      what it held before followed by every candidate saved for that call, in
      order; saves for other calls, offers and answers do not touch it. */
  lemma {:induction false} CandidatesAreAppendOnly(store: map<string, Entry>, saves: seq<Save>, callId: string)
    ensures Candidates(Lookup(Replay(store, saves), callId))
      == Candidates(Lookup(store, callId)) + SavedCandidates(saves, callId)
    decreases |saves|
  {
    if saves != [] {
      var init := saves[..|saves| - 1];
      CandidatesAreAppendOnly(store, init, callId);
    }
  }

  /** The offer a call holds is the last one saved for it; candidate and
      answer saves keep it. */
  lemma {:induction false} OfferIsLastSaved(store: map<string, Entry>, saves: seq<Save>, callId: string)
    ensures Lookup(Replay(store, saves), callId).offer
      == if LastOffer(saves, callId).Some? then LastOffer(saves, callId) else Lookup(store, callId).offer
    decreases |saves|
  {
    if saves != [] {
      OfferIsLastSaved(store, saves[..|saves| - 1], callId);
    }
  }

  /** An id that was never saved reads as empty: no offer, no answer and no
      candidates. */
  lemma {:induction false} UnsavedIdIsEmpty(saves: seq<Save>, callId: string)
    requires forall i :: 0 <= i < |saves| ==> saves[i].callId != callId
    ensures Lookup(Replay(map[], saves), callId) == Empty
    decreases |saves|
  {
    if saves != [] {
      UnsavedIdIsEmpty(saves[..|saves| - 1], callId);
    }
  }

  /** `call_data` and the helpers that read and write it. */
  class CallDataStore {
    var callData: map<string, Entry>

    constructor ()
      ensures callData == map[]
    {
      callData := map[];
    }

    /** `save_offer(call_id, offer)`. */
    method SaveOffer(callId: string, offer: Sdp, now: int)
      modifies this
      ensures callData == Apply(old(callData), Save.SaveOffer(callId, offer, now))
      ensures GetSdp(callId).offer == Some(offer) && GetSdp(callId).answer == old(GetSdp(callId)).answer
      ensures GetIceCandidates(callId) == old(GetIceCandidates(callId))
      ensures forall k :: k != callId ==> GetSdp(k) == old(GetSdp(k))
    {
      var e := if callId in callData then callData[callId] else Empty;
      callData := callData[callId := e];
      callData := callData[callId := callData[callId].(offer := Some(offer))];
      callData := callData[callId := callData[callId].(timestamp := Some(now))];
    }

    /** `save_answer(call_id, answer)`. */
    method SaveAnswer(callId: string, answer: Sdp, now: int)
      modifies this
      ensures callData == Apply(old(callData), Save.SaveAnswer(callId, answer, now))
      ensures GetSdp(callId).answer == Some(answer) && GetSdp(callId).offer == old(GetSdp(callId)).offer
      ensures GetIceCandidates(callId) == old(GetIceCandidates(callId))
      ensures forall k :: k != callId ==> GetSdp(k) == old(GetSdp(k))
    {
      var e := if callId in callData then callData[callId] else Empty;
      callData := callData[callId := e];
      callData := callData[callId := callData[callId].(answer := Some(answer))];
      callData := callData[callId := callData[callId].(timestamp := Some(now))];
    }

    /** `save_ice_candidate(call_id, candidate)`. */
    method SaveIceCandidate(callId: string, c: Candidate, now: int)
      modifies this
      ensures callData == Apply(old(callData), Save.SaveIceCandidate(callId, c, now))
      ensures GetIceCandidates(callId) == old(GetIceCandidates(callId)) + [c]
      ensures GetSdp(callId).offer == old(GetSdp(callId)).offer && GetSdp(callId).answer == old(GetSdp(callId)).answer
      ensures forall k :: k != callId ==> GetSdp(k) == old(GetSdp(k))
    {
      var e := if callId in callData then callData[callId] else Empty;
      callData := callData[callId := e];
      var list := if callData[callId].iceCandidates.Some? then callData[callId].iceCandidates.value else [];
      callData := callData[callId := callData[callId].(iceCandidates := Some(list + [c]))];
      callData := callData[callId := callData[callId].(timestamp := Some(now))];
    }

    /** `get_sdp(call_id)`: the whole entry, or an empty one. */
    function GetSdp(callId: string): (e: Entry)
      reads this
      ensures callId in callData ==> e == callData[callId]
      ensures callId !in callData ==> e.offer.None? && e.answer.None? && e.iceCandidates.None?
    {
      Lookup(callData, callId)
    }

    /** `get_ice_candidates(call_id)`: the saved list, or [] for an unknown id. */
    function GetIceCandidates(callId: string): (cs: seq<Candidate>)
      reads this
      ensures callId !in callData ==> cs == []
      ensures callId in callData && callData[callId].iceCandidates.None? ==> cs == []
      ensures callId in callData && callData[callId].iceCandidates.Some? ==> cs == callData[callId].iceCandidates.value
    {
      Candidates(Lookup(callData, callId))
    }
  }
}

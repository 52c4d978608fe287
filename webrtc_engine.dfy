/** The browser objects the service drives, reduced to the state the service
    can observe or change: a track's ready state, a stream's tracks, and a
    peer connection's descriptions, remote candidates, senders, states and
    closed flag. What the real engine does with them (negotiation, ICE,
    media) is not modelled; the outcome of each asynchronous call is passed
    in by the caller. */
module WebRtcEngine {
  import opened Wrappers
  import opened JsText
  import opened WebRtcTypes

  /** The name of the DOMException a rejected promise carries. */
  datatype EngineError = EngineError(name: JsString)

  /** `MediaStreamTrack`: `ended` is `readyState === 'ended'`. */
  class MediaStreamTrack {
    var ended: bool

    constructor ()
      ensures !ended
    {
      ended := false;
    }

    /** `stop()`. */
    method Stop()
      modifies this
      ensures ended
    {
      ended := true;
    }
  }

  /** `MediaStream`: `getTracks()` is fixed for the model. */
  class MediaStream {
    const tracks: seq<MediaStreamTrack>

    constructor (tracks: seq<MediaStreamTrack>)
      ensures this.tracks == tracks
    {
      this.tracks := tracks;
    }
  }

  function TracksOf(s: MediaStream?): set<MediaStreamTrack> {
    if s == null then {} else set k | 0 <= k < |s.tracks| :: s.tracks[k]
  }

  /** `getTracks().forEach(track => track.stop())`. */
  method StopAll(tracks: seq<MediaStreamTrack>)
    modifies set k | 0 <= k < |tracks| :: tracks[k]
    ensures forall k | 0 <= k < |tracks| :: tracks[k].ended
  {
    for i := 0 to |tracks|
      invariant forall k | 0 <= k < i :: tracks[k].ended
    {
      tracks[i].Stop();
    }
  }

  /** The `RTCRtpSender` `addTrack` creates: the track and its stream. */
  datatype Sender = Sender(track: MediaStreamTrack, stream: MediaStream)

  /** One sender per track, in order, all for `stream`. */
  function SendersFor(tracks: seq<MediaStreamTrack>, stream: MediaStream): (r: seq<Sender>)
    ensures |r| == |tracks|
    ensures forall k | 0 <= k < |tracks| :: r[k] == Sender(tracks[k], stream)
  {
    if |tracks| == 0 then [] else SendersFor(tracks[..|tracks| - 1], stream) + [Sender(tracks[|tracks| - 1], stream)]
  }

  /** `RTCPeerConnection`. */
  class PeerConnection {
    var localDescription: Option<SessionDescription>
    var remoteDescription: Option<SessionDescription>
    var remoteCandidates: seq<IceCandidateInit>
    var senders: seq<Sender>
    var connectionState: ConnectionState
    var iceConnectionState: IceConnectionState
    var closed: bool

    /** `new RTCPeerConnection(config)`. */
    constructor ()
      ensures localDescription.None? && remoteDescription.None?
      ensures remoteCandidates == [] && senders == []
      ensures connectionState == New && iceConnectionState == IceNew && !closed
    {
      localDescription := None;
      remoteDescription := None;
      remoteCandidates := [];
      senders := [];
      connectionState := New;
      iceConnectionState := IceNew;
      closed := false;
    }

    /** `setLocalDescription(d)`; `rejection` is how the promise settles. */
    method SetLocalDescription(d: SessionDescription, rejection: Option<EngineError>) returns (r: Result<(), EngineError>)
      modifies this
      ensures rejection.Some? ==> r == Failure(rejection.value) && unchanged(this)
      ensures rejection.None? ==> r.Success? && localDescription == Some(d)
      ensures remoteDescription == old(remoteDescription) && remoteCandidates == old(remoteCandidates)
      ensures senders == old(senders) && closed == old(closed)
      ensures connectionState == old(connectionState) && iceConnectionState == old(iceConnectionState)
    {
      if rejection.Some? {
        return Failure(rejection.value);
      }
      localDescription := Some(d);
      return Success(());
    }

    /** `setRemoteDescription(d)`. */
    method SetRemoteDescription(d: SessionDescription, rejection: Option<EngineError>) returns (r: Result<(), EngineError>)
      modifies this
      ensures rejection.Some? ==> r == Failure(rejection.value) && unchanged(this)
      ensures rejection.None? ==> r.Success? && remoteDescription == Some(d)
      ensures localDescription == old(localDescription) && remoteCandidates == old(remoteCandidates)
      ensures senders == old(senders) && closed == old(closed)
      ensures connectionState == old(connectionState) && iceConnectionState == old(iceConnectionState)
    {
      if rejection.Some? {
        return Failure(rejection.value);
      }
      remoteDescription := Some(d);
      return Success(());
    }

    /** `addIceCandidate(c)`. */
    method AddIceCandidate(c: IceCandidateInit, rejection: Option<EngineError>) returns (r: Result<(), EngineError>)
      modifies this
      ensures rejection.Some? ==> r == Failure(rejection.value) && unchanged(this)
      ensures rejection.None? ==> r.Success? && remoteCandidates == old(remoteCandidates) + [c]
      ensures localDescription == old(localDescription) && remoteDescription == old(remoteDescription)
      ensures senders == old(senders) && closed == old(closed)
      ensures connectionState == old(connectionState) && iceConnectionState == old(iceConnectionState)
    {
      if rejection.Some? {
        return Failure(rejection.value);
      }
      remoteCandidates := remoteCandidates + [c];
      return Success(());
    }

    /** `addTrack(track, stream)`. */
    method AddTrack(track: MediaStreamTrack, stream: MediaStream)
      modifies this
      ensures senders == old(senders) + [Sender(track, stream)]
      ensures localDescription == old(localDescription) && remoteDescription == old(remoteDescription)
      ensures remoteCandidates == old(remoteCandidates) && closed == old(closed)
      ensures connectionState == old(connectionState) && iceConnectionState == old(iceConnectionState)
    {
      senders := senders + [Sender(track, stream)];
    }

    /** `close()`. */
    method Close()
      modifies this
      ensures closed && connectionState == Closed && iceConnectionState == IceClosed
      ensures localDescription == old(localDescription) && remoteDescription == old(remoteDescription)
      ensures remoteCandidates == old(remoteCandidates) && senders == old(senders)
    {
      closed := true;
      connectionState := Closed;
      iceConnectionState := IceClosed;
    }
  }
}

/** `WebRTCService`: the holder of one peer connection, the local and remote
    media streams, the buffer of locally gathered ICE candidates and a table
    of one handler per event name. */
module WebRtcService {
  import opened Wrappers
  import opened JsText
  import opened WebRtcTypes
  import opened WebRtcEngine

  /** The browser's WebRTC entry points (`RTCPeerConnection`,
      `RTCSessionDescription`, `RTCIceCandidate`, `mediaDevices`). */
  datatype WebRtcApi = WebRtcApi

  /** A callback registered with `on`; only its identity matters here. */
  datatype Handler = Handler(id: nat)

  /** Why a method throws: one of its three guards, or the engine's
      rejection passed through unchanged. */
  datatype ServiceError =
    | ApiUnavailable
    | NoConnection
    | ConnectionOrApiUnavailable
    | Engine(error: EngineError)

  function AsField<T>(v: Option<T>): Field<T> {
    if v.Some? then Present(v.value) else Null
  }

  /** The record the `icecandidate` handler stores: every property of the
      browser's candidate, `null` kept as `null`. */
  function CopyCandidate(c: IceCandidate): (r: IceCandidateInit)
    ensures r.candidate == Present(c.candidate)
    ensures r.sdpMLineIndex.Present? <==> c.sdpMLineIndex.Some?
    ensures r.sdpMLineIndex.Present? ==> r.sdpMLineIndex.value == c.sdpMLineIndex.value
    ensures r.sdpMid.Present? <==> c.sdpMid.Some?
    ensures r.sdpMid.Present? ==> r.sdpMid.value == c.sdpMid.value
    ensures r.usernameFragment.Present? <==> c.usernameFragment.Some?
    ensures r.usernameFragment.Present? ==> r.usernameFragment.value == c.usernameFragment.value
    ensures !r.sdpMLineIndex.Absent? && !r.sdpMid.Absent? && !r.usernameFragment.Absent?
  {
    IceCandidateInit(Present(c.candidate), AsField(c.sdpMLineIndex), AsField(c.sdpMid), AsField(c.usernameFragment))
  }

  /** Two different browser candidates are stored as two different records. */
  lemma CopyCandidateInjective(a: IceCandidate, b: IceCandidate)
    requires CopyCandidate(a) == CopyCandidate(b)
    ensures a == b
  {
  }

  class WebRTCService {
    const webrtcApi: Option<WebRtcApi>
    var peerConnection: PeerConnection?
    var localStream: MediaStream?
    var remoteStream: MediaStream?
    var iceCandidates: seq<IceCandidateInit>
    var events: map<EventName, Handler>

    /** `new WebRTCService()`: `apiPresent` is whether the environment has
        `window.RTCPeerConnection`. */
    constructor (apiPresent: bool)
      ensures webrtcApi == (if apiPresent then Some(WebRtcApi) else None)
      ensures peerConnection == null && localStream == null && remoteStream == null
      ensures iceCandidates == [] && events == map[]
    {
      webrtcApi := if apiPresent then Some(WebRtcApi) else None;
      peerConnection := null;
      localStream := null;
      remoteStream := null;
      iceCandidates := [];
      events := map[];
    }

    /** The handler registered under `name`, the one `?.()` calls. */
    function Registered(name: EventName): Option<Handler>
      reads this
    {
      if name in events then Some(events[name]) else None
    }

    /** `isWebRTCAvailable()`. */
    method IsWebRTCAvailable() returns (available: bool)
      ensures available <==> webrtcApi.Some?
    {
      return webrtcApi.Some?;
    }

    /** `createConnection()`: a new peer connection, replacing any earlier
        one without closing it; the event handlers are the `Handle` methods
        below. */
    method CreateConnection() returns (r: Result<(), ServiceError>)
      modifies this
      ensures webrtcApi.None? ==> r == Failure(ApiUnavailable) && peerConnection == old(peerConnection)
      ensures webrtcApi.Some? ==> r.Success? && fresh(peerConnection)
      ensures webrtcApi.Some? ==> peerConnection.localDescription.None? && peerConnection.remoteDescription.None?
      ensures webrtcApi.Some? ==> peerConnection.remoteCandidates == [] && peerConnection.senders == []
      ensures webrtcApi.Some? ==> !peerConnection.closed && peerConnection.connectionState == New
      ensures webrtcApi.Some? ==> peerConnection.iceConnectionState == IceNew
      ensures localStream == old(localStream) && remoteStream == old(remoteStream)
      ensures iceCandidates == old(iceCandidates) && events == old(events)
    {
      if webrtcApi.None? {
        return Failure(ApiUnavailable);
      }
      peerConnection := new PeerConnection();
      return Success(());
    }

    /** The `connectionstatechange` handler: the handler registered under
        `onConnectionStateChange` is called with the current state. */
    method HandleConnectionStateChange() returns (notified: Option<Handler>, state: Option<ConnectionState>)
      ensures notified == Registered(OnConnectionStateChange)
      ensures state == if peerConnection == null then None else Some(peerConnection.connectionState)
    {
      notified := Registered(OnConnectionStateChange);
      state := if peerConnection == null then None else Some(peerConnection.connectionState);
    }

    /** The `iceconnectionstatechange` handler. */
    method HandleIceConnectionStateChange() returns (notified: Option<Handler>, state: Option<IceConnectionState>)
      ensures notified == Registered(OnIceConnectionStateChange)
      ensures state == if peerConnection == null then None else Some(peerConnection.iceConnectionState)
    {
      notified := Registered(OnIceConnectionStateChange);
      state := if peerConnection == null then None else Some(peerConnection.iceConnectionState);
    }

    /** The `icecandidate` handler: a candidate is copied to the end of the
        buffer and the `onIceCandidate` handler is called with the copy; the
        end-of-gathering event (`null`) does nothing. */
    method HandleIceCandidate(candidate: Option<IceCandidate>) returns (notified: Option<Handler>, record: Option<IceCandidateInit>)
      modifies this
      ensures candidate.None? ==> iceCandidates == old(iceCandidates) && notified.None? && record.None?
      ensures candidate.Some? ==> record == Some(CopyCandidate(candidate.value))
      ensures candidate.Some? ==> iceCandidates == old(iceCandidates) + [record.value]
      ensures candidate.Some? ==> notified == Registered(OnIceCandidate)
      ensures peerConnection == old(peerConnection) && localStream == old(localStream)
      ensures remoteStream == old(remoteStream) && events == old(events)
    {
      if candidate.None? {
        return None, None;
      }
      var copy := CopyCandidate(candidate.value);
      iceCandidates := iceCandidates + [copy];
      return Registered(OnIceCandidate), Some(copy);
    }

    /** The `track` handler: the first stream of the event becomes the remote
        stream (`undefined`, modelled as `null`, when the event has none). */
    method HandleTrack(streams: seq<MediaStream>) returns (notified: Option<Handler>)
      modifies this
      ensures remoteStream == if |streams| > 0 then streams[0] else null
      ensures notified == Registered(OnRemoteStream)
      ensures peerConnection == old(peerConnection) && localStream == old(localStream)
      ensures iceCandidates == old(iceCandidates) && events == old(events)
    {
      remoteStream := if |streams| > 0 then streams[0] else null;
      return Registered(OnRemoteStream);
    }

    /** The first `getLocalStream` (the one that acquires media): `media` is
        how `getUserMedia` settles. On success the stream is stored and each
        of its tracks is added to the peer connection once, in order, when
        there is one. */
    method AcquireLocalStream(media: Result<MediaStream, EngineError>)
      returns (r: Result<MediaStream, ServiceError>, notified: Option<Handler>)
      modifies this, peerConnection
      ensures peerConnection == old(peerConnection) && remoteStream == old(remoteStream)
      ensures webrtcApi.None? ==> r == Failure(ApiUnavailable)
      ensures webrtcApi.Some? && media.Failure? ==> r == Failure(Engine(media.error))
      ensures r.Failure? ==> unchanged(this) && notified.None?
      ensures r.Failure? && old(peerConnection) != null ==> unchanged(old(peerConnection))
      ensures webrtcApi.Some? && media.Success? ==> r == Success(media.value) && localStream == media.value
      ensures r.Success? ==> notified == Registered(OnLocalStream)
      ensures r.Success? && old(peerConnection) != null ==>
        peerConnection.senders == old(peerConnection.senders) + SendersFor(media.value.tracks, media.value)
      ensures r.Success? && old(peerConnection) != null ==>
        && peerConnection.localDescription == old(peerConnection.localDescription)
        && peerConnection.remoteDescription == old(peerConnection.remoteDescription)
        && peerConnection.remoteCandidates == old(peerConnection.remoteCandidates)
        && peerConnection.closed == old(peerConnection.closed)
        && peerConnection.connectionState == old(peerConnection.connectionState)
        && peerConnection.iceConnectionState == old(peerConnection.iceConnectionState)
      ensures iceCandidates == old(iceCandidates) && events == old(events)
    {
      if webrtcApi.None? {
        return Failure(ApiUnavailable), None;
      }
      if media.Failure? {
        return Failure(Engine(media.error)), None;
      }
      var stream := media.value;
      localStream := stream;
      var pc := peerConnection;
      if pc != null {
        var tracks := stream.tracks;
        for i := 0 to |tracks|
          invariant pc.senders == old(pc.senders) + SendersFor(tracks[..i], stream)
          invariant pc.localDescription == old(pc.localDescription)
          invariant pc.remoteDescription == old(pc.remoteDescription)
          invariant pc.remoteCandidates == old(pc.remoteCandidates)
          invariant pc.closed == old(pc.closed)
          invariant pc.connectionState == old(pc.connectionState)
          invariant pc.iceConnectionState == old(pc.iceConnectionState)
          modifies pc
        {
          pc.AddTrack(tracks[i], stream);
          assert tracks[..i + 1][..i] == tracks[..i];
        }
        assert tracks[..|tracks|] == tracks;
      }
      return Success(stream), Registered(OnLocalStream);
    }

    /** The second `getLocalStream`, the plain getter. */
    method GetLocalStream() returns (s: MediaStream?)
      ensures s == localStream
    {
      return localStream;
    }

    /** `getRemoteStream()`. */
    method GetRemoteStream() returns (s: MediaStream?)
      ensures s == remoteStream
    {
      return remoteStream;
    }

    /** `createOffer()`: `produced` is how the engine's `createOffer` settles
        and `rejection` how `setLocalDescription` does. The offer returned is
        the one installed as local description. */
    method CreateOffer(produced: Result<SessionDescription, EngineError>, rejection: Option<EngineError>)
      returns (r: Result<SessionDescription, ServiceError>)
      modifies peerConnection
      ensures peerConnection == null ==> r == Failure(NoConnection)
      ensures peerConnection != null && produced.Failure? ==> r == Failure(Engine(produced.error))
      ensures peerConnection != null && produced.Success? && rejection.Some? ==> r == Failure(Engine(rejection.value))
      ensures r.Failure? && peerConnection != null ==> unchanged(peerConnection)
      ensures peerConnection != null && produced.Success? && rejection.None? ==> r == Success(produced.value)
      ensures r.Success? ==> peerConnection != null && produced == Success(r.value) && peerConnection.localDescription == Some(r.value)
      ensures peerConnection != null ==>
        && peerConnection.remoteDescription == old(peerConnection.remoteDescription)
        && peerConnection.remoteCandidates == old(peerConnection.remoteCandidates)
        && peerConnection.senders == old(peerConnection.senders)
        && peerConnection.closed == old(peerConnection.closed)
        && peerConnection.connectionState == old(peerConnection.connectionState)
        && peerConnection.iceConnectionState == old(peerConnection.iceConnectionState)
    {
      r := Describe(produced, rejection);
    }

    /** `createAnswer()`, the same steps as `createOffer`. */
    method CreateAnswer(produced: Result<SessionDescription, EngineError>, rejection: Option<EngineError>)
      returns (r: Result<SessionDescription, ServiceError>)
      modifies peerConnection
      ensures peerConnection == null ==> r == Failure(NoConnection)
      ensures peerConnection != null && produced.Failure? ==> r == Failure(Engine(produced.error))
      ensures peerConnection != null && produced.Success? && rejection.Some? ==> r == Failure(Engine(rejection.value))
      ensures r.Failure? && peerConnection != null ==> unchanged(peerConnection)
      ensures peerConnection != null && produced.Success? && rejection.None? ==> r == Success(produced.value)
      ensures r.Success? ==> peerConnection != null && produced == Success(r.value) && peerConnection.localDescription == Some(r.value)
      ensures peerConnection != null ==>
        && peerConnection.remoteDescription == old(peerConnection.remoteDescription)
        && peerConnection.remoteCandidates == old(peerConnection.remoteCandidates)
        && peerConnection.senders == old(peerConnection.senders)
        && peerConnection.closed == old(peerConnection.closed)
        && peerConnection.connectionState == old(peerConnection.connectionState)
        && peerConnection.iceConnectionState == old(peerConnection.iceConnectionState)
    {
      r := Describe(produced, rejection);
    }

    /** The body shared by `createOffer` and `createAnswer`. */
    method Describe(produced: Result<SessionDescription, EngineError>, rejection: Option<EngineError>)
      returns (r: Result<SessionDescription, ServiceError>)
      modifies peerConnection
      ensures peerConnection == null ==> r == Failure(NoConnection)
      ensures peerConnection != null && produced.Failure? ==> r == Failure(Engine(produced.error))
      ensures peerConnection != null && produced.Success? && rejection.Some? ==> r == Failure(Engine(rejection.value))
      ensures r.Failure? && peerConnection != null ==> unchanged(peerConnection)
      ensures peerConnection != null && produced.Success? && rejection.None? ==> r == Success(produced.value)
      ensures r.Success? ==> peerConnection != null && produced == Success(r.value) && peerConnection.localDescription == Some(r.value)
      ensures peerConnection != null ==>
        && peerConnection.remoteDescription == old(peerConnection.remoteDescription)
        && peerConnection.remoteCandidates == old(peerConnection.remoteCandidates)
        && peerConnection.senders == old(peerConnection.senders)
        && peerConnection.closed == old(peerConnection.closed)
        && peerConnection.connectionState == old(peerConnection.connectionState)
        && peerConnection.iceConnectionState == old(peerConnection.iceConnectionState)
    {
      if peerConnection == null {
        return Failure(NoConnection);
      }
      if produced.Failure? {
        return Failure(Engine(produced.error));
      }
      var installed := peerConnection.SetLocalDescription(produced.value, rejection);
      if installed.Failure? {
        return Failure(Engine(installed.error));
      }
      return Success(produced.value);
    }

    /** `setRemoteDescription(d)`: needs both the connection and the API;
        the service's own fields never change. */
    method SetRemoteDescription(d: SessionDescription, rejection: Option<EngineError>) returns (r: Result<(), ServiceError>)
      modifies peerConnection
      ensures peerConnection == null || webrtcApi.None? ==> r == Failure(ConnectionOrApiUnavailable)
      ensures peerConnection != null && webrtcApi.Some? && rejection.Some? ==> r == Failure(Engine(rejection.value))
      ensures r.Failure? && peerConnection != null ==> unchanged(peerConnection)
      ensures peerConnection != null && webrtcApi.Some? && rejection.None? ==> r.Success?
      ensures r.Success? ==> peerConnection != null && peerConnection.remoteDescription == Some(d)
      ensures peerConnection != null ==>
        && peerConnection.localDescription == old(peerConnection.localDescription)
        && peerConnection.remoteCandidates == old(peerConnection.remoteCandidates)
        && peerConnection.senders == old(peerConnection.senders)
        && peerConnection.closed == old(peerConnection.closed)
        && peerConnection.connectionState == old(peerConnection.connectionState)
        && peerConnection.iceConnectionState == old(peerConnection.iceConnectionState)
      ensures unchanged(this)
    {
      if peerConnection == null || webrtcApi.None? {
        return Failure(ConnectionOrApiUnavailable);
      }
      var done := peerConnection.SetRemoteDescription(d, rejection);
      if done.Failure? {
        return Failure(Engine(done.error));
      }
      return Success(());
    }

    /** `addIceCandidate(c)`: needs both the connection and the API; the
        service's own fields never change. */
    method AddIceCandidate(c: IceCandidateInit, rejection: Option<EngineError>) returns (r: Result<(), ServiceError>)
      modifies peerConnection
      ensures peerConnection == null || webrtcApi.None? ==> r == Failure(ConnectionOrApiUnavailable)
      ensures peerConnection != null && webrtcApi.Some? && rejection.Some? ==> r == Failure(Engine(rejection.value))
      ensures r.Failure? && peerConnection != null ==> unchanged(peerConnection)
      ensures peerConnection != null && webrtcApi.Some? && rejection.None? ==> r.Success?
      ensures r.Success? ==> peerConnection != null && peerConnection.remoteCandidates == old(peerConnection.remoteCandidates) + [c]
      ensures peerConnection != null ==>
        && peerConnection.localDescription == old(peerConnection.localDescription)
        && peerConnection.remoteDescription == old(peerConnection.remoteDescription)
        && peerConnection.senders == old(peerConnection.senders)
        && peerConnection.closed == old(peerConnection.closed)
        && peerConnection.connectionState == old(peerConnection.connectionState)
        && peerConnection.iceConnectionState == old(peerConnection.iceConnectionState)
      ensures unchanged(this)
    {
      if peerConnection == null || webrtcApi.None? {
        return Failure(ConnectionOrApiUnavailable);
      }
      var done := peerConnection.AddIceCandidate(c, rejection);
      if done.Failure? {
        return Failure(Engine(done.error));
      }
      return Success(());
    }

    /** `getIceCandidates()`: a copy of the buffer. */
    method GetIceCandidates() returns (cs: seq<IceCandidateInit>)
      ensures cs == iceCandidates
    {
      return iceCandidates;
    }

    /** `clearIceCandidates()`. */
    method ClearIceCandidates()
      modifies this
      ensures iceCandidates == []
      ensures peerConnection == old(peerConnection) && localStream == old(localStream)
      ensures remoteStream == old(remoteStream) && events == old(events)
    {
      iceCandidates := [];
    }

    /** `getConnectionState()`: `null` without a connection (every state
        name is a non-empty, truthy string). */
    method GetConnectionState() returns (state: Option<ConnectionState>)
      ensures peerConnection == null ==> state.None?
      ensures peerConnection != null ==> state == Some(peerConnection.connectionState)
    {
      if peerConnection == null {
        return None;
      }
      return Some(peerConnection.connectionState);
    }

    /** `getIceConnectionState()`. */
    method GetIceConnectionState() returns (state: Option<IceConnectionState>)
      ensures peerConnection == null ==> state.None?
      ensures peerConnection != null ==> state == Some(peerConnection.iceConnectionState)
    {
      if peerConnection == null {
        return None;
      }
      return Some(peerConnection.iceConnectionState);
    }

    /** `on(name, handler)`: the handler replaces any earlier one. */
    method On(name: EventName, handler: Handler)
      modifies this
      ensures Registered(name) == Some(handler)
      ensures forall other | other != name :: Registered(other) == old(Registered(other))
      ensures events.Keys == old(events.Keys) + {name}
      ensures peerConnection == old(peerConnection) && localStream == old(localStream)
      ensures remoteStream == old(remoteStream) && iceCandidates == old(iceCandidates)
    {
      events := events[name := handler];
    }

    /** `off(name)`: only `name` loses its handler. */
    method Off(name: EventName)
      modifies this
      ensures Registered(name).None?
      ensures forall other | other != name :: Registered(other) == old(Registered(other))
      ensures events.Keys == old(events.Keys) - {name}
      ensures peerConnection == old(peerConnection) && localStream == old(localStream)
      ensures remoteStream == old(remoteStream) && iceCandidates == old(iceCandidates)
    {
      events := events - {name};
    }

    /** Everything `close()` releases is released. */
    predicate Released()
      reads this
    {
      peerConnection == null && localStream == null && remoteStream == null && iceCandidates == [] && events == map[]
    }

    /** `close()`: the local tracks are stopped and the connection closed,
        each only when present; then every field is reset. Once released,
        the frame of a second call holds this object alone, so it stops and
        closes nothing. */
    method Close()
      modifies this, peerConnection, TracksOf(localStream)
      ensures Released()
      ensures old(localStream) != null ==> forall k | 0 <= k < |old(localStream).tracks| :: old(localStream).tracks[k].ended
      ensures old(peerConnection) != null ==> old(peerConnection).closed && old(peerConnection).connectionState == Closed
      ensures old(peerConnection) != null ==> old(peerConnection).iceConnectionState == IceClosed
      ensures old(peerConnection) != null ==>
        && old(peerConnection).localDescription == old(peerConnection.localDescription)
        && old(peerConnection).remoteDescription == old(peerConnection.remoteDescription)
        && old(peerConnection).remoteCandidates == old(peerConnection.remoteCandidates)
        && old(peerConnection).senders == old(peerConnection.senders)
    {
      if localStream != null {
        StopAll(localStream.tracks);
        localStream := null;
      }
      if peerConnection != null {
        peerConnection.Close();
        peerConnection := null;
      }
      remoteStream := null;
      ClearIceCandidates();
      events := map[];
    }
  }

  /** The class body defines `getLocalStream` twice and the later, plain
      getter is the one a call reaches: connecting and then asking for local
      media yields no stream, and the connection gets no track. */
  method LocalMediaAsWritten() returns (stream: MediaStream?, senders: seq<Sender>)
    ensures stream == null && senders == []
  {
    var service := new WebRTCService(true);
    var _ := service.CreateConnection();
    stream := service.GetLocalStream();
    senders := service.peerConnection.senders;
  }

  /** With the acquiring method reachable, the same sequence stores the
      stream and gives the connection one sender per track. */
  method LocalMediaCorrected(tracks: seq<MediaStreamTrack>) returns (stream: MediaStream?, senders: seq<Sender>)
    ensures stream != null && stream.tracks == tracks
    ensures senders == SendersFor(tracks, stream)
  {
    var service := new WebRTCService(true);
    var _ := service.CreateConnection();
    var media := new MediaStream(tracks);
    var acquired, _ := service.AcquireLocalStream(Success(media));
    stream := service.GetLocalStream();
    senders := service.peerConnection.senders;
  }
}

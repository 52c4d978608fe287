/** The records exchanged between the signaling codec, the service and the
    browser's WebRTC objects. */
module WebRtcTypes {
  import opened Wrappers
  import opened JsText

  /** `RTCSessionDescriptionInit.type`. */
  datatype SdpType = Offer | Answer | Pranswer | Rollback

  /** `RTCSessionDescriptionInit`: the type and the optional SDP text. */
  datatype SessionDescription = SessionDescription(kind: SdpType, sdp: Option<JsString>)

  /** A property that is missing, holds `null`, or holds a value. */
  datatype Field<+T> = Absent | Null | Present(value: T)

  /** `RTCIceCandidateInit`. The records the service stores copy every
      property of the browser's candidate, `null` included. */
  datatype IceCandidateInit = IceCandidateInit(
    candidate: Field<JsString>,
    sdpMLineIndex: Field<int>,
    sdpMid: Field<JsString>,
    usernameFragment: Field<JsString>)

  /** The browser's `RTCIceCandidate` as the `icecandidate` event carries it;
      None stands for `null`. */
  datatype IceCandidate = IceCandidate(
    candidate: JsString,
    sdpMLineIndex: Option<int>,
    sdpMid: Option<JsString>,
    usernameFragment: Option<JsString>)

  /** `SerializedSignalingData`: Base64 texts of the offer, the answer and the
      candidates, and a time in milliseconds. */
  datatype SerializedSignalingData = SerializedSignalingData(
    offer: Option<JsString>,
    answer: Option<JsString>,
    iceCandidates: Option<seq<JsString>>,
    timestamp: int)

  /** `RTCPeerConnection.connectionState`. */
  datatype ConnectionState = New | Connecting | Connected | Disconnected | Failed | Closed

  /** `RTCPeerConnection.iceConnectionState`. */
  datatype IceConnectionState =
    | IceNew | IceChecking | IceConnected | IceCompleted | IceFailed | IceDisconnected | IceClosed

  /** The keys of `WebRTCEvents`, one handler each. */
  datatype EventName =
    | OnConnectionStateChange
    | OnIceConnectionStateChange
    | OnIceCandidate
    | OnRemoteStream
    | OnLocalStream
    | OnError
}

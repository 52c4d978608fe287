# call-mom signaling and connection holder, in Dafny

call-mom sets up a peer-to-peer video call without a signaling server: the
two peers exchange their session descriptions and ICE candidates by copy
and paste, as a call link or as a QR code. This project models the two
parts of the program that carry logic, and proves what they promise.

- The signaling codec (`src/utils/signaling.ts`). A session description or
  an ICE candidate is turned into text as `btoa(JSON.stringify(x))`, and
  back as `JSON.parse(atob(s))`. Two builders put an offer or an answer
  together with the serialized candidates and a timestamp into a package.
  A package can be written as a compact string (keys renamed to
  `o`/`a`/`i`/`t`, then Base64), as QR text (plain JSON) or as a call link
  (`callmom://call?data=` followed by Base64). There is a shape check,
  `validateSignalingData`.
- The connection holder `WebRTCService` (`src/services/WebRTCService.ts`).
  It owns at most one peer connection, the local and remote media streams,
  a buffer of locally gathered ICE candidates and a table holding one
  handler per event name. Its methods check that the WebRTC API and the
  connection are there before they use them, and `close()` releases
  everything.

The files:

| file | module | what it holds |
|---|---|---|
| `wrappers.dfy` | `Wrappers` | `Option` and `Result` |
| `js_text.dfy` | `JsText` | JavaScript strings as sequences of UTF-16 code units; binary (Latin-1) strings |
| `base64.dfy` | `Base64` | `btoa` (section 4 of RFC 4648) and `atob` (forgiving-base64 decode of the WHATWG Infra standard), with the round trip proved |
| `json.dfy` | `Json` | JSON values, `JSON.stringify` with the string escaping of ECMA-262 `QuoteJSONString`, `JSON.parse` over the grammar of RFC 8259, with the round trip proved |
| `webrtc_types.dfy` | `WebRtcTypes` | the records of `src/types/webrtc.ts` |
| `signaling.dfy` | `Signaling` | the codec, the builders, the compact, QR and link forms and the shape check |
| `webrtc_engine.dfy` | `WebRtcEngine` | the browser objects the service drives: tracks, streams and the peer connection, reduced to the state the service can see |
| `webrtc_service.dfy` | `WebRtcService` | the `WebRTCService` class |

Modelling choices:

- A JavaScript string is a `seq<CodeUnit>` with code units in
  `0..0xFFFF`, because `btoa`, `atob` and the escaping of lone surrogates
  by `JSON.stringify` are defined on code units.
- Every exception a signaling function throws or catches is a `Result` or
  an `Option`. The wrapping `Error` records which function threw and
  whether the cause was `atob`/`btoa` (InvalidCharacterError) or
  `JSON.parse` (SyntaxError). The message text is not kept.
- The decoders return the untyped JSON value, because the TypeScript `as`
  casts check nothing.
- A property that is `undefined` (absent) and one that is `null` are kept
  apart (`Field`), because `JSON.stringify` drops the first and writes the
  second.
- `Date.now()` is a parameter of the builders.
- The outcome of each browser call the service awaits is a parameter of
  the service method: the description `createOffer` produces, whether
  `setLocalDescription` rejects, the stream `getUserMedia` yields.
- Whether `window.RTCPeerConnection` exists is a parameter of the
  constructor.
- The `WebRTCService` class is a Dafny class with the same fields, except
  `config` and `mediaConstraints`, which are not modelled (see Left out).
  `iceCandidates` is a `seq` the methods reassign, and `events` is a `map`
  from event name to handler.
- Each event callback the service installs on the connection is a method
  (`HandleIceCandidate` and the others). The handler it notifies is
  returned.

What the code does not check:

- `parseCompactString` accepts both an offer and an answer, or neither
  (`Signaling.CompactAcceptsAnyCombination`).
- `validateSignalingData` accepts a package with both
  (`Signaling.ValidateEdgeCases`).
- The builders check no role: `createSignalingPackage` serializes whatever
  description it is given as the offer, and `createAnswerPackage` as the
  answer.
- The service keeps one handler per event name, and the last `on` wins
  (`WebRtcService.WebRTCService.On`).

## Model

| member | source | states |
|---|---|---|
| Base64.Btoa | src/utils/signaling.ts:16 | `btoa` succeeds exactly when every code unit is at most 0xFF; its output has length `4 * ceil(n / 3)` for `n` input code units and uses only the Base64 alphabet and `=`; it is empty exactly when the input is |
| Base64.AtobBtoa | src/utils/signaling.ts:27 | for every binary string, `atob(btoa(s)) == s` |
| Base64.AtobRejectsForeignCharacter | src/utils/signaling.ts:189 | `atob` throws on any text holding a character that is neither in the alphabet, nor whitespace, nor `=` |
| Base64.EncodingIsLatin1 | src/utils/signaling.ts:181 | Base64 output is itself a binary string, so it can be encoded again |
| Json.Get | src/utils/signaling.ts:193-196 | a property read finds a value exactly when some member has that key, and the value is that of such a member |
| Json.GetAppend | src/utils/signaling.ts:190 | in an object parsed from text, a later member with the same key hides an earlier one |
| Json.ParseStringify | src/utils/signaling.ts:15 | `JSON.parse(JSON.stringify(j)) == j` for every value with integral numbers |
| Json.StringifyInjective | src/utils/signaling.ts:142 | two different values never have the same JSON text |
| Json.StringifyLatin1 | src/utils/signaling.ts:15-16 | the JSON text of a value whose strings and keys are binary strings is a binary string, so `btoa` accepts it |
| Json.EscapeKeepsWideUnit | src/utils/signaling.ts:15-16 | a code unit above 0xFF that is not a surrogate survives escaping, so `btoa` refuses the text |
| Signaling.EncodeJson | src/utils/signaling.ts:14-19 | the shared encoding step: on success the text is Base64; on failure the error is InvalidCharacter, tagged with the calling function |
| Signaling.DecodeJson | src/utils/signaling.ts:26-31 | the shared decoding step: it fails with InvalidCharacter exactly when `atob` throws and with SyntaxError when `JSON.parse` throws; it succeeds whenever both succeed, with the value `JSON.parse` gives for the decoded text |
| Signaling.JsonRoundTrip | src/utils/signaling.ts:13-32 | decoding what the encoding step produced gives the value back |
| Signaling.SerializeOffer | src/utils/signaling.ts:13-20 | on success `deserializeOffer` gives the offer's JSON back and the text is Base64; the only failure is InvalidCharacter from serializing the offer; an SDP text that is a binary string always succeeds |
| Signaling.OfferRejectsWideUnit | src/utils/signaling.ts:13-20 | an SDP text with a non-surrogate code unit above 0xFF makes `serializeOffer` fail |
| Signaling.DeserializeOffer | src/utils/signaling.ts:25-32 | a failure is tagged as an offer deserialization; it succeeds whenever `atob` and `JSON.parse` do, with the value `JSON.parse` gives |
| Signaling.DescriptionJsonInjective | src/utils/signaling.ts:13-32 | the JSON value determines the description, so the value `deserializeOffer` returns identifies the offer that was serialized |
| Signaling.SerializeAnswer | src/utils/signaling.ts:37-44 | as for offers, with the answer tags |
| Signaling.AnswerRejectsWideUnit | src/utils/signaling.ts:37-44 | an SDP text with a non-surrogate code unit above 0xFF makes `serializeAnswer` fail |
| Signaling.DeserializeAnswer | src/utils/signaling.ts:49-56 | a failure is tagged as an answer deserialization; it succeeds whenever `atob` and `JSON.parse` do, with the value `JSON.parse` gives |
| Signaling.SerializeIceCandidate | src/utils/signaling.ts:61-68 | on success `deserializeIceCandidate` gives the candidate's JSON back and the text is Base64; the only failure is InvalidCharacter; a candidate whose strings are binary strings always succeeds |
| Signaling.DeserializeIceCandidate | src/utils/signaling.ts:73-80 | a failure is tagged as a candidate deserialization; it succeeds whenever `atob` and `JSON.parse` do, with the value `JSON.parse` gives |
| Signaling.CandidateJsonInjective | src/utils/signaling.ts:61-80 | the JSON value determines all four properties of the candidate, `undefined` and `null` kept apart |
| Signaling.SerializeIceCandidates | src/utils/signaling.ts:91 | the map succeeds exactly when every candidate serializes; it keeps the length and the order; element k is the serialization of candidate k; a failure is the candidate error |
| Signaling.CreateSignalingPackage | src/utils/signaling.ts:85-94 | it succeeds exactly when the offer and every candidate serialize, an offer failure comes first; `offer` is the serialized offer and `answer` is absent; the candidates are serialized in order; `timestamp` is `now`; every stored text is Base64; binary-string input always succeeds |
| Signaling.CreateAnswerPackage | src/utils/signaling.ts:99-108 | the same, with `answer` set and `offer` absent |
| Signaling.PackageGets | src/utils/signaling.ts:174-179 | every property of a package's JSON object, under the long or the short names, reads back as the package's own field |
| Signaling.PackageJsonInjective | src/utils/signaling.ts:141-155 | the JSON value of a package determines the package |
| Signaling.CreateCompactString | src/utils/signaling.ts:173-182 | on success `parseCompactString` reads back the offer, answer, candidates and timestamp of the package, an absent field staying absent; a package whose strings are binary strings always encodes |
| Signaling.ParseCompactString | src/utils/signaling.ts:187-202 | it returns `null` when `atob` or `JSON.parse` throws, and otherwise exactly when the text is `null`; on any other value it copies the `o`, `a`, `i` and `t` properties unchecked |
| Signaling.CompactRoundTrip | src/utils/signaling.ts:173-197 | decoding the compact text gives the compact object back, and reading its short names gives the package's fields |
| Signaling.CompactViewInjective | src/utils/signaling.ts:187-197 | the record `parseCompactString` returns determines the package that was encoded |
| Signaling.BuilderPackagesCompact | src/utils/signaling.ts:173-182 | the packages both builders make hold only Base64 text, so their compact string never fails |
| Signaling.CompactAcceptsAnyCombination | src/utils/signaling.ts:190-197 | a package with both an offer and an answer, or with neither, still goes through the compact form |
| Signaling.CompactOfNonObject | src/utils/signaling.ts:190-197 | a decodable value that is not an object and not `null` gives a record whose four properties are all undefined |
| Signaling.CreateQRData | src/utils/signaling.ts:141-143 | `parseQRData(createQRData(p))` is the JSON value of `p` |
| Signaling.ParseQRData | src/utils/signaling.ts:148-155 | it returns `null` on text that is not JSON; on any other text it returns what `JSON.parse` gives (a parsed `null` being the same `null`) |
| Signaling.CreateCallLink | src/utils/signaling.ts:113-116 | the link starts with `callmom://call?data=`; what follows decodes to the package's JSON value; a package of binary strings always gives a link |
| Signaling.ValidateIff | src/utils/signaling.ts:160-168 | the shape check holds exactly of objects with a numeric `timestamp`, an array `iceCandidates` and a truthy `offer` or `answer` |
| Signaling.ValidatePackageIff | src/utils/signaling.ts:160-168 | on a package's JSON value the check holds exactly when the candidates are there and the offer or the answer is a non-empty string |
| Signaling.SignalingPackageValidates | src/utils/signaling.ts:85-94 | every package `createSignalingPackage` makes passes the shape check |
| Signaling.AnswerPackageValidates | src/utils/signaling.ts:99-108 | every package `createAnswerPackage` makes passes the shape check |
| Signaling.ValidateEdgeCases | src/utils/signaling.ts:165-166 | both an offer and an answer are accepted; an empty offer alone is refused; a package without candidates is refused |
| Signaling.ValidateRejectsArray | src/utils/signaling.ts:163-164 | an array passes `typeof === 'object'` but is still refused |
| WebRtcEngine.StopAll | src/services/WebRTCService.ts:380 | every track of the list is stopped |
| WebRtcEngine.SendersFor | src/services/WebRTCService.ts:224-226 | one sender per track, in track order, each for the given stream |
| WebRtcEngine.PeerConnection.AddTrack | src/services/WebRTCService.ts:225 | appends one sender and changes nothing else |
| WebRtcEngine.PeerConnection.SetLocalDescription | src/services/WebRTCService.ts:249 | on success the local description is the given one; on rejection nothing changes |
| WebRtcEngine.PeerConnection.SetRemoteDescription | src/services/WebRTCService.ts:289 | on success the remote description is the given one; on rejection nothing changes |
| WebRtcEngine.PeerConnection.AddIceCandidate | src/services/WebRTCService.ts:308 | on success the candidate is appended to the remote candidates; on rejection nothing changes |
| WebRtcEngine.PeerConnection.Close | src/services/WebRTCService.ts:386 | the connection is closed, both states become closed, descriptions and senders stay |
| WebRtcService.WebRTCService.constructor | src/services/WebRTCService.ts:113-139 | every field starts empty; the API handle is there exactly when the environment has `RTCPeerConnection` |
| WebRtcService.WebRTCService.IsWebRTCAvailable | src/services/WebRTCService.ts:144-146 | true exactly when the API handle is there |
| WebRtcService.WebRTCService.CreateConnection | src/services/WebRTCService.ts:151-165 | without the API it fails and keeps the connection; with it a fresh connection replaces the old one: open, both states new, no descriptions, candidates or senders; no other field changes |
| WebRtcService.WebRTCService.HandleConnectionStateChange | src/services/WebRTCService.ts:174-178 | the `onConnectionStateChange` handler is the one notified, with the connection's state |
| WebRtcService.WebRTCService.HandleIceConnectionStateChange | src/services/WebRTCService.ts:181-185 | the `onIceConnectionStateChange` handler is the one notified, with the ICE state |
| WebRtcService.CopyCandidate | src/services/WebRTCService.ts:190-195 | the stored record holds the browser candidate's `candidate`, `sdpMLineIndex`, `sdpMid` and `usernameFragment`, `null` kept as `null` |
| WebRtcService.CopyCandidateInjective | src/services/WebRTCService.ts:190-195 | different browser candidates give different records |
| WebRtcService.WebRTCService.HandleIceCandidate | src/services/WebRTCService.ts:188-201 | a candidate appends exactly its copy at the end of the buffer and notifies `onIceCandidate` with it; the end-of-gathering event changes nothing and notifies no one; no other field changes |
| WebRtcService.WebRTCService.HandleTrack | src/services/WebRTCService.ts:204-208 | the event's first stream becomes the remote stream and `onRemoteStream` is notified; nothing else changes |
| WebRtcService.WebRTCService.AcquireLocalStream | src/services/WebRTCService.ts:214-237 | without the API it fails and changes nothing; a `getUserMedia` failure is passed through and changes nothing; on success the stream is stored and returned, `onLocalStream` is notified, and when a connection exists each track is added to it once, in order, with nothing else changed |
| WebRtcService.WebRTCService.GetLocalStream | src/services/WebRTCService.ts:334-336 | returns the stored local stream |
| WebRtcService.WebRTCService.GetRemoteStream | src/services/WebRTCService.ts:341-343 | returns the stored remote stream |
| WebRtcService.WebRTCService.CreateOffer | src/services/WebRTCService.ts:242-257 | without a connection it fails; an engine rejection of either step is passed through and changes nothing; when the engine produces an offer and installs it, that offer is returned and is now the local description; nothing else changes |
| WebRtcService.WebRTCService.CreateAnswer | src/services/WebRTCService.ts:262-277 | the same for answers: with a connection, a produced answer that installs is returned and is the local description |
| WebRtcService.WebRTCService.SetRemoteDescription | src/services/WebRTCService.ts:282-296 | it fails unless both the connection and the API are there; with both and no engine rejection it succeeds and the remote description is the given one; a rejection is passed through; the service's fields never change |
| WebRtcService.WebRTCService.AddIceCandidate | src/services/WebRTCService.ts:301-315 | it fails unless both the connection and the API are there; with both and no engine rejection it succeeds and the candidate is appended to the connection's remote candidates; a rejection is passed through; the service's fields never change |
| WebRtcService.WebRTCService.GetIceCandidates | src/services/WebRTCService.ts:320-322 | returns a sequence equal to the buffer and changes nothing |
| WebRtcService.WebRTCService.ClearIceCandidates | src/services/WebRTCService.ts:327-329 | the buffer is empty and no other field changes |
| WebRtcService.WebRTCService.GetConnectionState | src/services/WebRTCService.ts:348-350 | `null` without a connection, otherwise the connection's state |
| WebRtcService.WebRTCService.GetIceConnectionState | src/services/WebRTCService.ts:355-357 | `null` without a connection, otherwise the ICE state |
| WebRtcService.WebRTCService.On | src/services/WebRTCService.ts:362-364 | the handler replaces any earlier one under that name; every other name keeps its handler |
| WebRtcService.WebRTCService.Off | src/services/WebRTCService.ts:369-371 | only that name loses its handler |
| WebRtcService.WebRTCService.Close | src/services/WebRTCService.ts:376-404 | afterwards the connection and both streams are null, the buffer and the handler table are empty; the local tracks were stopped and the connection closed, each only if present, with both of its states closed and its descriptions, candidates and senders kept, so a second call has nothing left to stop or close |
| WebRtcService.LocalMediaAsWritten | src/services/WebRTCService.ts:334-336 | with the class as written, connecting and then asking for local media yields no stream and gives the connection no track |
| WebRtcService.LocalMediaCorrected | src/services/WebRTCService.ts:214-237 | with the acquiring method reachable, the same calls store the stream and give the connection one sender per track |

## Left out

- `parseCallLink` (src/utils/signaling.ts:121-136) depends on WHATWG URL
  parsing and query decoding, which the model does not include. Only the
  fixed prefix of `createCallLink` and the Base64 after it are stated. The
  query decoding maps a Base64 `+` to a space, so no round trip with
  `createCallLink` is claimed.
- `getStats` (src/services/WebRTCService.ts:409-420) returns `null` when
  there is no connection or when the engine's call rejects, and otherwise
  returns the engine's report. It is left out together with the rest of
  `RTCPeerConnection`'s statistics, which the engine model does not hold.
- `WebRtcService.WebRTCService.HandleTrack`: a `track` event with no
  streams makes the source store `undefined` (src/services/WebRTCService.ts:206)
  and pass `undefined` to `onRemoteStream`; the model stores `null`. No
  code in the modelled core tells the two apart, since no reader of
  `remoteStream` looks at it: `getRemoteStream` returns it as it is
  (line 342) and `close` overwrites it with `null` (line 391). A caller
  outside the core that compares the result of `getRemoteStream` to `null`
  strictly could see the difference.
- The module-level singleton (src/services/WebRTCService.ts:424) is one
  call of the constructor.
- `console` logging, promise scheduling and the interleaving of `await`s
  are not modelled. Each asynchronous method runs to completion, with the
  engine's outcomes given as parameters.
- The real behaviour of `RTCPeerConnection`, `getUserMedia`, ICE
  gathering and media is left out. The engine classes keep only the state
  the service can observe.
- `RTCConfiguration` and the media constraints are passed to the engine
  unchanged and are not modelled. The same holds for the
  `RTCSessionDescription` and `RTCIceCandidate` wrappers built at lines
  288 and 307.
- An exception thrown by the `RTCPeerConnection` constructor or by
  `addTrack` is not modelled: those calls always succeed here.
- A handler that calls back into the service (re-entrancy) is not
  modelled. A handler is only identified, and the methods return the one
  they notify.
- JSON numbers are exact decimals. Rounding to IEEE 754 doubles and the
  nesting-depth limits of engines are left out. `JSON.stringify` is
  modelled for values whose numbers are integers, which covers every value
  this code writes.
- `Signaling.SerializeOffer`, `Signaling.SerializeAnswer`,
  `Signaling.SerializeIceCandidate`: the failure condition is stated one
  way only. Binary-string input always succeeds, and a non-surrogate code
  unit above 0xFF always fails (`OfferRejectsWideUnit`,
  `AnswerRejectsWideUnit`). Text holding surrogate pairs is escaped or not
  by `JSON.stringify` as ECMA-262 requires, but no lemma states whether
  `btoa` then accepts it.
- `Signaling.ParseCompactString`: the TypeError raised when the decoded
  value is `null` is caught by the same `catch`, so both give `null`; the
  model states this outcome, not which exception occurred.
- `Signaling.ParseQRData`: a value of `null` in the QR text is returned as
  JSON `null` by the source and as None by the model; the two are the same
  JavaScript value.
- The React Native screens, the `useWebRTC` hook, the example scripts, the
  clipboard wrapper and the configuration constants are outside the
  modelled core and are not modelled: among other things, the screen's
  two-second wait before building a package, its refusal of a package
  without an offer, and the hook's derived connection and error flags.
- `src/types/webrtc.ts` has no behaviour. Its records are the datatypes of
  `WebRtcTypes`.

## Findings

| source | as written | input that shows it | evidently intended | confidence | as-written member | corrected member |
|---|---|---|---|---|---|---|
| src/services/WebRTCService.ts:334-336 | the class declares `getLocalStream` twice (`tsc` reports TS2393, duplicate function implementation); under a transpile-only build the later plain getter (line 334) replaces the media-acquiring method (line 214) | `new WebRTCService()`, then `createConnection()`, then `getLocalStream()`: the call returns `null` and no track is added, whereas `src/hooks/useWebRTC.ts:143` awaits it to acquire the camera | the acquiring method stays reachable under its own name and the getter is a separate accessor | not executed | WebRtcService.LocalMediaAsWritten | WebRtcService.LocalMediaCorrected |

/** The signaling codec of the call invitation exchanged by copy and paste:
    session descriptions and ICE candidates as JSON text wrapped in Base64,
    the two package builders, the compact and the QR forms of a package, the
    shape check and the call link. */
module Signaling {
  import opened Wrappers
  import opened JsText
  import opened Base64
  import opened Json
  import opened WebRtcTypes

  // ---------------------------------------------------------------------
  // Errors
  // ---------------------------------------------------------------------

  /** The function whose `catch` wrapped the failure into a new Error. */
  datatype Step =
    | OfferSerialization | OfferDeserialization
    | AnswerSerialization | AnswerDeserialization
    | CandidateSerialization | CandidateDeserialization

  /** What was thrown inside: the DOMException of `btoa` or `atob`, or the
      SyntaxError of `JSON.parse`. */
  datatype Cause = InvalidCharacter | SyntaxError

  datatype Error = Error(step: Step, cause: Cause)

  // ---------------------------------------------------------------------
  // The JSON values of the records
  // ---------------------------------------------------------------------

  function TypeName(k: SdpType): JsString {
    match k
    case Offer => Units("offer")
    case Answer => Units("answer")
    case Pranswer => Units("pranswer")
    case Rollback => Units("rollback")
  }

  /** The member `JSON.stringify` writes for a property that may be missing
      or `null`. */
  function OptionalMember(key: JsString, f: Field<Json>): seq<Member> {
    match f
    case Absent => []
    case Null => [Member(key, JNull)]
    case Present(v) => [Member(key, v)]
  }

  /** What reading the property gives back; None is `undefined`. */
  function Lookup(f: Field<Json>): Option<Json> {
    match f
    case Absent => None
    case Null => Some(JNull)
    case Present(v) => Some(v)
  }

  function StringField(f: Field<JsString>): Field<Json> {
    match f
    case Absent => Absent
    case Null => Null
    case Present(s) => Present(JString(s))
  }

  function NumberField(f: Field<int>): Field<Json> {
    match f
    case Absent => Absent
    case Null => Null
    case Present(n) => Present(JNumber(n as real))
  }

  function OptionalString(s: Option<JsString>): Field<Json> {
    if s.Some? then Present(JString(s.value)) else Absent
  }

  function Strings(xs: seq<JsString>): (r: seq<Json>)
    ensures |r| == |xs| && forall k | 0 <= k < |xs| :: r[k] == JString(xs[k])
  {
    if |xs| == 0 then [] else [JString(xs[0])] + Strings(xs[1..])
  }

  function OptionalStrings(xs: Option<seq<JsString>>): Field<Json> {
    if xs.Some? then Present(JArray(Strings(xs.value))) else Absent
  }

  /** One property of a record literal: its name and what it holds. */
  datatype Slot = Slot(key: JsString, field: Field<Json>)

  /** The members `JSON.stringify` writes for a record, in the order of its
      properties, the missing ones left out. */
  function Members(slots: seq<Slot>): seq<Member>
    decreases |slots|
  {
    if |slots| == 0 then []
    else
      var last := slots[|slots| - 1];
      Members(slots[..|slots| - 1]) + OptionalMember(last.key, last.field)
  }

  predicate DistinctSlots(slots: seq<Slot>) {
    forall a, b | 0 <= a < b < |slots| :: slots[a].key != slots[b].key
  }

  predicate FieldSerializable(f: Field<Json>) {
    f.Present? ==> Serializable(f.value)
  }

  predicate FieldLatin1(f: Field<Json>) {
    f.Present? ==> Latin1Text(f.value)
  }

  predicate AllSerializable(ms: seq<Member>) {
    forall i | 0 <= i < |ms| :: SerializableMember(ms[i])
  }

  predicate AllLatin1(ms: seq<Member>) {
    forall i | 0 <= i < |ms| :: Latin1Member(ms[i])
  }

  lemma ConcatMembers(a: seq<Member>, b: seq<Member>)
    ensures AllSerializable(a + b) <==> AllSerializable(a) && AllSerializable(b)
    ensures AllLatin1(a + b) <==> AllLatin1(a) && AllLatin1(b)
  {
    assert forall i | 0 <= i < |a| :: (a + b)[i] == a[i];
    assert forall i | 0 <= i < |b| :: (a + b)[|a| + i] == b[i];
  }

  /** A record is serializable when every field is, and a binary string
      when every name and every field is. */
  lemma {:induction false} MembersFacts(slots: seq<Slot>)
    ensures (forall k | 0 <= k < |slots| :: FieldSerializable(slots[k].field)) ==> AllSerializable(Members(slots))
    ensures (forall k | 0 <= k < |slots| :: IsLatin1(slots[k].key) && FieldLatin1(slots[k].field))
            ==> AllLatin1(Members(slots))
    decreases |slots|
  {
    if |slots| > 0 {
      var init, last := slots[..|slots| - 1], slots[|slots| - 1];
      assert forall k | 0 <= k < |init| :: init[k] == slots[k];
      MembersFacts(init);
      ConcatMembers(Members(init), OptionalMember(last.key, last.field));
    }
  }

  lemma GetOptional(key: JsString, f: Field<Json>, other: JsString)
    ensures Get(OptionalMember(key, f), key) == Lookup(f)
    ensures other != key ==> Get(OptionalMember(key, f), other) == None
  {
  }

  /** A name no slot has is undefined in the record. */
  lemma {:induction false} MembersGetNone(slots: seq<Slot>, key: JsString)
    requires forall k | 0 <= k < |slots| :: slots[k].key != key
    ensures Get(Members(slots), key) == None
    decreases |slots|
  {
    if |slots| > 0 {
      var init, last := slots[..|slots| - 1], slots[|slots| - 1];
      assert forall k | 0 <= k < |init| :: init[k] == slots[k];
      MembersGetNone(init, key);
      GetAppend(Members(init), OptionalMember(last.key, last.field), key);
      GetOptional(last.key, last.field, key);
    }
  }

  /** Each property of a record reads back as the field it was built from. */
  lemma {:induction false} MembersGet(slots: seq<Slot>, i: nat)
    requires i < |slots| && DistinctSlots(slots)
    ensures Get(Members(slots), slots[i].key) == Lookup(slots[i].field)
    decreases |slots|
  {
    var init, last := slots[..|slots| - 1], slots[|slots| - 1];
    var key := slots[i].key;
    assert forall k | 0 <= k < |init| :: init[k] == slots[k];
    GetAppend(Members(init), OptionalMember(last.key, last.field), key);
    GetOptional(last.key, last.field, key);
    if i == |slots| - 1 {
      MembersGetNone(init, key);
    } else {
      MembersGet(init, i);
    }
  }

  /** The object `JSON.stringify` sees for a session description. */
  function DescriptionSlots(d: SessionDescription): seq<Slot> {
    [Slot(Units("type"), Present(JString(TypeName(d.kind)))), Slot(Units("sdp"), OptionalString(d.sdp))]
  }

  function DescriptionJson(d: SessionDescription): (j: Json)
    ensures Serializable(j)
  {
    MembersFacts(DescriptionSlots(d));
    JObject(Members(DescriptionSlots(d)))
  }

  function CandidateSlots(c: IceCandidateInit): seq<Slot> {
    [ Slot(Units("candidate"), StringField(c.candidate)),
      Slot(Units("sdpMLineIndex"), NumberField(c.sdpMLineIndex)),
      Slot(Units("sdpMid"), StringField(c.sdpMid)),
      Slot(Units("usernameFragment"), StringField(c.usernameFragment)) ]
  }

  /** The object `JSON.stringify` sees for an ICE candidate. */
  function CandidateJson(c: IceCandidateInit): (j: Json)
    ensures Serializable(j)
  {
    MembersFacts(CandidateSlots(c));
    JObject(Members(CandidateSlots(c)))
  }

  /** The property names under which a package is written. */
  datatype KeyNames = KeyNames(offer: JsString, answer: JsString, candidates: JsString, timestamp: JsString)

  /** The names of the `SerializedSignalingData` record itself. */
  function PackageKeys(): KeyNames {
    KeyNames(Units("offer"), Units("answer"), Units("iceCandidates"), Units("timestamp"))
  }

  /** The one-letter names of the compact form. */
  function CompactKeys(): KeyNames {
    KeyNames(Units("o"), Units("a"), Units("i"), Units("t"))
  }

  /** A package as a record: offer, answer, candidates, timestamp. */
  function PackageSlots(names: KeyNames, p: SerializedSignalingData): seq<Slot> {
    [ Slot(names.offer, OptionalString(p.offer)),
      Slot(names.answer, OptionalString(p.answer)),
      Slot(names.candidates, OptionalStrings(p.iceCandidates)),
      Slot(names.timestamp, Present(JNumber(p.timestamp as real))) ]
  }

  /** The record as the package builders build it, seen by `JSON.stringify`:
      since a package holds at most one of offer and answer when a builder
      made it, this is also the order of its literal. */
  function PackageJson(p: SerializedSignalingData): (j: Json)
    ensures Serializable(j)
  {
    PackageFacts(PackageKeys(), p);
    JObject(Members(PackageSlots(PackageKeys(), p)))
  }

  /** The `compact` object of `createCompactString`. */
  function CompactJson(p: SerializedSignalingData): (j: Json)
    ensures Serializable(j)
  {
    PackageFacts(CompactKeys(), p);
    JObject(Members(PackageSlots(CompactKeys(), p)))
  }

  lemma PackageFacts(names: KeyNames, p: SerializedSignalingData)
    ensures AllSerializable(Members(PackageSlots(names, p)))
  {
    if p.iceCandidates.Some? {
      StringsFacts(p.iceCandidates.value);
    }
    MembersFacts(PackageSlots(names, p));
  }

  lemma StringsFacts(xs: seq<JsString>)
    ensures Serializable(JArray(Strings(xs)))
    ensures (forall k | 0 <= k < |xs| :: IsLatin1(xs[k])) ==> Latin1Text(JArray(Strings(xs)))
  {
    var items := Strings(xs);
    assert forall k | 0 <= k < |items| :: items[k] == JString(xs[k]);
  }

  // ---------------------------------------------------------------------
  // The three codec pairs
  // ---------------------------------------------------------------------

  /** `btoa(JSON.stringify(j))`, a failure wrapped as `step`. */
  function EncodeJson(j: Json, step: Step): (r: Result<JsString, Error>)
    requires Serializable(j)
    ensures r.Success? ==> IsEncoding(r.value)
    ensures r.Failure? ==> r.error == Error(step, InvalidCharacter)
  {
    match Btoa(Stringify(j))
    case Success(s) => Success(s)
    case Failure(_) => Failure(Error(step, InvalidCharacter))
  }

  /** `JSON.parse(atob(s))`, a failure wrapped as `step`. */
  function DecodeJson(s: JsString, step: Step): (r: Result<Json, Error>)
    ensures r.Failure? ==> r.error.step == step
    ensures r.Failure? ==> (r.error.cause == InvalidCharacter <==> Atob(s).Failure?)
    ensures r.Success? ==> Atob(s).Success? && Parse(Atob(s).value) == Some(r.value)
    ensures Atob(s).Success? && Parse(Atob(s).value).Some? ==> r.Success?
  {
    match Atob(s)
    case Failure(_) => Failure(Error(step, InvalidCharacter))
    case Success(text) =>
      match Parse(text)
      case None => Failure(Error(step, SyntaxError))
      case Some(j) => Success(j)
  }

  /** Decoding what was encoded gives the value back. */
  lemma JsonRoundTrip(j: Json, step: Step, step': Step)
    requires Serializable(j)
    ensures EncodeJson(j, step).Success? ==> DecodeJson(EncodeJson(j, step).value, step') == Success(j)
  {
    if EncodeJson(j, step).Success? {
      AtobBtoa(Stringify(j));
      ParseStringify(j);
    }
  }

  lemma BtoaRoundTrip(s: JsString)
    ensures Btoa(s).Success? ==> Atob(Btoa(s).value) == Success(s)
  {
    if IsLatin1(s) {
      AtobBtoa(s);
    }
  }

  /** Encoding succeeds when every string inside is a binary string. */
  lemma EncodeLatin1(j: Json, step: Step)
    requires Serializable(j) && Latin1Text(j)
    ensures EncodeJson(j, step).Success?
  {
    StringifyLatin1(j);
  }

  predicate DescriptionIsLatin1(d: SessionDescription) {
    d.sdp.Some? ==> IsLatin1(d.sdp.value)
  }

  predicate FieldIsLatin1(f: Field<JsString>) {
    f.Present? ==> IsLatin1(f.value)
  }

  predicate CandidateIsLatin1(c: IceCandidateInit) {
    FieldIsLatin1(c.candidate) && FieldIsLatin1(c.sdpMid) && FieldIsLatin1(c.usernameFragment)
  }

  /** A code unit the JSON text keeps and `btoa` refuses. */
  predicate WideAt(s: JsString, i: nat) {
    i < |s| && s[i] > 0xFF && !IsHighSurrogate(s[i]) && !IsLowSurrogate(s[i])
  }

  lemma DescriptionKeysLatin1()
    ensures IsLatin1(Units("type")) && IsLatin1(Units("sdp"))
  {
  }

  lemma CandidateKeysLatin1()
    ensures IsLatin1(Units("candidate")) && IsLatin1(Units("sdpMLineIndex"))
    ensures IsLatin1(Units("sdpMid")) && IsLatin1(Units("usernameFragment"))
  {
  }

  lemma DescriptionLatin1(d: SessionDescription)
    requires DescriptionIsLatin1(d)
    ensures Latin1Text(DescriptionJson(d))
  {
    var slots := DescriptionSlots(d);
    DescriptionKeysLatin1();
    assert IsLatin1(TypeName(d.kind));
    assert forall k | 0 <= k < |slots| :: IsLatin1(slots[k].key) && FieldLatin1(slots[k].field);
    MembersFacts(slots);
  }

  lemma CandidateLatin1(c: IceCandidateInit)
    requires CandidateIsLatin1(c)
    ensures Latin1Text(CandidateJson(c))
  {
    var slots := CandidateSlots(c);
    CandidateKeysLatin1();
    assert FieldLatin1(slots[0].field) && FieldLatin1(slots[1].field);
    assert FieldLatin1(slots[2].field) && FieldLatin1(slots[3].field);
    assert forall k | 0 <= k < |slots| :: IsLatin1(slots[k].key) && FieldLatin1(slots[k].field);
    MembersFacts(slots);
  }

  lemma DescriptionNotLatin1(d: SessionDescription, i: nat)
    requires d.sdp.Some? && WideAt(d.sdp.value, i)
    ensures !IsLatin1(Stringify(DescriptionJson(d)))
  {
    var ms := DescriptionJson(d).members;
    var slots := DescriptionSlots(d);
    var head := Member(Units("type"), JString(TypeName(d.kind)));
    assert slots[..1][..0] == [];
    assert Members(slots[..1]) == [head];
    assert ms == [head] + [Member(Units("sdp"), JString(d.sdp.value))];
    StringMemberNotLatin1(Units("sdp"), d.sdp.value, i);
    ObjectNotLatin1(ms, 1);
  }

  /** `serializeOffer`. */
  function SerializeOffer(offer: SessionDescription): (r: Result<JsString, Error>)
    ensures r.Success? ==> DeserializeOffer(r.value) == Success(DescriptionJson(offer))
    ensures r.Success? ==> IsEncoding(r.value)
    ensures r.Failure? ==> r.error == Error(OfferSerialization, InvalidCharacter)
    ensures DescriptionIsLatin1(offer) ==> r.Success?
  {
    JsonRoundTrip(DescriptionJson(offer), OfferSerialization, OfferDeserialization);
    if DescriptionIsLatin1(offer) then
      DescriptionLatin1(offer);
      EncodeLatin1(DescriptionJson(offer), OfferSerialization);
      EncodeJson(DescriptionJson(offer), OfferSerialization)
    else
      EncodeJson(DescriptionJson(offer), OfferSerialization)
  }

  /** `deserializeOffer`: the `as` cast checks nothing, so any JSON value is
      returned. */
  function DeserializeOffer(s: JsString): (r: Result<Json, Error>)
    ensures r.Failure? ==> r.error.step == OfferDeserialization
    ensures r.Success? ==> Atob(s).Success? && Parse(Atob(s).value) == Some(r.value)
    ensures Atob(s).Success? && Parse(Atob(s).value).Some? ==> r.Success?
  {
    DecodeJson(s, OfferDeserialization)
  }

  /** `serializeAnswer`. */
  function SerializeAnswer(answer: SessionDescription): (r: Result<JsString, Error>)
    ensures r.Success? ==> DeserializeAnswer(r.value) == Success(DescriptionJson(answer))
    ensures r.Success? ==> IsEncoding(r.value)
    ensures r.Failure? ==> r.error == Error(AnswerSerialization, InvalidCharacter)
    ensures DescriptionIsLatin1(answer) ==> r.Success?
  {
    JsonRoundTrip(DescriptionJson(answer), AnswerSerialization, AnswerDeserialization);
    if DescriptionIsLatin1(answer) then
      DescriptionLatin1(answer);
      EncodeLatin1(DescriptionJson(answer), AnswerSerialization);
      EncodeJson(DescriptionJson(answer), AnswerSerialization)
    else
      EncodeJson(DescriptionJson(answer), AnswerSerialization)
  }

  /** `deserializeAnswer`. */
  function DeserializeAnswer(s: JsString): (r: Result<Json, Error>)
    ensures r.Failure? ==> r.error.step == AnswerDeserialization
    ensures r.Success? ==> Atob(s).Success? && Parse(Atob(s).value) == Some(r.value)
    ensures Atob(s).Success? && Parse(Atob(s).value).Some? ==> r.Success?
  {
    DecodeJson(s, AnswerDeserialization)
  }

  /** `serializeIceCandidate`. */
  function SerializeIceCandidate(candidate: IceCandidateInit): (r: Result<JsString, Error>)
    ensures r.Success? ==> DeserializeIceCandidate(r.value) == Success(CandidateJson(candidate))
    ensures r.Success? ==> IsEncoding(r.value)
    ensures r.Failure? ==> r.error == Error(CandidateSerialization, InvalidCharacter)
    ensures CandidateIsLatin1(candidate) ==> r.Success?
  {
    JsonRoundTrip(CandidateJson(candidate), CandidateSerialization, CandidateDeserialization);
    if CandidateIsLatin1(candidate) then
      CandidateLatin1(candidate);
      EncodeLatin1(CandidateJson(candidate), CandidateSerialization);
      EncodeJson(CandidateJson(candidate), CandidateSerialization)
    else
      EncodeJson(CandidateJson(candidate), CandidateSerialization)
  }

  /** `deserializeIceCandidate`. */
  function DeserializeIceCandidate(s: JsString): (r: Result<Json, Error>)
    ensures r.Failure? ==> r.error.step == CandidateDeserialization
    ensures r.Success? ==> Atob(s).Success? && Parse(Atob(s).value) == Some(r.value)
    ensures Atob(s).Success? && Parse(Atob(s).value).Some? ==> r.Success?
  {
    DecodeJson(s, CandidateDeserialization)
  }

  /** An SDP text with a character above U+00FF outside the surrogate range
      makes `serializeOffer` throw. */
  lemma OfferRejectsWideUnit(offer: SessionDescription, i: nat)
    requires offer.sdp.Some? && WideAt(offer.sdp.value, i)
    ensures SerializeOffer(offer) == Failure(Error(OfferSerialization, InvalidCharacter))
  {
    DescriptionNotLatin1(offer, i);
  }

  lemma AnswerRejectsWideUnit(answer: SessionDescription, i: nat)
    requires answer.sdp.Some? && WideAt(answer.sdp.value, i)
    ensures SerializeAnswer(answer) == Failure(Error(AnswerSerialization, InvalidCharacter))
  {
    DescriptionNotLatin1(answer, i);
  }

  lemma CandidateSlotsDistinct(c: IceCandidateInit)
    ensures DistinctSlots(CandidateSlots(c))
  {
    var slots := CandidateSlots(c);
    assert Units("sdpMLineIndex")[4] != Units("sdpMid")[4];
    assert forall a | 0 <= a < |slots| :: |slots[a].key| > 4 && slots[a].key[0] == Units("cssu")[a];
  }

  lemma PackageSlotsDistinct(names: KeyNames, p: SerializedSignalingData)
    requires names == PackageKeys() || names == CompactKeys()
    ensures DistinctSlots(PackageSlots(names, p))
  {
    var slots := PackageSlots(names, p);
    assert forall a | 0 <= a < |slots| :: |slots[a].key| > 0 && slots[a].key[0] == Units("oait")[a];
  }

  /** The type and the SDP text can be read back from the JSON value. */
  lemma DescriptionJsonInjective(a: SessionDescription, b: SessionDescription)
    requires DescriptionJson(a) == DescriptionJson(b)
    ensures a == b
  {
    var d := DescriptionSlots(a);
    var e := DescriptionSlots(b);
    assert d[0].key[0] != d[1].key[0] && e[0].key[0] != e[1].key[0];
    MembersGet(d, 0);
    MembersGet(e, 0);
    MembersGet(d, 1);
    MembersGet(e, 1);
    assert TypeName(a.kind)[0] == TypeName(b.kind)[0];
    assert TypeName(a.kind) == TypeName(b.kind);
    if a.kind == Pranswer || b.kind == Pranswer {
      assert TypeName(a.kind)[1] == TypeName(b.kind)[1];
    }
  }

  lemma StringFieldInjective(f: Field<JsString>, g: Field<JsString>)
    requires Lookup(StringField(f)) == Lookup(StringField(g))
    ensures f == g
  {
  }

  lemma NumberFieldInjective(f: Field<int>, g: Field<int>)
    requires Lookup(NumberField(f)) == Lookup(NumberField(g))
    ensures f == g
  {
  }

  /** The four properties of a candidate can be read back from its JSON
      value. */
  lemma CandidateJsonInjective(a: IceCandidateInit, b: IceCandidateInit)
    requires CandidateJson(a) == CandidateJson(b)
    ensures a == b
  {
    CandidateSlotsDistinct(a);
    CandidateSlotsDistinct(b);
    var s, t := CandidateSlots(a), CandidateSlots(b);
    MembersGet(s, 0); MembersGet(t, 0);
    MembersGet(s, 1); MembersGet(t, 1);
    MembersGet(s, 2); MembersGet(t, 2);
    MembersGet(s, 3); MembersGet(t, 3);
    StringFieldInjective(a.candidate, b.candidate);
    NumberFieldInjective(a.sdpMLineIndex, b.sdpMLineIndex);
    StringFieldInjective(a.sdpMid, b.sdpMid);
    StringFieldInjective(a.usernameFragment, b.usernameFragment);
  }

  // ---------------------------------------------------------------------
  // Reading properties back
  // ---------------------------------------------------------------------

  function StringValue(s: Option<JsString>): Option<Json> {
    if s.Some? then Some(JString(s.value)) else None
  }

  function ArrayValue(xs: Option<seq<JsString>>): Option<Json> {
    if xs.Some? then Some(JArray(Strings(xs.value))) else None
  }

  /** Each property of a package object reads back as its field. */
  lemma PackageGets(names: KeyNames, p: SerializedSignalingData)
    requires names == PackageKeys() || names == CompactKeys()
    ensures Get(Members(PackageSlots(names, p)), names.offer) == StringValue(p.offer)
    ensures Get(Members(PackageSlots(names, p)), names.answer) == StringValue(p.answer)
    ensures Get(Members(PackageSlots(names, p)), names.candidates) == ArrayValue(p.iceCandidates)
    ensures Get(Members(PackageSlots(names, p)), names.timestamp) == Some(JNumber(p.timestamp as real))
  {
    PackageSlotsDistinct(names, p);
    MembersGet(PackageSlots(names, p), 0);
    MembersGet(PackageSlots(names, p), 1);
    MembersGet(PackageSlots(names, p), 2);
    MembersGet(PackageSlots(names, p), 3);
  }

  lemma {:induction false} StringsInjective(xs: seq<JsString>, ys: seq<JsString>)
    requires Strings(xs) == Strings(ys)
    ensures xs == ys
  {
    assert |xs| == |ys|;
    forall k | 0 <= k < |xs| ensures xs[k] == ys[k] {
      assert Strings(xs)[k] == Strings(ys)[k];
    }
  }

  // ---------------------------------------------------------------------
  // The package builders
  // ---------------------------------------------------------------------

  /** `iceCandidates.map(serializeIceCandidate)`: the first exception
      propagates. */
  function SerializeIceCandidates(cs: seq<IceCandidateInit>): (r: Result<seq<JsString>, Error>)
    ensures r.Success? <==> forall k | 0 <= k < |cs| :: SerializeIceCandidate(cs[k]).Success?
    ensures r.Success? ==> |r.value| == |cs|
    ensures r.Success? ==> forall k | 0 <= k < |cs| :: r.value[k] == SerializeIceCandidate(cs[k]).value
    ensures r.Failure? ==> r.error == Error(CandidateSerialization, InvalidCharacter)
    decreases |cs|
  {
    if |cs| == 0 then Success([])
    else
      match SerializeIceCandidate(cs[0])
      case Failure(e) => Failure(e)
      case Success(x) =>
        match SerializeIceCandidates(cs[1..])
        case Failure(e) => Failure(e)
        case Success(xs) => Success([x] + xs)
  }

  /** Every text a builder stores is Base64 output. */
  predicate IsEncodedPackage(p: SerializedSignalingData) {
    && (p.offer.Some? ==> IsEncoding(p.offer.value))
    && (p.answer.Some? ==> IsEncoding(p.answer.value))
    && (p.iceCandidates.Some? ==> forall k | 0 <= k < |p.iceCandidates.value| :: IsEncoding(p.iceCandidates.value[k]))
  }

  /** `createSignalingPackage`, with `Date.now()` passed in as `now`. */
  function CreateSignalingPackage(offer: SessionDescription, cs: seq<IceCandidateInit>, now: int)
    : (r: Result<SerializedSignalingData, Error>)
    ensures r.Success? <==> SerializeOffer(offer).Success? && forall k | 0 <= k < |cs| :: SerializeIceCandidate(cs[k]).Success?
    ensures SerializeOffer(offer).Failure? ==> r == Failure(SerializeOffer(offer).error)
    ensures r.Success? ==> r.value.offer == Some(SerializeOffer(offer).value) && r.value.answer.None?
    ensures r.Success? ==> r.value.iceCandidates.Some? && |r.value.iceCandidates.value| == |cs|
    ensures r.Success? ==> forall k | 0 <= k < |cs| :: r.value.iceCandidates.value[k] == SerializeIceCandidate(cs[k]).value
    ensures r.Success? ==> r.value.timestamp == now && IsEncodedPackage(r.value)
    ensures DescriptionIsLatin1(offer) && (forall k | 0 <= k < |cs| :: CandidateIsLatin1(cs[k])) ==> r.Success?
  {
    var o :- SerializeOffer(offer);
    var xs :- SerializeIceCandidates(cs);
    Success(SerializedSignalingData(Some(o), None, Some(xs), now))
  }

  /** `createAnswerPackage`, with `Date.now()` passed in as `now`. */
  function CreateAnswerPackage(answer: SessionDescription, cs: seq<IceCandidateInit>, now: int)
    : (r: Result<SerializedSignalingData, Error>)
    ensures r.Success? <==> SerializeAnswer(answer).Success? && forall k | 0 <= k < |cs| :: SerializeIceCandidate(cs[k]).Success?
    ensures SerializeAnswer(answer).Failure? ==> r == Failure(SerializeAnswer(answer).error)
    ensures r.Success? ==> r.value.answer == Some(SerializeAnswer(answer).value) && r.value.offer.None?
    ensures r.Success? ==> r.value.iceCandidates.Some? && |r.value.iceCandidates.value| == |cs|
    ensures r.Success? ==> forall k | 0 <= k < |cs| :: r.value.iceCandidates.value[k] == SerializeIceCandidate(cs[k]).value
    ensures r.Success? ==> r.value.timestamp == now && IsEncodedPackage(r.value)
    ensures DescriptionIsLatin1(answer) && (forall k | 0 <= k < |cs| :: CandidateIsLatin1(cs[k])) ==> r.Success?
  {
    var a :- SerializeAnswer(answer);
    var xs :- SerializeIceCandidates(cs);
    Success(SerializedSignalingData(None, Some(a), Some(xs), now))
  }

  // ---------------------------------------------------------------------
  // The compact form
  // ---------------------------------------------------------------------

  /** The object `parseCompactString` returns: each property is whatever the
      text held under the short name, None being `undefined`. */
  datatype ParsedSignalingData = ParsedSignalingData(
    offer: Option<Json>,
    answer: Option<Json>,
    iceCandidates: Option<Json>,
    timestamp: Option<Json>)

  /** A property read on a value `JSON.parse` returned, other than `null`:
      only an object has the properties of the model. */
  function Property(v: Json, key: JsString): Option<Json> {
    if v.JObject? then Get(v.members, key) else None
  }

  /** All strings of the package are binary strings. */
  predicate PackageIsLatin1(p: SerializedSignalingData) {
    && (p.offer.Some? ==> IsLatin1(p.offer.value))
    && (p.answer.Some? ==> IsLatin1(p.answer.value))
    && (p.iceCandidates.Some? ==> forall k | 0 <= k < |p.iceCandidates.value| :: IsLatin1(p.iceCandidates.value[k]))
  }

  /** What `parseCompactString` reads back from the compact text of `p`. */
  function CompactView(p: SerializedSignalingData): ParsedSignalingData {
    ParsedSignalingData(StringValue(p.offer), StringValue(p.answer), ArrayValue(p.iceCandidates),
                        Some(JNumber(p.timestamp as real)))
  }

  lemma EncodedPackageIsLatin1(p: SerializedSignalingData)
    requires IsEncodedPackage(p)
    ensures PackageIsLatin1(p)
  {
    if p.offer.Some? { EncodingIsLatin1(p.offer.value); }
    if p.answer.Some? { EncodingIsLatin1(p.answer.value); }
    if p.iceCandidates.Some? {
      forall k | 0 <= k < |p.iceCandidates.value| ensures IsLatin1(p.iceCandidates.value[k]) {
        EncodingIsLatin1(p.iceCandidates.value[k]);
      }
    }
  }

  lemma PackageLatin1(names: KeyNames, p: SerializedSignalingData)
    requires PackageIsLatin1(p)
    requires IsLatin1(names.offer) && IsLatin1(names.answer) && IsLatin1(names.candidates) && IsLatin1(names.timestamp)
    ensures Latin1Text(JObject(Members(PackageSlots(names, p))))
  {
    if p.iceCandidates.Some? {
      StringsFacts(p.iceCandidates.value);
    }
    MembersFacts(PackageSlots(names, p));
  }

  lemma NamesLatin1()
    ensures var n := PackageKeys(); IsLatin1(n.offer) && IsLatin1(n.answer) && IsLatin1(n.candidates) && IsLatin1(n.timestamp)
    ensures var n := CompactKeys(); IsLatin1(n.offer) && IsLatin1(n.answer) && IsLatin1(n.candidates) && IsLatin1(n.timestamp)
  {
  }

  /** `createCompactString`: `btoa`'s exception is not caught. */
  function CreateCompactString(p: SerializedSignalingData): (r: Result<JsString, DomError>)
    ensures r.Success? ==> ParseCompactString(r.value) == Some(CompactView(p))
    ensures PackageIsLatin1(p) ==> r.Success?
  {
    CompactRoundTrip(p);
    PackageEncodes(CompactKeys(), p);
    Btoa(Stringify(CompactJson(p)))
  }

  /** The text of a package whose strings are binary strings is one too. */
  lemma PackageEncodes(names: KeyNames, p: SerializedSignalingData)
    requires names == PackageKeys() || names == CompactKeys()
    ensures Serializable(JObject(Members(PackageSlots(names, p))))
    ensures PackageIsLatin1(p) ==> IsLatin1(Stringify(JObject(Members(PackageSlots(names, p)))))
  {
    PackageFacts(names, p);
    if PackageIsLatin1(p) {
      NamesLatin1();
      PackageLatin1(names, p);
      StringifyLatin1(JObject(Members(PackageSlots(names, p))));
    }
  }

  /** Decoding the compact text reads every field back. */
  lemma CompactRoundTrip(p: SerializedSignalingData)
    ensures Btoa(Stringify(CompactJson(p))).Success? ==>
      DecodeText(Btoa(Stringify(CompactJson(p))).value) == Some(CompactJson(p))
    ensures Expand(CompactJson(p)) == CompactView(p)
  {
    BtoaRoundTrip(Stringify(CompactJson(p)));
    ParseStringify(CompactJson(p));
    PackageGets(CompactKeys(), p);
  }

  /** JSON.parse(atob(s)), None for either exception. */
  function DecodeText(s: JsString): Option<Json> {
    match Atob(s)
    case Failure(_) => None
    case Success(text) => Parse(text)
  }

  /** The record `parseCompactString` builds from a value other than `null`. */
  function Expand(v: Json): ParsedSignalingData {
    var names := CompactKeys();
    ParsedSignalingData(Property(v, names.offer), Property(v, names.answer),
                        Property(v, names.candidates), Property(v, names.timestamp))
  }

  /** `parseCompactString`: `null` when `atob` or `JSON.parse` throws, or when
      the text is `null` (reading `o` of it throws a TypeError); otherwise the
      properties, whatever they hold. */
  function ParseCompactString(s: JsString): (r: Option<ParsedSignalingData>)
    ensures Atob(s).Failure? ==> r.None?
    ensures Atob(s).Success? && Parse(Atob(s).value).None? ==> r.None?
    ensures r.None? <==> DecodeText(s).None? || DecodeText(s) == Some(JNull)
    ensures r.Some? ==> r.value == Expand(DecodeText(s).value)
  {
    match DecodeText(s)
    case None => None
    case Some(v) => if v.JNull? then None else Some(Expand(v))
  }

  /** The compact view determines the package. */
  lemma CompactViewInjective(p: SerializedSignalingData, q: SerializedSignalingData)
    requires CompactView(p) == CompactView(q)
    ensures p == q
  {
    if p.iceCandidates.Some? {
      StringsInjective(p.iceCandidates.value, q.iceCandidates.value);
    }
  }

  /** The packages both builders make always have a compact form. */
  lemma BuilderPackagesCompact(offer: SessionDescription, answer: SessionDescription, cs: seq<IceCandidateInit>, now: int)
    ensures CreateSignalingPackage(offer, cs, now).Success? ==> CreateCompactString(CreateSignalingPackage(offer, cs, now).value).Success?
    ensures CreateAnswerPackage(answer, cs, now).Success? ==> CreateCompactString(CreateAnswerPackage(answer, cs, now).value).Success?
  {
    if CreateSignalingPackage(offer, cs, now).Success? {
      EncodedPackageIsLatin1(CreateSignalingPackage(offer, cs, now).value);
    }
    if CreateAnswerPackage(answer, cs, now).Success? {
      EncodedPackageIsLatin1(CreateAnswerPackage(answer, cs, now).value);
    }
  }

  /** No shape check: a text with both an offer and an answer, or with
      neither, still gives a record. */
  lemma CompactAcceptsAnyCombination(x: JsString, y: JsString, now: int)
    requires IsLatin1(x) && IsLatin1(y)
    ensures var both := SerializedSignalingData(Some(x), Some(y), None, now);
      CreateCompactString(both).Success?
      && ParseCompactString(CreateCompactString(both).value)
         == Some(ParsedSignalingData(Some(JString(x)), Some(JString(y)), None, Some(JNumber(now as real))))
    ensures var neither := SerializedSignalingData(None, None, None, now);
      CreateCompactString(neither).Success?
      && ParseCompactString(CreateCompactString(neither).value)
         == Some(ParsedSignalingData(None, None, None, Some(JNumber(now as real))))
  {
  }

  /** A text holding a JSON value that is not an object (but not `null`)
      gives a record all of whose properties are undefined. */
  lemma CompactOfNonObject(s: JsString)
    requires DecodeText(s).Some? && !DecodeText(s).value.JObject? && !DecodeText(s).value.JNull?
    ensures ParseCompactString(s) == Some(ParsedSignalingData(None, None, None, None))
  {
  }

  // ---------------------------------------------------------------------
  // The QR form and the call link
  // ---------------------------------------------------------------------

  /** `createQRData`. */
  function CreateQRData(p: SerializedSignalingData): (r: JsString)
    ensures ParseQRData(r) == Some(PackageJson(p))
  {
    ParseStringify(PackageJson(p));
    Stringify(PackageJson(p))
  }

  /** `parseQRData`: `null` when JSON.parse throws, and also for the text
      `null`. */
  function ParseQRData(text: JsString): (r: Option<Json>)
    ensures Parse(text).None? ==> r.None?
    ensures r.Some? ==> Parse(text) == r && !r.value.JNull?
    ensures Parse(text).Some? && !Parse(text).value.JNull? ==> r == Parse(text)
  {
    match Parse(text)
    case None => None
    case Some(v) => if v.JNull? then None else Some(v)
  }

  /** The JSON value of a package determines the package. */
  lemma PackageJsonInjective(p: SerializedSignalingData, q: SerializedSignalingData)
    requires PackageJson(p) == PackageJson(q)
    ensures p == q
  {
    PackageGets(PackageKeys(), p);
    PackageGets(PackageKeys(), q);
    assert CompactView(p) == CompactView(q);
    CompactViewInjective(p, q);
  }

  function CallLinkPrefix(): JsString {
    Units("callmom://call?data=")
  }

  /** `createCallLink`: the prefix followed by the Base64 of the package's
      JSON text; `btoa`'s exception is not caught. */
  function CreateCallLink(p: SerializedSignalingData): (r: Result<JsString, DomError>)
    ensures r.Success? ==> |r.value| >= |CallLinkPrefix()| && r.value[..|CallLinkPrefix()|] == CallLinkPrefix()
    ensures r.Success? ==> DecodeText(r.value[|CallLinkPrefix()|..]) == Some(PackageJson(p))
    ensures PackageIsLatin1(p) ==> r.Success?
  {
    BtoaRoundTrip(Stringify(PackageJson(p)));
    ParseStringify(PackageJson(p));
    PackageEncodes(PackageKeys(), p);
    CallLinkOf(Btoa(Stringify(PackageJson(p))))
  }

  function CallLinkOf(encoded: Result<JsString, DomError>): (r: Result<JsString, DomError>)
    ensures r.Success? <==> encoded.Success?
    ensures r.Success? ==> |r.value| >= |CallLinkPrefix()|
    ensures r.Success? ==> r.value[..|CallLinkPrefix()|] == CallLinkPrefix() && r.value[|CallLinkPrefix()|..] == encoded.value
  {
    match encoded
    case Success(e) => Success(CallLinkPrefix() + e)
    case Failure(err) => Failure(err)
  }

  // ---------------------------------------------------------------------
  // The shape check
  // ---------------------------------------------------------------------

  /** JavaScript truthiness; None is `undefined`. */
  predicate Truthy(v: Option<Json>) {
    match v
    case None => false
    case Some(JNull) => false
    case Some(JBool(b)) => b
    case Some(JNumber(n)) => n != 0.0
    case Some(JString(s)) => |s| > 0
    case Some(_) => true
  }

  /** `typeof v === 'object'`. */
  predicate IsObjectType(v: Json) {
    v.JNull? || v.JArray? || v.JObject?
  }

  predicate IsNumber(v: Option<Json>) { v.Some? && v.value.JNumber? }

  predicate IsArray(v: Option<Json>) { v.Some? && v.value.JArray? }

  /** `validateSignalingData(data)`, read as a condition: the expression
      returns its first falsy operand or `true`. */
  predicate ValidateSignalingData(data: Option<Json>) {
    var names := PackageKeys();
    && Truthy(data)
    && IsObjectType(data.value)
    && IsNumber(Property(data.value, names.timestamp))
    && (Truthy(Property(data.value, names.offer)) || Truthy(Property(data.value, names.answer)))
    && IsArray(Property(data.value, names.candidates))
  }

  /** The shape check holds exactly of objects with a numeric timestamp,
      a candidate array and a truthy offer or answer. */
  lemma ValidateIff(data: Option<Json>)
    ensures ValidateSignalingData(data) <==>
      exists ms :: data == Some(JObject(ms))
        && Get(ms, Units("timestamp")).Some? && Get(ms, Units("timestamp")).value.JNumber?
        && (Truthy(Get(ms, Units("offer"))) || Truthy(Get(ms, Units("answer"))))
        && Get(ms, Units("iceCandidates")).Some? && Get(ms, Units("iceCandidates")).value.JArray?
  {
    if ValidateSignalingData(data) {
      assert data.value.JObject?;
      assert data == Some(JObject(data.value.members));
    }
  }

  /** On the JSON value of a package the shape check reduces to: the
      candidate array is there and the offer or the answer is a non-empty
      text. */
  lemma ValidatePackageIff(p: SerializedSignalingData)
    ensures ValidateSignalingData(Some(PackageJson(p))) <==>
      p.iceCandidates.Some? && ((p.offer.Some? && |p.offer.value| > 0) || (p.answer.Some? && |p.answer.value| > 0))
  {
    PackageGets(PackageKeys(), p);
    var v := PackageJson(p);
    var names := PackageKeys();
    assert Property(v, names.timestamp) == Some(JNumber(p.timestamp as real));
    assert Truthy(Property(v, names.offer)) <==> p.offer.Some? && |p.offer.value| > 0;
    assert Truthy(Property(v, names.answer)) <==> p.answer.Some? && |p.answer.value| > 0;
    assert IsArray(Property(v, names.candidates)) <==> p.iceCandidates.Some?;
  }

  /** The packages `createSignalingPackage` makes pass the shape check. */
  lemma SignalingPackageValidates(offer: SessionDescription, cs: seq<IceCandidateInit>, now: int)
    requires CreateSignalingPackage(offer, cs, now).Success?
    ensures ValidateSignalingData(Some(PackageJson(CreateSignalingPackage(offer, cs, now).value)))
  {
    ValidatePackageIff(CreateSignalingPackage(offer, cs, now).value);
    EncodingNonEmpty(offer);
  }

  /** The packages `createAnswerPackage` makes pass the shape check. */
  lemma AnswerPackageValidates(answer: SessionDescription, cs: seq<IceCandidateInit>, now: int)
    requires CreateAnswerPackage(answer, cs, now).Success?
    ensures ValidateSignalingData(Some(PackageJson(CreateAnswerPackage(answer, cs, now).value)))
  {
    ValidatePackageIff(CreateAnswerPackage(answer, cs, now).value);
    EncodingNonEmpty(answer);
  }

  /** The Base64 text of a description is never empty, hence truthy. */
  lemma EncodingNonEmpty(d: SessionDescription)
    ensures EncodeJson(DescriptionJson(d), OfferSerialization).Success? ==> |EncodeJson(DescriptionJson(d), OfferSerialization).value| > 0
    ensures EncodeJson(DescriptionJson(d), AnswerSerialization).Success? ==> |EncodeJson(DescriptionJson(d), AnswerSerialization).value| > 0
  {
    assert |Stringify(DescriptionJson(d))| > 0;
  }

  /** A package with both an offer and an answer is accepted; an empty offer
      text is falsy, so a package holding only it is refused, and so is a
      package without its candidate array. */
  lemma ValidateEdgeCases(x: JsString, y: JsString, cands: seq<JsString>, now: int)
    requires |x| > 0 && |y| > 0
    ensures ValidateSignalingData(Some(PackageJson(SerializedSignalingData(Some(x), Some(y), Some(cands), now))))
    ensures !ValidateSignalingData(Some(PackageJson(SerializedSignalingData(Some([]), None, Some(cands), now))))
    ensures !ValidateSignalingData(Some(PackageJson(SerializedSignalingData(Some(x), None, None, now))))
  {
    ValidatePackageIff(SerializedSignalingData(Some(x), Some(y), Some(cands), now));
    ValidatePackageIff(SerializedSignalingData(Some([]), None, Some(cands), now));
    ValidatePackageIff(SerializedSignalingData(Some(x), None, None, now));
  }

  /** An array is an `object` to `typeof` but has no timestamp. */
  lemma ValidateRejectsArray(items: seq<Json>)
    ensures !ValidateSignalingData(Some(JArray(items)))
  {
  }
}

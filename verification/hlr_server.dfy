/** The HLR server's message logic with the network abstracted: the reaction to
    one IPA frame, the GSUP dispatch, the four request handlers and the
    in-memory routing table. The connection is the stream of bytes the peer
    sends; everything the server writes is collected as output. The
    authentication service is a function from IMSI to key material or failure. */
module HlrServer {
  import opened Wrappers
  import opened Bytes
  import opened Tlv
  import opened GsupConstants
  import opened GsupCodec
  import opened Ipa

  // The server's own GSUP message numbers. They differ from the codec's
  // constant table, whose builders the handlers nevertheless use.
  const UpdateLocationRequest: byte := 0x04
  const UpdateLocationResult: byte := 0x06
  const UpdateLocationError: byte := 0x05
  const AuthInfoRequest: byte := 0x08
  const AuthInfoError: byte := 0x09
  const InsertDataRequest: byte := 0x10
  const InsertDataResult: byte := 0x12
  const InsertDataError: byte := 0x11
  const SubscriberDataRequest: byte := 0x10
  const SriSmRequest: byte := 0x14
  const SriSmError: byte := 0x16

  /** The routing numbers stored for a subscriber by Update Location. */
  datatype Routing = Routing(vlrNumber: string, mscNumber: string, sgsnNumber: string)

  /** The server's state: `subscriber_routing`, keyed by IMSI. */
  datatype Server = Server(routing: map<string, Routing>)

  /** What the authentication service returns for an IMSI. */
  datatype AuthData = AuthData(ki: string, opc: string)

  /** `auth_client.get_auth_data`: key material, or `None` when it raises. */
  type AuthService = string -> Option<AuthData>

  // ---------------------------------------------------------------- CCM replies

  /** `_create_ccm_pong`. */
  function PongFrame(): (r: bytes)
    ensures r == [0x00, 0x01, 0xfe, 0x01]
    ensures Receive(r) == Got(IpaProto, [CcmPong], [])
  {
    ReceiveFrame(IpaProto, [CcmPong], []);
    Frame([CcmPong]).value
  }

  /** The identity the server announces, in the order it sends the tags. */
  const IdentityFields: seq<(byte, string)> :=
    [(CcmTagUnitId, "0/0/0"), (CcmTagMacAddress, "00:00:00:00:00:00"), (CcmTagLocation, ""),
     (CcmTagUnitType, ""), (CcmTagEquipmentVersion, ""), (CcmTagSoftwareVersion, "osmo-msc-1.13.0"),
     (CcmTagUnitName, "MSC"), (CcmTagSerialNumber, "unnamed-MSC")]

  /** `make_tag_value`: the tag, the UTF-8 value and a terminating zero. */
  function TagValue(tag: byte, value: string): bytes
  {
    [tag] + Utf8(value) + [0]
  }

  function TagValues(fields: seq<(byte, string)>): bytes
  {
    if |fields| == 0 then [] else TagValue(fields[0].0, fields[0].1) + TagValues(fields[1..])
  }

  /** The identity-response payload: the ID_RESPONSE type and the tag/value
      triples. */
  function IdentityPayload(): bytes
  {
    [CcmIdResponse] + TagValues(IdentityFields)
  }

  /** `_create_ccm_identity_response`: a 68-byte payload behind a header that
      announces it. */
  function IdentityResponseFrame(): (r: bytes)
    ensures |IdentityPayload()| == 68 && |r| == 71 && r[..3] == [0x00, 68, 0xfe]
    ensures Receive(r) == Got(IpaProto, IdentityPayload(), [])
  {
    IdentityPayloadLength();
    ReceiveFrame(IpaProto, IdentityPayload(), []);
    Frame(IdentityPayload()).value
  }

  lemma IdentityPayloadLength()
    ensures |IdentityPayload()| == 68
  {
    IdentityFieldsAscii();
    TagValuesLength(IdentityFields);
    IdentityFieldSizes();
  }

  lemma IdentityFieldsAscii()
    ensures forall i :: 0 <= i < |IdentityFields| ==> IsAsciiText(IdentityFields[i].1)
  {
    var f := IdentityFields;
    forall i | 0 <= i < |f|
      ensures IsAsciiText(f[i].1)
    {
    }
  }

  lemma IdentityFieldSizes()
    ensures TagValueSizes(IdentityFields) == 67
  {
    var f := IdentityFields;
    assert TagValueSizes(f[8..]) == 0;
    assert f[7..][1..] == f[8..];
    assert TagValueSizes(f[7..]) == 13;
    assert f[6..][1..] == f[7..];
    assert TagValueSizes(f[6..]) == 18;
    assert f[5..][1..] == f[6..];
    assert TagValueSizes(f[5..]) == 35;
    assert f[4..][1..] == f[5..];
    assert TagValueSizes(f[4..]) == 37;
    assert f[3..][1..] == f[4..];
    assert TagValueSizes(f[3..]) == 39;
    assert f[2..][1..] == f[3..];
    assert TagValueSizes(f[2..]) == 41;
    assert f[1..][1..] == f[2..];
    assert TagValueSizes(f[1..]) == 60;
    assert f[0..] == f;
  }

  /** With ASCII values every triple takes two bytes more than its value. */
  lemma {:induction false} TagValuesLength(fields: seq<(byte, string)>)
    requires forall i :: 0 <= i < |fields| ==> IsAsciiText(fields[i].1)
    ensures |TagValues(fields)| == TagValueSizes(fields)
  {
    if |fields| > 0 {
      Utf8OfAscii(fields[0].1);
      TagValuesLength(fields[1..]);
    }
  }

  function TagValueSizes(fields: seq<(byte, string)>): nat
  {
    if |fields| == 0 then 0 else 2 + |fields[0].1| + TagValueSizes(fields[1..])
  }

  /** The position of the first zero byte at or after `from`. */
  function NulIndex(b: bytes, from: nat): (r: Option<nat>)
    ensures r.Some? ==> from <= r.value < |b| && b[r.value] == 0
    ensures r.Some? ==> forall j :: from <= j < r.value ==> b[j] != 0
    ensures r.None? ==> forall j :: from <= j < |b| ==> b[j] != 0
    decreases |b| - from
  {
    if from >= |b| then None
    else if b[from] == 0 then Some(from)
    else NulIndex(b, from + 1)
  }

  /** The reading side of the identity triples: a tag byte, then bytes up to a
      zero. */
  function ParseTagValues(b: bytes): (r: Option<seq<(byte, bytes)>>)
    decreases |b|
  {
    if |b| == 0 then Some([])
    else
      match NulIndex(b, 1)
      case None => None
      case Some(i) =>
        match ParseTagValues(b[i + 1..])
        case None => None
        case Some(rest) => Some([(b[0], b[1..i])] + rest)
  }

  /** The tags with their UTF-8 values. */
  function Encoded(fields: seq<(byte, string)>): (r: seq<(byte, bytes)>)
    ensures |r| == |fields|
  {
    if |fields| == 0 then [] else [(fields[0].0, Utf8(fields[0].1))] + Encoded(fields[1..])
  }

  predicate NoNul(s: string) {
    forall i :: 0 <= i < |s| ==> s[i] as int != 0
  }

  /** The triples parse back into their tags and values whenever no value holds
      a NUL character, which UTF-8 would turn into a zero byte. */
  lemma {:induction false} ParseTagValuesInverse(fields: seq<(byte, string)>)
    requires forall i :: 0 <= i < |fields| ==> NoNul(fields[i].1)
    ensures ParseTagValues(TagValues(fields)) == Some(Encoded(fields))
  {
    if |fields| > 0 {
      var tag, value := fields[0].0, fields[0].1;
      var u := Utf8(value);
      var rest := TagValues(fields[1..]);
      var b := TagValues(fields);
      assert b == [tag] + u + [0] + rest;
      Utf8NoNul(value);
      forall j | 1 <= j < 1 + |u|
        ensures b[j] != 0
      {
        assert b[j] == u[j - 1];
      }
      assert b[1 + |u|] == 0;
      assert NulIndex(b, 1) == Some(1 + |u|);
      assert b[1..1 + |u|] == u;
      assert b[2 + |u|..] == rest;
      ParseTagValuesInverse(fields[1..]);
    }
  }

  /** The identity response carries the eight tags in order, each with its
      value. */
  lemma IdentityResponseParses()
    ensures IdentityPayload()[0] == CcmIdResponse
    ensures ParseTagValues(IdentityPayload()[1..]) == Some(Encoded(IdentityFields))
  {
    var f := IdentityFields;
    forall i | 0 <= i < |f|
      ensures NoNul(f[i].1)
    {
    }
    ParseTagValuesInverse(f);
    assert IdentityPayload()[1..] == TagValues(f);
  }

  // ---------------------------------------------------------------- errors

  /** `_create_error_response`: a message of type `t` whose only IE is CAUSE. */
  function ErrorResponse(t: byte, cause: byte): (r: bytes)
    ensures r == [t, 3, 0, IeCause, 1, cause]
    ensures DecodeMessage(r) == Some(Message(t, [(IeCause, [cause])]))
  {
    var ies := [(IeCause, [cause])];
    EncodeFewIes(t, ies);
    DecodeEncode(t, ies);
    EncodeMessage(t, ies).value
  }

  // ---------------------------------------------------------------- handlers

  /** RAND and AUTN as the handler derives them: the hex-decoded `ki` and `opc`
      of the authentication service's answer. */
  function AuthVector(auth: AuthService, imsi: string): Option<(bytes, bytes)>
  {
    match auth(imsi)
    case None => None
    case Some(d) =>
      match (FromHex(d.ki), FromHex(d.opc))
      case (Some(rand), Some(autn)) => Some((rand, autn))
      case _ => None
  }

  /** `handle_auth_info_request`. A missing IMSI is a protocol error; an IMSI
      that is not ASCII raises outside the handler's `try`, so there is no
      reply; any failure after that is reported as an unknown IMSI. */
  function HandleAuthInfo(auth: AuthService, ies: Dict): (r: Option<bytes>)
    ensures Get(ies, IeImsi).None? ==> r == Some(ErrorResponse(AuthInfoError, CauseProtocolError))
    ensures Get(ies, IeImsi).Some? ==> (r.None? <==> !IsAsciiBytes(Get(ies, IeImsi).value))
    ensures Get(ies, IeImsi).Some? && r.Some? ==>
              var raw := Get(ies, IeImsi).value;
              var v := AuthVector(auth, AsciiDecode(raw).value);
              if v.Some? && |raw| < 256 && |v.value.0| < 256 && |v.value.1| < 256 then
                DecodeMessage(r.value)
                == Some(Message(MsgSendAuthInfoResult, [(IeImsi, raw), (IeRand, v.value.0), (IeAutn, v.value.1)]))
              else r.value == ErrorResponse(AuthInfoError, CauseImsiUnknown)
  {
    match Get(ies, IeImsi)
    case None => Some(ErrorResponse(AuthInfoError, CauseProtocolError))
    case Some(raw) =>
      match AsciiDecode(raw)
      case None => None
      case Some(imsi) =>
        AsciiDecodeEncode(raw);
        var failed := ErrorResponse(AuthInfoError, CauseImsiUnknown);
        match AuthVector(auth, imsi)
        case None => Some(failed)
        case Some((rand, autn)) =>
          match CreateAuthResponse(imsi, rand, autn)
          case None => Some(failed)
          case Some(m) => Some(m)
  }

  /** The MSISDN the server hands out for every subscriber. */
  const DefaultMsisdn: string := "1234567890"

  /** The IEs of the subscriber-data answer for an IMSI. */
  function SubscriberDataAnswer(imsi: bytes): Dict
  {
    SubscriberDataIes(imsi, AsciiEncode(DefaultMsisdn).value, ServiceGranted, PacketAndCircuit,
                      [0x11, 0x22], [0x33, 0x44])
  }

  /** `handle_subscriber_data_request`. Errors use the server's
      INSERT_DATA_ERROR type; a failing authentication service means the data
      is not available. */
  function HandleSubscriberData(auth: AuthService, ies: Dict): (r: Option<bytes>)
    ensures Get(ies, IeImsi).None? ==> r == Some(ErrorResponse(InsertDataError, CauseProtocolError))
    ensures Get(ies, IeImsi).Some? ==> (r.None? <==> !IsAsciiBytes(Get(ies, IeImsi).value))
    ensures Get(ies, IeImsi).Some? && r.Some? ==>
              var raw := Get(ies, IeImsi).value;
              if auth(AsciiDecode(raw).value).Some? && |raw| < 256 then
                DecodeMessage(r.value) == Some(Message(MsgSendSubscriberDataResult, SubscriberDataAnswer(raw)))
              else r.value == ErrorResponse(InsertDataError, CauseSubscriberDataNotAvailable)
  {
    match Get(ies, IeImsi)
    case None => Some(ErrorResponse(InsertDataError, CauseProtocolError))
    case Some(raw) =>
      match AsciiDecode(raw)
      case None => None
      case Some(imsi) =>
        AsciiDecodeEncode(raw);
        var failed := ErrorResponse(InsertDataError, CauseSubscriberDataNotAvailable);
        if auth(imsi).None? then Some(failed)
        else
          match CreateSubscriberDataResponse(imsi, DefaultMsisdn, ServiceGranted as int, PacketAndCircuit as int,
                                             [0x11, 0x22], [0x33, 0x44])
          case None => Some(failed)
          case Some(m) => Some(m)
  }

  /** `handle_routing_info_for_sm_request`: answers from the routing table; an
      IMSI without an entry is an SMS routing error. */
  function HandleSriSm(s: Server, ies: Dict): (r: Option<bytes>)
    ensures Get(ies, IeImsi).None? ==> r == Some(ErrorResponse(SriSmError, CauseProtocolError))
    ensures Get(ies, IeImsi).Some? ==> (r.None? <==> !IsAsciiBytes(Get(ies, IeImsi).value))
    ensures Get(ies, IeImsi).Some? && r.Some? && AsciiDecode(Get(ies, IeImsi).value).value !in s.routing ==>
              r.value == ErrorResponse(SriSmError, CauseSmsRoutingError)
  {
    match Get(ies, IeImsi)
    case None => Some(ErrorResponse(SriSmError, CauseProtocolError))
    case Some(raw) =>
      match AsciiDecode(raw)
      case None => None
      case Some(imsi) =>
        var failed := ErrorResponse(SriSmError, CauseSmsRoutingError);
        if imsi !in s.routing then Some(failed)
        else
          var route := s.routing[imsi];
          match CreateSriSmResponse(imsi, route.mscNumber, route.sgsnNumber, "")
          case None => Some(failed)
          case Some(m) => Some(m)
  }

  /** What a handler or the dispatcher leaves behind: its reply, the frames it
      wrote on the way, the server state and the rest of the input stream. */
  datatype Outcome = Outcome(reply: Option<bytes>, written: bytes, server: Server, rest: bytes)

  /** The IEs of the Insert Data Request sent during Update Location. */
  function InsertDataIes(imsi: bytes): Dict
  {
    [(IeImsi, imsi), (IeMsisdn, AsciiEncode(DefaultMsisdn).value), (IeSubscriberStatus, [ServiceGranted]),
     (IeNetworkAccessMode, [PacketAndCircuit]), (IeSubscriberDataFlags, [0x01]),
     (IeGsmBearerCapabilities, [0x11, 0x22])]
  }

  /** The MSISDN in the encoding every message carries it in. */
  lemma DefaultMsisdnAscii()
    ensures AsciiEncode(DefaultMsisdn).Some? && |AsciiEncode(DefaultMsisdn).value| == 10
  {
    assert IsAsciiText(DefaultMsisdn);
  }

  /** The Insert Data Request IEs have distinct types and fit when the IMSI does. */
  lemma InsertDataIesShape(imsi: bytes)
    ensures Distinct(InsertDataIes(imsi)) && (Fits(InsertDataIes(imsi)) <==> |imsi| < 256)
  {
    DefaultMsisdnAscii();
    var ies := InsertDataIes(imsi);
    assert ies[0].1 == imsi;
  }

  /** The framed Insert Data Request for an IMSI: read back, it is one frame
      holding the request with the IMSI and the fixed subscriber data. */
  function InsertDataRequestFrame(imsi: string): (r: Option<bytes>)
    ensures r.Some? <==> IsAsciiText(imsi) && |imsi| < 256
    ensures r.Some? ==> |r.value| > 3 && Receive(r.value) == Got(IpaProto, r.value[3..], [])
                        && DecodeMessage(r.value[3..])
                           == Some(Message(InsertDataRequest, InsertDataIes(AsciiEncode(imsi).value)))
  {
    match AsciiEncode(imsi)
    case None => None
    case Some(i) =>
      InsertDataIesShape(i);
      EncodeFewIes(InsertDataRequest, InsertDataIes(i));
      DecodeEncode(InsertDataRequest, InsertDataIes(i));
      match EncodeMessage(InsertDataRequest, InsertDataIes(i))
      case None => None
      case Some(m) =>
        SizeBound(InsertDataIes(i));
        ReceiveFrame(IpaProto, m, []);
        assert (Header(|m|, IpaProto).value + m)[3..] == m;
        assert Header(|m|, IpaProto).value + m + [] == Header(|m|, IpaProto).value + m;
        Frame(m)
  }

  /** `ies.get(t, b'').decode('ascii') or default`. */
  function NumberOrDefault(ies: Dict, t: byte, default: string): (r: Option<string>)
    ensures r.Some? <==> Get(ies, t).None? || IsAsciiBytes(Get(ies, t).value)
    ensures r.Some? ==> |r.value| > 0
    ensures r.Some? && IsAsciiText(default) ==> IsAsciiText(r.value)
    ensures r.Some? && Get(ies, t).Some? && |Get(ies, t).value| > 0 ==> AsciiEncode(r.value) == Get(ies, t)
    ensures r.Some? && (Get(ies, t).None? || |Get(ies, t).value| == 0) ==> r.value == default
    requires |default| > 0
  {
    var raw := if Get(ies, t).Some? then Get(ies, t).value else [];
    match AsciiDecode(raw)
    case None => None
    case Some(text) =>
      AsciiDecodeEncode(raw);
      Some(if |text| == 0 then default else text)
  }

  /** The IE of type `t` is missing or empty, so its default applies. */
  predicate Absent(ies: Dict, t: byte) {
    Get(ies, t).None? || |Get(ies, t).value| == 0
  }

  /** The IE of type `t` is missing or decodes as ASCII. */
  predicate Readable(ies: Dict, t: byte) {
    Get(ies, t).None? || IsAsciiBytes(Get(ies, t).value)
  }

  /** The routing entry Update Location stores, or `None` when a number is not
      ASCII. */
  function StoredRouting(ies: Dict): (r: Option<Routing>)
    ensures r.Some? <==> Readable(ies, IeVlrNumber) && Readable(ies, IeMscNumber) && Readable(ies, IeSgsnNumber)
    ensures r.Some? ==> IsAsciiText(r.value.vlrNumber) && IsAsciiText(r.value.mscNumber) && IsAsciiText(r.value.sgsnNumber)
    ensures r.Some? ==> (r.value.vlrNumber == "12345" <== Absent(ies, IeVlrNumber))
                        && (r.value.mscNumber == "67890" <== Absent(ies, IeMscNumber))
                        && (r.value.sgsnNumber == "11111" <== Absent(ies, IeSgsnNumber))
    ensures r.Some? ==> (!Absent(ies, IeVlrNumber) ==> AsciiEncode(r.value.vlrNumber) == Get(ies, IeVlrNumber))
                        && (!Absent(ies, IeMscNumber) ==> AsciiEncode(r.value.mscNumber) == Get(ies, IeMscNumber))
                        && (!Absent(ies, IeSgsnNumber) ==> AsciiEncode(r.value.sgsnNumber) == Get(ies, IeSgsnNumber))
  {
    match (NumberOrDefault(ies, IeVlrNumber, "12345"), NumberOrDefault(ies, IeMscNumber, "67890"),
           NumberOrDefault(ies, IeSgsnNumber, "11111"))
    case (Some(vlr), Some(msc), Some(sgsn)) => Some(Routing(vlr, msc, sgsn))
    case _ => None
  }

  /** How the peer answered the Insert Data Request. */
  datatype Answer = Lost | Unexpected | Confirmed

  /** Reading the answer to the Insert Data Request: a header of fewer than
      three bytes, a protocol other than 0xfe or an empty payload is lost (the
      handler raises); a payload that is not an Insert Data Result is
      unexpected. The protocol is checked before the payload is read. */
  function AwaitInsertDataResult(input: bytes): (r: (Answer, bytes))
    ensures |input| < 3 ==> r == (Lost, [])
    ensures |input| >= 3 && input[2] != IpaProto ==> r == (Lost, input[3..])
    ensures |input| >= 3 && input[2] == IpaProto ==>
              var n := Min(LengthOf(input[0], input[1]), |input| - 3);
              && r.1 == input[3 + n..]
              && (r.0 == Lost <==> n == 0)
              && (r.0 == Confirmed <==> n > 0 && input[3] == InsertDataResult)
  {
    var (header, rest) := Read(input, 3);
    if |header| < 3 || header[2] != IpaProto then (Lost, rest)
    else
      var (payload, rest') := Read(rest, LengthOf(header[0], header[1]));
      if |payload| == 0 then (Lost, rest')
      else if payload[0] != InsertDataResult then (Unexpected, rest')
      else (Confirmed, rest')
  }

  /** A framed CCM-protocol answer is confirmed exactly when it is an Insert
      Data Result, and reading it leaves the stream after it untouched. */
  lemma AwaitFramedAnswer(payload: bytes, rest: bytes)
    requires 0 < |payload| < 0x1_0000
    ensures AwaitInsertDataResult(Header(|payload|, IpaProto).value + payload + rest)
            == (if payload[0] == InsertDataResult then Confirmed else Unexpected, rest)
  {
    var h := Header(|payload|, IpaProto).value;
    var input := h + payload + rest;
    assert input[..3] == h && input[3..] == payload + rest;
    assert (payload + rest)[..|payload|] == payload;
    assert (payload + rest)[|payload|..] == rest;
  }

  /** The last part of the handler, once the answer is confirmed: store the
      routing entry and confirm with the IMSI. The entry is stored before the
      confirmation is built. */
  function ConfirmLocation(s: Server, ies: Dict, imsi: string, idr: bytes, rest: bytes): (o: Outcome)
    ensures o.written == idr && o.rest == rest && o.reply.Some?
    ensures StoredRouting(ies).None? ==>
              o == Outcome(Some(ErrorResponse(UpdateLocationError, CauseSubscriberDataNotAvailable)), idr, s, rest)
    ensures StoredRouting(ies).Some? ==> o.server == Server(s.routing[imsi := StoredRouting(ies).value])
    ensures StoredRouting(ies).Some? && IsAsciiText(imsi) && |imsi| < 256 ==>
              DecodeMessage(o.reply.value) == Some(Message(UpdateLocationResult, [(IeImsi, AsciiEncode(imsi).value)]))
  {
    var failed := Some(ErrorResponse(UpdateLocationError, CauseSubscriberDataNotAvailable));
    match StoredRouting(ies)
    case None => Outcome(failed, idr, s, rest)
    case Some(route) =>
      var s' := Server(s.routing[imsi := route]);
      match AsciiEncode(imsi)
      case None => Outcome(failed, idr, s', rest)
      case Some(i) =>
        var ies' := [(IeImsi, i)];
        EncodeFewIes(UpdateLocationResult, ies');
        DecodeEncode(UpdateLocationResult, ies');
        match EncodeMessage(UpdateLocationResult, ies')
        case None => Outcome(failed, idr, s', rest)
        case Some(m) => Outcome(Some(m), idr, s', rest)
  }

  /** The `try` block of `handle_update_location_request`: ask the
      authentication service, send the Insert Data Request, read the peer's
      answer from the stream and, when it is an Insert Data Result, store the
      routing entry and confirm. The table changes only at this IMSI. */
  function UpdateLocationTry(s: Server, auth: AuthService, ies: Dict, imsi: string, input: bytes): (o: Outcome)
    ensures |o.rest| <= |input|
    ensures o.server == s || (StoredRouting(ies).Some? && o.server == Server(s.routing[imsi := StoredRouting(ies).value]))
  {
    var failed := Some(ErrorResponse(UpdateLocationError, CauseSubscriberDataNotAvailable));
    if auth(imsi).None? then Outcome(failed, [], s, input)
    else
      match InsertDataRequestFrame(imsi)
      case None => Outcome(failed, [], s, input)
      case Some(idr) =>
        var (answer, rest) := AwaitInsertDataResult(input);
        match answer
        case Lost => Outcome(failed, idr, s, rest)
        case Unexpected => Outcome(Some(ErrorResponse(UpdateLocationError, CauseProtocolError)), idr, s, rest)
        case Confirmed => ConfirmLocation(s, ies, imsi, idr, rest)
  }

  /** `handle_update_location_request`. */
  function HandleUpdateLocation(s: Server, auth: AuthService, ies: Dict, input: bytes): (o: Outcome)
    ensures |o.rest| <= |input|
    ensures Get(ies, IeImsi).None? ==>
              o == Outcome(Some(ErrorResponse(UpdateLocationError, CauseProtocolError)), [], s, input)
    ensures Get(ies, IeImsi).Some? ==> (o.reply.None? <==> !IsAsciiBytes(Get(ies, IeImsi).value))
    ensures o.reply.None? ==> o == Outcome(None, [], s, input)
    ensures Get(ies, IeImsi).Some? && o.reply.Some? && auth(AsciiDecode(Get(ies, IeImsi).value).value).None? ==>
              o == Outcome(Some(ErrorResponse(UpdateLocationError, CauseSubscriberDataNotAvailable)), [], s, input)
  {
    match Get(ies, IeImsi)
    case None => Outcome(Some(ErrorResponse(UpdateLocationError, CauseProtocolError)), [], s, input)
    case Some(raw) =>
      match AsciiDecode(raw)
      case None => Outcome(None, [], s, input)
      case Some(imsi) => UpdateLocationTry(s, auth, ies, imsi, input)
  }

  // ---------------------------------------------------------------- dispatch

  /** `process_message`: decode, then dispatch on the message type. Update
      Location Result needs no answer; Insert Data Result calls a method the
      class does not define, and the AttributeError is swallowed; any other
      type, and any decoding error, also yields no reply. */
  function ProcessMessage(s: Server, auth: AuthService, message: bytes, input: bytes): (o: Outcome)
    ensures |o.rest| <= |input|
    ensures DecodeMessage(message).None? ==> o == Outcome(None, [], s, input)
    ensures DecodeMessage(message).Some? && DecodeMessage(message).value.msgType != UpdateLocationRequest ==>
              o.written == [] && o.server == s && o.rest == input
    ensures DecodeMessage(message).Some? && DecodeMessage(message).value.msgType !in
              {UpdateLocationRequest, AuthInfoRequest, SubscriberDataRequest, SriSmRequest} ==>
              o == Outcome(None, [], s, input)
    ensures DecodeMessage(message).Some? ==>
              var m := DecodeMessage(message).value;
              && (m.msgType == UpdateLocationRequest ==> o == HandleUpdateLocation(s, auth, m.ies, input))
              && (m.msgType == AuthInfoRequest ==> o.reply == HandleAuthInfo(auth, m.ies))
              && (m.msgType == SubscriberDataRequest ==> o.reply == HandleSubscriberData(auth, m.ies))
              && (m.msgType == SriSmRequest ==> o.reply == HandleSriSm(s, m.ies))
  {
    match DecodeMessage(message)
    case None => Outcome(None, [], s, input)
    case Some(m) =>
      if m.msgType == UpdateLocationRequest then HandleUpdateLocation(s, auth, m.ies, input)
      else if m.msgType == UpdateLocationResult then Outcome(None, [], s, input)
      else if m.msgType == InsertDataResult then Outcome(None, [], s, input)
      else if m.msgType == AuthInfoRequest then Outcome(HandleAuthInfo(auth, m.ies), [], s, input)
      else if m.msgType == SubscriberDataRequest then Outcome(HandleSubscriberData(auth, m.ies), [], s, input)
      else if m.msgType == SriSmRequest then Outcome(HandleSriSm(s, m.ies), [], s, input)
      else Outcome(None, [], s, input)
  }

  // ---------------------------------------------------------------- connection

  /** The end of one pass of the connection loop: go on with the rest of the
      stream, or close the connection. Either way `out` has been written. */
  datatype Step = Continue(out: bytes, server: Server, rest: bytes) | Close(out: bytes, server: Server)

  /** One pass of `handle_connection` after the header and payload were read.
      An empty payload ends the loop. Protocol 0xfe is CCM: PING is answered
      with PONG, ID_REQUEST with the identity, anything else silently. Every
      other protocol carries GSUP; a reply goes out framed with protocol 0xfe,
      and a reply too long for the header's length field raises, which closes
      the connection. */
  function React(s: Server, auth: AuthService, proto: byte, payload: bytes, rest: bytes): (r: Step)
    ensures r.Continue? ==> |r.rest| <= |rest|
    ensures proto == IpaProto && |payload| > 0 ==>
              r == Continue(if payload[0] == CcmPing then PongFrame()
                            else if payload[0] == CcmIdRequest then IdentityResponseFrame()
                            else [], s, rest)
    ensures proto != IpaProto && |payload| > 0 ==> r.server == ProcessMessage(s, auth, payload, rest).server
    ensures proto != IpaProto && |payload| > 0 ==>
              var o := ProcessMessage(s, auth, payload, rest);
              if o.reply.None? || |o.reply.value| == 0 then r == Continue(o.written, o.server, o.rest)
              else if |o.reply.value| >= 0x1_0000 then r == Close(o.written, o.server)
              else r == Continue(o.written + Header(|o.reply.value|, IpaProto).value + o.reply.value, o.server, o.rest)
    ensures |payload| == 0 ==> r == Close([], s)
  {
    if |payload| == 0 then Close([], s)
    else if proto == IpaProto then
      if payload[0] == CcmPing then Continue(PongFrame(), s, rest)
      else if payload[0] == CcmIdRequest then Continue(IdentityResponseFrame(), s, rest)
      else Continue([], s, rest)
    else
      var o := ProcessMessage(s, auth, payload, rest);
      match o.reply
      case None => Continue(o.written, o.server, o.rest)
      case Some(resp) =>
        if |resp| == 0 then Continue(o.written, o.server, o.rest)
        else
          match Frame(resp)
          case None => Close(o.written, o.server)
          case Some(f) => Continue(o.written + f, o.server, o.rest)
  }

  /** `handle_connection`: frames are read and answered until the stream ends,
      a header or payload comes short, or a pass closes the connection. The
      result is everything written and the final server state. */
  function Serve(s: Server, auth: AuthService, input: bytes): (r: (bytes, Server))
    ensures Receive(input).Eof? || Receive(input).Short? ==> r == ([], s)
    ensures Receive(input).Got? ==>
              var g := Receive(input);
              var step := React(s, auth, g.proto, g.payload, g.rest);
              && |step.out| <= |r.0| && r.0[..|step.out|] == step.out
              && (step.Close? ==> r == (step.out, step.server))
              && (step.Continue? ==> r == (step.out + Serve(step.server, auth, step.rest).0, Serve(step.server, auth, step.rest).1))
    decreases |input|
  {
    match Receive(input)
    case Eof => ([], s)
    case Short => ([], s)
    case Got(proto, payload, rest) =>
      match React(s, auth, proto, payload, rest)
      case Close(out, s') => (out, s')
      case Continue(out, s', rest') =>
        var (more, s'') := Serve(s', auth, rest');
        (out + more, s'')
  }

  // ---------------------------------------------------------------- properties

  /** A routing number as the table keeps it: non-empty ASCII that fits an IE. */
  predicate ValidNumber(n: string) {
    0 < |n| < 256 && IsAsciiText(n)
  }

  /** Every stored entry is keyed by an ASCII IMSI that fits an IE and holds
      valid numbers. */
  predicate ValidRouting(s: Server) {
    forall imsi :: imsi in s.routing ==>
      && IsAsciiText(imsi) && |imsi| < 256
      && ValidNumber(s.routing[imsi].vlrNumber)
      && ValidNumber(s.routing[imsi].mscNumber)
      && ValidNumber(s.routing[imsi].sgsnNumber)
  }

  /** The numbers read from a decoded request, or their defaults, are valid. */
  lemma NumberOrDefaultValid(ies: Dict, t: byte, default: string)
    requires Fits(ies) && ValidNumber(default)
    ensures NumberOrDefault(ies, t, default).Some? ==> ValidNumber(NumberOrDefault(ies, t, default).value)
  {
    if Get(ies, t).Some? {
      GetFits(ies, t);
    }
  }

  /** An entry stored from a decoded request is valid. */
  lemma StoredRoutingValid(ies: Dict)
    requires Fits(ies)
    ensures StoredRouting(ies).Some? ==>
              var r := StoredRouting(ies).value;
              ValidNumber(r.vlrNumber) && ValidNumber(r.mscNumber) && ValidNumber(r.sgsnNumber)
  {
    NumberOrDefaultValid(ies, IeVlrNumber, "12345");
    NumberOrDefaultValid(ies, IeMscNumber, "67890");
    NumberOrDefaultValid(ies, IeSgsnNumber, "11111");
  }

  /** Update Location changes at most the entry of the IMSI it was asked
      about, and sets it to the entry built from the request. */
  lemma UpdateLocationTouchesOnlyItsImsi(s: Server, auth: AuthService, ies: Dict, input: bytes)
    ensures var o := HandleUpdateLocation(s, auth, ies, input);
            || o.server == s
            || (&& Get(ies, IeImsi).Some? && IsAsciiBytes(Get(ies, IeImsi).value) && StoredRouting(ies).Some?
                && o.server.routing == s.routing[AsciiDecode(Get(ies, IeImsi).value).value := StoredRouting(ies).value])
  {
  }

  /** Update Location on a decoded request keeps the routing table valid. */
  lemma UpdateLocationKeepsRoutingValid(s: Server, auth: AuthService, ies: Dict, input: bytes)
    requires ValidRouting(s) && Fits(ies)
    ensures ValidRouting(HandleUpdateLocation(s, auth, ies, input).server)
  {
    UpdateLocationTouchesOnlyItsImsi(s, auth, ies, input);
    if HandleUpdateLocation(s, auth, ies, input).server != s {
      GetFits(ies, IeImsi);
      StoredRoutingValid(ies);
    }
  }

  /** Handling one GSUP message keeps the routing table valid. */
  lemma ProcessMessageKeepsRoutingValid(s: Server, auth: AuthService, message: bytes, input: bytes)
    requires ValidRouting(s)
    ensures ValidRouting(ProcessMessage(s, auth, message, input).server)
  {
    var m := DecodeMessage(message);
    if m.Some? && m.value.msgType == UpdateLocationRequest {
      UpdateLocationKeepsRoutingValid(s, auth, m.value.ies, input);
    }
  }

  /** One pass of the connection loop keeps the routing table valid. */
  lemma ReactKeepsRoutingValid(s: Server, auth: AuthService, proto: byte, payload: bytes, rest: bytes)
    requires ValidRouting(s)
    ensures ValidRouting(React(s, auth, proto, payload, rest).server)
  {
    if proto != IpaProto && |payload| > 0 {
      ProcessMessageKeepsRoutingValid(s, auth, payload, rest);
    }
  }

  /** Serving a connection keeps the routing table valid. */
  lemma {:induction false} ServeKeepsRoutingValid(s: Server, auth: AuthService, input: bytes)
    requires ValidRouting(s)
    ensures ValidRouting(Serve(s, auth, input).1)
    decreases |input|
  {
    match Receive(input)
    case Eof =>
    case Short =>
    case Got(proto, payload, rest) =>
      ReactKeepsRoutingValid(s, auth, proto, payload, rest);
      match React(s, auth, proto, payload, rest)
      case Close(out, s') =>
      case Continue(out, s', rest') =>
        ServeKeepsRoutingValid(s', auth, rest');
  }

  /** The error type each handler answers with. */
  function ErrorTypeFor(request: byte): byte
  {
    if request == UpdateLocationRequest then UpdateLocationError
    else if request == AuthInfoRequest then AuthInfoError
    else if request == SubscriberDataRequest then InsertDataError
    else SriSmError
  }

  /** Every handled request without an IMSI is answered with a protocol error
      of the handler's own error type, and nothing else happens. */
  lemma MissingImsiIsProtocolError(s: Server, auth: AuthService, message: bytes, input: bytes)
    requires DecodeMessage(message).Some?
    requires DecodeMessage(message).value.msgType in {UpdateLocationRequest, AuthInfoRequest, SubscriberDataRequest, SriSmRequest}
    requires Get(DecodeMessage(message).value.ies, IeImsi).None?
    ensures ProcessMessage(s, auth, message, input)
            == Outcome(Some(ErrorResponse(ErrorTypeFor(DecodeMessage(message).value.msgType), CauseProtocolError)),
                       [], s, input)
  {
  }

  /** A successful Update Location: the server sends the Insert Data Request,
      reads exactly the framed Insert Data Result, stores the entry built from
      the request and confirms with the IMSI alone. */
  lemma UpdateLocationSucceeds(s: Server, auth: AuthService, ies: Dict, raw: bytes, payload: bytes, rest: bytes)
    requires Get(ies, IeImsi) == Some(raw) && IsAsciiBytes(raw) && |raw| < 256
    requires auth(AsciiDecode(raw).value).Some? && StoredRouting(ies).Some?
    requires 0 < |payload| < 0x1_0000 && payload[0] == InsertDataResult
    ensures var o := HandleUpdateLocation(s, auth, ies, Header(|payload|, IpaProto).value + payload + rest);
            && o.written == InsertDataRequestFrame(AsciiDecode(raw).value).value
            && o.rest == rest
            && o.server.routing == s.routing[AsciiDecode(raw).value := StoredRouting(ies).value]
            && o.reply.Some?
            && DecodeMessage(o.reply.value) == Some(Message(UpdateLocationResult, [(IeImsi, raw)]))
  {
    var imsi := AsciiDecode(raw).value;
    var input := Header(|payload|, IpaProto).value + payload + rest;
    AwaitFramedAnswer(payload, rest);
    var idr := InsertDataRequestFrame(imsi).value;
    assert HandleUpdateLocation(s, auth, ies, input) == UpdateLocationTry(s, auth, ies, imsi, input);
    assert UpdateLocationTry(s, auth, ies, imsi, input) == ConfirmLocation(s, ies, imsi, idr, rest);
    AsciiDecodeEncode(raw);
  }

  /** An answer other than an Insert Data Result is a protocol error, and the
      routing table stays as it was. */
  lemma UpdateLocationRejectsOtherAnswer(s: Server, auth: AuthService, ies: Dict, raw: bytes, payload: bytes, rest: bytes)
    requires Get(ies, IeImsi) == Some(raw) && IsAsciiBytes(raw) && |raw| < 256
    requires auth(AsciiDecode(raw).value).Some?
    requires 0 < |payload| < 0x1_0000 && payload[0] != InsertDataResult
    ensures var o := HandleUpdateLocation(s, auth, ies, Header(|payload|, IpaProto).value + payload + rest);
            o == Outcome(Some(ErrorResponse(UpdateLocationError, CauseProtocolError)),
                         InsertDataRequestFrame(AsciiDecode(raw).value).value, s, rest)
  {
    var imsi := AsciiDecode(raw).value;
    var input := Header(|payload|, IpaProto).value + payload + rest;
    AwaitFramedAnswer(payload, rest);
    assert HandleUpdateLocation(s, auth, ies, input) == UpdateLocationTry(s, auth, ies, imsi, input);
  }

  /** For an IMSI with a stored entry, the routing info answer carries the IMSI
      and the stored MSC and SGSN numbers, in that order, and no MME number. */
  lemma SriSmAnswersStoredImsi(s: Server, ies: Dict)
    requires ValidRouting(s) && Get(ies, IeImsi).Some? && IsAsciiBytes(Get(ies, IeImsi).value)
    requires AsciiDecode(Get(ies, IeImsi).value).value in s.routing
    ensures var raw := Get(ies, IeImsi).value;
            var route := s.routing[AsciiDecode(raw).value];
            && HandleSriSm(s, ies).Some?
            && DecodeMessage(HandleSriSm(s, ies).value)
               == Some(Message(MsgSendRoutingInfoForSmResult,
                               [(IeImsi, raw), (IeMscNumber, AsciiEncode(route.mscNumber).value),
                                (IeSgsnNumber, AsciiEncode(route.sgsnNumber).value)]))
  {
    var raw := Get(ies, IeImsi).value;
    var imsi := AsciiDecode(raw).value;
    var route := s.routing[imsi];
    AsciiDecodeEncode(raw);
    assert [(IeImsi, raw)] + IfGiven(IeMscNumber, AsciiEncode(route.mscNumber).value)
             + IfGiven(IeSgsnNumber, AsciiEncode(route.sgsnNumber).value)
           == [(IeImsi, raw), (IeMscNumber, AsciiEncode(route.mscNumber).value),
               (IeSgsnNumber, AsciiEncode(route.sgsnNumber).value)];
  }

  /** After a successful Update Location, a routing info request for the same
      IMSI is answered with the MSC and SGSN numbers that were stored. */
  lemma SriSmAfterUpdateLocation(s: Server, auth: AuthService, ies: Dict, raw: bytes, payload: bytes,
                                 rest: bytes, query: Dict)
    requires ValidRouting(s) && Fits(ies)
    requires Get(ies, IeImsi) == Some(raw) && IsAsciiBytes(raw)
    requires auth(AsciiDecode(raw).value).Some? && StoredRouting(ies).Some?
    requires 0 < |payload| < 0x1_0000 && payload[0] == InsertDataResult
    requires Get(query, IeImsi) == Some(raw)
    ensures var s' := HandleUpdateLocation(s, auth, ies, Header(|payload|, IpaProto).value + payload + rest).server;
            var r := HandleSriSm(s', query);
            && r.Some?
            && DecodeMessage(r.value)
               == Some(Message(MsgSendRoutingInfoForSmResult,
                               [(IeImsi, raw), (IeMscNumber, AsciiEncode(StoredRouting(ies).value.mscNumber).value),
                                (IeSgsnNumber, AsciiEncode(StoredRouting(ies).value.sgsnNumber).value)]))
  {
    var input := Header(|payload|, IpaProto).value + payload + rest;
    GetFits(ies, IeImsi);
    UpdateLocationSucceeds(s, auth, ies, raw, payload, rest);
    UpdateLocationKeepsRoutingValid(s, auth, ies, input);
    var s' := HandleUpdateLocation(s, auth, ies, input).server;
    var imsi := AsciiDecode(raw).value;
    assert imsi in s'.routing && s'.routing[imsi] == StoredRouting(ies).value;
    SriSmAnswersStoredImsi(s', query);
  }

  /** A GSUP reply leaves the server as one frame of protocol 0xfe that reads
      back as exactly the reply, after whatever the handler wrote itself. */
  lemma GsupReplyFramed(s: Server, auth: AuthService, proto: byte, payload: bytes, rest: bytes)
    requires proto != IpaProto && |payload| > 0
    requires ProcessMessage(s, auth, payload, rest).reply.Some?
    requires 0 < |ProcessMessage(s, auth, payload, rest).reply.value| < 0x1_0000
    ensures var o := ProcessMessage(s, auth, payload, rest);
            var r := React(s, auth, proto, payload, rest);
            && r == Continue(r.out, o.server, o.rest)
            && r.out[..|o.written|] == o.written
            && Receive(r.out[|o.written|..]) == Got(IpaProto, o.reply.value, [])
  {
    var o := ProcessMessage(s, auth, payload, rest);
    var resp := o.reply.value;
    ReceiveFrame(IpaProto, resp, []);
    var f := Header(|resp|, IpaProto).value + resp;
    assert f + [] == f;
    assert (o.written + f)[|o.written|..] == f;
  }

  /** A GSUP frame on a connection: what the handler wrote comes first; with no
      reply the server goes on with the rest of the stream the handler left;
      a reply too long for a frame closes the connection, and nothing after it
      is read. */
  lemma ServeGsupFrame(s: Server, auth: AuthService, proto: byte, payload: bytes, rest: bytes)
    requires proto != IpaProto && 0 < |payload| < 0x1_0000
    ensures var o := ProcessMessage(s, auth, payload, rest);
            var r := Serve(s, auth, Header(|payload|, proto).value + payload + rest);
            && |o.written| <= |r.0| && r.0[..|o.written|] == o.written
            && (o.reply.None? ==> r == (o.written + Serve(o.server, auth, o.rest).0, Serve(o.server, auth, o.rest).1))
            && (o.reply.Some? && |o.reply.value| >= 0x1_0000 ==> r == (o.written, o.server))
  {
    ReceiveFrame(proto, payload, rest);
    var o := ProcessMessage(s, auth, payload, rest);
    var step := React(s, auth, proto, payload, rest);
    assert step.out[..|o.written|] == o.written by {
      if o.reply.Some? && 0 < |o.reply.value| < 0x1_0000 {
        assert step.out == o.written + (Header(|o.reply.value|, IpaProto).value + o.reply.value);
      }
    }
  }
}

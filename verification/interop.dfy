/** What happens when the test client talks to the HLR server, in the two
    programs' own terms. The CCM handshake works. GSUP does not: the client
    frames its requests with protocol 0xfe, which the server takes for CCM,
    and the two GSUP encodings disagree about the length field. */
module Interop {
  import opened Wrappers
  import opened Bytes
  import opened Tlv
  import opened Ipa
  import opened GsupCodec
  import opened HlrServer
  import TestClient

  /** A connection carrying one CCM frame gets the server's CCM answer, and
      nothing else happens. */
  lemma ServeOneCcmFrame(s: Server, auth: AuthService, payload: bytes, rest: bytes)
    requires 0 < |payload| < 0x1_0000
    ensures Serve(s, auth, Header(|payload|, IpaProto).value + payload + rest)
            == var (more, s') := Serve(s, auth, rest);
               (CcmAnswer(payload[0]) + more, s')
  {
    ReceiveFrame(IpaProto, payload, rest);
  }

  /** The server's answer to a CCM message of the given type. */
  function CcmAnswer(t: byte): bytes
  {
    if t == CcmPing then PongFrame() else if t == CcmIdRequest then IdentityResponseFrame() else []
  }

  /** The end of the client's handshake (identity acknowledgement, ping) is
      answered with a pong alone. */
  lemma HandshakeTail(s: Server, auth: AuthService)
    ensures Serve(s, auth, TestClient.CcmIdAckFrame() + TestClient.CcmPingFrame()) == (PongFrame(), s)
  {
    var b, c := TestClient.CcmIdAckFrame(), TestClient.CcmPingFrame();
    assert b + c == Header(1, IpaProto).value + [CcmIdAck] + c;
    ServeOneCcmFrame(s, auth, [CcmIdAck], c);
    assert CcmAnswer(CcmIdAck) == [];
    PingAnswered(s, auth);
    assert Serve(s, auth, b + c) == ([] + Serve(s, auth, c).0, s);
    assert [] + PongFrame() == PongFrame();
  }

  /** The client's ping alone is answered with a pong. */
  lemma PingAnswered(s: Server, auth: AuthService)
    ensures Serve(s, auth, TestClient.CcmPingFrame()) == (PongFrame(), s)
  {
    var c := TestClient.CcmPingFrame();
    assert c == Header(1, IpaProto).value + [CcmPing] + [];
    ServeOneCcmFrame(s, auth, [CcmPing], []);
    assert Serve(s, auth, []) == ([], s);
    assert PongFrame() + [] == PongFrame();
  }

  /** The client's handshake (identity request, identity acknowledgement,
      ping) is answered with the identity response and a pong, and leaves the
      routing table alone. */
  lemma ClientHandshake(s: Server, auth: AuthService)
    ensures Serve(s, auth, TestClient.CcmIdRequestFrame() + TestClient.CcmIdAckFrame() + TestClient.CcmPingFrame())
            == (IdentityResponseFrame() + PongFrame(), s)
  {
    var a, b, c := TestClient.CcmIdRequestFrame(), TestClient.CcmIdAckFrame(), TestClient.CcmPingFrame();
    var bc := b + c;
    assert a + b + c == a + bc;
    var req := [CcmIdRequest] + TestClient.IdRequestTags;
    assert a == Header(|req|, IpaProto).value + req;
    assert a + bc == Header(|req|, IpaProto).value + req + bc;
    ServeOneCcmFrame(s, auth, req, bc);
    assert CcmAnswer(req[0]) == IdentityResponseFrame();
    HandshakeTail(s, auth);
    assert Serve(s, auth, a + bc) == (IdentityResponseFrame() + PongFrame(), s);
  }

  /** A GSUP request as the client sends it (framed with protocol 0xfe) is
      taken for CCM: the server answers an Update Location request (type 0x04,
      the number of ID_REQUEST) with its identity, a request of type 0x00 with
      a pong, and every other request not at all. The routing table never
      changes. */
  lemma ClientRequestTakenForCcm(s: Server, auth: AuthService, t: byte, ies: Dict)
    requires TestClient.Encode(t, ies).Some? && |TestClient.Encode(t, ies).value| < 0x1_0000
    ensures Serve(s, auth, Frame(TestClient.Encode(t, ies).value).value) == (CcmAnswer(t), s)
  {
    var m := TestClient.Encode(t, ies).value;
    assert Frame(m).value == Header(|m|, IpaProto).value + m + [];
    ServeOneCcmFrame(s, auth, m, []);
    assert Serve(s, auth, []) == ([], s);
    assert CcmAnswer(t) + [] == CcmAnswer(t);
  }

  /** The IMSI the client's tests use. */
  const TestImsi: string := "001017890123453"

  /** The server's decoder reads the client's encoding of an authentication
      request for the test IMSI as a message whose only IE has type 0x30 (the
      character '0') and holds the last thirteen IMSI digits: the client's IMSI
      header is taken for the length field, the first two digits for an IE
      header whose length runs past the end. The server sees no IMSI. */
  lemma ServerMisreadsClientRequest()
    ensures AsciiEncode(TestImsi).Some?
    ensures var m := TestClient.Encode(TestClient.MsgSendAuthInfoRequest,
                                       [(TestClient.IeImsi, AsciiEncode(TestImsi).value)]);
            && m.Some?
            && DecodeMessage(m.value)
               == Some(Message(TestClient.MsgSendAuthInfoRequest, [(0x30, AsciiEncode(TestImsi[2..]).value)]))
            && Get(DecodeMessage(m.value).value.ies, GsupConstants.IeImsi).None?
  {
    assert IsAsciiText(TestImsi);
    var imsi := AsciiEncode(TestImsi).value;
    var ies := [(TestClient.IeImsi, imsi)];
    assert EncodeIes(ies).value == [TestClient.IeImsi, 15] + imsi;
    var data := TestClient.Encode(TestClient.MsgSendAuthInfoRequest, ies).value;
    assert data == [TestClient.MsgSendAuthInfoRequest, TestClient.IeImsi, 15] + imsi;
    assert data[3] == 0x30 && data[4] == 0x30;
    DecodeLastCut(data, 3, []);
    AsciiEncodeSuffix(TestImsi, 2);
    assert data[5..] == imsi[2..];
  }

  /** The client's decoder reads a server message whose IEs take fewer than
      256 bytes with one extra IE in front: the low length byte becomes its
      type and the high one, zero, its length. */
  lemma ClientReadsServerLengthAsIe(t: byte, ies: Dict)
    requires Distinct(ies) && Fits(ies) && Size(ies) < 256 && Get(ies, Size(ies)).None?
    ensures EncodeMessage(t, ies).Some?
    ensures TestClient.Decode(EncodeMessage(t, ies).value) == Some(Message(t, [(Size(ies) as byte, [])] + ies))
  {
    var n: byte := Size(ies);
    var data := EncodeMessage(t, ies).value;
    assert data[1] == n && data[2] == 0;
    TestClient.DecodeStep(data, 1, []);
    assert data[3..3] == [];
    assert Put([], n, data[3..3]) == [(n, [])];
    PrependFresh(n, [], ies);
    EncodedAt(t, ies);
    TestClient.DecodeEncodedIes(data, 3, ies, [(n, [])]);
  }
}

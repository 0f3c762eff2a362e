/** The GSUP test client's own codec and CCM frames. Its wire format differs
    from the HLR's: after the type byte come the IEs directly, with no length
    field. Its decoder never fails on non-empty data: at the first IE that does
    not fit it stops and keeps what it has read. */
module TestClient {
  import opened Wrappers
  import opened Bytes
  import opened Tlv
  import opened Ipa
  import GsupCodec

  // The client's message numbers (they agree with the HLR server's, not with
  // the codec's constant table).
  const MsgUpdateLocationRequest: byte := 0x04
  const MsgUpdateLocationResult: byte := 0x06
  const MsgUpdateLocationError: byte := 0x05
  const MsgInsertDataRequest: byte := 0x10
  const MsgInsertDataResult: byte := 0x12
  const MsgSendAuthInfoRequest: byte := 0x08
  const MsgSendAuthInfoResult: byte := 0x0A
  const MsgSendSubscriberDataRequest: byte := 0x10
  const MsgSendSubscriberDataResult: byte := 0x11
  const MsgSendRoutingInfoForSmRequest: byte := 0x14
  const MsgSendRoutingInfoForSmResult: byte := 0x15

  // The client's IE numbers; VLR and MSC number differ from the codec's table.
  const IeImsi: byte := 0x01
  const IeCause: byte := 0x02
  const IeRand: byte := 0x04
  const IeAutn: byte := 0x09
  const IeMsisdn: byte := 0x0C
  const IeVlrNumber: byte := 0x10
  const IeMscNumber: byte := 0x11

  // ---------------------------------------------------------------- CCM frames

  /** `_create_ccm_ping`. */
  function CcmPingFrame(): (r: bytes)
    ensures r == [0x00, 0x01, 0xfe, 0x00]
    ensures Receive(r) == Got(IpaProto, [CcmPing], [])
  {
    ReceiveFrame(IpaProto, [CcmPing], []);
    Frame([CcmPing]).value
  }

  /** The eight identity tags the client asks for, in the order it lists them. */
  const IdRequestTags: bytes := [CcmTagUnitId, CcmTagMacAddress, CcmTagLocation, CcmTagUnitType,
                                 CcmTagEquipmentVersion, CcmTagSoftwareVersion, CcmTagUnitName,
                                 CcmTagSerialNumber]

  /** `_create_ccm_id_request`: the ID_REQUEST type and the eight tags, nine
      payload bytes in all. */
  function CcmIdRequestFrame(): (r: bytes)
    ensures r == [0x00, 0x09, 0xfe, 0x04, 0x08, 0x07, 0x02, 0x03, 0x04, 0x05, 0x01, 0x00]
    ensures Receive(r) == Got(IpaProto, [CcmIdRequest] + IdRequestTags, [])
  {
    ReceiveFrame(IpaProto, [CcmIdRequest] + IdRequestTags, []);
    Frame([CcmIdRequest] + IdRequestTags).value
  }

  /** `_create_ccm_id_ack`. */
  function CcmIdAckFrame(): (r: bytes)
    ensures r == [0x00, 0x01, 0xfe, 0x06]
    ensures Receive(r) == Got(IpaProto, [CcmIdAck], [])
  {
    ReceiveFrame(IpaProto, [CcmIdAck], []);
    Frame([CcmIdAck]).value
  }

  // ---------------------------------------------------------------- codec

  /** `_encode_message`: the type byte, then each IE as type, length, value.
      `bytearray.extend` fails (ValueError) on a length of 256 or more. */
  function Encode(t: byte, ies: Dict): (r: Option<bytes>)
    ensures r.Some? <==> Fits(ies)
    ensures r.Some? ==> |r.value| == 1 + Size(ies) && r.value[0] == t && EncodeIes(ies) == Some(r.value[1..])
  {
    match EncodeIes(ies)
    case None => None
    case Some(payload) => Some([t] + payload)
  }

  /** The IE loop of `_decode_message` from `offset` on: it stops, keeping
      `acc`, at the end of the data, at a header of a single byte, or at a value
      that overruns the data. */
  function DecodeIesFrom(data: bytes, offset: nat, acc: Dict): Dict
    decreases |data| - offset
  {
    if offset + 2 > |data| || offset + 2 + data[offset + 1] > |data| then acc
    else
      var n := data[offset + 1];
      DecodeIesFrom(data, offset + 2 + n, Put(acc, data[offset], data[offset + 2..offset + 2 + n]))
  }

  /** `_decode_message`: empty data raises RuntimeError; anything else decodes. */
  function Decode(data: bytes): (r: Option<Message>)
    ensures r.None? <==> |data| == 0
    ensures r.Some? ==> r.value.msgType == data[0]
  {
    if |data| == 0 then None else Some(Message(data[0], DecodeIesFrom(data, 1, [])))
  }

  /** `_decode_message` as the source writes it, a while loop with two breaks. */
  method DecodeLoop(data: bytes) returns (r: Option<Message>)
    ensures r == Decode(data)
  {
    if |data| == 0 {
      return None;
    }
    var ies: Dict := [];
    var offset := 1;
    while offset < |data|
      invariant DecodeIesFrom(data, offset, ies) == DecodeIesFrom(data, 1, [])
      decreases |data| - offset
    {
      if offset + 2 > |data| {
        break;
      }
      var ieLength := data[offset + 1];
      if offset + 2 + ieLength > |data| {
        break;
      }
      ies := Put(ies, data[offset], data[offset + 2..offset + 2 + ieLength]);
      offset := offset + 2 + ieLength;
    }
    return Some(Message(data[0], ies));
  }

  /** One step of the decoder over an IE that lies wholly inside the data. */
  lemma DecodeStep(data: bytes, offset: nat, acc: Dict)
    requires offset + 2 <= |data| && offset + 2 + data[offset + 1] <= |data|
    ensures var n := data[offset + 1];
            DecodeIesFrom(data, offset, acc)
            == DecodeIesFrom(data, offset + 2 + n, Put(acc, data[offset], data[offset + 2..offset + 2 + n]))
  {
  }

  /** Decoding data that holds the encoded IEs of `ies` at `offset` appends
      them to what was decoded before, provided no type repeats. */
  lemma {:induction false} DecodeEncodedIes(data: bytes, offset: nat, ies: Dict, acc: Dict)
    requires Fits(ies) && Distinct(acc + ies) && GsupCodec.IsAt(data, offset, EncodeIes(ies).value)
    ensures DecodeIesFrom(data, offset, acc) == DecodeIesFrom(data, offset + Size(ies), acc + ies)
    decreases |ies|
  {
    if |ies| == 0 {
      assert acc + ies == acc;
    } else {
      var next := offset + 2 + |ies[0].1|;
      GsupCodec.EncodedHead(data, offset, ies);
      DecodeStep(data, offset, acc);
      GsupCodec.FreshHead(acc, ies);
      var acc' := acc + [ies[0]];
      assert DecodeIesFrom(data, offset, acc) == DecodeIesFrom(data, next, acc');
      DecodeEncodedIes(data, next, ies[1..], acc');
    }
  }

  /** Bytes that hold no complete IE at their start: nothing, a lone byte, or a
      header whose length runs past the end. */
  predicate NoCompleteIe(tail: bytes) {
    |tail| < 2 || 2 + tail[1] > |tail|
  }

  /** Whatever incomplete bytes follow the encoded IEs, decoding stops there
      and keeps every IE before them. */
  lemma DecodeKeepsCompleteIes(t: byte, ies: Dict, tail: bytes)
    requires Distinct(ies) && Fits(ies) && NoCompleteIe(tail)
    ensures Decode(Encode(t, ies).value + tail) == Some(Message(t, ies))
  {
    var enc := Encode(t, ies).value;
    var data := enc + tail;
    assert data[..|enc|] == enc;
    assert data[1..1 + Size(ies)] == enc[1..];
    GsupCodec.IsAtSlice(data, 1, 1 + Size(ies));
    assert [] + ies == ies;
    DecodeEncodedIes(data, 1, ies, []);
    var o := 1 + Size(ies);
    if o + 2 <= |data| {
      assert data[o + 1] == tail[1];
    }
  }

  /** Round trip: the client decodes what it encodes, in order, whenever the IE
      types are distinct and encoding succeeded. */
  lemma DecodeEncode(t: byte, ies: Dict)
    requires Distinct(ies)
    ensures Encode(t, ies).Some? ==> Decode(Encode(t, ies).value) == Some(Message(t, ies))
  {
    if Encode(t, ies).Some? {
      DecodeKeepsCompleteIes(t, ies, []);
      assert Encode(t, ies).value + [] == Encode(t, ies).value;
    }
  }
}

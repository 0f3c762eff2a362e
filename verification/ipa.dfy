/** IPA framing, shared by the HLR server and the test client (both define the
    same `_create_ipa_header`): a frame is a 16-bit big-endian payload length,
    a protocol byte and the payload. Protocol 0xfe carries CCM, the connection
    management messages PING, PONG and the identity exchange. */
module Ipa {
  import opened Wrappers
  import opened Bytes

  const IpaProto: byte := 0xfe

  // CCM message types
  const CcmPing: byte := 0x00
  const CcmPong: byte := 0x01
  const CcmIdRequest: byte := 0x04
  const CcmIdResponse: byte := 0x05
  const CcmIdAck: byte := 0x06

  // CCM identity tags
  const CcmTagSerialNumber: byte := 0x00
  const CcmTagUnitName: byte := 0x01
  const CcmTagLocation: byte := 0x02
  const CcmTagUnitType: byte := 0x03
  const CcmTagEquipmentVersion: byte := 0x04
  const CcmTagSoftwareVersion: byte := 0x05
  const CcmTagMacAddress: byte := 0x07
  const CcmTagUnitId: byte := 0x08

  /** `int.from_bytes(header[:2], 'big')`, the reading side of the length field. */
  function LengthOf(hi: byte, lo: byte): nat
  {
    hi * 256 + lo
  }

  /** `_create_ipa_header(length, proto)`: `length.to_bytes(2, 'big')` raises
      OverflowError from 65536 on. */
  function Header(length: nat, proto: byte): (r: Option<bytes>)
    ensures r.Some? <==> length < 0x1_0000
    ensures r.Some? ==> |r.value| == 3 && LengthOf(r.value[0], r.value[1]) == length && r.value[2] == proto
  {
    if length < 0x1_0000 then Some(BE16(length) + [proto]) else None
  }

  /** `_create_ipa_header(len(payload)) + payload`: a payload framed with the
      default protocol 0xfe. */
  function Frame(payload: bytes): Option<bytes>
  {
    match Header(|payload|, IpaProto)
    case None => None
    case Some(h) => Some(h + payload)
  }

  function Min(a: int, b: int): int {
    if a <= b then a else b
  }

  /** `reader.read(n)` once all bytes have arrived: at most `n` bytes from the
      front of the stream, and the rest of the stream. */
  function Read(input: bytes, n: nat): (r: (bytes, bytes))
    ensures r.0 + r.1 == input
    ensures |r.0| == if n <= |input| then n else |input|
  {
    if n <= |input| then (input[..n], input[n..]) else (input, [])
  }

  /** How reading one frame ends: the stream ran out before a header, a header
      or payload came short, or a protocol byte and a payload were read. */
  datatype Received = Eof | Short | Got(proto: byte, payload: bytes, rest: bytes)

  /** Read a three-byte header and then the payload length it announces, as both
      peers do. An empty first read is the end of the stream; a header of one
      or two bytes, or an empty payload, is short. */
  function Receive(input: bytes): (r: Received)
    ensures r == Eof <==> |input| == 0
    ensures r == Short <==> 0 < |input| < 3 || (|input| >= 3 && (LengthOf(input[0], input[1]) == 0 || |input| == 3))
    ensures r.Got? ==> && |input| > 3 && r.proto == input[2] && r.payload + r.rest == input[3..]
                        && |r.payload| == Min(LengthOf(input[0], input[1]), |input| - 3) > 0
  {
    var (header, rest) := Read(input, 3);
    if |header| == 0 then Eof
    else if |header| < 3 then Short
    else
      var (payload, rest') := Read(rest, LengthOf(header[0], header[1]));
      if |payload| == 0 then Short
      else Got(header[2], payload, rest')
  }

  /** Receiving a framed payload gives back the payload and protocol, and
      leaves the stream after it untouched. */
  lemma ReceiveFrame(proto: byte, payload: bytes, rest: bytes)
    requires 0 < |payload| < 0x1_0000
    ensures Receive(Header(|payload|, proto).value + payload + rest) == Got(proto, payload, rest)
  {
    var h := Header(|payload|, proto).value;
    var input := h + payload + rest;
    assert input[..3] == h && input[3..] == payload + rest;
    assert (payload + rest)[..|payload|] == payload;
    assert (payload + rest)[|payload|..] == rest;
  }
}

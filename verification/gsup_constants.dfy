/** The values of the GSUP constant tables (`MessageType`, `IEType`, `Cause`,
    `SubscriberStatus`, `NetworkAccessMode`) that the codec builders and the
    HLR handlers use. The HLR server keeps its own, different, message-type
    numbers; those live in module HlrServer. */
module GsupConstants {
  import opened Bytes

  // MessageType
  const MsgSendAuthInfoRequest: byte := 0x0A
  const MsgSendAuthInfoResult: byte := 0x0B
  const MsgSendSubscriberDataRequest: byte := 0x10
  const MsgSendSubscriberDataResult: byte := 0x11
  const MsgSendRoutingInfoForSmRequest: byte := 0x14
  const MsgSendRoutingInfoForSmResult: byte := 0x15

  // IEType
  const IeImsi: byte := 0x01
  const IeCause: byte := 0x02
  const IeRand: byte := 0x04
  const IeAutn: byte := 0x09
  const IeMsisdn: byte := 0x0C
  const IeSubscriberStatus: byte := 0x0D
  const IeNetworkAccessMode: byte := 0x0E
  const IeBearerServices: byte := 0x0F
  const IeTeleservices: byte := 0x10
  const IeVlrNumber: byte := 0x11
  const IeMscNumber: byte := 0x12
  const IeSgsnNumber: byte := 0x13
  const IeSmRpDa: byte := 0x15
  const IeSmRpOa: byte := 0x16
  const IeSubscriberDataFlags: byte := 0x18
  const IeGsmBearerCapabilities: byte := 0x19

  // Cause
  const CauseImsiUnknown: byte := 0x02
  const CauseSubscriberDataNotAvailable: byte := 0x1A
  const CauseSmsRoutingError: byte := 0x1B
  const CauseProtocolError: byte := 0x6F

  // SubscriberStatus and NetworkAccessMode
  const ServiceGranted: byte := 0x00
  const PacketAndCircuit: byte := 0x00
}

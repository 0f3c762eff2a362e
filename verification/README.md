# pyhlr GSUP/IPA core and the OCS Diameter handler in Dafny

This project models the message logic of `pyhlr`, a small Home Location
Register (HLR). The HLR speaks GSUP over IPA framing. The project also models
the answer assembly of the `ocs` Diameter handler. Everything is pure: byte
strings are `seq<byte>` with `byte = x: int | 0 <= x < 256`. IE dictionaries are
association lists with Python `dict` update semantics: an existing key keeps its
position, and a new key goes to the end. A Python exception raised out of a
modelled function becomes `None`. An exception that a handler or the connection
loop catches becomes what it leads to there:
- an error reply, `Some(ErrorResponse(..))`, in the four request handlers;
- `Ipa.Short` for a header of one or two bytes;
- `Answer.Lost` while waiting for the Insert Data answer;
- `Close` for a reply too long to frame.

Modules, in dependency order:

- `Wrappers`: `Option`.
- `Bytes`:
  - 16-bit big- and little-endian fields;
  - ASCII encoding and decoding;
  - UTF-8 encoding;
  - `bytes.fromhex` and a hex renderer as its partner.
- `Tlv`: the IE dictionary (`Get`, `Put`) and the type/length/value layout of one IE.
- `GsupConstants`: the values of `constants.py` that the core uses.
- `GsupCodec`: the server-side codec.
  - A message is the type, a little-endian 16-bit length, then the IEs.
  - The module also holds the message builders.
- `Ipa`: IPA framing, shared by both peers.
  - A frame is a big-endian 16-bit length, a protocol byte, then the payload.
  - `Receive` reads one frame from a byte stream.
- `TestClient`: the test client's own codec and its CCM frames. Its wire format has no length field.
- `HlrServer`: the server.
  - **Frame reaction.** `React` is the reaction to one frame.
  - **Dispatch.** `ProcessMessage` is the GSUP dispatch, which sends each request to one of the four handlers.
  - **Connection.** `Serve` runs a whole connection.
    - The connection is the byte stream the peer sends.
    - The result is everything the server writes, plus the final routing table.
    - Update Location reads the peer's Insert Data answer from the same stream.
  - **Authentication service.** It is an oracle of type `string -> Option<AuthData>`.
- `Interop`: what happens when the test client's bytes reach the server.
- `Ocs`: the `diameterMessage` handler. It routes on the command name and appends a fixed AVP tree to the prepared answer body.
  - AVP identifiers stay unresolved, as `Name(...)` or `Code(...)`.
  - `Unit-Value` is a pair of integers (section 8.8 of RFC 4006).

## How the two GSUP peers disagree

These facts hold of the code as written. The lemmas that state them are listed in the table.

- **No length field from the client.** The test client writes GSUP messages without the 16-bit length field. The server's decoder skips three bytes regardless of content.
  - The client's first IE header is therefore swallowed (`Interop.ServerMisreadsClientRequest`).
  - In the other direction, the client reads the server's length field as an extra IE (`Interop.ClientReadsServerLengthAsIe`).
- **GSUP framed as CCM.** The client frames GSUP with the default protocol 0xfe, which the server handles as CCM (`Interop.ClientRequestTakenForCcm`).
  - An Update Location request (type 0x04, the value of ID_REQUEST) is answered with the identity response.
  - Other requests get no answer, except a type-0x00 message, which gets a pong.
- **Subscriber-data success type.** The success reply is built with type 0x11 from `constants.py`. This equals the server's own `MSG_INSERT_DATA_ERROR`.
- **Authentication success type.** The success reply uses 0x0B from `constants.py`. The server's own unused constant says 0x0A.
- **Missing MME number.** `IEType` has no `MME_NUMBER`. `create_send_routing_info_for_sm_response` therefore fails whenever it is given an MME number; the server never gives one.
- **Undefined Insert Data handler.** `process_message` calls `handle_insert_data_result` on type 0x12. The class does not define it. The resulting AttributeError is caught, so that type gets no reply.
- **Client IE numbers.** The client numbers VLR and MSC as 0x10 and 0x11. The codec numbers them 0x11 and 0x12.

The natural intent cannot be picked from the code alone, so none of these is listed as a finding. For example, it is not clear whether the length field or its absence is the intended format.

## Model

| member | source | states |
|---|---|---|
| Bytes.BE16 | pyhlr/src/hlr/server.py:63-65 | the two bytes read back big-endian give the length |
| Bytes.LE16 | pyhlr/src/gsup/codec.py:13-17 | the two bytes read back little-endian give the length (`Int16ul`) |
| Bytes.AsciiEncode | pyhlr/src/gsup/codec.py:78 | `encode('ascii')` succeeds exactly on text below 128 and keeps the length |
| Bytes.AsciiDecode | pyhlr/src/hlr/server.py:212 | `decode('ascii')` succeeds exactly on bytes below 128 and keeps the length |
| Bytes.AsciiDecodeEncode | pyhlr/src/hlr/server.py:212 | re-encoding a decoded IMSI gives back the received bytes |
| Bytes.AsciiEncodeDecode | pyhlr/src/gsup/codec.py:78 | partner of `Bytes.AsciiEncode`: decoding an encoded ASCII text gives it back |
| Bytes.Utf8Char | pyhlr/src/hlr/server.py:71 | one code point takes 1 to 4 bytes, one byte exactly for ASCII, high bytes otherwise |
| Bytes.Utf8NoNul | pyhlr/src/hlr/server.py:70-72 | UTF-8 of text without NUL holds no zero byte, so the terminator is unambiguous |
| Bytes.Utf8OfAscii | pyhlr/src/hlr/server.py:71 | on ASCII text UTF-8 equals ASCII |
| Bytes.FromHex | pyhlr/src/hlr/server.py:222-223 | `fromhex` yields at most one byte per two characters, and nothing for empty text |
| Bytes.ToHex | pyhlr/src/hlr/server.py:222-223 | the hex rendering takes two digits per byte |
| Bytes.FromHexToHex | pyhlr/src/hlr/server.py:222-223 | `fromhex` inverts the hex rendering of every byte string |
| Tlv.GetNone | pyhlr/src/hlr/server.py:206 | `k not in ies` exactly when no entry carries `k` |
| Tlv.PutGet | pyhlr/src/gsup/codec.py:60 | after `ies[k] = v`, `k` maps to `v` and every other key is unchanged |
| Tlv.PutNew | pyhlr/src/gsup/codec.py:60 | a new key is appended at the end (insertion order) |
| Tlv.PutExisting | pyhlr/src/gsup/codec.py:60 | an existing key keeps its position; only its value may change |
| Tlv.PutWellFormed | pyhlr/src/gsup/codec.py:59-60 | updating keeps keys distinct and values under 256 bytes |
| Tlv.GetDistinct | pyhlr/src/gsup/codec.py:33 | partner of `Tlv.Get`: in a dict without repeated keys every entry is found by its key |
| Tlv.GetFits | pyhlr/src/hlr/server.py:370-372 | a value fetched from a decoded dict fits one length byte |
| Tlv.SizeBound | pyhlr/src/gsup/codec.py:33-35 | each encoded IE takes at most 257 bytes |
| Tlv.PutKeys | pyhlr/src/gsup/codec.py:60 | after `ies[k] = v` the keys keep their order, with `k` appended when it is new |
| Tlv.PutAllGet | pyhlr/src/gsup/codec.py:59-60 | after storing a sequence of entries one by one, every key maps to its last entry's value; keys without an entry keep theirs |
| Tlv.PutAllKeys | pyhlr/src/gsup/codec.py:59-60 | after storing a sequence of entries, the old keys keep their order and the new ones follow in the order of their first occurrence |
| Tlv.PutAllFresh | pyhlr/src/gsup/codec.py:59-60 | storing entries whose types are new and distinct just appends them, so the fold of `ies[k] = v` agrees with plain concatenation |
| Tlv.EncodeIe | pyhlr/src/gsup/codec.py:66-72 | `_encode_ie` succeeds exactly below 256 bytes and yields type, length, value |
| Tlv.EncodeIes | pyhlr/src/gsup/codec.py:33-35 | the IE payload exists exactly when every value fits, and its length is the summed IE sizes |
| GsupCodec.EncodeMessage | pyhlr/src/gsup/codec.py:27-42 | the message is the type, LE16 of the payload length, then the encoded IEs; it fails exactly on an over-long value or payload |
| GsupCodec.DecodeMessage | pyhlr/src/gsup/codec.py:44-64 | fewer than 3 bytes fail; a result carries the first byte as type and a dict with distinct keys and fitting values |
| GsupCodec.DecodedIesWellFormed | pyhlr/src/gsup/codec.py:54-62 | the decoding loop keeps keys distinct and values fitting |
| GsupCodec.DecodeMessageLoop | pyhlr/src/gsup/codec.py:44-64 | the while loop over the offset computes the decoder's result |
| GsupCodec.DecodeLastCut | pyhlr/src/gsup/codec.py:59-62 | an IE whose length runs past the end takes the bytes that are there |
| GsupCodec.DecodeEncodedIes | pyhlr/src/gsup/codec.py:54-62 | encoded distinct IEs are decoded back and appended in order |
| GsupCodec.DecodeEncode | pyhlr/src/gsup/codec.py:27-64 | round trip: decoding an encoded message gives back its type and IEs in order |
| GsupCodec.DecodeIesReadsSuffix | pyhlr/src/gsup/codec.py:52-62 | the decoding loop depends only on the bytes from its offset on |
| GsupCodec.HeaderLengthIgnored | pyhlr/src/gsup/codec.py:47-54 | any two length bytes give the same decoding result |
| GsupCodec.DecodeEncodedEntries | pyhlr/src/gsup/codec.py:54-62 | decoding the encoded entries of any sequence, repeated types included, stores them one after another |
| GsupCodec.RepeatedIesDecoded | pyhlr/src/gsup/codec.py:54-62 | for any sequence of IEs, repeats included, the decoded dict lists each type once in the order of its first occurrence and maps it to its last value |
| GsupCodec.RepeatedIeTakesLastValue | pyhlr/src/gsup/codec.py:59-60 | a concrete instance: type `k`, then `j`, then `k` again decodes to `k` first with the last value, then `j` |
| GsupCodec.ShortLastIeIsCut | pyhlr/src/gsup/codec.py:54-62 | a last IE that overruns the data decodes, with no error, to the bytes present |
| GsupCodec.TrailingByteFails | pyhlr/src/gsup/codec.py:55 | one byte after the last IE makes the header parse, and so the decode, fail |
| GsupCodec.EncodeFewIes | pyhlr/src/gsup/codec.py:38 | with fewer than 255 IEs only an over-long value can make encoding fail |
| GsupCodec.CreateAuthRequest | pyhlr/src/gsup/codec.py:74-80 | decodes to a Send Auth Info request with only the ASCII IMSI; fails exactly on a non-ASCII or over-long IMSI |
| GsupCodec.CreateAuthResponse | pyhlr/src/gsup/codec.py:82-91 | decodes to type SEND_AUTH_INFO_RESULT with exactly IMSI, RAND, AUTN in order |
| GsupCodec.CreateSubscriberDataRequest | pyhlr/src/gsup/codec.py:93-99 | decodes to a Send Subscriber Data request with only the IMSI |
| GsupCodec.CreateSubscriberDataResponse | pyhlr/src/gsup/codec.py:101-123 | decodes to the result with IMSI, MSISDN, status and access mode plus the optional services; fails exactly on bad text, a byte out of range or an over-long value |
| GsupCodec.SubscriberDataIesShape | pyhlr/src/gsup/codec.py:111-121 | IMSI comes first; bearer and teleservices are present exactly when non-empty; keys are distinct |
| GsupCodec.CreateSriSmRequest | pyhlr/src/gsup/codec.py:125-137 | decodes to the request with IMSI, SM-RP-DA, SM-RP-OA in order |
| GsupCodec.CreateSriSmResponse | pyhlr/src/gsup/codec.py:139-159 | decodes to IMSI then each non-empty MSC and SGSN number; any MME number makes it fail |
| GsupCodec.SriSmIesShape | pyhlr/src/gsup/codec.py:147-155 | IMSI comes first; keys are distinct; the IEs fit exactly when every number does |
| Ipa.Header | pyhlr/src/hlr/server.py:63-65 | three bytes whose big-endian length reads back as the length, then the protocol; fails from 65536 on |
| Ipa.Read | pyhlr/src/hlr/server.py:115 | a read takes at most `n` bytes from the front and leaves the rest of the stream |
| Ipa.Receive | pyhlr/src/hlr/server.py:113-131 | empty input is the end of the stream; fewer than three bytes, a zero length or no payload byte is short; otherwise the protocol is the third byte and the payload is the first min(length, available) bytes after the header, followed by the rest |
| Ipa.ReceiveFrame | pyhlr/test_client.py:117-135 | reading a framed payload gives back protocol and payload and leaves the rest of the stream |
| TestClient.CcmPingFrame | pyhlr/test_client.py:93-97 | exactly `00 01 fe 00`, read back as one PING frame |
| TestClient.CcmIdRequestFrame | pyhlr/test_client.py:99-109 | exactly length 9, proto 0xfe, ID_REQUEST and the eight tags in order |
| TestClient.CcmIdAckFrame | pyhlr/test_client.py:111-115 | exactly `00 01 fe 06`, read back as one ID_ACK frame |
| TestClient.Encode | pyhlr/test_client.py:178-190 | the type byte followed directly by the encoded IEs, with no length field; fails exactly on an over-long value |
| TestClient.Decode | pyhlr/test_client.py:192-218 | fails exactly on empty data; otherwise the first byte is the type |
| TestClient.DecodeLoop | pyhlr/test_client.py:192-218 | the while loop with its two breaks computes the decoder's result |
| TestClient.DecodeEncodedIes | pyhlr/test_client.py:202-216 | complete distinct IEs are decoded back and appended in order |
| TestClient.DecodeKeepsCompleteIes | pyhlr/test_client.py:202-213 | a tail too short for a header or value stops decoding, keeping all earlier IEs |
| TestClient.DecodeEncode | pyhlr/test_client.py:178-218 | round trip: the client decodes what it encodes |
| HlrServer.PongFrame | pyhlr/src/hlr/server.py:89-93 | exactly `00 01 fe 01`, read back as one PONG frame |
| HlrServer.IdentityResponseFrame | pyhlr/src/hlr/server.py:67-87 | a 68-byte payload whose header announces 68, read back as one frame |
| HlrServer.IdentityPayloadLength | pyhlr/src/hlr/server.py:75-83 | the identity payload takes 68 bytes |
| HlrServer.TagValuesLength | pyhlr/src/hlr/server.py:70-72 | with ASCII values each triple takes two bytes more than its value |
| HlrServer.ParseTagValuesInverse | pyhlr/src/hlr/server.py:70-72 | NUL-terminated triples parse back into their tags and UTF-8 values |
| HlrServer.IdentityResponseParses | pyhlr/src/hlr/server.py:75-83 | the payload is ID_RESPONSE then the eight tags in order, each with its value |
| HlrServer.ErrorResponse | pyhlr/src/hlr/server.py:235-238 | a message of the given type whose only IE is CAUSE holding the cause byte |
| HlrServer.HandleAuthInfo | pyhlr/src/hlr/server.py:204-233 | no IMSI gives a protocol error; a non-ASCII IMSI gives no reply; otherwise either the auth result with the hex-decoded vector or IMSI_UNKNOWN |
| HlrServer.HandleSubscriberData | pyhlr/src/hlr/server.py:240-269 | no IMSI gives a protocol error of type INSERT_DATA_ERROR; otherwise either the fixed subscriber data or SUBSCRIBER_DATA_NOT_AVAILABLE |
| HlrServer.HandleSriSm | pyhlr/src/hlr/server.py:271-303 | no IMSI gives a protocol error; an IMSI without a stored entry gives SMS_ROUTING_ERROR |
| HlrServer.InsertDataIesShape | pyhlr/src/hlr/server.py:328-338 | the Insert Data IEs have distinct types and fit when the IMSI does |
| HlrServer.InsertDataRequestFrame | pyhlr/src/hlr/server.py:328-341 | one 0xfe frame holding an Insert Data request with the IMSI and fixed subscriber data |
| HlrServer.NumberOrDefault | pyhlr/src/hlr/server.py:370-372 | an absent or empty IE gives the default; a present one gives its ASCII text; non-ASCII fails |
| HlrServer.StoredRouting | pyhlr/src/hlr/server.py:369-373 | the stored entry holds the request's VLR, MSC and SGSN numbers, or 12345, 67890 and 11111 when absent or empty |
| HlrServer.AwaitInsertDataResult | pyhlr/src/hlr/server.py:345-366 | a header under three bytes, another protocol or an empty payload is lost; otherwise the answer is confirmed exactly when its first byte is INSERT_DATA_RESULT, and the stream resumes after the payload read |
| HlrServer.AwaitFramedAnswer | pyhlr/src/hlr/server.py:345-366 | a framed answer is confirmed exactly when it is an Insert Data Result, and the stream after it is left |
| HlrServer.ConfirmLocation | pyhlr/src/hlr/server.py:368-381 | stores the entry at the IMSI and replies with a result carrying only the IMSI; a bad number gives SUBSCRIBER_DATA_NOT_AVAILABLE |
| HlrServer.UpdateLocationTry | pyhlr/src/hlr/server.py:323-389 | the table is unchanged or updated only at this IMSI, with the entry from the request |
| HlrServer.HandleUpdateLocation | pyhlr/src/hlr/server.py:305-389 | no IMSI gives a protocol error; a non-ASCII IMSI gives nothing; an auth failure gives SUBSCRIBER_DATA_NOT_AVAILABLE before anything is written |
| HlrServer.ProcessMessage | pyhlr/src/hlr/server.py:171-202 | a decode error or an unhandled type gives no reply; 0x04, 0x08, 0x10 and 0x14 go to their handlers; only Update Location writes or changes state |
| HlrServer.React | pyhlr/src/hlr/server.py:127-161 | an empty payload closes; on 0xfe PING gets PONG, ID_REQUEST the identity, all else nothing; for GSUP, no or an empty reply writes only the handler's bytes, a reply of 65536 bytes or more closes, and any other reply follows as one 0xfe frame |
| HlrServer.NumberOrDefaultValid | pyhlr/src/hlr/server.py:370-372 | a number read from a decoded request, or its default, is non-empty ASCII that fits an IE |
| HlrServer.StoredRoutingValid | pyhlr/src/hlr/server.py:369-373 | a stored entry holds valid numbers |
| HlrServer.UpdateLocationTouchesOnlyItsImsi | pyhlr/src/hlr/server.py:369-373 | Update Location changes no other IMSI's entry |
| HlrServer.UpdateLocationKeepsRoutingValid | pyhlr/src/hlr/server.py:305-389 | Update Location keeps every stored entry valid |
| HlrServer.ProcessMessageKeepsRoutingValid | pyhlr/src/hlr/server.py:171-202 | handling any GSUP message keeps the table valid |
| HlrServer.ReactKeepsRoutingValid | pyhlr/src/hlr/server.py:133-161 | one pass of the connection loop keeps the table valid |
| HlrServer.Serve | pyhlr/src/hlr/server.py:107-169 | the end of the stream, a short header or an empty payload ends the connection writing nothing; otherwise the frame's reaction is written first, then either the connection closes or the rest of the stream is served |
| HlrServer.ServeGsupFrame | pyhlr/src/hlr/server.py:153-169 | on a GSUP frame the handler's bytes come first; with no reply the rest of the stream is served; an oversized reply closes the connection |
| HlrServer.ServeKeepsRoutingValid | pyhlr/src/hlr/server.py:107-169 | a whole connection keeps the table valid |
| HlrServer.MissingImsiIsProtocolError | pyhlr/src/hlr/server.py:206-210 | every handled request without IMSI gets PROTOCOL_ERROR of its handler's error type, and nothing else happens |
| HlrServer.UpdateLocationSucceeds | pyhlr/src/hlr/server.py:327-381 | with a confirmed answer the server writes the Insert Data request, stores the entry and replies with the IMSI alone |
| HlrServer.UpdateLocationRejectsOtherAnswer | pyhlr/src/hlr/server.py:360-366 | an answer of another type gives a protocol error and leaves the table alone |
| HlrServer.SriSmAnswersStoredImsi | pyhlr/src/hlr/server.py:282-296 | a stored IMSI is answered with the IMSI and its stored MSC and SGSN numbers, in order |
| HlrServer.SriSmAfterUpdateLocation | pyhlr/src/hlr/server.py:291-296 | after a successful Update Location the routing answer carries the numbers just stored |
| HlrServer.GsupReplyFramed | pyhlr/src/hlr/server.py:156-161 | a GSUP reply goes out as one 0xfe frame that reads back as exactly the reply |
| Interop.ServeOneCcmFrame | pyhlr/src/hlr/server.py:133-150 | one CCM frame on a connection gets the CCM answer and changes nothing |
| Interop.HandshakeTail | pyhlr/test_client.py:155-169 | ID_ACK then PING is answered with a single PONG |
| Interop.ClientHandshake | pyhlr/test_client.py:137-169 | the client's whole handshake gets the identity response and a pong, and leaves the table alone |
| Interop.ClientRequestTakenForCcm | pyhlr/test_client.py:229-233 | a client GSUP request, framed with 0xfe, is answered as CCM according to its type byte |
| Interop.ServerMisreadsClientRequest | pyhlr/test_client.py:255-263 | the server decodes the client's auth request for the test IMSI as one IE of type 0x30, with no IMSI |
| Interop.ClientReadsServerLengthAsIe | pyhlr/test_client.py:192-218 | the client decodes a short server message with its length byte as an extra empty IE in front |
| Ocs.FindSpec | ocs/main.js:17-31 | a lookup succeeds exactly when some AVP carries the identifier, and yields the first one's value |
| Ocs.UnitValueOf | ocs/main.js:46-49 | Unit-Value reads as a pair exactly when the first Value-Digits and the first Exponent of the group are both numbers, and the pair is those two numbers; both AVPs are in the group |
| Ocs.CeaAvps | ocs/main.js:17-32 | Result-Code DIAMETER_SUCCESS first, one Origin-Host, Vendor-Id 10415, and a VSAI group with Vendor-Id 10415 and Auth-Application-Id 16777238 |
| Ocs.ServiceUnit | ocs/main.js:43-55 | the CC-Money Unit-Value is the pair (123, 1) and Currency-Code is 1 |
| Ocs.CcaAvps | ocs/main.js:35-70 | Result-Code 2001 first, Origin-Host only as code 264, and MSCC holding the granted and then the requested service unit |
| Ocs.OnDiameterMessage | ocs/main.js:14-72 | a CER gets the body followed by the CEA AVPs and a CCR the body followed by the CCA AVPs, each sent exactly once; other commands send nothing and leave the body |
| Ocs.CeaAnswer | ocs/main.js:16-33 | the answer gains exactly one Origin-Host; DIAMETER_SUCCESS is the first Result-Code, the 3GPP vendor the Vendor-Id and Gy the application of the Vendor-Specific-Application-Id, each unless the body had one already |
| Ocs.CcaAnswer | ocs/main.js:34-71 | a lookup of Origin-Host by name sees only the old body; code 264 is added once; the granted unit is the fixed one |

## Left out

- Sockets, asyncio, `writer.drain` and connection closing. The connection is modelled as the byte stream the peer sends, with everything the server writes collected as output.
- Partial reads. `reader.read(n)` is modelled as if all the peer's bytes had already arrived, so it returns `min(n, available)` bytes.
- Logging and `traceback` output everywhere.
- The HTTP authentication client (`pyhlr/src/auth/client.py`). It is a parameter of type `string -> Option<AuthData>`. Its answer keeps only the `ki` and `opc` strings that the handlers use. The parameter over-approximates the client: it may answer with an empty `ki` or `opc`, or when `amf` is missing, where `get_auth_data` raises (`pyhlr/src/auth/client.py:34-38`). Every lemma holds for all such parameters, so it also holds for the real client.
- `GSUPServer.start`; the test client's `connect`, `close`, `send_and_receive`, `test_*` methods and `main`. The byte sequences they send are used in the `Interop` lemmas.
- Concurrency across connections. Each connection is served on its own from a given routing table.
- Ocs.AvpName: only the 25 AVP names the handler itself uses are names in the model. An AVP of a prepared body with any other name (Session-Id, say) can only be written by its code, `Ocs.Code`, so a lookup of such an AVP by name is not modelled.
- The Diameter library `./lib/diameter`: its dictionary resolution of names, codes and enumerated values, and its wire encoding. `createServer`, `listen`, logging and the commented-out server-initiated request in `ocs/main.js` are also left out.
- Configuration, packaging, the entry point, the pydantic models and the one-shot scripts of the repository.
- HlrServer.HandleSriSm: its contract does not state the success reply. `HlrServer.SriSmAnswersStoredImsi` states it for tables whose entries are valid, which every reachable table is (`HlrServer.ServeKeepsRoutingValid`).
- HlrServer.HandleUpdateLocation: its contract states only the early exits. The outcomes after the Insert Data Request are stated by `HlrServer.UpdateLocationSucceeds` and `HlrServer.UpdateLocationRejectsOtherAnswer` for a framed answer, and by `HlrServer.UpdateLocationTry` for the table.
- Bytes.FromHex: its contract bounds the output length. Its content is stated only through `Bytes.FromHexToHex`, not for every accepted input.

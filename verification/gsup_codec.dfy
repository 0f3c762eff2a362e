/** The HLR's GSUP codec: a message is its type byte, a 16-bit little-endian
    payload length and then the IEs. The decoder ignores the length field and
    reads IEs up to the end of the data. The module also holds the message
    builders of the codec class. */
module GsupCodec {
  import opened Wrappers
  import opened Bytes
  import opened Tlv
  import opened GsupConstants

  // ---------------------------------------------------------------- encoding

  /** `encode_message`: header `[t] ++ LE16(|payload|)`, then the payload.
      Fails when a value needs more than one length byte or the payload more
      than two. */
  function EncodeMessage(t: byte, ies: Dict): (r: Option<bytes>)
    ensures r.Some? <==> Fits(ies) && Size(ies) < 0x1_0000
    ensures r.Some? ==> |r.value| == 3 + Size(ies) && r.value[0] == t
                        && r.value[1..3] == LE16(Size(ies)) && EncodeIes(ies) == Some(r.value[3..])
  {
    match EncodeIes(ies)
    case None => None
    case Some(payload) =>
      if |payload| < 0x1_0000 then Some([t] + LE16(|payload|) + payload) else None
  }

  // ---------------------------------------------------------------- decoding

  /** The loop of `decode_message` from `offset` on, with the IEs read so far in
      `acc`. A single byte left for an IE header makes the header parse fail;
      a value running past the end is cut short. */
  function DecodeIes(data: bytes, offset: nat, acc: Dict): (r: Option<Dict>)
    decreases |data| - offset
  {
    if offset >= |data| then Some(acc)
    else if offset + 2 > |data| then None
    else
      var n := data[offset + 1];
      var end := if offset + 2 + n <= |data| then offset + 2 + n else |data|;
      DecodeIes(data, offset + 2 + n, Put(acc, data[offset], data[offset + 2..end]))
  }

  /** `decode_message`: fewer than three bytes make the header parse fail. */
  function DecodeMessage(data: bytes): (r: Option<Message>)
    ensures |data| < 3 ==> r.None?
    ensures r.Some? ==> r.value.msgType == data[0] && Distinct(r.value.ies) && Fits(r.value.ies)
  {
    if |data| < 3 then None
    else
      match DecodeIes(data, 3, [])
      case None => None
      case Some(ies) =>
        DecodedIesWellFormed(data, 3, []);
        Some(Message(data[0], ies))
  }

  /** Decoding keeps the dictionary free of repeated types and never produces
      a value longer than the one-byte length field allows. */
  lemma {:induction false} DecodedIesWellFormed(data: bytes, offset: nat, acc: Dict)
    requires Distinct(acc) && Fits(acc)
    ensures DecodeIes(data, offset, acc).Some? ==>
              Distinct(DecodeIes(data, offset, acc).value) && Fits(DecodeIes(data, offset, acc).value)
    decreases |data| - offset
  {
    if offset < |data| && offset + 2 <= |data| {
      var n := data[offset + 1];
      var end := if offset + 2 + n <= |data| then offset + 2 + n else |data|;
      PutWellFormed(acc, data[offset], data[offset + 2..end]);
      DecodedIesWellFormed(data, offset + 2 + n, Put(acc, data[offset], data[offset + 2..end]));
    }
  }

  /** `decode_message` as the source writes it, a while loop over the offset. */
  method DecodeMessageLoop(data: bytes) returns (r: Option<Message>)
    ensures r == DecodeMessage(data)
  {
    if |data| < 3 {
      return None;
    }
    var ies: Dict := [];
    var offset := 3;
    while offset < |data|
      invariant DecodeIes(data, offset, ies) == DecodeIes(data, 3, [])
      decreases |data| - offset
    {
      if offset + 2 > |data| {
        return None;
      }
      var ieType := data[offset];
      var ieLength := data[offset + 1];
      var end := if offset + 2 + ieLength <= |data| then offset + 2 + ieLength else |data|;
      ies := Put(ies, ieType, data[offset + 2..end]);
      offset := offset + 2 + ieLength;
    }
    return Some(Message(data[0], ies));
  }

  // ---------------------------------------------------------------- round trip

  /** One step of the decoder over an IE that lies wholly inside the data. */
  lemma DecodeStep(data: bytes, offset: nat, acc: Dict)
    requires offset + 2 <= |data| && offset + 2 + data[offset + 1] <= |data|
    ensures var n := data[offset + 1];
            DecodeIes(data, offset, acc) == DecodeIes(data, offset + 2 + n, Put(acc, data[offset], data[offset + 2..offset + 2 + n]))
  {
  }

  /** The decoder's last step over an IE whose value runs past the end. */
  lemma DecodeLastCut(data: bytes, offset: nat, acc: Dict)
    requires offset + 2 <= |data| < offset + 2 + data[offset + 1]
    ensures DecodeIes(data, offset, acc) == Some(Put(acc, data[offset], data[offset + 2..]))
  {
    assert data[offset + 2..|data|] == data[offset + 2..];
  }

  /** The encoding of a non-empty dictionary starts with its first IE. */
  lemma EncodeIesHead(ies: Dict)
    requires |ies| > 0 && Fits(ies)
    ensures Fits(ies[1..]) && Size(ies) == 2 + |ies[0].1| + Size(ies[1..])
    ensures EncodeIes(ies).value == [ies[0].0, |ies[0].1|] + ies[0].1 + EncodeIes(ies[1..]).value
  {
    assert forall i :: 0 <= i < |ies| - 1 ==> ies[1..][i] == ies[i + 1];
  }

  /** `enc` lies in `data` from `offset` on. */
  predicate IsAt(data: bytes, offset: nat, enc: bytes) {
    offset + |enc| <= |data| && forall i :: 0 <= i < |enc| ==> data[offset + i] == enc[i]
  }

  /** A slice of `data` lies in `data` where it was taken. */
  lemma IsAtSlice(data: bytes, offset: nat, end: nat)
    requires offset <= end <= |data|
    ensures IsAt(data, offset, data[offset..end])
  {
    forall i | 0 <= i < end - offset
      ensures data[offset + i] == data[offset..end][i]
    {
    }
  }

  /** What lies in `a` lies in `a` followed by anything. */
  lemma IsAtAppend(a: bytes, b: bytes, offset: nat, enc: bytes)
    requires IsAt(a, offset, enc)
    ensures IsAt(a + b, offset, enc)
  {
    forall i | 0 <= i < |enc|
      ensures (a + b)[offset + i] == enc[i]
    {
      assert a[offset + i] == enc[i];
    }
  }

  /** The second part of a concatenation lies where the first one ends. */
  lemma IsAtEnd(a: bytes, b: bytes)
    ensures IsAt(a + b, |a|, b)
  {
    forall i | 0 <= i < |b|
      ensures (a + b)[|a| + i] == b[i]
    {
    }
  }

  /** An encoded message holds the encoded IEs after its three header bytes. */
  lemma EncodedAt(t: byte, ies: Dict)
    requires EncodeMessage(t, ies).Some?
    ensures IsAt(EncodeMessage(t, ies).value, 3, EncodeIes(ies).value)
  {
    var data := EncodeMessage(t, ies).value;
    assert data[3..|data|] == data[3..];
    IsAtSlice(data, 3, |data|);
  }

  /** `decode_message` returns the type byte and what the IE loop decoded. */
  lemma DecodeMessageOf(data: bytes, ies: Dict)
    requires |data| >= 3 && DecodeIes(data, 3, []) == Some(ies)
    ensures DecodeMessage(data) == Some(Message(data[0], ies))
  {
  }

  /** Where an IE followed by `rest` lies in `data` at `offset`, its type,
      length and value and then `rest` lie there too. */
  lemma IeAt(data: bytes, offset: nat, k: byte, n: byte, v: bytes, rest: bytes)
    requires IsAt(data, offset, [k, n] + v + rest)
    ensures data[offset] == k && data[offset + 1] == n
    ensures IsAt(data, offset + 2, v)
    ensures IsAt(data, offset + 2 + |v|, rest)
  {
    var enc := [k, n] + v + rest;
    assert data[offset] == enc[0] && data[offset + 1] == enc[1];
    forall i | 0 <= i < |v|
      ensures data[offset + 2 + i] == v[i]
    {
      assert enc[2 + i] == v[i];
    }
    forall i | 0 <= i < |rest|
      ensures data[offset + 2 + |v| + i] == rest[i]
    {
      assert enc[2 + |v| + i] == rest[i];
    }
  }

  /** What lies in `data` at `offset` is the slice of `data` it covers. */
  lemma AtSlice(data: bytes, offset: nat, v: bytes)
    requires IsAt(data, offset, v)
    ensures data[offset..offset + |v|] == v
  {
    forall i | 0 <= i < |v|
      ensures data[offset..offset + |v|][i] == v[i]
    {
      assert data[offset + i] == v[i];
    }
  }

  /** Where the encoded IEs of `ies` lie at `offset`, the first IE's type,
      length and value come first and the encoding of the rest follows. */
  lemma EncodedHead(data: bytes, offset: nat, ies: Dict)
    requires |ies| > 0 && Fits(ies) && IsAt(data, offset, EncodeIes(ies).value)
    ensures var v := ies[0].1;
            var next := offset + 2 + |v|;
            && data[offset] == ies[0].0 && data[offset + 1] == |v|
            && data[offset + 2..next] == v
            && next + Size(ies[1..]) == offset + Size(ies)
            && IsAt(data, next, EncodeIes(ies[1..]).value)
  {
    var k, v, rest := ies[0].0, ies[0].1, EncodeIes(ies[1..]).value;
    EncodedSplit(data, offset, ies);
    IeAt(data, offset, k, |v|, v, rest);
    AtSlice(data, offset + 2, v);
  }

  /** Where the encoded IEs of `ies` lie, the first IE followed by the
      encoding of the rest lies there too. */
  lemma EncodedSplit(data: bytes, offset: nat, ies: Dict)
    requires |ies| > 0 && Fits(ies) && IsAt(data, offset, EncodeIes(ies).value)
    ensures Fits(ies[1..]) && Size(ies) == 2 + |ies[0].1| + Size(ies[1..])
    ensures IsAt(data, offset, [ies[0].0, |ies[0].1|] + ies[0].1 + EncodeIes(ies[1..]).value)
  {
    EncodeIesHead(ies);
  }

  /** With no repeated type in `acc + ies`, the first IE of `ies` is new to
      `acc` and is appended. */
  lemma FreshHead(acc: Dict, ies: Dict)
    requires |ies| > 0 && Distinct(acc + ies)
    ensures Put(acc, ies[0].0, ies[0].1) == acc + [ies[0]]
    ensures (acc + [ies[0]]) + ies[1..] == acc + ies
    ensures Distinct(acc + [ies[0]] + ies[1..])
  {
    var k := ies[0].0;
    forall i | 0 <= i < |acc|
      ensures acc[i].0 != k
    {
      assert (acc + ies)[i] == acc[i] && (acc + ies)[|acc|] == ies[0];
    }
    GetNone(acc, k);
    PutNew(acc, k, ies[0].1);
    assert (acc + [ies[0]]) + ies[1..] == acc + ies;
  }

  /** Decoding data that holds the encoded IEs of `ies` at `offset` appends
      them to what was decoded before, provided no type repeats. */
  lemma DecodeEncodedIes(data: bytes, offset: nat, ies: Dict, acc: Dict)
    requires Fits(ies) && Distinct(acc + ies) && IsAt(data, offset, EncodeIes(ies).value)
    ensures DecodeIes(data, offset, acc) == DecodeIes(data, offset + Size(ies), acc + ies)
  {
    DecodeEncodedEntries(data, offset, ies, acc);
    PutAllFresh(acc, ies);
  }

  /** Round trip: decoding an encoded message gives back its type and IEs,
      in order, whenever the IE types are distinct and encoding succeeded. */
  lemma DecodeEncode(t: byte, ies: Dict)
    requires Distinct(ies)
    ensures EncodeMessage(t, ies).Some? ==> DecodeMessage(EncodeMessage(t, ies).value) == Some(Message(t, ies))
  {
    if EncodeMessage(t, ies).Some? {
      DecodeEncodedSequence(EncodeMessage(t, ies).value, ies);
      PutAllDistinct(ies);
    }
  }

  /** The decoder reads only data at or after `from`, once it is there. */
  lemma {:induction false} DecodeIesReadsSuffix(a: bytes, b: bytes, from: nat, offset: nat, acc: Dict)
    requires |a| == |b| && from <= offset
    requires forall i :: from <= i < |a| ==> a[i] == b[i]
    ensures DecodeIes(a, offset, acc) == DecodeIes(b, offset, acc)
    decreases |a| - offset
  {
    if offset + 2 <= |a| {
      var n := a[offset + 1];
      var end := if offset + 2 + n <= |a| then offset + 2 + n else |a|;
      assert a[offset] == b[offset] && n == b[offset + 1];
      var va := a[offset + 2..end];
      assert va == b[offset + 2..end] by {
        forall i | 0 <= i < |va|
          ensures va[i] == b[offset + 2..end][i]
        {
          assert va[i] == a[offset + 2 + i];
        }
      }
      var acc' := Put(acc, a[offset], va);
      assert DecodeIes(a, offset, acc) == DecodeIes(a, offset + 2 + n, acc');
      assert DecodeIes(b, offset, acc) == DecodeIes(b, offset + 2 + n, acc');
      DecodeIesReadsSuffix(a, b, from, offset + 2 + n, acc');
    }
  }

  /** The header's length field plays no part in decoding: any two bytes there
      give the same result. */
  lemma HeaderLengthIgnored(data: bytes, lo: byte, hi: byte)
    requires |data| >= 3
    ensures DecodeMessage([data[0], lo, hi] + data[3..]) == DecodeMessage(data)
  {
    var other := [data[0], lo, hi] + data[3..];
    DecodeIesReadsSuffix(other, data, 3, 3, []);
  }

  /** Decoding data that holds the encoded entries `entries` at `offset`, types
      repeated or not, stores them one after another into what was decoded
      before. */
  lemma {:induction false} DecodeEncodedEntries(data: bytes, offset: nat, entries: Dict, acc: Dict)
    requires Fits(entries) && IsAt(data, offset, EncodeIes(entries).value)
    ensures DecodeIes(data, offset, acc) == DecodeIes(data, offset + Size(entries), PutAll(acc, entries))
    decreases |entries|
  {
    if |entries| > 0 {
      var next := offset + 2 + |entries[0].1|;
      EncodedHead(data, offset, entries);
      DecodeStep(data, offset, acc);
      DecodeEncodedEntries(data, next, entries[1..], Put(acc, entries[0].0, entries[0].1));
    }
  }

  /** A message holding the encoded entries of any sequence decodes to the
      entries stored one after another. */
  lemma DecodeEncodedSequence(data: bytes, entries: Dict)
    requires |data| >= 3 && Fits(entries) && data[3..] == EncodeIes(entries).value
    ensures DecodeMessage(data) == Some(Message(data[0], PutAll([], entries)))
  {
    assert data[3..|data|] == data[3..];
    IsAtSlice(data, 3, |data|);
    DecodeEncodedEntries(data, 3, entries, []);
  }

  /** Any sequence of IEs, types repeated or not, decodes as Python's dict
      assignment stores it: each type appears once, at the position of its
      first occurrence, and holds the value of its last occurrence. */
  lemma RepeatedIesDecoded(t: byte, len: bytes, entries: Dict)
    requires |len| == 2 && Fits(entries)
    ensures var m := DecodeMessage([t] + len + EncodeIes(entries).value);
            && m == Some(Message(t, PutAll([], entries)))
            && Keys(m.value.ies) == NewKeys([], entries)
            && forall k :: Get(m.value.ies, k) == LastValue(entries, k)
  {
    var ies := PutAll([], entries);
    var data := [t] + len + EncodeIes(entries).value;
    assert data[0] == t && data[3..] == EncodeIes(entries).value;
    DecodeEncodedSequence(data, entries);
    assert Keys(ies) == NewKeys([], entries) by {
      PutAllKeys([], entries);
      assert Keys([]) + NewKeys(Keys([]), entries) == NewKeys([], entries);
    }
    forall k
      ensures Get(ies, k) == LastValue(entries, k)
    {
      PutAllGet([], entries, k);
    }
  }

  /** A repeated IE type yields one entry: it keeps the position of its first
      occurrence and takes the value of the last one. */
  lemma RepeatedIeTakesLastValue(t: byte, len: bytes, k: byte, j: byte, a: bytes, c: bytes, b: bytes)
    requires |len| == 2 && j != k && |a| < 256 && |b| < 256 && |c| < 256
    ensures DecodeMessage([t] + len + [k, |a|] + a + [j, |c|] + c + [k, |b|] + b)
            == Some(Message(t, [(k, b), (j, c)]))
  {
    var data := [t] + len + [k, |a|] + a + [j, |c|] + c + [k, |b|] + b;
    var o2 := 5 + |a|;
    var o3 := o2 + 2 + |c|;
    assert o3 + 2 + |b| == |data|;
    assert data[3] == k && data[4] == |a| && IsAt(data, 5, a);
    assert data[o2] == j && data[o2 + 1] == |c| && IsAt(data, o2 + 2, c);
    assert data[o3] == k && data[o3 + 1] == |b| && IsAt(data, o3 + 2, b);
    DecodeThreeIes(data, o2, o3, k, a, j, c, b);
    PutRepeated(k, a, j, c, b);
    DecodeMessageOf(data, [(k, b), (j, c)]);
  }

  /** One step of the decoder over an IE of type `k` and value `v`. */
  lemma ReadIe(data: bytes, offset: nat, acc: Dict, k: byte, v: bytes)
    requires IsAt(data, offset + 2, v) && data[offset] == k && data[offset + 1] == |v|
    ensures DecodeIes(data, offset, acc) == DecodeIes(data, offset + 2 + |v|, Put(acc, k, v))
  {
    AtSlice(data, offset + 2, v);
    DecodeStep(data, offset, acc);
  }

  /** Data holding three complete IEs after the header, the second at `o2`
      and the third at `o3`, decodes to the three of them stored one after
      another. */
  lemma DecodeThreeIes(data: bytes, o2: nat, o3: nat, k: byte, a: bytes, j: byte, c: bytes, b: bytes)
    requires o2 == 5 + |a| && o3 == o2 + 2 + |c| && o3 + 2 + |b| == |data|
    requires data[3] == k && data[4] == |a| && IsAt(data, 5, a)
    requires data[o2] == j && data[o2 + 1] == |c| && IsAt(data, o2 + 2, c)
    requires data[o3] == k && data[o3 + 1] == |b| && IsAt(data, o3 + 2, b)
    ensures DecodeIes(data, 3, []) == Some(Put(Put(Put([], k, a), j, c), k, b))
  {
    ReadIe(data, 3, [], k, a);
    DecodeTwoIes(data, o2, o3, Put([], k, a), j, c, k, b);
  }

  /** Data ending in two complete IEs, at `offset` and `o3`, decodes to the
      two of them stored after `acc`. */
  lemma DecodeTwoIes(data: bytes, offset: nat, o3: nat, acc: Dict, j: byte, c: bytes, k: byte, b: bytes)
    requires o3 == offset + 2 + |c| && o3 + 2 + |b| == |data|
    requires data[offset] == j && data[offset + 1] == |c| && IsAt(data, offset + 2, c)
    requires data[o3] == k && data[o3 + 1] == |b| && IsAt(data, o3 + 2, b)
    ensures DecodeIes(data, offset, acc) == Some(Put(Put(acc, j, c), k, b))
  {
    ReadIe(data, offset, acc, j, c);
    DecodeLastIe(data, o3, Put(acc, j, c), k, b);
  }

  /** Data ending in one complete IE from `offset` on decodes to it stored
      after `acc`. */
  lemma DecodeLastIe(data: bytes, offset: nat, acc: Dict, k: byte, b: bytes)
    requires offset + 2 + |b| == |data| && data[offset] == k && data[offset + 1] == |b| && IsAt(data, offset + 2, b)
    ensures DecodeIes(data, offset, acc) == Some(Put(acc, k, b))
  {
    ReadIe(data, offset, acc, k, b);
  }

  /** Storing `k`, then another type `j`, then `k` again leaves `k` first with
      its second value. */
  lemma PutRepeated(k: byte, a: bytes, j: byte, c: bytes, b: bytes)
    requires j != k
    ensures Put(Put(Put([], k, a), j, c), k, b) == [(k, b), (j, c)]
  {
    assert Put([], k, a) == [(k, a)];
    assert Put([(k, a)], j, c) == [(k, a)] + Put([], j, c) == [(k, a), (j, c)];
    assert [(k, a), (j, c)][1..] == [(j, c)];
  }

  /** A final IE whose length runs past the end of the data is decoded with the
      bytes that are there, and no error. */
  lemma ShortLastIeIsCut(t: byte, ies: Dict, k: byte, n: byte, v: bytes)
    requires Distinct(ies) && EncodeMessage(t, ies).Some? && |v| < n
    ensures DecodeMessage(EncodeMessage(t, ies).value + [k, n] + v) == Some(Message(t, Put(ies, k, v)))
  {
    var enc := EncodeMessage(t, ies).value;
    var data := enc + [k, n] + v;
    EncodedAt(t, ies);
    IsAtAppend(enc, [k, n], 3, EncodeIes(ies).value);
    IsAtAppend(enc + [k, n], v, 3, EncodeIes(ies).value);
    TrailingIe(enc, k, n, v);
    DecodeIesThenCut(data, ies, k, n, v);
    PutAllDistinct(ies);
    DecodeMessageOf(data, Put(ies, k, v));
  }

  /** Data holding the encoded entries of `entries` after the header and then
      one IE whose length runs past the end decodes to the entries stored one
      after another, and then the cut IE. */
  lemma DecodeIesThenCut(data: bytes, entries: Dict, k: byte, n: byte, v: bytes)
    requires Fits(entries) && IsAt(data, 3, EncodeIes(entries).value) && |v| < n
    requires var o := 3 + Size(entries);
             |data| == o + 2 + |v| && data[o] == k && data[o + 1] == n && data[o + 2..] == v
    ensures DecodeIes(data, 3, []) == Some(Put(PutAll([], entries), k, v))
  {
    DecodeEncodedEntries(data, 3, entries, []);
    DecodeLastCut(data, 3 + Size(entries), PutAll([], entries));
  }

  /** An IE header and value appended to `a` lie right after it. */
  lemma TrailingIe(a: bytes, k: byte, n: byte, v: bytes)
    ensures var data := a + [k, n] + v;
            data[|a|] == k && data[|a| + 1] == n && data[|a| + 2..] == v
  {
    var data := a + [k, n] + v;
    forall i | 0 <= i < |v|
      ensures data[|a| + 2..][i] == v[i]
    {
    }
  }

  /** A single byte after the last IE is a header that cannot be parsed: the
      whole decode fails. */
  lemma TrailingByteFails(t: byte, ies: Dict, x: byte)
    requires Distinct(ies) && EncodeMessage(t, ies).Some?
    ensures DecodeMessage(EncodeMessage(t, ies).value + [x]).None?
  {
    var enc := EncodeMessage(t, ies).value;
    var data := enc + [x];
    EncodedAt(t, ies);
    IsAtAppend(enc, [x], 3, EncodeIes(ies).value);
    DecodeEncodedEntries(data, 3, ies, []);
  }

  // ---------------------------------------------------------------- builders

  /** A message of fewer than 255 IEs can only fail to encode on an over-long value. */
  lemma EncodeFewIes(t: byte, ies: Dict)
    requires |ies| < 255
    ensures EncodeMessage(t, ies).Some? <==> Fits(ies)
  {
    if Fits(ies) {
      SizeBound(ies);
    }
  }

  /** `create_auth_request`: a Send Authentication Info request carrying the IMSI. */
  function CreateAuthRequest(imsi: string): (r: Option<bytes>)
    ensures r.Some? <==> IsAsciiText(imsi) && |imsi| < 256
    ensures r.Some? ==> DecodeMessage(r.value)
                        == Some(Message(MsgSendAuthInfoRequest, [(IeImsi, AsciiEncode(imsi).value)]))
  {
    match AsciiEncode(imsi)
    case None => None
    case Some(b) =>
      var ies := [(IeImsi, b)];
      EncodeFewIes(MsgSendAuthInfoRequest, ies);
      DecodeEncode(MsgSendAuthInfoRequest, ies);
      EncodeMessage(MsgSendAuthInfoRequest, ies)
  }

  /** `create_auth_response`: a Send Authentication Info result carrying
      exactly the IMSI, RAND and AUTN IEs, in that order. */
  function CreateAuthResponse(imsi: string, rand: bytes, autn: bytes): (r: Option<bytes>)
    ensures r.Some? <==> IsAsciiText(imsi) && |imsi| < 256 && |rand| < 256 && |autn| < 256
    ensures r.Some? ==> DecodeMessage(r.value)
                        == Some(Message(MsgSendAuthInfoResult,
                                        [(IeImsi, AsciiEncode(imsi).value), (IeRand, rand), (IeAutn, autn)]))
  {
    match AsciiEncode(imsi)
    case None => None
    case Some(b) =>
      var ies := [(IeImsi, b), (IeRand, rand), (IeAutn, autn)];
      EncodeFewIes(MsgSendAuthInfoResult, ies);
      assert ies[1].1 == rand && ies[2].1 == autn;
      DecodeEncode(MsgSendAuthInfoResult, ies);
      EncodeMessage(MsgSendAuthInfoResult, ies)
  }

  /** `create_subscriber_data_request`: a Send Subscriber Data request carrying the IMSI. */
  function CreateSubscriberDataRequest(imsi: string): (r: Option<bytes>)
    ensures r.Some? <==> IsAsciiText(imsi) && |imsi| < 256
    ensures r.Some? ==> DecodeMessage(r.value)
                        == Some(Message(MsgSendSubscriberDataRequest, [(IeImsi, AsciiEncode(imsi).value)]))
  {
    match AsciiEncode(imsi)
    case None => None
    case Some(b) =>
      var ies := [(IeImsi, b)];
      EncodeFewIes(MsgSendSubscriberDataRequest, ies);
      DecodeEncode(MsgSendSubscriberDataRequest, ies);
      EncodeMessage(MsgSendSubscriberDataRequest, ies)
  }

  /** The IEs of a Send Subscriber Data result: IMSI, MSISDN, status and access
      mode always, bearer and teleservices only when non-empty. */
  function SubscriberDataIes(imsi: bytes, msisdn: bytes, status: byte, nam: byte,
                             bearer: bytes, tele: bytes): Dict
  {
    [(IeImsi, imsi), (IeMsisdn, msisdn), (IeSubscriberStatus, [status]), (IeNetworkAccessMode, [nam])]
      + IfGiven(IeBearerServices, bearer) + IfGiven(IeTeleservices, tele)
  }

  /** `create_subscriber_data_response`. `bytes([x])` fails (ValueError) unless
      `0 <= x < 256`; an empty `bearer` or `tele` stands for an absent or empty
      argument, which Python treats alike. */
  function CreateSubscriberDataResponse(imsi: string, msisdn: string, status: int, nam: int,
                                        bearer: bytes, tele: bytes): (r: Option<bytes>)
    ensures r.Some? <==> IsAsciiText(imsi) && |imsi| < 256 && IsAsciiText(msisdn) && |msisdn| < 256
                         && 0 <= status < 256 && 0 <= nam < 256 && |bearer| < 256 && |tele| < 256
    ensures r.Some? ==> DecodeMessage(r.value)
                        == Some(Message(MsgSendSubscriberDataResult,
                                        SubscriberDataIes(AsciiEncode(imsi).value, AsciiEncode(msisdn).value,
                                                          status, nam, bearer, tele)))
  {
    if !(0 <= status < 256 && 0 <= nam < 256) then None
    else
      match (AsciiEncode(imsi), AsciiEncode(msisdn))
      case (Some(i), Some(m)) =>
        var ies := SubscriberDataIes(i, m, status, nam, bearer, tele);
        SubscriberDataIesShape(i, m, status, nam, bearer, tele);
        EncodeFewIes(MsgSendSubscriberDataResult, ies);
        DecodeEncode(MsgSendSubscriberDataResult, ies);
        EncodeMessage(MsgSendSubscriberDataResult, ies)
      case _ => None
  }

  /** The subscriber-data IEs have distinct types; they fit exactly when every
      value does; bearer and teleservices are present exactly when given; the
      IMSI comes first. */
  lemma SubscriberDataIesShape(imsi: bytes, msisdn: bytes, status: byte, nam: byte, bearer: bytes, tele: bytes)
    ensures var ies := SubscriberDataIes(imsi, msisdn, status, nam, bearer, tele);
            && 4 <= |ies| <= 6 && Distinct(ies) && ies[0] == (IeImsi, imsi)
            && (Fits(ies) <==> |imsi| < 256 && |msisdn| < 256 && |bearer| < 256 && |tele| < 256)
            && (Get(ies, IeBearerServices).Some? <==> |bearer| > 0)
            && (Get(ies, IeTeleservices).Some? <==> |tele| > 0)
  {
    var ies := SubscriberDataIes(imsi, msisdn, status, nam, bearer, tele);
    var fixed := [(IeImsi, imsi), (IeMsisdn, msisdn), (IeSubscriberStatus, [status]), (IeNetworkAccessMode, [nam])];
    var b := IfGiven(IeBearerServices, bearer);
    assert ies == fixed + b + IfGiven(IeTeleservices, tele);
    GetNone(ies, IeBearerServices);
    GetNone(ies, IeTeleservices);
    if |bearer| > 0 {
      assert ies[4] == (IeBearerServices, bearer);
    }
    if |tele| > 0 {
      assert ies[|ies| - 1] == (IeTeleservices, tele);
    }
  }

  /** `create_send_routing_info_for_sm_request`: IMSI, SM-RP-DA and SM-RP-OA. */
  function CreateSriSmRequest(imsi: string, smRpDa: bytes, smRpOa: bytes): (r: Option<bytes>)
    ensures r.Some? <==> IsAsciiText(imsi) && |imsi| < 256 && |smRpDa| < 256 && |smRpOa| < 256
    ensures r.Some? ==> DecodeMessage(r.value)
                        == Some(Message(MsgSendRoutingInfoForSmRequest,
                                        [(IeImsi, AsciiEncode(imsi).value), (IeSmRpDa, smRpDa), (IeSmRpOa, smRpOa)]))
  {
    match AsciiEncode(imsi)
    case None => None
    case Some(b) =>
      var ies := [(IeImsi, b), (IeSmRpDa, smRpDa), (IeSmRpOa, smRpOa)];
      EncodeFewIes(MsgSendRoutingInfoForSmRequest, ies);
      assert ies[1].1 == smRpDa && ies[2].1 == smRpOa;
      DecodeEncode(MsgSendRoutingInfoForSmRequest, ies);
      EncodeMessage(MsgSendRoutingInfoForSmRequest, ies)
  }

  /** `create_send_routing_info_for_sm_response`. An empty number stands for an
      absent or empty argument, which Python treats alike. A non-empty MME
      number fails: `IEType` has no `MME_NUMBER`, so the lookup raises
      AttributeError. */
  function CreateSriSmResponse(imsi: string, msc: string, sgsn: string, mme: string): (r: Option<bytes>)
    ensures r.Some? <==> IsAsciiText(imsi) && |imsi| < 256 && IsAsciiText(msc) && |msc| < 256
                         && IsAsciiText(sgsn) && |sgsn| < 256 && |mme| == 0
    ensures r.Some? ==> DecodeMessage(r.value)
                        == Some(Message(MsgSendRoutingInfoForSmResult,
                                        [(IeImsi, AsciiEncode(imsi).value)]
                                          + IfGiven(IeMscNumber, AsciiEncode(msc).value)
                                          + IfGiven(IeSgsnNumber, AsciiEncode(sgsn).value)))
  {
    if |mme| > 0 then None
    else
      match (AsciiEncode(imsi), AsciiEncode(msc), AsciiEncode(sgsn))
      case (Some(i), Some(m), Some(g)) =>
        var ies := [(IeImsi, i)] + IfGiven(IeMscNumber, m) + IfGiven(IeSgsnNumber, g);
        SriSmIesShape(i, m, g);
        EncodeFewIes(MsgSendRoutingInfoForSmResult, ies);
        DecodeEncode(MsgSendRoutingInfoForSmResult, ies);
        EncodeMessage(MsgSendRoutingInfoForSmResult, ies)
      case _ => None
  }

  /** The routing-info IEs have distinct types, the IMSI first, and fit exactly
      when every number does. */
  lemma SriSmIesShape(imsi: bytes, msc: bytes, sgsn: bytes)
    ensures var ies := [(IeImsi, imsi)] + IfGiven(IeMscNumber, msc) + IfGiven(IeSgsnNumber, sgsn);
            && 1 <= |ies| <= 3 && Distinct(ies) && ies[0] == (IeImsi, imsi)
            && (Fits(ies) <==> |imsi| < 256 && |msc| < 256 && |sgsn| < 256)
  {
    var ies := [(IeImsi, imsi)] + IfGiven(IeMscNumber, msc) + IfGiven(IeSgsnNumber, sgsn);
    if |msc| > 0 {
      assert ies[1] == (IeMscNumber, msc);
    }
    if |sgsn| > 0 {
      assert ies[|ies| - 1] == (IeSgsnNumber, sgsn);
    }
  }
}

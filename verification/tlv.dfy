/** Information elements (IEs) as both GSUP codecs see them: a Python
    `dict[int, bytes]` kept as an association list in insertion order, and the
    type/length/value layout of one IE on the wire. */
module Tlv {
  import opened Wrappers
  import opened Bytes

  /** An IE dictionary; Python dicts iterate in insertion order. */
  type Dict = seq<(byte, bytes)>

  /** A decoded GSUP message: its type byte and its IEs. */
  datatype Message = Message(msgType: byte, ies: Dict)

  /** `d.get(k)`. */
  function Get(d: Dict, k: byte): Option<bytes>
  {
    if |d| == 0 then None
    else if d[0].0 == k then Some(d[0].1)
    else Get(d[1..], k)
  }

  /** A type is absent exactly when no entry carries it. */
  lemma {:induction false} GetNone(d: Dict, k: byte)
    ensures Get(d, k).None? <==> forall i :: 0 <= i < |d| ==> d[i].0 != k
  {
    if |d| > 0 {
      GetNone(d[1..], k);
      assert forall i :: 1 <= i < |d| ==> d[i] == d[1..][i - 1];
    }
  }

  /** No IE type occurs twice, as in any Python dict. */
  predicate Distinct(d: Dict) {
    forall i, j :: 0 <= i < j < |d| ==> d[i].0 != d[j].0
  }

  /** `d[k] = v`. */
  function Put(d: Dict, k: byte, v: bytes): Dict
  {
    if |d| == 0 then [(k, v)]
    else if d[0].0 == k then [(k, v)] + d[1..]
    else [d[0]] + Put(d[1..], k, v)
  }

  /** After `d[k] = v`, `k` maps to `v` and every other type to what it mapped
      to before. */
  lemma {:induction false} PutGet(d: Dict, k: byte, v: bytes, k': byte)
    ensures Get(Put(d, k, v), k') == if k' == k then Some(v) else Get(d, k')
  {
    if |d| > 0 && d[0].0 != k {
      PutGet(d[1..], k, v, k');
    }
  }

  /** A new type goes to the end. */
  lemma {:induction false} PutNew(d: Dict, k: byte, v: bytes)
    requires Get(d, k).None?
    ensures Put(d, k, v) == d + [(k, v)]
  {
    if |d| > 0 {
      PutNew(d[1..], k, v);
      assert [d[0]] + (d[1..] + [(k, v)]) == d + [(k, v)];
    }
  }

  /** An existing type keeps its position: the types of the entries, in order,
      do not change. */
  lemma {:induction false} PutExisting(d: Dict, k: byte, v: bytes)
    requires Get(d, k).Some?
    ensures |Put(d, k, v)| == |d|
    ensures forall i :: 0 <= i < |d| ==> Put(d, k, v)[i].0 == d[i].0
    ensures forall i :: 0 <= i < |d| ==> Put(d, k, v)[i].1 == d[i].1 || Put(d, k, v)[i].1 == v
  {
    if d[0].0 != k {
      PutExisting(d[1..], k, v);
      assert forall i :: 1 <= i < |d| ==> Put(d, k, v)[i] == Put(d[1..], k, v)[i - 1];
    }
  }

  /** Updating keeps a dictionary free of repeated types and of over-long values. */
  lemma PutWellFormed(d: Dict, k: byte, v: bytes)
    requires Distinct(d) && Fits(d) && |v| < 256
    ensures Distinct(Put(d, k, v)) && Fits(Put(d, k, v))
  {
    var r := Put(d, k, v);
    if Get(d, k).None? {
      PutNew(d, k, v);
      GetNone(d, k);
    } else {
      PutExisting(d, k, v);
    }
  }

  /** An entry whose type the dictionary lacks can go in front of it without
      repeating a type. */
  lemma PrependFresh(k: byte, v: bytes, d: Dict)
    requires Distinct(d) && Get(d, k).None?
    ensures Distinct([(k, v)] + d)
  {
    GetNone(d, k);
    var e := [(k, v)] + d;
    forall i, j | 0 <= i < j < |e|
      ensures e[i].0 != e[j].0
    {
      if i > 0 {
        assert e[i] == d[i - 1];
      }
      assert e[j] == d[j - 1];
    }
  }

  /** In a dictionary without repeated types, `Get` finds every entry. */
  lemma GetDistinct(d: Dict, i: int)
    requires Distinct(d) && 0 <= i < |d|
    ensures Get(d, d[i].0) == Some(d[i].1)
  {
    if i > 0 {
      assert d[1..][i - 1] == d[i];
      GetDistinct(d[1..], i - 1);
    }
  }

  /** `for k, v in entries: d[k] = v`: the entries stored one after another,
      as a decoding loop stores the IEs it reads. */
  function PutAll(d: Dict, entries: seq<(byte, bytes)>): Dict
    decreases |entries|
  {
    if |entries| == 0 then d else PutAll(Put(d, entries[0].0, entries[0].1), entries[1..])
  }

  /** The types of a dictionary, in iteration order. */
  function Keys(d: Dict): (r: seq<byte>)
    ensures |r| == |d|
  {
    if |d| == 0 then [] else [d[0].0] + Keys(d[1..])
  }

  /** The types of `entries` not in `known`, each once, in the order of their
      first occurrence. */
  function NewKeys(known: seq<byte>, entries: seq<(byte, bytes)>): seq<byte>
    decreases |entries|
  {
    if |entries| == 0 then []
    else if entries[0].0 in known then NewKeys(known, entries[1..])
    else [entries[0].0] + NewKeys(known + [entries[0].0], entries[1..])
  }

  /** The value of the last entry of type `k`, if any. */
  function LastValue(entries: seq<(byte, bytes)>, k: byte): Option<bytes>
  {
    if |entries| == 0 then None
    else if entries[|entries| - 1].0 == k then Some(entries[|entries| - 1].1)
    else LastValue(entries[..|entries| - 1], k)
  }

  /** `d[k] = v` keeps the order of the types and appends `k` if it is new. */
  lemma {:induction false} PutKeys(d: Dict, k: byte, v: bytes)
    ensures Keys(Put(d, k, v)) == if k in Keys(d) then Keys(d) else Keys(d) + [k]
  {
    if |d| == 0 {
      assert Keys([(k, v)]) == [k];
    } else if d[0].0 == k {
      assert ([(k, v)] + d[1..])[1..] == d[1..];
      assert Keys(d)[0] == k;
    } else {
      var tail := Put(d[1..], k, v);
      assert ([d[0]] + tail)[1..] == tail;
      PutKeys(d[1..], k, v);
      assert k in Keys(d) <==> k in Keys(d[1..]);
      if k !in Keys(d[1..]) {
        assert [d[0].0] + (Keys(d[1..]) + [k]) == Keys(d) + [k];
      }
    }
  }

  /** Storing one more entry at the end is one more `Put`. */
  lemma {:induction false} PutAllSnoc(d: Dict, entries: seq<(byte, bytes)>, e: (byte, bytes))
    ensures PutAll(d, entries + [e]) == Put(PutAll(d, entries), e.0, e.1)
    decreases |entries|
  {
    if |entries| == 0 {
      assert entries + [e] == [e];
    } else {
      assert (entries + [e])[1..] == entries[1..] + [e];
      PutAllSnoc(Put(d, entries[0].0, entries[0].1), entries[1..], e);
    }
  }

  /** After storing a sequence of entries, each type maps to the value of its
      last entry, and a type with no entry keeps its old value. */
  lemma {:induction false} PutAllGet(d: Dict, entries: seq<(byte, bytes)>, k: byte)
    ensures Get(PutAll(d, entries), k) == if LastValue(entries, k).Some? then LastValue(entries, k) else Get(d, k)
    decreases |entries|
  {
    if |entries| > 0 {
      var n := |entries| - 1;
      assert entries == entries[..n] + [entries[n]];
      PutAllSnoc(d, entries[..n], entries[n]);
      PutGet(PutAll(d, entries[..n]), entries[n].0, entries[n].1, k);
      PutAllGet(d, entries[..n], k);
    }
  }

  /** Entries whose types are all new are stored in order at the end. */
  lemma {:induction false} PutAllFresh(d: Dict, entries: seq<(byte, bytes)>)
    requires Distinct(d + entries)
    ensures PutAll(d, entries) == d + entries
    decreases |entries|
  {
    if |entries| > 0 {
      var e := entries[0];
      var all := d + entries;
      assert Get(d, e.0).None? by {
        GetNone(d, e.0);
        forall i | 0 <= i < |d|
          ensures d[i].0 != e.0
        {
          assert all[i] == d[i] && all[|d|] == e;
        }
      }
      PutNew(d, e.0, e.1);
      assert (d + [e]) + entries[1..] == all;
      PutAllFresh(d + [e], entries[1..]);
    }
  }

  /** Storing entries of distinct types into an empty dictionary gives them
      back in order. */
  lemma PutAllDistinct(entries: seq<(byte, bytes)>)
    requires Distinct(entries)
    ensures PutAll([], entries) == entries
  {
    assert [] + entries == entries;
    PutAllFresh([], entries);
  }

  /** One step of `NewKeys`: the first entry's type joins the known types
      unless it is among them. */
  lemma NewKeysStep(known: seq<byte>, entries: seq<(byte, bytes)>)
    requires |entries| > 0
    ensures var k := entries[0].0;
            var known' := if k in known then known else known + [k];
            known' + NewKeys(known', entries[1..]) == known + NewKeys(known, entries)
  {
    var k := entries[0].0;
    if k !in known {
      var tail := NewKeys(known + [k], entries[1..]);
      assert (known + [k]) + tail == known + ([k] + tail);
    }
  }

  /** After storing a sequence of entries, the old types keep their positions
      and the new ones follow in the order of their first occurrence. */
  lemma {:induction false} PutAllKeys(d: Dict, entries: seq<(byte, bytes)>)
    ensures Keys(PutAll(d, entries)) == Keys(d) + NewKeys(Keys(d), entries)
    decreases |entries|
  {
    if |entries| == 0 {
      assert Keys(d) + [] == Keys(d);
    } else {
      var d' := Put(d, entries[0].0, entries[0].1);
      PutKeys(d, entries[0].0, entries[0].1);
      PutAllKeys(d', entries[1..]);
      NewKeysStep(Keys(d), entries);
    }
  }

  /** Every value fits the one-byte IE length field. */
  predicate Fits(d: Dict) {
    forall i :: 0 <= i < |d| ==> |d[i].1| < 256
  }

  /** A value found in a dictionary that fits comes from one of its entries, so
      it fits the length field too. */
  lemma {:induction false} GetFits(d: Dict, k: byte)
    requires Fits(d) && Get(d, k).Some?
    ensures |Get(d, k).value| < 256
  {
    if d[0].0 != k {
      GetFits(d[1..], k);
    }
  }

  /** The number of bytes the IEs of `d` take on the wire. */
  function Size(d: Dict): nat {
    if |d| == 0 then 0 else 2 + |d[0].1| + Size(d[1..])
  }

  /** Each IE takes at most 257 bytes. */
  lemma {:induction false} SizeBound(d: Dict)
    requires Fits(d)
    ensures Size(d) <= 257 * |d|
  {
    if |d| > 0 {
      SizeBound(d[1..]);
    }
  }

  /** One IE: type byte, one-byte length, value. Building the length with
      `Int8ul` (server) or `bytearray.extend` (test client) fails from 256 on. */
  function EncodeIe(t: byte, v: bytes): (r: Option<bytes>)
    ensures r.Some? <==> |v| < 256
    ensures r.Some? ==> |r.value| == 2 + |v| && r.value[0] == t && r.value[1] == |v| && r.value[2..] == v
  {
    if |v| < 256 then Some([t, |v|] + v) else None
  }

  /** The IEs of `d`, encoded one after another in dictionary order. */
  function EncodeIes(d: Dict): (r: Option<bytes>)
    ensures r.Some? <==> Fits(d)
    ensures r.Some? ==> |r.value| == Size(d)
  {
    if |d| == 0 then Some([])
    else
      match EncodeIe(d[0].0, d[0].1)
      case None => None
      case Some(head) =>
        match EncodeIes(d[1..])
        case None => None
        case Some(tail) => Some(head + tail)
  }

  /** The entries `[(k, v)]` when `v` is non-empty and none otherwise: Python's
      `if v: ies[k] = v` for a key not yet present. */
  function IfGiven(k: byte, v: bytes): Dict {
    if |v| > 0 then [(k, v)] else []
  }
}

/** The TABLE_DUMP IPv4 entry body (section 4.2 of RFC 6396): fixed-offset
    fields, a status byte that must be 1, and a length-prefixed span of BGP
    path attributes that is consumed but not kept. */
module TableDump {
  import opened Bytes
  import opened Parsers

  /** Seconds since the epoch with a microsecond offset, as read from the wire. */
  datatype Timestamp = Timestamp(seconds: uint32, microseconds: uint32)

  /** A decoded TABLE_DUMP IPv4 entry. Addresses are the raw 32-bit values. */
  datatype TableDumpV4 = TableDumpV4(
    viewNum: uint16,
    seqNum: uint16,
    prefix: uint32,
    prefixLen: byte,
    originatedTime: Timestamp,
    peerIpAddress: uint32,
    peerAs: uint16,
    attrLen: uint16)

  /** Bytes of the body before the attribute span. */
  const FixedLen: nat := 22

  /** Offset of the status byte within the body. */
  const StatusOffset: nat := 9

  /** The only status value the decoder accepts. */
  const StatusOk: byte := 1

  /** Whether `s` holds a whole body at offset `at`: status 1, all fixed
      fields, and as many attribute bytes as the attribute length announces. */
  predicate BodyFitsAt(s: seq<byte>, at: nat)
  {
    && at + StatusOffset < |s| && s[at + StatusOffset] == StatusOk
    && at + FixedLen <= |s| && at + FixedLen + U16At(s, at + 20) <= |s|
  }

  /** Reads a body at offset `at`, field by field in wire order. A status byte
      other than 1 is `Bad` as soon as it is read; running out of input at any
      field, the attribute span included, is `Short`. On success the read ends
      22 + attrLen bytes further on and the fields are the big-endian values
      at body offsets 0, 2, 4, 8, 10, 14, 18 and 20. */
  function ReadTableDumpV4(s: seq<byte>, at: nat): (r: Step<TableDumpV4>)
    ensures r.Bad? <==> at + StatusOffset < |s| && s[at + StatusOffset] != StatusOk
    ensures r.Got? <==> BodyFitsAt(s, at)
    ensures r.Got? ==>
      && r.value.attrLen == U16At(s, at + 20)
      && r.next == at + FixedLen + r.value.attrLen
      && r.value.viewNum == U16At(s, at)
      && r.value.seqNum == U16At(s, at + 2)
      && r.value.prefix == U32At(s, at + 4)
      && r.value.prefixLen == s[at + 8]
      && r.value.originatedTime == Timestamp(U32At(s, at + 10), 0)
      && r.value.peerIpAddress == U32At(s, at + 14)
      && r.value.peerAs == U16At(s, at + 18)
  {
    var viewNum :- ReadU16(s, at);
    var seqNum :- ReadU16(s, viewNum.next);
    var prefix :- ReadU32(s, seqNum.next);
    var prefixLen :- ReadU8(s, prefix.next);
    var status :- VerifyU8(s, prefixLen.next, StatusOk);
    var originatedTime :- ReadU32(s, status.next);
    var peerIpAddress :- ReadU32(s, originatedTime.next);
    var peerAs :- ReadU16(s, peerIpAddress.next);
    var attrLen :- ReadU16(s, peerAs.next);
    var attributes :- Take(s, attrLen.next, attrLen.value);
    Got(attributes.next, TableDumpV4(
      viewNum.value,
      seqNum.value,
      prefix.value,
      prefixLen.value,
      Timestamp(originatedTime.value, 0),
      peerIpAddress.value,
      peerAs.value,
      attrLen.value))
  }

  /** The body decoder over a slice: `Done` with exactly 22 + attrLen bytes
      consumed, `Error` for a status byte other than 1, `Incomplete` when the
      slice ends early. */
  function ParseTableDumpV4(s: seq<byte>): (r: ParseResult<TableDumpV4>)
    ensures r.Error? <==> StatusOffset < |s| && s[StatusOffset] != StatusOk
    ensures r.Done? <==> BodyFitsAt(s, 0)
    ensures r.Done? ==> |s| == FixedLen + r.value.attrLen + |r.rest|
  {
    Finish(s, ReadTableDumpV4(s, 0))
  }

  /** Whether an entry can be written: it has no microsecond part, which the
      body layout cannot carry. */
  predicate Encodable(t: TableDumpV4)
  {
    t.originatedTime.microseconds == 0
  }

  /** The wire form of an entry with status 1, followed by its attribute bytes. */
  function EncodeTableDumpV4(t: TableDumpV4, attributes: seq<byte>): (b: seq<byte>)
    requires |attributes| == t.attrLen
    ensures |b| == FixedLen + t.attrLen
  {
    U16Bytes(t.viewNum) + U16Bytes(t.seqNum) + U32Bytes(t.prefix) + [t.prefixLen, StatusOk]
    + U32Bytes(t.originatedTime.seconds) + U32Bytes(t.peerIpAddress)
    + U16Bytes(t.peerAs) + U16Bytes(t.attrLen) + attributes
  }

  /** Reading an encoded entry at any offset gives the entry back, whatever
      precedes or follows it. */
  lemma ReadEncoded(before: seq<byte>, t: TableDumpV4, attributes: seq<byte>, after: seq<byte>)
    requires Encodable(t) && |attributes| == t.attrLen
    ensures var s := before + EncodeTableDumpV4(t, attributes) + after;
      ReadTableDumpV4(s, |before|) == Got(|before| + FixedLen + t.attrLen, t)
  {
    var e := EncodeTableDumpV4(t, attributes);
    var s := before + e + after;
    ReadEncodedAlone(t, attributes);
    assert s[|before|..|before| + |e|] == e;
    ReadWindow(s, |before|, e);
  }

  /** An encoded entry on its own reads back as itself, consuming all of it. */
  lemma ReadEncodedAlone(t: TableDumpV4, attributes: seq<byte>)
    requires Encodable(t) && |attributes| == t.attrLen
    ensures ReadTableDumpV4(EncodeTableDumpV4(t, attributes), 0) == Got(FixedLen + t.attrLen, t)
  {
    var e := EncodeTableDumpV4(t, attributes);
    assert e[8] == t.prefixLen && e[9] == StatusOk;
    assert U16At(e, 0) == t.viewNum && U16At(e, 2) == t.seqNum && U32At(e, 4) == t.prefix;
    assert U32At(e, 10) == t.originatedTime.seconds && U32At(e, 14) == t.peerIpAddress;
    assert U16At(e, 18) == t.peerAs && U16At(e, 20) == t.attrLen;
  }

  /** The status byte and attribute length of an encoded entry, where a
      reader finds them. */
  lemma EncodedLayout(t: TableDumpV4, attributes: seq<byte>)
    requires |attributes| == t.attrLen
    ensures var e := EncodeTableDumpV4(t, attributes);
      e[StatusOffset] == StatusOk && U16At(e, 20) == t.attrLen
  {
  }

  /** A read depends only on the bytes it covers: reading a window `w` found at
      offset `at` of `s` gives the same entry as reading `w` alone. */
  lemma ReadWindow(s: seq<byte>, at: nat, w: seq<byte>)
    requires at + |w| <= |s| && s[at..at + |w|] == w
    requires ReadTableDumpV4(w, 0).Got?
    ensures ReadTableDumpV4(s, at) == Got(at + ReadTableDumpV4(w, 0).next, ReadTableDumpV4(w, 0).value)
  {
    assert forall k :: 0 <= k < |w| ==> s[at + k] == w[k];
  }

  /** Decoding an encoded entry gives the entry back and leaves whatever
      followed it untouched. */
  lemma ParseEncode(t: TableDumpV4, attributes: seq<byte>, rest: seq<byte>)
    requires Encodable(t) && |attributes| == t.attrLen
    ensures ParseTableDumpV4(EncodeTableDumpV4(t, attributes) + rest) == Done(rest, t)
  {
    ReadEncoded([], t, attributes, rest);
    assert [] + EncodeTableDumpV4(t, attributes) + rest == EncodeTableDumpV4(t, attributes) + rest;
  }

  /** Conversely, the bytes a successful read consumed are the encoding of the
      entry it returned with the attribute span it skipped. */
  lemma EncodedRead(s: seq<byte>, at: nat)
    requires ReadTableDumpV4(s, at).Got?
    ensures var r := ReadTableDumpV4(s, at);
      && Encodable(r.value)
      && s[at..r.next] == EncodeTableDumpV4(r.value, s[at + FixedLen..r.next])
  {
    EncodedFields(s, at, ReadTableDumpV4(s, at).value);
  }

  /** Bytes holding the fields of `t` at their offsets, with status 1, are the
      encoding of `t` with the attribute span that follows them. */
  lemma EncodedFields(s: seq<byte>, at: nat, t: TableDumpV4)
    requires at + FixedLen + t.attrLen <= |s|
    requires s[at + StatusOffset] == StatusOk && s[at + 8] == t.prefixLen
    requires U16At(s, at) == t.viewNum && U16At(s, at + 2) == t.seqNum
    requires U32At(s, at + 4) == t.prefix && t.originatedTime == Timestamp(U32At(s, at + 10), 0)
    requires U32At(s, at + 14) == t.peerIpAddress && U16At(s, at + 18) == t.peerAs
    requires U16At(s, at + 20) == t.attrLen
    ensures s[at..at + FixedLen + t.attrLen] == EncodeTableDumpV4(t, s[at + FixedLen..at + FixedLen + t.attrLen])
  {
    var e := EncodeTableDumpV4(t, s[at + FixedLen..at + FixedLen + t.attrLen]);
    U16AtBytes(s, at);
    U16AtBytes(s, at + 2);
    U32AtBytes(s, at + 4);
    U32AtBytes(s, at + 10);
    U32AtBytes(s, at + 14);
    U16AtBytes(s, at + 18);
    U16AtBytes(s, at + 20);
    assert forall k :: 0 <= k < |e| ==> e[k] == s[at + k];
  }

  /** Conversely, whatever decodes successfully is the encoding of the decoded
      entry with the consumed attribute span, followed by the remainder. */
  lemma EncodeParse(s: seq<byte>)
    requires ParseTableDumpV4(s).Done?
    ensures var r := ParseTableDumpV4(s);
      && Encodable(r.value)
      && s == EncodeTableDumpV4(r.value, s[FixedLen..FixedLen + r.value.attrLen]) + r.rest
  {
    EncodedRead(s, 0);
    var r := ReadTableDumpV4(s, 0);
    assert s == s[0..r.next] + s[r.next..];
  }
}

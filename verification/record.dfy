/** The MRT record: the common header of section 2 of RFC 6396, the optional
    microsecond field of section 3 of RFC 6396, and a body that is always read
    as a TABLE_DUMP IPv4 entry, whatever the header's kind and declared length. */
module Record {
  import opened Bytes
  import opened Parsers
  import opened RecordType
  import opened TableDump

  /** Bytes of the common header: timestamp, type, subtype and length. */
  const CommonHeaderLen: nat := 12

  /** Bytes of the header when the microsecond field follows it. */
  const EtHeaderLen: nat := 16

  /** The fewest bytes a record can take: a common header and a body with no
      attributes. */
  const MinRecordLen: nat := CommonHeaderLen + FixedLen

  /** The header as read, before the record is assembled. */
  datatype Header = Header(
    timestamp: uint32,
    recordType: MrtRecordType,
    recordSize: uint32,
    microsecondTimestamp: Option<uint32>)

  /** A decoded record. `recordSize` is the declared length, kept as read. */
  datatype MrtRecord = MrtRecord(
    timestamp: Timestamp,
    recordType: MrtRecordType,
    recordSize: uint32,
    message: TableDumpV4)

  /** The header length of a record of kind `k`. */
  function HeaderLen(k: MrtRecordType): (n: nat)
    ensures n == CommonHeaderLen || n == EtHeaderLen
    ensures n == EtHeaderLen <==> IsEt(k)
  {
    if IsEt(k) then EtHeaderLen else CommonHeaderLen
  }

  /** The kind named by the type and subtype codes at offsets 4 and 6. */
  function KindAt(s: seq<byte>): MrtRecordType
    requires 8 <= |s|
  {
    FromCodes(U16At(s, 4), U16At(s, 6))
  }

  /** Whether `s` starts with a whole header, microsecond field included when
      the kind calls for one. */
  predicate HeaderFits(s: seq<byte>)
  {
    CommonHeaderLen <= |s| && HeaderLen(KindAt(s)) <= |s|
  }

  /** Reads timestamp, type, subtype and declared length big-endian at offsets
      0, 4, 6 and 8, classifies the codes, and reads the microsecond field at
      offset 12 exactly when the kind is an `_ET` kind. Never `Bad`. */
  function ReadHeader(s: seq<byte>): (r: Step<Header>)
    ensures !r.Bad?
    ensures r.Got? <==> HeaderFits(s)
    ensures r.Got? ==>
      && r.value.recordType == KindAt(s)
      && r.next == HeaderLen(r.value.recordType)
      && r.value.timestamp == U32At(s, 0)
      && r.value.recordSize == U32At(s, 8)
      && (r.value.microsecondTimestamp.Some? <==> IsEt(r.value.recordType))
      && (IsEt(r.value.recordType) ==> r.value.microsecondTimestamp == Some(U32At(s, 12)))
  {
    var timestamp :- ReadU32(s, 0);
    var recordType :- ReadU16(s, timestamp.next);
    var recordSubtype :- ReadU16(s, recordType.next);
    var recordFullType := FromCodes(recordType.value, recordSubtype.value);
    var recordSize :- ReadU32(s, recordSubtype.next);
    var microsecondTimestamp :- CondU32(IsEt(recordFullType), s, recordSize.next);
    Got(microsecondTimestamp.next,
      Header(timestamp.value, recordFullType, recordSize.value, microsecondTimestamp.value))
  }

  /** Reads a header and then, unconditionally, a TABLE_DUMP IPv4 body right
      after it; the declared length neither bounds nor skips the body. */
  function ReadRecord(s: seq<byte>): (r: Step<MrtRecord>)
    ensures r.Got? <==> HeaderFits(s) && BodyFitsAt(s, HeaderLen(KindAt(s)))
    ensures r.Bad? <==>
      && HeaderFits(s)
      && HeaderLen(KindAt(s)) + StatusOffset < |s|
      && s[HeaderLen(KindAt(s)) + StatusOffset] != StatusOk
    ensures r.Got? ==>
      && r.value.recordType == KindAt(s)
      && r.value.timestamp.seconds == U32At(s, 0)
      && r.value.timestamp.microseconds == (if IsEt(KindAt(s)) then U32At(s, 12) else 0)
      && r.value.recordSize == U32At(s, 8)
      && ReadTableDumpV4(s, HeaderLen(KindAt(s))) == Got(r.next, r.value.message)
  {
    var header :- ReadHeader(s);
    var table :- ReadTableDumpV4(s, header.next);
    Got(table.next, MrtRecord(
      Timestamp(header.value.timestamp, header.value.microsecondTimestamp.UnwrapOr(0)),
      header.value.recordType,
      header.value.recordSize,
      table.value))
  }

  /** The record decoder over a slice. On success the record takes the
      header's fields, a microsecond part of 0 when the field is absent, and
      the body's entry, and exactly header + 22 + attrLen bytes (at least 34)
      are consumed. A status byte other than 1 is an `Error`; too little input
      anywhere, the attribute span included, is `Incomplete`. */
  function ParseRecord(s: seq<byte>): (r: ParseResult<MrtRecord>)
    ensures r.Done? <==> HeaderFits(s) && BodyFitsAt(s, HeaderLen(KindAt(s)))
    ensures r.Error? <==>
      && HeaderFits(s)
      && HeaderLen(KindAt(s)) + StatusOffset < |s|
      && s[HeaderLen(KindAt(s)) + StatusOffset] != StatusOk
    ensures r.Done? ==>
      && r.value.recordType == KindAt(s)
      && |s| == HeaderLen(KindAt(s)) + FixedLen + r.value.message.attrLen + |r.rest|
      && |s| >= MinRecordLen + |r.rest|
      && r.rest == s[|s| - |r.rest|..]
      && r.value.timestamp.seconds == U32At(s, 0)
      && r.value.timestamp.microseconds == (if IsEt(KindAt(s)) then U32At(s, 12) else 0)
      && r.value.recordSize == U32At(s, 8)
  {
    Finish(s, ReadRecord(s))
  }

  /** A header's raw fields, codes included, for writing it out. */
  datatype RawHeader = RawHeader(
    timestamp: uint32,
    typeCode: uint16,
    subtypeCode: uint16,
    length: uint32,
    microseconds: uint32)
  {
    function Kind(): MrtRecordType
    {
      FromCodes(typeCode, subtypeCode)
    }
  }

  /** The wire form of a header; the microsecond field is written only for
      `_ET` kinds. */
  function EncodeHeader(h: RawHeader): (b: seq<byte>)
    ensures |b| == HeaderLen(h.Kind())
  {
    U32Bytes(h.timestamp) + U16Bytes(h.typeCode) + U16Bytes(h.subtypeCode) + U32Bytes(h.length)
    + (if IsEt(h.Kind()) then U32Bytes(h.microseconds) else [])
  }

  /** The wire form of a record: a header followed by a TABLE_DUMP IPv4 entry. */
  function EncodeRecord(h: RawHeader, t: TableDumpV4, attributes: seq<byte>): (b: seq<byte>)
    requires |attributes| == t.attrLen
    ensures |b| == HeaderLen(h.Kind()) + FixedLen + t.attrLen
  {
    EncodeHeader(h) + EncodeTableDumpV4(t, attributes)
  }

  /** The record the decoder builds from an encoded header and entry. */
  function DecodedRecord(h: RawHeader, t: TableDumpV4): MrtRecord
  {
    MrtRecord(Timestamp(h.timestamp, if IsEt(h.Kind()) then h.microseconds else 0), h.Kind(), h.length, t)
  }

  /** The raw header fields stored at the start of `s`. */
  function RawHeaderAt(s: seq<byte>): RawHeader
    requires HeaderFits(s)
  {
    RawHeader(U32At(s, 0), U16At(s, 4), U16At(s, 6), U32At(s, 8),
      if IsEt(KindAt(s)) then U32At(s, 12) else 0)
  }

  /** An encoded header, followed by anything, reads back as its own fields. */
  lemma ReadEncodedHeader(h: RawHeader, after: seq<byte>)
    ensures var s := EncodeHeader(h) + after;
      && HeaderFits(s)
      && KindAt(s) == h.Kind()
      && RawHeaderAt(s) == h.(microseconds := if IsEt(h.Kind()) then h.microseconds else 0)
  {
    var e := EncodeHeader(h);
    var s := e + after;
    assert forall k :: 0 <= k < |e| ==> s[k] == e[k];
    assert U16At(s, 4) == h.typeCode;
    assert U16At(s, 6) == h.subtypeCode;
  }

  /** Decoding an encoded record gives the record back and leaves the bytes
      after it untouched. */
  lemma ParseEncodeRecord(h: RawHeader, t: TableDumpV4, attributes: seq<byte>, rest: seq<byte>)
    requires Encodable(t) && |attributes| == t.attrLen
    ensures ParseRecord(EncodeRecord(h, t, attributes) + rest) == Done(rest, DecodedRecord(h, t))
  {
    var header := EncodeHeader(h);
    var s := EncodeRecord(h, t, attributes) + rest;
    assert s == header + EncodeTableDumpV4(t, attributes) + rest;
    ReadEncodedHeader(h, EncodeTableDumpV4(t, attributes) + rest);
    ReadEncoded(header, t, attributes, rest);
    assert s[|header| + FixedLen + t.attrLen..] == rest;
  }

  /** Conversely, a record that decodes successfully is the encoding of the
      raw header and entry stored in it, followed by the remainder. */
  lemma EncodeParseRecord(s: seq<byte>)
    requires ParseRecord(s).Done?
    ensures var r := ParseRecord(s);
      var hl := HeaderLen(KindAt(s));
      && Encodable(r.value.message)
      && r.value == DecodedRecord(RawHeaderAt(s), r.value.message)
      && s == EncodeRecord(RawHeaderAt(s), r.value.message, s[hl + FixedLen..|s| - |r.rest|]) + r.rest
  {
    var r := ParseRecord(s);
    var hl := HeaderLen(KindAt(s));
    DecodedRecordAt(s);
    var next := ReadRecord(s).next;
    EncodedRead(s, hl);
    HeaderBytes(s);
    Assemble(s, hl, next, EncodeHeader(RawHeaderAt(s)),
      EncodeTableDumpV4(r.value.message, s[hl + FixedLen..next]), r.rest);
  }

  /** A sequence cut in three is the concatenation of its pieces. */
  lemma Assemble(s: seq<byte>, i: nat, j: nat, a: seq<byte>, b: seq<byte>, c: seq<byte>)
    requires i <= j <= |s|
    requires s[..i] == a && s[i..j] == b && s[j..] == c
    ensures s == a + b + c
  {
    assert s == s[..i] + s[i..j] + s[j..];
  }

  /** A record that decodes successfully is the one built from its raw header. */
  lemma DecodedRecordAt(s: seq<byte>)
    requires ParseRecord(s).Done?
    ensures ReadRecord(s).Got?
    ensures ParseRecord(s).value == DecodedRecord(RawHeaderAt(s), ParseRecord(s).value.message)
    ensures ParseRecord(s).rest == s[ReadRecord(s).next..]
    ensures ReadTableDumpV4(s, HeaderLen(KindAt(s))) == Got(ReadRecord(s).next, ParseRecord(s).value.message)
  {
  }

  /** The bytes of a header that fits are the encoding of its raw fields. */
  lemma HeaderBytes(s: seq<byte>)
    requires HeaderFits(s)
    ensures s[..HeaderLen(KindAt(s))] == EncodeHeader(RawHeaderAt(s))
  {
    U32AtBytes(s, 0);
    U16AtBytes(s, 4);
    U16AtBytes(s, 6);
    U32AtBytes(s, 8);
    if IsEt(KindAt(s)) {
      U32AtBytes(s, 12);
    }
  }

  /** `s` with the declared length field, at offsets 8 to 11, rewritten to
      `size`: every other byte stays where it was. */
  function WithSize(s: seq<byte>, size: uint32): (s': seq<byte>)
    requires CommonHeaderLen <= |s|
    ensures |s'| == |s| && U32At(s', 8) == size
    ensures forall k :: 0 <= k < |s| && !(8 <= k < 12) ==> s'[k] == s[k]
  {
    s[..8] + U32Bytes(size) + s[12..]
  }

  /** Rewriting the declared length changes the header read in that field only. */
  lemma HeaderSizeIgnored(s: seq<byte>, size: uint32)
    requires CommonHeaderLen <= |s|
    ensures ReadHeader(WithSize(s, size)) ==
      if ReadHeader(s).Got?
      then Got(ReadHeader(s).next, ReadHeader(s).value.(recordSize := size))
      else ReadHeader(s)
  {
    var s' := WithSize(s, size);
    assert s'[4] == s[4] && s'[5] == s[5] && s'[6] == s[6] && s'[7] == s[7];
    assert U32At(s', 0) == U32At(s, 0);
    if 16 <= |s| {
      assert U32At(s', 12) == U32At(s, 12);
    }
  }

  /** Two byte strings of one length that agree from `at` on. */
  predicate AgreeFrom(s: seq<byte>, s': seq<byte>, at: nat)
  {
    at <= |s| == |s'| && forall k :: at <= k < |s| ==> s[k] == s'[k]
  }

  /** A body read depends only on the bytes from its offset on. */
  lemma BodyFrame(s: seq<byte>, s': seq<byte>, at: nat)
    requires AgreeFrom(s, s', at)
    ensures ReadTableDumpV4(s, at) == ReadTableDumpV4(s', at)
  {
  }

  /** Byte strings that agree from `at` on have the same suffixes there. */
  lemma SameSuffix(s: seq<byte>, s': seq<byte>, at: nat, i: nat)
    requires AgreeFrom(s, s', at) && at <= i <= |s|
    ensures s[i..] == s'[i..]
  {
  }

  /** Rewriting the declared length changes the record read in that field
      only, and not how far the read gets. */
  lemma ReadRecordSizeIgnored(s: seq<byte>, size: uint32)
    requires CommonHeaderLen <= |s|
    ensures ReadRecord(WithSize(s, size)) ==
      if ReadRecord(s).Got?
      then Got(ReadRecord(s).next, ReadRecord(s).value.(recordSize := size))
      else ReadRecord(s)
  {
    HeaderSizeIgnored(s, size);
    var h := ReadHeader(s);
    if h.Got? {
      BodyFrame(s, WithSize(s, size), h.next);
    }
  }

  /** The declared length is passed through and nothing else: rewriting it
      changes neither the outcome nor how much input is consumed. */
  lemma RecordSizeIgnored(s: seq<byte>, size: uint32)
    requires CommonHeaderLen <= |s|
    ensures var s' := WithSize(s, size);
      && ParseRecord(s').Done? == ParseRecord(s).Done?
      && ParseRecord(s').Error? == ParseRecord(s).Error?
      && (ParseRecord(s).Done? ==>
            ParseRecord(s') == Done(ParseRecord(s).rest, ParseRecord(s).value.(recordSize := size)))
  {
    ReadRecordSizeIgnored(s, size);
    if ReadRecord(s).Got? {
      SameSuffix(s, WithSize(s, size), CommonHeaderLen, ReadRecord(s).next);
    }
    FinishSized(s, WithSize(s, size), size);
  }

  /** Finishing two reads that agree except in the declared length. */
  lemma FinishSized(s: seq<byte>, s': seq<byte>, size: uint32)
    requires |s'| == |s|
    requires ReadRecord(s') ==
      if ReadRecord(s).Got?
      then Got(ReadRecord(s).next, ReadRecord(s).value.(recordSize := size))
      else ReadRecord(s)
    requires ReadRecord(s).Got? ==> s'[ReadRecord(s).next..] == s[ReadRecord(s).next..]
    ensures && ParseRecord(s').Done? == ParseRecord(s).Done?
      && ParseRecord(s').Error? == ParseRecord(s).Error?
      && (ParseRecord(s).Done? ==>
            ParseRecord(s') == Done(ParseRecord(s).rest, ParseRecord(s).value.(recordSize := size)))
  {
  }

  /** An encoded record whose status byte is replaced by `status`, followed
      by `after`. */
  function WithStatus(h: RawHeader, t: TableDumpV4, attributes: seq<byte>, status: byte, after: seq<byte>): (s: seq<byte>)
    requires |attributes| == t.attrLen
    ensures |s| == HeaderLen(h.Kind()) + FixedLen + t.attrLen + |after|
  {
    EncodeHeader(h) + EncodeTableDumpV4(t, attributes)[StatusOffset := status] + after
  }

  /** A status byte other than 1 in an otherwise encoded record makes the
      decoder report an `Error`, whatever follows. */
  lemma BadStatusIsError(h: RawHeader, t: TableDumpV4, attributes: seq<byte>, status: byte, after: seq<byte>)
    requires |attributes| == t.attrLen && status != StatusOk
    ensures ParseRecord(WithStatus(h, t, attributes, status, after)) == Error(Verify)
  {
    var rest := EncodeTableDumpV4(t, attributes)[StatusOffset := status] + after;
    assert WithStatus(h, t, attributes, status, after) == EncodeHeader(h) + rest;
    assert rest[StatusOffset] == status;
    BadStatusAfterHeader(h, rest);
  }

  /** An encoded header followed by a body whose status byte is not 1 makes
      the decoder report an `Error`. */
  lemma BadStatusAfterHeader(h: RawHeader, rest: seq<byte>)
    requires StatusOffset < |rest| && rest[StatusOffset] != StatusOk
    ensures ParseRecord(EncodeHeader(h) + rest) == Error(Verify)
  {
    var s := EncodeHeader(h) + rest;
    ReadEncodedHeader(h, rest);
    assert s[HeaderLen(h.Kind()) + StatusOffset] == rest[StatusOffset];
  }

  /** What a decoder sees in a cut-short encoded record that still holds
      the type codes: the record's kind, its status byte where it is present
      and its attribute length where that is present. */
  lemma TruncatedFields(h: RawHeader, t: TableDumpV4, attributes: seq<byte>, n: nat)
    requires Encodable(t) && |attributes| == t.attrLen
    requires 8 <= n < |EncodeRecord(h, t, attributes)|
    ensures var s := EncodeRecord(h, t, attributes)[..n];
      var hl := HeaderLen(h.Kind());
      && KindAt(s) == h.Kind()
      && (hl + StatusOffset < n ==> s[hl + StatusOffset] == StatusOk)
      && (hl + FixedLen <= n ==> U16At(s, hl + 20) == t.attrLen)
  {
    var b := EncodeTableDumpV4(t, attributes);
    var e := EncodeHeader(h) + b;
    var s := e[..n];
    var hl := HeaderLen(h.Kind());
    assert EncodeRecord(h, t, attributes) == e;
    EncodedLayout(t, attributes);
    ReadEncodedHeader(h, b);
    assert s[4] == e[4] && s[5] == e[5] && s[6] == e[6] && s[7] == e[7];
    if hl + StatusOffset < n {
      assert s[hl + StatusOffset] == b[StatusOffset];
    }
    if hl + FixedLen <= n {
      assert s[hl + 20] == b[20] && s[hl + 21] == b[21];
    }
  }

  /** An input too short for its header and the 22 fixed bytes of an entry
      never decodes to a record, whatever length the header declares: it is an
      `Error` when the whole header and a status byte other than 1 are
      present, and `Incomplete` otherwise. */
  lemma ShortInputNotRecord(s: seq<byte>)
    requires 8 <= |s| ==> |s| < HeaderLen(KindAt(s)) + FixedLen
    ensures ParseRecord(s) ==
      if HeaderFits(s) && HeaderLen(KindAt(s)) + StatusOffset < |s|
         && s[HeaderLen(KindAt(s)) + StatusOffset] != StatusOk
      then Error(Verify)
      else Incomplete
  {
  }

  /** Cutting an encoded record short anywhere makes the decoder report
      `Incomplete`: no prefix of a record is mistaken for one. */
  lemma TruncatedIsIncomplete(h: RawHeader, t: TableDumpV4, attributes: seq<byte>, n: nat)
    requires Encodable(t) && |attributes| == t.attrLen
    requires n < |EncodeRecord(h, t, attributes)|
    ensures ParseRecord(EncodeRecord(h, t, attributes)[..n]) == Incomplete
  {
    if 8 <= n {
      TruncatedFields(h, t, attributes, n);
    }
  }
}

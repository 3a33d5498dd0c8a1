/** The record iterator over a whole dump: each step decodes one record from
    the front of the buffer and keeps the unconsumed remainder as the new
    buffer. Running out of input ends the iteration; a decode error aborts it. */
module Dump {
  import opened Bytes
  import opened Parsers
  import opened TableDump
  import opened Record

  /** The iterator's state: the bytes not yet decoded and the number of
      records yielded so far. */
  datatype MrtDumpIterator = MrtDumpIterator(buffer: seq<byte>, index: nat)

  /** What one step of the iterator produces: a record, the end of the
      sequence, or the abort that a decode error causes. */
  datatype Outcome = Item(record: MrtRecord) | End | Panic(kind: ErrorKind)

  /** The state after a step together with what the step produced. */
  datatype Advance = Advance(iter: MrtDumpIterator, outcome: Outcome)

  /** A fresh iterator over a dump's bytes. */
  function IntoIter(buffer: seq<byte>): (it: MrtDumpIterator)
    ensures it.buffer == buffer && it.index == 0
  {
    MrtDumpIterator(buffer, 0)
  }

  /** One step. On a decoded record it yields that record, the buffer
      becomes the decoder's remainder (a strict suffix of itself, at least 34
      bytes shorter) and the index goes up by exactly one;
      otherwise the state is left as it was. The step ends the sequence when
      the decoder needs more input and aborts when it reports an error. */
  function Next(it: MrtDumpIterator): (a: Advance)
    ensures a.outcome.Item? <==> ParseRecord(it.buffer).Done?
    ensures a.outcome.End? <==> ParseRecord(it.buffer).Incomplete?
    ensures a.outcome.Item? ==>
      && a.outcome.record == ParseRecord(it.buffer).value
      && a.iter.buffer == ParseRecord(it.buffer).rest
      && |a.iter.buffer| + MinRecordLen <= |it.buffer|
      && a.iter.buffer == it.buffer[|it.buffer| - |a.iter.buffer|..]
      && a.iter.index == it.index + 1
    ensures a.outcome.Panic? ==> ParseRecord(it.buffer) == Error(a.outcome.kind)
    ensures !a.outcome.Item? ==> a.iter == it
  {
    match ParseRecord(it.buffer)
    case Done(rest, record) => Advance(MrtDumpIterator(rest, it.index + 1), Item(record))
    case Error(kind) => Advance(it, Panic(kind))
    case Incomplete => Advance(it, End)
  }

  /** The records an iteration yields, the state it stopped in, and how it
      stopped. */
  datatype Run = Run(records: seq<MrtRecord>, last: MrtDumpIterator, outcome: Outcome)

  /** Steps the iterator until it stops yielding records. It stops after at
      most a 34th (`MinRecordLen`) as many records as the buffer has bytes, in a state whose
      index counts the records yielded. */
  function Drain(it: MrtDumpIterator): (run: Run)
    ensures !run.outcome.Item?
    ensures run.last.index == it.index + |run.records|
    ensures |run.records| * MinRecordLen + |run.last.buffer| <= |it.buffer|
    decreases |it.buffer|
  {
    assert MinRecordLen == 34;
    var step := Next(it);
    if step.outcome.Item? then
      var more := Drain(step.iter);
      Run([step.outcome.record] + more.records, more.last, more.outcome)
    else
      Run([], it, step.outcome)
  }

  /** The outcome recorded is what one more step from the final state
      produces: the iteration stopped exactly where a step first failed to
      yield a record. */
  lemma {:induction false} DrainStops(it: MrtDumpIterator)
    ensures Next(Drain(it).last).outcome == Drain(it).outcome
    decreases |it.buffer|
  {
    var step := Next(it);
    if step.outcome.Item? {
      DrainStops(step.iter);
    }
  }

  /** A record to write into a dump: its raw header, its entry, and the
      attribute bytes the entry announces. */
  datatype Entry = Entry(header: RawHeader, table: TableDumpV4, attributes: seq<byte>)

  /** Whether an entry can be written: its fields fit their widths and its
      attribute span is as long as its `attr_len` says. */
  predicate WellFormed(e: Entry)
  {
    Encodable(e.table) && |e.attributes| == e.table.attrLen
  }

  /** Byte strings written one after the other. */
  function Concat(chunks: seq<seq<byte>>): seq<byte>
  {
    if chunks == [] then [] else chunks[0] + Concat(chunks[1..])
  }

  /** The encoding of each entry, in order. */
  function Chunks(entries: seq<Entry>): (chunks: seq<seq<byte>>)
    requires forall i :: 0 <= i < |entries| ==> WellFormed(entries[i])
    ensures |chunks| == |entries|
  {
    seq(|entries|, i requires 0 <= i < |entries| && WellFormed(entries[i]) => EncodeRecord(entries[i].header, entries[i].table, entries[i].attributes))
  }

  /** The bytes of a dump holding `entries` back to back. */
  function EncodeDump(entries: seq<Entry>): seq<byte>
    requires forall i :: 0 <= i < |entries| ==> WellFormed(entries[i])
  {
    Concat(Chunks(entries))
  }

  /** The records the decoder is expected to yield for `entries`, in order. */
  function DecodedDump(entries: seq<Entry>): (records: seq<MrtRecord>)
    ensures |records| == |entries|
  {
    seq(|entries|, i requires 0 <= i < |entries| => DecodedRecord(entries[i].header, entries[i].table))
  }

  /** Whether `chunk` decodes to `record` whatever bytes follow it, leaving
      exactly those bytes. */
  ghost predicate Decodes(chunk: seq<byte>, record: MrtRecord)
  {
    forall rest :: ParseRecord(chunk + rest) == Done(rest, record)
  }

  /** Every encoded entry decodes to the record expected of it. */
  lemma ChunksDecode(entries: seq<Entry>, i: nat)
    requires forall j :: 0 <= j < |entries| ==> WellFormed(entries[j])
    requires i < |entries|
    ensures Decodes(Chunks(entries)[i], DecodedDump(entries)[i])
  {
    var e := entries[i];
    assert WellFormed(e);
    forall rest
      ensures ParseRecord(Chunks(entries)[i] + rest) == Done(rest, DecodedDump(entries)[i])
    {
      ParseEncodeRecord(e.header, e.table, e.attributes, rest);
    }
  }

  /** One step over a chunk that decodes to `record` yields it and moves past
      the chunk. */
  lemma NextDecodes(chunk: seq<byte>, record: MrtRecord, rest: seq<byte>, index: nat)
    requires Decodes(chunk, record)
    ensures Next(MrtDumpIterator(chunk + rest, index)) == Advance(MrtDumpIterator(rest, index + 1), Item(record))
  {
    assert ParseRecord(chunk + rest) == Done(rest, record);
  }

  /** Draining after a yielded record puts that record first. */
  lemma DrainYields(it: MrtDumpIterator, next: MrtDumpIterator, record: MrtRecord)
    requires Next(it) == Advance(next, Item(record))
    ensures Drain(it) == Run([record] + Drain(next).records, Drain(next).last, Drain(next).outcome)
  {
  }

  /** A step over bytes the decoder finds incomplete ends the sequence. */
  lemma NextIncomplete(it: MrtDumpIterator)
    requires ParseRecord(it.buffer) == Incomplete
    ensures Next(it) == Advance(it, End)
  {
  }

  /** A step over bytes the decoder rejects aborts the iteration. */
  lemma NextError(it: MrtDumpIterator, kind: ErrorKind)
    requires ParseRecord(it.buffer) == Error(kind)
    ensures Next(it) == Advance(it, Panic(kind))
  {
  }

  /** A step over an empty buffer ends the sequence. */
  lemma NextEmpty(index: nat)
    ensures Next(MrtDumpIterator([], index)) == Advance(MrtDumpIterator([], index), End)
  {
    NextIncomplete(MrtDumpIterator([], index));
  }

  /** Draining from a state whose next step yields no record stops there. */
  lemma DrainStopped(it: MrtDumpIterator, stop: Outcome)
    requires Next(it) == Advance(it, stop)
    ensures Drain(it) == Run([], it, stop)
  {
    assert !stop.Item?;
  }

  /** Draining from a chunk that decodes to `record` yields that record
      and then what draining the bytes after the chunk yields. */
  lemma DrainChunk(chunk: seq<byte>, rest: seq<byte>, record: MrtRecord, index: nat, more: Run)
    requires Decodes(chunk, record)
    requires Drain(MrtDumpIterator(rest, index + 1)) == more
    ensures Drain(MrtDumpIterator(chunk + rest, index)) == Run([record] + more.records, more.last, more.outcome)
  {
    NextDecodes(chunk, record, rest, index);
    DrainYields(MrtDumpIterator(chunk + rest, index), MrtDumpIterator(rest, index + 1), record);
  }

  /** The chunks written before some tail are the first chunk followed by
      the rest written before that tail. */
  lemma ConcatCons(chunks: seq<seq<byte>>, tail: seq<byte>)
    requires chunks != []
    ensures Concat(chunks) + tail == chunks[0] + (Concat(chunks[1..]) + tail)
  {
  }

  /** A non-empty sequence is its first element followed by the rest. */
  lemma SplitFirst(xs: seq<MrtRecord>)
    requires xs != []
    ensures xs == [xs[0]] + xs[1..]
  {
  }

  /** Draining chunks written before a tail, the first of which decodes to
      the first record, yields that record in front of what draining the
      other chunks and the tail yields. */
  lemma DrainChunksCons(chunks: seq<seq<byte>>, records: seq<MrtRecord>, tail: seq<byte>,
                        index: nat, last: MrtDumpIterator, stop: Outcome)
    requires chunks != [] && records != []
    requires Decodes(chunks[0], records[0])
    requires Drain(MrtDumpIterator(Concat(chunks[1..]) + tail, index + 1)) == Run(records[1..], last, stop)
    ensures Drain(MrtDumpIterator(Concat(chunks) + tail, index)) == Run(records, last, stop)
  {
    ConcatCons(chunks, tail);
    SplitFirst(records);
    DrainChunk(chunks[0], Concat(chunks[1..]) + tail, records[0], index, Run(records[1..], last, stop));
  }

  /** Draining no chunks before a tail stops where a step over the tail
      stops. */
  lemma DrainChunksNil(chunks: seq<seq<byte>>, records: seq<MrtRecord>, tail: seq<byte>,
                       index: nat, last: MrtDumpIterator, stop: Outcome)
    requires chunks == [] && records == []
    requires last == MrtDumpIterator(tail, index)
    requires Next(last) == Advance(last, stop)
    ensures Drain(MrtDumpIterator(Concat(chunks) + tail, index)) == Run(records, last, stop)
  {
    assert Concat(chunks) + tail == tail;
    DrainStopped(last, stop);
  }

  /** Whether each chunk decodes to the record at the same position. */
  ghost predicate AllDecode(chunks: seq<seq<byte>>, records: seq<MrtRecord>)
    requires |chunks| == |records|
  {
    chunks == [] || (Decodes(chunks[0], records[0]) && AllDecode(chunks[1..], records[1..]))
  }

  /** Draining chunks that each decode to a record yields those records in
      order and then stops where a step over the tail stops. */
  lemma {:induction false} DrainChunks(chunks: seq<seq<byte>>, records: seq<MrtRecord>, tail: seq<byte>,
                                       index: nat, last: MrtDumpIterator, stop: Outcome)
    requires |chunks| == |records| && AllDecode(chunks, records)
    requires last == MrtDumpIterator(tail, index + |chunks|)
    requires Next(last) == Advance(last, stop)
    ensures Drain(MrtDumpIterator(Concat(chunks) + tail, index)) == Run(records, last, stop)
    decreases |chunks|
  {
    if chunks == [] {
      DrainChunksNil(chunks, records, tail, index, last, stop);
    } else {
      DrainChunks(chunks[1..], records[1..], tail, index + 1, last, stop);
      DrainChunksCons(chunks, records, tail, index, last, stop);
    }
  }

  /** Dropping the first entry drops its chunk and its record. */
  lemma DropFirstEntry(entries: seq<Entry>)
    requires forall i :: 0 <= i < |entries| ==> WellFormed(entries[i])
    requires entries != []
    ensures Chunks(entries)[1..] == Chunks(entries[1..])
    ensures DecodedDump(entries)[1..] == DecodedDump(entries[1..])
  {
  }

  /** The encoded entries decode to the records expected of them. */
  lemma {:induction false} EntriesDecode(entries: seq<Entry>)
    requires forall i :: 0 <= i < |entries| ==> WellFormed(entries[i])
    ensures AllDecode(Chunks(entries), DecodedDump(entries))
    decreases |entries|
  {
    if entries != [] {
      ChunksDecode(entries, 0);
      DropFirstEntry(entries);
      EntriesDecode(entries[1..]);
    }
  }

  /** A dump of well-formed records followed by a tail on which a step yields
      no record produces exactly those records, in file order, and then stops
      the way the tail makes it stop, with the tail left in the buffer. */
  lemma DrainEncoded(entries: seq<Entry>, tail: seq<byte>, stop: Outcome)
    requires forall i :: 0 <= i < |entries| ==> WellFormed(entries[i])
    requires Next(MrtDumpIterator(tail, |entries|)) == Advance(MrtDumpIterator(tail, |entries|), stop)
    ensures Drain(IntoIter(EncodeDump(entries) + tail)) == Run(DecodedDump(entries), MrtDumpIterator(tail, |entries|), stop)
  {
    EntriesDecode(entries);
    DrainChunks(Chunks(entries), DecodedDump(entries), tail, 0, MrtDumpIterator(tail, |entries|), stop);
  }

  /** A dump of well-formed records yields exactly those records, in file
      order, and then ends the sequence with nothing left over. */
  lemma DrainDump(entries: seq<Entry>)
    requires forall i :: 0 <= i < |entries| ==> WellFormed(entries[i])
    ensures Drain(IntoIter(EncodeDump(entries))) == Run(DecodedDump(entries), MrtDumpIterator([], |entries|), End)
  {
    NextEmpty(|entries|);
    DrainEncoded(entries, [], End);
    assert EncodeDump(entries) + [] == EncodeDump(entries);
  }

  /** A dump whose last record is cut short yields the whole records before
      it and then ends the sequence, leaving the partial record unread. */
  lemma DrainTruncated(entries: seq<Entry>, last: Entry, n: nat)
    requires forall i :: 0 <= i < |entries| ==> WellFormed(entries[i])
    requires WellFormed(last)
    requires n < |EncodeRecord(last.header, last.table, last.attributes)|
    ensures var partial := EncodeRecord(last.header, last.table, last.attributes)[..n];
      Drain(IntoIter(EncodeDump(entries) + partial))
        == Run(DecodedDump(entries), MrtDumpIterator(partial, |entries|), End)
  {
    var partial := EncodeRecord(last.header, last.table, last.attributes)[..n];
    TruncatedIsIncomplete(last.header, last.table, last.attributes, n);
    NextIncomplete(MrtDumpIterator(partial, |entries|));
    DrainEncoded(entries, partial, End);
  }

  /** A dump in which a record after some whole ones carries a status byte
      other than 1 yields the records before it and then aborts, whatever
      follows. */
  lemma DrainBadStatus(entries: seq<Entry>, bad: Entry, status: byte, after: seq<byte>)
    requires forall i :: 0 <= i < |entries| ==> WellFormed(entries[i])
    requires |bad.attributes| == bad.table.attrLen && status != StatusOk
    ensures var corrupt := WithStatus(bad.header, bad.table, bad.attributes, status, after);
      Drain(IntoIter(EncodeDump(entries) + corrupt))
        == Run(DecodedDump(entries), MrtDumpIterator(corrupt, |entries|), Panic(Verify))
  {
    var corrupt := WithStatus(bad.header, bad.table, bad.attributes, status, after);
    BadStatusIsError(bad.header, bad.table, bad.attributes, status, after);
    NextError(MrtDumpIterator(corrupt, |entries|), Verify);
    DrainEncoded(entries, corrupt, Panic(Verify));
  }
}

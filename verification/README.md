# MRT record decoder (bgpdump-rs) in Dafny

This project models the decoder in `src/main.rs` of bgpdump-rs, a small Rust
program that reads an MRT routing-information dump (RFC 6396) with nom 3
parsers. It walks a byte buffer and decodes one record after another. Each
record has a 12-byte common header, followed by a 4-byte microsecond field
for the `_ET` kinds. The header's type and subtype codes are classified into
a closed `MrtRecordType`. The body is then always read as a TABLE_DUMP IPv4
entry (section 4.2 of RFC 6396), whatever the classified kind and whatever the
declared length says.

Modules, one file each:

- `Bytes` (`bytes.dfy`): byte and 16/32-bit unsigned types, and big-endian
  reading and writing.
- `Parsers` (`parsers.dfy`): the nom primitives the decoder uses, as reads at
  an offset. They are `be_u8`, `be_u16`, `be_u32`, `verify!`, `cond!` and
  `take!`.
  - A read produces a `Step`: `Got(next, value)`, `Short` when input runs out,
    or `Bad` when a `verify!` rejects. `Step` supports `:-`, so a parser reads
    like the `do_parse!` chain it models.
  - `Finish` turns a `Step` into nom's `IResult`, modelled as `ParseResult`:
    `Done(rest, value) | Incomplete | Error`.
  - The 16- and 32-bit reads are proved inverse to big-endian writing.
- `RecordType` (`record_type.dfy`): the subtype enums, `MrtRecordType`,
  `From<(u16, u16)>` (`FromCodes`) and `is_et` (`IsEt`). It also has the
  inverse codes of each known kind.
- `TableDump` (`table_dump.dfy`): the `TableDumpV4` struct,
  `parse_tabledump_ipv4` (`ReadTableDumpV4` at an offset, `ParseTableDumpV4`
  on a slice), and an encoder that serves as its inverse.
- `Record` (`record.dfy`): the `MrtRecord` struct, and the header and record
  parsers of `parse_record` (`ReadHeader`, `ReadRecord`, `ParseRecord`).
  There is also a header encoder, plus lemmas about the declared length, the
  status byte and truncation.
- `Dump` (`dump.dfy`): `MrtDump::into_iter` and `MrtDumpIterator::next`, and
  `Drain`, which steps the iterator until it stops. It also proves what
  draining yields on a dump built from encoded records.

The decoder is modelled as the code behaves:

- The body is read as TABLE_DUMP IPv4 for every kind (`src/main.rs:226`).
- The declared length is passed through and never used to bound or skip the
  body (`src/main.rs:223-225`).
- A decode error aborts the iteration (`src/main.rs:63-65`); there is no
  resynchronisation.
- `Unknown` and `Reserved` carry no codes (`src/main.rs:118-119`).

Because the declared length is not consulted, what a record needs is its
header plus the 22 fixed bytes of the entry and then `attr_len` attribute
bytes (`src/main.rs:248-258`). An input shorter than header + 22 bytes is
therefore `Incomplete`, or an `Error` when its status byte is present and
wrong, even when the header declares a body that short
(`Record.ShortInputNotRecord`).

## Model

| member | source | states |
|---|---|---|
| RecordType.FromCodes | src/main.rs:132-182 | Classification is total. The result is `Reserved` exactly when the type code is outside {11,12,13,16,17,32,33,48,49}. It is `Unknown` exactly when the type is 12, 13, 16 or 17 and the subtype is not in that type's table. Any other result carries the given type code, and the given subtype code when the kind has one. |
| RecordType.FromCodesOfCodes | src/main.rs:134-179 | Every known kind is what classifying its own type and subtype codes gives back, so the table is injective on known kinds. |
| RecordType.SubtypeIgnored | src/main.rs:134-180 | Type codes 11, 32, 33, 48 and 49 classify the same way whatever the subtype. |
| RecordType.Bgp4MpEtMirrorsBgp4Mp | src/main.rs:154-175 | Types 16 and 17 accept the same subtypes {0,1,4,5,6,7} and map them to the same `Bgp4MpSubtype`; they differ only in the `_ET` wrapper. |
| RecordType.IsEt | src/main.rs:122-129 | `is_et` holds exactly for the known kinds whose type code is 17, 33 or 49. So it holds for `Bgp4Mp_ET(_)`, `Isis_ET` and `OspfV3_ET`, and fails for `Unknown` and `Reserved`. |
| RecordType.IsEtOfCodes | src/main.rs:122-179 | Seen from the codes, `is_et` holds for type 33, type 49, and type 17 with one of its six known subtypes. |
| Parsers.ReadU16Bytes | src/main.rs:220-221 | Whenever `be_u16` succeeds, the two bytes it consumes are the big-endian encoding of the value it yields. |
| Parsers.BytesReadU16 | src/main.rs:220-221 | Conversely, a big-endian written 16-bit value reads back as itself at any offset, whatever surrounds it, and the read stops right after it. |
| Parsers.ReadU32Bytes | src/main.rs:219 | Whenever `be_u32` succeeds, the four bytes it consumes are the big-endian encoding of the value it yields. |
| Parsers.BytesReadU32 | src/main.rs:219 | Conversely, a big-endian written 32-bit value reads back as itself at any offset, whatever surrounds it, and the read stops right after it. |
| Parsers.VerifyU8 | src/main.rs:253 | `verify!(be_u8, v == 1)` is `Incomplete` on no input, an error on any other byte, and consumes the byte when it matches. |
| Parsers.CondU32 | src/main.rs:224 | `cond!(p, be_u32)` reads nothing and yields `None` when `p` is false, and otherwise reads a big-endian u32 that must be present. |
| TableDump.ReadTableDumpV4 | src/main.rs:247-269 | The body reader fails with an error exactly when the status byte at offset 9 is present and is not 1. It succeeds exactly when that byte is 1, all 22 fixed bytes are present and `attr_len` further bytes follow. On success it consumes 22 + `attr_len` bytes, with fields read big-endian at body offsets 0, 2, 4, 8, 10, 14, 18 and 20. |
| TableDump.ParseTableDumpV4 | src/main.rs:247-269 | The slice-level body decoder: `Error` for a bad status byte, `Done` for a whole body, with exactly 22 + `attr_len` bytes consumed, and `Incomplete` otherwise. |
| TableDump.ReadEncoded | src/main.rs:247-269 | An encoded entry reads back as itself at any offset, whatever surrounds it, ending 22 + `attr_len` bytes further on. |
| TableDump.ReadWindow | src/main.rs:247-269 | A body read depends only on the bytes it covers. |
| TableDump.EncodedRead | src/main.rs:247-269 | Conversely, the bytes a successful read consumed are the encoding of the entry it returned, with the attribute span it skipped. |
| TableDump.ParseEncode | src/main.rs:247-269 | Decoding an encoded entry gives the entry back and leaves what follows untouched. |
| TableDump.EncodeParse | src/main.rs:247-269 | Whatever decodes is the encoding of the decoded entry followed by the remainder. |
| Record.ReadHeader | src/main.rs:218-224 | The header reader succeeds exactly when the whole header fits, the microsecond field included when the kind calls for it; it never errors. It reads the timestamp, type, subtype and declared length at offsets 0, 4, 6 and 8. It reads the microsecond field at offset 12 exactly when `is_et` holds, and stops after 12 or 16 bytes accordingly. |
| Record.ReadRecord | src/main.rs:218-233 | The header is followed unconditionally by a TABLE_DUMP IPv4 body. It errors exactly when the body's status byte is present and is not 1. It succeeds exactly when the header and a whole body fit. The microsecond part is 0 when the field is absent, and the declared length is copied unchanged. |
| Record.ParseRecord | src/main.rs:218-233 | `parse_record` on a slice gives `Done`, `Error` or `Incomplete` as `ReadRecord` does. On success the rest is a suffix of the input at least 34 bytes shorter: exactly header + 22 + `attr_len` bytes are consumed. |
| Record.ReadEncodedHeader | src/main.rs:218-224 | An encoded header, followed by anything, fits and reads back as its own fields and kind. |
| Record.HeaderBytes | src/main.rs:218-224 | Conversely, the bytes of a header that fits are the encoding of the raw fields read from it. |
| Record.ParseEncodeRecord | src/main.rs:218-233 | Decoding an encoded record yields the record built from its header and entry, and leaves whatever follows it untouched. |
| Record.EncodeParseRecord | src/main.rs:218-233 | Conversely, every successfully decoded input is an encoded header and entry followed by the remainder. |
| Record.HeaderSizeIgnored | src/main.rs:223-230 | Rewriting the declared-length field changes the header read in that field only, and not where the header ends. |
| Record.ReadRecordSizeIgnored | src/main.rs:223-230 | Rewriting the declared length changes the record read in that field only; where the read stops does not depend on it. |
| Record.RecordSizeIgnored | src/main.rs:223-230 | The declared length neither bounds nor skips the body: rewriting it leaves the outcome and the rest unchanged, and changes only `record_size` in the decoded record. |
| Record.BadStatusIsError | src/main.rs:253 | An encoded record whose status byte is anything but 1 makes `parse_record` return `Error`, whatever follows. |
| Record.BadStatusAfterHeader | src/main.rs:226 | An encoded header followed by any body whose status byte is not 1 is an `Error`. |
| Record.ShortInputNotRecord | src/main.rs:218-258 | An input shorter than its header plus the 22 fixed bytes of an entry never decodes to a record, whatever length the header declares. It is an `Error` when the whole header and a status byte other than 1 are present, and `Incomplete` otherwise. |
| Record.TruncatedIsIncomplete | src/main.rs:218-258 | Every proper prefix of an encoded record is `Incomplete`: running out of input at any field, the attribute span included, is never a record or an error. |
| Dump.Next | src/main.rs:56-68 | One step yields a record exactly when `parse_record` is `Done`, and the record yielded is the one it decoded. It ends the sequence exactly when the result is `Incomplete`, and otherwise aborts with that same error. After a record, the buffer is `parse_record`'s remainder, a strict suffix at least 34 bytes shorter, and the index has gone up by 1. Otherwise the state is unchanged. |
| Dump.NextEmpty | src/main.rs:66 | An empty buffer ends the sequence. |
| Dump.Drain | src/main.rs:56-68 | Iterating to the end stops on a non-record outcome. The final index counts the records yielded, and 34 bytes per record plus the bytes left never exceed the buffer, so there are at most len/34 records. |
| Dump.DrainStops | src/main.rs:56-68 | The outcome recorded is exactly what one more step from the final state gives. |
| Dump.DrainChunks | src/main.rs:56-68 | Draining chunks that each decode to a record yields those records in order. It then stops the way one step over the tail stops, with the tail in the buffer and the index advanced by the number of chunks. |
| Dump.DrainEncoded | src/main.rs:56-68 | A dump of encoded records followed by any tail yields exactly their decoded records in file order. It then stops as the tail makes it stop. |
| Dump.DrainDump | src/main.rs:56-68 | A dump of encoded records yields exactly their decoded records in file order, then ends with an empty buffer. |
| Dump.DrainTruncated | src/main.rs:56-68 | A dump whose last record is cut short yields the whole records before it, then ends the sequence with the partial record left unread. |
| Dump.DrainBadStatus | src/main.rs:63-65 | A record with a status byte other than 1 after some whole ones aborts the iteration once the records before it are yielded. There is no resynchronisation on the declared length. |

## Left out

- `main`: mapping the file into memory, the hard-coded path and the `println!` output are I/O. The model starts from the bytes of the dump.
- `MrtDump::new` is not modelled separately: it only wraps the byte slice, which `IntoIter` takes directly.
- Timestamps: chrono's `Utc.timestamp` is a foreign library call. Both timestamps are kept as the raw (seconds, microseconds) pair, and the model yields a record whatever the microsecond field holds. The source does not: it computes the nanoseconds as `microsecond_timestamp.unwrap_or(0) * 1000` on `u32`, and `Utc.timestamp` panics when the nanoseconds are 2,000,000,000 or more (src/main.rs:228). So `parse_record` panics on an `_ET` record whose microsecond field is between 2,000,000 and 4,294,967. Above 4,294,967 the multiplication overflows `u32`: a debug build panics there, and a release build wraps, so whether it then panics depends on the wrapped value. None of these panic paths is modelled.
- Addresses: `Ipv4Addr::from` is kept as the raw big-endian `u32`.
- nom internals: the `Needed` size of `Incomplete` and the error position of `Error` are dropped. The iterator discards both, and the only error the core can raise is the failed `verify!`.
- The attribute bytes consumed by `take!(attr_len)` are not stored, as in the source.
- The `panic!` on `Error` is modelled as the `Panic` outcome that ends iteration, not as a process abort.
- `index` is a `usize` in the source and is modelled as an unbounded `nat`. It would need more than `usize::MAX` records to wrap, and that many cannot fit in memory.
- The unused imports and the empty `MrtRecordMessage` enum have no behaviour.

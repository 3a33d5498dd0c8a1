/** The parser primitives the MRT decoder is built from (`be_u8`, `be_u16`,
    `be_u32`, `take!`, `cond!`, `verify!`), re-expressed as reads at an offset
    of the input. A read either yields its value with the offset just past it,
    runs short of input (`Short`), or finds a value its check rejects (`Bad`).
    A whole parse reports nom's three outcomes: `Done` with the unconsumed
    remainder, `Incomplete`, or `Error`. */
module Parsers {
  import opened Bytes

  datatype Option<+T> = None | Some(value: T)
  {
    /** The wrapped value, or `default` when there is none (Rust's `unwrap_or`). */
    function UnwrapOr(default: T): T
    {
      match this
      case Some(v) => v
      case None => default
    }
  }

  /** Why a parse failed on input that was long enough. */
  datatype ErrorKind = Verify

  /** A value read and the offset just past it. */
  datatype Field<+T> = Field(next: nat, value: T)

  /** The outcome of one read, used with `:-` to sequence reads in wire order. */
  datatype Step<+T> = Got(next: nat, value: T) | Short | Bad(kind: ErrorKind)
  {
    predicate IsFailure()
    {
      !Got?
    }

    function PropagateFailure<U>(): Step<U>
      requires !Got?
    {
      if Short? then Short else Bad(kind)
    }

    function Extract(): Field<T>
      requires Got?
    {
      Field(next, value)
    }
  }

  /** The outcome of a whole parse over a byte slice. */
  datatype ParseResult<+T> = Done(rest: seq<byte>, value: T) | Incomplete | Error(kind: ErrorKind)

  /** The outcome of a parse that started at offset 0 of `s`. */
  function Finish<T>(s: seq<byte>, r: Step<T>): (p: ParseResult<T>)
    requires r.Got? ==> r.next <= |s|
    ensures p.Done? <==> r.Got?
    ensures p.Error? <==> r.Bad?
    ensures p.Done? ==> p.rest == s[r.next..] && p.value == r.value && |s| == r.next + |p.rest|
  {
    match r
    case Got(next, v) => Done(s[next..], v)
    case Short => Incomplete
    case Bad(kind) => Error(kind)
  }

  /** One byte at offset `at`. */
  function ReadU8(s: seq<byte>, at: nat): (r: Step<byte>)
    ensures r.Got? <==> at + 1 <= |s|
    ensures !r.Bad?
    ensures r.Got? ==> r.next == at + 1 && r.value == s[at]
  {
    if |s| < at + 1 then Short else Got(at + 1, s[at])
  }

  /** A big-endian 16-bit integer at offset `at`. */
  function ReadU16(s: seq<byte>, at: nat): (r: Step<uint16>)
    ensures r.Got? <==> at + 2 <= |s|
    ensures !r.Bad?
    ensures r.Got? ==> r.next == at + 2 && r.value == U16At(s, at)
  {
    if |s| < at + 2 then Short else Got(at + 2, U16At(s, at))
  }

  /** A big-endian 32-bit integer at offset `at`. */
  function ReadU32(s: seq<byte>, at: nat): (r: Step<uint32>)
    ensures r.Got? <==> at + 4 <= |s|
    ensures !r.Bad?
    ensures r.Got? ==> r.next == at + 4 && r.value == U32At(s, at)
  {
    if |s| < at + 4 then Short else Got(at + 4, U32At(s, at))
  }

  /** The span of `n` bytes at offset `at` (nom's `take!`). */
  function Take(s: seq<byte>, at: nat, n: nat): (r: Step<seq<byte>>)
    ensures r.Got? <==> at + n <= |s|
    ensures !r.Bad?
    ensures r.Got? ==> r.next == at + n && r.value == s[at..at + n]
  {
    if |s| < at + n then Short else Got(at + n, s[at..at + n])
  }

  /** A byte at offset `at` that must equal `expected`: any other byte is `Bad`
      (nom's `verify!(be_u8, |v| v == expected)`). */
  function VerifyU8(s: seq<byte>, at: nat, expected: byte): (r: Step<byte>)
    ensures r.Got? <==> at < |s| && s[at] == expected
    ensures r.Bad? <==> at < |s| && s[at] != expected
    ensures r.Got? ==> r.next == at + 1 && r.value == expected
  {
    var b :- ReadU8(s, at);
    if b.value == expected then Got(b.next, b.value) else Bad(Verify)
  }

  /** A big-endian 32-bit integer at offset `at` when `present` holds, nothing
      otherwise (nom's `cond!(present, be_u32)`). */
  function CondU32(present: bool, s: seq<byte>, at: nat): (r: Step<Option<uint32>>)
    ensures r.Got? <==> (present ==> at + 4 <= |s|)
    ensures !r.Bad?
    ensures r.Got? && !present ==> r.next == at && r.value == None
    ensures r.Got? && present ==> r.next == at + 4 && r.value == Some(U32At(s, at))
  {
    if present then
      var v :- ReadU32(s, at);
      Got(v.next, Some(v.value))
    else
      Got(at, None)
  }

  /** `be_u16` is the inverse of big-endian writing: the two bytes it consumes
      are the encoding of the value it yields. */
  lemma ReadU16Bytes(s: seq<byte>, at: nat)
    ensures ReadU16(s, at).Got? ==> s[at..ReadU16(s, at).next] == U16Bytes(ReadU16(s, at).value)
  {
    if at + 2 <= |s| {
      U16AtBytes(s, at);
    }
  }

  /** Conversely, a written 16-bit value reads back as itself wherever it
      sits, and the read stops right after it. */
  lemma BytesReadU16(before: seq<byte>, v: uint16, after: seq<byte>)
    ensures ReadU16(before + U16Bytes(v) + after, |before|) == Got(|before| + 2, v)
  {
    var s := before + U16Bytes(v) + after;
    assert s[|before|..|before| + 2] == U16Bytes(v);
  }

  /** `be_u32` is the inverse of big-endian writing: the four bytes it
      consumes are the encoding of the value it yields. */
  lemma ReadU32Bytes(s: seq<byte>, at: nat)
    ensures ReadU32(s, at).Got? ==> s[at..ReadU32(s, at).next] == U32Bytes(ReadU32(s, at).value)
  {
    if at + 4 <= |s| {
      U32AtBytes(s, at);
    }
  }

  /** Conversely, a written 32-bit value reads back as itself wherever it
      sits, and the read stops right after it. */
  lemma BytesReadU32(before: seq<byte>, v: uint32, after: seq<byte>)
    ensures ReadU32(before + U32Bytes(v) + after, |before|) == Got(|before| + 4, v)
  {
    var s := before + U32Bytes(v) + after;
    assert s[|before|..|before| + 4] == U32Bytes(v);
  }
}

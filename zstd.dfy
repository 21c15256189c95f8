/** The part of the zstd library that the bindings call, kept abstract.
    Nothing of zstd's own code is modelled: each library call is a field of
    the `Codec` record, a function value the caller supplies, so every
    statement about the bindings holds for whatever the library returns.
    The header fields read by `frameContentSize` and `dictIdFromFrame` are
    Frame_Content_Size and Dictionary_ID of the Zstandard frame header
    (sections 3.1.1.1.4 and 3.1.1.1.3 of RFC 8878). */
module Zstd {

  newtype byte = x: int | 0 <= x < 256

  /** A compiled compression dictionary (`ZSTD_CDict`); only its identity matters. */
  class CDict {
  }

  /** A compiled decompression dictionary (`ZSTD_DDict`). */
  class DDict {
  }

  /** A `size_t` returned by a zstd call, split by `ZSTD_isError`. */
  datatype SizeResult = Error(code: nat) | Size(n: nat)

  /** What `ZSTD_getFrameContentSize` reports: `ZSTD_CONTENTSIZE_ERROR`,
      `ZSTD_CONTENTSIZE_UNKNOWN`, or the declared size. */
  datatype ContentSize = ContentSizeError | ContentSizeUnknown | Known(n: nat)

  /** The destination address handed to the codec: NULL, or a block of
      `capacity` bytes. */
  datatype Buffer = NullBuffer | Block(capacity: nat)

  /** The library calls the bindings make.  `cctxCreated`/`dctxCreated` say
      whether `ZSTD_createCCtx`/`ZSTD_createDCtx` return a context. */
  datatype Codec = Codec(
    compressBound: nat -> nat,
    compress: (Buffer, seq<byte>, int) -> SizeResult,
    compressUsingCDict: (bool, Buffer, seq<byte>, CDict) -> SizeResult,
    frameContentSize: seq<byte> -> ContentSize,
    dictIdFromFrame: seq<byte> -> nat,
    dictIdFromDDict: DDict -> nat,
    decompress: (Buffer, seq<byte>) -> SizeResult,
    decompressUsingDDict: (Buffer, seq<byte>, DDict) -> SizeResult,
    cctxCreated: bool,
    dctxCreated: bool)

  /** The C library: whether `malloc(n)` returns a block. */
  datatype Libc = Libc(mallocSucceeds: nat -> bool)

  /** The fixed compression level of every compression call. */
  const Level: int := 3
}

/** The fatal conditions of the container engine, and the result type that
    carries them. Every `fatal`, `fatal_trace` and `fatal_errno` of the
    engine becomes an `Err`; nothing is recovered from. */
module Faults {
  import opened Bytes

  datatype Fault =
    /** `fread` could not deliver the 16 header bytes. */
    | ShortRead
    /** The magic number is not "FBUF" (a file from an older version). */
    | OlderVersion
    /** Header byte 4 is not the FastLZ tag. */
    | UnexpectedCompression(tag: byte)
    /** Header byte 5 is not the checksum algorithm the reader asked for. */
    | UnexpectedChecksum(tag: byte)
    /** A block length above the spill size, or a block that does not decompress. */
    | InvalidCompression
    /** A block (or its length prefix) runs past the end of the compressed input. */
    | ReadPastCompressed
    /** A read would pass the end of the decompressed data (the debug-build check). */
    | ReadPastEnd
    /** A varint longer than a 64-bit value can need. */
    | VarintTooLong
    /** The finished checksum of a read session differs from the header's. */
    | ChecksumMismatch(computed: u32, expected: u32)
    /** Not an error the source reports: it stands for a memory access outside
        the buffer, which is undefined behaviour in the source. Only the
        members that model the code as written produce it. */
    | OutOfBounds

  datatype Result<+T> = Ok(value: T) | Err(fault: Fault)
}

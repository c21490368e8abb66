/** Option and Result wrappers, and the error kinds the decompressor reports. */
module Types {

  /** A byte value of the uncompressed stream, as `fgetc` returns it and as
      `Node.c` holds it. The bytes of the compressed container, on which the
      codec does bit operations, are `bv8`. */
  type Byte = b: int | 0 <= b < 256

  datatype Option<T> = None | Some(value: T)

  /** Failures of `decompress`. */
  datatype Error =
    /** errors.h's INVALID_COMPRESSED_CONTENT: a page refill read no bytes. */
    | InvalidCompressedContent
    /** The stored tree does not end before the last bit of the first page;
        the source then reads outside `in_buf`. */
    | MalformedTree

  datatype Result<T> = Ok(value: T) | Err(error: Error)
}

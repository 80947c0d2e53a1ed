/** Failure-carrying results, standing in for `anyhow::Result` and `Option`. */
module Results {

  /** The distinct ways the chunk layer can fail. */
  datatype Error =
    | SliceLength       // `<[u8; 4]>::try_from` on a slice that is not 4 bytes long
    | InvalidChunkType  // a chunk-type string holding a byte that is not an ASCII letter
    | UnexpectedEof     // `read_exact` ran out of input
    | IncorrectCrc      // stored CRC differs from the one recomputed over type ++ data
    | InvalidUtf8       // `str::from_utf8` rejected the bytes

  datatype Result<+T> = Ok(value: T) | Err(error: Error)

  datatype Option<+T> = None | Some(value: T)
}

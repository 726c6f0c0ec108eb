/** Outcomes of the operations that can throw in the Java layer. */
module Results {

  /** The exceptions the modelled operations raise, named after what raises them. */
  datatype Error =
    | NegativeArraySize              // `new boolean[tilesX][tilesY]` with a negative dimension
    | UnknownStrategy(name: string)  // `IntegratedStrategy.valueOf` on a name that is no constant
    | TruncatedTiles                 // `_decompress` indexing past the end of the packed buffer

  datatype Result<+T> = Ok(value: T) | Err(error: Error)
}

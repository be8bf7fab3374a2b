/** The collaborators the decoder calls but does not implement: the three
    functions of Python's `zlib` module it uses, and the outcome of opening a
    file. They are passed in as values, so every statement about them holds
    for any CRC-32 and any DEFLATE implementation. */
module External {
  import opened Bytes

  /** `zlib.crc32`, `zlib.compress` and `zlib.decompress`. A malformed DEFLATE
      stream (on which `zlib.decompress` raises) is not modelled: `decompress`
      is total here. */
  datatype Zlib = Zlib(
    crc32: seq<byte> -> u32,
    compress: seq<byte> -> seq<byte>,
    decompress: seq<byte> -> seq<byte>)

  /** What `open(file_name, 'rb').read()` produced, or `None` for `FileNotFoundError`. */
  datatype Option<T> = None | Some(value: T)
}

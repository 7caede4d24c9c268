/**
 * The national character encoding the codec relies on (GB18030, with a UTF-8
 * fallback when encoding) is a foreign library; it enters the model as a pair
 * of functions passed in by the caller.
 */
module ExternalEncoding {
  import opened Wrappers

  type Byte = b: int | 0 <= b < 256

  /**
   * `encode` is `char.encode(...)` as the codec calls it: the character's byte
   * sequence, or the empty sequence where the library cannot encode it.
   * `decode` is `bytes.decode('gb18030')`: the decoded text, or None where the
   * library raises an error.
   */
  datatype Codec = Codec(encode: char -> seq<Byte>, decode: seq<Byte> -> Option<string>)

  /** The codec carries `c` through the block encoding: 1 to 4 bytes that decode back to exactly `c`. */
  predicate RoundTrips(codec: Codec, c: char) {
    1 <= |codec.encode(c)| <= 4 && codec.decode(codec.encode(c)) == Some([c])
  }
}

/** Bytes and the charset that turns them into text, shared by the URL
    decoder, the certificate customizer and the request logger. */
module Bytes {

  /** One octet, as Java's `byte` read unsigned. */
  type Byte = x: int | 0 <= x < 256

  /** Turns a run of bytes into text; the platform or UTF-8 decoder of the
      JDK, left as a parameter. */
  type Charset = seq<Byte> -> string
}

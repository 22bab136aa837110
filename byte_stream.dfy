/**
 * The big-endian unsigned 16-bit reads of the class-file input stream.
 * The stream is a byte sequence together with a read position; reading past
 * the end is the failure the Java stream reports with an exception.
 */
module ByteStream {
  import opened Wrappers

  /** An unsigned byte as it comes out of the class file. */
  type Byte = x: int | 0 <= x < 0x100

  /** A class-file `u2`: an unsigned 16-bit quantity. */
  type U2 = x: int | 0 <= x < 0x1_0000

  /** The u2 stored big-endian at `pos`. */
  function U2At(data: seq<Byte>, pos: nat): (r: U2)
    requires pos + 2 <= |data|
  {
    (data[pos] as int) * 0x100 + (data[pos + 1] as int)
  }

  /**
   * `readUnsignedShort` at position `pos`: the value read, or `None` when
   * fewer than two bytes are left.
   */
  function ReadU2(data: seq<Byte>, pos: nat): (r: Option<U2>)
    ensures r.None? <==> |data| < pos + 2
    ensures r.Some? ==> r.value == U2At(data, pos)
  {
    if pos + 2 <= |data| then Some(U2At(data, pos)) else None
  }

  /** The two big-endian bytes that encode `x`. */
  function U2Bytes(x: U2): (r: seq<Byte>)
    ensures |r| == 2
  {
    [x / 0x100, x % 0x100]
  }

  /** The u2 at `pos` is `x` whenever the two bytes there are the encoding of `x`. */
  lemma U2AtBytes(data: seq<Byte>, pos: nat, x: U2)
    requires pos + 2 <= |data| && data[pos..pos + 2] == U2Bytes(x)
    ensures U2At(data, pos) == x
  {
  }
}

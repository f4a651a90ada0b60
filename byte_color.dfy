/**
 * The per-byte remap between raw file bytes and map colour values.
 *
 * A map record stores its 128x128 pixels as a signed-byte array, so every
 * raw byte is reinterpreted as the signed byte with the same bit pattern.
 */
module ByteColor {

  /** A raw byte of the input file. */
  type Byte = b: int | 0 <= b < 256

  /** A colour value as held in a map record's signed-byte array. */
  type Color = c: int | -128 <= c < 128

  /** The signed reinterpretation of a byte: the unique colour congruent to it modulo 256. */
  function ToColor(v: Byte): (c: Color)
    ensures (c - v) % 256 == 0
    ensures c < 0 <==> v >= 128
  {
    if v < 128 then v else v - 256
  }

  /** The unsigned reinterpretation of a colour: the unique byte congruent to it modulo 256. */
  function ToByte(c: Color): (v: Byte)
    ensures (v - c) % 256 == 0
    ensures v >= 128 <==> c < 0
  {
    if c >= 0 then c else c + 256
  }

  /** byte -> colour -> byte is the identity on [0, 255]. */
  lemma ByteColorByte(v: Byte)
    ensures ToByte(ToColor(v)) == v
  {
  }

  /** colour -> byte -> colour is the identity on [-128, 127]. */
  lemma ColorByteColor(c: Color)
    ensures ToColor(ToByte(c)) == c
  {
  }

  /** The two remaps are injective, so together they form a bijection. */
  lemma RemapsInjective(v: Byte, w: Byte, c: Color, d: Color)
    ensures ToColor(v) == ToColor(w) ==> v == w
    ensures ToByte(c) == ToByte(d) ==> c == d
  {
    ByteColorByte(v);
    ByteColorByte(w);
    ColorByteColor(c);
    ColorByteColor(d);
  }

  /** `n` zero bytes, as Python's `bytes(n)`. */
  function Zeros(n: nat): (z: seq<Byte>)
    ensures |z| == n
    ensures forall k :: 0 <= k < n ==> z[k] == 0
  {
    seq(n, _ => 0)
  }
}

/** Packed ARGB pixels as Android's `Bitmap.getPixel` returns them: a signed
    32-bit Kotlin `Int` holding alpha, red, green and blue, 8 bits each, from
    the most to the least significant byte.

    Kotlin's `p shr k` is an arithmetic shift, which on a two's-complement
    integer is floor division by 2^k; `q and 0xFF` keeps the low 8 bits, which
    on a two's-complement integer is the non-negative remainder modulo 256.
    Dafny's `/` and `%` on `int` are Euclidean, so with a positive divisor they
    are exactly floor division and the non-negative remainder, and
    `(p / 2^k) % 256` is written below for `p shr k and 0xFF`. */
module Pixels {

  /** Kotlin's `Int`. */
  type Int32 = x: int | -0x8000_0000 <= x < 0x8000_0000

  /** A colour channel as a byte value. */
  predicate IsByte(x: int) {
    0 <= x < 0x100
  }

  /** `pixel shr 16 and 0xFF` */
  function Red(pixel: Int32): (r: int)
    ensures IsByte(r)
  {
    (pixel / 0x1_0000) % 0x100
  }

  /** `pixel shr 8 and 0xFF` */
  function Green(pixel: Int32): (g: int)
    ensures IsByte(g)
  {
    (pixel / 0x100) % 0x100
  }

  /** `pixel and 0xFF` */
  function Blue(pixel: Int32): (b: int)
    ensures IsByte(b)
  {
    pixel % 0x100
  }

  /** `pixel shr 24 and 0xFF`: not read by the classifier, it completes the
      decomposition of a pixel into its four bytes. */
  function Alpha(pixel: Int32): (a: int)
    ensures IsByte(a)
  {
    (pixel / 0x100_0000) % 0x100
  }

  /** The channels in the order they are written into the input tensor:
      red, green, blue. */
  function Channels(pixel: Int32): (cs: seq<int>)
    ensures |cs| == 3
    ensures forall c :: 0 <= c < 3 ==> IsByte(cs[c])
  {
    [Red(pixel), Green(pixel), Blue(pixel)]
  }

  /** The packed pixel of colour (a, r, g, b), as Android's `Color.argb`
      builds it: the unsigned 32-bit word `a·2^24 + r·2^16 + g·2^8 + b`
      reinterpreted as a signed `Int` (an opaque pixel is negative). */
  function Argb(a: int, r: int, g: int, b: int): (pixel: Int32)
    requires IsByte(a) && IsByte(r) && IsByte(g) && IsByte(b)
  {
    var word := a * 0x100_0000 + r * 0x1_0000 + g * 0x100 + b;
    if word < 0x8000_0000 then word else word - 0x1_0000_0000
  }

  /** Extracting the channels of a packed pixel gives back the bytes it was
      packed from, whatever the sign of the packed `Int`. */
  lemma ChannelsOfArgb(a: int, r: int, g: int, b: int)
    requires IsByte(a) && IsByte(r) && IsByte(g) && IsByte(b)
    ensures Red(Argb(a, r, g, b)) == r
    ensures Green(Argb(a, r, g, b)) == g
    ensures Blue(Argb(a, r, g, b)) == b
    ensures Alpha(Argb(a, r, g, b)) == a
  {
    var p := Argb(a, r, g, b);
    // the signed pixel differs from the unsigned word by 0 or 2^32 = 256·2^24
    var s := if a * 0x100_0000 + r * 0x1_0000 + g * 0x100 + b < 0x8000_0000 then 0 else 1;
    assert p == (a - 0x100 * s) * 0x100_0000 + r * 0x1_0000 + g * 0x100 + b;
    assert p / 0x100_0000 == a - 0x100 * s;
    assert p / 0x1_0000 == (a - 0x100 * s) * 0x100 + r;
    assert p / 0x100 == ((a - 0x100 * s) * 0x100 + r) * 0x100 + g;
  }

  /** Every pixel is the packing of its own four channels: the extraction
      loses nothing. */
  lemma ArgbOfChannels(pixel: Int32)
    ensures Argb(Alpha(pixel), Red(pixel), Green(pixel), Blue(pixel)) == pixel
  {
    var q1, b := pixel / 0x100, pixel % 0x100;
    var q2, g := q1 / 0x100, q1 % 0x100;
    var q3, r := q2 / 0x100, q2 % 0x100;
    var q4, a := q3 / 0x100, q3 % 0x100;
    assert pixel == q1 * 0x100 + b;
    assert q1 == q2 * 0x100 + g;
    assert q2 == q3 * 0x100 + r;
    assert q3 == q4 * 0x100 + a;
    assert pixel == q4 * 0x1_0000_0000 + a * 0x100_0000 + r * 0x1_0000 + g * 0x100 + b;
    assert pixel / 0x1_0000 == q2;
    assert pixel / 0x100_0000 == q3;
  }
}

/** The tensor encoder of `detectarLetra`: the scaled bitmap is walked row by
    row, left to right, and each pixel contributes its red, green and blue
    channels, in that order, to the classifier's input buffer. */
module Encoding {

  import opened Pixels
  import opened FloatBuffers

  /** The side of the square bitmap the classifier takes. */
  const Side: nat := 64

  /** The size in bytes of the input buffer: one four-byte float for each of
      the three channels of each of the Side × Side pixels. */
  const BufferBytes: nat := 4 * Side * Side * 3

  /** A bitmap as `getPixel` sees it: `pixels[y][x]` is the packed ARGB
      pixel in column `x` of row `y`, row 0 at the top. */
  datatype Bitmap = Bitmap(width: nat, height: nat, pixels: seq<seq<Int32>>) {

    predicate WellFormed() {
      |pixels| == height && forall y :: 0 <= y < height ==> |pixels[y]| == width
    }

    /** `getPixel(x, y)` */
    function GetPixel(x: nat, y: nat): (pixel: Int32)
      requires WellFormed() && x < width && y < height
    {
      pixels[y][x]
    }
  }

  /** The channels of one row of pixels, pixel after pixel. */
  function EncodeRow(row: seq<Int32>): (t: seq<int>)
    ensures |t| == 3 * |row|
  {
    if row == [] then [] else EncodeRow(row[..|row| - 1]) + Channels(row[|row| - 1])
  }

  /** The channels of the rows, top row first. */
  function EncodeRows(rows: seq<seq<Int32>>): (t: seq<int>)
  {
    if rows == [] then [] else EncodeRows(rows[..|rows| - 1]) + EncodeRow(rows[|rows| - 1])
  }

  /** The classifier input the packing loop produces for a bitmap. */
  function Encode(bitmap: Bitmap): (t: seq<int>)
    requires bitmap.WellFormed()
    ensures |t| == 3 * (bitmap.width * bitmap.height)
  {
    EncodeRowsLength(bitmap.pixels, bitmap.width);
    EncodeRows(bitmap.pixels)
  }

  /** Rows of equal width `w` encode to three values per pixel. */
  lemma {:induction false} EncodeRowsLength(rows: seq<seq<Int32>>, w: nat)
    requires forall y :: 0 <= y < |rows| ==> |rows[y]| == w
    ensures |EncodeRows(rows)| == 3 * (w * |rows|)
  {
    if rows != [] {
      var n := |rows| - 1;
      assert forall y :: 0 <= y < n ==> rows[..n][y] == rows[y];
      EncodeRowsLength(rows[..n], w);
      assert |EncodeRows(rows)| == 3 * (w * n) + 3 * w;
    }
  }

  /** Channel `c` of pixel `x` of a row is at offset `3·x + c`. */
  lemma {:induction false} EncodeRowAt(row: seq<Int32>, x: nat, c: nat)
    requires x < |row| && c < 3
    ensures EncodeRow(row)[3 * x + c] == Channels(row[x])[c]
  {
    var n := |row| - 1;
    if x < n {
      EncodeRowAt(row[..n], x, c);
    }
  }

  /** Channel `c` of pixel `x` of row `y` is at offset `3·(y·w + x) + c`. */
  lemma {:induction false} EncodeRowsAt(rows: seq<seq<Int32>>, w: nat, x: nat, y: nat, c: nat)
    requires forall j :: 0 <= j < |rows| ==> |rows[j]| == w
    requires x < w && y < |rows| && c < 3
    ensures 3 * (y * w + x) + c < |EncodeRows(rows)|
    ensures EncodeRows(rows)[3 * (y * w + x) + c] == Channels(rows[y][x])[c]
  {
    var n := |rows| - 1;
    EncodeRowsLength(rows[..n], w);
    EncodeRowsLength(rows, w);
    if y < n {
      MulMonotonic(y + 1, n, w);
      EncodeRowsAt(rows[..n], w, x, y, c);
      assert rows[..n][y] == rows[y];
    } else {
      EncodeRowAt(rows[y], x, c);
    }
  }

  /** Products grow with their left factor. */
  lemma {:induction false} MulMonotonic(a: nat, b: nat, w: nat)
    requires a <= b
    ensures a * w <= b * w
  {
    if a < b {
      MulMonotonic(a, b - 1, w);
    }
  }

  /** The layout of the input tensor: row-major, channel-interleaved. Pixel
      (x, y) puts its red, green and blue channels at offsets
      `3·(y·width + x)`, `+ 1` and `+ 2`. */
  lemma EncodeLayout(bitmap: Bitmap, x: nat, y: nat)
    requires bitmap.WellFormed() && x < bitmap.width && y < bitmap.height
    ensures 3 * (y * bitmap.width + x) + 2 < |Encode(bitmap)|
    ensures Encode(bitmap)[3 * (y * bitmap.width + x)] == Red(bitmap.GetPixel(x, y))
    ensures Encode(bitmap)[3 * (y * bitmap.width + x) + 1] == Green(bitmap.GetPixel(x, y))
    ensures Encode(bitmap)[3 * (y * bitmap.width + x) + 2] == Blue(bitmap.GetPixel(x, y))
  {
    EncodeRowsAt(bitmap.pixels, bitmap.width, x, y, 0);
    EncodeRowsAt(bitmap.pixels, bitmap.width, x, y, 1);
    EncodeRowsAt(bitmap.pixels, bitmap.width, x, y, 2);
  }

  /** Every value of the tensor is a channel byte, so every float the buffer
      receives, the byte divided by 255, lies in [0, 1]. */
  lemma {:induction false} EncodeBytes(rows: seq<seq<Int32>>)
    ensures forall i :: 0 <= i < |EncodeRows(rows)| ==> IsByte(EncodeRows(rows)[i])
  {
    if rows != [] {
      EncodeBytes(rows[..|rows| - 1]);
      EncodeRowBytes(rows[|rows| - 1]);
    }
  }

  lemma {:induction false} EncodeRowBytes(row: seq<Int32>)
    ensures forall i :: 0 <= i < |EncodeRow(row)| ==> IsByte(EncodeRow(row)[i])
  {
    if row != [] {
      EncodeRowBytes(row[..|row| - 1]);
    }
  }

  /** A black bitmap, of any alpha, encodes to zeros only: for the classifier's
      64 × 64 input, 12288 of them. */
  lemma BlackBitmapEncodesToZeros(bitmap: Bitmap, alpha: int)
    requires bitmap.WellFormed() && IsByte(alpha)
    requires forall y, x :: 0 <= y < bitmap.height && 0 <= x < bitmap.width ==>
               bitmap.GetPixel(x, y) == Argb(alpha, 0, 0, 0)
    ensures Encode(bitmap) == seq(3 * (bitmap.width * bitmap.height), _ => 0)
    ensures bitmap.width == Side && bitmap.height == Side ==> |Encode(bitmap)| == 12288
  {
    ChannelsOfArgb(alpha, 0, 0, 0);
    forall y, x | 0 <= y < |bitmap.pixels| && 0 <= x < |bitmap.pixels[y]|
      ensures bitmap.pixels[y][x] == Argb(alpha, 0, 0, 0)
    {
      assert bitmap.GetPixel(x, y) == bitmap.pixels[y][x];
    }
    BlackRowsEncodeToZeros(bitmap.pixels, Argb(alpha, 0, 0, 0));
  }

  lemma {:induction false} BlackRowsEncodeToZeros(rows: seq<seq<Int32>>, black: Int32)
    requires Channels(black) == [0, 0, 0]
    requires forall y, x :: 0 <= y < |rows| && 0 <= x < |rows[y]| ==> rows[y][x] == black
    ensures forall i :: 0 <= i < |EncodeRows(rows)| ==> EncodeRows(rows)[i] == 0
  {
    if rows != [] {
      var n := |rows| - 1;
      BlackRowsEncodeToZeros(rows[..n], black);
      BlackRowEncodesToZeros(rows[n], black);
    }
  }

  lemma {:induction false} BlackRowEncodesToZeros(row: seq<Int32>, black: Int32)
    requires Channels(black) == [0, 0, 0]
    requires forall x :: 0 <= x < |row| ==> row[x] == black
    ensures forall i :: 0 <= i < |EncodeRow(row)| ==> EncodeRow(row)[i] == 0
  {
    if row != [] {
      BlackRowEncodesToZeros(row[..|row| - 1], black);
    }
  }

  /** The body of the packing loop: three `putFloat` calls with the red,
      green and blue channels of one pixel. */
  method PutPixel(buffer: FloatBuffer, pixel: Int32)
    requires buffer.Valid() && buffer.position + 3 * FloatBytes <= buffer.capacity
    modifies buffer, buffer.slots
    ensures buffer.Valid()
    ensures buffer.position == old(buffer.position) + 3 * FloatBytes
    ensures buffer.Written() == old(buffer.Written()) + Channels(pixel)
    ensures forall i :: buffer.position / FloatBytes <= i < buffer.slots.Length ==> buffer.slots[i] == old(buffer.slots[i])
  {
    var ok := buffer.PutFloat(Red(pixel));
    ok := buffer.PutFloat(Green(pixel));
    ok := buffer.PutFloat(Blue(pixel));
  }

  /** The packing loop of `detectarLetra`: for each row `y`, for each column
      `x`, three `putFloat` calls write the red, green and blue channels of
      `getPixel(x, y)`. The buffer ends up holding exactly the encoding of the
      bitmap, and the slots past it keep their contents. */
  method PackPixels(bitmap: Bitmap, buffer: FloatBuffer)
    requires bitmap.WellFormed() && buffer.Valid() && buffer.position == 0
    requires FloatBytes * (3 * (bitmap.width * bitmap.height)) <= buffer.capacity
    modifies buffer, buffer.slots
    ensures buffer.Valid()
    ensures buffer.position == FloatBytes * |Encode(bitmap)|
    ensures buffer.Written() == Encode(bitmap)
    ensures forall i :: |Encode(bitmap)| <= i < buffer.slots.Length ==> buffer.slots[i] == old(buffer.slots[i])
  {
    ghost var rows := bitmap.pixels;
    for y := 0 to bitmap.height
      invariant y * bitmap.width <= bitmap.width * bitmap.height
      invariant buffer.Valid()
      invariant buffer.position == FloatBytes * (3 * (y * bitmap.width))
      invariant buffer.Written() == EncodeRows(rows[..y])
      invariant forall i :: buffer.position / FloatBytes <= i < buffer.slots.Length ==> buffer.slots[i] == old(buffer.slots[i])
    {
      MulMonotonic(y + 1, bitmap.height, bitmap.width);
      PackRow(bitmap, y, buffer);
      assert rows[..y + 1][..y] == rows[..y];
    }
    assert rows[..bitmap.height] == rows;
  }

  /** The inner loop of the packing: row `y`, left to right. */
  method PackRow(bitmap: Bitmap, y: nat, buffer: FloatBuffer)
    requires bitmap.WellFormed() && y < bitmap.height && buffer.Valid()
    requires buffer.position + FloatBytes * (3 * bitmap.width) <= buffer.capacity
    modifies buffer, buffer.slots
    ensures buffer.Valid()
    ensures buffer.position == old(buffer.position) + FloatBytes * (3 * bitmap.width)
    ensures buffer.Written() == old(buffer.Written()) + EncodeRow(bitmap.pixels[y])
    ensures forall i :: buffer.position / FloatBytes <= i < buffer.slots.Length ==> buffer.slots[i] == old(buffer.slots[i])
  {
    ghost var row := bitmap.pixels[y];
    ghost var before := buffer.Written();
    for x := 0 to bitmap.width
      invariant buffer.Valid()
      invariant buffer.position == old(buffer.position) + FloatBytes * (3 * x)
      invariant buffer.Written() == before + EncodeRow(row[..x])
      invariant forall i :: buffer.position / FloatBytes <= i < buffer.slots.Length ==> buffer.slots[i] == old(buffer.slots[i])
    {
      PutPixel(buffer, bitmap.GetPixel(x, y));
      assert row[..x + 1][..x] == row[..x];
    }
    assert row[..bitmap.width] == row;
  }
}

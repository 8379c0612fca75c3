# Alfabedu letter recognition: a Dafny model of the classifier pipeline

Alfabedu is an Android app. It takes a photo of a hand-drawn letter and shows
the letter an on-device TensorFlow Lite classifier recognises in it. The only
logic in the app is `detectarLetra` in `SubirTomarFoto.kt`, together with its
helpers `indexOfMax` and `mapLabel`. This project models that logic and proves
properties about it:

- **Null guard.** No bitmap gives the empty string.
- **Tensor encoding.** The bitmap, already scaled to 64 × 64, is walked row by
  row, left to right. Every pixel adds three `putFloat` calls to a direct
  `ByteBuffer` of `4 * 64 * 64 * 3` bytes: red, then green, then blue. Each
  channel is taken out of the packed ARGB `Int` with `shr` and `and 0xFF`.
- **Classification.** The interpreter fills an output row of `numClasses = 54`
  scores.
- **Arg-max.** `indexOfMax` scans the row and keeps the first position of the
  highest score.
- **Label table.** `mapLabel` maps that position to one of 54 one-character
  labels: "A"–"Z" with "Ñ" after "N", then "a"–"z" with "ñ" after "n". Any
  other index gives "Desconocido".

Modules, one per component:

- `Pixels` (`pixels.dfy`): Kotlin's 32-bit `Int` and channel extraction. A
  shift followed by a mask is written as Euclidean division and remainder.
  This is exact for negative (opaque) pixels too. Extraction is proved to
  invert ARGB packing in both directions.
- `FloatBuffers` (`float_buffer.dfy`): the part of `java.nio.ByteBuffer` the
  code uses. That is `allocateDirect`, `rewind` and `putFloat`, with the
  position counted in bytes. `putFloat` has its overflow error path.
- `Encoding` (`encoding.dfy`): the bitmap and the reference encoding
  `Encode`. Also the packing loop `PackPixels`, which is proved to fill the
  buffer with exactly `Encode(bitmap)`. Its layout lemma gives the offset
  `3·(y·width + x) + c` of each channel.
- `Labels` (`labels.dfy`): `MapLabel` as `mapLabel`'s `when` expression, an
  independent table built from the two alphabets, and an inverse
  `LabelIndexOf` computed from character codes.
- `Detection` (`detection.dfy`): `IndexOfMax` as a loop with invariants, and
  `DetectLetter`, which composes the whole pipeline.
- `Wrappers` (`wrappers.dfy`): `Option`, for Kotlin's nullable `Bitmap?`.

The class order is every upper-case letter, then every lower-case letter
(`SubirTomarFoto.kt` lines 212-265). The code raises no errors of its own: a
null bitmap gives "", and any other failure is a platform or interpreter
exception (see "Left out").

## Model

| member | source | states |
|---|---|---|
| Pixels.Red | app/src/main/java/com/elbin/alfabedu/SubirTomarFoto.kt:181 | `pixel shr 16 and 0xFF` is a byte, in [0, 255] |
| Pixels.Green | app/src/main/java/com/elbin/alfabedu/SubirTomarFoto.kt:182 | `pixel shr 8 and 0xFF` is a byte, in [0, 255] |
| Pixels.Blue | app/src/main/java/com/elbin/alfabedu/SubirTomarFoto.kt:183 | `pixel and 0xFF` is a byte, in [0, 255] |
| Pixels.Channels | app/src/main/java/com/elbin/alfabedu/SubirTomarFoto.kt:180-183 | a pixel contributes three bytes; `EncodeLayout` places them red, green, blue |
| Pixels.ChannelsOfArgb | app/src/main/java/com/elbin/alfabedu/SubirTomarFoto.kt:180-183 | extracting the channels of the pixel packed from (a, r, g, b) gives back r, g, b (and a), also when the packed `Int` is negative |
| Pixels.ArgbOfChannels | app/src/main/java/com/elbin/alfabedu/SubirTomarFoto.kt:180-183 | every 32-bit pixel is the ARGB packing of its extracted channels, so extraction loses nothing |
| FloatBuffers.FloatBuffer.AllocateDirect | app/src/main/java/com/elbin/alfabedu/SubirTomarFoto.kt:174 | a fresh zero-filled buffer of the given byte capacity, positioned at 0 |
| FloatBuffers.FloatBuffer.Rewind | app/src/main/java/com/elbin/alfabedu/SubirTomarFoto.kt:175 | the position returns to 0 |
| FloatBuffers.FloatBuffer.PutFloat | app/src/main/java/com/elbin/alfabedu/SubirTomarFoto.kt:181-183 | with four bytes left, the value is stored at the position's slot and the position advances by 4; otherwise the call fails and nothing changes |
| Encoding.Bitmap.GetPixel | app/src/main/java/com/elbin/alfabedu/SubirTomarFoto.kt:180 | `getPixel(x, y)` of a well-formed bitmap with x below its width and y below its height is the packed pixel `pixels[y][x]`: column x of row y, row 0 at the top |
| Encoding.EncodeRow | app/src/main/java/com/elbin/alfabedu/SubirTomarFoto.kt:179-184 | a row of pixels encodes to three values per pixel |
| Encoding.Encode | app/src/main/java/com/elbin/alfabedu/SubirTomarFoto.kt:178-185 | the encoding of a width × height bitmap has 3·width·height values |
| Encoding.EncodeRowsLength | app/src/main/java/com/elbin/alfabedu/SubirTomarFoto.kt:178-185 | rows of equal width w encode to 3·w values per row |
| Encoding.EncodeRowsAt | app/src/main/java/com/elbin/alfabedu/SubirTomarFoto.kt:178-184 | channel c of pixel x of row y lies at offset 3·(y·w + x) + c |
| Encoding.EncodeLayout | app/src/main/java/com/elbin/alfabedu/SubirTomarFoto.kt:178-184 | row-major, channel-interleaved layout: red, green and blue of `getPixel(x, y)` are at 3·(y·width + x), +1, +2 |
| Encoding.EncodeBytes | app/src/main/java/com/elbin/alfabedu/SubirTomarFoto.kt:181-183 | every encoded value is a byte, so every float written (value / 255) is in [0, 1] |
| Encoding.BlackBitmapEncodesToZeros | app/src/main/java/com/elbin/alfabedu/SubirTomarFoto.kt:178-185 | a black bitmap of any alpha encodes to zeros only; 12288 of them at 64 × 64 |
| Encoding.PutPixel | app/src/main/java/com/elbin/alfabedu/SubirTomarFoto.kt:180-183 | the three `putFloat` calls append the pixel's red, green and blue and advance the position by 12 bytes, touching nothing past it |
| Encoding.PackRow | app/src/main/java/com/elbin/alfabedu/SubirTomarFoto.kt:179-184 | the inner loop appends the encoding of row y and leaves the rest of the buffer alone |
| Encoding.PackPixels | app/src/main/java/com/elbin/alfabedu/SubirTomarFoto.kt:178-185 | with room for 12 bytes per pixel the loop never overflows; the buffer holds exactly `Encode(bitmap)`, positioned at 4·3·width·height, and the slots past it are unchanged |
| Labels.MapLabel | app/src/main/java/com/elbin/alfabedu/SubirTomarFoto.kt:210-268 | an index in [0, 54) gives a one-character label other than "Desconocido"; any other index gives "Desconocido" |
| Labels.MapLabelIsTable | app/src/main/java/com/elbin/alfabedu/SubirTomarFoto.kt:211-265 | class i is the i-th character of "A…NÑO…Z" followed by "a…nño…z" |
| Labels.LabelIndexOf | app/src/main/java/com/elbin/alfabedu/SubirTomarFoto.kt:211-266 | the inverse decoding from a one-character label to a class yields only indices in [0, 54) |
| Labels.LabelIndexOfMapLabel | app/src/main/java/com/elbin/alfabedu/SubirTomarFoto.kt:211-265 | decoding the label of class i gives back i |
| Labels.MapLabelOfLabelIndexOf | app/src/main/java/com/elbin/alfabedu/SubirTomarFoto.kt:211-265 | a label that decodes to class i is the label of i, so the table is a bijection between the 54 classes and the 54 labels |
| Labels.MapLabelInjective | app/src/main/java/com/elbin/alfabedu/SubirTomarFoto.kt:211-266 | two classes have the same label exactly when they are the same class, and no class is labelled "Desconocido" |
| Labels.TableEntries | app/src/main/java/com/elbin/alfabedu/SubirTomarFoto.kt:212-265 | 0 → "A", 13 → "N", 14 → "Ñ", 15 → "O", 26 → "Z", 27 → "a", 40 → "n", 41 → "ñ", 53 → "z" |
| Labels.OutsideTable | app/src/main/java/com/elbin/alfabedu/SubirTomarFoto.kt:266 | -1 and 54 give "Desconocido" |
| Detection.IndexOfMax | app/src/main/java/com/elbin/alfabedu/SubirTomarFoto.kt:198-208 | for a non-empty row 0, the result is an index of the row, its score is at least every score, and every earlier score is strictly lower (first maximum wins) |
| Detection.FirstMaxUnique | app/src/main/java/com/elbin/alfabedu/SubirTomarFoto.kt:199-206 | a row has at most one first maximum, so the picked class depends on the scores alone |
| Detection.TieGoesToLowestIndex | app/src/main/java/com/elbin/alfabedu/SubirTomarFoto.kt:202-205 | a position whose score an earlier position equals is never picked |
| Detection.OneHotDecodes | app/src/main/java/com/elbin/alfabedu/SubirTomarFoto.kt:194-195 | a row with 1.0 at class k and 0 elsewhere picks k; at k = 26 that reads "Z" |
| Detection.DetectLetter | app/src/main/java/com/elbin/alfabedu/SubirTomarFoto.kt:170-196 | no bitmap gives ""; a 64 × 64 bitmap fills the buffer exactly with `Encode(bitmap)` and, taking the interpreter to read the whole buffer from slot 0, gives the label of the first maximum of the model's scores for that input, always one of the 54 labels and never "Desconocido" |

## Left out

- `Bitmap.createScaledBitmap` (line 173) is library resampling. `DetectLetter` requires a bitmap that is already 64 × 64 and takes it as the scaled one.
- `loadModel` and `tflite.run` (lines 76-86, 191) are the TensorFlow Lite interpreter and memory-mapped file I/O. The model is a parameter that gives a score for each class from the input floats. When the model was never loaded or failed to load, reading the `lateinit` property `tflite` at line 191 throws `UninitializedPropertyAccessException` and `run` is never called; that exception is not modelled. The model is never loaded when the permissions were not already granted at `onCreate` (lines 45-47), since nothing calls `loadModel` afterwards.
- `Detection.Scores` is the definition that stands for `FloatArray(numClasses)` filled by the interpreter (lines 188-191): a row of 54 entries, entry i being the model's score of class i for the input.
- The division by `255.0f` (lines 181-183) is floating point. A buffer slot holds the channel byte the float is computed from. The float value and its IEEE 754 byte encoding in the buffer are not modelled.
- Scores are `real`, so NaN and the other float comparison corners of `indexOfMax` are not modelled.
- `Detection.IndexOfMax`: requires a non-empty row. `indexOfMax` reads `outputArray[0][0]` first and throws on an empty array; the model does not return that exception.
- `FloatBuffers.FloatBuffer.AllocateDirect`: requires a capacity that is a multiple of 4, because the model keeps whole four-byte floats. `ByteBuffer` itself accepts any capacity. The capacity `detectarLetra` allocates, `4 * 64 * 64 * 3`, meets this.
- `Detection.DetectLetter`: assumes that `run` reads all 12288 floats of the buffer starting from its first byte. The code does not show how the interpreter reads it. Line 187 wraps the buffer in `arrayOf(byteBuffer)`, and at line 191 its position is still at the end (49152 bytes), because the only `rewind` is at line 175, before the loop. The buffer also keeps `ByteBuffer`'s default byte order. The model hands the interpreter every slot, from slot 0.
- `java.nio.ByteBuffer` limit and byte order: a fresh buffer's limit is its capacity and nothing changes it. `putFloat` fails at the limit, which is modelled as `PutFloat`'s overflow path. `putFloat` also writes its four bytes in the buffer's byte order, the default big-endian one here. That is not modelled, because a slot holds a value, not bytes. Mark and the other `put`/`get` calls are not used by the core.
- Permissions, URI creation, bitmap decoding from the gallery or camera, and the Compose screen (lines 43-167, 270-276) are platform I/O and UI.
- `MainActivity.kt` (onboarding carousel, preferences flag, navigation in coroutines), `ui/theme/SubirTomarFoto.kt` (a UI-only duplicate of the picker) and `OnBoardingData.kt` (a data class of UI resources) are UI and are not part of this model.

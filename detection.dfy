/** `detectarLetra` and `indexOfMax`: a bitmap goes through the packing loop
    into the classifier, and the class with the highest score is read off the
    label table. */
module Detection {

  import opened Wrappers
  import opened Pixels
  import opened FloatBuffers
  import opened Encoding
  import opened Labels

  /** `k` is the position of the first maximum of `row`: no score beats
      `row[k]`, and every score before it is strictly lower. */
  predicate IsFirstMax(row: seq<real>, k: int) {
    0 <= k < |row| &&
    (forall j :: 0 <= j < |row| ==> row[j] <= row[k]) &&
    (forall j :: 0 <= j < k ==> row[j] < row[k])
  }

  /** A row has at most one first maximum, so the class `indexOfMax` picks
      is determined by the scores alone. */
  lemma FirstMaxUnique(row: seq<real>, i: int, k: int)
    requires IsFirstMax(row, i) && IsFirstMax(row, k)
    ensures i == k
  {
    // both are maxima, so their scores are equal, and neither can be
    // strictly below the other
    assert row[i] == row[k];
  }

  /** A score that some earlier score equals is never picked: ties go to
      the lowest index. */
  lemma TieGoesToLowestIndex(row: seq<real>, i: int, k: int)
    requires 0 <= i < k < |row| && row[i] == row[k]
    ensures !IsFirstMax(row, k)
  {
  }

  /** `indexOfMax`: scan row 0 of the output array from the left, keeping
      the first position of the highest score seen so far (a later score
      replaces it only when strictly greater). The row must have an element:
      `indexOfMax` reads `outputArray[0][0]` before the scan. */
  method IndexOfMax(outputArray: seq<seq<real>>) returns (maxIndex: int)
    requires |outputArray| > 0 && |outputArray[0]| > 0
    ensures IsFirstMax(outputArray[0], maxIndex)
  {
    var row := outputArray[0];
    maxIndex := 0;
    var maxValue := row[0];
    for i := 0 to |row|
      invariant 0 <= maxIndex < |row| && maxValue == row[maxIndex]
      invariant forall j :: 0 <= j < i ==> row[j] <= maxValue
      invariant forall j :: 0 <= j < maxIndex ==> row[j] < maxValue
    {
      if row[i] > maxValue {
        maxValue := row[i];
        maxIndex := i;
      }
    }
  }

  /** The output row the interpreter fills: `FloatArray(numClasses)`, score
      `i` being what the model gives class `i` for the input floats. */
  function Scores(model: (seq<int>, int) -> real, input: seq<int>): (row: seq<real>)
  {
    seq(NumClasses, i => model(input, i))
  }

  /** A row that gives one class all the weight and the others none decodes
      to that class: a score of 1.0 at class 26 and 0 elsewhere reads "Z". */
  lemma OneHotDecodes(k: int)
    requires 0 <= k < NumClasses
    ensures IsFirstMax(seq(NumClasses, i => if i == k then 1.0 else 0.0), k)
    ensures k == 26 ==> MapLabel(k) == "Z"
  {
    if k == 26 {
      TableEntries();
    }
  }

  /** `detectarLetra`: no bitmap gives the empty string; otherwise the
      bitmap, already scaled to Side × Side, is packed into a fresh buffer of
      BufferBytes bytes, the model scores it, and the label of the first
      highest score is returned. The buffer is filled exactly with the
      encoding of the bitmap. The interpreter is taken to read every slot of
      the buffer from slot 0, although `run` is handed the buffer wrapped in
      an array with its position at the end; how it reads the buffer is not
      part of this model. The answer is always one of the 54 letters, never
      "Desconocido". */
  method DetectLetter(bitmap: Option<Bitmap>, model: (seq<int>, int) -> real) returns (letter: string)
    requires bitmap.Some? ==> bitmap.value.WellFormed()
    requires bitmap.Some? ==> bitmap.value.width == Side && bitmap.value.height == Side
    ensures bitmap.None? ==> letter == ""
    ensures bitmap.Some? ==>
      exists k :: IsFirstMax(Scores(model, Encode(bitmap.value)), k) && letter == MapLabel(k)
    ensures bitmap.Some? ==> LabelIndexOf(letter).Some? && letter != Unknown
  {
    if bitmap.None? {
      return "";
    }
    var resized := bitmap.value;
    var buffer := new FloatBuffer.AllocateDirect(BufferBytes);
    buffer.Rewind();
    PackPixels(resized, buffer);
    assert buffer.position == buffer.capacity;
    var input := buffer.slots[..];
    assert input == Encode(resized);
    var outputArray := [Scores(model, input)];
    var predicted := IndexOfMax(outputArray);
    letter := MapLabel(predicted);
    LabelIndexOfMapLabel(predicted);
    assert IsFirstMax(Scores(model, Encode(resized)), predicted);
  }
}

/** The label decoder: the fixed table from a class index of the letter
    classifier to the character it stands for, and its inverse. */
module Labels {

  import opened Wrappers

  /** The number of classes the classifier scores. */
  const NumClasses: nat := 54

  /** The result for an index outside the table. */
  const Unknown: string := "Desconocido"

  /** The Spanish alphabet, in both cases, with "Ñ" between "N" and "O". */
  const UpperLetters: string := "ABCDEFGHIJKLMNÑOPQRSTUVWXYZ"
  const LowerLetters: string := "abcdefghijklmnñopqrstuvwxyz"

  /** The class order of the classifier: every upper-case letter, then every
      lower-case letter. */
  const LabelTable: string := UpperLetters + LowerLetters

  /** `mapLabel`: the character of class `index` as a one-character string,
      and "Desconocido" for any other index. */
  function MapLabel(index: int): (letter: string)
    ensures 0 <= index < NumClasses ==> |letter| == 1 && letter != Unknown
    ensures !(0 <= index < NumClasses) ==> letter == Unknown
  {
    match index
    case 0 => "A"
    case 1 => "B"
    case 2 => "C"
    case 3 => "D"
    case 4 => "E"
    case 5 => "F"
    case 6 => "G"
    case 7 => "H"
    case 8 => "I"
    case 9 => "J"
    case 10 => "K"
    case 11 => "L"
    case 12 => "M"
    case 13 => "N"
    case 14 => "Ñ"
    case 15 => "O"
    case 16 => "P"
    case 17 => "Q"
    case 18 => "R"
    case 19 => "S"
    case 20 => "T"
    case 21 => "U"
    case 22 => "V"
    case 23 => "W"
    case 24 => "X"
    case 25 => "Y"
    case 26 => "Z"
    case 27 => "a"
    case 28 => "b"
    case 29 => "c"
    case 30 => "d"
    case 31 => "e"
    case 32 => "f"
    case 33 => "g"
    case 34 => "h"
    case 35 => "i"
    case 36 => "j"
    case 37 => "k"
    case 38 => "l"
    case 39 => "m"
    case 40 => "n"
    case 41 => "ñ"
    case 42 => "o"
    case 43 => "p"
    case 44 => "q"
    case 45 => "r"
    case 46 => "s"
    case 47 => "t"
    case 48 => "u"
    case 49 => "v"
    case 50 => "w"
    case 51 => "x"
    case 52 => "y"
    case 53 => "z"
    case _ => Unknown
  }

  /** The class index of a label, computed from the character codes: the
      inverse of MapLabel on its table. */
  function LabelIndexOf(letter: string): (index: Option<int>)
    ensures index.Some? ==> 0 <= index.value < NumClasses
  {
    if |letter| != 1 then None
    else
      var c := letter[0];
      if 'A' <= c <= 'N' then Some(c as int - 'A' as int)
      else if c == 'Ñ' then Some(14)
      else if 'O' <= c <= 'Z' then Some(c as int - 'A' as int + 1)
      else if 'a' <= c <= 'n' then Some(c as int - 'a' as int + 27)
      else if c == 'ñ' then Some(41)
      else if 'o' <= c <= 'z' then Some(c as int - 'a' as int + 28)
      else None
  }

  /** MapLabel reads the table: class `index` is the `index`-th character of
      the upper-case alphabet followed by the lower-case alphabet. */
  lemma MapLabelIsTable(index: int)
    requires 0 <= index < NumClasses
    ensures |LabelTable| == NumClasses && MapLabel(index) == [LabelTable[index]]
  {
    if index < |UpperLetters| {
      UpperLabels(index);
    } else {
      LowerLabels(index - |UpperLetters|);
    }
  }

  lemma UpperLabels(k: int)
    requires 0 <= k < |UpperLetters|
    ensures MapLabel(k) == [UpperLetters[k]]
  {
  }

  lemma LowerLabels(k: int)
    requires 0 <= k < |LowerLetters|
    ensures MapLabel(|UpperLetters| + k) == [LowerLetters[k]]
  {
  }

  /** Decoding the label of a class gives back the class. */
  lemma LabelIndexOfMapLabel(index: int)
    requires 0 <= index < NumClasses
    ensures LabelIndexOf(MapLabel(index)) == Some(index)
  {
    MapLabelIsTable(index);
    if index < |UpperLetters| {
      UpperLetterCodes(index);
    } else {
      LowerLetterCodes(index - |UpperLetters|);
    }
  }

  /** The upper-case block of the table decodes to its own positions. */
  lemma UpperLetterCodes(k: int)
    requires 0 <= k < |UpperLetters|
    ensures LabelIndexOf([UpperLetters[k]]) == Some(k)
  {
  }

  /** The lower-case block of the table decodes to its own positions,
      shifted past the upper-case block. */
  lemma LowerLetterCodes(k: int)
    requires 0 <= k < |LowerLetters|
    ensures LabelIndexOf([LowerLetters[k]]) == Some(|UpperLetters| + k)
  {
  }

  /** A label that decodes to a class is that class's label, so MapLabel and
      LabelIndexOf are inverse bijections between the 54 classes and the 54
      one-character labels. */
  lemma MapLabelOfLabelIndexOf(letter: string)
    requires LabelIndexOf(letter).Some?
    ensures MapLabel(LabelIndexOf(letter).value) == letter
  {
  }

  /** No two classes share a label, and no class is labelled "Desconocido". */
  lemma MapLabelInjective(i: int, j: int)
    requires 0 <= i < NumClasses && 0 <= j < NumClasses
    ensures MapLabel(i) == MapLabel(j) <==> i == j
    ensures MapLabel(i) != Unknown
  {
    LabelIndexOfMapLabel(i);
    LabelIndexOfMapLabel(j);
  }

  /** Specific entries of the table. */
  lemma TableEntries()
    ensures MapLabel(0) == "A" && MapLabel(13) == "N" && MapLabel(14) == "Ñ"
    ensures MapLabel(15) == "O" && MapLabel(26) == "Z" && MapLabel(27) == "a"
    ensures MapLabel(40) == "n" && MapLabel(41) == "ñ" && MapLabel(53) == "z"
  {
    UpperLabels(0); UpperLabels(13); UpperLabels(14); UpperLabels(15); UpperLabels(26);
    LowerLabels(0); LowerLabels(13); LowerLabels(14); LowerLabels(26);
  }

  /** The indices just outside the table. */
  lemma OutsideTable()
    ensures MapLabel(-1) == Unknown && MapLabel(NumClasses) == Unknown
  {
  }
}

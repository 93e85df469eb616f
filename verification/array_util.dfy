/** Range helpers of client/js/array-util.js: consecutive integers and one-letter column labels.
    JavaScript strings are sequences of UTF-16 code units, so the labels here are too. */
module ArrayUtil {
  import opened Wrappers

  /** One UTF-16 code unit. */
  type CodeUnit = x: int | 0 <= x < 0x1_0000

  /** A JavaScript string value. */
  type JsString = seq<CodeUnit>

  /** The default first letter, 'A'. */
  const DefaultFirstLetter: JsString := [0x41]

  /** ToLength as used by Array.from: negative lengths become 0. It is also how many times
      `for (let i = 0; i < n; i++)` runs. */
  function ToLength(n: int): nat
  {
    if n < 0 then 0 else n
  }

  /** ToUint16: the argument of String.fromCharCode, taken modulo 2^16. */
  function ToUint16(n: int): CodeUnit
  {
    n % 0x1_0000
  }

  /** `s.charCodeAt(0)`; None stands for NaN on the empty string. */
  function CharCodeAt0(s: JsString): Option<int>
  {
    if |s| == 0 then None else Some(s[0])
  }

  /** `String.fromCharCode(code)` for one argument. */
  function FromCharCode(code: int): JsString
  {
    [ToUint16(code)]
  }

  /** `getRange(fromNum, toNum)`: `Array.from({length: toNum - fromNum + 1}, (_, i) => i + fromNum)`. */
  function GetRange(fromNum: int, toNum: int): (r: seq<int>)
    ensures |r| == if toNum < fromNum then 0 else toNum - fromNum + 1
    ensures forall i :: 0 <= i < |r| ==> r[i] == fromNum + i
  {
    seq(ToLength(toNum - fromNum + 1), i => i + fromNum)
  }

  /** `getLetterRange(firstLetter, numLetters)`: the code units from that of `firstLetter` on,
      each made into a one-unit string. An empty `firstLetter` has code NaN, and the range of
      length NaN is empty. */
  function GetLetterRange(firstLetter: JsString, numLetters: int): (r: seq<JsString>)
    ensures |r| == if |firstLetter| == 0 || numLetters < 0 then 0 else numLetters
    ensures forall i :: 0 <= i < |r| ==> |firstLetter| > 0 && r[i] == [(firstLetter[0] + i) % 0x1_0000]
  {
    match CharCodeAt0(firstLetter)
    case None => []
    case Some(rangeStart) =>
      var codes := GetRange(rangeStart, rangeStart + numLetters - 1);
      seq(|codes|, i requires 0 <= i < |codes| => FromCharCode(codes[i]))
  }

  /** `getLetter(firstLetter, numCols)`: the single letter at code `code(firstLetter) + numCols - 1`.
      `String.fromCharCode(NaN)` is the code unit 0. */
  function GetLetter(firstLetter: JsString, numCols: int): (r: JsString)
    ensures |r| == 1
    ensures |firstLetter| > 0 && numCols >= 1 ==> r == GetLetterRange(firstLetter, numCols)[numCols - 1]
    ensures |firstLetter| == 0 ==> r == [0]
  {
    match CharCodeAt0(firstLetter)
    case None => FromCharCode(0)
    case Some(rangeStart) => FromCharCode(rangeStart + numCols - 1)
  }

  // ---------------------------------------------------------------------------------------
  // getRange

  /** The range has `to - from + 1` elements, and none (not an error) when `to < from`. */
  lemma GetRangeLength(fromNum: int, toNum: int)
    ensures |GetRange(fromNum, toNum)| == if toNum < fromNum then 0 else toNum - fromNum + 1
  {
  }

  /** Element `i` is `from + i`, so consecutive elements differ by exactly 1. */
  lemma GetRangeAt(fromNum: int, toNum: int, i: int)
    requires 0 <= i < |GetRange(fromNum, toNum)|
    ensures GetRange(fromNum, toNum)[i] == fromNum + i
    ensures i + 1 < |GetRange(fromNum, toNum)| ==> GetRange(fromNum, toNum)[i + 1] == GetRange(fromNum, toNum)[i] + 1
  {
  }

  /** A non-empty range starts at `from` and ends at `to`. */
  lemma GetRangeEnds(fromNum: int, toNum: int)
    requires fromNum <= toNum
    ensures |GetRange(fromNum, toNum)| > 0
    ensures GetRange(fromNum, toNum)[0] == fromNum
    ensures GetRange(fromNum, toNum)[|GetRange(fromNum, toNum)| - 1] == toNum
  {
  }

  /** The range holds exactly the integers from `from` to `to`, each once, in increasing order. */
  lemma GetRangeMembers(fromNum: int, toNum: int, x: int)
    ensures x in GetRange(fromNum, toNum) <==> fromNum <= x <= toNum
    ensures forall i, j :: 0 <= i < j < |GetRange(fromNum, toNum)| ==>
      GetRange(fromNum, toNum)[i] < GetRange(fromNum, toNum)[j]
  {
    var r := GetRange(fromNum, toNum);
    if fromNum <= x <= toNum {
      assert r[x - fromNum] == x;
    }
  }

  // ---------------------------------------------------------------------------------------
  // getLetterRange and getLetter

  /** `getLetterRange(first, n)` has `n` labels when `first` is not empty and `n >= 0`, and none
      for a negative `n` or an empty `first`. */
  lemma GetLetterRangeLength(firstLetter: JsString, numLetters: int)
    ensures |GetLetterRange(firstLetter, numLetters)| ==
      if |firstLetter| == 0 || numLetters < 0 then 0 else numLetters
  {
  }

  /** Label `i` is the one-unit string whose code is `code(first) + i`, wrapped to 16 bits. */
  lemma GetLetterRangeAt(firstLetter: JsString, numLetters: int, i: int)
    requires 0 <= i < |GetLetterRange(firstLetter, numLetters)|
    ensures |firstLetter| > 0
    ensures GetLetterRange(firstLetter, numLetters)[i] == [(firstLetter[0] + i) % 0x1_0000]
    ensures firstLetter[0] + i < 0x1_0000 ==> GetLetterRange(firstLetter, numLetters)[i] == [firstLetter[0] + i]
  {
  }

  /** For `n >= 1`, `getLetter(first, n)` is the last label of `getLetterRange(first, n)`. */
  lemma GetLetterIsLastOfRange(firstLetter: JsString, numCols: int)
    requires |firstLetter| > 0 && numCols >= 1
    ensures |GetLetterRange(firstLetter, numCols)| == numCols
    ensures GetLetter(firstLetter, numCols) == GetLetterRange(firstLetter, numCols)[numCols - 1]
  {
  }

  /** Unlike the range, `getLetter` still yields a letter for `n <= 0`: the one `1 - n` codes
      before `first` (so `getLetter('A', 0)` is '@'). */
  lemma GetLetterBeforeFirst(firstLetter: JsString, numCols: int)
    requires |firstLetter| > 0 && numCols <= 0
    ensures GetLetterRange(firstLetter, numCols) == []
    ensures GetLetter(firstLetter, numCols) == [(firstLetter[0] + numCols - 1) % 0x1_0000]
  {
  }

  /** Every label is a single code unit, whatever the first letter and the count. */
  lemma LettersAreSingleUnits(firstLetter: JsString, numLetters: int)
    ensures forall i :: 0 <= i < |GetLetterRange(firstLetter, numLetters)| ==>
      |GetLetterRange(firstLetter, numLetters)[i]| == 1
  {
  }

  /** Labels never become multi-letter: past 'Z' the codes simply go on ('[', '\', ...) rather
      than to "AA". */
  lemma LettersDoNotWrapToTwoLetters(numLetters: int)
    requires numLetters > 26
    ensures GetLetterRange(DefaultFirstLetter, numLetters)[25] == [0x5A]  // 'Z'
    ensures GetLetterRange(DefaultFirstLetter, numLetters)[26] == [0x5B]  // '['
  {
  }

  /** The labels are pairwise distinct as long as they do not go round the 16-bit code space. */
  lemma GetLetterRangeDistinct(firstLetter: JsString, numLetters: int)
    requires numLetters <= 0x1_0000
    ensures forall i, j :: 0 <= i < j < |GetLetterRange(firstLetter, numLetters)| ==>
      GetLetterRange(firstLetter, numLetters)[i] != GetLetterRange(firstLetter, numLetters)[j]
  {
  }

  /** Past 65536 labels the 16-bit wrap of String.fromCharCode repeats the first label. */
  lemma GetLetterRangeWraps(firstLetter: JsString, numLetters: int)
    requires |firstLetter| > 0 && numLetters > 0x1_0000
    ensures GetLetterRange(firstLetter, numLetters)[0x1_0000] == GetLetterRange(firstLetter, numLetters)[0]
  {
  }

  /** The header a six-column sheet gets: 'A' to 'F', with no blank leading label. */
  lemma SixColumnHeader()
    ensures GetLetterRange(DefaultFirstLetter, 6) == [[0x41], [0x42], [0x43], [0x44], [0x45], [0x46]]
  {
  }
}

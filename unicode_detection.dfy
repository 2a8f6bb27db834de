/**
 * The older detection hook (src/hooks/useUnicodeDetection.ts), without its
 * React state: what `handleTextChange` stores, the `textStats` memo and
 * `cleanText`.
 */
module UnicodeDetection {
  import opened Types
  import opened Encoding
  import opened UnicodeHelpers
  import opened TextNormalization
  import TextProcessor
  import GeneralCategory

  // ---------------------------------------------------------------------------
  // handleTextChange

  /** The hook's two pieces of state, `text` and `hiddenChars`. */
  datatype Detection = Detection(text: Text, hiddenChars: seq<HiddenChar>)

  /**
   * `handleTextChange`: the stored text is the normalised input and the stored
   * marks are those of the normalised text, so they index the stored text and
   * every line ending in it is CRLF.
   */
  function HandleTextChange(newText: Text): (r: Detection)
    ensures r.text == NormalizeText(newText)
    ensures r.hiddenChars == Detected(r.text)
    ensures AllCrlf(r.text)
    ensures StrictlyIncreasing(r.hiddenChars) && WellIndexed(r.text, r.hiddenChars)
  {
    var t := NormalizeText(newText);
    DetectedOrdered(t);
    Detection(t, Detected(t))
  }

  // ---------------------------------------------------------------------------
  // textStats

  /** The six statistics of the older hook (it has no `tabChars`). */
  datatype DetectionStats = DetectionStats(
    totalChars: nat,
    visibleChars: nat,
    hiddenChars: nat,
    newlineChars: nat,
    bytes: nat,
    spaces: nat)

  /** `hiddenChars.some(hidden => hidden.char === char)`: some mark carries code point `cp`. */
  function AnyCharIs(marks: seq<HiddenChar>, cp: CodePoint): (b: bool)
    ensures b <==> exists k | 0 <= k < |marks| :: marks[k].ch == cp
  {
    if marks == [] then false
    else
      var rest := AnyCharIs(marks[..|marks| - 1], cp);
      assert forall k | 0 <= k < |marks| - 1 :: marks[..|marks| - 1][k] == marks[k];
      rest || marks[|marks| - 1].ch == cp
  }

  /** Number of code points of `text` whose value is the `char` of no mark. */
  function UnmatchedChars(text: Text, marks: seq<HiddenChar>): (n: nat)
    ensures n <= |text|
  {
    if text == [] then 0
    else UnmatchedChars(text[..|text| - 1], marks) + (if AnyCharIs(marks, text[|text| - 1]) then 0 else 1)
  }

  /**
   * The `textStats` memo: `totalChars` is the UTF-16 length, `bytes` the UTF-8
   * length, `hiddenChars` and `newlineChars` count marks by type, and the loop
   * over code points counts spaces and the code points equal to no mark's `char`.
   */
  method TextStats(text: Text, hiddenChars: seq<HiddenChar>) returns (stats: DetectionStats)
    ensures stats.totalChars == |Utf16(text)|
    ensures stats.visibleChars == UnmatchedChars(text, hiddenChars)
    ensures stats.hiddenChars == CountKind(hiddenChars, Hidden)
    ensures stats.newlineChars == CountKind(hiddenChars, Newline)
    ensures stats.bytes == |Utf8(text)|
    ensures stats.spaces == Count(text, SPACE)
  {
    var visible := 0;
    var spaces := 0;
    for i := 0 to |text|
      invariant spaces == Count(text[..i], SPACE)
      invariant visible == UnmatchedChars(text[..i], hiddenChars)
    {
      assert text[..i + 1][..i] == text[..i];
      if text[i] == SPACE {
        spaces := spaces + 1;
      }
      if !AnyCharIs(hiddenChars, text[i]) {
        visible := visible + 1;
      }
    }
    assert text[..|text|] == text;
    stats := DetectionStats(|Utf16(text)|, visible, CountKind(hiddenChars, Hidden),
      CountKind(hiddenChars, Newline), |Utf8(text)|, spaces);
  }

  /** With detected marks, a code point matches some mark's `char` iff it is marked itself. */
  lemma DetectedCharIs(text: Text, i: nat)
    requires i < |text|
    ensures AnyCharIs(Detected(text), text[i]) <==> IsMarkedCp(text[i])
  {
    var d := Detected(text);
    DetectedOrdered(text);
    DetectedComplete(text, i);
    if AnyCharIs(d, text[i]) {
      var k :| 0 <= k < |d| && d[k].ch == text[i];
      assert MarkShape(d[k]);
    }
    if IsMarkedCp(text[i]) {
      var k :| 0 <= k < |d| && d[k].index == i;
      assert d[k].ch == text[i];
    }
  }

  lemma {:induction false} DetectedPrefixSize(text: Text, n: nat)
    requires n <= |text|
    ensures UnmatchedChars(text[..n], Detected(text)) + |DetectedPrefix(text, n)| == n
  {
    if n > 0 {
      DetectedPrefixSize(text, n - 1);
      assert text[..n][..n - 1] == text[..n - 1];
      DetectedCharIs(text, n - 1);
      MarkAtShape(text[n - 1], n - 1);
    }
  }

  /**
   * With detected marks, `visibleChars` excludes exactly the marked positions:
   * visible, hidden and newline code points add up to the code-point length,
   * which is at most `totalChars` and equal to it without supplementary characters.
   */
  lemma DetectionStatsBalance(text: Text)
    ensures UnmatchedChars(text, Detected(text)) + CountKind(Detected(text), Hidden)
      + CountKind(Detected(text), Newline) == |text|
    ensures |text| <= |Utf16(text)|
    ensures CountSupplementary(text) == 0 ==> |text| == |Utf16(text)|
  {
    DetectedPrefixSize(text, |text|);
    assert text[..|text|] == text;
    DetectedOrdered(text);
    CountKindsSum(Detected(text));
    CountKindAbsent(Detected(text), Tab);
    Utf16Length(text);
  }

  // ---------------------------------------------------------------------------
  // cleanText

  /** What the older `cleanText` returns: each `'hidden'`-marked position becomes a space, every other code point is copied. */
  function Spaced(text: Text, marks: seq<HiddenChar>): (r: seq<CodePoint>)
    ensures |r| == |text|
  {
    seq(|text|, i requires 0 <= i < |text| => if HiddenMarkAt(marks, i) then SPACE else text[i])
  }

  /** The older `cleanText`: a loop over the code points with a `some()` search for a hidden mark at each index. */
  method LegacyCleanText(text: Text, hiddenChars: seq<HiddenChar>) returns (cleanedText: seq<CodePoint>)
    ensures cleanedText == Spaced(text, hiddenChars)
    ensures forall i | 0 <= i < |text| :: cleanedText[i] == if HiddenMarkAt(hiddenChars, i) then SPACE else text[i]
  {
    var newlineIndices := TextProcessor.IndexSet(hiddenChars, Newline);
    cleanedText := [];
    for i := 0 to |text|
      invariant |cleanedText| == i
      invariant forall j | 0 <= j < i :: cleanedText[j] == if HiddenMarkAt(hiddenChars, j) then SPACE else text[j]
    {
      var isHiddenChar := TextProcessor.AnyHiddenAt(hiddenChars, i);
      if isHiddenChar {
        cleanedText := cleanedText + [SPACE];
      } else if i in newlineIndices {
        cleanedText := cleanedText + [text[i]];
      } else {
        cleanedText := cleanedText + [text[i]];
      }
    }
  }

  /**
   * Cleaning with detected marks leaves no hidden code point, keeps every CR
   * and LF in place, and so cleaning the result again changes nothing.
   */
  lemma SpacedClean(text: Text)
    ensures forall i | 0 <= i < |text| :: !IsHiddenCp(Spaced(text, Detected(text))[i])
    ensures forall i | 0 <= i < |text| && IsNewlineCp(text[i]) :: Spaced(text, Detected(text))[i] == text[i]
    ensures Spaced(Spaced(text, Detected(text)), Detected(Spaced(text, Detected(text)))) == Spaced(text, Detected(text))
  {
    GeneralCategory.CategoryFacts();
    var s := Spaced(text, Detected(text));
    forall i | 0 <= i < |text| ensures !IsHiddenCp(s[i]) && (IsNewlineCp(text[i]) ==> s[i] == text[i]) {
      DetectedKinds(text, i);
    }
    forall i | 0 <= i < |s| ensures !HiddenMarkAt(Detected(s), i) {
      DetectedKinds(s, i);
    }
  }
}

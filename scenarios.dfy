/**
 * The concrete inputs of the repository's tests, worked through the model.
 * Where a test expects something other than what the code does, the lemma
 * states what the code does.
 */
module Scenarios {
  import opened Types
  import opened GeneralCategory
  import opened Encoding
  import opened UnicodeHelpers
  import opened TextProcessor
  import opened TextNormalization
  import opened UnicodeDetection

  /** A string literal as code points. */
  function Cps(s: string): (t: Text)
    ensures |t| == |s| && forall i | 0 <= i < |s| :: t[i] == s[i] as int
  {
    seq(|s|, i requires 0 <= i < |s| => s[i] as int)
  }

  /** Printable ASCII carries no mark, no line break and no supplementary code point. */
  lemma PlainAscii(s: string)
    requires forall i | 0 <= i < |s| :: ' ' <= s[i] <= '~'
    ensures forall i | 0 <= i < |s| :: !IsMarkedCp(Cps(s)[i]) && !IsHiddenCp(Cps(s)[i])
    ensures NoBreaks(Cps(s)) && Detected(Cps(s)) == []
    ensures forall i | 0 <= i < |s| :: Cps(s)[i] < 0x10000
  {
    CategoryFacts();
    DetectedNone(Cps(s));
  }

  /** Detection of break-free ASCII around a middle part marks only the middle part. */
  lemma DetectedAround(a: string, m: Text, b: string)
    requires forall i | 0 <= i < |a| :: ' ' <= a[i] <= '~'
    requires forall i | 0 <= i < |b| :: ' ' <= b[i] <= '~'
    ensures Detected(Cps(a) + m + Cps(b)) == Shift(Detected(m), |a|)
  {
    PlainAscii(a);
    PlainAscii(b);
    DetectedConcat(Cps(a), m + Cps(b));
    DetectedConcat(m, Cps(b));
    assert Cps(a) + m + Cps(b) == Cps(a) + (m + Cps(b));
  }

  /** The empty text: no marks, nothing to normalise, every statistic zero. */
  lemma EmptyText()
    ensures Detected([]) == [] && NormalizeText([]) == []
    ensures HandleTextChange([]) == Detection([], [])
    ensures |Utf16([])| == 0 && |Utf8([])| == 0 && UnmatchedChars([], []) == 0
    ensures CountKind([], Hidden) == 0 && CountKind([], Newline) == 0 && Count([], SPACE) == 0
  {
  }

  const HelloZwspWorld: Text := Cps("Hello") + [0x200B] + Cps("World")

  /**
   * `'Hello\u200bWorld'`: one `'hidden'` mark at index 5 named
   * `'Zero Width Space (U+200B)'`; normalising changes nothing; the older
   * `cleanText` gives `'Hello World'`.
   */
  lemma HelloZwspWorldMarks()
    ensures Detected(HelloZwspWorld) == [HiddenChar(0x200B, 5, "Zero Width Space (U+200B)", Hidden)]
    ensures ProcessText(HelloZwspWorld).hiddenChars == Detected(HelloZwspWorld)
    ensures HandleTextChange(HelloZwspWorld).text == HelloZwspWorld
    ensures Spaced(HelloZwspWorld, Detected(HelloZwspWorld)) == Cps("Hello World")
  {
    DetectedAround("Hello", [0x200B], "World");
    ZwspMark();
    HelloZwspWorldStored();
    HelloZwspWorldSpaced();
  }

  lemma HelloZwspWorldStored()
    ensures NormalizeText(HelloZwspWorld) == HelloZwspWorld
  {
    PlainAscii("Hello");
    PlainAscii("World");
    assert NoBreaks(HelloZwspWorld);
    NormalizeNoBreaks(HelloZwspWorld);
  }

  lemma HelloZwspWorldSpaced()
    ensures Spaced(HelloZwspWorld, Detected(HelloZwspWorld)) == Cps("Hello World")
  {
    PlainAscii("Hello");
    PlainAscii("World");
    var s := Spaced(HelloZwspWorld, Detected(HelloZwspWorld));
    forall i | 0 <= i < 11 ensures s[i] == Cps("Hello World")[i] {
      DetectedKinds(HelloZwspWorld, i);
    }
  }

  const TwoLines: Text := Cps("Hello World!") + [LF] + Cps("Second line")

  /** A string of printable ASCII with exactly one space, cut at that space. */
  lemma OneSpace(s: string, a: string, b: string)
    requires s == a + " " + b
    requires forall i | 0 <= i < |a| :: ' ' < a[i] <= '~'
    requires forall i | 0 <= i < |b| :: ' ' < b[i] <= '~'
    ensures Count(Cps(s), SPACE) == 1
  {
    assert Cps(s) == Cps(a) + [SPACE] + Cps(b) + [];
    SpacesAround(Cps(a), Cps(b), []);
  }

  /** Spaces on either side of a line break add up. */
  lemma CountAcrossBreak(x: Text, y: Text)
    ensures Count(x + [LF] + y, SPACE) == Count(x, SPACE) + Count(y, SPACE)
  {
    CountConcat(x + [LF], y, SPACE);
    CountConcat(x, [LF], SPACE);
    assert [LF][..0] == [];
  }

  lemma TwoLinesMarks()
    ensures Detected(TwoLines) == [HiddenChar(LF, 12, "LF (U+000A)", Newline)]
  {
    DetectedAround("Hello World!", [LF], "Second line");
    DetectedSingleton(LF);
  }

  /**
   * `'Hello World!\nSecond line'` (the live pipeline does not normalise):
   * total 24, visible 24, one newline, two spaces.
   */
  lemma TwoLinesStats()
    ensures Detected(TwoLines) == [HiddenChar(LF, 12, "LF (U+000A)", Newline)]
    ensures |Utf16(TwoLines)| == 24
    ensures VisibleChars(TwoLines, Detected(TwoLines)) == 24
    ensures CountKind(Detected(TwoLines), Newline) == 1
    ensures CountKind(Detected(TwoLines), Hidden) == 0
    ensures Count(TwoLines, SPACE) == 2
  {
    TwoLinesMarks();
    var m := HiddenChar(LF, 12, "LF (U+000A)", Newline);
    assert [m][..0] == [];
    TwoLinesLength();
    DetectedStats(TwoLines);
    OneSpace("Hello World!", "Hello", "World!");
    OneSpace("Second line", "Second", "line");
    CountAcrossBreak(Cps("Hello World!"), Cps("Second line"));
  }

  lemma TwoLinesLength()
    ensures |Utf16(TwoLines)| == 24
  {
    PlainAscii("Hello World!");
    PlainAscii("Second line");
    BmpLength(TwoLines);
  }

  /** `'   '`: three spaces, all visible. */
  lemma ThreeSpacesStats()
    ensures Detected([SPACE, SPACE, SPACE]) == []
    ensures Count([SPACE, SPACE, SPACE], SPACE) == 3
    ensures VisibleChars([SPACE, SPACE, SPACE], Detected([SPACE, SPACE, SPACE])) == 3
  {
    PlainAscii("   ");
    assert Cps("   ") == [SPACE, SPACE, SPACE];
    assert Count([SPACE], SPACE) == 1 by {
      assert [SPACE][..0] == [];
    }
    assert Count([SPACE, SPACE], SPACE) == 2 by {
      assert [SPACE, SPACE][..1] == [SPACE];
    }
    assert [SPACE, SPACE, SPACE][..2] == [SPACE, SPACE];
    BmpLength([SPACE, SPACE, SPACE]);
    DetectedStats([SPACE, SPACE, SPACE]);
  }

  const MixedHidden: Text := Cps("Hello") + [0x200B, 0x2060] + Cps("World") + [0x00A0] + Cps("Test")

  lemma ScrubFive(a: Text, b: Text, c: Text, d: Text, e: Text)
    ensures Scrub(a + b + c + d + e) == Scrub(a) + Scrub(b) + Scrub(c) + Scrub(d) + Scrub(e)
  {
    ScrubConcat(a + b + c + d, e);
    ScrubConcat(a + b + c, d);
    ScrubConcat(a + b, c);
    ScrubConcat(a, b);
  }

  lemma ScrubSmallParts()
    ensures Scrub([0x200B, 0x2060]) == []
    ensures Scrub([0x00A0]) == [0x00A0]
  {
    CategoryFacts();
    assert [0x200B, 0x2060][..1] == [0x200B];
    assert [0x00A0][..0] == [];
  }

  /**
   * `'Hello\u200b\u2060World\u00a0Test'`: the zero width space and the word
   * joiner disappear; U+00A0 is printable, so it is never marked and stays.
   */
  lemma MixedHiddenCleaned()
    ensures Cleaned(MixedHidden, Detected(MixedHidden)) == Cps("HelloWorld") + [0x00A0] + Cps("Test")
  {
    PlainAscii("Hello");
    PlainAscii("World");
    PlainAscii("Test");
    CleanedAroundMixed(Cps("Hello"), Cps("World"), Cps("Test"));
    assert Cps("HelloWorld") == Cps("Hello") + Cps("World");
  }

  lemma CleanedAroundMixed(a: Text, w: Text, t: Text)
    requires forall i | 0 <= i < |a| :: !IsHiddenCp(a[i])
    requires forall i | 0 <= i < |w| :: !IsHiddenCp(w[i])
    requires forall i | 0 <= i < |t| :: !IsHiddenCp(t[i])
    ensures Cleaned(a + [0x200B, 0x2060] + w + [0x00A0] + t, Detected(a + [0x200B, 0x2060] + w + [0x00A0] + t))
      == a + w + [0x00A0] + t
  {
    CleanedIsScrub(a + [0x200B, 0x2060] + w + [0x00A0] + t);
    ScrubAroundMixed(a, w, t);
  }

  lemma ScrubAroundMixed(a: Text, w: Text, t: Text)
    requires forall i | 0 <= i < |a| :: !IsHiddenCp(a[i])
    requires forall i | 0 <= i < |w| :: !IsHiddenCp(w[i])
    requires forall i | 0 <= i < |t| :: !IsHiddenCp(t[i])
    ensures Scrub(a + [0x200B, 0x2060] + w + [0x00A0] + t) == a + w + [0x00A0] + t
  {
    ScrubPlain(a);
    ScrubPlain(w);
    ScrubPlain(t);
    ScrubSmallParts();
    var z: Text, n: Text := [0x200B, 0x2060], [0x00A0];
    ScrubFive(a, z, w, n, t);
    assert a + [] == a;
  }

  /** A TAB is marked `'hidden'`, not `'tab'`, and cleaning turns it into a space. */
  lemma TabBecomesSpace()
    ensures Detected([TAB]) == [HiddenChar(TAB, 0, "U+0009", Hidden)]
    ensures Cleaned([TAB], Detected([TAB])) == [SPACE]
  {
    TabIsHidden(0);
    DetectedSingleton(TAB);
    CleanedIsScrub([TAB]);
    CategoryFacts();
    assert Scrub([TAB]) == ScrubOne(TAB);
  }

  /** A code point beyond U+FFFF gets five hex digits: U+1F600. */
  lemma FiveDigitName()
    ensures CodeName(0x1F600) == "U+1F600"
  {
    assert ToHex(0x1F600) == "1F600" by {
      assert ToHex(0x1) == "1";
      assert ToHex(0x1F) == "1F";
      assert ToHex(0x1F6) == "1F6";
      assert ToHex(0x1F60) == "1F60";
    }
    assert CodeHex(0x1F600) == "1F600";
  }

  const LineThenZwsp: Text := Cps("Hello") + [LF] + ([0x200B] + Cps("World"))

  /**
   * The older hook on `'Hello\n\u200bWorld'`: normalisation makes the break
   * CRLF, and cleaning keeps it, giving `'Hello\r\n World'`.
   */
  lemma LineThenZwspCleaned()
    ensures HandleTextChange(LineThenZwsp).text == Cps("Hello") + CRLF + [0x200B] + Cps("World")
    ensures Spaced(HandleTextChange(LineThenZwsp).text, HandleTextChange(LineThenZwsp).hiddenChars)
      == Cps("Hello\r\n World")
  {
    PlainAscii("Hello");
    PlainAscii("World");
    var tail := [0x200B] + Cps("World");
    assert NoBreaks(tail);
    NormalizeOneBreak(Cps("Hello"), tail);
    var n := Cps("Hello") + CRLF + [0x200B] + Cps("World");
    assert Cps("Hello") + CRLF + tail == n;
    var s := Spaced(n, Detected(n));
    forall i | 0 <= i < 13 ensures s[i] == Cps("Hello\r\n World")[i] {
      DetectedKinds(n, i);
      CategoryFacts();
    }
  }

  const LineStatsInput: Text := Cps("Hello World") + [LF] + ([0x200B] + Cps("Test"))
  const LineStatsText: Text := Cps("Hello World") + [CR, LF, 0x200B] + Cps("Test")

  /** The older hook on `'Hello World\n\u200bTest'` stores `'Hello World\r\n\u200bTest'`. */
  lemma LineStatsStored()
    ensures HandleTextChange(LineStatsInput).text == LineStatsText
  {
    PlainAscii("Hello World");
    PlainAscii("Test");
    var tail := [0x200B] + Cps("Test");
    assert NoBreaks(tail);
    NormalizeOneBreak(Cps("Hello World"), tail);
    assert Cps("Hello World") + CRLF + tail == LineStatsText;
  }

  lemma CrMark()
    ensures Detected([CR]) == [HiddenChar(CR, 0, "CR (U+000D)", Newline)]
  {
    DetectedSingleton(CR);
  }

  lemma LfMark()
    ensures Detected([LF]) == [HiddenChar(LF, 0, "LF (U+000A)", Newline)]
  {
    DetectedSingleton(LF);
  }

  lemma ZwspMark()
    ensures Detected([0x200B]) == [HiddenChar(0x200B, 0, "Zero Width Space (U+200B)", Hidden)]
  {
    DetectedSingleton(0x200B);
    assert CodeName(0x200B) == "Zero Width Space (U+200B)";
  }

  /** The marks of a text of three code points, from the marks of each. */
  lemma DetectedThree(x: CodePoint, y: CodePoint, z: CodePoint, mx: HiddenChar, my: HiddenChar, mz: HiddenChar)
    requires Detected([x]) == [mx] && Detected([y]) == [my] && Detected([z]) == [mz]
    ensures Detected([x, y, z]) == [mx, my.(index := my.index + 1), mz.(index := mz.index + 2)]
  {
    DetectedConcat([x], [y, z]);
    DetectedConcat([y], [z]);
    assert [x] + [y, z] == [x, y, z];
    assert [y] + [z] == [y, z];
    var r := Shift([my] + Shift([mz], 1), 1);
    assert r[0] == my.(index := my.index + 1);
    assert r[1] == mz.(index := mz.index + 2);
  }

  /** The marks of CR LF U+200B on their own. */
  lemma BreakZwspMarks()
    ensures Detected([CR, LF, 0x200B]) == [
      HiddenChar(CR, 0, "CR (U+000D)", Newline),
      HiddenChar(LF, 1, "LF (U+000A)", Newline),
      HiddenChar(0x200B, 2, "Zero Width Space (U+200B)", Hidden)]
  {
    CrMark();
    LfMark();
    ZwspMark();
    DetectedThree(CR, LF, 0x200B, HiddenChar(CR, 0, "CR (U+000D)", Newline),
      HiddenChar(LF, 0, "LF (U+000A)", Newline),
      HiddenChar(0x200B, 0, "Zero Width Space (U+200B)", Hidden));
  }

  /** Its marks: CR and LF as newlines, then the zero width space. */
  lemma LineStatsMarks()
    ensures Detected(LineStatsText) == [
      HiddenChar(CR, 11, "CR (U+000D)", Newline),
      HiddenChar(LF, 12, "LF (U+000A)", Newline),
      HiddenChar(0x200B, 13, "Zero Width Space (U+200B)", Hidden)]
  {
    DetectedAround("Hello World", [CR, LF, 0x200B], "Test");
    BreakZwspMarks();
  }

  /** The kinds of those three marks. */
  lemma LineStatsKinds()
    ensures CountKind(Detected(LineStatsText), Hidden) == 1
    ensures CountKind(Detected(LineStatsText), Newline) == 2
  {
    LineStatsMarks();
    var m1 := HiddenChar(CR, 11, "CR (U+000D)", Newline);
    var m2 := HiddenChar(LF, 12, "LF (U+000A)", Newline);
    var m3 := HiddenChar(0x200B, 13, "Zero Width Space (U+200B)", Hidden);
    assert [m1, m2, m3][..2] == [m1, m2];
    assert [m1, m2][..1] == [m1];
    assert [m1][..0] == [];
    assert CountKind([m1], Hidden) == 0 && CountKind([m1], Newline) == 1;
    assert CountKind([m1, m2], Hidden) == 0 && CountKind([m1, m2], Newline) == 2;
  }

  /**
   * Its statistics: 18 code points, two newline marks and one hidden mark,
   * 15 visible, one space.
   */
  lemma LineStats()
    ensures |Utf16(LineStatsText)| == 18
    ensures UnmatchedChars(LineStatsText, Detected(LineStatsText)) == 15
    ensures CountKind(Detected(LineStatsText), Hidden) == 1
    ensures CountKind(Detected(LineStatsText), Newline) == 2
    ensures Count(LineStatsText, SPACE) == 1
  {
    LineStatsKinds();
    DetectionStatsBalance(LineStatsText);
    LineStatsLength();
    LineStatsSpaces();
  }

  lemma LineStatsLength()
    ensures |Utf16(LineStatsText)| == 18
  {
    PlainAscii("Hello World");
    PlainAscii("Test");
    BmpLength(LineStatsText);
  }

  lemma LineStatsSpaces()
    ensures Count(LineStatsText, SPACE) == 1
  {
    assert Cps("Hello World") == Cps("Hello") + [SPACE] + Cps("World");
    assert LineStatsText == Cps("Hello") + [SPACE] + Cps("World") + ([CR, LF, 0x200B] + Cps("Test"));
    SpacesAround(Cps("Hello"), Cps("World"), [CR, LF, 0x200B] + Cps("Test"));
  }

  /** One space between space-free parts. */
  lemma SpacesAround(a: Text, b: Text, c: Text)
    requires SPACE !in a && SPACE !in b && SPACE !in c
    ensures Count(a + [SPACE] + b + c, SPACE) == 1
  {
    CountZero(a, SPACE);
    CountZero(b, SPACE);
    CountZero(c, SPACE);
    CountConcat(a + [SPACE] + b, c, SPACE);
    CountConcat(a + [SPACE], b, SPACE);
    CountConcat(a, [SPACE], SPACE);
  }
}

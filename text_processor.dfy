/**
 * The live pipeline's analysis and cleaning (src/utils/textProcessor.ts):
 * `processText`, `calculateTextStats` and `cleanText`.
 */
module TextProcessor {
  import opened Types
  import opened GeneralCategory
  import opened Encoding
  import opened UnicodeHelpers

  // ---------------------------------------------------------------------------
  // processText

  datatype Processed = Processed(text: Text, hiddenChars: seq<HiddenChar>)

  /** `processText`: the text, unchanged, with the marks the detector finds in it. */
  function ProcessText(rawText: Text): (r: Processed)
    ensures r.text == rawText
    ensures r.hiddenChars == Detected(rawText)
    ensures StrictlyIncreasing(r.hiddenChars) && WellIndexed(r.text, r.hiddenChars)
    ensures forall i | 0 <= i < |rawText| :: HasMarkAt(r.hiddenChars, i) <==> IsMarkedCp(rawText[i])
  {
    DetectedOrdered(rawText);
    assert forall i | 0 <= i < |rawText| :: HasMarkAt(Detected(rawText), i) <==> IsMarkedCp(rawText[i]) by {
      forall i | 0 <= i < |rawText| ensures HasMarkAt(Detected(rawText), i) <==> IsMarkedCp(rawText[i]) {
        DetectedComplete(rawText, i);
      }
    }
    Processed(rawText, Detected(rawText))
  }

  // ---------------------------------------------------------------------------
  // calculateTextStats

  /** The `hiddenIndices` set: the positions of the marks of kind `k`. */
  function IndexSet(marks: seq<HiddenChar>, k: MarkType): (s: set<nat>)
    ensures forall j | 0 <= j < |marks| && marks[j].kind == k :: marks[j].index in s
    ensures forall x | x in s :: exists j | 0 <= j < |marks| :: marks[j].index == x && marks[j].kind == k
  {
    if marks == [] then {}
    else
      var rest := IndexSet(marks[..|marks| - 1], k);
      var last := marks[|marks| - 1];
      if last.kind == k then rest + {last.index} else rest
  }

  /** Number of positions below `n` that are not in `s`. */
  function CountOutside(n: nat, s: set<nat>): (c: nat)
    ensures c <= n
  {
    if n == 0 then 0 else CountOutside(n - 1, s) + (if n - 1 in s then 0 else 1)
  }

  /** The statistic `visibleChars`: UTF-16 positions that are no `'hidden'` mark's index. */
  function VisibleChars(text: Text, marks: seq<HiddenChar>): nat {
    CountOutside(|Utf16(text)|, IndexSet(marks, Hidden))
  }

  /** No two marks share an index. */
  predicate DistinctIndices(marks: seq<HiddenChar>) {
    forall j, k | 0 <= j < k < |marks| :: marks[j].index != marks[k].index
  }

  lemma {:induction false} CountOutsideIgnores(n: nat, s: set<nat>, x: nat)
    requires n <= x
    ensures CountOutside(n, s) == CountOutside(n, s - {x})
  {
    if n > 0 {
      CountOutsideIgnores(n - 1, s, x);
    }
  }

  /** When every element of `s` is below `n`, exactly `n - |s|` positions are outside it. */
  lemma {:induction false} CountOutsideBelow(n: nat, s: set<nat>)
    requires forall x | x in s :: x < n
    ensures CountOutside(n, s) + |s| == n
  {
    if n == 0 {
    } else if n - 1 in s {
      CountOutsideIgnores(n - 1, s, n - 1);
      CountOutsideBelow(n - 1, s - {n - 1});
    } else {
      CountOutsideBelow(n - 1, s);
    }
  }

  /** With distinct indices, the index set has one element per mark of its kind. */
  lemma {:induction false} IndexSetSize(marks: seq<HiddenChar>, k: MarkType)
    requires DistinctIndices(marks)
    ensures |IndexSet(marks, k)| == CountKind(marks, k)
  {
    if marks != [] {
      var init := marks[..|marks| - 1];
      var last := marks[|marks| - 1];
      assert DistinctIndices(init);
      IndexSetSize(init, k);
    }
  }

  /**
   * Every `'hidden'` mark is counted once and removed once from the visible
   * count, so `visibleChars + hiddenChars == totalChars` when the marks have
   * distinct indices below `text.length`, the UTF-16 length the loop runs
   * over (newlines count as visible).
   */
  lemma VisiblePlusHidden(text: Text, marks: seq<HiddenChar>)
    requires DistinctIndices(marks)
    requires forall j | 0 <= j < |marks| :: marks[j].index < |Utf16(text)|
    ensures VisibleChars(text, marks) + CountKind(marks, Hidden) == |Utf16(text)|
  {
    IndexSetSize(marks, Hidden);
    CountOutsideBelow(|Utf16(text)|, IndexSet(marks, Hidden));
  }

  lemma {:induction false} CountUnit(cp: CodePoint, v: int)
    requires 0 <= v < 0xD800
    ensures Count(Utf16Units(cp), v) == Count([cp], v)
  {
    var u := Utf16Units(cp);
    if cp >= 0x10000 {
      assert u[..1] == [u[0]] && [u[0]][..0] == [];
    }
  }

  /** Counting a character below U+D800 over code units or over code points gives the same number. */
  lemma {:induction false} CountUtf16(s: Text, v: int)
    requires 0 <= v < 0xD800
    ensures Count(Utf16(s), v) == Count(s, v)
  {
    if s != [] {
      CountUtf16(s[1..], v);
      CountConcat(Utf16Units(s[0]), Utf16(s[1..]), v);
      CountUnit(s[0], v);
      assert s == [s[0]] + s[1..];
      CountConcat([s[0]], s[1..], v);
    }
  }

  /**
   * `calculateTextStats`: counts marks by kind into counters and `hiddenIndices`,
   * then walks the UTF-16 code units counting spaces and unmarked positions.
   */
  method CalculateTextStats(text: Text, hiddenChars: seq<HiddenChar>) returns (stats: TextStats)
    ensures stats.totalChars == |Utf16(text)|
    ensures stats.hiddenChars == CountKind(hiddenChars, Hidden)
    ensures stats.newlineChars == CountKind(hiddenChars, Newline)
    ensures stats.tabChars == CountKind(hiddenChars, Tab)
    ensures stats.spaces == Count(text, SPACE)
    ensures stats.visibleChars == VisibleChars(text, hiddenChars)
    ensures stats.bytes == |Utf8(text)|
    ensures DistinctIndices(hiddenChars) && (forall j | 0 <= j < |hiddenChars| :: hiddenChars[j].index < |Utf16(text)|) ==>
      stats.visibleChars + stats.hiddenChars == stats.totalChars
  {
    var hiddenCount, newlineCount, spaces, tabCount, visibleChars := 0, 0, 0, 0, 0;
    var hiddenIndices: set<nat> := {};

    for j := 0 to |hiddenChars|
      invariant hiddenCount == CountKind(hiddenChars[..j], Hidden)
      invariant newlineCount == CountKind(hiddenChars[..j], Newline)
      invariant tabCount == CountKind(hiddenChars[..j], Tab)
      invariant hiddenIndices == IndexSet(hiddenChars[..j], Hidden)
    {
      var hiddenChar := hiddenChars[j];
      assert hiddenChars[..j + 1][..j] == hiddenChars[..j];
      if hiddenChar.kind == Hidden {
        hiddenIndices := hiddenIndices + {hiddenChar.index};
        hiddenCount := hiddenCount + 1;
      } else if hiddenChar.kind == Newline {
        newlineCount := newlineCount + 1;
      } else if hiddenChar.kind == Tab {
        tabCount := tabCount + 1;
      }
    }
    assert hiddenChars[..|hiddenChars|] == hiddenChars;

    var units := Utf16(text);
    for i := 0 to |units|
      invariant spaces == Count(units[..i], SPACE)
      invariant visibleChars == CountOutside(i, hiddenIndices)
    {
      assert units[..i + 1][..i] == units[..i];
      if units[i] == SPACE {
        spaces := spaces + 1;
      }
      if i !in hiddenIndices {
        visibleChars := visibleChars + 1;
      }
    }
    assert units[..|units|] == units;
    CountUtf16(text, SPACE);

    stats := TextStats(|units|, visibleChars, hiddenCount, newlineCount, tabCount, |Utf8(text)|, spaces);
    if DistinctIndices(hiddenChars) && (forall j | 0 <= j < |hiddenChars| :: hiddenChars[j].index < |Utf16(text)|) {
      VisiblePlusHidden(text, hiddenChars);
    }
  }

  lemma StrictlyIncreasingDistinct(marks: seq<HiddenChar>)
    requires StrictlyIncreasing(marks)
    ensures DistinctIndices(marks)
  {
  }

  /**
   * On the detector's own marks: no `'tab'` marks, `visibleChars + hiddenChars
   * == totalChars`, and hidden plus newline marks never exceed the code points.
   */
  lemma DetectedStats(text: Text)
    ensures CountKind(Detected(text), Tab) == 0
    ensures VisibleChars(text, Detected(text)) + CountKind(Detected(text), Hidden) == |Utf16(text)|
    ensures CountKind(Detected(text), Hidden) + CountKind(Detected(text), Newline) <= |text|
  {
    var d := Detected(text);
    DetectedOrdered(text);
    DetectedNoTab(text);
    StrictlyIncreasingDistinct(d);
    Utf16Length(text);
    VisiblePlusHidden(text, d);
    CountKindsSum(d);
    IndicesBound(d, |text|);
  }

  /** Strictly increasing indices below `n` leave room for at most `n` marks. */
  lemma {:induction false} IndicesBound(marks: seq<HiddenChar>, n: nat)
    requires StrictlyIncreasing(marks)
    requires forall j | 0 <= j < |marks| :: marks[j].index < n
    ensures |marks| <= n
    decreases n
  {
    if marks != [] {
      var init := marks[..|marks| - 1];
      IndicesBound(init, marks[|marks| - 1].index);
    }
  }

  // ---------------------------------------------------------------------------
  // cleanText

  /**
   * `new Map(hiddenChars.filter(c => c.type === k).map(c => [c.index, c.char]))`:
   * the indices of the marks of kind `k`, each bound to the char of a mark of
   * kind `k` at that index (the last one, by `IndexMapLastWins`).
   */
  function IndexMap(marks: seq<HiddenChar>, k: MarkType): (m: map<nat, CodePoint>)
    ensures forall j | 0 <= j < |marks| && marks[j].kind == k :: marks[j].index in m
    ensures forall i | i in m :: exists j | 0 <= j < |marks| :: marks[j].index == i && marks[j].kind == k && m[i] == marks[j].ch
  {
    if marks == [] then map[]
    else
      var rest := IndexMap(marks[..|marks| - 1], k);
      var last := marks[|marks| - 1];
      if last.kind == k then rest[last.index := last.ch] else rest
  }

  /** For a repeated index, the map keeps the char of the last mark, as `Map` does for repeated keys. */
  lemma {:induction false} IndexMapLastWins(marks: seq<HiddenChar>, k: MarkType, j: nat)
    requires j < |marks| && marks[j].kind == k
    requires forall j' | j < j' < |marks| :: !(marks[j'].index == marks[j].index && marks[j'].kind == k)
    ensures IndexMap(marks, k)[marks[j].index] == marks[j].ch
  {
    if j < |marks| - 1 {
      var init := marks[..|marks| - 1];
      assert init[j] == marks[j];
      IndexMapLastWins(init, k, j);
    }
  }

  /** `hiddenChars.some(h => h.index === i && h.type === 'hidden')`, a linear search. */
  function AnyHiddenAt(marks: seq<HiddenChar>, i: nat): (b: bool)
    ensures b <==> HiddenMarkAt(marks, i)
  {
    if marks == [] then false
    else
      var last := marks[|marks| - 1];
      var rest := AnyHiddenAt(marks[..|marks| - 1], i);
      assert HiddenMarkAt(marks[..|marks| - 1], i) ==> HiddenMarkAt(marks, i);
      rest || (last.index == i && last.kind == Hidden)
  }

  /**
   * A zero-width code point, removed rather than replaced by a space:
   * U+200B..U+200F, U+2060..U+206F, U+FEFF and the soft hyphen U+00AD.
   * (The source also tests the code is nonzero, which these ranges imply.)
   */
  predicate IsZeroWidth(cp: CodePoint) {
    (0x200B <= cp <= 0x200F) || (0x2060 <= cp <= 0x206F) || cp == 0xFEFF || cp == 0x00AD
  }

  /** What the loop appends for position `i`. */
  function CleanPiece(text: Text, marks: seq<HiddenChar>, i: nat): seq<CodePoint>
    requires i < |text|
  {
    var newlineChars := IndexMap(marks, Newline);
    var tabChars := IndexMap(marks, Tab);
    if AnyHiddenAt(marks, i) then (if IsZeroWidth(text[i]) then [] else [SPACE])
    else if i in newlineChars then [newlineChars[i]]
    else if i in tabChars then [tabChars[i]]
    else [text[i]]
  }

  /** The cleaned form of the first `n` code points. */
  function CleanedPrefix(text: Text, marks: seq<HiddenChar>, n: nat): seq<CodePoint>
    requires n <= |text|
  {
    if n == 0 then [] else CleanedPrefix(text, marks, n - 1) + CleanPiece(text, marks, n - 1)
  }

  function Cleaned(text: Text, marks: seq<HiddenChar>): seq<CodePoint> {
    CleanedPrefix(text, marks, |text|)
  }

  /**
   * `cleanText`: removes zero-width hidden code points, replaces every other
   * hidden one with one space, emits the stored char of newline and tab marks,
   * and copies the rest.
   */
  method CleanText(text: Text, hiddenChars: seq<HiddenChar>) returns (cleanedText: seq<CodePoint>)
    ensures cleanedText == Cleaned(text, hiddenChars)
  {
    var newlineChars := IndexMap(hiddenChars, Newline);
    var tabChars := IndexMap(hiddenChars, Tab);
    cleanedText := [];
    var chars := text;
    for i := 0 to |chars|
      invariant cleanedText == CleanedPrefix(text, hiddenChars, i)
    {
      var ch := chars[i];
      var isHidden := AnyHiddenAt(hiddenChars, i);
      if isHidden {
        var code := ch;
        var isZeroWidth := code != 0 && IsZeroWidth(code);
        if !isZeroWidth {
          cleanedText := cleanedText + [SPACE];
        }
      } else if i in newlineChars {
        cleanedText := cleanedText + [newlineChars[i]];
      } else if i in tabChars {
        cleanedText := cleanedText + [tabChars[i]];
      } else {
        cleanedText := cleanedText + [ch];
      }
    }
  }

  /** Number of positions below `n` that are `'hidden'`-marked and zero-width. */
  function DroppedPrefix(text: Text, marks: seq<HiddenChar>, n: nat): nat
    requires n <= |text|
  {
    if n == 0 then 0
    else DroppedPrefix(text, marks, n - 1) + (if AnyHiddenAt(marks, n - 1) && IsZeroWidth(text[n - 1]) then 1 else 0)
  }

  lemma CleanPieceSize(text: Text, marks: seq<HiddenChar>, i: nat)
    requires i < |text|
    ensures |CleanPiece(text, marks, i)| == if AnyHiddenAt(marks, i) && IsZeroWidth(text[i]) then 0 else 1
  {
  }

  lemma {:induction false} CleanedPrefixLength(text: Text, marks: seq<HiddenChar>, n: nat)
    requires n <= |text|
    ensures |CleanedPrefix(text, marks, n)| + DroppedPrefix(text, marks, n) == n
    ensures DroppedPrefix(text, marks, n) == 0 <==>
      forall i | 0 <= i < n :: !(AnyHiddenAt(marks, i) && IsZeroWidth(text[i]))
  {
    if n > 0 {
      CleanedPrefixLength(text, marks, n - 1);
      CleanPieceSize(text, marks, n - 1);
    }
  }

  /**
   * Cleaning never lengthens the text, and it keeps the length exactly when
   * no `'hidden'`-marked position holds a zero-width code point.
   */
  lemma CleanedLength(text: Text, marks: seq<HiddenChar>)
    ensures |Cleaned(text, marks)| <= |text|
    ensures |Cleaned(text, marks)| == |text| <==>
      forall i | 0 <= i < |text| :: !(AnyHiddenAt(marks, i) && IsZeroWidth(text[i]))
  {
    CleanedPrefixLength(text, marks, |text|);
  }

  /** Under well-indexed marks, every map binding is the text's own code point. */
  lemma IndexMapAgrees(text: Text, marks: seq<HiddenChar>, k: MarkType, i: nat)
    requires WellIndexed(text, marks)
    requires i in IndexMap(marks, k)
    ensures i < |text| && IndexMap(marks, k)[i] == text[i]
  {
  }

  /**
   * Under well-indexed marks, each position yields nothing or a space when it
   * is `'hidden'`-marked, and its own code point otherwise.
   */
  lemma CleanPieceCases(text: Text, marks: seq<HiddenChar>, i: nat)
    requires WellIndexed(text, marks) && i < |text|
    ensures AnyHiddenAt(marks, i) && IsZeroWidth(text[i]) ==> CleanPiece(text, marks, i) == []
    ensures AnyHiddenAt(marks, i) && !IsZeroWidth(text[i]) ==> CleanPiece(text, marks, i) == [SPACE]
    ensures !AnyHiddenAt(marks, i) ==> CleanPiece(text, marks, i) == [text[i]]
  {
    if i in IndexMap(marks, Newline) {
      IndexMapAgrees(text, marks, Newline, i);
    }
    if i in IndexMap(marks, Tab) {
      IndexMapAgrees(text, marks, Tab, i);
    }
  }

  /** The code points at positions no `'hidden'` mark names, in order. */
  function UnhiddenPrefix(text: Text, marks: seq<HiddenChar>, n: nat): seq<CodePoint>
    requires n <= |text|
  {
    if n == 0 then []
    else UnhiddenPrefix(text, marks, n - 1) + (if AnyHiddenAt(marks, n - 1) then [] else [text[n - 1]])
  }

  /** The sequence without its U+0020 spaces. */
  function DropSpaces(s: seq<CodePoint>): seq<CodePoint> {
    if s == [] then []
    else DropSpaces(s[..|s| - 1]) + (if s[|s| - 1] == SPACE then [] else [s[|s| - 1]])
  }

  lemma DropSpacesSnoc(s: seq<CodePoint>, x: CodePoint)
    ensures DropSpaces(s + [x]) == DropSpaces(s) + (if x == SPACE then [] else [x])
  {
    assert (s + [x])[..|s|] == s;
  }

  /** One step of the cleaned prefix under well-indexed marks. */
  lemma CleanedStep(text: Text, marks: seq<HiddenChar>, n: nat)
    requires WellIndexed(text, marks) && 0 < n <= |text|
    ensures CleanedPrefix(text, marks, n) ==
      CleanedPrefix(text, marks, n - 1) +
      (if !AnyHiddenAt(marks, n - 1) then [text[n - 1]] else if IsZeroWidth(text[n - 1]) then [] else [SPACE])
  {
    var p := CleanPiece(text, marks, n - 1);
    assert CleanedPrefix(text, marks, n) == CleanedPrefix(text, marks, n - 1) + p;
    CleanPieceCases(text, marks, n - 1);
  }

  lemma {:induction false} DropSpacesConcat(a: seq<CodePoint>, b: seq<CodePoint>)
    ensures DropSpaces(a + b) == DropSpaces(a) + DropSpaces(b)
    decreases |b|
  {
    if b == [] {
      assert a + b == a;
    } else {
      var b' := b[..|b| - 1];
      var x := b[|b| - 1];
      assert a + b == (a + b') + [x];
      assert b == b' + [x];
      DropSpacesConcat(a, b');
      DropSpacesSnoc(a + b', x);
      DropSpacesSnoc(b', x);
    }
  }

  lemma DropSpacesStep(c: seq<CodePoint>, u: seq<CodePoint>, pc: seq<CodePoint>, pu: seq<CodePoint>)
    requires DropSpaces(c) == DropSpaces(u) && DropSpaces(pc) == DropSpaces(pu)
    ensures DropSpaces(c + pc) == DropSpaces(u + pu)
  {
    DropSpacesConcat(c, pc);
    DropSpacesConcat(u, pu);
  }

  lemma {:induction false} CleanedPrefixOrder(text: Text, marks: seq<HiddenChar>, n: nat)
    requires WellIndexed(text, marks) && n <= |text|
    ensures DropSpaces(CleanedPrefix(text, marks, n)) == DropSpaces(UnhiddenPrefix(text, marks, n))
  {
    if n > 0 {
      CleanedPrefixOrder(text, marks, n - 1);
      CleanedStep(text, marks, n);
      var x := text[n - 1];
      var hidden := AnyHiddenAt(marks, n - 1);
      var pc: seq<CodePoint> := if !hidden then [x] else if IsZeroWidth(x) then [] else [SPACE];
      var pu: seq<CodePoint> := if hidden then [] else [x];
      assert DropSpaces(pc) == DropSpaces(pu) by {
        assert [SPACE][..0] == [] && [x][..0] == [];
      }
      DropSpacesStep(CleanedPrefix(text, marks, n - 1), UnhiddenPrefix(text, marks, n - 1), pc, pu);
    }
  }

  lemma {:induction false} CleanedPrefixFromInput(text: Text, marks: seq<HiddenChar>, n: nat)
    requires WellIndexed(text, marks) && n <= |text|
    ensures forall k | 0 <= k < |CleanedPrefix(text, marks, n)| ::
      CleanedPrefix(text, marks, n)[k] == SPACE || CleanedPrefix(text, marks, n)[k] in text
  {
    if n > 0 {
      CleanedPrefixFromInput(text, marks, n - 1);
      CleanPieceCases(text, marks, n - 1);
    }
  }

  /**
   * Under well-indexed marks, every output code point is an input code point
   * or U+0020, and apart from spaces the output is exactly the input's
   * code points at positions no `'hidden'` mark names, in their order.
   */
  lemma CleanedKeepsOrder(text: Text, marks: seq<HiddenChar>)
    requires WellIndexed(text, marks)
    ensures forall k | 0 <= k < |Cleaned(text, marks)| :: Cleaned(text, marks)[k] == SPACE || Cleaned(text, marks)[k] in text
    ensures DropSpaces(Cleaned(text, marks)) == DropSpaces(UnhiddenPrefix(text, marks, |text|))
  {
    CleanedPrefixOrder(text, marks, |text|);
    CleanedPrefixFromInput(text, marks, |text|);
  }

  lemma {:induction false} CleanedPrefixUnchanged(text: Text, marks: seq<HiddenChar>, n: nat)
    requires WellIndexed(text, marks) && n <= |text|
    requires forall j | 0 <= j < |marks| :: marks[j].kind != Hidden
    ensures CleanedPrefix(text, marks, n) == text[..n]
  {
    if n > 0 {
      CleanedPrefixUnchanged(text, marks, n - 1);
      NoHiddenMark(marks, n - 1);
      CleanedStep(text, marks, n);
      assert text[..n] == text[..n - 1] + [text[n - 1]];
    }
  }

  lemma NoHiddenMark(marks: seq<HiddenChar>, i: nat)
    requires forall j | 0 <= j < |marks| :: marks[j].kind != Hidden
    ensures !AnyHiddenAt(marks, i)
  {
  }

  /** With no `'hidden'` marks (and marks that agree with the text), cleaning returns the text unchanged. */
  lemma CleanedUnchanged(text: Text, marks: seq<HiddenChar>)
    requires WellIndexed(text, marks)
    requires forall j | 0 <= j < |marks| :: marks[j].kind != Hidden
    ensures Cleaned(text, marks) == text
  {
    CleanedPrefixUnchanged(text, marks, |text|);
    assert text[..|text|] == text;
  }

  lemma {:induction false} CleanedPrefixVisible(text: Text, n: nat)
    requires n <= |text|
    ensures forall k | 0 <= k < |CleanedPrefix(text, Detected(text), n)| :: !IsHiddenCp(CleanedPrefix(text, Detected(text), n)[k])
  {
    if n > 0 {
      var d := Detected(text);
      CleanedPrefixVisible(text, n - 1);
      DetectedOrdered(text);
      DetectedKinds(text, n - 1);
      CleanPieceCases(text, d, n - 1);
      CategoryFacts();
    }
  }

  /**
   * Cleaning the detector's marks leaves no hidden code point behind: the
   * cleaned text gets no `'hidden'` mark when detected again, and cleaning it
   * a second time changes nothing.
   */
  lemma CleanedIdempotent(text: Text)
    ensures CountKind(Detected(Cleaned(text, Detected(text))), Hidden) == 0
    ensures Cleaned(Cleaned(text, Detected(text)), Detected(Cleaned(text, Detected(text)))) == Cleaned(text, Detected(text))
  {
    var out := Cleaned(text, Detected(text));
    CleanedPrefixVisible(text, |text|);
    DetectedNoHidden(out);
    DetectedOrdered(out);
    CleanedUnchanged(out, Detected(out));
  }

  // ---------------------------------------------------------------------------
  // A reference definition of cleaning detected text

  /** What cleaning with the detector's marks does to one code point. */
  function ScrubOne(cp: CodePoint): seq<CodePoint> {
    if !IsHiddenCp(cp) then [cp] else if IsZeroWidth(cp) then [] else [SPACE]
  }

  /** Every code point replaced by `ScrubOne` of it. */
  function Scrub(s: Text): seq<CodePoint> {
    if s == [] then [] else Scrub(s[..|s| - 1]) + ScrubOne(s[|s| - 1])
  }

  lemma {:induction false} CleanedPrefixScrub(text: Text, n: nat)
    requires n <= |text|
    ensures CleanedPrefix(text, Detected(text), n) == Scrub(text[..n])
  {
    if n > 0 {
      CleanedPrefixScrub(text, n - 1);
      assert text[..n][..n - 1] == text[..n - 1];
      DetectedOrdered(text);
      DetectedKinds(text, n - 1);
      CleanedStep(text, Detected(text), n);
    }
  }

  /**
   * Cleaning with the detector's own marks is the code-point-wise map
   * `ScrubOne`: a hidden zero-width code point disappears, any other hidden
   * code point becomes one space, everything else stays.
   */
  lemma CleanedIsScrub(text: Text)
    ensures Cleaned(text, Detected(text)) == Scrub(text)
  {
    CleanedPrefixScrub(text, |text|);
    assert text[..|text|] == text;
  }

  lemma {:induction false} ScrubConcat(a: Text, b: Text)
    ensures Scrub(a + b) == Scrub(a) + Scrub(b)
    decreases |b|
  {
    if b != [] {
      var b' := b[..|b| - 1];
      assert (a + b)[..|a + b| - 1] == a + b';
      assert (a + b)[|a + b| - 1] == b[|b| - 1];
      ScrubConcat(a, b');
    } else {
      assert a + b == a;
    }
  }

  lemma {:induction false} ScrubPlain(s: Text)
    requires forall i | 0 <= i < |s| :: !IsHiddenCp(s[i])
    ensures Scrub(s) == s
  {
    if s != [] {
      ScrubPlain(s[..|s| - 1]);
      assert s == s[..|s| - 1] + [s[|s| - 1]];
    }
  }
}

# unidetect core in Dafny

UniDetect finds invisible and special Unicode characters in a piece of text,
reports text statistics and produces a cleaned copy. This project models its
text core and proves properties of that model:

- **The detector** (`UnicodeHelpers`). `detectHiddenChars` walks the text code
  point by code point (the `Array.from` view). It skips U+0000. It gives CR and
  LF a `'newline'` mark with a fixed name. It gives a `'hidden'` mark to every
  code point outside the letter, mark, number, punctuation, symbol and separator
  categories, to U+200B, and to U+2060..U+2064. It is modelled with
  `getUnicodeCodeName`, which writes a seven-entry table of names or `U+XXXX`.
- **The processor** (`TextProcessor`):
  - `processText` returns the text unchanged together with its marks.
  - `calculateTextStats` runs two loops: one over the marks and one over the
    UTF-16 code units.
  - `cleanText` drops hidden zero-width code points and turns every other hidden
    code point into a space. It copies the stored character of newline and tab
    marks, and copies everything else.
- **The normaliser** (`TextNormalization`). `normalizeText` chains three regular
  expression replacements: a lone CR becomes CRLF, a lone LF becomes CRLF, and a
  run of three or more CRLFs becomes two.
- **The older detection hook** (`UnicodeDetection`). It models three things:
  - what `handleTextChange` stores: the normalised text and its marks;
  - the `textStats` memo, whose loop runs over code points and counts the code
    points equal to no mark's `char`;
  - the older `cleanText`, which turns every `'hidden'`-marked position into a
    space and copies every other code point.
- **The tests' inputs** (`Scenarios`), worked through the model.

Text is a sequence of code points. JavaScript's `text.length` is the length of
the UTF-16 encoding (`Encoding.Utf16`). `new Blob([text]).size` is the length of
the UTF-8 encoding (`Encoding.Utf8`), where a lone surrogate becomes U+FFFD,
three bytes. Loops of the source are methods with invariants. Each method is
proved equal to a function, and the properties are lemmas about those
functions. Some properties are checked against an independent reference
definition:
- `UnifyBreaks` for the first two normalisation steps;
- `Scrub` for cleaning with the detector's own marks;
- `Spaced` for the older cleaner.

## Model

| member | source | states |
|---|---|---|
| Types.CountKind | src/utils/textProcessor.ts:33-42 | the number of marks of one type never exceeds the number of marks |
| Types.CountKindsSum | src/types/index.ts:12 | every mark has exactly one of the three types, so the three per-type counts add up to the number of marks |
| Types.CountConcat | src/utils/textProcessor.ts:44-48 | counting a value over a concatenation adds the counts of the parts |
| Types.CountZero | src/utils/textProcessor.ts:44-48 | a count is zero exactly when the value does not occur |
| GeneralCategory.CategoryFacts | src/utils/unicodeHelpers.ts:29 | printable ASCII is printable; C0 and C1 controls, U+00AD, U+FEFF, U+200B..U+200F, U+2060..U+2064 and surrogates are not; U+00A0 is printable |
| Encoding.Utf16Length | src/utils/textProcessor.ts:55 | `text.length` is the number of code points plus one per supplementary code point, and so is never less than the number of code points |
| Encoding.Utf16RoundTrip | src/utils/unicodeHelpers.ts:10 | splitting the UTF-16 units back into code points the way `Array.from` does recovers the text, as long as no lone high surrogate is directly followed by a lone low surrogate |
| Encoding.Utf8RoundTrip | src/utils/textProcessor.ts:60 | the UTF-8 bytes of a non-surrogate code point decode back to it |
| Encoding.Utf8Length | src/utils/textProcessor.ts:60 | the Blob size is between one and four bytes per code point |
| Encoding.BmpLength | src/utils/textProcessor.ts:55 | without code points above U+FFFF, `text.length` is the code-point count |
| UnicodeHelpers.ToHex | src/utils/unicodeHelpers.ts:51 | `toString(16)` always writes at least one digit |
| UnicodeHelpers.ToHexDigits | src/utils/unicodeHelpers.ts:51 | every character `toString(16).toUpperCase()` writes is an upper-case hex digit |
| UnicodeHelpers.PadStart | src/utils/unicodeHelpers.ts:51 | `padStart(4, '0')` gives length 4 when the string is shorter and keeps the string's own length otherwise, so it never truncates |
| UnicodeHelpers.ParseToHex | src/utils/unicodeHelpers.ts:51 | the base-16 digits of a number read back as that number |
| UnicodeHelpers.PadStartShape | src/utils/unicodeHelpers.ts:51 | `padStart` keeps the string as a suffix and puts only the fill character before it |
| UnicodeHelpers.CodeHexFacts | src/utils/unicodeHelpers.ts:51 | the hex part of a name reads back as the code, consists of upper-case hex digits, and has 4 digits below U+10000, 5 below U+100000 and 6 below U+1000000, so it is never cut short |
| UnicodeHelpers.Hex4 | src/utils/unicodeHelpers.ts:51 | a code from U+1000 to U+FFFF is written as exactly its four hex digits, with no padding |
| UnicodeHelpers.CodeName | src/utils/unicodeHelpers.ts:50-63 | a name is `Name (U+XXXX)` for the seven listed code points and `U+XXXX` otherwise, where XXXX is the formatter's own hex of the code, so the hex written by hand in each listed name agrees with it |
| UnicodeHelpers.DetectHiddenChars | src/utils/unicodeHelpers.ts:8-43 | the loop returns exactly the marks of the reference `Detected` |
| UnicodeHelpers.MarkAtShape | src/utils/unicodeHelpers.ts:13-39 | a position is marked iff its code point is CR, LF or hidden; a mark carries its own index and code point; its type is `'hidden'` iff the code point is hidden; newline marks carry the fixed CR/LF names and hidden marks the code name |
| UnicodeHelpers.DetectedOrdered | src/utils/unicodeHelpers.ts:8-43 | marks come in strictly increasing index order, each index points at the mark's own code point, every mark is well shaped, and none has type `'tab'` |
| UnicodeHelpers.DetectedComplete | src/utils/unicodeHelpers.ts:12-40 | a position carries a mark iff its code point is marked |
| UnicodeHelpers.DetectedKinds | src/utils/unicodeHelpers.ts:17-39 | a position carries a `'hidden'` mark iff its code point is hidden (not U+0000, not a line break, and outside L/M/N/P/S/Z, U+200B or U+2060..U+2064), and a `'newline'` mark iff it is CR or LF |
| UnicodeHelpers.DetectedNoHidden | src/utils/unicodeHelpers.ts:28-39 | a text without hidden code points gets no `'hidden'` mark |
| UnicodeHelpers.DetectedNoTab | src/utils/unicodeHelpers.ts:8-43 | the detector never produces a `'tab'` mark |
| UnicodeHelpers.TabIsHidden | src/utils/unicodeHelpers.ts:28-38 | a TAB gets a `'hidden'` mark named `U+0009` |
| UnicodeHelpers.DetectedConcat | src/utils/unicodeHelpers.ts:12-40 | the marks of `a + b` are the marks of `a` followed by the marks of `b` with their indices moved up by the length of `a` |
| UnicodeHelpers.DetectedNone | src/utils/unicodeHelpers.ts:8-43 | detection returns no marks iff no code point is marked |
| UnicodeHelpers.DetectedOne | src/utils/unicodeHelpers.ts:12-39 | a one-code-point text gets no mark iff its code point is not marked, and a marked one gets exactly one mark, at index 0, carrying that code point |
| TextProcessor.IndexSet | src/utils/textProcessor.ts:31-35 | the `hiddenIndices` set holds the index of every mark of the type, and nothing that is not such an index |
| TextProcessor.ProcessText | src/utils/textProcessor.ts:9-16 | the text is returned unchanged, with marks that are strictly increasing, point at their own code points, and exist at a position iff its code point is marked |
| TextProcessor.CalculateTextStats | src/utils/textProcessor.ts:24-63 | `totalChars` is the UTF-16 length; `hiddenChars`, `newlineChars` and `tabChars` count marks by type; `spaces` is the number of U+0020; `visibleChars` counts the UTF-16 positions that are no `'hidden'` index; `bytes` is the UTF-8 length; with distinct in-range indices, visible plus hidden is total |
| TextProcessor.IndexSetSize | src/utils/textProcessor.ts:31-42 | with distinct indices, the set of `'hidden'` indices has as many elements as there are `'hidden'` marks |
| TextProcessor.VisiblePlusHidden | src/utils/textProcessor.ts:44-52 | with distinct in-range indices, `visibleChars + hiddenChars == totalChars` |
| TextProcessor.CountUtf16 | src/utils/textProcessor.ts:44-48 | counting U+0020 over the UTF-16 units gives the same as counting it over the code points |
| TextProcessor.DetectedStats | src/utils/textProcessor.ts:24-63 | on the detector's marks, there are no tab marks, visible plus hidden is the UTF-16 length, and hidden plus newline marks are at most the code-point count |
| TextProcessor.IndexMap | src/utils/textProcessor.ts:75-85 | the `newlineChars`/`tabChars` map has a key for every mark of the type, and each key is bound to the char of some mark of that type at that index |
| TextProcessor.AnyHiddenAt | src/utils/textProcessor.ts:92-94 | the `some` search is true iff some `'hidden'` mark sits at the position |
| TextProcessor.IndexMapLastWins | src/utils/textProcessor.ts:75-79 | a `new Map` built from marks keeps the char of the last mark for a repeated index |
| TextProcessor.CleanText | src/utils/textProcessor.ts:74-120 | the loop returns exactly the reference `Cleaned` |
| TextProcessor.CleanPieceCases | src/utils/textProcessor.ts:90-116 | for marks that agree with the text, a `'hidden'`-marked position gives nothing when zero-width and one space otherwise, and every other position gives its own code point |
| TextProcessor.CleanedLength | src/utils/textProcessor.ts:96-107 | cleaning never lengthens the text, and it keeps the length iff no `'hidden'`-marked position holds a zero-width code point |
| TextProcessor.CleanedKeepsOrder | src/utils/textProcessor.ts:74-120 | for marks that agree with the text, every output code point is an input code point or a space, and without spaces the output is the unmarked input code points in their order |
| TextProcessor.CleanedUnchanged | src/utils/textProcessor.ts:108-116 | for marks that agree with the text and include no `'hidden'` mark, cleaning returns the text unchanged |
| TextProcessor.CleanedIdempotent | src/utils/textProcessor.ts:65-120 | after cleaning with the detector's marks, detection finds no hidden code point, and cleaning again changes nothing |
| TextProcessor.CleanedIsScrub | src/utils/textProcessor.ts:96-107 | cleaning with the detector's marks maps each code point independently: a hidden zero-width one disappears, any other hidden one becomes a space, the rest stay |
| TextProcessor.ScrubConcat | src/utils/textProcessor.ts:90-117 | that per-code-point cleaning distributes over concatenation |
| TextProcessor.ScrubPlain | src/utils/textProcessor.ts:114-116 | text without hidden code points is left as it is |
| TextNormalization.CrToCrlf | src/utils/textNormalization.ts:12 | after the first replacement every CR is followed by LF, and the first code point is kept |
| TextNormalization.LfToCrlf | src/utils/textNormalization.ts:13 | after the second replacement every LF is preceded by CR, or it is the first code point and comes after a CR of the input |
| TextNormalization.CollapseBreaks | src/utils/textNormalization.ts:16 | the collapse never lengthens the text |
| TextNormalization.TwoStepsUnifyBreaks | src/utils/textNormalization.ts:11-13 | the two line-ending replacements, with the lookbehind reading the first step's output, turn every CRLF, lone CR and lone LF into exactly one CRLF |
| TextNormalization.CrlfOnlyIsAllCrlf | src/utils/textNormalization.ts:10-13 | the recursive and the index-based formulations of "every CR is followed by LF and every LF is preceded by CR" agree, in both directions |
| TextNormalization.UnifyBreaksCrlfOnly | src/utils/textNormalization.ts:10-13 | after the two replacements, every line ending is a CRLF |
| TextNormalization.UnifyBreaksFixesCrlfOnly | src/utils/textNormalization.ts:10-13 | text whose line endings are all CRLF is left unchanged by them |
| TextNormalization.NoTripleMeans | src/utils/textNormalization.ts:16 | text in which no position starts three CRLF pairs has no `\r\n\r\n\r\n` anywhere |
| TextNormalization.CollapseFacts | src/utils/textNormalization.ts:15-16 | run on CRLF-only text, the collapse keeps every line ending CRLF, leaves no three consecutive pairs, and cuts a leading run of three or more pairs to two |
| TextNormalization.CollapseRun | src/utils/textNormalization.ts:16 | a run of CRLF pairs not followed by another pair becomes exactly two pairs when it has three or more, and a run of one or two is kept as it is |
| TextNormalization.CollapsePlainPrefix | src/utils/textNormalization.ts:16 | text without CR or LF before a run passes through the collapse untouched, so each run is collapsed where it stands |
| TextNormalization.CollapseFixesNoTriple | src/utils/textNormalization.ts:16 | text without three consecutive pairs is left unchanged by the collapse |
| TextNormalization.NormalizeText | src/utils/textNormalization.ts:9-19 | normalised text has only CRLF line endings and never three CRLFs in a row |
| TextNormalization.NormalizeIdempotent | src/utils/textNormalization.ts:9-19 | normalising twice gives the same as normalising once |
| TextNormalization.NormalizeNoBreaks | src/utils/textNormalization.ts:9-19 | text without CR or LF is left unchanged |
| TextNormalization.NormalizeKeepsText | src/utils/textNormalization.ts:9-19 | with line breaks removed, normalised text equals the input, so only line breaks are changed |
| TextNormalization.NormalizeLfCr | src/utils/textNormalization.ts:12-13 | `\n\r` gives two CRLFs, one per line break |
| TextNormalization.UnifyBreaksPlainPrefix | src/utils/textNormalization.ts:11-13 | a break-free prefix passes through the two replacements untouched |
| TextNormalization.NormalizeOneBreak | src/utils/textNormalization.ts:11-13 | a single LF between break-free parts becomes CRLF, and nothing else changes |
| UnicodeDetection.HandleTextChange | src/hooks/useUnicodeDetection.ts:18-22 | the hook stores the normalised text and that text's marks, so every line ending is CRLF and the marks are ordered and index the stored text |
| UnicodeDetection.AnyCharIs | src/hooks/useUnicodeDetection.ts:42 | `some(hidden => hidden.char === char)` is true iff some mark carries that code point |
| UnicodeDetection.TextStats | src/hooks/useUnicodeDetection.ts:28-48 | `totalChars` is the UTF-16 length, `bytes` the UTF-8 length, hidden and newline count marks by type, `spaces` counts U+0020 code points, and `visibleChars` counts code points equal to no mark's `char` |
| UnicodeDetection.DetectedCharIs | src/hooks/useUnicodeDetection.ts:42 | on the detector's marks, a code point matches some mark's `char` iff it is marked itself |
| UnicodeDetection.DetectionStatsBalance | src/hooks/useUnicodeDetection.ts:28-48 | on the detector's marks, visible, hidden and newline add up to the code-point count, which is at most `totalChars`, and equal to it without supplementary characters |
| UnicodeDetection.LegacyCleanText | src/hooks/useUnicodeDetection.ts:54-76 | the loop returns the text with each `'hidden'`-marked position replaced by a space and every other code point copied, at the same position and length |
| UnicodeDetection.SpacedClean | src/hooks/useUnicodeDetection.ts:50-76 | on the detector's marks, the result contains no hidden code point, keeps every CR and LF in place, and cleaning it again changes nothing |
| Scenarios.EmptyText | src/hooks/useUnicodeDetection.test.ts:5-18 | the empty text has no marks, normalises to itself, and has every statistic zero |
| Scenarios.HelloZwspWorldMarks | src/hooks/useUnicodeDetection.test.ts:20-48 | `'Hello\u200bWorld'` gets one `'hidden'` mark at 5 named `Zero Width Space (U+200B)`, is stored unchanged, and the older cleaner gives `'Hello World'` |
| Scenarios.TwoLinesStats | src/hooks/useTextProcessor.test.ts:41-53 | `'Hello World!\nSecond line'`: total 24, visible 24, one newline, no hidden mark, two spaces |
| Scenarios.ThreeSpacesStats | src/hooks/useTextProcessor.test.ts:81-92 | three spaces: no marks, three spaces, three visible |
| Scenarios.MixedHiddenCleaned | src/hooks/useTextProcessor.test.ts:55-67 | `'Hello\u200b\u2060World Test'` cleans to `'HelloWorld Test'`: the two zero-width characters go and U+00A0 stays |
| Scenarios.TabBecomesSpace | src/utils/textProcessor.ts:65-69 | a TAB is marked `'hidden'` as `U+0009` and cleaning makes it a space |
| Scenarios.FiveDigitName | src/utils/unicodeHelpers.ts:51 | U+1F600 is named `U+1F600`, with five digits |
| Scenarios.LineThenZwspCleaned | src/hooks/useUnicodeDetection.test.ts:50-60 | `'Hello\n\u200bWorld'` is stored as `'Hello\r\n\u200bWorld'` and the older cleaner gives `'Hello\r\n World'` |
| Scenarios.LineStatsStored | src/hooks/useUnicodeDetection.test.ts:62-68 | `'Hello World\n\u200bTest'` is stored as `'Hello World\r\n\u200bTest'` |
| Scenarios.LineStatsMarks | src/hooks/useUnicodeDetection.test.ts:62-78 | the stored text gets newline marks at 11 and 12 and a hidden mark at 13 |
| Scenarios.LineStats | src/hooks/useUnicodeDetection.test.ts:62-78 | its statistics are total 18, visible 15, hidden 1, newline 2, spaces 1 |

## Left out

- File extraction and file processing (`fileExtraction.ts`, `fileProcessing.ts` and their hooks): they read files through browser and library APIs.
- React state, `useCallback`/`useMemo` caching, the 300 ms debounce of `useTextProcessor` and the components. The hooks appear only as the functions of their state they compute.
- GeneralCategory.IsPrintable: the Unicode character database is not available. The "Other" category is a partial table covering Cc, the common Cf code points, surrogates, private use, the noncharacters and U+2065, and everything else counts as printable. In particular unassigned code points (Cn) such as U+0378 or U+FFF0 count as printable here, while the regular expression at `src/utils/unicodeHelpers.ts:29` marks them `'hidden'`. The detector's theorems are stated over `IsPrintable` and use the table only through the facts of `GeneralCategory.CategoryFacts`, which the lemmas about TAB and U+0020 call explicitly; only the concrete inputs look further into it.
- Types.HiddenChar: a mark's `char` is one code point and its `index` a natural number. The source's `char` is a string, so a mark whose `char` is several code points long, which `cleanText` would copy whole, cannot be expressed; every mark the application makes comes from `detectHiddenChars`, and those hold exactly one code point.
- Encoding.Utf16RoundTrip: it does not cover a lone high surrogate directly followed by a lone low surrogate. Such text cannot come out of `Array.from`, because the two would have been read as one code point.
- UnicodeHelpers.CodeName: takes a natural number. The source accepts any JavaScript number, but it is only ever called with code points.
- Scenarios.LineStats: does not state `bytes`. The test accepts any number there.
- The test 'should preserve text exactly as-is' has no lemma of its own. It is `TextProcessor.ProcessText`'s first postcondition.

## Where the tests and the code disagree

The model follows the code in each case:

- **U+00A0 (`useTextProcessor.test.ts:55-67`).** The test expects U+00A0 to be
  replaced by a space. It is in category Zs, so it is printable. It therefore
  gets no mark, and `cleanText` keeps it (`Scenarios.MixedHiddenCleaned`).
- **Legacy 'Hello\n World' test (`useUnicodeDetection.test.ts:50-60`).** The
  older hook normalises before storing, so its `cleanText` returns
  `'Hello\r\n World'`, not `'Hello\n World'` (`Scenarios.LineThenZwspCleaned`).
- **Legacy stats test (`useUnicodeDetection.test.ts:62-78`).** The test expects
  total 15, visible 13 and one newline. The stored text is
  `'Hello World\r\n\u200bTest'`, which gives total 18, visible 15 (every code
  point other than CR, LF and U+200B) and two newline marks (`Scenarios.LineStats`).
- **TAB (`textProcessor.ts:65-69`).** The doc comment of `cleanText` says tabs
  are preserved. The detector never makes a `'tab'` mark: a TAB is a control
  character, so it is marked `'hidden'` and cleaned to a space
  (`Scenarios.TabBecomesSpace`).

`calculateTextStats` also mixes two kinds of index. It collects `'hidden'`
indices as code-point positions, then tests UTF-16 positions against them. With
supplementary characters, the excluded positions are therefore not those of the
hidden code points. The count still comes out as total minus hidden
(`TextProcessor.VisiblePlusHidden`).

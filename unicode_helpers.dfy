/**
 * The hidden-character detector and the code-name formatter
 * (src/utils/unicodeHelpers.ts).
 */
module UnicodeHelpers {
  import opened Types
  import opened GeneralCategory

  datatype Option<T> = None | Some(value: T)

  // ---------------------------------------------------------------------------
  // Hexadecimal formatting: `code.toString(16).toUpperCase().padStart(4, '0')`

  /** The upper-case hexadecimal digit of value `d`. */
  function HexDigit(d: nat): char
    requires d < 16
  {
    if d < 10 then ('0' as int + d) as char else ('A' as int + d - 10) as char
  }

  predicate IsHexDigit(c: char) {
    '0' <= c <= '9' || 'A' <= c <= 'F'
  }

  /** The value of an upper-case hexadecimal digit (0 for any other character). */
  function DigitValue(c: char): nat {
    if '0' <= c <= '9' then c as nat - '0' as nat
    else if 'A' <= c <= 'F' then c as nat - 'A' as nat + 10
    else 0
  }

  /** `n.toString(16).toUpperCase()`: the digits of `n` in base 16, most significant first. */
  function ToHex(n: nat): (s: string)
    ensures 1 <= |s|
    decreases n
  {
    if n < 16 then [HexDigit(n)] else ToHex(n / 16) + [HexDigit(n % 16)]
  }

  lemma {:induction false} ToHexDigits(n: nat)
    ensures forall k | 0 <= k < |ToHex(n)| :: IsHexDigit(ToHex(n)[k])
    decreases n
  {
    if n >= 16 {
      ToHexDigits(n / 16);
    }
  }

  /** `s.padStart(width, fill)`: left-pads with `fill` up to `width` characters, never truncates. */
  function PadStart(s: string, width: nat, fill: char): (r: string)
    ensures |r| == if |s| >= width then |s| else width
    decreases width - |s|
  {
    if |s| >= width then s else PadStart([fill] + s, width, fill)
  }

  /** Padding keeps the string as a suffix and puts only `fill` before it. */
  lemma {:induction false} PadStartShape(s: string, width: nat, fill: char)
    ensures PadStart(s, width, fill)[|PadStart(s, width, fill)| - |s|..] == s
    ensures forall k | 0 <= k < |PadStart(s, width, fill)| - |s| :: PadStart(s, width, fill)[k] == fill
    decreases width - |s|
  {
    if |s| < width {
      PadStartShape([fill] + s, width, fill);
      var r := PadStart(s, width, fill);
      assert r[|r| - |s| - 1..] == [fill] + s;
      assert r[|r| - |s|..] == ([fill] + s)[1..];
    }
  }

  /** Reads a string of hexadecimal digits back as a number. */
  function ParseHex(s: string): nat {
    if s == [] then 0 else ParseHex(s[..|s| - 1]) * 16 + DigitValue(s[|s| - 1])
  }

  /** The hex part of every code name. */
  function CodeHex(code: nat): string {
    PadStart(ToHex(code), 4, '0')
  }

  lemma DigitValueOf(d: nat)
    requires d < 16
    ensures IsHexDigit(HexDigit(d)) && DigitValue(HexDigit(d)) == d
  {
  }

  lemma {:induction false} ParseToHex(n: nat)
    ensures ParseHex(ToHex(n)) == n
    decreases n
  {
    DigitValueOf(n % 16);
    if n >= 16 {
      ParseToHex(n / 16);
      var s := ToHex(n / 16) + [HexDigit(n % 16)];
      assert s[..|s| - 1] == ToHex(n / 16);
    } else {
      assert ToHex(n) == [HexDigit(n)];
      assert ToHex(n)[..0] == [];
    }
  }

  lemma {:induction false} ParseLeadingZero(s: string)
    ensures ParseHex(['0'] + s) == ParseHex(s)
    decreases |s|
  {
    if s != [] {
      assert (['0'] + s)[..|['0'] + s| - 1] == ['0'] + s[..|s| - 1];
      ParseLeadingZero(s[..|s| - 1]);
    }
  }

  lemma {:induction false} ParsePadded(s: string, width: nat)
    ensures ParseHex(PadStart(s, width, '0')) == ParseHex(s)
    decreases width - |s|
  {
    if |s| < width {
      ParsePadded(['0'] + s, width);
      ParseLeadingZero(s);
    }
  }

  /** Number of hexadecimal digits of `n`. */
  lemma {:induction false} ToHexLength(n: nat)
    ensures n < 0x10 ==> |ToHex(n)| == 1
    ensures 0x10 <= n < 0x100 ==> |ToHex(n)| == 2
    ensures 0x100 <= n < 0x1000 ==> |ToHex(n)| == 3
    ensures 0x1000 <= n < 0x10000 ==> |ToHex(n)| == 4
    ensures 0x10000 <= n < 0x100000 ==> |ToHex(n)| == 5
    ensures 0x100000 <= n < 0x1000000 ==> |ToHex(n)| == 6
    decreases n
  {
    if n >= 16 {
      ToHexLength(n / 16);
    }
  }

  /** Every character of the hex part of a code name, padding included, is a hex digit. */
  lemma CodeHexDigits(code: nat)
    ensures forall k | 0 <= k < |CodeHex(code)| :: IsHexDigit(CodeHex(code)[k])
  {
    var s := ToHex(code);
    var r := CodeHex(code);
    ToHexDigits(code);
    PadStartShape(s, 4, '0');
    forall k | 0 <= k < |r| ensures IsHexDigit(r[k]) {
      if k >= |r| - |s| {
        assert r[k] == r[|r| - |s|..][k - (|r| - |s|)];
      }
    }
  }

  /**
   * The hex part of a code name has at least four digits, exactly as many as
   * the code needs above U+FFFF (it is never truncated), and reads back as the code.
   */
  lemma CodeHexFacts(code: nat)
    ensures ParseHex(CodeHex(code)) == code
    ensures forall k | 0 <= k < |CodeHex(code)| :: IsHexDigit(CodeHex(code)[k])
    ensures code < 0x10000 ==> |CodeHex(code)| == 4
    ensures 0x10000 <= code < 0x100000 ==> |CodeHex(code)| == 5
    ensures 0x100000 <= code < 0x1000000 ==> |CodeHex(code)| == 6
  {
    ParseToHex(code);
    ParsePadded(ToHex(code), 4);
    ToHexLength(code);
    CodeHexDigits(code);
  }

  // ---------------------------------------------------------------------------
  // getUnicodeCodeName

  /** The descriptive names of the seven format characters the formatter knows. */
  function KnownName(code: nat): Option<string> {
    if code == 0x2060 then Some("Word Joiner")
    else if code == 0x2061 then Some("Function Application")
    else if code == 0x2062 then Some("Invisible Times")
    else if code == 0x2063 then Some("Invisible Separator")
    else if code == 0x2064 then Some("Invisible Plus")
    else if code == 0x200B then Some("Zero Width Space")
    else if code == 0xFEFF then Some("Byte Order Mark")
    else None
  }

  /** A code from U+1000 to U+FFFF with hex digits `d3 d2 d1 d0` is formatted as exactly those four, with no padding. */
  lemma Hex4(code: nat, d3: nat, d2: nat, d1: nat, d0: nat)
    requires 1 <= d3 < 16 && d2 < 16 && d1 < 16 && d0 < 16
    requires code == d3 * 0x1000 + d2 * 0x100 + d1 * 0x10 + d0
    ensures CodeHex(code) == [HexDigit(d3), HexDigit(d2), HexDigit(d1), HexDigit(d0)]
  {
    var q1 := code / 16;
    var q2 := q1 / 16;
    var q3 := q2 / 16;
    assert q1 == d3 * 0x100 + d2 * 0x10 + d1 && code % 16 == d0;
    assert q2 == d3 * 0x10 + d2 && q1 % 16 == d1;
    assert q3 == d3 && q2 % 16 == d2;
    assert ToHex(q3) == [HexDigit(d3)];
    assert ToHex(q2) == ToHex(q3) + [HexDigit(d2)];
    assert ToHex(q1) == ToHex(q2) + [HexDigit(d1)];
    assert ToHex(code) == ToHex(q1) + [HexDigit(d0)];
  }

  /**
   * `getUnicodeCodeName`: `Name (U+XXXX)` for the seven code points with a
   * descriptive name and `U+XXXX` for every other code, where XXXX is the
   * formatted hex of the code itself, so the hand-written names of the switch
   * agree with the formatter. Each literal of the switch is spelt here as its
   * name, ` (U+`, its four digits and `)`.
   */
  function CodeName(code: nat): (r: string)
    ensures KnownName(code).Some? ==> r == KnownName(code).value + " (U+" + CodeHex(code) + ")"
    ensures KnownName(code).None? ==> r == "U+" + CodeHex(code)
  {
    match code
    case 0x2060 => Hex4(code, 2, 0, 6, 0); "Word Joiner" + " (U+" + "2060" + ")"
    case 0x2061 => Hex4(code, 2, 0, 6, 1); "Function Application" + " (U+" + "2061" + ")"
    case 0x2062 => Hex4(code, 2, 0, 6, 2); "Invisible Times" + " (U+" + "2062" + ")"
    case 0x2063 => Hex4(code, 2, 0, 6, 3); "Invisible Separator" + " (U+" + "2063" + ")"
    case 0x2064 => Hex4(code, 2, 0, 6, 4); "Invisible Plus" + " (U+" + "2064" + ")"
    case 0x200B => Hex4(code, 2, 0, 0, 11); "Zero Width Space" + " (U+" + "200B" + ")"
    case 0xFEFF => Hex4(code, 15, 14, 15, 15); "Byte Order Mark" + " (U+" + "FEFF" + ")"
    case _ => "U+" + CodeHex(code)
  }

  // ---------------------------------------------------------------------------
  // detectHiddenChars

  /** A code point that gets a `'newline'` mark. */
  predicate IsNewlineCp(cp: CodePoint) {
    cp == CR || cp == LF
  }

  /**
   * A code point that gets a `'hidden'` mark: not U+0000 (skipped), not a line
   * break (checked first), and outside L/M/N/P/S/Z, or U+200B, or in U+2060..U+2064.
   */
  predicate IsHiddenCp(cp: CodePoint) {
    cp != 0 && !IsNewlineCp(cp) && (!IsPrintable(cp) || cp == 0x200B || 0x2060 <= cp <= 0x2064)
  }

  /** A code point that gets any mark. */
  predicate IsMarkedCp(cp: CodePoint) {
    IsNewlineCp(cp) || IsHiddenCp(cp)
  }

  /** The mark one position of the loop pushes, if any. */
  function MarkAt(cp: CodePoint, i: nat): Option<HiddenChar> {
    if cp == 0 then None
    else if cp == CR then Some(HiddenChar(cp, i, "CR (U+000D)", Newline))
    else if cp == LF then Some(HiddenChar(cp, i, "LF (U+000A)", Newline))
    else if !IsPrintable(cp) || cp == 0x200B || 0x2060 <= cp <= 0x2064 then
      Some(HiddenChar(cp, i, CodeName(cp), Hidden))
    else None
  }

  /** The marks of the first `n` code points of `text`, in order. */
  function DetectedPrefix(text: Text, n: nat): seq<HiddenChar>
    requires n <= |text|
  {
    if n == 0 then []
    else
      var rest := DetectedPrefix(text, n - 1);
      match MarkAt(text[n - 1], n - 1)
      case None => rest
      case Some(m) => rest + [m]
  }

  /** The marks of a whole text. */
  function Detected(text: Text): seq<HiddenChar> {
    DetectedPrefix(text, |text|)
  }

  /** `detectHiddenChars`: walks the code points and pushes one mark per flagged position. */
  method DetectHiddenChars(input: Text) returns (hidden: seq<HiddenChar>)
    ensures hidden == Detected(input)
  {
    hidden := [];
    var chars := input;
    for i := 0 to |chars|
      invariant hidden == DetectedPrefix(input, i)
    {
      var ch := chars[i];
      var code := ch;
      if code == 0 {
        continue;
      }
      if ch == CR || ch == LF {
        hidden := hidden + [HiddenChar(ch, i, if ch == CR then "CR (U+000D)" else "LF (U+000A)", Newline)];
        continue;
      }
      var isPrintable := IsPrintable(ch) && ch != 0x200B;
      if !isPrintable || (0x2060 <= code <= 0x2064) {
        var codeName := CodeName(code);
        hidden := hidden + [HiddenChar(ch, i, codeName, Hidden)];
      }
    }
  }

  /** Marks point at their own code point: the index is a position of the text and `ch` is the code point there. */
  predicate WellIndexed(text: Text, marks: seq<HiddenChar>) {
    forall k | 0 <= k < |marks| :: marks[k].index < |text| && marks[k].ch == text[marks[k].index]
  }

  predicate StrictlyIncreasing(marks: seq<HiddenChar>) {
    forall j, k | 0 <= j < k < |marks| :: marks[j].index < marks[k].index
  }

  /** The shape of each mark: newline marks carry CR or LF with their fixed names, hidden marks a hidden code point and its code name. */
  predicate MarkShape(m: HiddenChar) {
    || (m.kind == Newline && m.ch == CR && m.code == "CR (U+000D)")
    || (m.kind == Newline && m.ch == LF && m.code == "LF (U+000A)")
    || (m.kind == Hidden && IsHiddenCp(m.ch) && m.code == CodeName(m.ch))
  }

  lemma {:induction false} MarkAtShape(cp: CodePoint, i: nat)
    ensures MarkAt(cp, i).Some? <==> IsMarkedCp(cp)
    ensures MarkAt(cp, i).Some? ==> MarkAt(cp, i).value.index == i && MarkAt(cp, i).value.ch == cp
    ensures MarkAt(cp, i).Some? ==> MarkShape(MarkAt(cp, i).value)
    ensures MarkAt(cp, i).Some? ==> (MarkAt(cp, i).value.kind == Hidden <==> IsHiddenCp(cp))
  {
  }

  /**
   * The marks of a prefix are in strictly increasing index order, point at
   * their own code points in that prefix, and are each well shaped.
   */
  lemma {:induction false} DetectedPrefixOrdered(text: Text, n: nat)
    requires n <= |text|
    ensures StrictlyIncreasing(DetectedPrefix(text, n))
    ensures forall k | 0 <= k < |DetectedPrefix(text, n)| ::
      DetectedPrefix(text, n)[k].index < n && DetectedPrefix(text, n)[k].ch == text[DetectedPrefix(text, n)[k].index]
    ensures forall k | 0 <= k < |DetectedPrefix(text, n)| :: MarkShape(DetectedPrefix(text, n)[k])
  {
    if n > 0 {
      DetectedPrefixOrdered(text, n - 1);
      DetectedPrefixStep(text, n);
      MarkListFacts(text[n - 1], n - 1);
      OrderedAppend(text, n, DetectedPrefix(text, n - 1), MarkList(text[n - 1], n - 1));
    }
  }

  /** The mark list of one position: at most one mark, at that position, for that code point, well shaped. */
  lemma MarkListFacts(cp: CodePoint, i: nat)
    ensures |MarkList(cp, i)| <= 1
    ensures forall k | 0 <= k < |MarkList(cp, i)| ::
      MarkList(cp, i)[k].index == i && MarkList(cp, i)[k].ch == cp && MarkShape(MarkList(cp, i)[k])
  {
    MarkAtShape(cp, i);
  }

  /** One step of `DetectedPrefixOrdered`, on abstract mark lists. */
  lemma OrderedAppend(text: Text, n: nat, rest: seq<HiddenChar>, ml: seq<HiddenChar>)
    requires 0 < n <= |text|
    requires StrictlyIncreasing(rest)
    requires forall k | 0 <= k < |rest| :: rest[k].index < n - 1 && rest[k].ch == text[rest[k].index]
    requires forall k | 0 <= k < |rest| :: MarkShape(rest[k])
    requires |ml| <= 1
    requires forall k | 0 <= k < |ml| :: ml[k].index == n - 1 && ml[k].ch == text[n - 1] && MarkShape(ml[k])
    ensures StrictlyIncreasing(rest + ml)
    ensures forall k | 0 <= k < |rest + ml| :: (rest + ml)[k].index < n && (rest + ml)[k].ch == text[(rest + ml)[k].index]
    ensures forall k | 0 <= k < |rest + ml| :: MarkShape((rest + ml)[k])
  {
  }

  /** Detection yields ordered, well-indexed, well-shaped marks. */
  lemma DetectedOrdered(text: Text)
    ensures StrictlyIncreasing(Detected(text))
    ensures WellIndexed(text, Detected(text))
    ensures forall k | 0 <= k < |Detected(text)| :: MarkShape(Detected(text)[k])
    ensures forall k | 0 <= k < |Detected(text)| :: Detected(text)[k].kind != Tab
  {
    DetectedPrefixOrdered(text, |text|);
  }

  /** Some mark of the list sits at position `i`. */
  predicate HasMarkAt(marks: seq<HiddenChar>, i: nat) {
    exists k | 0 <= k < |marks| :: marks[k].index == i
  }

  lemma HasMarkAtConcat(x: seq<HiddenChar>, y: seq<HiddenChar>, i: nat)
    ensures HasMarkAt(x + y, i) <==> HasMarkAt(x, i) || HasMarkAt(y, i)
  {
    if HasMarkAt(x + y, i) {
      var k :| 0 <= k < |x + y| && (x + y)[k].index == i;
      if k >= |x| {
        assert y[k - |x|].index == i;
      }
    }
    if HasMarkAt(y, i) {
      var k :| 0 <= k < |y| && y[k].index == i;
      assert (x + y)[|x| + k] == y[k];
    }
    if HasMarkAt(x, i) {
      var k :| 0 <= k < |x| && x[k].index == i;
      assert (x + y)[k] == x[k];
    }
  }

  lemma MarkListAt(cp: CodePoint, j: nat, i: nat)
    ensures HasMarkAt(MarkList(cp, j), i) <==> i == j && IsMarkedCp(cp)
  {
    MarkAtShape(cp, j);
    if i == j && IsMarkedCp(cp) {
      assert MarkList(cp, j)[0].index == i;
    }
  }

  lemma {:induction false} DetectedPrefixComplete(text: Text, n: nat, i: nat)
    requires i < n <= |text|
    ensures HasMarkAt(DetectedPrefix(text, n), i) <==> IsMarkedCp(text[i])
  {
    var rest := DetectedPrefix(text, n - 1);
    var ml := MarkList(text[n - 1], n - 1);
    DetectedPrefixStep(text, n);
    HasMarkAtConcat(rest, ml, i);
    MarkListAt(text[n - 1], n - 1, i);
    if i < n - 1 {
      DetectedPrefixComplete(text, n - 1, i);
    } else {
      NoMarkAtEnd(text, n - 1);
    }
  }

  /** The marks of the first `n` code points all lie below `n`. */
  lemma NoMarkAtEnd(text: Text, n: nat)
    requires n <= |text|
    ensures !HasMarkAt(DetectedPrefix(text, n), n)
  {
    DetectedPrefixOrdered(text, n);
  }

  /**
   * Exactly the marked code points get a mark: a position carries a mark iff
   * its code point is CR, LF or hidden. In particular U+0000 and printable
   * code points never do, and they do not shift the positions of later marks.
   */
  lemma DetectedComplete(text: Text, i: nat)
    requires i < |text|
    ensures HasMarkAt(Detected(text), i) <==> IsMarkedCp(text[i])
  {
    DetectedPrefixComplete(text, |text|, i);
  }

  /** Some `'hidden'` mark sits at position `i` (`hiddenChars.some(h => h.index === i && h.type === 'hidden')`). */
  predicate HiddenMarkAt(marks: seq<HiddenChar>, i: nat) {
    exists k | 0 <= k < |marks| :: marks[k].index == i && marks[k].kind == Hidden
  }

  /** Some `'newline'` mark sits at position `i`. */
  predicate NewlineMarkAt(marks: seq<HiddenChar>, i: nat) {
    exists k | 0 <= k < |marks| :: marks[k].index == i && marks[k].kind == Newline
  }

  /**
   * Position by position, detection marks a position `'hidden'` iff its code
   * point is hidden, and `'newline'` iff it is CR or LF.
   */
  lemma DetectedKinds(text: Text, i: nat)
    requires i < |text|
    ensures HiddenMarkAt(Detected(text), i) <==> IsHiddenCp(text[i])
    ensures NewlineMarkAt(Detected(text), i) <==> IsNewlineCp(text[i])
  {
    var d := Detected(text);
    DetectedOrdered(text);
    DetectedComplete(text, i);
    if IsMarkedCp(text[i]) {
      var k :| 0 <= k < |d| && d[k].index == i;
      assert MarkShape(d[k]) && d[k].ch == text[i];
    }
    if HiddenMarkAt(d, i) {
      var k :| 0 <= k < |d| && d[k].index == i && d[k].kind == Hidden;
      assert MarkShape(d[k]) && d[k].ch == text[i];
    }
    if NewlineMarkAt(d, i) {
      var k :| 0 <= k < |d| && d[k].index == i && d[k].kind == Newline;
      assert MarkShape(d[k]) && d[k].ch == text[i];
    }
  }

  /** A text without hidden code points gets no `'hidden'` mark. */
  lemma DetectedNoHidden(text: Text)
    requires forall i | 0 <= i < |text| :: !IsHiddenCp(text[i])
    ensures forall k | 0 <= k < |Detected(text)| :: Detected(text)[k].kind != Hidden
    ensures CountKind(Detected(text), Hidden) == 0
  {
    var d := Detected(text);
    DetectedOrdered(text);
    forall k | 0 <= k < |d| ensures d[k].kind != Hidden {
      assert MarkShape(d[k]) && d[k].ch == text[d[k].index];
    }
    CountKindAbsent(d, Hidden);
  }

  /** The detector never produces a `'tab'` mark. */
  lemma DetectedNoTab(text: Text)
    ensures CountKind(Detected(text), Tab) == 0
  {
    DetectedOrdered(text);
    CountKindAbsent(Detected(text), Tab);
  }

  /** A TAB is category Cc, so it is marked `'hidden'` with the bare name `U+0009`. */
  lemma TabIsHidden(i: nat)
    ensures MarkAt(TAB, i) == Some(HiddenChar(TAB, i, "U+0009", Hidden))
  {
    CategoryFacts();
    assert ToHex(9) == "9";
    assert ['0'] + "9" == "09" && ['0'] + "09" == "009" && ['0'] + "009" == "0009";
    assert PadStart("9", 4, '0') == PadStart("09", 4, '0') == PadStart("009", 4, '0') == "0009";
    assert CodeName(9) == "U+0009";
  }

  // ---------------------------------------------------------------------------
  // Detection over concatenated text

  /** `marks` with every index moved up by `d`. */
  function Shift(marks: seq<HiddenChar>, d: nat): (r: seq<HiddenChar>)
    ensures |r| == |marks|
    ensures forall k | 0 <= k < |marks| :: r[k] == marks[k].(index := marks[k].index + d)
  {
    seq(|marks|, k requires 0 <= k < |marks| => marks[k].(index := marks[k].index + d))
  }

  lemma {:induction false} DetectedPrefixSame(s: Text, t: Text, n: nat)
    requires n <= |s| && n <= |t| && s[..n] == t[..n]
    ensures DetectedPrefix(s, n) == DetectedPrefix(t, n)
  {
    if n > 0 {
      assert s[n - 1] == s[..n][n - 1] == t[n - 1];
      assert s[..n - 1] == s[..n][..n - 1];
      assert t[..n - 1] == t[..n][..n - 1];
      DetectedPrefixSame(s, t, n - 1);
    }
  }

  /** One step of the detector's loop. */
  lemma DetectedPrefixStep(text: Text, n: nat)
    requires 0 < n <= |text|
    ensures DetectedPrefix(text, n) == DetectedPrefix(text, n - 1) + MarkList(text[n - 1], n - 1)
  {
  }

  /** The marks one position contributes, as a list. */
  function MarkList(cp: CodePoint, i: nat): seq<HiddenChar> {
    if MarkAt(cp, i).Some? then [MarkAt(cp, i).value] else []
  }

  lemma MarkListShift(cp: CodePoint, i: nat, d: nat)
    ensures MarkList(cp, i + d) == Shift(MarkList(cp, i), d)
  {
  }

  lemma ShiftConcat(x: seq<HiddenChar>, y: seq<HiddenChar>, d: nat)
    ensures Shift(x + y, d) == Shift(x, d) + Shift(y, d)
  {
  }

  /** Detection of `a + b` up to the end of `a` is detection of `a`. */
  lemma DetectedPrefixFirst(a: Text, b: Text)
    ensures DetectedPrefix(a + b, |a|) == Detected(a)
  {
    assert (a + b)[..|a|] == a[..|a|];
    DetectedPrefixSame(a + b, a, |a|);
  }

  lemma {:induction false} DetectedPrefixConcat(a: Text, b: Text, n: nat)
    requires n <= |b|
    ensures DetectedPrefix(a + b, |a| + n) == Detected(a) + Shift(DetectedPrefix(b, n), |a|)
  {
    if n == 0 {
      DetectedPrefixFirst(a, b);
    } else {
      var k := |a| + n;
      ConcatStep(a, b, n);
      DetectedPrefixConcat(a, b, n - 1);
      DetectedPrefixStep(b, n);
      ShiftStep(DetectedPrefix(a + b, k), DetectedPrefix(a + b, k - 1), Detected(a),
        DetectedPrefix(b, n), DetectedPrefix(b, n - 1), MarkList(b[n - 1], n - 1), |a|);
    }
  }

  /** One step of the detector over `a + b` inside `b`: the mark of `b[n - 1]`, moved past `a`. */
  lemma ConcatStep(a: Text, b: Text, n: nat)
    requires 0 < n <= |b|
    ensures DetectedPrefix(a + b, |a| + n) == DetectedPrefix(a + b, |a| + n - 1) + Shift(MarkList(b[n - 1], n - 1), |a|)
  {
    assert (a + b)[|a| + n - 1] == b[n - 1];
    DetectedPrefixStep(a + b, |a| + n);
    MarkListShift(b[n - 1], n - 1, |a|);
  }

  /** The algebra of one step of `DetectedPrefixConcat`, on abstract mark lists. */
  lemma ShiftStep(whole: seq<HiddenChar>, whole': seq<HiddenChar>, first: seq<HiddenChar>,
                  p: seq<HiddenChar>, p': seq<HiddenChar>, m: seq<HiddenChar>, d: nat)
    requires whole == whole' + Shift(m, d)
    requires whole' == first + Shift(p', d)
    requires p == p' + m
    ensures whole == first + Shift(p, d)
  {
    ShiftConcat(p', m, d);
  }

  /**
   * Detecting concatenated text detects each part separately, the marks of the
   * second part moved past the first; a leading U+0000 in particular shifts
   * nothing but the positions themselves.
   */
  lemma DetectedConcat(a: Text, b: Text)
    ensures Detected(a + b) == Detected(a) + Shift(Detected(b), |a|)
  {
    DetectedPrefixConcat(a, b, |b|);
  }

  /** A text in which no code point is marked gives no marks, and conversely. */
  lemma {:induction false} DetectedNone(text: Text)
    ensures Detected(text) == [] <==> forall i | 0 <= i < |text| :: !IsMarkedCp(text[i])
  {
    DetectedOrdered(text);
    if Detected(text) == [] {
      forall i | 0 <= i < |text| ensures !IsMarkedCp(text[i]) {
        DetectedComplete(text, i);
      }
    } else {
      var d := Detected(text);
      DetectedComplete(text, d[0].index);
      assert IsMarkedCp(text[d[0].index]);
    }
  }

  /** The marks of a single code point, as the loop's one step pushes them. */
  lemma DetectedSingleton(cp: CodePoint)
    ensures Detected([cp]) == MarkList(cp, 0)
  {
    assert DetectedPrefix([cp], 0) == [];
    assert [cp][0] == cp;
  }

  /** A one-code-point text gets no mark iff its code point is unmarked, and otherwise one mark at index 0 carrying it. */
  lemma DetectedOne(cp: CodePoint)
    ensures Detected([cp]) == [] <==> !IsMarkedCp(cp)
    ensures IsMarkedCp(cp) ==> |Detected([cp])| == 1 && Detected([cp])[0].index == 0 && Detected([cp])[0].ch == cp
  {
    DetectedSingleton(cp);
    MarkAtShape(cp, 0);
  }
}

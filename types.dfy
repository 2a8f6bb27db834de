/**
 * Value types shared by the analysis engine: the records of src/types/index.ts
 * and the counting functions that the statistics are specified with.
 */
module Types {

  /** One element of `Array.from(text)`: a Unicode code point, a lone surrogate included. */
  type CodePoint = c: int | 0 <= c <= 0x10FFFF

  /** A text, as the sequence of its code points. */
  type Text = seq<CodePoint>

  const TAB: CodePoint := 0x09
  const LF: CodePoint := 0x0A
  const CR: CodePoint := 0x0D
  const SPACE: CodePoint := 0x20

  /** The closed set of mark kinds (`type: 'hidden' | 'newline' | 'tab'`). */
  datatype MarkType = Hidden | Newline | Tab

  /** One marked occurrence: its code point, its code-point position, its display name and its kind. */
  datatype HiddenChar = HiddenChar(ch: CodePoint, index: nat, code: string, kind: MarkType)

  /** The statistics record of the current pipeline. */
  datatype TextStats = TextStats(
    totalChars: nat,
    visibleChars: nat,
    hiddenChars: nat,
    newlineChars: nat,
    tabChars: nat,
    bytes: nat,
    spaces: nat)

  /** Number of elements of `s` equal to `v`. */
  function Count(s: seq<int>, v: int): (n: nat)
    ensures n <= |s|
  {
    if s == [] then 0 else Count(s[..|s| - 1], v) + (if s[|s| - 1] == v then 1 else 0)
  }

  /** Number of marks of kind `k` (`hiddenChars.filter(c => c.type === k).length`). */
  function CountKind(marks: seq<HiddenChar>, k: MarkType): (n: nat)
    ensures n <= |marks|
  {
    if marks == [] then 0
    else CountKind(marks[..|marks| - 1], k) + (if marks[|marks| - 1].kind == k then 1 else 0)
  }

  lemma {:induction false} CountConcat(a: seq<int>, b: seq<int>, v: int)
    ensures Count(a + b, v) == Count(a, v) + Count(b, v)
    decreases |b|
  {
    if b == [] {
      assert a + b == a;
    } else {
      assert (a + b)[..|a + b| - 1] == a + b[..|b| - 1];
      CountConcat(a, b[..|b| - 1], v);
    }
  }

  /** A value that does not occur is counted zero times, and conversely. */
  lemma {:induction false} CountZero(s: seq<int>, v: int)
    ensures Count(s, v) == 0 <==> v !in s
    decreases |s|
  {
    if s != [] {
      CountZero(s[..|s| - 1], v);
      assert s == s[..|s| - 1] + [s[|s| - 1]];
    }
  }

  /** Marks of every kind add up to the number of marks. */
  lemma {:induction false} CountKindsSum(marks: seq<HiddenChar>)
    ensures CountKind(marks, Hidden) + CountKind(marks, Newline) + CountKind(marks, Tab) == |marks|
    decreases |marks|
  {
    if marks != [] {
      CountKindsSum(marks[..|marks| - 1]);
    }
  }

  /** A kind none of the marks has is counted zero times. */
  lemma {:induction false} CountKindAbsent(marks: seq<HiddenChar>, k: MarkType)
    requires forall j | 0 <= j < |marks| :: marks[j].kind != k
    ensures CountKind(marks, k) == 0
    decreases |marks|
  {
    if marks != [] {
      CountKindAbsent(marks[..|marks| - 1], k);
    }
  }
}

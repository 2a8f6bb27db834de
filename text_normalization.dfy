/**
 * The line-ending normaliser (src/utils/textNormalization.ts): three chained
 * global regular-expression replacements, each modelled as a recursive
 * function over the code points.
 */
module TextNormalization {
  import opened Types

  const CRLF: Text := [CR, LF]

  /**
   * Step 1, `replace(/\r(?!\n)/g, '\r\n')`: a CR not followed by LF becomes
   * CRLF, so afterwards every CR is followed by LF; the first code point stays.
   */
  function CrToCrlf(s: Text): (r: Text)
    ensures forall i | 0 <= i < |r| && r[i] == CR :: i + 1 < |r| && r[i + 1] == LF
    ensures s != [] ==> r != [] && r[0] == s[0]
  {
    if s == [] then []
    else if s[0] == CR && (|s| == 1 || s[1] != LF) then CRLF + CrToCrlf(s[1..])
    else [s[0]] + CrToCrlf(s[1..])
  }

  /**
   * Step 2, `replace(/(?<!\r)\n/g, '\r\n')`: an LF not preceded by CR becomes
   * CRLF. The lookbehind reads the step's input, so `afterCr` says whether the
   * input code point before `s` is a CR. Afterwards every LF is preceded by
   * CR, or is the first code point and comes after one.
   */
  function LfToCrlf(s: Text, afterCr: bool): (r: Text)
    ensures forall i | 0 <= i < |r| && r[i] == LF :: (i == 0 && afterCr) || (0 < i && r[i - 1] == CR)
  {
    if s == [] then []
    else if s[0] == LF && !afterCr then CRLF + LfToCrlf(s[1..], false)
    else [s[0]] + LfToCrlf(s[1..], s[0] == CR)
  }

  /** Number of CRLF pairs at the start of `s`. */
  function PairRun(s: Text): (k: nat)
    ensures 2 * k <= |s|
    decreases |s|
  {
    if |s| >= 2 && s[0] == CR && s[1] == LF then 1 + PairRun(s[2..]) else 0
  }

  /**
   * Step 3, `replace(/(\r\n){3,}/g, '\r\n\r\n')`: scanning from the left, a run
   * of three or more CRLF pairs (taken whole, the quantifier is greedy) becomes
   * two pairs; elsewhere the scan moves on by one code point. The text never
   * grows.
   */
  function CollapseBreaks(s: Text): (r: Text)
    ensures |r| <= |s|
    decreases |s|
  {
    if s == [] then []
    else if PairRun(s) >= 3 then CRLF + CRLF + CollapseBreaks(s[2 * PairRun(s)..])
    else [s[0]] + CollapseBreaks(s[1..])
  }

  /**
   * `normalizeText`. The result has only CRLF line breaks: every CR is
   * followed by LF and every LF preceded by CR; and it never holds three CRLF
   * pairs in a row.
   */
  function NormalizeText(text: Text): (r: Text)
    ensures AllCrlf(r)
    ensures forall i: nat | i + 6 <= |r| :: !TripleAt(r, i)
  {
    var r := CollapseBreaks(LfToCrlf(CrToCrlf(text), false));
    TwoStepsUnifyBreaks(text);
    UnifyBreaksCrlfOnly(text);
    CollapseFacts(UnifyBreaks(text));
    CrlfOnlyIsAllCrlf(r);
    NoTripleMeans(r);
    r
  }

  // ---------------------------------------------------------------------------
  // A reference definition of steps 1 and 2

  /** Each line break, a CRLF, a lone CR or a lone LF, becomes exactly one CRLF. */
  function UnifyBreaks(s: Text): Text {
    if s == [] then []
    else if |s| >= 2 && s[0] == CR && s[1] == LF then CRLF + UnifyBreaks(s[2..])
    else if s[0] == CR || s[0] == LF then CRLF + UnifyBreaks(s[1..])
    else [s[0]] + UnifyBreaks(s[1..])
  }

  lemma LfAfterCr(x: Text)
    ensures LfToCrlf(CRLF + x, false) == CRLF + LfToCrlf(x, false)
  {
    assert (CRLF + x)[1..] == [LF] + x;
    assert ([LF] + x)[1..] == x;
  }

  /** The two regular-expression steps do exactly what the reference definition says. */
  lemma {:induction false} TwoStepsUnifyBreaks(s: Text)
    ensures LfToCrlf(CrToCrlf(s), false) == UnifyBreaks(s)
  {
    if s != [] {
      if |s| >= 2 && s[0] == CR && s[1] == LF {
        var x := CrToCrlf(s[2..]);
        assert s[1..][1..] == s[2..];
        assert CrToCrlf(s[1..]) == [LF] + x;
        assert CrToCrlf(s) == CRLF + x;
        LfAfterCr(x);
        TwoStepsUnifyBreaks(s[2..]);
      } else if s[0] == CR {
        LfAfterCr(CrToCrlf(s[1..]));
        TwoStepsUnifyBreaks(s[1..]);
      } else if s[0] == LF {
        var x := CrToCrlf(s[1..]);
        assert CrToCrlf(s) == [LF] + x;
        assert ([LF] + x)[1..] == x;
        TwoStepsUnifyBreaks(s[1..]);
      } else {
        var x := CrToCrlf(s[1..]);
        assert CrToCrlf(s) == [s[0]] + x;
        assert ([s[0]] + x)[1..] == x;
        TwoStepsUnifyBreaks(s[1..]);
      }
    }
  }

  // ---------------------------------------------------------------------------
  // Well-formed line breaks

  /** Every CR is immediately followed by LF and every LF immediately preceded by CR. */
  predicate AllCrlf(s: Text) {
    && (forall i | 0 <= i < |s| && s[i] == CR :: i + 1 < |s| && s[i + 1] == LF)
    && (forall i | 0 <= i < |s| && s[i] == LF :: 0 < i && s[i - 1] == CR)
  }

  /** `AllCrlf`, read from the left. */
  predicate CrlfOnly(s: Text)
    decreases |s|
  {
    if s == [] then true
    else if s[0] == CR then |s| >= 2 && s[1] == LF && CrlfOnly(s[2..])
    else s[0] != LF && CrlfOnly(s[1..])
  }

  lemma {:induction false} CrlfOnlyIsAllCrlf(s: Text)
    ensures CrlfOnly(s) <==> AllCrlf(s)
    decreases |s|
  {
    if s != [] {
      if s[0] == CR && |s| >= 2 && s[1] == LF {
        CrlfOnlyIsAllCrlf(s[2..]);
        var t := s[2..];
        if AllCrlf(s) {
          forall i | 0 <= i < |t| && t[i] == LF ensures 0 < i && t[i - 1] == CR {
            assert s[i + 2] == LF;
          }
        }
        if AllCrlf(t) {
          forall i | 0 <= i < |s| && s[i] == LF ensures 0 < i && s[i - 1] == CR {
            if i >= 2 { assert t[i - 2] == LF; }
          }
          forall i | 0 <= i < |s| && s[i] == CR ensures i + 1 < |s| && s[i + 1] == LF {
            if i >= 2 { assert t[i - 2] == CR; }
          }
        }
      } else if s[0] != CR && s[0] != LF {
        CrlfOnlyIsAllCrlf(s[1..]);
        var t := s[1..];
        if AllCrlf(s) {
          forall i | 0 <= i < |t| && t[i] == LF ensures 0 < i && t[i - 1] == CR {
            assert s[i + 1] == LF;
          }
        }
        if AllCrlf(t) {
          forall i | 0 <= i < |s| && s[i] == LF ensures 0 < i && s[i - 1] == CR {
            assert t[i - 1] == LF;
          }
          forall i | 0 <= i < |s| && s[i] == CR ensures i + 1 < |s| && s[i + 1] == LF {
            assert t[i - 1] == CR;
          }
        }
      } else if s[0] == LF {
        assert !AllCrlf(s);
      } else {
        assert !AllCrlf(s);
      }
    }
  }

  lemma {:induction false} UnifyBreaksCrlfOnly(s: Text)
    ensures CrlfOnly(UnifyBreaks(s))
  {
    if s != [] {
      if |s| >= 2 && s[0] == CR && s[1] == LF {
        UnifyBreaksCrlfOnly(s[2..]);
        assert (CRLF + UnifyBreaks(s[2..]))[2..] == UnifyBreaks(s[2..]);
      } else if s[0] == CR || s[0] == LF {
        UnifyBreaksCrlfOnly(s[1..]);
        assert (CRLF + UnifyBreaks(s[1..]))[2..] == UnifyBreaks(s[1..]);
      } else {
        UnifyBreaksCrlfOnly(s[1..]);
        assert ([s[0]] + UnifyBreaks(s[1..]))[1..] == UnifyBreaks(s[1..]);
      }
    }
  }

  lemma {:induction false} UnifyBreaksFixesCrlfOnly(s: Text)
    requires CrlfOnly(s)
    ensures UnifyBreaks(s) == s
  {
    if s != [] {
      if s[0] == CR {
        UnifyBreaksFixesCrlfOnly(s[2..]);
        assert s == CRLF + s[2..];
      } else {
        UnifyBreaksFixesCrlfOnly(s[1..]);
        assert s == [s[0]] + s[1..];
      }
    }
  }

  // ---------------------------------------------------------------------------
  // The collapse step

  /** No run of three CRLF pairs starts anywhere in `s`. */
  predicate NoTriple(s: Text)
    decreases |s|
  {
    s == [] || (PairRun(s) < 3 && NoTriple(s[1..]))
  }

  const TripleCrlf: Text := CRLF + CRLF + CRLF

  /** Three CRLF pairs start at position `i` of `s`. */
  predicate TripleAt(s: Text, i: nat)
    requires i + 6 <= |s|
  {
    s[i..i + 6] == TripleCrlf
  }

  lemma {:induction false} TripleStartsRun(s: Text)
    requires |s| >= 6 && s[..6] == TripleCrlf
    ensures PairRun(s) >= 3
  {
    assert s[0] == CR && s[1] == LF && s[2] == CR && s[3] == LF && s[4] == CR && s[5] == LF;
    assert s[2..][2..] == s[4..];
    assert PairRun(s[4..]) >= 1;
    assert PairRun(s[2..]) >= 2;
  }

  /** `NoTriple` means that no six consecutive code points spell CRLF CRLF CRLF. */
  lemma {:induction false} NoTripleMeans(s: Text)
    requires NoTriple(s)
    ensures forall i: nat | i + 6 <= |s| :: !TripleAt(s, i)
    decreases |s|
  {
    if s != [] {
      NoTripleMeans(s[1..]);
      forall i: nat | i + 6 <= |s| ensures !TripleAt(s, i) {
        if i == 0 {
          if s[..6] == TripleCrlf {
            TripleStartsRun(s);
          }
        } else {
          assert s[i..i + 6] == s[1..][i - 1..i + 5];
          assert !TripleAt(s[1..], i - 1);
        }
      }
    }
  }

  lemma PairRunCons(x: Text)
    ensures PairRun(CRLF + x) == 1 + PairRun(x)
  {
    assert (CRLF + x)[2..] == x;
  }

  /** Skipping `j` leading pairs leaves `PairRun(s) - j` of them. */
  lemma {:induction false} PairRunSkip(s: Text, j: nat)
    requires j <= PairRun(s)
    ensures PairRun(s[2 * j..]) == PairRun(s) - j
    ensures s == Repeat(j) + s[2 * j..]
  {
    if j > 0 {
      var t := s[2..];
      assert PairRun(s) == 1 + PairRun(t);
      PairRunSkip(t, j - 1);
      assert t[2 * (j - 1)..] == s[2 * j..];
      assert s == CRLF + t;
      PrependPair(s, t, j, s[2 * j..]);
    }
  }

  lemma PrependPair(s: Text, t: Text, j: nat, r: Text)
    requires 0 < j && s == CRLF + t && t == Repeat(j - 1) + r
    ensures s == Repeat(j) + r
  {
    assert Repeat(j) == CRLF + Repeat(j - 1);
  }

  /** `j` CRLF pairs. */
  function Repeat(j: nat): Text {
    if j == 0 then [] else CRLF + Repeat(j - 1)
  }

  lemma {:induction false} CrlfOnlySkip(s: Text, j: nat)
    requires CrlfOnly(s) && j <= PairRun(s)
    ensures CrlfOnly(s[2 * j..])
  {
    if j > 0 {
      CrlfOnlySkip(s[2..], j - 1);
      assert s[2..][2 * (j - 1)..] == s[2 * j..];
    }
  }

  /** Below three pairs, the scan passes a leading CRLF by without change. */
  lemma CollapsePair(r: Text)
    requires PairRun(CRLF + r) < 3
    ensures CollapseBreaks(CRLF + r) == CRLF + CollapseBreaks(r)
  {
    var s := CRLF + r;
    assert s[1..] == [LF] + r;
    assert ([LF] + r)[1..] == r;
  }

  lemma CrlfOnlyCons(x: Text)
    ensures CrlfOnly(CRLF + x) <==> CrlfOnly(x)
  {
    assert (CRLF + x)[2..] == x;
  }

  /** Two pairs followed by text that does not start with CR: no triple, and a run of exactly two. */
  lemma TwoPairsThen(c: Text)
    requires NoTriple(c) && (c == [] || c[0] != CR)
    ensures NoTriple(CRLF + CRLF + c) && PairRun(CRLF + CRLF + c) == 2
  {
    assert PairRun(c) == 0;
    PairRunCons(c);
    OnePairThen(c);
    var out := CRLF + CRLF + c;
    assert out == CRLF + (CRLF + c);
    PairRunCons(CRLF + c);
    assert out[1..] == [LF] + (CRLF + c);
    assert ([LF] + (CRLF + c))[1..] == CRLF + c;
    assert PairRun([LF] + (CRLF + c)) == 0;
  }

  /** One pair followed by text that starts with fewer than two pairs: no triple. */
  lemma OnePairThen(c: Text)
    requires NoTriple(c) && PairRun(c) < 2
    ensures NoTriple(CRLF + c) && PairRun(CRLF + c) == 1 + PairRun(c)
  {
    PairRunCons(c);
    assert (CRLF + c)[1..] == [LF] + c;
    assert ([LF] + c)[1..] == c;
    assert PairRun([LF] + c) == 0;
  }

  /** A CRLF-only text that does not start with a pair does not start with CR. */
  lemma NoPairNoCr(c: Text)
    requires CrlfOnly(c) && PairRun(c) == 0
    ensures c == [] || c[0] != CR
  {
  }

  /**
   * On text whose breaks are all CRLF, the collapse step keeps them CRLF,
   * leaves no run of three pairs, and starts with `min(k, 2)` pairs when the
   * input starts with `k`.
   */
  lemma {:induction false} CollapseFacts(s: Text)
    requires CrlfOnly(s)
    ensures CrlfOnly(CollapseBreaks(s))
    ensures NoTriple(CollapseBreaks(s))
    ensures PairRun(CollapseBreaks(s)) == if PairRun(s) >= 3 then 2 else PairRun(s)
    decreases |s|
  {
    if s != [] {
      var k := PairRun(s);
      if k >= 3 {
        CollapseLongRun(s);
      } else if s[0] == CR {
        var r := s[2..];
        assert s == CRLF + r;
        PairRunCons(r);
        CollapsePair(r);
        CollapseFacts(r);
        OnePairThen(CollapseBreaks(r));
        CrlfOnlyCons(CollapseBreaks(r));
      } else {
        CollapseFacts(s[1..]);
        var c := CollapseBreaks(s[1..]);
        assert ([s[0]] + c)[1..] == c;
      }
    }
  }

  /** The case of `CollapseFacts` where the text starts with three or more pairs. */
  lemma {:induction false} CollapseLongRun(s: Text)
    requires CrlfOnly(s) && PairRun(s) >= 3
    ensures CrlfOnly(CollapseBreaks(s))
    ensures NoTriple(CollapseBreaks(s))
    ensures PairRun(CollapseBreaks(s)) == 2
    decreases |s|, 0
  {
    var k := PairRun(s);
    var r := s[2 * k..];
    PairRunSkip(s, k);
    CrlfOnlySkip(s, k);
    CollapseFacts(r);
    var c := CollapseBreaks(r);
    NoPairNoCr(c);
    TwoPairsThen(c);
    CrlfOnlyCons(c);
    CrlfOnlyCons(CRLF + c);
    assert CRLF + CRLF + c == CRLF + (CRLF + c);
  }

  /** `Repeat(k) + s` starts with exactly `k` pairs when `s` starts with none, and `Repeat(k)` has `2 * k` code points. */
  lemma {:induction false} PairRunRepeat(k: nat, s: Text)
    requires PairRun(s) == 0
    ensures PairRun(Repeat(k) + s) == k
    ensures |Repeat(k)| == 2 * k
  {
    if k > 0 {
      PairRunRepeat(k - 1, s);
      assert Repeat(k) + s == CRLF + (Repeat(k - 1) + s);
      PairRunCons(Repeat(k - 1) + s);
    }
  }

  /**
   * Wherever a run of CRLF pairs stands (its text after it starting with no
   * pair), the collapse makes it exactly two pairs when it has three or more,
   * and leaves a run of one or two pairs as it is.
   */
  lemma CollapseRun(k: nat, s: Text)
    requires PairRun(s) == 0
    ensures CollapseBreaks(Repeat(k) + s) == Repeat(if k >= 3 then 2 else k) + CollapseBreaks(s)
  {
    if k >= 3 {
      CollapseRunLong(k, s);
      assert Repeat(2) == CRLF + CRLF by {
        assert Repeat(1) == CRLF;
      }
    } else if k == 2 {
      assert Repeat(2) == CRLF + CRLF by {
        assert Repeat(1) == CRLF;
      }
      CollapseTwoPairs(s);
    } else if k == 1 {
      assert Repeat(1) == CRLF;
      CollapseOnePair(s);
    } else {
      assert Repeat(0) + s == s;
    }
  }

  lemma CollapseRunLong(k: nat, s: Text)
    requires PairRun(s) == 0 && k >= 3
    ensures CollapseBreaks(Repeat(k) + s) == CRLF + CRLF + CollapseBreaks(s)
  {
    var x := Repeat(k) + s;
    PairRunRepeat(k, s);
    assert x[2 * k..] == s;
  }

  lemma CollapseOnePair(s: Text)
    requires PairRun(s) == 0
    ensures CollapseBreaks(CRLF + s) == CRLF + CollapseBreaks(s)
  {
    PairRunCons(s);
    CollapsePair(s);
  }

  lemma CollapseTwoPairs(s: Text)
    requires PairRun(s) == 0
    ensures CollapseBreaks(CRLF + CRLF + s) == CRLF + CRLF + CollapseBreaks(s)
  {
    PairRunCons(s);
    PairRunCons(CRLF + s);
    assert CRLF + CRLF + s == CRLF + (CRLF + s);
    CollapsePair(CRLF + s);
    CollapsePair(s);
  }

  lemma CollapsePlainCons(c: CodePoint, rest: Text)
    requires c != CR
    ensures CollapseBreaks([c] + rest) == [c] + CollapseBreaks(rest)
  {
    assert ([c] + rest)[1..] == rest;
  }

  /** A break-free prefix passes through the collapse untouched, so the collapse acts on each run where it stands. */
  lemma {:induction false} CollapsePlainPrefix(a: Text, s: Text)
    requires NoBreaks(a)
    ensures CollapseBreaks(a + s) == a + CollapseBreaks(s)
  {
    if a != [] {
      var a' := a[1..];
      NoBreaksTail(a);
      CollapsePlainPrefix(a', s);
      CollapsePlainCons(a[0], a' + s);
      assert a + s == [a[0]] + (a' + s);
      assert a == [a[0]] + a';
    } else {
      assert a + s == s;
    }
  }

  lemma {:induction false} CollapseFixesNoTriple(s: Text)
    requires NoTriple(s)
    ensures CollapseBreaks(s) == s
    decreases |s|
  {
    if s != [] {
      CollapseFixesNoTriple(s[1..]);
      assert s == [s[0]] + s[1..];
    }
  }

  // ---------------------------------------------------------------------------
  // What else normalizeText promises

  /** Normalising twice is normalising once. */
  lemma NormalizeIdempotent(text: Text)
    ensures NormalizeText(NormalizeText(text)) == NormalizeText(text)
  {
    var n := NormalizeText(text);
    TwoStepsUnifyBreaks(text);
    UnifyBreaksCrlfOnly(text);
    CollapseFacts(UnifyBreaks(text));
    TwoStepsUnifyBreaks(n);
    UnifyBreaksFixesCrlfOnly(n);
    CollapseFixesNoTriple(n);
  }

  predicate NoBreaks(s: Text) {
    forall i | 0 <= i < |s| :: s[i] != CR && s[i] != LF
  }

  lemma NoBreaksTail(a: Text)
    requires a != [] && NoBreaks(a)
    ensures NoBreaks(a[1..])
  {
    forall i | 0 <= i < |a| - 1 ensures a[1..][i] != CR && a[1..][i] != LF {
      assert a[1..][i] == a[i + 1];
    }
  }

  lemma {:induction false} NoBreaksFacts(s: Text)
    requires NoBreaks(s)
    ensures CrlfOnly(s) && NoTriple(s)
    decreases |s|
  {
    if s != [] {
      NoBreaksFacts(s[1..]);
    }
  }

  /** A text with no CR and no LF is returned unchanged. */
  lemma NormalizeNoBreaks(text: Text)
    requires NoBreaks(text)
    ensures NormalizeText(text) == text
  {
    NoBreaksFacts(text);
    TwoStepsUnifyBreaks(text);
    UnifyBreaksFixesCrlfOnly(text);
    CollapseFixesNoTriple(text);
  }

  /** The code points other than CR and LF, in order. */
  function StripBreaks(s: Text): Text {
    if s == [] then [] else (if s[0] == CR || s[0] == LF then [] else [s[0]]) + StripBreaks(s[1..])
  }

  lemma StripCrlf(x: Text)
    ensures StripBreaks(CRLF + x) == StripBreaks(x)
  {
    assert (CRLF + x)[1..] == [LF] + x;
    assert ([LF] + x)[1..] == x;
  }

  lemma {:induction false} StripUnify(s: Text)
    ensures StripBreaks(UnifyBreaks(s)) == StripBreaks(s)
  {
    if s != [] {
      var u := UnifyBreaks(s);
      if |s| >= 2 && s[0] == CR && s[1] == LF {
        StripUnify(s[2..]);
        assert u[1..][1..] == UnifyBreaks(s[2..]);
        assert s[1..][1..] == s[2..];
      } else if s[0] == CR || s[0] == LF {
        StripUnify(s[1..]);
        assert u[1..][1..] == UnifyBreaks(s[1..]);
      } else {
        StripUnify(s[1..]);
        assert u[1..] == UnifyBreaks(s[1..]);
      }
    }
  }

  lemma {:induction false} StripSkipPairs(s: Text, j: nat)
    requires j <= PairRun(s)
    ensures StripBreaks(s[2 * j..]) == StripBreaks(s)
  {
    if j > 0 {
      StripSkipPairs(s[2..], j - 1);
      assert s[2..][2 * (j - 1)..] == s[2 * j..];
      assert s[1..][1..] == s[2..];
    }
  }

  lemma {:induction false} StripCollapse(s: Text)
    ensures StripBreaks(CollapseBreaks(s)) == StripBreaks(s)
    decreases |s|
  {
    if s != [] {
      var k := PairRun(s);
      if k >= 3 {
        var c := CollapseBreaks(s[2 * k..]);
        StripCollapse(s[2 * k..]);
        StripSkipPairs(s, k);
        StripCrlf(c);
        StripCrlf(CRLF + c);
        assert CRLF + CRLF + c == CRLF + (CRLF + c);
      } else {
        StripCollapse(s[1..]);
        assert ([s[0]] + CollapseBreaks(s[1..]))[1..] == CollapseBreaks(s[1..]);
      }
    }
  }

  /** Normalisation touches line breaks only: without CR and LF, input and output are the same. */
  lemma NormalizeKeepsText(text: Text)
    ensures StripBreaks(NormalizeText(text)) == StripBreaks(text)
  {
    TwoStepsUnifyBreaks(text);
    StripUnify(text);
    StripCollapse(UnifyBreaks(text));
  }

  /** `"\n\r"` holds two line breaks and becomes two CRLFs. */
  lemma NormalizeLfCr()
    ensures NormalizeText([LF, CR]) == CRLF + CRLF
  {
    TwoStepsUnifyBreaks([LF, CR]);
    assert [LF, CR][1..] == [CR];
    assert UnifyBreaks([CR]) == CRLF;
    assert UnifyBreaks([LF, CR]) == CRLF + CRLF;
    var u := CRLF + CRLF;
    assert PairRun(u) == 2 by {
      assert u[2..] == CRLF;
      assert u[2..][2..] == [];
    }
    CollapsePair(CRLF);
    CollapsePair([]);
  }

  lemma UnifyPlainCons(c: CodePoint, rest: Text)
    requires c != CR && c != LF
    ensures UnifyBreaks([c] + rest) == [c] + UnifyBreaks(rest)
  {
    assert ([c] + rest)[1..] == rest;
  }

  lemma {:induction false} UnifyBreaksPlainPrefix(a: Text, b: Text)
    requires NoBreaks(a)
    ensures UnifyBreaks(a + b) == a + UnifyBreaks(b)
  {
    if a != [] {
      var a' := a[1..];
      NoBreaksTail(a);
      UnifyBreaksPlainPrefix(a', b);
      calc {
        UnifyBreaks(a + b);
        { assert a + b == [a[0]] + (a' + b); }
        UnifyBreaks([a[0]] + (a' + b));
        { UnifyPlainCons(a[0], a' + b); }
        [a[0]] + UnifyBreaks(a' + b);
        [a[0]] + (a' + UnifyBreaks(b));
        { assert a == [a[0]] + a'; }
        a + UnifyBreaks(b);
      }
    } else {
      assert a + b == b;
    }
  }

  lemma {:induction false} NoTriplePlainPrefix(a: Text, r: Text)
    requires NoBreaks(a) && NoTriple(r)
    ensures NoTriple(a + r)
  {
    if a != [] {
      NoTriplePlainPrefix(a[1..], r);
      assert (a + r)[1..] == a[1..] + r;
    } else {
      assert a + r == r;
    }
  }

  lemma UnifyOneBreak(a: Text, b: Text)
    requires NoBreaks(a) && NoBreaks(b)
    ensures UnifyBreaks(a + [LF] + b) == a + CRLF + b
  {
    assert a + [LF] + b == a + ([LF] + b);
    UnifyBreaksPlainPrefix(a, [LF] + b);
    assert ([LF] + b)[1..] == b;
    NoBreaksFacts(b);
    UnifyBreaksFixesCrlfOnly(b);
    assert UnifyBreaks([LF] + b) == CRLF + b;
    assert a + (CRLF + b) == a + CRLF + b;
  }

  lemma NoTripleOneBreak(a: Text, b: Text)
    requires NoBreaks(a) && NoBreaks(b)
    ensures NoTriple(a + CRLF + b)
  {
    NoBreaksFacts(b);
    assert PairRun(b) == 0;
    OnePairThen(b);
    NoTriplePlainPrefix(a, CRLF + b);
    assert a + (CRLF + b) == a + CRLF + b;
  }

  /** A single LF between break-free text becomes one CRLF and nothing else changes. */
  lemma NormalizeOneBreak(a: Text, b: Text)
    requires NoBreaks(a) && NoBreaks(b)
    ensures NormalizeText(a + [LF] + b) == a + CRLF + b
  {
    TwoStepsUnifyBreaks(a + [LF] + b);
    UnifyOneBreak(a, b);
    NoTripleOneBreak(a, b);
    CollapseFixesNoTriple(a + CRLF + b);
  }
}

/**
 * The Unicode General_Category test of the detector, the regular expression
 * class `[\p{L}\p{M}\p{N}\p{P}\p{S}\p{Z}]` (section 4.5 of The Unicode Standard).
 *
 * The Unicode Character Database is not part of this model. `IsPrintable` is
 * the complement of a partial table of the "Other" categories: it lists every
 * Cc and Cs code point, the Co planes, the noncharacters, and the Cf code
 * points of Unicode 15.1, and it treats every other code point as printable.
 * The detector's theorems are stated over `IsPrintable` and do not depend on
 * the table; `CategoryFacts` lists what the table is relied on for.
 */
module GeneralCategory {
  import opened Types

  /** Category Cc: the C0 and C1 control characters. */
  predicate IsControl(cp: CodePoint) {
    cp <= 0x1F || 0x7F <= cp <= 0x9F
  }

  /** Category Cf: format characters. */
  predicate IsFormat(cp: CodePoint) {
    || cp == 0x00AD
    || 0x0600 <= cp <= 0x0605 || cp == 0x061C || cp == 0x06DD || cp == 0x070F
    || 0x0890 <= cp <= 0x0891 || cp == 0x08E2 || cp == 0x180E
    || 0x200B <= cp <= 0x200F || 0x202A <= cp <= 0x202E
    || 0x2060 <= cp <= 0x2064 || 0x2066 <= cp <= 0x206F
    || cp == 0xFEFF || 0xFFF9 <= cp <= 0xFFFB
    || cp == 0x110BD || cp == 0x110CD || 0x13430 <= cp <= 0x1343F
    || 0x1BCA0 <= cp <= 0x1BCA3 || 0x1D173 <= cp <= 0x1D17A
    || cp == 0xE0001 || 0xE0020 <= cp <= 0xE007F
  }

  /** Category Cs: a surrogate, which `Array.from` yields only when it is unpaired. */
  predicate IsSurrogate(cp: CodePoint) {
    0xD800 <= cp <= 0xDFFF
  }

  /** Category Co: the private use areas. */
  predicate IsPrivateUse(cp: CodePoint) {
    0xE000 <= cp <= 0xF8FF || 0xF0000 <= cp <= 0xFFFFD || 0x100000 <= cp <= 0x10FFFD
  }

  /** Category Cn, as far as the table knows it: the noncharacters and U+2065. */
  predicate IsKnownUnassigned(cp: CodePoint) {
    0xFDD0 <= cp <= 0xFDEF || cp % 0x10000 >= 0xFFFE || cp == 0x2065
  }

  /** The major class C (Other). */
  predicate IsOther(cp: CodePoint) {
    IsControl(cp) || IsFormat(cp) || IsSurrogate(cp) || IsPrivateUse(cp) || IsKnownUnassigned(cp)
  }

  /** Membership in one of the classes L, M, N, P, S or Z. */
  predicate IsPrintable(cp: CodePoint) {
    !IsOther(cp)
  }

  /** The facts about the category test that the code and its tests rely on. */
  lemma CategoryFacts()
    ensures forall cp: CodePoint | 0x20 <= cp <= 0x7E :: IsPrintable(cp)
    ensures forall cp: CodePoint | cp <= 0x1F || 0x7F <= cp <= 0x9F :: !IsPrintable(cp)
    ensures !IsPrintable(0x00AD) && !IsPrintable(0xFEFF)
    ensures forall cp: CodePoint | 0x200B <= cp <= 0x200F || 0x2060 <= cp <= 0x2064 :: !IsPrintable(cp)
    ensures forall cp: CodePoint | 0xD800 <= cp <= 0xDFFF :: !IsPrintable(cp)
    ensures IsPrintable(0x00A0)
  {
  }
}

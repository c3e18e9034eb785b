/** The length arithmetic of the QSEE transport, on the 32-bit words its API takes. */
module Align {
  import opened Common

  const ALIGN_MASK: bv32 := 0x40 - 1

  /** Lengths above this one wrap around when they are rounded up. */
  const MAX_LENGTH: bv32 := 0xFFFF_FFC0

  function QseecomAlign(x: bv32): bv32 {
    (x + ALIGN_MASK) & !ALIGN_MASK
  }

  /** A length is a multiple of 64 when its low six bits are clear. */
  predicate Aligned(x: bv32) {
    x & ALIGN_MASK == 0
  }

  lemma AlignIsAligned(x: bv32)
    ensures Aligned(QseecomAlign(x))
  {
  }

  lemma AlignOverflow(x: bv32)
    requires MAX_LENGTH < x
    ensures QseecomAlign(x) == 0
  {
  }

  /** The mask written out. */
  lemma AlignIs(x: bv32)
    ensures QseecomAlign(x) == (x + 0x3F) & 0xFFFF_FFC0
  {
  }

  lemma AlignIsAbove(x: bv32)
    requires x <= MAX_LENGTH
    ensures x <= QseecomAlign(x)
  {
    AlignIs(x);
    RoundedIsAbove(x);
  }

  lemma RoundedIsAbove(x: bv32)
    requires x <= 0xFFFF_FFC0
    ensures x <= (x + 0x3F) & 0xFFFF_FFC0
  {
  }

  lemma RoundedIsBelow(x: bv32, other: bv32)
    requires x <= 0xFFFF_FFC0 && other & 0x3F == 0 && x <= other
    ensures (x + 0x3F) & 0xFFFF_FFC0 <= other
  {
  }

  lemma AlignIsBelow(x: bv32, other: bv32)
    requires x <= MAX_LENGTH && Aligned(other) && x <= other
    ensures QseecomAlign(x) <= other
  {
    AlignIs(x);
    RoundedIsBelow(x, other);
  }

  /** The rounded length covers the original exactly when no wrap-around occurs, and is then the least that does. */
  lemma AlignIsLeastExactly(x: bv32)
    ensures x <= QseecomAlign(x) <==> x <= MAX_LENGTH
    ensures x <= MAX_LENGTH ==>
      && Aligned(QseecomAlign(x))
      && forall other: bv32 :: Aligned(other) && x <= other ==> QseecomAlign(x) <= other
  {
    AlignIsAligned(x);
    if x <= MAX_LENGTH {
      AlignIsAbove(x);
      forall other: bv32 | Aligned(other) && x <= other ensures QseecomAlign(x) <= other {
        AlignIsBelow(x, other);
      }
    } else {
      AlignOverflow(x);
    }
  }

  lemma AlignIdempotent(x: bv32)
    ensures QseecomAlign(QseecomAlign(x)) == QseecomAlign(x)
  {
  }

  const IN_WORD: bv32 := 32816
  const OUT_WORD: bv32 := 32820
  const QSEE_IN_LEN: nat := QseecomAlign(IN_WORD) as nat
  const QSEE_OUT_LEN: nat := QseecomAlign(OUT_WORD) as nat

  /**
   * What the driver's one buffer means for QSEE: the request window, starting at 0, reaches 16 bytes into
   * the reply, and the reply window, starting right after the request, ends 12 bytes past the buffer.
   */
  lemma QseeLengths()
    ensures IN_WORD as nat == IN_BUF_LEN && OUT_WORD as nat == OUT_BUF_LEN
    ensures QSEE_IN_LEN == IN_BUF_LEN + 16
    ensures IN_BUF_LEN + QSEE_OUT_LEN == (IN_BUF_LEN + OUT_BUF_LEN) + 12
  {
  }
}

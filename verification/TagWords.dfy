// 32-bit tag words, as the sets of their bits.

module TagWords {

  const WIDTH := 32
  const TAG_COUNT := 9

  /** A `uint32_t`: the positions of the bits that are set. */
  type Word = s: set<nat> | forall i | i in s :: i < WIDTH

  /** `~0` */
  const ONES: Word := set i: nat | i < WIDTH

  /** `TAGMASK` */
  const TAG_MASK: Word := set i: nat | i < TAG_COUNT

  /** `1 << i`, which C defines for positions inside the word only. */
  function Bit(i: nat): Word
    requires i < WIDTH
  {
    {i}
  }

  function And(a: Word, b: Word): Word {
    a * b
  }

  function Or(a: Word, b: Word): Word {
    a + b
  }

  function Xor(a: Word, b: Word): Word {
    (a - b) + (b - a)
  }

  function Not(a: Word): Word {
    ONES - a
  }
}

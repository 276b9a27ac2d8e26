// Rectangles and the split arithmetic of src/layout.c.

module Boxes {

  datatype Box = Box(x: int, y: int, width: int, height: int)

  const ZERO_BOX := Box(0, 0, 0, 0)

  function Max(a: int, b: int): int {
    if a > b then a else b
  }

  function Min(a: int, b: int): int {
    if a < b then a else b
  }

  /** `(int)(v / 2.0f * 1.0f)`: the cast drops the fraction, so a negative size rounds towards zero. */
  function TruncHalf(v: int): int {
    if v >= 0 then v / 2 else -((-v) / 2)
  }

  /** A box is split top/bottom when it is taller than it is wide, left/right otherwise. */
  predicate SplitsTop(b: Box) {
    b.height > b.width
  }

  /** The length of the side that a split cuts. */
  function LongSide(b: Box): int {
    if SplitsTop(b) then b.height else b.width
  }

  function ShortSide(b: Box): int {
    if SplitsTop(b) then b.width else b.height
  }

  function FirstLength(length: int, gap: int): int {
    Max(1, TruncHalf(length) - gap / 2)
  }

  function FirstHalf(b: Box, gap: int): Box {
    if SplitsTop(b) then b.(height := FirstLength(b.height, gap))
    else b.(width := FirstLength(b.width, gap))
  }

  /** What is left of `b` after a first part of `used` and the gap. */
  function Remainder(b: Box, top: bool, used: int, gap: int): Box {
    if top then Box(b.x, b.y + used + gap, b.width, Max(1, b.height - used - gap))
    else Box(b.x + used + gap, b.y, Max(1, b.width - used - gap), b.height)
  }

  function SecondHalf(b: Box, gap: int): Box {
    Remainder(b, SplitsTop(b), FirstLength(LongSide(b), gap), gap)
  }

  /** The box that `dwindle` gives the root: the work area without its outer gap. */
  function RootBox(area: Box, gap: int): Box {
    Box(area.x + gap, area.y + gap, Max(1, area.width - 2 * gap), Max(1, area.height - 2 * gap))
  }
}

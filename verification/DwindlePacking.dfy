// The converse of exact tiling: when a clamp fires, tiles overlap, come too near to each other or
// stick out, because with their gaps they then need more pixels than there are.

module DwindlePacking {
  import opened Boxes
  import opened ClientIds
  import opened DwindleAbstraction
  import opened DwindleLayout
  import opened DwindleTiling

  // ----- counting pixels -----------------------------------------------------------------

  function Pixels(b: Box): set<(int, int)> {
    set x, y | b.x <= x < b.x + b.width && b.y <= y < b.y + b.height :: (x, y)
  }

  /** A box of width one. */
  lemma {:induction false} ColumnCount(b: Box)
    requires b.width == 1 && b.height >= 0
    ensures |Pixels(b)| == b.height
    decreases b.height
  {
    if b.height == 0 {
      assert Pixels(b) == {};
    } else {
      var rest := b.(height := b.height - 1);
      ColumnCount(rest);
      var last := (b.x, b.y + b.height - 1);
      assert Pixels(b) == Pixels(rest) + {last} && last !in Pixels(rest);
    }
  }

  /** A box has as many pixels as its area. */
  lemma {:induction false} PixelCount(b: Box)
    requires b.width >= 0 && b.height >= 0
    ensures |Pixels(b)| == Area(b)
    decreases b.width
  {
    if b.width == 0 {
      assert Pixels(b) == {};
    } else {
      var rest := b.(width := b.width - 1);
      var column := Box(b.x + b.width - 1, b.y, 1, b.height);
      PixelCount(rest);
      ColumnCount(column);
      SplitColumn(b, rest, column);
      OneColumn(b.width, b.height);
    }
  }

  lemma SplitColumn(b: Box, rest: Box, column: Box)
    requires b.width > 0 && rest == b.(width := b.width - 1) && column == Box(b.x + b.width - 1, b.y, 1, b.height)
    ensures |Pixels(b)| == |Pixels(rest)| + |Pixels(column)|
  {
    assert Pixels(b) == Pixels(rest) + Pixels(column) && Pixels(rest) !! Pixels(column);
  }

  lemma OneColumn(width: int, height: int)
    ensures width * height == (width - 1) * height + height
  {
  }

  // ----- packing -------------------------------------------------------------------------

  /** The box with the gap to its right and below. */
  function Grown(b: Box, gap: int): Box {
    b.(width := b.width + gap, height := b.height + gap)
  }

  function GrownArea(r: seq<(Client, Box)>, gap: int): int {
    if r == [] then 0 else Area(Grown(r[0].1, gap)) + GrownArea(r[1..], gap)
  }

  function Covered(r: seq<(Client, Box)>, gap: int): set<(int, int)> {
    if r == [] then {} else Pixels(Grown(r[0].1, gap)) + Covered(r[1..], gap)
  }

  lemma ApartCovers(a: Box, b: Box, gap: int)
    requires Apart(a, b, gap) && gap >= 0
    ensures Pixels(Grown(a, gap)) !! Pixels(Grown(b, gap))
  {
  }

  lemma InsideCovers(a: Box, b: Box, gap: int)
    requires Inside(a, b)
    ensures Pixels(Grown(a, gap)) <= Pixels(Grown(b, gap))
  {
  }

  /** Boxes that are the gap apart cover as many pixels as their grown areas add up to. */
  lemma {:induction false} CoveredCount(r: seq<(Client, Box)>, b: Box, gap: int)
    requires gap >= 0 && AllInside(r, b) && AllApart(r, gap)
    requires forall i | 0 <= i < |r| :: Positive(r[i].1)
    ensures |Covered(r, gap)| == GrownArea(r, gap) && Covered(r, gap) <= Pixels(Grown(b, gap))
    ensures forall c: Box | forall i | 0 <= i < |r| :: Apart(c, r[i].1, gap) :: Pixels(Grown(c, gap)) !! Covered(r, gap)
  {
    if r == [] {
    } else {
      var head, rest := r[0].1, r[1..];
      assert forall i | 0 <= i < |rest| :: rest[i] == r[i + 1];
      assert forall i | 0 <= i < |rest| :: Apart(head, rest[i].1, gap);
      CoveredCount(rest, b, gap);
      PixelCount(Grown(head, gap));
      InsideCovers(head, b, gap);
      forall c: Box | forall i | 0 <= i < |r| :: Apart(c, r[i].1, gap)
        ensures Pixels(Grown(c, gap)) !! Covered(r, gap)
      {
        assert Apart(c, r[0].1, gap);
        ApartCovers(c, head, gap);
        assert forall i | 0 <= i < |rest| :: Apart(c, rest[i].1, gap);
      }
    }
  }

  /** Boxes inside `b` that are the gap apart need, with their gaps, no more room than `b` with its own. */
  lemma Packing(r: seq<(Client, Box)>, b: Box, gap: int)
    requires gap >= 0 && Positive(b) && AllInside(r, b) && AllApart(r, gap)
    requires forall i | 0 <= i < |r| :: Positive(r[i].1)
    ensures GrownArea(r, gap) <= Area(Grown(b, gap))
  {
    CoveredCount(r, b, gap);
    PixelCount(Grown(b, gap));
    SubsetCount(Covered(r, gap), Pixels(Grown(b, gap)));
  }

  lemma SubsetCount<T>(a: set<T>, b: set<T>)
    requires a <= b
    ensures |a| <= |b|
  {
    assert b == a + (b - a);
  }

  // ----- conservation with gaps ----------------------------------------------------------

  lemma {:induction false} GrownAreaConcat(x: seq<(Client, Box)>, y: seq<(Client, Box)>, gap: int)
    ensures GrownArea(x + y, gap) == GrownArea(x, gap) + GrownArea(y, gap)
  {
    if x == [] {
      assert x + y == y;
    } else {
      GrownAreaConcat(x[1..], y, gap);
      assert (x + y)[1..] == x[1..] + y;
    }
  }

  /** The area of a box, from its size along the side that a split of `b` cuts and the other one. */
  lemma AreaCut(b: Box, part: Box, cut: int, other: int)
    requires if SplitsTop(b) then part.height == cut && part.width == other
             else part.width == cut && part.height == other
    ensures Area(part) == cut * other
  {
  }

  /** The grown halves need exactly the grown box when unclamped, and more when a clamp fires. */
  lemma SplitGrown(b: Box, gap: int)
    requires Positive(b) && gap >= 0
    ensures var total := Area(Grown(FirstHalf(b, gap), gap)) + Area(Grown(SecondHalf(b, gap), gap));
            total >= Area(Grown(b, gap)) && (total == Area(Grown(b, gap)) <==> NoClampAt(b, gap))
  {
    var length, short := LongSide(b), ShortSide(b) + gap;
    var f := FirstLength(length, gap);
    var s := Max(1, length - f - gap);
    assert NoClampAt(b, gap) <==> f + s + gap == length;
    assert f + s + gap >= length;
    AreaCut(b, Grown(FirstHalf(b, gap), gap), f + gap, short);
    AreaCut(b, Grown(SecondHalf(b, gap), gap), s + gap, short);
    AreaCut(b, Grown(b, gap), length + gap, short);
    ScaledSum(f + gap, s + gap, 0, length + gap, short);
  }

  lemma {:induction false} GrownConserved(t: Tree, b: Box, gap: int)
    requires Positive(b) && gap >= 0
    ensures GrownArea(Layout(t, b, gap), gap) >= Area(Grown(b, gap))
    ensures GrownArea(Layout(t, b, gap), gap) == Area(Grown(b, gap)) <==> NoClamp(t, b, gap)
  {
    match t
    case Leaf(c) =>
      assert Layout(t, b, gap)[1..] == [];
    case Branch(l, r) =>
      var bf, bs := FirstHalf(b, gap), SecondHalf(b, gap);
      SplitGrown(b, gap);
      GrownConserved(l, bf, gap);
      GrownConserved(r, bs, gap);
      GrownAreaConcat(Layout(l, bf, gap), Layout(r, bs, gap), gap);
  }

  /**
   * Exact tiling: every tile lies in the root box and any two are at least the gap apart if and only
   * if no clamp fires.
   */
  lemma TilesIffNoClamp(t: Tree, b: Box, gap: int)
    requires Positive(b) && gap >= 0
    ensures AllInside(Layout(t, b, gap), b) && AllApart(Layout(t, b, gap), gap) <==> NoClamp(t, b, gap)
  {
    if NoClamp(t, b, gap) {
      LayoutTiles(t, b, gap);
    } else {
      GrownConserved(t, b, gap);
      LayoutPositive(t, b, gap);
      if AllInside(Layout(t, b, gap), b) && AllApart(Layout(t, b, gap), gap) {
        Packing(Layout(t, b, gap), b, gap);
      }
    }
  }
}

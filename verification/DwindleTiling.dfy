// The geometry of the top-down layout: exact tiling, size bound, aspect bound, area conservation.

module DwindleTiling {
  import opened Boxes
  import opened ClientIds
  import opened DwindleNodes
  import opened DwindleAbstraction
  import opened DwindleLayout

  ghost predicate Positive(b: Box) {
    b.width >= 1 && b.height >= 1
  }

  /** Neither `MAX(1, ...)` changes the value it guards when `b` is split. */
  predicate NoClampAt(b: Box, gap: int) {
    var length := LongSide(b);
    TruncHalf(length) - gap / 2 >= 1 && length - FirstLength(length, gap) - gap >= 1
  }

  /** No `MAX(1, ...)` fires anywhere when `t` fills `b`. */
  predicate NoClamp(t: Tree, b: Box, gap: int) {
    match t
    case Leaf(_) => true
    case Branch(l, r) =>
      NoClampAt(b, gap) && NoClamp(l, FirstHalf(b, gap), gap) && NoClamp(r, SecondHalf(b, gap), gap)
  }

  lemma {:induction false} LayoutPositive(t: Tree, b: Box, gap: int)
    requires Positive(b)
    ensures forall i | 0 <= i < |Layout(t, b, gap)| :: Positive(Layout(t, b, gap)[i].1)
  {
    match t
    case Leaf(_) =>
    case Branch(l, r) =>
      LayoutPositive(l, FirstHalf(b, gap), gap);
      LayoutPositive(r, SecondHalf(b, gap), gap);
  }

  // ----- tiling --------------------------------------------------------------------------

  ghost predicate Inside(b: Box, outer: Box) {
    && outer.x <= b.x && b.x + b.width <= outer.x + outer.width
    && outer.y <= b.y && b.y + b.height <= outer.y + outer.height
  }

  /** At least `gap` pixels lie between the two boxes on some axis. */
  ghost predicate Apart(a: Box, b: Box, gap: int) {
    || a.x + a.width + gap <= b.x || b.x + b.width + gap <= a.x
    || a.y + a.height + gap <= b.y || b.y + b.height + gap <= a.y
  }

  /** An unclamped split cuts the long side into two parts that differ by at most one pixel. */
  lemma SplitExact(b: Box, gap: int)
    requires Positive(b) && gap >= 0 && NoClampAt(b, gap)
    ensures var f, s := FirstHalf(b, gap), SecondHalf(b, gap);
            && Positive(f) && Positive(s) && Inside(f, b) && Inside(s, b) && Apart(f, s, gap)
            && (if SplitsTop(b) then
                  f.height + gap + s.height == b.height && -1 <= f.height - s.height <= 1
                  && f.width == s.width == b.width
                else
                  f.width + gap + s.width == b.width && -1 <= f.width - s.width <= 1
                  && f.height == s.height == b.height)
  {
  }

  ghost predicate AllInside(r: seq<(Client, Box)>, b: Box) {
    forall i | 0 <= i < |r| :: Inside(r[i].1, b)
  }

  ghost predicate AllApart(r: seq<(Client, Box)>, gap: int) {
    forall i, j | 0 <= i < j < |r| :: Apart(r[i].1, r[j].1, gap)
  }

  /** Two tilings of boxes that are apart make one tiling. */
  lemma TilesConcat(x: seq<(Client, Box)>, y: seq<(Client, Box)>, bf: Box, bs: Box, b: Box, gap: int)
    requires AllInside(x, bf) && AllInside(y, bs) && AllApart(x, gap) && AllApart(y, gap)
    requires Inside(bf, b) && Inside(bs, b) && Apart(bf, bs, gap)
    ensures AllInside(x + y, b) && AllApart(x + y, gap)
  {
    var all := x + y;
    forall i | 0 <= i < |all| ensures Inside(all[i].1, b) {
      assert all[i] == if i < |x| then x[i] else y[i - |x|];
      assert Inside(all[i].1, if i < |x| then bf else bs);
    }
    forall i, j | 0 <= i < j < |all| ensures Apart(all[i].1, all[j].1, gap) {
      assert all[i] == if i < |x| then x[i] else y[i - |x|];
      assert all[j] == if j < |x| then x[j] else y[j - |x|];
      if i < |x| && j >= |x| {
        ApartInside(bf, bs, x[i].1, y[j - |x|].1, gap);
      }
    }
  }

  /** While no clamp fires every tile lies in the box, and any two are at least the gap apart. */
  lemma {:induction false} LayoutTiles(t: Tree, b: Box, gap: int)
    requires Positive(b) && gap >= 0 && NoClamp(t, b, gap)
    ensures AllInside(Layout(t, b, gap), b) && AllApart(Layout(t, b, gap), gap)
  {
    match t
    case Leaf(_) =>
    case Branch(l, r) =>
      var bf, bs := FirstHalf(b, gap), SecondHalf(b, gap);
      SplitExact(b, gap);
      LayoutTiles(l, bf, gap);
      LayoutTiles(r, bs, gap);
      TilesConcat(Layout(l, bf, gap), Layout(r, bs, gap), bf, bs, b, gap);
  }

  lemma ApartInside(a: Box, b: Box, a': Box, b': Box, gap: int)
    requires Apart(a, b, gap) && Inside(a', a) && Inside(b', b)
    ensures Apart(a', b', gap)
  {
  }

  // ----- a size that is always enough ----------------------------------------------------

  function Depth(t: Tree): nat {
    match t
    case Leaf(_) => 0
    case Branch(l, r) => 1 + Max(Depth(l), Depth(r))
  }

  function Pow2(n: nat): (p: nat)
    ensures p >= 1
  {
    if n == 0 then 1 else 2 * Pow2(n - 1)
  }

  lemma {:induction false} Pow2Monotone(m: nat, n: nat)
    requires m <= n
    ensures Pow2(m) <= Pow2(n)
  {
    if m == n {
    } else {
      Pow2Monotone(m, n - 1);
    }
  }

  /** The long side that 2^d tiles of at least `w` pixels and their gaps need: 2^d * (gap + w) - gap. */
  function Room(d: nat, gap: nat, w: nat): int {
    Pow2(d) * (gap + w) - gap
  }

  predicate Wide(b: Box, w: nat) {
    b.width >= w && b.height >= w
  }

  /** A side of two needs and a gap leaves, whatever the parities, one need on each part. */
  lemma SplitWide(b: Box, gap: nat, need: int, w: nat)
    requires Wide(b, w) && 1 <= w <= need && LongSide(b) >= 2 * need + gap
    ensures NoClampAt(b, gap)
    ensures Wide(FirstHalf(b, gap), w) && LongSide(FirstHalf(b, gap)) >= need
    ensures Wide(SecondHalf(b, gap), w) && LongSide(SecondHalf(b, gap)) >= need
  {
  }

  /** One level more needs twice the room and a gap. */
  lemma RoomStep(d: nat, gap: nat, w: nat)
    ensures Room(d + 1, gap, w) == 2 * Room(d, gap, w) + gap && Room(d, gap, w) >= w
  {
    var p := Pow2(d);
    assert Pow2(d + 1) * (gap + w) == 2 * (p * (gap + w));
    assert p * (gap + w) >= gap + w;
  }

  lemma RoomMonotone(d: nat, e: nat, gap: nat, w: nat)
    requires d <= e
    ensures Room(d, gap, w) <= Room(e, gap, w)
  {
    Pow2Monotone(d, e);
    assert (Pow2(e) - Pow2(d)) * (gap + w) >= 0;
  }

  /** With that much room no clamp fires and every tile is at least `w` pixels wide and high. */
  lemma {:induction false} RoomSuffices(t: Tree, b: Box, gap: nat, w: nat)
    requires w >= 1 && Wide(b, w) && LongSide(b) >= Room(Depth(t), gap, w)
    ensures NoClamp(t, b, gap)
    ensures forall i | 0 <= i < |Layout(t, b, gap)| :: Wide(Layout(t, b, gap)[i].1, w)
  {
    match t
    case Leaf(_) =>
    case Branch(l, r) =>
      RoomStep(Depth(t) - 1, gap, w);
      SplitWide(b, gap, Room(Depth(t) - 1, gap, w), w);
      RoomMonotone(Depth(l), Depth(t) - 1, gap, w);
      RoomMonotone(Depth(r), Depth(t) - 1, gap, w);
      RoomSuffices(l, FirstHalf(b, gap), gap, w);
      RoomSuffices(r, SecondHalf(b, gap), gap, w);
  }

  // ----- aspect --------------------------------------------------------------------------

  /** At most about twice as long as it is wide. */
  ghost predicate Compact(b: Box, gap: int) {
    LongSide(b) <= 2 * ShortSide(b) + gap + 1
  }

  /** Always splitting the longer side keeps every tile's aspect bounded. */
  lemma {:induction false} LayoutCompact(t: Tree, b: Box, gap: int)
    requires Positive(b) && gap >= 0 && NoClamp(t, b, gap) && Compact(b, gap)
    ensures forall i | 0 <= i < |Layout(t, b, gap)| :: Compact(Layout(t, b, gap)[i].1, gap)
  {
    match t
    case Leaf(_) =>
    case Branch(l, r) =>
      SplitExact(b, gap);
      LayoutCompact(l, FirstHalf(b, gap), gap);
      LayoutCompact(r, SecondHalf(b, gap), gap);
  }

  // ----- area ----------------------------------------------------------------------------

  function Area(b: Box): int {
    b.width * b.height
  }

  function TileArea(r: seq<(Client, Box)>): int {
    if r == [] then 0 else Area(r[0].1) + TileArea(r[1..])
  }

  /** The area of the strips that the splits leave empty. */
  function GapArea(t: Tree, b: Box, gap: int): int {
    match t
    case Leaf(_) => 0
    case Branch(l, r) =>
      gap * ShortSide(b) + GapArea(l, FirstHalf(b, gap), gap) + GapArea(r, SecondHalf(b, gap), gap)
  }

  lemma {:induction false} TileAreaConcat(x: seq<(Client, Box)>, y: seq<(Client, Box)>)
    ensures TileArea(x + y) == TileArea(x) + TileArea(y)
  {
    if x == [] {
      assert x + y == y;
    } else {
      TileAreaConcat(x[1..], y);
      assert (x + y)[1..] == x[1..] + y;
    }
  }

  /** One split loses no area when unclamped, and gains some when a clamp fires. */
  lemma SplitArea(b: Box, gap: int)
    requires Positive(b) && gap >= 0
    ensures var total := Area(FirstHalf(b, gap)) + Area(SecondHalf(b, gap)) + gap * ShortSide(b);
            total >= Area(b) && (total == Area(b) <==> NoClampAt(b, gap))
  {
    var length, short := LongSide(b), ShortSide(b);
    var f := FirstLength(length, gap);
    var s := Max(1, length - f - gap);
    assert NoClampAt(b, gap) <==> f + s + gap == length;
    assert f + s + gap >= length;
    if SplitsTop(b) {
      assert Area(FirstHalf(b, gap)) == b.width * f;
      assert Area(SecondHalf(b, gap)) == b.width * s;
    } else {
      assert Area(FirstHalf(b, gap)) == f * b.height;
      assert Area(SecondHalf(b, gap)) == s * b.height;
    }
    ScaledSum(f, s, gap, length, short);
  }

  lemma ScaledSum(f: int, s: int, gap: int, length: int, short: int)
    requires short >= 1 && f + s + gap >= length
    ensures f * short + s * short + gap * short >= length * short
    ensures f * short + s * short + gap * short == length * short <==> f + s + gap == length
  {
    var extra := f + s + gap - length;
    assert f * short + s * short + gap * short - length * short == extra * short;
    if extra >= 1 {
      assert extra * short >= 1 * short;
    }
  }

  /**
   * Conservation: tiles and gap strips together cover at least the box, and exactly the box if
   * and only if no clamp fires.
   */
  lemma {:induction false} AreaConserved(t: Tree, b: Box, gap: int)
    requires Positive(b) && gap >= 0
    ensures TileArea(Layout(t, b, gap)) + GapArea(t, b, gap) >= Area(b)
    ensures TileArea(Layout(t, b, gap)) + GapArea(t, b, gap) == Area(b) <==> NoClamp(t, b, gap)
  {
    match t
    case Leaf(_) =>
    case Branch(l, r) =>
      var bf, bs := FirstHalf(b, gap), SecondHalf(b, gap);
      SplitArea(b, gap);
      AreaConserved(l, bf, gap);
      AreaConserved(r, bs, gap);
      TileAreaConcat(Layout(l, bf, gap), Layout(r, bs, gap));
  }
}

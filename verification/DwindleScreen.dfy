// From tiles to windows on the screen: `resize` sets the geometry and `applybounds` corrects it.

module DwindleScreen {
  import opened Boxes
  import opened ClientIds
  import opened DwindleNodes
  import opened DwindleShape
  import opened DwindleAbstraction
  import opened DwindleLayout
  import opened DwindleTiling

  /** The smallest side that leaves a pixel between two borders of width `bw`. */
  function MinSide(bw: nat): int {
    1 + 2 * bw
  }

  /** One axis of `applybounds`, for a size that is already large enough. */
  function BoundAxis(pos: int, size: int, areaPos: int, areaSize: int): int {
    var p := if pos >= areaPos + areaSize then areaPos + areaSize - size else pos;
    if p + size <= areaPos then areaPos else p
  }

  /** The geometry that `applybounds` leaves. */
  function Bounded(geom: Box, area: Box, bw: nat): Box {
    var width, height := Max(MinSide(bw), geom.width), Max(MinSide(bw), geom.height);
    Box(BoundAxis(geom.x, width, area.x, area.width), BoundAxis(geom.y, height, area.y, area.height), width, height)
  }

  /** A window with a geometry; the border belongs to the geometry. */
  class Frame {
    var geom: Box
    const bw: nat

    constructor (geo: Box, border: nat)
      ensures geom == geo && bw == border
    {
      geom, bw := geo, border;
    }

    /** `applybounds` */
    method ApplyBounds(bbox: Box)
      modifies this
      ensures geom == Bounded(old(geom), bbox, bw)
    {
      geom := geom.(width := Max(1 + 2 * bw, geom.width));
      geom := geom.(height := Max(1 + 2 * bw, geom.height));
      if geom.x >= bbox.x + bbox.width {
        geom := geom.(x := bbox.x + bbox.width - geom.width);
      }
      if geom.y >= bbox.y + bbox.height {
        geom := geom.(y := bbox.y + bbox.height - geom.height);
      }
      if geom.x + geom.width <= bbox.x {
        geom := geom.(x := bbox.x);
      }
      if geom.y + geom.height <= bbox.y {
        geom := geom.(y := bbox.y);
      }
    }

    /** The part of `resize` that sets the geometry. */
    method Resize(geo: Box, bbox: Box)
      modifies this
      ensures geom == Bounded(geo, bbox, bw)
    {
      geom := geo;
      ApplyBounds(bbox);
    }
  }

  /** The two boxes share a pixel. */
  ghost predicate Overlap(a: Box, b: Box) {
    && a.x < b.x + b.width && b.x < a.x + a.width
    && a.y < b.y + b.height && b.y < a.y + a.height
  }

  /** Whatever the geometry was, the window is partly on the area afterwards, with room inside its border. */
  lemma BoundedVisible(geom: Box, area: Box, bw: nat)
    requires Positive(area)
    ensures var r := Bounded(geom, area, bw);
            && Overlap(r, area) && r.width >= MinSide(bw) && r.height >= MinSide(bw)
            && Bounded(r, area, bw) == r
  {
  }

  /**
   * Where the window ends up: each side is at least the minimum; a window that starts past the right or
   * lower edge ends at that edge, one that ends before the left or upper edge starts there, and any other
   * stays where it is.
   */
  lemma BoundedIs(geom: Box, area: Box, bw: nat)
    requires Positive(area)
    ensures var r := Bounded(geom, area, bw);
            && r.width == (if geom.width < 1 + 2 * bw then 1 + 2 * bw else geom.width)
            && r.height == (if geom.height < 1 + 2 * bw then 1 + 2 * bw else geom.height)
            && (if geom.x >= area.x + area.width then r.x + r.width == area.x + area.width
                else if geom.x + r.width <= area.x then r.x == area.x
                else r.x == geom.x)
            && (if geom.y >= area.y + area.height then r.y + r.height == area.y + area.height
                else if geom.y + r.height <= area.y then r.y == area.y
                else r.y == geom.y)
  {
  }

  /** A tile inside the area is left alone if and only if neither side is too short for the border. */
  lemma BoundedIff(tile: Box, area: Box, bw: nat)
    requires Positive(tile) && Inside(tile, area)
    ensures Bounded(tile, area, bw) == tile <==> tile.width >= MinSide(bw) && tile.height >= MinSide(bw)
  {
  }

  // ----- the screen after dwindle --------------------------------------------------------

  /** The resize calls of a tree that has been laid out in the work area. */
  function Calls(s: seq<Node>, area: Box, gap: nat, fullscreen: set<Client>): seq<(Client, Box)>
    requires InBounds(s) && InBounds(WithRootBox(s, RootBox(area, gap)))
  {
    Resizes(Recalc(WithRootBox(s, RootBox(area, gap)), gap), fullscreen)
  }

  /** Enough room for every window and its border: 2^depth tiles along the longer side of the root. */
  ghost predicate Roomy(s: seq<Node>, area: Box, gap: nat, w: nat)
    requires WellFormed(s) && |s| > 0
  {
    && Wide(RootBox(area, gap), w) && Inside(RootBox(area, gap), area)
    && LongSide(RootBox(area, gap)) >= Room(Depth(Abstract(s)), gap, w)
  }

  lemma CallIsTile(s: seq<Node>, area: Box, gap: nat, fullscreen: set<Client>, w: nat, c: Client, q: Box)
    requires WellFormed(s) && |s| > 0 && w >= 1 && Roomy(s, area, gap, w)
    requires InBounds(WithRootBox(s, RootBox(area, gap))) && (c, q) in Calls(s, area, gap, fullscreen)
    ensures (c, q) in Layout(Abstract(s), RootBox(area, gap), gap)
    ensures Wide(q, w) && Inside(q, RootBox(area, gap))
  {
    var t, b := Abstract(s), RootBox(area, gap);
    ResizesAreLayout(s, b, gap, fullscreen, c, q);
    RoomSuffices(t, b, gap, w);
    LayoutTiles(t, b, gap);
    var i :| 0 <= i < |Layout(t, b, gap)| && Layout(t, b, gap)[i] == (c, q);
  }

  /**
   * With enough room for the widest border, every window ends up with exactly its tile as geometry:
   * `applybounds` changes nothing, no window leaves the work area, and no two windows are nearer
   * than the gap.
   */
  lemma ScreenTiled(s: seq<Node>, area: Box, gap: nat, fullscreen: set<Client>, border: Client -> nat, w: nat)
    requires WellFormed(s) && |s| > 0 && Roomy(s, area, gap, w)
    requires forall c :: MinSide(border(c)) <= w
    ensures InBounds(WithRootBox(s, RootBox(area, gap)))
    ensures forall c, q | (c, q) in Calls(s, area, gap, fullscreen) ::
              Bounded(q, area, border(c)) == q && Inside(q, area)
    ensures forall c, q, d, r | (c, q) in Calls(s, area, gap, fullscreen) && (d, r) in Calls(s, area, gap, fullscreen)
              && c != d :: Apart(q, r, gap)
  {
    var t, b := Abstract(s), RootBox(area, gap);
    RecalcRefines(s, b, gap);
    assert w >= MinSide(border(NULL)) >= 1;
    forall c, q | (c, q) in Calls(s, area, gap, fullscreen)
      ensures Bounded(q, area, border(c)) == q && Inside(q, area)
    {
      CallIsTile(s, area, gap, fullscreen, w, c, q);
      BoundedIff(q, area, border(c));
    }
    RoomSuffices(t, b, gap, w);
    LayoutTiles(t, b, gap);
    forall c, q, d, r | (c, q) in Calls(s, area, gap, fullscreen) && (d, r) in Calls(s, area, gap, fullscreen) && c != d
      ensures Apart(q, r, gap)
    {
      CallIsTile(s, area, gap, fullscreen, w, c, q);
      CallIsTile(s, area, gap, fullscreen, w, d, r);
      ApartInLayout(Layout(t, b, gap), gap, (c, q), (d, r));
    }
  }

  lemma ApartInLayout(tiles: seq<(Client, Box)>, gap: int, x: (Client, Box), y: (Client, Box))
    requires AllApart(tiles, gap) && x in tiles && y in tiles && x != y
    ensures Apart(x.1, y.1, gap)
  {
    var i :| 0 <= i < |tiles| && tiles[i] == x;
    var j :| 0 <= j < |tiles| && tiles[j] == y;
    assert if i < j then Apart(tiles[i].1, tiles[j].1, gap) else Apart(tiles[j].1, tiles[i].1, gap);
  }
}

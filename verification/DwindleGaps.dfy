// The tiles that a `dwindle` call gives the windows, in terms of the work area, the settings and the
// windows: which gap is in force, where the tiles lie, and that they leave nothing uncovered.

module DwindleGaps {
  import opened Boxes
  import opened ClientIds
  import opened TagWords
  import opened DwindleNodes
  import opened DwindleShape
  import opened DwindleAbstraction
  import opened DwindleLayout
  import opened DwindleTiling
  import opened DwindlePacking
  import opened DwindleScreen
  import opened Windows
  import opened DwindleReconcile

  // ----- one split, side by side ---------------------------------------------------------

  /** The C cast of half a size: it drops the fraction of a negative size, too. */
  lemma TruncHalfIs(v: int)
    ensures v >= 0 ==> v - 1 <= 2 * TruncHalf(v) <= v
    ensures v <= 0 ==> v <= 2 * TruncHalf(v) <= v + 1
  {
  }

  /** The side that is cut is the longer one, the width if they are equal. */
  lemma LongSideIs(b: Box)
    ensures LongSide(b) == (if b.height > b.width then b.height else b.width) && LongSide(b) >= ShortSide(b)
    ensures ShortSide(b) == if b.height > b.width then b.width else b.height
  {
  }

  /** No clamp fires in a split exactly if the longer side has room for a pixel on each part and the gap. */
  lemma NoClampAtIs(b: Box, gap: nat)
    requires Positive(b)
    ensures NoClampAt(b, gap) <==> b.width >= gap + 2 || b.height >= gap + 2
  {
  }

  /**
   * An unclamped split, exactly: a box that is taller than wide is cut into an upper and a lower part, any
   * other into a left and a right part; the odd pixel goes to the second part, unless the gap is odd too.
   */
  lemma SplitIs(b: Box, gap: nat)
    requires Positive(b) && NoClampAt(b, gap)
    ensures var f, s := FirstHalf(b, gap), SecondHalf(b, gap);
            if b.height > b.width then
              && f.x == s.x == b.x && f.width == s.width == b.width
              && f.y == b.y && s.y == f.y + f.height + gap && s.y + s.height == b.y + b.height
              && f.height - s.height == gap % 2 - b.height % 2
            else
              && f.y == s.y == b.y && f.height == s.height == b.height
              && f.x == b.x && s.x == f.x + f.width + gap && s.x + s.width == b.x + b.width
              && f.width - s.width == gap % 2 - b.width % 2
  {
  }

  /** A clamped part is one pixel long. */
  lemma ClampedIs(b: Box, gap: nat)
    requires Positive(b) && !NoClampAt(b, gap)
    ensures var f, s := FirstHalf(b, gap), SecondHalf(b, gap);
            if b.height > b.width then f.height == s.height == 1 && f.y == b.y && s.y == b.y + 1 + gap
            else f.width == s.width == 1 && f.x == b.x && s.x == b.x + 1 + gap
  {
  }

  /** The root box leaves the gap on each side of the work area; a side without room for that is one pixel. */
  lemma RootBoxIs(area: Box, gap: nat)
    ensures var r := RootBox(area, gap);
            && r.x == area.x + gap && r.y == area.y + gap
            && (if area.width > 2 * gap then r.x + r.width == area.x + area.width - gap else r.width == 1)
            && (if area.height > 2 * gap then r.y + r.height == area.y + area.height - gap else r.height == 1)
  {
  }

  // ----- tilings -------------------------------------------------------------------------

  /** The first subtree's tiles are left of the second's, or above them. */
  lemma FirstBeforeSecond(l: Tree, r: Tree, b: Box, gap: nat, i: nat, j: nat)
    requires Positive(b) && NoClamp(Branch(l, r), b, gap)
    requires i < |Leaves(l)| <= j < |Leaves(Branch(l, r))|
    ensures var p, q := Layout(Branch(l, r), b, gap)[i].1, Layout(Branch(l, r), b, gap)[j].1;
            if b.height > b.width then p.y + p.height + gap <= q.y else p.x + p.width + gap <= q.x
  {
    var bf, bs := FirstHalf(b, gap), SecondHalf(b, gap);
    SplitIs(b, gap);
    SplitExact(b, gap);
    LayoutTiles(l, bf, gap);
    LayoutTiles(r, bs, gap);
    assert Inside(Layout(l, bf, gap)[i].1, bf);
    assert Inside(Layout(r, bs, gap)[j - |Leaves(l)|].1, bs);
  }

  /** Each of the four edges of the box is met by a tile. */
  ghost predicate MeetsEdges(tiles: seq<(Client, Box)>, b: Box) {
    && (exists i :: 0 <= i < |tiles| && tiles[i].1.x == b.x)
    && (exists i :: 0 <= i < |tiles| && tiles[i].1.y == b.y)
    && (exists i :: 0 <= i < |tiles| && tiles[i].1.x + tiles[i].1.width == b.x + b.width)
    && (exists i :: 0 <= i < |tiles| && tiles[i].1.y + tiles[i].1.height == b.y + b.height)
  }

  lemma EdgesConcat(x: seq<(Client, Box)>, y: seq<(Client, Box)>, bf: Box, bs: Box, b: Box)
    requires MeetsEdges(x, bf) && MeetsEdges(y, bs)
    requires bf.x == b.x && bf.y == b.y && bs.x + bs.width == b.x + b.width && bs.y + bs.height == b.y + b.height
    ensures MeetsEdges(x + y, b)
  {
    var i :| 0 <= i < |x| && x[i].1.x == bf.x;
    var j :| 0 <= j < |x| && x[j].1.y == bf.y;
    var k :| 0 <= k < |y| && y[k].1.x + y[k].1.width == bs.x + bs.width;
    var l :| 0 <= l < |y| && y[l].1.y + y[l].1.height == bs.y + bs.height;
    var z := x + y;
    assert z[i] == x[i] && z[j] == x[j] && z[|x| + k] == y[k] && z[|x| + l] == y[l];
  }

  lemma {:induction false} LayoutEdges(t: Tree, b: Box, gap: nat)
    requires Positive(b) && NoClamp(t, b, gap)
    ensures MeetsEdges(Layout(t, b, gap), b)
  {
    match t
    case Leaf(c) =>
      assert Layout(t, b, gap)[0].1 == b;
    case Branch(l, r) =>
      var bf, bs := FirstHalf(b, gap), SecondHalf(b, gap);
      SplitIs(b, gap);
      SplitExact(b, gap);
      LayoutEdges(l, bf, gap);
      LayoutEdges(r, bs, gap);
      EdgesConcat(Layout(l, bf, gap), Layout(r, bs, gap), bf, bs, b);
  }

  /** Without gaps every pixel of the box is in a tile. */
  lemma {:induction false} LayoutCovers(t: Tree, b: Box, p: (int, int)) returns (i: nat)
    requires Positive(b) && NoClamp(t, b, 0) && p in Pixels(b)
    ensures i < |Layout(t, b, 0)| && p in Pixels(Layout(t, b, 0)[i].1)
  {
    match t
    case Leaf(c) =>
      i := 0;
    case Branch(l, r) =>
      var bf, bs := FirstHalf(b, 0), SecondHalf(b, 0);
      SplitIs(b, 0);
      SplitExact(b, 0);
      if p in Pixels(bf) {
        i := LayoutCovers(l, bf, p);
      } else {
        assert p in Pixels(bs);
        var j := LayoutCovers(r, bs, p);
        i := |Layout(l, bf, 0)| + j;
      }
  }

  // ----- the windows and the settings ----------------------------------------------------

  /** A window that is to be tiled, in terms of its fields. */
  predicate IsTiled(w: Window, m: Screen)
    requires ValidScreen(m)
  {
    && w.mon == m.id && !w.floating && !w.fullscreen
    && if w.scratchpad then m.scratchpadVisible else exists t | t in w.tags :: t in m.tagset[m.selected]
  }

  function TiledSet(ws: seq<Window>, m: Screen): set<nat>
    requires ValidScreen(m)
  {
    set i: nat | i < |ws| && IsTiled(ws[i], m)
  }

  lemma TilesIs(w: Window, m: Screen)
    requires ValidScreen(m)
    ensures Tiles(w, m) <==> IsTiled(w, m)
  {
    var both := And(w.tags, m.tagset[m.selected]);
    if t :| t in w.tags && t in m.tagset[m.selected] {
      assert t in both;
    }
    if both != {} {
      var t :| t in both;
      assert t in w.tags && t in m.tagset[m.selected];
    }
  }

  /** A window keeps its leaf as long as it is on the monitor, in view and not floating, fullscreen or not. */
  lemma StaysIs(w: Window, m: Screen)
    requires ValidScreen(m)
    ensures Stays(w, m) <==> !w.floating && IsTiled(w.(fullscreen := false), m)
  {
    TilesIs(w.(fullscreen := false), m);
  }

  lemma {:induction false} CountIsTiled(ws: seq<Window>, m: Screen)
    requires ValidScreen(m)
    ensures CountTiles(ws, m) == |TiledSet(ws, m)|
  {
    if ws == [] {
      assert TiledSet(ws, m) == {};
    } else {
      var n := |ws| - 1;
      CountIsTiled(ws[..n], m);
      TilesIs(ws[n], m);
      assert TiledSet(ws, m) == TiledSet(ws[..n], m) + if IsTiled(ws[n], m) then {n} else {};
    }
  }

  /** The gap that the settings ask for: none if gaps are off, or for a lone window under smart gaps. */
  ghost predicate GapIs(ws: seq<Window>, m: Screen, cfg: Config, gap: nat)
    requires ValidScreen(m)
  {
    gap == if m.gaps && !(cfg.smartGaps && |TiledSet(ws, m)| == 1) then cfg.gaps else 0
  }

  /** The client has a leaf in the array, with this box. */
  ghost predicate HasTile(r: seq<Node>, c: Client, q: Box) {
    exists k :: Holds(r, k, c) && r[k].box == q
  }

  /** The tiles after `dwindle` are those of the top-down layout in the work area, with the gap in force. */
  lemma DwindleLaysOut(s: seq<Node>, slots: seq<(Node, Node)>, ws: seq<Window>, m: Screen, focused: Client,
                       cfg: Config, gap: nat) returns (r: seq<Node>)
    requires WellFormed(s) && ValidScreen(m) && ValidList(ws) && |slots| == |ws|
    requires TiledSet(ws, m) != {} && !SelfAnchored(s, ws, m, focused) && GapIs(ws, m, cfg, gap)
    ensures r == Reconcile(s, slots, ws, m, focused, cfg) && WellFormed(r) && |r| > 0
    ensures forall c: Client, q :: HasTile(r, c, q) <==> (c, q) in Layout(Abstract(r), RootBox(m.area, gap), gap)
  {
    r := Reconcile(s, slots, ws, m, focused, cfg);
    CountIsTiled(ws, m);
    ReconcileKeepsShape(s, slots, ws, m, focused, cfg);
    ReconcileSteps(s, slots, ws, m, focused, cfg);
    var i :| i in TiledSet(ws, m);
    TilesIs(ws[i], m);
    assert !Absent(r, ws[i].id);
    var q := InsertAll(Pruned(s, ws, m), slots, ws, m, focused);
    SafeIffNotSelfAnchored(s, ws, m, focused);
    InsertAllOrder(Pruned(s, ws, m), slots, ws, m, focused);
    SettledTiles(q, m.area, gap, r);
  }

  lemma SettledTiles(q: seq<Node>, area: Box, gap: int, r: seq<Node>)
    requires WellFormed(q) && r == Settle(q, area, gap) && |r| > 0
    ensures WellFormed(r)
    ensures forall c: Client, b :: HasTile(r, c, b) <==> (c, b) in Layout(Abstract(r), RootBox(area, gap), gap)
  {
    RecalcRefines(q, RootBox(area, gap), gap);
    forall c: Client, b ensures HasTile(r, c, b) <==> (c, b) in Layout(Abstract(r), RootBox(area, gap), gap) {
      ResizesAreLayout(q, RootBox(area, gap), gap, {}, c, b);
      ResizesFromIs(r, 0, {}, c, b);
      if k :| Holds(r, k, c) && r[k].box == b {
        assert LinkOk(r, k);
      }
    }
  }

  /** The resize calls of `dwindle`: the tiles of the clients that are not fullscreen. */
  lemma CallsAreTiles(r: seq<Node>, ws: seq<Window>, c: Client, q: Box)
    requires WellFormed(r)
    ensures (c, q) in Resizes(r, Fullscreen(ws)) <==>
            HasTile(r, c, q) && forall i | 0 <= i < |ws| && ws[i].id == c :: !ws[i].fullscreen
  {
    ResizesFromIs(r, 0, Fullscreen(ws), c, q);
    if k :| Holds(r, k, c) && r[k].box == q {
      assert LinkOk(r, k);
    }
    assert c in Fullscreen(ws) <==> exists i :: 0 <= i < |ws| && ws[i].fullscreen && ws[i].id == c;
  }

  /** Fullscreen on or off: the client is put into, or taken out of, the set that gets no resize call. */
  lemma FullscreenIs(ws: seq<Window>, c: Client, on: bool)
    ensures var vs := WithFullscreen(ws, c, on);
            && Fullscreen(vs) == (if on && exists i :: 0 <= i < |ws| && ws[i].id == c then Fullscreen(ws) + {c}
                                  else Fullscreen(ws) - {c})
            && |vs| == |ws| && forall i | 0 <= i < |ws| :: vs[i].(fullscreen := ws[i].fullscreen) == ws[i]
  {
    var vs := WithFullscreen(ws, c, on);
    forall d ensures d in Fullscreen(vs) <==> if d == c then on && exists i :: 0 <= i < |ws| && ws[i].id == c
                                              else d in Fullscreen(ws)
    {
      if i :| 0 <= i < |ws| && ws[i].id == d && (ws[i].fullscreen || d == c) {
        assert vs[i].id == d;
      }
    }
  }

  /** With no window to tile, or no entry without a parent, there is nothing to lay out. */
  lemma NothingToLayOut(s: seq<Node>, slots: seq<(Node, Node)>, ws: seq<Window>, m: Screen, focused: Client,
                        cfg: Config, gap: int)
    requires InBounds(s) && ValidScreen(m) && |slots| == |ws|
    ensures TiledSet(ws, m) == {} ==> Reconcile(s, slots, ws, m, focused, cfg) == s
    ensures (forall i | 0 <= i < |s| :: s[i].parent >= 0) ==> Settle(s, m.area, gap) == s
  {
    CountIsTiled(ws, m);
  }

  /** Room for the tree: 2^depth pixels and the gaps between them along the longer side, one along the other. */
  ghost predicate RoomFor(t: Tree, area: Box, gap: nat) {
    && area.width > 2 * gap && area.height > 2 * gap
    && (|| area.width - 2 * gap >= Pow2(Depth(t)) * (gap + 1) - gap
        || area.height - 2 * gap >= Pow2(Depth(t)) * (gap + 1) - gap)
  }

  lemma RoomForTiles(t: Tree, area: Box, gap: nat)
    requires RoomFor(t, area, gap)
    ensures var b := RootBox(area, gap); Positive(b) && NoClamp(t, b, gap)
  {
    var b := RootBox(area, gap);
    LongSideIs(b);
    RoomSuffices(t, b, gap, 1);
  }

  /**
   * With enough room: every tile keeps the gap to each edge of the work area, each edge has a tile that
   * keeps exactly the gap, and the tiles of any two clients are at least the gap apart.
   */
  lemma DwindleGapsKept(s: seq<Node>, slots: seq<(Node, Node)>, ws: seq<Window>, m: Screen, focused: Client,
                        cfg: Config, gap: nat) returns (r: seq<Node>)
    requires WellFormed(s) && ValidScreen(m) && ValidList(ws) && |slots| == |ws|
    requires TiledSet(ws, m) != {} && !SelfAnchored(s, ws, m, focused) && GapIs(ws, m, cfg, gap)
    ensures r == Reconcile(s, slots, ws, m, focused, cfg) && WellFormed(r) && |r| > 0
    ensures RoomFor(Abstract(r), m.area, gap) ==>
              && (forall c, q | HasTile(r, c, q) ::
                    && m.area.x + gap <= q.x && q.x + q.width <= m.area.x + m.area.width - gap
                    && m.area.y + gap <= q.y && q.y + q.height <= m.area.y + m.area.height - gap)
              && (exists c, q :: HasTile(r, c, q) && q.x == m.area.x + gap)
              && (exists c, q :: HasTile(r, c, q) && q.y == m.area.y + gap)
              && (exists c, q :: HasTile(r, c, q) && q.x + q.width == m.area.x + m.area.width - gap)
              && (exists c, q :: HasTile(r, c, q) && q.y + q.height == m.area.y + m.area.height - gap)
              && (forall c, d, p, q | HasTile(r, c, p) && HasTile(r, d, q) && c != d :: Apart(p, q, gap))
  {
    r := DwindleLaysOut(s, slots, ws, m, focused, cfg, gap);
    if RoomFor(Abstract(r), m.area, gap) {
      TilesInArea(Abstract(r), m.area, gap);
      var tiles := Layout(Abstract(r), RootBox(m.area, gap), gap);
      EdgeTiles(r, tiles, RootBox(m.area, gap));
      forall c, d, p, q | HasTile(r, c, p) && HasTile(r, d, q) && c != d ensures Apart(p, q, gap) {
        ApartInLayout(tiles, gap, (c, p), (d, q));
      }
    }
  }

  lemma EdgeTiles(r: seq<Node>, tiles: seq<(Client, Box)>, b: Box)
    requires MeetsEdges(tiles, b) && forall c: Client, q :: HasTile(r, c, q) <==> (c, q) in tiles
    ensures exists c, q :: HasTile(r, c, q) && q.x == b.x
    ensures exists c, q :: HasTile(r, c, q) && q.y == b.y
    ensures exists c, q :: HasTile(r, c, q) && q.x + q.width == b.x + b.width
    ensures exists c, q :: HasTile(r, c, q) && q.y + q.height == b.y + b.height
  {
    var i :| 0 <= i < |tiles| && tiles[i].1.x == b.x;
    var j :| 0 <= j < |tiles| && tiles[j].1.y == b.y;
    var k :| 0 <= k < |tiles| && tiles[k].1.x + tiles[k].1.width == b.x + b.width;
    var l :| 0 <= l < |tiles| && tiles[l].1.y + tiles[l].1.height == b.y + b.height;
    assert (tiles[i].0, tiles[i].1) in tiles && (tiles[j].0, tiles[j].1) in tiles;
    assert (tiles[k].0, tiles[k].1) in tiles && (tiles[l].0, tiles[l].1) in tiles;
    assert HasTile(r, tiles[i].0, tiles[i].1) && HasTile(r, tiles[j].0, tiles[j].1);
    assert HasTile(r, tiles[k].0, tiles[k].1) && HasTile(r, tiles[l].0, tiles[l].1);
  }

  lemma TilesInArea(t: Tree, area: Box, gap: nat)
    requires RoomFor(t, area, gap)
    ensures var b := RootBox(area, gap); var tiles := Layout(t, b, gap);
            && MeetsEdges(tiles, b) && AllApart(tiles, gap)
            && b.x == area.x + gap && b.x + b.width == area.x + area.width - gap
            && b.y == area.y + gap && b.y + b.height == area.y + area.height - gap
            && forall c, q | (c, q) in tiles ::
                 && b.x <= q.x && q.x + q.width <= b.x + b.width
                 && b.y <= q.y && q.y + q.height <= b.y + b.height
  {
    var b := RootBox(area, gap);
    var tiles := Layout(t, b, gap);
    RoomForTiles(t, area, gap);
    RootBoxIs(area, gap);
    LayoutTiles(t, b, gap);
    LayoutEdges(t, b, gap);
    forall c, q | (c, q) in tiles ensures Inside(q, b) {
      var i :| 0 <= i < |tiles| && tiles[i] == (c, q);
    }
  }

  /** With gaps off and enough room every pixel of the work area is in exactly one client's tile. */
  lemma DwindleFills(s: seq<Node>, slots: seq<(Node, Node)>, ws: seq<Window>, m: Screen, focused: Client,
                     cfg: Config, p: (int, int)) returns (r: seq<Node>, c: Client)
    requires WellFormed(s) && ValidScreen(m) && ValidList(ws) && |slots| == |ws|
    requires TiledSet(ws, m) != {} && !SelfAnchored(s, ws, m, focused) && GapIs(ws, m, cfg, 0)
    requires p in Pixels(m.area)
    ensures r == Reconcile(s, slots, ws, m, focused, cfg) && WellFormed(r) && |r| > 0
    ensures RoomFor(Abstract(r), m.area, 0) ==>
              && (exists q :: HasTile(r, c, q) && p in Pixels(q))
              && forall d, q | HasTile(r, d, q) && p in Pixels(q) :: d == c
  {
    r := DwindleLaysOut(s, slots, ws, m, focused, cfg, 0);
    c := NULL;
    if RoomFor(Abstract(r), m.area, 0) {
      var t, b := Abstract(r), RootBox(m.area, 0);
      RoomForTiles(t, m.area, 0);
      RootBoxIs(m.area, 0);
      assert b == m.area;
      LayoutTiles(t, b, 0);
      var i := LayoutCovers(t, b, p);
      var tiles := Layout(t, b, 0);
      c := tiles[i].0;
      assert (c, tiles[i].1) in tiles && HasTile(r, c, tiles[i].1);
      forall d, q | HasTile(r, d, q) && p in Pixels(q) ensures d == c {
        if d != c {
          ApartInLayout(tiles, 0, (d, q), (c, tiles[i].1));
        }
      }
    }
  }

  /** Under smart gaps a lone window that is the only leaf gets the whole work area. */
  lemma DwindleLoneWindow(s: seq<Node>, slots: seq<(Node, Node)>, ws: seq<Window>, m: Screen, focused: Client,
                          cfg: Config) returns (r: seq<Node>)
    requires WellFormed(s) && ValidScreen(m) && ValidList(ws) && |slots| == |ws|
    requires !SelfAnchored(s, ws, m, focused) && cfg.smartGaps && |TiledSet(ws, m)| == 1
    requires m.area.width >= 1 && m.area.height >= 1
    ensures r == Reconcile(s, slots, ws, m, focused, cfg)
    ensures |r| == 1 ==> r[0].box == m.area
  {
    assert TiledSet(ws, m) != {};
    r := DwindleLaysOut(s, slots, ws, m, focused, cfg, 0);
    RootBoxIs(m.area, 0);
    if |r| == 1 {
      assert LinkOk(r, 0);
      assert Holds(r, 0, r[0].client) && HasTile(r, r[0].client, r[0].box);
    }
  }

  // ----- fullscreen and back -------------------------------------------------------------

  /** Whether `c` is fullscreen after the changes, if it `was` before: the last change of it counts. */
  function FullscreenAfter(changes: seq<Change>, c: Client, was: bool): bool {
    if changes == [] then was
    else
      match changes[|changes| - 1]
      case SetFullscreen(d, on) => if d == c then on else FullscreenAfter(changes[..|changes| - 1], c, was)
      case Dwindle(_, _, _) => FullscreenAfter(changes[..|changes| - 1], c, was)
  }

  /** The windows after the changes: only who is fullscreen differs. */
  ghost predicate Changed(ws: seq<Window>, changes: seq<Change>, vs: seq<Window>) {
    && |vs| == |ws|
    && forall i | 0 <= i < |ws| ::
         vs[i] == ws[i].(fullscreen := FullscreenAfter(changes, ws[i].id, ws[i].fullscreen))
  }

  lemma {:induction false} FullscreenAfterHead(changes: seq<Change>, c: Client, was: bool)
    requires changes != []
    ensures FullscreenAfter(changes, c, was) ==
            FullscreenAfter(changes[1..], c, FullscreenAfter(changes[..1], c, was))
  {
    var n := |changes| - 1;
    if n == 0 {
      assert changes[..1] == changes && changes[1..] == [];
    } else {
      assert changes[..n][1..] == changes[1..][..n - 1] && changes[..n][..1] == changes[..1];
      FullscreenAfterHead(changes[..n], c, was);
    }
  }

  lemma ChangedHead(ws: seq<Window>, us: seq<Window>, vs: seq<Window>, changes: seq<Change>)
    requires changes != [] && Changed(ws, changes[..1], us) && Changed(us, changes[1..], vs)
    ensures Changed(ws, changes, vs)
  {
    forall i | 0 <= i < |ws|
      ensures vs[i] == ws[i].(fullscreen := FullscreenAfter(changes, ws[i].id, ws[i].fullscreen))
    {
      FullscreenAfterHead(changes, ws[i].id, ws[i].fullscreen);
    }
  }

  lemma OneChange(ws: seq<Window>, x: Change)
    ensures Changed(ws, [x], if x.SetFullscreen? then WithFullscreen(ws, x.c, x.on) else ws)
  {
    var vs := if x.SetFullscreen? then WithFullscreen(ws, x.c, x.on) else ws;
    assert [x][..|[x]| - 1] == [];
    forall i | 0 <= i < |ws|
      ensures vs[i] == ws[i].(fullscreen := FullscreenAfter([x], ws[i].id, ws[i].fullscreen))
    {
      assert FullscreenAfter([], ws[i].id, ws[i].fullscreen) == ws[i].fullscreen;
    }
  }

  /** A run that ends with `dwindle`: the call finds the links of the start and the windows as changed. */
  lemma {:induction false} RunEndsWith(s: seq<Node>, ws: seq<Window>, m: Screen, cfg: Config, changes: seq<Change>,
                                       last: Change) returns (t: seq<Node>, vs: seq<Window>)
    requires WellFormed(s) && ValidScreen(m) && InStep(s, ws, m)
    requires last.Dwindle? && Allowed(s, |ws|, changes + [last])
    ensures SameLinks(s, t) && WellFormed(t) && InStep(t, vs, m) && Changed(ws, changes, vs)
    ensures |last.slots| == |vs|
    ensures Run(s, ws, m, cfg, changes + [last])
            == Reconcile(t, last.slots, vs, m.(area := last.screenArea), last.focused, cfg)
    decreases |changes|
  {
    var all := changes + [last];
    assert all[|changes|] == last;
    if changes == [] {
      t, vs := s, ws;
      assert all[1..] == [];
    } else {
      var x := changes[0];
      assert all[0] == x && all[1..] == changes[1..] + [last] && changes[..1] == [x];
      OneChange(ws, x);
      var us, s1 := ws, s;
      match x {
        case SetFullscreen(c, on) =>
          us := WithFullscreen(ws, c, on);
          FullscreenInStep(s, ws, m, c, on);
        case Dwindle(focused, slots, screenArea) =>
          AreaInStep(s, ws, m, screenArea);
          ReconcileInStep(s, slots, ws, m.(area := screenArea), focused, cfg);
          s1 := Reconcile(s, slots, ws, m.(area := screenArea), focused, cfg);
          InStepSameLinks(s, s1, ws, m);
      }
      SameLinksWellFormed(s, s1);
      InStepSameLinks(s, s1, us, m);
      AllowedTail(s, s1, |ws|, all);
      t, vs := RunEndsWith(s1, us, m, cfg, changes[1..], last);
      SameLinksTransitive(s, s1, t);
      ChangedHead(ws, us, vs, changes);
    }
  }

  /**
   * After fullscreen changes and `dwindle` calls in any order, the last a `dwindle`, every client of the tree
   * has the tile that the tree of the start gives it in the last work area, with the gap in force then.
   */
  lemma FullscreenRunTiles(s: seq<Node>, ws: seq<Window>, m: Screen, cfg: Config, changes: seq<Change>,
                           last: Change, vs: seq<Window>, gap: nat)
    requires WellFormed(s) && ValidScreen(m) && InStep(s, ws, m) && |s| > 0 && ValidList(ws)
    requires last.Dwindle? && Allowed(s, |ws|, changes + [last])
    requires Changed(ws, changes, vs) && TiledSet(vs, m) != {} && GapIs(vs, m, cfg, gap)
    ensures var r := Run(s, ws, m, cfg, changes + [last]);
            forall c: Client, q ::
              HasTile(r, c, q) <==> (c, q) in Layout(Abstract(s), RootBox(last.screenArea, gap), gap)
  {
    var t, us := RunEndsWith(s, ws, m, cfg, changes, last);
    assert us == vs;
    ChangedValid(ws, changes, vs);
    InStepTiles(t, vs, m, cfg, last, gap);
    SameLinksAbstract(s, t);
  }

  lemma ChangedValid(ws: seq<Window>, changes: seq<Change>, vs: seq<Window>)
    requires ValidList(ws) && Changed(ws, changes, vs)
    ensures ValidList(vs)
  {
  }

  /** `dwindle` on a tree in step lays out that tree in the work area, with the gap in force. */
  lemma InStepTiles(t: seq<Node>, vs: seq<Window>, m: Screen, cfg: Config, last: Change, gap: nat)
    requires WellFormed(t) && ValidScreen(m) && InStep(t, vs, m) && ValidList(vs) && |t| > 0
    requires last.Dwindle? && |last.slots| == |vs| && TiledSet(vs, m) != {} && GapIs(vs, m, cfg, gap)
    ensures var r := Reconcile(t, last.slots, vs, m.(area := last.screenArea), last.focused, cfg);
            forall c: Client, q ::
              HasTile(r, c, q) <==> (c, q) in Layout(Abstract(t), RootBox(last.screenArea, gap), gap)
  {
    var n := m.(area := last.screenArea);
    AreaInStep(t, vs, m, last.screenArea);
    InStepNewcomers(t, vs, n);
    ReconcileInStep(t, last.slots, vs, n, last.focused, cfg);
    assert TiledSet(vs, n) == TiledSet(vs, m);
    var r := DwindleLaysOut(t, last.slots, vs, n, last.focused, cfg, gap);
    SameLinksAbstract(t, r);
  }
}

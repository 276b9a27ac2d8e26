// What `focusclient`, `view`, `toggleview` and `tag` leave on a monitor, in terms of its fields.

module DwindleViews {
  import opened Boxes
  import opened ClientIds
  import opened TagWords
  import opened DwindleNodes
  import opened DwindleShape
  import opened DwindleAbstraction
  import opened Windows
  import opened DwindleReconcile
  import opened DwindleGaps
  import opened DwindleFocus
  import F = FocusMirror

  /** The window is in view on the monitor, tiled or not. */
  predicate IsInView(w: Window, m: Screen)
    requires ValidScreen(m)
  {
    w.mon == m.id && if w.scratchpad then m.scratchpadVisible else exists t | t in w.tags :: t in m.tagset[m.selected]
  }

  lemma VisibleIs(b: Board, c: Client)
    requires ValidScreen(b.screen)
    ensures c in Visible(b) <==>
            exists i :: 0 <= i < |b.clients| && b.clients[i].id == c && IsInView(b.clients[i], b.screen)
  {
    forall i | 0 <= i < |b.clients| ensures VisibleOn(b.clients[i], b.screen) <==> IsInView(b.clients[i], b.screen) {
      StaysIs(b.clients[i].(floating := false), b.screen);
    }
  }

  lemma TopIs(b: Board)
    requires ValidScreen(b.screen)
    ensures F.IsFirstVisible(b.stack, Visible(b), Top(b))
  {
    F.FirstVisibleIs(b.stack, Visible(b));
  }

  // ----- focus ---------------------------------------------------------------------------

  /** `t` is `s` with `c` moved to the front. */
  ghost predicate MovedToFront(s: seq<Client>, t: seq<Client>, c: Client) {
    if c in s then exists i | 0 <= i < |s| :: s[i] == c && c !in s[..i] && t == [c] + s[..i] + s[i + 1..]
    else t == [c] + s
  }

  lemma ToFrontMoves(s: seq<Client>, c: Client)
    ensures MovedToFront(s, F.ToFront(s, c), c)
  {
    if c in s {
      var i := F.FirstAt(s, c);
      F.RemovedAt(s, c, i);
    } else {
      F.RemovedAbsent(s, c);
    }
  }

  /** The client has the keyboard; what else `focusclient` records if it did not have it before. */
  ghost predicate Focused(b: Board, r: Board, c: Client)
    requires ValidScreen(b.screen)
  {
    && r.clients == b.clients && r.screen == b.screen && r.keyboard == c
    && if c == NULL || c == b.keyboard then r.stack == b.stack && r.anchors == b.anchors
       else
         && MovedToFront(b.stack, r.stack, c) && |r.anchors| == |b.anchors|
         && forall t | 0 <= t < |b.anchors| ::
              r.anchors[t] ==
              if t == TagIndex(b.screen)
                 && (exists i :: 0 <= i < |b.clients| && b.clients[i].id == c && b.clients[i].mon == b.screen.id
                                 && !b.clients[i].floating && !b.clients[i].fullscreen)
              then c else b.anchors[t]
  }

  lemma FocusEffect(b: Board, c: Client)
    requires ValidBoard(b)
    ensures Focused(b, Focus(b, c), c) && Focus(b, c).trees == b.trees
  {
    ToFrontMoves(b.stack, c);
  }

  // ----- focus the top and arrange -------------------------------------------------------

  /**
   * The first visible client of the focus list has the focus; the tree of the lowest tag in view is in
   * step with the windows unless it breaks, and the trees of the other tags are as they were.
   */
  ghost predicate Arranged(b: Board, r: Board)
    requires ValidBoard(b)
  {
    var ti := TagIndex(b.screen);
    && F.IsFirstVisible(b.stack, Visible(b), r.keyboard) && Focused(b, r, r.keyboard)
    && |r.trees| == TAG_COUNT && (forall t | 0 <= t < TAG_COUNT && t != ti :: r.trees[t] == b.trees[t])
    && |r.anchors| == TAG_COUNT
    && (WellFormed(b.trees[ti]) && CountTiles(b.clients, b.screen) > 0
        && !SelfAnchored(b.trees[ti], b.clients, b.screen, r.anchors[ti]) ==>
          WellFormed(r.trees[ti]) && InStep(r.trees[ti], b.clients, b.screen))
  }

  lemma RefocusEffect(b: Board, slots: seq<(Node, Node)>, cfg: Config)
    requires ValidBoard(b) && |slots| == |b.clients|
    ensures Arranged(b, Refocus(b, slots, cfg))
  {
    TopIs(b);
    FocusEffect(b, Top(b));
    var ti, f := TagIndex(b.screen), Focus(b, Top(b));
    if WellFormed(b.trees[ti]) && CountTiles(b.clients, b.screen) > 0
       && !SelfAnchored(b.trees[ti], b.clients, b.screen, f.anchors[ti]) {
      ReconcileSteps(b.trees[ti], slots, b.clients, b.screen, f.anchors[ti], cfg);
    }
  }

  // ----- the tag functions ---------------------------------------------------------------

  /** Only the tag sets and their selection differ. */
  predicate SameMonitor(m: Screen, n: Screen) {
    && n.id == m.id && n.scratchpadVisible == m.scratchpadVisible && n.gaps == m.gaps && n.area == m.area
    && |n.tagset| == 2
  }

  /** The mask, cut to the tags, is what the monitor shows. */
  ghost predicate InView(m: Screen, ui: Word)
    requires ValidScreen(m)
  {
    forall t: nat :: t in m.tagset[m.selected] <==> t in ui && t < TAG_COUNT
  }

  /** The other slot is selected; it holds the mask, or what it held before if the mask is empty. */
  ghost predicate SlotChanged(m: Screen, n: Screen, ui: Word)
    requires ValidScreen(m)
  {
    && SameMonitor(m, n) && n.selected == 1 - m.selected && n.tagset[m.selected] == m.tagset[m.selected]
    && if exists t :: t in ui && t < TAG_COUNT then InView(n, ui)
       else n.tagset[n.selected] == m.tagset[n.selected]
  }

  /** `view`: nothing if the mask is in view already; else the slot changes, and the monitor is arranged. */
  lemma ViewEffect(b: Board, ui: Word, slots: seq<(Node, Node)>, cfg: Config)
    requires ValidBoard(b) && |slots| == |b.clients|
    ensures var r := View(b, ui, slots, cfg);
            if InView(b.screen, ui) then r == b
            else SlotChanged(b.screen, r.screen, ui) && Arranged(b.(screen := r.screen), r)
  {
    var cut := And(ui, TAG_MASK);
    assert forall t: nat :: t in cut <==> t in ui && t < TAG_COUNT;
    if !InView(b.screen, ui) {
      var v := b.(screen := ViewScreen(b.screen, ui));
      RefocusEffect(v, slots, cfg);
      assert View(b, ui, slots, cfg) == Refocus(v, slots, cfg);
    }
  }

  /** Exactly the tags of the mask have been flipped in the selected slot. */
  ghost predicate Flipped(m: Screen, n: Screen, ui: Word)
    requires ValidScreen(m)
  {
    && SameMonitor(m, n) && n.selected == m.selected && n.tagset[1 - m.selected] == m.tagset[1 - m.selected]
    && forall t: nat :: t in n.tagset[n.selected] <==>
         if t in ui && t < TAG_COUNT then t !in m.tagset[m.selected] else t in m.tagset[m.selected]
  }

  /** `toggleview`: nothing if no tag would be left in view; else the tags of the mask are flipped. */
  lemma ToggleViewEffect(b: Board, ui: Word, slots: seq<(Node, Node)>, cfg: Config)
    requires ValidBoard(b) && |slots| == |b.clients|
    ensures var r := ToggleView(b, ui, slots, cfg);
            if InView(b.screen, ui) then r == b
            else Flipped(b.screen, r.screen, ui) && Arranged(b.(screen := r.screen), r)
  {
    var m, cut := b.screen, And(ui, TAG_MASK);
    assert forall t: nat :: t in cut <==> t in ui && t < TAG_COUNT;
    var tags := Xor(m.tagset[m.selected], cut);
    assert forall t: nat :: t in tags <==> (t in cut <==> t !in m.tagset[m.selected]);
    if InView(m, ui) {
      assert tags == {};
    } else {
      var t: nat :| !(t in m.tagset[m.selected] <==> t in ui && t < TAG_COUNT);
      assert t in tags;
      var v := b.(screen := m.(tagset := m.tagset[m.selected := tags]));
      RefocusEffect(v, slots, cfg);
      assert ToggleView(b, ui, slots, cfg) == Refocus(v, slots, cfg);
    }
  }

  /** The windows of `c`, and no others, have the mask, cut to the tags, as their tags. */
  ghost predicate GotTags(ws: seq<Window>, vs: seq<Window>, c: Client, ui: Word) {
    && |vs| == |ws|
    && forall i | 0 <= i < |ws| ::
         if ws[i].id == c
         then vs[i] == ws[i].(tags := vs[i].tags) && forall t: nat :: t in vs[i].tags <==> t in ui && t < TAG_COUNT
         else vs[i] == ws[i]
  }

  /** `tag` does something: the mask has a tag, and the top client exists and is no scratchpad. */
  ghost predicate Taggable(b: Board, c: Client, ui: Word) {
    && c != NULL && (exists t :: t in ui && t < TAG_COUNT)
    && forall i | 0 <= i < |b.clients| && b.clients[i].id == c :: !b.clients[i].scratchpad
  }

  lemma RetagEffect(ws: seq<Window>, c: Client, ui: Word)
    requires ValidList(ws)
    ensures ValidList(Retag(ws, c, And(ui, TAG_MASK))) && GotTags(ws, Retag(ws, c, And(ui, TAG_MASK)), c, ui)
  {
    assert forall t: nat :: t in And(ui, TAG_MASK) <==> t in ui && t < TAG_COUNT;
  }

  /** The client has left every tree, no other client has, and nothing else has changed. */
  ghost predicate Forgotten(b: Board, x: Board, c: Client)
    requires ValidBoard(b)
  {
    && |x.trees| == TAG_COUNT && x == b.(trees := x.trees)
    && forall t | 0 <= t < TAG_COUNT ::
         && InBounds(x.trees[t])
         && (WellFormed(b.trees[t]) ==>
               WellFormed(x.trees[t]) && forall d :: Absent(x.trees[t], d) <==> d == c || Absent(b.trees[t], d))
  }

  lemma ForgetEffect(b: Board, c: Client)
    requires ValidBoard(b)
    ensures Forgotten(b, Forget(b, c), c)
  {
    var x := Forget(b, c);
    forall t | 0 <= t < TAG_COUNT
      ensures && InBounds(x.trees[t])
              && (WellFormed(b.trees[t]) ==>
                    WellFormed(x.trees[t]) && forall d :: Absent(x.trees[t], d) <==> d == c || Absent(b.trees[t], d))
    {
      if WellFormed(b.trees[t]) {
        RemoveKeepsShape(b.trees[t], c);
      }
    }
  }

  /**
   * `tag`: the first visible client of the focus list leaves the tree of every tag and gets the mask as
   * its tags; then the monitor is arranged.
   */
  lemma TagEffect(b: Board, ui: Word, slots: seq<(Node, Node)>, cfg: Config) returns (c: Client, x: Board)
    requires ValidBoard(b) && |slots| == |b.clients|
    ensures F.IsFirstVisible(b.stack, Visible(b), c)
    ensures !Taggable(b, c, ui) ==> Tag(b, ui, slots, cfg) == b
    ensures Taggable(b, c, ui) ==>
              && Forgotten(b, x.(clients := b.clients), c) && GotTags(b.clients, x.clients, c, ui)
              && ValidBoard(x) && Arranged(x, Tag(b, ui, slots, cfg))
  {
    TopIs(b);
    c := Top(b);
    ForgetEffect(b, c);
    RetagEffect(b.clients, c, ui);
    assert forall t: nat :: t in And(ui, TAG_MASK) <==> t in ui && t < TAG_COUNT;
    var f, ws := Forget(b, c), Retag(b.clients, c, And(ui, TAG_MASK));
    x := f.(clients := ws);
    assert x.(clients := b.clients) == f;
    RefocusEffect(x, slots, cfg);
    if Taggable(b, c, ui) {
      assert Tag(b, ui, slots, cfg) == Refocus(x, slots, cfg);
    }
  }
}

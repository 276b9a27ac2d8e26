// How the focus anchor of a tag comes about: `focusclient` records it before `arrange` runs, so that
// a window can be its own anchor when `dwindle` adds it.

module DwindleFocus {
  import opened Boxes
  import opened ClientIds
  import opened Lists
  import opened TagWords
  import opened DwindleNodes
  import opened DwindleShape
  import opened DwindleAbstraction
  import opened Windows
  import opened DwindleReconcile
  import F = FocusMirror

  // ----- the tag whose tree is in use ----------------------------------------------------

  function FirstBit(tags: Word, from: nat): (i: nat)
    requires exists j :: j in tags && j >= from
    ensures i in tags && i >= from && forall j | j in tags && j >= from :: i <= j
    decreases WIDTH - from
  {
    if from in tags then from else FirstBit(tags, from + 1)
  }

  function ShownMask(m: Screen): Word
    requires ValidScreen(m)
  {
    And(m.tagset[m.selected], TAG_MASK)
  }

  /** `current_tag_idx`: the lowest tag in view, tag 1 if there is none. */
  function TagIndex(m: Screen): (i: nat)
    requires ValidScreen(m)
    ensures i < TAG_COUNT
    ensures if ShownMask(m) == {} then i == 0 else i in ShownMask(m) && forall j | j in ShownMask(m) :: i <= j
  {
    if ShownMask(m) == {} then 0
    else
      var j :| j in ShownMask(m);
      FirstBit(ShownMask(m), 0)
  }

  /** `tags >>= 1` */
  function ShiftDown(tags: Word): Word {
    set i | i in tags && i > 0 :: i - 1
  }

  lemma ShiftDownIs(tags: Word, i: nat)
    ensures i in ShiftDown(tags) <==> i + 1 in tags
  {
    if i + 1 in tags {
      assert (i + 1) - 1 in ShiftDown(tags);
    }
  }

  /** Shifting out a cleared bit moves the lowest bit down by one. */
  lemma FirstBitShift(tags: Word)
    requires tags != {} && 0 !in tags
    ensures exists j :: j in tags && j >= 0
    ensures exists j :: j in ShiftDown(tags) && j >= 0
    ensures FirstBit(ShiftDown(tags), 0) + 1 == FirstBit(tags, 0)
  {
    var j :| j in tags;
    ShiftDownIs(tags, j - 1);
    assert j - 1 in ShiftDown(tags);
    var i, k := FirstBit(ShiftDown(tags), 0), FirstBit(tags, 0);
    ShiftDownIs(tags, i);
    ShiftDownIs(tags, k - 1);
  }

  method CurrentTagIndex(m: Screen) returns (idx: nat)
    requires ValidScreen(m)
    ensures idx == TagIndex(m)
  {
    var tags := ShownMask(m);
    if tags == {} {
      return 0;
    }
    idx := 0;
    while 0 !in tags
      invariant exists j :: j in tags && j >= 0
      invariant FirstBit(tags, 0) + idx == TagIndex(m)
      decreases FirstBit(tags, 0)
    {
      FirstBitShift(tags);
      tags := ShiftDown(tags);
      idx := idx + 1;
    }
    // The source's fallback for an index past the last tag cannot be reached.
    assert idx < TAG_COUNT;
  }

  // ----- one monitor ---------------------------------------------------------------------

  /**
   * One monitor with its trees and anchors per tag, the client list, the focus list, and the client
   * whose surface has the keyboard.
   */
  datatype Board = Board(clients: seq<Window>, stack: seq<Client>, keyboard: Client, screen: Screen,
                         trees: seq<seq<Node>>, anchors: seq<Client>)

  ghost predicate ValidBoard(b: Board) {
    && ValidScreen(b.screen) && ValidList(b.clients)
    && |b.trees| == TAG_COUNT && |b.anchors| == TAG_COUNT
    && forall i | 0 <= i < TAG_COUNT :: InBounds(b.trees[i])
  }

  function Visible(b: Board): set<Client>
    requires ValidScreen(b.screen)
  {
    set i | 0 <= i < |b.clients| && VisibleOn(b.clients[i], b.screen) :: b.clients[i].id
  }

  /** `focustop` */
  function Top(b: Board): Client
    requires ValidScreen(b.screen)
  {
    F.FirstVisible(b.stack, Visible(b))
  }

  /** `c` is a client of this monitor that neither floats nor is fullscreen. */
  predicate Anchors(b: Board, c: Client) {
    exists i | 0 <= i < |b.clients| ::
      b.clients[i].id == c && b.clients[i].mon == b.screen.id && !b.clients[i].floating && !b.clients[i].fullscreen
  }

  /** `focusclient`: nothing if the client has the keyboard already; else the focus is recorded. */
  function Focus(b: Board, c: Client): Board
    requires ValidScreen(b.screen) && |b.anchors| == TAG_COUNT
  {
    if c == NULL then b.(keyboard := NULL)
    else if c == b.keyboard then b
    else b.(stack := F.ToFront(b.stack, c), keyboard := c,
            anchors := if Anchors(b, c) then b.anchors[TagIndex(b.screen) := c] else b.anchors)
  }

  /** `arrange` in the dwindle layout. */
  ghost function Arrange(b: Board, slots: seq<(Node, Node)>, cfg: Config): Board
    requires ValidBoard(b) && |slots| == |b.clients|
  {
    var ti := TagIndex(b.screen);
    b.(trees := b.trees[ti := Reconcile(b.trees[ti], slots, b.clients, b.screen, b.anchors[ti], cfg)])
  }

  /** The end that `view`, `toggleview` and `tag` share: focus the top, then arrange. */
  ghost function Refocus(b: Board, slots: seq<(Node, Node)>, cfg: Config): Board
    requires ValidBoard(b) && |slots| == |b.clients|
  {
    Arrange(Focus(b, Top(b)), slots, cfg)
  }

  /** The screen that `view` leaves. */
  function ViewScreen(m: Screen, ui: Word): (r: Screen)
    requires ValidScreen(m)
    ensures ValidScreen(r)
  {
    var other := m.(selected := 1 - m.selected);
    if And(ui, TAG_MASK) != {} then other.(tagset := other.tagset[other.selected := And(ui, TAG_MASK)]) else other
  }

  ghost function View(b: Board, ui: Word, slots: seq<(Node, Node)>, cfg: Config): Board
    requires ValidBoard(b) && |slots| == |b.clients|
  {
    if And(ui, TAG_MASK) == b.screen.tagset[b.screen.selected] then b
    else Refocus(b.(screen := ViewScreen(b.screen, ui)), slots, cfg)
  }

  ghost function ToggleView(b: Board, ui: Word, slots: seq<(Node, Node)>, cfg: Config): Board
    requires ValidBoard(b) && |slots| == |b.clients|
  {
    var tags := Xor(b.screen.tagset[b.screen.selected], And(ui, TAG_MASK));
    if tags == {} then b
    else Refocus(b.(screen := b.screen.(tagset := b.screen.tagset[b.screen.selected := tags])), slots, cfg)
  }

  function Retag(ws: seq<Window>, c: Client, tags: Word): (r: seq<Window>)
    ensures |r| == |ws|
  {
    seq(|ws|, i requires 0 <= i < |ws| => if ws[i].id == c then ws[i].(tags := tags) else ws[i])
  }

  /** `dwindle_remove_client`: out of the tree of every tag. */
  function Forget(b: Board, c: Client): Board
    requires |b.trees| == TAG_COUNT && forall i | 0 <= i < TAG_COUNT :: InBounds(b.trees[i])
  {
    b.(trees := seq(TAG_COUNT, i requires 0 <= i < TAG_COUNT => Remove(b.trees[i], c)))
  }

  /** `tag`: the top client gets other tags. */
  ghost function Tag(b: Board, ui: Word, slots: seq<(Node, Node)>, cfg: Config): Board
    requires ValidBoard(b) && |slots| == |b.clients|
  {
    var c, tags := Top(b), And(ui, TAG_MASK);
    if c == NULL || tags == {} || (exists i :: 0 <= i < |b.clients| && b.clients[i].id == c && b.clients[i].scratchpad)
    then b
    else Refocus(Forget(b, c).(clients := Retag(b.clients, c, tags)), slots, cfg)
  }

  // ----- exactly when a tree breaks ------------------------------------------------------

  /** The anchor that `dwindle` reads: the client that has just got the focus, or the old anchor. */
  lemma FocusAnchor(b: Board, c: Client)
    requires ValidScreen(b.screen) && |b.anchors| == TAG_COUNT
    ensures var ti := TagIndex(b.screen);
            Focus(b, c).anchors[ti] == if c != NULL && c != b.keyboard && Anchors(b, c) then c else b.anchors[ti]
  {
  }

  /**
   * Focusing the top and arranging keeps the tree in view well formed exactly unless the first window
   * to be added is the client that gets the focus (or, if the focus does not change, the old anchor)
   * and some client of the tree stays.
   */
  lemma RefocusKeepsShape(b: Board, slots: seq<(Node, Node)>, cfg: Config)
    requires ValidBoard(b) && |slots| == |b.clients| && WellFormed(b.trees[TagIndex(b.screen)])
    ensures var ti := TagIndex(b.screen);
            var s, c := b.trees[ti], Top(b);
            var added := Newcomers(s, b.clients, b.screen);
            var anchor := if c != NULL && c != b.keyboard && Anchors(b, c) then c else b.anchors[ti];
            WellFormed(Refocus(b, slots, cfg).trees[ti]) <==>
            added == [] || added[0] != anchor || !SomeoneStays(s, b.clients, b.screen)
  {
    var ti := TagIndex(b.screen);
    var f := Focus(b, Top(b));
    FocusAnchor(b, Top(b));
    ReconcileKeepsShape(b.trees[ti], slots, b.clients, b.screen, f.anchors[ti], cfg);
  }

  // ----- a run that reaches it -----------------------------------------------------------

  /** `w` is the only window in view, and the one focused last. */
  ghost predicate Alone(b: Board, w: Client) {
    && ValidBoard(b) && w != NULL && Visible(b) == {w} && b.stack != [] && b.stack[0] == w
    && forall i | 0 <= i < |b.clients| && b.clients[i].id == w ::
         !b.clients[i].floating && !b.clients[i].fullscreen && !b.clients[i].scratchpad
  }

  /** Tag `t` is out of view; its tree is in step with its windows, has some, and `w` is not one. */
  ghost predicate Occupied(b: Board, t: nat, w: Client)
    requires ValidBoard(b) && t < TAG_COUNT
  {
    && WellFormed(b.trees[t]) && |b.trees[t]| > 0 && Absent(b.trees[t], w)
    && InStep(b.trees[t], b.clients, ViewScreen(b.screen, Bit(t)))
    && t !in b.screen.tagset[b.screen.selected]
  }

  /** The board after `tag`: nothing is in view, no client has the keyboard, tag `t`'s tree is as it was. */
  lemma TagLeaves(b: Board, w: Client, t: nat, slots: seq<(Node, Node)>, cfg: Config)
    requires t < TAG_COUNT && Alone(b, w) && Occupied(b, t, w) && |slots| == |b.clients|
    ensures var b1 := Tag(b, Bit(t), slots, cfg);
            && ValidBoard(b1) && b1.clients == Retag(b.clients, w, Bit(t)) && b1.keyboard == NULL
            && b1.stack == b.stack && b1.screen == b.screen && b1.trees[t] == b.trees[t]
  {
    BitMasks(t);
    assert Top(b) == w;
    var ws := Retag(b.clients, w, Bit(t));
    RetagValid(b.clients, w, Bit(t));
    RetaggedAway(b, w, t);
    var c := Forget(b, w).(clients := ws);
    PresentIsFound(b.trees[t], w);
    NoneVisible(c.stack);
    CountTilesIs(ws, b.screen);
    assert Focus(c, Top(c)) == c.(keyboard := NULL);
  }

  /** Once `w` has another tag, nothing is in view. */
  lemma RetaggedAway(b: Board, w: Client, t: nat)
    requires t < TAG_COUNT && Alone(b, w) && t !in b.screen.tagset[b.screen.selected]
    ensures var ws := Retag(b.clients, w, Bit(t));
            && (forall i | 0 <= i < |ws| :: !VisibleOn(ws[i], b.screen))
            && Visible(b.(clients := ws)) == {}
  {
    var ws := Retag(b.clients, w, Bit(t));
    forall i | 0 <= i < |ws| ensures !VisibleOn(ws[i], b.screen) {
      assert b.clients[i].id in Visible(b) <==> VisibleOn(b.clients[i], b.screen) || b.clients[i].id == w;
    }
  }

  lemma RetagValid(ws: seq<Window>, c: Client, tags: Word)
    requires ValidList(ws)
    ensures ValidList(Retag(ws, c, tags))
  {
  }

  lemma {:induction false} NoneVisible(stack: seq<Client>)
    ensures F.FirstVisible(stack, {}) == NULL
  {
    if stack == [] {
    } else {
      NoneVisible(stack[1..]);
    }
  }

  /** If `w` is the only window without a leaf, it is the only newcomer. */
  lemma {:induction false} OnlyNewcomer(s: seq<Node>, ws: seq<Window>, m: Screen, w: Client)
    requires ValidScreen(m) && ValidList(ws)
    requires forall i | 0 <= i < |ws| :: Missing(s, ws[i], m) <==> ws[i].id == w
    ensures Newcomers(s, ws, m) == if exists i :: 0 <= i < |ws| && ws[i].id == w then [w] else []
  {
    if ws == [] {
    } else {
      ValidTail(ws);
      assert forall i | 0 <= i < |ws[1..]| :: ws[1..][i] == ws[i + 1];
      OnlyNewcomer(s, ws[1..], m, w);
      if i :| 0 <= i < |ws| && ws[i].id == w {
        assert i > 0 ==> ws[1..][i - 1].id == w;
      }
    }
  }

  /** Once `w` is on tag `t`, it is the only window of the tag without a leaf. */
  lemma TagNewcomers(b: Board, w: Client, t: nat)
    requires t < TAG_COUNT && Alone(b, w) && Occupied(b, t, w)
    ensures var ws, m := Retag(b.clients, w, Bit(t)), ViewScreen(b.screen, Bit(t));
            && ValidList(ws) && Newcomers(b.trees[t], ws, m) == [w] && SomeoneStays(b.trees[t], ws, m)
  {
    var s, ws, m := b.trees[t], Retag(b.clients, w, Bit(t)), ViewScreen(b.screen, Bit(t));
    RetagValid(b.clients, w, Bit(t));
    assert And(Bit(t), TAG_MASK) == Bit(t) && t in And(Bit(t), Bit(t));
    assert w in Visible(b);
    var k :| 0 <= k < |b.clients| && b.clients[k].id == w && VisibleOn(b.clients[k], b.screen);
    assert ws[k].id == w && VisibleOn(ws[k], m);
    forall i | 0 <= i < |ws| ensures Missing(s, ws[i], m) <==> ws[i].id == w {
      PresentIsFound(s, ws[i].id);
      if ws[i].id == w {
        assert i == k;
      } else {
        assert ws[i] == b.clients[i];
      }
    }
    OnlyNewcomer(s, ws, m, w);
    HasLeaf(s);
    var l :| IsLeaf(s, l);
    var c := s[l].client;
    assert Holds(s, l, c) && c != w && !Absent(s, c);
    assert StaysListed(b.clients, m, c);
    var i :| 0 <= i < |b.clients| && b.clients[i].id == c && Stays(b.clients[i], m);
    assert ws[i] == b.clients[i];
    assert StaysListed(ws, m, c);
  }

  /** Viewing tag `t` gives the focus to `w`, which becomes the anchor that `dwindle` then reads. */
  lemma ViewRecords(b: Board, w: Client, t: nat, k: nat, slots: seq<(Node, Node)>, cfg: Config)
    requires ValidBoard(b) && t < TAG_COUNT && |slots| == |b.clients| && k < |b.clients|
    requires w != NULL && b.stack != [] && b.stack[0] == w && b.keyboard == NULL
    requires b.clients[k].id == w && b.clients[k].mon == b.screen.id && b.clients[k].tags == Bit(t)
    requires !b.clients[k].floating && !b.clients[k].fullscreen && !b.clients[k].scratchpad
    requires t !in b.screen.tagset[b.screen.selected]
    ensures View(b, Bit(t), slots, cfg).trees ==
            b.trees[t := Reconcile(b.trees[t], slots, b.clients, ViewScreen(b.screen, Bit(t)), w, cfg)]
  {
    BitMasks(t);
    var v := b.(screen := ViewScreen(b.screen, Bit(t)));
    assert ShownMask(v.screen) == Bit(t) && TagIndex(v.screen) == t;
    assert VisibleOn(v.clients[k], v.screen);
    assert w in Visible(v) && Top(v) == w && Anchors(v, w);
  }

  lemma BitMasks(t: nat)
    requires t < TAG_COUNT
    ensures And(Bit(t), TAG_MASK) == Bit(t) && And(Bit(t), Bit(t)) == Bit(t) && t in Bit(t)
  {
  }

  /**
   * The last focused window, alone in view, is moved with `tag` to a tag that has windows, and that tag
   * is viewed: its tree is then broken, and removing the window (as `unmapnotify` does) leaves the
   * arrays.
   */
  lemma TagThenView(b: Board, w: Client, t: nat, slots: seq<(Node, Node)>, slots': seq<(Node, Node)>, cfg: Config)
    requires t < TAG_COUNT && Alone(b, w) && Occupied(b, t, w)
    requires |slots| == |slots'| == |b.clients|
    ensures var b1 := Tag(b, Bit(t), slots, cfg);
            && ValidBoard(b1) && |b1.clients| == |b.clients|
            && var b2 := View(b1, Bit(t), slots', cfg);
            && |b2.trees| == TAG_COUNT && InBounds(b2.trees[t])
            && Broken(b2.trees[t]) && !StaysInside(b2.trees[t], w)
  {
    TagLeaves(b, w, t, slots, cfg);
    TagNewcomers(b, w, t);
    var b1 := Tag(b, Bit(t), slots, cfg);
    assert w in Visible(b);
    var k :| 0 <= k < |b.clients| && b.clients[k].id == w && VisibleOn(b.clients[k], b.screen);
    assert b1.clients[k] == b.clients[k].(tags := Bit(t));
    ViewRecords(b1, w, t, k, slots', cfg);
    SelfAnchoredThenRemove(b.trees[t], slots', b1.clients, ViewScreen(b.screen, Bit(t)), w, cfg);
  }

  const LEAF := Node(-1, -1, -1, 1, ZERO_BOX, false, false)

  /** Window 1 tiled on tag 1; window 2 on tag 2, which is in view; window 2 focused last. */
  const EXAMPLE := Board(
    [Window(2, 0, Bit(1), false, false, false), Window(1, 0, Bit(0), false, false, false)], [2, 1], 2,
    Screen(0, [Bit(0), Bit(1)], 1, false, false, Box(0, 0, 100, 100)),
    [[LEAF], [LEAF.(client := 2)], [], [], [], [], [], [], []], [1, 2, 0, 0, 0, 0, 0, 0, 0])

  /** The situation of `TagThenView` is an everyday one: two windows, each alone on its tag. */
  lemma ExampleApplies()
    ensures Alone(EXAMPLE, 2) && Occupied(EXAMPLE, 0, 2)
  {
    var ws, m := EXAMPLE.clients, EXAMPLE.screen;
    assert 1 in And(Bit(1), Bit(1)) && VisibleOn(ws[0], m);
    assert And(Bit(0), Bit(1)) == {} && !VisibleOn(ws[1], m);
    var s, v := EXAMPLE.trees[0], ViewScreen(m, Bit(0));
    BitMasks(0);
    assert VisibleOn(ws[1], v) && !VisibleOn(ws[0], v) && Stays(ws[1], v);
    assert Holds(s, 0, 1) && forall i, c | Holds(s, i, c) :: c == 1;
    assert StaysListed(ws, v, 1);
    FindRootIs(s, 0);
  }
}

// Rectangles: the single index-order pass of `dwindle_recalc` computes the top-down layout of the
// abstract tree.

module DwindleLayout {
  import opened Boxes
  import opened ClientIds
  import opened Lists
  import opened DwindleNodes
  import opened DwindleShape
  import opened DwindleAbstraction

  /** The body of the first loop of `dwindle_recalc`, at index `i`. */
  function RecalcAt(s: seq<Node>, i: int, gap: int): (r: seq<Node>)
    requires InBounds(s) && 0 <= i < |s|
    ensures |r| == |s|
  {
    var n := s[i];
    if !n.isNode || n.child0 < 0 || n.child1 < 0 then s
    else
      var t := s[i := n.(splitTop := SplitsTop(n.box))];
      var u := t[n.child0 := t[n.child0].(box := FirstHalf(n.box, gap))];
      var rest := Remainder(u[i].box, SplitsTop(n.box), FirstLength(LongSide(n.box), gap), gap);
      u[n.child1 := u[n.child1].(box := rest)]
  }

  /** Two arrays that differ in boxes and split directions only. */
  predicate SameLinks(s: seq<Node>, t: seq<Node>) {
    && |s| == |t|
    && forall i | 0 <= i < |s| :: t[i].(box := s[i].box, splitTop := s[i].splitTop) == s[i]
  }

  lemma SameLinksInBounds(s: seq<Node>, t: seq<Node>)
    requires SameLinks(s, t) && InBounds(s)
    ensures InBounds(t)
  {
    forall i | 0 <= i < |s|
      ensures t[i].child0 == s[i].child0 && t[i].child1 == s[i].child1 && t[i].parent == s[i].parent
    {
      assert t[i].(box := s[i].box, splitTop := s[i].splitTop) == s[i];
    }
  }

  lemma RecalcAtInBounds(s: seq<Node>, i: int, gap: int)
    requires InBounds(s) && 0 <= i < |s|
    ensures SameLinks(s, RecalcAt(s, i, gap)) && InBounds(RecalcAt(s, i, gap))
  {
    SameLinksInBounds(s, RecalcAt(s, i, gap));
  }

  /** The pass from index `i` on. */
  function RecalcFrom(s: seq<Node>, i: nat, gap: int): (r: seq<Node>)
    requires InBounds(s) && i <= |s|
    ensures SameLinks(s, r)
    decreases |s| - i
  {
    if i == |s| then s
    else
      SameLinksInBounds(s, RecalcAt(s, i, gap));
      RecalcFrom(RecalcAt(s, i, gap), i + 1, gap)
  }

  function Recalc(s: seq<Node>, gap: int): (r: seq<Node>)
    requires InBounds(s)
    ensures SameLinks(s, r)
  {
    RecalcFrom(s, 0, gap)
  }

  /** The calls of `resize` that the second loop makes, from index `i` on. */
  function ResizesFrom(s: seq<Node>, i: nat, fullscreen: set<Client>): seq<(Client, Box)>
    requires i <= |s|
    decreases |s| - i
  {
    if i == |s| then [] else ResizeOf(s[i], fullscreen) + ResizesFrom(s, i + 1, fullscreen)
  }

  function ResizeOf(n: Node, fullscreen: set<Client>): seq<(Client, Box)> {
    if !n.isNode && n.client != NULL && n.client !in fullscreen then [(n.client, n.box)] else []
  }

  function Resizes(s: seq<Node>, fullscreen: set<Client>): seq<(Client, Box)> {
    ResizesFrom(s, 0, fullscreen)
  }

  lemma {:induction false} ResizesFromIs(s: seq<Node>, i: nat, fullscreen: set<Client>, c: Client, b: Box)
    requires i <= |s|
    ensures (c, b) in ResizesFrom(s, i, fullscreen) <==>
            exists k :: i <= k && Holds(s, k, c) && s[k].box == b && c != NULL && c !in fullscreen
    decreases |s| - i
  {
    if i == |s| {
    } else {
      ResizesFromIs(s, i + 1, fullscreen, c, b);
      assert Holds(s, i, s[i].client) <==> !s[i].isNode;
      if k :| i <= k && Holds(s, k, c) && s[k].box == b && c != NULL && c !in fullscreen {
        assert k == i || i + 1 <= k;
      }
    }
  }

  // ----- links are not affected ----------------------------------------------------------

  lemma SameLinksLinked(s: seq<Node>, t: seq<Node>)
    requires SameLinks(s, t) && AllLinked(s)
    ensures AllLinked(t) && forall i | 0 <= i < |s| :: t[i].parent == s[i].parent
  {
    forall i | 0 <= i < |t| ensures LinkOk(t, i) && t[i].parent == s[i].parent {
      assert LinkOk(s, i);
      SameLink(s, t, i);
      if s[i].isNode {
        SameLink(s, t, s[i].child0);
        SameLink(s, t, s[i].child1);
      }
      if s[i].parent >= 0 {
        SameLink(s, t, s[i].parent);
      }
    }
    LinksInBounds(t);
  }

  lemma SameLinksWellFormed(s: seq<Node>, t: seq<Node>)
    requires SameLinks(s, t) && WellFormed(s)
    ensures WellFormed(t) && FindRoot(t) == FindRoot(s)
    ensures forall i, c :: Holds(t, i, c) <==> Holds(s, i, c)
  {
    SameLinksLinked(s, t);
    if |s| > 0 {
      FindRootIs(t, FindRoot(s));
    }
    forall i, c ensures Holds(t, i, c) <==> Holds(s, i, c) {
      if 0 <= i < |s| {
        SameLink(s, t, i);
      }
    }
    forall i, j | IsLeaf(t, i) && IsLeaf(t, j) && t[i].client == t[j].client ensures i == j {
      assert Holds(s, i, t[i].client) && Holds(s, j, t[i].client);
    }
  }

  lemma SameLink(s: seq<Node>, t: seq<Node>, i: int)
    requires SameLinks(s, t) && 0 <= i < |s|
    ensures t[i].child0 == s[i].child0 && t[i].child1 == s[i].child1 && t[i].parent == s[i].parent
    ensures t[i].isNode == s[i].isNode && t[i].client == s[i].client
  {
    assert t[i].(box := s[i].box, splitTop := s[i].splitTop) == s[i];
  }

  lemma {:induction false} SameBelow(s: seq<Node>, t: seq<Node>, i: int)
    requires SameLinks(s, t) && AllLinked(s) && AllLinked(t) && 0 <= i < |s|
    ensures Below(t, i) == Below(s, i)
    decreases if s[i].isNode then |s| - i else 0
  {
    SameLink(s, t, i);
    assert LinkOk(s, i);
    if !s[i].isNode {
    } else {
      SameBelow(s, t, s[i].child0);
      SameBelow(s, t, s[i].child1);
    }
  }

  lemma SameLinksAbstract(s: seq<Node>, t: seq<Node>)
    requires SameLinks(s, t) && WellFormed(s)
    ensures WellFormed(t) && Order(t) == Order(s) && (|s| > 0 ==> Abstract(t) == Abstract(s))
  {
    SameLinksWellFormed(s, t);
    if |s| > 0 {
      SameBelow(s, t, FindRoot(s));
    }
  }

  // ----- one pass is enough --------------------------------------------------------------

  /** The children of internal entry `i` have the two halves of its box. */
  ghost predicate LaidOutAt(s: seq<Node>, i: int, gap: int)
    requires InBounds(s) && 0 <= i < |s|
  {
    var n := s[i];
    n.isNode && n.child0 >= 0 && n.child1 >= 0 ==>
      && s[n.child0].box == FirstHalf(n.box, gap)
      && s[n.child1].box == SecondHalf(n.box, gap)
      && n.splitTop == SplitsTop(n.box)
  }

  ghost predicate LaidOut(s: seq<Node>, gap: int)
    requires InBounds(s)
  {
    forall i | 0 <= i < |s| :: LaidOutAt(s, i, gap)
  }

  /** Step `i` lays out entry `i` and, because of the index order, disturbs no earlier entry. */
  lemma RecalcAtLaysOut(s: seq<Node>, i: int, gap: int)
    requires AllLinked(s) && 0 <= i < |s|
    requires forall j | 0 <= j < i :: LaidOutAt(s, j, gap)
    ensures var r := RecalcAt(s, i, gap);
            && SameLinks(s, r) && InBounds(r)
            && (forall j | 0 <= j <= i :: LaidOutAt(r, j, gap))
  {
    var r := RecalcAt(s, i, gap);
    assert LinkOk(s, i);
    SameLinksInBounds(s, r);
    forall j | 0 <= j <= i ensures LaidOutAt(r, j, gap) {
      assert LinkOk(s, j);
      if j < i {
        assert LaidOutAt(s, j, gap);
      }
    }
  }

  lemma {:induction false} RecalcFromLaysOut(s: seq<Node>, i: nat, gap: int)
    requires AllLinked(s) && i <= |s|
    requires forall j | 0 <= j < i :: LaidOutAt(s, j, gap)
    ensures InBounds(RecalcFrom(s, i, gap)) && LaidOut(RecalcFrom(s, i, gap), gap)
    decreases |s| - i
  {
    if i == |s| {
    } else {
      RecalcAtLaysOut(s, i, gap);
      SameLinksLinked(s, RecalcAt(s, i, gap));
      RecalcFromLaysOut(RecalcAt(s, i, gap), i + 1, gap);
    }
  }

  /** A step writes the boxes of children only. */
  lemma RecalcAtRoot(s: seq<Node>, i: int, gap: int, root: int)
    requires AllLinked(s) && 0 <= i < |s| && 0 <= root < |s| && s[root].parent < 0
    ensures SameLinks(s, RecalcAt(s, i, gap)) && AllLinked(RecalcAt(s, i, gap))
    ensures RecalcAt(s, i, gap)[root].box == s[root].box && RecalcAt(s, i, gap)[root].parent < 0
  {
    assert LinkOk(s, i);
    SameLinksLinked(s, RecalcAt(s, i, gap));
  }

  lemma {:induction false} RecalcKeepsRootBox(s: seq<Node>, i: nat, gap: int, root: int)
    requires AllLinked(s) && i <= |s| && 0 <= root < |s| && s[root].parent < 0
    ensures RecalcFrom(s, i, gap)[root].box == s[root].box
    decreases |s| - i
  {
    if i == |s| {
    } else {
      RecalcAtRoot(s, i, gap, root);
      RecalcKeepsRootBox(RecalcAt(s, i, gap), i + 1, gap, root);
    }
  }

  /** A tree that is already laid out is not changed by another pass. */
  lemma {:induction false} RecalcFromStable(s: seq<Node>, i: nat, gap: int)
    requires InBounds(s) && i <= |s| && LaidOut(s, gap)
    ensures RecalcFrom(s, i, gap) == s
    decreases |s| - i
  {
    if i == |s| {
    } else {
      assert LaidOutAt(s, i, gap);
      assert RecalcAt(s, i, gap) == s;
      RecalcFromStable(s, i + 1, gap);
    }
  }

  // ----- the reference: top-down layout of the abstract tree -----------------------------

  /** The clients of a tree with their boxes, in tree order, when the tree fills `b`. */
  function Layout(t: Tree, b: Box, gap: int): (r: seq<(Client, Box)>)
    ensures |r| == |Leaves(t)|
    ensures forall i | 0 <= i < |r| :: r[i].0 == Leaves(t)[i]
  {
    match t
    case Leaf(c) => [(c, b)]
    case Branch(l, r) => Layout(l, FirstHalf(b, gap), gap) + Layout(r, SecondHalf(b, gap), gap)
  }

  lemma {:induction false} LaidOutBelow(s: seq<Node>, i: int, gap: int, k: int)
    requires AllLinked(s) && LaidOut(s, gap) && 0 <= i < |s|
    requires IsLeaf(s, k) && Under(s, i, k)
    ensures (s[k].client, s[k].box) in Layout(Below(s, i), s[i].box, gap)
    decreases if s[i].isNode then |s| - i else 0
  {
    assert LinkOk(s, i) && LaidOutAt(s, i, gap);
    if s[i].isNode {
      UnderSplit(s, i, k);
      if Under(s, s[i].child0, k) {
        LaidOutBelow(s, s[i].child0, gap, k);
      } else {
        LaidOutBelow(s, s[i].child1, gap, k);
      }
    } else {
      UnderOrder(s, i, k);
    }
  }

  function WithRootBox(s: seq<Node>, b: Box): (t: seq<Node>)
    ensures SameLinks(s, t)
  {
    var r := FindRoot(s);
    if r < 0 then s else s[r := s[r].(box := b)]
  }

  /**
   * The pass of `dwindle_recalc` after the root box has been set: the tree is unchanged and every
   * leaf has the box that recursive layout from the root gives its client.
   */
  lemma RecalcRefines(s: seq<Node>, b: Box, gap: int)
    requires WellFormed(s) && |s| > 0
    ensures InBounds(WithRootBox(s, b))
    ensures var r := Recalc(WithRootBox(s, b), gap);
            && SameLinks(s, r) && WellFormed(r) && LaidOut(r, gap)
            && Abstract(r) == Abstract(s) && r[FindRoot(r)].box == b
            && forall k | IsLeaf(r, k) :: (r[k].client, r[k].box) in Layout(Abstract(s), b, gap)
  {
    var t := WithRootBox(s, b);
    SameLinksAbstract(s, t);
    RecalcFromLaysOut(t, 0, gap);
    RecalcKeepsRootBox(t, 0, gap, FindRoot(s));
    var r := Recalc(t, gap);
    SameLinksAbstract(t, r);
    SameLinksTransitive(s, t, r);
    SameLinksWellFormed(s, t);
    SameLinksWellFormed(t, r);
    forall k | IsLeaf(r, k) ensures (r[k].client, r[k].box) in Layout(Abstract(s), b, gap) {
      UnderRoot(r, k);
      LaidOutBelow(r, FindRoot(r), gap, k);
    }
  }

  lemma SameLinksTransitive(s: seq<Node>, t: seq<Node>, u: seq<Node>)
    requires SameLinks(s, t) && SameLinks(t, u)
    ensures SameLinks(s, u)
  {
    forall i | 0 <= i < |s| ensures u[i].(box := s[i].box, splitTop := s[i].splitTop) == s[i] {
      assert u[i].(box := t[i].box, splitTop := t[i].splitTop) == t[i];
      assert t[i].(box := s[i].box, splitTop := s[i].splitTop) == s[i];
    }
  }

  /** In a tree with distinct clients the layout gives each client one box. */
  lemma LayoutUnique(t: Tree, b: Box, gap: int, c: Client, p: Box, q: Box)
    requires NoDuplicates(Leaves(t))
    requires (c, p) in Layout(t, b, gap) && (c, q) in Layout(t, b, gap)
    ensures p == q
  {
    var r := Layout(t, b, gap);
    var i :| 0 <= i < |r| && r[i] == (c, p);
    var j :| 0 <= j < |r| && r[j] == (c, q);
    assert Leaves(t)[i] == Leaves(t)[j];
  }

  /**
   * The resize calls of a well-formed, freshly laid out tree: exactly the top-down boxes of the
   * clients that are not fullscreen.
   */
  lemma ResizesAreLayout(s: seq<Node>, b: Box, gap: int, fullscreen: set<Client>, c: Client, q: Box)
    requires WellFormed(s) && |s| > 0
    ensures InBounds(WithRootBox(s, b))
    ensures (c, q) in Resizes(Recalc(WithRootBox(s, b), gap), fullscreen) <==>
            (c, q) in Layout(Abstract(s), b, gap) && c !in fullscreen
  {
    RecalcRefines(s, b, gap);
    var r := Recalc(WithRootBox(s, b), gap);
    ResizesFromIs(r, 0, fullscreen, c, q);
    if (c, q) in Layout(Abstract(s), b, gap) {
      OrderIsClients(r);
      var i :| 0 <= i < |Layout(Abstract(s), b, gap)| && Layout(Abstract(s), b, gap)[i] == (c, q);
      assert c in Order(r);
      var k := FindLeaf(r, c);
      assert LinkOk(r, k);
      LayoutUnique(Abstract(s), b, gap, c, q, r[k].box);
    }
    if k :| 0 <= k && Holds(r, k, c) && r[k].box == q && c != NULL && c !in fullscreen {
      assert IsLeaf(r, k);
    }
  }
}

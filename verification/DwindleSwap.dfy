// Swapping two windows of a dwindle tree.

module DwindleSwap {
  import opened Boxes
  import opened ClientIds
  import opened Lists
  import opened DwindleNodes
  import opened DwindleShape
  import opened DwindleAbstraction
  import opened DwindleLayout

  /** The two assignments of `swapdir` and `swaptiled`; nothing happens unless both are in the tree. */
  function Swap(s: seq<Node>, a: Client, b: Client): (r: seq<Node>)
    ensures |r| == |s|
  {
    var i, j := FindLeaf(s, a), FindLeaf(s, b);
    if i < 0 || j < 0 then s
    else
      var t := s[i := s[i].(client := b)];
      t[j := t[j].(client := a)]
  }

  function Exchange(c: Client, a: Client, b: Client): Client {
    if c == a then b else if c == b then a else c
  }

  function Rename(t: Tree, a: Client, b: Client): Tree {
    match t
    case Leaf(c) => Leaf(Exchange(c, a, b))
    case Branch(l, r) => Branch(Rename(l, a, b), Rename(r, a, b))
  }

  /** Entry by entry: only the two clients change places. */
  lemma SwapEntries(s: seq<Node>, a: Client, b: Client)
    requires WellFormed(s) && !Absent(s, a) && !Absent(s, b)
    ensures forall i | 0 <= i < |s| ::
              Swap(s, a, b)[i] == if s[i].isNode then s[i] else s[i].(client := Exchange(s[i].client, a, b))
  {
    var i, j := FindLeaf(s, a), FindLeaf(s, b);
    assert Holds(s, i, a) && Holds(s, j, b);
    forall k | 0 <= k < |s|
      ensures Swap(s, a, b)[k] ==
              if s[k].isNode then s[k] else s[k].(client := Exchange(s[k].client, a, b))
    {
      if !s[k].isNode {
        assert IsLeaf(s, k) && IsLeaf(s, i) && IsLeaf(s, j);
      }
    }
  }

  lemma SwapWellFormed(s: seq<Node>, a: Client, b: Client)
    requires WellFormed(s) && !Absent(s, a) && !Absent(s, b) && a != NULL && b != NULL
    ensures WellFormed(Swap(s, a, b)) && FindRoot(Swap(s, a, b)) == FindRoot(s)
    ensures forall c :: Absent(Swap(s, a, b), c) <==> Absent(s, c)
  {
    var r := Swap(s, a, b);
    SwapEntries(s, a, b);
    forall i | 0 <= i < |r| ensures LinkOk(r, i) {
      assert LinkOk(s, i);
    }
    LinksInBounds(r);
    FindRootIs(r, FindRoot(s));
    forall i, j | IsLeaf(r, i) && IsLeaf(r, j) && r[i].client == r[j].client ensures i == j {
      assert IsLeaf(s, i) && IsLeaf(s, j);
    }
    forall c ensures Absent(r, c) <==> Absent(s, c) {
      SwapPresent(s, a, b, c);
    }
  }

  lemma SwapPresent(s: seq<Node>, a: Client, b: Client, c: Client)
    requires WellFormed(s) && !Absent(s, a) && !Absent(s, b)
    ensures Absent(Swap(s, a, b), c) <==> Absent(s, c)
  {
    var r := Swap(s, a, b);
    SwapEntries(s, a, b);
    var i :| Holds(s, i, a);
    var j :| Holds(s, j, b);
    assert Holds(r, i, b) && Holds(r, j, a);
    if k :| Holds(r, k, c) {
      assert Holds(s, k, s[k].client);
    }
    if k :| Holds(s, k, c) {
      assert Holds(r, k, Exchange(c, a, b));
    }
  }

  lemma {:induction false} SwapBelow(s: seq<Node>, a: Client, b: Client, i: int)
    requires WellFormed(s) && !Absent(s, a) && !Absent(s, b) && a != NULL && b != NULL && 0 <= i < |s|
    ensures WellFormed(Swap(s, a, b))
    ensures Below(Swap(s, a, b), i) == Rename(Below(s, i), a, b)
    decreases if s[i].isNode then |s| - i else 0
  {
    SwapWellFormed(s, a, b);
    SwapEntries(s, a, b);
    assert LinkOk(s, i);
    if !s[i].isNode {
    } else {
      SwapBelow(s, a, b, s[i].child0);
      SwapBelow(s, a, b, s[i].child1);
    }
  }

  /** Swapping exchanges the two clients in the tree and nothing else. */
  lemma SwapRefines(s: seq<Node>, a: Client, b: Client)
    requires WellFormed(s) && !Absent(s, a) && !Absent(s, b) && a != NULL && b != NULL && |s| > 0
    ensures WellFormed(Swap(s, a, b)) && Abstract(Swap(s, a, b)) == Rename(Abstract(s), a, b)
  {
    SwapWellFormed(s, a, b);
    SwapBelow(s, a, b, FindRoot(s));
  }

  lemma SwapTwice(s: seq<Node>, a: Client, b: Client)
    requires WellFormed(s) && !Absent(s, a) && !Absent(s, b) && a != NULL && b != NULL
    ensures Swap(Swap(s, a, b), a, b) == s
  {
    SwapWellFormed(s, a, b);
    SwapEntries(s, a, b);
    SwapEntries(Swap(s, a, b), a, b);
  }

  /** The box of a client's leaf. */
  ghost function BoxOf(s: seq<Node>, c: Client): Box
    requires FindLeaf(s, c) >= 0
  {
    s[FindLeaf(s, c)].box
  }

  /**
   * Swapping two windows of a laid out tree and recalculating with the same root box and gap
   * changes no box of any entry; so the two clients exchange boxes and all others keep theirs.
   */
  lemma SwapExchangesBoxes(s: seq<Node>, a: Client, b: Client, root: Box, gap: int)
    requires WellFormed(s) && !Absent(s, a) && !Absent(s, b) && a != NULL && b != NULL
    requires InBounds(s) && LaidOut(s, gap) && |s| > 0 && s[FindRoot(s)].box == root
    ensures var t := Swap(s, a, b);
            && WellFormed(t) && InBounds(WithRootBox(t, root))
            && var r := Recalc(WithRootBox(t, root), gap);
            && r == t && WellFormed(r)
            && forall c | !Absent(s, c) ::
                 && FindLeaf(r, c) >= 0 && FindLeaf(s, Exchange(c, a, b)) >= 0
                 && BoxOf(r, c) == BoxOf(s, Exchange(c, a, b))
  {
    var t := Swap(s, a, b);
    SwapWellFormed(s, a, b);
    SwapEntries(s, a, b);
    assert WithRootBox(t, root) == t;
    forall i | 0 <= i < |t| ensures LaidOutAt(t, i, gap) {
      assert LaidOutAt(s, i, gap);
    }
    RecalcFromStable(t, 0, gap);
    forall c | !Absent(s, c)
      ensures FindLeaf(t, c) >= 0 && FindLeaf(s, Exchange(c, a, b)) >= 0
      ensures BoxOf(t, c) == BoxOf(s, Exchange(c, a, b))
    {
      PresentIsFound(s, Exchange(c, a, b));
      var k := FindLeaf(s, Exchange(c, a, b));
      assert Holds(s, k, Exchange(c, a, b));
      assert Holds(t, k, c);
      FindLeafIs(t, c, k);
    }
  }
}

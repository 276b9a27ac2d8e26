// The shape invariant of the node array, which src/layout.c relies on and never states, and its
// preservation by insertion and removal.

module DwindleShape {
  import opened Boxes
  import opened ClientIds
  import opened DwindleNodes

  /** Entry `i` agrees with its children, and an internal child has a larger index. */
  ghost predicate DownOk(s: seq<Node>, i: int)
    requires 0 <= i < |s|
  {
    var n := s[i];
    && (n.isNode ==>
          && 0 <= n.child0 < |s| && 0 <= n.child1 < |s| && n.child0 != n.child1
          && s[n.child0].parent == i && s[n.child1].parent == i
          && (s[n.child0].isNode ==> i < n.child0)
          && (s[n.child1].isNode ==> i < n.child1))
    && (!n.isNode ==> n.child0 == -1 && n.child1 == -1 && n.client != NULL)
  }

  /** Entry `i` agrees with its children and with its parent. */
  ghost predicate LinkOk(s: seq<Node>, i: int)
    requires 0 <= i < |s|
  {
    var p := s[i].parent;
    && DownOk(s, i)
    && -1 <= p < |s|
    && (p >= 0 ==> s[p].isNode && (s[p].child0 == i || s[p].child1 == i))
  }

  lemma LinksInBounds(s: seq<Node>)
    requires forall i | 0 <= i < |s| :: LinkOk(s, i)
    ensures InBounds(s)
  {
    forall i | 0 <= i < |s|
      ensures -1 <= s[i].child0 < |s| && -1 <= s[i].child1 < |s|
      ensures -1 <= s[i].parent < |s|
    {
      assert LinkOk(s, i);
    }
  }

  ghost predicate AllLinked(s: seq<Node>) {
    InBounds(s) && forall i | 0 <= i < |s| :: LinkOk(s, i)
  }

  /** A non-empty array has exactly one entry without a parent. */
  ghost predicate OneRoot(s: seq<Node>) {
    |s| > 0 ==> FindRoot(s) >= 0 && forall i | 0 <= i < |s| && s[i].parent < 0 :: i == FindRoot(s)
  }

  ghost predicate DistinctClients(s: seq<Node>) {
    forall i, j | IsLeaf(s, i) && IsLeaf(s, j) && s[i].client == s[j].client :: i == j
  }

  ghost predicate WellFormed(s: seq<Node>) {
    AllLinked(s) && OneRoot(s) && DistinctClients(s)
  }

  ghost predicate Absent(s: seq<Node>, c: Client) {
    forall i :: !Holds(s, i, c)
  }

  /** In a tree with distinct clients the search finds the only leaf of `c`. */
  lemma FindLeafIs(s: seq<Node>, c: Client, i: int)
    requires Holds(s, i, c) && DistinctClients(s)
    ensures FindLeaf(s, c) == i
  {
    assert FindLeaf(s, c) != -1;
    assert IsLeaf(s, FindLeaf(s, c));
  }

  lemma PresentIsFound(s: seq<Node>, c: Client)
    ensures Absent(s, c) <==> FindLeaf(s, c) == -1
  {
  }

  lemma FindRootIs(s: seq<Node>, r: int)
    requires 0 <= r < |s| && s[r].parent < 0
    requires forall i | 0 <= i < |s| && s[i].parent < 0 :: i == r
    ensures FindRoot(s) == r
  {
    assert FindRoot(s) != -1;
  }

  // ----- insertion -----------------------------------------------------------------------

  /** The anchor that an insertion into a well-formed non-empty tree uses is an old leaf. */
  lemma AnchorIsOld(s: seq<Node>, slot: Node, c: Client, focused: Client)
    requires WellFormed(s) && |s| > 0 && (focused == NULL || focused != c)
    ensures IsLeaf(s + [NewLeaf(slot, c)], |s|)
    ensures Anchor(s + [NewLeaf(slot, c)], focused) < |s|
  {
    var t := s + [NewLeaf(slot, c)];
    assert IsLeaf(t, |s|);
    HasLeaf(s);
    var l :| IsLeaf(s, l);
    assert IsLeaf(t, l);
    if focused != NULL && FindLeaf(t, focused) >= 0 {
      assert Holds(t, FindLeaf(t, focused), focused);
      assert !Holds(t, |s|, focused);
    }
  }

  /** The last internal entry has two leaves below it, so a non-empty tree has a leaf. */
  lemma {:induction false} HasLeafBelow(s: seq<Node>, i: int) returns (l: int)
    requires AllLinked(s) && 0 <= i < |s|
    ensures IsLeaf(s, l)
    decreases |s| - i
  {
    if s[i].isNode {
      assert LinkOk(s, i);
      if s[s[i].child0].isNode {
        l := HasLeafBelow(s, s[i].child0);
      } else {
        l := s[i].child0;
      }
    } else {
      l := i;
    }
  }

  lemma HasLeaf(s: seq<Node>)
    requires AllLinked(s) && |s| > 0
    ensures exists l :: IsLeaf(s, l)
  {
    var l := HasLeafBelow(s, 0);
  }

  /** The entries of `InsertAt` when `at` is one of the old leaves. */
  lemma InsertEntries(s: seq<Node>, slot0: Node, slot1: Node, c: Client, at: int)
    requires AllLinked(s) && IsLeaf(s, at)
    ensures var n := |s|;
            var r := InsertAt(s, slot0, slot1, c, at);
            && |r| == n + 2
            && r[n] == NewLeaf(slot0, c).(parent := n + 1)
            && r[n + 1] == Node(at, n, s[at].parent, slot1.client, s[at].box, SplitsTop(s[at].box), true)
            && r[at] == s[at].(parent := n + 1)
            && (s[at].parent >= 0 ==> r[s[at].parent] == Relink(s[s[at].parent], at, n + 1))
            && forall i | 0 <= i < n && i != at && i != s[at].parent :: r[i] == s[i]
  {
    assert LinkOk(s, at);
  }

  lemma InsertOldLinks(s: seq<Node>, slot0: Node, slot1: Node, c: Client, at: int, i: int)
    requires AllLinked(s) && IsLeaf(s, at) && 0 <= i < |s|
    ensures i < |InsertAt(s, slot0, slot1, c, at)| && LinkOk(InsertAt(s, slot0, slot1, c, at), i)
  {
    InsertEntries(s, slot0, slot1, c, at);
    assert LinkOk(s, at) && LinkOk(s, i);
    if s[i].isNode {
      assert LinkOk(s, s[i].child0) && LinkOk(s, s[i].child1);
    }
    if s[i].parent >= 0 {
      assert LinkOk(s, s[i].parent);
    }
  }

  lemma InsertNewLinks(s: seq<Node>, slot0: Node, slot1: Node, c: Client, at: int)
    requires AllLinked(s) && IsLeaf(s, at) && c != NULL
    ensures var r := InsertAt(s, slot0, slot1, c, at);
            |r| == |s| + 2 && LinkOk(r, |s|) && LinkOk(r, |s| + 1)
  {
    InsertEntries(s, slot0, slot1, c, at);
    assert LinkOk(s, at);
    if s[at].parent >= 0 {
      assert LinkOk(s, s[at].parent);
    }
  }

  lemma InsertLinks(s: seq<Node>, slot0: Node, slot1: Node, c: Client, at: int)
    requires AllLinked(s) && IsLeaf(s, at) && c != NULL
    ensures AllLinked(InsertAt(s, slot0, slot1, c, at))
  {
    var r := InsertAt(s, slot0, slot1, c, at);
    InsertNewLinks(s, slot0, slot1, c, at);
    forall i | 0 <= i < |r| ensures LinkOk(r, i) {
      if i < |s| {
        InsertOldLinks(s, slot0, slot1, c, at, i);
      }
    }
    LinksInBounds(r);
  }

  lemma InsertRoot(s: seq<Node>, slot0: Node, slot1: Node, c: Client, at: int)
    requires AllLinked(s) && OneRoot(s) && IsLeaf(s, at)
    ensures var r := InsertAt(s, slot0, slot1, c, at);
            && OneRoot(r)
            && FindRoot(r) == if FindRoot(s) == at then |s| + 1 else FindRoot(s)
  {
    var r := InsertAt(s, slot0, slot1, c, at);
    InsertEntries(s, slot0, slot1, c, at);
    assert LinkOk(s, at);
    FindRootIs(r, if FindRoot(s) == at then |s| + 1 else FindRoot(s));
  }

  lemma InsertDistinct(s: seq<Node>, slot0: Node, slot1: Node, c: Client, at: int)
    requires AllLinked(s) && DistinctClients(s) && Absent(s, c) && IsLeaf(s, at)
    ensures var r := InsertAt(s, slot0, slot1, c, at);
            && DistinctClients(r)
            && forall i, d :: Holds(r, i, d) <==> Holds(s, i, d) || (i == |s| && d == c)
  {
    var r := InsertAt(s, slot0, slot1, c, at);
    InsertEntries(s, slot0, slot1, c, at);
    forall i, d ensures Holds(r, i, d) <==> Holds(s, i, d) || (i == |s| && d == c) {
    }
    forall i, j | IsLeaf(r, i) && IsLeaf(r, j) && r[i].client == r[j].client ensures i == j {
      assert Holds(r, i, r[i].client) && Holds(r, j, r[i].client);
      if i == |s| || j == |s| {
      } else {
        assert Holds(s, i, r[i].client) && Holds(s, j, r[i].client);
      }
    }
  }

  /** More than one entry has no parent. */
  ghost predicate Broken(s: seq<Node>) {
    exists i, j :: 0 <= i < j < |s| && s[i].parent < 0 && s[j].parent < 0
  }

  lemma BrokenNotWellFormed(s: seq<Node>)
    requires Broken(s)
    ensures !WellFormed(s)
  {
  }

  /** Inserting the focused client itself: the anchor search finds the leaf just appended. */
  lemma InsertSelfBreaks(s: seq<Node>, slot0: Node, slot1: Node, c: Client)
    requires WellFormed(s) && |s| > 0 && Absent(s, c) && c != NULL
    ensures var r := Insert(s, slot0, slot1, c, c);
            && |r| == |s| + 2
            && r[FindRoot(s)].parent == -1 && r[|s| + 1].parent == -1
            && r[|s| + 1].child0 == r[|s| + 1].child1 == |s|
            && Broken(r)
  {
    var t := s + [NewLeaf(slot0, c)];
    assert forall i | 0 <= i < |s| :: Holds(t, i, c) ==> Holds(s, i, c);
    assert Holds(t, |s|, c);
    assert LinkOk(s, FindRoot(s));
    var r := Insert(s, slot0, slot1, c, c);
    assert r[FindRoot(s)].parent == -1 && r[|s| + 1].parent == -1;
  }

  /**
   * Inserting a client that is not in the tree keeps the invariant exactly when the tree is empty
   * or the client is not its own focus anchor.
   */
  lemma InsertKeepsShape(s: seq<Node>, slot0: Node, slot1: Node, c: Client, focused: Client)
    requires WellFormed(s) && Absent(s, c) && c != NULL
    ensures WellFormed(Insert(s, slot0, slot1, c, focused)) <==> |s| == 0 || focused != c
  {
    var r := Insert(s, slot0, slot1, c, focused);
    if |s| == 0 {
      assert r == [NewLeaf(slot0, c)];
      FindRootIs(r, 0);
    } else if focused == c {
      InsertSelfBreaks(s, slot0, slot1, c);
      BrokenNotWellFormed(r);
    } else {
      AnchorIsOld(s, slot0, c, focused);
      var at := Anchor(s + [NewLeaf(slot0, c)], focused);
      assert IsLeaf(s, at);
      InsertLinks(s, slot0, slot1, c, at);
      InsertRoot(s, slot0, slot1, c, at);
      InsertDistinct(s, slot0, slot1, c, at);
    }
  }

  /** A broken tree stays broken under every further insertion. */
  lemma InsertKeepsBroken(s: seq<Node>, slot0: Node, slot1: Node, c: Client, focused: Client)
    requires InBounds(s) && Broken(s)
    ensures Broken(Insert(s, slot0, slot1, c, focused))
  {
    var r := Insert(s, slot0, slot1, c, focused);
    var i, j :| 0 <= i < j < |s| && s[i].parent < 0 && s[j].parent < 0;
    var n := |s|;
    var t := s + [NewLeaf(slot0, c)];
    assert IsLeaf(t, n);
    var at := Anchor(t, focused);
    if at == i {
      assert r[j].parent < 0 && r[n + 1].parent < 0;
    } else if at == j {
      assert r[i].parent < 0 && r[n + 1].parent < 0;
    } else {
      assert r[i].parent < 0 && r[j].parent < 0;
    }
  }

  lemma InsertInBounds(s: seq<Node>, slot0: Node, slot1: Node, c: Client, focused: Client)
    requires InBounds(s)
    ensures InBounds(Insert(s, slot0, slot1, c, focused))
    ensures |Insert(s, slot0, slot1, c, focused)| == if |s| == 0 then 1 else |s| + 2
  {
    assert IsLeaf(s + [NewLeaf(slot0, c)], |s|);
  }

  // ----- removal -------------------------------------------------------------------------

  /** A leaf with a parent, in a well-formed array: its sibling and grandparent are where they should be. */
  lemma Family(s: seq<Node>, leaf: int)
    requires AllLinked(s) && IsLeaf(s, leaf) && s[leaf].parent >= 0
    ensures Removable(s, leaf)
    ensures var p := s[leaf].parent;
            var sib := Sibling(s[p], leaf);
            && s[p].isNode && s[sib].parent == p && sib != s[p].parent
            && (s[p].child0 == leaf || s[p].child1 == leaf)
            && (s[p].parent >= 0 ==> s[p].parent < p && s[s[p].parent].isNode)
  {
    var p := s[leaf].parent;
    assert LinkOk(s, leaf) && LinkOk(s, p);
    if s[p].parent >= 0 {
      assert LinkOk(s, s[p].parent);
    }
    assert LinkOk(s, Sibling(s[p], leaf));
  }

  /** Whatever the anchor, an insertion adds one leaf and keeps the others where they are. */
  lemma InsertHolds(s: seq<Node>, slot0: Node, slot1: Node, c: Client, focused: Client)
    requires InBounds(s)
    ensures var r := Insert(s, slot0, slot1, c, focused);
            forall i, d :: Holds(r, i, d) <==> Holds(s, i, d) || (i == |s| && d == c)
  {
    var t := s + [NewLeaf(slot0, c)];
    assert IsLeaf(t, |s|);
    var r := Insert(s, slot0, slot1, c, focused);
    assert forall i | 0 <= i <= |s| :: r[i].isNode == t[i].isNode && r[i].client == t[i].client;
  }

  /**
   * Removing the client that was just inserted stays inside the arrays exactly when the insertion was
   * not self-anchored and the index table is long enough.
   */
  lemma InsertStaysInside(s: seq<Node>, slot0: Node, slot1: Node, c: Client, focused: Client)
    requires WellFormed(s) && Absent(s, c) && c != NULL
    ensures InBounds(Insert(s, slot0, slot1, c, focused))
    ensures var r := Insert(s, slot0, slot1, c, focused);
            && FindLeaf(r, c) == |s|
            && (Removable(r, |s|) <==> |s| == 0 || focused != c)
            && (StaysInside(r, c) <==> |s| == 0 || (focused != c && |s| + 2 <= MAX_NODES))
  {
    InsertInBounds(s, slot0, slot1, c, focused);
    var r := Insert(s, slot0, slot1, c, focused);
    if |s| == 0 {
    } else if focused == c {
      InsertSelfBreaks(s, slot0, slot1, c);
      SelfRemoval(s, slot0, slot1, c);
    } else {
      AnchorIsOld(s, slot0, c, focused);
      var at := Anchor(s + [NewLeaf(slot0, c)], focused);
      InsertedFamily(s, slot0, slot1, c, at);
      InsertDistinct(s, slot0, slot1, c, at);
      assert Holds(r, |s|, c);
      FindLeafIs(r, c, |s|);
    }
  }

  /**
   * After a self-anchored insertion the new leaf is its own sibling, and the index table maps it to
   * -1: removing the client makes the source write to the entry before the array.
   */
  lemma SelfRemoval(s: seq<Node>, slot0: Node, slot1: Node, c: Client)
    requires WellFormed(s) && |s| > 0 && Absent(s, c) && c != NULL
    ensures var r := Insert(s, slot0, slot1, c, c);
            && |r| == |s| + 2 && FindLeaf(r, c) == |s| && r[|s|].parent == |s| + 1
            && Sibling(r[|s| + 1], |s|) == |s|
            && RemapTable(|r|, |s|, |s| + 1)[Sibling(r[|s| + 1], |s|)] == -1
            && !Removable(r, |s|)
  {
    var t := s + [NewLeaf(slot0, c)];
    InsertSelfBreaks(s, slot0, slot1, c);
    assert forall i | 0 <= i < |s| :: Holds(t, i, c) ==> Holds(s, i, c);
    assert Holds(t, |s|, c);
    var r := Insert(s, slot0, slot1, c, c);
    forall i | 0 <= i < |s| ensures !Holds(r, i, c) {
      assert r[i] == s[i] && !Holds(s, i, c);
    }
    assert Holds(r, |s|, c) && FindLeaf(r, c) != -1;
  }

  lemma LeafRemovable(s: seq<Node>, c: Client)
    requires AllLinked(s)
    ensures FindLeaf(s, c) >= 0 ==> Removable(s, FindLeaf(s, c))
  {
    var leaf := FindLeaf(s, c);
    if leaf >= 0 && s[leaf].parent >= 0 {
      Family(s, leaf);
    }
  }

  /** The two renumbering tables of the removal of `leaf`. */
  ghost predicate Tables(s: seq<Node>, leaf: int, m: seq<int>, kept: seq<int>) {
    && AllLinked(s) && IsLeaf(s, leaf) && s[leaf].parent >= 0 && |m| == |s| && Removable(s, leaf)
    && Renumbering(m, kept, leaf, s[leaf].parent)
  }

  /** Entry `i` with the links that bypass `leaf` and its parent, in the old numbering. */
  function Bypass(s: seq<Node>, leaf: int, i: int): Node
    requires InBounds(s) && 0 <= i < |s| && Removable(s, leaf) && s[leaf].parent >= 0
  {
    var p := s[leaf].parent;
    var sib := Sibling(s[p], leaf);
    if i == sib then s[i].(parent := s[p].parent)
    else if i == s[p].parent then Relink(s[i], p, sib)
    else s[i]
  }

  lemma CompactEntry(s: seq<Node>, leaf: int, m: seq<int>, kept: seq<int>, i: int)
    requires Tables(s, leaf, m, kept) && 0 <= i < |s| && i != leaf && i != s[leaf].parent
    ensures 0 <= m[i] < |kept| && kept[m[i]] == i && Compact(s, m, kept)[m[i]] == Renumber(s[i], m)
  {
  }

  /** Splicing is bypassing the two dropped entries and then renumbering. */
  lemma SpliceEntry(s: seq<Node>, leaf: int, m: seq<int>, kept: seq<int>, i: int)
    requires Tables(s, leaf, m, kept) && 0 <= i < |s| && i != leaf && i != s[leaf].parent
    ensures var r := SpliceWith(s, leaf, m, kept);
            && |r| == |kept| && 0 <= m[i] < |r| && kept[m[i]] == i
            && r[m[i]] == Renumber(Bypass(s, leaf, i), m)
  {
    Family(s, leaf);
    var p := s[leaf].parent;
    var sib, gp := Sibling(s[p], leaf), s[p].parent;
    CompactEntry(s, leaf, m, kept, i);
    CompactEntry(s, leaf, m, kept, sib);
    if gp >= 0 {
      CompactEntry(s, leaf, m, kept, gp);
      assert LinkOk(s, gp) && LinkOk(s, p) && kept[m[gp]] == gp && kept[m[sib]] == sib;
      VacantChild(s[gp], m, p, sib);
    }
    LiftEntry(Compact(s, m, kept), m[sib], Lookup(m, gp), m[i]);
  }

  /** What the end of removal leaves in entry `k`. */
  lemma LiftEntry(t: seq<Node>, sib: int, gp: int, k: int)
    requires 0 <= sib < |t| && -1 <= gp < |t| && sib != gp && 0 <= k < |t|
    ensures Lift(t, sib, gp)[k] ==
            if k == sib then t[k].(parent := gp) else if k == gp then Adopt(t[k], sib) else t[k]
  {
  }

  /** The vacant child link of the renumbered grandparent is the one that pointed at the parent. */
  lemma VacantChild(n: Node, m: seq<int>, p: int, sib: int)
    requires n.child0 < |m| && n.child1 < |m| && n.parent < |m| && 0 <= p < |m| && 0 <= sib < |m|
    requires n.child0 >= 0 && n.child1 >= 0 && n.child0 != n.child1 && (n.child0 == p || n.child1 == p)
    requires m[p] == -1 && (n.child0 != p ==> m[n.child0] >= 0) && (n.child1 != p ==> m[n.child1] >= 0)
    ensures Adopt(Renumber(n, m), m[sib]) == Renumber(Relink(n, p, sib), m)
  {
  }

  /** A child of a bypassed entry is an old child of it, or the sibling in place of the dropped parent. */
  lemma BypassLink(s: seq<Node>, leaf: int, i: int, c: int)
    requires AllLinked(s) && IsLeaf(s, leaf) && s[leaf].parent >= 0 && Removable(s, leaf)
    requires 0 <= i < |s| && i != leaf && i != s[leaf].parent && s[i].isNode
    requires c == Bypass(s, leaf, i).child0 || c == Bypass(s, leaf, i).child1
    ensures var p := s[leaf].parent; var sib := Sibling(s[p], leaf);
            if i == s[p].parent && c == sib then s[p].parent == i
            else c != p && (c == s[i].child0 || c == s[i].child1)
  {
    Family(s, leaf);
    assert LinkOk(s, i) && LinkOk(s, s[leaf].parent);
  }

  /** A child of a bypassed entry is not dropped, points back to it, and is ordered after it. */
  lemma BypassChild(s: seq<Node>, leaf: int, i: int, c: int)
    requires AllLinked(s) && IsLeaf(s, leaf) && s[leaf].parent >= 0 && Removable(s, leaf)
    requires 0 <= i < |s| && i != leaf && i != s[leaf].parent && s[i].isNode
    requires c == Bypass(s, leaf, i).child0 || c == Bypass(s, leaf, i).child1
    ensures 0 <= c < |s| && c != leaf && c != s[leaf].parent
    ensures Bypass(s, leaf, c).parent == i && (s[c].isNode ==> i < c)
  {
    Family(s, leaf);
    BypassLink(s, leaf, i, c);
    var p := s[leaf].parent;
    var sib := Sibling(s[p], leaf);
    if i == s[p].parent && c == sib {
      assert LinkOk(s, p);
    } else {
      assert LinkOk(s, i) && s[c].parent == i;
      assert c != leaf && c != sib;
    }
  }

  /** The parent of a bypassed entry is not dropped and has it as a child. */
  lemma BypassParent(s: seq<Node>, leaf: int, i: int)
    requires AllLinked(s) && IsLeaf(s, leaf) && s[leaf].parent >= 0 && Removable(s, leaf)
    requires 0 <= i < |s| && i != leaf && i != s[leaf].parent
    ensures var q := Bypass(s, leaf, i).parent;
            -1 <= q < |s| && q != leaf && q != s[leaf].parent &&
            (q >= 0 ==> s[q].isNode && (Bypass(s, leaf, q).child0 == i || Bypass(s, leaf, q).child1 == i))
  {
    Family(s, leaf);
    var p := s[leaf].parent;
    assert LinkOk(s, i) && LinkOk(s, p);
    if s[p].parent >= 0 {
      assert LinkOk(s, s[p].parent);
    }
  }

  lemma BypassLinks(s: seq<Node>, leaf: int, i: int)
    requires AllLinked(s) && IsLeaf(s, leaf) && s[leaf].parent >= 0 && Removable(s, leaf)
    requires 0 <= i < |s| && i != leaf && i != s[leaf].parent
    ensures var n := Bypass(s, leaf, i);
            && n.isNode == s[i].isNode && n.client == s[i].client
            && (n.isNode ==> n.child0 != n.child1)
            && (!n.isNode ==> n.child0 == -1 && n.child1 == -1 && n.client != NULL)
  {
    Family(s, leaf);
    var p := s[leaf].parent;
    assert LinkOk(s, i) && LinkOk(s, p) && LinkOk(s, Sibling(s[p], leaf));
  }

  lemma SpliceDown(s: seq<Node>, leaf: int, m: seq<int>, kept: seq<int>, i: int)
    requires Tables(s, leaf, m, kept) && 0 <= i < |s| && i != leaf && i != s[leaf].parent
    requires forall j, k | 0 <= j < k < |m| && m[j] >= 0 && m[k] >= 0 :: m[j] < m[k]
    ensures 0 <= m[i] < |SpliceWith(s, leaf, m, kept)|
    ensures DownOk(SpliceWith(s, leaf, m, kept), m[i])
  {
    BypassLinks(s, leaf, i);
    SpliceEntry(s, leaf, m, kept, i);
    var n := Bypass(s, leaf, i);
    if n.isNode {
      BypassChild(s, leaf, i, n.child0);
      BypassChild(s, leaf, i, n.child1);
      SpliceEntry(s, leaf, m, kept, n.child0);
      SpliceEntry(s, leaf, m, kept, n.child1);
    }
  }

  lemma SpliceLinkOk(s: seq<Node>, leaf: int, m: seq<int>, kept: seq<int>, i: int)
    requires Tables(s, leaf, m, kept) && 0 <= i < |s| && i != leaf && i != s[leaf].parent
    requires forall j, k | 0 <= j < k < |m| && m[j] >= 0 && m[k] >= 0 :: m[j] < m[k]
    ensures 0 <= m[i] < |SpliceWith(s, leaf, m, kept)|
    ensures LinkOk(SpliceWith(s, leaf, m, kept), m[i])
  {
    SpliceDown(s, leaf, m, kept, i);
    BypassLinks(s, leaf, i);
    SpliceEntry(s, leaf, m, kept, i);
    BypassParent(s, leaf, i);
    var n := Bypass(s, leaf, i);
    if n.parent >= 0 {
      SpliceEntry(s, leaf, m, kept, n.parent);
    }
  }

  lemma SpliceLinks(s: seq<Node>, leaf: int, m: seq<int>, kept: seq<int>)
    requires Tables(s, leaf, m, kept)
    requires forall j, k | 0 <= j < k < |m| && m[j] >= 0 && m[k] >= 0 :: m[j] < m[k]
    ensures AllLinked(SpliceWith(s, leaf, m, kept))
  {
    var r := SpliceWith(s, leaf, m, kept);
    forall k | 0 <= k < |r| ensures LinkOk(r, k) {
      SpliceLinkOk(s, leaf, m, kept, kept[k]);
      assert m[kept[k]] == k;
    }
    LinksInBounds(r);
  }

  /** The root stays the root, unless it was the parent: then the sibling takes its place. */
  function RootAfter(s: seq<Node>, leaf: int): int
    requires 0 <= leaf < |s| && 0 <= s[leaf].parent < |s|
  {
    var p := s[leaf].parent;
    if FindRoot(s) == p then Sibling(s[p], leaf) else FindRoot(s)
  }

  lemma SpliceRoot(s: seq<Node>, leaf: int, m: seq<int>, kept: seq<int>)
    requires Tables(s, leaf, m, kept) && OneRoot(s)
    ensures var r := SpliceWith(s, leaf, m, kept);
            && OneRoot(r) && |r| > 0
            && 0 <= RootAfter(s, leaf) < |s| && RootAfter(s, leaf) != leaf
            && RootAfter(s, leaf) != s[leaf].parent
            && FindRoot(r) == m[RootAfter(s, leaf)]
  {
    Family(s, leaf);
    var r := SpliceWith(s, leaf, m, kept);
    var root := RootAfter(s, leaf);
    assert LinkOk(s, s[leaf].parent);
    BypassParent(s, leaf, root);
    SpliceEntry(s, leaf, m, kept, root);
    forall k | 0 <= k < |r| && r[k].parent < 0 ensures k == m[root] {
      var o := kept[k];
      BypassParent(s, leaf, o);
      SpliceEntry(s, leaf, m, kept, o);
    }
    FindRootIs(r, m[root]);
  }

  lemma SpliceHolds(s: seq<Node>, leaf: int, m: seq<int>, kept: seq<int>, i: int, d: Client)
    requires Tables(s, leaf, m, kept) && 0 <= i < |s| && i != leaf && i != s[leaf].parent
    ensures Holds(SpliceWith(s, leaf, m, kept), m[i], d) <==> Holds(s, i, d)
  {
    BypassLinks(s, leaf, i);
    SpliceEntry(s, leaf, m, kept, i);
  }

  lemma SpliceClients(s: seq<Node>, leaf: int, m: seq<int>, kept: seq<int>)
    requires Tables(s, leaf, m, kept) && DistinctClients(s)
    ensures DistinctClients(SpliceWith(s, leaf, m, kept))
    ensures forall d :: Absent(SpliceWith(s, leaf, m, kept), d) <==> d == s[leaf].client || Absent(s, d)
  {
    var r := SpliceWith(s, leaf, m, kept);
    forall i, j | IsLeaf(r, i) && IsLeaf(r, j) && r[i].client == r[j].client ensures i == j {
      SpliceHolds(s, leaf, m, kept, kept[i], r[i].client);
      SpliceHolds(s, leaf, m, kept, kept[j], r[i].client);
      assert m[kept[i]] == i && m[kept[j]] == j;
    }
    forall d ensures Absent(r, d) <==> d == s[leaf].client || Absent(s, d) {
      SpliceAbsent(s, leaf, m, kept, d);
    }
  }

  lemma SpliceAbsent(s: seq<Node>, leaf: int, m: seq<int>, kept: seq<int>, d: Client)
    requires Tables(s, leaf, m, kept) && DistinctClients(s)
    ensures Absent(SpliceWith(s, leaf, m, kept), d) <==> d == s[leaf].client || Absent(s, d)
  {
    var r := SpliceWith(s, leaf, m, kept);
    if k :| Holds(r, k, d) {
      assert m[kept[k]] == k;
      SpliceHolds(s, leaf, m, kept, kept[k], d);
      assert IsLeaf(s, leaf) && Holds(s, kept[k], d);
    }
    if i :| Holds(s, i, d) && d != s[leaf].client {
      Family(s, leaf);
      SpliceHolds(s, leaf, m, kept, i, d);
    }
  }

  lemma SpliceKeepsShape(s: seq<Node>, leaf: int, m: seq<int>, kept: seq<int>)
    requires Tables(s, leaf, m, kept) && WellFormed(s)
    requires forall j, k | 0 <= j < k < |m| && m[j] >= 0 && m[k] >= 0 :: m[j] < m[k]
    ensures WellFormed(SpliceWith(s, leaf, m, kept))
    ensures |SpliceWith(s, leaf, m, kept)| == |s| - 2
    ensures forall d :: Absent(SpliceWith(s, leaf, m, kept), d) <==> d == s[leaf].client || Absent(s, d)
  {
    SpliceLinks(s, leaf, m, kept);
    SpliceRoot(s, leaf, m, kept);
    SpliceClients(s, leaf, m, kept);
  }

  /** The source's own tables, without their arithmetic. */
  lemma SpliceTables(s: seq<Node>, leaf: int) returns (m: seq<int>, kept: seq<int>)
    requires AllLinked(s) && IsLeaf(s, leaf) && s[leaf].parent >= 0
    ensures Tables(s, leaf, m, kept)
    ensures forall j, k | 0 <= j < k < |m| && m[j] >= 0 && m[k] >= 0 :: m[j] < m[k]
    ensures forall i | 0 <= i < Min(leaf, s[leaf].parent) :: m[i] == i
    ensures Splice(s, leaf) == SpliceWith(s, leaf, m, kept)
  {
    Family(s, leaf);
    m, kept := RemapTable(|s|, leaf, s[leaf].parent), KeptTable(|s|, leaf, s[leaf].parent);
    TablesRenumber(|s|, leaf, s[leaf].parent);
  }

  /** Removing any client, present or not, keeps the invariant, and the client is gone afterwards. */
  lemma RemoveKeepsShape(s: seq<Node>, c: Client)
    requires WellFormed(s)
    ensures FindLeaf(s, c) >= 0 ==> Removable(s, FindLeaf(s, c))
    ensures StaysInside(s, c) <==> Absent(s, c) || |s| <= MAX_NODES
    ensures WellFormed(Remove(s, c))
    ensures |Remove(s, c)| == if Absent(s, c) then |s| else if |s| == 1 then 0 else |s| - 2
    ensures forall d :: Absent(Remove(s, c), d) <==> d == c || Absent(s, d)
  {
    LeafRemovable(s, c);
    var leaf := FindLeaf(s, c);
    if leaf >= 0 {
      assert Holds(s, leaf, c);
      if s[leaf].parent < 0 {
        OnlyLeaf(s, leaf);
        assert forall i, d | Holds(s, i, d) :: d == c;
      } else {
        var m, kept := SpliceTables(s, leaf);
        SpliceKeepsShape(s, leaf, m, kept);
      }
    }
  }

  /** A leaf without a parent is the whole tree. */
  lemma OnlyLeaf(s: seq<Node>, leaf: int)
    requires AllLinked(s) && OneRoot(s) && IsLeaf(s, leaf) && s[leaf].parent < 0
    ensures |s| == 1
  {
    if |s| > 1 {
      ClimbToRoot(s, if leaf == 0 then 1 else 0);
    }
  }

  /** Climbing from any entry but a lone leaf ends in an internal entry without a parent. */
  lemma {:induction false} ClimbToRoot(s: seq<Node>, i: int)
    requires AllLinked(s) && OneRoot(s) && 0 <= i < |s| && (s[i].isNode || i != FindRoot(s))
    ensures s[FindRoot(s)].isNode
    decreases if s[i].isNode then i else |s|
  {
    assert LinkOk(s, i);
    if s[i].parent < 0 {
    } else {
      assert LinkOk(s, s[i].parent);
      ClimbToRoot(s, s[i].parent);
    }
  }

  // ----- insertion undone ----------------------------------------------------------------

  /** Splicing out the leaf and parent that an insertion appended restores the old entries. */
  lemma SpliceInserted(s: seq<Node>, slot0: Node, slot1: Node, c: Client, at: int)
    requires AllLinked(s) && IsLeaf(s, at) && c != NULL
    ensures var r := InsertAt(s, slot0, slot1, c, at);
            IsLeaf(r, |s|) && r[|s|].parent >= 0 && AllLinked(r) && Removable(r, |s|) && Splice(r, |s|) == s
  {
    var r := InsertAt(s, slot0, slot1, c, at);
    var n := |s|;
    InsertEntries(s, slot0, slot1, c, at);
    InsertLinks(s, slot0, slot1, c, at);
    var m, kept := SpliceTables(r, n);
    var q := SpliceWith(r, n, m, kept);
    forall i | 0 <= i < n ensures q[i] == s[i] {
      SpliceEntry(r, n, m, kept, i);
      assert m[i] == i;
      RestoredEntry(s, slot0, slot1, c, at, m, i);
    }
    assert q == s;
  }

  /** After an insertion the new leaf's sibling is the anchor. */
  lemma InsertedFamily(s: seq<Node>, slot0: Node, slot1: Node, c: Client, at: int)
    requires AllLinked(s) && IsLeaf(s, at)
    ensures var r := InsertAt(s, slot0, slot1, c, at);
            && |r| == |s| + 2 && InBounds(r) && Removable(r, |s|) && r[|s|].parent == |s| + 1
            && Sibling(r[|s| + 1], |s|) == at && r[|s| + 1].parent == s[at].parent
  {
    InsertEntries(s, slot0, slot1, c, at);
    assert LinkOk(s, at);
    var r := InsertAt(s, slot0, slot1, c, at);
    forall i | 0 <= i < |r|
      ensures -1 <= r[i].child0 < |r| && -1 <= r[i].child1 < |r| && -1 <= r[i].parent < |r|
    {
      assert i < |s| ==> LinkOk(s, i);
    }
  }

  lemma RestoredEntry(s: seq<Node>, slot0: Node, slot1: Node, c: Client, at: int, m: seq<int>, i: int)
    requires AllLinked(s) && IsLeaf(s, at) && 0 <= i < |s|
    requires |m| == |s| + 2 && forall k | 0 <= k < |s| :: m[k] == k
    ensures var r := InsertAt(s, slot0, slot1, c, at);
            && InBounds(r) && Removable(r, |s|) && r[|s|].parent >= 0
            && Renumber(Bypass(r, |s|, i), m) == s[i]
  {
    InsertedFamily(s, slot0, slot1, c, at);
    InsertEntries(s, slot0, slot1, c, at);
    assert LinkOk(s, i) && LinkOk(s, at);
    assert Bypass(InsertAt(s, slot0, slot1, c, at), |s|, i) == s[i];
  }

  /** Removing the client that was just inserted restores every live entry, field by field. */
  lemma InsertThenRemove(s: seq<Node>, slot0: Node, slot1: Node, c: Client, focused: Client)
    requires WellFormed(s) && Absent(s, c) && c != NULL
    requires |s| == 0 || focused != c
    ensures WellFormed(Insert(s, slot0, slot1, c, focused))
    ensures var r := Insert(s, slot0, slot1, c, focused);
            (FindLeaf(r, c) >= 0 ==> Removable(r, FindLeaf(r, c))) && Remove(r, c) == s
  {
    InsertKeepsShape(s, slot0, slot1, c, focused);
    var r := Insert(s, slot0, slot1, c, focused);
    var n := |s|;
    LeafRemovable(r, c);
    if n == 0 {
      assert Holds(r, 0, c);
      FindLeafIs(r, c, 0);
    } else {
      AnchorIsOld(s, slot0, c, focused);
      var at := Anchor(s + [NewLeaf(slot0, c)], focused);
      InsertEntries(s, slot0, slot1, c, at);
      SpliceInserted(s, slot0, slot1, c, at);
      assert Holds(r, n, c);
      FindLeafIs(r, c, n);
    }
  }
}

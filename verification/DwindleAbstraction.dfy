// The algebraic tree behind the node array, and what insertion and removal do to it.

module DwindleAbstraction {
  import opened Boxes
  import opened ClientIds
  import opened Lists
  import opened DwindleNodes
  import opened DwindleShape

  datatype Tree = Leaf(client: Client) | Branch(first: Tree, second: Tree)

  /** The clients of a tree from first to second child: the in-order sequence. */
  function Leaves(t: Tree): (cs: seq<Client>)
    ensures |cs| > 0
  {
    match t
    case Leaf(c) => [c]
    case Branch(l, r) => Leaves(l) + Leaves(r)
  }

  /** `a`'s leaf becomes a branch with `a` first and `c` second. */
  function Grow(t: Tree, a: Client, c: Client): Tree {
    match t
    case Leaf(d) => if d == a then Branch(Leaf(a), Leaf(c)) else t
    case Branch(l, r) => Branch(Grow(l, a, c), Grow(r, a, c))
  }

  /** The branch above `c`'s leaf is replaced by the leaf's sibling. */
  function Prune(t: Tree, c: Client): Tree {
    match t
    case Leaf(_) => t
    case Branch(l, r) =>
      if l == Leaf(c) then r
      else if r == Leaf(c) then l
      else Branch(Prune(l, c), Prune(r, c))
  }

  /** The tree below entry `i`. It is well founded because internal indices increase downwards. */
  ghost function Below(s: seq<Node>, i: int): Tree
    requires AllLinked(s) && 0 <= i < |s|
    decreases if s[i].isNode then |s| - i else 0
  {
    assert LinkOk(s, i);
    if s[i].isNode then Branch(Below(s, s[i].child0), Below(s, s[i].child1))
    else Leaf(s[i].client)
  }

  /** The tree of a non-empty array. */
  ghost function Abstract(s: seq<Node>): Tree
    requires WellFormed(s) && |s| > 0
  {
    Below(s, FindRoot(s))
  }

  /** The clients of the array in tree order; none when the tree is empty. */
  ghost function Order(s: seq<Node>): seq<Client>
    requires WellFormed(s)
  {
    if |s| == 0 then [] else Leaves(Abstract(s))
  }

  // ----- what is below an entry ----------------------------------------------------------

  /** Entry `k` is `i` or a descendant of `i`: climbing from `k` reaches `i`. */
  ghost predicate Under(s: seq<Node>, i: int, k: int)
    requires AllLinked(s) && 0 <= k < |s|
    decreases if s[k].isNode then k else |s|
  {
    assert LinkOk(s, k);
    assert s[k].parent >= 0 ==> LinkOk(s, s[k].parent);
    k == i || (s[k].parent >= 0 && Under(s, i, s[k].parent))
  }

  /** Only an internal entry has others below it, and these have larger indices if internal. */
  lemma {:induction false} UnderOrder(s: seq<Node>, i: int, k: int)
    requires AllLinked(s) && 0 <= i < |s| && 0 <= k < |s| && Under(s, i, k)
    ensures i == k || (s[i].isNode && (s[k].isNode ==> i < k))
    decreases if s[k].isNode then k else |s|
  {
    assert LinkOk(s, k);
    if k == i {
    } else {
      assert LinkOk(s, s[k].parent);
      UnderOrder(s, i, s[k].parent);
    }
  }

  lemma {:induction false} UnderChild(s: seq<Node>, i: int, c: int, k: int)
    requires AllLinked(s) && 0 <= i < |s| && s[i].isNode && (c == s[i].child0 || c == s[i].child1)
    requires 0 <= k < |s| && Under(s, c, k)
    ensures Under(s, i, k)
    decreases if s[k].isNode then k else |s|
  {
    assert LinkOk(s, i) && LinkOk(s, k);
    if k == c {
    } else {
      assert LinkOk(s, s[k].parent);
      UnderChild(s, i, c, s[k].parent);
    }
  }

  /** Strictly below an internal entry means below one of its children. */
  lemma {:induction false} UnderSplit(s: seq<Node>, i: int, k: int)
    requires AllLinked(s) && 0 <= i < |s| && s[i].isNode && 0 <= k < |s| && Under(s, i, k) && k != i
    ensures Under(s, s[i].child0, k) || Under(s, s[i].child1, k)
    decreases if s[k].isNode then k else |s|
  {
    assert LinkOk(s, k) && LinkOk(s, i);
    if s[k].parent == i {
    } else {
      assert LinkOk(s, s[k].parent);
      UnderSplit(s, i, s[k].parent);
    }
  }

  /** No entry is below both children of another. */
  lemma {:induction false} UnderDisjoint(s: seq<Node>, i: int, k: int)
    requires AllLinked(s) && 0 <= i < |s| && s[i].isNode && 0 <= k < |s|
    ensures !(Under(s, s[i].child0, k) && Under(s, s[i].child1, k))
    decreases if s[k].isNode then k else |s|
  {
    assert LinkOk(s, i) && LinkOk(s, k);
    var c0, c1 := s[i].child0, s[i].child1;
    if Under(s, c0, k) && Under(s, c1, k) {
      if k == c0 {
        UnderOrder(s, c1, i);
      } else if k == c1 {
        UnderOrder(s, c0, i);
      } else {
        assert LinkOk(s, s[k].parent);
        UnderDisjoint(s, i, s[k].parent);
      }
    }
  }

  lemma {:induction false} UnderRoot(s: seq<Node>, k: int)
    requires AllLinked(s) && OneRoot(s) && 0 <= k < |s|
    ensures Under(s, FindRoot(s), k)
    decreases if s[k].isNode then k else |s|
  {
    assert LinkOk(s, k);
    if s[k].parent < 0 {
    } else {
      assert LinkOk(s, s[k].parent);
      UnderRoot(s, s[k].parent);
    }
  }

  /** The leaves of the tree below `i` are the clients of the leaf entries under `i`. */
  lemma {:induction false} LeavesBelow(s: seq<Node>, i: int, c: Client)
    requires AllLinked(s) && 0 <= i < |s|
    ensures c in Leaves(Below(s, i)) <==> exists k :: Holds(s, k, c) && Under(s, i, k)
    decreases if s[i].isNode then |s| - i else 0
  {
    assert LinkOk(s, i);
    if s[i].isNode {
      var c0, c1 := s[i].child0, s[i].child1;
      LeavesBelow(s, c0, c);
      LeavesBelow(s, c1, c);
      if k :| Holds(s, k, c) && Under(s, i, k) {
        UnderSplit(s, i, k);
      }
      if k :| Holds(s, k, c) && Under(s, c0, k) {
        UnderChild(s, i, c0, k);
      }
      if k :| Holds(s, k, c) && Under(s, c1, k) {
        UnderChild(s, i, c1, k);
      }
    } else {
      assert Under(s, i, i);
      if k :| Holds(s, k, c) && Under(s, i, k) {
        UnderOrder(s, i, k);
      }
    }
  }

  lemma {:induction false} LeavesBelowDistinct(s: seq<Node>, i: int)
    requires AllLinked(s) && DistinctClients(s) && 0 <= i < |s|
    ensures NoDuplicates(Leaves(Below(s, i)))
    decreases if s[i].isNode then |s| - i else 0
  {
    assert LinkOk(s, i);
    if !s[i].isNode {
    } else {
      var c0, c1 := s[i].child0, s[i].child1;
      LeavesBelowDistinct(s, c0);
      LeavesBelowDistinct(s, c1);
      forall c | c in Leaves(Below(s, c0)) && c in Leaves(Below(s, c1)) ensures false {
        LeavesBelow(s, c0, c);
        LeavesBelow(s, c1, c);
        var k :| Holds(s, k, c) && Under(s, c0, k);
        assert IsLeaf(s, k);
        UnderDisjoint(s, i, k);
      }
      ConcatDistinct(Leaves(Below(s, c0)), Leaves(Below(s, c1)));
    }
  }

  /** In tree order every client of the array occurs exactly once, and nothing else does. */
  lemma OrderIsClients(s: seq<Node>)
    requires WellFormed(s)
    ensures NoDuplicates(Order(s))
    ensures forall c :: c in Order(s) <==> !Absent(s, c)
    ensures forall c :: c in Order(s) <==> FindLeaf(s, c) >= 0
  {
    if |s| > 0 {
      LeavesBelowDistinct(s, FindRoot(s));
      forall c ensures c in Order(s) <==> !Absent(s, c) {
        LeavesBelow(s, FindRoot(s), c);
        if k :| Holds(s, k, c) {
          UnderRoot(s, k);
        }
      }
    }
  }

  // ----- insertion -----------------------------------------------------------------------

  /** Below every entry, insertion turns the anchor's leaf into a branch and changes nothing else. */
  lemma {:induction false} InsertBelow(s: seq<Node>, slot0: Node, slot1: Node, c: Client, at: int, i: int)
    requires WellFormed(s) && IsLeaf(s, at) && c != NULL && 0 <= i < |s|
    ensures AllLinked(InsertAt(s, slot0, slot1, c, at))
    ensures var r := InsertAt(s, slot0, slot1, c, at);
            |r| == |s| + 2 &&
            Below(r, if i == at then |s| + 1 else i) == Grow(Below(s, i), s[at].client, c)
    decreases if s[i].isNode then |s| - i else 0
  {
    InsertEntries(s, slot0, slot1, c, at);
    InsertLinks(s, slot0, slot1, c, at);
    assert LinkOk(s, i);
    var r := InsertAt(s, slot0, slot1, c, at);
    if s[i].isNode {
      var c0, c1 := s[i].child0, s[i].child1;
      InsertBelow(s, slot0, slot1, c, at, c0);
      InsertBelow(s, slot0, slot1, c, at, c1);
      assert LinkOk(s, at) && LinkOk(s, c0) && LinkOk(s, c1);
      assert r[i].isNode && r[i].child0 == (if c0 == at then |s| + 1 else c0);
      assert r[i].child1 == (if c1 == at then |s| + 1 else c1);
      assert Below(r, i) == Branch(Grow(Below(s, c0), s[at].client, c), Grow(Below(s, c1), s[at].client, c));
    } else if i == at {
      assert Below(r, |s|) == Leaf(c);
      assert Below(r, at) == Leaf(s[at].client);
    }
  }

  /** The client in whose leaf the new one is placed. */
  ghost function AnchorClient(s: seq<Node>, focused: Client): Client
    requires exists i :: IsLeaf(s, i)
  {
    s[Anchor(s, focused)].client
  }

  /** The focused client if it is in the tree, else the client of the first leaf of the array. */
  lemma AnchorIs(s: seq<Node>, slot: Node, c: Client, focused: Client)
    requires WellFormed(s) && |s| > 0 && focused != c
    ensures exists i :: IsLeaf(s, i)
    ensures IsLeaf(s + [NewLeaf(slot, c)], |s|)
    ensures Anchor(s + [NewLeaf(slot, c)], focused) == Anchor(s, focused)
    ensures AnchorClient(s, focused) ==
            if focused != NULL && !Absent(s, focused) then focused else s[FirstLeaf(s)].client
  {
    HasLeaf(s);
    var t := s + [NewLeaf(slot, c)];
    assert IsLeaf(t, |s|);
    FindLeafAppend(s, slot, c, focused, 0);
    FirstLeafAppend(s, slot, c, 0);
  }

  lemma {:induction false} FindLeafAppend(s: seq<Node>, slot: Node, c: Client, d: Client, from: nat)
    requires from <= |s| && c != d
    ensures FindLeafFrom(s + [NewLeaf(slot, c)], d, from) == FindLeafFrom(s, d, from)
    decreases |s| - from
  {
    var t := s + [NewLeaf(slot, c)];
    if from == |s| {
      assert !Holds(t, from, d);
      assert FindLeafFrom(t, d, from + 1) == -1;
    } else {
      assert Holds(t, from, d) <==> Holds(s, from, d);
      FindLeafAppend(s, slot, c, d, from + 1);
    }
  }

  lemma {:induction false} FirstLeafAppend(s: seq<Node>, slot: Node, c: Client, from: nat)
    requires from <= |s| && exists i :: from <= i && IsLeaf(s, i)
    ensures FirstLeafFrom(s + [NewLeaf(slot, c)], from) == FirstLeafFrom(s, from)
    decreases |s| - from
  {
    var t := s + [NewLeaf(slot, c)];
    assert IsLeaf(t, from) <==> IsLeaf(s, from);
    if IsLeaf(s, from) {
    } else {
      FirstLeafAppend(s, slot, c, from + 1);
    }
  }

  /** `dwindle_insert` on a non-empty tree replaces the anchor's leaf by Branch(anchor, new). */
  lemma InsertRefines(s: seq<Node>, slot0: Node, slot1: Node, c: Client, focused: Client)
    requires WellFormed(s) && Absent(s, c) && c != NULL && |s| > 0 && focused != c
    ensures WellFormed(Insert(s, slot0, slot1, c, focused)) && |Insert(s, slot0, slot1, c, focused)| == |s| + 2
    ensures exists i :: IsLeaf(s, i)
    ensures Abstract(Insert(s, slot0, slot1, c, focused)) ==
            Grow(Abstract(s), AnchorClient(s, focused), c)
  {
    InsertKeepsShape(s, slot0, slot1, c, focused);
    AnchorIsOld(s, slot0, c, focused);
    AnchorIs(s, slot0, c, focused);
    var at := Anchor(s, focused);
    InsertEntries(s, slot0, slot1, c, at);
    InsertRoot(s, slot0, slot1, c, at);
    InsertBelow(s, slot0, slot1, c, at, FindRoot(s));
  }

  /** Inserting into the empty tree gives a single leaf. */
  lemma InsertFirst(slot0: Node, slot1: Node, c: Client, focused: Client)
    requires c != NULL
    ensures WellFormed(Insert([], slot0, slot1, c, focused))
    ensures |Insert([], slot0, slot1, c, focused)| == 1
    ensures Abstract(Insert([], slot0, slot1, c, focused)) == Leaf(c)
  {
    var r := Insert([], slot0, slot1, c, focused);
    InsertKeepsShape([], slot0, slot1, c, focused);
    assert r[FindRoot(r)] == NewLeaf(slot0, c);
  }

  // ----- removal -------------------------------------------------------------------------

  /** Away from the removed leaf and its parent, the tree below an entry only changes its numbers. */
  lemma {:induction false} SpliceAway(s: seq<Node>, leaf: int, m: seq<int>, kept: seq<int>, i: int)
    requires Tables(s, leaf, m, kept) && AllLinked(SpliceWith(s, leaf, m, kept))
    requires 0 <= i < |s| && !Under(s, i, leaf)
    requires i != s[leaf].parent
    ensures 0 <= m[i] < |kept| && |SpliceWith(s, leaf, m, kept)| == |kept|
    ensures Below(SpliceWith(s, leaf, m, kept), m[i]) == Below(s, i)
    decreases if s[i].isNode then |s| - i else 0
  {
    Family(s, leaf);
    var p := s[leaf].parent;
    assert LinkOk(s, i) && LinkOk(s, p);
    SpliceEntry(s, leaf, m, kept, i);
    if s[p].parent >= 0 {
      assert Under(s, s[p].parent, p);
      assert Under(s, s[p].parent, leaf);
    }
    if !s[i].isNode {
    } else {
      ClimbPast(s, i, s[i].child0, leaf);
      ClimbPast(s, i, s[i].child1, leaf);
      assert s[i].child0 != p && s[i].child1 != p;
      SpliceAway(s, leaf, m, kept, s[i].child0);
      SpliceAway(s, leaf, m, kept, s[i].child1);
      assert Bypass(s, leaf, i).child0 == s[i].child0;
    }
  }

  lemma ClimbPast(s: seq<Node>, i: int, c: int, k: int)
    requires AllLinked(s) && 0 <= i < |s| && s[i].isNode && (c == s[i].child0 || c == s[i].child1)
    requires 0 <= k < |s| && !Under(s, i, k)
    ensures 0 <= c < |s| && !Under(s, c, k)
  {
    assert LinkOk(s, i);
    if Under(s, c, k) {
      UnderChild(s, i, c, k);
    }
  }

  /** The sibling's tree does not contain the removed leaf. */
  lemma SiblingApart(s: seq<Node>, leaf: int)
    requires AllLinked(s) && IsLeaf(s, leaf) && s[leaf].parent >= 0
    ensures var sib := Sibling(s[s[leaf].parent], leaf); 0 <= sib < |s| && !Under(s, sib, leaf)
  {
    Family(s, leaf);
    var p := s[leaf].parent;
    UnderDisjoint(s, p, leaf);
    assert Under(s, leaf, leaf);
  }

  /** A tree without `c`'s leaf is left alone by pruning `c`. */
  lemma {:induction false} PruneAbsent(t: Tree, c: Client)
    requires c !in Leaves(t)
    ensures Prune(t, c) == t
  {
    match t
    case Leaf(_) =>
    case Branch(l, r) =>
      PruneAbsent(l, c);
      PruneAbsent(r, c);
  }

  lemma NotBelow(s: seq<Node>, leaf: int, i: int)
    requires AllLinked(s) && DistinctClients(s) && IsLeaf(s, leaf) && 0 <= i < |s| && !Under(s, i, leaf)
    ensures s[leaf].client !in Leaves(Below(s, i))
  {
    LeavesBelow(s, i, s[leaf].client);
    if k :| Holds(s, k, s[leaf].client) && Under(s, i, k) {
      assert IsLeaf(s, k);
    }
  }

  /** Below every entry that survives, removal prunes; the removed parent's place goes to the sibling. */
  lemma {:induction false} SpliceBelow(s: seq<Node>, leaf: int, m: seq<int>, kept: seq<int>, i: int)
    requires Tables(s, leaf, m, kept) && WellFormed(s) && AllLinked(SpliceWith(s, leaf, m, kept))
    requires 0 <= i < |s| && i != leaf
    ensures var p := s[leaf].parent;
            var j := if i == p then Sibling(s[p], leaf) else i;
            && 0 <= j < |s| && 0 <= m[j] < |kept| && |SpliceWith(s, leaf, m, kept)| == |kept|
            && Below(SpliceWith(s, leaf, m, kept), m[j]) == Prune(Below(s, i), s[leaf].client)
    decreases if s[i].isNode then |s| - i else 0
  {
    Family(s, leaf);
    var p, c := s[leaf].parent, s[leaf].client;
    var sib := Sibling(s[p], leaf);
    assert LinkOk(s, i) && LinkOk(s, p);
    SiblingApart(s, leaf);
    if !Under(s, i, leaf) && i != p {
      SpliceAway(s, leaf, m, kept, i);
      NotBelow(s, leaf, i);
      PruneAbsent(Below(s, i), c);
    } else if i == p {
      SpliceAway(s, leaf, m, kept, sib);
      NotBelow(s, leaf, sib);
      assert Below(s, leaf) == Leaf(c);
    } else {
      UnderOrder(s, i, leaf);
      SpliceChildren(s, leaf, m, kept, i);
      SpliceBelow(s, leaf, m, kept, s[i].child0);
      SpliceBelow(s, leaf, m, kept, s[i].child1);
      LeafOnly(s, leaf, s[i].child0);
      LeafOnly(s, leaf, s[i].child1);
    }
  }

  /** The children of a surviving internal entry, with the sibling in the removed parent's place. */
  lemma SpliceChildren(s: seq<Node>, leaf: int, m: seq<int>, kept: seq<int>, i: int)
    requires Tables(s, leaf, m, kept)
    requires 0 <= i < |s| && i != leaf && i != s[leaf].parent && s[i].isNode
    ensures var p := s[leaf].parent;
            var r := SpliceWith(s, leaf, m, kept);
            && 0 <= m[i] < |r| && r[m[i]].isNode
            && s[i].child0 != leaf && s[i].child1 != leaf
            && 0 <= s[i].child0 < |s| && 0 <= s[i].child1 < |s| && 0 <= Sibling(s[p], leaf) < |s|
            && r[m[i]].child0 == m[if s[i].child0 == p then Sibling(s[p], leaf) else s[i].child0]
            && r[m[i]].child1 == m[if s[i].child1 == p then Sibling(s[p], leaf) else s[i].child1]
  {
    Family(s, leaf);
    assert LinkOk(s, i) && LinkOk(s, s[leaf].parent);
    SpliceEntry(s, leaf, m, kept, i);
  }

  /** Only the leaf entry itself abstracts to its client's leaf. */
  lemma LeafOnly(s: seq<Node>, leaf: int, i: int)
    requires WellFormed(s) && IsLeaf(s, leaf) && 0 <= i < |s| && i != leaf
    ensures Below(s, i) != Leaf(s[leaf].client)
  {
    if !s[i].isNode {
      assert IsLeaf(s, i);
    }
  }

  /** `dwindle_remove` lifts the sibling of the client's leaf into their parent's place. */
  lemma RemoveRefines(s: seq<Node>, c: Client)
    requires WellFormed(s) && !Absent(s, c) && |s| > 1
    ensures FindLeaf(s, c) >= 0 && Removable(s, FindLeaf(s, c))
    ensures WellFormed(Remove(s, c)) && |Remove(s, c)| == |s| - 2 && |s| >= 3
    ensures Abstract(Remove(s, c)) == Prune(Abstract(s), c)
  {
    RemoveKeepsShape(s, c);
    var leaf := FindLeaf(s, c);
    if s[leaf].parent < 0 {
      OnlyLeaf(s, leaf);
    }
    var m, kept := SpliceTables(s, leaf);
    SpliceLinks(s, leaf, m, kept);
    SpliceRoot(s, leaf, m, kept);
    SpliceBelow(s, leaf, m, kept, FindRoot(s));
  }

  // ----- the in-order sequence -----------------------------------------------------------

  function InsertAfter(cs: seq<Client>, a: Client, c: Client): seq<Client> {
    if cs == [] then []
    else if cs[0] == a then [a, c] + InsertAfter(cs[1..], a, c)
    else [cs[0]] + InsertAfter(cs[1..], a, c)
  }

  lemma {:induction false} InsertAfterConcat(x: seq<Client>, y: seq<Client>, a: Client, c: Client)
    ensures InsertAfter(x + y, a, c) == InsertAfter(x, a, c) + InsertAfter(y, a, c)
  {
    if x == [] {
      assert x + y == y;
    } else {
      InsertAfterConcat(x[1..], y, a, c);
      assert (x + y)[1..] == x[1..] + y && (x + y)[0] == x[0];
      var head, rest, tail := if x[0] == a then [a, c] else [x[0]], InsertAfter(x[1..], a, c), InsertAfter(y, a, c);
      assert head + (rest + tail) == (head + rest) + tail;
    }
  }

  lemma {:induction false} LeavesGrow(t: Tree, a: Client, c: Client)
    ensures Leaves(Grow(t, a, c)) == InsertAfter(Leaves(t), a, c)
  {
    match t
    case Leaf(_) =>
    case Branch(l, r) =>
      LeavesGrow(l, a, c);
      LeavesGrow(r, a, c);
      InsertAfterConcat(Leaves(l), Leaves(r), a, c);
  }

  lemma {:induction false} LeavesPrune(t: Tree, c: Client)
    requires NoDuplicates(Leaves(t)) && t != Leaf(c)
    ensures Leaves(Prune(t, c)) == Without(Leaves(t), c)
  {
    match t
    case Leaf(_) =>
    case Branch(l, r) =>
      SplitDistinct(Leaves(l), Leaves(r));
      WithoutConcat(Leaves(l), Leaves(r), c);
      if l == Leaf(c) {
        assert c in Leaves(l);
        WithoutAbsent(Leaves(r), c);
      } else if r == Leaf(c) {
        assert c in Leaves(r);
        WithoutAbsent(Leaves(l), c);
      } else {
        LeavesPrune(l, c);
        LeavesPrune(r, c);
      }
  }

  /** Insertion puts the new client right after the anchor and keeps the others in order. */
  lemma InsertOrder(s: seq<Node>, slot0: Node, slot1: Node, c: Client, focused: Client)
    requires WellFormed(s) && Absent(s, c) && c != NULL && (|s| == 0 || focused != c)
    ensures WellFormed(Insert(s, slot0, slot1, c, focused))
    ensures |s| > 0 ==> exists i :: IsLeaf(s, i)
    ensures Order(Insert(s, slot0, slot1, c, focused)) ==
            if |s| == 0 then [c] else InsertAfter(Order(s), AnchorClient(s, focused), c)
  {
    InsertKeepsShape(s, slot0, slot1, c, focused);
    if |s| == 0 {
      InsertFirst(slot0, slot1, c, focused);
    } else {
      InsertRefines(s, slot0, slot1, c, focused);
      LeavesGrow(Abstract(s), AnchorClient(s, focused), c);
    }
  }

  /** Removal deletes the client from the order and keeps the others in order. */
  lemma RemoveOrder(s: seq<Node>, c: Client)
    requires WellFormed(s)
    ensures FindLeaf(s, c) >= 0 ==> Removable(s, FindLeaf(s, c))
    ensures WellFormed(Remove(s, c))
    ensures Order(Remove(s, c)) == Without(Order(s), c)
  {
    RemoveKeepsShape(s, c);
    OrderIsClients(s);
    if Absent(s, c) {
      WithoutAbsent(Order(s), c);
    } else if |s| == 1 {
      assert LinkOk(s, 0);
      assert Holds(s, FindLeaf(s, c), c);
      assert Order(s) == [c];
    } else {
      RemoveRefines(s, c);
      assert Abstract(s) != Leaf(c) by {
        assert LinkOk(s, FindRoot(s));
        if !s[FindRoot(s)].isNode {
          OnlyLeaf(s, FindRoot(s));
        }
      }
      LeavesPrune(Abstract(s), c);
    }
  }

  // ----- counting ------------------------------------------------------------------------

  ghost function IndicesUnder(s: seq<Node>, i: int): set<int>
    requires AllLinked(s)
  {
    set k | 0 <= k < |s| && Under(s, i, k)
  }

  /** A tree with `n` leaves occupies 2n - 1 entries. */
  lemma {:induction false} EntriesUnder(s: seq<Node>, i: int)
    requires AllLinked(s) && 0 <= i < |s|
    ensures |IndicesUnder(s, i)| == 2 * |Leaves(Below(s, i))| - 1
    decreases if s[i].isNode then |s| - i else 0
  {
    assert LinkOk(s, i);
    var all := IndicesUnder(s, i);
    if s[i].isNode {
      var c0, c1 := s[i].child0, s[i].child1;
      var a, b := IndicesUnder(s, c0), IndicesUnder(s, c1);
      EntriesUnder(s, c0);
      EntriesUnder(s, c1);
      forall k | k in a && k in b ensures false {
        UnderDisjoint(s, i, k);
      }
      forall k | 0 <= k < |s| ensures k in all <==> k == i || k in a || k in b {
        if Under(s, i, k) && k != i {
          UnderSplit(s, i, k);
        }
        if Under(s, c0, k) {
          UnderChild(s, i, c0, k);
        }
        if Under(s, c1, k) {
          UnderChild(s, i, c1, k);
        }
      }
      assert i !in a && i !in b by {
        if Under(s, c0, i) {
          UnderOrder(s, c0, i);
        }
        if Under(s, c1, i) {
          UnderOrder(s, c1, i);
        }
      }
      assert all == {i} + (a + b);
    } else {
      forall k | k in all ensures k == i {
        UnderOrder(s, i, k);
      }
      assert all == {i};
    }
  }

  ghost function FirstNaturals(n: nat): (r: set<int>)
    ensures forall k :: k in r <==> 0 <= k < n
    ensures |r| == n
  {
    if n == 0 then {} else FirstNaturals(n - 1) + {n - 1}
  }

  /** The array holds no entry outside the tree: `node_count` is 0 or twice the clients less one. */
  lemma NodeCount(s: seq<Node>)
    requires WellFormed(s)
    ensures |s| == if Order(s) == [] then 0 else 2 * |Order(s)| - 1
  {
    if |s| > 0 {
      EntriesUnder(s, FindRoot(s));
      forall k | 0 <= k < |s| ensures Under(s, FindRoot(s), k) {
        UnderRoot(s, k);
      }
      assert IndicesUnder(s, FindRoot(s)) == FirstNaturals(|s|);
    }
  }
}

// The dwindle tree as the live prefix of its node array: what each function of
// src/layout.c computes, as functions on the sequence of live nodes.

module DwindleNodes {
  import opened Boxes
  import opened ClientIds

  /** One array entry. `-1` in a link field stands for "none". */
  datatype Node = Node(child0: int, child1: int, parent: int, client: Client, box: Box,
                       splitTop: bool, isNode: bool)

  /** The length of the arrays `remap` and `stale`. */
  const MAX_NODES := 512

  /** What `ecalloc` and `memset` leave in an entry that was never used. */
  const ZERO_NODE := Node(0, 0, 0, NULL, ZERO_BOX, false, false)

  /** The fields that `dwindle_new_node` resets; it keeps the others as they were in the slot. */
  function Fresh(slot: Node): Node {
    slot.(child0 := -1, child1 := -1, parent := -1)
  }

  /** Entry `i` of a buffer, seen through growth: entries past the end read as zeroed. */
  function Slot(buffer: seq<Node>, i: nat): Node {
    if i < |buffer| then buffer[i] else ZERO_NODE
  }

  predicate IsLeaf(s: seq<Node>, i: int) {
    0 <= i < |s| && !s[i].isNode
  }

  predicate Holds(s: seq<Node>, i: int, c: Client) {
    IsLeaf(s, i) && s[i].client == c
  }

  // ----- searches ------------------------------------------------------------------------

  function FindLeafFrom(s: seq<Node>, c: Client, from: nat): (r: int)
    requires from <= |s|
    ensures r == -1 || (from <= r && Holds(s, r, c))
    ensures forall j | from <= j < (if r < 0 then |s| else r) :: !Holds(s, j, c)
    decreases |s| - from
  {
    if from == |s| then -1
    else if Holds(s, from, c) then from
    else FindLeafFrom(s, c, from + 1)
  }

  /** `dwindle_find_leaf`: the first leaf that holds `c`, or -1. */
  function FindLeaf(s: seq<Node>, c: Client): (r: int)
    ensures r == -1 || Holds(s, r, c)
    ensures r == -1 ==> forall j :: !Holds(s, j, c)
  {
    FindLeafFrom(s, c, 0)
  }

  function FirstLeafFrom(s: seq<Node>, from: nat): (r: int)
    requires from <= |s|
    ensures r == -1 || (from <= r && IsLeaf(s, r))
    ensures forall j | from <= j < (if r < 0 then |s| else r) :: !IsLeaf(s, j)
    decreases |s| - from
  {
    if from == |s| then -1
    else if IsLeaf(s, from) then from
    else FirstLeafFrom(s, from + 1)
  }

  /** `dwindle_first_leaf`: the leaf of lowest index, or -1. */
  function FirstLeaf(s: seq<Node>): (r: int)
    ensures r == -1 || IsLeaf(s, r)
    ensures r == -1 ==> forall j :: !IsLeaf(s, j)
  {
    FirstLeafFrom(s, 0)
  }

  function FindRootFrom(s: seq<Node>, from: nat): (r: int)
    requires from <= |s|
    ensures r == -1 || (from <= r < |s| && s[r].parent < 0)
    ensures forall j | from <= j < (if r < 0 then |s| else r) :: s[j].parent >= 0
    decreases |s| - from
  {
    if from == |s| then -1
    else if s[from].parent < 0 then from
    else FindRootFrom(s, from + 1)
  }

  /** The root search of `dwindle`: the first entry without a parent, or -1. */
  function FindRoot(s: seq<Node>): (r: int)
    ensures r == -1 || (0 <= r < |s| && s[r].parent < 0)
    ensures forall j | 0 <= j < (if r < 0 then |s| else r) :: s[j].parent >= 0
  {
    FindRootFrom(s, 0)
  }

  // ----- insertion -----------------------------------------------------------------------

  /** Every link is -1 or an index of a live entry. */
  predicate InBounds(s: seq<Node>) {
    forall i | 0 <= i < |s| ::
      && -1 <= s[i].child0 < |s|
      && -1 <= s[i].child1 < |s|
      && -1 <= s[i].parent < |s|
  }

  /** Where the new leaf goes: the leaf of `focused` if there is one, else the first leaf. */
  function Anchor(s: seq<Node>, focused: Client): (r: int)
    requires exists i :: IsLeaf(s, i)
    ensures IsLeaf(s, r)
    ensures focused != NULL && (exists j :: Holds(s, j, focused)) ==> Holds(s, r, focused)
  {
    var at := if focused != NULL then FindLeaf(s, focused) else -1;
    if at < 0 then FirstLeaf(s) else at
  }

  function NewLeaf(slot: Node, c: Client): Node {
    Fresh(slot).(client := c, isNode := false)
  }

  /** Replaces whichever child link of `gp` pointed at `was`; the else branch takes it to be child1. */
  function Relink(gp: Node, was: int, now: int): Node {
    if gp.child0 == was then gp.(child0 := now) else gp.(child1 := now)
  }

  /** Links a new internal node above the leaf at `at` and the leaf in the last entry of `t`. */
  function LinkAbove(t: seq<Node>, slot: Node, at: nat): seq<Node>
    requires at < |t| && -1 <= t[at].parent < |t|
  {
    var leaf, top, gp := |t| - 1, |t|, t[at].parent;
    var inner := Fresh(slot).(isNode := true, box := t[at].box, splitTop := SplitsTop(t[at].box),
                              child0 := at, child1 := leaf, parent := gp);
    var u := t + [inner];
    var v := u[at := u[at].(parent := top)];
    var w := v[leaf := v[leaf].(parent := top)];
    if gp >= 0 then w[gp := Relink(w[gp], at, top)] else w
  }

  /** The insertion once the anchor `at` is known; `at == |s|` is the new leaf itself. */
  function InsertAt(s: seq<Node>, slot0: Node, slot1: Node, c: Client, at: int): seq<Node>
    requires InBounds(s) && 0 <= at <= |s|
  {
    LinkAbove(s + [NewLeaf(slot0, c)], slot1, at)
  }

  /** `dwindle_insert`. The anchor is looked up after the new leaf is in place, as the source does. */
  function Insert(s: seq<Node>, slot0: Node, slot1: Node, c: Client, focused: Client): seq<Node>
    requires InBounds(s)
  {
    var t := s + [NewLeaf(slot0, c)];
    if |t| == 1 then t
    else
      assert IsLeaf(t, |s|);
      InsertAt(s, slot0, slot1, c, Anchor(t, focused))
  }

  // ----- removal -------------------------------------------------------------------------

  /** The new index of entry `i` once `a` and `b` are gone; -1 for those two and for "none". */
  function Remap(i: int, a: int, b: int): int {
    if i < 0 || i == a || i == b then -1
    else i - (if i > a then 1 else 0) - (if i > b then 1 else 0)
  }

  /** The entry that compaction moves into slot `k`. */
  function Unmap(k: int, a: int, b: int): int {
    if k < Min(a, b) then k
    else if k + 1 < Max(a, b) then k + 1
    else k + 2
  }

  /** The table `remap` that the source fills in its first loop. */
  function RemapTable(n: nat, a: int, b: int): (m: seq<int>)
    ensures |m| == n
  {
    seq(n, i => Remap(i, a, b))
  }

  /** For each new index, the entry that moves there. */
  function KeptTable(n: nat, a: int, b: int): (kept: seq<int>)
    requires n >= 2
    ensures |kept| == n - 2
  {
    seq(n - 2, k => Unmap(k, a, b))
  }

  function Lookup(m: seq<int>, link: int): int
    requires link < |m|
  {
    if link >= 0 then m[link] else link
  }

  function Renumber(n: Node, m: seq<int>): Node
    requires n.child0 < |m| && n.child1 < |m| && n.parent < |m|
  {
    n.(child0 := Lookup(m, n.child0), child1 := Lookup(m, n.child1), parent := Lookup(m, n.parent))
  }

  /** `m` and `kept` are inverse to each other, away from the two entries that `m` drops. */
  ghost predicate Renumbering(m: seq<int>, kept: seq<int>, a: int, b: int) {
    && 0 <= a < |m| && 0 <= b < |m| && a != b && |kept| == |m| - 2
    && m[a] == -1 && m[b] == -1
    && (forall k | 0 <= k < |kept| ::
          0 <= kept[k] < |m| && kept[k] != a && kept[k] != b && m[kept[k]] == k)
    && (forall i | 0 <= i < |m| && i != a && i != b :: 0 <= m[i] < |kept| && kept[m[i]] == i)
  }

  /** Drops entries and renumbers the links of the rest. */
  function Compact(s: seq<Node>, m: seq<int>, kept: seq<int>): (t: seq<Node>)
    requires InBounds(s) && |m| == |s|
    requires forall k | 0 <= k < |kept| :: 0 <= kept[k] < |s|
    ensures |t| == |kept|
  {
    seq(|kept|, k requires 0 <= k < |kept| => Renumber(s[kept[k]], m))
  }

  /** Puts the sibling into the first child slot of the grandparent that became vacant. */
  function Adopt(gp: Node, sib: int): Node {
    if gp.child0 < 0 then gp.(child0 := sib)
    else if gp.child1 < 0 then gp.(child1 := sib)
    else gp
  }

  function Sibling(p: Node, i: int): int {
    if p.child0 == i then p.child1 else p.child0
  }

  /**
   * What `dwindle_remove` needs to stay inside its arrays: a leaf with a parent has a sibling, and the
   * sibling is not one of the two entries that are dropped.
   */
  predicate Removable(s: seq<Node>, leaf: int) {
    && 0 <= leaf < |s|
    && -1 <= s[leaf].parent < |s|
    && (s[leaf].parent >= 0 ==>
          var p := s[leaf].parent;
          var sib := Sibling(s[p], leaf);
          && p != leaf
          && 0 <= sib < |s| && sib != leaf && sib != p
          && -1 <= s[p].parent < |s|)
  }

  /** The removal of `c` reads and writes only inside the node array and the index table. */
  predicate StaysInside(s: seq<Node>, c: Client) {
    var leaf := FindLeaf(s, c);
    leaf >= 0 && s[leaf].parent >= 0 ==> Removable(s, leaf) && |s| <= MAX_NODES
  }

  /** The end of `dwindle_remove`: the sibling takes the parent's place under `gp`. */
  function Lift(t: seq<Node>, sib: int, gp: int): (r: seq<Node>)
    requires 0 <= sib < |t| && -1 <= gp < |t|
    ensures |r| == |t| && (InBounds(t) ==> InBounds(r))
  {
    var u := t[sib := t[sib].(parent := gp)];
    if gp >= 0 then u[gp := Adopt(u[gp], sib)] else u
  }

  lemma CompactInBounds(s: seq<Node>, m: seq<int>, kept: seq<int>, a: int, b: int)
    requires InBounds(s) && |m| == |s| && Renumbering(m, kept, a, b)
    ensures InBounds(Compact(s, m, kept))
  {
    forall k | 0 <= k < |kept|
      ensures var n := Compact(s, m, kept)[k];
              -1 <= n.child0 < |kept| && -1 <= n.child1 < |kept| && -1 <= n.parent < |kept|
    {
      assert Compact(s, m, kept)[k] == Renumber(s[kept[k]], m);
    }
  }

  /** The part of `dwindle_remove` after the leaf and its parent have been found. */
  function SpliceWith(s: seq<Node>, leaf: int, m: seq<int>, kept: seq<int>): (r: seq<Node>)
    requires InBounds(s) && |m| == |s| && Removable(s, leaf) && s[leaf].parent >= 0
    requires Renumbering(m, kept, leaf, s[leaf].parent)
    ensures InBounds(r) && |r| == |s| - 2
  {
    var p := s[leaf].parent;
    CompactInBounds(s, m, kept, leaf, p);
    Lift(Compact(s, m, kept), m[Sibling(s[p], leaf)], Lookup(m, s[p].parent))
  }

  /** Compaction renumbers monotonically and is undone by the table of kept entries. */
  lemma TablesRenumber(n: nat, a: int, b: int)
    requires 0 <= a < n && 0 <= b < n && a != b
    ensures Renumbering(RemapTable(n, a, b), KeptTable(n, a, b), a, b)
    ensures forall i, j | 0 <= i < j < n && i != a && i != b && j != a && j != b ::
              RemapTable(n, a, b)[i] < RemapTable(n, a, b)[j]
  {
  }

  function Splice(s: seq<Node>, leaf: int): (r: seq<Node>)
    requires InBounds(s) && Removable(s, leaf) && s[leaf].parent >= 0
    ensures InBounds(r) && |r| == |s| - 2
  {
    var p := s[leaf].parent;
    TablesRenumber(|s|, leaf, p);
    SpliceWith(s, leaf, RemapTable(|s|, leaf, p), KeptTable(|s|, leaf, p))
  }

  /**
   * `dwindle_remove`: a client that is not in the tree changes nothing, the last leaf empties it.
   * Where the source would leave its arrays (not `StaysInside`) this value says nothing about it.
   */
  function Remove(s: seq<Node>, c: Client): (r: seq<Node>)
    requires InBounds(s)
    ensures InBounds(r) && |r| <= |s|
  {
    var leaf := FindLeaf(s, c);
    if leaf < 0 then s
    else if s[leaf].parent < 0 then []
    else if !Removable(s, leaf) then s
    else Splice(s, leaf)
  }
}

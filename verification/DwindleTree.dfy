// The growable node array of src/layout.c, with the loops that work on it in place. Each method
// is specified by the function of DwindleNodes, DwindleLayout or DwindleReconcile it computes.

module DwindleTrees {
  import opened Boxes
  import opened ClientIds
  import opened DwindleNodes
  import opened DwindleShape
  import opened DwindleLayout
  import opened DwindleSwap
  import opened Windows
  import opened DwindleReconcile

  class DwindleTree {
    var nodes: array<Node>
    var nodeCount: nat

    ghost predicate Valid()
      reads this, nodes
    {
      nodeCount <= nodes.Length
    }

    ghost function Live(): seq<Node>
      reads this, nodes
      requires Valid()
    {
      nodes[..nodeCount]
    }

    constructor ()
      ensures Valid() && Live() == [] && fresh(nodes)
    {
      nodes := new Node[0];
      nodeCount := 0;
    }

    /** `dwindle_new_node`: doubles a full buffer, then resets the links of the next entry. */
    method NewNode() returns (idx: nat)
      requires Valid()
      modifies this, nodes
      ensures Valid() && (nodes == old(nodes) || fresh(nodes))
      ensures idx == old(nodeCount) && nodeCount == idx + 1
      ensures Live() == old(Live()) + [Fresh(Slot(old(nodes[..]), idx))]
      ensures forall k: nat | k > idx :: Slot(nodes[..], k) == Slot(old(nodes[..]), k)
      ensures nodes.Length >= old(nodes.Length) && nodes[idx].child0 == nodes[idx].child1 == nodes[idx].parent == -1
      ensures var was := if idx < old(nodes.Length) then old(nodes[..])[idx] else ZERO_NODE;
              nodes[idx] == was.(child0 := -1, child1 := -1, parent := -1)
      ensures forall k | idx < k < nodes.Length ::
                nodes[k] == if k < old(nodes.Length) then old(nodes[..])[k] else ZERO_NODE
    {
      if nodeCount >= nodes.Length {
        var capacity := if nodes.Length > 0 then nodes.Length * 2 else 8;
        var grown := new Node[capacity](_ => ZERO_NODE);
        forall i | 0 <= i < nodes.Length {
          grown[i] := nodes[i];
        }
        nodes := grown;
      }
      idx := nodeCount;
      nodeCount := nodeCount + 1;
      nodes[idx] := nodes[idx].(child0 := -1, child1 := -1, parent := -1);
    }

    /** `dwindle_find_leaf` */
    method FindLeafIndex(c: Client) returns (r: int)
      requires Valid()
      ensures r == FindLeaf(Live(), c)
    {
      var i := 0;
      while i < nodeCount
        invariant 0 <= i <= nodeCount
        invariant FindLeaf(Live(), c) == FindLeafFrom(Live(), c, i)
      {
        if !nodes[i].isNode && nodes[i].client == c {
          return i;
        }
        i := i + 1;
      }
      return -1;
    }

    /** `dwindle_first_leaf` */
    method FirstLeafIndex() returns (r: int)
      requires Valid()
      ensures r == FirstLeaf(Live())
    {
      var i := 0;
      while i < nodeCount
        invariant 0 <= i <= nodeCount
        invariant FirstLeaf(Live()) == FirstLeafFrom(Live(), i)
      {
        if !nodes[i].isNode {
          return i;
        }
        i := i + 1;
      }
      return -1;
    }

    method FindRootIndex() returns (r: int)
      requires Valid()
      ensures r == FindRoot(Live())
    {
      var i := 0;
      while i < nodeCount
        invariant 0 <= i <= nodeCount
        invariant FindRoot(Live()) == FindRootFrom(Live(), i)
      {
        if nodes[i].parent < 0 {
          return i;
        }
        i := i + 1;
      }
      return -1;
    }

    /** The second half of `dwindle_insert`: a new internal node above `at` and the last leaf. */
    method LinkNode(at: nat)
      requires Valid() && at < nodeCount && InBounds(Live())
      modifies this, nodes
      ensures Valid() && (nodes == old(nodes) || fresh(nodes))
      ensures Live() == LinkAbove(old(Live()), Slot(old(nodes[..]), old(nodeCount)), at)
    {
      ghost var t, slot := Live(), Slot(nodes[..], nodeCount);
      var leaf := nodeCount - 1;
      var top := NewNode();
      ghost var u := t + [Fresh(slot)];
      assert Live() == u;
      assert forall k | 0 <= k < nodeCount :: nodes[k] == u[k];
      var opening := nodes[at];
      var gp := opening.parent;
      nodes[top] := nodes[top].(isNode := true, box := opening.box, splitTop := SplitsTop(opening.box),
                                child0 := at, child1 := leaf, parent := gp);
      ghost var v := u[top := nodes[top]];
      assert Live() == v;
      nodes[at] := nodes[at].(parent := top);
      ghost var w := v[at := v[at].(parent := top)];
      assert Live() == w;
      nodes[leaf] := nodes[leaf].(parent := top);
      ghost var x := w[leaf := w[leaf].(parent := top)];
      assert Live() == x;
      if gp >= 0 {
        if nodes[gp].child0 == at {
          nodes[gp] := nodes[gp].(child0 := top);
        } else {
          nodes[gp] := nodes[gp].(child1 := top);
        }
        assert Live() == x[gp := Relink(x[gp], at, top)];
      }
      LinkAboveIs(t, slot, at, v);
    }

    method AppendLeaf(c: Client) returns (leaf: nat)
      requires Valid() && InBounds(Live())
      modifies this, nodes
      ensures Valid() && (nodes == old(nodes) || fresh(nodes))
      ensures leaf == old(nodeCount) && nodeCount == leaf + 1
      ensures Live() == old(Live()) + [NewLeaf(Slot(old(nodes[..]), leaf), c)] && InBounds(Live())
      ensures Slot(nodes[..], leaf + 1) == Slot(old(nodes[..]), leaf + 1)
    {
      ghost var s, slot := Live(), Slot(nodes[..], nodeCount);
      leaf := NewNode();
      nodes[leaf] := nodes[leaf].(client := c, isNode := false);
      assert Live() == s + [NewLeaf(slot, c)];
    }

    /** `dwindle_insert` */
    method InsertClient(c: Client, focused: Client)
      requires Valid() && InBounds(Live())
      modifies this, nodes
      ensures Valid() && (nodes == old(nodes) || fresh(nodes))
      ensures Live() == Insert(old(Live()), Slot(old(nodes[..]), old(nodeCount)),
                               Slot(old(nodes[..]), old(nodeCount) + 1), c, focused)
    {
      var leaf := AppendLeaf(c);
      if nodeCount == 1 {
        return;
      }
      assert IsLeaf(Live(), leaf);
      var at := -1;
      if focused != NULL {
        at := FindLeafIndex(focused);
      }
      if at < 0 {
        at := FirstLeafIndex();
      }
      LinkNode(at);
    }

    /** The first loop of `dwindle_remove`: new indices, in a table of fixed size. */
    method FillRemap(leaf: nat, p: nat) returns (remap: array<int>, count: nat)
      requires Valid() && leaf < nodeCount && p < nodeCount && leaf != p && nodeCount <= MAX_NODES
      ensures fresh(remap) && remap.Length == MAX_NODES && count == nodeCount - 2
      ensures remap[..nodeCount] == RemapTable(nodeCount, leaf, p)
    {
      remap := new int[MAX_NODES];
      count := 0;
      var i := 0;
      while i < nodeCount
        invariant 0 <= i <= nodeCount
        invariant count == i - (if i > leaf then 1 else 0) - (if i > p then 1 else 0)
        invariant forall j | 0 <= j < i :: remap[j] == Remap(j, leaf, p)
      {
        if i == leaf || i == p {
          remap[i] := -1;
        } else {
          remap[i] := count;
          count := count + 1;
        }
        i := i + 1;
      }
    }

    /** The second loop: moves the kept entries down. */
    method MoveKept(remap: array<int>, leaf: nat, p: nat)
      requires Valid() && leaf < nodeCount && p < nodeCount && leaf != p && nodeCount <= remap.Length
      requires remap[..nodeCount] == RemapTable(nodeCount, leaf, p)
      requires remap as object != nodes
      modifies nodes
      ensures forall k | 0 <= k < nodeCount - 2 :: nodes[k] == old(nodes[..])[Unmap(k, leaf, p)]
    {
      var write, read := 0, 0;
      while read < nodeCount
        invariant 0 <= write <= read <= nodeCount
        invariant write == read - (if read > leaf then 1 else 0) - (if read > p then 1 else 0)
        invariant forall k | 0 <= k < write :: nodes[k] == old(nodes[..])[Unmap(k, leaf, p)]
        invariant forall k | read <= k < nodeCount :: nodes[k] == old(nodes[..])[k]
      {
        assert remap[read] == RemapTable(nodeCount, leaf, p)[read];
        if remap[read] >= 0 {
          nodes[write] := nodes[read];
          write := write + 1;
        }
        read := read + 1;
      }
    }

    /** The third loop: renumbers the links of the entries that are left. */
    method RenumberLinks(remap: array<int>, count: nat)
      requires Valid() && count == nodeCount
      requires remap as object != nodes
      requires forall i | 0 <= i < count ::
                 nodes[i].child0 < remap.Length && nodes[i].child1 < remap.Length && nodes[i].parent < remap.Length
      modifies nodes
      ensures forall i | 0 <= i < count :: nodes[i] == Renumber(old(nodes[..])[i], remap[..])
    {
      var i := 0;
      while i < count
        invariant 0 <= i <= count
        invariant forall j | 0 <= j < i :: nodes[j] == Renumber(old(nodes[..])[j], remap[..])
        invariant forall j | i <= j < count :: nodes[j] == old(nodes[..])[j]
      {
        if nodes[i].child0 >= 0 {
          nodes[i] := nodes[i].(child0 := remap[nodes[i].child0]);
        }
        if nodes[i].child1 >= 0 {
          nodes[i] := nodes[i].(child1 := remap[nodes[i].child1]);
        }
        if nodes[i].parent >= 0 {
          nodes[i] := nodes[i].(parent := remap[nodes[i].parent]);
        }
        i := i + 1;
      }
    }

    /** The first two loops: the entries that are kept, moved down. */
    method KeepNodes(leaf: nat, p: nat, ghost m: seq<int>, ghost kept: seq<int>) returns (remap: array<int>)
      requires Valid() && leaf < nodeCount && p < nodeCount && leaf != p && nodeCount <= MAX_NODES
      requires m == RemapTable(nodeCount, leaf, p) && kept == KeptTable(nodeCount, leaf, p)
      modifies this, nodes
      ensures Valid() && nodes == old(nodes) && fresh(remap) && remap.Length == MAX_NODES
      ensures nodeCount == old(nodeCount) - 2
      ensures forall i | 0 <= i < old(nodeCount) :: remap[i] == m[i]
      ensures forall k | 0 <= k < nodeCount :: 0 <= kept[k] < old(nodeCount) && nodes[k] == old(Live())[kept[k]]
    {
      ghost var n := nodeCount;
      TablesRenumber(n, leaf, p);
      var count;
      remap, count := FillRemap(leaf, p);
      assert forall i | 0 <= i < n :: remap[i] == remap[..n][i] == m[i];
      MoveKept(remap, leaf, p);
      nodeCount := count;
    }

    /** The three loops of `dwindle_remove`. */
    method CompactNodes(leaf: nat, p: nat, ghost m: seq<int>, ghost kept: seq<int>) returns (remap: array<int>)
      requires Valid() && leaf < nodeCount && p < nodeCount && leaf != p && nodeCount <= MAX_NODES
      requires InBounds(Live()) && m == RemapTable(nodeCount, leaf, p) && kept == KeptTable(nodeCount, leaf, p)
      modifies this, nodes
      ensures Valid() && nodes == old(nodes) && fresh(remap) && remap.Length == MAX_NODES
      ensures nodeCount == old(nodeCount) - 2
      ensures forall i | 0 <= i < old(nodeCount) :: remap[i] == m[i]
      ensures Live() == Compact(old(Live()), m, kept)
    {
      ghost var s := Live();
      remap := KeepNodes(leaf, p, m, kept);
      ghost var moved := nodes[..];
      RenumberLinks(remap, nodeCount);
      forall k | 0 <= k < nodeCount ensures Live()[k] == Renumber(s[kept[k]], m) {
        assert moved[k] == s[kept[k]];
      }
      assert Live() == Compact(s, m, kept);
    }

    /** The end of `dwindle_remove`: the sibling takes the parent's place. */
    method AdoptSibling(sibling: nat, gp: int)
      requires Valid() && sibling < nodeCount && -1 <= gp < nodeCount
      modifies nodes
      ensures Valid() && Live() == Lift(old(Live()), sibling, gp)
    {
      nodes[sibling] := nodes[sibling].(parent := gp);
      if gp >= 0 {
        if nodes[gp].child0 < 0 {
          nodes[gp] := nodes[gp].(child0 := sibling);
        } else if nodes[gp].child1 < 0 {
          nodes[gp] := nodes[gp].(child1 := sibling);
        }
      }
    }

    /** `dwindle_remove`, once the leaf is known to have a parent. */
    method SpliceLeaf(leaf: nat)
      requires Valid() && InBounds(Live()) && nodeCount <= MAX_NODES
      requires leaf < nodeCount && Removable(Live(), leaf) && nodes[leaf].parent >= 0
      modifies this, nodes
      ensures Valid() && nodes == old(nodes) && Live() == Splice(old(Live()), leaf)
    {
      var p := nodes[leaf].parent;
      var sibling := if nodes[p].child0 == leaf then nodes[p].child1 else nodes[p].child0;
      var gp := nodes[p].parent;
      ghost var s := Live();
      assert s[p] == nodes[p] && sibling == Sibling(s[p], leaf);
      ghost var m, kept, t := SourceTables(s, leaf);
      var remap := CompactNodes(leaf, p, m, kept);
      assert Live() == t;
      AdoptSibling(remap[sibling], if gp >= 0 then remap[gp] else -1);
    }

    /** `dwindle_remove` */
    method RemoveClient(c: Client)
      requires Valid() && InBounds(Live()) && StaysInside(Live(), c)
      modifies this, nodes
      ensures Valid() && nodes == old(nodes) && Live() == Remove(old(Live()), c)
    {
      var leaf := FindLeafIndex(c);
      if leaf < 0 {
        return;
      }
      if nodes[leaf].parent < 0 {
        nodeCount := 0;
        return;
      }
      SpliceLeaf(leaf);
    }

    /** The first loop of `dwindle_recalc`: boxes, in index order. */
    method RecalcBoxes(gap: int)
      requires Valid() && InBounds(Live())
      modifies nodes
      ensures Valid() && Live() == Recalc(old(Live()), gap)
    {
      ghost var result := Recalc(Live(), gap);
      var i := 0;
      while i < nodeCount
        invariant 0 <= i <= nodeCount && InBounds(Live())
        invariant RecalcFrom(Live(), i, gap) == result
      {
        RecalcBox(i, gap);
        i := i + 1;
      }
    }

    method RecalcBox(i: nat, gap: int)
      requires Valid() && InBounds(Live()) && i < nodeCount
      modifies nodes
      ensures Valid() && Live() == RecalcAt(old(Live()), i, gap) && InBounds(Live())
    {
      ghost var s := Live();
      var n := nodes[i];
      if n.isNode && n.child0 >= 0 && n.child1 >= 0 {
        nodes[i] := n.(splitTop := n.box.height > n.box.width);
        nodes[n.child0] := nodes[n.child0].(box := FirstHalf(n.box, gap));
        nodes[n.child1] := nodes[n.child1].(
          box := Remainder(nodes[i].box, SplitsTop(n.box), FirstLength(LongSide(n.box), gap), gap));
      }
      assert Live() == RecalcAt(s, i, gap);
      RecalcAtInBounds(s, i, gap);
    }

    /** The second loop: one `resize` per leaf whose client is not fullscreen. */
    method ResizeClients(fullscreen: set<Client>) returns (resized: seq<(Client, Box)>)
      requires Valid()
      ensures resized == Resizes(Live(), fullscreen)
    {
      resized := [];
      var i := 0;
      while i < nodeCount
        invariant 0 <= i <= nodeCount
        invariant resized + ResizesFrom(Live(), i, fullscreen) == Resizes(Live(), fullscreen)
      {
        var n := nodes[i];
        ghost var before, rest := resized, ResizesFrom(Live(), i + 1, fullscreen);
        assert n == Live()[i];
        if !n.isNode && n.client != NULL && n.client !in fullscreen {
          resized := resized + [(n.client, n.box)];
        }
        assert resized == before + ResizeOf(n, fullscreen);
        assert before + (ResizeOf(n, fullscreen) + rest) == resized + rest;
        i := i + 1;
      }
      assert ResizesFrom(Live(), i, fullscreen) == [];
    }

    /** `dwindle_recalc`: the boxes, and the resize calls in the order they are made. */
    method Recalculate(gap: int, fullscreen: set<Client>) returns (resized: seq<(Client, Box)>)
      requires Valid() && InBounds(Live())
      modifies nodes
      ensures Valid() && Live() == Recalc(old(Live()), gap)
      ensures resized == Resizes(Live(), fullscreen)
    {
      RecalcBoxes(gap);
      resized := ResizeClients(fullscreen);
    }

    /** The part shared by `dwindle`, `swapdir` and `swaptiled`: root box, then recalculation. */
    method SettleRoot(area: Box, gap: int, fullscreen: set<Client>) returns (resized: seq<(Client, Box)>)
      requires Valid() && InBounds(Live())
      modifies nodes
      ensures Valid() && Live() == Settle(old(Live()), area, gap)
      ensures resized == if FindRoot(old(Live())) < 0 then [] else Resizes(Live(), fullscreen)
    {
      var root := FindRootIndex();
      if root < 0 {
        return [];
      }
      ghost var s := Live();
      nodes[root] := nodes[root].(box := Box(area.x + gap, area.y + gap, Max(1, area.width - 2 * gap),
                                             Max(1, area.height - 2 * gap)));
      assert Live() == WithRootBox(s, RootBox(area, gap));
      SameLinksInBounds(s, Live());
      resized := Recalculate(gap, fullscreen);
    }

    /** The dwindle branch of `swapdir`. */
    method SwapWindows(a: Client, b: Client, area: Box, gap: int, fullscreen: set<Client>)
      returns (resized: seq<(Client, Box)>)
      requires Valid() && InBounds(Live())
      modifies nodes
      ensures Valid() && InBounds(Swap(old(Live()), a, b))
      ensures if FindLeaf(old(Live()), a) >= 0 && FindLeaf(old(Live()), b) >= 0 then
                && Live() == Settle(Swap(old(Live()), a, b), area, gap)
                && resized == if FindRoot(Live()) < 0 then [] else Resizes(Live(), fullscreen)
              else Live() == old(Live()) && resized == []
    {
      ghost var s := Live();
      var i := FindLeafIndex(a);
      var j := FindLeafIndex(b);
      if i < 0 || j < 0 {
        return [];
      }
      nodes[i] := nodes[i].(client := b);
      nodes[j] := nodes[j].(client := a);
      ghost var t := Live();
      assert t == Swap(s, a, b);
      resized := SettleRoot(area, gap, fullscreen);
      SameLinksRoot(t, Live());
    }

    // ----- dwindle -----------------------------------------------------------------------

    /** The stale loop of `dwindle`: for each leaf, a scan of the client list; the list holds 512. */
    method CollectStale(ws: seq<Window>, m: Screen) returns (stale: seq<Client>)
      requires Valid() && ValidScreen(m)
      ensures var all := Stale(Live(), nodeCount, ws, m);
              stale == all[..Min(MAX_NODES, |all|)] && |all| <= nodeCount
    {
      stale := [];
      var i := 0;
      while i < nodeCount
        invariant 0 <= i <= nodeCount && |Stale(Live(), i, ws, m)| <= i
        invariant stale == Stale(Live(), i, ws, m)[..Min(MAX_NODES, |Stale(Live(), i, ws, m)|)]
      {
        var n := nodes[i];
        if !n.isNode {
          var found, k := false, 0;
          while k < |ws| && !found
            decreases |ws| - k, !found
            invariant 0 <= k <= |ws|
            invariant found ==> StaysListed(ws, m, n.client)
            invariant !found ==> forall j | 0 <= j < k :: !(ws[j].id == n.client && Stays(ws[j], m))
          {
            if ws[k].id == n.client && VisibleOn(ws[k], m) && !ws[k].floating {
              found := true;
            } else {
              k := k + 1;
            }
          }
          if !found && |stale| < MAX_NODES {
            stale := stale + [n.client];
          }
        }
        i := i + 1;
      }
    }

    method RemoveEach(cs: seq<Client>)
      requires Valid() && InBounds(Live()) && AllStayInside(Live(), cs)
      modifies this, nodes
      ensures Valid() && nodes == old(nodes)
      ensures Live() == RemoveAll(old(Live()), cs)
    {
      ghost var s := Live();
      var i := 0;
      assert cs[..0] == [];
      while i < |cs|
        invariant 0 <= i <= |cs| && Valid() && nodes == old(nodes)
        invariant Live() == RemoveAll(s, cs[..i])
      {
        RemoveAllStep(s, cs, i);
        RemoveClient(cs[i]);
        i := i + 1;
      }
      assert cs[..i] == cs;
    }

    method RemoveStale(ws: seq<Window>, m: Screen)
      requires Valid() && ValidScreen(m) && InBounds(Live()) && PruningStaysInside(Live(), ws, m)
      modifies this, nodes
      ensures Valid() && nodes == old(nodes)
      ensures Live() == Pruned(old(Live()), ws, m)
    {
      ghost var all := Stale(Live(), nodeCount, ws, m);
      if nodeCount > 0 {
        var stale := CollectStale(ws, m);
        assert stale == all;
        RemoveEach(stale);
      } else {
        assert all == [] && Live() == [];
      }
    }

    /** One turn of the insertion loop. */
    method InsertIfMissing(w: Window, m: Screen, focused: Client) returns (next: Client)
      requires Valid() && ValidScreen(m) && InBounds(Live())
      modifies this, nodes
      ensures Valid() && (nodes == old(nodes) || fresh(nodes))
      ensures next == if Missing(old(Live()), w, m) then w.id else focused
      ensures Live() == if Missing(old(Live()), w, m)
                        then Insert(old(Live()), Slot(old(nodes[..]), old(nodeCount)),
                                    Slot(old(nodes[..]), old(nodeCount) + 1), w.id, focused)
                        else old(Live())
    {
      if !VisibleOn(w, m) || w.floating || w.fullscreen {
        return focused;
      }
      var at := FindLeafIndex(w.id);
      if at >= 0 {
        return focused;
      }
      InsertClient(w.id, focused);
      return w.id;
    }

    /** The insertion loop; `slots` records what the array entries held before. */
    method InsertMissing(ws: seq<Window>, m: Screen, focused: Client) returns (ghost slots: seq<(Node, Node)>)
      requires Valid() && ValidScreen(m) && InBounds(Live())
      modifies this, nodes
      ensures Valid() && (nodes == old(nodes) || fresh(nodes))
      ensures |slots| == |ws| && Live() == InsertAll(old(Live()), slots, ws, m, focused)
    {
      ghost var s := Live();
      slots := [];
      var f, k := focused, 0;
      while k < |ws|
        invariant 0 <= k <= |ws| && |slots| == k
        invariant Valid() && (nodes == old(nodes) || fresh(nodes))
        invariant Live() == InsertAll(s, slots, ws[..k], m, focused)
        invariant f == AnchorAfter(s, slots, ws[..k], m, focused)
      {
        ghost var pair := (Slot(nodes[..], nodeCount), Slot(nodes[..], nodeCount + 1));
        InsertAllSnoc(s, slots, ws[..k], m, focused, pair, ws[k]);
        assert ws[..k + 1] == ws[..k] + [ws[k]];
        f := InsertIfMissing(ws[k], m, f);
        slots := slots + [pair];
        k := k + 1;
      }
      assert ws[..k] == ws;
    }

    /** `dwindle` on the tree of the monitor's current tag. */
    method Dwindle(ws: seq<Window>, m: Screen, focused: Client, cfg: Config)
      returns (resized: seq<(Client, Box)>, ghost slots: seq<(Node, Node)>)
      requires Valid() && ValidScreen(m) && InBounds(Live())
      requires CountTiles(ws, m) > 0 ==> PruningStaysInside(Live(), ws, m)
      modifies this, nodes
      ensures Valid() && (nodes == old(nodes) || fresh(nodes))
      ensures |slots| == |ws| && Live() == Reconcile(old(Live()), slots, ws, m, focused, cfg)
      ensures resized == if CountTiles(ws, m) == 0 || FindRoot(Live()) < 0 then []
                         else Resizes(Live(), Fullscreen(ws))
    {
      var n, k := 0, 0;
      while k < |ws|
        invariant 0 <= k <= |ws| && n == CountTiles(ws[..k], m)
      {
        assert ws[..k + 1][..k] == ws[..k];
        if VisibleOn(ws[k], m) && !ws[k].floating && !ws[k].fullscreen {
          n := n + 1;
        }
        k := k + 1;
      }
      assert ws[..k] == ws;
      if n == 0 {
        slots := seq(|ws|, _ => (ZERO_NODE, ZERO_NODE));
        return [], slots;
      }
      var gap := if m.gaps && !(cfg.smartGaps && n == 1) then cfg.gaps else 0;
      ghost var s := Live();
      RemoveStale(ws, m);
      slots := InsertMissing(ws, m, focused);
      ghost var q := Live();
      resized := SettleRoot(m.area, gap, Fullscreen(ws));
      SameLinksRoot(q, Live());
    }
  }

  /** The tables of the source, in which splicing is specified. */
  lemma SourceTables(s: seq<Node>, leaf: nat) returns (m: seq<int>, kept: seq<int>, t: seq<Node>)
    requires InBounds(s) && Removable(s, leaf) && s[leaf].parent >= 0
    ensures m == RemapTable(|s|, leaf, s[leaf].parent) && kept == KeptTable(|s|, leaf, s[leaf].parent)
    ensures (forall k | 0 <= k < |kept| :: 0 <= kept[k] < |s|) && t == Compact(s, m, kept) && |t| == |s| - 2
    ensures var p := s[leaf].parent;
            && 0 <= m[Sibling(s[p], leaf)] < |t| && -1 <= Lookup(m, s[p].parent) < |t|
            && Splice(s, leaf) == Lift(t, m[Sibling(s[p], leaf)], Lookup(m, s[p].parent))
  {
    m, kept := RemapTable(|s|, leaf, s[leaf].parent), KeptTable(|s|, leaf, s[leaf].parent);
    TablesRenumber(|s|, leaf, s[leaf].parent);
    t := Compact(s, m, kept);
  }

  lemma LinkAboveIs(t: seq<Node>, slot: Node, at: nat, v: seq<Node>)
    requires at < |t| && -1 <= t[at].parent < |t|
    requires v == t + [Fresh(slot).(isNode := true, box := t[at].box, splitTop := SplitsTop(t[at].box),
                                    child0 := at, child1 := |t| - 1, parent := t[at].parent)]
    ensures var leaf, top, gp := |t| - 1, |t|, t[at].parent;
            var w := v[at := v[at].(parent := top)];
            var x := w[leaf := w[leaf].(parent := top)];
            LinkAbove(t, slot, at) == if gp >= 0 then x[gp := Relink(x[gp], at, top)] else x
  {
  }

  lemma SameLinksRoot(s: seq<Node>, t: seq<Node>)
    requires SameLinks(s, t)
    ensures FindRoot(t) == FindRoot(s)
  {
    SameLinksRootFrom(s, t, 0);
  }

  lemma {:induction false} SameLinksRootFrom(s: seq<Node>, t: seq<Node>, from: nat)
    requires SameLinks(s, t) && from <= |s|
    ensures FindRootFrom(t, from) == FindRootFrom(s, from)
    decreases |s| - from
  {
    if from == |s| {
    } else {
      SameLink(s, t, from);
      SameLinksRootFrom(s, t, from + 1);
    }
  }
}

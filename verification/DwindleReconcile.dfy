// `dwindle`: keeping a tree in step with the client list.

module DwindleReconcile {
  import opened Boxes
  import opened ClientIds
  import opened Lists
  import opened DwindleNodes
  import opened DwindleShape
  import opened DwindleAbstraction
  import opened DwindleLayout
  import opened Windows

  // ----- pruning -------------------------------------------------------------------------

  /** The clients of leaves among the first `upto` entries that are no longer listed, visible and tiled. */
  function Stale(s: seq<Node>, upto: nat, ws: seq<Window>, m: Screen): seq<Client>
    requires ValidScreen(m) && upto <= |s|
  {
    if upto == 0 then []
    else
      Stale(s, upto - 1, ws, m)
      + (if !s[upto - 1].isNode && !StaysListed(ws, m, s[upto - 1].client) then [s[upto - 1].client] else [])
  }

  lemma {:induction false} StaleIs(s: seq<Node>, upto: nat, ws: seq<Window>, m: Screen, c: Client)
    requires ValidScreen(m) && upto <= |s|
    ensures c in Stale(s, upto, ws, m) <==>
            !StaysListed(ws, m, c) && exists i :: 0 <= i < upto && Holds(s, i, c)
  {
    if upto == 0 {
    } else {
      StaleIs(s, upto - 1, ws, m, c);
      assert Holds(s, upto - 1, s[upto - 1].client) <==> !s[upto - 1].isNode;
    }
  }

  /** Removes the clients one after the other. */
  function RemoveAll(s: seq<Node>, cs: seq<Client>): (r: seq<Node>)
    requires InBounds(s)
    ensures InBounds(r) && |r| <= |s|
  {
    if cs == [] then s else Remove(RemoveAll(s, cs[..|cs| - 1]), cs[|cs| - 1])
  }

  /** None of these removals leaves the arrays. */
  ghost predicate AllStayInside(s: seq<Node>, cs: seq<Client>)
    requires InBounds(s)
  {
    forall i | 0 <= i < |cs| :: StaysInside(RemoveAll(s, cs[..i]), cs[i])
  }

  lemma {:induction false} RemoveAllKeepsShape(s: seq<Node>, cs: seq<Client>)
    requires WellFormed(s)
    ensures WellFormed(RemoveAll(s, cs))
  {
    if cs == [] {
    } else {
      RemoveAllKeepsShape(s, cs[..|cs| - 1]);
      RemoveKeepsShape(RemoveAll(s, cs[..|cs| - 1]), cs[|cs| - 1]);
    }
  }

  lemma RemovalsShape(s: seq<Node>, cs: seq<Client>)
    requires InBounds(s)
    ensures WellFormed(s) ==> WellFormed(RemoveAll(s, cs))
  {
    if WellFormed(s) {
      RemoveAllKeepsShape(s, cs);
    }
  }

  /** In a well-formed tree of at most 512 entries every sequence of removals stays inside. */
  lemma RemovalsStayInside(s: seq<Node>, cs: seq<Client>)
    requires WellFormed(s) && |s| <= MAX_NODES
    ensures AllStayInside(s, cs)
  {
    forall i | 0 <= i < |cs| ensures StaysInside(RemoveAll(s, cs[..i]), cs[i]) {
      RemoveAllKeepsShape(s, cs[..i]);
      RemoveKeepsShape(RemoveAll(s, cs[..i]), cs[i]);
    }
  }

  lemma RemoveAllStep(s: seq<Node>, cs: seq<Client>, i: nat)
    requires InBounds(s) && i < |cs|
    ensures RemoveAll(s, cs[..i + 1]) == Remove(RemoveAll(s, cs[..i]), cs[i])
  {
    assert cs[..i + 1][..i] == cs[..i];
  }

  /** The clients that stay, in their order. */
  function Kept(cs: seq<Client>, ws: seq<Window>, m: Screen): seq<Client>
    requires ValidScreen(m)
  {
    if cs == [] then []
    else (if StaysListed(ws, m, cs[0]) then [cs[0]] else []) + Kept(cs[1..], ws, m)
  }

  function WithoutAll(cs: seq<Client>, gone: seq<Client>): seq<Client> {
    if gone == [] then cs else Without(WithoutAll(cs, gone[..|gone| - 1]), gone[|gone| - 1])
  }

  lemma {:induction false} RemoveAllOrder(s: seq<Node>, gone: seq<Client>)
    requires WellFormed(s)
    ensures WellFormed(RemoveAll(s, gone))
    ensures Order(RemoveAll(s, gone)) == WithoutAll(Order(s), gone)
  {
    if gone == [] {
    } else {
      RemoveAllOrder(s, gone[..|gone| - 1]);
      RemoveOrder(RemoveAll(s, gone[..|gone| - 1]), gone[|gone| - 1]);
    }
  }

  lemma {:induction false} WithoutAllHead(cs: seq<Client>, gone: seq<Client>)
    requires cs != []
    ensures WithoutAll(cs, gone) == (if cs[0] in gone then [] else [cs[0]]) + WithoutAll(cs[1..], gone)
  {
    if gone == [] {
      assert cs == [cs[0]] + cs[1..];
    } else {
      var front, last := gone[..|gone| - 1], gone[|gone| - 1];
      assert gone == front + [last];
      WithoutAllHead(cs, front);
      var head := if cs[0] in front then [] else [cs[0]];
      WithoutConcat(head, WithoutAll(cs[1..], front), last);
    }
  }

  /** Removing exactly the clients that do not stay leaves the ones that do, in order. */
  lemma {:induction false} WithoutAllIsKept(cs: seq<Client>, gone: seq<Client>, ws: seq<Window>, m: Screen)
    requires ValidScreen(m)
    requires forall c | c in cs :: c in gone <==> !StaysListed(ws, m, c)
    ensures WithoutAll(cs, gone) == Kept(cs, ws, m)
  {
    if cs == [] {
      WithoutAllEmpty(gone);
    } else {
      WithoutAllHead(cs, gone);
      WithoutAllIsKept(cs[1..], gone, ws, m);
    }
  }

  lemma {:induction false} WithoutAllEmpty(gone: seq<Client>)
    ensures WithoutAll([], gone) == []
  {
    if gone == [] {
    } else {
      WithoutAllEmpty(gone[..|gone| - 1]);
    }
  }

  /** The tree after the stale clients have been removed. */
  ghost function Pruned(s: seq<Node>, ws: seq<Window>, m: Screen): (r: seq<Node>)
    requires InBounds(s) && ValidScreen(m)
    ensures InBounds(r) && |r| <= |s|
    ensures WellFormed(s) ==> WellFormed(r)
  {
    RemovalsShape(s, Stale(s, |s|, ws, m));
    RemoveAll(s, Stale(s, |s|, ws, m))
  }

  /** The stale clients fit their array, and removing them never leaves the arrays. */
  ghost predicate PruningStaysInside(s: seq<Node>, ws: seq<Window>, m: Screen)
    requires InBounds(s) && ValidScreen(m)
  {
    |Stale(s, |s|, ws, m)| <= MAX_NODES && AllStayInside(s, Stale(s, |s|, ws, m))
  }

  lemma {:induction false} StaleLength(s: seq<Node>, upto: nat, ws: seq<Window>, m: Screen)
    requires ValidScreen(m) && upto <= |s|
    ensures |Stale(s, upto, ws, m)| <= upto
  {
    if upto == 0 {
    } else {
      StaleLength(s, upto - 1, ws, m);
    }
  }

  /** In a well-formed tree of at most 512 entries pruning stays inside, whatever the client list. */
  lemma PruningInside(s: seq<Node>, ws: seq<Window>, m: Screen)
    requires WellFormed(s) && ValidScreen(m) && |s| <= MAX_NODES
    ensures PruningStaysInside(s, ws, m)
  {
    StaleLength(s, |s|, ws, m);
    RemovalsStayInside(s, Stale(s, |s|, ws, m));
  }

  lemma PrunedOrder(s: seq<Node>, ws: seq<Window>, m: Screen)
    requires WellFormed(s) && ValidScreen(m)
    ensures Order(Pruned(s, ws, m)) == Kept(Order(s), ws, m)
    ensures forall c :: Absent(Pruned(s, ws, m), c) <==> Absent(s, c) || !StaysListed(ws, m, c)
  {
    var gone := Stale(s, |s|, ws, m);
    OrderIsClients(s);
    forall c | c in Order(s) ensures c in gone <==> !StaysListed(ws, m, c) {
      StaleIs(s, |s|, ws, m, c);
      assert Holds(s, FindLeaf(s, c), c);
    }
    RemoveAllOrder(s, gone);
    WithoutAllIsKept(Order(s), gone, ws, m);
    OrderIsClients(Pruned(s, ws, m));
    forall c ensures Absent(Pruned(s, ws, m), c) <==> Absent(s, c) || !StaysListed(ws, m, c) {
      KeptIs(Order(s), ws, m, c);
    }
  }

  lemma {:induction false} KeptIs(cs: seq<Client>, ws: seq<Window>, m: Screen, c: Client)
    requires ValidScreen(m)
    ensures c in Kept(cs, ws, m) <==> c in cs && StaysListed(ws, m, c)
  {
    if cs == [] {
    } else {
      KeptIs(cs[1..], ws, m, c);
    }
  }

  // ----- adding --------------------------------------------------------------------------

  /** Whether `w` is given a new leaf. */
  predicate Missing(s: seq<Node>, w: Window, m: Screen)
    requires ValidScreen(m)
  {
    Tiles(w, m) && FindLeaf(s, w.id) < 0
  }

  /** The clients that need a leaf, in list order. */
  function Newcomers(s: seq<Node>, ws: seq<Window>, m: Screen): seq<Client>
    requires ValidScreen(m)
  {
    if ws == [] then []
    else (if Missing(s, ws[0], m) then [ws[0].id] else []) + Newcomers(s, ws[1..], m)
  }

  /**
   * The insertion loop over the windows `ws`: each new client becomes the anchor of the next.
   * `slots` gives, per window, what the two array entries held before.
   */
  function InsertAll(s: seq<Node>, slots: seq<(Node, Node)>, ws: seq<Window>, m: Screen, focused: Client)
    : (r: seq<Node>)
    requires InBounds(s) && ValidScreen(m) && |slots| == |ws|
    ensures InBounds(r)
    decreases |ws|
  {
    if ws == [] then s
    else if Missing(s, ws[0], m) then
      InsertInBounds(s, slots[0].0, slots[0].1, ws[0].id, focused);
      InsertAll(Insert(s, slots[0].0, slots[0].1, ws[0].id, focused), slots[1..], ws[1..], m, ws[0].id)
    else InsertAll(s, slots[1..], ws[1..], m, focused)
  }

  /** The anchor that the insertion loop has reached after the windows `ws`. */
  function AnchorAfter(s: seq<Node>, slots: seq<(Node, Node)>, ws: seq<Window>, m: Screen, focused: Client): Client
    requires InBounds(s) && ValidScreen(m) && |slots| == |ws|
    decreases |ws|
  {
    if ws == [] then focused
    else if Missing(s, ws[0], m) then
      InsertInBounds(s, slots[0].0, slots[0].1, ws[0].id, focused);
      AnchorAfter(Insert(s, slots[0].0, slots[0].1, ws[0].id, focused), slots[1..], ws[1..], m, ws[0].id)
    else AnchorAfter(s, slots[1..], ws[1..], m, focused)
  }

  /** One more turn of the insertion loop. */
  lemma {:induction false} InsertAllSnoc(s: seq<Node>, slots: seq<(Node, Node)>, ws: seq<Window>, m: Screen,
                                         focused: Client, pair: (Node, Node), w: Window)
    requires InBounds(s) && ValidScreen(m) && |slots| == |ws|
    ensures var t := InsertAll(s, slots, ws, m, focused);
            var f := AnchorAfter(s, slots, ws, m, focused);
            && InsertAll(s, slots + [pair], ws + [w], m, focused) ==
               (if Missing(t, w, m) then Insert(t, pair.0, pair.1, w.id, f) else t)
            && AnchorAfter(s, slots + [pair], ws + [w], m, focused) == (if Missing(t, w, m) then w.id else f)
    decreases |ws|
  {
    var slots', ws' := slots + [pair], ws + [w];
    if ws == [] {
      assert ws' == [w] && ws'[1..] == [] && slots'[1..] == [];
    } else {
      assert ws'[1..] == ws[1..] + [w] && slots'[1..] == slots[1..] + [pair];
      if Missing(s, ws[0], m) {
        InsertInBounds(s, slots[0].0, slots[0].1, ws[0].id, focused);
        InsertAllSnoc(Insert(s, slots[0].0, slots[0].1, ws[0].id, focused), slots[1..], ws[1..], m, ws[0].id,
                      pair, w);
      } else {
        InsertAllSnoc(s, slots[1..], ws[1..], m, focused, pair, w);
      }
    }
  }

  /** `block` placed right after `a`. */
  function InsertBlock(cs: seq<Client>, a: Client, block: seq<Client>): seq<Client> {
    if cs == [] then []
    else if cs[0] == a then [a] + block + cs[1..]
    else [cs[0]] + InsertBlock(cs[1..], a, block)
  }

  lemma {:induction false} InsertBlockStep(cs: seq<Client>, a: Client, c: Client, block: seq<Client>)
    requires NoDuplicates(cs) && c !in cs && a in cs
    ensures InsertBlock(InsertAfter(cs, a, c), c, block) == InsertBlock(cs, a, [c] + block)
  {
    Tail(cs);
    if cs[0] == a {
      InsertAfterAbsent(cs[1..], a, c);
      assert InsertAfter(cs, a, c) == [a] + ([c] + cs[1..]);
      assert InsertAfter(cs, a, c)[1..] == [c] + cs[1..];
    } else {
      InsertBlockStep(cs[1..], a, c, block);
      assert InsertAfter(cs, a, c)[1..] == InsertAfter(cs[1..], a, c);
    }
  }

  lemma Tail<T>(cs: seq<T>)
    requires NoDuplicates(cs) && |cs| > 0
    ensures NoDuplicates(cs[1..]) && cs[0] !in cs[1..]
  {
    assert cs == [cs[0]] + cs[1..];
    SplitDistinct([cs[0]], cs[1..]);
    assert cs[0] in [cs[0]];
  }

  lemma {:induction false} InsertAfterAbsent(cs: seq<Client>, a: Client, c: Client)
    requires a !in cs
    ensures InsertAfter(cs, a, c) == cs
  {
    if cs == [] {
    } else {
      InsertAfterAbsent(cs[1..], a, c);
    }
  }

  lemma {:induction false} InsertBlockNone(cs: seq<Client>, a: Client)
    ensures InsertBlock(cs, a, []) == cs
  {
    if cs == [] {
    } else {
      InsertBlockNone(cs[1..], a);
    }
  }

  /** Adding a client to the tree takes only that client off the list of newcomers. */
  lemma {:induction false} NewcomersAfter(s: seq<Node>, t: seq<Node>, ws: seq<Window>, m: Screen, c: Client)
    requires ValidScreen(m) && forall i | 0 <= i < |ws| :: ws[i].id != c
    requires forall d | d != c :: Absent(t, d) <==> Absent(s, d)
    ensures Newcomers(t, ws, m) == Newcomers(s, ws, m)
  {
    if ws == [] {
    } else {
      assert Absent(t, ws[0].id) <==> Absent(s, ws[0].id);
      assert Absent(s, ws[0].id) <==> FindLeaf(s, ws[0].id) < 0;
      assert Absent(t, ws[0].id) <==> FindLeaf(t, ws[0].id) < 0;
      NewcomersAfter(s, t, ws[1..], m, c);
    }
  }

  lemma InsertMembers(s: seq<Node>, slot0: Node, slot1: Node, c: Client, focused: Client)
    requires WellFormed(s) && Absent(s, c) && c != NULL && (|s| == 0 || focused != c)
    ensures WellFormed(Insert(s, slot0, slot1, c, focused))
    ensures forall d :: Absent(Insert(s, slot0, slot1, c, focused), d) <==> d != c && Absent(s, d)
  {
    InsertKeepsShape(s, slot0, slot1, c, focused);
    var r := Insert(s, slot0, slot1, c, focused);
    if |s| == 0 {
      assert Holds(r, 0, c);
    } else {
      AnchorIsOld(s, slot0, c, focused);
      var at := Anchor(s + [NewLeaf(slot0, c)], focused);
      InsertDistinct(s, slot0, slot1, c, at);
      assert Holds(r, |s|, c);
      forall d ensures Absent(r, d) <==> d != c && Absent(s, d) {
        if i :| Holds(s, i, d) {
          assert Holds(r, i, d);
        }
      }
    }
  }

  lemma ValidTail(ws: seq<Window>)
    requires ValidList(ws) && ws != []
    ensures ValidList(ws[1..]) && forall i | 0 <= i < |ws[1..]| :: ws[1..][i].id != ws[0].id
  {
    forall i, j | 0 <= i < |ws[1..]| && 0 <= j < |ws[1..]| && ws[1..][i].id == ws[1..][j].id ensures i == j {
      assert ws[i + 1].id == ws[j + 1].id;
    }
    forall i | 0 <= i < |ws[1..]| ensures ws[1..][i].id != ws[0].id && ws[1..][i].id != NULL {
      assert ws[1..][i] == ws[i + 1];
    }
  }

  /** The focus anchor is harmless: the tree is empty or the first newcomer is not the anchor. */
  predicate SafeFocus(s: seq<Node>, newcomers: seq<Client>, focused: Client) {
    |s| == 0 || newcomers == [] || newcomers[0] != focused
  }

  /** With a harmless anchor the newcomers form one block right after it, in list order. */
  lemma {:induction false} InsertAllOrder(s: seq<Node>, slots: seq<(Node, Node)>, ws: seq<Window>, m: Screen,
                                          focused: Client)
    requires WellFormed(s) && ValidScreen(m) && ValidList(ws) && |slots| == |ws|
    requires SafeFocus(s, Newcomers(s, ws, m), focused)
    ensures WellFormed(InsertAll(s, slots, ws, m, focused))
    ensures |s| > 0 ==> exists i :: IsLeaf(s, i)
    ensures Order(InsertAll(s, slots, ws, m, focused)) ==
            if |s| == 0 then Newcomers(s, ws, m)
            else InsertBlock(Order(s), AnchorClient(s, focused), Newcomers(s, ws, m))
    decreases |ws|, 1
  {
    if |s| > 0 {
      HasLeaf(s);
    }
    if ws == [] {
      if |s| > 0 {
        InsertBlockNone(Order(s), AnchorClient(s, focused));
      }
    } else {
      ValidTail(ws);
      if Missing(s, ws[0], m) {
        InsertAllStep(s, slots, ws, m, focused);
      } else {
        assert Newcomers(s, ws, m) == Newcomers(s, ws[1..], m);
        InsertAllOrder(s, slots[1..], ws[1..], m, focused);
      }
    }
  }

  /** The first newcomer's insertion: it follows the anchor, and the other newcomers stay the same. */
  lemma FirstNewcomer(s: seq<Node>, slots: seq<(Node, Node)>, ws: seq<Window>, m: Screen, focused: Client)
    returns (t: seq<Node>)
    requires WellFormed(s) && ValidScreen(m) && ValidList(ws) && |slots| == |ws| && ws != []
    requires Missing(s, ws[0], m) && (|s| == 0 || focused != ws[0].id)
    ensures t == Insert(s, slots[0].0, slots[0].1, ws[0].id, focused)
    ensures WellFormed(t) && |t| > 0 && !Absent(t, ws[0].id)
    ensures Newcomers(t, ws[1..], m) == Newcomers(s, ws[1..], m) && ws[0].id !in Newcomers(s, ws[1..], m)
    ensures |s| > 0 ==> exists i :: IsLeaf(s, i)
    ensures Order(t) == if |s| == 0 then [ws[0].id] else InsertAfter(Order(s), AnchorClient(s, focused), ws[0].id)
  {
    var c := ws[0].id;
    t := Insert(s, slots[0].0, slots[0].1, c, focused);
    ValidTail(ws);
    PresentIsFound(s, c);
    InsertOrder(s, slots[0].0, slots[0].1, c, focused);
    InsertMembers(s, slots[0].0, slots[0].1, c, focused);
    NewcomersAfter(s, t, ws[1..], m, c);
    NewcomersAvoid(s, ws[1..], m, c);
  }

  /** A newcomer's block, in two steps: the newcomer after the anchor, the rest after the newcomer. */
  lemma BlockInTwoSteps(s: seq<Node>, focused: Client, c: Client, rest: seq<Client>)
    requires WellFormed(s) && |s| > 0 && c !in Order(s)
    ensures exists i :: IsLeaf(s, i)
    ensures var a := AnchorClient(s, focused);
            InsertBlock(InsertAfter(Order(s), a, c), c, rest) == InsertBlock(Order(s), a, [c] + rest)
  {
    HasLeaf(s);
    OrderIsClients(s);
    var a := AnchorClient(s, focused);
    assert Holds(s, Anchor(s, focused), a);
    InsertBlockStep(Order(s), a, c, rest);
  }

  lemma {:induction false} InsertAllStep(s: seq<Node>, slots: seq<(Node, Node)>, ws: seq<Window>, m: Screen,
                                         focused: Client)
    requires WellFormed(s) && ValidScreen(m) && ValidList(ws) && |slots| == |ws| && ws != []
    requires Missing(s, ws[0], m) && SafeFocus(s, Newcomers(s, ws, m), focused)
    ensures WellFormed(InsertAll(s, slots, ws, m, focused))
    ensures |s| > 0 ==> exists i :: IsLeaf(s, i)
    ensures Order(InsertAll(s, slots, ws, m, focused)) ==
            if |s| == 0 then Newcomers(s, ws, m)
            else InsertBlock(Order(s), AnchorClient(s, focused), Newcomers(s, ws, m))
    decreases |ws|, 0
  {
    var c, rest := ws[0].id, Newcomers(s, ws[1..], m);
    assert Newcomers(s, ws, m) == [c] + rest;
    var t := FirstNewcomer(s, slots, ws, m, focused);
    ValidTail(ws);
    InsertAllOrder(t, slots[1..], ws[1..], m, c);
    AnchorPresent(t, c);
    assert InsertAll(s, slots, ws, m, focused) == InsertAll(t, slots[1..], ws[1..], m, c);
    if |s| > 0 {
      OrderIsClients(s);
      BlockInTwoSteps(s, focused, c, rest);
    }
  }

  lemma AnchorPresent(t: seq<Node>, c: Client)
    requires !Absent(t, c) && c != NULL
    ensures exists i :: IsLeaf(t, i)
    ensures AnchorClient(t, c) == c
  {
    var i :| Holds(t, i, c);
    assert IsLeaf(t, i);
    assert Holds(t, Anchor(t, c), c);
  }

  lemma {:induction false} NewcomersAvoid(s: seq<Node>, ws: seq<Window>, m: Screen, c: Client)
    requires ValidScreen(m) && forall i | 0 <= i < |ws| :: ws[i].id != c
    ensures c !in Newcomers(s, ws, m)
  {
    if ws == [] {
    } else {
      NewcomersAvoid(s, ws[1..], m, c);
    }
  }

  lemma {:induction false} InsertAllBroken(s: seq<Node>, slots: seq<(Node, Node)>, ws: seq<Window>, m: Screen,
                                           focused: Client)
    requires InBounds(s) && Broken(s) && ValidScreen(m) && |slots| == |ws|
    ensures Broken(InsertAll(s, slots, ws, m, focused))
    decreases |ws|
  {
    if ws == [] {
    } else {
      if Missing(s, ws[0], m) {
        InsertInBounds(s, slots[0].0, slots[0].1, ws[0].id, focused);
        InsertKeepsBroken(s, slots[0].0, slots[0].1, ws[0].id, focused);
        InsertAllBroken(Insert(s, slots[0].0, slots[0].1, ws[0].id, focused), slots[1..], ws[1..], m, ws[0].id);
      } else {
        InsertAllBroken(s, slots[1..], ws[1..], m, focused);
      }
    }
  }

  /** With a harmful anchor the first insertion breaks the tree and nothing later repairs it. */
  lemma {:induction false} InsertAllUnsafe(s: seq<Node>, slots: seq<(Node, Node)>, ws: seq<Window>, m: Screen,
                                           focused: Client)
    requires WellFormed(s) && ValidScreen(m) && ValidList(ws) && |slots| == |ws|
    requires !SafeFocus(s, Newcomers(s, ws, m), focused)
    ensures Broken(InsertAll(s, slots, ws, m, focused))
    decreases |ws|
  {
    ValidTail(ws);
    if Missing(s, ws[0], m) {
      InsertSelfBreaks(s, slots[0].0, slots[0].1, focused);
      InsertInBounds(s, slots[0].0, slots[0].1, focused, focused);
      InsertAllBroken(Insert(s, slots[0].0, slots[0].1, focused, focused), slots[1..], ws[1..], m, focused);
    } else {
      InsertAllUnsafe(s, slots[1..], ws[1..], m, focused);
    }
  }

  // ----- the whole of `dwindle` ----------------------------------------------------------

  datatype Config = Config(gaps: nat, smartGaps: bool)

  /** Root box and one recalculation; skipped when there is no entry or none without a parent. */
  function Settle(s: seq<Node>, area: Box, gap: int): (r: seq<Node>)
    requires InBounds(s)
    ensures SameLinks(s, r)
  {
    if FindRoot(s) < 0 then s
    else
      SameLinksInBounds(s, WithRootBox(s, RootBox(area, gap)));
      SameLinksTransitive(s, WithRootBox(s, RootBox(area, gap)),
                          Recalc(WithRootBox(s, RootBox(area, gap)), gap));
      Recalc(WithRootBox(s, RootBox(area, gap)), gap)
  }

  /** The tree's entries after `dwindle`; with no window to tile it returns before doing anything. */
  ghost function Reconcile(s: seq<Node>, slots: seq<(Node, Node)>, ws: seq<Window>, m: Screen, focused: Client,
                           cfg: Config): (r: seq<Node>)
    requires InBounds(s) && ValidScreen(m) && |slots| == |ws|
    ensures InBounds(r)
  {
    var n := CountTiles(ws, m);
    if n == 0 then s
    else
      var r := Settle(InsertAll(Pruned(s, ws, m), slots, ws, m, focused), m.area,
                      GapOf(m, cfg.gaps, cfg.smartGaps, n));
      SameLinksInBounds(InsertAll(Pruned(s, ws, m), slots, ws, m, focused), r);
      r
  }

  /** Some client of the tree keeps its place. */
  ghost predicate SomeoneStays(s: seq<Node>, ws: seq<Window>, m: Screen)
    requires ValidScreen(m)
  {
    exists c :: !Absent(s, c) && StaysListed(ws, m, c)
  }

  /** The first window that `dwindle` adds is its focus anchor, and the pruned tree is not empty. */
  ghost predicate SelfAnchored(s: seq<Node>, ws: seq<Window>, m: Screen, focused: Client)
    requires ValidScreen(m)
  {
    Newcomers(s, ws, m) != [] && Newcomers(s, ws, m)[0] == focused && SomeoneStays(s, ws, m)
  }

  /** A window that is to be tiled is not stale, so pruning does not change who is missing. */
  lemma {:induction false} PruningKeepsNewcomers(s: seq<Node>, ws: seq<Window>, m: Screen, k: nat)
    requires WellFormed(s) && ValidScreen(m) && k <= |ws|
    ensures Newcomers(Pruned(s, ws, m), ws[k..], m) == Newcomers(s, ws[k..], m)
    decreases |ws| - k
  {
    if k == |ws| {
    } else {
      PruningKeepsNewcomers(s, ws, m, k + 1);
      PrunedOrder(s, ws, m);
      var c := ws[k].id;
      assert ws[k..][1..] == ws[k + 1..];
      assert Tiles(ws[k], m) ==> StaysListed(ws, m, c);
      PresentIsFound(s, c);
      PresentIsFound(Pruned(s, ws, m), c);
    }
  }

  lemma SafeIffNotSelfAnchored(s: seq<Node>, ws: seq<Window>, m: Screen, focused: Client)
    requires WellFormed(s) && ValidScreen(m)
    ensures var p := Pruned(s, ws, m);
            && Newcomers(p, ws, m) == Newcomers(s, ws, m)
            && (SafeFocus(p, Newcomers(p, ws, m), focused) <==> !SelfAnchored(s, ws, m, focused))
  {
    var p := Pruned(s, ws, m);
    PruningKeepsNewcomers(s, ws, m, 0);
    assert ws[0..] == ws;
    PrunedNonEmpty(s, ws, m);
  }

  lemma PrunedNonEmpty(s: seq<Node>, ws: seq<Window>, m: Screen)
    requires WellFormed(s) && ValidScreen(m)
    ensures |Pruned(s, ws, m)| > 0 <==> SomeoneStays(s, ws, m)
  {
    var p := Pruned(s, ws, m);
    PrunedOrder(s, ws, m);
    if |p| > 0 {
      HasLeaf(p);
      var i :| IsLeaf(p, i);
      assert Holds(p, i, p[i].client);
      assert !Absent(p, p[i].client);
    }
    if SomeoneStays(s, ws, m) {
      var c :| !Absent(s, c) && StaysListed(ws, m, c);
      assert !Absent(p, c);
    }
  }

  /**
   * `dwindle` keeps the tree well formed exactly when there is nothing to tile or the first window
   * it adds to a non-empty pruned tree is not its own focus anchor.
   */
  lemma ReconcileKeepsShape(s: seq<Node>, slots: seq<(Node, Node)>, ws: seq<Window>, m: Screen, focused: Client,
                            cfg: Config)
    requires WellFormed(s) && ValidScreen(m) && ValidList(ws) && |slots| == |ws|
    ensures WellFormed(Reconcile(s, slots, ws, m, focused, cfg)) <==> !SelfAnchored(s, ws, m, focused)
  {
    var p := Pruned(s, ws, m);
    SafeIffNotSelfAnchored(s, ws, m, focused);
    var q := InsertAll(p, slots, ws, m, focused);
    if CountTiles(ws, m) == 0 {
      NoTilesNoNewcomers(s, ws, m);
    } else {
      var r := Reconcile(s, slots, ws, m, focused, cfg);
      if SelfAnchored(s, ws, m, focused) {
        InsertAllUnsafe(p, slots, ws, m, focused);
        BrokenUnderSameLinks(q, r);
        BrokenNotWellFormed(r);
      } else {
        InsertAllOrder(p, slots, ws, m, focused);
        SameLinksAbstract(q, r);
      }
    }
  }

  /** Exactly one newcomer: the insertion loop is one insertion. */
  lemma {:induction false} InsertAllOne(s: seq<Node>, slots: seq<(Node, Node)>, ws: seq<Window>, m: Screen,
                                        focused: Client, c: Client) returns (slot0: Node, slot1: Node)
    requires InBounds(s) && ValidScreen(m) && ValidList(ws) && |slots| == |ws| && Newcomers(s, ws, m) == [c]
    ensures InsertAll(s, slots, ws, m, focused) == Insert(s, slot0, slot1, c, focused)
    decreases |ws|
  {
    ValidTail(ws);
    if Missing(s, ws[0], m) {
      slot0, slot1 := slots[0].0, slots[0].1;
      assert Newcomers(s, ws, m)[0] == ws[0].id;
      assert Newcomers(s, ws, m)[1..] == Newcomers(s, ws[1..], m);
      var t := Insert(s, slot0, slot1, c, focused);
      InsertInBounds(s, slot0, slot1, c, focused);
      InsertHolds(s, slot0, slot1, c, focused);
      forall d | d != c ensures Absent(t, d) <==> Absent(s, d) {
        if i :| Holds(s, i, d) {
          assert Holds(t, i, d);
        }
      }
      NewcomersAfter(s, t, ws[1..], m, c);
      InsertNone(t, slots[1..], ws[1..], m, c);
    } else {
      slot0, slot1 := InsertAllOne(s, slots[1..], ws[1..], m, focused, c);
    }
  }

  /** Searches and removals read links, kinds and clients only. */
  lemma SameLinksStaysInside(s: seq<Node>, t: seq<Node>, c: Client)
    requires SameLinks(s, t)
    ensures FindLeaf(t, c) == FindLeaf(s, c) && (StaysInside(t, c) <==> StaysInside(s, c))
  {
    forall i | 0 <= i < |s| ensures SameEntry(s[i], t[i]) {
      SameLink(s, t, i);
    }
    SameFindLeafFrom(s, t, c, 0);
  }

  predicate SameEntry(a: Node, b: Node) {
    && a.child0 == b.child0 && a.child1 == b.child1 && a.parent == b.parent
    && a.isNode == b.isNode && a.client == b.client
  }

  lemma {:induction false} SameFindLeafFrom(s: seq<Node>, t: seq<Node>, c: Client, from: nat)
    requires |s| == |t| && from <= |s| && forall i | 0 <= i < |s| :: SameEntry(s[i], t[i])
    ensures FindLeafFrom(t, c, from) == FindLeafFrom(s, c, from)
    decreases |s| - from
  {
    if from == |s| {
    } else {
      assert SameEntry(s[from], t[from]);
      SameFindLeafFrom(s, t, c, from + 1);
    }
  }

  /**
   * The consequence of a self-anchored insertion: when the recorded focus is the only window that
   * `dwindle` adds to a non-empty pruned tree, removing it afterwards leaves the arrays.
   */
  lemma SelfAnchoredThenRemove(s: seq<Node>, slots: seq<(Node, Node)>, ws: seq<Window>, m: Screen,
                               focused: Client, cfg: Config)
    requires WellFormed(s) && ValidScreen(m) && ValidList(ws) && |slots| == |ws|
    requires Newcomers(s, ws, m) == [focused] && SomeoneStays(s, ws, m)
    ensures Broken(Reconcile(s, slots, ws, m, focused, cfg))
    ensures !StaysInside(Reconcile(s, slots, ws, m, focused, cfg), focused)
  {
    var p := Pruned(s, ws, m);
    var q := InsertAll(p, slots, ws, m, focused);
    var r := Reconcile(s, slots, ws, m, focused, cfg);
    SafeIffNotSelfAnchored(s, ws, m, focused);
    NewcomersTile(p, ws, m, focused);
    PresentIsFound(p, focused);
    var slot0, slot1 := InsertAllOne(p, slots, ws, m, focused, focused);
    InsertStaysInside(p, slot0, slot1, focused, focused);
    InsertSelfBreaks(p, slot0, slot1, focused);
    if CountTiles(ws, m) == 0 {
      NoTilesNoNewcomers(s, ws, m);
    }
    BrokenUnderSameLinks(q, r);
    SameLinksStaysInside(q, r, focused);
  }

  lemma BrokenUnderSameLinks(s: seq<Node>, t: seq<Node>)
    requires SameLinks(s, t) && Broken(s)
    ensures Broken(t)
  {
    var i, j :| 0 <= i < j < |s| && s[i].parent < 0 && s[j].parent < 0;
    SameLink(s, t, i);
    SameLink(s, t, j);
  }

  lemma {:induction false} CountTilesIs(ws: seq<Window>, m: Screen)
    requires ValidScreen(m)
    ensures CountTiles(ws, m) == 0 <==> forall i | 0 <= i < |ws| :: !Tiles(ws[i], m)
  {
    if ws == [] {
    } else {
      CountTilesIs(ws[..|ws| - 1], m);
      if CountTiles(ws, m) == 0 {
        forall i | 0 <= i < |ws| ensures !Tiles(ws[i], m) {
          assert i < |ws| - 1 ==> ws[i] == ws[..|ws| - 1][i];
        }
      }
    }
  }

  lemma {:induction false} NewcomersTile(s: seq<Node>, ws: seq<Window>, m: Screen, c: Client)
    requires ValidScreen(m)
    ensures c in Newcomers(s, ws, m) <==> exists i :: 0 <= i < |ws| && ws[i].id == c && Missing(s, ws[i], m)
  {
    if ws == [] {
    } else {
      NewcomersTile(s, ws[1..], m, c);
      if i :| 0 <= i < |ws| && ws[i].id == c && Missing(s, ws[i], m) {
        if i > 0 {
          assert ws[1..][i - 1] == ws[i];
        }
      }
      if i :| 0 <= i < |ws[1..]| && ws[1..][i].id == c && Missing(s, ws[1..][i], m) {
        assert ws[i + 1] == ws[1..][i];
      }
      assert c == ws[0].id && Missing(s, ws[0], m) ==> c in Newcomers(s, ws, m);
    }
  }

  lemma NoTilesNoNewcomers(s: seq<Node>, ws: seq<Window>, m: Screen)
    requires ValidScreen(m) && CountTiles(ws, m) == 0
    ensures Newcomers(s, ws, m) == []
  {
    CountTilesIs(ws, m);
    if Newcomers(s, ws, m) != [] {
      NewcomersTile(s, ws, m, Newcomers(s, ws, m)[0]);
    }
  }

  /** The client after which the newcomers go: the anchor if it stays, else the first surviving leaf. */
  ghost function BlockAnchor(s: seq<Node>, ws: seq<Window>, m: Screen, focused: Client): (a: Client)
    requires WellFormed(s) && ValidScreen(m) && SomeoneStays(s, ws, m)
    ensures a in Kept(Order(s), ws, m)
    ensures focused in Kept(Order(s), ws, m) && focused != NULL ==> a == focused
  {
    var p := Pruned(s, ws, m);
    PrunedOrder(s, ws, m);
    OrderIsClients(p);
    PrunedNonEmpty(s, ws, m);
    HasLeaf(p);
    assert Holds(p, Anchor(p, focused), AnchorClient(p, focused));
    assert focused in Order(p) ==> Holds(p, FindLeaf(p, focused), focused);
    AnchorClient(p, focused)
  }

  /**
   * Reconciliation: afterwards the leaves in tree order are the old ones that stay, in their old
   * order, with all newcomers as one block, in list order, right after the anchor.
   */
  lemma ReconcileOrder(s: seq<Node>, slots: seq<(Node, Node)>, ws: seq<Window>, m: Screen, focused: Client,
                       cfg: Config)
    requires WellFormed(s) && ValidScreen(m) && ValidList(ws) && |slots| == |ws|
    requires CountTiles(ws, m) > 0 && !SelfAnchored(s, ws, m, focused)
    ensures WellFormed(Reconcile(s, slots, ws, m, focused, cfg))
    ensures Order(Reconcile(s, slots, ws, m, focused, cfg)) ==
            if SomeoneStays(s, ws, m)
            then InsertBlock(Kept(Order(s), ws, m), BlockAnchor(s, ws, m, focused), Newcomers(s, ws, m))
            else Newcomers(s, ws, m)
  {
    ReconcileKeepsShape(s, slots, ws, m, focused, cfg);
    var p := Pruned(s, ws, m);
    var q := InsertAll(p, slots, ws, m, focused);
    SafeIffNotSelfAnchored(s, ws, m, focused);
    InsertAllOrder(p, slots, ws, m, focused);
    SameLinksAbstract(q, Reconcile(s, slots, ws, m, focused, cfg));
    PrunedOrder(s, ws, m);
    PrunedNonEmpty(s, ws, m);
  }

  lemma {:induction false} InsertBlockMembers(cs: seq<Client>, a: Client, block: seq<Client>, c: Client)
    requires a in cs
    ensures c in InsertBlock(cs, a, block) <==> c in cs || c in block
  {
    if cs[0] == a {
    } else {
      InsertBlockMembers(cs[1..], a, block, c);
    }
  }

  /** As sets: the leaves are exactly the old ones that stay and the windows that tile, each once. */
  lemma ReconcileClients(s: seq<Node>, slots: seq<(Node, Node)>, ws: seq<Window>, m: Screen, focused: Client,
                         cfg: Config)
    requires WellFormed(s) && ValidScreen(m) && ValidList(ws) && |slots| == |ws|
    requires CountTiles(ws, m) > 0 && !SelfAnchored(s, ws, m, focused)
    ensures var r := Reconcile(s, slots, ws, m, focused, cfg);
            && WellFormed(r) && NoDuplicates(Order(r))
            && forall c :: c in Order(r) <==>
                 (!Absent(s, c) && StaysListed(ws, m, c)) || TilesListed(ws, m, c)
  {
    var r := Reconcile(s, slots, ws, m, focused, cfg);
    ReconcileKeepsShape(s, slots, ws, m, focused, cfg);
    OrderIsClients(r);
    forall c
      ensures c in Order(r) <==> (!Absent(s, c) && StaysListed(ws, m, c)) || TilesListed(ws, m, c)
    {
      ReconcileMember(s, slots, ws, m, focused, cfg, c);
    }
  }

  lemma ReconcileMember(s: seq<Node>, slots: seq<(Node, Node)>, ws: seq<Window>, m: Screen, focused: Client,
                        cfg: Config, c: Client)
    requires WellFormed(s) && ValidScreen(m) && ValidList(ws) && |slots| == |ws|
    requires CountTiles(ws, m) > 0 && !SelfAnchored(s, ws, m, focused)
    ensures WellFormed(Reconcile(s, slots, ws, m, focused, cfg))
    ensures c in Order(Reconcile(s, slots, ws, m, focused, cfg)) <==>
            (!Absent(s, c) && StaysListed(ws, m, c)) || TilesListed(ws, m, c)
  {
    ReconcileOrder(s, slots, ws, m, focused, cfg);
    OrderIsClients(s);
    KeptIs(Order(s), ws, m, c);
    NewcomersTile(s, ws, m, c);
    PresentIsFound(s, c);
    if SomeoneStays(s, ws, m) {
      InsertBlockMembers(Kept(Order(s), ws, m), BlockAnchor(s, ws, m, focused), Newcomers(s, ws, m), c);
    }
    if i :| 0 <= i < |ws| && ws[i].id == c && Tiles(ws[i], m) {
      assert StaysListed(ws, m, c);
      assert Missing(s, ws[i], m) <==> FindLeaf(s, c) < 0;
    }
  }

  /** The tree agrees with the client list: every leaf stays, and every window to tile has a leaf. */
  ghost predicate InStep(s: seq<Node>, ws: seq<Window>, m: Screen)
    requires ValidScreen(m)
  {
    && (forall c | !Absent(s, c) :: StaysListed(ws, m, c))
    && (forall i | 0 <= i < |ws| && Tiles(ws[i], m) :: !Absent(s, ws[i].id))
  }

  lemma ReconcileSteps(s: seq<Node>, slots: seq<(Node, Node)>, ws: seq<Window>, m: Screen, focused: Client,
                       cfg: Config)
    requires WellFormed(s) && ValidScreen(m) && ValidList(ws) && |slots| == |ws|
    requires CountTiles(ws, m) > 0 && !SelfAnchored(s, ws, m, focused)
    ensures WellFormed(Reconcile(s, slots, ws, m, focused, cfg))
    ensures InStep(Reconcile(s, slots, ws, m, focused, cfg), ws, m)
  {
    var r := Reconcile(s, slots, ws, m, focused, cfg);
    ReconcileClients(s, slots, ws, m, focused, cfg);
    OrderIsClients(r);
    forall i | 0 <= i < |ws| && Tiles(ws[i], m) ensures !Absent(r, ws[i].id) {
      assert TilesListed(ws, m, ws[i].id);
    }
    forall c | !Absent(r, c) ensures StaysListed(ws, m, c) {
      assert c in Order(r);
      if i :| 0 <= i < |ws| && ws[i].id == c && Tiles(ws[i], m) {
        assert Stays(ws[i], m);
      }
    }
  }

  // ----- nothing to do -------------------------------------------------------------------

  lemma InStepStale(s: seq<Node>, ws: seq<Window>, m: Screen)
    requires ValidScreen(m) && InStep(s, ws, m)
    ensures Stale(s, |s|, ws, m) == []
  {
    if Stale(s, |s|, ws, m) != [] {
      StaleIs(s, |s|, ws, m, Stale(s, |s|, ws, m)[0]);
    }
  }

  lemma InStepNewcomers(s: seq<Node>, ws: seq<Window>, m: Screen)
    requires ValidScreen(m) && InStep(s, ws, m)
    ensures Newcomers(s, ws, m) == []
  {
    if Newcomers(s, ws, m) != [] {
      NewcomersTile(s, ws, m, Newcomers(s, ws, m)[0]);
      PresentIsFound(s, Newcomers(s, ws, m)[0]);
    }
  }

  lemma {:induction false} InsertNone(s: seq<Node>, slots: seq<(Node, Node)>, ws: seq<Window>, m: Screen,
                                      focused: Client)
    requires InBounds(s) && ValidScreen(m) && |slots| == |ws| && Newcomers(s, ws, m) == []
    ensures InsertAll(s, slots, ws, m, focused) == s
  {
    if ws == [] {
    } else {
      InsertNone(s, slots[1..], ws[1..], m, focused);
    }
  }

  /** A tree in step keeps its links, clients and entry count, whatever the focus anchor is. */
  lemma ReconcileInStep(s: seq<Node>, slots: seq<(Node, Node)>, ws: seq<Window>, m: Screen, focused: Client,
                        cfg: Config)
    requires WellFormed(s) && ValidScreen(m) && |slots| == |ws| && InStep(s, ws, m)
    ensures SameLinks(s, Reconcile(s, slots, ws, m, focused, cfg))
  {
    InStepStale(s, ws, m);
    InStepNewcomers(s, ws, m);
    InsertNone(s, slots, ws, m, focused);
  }

  /** `dwindle` is idempotent: running it again changes no field of any live entry. */
  lemma ReconcileTwice(s: seq<Node>, slots: seq<(Node, Node)>, slots': seq<(Node, Node)>, ws: seq<Window>,
                       m: Screen, focused: Client, focused': Client, cfg: Config)
    requires WellFormed(s) && ValidScreen(m) && ValidList(ws) && |slots| == |ws| && |slots'| == |ws|
    requires !SelfAnchored(s, ws, m, focused)
    ensures var r := Reconcile(s, slots, ws, m, focused, cfg);
            WellFormed(r) && Reconcile(r, slots', ws, m, focused', cfg) == r
  {
    ReconcileKeepsShape(s, slots, ws, m, focused, cfg);
    if CountTiles(ws, m) > 0 {
      var r := Reconcile(s, slots, ws, m, focused, cfg);
      var q := InsertAll(Pruned(s, ws, m), slots, ws, m, focused);
      ReconcileSteps(s, slots, ws, m, focused, cfg);
      InStepStale(r, ws, m);
      InStepNewcomers(r, ws, m);
      InsertNone(r, slots', ws, m, focused');
      SafeIffNotSelfAnchored(s, ws, m, focused);
      InsertAllOrder(Pruned(s, ws, m), slots, ws, m, focused);
      SettleTwice(q, m.area, GapOf(m, cfg.gaps, cfg.smartGaps, CountTiles(ws, m)));
    }
  }

  lemma SettleTwice(s: seq<Node>, area: Box, gap: int)
    requires WellFormed(s)
    ensures WellFormed(Settle(s, area, gap))
    ensures Settle(Settle(s, area, gap), area, gap) == Settle(s, area, gap)
  {
    var r := Settle(s, area, gap);
    SameLinksAbstract(s, r);
    if |s| > 0 {
      RecalcRefines(s, RootBox(area, gap), gap);
      assert WithRootBox(r, RootBox(area, gap)) == r;
      RecalcFromStable(r, 0, gap);
    }
  }

  // ----- fullscreen and back -------------------------------------------------------------

  /** What can happen while a window is fullscreen, and on the way there and back. */
  datatype Change =
    | SetFullscreen(c: Client, on: bool)
    | Dwindle(focused: Client, slots: seq<(Node, Node)>, screenArea: Box)

  function WithFullscreen(ws: seq<Window>, c: Client, on: bool): (r: seq<Window>)
    ensures |r| == |ws|
  {
    seq(|ws|, i requires 0 <= i < |ws| => if ws[i].id == c then ws[i].(fullscreen := on) else ws[i])
  }

  ghost predicate Allowed(s: seq<Node>, windows: nat, changes: seq<Change>) {
    forall i | 0 <= i < |changes| ::
      match changes[i]
      case SetFullscreen(c, _) => !Absent(s, c)
      case Dwindle(_, slots, _) => |slots| == windows
  }

  lemma AllowedTail(s: seq<Node>, t: seq<Node>, windows: nat, changes: seq<Change>)
    requires Allowed(s, windows, changes) && changes != []
    requires forall c :: Absent(t, c) <==> Absent(s, c)
    ensures Allowed(t, windows, changes[1..])
  {
    forall i | 0 <= i < |changes[1..]|
      ensures match changes[1..][i]
              case SetFullscreen(c, _) => !Absent(t, c)
              case Dwindle(_, slots, _) => |slots| == windows
    {
      assert changes[1..][i] == changes[i + 1];
    }
  }

  ghost function Run(s: seq<Node>, ws: seq<Window>, m: Screen, cfg: Config, changes: seq<Change>): (r: seq<Node>)
    requires WellFormed(s) && ValidScreen(m) && InStep(s, ws, m)
    requires Allowed(s, |ws|, changes)
    ensures SameLinks(s, r) && WellFormed(r)
    decreases |changes|
  {
    if changes == [] then s
    else
      match changes[0]
      case SetFullscreen(c, on) =>
        assert changes[0] == SetFullscreen(c, on);
        FullscreenInStep(s, ws, m, c, on);
        AllowedTail(s, s, |ws|, changes);
        Run(s, WithFullscreen(ws, c, on), m, cfg, changes[1..])
      case Dwindle(focused, slots, screenArea) =>
        var m' := m.(area := screenArea);
        assert changes[0] == Dwindle(focused, slots, screenArea);
        var t := Reconcile(s, slots, ws, m', focused, cfg);
        AreaInStep(s, ws, m, screenArea);
        ReconcileInStep(s, slots, ws, m', focused, cfg);
        SameLinksWellFormed(s, t);
        InStepSameLinks(s, t, ws, m);
        AllowedTail(s, t, |ws|, changes);
        var r := Run(t, ws, m, cfg, changes[1..]);
        SameLinksTransitive(s, t, r);
        r
  }

  lemma AreaInStep(s: seq<Node>, ws: seq<Window>, m: Screen, area: Box)
    requires ValidScreen(m) && InStep(s, ws, m)
    ensures InStep(s, ws, m.(area := area))
  {
    var m' := m.(area := area);
    forall c | StaysListed(ws, m, c) ensures StaysListed(ws, m', c) {
      var i :| 0 <= i < |ws| && ws[i].id == c && Stays(ws[i], m);
      assert Stays(ws[i], m');
    }
  }

  lemma InStepSameLinks(s: seq<Node>, t: seq<Node>, ws: seq<Window>, m: Screen)
    requires ValidScreen(m) && WellFormed(s) && SameLinks(s, t) && InStep(s, ws, m)
    ensures InStep(t, ws, m) && forall c :: Absent(t, c) <==> Absent(s, c)
  {
    SameLinksWellFormed(s, t);
    forall c ensures Absent(t, c) <==> Absent(s, c) {
    }
  }

  /** A fullscreen leaf is neither stale nor missing, so a tree in step stays in step. */
  lemma FullscreenInStep(s: seq<Node>, ws: seq<Window>, m: Screen, c: Client, on: bool)
    requires ValidScreen(m) && InStep(s, ws, m) && !Absent(s, c)
    ensures InStep(s, WithFullscreen(ws, c, on), m)
  {
    var ws' := WithFullscreen(ws, c, on);
    forall d | StaysListed(ws, m, d) ensures StaysListed(ws', m, d) {
      var i :| 0 <= i < |ws| && ws[i].id == d && Stays(ws[i], m);
      assert ws'[i].id == d && Stays(ws'[i], m);
    }
    forall i | 0 <= i < |ws'| && Tiles(ws'[i], m) ensures !Absent(s, ws'[i].id) {
      assert ws[i].id == c || Tiles(ws[i], m);
    }
  }

  /**
   * Any run of fullscreen changes of tree clients and `dwindle` calls, with any focus anchors and
   * work areas, leaves the tree as it was.
   */
  lemma FullscreenAndBack(s: seq<Node>, ws: seq<Window>, m: Screen, cfg: Config, changes: seq<Change>)
    requires WellFormed(s) && ValidScreen(m) && InStep(s, ws, m) && |s| > 0
    requires Allowed(s, |ws|, changes)
    ensures var r := Run(s, ws, m, cfg, changes);
            |r| > 0 && Abstract(r) == Abstract(s) && forall c :: FindLeaf(r, c) == FindLeaf(s, c)
  {
    var r := Run(s, ws, m, cfg, changes);
    SameLinksAbstract(s, r);
    SameLinksWellFormed(s, r);
    forall c ensures FindLeaf(r, c) == FindLeaf(s, c) {
      if FindLeaf(s, c) >= 0 {
        assert Holds(r, FindLeaf(s, c), c);
        FindLeafIs(r, c, FindLeaf(s, c));
      }
    }
  }
}

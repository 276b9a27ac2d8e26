// Runs: sequences of insertions, removals, swaps and recalculations, in any order.

module DwindleRuns {
  import opened Boxes
  import opened ClientIds
  import opened Lists
  import opened DwindleNodes
  import opened DwindleShape
  import opened DwindleAbstraction
  import opened DwindleLayout
  import opened DwindleSwap

  /** One operation on the array; an insertion carries what the two entries it takes held before. */
  datatype Op =
    | Add(c: Client, focused: Client, slot0: Node, slot1: Node)
    | Drop(c: Client)
    | SwapTwo(a: Client, b: Client)
    | Fill(root: Box, gap: int)

  /** `dwindle` inserts a client only if it has no leaf; otherwise the operation is passed over. */
  predicate Inserts(s: seq<Node>, op: Op)
    requires op.Add?
  {
    op.c != NULL && FindLeaf(s, op.c) < 0
  }

  function Apply(s: seq<Node>, op: Op): (r: seq<Node>)
    requires InBounds(s)
    ensures InBounds(r)
  {
    match op
    case Add(c, focused, slot0, slot1) =>
      InsertInBounds(s, slot0, slot1, c, focused);
      if Inserts(s, op) then Insert(s, slot0, slot1, c, focused) else s
    case Drop(c) => Remove(s, c)
    case SwapTwo(a, b) => Swap(s, a, b)
    case Fill(root, gap) =>
      SameLinksInBounds(s, WithRootBox(s, root));
      SameLinksInBounds(WithRootBox(s, root), Recalc(WithRootBox(s, root), gap));
      Recalc(WithRootBox(s, root), gap)
  }

  /** The array after a run. */
  function After(s: seq<Node>, ops: seq<Op>): (r: seq<Node>)
    requires InBounds(s)
    ensures InBounds(r)
    decreases |ops|
  {
    if ops == [] then s else After(Apply(s, ops[0]), ops[1..])
  }

  /** The insertion that goes wrong: the new client is its own anchor, in a tree with other clients. */
  predicate SelfInsertion(s: seq<Node>, op: Op) {
    op.Add? && Inserts(s, op) && |s| > 0 && op.focused == op.c
  }

  /** No insertion of the run goes wrong. */
  predicate Clean(s: seq<Node>, ops: seq<Op>)
    requires InBounds(s)
    decreases |ops|
  {
    ops == [] || (!SelfInsertion(s, ops[0]) && Clean(Apply(s, ops[0]), ops[1..]))
  }

  /** The array is well formed at every point of the run. */
  ghost predicate AlwaysWellFormed(s: seq<Node>, ops: seq<Op>)
    requires InBounds(s)
    decreases |ops|
  {
    WellFormed(s) && (ops == [] || AlwaysWellFormed(Apply(s, ops[0]), ops[1..]))
  }

  /** An operation keeps a well-formed array well formed exactly if it is not a self-anchored insertion. */
  lemma ApplyKeepsShape(s: seq<Node>, op: Op)
    requires WellFormed(s)
    ensures WellFormed(Apply(s, op)) <==> !SelfInsertion(s, op)
  {
    match op
    case Add(c, focused, slot0, slot1) =>
      PresentIsFound(s, c);
      if Inserts(s, op) {
        InsertKeepsShape(s, slot0, slot1, c, focused);
      }
    case Drop(c) => RemoveKeepsShape(s, c);
    case SwapTwo(a, b) => SwapAny(s, a, b);
    case Fill(root, gap) =>
      SameLinksAbstract(s, WithRootBox(s, root));
      SameLinksAbstract(WithRootBox(s, root), Recalc(WithRootBox(s, root), gap));
  }

  /** Swapping is nothing unless both clients are in the tree; no leaf of a tree is null. */
  lemma SwapAny(s: seq<Node>, a: Client, b: Client)
    requires WellFormed(s)
    ensures WellFormed(Swap(s, a, b))
    ensures if !Absent(s, a) && !Absent(s, b) then a != NULL && b != NULL && |s| > 0 else Swap(s, a, b) == s
  {
    PresentIsFound(s, a);
    PresentIsFound(s, b);
    LeavesNotNull(s);
    OrderIsClients(s);
    if !Absent(s, a) && !Absent(s, b) {
      SwapWellFormed(s, a, b);
    }
  }

  // ----- the same operations on algebraic trees ------------------------------------------

  datatype Forest = Empty | Planted(tree: Tree)

  ghost function TreeOf(s: seq<Node>): Forest
    requires WellFormed(s)
  {
    if |s| == 0 then Empty else Planted(Abstract(s))
  }

  function ClientsOf(t: Forest): seq<Client> {
    if t.Empty? then [] else Leaves(t.tree)
  }

  /** The specification: no indices, no links, no boxes. */
  ghost predicate TreeStep(t: Forest, op: Op, t': Forest) {
    match op
    case Add(c, focused, _, _) =>
      if c == NULL || c in ClientsOf(t) then t' == t
      else
        (match t
         case Empty => t' == Planted(Leaf(c))
         case Planted(u) =>
           exists a :: a in Leaves(u) && (focused in Leaves(u) ==> a == focused) && t' == Planted(Grow(u, a, c)))
    case Drop(c) =>
      (match t
       case Empty => t' == Empty
       case Planted(u) => t' == if u == Leaf(c) then Empty else Planted(Prune(u, c)))
    case SwapTwo(a, b) =>
      if a in ClientsOf(t) && b in ClientsOf(t) then t.Planted? && t' == Planted(Rename(t.tree, a, b)) else t' == t
    case Fill(_, _) => t' == t
  }

  lemma AddRefines(s: seq<Node>, op: Op)
    requires WellFormed(s) && op.Add? && !SelfInsertion(s, op)
    ensures WellFormed(Apply(s, op)) && TreeStep(TreeOf(s), op, TreeOf(Apply(s, op)))
  {
    OrderIsClients(s);
    PresentIsFound(s, op.c);
    LeavesNotNull(s);
    if !Inserts(s, op) {
    } else if |s| == 0 {
      InsertFirst(op.slot0, op.slot1, op.c, op.focused);
      assert s == [];
    } else {
      InsertRefines(s, op.slot0, op.slot1, op.c, op.focused);
      AnchorIs(s, op.slot0, op.c, op.focused);
      var a := AnchorClient(s, op.focused);
      assert Holds(s, Anchor(s, op.focused), a);
      assert a in Leaves(Abstract(s));
    }
  }

  lemma LeavesNotNull(s: seq<Node>)
    requires WellFormed(s)
    ensures NULL !in Order(s)
  {
    OrderIsClients(s);
    forall i ensures !Holds(s, i, NULL) {
      assert 0 <= i < |s| ==> LinkOk(s, i);
    }
  }

  lemma DropRefines(s: seq<Node>, op: Op)
    requires WellFormed(s) && op.Drop?
    ensures WellFormed(Apply(s, op)) && TreeStep(TreeOf(s), op, TreeOf(Apply(s, op)))
  {
    RemoveKeepsShape(s, op.c);
    OrderIsClients(s);
    if |s| > 0 {
      var u := Abstract(s);
      assert LinkOk(s, FindRoot(s));
      if Absent(s, op.c) {
        assert op.c !in Leaves(u);
        PruneAbsent(u, op.c);
        assert u != Leaf(op.c);
      } else if |s| == 1 {
        assert Holds(s, FindLeaf(s, op.c), op.c);
      } else {
        RemoveRefines(s, op.c);
        if !s[FindRoot(s)].isNode {
          OnlyLeaf(s, FindRoot(s));
        }
      }
    }
  }

  /** Each operation on the array is the operation of the same name on the algebraic tree. */
  lemma StepRefines(s: seq<Node>, op: Op)
    requires WellFormed(s) && !SelfInsertion(s, op)
    ensures WellFormed(Apply(s, op)) && TreeStep(TreeOf(s), op, TreeOf(Apply(s, op)))
  {
    match op
    case Add(_, _, _, _) => AddRefines(s, op);
    case Drop(_) => DropRefines(s, op);
    case SwapTwo(a, b) =>
      SwapAny(s, a, b);
      OrderIsClients(s);
      if !Absent(s, a) && !Absent(s, b) {
        SwapRefines(s, a, b);
      }
    case Fill(root, gap) =>
      SameLinksAbstract(s, WithRootBox(s, root));
      SameLinksAbstract(WithRootBox(s, root), Recalc(WithRootBox(s, root), gap));
  }

  /** Some run of the tree specification performs `ops` between the two trees. */
  ghost predicate TreeRun(t: Forest, ops: seq<Op>, t': Forest)
    decreases |ops|
  {
    if ops == [] then t' == t
    else exists u :: TreeStep(t, ops[0], u) && TreeRun(u, ops[1..], t')
  }

  /**
   * Every run whatever: the array stays well formed throughout exactly if no insertion is
   * self-anchored, and then the run of the array refines a run of the tree specification.
   */
  lemma {:induction false} RunRefines(s: seq<Node>, ops: seq<Op>)
    requires WellFormed(s)
    ensures Clean(s, ops) <==> AlwaysWellFormed(s, ops)
    ensures Clean(s, ops) ==> WellFormed(After(s, ops)) && TreeRun(TreeOf(s), ops, TreeOf(After(s, ops)))
    decreases |ops|
  {
    if ops == [] {
    } else {
      ApplyKeepsShape(s, ops[0]);
      if !SelfInsertion(s, ops[0]) {
        StepRefines(s, ops[0]);
        RunRefines(Apply(s, ops[0]), ops[1..]);
      }
    }
  }

  /**
   * From the empty tree, after any run without a self-anchored insertion, one pass in index order
   * gives every client the box of recursive top-down layout, and the array holds two entries per
   * client less one.
   */
  lemma RunLaysOut(ops: seq<Op>, root: Box, gap: int)
    requires Clean([], ops) && |After([], ops)| > 0
    ensures WellFormed(After([], ops))
    ensures var s := After([], ops);
            var r := Apply(s, Fill(root, gap));
            && WellFormed(r) && |r| == |s| == 2 * |Leaves(Abstract(s))| - 1
            && forall k | IsLeaf(r, k) :: (r[k].client, r[k].box) in Layout(Abstract(s), root, gap)
  {
    var s := After([], ops);
    RunRefines([], ops);
    RecalcRefines(s, root, gap);
    NodeCount(s);
  }
}

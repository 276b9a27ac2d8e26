// Sequences of `dwindle` and `dwindle_remove` calls on one tree: the arrays of fixed size suffice as
// long as at most 256 windows are listed.

module DwindleCalls {
  import opened ClientIds
  import opened Lists
  import opened DwindleNodes
  import opened DwindleShape
  import opened DwindleAbstraction
  import opened Windows
  import opened DwindleReconcile

  /** The number of windows that a tree of 512 entries has room for. */
  const MAX_WINDOWS := MAX_NODES / 2

  /** One call on the tree; a `dwindle` carries what it reads from the monitor and the array slots. */
  datatype Call =
    | Dwindle(ws: seq<Window>, m: Screen, focused: Client, cfg: Config, slots: seq<(Node, Node)>)
    | Forget(c: Client)

  /** A tree fits the fixed arrays exactly when it has at most 256 clients. */
  lemma FitsIff(s: seq<Node>)
    requires WellFormed(s)
    ensures |s| <= MAX_NODES <==> |Order(s)| <= MAX_WINDOWS
  {
    NodeCount(s);
  }

  ghost predicate Possible(s: seq<Node>, call: Call) {
    match call
    case Dwindle(ws, m, focused, _, slots) =>
      && ValidScreen(m) && ValidList(ws) && |slots| == |ws| && |ws| <= MAX_WINDOWS
      && !SelfAnchored(s, ws, m, focused)
    case Forget(_) => true
  }

  ghost function Do(s: seq<Node>, call: Call): (r: seq<Node>)
    requires WellFormed(s) && Possible(s, call)
    ensures WellFormed(r)
  {
    match call
    case Dwindle(ws, m, focused, cfg, slots) =>
      ReconcileKeepsShape(s, slots, ws, m, focused, cfg);
      Reconcile(s, slots, ws, m, focused, cfg)
    case Forget(c) =>
      RemoveKeepsShape(s, c);
      Remove(s, c)
  }

  /** The call reads and writes inside its arrays: what the methods require. */
  ghost predicate CallStaysInside(s: seq<Node>, call: Call)
    requires WellFormed(s) && Possible(s, call)
  {
    match call
    case Dwindle(ws, m, _, _, _) => PruningStaysInside(s, ws, m)
    case Forget(c) => StaysInside(s, c)
  }

  /** After `dwindle` every client of the tree is listed, so there are no more clients than windows. */
  lemma DwindleFits(s: seq<Node>, slots: seq<(Node, Node)>, ws: seq<Window>, m: Screen, focused: Client, cfg: Config)
    requires WellFormed(s) && ValidScreen(m) && ValidList(ws) && |slots| == |ws|
    requires CountTiles(ws, m) > 0 && !SelfAnchored(s, ws, m, focused)
    ensures WellFormed(Reconcile(s, slots, ws, m, focused, cfg))
    ensures |Order(Reconcile(s, slots, ws, m, focused, cfg))| <= |ws|
  {
    ReconcileClients(s, slots, ws, m, focused, cfg);
    var r := Reconcile(s, slots, ws, m, focused, cfg);
    var ids := seq(|ws|, i requires 0 <= i < |ws| => ws[i].id);
    forall c | c in Order(r) ensures c in ids {
      var i :| 0 <= i < |ws| && ws[i].id == c;
      assert ids[i] == c;
    }
    DistinctLength(Order(r), ids);
  }

  /** One call stays inside the arrays, and the next one will. */
  lemma CallFits(s: seq<Node>, call: Call)
    requires WellFormed(s) && |s| <= MAX_NODES && Possible(s, call)
    ensures CallStaysInside(s, call) && |Do(s, call)| <= MAX_NODES
  {
    match call
    case Dwindle(ws, m, focused, cfg, slots) =>
      PruningInside(s, ws, m);
      if CountTiles(ws, m) > 0 {
        DwindleFits(s, slots, ws, m, focused, cfg);
        FitsIff(Do(s, call));
      }
    case Forget(c) => RemoveKeepsShape(s, c);
  }

  /** What a call achieves: `dwindle` brings the tree in step with the windows, a removal takes one client out. */
  lemma CallEffect(s: seq<Node>, call: Call)
    requires WellFormed(s) && Possible(s, call)
    ensures match call
            case Dwindle(ws, m, _, _, _) =>
              if exists i :: 0 <= i < |ws| && Tiles(ws[i], m) then InStep(Do(s, call), ws, m) else Do(s, call) == s
            case Forget(c) => forall d :: Absent(Do(s, call), d) <==> d == c || Absent(s, d)
  {
    match call
    case Dwindle(ws, m, focused, cfg, slots) =>
      CountTilesIs(ws, m);
      if CountTiles(ws, m) > 0 {
        ReconcileSteps(s, slots, ws, m, focused, cfg);
      }
    case Forget(c) => RemoveKeepsShape(s, c);
  }

  /** Every call of the sequence is possible, and stays inside the arrays, when its turn comes. */
  ghost predicate AllPossible(s: seq<Node>, calls: seq<Call>)
    requires WellFormed(s)
    decreases |calls|
  {
    calls == [] || (Possible(s, calls[0]) && AllPossible(Do(s, calls[0]), calls[1..]))
  }

  ghost predicate AllInside(s: seq<Node>, calls: seq<Call>)
    requires WellFormed(s) && AllPossible(s, calls)
    decreases |calls|
  {
    calls == [] || (CallStaysInside(s, calls[0]) && AllInside(Do(s, calls[0]), calls[1..]))
  }

  /**
   * From the empty tree, with at most 256 windows listed at any time and no self-anchored `dwindle`,
   * no sequence of calls ever leaves the arrays.
   */
  lemma CallsStayInside(calls: seq<Call>)
    requires AllPossible([], calls)
    ensures AllInside([], calls)
  {
    CallsFrom([], calls);
  }

  lemma {:induction false} CallsFrom(s: seq<Node>, calls: seq<Call>)
    requires WellFormed(s) && |s| <= MAX_NODES && AllPossible(s, calls)
    ensures AllInside(s, calls)
    decreases |calls|
  {
    if calls == [] {
    } else {
      CallFits(s, calls[0]);
      CallsFrom(Do(s, calls[0]), calls[1..]);
    }
  }
}

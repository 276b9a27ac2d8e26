# Verification of peachwm

This project models the parts of the peachwm compositor whose correctness rests on invariants that its
code does not write down, and proves those invariants and what follows from them. It checks with

    dafny verify dfyconfig.toml

## What is modelled

**The dwindle tree** (`src/layout.c`; modules `Boxes`, `DwindleNodes`, `DwindleShape`,
`DwindleAbstraction`, `DwindleLayout`, `DwindleTiling`, `DwindleScreen`, `DwindleSwap`, `Windows`,
`DwindleReconcile`, `DwindleTrees`, `DwindleRuns`, `DwindleCalls`, `DwindlePacking`, `DwindleGaps`,
`DwindleFocus`, `DwindleViews`). Windows are the leaves of a full binary tree kept in one growable array
of nodes with integer links. `DwindleTrees.DwindleTree` is that array, with the loops of the source in
place; each method is tied to a function on the sequence of live nodes. About those functions it is
proved that the array refines an algebraic tree over every run, that the single pass in index order lays
out as a recursive top-down layout does (because internal nodes have larger indices than their internal
ancestors, always), that the tiles fill the work area exactly as long as no clamp fires, and that
`dwindle` keeps the tree in step with the client list. `DwindleGaps` states what a user sees of it, in
terms of the work area, the settings and the windows only; `DwindleViews` does so for focus and the tag
functions.

*A false property, with its exact condition.* `dwindle_insert` looks its anchor up after the new leaf is
already in the array (`src/layout.c:166`). When the client to insert is the recorded focus and the tree
is not empty, it finds the new leaf itself: `DwindleShape.InsertSelfBreaks`.
`DwindleShape.InsertKeepsShape`, `DwindleReconcile.ReconcileKeepsShape` and `DwindleRuns.RunRefines`
prove that this case is the only one: without it the invariant is kept, with it the invariant is lost,
and `DwindleShape.InsertKeepsBroken` shows that later insertions do not repair it. Its worst consequence
is in the removal of that client, which `unmapnotify` calls for every managed client
(`src/peachwm.c:4079`): the leaf is its own sibling, `remap` maps it to -1, and the source writes to
`nodes[-1]` (`src/layout.c:239-242`). `DwindleShape.InsertStaysInside` proves that removal stays inside
its arrays exactly when the insertion was not self-anchored (and the table is long enough);
`DwindleShape.SelfRemoval` shows the write. Callers reach this: `focusclient` records the focus before
`arrange` runs (`src/peachwm.c:1600`, `src/peachwm.c:4278-4279`), and module `DwindleFocus` gives the
run: the window focused last, alone on its tag, is moved with `tag` to a tag that has windows, and that
tag is viewed (`DwindleFocus.TagThenView`).

*Preconditions.* A method that removes requires that the source stays inside its arrays, and nothing
more: the node array, and `remap` with its 512 entries (`src/layout.c:214`).
`DwindleCalls.CallsStayInside` proves that this holds over every sequence of calls as long as at most
256 windows are listed and no call is self-anchored; nothing in the source enforces either.

**The ext-workspace-v1 server** (`src/wlr_ext_workspace_v1.c`; modules `ExtProtocol`, `ExtServer`,
`ExtAgreement`, `ExtRuns`, `ExtEffects`, `ExtObjects`). A replication protocol: the server holds groups,
workspaces and state words; each bound manager has its handles, its event history and its queue of
uncommitted requests. `ExtProtocol` states as a strict client the rules of the protocol text
(`protocols/ext-workspace-v1.xml`) about single events: they name only announced objects that are
neither removed nor destroyed, an id comes at most once per handle, a workspace enters a group only
while it is in none and leaves only the one it is in, a group is removed only when empty and a workspace
only when in no group, and nothing follows `finished`. The client refuses an event against these rules.
The one rule about several workspaces, that ids are unique, is the predicate `UniqueIds`. `ExtServer` is
the server as a state machine, `ExtObjects` the objects and list loops of the source, each tied to its
step. Proved over every run: the strict client accepts every history, its view is the server state, a
snapshot is complete whenever no idle callback is pending, and requests are delivered once, in order,
with live or null references only. `ExtEffects` says of each step what it does to the tables, to each
client's history and to each queue.

**Active workspaces end to end** (`src/ext_workspace.c` with the tag functions of `src/peachwm.c` and
`src/ipc.c`; modules `ActiveBit`, `ActiveRuns`, `ActiveEffects`, `ActiveInventory`, `ActiveRequests`,
`ActiveIds`, `Compositors`). Monitors coming and going, `view`, `toggleview`, `set_tags` and client
commits, on top of the server above. `ActiveEffects` says what each operation and a whole commit
achieve; `ActiveInventory` that the server holds exactly the workspaces and groups of the monitors there
are.

*A second false property.* `ext_workspace_create` passes the tag's name as id on every monitor
(`src/ext_workspace.c:69-79`), so the ids of two monitors clash, against the rule that an id is unique.
Module `ActiveIds` proves that after every run ids are pairwise distinct if and only if at most one
monitor is present, and that a client sees the clash. A third observation is in `ActiveRequests`:
requests act on the selected monitor, so `activate` on another monitor's workspace does not make it
active.

**i3-ipc framing** (`src/ipc_socket.c`; modules `IpcFraming`, `IpcClients`). The incremental reader over
arbitrary short reads agrees with parsing the whole byte stream at once.

**Two refinements across files.** The arrays that mirror the client and focus lists (`src/peachwm.c`;
`FocusMirror`), and the tag specifications of `peachmsg`, compiled to a pair of masks that the server
applies (`peachmsg/peachmsg.c`, `src/ipc.c`; `TagWords`, `TagOps`, `TagSpecs`).

## How the model stands for the source

- A client pointer is a natural number, 0 for the null pointer. Groups and workspaces have ids that are
  never used again, so the reuse of freed addresses is not modelled.
- A 32-bit tag word and the workspace state word are the sets of their bits that are set.
- `split_ratio` is always 1.0 (`src/layout.c:85`), so halving a side is integer division that truncates
  towards zero; for sides below 2^24 the single-precision arithmetic is exact.
- `resize` is recorded as a call with a client and a box; `DwindleScreen` follows such a call to the
  geometry it sets, for a mapped client with a monitor.
- What an unused array entry held before is kept explicit (`DwindleNodes.Slot`), because
  `dwindle_new_node` resets only three fields of it.
- The kernel's answers to `read`, the urgency of workspaces, and the monitor that is selected when
  another is unplugged are parameters.
- Where a proof needs the history of a client it is part of the state: the events sent, the requests
  made and those handed over.

## Model

| member | source | states |
|---|---|---|
| `DwindleNodes.FindLeaf` | src/layout.c:98-105 | the result is a leaf that holds the client, or -1 and then no leaf holds it |
| `DwindleNodes.FirstLeaf` | src/layout.c:107-114 | the result is a leaf, or -1 and then there is none |
| `DwindleNodes.FindRoot` | src/layout.c:316-322 | the result is the first entry without a parent: every earlier one has a parent, all of them if it is -1 |
| `DwindleNodes.Anchor` | src/layout.c:166-168 | a leaf, and the focused client's own leaf whenever that client is in the tree |
| `DwindleNodes.TablesRenumber` | src/layout.c:212-238 | the index table filled by the first removal loop is inverse to the move of kept entries, maps the two dropped entries to -1 and is strictly monotone on the others |
| `DwindleShape.InsertKeepsShape` | src/layout.c:156-192 | inserting an absent client keeps the tree invariant (one root, reciprocal links, two distinct children per internal node, distinct clients, internal indices increasing downward) if and only if the tree is empty or the client is not its own focus anchor |
| `DwindleShape.InsertSelfBreaks` | src/layout.c:159-191 | for every non-empty tree: inserting the focused client itself takes the new leaf as its own anchor, so the new internal node has that leaf as both children and two entries are left without a parent |
| `DwindleShape.InsertKeepsBroken` | src/layout.c:156-192 | a tree with two parentless entries keeps having two after every insertion |
| `DwindleShape.RemoveKeepsShape` | src/layout.c:194-248 | removing any client, present or not, keeps the invariant, takes out exactly that client, and shrinks the array by 0, 1 or 2 entries |
| `DwindleShape.InsertThenRemove` | src/layout.c:156-248 | insert followed by remove of the same client gives back every live entry, field by field, for any anchor other than the new client |
| `DwindleShape.InsertStaysInside` | src/layout.c:156-248 | removing the client that was just inserted reads and writes inside the node array and the index table if and only if the insertion was not self-anchored (or the tree was empty) and the table is long enough |
| `DwindleShape.SelfRemoval` | src/layout.c:207-242 | after a self-anchored insertion the new leaf is its own sibling and the index table maps it to -1, so its removal writes to the entry before the array |
| `DwindleShape.OnlyLeaf` | src/layout.c:201-205 | a leaf without a parent is the only entry, so emptying the array there loses no other client |
| `DwindleAbstraction.InsertRefines` | src/layout.c:156-192 | on the algebraic tree, insertion replaces the anchor's leaf by a branch of the anchor and the new client and changes nothing else |
| `DwindleAbstraction.InsertFirst` | src/layout.c:156-161 | insertion into the empty tree gives a single leaf |
| `DwindleAbstraction.AnchorIs` | src/layout.c:166-168 | the client whose leaf is split is the focused one if it is in the tree, else the one of the leaf of lowest index |
| `DwindleAbstraction.RemoveRefines` | src/layout.c:194-248 | on the algebraic tree, removal replaces the parent of the client's leaf by the leaf's sibling subtree and changes nothing else |
| `DwindleAbstraction.OrderIsClients` | src/layout.c:98-105 | the in-order sequence of the tree contains each client of the array exactly once and nothing else |
| `DwindleAbstraction.InsertOrder` | src/layout.c:156-192 | in tree order the new client comes right after its anchor and the others keep their sequence |
| `DwindleAbstraction.RemoveOrder` | src/layout.c:194-248 | in tree order removal deletes the client and keeps the sequence of the others |
| `DwindleAbstraction.NodeCount` | src/layout.c:66-87 | `node_count` is 0 or twice the number of clients less one: no entry lies outside the tree |
| `DwindleLayout.RecalcRefines` | src/layout.c:116-154 | one pass in index order gives every leaf the box that recursive top-down layout of the algebraic tree gives its client, and changes no link |
| `DwindleLayout.ResizesAreLayout` | src/layout.c:149-153 | the resize calls are exactly the pairs of the recursive layout whose client is not fullscreen |
| `DwindleLayout.LayoutUnique` | src/layout.c:126-146 | the layout of a tree with distinct clients gives each client one box |
| `DwindleLayout.RecalcFromStable` | src/layout.c:116-147 | a laid out tree is a fixed point of the pass |
| `DwindleTiling.SplitExact` | src/layout.c:126-146 | an unclamped split: both parts lie in the box, are the gap apart, add up with the gap to the side that is cut, and differ by at most one pixel along it |
| `DwindleTiling.LayoutPositive` | src/layout.c:126-146 | every tile is at least one pixel wide and high, clamped or not |
| `DwindleTiling.LayoutTiles` | src/layout.c:126-146 | while no clamp fires every tile lies in the root box and any two are at least the gap apart on some axis |
| `DwindleTiling.RoomSuffices` | src/layout.c:126-146 | for a tree of depth d, gap g and any w >= 1: a root whose longer side is at least 2^d*(g+w)-g and whose shorter side is at least w makes no clamp fire, and every tile is at least w pixels wide and high |
| `DwindleTiling.AreaConserved` | src/layout.c:126-146 | tile areas and gap strips add up to at least the root area, and to exactly the root area if and only if no clamp fires |
| `DwindleTiling.LayoutCompact` | src/layout.c:126-146 | if the root satisfies long <= 2*short+g+1 and no clamp fires, so does every tile |
| `DwindleGaps.SplitIs` | src/layout.c:126-146 | an unclamped split, exactly: taller than wide cuts into upper and lower, anything else into left and right; each part's place and length, and which one gets the odd pixel |
| `DwindleGaps.ClampedIs` | src/layout.c:126-146 | a clamped first part is one pixel long and the second starts one pixel and the gap further on |
| `DwindleGaps.RootBoxIs` | src/layout.c:324-329 | the root box is the gap away from each edge of the work area, and one pixel where there is no room for that |
| `DwindleGaps.FirstBeforeSecond` | src/layout.c:126-146 | the tiles of the first subtree are left of, or above, those of the second |
| `DwindleGaps.LayoutEdges` | src/layout.c:126-146 | while no clamp fires each of the four edges of the root box is met by a tile |
| `DwindleGaps.LayoutCovers` | src/layout.c:126-146 | with gap 0 and no clamp every pixel of the root box is in a tile |
| `DwindleGaps.StaysIs` | include/common.h:42-47 | which windows keep their leaf, in terms of the fields: on the monitor, in view, not floating |
| `DwindleGaps.CountIsTiled` | src/layout.c:267-276 | the number that decides about smart gaps is the number of windows on the monitor, in view, neither floating nor fullscreen |
| `DwindleGaps.DwindleLaysOut` | src/layout.c:260-333 | the boxes of the leaves after `dwindle` are the top-down layout of the tree in the work area with the gap that the settings ask for |
| `DwindleGaps.CallsAreTiles` | src/layout.c:149-153 | the resize calls are the tiles of exactly the leaves whose window is not fullscreen |
| `DwindleGaps.DwindleGapsKept` | src/layout.c:274-332 | in terms of the work area, the settings and the windows alone: with room for the tree every tile keeps the gap in force to every edge of the work area, each edge has a tile that keeps exactly the gap, and any two tiles are at least the gap apart |
| `DwindleGaps.DwindleFills` | src/layout.c:274-332 | with gaps off and room for the tree every pixel of the work area is in the tile of exactly one client |
| `DwindleGaps.DwindleLoneWindow` | src/layout.c:274-276 | under smart gaps a single tiled window that is the only leaf gets the whole work area |
| `DwindleGaps.FullscreenRunTiles` | src/layout.c:260-333 | after fullscreen changes and `dwindle` calls in any order, the last a `dwindle`, every client of the tree has the tile that the tree of the start gives it in the last work area with the gap then in force |
| `DwindleScreen.Frame.ApplyBounds` | src/peachwm.c:447-460 | the in-place corrections leave the specified geometry |
| `DwindleScreen.Frame.Resize` | src/peachwm.c:2811-2821 | the geometry is the given box, corrected against the work area, whatever it was before |
| `DwindleScreen.BoundedVisible` | src/peachwm.c:447-460 | after `applybounds`, from any geometry, the window shares a pixel with the area, has room inside its border, and a second call changes nothing |
| `DwindleScreen.BoundedIff` | src/peachwm.c:447-460 | a tile inside the area is left alone if and only if both sides are at least 1 + 2*bw |
| `DwindleScreen.BoundedIs` | src/peachwm.c:447-460 | where the window lands: minimum sides; past the right or lower edge it ends at that edge, before the left or upper edge it starts there, otherwise it stays |
| `DwindleScreen.ScreenTiled` | src/peachwm.c:2811-2821 | with room for 2^depth tiles of the widest border's minimum, every resize call of the laid out tree sets exactly the tile as geometry, inside the work area, and the geometries of any two clients are at least the gap apart |
| `DwindlePacking.TilesIffNoClamp` | src/layout.c:126-146 | for every tree, box and gap: all tiles lie in the box and any two are at least the gap apart if and only if no clamp fires |
| `DwindlePacking.Packing` | src/layout.c:126-146 | boxes inside a box that are the gap apart need, each with the gap to its right and below, no more pixels than the box with its own |
| `DwindlePacking.GrownConserved` | src/layout.c:126-146 | the tiles of a layout need, with their gaps, at least the pixels of the root with its gap, and exactly those if and only if no clamp fires |
| `DwindleSwap.SwapWellFormed` | src/layout.c:484-490 | exchanging the clients of two leaves keeps the invariant, the root and the set of clients |
| `DwindleSwap.SwapRefines` | src/layout.c:484-490 | on the algebraic tree the exchange renames the two clients and nothing else |
| `DwindleSwap.SwapTwice` | src/layout.c:484-490 | the exchange is an involution on the array |
| `DwindleSwap.SwapExchangesBoxes` | src/layout.c:484-508 | after the exchange and a recalculation with the same root box and gap the two clients have exchanged boxes and every other client has its old one |
| `DwindleRuns.ApplyKeepsShape` | src/layout.c:116-248 | an operation keeps a well-formed array well formed if and only if it is not a self-anchored insertion |
| `DwindleRuns.StepRefines` | src/layout.c:116-248 | every insert, remove, swap and recalculation on the array, except a self-anchored insertion, is the step of the same name on the algebraic tree |
| `DwindleRuns.RunRefines` | src/layout.c:116-248 | for every sequence of these operations: the array is well formed at every point if and only if no insertion is self-anchored when its turn comes, and then the run refines a run of the algebraic tree |
| `DwindleRuns.RunLaysOut` | src/layout.c:116-248 | from the empty tree, after any run without a self-anchored insertion, the single pass lays out as the recursive layout does, and the array has two entries per client less one |
| `DwindleReconcile.StaleIs` | src/layout.c:285-298 | the stale list holds exactly the clients of leaves that are not listed as visible and tiled |
| `DwindleReconcile.PrunedOrder` | src/layout.c:281-302 | after the stale clients are removed, the survivors are exactly the listed visible non-floating ones, in their old sequence |
| `DwindleReconcile.ReconcileKeepsShape` | src/layout.c:260-333 | for every well-formed tree, client list and screen: `dwindle` keeps the invariant if and only if not (some old client stays and the first client it adds is the recorded focus) |
| `DwindleReconcile.ReconcileOrder` | src/layout.c:260-313 | the survivors keep their sequence and all new clients form one block, in list order, right after the anchor |
| `DwindleReconcile.ReconcileClients` | src/layout.c:260-313 | the leaves are exactly the old clients that are still listed, visible and not floating plus all visible tiled non-fullscreen clients, each once |
| `DwindleReconcile.ReconcileSteps` | src/layout.c:260-313 | afterwards every leaf belongs to a window that stays and every window to tile has a leaf |
| `DwindleReconcile.ReconcileInStep` | src/layout.c:260-333 | on a tree in step with the client list `dwindle` changes no link, client or entry count, whatever the recorded focus |
| `DwindleReconcile.ReconcileTwice` | src/layout.c:260-333 | `dwindle` is idempotent: a second call, with any recorded focus, changes no field of any live entry |
| `DwindleReconcile.FullscreenAndBack` | src/layout.c:267-313 | any sequence of fullscreen changes of tiled clients and `dwindle` calls, with changing work areas and focus, leaves the tree as it was |
| `DwindleReconcile.SelfAnchoredThenRemove` | src/layout.c:260-313 | when the recorded focus is the only window that `dwindle` adds to a non-empty pruned tree, the tree is broken and removing that window afterwards leaves the arrays |
| `DwindleReconcile.PruningInside` | src/layout.c:281-302 | in a well-formed tree of at most 512 entries the stale clients fit their array and removing them stays inside the arrays |
| `DwindleReconcile.SettleTwice` | src/layout.c:315-332 | setting the root box and recalculating twice is the same as once |
| `DwindleCalls.FitsIff` | src/layout.c:214 | a well-formed tree has at most 512 entries if and only if it has at most 256 clients |
| `DwindleCalls.DwindleFits` | src/layout.c:260-313 | after `dwindle` the tree has no more clients than there are listed windows |
| `DwindleCalls.CallEffect` | src/layout.c:194-313 | `dwindle` brings the tree in step with the windows, or changes nothing if none is to be tiled; a removal takes out exactly its client |
| `DwindleCalls.CallsStayInside` | src/layout.c:194-313 | from the empty tree, with at most 256 windows listed at any time and no self-anchored `dwindle`, every sequence of `dwindle` and `dwindle_remove` calls stays inside the arrays of 512 |
| `DwindleFocus.TagIndex` | src/layout.c:44-56 | the index is that of the lowest tag in view, 0 if there is none |
| `DwindleFocus.FirstBitShift` | src/layout.c:51-54 | shifting out a cleared bit moves the lowest set bit down by one |
| `DwindleFocus.CurrentTagIndex` | src/layout.c:44-56 | the shift loop computes the lowest tag in view; its fallback past the last tag is never taken |
| `DwindleFocus.FocusAnchor` | src/peachwm.c:1578-1600 | the anchor that `dwindle` reads is the client that has just got the focus if it is tiled and did not have the keyboard, else the old anchor |
| `DwindleFocus.RefocusKeepsShape` | src/peachwm.c:4278-4279 | focusing the top and arranging keeps the tree in view well formed if and only if the first window to be added is not the anchor so determined, or nothing of the tree stays |
| `DwindleFocus.TagThenView` | src/peachwm.c:3863-3875 | for every board where the window focused last is alone in view and another tag has windows: moving it there with `tag` and viewing that tag breaks the tag's tree, and removing the window afterwards leaves the arrays |
| `DwindleFocus.ExampleApplies` | src/peachwm.c:3863-3875 | two windows, each alone on its tag, are such a board |
| `DwindleViews.VisibleIs` | include/common.h:42-47 | which clients are visible, in terms of the windows' fields and the selected tag set |
| `DwindleViews.FocusEffect` | src/peachwm.c:1578-1600 | the client has the keyboard and is in front of the focus list, the others keep their order; only the anchor of the lowest tag in view changes, and only if the client is tiled; nothing else if it had the keyboard or is null |
| `DwindleViews.RefocusEffect` | src/peachwm.c:4278-4279 | the keyboard goes to the entry of the focus list that is visible with no visible one before it; the tree in view is brought in step with the windows, the trees of the other tags are left alone |
| `DwindleViews.ViewEffect` | src/peachwm.c:4272-4281 | `view` does nothing exactly if the mask is in view; else the other slot is selected and holds the mask (its old content if the mask is empty), the slot before keeps its content, and the monitor is arranged |
| `DwindleViews.ToggleViewEffect` | src/peachwm.c:4031-4041 | `toggleview` flips exactly the tags of the mask in the selected slot, unless nothing would be left in view |
| `DwindleViews.TagEffect` | src/peachwm.c:3863-3875 | `tag` gives the first visible client of the focus list, and no other, the mask as its tags and takes it, and no other, out of the tree of every tag; nothing exactly for no client, no tag or a scratchpad |
| `DwindleTrees.DwindleTree.NewNode` | src/layout.c:66-87 | the new entry is the next one with its links reset; live entries and the contents of unused slots survive growth |
| `DwindleTrees.DwindleTree.FindLeafIndex` | src/layout.c:98-105 | the index of the first leaf of the live entries that holds the client, or -1 |
| `DwindleTrees.DwindleTree.FirstLeafIndex` | src/layout.c:107-114 | the lowest index of a leaf among the live entries, or -1 |
| `DwindleTrees.DwindleTree.FindRootIndex` | src/layout.c:316-322 | the first live entry without a parent, or -1 |
| `DwindleTrees.DwindleTree.InsertClient` | src/layout.c:156-192 | in place, the live entries become the specified insertion for every anchor, including the breaking one |
| `DwindleTrees.DwindleTree.FillRemap` | src/layout.c:213-220 | the table of 512 entries is filled with the specified renumbering |
| `DwindleTrees.DwindleTree.KeepNodes` | src/layout.c:212-227 | after the first two loops the live entries are the kept ones, in order, and the index table is the specified one |
| `DwindleTrees.DwindleTree.MoveKept` | src/layout.c:222-226 | the kept entries move down in order |
| `DwindleTrees.DwindleTree.RenumberLinks` | src/layout.c:229-237 | every link is renumbered once |
| `DwindleTrees.DwindleTree.CompactNodes` | src/layout.c:212-238 | the three loops together compute the specified compaction |
| `DwindleTrees.DwindleTree.RemoveClient` | src/layout.c:194-248 | in place, the live entries become the specified removal, for every array on which the source stays inside its arrays |
| `DwindleTrees.DwindleTree.RecalcBoxes` | src/layout.c:116-147 | the loop computes the specified pass |
| `DwindleTrees.DwindleTree.ResizeClients` | src/layout.c:149-153 | the resize calls, in order, are those of the leaves that are not fullscreen |
| `DwindleTrees.DwindleTree.Recalculate` | src/layout.c:116-154 | boxes and resize calls as specified |
| `DwindleTrees.DwindleTree.SwapWindows` | src/peachwm.c:3952-3977 | for every array, well formed or not: both leaves present, their clients are exchanged and the tree laid out anew; otherwise nothing changes |
| `DwindleTrees.DwindleTree.CollectStale` | src/layout.c:282-298 | the nested scan computes the first 512 clients of the specified stale list |
| `DwindleTrees.DwindleTree.RemoveStale` | src/layout.c:281-302 | the stale clients are removed one after the other |
| `DwindleTrees.DwindleTree.InsertIfMissing` | src/layout.c:306-312 | one turn: a visible tiled window without a leaf is inserted after the anchor and becomes the anchor, any other changes nothing |
| `DwindleTrees.DwindleTree.InsertMissing` | src/layout.c:304-313 | the loop inserts the missing windows, each becoming the next anchor |
| `DwindleTrees.DwindleTree.Dwindle` | src/layout.c:260-333 | the whole of `dwindle` in place: the live entries become the specified reconciliation and the resize calls are those of the result |
| `IpcFraming.ParseAppend` | src/ipc_socket.c:890-1002 | parsing can be cut at any byte: parsing the first part and then its rest with the second part gives the parse of the whole |
| `IpcFraming.ParseEncode` | src/ipc_socket.c:269-277 | an encoded message of at most 65536 bytes, followed by anything, is parsed back first |
| `IpcFraming.ParseStops` | src/ipc_socket.c:916-924 | parsing stops for no other reason than a magic that differs in some byte, once a whole header is there, or bytes that are still missing |
| `IpcFraming.RoundTrip` | src/ipc_socket.c:269-277 | a stream of such messages is parsed into exactly those messages |
| `IpcFraming.RoundTripIff` | src/ipc_socket.c:926-930 | a message comes back unchanged if and only if its payload is at most 65536 bytes long |
| `IpcClients.HeaderBytes` | src/ipc_socket.c:906-924 | more header bytes leave the frame incomplete, complete it, or reveal a wrong magic, as parsing the whole stream would |
| `IpcClients.PayloadBytes` | src/ipc_socket.c:943-962 | more payload bytes continue the frame that the whole-stream parse is in |
| `IpcClients.PrefixParse` | src/ipc_socket.c:890-1002 | what a prefix of the stream dispatches is a prefix of what the stream dispatches, all of it once the magic is wrong |
| `IpcClients.IpcClient.ParseHeader` | src/ipc_socket.c:926-940 | the two header fields are decoded, the size is cut at 65536, the buffer has room for it |
| `IpcClients.IpcClient.ReadHeader` | src/ipc_socket.c:905-942 | one read of header bytes keeps the parse invariant, closes on a wrong magic, and is done exactly with a whole header |
| `IpcClients.IpcClient.FillPayload` | src/ipc_socket.c:945-960 | the bytes read are appended to the payload buffer, and nothing else of it changes |
| `IpcClients.IpcClient.ReadPayload` | src/ipc_socket.c:945-962 | one read of payload bytes keeps the parse invariant; `payload_len < payload_size <= payload_alloc` while unfinished |
| `IpcClients.IpcClient.Dispatch` | src/ipc_socket.c:965-1000 | the finished frame is handed on as one message and the state is reset |
| `IpcClients.IpcClient.HandleReadable` | src/ipc_socket.c:890-1002 | for any answers of the kernel: what was dispatched and what is buffered is the parse of the bytes read; the connection is closed on a wrong magic and on nothing else when no read fails |
| `IpcClients.Serve` | src/ipc_socket.c:890-1002 | for every byte stream and every schedule of wake-ups and short reads, the dispatched messages are the parse of the bytes read; enough wake-ups dispatch the parse of the whole stream |
| `IpcClients.ServeSent` | src/ipc_socket.c:890-1002 | messages that fit arrive unchanged, in order, and none besides them |
| `ExtProtocol.NeverTwoGroups` | protocols/ext-workspace-v1.xml:183-190 | no client ever sees a workspace in two groups |
| `ExtProtocol.IdOnce` | protocols/ext-workspace-v1.xml:254-271 | a client gets at most one id for a workspace |
| `ExtProtocol.EnterLeaveAlternate` | src/wlr_ext_workspace_v1.c:624-647 | between two enters of the same pair there is a leave of that pair |
| `ExtProtocol.NothingAfterRemoved` | protocols/ext-workspace-v1.xml:199-210 | after a group's removed event, or the client's own destroy, no event names the group |
| `ExtProtocol.NothingAfterWorkspaceRemoved` | protocols/ext-workspace-v1.xml:362-374 | after a workspace's removed event, or the client's own destroy, no event names the workspace |
| `ExtProtocol.NothingAfterFinished` | protocols/ext-workspace-v1.xml:106-112 | after finished no event is sent |
| `ExtProtocol.GroupRemovedAfterLeave` | protocols/ext-workspace-v1.xml:199-210 | between a workspace's enter and the group's removed event comes its leave, unless the client dropped the workspace handle |
| `ExtProtocol.WorkspaceRemovedAfterLeave` | protocols/ext-workspace-v1.xml:362-374 | between a workspace's enter and its removed event comes its leave, unless the client dropped the group handle |
| `ExtAgreement.GiveGroupInSync` | src/wlr_ext_workspace_v1.c:590-622 | announcing a fresh group keeps the manager's view equal to the server state |
| `ExtAgreement.GiveWorkspaceInSync` | src/wlr_ext_workspace_v1.c:498-520 | announcing a workspace with its details and membership makes the view agree on it |
| `ExtAgreement.SendDetailsLearned` | src/wlr_ext_workspace_v1.c:375-393 | from the details a client learns exactly the workspace's capabilities, name, id and state |
| `ExtAgreement.MoveInSync` | src/wlr_ext_workspace_v1.c:872-886 | leave-then-enter is accepted by the strict client and leaves its view agreeing with the new membership |
| `ExtAgreement.SendNameInSync` | src/wlr_ext_workspace_v1.c:888-909 | a name event keeps the view in agreement |
| `ExtAgreement.SendStateInSync` | src/wlr_ext_workspace_v1.c:937-957 | a state event keeps the view in agreement |
| `ExtAgreement.LoseGroupInSync` | src/wlr_ext_workspace_v1.c:700-704 | a group without members may be removed, and the view then agrees with the server without it |
| `ExtAgreement.LoseWorkspaceInSync` | src/wlr_ext_workspace_v1.c:852-856 | a workspace in no group may be removed, and the view then agrees with the server without it |
| `ExtAgreement.DestroyGroupHandleInSync` | src/wlr_ext_workspace_v1.c:246-260 | a client that destroys its group handle stays in agreement on what it still holds |
| `ExtAgreement.DestroyWorkspaceHandleInSync` | src/wlr_ext_workspace_v1.c:201-215 | a client that destroys its workspace handle stays in agreement on what it still holds |
| `ExtRuns.WelcomedInSync` | src/wlr_ext_workspace_v1.c:458-523 | a client that binds is told the whole server state, ended by done |
| `ExtRuns.BindInv` | src/wlr_ext_workspace_v1.c:458-523 | binding keeps the invariant of the server and all its managers |
| `ExtRuns.CreateGroupInv` | src/wlr_ext_workspace_v1.c:590-622 | creating a group keeps the invariant |
| `ExtRuns.CreateWorkspaceInv` | src/wlr_ext_workspace_v1.c:795-836 | creating a workspace keeps the invariant |
| `ExtRuns.SetGroupInv` | src/wlr_ext_workspace_v1.c:872-886 | moving a workspace keeps the invariant |
| `ExtRuns.SetNameInv` | src/wlr_ext_workspace_v1.c:888-909 | naming a workspace keeps the invariant |
| `ExtRuns.SetStateInv` | src/wlr_ext_workspace_v1.c:937-957 | changing a state bit keeps the invariant |
| `ExtRuns.VacatedInv` | src/wlr_ext_workspace_v1.c:692-698 | after the first loop of group destruction no workspace is in the group and the invariant still holds |
| `ExtRuns.DestroyGroupInv` | src/wlr_ext_workspace_v1.c:682-721 | destroying a group, with leaves first and requests cleared, keeps the invariant |
| `ExtRuns.DestroyWorkspaceInv` | src/wlr_ext_workspace_v1.c:838-870 | destroying a workspace keeps the invariant |
| `ExtRuns.LoseGroupQueue` | src/wlr_ext_workspace_v1.c:303-340 | clearing the references to a destroyed group leaves exactly the references to live objects |
| `ExtRuns.LoseWorkspaceQueue` | src/wlr_ext_workspace_v1.c:303-340 | clearing the references to a destroyed workspace leaves exactly the references to live objects |
| `ExtRuns.AskInv` | src/wlr_ext_workspace_v1.c:81-189 | a request on live handles is appended to its manager's queue with live references only and changes nothing else; on inert handles nothing happens; the invariant is kept |
| `ExtRuns.CommitQueue` | src/wlr_ext_workspace_v1.c:342-355 | after a commit the queue is empty and everything the manager ever asked for has been handed over, in order, each once |
| `ExtRuns.CommitInv` | src/wlr_ext_workspace_v1.c:342-355 | a commit keeps the invariant |
| `ExtRuns.IdleInv` | src/wlr_ext_workspace_v1.c:357-365 | the idle callback ends every client's events with done |
| `ExtRuns.StopInv` | src/wlr_ext_workspace_v1.c:395-433 | a manager that is stopped or disconnected leaves the others and their invariant alone; its history stays one the strict client accepts |
| `ExtRuns.StepInv` | src/wlr_ext_workspace_v1.c:81-975 | every step keeps the whole invariant |
| `ExtRuns.Replication` | src/wlr_ext_workspace_v1.c:458-975 | on every run, for every bound manager, folding its history over the handles it still holds gives exactly the server's groups, workspaces, names, ids, states and membership |
| `ExtRuns.EventOrder` | protocols/ext-workspace-v1.xml:199-210 | on every run, in every history: enters and leaves of a pair alternate, removed events come after the leaves, no event names a removed object, no workspace gets two ids, finished is the last event |
| `ExtRuns.SnapshotConsistency` | src/wlr_ext_workspace_v1.c:357-373 | on every run, when no idle callback is pending every bound client's last event is done |
| `ExtRuns.RequestsInOrder` | src/wlr_ext_workspace_v1.c:81-189 | on every run, what was handed over followed by what is queued is what this manager asked for, in order, each once, up to references that became null; queued references are null or alive |
| `ExtRuns.DeliveredOnlyAtCommit` | src/wlr_ext_workspace_v1.c:342-355 | no step hands over requests of a manager except its own commit, which hands over all of them; nothing but its own requests on live handles adds to its queue |
| `ExtEffects.CreateGroupEffect` | src/wlr_ext_workspace_v1.c:590-622 | the group is last in the tables with the capabilities asked for; every client gets a handle and two events; a callback is scheduled; all else is as before |
| `ExtEffects.CreateWorkspaceEffect` | src/wlr_ext_workspace_v1.c:795-836 | the workspace is last in the tables with the id and capabilities asked for, no name, group or state; every client gets a handle and its details |
| `ExtEffects.SetGroupEffect` | src/wlr_ext_workspace_v1.c:872-886 | the workspace is in the group asked for; clients that hold both handles get the leave of the old, then the enter of the new, nobody anything if it was there already |
| `ExtEffects.SetNameEffect` | src/wlr_ext_workspace_v1.c:888-909 | the workspace has the name; clients that hold it are told once, nobody if it had the name already |
| `ExtEffects.SetStateEffect` | src/wlr_ext_workspace_v1.c:937-957 | the bit is as asked for and the other bits as before; clients that hold the workspace get the new word if it is another |
| `ExtEffects.DestroyWorkspaceEffect` | src/wlr_ext_workspace_v1.c:838-870 | the workspace is in no table and in no client's handles, no queue refers to it and everything else is as before; a client that held it has its old history, at most one leave, and removed |
| `ExtEffects.DestroyGroupEffect` | src/wlr_ext_workspace_v1.c:682-721 | the group is in no table and in no client's handles, no queue refers to it, its workspaces are in no group; a client that held it has its old history, the leaves in list order, and removed |
| `ExtEffects.IdleEffect` | src/wlr_ext_workspace_v1.c:357-365 | every client has its old history and done; no callback is pending |
| `ExtEffects.DestroyHandleEffect` | src/wlr_ext_workspace_v1.c:201-260 | the handle is gone from that client alone; no event is sent |
| `ExtEffects.AskEffect` | src/wlr_ext_workspace_v1.c:81-189 | which request each ask puts at the end of its queue; nothing if a handle it needs is inert |
| `ExtEffects.CommitEffect` | src/wlr_ext_workspace_v1.c:342-355 | the queue has been handed over, in order, after what was handed over before, and is empty; nothing else changes |
| `ExtEffects.GoneEffect` | src/wlr_ext_workspace_v1.c:395-433 | the manager is gone, the others keep their order and are untouched; finished is sent exactly on stop |
| `ExtEffects.BindEffect` | src/wlr_ext_workspace_v1.c:458-523 | the new client holds a handle for every group and workspace, what it has been told is the whole server state, done is last; the other clients are untouched |
| `ExtEffects.RunStep` | src/wlr_ext_workspace_v1.c:458-975 | a run begins with an empty server, and each step that can happen has its effect on what the run before it left |
| `ExtObjects.WorkspaceManager.Bind` | src/wlr_ext_workspace_v1.c:458-523 | the objects after the method are the specified server after the step: the two loops and the final done |
| `ExtObjects.WorkspaceManager.CreateGroup` | src/wlr_ext_workspace_v1.c:590-622 | the objects after the method are the specified server after the step: announcement to every manager and scheduling |
| `ExtObjects.WorkspaceManager.CreateWorkspace` | src/wlr_ext_workspace_v1.c:795-836 | the objects after the method are the specified server after the step: announcement to every manager and scheduling |
| `ExtObjects.WorkspaceManager.SetGroup` | src/wlr_ext_workspace_v1.c:872-886 | the objects after the method are the specified server after the step: leave and enter for managers that hold both handles |
| `ExtObjects.WorkspaceManager.SetName` | src/wlr_ext_workspace_v1.c:888-909 | the objects after the method are the specified server after the step: nothing on an equal name |
| `ExtObjects.WorkspaceManager.SetState` | src/wlr_ext_workspace_v1.c:937-957 | the objects after the method are the specified server after the step: nothing on an unchanged word |
| `ExtObjects.WorkspaceManager.DestroyGroup` | src/wlr_ext_workspace_v1.c:682-721 | the objects after the method are the specified server after the step: leaves, removed, cleared requests, scheduling |
| `ExtObjects.WorkspaceManager.DestroyWorkspace` | src/wlr_ext_workspace_v1.c:838-870 | the objects after the method are the specified server after the step: leave, removed, cleared requests, scheduling |
| `ExtObjects.WorkspaceManager.HandleIdle` | src/wlr_ext_workspace_v1.c:357-365 | the objects after the method are the specified server after the step: done to every manager |
| `ExtObjects.WorkspaceManager.Ask` | src/wlr_ext_workspace_v1.c:81-189 | the objects after the method are the specified server after the step: queueing on live handles only |
| `ExtObjects.WorkspaceManager.Commit` | src/wlr_ext_workspace_v1.c:342-355 | the objects after the method are the specified server after the step: hand over and empty |
| `ExtObjects.WorkspaceManager.Stop` | src/wlr_ext_workspace_v1.c:395-433 | the objects after the method are the specified server after the step: finished, then the manager resource goes |
| `ExtObjects.ManagerResource.LoseGroup` | src/wlr_ext_workspace_v1.c:303-340 | the event, the dropped handle and the loop over the requests together are the specified loss |
| `ExtObjects.ManagerResource.LoseWorkspace` | src/wlr_ext_workspace_v1.c:303-340 | the event, the dropped handle and the loop over the requests together are the specified loss |
| `ActiveBit.PrintMonitorBits` | src/ext_workspace.c:119-135 | the status loop of one monitor makes the active bits of its workspaces right and touches no other monitor's workspace |
| `ActiveBit.PrintStatusMatches` | src/peachwm.c:2649-2689 | after printstatus every active bit is right, whatever it was before |
| `ActiveBit.ViewMatches` | src/peachwm.c:4272-4281 | view keeps all active bits right |
| `ActiveBit.ToggleViewMatches` | src/peachwm.c:4031-4041 | toggleview keeps all active bits right |
| `ActiveBit.SetTagsMatches` | src/ipc.c:126-141 | set_tags on any monitor keeps all active bits right |
| `ActiveBit.ReactMatches` | src/ext_workspace.c:139-182 | reacting to any request of a commit keeps all active bits right |
| `ActiveEffects.ViewedEffect` | src/peachwm.c:4272-4278 | all bits of both slots after `view`: nothing exactly if the cut mask is shown; else the other slot is selected and holds the cut mask, or its old set for an empty mask, and the old set stays in the slot before |
| `ActiveEffects.ToggledEffect` | src/peachwm.c:4031-4036 | all bits after `toggleview`: nothing exactly if nothing would be left; else the cut mask is flipped in the selected slot and the other slot is unchanged |
| `ActiveEffects.RetaggedEffect` | src/ipc.c:126-141 | after `set_tags` the selected slot changes exactly if `toggle` is set, the selected set is the mask cut to nine tags, the other slot keeps its content |
| `ActiveEffects.PrintHandleEffect` | src/ext_workspace.c:131-133 | the word after the three setters, and the one to three events that clients get, each only if the word changes, in order |
| `ActiveEffects.StatusEffect` | src/peachwm.c:2649-2689 | every word is exactly active (by the tag sets) and urgent, never hidden; nothing but words has changed |
| `ActiveEffects.ViewEffect` | src/peachwm.c:4272-4281 | only the selected monitor changes, as `ViewedEffect` says, and all words are right afterwards |
| `ActiveEffects.ToggleViewEffect` | src/peachwm.c:4031-4041 | only the selected monitor changes, as `ToggledEffect` says, and all words are right afterwards |
| `ActiveEffects.SetTagsEffect` | src/ipc.c:126-141 | only the monitor named changes, as `RetaggedEffect` says, and all words are right afterwards |
| `ActiveEffects.EventEffect` | src/peachwm.c:4272-4281 | as events of a run: `view`, `toggleview`, `set_tags`, a status and the selection of a monitor have exactly the effects above |
| `ActiveEffects.ReactInOrder` | src/ext_workspace.c:139-182 | the loop over the queue: no request changes nothing, and one request more is answered once, last, on the desk the others leave |
| `ActiveEffects.CommitIsReactions` | src/wlr_ext_workspace_v1.c:342-355 | after a commit the desk is the reactions to the whole queue, the queue is empty and handed over |
| `ActiveEffects.CommitEndsWith` | src/ext_workspace.c:139-182 | requests after the last one that refers to an existing workspace change nothing, so a commit ends with the effect of that one on what the queue before it leaves |
| `ActiveEffects.CommitActivates` | src/ext_workspace.c:147-162 | for every queue: if its last effective request activates a workspace of the selected monitor, that workspace is active afterwards and its tag is the only one shown |
| `ActiveEffects.CommitDeactivates` | src/ext_workspace.c:164-178 | for every queue that ends with a deactivate: on the selected monitor the workspace is toggled relative to the queue without it, except that the last tag in view stays; on other monitors it is as the queue left it |
| `ActiveRuns.CreateTagsList` | src/ext_workspace.c:89-101 | a new monitor gets one workspace per tag, in order, after the existing ones |
| `ActiveRuns.CreateMonitorMatches` | src/peachwm.c:1253-1255 | a new monitor's workspaces have the right active bits after createmon |
| `ActiveRuns.RemoveMonitorMatches` | src/ext_workspace.c:103-115 | removing a monitor leaves the active bits of the workspaces of the other monitors right |
| `ActiveRuns.RemoveMonitorStates` | src/ext_workspace.c:103-115 | the workspaces of the other monitors keep the state word the last status gave them |
| `ActiveRuns.RemoveMonitorHandles` | src/ext_workspace.c:103-115 | the handles that are left belong to other monitors and their workspaces still exist |
| `ActiveRuns.ReactAllQueues` | src/wlr_ext_workspace_v1.c:350-354 | while the compositor reacts to a commit no request queue changes, so the loop over the queue is well defined |
| `ActiveRuns.ProcessOnce` | src/ext_workspace.c:61-115 | every top-level event keeps exactly one workspace per monitor and tag |
| `ActiveRuns.ActiveBitEndToEnd` | src/ext_workspace.c:119-182 | after any run of top-level events each (monitor, tag) has exactly one workspace and every bound client sees it active exactly when the tag's bit is set in the monitor's selected tags |
| `ActiveInventory.CreateTagEffect` | src/ext_workspace.c:69-86 | the new workspace has the tag's digit as id and name, capabilities 3, and is in its monitor's group |
| `ActiveInventory.PlugEffect` | src/peachwm.c:1253-1255 | a new monitor is first in the list, shows tag 1, and has nine new workspaces in order after the existing ones; every word is right |
| `ActiveInventory.UnplugEffect` | src/ext_workspace.c:103-115 | exactly the monitor's workspaces, handles and group are gone; every other workspace is as before up to its word |
| `ActiveInventory.RunWhole` | src/ext_workspace.c:61-115 | after every run the server holds exactly the workspaces of the handles and the groups of the monitors, each workspace with its tag's digit as id and name, capabilities 3, and its monitor's group |
| `ActiveRequests.ActivateWorks` | src/ext_workspace.c:147-162 | an activate request leaves its workspace active if and only if the workspace belongs to the selected monitor or was active before |
| `ActiveRequests.DeactivateToggles` | src/ext_workspace.c:164-178 | a deactivate request toggles on the selected monitor, except that the last tag in view stays; on other monitors it changes nothing |
| `ActiveIds.IdsUniqueIff` | src/ext_workspace.c:69-86 | after every run the ids of the workspaces are pairwise distinct if and only if there is at most one monitor |
| `ActiveIds.ClashIsSeen` | protocols/ext-workspace-v1.xml:254-271 | a client that holds a handle for every workspace of two monitors sees two workspaces with the same id, against the rule of the protocol |
| `ActiveIds.TwoPlugs` | src/ext_workspace.c:88-101 | plugging in two monitors one after the other, at the end of any run, makes ids clash |
| `Compositors.Compositor.PrintHandle` | src/ext_workspace.c:131-133 | the objects after the loop or call are the specified desk, server and handle list |
| `Compositors.Compositor.PrintMonitor` | src/ext_workspace.c:119-135 | the objects after the loop or call are the specified desk, server and handle list |
| `Compositors.Compositor.PrintStatus` | src/peachwm.c:2649-2689 | the objects after the loop or call are the specified desk, server and handle list |
| `Compositors.Compositor.ViewTags` | src/peachwm.c:4272-4281 | the objects after the loop or call are the specified desk, server and handle list |
| `Compositors.Compositor.ToggleTags` | src/peachwm.c:4031-4041 | the objects after the loop or call are the specified desk, server and handle list |
| `Compositors.Compositor.SetTags` | src/ipc.c:126-141 | the objects after the loop or call are the specified desk, server and handle list |
| `Compositors.Compositor.CreateTag` | src/ext_workspace.c:69-86 | the objects after the loop or call are the specified desk, server and handle list |
| `Compositors.Compositor.CreateTags` | src/ext_workspace.c:99-100 | the objects after the loop or call are the specified desk, server and handle list |
| `Compositors.Compositor.CreateMonitor` | src/peachwm.c:1253-1255 | the objects after the loop or call are the specified desk, server and handle list |
| `Compositors.Compositor.React` | src/ext_workspace.c:147-181 | the objects after the loop or call are the specified desk, server and handle list |
| `Compositors.Compositor.ReactToQueue` | src/ext_workspace.c:139-182 | the objects after the loop or call are the specified desk, server and handle list |
| `Compositors.Compositor.Commit` | src/wlr_ext_workspace_v1.c:342-355 | the objects after the loop or call are the specified desk, server and handle list |
| `Compositors.Compositor.CleanupMonitor` | src/ext_workspace.c:103-115 | the objects after the loop or call are the specified desk, server and handle list |
| `Compositors.Compositor.RemoveMonitor` | src/peachwm.c:818-832 | the objects after the loop or call are the specified desk, server and handle list |
| `TagOps.CompileStep` | peachmsg/peachmsg.c:249-261 | one turn of the loop keeps the pair of masks equal in effect to the characters read so far, on every tag word |
| `TagOps.Compile` | peachmsg/peachmsg.c:235-265 | for every specification whose positions fit in the word and every tag word, `(tags & and) ^ xor` is the character by character meaning; a bare number selects exactly that tag; the tag-count refusal is exact |
| `TagOps.ApplyInPlace` | peachmsg/peachmsg.c:217-229 | the direct loop of `-t` is the position by position application |
| `TagOps.CompileTagset` | peachmsg/peachmsg.c:201-234 | the whole of `-t`, with its `!` and number: the mask is the meaning of the specification on the selected tags, the toggle flag is unset exactly by `!`, the tag-count refusal is exact |
| `TagOps.ApplyAt` | peachmsg/peachmsg.c:249-261 | bit by bit: `-` clears, `+` sets, `^` flips its own position, any other character and position keeps the bit |
| `TagSpecs.SpecParts` | peachmsg/peachmsg.c:240-241 | the number at the front is the decimal number written there, the rest are the operations; without a number the first tag is meant |
| `TagSpecs.MeaningIs` | peachmsg/peachmsg.c:235-265 | by the text of a `-c` specification, bit by bit: a bare number is exactly that tag, otherwise each character decides its own tag and no other tag changes |
| `TagSpecs.TagsetIs` | peachmsg/peachmsg.c:201-234 | the same for `-t` with or without the mark: after the mark a bare number changes nothing |
| `TagSpecs.SetClientTagsIs` | src/ipc.c:156-159 | bit by bit what the server makes of the masks: kept and flipped, and nothing exactly if no tag would be left |
| `TagOps.SendClientTags` | src/ipc.c:143-163 | from specification to client tags: the compiled pair has the direct meaning, an empty result or a refused specification leaves the tags |
| `FocusMirror.SessionLists` | src/peachwm.c:2331-2334 | over every session the client list and the focus list hold the same clients, each once |
| `FocusMirror.FocusOnTop` | src/peachwm.c:1590-1595 | a visible client that is focused is the top, and the others keep their order |
| `FocusMirror.FirstVisibleIs` | src/peachwm.c:1778-1784 | a result that is not null is the entry at some index with no visible entry before it; null exactly if no entry is visible |
| `FocusMirror.SessionOrder` | src/peachwm.c:2331-2334 | over every session the client list is ordered by the last map of each client, the focus list by its last map or focus, latest first, and both hold exactly the clients mapped and not unmapped since |
| `FocusMirror.AllowedNext` | src/peachwm.c:2331-2334 | which events can come next: a map of a client not mapped, a focus or unmap of one that is |
| `FocusMirror.ClientArray.Append` | src/peachwm.c:502-508 | the client is added at the end; growing keeps the contents |
| `FocusMirror.ClientArray.SwapRemove` | src/peachwm.c:510-517 | exactly one occurrence of the client is gone, as a multiset |
| `FocusMirror.ClientArray.Prepend` | src/peachwm.c:519-527 | the client is in front and the others keep their order |
| `FocusMirror.ClientArray.ShiftRemove` | src/peachwm.c:529-538 | exactly the first occurrence is gone and the others keep their order |
| `FocusMirror.ClientArray.FirstVisibleItem` | src/peachwm.c:1778-1784 | the loop finds the entry that is visible with none visible before it, or null exactly if there is none |
| `FocusMirror.Clients.Map` | src/peachwm.c:2331-2334 | the new client is in front of both lists and the arrays still mirror them |
| `FocusMirror.Clients.Focus` | src/peachwm.c:1590-1595 | the client moves to the front of the focus list and the arrays still mirror the lists |
| `FocusMirror.Clients.Unmap` | src/peachwm.c:4077-4082 | the client is gone from both lists and the arrays still mirror them |
| `FocusMirror.Session` | src/peachwm.c:1778-1784 | after any sequence of map, focus and unmap the array-based focustop is the entry of the focus list that is visible with none visible before it, null exactly if none is visible |

## Left out

- One monitor: the loop of `swaptiled` over monitors and tags; the array methods follow one tree, and
  `DwindleFocus` has the trees of one monitor as values.
- The master and monocle layouts, which compute each box directly.
- Everything behind the geometry that `resize` sets: wlroots, the scene graph, rendering, input.
- DwindlePacking.TilesIffNoClamp: says nothing about sides of 2^24 pixels and more, where single-precision halving is inexact.
- DwindleTrees.DwindleTree.Dwindle: requires that removals stay inside the arrays; what the source does beyond them is undefined in C.
- DwindleRuns.RunLaysOut: covers runs without a self-anchored insertion; after one there is no tree to lay out, as RunRefines shows.
- DwindleFocus.TagThenView: `focusclient` without a lock screen, layer surface or exclusive focus, on one monitor.
- ExtRuns.Replication: outputs (`output_enter`, `output_leave`) and coordinates are not part of the view.
- ExtRuns.StepInv: allocation failure and display teardown are not steps.
- ExtObjects.WorkspaceManager.SetGroup: the handles of a manager are a set, so the search of `workspace_send_group` through two resource lists is a membership test.
- ExtObjects.WorkspaceManager.SetState: the order in which different clients get an event is not modelled, only the order in which each client gets its own.
- ActiveRuns.ActiveBitEndToEnd: only the active bit; the urgent bit of `get_tag_status` depends on the first client of a tag and is a parameter.
- TagOps.Compile: requires every position to fit in the 32-bit word, since the source's shift by more is undefined in C; wrap-around of a very long number is not modelled.
- FocusMirror.Clients.Focus: only the list updates of `focusclient`; its early returns leave the lists alone.
- IpcClients.IpcClient.Dispatch: what the six commands do with a message is not modelled.
- The JSON writer, `ipc_handle_subscribe` and the resumption of partial writes in `ipc_send_raw`.
- Scratchpads, beyond their visibility; window rules; the Lua configuration; autostart; XWayland.

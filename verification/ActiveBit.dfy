// Monitors, tags and workspaces: src/ext_workspace.c together with the functions that change a
// monitor's selected tags, on top of the workspace server.

module ActiveBit {
  import opened Lists
  import opened ExtProtocol
  import opened ExtServer
  import opened ExtAgreement
  import opened ExtRuns
  import opened TagWords

  const WORKSPACE_CAPS := 3

  datatype Monitor = Monitor(tagset: seq<Word>, selected: nat, group: GroupId)

  /** `struct ext_workspace`: the workspace of one tag of one monitor. */
  datatype Handle = Handle(tag: nat, mon: nat, w: WorkspaceId)

  datatype Desk = Desk(server: Server, order: seq<nat>, monitors: map<nat, Monitor>, handles: seq<Handle>,
                       selmon: Option<nat>, nextMon: nat)

  const EMPTY_DESK := Desk(INITIAL, [], map[], [], None, 0)

  /** The mask of tag `tag`. */
  function TagBit(tag: nat): Word
    requires 1 <= tag <= TAG_COUNT
  {
    Bit(tag - 1)
  }

  predicate ValidMonitor(m: Monitor) {
    |m.tagset| == 2 && m.selected < 2
  }

  function Selected(m: Monitor): Word
    requires ValidMonitor(m)
  {
    m.tagset[m.selected]
  }

  /** Tag `tag` is in the selected tag set of the monitor. */
  predicate Shown(m: Monitor, tag: nat)
    requires ValidMonitor(m) && 1 <= tag <= TAG_COUNT
  {
    And(And(Selected(m), TagBit(tag)), TAG_MASK) != {}
  }

  /** The tags that the monitor shows. */
  function ShownTags(m: Monitor): set<nat>
    requires ValidMonitor(m)
  {
    set tag: nat | 1 <= tag <= TAG_COUNT && Shown(m, tag)
  }

  predicate IsActive(x: Workspace) {
    Active in x.state
  }

  // ----- status --------------------------------------------------------------------------

  /** The three setters for one handle. */
  function PrintHandle(s: Server, w: WorkspaceId, urgent: bool, active: bool): (t: Server)
    requires w in s.info
    ensures t.info.Keys == s.info.Keys
  {
    SetState(SetState(SetState(s, w, Urgent, urgent), w, Hidden, false), w, Active, active)
  }

  ghost predicate ValidHandles(s: Server, hs: seq<Handle>) {
    && (forall i | 0 <= i < |hs| :: hs[i].w in s.info && 1 <= hs[i].tag <= TAG_COUNT)
    && (forall i, j | 0 <= i < |hs| && 0 <= j < |hs| && hs[i].w == hs[j].w :: i == j)
  }

  /** `ext_workspace_printstatus`, over the first `n` handles. */
  ghost function PrintMonitor(s: Server, hs: seq<Handle>, id: nat, shown: set<nat>, urgent: set<WorkspaceId>,
                              n: nat): (t: Server)
    requires ValidHandles(s, hs) && n <= |hs|
    ensures t.info.Keys == s.info.Keys
  {
    if n == 0 then s
    else
      var t := PrintMonitor(s, hs, id, shown, urgent, n - 1);
      var h := hs[n - 1];
      if h.mon != id then t else PrintHandle(t, h.w, h.w in urgent, h.tag in shown)
  }

  ghost predicate ValidMonitors(ms: map<nat, Monitor>) {
    forall id | id in ms :: ValidMonitor(ms[id])
  }

  /** `printstatus`, over the first `k` monitors. */
  ghost function PrintAll(d: Desk, urgent: set<WorkspaceId>, k: nat): (t: Server)
    requires ValidHandles(d.server, d.handles) && ValidMonitors(d.monitors) && k <= |d.order|
    requires forall id | id in d.order :: id in d.monitors
    ensures t.info.Keys == d.server.info.Keys
  {
    if k == 0 then d.server
    else
      PrintMonitor(PrintAll(d, urgent, k - 1), d.handles, d.order[k - 1], ShownTags(d.monitors[d.order[k - 1]]),
                   urgent, |d.handles|)
  }

  ghost predicate Consistent(d: Desk) {
    Inv(d.server) && Tidy(d)
  }

  /** The compositor's own lists fit together and refer to existing workspaces and groups. */
  ghost predicate Tidy(d: Desk) {
    && ValidHandles(d.server, d.handles) && ValidMonitors(d.monitors)
    && NoDuplicates(d.order)
    && (forall id :: id in d.order <==> id in d.monitors)
    && (forall id | id in d.monitors :: id < d.nextMon && d.monitors[id].group in d.server.caps)
    && (forall i, j | i in d.monitors && j in d.monitors && d.monitors[i].group == d.monitors[j].group :: i == j)
    && (forall i | 0 <= i < |d.handles| :: d.handles[i].mon in d.monitors)
    && (d.selmon.Some? ==> d.selmon.value in d.monitors)
  }

  ghost predicate ActiveAt(s: Server, h: Handle, shown: set<nat>)
    requires h.w in s.info
  {
    IsActive(s.info[h.w]) <==> h.tag in shown
  }

  /** The whole state word of a workspace: active as shown, urgent as given, never hidden. */
  ghost predicate WordAt(s: Server, h: Handle, shown: set<nat>, urgent: set<WorkspaceId>)
    requires h.w in s.info
  {
    forall f :: f in s.info[h.w].state <==> (f == Active && h.tag in shown) || (f == Urgent && h.w in urgent)
  }

  lemma WordHasActive(s: Server, h: Handle, shown: set<nat>, urgent: set<WorkspaceId>)
    requires h.w in s.info && WordAt(s, h, shown, urgent)
    ensures ActiveAt(s, h, shown)
  {
    assert Active in s.info[h.w].state <==> h.tag in shown;
  }

  /** Every workspace is active exactly if its monitor shows its tag. */
  ghost predicate ActiveMatches(d: Desk)
    requires Tidy(d)
  {
    forall i | 0 <= i < |d.handles| :: ActiveAt(d.server, d.handles[i], ShownTags(d.monitors[d.handles[i].mon]))
  }

  /** `printstatus` */
  ghost function PrintStatus(d: Desk, urgent: set<WorkspaceId>): Desk
    requires ValidHandles(d.server, d.handles) && ValidMonitors(d.monitors)
    requires forall id | id in d.order :: id in d.monitors
  {
    d.(server := PrintAll(d, urgent, |d.order|))
  }

  lemma PrintHandleBits(s: Server, w: WorkspaceId, urgent: bool, active: bool)
    requires w in s.info
    ensures var t := PrintHandle(s, w, urgent, active);
            && t.caps == s.caps
            && (forall f :: f in t.info[w].state <==> (f == Active && active) || (f == Urgent && urgent))
            && forall x | x in s.info && x != w :: t.info[x] == s.info[x]
  {
  }

  /** The first `n` handles of the monitor are right, and no other monitor's handle has changed. */
  ghost predicate Covers(s: Server, t: Server, hs: seq<Handle>, id: nat, shown: set<nat>, urgent: set<WorkspaceId>,
                         n: nat)
    requires ValidHandles(s, hs) && n <= |hs| && t.info.Keys == s.info.Keys
  {
    && t.caps == s.caps
    && (forall i | 0 <= i < n && hs[i].mon == id :: WordAt(t, hs[i], shown, urgent))
    && (forall i | 0 <= i < |hs| && hs[i].mon != id :: t.info[hs[i].w] == s.info[hs[i].w])
  }

  lemma CoversOneMore(s: Server, t: Server, hs: seq<Handle>, id: nat, shown: set<nat>, urgent: set<WorkspaceId>,
                      n: nat)
    requires ValidHandles(s, hs) && n < |hs| && t.info.Keys == s.info.Keys
    requires Covers(s, t, hs, id, shown, urgent, n) && hs[n].mon == id
    ensures Covers(s, PrintHandle(t, hs[n].w, hs[n].w in urgent, hs[n].tag in shown), hs, id, shown, urgent, n + 1)
  {
    var h := hs[n];
    var u := PrintHandle(t, h.w, h.w in urgent, h.tag in shown);
    PrintHandleBits(t, h.w, h.w in urgent, h.tag in shown);
    forall i | 0 <= i < n + 1 && hs[i].mon == id ensures WordAt(u, hs[i], shown, urgent) {
      assert i < n ==> WordAt(t, hs[i], shown, urgent) && hs[i].w != h.w;
    }
    forall i | 0 <= i < |hs| && hs[i].mon != id ensures u.info[hs[i].w] == s.info[hs[i].w] {
      assert hs[i].w != h.w;
    }
  }

  /** `P` survives every change of a state bit. */
  ghost predicate Stable(P: Server -> bool) {
    forall s, w, flag, enabled | P(s) && w in s.info :: P(SetState(s, w, flag, enabled))
  }

  /** What survives every change of a state bit survives the status of a monitor. */
  lemma {:induction false} PrintMonitorKeeps(P: Server -> bool, s: Server, hs: seq<Handle>, id: nat, shown: set<nat>,
                                             urgent: set<WorkspaceId>, n: nat)
    requires Stable(P) && P(s) && ValidHandles(s, hs) && n <= |hs|
    ensures P(PrintMonitor(s, hs, id, shown, urgent, n))
  {
    if n == 0 {
    } else {
      PrintMonitorKeeps(P, s, hs, id, shown, urgent, n - 1);
      var h := hs[n - 1];
      if h.mon == id {
        var t := PrintMonitor(s, hs, id, shown, urgent, n - 1);
        var a := SetState(t, h.w, Urgent, h.w in urgent);
        var b := SetState(a, h.w, Hidden, false);
        assert P(a) && P(b) && P(SetState(b, h.w, Active, h.tag in shown));
      }
    }
  }

  lemma {:induction false} PrintMonitorBits(s: Server, hs: seq<Handle>, id: nat, shown: set<nat>,
                                            urgent: set<WorkspaceId>, n: nat)
    requires ValidHandles(s, hs) && n <= |hs|
    ensures Covers(s, PrintMonitor(s, hs, id, shown, urgent, n), hs, id, shown, urgent, n)
  {
    if n == 0 {
    } else {
      PrintMonitorBits(s, hs, id, shown, urgent, n - 1);
      var t := PrintMonitor(s, hs, id, shown, urgent, n - 1);
      if hs[n - 1].mon == id {
        CoversOneMore(s, t, hs, id, shown, urgent, n - 1);
      }
    }
  }

  ghost predicate Printable(d: Desk) {
    && ValidHandles(d.server, d.handles) && ValidMonitors(d.monitors)
    && forall id | id in d.order :: id in d.monitors
  }

  lemma SameKeysHandles(s: Server, t: Server, hs: seq<Handle>)
    requires ValidHandles(s, hs) && t.info.Keys == s.info.Keys
    ensures ValidHandles(t, hs)
  {
  }

  /** What survives every change of a state bit survives `printstatus`. */
  lemma {:induction false} PrintAllKeeps(P: Server -> bool, d: Desk, urgent: set<WorkspaceId>, k: nat)
    requires Stable(P) && P(d.server) && Printable(d) && k <= |d.order|
    ensures P(PrintAll(d, urgent, k))
  {
    if k == 0 {
    } else {
      PrintAllKeeps(P, d, urgent, k - 1);
      var t, shown := PrintAll(d, urgent, k - 1), ShownTags(d.monitors[d.order[k - 1]]);
      SameKeysHandles(d.server, t, d.handles);
      PrintMonitorKeeps(P, t, d.handles, d.order[k - 1], shown, urgent, |d.handles|);
    }
  }

  lemma PrintAllInv(d: Desk, urgent: set<WorkspaceId>)
    requires Inv(d.server) && Printable(d)
    ensures Inv(PrintAll(d, urgent, |d.order|))
  {
    var P := (s: Server) => Inv(s);
    forall s, w, flag, enabled | P(s) && w in s.info ensures P(SetState(s, w, flag, enabled)) {
      SetStateInv(s, w, flag, enabled);
    }
    PrintAllKeeps(P, d, urgent, |d.order|);
  }

  /** The words of the first `k` monitors are right. */
  ghost predicate WordsUpTo(d: Desk, t: Server, urgent: set<WorkspaceId>, k: nat)
    requires Printable(d) && k <= |d.order| && t.info.Keys == d.server.info.Keys
  {
    && t.caps == d.server.caps
    && forall i, j | 0 <= i < |d.handles| && 0 <= j < k && d.handles[i].mon == d.order[j] ::
         WordAt(t, d.handles[i], ShownTags(d.monitors[d.order[j]]), urgent)
  }

  lemma NextMonitorWords(d: Desk, t: Server, u: Server, urgent: set<WorkspaceId>, k: nat)
    requires Printable(d) && k < |d.order|
    requires t.info.Keys == d.server.info.Keys && u.info.Keys == t.info.Keys && WordsUpTo(d, t, urgent, k)
    requires ValidHandles(t, d.handles)
    requires Covers(t, u, d.handles, d.order[k], ShownTags(d.monitors[d.order[k]]), urgent, |d.handles|)
    ensures WordsUpTo(d, u, urgent, k + 1)
  {
    forall i, j | 0 <= i < |d.handles| && 0 <= j < k + 1 && d.handles[i].mon == d.order[j]
      ensures WordAt(u, d.handles[i], ShownTags(d.monitors[d.order[j]]), urgent)
    {
      if d.order[j] != d.order[k] {
        assert WordAt(t, d.handles[i], ShownTags(d.monitors[d.order[j]]), urgent);
      }
    }
  }

  lemma {:induction false} PrintAllWords(d: Desk, urgent: set<WorkspaceId>, k: nat)
    requires Printable(d) && k <= |d.order|
    ensures WordsUpTo(d, PrintAll(d, urgent, k), urgent, k)
  {
    if k == 0 {
    } else {
      PrintAllWords(d, urgent, k - 1);
      var t, shown := PrintAll(d, urgent, k - 1), ShownTags(d.monitors[d.order[k - 1]]);
      SameKeysHandles(d.server, t, d.handles);
      PrintMonitorBits(t, d.handles, d.order[k - 1], shown, urgent, |d.handles|);
      NextMonitorWords(d, t, PrintAll(d, urgent, k), urgent, k - 1);
    }
  }

  /** After `printstatus` every workspace of a listed monitor has the right word, whatever it had before. */
  lemma PrintedWord(d: Desk, urgent: set<WorkspaceId>, i: nat)
    requires Printable(d) && i < |d.handles| && d.handles[i].mon in d.order
    ensures var e := PrintStatus(d, urgent);
            && e == d.(server := e.server) && e.server.info.Keys == d.server.info.Keys
            && WordAt(e.server, d.handles[i], ShownTags(d.monitors[d.handles[i].mon]), urgent)
  {
    PrintAllWords(d, urgent, |d.order|);
    var j :| 0 <= j < |d.order| && d.order[j] == d.handles[i].mon;
    assert WordAt(PrintStatus(d, urgent).server, d.handles[i], ShownTags(d.monitors[d.order[j]]), urgent);
  }

  /** After `printstatus` every active bit is right, whatever it was before. */
  lemma PrintStatusMatches(d: Desk, urgent: set<WorkspaceId>)
    requires Consistent(d)
    ensures Consistent(PrintStatus(d, urgent)) && ActiveMatches(PrintStatus(d, urgent))
  {
    PrintAllInv(d, urgent);
    PrintAllWords(d, urgent, |d.order|);
    var e := PrintStatus(d, urgent);
    forall i | 0 <= i < |e.handles| ensures ActiveAt(e.server, e.handles[i], ShownTags(e.monitors[e.handles[i].mon])) {
      PrintedWord(d, urgent, i);
      WordHasActive(e.server, d.handles[i], ShownTags(d.monitors[d.handles[i].mon]), urgent);
    }
  }

  // ----- changes of the selected tags ----------------------------------------------------

  function WithMonitor(d: Desk, id: nat, m: Monitor): Desk {
    d.(monitors := d.monitors[id := m])
  }

  /** The monitor that `view` leaves: the other slot is selected, and filled unless the mask is empty. */
  function Viewed(m: Monitor, ui: Word): (r: Option<Monitor>)
    requires ValidMonitor(m)
    ensures r.Some? ==> ValidMonitor(r.value) && r.value.group == m.group
  {
    var tags := And(ui, TAG_MASK);
    if tags == Selected(m) then None
    else
      var other := m.(selected := 1 - m.selected);
      Some(if tags != {} then other.(tagset := other.tagset[other.selected := tags]) else other)
  }

  /** The monitor that `toggleview` leaves; an empty tag set is refused. */
  function Toggled(m: Monitor, ui: Word): (r: Option<Monitor>)
    requires ValidMonitor(m)
    ensures r.Some? ==> ValidMonitor(r.value) && r.value.group == m.group
  {
    var tags := Xor(Selected(m), And(ui, TAG_MASK));
    if tags == {} then None else Some(m.(tagset := m.tagset[m.selected := tags]))
  }

  /** The monitor that `ipc_output_handle_set_tags` leaves. */
  function Retagged(m: Monitor, mask: Word, toggle: bool): (r: Monitor)
    requires ValidMonitor(m)
    ensures ValidMonitor(r) && r.group == m.group
  {
    var other := if toggle then m.(selected := 1 - m.selected) else m;
    other.(tagset := other.tagset[other.selected := And(mask, TAG_MASK)])
  }

  /** Stores the monitor, if it changed, and prints the status. */
  ghost function Store(d: Desk, id: nat, r: Option<Monitor>, urgent: set<WorkspaceId>): Desk
    requires Tidy(d) && id in d.monitors
    requires r.Some? ==> ValidMonitor(r.value) && r.value.group == d.monitors[id].group
  {
    if r.None? then d else PrintStatus(WithMonitor(d, id, r.value), urgent)
  }

  lemma StorePrintable(d: Desk, id: nat, m: Monitor)
    requires Tidy(d) && id in d.monitors && ValidMonitor(m)
    ensures Printable(WithMonitor(d, id, m))
  {
  }

  /** A monitor's tags may be anything; the next `printstatus` makes the bits right. */
  lemma StoreMatches(d: Desk, id: nat, r: Option<Monitor>, urgent: set<WorkspaceId>)
    requires Consistent(d) && ActiveMatches(d) && id in d.monitors
    requires r.Some? ==> ValidMonitor(r.value) && r.value.group == d.monitors[id].group
    ensures Consistent(Store(d, id, r, urgent)) && ActiveMatches(Store(d, id, r, urgent))
  {
    if r.Some? {
      PrintStatusMatches(WithMonitor(d, id, r.value), urgent);
    }
  }

  /** `view` on the selected monitor. */
  ghost function ViewTags(d: Desk, ui: Word, urgent: set<WorkspaceId>): Desk
    requires Tidy(d)
  {
    if d.selmon == None then d
    else Store(d, d.selmon.value, Viewed(d.monitors[d.selmon.value], ui), urgent)
  }

  /** `toggleview` on the selected monitor. */
  ghost function ToggleTags(d: Desk, ui: Word, urgent: set<WorkspaceId>): Desk
    requires Tidy(d)
  {
    if d.selmon == None then d
    else Store(d, d.selmon.value, Toggled(d.monitors[d.selmon.value], ui), urgent)
  }

  /** `ipc_output_handle_set_tags`, on any monitor. */
  ghost function SetTags(d: Desk, id: nat, mask: Word, toggle: bool, urgent: set<WorkspaceId>): Desk
    requires Tidy(d) && id in d.monitors
  {
    Store(d, id, Some(Retagged(d.monitors[id], mask, toggle)), urgent)
  }

  lemma ViewMatches(d: Desk, ui: Word, urgent: set<WorkspaceId>)
    requires Consistent(d) && ActiveMatches(d)
    ensures Consistent(ViewTags(d, ui, urgent)) && ActiveMatches(ViewTags(d, ui, urgent))
  {
    if d.selmon.Some? {
      StoreMatches(d, d.selmon.value, Viewed(d.monitors[d.selmon.value], ui), urgent);
    }
  }

  lemma ToggleViewMatches(d: Desk, ui: Word, urgent: set<WorkspaceId>)
    requires Consistent(d) && ActiveMatches(d)
    ensures Consistent(ToggleTags(d, ui, urgent)) && ActiveMatches(ToggleTags(d, ui, urgent))
  {
    if d.selmon.Some? {
      StoreMatches(d, d.selmon.value, Toggled(d.monitors[d.selmon.value], ui), urgent);
    }
  }

  lemma SetTagsMatches(d: Desk, id: nat, mask: Word, toggle: bool, urgent: set<WorkspaceId>)
    requires Consistent(d) && ActiveMatches(d) && id in d.monitors
    ensures Consistent(SetTags(d, id, mask, toggle, urgent)) && ActiveMatches(SetTags(d, id, mask, toggle, urgent))
  {
    StoreMatches(d, id, Some(Retagged(d.monitors[id], mask, toggle)), urgent);
  }

  // ----- commits -------------------------------------------------------------------------

  /** The first handle for workspace `w` among those from `i` on. */
  function FindHandle(hs: seq<Handle>, w: WorkspaceId, i: nat): (r: Option<nat>)
    requires i <= |hs|
    ensures r.Some? ==> i <= r.value < |hs| && hs[r.value].w == w
    decreases |hs| - i
  {
    if i == |hs| then None
    else if hs[i].w == w then Some(i)
    else FindHandle(hs, w, i + 1)
  }

  /** `handle_ext_commit` on one request: activate views the tag, deactivate toggles it. */
  ghost function React(d: Desk, r: Request, urgent: set<WorkspaceId>): Desk
    requires Tidy(d)
  {
    match r
    case Activate(Some(w)) =>
      var i := FindHandle(d.handles, w, 0);
      if i == None then d else ViewTags(d, TagBit(d.handles[i.value].tag), urgent)
    case Deactivate(Some(w)) =>
      var i := FindHandle(d.handles, w, 0);
      if i == None then d else ToggleTags(d, TagBit(d.handles[i.value].tag), urgent)
    case _ => d
  }

  lemma ReactMatches(d: Desk, r: Request, urgent: set<WorkspaceId>)
    requires Consistent(d) && ActiveMatches(d)
    ensures Consistent(React(d, r, urgent)) && ActiveMatches(React(d, r, urgent))
  {
    var e := React(d, r, urgent);
    match r
    case Activate(Some(w)) =>
      var i := FindHandle(d.handles, w, 0);
      if i.Some? {
        ViewMatches(d, TagBit(d.handles[i.value].tag), urgent);
      } else {
        assert e == d;
      }
    case Deactivate(Some(w)) =>
      var i := FindHandle(d.handles, w, 0);
      if i.Some? {
        ToggleViewMatches(d, TagBit(d.handles[i.value].tag), urgent);
      } else {
        assert e == d;
      }
    case _ => assert e == d;
  }

  /** The commit loop; `urgents` gives the urgent workspaces at each reaction. */
  ghost function ReactAll(d: Desk, rs: seq<Request>, urgents: seq<set<WorkspaceId>>): (e: Desk)
    requires Consistent(d) && ActiveMatches(d) && |urgents| == |rs|
    ensures Consistent(e) && ActiveMatches(e)
    decreases |rs|
  {
    if rs == [] then d
    else
      ReactMatches(d, rs[0], urgents[0]);
      ReactAll(React(d, rs[0], urgents[0]), rs[1..], urgents[1..])
  }
}

// What the requests of a client achieve: `handle_ext_commit` acts on the selected monitor, whichever
// monitor the workspace belongs to.

module ActiveRequests {
  import opened ExtProtocol
  import opened ExtServer
  import opened ExtAgreement
  import opened ExtRuns
  import opened ActiveBit
  import opened ActiveRuns
  import opened TagWords

  /** The first handle for a workspace is the only one. */
  lemma {:induction false} HandleFound(s: Server, hs: seq<Handle>, i: nat, from: nat)
    requires ValidHandles(s, hs) && from <= i < |hs|
    ensures FindHandle(hs, hs[i].w, from) == Some(i)
    decreases i - from
  {
    if from == i {
    } else {
      assert hs[from].w != hs[i].w;
      HandleFound(s, hs, i, from + 1);
    }
  }

  /** The active bit of a workspace is its tag's bit in its monitor. */
  ghost predicate BitRight(d: Desk, h: Handle) {
    && h.w in d.server.info && h.mon in d.monitors && ValidMonitor(d.monitors[h.mon])
    && 1 <= h.tag <= TAG_COUNT
    && (IsActive(d.server.info[h.w]) <==> h.tag - 1 in Selected(d.monitors[h.mon]))
  }

  lemma ActiveIsBit(d: Desk, i: nat)
    requires Good(d) && i < |d.handles|
    ensures BitRight(d, d.handles[i])
  {
    var h := d.handles[i];
    assert ActiveAt(d.server, h, ShownTags(d.monitors[h.mon]));
    ShownIsBit(d.monitors[h.mon], h.tag);
  }

  function Asked(w: WorkspaceId, activate: bool): Request {
    if activate then Activate(Some(w)) else Deactivate(Some(w))
  }

  /** The tags that a request for tag `tag` leaves on the selected monitor `m`. */
  function Answered(m: Monitor, tag: nat, activate: bool): (r: Monitor)
    requires ValidMonitor(m) && 1 <= tag <= TAG_COUNT
    ensures ValidMonitor(r)
  {
    var r := if activate then Viewed(m, TagBit(tag)) else Toggled(m, TagBit(tag));
    if r == None then m else r.value
  }

  lemma StoreMonitors(d: Desk, id: nat, r: Option<Monitor>, urgent: set<WorkspaceId>)
    requires Tidy(d) && id in d.monitors
    requires r.Some? ==> ValidMonitor(r.value) && r.value.group == d.monitors[id].group
    ensures Store(d, id, r, urgent).handles == d.handles
    ensures Store(d, id, r, urgent).monitors == if r == None then d.monitors else d.monitors[id := r.value]
  {
  }

  /** At most the selected monitor changes, whichever monitor the workspace belongs to. */
  ghost predicate MonitorsAfter(d: Desk, e: Desk, h: Handle, activate: bool) {
    if d.selmon == None then e.monitors == d.monitors
    else
      var id := d.selmon.value;
      && id in d.monitors && ValidMonitor(d.monitors[id]) && 1 <= h.tag <= TAG_COUNT
      && e.monitors == d.monitors[id := Answered(d.monitors[id], h.tag, activate)]
  }

  lemma ReactMonitors(d: Desk, i: nat, urgent: set<WorkspaceId>, activate: bool)
    requires Tidy(d) && i < |d.handles|
    ensures var e := React(d, Asked(d.handles[i].w, activate), urgent);
            e.handles == d.handles && MonitorsAfter(d, e, d.handles[i], activate)
  {
    HandleFound(d.server, d.handles, i, 0);
    if d.selmon.Some? {
      SelectedReacts(d, d.handles[i], urgent, activate);
    }
  }

  lemma SelectedReacts(d: Desk, h: Handle, urgent: set<WorkspaceId>, activate: bool)
    requires Tidy(d) && d.selmon.Some? && 1 <= h.tag <= TAG_COUNT
    ensures var e := if activate then ViewTags(d, TagBit(h.tag), urgent) else ToggleTags(d, TagBit(h.tag), urgent);
            e.handles == d.handles && MonitorsAfter(d, e, h, activate)
  {
    var id := d.selmon.value;
    var m := d.monitors[id];
    StoreMonitors(d, id, if activate then Viewed(m, TagBit(h.tag)) else Toggled(m, TagBit(h.tag)), urgent);
    assert d.monitors[id := m] == d.monitors;
  }

  /** Before and after the request the active bit is right. */
  lemma ReactRight(d: Desk, i: nat, urgent: set<WorkspaceId>, activate: bool) returns (e: Desk)
    requires Good(d) && i < |d.handles|
    ensures e == React(d, Asked(d.handles[i].w, activate), urgent)
    ensures BitRight(d, d.handles[i]) && BitRight(e, d.handles[i]) && MonitorsAfter(d, e, d.handles[i], activate)
  {
    ActiveIsBit(d, i);
    e := React(d, Asked(d.handles[i].w, activate), urgent);
    ReactMatches(d, Asked(d.handles[i].w, activate), urgent);
    ReactMonitors(d, i, urgent, activate);
    ActiveIsBit(e, i);
  }

  /** After the request, the active bit is the tag's bit in what the request leaves of the monitor. */
  lemma ReactBits(d: Desk, e: Desk, h: Handle, activate: bool)
    requires BitRight(d, h) && BitRight(e, h) && MonitorsAfter(d, e, h, activate)
    ensures IsActive(e.server.info[h.w]) <==>
            h.tag - 1 in Selected(if d.selmon == Some(h.mon) then Answered(d.monitors[h.mon], h.tag, activate)
                                  else d.monitors[h.mon])
  {
  }

  lemma ViewedBit(m: Monitor, tag: nat)
    requires ValidMonitor(m) && 1 <= tag <= TAG_COUNT
    ensures tag - 1 in Selected(Answered(m, tag, true))
  {
    assert And(TagBit(tag), TAG_MASK) == TagBit(tag) && tag - 1 in TagBit(tag);
  }

  lemma ToggledBit(m: Monitor, tag: nat)
    requires ValidMonitor(m) && 1 <= tag <= TAG_COUNT
    ensures tag - 1 in Selected(Answered(m, tag, false)) <==>
            tag - 1 !in Selected(m) || Selected(m) == TagBit(tag)
  {
    assert And(TagBit(tag), TAG_MASK) == TagBit(tag);
    var tags := Xor(Selected(m), TagBit(tag));
    if tags == {} {
      assert forall i :: i in Selected(m) <==> i in TagBit(tag) || i in tags;
    } else {
      assert tag - 1 in tags <==> tag - 1 !in Selected(m);
    }
  }

  lemma ActivateEffect(d: Desk, e: Desk, h: Handle)
    requires BitRight(d, h) && BitRight(e, h) && MonitorsAfter(d, e, h, true)
    ensures IsActive(e.server.info[h.w]) <==> d.selmon == Some(h.mon) || IsActive(d.server.info[h.w])
  {
    ReactBits(d, e, h, true);
    ViewedBit(d.monitors[h.mon], h.tag);
  }

  lemma DeactivateEffect(d: Desk, e: Desk, h: Handle)
    requires BitRight(d, h) && BitRight(e, h) && MonitorsAfter(d, e, h, false)
    ensures IsActive(e.server.info[h.w]) <==>
            if d.selmon == Some(h.mon)
            then !IsActive(d.server.info[h.w]) || Selected(d.monitors[h.mon]) == TagBit(h.tag)
            else IsActive(d.server.info[h.w])
  {
    ReactBits(d, e, h, false);
    ToggledBit(d.monitors[h.mon], h.tag);
  }

  /**
   * An activate request makes its workspace active if and only if the workspace belongs to the
   * selected monitor or was active before.
   */
  lemma ActivateWorks(d: Desk, i: nat, urgent: set<WorkspaceId>) returns (e: Desk)
    requires Good(d) && i < |d.handles|
    ensures e == React(d, Asked(d.handles[i].w, true), urgent)
    ensures var h := d.handles[i];
            && BitRight(d, h) && BitRight(e, h)
            && (IsActive(e.server.info[h.w]) <==> d.selmon == Some(h.mon) || IsActive(d.server.info[h.w]))
  {
    e := ReactRight(d, i, urgent, true);
    ActivateEffect(d, e, d.handles[i]);
  }

  /**
   * A deactivate request toggles: on the selected monitor the workspace is active afterwards if and
   * only if it was not before, or its tag is the only one in view; elsewhere nothing changes.
   */
  lemma DeactivateToggles(d: Desk, i: nat, urgent: set<WorkspaceId>) returns (e: Desk)
    requires Good(d) && i < |d.handles|
    ensures e == React(d, Asked(d.handles[i].w, false), urgent)
    ensures var h := d.handles[i];
            && BitRight(d, h) && BitRight(e, h)
            && (IsActive(e.server.info[h.w]) <==>
                if d.selmon == Some(h.mon)
                then !IsActive(d.server.info[h.w]) || Selected(d.monitors[h.mon]) == TagBit(h.tag)
                else IsActive(d.server.info[h.w]))
  {
    e := ReactRight(d, i, urgent, false);
    DeactivateEffect(d, e, d.handles[i]);
  }
}

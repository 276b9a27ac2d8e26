// What the compositor's own operations achieve: which tags a monitor shows afterwards, which
// workspaces exist, and what they are called, where they belong and what state they have.

module ActiveEffects {
  import opened Lists
  import opened ExtProtocol
  import opened ExtServer
  import opened ExtAgreement
  import opened ExtRuns
  import opened ExtEffects
  import opened ActiveBit
  import opened ActiveRuns
  import opened ActiveRequests
  import opened TagWords

  // ----- the tag sets of a monitor -------------------------------------------------------

  /** Bit `i` of a mask that is cut to the nine tags. */
  predicate Masked9(mask: Word, i: nat) {
    i in mask && i < 9
  }

  /**
   * `view`: nothing if the mask is in view already; else the other slot is selected, and holds the mask,
   * or what it held before if the mask is empty; the slot in view before keeps its content.
   */
  lemma ViewedEffect(m: Monitor, ui: Word)
    requires ValidMonitor(m)
    ensures Viewed(m, ui) == None <==> forall i: nat :: i in m.tagset[m.selected] <==> Masked9(ui, i)
    ensures var r := Viewed(m, ui);
            r.Some? ==>
              var n := r.value;
              && n.group == m.group && |n.tagset| == 2 && n.selected == 1 - m.selected
              && n.tagset[m.selected] == m.tagset[m.selected]
              && if exists i: nat :: Masked9(ui, i)
                 then forall i: nat :: i in n.tagset[n.selected] <==> Masked9(ui, i)
                 else n.tagset[n.selected] == m.tagset[n.selected]
  {
    var tags := And(ui, TAG_MASK);
    assert forall i: nat :: i in tags <==> Masked9(ui, i);
  }

  /** `toggleview`: every bit of the mask is flipped in the slot in view, unless nothing would be left. */
  lemma ToggledEffect(m: Monitor, ui: Word)
    requires ValidMonitor(m)
    ensures Toggled(m, ui) == None <==> forall i: nat :: i in m.tagset[m.selected] <==> Masked9(ui, i)
    ensures var r := Toggled(m, ui);
            r.Some? ==>
              var n := r.value;
              && n.group == m.group && |n.tagset| == 2 && n.selected == m.selected
              && n.tagset[1 - m.selected] == m.tagset[1 - m.selected]
              && forall i: nat ::
                   i in n.tagset[n.selected] <==> if Masked9(ui, i) then i !in m.tagset[m.selected]
                                                  else i in m.tagset[m.selected]
  {
    var cut := And(ui, TAG_MASK);
    assert forall i: nat :: i in cut <==> Masked9(ui, i);
    var tags := Xor(Selected(m), cut);
    if tags == {} {
      forall i: nat ensures i in m.tagset[m.selected] <==> Masked9(ui, i) {
        assert i !in tags;
      }
    } else {
      var i :| i in tags;
      assert !(i in m.tagset[m.selected] <==> Masked9(ui, i));
    }
  }

  /** `set_tags`: the slot changes exactly on request, the selected slot holds the mask, the other its old content. */
  lemma RetaggedEffect(m: Monitor, mask: Word, toggle: bool)
    requires ValidMonitor(m)
    ensures var n := Retagged(m, mask, toggle);
            && n.group == m.group && |n.tagset| == 2
            && n.selected == (if toggle then 1 - m.selected else m.selected)
            && (forall i: nat :: i in n.tagset[n.selected] <==> Masked9(mask, i))
            && n.tagset[1 - n.selected] == m.tagset[1 - n.selected]
  {
    assert forall i: nat :: i in And(mask, TAG_MASK) <==> Masked9(mask, i);
  }

  // ----- what a status leaves alone ------------------------------------------------------

  /** The servers differ in state words and in what clients have been sent only. */
  ghost predicate OnlyStates(s: Server, t: Server) {
    && t.groups == s.groups && t.caps == s.caps && t.workspaces == s.workspaces && t.next == s.next
    && t.retired == s.retired && t.info.Keys == s.info.Keys
    && (forall w | w in s.info :: t.info[w] == s.info[w].(state := t.info[w].state))
    && |t.managers| == |s.managers|
    && forall k | 0 <= k < |s.managers| ::
         && SameQueue(s.managers[k], t.managers[k])
         && t.managers[k].groups == s.managers[k].groups && t.managers[k].workspaces == s.managers[k].workspaces
  }

  lemma OneStateOnly(s: Server, t: Server, w: WorkspaceId, flag: Flag, enabled: bool)
    requires OnlyStates(s, t) && w in t.info
    ensures OnlyStates(s, SetState(t, w, flag, enabled))
  {
    var u := SetState(t, w, flag, enabled);
    forall k | 0 <= k < |s.managers|
      ensures && SameQueue(s.managers[k], u.managers[k])
              && u.managers[k].groups == s.managers[k].groups && u.managers[k].workspaces == s.managers[k].workspaces
    {
      assert SameQueue(s.managers[k], t.managers[k]);
    }
  }

  lemma OnlyStatesStable(s: Server)
    ensures Stable((t: Server) => OnlyStates(s, t))
  {
    forall t, w, flag, enabled | OnlyStates(s, t) && w in t.info
      ensures OnlyStates(s, SetState(t, w, flag, enabled))
    {
      OneStateOnly(s, t, w, flag, enabled);
    }
  }

  lemma StatusOnlyStates(d: Desk, urgent: set<WorkspaceId>)
    requires Printable(d)
    ensures OnlyStates(d.server, PrintStatus(d, urgent).server)
  {
    OnlyStatesStable(d.server);
    PrintAllKeeps((t: Server) => OnlyStates(d.server, t), d, urgent, |d.order|);
  }

  /** The words that a client which holds the workspace is sent, when it goes from `was` to `now`. */
  function WordIf(m: Manager, w: WorkspaceId, was: set<Flag>, now: set<Flag>): Log {
    if now != was && w in m.workspaces then [Sent(State(w, now))] else []
  }

  /** The word of `w` has gone to `now`, clients that hold it have been told if it is another, and no more. */
  ghost predicate WordStep(s: Server, t: Server, w: WorkspaceId, now: set<Flag>)
    requires w in s.info
  {
    && t.info == s.info[w := s.info[w].(state := now)] && t.workspaces == s.workspaces && t.groups == s.groups
    && t.caps == s.caps && (t.idle <==> s.idle || now != s.info[w].state) && |t.managers| == |s.managers|
    && forall k | 0 <= k < |s.managers| ::
         Got(s.managers[k], t.managers[k], WordIf(s.managers[k], w, s.info[w].state, now))
  }

  lemma SetterStep(s: Server, w: WorkspaceId, flag: Flag, enabled: bool)
    requires Tabled(s) && w in s.workspaces
    ensures WordStep(s, SetState(s, w, flag, enabled), w,
                     if enabled then s.info[w].state + {flag} else s.info[w].state - {flag})
  {
    SetStateEffect(s, w, flag, enabled);
    var t := SetState(s, w, flag, enabled);
    assert t.info[w].state == if enabled then s.info[w].state + {flag} else s.info[w].state - {flag};
  }

  lemma ThreeSteps(m: Manager, a: Manager, b: Manager, t: Manager, w: WorkspaceId, x: set<Flag>, y: set<Flag>,
                   z: set<Flag>, end: set<Flag>)
    requires Got(m, a, WordIf(m, w, x, y)) && Got(a, b, WordIf(a, w, y, z)) && Got(b, t, WordIf(b, w, z, end))
    ensures Got(m, t, WordIf(m, w, x, y) + WordIf(m, w, y, z) + WordIf(m, w, z, end))
  {
    var p, q, r := WordIf(m, w, x, y), WordIf(m, w, y, z), WordIf(m, w, z, end);
    assert ((m.log + p) + q) + r == m.log + (p + q + r);
  }

  /** The three setters for one workspace: urgent, then hidden, then active, each told only if the word changes. */
  lemma PrintHandleEffect(s: Server, w: WorkspaceId, urgent: bool, active: bool)
    requires Tabled(s) && w in s.workspaces
    ensures w in s.info
    ensures var t, x := PrintHandle(s, w, urgent, active), s.info[w].state;
            var y := if urgent then x + {Urgent} else x - {Urgent};
            var z := y - {Hidden};
            var end := if active then z + {Active} else z - {Active};
            && t.info == s.info[w := s.info[w].(state := end)] && |t.managers| == |s.managers|
            && forall k | 0 <= k < |s.managers| ::
                 var m := s.managers[k];
                 Got(m, t.managers[k], WordIf(m, w, x, y) + WordIf(m, w, y, z) + WordIf(m, w, z, end))
  {
    var a := SetState(s, w, Urgent, urgent);
    var b := SetState(a, w, Hidden, false);
    var t := SetState(b, w, Active, active);
    SetterStep(s, w, Urgent, urgent);
    SetterStep(a, w, Hidden, false);
    SetterStep(b, w, Active, active);
    var x, y, z, end := s.info[w].state, a.info[w].state, b.info[w].state, t.info[w].state;
    forall k | 0 <= k < |s.managers|
      ensures Got(s.managers[k], t.managers[k], WordIf(s.managers[k], w, x, y) + WordIf(s.managers[k], w, y, z)
                                                + WordIf(s.managers[k], w, z, end))
    {
      ThreeSteps(s.managers[k], a.managers[k], b.managers[k], t.managers[k], w, x, y, z, end);
    }
  }

  /** Every workspace has the word that its monitor's tags and the urgent set give it. */
  ghost predicate Shows(d: Desk, urgent: set<WorkspaceId>) {
    forall i | 0 <= i < |d.handles| ::
      var h := d.handles[i];
      && h.w in d.server.info && h.mon in d.monitors && ValidMonitor(d.monitors[h.mon])
      && forall f :: f in d.server.info[h.w].state <==>
           (f == Active && h.tag - 1 in d.monitors[h.mon].tagset[d.monitors[h.mon].selected])
           || (f == Urgent && h.w in urgent)
  }

  /** `printstatus`: every word is right, and nothing but words has changed. */
  lemma StatusEffect(d: Desk, urgent: set<WorkspaceId>)
    requires Tidy(d)
    ensures var e := PrintStatus(d, urgent);
            e == d.(server := e.server) && OnlyStates(d.server, e.server) && Shows(e, urgent)
  {
    StatusOnlyStates(d, urgent);
    var e := PrintStatus(d, urgent);
    forall i | 0 <= i < |e.handles|
      ensures var h := e.handles[i];
              && h.w in e.server.info && h.mon in e.monitors && ValidMonitor(e.monitors[h.mon])
              && forall f :: f in e.server.info[h.w].state <==>
                   (f == Active && h.tag - 1 in e.monitors[h.mon].tagset[e.monitors[h.mon].selected])
                   || (f == Urgent && h.w in urgent)
    {
      PrintedWord(d, urgent, i);
      ShownIsBit(d.monitors[d.handles[i].mon], d.handles[i].tag);
    }
  }

  // ----- the tag functions on the desk ---------------------------------------------------

  /** Monitor `id` has become `m`; the words have followed, and nothing else has changed. */
  ghost predicate Retagging(d: Desk, e: Desk, id: nat, m: Monitor, urgent: set<WorkspaceId>) {
    && e == d.(server := e.server, monitors := d.monitors[id := m])
    && OnlyStates(d.server, e.server) && Shows(e, urgent)
  }

  lemma StoreEffect(d: Desk, id: nat, m: Monitor, urgent: set<WorkspaceId>)
    requires Tidy(d) && id in d.monitors && ValidMonitor(m) && m.group == d.monitors[id].group
    ensures Retagging(d, Store(d, id, Some(m), urgent), id, m, urgent)
  {
    StatusEffect(WithMonitor(d, id, m), urgent);
  }

  /** `view` changes the selected monitor and no other, as `ViewedEffect` says, and updates the status. */
  lemma ViewEffect(d: Desk, ui: Word, urgent: set<WorkspaceId>)
    requires Tidy(d)
    ensures var e := ViewTags(d, ui, urgent);
            if d.selmon == None then e == d
            else
              var id := d.selmon.value;
              && id in d.monitors && ValidMonitor(d.monitors[id])
              && var r := Viewed(d.monitors[id], ui);
                 if r == None then e == d else Retagging(d, e, id, r.value, urgent)
  {
    if d.selmon.Some? {
      var r := Viewed(d.monitors[d.selmon.value], ui);
      if r.Some? {
        StoreEffect(d, d.selmon.value, r.value, urgent);
      }
    }
  }

  lemma ToggleViewEffect(d: Desk, ui: Word, urgent: set<WorkspaceId>)
    requires Tidy(d)
    ensures var e := ToggleTags(d, ui, urgent);
            if d.selmon == None then e == d
            else
              var id := d.selmon.value;
              && id in d.monitors && ValidMonitor(d.monitors[id])
              && var r := Toggled(d.monitors[id], ui);
                 if r == None then e == d else Retagging(d, e, id, r.value, urgent)
  {
    if d.selmon.Some? {
      var r := Toggled(d.monitors[d.selmon.value], ui);
      if r.Some? {
        StoreEffect(d, d.selmon.value, r.value, urgent);
      }
    }
  }

  lemma SetTagsEffect(d: Desk, id: nat, mask: Word, toggle: bool, urgent: set<WorkspaceId>)
    requires Tidy(d) && id in d.monitors
    ensures Retagging(d, SetTags(d, id, mask, toggle, urgent), id, Retagged(d.monitors[id], mask, toggle), urgent)
  {
    StoreEffect(d, id, Retagged(d.monitors[id], mask, toggle), urgent);
  }

  /** The selected monitor has become `r`; without one, or if it stays as it is, nothing has changed. */
  ghost predicate Answer(d: Desk, e: Desk, r: Option<Monitor>, urgent: set<WorkspaceId>) {
    if d.selmon == None || r == None then e == d else Retagging(d, e, d.selmon.value, r.value, urgent)
  }

  /** What the events of a run achieve that concern tags, selection and status. */
  lemma EventEffect(d: Desk, event: DeskEvent)
    requires Good(d) && Possible(d, event)
    ensures d.selmon.Some? ==> d.selmon.value in d.monitors && ValidMonitor(d.monitors[d.selmon.value])
    ensures var e := Process(d, event);
            match event
            case Select(id) => e.selmon == Some(id) && e == d.(selmon := e.selmon)
            case DoView(ui, urgent) =>
              Answer(d, e, if d.selmon.Some? then Viewed(d.monitors[d.selmon.value], ui) else None, urgent)
            case DoToggleView(ui, urgent) =>
              Answer(d, e, if d.selmon.Some? then Toggled(d.monitors[d.selmon.value], ui) else None, urgent)
            case DoSetTags(id, mask, toggle, urgent) =>
              Retagging(d, e, id, Retagged(d.monitors[id], mask, toggle), urgent)
            case Status(urgent) => e == d.(server := e.server) && OnlyStates(d.server, e.server) && Shows(e, urgent)
            case Client(step) => e == d.(server := Next(d.server, step))
            case _ => true
  {
    match event
    case DoView(ui, urgent) => ViewEffect(d, ui, urgent);
    case DoToggleView(ui, urgent) => ToggleViewEffect(d, ui, urgent);
    case DoSetTags(id, mask, toggle, urgent) => SetTagsEffect(d, id, mask, toggle, urgent);
    case Status(urgent) => StatusEffect(d, urgent);
    case _ =>
  }

  // ----- a whole commit ------------------------------------------------------------------

  /** The request refers to no workspace of a monitor, or asks for something the compositor ignores. */
  ghost predicate Ignored(d: Desk, r: Request) {
    match r
    case Activate(Some(w)) => forall i | 0 <= i < |d.handles| :: d.handles[i].w != w
    case Deactivate(Some(w)) => forall i | 0 <= i < |d.handles| :: d.handles[i].w != w
    case _ => true
  }

  lemma IgnoredReact(d: Desk, r: Request, urgent: set<WorkspaceId>)
    requires Tidy(d) && Ignored(d, r)
    ensures React(d, r, urgent) == d
  {
  }

  /** The requests are answered in order, each once: one more request is answered last. */
  lemma {:induction false} ReactInOrder(d: Desk, rs: seq<Request>, us: seq<set<WorkspaceId>>, r: Request,
                                        u: set<WorkspaceId>)
    requires Good(d) && |us| == |rs|
    ensures ReactAll(d, [], []) == d
    ensures ReactAll(d, rs + [r], us + [u]) == React(ReactAll(d, rs, us), r, u)
    decreases |rs|
  {
    if rs == [] {
      assert (rs + [r])[1..] == [] && (us + [u])[1..] == [];
    } else {
      ReactMatches(d, rs[0], us[0]);
      assert (rs + [r])[1..] == rs[1..] + [r] && (us + [u])[1..] == us[1..] + [u];
      ReactInOrder(React(d, rs[0], us[0]), rs[1..], us[1..], r, u);
    }
  }

  /** Requests that are ignored at the end of the queue change nothing. */
  lemma {:induction false} IgnoredTail(d: Desk, rs: seq<Request>, us: seq<set<WorkspaceId>>, n: nat)
    requires Good(d) && |us| == |rs| && n <= |rs|
    requires forall j | n <= j < |rs| :: Ignored(d, rs[j])
    ensures ReactAll(d, rs, us) == ReactAll(d, rs[..n], us[..n])
    decreases |rs|
  {
    if |rs| == n {
      assert rs[..n] == rs && us[..n] == us;
    } else {
      var k := |rs| - 1;
      assert rs == rs[..k] + [rs[k]] && us == us[..k] + [us[k]];
      ReactInOrder(d, rs[..k], us[..k], rs[k], us[k]);
      ReactAllSame(d, rs[..k], us[..k]);
      IgnoredReact(ReactAll(d, rs[..k], us[..k]), rs[k], us[k]);
      IgnoredTail(d, rs[..k], us[..k], n);
      assert rs[..k][..n] == rs[..n] && us[..k][..n] == us[..n];
    }
  }

  /** The desk after a commit: the reactions to the whole queue; then the queue is empty, and no table changes. */
  lemma CommitIsReactions(d: Desk, k: nat, us: seq<set<WorkspaceId>>)
    requires Good(d) && Possible(d, CommitRequests(k, us))
    ensures var r, e := ReactAll(d, d.server.managers[k].requests, us), Process(d, CommitRequests(k, us));
            && e == r.(server := e.server) && e.server.info == r.server.info && e.server.caps == r.server.caps
            && |e.server.managers| == |d.server.managers| && e.server.managers[k].requests == []
            && e.server.managers[k].delivered == d.server.managers[k].delivered + d.server.managers[k].requests
  {
    ReactAllQueues(d, d.server.managers[k].requests, us);
    var r := ReactAll(d, d.server.managers[k].requests, us);
    assert SameQueue(d.server.managers[k], r.server.managers[k]);
    CommitEffect(r.server, k);
  }

  /** The selected monitor shows the tag of handle `i` and no other, and its workspace is active. */
  ghost predicate OnlyTagShown(e: Desk, h: Handle)
    requires h.mon in e.monitors
  {
    && ValidMonitor(e.monitors[h.mon]) && h.w in e.server.info && Active in e.server.info[h.w].state
    && forall i: nat :: i in e.monitors[h.mon].tagset[e.monitors[h.mon].selected] <==> i == h.tag - 1
  }

  lemma NarrowedTo(d: Desk, e: Desk, h: Handle)
    requires d.selmon == Some(h.mon) && BitRight(e, h) && MonitorsAfter(d, e, h, true)
    ensures OnlyTagShown(e, h)
  {
    var m, ui := d.monitors[h.mon], TagBit(h.tag);
    ViewedEffect(m, ui);
    assert Masked9(ui, h.tag - 1) && forall j: nat :: Masked9(ui, j) <==> j == h.tag - 1;
    var n := Answered(m, h.tag, true);
    assert forall j: nat :: j in n.tagset[n.selected] <==> j == h.tag - 1;
  }

  lemma ActivateShows(d: Desk, i: nat, urgent: set<WorkspaceId>) returns (e: Desk)
    requires Good(d) && i < |d.handles| && d.selmon == Some(d.handles[i].mon)
    ensures e == React(d, Activate(Some(d.handles[i].w)), urgent)
    ensures d.handles[i].mon in e.monitors && OnlyTagShown(e, d.handles[i])
  {
    e := ReactRight(d, i, urgent, true);
    NarrowedTo(d, e, d.handles[i]);
  }

  lemma QueueEndsWith(d: Desk, rs: seq<Request>, us: seq<set<WorkspaceId>>, n: nat) returns (before: Desk)
    requires Good(d) && |us| == |rs| && n < |rs| && forall j | n < j < |rs| :: Ignored(d, rs[j])
    ensures before == ReactAll(d, rs[..n], us[..n]) && Good(before)
    ensures before.handles == d.handles && before.selmon == d.selmon && before.monitors.Keys == d.monitors.Keys
    ensures ReactAll(d, rs, us) == React(before, rs[n], us[n])
  {
    before := ReactAll(d, rs[..n], us[..n]);
    IgnoredTail(d, rs, us, n + 1);
    assert rs[..n + 1] == rs[..n] + [rs[n]] && us[..n + 1] == us[..n] + [us[n]];
    ReactInOrder(d, rs[..n], us[..n], rs[n], us[n]);
    ReactAllSame(d, rs[..n], us[..n]);
  }

  /**
   * A commit whose last request that is not ignored is number `n` has the effect of that one request on
   * the desk that the queue before it leaves.
   */
  lemma CommitEndsWith(d: Desk, k: nat, us: seq<set<WorkspaceId>>, n: nat) returns (before: Desk)
    requires Good(d) && Possible(d, CommitRequests(k, us)) && n < |us|
    requires forall j | n < j < |us| :: Ignored(d, d.server.managers[k].requests[j])
    ensures before == ReactAll(d, d.server.managers[k].requests[..n], us[..n]) && Good(before)
    ensures before.handles == d.handles && before.selmon == d.selmon && before.monitors.Keys == d.monitors.Keys
    ensures var e := Process(d, CommitRequests(k, us));
            var r := React(before, d.server.managers[k].requests[n], us[n]);
            e.monitors == r.monitors && e.handles == r.handles && e.server.info == r.server.info
  {
    before := QueueEndsWith(d, d.server.managers[k].requests, us, n);
    CommitIsReactions(d, k, us);
  }

  /**
   * If that last request activates a workspace of the selected monitor, then after the commit the monitor
   * shows its tag and no other, and the workspace is active.
   */
  lemma CommitActivates(d: Desk, k: nat, us: seq<set<WorkspaceId>>, n: nat, i: nat) returns (e: Desk)
    requires Good(d) && Possible(d, CommitRequests(k, us)) && n < |us| && i < |d.handles|
    requires d.selmon == Some(d.handles[i].mon)
    requires d.server.managers[k].requests[n] == Activate(Some(d.handles[i].w))
    requires forall j | n < j < |us| :: Ignored(d, d.server.managers[k].requests[j])
    ensures e == Process(d, CommitRequests(k, us))
    ensures d.handles[i].mon in e.monitors && OnlyTagShown(e, d.handles[i])
  {
    var before := CommitEndsWith(d, k, us, n);
    var r := ActivateShows(before, i, us[n]);
    e := Process(d, CommitRequests(k, us));
  }

  /**
   * If it deactivates a workspace, the commit toggles: on the selected monitor the workspace is active
   * afterwards if and only if the queue before left it inactive, or left its tag alone in view; on another
   * monitor it is as the queue before left it.
   */
  lemma CommitDeactivates(d: Desk, k: nat, us: seq<set<WorkspaceId>>, n: nat, i: nat)
    returns (before: Desk, e: Desk)
    requires Good(d) && Possible(d, CommitRequests(k, us)) && n < |us| && i < |d.handles|
    requires d.server.managers[k].requests[n] == Deactivate(Some(d.handles[i].w))
    requires forall j | n < j < |us| :: Ignored(d, d.server.managers[k].requests[j])
    ensures before == ReactAll(d, d.server.managers[k].requests[..n], us[..n])
    ensures e == Process(d, CommitRequests(k, us))
    ensures ToggledBy(before, e, d.handles[i])
  {
    before := CommitEndsWith(d, k, us, n);
    var r := DeactivateToggles(before, i, us[n]);
    e := Process(d, CommitRequests(k, us));
    SameToggled(before, r, e, d.handles[i]);
  }

  /** What a deactivate of the handle's workspace does, on the selected monitor or on another. */
  ghost predicate ToggledBy(d: Desk, e: Desk, h: Handle) {
    && BitRight(d, h) && BitRight(e, h)
    && (Active in e.server.info[h.w].state <==>
        if d.selmon == Some(h.mon)
        then Active !in d.server.info[h.w].state
             || d.monitors[h.mon].tagset[d.monitors[h.mon].selected] == {h.tag - 1}
        else Active in d.server.info[h.w].state)
  }

  lemma SameToggled(d: Desk, r: Desk, e: Desk, h: Handle)
    requires BitRight(d, h) && BitRight(r, h) && e.monitors == r.monitors && e.server.info == r.server.info
    requires IsActive(r.server.info[h.w]) <==>
             if d.selmon == Some(h.mon)
             then !IsActive(d.server.info[h.w]) || Selected(d.monitors[h.mon]) == TagBit(h.tag)
             else IsActive(d.server.info[h.w])
    ensures ToggledBy(d, e, h)
  {
  }
}

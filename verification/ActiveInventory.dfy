// The inventory of workspaces and groups: after every run the server holds exactly the workspaces and
// groups of the monitors there are, each with its id, name, group and capabilities.

module ActiveInventory {
  import opened Lists
  import opened ExtProtocol
  import opened ExtServer
  import opened ExtAgreement
  import opened ExtRuns
  import opened ActiveBit
  import opened ActiveRuns
  import opened ActiveEffects
  import opened TagWords

  /** The workspace of a handle has its tag's digit as id and name, and is in its monitor's group. */
  ghost predicate Fits(s: Server, h: Handle, ms: map<nat, Monitor>) {
    && h.w in s.info && h.mon in ms && 1 <= h.tag <= 9
    && var x, digit := s.info[h.w], ['0' + (h.tag as char)];
       x.id == Some(digit) && x.name == Some(digit) && x.caps == 3 && x.group == Some(ms[h.mon].group)
  }

  /** The server's tables are exactly what the monitors and handles account for. */
  ghost predicate Whole(d: Desk) {
    && (forall i | 0 <= i < |d.handles| :: Fits(d.server, d.handles[i], d.monitors))
    && (forall w | w in d.server.info :: exists i :: 0 <= i < |d.handles| && d.handles[i].w == w)
    && GroupsOf(d.server.caps, d.monitors)
  }

  lemma TagNameIs(tag: nat)
    requires 1 <= tag <= TAG_COUNT
    ensures TagName(tag) == ['0' + (tag as char)]
  {
  }

  // ----- changes of words and tags -------------------------------------------------------

  /** Monitors keep their groups. */
  ghost predicate SameGroups(ms: map<nat, Monitor>, ns: map<nat, Monitor>) {
    ns.Keys == ms.Keys && forall id | id in ms :: ns[id].group == ms[id].group
  }

  lemma OnlyStatesWhole(d: Desk, e: Desk)
    requires Whole(d) && OnlyStates(d.server, e.server) && e.handles == d.handles
    requires SameGroups(d.monitors, e.monitors)
    ensures Whole(e)
  {
    forall i | 0 <= i < |e.handles| ensures Fits(e.server, e.handles[i], e.monitors) {
      assert Fits(d.server, d.handles[i], d.monitors);
    }
    GroupsStay(d.server.caps, d.monitors, e.monitors);
  }

  lemma GroupsStay(caps: map<GroupId, nat>, ms: map<nat, Monitor>, ns: map<nat, Monitor>)
    requires GroupsOf(caps, ms) && SameGroups(ms, ns)
    ensures GroupsOf(caps, ns)
  {
    forall g | g in caps ensures exists id :: id in ns && ns[id].group == g {
      var id :| id in ms && ms[id].group == g;
      assert id in ns && ns[id].group == g;
    }
  }

  lemma RetaggingWhole(d: Desk, e: Desk, id: nat, m: Monitor, urgent: set<WorkspaceId>)
    requires Whole(d) && id in d.monitors && m.group == d.monitors[id].group && Retagging(d, e, id, m, urgent)
    ensures Whole(e)
  {
    OnlyStatesWhole(d, e);
  }

  lemma ViewWhole(d: Desk, ui: Word, urgent: set<WorkspaceId>)
    requires Tidy(d) && Whole(d)
    ensures Whole(ViewTags(d, ui, urgent))
  {
    ViewEffect(d, ui, urgent);
    if d.selmon.Some? {
      var r := Viewed(d.monitors[d.selmon.value], ui);
      if r.Some? {
        RetaggingWhole(d, ViewTags(d, ui, urgent), d.selmon.value, r.value, urgent);
      }
    }
  }

  lemma ToggleViewWhole(d: Desk, ui: Word, urgent: set<WorkspaceId>)
    requires Tidy(d) && Whole(d)
    ensures Whole(ToggleTags(d, ui, urgent))
  {
    ToggleViewEffect(d, ui, urgent);
    if d.selmon.Some? {
      var r := Toggled(d.monitors[d.selmon.value], ui);
      if r.Some? {
        RetaggingWhole(d, ToggleTags(d, ui, urgent), d.selmon.value, r.value, urgent);
      }
    }
  }

  lemma SetTagsWhole(d: Desk, id: nat, mask: Word, toggle: bool, urgent: set<WorkspaceId>)
    requires Tidy(d) && Whole(d) && id in d.monitors
    ensures Whole(SetTags(d, id, mask, toggle, urgent))
  {
    SetTagsEffect(d, id, mask, toggle, urgent);
    RetaggingWhole(d, SetTags(d, id, mask, toggle, urgent), id, Retagged(d.monitors[id], mask, toggle), urgent);
  }

  lemma StatusWhole(d: Desk, urgent: set<WorkspaceId>)
    requires Tidy(d) && Whole(d)
    ensures Whole(PrintStatus(d, urgent))
  {
    StatusEffect(d, urgent);
    OnlyStatesWhole(d, PrintStatus(d, urgent));
  }

  lemma ReactAllWhole(d: Desk, rs: seq<Request>, us: seq<set<WorkspaceId>>)
    requires Good(d) && |us| == |rs| && Whole(d)
    ensures Whole(ReactAll(d, rs, us))
  {
    OnlyStatesStable(d.server);
    ReactAllKeeps((t: Server) => OnlyStates(d.server, t), d, rs, us);
    ReactAllSame(d, rs, us);
    OnlyStatesWhole(d, ReactAll(d, rs, us));
  }

  /** The server changes neither a workspace nor a group. */
  lemma ServerWhole(d: Desk, e: Desk)
    requires Whole(d) && e.server.info == d.server.info && e.server.caps == d.server.caps
    requires e.handles == d.handles && e.monitors == d.monitors
    ensures Whole(e)
  {
    forall i | 0 <= i < |e.handles| ensures Fits(e.server, e.handles[i], e.monitors) {
      assert Fits(d.server, d.handles[i], d.monitors);
    }
  }

  // ----- a new monitor -------------------------------------------------------------------

  /** `ext_workspace_create`: one workspace more, with its id, name, capabilities and group. */
  lemma CreateTagEffect(s: Server, tag: nat, g: GroupId)
    requires 1 <= tag <= TAG_COUNT
    ensures var t, digit := CreateTag(s, tag, g), ['0' + (tag as char)];
            && t.info == s.info[s.next := Workspace(Some(digit), 3, Some(digit), Some(g), {})]
            && t.caps == s.caps && t.groups == s.groups && t.next == s.next + 1
            && t.workspaces == s.workspaces + [s.next]
  {
    TagNameIs(tag);
  }

  /** Part of the way through `ext_workspace_createmon`: every workspace has a handle that fits. */
  ghost predicate Accounted(s: Server, hs: seq<Handle>, ms: map<nat, Monitor>) {
    && IdsBelow(s)
    && (forall i | 0 <= i < |hs| :: Fits(s, hs[i], ms))
    && (forall w | w in s.info :: exists i :: 0 <= i < |hs| && hs[i].w == w)
  }

  lemma AccountedNext(s: Server, hs: seq<Handle>, ms: map<nat, Monitor>, tag: nat, id: nat, g: GroupId)
    requires Accounted(s, hs, ms) && 1 <= tag <= TAG_COUNT && id in ms && ms[id].group == g
    ensures Accounted(CreateTag(s, tag, g), hs + [Handle(tag, id, s.next)], ms)
  {
    CreateTagEffect(s, tag, g);
    var t, ks := CreateTag(s, tag, g), hs + [Handle(tag, id, s.next)];
    forall i | 0 <= i < |ks| ensures Fits(t, ks[i], ms) {
      if i < |hs| {
        assert Fits(s, hs[i], ms) && hs[i].w != s.next;
      }
    }
    forall w | w in t.info ensures exists i :: 0 <= i < |ks| && ks[i].w == w {
      if w == s.next {
        assert ks[|hs|].w == w;
      } else {
        var i :| 0 <= i < |hs| && hs[i].w == w;
        assert ks[i].w == w;
      }
    }
  }

  /** The groups are exactly those of the monitors. */
  ghost predicate GroupsOf(caps: map<GroupId, nat>, ms: map<nat, Monitor>) {
    && (forall g | g in caps :: caps[g] == 0 && exists id :: id in ms && ms[id].group == g)
    && forall id | id in ms :: ms[id].group in caps
  }

  lemma OneGroupMore(caps: map<GroupId, nat>, ms: map<nat, Monitor>, id: nat, m: Monitor)
    requires GroupsOf(caps, ms) && id !in ms
    ensures GroupsOf(caps[m.group := 0], ms[id := m])
  {
    var cs, ns := caps[m.group := 0], ms[id := m];
    forall g | g in cs ensures exists j :: j in ns && ns[j].group == g {
      if g == m.group {
        assert id in ns && ns[id].group == g;
      } else {
        var j :| j in ms && ms[j].group == g;
        assert j in ns && ns[j].group == g;
      }
    }
  }

  lemma AccountedTags(s: Server, hs: seq<Handle>, ms: map<nat, Monitor>, id: nat, g: GroupId)
    requires Accounted(s, hs, ms) && id in ms && ms[id].group == g
    ensures var (t, ks) := CreateTags(s, hs, id, g, TAG_COUNT); Accounted(t, ks, ms)
  {
    forall t, ks, tag | Accounted(t, ks, ms) && 1 <= tag <= TAG_COUNT
      ensures Accounted(CreateTag(t, tag, g), ks + [Handle(tag, id, t.next)], ms)
    {
      AccountedNext(t, ks, ms, tag, id, g);
    }
    CreateTagsKeep((t: Server, ks: seq<Handle>) => Accounted(t, ks, ms), s, hs, id, g, TAG_COUNT);
  }

  lemma GroupAccounted(d: Desk, ms: map<nat, Monitor>)
    requires Whole(d) && IdsBelow(d.server) && forall id | id in d.monitors :: id in ms && ms[id] == d.monitors[id]
    ensures Accounted(CreateGroup(d.server, 0), d.handles, ms)
  {
    forall i | 0 <= i < |d.handles| ensures Fits(CreateGroup(d.server, 0), d.handles[i], ms) {
      assert Fits(d.server, d.handles[i], d.monitors);
    }
  }

  lemma AddMonitorWhole(d: Desk)
    requires Consistent(d) && Whole(d)
    ensures Whole(AddMonitor(d))
  {
    var id, m := d.nextMon, Monitor([Bit(0), Bit(0)], 0, d.server.next);
    var ms := d.monitors[id := m];
    GroupAccounted(d, ms);
    AccountedTags(CreateGroup(d.server, 0), d.handles, ms, id, d.server.next);
    OneGroupMore(d.server.caps, d.monitors, id, m);
    var e := AddMonitor(d);
    assert Accounted(e.server, e.handles, ms) && e.monitors == ms && GroupsOf(e.server.caps, ms);
  }

  /**
   * A monitor is plugged in: it is first in the list, both its slots show tag 1, and it gets a new group
   * and one workspace per tag, in order, at the end of the list; every word is right.
   */
  lemma PlugEffect(d: Desk, urgent: set<WorkspaceId>) returns (e: Desk)
    requires Good(d)
    ensures e == Process(d, Plug(urgent))
    ensures e.order == [d.nextMon] + d.order && e.nextMon == d.nextMon + 1 && e.selmon == d.selmon
    ensures e.monitors == d.monitors[d.nextMon := Monitor([{0}, {0}], 0, d.server.next)]
    ensures NineMore(d, e) && Shows(e, urgent)
  {
    e := CreateMonitor(d, urgent);
    AddMonitorGood(d);
    StatusEffect(AddMonitor(d), urgent);
    AddMonitorHandles(d);
    assert e.handles == AddMonitor(d).handles;
  }

  /** Handles for the tags of the new monitor, in order, after the old ones. */
  ghost predicate NineMore(d: Desk, e: Desk) {
    && |e.handles| == |d.handles| + 9 && e.handles[..|d.handles|] == d.handles
    && forall i | |d.handles| <= i < |e.handles| ::
         var t := i - |d.handles| + 1; e.handles[i] == Handle(t, d.nextMon, d.server.next + t)
  }

  lemma AddMonitorHandles(d: Desk)
    ensures NineMore(d, AddMonitor(d))
  {
    CreateTagsList(CreateGroup(d.server, 0), d.handles, d.nextMon, d.server.next, TAG_COUNT);
  }

  // ----- a monitor goes ------------------------------------------------------------------

  ghost predicate Belongs(hs: seq<Handle>, id: nat, w: WorkspaceId) {
    exists i :: 0 <= i < |hs| && hs[i].mon == id && hs[i].w == w
  }

  lemma {:induction false} DestroyTagsEffect(s: Server, hs: seq<Handle>, id: nat)
    requires ValidHandles(s, hs)
    ensures var t := DestroyTags(s, hs, id);
            && t.caps == s.caps
            && (forall w :: w in t.info <==> w in s.info && !Belongs(hs, id, w))
            && (forall w | w in t.info :: t.info[w] == s.info[w])
    decreases |hs|
  {
    if hs == [] {
    } else {
      TailHandles(s, hs);
      assert forall i | 0 <= i < |hs[1..]| :: hs[1..][i] == hs[i + 1];
      BelongsHead(hs, id);
      if hs[0].mon == id {
        DestroyOne(s, hs);
        DestroyTagsEffect(DestroyWorkspace(s, hs[0].w), hs[1..], id);
        assert DestroyWorkspace(s, hs[0].w).info == s.info - {hs[0].w};
      } else {
        DestroyTagsEffect(s, hs[1..], id);
      }
    }
  }

  lemma BelongsHead(hs: seq<Handle>, id: nat)
    requires hs != []
    ensures forall w :: Belongs(hs, id, w) <==> (hs[0].mon == id && hs[0].w == w) || Belongs(hs[1..], id, w)
  {
    forall w ensures Belongs(hs, id, w) <==> (hs[0].mon == id && hs[0].w == w) || Belongs(hs[1..], id, w) {
      if i :| 0 <= i < |hs| && hs[i].mon == id && hs[i].w == w {
        assert i > 0 ==> hs[1..][i - 1] == hs[i];
      }
      if i :| 0 <= i < |hs[1..]| && hs[1..][i].mon == id && hs[1..][i].w == w {
        assert hs[i + 1] == hs[1..][i];
      }
    }
  }

  /** A group that no workspace is in goes without changing a workspace. */
  lemma EmptyGroupGoes(s: Server, g: GroupId)
    requires Sound(s) && forall w | w in s.info :: s.info[w].group != Some(g)
    ensures DestroyGroup(s, g).info == s.info && DestroyGroup(s, g).caps == s.caps - {g}
  {
    var P := (t: Server) => t.info == s.info;
    NothingVacated(s, g, |s.workspaces|);
  }

  lemma {:induction false} NothingVacated(s: Server, g: GroupId, n: nat)
    requires Sound(s) && n <= |s.workspaces| && forall w | w in s.info :: s.info[w].group != Some(g)
    ensures Vacate(s, g, n) == s
  {
    if n == 0 {
    } else {
      NothingVacated(s, g, n - 1);
      assert s.workspaces[n - 1] in s.workspaces;
    }
  }

  /**
   * A monitor is unplugged: its workspaces and its group are gone, and so are its handles; the other
   * monitors' workspaces are as they were, up to their words, and the words are right.
   */
  lemma UnplugEffect(d: Desk, id: nat, selmon: Option<nat>, urgent: set<WorkspaceId>) returns (e: Desk)
    requires Good(d) && Whole(d) && Possible(d, Unplug(id, selmon, urgent))
    ensures e == Process(d, Unplug(id, selmon, urgent))
    ensures e.monitors == d.monitors - {id} && e.selmon == selmon && e.nextMon == d.nextMon
    ensures e.order == Without(d.order, id)
    ensures forall h :: h in e.handles <==> h in d.handles && h.mon != id
    ensures e.server.caps == d.server.caps - {d.monitors[id].group}
    ensures forall w :: w in e.server.info <==> w in d.server.info && !Belongs(d.handles, id, w)
    ensures forall w | w in e.server.info ::
              e.server.info[w] == d.server.info[w].(state := e.server.info[w].state)
  {
    e := RemoveMonitor(d, id, selmon, urgent);
    UnlistedServer(d, id, selmon, urgent);
    StatusOnlyStates(Unlisted(d, id, selmon), urgent);
    var u := PrintStatus(Unlisted(d, id, selmon), urgent).server;
    var v := DestroyTags(u, d.handles, id);
    DestroyTagsEffect(u, d.handles, id);
    DestroyTagsInv(u, d.handles, id);
    OthersAre(d.handles, id);
    forall w | w in v.info ensures v.info[w].group != Some(d.monitors[id].group) {
      OtherGroup(d, id, w);
    }
    EmptyGroupGoes(v, d.monitors[id].group);
  }

  /** A workspace that does not belong to the monitor is not in its group. */
  lemma OtherGroup(d: Desk, id: nat, w: WorkspaceId)
    requires Tidy(d) && Whole(d) && id in d.monitors && w in d.server.info && !Belongs(d.handles, id, w)
    ensures d.server.info[w].group != Some(d.monitors[id].group)
  {
    var i :| 0 <= i < |d.handles| && d.handles[i].w == w;
    assert Fits(d.server, d.handles[i], d.monitors);
  }

  lemma UnplugWhole(d: Desk, id: nat, selmon: Option<nat>, urgent: set<WorkspaceId>)
    requires Good(d) && Whole(d) && Possible(d, Unplug(id, selmon, urgent))
    ensures Whole(Process(d, Unplug(id, selmon, urgent)))
  {
    var e := UnplugEffect(d, id, selmon, urgent);
    RemovedWhole(d, e, id);
  }

  lemma RemovedWhole(d: Desk, e: Desk, id: nat)
    requires Tidy(d) && Whole(d) && id in d.monitors
    requires e.monitors == d.monitors - {id} && e.server.caps == d.server.caps - {d.monitors[id].group}
    requires forall h :: h in e.handles <==> h in d.handles && h.mon != id
    requires forall w :: w in e.server.info <==> w in d.server.info && !Belongs(d.handles, id, w)
    requires forall w | w in e.server.info :: e.server.info[w] == d.server.info[w].(state := e.server.info[w].state)
    ensures Whole(e)
  {
    forall i | 0 <= i < |e.handles| ensures Fits(e.server, e.handles[i], e.monitors) {
      assert e.handles[i] in e.handles;
      RemovedFits(d, e, id, e.handles[i]);
    }
    forall w | w in e.server.info ensures exists i :: 0 <= i < |e.handles| && e.handles[i].w == w {
      RemovedHandle(d, e, id, w);
    }
    RemovedGroups(d.server.caps, d.monitors, id);
  }

  lemma RemovedHandle(d: Desk, e: Desk, id: nat, w: WorkspaceId)
    requires forall h :: h in e.handles <==> h in d.handles && h.mon != id
    requires (exists i :: 0 <= i < |d.handles| && d.handles[i].w == w) && !Belongs(d.handles, id, w)
    ensures exists i :: 0 <= i < |e.handles| && e.handles[i].w == w
  {
    var k :| 0 <= k < |d.handles| && d.handles[k].w == w;
    assert d.handles[k] in d.handles && d.handles[k].mon != id;
    assert d.handles[k] in e.handles;
  }

  lemma RemovedFits(d: Desk, e: Desk, id: nat, h: Handle)
    requires Whole(d) && e.monitors == d.monitors - {id} && h in d.handles && h.mon != id
    requires h.w in e.server.info && e.server.info[h.w] == d.server.info[h.w].(state := e.server.info[h.w].state)
    ensures Fits(e.server, h, e.monitors)
  {
    var k :| 0 <= k < |d.handles| && d.handles[k] == h;
    assert Fits(d.server, d.handles[k], d.monitors);
  }

  lemma RemovedGroups(caps: map<GroupId, nat>, ms: map<nat, Monitor>, id: nat)
    requires GroupsOf(caps, ms) && id in ms
    requires forall i, j | i in ms && j in ms && ms[i].group == ms[j].group :: i == j
    ensures GroupsOf(caps - {ms[id].group}, ms - {id})
  {
    var ns := ms - {id};
    forall g | g in caps - {ms[id].group} ensures exists j :: j in ns && ns[j].group == g {
      var j :| j in ms && ms[j].group == g;
      assert j in ns && ns[j].group == g;
    }
  }

  // ----- runs ----------------------------------------------------------------------------

  lemma CommitWhole(d: Desk, k: nat, us: seq<set<WorkspaceId>>)
    requires Good(d) && Whole(d) && Possible(d, CommitRequests(k, us))
    ensures Whole(Process(d, CommitRequests(k, us)))
  {
    ReactAllWhole(d, d.server.managers[k].requests, us);
    CommitIsReactions(d, k, us);
    ServerWhole(ReactAll(d, d.server.managers[k].requests, us), Process(d, CommitRequests(k, us)));
  }

  lemma ProcessWhole(d: Desk, e: DeskEvent)
    requires Good(d) && Possible(d, e) && Whole(d)
    ensures Whole(Process(d, e))
  {
    match e
    case Client(step) =>
      ClientKeepsTables(d.server, step);
      ServerWhole(d, Process(d, e));
    case Plug(urgent) =>
      AddMonitorWhole(d);
      AddMonitorGood(d);
      StatusWhole(AddMonitor(d), urgent);
    case Unplug(id, selmon, urgent) => UnplugWhole(d, id, selmon, urgent);
    case Select(id) => ServerWhole(d, Process(d, e));
    case DoView(ui, urgent) => ViewWhole(d, ui, urgent);
    case DoToggleView(ui, urgent) => ToggleViewWhole(d, ui, urgent);
    case DoSetTags(id, mask, toggle, urgent) => SetTagsWhole(d, id, mask, toggle, urgent);
    case CommitRequests(k, us) => CommitWhole(d, k, us);
    case Status(urgent) => StatusWhole(d, urgent);
  }

  /** After every run the server holds exactly the workspaces and groups that the monitors account for. */
  lemma {:induction false} RunWhole(es: seq<DeskEvent>)
    ensures Whole(AfterRun(es))
  {
    if es == [] {
    } else {
      var d, e := AfterRun(es[..|es| - 1]), es[|es| - 1];
      RunWhole(es[..|es| - 1]);
      RunGood(es[..|es| - 1]);
      if Possible(d, e) {
        ProcessWhole(d, e);
      }
    }
  }
}

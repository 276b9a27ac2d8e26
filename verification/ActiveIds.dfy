// The ids of workspaces. `ext_workspace_create` passes the tag's name as id on every monitor, so the
// protocol's rule that ids are unique holds exactly while there is at most one monitor.

module ActiveIds {
  import opened Lists
  import opened ExtProtocol
  import opened ExtServer
  import opened ExtAgreement
  import opened ExtRuns
  import opened ActiveBit
  import opened ActiveRuns
  import opened TagWords

  /** Every workspace has the name of its tag as id. */
  ghost predicate Named(s: Server, hs: seq<Handle>) {
    forall i | 0 <= i < |hs| ::
      hs[i].w in s.info && 1 <= hs[i].tag <= TAG_COUNT && s.info[hs[i].w].id == Some(TagName(hs[i].tag))
  }

  /** Every workspace of `s` still exists, with its id. */
  ghost predicate KeepsIds(s: Server, t: Server) {
    forall w | w in s.info :: w in t.info && t.info[w].id == s.info[w].id
  }

  lemma KeepsNamed(s: Server, t: Server, hs: seq<Handle>)
    requires Named(s, hs) && KeepsIds(s, t)
    ensures Named(t, hs)
  {
  }

  lemma KeepsIdsStable(s: Server)
    ensures Stable((t: Server) => KeepsIds(s, t))
  {
    forall t, w, flag, enabled | KeepsIds(s, t) && w in t.info ensures KeepsIds(s, SetState(t, w, flag, enabled)) {
    }
  }

  lemma KeepsIdsMovable(s: Server)
    ensures Movable((t: Server) => KeepsIds(s, t))
  {
    forall t, w | KeepsIds(s, t) && w in t.info ensures KeepsIds(s, SetGroup(t, w, None)) {
    }
  }

  /** The status changes no id. */
  lemma PrintNamed(d: Desk, urgent: set<WorkspaceId>)
    requires Printable(d) && Named(d.server, d.handles)
    ensures Named(PrintStatus(d, urgent).server, d.handles)
  {
    KeepsIdsStable(d.server);
    PrintAllKeeps((t: Server) => KeepsIds(d.server, t), d, urgent, |d.order|);
    KeepsNamed(d.server, PrintStatus(d, urgent).server, d.handles);
  }

  // ----- monitors come and go ------------------------------------------------------------

  lemma CreateTagNamed(s: Server, hs: seq<Handle>, tag: nat, id: nat, g: GroupId)
    requires Named(s, hs) && IdsBelow(s) && 1 <= tag <= TAG_COUNT
    ensures Named(CreateTag(s, tag, g), hs + [Handle(tag, id, s.next)]) && IdsBelow(CreateTag(s, tag, g))
  {
    var t := CreateTag(s, tag, g);
    assert t.info[s.next].id == Some(TagName(tag));
    forall i | 0 <= i < |hs| ensures hs[i].w in t.info && t.info[hs[i].w].id == Some(TagName(hs[i].tag)) {
      assert hs[i].w != s.next;
    }
  }

  lemma CreateTagsNamed(s: Server, hs: seq<Handle>, id: nat, g: GroupId)
    requires Named(s, hs) && IdsBelow(s)
    ensures var (t, ks) := CreateTags(s, hs, id, g, TAG_COUNT); Named(t, ks)
  {
    var P := (t: Server, ks: seq<Handle>) => Named(t, ks) && IdsBelow(t);
    forall t, ks, tag | P(t, ks) && 1 <= tag <= TAG_COUNT
      ensures P(CreateTag(t, tag, g), ks + [Handle(tag, id, t.next)])
    {
      CreateTagNamed(t, ks, tag, id, g);
    }
    CreateTagsKeep(P, s, hs, id, g, TAG_COUNT);
  }

  lemma PlugNamed(d: Desk, urgent: set<WorkspaceId>)
    requires Consistent(d) && Named(d.server, d.handles)
    ensures var e := CreateMonitor(d, urgent); Named(e.server, e.handles)
  {
    var s := CreateGroup(d.server, 0);
    CreateTagsNamed(s, d.handles, d.nextMon, d.server.next);
    AddMonitorGood(d);
    PrintNamed(AddMonitor(d), urgent);
  }

  lemma UnplugNamed(d: Desk, id: nat, selmon: Option<nat>, urgent: set<WorkspaceId>)
    requires Consistent(d) && id in d.monitors && Named(d.server, d.handles)
    ensures var e := RemoveMonitor(d, id, selmon, urgent); Named(e.server, e.handles)
  {
    UnlistedServer(d, id, selmon, urgent);
    PrintNamed(Unlisted(d, id, selmon), urgent);
    RemoveMonitorServer(d, id, selmon, urgent);
    var u := PrintStatus(Unlisted(d, id, selmon), urgent).server;
    var v := DestroyTags(u, d.handles, id);
    var e := RemoveMonitor(d, id, selmon, urgent);
    DestroyTagsInv(u, d.handles, id);
    KeepsIdsMovable(v);
    VacateKeeps((t: Server) => KeepsIds(v, t), v, d.monitors[id].group, |v.workspaces|);
    OthersAre(d.handles, id);
    forall i | 0 <= i < |e.handles|
      ensures var h := e.handles[i];
              h.w in e.server.info && 1 <= h.tag <= TAG_COUNT && e.server.info[h.w].id == Some(TagName(h.tag))
    {
      var h := e.handles[i];
      assert h in Others(d.handles, id);
      var k :| 0 <= k < |d.handles| && d.handles[k] == h;
      SameHandle(d, h, id);
      DestroyTagsKeeps(u, d.handles, id, h.w);
    }
  }

  // ----- runs ----------------------------------------------------------------------------

  lemma StoreNamed(d: Desk, id: nat, r: Option<Monitor>, urgent: set<WorkspaceId>)
    requires Tidy(d) && id in d.monitors && Named(d.server, d.handles)
    requires r.Some? ==> ValidMonitor(r.value) && r.value.group == d.monitors[id].group
    ensures Named(Store(d, id, r, urgent).server, d.handles)
  {
    KeepsIdsStable(d.server);
    StoreKeeps((t: Server) => KeepsIds(d.server, t), d, id, r, urgent);
    KeepsNamed(d.server, Store(d, id, r, urgent).server, d.handles);
  }

  lemma TagsNamed(d: Desk, ui: Word, urgent: set<WorkspaceId>)
    requires Tidy(d) && Named(d.server, d.handles)
    ensures Named(ViewTags(d, ui, urgent).server, d.handles) && Named(ToggleTags(d, ui, urgent).server, d.handles)
  {
    KeepsIdsStable(d.server);
    ViewKeeps((t: Server) => KeepsIds(d.server, t), d, ui, urgent);
    KeepsNamed(d.server, ViewTags(d, ui, urgent).server, d.handles);
    KeepsNamed(d.server, ToggleTags(d, ui, urgent).server, d.handles);
  }

  lemma CommitNamed(d: Desk, rs: seq<Request>, urgents: seq<set<WorkspaceId>>)
    requires Good(d) && |urgents| == |rs| && Named(d.server, d.handles)
    ensures var e := ReactAll(d, rs, urgents); e.handles == d.handles && Named(e.server, e.handles)
  {
    KeepsIdsStable(d.server);
    ReactAllKeeps((t: Server) => KeepsIds(d.server, t), d, rs, urgents);
    ReactAllSame(d, rs, urgents);
    KeepsNamed(d.server, ReactAll(d, rs, urgents).server, d.handles);
  }

  lemma CommitAllNamed(d: Desk, k: nat, urgents: seq<set<WorkspaceId>>)
    requires Good(d) && Possible(d, CommitRequests(k, urgents)) && Named(d.server, d.handles)
    ensures var e := Process(d, CommitRequests(k, urgents)); Named(e.server, e.handles)
  {
    var r := ReactAll(d, d.server.managers[k].requests, urgents);
    CommitNamed(d, d.server.managers[k].requests, urgents);
    ReactAllQueues(d, d.server.managers[k].requests, urgents);
    ClientKeepsTables(r.server, DoCommit(k));
  }

  lemma ProcessNamed(d: Desk, e: DeskEvent)
    requires Good(d) && Possible(d, e) && Named(d.server, d.handles)
    ensures Named(Process(d, e).server, Process(d, e).handles)
  {
    match e
    case Client(step) => ClientKeepsTables(d.server, step);
    case Plug(urgent) => PlugNamed(d, urgent);
    case Unplug(id, selmon, urgent) => UnplugNamed(d, id, selmon, urgent);
    case Select(id) =>
    case DoView(ui, urgent) => TagsNamed(d, ui, urgent);
    case DoToggleView(ui, urgent) => TagsNamed(d, ui, urgent);
    case DoSetTags(id, mask, toggle, urgent) =>
      StoreNamed(d, id, Some(Retagged(d.monitors[id], mask, toggle)), urgent);
    case CommitRequests(k, urgents) => CommitAllNamed(d, k, urgents);
    case Status(urgent) => PrintNamed(d, urgent);
  }

  lemma {:induction false} RunNamed(es: seq<DeskEvent>)
    ensures Named(AfterRun(es).server, AfterRun(es).handles)
  {
    if es == [] {
    } else {
      var d, e := AfterRun(es[..|es| - 1]), es[|es| - 1];
      RunNamed(es[..|es| - 1]);
      RunGood(es[..|es| - 1]);
      if Possible(d, e) {
        ProcessNamed(d, e);
      }
    }
  }

  // ----- when ids are unique -------------------------------------------------------------

  /** No two workspaces of the compositor have the same id. */
  ghost predicate DistinctIds(d: Desk)
    requires Named(d.server, d.handles)
  {
    forall i, j | 0 <= i < |d.handles| && 0 <= j < |d.handles| &&
                  d.server.info[d.handles[i].w].id == d.server.info[d.handles[j].w].id :: i == j
  }

  lemma TagNamesDiffer(a: nat, b: nat)
    requires 1 <= a <= TAG_COUNT && 1 <= b <= TAG_COUNT && TagName(a) == TagName(b)
    ensures a == b
  {
    assert TagName(a)[0] == TagName(b)[0];
  }

  /** Two monitors: both have a workspace for tag 1. */
  lemma TwoMonitorsClash(d: Desk, a: nat, b: nat)
    requires Good(d) && OneWorkspaceEach(d) && Named(d.server, d.handles)
    requires a in d.monitors && b in d.monitors && a != b
    ensures exists i, j :: 0 <= i < |d.handles| && 0 <= j < |d.handles| && i != j && d.handles[i].w != d.handles[j].w
              && d.server.info[d.handles[i].w].id == d.server.info[d.handles[j].w].id == Some(TagName(1))
  {
    assert HasTag(d.handles, a, 1) && HasTag(d.handles, b, 1);
    var i :| 0 <= i < |d.handles| && d.handles[i].mon == a && d.handles[i].tag == 1;
    var j :| 0 <= j < |d.handles| && d.handles[j].mon == b && d.handles[j].tag == 1;
    assert i != j && d.handles[i].w != d.handles[j].w;
  }

  lemma OneMonitorDistinct(d: Desk)
    requires Good(d) && OneWorkspaceEach(d) && Named(d.server, d.handles)
    requires forall a, b | a in d.monitors && b in d.monitors :: a == b
    ensures DistinctIds(d)
  {
    forall i, j | 0 <= i < |d.handles| && 0 <= j < |d.handles| &&
                  d.server.info[d.handles[i].w].id == d.server.info[d.handles[j].w].id ensures i == j
    {
      TagNamesDiffer(d.handles[i].tag, d.handles[j].tag);
      assert d.handles[i].mon in d.monitors && d.handles[j].mon in d.monitors;
    }
  }

  lemma IdsOfDesk(d: Desk)
    requires Good(d) && OneWorkspaceEach(d) && Named(d.server, d.handles)
    ensures DistinctIds(d) <==> forall a, b | a in d.monitors && b in d.monitors :: a == b
  {
    if forall a, b | a in d.monitors && b in d.monitors :: a == b {
      OneMonitorDistinct(d);
    } else {
      var a, b :| a in d.monitors && b in d.monitors && a != b;
      TwoMonitorsClash(d, a, b);
    }
  }

  /** After any run the ids of the workspaces are pairwise distinct if and only if there is at most one monitor. */
  lemma IdsUniqueIff(es: seq<DeskEvent>)
    ensures Named(AfterRun(es).server, AfterRun(es).handles)
    ensures var d := AfterRun(es);
            DistinctIds(d) <==> forall a, b | a in d.monitors && b in d.monitors :: a == b
  {
    RunNamed(es);
    RunGood(es);
    IdsOfDesk(AfterRun(es));
  }

  /** A client that holds a handle for every workspace of two monitors sees the rule about ids broken. */
  lemma ClashIsSeen(es: seq<DeskEvent>, k: nat, a: nat, b: nat)
    requires k < |AfterRun(es).server.managers|
    requires a in AfterRun(es).monitors && b in AfterRun(es).monitors && a != b
    requires forall h | h in AfterRun(es).handles :: h.w in AfterRun(es).server.managers[k].workspaces
    ensures !UniqueIds(Fold(AfterRun(es).server.managers[k].log))
  {
    var d := AfterRun(es);
    RunNamed(es);
    RunGood(es);
    TwoMonitorsClash(d, a, b);
    var i, j :| 0 <= i < |d.handles| && 0 <= j < |d.handles| && i != j && d.handles[i].w != d.handles[j].w
      && d.server.info[d.handles[i].w].id == d.server.info[d.handles[j].w].id == Some(TagName(1));
    var m := d.server.managers[k];
    assert InSync(d.server, m) && d.handles[i] in d.handles && d.handles[j] in d.handles;
    assert Fold(m.log).workspaces[d.handles[i].w] == SeenNow(d.server.info[d.handles[i].w]);
    assert Fold(m.log).workspaces[d.handles[j].w] == SeenNow(d.server.info[d.handles[j].w]);
  }

  lemma RunStep(es: seq<DeskEvent>, e: DeskEvent)
    ensures AfterRun(es + [e]) == PerformEvent(AfterRun(es), e)
  {
    assert (es + [e])[..|es|] == es;
  }

  lemma PerformPlug(d: Desk, urgent: set<WorkspaceId>)
    requires Good(d)
    ensures var e := PerformEvent(d, Plug(urgent));
            e.monitors.Keys == d.monitors.Keys + {d.nextMon} && e.nextMon == d.nextMon + 1
  {
  }

  /** A monitor that is plugged in at the end of a run gets the next number. */
  lemma PlugAtEnd(es: seq<DeskEvent>, d: Desk, urgent: set<WorkspaceId>) returns (e: Desk)
    requires d == AfterRun(es)
    ensures e == AfterRun(es + [Plug(urgent)])
    ensures e.monitors.Keys == d.monitors.Keys + {d.nextMon} && e.nextMon == d.nextMon + 1
  {
    RunGood(es);
    RunStep(es, Plug(urgent));
    PerformPlug(d, urgent);
    e := PerformEvent(d, Plug(urgent));
  }

  lemma ClashAfter(es: seq<DeskEvent>, d: Desk, a: nat, b: nat)
    requires d == AfterRun(es) && a in d.monitors && b in d.monitors && a != b
    ensures Named(d.server, d.handles) && !DistinctIds(d)
  {
    RunNamed(es);
    RunGood(es);
    TwoMonitorsClash(d, a, b);
  }

  /** Two monitors plugged in one after the other, at the end of any run, the empty one included. */
  lemma TwoPlugs(es: seq<DeskEvent>, urgent: set<WorkspaceId>, urgent': set<WorkspaceId>) returns (d: Desk)
    ensures d == AfterRun(es + [Plug(urgent)] + [Plug(urgent')])
    ensures Named(d.server, d.handles) && !DistinctIds(d)
  {
    var start := AfterRun(es);
    var one := PlugAtEnd(es, start, urgent);
    d := PlugAtEnd(es + [Plug(urgent)], one, urgent');
    ClashAfter(es + [Plug(urgent)] + [Plug(urgent')], d, start.nextMon, one.nextMon);
  }
}

// Monitors coming and going, client steps, and runs of the whole desk.

module ActiveRuns {
  import opened Lists
  import opened ExtProtocol
  import opened ExtServer
  import opened ExtAgreement
  import opened ExtRuns
  import opened ActiveBit
  import opened TagWords

  /** `tag_name`, for the tags that exist. */
  function TagName(tag: nat): string
    requires 1 <= tag <= TAG_COUNT
  {
    ["123456789"[tag - 1]]
  }

  // ----- a new monitor -------------------------------------------------------------------

  /** `ext_workspace_create` on the server. */
  function CreateTag(s: Server, tag: nat, g: GroupId): (t: Server)
    requires 1 <= tag <= TAG_COUNT
    ensures t.next == s.next + 1 && t.caps == s.caps
    ensures t.info.Keys == s.info.Keys + {s.next}
  {
    var w := s.next;
    var a := CreateWorkspace(s, Some(TagName(tag)), WORKSPACE_CAPS);
    SetName(SetGroup(a, w, Some(g)), w, TagName(tag))
  }

  lemma CreateTagInv(s: Server, tag: nat, g: GroupId)
    requires Inv(s) && 1 <= tag <= TAG_COUNT && g in s.caps
    ensures Inv(CreateTag(s, tag, g))
  {
    var w := s.next;
    var a := CreateWorkspace(s, Some(TagName(tag)), WORKSPACE_CAPS);
    CreateWorkspaceInv(s, Some(TagName(tag)), WORKSPACE_CAPS);
    SetGroupInv(a, w, Some(g));
    SetNameInv(SetGroup(a, w, Some(g)), w, TagName(tag));
  }

  /** The loop of `ext_workspace_createmon`, over the first `n` tags. */
  ghost function CreateTags(s: Server, hs: seq<Handle>, id: nat, g: GroupId, n: nat): (r: (Server, seq<Handle>))
    requires n <= TAG_COUNT
    ensures r.0.caps == s.caps && r.0.next == s.next + n
  {
    if n == 0 then (s, hs)
    else
      var (t, ks) := CreateTags(s, hs, id, g, n - 1);
      (CreateTag(t, n, g), ks + [Handle(n, id, t.next)])
  }

  /** `P` survives the workspace of one more tag of monitor `id`. */
  ghost predicate Extendable(P: (Server, seq<Handle>) -> bool, id: nat, g: GroupId) {
    forall s, hs, tag | P(s, hs) && 1 <= tag <= TAG_COUNT :: P(CreateTag(s, tag, g), hs + [Handle(tag, id, s.next)])
  }

  /** What survives each tag survives the loop. */
  lemma {:induction false} CreateTagsKeep(P: (Server, seq<Handle>) -> bool, s: Server, hs: seq<Handle>, id: nat,
                                          g: GroupId, n: nat)
    requires Extendable(P, id, g) && P(s, hs) && n <= TAG_COUNT
    ensures var (t, ks) := CreateTags(s, hs, id, g, n); P(t, ks)
  {
    if n == 0 {
    } else {
      CreateTagsKeep(P, s, hs, id, g, n - 1);
    }
  }

  lemma CreateTagsInv(s: Server, hs: seq<Handle>, id: nat, g: GroupId)
    requires Inv(s) && g in s.caps
    ensures Inv(CreateTags(s, hs, id, g, TAG_COUNT).0)
  {
    var P := (t: Server, ks: seq<Handle>) => Inv(t) && g in t.caps;
    forall t, ks, tag | P(t, ks) && 1 <= tag <= TAG_COUNT
      ensures P(CreateTag(t, tag, g), ks + [Handle(tag, id, t.next)])
    {
      CreateTagInv(t, tag, g);
    }
    CreateTagsKeep(P, s, hs, id, g, TAG_COUNT);
  }

  ghost predicate IdsBelow(s: Server) {
    forall w | w in s.info :: w < s.next
  }

  /** A new workspace has a new id, so its handle can be appended. */
  lemma AppendHandle(s: Server, t: Server, hs: seq<Handle>, h: Handle)
    requires ValidHandles(s, hs) && IdsBelow(s) && h.w == s.next && 1 <= h.tag <= TAG_COUNT
    requires t.info.Keys == s.info.Keys + {s.next} && t.next == s.next + 1
    ensures ValidHandles(t, hs + [h]) && IdsBelow(t)
  {
    forall i | 0 <= i < |hs| ensures hs[i].w < s.next && hs[i].w in t.info {
    }
  }

  lemma CreateTagsHandles(s: Server, hs: seq<Handle>, id: nat, g: GroupId)
    requires ValidHandles(s, hs) && IdsBelow(s)
    ensures var (t, ks) := CreateTags(s, hs, id, g, TAG_COUNT); ValidHandles(t, ks)
  {
    var P := (t: Server, ks: seq<Handle>) => ValidHandles(t, ks) && IdsBelow(t);
    forall t, ks, tag | P(t, ks) && 1 <= tag <= TAG_COUNT
      ensures P(CreateTag(t, tag, g), ks + [Handle(tag, id, t.next)])
    {
      AppendHandle(t, CreateTag(t, tag, g), ks, Handle(tag, id, t.next));
    }
    CreateTagsKeep(P, s, hs, id, g, TAG_COUNT);
  }

  /** The old handles stay, and there is one new handle per tag, in order. */
  lemma {:induction false} CreateTagsList(s: Server, hs: seq<Handle>, id: nat, g: GroupId, n: nat)
    requires n <= TAG_COUNT
    ensures var ks := CreateTags(s, hs, id, g, n).1;
            && |ks| == |hs| + n && ks[..|hs|] == hs
            && forall i | |hs| <= i < |ks| :: ks[i] == Handle(i - |hs| + 1, id, s.next + (i - |hs|))
  {
    if n == 0 {
    } else {
      CreateTagsList(s, hs, id, g, n - 1);
      var (t, ks) := CreateTags(s, hs, id, g, n - 1);
      var ks' := ks + [Handle(n, id, t.next)];
      assert CreateTags(s, hs, id, g, n).1 == ks';
      assert ks'[..|hs|] == ks[..|hs|];
      assert forall i | |hs| <= i < |ks'| :: ks'[i] == if i < |ks| then ks[i] else Handle(n, id, t.next);
    }
  }

  /** A monitor appears (`createmon`): tag 1 in both slots, a group, nine workspaces, then the status. */
  ghost function CreateMonitor(d: Desk, urgent: set<WorkspaceId>): (e: Desk)
    requires Consistent(d)
    ensures e.monitors.Keys == d.monitors.Keys + {d.nextMon} && e.nextMon == d.nextMon + 1
  {
    AddMonitorGood(d);
    PrintStatus(AddMonitor(d), urgent)
  }

  ghost function AddMonitor(d: Desk): Desk {
    var id, g := d.nextMon, d.server.next;
    var (t, hs) := CreateTags(CreateGroup(d.server, 0), d.handles, id, g, TAG_COUNT);
    d.(server := t, handles := hs, order := [id] + d.order, nextMon := id + 1,
       monitors := d.monitors[id := Monitor([Bit(0), Bit(0)], 0, g)])
  }

  lemma AddMonitorServer(d: Desk)
    requires Inv(d.server) && ValidHandles(d.server, d.handles)
    ensures var (t, hs) := CreateTags(CreateGroup(d.server, 0), d.handles, d.nextMon, d.server.next, TAG_COUNT);
            && Inv(t) && ValidHandles(t, hs) && t.caps == d.server.caps[d.server.next := 0]
            && |hs| >= |d.handles| && hs[..|d.handles|] == d.handles
            && forall i | |d.handles| <= i < |hs| :: hs[i].mon == d.nextMon
  {
    var s := CreateGroup(d.server, 0);
    CreateGroupInv(d.server, 0);
    CreateTagsInv(s, d.handles, d.nextMon, d.server.next);
    CreateTagsHandles(s, d.handles, d.nextMon, d.server.next);
    CreateTagsList(s, d.handles, d.nextMon, d.server.next, TAG_COUNT);
  }

  lemma AddMonitorConsistent(d: Desk, t: Server, hs: seq<Handle>)
    requires Consistent(d) && Inv(t) && ValidHandles(t, hs)
    requires t.caps == d.server.caps[d.server.next := 0]
    requires |hs| >= |d.handles| && hs[..|d.handles|] == d.handles
    requires forall i | |d.handles| <= i < |hs| :: hs[i].mon == d.nextMon
    ensures Consistent(d.(server := t, handles := hs, order := [d.nextMon] + d.order, nextMon := d.nextMon + 1,
                          monitors := d.monitors[d.nextMon := Monitor([Bit(0), Bit(0)], 0, d.server.next)]))
  {
    var id := d.nextMon;
    var order := [id] + d.order;
    forall i, j | 0 <= i < |order| && 0 <= j < |order| && order[i] == order[j] ensures i == j {
      assert i > 0 ==> order[i] == d.order[i - 1] && d.order[i - 1] in d.order;
      assert j > 0 ==> order[j] == d.order[j - 1] && d.order[j - 1] in d.order;
    }
    assert forall i | 0 <= i < |d.handles| :: hs[i] == hs[..|d.handles|][i] == d.handles[i];
  }

  lemma AddMonitorGood(d: Desk)
    requires Consistent(d)
    ensures Consistent(AddMonitor(d))
  {
    var (t, hs) := CreateTags(CreateGroup(d.server, 0), d.handles, d.nextMon, d.server.next, TAG_COUNT);
    AddMonitorServer(d);
    AddMonitorConsistent(d, t, hs);
  }

  lemma CreateMonitorMatches(d: Desk, urgent: set<WorkspaceId>)
    requires Consistent(d)
    ensures Consistent(CreateMonitor(d, urgent)) && ActiveMatches(CreateMonitor(d, urgent))
  {
    AddMonitorGood(d);
    PrintStatusMatches(AddMonitor(d), urgent);
  }

  // ----- a monitor goes ------------------------------------------------------------------

  /** The loop of `ext_workspace_cleanupmon`: destroys the workspaces of monitor `id`. */
  ghost function DestroyTags(s: Server, hs: seq<Handle>, id: nat): (t: Server)
    requires ValidHandles(s, hs)
    ensures t.caps == s.caps
    decreases |hs|
  {
    if hs == [] then s
    else if hs[0].mon == id then
      DestroyOne(s, hs);
      DestroyTags(DestroyWorkspace(s, hs[0].w), hs[1..], id)
    else
      TailHandles(s, hs);
      DestroyTags(s, hs[1..], id)
  }

  lemma TailHandles(s: Server, hs: seq<Handle>)
    requires ValidHandles(s, hs) && hs != []
    ensures ValidHandles(s, hs[1..]) && forall i | 0 <= i < |hs[1..]| :: hs[1..][i].w != hs[0].w
  {
    assert forall i | 0 <= i < |hs[1..]| :: hs[1..][i] == hs[i + 1];
  }

  lemma DestroyOne(s: Server, hs: seq<Handle>)
    requires ValidHandles(s, hs) && hs != []
    ensures var t := DestroyWorkspace(s, hs[0].w);
            && ValidHandles(t, hs[1..]) && t.caps == s.caps
            && forall w | w in s.info && w != hs[0].w ::
                 w in t.info && t.info[w].state == s.info[w].state && t.info[w].id == s.info[w].id
  {
    TailHandles(s, hs);
  }

  function Others(hs: seq<Handle>, id: nat): seq<Handle> {
    if hs == [] then []
    else if hs[0].mon == id then Others(hs[1..], id)
    else [hs[0]] + Others(hs[1..], id)
  }

  lemma {:induction false} DestroyTagsInv(s: Server, hs: seq<Handle>, id: nat)
    requires Inv(s) && ValidHandles(s, hs)
    ensures Inv(DestroyTags(s, hs, id))
    decreases |hs|
  {
    if hs == [] {
    } else {
      if hs[0].mon == id {
        DestroyOne(s, hs);
        DestroyWorkspaceInv(s, hs[0].w);
        DestroyTagsInv(DestroyWorkspace(s, hs[0].w), hs[1..], id);
      } else {
        TailHandles(s, hs);
        DestroyTagsInv(s, hs[1..], id);
      }
    }
  }

  /** Only the workspaces of the monitor's own handles go; every other keeps its state and its id. */
  lemma {:induction false} DestroyTagsKeeps(s: Server, hs: seq<Handle>, id: nat, w: WorkspaceId)
    requires ValidHandles(s, hs) && w in s.info
    requires forall i | 0 <= i < |hs| && hs[i].mon == id :: hs[i].w != w
    ensures var t := DestroyTags(s, hs, id);
            w in t.info && t.info[w].state == s.info[w].state && t.info[w].id == s.info[w].id
    decreases |hs|
  {
    if hs == [] {
    } else {
      TailHandles(s, hs);
      assert forall i | 0 <= i < |hs[1..]| :: hs[1..][i] == hs[i + 1];
      if hs[0].mon == id {
        DestroyOne(s, hs);
        DestroyTagsKeeps(DestroyWorkspace(s, hs[0].w), hs[1..], id, w);
      } else {
        DestroyTagsKeeps(s, hs[1..], id, w);
      }
    }
  }

  lemma {:induction false} OthersAre(hs: seq<Handle>, id: nat)
    ensures forall h :: h in Others(hs, id) <==> h in hs && h.mon != id
  {
    if hs == [] {
    } else {
      OthersAre(hs[1..], id);
    }
  }

  lemma {:induction false} OthersDistinct(s: Server, hs: seq<Handle>, id: nat)
    requires ValidHandles(s, hs)
    ensures ValidHandles(s, Others(hs, id))
    decreases |hs|
  {
    if hs == [] {
    } else {
      TailHandles(s, hs);
      OthersDistinct(s, hs[1..], id);
      OthersAre(hs[1..], id);
      var rest := Others(hs[1..], id);
      forall i | 0 <= i < |rest| ensures rest[i].w != hs[0].w {
        assert rest[i] in rest;
        var j :| 0 <= j < |hs[1..]| && hs[1..][j] == rest[i];
      }
      ConsHandles(s, hs[0], rest);
    }
  }

  lemma ConsHandles(s: Server, h: Handle, rest: seq<Handle>)
    requires ValidHandles(s, rest) && h.w in s.info && 1 <= h.tag <= TAG_COUNT
    requires forall i | 0 <= i < |rest| :: rest[i].w != h.w
    ensures ValidHandles(s, [h] + rest)
  {
  }

  /** The monitor is off the list, but its workspaces still exist: the status printed in between. */
  ghost function Unlisted(d: Desk, id: nat, selmon: Option<nat>): Desk {
    d.(order := Without(d.order, id), monitors := d.monitors - {id}, selmon := selmon)
  }

  lemma UnlistedPrintable(d: Desk, id: nat, selmon: Option<nat>)
    requires Tidy(d)
    ensures Printable(Unlisted(d, id, selmon))
  {
    WithoutDistinct(d.order, id);
  }

  /** `cleanupmon`: off the list, status, then the workspaces and the group are destroyed. */
  ghost function RemoveMonitor(d: Desk, id: nat, selmon: Option<nat>, urgent: set<WorkspaceId>): Desk
    requires Consistent(d) && id in d.monitors
  {
    UnlistedPrintable(d, id, selmon);
    var u := PrintStatus(Unlisted(d, id, selmon), urgent);
    PrintAllInv(Unlisted(d, id, selmon), urgent);
    DestroyTagsInv(u.server, d.handles, id);
    u.(server := DestroyGroup(DestroyTags(u.server, d.handles, id), d.monitors[id].group),
       handles := Others(d.handles, id))
  }

  /** The server after the status that `closemon` prints. */
  lemma UnlistedServer(d: Desk, id: nat, selmon: Option<nat>, urgent: set<WorkspaceId>)
    requires Consistent(d)
    ensures Printable(Unlisted(d, id, selmon))
    ensures var u := PrintStatus(Unlisted(d, id, selmon), urgent).server;
            Inv(u) && u.caps == d.server.caps && u.info.Keys == d.server.info.Keys && ValidHandles(u, d.handles)
  {
    var x := Unlisted(d, id, selmon);
    UnlistedPrintable(d, id, selmon);
    PrintAllInv(x, urgent);
    PrintAllWords(x, urgent, |x.order|);
    SameKeysHandles(d.server, PrintStatus(x, urgent).server, d.handles);
  }

  lemma RemoveMonitorServer(d: Desk, id: nat, selmon: Option<nat>, urgent: set<WorkspaceId>)
    requires Consistent(d) && id in d.monitors
    ensures Printable(Unlisted(d, id, selmon))
    ensures Inv(RemoveMonitor(d, id, selmon, urgent).server)
    ensures RemoveMonitor(d, id, selmon, urgent).server.caps == d.server.caps - {d.monitors[id].group}
  {
    UnlistedServer(d, id, selmon, urgent);
    var u := PrintStatus(Unlisted(d, id, selmon), urgent).server;
    DestroyTagsInv(u, d.handles, id);
    DestroyGroupInv(DestroyTags(u, d.handles, id), d.monitors[id].group);
  }

  /** The same workspaces exist, with the same state words. */
  ghost predicate SameStates(s: Server, t: Server) {
    t.info.Keys == s.info.Keys && forall w | w in s.info :: t.info[w].state == s.info[w].state
  }

  /** Destroying a group changes no state word. */
  lemma DestroyGroupStates(s: Server, g: GroupId)
    requires Tabled(s)
    ensures DestroyGroup(s, g).info.Keys == s.info.Keys
    ensures forall w | w in s.info :: DestroyGroup(s, g).info[w].state == s.info[w].state
  {
    var P := (t: Server) => SameStates(s, t);
    assert Movable(P);
    VacateKeeps(P, s, g, |s.workspaces|);
  }

  /** Every other monitor's workspace keeps the state that the last status gave it. */
  lemma RemoveMonitorStates(d: Desk, id: nat, selmon: Option<nat>, urgent: set<WorkspaceId>, h: Handle)
    requires Consistent(d) && id in d.monitors && h in d.handles && h.mon != id
    ensures Printable(Unlisted(d, id, selmon))
    ensures var u := PrintStatus(Unlisted(d, id, selmon), urgent).server;
            var e := RemoveMonitor(d, id, selmon, urgent).server;
            h.w in u.info && h.w in e.info && e.info[h.w].state == u.info[h.w].state
  {
    UnlistedServer(d, id, selmon, urgent);
    var u := PrintStatus(Unlisted(d, id, selmon), urgent).server;
    SameHandle(d, h, id);
    DestroyTagsInv(u, d.handles, id);
    DestroyTagsKeeps(u, d.handles, id, h.w);
    DestroyGroupStates(DestroyTags(u, d.handles, id), d.monitors[id].group);
  }

  /** No handle of monitor `id` shares its workspace with a handle of another monitor. */
  lemma SameHandle(d: Desk, h: Handle, id: nat)
    requires ValidHandles(d.server, d.handles) && h in d.handles && h.mon != id
    ensures h.w in d.server.info && forall i | 0 <= i < |d.handles| && d.handles[i].mon == id :: d.handles[i].w != h.w
  {
  }

  /** The handles that are left belong to other monitors and have their workspaces still. */
  lemma RemoveMonitorHandles(d: Desk, id: nat, selmon: Option<nat>, urgent: set<WorkspaceId>)
    requires Consistent(d) && id in d.monitors
    ensures var e := RemoveMonitor(d, id, selmon, urgent);
            && ValidHandles(e.server, e.handles)
            && forall i | 0 <= i < |e.handles| :: e.handles[i].mon in e.monitors
  {
    OthersAre(d.handles, id);
    OthersDistinct(d.server, d.handles, id);
    var e := RemoveMonitor(d, id, selmon, urgent);
    forall i | 0 <= i < |e.handles|
      ensures e.handles[i].w in e.server.info && 1 <= e.handles[i].tag <= TAG_COUNT && e.handles[i].mon in e.monitors
    {
      assert e.handles[i] in Others(d.handles, id);
      RemoveMonitorStates(d, id, selmon, urgent, e.handles[i]);
    }
  }

  lemma RemoveMonitorConsistent(d: Desk, id: nat, selmon: Option<nat>, urgent: set<WorkspaceId>)
    requires Consistent(d) && id in d.monitors
    requires selmon.Some? ==> selmon.value in d.monitors && selmon.value != id
    ensures Consistent(RemoveMonitor(d, id, selmon, urgent))
  {
    RemoveMonitorServer(d, id, selmon, urgent);
    RemoveMonitorHandles(d, id, selmon, urgent);
    RemovedTidy(d, RemoveMonitor(d, id, selmon, urgent), id, selmon);
  }

  /** What is left of tidy lists when a monitor, its group and its workspaces are taken out. */
  lemma RemovedTidy(d: Desk, e: Desk, id: nat, selmon: Option<nat>)
    requires Tidy(d) && id in d.monitors
    requires selmon.Some? ==> selmon.value in d.monitors && selmon.value != id
    requires e.order == Without(d.order, id) && e.monitors == d.monitors - {id} && e.selmon == selmon
    requires e.nextMon == d.nextMon && e.server.caps == d.server.caps - {d.monitors[id].group}
    requires ValidHandles(e.server, e.handles) && forall i | 0 <= i < |e.handles| :: e.handles[i].mon in e.monitors
    ensures Tidy(e)
  {
    WithoutDistinct(d.order, id);
  }

  lemma RemoveMonitorMatches(d: Desk, id: nat, selmon: Option<nat>, urgent: set<WorkspaceId>)
    requires Consistent(d) && id in d.monitors
    requires selmon.Some? ==> selmon.value in d.monitors && selmon.value != id
    ensures Consistent(RemoveMonitor(d, id, selmon, urgent)) && ActiveMatches(RemoveMonitor(d, id, selmon, urgent))
  {
    RemoveMonitorConsistent(d, id, selmon, urgent);
    RemoveMonitorServer(d, id, selmon, urgent);
    OthersAre(d.handles, id);
    var x := Unlisted(d, id, selmon);
    PrintAllWords(x, urgent, |x.order|);
    var e := RemoveMonitor(d, id, selmon, urgent);
    forall i | 0 <= i < |e.handles| ensures ActiveAt(e.server, e.handles[i], ShownTags(e.monitors[e.handles[i].mon])) {
      var h := e.handles[i];
      assert h in Others(d.handles, id);
      RemoveMonitorStates(d, id, selmon, urgent, h);
      var k :| 0 <= k < |d.handles| && d.handles[k] == h;
      assert h.mon in x.order;
      var j :| 0 <= j < |x.order| && x.order[j] == h.mon;
      assert ActiveAt(PrintAll(x, urgent, |x.order|), x.handles[k], ShownTags(x.monitors[x.order[j]]));
    }
  }

  // ----- queues during a commit ----------------------------------------------------------

  /** The same managers are bound, with the same queues. */
  ghost predicate KeepsQueues(s: Server, t: Server) {
    && |t.managers| == |s.managers|
    && forall k | 0 <= k < |s.managers| :: SameQueue(s.managers[k], t.managers[k])
  }

  lemma KeepsQueuesTransitive(s: Server, t: Server, u: Server)
    requires KeepsQueues(s, t) && KeepsQueues(t, u)
    ensures KeepsQueues(s, u)
  {
    forall k | 0 <= k < |s.managers| ensures SameQueue(s.managers[k], u.managers[k]) {
      assert SameQueue(s.managers[k], t.managers[k]) && SameQueue(t.managers[k], u.managers[k]);
    }
  }

  lemma SetStateQueues(s: Server, w: WorkspaceId, flag: Flag, enabled: bool)
    requires w in s.info
    ensures KeepsQueues(s, SetState(s, w, flag, enabled))
  {
  }

  /** What survives every change of a state bit survives a change of a monitor's tags. */
  lemma StoreKeeps(P: Server -> bool, d: Desk, id: nat, r: Option<Monitor>, urgent: set<WorkspaceId>)
    requires Stable(P) && P(d.server) && Tidy(d) && id in d.monitors
    requires r.Some? ==> ValidMonitor(r.value) && r.value.group == d.monitors[id].group
    ensures P(Store(d, id, r, urgent).server)
  {
    if r.Some? {
      PrintAllKeeps(P, WithMonitor(d, id, r.value), urgent, |d.order|);
    }
  }

  lemma ViewKeeps(P: Server -> bool, d: Desk, ui: Word, urgent: set<WorkspaceId>)
    requires Stable(P) && P(d.server) && Tidy(d)
    ensures P(ViewTags(d, ui, urgent).server) && P(ToggleTags(d, ui, urgent).server)
  {
    if d.selmon.Some? {
      var m := d.monitors[d.selmon.value];
      StoreKeeps(P, d, d.selmon.value, Viewed(m, ui), urgent);
      StoreKeeps(P, d, d.selmon.value, Toggled(m, ui), urgent);
    }
  }

  lemma ReactKeeps(P: Server -> bool, d: Desk, r: Request, urgent: set<WorkspaceId>)
    requires Stable(P) && P(d.server) && Tidy(d)
    ensures P(React(d, r, urgent).server)
  {
    match r
    case Activate(Some(w)) =>
      var i := FindHandle(d.handles, w, 0);
      if i.Some? {
        ViewKeeps(P, d, TagBit(d.handles[i.value].tag), urgent);
      }
    case Deactivate(Some(w)) =>
      var i := FindHandle(d.handles, w, 0);
      if i.Some? {
        ViewKeeps(P, d, TagBit(d.handles[i.value].tag), urgent);
      }
    case _ =>
  }

  /** What survives every change of a state bit survives the reactions to a commit. */
  lemma {:induction false} ReactAllKeeps(P: Server -> bool, d: Desk, rs: seq<Request>, urgents: seq<set<WorkspaceId>>)
    requires Stable(P) && P(d.server) && Good(d) && |urgents| == |rs|
    ensures P(ReactAll(d, rs, urgents).server)
    decreases |rs|
  {
    if rs == [] {
    } else {
      ReactMatches(d, rs[0], urgents[0]);
      ReactKeeps(P, d, rs[0], urgents[0]);
      ReactAllKeeps(P, React(d, rs[0], urgents[0]), rs[1..], urgents[1..]);
    }
  }

  lemma KeepsQueuesStable(s: Server)
    ensures Stable((t: Server) => KeepsQueues(s, t))
  {
    forall t, w, flag, enabled | KeepsQueues(s, t) && w in t.info
      ensures KeepsQueues(s, SetState(t, w, flag, enabled))
    {
      SetStateQueues(t, w, flag, enabled);
      KeepsQueuesTransitive(s, t, SetState(t, w, flag, enabled));
    }
  }

  /** One reaction of the commit loop changes no queue. */
  lemma ReactQueues(d: Desk, r: Request, urgent: set<WorkspaceId>)
    requires Tidy(d)
    ensures KeepsQueues(d.server, React(d, r, urgent).server)
  {
    KeepsQueuesStable(d.server);
    ReactKeeps((t: Server) => KeepsQueues(d.server, t), d, r, urgent);
  }

  /** While the compositor reacts to a commit, no queue changes. */
  lemma ReactAllQueues(d: Desk, rs: seq<Request>, urgents: seq<set<WorkspaceId>>)
    requires Good(d) && |urgents| == |rs|
    ensures KeepsQueues(d.server, ReactAll(d, rs, urgents).server)
  {
    KeepsQueuesStable(d.server);
    ReactAllKeeps((t: Server) => KeepsQueues(d.server, t), d, rs, urgents);
  }

  // ----- runs ----------------------------------------------------------------------------

  /** Server steps that clients and the event loop cause. */
  predicate ByClient(step: Step) {
    step.DoBind? || step.DoDestroyGroupHandle? || step.DoDestroyWorkspaceHandle? || step.DoAsk? || step.DoIdle?
    || step.DoStop? || step.DoDisconnect?
  }

  datatype DeskEvent =
    | Client(step: Step)
    | Plug(urgent: set<WorkspaceId>)
    | Unplug(id: nat, selmon: Option<nat>, urgent: set<WorkspaceId>)
    | Select(id: nat)
    | DoView(ui: Word, urgent: set<WorkspaceId>)
    | DoToggleView(ui: Word, urgent: set<WorkspaceId>)
    | DoSetTags(id: nat, mask: Word, toggle: bool, urgent: set<WorkspaceId>)
    | CommitRequests(k: nat, urgents: seq<set<WorkspaceId>>)
    | Status(urgent: set<WorkspaceId>)

  ghost predicate Possible(d: Desk, e: DeskEvent) {
    match e
    case Client(step) => ByClient(step) && Enabled(d.server, step)
    case Unplug(id, selmon, _) =>
      id in d.monitors && (selmon.Some? ==> selmon.value in d.monitors && selmon.value != id)
    case Select(id) => id in d.monitors
    case DoSetTags(id, _, _, _) => id in d.monitors
    case CommitRequests(k, urgents) =>
      k < |d.server.managers| && |urgents| == |d.server.managers[k].requests|
    case _ => true
  }

  ghost predicate Good(d: Desk) {
    Consistent(d) && ActiveMatches(d)
  }

  /** A top-level event. A commit lets the compositor react to the queue, then empties it. */
  ghost function Process(d: Desk, e: DeskEvent): Desk
    requires Good(d) && Possible(d, e)
  {
    match e
    case Client(step) => d.(server := Next(d.server, step))
    case Plug(urgent) => CreateMonitor(d, urgent)
    case Unplug(id, selmon, urgent) => RemoveMonitor(d, id, selmon, urgent)
    case Select(id) => d.(selmon := Some(id))
    case DoView(ui, urgent) => ViewTags(d, ui, urgent)
    case DoToggleView(ui, urgent) => ToggleTags(d, ui, urgent)
    case DoSetTags(id, mask, toggle, urgent) => SetTags(d, id, mask, toggle, urgent)
    case CommitRequests(k, urgents) =>
      ReactAllQueues(d, d.server.managers[k].requests, urgents);
      var r := ReactAll(d, d.server.managers[k].requests, urgents);
      r.(server := Next(r.server, DoCommit(k)))
    case Status(urgent) => PrintStatus(d, urgent)
  }

  /** Steps of clients change no workspace and no group. */
  lemma ClientKeepsTables(s: Server, step: Step)
    requires Tabled(s) && Enabled(s, step) && (ByClient(step) || step.DoCommit?)
    ensures Next(s, step).info == s.info && Next(s, step).caps == s.caps
  {
  }

  lemma ServerGood(d: Desk, s: Server)
    requires Good(d) && Inv(s) && s.info == d.server.info && s.caps == d.server.caps
    ensures Good(d.(server := s))
  {
    var e := d.(server := s);
    forall i | 0 <= i < |e.handles| ensures ActiveAt(e.server, e.handles[i], ShownTags(e.monitors[e.handles[i].mon])) {
      assert ActiveAt(d.server, d.handles[i], ShownTags(d.monitors[d.handles[i].mon]));
    }
  }

  lemma ClientGood(d: Desk, step: Step)
    requires Good(d) && Enabled(d.server, step) && (ByClient(step) || step.DoCommit?)
    ensures Good(d.(server := Next(d.server, step)))
  {
    StepInv(d.server, step);
    ClientKeepsTables(d.server, step);
    ServerGood(d, Next(d.server, step));
  }

  lemma SelectGood(d: Desk, id: nat)
    requires Good(d) && id in d.monitors
    ensures Good(d.(selmon := Some(id)))
  {
    var e := d.(selmon := Some(id));
    forall i | 0 <= i < |e.handles| ensures ActiveAt(e.server, e.handles[i], ShownTags(e.monitors[e.handles[i].mon])) {
      assert ActiveAt(d.server, d.handles[i], ShownTags(d.monitors[d.handles[i].mon]));
    }
  }

  lemma HandleGood(d: Desk, e: DeskEvent)
    requires Good(d) && Possible(d, e)
    ensures Good(Process(d, e))
  {
    match e
    case Client(step) => ClientGood(d, step);
    case Plug(urgent) => CreateMonitorMatches(d, urgent);
    case Unplug(id, selmon, urgent) => RemoveMonitorMatches(d, id, selmon, urgent);
    case Select(id) => SelectGood(d, id);
    case DoView(ui, urgent) => ViewMatches(d, ui, urgent);
    case DoToggleView(ui, urgent) => ToggleViewMatches(d, ui, urgent);
    case DoSetTags(id, mask, toggle, urgent) => SetTagsMatches(d, id, mask, toggle, urgent);
    case CommitRequests(k, urgents) =>
      ReactAllQueues(d, d.server.managers[k].requests, urgents);
      ClientGood(ReactAll(d, d.server.managers[k].requests, urgents), DoCommit(k));
    case Status(urgent) => PrintStatusMatches(d, urgent);
  }

  /** One event of a run; an event that cannot happen is passed over. */
  ghost function PerformEvent(d: Desk, e: DeskEvent): Desk {
    if Good(d) && Possible(d, e) then Process(d, e) else d
  }

  /** The desk after a run of events from the start. */
  ghost function AfterRun(es: seq<DeskEvent>): Desk {
    if es == [] then EMPTY_DESK else PerformEvent(AfterRun(es[..|es| - 1]), es[|es| - 1])
  }

  // ----- one workspace per monitor and tag -----------------------------------------------

  ghost predicate HasTag(hs: seq<Handle>, id: nat, tag: nat) {
    exists i :: 0 <= i < |hs| && hs[i].mon == id && hs[i].tag == tag
  }

  ghost predicate OncePerTag(hs: seq<Handle>) {
    forall i, j | 0 <= i < |hs| && 0 <= j < |hs| && hs[i].mon == hs[j].mon && hs[i].tag == hs[j].tag :: i == j
  }

  /** Each of the nine tags of each monitor has exactly one workspace. */
  ghost predicate OneWorkspaceEach(d: Desk) {
    && (forall id, tag: nat | id in d.monitors && 1 <= tag <= TAG_COUNT :: HasTag(d.handles, id, tag))
    && OncePerTag(d.handles)
  }

  /** Handles of a new monitor, one per tag, after the old ones. */
  lemma AppendedOnce(hs: seq<Handle>, ks: seq<Handle>, id: nat)
    requires |ks| == |hs| + TAG_COUNT && ks[..|hs|] == hs && OncePerTag(hs)
    requires forall i | 0 <= i < |hs| :: hs[i].mon != id
    requires forall i | |hs| <= i < |ks| :: ks[i].mon == id && ks[i].tag == i - |hs| + 1
    ensures OncePerTag(ks)
    ensures forall tag | 1 <= tag <= TAG_COUNT :: HasTag(ks, id, tag)
    ensures forall other, tag | HasTag(hs, other, tag) :: HasTag(ks, other, tag)
  {
    assert forall i | 0 <= i < |hs| :: ks[i] == ks[..|hs|][i] == hs[i];
    forall tag | 1 <= tag <= TAG_COUNT ensures HasTag(ks, id, tag) {
      assert ks[|hs| + tag - 1].tag == tag;
    }
    forall other, tag | HasTag(hs, other, tag) ensures HasTag(ks, other, tag) {
      var i :| 0 <= i < |hs| && hs[i].mon == other && hs[i].tag == tag;
      assert ks[i] == hs[i];
    }
  }

  lemma AddMonitorOnce(d: Desk)
    requires Tidy(d) && OneWorkspaceEach(d)
    ensures OneWorkspaceEach(AddMonitor(d))
  {
    CreateTagsList(CreateGroup(d.server, 0), d.handles, d.nextMon, d.server.next, TAG_COUNT);
    AppendedOnce(d.handles, AddMonitor(d).handles, d.nextMon);
  }

  lemma {:induction false} OthersOnce(hs: seq<Handle>, id: nat)
    requires OncePerTag(hs)
    ensures OncePerTag(Others(hs, id))
  {
    if hs == [] {
    } else {
      assert forall i | 0 <= i < |hs[1..]| :: hs[1..][i] == hs[i + 1];
      OthersOnce(hs[1..], id);
      OthersAre(hs[1..], id);
      var rest := Others(hs[1..], id);
      forall i | 0 <= i < |rest| ensures rest[i].mon != hs[0].mon || rest[i].tag != hs[0].tag {
        assert rest[i] in rest;
        var j :| 0 <= j < |hs[1..]| && hs[1..][j] == rest[i];
        assert hs[j + 1] == rest[i];
      }
    }
  }

  lemma OthersKeepTags(hs: seq<Handle>, id: nat, other: nat, tag: nat)
    requires HasTag(hs, other, tag) && other != id
    ensures HasTag(Others(hs, id), other, tag)
  {
    var i :| 0 <= i < |hs| && hs[i].mon == other && hs[i].tag == tag;
    OthersAre(hs, id);
    assert hs[i] in Others(hs, id);
  }

  lemma RemoveMonitorOnce(d: Desk, id: nat, selmon: Option<nat>, urgent: set<WorkspaceId>)
    requires Consistent(d) && id in d.monitors && OneWorkspaceEach(d)
    ensures OneWorkspaceEach(RemoveMonitor(d, id, selmon, urgent))
  {
    OthersOnce(d.handles, id);
    forall other, tag: nat | other in d.monitors && other != id && 1 <= tag <= TAG_COUNT
      ensures HasTag(Others(d.handles, id), other, tag)
    {
      OthersKeepTags(d.handles, id, other, tag);
    }
  }

  /** Reactions to a commit change neither the monitors there are nor their workspaces. */
  lemma {:induction false} ReactAllSame(d: Desk, rs: seq<Request>, urgents: seq<set<WorkspaceId>>)
    requires Good(d) && |urgents| == |rs|
    ensures var e := ReactAll(d, rs, urgents);
            && e.handles == d.handles && e.order == d.order && e.nextMon == d.nextMon && e.selmon == d.selmon
            && e.monitors.Keys == d.monitors.Keys
            && forall id | id in d.monitors :: e.monitors[id].group == d.monitors[id].group
    decreases |rs|
  {
    if rs == [] {
    } else {
      ReactMatches(d, rs[0], urgents[0]);
      ReactSame(d, rs[0], urgents[0]);
      ReactAllSame(React(d, rs[0], urgents[0]), rs[1..], urgents[1..]);
    }
  }

  lemma ReactSame(d: Desk, r: Request, urgent: set<WorkspaceId>)
    requires Tidy(d)
    ensures var e := React(d, r, urgent);
            && e.handles == d.handles && e.order == d.order && e.nextMon == d.nextMon && e.selmon == d.selmon
            && e.monitors.Keys == d.monitors.Keys
            && forall id | id in d.monitors :: e.monitors[id].group == d.monitors[id].group
  {
  }

  lemma ProcessOnce(d: Desk, e: DeskEvent)
    requires Good(d) && Possible(d, e) && OneWorkspaceEach(d)
    ensures OneWorkspaceEach(Process(d, e))
  {
    match e
    case Plug(_) => AddMonitorOnce(d);
    case Unplug(id, selmon, urgent) => RemoveMonitorOnce(d, id, selmon, urgent);
    case CommitRequests(k, urgents) => ReactAllSame(d, d.server.managers[k].requests, urgents);
    case _ =>
  }

  lemma EmptyGood()
    ensures Good(EMPTY_DESK)
  {
    InitialInv();
  }

  /** The invariant holds after every run; so only the event itself decides whether it can happen. */
  lemma {:induction false} RunGood(es: seq<DeskEvent>)
    ensures Good(AfterRun(es)) && OneWorkspaceEach(AfterRun(es))
  {
    if es == [] {
      EmptyGood();
    } else {
      var d, e := AfterRun(es[..|es| - 1]), es[|es| - 1];
      RunGood(es[..|es| - 1]);
      if Possible(d, e) {
        HandleGood(d, e);
        ProcessOnce(d, e);
      }
    }
  }

  /** The nine tag bits lie inside the mask. */
  lemma ShownIsBit(m: Monitor, tag: nat)
    requires ValidMonitor(m) && 1 <= tag <= TAG_COUNT
    ensures tag in ShownTags(m) <==> tag - 1 in Selected(m)
  {
    var both := And(And(Selected(m), TagBit(tag)), TAG_MASK);
    assert tag - 1 in Selected(m) ==> tag - 1 in both;
    assert forall i | i in both :: i == tag - 1 && i in Selected(m);
    assert tag in ShownTags(m) <==> both != {};
  }

  /** What a client that is in sync sees of a workspace's active flag. */
  lemma SeenState(s: Server, m: Manager, w: WorkspaceId)
    requires InSync(s, m) && w in m.workspaces
    ensures w in s.info && w in Fold(m.log).workspaces && Fold(m.log).workspaces[w].state == s.info[w].state
  {
  }

  /** Client `k` sees the workspace of handle `i` active exactly if its monitor has the tag's bit set. */
  ghost predicate ActiveSeen(d: Desk, k: nat, i: nat)
    requires k < |d.server.managers| && i < |d.handles|
  {
    var h := d.handles[i];
    var v := Fold(d.server.managers[k].log);
    h.w in d.server.managers[k].workspaces ==>
      && h.mon in d.monitors && ValidMonitor(d.monitors[h.mon]) && 1 <= h.tag <= TAG_COUNT
      && h.w in v.workspaces
      && (Active in v.workspaces[h.w].state <==> h.tag - 1 in Selected(d.monitors[h.mon]))
  }

  lemma GoodSeen(d: Desk, k: nat, i: nat)
    requires Good(d) && k < |d.server.managers| && i < |d.handles|
    ensures ActiveSeen(d, k, i)
  {
    var h := d.handles[i];
    if h.w in d.server.managers[k].workspaces {
      SeenState(d.server, d.server.managers[k], h.w);
      assert ActiveAt(d.server, h, ShownTags(d.monitors[h.mon]));
      ShownIsBit(d.monitors[h.mon], h.tag);
    }
  }

  /**
   * End to end: after any run of top-level events every (monitor, tag) has exactly one workspace, and
   * in the view of every bound client it is active exactly when the tag's bit is set in the monitor's
   * selected tags.
   */
  lemma ActiveBitEndToEnd(es: seq<DeskEvent>)
    ensures var d := AfterRun(es);
            && OneWorkspaceEach(d)
            && forall k: nat, i: nat | k < |d.server.managers| && i < |d.handles| :: ActiveSeen(d, k, i)
  {
    var d := AfterRun(es);
    RunGood(es);
    forall k: nat, i: nat | k < |d.server.managers| && i < |d.handles| ensures ActiveSeen(d, k, i) {
      GoodSeen(d, k, i);
    }
  }
}

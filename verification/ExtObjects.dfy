// The objects of src/wlr_ext_workspace_v1.c and their loops: each method computes the operation of
// the same name in ExtServer.

module ExtObjects {
  import opened Lists
  import opened ExtProtocol
  import S = ExtServer

  /** A bound manager object with its handles, its request list and the events sent to its client. */
  class ManagerResource {
    var log: Log
    var groups: set<GroupId>
    var workspaces: set<WorkspaceId>
    var requests: seq<S.Request>
    var delivered: seq<S.Request>
    ghost var made: seq<S.Request>

    ghost function Contents(): S.Manager
      reads this
    {
      S.Manager(log, groups, workspaces, requests, made, delivered)
    }

    constructor ()
      ensures Contents() == S.UNBOUND
    {
      log, groups, workspaces, requests, delivered, made := [], {}, {}, [], [], [];
    }

    method Send(e: Event)
      modifies this
      ensures Contents() == S.Send(old(Contents()), e)
    {
      log := log + [Sent(e)];
    }

    method GiveGroup(g: GroupId, caps: nat)
      modifies this
      ensures Contents() == S.GiveGroup(old(Contents()), g, caps)
    {
      groups := groups + {g};
      Send(NewGroup(g));
      Send(GroupCapabilities(g, caps));
    }

    method SendDetails(w: WorkspaceId, x: Workspace)
      modifies this
      ensures Contents() == S.SendDetails(old(Contents()), w, x)
    {
      Send(Capabilities(w, x.caps));
      if x.name.Some? {
        Send(Name(w, x.name.value));
      }
      if x.id.Some? {
        Send(Id(w, x.id.value));
      }
      Send(State(w, x.state));
    }

    method SendGroup(g: GroupId, w: WorkspaceId, enter: bool)
      modifies this
      ensures Contents() == if enter then S.SendEnter(old(Contents()), g, w) else S.SendLeave(old(Contents()), g, w)
    {
      if g in groups && w in workspaces {
        Send(if enter then Enter(g, w) else Leave(g, w));
      }
    }

    method GiveWorkspace(w: WorkspaceId, x: Workspace)
      modifies this
      ensures Contents() == S.GiveWorkspace(old(Contents()), w, x)
    {
      workspaces := workspaces + {w};
      Send(NewWorkspace(w));
      SendDetails(w, x);
      if x.group.Some? {
        SendGroup(x.group.value, w, true);
      }
    }

    /** The group loop of `manager_bind`. */
    method GiveGroups(gs: seq<GroupId>, caps: map<GroupId, nat>, ghost s: S.Server)
      requires s.groups == gs && s.caps == caps && forall g | g in gs :: g in caps
      modifies this
      ensures Contents() == S.GiveGroups(old(Contents()), s, |gs|)
    {
      var i := 0;
      while i < |gs|
        invariant 0 <= i <= |gs| && Contents() == S.GiveGroups(old(Contents()), s, i)
      {
        GiveGroup(gs[i], caps[gs[i]]);
        i := i + 1;
      }
    }

    /** The workspace loop of `manager_bind`. */
    method GiveWorkspaces(ws: seq<WorkspaceId>, info: map<WorkspaceId, Workspace>, ghost s: S.Server)
      requires s.workspaces == ws && s.info == info && forall w | w in ws :: w in info
      modifies this
      ensures Contents() == S.GiveWorkspaces(old(Contents()), s, |ws|)
    {
      var i := 0;
      while i < |ws|
        invariant 0 <= i <= |ws| && Contents() == S.GiveWorkspaces(old(Contents()), s, i)
      {
        GiveWorkspace(ws[i], info[ws[i]]);
        i := i + 1;
      }
    }

    method LoseGroup(g: GroupId)
      modifies this
      ensures Contents() == S.LoseGroup(old(Contents()), g)
    {
      if g in groups {
        Send(GroupRemoved(g));
        groups := groups - {g};
      }
      var i := 0;
      ghost var rs := requests;
      while i < |requests|
        invariant 0 <= i <= |requests| == |rs|
        invariant forall j | 0 <= j < i :: requests[j] == S.ClearGroup(rs[j], g)
        invariant forall j | i <= j < |rs| :: requests[j] == rs[j]
        invariant Contents() == S.Manager(log, groups, workspaces, requests, made, delivered)
        invariant log == old(log) + (if g in old(groups) then [Sent(GroupRemoved(g))] else [])
        invariant groups == old(groups) - {g} && workspaces == old(workspaces)
        invariant made == old(made) && delivered == old(delivered)
      {
        requests := requests[i := S.ClearGroup(requests[i], g)];
        i := i + 1;
      }
    }

    method LoseWorkspace(w: WorkspaceId)
      modifies this
      ensures Contents() == S.LoseWorkspace(old(Contents()), w)
    {
      if w in workspaces {
        Send(WorkspaceRemoved(w));
        workspaces := workspaces - {w};
      }
      var i := 0;
      ghost var rs := requests;
      while i < |requests|
        invariant 0 <= i <= |requests| == |rs|
        invariant forall j | 0 <= j < i :: requests[j] == S.ClearWorkspace(rs[j], w)
        invariant forall j | i <= j < |rs| :: requests[j] == rs[j]
        invariant log == old(log) + (if w in old(workspaces) then [Sent(WorkspaceRemoved(w))] else [])
        invariant workspaces == old(workspaces) - {w} && groups == old(groups)
        invariant made == old(made) && delivered == old(delivered)
      {
        requests := requests[i := S.ClearWorkspace(requests[i], w)];
        i := i + 1;
      }
    }

    /** Requests on a live handle are queued. */
    method Enqueue(r: S.Request)
      modifies this
      ensures Contents() == S.Enqueue(old(Contents()), r)
    {
      requests := requests + [r];
      made := made + [r];
    }

    /** `manager_handle_commit` */
    method Commit()
      modifies this
      ensures Contents() == S.CommitAll(old(Contents()))
    {
      delivered := delivered + requests;
      requests := [];
    }

    method DestroyGroupHandle(g: GroupId)
      modifies this
      ensures Contents() == S.DestroyGroupHandle(old(Contents()), g)
    {
      if g in groups {
        log := log + [DroppedGroup(g)];
        groups := groups - {g};
      }
    }

    method DestroyWorkspaceHandle(w: WorkspaceId)
      modifies this
      ensures Contents() == S.DestroyWorkspaceHandle(old(Contents()), w)
    {
      if w in workspaces {
        log := log + [DroppedWorkspace(w)];
        workspaces := workspaces - {w};
      }
    }
  }

  class WorkspaceManager {
    var groups: seq<GroupId>
    var caps: map<GroupId, nat>
    var workspaces: seq<WorkspaceId>
    var info: map<WorkspaceId, Workspace>
    var resources: seq<ManagerResource>
    var retired: seq<Log>
    var idle: bool
    var next: nat

    ghost predicate Valid()
      reads this
    {
      && (forall i, j | 0 <= i < j < |resources| :: resources[i] != resources[j])
      && (forall g | g in groups :: g in caps)
      && (forall w | w in workspaces :: w in info)
    }

    ghost function Server(): S.Server
      reads this, resources
    {
      S.Server(groups, caps, workspaces, info,
               seq(|resources|, i requires 0 <= i < |resources| reads this, resources => resources[i].Contents()),
               retired, idle, next)
    }

    constructor ()
      ensures Valid() && Server() == S.INITIAL
    {
      groups, caps, workspaces, info, resources := [], map[], [], map[], [];
      retired, idle, next := [], false, 0;
    }

    /** `manager_schedule_done` */
    method ScheduleDone()
      modifies this`idle
      ensures idle
    {
      if !idle {
        idle := true;
      }
    }

    /** `wl_list_insert` at the head of the list of bound managers. */
    method AddResource(r: ManagerResource)
      requires Valid() && r !in resources
      modifies this`resources
      ensures Valid() && Server() == old(Server()).(managers := [r.Contents()] + old(Server()).managers)
    {
      ghost var before := Server();
      resources := [r] + resources;
      assert Server().managers == [r.Contents()] + before.managers;
    }

    /** `manager_bind` */
    method Bind()
      requires Valid()
      modifies this
      ensures Valid() && Server() == S.Bind(old(Server()))
    {
      ghost var s := Server();
      var r := new ManagerResource();
      r.GiveGroups(groups, caps, s);
      r.GiveWorkspaces(workspaces, info, s);
      r.Send(Done);
      assert r.Contents() == S.Welcomed(s);
      AddResource(r);
      assert Server() == s.(managers := [S.Welcomed(s)] + s.managers);
      if groups != [] || workspaces != [] {
        ScheduleDone();
      }
    }

    method AnnounceGroup(g: GroupId, c: nat)
      requires Valid()
      modifies resources
      ensures Server() == old(Server()).(managers := Server().managers)
      ensures forall j | 0 <= j < |resources| ::
                resources[j].Contents() == S.GiveGroup(old(resources[j].Contents()), g, c)
    {
      var i := 0;
      while i < |resources|
        invariant 0 <= i <= |resources|
        invariant forall j | 0 <= j < i ::
                    resources[j].Contents() == S.GiveGroup(old(resources[j].Contents()), g, c)
        invariant forall j | i <= j < |resources| :: resources[j].Contents() == old(resources[j].Contents())
      {
        resources[i].GiveGroup(g, c);
        i := i + 1;
      }
    }

    /** `wlr_ext_workspace_group_handle_v1_create` */
    method CreateGroup(c: nat) returns (g: GroupId)
      requires Valid()
      modifies this, resources
      ensures Valid() && resources == old(resources) && g == old(next)
      ensures Server() == S.CreateGroup(old(Server()), c)
    {
      g := next;
      next := next + 1;
      groups := groups + [g];
      caps := caps[g := c];
      AnnounceGroup(g, c);
      ScheduleDone();
    }

    method AnnounceWorkspace(w: WorkspaceId, x: Workspace)
      requires Valid()
      modifies resources
      ensures Server() == old(Server()).(managers := Server().managers)
      ensures forall j | 0 <= j < |resources| ::
                resources[j].Contents() == S.GiveWorkspace(old(resources[j].Contents()), w, x)
    {
      var i := 0;
      while i < |resources|
        invariant 0 <= i <= |resources|
        invariant forall j | 0 <= j < i ::
                    resources[j].Contents() == S.GiveWorkspace(old(resources[j].Contents()), w, x)
        invariant forall j | i <= j < |resources| :: resources[j].Contents() == old(resources[j].Contents())
      {
        resources[i].GiveWorkspace(w, x);
        i := i + 1;
      }
    }

    /** `wlr_ext_workspace_handle_v1_create` */
    method CreateWorkspace(id: Option<string>, c: nat) returns (w: WorkspaceId)
      requires Valid()
      modifies this, resources
      ensures Valid() && resources == old(resources) && w == old(next)
      ensures Server() == S.CreateWorkspace(old(Server()), id, c)
    {
      w := next;
      next := next + 1;
      var x := Workspace(id, c, None, None, {});
      workspaces := workspaces + [w];
      info := info[w := x];
      AnnounceWorkspace(w, x);
      ScheduleDone();
    }

    /** `workspace_send_group` */
    method SendGroup(w: WorkspaceId, g: GroupId, enter: bool)
      requires Valid()
      modifies this`idle, resources
      ensures Valid() && idle
      ensures Server() == old(Server()).(managers := Server().managers, idle := true)
      ensures forall j | 0 <= j < |resources| ::
                resources[j].Contents() == if enter then S.SendEnter(old(resources[j].Contents()), g, w)
                                        else S.SendLeave(old(resources[j].Contents()), g, w)
    {
      var i := 0;
      while i < |resources|
        invariant 0 <= i <= |resources| && idle == old(idle)
        invariant forall j | 0 <= j < i ::
                    resources[j].Contents() == if enter then S.SendEnter(old(resources[j].Contents()), g, w)
                                            else S.SendLeave(old(resources[j].Contents()), g, w)
        invariant forall j | i <= j < |resources| :: resources[j].Contents() == old(resources[j].Contents())
      {
        resources[i].SendGroup(g, w, enter);
        i := i + 1;
      }
      ScheduleDone();
    }

    /** `wlr_ext_workspace_handle_v1_set_group` */
    method SetGroup(w: WorkspaceId, now: Option<GroupId>)
      requires Valid() && w in info
      modifies this, resources
      ensures Valid() && resources == old(resources) && Server() == S.SetGroup(old(Server()), w, now)
    {
      var was := info[w].group;
      if was == now {
        return;
      }
      if was.Some? {
        SendGroup(w, was.value, false);
      }
      info := info[w := info[w].(group := now)];
      if now.Some? {
        SendGroup(w, now.value, true);
      }
    }

    /** `wlr_ext_workspace_handle_v1_set_name` */
    method SetName(w: WorkspaceId, name: string)
      requires Valid() && w in info
      modifies this, resources
      ensures Valid() && resources == old(resources) && Server() == S.SetName(old(Server()), w, name)
    {
      if info[w].name == Some(name) {
        return;
      }
      ghost var s := Server();
      info := info[w := info[w].(name := Some(name))];
      var i := 0;
      while i < |resources|
        invariant 0 <= i <= |resources| && Valid() && resources == old(resources)
        invariant forall j | 0 <= j < i :: resources[j].Contents() == S.SendName(s.managers[j], w, name)
        invariant forall j | i <= j < |resources| :: resources[j].Contents() == s.managers[j]
        invariant Server() == s.(info := s.info[w := s.info[w].(name := Some(name))], managers := Server().managers)
      {
        if w in resources[i].workspaces {
          resources[i].Send(Name(w, name));
        }
        i := i + 1;
      }
      ScheduleDone();
    }

    method BroadcastState(w: WorkspaceId, state: set<Flag>)
      requires Valid()
      modifies resources
      ensures Server() == old(Server()).(managers := Server().managers)
      ensures forall j | 0 <= j < |resources| ::
                resources[j].Contents() == S.SendState(old(resources[j].Contents()), w, state)
    {
      var i := 0;
      while i < |resources|
        invariant 0 <= i <= |resources|
        invariant forall j | 0 <= j < i ::
                    resources[j].Contents() == S.SendState(old(resources[j].Contents()), w, state)
        invariant forall j | i <= j < |resources| :: resources[j].Contents() == old(resources[j].Contents())
      {
        if w in resources[i].workspaces {
          resources[i].Send(State(w, state));
        }
        i := i + 1;
      }
    }

    /** `workspace_set_state` */
    method SetState(w: WorkspaceId, flag: Flag, enabled: bool)
      requires Valid() && w in info
      modifies this, resources
      ensures Valid() && resources == old(resources) && Server() == S.SetState(old(Server()), w, flag, enabled)
    {
      var before := info[w].state;
      var state := S.Flagged(before, flag, enabled);
      if state == before {
        return;
      }
      info := info[w := info[w].(state := state)];
      BroadcastState(w, state);
      ScheduleDone();
    }

    /** The first loop of the destruction of a group: its workspaces leave it. */
    method Vacate(g: GroupId)
      requires Valid()
      modifies this, resources
      ensures Valid() && resources == old(resources) && workspaces == old(workspaces)
      ensures Server() == S.Vacate(old(Server()), g, |workspaces|)
    {
      ghost var s := Server();
      var n := 0;
      while n < |workspaces|
        invariant Valid() && resources == old(resources) && workspaces == s.workspaces
        invariant 0 <= n <= |workspaces| && Server() == S.Vacate(s, g, n)
      {
        var w := workspaces[n];
        if info[w].group == Some(g) {
          SetGroup(w, None);
        }
        n := n + 1;
      }
    }

    /** The other two loops: removed to every holder, references cleared in every queue. */
    method RetractGroup(g: GroupId)
      requires Valid()
      modifies resources
      ensures Server() == old(Server()).(managers := Server().managers)
      ensures forall j | 0 <= j < |resources| ::
                resources[j].Contents() == S.LoseGroup(old(resources[j].Contents()), g)
    {
      var i := 0;
      while i < |resources|
        invariant 0 <= i <= |resources|
        invariant forall j | 0 <= j < i ::
                    resources[j].Contents() == S.LoseGroup(old(resources[j].Contents()), g)
        invariant forall j | i <= j < |resources| :: resources[j].Contents() == old(resources[j].Contents())
      {
        resources[i].LoseGroup(g);
        i := i + 1;
      }
    }

    /** `wlr_ext_workspace_group_handle_v1_destroy` */
    method DestroyGroup(g: GroupId)
      requires Valid()
      modifies this, resources
      ensures Valid() && resources == old(resources) && Server() == S.DestroyGroup(old(Server()), g)
    {
      Vacate(g);
      ghost var v := Server();
      RetractGroup(g);
      assert Server() == v.(managers := seq(|v.managers|, i requires 0 <= i < |v.managers| =>
                                              S.LoseGroup(v.managers[i], g)));
      ScheduleDone();
      groups := Without(groups, g);
      caps := caps - {g};
    }

    method RetractWorkspace(w: WorkspaceId)
      requires Valid()
      modifies resources
      ensures Server() == old(Server()).(managers := Server().managers)
      ensures forall j | 0 <= j < |resources| ::
                resources[j].Contents() == S.LoseWorkspace(old(resources[j].Contents()), w)
    {
      var i := 0;
      while i < |resources|
        invariant 0 <= i <= |resources|
        invariant forall j | 0 <= j < i ::
                    resources[j].Contents() == S.LoseWorkspace(old(resources[j].Contents()), w)
        invariant forall j | i <= j < |resources| :: resources[j].Contents() == old(resources[j].Contents())
      {
        resources[i].LoseWorkspace(w);
        i := i + 1;
      }
    }

    /** `wlr_ext_workspace_handle_v1_destroy` */
    method DestroyWorkspace(w: WorkspaceId)
      requires Valid() && w in info
      modifies this, resources
      ensures Valid() && resources == old(resources) && Server() == S.DestroyWorkspace(old(Server()), w)
    {
      SetGroup(w, None);
      RetractWorkspace(w);
      ScheduleDone();
      workspaces := Without(workspaces, w);
      info := info - {w};
    }

    /** `handle_idle` */
    method HandleIdle()
      requires Valid()
      modifies this, resources
      ensures Valid() && Server() == S.Idle(old(Server()))
    {
      ghost var s := Server();
      var i := 0;
      while i < |resources|
        invariant 0 <= i <= |resources| && Valid() && resources == old(resources)
        invariant forall j | 0 <= j < i :: resources[j].Contents() == S.Send(s.managers[j], Done)
        invariant forall j | i <= j < |resources| :: resources[j].Contents() == s.managers[j]
        invariant Server() == s.(managers := Server().managers)
      {
        resources[i].Send(Done);
        i := i + 1;
      }
      idle := false;
    }

    /** A client's request on one of its handles. */
    method Ask(k: nat, ask: S.Ask)
      requires Valid() && S.Enabled(Server(), S.DoAsk(k, ask))
      modifies resources
      ensures Valid() && S.Tabled(old(Server())) && Server() == S.Next(old(Server()), S.DoAsk(k, ask))
    {
      ghost var s := Server();
      var r := resources[k];
      assert r.Contents() == s.managers[k];
      match ask
      case AskCreate(g, name) =>
        if g in r.groups {
          r.Enqueue(S.CreateWorkspaceIn(name, Some(g)));
        }
      case AskActivate(w) =>
        if w in r.workspaces {
          r.Enqueue(S.Activate(Some(w)));
        }
      case AskDeactivate(w) =>
        if w in r.workspaces {
          r.Enqueue(S.Deactivate(Some(w)));
        }
      case AskAssign(w, g, holder) =>
        assert resources[holder].Contents() == s.managers[holder];
        if w in r.workspaces && g in resources[holder].groups {
          r.Enqueue(S.Assign(Some(w), Some(g)));
        }
      case AskRemove(w) =>
        if w in r.workspaces {
          r.Enqueue(S.Remove(Some(w)));
        }
    }

    /** `manager_handle_commit` */
    method Commit(k: nat)
      requires Valid() && k < |resources|
      modifies resources
      ensures Valid() && S.Tabled(old(Server())) && Server() == S.Next(old(Server()), S.DoCommit(k))
    {
      resources[k].Commit();
    }

    method DestroyGroupHandle(k: nat, g: GroupId)
      requires Valid() && k < |resources|
      modifies resources
      ensures Valid() && S.Tabled(old(Server()))
      ensures Server() == S.Next(old(Server()), S.DoDestroyGroupHandle(k, g))
    {
      resources[k].DestroyGroupHandle(g);
    }

    method DestroyWorkspaceHandle(k: nat, w: WorkspaceId)
      requires Valid() && k < |resources|
      modifies resources
      ensures Valid() && S.Tabled(old(Server()))
      ensures Server() == S.Next(old(Server()), S.DoDestroyWorkspaceHandle(k, w))
    {
      resources[k].DestroyWorkspaceHandle(w);
    }

    /** `manager_handle_stop`, or the end of the connection when `polite` is false. */
    method Stop(k: nat, polite: bool)
      requires Valid() && k < |resources|
      modifies this, resources
      ensures Valid() && S.Tabled(old(Server()))
      ensures Server() == S.Next(old(Server()), if polite then S.DoStop(k) else S.DoDisconnect(k))
    {
      ghost var s := Server();
      var r := resources[k];
      assert r.Contents() == s.managers[k];
      if polite {
        r.Send(Finished);
      }
      retired := retired + [r.log];
      resources := resources[..k] + resources[k + 1..];
      assert Server().managers == s.managers[..k] + s.managers[k + 1..];
    }
  }
}

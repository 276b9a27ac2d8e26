// src/ext_workspace.c and the tag functions it meets, in their own form: objects and loops. Each
// method computes the function of ActiveBit or ActiveRuns with the same effect.

module Compositors {
  import opened Lists
  import opened ExtProtocol
  import S = ExtServer
  import ExtAgreement
  import A = ActiveBit
  import R = ActiveRuns
  import ExtRuns
  import opened ExtObjects
  import opened TagWords

  class Compositor {
    const server: WorkspaceManager
    var order: seq<nat>
    var monitors: map<nat, A.Monitor>
    var handles: seq<A.Handle>
    var selmon: Option<nat>
    var nextMon: nat

    ghost predicate Valid()
      reads this, server
    {
      server.Valid()
    }

    ghost function Desk(): A.Desk
      reads this, server, server.resources
    {
      A.Desk(server.Server(), order, monitors, handles, selmon, nextMon)
    }

    constructor ()
      ensures Valid() && fresh(server) && Desk() == A.EMPTY_DESK
    {
      server := new WorkspaceManager();
      order, monitors, handles, selmon, nextMon := [], map[], [], None, 0;
    }

    /** The three setters for one workspace. */
    method PrintHandle(w: WorkspaceId, urgent: bool, active: bool)
      requires Valid() && w in server.info
      modifies server, server.resources
      ensures Valid() && server.resources == old(server.resources)
      ensures w in old(server.Server()).info
      ensures server.Server() == A.PrintHandle(old(server.Server()), w, urgent, active)
    {
      assert server.info == server.Server().info;
      server.SetState(w, Urgent, urgent);
      assert server.info == server.Server().info;
      server.SetState(w, Hidden, false);
      assert server.info == server.Server().info;
      server.SetState(w, Active, active);
    }

    /** `ext_workspace_printstatus` */
    method PrintMonitor(id: nat, urgent: set<WorkspaceId>)
      requires Valid() && A.Printable(Desk()) && id in monitors && A.ValidMonitor(monitors[id])
      modifies server, server.resources
      ensures Valid() && server.resources == old(server.resources)
      ensures server.Server() == A.PrintMonitor(old(server.Server()), handles, id, A.ShownTags(monitors[id]), urgent,
                                                |handles|)
    {
      var n := 0;
      ghost var s, shown := server.Server(), A.ShownTags(monitors[id]);
      while n < |handles|
        invariant 0 <= n <= |handles| && Valid() && server.resources == old(server.resources)
        invariant server.Server() == A.PrintMonitor(s, handles, id, shown, urgent, n)
      {
        var h := handles[n];
        assert server.info == server.Server().info;
        if h.mon == id {
          PrintHandle(h.w, h.w in urgent, A.Shown(monitors[id], h.tag));
        }
        n := n + 1;
      }
    }

    /** `printstatus`, as far as the workspaces are concerned. */
    method PrintStatus(urgent: set<WorkspaceId>)
      requires Valid() && A.Printable(Desk())
      modifies server, server.resources
      ensures Valid() && server.resources == old(server.resources)
      ensures Desk() == A.PrintStatus(old(Desk()), urgent)
    {
      ghost var d := Desk();
      var k := 0;
      while k < |order|
        invariant 0 <= k <= |order| && Valid() && server.resources == old(server.resources)
        invariant server.Server() == A.PrintAll(d, urgent, k)
      {
        assert order[k] in order;
        assert server.Server().info.Keys == d.server.info.Keys;
        PrintMonitor(order[k], urgent);
        k := k + 1;
      }
    }

    /** The common end of the three functions below: store the tags, print the status. */
    method StoreTags(id: nat, m: A.Monitor, urgent: set<WorkspaceId>)
      requires Valid() && A.Tidy(Desk()) && id in monitors
      requires A.ValidMonitor(m) && m.group == monitors[id].group
      modifies this, server, server.resources
      ensures Valid() && server.resources == old(server.resources)
      ensures Desk() == A.Store(old(Desk()), id, Some(m), urgent)
    {
      ghost var d := Desk();
      A.StorePrintable(d, id, m);
      PutMonitor(id, m);
      PrintStatus(urgent);
    }

    method PutMonitor(id: nat, m: A.Monitor)
      modifies this`monitors
      ensures Desk() == A.WithMonitor(old(Desk()), id, m)
    {
      monitors := monitors[id := m];
    }

    /** `view` */
    method ViewTags(ui: Word, urgent: set<WorkspaceId>)
      requires Valid() && A.Tidy(Desk())
      modifies this, server, server.resources
      ensures Valid() && server.resources == old(server.resources)
      ensures Desk() == A.ViewTags(old(Desk()), ui, urgent)
    {
      if selmon == None {
        return;
      }
      var r := A.Viewed(monitors[selmon.value], ui);
      if r.Some? {
        StoreTags(selmon.value, r.value, urgent);
      }
    }

    /** `toggleview` */
    method ToggleTags(ui: Word, urgent: set<WorkspaceId>)
      requires Valid() && A.Tidy(Desk())
      modifies this, server, server.resources
      ensures Valid() && server.resources == old(server.resources)
      ensures Desk() == A.ToggleTags(old(Desk()), ui, urgent)
    {
      if selmon == None {
        return;
      }
      var r := A.Toggled(monitors[selmon.value], ui);
      if r.Some? {
        StoreTags(selmon.value, r.value, urgent);
      }
    }

    /** `ipc_output_handle_set_tags` */
    method SetTags(id: nat, mask: Word, toggle: bool, urgent: set<WorkspaceId>)
      requires Valid() && A.Tidy(Desk()) && id in monitors
      modifies this, server, server.resources
      ensures Valid() && server.resources == old(server.resources)
      ensures Desk() == A.SetTags(old(Desk()), id, mask, toggle, urgent)
    {
      StoreTags(id, A.Retagged(monitors[id], mask, toggle), urgent);
    }

    /** The monitor is put on the list, with tag 1 in both slots. */
    method ListMonitor(g: GroupId)
      modifies this`order, this`monitors, this`nextMon
      ensures Desk() == old(Desk()).(order := [old(nextMon)] + old(order), nextMon := old(nextMon) + 1,
                                     monitors := old(monitors)[old(nextMon) := A.Monitor([Bit(0), Bit(0)], 0, g)])
    {
      order := [nextMon] + order;
      monitors := monitors[nextMon := A.Monitor([Bit(0), Bit(0)], 0, g)];
      nextMon := nextMon + 1;
    }

    /** The monitor is put on the list; `ext_workspace_createmon` gives it a group and workspaces. */
    method AddMonitor()
      requires Valid()
      modifies this, server, server.resources
      ensures Valid() && server.resources == old(server.resources)
      ensures Desk() == R.AddMonitor(old(Desk()))
    {
      var id := nextMon;
      var g := server.CreateGroup(0);
      ListMonitor(g);
      CreateTags(id, g);
    }

    /** `createmon`, as far as the workspaces are concerned. */
    method CreateMonitor(urgent: set<WorkspaceId>)
      requires Valid() && A.Consistent(Desk())
      modifies this, server, server.resources
      ensures Valid() && server.resources == old(server.resources)
      ensures Desk() == R.CreateMonitor(old(Desk()), urgent)
    {
      R.AddMonitorGood(Desk());
      AddMonitor();
      PrintStatus(urgent);
    }

    method CreateTags(id: nat, g: GroupId)
      requires Valid()
      modifies this`handles, server, server.resources
      ensures Valid() && server.resources == old(server.resources)
      ensures (server.Server(), handles) == R.CreateTags(old(server.Server()), old(handles), id, g, TAG_COUNT)
    {
      ghost var s, hs := server.Server(), handles;
      var tag := 1;
      while tag <= TAG_COUNT
        invariant 1 <= tag <= TAG_COUNT + 1 && Valid() && server.resources == old(server.resources)
        invariant (server.Server(), handles) == R.CreateTags(s, hs, id, g, tag - 1)
      {
        CreateTag(tag, id, g);
        tag := tag + 1;
      }
    }

    /** `ext_workspace_create` */
    method CreateTag(tag: nat, id: nat, g: GroupId)
      requires Valid() && 1 <= tag <= TAG_COUNT
      modifies this`handles, server, server.resources
      ensures Valid() && server.resources == old(server.resources)
      ensures server.Server() == R.CreateTag(old(server.Server()), tag, g)
      ensures handles == old(handles) + [A.Handle(tag, id, old(server.next))]
    {
      ghost var s := server.Server();
      var w := server.CreateWorkspace(Some(R.TagName(tag)), A.WORKSPACE_CAPS);
      ghost var a := S.CreateWorkspace(s, Some(R.TagName(tag)), A.WORKSPACE_CAPS);
      assert server.info == a.info;
      server.SetGroup(w, Some(g));
      assert server.info == S.SetGroup(a, w, Some(g)).info;
      server.SetName(w, R.TagName(tag));
      handles := handles + [A.Handle(tag, id, w)];
    }

    /** The search and the call that the two live cases of `handle_ext_commit` have in common. */
    method ReactOn(w: WorkspaceId, activate: bool, urgent: set<WorkspaceId>)
      requires Valid() && A.Tidy(Desk())
      modifies this, server, server.resources
      ensures Valid() && server.resources == old(server.resources)
      ensures var d := old(Desk()); var i := A.FindHandle(d.handles, w, 0);
              Desk() == if i == None then d
                        else if activate then A.ViewTags(d, A.TagBit(d.handles[i.value].tag), urgent)
                        else A.ToggleTags(d, A.TagBit(d.handles[i.value].tag), urgent)
    {
      var i := FindHandle(w);
      if i == None {
        return;
      }
      var ui := A.TagBit(handles[i.value].tag);
      if activate {
        ViewTags(ui, urgent);
      } else {
        ToggleTags(ui, urgent);
      }
    }

    /** `handle_ext_commit` on one request. */
    method React(r: S.Request, urgent: set<WorkspaceId>)
      requires Valid() && A.Tidy(Desk())
      modifies this, server, server.resources
      ensures Valid() && server.resources == old(server.resources)
      ensures Desk() == A.React(old(Desk()), r, urgent)
    {
      match r
      case Activate(Some(w)) => ReactOn(w, true, urgent);
      case Deactivate(Some(w)) => ReactOn(w, false, urgent);
      case _ =>
    }

    /** One turn of `handle_ext_commit`; the queues stay as they are. */
    method ReactToRequest(k: nat, i: nat, urgent: set<WorkspaceId>)
      requires Valid() && R.Good(Desk()) && k < |server.resources| && i < |server.resources[k].requests|
      modifies this, server, server.resources
      ensures Valid() && server.resources == old(server.resources)
      ensures Desk() == A.React(old(Desk()), old(server.resources[k].requests[i]), urgent) && R.Good(Desk())
      ensures server.resources[k].requests == old(server.resources[k].requests)
    {
      ghost var before := Desk();
      var r := server.resources[k].requests[i];
      assert server.resources[k].Contents() == before.server.managers[k];
      A.ReactMatches(before, r, urgent);
      R.ReactQueues(before, r, urgent);
      React(r, urgent);
      assert server.resources[k].Contents() == Desk().server.managers[k];
    }

    /** The loop of `handle_ext_commit`: the queue in order. */
    method ReactToQueue(k: nat, urgents: seq<set<WorkspaceId>>)
      requires Valid() && R.Good(Desk()) && R.Possible(Desk(), R.CommitRequests(k, urgents))
      modifies this, server, server.resources
      ensures Valid() && server.resources == old(server.resources)
      ensures k < |old(Desk()).server.managers|
      ensures Desk() == A.ReactAll(old(Desk()), old(Desk()).server.managers[k].requests, urgents)
    {
      ghost var d, rs := Desk(), Desk().server.managers[k].requests;
      assert server.resources[k].Contents() == d.server.managers[k];
      var i := 0;
      assert rs[0..] == rs && urgents[0..] == urgents;
      while i < |server.resources[k].requests|
        invariant 0 <= i <= |rs| && Valid() && server.resources == old(server.resources)
        invariant R.Good(Desk()) && server.resources[k].requests == rs
        invariant A.ReactAll(Desk(), rs[i..], urgents[i..]) == A.ReactAll(d, rs, urgents)
        decreases |rs| - i
      {
        assert rs[i..][1..] == rs[i + 1..] && urgents[i..][1..] == urgents[i + 1..];
        ReactToRequest(k, i, urgents[i]);
        i := i + 1;
      }
    }

    /** `manager_handle_commit`: the compositor reacts, then the queue is dropped. */
    method Commit(k: nat, urgents: seq<set<WorkspaceId>>)
      requires Valid() && R.Good(Desk()) && R.Possible(Desk(), R.CommitRequests(k, urgents))
      modifies this, server, server.resources
      ensures Valid() && server.resources == old(server.resources)
      ensures Desk() == R.Process(old(Desk()), R.CommitRequests(k, urgents))
    {
      ReactToQueue(k, urgents);
      server.Commit(k);
    }

    method FindHandle(w: WorkspaceId) returns (r: Option<nat>)
      ensures r == A.FindHandle(handles, w, 0)
    {
      var i := 0;
      while i < |handles|
        invariant 0 <= i <= |handles|
        invariant A.FindHandle(handles, w, 0) == A.FindHandle(handles, w, i)
      {
        if handles[i].w == w {
          return Some(i);
        }
        i := i + 1;
      }
      return None;
    }

    /** The loop of `ext_workspace_cleanupmon`: the workspaces of the monitor. */
    method DestroyTags(id: nat)
      requires Valid() && A.ValidHandles(server.Server(), handles)
      modifies this`handles, server, server.resources
      ensures Valid() && server.resources == old(server.resources)
      ensures server.Server() == R.DestroyTags(old(server.Server()), old(handles), id)
      ensures handles == R.Others(old(handles), id)
    {
      var todo, kept := handles, [];
      ghost var s := server.Server();
      while todo != []
        invariant Valid() && server.resources == old(server.resources)
        invariant A.ValidHandles(server.Server(), todo)
        invariant R.DestroyTags(s, old(handles), id) == R.DestroyTags(server.Server(), todo, id)
        invariant R.Others(old(handles), id) == kept + R.Others(todo, id)
        decreases |todo|
      {
        var h := todo[0];
        R.TailHandles(server.Server(), todo);
        if h.mon == id {
          R.DestroyOne(server.Server(), todo);
          assert server.info == server.Server().info;
          server.DestroyWorkspace(h.w);
        } else {
          kept := kept + [h];
        }
        todo := todo[1..];
      }
      handles := kept;
    }

    /** `ext_workspace_cleanupmon`: the workspaces of the monitor, then its group. */
    method CleanupMonitor(id: nat, g: GroupId)
      requires Valid() && A.ValidHandles(server.Server(), handles)
      modifies this`handles, server, server.resources
      ensures Valid() && server.resources == old(server.resources)
      ensures S.Tabled(R.DestroyTags(old(server.Server()), old(handles), id))
      ensures server.Server() == S.DestroyGroup(R.DestroyTags(old(server.Server()), old(handles), id), g)
      ensures handles == R.Others(old(handles), id)
    {
      DestroyTags(id);
      server.DestroyGroup(g);
    }

    method Unlist(id: nat, next: Option<nat>)
      modifies this
      ensures Desk() == R.Unlisted(old(Desk()), id, next)
    {
      order := Without(order, id);
      monitors := monitors - {id};
      selmon := next;
    }

    /** `cleanupmon`: the monitor leaves the list, `closemon` prints the status, then the cleanup. */
    method RemoveMonitor(id: nat, next: Option<nat>, urgent: set<WorkspaceId>)
      requires Valid() && A.Consistent(Desk()) && id in monitors
      modifies this, server, server.resources
      ensures Valid() && server.resources == old(server.resources)
      ensures Desk() == R.RemoveMonitor(old(Desk()), id, next, urgent)
    {
      R.UnlistedPrintable(Desk(), id, next);
      var g := monitors[id].group;
      Unlist(id, next);
      ghost var x := Desk();
      PrintStatus(urgent);
      assert server.Server().info.Keys == x.server.info.Keys;
      CleanupMonitor(id, g);
    }
  }
}

// Replication agreement: what every run of the server keeps for every client.

module ExtAgreement {
  import opened Lists
  import opened ExtProtocol
  import opened ExtServer

  /** The server's own tables: ids are unique and below `next`, and membership refers to live groups. */
  ghost predicate Sound(s: Server) {
    && NoDuplicates(s.groups) && NoDuplicates(s.workspaces)
    && (forall g :: g in s.groups <==> g in s.caps)
    && (forall w :: w in s.workspaces <==> w in s.info)
    && (forall g | g in s.caps :: g < s.next)
    && (forall w | w in s.info :: w < s.next)
    && (forall w | w in s.info && s.info[w].group.Some? :: s.info[w].group.value in s.caps)
  }

  function SeenNow(x: Workspace): Seen {
    Seen(x.caps, x.name, x.id, x.state)
  }

  /** The view is the server state, cut down to the handles that the manager holds. */
  ghost predicate Agrees(v: View, s: Server, m: Manager) {
    && (forall g :: g in v.groups <==> g in m.groups)
    && (forall g | g in m.groups :: g in s.caps && v.groups[g] == s.caps[g])
    && (forall w :: w in v.workspaces <==> w in m.workspaces)
    && (forall w | w in m.workspaces :: w in s.info && v.workspaces[w] == SeenNow(s.info[w]))
    && (forall p | p in v.members :: p.0 in m.groups && p.1 in m.workspaces && s.info[p.1].group == Some(p.0))
    && (forall w | w in m.workspaces && s.info[w].group.Some? && s.info[w].group.value in m.groups ::
          (s.info[w].group.value, w) in v.members)
    && !v.finished
  }

  /** No id is announced before it exists. */
  ghost predicate Bounded(v: View, next: nat) {
    && (forall g | g in v.oldGroups :: g < next)
    && (forall w | w in v.oldWorkspaces :: w < next)
  }

  /** The strict client accepts the whole history, and folding it gives the server state. */
  ghost predicate InSync(s: Server, m: Manager) {
    Accepted(m.log) && Agrees(Fold(m.log), s, m) && Bounded(Fold(m.log), s.next)
  }

  /** A change of the server that a manager's view does not show. */
  lemma InSyncFrame(s: Server, t: Server, m: Manager)
    requires InSync(s, m) && s.next <= t.next
    requires forall g | g in m.groups :: g in t.caps && t.caps[g] == s.caps[g]
    requires forall w | w in m.workspaces :: w in t.info && t.info[w] == s.info[w]
    ensures InSync(t, m)
  {
  }

  lemma GiveGroupInSync(s: Server, m: Manager, g: GroupId)
    requires InSync(s, m) && g in s.caps && g < s.next && g !in Fold(m.log).oldGroups
    requires forall w | w in m.workspaces :: s.info[w].group != Some(g)
    ensures InSync(s, GiveGroup(m, g, s.caps[g]))
    ensures Fold(GiveGroup(m, g, s.caps[g]).log).oldGroups == Fold(m.log).oldGroups + {g}
    ensures Fold(GiveGroup(m, g, s.caps[g]).log).oldWorkspaces == Fold(m.log).oldWorkspaces
  {
    MembersAreHeld(m.log);
    Append(m.log, Sent(NewGroup(g)));
    Append(m.log + [Sent(NewGroup(g))], Sent(GroupCapabilities(g, s.caps[g])));
  }

  /** One detail of workspace `w`, as the view records it. */
  function Detailed(e: Event, a: Seen): Seen {
    match e
    case Capabilities(_, caps) => a.(caps := caps)
    case Name(_, name) => a.(name := Some(name))
    case Id(_, id) => a.(id := Some(id))
    case State(_, state) => a.(state := state)
    case _ => a
  }

  lemma SendDetailLearned(v: View, m: Manager, w: WorkspaceId, e: Event, a: Seen)
    requires Accepted(m.log) && !v.finished && Fold(m.log) == Update(v, w, a)
    requires (e.Capabilities? || e.Name? || (e.Id? && a.id == None) || e.State?) && e.w == w
    ensures Accepted(Send(m, e).log) && Fold(Send(m, e).log) == Update(v, w, Detailed(e, a))
  {
    Append(m.log, Sent(e));
    assert v.workspaces[w := a][w := Detailed(e, a)] == v.workspaces[w := Detailed(e, a)];
  }

  lemma MaybeNameLearned(v: View, m: Manager, w: WorkspaceId, name: Option<string>, a: Seen)
    requires Accepted(m.log) && !v.finished && Fold(m.log) == Update(v, w, a) && a.name == None
    ensures Accepted(MaybeName(m, w, name).log) && Fold(MaybeName(m, w, name).log) == Update(v, w, a.(name := name))
  {
    if name.Some? {
      SendDetailLearned(v, m, w, Name(w, name.value), a);
    }
  }

  lemma MaybeIdLearned(v: View, m: Manager, w: WorkspaceId, id: Option<string>, a: Seen)
    requires Accepted(m.log) && !v.finished && Fold(m.log) == Update(v, w, a) && a.id == None
    ensures Accepted(MaybeId(m, w, id).log) && Fold(MaybeId(m, w, id).log) == Update(v, w, a.(id := id))
  {
    if id.Some? {
      SendDetailLearned(v, m, w, Id(w, id.value), a);
    }
  }

  /** What the details of a fresh handle leave in the view. */
  lemma SendDetailsLearned(m: Manager, w: WorkspaceId, x: Workspace, v: View)
    requires Accepted(m.log) && Fold(m.log) == Update(v, w, Seen(0, None, None, {})) && !v.finished
    ensures Accepted(SendDetails(m, w, x).log)
    ensures Fold(SendDetails(m, w, x).log) == Update(v, w, SeenNow(x))
  {
    SendDetailLearned(v, m, w, Capabilities(w, x.caps), Seen(0, None, None, {}));
    var m1 := Send(m, Capabilities(w, x.caps));
    MaybeNameLearned(v, m1, w, x.name, Seen(x.caps, None, None, {}));
    var m2 := MaybeName(m1, w, x.name);
    MaybeIdLearned(v, m2, w, x.id, Seen(x.caps, x.name, None, {}));
    SendDetailLearned(v, MaybeId(m2, w, x.id), w, State(w, x.state), Seen(x.caps, x.name, x.id, {}));
  }

  /** A workspace that is in no group enters one. */
  lemma EnterInSync(s: Server, t: Server, m: Manager, g: GroupId, w: WorkspaceId)
    requires InSync(s, m) && w in s.info && s.info[w].group == None
    requires t.info == s.info[w := s.info[w].(group := Some(g))] && t.caps == s.caps && t.next == s.next
    ensures InSync(t, SendEnter(m, g, w))
    ensures Fold(SendEnter(m, g, w).log).oldGroups == Fold(m.log).oldGroups
    ensures Fold(SendEnter(m, g, w).log).oldWorkspaces == Fold(m.log).oldWorkspaces
  {
    Append(m.log, Sent(Enter(g, w)));
  }

  /** A workspace leaves the group it is in. */
  lemma LeaveInSync(s: Server, t: Server, m: Manager, g: GroupId, w: WorkspaceId)
    requires InSync(s, m) && w in s.info && s.info[w].group == Some(g)
    requires t.info == s.info[w := s.info[w].(group := None)] && t.caps == s.caps && t.next == s.next
    ensures InSync(t, SendLeave(m, g, w))
  {
    Append(m.log, Sent(Leave(g, w)));
  }

  /** A handle for a workspace, with its details: in no group so far. */
  lemma AnnounceInSync(s: Server, m: Manager, w: WorkspaceId, x: Workspace)
    requires InSync(s, m) && w in s.info && w < s.next && w !in Fold(m.log).oldWorkspaces
    requires s.info[w] == x.(group := None)
    ensures InSync(s, Announce(m, w, x))
    ensures Fold(Announce(m, w, x).log).oldGroups == Fold(m.log).oldGroups
    ensures Fold(Announce(m, w, x).log).oldWorkspaces == Fold(m.log).oldWorkspaces + {w}
  {
    MembersAreHeld(m.log);
    Append(m.log, Sent(NewWorkspace(w)));
    var v := Fold(m.log).(oldWorkspaces := Fold(m.log).oldWorkspaces + {w});
    SendDetailsLearned(Send(m.(workspaces := m.workspaces + {w}), NewWorkspace(w)), w, x, v);
  }

  lemma GiveWorkspaceInSync(s: Server, m: Manager, w: WorkspaceId)
    requires InSync(s, m) && w in s.info && w < s.next && w !in Fold(m.log).oldWorkspaces
    ensures InSync(s, GiveWorkspace(m, w, s.info[w]))
    ensures Fold(GiveWorkspace(m, w, s.info[w]).log).oldGroups == Fold(m.log).oldGroups
    ensures Fold(GiveWorkspace(m, w, s.info[w]).log).oldWorkspaces == Fold(m.log).oldWorkspaces + {w}
  {
    var x := s.info[w];
    var s0 := s.(info := s.info[w := x.(group := None)]);
    MembersAreHeld(m.log);
    InSyncFrame(s, s0, m);
    AnnounceInSync(s0, m, w, x);
    if x.group.Some? {
      EnterInSync(s0, s, Announce(m, w, x), x.group.value, w);
    } else {
      assert s0.info == s.info;
    }
  }

  /** Moving a workspace: leave, then enter, each only for a manager that holds both handles. */
  lemma MoveInSync(s: Server, t: Server, m: Manager, w: WorkspaceId, now: Option<GroupId>)
    requires InSync(s, m) && w in s.info && s.info[w].group != now
    requires t.info == s.info[w := s.info[w].(group := now)] && t.caps == s.caps && t.next == s.next
    ensures InSync(t, Move(m, w, s.info[w].group, now))
  {
    var was := s.info[w].group;
    var m1 := if was.Some? then SendLeave(m, was.value, w) else m;
    var s1 := s.(info := s.info[w := s.info[w].(group := None)]);
    if was.Some? {
      LeaveInSync(s, s1, m, was.value, w);
    }
    assert s1.info == s.info || was.Some?;
    if now.Some? {
      assert t.info == s1.info[w := s1.info[w].(group := now)];
      EnterInSync(s1, t, m1, now.value, w);
    }
  }

  lemma SendNameInSync(s: Server, t: Server, m: Manager, w: WorkspaceId, name: string)
    requires InSync(s, m) && w in s.info
    requires t.info == s.info[w := s.info[w].(name := Some(name))] && t.caps == s.caps && t.next == s.next
    ensures InSync(t, SendName(m, w, name))
  {
    Append(m.log, Sent(Name(w, name)));
  }

  lemma SendStateInSync(s: Server, t: Server, m: Manager, w: WorkspaceId, state: set<Flag>)
    requires InSync(s, m) && w in s.info
    requires t.info == s.info[w := s.info[w].(state := state)] && t.caps == s.caps && t.next == s.next
    ensures InSync(t, SendState(m, w, state))
  {
    Append(m.log, Sent(State(w, state)));
  }

  lemma LoseGroupInSync(s: Server, t: Server, m: Manager, g: GroupId)
    requires InSync(s, m) && (forall w | w in s.info :: s.info[w].group != Some(g))
    requires t.caps == s.caps - {g} && t.info == s.info && t.next == s.next
    ensures InSync(t, LoseGroup(m, g))
  {
    Append(m.log, Sent(GroupRemoved(g)));
    assert g in m.groups ==> !HasMembers(Fold(m.log), g);
  }

  lemma LoseWorkspaceInSync(s: Server, t: Server, m: Manager, w: WorkspaceId)
    requires InSync(s, m) && w in s.info && s.info[w].group == None
    requires t.info == s.info - {w} && t.caps == s.caps && t.next == s.next
    ensures InSync(t, LoseWorkspace(m, w))
  {
    Append(m.log, Sent(WorkspaceRemoved(w)));
    assert w in m.workspaces ==> !InSomeGroup(Fold(m.log), w);
  }

  lemma DestroyGroupHandleInSync(s: Server, m: Manager, g: GroupId)
    requires InSync(s, m)
    ensures InSync(s, DestroyGroupHandle(m, g))
  {
    Append(m.log, DroppedGroup(g));
  }

  lemma DestroyWorkspaceHandleInSync(s: Server, m: Manager, w: WorkspaceId)
    requires InSync(s, m)
    ensures InSync(s, DestroyWorkspaceHandle(m, w))
  {
    Append(m.log, DroppedWorkspace(w));
  }

  lemma SendDoneInSync(s: Server, m: Manager)
    requires InSync(s, m)
    ensures InSync(s, Send(m, Done))
  {
    Append(m.log, Sent(Done));
  }
}

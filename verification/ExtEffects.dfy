// What each step of the workspace server achieves, in terms of its tables, of the histories of its
// clients and of their queues: the effect of a step, whatever way the step is computed.

module ExtEffects {
  import opened Lists
  import opened ExtProtocol
  import opened ExtServer
  import opened ExtAgreement
  import opened ExtRuns

  /** The objects of the two servers are the same, and the same histories have ended. */
  ghost predicate SameObjects(s: Server, t: Server) {
    && t.groups == s.groups && t.caps == s.caps && t.workspaces == s.workspaces && t.info == s.info
    && t.next == s.next && t.retired == s.retired
  }

  /** The manager has got `events`, in this order, and nothing else of it has changed. */
  ghost predicate Got(m: Manager, r: Manager, events: Log) {
    r == m.(log := m.log + events)
  }

  /** A manager is told about the pair only if it holds both handles. */
  function IfHeld(m: Manager, g: GroupId, w: WorkspaceId, e: Event): Log {
    if g in m.groups && w in m.workspaces then [Sent(e)] else []
  }

  // ----- creation ------------------------------------------------------------------------

  /** Every client learns of the new group and of its capabilities, and gets a handle for it. */
  lemma CreateGroupEffect(s: Server, caps: nat)
    requires Tabled(s)
    ensures var t, g := Next(s, DoCreateGroup(caps)), s.next;
            && t.groups == s.groups + [g] && t.caps == s.caps[g := caps] && t.next == g + 1 && t.idle
            && t.workspaces == s.workspaces && t.info == s.info && t.retired == s.retired
            && |t.managers| == |s.managers|
            && forall k | 0 <= k < |s.managers| ::
                 Got(s.managers[k].(groups := s.managers[k].groups + {g}), t.managers[k],
                     [Sent(NewGroup(g)), Sent(GroupCapabilities(g, caps))])
  {
    var t, g := Next(s, DoCreateGroup(caps)), s.next;
    forall k | 0 <= k < |s.managers|
      ensures Got(s.managers[k].(groups := s.managers[k].groups + {g}), t.managers[k],
                  [Sent(NewGroup(g)), Sent(GroupCapabilities(g, caps))])
    {
      var log := s.managers[k].log;
      assert (log + [Sent(NewGroup(g))]) + [Sent(GroupCapabilities(g, caps))]
             == log + [Sent(NewGroup(g)), Sent(GroupCapabilities(g, caps))];
    }
  }

  /** What a client is told about a workspace that is in no group. */
  function Details(w: WorkspaceId, x: Workspace): Log {
    [Sent(NewWorkspace(w)), Sent(Capabilities(w, x.caps))]
    + (if x.name.Some? then [Sent(Name(w, x.name.value))] else [])
    + (if x.id.Some? then [Sent(Id(w, x.id.value))] else [])
    + [Sent(State(w, x.state))]
  }

  lemma AnnounceLog(m: Manager, w: WorkspaceId, x: Workspace)
    ensures Got(m.(workspaces := m.workspaces + {w}), Announce(m, w, x), Details(w, x))
  {
    var a := m.log + [Sent(NewWorkspace(w))];
    var b := a + [Sent(Capabilities(w, x.caps))];
    var name := if x.name.Some? then [Sent(Name(w, x.name.value))] else [];
    var id := if x.id.Some? then [Sent(Id(w, x.id.value))] else [];
    assert b == m.log + [Sent(NewWorkspace(w)), Sent(Capabilities(w, x.caps))];
    assert Announce(m, w, x).log == ((b + name) + id) + [Sent(State(w, x.state))];
    assert ((b + name) + id) + [Sent(State(w, x.state))] == m.log + Details(w, x);
  }

  /** A new workspace has the id and capabilities asked for, no name, no group and no state bit. */
  lemma CreateWorkspaceEffect(s: Server, id: Option<string>, caps: nat)
    requires Tabled(s)
    ensures var t, w := Next(s, DoCreateWorkspace(id, caps)), s.next;
            && t.workspaces == s.workspaces + [w] && t.next == w + 1 && t.idle
            && t.info == s.info[w := Workspace(id, caps, None, None, {})]
            && t.groups == s.groups && t.caps == s.caps && t.retired == s.retired
            && |t.managers| == |s.managers|
            && forall k | 0 <= k < |s.managers| ::
                 Got(s.managers[k].(workspaces := s.managers[k].workspaces + {w}), t.managers[k],
                     [Sent(NewWorkspace(w)), Sent(Capabilities(w, caps))]
                     + (if id.Some? then [Sent(Id(w, id.value))] else []) + [Sent(State(w, {}))])
  {
    var t, w := Next(s, DoCreateWorkspace(id, caps)), s.next;
    forall k | 0 <= k < |s.managers|
      ensures Got(s.managers[k].(workspaces := s.managers[k].workspaces + {w}), t.managers[k],
                  [Sent(NewWorkspace(w)), Sent(Capabilities(w, caps))]
                  + (if id.Some? then [Sent(Id(w, id.value))] else []) + [Sent(State(w, {}))])
    {
      AnnounceLog(s.managers[k], w, t.info[w]);
      assert [Sent(NewWorkspace(w)), Sent(Capabilities(w, caps))] + []
             == [Sent(NewWorkspace(w)), Sent(Capabilities(w, caps))];
    }
  }

  // ----- changes -------------------------------------------------------------------------

  /** The leave and the enter that a manager gets when `w` goes from `was` to `now`. */
  function Moved(m: Manager, w: WorkspaceId, was: Option<GroupId>, now: Option<GroupId>): Log {
    (if was.Some? then IfHeld(m, was.value, w, Leave(was.value, w)) else [])
    + (if now.Some? then IfHeld(m, now.value, w, Enter(now.value, w)) else [])
  }

  /** The workspace is in the group asked for, and nothing else about it has changed. */
  lemma SetGroupEffect(s: Server, w: WorkspaceId, now: Option<GroupId>)
    requires Tabled(s) && Enabled(s, DoSetGroup(w, now))
    ensures w in s.info
    ensures var t := Next(s, DoSetGroup(w, now));
            && t.info == s.info[w := s.info[w].(group := now)]
            && t.groups == s.groups && t.caps == s.caps && t.workspaces == s.workspaces
            && t.next == s.next && t.retired == s.retired
            && (t.idle <==> s.idle || s.info[w].group != now)
            && |t.managers| == |s.managers|
            && forall k | 0 <= k < |s.managers| ::
                 Got(s.managers[k], t.managers[k],
                     if s.info[w].group == now then [] else Moved(s.managers[k], w, s.info[w].group, now))
  {
    var t := Next(s, DoSetGroup(w, now));
    var was := s.info[w].group;
    assert was == now ==> s.info[w := s.info[w].(group := now)] == s.info;
    forall k | 0 <= k < |s.managers|
      ensures Got(s.managers[k], t.managers[k], if was == now then [] else Moved(s.managers[k], w, was, now))
    {
      var m := s.managers[k];
      assert m.log + [] == m.log;
      if was != now {
        MoveLog(m, w, was, now);
      }
    }
  }

  lemma MoveLog(m: Manager, w: WorkspaceId, was: Option<GroupId>, now: Option<GroupId>)
    ensures Got(m, Move(m, w, was, now), Moved(m, w, was, now))
  {
    var left := if was.Some? then IfHeld(m, was.value, w, Leave(was.value, w)) else [];
    var entered := if now.Some? then IfHeld(m, now.value, w, Enter(now.value, w)) else [];
    var m1 := if was.Some? then SendLeave(m, was.value, w) else m;
    assert m1 == m.(log := m.log + left) by {
      assert m.log + [] == m.log;
    }
    assert Move(m, w, was, now) == m1.(log := m1.log + entered) by {
      assert m1.log + [] == m1.log;
    }
    assert (m.log + left) + entered == m.log + (left + entered);
  }

  /** The workspace has the name, and every client that holds it has been told, unless it had it already. */
  lemma SetNameEffect(s: Server, w: WorkspaceId, name: string)
    requires Tabled(s) && Enabled(s, DoSetName(w, name))
    ensures w in s.info
    ensures var t := Next(s, DoSetName(w, name));
            var other := s.info[w].name != Some(name);
            && t.info == s.info[w := s.info[w].(name := Some(name))]
            && t.groups == s.groups && t.caps == s.caps && t.workspaces == s.workspaces
            && t.next == s.next && t.retired == s.retired && (t.idle <==> s.idle || other)
            && |t.managers| == |s.managers|
            && forall k | 0 <= k < |s.managers| ::
                 Got(s.managers[k], t.managers[k],
                     if other && w in s.managers[k].workspaces then [Sent(Name(w, name))] else [])
  {
    assert s.info[w].name == Some(name) ==> s.info[w := s.info[w].(name := Some(name))] == s.info;
    assert forall m: Manager :: m.log + [] == m.log;
  }

  /** The bit is as asked for, the others as before; clients that hold the workspace get the new word. */
  lemma SetStateEffect(s: Server, w: WorkspaceId, flag: Flag, enabled: bool)
    requires Tabled(s) && Enabled(s, DoSetState(w, flag, enabled))
    ensures w in s.info
    ensures var t := Next(s, DoSetState(w, flag, enabled));
            && w in t.info && t.info == s.info[w := s.info[w].(state := t.info[w].state)]
            && (forall f :: f in t.info[w].state <==> if f == flag then enabled else f in s.info[w].state)
            && t.groups == s.groups && t.caps == s.caps && t.workspaces == s.workspaces
            && t.next == s.next && t.retired == s.retired
            && (t.idle <==> s.idle || t.info[w].state != s.info[w].state)
            && |t.managers| == |s.managers|
            && forall k | 0 <= k < |s.managers| ::
                 Got(s.managers[k], t.managers[k],
                     if t.info[w].state != s.info[w].state && w in s.managers[k].workspaces
                     then [Sent(State(w, t.info[w].state))] else [])
  {
    assert forall m: Manager :: m.log + [] == m.log;
  }

  // ----- destruction ---------------------------------------------------------------------

  function WorkspaceOf(r: Request): Option<WorkspaceId> {
    match r
    case CreateWorkspaceIn(_, _) => None
    case Activate(w) => w
    case Deactivate(w) => w
    case Assign(w, _) => w
    case Remove(w) => w
  }

  function GroupOf(r: Request): Option<GroupId> {
    match r
    case CreateWorkspaceIn(_, g) => g
    case Assign(_, g) => g
    case _ => None
  }

  /** Request for request the queue is the same, but no reference to `w` is left. */
  ghost predicate WithoutWorkspaceRefs(m: Manager, r: Manager, w: WorkspaceId) {
    && |r.requests| == |m.requests| && r.made == m.made && r.delivered == m.delivered
    && forall i | 0 <= i < |m.requests| ::
         && Erased(m.requests[i], r.requests[i]) && GroupOf(r.requests[i]) == GroupOf(m.requests[i])
         && WorkspaceOf(r.requests[i]) == if WorkspaceOf(m.requests[i]) == Some(w) then None
                                          else WorkspaceOf(m.requests[i])
  }

  ghost predicate WithoutGroupRefs(m: Manager, r: Manager, g: GroupId) {
    && |r.requests| == |m.requests| && r.made == m.made && r.delivered == m.delivered
    && forall i | 0 <= i < |m.requests| ::
         && Erased(m.requests[i], r.requests[i]) && WorkspaceOf(r.requests[i]) == WorkspaceOf(m.requests[i])
         && GroupOf(r.requests[i]) == if GroupOf(m.requests[i]) == Some(g) then None else GroupOf(m.requests[i])
  }

  /**
   * The workspace is gone: from the tables, from every client's handles and from every queue. A client
   * that held it is told that it left its group, if it holds that group, and then that it is removed.
   */
  lemma DestroyWorkspaceEffect(s: Server, w: WorkspaceId)
    requires Inv(s) && Enabled(s, DoDestroyWorkspace(w))
    ensures w in s.info
    ensures var t := Next(s, DoDestroyWorkspace(w));
            && t.info == s.info - {w} && w !in t.workspaces && w !in t.info
            && (forall x | x != w :: x in t.workspaces <==> x in s.workspaces)
            && t.groups == s.groups && t.caps == s.caps && t.next == s.next && t.retired == s.retired && t.idle
            && |t.managers| == |s.managers|
            && forall k | 0 <= k < |s.managers| ::
                 var m, r := s.managers[k], t.managers[k];
                 && r.groups == m.groups && r.workspaces == m.workspaces - {w}
                 && WithoutWorkspaceRefs(m, r, w)
                 && r.log == m.log + Moved(m, w, s.info[w].group, None)
                             + (if w in m.workspaces then [Sent(WorkspaceRemoved(w))] else [])
  {
    var t, v := Next(s, DoDestroyWorkspace(w)), SetGroup(s, w, None);
    SetGroupEffect(s, w, None);
    assert v.info - {w} == s.info - {w};
    forall k | 0 <= k < |s.managers|
      ensures var m, r := s.managers[k], t.managers[k];
              && r.groups == m.groups && r.workspaces == m.workspaces - {w}
              && WithoutWorkspaceRefs(m, r, w)
              && r.log == m.log + Moved(m, w, s.info[w].group, None)
                          + (if w in m.workspaces then [Sent(WorkspaceRemoved(w))] else [])
    {
      var m := s.managers[k];
      assert Got(m, v.managers[k], Moved(m, w, s.info[w].group, None));
      assert t.managers[k] == LoseWorkspace(v.managers[k], w);
      LoseWorkspaceLog(v.managers[k], w);
    }
  }

  lemma LoseWorkspaceLog(m: Manager, w: WorkspaceId)
    ensures var r := LoseWorkspace(m, w);
            && r.groups == m.groups && r.workspaces == m.workspaces - {w} && WithoutWorkspaceRefs(m, r, w)
            && r.log == m.log + (if w in m.workspaces then [Sent(WorkspaceRemoved(w))] else [])
  {
    assert m.log + [] == m.log;
    var r := LoseWorkspace(m, w);
    forall i | 0 <= i < |m.requests|
      ensures && Erased(m.requests[i], r.requests[i]) && GroupOf(r.requests[i]) == GroupOf(m.requests[i])
              && WorkspaceOf(r.requests[i]) == if WorkspaceOf(m.requests[i]) == Some(w) then None
                                               else WorkspaceOf(m.requests[i])
    {
      assert r.requests[i] == ClearWorkspace(m.requests[i], w);
    }
  }

  lemma LoseGroupLog(m: Manager, g: GroupId)
    ensures var r := LoseGroup(m, g);
            && r.workspaces == m.workspaces && r.groups == m.groups - {g} && WithoutGroupRefs(m, r, g)
            && r.log == m.log + (if g in m.groups then [Sent(GroupRemoved(g))] else [])
  {
    assert m.log + [] == m.log;
    var r := LoseGroup(m, g);
    forall i | 0 <= i < |m.requests|
      ensures && Erased(m.requests[i], r.requests[i]) && WorkspaceOf(r.requests[i]) == WorkspaceOf(m.requests[i])
              && GroupOf(r.requests[i]) == if GroupOf(m.requests[i]) == Some(g) then None else GroupOf(m.requests[i])
    {
      assert r.requests[i] == ClearGroup(m.requests[i], g);
    }
  }

  /** The leaves that a manager gets for the members of `g` among the first `n` workspaces, in list order. */
  function LeaveEvents(s: Server, g: GroupId, m: Manager, n: nat): Log
    requires n <= |s.workspaces| && forall w | w in s.workspaces :: w in s.info
  {
    if n == 0 then []
    else
      LeaveEvents(s, g, m, n - 1)
      + (if s.info[s.workspaces[n - 1]].group == Some(g)
         then IfHeld(m, g, s.workspaces[n - 1], Leave(g, s.workspaces[n - 1])) else [])
  }

  /** The workspace after group `g` has been emptied. */
  function Ungrouped(x: Workspace, g: GroupId): Workspace {
    if x.group == Some(g) then x.(group := None) else x
  }

  /** What emptying the group has done after the first `n` workspaces. */
  ghost predicate VacatedUpTo(s: Server, t: Server, g: GroupId, n: nat)
    requires n <= |s.workspaces| && forall w | w in s.workspaces :: w in s.info
  {
    && t.info.Keys == s.info.Keys && t.groups == s.groups && t.caps == s.caps && t.workspaces == s.workspaces
    && t.next == s.next && t.retired == s.retired
    && (forall i | 0 <= i < n :: t.info[s.workspaces[i]] == Ungrouped(s.info[s.workspaces[i]], g))
    && (forall i | n <= i < |s.workspaces| :: t.info[s.workspaces[i]] == s.info[s.workspaces[i]])
    && |t.managers| == |s.managers|
    && forall k | 0 <= k < |s.managers| :: Got(s.managers[k], t.managers[k], LeaveEvents(s, g, s.managers[k], n))
  }

  /** One workspace more: its leave comes at the end, if it was in the group. */
  lemma LeaveNext(s: Server, g: GroupId, m: Manager, r: Manager, n: nat)
    requires n < |s.workspaces| && forall w | w in s.workspaces :: w in s.info
    requires Got(m, r, LeaveEvents(s, g, m, n))
    ensures var w := s.workspaces[n];
            Got(m, if s.info[w].group == Some(g) then Move(r, w, Some(g), None) else r, LeaveEvents(s, g, m, n + 1))
  {
    var w := s.workspaces[n];
    if s.info[w].group == Some(g) {
      MoveLog(r, w, Some(g), None);
      assert Moved(r, w, Some(g), None) == IfHeld(m, g, w, Leave(g, w));
      assert (m.log + LeaveEvents(s, g, m, n)) + IfHeld(m, g, w, Leave(g, w)) == m.log + LeaveEvents(s, g, m, n + 1);
    } else {
      assert LeaveEvents(s, g, m, n + 1) == LeaveEvents(s, g, m, n);
    }
  }

  /** One turn of the first loop of group destruction. */
  function Turn(t: Server, g: GroupId, w: WorkspaceId): Server
    requires w in t.info
  {
    if t.info[w].group == Some(g) then SetGroup(t, w, None) else t
  }

  lemma VacateNext(s: Server, t: Server, u: Server, g: GroupId, n: nat)
    requires Sound(s) && n < |s.workspaces| && VacatedUpTo(s, t, g, n)
    requires u == Turn(t, g, s.workspaces[n])
    ensures VacatedUpTo(s, u, g, n + 1)
  {
    var w := s.workspaces[n];
    assert t.info[w] == s.info[w];
    forall i | 0 <= i < |s.workspaces| ensures (i != n ==> s.workspaces[i] != w) && s.workspaces[i] in s.info {
      assert s.workspaces[i] in s.workspaces;
    }
    forall k | 0 <= k < |s.managers|
      ensures Got(s.managers[k], u.managers[k], LeaveEvents(s, g, s.managers[k], n + 1))
    {
      LeaveNext(s, g, s.managers[k], t.managers[k], n);
    }
  }

  lemma VacateStart(s: Server, g: GroupId)
    requires Sound(s)
    ensures VacatedUpTo(s, s, g, 0)
  {
    assert forall m: Manager :: m.log + [] == m.log;
  }

  /** Induction over the loop: whatever each turn takes from one workspace to the next holds after it. */
  lemma {:induction false} VacateBy(P: (nat, Server) -> bool, s: Server, g: GroupId, n: nat)
    requires n <= |s.workspaces| && (forall w | w in s.workspaces :: w in s.info) && P(0, s)
    requires forall i: nat, t | i < |s.workspaces| && P(i, t) && s.workspaces[i] in t.info ::
               P(i + 1, Turn(t, g, s.workspaces[i]))
    ensures P(n, Vacate(s, g, n))
  {
    if n > 0 {
      VacateBy(P, s, g, n - 1);
      assert s.workspaces[n - 1] in s.workspaces;
      assert Vacate(s, g, n) == Turn(Vacate(s, g, n - 1), g, s.workspaces[n - 1]);
    }
  }

  ghost function UpTo(s: Server, g: GroupId): (nat, Server) -> bool
    requires Sound(s)
  {
    (i: nat, t: Server) => i <= |s.workspaces| && VacatedUpTo(s, t, g, i)
  }

  lemma UpToNext(s: Server, g: GroupId, i: nat, t: Server)
    requires Sound(s) && i < |s.workspaces| && UpTo(s, g)(i, t) && s.workspaces[i] in t.info
    ensures UpTo(s, g)(i + 1, Turn(t, g, s.workspaces[i]))
  {
    VacateNext(s, t, Turn(t, g, s.workspaces[i]), g, i);
  }

  lemma VacateEffect(s: Server, g: GroupId) returns (t: Server)
    requires Sound(s)
    ensures t == Vacate(s, g, |s.workspaces|) && VacatedUpTo(s, t, g, |s.workspaces|)
  {
    t := Vacate(s, g, |s.workspaces|);
    VacateStart(s, g);
    forall i: nat, t | i < |s.workspaces| && UpTo(s, g)(i, t) && s.workspaces[i] in t.info
      ensures UpTo(s, g)(i + 1, Turn(t, g, s.workspaces[i]))
    {
      UpToNext(s, g, i, t);
    }
    VacateBy(UpTo(s, g), s, g, |s.workspaces|);
  }

  /**
   * The group is gone: from the tables, from every client's handles and from every queue; its workspaces
   * are in no group. A client that held it is told of every workspace that left, in list order, and then
   * that the group is removed.
   */
  lemma DestroyGroupEffect(s: Server, g: GroupId)
    requires Inv(s) && Enabled(s, DoDestroyGroup(g))
    ensures var t := Next(s, DoDestroyGroup(g));
            && t.caps == s.caps - {g} && g !in t.groups && g !in t.caps
            && (forall x | x != g :: x in t.groups <==> x in s.groups)
            && t.workspaces == s.workspaces && t.info.Keys == s.info.Keys
            && (forall w | w in s.info :: t.info[w] == Ungrouped(s.info[w], g))
            && t.next == s.next && t.retired == s.retired && t.idle
            && |t.managers| == |s.managers|
            && forall k | 0 <= k < |s.managers| ::
                 var m, r := s.managers[k], t.managers[k];
                 && r.workspaces == m.workspaces && r.groups == m.groups - {g}
                 && WithoutGroupRefs(m, r, g)
                 && r.log == m.log + LeaveEvents(s, g, m, |s.workspaces|)
                             + (if g in m.groups then [Sent(GroupRemoved(g))] else [])
  {
    var t := Next(s, DoDestroyGroup(g));
    var v := VacateEffect(s, g);
    forall w | w in s.info ensures t.info[w] == Ungrouped(s.info[w], g) {
      assert w in s.workspaces;
      var i :| 0 <= i < |s.workspaces| && s.workspaces[i] == w;
    }
    forall k | 0 <= k < |s.managers|
      ensures var m, r := s.managers[k], t.managers[k];
              && r.workspaces == m.workspaces && r.groups == m.groups - {g}
              && WithoutGroupRefs(m, r, g)
              && r.log == m.log + LeaveEvents(s, g, m, |s.workspaces|)
                          + (if g in m.groups then [Sent(GroupRemoved(g))] else [])
    {
      assert Got(s.managers[k], v.managers[k], LeaveEvents(s, g, s.managers[k], |s.workspaces|));
      LoseGroupLog(v.managers[k], g);
    }
  }

  // ----- clients and the event loop ------------------------------------------------------

  /** Every client gets `done`, and no callback is pending. */
  lemma IdleEffect(s: Server)
    requires Tabled(s) && Enabled(s, DoIdle)
    ensures var t := Next(s, DoIdle);
            && SameObjects(s, t) && !t.idle && |t.managers| == |s.managers|
            && forall k | 0 <= k < |s.managers| :: Got(s.managers[k], t.managers[k], [Sent(Done)])
  {
  }

  /** Only manager `k` has changed. */
  ghost predicate OnlyManager(s: Server, t: Server, k: nat)
    requires k < |s.managers|
  {
    && SameObjects(s, t) && t.idle == s.idle && |t.managers| == |s.managers|
    && forall j | 0 <= j < |s.managers| && j != k :: t.managers[j] == s.managers[j]
  }

  /** The handle is gone; the history records that the client dropped it, if it held it. */
  lemma DestroyHandleEffect(s: Server, k: nat, x: nat)
    requires Tabled(s) && k < |s.managers|
    ensures var m := s.managers[k];
            var t, u := Next(s, DoDestroyGroupHandle(k, x)), Next(s, DoDestroyWorkspaceHandle(k, x));
            && OnlyManager(s, t, k) && OnlyManager(s, u, k)
            && t.managers[k] == m.(groups := m.groups - {x},
                                   log := m.log + if x in m.groups then [DroppedGroup(x)] else [])
            && u.managers[k] == m.(workspaces := m.workspaces - {x},
                                   log := m.log + if x in m.workspaces then [DroppedWorkspace(x)] else [])
  {
    var m := s.managers[k];
    assert m.log + [] == m.log && (x !in m.groups ==> m.groups - {x} == m.groups);
    assert x !in m.workspaces ==> m.workspaces - {x} == m.workspaces;
  }

  /** The request that a client asks for, if every handle it is made on is live. */
  ghost predicate Asks(s: Server, m: Manager, ask: Ask, r: Request) {
    match ask
    case AskCreate(g, name) => g in m.groups && r == CreateWorkspaceIn(name, Some(g))
    case AskActivate(w) => w in m.workspaces && r == Activate(Some(w))
    case AskDeactivate(w) => w in m.workspaces && r == Deactivate(Some(w))
    case AskAssign(w, g, holder) =>
      && holder < |s.managers| && w in m.workspaces && g in s.managers[holder].groups
      && r == Assign(Some(w), Some(g))
    case AskRemove(w) => w in m.workspaces && r == Remove(Some(w))
  }

  /** A request on live handles goes to the end of its manager's queue; on an inert handle nothing happens. */
  lemma AskEffect(s: Server, k: nat, ask: Ask)
    requires Tabled(s) && Enabled(s, DoAsk(k, ask))
    ensures var m, t := s.managers[k], Next(s, DoAsk(k, ask));
            && OnlyManager(s, t, k)
            && ((exists r :: Asks(s, m, ask, r)) || t == s)
            && forall r | Asks(s, m, ask, r) ::
                 t.managers[k] == m.(requests := m.requests + [r], made := m.made + [r])
  {
    var m := s.managers[k];
    var q := Queued(s, m, ask);
    if q.Some? {
      assert Asks(s, m, ask, q.value);
    }
  }

  /** The queue has been handed over, in order, after what was handed over before, and is empty. */
  lemma CommitEffect(s: Server, k: nat)
    requires Tabled(s) && k < |s.managers|
    ensures var m, t := s.managers[k], Next(s, DoCommit(k));
            && OnlyManager(s, t, k)
            && t.managers[k] == m.(requests := [], delivered := m.delivered + m.requests)
  {
  }

  /** The manager is gone, the others keep their order; its history has ended, with finished if it was stopped. */
  lemma GoneEffect(s: Server, k: nat)
    requires Tabled(s) && k < |s.managers|
    ensures var m, t, u := s.managers[k], Next(s, DoStop(k)), Next(s, DoDisconnect(k));
            && t.managers == s.managers[..k] + s.managers[k + 1..] && u.managers == t.managers
            && t.retired == s.retired + [m.log + [Sent(Finished)]] && u.retired == s.retired + [m.log]
            && SameObjects(s, t.(retired := s.retired)) && SameObjects(s, u.(retired := s.retired))
            && t.idle == s.idle && u.idle == s.idle
  {
  }

  /**
   * A client that binds gets a handle for every group and every workspace; its view is the whole server
   * state, `done` comes last, and its queue is empty.
   */
  lemma BindEffect(s: Server)
    requires Inv(s)
    ensures var t := Next(s, DoBind);
            && SameObjects(s, t) && |t.managers| == |s.managers| + 1 && t.managers[1..] == s.managers
            && (t.idle <==> s.idle || s.groups != [] || s.workspaces != [])
            && var m := t.managers[0];
               var v := Fold(m.log);
               && m.requests == m.made == m.delivered == []
               && (forall g :: g in m.groups <==> g in s.groups)
               && (forall w :: w in m.workspaces <==> w in s.workspaces)
               && Accepted(m.log) && LastEvent(m.log) == Some(Done)
               && WholeView(s, v)
  {
    WelcomedInSync(s);
    WelcomedHandles(s);
    SeesAll(s, Welcomed(s));
    assert Next(s, DoBind).managers == [Welcomed(s)] + s.managers;
  }

  /** The view is the whole server state. */
  ghost predicate WholeView(s: Server, v: View) {
    && v.groups == s.caps && v.workspaces.Keys == s.info.Keys
    && (forall w | w in s.info :: v.workspaces[w] ==
          Seen(s.info[w].caps, s.info[w].name, s.info[w].id, s.info[w].state))
    && (forall g, w :: (g, w) in v.members <==> w in s.info && s.info[w].group == Some(g))
  }

  /** A client that holds every handle and is in sync sees everything. */
  lemma SeesAll(s: Server, m: Manager)
    requires Inv(s) && InSync(s, m)
    requires (forall g :: g in m.groups <==> g in s.groups) && forall w :: w in m.workspaces <==> w in s.workspaces
    ensures WholeView(s, Fold(m.log))
  {
    var v := Fold(m.log);
    assert v.groups.Keys == s.caps.Keys;
    forall g, w ensures (g, w) in v.members <==> w in s.info && s.info[w].group == Some(g) {
      assert (g, w) in v.members ==> g in m.groups && w in m.workspaces && s.info[w].group == Some(g);
    }
  }

  lemma {:induction false} GiveGroupsHandles(m: Manager, s: Server, n: nat)
    requires Tabled(s) && n <= |s.groups|
    ensures var r := GiveGroups(m, s, n);
            r.workspaces == m.workspaces && forall g :: g in r.groups <==> g in m.groups || g in s.groups[..n]
  {
    if n == 0 {
    } else {
      GiveGroupsHandles(m, s, n - 1);
      assert s.groups[..n] == s.groups[..n - 1] + [s.groups[n - 1]];
    }
  }

  lemma OneHandle(m: Manager, w: WorkspaceId, x: Workspace)
    ensures var r := GiveWorkspace(m, w, x); r.groups == m.groups && r.workspaces == m.workspaces + {w}
  {
  }

  lemma {:induction false} GiveWorkspacesHandles(m: Manager, s: Server, n: nat)
    requires Tabled(s) && n <= |s.workspaces|
    ensures var r := GiveWorkspaces(m, s, n);
            r.groups == m.groups && r.workspaces == m.workspaces + set i | 0 <= i < n :: s.workspaces[i]
  {
    if n > 0 {
      var w := s.workspaces[n - 1];
      GiveWorkspacesHandles(m, s, n - 1);
      OneHandle(GiveWorkspaces(m, s, n - 1), w, s.info[w]);
      assert (set i | 0 <= i < n :: s.workspaces[i]) == (set i | 0 <= i < n - 1 :: s.workspaces[i]) + {w};
    }
  }

  lemma WelcomedHandles(s: Server)
    requires Tabled(s)
    ensures forall g :: g in Welcomed(s).groups <==> g in s.groups
    ensures forall w :: w in Welcomed(s).workspaces <==> w in s.workspaces
  {
    GiveGroupsHandles(UNBOUND, s, |s.groups|);
    GiveWorkspacesHandles(GiveGroups(UNBOUND, s, |s.groups|), s, |s.workspaces|);
    assert s.groups[..|s.groups|] == s.groups;
  }

  /** A run begins with nothing; a step that can happen has its effect on what the run before it left. */
  lemma RunStep(steps: seq<Step>, step: Step)
    ensures var s := After([]); s.groups == s.workspaces == [] && s.info == map[] && s.caps == map[] && s.managers == []
    ensures Inv(After(steps))
    ensures After(steps + [step]) == if Enabled(After(steps), step) then Next(After(steps), step) else After(steps)
  {
    RunInv(steps);
    assert (steps + [step])[..|steps|] == steps;
  }
}

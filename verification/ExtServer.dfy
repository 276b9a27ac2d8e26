// The ext-workspace-v1 server of src/wlr_ext_workspace_v1.c as a state machine on values.

module ExtServer {
  import opened Lists
  import opened ExtProtocol

  /** A queued request; a reference is None once its object has been destroyed. */
  datatype Request =
    | CreateWorkspaceIn(name: string, group: Option<GroupId>)
    | Activate(workspace: Option<WorkspaceId>)
    | Deactivate(workspace: Option<WorkspaceId>)
    | Assign(workspace: Option<WorkspaceId>, group: Option<GroupId>)
    | Remove(workspace: Option<WorkspaceId>)

  /**
   * One bound manager object: its history, the handles it still holds, its uncommitted requests,
   * and all requests it ever made and all that were ever handed to the compositor.
   */
  datatype Manager = Manager(log: Log, groups: set<GroupId>, workspaces: set<WorkspaceId>,
                             requests: seq<Request>, made: seq<Request>, delivered: seq<Request>)

  datatype Server = Server(groups: seq<GroupId>, caps: map<GroupId, nat>,
                           workspaces: seq<WorkspaceId>, info: map<WorkspaceId, Workspace>,
                           managers: seq<Manager>, retired: seq<Log>,
                           idle: bool, next: nat)

  const INITIAL := Server([], map[], [], map[], [], [], false, 0)

  /** The request bookkeeping of the two is the same. */
  predicate SameQueue(m: Manager, r: Manager) {
    r.requests == m.requests && r.made == m.made && r.delivered == m.delivered
  }

  function Send(m: Manager, e: Event): (r: Manager)
    ensures SameQueue(m, r)
  {
    m.(log := m.log + [Sent(e)])
  }

  // ----- what one manager gets -----------------------------------------------------------

  /** The group is announced with its details (`create_group_resource`, `group_send_details`). */
  function GiveGroup(m: Manager, g: GroupId, caps: nat): (r: Manager)
    ensures SameQueue(m, r)
  {
    Send(Send(m.(groups := m.groups + {g}), NewGroup(g)), GroupCapabilities(g, caps))
  }

  function MaybeName(m: Manager, w: WorkspaceId, name: Option<string>): (r: Manager)
    ensures SameQueue(m, r)
  {
    if name.Some? then Send(m, Name(w, name.value)) else m
  }

  function MaybeId(m: Manager, w: WorkspaceId, id: Option<string>): (r: Manager)
    ensures SameQueue(m, r)
  {
    if id.Some? then Send(m, Id(w, id.value)) else m
  }

  /** `workspace_send_details` */
  function SendDetails(m: Manager, w: WorkspaceId, x: Workspace): (r: Manager)
    ensures SameQueue(m, r)
  {
    Send(MaybeId(MaybeName(Send(m, Capabilities(w, x.caps)), w, x.name), w, x.id), State(w, x.state))
  }

  /** One side of `workspace_send_group`: only a manager that holds both handles is told. */
  function SendEnter(m: Manager, g: GroupId, w: WorkspaceId): (r: Manager)
    ensures SameQueue(m, r)
  {
    if g in m.groups && w in m.workspaces then Send(m, Enter(g, w)) else m
  }

  function SendLeave(m: Manager, g: GroupId, w: WorkspaceId): (r: Manager)
    ensures SameQueue(m, r)
  {
    if g in m.groups && w in m.workspaces then Send(m, Leave(g, w)) else m
  }

  function Announce(m: Manager, w: WorkspaceId, x: Workspace): (r: Manager)
    ensures SameQueue(m, r)
  {
    SendDetails(Send(m.(workspaces := m.workspaces + {w}), NewWorkspace(w)), w, x)
  }

  /** The workspace is announced with its details and, if it is in a group, its membership. */
  function GiveWorkspace(m: Manager, w: WorkspaceId, x: Workspace): (r: Manager)
    ensures SameQueue(m, r)
  {
    var d := Announce(m, w, x);
    if x.group.Some? then SendEnter(d, x.group.value, w) else d
  }

  function Move(m: Manager, w: WorkspaceId, was: Option<GroupId>, now: Option<GroupId>): (r: Manager)
    ensures SameQueue(m, r)
  {
    var m1 := if was.Some? then SendLeave(m, was.value, w) else m;
    if now.Some? then SendEnter(m1, now.value, w) else m1
  }

  function SendName(m: Manager, w: WorkspaceId, name: string): (r: Manager)
    ensures SameQueue(m, r)
  {
    if w in m.workspaces then Send(m, Name(w, name)) else m
  }

  function SendState(m: Manager, w: WorkspaceId, state: set<Flag>): (r: Manager)
    ensures SameQueue(m, r)
  {
    if w in m.workspaces then Send(m, State(w, state)) else m
  }

  function Drop<T(==)>(o: Option<T>, x: T): Option<T> {
    if o == Some(x) then None else o
  }

  /** `clear_requests_by` for a group. */
  function ClearGroup(r: Request, g: GroupId): Request {
    match r
    case CreateWorkspaceIn(name, h) => CreateWorkspaceIn(name, Drop(h, g))
    case Assign(w, h) => Assign(w, Drop(h, g))
    case _ => r
  }

  /** `clear_requests_by` for a workspace. */
  function ClearWorkspace(r: Request, w: WorkspaceId): Request {
    match r
    case CreateWorkspaceIn(_, _) => r
    case Activate(x) => Activate(Drop(x, w))
    case Deactivate(x) => Deactivate(Drop(x, w))
    case Assign(x, h) => Assign(Drop(x, w), h)
    case Remove(x) => Remove(Drop(x, w))
  }

  function LoseGroup(m: Manager, g: GroupId): Manager {
    var m1 := if g in m.groups then Send(m, GroupRemoved(g)).(groups := m.groups - {g}) else m;
    m1.(requests := seq(|m1.requests|, i requires 0 <= i < |m1.requests| => ClearGroup(m1.requests[i], g)))
  }

  function LoseWorkspace(m: Manager, w: WorkspaceId): Manager {
    var m1 := if w in m.workspaces then Send(m, WorkspaceRemoved(w)).(workspaces := m.workspaces - {w}) else m;
    m1.(requests := seq(|m1.requests|, i requires 0 <= i < |m1.requests| => ClearWorkspace(m1.requests[i], w)))
  }

  /** The client destroys its group handle; an inert handle is gone already. */
  function DestroyGroupHandle(m: Manager, g: GroupId): (r: Manager)
    ensures SameQueue(m, r)
  {
    if g in m.groups then m.(log := m.log + [DroppedGroup(g)], groups := m.groups - {g}) else m
  }

  function DestroyWorkspaceHandle(m: Manager, w: WorkspaceId): (r: Manager)
    ensures SameQueue(m, r)
  {
    if w in m.workspaces then m.(log := m.log + [DroppedWorkspace(w)], workspaces := m.workspaces - {w}) else m
  }

  function Enqueue(m: Manager, r: Request): Manager {
    m.(requests := m.requests + [r], made := m.made + [r])
  }

  /** `manager_handle_commit`: the compositor gets the queue in order, then it is emptied. */
  function CommitAll(m: Manager): Manager {
    m.(delivered := m.delivered + m.requests, requests := [])
  }

  // ----- the server's operations ---------------------------------------------------------

  function GiveGroups(m: Manager, s: Server, n: nat): (r: Manager)
    requires n <= |s.groups| && forall g | g in s.groups :: g in s.caps
    ensures SameQueue(m, r)
  {
    if n == 0 then m
    else GiveGroup(GiveGroups(m, s, n - 1), s.groups[n - 1], s.caps[s.groups[n - 1]])
  }

  function GiveWorkspaces(m: Manager, s: Server, n: nat): (r: Manager)
    requires n <= |s.workspaces| && forall w | w in s.workspaces :: w in s.info
    ensures SameQueue(m, r)
  {
    if n == 0 then m
    else GiveWorkspace(GiveWorkspaces(m, s, n - 1), s.workspaces[n - 1], s.info[s.workspaces[n - 1]])
  }

  const UNBOUND := Manager([], {}, {}, [], [], [])

  /** The tables name exactly the listed objects. */
  predicate Tabled(s: Server) {
    && (forall g | g in s.groups :: g in s.caps)
    && (forall w | w in s.workspaces :: w in s.info)
  }

  /** What a new manager gets: everything there is, then done. */
  function Welcomed(s: Server): (r: Manager)
    requires Tabled(s)
    ensures SameQueue(UNBOUND, r)
  {
    Send(GiveWorkspaces(GiveGroups(UNBOUND, s, |s.groups|), s, |s.workspaces|), Done)
  }

  /** `manager_bind`; sending details schedules an idle done as well. */
  function Bind(s: Server): Server
    requires Tabled(s)
  {
    s.(managers := [Welcomed(s)] + s.managers, idle := s.idle || s.groups != [] || s.workspaces != [])
  }

  function CreateGroup(s: Server, caps: nat): Server {
    var g := s.next;
    s.(groups := s.groups + [g], caps := s.caps[g := caps], next := g + 1, idle := true,
       managers := seq(|s.managers|, i requires 0 <= i < |s.managers| => GiveGroup(s.managers[i], g, caps)))
  }

  function CreateWorkspace(s: Server, id: Option<string>, caps: nat): Server {
    var w, x := s.next, Workspace(id, caps, None, None, {});
    s.(workspaces := s.workspaces + [w], info := s.info[w := x], next := w + 1, idle := true,
       managers := seq(|s.managers|, i requires 0 <= i < |s.managers| => GiveWorkspace(s.managers[i], w, x)))
  }

  function SetGroup(s: Server, w: WorkspaceId, now: Option<GroupId>): Server
    requires w in s.info
  {
    var was := s.info[w].group;
    if was == now then s
    else
      s.(info := s.info[w := s.info[w].(group := now)], idle := true,
         managers := seq(|s.managers|, i requires 0 <= i < |s.managers| => Move(s.managers[i], w, was, now)))
  }

  function SetName(s: Server, w: WorkspaceId, name: string): Server
    requires w in s.info
  {
    if s.info[w].name == Some(name) then s
    else
      s.(info := s.info[w := s.info[w].(name := Some(name))], idle := true,
         managers := seq(|s.managers|, i requires 0 <= i < |s.managers| => SendName(s.managers[i], w, name)))
  }

  /** `state |= flag` or `state &= ~flag`. */
  function Flagged(state: set<Flag>, flag: Flag, enabled: bool): set<Flag> {
    if enabled then state + {flag} else state - {flag}
  }

  /** `workspace_set_state` */
  function SetState(s: Server, w: WorkspaceId, flag: Flag, enabled: bool): (t: Server)
    requires w in s.info
    ensures t.info == s.info[w := s.info[w].(state := Flagged(s.info[w].state, flag, enabled))]
    ensures t.caps == s.caps && t.groups == s.groups && t.workspaces == s.workspaces && t.next == s.next
  {
    var state := Flagged(s.info[w].state, flag, enabled);
    if state == s.info[w].state then s
    else
      s.(info := s.info[w := s.info[w].(state := state)], idle := true,
         managers := seq(|s.managers|, i requires 0 <= i < |s.managers| => SendState(s.managers[i], w, state)))
  }

  /** Takes the first `n` workspaces of the list out of group `g`. */
  function Vacate(s: Server, g: GroupId, n: nat): (r: Server)
    requires n <= |s.workspaces| && forall w | w in s.workspaces :: w in s.info
    ensures r.workspaces == s.workspaces && r.groups == s.groups && r.caps == s.caps && r.next == s.next
    ensures r.info.Keys == s.info.Keys && |r.managers| == |s.managers|
  {
    if n == 0 then s
    else
      var t := Vacate(s, g, n - 1);
      var w := s.workspaces[n - 1];
      if t.info[w].group == Some(g) then SetGroup(t, w, None) else t
  }

  /** `wlr_ext_workspace_group_handle_v1_destroy` */
  function DestroyGroup(s: Server, g: GroupId): Server
    requires Tabled(s)
  {
    var t := Vacate(s, g, |s.workspaces|);
    t.(groups := Without(t.groups, g), caps := t.caps - {g}, idle := true,
       managers := seq(|t.managers|, i requires 0 <= i < |t.managers| => LoseGroup(t.managers[i], g)))
  }

  /** `wlr_ext_workspace_handle_v1_destroy` */
  function DestroyWorkspace(s: Server, w: WorkspaceId): Server
    requires w in s.info
  {
    var t := SetGroup(s, w, None);
    t.(workspaces := Without(t.workspaces, w), info := t.info - {w}, idle := true,
       managers := seq(|t.managers|, i requires 0 <= i < |t.managers| => LoseWorkspace(t.managers[i], w)))
  }

  /** `handle_idle` */
  function Idle(s: Server): Server {
    s.(idle := false,
       managers := seq(|s.managers|, i requires 0 <= i < |s.managers| => Send(s.managers[i], Done)))
  }

  // ----- steps ---------------------------------------------------------------------------

  /** What a client asks for on a handle that it holds; on an inert handle nothing happens. */
  datatype Ask =
    | AskCreate(g: GroupId, name: string)
    | AskActivate(w: WorkspaceId)
    | AskDeactivate(w: WorkspaceId)
    | AskAssign(w: WorkspaceId, g: GroupId, holder: nat)
    | AskRemove(w: WorkspaceId)

  datatype Step =
    | DoBind
    | DoCreateGroup(caps: nat)
    | DoDestroyGroup(g: GroupId)
    | DoCreateWorkspace(id: Option<string>, caps: nat)
    | DoDestroyWorkspace(w: WorkspaceId)
    | DoSetGroup(w: WorkspaceId, group: Option<GroupId>)
    | DoSetName(w: WorkspaceId, name: string)
    | DoSetState(w: WorkspaceId, flag: Flag, enabled: bool)
    | DoDestroyGroupHandle(k: nat, g: GroupId)
    | DoDestroyWorkspaceHandle(k: nat, w: WorkspaceId)
    | DoAsk(k: nat, ask: Ask)
    | DoCommit(k: nat)
    | DoIdle
    | DoStop(k: nat)
    | DoDisconnect(k: nat)

  /** The compositor passes live objects, a client acts through a bound manager, idle fires if pending. */
  predicate Enabled(s: Server, step: Step) {
    match step
    case DoDestroyGroup(g) => g in s.groups
    case DoDestroyWorkspace(w) => w in s.workspaces
    case DoSetGroup(w, group) => w in s.workspaces && (group.Some? ==> group.value in s.groups)
    case DoSetName(w, _) => w in s.workspaces
    case DoSetState(w, _, _) => w in s.workspaces
    case DoDestroyGroupHandle(k, _) => k < |s.managers|
    case DoDestroyWorkspaceHandle(k, _) => k < |s.managers|
    case DoAsk(k, ask) => k < |s.managers| && (ask.AskAssign? ==> ask.holder < |s.managers|)
    case DoCommit(k) => k < |s.managers|
    case DoIdle => s.idle
    case DoStop(k) => k < |s.managers|
    case DoDisconnect(k) => k < |s.managers|
    case _ => true
  }

  /** The queued request, if the handles it is made on are live. */
  function Queued(s: Server, m: Manager, ask: Ask): Option<Request> {
    match ask
    case AskCreate(g, name) => if g in m.groups then Some(CreateWorkspaceIn(name, Some(g))) else None
    case AskActivate(w) => if w in m.workspaces then Some(Activate(Some(w))) else None
    case AskDeactivate(w) => if w in m.workspaces then Some(Deactivate(Some(w))) else None
    case AskAssign(w, g, holder) =>
      if w in m.workspaces && holder < |s.managers| && g in s.managers[holder].groups
      then Some(Assign(Some(w), Some(g))) else None
    case AskRemove(w) => if w in m.workspaces then Some(Remove(Some(w))) else None
  }

  function At(s: Server, k: nat, m: Manager): Server
    requires k < |s.managers|
  {
    s.(managers := s.managers[k := m])
  }

  /** The manager resource goes away, with its queue and handles; its history stays as it ended. */
  function Gone(s: Server, k: nat, last: Log): Server
    requires k < |s.managers|
  {
    s.(managers := s.managers[..k] + s.managers[k + 1..], retired := s.retired + [last])
  }

  function Next(s: Server, step: Step): Server
    requires Tabled(s) && Enabled(s, step)
  {
    match step
    case DoBind => Bind(s)
    case DoCreateGroup(caps) => CreateGroup(s, caps)
    case DoDestroyGroup(g) => DestroyGroup(s, g)
    case DoCreateWorkspace(id, caps) => CreateWorkspace(s, id, caps)
    case DoDestroyWorkspace(w) => DestroyWorkspace(s, w)
    case DoSetGroup(w, group) => SetGroup(s, w, group)
    case DoSetName(w, name) => SetName(s, w, name)
    case DoSetState(w, flag, enabled) => SetState(s, w, flag, enabled)
    case DoDestroyGroupHandle(k, g) => At(s, k, DestroyGroupHandle(s.managers[k], g))
    case DoDestroyWorkspaceHandle(k, w) => At(s, k, DestroyWorkspaceHandle(s.managers[k], w))
    case DoAsk(k, ask) =>
      var r := Queued(s, s.managers[k], ask);
      if r.Some? then At(s, k, Enqueue(s.managers[k], r.value)) else s
    case DoCommit(k) => At(s, k, CommitAll(s.managers[k]))
    case DoIdle => Idle(s)
    case DoStop(k) => Gone(s, k, Send(s.managers[k], Finished).log)
    case DoDisconnect(k) => Gone(s, k, s.managers[k].log)
  }
}

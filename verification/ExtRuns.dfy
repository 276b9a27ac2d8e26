// The invariant of the whole server, its preservation by every step, and its consequences for runs.

module ExtRuns {
  import opened Lists
  import opened ExtProtocol
  import opened ExtServer
  import opened ExtAgreement

  ghost predicate AllInSync(s: Server) {
    forall k | 0 <= k < |s.managers| :: InSync(s, s.managers[k])
  }

  /** Unless an idle callback is pending, the last event of every client is `done`. */
  ghost predicate Snapshot(s: Server) {
    s.idle || forall k | 0 <= k < |s.managers| :: LastEvent(s.managers[k].log) == Some(Done)
  }

  ghost predicate RetiredAccepted(s: Server) {
    forall k | 0 <= k < |s.retired| :: Accepted(s.retired[k])
  }

  // ----- request queues ------------------------------------------------------------------

  function LiveGroup(s: Server, g: Option<GroupId>): Option<GroupId> {
    if g.Some? && g.value in s.caps then g else None
  }

  function LiveWorkspace(s: Server, w: Option<WorkspaceId>): Option<WorkspaceId> {
    if w.Some? && w.value in s.info then w else None
  }

  /** The request with the references to destroyed objects taken out. */
  function Masked(s: Server, r: Request): Request {
    match r
    case CreateWorkspaceIn(name, g) => CreateWorkspaceIn(name, LiveGroup(s, g))
    case Activate(w) => Activate(LiveWorkspace(s, w))
    case Deactivate(w) => Deactivate(LiveWorkspace(s, w))
    case Assign(w, g) => Assign(LiveWorkspace(s, w), LiveGroup(s, g))
    case Remove(w) => Remove(LiveWorkspace(s, w))
  }

  ghost predicate Below(o: Option<nat>, n: nat) {
    o.Some? ==> o.value < n
  }

  ghost predicate RefsBelow(r: Request, n: nat) {
    match r
    case CreateWorkspaceIn(_, g) => Below(g, n)
    case Activate(w) => Below(w, n)
    case Deactivate(w) => Below(w, n)
    case Assign(w, g) => Below(w, n) && Below(g, n)
    case Remove(w) => Below(w, n)
  }

  ghost predicate SameOrGone(a: Option<nat>, b: Option<nat>) {
    b == a || b == None
  }

  /** `b` is `a`, up to references that have become null. */
  ghost predicate Erased(a: Request, b: Request) {
    match (a, b)
    case (CreateWorkspaceIn(n, g), CreateWorkspaceIn(n', g')) => n == n' && SameOrGone(g, g')
    case (Activate(w), Activate(w')) => SameOrGone(w, w')
    case (Deactivate(w), Deactivate(w')) => SameOrGone(w, w')
    case (Assign(w, g), Assign(w', g')) => SameOrGone(w, w') && SameOrGone(g, g')
    case (Remove(w), Remove(w')) => SameOrGone(w, w')
    case _ => false
  }

  /**
   * What was handed over followed by what is queued is what was made, in order, each once. A queued
   * request refers to exactly those of its objects that are still alive.
   */
  ghost predicate QueueOk(s: Server, m: Manager) {
    && |m.made| == |m.delivered| + |m.requests|
    && (forall i | 0 <= i < |m.delivered| :: Erased(m.made[i], m.delivered[i]))
    && (forall i | 0 <= i < |m.requests| :: m.requests[i] == Masked(s, m.made[|m.delivered| + i]))
    && (forall i | 0 <= i < |m.made| :: RefsBelow(m.made[i], s.next))
  }

  ghost predicate Queues(s: Server) {
    forall k | 0 <= k < |s.managers| :: QueueOk(s, s.managers[k])
  }

  ghost predicate Inv(s: Server) {
    Sound(s) && AllInSync(s) && Snapshot(s) && Queues(s) && RetiredAccepted(s)
  }

  // ----- binding -------------------------------------------------------------------------

  lemma DistinctPrefix(xs: seq<nat>, n: nat)
    requires NoDuplicates(xs) && 0 < n <= |xs|
    ensures xs[n - 1] in xs && xs[n - 1] !in xs[..n - 1]
    ensures xs[..n] == xs[..n - 1] + [xs[n - 1]]
  {
    assert forall i | 0 <= i < n - 1 :: xs[i] != xs[n - 1];
  }

  ghost predicate Told(s: Server, m: Manager, gs: seq<GroupId>) {
    && InSync(s, m) && m.workspaces == {} && Fold(m.log).oldWorkspaces == {}
    && forall g :: g in Fold(m.log).oldGroups <==> g in gs
  }

  lemma TellGroup(s: Server, m: Manager, gs: seq<GroupId>, g: GroupId)
    requires Sound(s) && Told(s, m, gs) && g in s.groups && g !in gs
    ensures Told(s, GiveGroup(m, g, s.caps[g]), gs + [g])
  {
    GiveGroupInSync(s, m, g);
  }

  lemma {:induction false} GiveGroupsInSync(s: Server, n: nat) returns (m: Manager)
    requires Sound(s) && n <= |s.groups|
    ensures m == GiveGroups(UNBOUND, s, n) && Told(s, m, s.groups[..n])
  {
    if n == 0 {
      m := UNBOUND;
    } else {
      var rest := GiveGroupsInSync(s, n - 1);
      DistinctPrefix(s.groups, n);
      TellGroup(s, rest, s.groups[..n - 1], s.groups[n - 1]);
      m := GiveGroup(rest, s.groups[n - 1], s.caps[s.groups[n - 1]]);
    }
  }

  ghost predicate ToldWorkspaces(s: Server, m: Manager, ws: seq<WorkspaceId>) {
    InSync(s, m) && forall w :: w in Fold(m.log).oldWorkspaces <==> w in ws
  }

  lemma TellWorkspace(s: Server, m: Manager, ws: seq<WorkspaceId>, w: WorkspaceId)
    requires Sound(s) && ToldWorkspaces(s, m, ws) && w in s.workspaces && w !in ws
    ensures ToldWorkspaces(s, GiveWorkspace(m, w, s.info[w]), ws + [w])
  {
    GiveWorkspaceInSync(s, m, w);
  }

  lemma {:induction false} GiveWorkspacesInSync(s: Server, m: Manager, n: nat) returns (r: Manager)
    requires Sound(s) && n <= |s.workspaces| && ToldWorkspaces(s, m, [])
    ensures r == GiveWorkspaces(m, s, n) && ToldWorkspaces(s, r, s.workspaces[..n])
  {
    if n == 0 {
      r := m;
      assert s.workspaces[..n] == [];
    } else {
      var rest := GiveWorkspacesInSync(s, m, n - 1);
      DistinctPrefix(s.workspaces, n);
      TellWorkspace(s, rest, s.workspaces[..n - 1], s.workspaces[n - 1]);
      r := GiveWorkspace(rest, s.workspaces[n - 1], s.info[s.workspaces[n - 1]]);
    }
  }

  /** A client that binds is told everything: its view is the whole server state, ended by done. */
  lemma WelcomedInSync(s: Server)
    requires Sound(s)
    ensures InSync(s, Welcomed(s)) && LastEvent(Welcomed(s).log) == Some(Done) && QueueOk(s, Welcomed(s))
  {
    var m := GiveGroupsInSync(s, |s.groups|);
    var r := GiveWorkspacesInSync(s, m, |s.workspaces|);
    SendDoneInSync(s, r);
    LastAppend(r.log, Sent(Done));
  }

  lemma BindFrame(s: Server, m: Manager)
    requires Sound(s) && InSync(s, m) && QueueOk(s, m)
    ensures InSync(Bind(s), m) && QueueOk(Bind(s), m)
  {
    InSyncFrame(s, Bind(s), m);
    QueueFrame(s, Bind(s), m, m);
  }

  /** The new manager starts with an empty queue; those that were bound before are not affected. */
  lemma BindManager(s: Server, k: nat)
    requires Sound(s) && AllInSync(s) && Queues(s) && k <= |s.managers|
    ensures InSync(Bind(s), Bind(s).managers[k]) && QueueOk(Bind(s), Bind(s).managers[k])
  {
    if k == 0 {
      WelcomedInSync(s);
      BindFrame(s, Welcomed(s));
    } else {
      BindFrame(s, s.managers[k - 1]);
    }
  }

  lemma BindSnapshot(s: Server)
    requires Sound(s) && Snapshot(s)
    ensures Snapshot(Bind(s))
  {
    var t := Bind(s);
    WelcomedInSync(s);
    if !t.idle {
      forall k | 0 <= k < |t.managers| ensures LastEvent(t.managers[k].log) == Some(Done) {
        assert k > 0 ==> t.managers[k] == s.managers[k - 1];
      }
    }
  }

  lemma BindInv(s: Server)
    requires Inv(s)
    ensures Inv(Bind(s))
  {
    var t := Bind(s);
    assert Sound(t) && RetiredAccepted(t);
    BindSnapshot(s);
    forall k | 0 <= k < |t.managers| ensures InSync(t, t.managers[k]) && QueueOk(t, t.managers[k]) {
      BindManager(s, k);
    }
  }

  // ----- frames --------------------------------------------------------------------------

  /** Objects that exist keep existing, and new ones have new ids: queues keep their meaning. */
  lemma QueueFrame(s: Server, t: Server, m: Manager, m': Manager)
    requires QueueOk(s, m) && SameQueue(m, m') && s.next <= t.next
    requires forall g | g < s.next :: g in t.caps <==> g in s.caps
    requires forall w | w < s.next :: w in t.info <==> w in s.info
    ensures QueueOk(t, m')
  {
    forall i | 0 <= i < |m.requests| ensures m.requests[i] == Masked(t, m.made[|m.delivered| + i]) {
      assert RefsBelow(m.made[|m.delivered| + i], s.next);
    }
    forall i | 0 <= i < |m.made| ensures RefsBelow(m.made[i], t.next) {
      assert RefsBelow(m.made[i], s.next);
    }
  }

  // ----- creation ------------------------------------------------------------------------

  lemma CreateGroupInv(s: Server, caps: nat)
    requires Inv(s)
    ensures Inv(CreateGroup(s, caps))
  {
    var t := CreateGroup(s, caps);
    DistinctAppend(s.groups, s.next);
    forall k | 0 <= k < |t.managers| ensures InSync(t, t.managers[k]) && QueueOk(t, t.managers[k]) {
      var m := s.managers[k];
      InSyncFrame(s, t, m);
      assert InSync(s, m);
      GiveGroupInSync(t, m, s.next);
      QueueFrame(s, t, m, t.managers[k]);
    }
  }

  lemma CreateWorkspaceInv(s: Server, id: Option<string>, caps: nat)
    requires Inv(s)
    ensures Inv(CreateWorkspace(s, id, caps))
  {
    var t := CreateWorkspace(s, id, caps);
    DistinctAppend(s.workspaces, s.next);
    forall k | 0 <= k < |t.managers| ensures InSync(t, t.managers[k]) && QueueOk(t, t.managers[k]) {
      var m := s.managers[k];
      assert InSync(s, m);
      InSyncFrame(s, t, m);
      GiveWorkspaceInSync(t, m, s.next);
      QueueFrame(s, t, m, t.managers[k]);
    }
  }

  // ----- changes -------------------------------------------------------------------------

  lemma SetGroupInv(s: Server, w: WorkspaceId, now: Option<GroupId>)
    requires Inv(s) && w in s.info && (now.Some? ==> now.value in s.caps)
    ensures Inv(SetGroup(s, w, now))
  {
    var t := SetGroup(s, w, now);
    if s.info[w].group != now {
      forall k | 0 <= k < |t.managers| ensures InSync(t, t.managers[k]) && QueueOk(t, t.managers[k]) {
        MoveInSync(s, t, s.managers[k], w, now);
        QueueFrame(s, t, s.managers[k], t.managers[k]);
      }
    }
  }

  lemma SetNameInv(s: Server, w: WorkspaceId, name: string)
    requires Inv(s) && w in s.info
    ensures Inv(SetName(s, w, name))
  {
    var t := SetName(s, w, name);
    if s.info[w].name != Some(name) {
      forall k | 0 <= k < |t.managers| ensures InSync(t, t.managers[k]) && QueueOk(t, t.managers[k]) {
        SendNameInSync(s, t, s.managers[k], w, name);
        QueueFrame(s, t, s.managers[k], t.managers[k]);
      }
    }
  }

  lemma SetStateInv(s: Server, w: WorkspaceId, flag: Flag, enabled: bool)
    requires Inv(s) && w in s.info
    ensures Inv(SetState(s, w, flag, enabled))
  {
    var t := SetState(s, w, flag, enabled);
    var state := Flagged(s.info[w].state, flag, enabled);
    if state != s.info[w].state {
      forall k | 0 <= k < |t.managers| ensures InSync(t, t.managers[k]) && QueueOk(t, t.managers[k]) {
        SendStateInSync(s, t, s.managers[k], w, state);
        QueueFrame(s, t, s.managers[k], t.managers[k]);
      }
    }
  }

  // ----- destruction ---------------------------------------------------------------------

  /** `P` survives taking a workspace out of its group. */
  ghost predicate Movable(P: Server -> bool) {
    forall s, w | P(s) && w in s.info :: P(SetGroup(s, w, None))
  }

  /** What survives that survives the first loop of group destruction. */
  lemma {:induction false} VacateKeeps(P: Server -> bool, s: Server, g: GroupId, n: nat)
    requires Movable(P) && P(s) && n <= |s.workspaces| && forall w | w in s.workspaces :: w in s.info
    ensures P(Vacate(s, g, n))
  {
    if n == 0 {
    } else {
      VacateKeeps(P, s, g, n - 1);
      assert s.workspaces[n - 1] in s.workspaces;
    }
  }

  lemma VacateInv(s: Server, g: GroupId)
    requires Inv(s)
    ensures Inv(Vacate(s, g, |s.workspaces|))
  {
    var P := (t: Server) => Inv(t);
    forall t, w | P(t) && w in t.info ensures P(SetGroup(t, w, None)) {
      SetGroupInv(t, w, None);
    }
    VacateKeeps(P, s, g, |s.workspaces|);
  }

  lemma {:induction false} VacateEmpties(s: Server, g: GroupId, n: nat)
    requires n <= |s.workspaces| && forall w | w in s.workspaces :: w in s.info
    ensures forall i | 0 <= i < n :: Vacate(s, g, n).info[s.workspaces[i]].group != Some(g)
  {
    if n == 0 {
    } else {
      VacateEmpties(s, g, n - 1);
      var t, u := Vacate(s, g, n - 1), Vacate(s, g, n);
      forall i | 0 <= i < n ensures u.info[s.workspaces[i]].group != Some(g) {
        assert i < n - 1 ==> t.info[s.workspaces[i]].group != Some(g);
      }
    }
  }

  /** Clearing the references to a destroyed object is masking by what is left. */
  lemma ClearGroupMasks(s: Server, t: Server, r: Request, g: GroupId)
    requires t.caps == s.caps - {g} && t.info == s.info
    ensures ClearGroup(Masked(s, r), g) == Masked(t, r)
  {
  }

  lemma ClearWorkspaceMasks(s: Server, t: Server, r: Request, w: WorkspaceId)
    requires t.info == s.info - {w} && t.caps == s.caps
    ensures ClearWorkspace(Masked(s, r), w) == Masked(t, r)
  {
  }

  lemma LoseGroupQueue(s: Server, t: Server, m: Manager, g: GroupId)
    requires QueueOk(s, m) && t.caps == s.caps - {g} && t.info == s.info && t.next == s.next
    ensures QueueOk(t, LoseGroup(m, g))
  {
    var r := LoseGroup(m, g);
    assert r.made == m.made && r.delivered == m.delivered && |r.requests| == |m.requests|;
    forall i | 0 <= i < |r.requests| ensures r.requests[i] == Masked(t, r.made[|r.delivered| + i]) {
      var asked := m.made[|m.delivered| + i];
      assert r.requests[i] == ClearGroup(m.requests[i], g) && m.requests[i] == Masked(s, asked);
      ClearGroupMasks(s, t, asked, g);
    }
  }

  lemma LoseWorkspaceQueue(s: Server, t: Server, m: Manager, w: WorkspaceId)
    requires QueueOk(s, m) && t.info == s.info - {w} && t.caps == s.caps && t.next == s.next
    ensures QueueOk(t, LoseWorkspace(m, w))
  {
    var r := LoseWorkspace(m, w);
    assert r.made == m.made && r.delivered == m.delivered && |r.requests| == |m.requests|;
    forall i | 0 <= i < |r.requests| ensures r.requests[i] == Masked(t, r.made[|r.delivered| + i]) {
      var asked := m.made[|m.delivered| + i];
      assert r.requests[i] == ClearWorkspace(m.requests[i], w) && m.requests[i] == Masked(s, asked);
      ClearWorkspaceMasks(s, t, asked, w);
    }
  }

  /** Once every workspace has been taken out, no workspace is in the group. */
  lemma VacatedInv(s: Server, g: GroupId)
    requires Inv(s)
    ensures var v := Vacate(s, g, |s.workspaces|); Inv(v) && forall w | w in v.info :: v.info[w].group != Some(g)
  {
    var v := Vacate(s, g, |s.workspaces|);
    VacateInv(s, g);
    VacateEmpties(s, g, |s.workspaces|);
    forall w | w in v.info ensures v.info[w].group != Some(g) {
      assert w in s.workspaces;
      var i :| 0 <= i < |s.workspaces| && s.workspaces[i] == w;
    }
  }

  lemma DestroyGroupInv(s: Server, g: GroupId)
    requires Inv(s)
    ensures Inv(DestroyGroup(s, g))
  {
    var v := Vacate(s, g, |s.workspaces|);
    var t := DestroyGroup(s, g);
    VacatedInv(s, g);
    WithoutDistinct(v.groups, g);
    forall k | 0 <= k < |t.managers| ensures InSync(t, t.managers[k]) && QueueOk(t, t.managers[k]) {
      LoseGroupInSync(v, t, v.managers[k], g);
      LoseGroupQueue(v, t, v.managers[k], g);
    }
  }

  lemma DestroyWorkspaceInv(s: Server, w: WorkspaceId)
    requires Inv(s) && w in s.info
    ensures Inv(DestroyWorkspace(s, w))
  {
    var v := SetGroup(s, w, None);
    var t := DestroyWorkspace(s, w);
    SetGroupInv(s, w, None);
    WithoutDistinct(v.workspaces, w);
    forall k | 0 <= k < |t.managers| ensures InSync(t, t.managers[k]) && QueueOk(t, t.managers[k]) {
      LoseWorkspaceInSync(v, t, v.managers[k], w);
      LoseWorkspaceQueue(v, t, v.managers[k], w);
    }
  }

  // ----- clients and the event loop ------------------------------------------------------

  lemma IdleInv(s: Server)
    requires Inv(s)
    ensures Inv(Idle(s))
  {
    var t := Idle(s);
    forall k | 0 <= k < |t.managers|
      ensures InSync(t, t.managers[k]) && QueueOk(t, t.managers[k])
      ensures LastEvent(t.managers[k].log) == Some(Done)
    {
      SendDoneInSync(s, s.managers[k]);
      InSyncFrame(s, t, t.managers[k]);
      LastAppend(s.managers[k].log, Sent(Done));
      QueueFrame(s, t, s.managers[k], t.managers[k]);
    }
  }

  /** One manager is replaced; the server's tables stay. */
  lemma AtInv(s: Server, k: nat, m: Manager)
    requires Inv(s) && k < |s.managers|
    requires InSync(s, m) && QueueOk(s, m) && LastEvent(m.log) == LastEvent(s.managers[k].log)
    ensures Inv(At(s, k, m))
  {
    var t := At(s, k, m);
    forall j | 0 <= j < |t.managers| ensures InSync(t, t.managers[j]) && QueueOk(t, t.managers[j]) {
      InSyncFrame(s, t, t.managers[j]);
      QueueFrame(s, t, t.managers[j], t.managers[j]);
    }
  }

  lemma HandleInv(s: Server, k: nat, g: nat)
    requires Inv(s) && k < |s.managers|
    ensures Inv(At(s, k, DestroyGroupHandle(s.managers[k], g)))
    ensures Inv(At(s, k, DestroyWorkspaceHandle(s.managers[k], g)))
  {
    var m := s.managers[k];
    DestroyGroupHandleInSync(s, m, g);
    DestroyWorkspaceHandleInSync(s, m, g);
    LastAppend(m.log, DroppedGroup(g));
    LastAppend(m.log, DroppedWorkspace(g));
    QueueFrame(s, s, m, DestroyGroupHandle(m, g));
    QueueFrame(s, s, m, DestroyWorkspaceHandle(m, g));
    AtInv(s, k, DestroyGroupHandle(m, g));
    AtInv(s, k, DestroyWorkspaceHandle(m, g));
  }

  /** Everything that a live handle refers to is alive. */
  lemma HeldIsAlive(s: Server, m: Manager)
    requires InSync(s, m)
    ensures forall g | g in m.groups :: g in s.caps
    ensures forall w | w in m.workspaces :: w in s.info
  {
  }

  /** A request made on live handles refers to live objects. */
  lemma QueuedIsAlive(s: Server, m: Manager, ask: Ask)
    requires Inv(s) && InSync(s, m) && (ask.AskAssign? ==> ask.holder < |s.managers|)
    ensures var r := Queued(s, m, ask); r.Some? ==> Masked(s, r.value) == r.value && RefsBelow(r.value, s.next)
  {
    HeldIsAlive(s, m);
    if ask.AskAssign? {
      HeldIsAlive(s, s.managers[ask.holder]);
    }
  }

  lemma EnqueueQueue(s: Server, m: Manager, r: Request)
    requires QueueOk(s, m) && Masked(s, r) == r && RefsBelow(r, s.next)
    ensures QueueOk(s, Enqueue(m, r))
  {
  }

  lemma EnqueueInSync(s: Server, m: Manager, r: Request)
    requires InSync(s, m)
    ensures InSync(s, Enqueue(m, r))
  {
  }

  lemma AskInv(s: Server, k: nat, ask: Ask)
    requires Inv(s) && Enabled(s, DoAsk(k, ask))
    ensures Inv(Next(s, DoAsk(k, ask)))
    ensures var t, r := Next(s, DoAsk(k, ask)), Queued(s, s.managers[k], ask);
            if r == None then t == s
            else RefsAlive(s, r.value) && t.managers == s.managers[k := Enqueue(s.managers[k], r.value)]
  {
    var m := s.managers[k];
    var r := Queued(s, m, ask);
    QueuedIsAlive(s, m, ask);
    if r.Some? {
      EnqueueQueue(s, m, r.value);
      EnqueueInSync(s, m, r.value);
      AtInv(s, k, Enqueue(m, r.value));
    }
  }

  lemma CommitQueue(s: Server, m: Manager)
    requires QueueOk(s, m)
    ensures QueueOk(s, CommitAll(m))
    ensures CommitAll(m).requests == [] && |CommitAll(m).delivered| == |m.made|
    ensures forall i | 0 <= i < |m.made| :: Erased(m.made[i], CommitAll(m).delivered[i])
  {
    var r := CommitAll(m);
    forall i | 0 <= i < |r.delivered| ensures Erased(r.made[i], r.delivered[i]) {
      if i >= |m.delivered| {
        assert r.delivered[i] == m.requests[i - |m.delivered|] == Masked(s, m.made[i]);
      }
    }
  }

  /** A manager that stays after another has gone keeps its view and its queue. */
  lemma GoneOther(s: Server, k: nat, last: Log, j: nat)
    requires Sound(s) && AllInSync(s) && Queues(s) && k < |s.managers| && j < |s.managers| - 1
    ensures var t := Gone(s, k, last);
            && |t.managers| == |s.managers| - 1 && t.managers[j] == s.managers[if j < k then j else j + 1]
            && InSync(t, t.managers[j]) && QueueOk(t, t.managers[j])
  {
    var t, o := Gone(s, k, last), s.managers[if j < k then j else j + 1];
    assert t.managers[j] == o;
    InSyncFrame(s, t, o);
    QueueFrame(s, t, o, o);
  }

  lemma GoneInv(s: Server, k: nat, last: Log)
    requires Inv(s) && k < |s.managers| && Accepted(last)
    ensures Inv(Gone(s, k, last))
  {
    var t := Gone(s, k, last);
    forall j | 0 <= j < |t.managers|
      ensures InSync(t, t.managers[j]) && QueueOk(t, t.managers[j])
      ensures !t.idle ==> LastEvent(t.managers[j].log) == Some(Done)
    {
      GoneOther(s, k, last, j);
    }
  }

  lemma CommitInv(s: Server, k: nat)
    requires Inv(s) && k < |s.managers|
    ensures Inv(At(s, k, CommitAll(s.managers[k])))
  {
    CommitQueue(s, s.managers[k]);
    AtInv(s, k, CommitAll(s.managers[k]));
  }

  lemma StopInv(s: Server, k: nat)
    requires Inv(s) && k < |s.managers|
    ensures Inv(Gone(s, k, Send(s.managers[k], Finished).log)) && Inv(Gone(s, k, s.managers[k].log))
  {
    assert InSync(s, s.managers[k]);
    Append(s.managers[k].log, Sent(Finished));
    GoneInv(s, k, Send(s.managers[k], Finished).log);
    GoneInv(s, k, s.managers[k].log);
  }

  /** The compositor's own steps keep the invariant. */
  lemma ServerStepInv(s: Server, step: Step)
    requires Inv(s) && Enabled(s, step)
    requires step.DoCreateGroup? || step.DoDestroyGroup? || step.DoCreateWorkspace? || step.DoDestroyWorkspace?
             || step.DoSetGroup? || step.DoSetName? || step.DoSetState?
    ensures Inv(Next(s, step))
  {
    match step
    case DoCreateGroup(caps) => CreateGroupInv(s, caps);
    case DoDestroyGroup(g) => DestroyGroupInv(s, g);
    case DoCreateWorkspace(id, caps) => CreateWorkspaceInv(s, id, caps);
    case DoDestroyWorkspace(w) => DestroyWorkspaceInv(s, w);
    case DoSetGroup(w, group) => SetGroupInv(s, w, group);
    case DoSetName(w, name) => SetNameInv(s, w, name);
    case DoSetState(w, flag, enabled) => SetStateInv(s, w, flag, enabled);
  }

  /** Every step keeps the invariant. */
  lemma StepInv(s: Server, step: Step)
    requires Inv(s) && Enabled(s, step)
    ensures Inv(Next(s, step))
  {
    match step
    case DoBind => BindInv(s);
    case DoDestroyGroupHandle(k, g) => HandleInv(s, k, g);
    case DoDestroyWorkspaceHandle(k, w) => HandleInv(s, k, w);
    case DoAsk(k, ask) => AskInv(s, k, ask);
    case DoCommit(k) => CommitInv(s, k);
    case DoIdle => IdleInv(s);
    case DoStop(k) => StopInv(s, k);
    case DoDisconnect(k) => StopInv(s, k);
    case _ => ServerStepInv(s, step);
  }

  // ----- runs ----------------------------------------------------------------------------

  /** One step of a run; a step that cannot happen is passed over. */
  function Perform(s: Server, step: Step): Server {
    if Tabled(s) && Enabled(s, step) then Next(s, step) else s
  }

  /** The server after a run that starts with no objects and no clients. */
  function After(steps: seq<Step>): Server {
    if steps == [] then INITIAL else Perform(After(steps[..|steps| - 1]), steps[|steps| - 1])
  }

  /** The invariant holds after every run; so only the step itself decides whether it can happen. */
  lemma {:induction false} RunInv(steps: seq<Step>)
    ensures Inv(After(steps)) && Tabled(After(steps))
  {
    if steps == [] {
      InitialInv();
    } else {
      var s, step := After(steps[..|steps| - 1]), steps[|steps| - 1];
      RunInv(steps[..|steps| - 1]);
      if Enabled(s, step) {
        StepInv(s, step);
      }
    }
  }

  lemma InitialInv()
    ensures Inv(INITIAL)
  {
  }

  /**
   * Replication agreement over every run from the empty server, for every manager still bound: the
   * strict client accepts its whole history, and folding that history over the handles it holds
   * gives exactly the server's groups, workspaces, properties and membership.
   */
  lemma Replication(steps: seq<Step>, k: nat)
    requires k < |After(steps).managers|
    ensures var s := After(steps);
            var m := s.managers[k];
            var v := Fold(m.log);
            && Accepted(m.log) && OneGroupEach(v)
            && v.groups.Keys == m.groups && v.workspaces.Keys == m.workspaces
            && (forall g | g in m.groups :: g in s.caps && v.groups[g] == s.caps[g])
            && (forall w | w in m.workspaces :: w in s.info && v.workspaces[w] == SeenNow(s.info[w]))
            && (forall g, w :: (g, w) in v.members <==>
                  g in m.groups && w in m.workspaces && w in s.info && s.info[w].group == Some(g))
  {
    var s := After(steps);
    RunInv(steps);
    assert InSync(s, s.managers[k]);
    NeverTwoGroups(s.managers[k].log);
    forall g, w
      ensures (g, w) in Fold(s.managers[k].log).members <==>
              g in s.managers[k].groups && w in s.managers[k].workspaces && w in s.info
              && s.info[w].group == Some(g)
    {
    }
  }

  /** The history of a bound manager, or of one that was stopped or disconnected. */
  ghost predicate IsHistory(s: Server, log: Log) {
    log in s.retired || exists k :: 0 <= k < |s.managers| && s.managers[k].log == log
  }

  ghost predicate EntersAlternate(log: Log) {
    forall i, j, g, w | 0 <= i < j < |log| && log[i] == Sent(Enter(g, w)) && log[j] == Sent(Enter(g, w)) ::
      Between(log, i, j, Sent(Leave(g, w)))
  }

  ghost predicate LeavesBeforeRemoved(log: Log) {
    && (forall i, k, g, w | 0 <= i < k < |log| && log[i] == Sent(Enter(g, w)) && log[k] == Sent(GroupRemoved(g)) ::
          Between(log, i, k, Sent(Leave(g, w))) || Between(log, i, k, DroppedWorkspace(w)))
    && (forall i, k, g, w | 0 <= i < k < |log| && log[i] == Sent(Enter(g, w)) && log[k] == Sent(WorkspaceRemoved(w)) ::
          Between(log, i, k, Sent(Leave(g, w))) || Between(log, i, k, DroppedGroup(g)))
  }

  ghost predicate RemovedNotNamed(log: Log) {
    && (forall i, j, g | 0 <= i < j < |log| && log[i] == Sent(GroupRemoved(g)) :: !Names(log[j], g))
    && (forall i, j, w | 0 <= i < j < |log| && log[i] == Sent(WorkspaceRemoved(w)) :: !NamesWorkspace(log[j], w))
  }

  ghost predicate IdsOnce(log: Log) {
    forall i, k, w, id, id' | 0 <= i < k < |log| && log[i] == Sent(Id(w, id)) :: log[k] != Sent(Id(w, id'))
  }

  ghost predicate FinishedLast(log: Log) {
    forall i, j | 0 <= i < j < |log| && log[i] == Sent(Finished) :: !log[j].Sent?
  }

  /**
   * Event order on every run, in the history of every client that was ever bound: enters and leaves
   * of a pair alternate, removed comes after the leaves, nothing names what has been removed, no
   * workspace gets two ids, and finished is the last event.
   */
  lemma EventOrder(steps: seq<Step>, log: Log)
    requires IsHistory(After(steps), log)
    ensures Accepted(log) && EntersAlternate(log) && LeavesBeforeRemoved(log) && RemovedNotNamed(log) && IdsOnce(log)
    ensures FinishedLast(log)
  {
    var s := After(steps);
    RunInv(steps);
    assert Accepted(log) by {
      if log !in s.retired {
        var k :| 0 <= k < |s.managers| && s.managers[k].log == log;
        assert InSync(s, s.managers[k]);
      }
    }
    StrictOrder(log);
  }

  lemma StrictOrder(log: Log)
    requires Accepted(log)
    ensures EntersAlternate(log) && LeavesBeforeRemoved(log) && RemovedNotNamed(log) && IdsOnce(log)
    ensures FinishedLast(log)
  {
    StrictEnters(log);
    StrictLeaves(log);
    StrictRemoved(log);
    forall i, k, w, id, id' | 0 <= i < k < |log| && log[i] == Sent(Id(w, id)) ensures log[k] != Sent(Id(w, id')) {
      IdOnce(log, i, k, w, id, id');
    }
    forall i, j | 0 <= i < j < |log| && log[i] == Sent(Finished) ensures !log[j].Sent? {
      NothingAfterFinished(log, i, j);
    }
  }

  lemma StrictEnters(log: Log)
    requires Accepted(log)
    ensures EntersAlternate(log)
  {
    forall i, j, g, w | 0 <= i < j < |log| && log[i] == Sent(Enter(g, w)) && log[j] == Sent(Enter(g, w))
      ensures Between(log, i, j, Sent(Leave(g, w)))
    {
      EnterLeaveAlternate(log, i, j, g, w);
    }
  }

  lemma StrictLeaves(log: Log)
    requires Accepted(log)
    ensures LeavesBeforeRemoved(log)
  {
    forall i, k, g, w | 0 <= i < k < |log| && log[i] == Sent(Enter(g, w)) && log[k] == Sent(GroupRemoved(g))
      ensures Between(log, i, k, Sent(Leave(g, w))) || Between(log, i, k, DroppedWorkspace(w))
    {
      GroupRemovedAfterLeave(log, i, k, g, w);
    }
    forall i, k, g, w | 0 <= i < k < |log| && log[i] == Sent(Enter(g, w)) && log[k] == Sent(WorkspaceRemoved(w))
      ensures Between(log, i, k, Sent(Leave(g, w))) || Between(log, i, k, DroppedGroup(g))
    {
      WorkspaceRemovedAfterLeave(log, i, k, g, w);
    }
  }

  lemma StrictRemoved(log: Log)
    requires Accepted(log)
    ensures RemovedNotNamed(log)
  {
    forall i, j, g | 0 <= i < j < |log| && log[i] == Sent(GroupRemoved(g)) ensures !Names(log[j], g) {
      NothingAfterRemoved(log, i, j, g);
    }
    forall i, j, w | 0 <= i < j < |log| && log[i] == Sent(WorkspaceRemoved(w)) ensures !NamesWorkspace(log[j], w) {
      NothingAfterWorkspaceRemoved(log, i, j, w);
    }
  }

  /**
   * Snapshots: after any run, when no idle callback is pending the last event of every bound client
   * is `done`. With `Replication` its view then is the server state.
   */
  lemma SnapshotConsistency(steps: seq<Step>, k: nat)
    requires k < |After(steps).managers|
    ensures var s := After(steps); !s.idle ==> LastEvent(s.managers[k].log) == Some(Done)
  {
    RunInv(steps);
    assert Snapshot(After(steps));
  }

  ghost predicate RefsAlive(s: Server, r: Request) {
    match r
    case CreateWorkspaceIn(_, g) => g.Some? ==> g.value in s.caps
    case Activate(w) => w.Some? ==> w.value in s.info
    case Deactivate(w) => w.Some? ==> w.value in s.info
    case Assign(w, g) => (w.Some? ==> w.value in s.info) && (g.Some? ==> g.value in s.caps)
    case Remove(w) => w.Some? ==> w.value in s.info
  }

  lemma QueueInOrder(s: Server, m: Manager)
    requires QueueOk(s, m)
    ensures |m.made| == |m.delivered + m.requests|
    ensures forall i | 0 <= i < |m.made| :: Erased(m.made[i], (m.delivered + m.requests)[i])
    ensures forall i | 0 <= i < |m.requests| :: RefsAlive(s, m.requests[i])
  {
    forall i | 0 <= i < |m.made| ensures Erased(m.made[i], (m.delivered + m.requests)[i]) {
      if i >= |m.delivered| {
        assert m.requests[i - |m.delivered|] == Masked(s, m.made[|m.delivered| + (i - |m.delivered|)]);
      }
    }
  }

  /**
   * Request queues over every run: what was handed to the compositor followed by what is queued is,
   * line by line, what the client asked for through this manager, up to references that have become
   * null; every reference in the queue is null or to a live object.
   */
  lemma RequestsInOrder(steps: seq<Step>, k: nat)
    requires k < |After(steps).managers|
    ensures var s := After(steps);
            var m := s.managers[k];
            && |m.made| == |m.delivered + m.requests|
            && (forall i | 0 <= i < |m.made| :: Erased(m.made[i], (m.delivered + m.requests)[i]))
            && (forall i | 0 <= i < |m.requests| :: RefsAlive(s, m.requests[i]))
  {
    var s := After(steps);
    RunInv(steps);
    QueueInOrder(s, s.managers[k]);
  }

  lemma VacateKeepsBooks(s: Server, g: GroupId, k: nat)
    requires Tabled(s) && k < |s.managers|
    ensures var t := Vacate(s, g, |s.workspaces|);
            |t.managers| == |s.managers| && SameQueue(s.managers[k], t.managers[k])
  {
    var P := (t: Server) => |t.managers| == |s.managers| && SameQueue(s.managers[k], t.managers[k]);
    assert Movable(P);
    VacateKeeps(P, s, g, |s.workspaces|);
  }

  /** Where manager `k` is in the list after the step, if it is still bound. */
  function Heir(step: Step, k: nat): Option<nat> {
    match step
    case DoBind => Some(k + 1)
    case DoStop(j) => if j == k then None else if j < k then Some(k - 1) else Some(k)
    case DoDisconnect(j) => if j == k then None else if j < k then Some(k - 1) else Some(k)
    case _ => Some(k)
  }

  /** What a step does to the books of the manager `m` that it makes `r`. */
  ghost predicate BooksStep(s: Server, step: Step, k: nat, r: Manager)
    requires k < |s.managers|
  {
    var m := s.managers[k];
    && r.delivered == m.delivered + (if step == DoCommit(k) then m.requests else [])
    && (step == DoCommit(k) ==> r.requests == [])
    && r.made == m.made + (if step.DoAsk? && step.k == k && Queued(s, m, step.ask).Some?
                           then [Queued(s, m, step.ask).value] else [])
  }

  /** Destroying a group hands nothing over. */
  lemma DestroyGroupBooks(s: Server, g: GroupId, k: nat)
    requires Tabled(s) && k < |s.managers|
    ensures var t := DestroyGroup(s, g);
            |t.managers| == |s.managers| && BooksStep(s, DoDestroyGroup(g), k, t.managers[k])
  {
    VacateKeepsBooks(s, g, k);
  }

  /** When manager `j` goes away, manager `k` keeps its books. */
  lemma GoneBooks(s: Server, j: nat, last: Log, k: nat)
    requires j < |s.managers| && k < |s.managers| && k != j
    ensures var t := Gone(s, j, last); var h := if j < k then k - 1 else k;
            h < |t.managers| && t.managers[h] == s.managers[k]
  {
  }

  lemma ClientBooks(s: Server, step: Step, k: nat)
    requires Tabled(s) && Enabled(s, step) && k < |s.managers|
    requires step.DoAsk? || step.DoCommit? || step.DoDestroyGroupHandle? || step.DoDestroyWorkspaceHandle?
    ensures var t := Next(s, step);
            |t.managers| == |s.managers| && BooksStep(s, step, k, t.managers[k])
  {
  }

  /**
   * A manager's requests are handed over by a commit of that manager and by no other step of anyone,
   * then all at once; and nothing but a request on its own live handles adds to them.
   */
  lemma DeliveredOnlyAtCommit(s: Server, step: Step, k: nat)
    requires Tabled(s) && Enabled(s, step) && k < |s.managers|
    ensures var t := Next(s, step);
            var h := Heir(step, k);
            h.Some? ==> h.value < |t.managers| && BooksStep(s, step, k, t.managers[h.value])
  {
    match step
    case DoDestroyGroup(g) => DestroyGroupBooks(s, g, k);
    case DoAsk(_, _) => ClientBooks(s, step, k);
    case DoCommit(_) => ClientBooks(s, step, k);
    case DoDestroyGroupHandle(_, _) => ClientBooks(s, step, k);
    case DoDestroyWorkspaceHandle(_, _) => ClientBooks(s, step, k);
    case DoStop(j) =>
      if j != k {
        GoneBooks(s, j, Send(s.managers[j], Finished).log, k);
      }
    case DoDisconnect(j) =>
      if j != k {
        GoneBooks(s, j, s.managers[j].log, k);
      }
    case _ =>
  }
}

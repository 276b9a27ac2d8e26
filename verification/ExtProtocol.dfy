// ext-workspace-v1 as replication: what one client sees, and the server state it should see.

module ExtProtocol {

  datatype Option<T> = None | Some(value: T)

  type GroupId = nat
  type WorkspaceId = nat

  /** A bit of the state word; the word is modelled as the set of its bits that are set. */
  datatype Flag = Active | Urgent | Hidden

  datatype Workspace = Workspace(id: Option<string>, caps: nat, name: Option<string>,
                                 group: Option<GroupId>, state: set<Flag>)

  datatype Event =
    | NewGroup(g: GroupId)
    | GroupCapabilities(g: GroupId, caps: nat)
    | NewWorkspace(w: WorkspaceId)
    | Capabilities(w: WorkspaceId, caps: nat)
    | Name(w: WorkspaceId, name: string)
    | Id(w: WorkspaceId, id: string)
    | State(w: WorkspaceId, state: set<Flag>)
    | Enter(g: GroupId, w: WorkspaceId)
    | Leave(g: GroupId, w: WorkspaceId)
    | GroupRemoved(g: GroupId)
    | WorkspaceRemoved(w: WorkspaceId)
    | Done
    | Finished

  /** One line of a client's history: an event it got, or a handle it destroyed. */
  datatype Entry = Sent(event: Event) | DroppedGroup(g: GroupId) | DroppedWorkspace(w: WorkspaceId)

  type Log = seq<Entry>

  // ----- the strict client ---------------------------------------------------------------

  datatype Seen = Seen(caps: nat, name: Option<string>, id: Option<string>, state: set<Flag>)

  /** What a client knows: the handles it holds, their properties, and who is in which group. */
  datatype View = View(groups: map<GroupId, nat>, workspaces: map<WorkspaceId, Seen>,
                       members: set<(GroupId, WorkspaceId)>,
                       oldGroups: set<GroupId>, oldWorkspaces: set<WorkspaceId>, finished: bool)

  const START := View(map[], map[], {}, {}, {}, false)

  predicate InSomeGroup(v: View, w: WorkspaceId) {
    exists p :: p in v.members && p.1 == w
  }

  predicate HasMembers(v: View, g: GroupId) {
    exists p :: p in v.members && p.0 == g
  }

  /**
   * The rules of the protocol text about single events. Events only name objects that were announced
   * and are neither removed nor destroyed; an id is sent at most once; a workspace enters a group only
   * while it is in none, and leaves only the group it is in; a group is removed only when empty, a
   * workspace only when in no group; nothing is sent after `finished`. The rule that ids are unique is
   * `UniqueIds`, which does not hold on every run.
   */
  predicate Accepts(v: View, e: Entry) {
    match e
    case DroppedGroup(g) => g in v.groups
    case DroppedWorkspace(w) => w in v.workspaces
    case Sent(event) =>
      && !v.finished
      && match event
         case NewGroup(g) => g !in v.oldGroups
         case GroupCapabilities(g, _) => g in v.groups
         case NewWorkspace(w) => w !in v.oldWorkspaces
         case Capabilities(w, _) => w in v.workspaces
         case Name(w, _) => w in v.workspaces
         case Id(w, _) => w in v.workspaces && v.workspaces[w].id == None
         case State(w, _) => w in v.workspaces
         case Enter(g, w) => g in v.groups && w in v.workspaces && !InSomeGroup(v, w)
         case Leave(g, w) => g in v.groups && w in v.workspaces && (g, w) in v.members
         case GroupRemoved(g) => g in v.groups && !HasMembers(v, g)
         case WorkspaceRemoved(w) => w in v.workspaces && !InSomeGroup(v, w)
         case Done => true
         case Finished => true
  }

  function WithoutGroup(v: View, g: GroupId): View {
    v.(groups := v.groups - {g}, members := set p | p in v.members && p.0 != g)
  }

  function WithoutWorkspace(v: View, w: WorkspaceId): View {
    v.(workspaces := v.workspaces - {w}, members := set p | p in v.members && p.1 != w)
  }

  function Update(v: View, w: WorkspaceId, s: Seen): View {
    v.(workspaces := v.workspaces[w := s])
  }

  function SeenOf(v: View, w: WorkspaceId): Seen {
    if w in v.workspaces then v.workspaces[w] else Seen(0, None, None, {})
  }

  function Learn(v: View, e: Entry): View {
    match e
    case DroppedGroup(g) => WithoutGroup(v, g)
    case DroppedWorkspace(w) => WithoutWorkspace(v, w)
    case Sent(event) =>
      match event
      case NewGroup(g) => v.(groups := v.groups[g := 0], oldGroups := v.oldGroups + {g})
      case GroupCapabilities(g, caps) => v.(groups := v.groups[g := caps])
      case NewWorkspace(w) =>
        Update(v, w, Seen(0, None, None, {})).(oldWorkspaces := v.oldWorkspaces + {w})
      case Capabilities(w, caps) => Update(v, w, SeenOf(v, w).(caps := caps))
      case Name(w, name) => Update(v, w, SeenOf(v, w).(name := Some(name)))
      case Id(w, id) => Update(v, w, SeenOf(v, w).(id := Some(id)))
      case State(w, state) => Update(v, w, SeenOf(v, w).(state := state))
      case Enter(g, w) => v.(members := v.members + {(g, w)})
      case Leave(g, w) => v.(members := v.members - {(g, w)})
      case GroupRemoved(g) => WithoutGroup(v, g)
      case WorkspaceRemoved(w) => WithoutWorkspace(v, w)
      case Done => v
      case Finished => v.(finished := true)
  }

  /** The client's view after its history. */
  function Fold(log: Log): View {
    if log == [] then START else Learn(Fold(log[..|log| - 1]), log[|log| - 1])
  }

  /** The strict client accepts every line of the history. */
  predicate Accepted(log: Log) {
    log == [] || (Accepted(log[..|log| - 1]) && Accepts(Fold(log[..|log| - 1]), log[|log| - 1]))
  }

  lemma Append(log: Log, e: Entry)
    ensures Fold(log + [e]) == Learn(Fold(log), e)
    ensures Accepted(log + [e]) <==> Accepted(log) && Accepts(Fold(log), e)
  {
    assert (log + [e])[..|log|] == log;
  }

  /** The last event of the history; the client's own requests do not count. */
  function LastEvent(log: Log): Option<Event> {
    if log == [] then None
    else match log[|log| - 1]
      case Sent(e) => Some(e)
      case _ => LastEvent(log[..|log| - 1])
  }

  lemma LastAppend(log: Log, e: Entry)
    ensures LastEvent(log + [e]) == if e.Sent? then Some(e.event) else LastEvent(log)
  {
    assert (log + [e])[..|log|] == log;
  }

  /** The rule about ids: no two workspaces have the same one. */
  ghost predicate UniqueIds(v: View) {
    forall w, x | w in v.workspaces && x in v.workspaces && v.workspaces[w].id.Some?
                  && v.workspaces[w].id == v.workspaces[x].id :: w == x
  }

  // ----- consequences of strictness ------------------------------------------------------

  ghost predicate OneGroupEach(v: View) {
    forall p, q | p in v.members && q in v.members && p.1 == q.1 :: p == q
  }

  /** A strict client never sees a workspace in two groups. */
  lemma {:induction false} NeverTwoGroups(log: Log)
    requires Accepted(log)
    ensures OneGroupEach(Fold(log))
  {
    if log == [] {
    } else {
      NeverTwoGroups(log[..|log| - 1]);
    }
  }

  predicate Names(e: Entry, g: GroupId) {
    e.Sent? && match e.event
               case NewGroup(h) => h == g
               case GroupCapabilities(h, _) => h == g
               case Enter(h, _) => h == g
               case Leave(h, _) => h == g
               case GroupRemoved(h) => h == g
               case _ => false
  }

  predicate NamesWorkspace(e: Entry, w: WorkspaceId) {
    e.Sent? && match e.event
               case NewWorkspace(x) => x == w
               case Capabilities(x, _) => x == w
               case Name(x, _) => x == w
               case Id(x, _) => x == w
               case State(x, _) => x == w
               case Enter(_, x) => x == w
               case Leave(_, x) => x == w
               case WorkspaceRemoved(x) => x == w
               case _ => false
  }

  /** The state in which an object is gone for good. */
  ghost predicate GroupGone(v: View, g: GroupId) {
    g in v.oldGroups && g !in v.groups
  }

  ghost predicate WorkspaceGone(v: View, w: WorkspaceId) {
    w in v.oldWorkspaces && w !in v.workspaces
  }

  lemma {:induction false} MembersAreHeld(log: Log)
    requires Accepted(log)
    ensures Held(Fold(log))
  {
    if log == [] {
    } else {
      MembersAreHeld(log[..|log| - 1]);
    }
  }

  lemma {:induction false} PrefixAccepted(log: Log, n: nat)
    requires Accepted(log) && n <= |log|
    ensures Accepted(log[..n])
    decreases |log|
  {
    if n == |log| {
      assert log[..n] == log;
    } else {
      PrefixAccepted(log[..|log| - 1], n);
      assert log[..|log| - 1][..n] == log[..n];
    }
  }

  /** Line `k` of an accepted history is accepted in the view before it, which leads to the view after it. */
  lemma AcceptedAt(log: Log, k: nat)
    requires Accepted(log) && k < |log|
    ensures Accepts(Fold(log[..k]), log[k]) && Held(Fold(log[..k]))
    ensures Fold(log[..k + 1]) == Learn(Fold(log[..k]), log[k])
  {
    PrefixAccepted(log, k + 1);
    PrefixAccepted(log, k);
    MembersAreHeld(log[..k]);
    assert log[..k + 1][..k] == log[..k];
  }

  /** `P` survives every line that a strict client accepts. */
  ghost predicate Lasting(P: View -> bool) {
    forall v, e | P(v) && Held(v) && Accepts(v, e) :: P(Learn(v, e))
  }

  lemma {:induction false} Lasts(P: View -> bool, log: Log, i: nat, k: nat)
    requires Accepted(log) && Lasting(P) && i <= k <= |log| && P(Fold(log[..i]))
    ensures P(Fold(log[..k]))
    decreases k
  {
    if k == i {
    } else {
      Lasts(P, log, i, k - 1);
      AcceptedAt(log, k - 1);
    }
  }

  /** Numbers of objects are never used again. */
  lemma GoneLasts(x: nat)
    ensures Lasting((v: View) => GroupGone(v, x)) && Lasting((v: View) => WorkspaceGone(v, x))
  {
  }

  /** Once a removed event (or the client's destroy) is in the history, no later event names the group. */
  lemma NothingAfterRemoved(log: Log, i: nat, j: nat, g: GroupId)
    requires Accepted(log) && i < j < |log|
    requires log[i] == Sent(GroupRemoved(g)) || log[i] == DroppedGroup(g)
    ensures !Names(log[j], g)
  {
    GoneLasts(g);
    AcceptedAt(log, i);
    Lasts((v: View) => GroupGone(v, g), log, i + 1, j);
    AcceptedAt(log, j);
  }

  lemma NothingAfterWorkspaceRemoved(log: Log, i: nat, j: nat, w: WorkspaceId)
    requires Accepted(log) && i < j < |log|
    requires log[i] == Sent(WorkspaceRemoved(w)) || log[i] == DroppedWorkspace(w)
    ensures !NamesWorkspace(log[j], w)
  {
    GoneLasts(w);
    AcceptedAt(log, i);
    Lasts((v: View) => WorkspaceGone(v, w), log, i + 1, j);
    AcceptedAt(log, j);
  }

  /** Once finished is in the history, no later entry is an event. */
  lemma NothingAfterFinished(log: Log, i: nat, j: nat)
    requires Accepted(log) && i < j < |log| && log[i] == Sent(Finished)
    ensures !log[j].Sent?
  {
    AcceptedAt(log, i);
    Lasts((v: View) => v.finished, log, i + 1, j);
    AcceptedAt(log, j);
  }

  /** The pair is together, or one of its handles is gone. */
  ghost predicate TogetherOrGone(v: View, g: GroupId, w: WorkspaceId) {
    (g, w) in v.members || GroupGone(v, g) || WorkspaceGone(v, w)
  }

  ghost predicate Held(v: View) {
    && v.groups.Keys <= v.oldGroups && v.workspaces.Keys <= v.oldWorkspaces
    && forall p | p in v.members :: p.0 in v.groups && p.1 in v.workspaces
  }

  lemma StaysTogether(v: View, e: Entry, g: GroupId, w: WorkspaceId)
    requires Held(v) && Accepts(v, e) && e != Sent(Leave(g, w)) && TogetherOrGone(v, g, w)
    ensures TogetherOrGone(Learn(v, e), g, w)
  {
    if (g, w) in v.members {
      assert g in v.groups && w in v.workspaces;
    }
  }

  /** From an enter on, the pair stays together until its leave, or until a handle is gone. */
  lemma {:induction false} TogetherUntilLeave(log: Log, i: nat, k: nat, g: GroupId, w: WorkspaceId)
    requires Accepted(log) && i < k <= |log| && log[i] == Sent(Enter(g, w))
    requires forall l | i < l < k :: log[l] != Sent(Leave(g, w))
    ensures TogetherOrGone(Fold(log[..k]), g, w)
    decreases k
  {
    AcceptedAt(log, k - 1);
    if k == i + 1 {
    } else {
      TogetherUntilLeave(log, i, k - 1, g, w);
      StaysTogether(Fold(log[..k - 1]), log[k - 1], g, w);
    }
  }

  /** `e` is in the history, after line `i` and before line `k`. */
  ghost predicate Between(log: Log, i: int, k: int, e: Entry)
    requires 0 <= i < k <= |log|
  {
    exists l :: i < l < k && log[l] == e
  }

  lemma EnterMeansApart(log: Log, j: nat, g: GroupId, w: WorkspaceId)
    requires Accepted(log) && j < |log| && log[j] == Sent(Enter(g, w))
    ensures !TogetherOrGone(Fold(log[..j]), g, w)
  {
    AcceptedAt(log, j);
  }

  /** Between two enters of the same pair there is a leave of that pair. */
  lemma EnterLeaveAlternate(log: Log, i: nat, j: nat, g: GroupId, w: WorkspaceId)
    requires Accepted(log) && i < j < |log|
    requires log[i] == Sent(Enter(g, w)) && log[j] == Sent(Enter(g, w))
    ensures Between(log, i, j, Sent(Leave(g, w)))
  {
    EnterMeansApart(log, j, g, w);
    if forall l | i < l < j :: log[l] != Sent(Leave(g, w)) {
      TogetherUntilLeave(log, i, j, g, w);
    }
  }

  // ----- order of removal ----------------------------------------------------------------

  lemma StaysMember(v: View, e: Entry, g: GroupId, w: WorkspaceId)
    requires Held(v) && Accepts(v, e) && (g, w) in v.members
    requires e != Sent(Leave(g, w)) && e != DroppedWorkspace(w) && e != DroppedGroup(g)
    ensures (g, w) in Learn(v, e).members
  {
    assert HasMembers(v, g) && InSomeGroup(v, w);
  }

  /** From an enter on, the pair is together until its leave or until the client drops a handle of it. */
  lemma {:induction false} MemberUntil(log: Log, i: nat, k: nat, g: GroupId, w: WorkspaceId)
    requires Accepted(log) && i < k <= |log| && log[i] == Sent(Enter(g, w))
    requires forall l | i < l < k ::
               log[l] != Sent(Leave(g, w)) && log[l] != DroppedWorkspace(w) && log[l] != DroppedGroup(g)
    ensures (g, w) in Fold(log[..k]).members
    decreases k
  {
    AcceptedAt(log, k - 1);
    if k == i + 1 {
    } else {
      MemberUntil(log, i, k - 1, g, w);
      StaysMember(Fold(log[..k - 1]), log[k - 1], g, w);
    }
  }

  /** Between a workspace's enter and the group's removal it left, or the client had dropped its handle. */
  lemma GroupRemovedAfterLeave(log: Log, i: nat, k: nat, g: GroupId, w: WorkspaceId)
    requires Accepted(log) && i < k < |log|
    requires log[i] == Sent(Enter(g, w)) && log[k] == Sent(GroupRemoved(g))
    ensures Between(log, i, k, Sent(Leave(g, w))) || Between(log, i, k, DroppedWorkspace(w))
  {
    AcceptedAt(log, k);
    if l :| i < l < k && log[l] == DroppedGroup(g) {
      NothingAfterRemoved(log, l, k, g);
    } else if forall l | i < l < k :: log[l] != Sent(Leave(g, w)) && log[l] != DroppedWorkspace(w) {
      MemberUntil(log, i, k, g, w);
    }
  }

  /** Between a workspace's enter and its removal it left, or the client had dropped the group's handle. */
  lemma WorkspaceRemovedAfterLeave(log: Log, i: nat, k: nat, g: GroupId, w: WorkspaceId)
    requires Accepted(log) && i < k < |log|
    requires log[i] == Sent(Enter(g, w)) && log[k] == Sent(WorkspaceRemoved(w))
    ensures Between(log, i, k, Sent(Leave(g, w))) || Between(log, i, k, DroppedGroup(g))
  {
    AcceptedAt(log, k);
    if l :| i < l < k && log[l] == DroppedWorkspace(w) {
      NothingAfterWorkspaceRemoved(log, l, k, w);
    } else if forall l | i < l < k :: log[l] != Sent(Leave(g, w)) && log[l] != DroppedGroup(g) {
      MemberUntil(log, i, k, g, w);
    }
  }

  // ----- ids -----------------------------------------------------------------------------

  ghost predicate HasId(v: View, w: WorkspaceId) {
    w in v.oldWorkspaces && (w in v.workspaces ==> v.workspaces[w].id.Some?)
  }

  lemma IdLasts(w: WorkspaceId)
    ensures Lasting((v: View) => HasId(v, w))
  {
  }

  /** A strict client gets at most one id for a workspace. */
  lemma IdOnce(log: Log, i: nat, k: nat, w: WorkspaceId, id: string, id': string)
    requires Accepted(log) && i < k < |log| && log[i] == Sent(Id(w, id))
    ensures log[k] != Sent(Id(w, id'))
  {
    IdLasts(w);
    AcceptedAt(log, i);
    Lasts((v: View) => HasId(v, w), log, i + 1, k);
    AcceptedAt(log, k);
  }
}

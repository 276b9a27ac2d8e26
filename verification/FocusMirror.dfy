// The two arrays of src/peachwm.c that mirror the client list and the focus list.

module FocusMirror {

  import opened ClientIds
  import opened Lists

  function Removed(s: seq<Client>, c: Client): seq<Client> {
    if s == [] then []
    else if s[0] == c then s[1..]
    else [s[0]] + Removed(s[1..], c)
  }

  /** `fstack_arr_add` after `fstack_arr_remove`: to the front, the others in their order. */
  function ToFront(s: seq<Client>, c: Client): seq<Client> {
    [c] + Removed(s, c)
  }

  lemma {:induction false} RemovedAt(s: seq<Client>, c: Client, i: nat)
    requires i < |s| && s[i] == c && c !in s[..i]
    ensures Removed(s, c) == s[..i] + s[i + 1..]
  {
    if i == 0 {
    } else {
      assert s[0] in s[..i];
      assert s[..i][1..] == s[1..][..i - 1];
      RemovedAt(s[1..], c, i - 1);
    }
  }

  lemma {:induction false} RemovedAbsent(s: seq<Client>, c: Client)
    requires c !in s
    ensures Removed(s, c) == s
  {
    if s == [] {
    } else {
      RemovedAbsent(s[1..], c);
    }
  }

  lemma {:induction false} RemovedMultiset(s: seq<Client>, c: Client)
    ensures multiset(Removed(s, c)) == multiset(s) - multiset{c}
  {
    if s == [] {
    } else {
      assert s == [s[0]] + s[1..];
      if s[0] != c {
        RemovedMultiset(s[1..], c);
      }
    }
  }

  /** Deletion of a client from lists in which it occurs once. */
  lemma RemovedDistinct(s: seq<Client>, c: Client)
    requires NoDuplicates(s)
    ensures NoDuplicates(Removed(s, c)) && forall x :: x in Removed(s, c) <==> x in s && x != c
    ensures c !in s ==> NoDuplicates([c] + s)
  {
    RemovedMultiset(s, c);
    NoDuplicatesCounts(s);
    NoDuplicatesCounts(Removed(s, c));
    assert forall x :: x in Removed(s, c) <==> multiset(Removed(s, c))[x] > 0;
    assert forall x :: x in s <==> multiset(s)[x] > 0;
    if c !in s {
      ConcatDistinct([c], s);
    }
  }

  /** Deletion from two orders of the same clients. */
  lemma RemovedBoth(s: seq<Client>, t: seq<Client>, c: Client)
    requires multiset(t) == multiset(s) && NoDuplicates(s)
    ensures multiset(Removed(t, c)) == multiset(Removed(s, c)) == multiset(s) - multiset{c}
    ensures NoDuplicates(Removed(s, c)) && NoDuplicates(Removed(t, c))
    ensures forall x :: x in Removed(s, c) <==> x in s && x != c
  {
    SameMembers(s, t);
    RemovedMultiset(s, c);
    RemovedMultiset(t, c);
    RemovedDistinct(s, c);
    RemovedDistinct(t, c);
  }

  /** Two orders of the same clients. */
  lemma SameMembers(s: seq<Client>, t: seq<Client>)
    requires multiset(t) == multiset(s) && NoDuplicates(s)
    ensures NoDuplicates(t) && forall c :: c in t <==> c in s
  {
    NoDuplicatesCounts(s);
    NoDuplicatesCounts(t);
    assert forall c :: c in t <==> c in multiset(t);
    assert forall c :: c in s <==> c in multiset(s);
  }

  /** `c` is the entry of the list that is visible with none visible before it, or null if there is none. */
  ghost predicate IsFirstVisible(s: seq<Client>, visible: set<Client>, c: Client) {
    if c == NULL then forall i | 0 <= i < |s| :: s[i] !in visible || s[i] == NULL
    else exists i :: 0 <= i < |s| && s[i] == c && c in visible
                     && forall j | 0 <= j < i :: s[j] !in visible || s[j] == NULL
  }

  /** The first client of the list that is visible. */
  function FirstVisible(s: seq<Client>, visible: set<Client>): (c: Client) {
    if s == [] then NULL
    else if s[0] in visible && s[0] != NULL then s[0]
    else FirstVisible(s[1..], visible)
  }

  lemma {:induction false} FirstVisibleIs(s: seq<Client>, visible: set<Client>)
    ensures IsFirstVisible(s, visible, FirstVisible(s, visible))
  {
    if s == [] || (s[0] in visible && s[0] != NULL) {
    } else {
      FirstVisibleIs(s[1..], visible);
      var c := FirstVisible(s, visible);
      assert forall i | 0 <= i < |s[1..]| :: s[1..][i] == s[i + 1];
      if c == NULL {
        forall i | 0 <= i < |s| ensures s[i] !in visible || s[i] == NULL {
          assert i > 0 ==> s[1..][i - 1] == s[i];
        }
      } else {
        var i :| 0 <= i < |s[1..]| && s[1..][i] == c && c in visible
                 && forall j | 0 <= j < i :: s[1..][j] !in visible || s[1..][j] == NULL;
        assert s[i + 1] == c;
        forall j | 0 <= j < i + 1 ensures s[j] !in visible || s[j] == NULL {
          assert j > 0 ==> s[1..][j - 1] == s[j];
        }
      }
    }
  }

  /** A growable array of clients: `client_arr` with `nclients`, or `fstack_arr` with `nfstack`. */
  class ClientArray {
    var data: array<Client>
    var count: nat

    ghost predicate Valid()
      reads this, data
    {
      count <= data.Length
    }

    ghost function Items(): seq<Client>
      reads this, data
      requires Valid()
    {
      data[..count]
    }

    constructor ()
      ensures Valid() && Items() == [] && fresh(data)
    {
      data := new Client[64](_ => NULL);
      count := 0;
    }

    method Grow()
      requires Valid()
      modifies this`data
      ensures Valid() && Items() == old(Items()) && count < data.Length
      ensures data == old(data) || fresh(data)
    {
      if count >= data.Length {
        var capacity := if data.Length > 0 then data.Length * 2 else 64;
        var grown := new Client[capacity](_ => NULL);
        forall i | 0 <= i < data.Length {
          grown[i] := data[i];
        }
        data := grown;
      }
    }

    /** `client_arr_add`: at the end. */
    method Append(c: Client)
      requires Valid()
      modifies this, data
      ensures Valid() && Items() == old(Items()) + [c] && (data == old(data) || fresh(data))
    {
      Grow();
      data[count] := c;
      count := count + 1;
    }

    /** The search at the front of both removals. */
    method Find(c: Client) returns (i: nat)
      requires Valid()
      ensures i <= count && c !in Items()[..i] && (i < count ==> Items()[i] == c)
    {
      i := 0;
      while i < count
        invariant 0 <= i <= count && c !in Items()[..i]
      {
        if data[i] == c {
          return;
        }
        assert Items()[..i + 1] == Items()[..i] + [data[i]];
        i := i + 1;
      }
    }

    method FillFromEnd(i: nat)
      requires Valid() && i < count
      modifies this`count, data
      ensures Valid() && count == old(count) - 1
      ensures Items() == old(Items())[i := old(Items())[count]][..count]
    {
      count := count - 1;
      data[i] := data[count];
    }

    /** `client_arr_remove`: the last entry fills the gap. */
    method SwapRemove(c: Client)
      requires Valid()
      modifies this`count, data
      ensures Valid() && multiset(Items()) == multiset(old(Items())) - multiset{c}
    {
      ghost var s := Items();
      var i := Find(c);
      if i < count {
        SwapRemoved(s, i, c);
        FillFromEnd(i);
        assert Items() == s[i := s[|s| - 1]][..|s| - 1];
      } else {
        assert s[..i] == s;
        AbsentMultiset(s, c);
      }
    }

    /** `fstack_arr_add`: `memmove` up by one, then the new client at the front. */
    method Prepend(c: Client)
      requires Valid()
      modifies this, data
      ensures Valid() && Items() == [c] + old(Items()) && (data == old(data) || fresh(data))
    {
      Grow();
      ghost var s := Items();
      var i := count;
      while i > 0
        invariant data == old(data) || fresh(data)
        invariant 0 <= i <= count < data.Length && count == |s|
        invariant forall k | 0 <= k < i :: data[k] == s[k]
        invariant forall k | i < k <= count :: data[k] == s[k - 1]
      {
        data[i] := data[i - 1];
        i := i - 1;
      }
      data[0] := c;
      count := count + 1;
      forall k | 0 <= k < count ensures data[k] == ([c] + s)[k] {
      }
      assert Items() == [c] + s;
    }

    /** The `memmove` of `fstack_arr_remove`: everything after entry `i` moves down by one. */
    method MoveDown(i: nat)
      requires Valid() && i < count
      modifies this`count, data
      ensures Valid() && Items() == old(Items())[..i] + old(Items())[i + 1..]
    {
      ghost var s := Items();
      var k := i;
      while k + 1 < count
        invariant i <= k < count == |s| && count <= data.Length
        invariant forall j | 0 <= j < i :: data[j] == s[j]
        invariant forall j | i <= j < k :: data[j] == s[j + 1]
        invariant forall j | k < j < count :: data[j] == s[j]
      {
        data[k] := data[k + 1];
        k := k + 1;
      }
      count := count - 1;
      assert Items() == s[..i] + s[i + 1..];
    }

    /** `fstack_arr_remove`: `memmove` down over the gap. */
    method ShiftRemove(c: Client)
      requires Valid()
      modifies this`count, data
      ensures Valid() && Items() == Removed(old(Items()), c)
    {
      ghost var s := Items();
      var i := Find(c);
      if i < count {
        MoveDown(i);
        RemovedAt(s, c, i);
      } else {
        assert s[..i] == s;
        RemovedAbsent(s, c);
      }
    }

    /** The loop of `focustop`. */
    method FirstVisibleItem(visible: set<Client>) returns (c: Client)
      requires Valid() && NULL !in Items()
      ensures c == FirstVisible(Items(), visible) && IsFirstVisible(Items(), visible, c)
    {
      FirstVisibleIs(Items(), visible);
      var i := 0;
      while i < count
        invariant 0 <= i <= count
        invariant FirstVisible(Items(), visible) == FirstVisible(Items()[i..], visible)
      {
        assert Items()[i..][1..] == Items()[i + 1..];
        assert Items()[i] in Items();
        if data[i] in visible {
          return data[i];
        }
        i := i + 1;
      }
      return NULL;
    }
  }

  lemma AbsentMultiset(s: seq<Client>, c: Client)
    requires c !in s
    ensures multiset(s) - multiset{c} == multiset(s)
  {
    assert c !in multiset(s);
  }

  lemma SwapRemoved(s: seq<Client>, i: nat, c: Client)
    requires i < |s| && s[i] == c
    ensures multiset(s[i := s[|s| - 1]][..|s| - 1]) == multiset(s) - multiset{c}
  {
    var last := |s| - 1;
    assert s == s[..last] + [s[last]];
    var t := s[i := s[last]];
    if i < last {
      assert t[..last] == s[..i] + [s[last]] + s[i + 1..last];
      assert s == s[..i] + [s[i]] + s[i + 1..last] + [s[last]];
    } else {
      assert t[..last] == s[..last];
    }
  }

  /** Moving a client of the list to the front keeps the multiset. */
  lemma ToFrontMultiset(s: seq<Client>, c: Client)
    requires c in s
    ensures multiset(ToFront(s, c)) == multiset(s)
  {
    RemovedMultiset(s, c);
    assert multiset(s)[c] >= 1;
  }

  /** The lists and the arrays that mirror them. */
  class Clients {
    var clients: seq<Client>
    var focus: seq<Client>
    const clientArr: ClientArray
    const focusArr: ClientArray

    ghost predicate Mirrored()
      reads this, clientArr, clientArr.data, focusArr, focusArr.data
    {
      && clientArr.Valid() && focusArr.Valid() && clientArr != focusArr && clientArr.data != focusArr.data
      && focusArr.Items() == focus
      && multiset(clientArr.Items()) == multiset(clients)
      && multiset(focus) == multiset(clients)
      && NoDuplicates(clients) && NULL !in clients
    }

    constructor ()
      ensures Mirrored() && clients == focus == []
      ensures fresh(clientArr) && fresh(focusArr) && fresh(clientArr.data) && fresh(focusArr.data)
    {
      clients, focus := [], [];
      clientArr := new ClientArray();
      focusArr := new ClientArray();
    }

    /** `mapnotify`: the new client goes to the front of both lists. */
    method Map(c: Client)
      requires Mirrored() && c != NULL && c !in clients
      modifies this, clientArr, clientArr.data, focusArr, focusArr.data
      ensures Mirrored() && clients == [c] + old(clients) && focus == [c] + old(focus)
      ensures clientArr.data == old(clientArr.data) || fresh(clientArr.data)
      ensures focusArr.data == old(focusArr.data) || fresh(focusArr.data)
    {
      RemovedDistinct(clients, c);
      clients := [c] + clients;
      focus := [c] + focus;
      clientArr.Append(c);
      focusArr.Prepend(c);
    }

    /** The list updates of `focusclient` for a managed client. */
    method Focus(c: Client)
      requires Mirrored() && c in clients
      modifies this`focus, focusArr, focusArr.data
      ensures Mirrored() && focus == ToFront(old(focus), c)
      ensures focusArr.data == old(focusArr.data) || fresh(focusArr.data)
    {
      SameMembers(clients, focus);
      ToFrontMultiset(focus, c);
      focus := ToFront(focus, c);
      focusArr.ShiftRemove(c);
      focusArr.Prepend(c);
    }

    /** The list updates of `unmapnotify` for a managed client. */
    method Unmap(c: Client)
      requires Mirrored() && c in clients
      modifies this, clientArr, clientArr.data, focusArr, focusArr.data
      ensures Mirrored() && clients == Removed(old(clients), c) && focus == Removed(old(focus), c)
      ensures clientArr.data == old(clientArr.data) && focusArr.data == old(focusArr.data)
    {
      RemovedBoth(clients, focus, c);
      clients := Removed(clients, c);
      focus := Removed(focus, c);
      clientArr.SwapRemove(c);
      focusArr.ShiftRemove(c);
    }

    /** `focustop` reads the array; it finds the first visible client of the focus list. */
    method FocusTop(visible: set<Client>) returns (c: Client)
      requires Mirrored()
      ensures c == FirstVisible(focus, visible) && IsFirstVisible(focus, visible, c)
    {
      SameMembers(clients, focus);
      c := focusArr.FirstVisibleItem(visible);
    }
  }

  /** What the windows of a session do to the lists. */
  datatype Action = MapIt(c: Client) | FocusIt(c: Client) | UnmapIt(c: Client)

  predicate Allowed(clients: seq<Client>, a: Action) {
    match a
    case MapIt(c) => c != NULL && c !in clients
    case FocusIt(c) => c in clients
    case UnmapIt(c) => c in clients
  }

  /** Both lists after one action; an action that cannot happen is passed over. */
  function ReplayOne(clients: seq<Client>, focus: seq<Client>, a: Action): (seq<Client>, seq<Client>) {
    if !Allowed(clients, a) then (clients, focus)
    else
      match a
      case MapIt(c) => ([c] + clients, [c] + focus)
      case FocusIt(c) => (clients, ToFront(focus, c))
      case UnmapIt(c) => (Removed(clients, c), Removed(focus, c))
  }

  function Replay(actions: seq<Action>): (seq<Client>, seq<Client>) {
    if actions == [] then ([], [])
    else
      var (clients, focus) := Replay(actions[..|actions| - 1]);
      ReplayOne(clients, focus, actions[|actions| - 1])
  }

  method Perform(w: Clients, a: Action)
    requires w.Mirrored()
    modifies w, w.clientArr, w.clientArr.data, w.focusArr, w.focusArr.data
    ensures w.Mirrored() && (w.clients, w.focus) == ReplayOne(old(w.clients), old(w.focus), a)
    ensures w.clientArr.data == old(w.clientArr.data) || fresh(w.clientArr.data)
    ensures w.focusArr.data == old(w.focusArr.data) || fresh(w.focusArr.data)
  {
    if Allowed(w.clients, a) {
      match a
      case MapIt(c) => w.Map(c);
      case FocusIt(c) => w.Focus(c);
      case UnmapIt(c) => w.Unmap(c);
    }
  }

  /**
   * A whole session: after any sequence of map, focus and unmap events the array-based focustop
   * agrees with the focus list, for every set of visible clients.
   */
  method Session(actions: seq<Action>, visible: set<Client>) returns (top: Client)
    ensures IsFirstVisible(Replay(actions).1, visible, top)
  {
    var w := new Clients();
    var i := 0;
    while i < |actions|
      invariant 0 <= i <= |actions| && w.Mirrored()
      invariant fresh(w) && fresh(w.clientArr) && fresh(w.clientArr.data) && fresh(w.focusArr) && fresh(w.focusArr.data)
      invariant (w.clients, w.focus) == Replay(actions[..i])
    {
      assert actions[..i + 1][..i] == actions[..i];
      Perform(w, actions[i]);
      i := i + 1;
    }
    assert actions[..i] == actions;
    top := w.FocusTop(visible);
  }

  /** Over every session the two lists hold the same clients, each once. */
  lemma {:induction false} SessionLists(actions: seq<Action>)
    ensures var (clients, focus) := Replay(actions);
            && NoDuplicates(clients) && NoDuplicates(focus) && multiset(focus) == multiset(clients)
            && NULL !in clients
  {
    if actions == [] {
    } else {
      SessionLists(actions[..|actions| - 1]);
      var (clients, focus) := Replay(actions[..|actions| - 1]);
      ReplayOneLists(clients, focus, actions[|actions| - 1]);
    }
  }

  lemma ReplayOneLists(clients: seq<Client>, focus: seq<Client>, a: Action)
    requires NoDuplicates(clients) && multiset(focus) == multiset(clients) && NULL !in clients
    ensures var (clients', focus') := ReplayOne(clients, focus, a);
            && NoDuplicates(clients') && NoDuplicates(focus') && multiset(focus') == multiset(clients')
            && NULL !in clients'
  {
    SameMembers(clients, focus);
    if Allowed(clients, a) {
      RemovedDistinct(clients, a.c);
      RemovedDistinct(focus, a.c);
      match a
      case MapIt(c) =>
      case FocusIt(c) =>
        ToFrontMultiset(focus, c);
        ConcatDistinct([c], Removed(focus, c));
      case UnmapIt(c) => RemovedBoth(clients, focus, c);
    }
  }

  // ----- what the lists are, from the events alone ----------------------------------------

  /** Every event of the session can happen when its turn comes. */
  predicate AllAllowed(actions: seq<Action>) {
    actions == [] || (AllAllowed(actions[..|actions| - 1])
                      && Allowed(Replay(actions[..|actions| - 1]).0, actions[|actions| - 1]))
  }

  /** The number of the last event that mapped `c`, or -1. */
  function LastMap(actions: seq<Action>, c: Client): int {
    if actions == [] then -1
    else if actions[|actions| - 1] == MapIt(c) then |actions| - 1
    else LastMap(actions[..|actions| - 1], c)
  }

  /** The number of the last event that mapped or focused `c`, or -1. */
  function LastTouch(actions: seq<Action>, c: Client): int {
    if actions == [] then -1
    else if actions[|actions| - 1] == MapIt(c) || actions[|actions| - 1] == FocusIt(c) then |actions| - 1
    else LastTouch(actions[..|actions| - 1], c)
  }

  function MapKey(actions: seq<Action>): Client -> int {
    (c: Client) => LastMap(actions, c)
  }

  function TouchKey(actions: seq<Action>): Client -> int {
    (c: Client) => LastTouch(actions, c)
  }

  lemma {:induction false} TouchBounds(actions: seq<Action>, c: Client)
    ensures -1 <= LastMap(actions, c) < |actions| && -1 <= LastTouch(actions, c) < |actions|
  {
    if actions == [] {
    } else {
      TouchBounds(actions[..|actions| - 1], c);
    }
  }

  /** The list is ordered by the key, largest first. */
  ghost predicate Descending(s: seq<Client>, key: Client -> int) {
    forall i, j | 0 <= i < j < |s| :: key(s[i]) > key(s[j])
  }

  lemma RemovedDescending(s: seq<Client>, c: Client, key: Client -> int)
    requires Descending(s, key)
    ensures Descending(Removed(s, c), key)
  {
    if c in s {
      var i := FirstAt(s, c);
      RemovedAt(s, c, i);
      var r := s[..i] + s[i + 1..];
      forall a, b | 0 <= a < b < |r| ensures key(r[a]) > key(r[b]) {
        assert r[a] == s[if a < i then a else a + 1] && r[b] == s[if b < i then b else b + 1];
      }
    } else {
      RemovedAbsent(s, c);
    }
  }

  lemma {:induction false} FirstAt(s: seq<Client>, c: Client) returns (i: nat)
    requires c in s
    ensures i < |s| && s[i] == c && c !in s[..i]
  {
    if s[0] == c {
      i := 0;
    } else {
      i := FirstAt(s[1..], c);
      assert s[..i + 1] == [s[0]] + s[1..][..i];
      i := i + 1;
    }
  }

  /** `c` in front of a list whose other entries have smaller keys. */
  lemma ConsDescending(s: seq<Client>, c: Client, key: Client -> int)
    requires Descending(s, key) && forall x | x in s :: key(c) > key(x)
    ensures Descending([c] + s, key)
  {
  }

  /** Keys that agree on the entries give the same order. */
  lemma SameKeys(s: seq<Client>, key: Client -> int, key': Client -> int)
    requires Descending(s, key) && forall x | x in s :: key'(x) == key(x)
    ensures Descending(s, key')
  {
    forall i, j | 0 <= i < j < |s| ensures key'(s[i]) > key'(s[j]) {
      assert s[i] in s && s[j] in s;
    }
  }

  /**
   * After any session: a client is listed exactly if its last map is not followed by its unmap; the client
   * list has the latest map first, and the focus list the latest map or focus first.
   */
  lemma {:induction false} SessionOrder(actions: seq<Action>)
    requires AllAllowed(actions)
    ensures var (clients, focus) := Replay(actions);
            && Descending(clients, MapKey(actions)) && Descending(focus, TouchKey(actions))
            && (forall c :: c in clients <==> c in focus)
            && forall c :: c in clients <==> Mapped(actions, c)
  {
    if actions == [] {
    } else {
      var front, a := actions[..|actions| - 1], actions[|actions| - 1];
      SessionOrder(front);
      SessionLists(front);
      MappedStep(front, a);
      assert actions == front + [a];
      var (clients0, focus0) := Replay(front);
      OrderStep(front, a, clients0, focus0);
      MembersStep(a, clients0, focus0);
    }
  }

  /** What can happen next: a map of a client that is not mapped, a focus or an unmap of one that is. */
  lemma AllowedNext(actions: seq<Action>, a: Action)
    requires AllAllowed(actions)
    ensures AllAllowed(actions + [a]) <==>
            if a.MapIt? then a.c != NULL && !Mapped(actions, a.c) else Mapped(actions, a.c)
  {
    SessionOrder(actions);
    assert (actions + [a])[..|actions|] == actions;
  }

  lemma MembersStep(a: Action, clients: seq<Client>, focus: seq<Client>)
    requires Allowed(clients, a) && NoDuplicates(clients) && NoDuplicates(focus)
    requires forall c :: c in clients <==> c in focus
    ensures var (clients', focus') := ReplayOne(clients, focus, a);
            && (forall c :: c in clients' <==> a == MapIt(c) || (c in clients && a != UnmapIt(c)))
            && forall c :: c in clients' <==> c in focus'
  {
    RemovedDistinct(clients, a.c);
    RemovedDistinct(focus, a.c);
  }

  /** `c` has been mapped, and not unmapped since. */
  ghost predicate Mapped(actions: seq<Action>, c: Client) {
    exists i :: 0 <= i < |actions| && actions[i] == MapIt(c)
                && forall j | i < j < |actions| :: actions[j] != UnmapIt(c)
  }

  lemma MappedStep(front: seq<Action>, a: Action)
    ensures forall c :: Mapped(front + [a], c) <==> a == MapIt(c) || (Mapped(front, c) && a != UnmapIt(c))
  {
    var actions := front + [a];
    forall c ensures Mapped(actions, c) <==> a == MapIt(c) || (Mapped(front, c) && a != UnmapIt(c)) {
      if a == MapIt(c) {
        assert actions[|front|] == MapIt(c);
      } else if Mapped(front, c) && a != UnmapIt(c) {
        var i :| 0 <= i < |front| && front[i] == MapIt(c) && forall j | i < j < |front| :: front[j] != UnmapIt(c);
        assert actions[i] == MapIt(c);
      } else if Mapped(actions, c) {
        assert actions[|front|] == a;
        var i :| 0 <= i < |actions| && actions[i] == MapIt(c)
                 && forall j | i < j < |actions| :: actions[j] != UnmapIt(c);
        assert front[i] == MapIt(c);
        forall j | i < j < |front| ensures front[j] != UnmapIt(c) {
          assert actions[j] == front[j];
        }
      }
    }
  }

  lemma OrderStep(front: seq<Action>, a: Action, clients: seq<Client>, focus: seq<Client>)
    requires Allowed(clients, a) && NoDuplicates(clients) && NoDuplicates(focus)
    requires Descending(clients, MapKey(front)) && Descending(focus, TouchKey(front))
    requires forall c :: c in clients <==> c in focus
    ensures var (clients', focus') := ReplayOne(clients, focus, a);
            var actions := front + [a];
            Descending(clients', MapKey(actions)) && Descending(focus', TouchKey(actions))
  {
    var actions := front + [a];
    NextKeys(front, a);
    match a
    case MapIt(c) =>
      SameKeys(clients, MapKey(front), MapKey(actions));
      SameKeys(focus, TouchKey(front), TouchKey(actions));
      ConsDescending(clients, c, MapKey(actions));
      ConsDescending(focus, c, TouchKey(actions));
    case FocusIt(c) =>
      RemovedDistinct(focus, c);
      RemovedDescending(focus, c, TouchKey(front));
      SameKeys(clients, MapKey(front), MapKey(actions));
      SameKeys(Removed(focus, c), TouchKey(front), TouchKey(actions));
      ConsDescending(Removed(focus, c), c, TouchKey(actions));
    case UnmapIt(c) =>
      RemovedDistinct(clients, c);
      RemovedDistinct(focus, c);
      RemovedDescending(clients, c, MapKey(front));
      RemovedDescending(focus, c, TouchKey(front));
      SameKeys(Removed(clients, c), MapKey(front), MapKey(actions));
      SameKeys(Removed(focus, c), TouchKey(front), TouchKey(actions));
  }

  /** One more event: its client's keys are the largest, the others' are as before. */
  lemma NextKeys(front: seq<Action>, a: Action)
    ensures forall c ::
              && MapKey(front + [a])(c) == (if a == MapIt(c) then |front| else MapKey(front)(c))
              && TouchKey(front + [a])(c) == (if a == MapIt(c) || a == FocusIt(c) then |front| else TouchKey(front)(c))
              && MapKey(front)(c) < |front| && TouchKey(front)(c) < |front|
  {
    assert (front + [a])[..|front|] == front;
    forall c: Client ensures MapKey(front)(c) < |front| && TouchKey(front)(c) < |front| {
      TouchBounds(front, c);
    }
  }

  /** Focusing a client makes it the top whenever it is visible, and keeps the order of the others. */
  lemma FocusOnTop(focus: seq<Client>, c: Client, visible: set<Client>)
    requires c != NULL && c in visible
    ensures FirstVisible(ToFront(focus, c), visible) == c
    ensures Removed(ToFront(focus, c), c) == Removed(focus, c)
  {
    assert ToFront(focus, c)[1..] == Removed(focus, c);
  }
}

/** Clients of the namespaces: whom each namespace counts, over the lives of the clients. */
module NamespaceClients {
  import opened Options
  import opened NamespaceConfig

  /** MAXCLIENTS. */
  const CLIENT_LIMIT := 2048

  type Client = c: nat | c < CLIENT_LIMIT

  const SERVER_CLIENT: Client := 0

  /** The values of a size_t. */
  const SIZE_RANGE := 0x1_0000_0000_0000_0000

  /** ns gives the place of a client's namespace in the list, for the clients that have one. */
  datatype State = State(list: seq<Namespace>, ns: map<Client, nat>)

  function Recounted(list: seq<Namespace>, i: nat, delta: int): seq<Namespace> {
    if i < |list| then list[i := list[i].(refcnt := (list[i].refcnt + delta) % SIZE_RANGE)] else list
  }

  /** XnamespaceAssignClient; None for no namespace. */
  function Assigned(s: State, c: Client, ns: Option<nat>): State {
    var left := if c in s.ns then Recounted(s.list, s.ns[c], -1) else s.list;
    if ns.None? then State(left, s.ns - {c}) else State(Recounted(left, ns.value, 1), s.ns[c := ns.value])
  }

  datatype Event =
    | ClientInitial(client: Client)
    | ClientRunning(client: Client, auth: Option<Token>)
    | ClientRetained(client: Client)
    | ClientGone(client: Client)
    | ClientDestroyed(client: Client)
    | AssignedByName(client: Client, name: string)

  /** XnsFindByName, with anon for none. */
  function ByName(list: seq<Namespace>, name: string): nat {
    if FindName(list, name) < |list| then FindName(list, name) else ANON
  }

  /** The namespace an event puts its client into: None for no change, Some(None) for none at all. */
  function Goal(list: seq<Namespace>, e: Event): Option<Option<nat>> {
    match e
    case ClientInitial(_) => Some(Some(ANON))
    case ClientRunning(_, auth) => if auth.None? then None else Some(Some(FoundByAuth(list, auth.value)))
    case ClientRetained(_) | ClientGone(_) => None
    case ClientDestroyed(_) => Some(None)
    case AssignedByName(_, name) => Some(Some(ByName(list, name)))
  }

  function Step(s: State, e: Event): State {
    var goal := Goal(s.list, e);
    if goal.None? then s else Assigned(s, e.client, goal.value)
  }

  function Run(s: State, events: seq<Event>): State {
    if events == [] then s else Step(Run(s, events[..|events| - 1]), events[|events| - 1])
  }

  /** NamespaceExtensionInit: the configuration is loaded and the server itself is put into root. */
  function Started(list: seq<Namespace>): State {
    Assigned(State(list, map[]), SERVER_CLIENT, Some(ROOT))
  }

  // ---------------------------------------------------------------- counting

  function Members(ns: map<Client, nat>, i: nat): set<Client> {
    set c | c in ns && ns[c] == i
  }

  /** Apart from the counts the list is the one loaded, and each count is the loaded one and one for every member. */
  ghost predicate Counted(s: State, loaded: seq<Namespace>) {
    && |s.list| == |loaded|
    && (forall i :: 0 <= i < |loaded| ==> s.list[i] == loaded[i].(refcnt := loaded[i].refcnt + |Members(s.ns, i)|))
    && (forall c :: c in s.ns ==> s.ns[c] < |loaded|)
  }

  /** What a configuration leaves: both built-in namespaces, and counts of at most one. */
  predicate Fresh(loaded: seq<Namespace>) {
    |loaded| >= 2 && forall i :: 0 <= i < |loaded| ==> loaded[i].refcnt <= 1
  }

  lemma {:induction false} LoadedFresh(ds: seq<Directive>)
    ensures Fresh(Loaded(ds).list)
  {
    if ds != [] {
      LoadedFresh(ds[..|ds| - 1]);
    }
  }

  lemma {:induction false} Below(n: nat, s: set<nat>)
    requires forall c :: c in s ==> c < n
    ensures |s| <= n
  {
    if n > 0 {
      Below(n - 1, s - {n - 1});
    }
  }

  lemma MembersBounded(ns: map<Client, nat>, i: nat)
    ensures |Members(ns, i)| <= CLIENT_LIMIT
  {
    var s: set<nat> := set c | c in ns && ns[c] == i;
    assert s == Members(ns, i);
    Below(CLIENT_LIMIT, s);
  }

  lemma MembersLeft(ns: map<Client, nat>, c: Client, i: nat)
    ensures Members(ns - {c}, i) == Members(ns, i) - {c}
    ensures |Members(ns - {c}, i)| == |Members(ns, i)| - if c in ns && ns[c] == i then 1 else 0
  {
  }

  lemma MembersJoined(ns: map<Client, nat>, c: Client, k: nat, i: nat)
    requires c !in ns
    ensures |Members(ns[c := k], i)| == |Members(ns, i)| + if k == i then 1 else 0
  {
    assert Members(ns[c := k], i) == Members(ns, i) + if k == i then {c} else {};
  }

  lemma LeftCounted(s: State, loaded: seq<Namespace>, c: Client)
    requires Fresh(loaded) && Counted(s, loaded)
    ensures Counted(Assigned(s, c, None), loaded)
    ensures c in s.ns ==> s.list[s.ns[c]].refcnt > 0
  {
    forall i | 0 <= i < |loaded|
      ensures Assigned(s, c, None).list[i] ==
              loaded[i].(refcnt := loaded[i].refcnt + |Members(s.ns - {c}, i)|)
    {
      MembersLeft(s.ns, c, i);
      MembersBounded(s.ns, i);
    }
    if c in s.ns {
      assert c in Members(s.ns, s.ns[c]);
    }
  }

  lemma JoinedCounted(s: State, loaded: seq<Namespace>, c: Client, k: nat)
    requires Fresh(loaded) && Counted(s, loaded) && c !in s.ns && k < |loaded|
    ensures Counted(Assigned(s, c, Some(k)), loaded)
  {
    forall i | 0 <= i < |loaded|
      ensures Assigned(s, c, Some(k)).list[i] ==
              loaded[i].(refcnt := loaded[i].refcnt + |Members(s.ns[c := k], i)|)
    {
      MembersJoined(s.ns, c, k, i);
      MembersBounded(s.ns[c := k], i);
    }
  }

  /** Assigning keeps the counts, and the count it lowers was not zero. */
  lemma AssignedCounted(s: State, loaded: seq<Namespace>, c: Client, ns: Option<nat>)
    requires Fresh(loaded) && Counted(s, loaded) && (ns.Some? ==> ns.value < |loaded|)
    ensures Counted(Assigned(s, c, ns), loaded)
    ensures c in s.ns ==> s.list[s.ns[c]].refcnt > 0
  {
    LeftCounted(s, loaded, c);
    if ns.Some? {
      var t := Assigned(s, c, None);
      JoinedCounted(t, loaded, c, ns.value);
      assert t.ns[c := ns.value] == s.ns[c := ns.value];
      assert c !in s.ns ==> t.ns == s.ns;
    }
  }

  lemma GoalInList(s: State, loaded: seq<Namespace>, e: Event)
    requires Fresh(loaded) && Counted(s, loaded)
    ensures var goal := Goal(s.list, e);
            goal.Some? && goal.value.Some? ==> goal.value.value < |loaded|
    ensures Goal(s.list, e) == Goal(loaded, e)
  {
    if e.ClientRunning? && e.auth.Some? {
      SameHolder(s.list, loaded, e.auth.value);
    } else if e.AssignedByName? {
      SameFindName(s.list, loaded, e.name);
    }
  }

  lemma {:induction false} SameHolder(a: seq<Namespace>, b: seq<Namespace>, token: Token)
    requires |a| == |b| && forall i :: 0 <= i < |a| ==> a[i].tokens == b[i].tokens
    ensures Holder(a, token) == Holder(b, token)
  {
    if a != [] {
      SameHolder(a[1..], b[1..], token);
    }
  }

  lemma {:induction false} SameFindName(a: seq<Namespace>, b: seq<Namespace>, name: string)
    requires |a| == |b| && forall i :: 0 <= i < |a| ==> a[i].name == b[i].name
    ensures FindName(a, name) == FindName(b, name)
  {
    if a != [] {
      SameFindName(a[1..], b[1..], name);
    }
  }

  // ---------------------------------------------------------------- runs

  /** The namespace a client was last put into. */
  function NamespaceAfter(loaded: seq<Namespace>, events: seq<Event>, c: Client): Option<nat> {
    if events == [] then (if c == SERVER_CLIENT then Some(ROOT) else None) else
      var before, last := events[..|events| - 1], events[|events| - 1];
      if last.client == c && Goal(loaded, last).Some? then Goal(loaded, last).value
      else NamespaceAfter(loaded, before, c)
  }

  /** Over every run the counts are those of the members, and every client is where its last event put it. */
  lemma {:induction false} RunCounted(loaded: seq<Namespace>, events: seq<Event>)
    requires Fresh(loaded)
    ensures var s := Run(Started(loaded), events);
            && Counted(s, loaded)
            && forall c: Client :: NamespaceAfter(loaded, events, c) == if c in s.ns then Some(s.ns[c]) else None
  {
    if events == [] {
      assert Members(map[], 0) == {};
      assert forall i :: Members(map[], i) == {};
      AssignedCounted(State(loaded, map[]), loaded, SERVER_CLIENT, Some(ROOT));
    } else {
      var before, last := events[..|events| - 1], events[|events| - 1];
      RunCounted(loaded, before);
      var s := Run(Started(loaded), before);
      GoalInList(s, loaded, last);
      var goal := Goal(loaded, last);
      if goal.Some? {
        AssignedCounted(s, loaded, last.client, goal.value);
      }
    }
  }

  /** The event decides about the namespace of the client. */
  predicate Decides(e: Event, c: Client) {
    && e.client == c
    && (e.ClientInitial? || e.ClientDestroyed? || e.AssignedByName? || (e.ClientRunning? && e.auth.Some?))
  }

  predicate LastDecides(events: seq<Event>, i: nat, c: Client) {
    i < |events| && Decides(events[i], c) && forall j :: i < j < |events| ==> !Decides(events[j], c)
  }

  lemma {:induction false} LastDecided(loaded: seq<Namespace>, events: seq<Event>, i: nat, c: Client)
    requires LastDecides(events, i, c)
    ensures Goal(loaded, events[i]).Some? && NamespaceAfter(loaded, events, c) == Goal(loaded, events[i]).value
  {
    if i < |events| - 1 {
      var before := events[..|events| - 1];
      assert before[i] == events[i] && !Decides(events[|events| - 1], c);
      LastDecided(loaded, before, i, c);
    }
  }

  lemma {:induction false} NeverDecided(loaded: seq<Namespace>, events: seq<Event>, c: Client)
    requires forall i :: 0 <= i < |events| ==> !Decides(events[i], c)
    ensures NamespaceAfter(loaded, events, c) == if c == SERVER_CLIENT then Some(ROOT) else None
  {
    if events != [] {
      NeverDecided(loaded, events[..|events| - 1], c);
    }
  }

  /** The client is in the namespace of that name. */
  predicate In(s: State, c: Client, name: string) {
    c in s.ns && s.ns[c] < |s.list| && s.list[s.ns[c]].name == name
  }

  /** Over every run, whatever the configuration, each client is where the last event that decided put it: a new client
      in anon; one assigned by name in the namespace of that name, or in anon if there is none; one with a credential in
      the first namespace a line gives it to, or in anon; one destroyed in none. */
  lemma PlacedByLast(ds: seq<Directive>, events: seq<Event>, i: nat, c: Client)
    requires LastDecides(events, i, c)
    ensures var s := Run(Started(Loaded(ds).list), events);
            match events[i] {
              case ClientInitial(_) => In(s, c, "anon")
              case AssignedByName(_, name) => In(s, c, if name in Names(ds) then name else "anon")
              case ClientRunning(_, auth) =>
                && auth.Some? && c in s.ns
                && if forall j, name :: !Gives(ds, j, name, auth.value) then In(s, c, "anon")
                   else GivenFirst(ds, s.ns[c], auth.value) && In(s, c, Names(ds)[s.ns[c]])
              case _ => c !in s.ns
            }
  {
    var loaded := Loaded(ds).list;
    var s := Run(Started(loaded), events);
    LoadedFresh(ds);
    RunCounted(loaded, events);
    LastDecided(loaded, events, i, c);
    NamesHeld(ds, s);
    NamesDistinct(ds);
    match events[i] {
      case AssignedByName(_, name) => NameFound(ds, name);
      case ClientRunning(_, auth) => FoundExactly(ds, auth.value, FoundByAuth(loaded, auth.value));
      case _ =>
    }
  }

  /** A client about which no event decided has no namespace; the server is in root. */
  lemma PlacedByNone(ds: seq<Directive>, events: seq<Event>, c: Client)
    requires forall i :: 0 <= i < |events| ==> !Decides(events[i], c)
    ensures var s := Run(Started(Loaded(ds).list), events);
            if c == SERVER_CLIENT then In(s, c, "root") else c !in s.ns
  {
    var loaded := Loaded(ds).list;
    LoadedFresh(ds);
    RunCounted(loaded, events);
    NeverDecided(loaded, events, c);
    NamesHeld(ds, Run(Started(loaded), events));
    NamesDistinct(ds);
  }

  lemma NamesHeld(ds: seq<Directive>, s: State)
    requires Counted(s, Loaded(ds).list)
    ensures |s.list| == |Names(ds)| && forall i :: 0 <= i < |s.list| ==> s.list[i].name == Names(ds)[i]
  {
    LoadedMeans(ds);
    forall i | 0 <= i < |s.list| ensures s.list[i].name == Names(ds)[i] {
      DeclaredName(ds, Names(ds)[i]);
    }
  }

  lemma NameFound(ds: seq<Directive>, name: string)
    ensures var k := ByName(Loaded(ds).list, name);
            k < |Names(ds)| && Names(ds)[k] == if name in Names(ds) then name else "anon"
  {
    LoadedMeans(ds);
    NamesDistinct(ds);
    forall i | 0 <= i < |Names(ds)| ensures Loaded(ds).list[i].name == Names(ds)[i] {
      DeclaredName(ds, Names(ds)[i]);
    }
  }

  /** The clients created and not yet destroyed. */
  function Live(events: seq<Event>): set<Client> {
    if events == [] then {} else
      var before, last := Live(events[..|events| - 1]), events[|events| - 1];
      match last
      case ClientInitial(c) => before + {c}
      case ClientDestroyed(c) => before - {c}
      case _ => before
  }

  /** The server tells of its clients between their creation and their destruction, and never of itself. */
  predicate Lifecycle(events: seq<Event>) {
    events == [] ||
    var before, last := events[..|events| - 1], events[|events| - 1];
    && Lifecycle(before) && last.client != SERVER_CLIENT
    && (last.ClientInitial? || last.client in Live(before))
  }

  /** Every live client has a namespace, and no other client has one. */
  lemma {:induction false} LiveAssigned(loaded: seq<Namespace>, events: seq<Event>)
    requires Fresh(loaded) && Lifecycle(events)
    ensures Run(Started(loaded), events).ns.Keys == Live(events) + {SERVER_CLIENT}
    ensures SERVER_CLIENT !in Live(events)
    ensures Run(Started(loaded), events).ns[SERVER_CLIENT] == ROOT
  {
    if events != [] {
      LiveAssigned(loaded, events[..|events| - 1]);
    }
  }

  lemma SameMembersSameCounts(s: State, t: State, loaded: seq<Namespace>)
    requires Counted(s, loaded) && Counted(t, loaded) && s.ns == t.ns
    ensures s == t
  {
    assert s.list == t.list;
  }

  /** When all clients are gone, every count is what it was when the extension had started. */
  lemma AllGone(loaded: seq<Namespace>, events: seq<Event>)
    requires Fresh(loaded) && Lifecycle(events) && Live(events) == {}
    ensures Run(Started(loaded), events) == Started(loaded)
  {
    var s := Run(Started(loaded), events);
    RunCounted(loaded, events);
    RunCounted(loaded, []);
    LiveAssigned(loaded, events);
    assert s.ns == map[SERVER_CLIENT := ROOT];
    SameMembersSameCounts(s, Run(Started(loaded), []), loaded);
  }

  /** From configuration to client: whoever presents the credential of an auth line is put into a namespace
      that holds it, and into that line's if no line gives it to another. */
  lemma CredentialHonoured(ds: seq<Directive>, i: nat, name: string, token: Token, events: seq<Event>, c: Client)
    requires Gives(ds, i, name, token)
    ensures var s := Run(Started(Loaded(ds).list), events + [ClientRunning(c, Some(token))]);
            && c in s.ns && s.ns[c] < |s.list| && token in s.list[s.ns[c]].tokens
            && ((forall j, other :: Gives(ds, j, other, token) ==> other == name) ==> s.list[s.ns[c]].name == name)
  {
    var loaded, run := Loaded(ds).list, events + [ClientRunning(c, Some(token))];
    assert run[..|events|] == events;
    LoadedFresh(ds);
    LoadedMeans(ds);
    RunCounted(loaded, run);
    AuthHonoured(ds, i, name, token);
    assert NamespaceAfter(loaded, run, c) == Some(FoundByAuth(loaded, token));
    DeclaredName(ds, Names(ds)[FoundByAuth(loaded, token)]);
  }
}

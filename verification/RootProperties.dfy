/** Properties of the root window: every namespace without power has a virtual root of its own, and what its clients
    ask of the real root is sent there. */
module RootProperties {
  import opened Options
  import opened Resources
  import opened NamespaceConfig
  import NC = NamespaceClients

  type Client = NC.Client

  /** actual is the root of the first screen, others those of further screens; virtual has a window for every
      namespace in the list. */
  datatype Roots = Roots(actual: XID, others: set<XID>, virtual: seq<XID>) {
    predicate IsRoot(window: XID) { window == actual || window in others }
  }

  datatype Filtered = Pass(window: XID) | Skip

  /** hookWindowProperty: the window a property request goes on with. */
  function Redirected(s: NC.State, roots: Roots, subject: Client, window: XID): Filtered
    requires subject in s.ns && s.ns[subject] < |s.list| == |roots.virtual|
  {
    var n := s.ns[subject];
    if s.list[n].superPower then Pass(window)
    else if ClientOf(window) !in s.ns then Skip
    else if s.ns[ClientOf(window)] == n then Pass(window)
    else if window == roots.virtual[n] then Pass(window)
    else if roots.IsRoot(window) then Pass(roots.virtual[n])
    else Pass(window)
  }

  /** The roots belong to the server itself, and no two namespaces share one. */
  ghost predicate RootsOk(roots: Roots) {
    && |roots.virtual| >= 2 && roots.virtual[ROOT] == roots.actual
    && (forall w :: roots.IsRoot(w) || w in roots.virtual ==> ClientOf(w) == NC.SERVER_CLIENT)
    && (forall i, j :: 0 <= i < j < |roots.virtual| ==> roots.virtual[i] != roots.virtual[j])
    && (forall i :: 0 < i < |roots.virtual| ==> !roots.IsRoot(roots.virtual[i]))
  }

  /** The server is in the root namespace, which has power. */
  ghost predicate ClientsOk(s: NC.State, loaded: seq<Namespace>) {
    && NC.Fresh(loaded) && NC.Counted(s, loaded) && loaded[ROOT].superPower
    && NC.SERVER_CLIENT in s.ns && s.ns[NC.SERVER_CLIENT] == ROOT
  }

  predicate Powerless(s: NC.State, subject: Client) {
    subject in s.ns && s.ns[subject] < |s.list| && !s.list[s.ns[subject]].superPower
  }

  /** Redirecting twice is redirecting once. */
  lemma RedirectedTwice(s: NC.State, roots: Roots, loaded: seq<Namespace>, subject: Client, window: XID)
    requires ClientsOk(s, loaded) && RootsOk(roots) && |loaded| == |roots.virtual| && subject in s.ns
    ensures var once := Redirected(s, roots, subject, window);
            once.Pass? ==> Redirected(s, roots, subject, once.window) == once
  {
  }

  /** A request of a powerless client never goes on with a real root; one that names a real root goes on with
      the client's own virtual one; every other goes on as it is, or not at all if no client owns the window. */
  lemma RootRedirected(s: NC.State, roots: Roots, loaded: seq<Namespace>, subject: Client, window: XID)
    requires ClientsOk(s, loaded) && RootsOk(roots) && |loaded| == |roots.virtual| && Powerless(s, subject)
    ensures var out := Redirected(s, roots, subject, window);
            && (out.Pass? ==> !roots.IsRoot(out.window))
            && (roots.IsRoot(window) ==> out == Pass(roots.virtual[s.ns[subject]]))
            && (!roots.IsRoot(window) ==> out == if ClientOf(window) in s.ns then Pass(window) else Skip)
  {
    assert s.ns[subject] != ROOT;
  }

  /** What a client with power asks goes on as it is. */
  lemma PowerPasses(s: NC.State, roots: Roots, loaded: seq<Namespace>, subject: Client, window: XID)
    requires ClientsOk(s, loaded) && RootsOk(roots) && |loaded| == |roots.virtual|
    requires subject in s.ns && !Powerless(s, subject)
    ensures Redirected(s, roots, subject, window) == Pass(window)
  {
  }

  // ---------------------------------------------------------------- runs

  type Table = map<string, seq<int>>

  /** Whatever a property request does to the table of one window, and answers. */
  type Operation = Table -> (Table, seq<int>)

  datatype Reply = BadWindow | Done(result: seq<int>)

  datatype Event =
    | Lifecycle(event: NC.Event)
    | Property(subject: Client, window: XID, op: Operation)

  /** The properties of every window there is. */
  datatype State = State(s: NC.State, props: map<XID, Table>)

  ghost predicate Inv(v: State, roots: Roots, loaded: seq<Namespace>) {
    && ClientsOk(v.s, loaded) && RootsOk(roots) && |loaded| == |roots.virtual|
    && (forall w {:trigger w in v.props} :: roots.IsRoot(w) || w in roots.virtual ==> w in v.props)
  }

  /** What can come next: the server's word about another client, or a request of a client with a namespace. */
  predicate Possible(v: State, e: Event) {
    match e
    case Lifecycle(event) => event.client != NC.SERVER_CLIENT
    case Property(subject, _, _) => subject in v.s.ns
  }

  function Step(v: State, roots: Roots, e: Event): (State, Option<Reply>)
  {
    match e
    case Lifecycle(event) => (v.(s := NC.Step(v.s, event)), None)
    case Property(subject, window, op) =>
      if !(subject in v.s.ns && v.s.ns[subject] < |v.s.list| == |roots.virtual|) then (v, None) else
      var out := Redirected(v.s, roots, subject, window);
      if out.Skip? || out.window !in v.props then (v, Some(BadWindow))
      else (v.(props := v.props[out.window := op(v.props[out.window]).0]), Some(Done(op(v.props[out.window]).1)))
  }

  lemma StepInv(v: State, roots: Roots, loaded: seq<Namespace>, e: Event)
    requires Inv(v, roots, loaded) && Possible(v, e)
    ensures Inv(Step(v, roots, e).0, roots, loaded)
  {
    if e.Lifecycle? {
      NC.GoalInList(v.s, loaded, e.event);
      var goal := NC.Goal(v.s.list, e.event);
      if goal.Some? {
        NC.AssignedCounted(v.s, loaded, e.event.client, goal.value);
      }
    }
  }

  function Place(windows: seq<XID>, w: XID): (i: nat)
    ensures i <= |windows| && (i < |windows| ==> windows[i] == w)
    ensures i < |windows| <==> w in windows
  {
    if windows == [] || windows[0] == w then 0 else 1 + Place(windows[1..], w)
  }

  /** The namespace whose table a request is about: the client's own, if it has no power and names a root; else the
      one whose root the window is, the root namespace having the real one. */
  function Reached(v: State, roots: Roots, e: Event): Option<nat> {
    if !e.Property? || e.subject !in v.s.ns then None
    else if Powerless(v.s, e.subject) && roots.IsRoot(e.window) then Some(v.s.ns[e.subject])
    else if e.window in roots.virtual then Some(Place(roots.virtual, e.window))
    else None
  }

  /** A table for every namespace, and the requests about them. */
  function OwnStep(tables: seq<Table>, v: State, roots: Roots, e: Event): (seq<Table>, Option<Reply>) {
    var i := Reached(v, roots, e);
    if e.Property? && i.Some? && i.value < |tables|
      then (tables[i.value := e.op(tables[i.value]).0], Some(Done(e.op(tables[i.value]).1)))
      else (tables, None)
  }

  ghost predicate Holds(v: State, roots: Roots, tables: seq<Table>) {
    && |tables| == |roots.virtual| == |v.s.list|
    && forall i :: 0 <= i < |tables| ==> roots.virtual[i] in v.props && v.props[roots.virtual[i]] == tables[i]
  }

  /** The window a request goes on with is the root of the namespace it reaches, and of none if it reaches none. */
  lemma ReachedRoot(v: State, roots: Roots, loaded: seq<Namespace>, e: Event)
    requires Inv(v, roots, loaded) && Possible(v, e) && e.Property?
    ensures var out, i := Redirected(v.s, roots, e.subject, e.window), Reached(v, roots, e);
            && (i.Some? ==> i.value < |roots.virtual| && out == Pass(roots.virtual[i.value]))
            && (i.None? && out.Pass? ==> out.window !in roots.virtual)
  {
    if Powerless(v.s, e.subject) {
      RootRedirected(v.s, roots, loaded, e.subject, e.window);
    }
  }

  lemma PropertyHolds(v: State, roots: Roots, loaded: seq<Namespace>, tables: seq<Table>, e: Event)
    requires Inv(v, roots, loaded) && Possible(v, e) && Holds(v, roots, tables) && e.Property?
    ensures Holds(Step(v, roots, e).0, roots, OwnStep(tables, v, roots, e).0)
    ensures Reached(v, roots, e).Some? ==> Step(v, roots, e).1 == OwnStep(tables, v, roots, e).1
  {
    ReachedRoot(v, roots, loaded, e);
    var i := Reached(v, roots, e);
    if i.Some? {
      assert forall j :: 0 <= j < |tables| && j != i.value ==> roots.virtual[j] != roots.virtual[i.value];
    }
  }

  /** A request about a window that is no root is answered from that window's own table and changes no other; there is
      none where the window does not exist, or where a powerless client names one of a client that is not there. */
  lemma OrdinaryWindow(v: State, roots: Roots, loaded: seq<Namespace>, e: Event)
    requires Inv(v, roots, loaded) && Possible(v, e) && e.Property? && !roots.IsRoot(e.window)
    ensures var (t, reply) := Step(v, roots, e);
            if e.window in v.props && (ClientOf(e.window) in v.s.ns || !Powerless(v.s, e.subject)) then
              && t == v.(props := v.props[e.window := e.op(v.props[e.window]).0])
              && reply == Some(Done(e.op(v.props[e.window]).1))
            else t == v && reply == Some(BadWindow)
  {
    if Powerless(v.s, e.subject) {
      RootRedirected(v.s, roots, loaded, e.subject, e.window);
    } else {
      PowerPasses(v.s, roots, loaded, e.subject, e.window);
    }
  }

  lemma LifecycleHolds(v: State, roots: Roots, loaded: seq<Namespace>, tables: seq<Table>, e: Event)
    requires Inv(v, roots, loaded) && Possible(v, e) && Holds(v, roots, tables) && e.Lifecycle?
    ensures Holds(Step(v, roots, e).0, roots, tables)
  {
    StepInv(v, roots, loaded, e);
    var t := Step(v, roots, e).0;
    forall i | 0 <= i < |loaded| ensures t.s.list[i].superPower == v.s.list[i].superPower {
      assert t.s.list[i] == loaded[i].(refcnt := t.s.list[i].refcnt);
      assert v.s.list[i] == loaded[i].(refcnt := v.s.list[i].refcnt);
    }
  }

  predicate AllPossible(v: State, roots: Roots, run: seq<Event>)
    decreases |run|
  {
    run != [] ==> Possible(v, run[0]) && AllPossible(Step(v, roots, run[0]).0, roots, run[1..])
  }

  function Replies(v: State, roots: Roots, run: seq<Event>): seq<Option<Reply>>
    decreases |run|
  {
    if run == [] then [] else
      var (t, reply) := Step(v, roots, run[0]);
      [reply] + Replies(t, roots, run[1..])
  }

  function OwnReplies(tables: seq<Table>, v: State, roots: Roots, run: seq<Event>): seq<Option<Reply>>
    decreases |run|
  {
    if run == [] then [] else
      var (more, reply) := OwnStep(tables, v, roots, run[0]);
      [reply] + OwnReplies(more, Step(v, roots, run[0]).0, roots, run[1..])
  }

  function OwnFinal(tables: seq<Table>, v: State, roots: Roots, run: seq<Event>): seq<Table>
    decreases |run|
  {
    if run == [] then tables
    else OwnFinal(OwnStep(tables, v, roots, run[0]).0, Step(v, roots, run[0]).0, roots, run[1..])
  }

  function Final(v: State, roots: Roots, run: seq<Event>): State
    decreases |run|
  {
    if run == [] then v else Final(Step(v, roots, run[0]).0, roots, run[1..])
  }

  /** Over every run, while clients come, move and go, every request about a root reaches one table, that of the
      namespace Reached says, and is answered from it, as if every namespace had a table of its own. */
  lemma {:induction false} OwnTables(
    v: State, roots: Roots, loaded: seq<Namespace>, tables: seq<Table>, run: seq<Event>)
    requires Inv(v, roots, loaded) && AllPossible(v, roots, run) && Holds(v, roots, tables)
    ensures |Replies(v, roots, run)| == |OwnReplies(tables, v, roots, run)| == |run|
    ensures forall i :: 0 <= i < |run| && OwnReplies(tables, v, roots, run)[i].Some? ==>
              Replies(v, roots, run)[i] == OwnReplies(tables, v, roots, run)[i]
    ensures Holds(Final(v, roots, run), roots, OwnFinal(tables, v, roots, run))
    decreases |run|
  {
    if run != [] {
      var e := run[0];
      StepInv(v, roots, loaded, e);
      if e.Property? {
        PropertyHolds(v, roots, loaded, tables, e);
      } else {
        LifecycleHolds(v, roots, loaded, tables, e);
      }
      OwnTables(Step(v, roots, e).0, roots, loaded, OwnStep(tables, v, roots, e).0, run[1..]);
    }
  }

  /** All property requests of the run come from clients that are powerless at the time. */
  predicate AllPowerless(v: State, roots: Roots, run: seq<Event>)
    decreases |run|
  {
    run != [] ==>
      && Possible(v, run[0]) && (run[0].Property? ==> Powerless(v.s, run[0].subject))
      && AllPowerless(Step(v, roots, run[0]).0, roots, run[1..])
  }

  /** Whatever windows the powerless name, the properties of the real roots stay as they are. */
  lemma {:induction false} RealRootsUntouched(
    v: State, roots: Roots, loaded: seq<Namespace>, run: seq<Event>, window: XID)
    requires Inv(v, roots, loaded) && AllPowerless(v, roots, run) && roots.IsRoot(window)
    ensures window in v.props && window in Final(v, roots, run).props
    ensures Final(v, roots, run).props[window] == v.props[window]
    decreases |run|
  {
    if run != [] {
      StepInv(v, roots, loaded, run[0]);
      if run[0].Property? {
        RootRedirected(v.s, roots, loaded, run[0].subject, run[0].window);
      }
      RealRootsUntouched(Step(v, roots, run[0]).0, roots, loaded, run[1..], window);
    }
  }

  /** Every configuration leaves what the hooks rely on: one namespace called root, first and with power, and
      the server in it. */
  lemma StartedOk(ds: seq<Directive>)
    ensures var list := Loaded(ds).list;
            && ClientsOk(NC.Started(list), list) && list[ROOT].name == "root"
            && forall i :: 0 < i < |list| ==> list[i].name != "root"
  {
    var list := Loaded(ds).list;
    LoadedMeans(ds);
    NamesDistinct(ds);
    OnlyGrows([], ds);
    assert [] + ds == ds;
    NC.LoadedFresh(ds);
    NC.RunCounted(list, []);
    NC.LiveAssigned(list, []);
    assert Grown(Declared([], "root"), Declared(ds, "root"));
    forall i | 0 <= i < |list| ensures list[i].name == Names(ds)[i] {
      DeclaredName(ds, Names(ds)[i]);
    }
  }

  // ---------------------------------------------------------------- the hooks

  /** hookInitRootWindow: the root namespace gets the real root, every other one a new window of the server's;
      fakeID is the next of the server's identifiers. */
  method InitRootWindow(list: seq<Namespace>, actual: XID, others: set<XID>, fakeID: XID) returns (virtual: seq<XID>)
    requires |list| >= 2 && list[ROOT].name == "root" && forall i :: 0 < i < |list| ==> list[i].name != "root"
    requires actual < fakeID && forall w :: w in others ==> w < fakeID
    requires fakeID + |list| <= 0x20_0000
    ensures RootsOk(Roots(actual, others, virtual)) && |virtual| == |list|
  {
    virtual := [];
    var next: XID := fakeID;
    for i := 0 to |list|
      invariant |virtual| == i && fakeID <= next <= fakeID + i
      invariant forall j :: 0 <= j < i ==> virtual[j] < 0x20_0000
      invariant i > 0 ==> virtual[ROOT] == actual
      invariant forall j :: 0 < j < i ==> fakeID <= virtual[j] < next
      invariant forall j, k :: 0 < j < k < i ==> virtual[j] < virtual[k]
    {
      if list[i].name == "root" {
        virtual := virtual + [actual];
      } else {
        virtual := virtual + [next];
        next := next + 1;
      }
    }
  }

  /** A property request on its way, which the hook may change. */
  class PropertyFilterParam {
    const client: Client
    var window: XID
    var skip: bool

    constructor (client: Client, window: XID)
      ensures this.client == client && this.window == window && !skip
    {
      this.client, this.window, skip := client, window, false;
    }
  }

  method HookWindowProperty(s: NC.State, roots: Roots, param: PropertyFilterParam)
    requires param.client in s.ns && s.ns[param.client] < |s.list| == |roots.virtual| && !param.skip
    modifies param
    ensures (if param.skip then Skip else Pass(param.window)) == Redirected(s, roots, param.client, old(param.window))
    ensures param.skip ==> param.window == old(param.window)
  {
    var subj := s.ns[param.client];
    if s.list[subj].superPower {
      return;
    }
    var owner := ClientOf(param.window);
    if owner !in s.ns {
      param.skip := true;
      return;
    }
    if s.ns[owner] == subj {
      return;
    }
    if param.window == roots.virtual[subj] {
      return;
    }
    if roots.IsRoot(param.window) {
      param.window := roots.virtual[subj];
    }
  }
}

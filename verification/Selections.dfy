/** Selections under the namespace extension: one table for the whole server, in which every namespace finds its
    own names, and the powerful find all of them. */
module Selections {
  import opened Options
  import opened Resources
  import opened SelectionNames

  datatype Client = Client(index: nat, ns: string, superPower: bool)

  type Time = nat

  /** The kinds of notices a client may listen for. */
  datatype Kind = SetOwnerKind | WindowDestroyKind | ClientCloseKind

  datatype Holder = Holder(client: Client, window: XID)

  /** A selection, with its holder and the time that was set. */
  datatype Sel = Sel(holder: Option<Holder>, since: Time)

  datatype Listener = Listener(client: Client, window: XID, selection: string)

  datatype Table = Table(sels: map<string, Sel>, listeners: map<Listener, set<Kind>>)

  const EMPTY := Table(map[], map[])

  function SelOf<K>(sels: map<K, Sel>, k: K): Sel {
    if k in sels then sels[k] else Sel(None, 0)
  }

  function WindowOf(sel: Sel): XID {
    if sel.holder.Some? then sel.holder.value.window else 0
  }

  function WithMask<K>(listeners: map<K, set<Kind>>, k: K, mask: set<Kind>): map<K, set<Kind>> {
    if mask == {} then listeners - {k} else listeners[k := mask]
  }

  // ---------------------------------------------------------------- requests

  datatype Filter = GetOwnerFilter | SetOwnerFilter | ConvertFilter | ListenFilter
                  | EvRequestFilter | EvClearFilter | NotifyFilter

  /** hookSelectionFilter, on names. */
  function Filtered(c: Client, op: Filter, name: string): string {
    if c.superPower then name else
      match op {
        case GetOwnerFilter | SetOwnerFilter | ConvertFilter | ListenFilter => Mangle(c.ns, name)
        case NotifyFilter => StripNS(name)
        case EvRequestFilter | EvClearFilter => name
      }
  }

  /** A window of 0 gives a selection up; silent are the clients, the server among them, that are not asked. */
  datatype Request =
    | SetOwner(name: string, window: XID, time: Time, now: Time)
    | GetOwner(name: string)
    | ConvertTo(name: string, silent: set<Client>)
    | Listen(name: string, window: XID, mask: set<Kind>)

  datatype Notice = Notice(client: Client, window: XID, kind: Kind, owner: XID, name: string)

  /** What comes of a request: nothing, a new owner with the old one told and the notices sent, an owner's window, a
      request to the owner, or a refusal; and of an end the notices sent. */
  datatype Reply =
    | Ignored
    | Changed(cleared: Option<(Holder, string)>, notices: multiset<Notice>)
    | OwnerIs(window: XID)
    | Asked(holder: Holder, name: string)
    | Refused(name: string)
    | Listening
    | Announced(notices: multiset<Notice>)

  /** What a name goes on as: filtered, or in a server without namespaces as it is. */
  function Told(filtered: bool, c: Client, op: Filter, name: string): string {
    if filtered then Filtered(c, op, name) else name
  }

  function NoticeTo(filtered: bool, l: Listener, kind: Kind, owner: XID): Notice {
    Notice(l.client, l.window, kind, owner, Told(filtered, l.client, NotifyFilter, l.selection))
  }

  predicate Hears(listeners: map<Listener, set<Kind>>, l: Listener, selection: string, kind: Kind) {
    l in listeners && l.selection == selection && kind in listeners[l]
  }

  function Hearers(listeners: map<Listener, set<Kind>>, selection: string, kind: Kind): set<Listener> {
    set l | l in listeners && Hears(listeners, l, selection, kind)
  }

  /** One notice for each of some listeners. */
  ghost function NoticesTo(filtered: bool, ls: set<Listener>, kind: Kind, owner: XID): multiset<Notice> {
    if ls == {} then multiset{} else
      var l :| l in ls;
      NoticesTo(filtered, ls - {l}, kind, owner) + multiset{NoticeTo(filtered, l, kind, owner)}
  }

  /** One notice to every listener of the selection. */
  ghost function Notices(filtered: bool, listeners: map<Listener, set<Kind>>, selection: string, kind: Kind, owner: XID)
    : multiset<Notice>
  {
    NoticesTo(filtered, Hearers(listeners, selection, kind), kind, owner)
  }

  /** Setting the owner of what the server calls actual, and telling the old owner under another name. */
  ghost function OwnerSet(filtered: bool, t: Table, c: Client, actual: string, told: string, window: XID, time: Time)
    : (Table, Reply)
  {
    var was := SelOf(t.sels, actual);
    var holder := if window == 0 then None else Some(Holder(c, window));
    if time < was.since then (t, Ignored) else
      (t.(sels := t.sels[actual := Sel(holder, time)]),
       Changed(if was.holder.Some? && (window == 0 || was.holder.value.client != c)
                 then Some((was.holder.value, told)) else None,
               Notices(filtered, t.listeners, actual, SetOwnerKind, window)))
  }

  ghost function Step(filtered: bool, t: Table, c: Client, req: Request): (Table, Reply) {
    match req
    case SetOwner(name, window, time, now) =>
      if time > now then (t, Ignored)
      else OwnerSet(filtered, t, c, Told(filtered, c, SetOwnerFilter, name), Told(filtered, c, EvClearFilter, name),
                    window, time)
    case GetOwner(name) => (t, OwnerIs(WindowOf(SelOf(t.sels, Told(filtered, c, GetOwnerFilter, name)))))
    case ConvertTo(name, silent) =>
      var actual := Told(filtered, c, ConvertFilter, name);
      var holder := SelOf(t.sels, actual).holder;
      (t, if holder.Some? && holder.value.client !in silent
            then Asked(holder.value, Told(filtered, c, EvRequestFilter, name))
            else Refused(Told(filtered, c, ConvertFilter, actual)))
    case Listen(name, window, mask) =>
      var l := Listener(c, window, Told(filtered, c, ListenFilter, name));
      (t.(listeners := WithMask(t.listeners, l, mask)), Listening)
  }

  // ---------------------------------------------------------------- ends

  /** The end of a window, or of a client. */
  datatype End = WindowEnds(window: XID) | ClientEnds(client: Client)

  function KindOf(e: End): Kind {
    if e.WindowEnds? then WindowDestroyKind else ClientCloseKind
  }

  /** Whether what ends is this window, or this client. */
  predicate Concerns(e: End, c: Client, window: XID) {
    match e
    case WindowEnds(w) => window == w
    case ClientEnds(d) => c == d
  }

  predicate Bereaves(e: End, sel: Sel) {
    sel.holder.Some? && Concerns(e, sel.holder.value.client, sel.holder.value.window)
  }

  /** A selection without the holder that ended; the time stays. */
  function Outlived(e: End, sel: Sel): Sel {
    if Bereaves(e, sel) then Sel(None, sel.since) else sel
  }

  function Ended(t: Table, e: End): Table {
    t.(sels := map n | n in t.sels :: Outlived(e, t.sels[n]))
  }

  /** Who is told: those that listen for such ends, each for every selection that loses its holder. */
  function Bereft(t: Table, e: End): set<Listener> {
    set l | l in t.listeners && KindOf(e) in t.listeners[l] && Bereaves(e, SelOf(t.sels, l.selection))
  }

  /** Without the listeners that ended. */
  function Forgotten(t: Table, e: End): Table {
    t.(listeners := map l | l in t.listeners && !Concerns(e, l.client, l.window) :: t.listeners[l])
  }

  // ---------------------------------------------------------------- a server for every namespace

  /** Whose names a client shares: its namespace's, or those all the powerful share. */
  function Home(c: Client): Option<string> {
    if c.superPower then None else Some(c.ns)
  }

  /** The names isolation covers. Without power: those that fit a namespace without '>'. With power: all but those
      that belong to such a namespace. */
  predicate Fitting(c: Client, name: string) {
    if c.superPower then !Shaped(name) else '>' !in c.ns && Fits(c.ns, name)
  }

  function Actual(c: Client, name: string): string {
    if c.superPower then name else Mangle(c.ns, name)
  }

  /** For the clients of one home, the one table holds under their server names what a table of their own holds. */
  ghost predicate Holds(g: Table, home: Option<string>, t: Table) {
    && (forall c, n {:trigger Actual(c, n)} :: Fitting(c, n) && Home(c) == home ==>
          SelOf(g.sels, Actual(c, n)) == SelOf(t.sels, n))
    && (forall c, w, n {:trigger Listener(c, w, Actual(c, n))} :: Fitting(c, n) && Home(c) == home ==>
          AlikeMasked(g.listeners, Listener(c, w, Actual(c, n)), t.listeners, Listener(c, w, n)))
    && (forall l {:trigger l in g.listeners} :: l in g.listeners ==> Covered(l))
    && (forall l {:trigger l in t.listeners} ::
          l in t.listeners ==> Home(l.client) == home && Fitting(l.client, l.selection))
  }

  predicate AlikeMasked(a: map<Listener, set<Kind>>, k: Listener, b: map<Listener, set<Kind>>, l: Listener) {
    (k in a <==> l in b) && (k in a ==> a[k] == b[l])
  }

  ghost predicate Covered(l: Listener) {
    exists n :: Fitting(l.client, n) && l.selection == Actual(l.client, n)
  }

  /** Clients that share no names never meet, and those that do meet only in the same name. */
  lemma ActualInjective(a: Client, m: string, b: Client, n: string)
    requires Fitting(a, m) && Fitting(b, n) && Actual(a, m) == Actual(b, n)
    ensures Home(a) == Home(b) && m == n
  {
    if !a.superPower { assert Reached(Actual(a, m)); }
    if !b.superPower { assert Reached(Actual(b, n)); }
    ReachedExactly(Actual(a, m));
    if !a.superPower && !b.superPower {
      StripUndoesMangle(a.ns, m);
      StripUndoesMangle(b.ns, n);
      Collide(a.ns, m, b.ns, n);
      if Begins(a.ns, b.ns + ">") {
        BracketIn(a.ns, b.ns);
      } else if Begins(b.ns, a.ns + ">") {
        BracketIn(b.ns, a.ns);
      }
    }
  }

  /** A notice names the selection as its listener did. */
  lemma ToldBack(c: Client, name: string)
    requires Fitting(c, name)
    ensures Filtered(c, NotifyFilter, Actual(c, name)) == name
  {
    StripUndoesMangle(c.ns, name);
  }

  /** A listener of the one table and the same one in the table of its home. */
  lemma Counterpart(g: Table, home: Option<string>, t: Table, l: Listener)
    requires Holds(g, home, t) && l in g.listeners && Home(l.client) == home
    ensures var own := Unmangled(l);
            && Fitting(l.client, own.selection) && l.selection == Actual(l.client, own.selection)
            && own in t.listeners && t.listeners[own] == g.listeners[l]
            && SelOf(g.sels, l.selection) == SelOf(t.sels, own.selection)
            && forall kind, owner :: NoticeTo(true, l, kind, owner) == NoticeTo(false, own, kind, owner)
  {
    CoveredName(l);
    var n := Unmangled(l).selection;
    assert l == Listener(l.client, l.window, Actual(l.client, n));
    assert AlikeMasked(g.listeners, Listener(l.client, l.window, Actual(l.client, n)),
                       t.listeners, Listener(l.client, l.window, n));
    SameSel(g, home, t, l.client, n);
  }

  /** A listener under the name it asked for. */
  function Unmangled(l: Listener): Listener {
    l.(selection := Filtered(l.client, NotifyFilter, l.selection))
  }

  lemma CoveredName(l: Listener)
    requires Covered(l)
    ensures var n := Unmangled(l).selection; Fitting(l.client, n) && l.selection == Actual(l.client, n)
  {
    var m :| Fitting(l.client, m) && l.selection == Actual(l.client, m);
    ToldBack(l.client, m);
  }

  lemma CounterpartBack(g: Table, home: Option<string>, t: Table, own: Listener)
    requires Holds(g, home, t) && own in t.listeners
    ensures var l := Listener(own.client, own.window, Actual(own.client, own.selection));
            && Home(l.client) == home && Fitting(own.client, own.selection)
            && l in g.listeners && g.listeners[l] == t.listeners[own]
            && SelOf(g.sels, l.selection) == SelOf(t.sels, own.selection)
            && forall kind, owner :: NoticeTo(true, l, kind, owner) == NoticeTo(false, own, kind, owner)
  {
    ToldBack(own.client, own.selection);
    assert AlikeMasked(g.listeners, Listener(own.client, own.window, Actual(own.client, own.selection)),
                       t.listeners, own);
    SameSel(g, home, t, own.client, own.selection);
  }

  lemma SameSel(g: Table, home: Option<string>, t: Table, c: Client, n: string)
    requires Holds(g, home, t) && Fitting(c, n) && Home(c) == home
    ensures SelOf(g.sels, Actual(c, n)) == SelOf(t.sels, n)
  {
  }

  // ---------------------------------------------------------------- who is told

  lemma ToldInOrder(a: multiset<Notice>, b: multiset<Notice>, c: multiset<Notice>)
    ensures a + b + c == a + (b + c) == a + c + b
  {
  }

  lemma ToldFirst(filtered: bool, ls: set<Listener>, kind: Kind, owner: XID) returns (l: Listener)
    requires ls != {}
    ensures l in ls
    ensures NoticesTo(filtered, ls, kind, owner) ==
            NoticesTo(filtered, ls - {l}, kind, owner) + multiset{NoticeTo(filtered, l, kind, owner)}
  {
    l :| l in ls && NoticesTo(filtered, ls, kind, owner) ==
                    NoticesTo(filtered, ls - {l}, kind, owner) + multiset{NoticeTo(filtered, l, kind, owner)};
  }

  /** It makes no difference who is told last. */
  lemma {:induction false} ToldLast(filtered: bool, ls: set<Listener>, l: Listener, kind: Kind, owner: XID)
    requires l in ls
    ensures NoticesTo(filtered, ls, kind, owner) ==
            NoticesTo(filtered, ls - {l}, kind, owner) + multiset{NoticeTo(filtered, l, kind, owner)}
    decreases |ls|
  {
    var k := ToldFirst(filtered, ls, kind, owner);
    if k != l {
      var rest := ls - {k} - {l};
      assert rest == ls - {l} - {k};
      ToldLast(filtered, ls - {k}, l, kind, owner);
      ToldLast(filtered, ls - {l}, k, kind, owner);
      ToldInOrder(NoticesTo(filtered, rest, kind, owner), multiset{NoticeTo(filtered, l, kind, owner)},
                multiset{NoticeTo(filtered, k, kind, owner)});
    }
  }

  lemma WithoutOne(ls: set<Listener>, part: set<Listener>, l: Listener)
    requires part <= ls && l in part
    ensures part - {l} <= ls - {l} && l in ls && ls - {l} - (part - {l}) == ls - part
  {
  }

  /** Nor whether some are told first and then the others. */
  lemma {:induction false} ToldApiece(filtered: bool, ls: set<Listener>, part: set<Listener>, kind: Kind, owner: XID)
    requires part <= ls
    ensures NoticesTo(filtered, ls, kind, owner) ==
            NoticesTo(filtered, part, kind, owner) + NoticesTo(filtered, ls - part, kind, owner)
    decreases |part|
  {
    if part == {} {
      assert ls - part == ls;
    } else {
      var l := ToldFirst(filtered, part, kind, owner);
      WithoutOne(ls, part, l);
      ToldLast(filtered, ls, l, kind, owner);
      ToldApiece(filtered, ls - {l}, part - {l}, kind, owner);
      ToldInOrder(NoticesTo(filtered, part - {l}, kind, owner), NoticesTo(filtered, ls - part, kind, owner),
                multiset{NoticeTo(filtered, l, kind, owner)});
    }
  }

  ghost predicate ToldApart(filtered: bool, ls: set<Listener>, kind: Kind, owner: XID) {
    forall l, k :: l in ls && k in ls && l != k ==>
      NoticeTo(filtered, l, kind, owner) != NoticeTo(filtered, k, kind, owner)
  }

  function NoticeSet(filtered: bool, ls: set<Listener>, kind: Kind, owner: XID): set<Notice> {
    set l | l in ls :: NoticeTo(filtered, l, kind, owner)
  }

  /** Where no two get the same notice, each notice is there once. */
  lemma {:induction false} ToldOnce(filtered: bool, ls: set<Listener>, kind: Kind, owner: XID)
    requires ToldApart(filtered, ls, kind, owner)
    ensures NoticesTo(filtered, ls, kind, owner) == multiset(NoticeSet(filtered, ls, kind, owner))
    decreases |ls|
  {
    if ls != {} {
      var l :| l in ls;
      ToldOnce(filtered, ls - {l}, kind, owner);
      ToldLast(filtered, ls, l, kind, owner);
      NoticeSetLast(filtered, ls, l, kind, owner);
    }
  }

  lemma NoticeSetLast(filtered: bool, ls: set<Listener>, l: Listener, kind: Kind, owner: XID)
    requires ToldApart(filtered, ls, kind, owner) && l in ls
    ensures multiset(NoticeSet(filtered, ls, kind, owner)) ==
            multiset(NoticeSet(filtered, ls - {l}, kind, owner)) + multiset{NoticeTo(filtered, l, kind, owner)}
  {
    var n := NoticeTo(filtered, l, kind, owner);
    assert n !in NoticeSet(filtered, ls - {l}, kind, owner);
    assert NoticeSet(filtered, ls, kind, owner) == NoticeSet(filtered, ls - {l}, kind, owner) + {n};
  }

  /** Every listener of a selection gets one notice, and every notice has one listener. */
  lemma NotifiedOnce(filtered: bool, listeners: map<Listener, set<Kind>>, selection: string, kind: Kind, owner: XID)
    ensures forall l :: Hears(listeners, l, selection, kind) ==>
              Notices(filtered, listeners, selection, kind, owner)[NoticeTo(filtered, l, kind, owner)] == 1
    ensures forall n :: n in Notices(filtered, listeners, selection, kind, owner) ==>
              var l := Listener(n.client, n.window, selection);
              Hears(listeners, l, selection, kind) && n == NoticeTo(filtered, l, kind, owner)
    ensures forall l, k :: Hears(listeners, l, selection, kind) && Hears(listeners, k, selection, kind) && l != k ==>
              NoticeTo(filtered, l, kind, owner) != NoticeTo(filtered, k, kind, owner)
  {
    var hearers := Hearers(listeners, selection, kind);
    ToldOnce(filtered, hearers, kind, owner);
    forall l | Hears(listeners, l, selection, kind) ensures l in hearers {
      assert l in listeners;
    }
    forall n | n in Notices(filtered, listeners, selection, kind, owner)
      ensures var l := Listener(n.client, n.window, selection);
              Hears(listeners, l, selection, kind) && n == NoticeTo(filtered, l, kind, owner)
    {
      var l :| l in hearers && n == NoticeTo(filtered, l, kind, owner);
      assert l == Listener(n.client, n.window, selection);
    }
  }

  /** Only listeners of the same home hear of a change, each once, under the name they asked for. */
  lemma NoticesOwn(g: Table, t: Table, c: Client, n: string, kind: Kind, owner: XID)
    requires Holds(g, Home(c), t) && Fitting(c, n)
    ensures Notices(true, g.listeners, Actual(c, n), kind, owner) == Notices(false, t.listeners, n, kind, owner)
  {
    var a, b := Hearers(g.listeners, Actual(c, n), kind), Hearers(t.listeners, n, kind);
    ToldOnce(true, a, kind, owner);
    ToldOnce(false, b, kind, owner);
    HearersOwn(g, t, c, n, kind, owner);
    assert NoticeSet(true, a, kind, owner) == NoticeSet(false, b, kind, owner);
  }

  lemma HearersOwn(g: Table, t: Table, c: Client, n: string, kind: Kind, owner: XID)
    requires Holds(g, Home(c), t) && Fitting(c, n)
    ensures var a, b := Hearers(g.listeners, Actual(c, n), kind), Hearers(t.listeners, n, kind);
            && (forall l :: l in a ==> NoticeTo(true, l, kind, owner) in NoticeSet(false, b, kind, owner))
            && (forall l :: l in b ==> NoticeTo(false, l, kind, owner) in NoticeSet(true, a, kind, owner))
  {
    var a, b := Hearers(g.listeners, Actual(c, n), kind), Hearers(t.listeners, n, kind);
    forall l | l in a ensures NoticeTo(true, l, kind, owner) in NoticeSet(false, b, kind, owner) {
      assert Covered(l);
      CoveredName(l);
      ActualInjective(l.client, Unmangled(l).selection, c, n);
      Counterpart(g, Home(c), t, l);
      assert Unmangled(l) in b;
    }
    forall l | l in b ensures NoticeTo(false, l, kind, owner) in NoticeSet(true, a, kind, owner) {
      CounterpartBack(g, Home(c), t, l);
      assert Listener(l.client, l.window, Actual(l.client, l.selection)) in a;
    }
  }

  // ---------------------------------------------------------------- one step

  /** A selection changes in the one table as in that of its home, and for no other home. */
  lemma SelSetHolds(g: Table, home: Option<string>, t: Table, c: Client, n: string, sel: Sel)
    requires Holds(g, home, t) && Fitting(c, n)
    ensures Holds(g.(sels := g.sels[Actual(c, n) := sel]), home,
                  if Home(c) == home then t.(sels := t.sels[n := sel]) else t)
  {
    var h := g.(sels := g.sels[Actual(c, n) := sel]);
    var u := if Home(c) == home then t.(sels := t.sels[n := sel]) else t;
    forall d, m | Fitting(d, m) && Home(d) == home ensures SelOf(h.sels, Actual(d, m)) == SelOf(u.sels, m) {
      SameSel(g, home, t, d, m);
      if Actual(d, m) == Actual(c, n) {
        ActualInjective(d, m, c, n);
      } else if Home(c) == home {
        assert m != n;
      }
    }
  }

  /** So does what a client listens for. */
  lemma ListenedHolds(g: Table, home: Option<string>, t: Table, c: Client, n: string, window: XID, mask: set<Kind>)
    requires Holds(g, home, t) && Fitting(c, n)
    ensures Holds(g.(listeners := WithMask(g.listeners, Listener(c, window, Actual(c, n)), mask)), home,
                  if Home(c) == home then t.(listeners := WithMask(t.listeners, Listener(c, window, n), mask)) else t)
  {
    var gl := WithMask(g.listeners, Listener(c, window, Actual(c, n)), mask);
    var ol := if Home(c) == home then WithMask(t.listeners, Listener(c, window, n), mask) else t.listeners;
    forall d, w, m | Fitting(d, m) && Home(d) == home
      ensures AlikeMasked(gl, Listener(d, w, Actual(d, m)), ol, Listener(d, w, m))
    {
      assert AlikeMasked(g.listeners, Listener(d, w, Actual(d, m)), t.listeners, Listener(d, w, m));
      if Actual(d, m) == Actual(c, n) {
        ActualInjective(d, m, c, n);
      }
    }
    forall l | l in gl ensures Covered(l) {
      assert l in g.listeners || l == Listener(c, window, Actual(c, n));
    }
    forall l | l in ol ensures Home(l.client) == home && Fitting(l.client, l.selection) {
      assert l in t.listeners || l == Listener(c, window, n);
    }
  }

  /** The same outcome, but for the name a refusal carries. */
  predicate SameReply(a: Reply, b: Reply) {
    a == b || (a.Refused? && b.Refused?)
  }

  /** A request does to the one table what it does, unfiltered, to the table of its home, and is answered alike; the
      tables of other homes stay what they were. */
  lemma StepHolds(g: Table, home: Option<string>, t: Table, c: Client, req: Request)
    requires Holds(g, home, t) && Fitting(c, req.name)
    ensures Holds(Step(true, g, c, req).0, home, if Home(c) == home then Step(false, t, c, req).0 else t)
    ensures Home(c) == home ==> SameReply(Step(true, g, c, req).1, Step(false, t, c, req).1)
  {
    match req {
      case SetOwner(name, window, time, now) => SetOwnerHolds(g, home, t, c, name, window, time, now);
      case Listen(name, window, mask) => ListenedHolds(g, home, t, c, name, window, mask);
      case GetOwner(name) => if Home(c) == home { SameSel(g, home, t, c, name); }
      case ConvertTo(name, silent) => if Home(c) == home { SameSel(g, home, t, c, name); }
    }
  }

  lemma SetOwnerHolds(g: Table, home: Option<string>, t: Table, c: Client, name: string, window: XID, time: Time,
                      now: Time)
    requires Holds(g, home, t) && Fitting(c, name)
    ensures var req := SetOwner(name, window, time, now);
            && Holds(Step(true, g, c, req).0, home, if Home(c) == home then Step(false, t, c, req).0 else t)
            && (Home(c) == home ==> Step(true, g, c, req).1 == Step(false, t, c, req).1)
  {
    SelSetHolds(g, home, t, c, name, Sel(if window == 0 then None else Some(Holder(c, window)), time));
    if Home(c) == home {
      SameSel(g, home, t, c, name);
      NoticesOwn(g, t, c, name, SetOwnerKind, window);
    }
  }

  // ---------------------------------------------------------------- one end

  lemma EndedSel(t: Table, e: End, n: string)
    ensures SelOf(Ended(t, e).sels, n) == Outlived(e, SelOf(t.sels, n))
  {
  }

  /** An end takes from the one table what it takes from that of every home. */
  lemma EndHolds(g: Table, home: Option<string>, t: Table, e: End)
    requires Holds(g, home, t)
    ensures Holds(Ended(g, e), home, Ended(t, e))
  {
    var h, u := Ended(g, e), Ended(t, e);
    forall c, n | Fitting(c, n) && Home(c) == home ensures SelOf(h.sels, Actual(c, n)) == SelOf(u.sels, n) {
      SameSel(g, home, t, c, n);
      EndedSel(g, e, Actual(c, n));
      EndedSel(t, e, n);
    }
  }

  lemma ForgottenHolds(g: Table, home: Option<string>, t: Table, e: End)
    requires Holds(g, home, t)
    ensures Holds(Forgotten(g, e), home, Forgotten(t, e))
  {
    forall c, w, n | Fitting(c, n) && Home(c) == home
      ensures AlikeMasked(Forgotten(g, e).listeners, Listener(c, w, Actual(c, n)),
                          Forgotten(t, e).listeners, Listener(c, w, n))
    {
      assert AlikeMasked(g.listeners, Listener(c, w, Actual(c, n)), t.listeners, Listener(c, w, n));
    }
  }

  /** Of an end the listeners of a home get from the one server the notices they get from their own, each as often. */
  lemma EndTold(g: Table, home: Option<string>, t: Table, e: End)
    requires Holds(g, home, t)
    ensures ToldAlike(home, NoticesTo(true, Bereft(g, e), KindOf(e), 0), NoticesTo(false, Bereft(t, e), KindOf(e), 0))
  {
    BereftApart(g, home, t, e);
    ToldOnce(true, Bereft(g, e), KindOf(e), 0);
    ToldOnce(false, Bereft(t, e), KindOf(e), 0);
    BereftOwn(g, home, t, e);
  }

  lemma BereftOwn(g: Table, home: Option<string>, t: Table, e: End)
    requires Holds(g, home, t)
    ensures var a, b, kind := Bereft(g, e), Bereft(t, e), KindOf(e);
            && (forall l :: l in a && Home(l.client) == home ==>
                  NoticeTo(true, l, kind, 0) in NoticeSet(false, b, kind, 0))
            && (forall l :: l in b ==>
                  Home(l.client) == home && NoticeTo(false, l, kind, 0) in NoticeSet(true, a, kind, 0))
  {
    var a, b, kind := Bereft(g, e), Bereft(t, e), KindOf(e);
    forall l | l in a && Home(l.client) == home ensures NoticeTo(true, l, kind, 0) in NoticeSet(false, b, kind, 0) {
      Counterpart(g, home, t, l);
      assert Unmangled(l) in b;
    }
    forall l | l in b ensures Home(l.client) == home && NoticeTo(false, l, kind, 0) in NoticeSet(true, a, kind, 0) {
      CounterpartBack(g, home, t, l);
      assert Listener(l.client, l.window, Actual(l.client, l.selection)) in a;
    }
  }

  /** The notices for one home are the same in both, and the second holds no others. */
  ghost predicate ToldAlike(home: Option<string>, all: multiset<Notice>, own: multiset<Notice>) {
    && (forall n: Notice :: Home(n.client) == home ==> all[n] == own[n])
    && (forall n: Notice :: n in own ==> Home(n.client) == home)
  }

  lemma BereftApart(g: Table, home: Option<string>, t: Table, e: End)
    requires Holds(g, home, t)
    ensures ToldApart(true, Bereft(g, e), KindOf(e), 0)
  {
    forall l | l in Bereft(g, e) ensures l.selection == Actual(l.client, Unmangled(l).selection) {
      assert Covered(l);
      CoveredName(l);
    }
  }

  // ---------------------------------------------------------------- runs

  /** A request; the end of a window or client, as far as it held selections; and as far as it listened. */
  datatype Event = Asks(client: Client, req: Request) | Ends(end: End) | Forgets(end: End)

  ghost function Happens(filtered: bool, t: Table, ev: Event): (Table, Reply) {
    match ev
    case Asks(c, req) => Step(filtered, t, c, req)
    case Ends(e) => (Ended(t, e), Announced(NoticesTo(filtered, Bereft(t, e), KindOf(e), 0)))
    case Forgets(e) => (Forgotten(t, e), Announced(multiset{}))
  }

  /** What happens in the server of one home: all but what clients of other homes ask. */
  ghost function HappensIn(home: Option<string>, t: Table, ev: Event): (Table, Reply) {
    if ev.Asks? && Home(ev.client) != home then (t, Ignored) else Happens(false, t, ev)
  }

  ghost function GlobalRun(g: Table, run: seq<Event>): seq<Reply>
    decreases |run|
  {
    if run == [] then [] else
      var (h, reply) := Happens(true, g, run[0]);
      [reply] + GlobalRun(h, run[1..])
  }

  ghost function OwnRun(home: Option<string>, t: Table, run: seq<Event>): seq<Reply>
    decreases |run|
  {
    if run == [] then [] else
      var (u, reply) := HappensIn(home, t, run[0]);
      [reply] + OwnRun(home, u, run[1..])
  }

  predicate Isolable(ev: Event) {
    ev.Asks? ==> Fitting(ev.client, ev.req.name)
  }

  /** Clients of this home get the same answer; of an end they get the same notices. */
  ghost predicate Alike(home: Option<string>, ev: Event, all: Reply, own: Reply) {
    if ev.Asks? then Home(ev.client) == home ==> SameReply(all, own)
    else all.Announced? && own.Announced? && ToldAlike(home, all.notices, own.notices)
  }

  lemma EventHolds(g: Table, home: Option<string>, t: Table, ev: Event)
    requires Holds(g, home, t) && Isolable(ev)
    ensures Holds(Happens(true, g, ev).0, home, HappensIn(home, t, ev).0)
    ensures Alike(home, ev, Happens(true, g, ev).1, HappensIn(home, t, ev).1)
  {
    match ev {
      case Asks(c, req) => StepHolds(g, home, t, c, req);
      case Ends(e) =>
        EndHolds(g, home, t, e);
        EndTold(g, home, t, e);
      case Forgets(e) => ForgottenHolds(g, home, t, e);
    }
  }

  lemma {:induction false} RunHolds(g: Table, home: Option<string>, t: Table, run: seq<Event>)
    requires Holds(g, home, t) && forall i :: 0 <= i < |run| ==> Isolable(run[i])
    ensures |GlobalRun(g, run)| == |OwnRun(home, t, run)| == |run|
    ensures forall i :: 0 <= i < |run| ==> Alike(home, run[i], GlobalRun(g, run)[i], OwnRun(home, t, run)[i])
    decreases |run|
  {
    if run != [] {
      EventHolds(g, home, t, run[0]);
      RunHolds(Happens(true, g, run[0]).0, home, HappensIn(home, t, run[0]).0, run[1..]);
    }
  }

  /** Isolation: from a server without selections, over every run of requests of clients with and without power and of
      ends of windows and clients, the one filtered table answers every client, and tells it of every end, as if its
      namespace, or the powerful together, had a server of their own in which nothing is rewritten. */
  lemma Isolation(home: Option<string>, run: seq<Event>)
    requires forall i :: 0 <= i < |run| ==> Isolable(run[i])
    ensures |GlobalRun(EMPTY, run)| == |OwnRun(home, EMPTY, run)| == |run|
    ensures forall i :: 0 <= i < |run| ==> Alike(home, run[i], GlobalRun(EMPTY, run)[i], OwnRun(home, EMPTY, run)[i])
  {
    RunHolds(EMPTY, home, EMPTY, run);
  }

  // ---------------------------------------------------------------- what lies outside

  /** Setting the owner of n changes what a powerless client of a namespace without '>' is told of its selection m. */
  ghost predicate Changes(t: Table, p: Client, n: string, window: XID, time: Time, now: Time, c: Client, m: string) {
    && !c.superPower && Fitting(c, m)
    && Step(true, Step(true, t, p, SetOwner(n, window, time, now)).0, c, GetOwner(m)).1 !=
       Step(true, t, c, GetOwner(m)).1
  }

  ghost predicate Disturbs(p: Client, n: string, window: XID) {
    exists t, c, m, time, now :: Changes(t, p, n, window, time, now, c, m)
  }

  /** The powerful can reach into such namespaces by exactly the names Fitting denies them. */
  lemma PowerReaches(p: Client, n: string, window: XID)
    requires p.superPower
    ensures Disturbs(p, n, window) <==> Shaped(n)
  {
    ReachedExactly(n);
    if ns, m :| '>' !in ns && Fits(ns, m) && Mangle(ns, m) == n {
      var c := Client(0, ns, false);
      var t := if window == 0 then Table(map[n := Sel(Some(Holder(c, 1)), 0)], map[]) else EMPTY;
      assert Changes(t, p, n, window, 0, 0, c, m);
    }
    if t, c, m, time, now :| Changes(t, p, n, window, time, now, c, m) {
      assert Mangle(c.ns, m) == n;
      assert Reached(n);
    }
  }

  /** A refused conversion passes the filter twice, so the SelectionNotify event names the selection as the client
      did only where nothing is rewritten, that is, for a powerful client, or for the one name that stays the same,
      the namespace in brackets over and over. */
  lemma RefusalName(t: Table, c: Client, name: string, silent: set<Client>)
    requires Step(true, t, c, ConvertTo(name, silent)).1.Refused?
    ensures Step(true, t, c, ConvertTo(name, silent)).1.name == name <==>
            c.superPower || name == Repeated("<" + c.ns + ">" + "<" + c.ns + ">", NAME_MAX)
  {
    MangledTwice(c.ns, name);
  }
}

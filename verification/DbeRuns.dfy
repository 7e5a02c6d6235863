/** Whole runs: any interleaving of requests, window changes and client deaths. */
module DbeRuns {
  import opened Options
  import opened Images
  import opened Resources
  import opened DbeState
  import opened DbeRequests
  import opened DbeInvariant

  datatype Event =
    | Allocate(client: Client, window: XID, id: XID, action: int, depths: seq<Depth>, inUse: set<XID>,
               front: Option<Raw>, back: Option<Raw>)
    | Deallocate(id: XID)
    | Swap(list: seq<SwapInfo>)
    | Resize(window: XID, x: int, y: int, width: nat, height: nat, contents: Raw, front: Option<Raw>, back: Option<Raw>)
    | DestroyWindow(window: XID)
    | ClientDies(client: Client, subtree: set<XID>)
    // What the rest of the server and other requests do meanwhile.
    | CreateWindow(id: XID, win: Window)
    | ChangeWindow(window: XID, gravity: Gravity, painter: Option<Painter>, contents: Raw)
    | DrawThrough(id: XID, contents: Raw)

  ghost function Step(s: State, e: Event): State {
    match e
    case Allocate(c, w, id, action, depths, inUse, front, back) =>
      Allocated(s, c, w, id, action, depths, inUse, front, back).0
    case Deallocate(id) => Deallocated(s, id).0
    case Swap(list) => SwapRequested(s, list).0
    case Resize(w, x, y, width, height, contents, front, back) =>
      Resized(s, w, x, y, width, height, contents, front, back)
    case DestroyWindow(w) => WindowDestroyed(s, w)
    case ClientDies(c, subtree) => ClientGone(s, c, subtree)
    case CreateWindow(id, win) => WindowCreated(s, id, win)
    case ChangeWindow(w, gravity, painter, contents) => WindowChanged(s, w, gravity, painter, contents)
    case DrawThrough(id, contents) => DrawnThrough(s, id, contents)
  }

  ghost function Run(s: State, events: seq<Event>): State
    decreases |events|
  {
    if events == [] then s else Run(Step(s, events[0]), events[1..])
  }

  /** A server without double-buffered windows. */
  ghost predicate Initial(s: State) {
    && s.recs == map[] && s.privRes == map[] && s.drawRes == map[] && s.pixmaps == map[]
    && s.nextPix == 0 && s.destroyed == multiset{}
    && forall w :: w in s.windows ==> WindowSized(s, w)
  }

  lemma WindowCreatedInv(s: State, w: XID, win: Window)
    requires Inv(s)
    ensures Inv(WindowCreated(s, w, win))
  {
    var t := WindowCreated(s, w, win);
    if t != s {
      SameNamesOk(s, t);
      SamePixmapsOk(s, t);
      forall v | v in t.windows ensures WindowSized(t, v) {
        if v != w { assert WindowSized(s, v); }
      }
      forall v | v in t.recs ensures RecordSized(t, v) { assert RecordSized(s, v); }
    }
  }

  lemma WindowChangedInv(s: State, w: XID, gravity: Gravity, painter: Option<Painter>, contents: Raw)
    requires Inv(s)
    ensures Inv(WindowChanged(s, w, gravity, painter, contents))
  {
    var t := WindowChanged(s, w, gravity, painter, contents);
    assert w in s.windows ==> WindowSized(s, w);
    SameNamesOk(s, t);
    SamePixmapsOk(s, t);
    SameSizesOk(s, t);
  }

  lemma DrawnThroughInv(s: State, id: XID, contents: Raw)
    requires Inv(s)
    ensures Inv(DrawnThrough(s, id, contents))
  {
    var t := DrawnThrough(s, id, contents);
    SameNamesOk(s, t);
    SamePixmapsOk(s, t);
    SameSizesOk(s, t);
  }

  lemma StepInv(s: State, e: Event)
    requires Inv(s)
    ensures Inv(Step(s, e))
  {
    match e
    case Allocate(c, w, id, action, depths, inUse, front, back) =>
      AllocatedInv(s, c, w, id, action, depths, inUse, front, back);
    case Deallocate(id) => DropNamesInv(s, {id});
    case Swap(list) => SwappedInOrderInv(s, list);
    case Resize(w, x, y, width, height, contents, front, back) =>
      ResizedInv(s, w, x, y, width, height, contents, front, back);
    case DestroyWindow(w) => WindowDestroyedInv(s, w);
    case ClientDies(c, subtree) => ClientGoneInv(s, c, subtree);
    case CreateWindow(id, win) => WindowCreatedInv(s, id, win);
    case ChangeWindow(w, gravity, painter, contents) => WindowChangedInv(s, w, gravity, painter, contents);
    case DrawThrough(id, contents) => DrawnThroughInv(s, id, contents);
  }

  lemma InitialInv(s: State)
    requires Initial(s)
    ensures Inv(s)
  {
  }

  /** From a server without double-buffered windows, every run keeps the names, pixmaps, sizes and
      aliases right. */
  lemma {:induction false} RunInv(s: State, events: seq<Event>)
    requires Inv(s)
    ensures Inv(Run(s, events))
    decreases |events|
  {
    if events != [] {
      StepInv(s, events[0]);
      RunInv(Step(s, events[0]), events[1..]);
    }
  }

  // ---------------------------------------------------------------- what the invariant gives a client

  /** The names of w are exactly those that resolve to its record, and exactly those that resolve to its
      current back pixmap. */
  ghost predicate NamesResolve(s: State, w: XID)
    requires w in s.recs
  {
    forall id ::
      && (id in s.recs[w].names <==> id in s.privRes && s.privRes[id] == w)
      && (id in s.recs[w].names <==> id in s.drawRes && s.drawRes[id] == s.recs[w].back)
  }

  lemma InvNamesResolve(s: State, w: XID)
    requires Inv(s) && w in s.recs
    ensures NamesResolve(s, w)
  {
    assert RecordNamed(s, w);
    forall id | id in s.drawRes && s.drawRes[id] == s.recs[w].back ensures id in s.recs[w].names {
      assert NameOwned(s, id);
      var v := s.privRes[id];
      assert v == w || Apart(s, w, v);
    }
    forall id | id in s.privRes && s.privRes[id] == w ensures id in s.recs[w].names {
      assert NameOwned(s, id);
    }
  }

  /** After any run, whichever clients allocated them: a window has a record exactly while some name
      resolves to it, and the names of the record are distinct, non-zero and resolve to it and to its
      current back pixmap, and no other name does. */
  lemma NamesAfterRun(s: State, events: seq<Event>, w: XID)
    requires Initial(s)
    ensures var t := Run(s, events);
            && (w in t.recs <==> exists id :: id in t.privRes && t.privRes[id] == w)
            && (w in t.recs ==> Distinct(t.recs[w].names) && 0 !in t.recs[w].names && NamesResolve(t, w))
  {
    InitialInv(s);
    RunInv(s, events);
    var t := Run(s, events);
    if w in t.recs {
      assert RecordNamed(t, w);
      assert t.recs[w].names[0] in t.recs[w].names;
      InvNamesResolve(t, w);
    }
    forall id | id in t.privRes ensures t.privRes[id] in t.recs { assert NameOwned(t, id); }
  }

  ghost predicate OwnedWithin(s: State, ws: set<XID>, p: PixId)
    requires ws <= s.recs.Keys
  {
    exists w :: w in ws && Owns(s.recs[w], p)
  }

  /** Pixmap conservation: after any run there are exactly two live pixmaps per record, its own, and every pixmap
      ever created is either live and was never destroyed or was destroyed exactly once. */
  lemma PixmapsConserved(s: State, events: seq<Event>)
    requires Initial(s)
    ensures TwoPerRecord(Run(s, events)) && DestroyedOnce(Run(s, events))
  {
    InitialInv(s);
    RunInv(s, events);
    TwoEach(Run(s, events));
  }

  ghost predicate TwoPerRecord(s: State) {
    && |s.pixmaps| == 2 * |s.recs|
    && (forall w :: w in s.recs ==> {s.recs[w].front, s.recs[w].back} <= s.pixmaps.Keys)
  }

  lemma TwoEach(s: State)
    requires PixmapsOk(s)
    ensures TwoPerRecord(s)
  {
    forall w | w in s.recs ensures {s.recs[w].front, s.recs[w].back} <= s.pixmaps.Keys {
      assert PairLive(s, w);
    }
    AllOwned(s);
    CountPixmaps(s, s.recs.Keys, s.pixmaps.Keys);
  }

  lemma AllOwned(s: State)
    requires PixmapsOk(s)
    ensures forall p: PixId :: p in s.pixmaps.Keys <==> OwnedWithin(s, s.recs.Keys, p)
  {
    forall p: PixId ensures p in s.pixmaps.Keys <==> OwnedWithin(s, s.recs.Keys, p) {
      if p in s.pixmaps {
        assert Owned(s, p);
      }
      if OwnedWithin(s, s.recs.Keys, p) {
        var w :| w in s.recs.Keys && Owns(s.recs[w], p);
        assert PairLive(s, w);
      }
    }
  }

  lemma {:induction false} CountPixmaps(s: State, ws: set<XID>, ps: set<PixId>)
    requires PixmapsOk(s) && ws <= s.recs.Keys
    requires forall p: PixId :: p in ps <==> OwnedWithin(s, ws, p)
    ensures |ps| == 2 * |ws|
    decreases |ws|
  {
    if ws == {} {
      assert ps == {};
    } else {
      var w :| w in ws;
      var front, back := s.recs[w].front, s.recs[w].back;
      assert PairLive(s, w);
      assert Owns(s.recs[w], front) && Owns(s.recs[w], back);
      assert OwnedWithin(s, ws, front) && OwnedWithin(s, ws, back);
      var rest := ps - {front, back};
      forall p: PixId ensures p in rest <==> OwnedWithin(s, ws - {w}, p) {
        if p in rest {
          assert OwnedWithin(s, ws, p);
        }
        if OwnedWithin(s, ws - {w}, p) {
          var v :| v in ws - {w} && Owns(s.recs[v], p);
          assert Apart(s, v, w) && v in ws;
          assert OwnedWithin(s, ws, p);
        }
      }
      CountPixmaps(s, ws - {w}, rest);
      assert ps == rest + {front, back};
    }
  }

  // ---------------------------------------------------------------- teardown

  /** Destroying a window, or failing to resize its buffers, leaves nothing of its record: no record, no
      name and no drawable of it. The other records keep all they had. */
  lemma DestroyedWindowGone(s: State, w: XID)
    requires Inv(s)
    ensures var t := WindowDestroyed(s, w);
            && w !in t.windows && w !in t.recs
            && (forall id :: id in t.privRes ==> t.privRes[id] != w)
            && (forall id :: id in NamesOf(s, w) ==> id !in t.privRes && id !in t.drawRes)
            && (forall v :: v in s.recs && v != w ==> v in t.recs && t.recs[v] == s.recs[v])
            && (forall id :: id in s.privRes && s.privRes[id] != w ==>
                  id in t.drawRes && t.drawRes[id] == s.drawRes[id])
  {
    WindowDestroyedInv(s, w);
    var t := WindowDestroyed(s, w);
    if w in s.recs {
      TornDown(s, w);
    } else {
      NothingDropped(s);
    }
    forall id | id in t.privRes ensures t.privRes[id] != w { assert NameOwned(t, id); }
    forall id | id in s.privRes && s.privRes[id] != w ensures id !in NamesOf(s, w) {
      if w in s.recs { assert RecordNamed(s, w); }
    }
  }

  lemma NothingDropped(s: State)
    requires NamesOk(s)
    ensures DropNames(s, {}).recs == s.recs
  {
    forall w | w in s.recs ensures !AllIn(s.recs[w].names, {}) && Without(s.recs[w].names, {}) == s.recs[w].names {
      assert RecordNamed(s, w);
      assert s.recs[w].names[0] in s.recs[w].names;
      WithoutNone(s.recs[w].names, {});
    }
  }

  /** When a client dies no name and no window of it is left. A record survives exactly when its window
      does and some other client holds a name of it, and then keeps just those names, in order. */
  lemma DeadClientGone(s: State, client: Client, subtree: set<XID>)
    requires Inv(s)
    ensures var t := ClientGone(s, client, subtree);
            && (forall id :: id in t.privRes || id in t.drawRes || id in t.windows ==> ClientOf(id) != client)
            && (forall w :: w in t.recs <==>
                  w in s.recs && w in t.windows && exists id :: id in s.recs[w].names && ClientOf(id) != client)
            && (forall w :: w in t.recs ==>
                  && t.recs[w].names == Without(s.recs[w].names, Doomed(s, client, subtree))
                  && forall id :: id in t.recs[w].names <==> id in s.recs[w].names && ClientOf(id) != client)
  {
    ClientGoneInv(s, client, subtree);
    var t, gone := ClientGone(s, client, subtree), Doomed(s, client, subtree);
    forall w | w in s.recs
      ensures w in t.recs <==> w in t.windows && exists id :: id in s.recs[w].names && ClientOf(id) != client
      ensures w in t.recs ==> forall id :: id in t.recs[w].names <==> id in s.recs[w].names && ClientOf(id) != client
    {
      assert RecordNamed(s, w);
      WithoutMembers(s.recs[w].names, gone);
      if w in t.recs {
        assert RecordNamed(t, w);
      }
    }
  }
}

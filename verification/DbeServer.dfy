/** The extension as it runs: window records and tables changed in place. Every request is proved to
    do to the state it shares with the server what DbeRequests says. */
module DbeServer {
  import opened Options
  import opened Images
  import opened Resources
  import opened DbeState
  import opened DbeRequests
  import opened DbeInvariant
  import opened DbeSwap
  import opened DbeResize
  import opened DbeTeardown
  import opened WindowPrivates

  class Dbe {
    var windows: map<XID, Window>
    /** The record each window has as a private, and the two resource types of the names. */
    var privs: map<XID, WindowPriv>
    var privRes: map<XID, WindowPriv>
    var drawRes: map<XID, PixId>
    var pixmaps: map<PixId, Image>
    var nextPix: PixId
    ghost var destroyed: multiset<PixId>

    ghost function Privs(): set<WindowPriv>
      reads this`privs
    {
      set w | w in privs :: privs[w]
    }

    ghost function Arrays(): set<array<XID>>
      reads this`privs, Privs()
    {
      (set p | p in Privs() :: p.IDs) + (set p | p in Privs() :: p.initIDs)
    }

    ghost predicate Owned(w: XID)
      requires w in privs
      reads this`privs, Privs(), Arrays()
    {
      privs[w].pWindow == w && privs[w].Valid()
    }

    ghost predicate Separate(v: XID, w: XID)
      requires v in privs && w in privs
      reads this`privs, Privs()
    {
      privs[v] != privs[w] && {privs[v].IDs, privs[v].initIDs} !! {privs[w].IDs, privs[w].initIDs}
    }

    /** Every window has its own record, with arrays of its own, and only these are entered as resources. */
    ghost predicate Linked()
      reads this`privs, this`privRes, Privs(), Arrays()
    {
      && (forall w {:trigger Owned(w)} :: w in privs ==> Owned(w))
      && (forall v, w {:trigger Separate(v, w)} :: v in privs && w in privs && v != w ==> Separate(v, w))
      && Entered()
    }

    ghost predicate Entered()
      reads this`privs, this`privRes, Privs()
    {
      forall id :: id in privRes ==> privRes[id].pWindow in privs && privs[privRes[id].pWindow] == privRes[id]
    }

    ghost predicate Held(p: WindowPriv)
      reads this`privs, Privs(), Arrays()
    {
      p.pWindow in privs && privs[p.pWindow] == p && Owned(p.pWindow)
    }

    ghost function Records(): map<XID, Record>
      requires Linked()
      reads this`privs, this`privRes, Privs(), Arrays()
    {
      map w | w in privs :: assert Owned(w); privs[w].View()
    }

    /** The window each name leads to. */
    ghost function NamedWindows(): map<XID, XID>
      reads this`privRes
    {
      map id | id in privRes :: privRes[id].pWindow
    }

    ghost function View(): State
      requires Linked()
      reads this, Privs(), Arrays()
    {
      State(windows, Records(), NamedWindows(), drawRes, pixmaps, nextPix, destroyed)
    }

    constructor (windows: map<XID, Window>)
      ensures Linked() && View() == State(windows, map[], map[], map[], map[], 0, multiset{})
    {
      this.windows := windows;
      privs, privRes, drawRes := map[], map[], map[];
      pixmaps, nextPix, destroyed := map[], 0, multiset{};
    }

    method CreatePixmap(width: nat, height: nat, raw: Option<Raw>) returns (p: Option<PixId>)
      modifies this`pixmaps, this`nextPix
      ensures raw.None? ==> p.None? && pixmaps == old(pixmaps) && nextPix == old(nextPix)
      ensures raw.Some? ==> p == Some(old(nextPix)) && nextPix == old(nextPix) + 1
                            && pixmaps == old(pixmaps)[old(nextPix) := Fresh(raw.value, width, height)]
    {
      if raw.None? {
        return None;
      }
      pixmaps := pixmaps[nextPix := Fresh(raw.value, width, height)];
      p := Some(nextPix);
      nextPix := nextPix + 1;
    }

    method DestroyPixmap(p: PixId)
      requires p in pixmaps
      modifies this`pixmaps, this`destroyed
      ensures pixmaps == old(pixmaps) - {p} && destroyed == old(destroyed) + multiset{p}
    {
      pixmaps := pixmaps - {p};
      destroyed := destroyed + multiset{p};
    }

    ghost predicate Unreferenced(w: XID)
      requires Linked()
      reads this`privs, this`privRes, Privs(), Arrays()
    {
      forall n :: n in privRes ==> privRes[n].pWindow != w
    }

    method DestroyPair(front: PixId, back: PixId)
      requires {front, back} <= pixmaps.Keys && front != back
      modifies this`pixmaps, this`destroyed
      ensures pixmaps == old(pixmaps) - {front, back} && destroyed == old(destroyed) + multiset{front, back}
    {
      DestroyPixmap(front);
      DestroyPixmap(back);
      assert pixmaps == old(pixmaps) - {front, back};
    }

    /** One record changes its names or its arrays, in its own memory or in new memory. */
    twostate predicate OnlyChanged(p: WindowPriv)
      requires old(Linked())
      reads this, Privs(), Arrays()
    {
      && privs == old(privs) && privRes == old(privRes) && p in Privs() && p.Valid()
      && (forall w :: w in privs && privs[w] != p ==> unchanged(privs[w]) && unchanged(privs[w].IDs))
      && (forall a :: a in {p.IDs, p.initIDs} ==> fresh(a) || a in old({p.IDs, p.initIDs}))
    }

    twostate lemma StillLinked(p: WindowPriv)
      requires old(Linked()) && OnlyChanged(p)
      ensures Linked() && Records() == old(Records())[p.pWindow := p.View()]
    {
      forall w | w in privs ensures Owned(w) {
        assert old(Owned(w));
      }
      forall v, w | v in privs && w in privs && v != w ensures Separate(v, w) {
        assert old(Separate(v, w));
      }
      assert old(Owned(p.pWindow));
      forall w | w in privs && w != p.pWindow ensures privs[w].View() == old(privs[w].View()) {
        assert old(Separate(w, p.pWindow));
      }
    }

    twostate lemma StillLinkedWithout(w: XID)
      requires old(Linked()) && privs == old(privs) - {w} && privRes == old(privRes)
      requires forall id :: id in privRes ==> privRes[id].pWindow != w
      requires forall v :: v in privs ==> unchanged(privs[v]) && unchanged(privs[v].IDs)
      ensures Linked() && Records() == old(Records()) - {w}
      ensures Privs() <= old(Privs()) && Arrays() <= old(Arrays())
    {
      forall v | v in privs ensures Owned(v) && privs[v].View() == old(privs[v].View()) {
        assert old(Owned(v));
      }
      forall u, v | u in privs && v in privs && u != v ensures Separate(u, v) {
        assert old(Separate(u, v));
      }
    }

    method RemoveName(p: WindowPriv, id: XID)
      requires Linked() && Held(p) && id in p.Names()
      modifies p`nBufferIDs, p`maxAvailableIDs, p`IDs, p.IDs, p.initIDs
      ensures Linked() && Arrays() <= old(Arrays()) && Held(p)
      ensures View() == Renamed(old(View()), p.pWindow, Unlisted(old(p.Names()), id))
    {
      var found := p.Remove(id);
      forall w | w in privs && privs[w] != p ensures unchanged(privs[w]) && unchanged(privs[w].IDs) {
        assert old(Separate(w, p.pWindow));
      }
      StillLinked(p);
    }

    /** miDbeWinPrivDelete, and the end of DbeWindowPrivDelete: a record without names gives up its pixmaps
        and its window. */
    method WinPrivDelete(p: WindowPriv)
      requires Linked() && Held(p)
      requires {p.pFrontBuffer, p.pBackBuffer} <= pixmaps.Keys && p.pFrontBuffer != p.pBackBuffer
      requires p.nBufferIDs == 0 ==> Unreferenced(p.pWindow)
      modifies this`privs, this`pixmaps, this`destroyed
      ensures Linked() && Privs() <= old(Privs()) && Arrays() <= old(Arrays())
      ensures View() == if p.nBufferIDs == 0 then Retired(old(View()), p.pWindow) else old(View())
    {
      if p.nBufferIDs != 0 {
        return;
      }
      DestroyPair(p.pFrontBuffer, p.pBackBuffer);
      privs := privs - {p.pWindow};
      StillLinkedWithout(p.pWindow);
    }

    /** DbeWindowPrivDelete, the delete function of the record resource of id. */
    method WindowPrivDelete(p: WindowPriv, id: XID)
      requires Linked() && Held(p) && id in p.Names()
      requires {p.pFrontBuffer, p.pBackBuffer} <= pixmaps.Keys && p.pFrontBuffer != p.pBackBuffer
      requires Unlisted(p.Names(), id) == [] ==> Unreferenced(p.pWindow)
      modifies this`privs, this`pixmaps, this`destroyed, Privs(), Arrays()
      ensures Linked() && Privs() <= old(Privs()) && Arrays() <= old(Arrays())
      ensures View() == NameRemoved(old(View()), p.pWindow, id)
    {
      ghost var rest := Unlisted(p.Names(), id);
      RemoveName(p, id);
      assert View().recs[p.pWindow].names == rest && p.View() == View().recs[p.pWindow];
      assert p.Names() == rest && (p.nBufferIDs == 0 ==> rest == []);
      WinPrivDelete(p);
    }

    // ---------------------------------------------------------------- freeing resources

    /** Takes the record entry of id out of the database. */
    method Unlink(id: XID) returns (p: WindowPriv)
      requires Linked() && id in privRes
      modifies this`privRes
      ensures Linked() && Privs() == old(Privs()) && Arrays() == old(Arrays())
      ensures View() == old(View()).(privRes := old(View()).privRes - {id})
      ensures Held(p) && p.pWindow == old(View()).privRes[id] && p.View() == old(View()).recs[p.pWindow]
    {
      p := privRes[id];
      assert Owned(p.pWindow);
      privRes := privRes - {id};
      SameRecords();
    }

    lemma UnlinkedDeletable(s: State, p: WindowPriv, id: XID)
      requires Linked() && Held(p) && Core(s) && id in s.privRes && p.pWindow == s.privRes[id]
      requires View() == s.(privRes := s.privRes - {id})
      ensures id in p.Names() && p.pFrontBuffer != p.pBackBuffer && {p.pFrontBuffer, p.pBackBuffer} <= pixmaps.Keys
      ensures Unlisted(p.Names(), id) == [] ==> Unreferenced(p.pWindow)
      ensures NameRemoved(View(), p.pWindow, id) == DropPrivs(s, {id})
    {
      Deletable(s, id);
      assert p.View() == View().recs[p.pWindow];
      assert forall n :: n in privRes ==> n in View().privRes && View().privRes[n] == privRes[n].pWindow;
    }

    /** Takes the record entry of id out of the database and runs its delete function. */
    method FreePriv(id: XID)
      requires Linked() && Core(View()) && id in privRes
      modifies this`privRes, this`privs, this`pixmaps, this`destroyed, Privs(), Arrays()
      ensures Linked() && Privs() <= old(Privs()) && Arrays() <= old(Arrays())
      ensures View() == DropPrivs(old(View()), {id})
    {
      var p := Unlink(id);
      UnlinkedDeletable(old(View()), p, id);
      WindowPrivDelete(p, id);
    }

    /** The records do not depend on the tables. */
    twostate lemma SameRecords()
      requires old(Linked()) && privs == old(privs)
      requires Entered()
      requires forall w :: w in privs ==> unchanged(privs[w]) && unchanged(privs[w].IDs)
      ensures Linked() && Records() == old(Records())
      ensures Privs() == old(Privs()) && Arrays() == old(Arrays())
    {
      forall w | w in privs ensures Owned(w) && privs[w].View() == old(privs[w].View()) {
        assert old(Owned(w));
      }
      forall v, w | v in privs && w in privs && v != w ensures Separate(v, w) {
        assert old(Separate(v, w));
      }
    }

    method FreeDrawable(id: XID)
      requires Linked()
      modifies this`drawRes
      ensures Linked() && Privs() == old(Privs()) && Arrays() == old(Arrays())
      ensures View() == DropDrawables(old(View()), {id})
    {
      drawRes := drawRes - {id};
      SameRecords();
    }

    /** FreeResource: every resource of id goes, and its delete functions run in either order
        (DbeDrawableDelete does nothing). */
    method FreeResource(id: XID, drawableFirst: bool)
      requires Linked() && Core(View())
      modifies this`privRes, this`drawRes, this`privs, this`pixmaps, this`destroyed, Privs(), Arrays()
      ensures Linked() && Privs() <= old(Privs()) && Arrays() <= old(Arrays())
      ensures View() == DropNames(old(View()), {id})
    {
      ghost var s := View();
      DropPrivsIgnoresDrawables(s, {id}, {id});
      if drawableFirst {
        FreeDrawable(id);
        CoreIgnoresDrawables(s, {id});
      }
      if id in privRes {
        FreePriv(id);
      } else {
        DropAbsent(View(), id);
      }
      if !drawableFirst {
        FreeDrawable(id);
      }
    }

    method FreeFirstName(w: XID, drawableFirst: XID -> bool) returns (id: XID)
      requires Linked() && Core(View()) && w in privs
      modifies this`privRes, this`drawRes, this`privs, this`pixmaps, this`destroyed, Privs(), Arrays()
      ensures Linked() && Privs() <= old(Privs()) && Arrays() <= old(Arrays())
      ensures id in NamesOf(old(View()), w) && View() == DropNames(old(View()), {id})
    {
      FirstNamed(w);
      id := privs[w].IDs[0];
      FreeResource(id, drawableFirst(id));
    }

    lemma FirstNamed(w: XID)
      requires Linked() && Core(View()) && w in privs
      ensures Owned(w) && privs[w].nBufferIDs > 0 && privs[w].IDs[0] in NamesOf(View(), w)
    {
      assert Owned(w) && RecordNamed(View(), w);
      assert privs[w].View() == View().recs[w];
      assert privs[w].Names()[0] in privs[w].Names();
    }

    /** The loop of miDbeWindowDestroy and of a failed resize: it ends, with every name of the window freed
        and so its record gone. Which delete function runs first may differ from name to name. */
    method FreeAllNames(w: XID, drawableFirst: XID -> bool)
      requires Linked() && Core(View())
      modifies this`privRes, this`drawRes, this`privs, this`pixmaps, this`destroyed, Privs(), Arrays()
      ensures Linked() && Core(View()) && Privs() <= old(Privs()) && Arrays() <= old(Arrays())
      ensures View() == DropNames(old(View()), NamesOf(old(View()), w)) && w !in privs
    {
      ghost var s, done := View(), {};
      NoneDropped(s);
      while w in privs
        invariant Linked() && Privs() <= old(Privs()) && Arrays() <= old(Arrays())
        invariant done <= NamesOf(s, w) && View() == DropNames(s, done)
        decreases NamesOf(s, w) - done
      {
        DropNamesCore(s, done);
        var id := FreeFirstName(w, drawableFirst);
        DropOneMore(s, w, done, id);
        done := done + {id};
      }
      DropNamesCore(s, done);
      AllDropped(s, w, done);
    }

    method ForgetWindow(w: XID)
      requires Linked()
      modifies this`windows
      ensures Linked() && Privs() == old(Privs()) && Arrays() == old(Arrays())
      ensures View() == old(View()).(windows := old(View()).windows - {w})
    {
      windows := windows - {w};
      SameRecords();
    }

    /** miDbeWindowDestroy, after which the server forgets the window. */
    method DestroyWindow(w: XID, drawableFirst: XID -> bool)
      requires Linked() && Core(View())
      modifies this, Privs(), Arrays()
      ensures Linked() && Privs() <= old(Privs()) && Arrays() <= old(Arrays())
      ensures View() == WindowDestroyed(old(View()), w)
    {
      FreeAllNames(w, drawableFirst);
      ForgetWindow(w);
    }

    predicate HasResource(client: Client, subtree: set<XID>)
      reads this
    {
      || (exists id :: id in privRes && ClientOf(id) == client)
      || (exists id :: id in drawRes && ClientOf(id) == client)
      || (exists w :: w in windows && (ClientOf(w) == client || w in subtree))
    }

    /** Frees some resource of the client or destroys some window that goes with it. */
    method FreeSome(client: Client, subtree: set<XID>, drawableFirst: XID -> bool, ghost s: State, ghost f: Freed)
      returns (ghost g: Freed)
      requires Linked() && Core(s) && f.Fits(s, client, subtree) && View() == Partly(s, f)
      requires HasResource(client, subtree)
      modifies this, Privs(), Arrays()
      ensures Linked() && Privs() <= old(Privs()) && Arrays() <= old(Arrays())
      ensures g.Fits(s, client, subtree) && View() == Partly(s, g) && f.Before(g)
    {
      PartlyCore(s, client, subtree, f);
      if {
        case id: XID :| id in privRes && ClientOf(id) == client =>
          PrivFreed(s, client, subtree, f, id);
          FreePriv(id);
          g := f.(privs := f.privs + {id});
        case id: XID :| id in drawRes && ClientOf(id) == client =>
          DrawableFreed(s, client, subtree, f, id);
          FreeDrawable(id);
          g := f.(drawables := f.drawables + {id});
        case w: XID :| w in windows && (ClientOf(w) == client || w in subtree) =>
          g := WithWindow(s, f, w);
          WindowFreed(s, client, subtree, f, w);
          DestroyWindow(w, drawableFirst);
      }
    }

    /** FreeClientResources: the resources of the client are freed one by one, in any order, the two entries of
        a name apart from each other, and its windows among them with whatever lies below them. What is left
        does not depend on the order. */
    method ClientDies(client: Client, subtree: set<XID>, drawableFirst: XID -> bool)
      requires Linked() && Inv(View())
      modifies this, Privs(), Arrays()
      ensures Linked() && Privs() <= old(Privs()) && Arrays() <= old(Arrays())
      ensures View() == ClientGone(old(View()), client, subtree)
    {
      ghost var s, f := View(), Freed({}, {}, {});
      NothingFreed(s);
      while HasResource(client, subtree)
        invariant Linked() && Privs() <= old(Privs()) && Arrays() <= old(Arrays())
        invariant View() == Partly(s, f) && f.Fits(s, client, subtree)
        decreases Left(s, client, subtree, f)
      {
        ghost var g := FreeSome(client, subtree, drawableFirst, s, f);
        LessLeft(s, client, subtree, f, g);
        f := g;
      }
      NoResourceLeft(client, subtree, s, f);
    }

    lemma NoResourceLeft(client: Client, subtree: set<XID>, s: State, f: Freed)
      requires Linked() && Inv(s) && f.Fits(s, client, subtree) && View() == Partly(s, f)
      requires !HasResource(client, subtree)
      ensures View() == ClientGone(s, client, subtree)
    {
      forall id | id in View().privRes ensures ClientOf(id) != client {}
      AllFreed(s, client, subtree, f);
    }

    // ---------------------------------------------------------------- allocating a name

    /** A window gets a record without names. */
    method NewRecord(w: XID) returns (p: WindowPriv)
      requires Linked() && w in windows && w !in privs
      modifies this`privs
      ensures Linked() && Held(p) && Unreferenced(w) && fresh(p) && p.pWindow == w && p.nBufferIDs == 0
      ensures fresh(Privs() - old(Privs())) && fresh(Arrays() - old(Arrays())) && fresh(p.IDs)
      ensures p.View() == Blank(windows[w]) && View() == WithBlank(old(View()), w)
    {
      p := new WindowPriv(w, windows[w]);
      privs := privs[w := p];
      Enlarged(p);
    }

    twostate predicate Added(new p: WindowPriv)
      reads this, Privs(), Arrays(), p, p.IDs
    {
      && p.pWindow !in old(privs) && privs == old(privs)[p.pWindow := p] && privRes == old(privRes)
      && p.Valid() && fresh(p) && fresh(p.IDs) && fresh(p.initIDs)
      && forall w :: w in privs && w != p.pWindow ==> unchanged(privs[w]) && unchanged(privs[w].IDs)
    }

    twostate lemma AddedLinked(new p: WindowPriv)
      requires old(Linked()) && Added(p)
      ensures Linked()
    {
      forall w | w in privs ensures Owned(w) {
        if w != p.pWindow { assert old(Owned(w)); }
      }
      forall v, w | v in privs && w in privs && v != w ensures Separate(v, w) {
        if v == p.pWindow {
          assert old(Owned(w));
        } else if w == p.pWindow {
          assert old(Owned(v));
        } else {
          assert old(Separate(v, w));
        }
      }
    }

    twostate lemma Enlarged(new p: WindowPriv)
      requires old(Linked()) && Added(p)
      ensures Linked() && Records() == old(Records())[p.pWindow := p.View()]
    {
      AddedLinked(p);
      forall w | w in old(privs) ensures Owned(w) && privs[w].View() == old(privs[w].View()) {
        assert old(Owned(w));
      }
    }

    /** Both pixmaps of a window without names; when either is refused none is left. */
    method CreateBuffers(p: WindowPriv, width: nat, height: nat, front: Option<Raw>, back: Option<Raw>)
      returns (ok: bool)
      requires nextPix !in pixmaps
      modifies this`pixmaps, this`nextPix, this`destroyed, p`pFrontBuffer, p`pBackBuffer
      ensures ok == (front.Some? && back.Some?)
      ensures ok ==>
                && nextPix == old(nextPix) + 2 && destroyed == old(destroyed)
                && p.pFrontBuffer == old(nextPix) && p.pBackBuffer == old(nextPix) + 1
                && pixmaps == old(pixmaps)[old(nextPix) := Fresh(front.value, width, height)]
                                          [old(nextPix) + 1 := Fresh(back.value, width, height)]
      ensures !ok ==>
                && unchanged(p) && pixmaps == old(pixmaps)
                && nextPix == old(nextPix) + (if front.Some? then 1 else 0)
                && destroyed == old(destroyed) + (if front.Some? then multiset{old(nextPix)} else multiset{})
    {
      var f := CreatePixmap(width, height, front);
      if f.None? {
        return false;
      }
      var b := CreatePixmap(width, height, back);
      if b.None? {
        DestroyPixmap(f.value);
        return false;
      }
      p.pFrontBuffer, p.pBackBuffer := f.value, b.value;
      ok := true;
    }

    twostate lemma StillHeld(p: WindowPriv)
      requires old(Linked()) && old(Held(p)) && OnlyChanged(p)
      ensures Linked() && Held(p) && Records() == old(Records())[p.pWindow := p.View()]
    {
      StillLinked(p);
      assert Owned(p.pWindow);
    }

    method AttachBuffers(p: WindowPriv, win: Window, id: XID, front: Option<Raw>, back: Option<Raw>) returns (ok: bool)
      requires p.width == win.width && p.height == win.height && nextPix !in pixmaps
      modifies this`pixmaps, this`nextPix, this`destroyed, this`drawRes, p`pFrontBuffer, p`pBackBuffer
      ensures ok == (front.Some? && back.Some?)
      ensures ok ==>
                && p.pFrontBuffer == old(nextPix) && p.pBackBuffer == old(nextPix) + 1
                && nextPix == old(nextPix) + 2 && destroyed == old(destroyed)
                && drawRes == old(drawRes)[id := old(nextPix) + 1]
                && pixmaps == old(pixmaps)[old(nextPix) := Fresh(front.value, win.width, win.height)]
                                          [old(nextPix) + 1 := InitialImage(win, back.value)]
      ensures !ok ==>
                && unchanged(p) && drawRes == old(drawRes) && pixmaps == old(pixmaps)
                && nextPix == old(nextPix) + (if front.Some? then 1 else 0)
                && destroyed == old(destroyed) + (if front.Some? then multiset{old(nextPix)} else multiset{})
    {
      ok := CreateBuffers(p, p.width, p.height, front, back);
      if !ok {
        return;
      }
      drawRes := drawRes[id := p.pBackBuffer];
      if win.painter.Some? {
        pixmaps := pixmaps[p.pBackBuffer := FillRect(win.painter.value, pixmaps[p.pBackBuffer], p.width, p.height)];
        WholeFill(win.painter.value, Fresh(back.value, win.width, win.height), win.width, win.height);
      }
    }

    /** miDbeAllocBackBufferName for the first name of a window. */
    method FirstBuffers(p: WindowPriv, id: XID, front: Option<Raw>, back: Option<Raw>) returns (ok: bool)
      requires Linked() && Held(p) && p.pWindow in windows && p.View() == Blank(windows[p.pWindow])
      requires nextPix !in pixmaps
      modifies this`pixmaps, this`nextPix, this`destroyed, this`drawRes, p`pFrontBuffer, p`pBackBuffer
      ensures Linked() && Held(p) && Arrays() == old(Arrays())
      ensures ok == (front.Some? && back.Some?)
      ensures ok ==> View() == BuffersAttached(old(View()), p.pWindow, id, front.value, back.value)
      ensures !ok ==> View() == if front.Some? then PixmapWasted(old(View())) else old(View())
    {
      ghost var w := p.pWindow;
      ok := AttachBuffers(p, windows[p.pWindow], id, front, back);
      BuffersSet(p);
      if !ok {
        assert old(Records())[w] == old(p.View());
        assert Records() == old(Records());
      }
    }

    /** Only the pixmap pointers of a record, and what is no record, changed. */
    twostate lemma BuffersSet(p: WindowPriv)
      requires old(Linked()) && old(Held(p)) && privs == old(privs) && privRes == old(privRes)
      requires p.width == old(p.width) && p.height == old(p.height) && p.x == old(p.x) && p.y == old(p.y)
      requires p.swapAction == old(p.swapAction) && p.nBufferIDs == old(p.nBufferIDs)
      requires p.maxAvailableIDs == old(p.maxAvailableIDs) && p.IDs == old(p.IDs) && unchanged(p.IDs)
      requires forall w :: w in privs && privs[w] != p ==> unchanged(privs[w]) && unchanged(privs[w].IDs)
      ensures Linked() && Held(p) && Arrays() == old(Arrays())
      ensures Records() == old(Records())[p.pWindow := old(p.View()).(front := p.pFrontBuffer, back := p.pBackBuffer)]
    {
      assert p.Names() == old(p.Names());
      StillHeld(p);
    }

    /** The name goes into the array of its record. */
    method AddName(p: WindowPriv, id: XID, action: int)
      requires Linked() && Held(p) && id != DBE_FREE_ID_ELEMENT
      modifies p`IDs, p`maxAvailableIDs, p`nBufferIDs, p`swapAction, p.IDs
      ensures Linked() && Held(p)
      ensures forall a :: a in Arrays() ==> fresh(a) || a in old(Arrays())
      ensures View() == NameAdded(old(View()), p.pWindow, id, action)
    {
      p.Add(id, action);
      forall w | w in privs && privs[w] != p ensures unchanged(privs[w]) && unchanged(privs[w].IDs) {
        assert old(Separate(w, p.pWindow));
      }
      StillHeld(p);
    }

    /** AddResource for the record. */
    method Enter(id: XID, p: WindowPriv)
      requires Linked() && Held(p)
      modifies this`privRes
      ensures Linked() && Arrays() == old(Arrays())
      ensures View() == old(View()).(privRes := old(View()).privRes[id := p.pWindow])
    {
      privRes := privRes[id := p];
      SameRecords();
    }

    /** A window's first name: a record is made for it, and unmade when its pixmaps are refused. */
    method AllocateFirst(w: XID, id: XID, action: int, front: Option<Raw>, back: Option<Raw>) returns (status: Status)
      requires Linked() && w in windows && w !in privs && id != DBE_FREE_ID_ELEMENT && nextPix !in pixmaps
      modifies this
      ensures Linked() && fresh(Privs() - old(Privs())) && fresh(Arrays() - old(Arrays()))
      ensures (View(), status) == NameAllocated(old(View()), w, id, action, front, back)
    {
      var p := NewRecord(w);
      status := FillRecord(p, id, action, front, back);
      FirstNameSteps(old(View()), w, id, action, front, back);
    }

    method FillRecord(p: WindowPriv, id: XID, action: int, front: Option<Raw>, back: Option<Raw>)
      returns (status: Status)
      requires Linked() && Held(p) && p.pWindow in windows && p.View() == Blank(windows[p.pWindow])
      requires Unreferenced(p.pWindow) && id != DBE_FREE_ID_ELEMENT && nextPix !in pixmaps
      modifies this, p, p.IDs
      ensures Linked() && Privs() <= old(Privs())
      ensures forall a :: a in Arrays() ==> fresh(a) || a in old(Arrays())
      ensures status == if front.Some? && back.Some? then Success else BadAlloc
      ensures View() == RecordFilled(old(View()), p.pWindow, id, action, front, back)
    {
      var ok := FirstBuffers(p, id, front, back);
      if ok {
        EnterName(p, id, action);
        status := Success;
      } else {
        RemoveRecord(p);
        status := BadAlloc;
      }
    }

    method EnterName(p: WindowPriv, id: XID, action: int)
      requires Linked() && Held(p) && id != DBE_FREE_ID_ELEMENT
      modifies this`privRes, p, p.IDs
      ensures Linked() && Privs() == old(Privs())
      ensures forall a :: a in Arrays() ==> fresh(a) || a in old(Arrays())
      ensures View() == NameAdded(old(View()), p.pWindow, id, action).(privRes := old(View()).privRes[id := p.pWindow])
    {
      AddName(p, id, action);
      Enter(id, p);
    }

    /** A record no name leads to is taken from its window. */
    method RemoveRecord(p: WindowPriv)
      requires Linked() && Held(p) && Unreferenced(p.pWindow)
      modifies this`privs
      ensures Linked() && Privs() <= old(Privs()) && Arrays() <= old(Arrays())
      ensures View() == old(View()).(recs := old(View()).recs - {p.pWindow})
    {
      privs := privs - {p.pWindow};
      StillLinkedWithout(p.pWindow);
    }

    /** Another name for a window that has a record. */
    method AllocateNext(p: WindowPriv, id: XID, action: int)
      requires Linked() && Held(p) && id != DBE_FREE_ID_ELEMENT
      modifies this`privRes, this`drawRes, p, p.IDs
      ensures Linked() && Privs() == old(Privs()) && fresh(Arrays() - old(Arrays()))
      ensures View() == NextName(old(View()), p.pWindow, id, action)
    {
      drawRes := drawRes[id := p.pBackBuffer];
      SameRecords();
      EnterName(p, id, action);
    }

    /** The checks ProcDbeAllocateBackBufferName makes, in their order. */
    method CheckAllocate(client: Client, w: XID, id: XID, action: int, depths: seq<Depth>, inUse: set<XID>)
      returns (status: Status)
      requires Linked()
      ensures Linked() && Privs() == old(Privs()) && Arrays() == old(Arrays()) && View() == old(View())
      ensures status == AllocateError(View(), client, w, id, action, depths, inUse)
    {
      if w !in windows {
        return BadWindow;
      }
      if !windows[w].inputOutput {
        return BadMatch;
      }
      if action != XDBE_UNDEFINED && action != XDBE_BACKGROUND && action != XDBE_UNTOUCHED && action != XDBE_COPIED {
        return BadValue;
      }
      if ClientOf(id) != client || id in inUse || id in windows || id in privRes || id in drawRes {
        return BadIDChoice;
      }
      var listed := VisualListed(depths, windows[w].visual);
      SameRecords();
      status := if listed then Success else BadMatch;
    }

    method AllocateName(w: XID, id: XID, action: int, front: Option<Raw>, back: Option<Raw>) returns (status: Status)
      requires Linked() && w in windows && id != DBE_FREE_ID_ELEMENT && nextPix !in pixmaps
      modifies this, Privs(), Arrays()
      ensures Linked() && fresh(Privs() - old(Privs())) && fresh(Arrays() - old(Arrays()))
      ensures (View(), status) == NameAllocated(old(View()), w, id, action, front, back)
    {
      if w in privs {
        assert Owned(w);
        AllocateNext(privs[w], id, action);
        status := Success;
      } else {
        status := AllocateFirst(w, id, action, front, back);
      }
    }

    /** ProcDbeAllocateBackBufferName, with the outcomes of the two CreatePixmap calls it may make. */
    method AllocateBackBufferName(
      client: Client, w: XID, id: XID, action: int, depths: seq<Depth>, inUse: set<XID>,
      front: Option<Raw>, back: Option<Raw>)
      returns (status: Status)
      requires Linked() && Inv(View())
      modifies this, Privs(), Arrays()
      ensures Linked() && fresh(Privs() - old(Privs())) && fresh(Arrays() - old(Arrays()))
      ensures (View(), status) == Allocated(old(View()), client, w, id, action, depths, inUse, front, back)
    {
      status := CheckAllocate(client, w, id, action, depths, inUse);
      ReadyToAllocate(View(), client, w, id, action, depths, inUse, status);
      if status == Success {
        status := AllocateName(w, id, action, front, back);
      }
    }

    /** ProcDbeDeallocateBackBufferName; that the name is in the array of its record need not be checked. */
    method DeallocateBackBufferName(id: XID, drawableFirst: bool) returns (status: Status)
      requires Linked() && Inv(View())
      modifies this`privRes, this`drawRes, this`privs, this`pixmaps, this`destroyed, Privs(), Arrays()
      ensures Linked() && Privs() <= old(Privs()) && Arrays() <= old(Arrays())
      ensures (View(), status) == Deallocated(old(View()), id)
    {
      if id !in privRes {
        return DbeBadBuffer;
      }
      if id !in drawRes {
        return DbeBadBuffer;
      }
      var listed := Listed(id);
      if !listed {
        return DbeBadBuffer;
      }
      FreeResource(id, drawableFirst);
      status := Success;
    }

    /** The search of the record's names; under the invariant it succeeds. */
    method Listed(id: XID) returns (found: bool)
      requires Linked() && Inv(View()) && id in privRes
      ensures found
    {
      assert Owned(privRes[id].pWindow) && NameOwned(View(), id);
      var p := privRes[id];
      assert p.View() == View().recs[p.pWindow];
      var i := 0;
      while i < p.nBufferIDs && p.IDs[i] != id
        invariant i <= p.nBufferIDs && id !in p.IDs[..i]
      {
        i := i + 1;
      }
      found := i != p.nBufferIDs;
    }

    /** ProcDbeGetBackBufferAttributes: the window id is a name of, or None, which is 0. */
    method GetBackBufferAttributes(id: XID) returns (window: XID)
      requires Linked() && Inv(View())
      ensures Linked()
      ensures window != 0 ==> window in View().recs && id in View().recs[window].names
      ensures window == 0 ==> forall w :: w in View().recs && id in View().recs[w].names ==> w == 0
    {
      ghost var s := View();
      if id in privRes {
        assert NameOwned(s, id);
        window := privRes[id].pWindow;
      } else {
        window := 0;
      }
      forall w | w in s.recs && id in s.recs[w].names ensures id in s.privRes && w == s.privRes[id] {
        assert RecordNamed(s, w);
      }
    }

    // ---------------------------------------------------------------- swapping

    /** miDbeAliasBuffers: every name of the record that is a drawable now denotes its back pixmap. */
    method AliasBuffers(p: WindowPriv)
      requires Linked() && Held(p)
      modifies this`drawRes
      ensures Linked() && Held(p) && Privs() == old(Privs()) && Arrays() == old(Arrays())
      ensures View() == old(View()).(drawRes := Alias(old(drawRes), p.Names(), p.pBackBuffer))
    {
      ghost var was := drawRes;
      assert Alias(was, [], p.pBackBuffer) == was;
      var i := 0;
      while i < p.nBufferIDs
        invariant i <= p.nBufferIDs && drawRes == Alias(was, p.IDs[..i], p.pBackBuffer)
        invariant Held(p)
      {
        ghost var before := p.IDs[..i];
        if p.IDs[i] in drawRes {
          drawRes := drawRes[p.IDs[i] := p.pBackBuffer];
        }
        i := i + 1;
        assert p.IDs[..i] == before + [p.IDs[i - 1]];
      }
      SameRecords();
    }

    /** The drawing miDbeSwapBuffers does, up to the exchange of the pixmaps. */
    method Draw(p: WindowPriv, action: int)
      requires p.pWindow in windows && {p.pFrontBuffer, p.pBackBuffer} <= pixmaps.Keys
      requires p.pFrontBuffer != p.pBackBuffer
      modifies this`windows, this`pixmaps
      ensures var win, back := old(windows[p.pWindow]), old(pixmaps[p.pBackBuffer]);
              && windows == old(windows)[p.pWindow := win.(contents := ShownImage(win, back))]
              && pixmaps == old(pixmaps)[p.pFrontBuffer := SavedImage(win, old(pixmaps[p.pFrontBuffer]), action)]
                                        [p.pBackBuffer := ClearedImage(win, back, p.width, p.height, action)]
    {
      var win := windows[p.pWindow];
      if action == XDBE_UNTOUCHED {
        pixmaps := pixmaps[p.pFrontBuffer :=
          CopyArea(win.contents, pixmaps[p.pFrontBuffer], 0, 0, win.width, win.height, 0, 0)];
      }
      windows := windows[p.pWindow :=
        win.(contents := CopyArea(pixmaps[p.pBackBuffer], win.contents, 0, 0, win.width, win.height, 0, 0))];
      if action == XDBE_BACKGROUND && win.painter.Some? {
        pixmaps := pixmaps[p.pBackBuffer := FillRect(win.painter.value, pixmaps[p.pBackBuffer], p.width, p.height)];
      }
    }

    method DrawSwap(p: WindowPriv, action: int)
      requires Linked() && Held(p) && CanSwap(View(), p.pWindow) && p.pFrontBuffer != p.pBackBuffer
      modifies this`windows, this`pixmaps
      ensures Linked() && Held(p) && Privs() == old(Privs()) && Arrays() == old(Arrays())
      ensures View() == Drawn(old(View()), p.pWindow, action)
    {
      assert p.View() == View().recs[p.pWindow];
      Draw(p, action);
      SameRecords();
    }

    method ExchangeBuffers(p: WindowPriv)
      requires Linked() && Held(p)
      modifies p`pFrontBuffer, p`pBackBuffer
      ensures Linked() && Held(p) && Arrays() == old(Arrays()) && p.Names() == old(p.Names())
      ensures View() == old(View()).(recs := old(View()).recs[p.pWindow := Exchanged(old(p.View()))])
    {
      p.pBackBuffer, p.pFrontBuffer := p.pFrontBuffer, p.pBackBuffer;
      BuffersSet(p);
    }

    /** miDbeSwapBuffers on one window. */
    method SwapWindow(w: XID, action: int)
      requires Linked() && w in privs && CanSwap(View(), w) && privs[w].pFrontBuffer != privs[w].pBackBuffer
      modifies this`windows, this`pixmaps, this`drawRes, Privs()
      ensures Linked() && Privs() == old(Privs()) && Arrays() == old(Arrays())
      ensures View() == Swapped(old(View()), w, action)
    {
      assert Owned(w);
      var p := privs[w];
      DrawSwap(p, action);
      if action == XDBE_UNTOUCHED {
        ExchangeBuffers(p);
        AliasBuffers(p);
      }
    }

    /** miDbeSwapBuffers: swaps the window of the first entry and moves the last entry into its place. */
    method SwapFirst(info: array<SwapInfo>, n: nat) returns (left: nat)
      requires Linked() && Inv(View()) && 0 < n <= info.Length && info[0].window in privs
      modifies this`windows, this`pixmaps, this`drawRes, Privs(), info
      ensures Linked() && Privs() == old(Privs()) && Arrays() == old(Arrays())
      ensures View() == Swapped(old(View()), old(info[0]).window, old(info[0]).action)
      ensures left == n - 1 && info[..left] == Worklist(old(info[..n]))
    {
      Swappable(info[0].window);
      SwapWindow(info[0].window, info[0].action);
      label swapped:
      left := MoveLast(info, n);
      SameRecords@swapped();
    }

    method MoveLast(info: array<SwapInfo>, n: nat) returns (left: nat)
      requires 0 < n <= info.Length
      modifies info
      ensures left == n - 1 && info[..left] == Worklist(old(info[..n]))
    {
      ghost var list := info[..n];
      if n > 1 {
        info[0] := info[n - 1];
        info[n - 1] := SwapInfo(0, XDBE_UNDEFINED);
        assert info[..n - 1] == [list[n - 1]] + list[1..n - 1];
      } else {
        info[0] := SwapInfo(0, XDBE_UNDEFINED);
      }
      left := n - 1;
    }

    lemma Swappable(w: XID)
      requires Linked() && Inv(View()) && w in privs
      ensures CanSwap(View(), w) && privs[w].pFrontBuffer != privs[w].pBackBuffer
    {
      assert Owned(w) && PairLive(View(), w) && RecordNamed(View(), w);
      assert privs[w].View() == View().recs[w];
    }

    /** The checks of ProcDbeSwapBuffers: the error is that of the first entry that has one. */
    method CheckSwap(list: seq<SwapInfo>) returns (status: Status)
      requires Linked()
      ensures Linked() && Privs() == old(Privs()) && Arrays() == old(Arrays()) && View() == old(View())
      ensures status == FirstError(View(), list, 0)
    {
      var i := 0;
      while i < |list|
        invariant i <= |list| && FirstError(View(), list, 0) == FirstError(View(), list, i)
      {
        if list[i].window !in windows {
          return BadWindow;
        }
        if list[i].window !in privs {
          return BadMatch;
        }
        var j := i + 1;
        while j < |list|
          invariant i < j <= |list| && forall k :: i < k < j ==> list[k].window != list[i].window
        {
          if list[i].window == list[j].window {
            return BadMatch;
          }
          j := j + 1;
        }
        var action := list[i].action;
        if action != XDBE_UNDEFINED && action != XDBE_BACKGROUND && action != XDBE_UNTOUCHED && action != XDBE_COPIED {
          return BadValue;
        }
        i := i + 1;
      }
      return Success;
    }

    /** ProcDbeSwapBuffers: nothing is swapped when an entry is in error; otherwise the worklist, which takes
        the entries in an order of its own, ends and gives what swapping in request order gives. */
    method SwapBuffers(list: seq<SwapInfo>) returns (status: Status)
      requires Linked() && Inv(View())
      modifies this`windows, this`pixmaps, this`drawRes, Privs()
      ensures Linked() && Privs() == old(Privs()) && Arrays() == old(Arrays())
      ensures (View(), status) == SwapRequested(old(View()), list)
    {
      status := CheckSwap(list);
      if status == Success {
        CheckedList(View(), list, 0);
        label checked:
        var info := new SwapInfo[|list|](i requires 0 <= i < |list| => list[i]);
        SameRecords@checked();
        assert info[..] == list;
        SwapListed(info, list);
      }
    }

    method SwapListed(info: array<SwapInfo>, ghost list: seq<SwapInfo>)
      requires Linked() && Inv(View()) && AllSwappable(View(), list) && info[..] == list
      modifies this`windows, this`pixmaps, this`drawRes, Privs(), info
      ensures Linked() && Privs() == old(Privs()) && Arrays() == old(Arrays())
      ensures View() == SwappedInOrder(old(View()), list)
    {
      ghost var s := View();
      var n := info.Length;
      assert info[..n] == list;
      while n > 0
        invariant n <= info.Length && Linked() && Privs() == old(Privs()) && Arrays() == old(Arrays())
        invariant Inv(View()) && AllSwappable(View(), info[..n])
        invariant SwappedInOrder(View(), info[..n]) == SwappedInOrder(s, list)
      {
        AfterFirst(View(), info[..n]);
        n := SwapFirst(info, n);
      }
    }

    // ---------------------------------------------------------------- resizing

    /** Two pixmaps of the new size; when one is refused the other is destroyed again. */
    method CreatePair(width: nat, height: nat, front: Option<Raw>, back: Option<Raw>)
      returns (ok: bool, f: PixId, b: PixId)
      requires nextPix !in pixmaps && nextPix + 1 !in pixmaps
      modifies this`pixmaps, this`nextPix, this`destroyed
      ensures ok == (front.Some? && back.Some?)
      ensures ok ==>
                && f == old(nextPix) && b == old(nextPix) + 1 && nextPix == old(nextPix) + 2
                && pixmaps == old(pixmaps)[f := Fresh(front.value, width, height)]
                                          [b := Fresh(back.value, width, height)]
                && destroyed == old(destroyed)
      ensures !ok ==>
                && pixmaps == old(pixmaps)
                && nextPix == old(nextPix) + (if front.Some? || back.Some? then 1 else 0)
                && destroyed == old(destroyed) +
                                if front.Some? || back.Some? then multiset{old(nextPix)} else multiset{}
    {
      var pFront := CreatePixmap(width, height, front);
      var pBack := CreatePixmap(width, height, back);
      if pFront.None? || pBack.None? {
        if pFront.Some? {
          DestroyPixmap(pFront.value);
        }
        if pBack.Some? {
          DestroyPixmap(pBack.value);
        }
        return false, 0, 0;
      }
      return true, pFront.value, pBack.value;
    }

    /** Clears one new pixmap when the window grew or forgets its bits, then copies the clipped old one. */
    method DrawResized(ghost r: Record, win: Window, source: PixId, target: PixId, clear: bool, c: Clip, ghost raw: Raw)
      requires source in pixmaps && target in pixmaps && source != target
      requires pixmaps[source].Keys == Area(r.width, r.height)
      requires pixmaps[target] == Fresh(raw, win.width, win.height) && clear == Clears(r, win)
      requires var (dx, dy) := Displacement(r, win);
               CopiesIntersection(c, win.width, win.height, r.width, r.height, dx, dy)
      modifies this`pixmaps
      ensures pixmaps == old(pixmaps)[target := ResizedImage(r, win, old(pixmaps[source]), raw)]
    {
      if clear {
        pixmaps := pixmaps[target := FillRect(win.painter.value, pixmaps[target], win.width, win.height)];
        WholeFill(win.painter.value, Fresh(raw, win.width, win.height), win.width, win.height);
      }
      if win.bitGravity != ForgetGravity {
        ghost var (dx, dy) := Displacement(r, win);
        ClippedCopy(pixmaps[source], pixmaps[target], c, win.width, win.height, r.width, r.height, dx, dy);
        pixmaps := pixmaps[target :=
          CopyArea(pixmaps[source], pixmaps[target], c.srcX, c.srcY, c.width, c.height, c.dstX, c.dstY)];
      }
    }

    /** What a resize of the record's buffers to the window will clear and copy. */
    method PlanResize(p: WindowPriv, win: Window) returns (clear: bool, c: Clip)
      requires p.Slots()
      ensures p.Slots() && clear == Clears(p.View(), win)
      ensures var (dx, dy) := Displacement(p.View(), win);
              CopiesIntersection(c, win.width, win.height, p.width, p.height, dx, dy)
    {
      var dx, dy, dw, dh := win.x - p.x, win.y - p.y, win.width - p.width, win.height - p.height;
      var (destx, desty) := GravityTranslate(0, 0, -dx, -dy, dw, dh, win.bitGravity);
      assert (destx, desty) == Displacement(p.View(), win);
      clear := p.width < win.width || p.height < win.height || win.bitGravity == ForgetGravity;
      c := ClipToDestination(win.width, win.height, p.width, p.height, destx, desty);
      if clear && win.painter.None? {
        clear := false;
      }
    }

    method DrawBoth(ghost r: Record, win: Window, clear: bool, c: Clip, front: PixId, back: PixId, f: PixId, b: PixId,
                    ghost frontRaw: Raw, ghost backRaw: Raw)
      requires {front, back, f, b} <= pixmaps.Keys && f != b && {front, back} !! {f, b}
      requires pixmaps[front].Keys == pixmaps[back].Keys == Area(r.width, r.height)
      requires pixmaps[f] == Fresh(frontRaw, win.width, win.height)
      requires pixmaps[b] == Fresh(backRaw, win.width, win.height)
      requires clear == Clears(r, win)
      requires var (dx, dy) := Displacement(r, win);
               CopiesIntersection(c, win.width, win.height, r.width, r.height, dx, dy)
      modifies this`pixmaps
      ensures pixmaps == old(pixmaps)[f := ResizedImage(r, win, old(pixmaps[front]), frontRaw)]
                                     [b := ResizedImage(r, win, old(pixmaps[back]), backRaw)]
    {
      DrawResized(r, win, front, f, clear, c, frontRaw);
      DrawResized(r, win, back, b, clear, c, backRaw);
    }

    method Repoint(p: WindowPriv, win: Window, f: PixId, b: PixId)
      requires Linked() && Held(p)
      modifies p`pFrontBuffer, p`pBackBuffer, p`width, p`height, p`x, p`y
      ensures Linked() && Held(p) && Arrays() == old(Arrays()) && p.Names() == old(p.Names()) && p.pBackBuffer == b
      ensures View() == old(View()).(recs := old(View()).recs[p.pWindow := old(p.View()).(
        front := f, back := b, width := win.width, height := win.height, x := win.x, y := win.y)])
    {
      p.pFrontBuffer, p.pBackBuffer := f, b;
      p.width, p.height, p.x, p.y := win.width, win.height, win.x, win.y;
      assert p.Names() == old(p.Names());
      StillHeld(p);
    }

    method Discard(p: WindowPriv)
      requires Linked() && Held(p)
      requires {p.pFrontBuffer, p.pBackBuffer} <= pixmaps.Keys && p.pFrontBuffer != p.pBackBuffer
      modifies this`pixmaps, this`destroyed
      ensures Linked() && Held(p) && Privs() == old(Privs()) && Arrays() == old(Arrays())
      ensures View() == old(View()).(pixmaps := old(pixmaps) - {p.pFrontBuffer, p.pBackBuffer},
                                     destroyed := old(destroyed) + multiset{p.pFrontBuffer, p.pBackBuffer})
    {
      DestroyPair(p.pFrontBuffer, p.pBackBuffer);
      SameRecords();
    }

    /** The record turns to its new pixmaps. */
    method ReplaceBuffers(p: WindowPriv, win: Window, f: PixId, b: PixId)
      requires Linked() && Held(p)
      requires {p.pFrontBuffer, p.pBackBuffer} <= pixmaps.Keys && p.pFrontBuffer != p.pBackBuffer
      modifies this`pixmaps, this`destroyed, this`drawRes, p`pFrontBuffer, p`pBackBuffer, p`width, p`height, p`x, p`y
      ensures Linked() && Privs() == old(Privs()) && Arrays() == old(Arrays())
      ensures View() == BuffersReplaced(old(View()), p.pWindow, win, f, b)
    {
      Discard(p);
      Repoint(p, win, f, b);
      AliasBuffers(p);
    }

    method BuildPair(p: WindowPriv, ghost r: Record, win: Window, front: Option<Raw>, back: Option<Raw>)
      returns (ok: bool, f: PixId, b: PixId)
      requires p.Slots() && r == p.View() && {r.front, r.back} <= pixmaps.Keys
      requires nextPix !in pixmaps && nextPix + 1 !in pixmaps
      requires pixmaps[r.front].Keys == pixmaps[r.back].Keys == Area(r.width, r.height)
      modifies this`pixmaps, this`nextPix, this`destroyed
      ensures ok == (front.Some? && back.Some?)
      ensures ok ==>
                && f == old(nextPix) && b == old(nextPix) + 1 && nextPix == old(nextPix) + 2
                && destroyed == old(destroyed)
                && pixmaps == old(pixmaps)[f := ResizedImage(r, win, old(pixmaps[r.front]), front.value)]
                                          [b := ResizedImage(r, win, old(pixmaps[r.back]), back.value)]
      ensures !ok ==>
                && pixmaps == old(pixmaps)
                && nextPix == old(nextPix) + (if front.Some? || back.Some? then 1 else 0)
                && destroyed == old(destroyed) +
                                if front.Some? || back.Some? then multiset{old(nextPix)} else multiset{}
    {
      var clear, c := PlanResize(p, win);
      ok, f, b := CreatePair(win.width, win.height, front, back);
      if ok {
        assert {r.front, r.back} !! {f, b} && f != b;
        DrawBoth(r, win, clear, c, p.pFrontBuffer, p.pBackBuffer, f, b, front.value, back.value);
      }
    }

    /** The new pixmaps, created and drawn from the old ones. */
    method NewBuffers(p: WindowPriv, ghost r: Record, win: Window, front: Option<Raw>, back: Option<Raw>)
      returns (ok: bool, f: PixId, b: PixId)
      requires Linked() && Held(p) && r == p.View() && {r.front, r.back} <= pixmaps.Keys
      requires nextPix !in pixmaps && nextPix + 1 !in pixmaps
      requires pixmaps[r.front].Keys == pixmaps[r.back].Keys == Area(r.width, r.height)
      modifies this`pixmaps, this`nextPix, this`destroyed
      ensures Linked() && Held(p) && r == p.View() && Privs() == old(Privs()) && Arrays() == old(Arrays())
      ensures ok == (front.Some? && back.Some?) && {r.front, r.back} <= pixmaps.Keys
      ensures !ok ==> View() == if front.Some? || back.Some? then PixmapWasted(old(View())) else old(View())
      ensures ok ==>
                && f == old(nextPix) && b == old(nextPix) + 1
                && View() == PairDrawn(old(View()), r, win, front.value, back.value)
    {
      ok, f, b := BuildPair(p, r, win, front, back);
      SameRecords();
    }

    /** miDbeWindowPosition: the buffers follow the size of the window, or all its names go. */
    method WindowPosition(w: XID, front: Option<Raw>, back: Option<Raw>, drawableFirst: XID -> bool)
      requires Linked() && Core(View()) && w in windows && BuffersSized(View(), w)
      modifies this`privRes, this`drawRes, this`privs, this`pixmaps, this`nextPix, this`destroyed, Privs(), Arrays()
      ensures Linked() && Privs() <= old(Privs()) && Arrays() <= old(Arrays())
      ensures View() == BuffersResized(old(View()), w, front, back)
    {
      if w !in privs {
        return;
      }
      ResizeFacts(w);
      assert Owned(w);
      if privs[w].width == windows[w].width && privs[w].height == windows[w].height {
        return;
      }
      FitBuffers(w, privs[w], windows[w], front, back, drawableFirst);
    }

    method FitBuffers(w: XID, p: WindowPriv, win: Window, front: Option<Raw>, back: Option<Raw>,
                      drawableFirst: XID -> bool)
      requires Linked() && Core(View()) && Held(p) && p.pWindow == w && w in windows && BuffersSized(View(), w)
      modifies this`privRes, this`drawRes, this`privs, this`pixmaps, this`nextPix, this`destroyed, Privs(), Arrays()
      ensures Linked() && Privs() <= old(Privs()) && Arrays() <= old(Arrays())
      ensures w in old(View()).recs && View() == BuffersFitted(old(View()), w, win, front, back)
    {
      ghost var s, r := View(), p.View();
      ResizeFacts(w);
      var ok := Refit(p, r, win, front, back);
      if !ok {
        RefusedNames(s, w);
        FreeAllNames(w, drawableFirst);
      }
      assert r == s.recs[w];
    }

    method Refit(p: WindowPriv, ghost r: Record, win: Window, front: Option<Raw>, back: Option<Raw>) returns (ok: bool)
      requires Linked() && Held(p) && r == p.View() && {r.front, r.back} <= pixmaps.Keys && r.front != r.back
      requires nextPix !in pixmaps && nextPix + 1 !in pixmaps
      requires pixmaps[r.front].Keys == pixmaps[r.back].Keys == Area(r.width, r.height)
      modifies this`pixmaps, this`nextPix, this`destroyed, this`drawRes
      modifies p`pFrontBuffer, p`pBackBuffer, p`width, p`height, p`x, p`y
      ensures Linked() && Privs() == old(Privs()) && Arrays() == old(Arrays())
      ensures ok == (front.Some? && back.Some?)
      ensures !ok ==> View() == if front.Some? || back.Some? then PixmapWasted(old(View())) else old(View())
      ensures ok ==> old(View()).recs[p.pWindow] == r
      ensures ok ==> View() == BuffersFitted(old(View()), p.pWindow, win, front, back)
    {
      ghost var s := View();
      assert s.recs[p.pWindow] == r;
      var f, b;
      ok, f, b := NewBuffers(p, r, win, front, back);
      if ok {
        assert BuffersFitted(s, p.pWindow, win, front, back) ==
               BuffersReplaced(PairDrawn(s, r, win, front.value, back.value), p.pWindow, win, f, b);
        ReplaceBuffers(p, win, f, b);
      }
    }

    lemma ResizeFacts(w: XID)
      requires Linked() && Core(View()) && w in windows && w in privs && BuffersSized(View(), w)
      ensures Held(privs[w]) && privs[w].View() == View().recs[w] && CanSwap(View(), w)
      ensures privs[w].pFrontBuffer != privs[w].pBackBuffer && nextPix !in pixmaps && nextPix + 1 !in pixmaps
      ensures pixmaps[privs[w].pFrontBuffer].Keys == pixmaps[privs[w].pBackBuffer].Keys ==
              Area(privs[w].width, privs[w].height)
    {
      assert Owned(w) && PairLive(View(), w) && RecordNamed(View(), w);
      assert privs[w].View() == View().recs[w];
    }

    /** A window gets a new place, size and contents, and the extension hears of it. */
    method ResizeWindow(
      w: XID, x: int, y: int, width: nat, height: nat, contents: Raw, front: Option<Raw>, back: Option<Raw>,
      drawableFirst: XID -> bool)
      requires Linked() && Inv(View())
      modifies this, Privs(), Arrays()
      ensures Linked() && Privs() <= old(Privs()) && Arrays() <= old(Arrays())
      ensures View() == Resized(old(View()), w, x, y, width, height, contents, front, back)
    {
      if w !in windows {
        return;
      }
      ConfigureWindow(w, x, y, width, height, contents);
      WindowPosition(w, front, back, drawableFirst);
    }

    method ConfigureWindow(w: XID, x: int, y: int, width: nat, height: nat, contents: Raw)
      requires Linked() && Inv(View()) && w in windows
      modifies this`windows
      ensures Linked() && Privs() == old(Privs()) && Arrays() == old(Arrays())
      ensures View() == WindowConfigured(old(View()), w, x, y, width, height, contents)
      ensures Core(View()) && w in windows && BuffersSized(View(), w)
    {
      ghost var s := View();
      windows := windows[w := windows[w].(x := x, y := y, width := width, height := height,
                                          contents := Fresh(contents, width, height))];
      SameRecords();
      ConfiguredCore(s, w, x, y, width, height, contents);
    }
  }

  /** The entry of a visual: miDbeGetVisualInfo gives every one the same performance level. */
  datatype VisualInfo = VisualInfo(visual: int, depth: int, perflevel: int)

  function DepthVisuals(d: Depth): (infos: seq<VisualInfo>)
    ensures |infos| == |d.vids| && forall j :: 0 <= j < |infos| ==> infos[j] == VisualInfo(d.vids[j], d.depth, 0)
  {
    seq(|d.vids|, j requires 0 <= j < |d.vids| => VisualInfo(d.vids[j], d.depth, 0))
  }

  /** The visuals of every depth of the screen, depth by depth. */
  function Visuals(depths: seq<Depth>): seq<VisualInfo> {
    if depths == [] then [] else Visuals(depths[..|depths| - 1]) + DepthVisuals(depths[|depths| - 1])
  }

  predicate Lists(infos: seq<VisualInfo>, visual: int) {
    exists i :: 0 <= i < |infos| && infos[i].visual == visual
  }

  lemma ListsJoined(a: seq<VisualInfo>, b: seq<VisualInfo>, visual: int)
    ensures Lists(a + b, visual) <==> Lists(a, visual) || Lists(b, visual)
  {
    if i :| 0 <= i < |b| && b[i].visual == visual {
      assert (a + b)[|a| + i].visual == visual;
    }
    if i :| 0 <= i < |a| && a[i].visual == visual {
      assert (a + b)[i].visual == visual;
    }
  }

  lemma DepthLists(d: Depth, visual: int)
    ensures Lists(DepthVisuals(d), visual) <==> visual in d.vids
  {
    if j :| 0 <= j < |d.vids| && d.vids[j] == visual {
      assert DepthVisuals(d)[j].visual == visual;
    }
  }

  /** The list has an entry for exactly the visuals of the depths. */
  lemma {:induction false} VisualsListed(depths: seq<Depth>, visual: int)
    ensures Lists(Visuals(depths), visual) <==> HasVisual(depths, visual)
  {
    if depths != [] {
      var before, last := depths[..|depths| - 1], depths[|depths| - 1];
      VisualsListed(before, visual);
      ListsJoined(Visuals(before), DepthVisuals(last), visual);
      DepthLists(last, visual);
      assert depths == before + [last];
    }
  }

  method GetVisualInfo(depths: seq<Depth>) returns (visinfo: seq<VisualInfo>)
    ensures visinfo == Visuals(depths)
  {
    visinfo := [];
    for i := 0 to |depths|
      invariant visinfo == Visuals(depths[..i])
    {
      ghost var before := visinfo;
      for j := 0 to |depths[i].vids|
        invariant visinfo == before + DepthVisuals(depths[i])[..j]
      {
        visinfo := visinfo + [VisualInfo(depths[i].vids[j], depths[i].depth, 0)];
      }
      assert depths[..i + 1][..i] == depths[..i];
    }
    assert depths[..|depths|] == depths;
  }

  /** The scan of that list for the visual of a window. */
  method VisualListed(depths: seq<Depth>, visual: int) returns (listed: bool)
    ensures listed == HasVisual(depths, visual)
  {
    var visinfo := GetVisualInfo(depths);
    listed := false;
    var i := 0;
    while i < |visinfo| && !listed
      invariant i <= |visinfo| && (listed ==> Lists(visinfo, visual))
      invariant !listed ==> forall k :: 0 <= k < i ==> visinfo[k].visual != visual
    {
      if visinfo[i].visual == visual {
        listed := true;
      }
      i := i + 1;
    }
    VisualsListed(depths, visual);
  }
}

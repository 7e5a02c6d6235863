/** Every request keeps the invariant. */
module DbeInvariant {
  import opened Options
  import opened Images
  import opened Resources
  import opened DbeState
  import opened DbeRequests

  // ---------------------------------------------------------------- what a step leaves alone

  ghost predicate SameNames(s: State, t: State) {
    && t.recs.Keys == s.recs.Keys && t.privRes == s.privRes
    && (forall w :: w in s.recs ==> t.recs[w].names == s.recs[w].names)
    && (forall w :: w in s.recs && w in s.windows ==> w in t.windows)
  }

  /** The same pixmaps, each still belonging to the same record, as front or as back. */
  ghost predicate SamePairs(s: State, t: State) {
    && t.recs.Keys == s.recs.Keys && t.pixmaps.Keys == s.pixmaps.Keys
    && (forall w :: w in s.recs ==>
          || (t.recs[w].front == s.recs[w].front && t.recs[w].back == s.recs[w].back)
          || (t.recs[w].front == s.recs[w].back && t.recs[w].back == s.recs[w].front))
  }

  lemma SameNamesOk(s: State, t: State)
    requires NamesOk(s) && SameNames(s, t)
    ensures NamesOk(t)
  {
    forall w | w in t.recs ensures RecordNamed(t, w) { assert RecordNamed(s, w); }
    forall id | id in t.privRes ensures NameOwned(t, id) { assert NameOwned(s, id); }
  }

  lemma SamePairsOk(s: State, t: State)
    requires PixmapsOk(s) && SamePairs(s, t)
    ensures PairsLive(t) && PairsApart(t) && NoOrphans(t)
  {
    forall w | w in t.recs ensures PairLive(t, w) { assert PairLive(s, w); }
    forall v, w | v in t.recs && w in t.recs && v != w ensures Apart(t, v, w) {
      assert Apart(s, v, w);
      forall p ensures !(Owns(t.recs[v], p) && Owns(t.recs[w], p)) {
        assert !(Owns(s.recs[v], p) && Owns(s.recs[w], p));
      }
    }
    forall p | p in t.pixmaps ensures Owned(t, p) {
      assert Owned(s, p);
      var w :| w in s.recs && Owns(s.recs[w], p);
      assert w in t.recs && Owns(t.recs[w], p);
    }
  }

  lemma SamePixmapsOk(s: State, t: State)
    requires PixmapsOk(s) && SamePairs(s, t) && t.nextPix == s.nextPix && t.destroyed == s.destroyed
    ensures PixmapsOk(t)
  {
    SamePairsOk(s, t);
  }

  /** Windows and records keep their sizes, pixmaps their areas. */
  lemma SameSizesOk(s: State, t: State)
    requires PairsLive(s) && SizesOk(s) && SamePairs(s, t) && t.windows.Keys == s.windows.Keys
    requires forall w :: w in s.windows ==>
               && t.windows[w].width == s.windows[w].width && t.windows[w].height == s.windows[w].height
               && t.windows[w].contents.Keys == s.windows[w].contents.Keys
    requires forall w :: w in s.recs ==>
               t.recs[w].width == s.recs[w].width && t.recs[w].height == s.recs[w].height
    requires forall p :: p in s.pixmaps ==> t.pixmaps[p].Keys == s.pixmaps[p].Keys
    ensures SizesOk(t)
  {
    forall w | w in t.windows ensures WindowSized(t, w) { assert WindowSized(s, w); }
    forall w | w in t.recs ensures RecordSized(t, w) { assert RecordSized(s, w) && PairLive(s, w); }
  }

  // ---------------------------------------------------------------- allocating

  lemma FirstNameNames(s: State, w: XID, id: XID, action: int, front: Raw, back: Raw)
    requires NamesOk(s) && w in s.windows && w !in s.recs && id != 0 && id !in s.privRes
    ensures NamesOk(FirstName(s, w, id, action, front, back))
  {
    var t := FirstName(s, w, id, action, front, back);
    forall v | v in t.recs ensures RecordNamed(t, v) {
      if v != w { assert RecordNamed(s, v); }
    }
    forall n | n in t.privRes ensures NameOwned(t, n) {
      if n != id { assert NameOwned(s, n); }
    }
  }

  lemma FirstNameLive(s: State, w: XID, id: XID, action: int, front: Raw, back: Raw)
    requires PixmapsOk(s) && w in s.windows && w !in s.recs
    ensures PairsLive(FirstName(s, w, id, action, front, back))
    ensures PairsApart(FirstName(s, w, id, action, front, back))
  {
    var t := FirstName(s, w, id, action, front, back);
    forall v | v in t.recs ensures PairLive(t, v) {
      if v != w { assert PairLive(s, v); }
    }
    forall u, v | u in t.recs && v in t.recs && u != v ensures Apart(t, u, v) {
      if u == w {
        assert PairLive(s, v);
      } else if v == w {
        assert PairLive(s, u);
      } else {
        assert Apart(s, u, v);
      }
    }
  }

  lemma FirstNameOrphans(s: State, w: XID, id: XID, action: int, front: Raw, back: Raw)
    requires PixmapsOk(s) && w in s.windows && w !in s.recs
    ensures NoOrphans(FirstName(s, w, id, action, front, back))
    ensures DestroyedOnce(FirstName(s, w, id, action, front, back))
  {
    var t := FirstName(s, w, id, action, front, back);
    forall p | p in t.pixmaps ensures Owned(t, p) {
      if p in s.pixmaps {
        assert Owned(s, p);
        var v :| v in s.recs && Owns(s.recs[v], p);
        assert v in t.recs && Owns(t.recs[v], p);
      } else {
        assert Owns(t.recs[w], p);
      }
    }
  }

  lemma FirstNameSizes(s: State, w: XID, id: XID, action: int, front: Raw, back: Raw)
    requires PixmapsOk(s) && SizesOk(s) && w in s.windows && w !in s.recs
    ensures SizesOk(FirstName(s, w, id, action, front, back))
  {
    var t := FirstName(s, w, id, action, front, back);
    forall v | v in t.windows ensures WindowSized(t, v) { assert WindowSized(s, v); }
    forall v | v in t.recs ensures RecordSized(t, v) {
      if v != w { assert RecordSized(s, v) && PairLive(s, v); }
    }
  }

  lemma FirstNameInv(s: State, w: XID, id: XID, action: int, front: Raw, back: Raw)
    requires Inv(s) && w in s.windows && w !in s.recs && id != 0 && id !in s.privRes
    ensures Inv(FirstName(s, w, id, action, front, back))
  {
    FirstNameNames(s, w, id, action, front, back);
    FirstNameLive(s, w, id, action, front, back);
    FirstNameOrphans(s, w, id, action, front, back);
    FirstNameSizes(s, w, id, action, front, back);
    assert AliasesOk(FirstName(s, w, id, action, front, back));
  }

  lemma NextNameNames(s: State, w: XID, id: XID, action: int)
    requires NamesOk(s) && w in s.recs && id != 0 && id !in s.privRes
    ensures NamesOk(NextName(s, w, id, action))
  {
    var t := NextName(s, w, id, action);
    forall v | v in t.recs ensures RecordNamed(t, v) { assert RecordNamed(s, v); }
    forall n | n in t.privRes ensures NameOwned(t, n) {
      if n != id { assert NameOwned(s, n); }
    }
  }

  lemma NextNameInv(s: State, w: XID, id: XID, action: int)
    requires Inv(s) && w in s.recs && id != 0 && id !in s.privRes
    ensures Inv(NextName(s, w, id, action))
  {
    var t := NextName(s, w, id, action);
    NextNameNames(s, w, id, action);
    SamePixmapsOk(s, t);
    SameSizesOk(s, t);
    forall n | n in t.drawRes ensures t.privRes[n] in t.recs && t.drawRes[n] == t.recs[t.privRes[n]].back {}
  }

  lemma PixmapWastedInv(s: State)
    ensures Core(s) ==> Core(PixmapWasted(s))
    ensures Inv(s) ==> Inv(PixmapWasted(s))
  {
    var t := PixmapWasted(s);
    if Core(s) {
      SameNamesOk(s, t);
      SamePairsOk(s, t);
    }
    if Inv(s) {
      SameSizesOk(s, t);
    }
  }

  /** What the checks of an allocation leave to do. */
  lemma ReadyToAllocate(
    s: State, client: Client, w: XID, id: XID, action: int, depths: seq<Depth>, inUse: set<XID>, status: Status)
    requires Inv(s) && status == AllocateError(s, client, w, id, action, depths, inUse)
    ensures status == Success ==> w in s.windows && id != 0 && s.nextPix !in s.pixmaps
    ensures forall front, back {:trigger Allocated(s, client, w, id, action, depths, inUse, front, back)} ::
              Allocated(s, client, w, id, action, depths, inUse, front, back) ==
              if status == Success then NameAllocated(s, w, id, action, front, back) else (s, status)
  {
  }

  lemma AllocatedInv(
    s: State, client: Client, w: XID, id: XID, action: int, depths: seq<Depth>, inUse: set<XID>,
    front: Option<Raw>, back: Option<Raw>)
    requires Inv(s)
    ensures Inv(Allocated(s, client, w, id, action, depths, inUse, front, back).0)
  {
    if AllocateError(s, client, w, id, action, depths, inUse) == Success {
      if w in s.recs {
        NextNameInv(s, w, id, action);
      } else if front.Some? && back.Some? {
        FirstNameInv(s, w, id, action, front.value, back.value);
      }
      PixmapWastedInv(s);
    }
  }

  // ---------------------------------------------------------------- swapping

  lemma SwappedInv(s: State, w: XID, action: int)
    requires Inv(s)
    ensures Inv(Swapped(s, w, action))
  {
    if CanSwap(s, w) {
      var t := Swapped(s, w, action);
      SameNamesOk(s, t);
      SamePixmapsOk(s, t);
      SwappedSizes(s, w, action);
      SwappedAliases(s, w, action);
    }
  }

  lemma SwappedSizes(s: State, w: XID, action: int)
    requires Inv(s) && CanSwap(s, w)
    ensures SizesOk(Swapped(s, w, action))
  {
    var t := Swapped(s, w, action);
    forall p | p in s.pixmaps ensures t.pixmaps[p].Keys == s.pixmaps[p].Keys {}
    assert t.windows[w].contents.Keys == s.windows[w].contents.Keys;
    SameSizesOk(s, t);
  }

  lemma SwappedAliases(s: State, w: XID, action: int)
    requires Inv(s) && CanSwap(s, w)
    ensures AliasesOk(Swapped(s, w, action))
  {
    var t := Swapped(s, w, action);
    forall id | id in t.drawRes ensures t.privRes[id] in t.recs && t.drawRes[id] == t.recs[t.privRes[id]].back {
      assert NameOwned(s, id);
      assert RecordNamed(s, w);
    }
  }

  lemma {:induction false} SwappedInOrderInv(s: State, list: seq<SwapInfo>)
    requires Inv(s)
    ensures Inv(SwappedInOrder(s, list))
    decreases |list|
  {
    if list != [] {
      SwappedInv(s, list[0].window, list[0].action);
      SwappedInOrderInv(Swapped(s, list[0].window, list[0].action), list[1..]);
    }
  }

  // ---------------------------------------------------------------- resizing

  predicate Resizes(s: State, w: XID) {
    CanSwap(s, w) && !(s.recs[w].width == s.windows[w].width && s.recs[w].height == s.windows[w].height)
  }

  lemma ResizedLive(s: State, w: XID, front: Raw, back: Raw)
    requires PixmapsOk(s) && Resizes(s, w)
    ensures PairsLive(BuffersResized(s, w, Some(front), Some(back)))
    ensures PairsApart(BuffersResized(s, w, Some(front), Some(back)))
  {
    var t := BuffersResized(s, w, Some(front), Some(back));
    forall v | v in t.recs ensures PairLive(t, v) {
      if v != w { assert PairLive(s, v) && Apart(s, v, w); }
    }
    forall u, v | u in t.recs && v in t.recs && u != v ensures Apart(t, u, v) {
      if u == w {
        assert PairLive(s, v);
      } else if v == w {
        assert PairLive(s, u);
      } else {
        assert Apart(s, u, v);
      }
    }
  }

  lemma ResizedOrphans(s: State, w: XID, front: Raw, back: Raw)
    requires PixmapsOk(s) && Resizes(s, w)
    ensures NoOrphans(BuffersResized(s, w, Some(front), Some(back)))
    ensures DestroyedOnce(BuffersResized(s, w, Some(front), Some(back)))
  {
    var t := BuffersResized(s, w, Some(front), Some(back));
    forall p | p in t.pixmaps ensures Owned(t, p) {
      if p in s.pixmaps {
        assert Owned(s, p);
        var v :| v in s.recs && Owns(s.recs[v], p);
        assert v in t.recs && Owns(t.recs[v], p);
      } else {
        assert Owns(t.recs[w], p);
      }
    }
    assert PairLive(s, w);
  }

  lemma ResizedSizes(s: State, w: XID, front: Raw, back: Raw)
    requires PixmapsOk(s) && Resizes(s, w)
    requires forall v :: v in s.windows ==> WindowSized(s, v)
    requires forall v :: v in s.recs && v != w ==> RecordSized(s, v)
    ensures SizesOk(BuffersResized(s, w, Some(front), Some(back)))
  {
    var t := BuffersResized(s, w, Some(front), Some(back));
    forall v | v in t.windows ensures WindowSized(t, v) { assert WindowSized(s, v); }
    forall v | v in t.recs ensures RecordSized(t, v) {
      if v == w {
        ResizedRecordSized(s, w, front, back);
      } else {
        OtherRecordSized(s, w, v, front, back);
      }
    }
  }

  lemma ResizedRecordSized(s: State, w: XID, front: Raw, back: Raw)
    requires PixmapsOk(s) && Resizes(s, w)
    ensures RecordSized(BuffersResized(s, w, Some(front), Some(back)), w)
  {
    var r, win := s.recs[w], s.windows[w];
    assert PairLive(s, w);
    ResizedKeys(r, win, s.pixmaps[r.front], front);
    ResizedKeys(r, win, s.pixmaps[r.back], back);
  }

  lemma ResizedKeys(r: Record, win: Window, was: Image, raw: Raw)
    ensures ResizedImage(r, win, was, raw).Keys == Area(win.width, win.height)
  {
  }

  lemma OtherRecordSized(s: State, w: XID, v: XID, front: Raw, back: Raw)
    requires PixmapsOk(s) && Resizes(s, w) && v in s.recs && v != w && RecordSized(s, v)
    ensures var t := BuffersResized(s, w, Some(front), Some(back));
            v in t.recs && RecordSized(t, v)
  {
    assert PairLive(s, v) && Apart(s, v, w);
  }

  lemma ResizedAliases(s: State, w: XID, front: Raw, back: Raw)
    requires NamesOk(s) && AliasesOk(s) && Resizes(s, w)
    ensures NamesOk(BuffersResized(s, w, Some(front), Some(back)))
    ensures AliasesOk(BuffersResized(s, w, Some(front), Some(back)))
  {
    var t := BuffersResized(s, w, Some(front), Some(back));
    SameNamesOk(s, t);
    forall id | id in t.drawRes ensures t.privRes[id] in t.recs && t.drawRes[id] == t.recs[t.privRes[id]].back {
      assert NameOwned(s, id);
      assert RecordNamed(s, w);
    }
  }

  /** When both pixmaps are refused or one is, the record of the window is gone. */
  lemma TornDown(s: State, w: XID)
    requires NamesOk(s) && w in s.recs
    ensures forall v :: v in DropNames(s, NameSet(s.recs[w])).recs <==> v in s.recs && v != w
    ensures forall v :: v in s.recs && v != w ==> DropNames(s, NameSet(s.recs[w])).recs[v] == s.recs[v]
  {
    var gone := NameSet(s.recs[w]);
    forall v | v in s.recs && v != w
      ensures !AllIn(s.recs[v].names, gone) && Without(s.recs[v].names, gone) == s.recs[v].names
    {
      assert RecordNamed(s, v) && RecordNamed(s, w);
      forall id | id in s.recs[v].names ensures id !in gone {
        assert s.privRes[id] == v;
      }
      assert s.recs[v].names[0] in s.recs[v].names;
      WithoutNone(s.recs[v].names, gone);
    }
  }

  lemma BuffersResizedInv(s: State, w: XID, front: Option<Raw>, back: Option<Raw>)
    requires Core(s) && AliasesOk(s) && CanSwap(s, w)
    requires forall v :: v in s.windows ==> WindowSized(s, v)
    requires forall v :: v in s.recs && v != w ==> RecordSized(s, v)
    requires !Resizes(s, w) ==> RecordSized(s, w)
    ensures Inv(BuffersResized(s, w, front, back))
  {
    if Resizes(s, w) {
      if front.Some? && back.Some? {
        ResizedLive(s, w, front.value, back.value);
        ResizedOrphans(s, w, front.value, back.value);
        ResizedSizes(s, w, front.value, back.value);
        ResizedAliases(s, w, front.value, back.value);
      } else {
        var u := if front.Some? || back.Some? then PixmapWasted(s) else s;
        PixmapWastedInv(s);
        TornDownInv(u, w);
      }
    }
  }

  lemma TornDownInv(s: State, w: XID)
    requires Core(s) && AliasesOk(s) && w in s.recs
    requires forall v :: v in s.windows ==> WindowSized(s, v)
    requires forall v :: v in s.recs && v != w ==> RecordSized(s, v)
    ensures Inv(DropNames(s, NameSet(s.recs[w])))
  {
    var gone := NameSet(s.recs[w]);
    var t := DropNames(s, gone);
    DropPrivsCore(s, gone);
    CoreIgnoresDrawables(DropPrivs(s, gone), gone);
    TornDown(s, w);
    forall v | v in t.windows ensures WindowSized(t, v) { assert WindowSized(s, v); }
    forall v | v in t.recs ensures RecordSized(t, v) { assert RecordSized(s, v); }
    forall id | id in t.drawRes ensures t.privRes[id] in t.recs && t.drawRes[id] == t.recs[t.privRes[id]].back {
      assert NameOwned(s, id) && NameOwned(t, id);
    }
  }

  /** The pixmaps of w have the size its record remembers. */
  ghost predicate BuffersSized(s: State, w: XID) {
    w in s.recs && s.recs[w].front in s.pixmaps && s.recs[w].back in s.pixmaps ==>
      s.pixmaps[s.recs[w].front].Keys == s.pixmaps[s.recs[w].back].Keys == Area(s.recs[w].width, s.recs[w].height)
  }

  lemma ConfiguredCore(s: State, w: XID, x: int, y: int, width: nat, height: nat, contents: Raw)
    requires Inv(s) && w in s.windows
    ensures var t := WindowConfigured(s, w, x, y, width, height, contents);
            Core(t) && AliasesOk(t) && BuffersSized(t, w)
  {
    var t := WindowConfigured(s, w, x, y, width, height, contents);
    SameNamesOk(s, t);
    SamePixmapsOk(s, t);
    assert w in s.recs ==> RecordSized(s, w);
  }

  lemma ResizedInv(
    s: State, w: XID, x: int, y: int, width: nat, height: nat, contents: Raw, front: Option<Raw>, back: Option<Raw>)
    requires Inv(s)
    ensures Inv(Resized(s, w, x, y, width, height, contents, front, back))
  {
    if w in s.windows {
      var t := WindowConfigured(s, w, x, y, width, height, contents);
      ConfiguredCore(s, w, x, y, width, height, contents);
      forall v | v in t.windows ensures WindowSized(t, v) { assert WindowSized(s, v); }
      forall v | v in t.recs && v != w ensures RecordSized(t, v) { assert RecordSized(s, v); }
      if w in s.recs {
        assert PairLive(s, w) && RecordSized(s, w) && RecordNamed(s, w);
        BuffersResizedInv(t, w, front, back);
      }
    }
  }

  // ---------------------------------------------------------------- teardown

  /** Windows whose records are gone can go too. */
  lemma WindowsRemovedInv(s: State, gone: set<XID>)
    requires Inv(s) && forall w :: w in s.recs ==> w !in gone
    ensures Inv(s.(windows := s.windows - gone))
  {
    var t := s.(windows := s.windows - gone);
    SameNamesOk(s, t);
    SamePixmapsOk(s, t);
    forall v | v in t.windows ensures WindowSized(t, v) { assert WindowSized(s, v); }
    forall v | v in t.recs ensures RecordSized(t, v) { assert RecordSized(s, v); }
  }

  lemma WindowDestroyedInv(s: State, w: XID)
    requires Inv(s)
    ensures Inv(WindowDestroyed(s, w))
  {
    DropNamesInv(s, NamesOf(s, w));
    WindowsRemovedInv(DropNames(s, NamesOf(s, w)), {w});
  }

  lemma ClientGoneInv(s: State, client: Client, subtree: set<XID>)
    requires Inv(s)
    ensures Inv(ClientGone(s, client, subtree))
  {
    var gone := Doomed(s, client, subtree);
    var windows := DoomedWindows(s, client, subtree);
    DropNamesInv(s, gone);
    forall w | w in DropNames(s, gone).recs ensures w !in windows {
      assert RecordNamed(s, w);
    }
    WindowsRemovedInv(DropNames(s, gone), windows);
  }
}

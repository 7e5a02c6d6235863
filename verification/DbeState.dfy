/** The state the Double Buffer Extension shares with the rest of the server, as a value. */
module DbeState {
  import opened Options
  import opened Images
  import opened Resources

  type PixId = nat

  datatype Gravity =
    | ForgetGravity | NorthWestGravity | NorthGravity | NorthEastGravity | WestGravity | CenterGravity
    | EastGravity | SouthWestGravity | SouthGravity | SouthEastGravity | StaticGravity

  /** What the extension reads of a window: its geometry, its visual, the painter its background
      currently gives, and the pixels it shows. */
  datatype Window = Window(
    inputOutput: bool, visual: int, x: int, y: int, width: nat, height: nat,
    bitGravity: Gravity, painter: Option<Painter>, contents: Image)

  /** The private record of a double-buffered window. */
  datatype Record = Record(
    names: seq<XID>, front: PixId, back: PixId,
    width: nat, height: nat, x: int, y: int, action: int)

  /** privRes and drawRes are the two resource types every name is entered under. Pixmap
      identifiers are never reused; destroyed counts the destructions of each. */
  datatype State = State(
    windows: map<XID, Window>, recs: map<XID, Record>,
    privRes: map<XID, XID>, drawRes: map<XID, PixId>,
    pixmaps: map<PixId, Image>, nextPix: PixId, destroyed: multiset<PixId>)

  /** A new record for a window, before it has names and pixmaps. */
  function Blank(win: Window): Record {
    Record([], 0, 0, win.width, win.height, win.x, win.y, 0)
  }

  predicate Owns(r: Record, p: PixId) {
    p == r.front || p == r.back
  }

  predicate Distinct<T(==)>(s: seq<T>) {
    forall i, j :: 0 <= i < j < |s| ==> s[i] != s[j]
  }

  ghost predicate RecordNamed(s: State, w: XID)
    requires w in s.recs
  {
    && w in s.windows
    && s.recs[w].names != []
    && Distinct(s.recs[w].names)
    && forall id :: id in s.recs[w].names ==> id != 0 && id in s.privRes && s.privRes[id] == w
  }

  ghost predicate NameOwned(s: State, id: XID)
    requires id in s.privRes
  {
    s.privRes[id] in s.recs && id in s.recs[s.privRes[id]].names
  }

  ghost predicate NamesOk(s: State) {
    && (forall w {:trigger RecordNamed(s, w)} :: w in s.recs ==> RecordNamed(s, w))
    && (forall id {:trigger NameOwned(s, id)} :: id in s.privRes ==> NameOwned(s, id))
  }

  ghost predicate PairLive(s: State, w: XID)
    requires w in s.recs
  {
    var r := s.recs[w];
    r.front != r.back && r.front in s.pixmaps && r.back in s.pixmaps
  }

  ghost predicate Apart(s: State, v: XID, w: XID)
    requires v in s.recs && w in s.recs
  {
    !Owns(s.recs[v], s.recs[w].front) && !Owns(s.recs[v], s.recs[w].back)
  }

  ghost predicate Owned(s: State, p: PixId) {
    exists w :: w in s.recs && Owns(s.recs[w], p)
  }

  ghost predicate PairsLive(s: State) {
    forall w {:trigger PairLive(s, w)} :: w in s.recs ==> PairLive(s, w)
  }

  ghost predicate PairsApart(s: State) {
    forall v, w {:trigger Apart(s, v, w)} :: v in s.recs && w in s.recs && v != w ==> Apart(s, v, w)
  }

  ghost predicate NoOrphans(s: State) {
    forall p {:trigger Owned(s, p)} :: p in s.pixmaps ==> Owned(s, p)
  }

  ghost predicate DestroyedOnce(s: State) {
    && (forall p: PixId :: p in s.pixmaps ==> p < s.nextPix)
    && (forall p: PixId :: s.destroyed[p] == if p < s.nextPix && p !in s.pixmaps then 1 else 0)
  }

  ghost predicate PixmapsOk(s: State) {
    PairsLive(s) && PairsApart(s) && NoOrphans(s) && DestroyedOnce(s)
  }

  ghost predicate WindowSized(s: State, w: XID)
    requires w in s.windows
  {
    s.windows[w].contents.Keys == Area(s.windows[w].width, s.windows[w].height)
  }

  ghost predicate RecordSized(s: State, w: XID)
    requires w in s.recs
  {
    var r := s.recs[w];
    && w in s.windows && r.width == s.windows[w].width && r.height == s.windows[w].height
    && (r.front in s.pixmaps ==> s.pixmaps[r.front].Keys == Area(r.width, r.height))
    && (r.back in s.pixmaps ==> s.pixmaps[r.back].Keys == Area(r.width, r.height))
  }

  ghost predicate SizesOk(s: State) {
    && (forall w {:trigger WindowSized(s, w)} :: w in s.windows ==> WindowSized(s, w))
    && (forall w {:trigger RecordSized(s, w)} :: w in s.recs ==> RecordSized(s, w))
  }

  ghost predicate AliasesOk(s: State) {
    && s.drawRes.Keys == s.privRes.Keys
    && (forall id :: id in s.drawRes ==> s.privRes[id] in s.recs && s.drawRes[id] == s.recs[s.privRes[id]].back)
  }

  /** What holds even while the resources of a name are being freed one by one. */
  ghost predicate Core(s: State) {
    NamesOk(s) && PixmapsOk(s)
  }

  /** What every request keeps. */
  ghost predicate Inv(s: State) {
    Core(s) && SizesOk(s) && AliasesOk(s)
  }

  // ---------------------------------------------------------------- freeing names

  function Without(names: seq<XID>, gone: set<XID>): seq<XID> {
    if names == [] then []
    else if names[0] in gone then Without(names[1..], gone)
    else [names[0]] + Without(names[1..], gone)
  }

  predicate AllIn(names: seq<XID>, gone: set<XID>) {
    forall id :: id in names ==> id in gone
  }

  ghost predicate Dead(s: State, gone: set<XID>, p: PixId) {
    exists w :: w in s.recs && AllIn(s.recs[w].names, gone) && Owns(s.recs[w], p)
  }

  ghost function DeadPixmaps(s: State, gone: set<XID>): set<PixId> {
    set p | p in s.pixmaps && Dead(s, gone, p)
  }

  /** Every name in gone loses its record entry; a record left without names dies with its pixmaps. */
  ghost function DropPrivs(s: State, gone: set<XID>): State {
    s.(recs := map w | w in s.recs && !AllIn(s.recs[w].names, gone) ::
                 s.recs[w].(names := Without(s.recs[w].names, gone)),
       privRes := s.privRes - gone,
       pixmaps := s.pixmaps - DeadPixmaps(s, gone),
       destroyed := s.destroyed + multiset(DeadPixmaps(s, gone)))
  }

  ghost function DropDrawables(s: State, gone: set<XID>): State {
    s.(drawRes := s.drawRes - gone)
  }

  ghost function DropNames(s: State, gone: set<XID>): State {
    DropDrawables(DropPrivs(s, gone), gone)
  }

  lemma {:induction false} WithoutMembers(names: seq<XID>, gone: set<XID>)
    ensures forall id :: id in Without(names, gone) <==> id in names && id !in gone
    ensures Distinct(names) ==> Distinct(Without(names, gone))
    ensures |Without(names, gone)| == 0 <==> AllIn(names, gone)
  {
    if names == [] {
    } else {
      WithoutMembers(names[1..], gone);
      assert names == [names[0]] + names[1..];
    }
  }

  lemma {:induction false} WithoutTwice(names: seq<XID>, a: set<XID>, b: set<XID>)
    ensures Without(Without(names, a), b) == Without(names, a + b)
  {
    if names != [] {
      WithoutTwice(names[1..], a, b);
    }
  }

  lemma {:induction false} WithoutNone(names: seq<XID>, a: set<XID>)
    requires forall id :: id in names ==> id !in a
    ensures Without(names, a) == names
  {
    if names != [] {
      WithoutNone(names[1..], a);
    }
  }

  lemma DropPrivsNames(s: State, gone: set<XID>)
    requires NamesOk(s)
    ensures NamesOk(DropPrivs(s, gone))
  {
    var t := DropPrivs(s, gone);
    forall w | w in t.recs ensures RecordNamed(t, w) {
      assert RecordNamed(s, w);
      WithoutMembers(s.recs[w].names, gone);
    }
    forall id | id in t.privRes ensures NameOwned(t, id) {
      assert NameOwned(s, id);
      WithoutMembers(s.recs[s.privRes[id]].names, gone);
    }
  }

  lemma SurvivorsKeepPixmaps(s: State, gone: set<XID>, w: XID)
    requires PairsApart(s) && w in s.recs && !AllIn(s.recs[w].names, gone)
    ensures s.recs[w].front !in DeadPixmaps(s, gone) && s.recs[w].back !in DeadPixmaps(s, gone)
  {
    forall p, v | Owns(s.recs[w], p) && v in s.recs && AllIn(s.recs[v].names, gone)
      ensures !Owns(s.recs[v], p)
    {
      assert v != w && Apart(s, v, w);
    }
    assert Owns(s.recs[w], s.recs[w].front) && Owns(s.recs[w], s.recs[w].back);
  }

  lemma DropPrivsLive(s: State, gone: set<XID>)
    requires PairsLive(s) && PairsApart(s)
    ensures PairsLive(DropPrivs(s, gone))
  {
    var t := DropPrivs(s, gone);
    forall w | w in t.recs ensures PairLive(t, w) {
      assert PairLive(s, w);
      SurvivorsKeepPixmaps(s, gone, w);
    }
  }

  lemma DropPrivsApart(s: State, gone: set<XID>)
    requires PairsApart(s)
    ensures PairsApart(DropPrivs(s, gone))
  {
    var t := DropPrivs(s, gone);
    forall v, w | v in t.recs && w in t.recs && v != w ensures Apart(t, v, w) {
      assert Apart(s, v, w);
      forall p ensures !(Owns(t.recs[v], p) && Owns(t.recs[w], p)) {
        assert !(Owns(s.recs[v], p) && Owns(s.recs[w], p));
      }
    }
  }

  lemma DropPrivsOrphans(s: State, gone: set<XID>)
    requires NoOrphans(s)
    ensures NoOrphans(DropPrivs(s, gone))
  {
    var t := DropPrivs(s, gone);
    forall p | p in t.pixmaps ensures Owned(t, p) {
      assert Owned(s, p);
      var w :| w in s.recs && Owns(s.recs[w], p);
      assert w in t.recs && Owns(t.recs[w], p);
    }
  }

  lemma DropPrivsDestroyed(s: State, gone: set<XID>)
    requires DestroyedOnce(s)
    ensures DestroyedOnce(DropPrivs(s, gone))
  {
  }

  lemma DropPrivsCore(s: State, gone: set<XID>)
    requires Core(s)
    ensures Core(DropPrivs(s, gone))
  {
    DropPrivsNames(s, gone);
    DropPrivsLive(s, gone);
    DropPrivsApart(s, gone);
    DropPrivsOrphans(s, gone);
    DropPrivsDestroyed(s, gone);
  }

  lemma DropNamesInv(s: State, gone: set<XID>)
    requires Inv(s)
    ensures Inv(DropNames(s, gone))
  {
    DropPrivsCore(s, gone);
    var t := DropNames(s, gone);
    assert NamesOk(t) by {
      var u := DropPrivs(s, gone);
      forall w | w in t.recs ensures RecordNamed(t, w) { assert RecordNamed(u, w); }
      forall id | id in t.privRes ensures NameOwned(t, id) { assert NameOwned(u, id); }
    }
    assert PixmapsOk(t) by { CoreIgnoresDrawables(DropPrivs(s, gone), gone); }
    forall w | w in t.windows ensures WindowSized(t, w) { assert WindowSized(s, w); }
    forall w | w in t.recs ensures RecordSized(t, w) { assert RecordSized(s, w); }
    forall id | id in t.drawRes
      ensures t.privRes[id] in t.recs && t.drawRes[id] == t.recs[t.privRes[id]].back
    {
      assert NameOwned(t, id);
    }
  }

  lemma CoreIgnoresDrawables(s: State, gone: set<XID>)
    requires Core(s)
    ensures Core(DropDrawables(s, gone))
  {
    var t := DropDrawables(s, gone);
    forall w | w in t.recs ensures RecordNamed(t, w) && PairLive(t, w) {
      assert RecordNamed(s, w) && PairLive(s, w);
    }
    forall id | id in t.privRes ensures NameOwned(t, id) { assert NameOwned(s, id); }
    forall v, w | v in t.recs && w in t.recs && v != w ensures Apart(t, v, w) { assert Apart(s, v, w); }
    forall p | p in t.pixmaps ensures Owned(t, p) {
      assert Owned(s, p);
    }
  }

  lemma DropPrivsTwiceRecs(s: State, a: set<XID>, b: set<XID>)
    ensures DropPrivs(DropPrivs(s, a), b).recs == DropPrivs(s, a + b).recs
  {
    forall w | w in s.recs
      ensures AllIn(s.recs[w].names, a + b) <==>
                AllIn(s.recs[w].names, a) || AllIn(Without(s.recs[w].names, a), b)
      ensures Without(Without(s.recs[w].names, a), b) == Without(s.recs[w].names, a + b)
    {
      WithoutMembers(s.recs[w].names, a);
      WithoutTwice(s.recs[w].names, a, b);
    }
  }

  lemma DropPrivsTwiceDead(s: State, a: set<XID>, b: set<XID>)
    ensures DeadPixmaps(s, a) + DeadPixmaps(DropPrivs(s, a), b) == DeadPixmaps(s, a + b)
    ensures DeadPixmaps(s, a) !! DeadPixmaps(DropPrivs(s, a), b)
  {
    var t := DropPrivs(s, a);
    forall p | p in s.pixmaps
      ensures p in DeadPixmaps(s, a) || p in DeadPixmaps(t, b) <==> p in DeadPixmaps(s, a + b)
    {
      if Dead(s, a + b, p) && !Dead(s, a, p) {
        var w :| w in s.recs && AllIn(s.recs[w].names, a + b) && Owns(s.recs[w], p);
        WithoutMembers(s.recs[w].names, a);
        assert w in t.recs && AllIn(t.recs[w].names, b) && Owns(t.recs[w], p);
      }
      if Dead(t, b, p) {
        var w :| w in t.recs && AllIn(t.recs[w].names, b) && Owns(t.recs[w], p);
        WithoutMembers(s.recs[w].names, a);
        assert AllIn(s.recs[w].names, a + b) && Owns(s.recs[w], p);
      }
      if Dead(s, a, p) {
        var w :| w in s.recs && AllIn(s.recs[w].names, a) && Owns(s.recs[w], p);
        assert AllIn(s.recs[w].names, a + b);
      }
    }
  }

  lemma RemovedTwice(pix: map<PixId, Image>, destroyed: multiset<PixId>, a: set<PixId>, b: set<PixId>)
    requires a !! b
    ensures pix - a - b == pix - (a + b)
    ensures destroyed + multiset(a) + multiset(b) == destroyed + multiset(a + b)
  {
  }

  lemma DropPrivsTwice(s: State, a: set<XID>, b: set<XID>)
    ensures DropPrivs(DropPrivs(s, a), b) == DropPrivs(s, a + b)
  {
    DropPrivsTwiceRecs(s, a, b);
    DropPrivsTwiceDead(s, a, b);
    var t := DropPrivs(s, a);
    RemovedTwice(s.pixmaps, s.destroyed, DeadPixmaps(s, a), DeadPixmaps(t, b));
    assert s.privRes - a - b == s.privRes - (a + b);
    assert DropPrivs(t, b).pixmaps == s.pixmaps - DeadPixmaps(s, a) - DeadPixmaps(t, b);
  }

  /** Freeing names in two batches, in whatever order the delete functions run, frees their union. */
  lemma DropNamesTwice(s: State, a: set<XID>, b: set<XID>)
    ensures DropNames(DropNames(s, a), b) == DropNames(s, a + b)
  {
    DropPrivsTwice(s, a, b);
    var l, r := DropNames(DropNames(s, a), b), DropNames(s, a + b);
    assert l.drawRes == r.drawRes;
    DropPrivsIgnoresDrawables(DropPrivs(s, a), a, b);
  }

  lemma DropPrivsIgnoresDrawables(s: State, a: set<XID>, b: set<XID>)
    ensures DropPrivs(DropDrawables(s, a), b) == DropDrawables(DropPrivs(s, b), a)
  {
    var t := DropDrawables(s, a);
    forall p ensures Dead(t, b, p) == Dead(s, b, p) {}
    assert DeadPixmaps(t, b) == DeadPixmaps(s, b);
    assert DropPrivs(t, b).recs == DropPrivs(s, b).recs;
  }
}

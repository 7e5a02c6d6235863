/** What each request does to the whole server, in the words of the protocol: its answer, the window it is about, and
    everything else. */
module DbeMeaning {
  import opened Options
  import opened Images
  import opened Resources
  import opened DbeState
  import opened DbeRequests
  import opened DbeInvariant
  import opened DbeSwap
  import opened DbeFrames
  import opened DbeRuns

  // ---------------------------------------------------------------- swapping

  /** Nothing is wrong with entry i of a swap request: its window is double-buffered, no later entry names it too, and
      its action is one of the four. */
  predicate Swaps(s: State, list: seq<SwapInfo>, i: nat)
    requires i < |list|
  {
    && list[i].window in s.windows && list[i].window in s.recs
    && (forall j :: i < j < |list| ==> list[j].window != list[i].window)
    && list[i].action in {XDBE_UNDEFINED, XDBE_BACKGROUND, XDBE_UNTOUCHED, XDBE_COPIED}
  }

  lemma EntrySwaps(s: State, list: seq<SwapInfo>, i: nat)
    requires i < |list|
    ensures EntryError(s, list, i) == Success <==> Swaps(s, list, i)
  {
  }

  lemma {:induction false} NoError(s: State, list: seq<SwapInfo>, from: nat)
    requires from <= |list|
    ensures FirstError(s, list, from) == Success <==> forall i :: from <= i < |list| ==> Swaps(s, list, i)
    decreases |list| - from
  {
    if from < |list| {
      NoError(s, list, from + 1);
      EntrySwaps(s, list, from);
    }
  }

  lemma {:induction false} EarliestError(s: State, list: seq<SwapInfo>, from: nat, i: nat)
    requires from <= i < |list| && !Swaps(s, list, i) && forall k :: from <= k < i ==> Swaps(s, list, k)
    ensures FirstError(s, list, from) == EntryError(s, list, i)
    decreases i - from
  {
    EntrySwaps(s, list, from);
    if from < i {
      EarliestError(s, list, from + 1, i);
    }
  }

  /** A swap is granted exactly when every window exists and is double-buffered, none is listed twice, and every action
      is one of the four. */
  lemma SwapGranted(s: State, list: seq<SwapInfo>)
    ensures SwapRequested(s, list).1 == Success <==>
            && (forall i :: 0 <= i < |list| ==> list[i].window in s.windows && list[i].window in s.recs)
            && (forall i, j :: 0 <= i < j < |list| ==> list[i].window != list[j].window)
            && (forall i :: 0 <= i < |list| ==>
                  list[i].action in {XDBE_UNDEFINED, XDBE_BACKGROUND, XDBE_UNTOUCHED, XDBE_COPIED})
  {
    NoError(s, list, 0);
    if forall i :: 0 <= i < |list| ==> Swaps(s, list, i) {
      forall i | 0 <= i < |list|
        ensures list[i].window in s.windows && list[i].window in s.recs
        ensures forall j :: i < j < |list| ==> list[i].window != list[j].window
        ensures list[i].action in {XDBE_UNDEFINED, XDBE_BACKGROUND, XDBE_UNTOUCHED, XDBE_COPIED}
      {
        assert Swaps(s, list, i);
      }
    } else {
      var i :| 0 <= i < |list| && !Swaps(s, list, i);
      assert list[i] in list;
    }
  }

  /** A refused swap changes nothing and tells what is wrong with its earliest bad entry: no such window, no buffers of
      its own or the window once more further on, or no such action. */
  lemma SwapRefused(s: State, list: seq<SwapInfo>, i: nat)
    requires i < |list| && !Swaps(s, list, i) && forall k :: 0 <= k < i ==> Swaps(s, list, k)
    ensures var (t, status) := SwapRequested(s, list);
            var w := list[i].window;
            && t == s && status in {BadWindow, BadMatch, BadValue}
            && (status == BadWindow <==> w !in s.windows)
            && (status == BadMatch <==>
                  w in s.windows && (w !in s.recs || exists j :: i < j < |list| && list[j].window == w))
  {
    EarliestError(s, list, 0, i);
    EntrySwaps(s, list, i);
  }

  /** What a swap makes of a window that was seen as was and is now seen as now. */
  ghost predicate Exchange(win: Window, action: int, was: View, now: View) {
    && now.shown == was.back
    && now.back ==
       (if action == XDBE_UNTOUCHED then was.shown
        else if action == XDBE_BACKGROUND && win.painter.Some? then Filled(win.painter.value, win.width, win.height)
        else was.back)
    && now.front == (if action == XDBE_UNTOUCHED then was.back else was.front)
    && now.record ==
       (if action == XDBE_UNTOUCHED then was.record.(front := was.record.back, back := was.record.front)
        else was.record)
    && now.aliases.Keys == was.aliases.Keys && (forall id :: id in now.aliases ==> now.aliases[id] == now.record.back)
    && (forall id :: id in now.record.names ==> id in now.aliases)
  }

  /** Nothing about a window but what it shows is another. */
  ghost predicate OnlyShown(win: Window, now: Window) {
    now == win.(contents := now.contents)
  }

  lemma SwappedOne(s: State, w: XID, action: int)
    requires Inv(s) && w in s.recs && ValidAction(action)
    ensures CanSwap(s, w) && CanSwap(Swapped(s, w, action), w)
    ensures Exchange(s.windows[w], action, ViewOf(s, w), ViewOf(Swapped(s, w, action), w))
  {
    SwapMeaning(s, w, action);
    assert RecordNamed(s, w);
    var was, now := ViewOf(s, w), ViewOf(Swapped(s, w, action), w);
    assert now.aliases.Keys == was.aliases.Keys;
  }

  lemma {:induction false} ListWindows(s: State, list: seq<SwapInfo>)
    ensures var t := SwappedInOrder(s, list);
            && t.windows.Keys == s.windows.Keys && t.recs.Keys == s.recs.Keys && t.privRes == s.privRes
            && t.destroyed == s.destroyed && t.nextPix == s.nextPix && t.drawRes.Keys == s.drawRes.Keys
            && (forall v :: v in s.windows ==> OnlyShown(s.windows[v], t.windows[v]))
            && (forall v :: v in s.windows && (forall x :: x in list ==> x.window != v) ==>
                  t.windows[v] == s.windows[v])
    decreases |list|
  {
    if list != [] {
      ListWindows(Swapped(s, list[0].window, list[0].action), list[1..]);
    }
  }

  /** A granted swap: each listed window shows what its back buffer held, which then holds what its action says; every
      other window, its buffers and its names stay as they are, and no window, record or name comes or goes. */
  lemma SwapDone(s: State, list: seq<SwapInfo>)
    requires Inv(s) && SwapRequested(s, list).1 == Success
    ensures var t := SwapRequested(s, list).0;
            && t.windows.Keys == s.windows.Keys && t.recs.Keys == s.recs.Keys && t.privRes == s.privRes
            && t.destroyed == s.destroyed && t.nextPix == s.nextPix && t.drawRes.Keys == s.drawRes.Keys
            && (forall v :: v in s.windows ==> OnlyShown(s.windows[v], t.windows[v]))
            && (forall v :: v in s.windows && (forall x :: x in list ==> x.window != v) ==>
                  t.windows[v] == s.windows[v])
    ensures forall i :: 0 <= i < |list| ==>
              var w, t := list[i].window, SwapRequested(s, list).0;
              && CanSwap(s, w) && CanSwap(t, w)
              && Exchange(s.windows[w], list[i].action, ViewOf(s, w), ViewOf(t, w))
    ensures forall v :: v in s.recs && (forall x :: x in list ==> x.window != v) ==>
              var t := SwapRequested(s, list).0; CanSwap(s, v) && CanSwap(t, v) && ViewOf(t, v) == ViewOf(s, v)
  {
    ListWindows(s, list);
    CheckedList(s, list, 0);
    forall i | 0 <= i < |list|
      ensures var w, t := list[i].window, SwapRequested(s, list).0;
              && CanSwap(s, w) && CanSwap(t, w)
              && Exchange(s.windows[w], list[i].action, ViewOf(s, w), ViewOf(t, w))
    {
      SwappedOne(s, list[i].window, list[i].action);
      ListedSwappedOnce(s, list, i);
    }
    forall v | v in s.recs && (forall x :: x in list ==> x.window != v)
      ensures CanSwap(s, v) && CanSwap(SwapRequested(s, list).0, v)
      ensures ViewOf(SwapRequested(s, list).0, v) == ViewOf(s, v)
    {
      assert RecordNamed(s, v) && PairLive(s, v);
      UnlistedKept(s, list, v);
    }
  }

  // ---------------------------------------------------------------- giving a name up

  /** The names but one, in their order. */
  ghost predicate OneFewer(names: seq<XID>, fewer: seq<XID>, id: XID) {
    exists i :: 0 <= i < |names| && names[i] == id && fewer == names[..i] + names[i + 1..]
  }

  lemma {:induction false} WithoutAt(names: seq<XID>, i: nat)
    requires Distinct(names) && i < |names|
    ensures Without(names, {names[i]}) == names[..i] + names[i + 1..]
  {
    if i == 0 {
      WithoutNone(names[1..], {names[0]});
    } else {
      WithoutAt(names[1..], i - 1);
      assert names[1..][..i - 1] == names[1..i] && names[..i] == [names[0]] + names[1..i];
    }
  }

  lemma WithoutOne(names: seq<XID>, id: XID)
    requires Distinct(names) && id in names
    ensures OneFewer(names, Without(names, {id}), id)
  {
    var i :| 0 <= i < |names| && names[i] == id;
    WithoutAt(names, i);
  }

  lemma LastName(names: seq<XID>, id: XID)
    requires Distinct(names) && id in names
    ensures AllIn(names, {id}) <==> names == [id]
  {
    if names != [id] {
      assert |names| > 1 && names[0] != names[1];
      assert names[0] in names && names[1] in names;
    }
  }

  /** The record of w, two pixmaps included, is gone and all other records are the same. */
  ghost predicate RecordLost(s: State, t: State, w: XID)
    requires w in s.recs
  {
    var r := s.recs[w];
    && t.recs == s.recs - {w} && t.pixmaps == s.pixmaps - {r.front, r.back}
    && t.destroyed == s.destroyed + multiset{r.front, r.back}
  }

  /** The names of some set are gone from both tables. */
  ghost predicate NamesLost(s: State, t: State, gone: set<XID>) {
    t.privRes == s.privRes - gone && t.drawRes == s.drawRes - gone
  }

  lemma OnlyDead(s: State, w: XID, gone: set<XID>)
    requires Core(s) && w in s.recs && AllIn(s.recs[w].names, gone)
    requires forall v :: v in s.recs && v != w ==> !AllIn(s.recs[v].names, gone)
    ensures DeadPixmaps(s, gone) == {s.recs[w].front, s.recs[w].back}
  {
    assert PairLive(s, w);
    assert Owns(s.recs[w], s.recs[w].front) && Owns(s.recs[w], s.recs[w].back);
    forall p | p in DeadPixmaps(s, gone) ensures Owns(s.recs[w], p) {
      var v :| v in s.recs && AllIn(s.recs[v].names, gone) && Owns(s.recs[v], p);
    }
  }

  lemma NoneDead(s: State, gone: set<XID>)
    requires forall v :: v in s.recs ==> !AllIn(s.recs[v].names, gone)
    ensures DeadPixmaps(s, gone) == {}
  {
    forall p ensures !Dead(s, gone, p) {
    }
  }

  /** Of the records only that of w loses names. */
  lemma OthersKeep(s: State, w: XID, gone: set<XID>)
    requires NamesOk(s) && w in s.recs && forall id :: id in gone ==> id in s.recs[w].names
    ensures forall v :: v in s.recs && v != w ==>
              !AllIn(s.recs[v].names, gone) && Without(s.recs[v].names, gone) == s.recs[v].names
  {
    forall v | v in s.recs && v != w
      ensures !AllIn(s.recs[v].names, gone) && Without(s.recs[v].names, gone) == s.recs[v].names
    {
      NamesApart(s, v, w);
      assert RecordNamed(s, v) && s.recs[v].names[0] in s.recs[v].names;
      WithoutNone(s.recs[v].names, gone);
    }
  }

  /** Freeing all names of one window and no others. */
  lemma AllOfOneDropped(s: State, w: XID, gone: set<XID>)
    requires Core(s) && w in s.recs && AllIn(s.recs[w].names, gone)
    requires forall id :: id in gone ==> id in s.recs[w].names
    ensures var t := DropNames(s, gone);
            t.windows == s.windows && t.nextPix == s.nextPix && NamesLost(s, t, gone) && RecordLost(s, t, w)
  {
    OthersKeep(s, w, gone);
    OnlyDead(s, w, gone);
    assert PairLive(s, w);
    var f, b := s.recs[w].front, s.recs[w].back;
    assert multiset({f, b}) == multiset{f, b};
    assert DropNames(s, gone).recs == s.recs - {w};
  }

  /** Freeing some names of one window and no others. */
  lemma SomeOfOneDropped(s: State, w: XID, gone: set<XID>)
    requires Core(s) && w in s.recs && !AllIn(s.recs[w].names, gone)
    requires forall id :: id in gone ==> id in s.recs[w].names
    ensures var t, r := DropNames(s, gone), s.recs[w];
            && t.windows == s.windows && t.nextPix == s.nextPix && NamesLost(s, t, gone)
            && t.recs == s.recs[w := r.(names := Without(r.names, gone))]
            && t.pixmaps == s.pixmaps && t.destroyed == s.destroyed
  {
    OthersKeep(s, w, gone);
    NoneDead(s, gone);
    assert s.pixmaps - {} == s.pixmaps && s.destroyed + multiset({}) == s.destroyed;
    assert DropNames(s, gone).recs == s.recs[w := s.recs[w].(names := Without(s.recs[w].names, gone))];
  }

  /** Giving a name up takes that name, from both tables and from its record, and no other. The record goes, and its two
      pixmaps are destroyed, exactly when it was the last; else all pixels stay. Every window stays. A name nobody has
      is refused. */
  lemma DeallocatedMeaning(s: State, id: XID)
    requires Inv(s)
    ensures id !in s.privRes ==> Deallocated(s, id) == (s, DbeBadBuffer)
    ensures id in s.privRes ==>
              var (t, status) := Deallocated(s, id);
              var w := s.privRes[id];
              && status == Success && t.windows == s.windows && t.nextPix == s.nextPix && NamesLost(s, t, {id})
              && w in s.recs && id in s.recs[w].names
              && (s.recs[w].names == [id] ==> RecordLost(s, t, w))
              && (s.recs[w].names != [id] ==>
                    && w in t.recs && t.recs == s.recs[w := t.recs[w]]
                    && t.recs[w] == s.recs[w].(names := t.recs[w].names)
                    && OneFewer(s.recs[w].names, t.recs[w].names, id)
                    && t.pixmaps == s.pixmaps && t.destroyed == s.destroyed)
  {
    if id in s.privRes {
      assert NameOwned(s, id);
      var w := s.privRes[id];
      assert RecordNamed(s, w);
      LastName(s.recs[w].names, id);
      WithoutOne(s.recs[w].names, id);
      if s.recs[w].names == [id] {
        AllOfOneDropped(s, w, {id});
      } else {
        SomeOfOneDropped(s, w, {id});
      }
    }
  }

  // ---------------------------------------------------------------- allocating a name

  /** The identifier is the client's and nothing has it yet. */
  predicate FreeId(s: State, inUse: set<XID>, client: Client, id: XID) {
    ClientOf(id) == client && id !in inUse && id !in s.windows && id !in s.privRes && id !in s.drawRes
  }

  /** What an allocation is answered: a window there is, that takes input and output; one of the four actions; a free
      identifier; a visual of some depth; and, for the first name of the window, two pixmaps. */
  lemma AllocationAnswer(
    s: State, client: Client, w: XID, id: XID, action: int, depths: seq<Depth>, inUse: set<XID>,
    front: Option<Raw>, back: Option<Raw>)
    ensures var status := Allocated(s, client, w, id, action, depths, inUse, front, back).1;
            var known := action in {XDBE_UNDEFINED, XDBE_BACKGROUND, XDBE_UNTOUCHED, XDBE_COPIED};
            var visible := w in s.windows && exists d :: d in depths && s.windows[w].visual in d.vids;
            && (status == BadWindow <==> w !in s.windows)
            && (status == BadValue <==> w in s.windows && s.windows[w].inputOutput && !known)
            && (status == BadIDChoice <==>
                  w in s.windows && s.windows[w].inputOutput && known && !FreeId(s, inUse, client, id))
            && (status == BadMatch <==>
                  w in s.windows &&
                  (!s.windows[w].inputOutput || (known && FreeId(s, inUse, client, id) && !visible)))
            && (status in {Success, BadAlloc} <==>
                  && w in s.windows && s.windows[w].inputOutput && known && FreeId(s, inUse, client, id) && visible)
            && (status == BadAlloc ==> w !in s.recs && (front.None? || back.None?))
            && (status == Success ==> w in s.recs || (front.Some? && back.Some?))
  {
  }

  /** A refusal changes nothing, but for the number of a pixmap that was made and destroyed again. */
  lemma AllocationRefused(
    s: State, client: Client, w: XID, id: XID, action: int, depths: seq<Depth>, inUse: set<XID>,
    front: Option<Raw>, back: Option<Raw>)
    ensures var (t, status) := Allocated(s, client, w, id, action, depths, inUse, front, back);
            status != Success ==>
              t == if status == BadAlloc && front.Some?
                     then s.(nextPix := s.nextPix + 1, destroyed := s.destroyed + multiset{s.nextPix}) else s
  {
  }

  /** Two pixmaps that were never before: the first as memory happened to be, the second cleared to the background. */
  ghost predicate Created(s: State, t: State, r: Record, win: Window, front: Raw, back: Raw) {
    && r.front != r.back && {r.front, r.back} !! s.pixmaps.Keys && s.destroyed[r.front] == s.destroyed[r.back] == 0
    && t.pixmaps.Keys == s.pixmaps.Keys + {r.front, r.back}
    && (forall p :: p in s.pixmaps ==> t.pixmaps[p] == s.pixmaps[p])
    && t.pixmaps[r.front].Keys == t.pixmaps[r.back].Keys == Area(win.width, win.height)
    && (forall p :: Inside(p, win.width, win.height) ==>
          && t.pixmaps[r.front][p] == front(p)
          && t.pixmaps[r.back][p] == if win.painter.Some? then PaintAt(win.painter.value, p) else back(p))
  }

  /** A granted name is entered for its window in both tables and comes last among its names. A first name brings the
      record, which remembers the place and size of the window, and two new pixmaps; a further one changes no pixmap. */
  lemma AllocationDone(
    s: State, client: Client, w: XID, id: XID, action: int, depths: seq<Depth>, inUse: set<XID>,
    front: Option<Raw>, back: Option<Raw>)
    requires Inv(s) && Allocated(s, client, w, id, action, depths, inUse, front, back).1 == Success
    ensures var t := Allocated(s, client, w, id, action, depths, inUse, front, back).0;
            && w in s.windows && w in t.recs && t.windows == s.windows && t.destroyed == s.destroyed
            && t.recs == s.recs[w := t.recs[w]]
            && t.privRes == s.privRes[id := w] && t.drawRes == s.drawRes[id := t.recs[w].back]
            && (w in s.recs ==>
                  && t.recs[w] == s.recs[w].(names := s.recs[w].names + [id], action := action)
                  && t.pixmaps == s.pixmaps && t.nextPix == s.nextPix)
            && (w !in s.recs ==>
                  var r, win := t.recs[w], s.windows[w];
                  && r == Record([id], r.front, r.back, win.width, win.height, win.x, win.y, action)
                  && front.Some? && back.Some? && Created(s, t, r, win, front.value, back.value))
  {
    var t := Allocated(s, client, w, id, action, depths, inUse, front, back).0;
    if w !in s.recs {
      BufferCreated(s, w, id, action, front.value, back.value);
    }
  }

  lemma BufferCreated(s: State, w: XID, id: XID, action: int, front: Raw, back: Raw)
    requires DestroyedOnce(s) && w in s.windows && w !in s.recs
    ensures var t := FirstName(s, w, id, action, front, back); Created(s, t, t.recs[w], s.windows[w], front, back)
  {
    var t, win := FirstName(s, w, id, action, front, back), s.windows[w];
    assert t.pixmaps[s.nextPix].Keys == Area(win.width, win.height) == t.pixmaps[s.nextPix + 1].Keys;
    forall p | Inside(p, win.width, win.height)
      ensures t.pixmaps[s.nextPix][p] == front(p)
      ensures t.pixmaps[s.nextPix + 1][p] == if win.painter.Some? then PaintAt(win.painter.value, p) else back(p)
    {
      assert p in Area(win.width, win.height);
    }
  }

  // ---------------------------------------------------------------- resizing

  const WEST := {NorthWestGravity, WestGravity, SouthWestGravity}
  const EAST := {NorthEastGravity, EastGravity, SouthEastGravity}
  const NORTH := {NorthWestGravity, NorthGravity, NorthEastGravity}
  const SOUTH := {SouthWestGravity, SouthGravity, SouthEastGravity}
  const MIDDLE_COLUMN := {NorthGravity, CenterGravity, SouthGravity}
  const MIDDLE_ROW := {WestGravity, CenterGravity, EastGravity}

  /** h is half of n, rounded towards zero. */
  predicate IsHalf(n: int, h: int) {
    if n >= 0 then 0 <= n - 2 * h <= 1 else -1 <= n - 2 * h <= 0
  }

  /** Along one axis, whether the bit at i of a window of one size is at k when the window has another: kept at its
      distance to the near edge, to the far edge, moved by half the growth, or kept in place while the window moves from
      one place to another. */
  predicate Goes(near: bool, far: bool, middle: bool, from: int, to: int, was: int, now: int, i: int, k: int) {
    if near then k == i
    else if far then to - k == from - i
    else if middle then IsHalf(to - from, k - i)
    else now + k == was + i
  }

  /** Whether the pixel p of the old buffer lands at q of the new one. */
  predicate Lands(r: Record, win: Window, p: Point, q: Point) {
    var g := win.bitGravity;
    && g != ForgetGravity && Inside(p, r.width, r.height)
    && Goes(g in WEST, g in EAST, g in MIDDLE_COLUMN, r.width, win.width, r.x, win.x, p.0, q.0)
    && Goes(g in NORTH, g in SOUTH, g in MIDDLE_ROW, r.height, win.height, r.y, win.y, p.1, q.1)
  }

  lemma LandsDisplaced(r: Record, win: Window, p: Point, q: Point)
    ensures var (dx, dy) := Displacement(r, win);
            Lands(r, win, p, q) <==>
            win.bitGravity != ForgetGravity && Inside(p, r.width, r.height) && q == (p.0 + dx, p.1 + dy)
  {
  }

  /** Every pixel of a new buffer is the one of the old buffer that lands there; where none does it is the background,
      if the window grew or its bits are forgotten and there is one, else what the memory held. */
  ghost predicate BitsKept(r: Record, win: Window, was: Image, raw: Raw, now: Image) {
    && was.Keys == Area(r.width, r.height) && now.Keys == Area(win.width, win.height)
    && (forall p, q {:trigger Lands(r, win, p, q)} :: Lands(r, win, p, q) && q in now ==> now[q] == was[p])
    && (forall q :: q in now && (forall p :: !Lands(r, win, p, q)) ==>
          now[q] == if (win.width > r.width || win.height > r.height || win.bitGravity == ForgetGravity)
                       && win.painter.Some? then PaintAt(win.painter.value, q) else raw(q))
  }

  lemma DrawnKept(r: Record, win: Window, was: Image, raw: Raw, now: Image)
    requires BufferDrawn(r, win, was, raw, now)
    ensures BitsKept(r, win, was, raw, now)
  {
    var (dx, dy) := Displacement(r, win);
    forall p, q | Lands(r, win, p, q) && q in now ensures now[q] == was[p] {
      LandsDisplaced(r, win, p, q);
      assert p == (q.0 - dx, q.1 - dy);
    }
    forall q | q in now && forall p :: !Lands(r, win, p, q)
      ensures now[q] == if (win.width > r.width || win.height > r.height || win.bitGravity == ForgetGravity)
                           && win.painter.Some? then PaintAt(win.painter.value, q) else raw(q)
    {
      LandsDisplaced(r, win, (q.0 - dx, q.1 - dy), q);
    }
  }

  /** The window w has a new place and size, and pixels for it; the others are what they were. */
  ghost predicate Configured(s: State, t: State, w: XID, x: int, y: int, width: nat, height: nat)
    requires w in s.windows
  {
    && w in t.windows && t.windows == s.windows[w := t.windows[w]]
    && t.windows[w] ==
       s.windows[w].(x := x, y := y, width := width, height := height, contents := t.windows[w].contents)
    && t.windows[w].contents.Keys == Area(width, height)
  }

  /** A resize with granted pixmaps: both buffers of the window are new, of its new size, with every bit of the old ones
      where its gravity says; the names stay; the record remembers the new place and size; no other window or record
      changes. */
  lemma ResizeDone(s: State, w: XID, x: int, y: int, width: nat, height: nat, contents: Raw, front: Raw, back: Raw)
    requires Inv(s) && w in s.recs && !(width == s.recs[w].width && height == s.recs[w].height)
    ensures var t, r := Resized(s, w, x, y, width, height, contents, Some(front), Some(back)), s.recs[w];
            && CanSwap(s, w) && CanSwap(t, w) && Configured(s, t, w, x, y, width, height)
            && {t.recs[w].front, t.recs[w].back} !! s.pixmaps.Keys && t.privRes == s.privRes
            && t.recs == s.recs[w := r.(front := t.recs[w].front, back := t.recs[w].back, x := x, y := y,
                                        width := width, height := height)]
            && t.destroyed == s.destroyed + multiset{r.front, r.back}
            && BitsKept(r, t.windows[w], ViewOf(s, w).front, front, ViewOf(t, w).front)
            && BitsKept(r, t.windows[w], ViewOf(s, w).back, back, ViewOf(t, w).back)
  {
    ResizedMeaning(s, w, x, y, width, height, contents, front, back);
    assert RecordNamed(s, w);
    var t, r := Resized(s, w, x, y, width, height, contents, Some(front), Some(back)), s.recs[w];
    DrawnKept(r, t.windows[w], ViewOf(s, w).front, front, ViewOf(t, w).front);
    DrawnKept(r, t.windows[w], ViewOf(s, w).back, back, ViewOf(t, w).back);
  }

  /** The names of the window denote its new back buffer and all others what they did; its old pixmaps are gone and all
      others as they were. */
  lemma ResizeLeaves(s: State, w: XID, x: int, y: int, width: nat, height: nat, contents: Raw, front: Raw, back: Raw)
    requires Inv(s) && w in s.recs && !(width == s.recs[w].width && height == s.recs[w].height)
    ensures w in Resized(s, w, x, y, width, height, contents, Some(front), Some(back)).recs
    ensures var t, r := Resized(s, w, x, y, width, height, contents, Some(front), Some(back)), s.recs[w];
            && t.drawRes.Keys == s.drawRes.Keys
            && (forall id :: id in r.names ==> id in t.drawRes && t.drawRes[id] == t.recs[w].back)
            && (forall id :: id in s.drawRes && id !in r.names ==> t.drawRes[id] == s.drawRes[id])
            && (forall p :: p in s.pixmaps && !Owns(r, p) ==> p in t.pixmaps && t.pixmaps[p] == s.pixmaps[p])
            && !Owns(t.recs[w], r.front) && !Owns(t.recs[w], r.back) && r.front !in t.pixmaps && r.back !in t.pixmaps
  {
    assert RecordNamed(s, w) && PairLive(s, w);
    var u := WindowConfigured(s, w, x, y, width, height, contents);
    assert Resized(s, w, x, y, width, height, contents, Some(front), Some(back)) ==
           BuffersFitted(u, w, u.windows[w], Some(front), Some(back));
  }

  /** A resize whose pixmaps are refused, one or both: all names of the window go, with its record and old pixmaps. */
  lemma ResizeRefused(s: State, w: XID, x: int, y: int, width: nat, height: nat, contents: Raw,
                      front: Option<Raw>, back: Option<Raw>)
    requires Inv(s) && w in s.recs && !(width == s.recs[w].width && height == s.recs[w].height)
    requires front.None? || back.None?
    ensures w in s.windows
    ensures var t, r := Resized(s, w, x, y, width, height, contents, front, back), s.recs[w];
            && Configured(s, t, w, x, y, width, height)
            && t.privRes == s.privRes - NameSet(r) && t.drawRes == s.drawRes - NameSet(r)
            && t.recs == s.recs - {w} && t.pixmaps == s.pixmaps - {r.front, r.back}
            && t.destroyed == s.destroyed + multiset{r.front, r.back} +
                              if front.Some? || back.Some? then multiset{s.nextPix} else multiset{}
  {
    assert RecordNamed(s, w) && PairLive(s, w);
    var u := WindowConfigured(s, w, x, y, width, height, contents);
    ConfiguredCore(s, w, x, y, width, height, contents);
    RefusedFitting(u, w, u.windows[w], front, back);
    assert Resized(s, w, x, y, width, height, contents, front, back) == BuffersFitted(u, w, u.windows[w], front, back);
  }

  lemma RefusedFitting(s: State, w: XID, win: Window, front: Option<Raw>, back: Option<Raw>)
    requires Core(s) && w in s.recs && (front.None? || back.None?)
    ensures var t, r := BuffersFitted(s, w, win, front, back), s.recs[w];
            && t.windows == s.windows && NamesLost(s, t, NameSet(r))
            && t.recs == s.recs - {w} && t.pixmaps == s.pixmaps - {r.front, r.back}
            && t.destroyed == s.destroyed + multiset{r.front, r.back} +
                              if front.Some? || back.Some? then multiset{s.nextPix} else multiset{}
  {
    PixmapWastedInv(s);
    AllOfOneDropped(if front.Some? || back.Some? then PixmapWasted(s) else s, w, NameSet(s.recs[w]));
  }

  /** A window without buffers, or one that only moves: nothing of the extension's changes. */
  lemma ResizeAlone(s: State, w: XID, x: int, y: int, width: nat, height: nat, contents: Raw,
                    front: Option<Raw>, back: Option<Raw>)
    requires Inv(s) && w in s.windows
    requires w in s.recs ==> width == s.recs[w].width && height == s.recs[w].height
    ensures var t := Resized(s, w, x, y, width, height, contents, front, back);
            Configured(s, t, w, x, y, width, height) && t == s.(windows := t.windows)
  {
  }

  // ---------------------------------------------------------------- teardown

  /** Destroying a window takes that window and, if it has them, its names, its record and its pixmaps; nothing else. */
  lemma DestroyedMeaning(s: State, w: XID)
    requires Inv(s)
    ensures var t := WindowDestroyed(s, w);
            && t.windows == s.windows - {w} && t.nextPix == s.nextPix
            && (w in s.recs ==> RecordLost(s, t, w) && NamesLost(s, t, NameSet(s.recs[w])))
            && (w !in s.recs ==> t == s.(windows := t.windows))
  {
    if w in s.recs {
      AllOfOneDropped(s, w, NameSet(s.recs[w]));
    } else {
      NothingFreed(s);
    }
  }

  lemma NothingFreed(s: State)
    requires NamesOk(s)
    ensures DropNames(s, {}) == s
  {
    NothingDropped(s);
    forall v | v in s.recs ensures !AllIn(s.recs[v].names, {}) {
      assert RecordNamed(s, v);
      assert s.recs[v].names[0] in s.recs[v].names;
    }
    NoneDead(s, {});
    assert s.pixmaps - {} == s.pixmaps && s.destroyed + multiset({}) == s.destroyed;
    assert s.privRes - {} == s.privRes && s.drawRes - {} == s.drawRes;
  }

  /** When a client dies exactly its windows and those below them go, and of the names, from both tables, exactly its
      own and those of these windows. */
  lemma ClientNamesGone(s: State, client: Client, subtree: set<XID>)
    requires Inv(s)
    ensures var t := ClientGone(s, client, subtree);
            && (forall v :: v in t.windows <==> v in s.windows && ClientOf(v) != client && v !in subtree)
            && (forall v :: v in t.windows ==> t.windows[v] == s.windows[v])
            && (forall id :: id in t.privRes <==>
                  id in s.privRes && ClientOf(id) != client && s.privRes[id] in t.windows)
            && t.drawRes.Keys == t.privRes.Keys
            && (forall id :: id in t.privRes ==> t.privRes[id] == s.privRes[id] && t.drawRes[id] == s.drawRes[id])
  {
    var t := ClientGone(s, client, subtree);
    forall id | id in s.privRes ensures s.privRes[id] in s.windows {
      assert NameOwned(s, id) && RecordNamed(s, s.privRes[id]);
    }
    assert t.drawRes.Keys == t.privRes.Keys;
  }

  /** What is left of a record is its names of other clients, in their order; and of the pixmaps stay, with their
      pixels, just those of the records that stay. */
  lemma ClientRecordsGone(s: State, client: Client, subtree: set<XID>)
    requires Inv(s)
    ensures var t := ClientGone(s, client, subtree);
            && (forall v :: v in t.recs <==>
                  v in s.recs && v in t.windows && exists id :: id in s.recs[v].names && ClientOf(id) != client)
            && (forall v :: v in t.recs ==>
                  t.recs[v] == s.recs[v].(names := OfOthers(s.recs[v].names, client)))
            && (forall p :: p in t.pixmaps <==> Owned(t, p))
            && (forall p :: p in t.pixmaps ==> p in s.pixmaps && t.pixmaps[p] == s.pixmaps[p])
            && t.destroyed == s.destroyed + multiset(s.pixmaps.Keys - t.pixmaps.Keys)
  {
    DeadClientGone(s, client, subtree);
    var t, gone := ClientGone(s, client, subtree), Doomed(s, client, subtree);
    forall v | v in t.recs ensures t.recs[v].names == OfOthers(s.recs[v].names, client) {
      WithoutMembers(s.recs[v].names, gone);
      OthersLeft(s.recs[v].names, gone, client);
    }
    ClientPixmapsOwned(s, client, subtree);
    assert s.pixmaps.Keys - t.pixmaps.Keys == DeadPixmaps(s, gone);
  }

  lemma ClientPixmapsOwned(s: State, client: Client, subtree: set<XID>)
    requires Inv(s)
    ensures var t := ClientGone(s, client, subtree); forall p :: p in t.pixmaps <==> Owned(t, p)
  {
    ClientGoneInv(s, client, subtree);
    var t := ClientGone(s, client, subtree);
    forall p | Owned(t, p) ensures p in t.pixmaps {
      var v :| v in t.recs && Owns(t.recs[v], p);
      assert PairLive(t, v);
    }
  }

  /** Those of some names that are not the client's, in their order. */
  function OfOthers(names: seq<XID>, client: Client): seq<XID> {
    if names == [] then []
    else (if ClientOf(names[0]) == client then [] else [names[0]]) + OfOthers(names[1..], client)
  }

  lemma {:induction false} OthersLeft(names: seq<XID>, gone: set<XID>, client: Client)
    requires forall id :: id in names ==> (id in gone <==> ClientOf(id) == client)
    ensures Without(names, gone) == OfOthers(names, client)
  {
    if names != [] {
      OthersLeft(names[1..], gone, client);
    }
  }
}

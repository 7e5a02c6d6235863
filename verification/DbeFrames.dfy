/** What an event leaves alone, a double-buffered window it does not concern, and what allocating and resizing give
    the one they are about. */
module DbeFrames {
  import opened Options
  import opened Images
  import opened Resources
  import opened DbeState
  import opened DbeRequests
  import opened DbeInvariant
  import opened DbeSwap
  import opened DbeResize
  import opened DbeRuns

  /** Whether an event names the window, or names or takes away one of its buffers. */
  ghost predicate Concerns(s: State, e: Event, v: XID)
    requires v in s.recs
  {
    match e
    case Allocate(_, w, _, _, _, _, _, _) => v == w
    case Deallocate(id) => id in s.recs[v].names
    case Swap(list) => exists x :: x in list && x.window == v
    case Resize(w, _, _, _, _, _, _, _) => v == w
    case DestroyWindow(w) => v == w
    case ClientDies(c, subtree) =>
      v in DoomedWindows(s, c, subtree) || exists id :: id in s.recs[v].names && ClientOf(id) == c
    case CreateWindow(_, _) => false
    case ChangeWindow(w, _, _, _) => v == w
    case DrawThrough(id, _) => id in s.recs[v].names
  }

  /** All that a view of v is made of is the same. */
  ghost predicate Untouched(s: State, t: State, v: XID)
    requires v in s.recs
  {
    var r := s.recs[v];
    && (v in s.windows ==> v in t.windows && t.windows[v] == s.windows[v])
    && v in t.recs && t.recs[v] == r
    && (forall p :: p == r.front || p == r.back ==> (p in s.pixmaps ==> p in t.pixmaps && t.pixmaps[p] == s.pixmaps[p]))
    && (forall id :: id in r.names ==> (id in s.drawRes <==> id in t.drawRes))
    && (forall id :: id in r.names && id in s.drawRes ==> t.drawRes[id] == s.drawRes[id])
  }

  lemma UntouchedView(s: State, t: State, v: XID)
    requires v in s.recs && CanSwap(s, v) && Untouched(s, t, v)
    ensures CanSwap(t, v) && ViewOf(t, v) == ViewOf(s, v)
  {
    assert ViewOf(t, v).aliases == ViewOf(s, v).aliases;
  }

  lemma AllocatedElsewhere(s: State, v: XID, w: XID, id: XID, action: int, front: Option<Raw>, back: Option<Raw>)
    requires Inv(s) && v in s.recs && v != w && w in s.windows && id !in s.privRes
    ensures Untouched(s, NameAllocated(s, w, id, action, front, back).0, v)
  {
    assert RecordNamed(s, v) && PairLive(s, v);
  }

  lemma DroppedElsewhere(s: State, v: XID, gone: set<XID>)
    requires Inv(s) && v in s.recs && forall id :: id in s.recs[v].names ==> id !in gone
    ensures Untouched(s, DropNames(s, gone), v)
  {
    assert RecordNamed(s, v) && s.recs[v].names[0] in s.recs[v].names;
    WithoutNone(s.recs[v].names, gone);
    SurvivorsKeepPixmaps(s, gone, v);
  }

  lemma NamesApart(s: State, v: XID, w: XID)
    requires NamesOk(s) && v in s.recs && w in s.recs && v != w
    ensures forall id :: id in s.recs[v].names ==> id !in s.recs[w].names
  {
    assert RecordNamed(s, v) && RecordNamed(s, w);
  }

  lemma FittedElsewhere(s: State, v: XID, w: XID, win: Window, front: Option<Raw>, back: Option<Raw>)
    requires Core(s) && CanSwap(s, w) && v in s.recs && v != w
    ensures Untouched(s, BuffersFitted(s, w, win, front, back), v)
  {
    if front.Some? && back.Some? {
      ReplacedElsewhere(s, v, w, win, front.value, back.value);
    } else {
      RefusedElsewhere(s, v, w, front.Some? || back.Some?);
    }
  }

  lemma ReplacedElsewhere(s: State, v: XID, w: XID, win: Window, front: Raw, back: Raw)
    requires Core(s) && CanSwap(s, w) && v in s.recs && v != w
    ensures var t := PairDrawn(s, s.recs[w], win, front, back);
            Untouched(s, BuffersReplaced(t, w, win, s.nextPix, s.nextPix + 1), v)
  {
    NamesApart(s, v, w);
    assert PairLive(s, v) && Apart(s, v, w) && Apart(s, w, v);
  }

  lemma RefusedElsewhere(s: State, v: XID, w: XID, wasted: bool)
    requires Core(s) && w in s.recs && v in s.recs && v != w
    ensures Untouched(s, DropNames(if wasted then PixmapWasted(s) else s, NameSet(s.recs[w])), v)
  {
    NamesApart(s, v, w);
    assert RecordNamed(s, v) && s.recs[v].names[0] in s.recs[v].names;
    WithoutNone(s.recs[v].names, NameSet(s.recs[w]));
    PixmapWastedInv(s);
    SurvivorsKeepPixmaps(if wasted then PixmapWasted(s) else s, NameSet(s.recs[w]), v);
  }

  lemma ResizedElsewhere(s: State, v: XID, w: XID, x: int, y: int, width: nat, height: nat, contents: Raw,
                         front: Option<Raw>, back: Option<Raw>)
    requires Inv(s) && v in s.recs && v != w
    ensures Untouched(s, Resized(s, w, x, y, width, height, contents, front, back), v)
  {
    if w in s.windows {
      var t := WindowConfigured(s, w, x, y, width, height, contents);
      ConfiguredCore(s, w, x, y, width, height, contents);
      if CanSwap(t, w) {
        FittedElsewhere(t, v, w, t.windows[w], front, back);
      }
    }
  }

  lemma DoomedElsewhere(s: State, v: XID, client: Client, subtree: set<XID>)
    requires Inv(s) && v in s.recs && !Concerns(s, ClientDies(client, subtree), v)
    ensures Untouched(s, ClientGone(s, client, subtree), v)
  {
    assert RecordNamed(s, v);
    DroppedElsewhere(s, v, Doomed(s, client, subtree));
  }

  lemma DestroyedElsewhere(s: State, v: XID, w: XID)
    requires Inv(s) && v in s.recs && v != w
    ensures Untouched(s, WindowDestroyed(s, w), v)
  {
    if w in s.recs { NamesApart(s, v, w); }
    DroppedElsewhere(s, v, NamesOf(s, w));
  }

  lemma DrawnElsewhere(s: State, v: XID, id: XID, contents: Raw)
    requires Inv(s) && v in s.recs && id !in s.recs[v].names
    ensures Untouched(s, DrawnThrough(s, id, contents), v)
  {
    if id in s.drawRes {
      var w := s.privRes[id];
      assert NameOwned(s, id) && Apart(s, v, w);
    }
  }

  lemma UntouchedStep(s: State, e: Event, v: XID)
    requires Inv(s) && v in s.recs && !Concerns(s, e, v) && !e.Swap?
    ensures Untouched(s, Step(s, e), v)
  {
    match e {
      case Allocate(c, w, id, action, depths, inUse, front, back) =>
        if AllocateError(s, c, w, id, action, depths, inUse) == Success {
          AllocatedElsewhere(s, v, w, id, action, front, back);
        }
      case Deallocate(id) => DroppedElsewhere(s, v, {id});
      case Resize(w, x, y, width, height, contents, front, back) =>
        ResizedElsewhere(s, v, w, x, y, width, height, contents, front, back);
      case DestroyWindow(w) => DestroyedElsewhere(s, v, w);
      case ClientDies(c, subtree) => DoomedElsewhere(s, v, c, subtree);
      case DrawThrough(id, contents) => DrawnElsewhere(s, v, id, contents);
      case _ =>
    }
  }

  /** An event leaves every double-buffered window it does not concern exactly as it was: its contents, both
      buffers, its record and what its names denote. */
  lemma Unconcerned(s: State, e: Event, v: XID)
    requires Inv(s) && v in s.recs && !Concerns(s, e, v)
    ensures CanSwap(s, v) && CanSwap(Step(s, e), v) && ViewOf(Step(s, e), v) == ViewOf(s, v)
  {
    assert RecordNamed(s, v) && PairLive(s, v);
    if e.Swap? {
      UnlistedKept(s, e.list, v);
    } else {
      UntouchedStep(s, e, v);
      UntouchedView(s, Step(s, e), v);
    }
  }

  ghost predicate NeverConcerns(s: State, events: seq<Event>, v: XID)
    decreases |events|
  {
    v in s.recs && (events != [] ==> !Concerns(s, events[0], v) && NeverConcerns(Step(s, events[0]), events[1..], v))
  }

  /** So does every run of such events. */
  lemma {:induction false} UnconcernedRun(s: State, events: seq<Event>, v: XID)
    requires Inv(s) && NeverConcerns(s, events, v)
    ensures CanSwap(s, v) && CanSwap(Run(s, events), v) && ViewOf(Run(s, events), v) == ViewOf(s, v)
    decreases |events|
  {
    if events == [] {
      assert RecordNamed(s, v) && PairLive(s, v);
    } else {
      StepInv(s, events[0]);
      Unconcerned(s, events[0], v);
      UnconcernedRun(Step(s, events[0]), events[1..], v);
    }
  }

  // ---------------------------------------------------------------- what an allocation gives

  /** A granted name comes last among the names of its window and denotes its back buffer. With the first name the
      buffer is new and shows the background where there is one; a further name changes no pixel. */
  lemma AllocatedMeaning(s: State, w: XID, id: XID, action: int, front: Option<Raw>, back: Option<Raw>)
    requires Inv(s) && w in s.windows && id !in s.privRes && id != 0
    requires NameAllocated(s, w, id, action, front, back).1 == Success
    ensures var t := NameAllocated(s, w, id, action, front, back).0;
            && CanSwap(t, w) && t.recs[w].action == action
            && t.recs[w].names == (if w in s.recs then s.recs[w].names else []) + [id]
            && id in t.drawRes && t.drawRes[id] == t.recs[w].back
            && t.windows == s.windows
            && (w in s.recs ==> CanSwap(s, w) && ViewOf(t, w).back == ViewOf(s, w).back)
            && (w !in s.recs ==> ViewOf(t, w).back == InitialImage(s.windows[w], back.value))
  {
    if w in s.recs {
      assert RecordNamed(s, w) && PairLive(s, w);
    }
  }

  /** A refused allocation changes no window, record, name or pixmap. */
  lemma RefusedMeaning(
    s: State, client: Client, w: XID, id: XID, action: int, depths: seq<Depth>, inUse: set<XID>,
    front: Option<Raw>, back: Option<Raw>)
    requires Allocated(s, client, w, id, action, depths, inUse, front, back).1 != Success
    ensures var t := Allocated(s, client, w, id, action, depths, inUse, front, back).0;
            t == s.(nextPix := t.nextPix, destroyed := t.destroyed)
  {
  }

  // ---------------------------------------------------------------- what a resize gives

  /** A resize with granted pixmaps gives the window two new buffers of its size, drawn pixel by pixel from the old
      ones, and keeps its names, its action and what the names denote: the back buffer. */
  lemma ResizedMeaning(s: State, w: XID, x: int, y: int, width: nat, height: nat, contents: Raw, front: Raw, back: Raw)
    requires Inv(s) && w in s.recs && !(width == s.recs[w].width && height == s.recs[w].height)
    ensures var t, r := Resized(s, w, x, y, width, height, contents, Some(front), Some(back)), s.recs[w];
            && CanSwap(s, w) && CanSwap(t, w) && {t.recs[w].front, t.recs[w].back} !! s.pixmaps.Keys
            && t.recs[w] == r.(front := t.recs[w].front, back := t.recs[w].back, width := width, height := height,
                               x := x, y := y)
            && (forall id :: id in r.names ==> id in t.drawRes && t.drawRes[id] == t.recs[w].back)
            && BufferDrawn(r, t.windows[w], ViewOf(s, w).front, front, ViewOf(t, w).front)
            && BufferDrawn(r, t.windows[w], ViewOf(s, w).back, back, ViewOf(t, w).back)
  {
    assert RecordNamed(s, w) && PairLive(s, w) && RecordSized(s, w);
    var u := WindowConfigured(s, w, x, y, width, height, contents);
    var t, r := Resized(s, w, x, y, width, height, contents, Some(front), Some(back)), s.recs[w];
    assert CanSwap(u, w) && t == BuffersFitted(u, w, u.windows[w], Some(front), Some(back));
    ImageDrawn(r, u.windows[w], s.pixmaps[r.front], front);
    ImageDrawn(r, u.windows[w], s.pixmaps[r.back], back);
  }

  ghost predicate BufferDrawn(r: Record, win: Window, was: Image, raw: Raw, now: Image) {
    var (dx, dy) := Displacement(r, win);
    && was.Keys == Area(r.width, r.height) && now.Keys == Area(win.width, win.height)
    && forall p :: p in now ==> now[p] == ResizedValue(r, win, was, raw, dx, dy, p)
  }

  lemma ImageDrawn(r: Record, win: Window, was: Image, raw: Raw)
    requires was.Keys == Area(r.width, r.height)
    ensures BufferDrawn(r, win, was, raw, ResizedImage(r, win, was, raw))
  {
    var (dx, dy) := Displacement(r, win);
    forall p | p in ResizedImage(r, win, was, raw)
      ensures ResizedImage(r, win, was, raw)[p] == ResizedValue(r, win, was, raw, dx, dy, p)
    {
      ResizedPixel(r, win, was, raw, dx, dy, p);
    }
  }
}

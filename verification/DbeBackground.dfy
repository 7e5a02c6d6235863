/** Back buffers and the window tree: where a buffer is cleared it shows the background of its window. */
module DbeBackground {
  import opened Options
  import opened Images
  import opened Resources
  import opened Background
  import opened DbeState
  import opened DbeRequests
  import opened DbeInvariant
  import opened DbeSwap
  import opened DbeResize
  import opened DbeFrames

  /** The painters of the windows are those the walk sets up in this tree. */
  ghost predicate Painted(s: State, tree: Tree, rank: XID -> nat) {
    Rooted(tree, rank) && forall w :: w in s.windows ==> w in tree && s.windows[w].painter == PainterOf(tree, rank, w)
  }

  /** The picture shows the background of the window, or what it did before where there is none. */
  ghost predicate ShowsBackground(tree: Tree, rank: XID -> nat, w: XID, img: Image, was: Image)
    requires Rooted(tree, rank) && w in tree
  {
    img.Keys == was.Keys &&
    forall p :: p in img ==>
      img[p] == if BackgroundAt(tree, rank, w, p).Some? then BackgroundAt(tree, rank, w, p).value else was[p]
  }

  lemma FilledShows(s: State, tree: Tree, rank: XID -> nat, w: XID, was: Image)
    requires Painted(s, tree, rank) && w in s.windows
    requires was.Keys == Area(s.windows[w].width, s.windows[w].height)
    ensures var win := s.windows[w];
            ShowsBackground(tree, rank, w,
              if win.painter.Some? then Filled(win.painter.value, win.width, win.height) else was, was)
  {
    var painter := s.windows[w].painter;
    forall p | p in was ensures painter.Some? <==> BackgroundAt(tree, rank, w, p).Some?
                        ensures painter.Some? ==> PaintAt(painter.value, p) == BackgroundAt(tree, rank, w, p).value
    {
      PainterPaints(tree, rank, w, p);
    }
  }

  /** After a Background swap the back buffer shows the background of its window. */
  lemma BackgroundSwap(s: State, tree: Tree, rank: XID -> nat, w: XID)
    requires Inv(s) && Painted(s, tree, rank) && w in s.recs
    ensures w in s.windows && w in tree && CanSwap(s, w) && CanSwap(Swapped(s, w, XDBE_BACKGROUND), w)
    ensures var t := Swapped(s, w, XDBE_BACKGROUND);
            ShowsBackground(tree, rank, w, ViewOf(t, w).back, ViewOf(s, w).back)
  {
    SwapMeaning(s, w, XDBE_BACKGROUND);
    assert RecordSized(s, w);
    FilledShows(s, tree, rank, w, s.pixmaps[s.recs[w].back]);
  }

  /** So does the back buffer that comes with a window's first name. */
  lemma BackgroundAllocated(
    s: State, tree: Tree, rank: XID -> nat, w: XID, id: XID, action: int, front: Option<Raw>, back: Option<Raw>)
    requires Inv(s) && Painted(s, tree, rank) && w in s.windows && w !in s.recs && id !in s.privRes && id != 0
    requires NameAllocated(s, w, id, action, front, back).1 == Success
    ensures var t, win := NameAllocated(s, w, id, action, front, back).0, s.windows[w];
            && w in tree && CanSwap(t, w)
            && ShowsBackground(tree, rank, w, ViewOf(t, w).back, Fresh(back.value, win.width, win.height))
  {
    AllocatedMeaning(s, w, id, action, front, back);
    FilledShows(s, tree, rank, w, Fresh(back.value, s.windows[w].width, s.windows[w].height));
  }

  /** And so do both buffers after a resize that grows the window or forgets its bits, wherever no old pixel lands. */
  lemma BackgroundResized(s: State, tree: Tree, rank: XID -> nat, w: XID, x: int, y: int, width: nat, height: nat,
                          contents: Raw, front: Raw, back: Raw, p: Point)
    requires Inv(s) && Painted(s, tree, rank) && w in s.recs && Inside(p, width, height)
    requires !(width == s.recs[w].width && height == s.recs[w].height)
    ensures var t, r := Resized(s, w, x, y, width, height, contents, Some(front), Some(back)), s.recs[w];
            && w in tree && CanSwap(t, w) && t.windows[w].bitGravity == s.windows[w].bitGravity
            && (ClearedAt(r, t.windows[w], p) && BackgroundAt(tree, rank, w, p).Some? ==>
                  && p in ViewOf(t, w).front && ViewOf(t, w).front[p] == BackgroundAt(tree, rank, w, p).value
                  && p in ViewOf(t, w).back && ViewOf(t, w).back[p] == BackgroundAt(tree, rank, w, p).value)
  {
    ResizedMeaning(s, w, x, y, width, height, contents, front, back);
    assert RecordNamed(s, w);
    PainterPaints(tree, rank, w, p);
    var t, r := Resized(s, w, x, y, width, height, contents, Some(front), Some(back)), s.recs[w];
    if ClearedAt(r, t.windows[w], p) && BackgroundAt(tree, rank, w, p).Some? {
      DrawnCleared(r, t.windows[w], ViewOf(s, w).front, front, ViewOf(t, w).front, p);
      DrawnCleared(r, t.windows[w], ViewOf(s, w).back, back, ViewOf(t, w).back, p);
    }
  }

  lemma DrawnCleared(r: Record, win: Window, was: Image, raw: Raw, now: Image, p: Point)
    requires BufferDrawn(r, win, was, raw, now) && Inside(p, win.width, win.height)
    requires ClearedAt(r, win, p) && win.painter.Some?
    ensures p in now && now[p] == PaintAt(win.painter.value, p)
  {
  }

  /** The window grew or forgets its bits, and no old pixel lands at p. */
  ghost predicate ClearedAt(r: Record, win: Window, p: Point) {
    var (dx, dy) := Displacement(r, win);
    && (r.width < win.width || r.height < win.height || win.bitGravity == ForgetGravity)
    && (win.bitGravity == ForgetGravity || !Inside((p.0 - dx, p.1 - dy), r.width, r.height))
  }
}

/** Resizing: the clipped copy, and which pixels of the new buffers are defined. */
module DbeResize {
  import opened Options
  import opened Images
  import opened Resources
  import opened DbeState
  import opened DbeRequests

  /** The rectangle miDbeWindowPosition hands to CopyArea. */
  datatype Clip = Clip(srcX: int, srcY: int, width: int, height: int, dstX: int, dstY: int)

  predicate Copies(c: Clip, p: Point) {
    Inside((p.0 - c.dstX, p.1 - c.dstY), c.width, c.height)
  }

  /** Exactly the points of the old rectangle moved by (destX, destY) that lie in the new one are copied,
      each from where it was; none when the two do not meet. */
  ghost predicate CopiesIntersection(
    c: Clip, width: nat, height: nat, oldWidth: nat, oldHeight: nat, destX: int, destY: int)
  {
    && (forall p: Point {:trigger Copies(c, p)} :: Copies(c, p) <==>
          Inside(p, width, height) && Inside((p.0 - destX, p.1 - destY), oldWidth, oldHeight))
    && (forall p: Point {:trigger Copies(c, p)} :: Copies(c, p) ==>
          c.dstX - c.srcX == destX && c.dstY - c.srcY == destY)
  }

  /** The clip code of miDbeWindowPosition, for any displacement. */
  method ClipToDestination(width: nat, height: nat, oldWidth: nat, oldHeight: nat, destX: int, destY: int)
    returns (c: Clip)
    ensures CopiesIntersection(c, width, height, oldWidth, oldHeight, destX, destY)
  {
    var destx, desty := destX, destY;
    var sourcex, sourcey := 0, 0;
    var savewidth, saveheight: int := oldWidth, oldHeight;
    if destx < 0 {
      savewidth := savewidth + destx;
      sourcex := sourcex - destx;
      destx := 0;
    }
    if destx + savewidth > width {
      savewidth := width - destx;
    }
    if desty < 0 {
      saveheight := saveheight + desty;
      sourcey := sourcey - desty;
      desty := 0;
    }
    if desty + saveheight > height {
      saveheight := height - desty;
    }
    c := Clip(sourcex, sourcey, savewidth, saveheight, destx, desty);
  }

  lemma ClippedPoint(c: Clip, width: nat, height: nat, oldWidth: nat, oldHeight: nat, destX: int, destY: int, p: Point)
    requires CopiesIntersection(c, width, height, oldWidth, oldHeight, destX, destY) && Inside(p, width, height)
    ensures Copies(c, p) <==> Inside((p.0 - destX, p.1 - destY), oldWidth, oldHeight)
    ensures Copies(c, p) ==> (p.0 - c.dstX + c.srcX, p.1 - c.dstY + c.srcY) == (p.0 - destX, p.1 - destY)
  {
  }

  /** Such a copy lays the old image over the new one. */
  lemma ClippedCopy(src: Image, dst: Image, c: Clip, width: nat, height: nat, oldWidth: nat, oldHeight: nat,
                    destX: int, destY: int)
    requires src.Keys == Area(oldWidth, oldHeight) && dst.Keys == Area(width, height)
    requires CopiesIntersection(c, width, height, oldWidth, oldHeight, destX, destY)
    ensures CopyArea(src, dst, c.srcX, c.srcY, c.width, c.height, c.dstX, c.dstY) == Overlay(src, dst, destX, destY)
  {
    var l := CopyArea(src, dst, c.srcX, c.srcY, c.width, c.height, c.dstX, c.dstY);
    var r := Overlay(src, dst, destX, destY);
    forall p | p in dst ensures l[p] == r[p] {
      assert Inside(p, width, height);
      ClippedPoint(c, width, height, oldWidth, oldHeight, destX, destY, p);
      assert (p.0 - destX, p.1 - destY) in src <==> Inside((p.0 - destX, p.1 - destY), oldWidth, oldHeight);
      CopySame(src, dst, c, destX, destY, p);
    }
  }

  lemma CopySame(src: Image, dst: Image, c: Clip, destX: int, destY: int, p: Point)
    requires p in dst && (Copies(c, p) <==> (p.0 - destX, p.1 - destY) in src)
    requires Copies(c, p) ==> (p.0 - c.dstX + c.srcX, p.1 - c.dstY + c.srcY) == (p.0 - destX, p.1 - destY)
    ensures CopyArea(src, dst, c.srcX, c.srcY, c.width, c.height, c.dstX, c.dstY)[p] ==
            Overlay(src, dst, destX, destY)[p]
  {
    OverlayAt(src, dst, destX, destY, p);
    CopyAreaAt(src, dst, c.srcX, c.srcY, c.width, c.height, c.dstX, c.dstY, p);
  }

  /** The new rectangle lies within the old one moved by (dx, dy). */
  predicate Covers(r: Record, win: Window, dx: int, dy: int) {
    dx <= 0 && win.width - dx <= r.width && dy <= 0 && win.height - dy <= r.height
  }

  /** If neither dimension grows and the gravity is neither Static nor Forget, the old buffer covers
      the new one. */
  lemma ShrinkingCovers(r: Record, win: Window)
    requires win.width <= r.width && win.height <= r.height
    requires win.bitGravity != StaticGravity && win.bitGravity != ForgetGravity
    ensures var (dx, dy) := Displacement(r, win); Covers(r, win, dx, dy)
  {
  }

  /** The old pixel where bits are kept and it has one, else the background where it is cleared, else chance. */
  function ResizedValue(r: Record, win: Window, was: Image, raw: Raw, dx: int, dy: int, p: Point): Pixel
    requires was.Keys == Area(r.width, r.height)
  {
    if win.bitGravity != ForgetGravity && Inside((p.0 - dx, p.1 - dy), r.width, r.height) then was[(p.0 - dx, p.1 - dy)]
    else if Clears(r, win) then PaintAt(win.painter.value, p)
    else raw(p)
  }

  /** Where an old pixel lands, the new buffer shows it; elsewhere, and everywhere when bits are forgotten,
      it shows the background where it is cleared, else what its memory happened to hold. */
  lemma ResizedPixel(r: Record, win: Window, was: Image, raw: Raw, dx: int, dy: int, p: Point)
    requires was.Keys == Area(r.width, r.height) && Inside(p, win.width, win.height)
    ensures p in MovedImage(r, win, was, raw, dx, dy)
    ensures MovedImage(r, win, was, raw, dx, dy)[p] == ResizedValue(r, win, was, raw, dx, dy, p)
  {
    var base := if Clears(r, win) then Filled(win.painter.value, win.width, win.height)
                else Fresh(raw, win.width, win.height);
    BasePixel(r, win, raw, p);
    OverlayAt(was, base, dx, dy, p);
    assert (p.0 - dx, p.1 - dy) in was <==> Inside((p.0 - dx, p.1 - dy), r.width, r.height);
  }

  lemma BasePixel(r: Record, win: Window, raw: Raw, p: Point)
    requires Inside(p, win.width, win.height)
    ensures var base := if Clears(r, win) then Filled(win.painter.value, win.width, win.height)
                        else Fresh(raw, win.width, win.height);
            p in base && base[p] == if Clears(r, win) then PaintAt(win.painter.value, p) else raw(p)
  {
  }

  /** So when a window shrinks, under all gravities but those two, every pixel of its new buffers is one of the old. */
  lemma ShrunkPixel(r: Record, win: Window, was: Image, raw: Raw, p: Point)
    requires win.width <= r.width && win.height <= r.height && was.Keys == Area(r.width, r.height)
    requires win.bitGravity != StaticGravity && win.bitGravity != ForgetGravity && Inside(p, win.width, win.height)
    ensures var (dx, dy) := Displacement(r, win);
            && (p.0 - dx, p.1 - dy) in was && p in ResizedImage(r, win, was, raw)
            && ResizedImage(r, win, was, raw)[p] == was[(p.0 - dx, p.1 - dy)]
  {
    var (dx, dy) := Displacement(r, win);
    ShrinkingCovers(r, win);
    CoveredPixel(r, win, was, raw, dx, dy, p);
  }

  lemma CoveredPixel(r: Record, win: Window, was: Image, raw: Raw, dx: int, dy: int, p: Point)
    requires was.Keys == Area(r.width, r.height) && Inside(p, win.width, win.height)
    requires win.bitGravity != ForgetGravity && Covers(r, win, dx, dy)
    ensures (p.0 - dx, p.1 - dy) in was && p in MovedImage(r, win, was, raw, dx, dy)
    ensures MovedImage(r, win, was, raw, dx, dy)[p] == was[(p.0 - dx, p.1 - dy)]
  {
    assert Inside((p.0 - dx, p.1 - dy), r.width, r.height);
    ResizedPixel(r, win, was, raw, dx, dy, p);
  }

  ghost predicate SameWhateverMemoryHeld(r: Record, win: Window, was: Image, dx: int, dy: int) {
    forall a, b :: MovedImage(r, win, was, a, dx, dy) == MovedImage(r, win, was, b, dx, dy)
  }

  /** The new buffer never shows what its memory happened to hold exactly when it was cleared to a
      background or the old buffer, not forgotten, covers it. */
  lemma DefinedExactly(r: Record, win: Window, was: Image, dx: int, dy: int)
    requires win.width > 0 && win.height > 0 && was.Keys == Area(r.width, r.height)
    ensures SameWhateverMemoryHeld(r, win, was, dx, dy) <==>
            Clears(r, win) || (win.bitGravity != ForgetGravity && Covers(r, win, dx, dy))
  {
    if Clears(r, win) {
    } else if win.bitGravity != ForgetGravity && Covers(r, win, dx, dy) {
      forall a, b ensures MovedImage(r, win, was, a, dx, dy) == MovedImage(r, win, was, b, dx, dy) {
        CoveredSame(r, win, was, a, b, dx, dy);
      }
    } else {
      UndefinedPixel(r, win, was, dx, dy);
    }
  }

  lemma UndefinedPixel(r: Record, win: Window, was: Image, dx: int, dy: int)
    requires win.width > 0 && win.height > 0 && was.Keys == Area(r.width, r.height)
    requires !Clears(r, win) && (win.bitGravity == ForgetGravity || !Covers(r, win, dx, dy))
    ensures !SameWhateverMemoryHeld(r, win, was, dx, dy)
  {
    var p := if dx > 0 || dy > 0 then (0, 0) else (win.width - 1, win.height - 1);
    assert Inside(p, win.width, win.height);
    var zero, one := (q: Point) => 0, (q: Point) => 1;
    ResizedPixel(r, win, was, zero, dx, dy, p);
    ResizedPixel(r, win, was, one, dx, dy, p);
    assert MovedImage(r, win, was, zero, dx, dy)[p] != MovedImage(r, win, was, one, dx, dy)[p];
  }

  lemma CoveredSame(r: Record, win: Window, was: Image, a: Raw, b: Raw, dx: int, dy: int)
    requires was.Keys == Area(r.width, r.height)
    requires win.bitGravity != ForgetGravity && Covers(r, win, dx, dy)
    ensures MovedImage(r, win, was, a, dx, dy) == MovedImage(r, win, was, b, dx, dy)
  {
    var l, m := MovedImage(r, win, was, a, dx, dy), MovedImage(r, win, was, b, dx, dy);
    assert l.Keys == Area(win.width, win.height) == m.Keys;
    forall p | p in l ensures l[p] == m[p] {
      assert Inside(p, win.width, win.height);
      CoveredPixel(r, win, was, a, dx, dy, p);
      CoveredPixel(r, win, was, b, dx, dy, p);
    }
  }

  /** How far the window's own bits move when it goes from (x, y) with the old size to next. */
  function WindowDisplacement(x: int, y: int, width: nat, height: nat, next: Window): (int, int) {
    GravityTranslate(0, 0, x - next.x, y - next.y, next.width - width, next.height - height, next.bitGravity)
  }

  /** A move that keeps the size leaves the record as it is, its stored place too. The next resize then moves
      the buffers as far as the window's own bits exactly when the gravity is not Static or the window was
      moved to the stored place. */
  lemma StaticAfterMove(s: State, w: XID, x: int, y: int, contents: Raw, next: Window)
    requires CanSwap(s, w)
    requires s.recs[w].width == s.windows[w].width && s.recs[w].height == s.windows[w].height
    ensures var r := s.recs[w];
            var t := Resized(s, w, x, y, r.width, r.height, contents, None, None);
            && t.recs == s.recs && t.pixmaps == s.pixmaps
            && (Displacement(t.recs[w], next) == WindowDisplacement(x, y, r.width, r.height, next) <==>
                next.bitGravity != StaticGravity || (r.x == x && r.y == y))
  {
    var t := WindowConfigured(s, w, x, y, s.recs[w].width, s.recs[w].height, contents);
    assert CanSwap(t, w) && t.recs == s.recs;
  }
}

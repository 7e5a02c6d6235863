/** What each request and each event of the rest of the server does to the shared state. */
module DbeRequests {
  import opened Options
  import opened Images
  import opened Resources
  import opened DbeState

  const XDBE_UNDEFINED := 0
  const XDBE_BACKGROUND := 1
  const XDBE_UNTOUCHED := 2
  const XDBE_COPIED := 3

  datatype Status = Success | BadValue | BadWindow | BadMatch | BadAlloc | BadIDChoice | DbeBadBuffer

  /** The depths of a screen with the visuals of each. */
  datatype Depth = Depth(depth: int, vids: seq<int>)

  predicate ValidAction(action: int) {
    action == XDBE_UNDEFINED || action == XDBE_BACKGROUND || action == XDBE_UNTOUCHED || action == XDBE_COPIED
  }

  predicate HasVisual(depths: seq<Depth>, visual: int) {
    exists d :: d in depths && visual in d.vids
  }

  /** The clients that send requests; client 0 is the server itself. */
  type Client = c: nat | 0 < c witness 1

  predicate LegalNewId(s: State, inUse: set<XID>, client: Client, id: XID) {
    ClientOf(id) == client && id !in inUse && id !in s.windows && id !in s.privRes && id !in s.drawRes
  }

  // ---------------------------------------------------------------- allocating a name

  function AllocateError(
    s: State, client: Client, w: XID, id: XID, action: int, depths: seq<Depth>, inUse: set<XID>): Status
  {
    if w !in s.windows then BadWindow
    else if !s.windows[w].inputOutput then BadMatch
    else if !ValidAction(action) then BadValue
    else if !LegalNewId(s, inUse, client, id) then BadIDChoice
    else if !HasVisual(depths, s.windows[w].visual) then BadMatch
    else Success
  }

  /** A new back buffer, cleared to the background where there is one. */
  function InitialImage(win: Window, raw: Raw): Image {
    if win.painter.Some? then Filled(win.painter.value, win.width, win.height) else Fresh(raw, win.width, win.height)
  }

  ghost function WithBlank(s: State, w: XID): State
    requires w in s.windows
  {
    s.(recs := s.recs[w := Blank(s.windows[w])])
  }

  /** A window's record gets its two pixmaps, and the name its drawable, cleared to the background. */
  ghost function BuffersAttached(s: State, w: XID, id: XID, front: Raw, back: Raw): State
    requires w in s.windows && w in s.recs
  {
    var win := s.windows[w];
    s.(recs := s.recs[w := s.recs[w].(front := s.nextPix, back := s.nextPix + 1)],
       drawRes := s.drawRes[id := s.nextPix + 1],
       pixmaps := s.pixmaps[s.nextPix := Fresh(front, win.width, win.height)][s.nextPix + 1 := InitialImage(win, back)],
       nextPix := s.nextPix + 2)
  }

  ghost function NameAdded(s: State, w: XID, id: XID, action: int): State
    requires w in s.recs
  {
    s.(recs := s.recs[w := s.recs[w].(names := s.recs[w].names + [id], action := action)])
  }

  /** The first name of a window, with the record and the pixmaps it brings. */
  ghost function FirstName(s: State, w: XID, id: XID, action: int, front: Raw, back: Raw): State
    requires w in s.windows
  {
    var win := s.windows[w];
    s.(recs := s.recs[w := Record([id], s.nextPix, s.nextPix + 1, win.width, win.height, win.x, win.y, action)],
       privRes := s.privRes[id := w],
       drawRes := s.drawRes[id := s.nextPix + 1],
       pixmaps := s.pixmaps[s.nextPix := Fresh(front, win.width, win.height)][s.nextPix + 1 := InitialImage(win, back)],
       nextPix := s.nextPix + 2)
  }

  ghost function NextName(s: State, w: XID, id: XID, action: int): State
    requires w in s.recs
  {
    NameAdded(s, w, id, action).(privRes := s.privRes[id := w], drawRes := s.drawRes[id := s.recs[w].back])
  }

  /** One pixmap was created and, the other being refused, destroyed again. */
  ghost function PixmapWasted(s: State): State {
    s.(nextPix := s.nextPix + 1, destroyed := s.destroyed + multiset{s.nextPix})
  }

  ghost function NameAllocated(
    s: State, w: XID, id: XID, action: int, front: Option<Raw>, back: Option<Raw>): (State, Status)
    requires w in s.windows
  {
    if w in s.recs then (NextName(s, w, id, action), Success)
    else if front.None? then (s, BadAlloc)
    else if back.None? then (PixmapWasted(s), BadAlloc)
    else (FirstName(s, w, id, action, front.value, back.value), Success)
  }

  /** front and back are the contents CreatePixmap gives the two pixmaps, None where it fails. */
  ghost function Allocated(
    s: State, client: Client, w: XID, id: XID, action: int, depths: seq<Depth>, inUse: set<XID>,
    front: Option<Raw>, back: Option<Raw>): (State, Status)
  {
    var error := AllocateError(s, client, w, id, action, depths, inUse);
    if error != Success then (s, error)
    else NameAllocated(s, w, id, action, front, back)
  }

  ghost function Deallocated(s: State, id: XID): (State, Status) {
    if id in s.privRes && id in s.drawRes then (DropNames(s, {id}), Success) else (s, DbeBadBuffer)
  }

  /** What becomes of a blank record: it gets pixmaps and its first name, or it is taken from its window again. */
  ghost function RecordFilled(
    s: State, w: XID, id: XID, action: int, front: Option<Raw>, back: Option<Raw>): State
    requires w in s.windows && w in s.recs
  {
    if front.None? then s.(recs := s.recs - {w})
    else if back.None? then PixmapWasted(s).(recs := s.recs - {w})
    else NameAdded(BuffersAttached(s, w, id, front.value, back.value), w, id, action).(privRes := s.privRes[id := w])
  }

  /** The steps of a first allocation make up FirstName, and leave no trace when they are undone. */
  lemma FirstNameSteps(s: State, w: XID, id: XID, action: int, front: Option<Raw>, back: Option<Raw>)
    requires w in s.windows && w !in s.recs
    ensures RecordFilled(WithBlank(s, w), w, id, action, front, back) == NameAllocated(s, w, id, action, front, back).0
  {
    assert [] + [id] == [id];
    assert WithBlank(s, w).recs - {w} == s.recs;
  }

  // ---------------------------------------------------------------- swapping

  /** ChangeResourceValue for every name: those that are drawable resources now denote p. */
  function Alias(drawRes: map<XID, PixId>, names: seq<XID>, p: PixId): map<XID, PixId> {
    map id | id in drawRes :: if id in names then p else drawRes[id]
  }

  predicate CanSwap(s: State, w: XID) {
    && w in s.recs && w in s.windows
    && s.recs[w].front in s.pixmaps && s.recs[w].back in s.pixmaps
  }

  /** The front pixmap after the setup step. */
  function SavedImage(win: Window, front: Image, action: int): Image {
    if action == XDBE_UNTOUCHED then CopyArea(win.contents, front, 0, 0, win.width, win.height, 0, 0) else front
  }

  /** The window after the swap step. */
  function ShownImage(win: Window, back: Image): Image {
    CopyArea(back, win.contents, 0, 0, win.width, win.height, 0, 0)
  }

  /** The back pixmap after the final step. */
  function ClearedImage(win: Window, back: Image, width: nat, height: nat, action: int): Image {
    if action == XDBE_BACKGROUND && win.painter.Some? then FillRect(win.painter.value, back, width, height) else back
  }

  function SavedFront(s: State, w: XID, action: int): Image
    requires CanSwap(s, w)
  {
    SavedImage(s.windows[w], s.pixmaps[s.recs[w].front], action)
  }

  function Shown(s: State, w: XID): Image
    requires CanSwap(s, w)
  {
    ShownImage(s.windows[w], s.pixmaps[s.recs[w].back])
  }

  function ClearedBack(s: State, w: XID, action: int): Image
    requires CanSwap(s, w)
  {
    ClearedImage(s.windows[w], s.pixmaps[s.recs[w].back], s.recs[w].width, s.recs[w].height, action)
  }

  function Exchanged(r: Record): Record {
    r.(front := r.back, back := r.front)
  }

  function RecordAfter(r: Record, action: int): Record {
    if action == XDBE_UNTOUCHED then Exchanged(r) else r
  }

  function AliasesAfter(drawRes: map<XID, PixId>, r: Record, action: int): map<XID, PixId> {
    if action == XDBE_UNTOUCHED then Alias(drawRes, r.names, r.front) else drawRes
  }

  /** The window and the pixmaps after the drawing of a swap. */
  ghost function Drawn(s: State, w: XID, action: int): State
    requires CanSwap(s, w)
  {
    var r := s.recs[w];
    s.(windows := s.windows[w := s.windows[w].(contents := Shown(s, w))],
       pixmaps := s.pixmaps[r.front := SavedFront(s, w, action)][r.back := ClearedBack(s, w, action)])
  }

  /** miDbeSwapBuffers on one window. */
  ghost function Swapped(s: State, w: XID, action: int): State {
    if !CanSwap(s, w) then s else
    var r := s.recs[w];
    s.(windows := s.windows[w := s.windows[w].(contents := Shown(s, w))],
       pixmaps := s.pixmaps[r.front := SavedFront(s, w, action)][r.back := ClearedBack(s, w, action)],
       recs := s.recs[w := RecordAfter(r, action)],
       drawRes := AliasesAfter(s.drawRes, r, action))
  }

  datatype SwapInfo = SwapInfo(window: XID, action: int)

  ghost function SwappedInOrder(s: State, list: seq<SwapInfo>): State
    decreases |list|
  {
    if list == [] then s else SwappedInOrder(Swapped(s, list[0].window, list[0].action), list[1..])
  }

  /** The error entry i of the request meets, in the order the checks are made. */
  function EntryError(s: State, list: seq<SwapInfo>, i: nat): Status
    requires i < |list|
  {
    if list[i].window !in s.windows then BadWindow
    else if list[i].window !in s.recs then BadMatch
    else if exists j :: i < j < |list| && list[j].window == list[i].window then BadMatch
    else if !ValidAction(list[i].action) then BadValue
    else Success
  }

  function FirstError(s: State, list: seq<SwapInfo>, from: nat): Status
    requires from <= |list|
    decreases |list| - from
  {
    if from == |list| then Success
    else if EntryError(s, list, from) != Success then EntryError(s, list, from)
    else FirstError(s, list, from + 1)
  }

  ghost function SwapRequested(s: State, list: seq<SwapInfo>): (State, Status) {
    var error := FirstError(s, list, 0);
    (if error == Success then SwappedInOrder(s, list) else s, error)
  }

  // ---------------------------------------------------------------- resizing

  /** C division by two, which rounds towards zero. */
  function Half(n: int): int {
    if n >= 0 then n / 2 else -(-n / 2)
  }

  /** Where the bits of a window go; (oldX, oldY) is the place StaticGravity keeps them at. */
  function GravityTranslate(x: int, y: int, oldX: int, oldY: int, dw: int, dh: int, gravity: Gravity): (int, int) {
    match gravity
    case NorthGravity => (x + Half(dw), y)
    case NorthEastGravity => (x + dw, y)
    case WestGravity => (x, y + Half(dh))
    case CenterGravity => (x + Half(dw), y + Half(dh))
    case EastGravity => (x + dw, y + Half(dh))
    case SouthWestGravity => (x, y + dh)
    case SouthGravity => (x + Half(dw), y + dh)
    case SouthEastGravity => (x + dw, y + dh)
    case StaticGravity => (oldX, oldY)
    case _ => (x, y)
  }

  /** Where the old buffers land in the new ones. */
  function Displacement(r: Record, win: Window): (int, int) {
    GravityTranslate(0, 0, r.x - win.x, r.y - win.y, win.width - r.width, win.height - r.height, win.bitGravity)
  }

  predicate Clears(r: Record, win: Window) {
    (r.width < win.width || r.height < win.height || win.bitGravity == ForgetGravity) && win.painter.Some?
  }

  /** The new buffer: background where it is cleared, the old buffer moved by (dx, dy) on top unless it
      is forgotten. */
  function MovedImage(r: Record, win: Window, was: Image, raw: Raw, dx: int, dy: int): Image {
    var base := if Clears(r, win) then Filled(win.painter.value, win.width, win.height)
                else Fresh(raw, win.width, win.height);
    if win.bitGravity == ForgetGravity then base else Overlay(was, base, dx, dy)
  }

  ghost function ResizedImage(r: Record, win: Window, was: Image, raw: Raw): Image {
    var (dx, dy) := Displacement(r, win);
    MovedImage(r, win, was, raw, dx, dy)
  }

  /** The record of w turns from its pixmaps to f and b, at the new geometry. */
  ghost function BuffersReplaced(s: State, w: XID, win: Window, f: PixId, b: PixId): State
    requires w in s.recs
  {
    var r := s.recs[w];
    s.(recs := s.recs[w := r.(front := f, back := b, width := win.width, height := win.height, x := win.x, y := win.y)],
       drawRes := Alias(s.drawRes, r.names, b),
       pixmaps := s.pixmaps - {r.front, r.back},
       destroyed := s.destroyed + multiset{r.front, r.back})
  }

  /** Two new pixmaps with what the old ones leave in them. */
  ghost function PairDrawn(s: State, r: Record, win: Window, front: Raw, back: Raw): State
    requires r.front in s.pixmaps && r.back in s.pixmaps
  {
    s.(pixmaps := s.pixmaps[s.nextPix := ResizedImage(r, win, s.pixmaps[r.front], front)]
                           [s.nextPix + 1 := ResizedImage(r, win, s.pixmaps[r.back], back)],
       nextPix := s.nextPix + 2)
  }

  /** The record of w gets buffers of the new size, or, when they are refused, loses all its names. */
  ghost function BuffersFitted(s: State, w: XID, win: Window, front: Option<Raw>, back: Option<Raw>): State
    requires w in s.recs
  {
    var r := s.recs[w];
    if front.Some? && back.Some? && r.front in s.pixmaps && r.back in s.pixmaps then
      BuffersReplaced(PairDrawn(s, r, win, front.value, back.value), w, win, s.nextPix, s.nextPix + 1)
    else
      DropNames(if front.Some? || back.Some? then PixmapWasted(s) else s, NameSet(r))
  }

  /** miDbeWindowPosition, once the window itself has its new geometry. */
  ghost function BuffersResized(s: State, w: XID, front: Option<Raw>, back: Option<Raw>): State {
    if !CanSwap(s, w) then s else
    var win, r := s.windows[w], s.recs[w];
    if r.width == win.width && r.height == win.height then s else BuffersFitted(s, w, win, front, back)
  }

  function NameSet(r: Record): set<XID> {
    set id | id in r.names
  }

  ghost function WindowConfigured(s: State, w: XID, x: int, y: int, width: nat, height: nat, contents: Raw): State
    requires w in s.windows
  {
    var win := s.windows[w];
    s.(windows := s.windows[w := win.(x := x, y := y, width := width, height := height,
                                      contents := Fresh(contents, width, height))])
  }

  ghost function Resized(
    s: State, w: XID, x: int, y: int, width: nat, height: nat, contents: Raw,
    front: Option<Raw>, back: Option<Raw>): State
  {
    if w !in s.windows then s
    else BuffersResized(WindowConfigured(s, w, x, y, width, height, contents), w, front, back)
  }

  // ---------------------------------------------------------------- teardown

  ghost function NamesOf(s: State, w: XID): set<XID> {
    if w in s.recs then NameSet(s.recs[w]) else {}
  }

  ghost function WindowDestroyed(s: State, w: XID): State {
    DropNames(s, NamesOf(s, w)).(windows := s.windows - {w})
  }

  /** The windows destroyed with a client: its own, and those of others below them. */
  function DoomedWindows(s: State, client: Client, subtree: set<XID>): set<XID> {
    set w | w in s.windows && (ClientOf(w) == client || w in subtree)
  }

  /** The names that go with a client: its own, and those of the windows destroyed with it. */
  ghost function Doomed(s: State, client: Client, subtree: set<XID>): set<XID> {
    (set id | id in s.privRes.Keys + s.drawRes.Keys && ClientOf(id) == client) +
    (set id | id in s.privRes && s.privRes[id] in DoomedWindows(s, client, subtree))
  }

  ghost function ClientGone(s: State, client: Client, subtree: set<XID>): State {
    DropNames(s, Doomed(s, client, subtree)).(windows := s.windows - DoomedWindows(s, client, subtree))
  }

  // ---------------------------------------------------------------- the rest of the server

  ghost function WindowCreated(s: State, id: XID, win: Window): State {
    if id in s.windows || win.contents.Keys != Area(win.width, win.height) then s
    else s.(windows := s.windows[id := win])
  }

  ghost function WindowChanged(s: State, w: XID, gravity: Gravity, painter: Option<Painter>, contents: Raw): State {
    if w !in s.windows then s else
    var win := s.windows[w];
    s.(windows := s.windows[w := win.(bitGravity := gravity, painter := painter,
                                      contents := Fresh(contents, win.width, win.height))])
  }

  /** Drawing into the drawable a name denotes. */
  ghost function DrawnThrough(s: State, id: XID, contents: Raw): State {
    if id !in s.drawRes || s.drawRes[id] !in s.pixmaps then s else
    var p := s.drawRes[id];
    s.(pixmaps := s.pixmaps[p := map q | q in s.pixmaps[p] :: contents(q)])
  }
}

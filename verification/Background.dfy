/** Window backgrounds: what a window without contents shows, and the painter that reproduces it. */
module Background {
  import opened Options
  import opened Images
  import opened Resources

  datatype Background =
    | NoBackground | ParentRelative | BackgroundPixel(pixel: Pixel) | BackgroundPixmap(tile: PaintTile)

  /** A window as the walk sees it; x and y are its origin within its parent. */
  datatype Node = Node(parent: XID, x: int, y: int, background: Background)

  type Tree = map<XID, Node>

  /** Parents rank below their children, so the windows form trees; a window without a parent among them, a
      root, is not ParentRelative. */
  ghost predicate Rooted(tree: Tree, rank: XID -> nat) {
    forall w :: w in tree ==>
      if tree[w].parent in tree then rank(tree[w].parent) < rank(w) else tree[w].background != ParentRelative
  }

  /** The background the protocol gives a window at its point p: a ParentRelative window shows what its parent's
      background shows at the same place on the screen. */
  ghost function BackgroundAt(tree: Tree, rank: XID -> nat, w: XID, p: Point): Option<Pixel>
    requires Rooted(tree, rank) && w in tree
    decreases rank(w)
  {
    match tree[w].background
    case NoBackground => None
    case BackgroundPixel(pixel) => Some(pixel)
    case BackgroundPixmap(tile) => Some(TileAt(tile, p.0, p.1))
    case ParentRelative => BackgroundAt(tree, rank, tree[w].parent, (p.0 + tree[w].x, p.1 + tree[w].y))
  }

  /** The first window upwards that is not ParentRelative, and where w lies within it. */
  ghost function Ancestor(tree: Tree, rank: XID -> nat, w: XID): (v: XID)
    requires Rooted(tree, rank) && w in tree
    ensures v in tree && tree[v].background != ParentRelative
    decreases rank(w)
  {
    if tree[w].background == ParentRelative then Ancestor(tree, rank, tree[w].parent) else w
  }

  ghost function Offset(tree: Tree, rank: XID -> nat, w: XID): Point
    requires Rooted(tree, rank) && w in tree
    decreases rank(w)
  {
    if tree[w].background != ParentRelative then (0, 0) else
      var (x, y) := Offset(tree, rank, tree[w].parent);
      (x + tree[w].x, y + tree[w].y)
  }

  lemma {:induction false} ShowsAncestor(tree: Tree, rank: XID -> nat, w: XID, p: Point)
    requires Rooted(tree, rank) && w in tree
    ensures var o := Offset(tree, rank, w);
            BackgroundAt(tree, rank, w, p) ==
            BackgroundAt(tree, rank, Ancestor(tree, rank, w), (p.0 + o.0, p.1 + o.1))
    decreases rank(w)
  {
    if tree[w].background == ParentRelative {
      ShowsAncestor(tree, rank, tree[w].parent, (p.0 + tree[w].x, p.1 + tree[w].y));
    }
  }

  /** The painter for a window whose background comes from an ancestor with its origin at (x, y). */
  function PainterFor(background: Background, x: int, y: int): Option<Painter> {
    match background
    case BackgroundPixel(pixel) => Some(Solid(pixel))
    case BackgroundPixmap(tile) => Some(Tiled(tile, x, y))
    case _ => None
  }

  ghost function PainterOf(tree: Tree, rank: XID -> nat, w: XID): Option<Painter>
    requires Rooted(tree, rank) && w in tree
  {
    var (x, y) := Offset(tree, rank, w);
    PainterFor(tree[Ancestor(tree, rank, w)].background, -x, -y)
  }

  ghost predicate Paints(tree: Tree, rank: XID -> nat, w: XID, painter: Option<Painter>, p: Point)
    requires Rooted(tree, rank) && w in tree
  {
    BackgroundAt(tree, rank, w, p) == if painter.Some? then Some(PaintAt(painter.value, p)) else None
  }

  /** Filling with the painter of a window gives every pixel the background the protocol defines there; there is no
      painter exactly when there is no background. */
  lemma PainterPaints(tree: Tree, rank: XID -> nat, w: XID, p: Point)
    requires Rooted(tree, rank) && w in tree
    ensures Paints(tree, rank, w, PainterOf(tree, rank, w), p)
  {
    ShowsAncestor(tree, rank, w, p);
  }

  /** DbeSetupBackgroundPainter: the walk ends at the first ancestor with a background of its own. */
  method SetupBackgroundPainter(tree: Tree, ghost rank: XID -> nat, window: XID) returns (painter: Option<Painter>)
    requires Rooted(tree, rank) && window in tree
    ensures painter == PainterOf(tree, rank, window) && forall p :: Paints(tree, rank, window, painter, p)
  {
    var w := window;
    var originX, originY := 0, 0;
    while tree[w].background == ParentRelative
      invariant w in tree && Ancestor(tree, rank, w) == Ancestor(tree, rank, window)
      invariant Offset(tree, rank, w) ==
                (Offset(tree, rank, window).0 + originX, Offset(tree, rank, window).1 + originY)
      decreases rank(w)
    {
      originX, originY := originX - tree[w].x, originY - tree[w].y;
      w := tree[w].parent;
    }
    match tree[w].background {
      case BackgroundPixel(pixel) => painter := Some(Solid(pixel));
      case BackgroundPixmap(tile) => painter := Some(Tiled(tile, originX, originY));
      case _ => painter := None;
    }
    forall p ensures Paints(tree, rank, window, painter, p) {
      PainterPaints(tree, rank, window, p);
    }
  }
}

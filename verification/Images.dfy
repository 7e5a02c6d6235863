/** Drawables as finite pixel maps, with the two drawing requests the extension issues. */
module Images {
  type Pixel = int
  type Point = (int, int)
  type Image = map<Point, Pixel>

  /** The pixels a drawable happens to hold before anything is drawn into it. */
  type Raw = Point -> Pixel

  datatype Tile = Tile(width: nat, height: nat, texel: Point -> Pixel) {
    predicate Valid() { width > 0 && height > 0 }
  }

  type PaintTile = t: Tile | t.Valid() witness Tile(1, 1, _ => 0)

  /** What the scratch GC is set up to fill with. */
  datatype Painter =
    | Solid(pixel: Pixel)
    | Tiled(tile: PaintTile, originX: int, originY: int)

  /** The tile repeated over the plane from the origin. */
  function TileAt(tile: PaintTile, x: int, y: int): Pixel {
    tile.texel((x % tile.width, y % tile.height))
  }

  function PaintAt(painter: Painter, p: Point): Pixel {
    match painter
    case Solid(pixel) => pixel
    case Tiled(tile, originX, originY) => TileAt(tile, p.0 - originX, p.1 - originY)
  }

  predicate Within(i: int, size: int) {
    0 <= i < size
  }

  predicate Inside(p: Point, width: int, height: int) {
    Within(p.0, width) && Within(p.1, height)
  }

  function Area(width: int, height: int): (points: set<Point>)
    ensures forall p :: p in points <==> Inside(p, width, height)
  {
    set x: int, y: int | 0 <= x < width && 0 <= y < height :: (x, y)
  }

  function Fresh(raw: Raw, width: int, height: int): Image {
    map p | p in Area(width, height) :: raw(p)
  }

  function Filled(painter: Painter, width: int, height: int): Image {
    map p | p in Area(width, height) :: PaintAt(painter, p)
  }

  /** PolyFillRect with one rectangle at the origin. */
  function FillRect(painter: Painter, dst: Image, width: int, height: int): (img: Image)
    ensures img.Keys == dst.Keys
  {
    map p | p in dst :: if Inside(p, width, height) then PaintAt(painter, p) else dst[p]
  }

  /** CopyArea; points that fall outside the source are left alone, as is everything
      when the rectangle is empty. */
  function CopyArea(
    src: Image, dst: Image, srcX: int, srcY: int, width: int, height: int, dstX: int, dstY: int): (img: Image)
    ensures img.Keys == dst.Keys
  {
    map p: Point | p in dst ::
      var from := (p.0 - dstX + srcX, p.1 - dstY + srcY);
      if Inside((p.0 - dstX, p.1 - dstY), width, height) && from in src then src[from] else dst[p]
  }

  /** src laid over base with its upper-left corner at (dx, dy). */
  function Overlay(src: Image, base: Image, dx: int, dy: int): (img: Image)
    ensures img.Keys == base.Keys
  {
    map p: Point | p in base :: if (p.0 - dx, p.1 - dy) in src then src[(p.0 - dx, p.1 - dy)] else base[p]
  }

  lemma CopyAreaAt(src: Image, dst: Image, sx: int, sy: int, width: int, height: int, dx: int, dy: int, p: Point)
    requires p in dst
    ensures var from := (p.0 - dx + sx, p.1 - dy + sy);
            CopyArea(src, dst, sx, sy, width, height, dx, dy)[p] ==
            if Inside((p.0 - dx, p.1 - dy), width, height) && from in src then src[from] else dst[p]
  {
  }

  lemma OverlayAt(src: Image, base: Image, dx: int, dy: int, p: Point)
    requires p in base
    ensures Overlay(src, base, dx, dy)[p] ==
            if (p.0 - dx, p.1 - dy) in src then src[(p.0 - dx, p.1 - dy)] else base[p]
  {
  }

  lemma WholeFill(painter: Painter, dst: Image, width: int, height: int)
    requires dst.Keys == Area(width, height)
    ensures FillRect(painter, dst, width, height) == Filled(painter, width, height)
  {
  }

  lemma WholeCopy(src: Image, dst: Image, width: int, height: int)
    requires src.Keys == Area(width, height) && dst.Keys == Area(width, height)
    ensures CopyArea(src, dst, 0, 0, width, height, 0, 0) == src
  {
  }
}

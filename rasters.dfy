/**
 * Raster images and the three java.awt operations ImageHandler relies on: allocating a
 * blank `BufferedImage` (all pixels zero for TYPE_INT_RGB), `Graphics.drawImage`, which
 * pastes one image onto another at an offset and clips to the target, and
 * `BufferedImage.getSubimage`, which cuts out a rectangle and throws when it does not fit.
 *
 * A raster is a sequence of rows, each a sequence of pixels.
 */
module Rasters {
  import opened Tiling

  type Raster = seq<seq<int>>

  /** r has exactly h rows of exactly w pixels each. */
  predicate IsRaster(r: Raster, w: int, h: int)
  {
    |r| == h && forall row :: 0 <= row < |r| ==> |r[row]| == w
  }

  function Height(r: Raster): (n: int)
    ensures 0 <= n
  {
    |r|
  }

  function Width(r: Raster): (n: int)
    ensures 0 <= n
  {
    if |r| == 0 then 0 else |r[0]|
  }

  /** What a decoder delivers: a rectangular image with at least one row and one column. */
  predicate IsImage(r: Raster)
  {
    0 < Height(r) && 0 < Width(r) && IsRaster(r, Width(r), Height(r))
  }

  /** r is a w x h raster all of whose pixels are 0. */
  predicate IsBlank(r: Raster, w: int, h: int)
  {
    IsRaster(r, w, h) && forall row, col :: 0 <= row < h && 0 <= col < w ==> r[row][col] == 0
  }

  /** A freshly allocated image (`new BufferedImage(w, h, TYPE_INT_RGB)`). */
  function Blank(w: nat, h: nat): (r: Raster)
    ensures IsBlank(r, w, h)
  {
    seq(h, _ => seq(w, _ => 0))
  }

  /** Whether pixel (row, col) of the target receives a pixel of src drawn at (ox, oy). */
  predicate Covers(src: Raster, ox: int, oy: int, row: int, col: int)
  {
    0 <= row - oy < |src| && 0 <= col - ox < |src[row - oy]|
  }

  /** `dst.createGraphics().drawImage(src, ox, oy, null)`: every pixel of dst under src takes
      the value of src, every other pixel keeps its value, and src pixels outside dst are
      discarded. */
  function Paste(dst: Raster, src: Raster, ox: int, oy: int): (r: Raster)
    ensures |r| == |dst| && forall row :: 0 <= row < |r| ==> |r[row]| == |dst[row]|
  {
    seq(|dst|, row requires 0 <= row < |dst| =>
      seq(|dst[row]|, col requires 0 <= col < |dst[row]| =>
        if Covers(src, ox, oy, row, col) then src[row - oy][col - ox] else dst[row][col]))
  }

  /** One pixel of a paste: the source's pixel where it covers the target, the target's own
      pixel elsewhere. */
  lemma PasteAt(dst: Raster, src: Raster, ox: int, oy: int, row: int, col: int)
    requires 0 <= row < |dst| && 0 <= col < |dst[row]|
    ensures Covers(src, ox, oy, row, col) ==> Paste(dst, src, ox, oy)[row][col] == src[row - oy][col - ox]
    ensures !Covers(src, ox, oy, row, col) ==> Paste(dst, src, ox, oy)[row][col] == dst[row][col]
  {
  }

  /** A w x h source drawn at (ox, oy) covers exactly the rectangle [ox, ox + w) x [oy, oy + h). */
  lemma CoversRect(src: Raster, w: int, h: int, ox: int, oy: int, row: int, col: int)
    requires IsRaster(src, w, h)
    ensures Covers(src, ox, oy, row, col) <==> oy <= row < oy + h && ox <= col < ox + w
  {
  }

  /** `tile.getSubimage(x, y, w, h)`, defined only when the rectangle fits inside the tile;
      the result is w x h. */
  function Crop(tile: Raster, x: int, y: int, w: int, h: int): (r: Raster)
    requires IsRaster(tile, Width(tile), Height(tile))
    requires ContainsRect(Width(tile), Height(tile), x, y, w, h)
    ensures IsRaster(r, w, h)
  {
    seq(h, row requires 0 <= row < h => tile[y + row][x .. x + w])
  }
}

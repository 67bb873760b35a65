/**
 * Whole-handler scenarios: the sequences of calls the source's tests make, stated as
 * postconditions of methods that drive an ImageHandler. Each fact follows from the
 * contracts of the operations alone.
 */
module Scenarios {
  import opened Tiling
  import opened Rasters
  import opened ImageHandlers

  /** Drawing a source fully inside a live image, at a part boundary and within the stored
      width, and then reading the same rectangle back returns the source unchanged. */
  method DrawThenGet(h: ImageHandler, imageId: int, x: int, y: int, source: Raster) returns (r: Result<Raster>)
    requires h.Valid() && 0 <= imageId && h.Live(imageId) && IsImage(source)
    requires 0 <= x && x + Width(source) <= h.PartWidthOf(imageId)
    requires 0 <= y && y + Height(source) <= h.imageList[imageId].value.imageHeight
    requires y % h.maxImagePartHeight == 0
    modifies h
    ensures h.Valid() && h.imageList == old(h.imageList)
    ensures r == Success(source)
  {
    var image := h.imageList[imageId].value;
    assert x < image.imageWidth && y < image.imageHeight;
    var drawn := h.DrawImage(imageId, x, y, Width(source), Height(source), source);
    assert drawn == Pass;
    AlignedReadsInBounds(image.imageWidth, image.imageHeight, h.maxImagePartWidth, h.maxImagePartHeight,
                         x, y, Width(source), Height(source));
    assert RegionStart(x) == x && VisibleLength(image.imageWidth, x, Width(source)) == Width(source);
    assert RegionStart(y) == y && VisibleLength(image.imageHeight, y, Height(source)) == Height(source);
    r := h.GetSubImage(imageId, x, y, Width(source), Height(source));
    assert r.Success?;
    forall row | 0 <= row < Height(source)
      ensures r.value[row] == source[row]
    {
      forall col | 0 <= col < Width(source)
        ensures r.value[row][col] == source[row][col]
      {
        assert h.Pixel(imageId, x + col, y + row) == source[row][col];
      }
    }
    assert r.value == source;
  }

  /** largeImageSubImageTest: a 512 x 512 source drawn at (10, 10) on a 540 x 540 image
      with 2000 x 10 parts is read back unchanged. */
  method LargeImageRoundTrip(source: Raster) returns (r: Result<Raster>)
    requires IsRaster(source, 512, 512)
    ensures r == Success(source)
  {
    var h := new ImageHandler(2000, 10);
    var created := h.CreateImage(540, 540);
    r := DrawThenGet(h, created.value, 10, 10, source);
  }

  /** getEmptySubImageTest: reading the whole of a freshly created image that fits the part
      width gives a blank raster of its size. */
  method EmptySubImage(maxImagePartWidth: int, maxImagePartHeight: int, width: int, height: int)
    returns (r: Result<Raster>)
    requires 0 < maxImagePartHeight && 0 < width <= maxImagePartWidth && 0 < height
    ensures r == Success(Blank(width, height))
  {
    var h := new ImageHandler(maxImagePartWidth, maxImagePartHeight);
    var created := h.CreateImage(width, height);
    AlignedReadsInBounds(width, height, maxImagePartWidth, maxImagePartHeight, 0, 0, width, height);
    assert RegionStart(0) == 0 && VisibleLength(width, 0, width) == width && VisibleLength(height, 0, height) == height;
    r := h.GetSubImage(created.value, 0, 0, width, height);
    assert r.Success?;
    forall row | 0 <= row < height
      ensures r.value[row] == Blank(width, height)[row]
    {
      forall col | 0 <= col < width
        ensures r.value[row][col] == Blank(width, height)[row][col]
      {
        assert h.Pixel(created.value, col, row) == 0;
      }
    }
    assert r.value == Blank(width, height);
  }

  /** multiplePartsCreateTest: with 10 x 10 parts an image 64 rows high is stored as the
      seven part files 0 .. 6 of id 0. */
  method MultiplePartsCreate() returns (id: Result<int>, files: set<(int, int)>)
    ensures id == Success(0)
    ensures files == set i | 0 <= i < 7 :: (0, i)
  {
    var h := new ImageHandler(10, 10);
    id := h.CreateImage(10, 64);
    files := h.parts.Keys;
  }

  /** Ids come from the length of the registry and deletion leaves a null slot, so after
      three creations and a deletion the next image still gets a fresh id. */
  method IdsAreNotReused() returns (ids: seq<Result<int>>)
    ensures ids == [Success(0), Success(1), Success(2), Success(3)]
  {
    var h := new ImageHandler(10, 10);
    var a := h.CreateImage(10, 10);
    var b := h.CreateImage(10, 20);
    var c := h.CreateImage(7, 20);
    var deleted := h.DeleteImage(1);
    var d := h.CreateImage(10, 10);
    ids := [a, b, c, d];
  }

  /** deleteTest: deleting the only image removes all of its part files. */
  method DeleteRemovesParts() returns (deleted: Outcome, files: set<(int, int)>)
    ensures deleted == Pass && files == {}
  {
    var h := new ImageHandler(10, 10);
    var created := h.CreateImage(20, 20);
    deleted := h.DeleteImage(0);
    files := h.parts.Keys;
  }

  /** deletedImageSubImageTest and the incorrect-id tests: after an image is deleted,
      reading, drawing and deleting it all fail with IncorrectImageId, and so does deleting
      an id that was never handed out. */
  method DeletedImageIsGone(source: Raster) returns (after: Result<Raster>, drawn: Outcome, again: Outcome, unknown: Outcome)
    requires IsRaster(source, 3, 2)
    ensures after == Failure(IncorrectImageId)
    ensures drawn == Fail(IncorrectImageId) && again == Fail(IncorrectImageId) && unknown == Fail(IncorrectImageId)
  {
    var h := new ImageHandler(10, 10);
    var created := h.CreateImage(10, 10);
    var deleted := h.DeleteImage(0);
    after := h.GetSubImage(0, 0, 0, 10, 10);
    drawn := h.DrawImage(0, 0, 0, 3, 2, source);
    again := h.DeleteImage(0);
    unknown := h.DeleteImage(1);
  }

  /** inMultiplePartsGetSubImageTest, as written: a 3 x 2 source is drawn at (1, 9) on a
      7 x 20 image with 10 x 10 parts and the 5 x 4 rectangle at (0, 8) is requested. The
      read of part 0 starts at row 8 and is 10 rows high, so getSubimage throws. */
  method MultiPartsGetSubImage(source: Raster) returns (r: Result<Raster>)
    requires IsRaster(source, 3, 2)
    ensures r == Failure(RasterFormat)
  {
    var h := new ImageHandler(10, 10);
    var created := h.CreateImage(7, 20);
    var drawn := h.DrawImage(0, 1, 9, 3, 2, source);
    InMultiplePartsTestReadAsWritten();
    r := h.GetSubImage(0, 0, 8, 5, 4);
  }

  /** The image of inMultiplePartsGetSubImageTest before it is read: a 7 x 20 image with
      10 x 10 parts, blank except for a 3 x 2 source drawn at (1, 9), across the boundary of
      parts 0 and 1. */
  method MultiPartsImage(source: Raster) returns (h: ImageHandler)
    requires IsRaster(source, 3, 2)
    ensures fresh(h) && h.Valid() && h.Live(0)
    ensures h.imageList[0].value.imageWidth == 7 && h.imageList[0].value.imageHeight == 20
    ensures h.PartWidthOf(0) == 7
    ensures forall X, Y :: 0 <= X < 7 && 0 <= Y < 20 ==>
              h.Pixel(0, X, Y) == if 1 <= X < 4 && 9 <= Y < 11 then source[Y - 9][X - 1] else 0
  {
    h := new ImageHandler(10, 10);
    var created := h.CreateImage(7, 20);
    label created:
    var drawn := h.DrawImage(0, 1, 9, 3, 2, source);
    assert drawn == Pass;
    forall X, Y | 0 <= X < 7 && 0 <= Y < 20
      ensures h.Pixel(0, X, Y) == if 1 <= X < 4 && 9 <= Y < 11 then source[Y - 9][X - 1] else 0
    {
      assert old@created(h.Pixel(0, X, Y)) == 0;
    }
  }

  /** The same test with the corrected part height: the request returns the rectangle the
      test expects, the source at (1, 1) with blank pixels around it. */
  method MultiPartsGetSubImageCorrected(source: Raster) returns (r: Result<Raster>)
    requires IsRaster(source, 3, 2)
    ensures r.Success? && IsRaster(r.value, 5, 4)
    ensures forall row, col :: 0 <= row < 4 && 0 <= col < 5 ==>
              r.value[row][col] == if 1 <= row < 3 && 1 <= col < 4 then source[row - 1][col - 1] else 0
  {
    var h := MultiPartsImage(source);
    assert RegionStart(0) == 0 && RegionStart(8) == 8 && VisibleLength(7, 0, 5) == 5 && VisibleLength(20, 8, 4) == 4;
    r := h.GetSubImageCorrected(0, 0, 8, 5, 4);
    forall row, col | 0 <= row < 4 && 0 <= col < 5
      ensures r.value[row][col] == if 1 <= row < 3 && 1 <= col < 4 then source[row - 1][col - 1] else 0
    {
      assert r.value[row][col] == h.Pixel(0, col, 8 + row);
    }
  }
}

/**
 * ImageHandler: a store of large images, each kept as horizontal parts of at most
 * maxImagePartHeight rows and at most maxImagePartWidth columns.
 *
 * The source keeps every part in a file `<workingDirectory>/<id>/<part>.<ext>` and goes
 * through an image codec to read and write it; here the files are the map `parts` from
 * (image id, part index) to the part's raster, and drawImage receives the already decoded
 * source raster. Encoding the result of getSubImage is left to the caller: GetSubImage
 * returns the raster the source would encode.
 */
module ImageHandlers {
  import opened Tiling
  import opened Rasters
  import opened LargeImages

  datatype Option<T> = None | Some(value: T)

  /** The exceptions a caller of ImageHandler can observe. */
  datatype Error =
    | IncorrectImageId      // IncorrectImageIdException
    | IncorrectImageRegion  // IncorrectImageRegionException
    | RasterFormat          // RasterFormatException, thrown by BufferedImage.getSubimage

  datatype Result<T> = Success(value: T) | Failure(error: Error)

  datatype Outcome = Pass | Fail(error: Error)

  /** `after` is `before` plus parts 0 .. i-1 of a new image id, each a blank raster of the
      part's size. */
  ghost predicate BlankUpTo(before: map<(int, int), Raster>, after: map<(int, int), Raster>,
                            id: int, i: int, width: int, height: int, maxPartWidth: int, partHeight: int)
  {
    && (forall k :: k in after <==> k in before || (k.0 == id && 0 <= k.1 < i))
    && (forall k :: k in before ==> after[k] == before[k])
    && (forall j :: 0 <= j < i ==>
          (id, j) in after && IsBlank(after[(id, j)], PartWidth(width, maxPartWidth), PartHeight(height, partHeight, j)))
  }

  /** Writing blank part i of a new image extends BlankUpTo by one part. */
  lemma BlankUpToStep(before: map<(int, int), Raster>, after: map<(int, int), Raster>, next: map<(int, int), Raster>,
                      id: int, i: int, width: int, height: int, maxPartWidth: int, partHeight: int, part: Raster)
    requires 0 <= i && (id, i) !in before
    requires BlankUpTo(before, after, id, i, width, height, maxPartWidth, partHeight)
    requires IsBlank(part, PartWidth(width, maxPartWidth), PartHeight(height, partHeight, i))
    requires next == after[(id, i) := part]
    ensures BlankUpTo(before, next, id, i + 1, width, height, maxPartWidth, partHeight)
  {
  }

  /** `after` is `before` with parts 0 .. i-1 of image id redrawn: part j with the source
      pasted at (x, y - j * partHeight). */
  ghost predicate PastedUpTo(before: map<(int, int), Raster>, after: map<(int, int), Raster>,
                             id: int, i: int, source: Raster, x: int, y: int, partHeight: int)
  {
    && after.Keys == before.Keys
    && (forall k :: k in after && !(k.0 == id && 0 <= k.1 < i) ==> after[k] == before[k])
    && (forall j :: 0 <= j < i && (id, j) in before ==>
          (id, j) in after && after[(id, j)] == Paste(before[(id, j)], source, x, y - partHeight * j))
  }

  /** Redrawing part i extends PastedUpTo by one part. */
  lemma PastedUpToStep(before: map<(int, int), Raster>, after: map<(int, int), Raster>, next: map<(int, int), Raster>,
                       id: int, i: int, source: Raster, x: int, y: int, partHeight: int)
    requires 0 <= i && (id, i) in after
    requires PastedUpTo(before, after, id, i, source, x, y, partHeight)
    requires next == after[(id, i) := Paste(after[(id, i)], source, x, y - partHeight * i)]
    ensures PastedUpTo(before, next, id, i + 1, source, x, y, partHeight)
  {
  }

  class ImageHandler {
    const maxImagePartWidth: int
    const maxImagePartHeight: int

    /** One slot per id ever handed out; a deleted image leaves None (null) in its slot. */
    var imageList: seq<Option<LargeImage>>

    /** The part files: (id, i) holds part i of image id. */
    var parts: map<(int, int), Raster>

    /** The source's test `imageId >= imageList.size() || imageList.get(imageId) == null`,
        negated, for a non-negative id. */
    predicate Live(id: int)
      reads this
    {
      0 <= id < |imageList| && imageList[id].Some?
    }

    /** The parts a live image owns. */
    ghost predicate IsPartKey(k: (int, int))
      reads this
    {
      Live(k.0) && 0 <= k.1 < imageList[k.0].value.numberOfParts
    }

    ghost function PartWidthOf(id: int): (w: int)
      reads this
      requires Live(id)
    {
      PartWidth(imageList[id].value.imageWidth, maxImagePartWidth)
    }

    ghost function PartHeightOf(id: int, i: int): (h: int)
      reads this
      requires Live(id)
    {
      PartHeight(imageList[id].value.imageHeight, maxImagePartHeight, i)
    }

    /** The object invariant: part sizes are positive (checked by the constructor), every
        stored image is well formed, the part files are exactly those of the live images,
        and each has the width and height createImage gave it. */
    ghost predicate Valid()
      reads this
    {
      && 0 < maxImagePartWidth && 0 < maxImagePartHeight
      && (forall id :: 0 <= id < |imageList| && imageList[id].Some? ==>
            WellFormed(imageList[id].value, maxImagePartHeight))
      && (forall k :: k in parts <==> IsPartKey(k))
      && (forall k :: k in parts ==> IsRaster(parts[k], PartWidthOf(k.0), PartHeightOf(k.0, k.1)))
    }

    /** Pixel (X, Y) of live image id, read from the part that holds row Y. Columns at or
        beyond maxImagePartWidth are not stored in any part, so they have no pixel. */
    ghost function Pixel(id: int, X: int, Y: int): (v: int)
      reads this
      requires Valid() && Live(id)
      requires 0 <= X < PartWidthOf(id) && 0 <= Y < imageList[id].value.imageHeight
    {
      RowLocation(imageList[id].value.imageHeight, maxImagePartHeight, Y);
      parts[(id, Y / maxImagePartHeight)][Y % maxImagePartHeight][X]
    }

    /** Every part file of a live image is a raster of the part's width and height. */
    lemma PartShape(id: int, i: int)
      requires Valid() && Live(id) && 0 <= i < imageList[id].value.numberOfParts
      ensures (id, i) in parts
      ensures IsRaster(parts[(id, i)], PartWidthOf(id), PartHeightOf(id, i))
      ensures Width(parts[(id, i)]) == PartWidthOf(id) && Height(parts[(id, i)]) == PartHeightOf(id, i)
    {
      assert IsPartKey((id, i));
      PartHeightBounds(imageList[id].value.imageHeight, maxImagePartHeight, i);
    }

    /** One pass of getSubImage's loop (lines 78-97). When the copy of `copyHeight` rows of part
        i starting at SourceY fits inside the part and is drawn at output row `offset`, where
        offset + regionY == SourceY + i * H, output rows [offset, offset + copyHeight) become
        the image rows regionY + row and every other output row keeps its value. */
    lemma CopyPartRows(id: int, regionX: int, regionY: int, subImageWidth: int, subImageHeight: int,
                       i: int, offset: int, copyHeight: int, before: Raster)
      requires Valid() && Live(id) && 0 <= i < imageList[id].value.numberOfParts
      requires 0 <= regionY && regionY + subImageHeight <= imageList[id].value.imageHeight
      requires ContainsRect(PartWidthOf(id), PartHeightOf(id, i), regionX, SourceY(regionY, maxImagePartHeight, i),
                            subImageWidth, copyHeight)
      requires offset + regionY == SourceY(regionY, maxImagePartHeight, i) + i * maxImagePartHeight
      requires IsRaster(before, subImageWidth, subImageHeight)
      ensures (id, i) in parts
      ensures IsRaster(parts[(id, i)], Width(parts[(id, i)]), Height(parts[(id, i)]))
      ensures ContainsRect(Width(parts[(id, i)]), Height(parts[(id, i)]), regionX, SourceY(regionY, maxImagePartHeight, i),
                           subImageWidth, copyHeight)
      ensures var after := Paste(before, Crop(parts[(id, i)], regionX, SourceY(regionY, maxImagePartHeight, i),
                                              subImageWidth, copyHeight), 0, offset);
              && IsRaster(after, subImageWidth, subImageHeight)
              && forall row, col :: 0 <= row < subImageHeight && 0 <= col < subImageWidth ==>
                   after[row][col] ==
                     if offset <= row < offset + copyHeight then Pixel(id, regionX + col, regionY + row)
                     else before[row][col]
    {
      var image := imageList[id].value;
      PartShape(id, i);
      var sy := SourceY(regionY, maxImagePartHeight, i);
      var source := Crop(parts[(id, i)], regionX, sy, subImageWidth, copyHeight);
      var after := Paste(before, source, 0, offset);
      forall row, col | 0 <= row < subImageHeight && 0 <= col < subImageWidth && offset <= row < offset + copyHeight
        ensures after[row][col] == Pixel(id, regionX + col, regionY + row)
      {
        CopyRowLocation(image.imageHeight, maxImagePartHeight, regionY, i, offset, copyHeight, row);
        RowLocation(image.imageHeight, maxImagePartHeight, regionY + row);
        assert Covers(source, 0, offset, row, col);
      }
    }

    /** Output rows [0, upto) of `out`, a width x height raster, hold the pixels of image id
        from column regionX and row regionY on. */
    ghost predicate RowsRead(id: int, regionX: int, regionY: int, width: int, height: int, out: Raster, upto: int)
      reads this
      requires Valid() && Live(id)
    {
      && IsRaster(out, width, height)
      && forall row, col :: 0 <= row < upto && row < height && 0 <= col < width ==>
           && 0 <= regionX + col < PartWidthOf(id) && 0 <= regionY + row < imageList[id].value.imageHeight
           && out[row][col] == Pixel(id, regionX + col, regionY + row)
    }

    /** A loop pass of getSubImage extends the rows read: once rows [0, offset) hold the image,
        the copy of part i drawn at `offset` makes rows [0, offset + copyHeight) hold it. */
    lemma RowsReadStep(id: int, regionX: int, regionY: int, subImageWidth: int, subImageHeight: int,
                       i: int, offset: int, copyHeight: int, before: Raster)
      requires Valid() && Live(id) && 0 <= i < imageList[id].value.numberOfParts
      requires 0 <= regionX && 0 <= regionY && regionY + subImageHeight <= imageList[id].value.imageHeight
      requires ContainsRect(PartWidthOf(id), PartHeightOf(id, i), regionX, SourceY(regionY, maxImagePartHeight, i),
                            subImageWidth, copyHeight)
      requires offset + regionY == SourceY(regionY, maxImagePartHeight, i) + i * maxImagePartHeight
      requires RowsRead(id, regionX, regionY, subImageWidth, subImageHeight, before, offset)
      ensures (id, i) in parts
      ensures IsRaster(parts[(id, i)], Width(parts[(id, i)]), Height(parts[(id, i)]))
      ensures ContainsRect(Width(parts[(id, i)]), Height(parts[(id, i)]), regionX, SourceY(regionY, maxImagePartHeight, i),
                           subImageWidth, copyHeight)
      ensures RowsRead(id, regionX, regionY, subImageWidth, subImageHeight,
                       Paste(before, Crop(parts[(id, i)], regionX, SourceY(regionY, maxImagePartHeight, i),
                                          subImageWidth, copyHeight), 0, offset),
                       offset + copyHeight)
    {
      CopyPartRows(id, regionX, regionY, subImageWidth, subImageHeight, i, offset, copyHeight, before);
    }

    /** What getSubImage's loop as written keeps before part i: every earlier read fitted in
        its part, output rows [0, subImageY) hold the image, and subImageY is the output row the
        copy from part i goes to (parts after the first are only reached by an aligned band). */
    ghost predicate ReadLoop(id: int, regionX: int, regionY: int, width: int, height: int,
                             i: int, subImageY: int, subImage: Raster)
      reads this
      requires Valid() && Live(id)
    {
      var image := imageList[id].value;
      var f, l := FirstPart(regionY, maxImagePartHeight), LastPart(regionY, height, maxImagePartHeight);
      && f <= i <= l + 1
      && RowsRead(id, regionX, regionY, width, height, subImage, subImageY)
      && (forall j :: f <= j < i ==>
            PartReadInBounds(image.imageWidth, image.imageHeight, maxImagePartWidth, maxImagePartHeight,
                             regionX, regionY, width, height, j))
      && (f < i ==> regionX + width <= PartWidthOf(id))
      && (i == f ==> subImageY == 0)
      && (f < i <= l ==> regionY == f * maxImagePartHeight && subImageY == i * maxImagePartHeight - regionY)
      && (f < i == l + 1 ==> height <= subImageY)
    }

    /** A pass of the loop as written over part i whose read fits keeps ReadLoop. */
    lemma ReadLoopStep(id: int, regionX: int, regionY: int, width: int, height: int,
                       i: int, subImageY: int, subImage: Raster, nextY: int, next: Raster)
      requires Valid() && Live(id)
      requires 0 <= regionX && 0 <= regionY && 0 < width && 0 < height
      requires regionY + height <= imageList[id].value.imageHeight
      requires ReadLoop(id, regionX, regionY, width, height, i, subImageY, subImage)
      requires i <= LastPart(regionY, height, maxImagePartHeight)
      requires (id, i) in parts && IsRaster(parts[(id, i)], Width(parts[(id, i)]), Height(parts[(id, i)]))
      requires ContainsRect(Width(parts[(id, i)]), Height(parts[(id, i)]), regionX, SourceY(regionY, maxImagePartHeight, i),
                            width, SourceHeight(regionY, height, maxImagePartHeight, i))
      requires nextY == subImageY + SourceHeight(regionY, height, maxImagePartHeight, i)
      requires next == Paste(subImage, Crop(parts[(id, i)], regionX, SourceY(regionY, maxImagePartHeight, i),
                                            width, SourceHeight(regionY, height, maxImagePartHeight, i)), 0, subImageY)
      ensures ReadLoop(id, regionX, regionY, width, height, i + 1, nextY, next)
    {
      var image := imageList[id].value;
      SpanInRange(image.imageHeight, maxImagePartHeight, regionY, height);
      CopyNextOffset(image.imageHeight, maxImagePartHeight, regionY, height, i, subImageY);
      RowsReadStep(id, regionX, regionY, width, height, i, subImageY,
                   SourceHeight(regionY, height, maxImagePartHeight, i), subImage);
    }

    /** What the corrected loop keeps before part i: output rows [0, subImageY) hold the image,
        and subImageY is max(i * H, regionY) - regionY until the loop ends at subImageHeight. */
    ghost predicate FixedReadLoop(id: int, regionX: int, regionY: int, width: int, height: int,
                                  i: int, subImageY: int, subImage: Raster)
      reads this
      requires Valid() && Live(id)
    {
      var f, l := FirstPart(regionY, maxImagePartHeight), LastPart(regionY, height, maxImagePartHeight);
      && f <= i <= l + 1
      && RowsRead(id, regionX, regionY, width, height, subImage, subImageY)
      && (f < i ==> regionX + width <= PartWidthOf(id))
      && (i <= l ==> subImageY == Max(i * maxImagePartHeight, regionY) - regionY)
      && (i == l + 1 ==> subImageY == height)
    }

    /** A pass of the corrected loop over part i whose read fits keeps FixedReadLoop. */
    lemma FixedReadLoopStep(id: int, regionX: int, regionY: int, width: int, height: int,
                            i: int, subImageY: int, subImage: Raster, nextY: int, next: Raster)
      requires Valid() && Live(id)
      requires 0 <= regionX && 0 <= regionY && 0 < width && 0 < height
      requires regionY + height <= imageList[id].value.imageHeight
      requires FixedReadLoop(id, regionX, regionY, width, height, i, subImageY, subImage)
      requires i <= LastPart(regionY, height, maxImagePartHeight)
      requires (id, i) in parts && IsRaster(parts[(id, i)], Width(parts[(id, i)]), Height(parts[(id, i)]))
      requires ContainsRect(Width(parts[(id, i)]), Height(parts[(id, i)]), regionX, SourceY(regionY, maxImagePartHeight, i),
                            width, FixedSourceHeight(regionY, height, maxImagePartHeight, i))
      requires nextY == subImageY + FixedSourceHeight(regionY, height, maxImagePartHeight, i)
      requires next == Paste(subImage, Crop(parts[(id, i)], regionX, SourceY(regionY, maxImagePartHeight, i),
                                            width, FixedSourceHeight(regionY, height, maxImagePartHeight, i)), 0, subImageY)
      ensures FixedReadLoop(id, regionX, regionY, width, height, i + 1, nextY, next)
    {
      var image := imageList[id].value;
      SpanInRange(image.imageHeight, maxImagePartHeight, regionY, height);
      FixedNextOffset(image.imageHeight, maxImagePartHeight, regionY, height, i, subImageY);
      RowsReadStep(id, regionX, regionY, width, height, i, subImageY,
                   FixedSourceHeight(regionY, height, maxImagePartHeight, i), subImage);
    }

    /** A pixel of a part that drawImage has rewritten: the source's pixel where the source
        covers it, the part's earlier pixel elsewhere. */
    lemma PastedPixel(id: int, x: int, y: int, width: int, height: int, source: Raster, before: Raster, X: int, Y: int)
      requires Valid() && Live(id) && IsRaster(source, width, height)
      requires 0 <= X < PartWidthOf(id) && 0 <= Y < imageList[id].value.imageHeight
      requires (id, Y / maxImagePartHeight) in parts
      requires parts[(id, Y / maxImagePartHeight)] ==
                 Paste(before, source, x, y - maxImagePartHeight * (Y / maxImagePartHeight))
      ensures x <= X < x + width && y <= Y < y + height ==> Pixel(id, X, Y) == source[Y - y][X - x]
      ensures !(x <= X < x + width && y <= Y < y + height) ==>
                && Y % maxImagePartHeight < |before| && X < |before[Y % maxImagePartHeight]|
                && Pixel(id, X, Y) == before[Y % maxImagePartHeight][X]
    {
      var i, row := Y / maxImagePartHeight, Y % maxImagePartHeight;
      RowLocation(imageList[id].value.imageHeight, maxImagePartHeight, Y);
      PartShape(id, i);
      var oy := y - maxImagePartHeight * i;
      LocalRowOffset(Y, y, maxImagePartHeight);
      var part := parts[(id, i)];
      assert Pixel(id, X, Y) == part[row][X];
      assert part == Paste(before, source, x, oy);
      PasteAt(before, source, x, oy, row, X);
      CoversRect(source, width, height, x, oy, row, X);
    }

    /** The part of the constructor that survives the model: the two part sizes. The
        working directory and the file extension only name files, which are `parts` here. */
    constructor (maxImagePartWidth: int, maxImagePartHeight: int)
      requires 0 < maxImagePartWidth && 0 < maxImagePartHeight
      ensures Valid()
      ensures this.maxImagePartWidth == maxImagePartWidth && this.maxImagePartHeight == maxImagePartHeight
      ensures imageList == [] && parts == map[]
    {
      this.maxImagePartWidth := maxImagePartWidth;
      this.maxImagePartHeight := maxImagePartHeight;
      imageList := [];
      parts := map[];
    }

    /** createImage: rejects a non-positive size; otherwise writes ceil(height / H) blank
        parts under the next id, appends the image's record and returns that id. */
    method CreateImage(width: int, height: int) returns (r: Result<int>)
      requires Valid()
      modifies this
      ensures Valid()
      ensures width <= 0 || height <= 0 ==>
                r == Failure(IncorrectImageRegion) && imageList == old(imageList) && parts == old(parts)
      ensures 0 < width && 0 < height ==>
                && r == Success(|old(imageList)|)
                && imageList == old(imageList) + [Some(LargeImage(width, height, NumberOfParts(height, maxImagePartHeight)))]
                && (forall k :: k in parts <==>
                      k in old(parts) || (k.0 == r.value && 0 <= k.1 < NumberOfParts(height, maxImagePartHeight)))
                && (forall k :: k in old(parts) ==> parts[k] == old(parts)[k])
                && (forall i :: 0 <= i < NumberOfParts(height, maxImagePartHeight) ==>
                      IsBlank(parts[(r.value, i)], PartWidth(width, maxImagePartWidth),
                              PartHeight(height, maxImagePartHeight, i)))
      ensures 0 < width && 0 < height ==>
                forall X, Y :: 0 <= X < PartWidthOf(r.value) && 0 <= Y < height ==> Pixel(r.value, X, Y) == 0
    {
      if width <= 0 || height <= 0 {
        return Failure(IncorrectImageRegion);
      }

      var imageId := |imageList|;
      var numberOfParts := (height + maxImagePartHeight - 1) / maxImagePartHeight;
      NumberOfPartsIsCeiling(height, maxImagePartHeight);

      var i := 0;
      while i < numberOfParts
        invariant 0 <= i <= numberOfParts
        invariant imageList == old(imageList)
        invariant BlankUpTo(old(parts), parts, imageId, i, width, height, maxImagePartWidth, maxImagePartHeight)
      {
        PartHeightBounds(height, maxImagePartHeight, i);
        assert (imageId, i) !in old(parts);
        ghost var before := parts;
        var imagePartHeight := Min(height - i * maxImagePartHeight, maxImagePartHeight);
        var imagePartWidth := Min(width, maxImagePartWidth);
        parts := parts[(imageId, i) := Blank(imagePartWidth, imagePartHeight)];
        BlankUpToStep(old(parts), before, parts, imageId, i, width, height, maxImagePartWidth, maxImagePartHeight,
                      Blank(imagePartWidth, imagePartHeight));
        i := i + 1;
      }

      imageList := imageList + [Some(LargeImage(width, height, numberOfParts))];
      assert Valid();
      forall X, Y | 0 <= X < PartWidthOf(imageId) && 0 <= Y < height
        ensures Pixel(imageId, X, Y) == 0
      {
        RowLocation(height, maxImagePartHeight, Y);
      }
      return Success(imageId);
    }

    /** Lines 70-97 of getSubImage, for a non-empty visible rectangle inside the image:
        allocates the output buffer and copies into it, part by part, the rows the band covers
        with the per-part height as written. It fails with RasterFormat exactly when one of
        those reads does not fit in its part; otherwise every output pixel is the image's. */
    method ReadParts(imageId: int, regionX: int, regionY: int, subImageWidth: int, subImageHeight: int) returns (r: Result<Raster>)
      requires Valid() && Live(imageId)
      requires 0 <= regionX && 0 <= regionY && 0 < subImageWidth && 0 < subImageHeight
      requires regionY + subImageHeight <= imageList[imageId].value.imageHeight
      ensures r.Success? || r == Failure(RasterFormat)
      ensures r.Success? <==> PartReadsInBounds(imageList[imageId].value.imageWidth, imageList[imageId].value.imageHeight,
                                             maxImagePartWidth, maxImagePartHeight,
                                             regionX, regionY, subImageWidth, subImageHeight)
      ensures r.Success? ==> RowsRead(imageId, regionX, regionY, subImageWidth, subImageHeight, r.value, subImageHeight)
    {
      var image := imageList[imageId].value;
      var subImageY := 0;
      var subImage := Blank(subImageWidth, subImageHeight);
      var partHeight := maxImagePartHeight;
      var firstPartIndex := regionY / partHeight;
      var lastPartIndex := (regionY + subImageHeight - 1) / partHeight;
      SpanInRange(image.imageHeight, partHeight, regionY, subImageHeight);

      var i := firstPartIndex;
      while i <= lastPartIndex
        invariant ReadLoop(imageId, regionX, regionY, subImageWidth, subImageHeight, i, subImageY, subImage)
      {
        var imagePart := parts[(imageId, i)];
        PartShape(imageId, i);

        var sourceSubImageX := regionX;
        var sourceSubImageY := 0;
        if regionY > partHeight * i {
          sourceSubImageY := regionY - partHeight * i;
        }

        var sourceSubImageWidth := subImageWidth;
        var sourceSubImageHeight := partHeight;
        if regionY + subImageHeight - 1 < partHeight * (i + 1) - 1 {
          sourceSubImageHeight := regionY + subImageHeight - partHeight * i;
        }
        assert sourceSubImageY == SourceY(regionY, partHeight, i);
        assert sourceSubImageHeight == SourceHeight(regionY, subImageHeight, partHeight, i);

        if !ContainsRect(Width(imagePart), Height(imagePart), sourceSubImageX, sourceSubImageY,
                         sourceSubImageWidth, sourceSubImageHeight) {
          assert !PartReadInBounds(image.imageWidth, image.imageHeight, maxImagePartWidth, partHeight,
                                   regionX, regionY, subImageWidth, subImageHeight, i);
          return Failure(RasterFormat);
        }
        var sourceSubImage := Crop(imagePart, sourceSubImageX, sourceSubImageY,
                                   sourceSubImageWidth, sourceSubImageHeight);
        ghost var before := subImage;
        subImage := Paste(subImage, sourceSubImage, 0, subImageY);
        ReadLoopStep(imageId, regionX, regionY, subImageWidth, subImageHeight, i, subImageY, before,
                     subImageY + sourceSubImageHeight, subImage);
        subImageY := subImageY + sourceSubImageHeight;
        i := i + 1;
      }

      return Success(subImage);
    }

    /** ReadParts with the evidently intended per-part height, the rows of each part the band
        covers: it fails with RasterFormat exactly when the visible columns go past the part
        width; otherwise every output pixel is the image's. */
    method ReadPartsCorrected(imageId: int, regionX: int, regionY: int, subImageWidth: int, subImageHeight: int) returns (r: Result<Raster>)
      requires Valid() && Live(imageId)
      requires 0 <= regionX && 0 <= regionY && 0 < subImageWidth && 0 < subImageHeight
      requires regionY + subImageHeight <= imageList[imageId].value.imageHeight
      ensures r.Success? || r == Failure(RasterFormat)
      ensures r.Success? <==> regionX + subImageWidth <= PartWidthOf(imageId)
      ensures r.Success? ==> RowsRead(imageId, regionX, regionY, subImageWidth, subImageHeight, r.value, subImageHeight)
    {
      var image := imageList[imageId].value;
      var subImageY := 0;
      var subImage := Blank(subImageWidth, subImageHeight);
      var partHeight := maxImagePartHeight;
      var firstPartIndex := regionY / partHeight;
      var lastPartIndex := (regionY + subImageHeight - 1) / partHeight;
      SpanInRange(image.imageHeight, partHeight, regionY, subImageHeight);
      DivBounds(regionY, partHeight);

      var i := firstPartIndex;
      while i <= lastPartIndex
        invariant FixedReadLoop(imageId, regionX, regionY, subImageWidth, subImageHeight, i, subImageY, subImage)
      {
        var imagePart := parts[(imageId, i)];
        PartShape(imageId, i);

        var sourceSubImageX := regionX;
        var sourceSubImageY := 0;
        if regionY > partHeight * i {
          sourceSubImageY := regionY - partHeight * i;
        }

        var sourceSubImageWidth := subImageWidth;
        var sourceSubImageHeight := partHeight;
        if regionY + subImageHeight - 1 < partHeight * (i + 1) - 1 {
          sourceSubImageHeight := regionY + subImageHeight - partHeight * i;
        }
        sourceSubImageHeight := sourceSubImageHeight - sourceSubImageY;
        assert sourceSubImageY == SourceY(regionY, partHeight, i);
        assert sourceSubImageHeight == FixedSourceHeight(regionY, subImageHeight, partHeight, i);
        FixedPartRead(image.imageHeight, partHeight, regionY, subImageHeight, i);

        if !ContainsRect(Width(imagePart), Height(imagePart), sourceSubImageX, sourceSubImageY,
                         sourceSubImageWidth, sourceSubImageHeight) {
          return Failure(RasterFormat);
        }
        var sourceSubImage := Crop(imagePart, sourceSubImageX, sourceSubImageY,
                                   sourceSubImageWidth, sourceSubImageHeight);
        ghost var before := subImage;
        subImage := Paste(subImage, sourceSubImage, 0, subImageY);
        FixedReadLoopStep(imageId, regionX, regionY, subImageWidth, subImageHeight, i, subImageY, before,
                          subImageY + sourceSubImageHeight, subImage);
        subImageY := subImageY + sourceSubImageHeight;
        i := i + 1;
      }

      return Success(subImage);
    }

    /** getSubImage: clips the request to the image, allocates an output buffer of exactly the
        clipped size and copies into it, part by part, the rows the visible band covers.
        It fails with IncorrectImageId for a dead id, with IncorrectImageRegion when nothing of
        the request is visible, and with RasterFormat when one of the part reads it issues
        does not fit inside its part; otherwise the buffer holds the visible rectangle. */
    method GetSubImage(imageId: int, x: int, y: int, width: int, height: int) returns (r: Result<Raster>)
      requires Valid() && 0 <= imageId
      ensures r == Failure(IncorrectImageId) <==> !Live(imageId)
      ensures Live(imageId) ==>
                var image := imageList[imageId].value;
                var subImageWidth := VisibleLength(image.imageWidth, x, width);
                var subImageHeight := VisibleLength(image.imageHeight, y, height);
                && (r == Failure(IncorrectImageRegion) <==> subImageWidth <= 0 || subImageHeight <= 0)
                && (r == Failure(RasterFormat) <==>
                      && 0 < subImageWidth && 0 < subImageHeight
                      && !PartReadsInBounds(image.imageWidth, image.imageHeight, maxImagePartWidth, maxImagePartHeight,
                                            RegionStart(x), RegionStart(y), subImageWidth, subImageHeight))
                && (r.Success? <==>
                      && 0 < subImageWidth && 0 < subImageHeight
                      && PartReadsInBounds(image.imageWidth, image.imageHeight, maxImagePartWidth, maxImagePartHeight,
                                           RegionStart(x), RegionStart(y), subImageWidth, subImageHeight))
                && (r.Success? ==>
                      && IsRaster(r.value, subImageWidth, subImageHeight)
                      && forall row, col :: 0 <= row < subImageHeight && 0 <= col < subImageWidth ==>
                           r.value[row][col] == Pixel(imageId, RegionStart(x) + col, RegionStart(y) + row))
    {
      if imageId >= |imageList| || imageList[imageId].None? {
        return Failure(IncorrectImageId);
      }

      var regionX := Max(x, 0);
      var regionY := Max(y, 0);
      var regionWidth := Min(width, width + x);
      var regionHeight := Min(height, height + y);

      var image := imageList[imageId].value;
      var subImageWidth := Min(image.imageWidth - regionX, regionWidth);
      var subImageHeight := Min(image.imageHeight - regionY, regionHeight);

      if subImageWidth <= 0 || subImageHeight <= 0 {
        return Failure(IncorrectImageRegion);
      }

      r := ReadParts(imageId, regionX, regionY, subImageWidth, subImageHeight);
    }

    /** getSubImage with the evidently intended per-part height (lines 86-90 minus the local
        offset of lines 82-84). It fails with RasterFormat only when the visible columns go
        past the part width; every visible band, tile-aligned or not, is read. */
    method GetSubImageCorrected(imageId: int, x: int, y: int, width: int, height: int) returns (r: Result<Raster>)
      requires Valid() && 0 <= imageId
      ensures r == Failure(IncorrectImageId) <==> !Live(imageId)
      ensures Live(imageId) ==>
                var image := imageList[imageId].value;
                var subImageWidth := VisibleLength(image.imageWidth, x, width);
                var subImageHeight := VisibleLength(image.imageHeight, y, height);
                && (r == Failure(IncorrectImageRegion) <==> subImageWidth <= 0 || subImageHeight <= 0)
                && (r == Failure(RasterFormat) <==>
                      && 0 < subImageWidth && 0 < subImageHeight
                      && PartWidth(image.imageWidth, maxImagePartWidth) < RegionStart(x) + subImageWidth)
                && (r.Success? <==>
                      && 0 < subImageWidth && 0 < subImageHeight
                      && RegionStart(x) + subImageWidth <= PartWidth(image.imageWidth, maxImagePartWidth))
                && (r.Success? ==>
                      && IsRaster(r.value, subImageWidth, subImageHeight)
                      && forall row, col :: 0 <= row < subImageHeight && 0 <= col < subImageWidth ==>
                           r.value[row][col] == Pixel(imageId, RegionStart(x) + col, RegionStart(y) + row))
    {
      if imageId >= |imageList| || imageList[imageId].None? {
        return Failure(IncorrectImageId);
      }

      var regionX := Max(x, 0);
      var regionY := Max(y, 0);
      var regionWidth := Min(width, width + x);
      var regionHeight := Min(height, height + y);

      var image := imageList[imageId].value;
      var subImageWidth := Min(image.imageWidth - regionX, regionWidth);
      var subImageHeight := Min(image.imageHeight - regionY, regionHeight);

      if subImageWidth <= 0 || subImageHeight <= 0 {
        return Failure(IncorrectImageRegion);
      }

      r := ReadPartsCorrected(imageId, regionX, regionY, subImageWidth, subImageHeight);
    }

    /** Lines 120-129 of drawImage, once the checks have passed: draws the source onto every
        part of image id, part i at (x, y - i * H). The part files keep their names and sizes,
        other images are untouched, every pixel under the source becomes the source's and
        every other pixel keeps its value. */
    method DrawParts(imageId: int, x: int, y: int, width: int, height: int, source: Raster)
      requires Valid() && Live(imageId) && IsRaster(source, width, height)
      modifies this
      ensures Valid()
      ensures imageList == old(imageList)
      ensures parts.Keys == old(parts).Keys
      ensures forall k :: k in parts && k.0 != imageId ==> parts[k] == old(parts)[k]
      ensures forall i :: 0 <= i < imageList[imageId].value.numberOfParts ==>
                parts[(imageId, i)] == Paste(old(parts)[(imageId, i)], source, x, y - maxImagePartHeight * i)
      ensures forall X, Y :: 0 <= X < PartWidthOf(imageId) && 0 <= Y < imageList[imageId].value.imageHeight ==>
                Pixel(imageId, X, Y) ==
                  if x <= X < x + width && y <= Y < y + height then source[Y - y][X - x]
                  else old(Pixel(imageId, X, Y))
    {
      var targetImage := imageList[imageId].value;
      var i := 0;
      while i < targetImage.numberOfParts
        invariant 0 <= i <= targetImage.numberOfParts
        invariant imageList == old(imageList)
        invariant PastedUpTo(old(parts), parts, imageId, i, source, x, y, maxImagePartHeight)
      {
        assert IsPartKey((imageId, i));
        ghost var before := parts;
        var targetImagePart := parts[(imageId, i)];
        var sourceImageX := x;
        var sourceImageY := y - maxImagePartHeight * i;
        parts := parts[(imageId, i) := Paste(targetImagePart, source, sourceImageX, sourceImageY)];
        PastedUpToStep(old(parts), before, parts, imageId, i, source, x, y, maxImagePartHeight);
        i := i + 1;
      }
      assert Valid();

      forall X, Y | 0 <= X < PartWidthOf(imageId) && 0 <= Y < targetImage.imageHeight
        ensures Pixel(imageId, X, Y) ==
                  if x <= X < x + width && y <= Y < y + height then source[Y - y][X - x]
                  else old(Pixel(imageId, X, Y))
      {
        RowLocation(targetImage.imageHeight, maxImagePartHeight, Y);
        PastedPixel(imageId, x, y, width, height, source, old(parts)[(imageId, Y / maxImagePartHeight)], X, Y);
      }
    }

    /** drawImage: checks the id, that the decoded source has the announced size, and that
        the target rectangle is not entirely outside the image (with strict comparisons, as
        written); then draws the source onto every part at (x, y - i * H), clipped to it. */
    method DrawImage(imageId: int, x: int, y: int, width: int, height: int, source: Raster) returns (r: Outcome)
      requires Valid() && 0 <= imageId && IsImage(source)
      modifies this
      ensures Valid()
      ensures imageList == old(imageList)
      ensures r == Fail(IncorrectImageId) <==> !old(Live(imageId))
      ensures old(Live(imageId)) ==>
                var image := imageList[imageId].value;
                r == Fail(IncorrectImageRegion) <==>
                  || Width(source) != width || Height(source) != height
                  || x + width < 0 || y + height < 0 || y >= image.imageHeight || x >= image.imageWidth
      ensures r == if !old(Live(imageId)) then Fail(IncorrectImageId)
                   else if || Width(source) != width || Height(source) != height
                           || x + width < 0 || y + height < 0
                           || y >= imageList[imageId].value.imageHeight || x >= imageList[imageId].value.imageWidth
                   then Fail(IncorrectImageRegion)
                   else Pass
      ensures r.Fail? ==> parts == old(parts)
      ensures r.Pass? ==>
                && parts.Keys == old(parts).Keys
                && (forall k :: k in parts && k.0 != imageId ==> parts[k] == old(parts)[k])
                && (forall i :: 0 <= i < imageList[imageId].value.numberOfParts ==>
                      parts[(imageId, i)] == Paste(old(parts)[(imageId, i)], source, x, y - maxImagePartHeight * i))
      ensures r.Pass? ==>
                forall X, Y :: 0 <= X < PartWidthOf(imageId) && 0 <= Y < imageList[imageId].value.imageHeight ==>
                  Pixel(imageId, X, Y) ==
                    if x <= X < x + width && y <= Y < y + height then source[Y - y][X - x]
                    else old(Pixel(imageId, X, Y))
    {
      if imageId >= |imageList| || imageList[imageId].None? {
        return Fail(IncorrectImageId);
      }

      var targetImage := imageList[imageId].value;
      if Width(source) != width || Height(source) != height {
        return Fail(IncorrectImageRegion);
      }

      if x + width < 0 || y + height < 0 || y >= targetImage.imageHeight || x >= targetImage.imageWidth {
        return Fail(IncorrectImageRegion);
      }

      DrawParts(imageId, x, y, width, height, source);
      return Pass;
    }

    /** deleteImage: removes every part of a live image and leaves null in its slot, so the
        id is never handed out again and every later operation on it fails. */
    method DeleteImage(imageId: int) returns (r: Outcome)
      requires Valid() && 0 <= imageId
      modifies this
      ensures Valid()
      ensures !Live(imageId)
      ensures !old(Live(imageId)) ==>
                r == Fail(IncorrectImageId) && imageList == old(imageList) && parts == old(parts)
      ensures old(Live(imageId)) ==>
                && r == Pass
                && imageList == old(imageList)[imageId := None]
                && parts == map k | k in old(parts) && k.0 != imageId :: old(parts)[k]
    {
      if imageId >= |imageList| || imageList[imageId].None? {
        return Fail(IncorrectImageId);
      }

      parts := map k | k in parts && k.0 != imageId :: parts[k];
      imageList := imageList[imageId := None];
      return Pass;
    }
  }

  /** The source's constructor: it throws IllegalArgumentException for a non-positive part
      size, which is None here. */
  method NewImageHandler(maxImagePartWidth: int, maxImagePartHeight: int) returns (r: Option<ImageHandler>)
    ensures r.None? <==> maxImagePartWidth <= 0 || maxImagePartHeight <= 0
    ensures r.Some? ==>
              && fresh(r.value) && r.value.Valid()
              && r.value.maxImagePartWidth == maxImagePartWidth && r.value.maxImagePartHeight == maxImagePartHeight
              && r.value.imageList == [] && r.value.parts == map[]
  {
    if maxImagePartWidth <= 0 || maxImagePartHeight <= 0 {
      return None;
    }
    var handler := new ImageHandler(maxImagePartWidth, maxImagePartHeight);
    return Some(handler);
  }
}

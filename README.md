# chartographer image store, modelled in Dafny

chartographer keeps very large images ("charts") as horizontal stripes called parts. Each part
is at most `maxImagePartHeight` (H) rows high and at most `maxImagePartWidth` columns wide. Part
`i` of image `id` holds image rows `[i*H, min(i*H + H, height))`: every part is H rows
high except possibly the last. The class `ImageHandler` has four operations:

- `createImage` cuts a new image into blank parts and returns the next id.
- `getSubImage` clips a requested rectangle to the image and copies it out of the parts.
- `drawImage` composites a decoded raster onto every part.
- `deleteImage` removes an image's parts and leaves a null in its registry slot, so an id is
  never reused.

The model has four modules:

- `Tiling` (`tiling.dfy`) is the integer arithmetic of `ImageHandler.java` as pure functions:
  - the part count and part sizes;
  - clipping a request to the image;
  - the first and last part a read touches;
  - the source rectangle read from each part.

  Lemmas prove what this arithmetic guarantees, and exactly where it goes wrong (see Findings).
- `Rasters` (`rasters.dfy`) holds the three `java.awt` operations the handler relies on.
  - `Blank` is a new `BufferedImage` of type `TYPE_INT_RGB`, all pixels 0.
  - `Paste` is `Graphics.drawImage`: the source is drawn at an offset and clipped to the target.
  - `Crop` is `BufferedImage.getSubimage`. It is only defined when the rectangle fits. The
    handler checks the bounds before it calls `Crop`, and a failed check is the error
    `RasterFormat`.
- `LargeImages` (`large_image.dfy`) is the immutable record `LargeImage`, as a datatype.
- `ImageHandlers` (`image_handler.dfy`) is the class `ImageHandler`.
  - `imageList` is a `seq<Option<LargeImage>>`, where `None` is a deleted slot.
  - `parts` is a map from `(id, part index)` to a raster, standing for the part files.
  - `Valid()` is the object invariant: the part sizes are positive, every stored record is the
    one `createImage` builds, and the part files are exactly those of the live images, each
    with its part width and height.
  - `Pixel(id, X, Y)` reads image pixel (X, Y) through the part that holds row Y. Contracts
    about image contents are stated with it.
  - Each operation is a method with the source's loop, branches and error cases. The part
    loops of `getSubImage` and `drawImage` are split out as `ReadParts` and `DrawParts`. The
    outer operations call them once their argument checks have passed.
- `Scenarios` (`scenarios.dfy`) drives a handler through call sequences, each result stated
  as a postcondition. Most follow one of the source's tests. `DrawThenGet` is a general round
  trip over every part-aligned rectangle within the part width. `IdsAreNotReused` is a
  sequence of its own that exercises the id rule of `createImage` and `deleteImage`.

Errors are values. `IncorrectImageIdException`, `IncorrectImageRegionException` and the
`RasterFormatException` that `getSubimage` throws become `Error` values inside a `Result` or
`Outcome`.

Three facts about the code shape the model:

- **Output buffer of a read.** A read returns a buffer of exactly the clipped size, with the
  visible rectangle drawn from x-offset 0. It is not a buffer of the requested size `w × h`
  with the visible part at an offset. `GetSubImage` returns that clipped raster.
- **Locking.** The code has no locking, so the model is sequential.
- **Rows at a part boundary.** When a band does not start on a part boundary, the per-part
  read height is too large (see Findings).

## Model

| member | source | states |
|---|---|---|
| LargeImages.LargeImage | src/main/java/ImageHandler/LargeImage.java:3-17 | The immutable record of one stored image: width, height and number of parts. Its three getters return exactly the constructor's arguments. |
| Tiling.NumberOfParts | src/main/java/ImageHandler/ImageHandler.java:138 | `(height + H - 1) / H`, the part count of an image. It is at least 1 for a positive height; NumberOfPartsIsCeiling proves it is the ceiling. |
| Tiling.PartHeight | src/main/java/ImageHandler/ImageHandler.java:142 | The height `min(height - i*H, H)` of part i: at most H and at most the rows left below part i's top, and equal to one of the two. |
| Tiling.PartWidth | src/main/java/ImageHandler/ImageHandler.java:143 | The part width `min(width, maxImagePartWidth)`: at most the image width and at most the cap. |
| Tiling.RegionStart | src/main/java/ImageHandler/ImageHandler.java:55-56 | The clipped origin `max(p, 0)`: never negative, never left of the request, and equal to the request or to 0. |
| Tiling.VisibleLength | src/main/java/ImageHandler/ImageHandler.java:57-62 | The clipped extent `min(extent - max(p, 0), min(len, len + p))`: the clipped interval ends inside the image and inside the request, and is no longer than the request. |
| Tiling.FirstPart | src/main/java/ImageHandler/ImageHandler.java:74 | `regionY / H`, the index of the part holding the first visible row. SpanInRange and RowLocation state its range. |
| Tiling.LastPart | src/main/java/ImageHandler/ImageHandler.java:75 | `(regionY + subImageHeight - 1) / H`, the index of the part holding the last visible row. SpanInRange states its range. |
| Tiling.SourceY | src/main/java/ImageHandler/ImageHandler.java:80-84 | The first row of part i that is copied, relative to the part's top: `i*H + SourceY == max(regionY, i*H)`. It is never negative. |
| Tiling.SourceHeight | src/main/java/ImageHandler/ImageHandler.java:86-90 | The height read from part i as written: `i*H + SourceHeight == min(regionY + subImageHeight, (i+1)*H)`. It counts from the part's top row, not from SourceY, which is the defect under Findings. |
| Tiling.FixedSourceHeight | src/main/java/ImageHandler/ImageHandler.java:86-90 | The corrected height `SourceHeight - SourceY`: the rows of part i that the band covers. FixedPartRead proves it is in (0, H] and fits the part. |
| Tiling.ContainsRect | src/main/java/ImageHandler/ImageHandler.java:92-93 | The condition under which `getSubimage` does not throw: the rectangle is non-empty and inside the raster. A fitting rectangle is no larger than the raster. |
| Tiling.PartReadsInBounds | src/main/java/ImageHandler/ImageHandler.java:77-93 | Every part read of the loop passes getSubimage's bounds check, so the loop ends without `RasterFormatException`. Passing implies the columns fit the image width and the width cap. |
| ImageHandlers.ImageHandler.Live | src/main/java/ImageHandler/ImageHandler.java:51 | The negation of the id check that opens getSubImage (the id is past the end of imageList, or its slot is null), for a non-negative id. The same check opens drawImage (line 106) and deleteImage (line 154). |
| LargeImages.WellFormedHasParts | src/main/java/ImageHandler/ImageHandler.java:133-138 | A stored record has at least one part, and numberOfParts is the least number of H-row parts that covers its height. |
| Tiling.NumberOfPartsIsCeiling | src/main/java/ImageHandler/ImageHandler.java:138 | `(height + H - 1) / H` is at least 1, and it is ceil(height / H): n-1 parts leave rows over and n parts cover them. |
| Tiling.PartHeightBounds | src/main/java/ImageHandler/ImageHandler.java:141-143 | Every part height `min(height - i*H, H)` is in (0, H]. All parts but the last are full, and the last is `height - i*H` rows high. |
| Tiling.PartHeightsSumPrefix | src/main/java/ImageHandler/ImageHandler.java:141-143 | The first k parts hold exactly min(k*H, height) rows, so the parts are contiguous and do not overlap. |
| Tiling.PartHeightsSumToHeight | src/main/java/ImageHandler/ImageHandler.java:138-143 | The heights of all parts sum to the image height. |
| Tiling.RowLocation | src/main/java/ImageHandler/ImageHandler.java:120-127 | Image row Y lies in part Y / H, which exists, at local row Y % H, which is inside that part. |
| Tiling.VisibleIsIntersection | src/main/java/ImageHandler/ImageHandler.java:55-62 | The clipped interval ends at min(extent, p + len), and it is non-empty exactly when the request and the image overlap. |
| Tiling.SpanInRange | src/main/java/ImageHandler/ImageHandler.java:74-77 | For a non-empty visible band, `0 <= firstPartIndex <= lastPartIndex < numberOfParts`. |
| Tiling.AlignedPartRead | src/main/java/ImageHandler/ImageHandler.java:80-90 | For a band starting on a part boundary, every touched part is read from its row 0 with a height in (0, H] that fits the part. |
| Tiling.AlignedReadsInBounds | src/main/java/ImageHandler/ImageHandler.java:80-93 | A part-aligned read whose columns fit the part width passes every getSubimage bounds check. |
| Tiling.AlignedOffsets | src/main/java/ImageHandler/ImageHandler.java:86-97 | For an aligned band, the copy from part k lands at output row min(k*H, regionY + h) - regionY. The copied heights sum to subImageHeight, so the copies tile the output buffer with no gap and no overlap. |
| Tiling.CopyRowLocation | src/main/java/ImageHandler/ImageHandler.java:92-95 | A copy of part i drawn at the accumulated offset puts image row regionY + row at output row `row`. |
| Tiling.CopyNextOffset | src/main/java/ImageHandler/ImageHandler.java:86-97 | Through the loop as written, while every read fits, subImageY moves to (i+1)*H - regionY after part i. After the last part, every output row has been written. |
| Tiling.UnalignedMultiPartReadFails | src/main/java/ImageHandler/ImageHandler.java:80-93 | As written, a band that does not start on a part boundary and spans two or more parts always fails the bounds check on its first part. |
| Tiling.UnalignedFirstPartRead | src/main/java/ImageHandler/ImageHandler.java:80-90 | For a band starting s > 0 rows into its first part, that part is read from row s, and its height is s + h when the band ends inside the part, else H. |
| Tiling.AsWrittenReadsInBounds | src/main/java/ImageHandler/ImageHandler.java:80-93 | As written, all part reads fit exactly when the columns fit the part width and either regionY % H == 0, or the band ends inside its first part and 2*s + h rows fit in that part. |
| Tiling.InSinglePartTestReadAsWritten | src/test/java/TestImageHandler.java:211-224 | The clipped read `getSubImage(id, 0, 1, 5, 4)` of a 7 x 7 image with 100 x 100 parts passes every getSubimage bounds check. |
| Tiling.InMultiplePartsTestReadAsWritten | src/test/java/TestImageHandler.java:226-239 | The clipped read `getSubImage(id, 0, 8, 5, 4)` of a 7 x 20 image with 10 x 10 parts fails a getSubimage bounds check as written. |
| Tiling.NotWholeTest1ReadAsWritten | src/test/java/TestImageHandler.java:241-254 | The clipped read `getSubImage(id, -2, 8, 5, 4)` of the same image fails a bounds check as written. |
| Tiling.NotWholeTest2ReadAsWritten | src/test/java/TestImageHandler.java:256-269 | The clipped read `getSubImage(id, 5, 8, 5, 4)` of the same image fails a bounds check as written. |
| Tiling.NotWholeTest3ReadAsWritten | src/test/java/TestImageHandler.java:271-284 | The clipped read `getSubImage(id, -2, -2, 5, 4)` of the same image starts on row 0 and passes every bounds check. |
| Tiling.NotWholeTest4ReadAsWritten | src/test/java/TestImageHandler.java:286-299 | The clipped read `getSubImage(id, 4, 18, 5, 4)` of the same image fails a bounds check as written: part 1 is read from row 8 with height 10. |
| Tiling.HttpDrawTestReadAsWritten | src/test/java/TestChartasHttpHandler.java:203-229 | The clipped read `getSubImage(id, -3, 7, 10, 10)` of a 7 x 20 image with 10-row parts fails a getSubimage bounds check as written. |
| Tiling.HttpLargeTestReadAsWritten | src/test/java/TestChartasHttpHandler.java:248-260 | The clipped read `getSubImage(id, 3, 3, 512, 512)` of a 540 x 540 image with 10-row parts fails a getSubimage bounds check as written. |
| Tiling.FixedPartRead | src/main/java/ImageHandler/ImageHandler.java:80-90 | With SourceY subtracted from the height, every touched part of any band, aligned or not, is read inside its bounds with a height in (0, H]. |
| Tiling.FixedOffsets | src/main/java/ImageHandler/ImageHandler.java:86-97 | With the corrected height, the copied heights of any band sum to subImageHeight, and the copy from part k lands at min(max(k*H, regionY), regionY + h) - regionY. |
| Tiling.FixedNextOffset | src/main/java/ImageHandler/ImageHandler.java:86-97 | With the corrected height, the accumulated subImageY is where each copy belongs. After the last part, every output row has been written. |
| Rasters.Blank | src/main/java/ImageHandler/ImageHandler.java:144 | A new part is a raster of the given width and height, all pixels 0. |
| Rasters.Paste | src/main/java/ImageHandler/ImageHandler.java:127 | Drawing keeps the target's dimensions. |
| Rasters.Crop | src/main/java/ImageHandler/ImageHandler.java:92-93 | getSubimage of a rectangle that fits yields a raster of exactly the requested size. |
| ImageHandlers.ImageHandler.PartShape | src/main/java/ImageHandler/ImageHandler.java:141-146 | Every part file of a live image exists and has the width and height createImage gave it. |
| ImageHandlers.ImageHandler.CopyPartRows | src/main/java/ImageHandler/ImageHandler.java:78-95 | One loop pass of getSubImage: the rows it copies become the image pixels of the matching rows, and every other output pixel keeps its value. |
| ImageHandlers.ImageHandler.RowsReadStep | src/main/java/ImageHandler/ImageHandler.java:78-97 | A loop pass of getSubImage extends the output rows that hold the image: if rows [0, offset) already do and the copy from part i fits and is drawn at `offset`, rows [0, offset + copyHeight) do. |
| ImageHandlers.ImageHandler.ReadLoopStep | src/main/java/ImageHandler/ImageHandler.java:77-98 | A pass of the loop as written over part i whose read fits keeps the loop state: all reads so far fitted, subImageY grows by the copied height, and the rows written so far hold the image. |
| ImageHandlers.ImageHandler.FixedReadLoopStep | src/main/java/ImageHandler/ImageHandler.java:77-98 | The same for the corrected loop: subImageY moves on to max((i+1)*H, regionY) - regionY, or to subImageHeight after the last part. |
| ImageHandlers.ImageHandler.ReadParts | src/main/java/ImageHandler/ImageHandler.java:70-98 | For a non-empty visible rectangle inside the image, the copy loop as written fails only with RasterFormat, and fails exactly when some part read does not fit its part. Otherwise every output pixel is the matching image pixel. |
| ImageHandlers.ImageHandler.ReadPartsCorrected | src/main/java/ImageHandler/ImageHandler.java:70-98 | With the corrected part height, the copy loop fails with RasterFormat exactly when the visible columns go past the part width. Otherwise every output pixel is the matching image pixel. |
| ImageHandlers.BlankUpToStep | src/main/java/ImageHandler/ImageHandler.java:141-147 | Writing blank part i of a new image adds exactly the key (id, i) to the part files, with a blank part of the right size, and leaves the earlier files unchanged. |
| ImageHandlers.PastedUpToStep | src/main/java/ImageHandler/ImageHandler.java:120-129 | Redrawing part i of an image replaces only that file, with the source pasted at (x, y - i*H), and leaves the set of part files unchanged. |
| ImageHandlers.ImageHandler.DrawParts | src/main/java/ImageHandler/ImageHandler.java:120-129 | Drawing the source onto every part keeps imageList, the invariant and the set of part files, and leaves other images untouched. Each part i becomes the old part with the source pasted at (x, y - i*H). Every pixel under the source equals the source; every other pixel keeps its value. |
| ImageHandlers.ImageHandler.PastedPixel | src/main/java/ImageHandler/ImageHandler.java:120-127 | After part Y / H is redrawn, image pixel (X, Y) is the source pixel where the source covers it, else the part's earlier pixel. |
| ImageHandlers.ImageHandler.constructor | src/main/java/ImageHandler/ImageHandler.java:32-48 | A new handler is valid, has the given part sizes, and has no images and no part files. |
| ImageHandlers.NewImageHandler | src/main/java/ImageHandler/ImageHandler.java:40-42 | Construction fails exactly when a part size is not positive. Otherwise it returns a fresh, valid, empty handler. |
| ImageHandlers.ImageHandler.CreateImage | src/main/java/ImageHandler/ImageHandler.java:132-151 | A non-positive size fails with IncorrectImageRegion and changes nothing. Otherwise it returns the old imageList size and appends exactly the record (width, height, ceil(height / H)), leaving earlier slots unchanged. The part files become the old ones plus (id, 0..n-1), with the old files unchanged. Each new part is blank at min(width, maxW) x min(height - i*H, H), and every pixel of the new image is 0. The invariant is kept. |
| ImageHandlers.ImageHandler.GetSubImage | src/main/java/ImageHandler/ImageHandler.java:50-103 | Changes nothing. Fails with IncorrectImageId exactly when the id is dead, and with IncorrectImageRegion exactly when a clipped extent is <= 0. Fails with RasterFormat exactly when some part read as written does not fit its part. Otherwise returns a raster of exactly the clipped size whose pixel (row, col) is image pixel (max(x,0) + col, max(y,0) + row). |
| ImageHandlers.ImageHandler.GetSubImageCorrected | src/main/java/ImageHandler/ImageHandler.java:80-97 | getSubImage with the corrected part height. It fails with RasterFormat only when the visible columns go past the part width; otherwise it returns exactly the visible rectangle. |
| ImageHandlers.ImageHandler.DrawImage | src/main/java/ImageHandler/ImageHandler.java:105-130 | Fails with IncorrectImageId exactly when the id is dead. For a live id, fails with IncorrectImageRegion exactly when the decoded size is not (width, height) or x+width<0, y+height<0, y>=height or x>=width, with the comparisons strict as written; otherwise passes. The result is also given in closed form, as one conditional over these checks. A failure changes nothing. A pass keeps imageList, the invariant and the set of part files, leaves other images untouched, and makes each part i the old part with the source pasted at (x, y - i*H). Every pixel under the source equals the source; every other pixel keeps its value. |
| ImageHandlers.ImageHandler.DeleteImage | src/main/java/ImageHandler/ImageHandler.java:153-160 | A dead id fails with IncorrectImageId and changes nothing. A live id passes, its slot becomes None, and the part files become exactly the old files of other images. Either way the id is dead afterwards, and the invariant is kept. |
| Scenarios.DrawThenGet | src/test/java/TestImageHandler.java:301-314 | Drawing a source fully inside the image, at a part boundary and within the part width, then reading the same rectangle returns exactly the source. |
| Scenarios.LargeImageRoundTrip | src/test/java/TestImageHandler.java:301-314 | A 512 x 512 raster drawn at (10, 10) on a 540 x 540 image with 2000 x 10 parts reads back unchanged. |
| Scenarios.EmptySubImage | src/test/java/TestChartasHttpHandler.java:167-178 | Reading the whole of a fresh image that fits the part width returns a blank raster of its size. |
| Scenarios.MultiplePartsCreate | src/test/java/TestImageHandler.java:51-57 | A 10 x 64 image with 10 x 10 parts gets id 0 and exactly the seven part files 0..6. |
| Scenarios.IdsAreNotReused | src/main/java/ImageHandler/ImageHandler.java:137-159 | Three creations return ids 0, 1 and 2. After deleting id 1, the next creation returns 3: ids are never reused. |
| Scenarios.DeleteRemovesParts | src/test/java/TestImageHandler.java:59-65 | Deleting the only image passes and leaves no part files. |
| Scenarios.DeletedImageIsGone | src/test/java/TestChartasHttpHandler.java:187-200 | After a delete, reading, drawing and deleting the id all fail with IncorrectImageId. So does deleting an id never handed out. |
| Scenarios.MultiPartsImage | src/test/java/TestImageHandler.java:227-233 | After creating a 7 x 20 image with 10 x 10 parts and drawing a 3 x 2 source at (1, 9), image pixel (X, Y) is the source pixel under the source and 0 everywhere else. |
| Scenarios.MultiPartsGetSubImage | src/test/java/TestImageHandler.java:226-239 | As written, the test's request fails with RasterFormat. |
| Scenarios.MultiPartsGetSubImageCorrected | src/test/java/TestImageHandler.java:226-239 | With the correction, the same request returns the 5 x 4 rectangle the test expects: the drawn 3 x 2 source at (1, 1), blank pixels around it. |

## Left out

- HTTP transport (`ChartasHttpHandler`), process start-up (`App/Main.java`) and the test
  harnesses are outside the core. The tests serve only as evidence for the scenarios.
- The image codec is out of scope. `drawImage` receives the decoded raster; a decoded image
  is assumed to be non-empty and rectangular (`IsImage`). `getSubImage` returns the raster
  that the source would encode. Reading a stream that is not an image is not modelled: there
  `ImageIO.read` returns null and the source fails with a NullPointerException.
- Files and directories are the map `parts`. The working-directory check, path building,
  the file extension and I/O errors (`IOException`) are not modelled.
- Concurrency: the source has no locking, and the model is sequential.
- Negative ids: the source checks only the upper bound, and a negative id throws
  `IndexOutOfBoundsException` in `ArrayList.get`. Every operation requires `imageId >= 0`.
- Java `int` overflow (for example in `width + x` or `regionY + subImageHeight`) is not
  modelled. All arithmetic is on unbounded integers, as if no sum overflowed. Likewise no raster
  is assumed to exceed int-sized storage: `new BufferedImage` (lines 70-71 and 144) throws
  `IllegalArgumentException` when width times height does not fit a Java `int`, while `Blank`
  always succeeds.
- Pixel values are plain integers. The colour model and the type conversion of
  `Graphics.drawImage` between image types are not modelled.
- The output buffer and the parts are values (`seq<seq<int>>`), not in-place arrays. Each
  `Graphics.drawImage` call is modelled as replacing the whole raster with `Paste`'s result,
  so aliasing between rasters is not captured.
- `LargeBMP.java` is never referenced and is not part of this model.
- The width cap: parts are `min(width, maxImagePartWidth)` wide and there is no second tiling
  dimension. Columns at or beyond the cap are never stored. The model has no pixel for them,
  and a read that reaches them fails with RasterFormat, as in the source.

## Findings

| source | as written | input that shows it | evidently intended | confidence | as-written member | corrected member |
|---|---|---|---|---|---|---|
| src/main/java/ImageHandler/ImageHandler.java:86-90 | The height read from part i is `regionY + subImageHeight - H*i`, or H when the band reaches the part's end, without subtracting the local start row `sourceSubImageY` (lines 82-84). For a band that starts s > 0 rows into a part, the read is s rows too tall, and getSubimage throws `RasterFormatException` whenever s + that height exceeds the part. | Image 7 x 20 with 10 x 10 parts, `getSubImage(id, 0, 8, 5, 4)` (TestImageHandler.java:226-239): part 0 is asked for rows [8, 18) of a 10-row part. The requests (-2,8,5,4), (5,8,5,4) and (4,18,5,4) of the tests at lines 241-299 fail the same way. So do the HTTP tests `drawImageTest` and `consecutiveCallsDrawImageTest` (TestChartasHttpHandler.java:203-229, `getSubImage(id, -3, 7, 10, 10)` with H = 10: the band starts at row 7 and spans parts 0 and 1), and `largeSubImageDrawImageTest` (lines 248-260, `getSubImage(id, 3, 3, 512, 512)`: the band starts at row 3 and spans parts 0 to 51). Those HTTP tests also cannot pass for another reason: the POST handler they create and draw through (ChartasHttpHandler.java:97-99) is empty. So no HTTP test that creates an image can pass (TestChartasHttpHandler.java:72-89 creates by POST), including `getEmptySubImageTest` and `deletedImageSubImageTest`, which `Scenarios.EmptySubImage` and `Scenarios.DeletedImageIsGone` follow. | Read `sourceSubImageHeight - sourceSubImageY` rows from each part. Then every band inside the image reads every touched part within bounds, and the copies tile the output buffer. | not executed | ImageHandlers.ImageHandler.GetSubImage, Tiling.SourceHeight, Tiling.AsWrittenReadsInBounds, Tiling.UnalignedMultiPartReadFails, Tiling.HttpDrawTestReadAsWritten, Tiling.HttpLargeTestReadAsWritten, Tiling.InMultiplePartsTestReadAsWritten, Tiling.NotWholeTest1ReadAsWritten, Tiling.NotWholeTest2ReadAsWritten, Tiling.NotWholeTest4ReadAsWritten, Scenarios.MultiPartsGetSubImage | ImageHandlers.ImageHandler.GetSubImageCorrected, Tiling.FixedSourceHeight, Tiling.FixedPartRead, Tiling.FixedOffsets, Scenarios.MultiPartsGetSubImageCorrected |

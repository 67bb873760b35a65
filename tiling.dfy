/**
 * The integer arithmetic of ImageHandler: how an image of a given height is cut into
 * horizontal parts, how a requested rectangle is clipped to the image, and which part
 * rows a read copies. Everything here is pure; the store in ImageHandlers uses it.
 *
 * Java `int` is modelled by unbounded `int`: sums such as `width + x` never wrap here.
 */
module Tiling {

  function Min(a: int, b: int): (r: int)
  {
    if a <= b then a else b
  }

  function Max(a: int, b: int): (r: int)
  {
    if a >= b then a else b
  }


  /** True when the rectangle (x, y, w, h) is non-empty and lies inside a w0 x h0 raster:
      the condition under which `BufferedImage.getSubimage` does not throw. */
  predicate ContainsRect(w0: int, h0: int, x: int, y: int, w: int, h: int): (fits: bool)
    ensures fits ==> 0 < w <= w0 && 0 < h <= h0
  {
    0 <= x && 0 <= y && 0 < w && 0 < h && x + w <= w0 && y + h <= h0
  }

  // ---------------------------------------------------------------------------
  // Division helpers: the only non-linear facts the proofs below need.

  lemma MulMonotone(a: int, b: int, c: int)
    requires a <= b && 0 <= c
    ensures a * c <= b * c
  {
    assert b * c - a * c == (b - a) * c;
  }

  /** q is the quotient of a by d exactly when a lies in [q*d, q*d + d). */
  lemma DivIsUnique(a: int, d: int, q: int)
    requires 0 < d && q * d <= a < q * d + d
    ensures a / d == q && a % d == a - q * d
  {
    var q' := a / d;
    assert q' * d <= a < q' * d + d;
    if q' < q {
      MulMonotone(q' + 1, q, d);
    } else if q' > q {
      MulMonotone(q + 1, q', d);
    }
  }

  lemma DivBounds(a: int, d: int)
    requires 0 < d
    ensures (a / d) * d <= a < (a / d) * d + d
  {
  }

  lemma MonotoneQuotient(a: int, b: int, d: int)
    requires 0 < d && a <= b
    ensures a / d <= b / d
  {
    DivBounds(a, d);
    DivBounds(b, d);
    if b / d < a / d {
      MulMonotone(b / d + 1, a / d, d);
    }
  }

  // ---------------------------------------------------------------------------
  // Cutting an image into parts (ImageHandler.createImage).

  /** The number of parts of an image of the given height: ceil(height / partHeight). */
  function NumberOfParts(height: int, partHeight: int): (r: int)
    requires 0 < partHeight
    ensures 0 < height ==> 1 <= r
  {
    (height + partHeight - 1) / partHeight
  }

  /** The height of part i: every part is partHeight rows high except the last one. */
  function PartHeight(height: int, partHeight: int, i: int): (r: int)
    ensures r <= partHeight && r <= height - i * partHeight
    ensures r == partHeight || r == height - i * partHeight
  {
    Min(height - i * partHeight, partHeight)
  }

  /** The width of every part: the image width, capped at the configured maximum. */
  function PartWidth(width: int, maxPartWidth: int): (r: int)
    ensures r <= width && r <= maxPartWidth
  {
    Min(width, maxPartWidth)
  }

  /** NumberOfParts is the ceiling of height / partHeight, and is at least one. */
  lemma NumberOfPartsIsCeiling(height: int, partHeight: int)
    requires 0 < height && 0 < partHeight
    ensures 1 <= NumberOfParts(height, partHeight)
    ensures (NumberOfParts(height, partHeight) - 1) * partHeight < height
    ensures height <= NumberOfParts(height, partHeight) * partHeight
  {
    var n := NumberOfParts(height, partHeight);
    DivBounds(height + partHeight - 1, partHeight);
    assert (n - 1) * partHeight == n * partHeight - partHeight;
    if n < 1 {
      MulMonotone(n, 0, partHeight);
    }
  }

  /** Every part has a height in (0, partHeight]; all parts but the last are full. */
  lemma PartHeightBounds(height: int, partHeight: int, i: int)
    requires 0 < height && 0 < partHeight
    requires 0 <= i < NumberOfParts(height, partHeight)
    ensures 0 < PartHeight(height, partHeight, i) <= partHeight
    ensures i < NumberOfParts(height, partHeight) - 1 ==> PartHeight(height, partHeight, i) == partHeight
    ensures i == NumberOfParts(height, partHeight) - 1 ==>
              PartHeight(height, partHeight, i) == height - i * partHeight
  {
    var n := NumberOfParts(height, partHeight);
    NumberOfPartsIsCeiling(height, partHeight);
    MulMonotone(i, n - 1, partHeight);
    if i < n - 1 {
      MulMonotone(i + 1, n - 1, partHeight);
      assert (i + 1) * partHeight == i * partHeight + partHeight;
    } else {
      assert n * partHeight == i * partHeight + partHeight;
    }
  }

  /** The total height of parts 0 .. k-1. */
  function PartHeightsSum(height: int, partHeight: int, k: nat): (r: int)
  {
    if k == 0 then 0 else PartHeightsSum(height, partHeight, k - 1) + PartHeight(height, partHeight, k - 1)
  }

  /** The first k parts cover rows [0, min(k * partHeight, height)); so all parts together
      cover exactly [0, height), contiguously and without overlap. */
  lemma {:induction false} PartHeightsSumPrefix(height: int, partHeight: int, k: nat)
    requires 0 < height && 0 < partHeight
    requires k <= NumberOfParts(height, partHeight)
    ensures PartHeightsSum(height, partHeight, k) == Min(k * partHeight, height)
  {
    var n := NumberOfParts(height, partHeight);
    NumberOfPartsIsCeiling(height, partHeight);
    if k > 0 {
      PartHeightsSumPrefix(height, partHeight, k - 1);
      PartHeightBounds(height, partHeight, k - 1);
      MulMonotone(k - 1, n - 1, partHeight);
      assert k * partHeight == (k - 1) * partHeight + partHeight;
      if k < n {
        MulMonotone(k, n - 1, partHeight);
      }
    }
  }

  /** The part heights of an image sum to its height. */
  lemma PartHeightsSumToHeight(height: int, partHeight: int)
    requires 0 < height && 0 < partHeight
    ensures PartHeightsSum(height, partHeight, NumberOfParts(height, partHeight)) == height
  {
    NumberOfPartsIsCeiling(height, partHeight);
    PartHeightsSumPrefix(height, partHeight, NumberOfParts(height, partHeight));
  }

  /** Row Y of an image lies in part Y / partHeight, at row Y % partHeight of that part. */
  lemma RowLocation(height: int, partHeight: int, Y: int)
    requires 0 < partHeight && 0 <= Y < height
    ensures 0 <= Y / partHeight < NumberOfParts(height, partHeight)
    ensures 0 <= Y % partHeight < PartHeight(height, partHeight, Y / partHeight)
    ensures Y == (Y / partHeight) * partHeight + Y % partHeight
  {
    var q := Y / partHeight;
    DivBounds(Y, partHeight);
    NumberOfPartsIsCeiling(height, partHeight);
    if q >= NumberOfParts(height, partHeight) {
      MulMonotone(NumberOfParts(height, partHeight), q, partHeight);
    }
    if q < 0 {
      MulMonotone(q + 1, 0, partHeight);
    }
  }

  /** Row Y of the image, drawn at y, is source row Y - y; in part Y / H, which the source
      draws at y - H * (Y / H), it is local row Y % H. */
  lemma LocalRowOffset(Y: int, y: int, partHeight: int)
    requires 0 < partHeight
    ensures Y % partHeight - (y - partHeight * (Y / partHeight)) == Y - y
  {
  }

  // ---------------------------------------------------------------------------
  // Clipping a request to the image (ImageHandler.getSubImage, lines 55-62).

  /** The clipped origin of a request along one axis: max(p, 0). */
  function RegionStart(p: int): (r: int)
    ensures 0 <= r && p <= r
    ensures r == p || r == 0
  {
    Max(p, 0)
  }

  /** The clipped length along one axis, computed as the source does:
      min(extent - max(p, 0), min(len, len + p)). */
  function VisibleLength(extent: int, p: int, len: int): (r: int)
    ensures RegionStart(p) + r <= extent && RegionStart(p) + r <= p + len && r <= len
  {
    Min(extent - RegionStart(p), Min(len, len + p))
  }

  /** The clipped interval [RegionStart(p), RegionStart(p) + VisibleLength) is exactly the
      intersection of the requested interval [p, p + len) with the image [0, extent): it
      starts at the larger left end and stops at the smaller right end. */
  lemma VisibleIsIntersection(extent: int, p: int, len: int)
    ensures RegionStart(p) + VisibleLength(extent, p, len) == Min(extent, p + len)
    ensures VisibleLength(extent, p, len) > 0 <==> Max(p, 0) < Min(extent, p + len)
  {
  }

  // ---------------------------------------------------------------------------
  // The parts a read touches and what it copies from each (lines 74-97).

  /** The index of the part that holds row regionY. */
  function FirstPart(regionY: int, partHeight: int): (r: int)
    requires 0 < partHeight
  {
    regionY / partHeight
  }

  /** The index of the part that holds the last visible row, regionY + visibleHeight - 1. */
  function LastPart(regionY: int, visibleHeight: int, partHeight: int): (r: int)
    requires 0 < partHeight
  {
    (regionY + visibleHeight - 1) / partHeight
  }

  /** For a non-empty visible band inside the image, the touched parts form a non-empty
      range of existing part indices. */
  lemma SpanInRange(height: int, partHeight: int, regionY: int, visibleHeight: int)
    requires 0 < partHeight && 0 <= regionY && 0 < visibleHeight && regionY + visibleHeight <= height
    ensures 0 <= FirstPart(regionY, partHeight)
    ensures FirstPart(regionY, partHeight) <= LastPart(regionY, visibleHeight, partHeight)
    ensures LastPart(regionY, visibleHeight, partHeight) < NumberOfParts(height, partHeight)
  {
    RowLocation(height, partHeight, regionY);
    RowLocation(height, partHeight, regionY + visibleHeight - 1);
    MonotoneQuotient(regionY, regionY + visibleHeight - 1, partHeight);
  }

  /** The first row of part i that the source copies (lines 81-84). */
  function SourceY(regionY: int, partHeight: int, i: int): (r: int)
    ensures 0 <= r
    ensures partHeight * i + r == Max(regionY, partHeight * i)
  {
    if regionY > partHeight * i then regionY - partHeight * i else 0
  }

  /** The number of rows the source copies from part i (lines 86-90): the rows from the
      part's top row, not from SourceY, down to the end of the band or of the part. It does
      not subtract SourceY, which is the defect recorded under Findings. */
  function SourceHeight(regionY: int, visibleHeight: int, partHeight: int, i: int): (r: int)
    ensures partHeight * i + r == Min(regionY + visibleHeight, partHeight * (i + 1))
  {
    if regionY + visibleHeight - 1 < partHeight * (i + 1) - 1 then regionY + visibleHeight - partHeight * i
    else partHeight
  }

  /** The bounds check `getSubimage` performs on part i of the visible rectangle. */
  predicate PartReadInBounds(width: int, height: int, maxPartWidth: int, partHeight: int,
                             regionX: int, regionY: int, visibleWidth: int, visibleHeight: int, i: int)
  {
    ContainsRect(PartWidth(width, maxPartWidth), PartHeight(height, partHeight, i),
                 regionX, SourceY(regionY, partHeight, i),
                 visibleWidth, SourceHeight(regionY, visibleHeight, partHeight, i))
  }

  /** Every part read of a request stays inside its part, so the source's loop completes. */
  predicate PartReadsInBounds(width: int, height: int, maxPartWidth: int, partHeight: int,
                              regionX: int, regionY: int, visibleWidth: int, visibleHeight: int): (fits: bool)
    requires 0 < partHeight
    ensures fits ==> regionX + visibleWidth <= width && regionX + visibleWidth <= maxPartWidth
  {
    && regionX + visibleWidth <= PartWidth(width, maxPartWidth)
    && forall i :: FirstPart(regionY, partHeight) <= i <= LastPart(regionY, visibleHeight, partHeight) ==>
         PartReadInBounds(width, height, maxPartWidth, partHeight, regionX, regionY, visibleWidth, visibleHeight, i)
  }

  /** For a band starting on a part boundary, each touched part i is copied from its row 0,
      with a height in (0, partHeight] that fits inside the part. */
  lemma AlignedPartRead(height: int, partHeight: int, regionY: int, visibleHeight: int, i: int)
    requires 0 < partHeight && 0 <= regionY && 0 < visibleHeight && regionY + visibleHeight <= height
    requires regionY % partHeight == 0
    requires FirstPart(regionY, partHeight) <= i <= LastPart(regionY, visibleHeight, partHeight)
    ensures SourceY(regionY, partHeight, i) == 0
    ensures 0 < SourceHeight(regionY, visibleHeight, partHeight, i) <= partHeight
    ensures SourceHeight(regionY, visibleHeight, partHeight, i) <= PartHeight(height, partHeight, i)
    ensures SourceHeight(regionY, visibleHeight, partHeight, i) ==
              Min((i + 1) * partHeight, regionY + visibleHeight) - i * partHeight
  {
    var f, l := FirstPart(regionY, partHeight), LastPart(regionY, visibleHeight, partHeight);
    DivBounds(regionY, partHeight);
    DivBounds(regionY + visibleHeight - 1, partHeight);
    MulMonotone(f, i, partHeight);
    MulMonotone(i, l, partHeight);
    assert partHeight * (i + 1) == i * partHeight + partHeight;
    assert (i + 1) * partHeight == i * partHeight + partHeight;
  }

  /** Where a copy from part i lands. A copy of `copyHeight` rows of part i starting at part
      row SourceY, drawn at output row `offset`, puts image rows in the right place when
      offset + regionY == SourceY + i * partHeight, that is when output row 0 is image row
      regionY. Then, if the copy fits inside part i, output row `row` of it holds image row
      regionY + row, which lies in part i at row SourceY + row - offset. */
  lemma CopyRowLocation(height: int, partHeight: int, regionY: int, i: int, offset: int, copyHeight: int, row: int)
    requires 0 < partHeight
    requires offset + regionY == SourceY(regionY, partHeight, i) + i * partHeight
    requires SourceY(regionY, partHeight, i) + copyHeight <= PartHeight(height, partHeight, i)
    requires offset <= row < offset + copyHeight
    ensures (regionY + row) / partHeight == i
    ensures (regionY + row) % partHeight == SourceY(regionY, partHeight, i) + row - offset
  {
    DivIsUnique(regionY + row, partHeight, i);
  }

  /** The accumulated output row of getSubImage's loop as written, which starts at 0 and
      grows by SourceHeight per part. If every read so far fitted, the copy from part i is
      drawn where CopyRowLocation needs it; the next part starts at (i + 1) * partHeight -
      regionY; and after the last part every output row has been written. */
  lemma CopyNextOffset(height: int, partHeight: int, regionY: int, visibleHeight: int, i: int, offset: int)
    requires 0 < partHeight && 0 <= regionY && 0 < visibleHeight && regionY + visibleHeight <= height
    requires FirstPart(regionY, partHeight) <= i <= LastPart(regionY, visibleHeight, partHeight)
    requires i == FirstPart(regionY, partHeight) ==> offset == 0
    requires i > FirstPart(regionY, partHeight) ==>
               regionY == FirstPart(regionY, partHeight) * partHeight && offset == i * partHeight - regionY
    requires SourceY(regionY, partHeight, i) + SourceHeight(regionY, visibleHeight, partHeight, i)
               <= PartHeight(height, partHeight, i)
    ensures offset + regionY == SourceY(regionY, partHeight, i) + i * partHeight
    ensures i < LastPart(regionY, visibleHeight, partHeight) ==>
              && regionY == FirstPart(regionY, partHeight) * partHeight
              && offset + SourceHeight(regionY, visibleHeight, partHeight, i) == (i + 1) * partHeight - regionY
    ensures i == LastPart(regionY, visibleHeight, partHeight) ==>
              visibleHeight <= offset + SourceHeight(regionY, visibleHeight, partHeight, i)
  {
    var f, l := FirstPart(regionY, partHeight), LastPart(regionY, visibleHeight, partHeight);
    DivBounds(regionY, partHeight);
    DivBounds(regionY + visibleHeight - 1, partHeight);
    MulMonotone(f, i, partHeight);
    assert (i + 1) * partHeight == i * partHeight + partHeight;
    if i < l {
      MulMonotone(i + 1, l, partHeight);
    }
  }

  /** A tile-aligned read whose columns fit the part width never fails its bounds check. */
  lemma AlignedReadsInBounds(width: int, height: int, maxPartWidth: int, partHeight: int,
                             regionX: int, regionY: int, visibleWidth: int, visibleHeight: int)
    requires 0 < partHeight && 0 <= regionY && 0 < visibleHeight && regionY + visibleHeight <= height
    requires 0 <= regionX && 0 < visibleWidth && regionX + visibleWidth <= PartWidth(width, maxPartWidth)
    requires regionY % partHeight == 0
    ensures PartReadsInBounds(width, height, maxPartWidth, partHeight, regionX, regionY, visibleWidth, visibleHeight)
  {
    forall i | FirstPart(regionY, partHeight) <= i <= LastPart(regionY, visibleHeight, partHeight)
      ensures PartReadInBounds(width, height, maxPartWidth, partHeight, regionX, regionY, visibleWidth, visibleHeight, i)
    {
      AlignedPartRead(height, partHeight, regionY, visibleHeight, i);
    }
  }

  /** The total height copied from parts from .. to-1: the output row at which the copy from
      part `to` is drawn (the accumulated subImageY of line 97). */
  function SourceHeightsSum(regionY: int, visibleHeight: int, partHeight: int, from: int, to: int): (r: int)
    decreases to - from
  {
    if to <= from then 0
    else SourceHeightsSum(regionY, visibleHeight, partHeight, from, to - 1) + SourceHeight(regionY, visibleHeight, partHeight, to - 1)
  }

  /** For a tile-aligned band, the copy from part k is drawn at output row k * partHeight - regionY,
      and the copied heights of all touched parts sum to the visible height: the copies
      tile the output buffer exactly, with no gap and no overlap. */
  lemma {:induction false} AlignedOffsets(height: int, partHeight: int, regionY: int, visibleHeight: int, k: int)
    requires 0 < partHeight && 0 <= regionY && 0 < visibleHeight && regionY + visibleHeight <= height
    requires regionY % partHeight == 0
    requires FirstPart(regionY, partHeight) <= k <= LastPart(regionY, visibleHeight, partHeight) + 1
    ensures SourceHeightsSum(regionY, visibleHeight, partHeight, FirstPart(regionY, partHeight), k)
              == Min(k * partHeight, regionY + visibleHeight) - regionY
    ensures k == LastPart(regionY, visibleHeight, partHeight) + 1 ==>
              SourceHeightsSum(regionY, visibleHeight, partHeight, FirstPart(regionY, partHeight), k) == visibleHeight
    decreases k
  {
    var f, l := FirstPart(regionY, partHeight), LastPart(regionY, visibleHeight, partHeight);
    DivBounds(regionY, partHeight);
    DivBounds(regionY + visibleHeight - 1, partHeight);
    if k > f {
      var i := k - 1;
      AlignedOffsets(height, partHeight, regionY, visibleHeight, i);
      AlignedPartRead(height, partHeight, regionY, visibleHeight, i);
      MulMonotone(i, l, partHeight);
      assert Min(i * partHeight, regionY + visibleHeight) == i * partHeight;
      assert (i + 1) * partHeight == k * partHeight == i * partHeight + partHeight;
      assert SourceHeightsSum(regionY, visibleHeight, partHeight, f, k)
             == SourceHeightsSum(regionY, visibleHeight, partHeight, f, i) + SourceHeight(regionY, visibleHeight, partHeight, i);
      if i < l {
        MulMonotone(k, l, partHeight);
      }
    }
  }

  /** As written, a band that does not start on a part boundary and spans two or more parts
      always fails the bounds check of its first part: that copy starts at a row r > 0 of a
      full part and is partHeight rows high. */
  lemma UnalignedMultiPartReadFails(width: int, height: int, maxPartWidth: int, partHeight: int,
                                    regionX: int, regionY: int, visibleWidth: int, visibleHeight: int)
    requires 0 < partHeight && 0 <= regionY && 0 < visibleHeight && regionY + visibleHeight <= height
    requires regionY % partHeight != 0
    requires FirstPart(regionY, partHeight) < LastPart(regionY, visibleHeight, partHeight)
    ensures !PartReadInBounds(width, height, maxPartWidth, partHeight, regionX, regionY, visibleWidth, visibleHeight,
                              FirstPart(regionY, partHeight))
    ensures !PartReadsInBounds(width, height, maxPartWidth, partHeight, regionX, regionY, visibleWidth, visibleHeight)
  {
    var f, l := FirstPart(regionY, partHeight), LastPart(regionY, visibleHeight, partHeight);
    DivBounds(regionY, partHeight);
    DivBounds(regionY + visibleHeight - 1, partHeight);
    MulMonotone(f + 1, l, partHeight);
    assert partHeight * (f + 1) == f * partHeight + partHeight;
  }

  /** What the source copies from the first part of a band that starts s > 0 rows into it:
      from row s, and either s + visibleHeight rows when the band ends inside the part (then
      the band touches that part only) or partHeight rows when it reaches the part's end. */
  lemma UnalignedFirstPartRead(partHeight: int, regionY: int, visibleHeight: int)
    requires 0 < partHeight && 0 <= regionY && 0 < visibleHeight
    requires regionY % partHeight != 0
    ensures SourceY(regionY, partHeight, FirstPart(regionY, partHeight)) == regionY % partHeight
    ensures SourceHeight(regionY, visibleHeight, partHeight, FirstPart(regionY, partHeight)) ==
              if regionY % partHeight + visibleHeight < partHeight then regionY % partHeight + visibleHeight
              else partHeight
    ensures regionY % partHeight + visibleHeight < partHeight ==>
              LastPart(regionY, visibleHeight, partHeight) == FirstPart(regionY, partHeight)
  {
    var f := FirstPart(regionY, partHeight);
    DivIsUnique(regionY, partHeight, f);
    assert partHeight * (f + 1) == f * partHeight + partHeight;
    if regionY % partHeight + visibleHeight < partHeight {
      DivIsUnique(regionY + visibleHeight - 1, partHeight, f);
    }
  }

  /** Exactly when the reads of getSubImage as written all fit: the columns fit the part
      width, and either the band starts on a part boundary, or it starts s = regionY % H rows
      into its first part, ends before that part does, and 2 * s + visibleHeight rows fit in
      the part (the copy starts s rows down and is s rows too tall). */
  lemma AsWrittenReadsInBounds(width: int, height: int, maxPartWidth: int, partHeight: int,
                               regionX: int, regionY: int, visibleWidth: int, visibleHeight: int)
    requires 0 < partHeight && 0 <= regionY && 0 < visibleHeight && regionY + visibleHeight <= height
    requires 0 <= regionX && 0 < visibleWidth
    ensures PartReadsInBounds(width, height, maxPartWidth, partHeight, regionX, regionY, visibleWidth, visibleHeight)
            <==>
            && regionX + visibleWidth <= PartWidth(width, maxPartWidth)
            && (|| regionY % partHeight == 0
                || (&& regionY % partHeight + visibleHeight < partHeight
                    && 2 * (regionY % partHeight) + visibleHeight
                         <= PartHeight(height, partHeight, FirstPart(regionY, partHeight))))
  {
    var f := FirstPart(regionY, partHeight);
    SpanInRange(height, partHeight, regionY, visibleHeight);
    if regionX + visibleWidth <= PartWidth(width, maxPartWidth) && regionY % partHeight == 0 {
      AlignedReadsInBounds(width, height, maxPartWidth, partHeight, regionX, regionY, visibleWidth, visibleHeight);
    } else if regionY % partHeight != 0 {
      UnalignedFirstPartRead(partHeight, regionY, visibleHeight);
      PartHeightBounds(height, partHeight, f);
      assert PartReadsInBounds(width, height, maxPartWidth, partHeight, regionX, regionY, visibleWidth, visibleHeight)
             ==> PartReadInBounds(width, height, maxPartWidth, partHeight, regionX, regionY, visibleWidth, visibleHeight, f);
    }
  }

  /** The read request of `inSinglePartGetSubImageTest`, `getSubImage(id, 0, 1, 5, 4)` on a
      7 x 7 image with 100 x 100 parts. The band lies in the image's only part, so every read fits. */
  lemma InSinglePartTestReadAsWritten()
    ensures PartReadsInBounds(7, 7, 100, 100, RegionStart(0), RegionStart(1),
                              VisibleLength(7, 0, 5), VisibleLength(7, 1, 4))
  {
    var x, y, w, h := RegionStart(0), RegionStart(1), VisibleLength(7, 0, 5), VisibleLength(7, 1, 4);
    assert x == 0 && y == 1 && w == 5 && h == 4;
    AsWrittenReadsInBounds(7, 7, 100, 100, x, y, w, h);
  }

  /** The read request of `inMultiplePartsGetSubImageTest`, `getSubImage(id, 0, 8, 5, 4)` on a
      7 x 20 image with 10 x 10 parts. The band starts at row 8 and spans parts 0 and 1, so as written the read fails on part 0. */
  lemma InMultiplePartsTestReadAsWritten()
    ensures !PartReadsInBounds(7, 20, 10, 10, RegionStart(0), RegionStart(8),
                               VisibleLength(7, 0, 5), VisibleLength(20, 8, 4))
  {
    var x, y, w, h := RegionStart(0), RegionStart(8), VisibleLength(7, 0, 5), VisibleLength(20, 8, 4);
    assert x == 0 && y == 8 && w == 5 && h == 4;
    assert FirstPart(8, 10) == 0 && LastPart(8, 4, 10) == 1;
    UnalignedMultiPartReadFails(7, 20, 10, 10, x, y, w, h);
  }

  /** The read request of `notWholeSubImageTest1`, `getSubImage(id, -2, 8, 5, 4)` on a
      7 x 20 image with 10 x 10 parts. The clipped band starts at row 8 and spans parts 0 and 1, so as written the read fails on part 0. */
  lemma NotWholeTest1ReadAsWritten()
    ensures !PartReadsInBounds(7, 20, 10, 10, RegionStart(-2), RegionStart(8),
                               VisibleLength(7, -2, 5), VisibleLength(20, 8, 4))
  {
    var x, y, w, h := RegionStart(-2), RegionStart(8), VisibleLength(7, -2, 5), VisibleLength(20, 8, 4);
    assert x == 0 && y == 8 && w == 3 && h == 4;
    assert FirstPart(8, 10) == 0 && LastPart(8, 4, 10) == 1;
    UnalignedMultiPartReadFails(7, 20, 10, 10, x, y, w, h);
  }

  /** The read request of `notWholeSubImageTest2`, `getSubImage(id, 5, 8, 5, 4)` on a
      7 x 20 image with 10 x 10 parts. The clipped band starts at row 8 and spans parts 0 and 1, so as written the read fails on part 0. */
  lemma NotWholeTest2ReadAsWritten()
    ensures !PartReadsInBounds(7, 20, 10, 10, RegionStart(5), RegionStart(8),
                               VisibleLength(7, 5, 5), VisibleLength(20, 8, 4))
  {
    var x, y, w, h := RegionStart(5), RegionStart(8), VisibleLength(7, 5, 5), VisibleLength(20, 8, 4);
    assert x == 5 && y == 8 && w == 2 && h == 4;
    assert FirstPart(8, 10) == 0 && LastPart(8, 4, 10) == 1;
    UnalignedMultiPartReadFails(7, 20, 10, 10, x, y, w, h);
  }

  /** The read request of `notWholeSubImageTest3`, `getSubImage(id, -2, -2, 5, 4)` on a
      7 x 20 image with 10 x 10 parts. The clipped band starts on row 0, a part boundary, so every read fits. */
  lemma NotWholeTest3ReadAsWritten()
    ensures PartReadsInBounds(7, 20, 10, 10, RegionStart(-2), RegionStart(-2),
                              VisibleLength(7, -2, 5), VisibleLength(20, -2, 4))
  {
    var x, y, w, h := RegionStart(-2), RegionStart(-2), VisibleLength(7, -2, 5), VisibleLength(20, -2, 4);
    assert x == 0 && y == 0 && w == 3 && h == 2;
    AsWrittenReadsInBounds(7, 20, 10, 10, x, y, w, h);
  }

  /** The read request of `notWholeSubImageTest4`, `getSubImage(id, 4, 18, 5, 4)` on a
      7 x 20 image with 10 x 10 parts. The clipped band covers rows 18 and 19 of part 1, but part 1 is read from row 8 with height 10, so as written the read fails. */
  lemma NotWholeTest4ReadAsWritten()
    ensures !PartReadsInBounds(7, 20, 10, 10, RegionStart(4), RegionStart(18),
                               VisibleLength(7, 4, 5), VisibleLength(20, 18, 4))
  {
    var x, y, w, h := RegionStart(4), RegionStart(18), VisibleLength(7, 4, 5), VisibleLength(20, 18, 4);
    assert x == 4 && y == 18 && w == 3 && h == 2;
    AsWrittenReadsInBounds(7, 20, 10, 10, x, y, w, h);
  }

  /** The read request of the HTTP draw tests, `getSubImage(id, -3, 7, 10, 10)` on a 7 x 20
      image with parts 540 wide and 10 high. The band starts at row 7 and spans parts 0 and 1,
      so as written the read fails on part 0. */
  lemma HttpDrawTestReadAsWritten()
    ensures !PartReadsInBounds(7, 20, 540, 10, RegionStart(-3), RegionStart(7),
                               VisibleLength(7, -3, 10), VisibleLength(20, 7, 10))
  {
    var x, y, w, h := RegionStart(-3), RegionStart(7), VisibleLength(7, -3, 10), VisibleLength(20, 7, 10);
    assert x == 0 && y == 7 && w == 7 && h == 10;
    assert FirstPart(7, 10) == 0 && LastPart(7, 10, 10) == 1;
    UnalignedMultiPartReadFails(7, 20, 540, 10, x, y, w, h);
  }

  /** The read request of the HTTP large-image test, `getSubImage(id, 3, 3, 512, 512)` on a
      540 x 540 image with parts 540 wide and 10 high. The band starts at row 3 and spans
      parts 0 to 51, so as written the read fails on part 0. */
  lemma HttpLargeTestReadAsWritten()
    ensures !PartReadsInBounds(540, 540, 540, 10, RegionStart(3), RegionStart(3),
                               VisibleLength(540, 3, 512), VisibleLength(540, 3, 512))
  {
    var p, len := RegionStart(3), VisibleLength(540, 3, 512);
    assert p == 3 && len == 512;
    assert FirstPart(3, 10) == 0 && LastPart(3, 512, 10) == 51;
    UnalignedMultiPartReadFails(540, 540, 540, 10, p, p, len, len);
  }

  // ---------------------------------------------------------------------------
  // The evidently intended per-part height, which subtracts the local offset.

  /** The copied height of part i with SourceY subtracted: the rows of part i that the
      visible band actually covers. */
  function FixedSourceHeight(regionY: int, visibleHeight: int, partHeight: int, i: int): (r: int)
  {
    SourceHeight(regionY, visibleHeight, partHeight, i) - SourceY(regionY, partHeight, i)
  }

  function FixedSourceHeightsSum(regionY: int, visibleHeight: int, partHeight: int, from: int, to: int): (r: int)
    decreases to - from
  {
    if to <= from then 0
    else FixedSourceHeightsSum(regionY, visibleHeight, partHeight, from, to - 1) + FixedSourceHeight(regionY, visibleHeight, partHeight, to - 1)
  }

  /** With the correction, for ANY band inside the image (aligned or not) every touched part
      is read inside its bounds, with a height in (0, partHeight]. */
  lemma FixedPartRead(height: int, partHeight: int, regionY: int, visibleHeight: int, i: int)
    requires 0 < partHeight && 0 <= regionY && 0 < visibleHeight && regionY + visibleHeight <= height
    requires FirstPart(regionY, partHeight) <= i <= LastPart(regionY, visibleHeight, partHeight)
    ensures 0 <= SourceY(regionY, partHeight, i)
    ensures 0 < FixedSourceHeight(regionY, visibleHeight, partHeight, i) <= partHeight
    ensures SourceY(regionY, partHeight, i) + FixedSourceHeight(regionY, visibleHeight, partHeight, i)
              <= PartHeight(height, partHeight, i)
  {
    var f, l := FirstPart(regionY, partHeight), LastPart(regionY, visibleHeight, partHeight);
    DivBounds(regionY, partHeight);
    DivBounds(regionY + visibleHeight - 1, partHeight);
    MulMonotone(f, i, partHeight);
    MulMonotone(i, l, partHeight);
    assert partHeight * (i + 1) == i * partHeight + partHeight;
    if i > f {
      MulMonotone(f + 1, i, partHeight);
    }
  }

  /** The accumulated output row of the corrected loop, which grows by FixedSourceHeight per
      part: the copy from part i is drawn at max(i * partHeight, regionY) - regionY, which is
      where CopyRowLocation needs it, and after the last part every output row is written. */
  lemma FixedNextOffset(height: int, partHeight: int, regionY: int, visibleHeight: int, i: int, offset: int)
    requires 0 < partHeight && 0 <= regionY && 0 < visibleHeight && regionY + visibleHeight <= height
    requires FirstPart(regionY, partHeight) <= i <= LastPart(regionY, visibleHeight, partHeight)
    requires offset == Max(i * partHeight, regionY) - regionY
    ensures offset + regionY == SourceY(regionY, partHeight, i) + i * partHeight
    ensures i < LastPart(regionY, visibleHeight, partHeight) ==>
              offset + FixedSourceHeight(regionY, visibleHeight, partHeight, i) == Max((i + 1) * partHeight, regionY) - regionY
    ensures i == LastPart(regionY, visibleHeight, partHeight) ==>
              offset + FixedSourceHeight(regionY, visibleHeight, partHeight, i) == visibleHeight
  {
    var f, l := FirstPart(regionY, partHeight), LastPart(regionY, visibleHeight, partHeight);
    DivBounds(regionY, partHeight);
    DivBounds(regionY + visibleHeight - 1, partHeight);
    assert (i + 1) * partHeight == i * partHeight + partHeight;
    if i < l {
      MulMonotone(i + 1, l, partHeight);
    }
  }

  /** With the correction, the copy from part k is drawn at output row
      min(max(k * partHeight, regionY), regionY + visibleHeight) - regionY, and the copied
      heights of all touched parts sum to the visible height, for any band. */
  lemma {:induction false} FixedOffsets(height: int, partHeight: int, regionY: int, visibleHeight: int, k: int)
    requires 0 < partHeight && 0 <= regionY && 0 < visibleHeight && regionY + visibleHeight <= height
    requires FirstPart(regionY, partHeight) <= k <= LastPart(regionY, visibleHeight, partHeight) + 1
    ensures FixedSourceHeightsSum(regionY, visibleHeight, partHeight, FirstPart(regionY, partHeight), k)
              == Min(Max(k * partHeight, regionY), regionY + visibleHeight) - regionY
    ensures k == LastPart(regionY, visibleHeight, partHeight) + 1 ==>
              FixedSourceHeightsSum(regionY, visibleHeight, partHeight, FirstPart(regionY, partHeight), k) == visibleHeight
    decreases k
  {
    var f, l := FirstPart(regionY, partHeight), LastPart(regionY, visibleHeight, partHeight);
    DivBounds(regionY, partHeight);
    DivBounds(regionY + visibleHeight - 1, partHeight);
    if k > f {
      var i := k - 1;
      FixedOffsets(height, partHeight, regionY, visibleHeight, i);
      MulMonotone(i, l, partHeight);
      FixedNextOffset(height, partHeight, regionY, visibleHeight, i, Max(i * partHeight, regionY) - regionY);
      assert k * partHeight == i * partHeight + partHeight;
      if i < l {
        MulMonotone(k, l, partHeight);
      }
    }
  }
}

/**
 * LargeImage: the metadata of one stored image. All three fields are final in the source,
 * so it is a datatype here; its getters are the datatype's destructors and return exactly
 * the constructor's arguments.
 */
module LargeImages {
  import opened Tiling

  datatype LargeImage = LargeImage(imageWidth: int, imageHeight: int, numberOfParts: int)

  /** The shape every stored image has: the only place a LargeImage is built
      (ImageHandler.createImage) checks both sizes are positive and passes
      ceil(height / partHeight) as the part count. */
  predicate WellFormed(image: LargeImage, partHeight: int)
    requires 0 < partHeight
  {
    && 0 < image.imageWidth
    && 0 < image.imageHeight
    && image.numberOfParts == NumberOfParts(image.imageHeight, partHeight)
  }

  /** A well-formed image has at least one part, and its parts are exactly enough
      to hold its rows: numberOfParts - 1 full parts leave some rows over. */
  lemma WellFormedHasParts(image: LargeImage, partHeight: int)
    requires 0 < partHeight && WellFormed(image, partHeight)
    ensures 1 <= image.numberOfParts
    ensures (image.numberOfParts - 1) * partHeight < image.imageHeight <= image.numberOfParts * partHeight
  {
    NumberOfPartsIsCeiling(image.imageHeight, partHeight);
  }
}

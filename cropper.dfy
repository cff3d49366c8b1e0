/**
  Padding the bounding box of the table outline before it is cut out of the photo: the box
  grows by `padding` pixels on every side, clamped to the image.
*/
module Cropper {
  import opened Geometry

  function Max(a: int, b: int): int { if a >= b then a else b }
  function Min(a: int, b: int): int { if a <= b then a else b }

  /** The box lies inside an image of the given size. */
  predicate InsideImage(box: Box, imageWidth: int, imageHeight: int) {
    0 <= box.x && 0 <= box.y && box.x + box.w <= imageWidth && box.y + box.h <= imageHeight
  }

  /** `a` contains `b`. */
  predicate Contains(a: Box, b: Box) {
    a.x <= b.x && a.y <= b.y && b.x + b.w <= a.x + a.w && b.y + b.h <= a.y + a.h
  }

  /**
    The padded box: its corner moves `padding` up and left but not past the image's origin,
    and its size grows by twice the padding but not past the image's right and bottom edges.
  */
  function ApplyPadding(imageWidth: int, imageHeight: int, box: Box, padding: int): (r: Box)
    ensures r.x >= 0 && r.y >= 0
    ensures r.x + r.w <= imageWidth && r.y + r.h <= imageHeight
    ensures r.w <= box.w + 2 * padding && r.h <= box.h + 2 * padding
  {
    var x := Max(0, box.x - padding);
    var y := Max(0, box.y - padding);
    Box(x, y, Min(imageWidth - x, box.w + 2 * padding), Min(imageHeight - y, box.h + 2 * padding))
  }

  /** A box inside the image, padded by a non-negative amount, still contains the box and stays inside the image. */
  lemma PaddingContainsBox(imageWidth: int, imageHeight: int, box: Box, padding: int)
    requires InsideImage(box, imageWidth, imageHeight) && padding >= 0
    ensures Contains(ApplyPadding(imageWidth, imageHeight, box, padding), box)
    ensures InsideImage(ApplyPadding(imageWidth, imageHeight, box, padding), imageWidth, imageHeight)
  {
  }

  /** Where the image leaves room, each side moves out by exactly the padding. */
  lemma PaddingWithRoom(imageWidth: int, imageHeight: int, box: Box, padding: int)
    requires padding <= box.x && padding <= box.y
    requires box.x + box.w + padding <= imageWidth && box.y + box.h + padding <= imageHeight
    ensures ApplyPadding(imageWidth, imageHeight, box, padding)
      == Box(box.x - padding, box.y - padding, box.w + 2 * padding, box.h + 2 * padding)
  {
  }

  /** Padding by zero leaves a box inside the image as it is. */
  lemma ZeroPaddingIsIdentity(imageWidth: int, imageHeight: int, box: Box)
    requires InsideImage(box, imageWidth, imageHeight)
    ensures ApplyPadding(imageWidth, imageHeight, box, 0) == box
  {
  }

  /** Padding twice is the same as padding once by the sum, for boxes inside the image and non-negative paddings. */
  lemma PaddingTwice(imageWidth: int, imageHeight: int, box: Box, p: int, q: int)
    requires InsideImage(box, imageWidth, imageHeight) && p >= 0 && q >= 0
    ensures ApplyPadding(imageWidth, imageHeight, ApplyPadding(imageWidth, imageHeight, box, p), q)
      == ApplyPadding(imageWidth, imageHeight, box, p + q)
  {
  }
}

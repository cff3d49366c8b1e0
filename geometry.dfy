/** Integer pixel geometry shared by every stage: origin top-left, y grows downward. */
module Geometry {

  /** A box as the pipeline passes it around: (x1, y1, x2, y2). */
  datatype Rect = Rect(x1: int, y1: int, x2: int, y2: int)

  /** A bounding box as the contour detector reports it: (x, y, w, h). */
  datatype Box = Box(x: int, y: int, w: int, h: int)

  /** (x, y, w, h) -> (x, y, x + w, y + h), the conversion every line detector applies. */
  function BoxToRect(b: Box): Rect {
    Rect(b.x, b.y, b.x + b.w, b.y + b.h)
  }

  /** Sort keys used by the line detectors: the top y and the left x. */
  function Top(r: Rect): int {
    r.y1
  }

  function Left(r: Rect): int {
    r.x1
  }

  /** A row band (top, bottom) or a column band (left, right). */
  type Band = (int, int)

  predicate NonDegenerate(r: Rect) {
    r.x1 < r.x2 && r.y1 < r.y2
  }
}

/** Integer geometry of the text-zone search: frames, rectangles, the
    geometric acceptance test, the 3% padding and the sub-matrix range check.

    `zoneOut` computes the acceptance test and the padding in floating
    point. Every quantity here is an image coordinate, so the model uses the
    exact integer forms of those float expressions; `FloatQuotient` below
    models the IEEE division `zoneOut` performs, and `AcceptsIsFloatTest`
    proves the integer test equal to it. */
module Geometry {

  /** An axis-aligned integer rectangle, as the image library's `Rect`:
      top-left corner `(x, y)` and extents `width`, `height`. */
  datatype Rect = Rect(x: int, y: int, width: int, height: int)

  /** A bounding rectangle of a contour found in the frame: it never has a
      negative coordinate or extent. */
  type Box = r: Rect | r.x >= 0 && r.y >= 0 && r.width >= 0 && r.height >= 0
    witness Rect(0, 0, 0, 0)

  /** Frame dimensions: `rows` is the frame's height, `cols` its width. */
  datatype Frame = Frame(rows: nat, cols: nat)

  /** `outer` covers every pixel of `inner`. */
  predicate Contains(outer: Rect, inner: Rect) {
    && outer.x <= inner.x
    && inner.x + inner.width <= outer.x + outer.width
    && outer.y <= inner.y
    && inner.y + inner.height <= outer.y + outer.height
  }

  // ---------------------------------------------------------------------
  // Acceptance test
  // ---------------------------------------------------------------------

  /** The aspect-ratio half of the test, `width / (float)height > 5`. */
  predicate AspectOk(b: Box) {
    b.width > 5 * b.height
  }

  /** The coverage half of the test, `width / (float)frameRows > 0.75`.
      The divisor is the frame's row count (its height), as `zoneOut` has it. */
  predicate CoverageOk(b: Box, f: Frame) {
    4 * b.width > 3 * f.rows
  }

  /** The geometric acceptance test for a zone candidate. */
  predicate Accepts(b: Box, f: Frame) {
    AspectOk(b) && CoverageOk(b, f)
  }

  /** The value of an IEEE division of two non-negative integers: a finite
      quotient, positive infinity (`n / 0` with `n > 0`) or NaN (`0 / 0`). */
  datatype FloatQuotient = Finite(value: real) | PosInfinity | NaN

  function Divide(n: nat, d: nat): (q: FloatQuotient)
    ensures q.Finite? <==> d > 0
    ensures q.Finite? ==> q.value * (d as real) == n as real
    ensures q.PosInfinity? <==> d == 0 && n > 0
  {
    if d > 0 then Finite((n as real) / (d as real))
    else if n > 0 then PosInfinity
    else NaN
  }

  /** IEEE `q > c`: infinity exceeds every finite bound, NaN exceeds none. */
  predicate GreaterThan(q: FloatQuotient, c: real) {
    match q
    case Finite(v) => v > c
    case PosInfinity => true
    case NaN => false
  }

  /** For `d > 0`, `n / d > c` holds exactly when `n > c * d`. */
  lemma QuotientAbove(n: nat, d: nat, c: real)
    requires d > 0
    ensures GreaterThan(Divide(n, d), c) <==> (n as real) > c * (d as real)
  {
    var q := (n as real) / (d as real);
    assert q * (d as real) == n as real;
    if q > c {
      assert q * (d as real) > c * (d as real);
    } else {
      assert q * (d as real) <= c * (d as real);
    }
  }

  /** The integer acceptance test is `zoneOut`'s floating-point test
      `width / height > 5 && width / rows > 0.75`, read with IEEE semantics
      for a zero divisor. (Rounding of the float quotient is not modelled:
      for coordinates below 2^22 it cannot move a quotient across 5 or 0.75.) */
  lemma AcceptsIsFloatTest(b: Box, f: Frame)
    ensures Accepts(b, f) <==>
      GreaterThan(Divide(b.width, b.height), 5.0) && GreaterThan(Divide(b.width, f.rows), 0.75)
  {
    if b.height > 0 {
      QuotientAbove(b.width, b.height, 5.0);
    }
    if f.rows > 0 {
      QuotientAbove(b.width, f.rows, 0.75);
    }
  }

  /** A box exactly at ratio 5, or exactly at coverage 0.75, is rejected:
      both comparisons are strict. */
  lemma BoundaryRejected(b: Box, f: Frame)
    requires b.width == 5 * b.height || 4 * b.width == 3 * f.rows
    ensures !Accepts(b, f)
  {
  }

  // ---------------------------------------------------------------------
  // Padding
  // ---------------------------------------------------------------------

  /** `(int)(n * 0.03)` for a non-negative `n`: the largest integer whose
      hundredfold does not exceed `3 * n`. */
  function ThreePercent(n: nat): (m: nat)
    ensures 100 * m <= 3 * n < 100 * (m + 1)
  {
    n * 3 / 100
  }

  /** The truncated 3% is zero exactly for `n` below 34. */
  lemma ThreePercentZero(n: nat)
    ensures ThreePercent(n) == 0 <==> n < 34
  {
  }

  /** The truncated 3% never decreases as `n` grows. */
  lemma ThreePercentMonotone(n: nat, n': nat)
    requires n <= n'
    ensures ThreePercent(n) <= ThreePercent(n')
  {
    var m, m' := ThreePercent(n), ThreePercent(n');
    assert 100 * m <= 3 * n <= 3 * n' < 100 * (m' + 1);
  }

  /** Horizontal margin: 3% of the box's right edge. */
  function PadX(b: Box): (px: nat)
    ensures 100 * px <= 3 * (b.x + b.width) < 100 * (px + 1)
  {
    ThreePercent(b.x + b.width)
  }

  /** Vertical margin: 3% of the box's bottom edge. */
  function PadY(b: Box): (py: nat)
    ensures 100 * py <= 3 * (b.y + b.height) < 100 * (py + 1)
  {
    ThreePercent(b.y + b.height)
  }

  /** The box grown by `PadX` on the left and right and by `PadY` on the
      top and bottom, re-growing what the erosions took away. The result
      may reach outside the frame: nothing clamps it. */
  function Padded(b: Box): (p: Rect)
    ensures Contains(p, b)
    // equal margins on opposite sides, so the centre does not move
    ensures b.x - p.x == (p.x + p.width) - (b.x + b.width) == PadX(b)
    ensures b.y - p.y == (p.y + p.height) - (b.y + b.height) == PadY(b)
    ensures 2 * p.x + p.width == 2 * b.x + b.width
    ensures 2 * p.y + p.height == 2 * b.y + b.height
  {
    var px, py := PadX(b), PadY(b);
    Rect(b.x - px, b.y - py, b.width + 2 * px, b.height + 2 * py)
  }

  /** The far edges of the padded box sit exactly one margin beyond the
      original far edges. */
  lemma PaddedFarEdges(b: Box)
    ensures Padded(b).x + Padded(b).width == b.x + b.width + PadX(b)
    ensures Padded(b).y + Padded(b).height == b.y + b.height + PadY(b)
  {
  }

  // ---------------------------------------------------------------------
  // Sub-matrix extraction
  // ---------------------------------------------------------------------

  /** The range check of a sub-matrix request: rows `[y, y + height)` and
      columns `[x, x + width)` must be well-ordered and lie in the frame.
      A request that fails it raises an exception. */
  predicate InFrame(r: Rect, f: Frame) {
    && 0 <= r.x && 0 <= r.width && r.x + r.width <= f.cols
    && 0 <= r.y && 0 <= r.height && r.y + r.height <= f.rows
  }

  /** The padded box passes the range check exactly when each margin fits
      between the original box and the matching frame edge. */
  lemma PaddedInFrameIff(b: Box, f: Frame)
    ensures InFrame(Padded(b), f) <==>
      && PadX(b) <= b.x && b.x + b.width + PadX(b) <= f.cols
      && PadY(b) <= b.y && b.y + b.height + PadY(b) <= f.rows
  {
  }

  /** A box whose left edge is closer to the frame edge than its horizontal
      margin cannot be cropped; in particular every box at `x == 0` whose
      width is at least 34. */
  lemma LeftMarginOutOfFrame(b: Box, f: Frame)
    requires b.x < PadX(b) || (b.x == 0 && b.width >= 34)
    ensures !InFrame(Padded(b), f)
  {
    if b.x == 0 && b.width >= 34 {
      ThreePercentZero(b.x + b.width);
    }
  }

  /** An image matrix reduced to its dimensions. */
  datatype Mat = Mat(rows: nat, cols: nat) {
    /** A matrix with no element. */
    predicate Empty() {
      rows * cols == 0
    }
  }

  /** `original.submat(rows, cols).copyTo(roi)` with the exception swallowed:
      the copy of the requested region when the range check passes, and
      otherwise the fresh, empty `roi` that `zoneOut` allocated beforehand.
      Copying an empty region releases `roi`, leaving it empty too. */
  function CropInto(f: Frame, r: Rect): (roi: Mat)
    ensures !roi.Empty() <==> InFrame(r, f) && r.width > 0 && r.height > 0
    ensures !roi.Empty() ==> roi.rows == r.height && roi.cols == r.width
  {
    if InFrame(r, f) && r.width > 0 && r.height > 0 then Mat(r.height, r.width)
    else Mat(0, 0)
  }
}

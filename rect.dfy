/** Axis-aligned integer rectangles with the overlap test of the rendering library's Rect type. */
module Rects {

  /** A rectangle given by its top-left corner and its (non-negative) size; it covers the half-open
      ranges [left, left + width) and [top, top + height). */
  datatype Rect = Rect(left: int, top: int, width: nat, height: nat)

  function Right(r: Rect): int { r.left + r.width }
  function Bottom(r: Rect): int { r.top + r.height }

  /** The pixel (px, py) lies inside r. */
  predicate Contains(r: Rect, px: int, py: int) {
    r.left <= px < Right(r) && r.top <= py < Bottom(r)
  }

  /** colliderect: a rectangle of zero width or height never collides; otherwise the half-open
      ranges must overlap on both axes, so rectangles whose edges only touch do not collide. */
  predicate CollideRect(a: Rect, b: Rect) {
    a.width != 0 && a.height != 0 && b.width != 0 && b.height != 0 &&
    a.left < Right(b) && b.left < Right(a) &&
    a.top < Bottom(b) && b.top < Bottom(a)
  }

  /** Collision does not depend on which rectangle asks. */
  lemma CollideSymmetric(a: Rect, b: Rect)
    ensures CollideRect(a, b) <==> CollideRect(b, a)
  {
  }

  /** Two rectangles collide exactly when they share a pixel. */
  lemma CollideIffSharedPixel(a: Rect, b: Rect)
    ensures CollideRect(a, b) <==> exists px, py :: Contains(a, px, py) && Contains(b, px, py)
  {
    if CollideRect(a, b) {
      var px := if a.left <= b.left then b.left else a.left;
      var py := if a.top <= b.top then b.top else a.top;
      assert Contains(a, px, py) && Contains(b, px, py);
    }
  }

  /** Rectangles that only touch along an edge, vertical or horizontal, do not collide. */
  lemma TouchingEdgesDoNotCollide(a: Rect, b: Rect)
    requires Right(a) == b.left || Right(b) == a.left || Bottom(a) == b.top || Bottom(b) == a.top
    ensures !CollideRect(a, b)
  {
  }
}

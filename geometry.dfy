/**
  * Axis-aligned rectangles as used by the quadtree (quadtree/src/utils.rs).
  * Coordinates are exact reals; the origin is the top-left corner of the
  * world and y grows downward, so `min` is a box's top-left corner and `max`
  * its bottom-right corner.
  */
module Geometry {

  /** A point or offset in the plane. */
  datatype Vec2 = Vec2(x: real, y: real)

  /** `BoundingBox::build(min, max)` is this datatype's constructor. */
  datatype BoundingBox = BoundingBox(min: Vec2, max: Vec2)
  {
    /** The vertical extent: walking `h` down from the top edge reaches the bottom edge. */
    function Height(): (h: real)
      ensures min.y + h == max.y
      ensures h > 0.0 <==> min.y < max.y
    {
      max.y - min.y
    }

    /** The horizontal extent: walking `w` right from the left edge reaches the right edge. */
    function Width(): (w: real)
      ensures min.x + w == max.x
      ensures w > 0.0 <==> min.x < max.x
    {
      max.x - min.x
    }

    /**
      * Strict containment: `p` lies in the open interior of the box. A point
      * on any of the four edges is not contained, and a box without area
      * contains nothing.
      */
    predicate Contains(p: Vec2)
      ensures p.x == min.x || p.x == max.x || p.y == min.y || p.y == max.y ==> !Contains(p)
      ensures Contains(p) ==> Width() > 0.0 && Height() > 0.0
    {
      min.x < p.x && min.y < p.y && max.x > p.x && max.y > p.y
    }

    /**
      * Strict overlap of two boxes: boxes that only share an edge (or a
      * corner) do not overlap.
      */
    predicate Overlaps(other: BoundingBox)
      ensures max.x == other.min.x || min.x == other.max.x ==> !Overlaps(other)
      ensures max.y == other.min.y || min.y == other.max.y ==> !Overlaps(other)
    {
      max.x > other.min.x
      && min.x < other.max.x
      && max.y > other.min.y
      && min.y < other.max.y
    }

    /** The midpoint of `min` and `max`: equally far from opposite edges. */
    function Center(): (c: Vec2)
      ensures c.x - min.x == max.x - c.x
      ensures c.y - min.y == max.y - c.y
    {
      Vec2((min.x + max.x) / 2.0, (min.y + max.y) / 2.0)
    }

    /** `inner`'s edges lie on or within this box's edges. */
    predicate Encloses(inner: BoundingBox)
    {
      min.x <= inner.min.x && inner.max.x <= max.x
      && min.y <= inner.min.y && inner.max.y <= max.y
    }

    /**
      * The four quadrants obtained by cutting the box at its center, in the
      * fixed order right-top, left-top, left-bottom, right-bottom (the unit
      * circle's quadrants I to IV, with y growing downward). Each has half
      * the parent's width and height, and when the parent is well formed
      * each lies inside it.
      */
    function SplitQuadrants(): (q: seq<BoundingBox>)
      ensures |q| == 4
      ensures forall i :: 0 <= i < 4 ==> 2.0 * q[i].Width() == Width() && 2.0 * q[i].Height() == Height()
      ensures min.x <= max.x && min.y <= max.y ==> forall i :: 0 <= i < 4 ==> Encloses(q[i])
    {
      var c := Center();
      [ BoundingBox(Vec2(c.x, min.y), Vec2(max.x, c.y)),
        BoundingBox(min, c),
        BoundingBox(Vec2(min.x, c.y), Vec2(c.x, max.y)),
        BoundingBox(c, max) ]
    }
  }

  /** Overlap does not depend on which box asks. */
  lemma OverlapsSymmetric(a: BoundingBox, b: BoundingBox)
    ensures a.Overlaps(b) <==> b.Overlaps(a)
  {
  }

  /**
    * Two boxes that strictly contain a common point overlap; hence a subtree
    * whose bounds miss a query range holds no point of that range.
    */
  lemma CommonPointOverlap(a: BoundingBox, b: BoundingBox, p: Vec2)
    requires a.Contains(p) && b.Contains(p)
    ensures a.Overlaps(b)
  {
  }

  /** No two of the four quadrants overlap, whatever the parent box. */
  lemma QuadrantsDisjoint(b: BoundingBox)
    ensures forall i, j :: 0 <= i < 4 && 0 <= j < 4 && i != j ==>
      !b.SplitQuadrants()[i].Overlaps(b.SplitQuadrants()[j])
  {
  }

  /** A point strictly inside a quadrant is strictly inside the parent. */
  lemma QuadrantInParent(b: BoundingBox, i: int, p: Vec2)
    requires 0 <= i < 4 && b.SplitQuadrants()[i].Contains(p)
    ensures b.Contains(p)
  {
  }

  /**
    * Which quadrant holds a point of the parent is decided by the point's
    * side of the two center lines: quadrant 0 is right of and above the
    * center, 1 left and above, 2 left and below, 3 right and below.
    */
  lemma QuadrantSides(b: BoundingBox, p: Vec2)
    requires b.Contains(p)
    ensures b.SplitQuadrants()[0].Contains(p) <==> p.x > b.Center().x && p.y < b.Center().y
    ensures b.SplitQuadrants()[1].Contains(p) <==> p.x < b.Center().x && p.y < b.Center().y
    ensures b.SplitQuadrants()[2].Contains(p) <==> p.x < b.Center().x && p.y > b.Center().y
    ensures b.SplitQuadrants()[3].Contains(p) <==> p.x > b.Center().x && p.y > b.Center().y
  {
  }

  /** A point of the parent that lies on neither center line is in exactly one quadrant. */
  lemma ExactlyOneQuadrant(b: BoundingBox, p: Vec2)
    requires b.Contains(p) && p.x != b.Center().x && p.y != b.Center().y
    ensures exists i :: 0 <= i < 4 && b.SplitQuadrants()[i].Contains(p)
    ensures forall i, j :: 0 <= i < 4 && 0 <= j < 4 && b.SplitQuadrants()[i].Contains(p) && b.SplitQuadrants()[j].Contains(p) ==> i == j
  {
    QuadrantSides(b, p);
    var q := b.SplitQuadrants();
    if p.x > b.Center().x && p.y < b.Center().y {
      assert q[0].Contains(p);
    } else if p.x < b.Center().x && p.y < b.Center().y {
      assert q[1].Contains(p);
    } else if p.x < b.Center().x {
      assert q[2].Contains(p);
    } else {
      assert q[3].Contains(p);
    }
  }

  /** A point on either center line is in no quadrant. */
  lemma CenterLineInNoQuadrant(b: BoundingBox, p: Vec2)
    requires p.x == b.Center().x || p.y == b.Center().y
    ensures forall i :: 0 <= i < 4 ==> !b.SplitQuadrants()[i].Contains(p)
  {
  }
}

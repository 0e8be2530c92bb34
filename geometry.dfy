/**
 * The integer geometry of the SDL example game: rectangles with half-open
 * bounds, circles, the rectangle/rectangle and circle/rectangle overlap
 * tests, and the conversion of colliders placed at a position into shapes.
 * Go's nil pointers are Option values; Go's int is unbounded here.
 */
module Geometry {
  import opened Maybe

  datatype Vector2 = Vector2(x: int, y: int)
  datatype Size = Size(width: int, height: int)

  /** Bounds (alias Rect): a corner and a size; it covers [x, x+width) × [y, y+height). */
  datatype Rect = Rect(pos: Vector2, size: Size)
  datatype Circle = Circle(centre: Vector2, radius: int)

  datatype Position = Position(pos: Vector2)
  datatype BoxCollider = BoxCollider(offset: Vector2, size: Size)
  datatype CircleCollider = CircleCollider(offset: Vector2, radius: int)

  /** Go's x/2 on int, which truncates toward zero. */
  function Half(x: int): (q: int)
    ensures x >= 0 ==> 0 <= x - 2 * q <= 1
    ensures x < 0 ==> -1 <= x - 2 * q <= 0
  {
    if x >= 0 then x / 2 else -((-x) / 2)
  }

  function Abs(x: int): (a: nat)
    ensures a == x || a == -x
  {
    if x < 0 then -x else x
  }

  /** The lattice point (x, y) lies in the rectangle. */
  predicate Contains(r: Rect, x: int, y: int)
  {
    r.pos.x <= x < r.pos.x + r.size.width && r.pos.y <= y < r.pos.y + r.size.height
  }

  // ---------------------------------------------------------------------
  // Rect
  // ---------------------------------------------------------------------

  /** Rect.Empty: nil, or a width or height that is not positive. */
  predicate RectEmpty(r: Option<Rect>)
  {
    r.None? || r.value.size.width <= 0 || r.value.size.height <= 0
  }

  /** A non-nil rectangle is empty exactly when it covers no point. */
  lemma RectEmptyIffNoPoint(r: Rect)
    ensures RectEmpty(Some(r)) <==> forall x, y :: !Contains(r, x, y)
  {
    if !RectEmpty(Some(r)) {
      assert Contains(r, r.pos.x, r.pos.y);
    }
  }

  /** Rect.HasIntersection: both non-nil and non-empty, and neither lies entirely beyond an edge of the other. */
  predicate HasIntersection(a: Option<Rect>, b: Option<Rect>)
  {
    if a.None? || b.None? then false
    else if RectEmpty(a) || RectEmpty(b) then false
    else
      var a, b := a.value, b.value;
      !(a.pos.x >= b.pos.x + b.size.width || a.pos.x + a.size.width <= b.pos.x ||
        a.pos.y >= b.pos.y + b.size.height || a.pos.y + a.size.height <= b.pos.y)
  }

  /** Two rectangles intersect exactly when some point lies in both. */
  lemma HasIntersectionIffCommonPoint(a: Rect, b: Rect)
    ensures HasIntersection(Some(a), Some(b)) <==> exists x, y :: Contains(a, x, y) && Contains(b, x, y)
  {
    if HasIntersection(Some(a), Some(b)) {
      var x := if a.pos.x < b.pos.x then b.pos.x else a.pos.x;
      var y := if a.pos.y < b.pos.y then b.pos.y else a.pos.y;
      assert Contains(a, x, y) && Contains(b, x, y);
    }
  }

  /** A nil rectangle intersects nothing, and intersection is symmetric. */
  lemma HasIntersectionNilAndSymmetric(a: Option<Rect>, b: Option<Rect>)
    ensures a.None? || b.None? || RectEmpty(a) || RectEmpty(b) ==> !HasIntersection(a, b)
    ensures HasIntersection(a, b) <==> HasIntersection(b, a)
  {
  }

  /** The bounds are half-open: rectangles that only share an edge do not intersect. */
  lemma SharedEdgeNoIntersection(a: Rect, b: Rect)
    requires a.pos.x + a.size.width == b.pos.x || a.pos.y + a.size.height == b.pos.y
    ensures !HasIntersection(Some(a), Some(b))
  {
  }

  function MoveRect(r: Rect, d: Vector2): Rect
  {
    Rect(Vector2(r.pos.x + d.x, r.pos.y + d.y), r.size)
  }

  /** Moving both rectangles by the same amount does not change whether they intersect. */
  lemma HasIntersectionMoved(a: Rect, b: Rect, d: Vector2)
    ensures HasIntersection(Some(MoveRect(a, d)), Some(MoveRect(b, d))) == HasIntersection(Some(a), Some(b))
  {
  }

  // ---------------------------------------------------------------------
  // Circle
  // ---------------------------------------------------------------------

  /**
   * Circle.Empty: a radius that is not positive. On a nil circle the Go
   * method dereferences nil, so it is defined on values only.
   */
  predicate CircleEmpty(c: Circle)
  {
    c.radius <= 0
  }

  /**
   * Circle.HasIntersectionWithRect as written: compare the distance from the
   * circle's centre to the rectangle's (truncated) centre with the half
   * extents, and fall back to the squared distance to the corner.
   */
  predicate HasIntersectionWithRect(a: Option<Circle>, b: Option<Rect>)
  {
    if a.None? || b.None? then false
    else if CircleEmpty(a.value) || RectEmpty(b) then false
    else
      var c, r := a.value, b.value;
      var hw, hh := Half(r.size.width), Half(r.size.height);
      var distX := Abs(c.centre.x - (r.pos.x + hw));
      var distY := Abs(c.centre.y - (r.pos.y + hh));
      if distX > hw + c.radius then false
      else if distY > hh + c.radius then false
      else if distX <= hw then true
      else if distY <= hh then true
      else
        var crX, crY := distX - hw, distY - hh;
        crX * crX + crY * crY <= c.radius * c.radius
  }

  /** How far d lies outside a half extent h (0 when it is within). */
  function Gap(d: int, h: int): (g: nat)
    ensures g == 0 <==> d <= h
    ensures g > 0 ==> g == d - h
  {
    if d <= h then 0 else d - h
  }

  /**
   * The reference test: the squared distance from the circle's centre to the
   * nearest point of the box centred on the rectangle's truncated centre,
   * with the truncated half extents, is at most the squared radius.
   */
  predicate CircleMeetsBox(c: Circle, r: Rect)
  {
    var hw, hh := Half(r.size.width), Half(r.size.height);
    var gx := Gap(Abs(c.centre.x - (r.pos.x + hw)), hw);
    var gy := Gap(Abs(c.centre.y - (r.pos.y + hh)), hh);
    gx * gx + gy * gy <= c.radius * c.radius
  }

  lemma SquareStrict(a: int, b: int)
    requires 0 <= b < a
    ensures b * b < a * a
  {
    assert a * a - b * b == (a - b) * (a + b);
  }

  lemma SquareMono(a: int, b: int)
    requires 0 <= a <= b
    ensures a * a <= b * b
  {
    assert b * b - a * a == (b - a) * (b + a);
  }

  /**
   * The early returns of HasIntersectionWithRect are shortcuts of the
   * reference test: for non-nil, non-empty shapes the two agree on every input.
   */
  lemma HasIntersectionWithRectIffMeetsBox(c: Circle, r: Rect)
    ensures HasIntersectionWithRect(Some(c), Some(r)) <==>
      !CircleEmpty(c) && !RectEmpty(Some(r)) && CircleMeetsBox(c, r)
  {
    if !CircleEmpty(c) && !RectEmpty(Some(r)) {
      var hw, hh := Half(r.size.width), Half(r.size.height);
      var distX := Abs(c.centre.x - (r.pos.x + hw));
      var distY := Abs(c.centre.y - (r.pos.y + hh));
      var gx, gy := Gap(distX, hw), Gap(distY, hh);
      if distX > hw + c.radius {
        SquareStrict(gx, c.radius);
        assert gx * gx + gy * gy > c.radius * c.radius by {
          assert gy * gy >= 0;
        }
      } else if distY > hh + c.radius {
        SquareStrict(gy, c.radius);
        assert gx * gx + gy * gy > c.radius * c.radius by {
          assert gx * gx >= 0;
        }
      } else if distX <= hw {
        SquareMono(gy, c.radius);
      } else if distY <= hh {
        SquareMono(gx, c.radius);
      }
    }
  }

  /** A non-empty circle whose centre lies in a rectangle intersects it. */
  lemma CentreInsideIntersects(c: Circle, r: Rect)
    requires !CircleEmpty(c) && Contains(r, c.centre.x, c.centre.y)
    ensures HasIntersectionWithRect(Some(c), Some(r))
  {
    var hw := Half(r.size.width);
    assert Abs(c.centre.x - (r.pos.x + hw)) <= hw;
  }

  // ---------------------------------------------------------------------
  // Colliders
  // ---------------------------------------------------------------------

  /** BoxCollider.ToRect: the collider's size, its corner half a size before offset + position. */
  function ToRect(a: Option<BoxCollider>, p: Option<Position>): (r: Option<Rect>)
    ensures r.None? <==> a.None? || p.None?
    ensures r.Some? ==> r.value.size == a.value.size
  {
    if a.None? || p.None? then None
    else
      var a, p := a.value, p.value;
      Some(Rect(
        Vector2(a.offset.x - Half(a.size.width) + p.pos.x, a.offset.y - Half(a.size.height) + p.pos.y),
        a.size))
  }

  /** The rectangle is centred (with truncated halves) on offset + position, which it covers when non-empty. */
  lemma ToRectCentred(a: BoxCollider, p: Position)
    ensures var r := ToRect(Some(a), Some(p)).value;
      && r.pos.x + Half(r.size.width) == a.offset.x + p.pos.x
      && r.pos.y + Half(r.size.height) == a.offset.y + p.pos.y
      && (!RectEmpty(Some(r)) ==> Contains(r, a.offset.x + p.pos.x, a.offset.y + p.pos.y))
  {
  }

  function MovePosition(p: Position, d: Vector2): Position
  {
    Position(Vector2(p.pos.x + d.x, p.pos.y + d.y))
  }

  /** Moving the position moves the collider's rectangle by the same amount. */
  lemma ToRectMoves(a: BoxCollider, p: Position, d: Vector2)
    ensures ToRect(Some(a), Some(MovePosition(p, d))) == Some(MoveRect(ToRect(Some(a), Some(p)).value, d))
  {
  }

  /** CircleCollider.ToCircle: centre offset + position, the collider's radius. */
  function ToCircle(c: Option<CircleCollider>, p: Option<Position>): (r: Option<Circle>)
    ensures r.None? <==> c.None? || p.None?
    ensures r.Some? ==> r.value.radius == c.value.radius
  {
    if c.None? || p.None? then None
    else
      var c, p := c.value, p.value;
      Some(Circle(Vector2(c.offset.x + p.pos.x, c.offset.y + p.pos.y), c.radius))
  }

  /**
   * A circle collider and a non-empty box collider with the same offset, at
   * the same position, always collide.
   */
  lemma SameOffsetCollidersMeet(cc: CircleCollider, bc: BoxCollider, p: Position)
    requires cc.offset == bc.offset && cc.radius > 0
    requires bc.size.width > 0 && bc.size.height > 0
    ensures HasIntersectionWithRect(ToCircle(Some(cc), Some(p)), ToRect(Some(bc), Some(p)))
  {
    var r := ToRect(Some(bc), Some(p)).value;
    ToRectCentred(bc, p);
    CentreInsideIntersects(ToCircle(Some(cc), Some(p)).value, r);
  }
}

/** Region predicates of a Venn diagram and the pointwise boolean algebra on them.

    A predicate is a total function from a point of the plane to "inside" or
    "outside". Regions are built by `Universe` and `Circle`, and combined by
    `Compl`, `Intersect` and `Union`. Coordinates are integers: every region and
    every shader of the diagram is instantiated with integer data, which makes
    the disk test exact. */
module Predicates {

  /** Membership test of a region: (x, y) |-> is the point inside? */
  type Pred = (int, int) -> bool

  /** The square of an integer, as the drawing library's `sq`. */
  function Sq(n: int): (s: int)
    ensures s >= 0
  {
    n * n
  }

  function Abs(n: int): (a: int)
    ensures a >= 0 && (a == n || a == -n)
  {
    if n < 0 then -n else n
  }

  /** Two predicates describe the same region. */
  ghost predicate Equiv(f: Pred, g: Pred) {
    forall x: int, y: int :: f(x, y) == g(x, y)
  }

  /** The universal region: every point of the plane belongs to it, also points
      far outside the rectangle drawn as its outline. */
  function Universe(): (u: Pred)
    ensures forall x: int, y: int :: u(x, y)
  {
    (x: int, y: int) => true
  }

  /** The closed disk of centre (cx, cy) and radius r, tested on squared
      distances.  The radius enters only as `Sq(r)`, so a negative radius
      describes the same disk as its absolute value. */
  function Circle(cx: int, cy: int, r: int): (c: Pred)
    ensures forall x: int, y: int :: c(x, y) <==> Sq(x - cx) + Sq(y - cy) <= Sq(r)
  {
    (x: int, y: int) => Sq(x - cx) + Sq(y - cy) <= Sq(r)
  }

  /** Complement: inside exactly where f is outside. */
  function Compl(f: Pred): (g: Pred)
    ensures forall x: int, y: int :: g(x, y) == !f(x, y)
  {
    (x: int, y: int) => !f(x, y)
  }

  /** Intersection: inside exactly where both f and g are inside. */
  function Intersect(f: Pred, g: Pred): (h: Pred)
    ensures forall x: int, y: int :: h(x, y) <==> f(x, y) && g(x, y)
  {
    (x: int, y: int) => f(x, y) && g(x, y)
  }

  /** Union: inside exactly where f or g (or both) is inside. */
  function Union(f: Pred, g: Pred): (h: Pred)
    ensures forall x: int, y: int :: h(x, y) <==> f(x, y) || g(x, y)
  {
    (x: int, y: int) => f(x, y) || g(x, y)
  }

  // ---------------------------------------------------------------------
  // Geometry of the disk

  /** For non-negative a and b, comparing squares is comparing the numbers. */
  lemma SqMonotone(a: int, b: int)
    requires 0 <= a && 0 <= b
    ensures Sq(a) <= Sq(b) <==> a <= b
  {
    if a <= b {
      assert a * a <= a * b by { MulLeft(a, a, b); }
      assert a * b <= b * b by { MulLeft(b, a, b); }
    } else {
      assert b * b <= b * a by { MulLeft(b, b, a); }
      assert b * a < a * a by { MulLeftStrict(a, b, a); }
    }
  }

  lemma MulLeft(k: int, a: int, b: int)
    requires 0 <= k && a <= b
    ensures k * a <= k * b
  {
    assert k * b - k * a == k * (b - a);
  }

  lemma MulLeftStrict(k: int, a: int, b: int)
    requires 0 < k && a < b
    ensures k * a < k * b
  {
    assert k * b - k * a == k * (b - a);
  }

  lemma SqAbs(n: int)
    ensures Sq(Abs(n)) == Sq(n)
  {
    if n < 0 {
      assert (-n) * (-n) == n * n;
    }
  }

  /** A point on the horizontal line through the centre, at signed offset d,
      lies in the disk exactly when |d| is at most the radius |r|. */
  lemma CircleOnHorizontal(cx: int, cy: int, r: int, d: int)
    ensures Circle(cx, cy, r)(cx + d, cy) <==> Abs(d) <= Abs(r)
  {
    SqAbs(d);
    SqAbs(r);
    SqMonotone(Abs(d), Abs(r));
    assert Sq(cy - cy) == 0;
  }

  /** The same on the vertical line through the centre. */
  lemma CircleOnVertical(cx: int, cy: int, r: int, d: int)
    ensures Circle(cx, cy, r)(cx, cy + d) <==> Abs(d) <= Abs(r)
  {
    SqAbs(d);
    SqAbs(r);
    SqMonotone(Abs(d), Abs(r));
    assert Sq(cx - cx) == 0;
  }

  /** The disk is closed: its centre and the four points at distance exactly
      |r| along the axes belong to it, and every point a positive amount
      beyond the radius along an axis does not. */
  lemma CircleClosedDisk(cx: int, cy: int, r: int, e: int)
    requires e > 0
    ensures Circle(cx, cy, r)(cx, cy)
    ensures Circle(cx, cy, r)(cx + r, cy) && Circle(cx, cy, r)(cx - r, cy)
    ensures Circle(cx, cy, r)(cx, cy + r) && Circle(cx, cy, r)(cx, cy - r)
    ensures !Circle(cx, cy, r)(cx + Abs(r) + e, cy)
    ensures !Circle(cx, cy, r)(cx - Abs(r) - e, cy)
    ensures !Circle(cx, cy, r)(cx, cy + Abs(r) + e)
    ensures !Circle(cx, cy, r)(cx, cy - Abs(r) - e)
  {
    assert Sq(0) == 0;
    CircleOnHorizontal(cx, cy, r, r);
    CircleOnHorizontal(cx, cy, r, -r);
    CircleOnVertical(cx, cy, r, r);
    CircleOnVertical(cx, cy, r, -r);
    CircleOnHorizontal(cx, cy, r, Abs(r) + e);
    CircleOnHorizontal(cx, cy, r, -(Abs(r) + e));
    CircleOnVertical(cx, cy, r, Abs(r) + e);
    CircleOnVertical(cx, cy, r, -(Abs(r) + e));
  }

  /** Every point of the disk lies in the square of side 2|r| centred at
      (cx, cy): the bounding box of the circle's outline. */
  lemma CircleInBoundingBox(cx: int, cy: int, r: int, x: int, y: int)
    requires Circle(cx, cy, r)(x, y)
    ensures cx - Abs(r) <= x <= cx + Abs(r)
    ensures cy - Abs(r) <= y <= cy + Abs(r)
  {
    SqAbs(x - cx);
    SqAbs(y - cy);
    SqAbs(r);
    SqMonotone(Abs(x - cx), Abs(r));
    SqMonotone(Abs(y - cy), Abs(r));
  }

  /** Only the magnitude of the radius matters. */
  lemma CircleRadiusSign(cx: int, cy: int, r: int)
    ensures Equiv(Circle(cx, cy, r), Circle(cx, cy, -r))
  {
    assert Sq(-r) == Sq(r);
  }

  // ---------------------------------------------------------------------
  // Laws of the algebra: each combinator agrees with classical logic

  lemma DoubleNegation(f: Pred)
    ensures Equiv(Compl(Compl(f)), f)
  {
  }

  lemma DeMorganUnion(f: Pred, g: Pred)
    ensures Equiv(Compl(Union(f, g)), Intersect(Compl(f), Compl(g)))
  {
  }

  lemma DeMorganIntersect(f: Pred, g: Pred)
    ensures Equiv(Compl(Intersect(f, g)), Union(Compl(f), Compl(g)))
  {
  }

  /** A region and its complement cover the universe and do not overlap. */
  lemma ComplementPartition(f: Pred)
    ensures Equiv(Union(f, Compl(f)), Universe())
    ensures forall x: int, y: int :: !Intersect(f, Compl(f))(x, y)
  {
  }

  lemma IntersectDistributesOverUnion(f: Pred, g: Pred, h: Pred)
    ensures Equiv(Intersect(f, Union(g, h)), Union(Intersect(f, g), Intersect(f, h)))
  {
  }

  lemma UnionDistributesOverIntersect(f: Pred, g: Pred, h: Pred)
    ensures Equiv(Union(f, Intersect(g, h)), Intersect(Union(f, g), Union(f, h)))
  {
  }

  /** The universe is the identity of intersection and absorbs union. */
  lemma UniverseIdentity(f: Pred)
    ensures Equiv(Intersect(Universe(), f), f)
    ensures Equiv(Union(Universe(), f), Universe())
  {
  }
}

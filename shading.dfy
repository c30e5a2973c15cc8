/** The mesh-sampling shader.

    A shader is configured once by a style (colour, stroke weight, mesh step and
    two offsets) and is then applied to predicates.  One application walks the
    lattice of the universe rectangle column by column and paints the samples
    where the predicate holds.  The drawing surface is not modelled: the
    observable output of a pass is the sequence of points it paints, in order. */
module Shading {
  import opened Predicates

  /** The universe rectangle: left side, top side, width and height. */
  const UniverseLeft: int := 20
  const UniverseTop: int := 20
  const UniverseWidth: int := 350
  const UniverseHeight: int := 325

  datatype Point = Point(x: int, y: int)

  /** A colour value as handed to the drawing surface (red, green, blue, alpha). */
  datatype Color = Color(red: int, green: int, blue: int, alpha: int)

  /** The parameters bound by the shader factory. */
  datatype Style = Style(fg: Color, weight: int, mesh: int, ox: int, oy: int)

  function XMin(s: Style): (x: int) { UniverseLeft + s.ox }
  function XMax(s: Style): (x: int) { UniverseLeft + UniverseWidth }
  function YMin(s: Style): (y: int) { UniverseTop + s.oy }
  function YMax(s: Style): (y: int) { UniverseTop + UniverseHeight }

  // ---------------------------------------------------------------------
  // Specification of one pass

  /** The coordinates lo, lo + step, lo + 2 step, ... that do not exceed hi. */
  function Axis(lo: int, hi: int, step: int): (vs: seq<int>)
    requires step > 0
    decreases hi - lo
  {
    if lo > hi then [] else [lo] + Axis(lo + step, hi, step)
  }

  /** The samples of one column, in the order of ys. */
  function Column(x: int, ys: seq<int>): (col: seq<Point>) {
    if ys == [] then [] else [Point(x, ys[0])] + Column(x, ys[1..])
  }

  /** The whole lattice: one column per x, in the order of xs. */
  function Grid(xs: seq<int>, ys: seq<int>): (grid: seq<Point>) {
    if xs == [] then [] else Column(xs[0], ys) + Grid(xs[1..], ys)
  }

  /** The points of pts at which f holds, in their order. */
  function Keep(f: Pred, pts: seq<Point>): (kept: seq<Point>) {
    if pts == [] then []
    else (if f(pts[0].x, pts[0].y) then [pts[0]] else []) + Keep(f, pts[1..])
  }

  /** Every lattice sample one pass visits, in visiting order. */
  function Samples(s: Style): (samples: seq<Point>)
    requires s.mesh > 0
  {
    Grid(Axis(XMin(s), XMax(s), s.mesh), Axis(YMin(s), YMax(s), s.mesh))
  }

  /** The points one pass of the shader with style s paints for f. */
  function Shaded(s: Style, f: Pred): (painted: seq<Point>)
    requires s.mesh > 0
  {
    Keep(f, Samples(s))
  }

  /** Number of samples of a closed interval of length d (none when d < 0). */
  function Steps(d: int, step: int): (n: int)
    requires step > 0
  {
    if d < 0 then 0 else d / step + 1
  }

  // ---------------------------------------------------------------------
  // The shader itself

  /** Applies the shader of style s to predicate f: x runs over the columns
      from the left edge plus the horizontal offset up to the right edge
      inclusive, and for each x, y runs over the rows in the same way; each
      sample where f holds is painted.  The points are returned in painting
      order. */
  method Shade(s: Style, f: Pred) returns (painted: seq<Point>)
    requires s.mesh > 0
    ensures painted == Shaded(s, f)
  {
    var xmin := UniverseLeft + s.ox;
    var xmax := UniverseLeft + UniverseWidth;
    var ymin := UniverseTop + s.oy;
    var ymax := UniverseTop + UniverseHeight;

    painted := [];
    var x := xmin;
    while x <= xmax
      invariant painted + PaintColumns(f, x, xmax, ymin, ymax, s.mesh) == PaintColumns(f, xmin, xmax, ymin, ymax, s.mesh)
      decreases xmax - x
    {
      ghost var before := painted;
      var y := ymin;
      while y <= ymax
        invariant painted + PaintColumn(f, x, y, ymax, s.mesh) == before + PaintColumn(f, x, ymin, ymax, s.mesh)
        decreases ymax - y
      {
        if f(x, y) {
          painted := painted + [Point(x, y)];
        }
        y := y + s.mesh;
      }
      assert painted == before + PaintColumn(f, x, ymin, ymax, s.mesh);
      x := x + s.mesh;
    }
    PaintColumnsShaded(f, xmin, xmax, ymin, ymax, s.mesh);
  }

  /** What the inner loop paints from row y on, in the order it paints it. */
  function PaintColumn(f: Pred, x: int, y: int, ymax: int, step: int): (painted: seq<Point>)
    requires step > 0
    decreases ymax - y
  {
    if y > ymax then []
    else (if f(x, y) then [Point(x, y)] else []) + PaintColumn(f, x, y + step, ymax, step)
  }

  /** What the outer loop paints from column x on. */
  function PaintColumns(f: Pred, x: int, xmax: int, ymin: int, ymax: int, step: int): (painted: seq<Point>)
    requires step > 0
    decreases xmax - x
  {
    if x > xmax then []
    else PaintColumn(f, x, ymin, ymax, step) + PaintColumns(f, x + step, xmax, ymin, ymax, step)
  }

  lemma {:induction false} PaintColumnKeeps(f: Pred, x: int, y: int, ymax: int, step: int)
    requires step > 0
    ensures PaintColumn(f, x, y, ymax, step) == Keep(f, Column(x, Axis(y, ymax, step)))
    decreases ymax - y
  {
    if y <= ymax {
      PaintColumnKeeps(f, x, y + step, ymax, step);
      assert Axis(y, ymax, step) == [y] + Axis(y + step, ymax, step);
    }
  }

  lemma {:induction false} PaintColumnsShaded(f: Pred, x: int, xmax: int, ymin: int, ymax: int, step: int)
    requires step > 0
    ensures PaintColumns(f, x, xmax, ymin, ymax, step) == Keep(f, Grid(Axis(x, xmax, step), Axis(ymin, ymax, step)))
    decreases xmax - x
  {
    if x <= xmax {
      var ys := Axis(ymin, ymax, step);
      PaintColumnsShaded(f, x + step, xmax, ymin, ymax, step);
      PaintColumnKeeps(f, x, ymin, ymax, step);
      assert Axis(x, xmax, step) == [x] + Axis(x + step, xmax, step);
      KeepAppend(f, Column(x, ys), Grid(Axis(x + step, xmax, step), ys));
    }
  }

  // ---------------------------------------------------------------------
  // Filtering

  lemma {:induction false} KeepAppend(f: Pred, a: seq<Point>, b: seq<Point>)
    ensures Keep(f, a + b) == Keep(f, a) + Keep(f, b)
  {
    if a != [] {
      var head := if f(a[0].x, a[0].y) then [a[0]] else [];
      assert (a + b)[0] == a[0];
      assert (a + b)[1..] == a[1..] + b;
      KeepAppend(f, a[1..], b);
      calc {
        Keep(f, a + b);
        head + Keep(f, a[1..] + b);
        head + (Keep(f, a[1..]) + Keep(f, b));
        (head + Keep(f, a[1..])) + Keep(f, b);
        Keep(f, a) + Keep(f, b);
      }
    } else {
      assert a + b == b;
    }
  }

  /** A point is kept exactly when it is among the points and satisfies f. */
  lemma {:induction false} KeepMember(f: Pred, pts: seq<Point>, p: Point)
    ensures p in Keep(f, pts) <==> p in pts && f(p.x, p.y)
  {
    if pts != [] {
      KeepMember(f, pts[1..], p);
      assert p in pts <==> p == pts[0] || p in pts[1..];
    }
  }

  /** Filtering by f and by its complement splits the points between them. */
  lemma {:induction false} KeepSplit(f: Pred, pts: seq<Point>)
    ensures |Keep(f, pts)| + |Keep(Compl(f), pts)| == |pts|
  {
    if pts != [] {
      KeepSplit(f, pts[1..]);
    }
  }

  /** Predicates describing the same region keep the same points. */
  lemma {:induction false} KeepEquiv(f: Pred, g: Pred, pts: seq<Point>)
    requires Equiv(f, g)
    ensures Keep(f, pts) == Keep(g, pts)
  {
    if pts != [] {
      KeepEquiv(f, g, pts[1..]);
    }
  }

  /** The universe keeps everything. */
  lemma {:induction false} KeepUniverse(pts: seq<Point>)
    ensures Keep(Universe(), pts) == pts
  {
    if pts != [] {
      KeepUniverse(pts[1..]);
    }
  }

  // ---------------------------------------------------------------------
  // Ordering

  /** p is visited before q: an earlier column, or the same column and an
      earlier row. */
  predicate Before(p: Point, q: Point) {
    p.x < q.x || (p.x == q.x && p.y < q.y)
  }

  predicate Ascending(pts: seq<Point>) {
    forall i, j :: 0 <= i < j < |pts| ==> Before(pts[i], pts[j])
  }

  predicate Increasing(s: seq<int>) {
    forall i, j :: 0 <= i < j < |s| ==> s[i] < s[j]
  }

  lemma AscendingAppend(a: seq<Point>, b: seq<Point>)
    requires Ascending(a) && Ascending(b)
    requires forall p, q :: p in a && q in b ==> Before(p, q)
    ensures Ascending(a + b)
  {
    forall i, j | 0 <= i < j < |a + b|
      ensures Before((a + b)[i], (a + b)[j])
    {
      if j < |a| {
      } else if i < |a| {
        assert a[i] in a && b[j - |a|] in b;
      } else {
        assert (a + b)[i] == b[i - |a|] && (a + b)[j] == b[j - |a|];
      }
    }
  }

  /** Filtering keeps the order, so it keeps an ascending sequence ascending. */
  lemma {:induction false} KeepAscending(f: Pred, pts: seq<Point>)
    requires Ascending(pts)
    ensures Ascending(Keep(f, pts))
  {
    if pts != [] {
      var rest := pts[1..];
      assert Ascending(rest) by {
        forall i, j | 0 <= i < j < |rest| ensures Before(rest[i], rest[j]) {
          assert rest[i] == pts[i + 1] && rest[j] == pts[j + 1];
        }
      }
      KeepAscending(f, rest);
      var head := if f(pts[0].x, pts[0].y) then [pts[0]] else [];
      forall p, q | p in head && q in Keep(f, rest) ensures Before(p, q) {
        KeepMember(f, rest, q);
        var j :| 0 <= j < |rest| && rest[j] == q;
        assert pts[j + 1] == q;
      }
      AscendingAppend(head, Keep(f, rest));
    }
  }

  lemma {:induction false} ColumnMember(x: int, ys: seq<int>, p: Point)
    ensures p in Column(x, ys) <==> p.x == x && p.y in ys
  {
    if ys != [] {
      ColumnMember(x, ys[1..], p);
      assert p.y in ys <==> p.y == ys[0] || p.y in ys[1..];
    }
  }

  lemma {:induction false} ColumnLength(x: int, ys: seq<int>)
    ensures |Column(x, ys)| == |ys|
  {
    if ys != [] {
      ColumnLength(x, ys[1..]);
    }
  }

  lemma {:induction false} ColumnAscending(x: int, ys: seq<int>)
    requires Increasing(ys)
    ensures Ascending(Column(x, ys))
  {
    if ys != [] {
      var rest := ys[1..];
      assert Increasing(rest) by {
        forall i, j | 0 <= i < j < |rest| ensures rest[i] < rest[j] {
          assert rest[i] == ys[i + 1] && rest[j] == ys[j + 1];
        }
      }
      ColumnAscending(x, rest);
      forall p, q | p in [Point(x, ys[0])] && q in Column(x, rest) ensures Before(p, q) {
        ColumnMember(x, rest, q);
        var j :| 0 <= j < |rest| && rest[j] == q.y;
        assert ys[j + 1] == q.y;
      }
      AscendingAppend([Point(x, ys[0])], Column(x, rest));
    }
  }

  lemma {:induction false} GridMember(xs: seq<int>, ys: seq<int>, p: Point)
    ensures p in Grid(xs, ys) <==> p.x in xs && p.y in ys
  {
    if xs != [] {
      GridMember(xs[1..], ys, p);
      ColumnMember(xs[0], ys, p);
      assert p.x in xs <==> p.x == xs[0] || p.x in xs[1..];
    }
  }

  lemma {:induction false} GridLength(xs: seq<int>, ys: seq<int>)
    ensures |Grid(xs, ys)| == |xs| * |ys|
  {
    if xs != [] {
      GridLength(xs[1..], ys);
      ColumnLength(xs[0], ys);
      assert |xs| * |ys| == (|xs| - 1) * |ys| + |ys|;
    }
  }

  /** The lattice is visited column by column, x increasing, and within a
      column y increasing. */
  lemma {:induction false} GridAscending(xs: seq<int>, ys: seq<int>)
    requires Increasing(xs) && Increasing(ys)
    ensures Ascending(Grid(xs, ys))
  {
    if xs != [] {
      var rest := xs[1..];
      assert Increasing(rest) by {
        forall i, j | 0 <= i < j < |rest| ensures rest[i] < rest[j] {
          assert rest[i] == xs[i + 1] && rest[j] == xs[j + 1];
        }
      }
      GridAscending(rest, ys);
      ColumnAscending(xs[0], ys);
      forall p, q | p in Column(xs[0], ys) && q in Grid(rest, ys) ensures Before(p, q) {
        ColumnMember(xs[0], ys, p);
        GridMember(rest, ys, q);
        var j :| 0 <= j < |rest| && rest[j] == q.x;
        assert xs[j + 1] == q.x;
      }
      AscendingAppend(Column(xs[0], ys), Grid(rest, ys));
    }
  }

  // ---------------------------------------------------------------------
  // The axis of samples

  /** A multiple of a positive b is at least b when the factor is positive,
      and at most -b when it is negative. */
  lemma MulSign(d: int, b: int)
    requires b > 0
    ensures d >= 1 ==> d * b >= b
    ensures d <= -1 ==> d * b <= -b
  {
    if d >= 1 {
      MulLeft(b, 1, d);
    } else if d <= -1 {
      MulLeft(b, d, -1);
    }
  }

  /** Euclidean division is determined by its defining equation. */
  lemma DivModUnique(a: int, b: int, q: int, r: int)
    requires b > 0 && 0 <= r < b && a == q * b + r
    ensures a / b == q && a % b == r
  {
    var q', r' := a / b, a % b;
    assert a == q' * b + r';
    assert (q - q') * b == r' - r;
    MulSign(q - q', b);
  }

  lemma {:induction false} AxisBounds(lo: int, hi: int, step: int)
    requires step > 0
    ensures forall v :: v in Axis(lo, hi, step) ==> lo <= v <= hi
    decreases hi - lo
  {
    if lo <= hi {
      AxisBounds(lo + step, hi, step);
    }
  }

  lemma {:induction false} AxisIncreasing(lo: int, hi: int, step: int)
    requires step > 0
    ensures Increasing(Axis(lo, hi, step))
    decreases hi - lo
  {
    if lo <= hi {
      var rest := Axis(lo + step, hi, step);
      AxisIncreasing(lo + step, hi, step);
      AxisBounds(lo + step, hi, step);
      var a := Axis(lo, hi, step);
      forall i, j | 0 <= i < j < |a| ensures a[i] < a[j] {
        assert a[j] == rest[j - 1];
        assert rest[j - 1] in rest;
        if i > 0 {
          assert a[i] == rest[i - 1];
        }
      }
    }
  }

  /** The axis holds exactly the values of [lo, hi] that are a whole number of
      steps away from lo. */
  lemma {:induction false} AxisMember(lo: int, hi: int, step: int, v: int)
    requires step > 0
    ensures v in Axis(lo, hi, step) <==> lo <= v <= hi && (v - lo) % step == 0
    decreases hi - lo
  {
    if lo <= hi {
      AxisMember(lo + step, hi, step, v);
      var q := (v - lo) / step;
      var r := (v - lo) % step;
      assert v - lo == q * step + r;
      assert v - (lo + step) == (q - 1) * step + r;
      DivModUnique(v - (lo + step), step, q - 1, r);
      if lo < v < lo + step {
        DivModUnique(v - lo, step, 0, v - lo);
      }
      DivModUnique(0, step, 0, 0);
    }
  }

  /** The number of samples on an axis. */
  lemma {:induction false} AxisLength(lo: int, hi: int, step: int)
    requires step > 0
    ensures |Axis(lo, hi, step)| == Steps(hi - lo, step)
    decreases hi - lo
  {
    if lo <= hi {
      AxisLength(lo + step, hi, step);
      var q := (hi - lo) / step;
      var r := (hi - lo) % step;
      assert hi - lo == q * step + r;
      if hi - lo < step {
        DivModUnique(hi - lo, step, 0, hi - lo);
      } else {
        assert hi - (lo + step) == (q - 1) * step + r;
        DivModUnique(hi - (lo + step), step, q - 1, r);
      }
    }
  }

  lemma MulMod(k: int, step: int)
    requires step > 0
    ensures (k * step) % step == 0
  {
    DivModUnique(k * step, step, k, 0);
  }

  // ---------------------------------------------------------------------
  // Properties of a pass

  /** The lattice: a point is sampled exactly when each coordinate lies
      between its start and the far edge of the universe, inclusive, and is a
      whole number of mesh steps past its start. */
  lemma SampleMember(s: Style, p: Point)
    requires s.mesh > 0
    ensures p in Samples(s) <==>
      XMin(s) <= p.x <= XMax(s) && (p.x - XMin(s)) % s.mesh == 0 &&
      YMin(s) <= p.y <= YMax(s) && (p.y - YMin(s)) % s.mesh == 0
  {
    GridMember(Axis(XMin(s), XMax(s), s.mesh), Axis(YMin(s), YMax(s), s.mesh), p);
    AxisMember(XMin(s), XMax(s), s.mesh, p.x);
    AxisMember(YMin(s), YMax(s), s.mesh, p.y);
  }

  /** Soundness and completeness over the lattice: a point is painted exactly
      when it is sampled and the predicate holds there. */
  lemma ShadeSoundComplete(s: Style, f: Pred, p: Point)
    requires s.mesh > 0
    ensures p in Shaded(s, f) <==> p in Samples(s) && f(p.x, p.y)
  {
    KeepMember(f, Samples(s), p);
  }

  /** Every painted point lies in the sampled rectangle and satisfies f. */
  lemma ShadeSound(s: Style, f: Pred, p: Point)
    requires s.mesh > 0
    requires p in Shaded(s, f)
    ensures f(p.x, p.y)
    ensures XMin(s) <= p.x <= XMax(s) && YMin(s) <= p.y <= YMax(s)
  {
    ShadeSoundComplete(s, f, p);
    SampleMember(s, p);
  }

  /** Every lattice point (xmin + i mesh, ymin + j mesh) inside the universe
      at which f holds is painted. */
  lemma ShadeComplete(s: Style, f: Pred, i: nat, j: nat)
    requires s.mesh > 0
    requires XMin(s) + i * s.mesh <= XMax(s) && YMin(s) + j * s.mesh <= YMax(s)
    requires f(XMin(s) + i * s.mesh, YMin(s) + j * s.mesh)
    ensures Point(XMin(s) + i * s.mesh, YMin(s) + j * s.mesh) in Shaded(s, f)
  {
    var p := Point(XMin(s) + i * s.mesh, YMin(s) + j * s.mesh);
    MulMod(i, s.mesh);
    MulMod(j, s.mesh);
    assert 0 <= i * s.mesh && 0 <= j * s.mesh;
    SampleMember(s, p);
    ShadeSoundComplete(s, f, p);
  }

  /** The number of samples of one pass: floor((W - ox) / mesh) + 1 columns
      times floor((H - oy) / mesh) + 1 rows, and none at all when an offset
      exceeds the corresponding side. */
  lemma SampleCount(s: Style)
    requires s.mesh > 0
    ensures s.ox <= UniverseWidth && s.oy <= UniverseHeight ==>
      |Samples(s)| == ((UniverseWidth - s.ox) / s.mesh + 1) * ((UniverseHeight - s.oy) / s.mesh + 1)
    ensures s.ox > UniverseWidth || s.oy > UniverseHeight ==> |Samples(s)| == 0
  {
    var xs := Axis(XMin(s), XMax(s), s.mesh);
    var ys := Axis(YMin(s), YMax(s), s.mesh);
    GridLength(xs, ys);
    AxisLength(XMin(s), XMax(s), s.mesh);
    AxisLength(YMin(s), YMax(s), s.mesh);
  }

  /** Points are painted column by column, x increasing, and within a column
      y increasing; in particular no point is painted twice in one pass. */
  lemma ShadeOrder(s: Style, f: Pred)
    requires s.mesh > 0
    ensures Ascending(Shaded(s, f))
  {
    AxisIncreasing(XMin(s), XMax(s), s.mesh);
    AxisIncreasing(YMin(s), YMax(s), s.mesh);
    GridAscending(Axis(XMin(s), XMax(s), s.mesh), Axis(YMin(s), YMax(s), s.mesh));
    KeepAscending(f, Samples(s));
  }

  /** Shading f and shading its complement with the same style paint disjoint
      sets of points whose union is the whole sampled lattice. */
  lemma ShadeComplementDuality(s: Style, f: Pred)
    requires s.mesh > 0
    ensures forall p :: p in Samples(s) <==> p in Shaded(s, f) || p in Shaded(s, Compl(f))
    ensures forall p :: !(p in Shaded(s, f) && p in Shaded(s, Compl(f)))
    ensures |Shaded(s, f)| + |Shaded(s, Compl(f))| == |Samples(s)|
  {
    forall p
      ensures p in Samples(s) <==> p in Shaded(s, f) || p in Shaded(s, Compl(f))
      ensures !(p in Shaded(s, f) && p in Shaded(s, Compl(f)))
    {
      KeepMember(f, Samples(s), p);
      KeepMember(Compl(f), Samples(s), p);
    }
    KeepSplit(f, Samples(s));
  }

  /** Shading the universe paints every sample. */
  lemma ShadeUniverse(s: Style)
    requires s.mesh > 0
    ensures Shaded(s, Universe()) == Samples(s)
  {
    KeepUniverse(Samples(s));
  }

  /** A shader cannot tell apart two predicates of the same region: the laws of
      the algebra carry over to the painted output. */
  lemma ShadeEquiv(s: Style, f: Pred, g: Pred)
    requires s.mesh > 0
    requires Equiv(f, g)
    ensures Shaded(s, f) == Shaded(s, g)
  {
    KeepEquiv(f, g, Samples(s));
  }
}

# Venn diagram shading: region algebra and mesh sampler

This project models the core of `venn.js`, a sketch that draws Venn diagrams
to illustrate laws of boolean algebra. Regions of the plane are predicates,
i.e. functions from a point to "inside or outside". `makeUniverse` and
`makeCircle` build the base regions. `compl`, `intersect` and `union` combine
them point by point. A shader, built by `makeShader` from a colour, a stroke
weight, a mesh step and two offsets, walks a lattice over the universe
rectangle column by column and paints a point at every sample where the
predicate holds.

Layout:

- `predicates.dfy`, module `Predicates`: the type `Pred = (int, int) -> bool`,
  the region constructors `Universe` and `Circle`, and the combinators
  `Compl`, `Intersect` and `Union`. Also the geometry of the closed disk and
  the classical laws (double negation, De Morgan, partition, distributivity).
- `shading.dfy`, module `Shading`: the universe rectangle (left 20, top 20,
  width 350, height 325), the shader style, and the method `Shade`. `Shade` is
  the nested sampling loop. It returns the points it paints, in painting
  order. Its specification is `Shaded(s, f) = Keep(f, Samples(s))`: the
  lattice `Samples(s)`, column-major, filtered by `f`. The lemmas state
  soundness, completeness, bounds, sample count, ordering and
  complement duality.
- `demo.dfy`, module `Demo`: the three shader styles of the program
  (`polka`, `ocean`, `squid`) and the scene's circle `f`, with concrete facts
  about what the scene paints.

Coordinates, radius, mesh and offsets are integers. Every instantiation in
the program uses integers, and with integers the `<=` disk test is exact.
The drawing surface is external: calls to `point(x, y)` become the elements
of the sequence that `Shade` returns.

Three facts about the code that the model makes explicit:

- `makeShader` never checks its mesh step. With a step of zero or less the
  pass never ends, unless the horizontal offset exceeds the universe width
  (350). In that case the first column already lies past the right edge, and
  the pass paints nothing, whatever the step. `Shade` requires `mesh > 0`,
  so both of these cases are outside the model.
- `polka` (mesh 8, offsets 2) starts its lattice at (22, 22). It paints
  (22, 22) for the complement of the circle (`Demo.PolkaPaintsCorner`).
  Neither (23, 23) nor the circle's centre (145, 140) is on its lattice
  (`Demo.PolkaSkipsCentre`).
- No shader in the code samples the centre (145, 140). `ocean` (mesh 2,
  offsets 1) misses it because 140 - 21 is odd. `ocean` does paint
  (145, 141) inside the circle (`Demo.OceanPaintsInside`).

## Model

| member | source | states |
|---|---|---|
| `Predicates.Universe` | venn.js:19-21 | every point of the plane is in the universe, including points far outside the drawn rectangle |
| `Predicates.Circle` | venn.js:30-32 | a point is in the circle exactly when the square of its distance to the centre is at most the square of the radius |
| `Predicates.CircleClosedDisk` | venn.js:30-32 | the disk is closed: the centre and the four points at distance exactly the radius along the axes are inside; the four points a positive amount beyond the radius along the axes are outside |
| `Predicates.CircleOnHorizontal` | venn.js:30-32 | on the horizontal line through the centre, the point at offset d is inside exactly when abs(d) <= abs(r) |
| `Predicates.CircleOnVertical` | venn.js:30-32 | the same on the vertical line through the centre |
| `Predicates.CircleInBoundingBox` | venn.js:24-32 | every point of the disk lies in the square of side 2abs(r) centred on the centre, which is the bounding box of the outline drawn at line 28 |
| `Predicates.CircleRadiusSign` | venn.js:30-32 | the radius enters only squared, so radius r and radius -r give the same region |
| `Predicates.Compl` | venn.js:35-39 | the complement holds at a point exactly when the operand does not |
| `Predicates.Intersect` | venn.js:41-45 | the intersection holds exactly where both operands hold |
| `Predicates.Union` | venn.js:47-51 | the union holds exactly where at least one operand holds |
| `Predicates.DoubleNegation` | venn.js:35-39 | the complement of the complement is the same region as the original |
| `Predicates.DeMorganUnion` | venn.js:35-51 | the complement of a union is the intersection of the complements |
| `Predicates.DeMorganIntersect` | venn.js:35-51 | the complement of an intersection is the union of the complements |
| `Predicates.ComplementPartition` | venn.js:35-51 | a region and its complement together cover the universe and never overlap |
| `Predicates.IntersectDistributesOverUnion` | venn.js:41-51 | intersection distributes over union |
| `Predicates.UnionDistributesOverIntersect` | venn.js:41-51 | union distributes over intersection |
| `Predicates.UniverseIdentity` | venn.js:19-51 | intersecting with the universe changes nothing; uniting with it gives the universe |
| `Shading.Shade` | venn.js:53-71 | the nested loop (x outer, y inner, both from the offset start to the far edge inclusive, step mesh) returns exactly the samples where f holds, in visiting order: `Shaded(s, f)` |
| `Shading.PaintColumnKeeps` | venn.js:64-68 | what the inner loop paints from row y on equals the column's samples from y to the bottom edge, filtered by f |
| `Shading.PaintColumnsShaded` | venn.js:63-69 | what the outer loop paints from column x on equals the lattice from x to the right edge, filtered by f, column by column |
| `Shading.AxisMember` | venn.js:63-64 | a coordinate is visited exactly when it lies between the start and the far edge inclusive and is a whole number of mesh steps past the start |
| `Shading.AxisLength` | venn.js:63-64 | an axis of length d has floor(d / mesh) + 1 samples, or none when d < 0 |
| `Shading.AxisIncreasing` | venn.js:63-64 | the loop variable takes strictly increasing values |
| `Shading.GridLength` | venn.js:63-69 | the lattice has (number of columns) * (number of rows) samples |
| `Shading.GridAscending` | venn.js:63-69 | the lattice is visited column by column with x increasing, and within a column with y increasing |
| `Shading.SampleMember` | venn.js:58-64 | a point is sampled exactly when xmin <= x <= xmax, ymin <= y <= ymax and both coordinates are a whole number of mesh steps past xmin and ymin |
| `Shading.ShadeSoundComplete` | venn.js:63-69 | a point is painted exactly when it is sampled and the predicate holds there |
| `Shading.ShadeSound` | venn.js:58-67 | every painted point satisfies the predicate and lies in [xmin, xmax] x [ymin, ymax] |
| `Shading.ShadeComplete` | venn.js:58-69 | every lattice point (xmin + i mesh, ymin + j mesh) with x <= xmax, y <= ymax where the predicate holds is painted |
| `Shading.SampleCount` | venn.js:58-64 | one pass samples ((W - ox) / mesh + 1) * ((H - oy) / mesh + 1) points when ox <= W and oy <= H, using floor division, and none otherwise |
| `Shading.ShadeOrder` | venn.js:63-69 | painted points come in strictly increasing (x, then y) order, so no point is painted twice in a pass |
| `Shading.ShadeComplementDuality` | venn.js:63-69 | shading f and shading its complement with the same style paint disjoint sets whose union is the whole sampled lattice, and their counts add up to the number of samples |
| `Shading.ShadeUniverse` | venn.js:63-69 | shading the universe paints every sample |
| `Shading.ShadeEquiv` | venn.js:63-69 | two predicates for the same region give the same painted output, so the algebra's laws carry over to what is drawn |
| `Demo.PolkaPaintsCorner` | venn.js:73-85 | the first pass, polka on the complement of f, paints (22, 22) |
| `Demo.PolkaSkipsCentre` | venn.js:73-85 | polka's lattice contains neither (145, 140), the centre of f, nor (23, 23), and neither is painted for the complement of f |
| `Demo.OceanPaintsInside` | venn.js:74-86 | the second pass, ocean on f, paints (145, 141) and never samples (145, 140) |
| `Demo.SquidPaintsEverything` | venn.js:75-87 | the third pass, squid on the universe, paints all 70 * 65 samples of its lattice |
| `Demo.PolkaSplitsLattice` | venn.js:73-85 | polka samples 44 * 41 points, and shading f and its complement with it share them out exactly |

## Left out

- Drawing-surface calls are left out: `fill`, `stroke`, `strokeWeight`, `rect`, `ellipse`, `point` and `color` belong to the drawing library, which is not part of this model. The outlines that `makeUniverse` and `makeCircle` draw, and the stroke colour and weight a shader sets, are not modelled. `Style` carries the colour and weight, but no contract speaks about them. `point(x, y)` becomes the element `Point(x, y)` of the sequence `Shade` returns.
- `Shade`: does not model the order of paints across several passes on one canvas. Each pass's output is a separate sequence, and the scene's passes would be their concatenation in call order.
- The scene itself (venn.js:77-88) is example data. It appears only through the concrete lemmas of `Demo`. The circles `g` and `h` are created there only for their outlines, so they are not modelled.
- The `Demo` lemmas are stated for any style with the same mesh and offsets as a named one. Colour and weight do not affect which points are painted.
- Floating-point numbers are left out. Coordinates, radius, mesh and offsets are integers. Non-integer mesh steps and rounding at the disk boundary are out of scope.
- `Shade`: requires `mesh > 0`. With a non-positive mesh the source loop never ends when the offset `ox` is at most 350. When `ox` exceeds 350, the loop paints nothing and returns at once. Neither case is modelled.
- Combinators that are not in the source, such as the material conditional, biconditional, exclusive or and a negating shader wrapper, are not modelled. Shading the complement is covered by `Shading.ShadeComplementDuality`.
- A predicate that fails while it is evaluated cannot occur here: predicates are total Dafny functions.

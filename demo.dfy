/** The diagram drawn by the program: three shader styles and the regions of
    its one scene, with facts about what the scene paints. */
module Demo {
  import opened Predicates
  import opened Shading

  /** Red dots, weight 4, every 8 units, starting 2 units in. */
  const Polka: Style := Style(Color(255, 0, 0, 255), 4, 8, 2, 2)
  /** Blue dots, weight 1, every 2 units, starting 1 unit in. */
  const Ocean: Style := Style(Color(0, 0, 255, 255), 1, 2, 1, 1)
  /** Black dots, weight 2, every 5 units, starting 3 units in. */
  const Squid: Style := Style(Color(0, 0, 0, 255), 2, 5, 3, 3)

  const Radius: int := 80

  /** Scene data: the circle f of the scene, the class it shades. */
  function F(): (c: Pred) { Circle(145, 140, Radius) }

  /** Two styles sample the same lattice; colour and weight only affect how
      the points look.  The facts below are stated for any style with the
      lattice of a named one, which keeps the verifier from evaluating the
      whole lattice of a constant style. */
  predicate Lattice(s: Style, t: Style) {
    s.mesh == t.mesh && s.ox == t.ox && s.oy == t.oy
  }

  /** The scene's first pass, polka on the complement of F, paints the
      corner sample of its lattice, which lies outside the circle. */
  lemma PolkaPaintsCorner(s: Style)
    requires Lattice(s, Polka)
    ensures Point(22, 22) in Shaded(s, Compl(F()))
  {
    assert !F()(22, 22);
    ShadeComplete(s, Compl(F()), 0, 0);
  }

  /** Polka's lattice does not reach the centre of F, nor the point one unit
      diagonally past its corner. */
  lemma PolkaSkipsCentre(s: Style)
    requires Lattice(s, Polka)
    ensures Point(145, 140) !in Samples(s)
    ensures Point(23, 23) !in Samples(s)
    ensures Point(145, 140) !in Shaded(s, Compl(F()))
    ensures Point(23, 23) !in Shaded(s, Compl(F()))
  {
    SampleMember(s, Point(145, 140));
    SampleMember(s, Point(23, 23));
    ShadeSoundComplete(s, Compl(F()), Point(145, 140));
    ShadeSoundComplete(s, Compl(F()), Point(23, 23));
  }

  /** The second pass, ocean on F, paints a point next to the centre; the
      centre itself is not on ocean's lattice, since it lies an odd number of
      units below ocean's first row. */
  lemma OceanPaintsInside(s: Style)
    requires Lattice(s, Ocean)
    ensures Point(145, 141) in Shaded(s, F())
    ensures Point(145, 140) !in Samples(s)
  {
    assert F()(145, 141);
    ShadeComplete(s, F(), 62, 60);
    SampleMember(s, Point(145, 140));
  }

  /** The third pass, squid on the universe, paints every sample of its
      lattice. */
  lemma SquidPaintsEverything(s: Style)
    requires Lattice(s, Squid)
    ensures Shaded(s, Universe()) == Samples(s)
    ensures |Shaded(s, Universe())| == 70 * 65
  {
    ShadeUniverse(s);
    SampleCount(s);
  }

  /** Polka samples 44 columns of 41 rows; shading F and shading its
      complement with it share those samples out between them. */
  lemma PolkaSplitsLattice(s: Style)
    requires Lattice(s, Polka)
    ensures |Samples(s)| == 44 * 41
    ensures |Shaded(s, F())| + |Shaded(s, Compl(F()))| == 44 * 41
  {
    SampleCount(s);
    ShadeComplementDuality(s, F());
  }
}

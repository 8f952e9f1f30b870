/** Marching-squares classification of one grid cell.

    A cell has four corner samples (top-left, top-right, bottom-left,
    bottom-right). Each corner is "inside" when it is strictly greater than
    the threshold. The sixteen inside/outside patterns map to no segment,
    one segment or two segments, whose endpoints lie on the cell's edges in
    cell-local coordinates `(x, y)` with `(0, 0)` the top-left corner and
    `(1, 1)` the bottom-right one. The scalar type is `real`. */
module Marching {

  type Point = (real, real)

  datatype Line = Line(a: Point, b: Point)

  /** The outcome of classifying one cell. */
  datatype Contour = None | One(Line) | Two(Line, Line)

  /** Fraction along an edge running from a corner with value `a` to a
      corner with value `b` at which the linear interpolation of the two
      reaches `target`. The caller must not pass two equal corners. */
  function Interpolate(target: real, a: real, b: real): (r: real)
    requires a != b
    ensures a + r * (b - a) == target
  {
    var da := target - a;
    var db := b - target;
    da / (da + db)
  }

  /** An edge whose corners lie on different sides of the threshold is
      crossed at a fraction in [0, 1], which is 0 exactly when the first
      corner sits on the threshold. */
  lemma InterpolateInUnit(target: real, a: real, b: real)
    requires (a > target) != (b > target)
    ensures a != b
    ensures 0.0 <= Interpolate(target, a, b) <= 1.0
    ensures Interpolate(target, a, b) == 0.0 <==> a == target
  {
    var da := target - a;
    var db := b - target;
    var r := Interpolate(target, a, b);
    assert r == da / (da + db);
    if a <= target {
      assert db > 0.0 && da >= 0.0;
      assert da <= da + db;
    } else {
      assert da < 0.0 && db <= 0.0;
      assert r == (-da) / (-(da + db));
      assert -da <= -(da + db);
    }
  }

  /** The value used by the crate's unit test. */
  lemma InterpolateExample()
    ensures Interpolate(0.0, -1.0, 2.0) == 1.0 / 3.0
  {
  }

  /** The cell classifier: a total sixteen-way case split on the four
      strict comparisons, interpolating only along edges whose corners lie
      on different sides of the threshold. */
  function FindContour(contour: real, tl: real, tr: real, bl: real, br: real): (r: Contour)
    ensures r.None? <==> (tl > contour) == (tr > contour) == (bl > contour) == (br > contour)
    ensures r.Two? <==> Diagonal(Mask(PatternOf(contour, Corners(tl, tr, bl, br))))
  {
    match (tl > contour, tr > contour, bl > contour, br > contour)
    case (false, false, false, false) | (true, true, true, true) => None
    case (false, false, false, true) | (true, true, true, false) => One(Line(
        (Interpolate(contour, bl, br), 1.0),
        (1.0, Interpolate(contour, tr, br))))
    case (true, true, false, true) | (false, false, true, false) => One(Line(
        (Interpolate(contour, bl, br), 1.0),
        (0.0, Interpolate(contour, tl, bl))))
    case (false, false, true, true) | (true, true, false, false) => One(Line(
        (0.0, Interpolate(contour, tl, bl)),
        (1.0, Interpolate(contour, tr, br))))
    case (false, true, false, true) | (true, false, true, false) => One(Line(
        (Interpolate(contour, tl, tr), 0.0),
        (Interpolate(contour, bl, br), 1.0)))
    case (true, false, true, true) | (false, true, false, false) => One(Line(
        (1.0, Interpolate(contour, tr, br)),
        (Interpolate(contour, tl, tr), 0.0)))
    case (true, false, false, false) | (false, true, true, true) => One(Line(
        (Interpolate(contour, tl, tr), 0.0),
        (0.0, Interpolate(contour, tl, bl))))
    case (true, false, false, true) => Two(
        Line((Interpolate(contour, tl, tr), 0.0), (1.0, Interpolate(contour, tr, br))),
        Line((0.0, Interpolate(contour, tl, bl)), (Interpolate(contour, bl, br), 1.0)))
    case (false, true, true, false) => Two(
        Line((0.0, Interpolate(contour, tl, bl)), (Interpolate(contour, tl, tr), 0.0)),
        Line((Interpolate(contour, bl, br), 1.0), (1.0, Interpolate(contour, tr, br))))
  }

  // ---------------------------------------------------------------------
  // A reference description of the classifier: a sixteen-entry table of
  // edge pairs keyed by the four-bit corner mask, and the geometry that
  // turns an edge into a crossing point.

  /** The four corner samples of one cell. */
  datatype Corners = Corners(tl: real, tr: real, bl: real, br: real)

  /** Which corners are inside (strictly above the threshold). */
  datatype Pattern = Pattern(tl: bool, tr: bool, bl: bool, br: bool)

  function PatternOf(contour: real, k: Corners): Pattern {
    Pattern(k.tl > contour, k.tr > contour, k.bl > contour, k.br > contour)
  }

  /** The pattern with every corner flipped. */
  function Complement(p: Pattern): (q: Pattern)
    ensures Mask(q) == 15 - Mask(p)
  {
    Pattern(!p.tl, !p.tr, !p.bl, !p.br)
  }

  /** The mask `tl tr bl br` read as a four-bit number, `tl` the high bit. */
  function Mask(p: Pattern): (m: nat)
    ensures m < 16
  {
    (if p.tl then 8 else 0) + (if p.tr then 4 else 0) + (if p.bl then 2 else 0) + (if p.br then 1 else 0)
  }

  /** The two saddle masks: `1001` and `0110`. */
  predicate Diagonal(m: nat) {
    m == 9 || m == 6
  }

  datatype Edge = Top | Bottom | Left | Right

  /** An edge runs from its first corner to its second: left to right for
      the horizontal edges, top to bottom for the vertical ones. */
  function EdgeFrom(e: Edge, k: Corners): real {
    match e
    case Top => k.tl
    case Bottom => k.bl
    case Left => k.tl
    case Right => k.tr
  }

  function EdgeTo(e: Edge, k: Corners): real {
    match e
    case Top => k.tr
    case Bottom => k.br
    case Left => k.bl
    case Right => k.br
  }

  function EdgeFromInside(e: Edge, p: Pattern): bool {
    match e
    case Top => p.tl
    case Bottom => p.bl
    case Left => p.tl
    case Right => p.tr
  }

  function EdgeToInside(e: Edge, p: Pattern): bool {
    match e
    case Top => p.tr
    case Bottom => p.br
    case Left => p.bl
    case Right => p.br
  }

  /** The isoline crosses an edge when its corners differ in the pattern. */
  predicate Crossed(e: Edge, p: Pattern) {
    EdgeFromInside(e, p) != EdgeToInside(e, p)
  }

  /** The point at fraction `t` along an edge, in cell-local coordinates. */
  function EdgePoint(e: Edge, t: real): Point {
    match e
    case Top => (t, 0.0)
    case Bottom => (t, 1.0)
    case Left => (0.0, t)
    case Right => (1.0, t)
  }

  /** The point where the threshold crosses edge `e`. */
  function CrossingPoint(contour: real, e: Edge, k: Corners): Point
    requires Crossed(e, PatternOf(contour, k))
  {
    EdgePoint(e, Interpolate(contour, EdgeFrom(e, k), EdgeTo(e, k)))
  }

  /** The edges each segment of a cell joins, in segment order. */
  datatype Cut = Cut(from: Edge, to: Edge)
  datatype Shape = NoCut | OneCut(Cut) | TwoCuts(Cut, Cut)

  /** The classification as a table indexed by `Mask`. The saddle entries
      9 (`1001`) and 6 (`0110`) are the only ones whose complement differs. */
  const Table: seq<Shape> := [
    /*  0 0000 */ NoCut,
    /*  1 0001 */ OneCut(Cut(Bottom, Right)),
    /*  2 0010 */ OneCut(Cut(Bottom, Left)),
    /*  3 0011 */ OneCut(Cut(Left, Right)),
    /*  4 0100 */ OneCut(Cut(Right, Top)),
    /*  5 0101 */ OneCut(Cut(Top, Bottom)),
    /*  6 0110 */ TwoCuts(Cut(Left, Top), Cut(Bottom, Right)),
    /*  7 0111 */ OneCut(Cut(Top, Left)),
    /*  8 1000 */ OneCut(Cut(Top, Left)),
    /*  9 1001 */ TwoCuts(Cut(Top, Right), Cut(Left, Bottom)),
    /* 10 1010 */ OneCut(Cut(Top, Bottom)),
    /* 11 1011 */ OneCut(Cut(Right, Top)),
    /* 12 1100 */ OneCut(Cut(Left, Right)),
    /* 13 1101 */ OneCut(Cut(Bottom, Left)),
    /* 14 1110 */ OneCut(Cut(Bottom, Right)),
    /* 15 1111 */ NoCut
  ]

  function Cuts(s: Shape): seq<Cut> {
    match s
    case NoCut => []
    case OneCut(c) => [c]
    case TwoCuts(c, d) => [c, d]
  }

  predicate CutCrossed(c: Cut, p: Pattern) {
    Crossed(c.from, p) && Crossed(c.to, p)
  }

  function CutLine(contour: real, c: Cut, k: Corners): Line
    requires CutCrossed(c, PatternOf(contour, k))
  {
    Line(CrossingPoint(contour, c.from, k), CrossingPoint(contour, c.to, k))
  }

  /** Turns a table entry into the segments of a concrete cell. */
  function Realize(contour: real, s: Shape, k: Corners): Contour
    requires forall c <- Cuts(s) :: CutCrossed(c, PatternOf(contour, k))
  {
    match s
    case NoCut => None
    case OneCut(c) => One(CutLine(contour, c, k))
    case TwoCuts(c, d) => Two(CutLine(contour, c, k), CutLine(contour, d, k))
  }

  /** How many segment endpoints of a table entry lie on edge `e`. */
  function Uses(s: Shape, e: Edge): nat {
    match s
    case NoCut => 0
    case OneCut(c) => Ends(c, e)
    case TwoCuts(c, d) => Ends(c, e) + Ends(d, e)
  }

  function Ends(c: Cut, e: Edge): nat {
    (if c.from == e then 1 else 0) + (if c.to == e then 1 else 0)
  }

  /** Every table entry only joins crossed edges, never an edge to itself,
      and uses every crossed edge of its pattern exactly once. */
  lemma TableWellFormed(p: Pattern)
    ensures forall c <- Cuts(Table[Mask(p)]) :: CutCrossed(c, p) && c.from != c.to
    ensures forall e: Edge :: Uses(Table[Mask(p)], e) == if Crossed(e, p) then 1 else 0
  {
  }

  /** The `match` of `FindContour` is exactly the table lookup. */
  lemma FindContourIsTable(contour: real, k: Corners)
    ensures forall c <- Cuts(Table[Mask(PatternOf(contour, k))]) :: CutCrossed(c, PatternOf(contour, k))
    ensures FindContour(contour, k.tl, k.tr, k.bl, k.br) == Realize(contour, Table[Mask(PatternOf(contour, k))], k)
  {
    TableWellFormed(PatternOf(contour, k));
  }

  /** Outside the two saddles a pattern and its complement share one table
      entry; the saddles are complements of each other and pair their four
      crossed edges differently. */
  lemma ComplementSymmetry(p: Pattern)
    ensures !Diagonal(Mask(p)) ==> Table[Mask(Complement(p))] == Table[Mask(p)]
    ensures Diagonal(Mask(p)) ==> Diagonal(Mask(Complement(p))) && Table[Mask(Complement(p))] != Table[Mask(p)]
  {
  }

  datatype Corner = TL | TR | BL | BR

  /** The corners that meet edge `e`. */
  predicate Adjacent(e: Edge, c: Corner) {
    match e
    case Top => c == TL || c == TR
    case Bottom => c == BL || c == BR
    case Left => c == TL || c == BL
    case Right => c == TR || c == BR
  }

  /** A cut joining the two edges that meet at corner `c` separates `c`
      from the rest of the cell. */
  predicate CutsOff(cut: Cut, c: Corner) {
    Adjacent(cut.from, c) && Adjacent(cut.to, c)
  }

  function Inside(c: Corner, p: Pattern): bool {
    match c
    case TL => p.tl
    case TR => p.tr
    case BL => p.bl
    case BR => p.br
  }

  /** In a saddle the two segments cut off the two corners at or below the
      threshold, one each, so the two corners above it stay joined across
      the cell. */
  lemma SaddleCutsCorners(p: Pattern)
    requires Diagonal(Mask(p))
    ensures Table[Mask(p)].TwoCuts?
    ensures exists c: Corner, d: Corner ::
      && c != d && !Inside(c, p) && !Inside(d, p)
      && CutsOff(Cuts(Table[Mask(p)])[0], c) && CutsOff(Cuts(Table[Mask(p)])[1], d)
  {
    if Mask(p) == 9 {
      assert CutsOff(Cuts(Table[Mask(p)])[0], TR) && CutsOff(Cuts(Table[Mask(p)])[1], BL);
    } else {
      assert CutsOff(Cuts(Table[Mask(p)])[0], TL) && CutsOff(Cuts(Table[Mask(p)])[1], BR);
    }
  }

  // ---------------------------------------------------------------------
  // Geometry of the produced segments.

  /** The two endpoints of every segment lie on two different edges of the
      unit cell, each at a fraction in [0, 1] of its edge at which the
      linear interpolation of that edge's corners equals the threshold. */
  lemma CrossingPointOnEdge(contour: real, e: Edge, k: Corners)
    requires Crossed(e, PatternOf(contour, k))
    ensures var t := Interpolate(contour, EdgeFrom(e, k), EdgeTo(e, k));
      && 0.0 <= t <= 1.0
      && CrossingPoint(contour, e, k) == EdgePoint(e, t)
      && EdgeFrom(e, k) + t * (EdgeTo(e, k) - EdgeFrom(e, k)) == contour
  {
    InterpolateInUnit(contour, EdgeFrom(e, k), EdgeTo(e, k));
  }

  /** A point of the closed unit square. */
  predicate InUnitSquare(p: Point) {
    0.0 <= p.0 <= 1.0 && 0.0 <= p.1 <= 1.0
  }

  /** Every endpoint the classifier produces lies in the unit square. */
  lemma FindContourInUnitSquare(contour: real, tl: real, tr: real, bl: real, br: real)
    ensures forall l <- Lines(FindContour(contour, tl, tr, bl, br)) :: InUnitSquare(l.a) && InUnitSquare(l.b)
  {
    var k := Corners(tl, tr, bl, br);
    FindContourIsTable(contour, k);
    var p := PatternOf(contour, k);
    forall e: Edge | Crossed(e, p)
      ensures InUnitSquare(CrossingPoint(contour, e, k))
    {
      CrossingPointOnEdge(contour, e, k);
    }
  }

  /** Negating the threshold and every corner leaves the segments of a
      non-saddle cell unchanged, provided no corner equals the threshold;
      a saddle cell then switches to the other saddle's pairing. */
  lemma SignDuality(contour: real, tl: real, tr: real, bl: real, br: real)
    requires tl != contour && tr != contour && bl != contour && br != contour
    ensures var p := Pattern(tl > contour, tr > contour, bl > contour, br > contour);
      && (!Diagonal(Mask(p)) ==> FindContour(-contour, -tl, -tr, -bl, -br) == FindContour(contour, tl, tr, bl, br))
      && (Diagonal(Mask(p)) ==>
            && (forall c <- Cuts(Table[15 - Mask(p)]) :: CutCrossed(c, p))
            && FindContour(-contour, -tl, -tr, -bl, -br) == Realize(contour, Table[15 - Mask(p)], Corners(tl, tr, bl, br)))
  {
    var k := Corners(tl, tr, bl, br);
    var n := Corners(-tl, -tr, -bl, -br);
    assert PatternOf(-contour, n) == Complement(PatternOf(contour, k));
    FindContourIsTable(contour, k);
    FindContourIsTable(-contour, n);
    ComplementSymmetry(PatternOf(contour, k));
    forall u: real, v: real | u != v
      ensures Interpolate(-contour, -u, -v) == Interpolate(contour, u, v)
    {
    }
  }

  /** The saddle cell with the top-left and bottom-right corners at 1, the
      others at 0 and the threshold at 0.5 gives two segments, each cutting
      off one of the corners at 0. */
  lemma SaddleExample()
    ensures FindContour(0.5, 1.0, 0.0, 0.0, 1.0) ==
      Two(Line((0.5, 0.0), (1.0, 0.5)), Line((0.0, 0.5), (0.5, 1.0)))
  {
  }

  // ---------------------------------------------------------------------
  // Draining a classification result one segment at a time.

  /** The segments of a result, in the order the iterator yields them. */
  function Lines(c: Contour): (r: seq<Line>)
    ensures |r| <= 2
    ensures r == [] <==> c.None?
    ensures |r| == 2 <==> c.Two?
  {
    match c
    case None => []
    case One(a) => [a]
    case Two(a, b) => [a, b]
  }

  /** Different results never yield the same segments. */
  lemma LinesInjective(c: Contour, d: Contour)
    requires Lines(c) == Lines(d)
    ensures c == d
  {
    match c
    case None =>
    case One(a) => assert Lines(d)[0] == a;
    case Two(a, b) => assert Lines(d)[0] == a && Lines(d)[1] == b;
  }

  datatype Option<T> = Nothing | Some(value: T)

  /** The iterator over a result's segments; its state is the part of the
      result not yet yielded. */
  class ContourIterator {
    var rest: Contour

    constructor (c: Contour)
      ensures rest == c
    {
      rest := c;
    }

    /** Yields the next segment, or nothing once exhausted, and drops it
        from the state; an exhausted iterator stays exhausted. */
    method Next() returns (line: Option<Line>)
      modifies this
      ensures old(Lines(rest)) == [] ==> line == Nothing && rest == None
      ensures old(Lines(rest)) != [] ==>
        line == Some(old(Lines(rest))[0]) && Lines(rest) == old(Lines(rest))[1..]
    {
      var next: Contour;
      match rest {
        case None =>
          line, next := Nothing, None;
        case One(a) =>
          line, next := Some(a), None;
        case Two(a, b) =>
          line, next := Some(a), One(b);
          assert [a, b][1..] == [b];
      }
      rest := next;
    }

    /** Runs the iterator to exhaustion, collecting what it yields. */
    method Collect() returns (ls: seq<Line>)
      modifies this
      ensures ls == old(Lines(rest))
      ensures rest == None
    {
      ls := [];
      while rest != None
        invariant ls + Lines(rest) == old(Lines(rest))
        decreases |Lines(rest)|
      {
        var line := Next();
        ls := ls + [line.value];
      }
    }
  }
}

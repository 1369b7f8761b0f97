/**
  The dungeon grid and its ray caster. A ray is followed from cell to cell by comparing the
  parameters of the next vertical and the next horizontal grid line; the theorem is that this
  integer walk agrees with the exact geometry of the ray.
 */
module Raycast {

  datatype GridRows = GridRows(rows: seq<string>) {
    ghost predicate Rectangular() {
      && |rows| > 0
      && |rows[0]| > 0
      && forall i | 0 <= i < |rows| :: |rows[i]| == |rows[0]|
    }

    function Height(): nat { |rows| }

    function Width(): nat
      requires |rows| > 0
    {
      |rows[0]|
    }
  }

  type Grid = g: GridRows | g.Rectangular() witness GridRows(["#"])

  datatype Cell = Cell(x: int, y: int)

  const EPS: real := 0.000000001
  const FAR: real := 1000000000000000000000000000000.0
  const MAX_STEPS := 64

  /** A grid line on an axis that is not taken for parallel is at most this far from the one before. */
  const LONGEST: real := 1000000000.0
  const REACH: real := MAX_STEPS as real * LONGEST

  function Abs(r: real): real { if r < 0.0 then -r else r }

  predicate Inside(g: Grid, c: Cell) {
    0 <= c.x < g.Width() && 0 <= c.y < g.Height()
  }

  /** Everything outside the map counts as wall. */
  predicate IsWall(g: Grid, c: Cell) {
    !Inside(g, c) || g.rows[c.y][c.x] == '#'
  }

  function CellOf(x: real, y: real): Cell { Cell(x.Floor, y.Floor) }

  /** The map predicate asked about a point of the plane. */
  predicate WallAt(g: Grid, x: real, y: real) {
    IsWall(g, CellOf(x, y))
  }

  ghost predicate SolidBorder(g: Grid) {
    forall c: Cell | Inside(g, c) && (c.x == 0 || c.x == g.Width() - 1 || c.y == 0 || c.y == g.Height() - 1) ::
      IsWall(g, c)
  }

  // ---- Exact geometry -----------------------------------------------------------------

  function Along(o: real, v: real, t: real): real { o + t * v }

  datatype Ray = Ray(ox: real, oy: real, dx: real, dy: real) {
    function X(t: real): real { Along(ox, dx, t) }

    function Y(t: real): real { Along(oy, dy, t) }
  }

  /** The closed unit square of a cell contains the ray point at parameter t. */
  ghost predicate Covers(c: Cell, r: Ray, t: real) {
    && c.x as real <= r.X(t) <= c.x as real + 1.0
    && c.y as real <= r.Y(t) <= c.y as real + 1.0
  }

  /** The ray point at t lies strictly inside a cell. */
  ghost predicate InteriorPoint(c: Cell, r: Ray, t: real) {
    && c.x as real < r.X(t) < c.x as real + 1.0
    && c.y as real < r.Y(t) < c.y as real + 1.0
  }

  /** Some open cell, or the cell the ray starts in, covers the ray point at t. */
  ghost predicate ClearAt(g: Grid, r: Ray, t: real) {
    exists c: Cell :: Covers(c, r, t) && (!IsWall(g, c) || c == CellOf(r.ox, r.oy))
  }

  /** The ray as the caster follows it: a component below EPS counts as zero. */
  function Effective(v: real): real { if Abs(v) < EPS then 0.0 else v }

  function Flattened(r: Ray): Ray { Ray(r.ox, r.oy, Effective(r.dx), Effective(r.dy)) }

  /** How far the origin is from the next grid line ahead. */
  function Clearance(o: real, v: real): real {
    if v < 0.0 then o - o.Floor as real else o.Floor as real + 1.0 - o
  }

  /**
    The axis is not parallel to the ray; or its next line is too far away to be crossed; or the ray
    starts on that line, and runs down it, along the cells on the other side.
   */
  predicate Followed(o: real, v: real) {
    Abs(v) >= EPS || Clearance(o, v) * FAR > REACH || Clearance(o, v) == 0.0
  }

  /** The rays for which the walk agrees with the geometry; all with two components of EPS and more are among them. */
  predicate Traceable(r: Ray) {
    && Followed(r.ox, r.dx) && Followed(r.oy, r.dy)
    && (Abs(r.dx) >= EPS || Abs(r.dy) >= EPS)
  }

  /**
    The point at d of the ray as followed lies on the face of cell c through which a ray of this
    direction enters.
   */
  ghost predicate OnEntryFace(c: Cell, r: Ray, d: real, side: int) {
    var f := Flattened(r);
    && Covers(c, f, d)
    && (side == 0 ==> f.X(d) == c.x as real + if r.dx < 0.0 then 1.0 else 0.0)
    && (side == 1 ==> f.Y(d) == c.y as real + if r.dy < 0.0 then 1.0 else 0.0)
  }

  /** c is a wall of the map, touched at d through its entry face, and nothing blocks the ray before d. */
  ghost predicate FirstContact(g: Grid, r: Ray, d: real, side: int, c: Cell) {
    && HitsWall(g, c)
    && OnEntryFace(c, r, d, side)
    && ClearUpTo(g, Flattened(r), d)
  }

  /** The ray reaches cell c, and everything it passed on the way was open. */
  ghost predicate ReachesClear(g: Grid, r: Ray, c: Cell) {
    exists t: real :: ClearUpTo(g, r, t) && Covers(c, r, t)
  }

  ghost predicate ClearUpTo(g: Grid, r: Ray, t: real) {
    && t >= 0.0
    && forall s: real | 0.0 <= s < t :: ClearAt(g, r, s)
  }

  function Gap(a: int, b: int): nat { if a < b then b - a else a - b }

  /** Grid lines between two cells. */
  function LinesBetween(a: Cell, b: Cell): nat { Gap(a.x, b.x) + Gap(a.y, b.y) }

  lemma MulLeft(a: real, b: real, r: real)
    requires a <= b
    ensures r >= 0.0 ==> a * r <= b * r
    ensures r <= 0.0 ==> b * r <= a * r
  {
    assert (b - a) * r == b * r - a * r;
    if r >= 0.0 {
      assert (b - a) * r >= 0.0;
    } else {
      assert (b - a) * -r >= 0.0;
      assert (b - a) * -r == -((b - a) * r);
    }
  }

  /** A quotient by a component of zero is infinite. */
  datatype Distance = Finite(d: real) | Infinite {
    function Absolute(): Distance { if Finite? then Finite(Abs(d)) else Infinite }
  }

  /**
    One axis of the walk: the origin and velocity of the ray on it, the current cell, the direction
    of travel, and the parameter sd of the next grid line, dd after the one before.
   */
  datatype Axis = Axis(o: real, v: real, m: int, step: int, sd: real, dd: real) {
    /** The cell was entered at or after the previous line, and t does not pass the next one. */
    ghost predicate Exact(t: real) {
      && Abs(v) >= EPS
      && (step == 1 || step == -1)
      && (step == 1 <==> v > 0.0)
      && dd > 0.0
      && dd * v == step as real
      && sd * v == m as real + (if step == 1 then 1.0 else 0.0) - o
      && sd - dd <= t <= sd
    }

    /** A parallel axis whose next line is out of reach. */
    ghost predicate Steady() { Abs(v) < EPS && m as real <= o <= m as real + 1.0 && sd > REACH }

    /** A parallel axis on whose line the ray starts, before that line is crossed. */
    ghost predicate Leaning(t: real) {
      -EPS < v < 0.0 && step == -1 && m as real == o && sd == 0.0 && t == 0.0 && dd == FAR
    }

    ghost predicate Follows(t: real) { Exact(t) || Steady() || Leaning(t) }

    /** After i crossings the next line of an axis that is not parallel is this near. */
    ghost predicate Within(i: int) { Abs(v) >= EPS ==> sd <= (i + 1) as real * LONGEST }

    /** Closed form of the parameter at which the ray meets the entry face of cell m. */
    function FaceDistance(): Distance {
      if v == 0.0 then Infinite else Finite((m as real - o + (1 - step) as real / 2.0) / v)
    }

    function Advance(): Axis { this.(m := m + step, sd := sd + dd) }
  }

  /** The axis as the walk sets it up. */
  function StartAxis(o: real, v: real): Axis {
    var dd := if Abs(v) < EPS then FAR else Abs(1.0 / v);
    if v < 0.0 then Axis(o, v, o.Floor, -1, (o - o.Floor as real) * dd, dd)
    else Axis(o, v, o.Floor, 1, (o.Floor as real + 1.0 - o) * dd, dd)
  }

  lemma Reciprocal(v: real)
    requires Abs(v) >= EPS
    ensures Abs(1.0 / v) > 0.0
    ensures Abs(1.0 / v) * v == if v < 0.0 then -1.0 else 1.0
  {
    var q := 1.0 / v;
    assert q * v == 1.0;
    if q >= 0.0 {
      MulLeft(0.0, q, v);
    } else {
      MulLeft(q, 0.0, v);
    }
  }

  lemma Scale(f: real, dd: real, v: real)
    requires 0.0 <= f <= 1.0 && dd > 0.0
    ensures 0.0 <= f * dd <= dd
    ensures f * dd * v == f * (dd * v)
  {
    MulLeft(0.0, f, dd);
    MulLeft(f, 1.0, dd);
  }

  lemma AxisStart(o: real, v: real)
    requires Abs(v) >= EPS
    ensures StartAxis(o, v).Exact(0.0)
    ensures StartAxis(o, v).sd <= StartAxis(o, v).dd
  {
    Reciprocal(v);
    Scale(Clearance(o, v), Abs(1.0 / v), v);
  }

  /** The axis as set up is followed from the start. */
  lemma FollowedAxis(o: real, v: real)
    requires Followed(o, v)
    ensures StartAxis(o, v).Follows(0.0) && StartAxis(o, v).Within(0)
    ensures Abs(v) >= EPS ==> StartAxis(o, v).Exact(0.0)
  {
    if Abs(v) >= EPS {
      AxisStart(o, v);
      StepIsShort(StartAxis(o, v), 0.0);
    }
  }

  lemma StepIsShort(a: Axis, t: real)
    requires a.Exact(t)
    ensures a.dd <= LONGEST
  {
    MulLeft(EPS, Abs(a.v), a.dd);
    assert Abs(a.v) * a.dd == if a.v < 0.0 then -(a.dd * a.v) else a.dd * a.v;
  }

  lemma AxisAdvance(a: Axis, t: real, i: int)
    requires a.Exact(t) && a.Within(i)
    ensures a.Advance().Exact(a.sd) && a.Advance().Within(i + 1)
  {
    assert (a.sd + a.dd) * a.v == a.sd * a.v + a.dd * a.v;
    StepIsShort(a, t);
  }

  /** Between two consecutive grid lines the coordinate stays in [m, m+1]. */
  lemma InSlab(a: Axis, t: real)
    requires a.Follows(t)
    ensures a.m as real <= Along(a.o, Effective(a.v), t) <= a.m as real + 1.0
  {
    if a.Exact(t) {
      ExactInSlab(a, t);
    } else {
      assert Effective(a.v) == 0.0 && Along(a.o, 0.0, t) == a.o;
    }
    hide *;
  }

  lemma ExactInSlab(a: Axis, t: real)
    requires a.Exact(t)
    ensures a.m as real <= Along(a.o, Effective(a.v), t) <= a.m as real + 1.0
  {
    MulLeft(t, a.sd, a.v);
    MulLeft(a.sd - a.dd, t, a.v);
    assert (a.sd - a.dd) * a.v == a.sd * a.v - a.dd * a.v;
  }

  lemma StaysFollowed(a: Axis, t: real, s: real)
    requires a.Follows(t) && t <= s <= a.sd
    ensures a.Follows(s) && (a.Exact(t) ==> a.Exact(s))
  {
  }

  /** The closed form of the hit distance is the accumulated parameter of the line just crossed. */
  lemma ClosedForm(a: Axis, t: real)
    requires a.Exact(t) && t >= 0.0
    ensures a.Advance().FaceDistance() == a.Advance().FaceDistance().Absolute() == Finite(a.sd)
  {
    assert (a.m + a.step) as real - a.o + (1 - a.step) as real / 2.0 == a.sd * a.v;
    assert a.sd * a.v / a.v == a.sd;
  }

  /** Just after crossing, the point sits on the line by which the new cell was entered. */
  lemma OnLine(a: Axis)
    requires a.Exact(a.sd - a.dd)
    ensures Along(a.o, a.v, a.sd - a.dd) == a.m as real + if a.v < 0.0 then 1.0 else 0.0
  {
    assert (a.sd - a.dd) * a.v == a.sd * a.v - a.dd * a.v;
  }

  /** The two axes describe this ray. */
  ghost predicate Tracks(r: Ray, ax: Axis, ay: Axis) {
    ax.o == r.ox && ax.v == r.dx && ay.o == r.oy && ay.v == r.dy
  }

  /** Crossing the line on which the ray starts takes it to the cells on the other side, for good. */
  lemma LeavesLine(a: Axis, t: real)
    requires a.Leaning(t)
    ensures a.Advance().Steady()
    ensures a.Advance().FaceDistance().Absolute() == Finite(a.sd)
    ensures Along(a.o, Effective(a.v), a.sd) == a.Advance().m as real + 1.0
  {
    assert a.Advance().m as real - a.o + (1 - a.step) as real / 2.0 == 0.0;
    assert 0.0 / a.v == 0.0;
  }

  lemma CoveredAt(r: Ray, ax: Axis, ay: Axis, t: real)
    requires Tracks(r, ax, ay) && ax.Follows(t) && ay.Follows(t)
    ensures Covers(Cell(ax.m, ay.m), Flattened(r), t)
  {
    InSlab(ax, t);
    InSlab(ay, t);
    hide Axis.Follows, Along;
  }

  /** Until the nearer of the next two lines is reached, the current cell covers the ray. */
  lemma ClearUntil(g: Grid, r: Ray, ax: Axis, ay: Axis, t: real, until: real)
    requires Tracks(r, ax, ay) && ax.Follows(t) && ay.Follows(t)
    requires until <= ax.sd && until <= ay.sd
    requires !IsWall(g, Cell(ax.m, ay.m)) || Cell(ax.m, ay.m) == CellOf(r.ox, r.oy)
    ensures forall s: real | t <= s <= until :: ClearAt(g, Flattened(r), s)
  {
    forall s: real | t <= s <= until
      ensures ClearAt(g, Flattened(r), s)
    {
      ClearPoint(g, r, ax, ay, t, s);
    }
  }

  lemma ClearPoint(g: Grid, r: Ray, ax: Axis, ay: Axis, t: real, s: real)
    requires Tracks(r, ax, ay) && ax.Follows(t) && ay.Follows(t)
    requires t <= s <= ax.sd && s <= ay.sd
    requires !IsWall(g, Cell(ax.m, ay.m)) || Cell(ax.m, ay.m) == CellOf(r.ox, r.oy)
    ensures ClearAt(g, Flattened(r), s)
  {
    StaysFollowed(ax, t, s);
    StaysFollowed(ay, t, s);
    CoveredAt(r, ax, ay, s);
  }

  /** All that crossing the next vertical line preserves and establishes. */
  lemma CrossX(g: Grid, r: Ray, ax: Axis, ay: Axis, t: real, i: int)
    requires Tracks(r, ax, ay) && (ax.Exact(t) || ax.Leaning(t)) && ay.Follows(t)
    requires t >= 0.0 && ax.Within(i)
    requires ax.sd <= ay.sd
    requires !IsWall(g, Cell(ax.m, ay.m)) || Cell(ax.m, ay.m) == CellOf(r.ox, r.oy)
    ensures ax.Advance().Follows(ax.sd) && ax.Advance().Within(i + 1) && ax.sd >= 0.0
    ensures ay.Follows(ax.sd) && (ax.Exact(t) ==> ax.Advance().Exact(ax.sd)) && (ay.Exact(t) ==> ay.Exact(ax.sd))
    ensures OnEntryFace(Cell(ax.m + ax.step, ay.m), r, ax.sd, 0)
    ensures ax.Advance().FaceDistance().Absolute() == Finite(ax.sd)
    ensures forall s: real | t <= s <= ax.sd :: ClearAt(g, Flattened(r), s)
  {
    ClearUntil(g, r, ax, ay, t, ax.sd);
    if ax.Exact(t) {
      AxisAdvance(ax, t, i);
      OnLine(ax.Advance());
      ClosedForm(ax, t);
    } else {
      LeavesLine(ax, t);
    }
    StaysFollowed(ay, t, ax.sd);
    CoveredAt(r, ax.Advance(), ay, ax.sd);
    hide Along;
  }

  lemma CrossY(g: Grid, r: Ray, ax: Axis, ay: Axis, t: real, i: int)
    requires Tracks(r, ax, ay) && (ay.Exact(t) || ay.Leaning(t)) && ax.Follows(t)
    requires t >= 0.0 && ay.Within(i)
    requires ay.sd <= ax.sd
    requires !IsWall(g, Cell(ax.m, ay.m)) || Cell(ax.m, ay.m) == CellOf(r.ox, r.oy)
    ensures ay.Advance().Follows(ay.sd) && ay.Advance().Within(i + 1) && ay.sd >= 0.0
    ensures ax.Follows(ay.sd) && (ay.Exact(t) ==> ay.Advance().Exact(ay.sd)) && (ax.Exact(t) ==> ax.Exact(ay.sd))
    ensures OnEntryFace(Cell(ax.m, ay.m + ay.step), r, ay.sd, 1)
    ensures ay.Advance().FaceDistance().Absolute() == Finite(ay.sd)
    ensures forall s: real | t <= s <= ay.sd :: ClearAt(g, Flattened(r), s)
  {
    ClearUntil(g, r, ax, ay, t, ay.sd);
    if ay.Exact(t) {
      AxisAdvance(ay, t, i);
      OnLine(ay.Advance());
      ClosedForm(ay, t);
    } else {
      LeavesLine(ay, t);
    }
    StaysFollowed(ax, t, ay.sd);
    CoveredAt(r, ax, ay.Advance(), ay.sd);
    hide Along;
  }

  lemma SameUnit(m: int, w: int, x: real)
    requires m as real <= x <= m as real + 1.0
    requires w as real < x < w as real + 1.0
    ensures m == w
  {
  }

  // ---- The walk -----------------------------------------------------------------------

  /** Inner cells still ahead of m on an axis of the given extent. */
  ghost function Ahead(m: int, step: int, extent: int): int {
    if step == 1 then extent - 2 - m else m - 1
  }

  ghost predicate Inner(g: Grid, c: Cell) {
    1 <= c.x <= g.Width() - 2 && 1 <= c.y <= g.Height() - 2
  }

  ghost predicate HitsWall(g: Grid, c: Cell) { Inside(g, c) && IsWall(g, c) }

  /** A map from whose inside no walk of 64 lines can escape. */
  ghost predicate Sealed(g: Grid) {
    SolidBorder(g) && g.Width() + g.Height() - 5 <= MAX_STEPS
  }

  ghost predicate ClosedIn(g: Grid, start: Cell) { Sealed(g) && !IsWall(g, start) }

  /** After i crossings, always in the same two directions, the walk stands at c without having met a wall. */
  ghost predicate Walked(g: Grid, start: Cell, c: Cell, stepX: int, stepY: int, i: int) {
    && (if stepX == 1 then c.x >= start.x else stepX == -1 && c.x <= start.x)
    && (if stepY == 1 then c.y >= start.y else stepY == -1 && c.y <= start.y)
    && LinesBetween(start, c) == i
    && (!IsWall(g, c) || c == start)
    && (ClosedIn(g, start) ==>
          && Inner(g, c)
          && i + Ahead(c.x, stepX, g.Width()) + Ahead(c.y, stepY, g.Height()) <= g.Width() + g.Height() - 6)
  }

  lemma WalkOn(g: Grid, start: Cell, c: Cell, stepX: int, stepY: int, i: int, next: Cell)
    requires Walked(g, start, c, stepX, stepY, i)
    requires next == Cell(c.x + stepX, c.y) || next == Cell(c.x, c.y + stepY)
    ensures ClosedIn(g, start) ==> Inside(g, next)
    ensures !IsWall(g, next) ==> Walked(g, start, next, stepX, stepY, i + 1)
  {
  }

  /**
    What a cast promises about its result and the cell where the walk ended. Either that cell is a
    wall of the map, and the distance and side are those of the first contact; or the ray has left
    the map, or crossed its 64th grid line in the open, and the sentinel is returned.
   */
  ghost predicate CastResult(g: Grid, r: Ray, d: Distance, side: int, end: Cell) {
    && (HitsWall(g, end) ==>
          && (side == 0 || side == 1)
          && (Traceable(r) ==> d.Finite? && FirstContact(g, r, d.d, side, end)))
    && (!HitsWall(g, end) ==>
          && d == Finite(FAR) && side == 0
          && !ClosedIn(g, CellOf(r.ox, r.oy))
          && (!Inside(g, end) || LinesBetween(CellOf(r.ox, r.oy), end) == MAX_STEPS)
          && (Traceable(r) ==> ReachesClear(g, Flattened(r), end)))
  }

  /** This distance and side are the result of casting the ray. */
  ghost predicate Casts(g: Grid, r: Ray, d: Distance, side: int) {
    exists end: Cell :: CastResult(g, r, d, side, end)
  }

  /** This distance and side are the result of casting the ray; it met a wall, nearer than the sentinel. */
  ghost predicate SeesWall(g: Grid, r: Ray, d: Distance, side: int) {
    && (exists end: Cell :: CastResult(g, r, d, side, end) && HitsWall(g, end))
    && (Traceable(r) ==> d.Finite? && 0.0 <= d.d < FAR)
  }

  /** Both axes are followed up to t, one of them at least across its lines. */
  ghost predicate FollowBoth(ax: Axis, ay: Axis, t: real, i: int) {
    && ax.Follows(t) && ay.Follows(t) && (ax.Exact(t) || ay.Exact(t))
    && ax.Within(i) && ay.Within(i)
  }

  /** The invariant of the walk: after i crossings the ray enters the current cell at t. */
  ghost predicate OnCourse(g: Grid, r: Ray, ax: Axis, ay: Axis, t: real, i: int) {
    && Tracks(r, ax, ay)
    && Walked(g, CellOf(r.ox, r.oy), Cell(ax.m, ay.m), ax.step, ay.step, i)
    && (Traceable(r) ==> FollowBoth(ax, ay, t, i) && ClearUpTo(g, Flattened(r), t))
  }

  lemma SetOut(g: Grid, r: Ray)
    ensures OnCourse(g, r, StartAxis(r.ox, r.dx), StartAxis(r.oy, r.dy), 0.0, 0)
  {
    if Traceable(r) {
      FollowedAxis(r.ox, r.dx);
      FollowedAxis(r.oy, r.dy);
    }
    hide Axis.Exact, Axis.Steady, Followed, Clearance;
  }

  /** The axis whose line comes first is not one that is out of reach. */
  lemma NearerIsExact(ax: Axis, ay: Axis, t: real, i: int)
    requires FollowBoth(ax, ay, t, i) && i < MAX_STEPS
    ensures ax.sd < ay.sd ==> ax.Exact(t) || ax.Leaning(t)
    ensures ay.sd <= ax.sd ==> ay.Exact(t) || ay.Leaning(t)
  {
    assert (i + 1) as real * LONGEST <= REACH;
  }

  /** The cell entered after one more crossing decides between a hit, an exit and going on. */
  lemma Arrive(g: Grid, r: Ray, ax: Axis, ay: Axis, t: real, side: int, d: Distance, start: Cell, from: Cell, i: int)
    requires Tracks(r, ax, ay) && start == CellOf(r.ox, r.oy)
    requires Walked(g, start, from, ax.step, ay.step, i)
    requires Cell(ax.m, ay.m) == Cell(from.x + ax.step, from.y) || Cell(ax.m, ay.m) == Cell(from.x, from.y + ay.step)
    requires side == 0 || side == 1
    requires Traceable(r) ==> FollowBoth(ax, ay, t, i + 1) && ClearUpTo(g, Flattened(r), t)
    requires Traceable(r) ==> d == Finite(t) && OnEntryFace(Cell(ax.m, ay.m), r, t, side)
    ensures HitsWall(g, Cell(ax.m, ay.m)) ==> CastResult(g, r, d, side, Cell(ax.m, ay.m))
    ensures !Inside(g, Cell(ax.m, ay.m)) ==> CastResult(g, r, Finite(FAR), 0, Cell(ax.m, ay.m))
    ensures !IsWall(g, Cell(ax.m, ay.m)) ==> OnCourse(g, r, ax, ay, t, i + 1)
  {
    WalkOn(g, start, from, ax.step, ay.step, i, Cell(ax.m, ay.m));
    hide FollowBoth, Covers, ClearUpTo, Traceable, Tracks, Flattened;
    if Traceable(r) {
      assert Covers(Cell(ax.m, ay.m), Flattened(r), t);
    }
  }

  lemma TracedX(g: Grid, r: Ray, ax: Axis, ay: Axis, t: real, i: int)
    requires Tracks(r, ax, ay) && FollowBoth(ax, ay, t, i) && ClearUpTo(g, Flattened(r), t)
    requires ax.sd < ay.sd && i < MAX_STEPS
    requires !IsWall(g, Cell(ax.m, ay.m)) || Cell(ax.m, ay.m) == CellOf(r.ox, r.oy)
    ensures FollowBoth(ax.Advance(), ay, ax.sd, i + 1) && ClearUpTo(g, Flattened(r), ax.sd)
    ensures OnEntryFace(Cell(ax.m + ax.step, ay.m), r, ax.sd, 0)
    ensures ax.Advance().FaceDistance().Absolute() == Finite(ax.sd)
  {
    NearerIsExact(ax, ay, t, i);
    CrossX(g, r, ax, ay, t, i);
    hide OnEntryFace, ClearAt, Flattened, Axis.FaceDistance;
  }

  lemma StepX(g: Grid, r: Ray, ax: Axis, ay: Axis, t: real, i: int)
    requires OnCourse(g, r, ax, ay, t, i) && ax.sd < ay.sd && i < MAX_STEPS
    ensures var a, c := ax.Advance(), Cell(ax.m + ax.step, ay.m);
            && (HitsWall(g, c) ==> CastResult(g, r, a.FaceDistance().Absolute(), 0, c))
            && (!Inside(g, c) ==> CastResult(g, r, Finite(FAR), 0, c))
            && (!IsWall(g, c) ==> OnCourse(g, r, a, ay, ax.sd, i + 1))
  {
    hide FollowBoth, ClearUpTo, Axis.FaceDistance, OnEntryFace, Traceable, Flattened;
    if Traceable(r) {
      TracedX(g, r, ax, ay, t, i);
    }
    Arrive(g, r, ax.Advance(), ay, ax.sd, 0, ax.Advance().FaceDistance().Absolute(), CellOf(r.ox, r.oy), Cell(ax.m, ay.m), i);
  }

  lemma TracedY(g: Grid, r: Ray, ax: Axis, ay: Axis, t: real, i: int)
    requires Tracks(r, ax, ay) && FollowBoth(ax, ay, t, i) && ClearUpTo(g, Flattened(r), t)
    requires ay.sd <= ax.sd && i < MAX_STEPS
    requires !IsWall(g, Cell(ax.m, ay.m)) || Cell(ax.m, ay.m) == CellOf(r.ox, r.oy)
    ensures FollowBoth(ax, ay.Advance(), ay.sd, i + 1) && ClearUpTo(g, Flattened(r), ay.sd)
    ensures OnEntryFace(Cell(ax.m, ay.m + ay.step), r, ay.sd, 1)
    ensures ay.Advance().FaceDistance().Absolute() == Finite(ay.sd)
  {
    NearerIsExact(ax, ay, t, i);
    CrossY(g, r, ax, ay, t, i);
    hide OnEntryFace, ClearAt, Flattened, Axis.FaceDistance;
  }

  lemma StepY(g: Grid, r: Ray, ax: Axis, ay: Axis, t: real, i: int)
    requires OnCourse(g, r, ax, ay, t, i) && ay.sd <= ax.sd && i < MAX_STEPS
    ensures var a, c := ay.Advance(), Cell(ax.m, ay.m + ay.step);
            && (HitsWall(g, c) ==> CastResult(g, r, a.FaceDistance().Absolute(), 1, c))
            && (!Inside(g, c) ==> CastResult(g, r, Finite(FAR), 0, c))
            && (!IsWall(g, c) ==> OnCourse(g, r, ax, a, ay.sd, i + 1))
  {
    hide FollowBoth, ClearUpTo, Axis.FaceDistance, OnEntryFace, Traceable, Flattened;
    if Traceable(r) {
      TracedY(g, r, ax, ay, t, i);
    }
    Arrive(g, r, ax, ay.Advance(), ay.sd, 1, ay.Advance().FaceDistance().Absolute(), CellOf(r.ox, r.oy), Cell(ax.m, ay.m), i);
  }

  lemma OutOfSteps(g: Grid, r: Ray, ax: Axis, ay: Axis, t: real)
    requires OnCourse(g, r, ax, ay, t, MAX_STEPS)
    ensures CastResult(g, r, Finite(FAR), 0, Cell(ax.m, ay.m))
  {
    if Traceable(r) {
      CoveredAt(r, ax, ay, t);
    }
    hide Axis.Follows, Traceable, Flattened;
  }

  method CastRay(g: Grid, ox: real, oy: real, rdx: real, rdy: real) returns (d: Distance, side: int)
    ensures Casts(g, Ray(ox, oy, rdx, rdy), d, side)
  {
    var ax, ay := StartAxis(ox, rdx), StartAxis(oy, rdy);
    ghost var r := Ray(ox, oy, rdx, rdy);
    ghost var t := 0.0;  // parameter at which the current cell was entered
    SetOut(g, r);
    side := 0;
    hide CastResult, Walked, FollowBoth, Axis.FaceDistance, Traceable;
    for i := 0 to MAX_STEPS
      invariant OnCourse(g, r, ax, ay, t, i)
    {
      if ax.sd < ay.sd {
        StepX(g, r, ax, ay, t, i);
        t := ax.sd;
        ax := ax.(sd := ax.sd + ax.dd, m := ax.m + ax.step);
        side := 0;
      } else {
        StepY(g, r, ax, ay, t, i);
        t := ay.sd;
        ay := ay.(sd := ay.sd + ay.dd, m := ay.m + ay.step);
        side := 1;
      }
      ghost var end := Cell(ax.m, ay.m);
      if ay.m < 0 || ay.m >= g.Height() || ax.m < 0 || ax.m >= g.Width() {
        assert CastResult(g, r, Finite(FAR), 0, end);
        return Finite(FAR), 0;
      }
      if g.rows[ay.m][ax.m] == '#' {
        d := if side == 0 then ax.FaceDistance() else ay.FaceDistance();
        assert CastResult(g, r, d.Absolute(), side, end);
        return d.Absolute(), side;
      }
    }
    OutOfSteps(g, r, ax, ay, t);
    return Finite(FAR), 0;
  }

  /** Rays with two components of EPS and more are followed as they are; so are those parallel to an axis. */
  lemma FlattenedIsRay(r: Ray)
    ensures Flattened(r) == r <==> (r.dx == 0.0 || Abs(r.dx) >= EPS) && (r.dy == 0.0 || Abs(r.dy) >= EPS)
    ensures Abs(r.dx) >= EPS && Abs(r.dy) >= EPS ==> Traceable(r)
  {
  }

  /**
    Behind the line next to a parallel ray the cells cover the ray exactly when it starts on that
    line: the walk goes astray when it crosses one that the ray is only near to.
   */
  lemma BehindNextLine(o: real, v: real)
    requires Abs(v) < EPS
    ensures var m := StartAxis(o, v).Advance().m as real;
            m <= o <= m + 1.0 <==> Clearance(o, v) == 0.0
  {
    hide Abs;
    assert StartAxis(o, v).Advance().m == if v < 0.0 then o.Floor - 1 else o.Floor + 1;
  }

  /** Between two points less than 69 apart on an axis that is not parallel, the parameter is far below the sentinel. */
  lemma AxisIsNear(o: real, v: real, d: real)
    requires Abs(v) >= EPS && d >= 0.0
    requires -69.0 <= Along(o, v, d) - o <= 69.0
    ensures d < FAR
  {
    if v > 0.0 {
      MulLeft(EPS, v, d);
      assert v * d == d * v;
    } else {
      MulLeft(EPS, -v, d);
      assert -v * d == -(d * v);
    }
  }

  /** The contact of a ray from inside a sealed map is nearer than the sentinel. */
  lemma ContactIsNear(g: Grid, r: Ray, d: real, side: int, c: Cell)
    requires Sealed(g) && !WallAt(g, r.ox, r.oy)
    requires Traceable(r) && FirstContact(g, r, d, side, c)
    ensures 0.0 <= d < FAR
  {
    var f := Flattened(r);
    assert Covers(c, f, d) && d >= 0.0;
    hide Along, ClearUpTo, SolidBorder, Followed;
    assert -69.0 <= Along(r.ox, f.dx, d) - r.ox <= 69.0;
    assert -69.0 <= Along(r.oy, f.dy, d) - r.oy <= 69.0;
    if Abs(r.dx) >= EPS {
      AxisIsNear(r.ox, r.dx, d);
    } else {
      AxisIsNear(r.oy, r.dy, d);
    }
  }

  /** A contact rules out every earlier point strictly inside a wall, once the ray starts in the open. */
  lemma NoWallBeforeContact(g: Grid, r: Ray, d: real, side: int, c: Cell, t: real, w: Cell)
    requires FirstContact(g, r, d, side, c) && !WallAt(g, r.ox, r.oy)
    requires 0.0 <= t < d && IsWall(g, w)
    ensures !InteriorPoint(w, Flattened(r), t)
  {
    var f := Flattened(r);
    assert ClearAt(g, f, t);
    var open: Cell :| Covers(open, f, t) && (!IsWall(g, open) || open == CellOf(r.ox, r.oy));
    if InteriorPoint(w, f, t) {
      SameUnit(open.x, w.x, f.X(t));
      SameUnit(open.y, w.y, f.Y(t));
    }
  }
}

/**
  The wandering viewer: each frame looks along a fan of rays and then tries to move one step.
  Cosine and sine of the heading are arbitrary reals in [-1, 1].
 */
module Walker {

  import opened Raycast

  const SPEED: real := 0.12
  const RADIUS: real := 0.25
  const PI: real := 3.141592653589793
  const TWO_PI: real := PI * 2.0

  /** The map of the demo. */
  const MAP: Grid := GridRows([
    "##############",
    "#............#",
    "#...###......#",
    "#...#........#",
    "#...#..####..#",
    "#...#..#.....#",
    "#......#.....#",
    "#.######.....#",
    "#............#",
    "##############"
  ])

  /** No point of the square around (x, y) lies in a wall. */
  ghost predicate BoxFree(g: Grid, x: real, y: real) {
    forall qx: real, qy: real | x - RADIUS <= qx <= x + RADIUS && y - RADIUS <= qy <= y + RADIUS :: !WallAt(g, qx, qy)
  }

  /** The four corner probes of a step. */
  predicate Blocked(g: Grid, x: real, y: real) {
    || WallAt(g, x + RADIUS, y + RADIUS)
    || WallAt(g, x - RADIUS, y - RADIUS)
    || WallAt(g, x + RADIUS, y - RADIUS)
    || WallAt(g, x - RADIUS, y + RADIUS)
  }

  /** Because the square is narrower than a cell, its corners decide for all of its points. */
  lemma CornersDecide(g: Grid, x: real, y: real)
    ensures Blocked(g, x, y) <==> !BoxFree(g, x, y)
  {
    if !Blocked(g, x, y) {
      forall qx: real, qy: real | x - RADIUS <= qx <= x + RADIUS && y - RADIUS <= qy <= y + RADIUS
        ensures !WallAt(g, qx, qy)
      {
        assert qx.Floor == (x - RADIUS).Floor || qx.Floor == (x + RADIUS).Floor;
        assert qy.Floor == (y - RADIUS).Floor || qy.Floor == (y + RADIUS).Floor;
      }
    }
  }

  /** The straight way from (x, y) to (x2, y2) never meets a wall. */
  ghost predicate SegmentFree(g: Grid, x: real, y: real, x2: real, y2: real) {
    forall u: real | 0.0 <= u <= 1.0 :: FreeBetween(g, x, y, x2, y2, u)
  }

  ghost predicate FreeBetween(g: Grid, x: real, y: real, x2: real, y2: real, u: real) {
    !WallAt(g, Along(x, x2 - x, u), Along(y, y2 - y, u))
  }

  lemma ShortStep(o: real, v: real, u: real)
    requires -SPEED <= v <= SPEED && 0.0 <= u <= 1.0
    ensures o + v - RADIUS <= Along(o, v, u) <= o + v + RADIUS
  {
    MulLeft(u, 1.0, v);
    MulLeft(0.0, u, v);
    if v >= 0.0 {
      assert 0.0 <= u * v <= v;
    } else {
      assert v <= u * v <= 0.0;
    }
  }

  lemma StepStaysInBox(g: Grid, x: real, y: real, x2: real, y2: real)
    requires BoxFree(g, x2, y2)
    requires -SPEED <= x2 - x <= SPEED && -SPEED <= y2 - y <= SPEED
    ensures SegmentFree(g, x, y, x2, y2)
  {
    forall u: real | 0.0 <= u <= 1.0
      ensures FreeBetween(g, x, y, x2, y2, u)
    {
      ShortStep(x, x2 - x, u);
      ShortStep(y, y2 - y, u);
      hide Along, WallAt;
    }
  }

  /** The same direction, some whole number of turns away. */
  ghost predicate SameHeading(a: real, b: real) {
    exists k: int :: IsTurns(a, b, k)
  }

  ghost predicate IsTurns(a: real, b: real, k: int) { a == b + k as real * TWO_PI }

  lemma MapSealed()
    ensures Sealed(MAP) && BoxFree(MAP, 2.5, 2.5)
  {
    CornersDecide(MAP, 2.5, 2.5);
  }

  /** From a free position every ray that is cast ends at a wall of a sealed map. */
  lemma FreePositionSeesWall(g: Grid, r: Ray, d: Distance, side: int)
    requires Sealed(g) && BoxFree(g, r.ox, r.oy)
    requires Casts(g, r, d, side)
    ensures SeesWall(g, r, d, side)
    ensures Traceable(r) ==>
              d.Finite? && d.d < FAR && exists end: Cell :: FirstContact(g, r, d.d, side, end)
  {
    assert !WallAt(g, r.ox, r.oy);
    var end: Cell :| CastResult(g, r, d, side, end);
    assert HitsWall(g, end);
    hide Traceable, Flattened, FirstContact, BoxFree;
    if Traceable(r) {
      ContactIsNear(g, r, d.d, side, end);
    }
  }

  /** The columns of a frame drawn at (x, y): every one shows the result of its ray, which met a wall. */
  ghost predicate Scene(g: Grid, x: real, y: real, rays: seq<(real, real)>, dists: seq<Distance>, sides: seq<int>) {
    && |dists| == |sides| == |rays|
    && forall i | 0 <= i < |rays| :: SeesWall(g, Ray(x, y, rays[i].0, rays[i].1), dists[i], sides[i])
  }

  datatype FrameInput = FrameInput(cos: real, sin: real, rays: seq<(real, real)>) {
    ghost predicate Valid() {
      Abs(cos) <= 1.0 && Abs(sin) <= 1.0
    }
  }

  /** Where a frame wants to go. */
  function Onward(from: (real, real), input: FrameInput): (real, real) {
    (from.0 + input.cos * SPEED, from.1 + input.sin * SPEED)
  }

  ghost predicate BlockedAhead(g: Grid, from: (real, real), input: FrameInput) {
    Blocked(g, Onward(from, input).0, Onward(from, input).1)
  }

  /**
    One frame of the walk: a step, or a turn by a fifth of a whole turn, one way on odd frames and the
    other way on even ones; a drift on every thirtieth frame; and a heading in range.
   */
  ghost predicate FrameStep(g: Grid, from: (real, real), pa: real, frame: nat, input: FrameInput, to: (real, real), pa': real) {
    var blocked := BlockedAhead(g, from, input);
    && to == (if blocked then from else Onward(from, input))
    && SameHeading(pa', pa + (if !blocked then 0.0 else if frame % 2 == 1 then TWO_PI / 5.0 else -TWO_PI / 5.0)
                           + (if frame % 30 == 0 then 0.05 else 0.0))
    && 0.0 <= pa' < TWO_PI
  }

  /** Five times the heading has changed by n whole turns, and some that are multiples of five. */
  ghost predicate TurnedByFifths(pa: real, pa': real, n: int) {
    exists k: int :: IsTurns(5.0 * pa', 5.0 * pa, n + 5 * k)
  }

  /** What a frame does, by where the square of the viewer fits. */
  lemma FrameTurns(g: Grid, from: (real, real), pa: real, frame: nat, input: FrameInput, to: (real, real), pa': real)
    requires FrameStep(g, from, pa, frame, input, to, pa')
    ensures var fits := BoxFree(g, from.0 + input.cos * 0.12, from.1 + input.sin * 0.12);
            && (fits ==> to == (from.0 + input.cos * 0.12, from.1 + input.sin * 0.12))
            && (!fits ==> to == from)
            && (fits && frame % 30 != 0 ==> SameHeading(pa', pa))
            && (fits && frame % 30 == 0 ==> SameHeading(pa', pa + 0.05))
            && (!fits && frame % 30 != 0 ==> TurnedByFifths(pa, pa', if frame % 2 == 1 then 1 else -1))
            && (!fits && frame % 30 == 0 ==> TurnedByFifths(pa + 0.05, pa', if frame % 2 == 1 then 1 else -1))
  {
    var next := Onward(from, input);
    CornersDecide(g, next.0, next.1);
    hide Blocked, BoxFree;
    var turn := if frame % 2 == 1 then 1 else -1;
    var drift := if frame % 30 == 0 then 0.05 else 0.0;
    if BlockedAhead(g, from, input) {
      var k: int :| IsTurns(pa', pa + (if frame % 2 == 1 then TWO_PI / 5.0 else -TWO_PI / 5.0) + drift, k);
      assert IsTurns(5.0 * pa', 5.0 * (pa + drift), turn + 5 * k);
    } else {
      assert pa + 0.0 + drift == pa + drift;
    }
  }

  /** The rays of a frame do not matter to its step. */
  lemma SameFrame(g: Grid, from: (real, real), pa: real, frame: nat, input: FrameInput, to: (real, real), pa': real)
    requires FrameStep(g, from, pa, frame, FrameInput(input.cos, input.sin, []), to, pa')
    ensures FrameStep(g, from, pa, frame, input, to, pa')
  {
  }

  lemma TurnsCompose(a: real, b: real, x: real, y: real)
    requires SameHeading(b, a + x) && SameHeading(y, b + -x)
    ensures SameHeading(y, a)
  {
    var k: int :| IsTurns(b, a + x, k);
    var m: int :| IsTurns(y, b + -x, m);
    assert IsTurns(y, a, k + m);
  }

  /** Of two blocked frames in a row, neither a thirtieth, the second turns back what the first has turned. */
  lemma TurnsCancel(g: Grid, at: seq<(real, real)>, headings: seq<real>, frame: nat, inputs: seq<FrameInput>)
    requires |at| == |headings| == 3 && |inputs| == 2 && frame % 30 != 0 && (frame + 1) % 30 != 0
    requires forall i | 0 <= i < 2 :: FrameStep(g, at[i], headings[i], frame + i, inputs[i], at[i + 1], headings[i + 1])
    requires BlockedAhead(g, at[0], inputs[0]) && BlockedAhead(g, at[1], inputs[1])
    ensures at[2] == at[0] && SameHeading(headings[2], headings[0])
  {
    var x := if frame % 2 == 1 then TWO_PI / 5.0 else -TWO_PI / 5.0;
    hide BlockedAhead, SameHeading, FrameStep;
    assert FrameStep(g, at[0], headings[0], frame + 0, inputs[0], at[1], headings[1]);
    assert FrameStep(g, at[1], headings[1], frame + 1, inputs[1], at[2], headings[2]);
    BlockedFrame(g, at[0], headings[0], frame, inputs[0], at[1], headings[1], x);
    assert (frame + 1) % 2 == 1 <==> frame % 2 != 1;
    BlockedFrame(g, at[1], headings[1], frame + 1, inputs[1], at[2], headings[2], -x);
    TurnsCompose(headings[0], headings[1], x, headings[2]);
  }

  lemma BlockedFrame(g: Grid, from: (real, real), pa: real, frame: nat, input: FrameInput, to: (real, real), pa': real, x: real)
    requires FrameStep(g, from, pa, frame, input, to, pa') && BlockedAhead(g, from, input) && frame % 30 != 0
    requires x == if frame % 2 == 1 then TWO_PI / 5.0 else -TWO_PI / 5.0
    ensures to == from && SameHeading(pa', pa + x)
  {
    hide BlockedAhead, SameHeading;
    assert pa + x + 0.0 == pa + x;
  }

  class Viewer {
    const g: Grid
    var px: real
    var py: real
    var pa: real

    ghost predicate Valid()
      reads this
    {
      BoxFree(g, px, py)
    }

    constructor ()
      ensures g == MAP && Valid()
    {
      g := MAP;
      px, py, pa := 2.5, 2.5, 0.3;
      new;
      MapSealed();
    }

    method StepAi(frame: nat, cos: real, sin: real)
      requires Valid()
      requires Abs(cos) <= 1.0 && Abs(sin) <= 1.0
      modifies this
      ensures Valid()
      ensures FrameStep(g, (old(px), old(py)), old(pa), frame, FrameInput(cos, sin, []), (px, py), pa)
      ensures SegmentFree(g, old(px), old(py), px, py)
    {
      var nx := px + cos * SPEED;
      var ny := py + sin * SPEED;
      var blocked := WallAt(g, nx + RADIUS, ny + RADIUS) || WallAt(g, nx - RADIUS, ny - RADIUS) ||
                     WallAt(g, nx + RADIUS, ny - RADIUS) || WallAt(g, nx - RADIUS, ny + RADIUS);
      CornersDecide(g, nx, ny);
      assert blocked == Blocked(g, nx, ny);
      hide WallAt, Blocked, BoxFree, SameHeading, SegmentFree;
      if blocked {
        pa := pa + (if frame % 2 == 1 then 1.0 else -1.0) * PI / 2.5;
      } else {
        px := nx;
        py := ny;
      }
      StepStaysInBox(g, old(px), old(py), px, py);
      if frame % 30 == 0 {
        pa := pa + 0.05;
      }
      assert pa == old(pa) + (if !blocked then 0.0 else if frame % 2 == 1 then TWO_PI / 5.0 else -TWO_PI / 5.0)
                           + (if frame % 30 == 0 then 0.05 else 0.0);
      Normalise(pa);
    }

    method Normalise(ghost target: real)
      requires pa == target
      modifies this`pa
      ensures 0.0 <= pa < TWO_PI && SameHeading(pa, target)
    {
      ghost var k := 0;
      while pa >= TWO_PI
        invariant IsTurns(pa, target, k)
        decreases pa.Floor
      {
        pa := pa - TWO_PI;
        k := k - 1;
      }
      while pa < 0.0
        invariant pa < TWO_PI && IsTurns(pa, target, k)
        decreases (-pa).Floor
      {
        pa := pa + TWO_PI;
        k := k + 1;
      }
    }

    method RenderFrame(rays: seq<(real, real)>) returns (dists: seq<Distance>, sides: seq<int>)
      requires Valid()
      ensures |dists| == |sides| == |rays|
      ensures forall i | 0 <= i < |rays| :: Casts(g, Ray(px, py, rays[i].0, rays[i].1), dists[i], sides[i])
      ensures Sealed(g) ==> Scene(g, px, py, rays, dists, sides)
    {
      dists, sides := [], [];
      hide Casts, SeesWall, Sealed, BoxFree;
      for c := 0 to |rays|
        invariant |dists| == |sides| == c
        invariant forall i | 0 <= i < c :: Casts(g, Ray(px, py, rays[i].0, rays[i].1), dists[i], sides[i])
        invariant Sealed(g) ==> forall i | 0 <= i < c :: SeesWall(g, Ray(px, py, rays[i].0, rays[i].1), dists[i], sides[i])
      {
        var d, s := CastRay(g, px, py, rays[c].0, rays[c].1);
        if Sealed(g) {
          FreePositionSeesWall(g, Ray(px, py, rays[c].0, rays[c].1), d, s);
        }
        dists, sides := dists + [d], sides + [s];
      }
    }

    /** Any number of frames: the whole trail, and every ray of every frame, stays as promised. */
    method Wander(frames: seq<FrameInput>)
      returns (ghost trail: seq<(real, real)>, ghost headings: seq<real>, scenes: seq<(seq<Distance>, seq<int>)>)
      requires Valid() && Sealed(g)
      requires forall i | 0 <= i < |frames| :: frames[i].Valid()
      modifies this
      ensures Valid()
      ensures |trail| == |frames| + 1 && trail[0] == (old(px), old(py)) && trail[|frames|] == (px, py)
      ensures |headings| == |frames| + 1 && headings[0] == old(pa) && headings[|frames|] == pa
      ensures forall i | 0 <= i < |frames| ::
                FrameStep(g, trail[i], headings[i], i, frames[i], trail[i + 1], headings[i + 1])
      ensures forall i | 0 <= i < |trail| :: BoxFree(g, trail[i].0, trail[i].1)
      ensures forall i | 0 <= i < |frames| ::
                SegmentFree(g, trail[i].0, trail[i].1, trail[i + 1].0, trail[i + 1].1)
      ensures forall i | 0 <= i < |frames| - 1 && i % 30 != 0 && (i + 1) % 30 != 0
                && BlockedAhead(g, trail[i], frames[i]) && BlockedAhead(g, trail[i + 1], frames[i + 1]) ::
                trail[i + 2] == trail[i] && SameHeading(headings[i + 2], headings[i])
      ensures |scenes| == |frames|
      ensures forall i | 0 <= i < |frames| ::
                Scene(g, trail[i].0, trail[i].1, frames[i].rays, scenes[i].0, scenes[i].1)
    {
      trail, headings, scenes := [(px, py)], [pa], [];
      hide BoxFree, SegmentFree, Sealed, Scene, Blocked, FrameStep;
      for frame := 0 to |frames|
        invariant Valid()
        invariant |trail| == frame + 1 && trail[0] == (old(px), old(py)) && trail[frame] == (px, py)
        invariant |headings| == frame + 1 && headings[0] == old(pa) && headings[frame] == pa
        invariant forall i | 0 <= i < frame ::
                    FrameStep(g, trail[i], headings[i], i, frames[i], trail[i + 1], headings[i + 1])
        invariant forall i | 0 <= i < |trail| :: BoxFree(g, trail[i].0, trail[i].1)
        invariant forall i | 0 <= i < frame ::
                    SegmentFree(g, trail[i].0, trail[i].1, trail[i + 1].0, trail[i + 1].1)
        invariant |scenes| == frame
        invariant forall i | 0 <= i < frame ::
                    Scene(g, trail[i].0, trail[i].1, frames[i].rays, scenes[i].0, scenes[i].1)
      {
        var dists, sides := RenderFrame(frames[frame].rays);
        scenes := scenes + [(dists, sides)];
        StepAi(frame, frames[frame].cos, frames[frame].sin);
        SameFrame(g, trail[frame], headings[frame], frame, frames[frame], (px, py), pa);
        trail, headings := trail + [(px, py)], headings + [pa];
      }
      forall i | 0 <= i < |frames| - 1 && i % 30 != 0 && (i + 1) % 30 != 0
        && BlockedAhead(g, trail[i], frames[i]) && BlockedAhead(g, trail[i + 1], frames[i + 1])
        ensures trail[i + 2] == trail[i] && SameHeading(headings[i + 2], headings[i])
      {
        TurnsCancel(g, trail[i..i + 3], headings[i..i + 3], i, frames[i..i + 2]);
      }
    }
  }
}

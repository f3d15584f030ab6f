/** The integer geometry of the Bresenham line: where it stands after k moves. */
module LineGeometry {
  import opened Integers

  /** Steps along the shorter axis after k moves along the longer one: k * minor / major, rounded (ties down). */
  function MinorSteps(k: nat, major: nat, minor: nat): nat {
    if major == 0 then 0 else (2 * (k * minor) + major - 1) / (2 * major)
  }

  /** x-steps and y-steps taken after k moves of a line with extents dx and dy. */
  function StepsTaken(k: nat, dx: nat, dy: nat): (nat, nat) {
    if dx >= dy then (k, MinorSteps(k, dx, dy)) else (MinorSteps(k, dy, dx), k)
  }

  /** The error term the loop carries after a x-steps and b y-steps. */
  function ErrorTerm(a: nat, b: nat, dx: nat, dy: nat): int {
    dx * (b + 1) - dy * (a + 1)
  }

  /** The direction of travel from one coordinate to another, as the loop picks it. */
  function Direction(from: int, to: int): int {
    if from < to then 1 else -1
  }

  /** The pixel visited after k moves from (x0, y0) to (x1, y1). */
  function LinePixel(k: nat, x0: int, y0: int, x1: int, y1: int): (int, int) {
    var (a, b) := StepsTaken(k, Abs(x1 - x0), Abs(y1 - y0));
    (x0 + Direction(x0, x1) * a, y0 + Direction(y0, y1) * b)
  }

  /** (x, y) is one of the first n pixels of the line. */
  ghost predicate OnLine(n: nat, x0: int, y0: int, x1: int, y1: int, x: int, y: int) {
    exists k: nat :: k < n && LinePixel(k, x0, y0, x1, y1) == (x, y)
  }

  lemma MinorStepsBounds(k: nat, major: nat, minor: nat)
    requires major >= 1
    ensures var b := MinorSteps(k, major, minor); 0 <= 2 * (b * major - k * minor) + major < 2 * major
  {
    var n := 2 * (k * minor) + major - 1;
    var b := n / (2 * major);
    assert n == (2 * major) * b + n % (2 * major);
    assert (2 * major) * b == 2 * (b * major);
  }

  lemma MinorStepsUnique(k: nat, major: nat, minor: nat, b: int)
    requires major >= 1 && 0 <= 2 * (b * major - k * minor) + major < 2 * major
    ensures b == MinorSteps(k, major, minor)
  {
    var c := MinorSteps(k, major, minor);
    MinorStepsBounds(k, major, minor);
    MultiplesApart(b - c, major);
    assert (b - c) * major == b * major - c * major;
  }

  /** A multiple of m strictly between -m and m is zero. */
  lemma MultiplesApart(d: int, m: nat)
    requires 0 < d * m + m < 2 * m
    ensures d == 0
  {
    if d >= 1 {
      ProductMonotone(1, d, m);
    } else if d <= -1 {
      ProductMonotone(d, -1, m);
    }
  }

  lemma DiagonalSteps(k: nat, d: nat)
    requires d >= 1
    ensures MinorSteps(k, d, d) == k
  {
    MinorStepsUnique(k, d, d, k);
  }

  /** One move along a line: the longer axis, of extent major, always steps, and the other when it is due. */
  lemma MajorStep(k: nat, major: nat, minor: nat)
    requires major > minor
    ensures var b := MinorSteps(k, major, minor);
            var excess := 2 * (b * major - (k + 1) * minor);
            MinorSteps(k + 1, major, minor) == if excess + major < 0 then b + 1 else b
  {
    var b := MinorSteps(k, major, minor);
    MinorStepsBounds(k, major, minor);
    assert (k + 1) * minor == k * minor + minor;
    assert (b + 1) * major == b * major + major;
    var excess := 2 * (b * major - (k + 1) * minor);
    MinorStepsUnique(k + 1, major, minor, if excess + major < 0 then b + 1 else b);
  }

  lemma MinorTieBreak(k: nat, major: nat, minor: nat)
    requires major > minor
    ensures var b := MinorSteps(k, major, minor);
            2 * ErrorTerm(k, b, major, minor) + minor > 0
            && (2 * ErrorTerm(k, b, major, minor) < major <==> 2 * (b * major - (k + 1) * minor) + major < 0)
            && 2 * ErrorTerm(b, k, minor, major) < minor
            && (2 * ErrorTerm(b, k, minor, major) + major > 0 <==> 2 * (b * major - (k + 1) * minor) + major < 0)
  {
    var b := MinorSteps(k, major, minor);
    MinorStepsBounds(k, major, minor);
    hide MinorSteps;
    assert (k + 1) * minor == k * minor + minor;
    assert ErrorTerm(k, b, major, minor) == b * major + major - (k * minor + minor);
    assert ErrorTerm(b, k, minor, major) == -ErrorTerm(k, b, major, minor);
    hide ErrorTerm;
  }

  /** The loop's two tests take the line from its k-th to its next pixel. */
  lemma LineStep(k: nat, dx: nat, dy: nat)
    requires k < Max(dx, dy)
    ensures var (a, b) := StepsTaken(k, dx, dy);
            var e2 := 2 * ErrorTerm(a, b, dx, dy);
            StepsTaken(k + 1, dx, dy) == (if e2 + dy > 0 then a + 1 else a, if e2 < dx then b + 1 else b)
  {
    if dx > dy {
      MajorStep(k, dx, dy);
      MinorTieBreak(k, dx, dy);
    } else if dx == dy {
      DiagonalSteps(k, dx);
      DiagonalSteps(k + 1, dx);
    } else {
      MajorStep(k, dy, dx);
      MinorTieBreak(k, dy, dx);
    }
  }

  /** After max(dx, dy) moves the line stands on its end point, and never before. */
  lemma LineArrives(k: nat, dx: nat, dy: nat)
    requires k <= Max(dx, dy)
    ensures StepsTaken(k, dx, dy) == (dx, dy) <==> k == Max(dx, dy)
  {
    var major, minor := if dx >= dy then dx else dy, if dx >= dy then dy else dx;
    if major >= 1 {
      assert minor * major - major * minor == 0;
      MinorStepsUnique(major, major, minor, minor);
    }
  }

  lemma NoStepsYet(dx: nat, dy: nat)
    ensures StepsTaken(0, dx, dy) == (0, 0)
  {
    var major, minor := if dx >= dy then dx else dy, if dx >= dy then dy else dx;
    if major >= 1 {
      MinorStepsUnique(0, major, minor, 0);
    }
    hide MinorSteps;
  }

  lemma EndPixels(x0: int, y0: int, x1: int, y1: int)
    ensures LinePixel(0, x0, y0, x1, y1) == (x0, y0)
    ensures LinePixel(Max(Abs(x1 - x0), Abs(y1 - y0)), x0, y0, x1, y1) == (x1, y1)
  {
    hide StepsTaken;
    NoStepsYet(Abs(x1 - x0), Abs(y1 - y0));
    LineArrives(Max(Abs(x1 - x0), Abs(y1 - y0)), Abs(x1 - x0), Abs(y1 - y0));
  }

  /** Both ends are pixels of the line. */
  lemma EndsAreDrawn(x0: int, y0: int, x1: int, y1: int)
    ensures var n := Max(Abs(x1 - x0), Abs(y1 - y0)) + 1;
            OnLine(n, x0, y0, x1, y1, x0, y0) && OnLine(n, x0, y0, x1, y1, x1, y1)
  {
    hide LinePixel;
    EndPixels(x0, y0, x1, y1);
  }

  /** The half-pixel bound: no visited pixel is further than half a pixel from the true line, along the shorter axis. */
  lemma HalfPixelBound(k: nat, dx: nat, dy: nat)
    requires k <= Max(dx, dy)
    ensures var (a, b) := StepsTaken(k, dx, dy);
            2 * Abs(b * dx - a * dy) <= Max(dx, dy) && a <= dx && b <= dy
  {
    var major, minor := if dx >= dy then dx else dy, if dx >= dy then dy else dx;
    if major >= 1 {
      MinorStepsBounds(k, major, minor);
      MinorStepsFit(k, major, minor);
    }
  }

  lemma MinorStepsFit(k: nat, major: nat, minor: nat)
    requires k <= major && 1 <= major
    ensures MinorSteps(k, major, minor) <= minor
  {
    var c := MinorSteps(k, major, minor);
    MinorStepsBounds(k, major, minor);
    ProductMonotone(k, major, minor);
    assert (minor + 1) * major == major * minor + major;
    if c > minor {
      ProductMonotone(minor + 1, c, major);
    }
  }

  /** Consecutive pixels touch: each coordinate moves by at most one, and the longer axis always moves. */
  lemma LineIsConnected(k: nat, x0: int, y0: int, x1: int, y1: int)
    requires k < Max(Abs(x1 - x0), Abs(y1 - y0))
    ensures var (x, y) := LinePixel(k, x0, y0, x1, y1);
            var (x', y') := LinePixel(k + 1, x0, y0, x1, y1);
            Abs(x' - x) <= 1 && Abs(y' - y) <= 1 && (x', y') != (x, y)
  {
    LineStep(k, Abs(x1 - x0), Abs(y1 - y0));
  }

  /** The state of the drawing loop after k moves: position and error term follow the closed form. */
  ghost predicate LoopState(k: nat, x0: int, y0: int, x1: int, y1: int, x: int, y: int, err: int) {
    var dx, dy := Abs(x1 - x0), Abs(y1 - y0);
    var (a, b) := StepsTaken(k, dx, dy);
    k <= Max(dx, dy) && (x, y) == LinePixel(k, x0, y0, x1, y1) && err == ErrorTerm(a, b, dx, dy)
  }

  /** Drawing the current pixel adds it to the pixels drawn so far. */
  lemma LoopDraws(k: nat, x0: int, y0: int, x1: int, y1: int, x: int, y: int, err: int)
    requires LoopState(k, x0, y0, x1, y1, x, y, err)
    ensures forall px, py :: OnLine(k + 1, x0, y0, x1, y1, px, py)
                             <==> (px == x && py == y) || OnLine(k, x0, y0, x1, y1, px, py)
  {
    assert LinePixel(k, x0, y0, x1, y1) == (x, y);
    hide LoopState, LinePixel, StepsTaken;
    forall px, py
      ensures OnLine(k + 1, x0, y0, x1, y1, px, py)
              <==> (px == x && py == y) || OnLine(k, x0, y0, x1, y1, px, py)
    {
      if OnLine(k + 1, x0, y0, x1, y1, px, py) {
        var j: nat :| j < k + 1 && LinePixel(j, x0, y0, x1, y1) == (px, py);
        if j == k {
          assert (px, py) == (x, y);
        }
      }
    }
  }

  lemma DirectionIs(from: int, to: int)
    ensures Direction(from, to) == if from < to then 1 else -1
  {
  }

  lemma LoopStarts(x0: int, y0: int, x1: int, y1: int)
    ensures LoopState(0, x0, y0, x1, y1, x0, y0, Abs(x1 - x0) - Abs(y1 - y0))
    ensures forall px, py :: !OnLine(0, x0, y0, x1, y1, px, py)
  {
    var major := Max(Abs(x1 - x0), Abs(y1 - y0));
    if major > 0 {
      MinorStepsUnique(0, major, if Abs(x1 - x0) >= Abs(y1 - y0) then Abs(y1 - y0) else Abs(x1 - x0), 0);
    }
  }

  /** The error term never exceeds one and a half times the longer extent, and the position stays between the ends. */
  lemma LoopBounds(k: nat, x0: int, y0: int, x1: int, y1: int, x: int, y: int, err: int, limit: nat)
    requires LoopState(k, x0, y0, x1, y1, x, y, err)
    requires 0 <= x0 < limit && 0 <= y0 < limit && 0 <= x1 < limit && 0 <= y1 < limit
    ensures 0 <= 2 * err + 3 * limit <= 6 * limit
    ensures 0 <= x < limit && 0 <= y < limit
  {
    var dx, dy := Abs(x1 - x0), Abs(y1 - y0);
    HalfPixelBound(k, dx, dy);
    var (a, b) := StepsTaken(k, dx, dy);
    assert err == dx - dy + (b * dx - a * dy);
  }

  /** The drawing loop stops at the end point exactly when all max(dx, dy) moves are made. */
  lemma LoopStops(k: nat, x0: int, y0: int, x1: int, y1: int, x: int, y: int, err: int)
    requires LoopState(k, x0, y0, x1, y1, x, y, err)
    ensures (x == x1 && y == y1) <==> k == Max(Abs(x1 - x0), Abs(y1 - y0))
  {
    LineArrives(k, Abs(x1 - x0), Abs(y1 - y0));
  }

  lemma ErrorTermMoves(a: nat, b: nat, dx: nat, dy: nat)
    ensures ErrorTerm(a + 1, b, dx, dy) == ErrorTerm(a, b, dx, dy) - dy
    ensures ErrorTerm(a, b + 1, dx, dy) == ErrorTerm(a, b, dx, dy) + dx
    ensures ErrorTerm(a + 1, b + 1, dx, dy) == ErrorTerm(a, b, dx, dy) - dy + dx
  {
    assert dx * (b + 1 + 1) == dx * (b + 1) + dx;
    assert dy * (a + 1 + 1) == dy * (a + 1) + dy;
  }

  /** One pass of the drawing loop makes the next move. */
  lemma LoopAdvances(k: nat, x0: int, y0: int, x1: int, y1: int, x: int, y: int, err: int, x': int, y': int, err': int)
    requires LoopState(k, x0, y0, x1, y1, x, y, err) && k < Max(Abs(x1 - x0), Abs(y1 - y0))
    requires x' == if 2 * err + Abs(y1 - y0) > 0 then x + Direction(x0, x1) else x
    requires y' == if 2 * err < Abs(x1 - x0) then y + Direction(y0, y1) else y
    requires err' == err - (if 2 * err + Abs(y1 - y0) > 0 then Abs(y1 - y0) else 0)
                     + (if 2 * err < Abs(x1 - x0) then Abs(x1 - x0) else 0)
    ensures LoopState(k + 1, x0, y0, x1, y1, x', y', err')
  {
    hide StepsTaken;
    var dx, dy := Abs(x1 - x0), Abs(y1 - y0);
    LineStep(k, dx, dy);
    var (a, b) := StepsTaken(k, dx, dy);
    ErrorTermMoves(a, b, dx, dy);
    hide ErrorTerm;
  }
}

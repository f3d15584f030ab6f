/** The integer geometry of the midpoint circle: which offsets from the centre it touches. */
module CircleGeometry {
  import opened Integers
  import opened Words

  /** y is the integer closest to the true circle above column x: |y - sqrt(r^2 - x^2)| < 1/2. */
  predicate Nearest(r: nat, x: int, y: int) {
    (2 * y - 1) * (2 * y - 1) < 4 * (r * r - x * x) < (2 * y + 1) * (2 * y + 1)
  }

  /** A point of the second octant that is nearest to the circle of radius r. */
  predicate Octant(r: nat, x: int, y: int) {
    0 <= x <= y && if r == 0 then y == 0 else Nearest(r, x, y)
  }

  /** Column n holds an octant point. */
  ghost predicate HasOctant(r: nat, n: int) {
    exists y: int :: Octant(r, n, y)
  }

  /** The error term the midpoint loop carries, in closed form. */
  function ErrorTerm(r: nat, x: int, y: int): int {
    (x + 1) * (x + 1) + y * (y - 1) - r * r
  }

  /** The offset (dx, dy) is one of the eight mirror images of (x, y). */
  predicate Mirrors(x: int, y: int, dx: int, dy: int) {
    (Abs(dx) == x && Abs(dy) == y) || (Abs(dx) == y && Abs(dy) == x)
  }

  /** The offset (dx, dy) lies on one of the four scanlines drawn for (x, y). */
  predicate Spans(x: int, y: int, dx: int, dy: int) {
    (Abs(dy) == y && Abs(dx) <= x) || (Abs(dy) == x && Abs(dx) <= y)
  }

  /** The columns a scanline fills when its ends are cx - x and cx + x, computed as words and put in order. */
  predicate Fills(cx: UInt32, x: int, px: int) {
    var from, to := ToUInt32(cx - x), ToUInt32(cx + x);
    from <= px <= to || to <= px <= from
  }

  /** One of the two rows at distance y from the centre, computed as words. */
  predicate OnRow(cy: UInt32, y: int, py: int) {
    py == ToUInt32(cy + y) || py == ToUInt32(cy - y)
  }

  /** The pixel (px, py) lies on one of the four scanlines as they are drawn for (x, y). */
  predicate Scans(cx: UInt32, cy: UInt32, x: int, y: int, px: int, py: int) {
    (Fills(cx, x, px) && OnRow(cy, y, py)) || (Fills(cx, y, px) && OnRow(cy, x, py))
  }

  /** An outline, a disc, or what the scanlines computed as words around a centre give. */
  datatype Style = Outline | Disc | Scanlines(cx: UInt32, cy: UInt32)

  /** What one step of the loop paints. */
  predicate Touches(style: Style, x: int, y: int, dx: int, dy: int) {
    match style
    case Outline => Mirrors(x, y, dx, dy)
    case Disc => Spans(x, y, dx, dy)
    case Scanlines(cx, cy) => Scans(cx, cy, x, y, cx + dx, cy + dy)
  }

  /** Touched by some octant point. */
  ghost predicate Touched(style: Style, r: nat, dx: int, dy: int) {
    exists x: int, y: int :: Octant(r, x, y) && Touches(style, x, y, dx, dy)
  }

  /** Touched by the octant points whose column is at most n. */
  ghost predicate TouchedUpTo(style: Style, r: nat, n: int, dx: int, dy: int) {
    exists x: int, y: int :: Octant(r, x, y) && x <= n && Touches(style, x, y, dx, dy)
  }

  /** The filled disc in closed form. */
  predicate InDisc(r: nat, dx: int, dy: int) {
    (dx == 0 && dy == 0) || dx * dx + dy * dy - Max(Abs(dx), Abs(dy)) < r * r
  }

  /** The outline in closed form: the larger coordinate is nearest to the circle above the smaller. */
  predicate OnCircle(r: nat, dx: int, dy: int) {
    Octant(r, Min(Abs(dx), Abs(dy)), Max(Abs(dx), Abs(dy)))
  }

  /** What drawCircle paints, relative to the centre. */
  ghost predicate InShape(style: Style, r: nat, dx: int, dy: int) {
    match style
    case Outline => OnCircle(r, dx, dy)
    case Disc => InDisc(r, dx, dy)
    case Scanlines(_, _) => Touched(style, r, dx, dy)
  }

  // ---------- The nearest row ----------

  lemma NearestBounds(r: nat, x: int, y: int)
    ensures Nearest(r, x, y) <==> y * y - y < r * r - x * x <= y * y + y
  {
    assert (2 * y - 1) * (2 * y - 1) == 4 * (y * y - y) + 1;
    assert (2 * y + 1) * (2 * y + 1) == 4 * (y * y + y) + 1;
  }

  /** Squares minus their roots grow with the argument. */
  lemma PronicMonotone(a: nat, b: nat)
    requires a <= b
    ensures a * a - a <= b * b - b
    ensures a < b ==> a * a + a <= b * b - b
    ensures a * a <= b * b
  {
    var d := b - a;
    assert b * b == a * a + d * (2 * a + d);
    if d > 0 {
      assert d * (2 * a + d) >= 2 * a + d by {
        assert (d - 1) * (2 * a + d) >= 0;
      }
    }
  }

  lemma NearestUnique(r: nat, x: int, y: nat, z: nat)
    requires Nearest(r, x, y) && Nearest(r, x, z)
    ensures y == z
  {
    NearestBounds(r, x, y);
    NearestBounds(r, x, z);
    if y < z {
      PronicMonotone(y, z);
    } else if z < y {
      PronicMonotone(z, y);
    }
  }

  /** Below a row that is high enough there is a nearest row. */
  lemma {:induction false} NearestExists(r: nat, x: nat, top: nat) returns (y: nat)
    requires 0 < r * r - x * x <= top * top + top
    ensures Nearest(r, x, y)
    decreases top
  {
    NearestBounds(r, x, top);
    if top * top - top < r * r - x * x {
      y := top;
    } else {
      assert (top - 1) * (top - 1) + (top - 1) == top * top - top;
      y := NearestExists(r, x, top - 1);
    }
  }

  // ---------- One step of the loop ----------

  /** The update of the error term is exact, whichever branch is taken. */
  lemma ErrorTermStep(r: nat, x: int, y: int)
    ensures ErrorTerm(r, 0, r) == 1 - r
    ensures ErrorTerm(r, x + 1, y) == ErrorTerm(r, x, y) + 2 * (x + 1) + 1
    ensures ErrorTerm(r, x + 1, y - 1) == ErrorTerm(r, x, y) + 2 * ((x + 1) - (y - 1)) + 1
  {
  }

  /** A step before the diagonal goes to the next octant point; a step across it finds no further one. */
  lemma OctantStep(r: nat, x: int, y: int)
    requires Octant(r, x, y) && x < y
    ensures ErrorTerm(r, x, y) < 0 ==> Octant(r, x + 1, y)
    ensures ErrorTerm(r, x, y) >= 0 && x + 1 < y ==> Octant(r, x + 1, y - 1)
    ensures ErrorTerm(r, x, y) >= 0 && x + 1 == y ==> !HasOctant(r, x + 1)
  {
    NearestBounds(r, x, y);
    NearestBounds(r, x + 1, y);
    NearestBounds(r, x + 1, y - 1);
    assert (y - 1) * (y - 1) - (y - 1) == y * y - 3 * y + 2;
    assert (x + 1) * (x + 1) == x * x + 2 * x + 1;
    if ErrorTerm(r, x, y) >= 0 && x + 1 == y {
      if HasOctant(r, x + 1) {
        var z :| Octant(r, x + 1, z);
        NearestBounds(r, x + 1, z);
        PronicMonotone(y, z);
      }
    }
  }

  /** Bounds on the error term that keep it far inside 32 bits. */
  lemma ErrorTermBounds(r: nat, x: int, y: int)
    requires Octant(r, x, y)
    ensures y <= r
    ensures -2 * r <= ErrorTerm(r, x, y) <= 2 * x + 1
  {
    if r != 0 {
      NearestBounds(r, x, y);
      assert (x + 1) * (x + 1) == x * x + 2 * x + 1;
      assert y * (y - 1) == y * y - y;
      if y > r {
        PronicMonotone(r, y);
      }
    }
  }

  /** Columns of octant points are consecutive: nothing lies beyond a column without one. */
  lemma {:induction false} NoOctantBeyond(r: nat, n: int, x: int, y: int)
    requires 0 <= n <= x && Octant(r, x, y)
    ensures HasOctant(r, n)
  {
    if r == 0 {
      assert Octant(r, n, 0);
    } else {
      NearestBounds(r, x, y);
      PronicMonotone(n, x);
      PronicMonotone(0, r);
      if y >= 1 {
        PronicMonotone(1, y);
      }
      assert r * r - n * n <= r * r + r;
      var z := NearestExists(r, n, r);
      NearestBounds(r, n, z);
      if z < y {
        PronicMonotone(z, y);
      }
      assert Octant(r, n, z);
    }
  }

  /** After the last octant column, the columns counted so far are all of them. */
  lemma AllColumnsCounted(style: Style, r: nat, n: int, dx: int, dy: int)
    requires 0 <= n && !HasOctant(r, n + 1)
    ensures TouchedUpTo(style, r, n, dx, dy) <==> Touched(style, r, dx, dy)
  {
    if x: int, y: int :| Octant(r, x, y) && Touches(style, x, y, dx, dy) {
      if x > n {
        NoOctantBeyond(r, n + 1, x, y);
      }
    }
  }

  // ---------- The shapes in closed form ----------

  /** From an octant point, the row b between its column and its row is met going right or is a column itself. */
  lemma {:induction false} RowIsMet(r: nat, x: int, y: int, b: int) returns (x': int, y': int)
    requires r >= 1 && Octant(r, x, y) && x <= b <= y
    ensures Octant(r, x', y') && x <= x' && (y' == b || x' == b)
    decreases y - x
  {
    if y == b || x == b {
      x', y' := x, y;
    } else {
      OctantStep(r, x, y);
      if ErrorTerm(r, x, y) < 0 {
        x', y' := RowIsMet(r, x + 1, y, b);
      } else {
        x', y' := RowIsMet(r, x + 1, y - 1, b);
      }
    }
  }

  lemma SquaresByOrder(dx: int, dy: int)
    ensures var a, b := Min(Abs(dx), Abs(dy)), Max(Abs(dx), Abs(dy)); dx * dx + dy * dy == a * a + b * b
  {
    assert Abs(dx) * Abs(dx) == dx * dx && Abs(dy) * Abs(dy) == dy * dy;
  }

  /** The disc, told by the smaller and the larger coordinate. */
  lemma DiscByOrder(r: nat, dx: int, dy: int)
    requires r >= 1
    ensures var a, b := Min(Abs(dx), Abs(dy)), Max(Abs(dx), Abs(dy)); InDisc(r, dx, dy) <==> a * a + (b * b - b) < r * r
  {
    SquaresByOrder(dx, dy);
    PronicMonotone(1, r);
  }

  /** Every painted offset is in the disc. */
  lemma SpansInDisc(r: nat, x: int, y: int, dx: int, dy: int)
    requires r >= 1 && Octant(r, x, y) && Spans(x, y, dx, dy)
    ensures InDisc(r, dx, dy)
  {
    NearestBounds(r, x, y);
    DiscByOrder(r, dx, dy);
    PronicMonotone(Min(Abs(dx), Abs(dy)), x);
    PronicMonotone(Max(Abs(dx), Abs(dy)), y);
  }

  /** A column of the disc has an octant point at least as high as the disc there. */
  lemma ColumnTop(r: nat, a: nat, b: nat) returns (top: nat)
    requires r >= 1 && a <= b && a * a + (b * b - b) < r * r
    ensures Octant(r, a, top) && b <= top
  {
    PronicMonotone(0, b);
    PronicMonotone(0, a);
    top := NearestExists(r, a, r);
    NearestBounds(r, a, top);
    if b > top {
      PronicMonotone(top, b);
    }
  }

  /** Every offset in the disc is painted by some octant point. */
  lemma DiscIsSpanned(r: nat, dx: int, dy: int) returns (x: int, y: int)
    requires r >= 1 && InDisc(r, dx, dy)
    ensures Octant(r, x, y) && Spans(x, y, dx, dy)
  {
    var a, b := Min(Abs(dx), Abs(dy)), Max(Abs(dx), Abs(dy));
    DiscByOrder(r, dx, dy);
    var top := ColumnTop(r, a, b);
    x, y := a, top;
    if Abs(dy) == b {
      x, y := RowIsMet(r, a, top, b);
    }
  }

  /**
   * The shape theorem: the columns the loop visits touch exactly the closed-form shape,
   * the full disc, the nearest-pixel outline, or all that the scanlines of the octant points give.
   */
  lemma ShapeIsTouched(style: Style, r: nat, n: int, dx: int, dy: int)
    requires r >= 1 && 0 <= n && !HasOctant(r, n + 1)
    ensures TouchedUpTo(style, r, n, dx, dy) <==> InShape(style, r, dx, dy)
  {
    AllColumnsCounted(style, r, n, dx, dy);
    match style {
      case Disc =>
        DiscIsTouched(r, dx, dy);
      case Outline =>
        var a, b := Min(Abs(dx), Abs(dy)), Max(Abs(dx), Abs(dy));
        if OnCircle(r, dx, dy) {
          assert Touches(style, a, b, dx, dy);
        }
      case Scanlines(_, _) =>
    }
  }

  lemma DiscIsTouched(r: nat, dx: int, dy: int)
    requires r >= 1
    ensures Touched(Disc, r, dx, dy) <==> InDisc(r, dx, dy)
  {
    hide Octant, Spans, InDisc;
    if x: int, y: int :| Octant(r, x, y) && Touches(Disc, x, y, dx, dy) {
      SpansInDisc(r, x, y, dx, dy);
    }
    if InDisc(r, dx, dy) {
      var x, y := DiscIsSpanned(r, dx, dy);
      assert Touches(Disc, x, y, dx, dy);
    }
  }

  /** The fill contains the true disc and keeps clear of the next ring. */
  lemma DiscBounds(r: nat, dx: int, dy: int)
    requires r >= 1
    ensures dx * dx + dy * dy <= r * r ==> InDisc(r, dx, dy)
    ensures dx * dx + dy * dy >= r * r + r ==> !InDisc(r, dx, dy)
  {
    var a, b := Min(Abs(dx), Abs(dy)), Max(Abs(dx), Abs(dy));
    DiscByOrder(r, dx, dy);
    SquaresByOrder(dx, dy);
    PronicMonotone(0, a);
    PronicMonotone(1, r);
    if b > r {
      PronicMonotone(r, b);
    }
  }

  /** Every row from -r to r is painted on the axis, and no other row is. */
  lemma DiscHasNoEmptyRow(r: nat, dy: int)
    requires r >= 1
    ensures InDisc(r, 0, dy) <==> -(r as int) <= dy <= r
  {
    DiscByOrder(r, 0, dy);
    PronicMonotone(1, r);
    if Abs(dy) > r {
      PronicMonotone(r, Abs(dy));
    } else {
      PronicMonotone(Abs(dy), r);
    }
  }

  /** The disc has no holes: an offset nearer to both axes is painted too. */
  lemma DiscIsConvex(r: nat, dx: int, dy: int, ex: int, ey: int)
    requires r >= 1 && InDisc(r, dx, dy) && Abs(ex) <= Abs(dx) && Abs(ey) <= Abs(dy)
    ensures InDisc(r, ex, ey)
  {
    DiscByOrder(r, dx, dy);
    DiscByOrder(r, ex, ey);
    PronicMonotone(Min(Abs(ex), Abs(ey)), Min(Abs(dx), Abs(dy)));
    PronicMonotone(Max(Abs(ex), Abs(ey)), Max(Abs(dx), Abs(dy)));
  }

  /** One step away from zero. */
  function Outward(d: int): int {
    if d < 0 then d - 1 else d + 1
  }

  lemma RimOfOctant(r: nat, dx: int, dy: int)
    requires r >= 1 && 0 <= dx <= dy
    ensures OnCircle(r, dx, dy) <==> (InDisc(r, dx, dy) && !InDisc(r, dx, dy + 1) && dy >= 1)
  {
    NearestBounds(r, dx, dy);
    DiscByOrder(r, dx, dy);
    DiscByOrder(r, dx, dy + 1);
    assert (dy + 1) * (dy + 1) - (dy + 1) == dy * dy + dy;
    hide Nearest, InDisc;
  }

  /** The disc looks the same from all eight octants. */
  lemma DiscIsSymmetric(r: nat, dx: int, dy: int)
    ensures InDisc(r, dx, dy) <==> InDisc(r, Min(Abs(dx), Abs(dy)), Max(Abs(dx), Abs(dy)))
  {
    assert dx * dx == Abs(dx) * Abs(dx) && dy * dy == Abs(dy) * Abs(dy);
  }

  /** The outline is the rim of the disc: painted by the fill, while one step outward along the longer axis is not. */
  lemma OutlineIsRim(r: nat, dx: int, dy: int)
    requires r >= 1
    ensures var (ox, oy) := if Abs(dx) <= Abs(dy) then (dx, Outward(dy)) else (Outward(dx), dy);
            OnCircle(r, dx, dy) <==> InDisc(r, dx, dy) && !InDisc(r, ox, oy) && (dx, dy) != (0, 0)
  {
    var a, b := Min(Abs(dx), Abs(dy)), Max(Abs(dx), Abs(dy));
    var (ox, oy) := if Abs(dx) <= Abs(dy) then (dx, Outward(dy)) else (Outward(dx), dy);
    assert OnCircle(r, dx, dy) == OnCircle(r, a, b);
    RimOfOctant(r, a, b);
    DiscIsSymmetric(r, dx, dy);
    DiscIsSymmetric(r, ox, oy);
    assert Min(Abs(ox), Abs(oy)) == a && Max(Abs(ox), Abs(oy)) == b + 1;
    hide InDisc, OnCircle;
  }

  // ---------- The drawing loop ----------

  /**
   * The state of the drawing loop: an octant point with its error term, all columns up to it
   * being drawn, or the one step past the diagonal, which repeats the mirror image (y, x)
   * of the last octant point.
   */
  ghost predicate LoopState(r: nat, x: int, y: int, p: int, last: int) {
    p == ErrorTerm(r, x, y)
    && if x <= y then last == x && Octant(r, x, y)
       else last == y && x == y + 1 && Octant(r, y, x) && !HasOctant(r, last + 1)
  }

  lemma LoopStarts(r: nat)
    ensures LoopState(r, 0, r, 1 - r, 0)
  {
    assert (2 * r - 1) * (2 * r - 1) == 4 * (r * r) - 4 * r + 1;
    assert (2 * r + 1) * (2 * r + 1) == 4 * (r * r) + 4 * r + 1;
  }

  /** Before the loop only the topmost octant point is drawn. */
  lemma TouchedFirst(style: Style, r: nat, dx: int, dy: int)
    ensures TouchedUpTo(style, r, 0, dx, dy) <==> Touches(style, 0, r, dx, dy)
  {
    LoopStarts(r);
    if x: int, y: int :| Octant(r, x, y) && x <= 0 && Touches(style, x, y, dx, dy) {
      if r != 0 {
        NearestUnique(r, 0, y, r);
      }
    }
  }

  lemma LoopBounds(r: nat, x: int, y: int, p: int, last: int)
    requires LoopState(r, x, y, p, last)
    ensures 0 <= x <= r && 0 <= y <= r
    ensures x <= y ==> -2 * r <= p <= 2 * r + 1
  {
    if x <= y {
      ErrorTermBounds(r, x, y);
    } else {
      ErrorTermBounds(r, y, x);
    }
  }

  /** One pass of the loop: either the next octant column, or the closing step that draws nothing new. */
  lemma LoopAdvances(r: nat, x: int, y: int, p: int, last: int, x': int, y': int, p': int) returns (last': int)
    requires LoopState(r, x, y, p, last) && x < y && x' == x + 1
    requires p < 0 ==> y' == y && p' == p + (2 * x' + 1)
    requires p >= 0 ==> y' == y - 1 && p' == p + (2 * (x' - y') + 1)
    ensures LoopState(r, x', y', p', last')
    ensures forall style, dx, dy ::
              TouchedUpTo(style, r, last', dx, dy)
              <==> TouchedUpTo(style, r, last, dx, dy) || Touches(style, x', y', dx, dy)
  {
    ErrorTermStep(r, x, y);
    OctantStep(r, x, y);
    last' := if x' <= y' then x' else y';
    forall style, dx, dy
      ensures TouchedUpTo(style, r, last', dx, dy)
              <==> TouchedUpTo(style, r, last, dx, dy) || Touches(style, x', y', dx, dy)
    {
      TouchedExtends(style, r, x, y, x', y', last', dx, dy);
    }
  }

  lemma TouchedExtends(style: Style, r: nat, x: int, y: int, x': int, y': int, last': int, dx: int, dy: int)
    requires Octant(r, x, y) && x' == x + 1
    requires (x' <= y' && last' == x' && Octant(r, x', y')) || (x' == y && y' == x == last')
    ensures TouchedUpTo(style, r, last', dx, dy)
            <==> TouchedUpTo(style, r, x, dx, dy) || Touches(style, x', y', dx, dy)
  {
    hide Nearest;
    if x' <= y' {
      assert Touches(style, x', y', dx, dy) ==> TouchedUpTo(style, r, last', dx, dy);
      if u: int, v: int :| Octant(r, u, v) && u <= last' && Touches(style, u, v, dx, dy) {
        if u == x' && r != 0 {
          NearestUnique(r, x', y', v);
        }
      }
    } else {
      assert Touches(style, x', y', dx, dy) <==> Touches(style, x, y, dx, dy);
    }
  }

  /** When the loop ends, the columns it drew are all the octant columns. */
  lemma LoopEnds(r: nat, x: int, y: int, p: int, last: int)
    requires LoopState(r, x, y, p, last) && x >= y
    ensures 0 <= last && !HasOctant(r, last + 1)
  {
    if x == y && HasOctant(r, last + 1) {
      var z :| Octant(r, last + 1, z);
      if r != 0 {
        NearestBounds(r, x, y);
        NearestBounds(r, last + 1, z);
        PronicMonotone(y, z);
        PronicMonotone(x, last + 1);
      }
    }
  }

  /** At radius zero disc and outline are the centre alone. */
  lemma ZeroRadius(style: Style, n: nat, dx: int, dy: int)
    ensures TouchedUpTo(style, 0, n, dx, dy) <==> InShape(style, 0, dx, dy)
  {
    assert Octant(0, 0, 0);
    SquaresByOrder(dx, dy);
    PronicMonotone(0, Max(Abs(dx), Abs(dy)));
    hide Fills, OnRow;
    if dx == 0 && dy == 0 {
      assert Touches(style, 0, 0, dx, dy) || style.Scanlines?;
    }
  }

  /** At the end of the loop the drawn offsets are the closed-form shape. */
  lemma ShapeIsDrawn(style: Style, r: nat, x: int, y: int, p: int, last: int, dx: int, dy: int)
    requires LoopState(r, x, y, p, last) && x >= y
    ensures TouchedUpTo(style, r, last, dx, dy) <==> InShape(style, r, dx, dy)
  {
    LoopEnds(r, x, y, p, last);
    if r == 0 {
      ZeroRadius(style, last, dx, dy);
    } else {
      ShapeIsTouched(style, r, last, dx, dy);
    }
  }

  // ---------- Scanlines as words ----------

  /** A difference of words that goes below zero comes out beyond every frame. */
  lemma WrapsBelow(c: UInt32, d: int)
    requires 0 <= d < TWO31
    ensures ToUInt32(c - d) == if d <= c then c - d else c - d + TWO32
    ensures d > c ==> ToUInt32(c - d) > TWO31
  {
  }

  /** A scanline fills the columns within x of the centre exactly when none of them lies left of the edge. */
  lemma FillsRunIff(cx: UInt32, x: int)
    requires 0 <= x < TWO31 && cx + x < TWO32
    ensures (forall px: nat :: Fills(cx, x, px) <==> Abs(px - cx) <= x) <==> x <= cx
  {
    WrapsBelow(cx, x);
    UnsignedValue(cx + x);
    if x <= cx {
      forall px: nat
        ensures Fills(cx, x, px) <==> Abs(px - cx) <= x
      {
      }
    } else {
      assert !Fills(cx, x, 0) && Abs(0 - cx) <= x;
    }
  }

  /** Around column 0, a scanline of half-width 1 misses the centre itself and fills every column behind it. */
  lemma FillsExample(px: UInt32)
    ensures Fills(0, 1, px) <==> px >= 1
  {
    WrapsBelow(0, 1);
    UnsignedValue(1);
  }

  lemma RowIs(cy: UInt32, y: int, py: int)
    requires 0 <= y < TWO31 && cy + y < TWO32 && 0 <= py < TWO16
    ensures OnRow(cy, y, py) <==> Abs(py - cy) == y
  {
    WrapsBelow(cy, y);
    UnsignedValue(cy + y);
  }

  /** What a scanline of half-width h fills of a frame; one that passes the left edge fills what is behind its run. */
  lemma FillsIs(cx: UInt32, h: int, px: int)
    requires 0 <= h < TWO31 && cx + h < TWO32 && 0 <= px < TWO16
    ensures Fills(cx, h, px) <==> if h <= cx then Abs(px - cx) <= h else px >= cx + h
  {
    WrapsBelow(cx, h);
    UnsignedValue(cx + h);
  }

  lemma OctantInside(r: nat, x: int, y: int)
    requires Octant(r, x, y)
    ensures 0 <= x <= y <= r
  {
    ErrorTermBounds(r, x, y);
  }

  /** Every point of the outline is in the disc, and both stay within the radius. */
  lemma CircleInDisc(r: nat, dx: int, dy: int)
    ensures OnCircle(r, dx, dy) ==> InDisc(r, dx, dy)
    ensures InDisc(r, dx, dy) ==> Abs(dx) <= r && Abs(dy) <= r
  {
    if r == 0 {
      PronicMonotone(0, Max(Abs(dx), Abs(dy)));
      SquaresByOrder(dx, dy);
    } else {
      if OnCircle(r, dx, dy) {
        SpansInDisc(r, Min(Abs(dx), Abs(dy)), Max(Abs(dx), Abs(dy)), dx, dy);
      }
      if InDisc(r, dx, dy) {
        DiscIsConvex(r, dx, dy, 0, dy);
        DiscHasNoEmptyRow(r, dy);
        DiscIsSymmetric(r, dx, 0);
        DiscIsSymmetric(r, 0, dx);
        DiscIsConvex(r, dx, dy, dx, 0);
        DiscHasNoEmptyRow(r, dx);
      }
    }
  }

  /** A filled circle has a scanline for each point that its outline has on a row, from there to its mirror image. */
  lemma RowIsFilled(r: nat, cx: UInt32, cy: UInt32, px: int, py: int)
    requires r < TWO31 && cx + r < TWO32 && cy + r < TWO32 && 0 <= px < TWO16 && 0 <= py < TWO16
    ensures Touched(Scanlines(cx, cy), r, px - cx, py - cy)
            <==> exists h: nat :: OnCircle(r, h, py - cy) && Fills(cx, h, px)
  {
    hide Fills, OnRow, Nearest;
    var style := Scanlines(cx, cy);
    if x: int, y: int :| Octant(r, x, y) && Touches(style, x, y, px - cx, py - cy) {
      OctantInside(r, x, y);
      RowIs(cy, x, py);
      RowIs(cy, y, py);
      assert OnCircle(r, x, y) && OnCircle(r, y, x);
    }
    if h: nat :| OnCircle(r, h, py - cy) && Fills(cx, h, px) {
      var k := Abs(py - cy);
      OctantInside(r, Min(h, k), Max(h, k));
      RowIs(cy, k, py);
      assert Touches(style, Min(h, k), Max(h, k), px - cx, py - cy);
    }
  }

  /** A pixel is painted when it belongs to the disc, and only then. */
  ghost predicate DrawnAsDisc(r: nat, cx: UInt32, cy: UInt32, px: int, py: int) {
    Touched(Scanlines(cx, cy), r, px - cx, py - cy) <==> InDisc(r, px - cx, py - cy)
  }

  /** A row of the disc is as wide as some point of the outline on it. */
  lemma RowReaches(r: nat, dx: int, dy: int) returns (h: nat)
    requires InDisc(r, dx, dy)
    ensures OnCircle(r, h, dy) && Abs(dx) <= h
  {
    if r == 0 {
      CircleInDisc(r, dx, dy);
      h := 0;
    } else {
      var x, y := DiscIsSpanned(r, dx, dy);
      h := if Abs(dy) == y && Abs(dx) <= x then x else y;
    }
  }

  /** A row on which the disc does not pass the left edge is drawn as it is. */
  lemma RowInside(r: nat, cx: UInt32, cy: UInt32, px: int, py: int)
    requires r < TWO31 && cx + r < TWO32 && cy + r < TWO32 && 0 <= px < TWO16 && 0 <= py < TWO16
    requires !InDisc(r, cx + 1, py - cy)
    ensures DrawnAsDisc(r, cx, cy, px, py)
  {
    hide Touched, Fills, OnCircle, InDisc;
    var dx, dy := px - cx, py - cy;
    RowIsFilled(r, cx, cy, px, py);
    forall h: nat | OnCircle(r, h, dy)
      ensures Fills(cx, h, px) <==> Abs(dx) <= h
      ensures Abs(dx) <= h ==> InDisc(r, dx, dy)
    {
      CircleInDisc(r, h, dy);
      if h > cx {
        Narrower(r, h, cx + 1, dy);
      }
      if Abs(dx) <= h {
        Narrower(r, h, dx, dy);
      }
      FillsIs(cx, h, px);
    }
    if InDisc(r, dx, dy) {
      var h := RowReaches(r, dx, dy);
    }
  }

  lemma Narrower(r: nat, dx: int, ex: int, dy: int)
    requires InDisc(r, dx, dy) && Abs(ex) <= Abs(dx)
    ensures InDisc(r, ex, dy)
  {
    if r == 0 {
      CircleInDisc(r, dx, dy);
    } else {
      DiscIsConvex(r, dx, dy, ex, dy);
    }
  }

  /** Where the disc is wider than a point of its outline, the next point of the row is on the outline too. */
  lemma OutlineGoesOn(r: nat, x: nat, dy: int)
    requires OnCircle(r, x, dy) && InDisc(r, x + 1, dy)
    ensures OnCircle(r, x + 1, dy)
  {
    CircleInDisc(r, x + 1, dy);
    hide OnCircle, InDisc;
    OutlineIsRim(r, x, dy);
    OutlineIsRim(r, x + 1, dy);
    if x < Abs(dy) {
      if InDisc(r, x + 1, Outward(dy)) {
        Narrower(r, x + 1, x, Outward(dy));
      }
    } else if x == Abs(dy) {
      DiscIsSymmetric(r, x, Outward(dy));
      DiscIsSymmetric(r, x + 1, dy);
    }
  }

  /** On a row where the disc passes the left edge, column 0 is painted exactly if it is on the outline; then all is. */
  lemma RowAtEdge(r: nat, cx: UInt32, cy: UInt32, px: int, py: int)
    requires r < TWO31 && cx + r < TWO32 && cy + r < TWO32 && 0 <= px < TWO16 && 0 <= py < TWO16
    requires InDisc(r, cx + 1, py - cy)
    ensures OnCircle(r, cx, py - cy) ==> Touched(Scanlines(cx, cy), r, px - cx, py - cy)
    ensures !OnCircle(r, cx, py - cy) ==> !Touched(Scanlines(cx, cy), r, 0 - cx, py - cy)
  {
    hide Touched, Fills, OnCircle, InDisc;
    var dy := py - cy;
    CircleInDisc(r, cx + 1, dy);
    if OnCircle(r, cx, dy) {
      OutlineGoesOn(r, cx, dy);
      RowIsFilled(r, cx, cy, px, py);
      FillsIs(cx, cx, px);
      FillsIs(cx, cx + 1, px);
    } else {
      RowIsFilled(r, cx, cy, 0, py);
      forall h: nat | OnCircle(r, h, dy)
        ensures !Fills(cx, h, 0)
      {
        CircleInDisc(r, h, dy);
        FillsIs(cx, h, 0);
      }
    }
  }

  /** If the disc passes the left edge on a row, it covers the row, and its outline meets column 0. */
  predicate LeavesNoGap(r: nat, cx: UInt32, cy: UInt32, width: UInt16, py: int) {
    InDisc(r, cx + 1, py - cy) ==> OnCircle(r, cx, py - cy) && (cx < width ==> InDisc(r, width - 1 - cx, py - cy))
  }

  lemma RowWithoutGap(r: nat, cx: UInt32, cy: UInt32, width: UInt16, px: int, py: int)
    requires r < TWO31 && cx + r < TWO32 && cy + r < TWO32 && 0 <= px < width && 0 <= py < TWO16
    requires LeavesNoGap(r, cx, cy, width, py)
    ensures DrawnAsDisc(r, cx, cy, px, py)
  {
    hide Touched, OnCircle, InDisc;
    var dy := py - cy;
    if InDisc(r, cx + 1, dy) {
      RowAtEdge(r, cx, cy, px, py);
      if px <= cx {
        Narrower(r, cx + 1, px - cx, dy);
      } else {
        Narrower(r, width - 1 - cx, px - cx, dy);
      }
    } else {
      RowInside(r, cx, cy, px, py);
    }
  }

  lemma RowWithGap(r: nat, cx: UInt32, cy: UInt32, width: UInt16, py: int)
    requires r < TWO31 && cx + r < TWO32 && cy + r < TWO32 && width > 0 && 0 <= py < TWO16
    requires DrawnAsDisc(r, cx, cy, 0, py) && DrawnAsDisc(r, cx, cy, width - 1, py)
    ensures LeavesNoGap(r, cx, cy, width, py)
  {
    hide Touched, OnCircle, InDisc;
    if InDisc(r, cx + 1, py - cy) {
      Narrower(r, cx + 1, 0 - cx, py - cy);
      RowAtEdge(r, cx, cy, width - 1, py);
    }
  }

  /** A circle that does not pass the left edge leaves no gap; one that does leaves one on its centre's row. */
  lemma GapOnAxis(r: nat, cx: UInt32, cy: UInt32, width: UInt16, py: int)
    ensures r <= cx ==> LeavesNoGap(r, cx, cy, width, py)
    ensures r > cx ==> !LeavesNoGap(r, cx, cy, width, cy)
  {
    CircleInDisc(r, cx + 1, py - cy);
    if r > cx {
      DiscIsSymmetric(r, cx + 1, 0);
      DiscIsSymmetric(r, 0, cx + 1);
      DiscHasNoEmptyRow(r, cx + 1);
      if OnCircle(r, cx, 0) {
        LoopStarts(r);
        NearestUnique(r, 0, cx, r);
      }
    }
    hide InDisc, OnCircle;
  }

  /** A circle that does not pass the left edge is drawn as its disc. */
  lemma ScanlinesAreDisc(r: nat, cx: UInt32, cy: UInt32, px: int, py: int)
    requires r <= cx && r < TWO31 && cx + r < TWO32 && cy + r < TWO32 && 0 <= px < TWO16 && 0 <= py < TWO16
    ensures Touched(Scanlines(cx, cy), r, px - cx, py - cy) <==> InDisc(r, px - cx, py - cy)
  {
    hide Touched, InDisc;
    CircleInDisc(r, cx + 1, py - cy);
    RowInside(r, cx, cy, px, py);
  }

  /**
   * A filled circle is drawn as its disc, clipped, exactly when it leaves no gap on any row of the frame;
   * with its centre on one of them, exactly when it does not pass the left edge.
   */
  lemma FilledIsDiscIff(r: nat, cx: UInt32, cy: UInt32, width: UInt16, height: UInt16)
    requires r < TWO31 && cx + r < TWO32 && cy + r < TWO32 && width > 0
    ensures (forall px, py | 0 <= px < width && 0 <= py < height :: DrawnAsDisc(r, cx, cy, px, py))
            <==> forall py | 0 <= py < height :: LeavesNoGap(r, cx, cy, width, py)
    ensures cy < height ==> ((forall py | 0 <= py < height :: LeavesNoGap(r, cx, cy, width, py)) <==> r <= cx)
  {
    hide DrawnAsDisc, LeavesNoGap;
    forall px, py | 0 <= px < width && 0 <= py < height
      ensures LeavesNoGap(r, cx, cy, width, py) ==> DrawnAsDisc(r, cx, cy, px, py)
    {
      if LeavesNoGap(r, cx, cy, width, py) {
        RowWithoutGap(r, cx, cy, width, px, py);
      }
    }
    forall py | 0 <= py < height
      ensures DrawnAsDisc(r, cx, cy, 0, py) && DrawnAsDisc(r, cx, cy, width - 1, py)
              ==> LeavesNoGap(r, cx, cy, width, py)
      ensures r <= cx ==> LeavesNoGap(r, cx, cy, width, py)
    {
      if DrawnAsDisc(r, cx, cy, 0, py) && DrawnAsDisc(r, cx, cy, width - 1, py) {
        RowWithGap(r, cx, cy, width, py);
      }
      GapOnAxis(r, cx, cy, width, py);
    }
    GapOnAxis(r, cx, cy, width, cy);
  }

  /** Passing the left edge need not show: of radius 10 around (1, 19), a frame of 5 by 10 pixels has only the cap. */
  lemma CapExample()
    ensures forall px, py | 0 <= px < 5 && 0 <= py < 10 :: DrawnAsDisc(10, 1, 19, px, py)
  {
    forall py | 0 <= py < 10
      ensures LeavesNoGap(10, 1, 19, 5, py)
    {
      CircleInDisc(10, 2, py - 19);
    }
    hide DrawnAsDisc, LeavesNoGap;
    FilledIsDiscIff(10, 1, 19, 5, 10);
  }
}

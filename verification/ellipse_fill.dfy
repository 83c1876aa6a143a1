/** The filled ellipse: which cells of its box it consists of, and how the bands emitted along the
    walk add up to it. */
module EllipseFill {
  import opened Raster
  import opened EllipseWalk

  /** The box an ellipse is drawn in. */
  datatype Box = Box(left: int, top: int, w: nat, h: nat) {
    function E(): Ellipse { Ellipse(w / 2, h / 2) }
    function Wod(): nat { w % 2 }
    function Hod(): nat { h % 2 }
    function Cx(): int { left + w / 2 }
    function Cy(): int { top + h / 2 }

    /** The row of the quarter ellipse that pixel row py shows; 0 is the middle row of an odd height. */
    function RowOf(py: int): nat {
      if py < Cy() then Cy() - py else if py >= Cy() + Hod() then py - Cy() - Hod() + 1 else 0
    }

    /** The cells of the symmetric shape whose row r reaches `reach[r]` columns from the middle. */
    predicate Shape(reach: seq<nat>, px: int, py: int)
      requires |reach| == h / 2 + 1
    {
      && top <= py < top + h
      && var x := reach[RowOf(py)]; Cx() - x <= px < Cx() + x + Wod()
    }

    predicate Filled(px: int, py: int) { Shape(Reaches(E()), px, py) }
  }

  /** How far every row reaches: the middle row all the way, the others as the walk leaves them. */
  function Reaches(e: Ellipse): (reach: seq<nat>)
    ensures |reach| == e.b + 1 && reach[0] == e.a
    ensures forall r :: 1 <= r <= e.b ==> reach[r] == HalfWidth(e, r)
  {
    seq(e.b + 1, r requires 0 <= r <= e.b => if r == 0 then e.a else HalfWidth(e, r))
  }

  // ----- the shape -----

  /** The shape is its own mirror image, left to right and top to bottom. */
  lemma FilledMirrors(box: Box, px: int, py: int)
    ensures box.Filled(px, py) <==> box.Filled(2 * box.left + box.w - 1 - px, py)
    ensures box.Filled(px, py) <==> box.Filled(px, 2 * box.top + box.h - 1 - py)
  {
  }

  /** It stays in its box, and rows nearer to the middle contain the rows further out. */
  lemma FilledWidens(box: Box, px: int, py: int, py': int)
    requires box.Filled(px, py) && box.top <= py' < box.top + box.h && box.RowOf(py') <= box.RowOf(py)
    ensures box.left <= px < box.left + box.w && box.Filled(px, py')
  {
    var e, r, r' := box.E(), box.RowOf(py), box.RowOf(py');
    if r > 0 { HalfWidthGrows(e, if r' > 0 then r' else 1, r); }
  }

  /** In its own numbers: the cell that is the x-th left of the middle and the y-th above it. It is
      painted only if its inner corner is inside the ellipse, and left out only if its outer corner is
      not. */
  lemma FilledCell(left: int, top: int, w: nat, h: nat, x: nat, y: nat)
    requires 1 <= x <= w / 2 && 1 <= y <= h / 2
    ensures var a, b := w / 2, h / 2;
            if Box(left, top, w, h).Filled(left + a - x, top + b - y)
            then b * b * ((x - 1) * (x - 1)) + a * a * ((y - 1) * (y - 1)) < a * a * (b * b)
            else b * b * (x * x) + a * a * (y * y) >= a * a * (b * b)
  {
    var e := Ellipse(w / 2, h / 2);
    var r := HalfWidth(e, y);
    assert Box(left, top, w, h).Filled(left + w / 2 - x, top + h / 2 - y) <==> x <= r;
    LeaveIsInside(e, 0, e.b, y);
    if x <= r {
      InsideCorner(e, r, y);
      FGrowsX(e, x - 1, r - 1, y - 1);
    } else {
      FGrowsX(e, r + 1, x, y);
      FGrowsY(e, r + 1, y - 1, y);
    }
  }

  lemma InsideCorner(e: Ellipse, x: nat, y: nat)
    requires x >= 1 && y >= 1 && Inside(e, x, y)
    ensures e.F(x - 1, y - 1) < 0
  {
    FGrowsX(e, x - 1, x, y - 1);
    FGrowsX(e, x - 1, x, y);
    FGrowsY(e, x - 1, y - 1, y);
    FGrowsY(e, x, y - 1, y);
  }

  /** It fills its box: the middle row of an odd height from side to side, the middle column of an odd
      width from top to bottom. */
  lemma FilledSpansBox(left: int, top: int, w: nat, h: nat, px: int, py: int)
    requires left <= px < left + w && top <= py < top + h
    ensures h % 2 == 1 && py == top + h / 2 ==> Box(left, top, w, h).Filled(px, py)
    ensures w % 2 == 1 && px == left + w / 2 ==> Box(left, top, w, h).Filled(px, py)
  {
  }

  // ----- the bands -----

  /** The rectangles cover every cell of the shape in the rows beyond oy once, and nothing else. */
  ghost predicate FillsBeyond(rs: seq<Rect>, box: Box, reach: seq<nat>, oy: nat)
    requires |reach| == box.h / 2 + 1
  {
    forall px, py :: Hits(rs, px, py) == if box.Shape(reach, px, py) && box.RowOf(py) > oy then 1 else 0
  }

  function Upper(box: Box, oy: nat, y: nat, x: nat): Rect {
    Rect(box.Cx() - x, box.Cy() - oy, 2 * x + box.Wod(), oy - y)
  }

  function Lower(box: Box, oy: nat, y: nat, x: nat): Rect {
    Rect(box.Cx() - x, box.Cy() + y + box.Hod(), 2 * x + box.Wod(), oy - y)
  }

  lemma TwoBands(rs: seq<Rect>, box: Box, reach: seq<nat>, oy: nat, y: nat, x: nat)
    requires |reach| == box.h / 2 + 1 && y < oy <= box.h / 2 && FillsBeyond(rs, box, reach, oy)
    requires forall r :: y < r <= oy ==> reach[r] == x
    ensures FillsBeyond(rs + [Upper(box, oy, y, x)] + [Lower(box, oy, y, x)], box, reach, y)
  {
  }

  /** The last rectangle covers all rows up to oy, if these reach the full width. */
  lemma MiddleBand(rs: seq<Rect>, box: Box, reach: seq<nat>, oy: nat)
    requires |reach| == box.h / 2 + 1 && oy <= box.h / 2 && FillsBeyond(rs, box, reach, oy)
    requires forall r :: 0 <= r <= oy ==> reach[r] == box.w / 2
    ensures var r := Rect(box.Cx() - box.w / 2, box.Cy() - oy, box.w, 2 * oy + box.Hod());
            forall px, py :: Hits(rs + [r], px, py) == if box.Shape(reach, px, py) then 1 else 0
  {
  }

  // ----- the state of the filling loop -----

  /** The walk stands at (x, y), the rows beyond oy are painted, and the rows from oy down to y + 1
      have been left at column x. */
  ghost predicate FillState(e: Ellipse, reach: seq<nat>, x: nat, y: nat, oy: nat) {
    && |reach| == e.b + 1
    && x <= e.a && y <= oy <= e.b
    && (forall r :: 1 <= r <= y ==> reach[r] == LeaveAt(e, x, y, r))
    && (forall r :: y < r <= oy ==> reach[r] == x)
    && (0 < y == oy ==> Inside(e, x, y) && (x == 0 ==> y == e.b))
    && (0 < y < oy ==> Steep(e, x, y))
    && (0 == y < oy ==> x == e.a)
  }

  lemma FillStart(e: Ellipse)
    ensures FillState(e, Reaches(e), 0, e.b, e.b)
  {
  }

  lemma LeaveUnfolds(e: Ellipse, x: nat, y: nat, r: nat, x': nat, y': nat)
    requires x <= e.a && 1 <= r <= y <= e.b && Next(e, x, y) == (x', y')
    ensures x' <= e.a && LeaveAt(e, x, y, r) == if y' < r then x else LeaveAt(e, x', y', r)
  {
    NextInBox(e, x, y);
  }

  /** A move right happens only when no row is pending. */
  lemma FillRight(e: Ellipse, reach: seq<nat>, x: nat, y: nat, oy: nat)
    requires FillState(e, reach, x, y, oy) && y > 0 && e.Column(x + 1, y) < 0
    ensures y == oy && FillState(e, reach, x + 1, y, oy)
  {
    NextInBox(e, x, y);
    if y < oy { SteepMovesDown(e, x, y); }
    forall r | 1 <= r <= y ensures reach[r] == LeaveAt(e, x + 1, y, r) {
      LeaveUnfolds(e, x, y, r, x + 1, y);
    }
  }

  /** At a diagonal move all pending rows have been left at column x. */
  lemma FillDiagonal(e: Ellipse, reach: seq<nat>, x: nat, y: nat, oy: nat)
    requires FillState(e, reach, x, y, oy) && y > 0 && e.Column(x + 1, y) >= 0 && e.Line(x + 1, y - 1) < 0
    ensures forall r :: y - 1 < r <= oy ==> reach[r] == x
    ensures FillState(e, reach, x + 1, y - 1, y - 1)
  {
    LeaveUnfolds(e, x, y, y, x + 1, y - 1);
    forall r | 1 <= r <= y - 1 ensures reach[r] == LeaveAt(e, x + 1, y - 1, r) {
      LeaveUnfolds(e, x, y, r, x + 1, y - 1);
    }
  }

  /** A move down leaves one more row pending, and makes the walk steep. */
  lemma FillDown(e: Ellipse, reach: seq<nat>, x: nat, y: nat, oy: nat)
    requires FillState(e, reach, x, y, oy) && y > 0 && e.Column(x + 1, y) >= 0 && e.Line(x + 1, y - 1) >= 0
    ensures FillState(e, reach, x, y - 1, oy)
  {
    LeaveUnfolds(e, x, y, y, x, y - 1);
    forall r | 1 <= r <= y - 1 ensures reach[r] == LeaveAt(e, x, y - 1, r) {
      LeaveUnfolds(e, x, y, r, x, y - 1);
    }
    if y == 1 {
      LandsAtRim(e, x);
    } else if y == oy {
      FirstMoveDownIsSteep(e, x, y);
    } else {
      SteepStaysSteep(e, x, y);
    }
  }

  /** When the walk has ended the rows still pending reach the full width. */
  lemma FillEnd(e: Ellipse, reach: seq<nat>, x: nat, oy: nat)
    requires FillState(e, reach, x, 0, oy) && reach[0] == e.a
    ensures forall r :: 0 <= r <= oy ==> reach[r] == e.a
  {
  }

  /** A box of no width has no rows to paint. */
  lemma FillNothing(e: Ellipse)
    requires e.a == 0
    ensures forall r :: 0 <= r <= e.b ==> Reaches(e)[r] == 0
  {
  }

  /** One round of the loop: a diagonal move releases the pending rows, the others keep the state. */
  lemma FillNext(e: Ellipse, reach: seq<nat>, x: nat, y: nat, oy: nat, x': nat, y': nat)
    requires FillState(e, reach, x, y, oy) && y > 0 && Next(e, x, y) == (x', y')
    ensures x' > x && y' < y ==> (forall r :: y' < r <= oy ==> reach[r] == x) && FillState(e, reach, x', y', y')
    ensures !(x' > x && y' < y) ==> FillState(e, reach, x', y', oy)
  {
    if e.Column(x + 1, y) < 0 {
      FillRight(e, reach, x, y, oy);
    } else if e.Line(x + 1, y - 1) < 0 {
      FillDiagonal(e, reach, x, y, oy);
    } else {
      FillDown(e, reach, x, y, oy);
    }
  }
}

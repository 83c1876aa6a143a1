/** The walk along a quarter of an ellipse with half axes a and b, from (0, b) down to row 0, in its
    simple form: every move is decided by the sign of the ellipse's own equation. */
module EllipseWalk {
  import opened Arithmetic

  datatype Ellipse = Ellipse(a: nat, b: nat) {
    function AA(): nat { a * a }
    function BB(): nat { b * b }

    /** Negative inside the ellipse, zero on it, positive outside. */
    function F(x: int, y: int): int { BB() * (x * x) + AA() * (y * y) - AA() * BB() }

    /** Twice the mean over column x between the row borders y - 1 and y. */
    function Column(x: int, y: int): int { F(x, y) + F(x, y - 1) }

    /** Twice the mean over row y between the column borders x - 1 and x. */
    function Line(x: int, y: int): int { F(x - 1, y) + F(x, y) }
  }

  // ----- how F changes -----

  lemma FNextX(e: Ellipse, x: int, y: int)
    ensures e.F(x + 1, y) == e.F(x, y) + e.BB() * (2 * x + 1)
  {
  }

  lemma FNextY(e: Ellipse, x: int, y: int)
    ensures e.F(x, y + 1) == e.F(x, y) + e.AA() * (2 * y + 1)
  {
  }

  lemma {:induction false} FGrowsX(e: Ellipse, x: int, x': int, y: int)
    requires 0 <= x <= x'
    ensures e.F(x, y) <= e.F(x', y)
    decreases x' - x
  {
    if x < x' {
      FNextX(e, x, y);
      MulNonneg(e.BB(), 2 * x + 1);
      FGrowsX(e, x + 1, x', y);
    }
  }

  lemma {:induction false} FGrowsY(e: Ellipse, x: int, y: int, y': int)
    requires 0 <= y <= y'
    ensures e.F(x, y) <= e.F(x, y')
    decreases y' - y
  {
    if y < y' {
      FNextY(e, x, y);
      MulNonneg(e.AA(), 2 * y + 1);
      FGrowsY(e, x, y + 1, y');
    }
  }

  lemma FGrows(e: Ellipse, x: int, x': int, y: int, y': int)
    requires 0 <= x <= x' && 0 <= y <= y'
    ensures e.F(x, y) <= e.F(x', y')
  {
    FGrowsX(e, x, x', y);
    FGrowsY(e, x', y, y');
  }

  /** At the rim of the box nothing is inside. */
  lemma FAtRim(e: Ellipse, y: int)
    ensures e.F(e.a, y) == e.AA() * (y * y) >= 0
  {
  }

  // ----- one move -----

  function Next(e: Ellipse, x: nat, y: nat): (n: (nat, nat))
    requires y > 0
  {
    if e.Column(x + 1, y) < 0 then (x + 1, y)
    else if e.Line(x + 1, y - 1) < 0 then (x + 1, y - 1)
    else (x, y - 1)
  }

  /** The walk stays in the box, and every move comes closer to its end. */
  lemma NextInBox(e: Ellipse, x: nat, y: nat)
    requires x <= e.a && 0 < y <= e.b
    ensures var (x', y') := Next(e, x, y); x <= x' <= e.a && y' <= y && y' - x' < y - x
  {
    if x == e.a {
      FAtRim(e, y);
      FAtRim(e, y - 1);
      FGrowsX(e, x, x + 1, y);
      FGrowsX(e, x, x + 1, y - 1);
    }
  }

  // ----- the decision values kept step by step -----

  /** The values the routines carry along: st decides about a move in x only, tt about a move in y. */
  ghost predicate Tracks(e: Ellipse, x: int, y: int, st: int, tt: int) {
    st == e.Column(x + 1, y) && tt == e.Line(x + 1, y - 1)
  }

  /** The constants the routines compute once. */
  datatype Factors = Factors(aa2: int, aa4: int, bb2: int, bb4: int)

  function FactorsOf(e: Ellipse): Factors {
    Factors(2 * e.AA(), 4 * e.AA(), 2 * e.BB(), 4 * e.BB())
  }

  lemma TracksInitially(e: Ellipse, b: int, f: Factors)
    requires f == FactorsOf(e) && b == e.b
    ensures Tracks(e, 0, b, f.aa2 / 2 * (1 - 2 * b) + f.bb2, f.bb2 / 2 - f.aa2 * (2 * b - 1))
  {
  }

  lemma FAtTop(e: Ellipse)
    ensures e.F(0, e.b) == 0
  {
  }

  lemma TracksRight(e: Ellipse, x: int, y: int, st: int, tt: int, f: Factors)
    requires Tracks(e, x, y, st, tt) && f == FactorsOf(e)
    ensures Tracks(e, x + 1, y, st + f.bb2 * (2 * x + 3), tt + f.bb4 * (x + 1))
  {
    var bb := e.BB();
    FNextX(e, x + 1, y);
    FNextX(e, x + 1, y - 1);
    FNextX(e, x, y - 1);
    assert 2 * bb * (2 * x + 3) == 2 * (bb * (2 * (x + 1) + 1));
    assert 4 * bb * (x + 1) == bb * (2 * x + 1) + bb * (2 * (x + 1) + 1);
  }

  lemma TracksDown(e: Ellipse, x: int, y: int, st: int, tt: int, f: Factors)
    requires Tracks(e, x, y, st, tt) && f == FactorsOf(e)
    ensures Tracks(e, x, y - 1, st - f.aa4 * (y - 1), tt - f.aa2 * (2 * y - 3))
  {
    FNextY(e, x + 1, y - 1);
    FNextY(e, x + 1, y - 2);
    FNextY(e, x, y - 2);
    TwoRowsDown(e.AA(), y);
  }

  lemma TwoRowsDown(m: nat, y: int)
    ensures 4 * m * (y - 1) == m * (2 * (y - 1) + 1) + m * (2 * (y - 2) + 1)
    ensures 2 * m * (2 * y - 3) == 2 * (m * (2 * (y - 2) + 1))
  {
  }

  /** The diagonal move combines the two. */
  lemma TracksDiagonal(e: Ellipse, x: int, y: int, st: int, tt: int, f: Factors)
    requires Tracks(e, x, y, st, tt) && f == FactorsOf(e)
    ensures Tracks(e, x + 1, y - 1, st + (f.bb2 * (2 * x + 3) - f.aa4 * (y - 1)),
                   tt + (f.bb4 * (x + 1) - f.aa2 * (2 * y - 3)))
  {
    TracksRight(e, x, y, st, tt, f);
    TracksDown(e, x + 1, y, st + f.bb2 * (2 * x + 3), tt + f.bb4 * (x + 1), f);
  }

  /** What precedes the loop: the constants and the first decision values. */
  method StartWalk(e: Ellipse) returns (f: Factors, st: int, tt: int)
    ensures f == FactorsOf(e) && Tracks(e, 0, e.b, st, tt)
  {
    var a, b: int := e.a, e.b;
    var aa2, bb2 := 2 * (a * a), 2 * (b * b);
    var aa4, bb4 := 2 * aa2, 2 * bb2;
    f := Factors(aa2, aa4, bb2, bb4);
    st := aa2 / 2 * (1 - 2 * b) + bb2;
    tt := bb2 / 2 - aa2 * (2 * b - 1);
    TracksInitially(e, b, f);
  }

  /** The three branches that every routine repeats: the incremental update makes exactly the move
      the equation asks for. */
  method Advance(ghost e: Ellipse, f: Factors, x0: nat, y0: nat, st0: int, tt0: int)
    returns (x: nat, y: nat, st: int, tt: int)
    requires f == FactorsOf(e) && y0 > 0 && Tracks(e, x0, y0, st0, tt0)
    ensures (x, y) == Next(e, x0, y0) && Tracks(e, x, y, st, tt)
  {
    x, y, st, tt := x0, y0, st0, tt0;
    if st < 0 {
      TracksRight(e, x, y, st, tt, f);
      st := st + f.bb2 * (2 * x + 3);
      x := x + 1;
      tt := tt + f.bb4 * x;
    } else if tt < 0 {
      TracksDiagonal(e, x, y, st, tt, f);
      st := st + (f.bb2 * (2 * x + 3) - f.aa4 * (y - 1));
      x := x + 1;
      tt := tt + (f.bb4 * x - f.aa2 * (2 * y - 3));
      y := y - 1;
    } else {
      TracksDown(e, x, y, st, tt, f);
      tt := tt - f.aa2 * (2 * y - 3);
      y := y - 1;
      st := st - f.aa4 * y;
    }
  }

  // ----- the whole walk -----

  /** The cells visited after (x, y), down to row 0. */
  function Trail(e: Ellipse, x: nat, y: nat): seq<(nat, nat)>
    requires x <= e.a && y <= e.b
    decreases e.a - x + y
  {
    if y == 0 then [] else
    NextInBox(e, x, y);
    var (x', y') := Next(e, x, y);
    [(x', y')] + Trail(e, x', y')
  }

  /** The walk ends after at most a + b moves, in row 0, and never leaves the box. */
  lemma {:induction false} TrailInBox(e: Ellipse, x: nat, y: nat)
    requires x <= e.a && y <= e.b
    ensures |Trail(e, x, y)| <= e.a - x + y
    ensures forall k :: 0 <= k < |Trail(e, x, y)| ==> Trail(e, x, y)[k].0 <= e.a && Trail(e, x, y)[k].1 <= e.b
    ensures y > 0 ==> Trail(e, x, y) != [] && Trail(e, x, y)[|Trail(e, x, y)| - 1].1 == 0
    decreases e.a - x + y
  {
    if y > 0 {
      NextInBox(e, x, y);
      var (x', y') := Next(e, x, y);
      TrailInBox(e, x', y');
    }
  }

  // ----- accuracy -----

  function Less(k: nat): nat { if k == 0 then 0 else k - 1 }

  /** The exact ellipse passes within one diagonal step of the cell. */
  predicate Near(e: Ellipse, x: nat, y: nat) {
    e.F(Less(x), Less(y)) < 0 <= e.F(x + 1, y + 1)
  }

  lemma StartIsNear(e: Ellipse)
    requires e.a >= 1 && e.b >= 1
    ensures Near(e, 0, e.b)
  {
  }

  lemma NextStaysNear(e: Ellipse, x: nat, y: nat)
    requires y > 0 && Near(e, x, y)
    ensures var (x', y') := Next(e, x, y); Near(e, x', y')
  {
    var (x', y') := Next(e, x, y);
    FGrowsY(e, x + 1, y - 1, y);
    FGrowsX(e, x, x + 1, y - 1);
    if y' == y {
      FGrowsX(e, x + 1, x + 2, y + 1);
    } else {
      FGrows(e, Less(x'), Less(x') , Less(y'), y - 1);
      FGrowsX(e, x + 1, x' + 1, y);
    }
  }

  /** Every visited cell is near the exact ellipse. */
  lemma {:induction false} TrailIsNear(e: Ellipse, x: nat, y: nat)
    requires x <= e.a && y <= e.b && Near(e, x, y)
    ensures forall k :: 0 <= k < |Trail(e, x, y)| ==> Near(e, Trail(e, x, y)[k].0, Trail(e, x, y)[k].1)
    decreases e.a - x + y
  {
    if y > 0 {
      NextInBox(e, x, y);
      NextStaysNear(e, x, y);
      var (x', y') := Next(e, x, y);
      TrailIsNear(e, x', y');
    }
  }

  lemma WalkIsNear(e: Ellipse)
    requires e.a >= 1 && e.b >= 1
    ensures Near(e, 0, e.b)
    ensures forall k :: 0 <= k < |Trail(e, 0, e.b)| ==> Near(e, Trail(e, 0, e.b)[k].0, Trail(e, 0, e.b)[k].1)
  {
    StartIsNear(e);
    TrailIsNear(e, 0, e.b);
  }

  // ----- row by row -----

  /** The column at which the walk from (x, y) leaves row r. */
  function LeaveAt(e: Ellipse, x: nat, y: nat, r: nat): (w: nat)
    requires x <= e.a && 1 <= r <= y <= e.b
    ensures x <= w <= e.a
    decreases e.a - x + y
  {
    NextInBox(e, x, y);
    var (x', y') := Next(e, x, y);
    if y' < r then x else LeaveAt(e, x', y', r)
  }

  /** Half the width of row r, counted from the middle. */
  function HalfWidth(e: Ellipse, r: nat): nat
    requires 1 <= r <= e.b
  {
    LeaveAt(e, 0, e.b, r)
  }

  /** How the walk came to (x, y): its column is inside on row y by one of the two means. */
  predicate Inside(e: Ellipse, x: nat, y: nat) {
    x == 0 || e.Column(x, y) < 0 || e.Line(x, y) < 0
  }

  lemma NextStaysInside(e: Ellipse, x: nat, y: nat)
    requires Inside(e, x, y) && y > 0
    ensures var (x', y') := Next(e, x, y); y' > 0 ==> Inside(e, x', y')
  {
    if x > 0 && y > 1 {
      FGrowsY(e, x, y - 1, y);
      FGrowsY(e, x, y - 2, y - 1);
      FGrowsY(e, x - 1, y - 1, y);
    }
  }

  lemma {:induction false} LeaveIsInside(e: Ellipse, x: nat, y: nat, r: nat)
    requires x <= e.a && 1 <= r <= y <= e.b && Inside(e, x, y)
    ensures var w := LeaveAt(e, x, y, r); Inside(e, w, r) && e.Column(w + 1, r) >= 0
    decreases e.a - x + y
  {
    NextInBox(e, x, y);
    NextStaysInside(e, x, y);
    var (x', y') := Next(e, x, y);
    if y' >= r { LeaveIsInside(e, x', y', r); }
  }

  lemma ColumnGrows(e: Ellipse, x: nat, x': nat, y: nat)
    requires x <= x' && y >= 1
    ensures e.Column(x, y) <= e.Column(x', y)
  {
    FGrowsX(e, x, x', y);
    FGrowsX(e, x, x', y - 1);
  }

  /** Accuracy of a row: every column short of its half width lies inside, every column beyond it
      outside, by the mean of the equation over the row. */
  lemma HalfWidthExact(e: Ellipse, r: nat, t: nat)
    requires 1 <= r <= e.b
    ensures 1 <= t < HalfWidth(e, r) ==> e.Column(t, r) < 0
    ensures t > HalfWidth(e, r) ==> e.Column(t, r) >= 0
  {
    LeaveIsInside(e, 0, e.b, r);
    var w := HalfWidth(e, r);
    if 1 <= t < w {
      FGrowsX(e, w - 1, w, r);
      FGrowsY(e, w - 1, r - 1, r);
      ColumnGrows(e, t, w - 1, r);
      ColumnGrows(e, t, w, r);
    } else if t > w {
      ColumnGrows(e, w + 1, t, r);
    }
  }

  lemma {:induction false} LeaveGrows(e: Ellipse, x: nat, y: nat, r: nat)
    requires x <= e.a && 1 <= r < y <= e.b
    ensures LeaveAt(e, x, y, r + 1) <= LeaveAt(e, x, y, r)
    decreases e.a - x + y
  {
    NextInBox(e, x, y);
    var (x', y') := Next(e, x, y);
    if y' >= r + 1 { LeaveGrows(e, x', y', r); }
  }

  /** Rows widen towards the middle, by any number of rows. */
  lemma {:induction false} HalfWidthGrows(e: Ellipse, r: nat, r': nat)
    requires 1 <= r <= r' <= e.b
    ensures HalfWidth(e, r') <= HalfWidth(e, r) <= e.a
    decreases r' - r
  {
    if r < r' {
      LeaveGrows(e, 0, e.b, r);
      HalfWidthGrows(e, r + 1, r');
    }
  }

  // ----- once steep, always steep -----

  /** After a move straight down the walk does not move straight right again before it has moved
      diagonally. */
  predicate Steep(e: Ellipse, x: nat, y: nat) {
    e.Line(x + 1, y) >= 0 && e.BB() * (2 * x + 1) >= e.AA() * (2 * y - 1)
  }

  lemma SteepMovesDown(e: Ellipse, x: nat, y: nat)
    requires Steep(e, x, y) && y > 0
    ensures e.Column(x + 1, y) >= 0
  {
    FNextX(e, x, y);
    FNextY(e, x + 1, y - 1);
  }

  lemma SteepStaysSteep(e: Ellipse, x: nat, y: nat)
    requires Steep(e, x, y) && y > 0 && e.Line(x + 1, y - 1) >= 0
    ensures Steep(e, x, y - 1)
  {
    MulMonotone(e.AA(), 2 * (y - 1) - 1, 2 * y - 1);
  }

  lemma FirstMoveDownIsSteep(e: Ellipse, x: nat, y: nat)
    requires 0 < y <= e.b && Inside(e, x, y) && (x == 0 ==> y == e.b) && e.Line(x + 1, y - 1) >= 0
    ensures Steep(e, x, y - 1)
  {
    FNextY(e, x, y - 1);
    FNextX(e, x, y - 1);
    MulMonotone(e.AA(), 2 * (y - 1) - 1, 2 * (y - 1) + 1);
    if x == 0 {
      FAtTop(e);
      MulNonneg(e.AA(), 2 * (y - 1) + 1);
    } else {
      FNextX(e, x - 1, y);
      MulMonotone(e.BB(), 2 * (x - 1) + 1, 2 * x + 1);
    }
  }

  /** The walk reaches row 0 by a move straight down only at its far end. */
  lemma LandsAtRim(e: Ellipse, x: nat)
    requires x <= e.a && e.b >= 1 && e.Line(x + 1, 0) >= 0
    ensures x == e.a
  {
    if x < e.a {
      FGrowsX(e, x + 1, e.a, 0);
      FGrowsX(e, x, e.a - 1, 0);
      FAtRim(e, 0);
      FNextX(e, e.a - 1, 0);
    }
  }
}

/** The machine limits of the walk: shifts work on 32-bit integers, sums on exact doubles. */
module EllipseLimits {
  import opened Arithmetic
  import opened EllipseWalk

  const INT32_LIMIT := 0x8000_0000
  const EXACT_LIMIT := 0x20_0000_0000_0000

  /** A left shift by one in the script language: operand and result are taken modulo 2^32, as
      signed numbers. */
  function ToInt32(v: int): int {
    var m := v % (2 * INT32_LIMIT); if m >= INT32_LIMIT then m - 2 * INT32_LIMIT else m
  }

  function ShiftLeft(v: int): int { ToInt32(2 * ToInt32(v)) }

  const LARGEST := 23170

  lemma SquareLimit(a: nat)
    ensures 4 * (a * a) < INT32_LIMIT <==> a <= LARGEST
  {
    if a <= LARGEST {
      MulMonotone(a, a, LARGEST);
      MulMonotone(LARGEST, a, LARGEST);
    } else {
      MulMonotone(a, LARGEST + 1, a);
      MulMonotone(LARGEST + 1, LARGEST + 1, a);
    }
  }

  /** The four constants come out of their shifts as 2 a^2, 4 a^2, 2 b^2 and 4 b^2 exactly when both
      half axes are at most 23170. */
  lemma ShiftsExactIff(e: Ellipse)
    ensures var f := FactorsOf(e);
            (ShiftLeft(e.AA()) == f.aa2 && ShiftLeft(ShiftLeft(e.AA())) == f.aa4
            && ShiftLeft(e.BB()) == f.bb2 && ShiftLeft(ShiftLeft(e.BB())) == f.bb4)
            <==> e.a <= LARGEST && e.b <= LARGEST
  {
    SquareLimit(e.a);
    SquareLimit(e.b);
    ShiftTwiceIff(e.AA());
    ShiftTwiceIff(e.BB());
  }

  lemma ShiftTwiceIff(v: nat)
    ensures ShiftLeft(v) == 2 * v && ShiftLeft(ShiftLeft(v)) == 4 * v <==> 4 * v < INT32_LIMIT
  {
  }

  /** How much F can change over a diagonal step and a half, anywhere in the box. */
  function Slack(e: Ellipse): int { 4 * (e.BB() * e.a) + 4 * (e.AA() * e.b) + 2 * e.BB() + 2 * e.AA() }

  lemma NotFarInside(e: Ellipse, x: nat, y: nat)
    requires x <= e.a && 1 <= y <= e.b && Near(e, x, y)
    ensures e.F(x, y - 1) + Slack(e) >= 0
  {
    FNextX(e, x, y - 1);
    FNextY(e, x + 1, y - 1);
    FNextY(e, x + 1, y);
    Spread(e.BB(), x, e.a);
    Spread(e.AA(), y, e.b);
  }

  lemma NotFarOutside(e: Ellipse, x: nat, y: nat)
    requires x <= e.a && 1 <= y <= e.b && Near(e, x, y)
    ensures e.F(x + 1, y) <= Slack(e)
  {
    FNextY(e, Less(x), y - 1);
    FNextX(e, x, y);
    if x > 0 { FNextX(e, x - 1, y); }
    Spread(e.BB(), x, e.a);
    Spread(e.AA(), y, e.b);
  }

  /** At a cell near the ellipse the decision values are small, however large F itself may get. */
  lemma DecisionsSmall(e: Ellipse, x: nat, y: nat)
    requires x <= e.a && 1 <= y <= e.b && Near(e, x, y)
    ensures -2 * Slack(e) <= e.Column(x + 1, y) <= 2 * Slack(e)
    ensures -2 * Slack(e) <= e.Line(x + 1, y - 1) <= 2 * Slack(e)
  {
    NotFarInside(e, x, y);
    NotFarOutside(e, x, y);
    FGrowsX(e, x, x + 1, y - 1);
    FGrowsY(e, x + 1, y - 1, y);
  }

  lemma Spread(m: nat, i: nat, k: nat)
    requires i <= k
    ensures 0 <= m * (2 * i + 1) <= 2 * (m * k) + m
    ensures m * (2 * (i - 1) + 1) <= 2 * (m * k) + m
    ensures i >= 1 ==> 0 <= m * (2 * (i - 1) + 1)
  {
  }

  /** Both decision values of the cell are exact doubles. */
  ghost predicate ExactAt(e: Ellipse, x: nat, y: nat) {
    -EXACT_LIMIT < e.Column(x + 1, y) < EXACT_LIMIT && -EXACT_LIMIT < e.Line(x + 1, y - 1) < EXACT_LIMIT
  }

  /** Within the limits of the shifts the decision values stay exact doubles at every visited cell. */
  lemma DecisionsExact(e: Ellipse, x: nat, y: nat)
    requires e.a <= LARGEST && e.b <= LARGEST
    requires x <= e.a && 1 <= y <= e.b && Near(e, x, y)
    ensures ExactAt(e, x, y)
  {
    DecisionsSmall(e, x, y);
    SquareLimit(e.a);
    SquareLimit(e.b);
    MulMonotone(e.BB(), e.a, LARGEST);
    MulMonotone(e.AA(), e.b, LARGEST);
  }

  /** Over the whole walk, from the start cell on. */
  lemma WalkIsExact(e: Ellipse, k: nat)
    requires 1 <= e.a <= LARGEST && 1 <= e.b <= LARGEST && k < |Trail(e, 0, e.b)|
    ensures ExactAt(e, 0, e.b)
    ensures var (x, y) := Trail(e, 0, e.b)[k]; y > 0 ==> ExactAt(e, x, y)
  {
    WalkIsNear(e);
    TrailInBox(e, 0, e.b);
    DecisionsExact(e, 0, e.b);
    var (x, y) := Trail(e, 0, e.b)[k];
    if y > 0 { DecisionsExact(e, x, y); }
  }
}

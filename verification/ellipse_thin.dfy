/** Why the outline is one cell thick and has no gaps: a block of the walk is a single row, a single
    column, or two cells by two. */
module EllipseThin {
  import opened Arithmetic
  import opened EllipseWalk
  import opened EllipseOutline

  // ----- the state of the outline loop -----

  /** The walk stands at (x, y) and the current block started at (ox, oy), right after a diagonal
      move or at the top. */
  ghost predicate OutlineState(e: Ellipse, x: nat, y: nat, ox: nat, oy: nat) {
    && ox <= x <= e.a && y <= oy <= e.b
    && e.Column(ox, oy + 1) >= 0
    && (x > ox ==> e.Column(x, oy) < 0)
    && (y < oy ==> e.Line(x + 1, y) >= 0)
    && (0 < y == oy ==> Inside(e, x, y) && (x == 0 ==> y == e.b))
    && (0 < y < oy ==> Steep(e, x, y))
  }

  lemma OutlineStart(e: Ellipse)
    ensures OutlineState(e, 0, e.b, 0, e.b)
  {
  }

  lemma OutlineRight(e: Ellipse, x: nat, y: nat, ox: nat, oy: nat)
    requires OutlineState(e, x, y, ox, oy) && y > 0 && e.Column(x + 1, y) < 0
    ensures y == oy && OutlineState(e, x + 1, y, ox, oy)
  {
    NextInBox(e, x, y);
    if y < oy { SteepMovesDown(e, x, y); }
  }

  lemma OutlineDiagonal(e: Ellipse, x: nat, y: nat, ox: nat, oy: nat)
    requires OutlineState(e, x, y, ox, oy) && y > 0 && e.Column(x + 1, y) >= 0 && e.Line(x + 1, y - 1) < 0
    ensures OutlineState(e, x + 1, y - 1, x + 1, y - 1)
  {
    NextInBox(e, x, y);
  }

  lemma OutlineDown(e: Ellipse, x: nat, y: nat, ox: nat, oy: nat)
    requires OutlineState(e, x, y, ox, oy) && y > 0 && e.Column(x + 1, y) >= 0 && e.Line(x + 1, y - 1) >= 0
    ensures OutlineState(e, x, y - 1, ox, oy)
  {
    if y > 1 {
      if y == oy { FirstMoveDownIsSteep(e, x, y); } else { SteepStaysSteep(e, x, y); }
    }
  }

  /** One round of the loop. */
  lemma OutlineNext(e: Ellipse, x: nat, y: nat, ox: nat, oy: nat, x': nat, y': nat)
    requires OutlineState(e, x, y, ox, oy) && y > 0 && Next(e, x, y) == (x', y')
    ensures x' > x && y' < y ==> OutlineState(e, x', y', x', y')
    ensures !(x' > x && y' < y) ==> OutlineState(e, x', y', ox, oy)
  {
    if e.Column(x + 1, y) < 0 {
      OutlineRight(e, x, y, ox, oy);
    } else if e.Line(x + 1, y - 1) < 0 {
      OutlineDiagonal(e, x, y, ox, oy);
    } else {
      OutlineDown(e, x, y, ox, oy);
    }
  }

  // ----- no thick blocks -----

  lemma LineGrows(e: Ellipse, x: nat, y: nat, y': nat)
    requires x >= 1 && y <= y'
    ensures e.Line(x, y) <= e.Line(x, y')
  {
    FGrowsY(e, x - 1, y, y');
    FGrowsY(e, x, y, y');
  }

  /** Only the top row is outside at column 0. */
  lemma TopOnly(e: Ellipse, y: nat)
    requires y <= e.b && e.a >= 1 && e.Column(0, y + 1) >= 0
    ensures y == e.b
  {
    if y < e.b {
      FAtTop(e);
      FGrowsY(e, 0, y + 1, e.b);
      FGrowsY(e, 0, y, e.b - 1);
      FNextY(e, 0, e.b - 1);
      assert e.AA() >= 1;
      MulMonotone(e.AA(), 1, 2 * (e.b - 1) + 1);
    }
  }

  lemma Positive(e: Ellipse)
    requires e.a >= 1 && e.b >= 1
    ensures e.AA() >= 1 && e.BB() >= 1
  {
  }

  /** The inequalities between the slopes where a block turns, as relations between the products. */
  lemma TurnWide(e: Ellipse, x: int, y: int)
    requires e.Column(x, y) < 0 && e.Line(x + 1, y - 1) >= 0 && e.Column(x - 2, y + 1) >= 0
    ensures 2 * (e.BB() * x) + e.BB() > 2 * (e.AA() * y) - e.AA()
    ensures e.AA() * y > 2 * (e.BB() * x) - 2 * e.BB()
  {
    var aa, bb := e.AA(), e.BB();
    FNextY(e, x, y - 1);
    FNextX(e, x, y - 1);
    FNextX(e, x - 1, y);
    FNextX(e, x - 2, y);
    FNextY(e, x - 2, y);
    Products(bb, x);
    Products(aa, y);
  }

  lemma Products(m: nat, i: int)
    ensures m * (2 * i + 1) == 2 * (m * i) + m && m * (2 * (i - 1) + 1) == 2 * (m * i) - m
    ensures m * (2 * (i - 2) + 1) == 2 * (m * i) - 3 * m
  {
  }

  /** From the products: the turn is near the top left corner of a small box. */
  lemma WideIsSmall(aa: int, bb: int, x: int, y: int)
    requires aa >= 1 && bb >= 1 && x >= 3 && y >= 2
    requires 2 * (bb * x) + bb > 2 * (aa * y) - aa && aa * y > 2 * (bb * x) - 2 * bb
    ensures x == 3 && (y == 2 || y == 3)
  {
    MulCompare(bb, x, 3);
    MulCompare(bb, x, 4);
    MulCompare(aa, y, 2);
    MulCompare(aa, y, 4);
    MulCompare(aa, y, 3);
  }

  lemma NoTurnAt32(aa: int, bb: int)
    requires bb >= 1 && aa > 2 * bb && 7 * bb > 3 * aa && 18 * bb + 5 * aa < 2 * (bb * aa)
    ensures 2 * (bb * aa) > 25 * bb + 2 * aa
  {
  }

  lemma NoTurnAt33(aa: int, bb: int)
    requires bb >= 1 && 3 * aa > 4 * bb && 7 * bb > 5 * aa && 18 * bb + 13 * aa < 2 * (bb * aa)
    ensures 2 * (bb * aa) > 25 * bb + 8 * aa
  {
  }

  /** No block is three columns wide and turns down. */
  lemma NotThreeWide(e: Ellipse, x: nat, y: nat)
    requires 2 <= x && 2 <= y <= e.b && e.a >= 1
    requires e.Column(x, y) < 0 && e.Column(x - 2, y + 1) >= 0
    ensures e.Line(x + 1, y - 1) < 0
  {
    Positive(e);
    if e.Line(x + 1, y - 1) >= 0 {
      TurnWide(e, x, y);
      if x == 2 {
        NotAtTop(e, y);
      } else {
        WideIsSmall(e.AA(), e.BB(), x, y);
        SmallTurns(e, y);
      }
    }
  }

  lemma NotAtTop(e: Ellipse, y: nat)
    requires 2 <= y <= e.b && e.a >= 1
    requires e.Column(2, y) < 0 && e.Column(0, y + 1) >= 0
    ensures e.Line(3, y - 1) < 0
  {
    TopOnly(e, y);
    FAtTop(e);
    FNextX(e, 0, y);
    FNextX(e, 1, y);
    FNextY(e, 2, y - 1);
    FNextX(e, 2, y - 1);
    Positive(e);
  }

  lemma SmallTurns(e: Ellipse, y: nat)
    requires 2 <= y <= 3 && e.BB() >= 1
    requires e.Column(3, y) < 0
    requires e.AA() * y > 4 * e.BB() && 7 * e.BB() > 2 * (e.AA() * y) - e.AA()
    ensures e.Line(4, y - 1) < 0
  {
    FAt(e, 3, y, 9, y * y);
    FAt(e, 3, y - 1, 9, (y - 1) * (y - 1));
    FAt(e, 4, y - 1, 16, (y - 1) * (y - 1));
    if y == 2 { NoTurnAt32(e.AA(), e.BB()); } else { NoTurnAt33(e.AA(), e.BB()); }
  }

  lemma FAt(e: Ellipse, x: int, y: int, xx: int, yy: int)
    requires xx == x * x && yy == y * y
    ensures e.F(x, y) == e.BB() * xx + e.AA() * yy - e.BB() * e.AA()
  {
  }

  /** No block turns down and is three rows high. */
  lemma NotThreeHigh(e: Ellipse, x: nat, y: nat)
    requires 1 <= x && 3 <= y <= e.b && e.a >= 1
    requires e.Column(x, y) < 0 && e.Column(x - 1, y + 1) >= 0
    ensures e.Line(x + 1, y - 2) < 0
  {
    Positive(e);
    if e.Line(x + 1, y - 2) >= 0 {
      TurnHigh(e, x, y);
      HighIsAtOne(e.AA(), e.BB(), x, y);
      TopOnly(e, y);
      HighAtTop(e);
    }
  }

  lemma TurnHigh(e: Ellipse, x: int, y: int)
    requires e.Column(x, y) < 0 && e.Line(x + 1, y - 2) >= 0 && e.Column(x - 1, y + 1) >= 0
    ensures 2 * (e.BB() * x) + e.BB() > 6 * (e.AA() * y) - 7 * e.AA()
    ensures 2 * (e.AA() * y) > 2 * (e.BB() * x) - e.BB()
  {
    var aa, bb := e.AA(), e.BB();
    FNextY(e, x, y - 1);
    FNextY(e, x, y - 2);
    FNextX(e, x, y - 2);
    FNextX(e, x - 1, y);
    FNextY(e, x - 1, y);
    Products(bb, x);
    Products(aa, y);
  }

  lemma HighIsAtOne(aa: int, bb: int, x: int, y: int)
    requires aa >= 1 && bb >= 1 && x >= 1 && y >= 3
    requires 2 * (bb * x) + bb > 6 * (aa * y) - 7 * aa && 2 * (aa * y) > 2 * (bb * x) - bb
    ensures x == 1
  {
    MulCompare(bb, x, 2);
    MulCompare(aa, y, 3);
  }

  lemma HighAtTop(e: Ellipse)
    requires e.b >= 3 && e.a >= 1 && e.Column(1, e.b) < 0
    ensures e.Line(2, e.b - 2) < 0
  {
  }

  /** The block a diagonal move ends is one row, one column, or two by two. */
  lemma BlockIsThin(e: Ellipse, x: nat, y: nat, ox: nat, oy: nat)
    requires OutlineState(e, x, y, ox, oy) && y > 0
    ensures Block(ox, oy, x + 1, y - 1).Thin()
  {
    if x > ox && y < oy {
      LineGrows(e, x + 1, y, oy - 1);
      if x >= ox + 2 {
        ColumnGrows(e, ox, x - 2, oy + 1);
        NotThreeWide(e, x, oy);
      }
      if y + 2 <= oy {
        LineGrows(e, x + 1, y, oy - 2);
        ColumnGrows(e, ox, x - 1, oy + 1);
        NotThreeHigh(e, x, oy);
      }
    }
  }

  /** When the walk has ended it is in the middle row, or it went down the last column only. */
  lemma OutlineEnd(e: Ellipse, x: nat, ox: nat, oy: nat)
    requires OutlineState(e, x, 0, ox, oy)
    ensures oy == 0 || ox == e.a
  {
    if oy > 0 {
      LandsAtRim(e, x);
      FAtRim(e, oy);
      FAtRim(e, oy - 1);
    }
  }
}

/** The outline of a quarter ellipse as a path of cells: it has no gaps, it follows the exact ellipse,
    and it is painted in all four quadrants. */
module EllipsePath {
  import opened Arithmetic
  import opened Raster
  import opened EllipseWalk
  import opened EllipseOutline
  import opened EllipseThin

  /** A cell, as (column, row) counted from the centre. */
  type Cell = (nat, nat)

  predicate Touch(p: Cell, q: Cell) {
    -1 <= p.0 - q.0 <= 1 && -1 <= p.1 - q.1 <= 1
  }

  /** Consecutive cells touch along a side or a corner. */
  ghost predicate Connected(s: seq<Cell>) {
    forall k :: 0 <= k < |s| - 1 ==> Touch(s[k], s[k + 1])
  }

  lemma ConnectedConcat(s: seq<Cell>, t: seq<Cell>)
    requires Connected(s) && Connected(t)
    requires s != [] && t != [] ==> Touch(s[|s| - 1], t[0])
    ensures Connected(s + t)
  {
  }

  // ----- the path -----

  function BlockCells(b: Block): (cs: seq<Cell>)
    requires b.Valid()
    ensures |cs| == b.Length() && forall k :: 0 <= k < |cs| ==> cs[k] == (b.CellX(k), b.CellY(k))
  {
    seq(b.Length(), k requires b.Valid() && 0 <= k < b.Length() => (b.CellX(k), b.CellY(k)))
  }

  function BlocksCells(bs: seq<Block>): seq<Cell>
    requires forall k :: 0 <= k < |bs| ==> bs[k].Valid()
  {
    if bs == [] then [] else BlockCells(bs[0]) + BlocksCells(bs[1..])
  }

  /** From the end (ox, oy) of the last block to (a, 0): down the last column, or along the middle row. */
  function SideCells(e: Ellipse, ox: nat, oy: nat): (cs: seq<Cell>)
    requires ox <= e.a
    ensures cs != []
  {
    if oy > 0 then seq(oy + 1, k requires 0 <= k <= oy => (e.a, oy - k))
    else seq(e.a - ox + 1, k requires k >= 0 => (ox + k, 0))
  }

  function OutlinePath(e: Ellipse): seq<Cell> {
    BlocksBounded(e, 0, e.b, 0, e.b);
    var bs := Blocks(e, 0, e.b, 0, e.b);
    BlocksCells(bs) + SideCells(e, EndOf(bs, 0, e.b).0, EndOf(bs, 0, e.b).1)
  }

  // ----- no gaps -----

  /** The blocks follow one another from (ox, oy) on, and each is thin. */
  ghost predicate Linked(bs: seq<Block>, ox: nat, oy: nat)
    decreases |bs|
  {
    bs != [] ==>
      && bs[0].Valid() && bs[0].Thin() && bs[0].ox == ox && bs[0].oy == oy
      && Linked(bs[1..], bs[0].nx, bs[0].ny)
  }

  lemma {:induction false} BlocksLinked(e: Ellipse, x: nat, y: nat, ox: nat, oy: nat)
    requires OutlineState(e, x, y, ox, oy)
    ensures Linked(Blocks(e, x, y, ox, oy), ox, oy)
    ensures var f := EndOf(Blocks(e, x, y, ox, oy), ox, oy); f.0 <= e.a && (f.1 == 0 || f.0 == e.a)
    decreases e.a - x + y
  {
    if y == 0 {
      OutlineEnd(e, x, ox, oy);
    } else {
      NextInBox(e, x, y);
      var (x', y') := Next(e, x, y);
      OutlineNext(e, x, y, ox, oy, x', y');
      if x' > x && y' < y {
        BlockIsThin(e, x, y, ox, oy);
        BlocksLinked(e, x', y', x', y');
        assert Blocks(e, x, y, ox, oy)[1..] == Blocks(e, x', y', x', y');
      } else {
        BlocksLinked(e, x', y', ox, oy);
      }
    }
  }

  lemma BlockConnected(b: Block)
    requires b.Valid() && b.Thin()
    ensures Connected(BlockCells(b)) && BlockCells(b) != []
    ensures BlockCells(b)[0] == (b.ox, b.oy) && BlockCells(b)[b.Length() - 1] == (b.nx - 1, b.ny + 1)
  {
  }

  /** The cells of linked blocks, continued by anything that starts where they end. */
  lemma {:induction false} BlocksConnected(bs: seq<Block>, ox: nat, oy: nat, rest: seq<Cell>)
    requires Linked(bs, ox, oy) && forall k :: 0 <= k < |bs| ==> bs[k].Valid()
    requires Connected(rest) && rest != [] && rest[0] == EndOf(bs, ox, oy)
    ensures var path := BlocksCells(bs) + rest; Connected(path) && path[0] == (ox, oy)
  {
    if bs == [] {
      assert BlocksCells(bs) + rest == rest;
    } else {
      var b := bs[0];
      BlocksConnected(bs[1..], b.nx, b.ny, rest);
      BlockConnected(b);
      ConnectedConcat(BlockCells(b), BlocksCells(bs[1..]) + rest);
      assert BlocksCells(bs) + rest == BlockCells(b) + (BlocksCells(bs[1..]) + rest);
    }
  }

  lemma SideConnected(e: Ellipse, ox: nat, oy: nat)
    requires ox <= e.a && (oy == 0 || ox == e.a)
    ensures var cs := SideCells(e, ox, oy); Connected(cs) && cs[0] == (ox, oy) && cs[|cs| - 1] == (e.a, 0)
  {
  }

  /** The quarter outline is a path without gaps from the top of the middle column to the end of the
      middle row. */
  lemma OutlineHasNoGaps(e: Ellipse)
    ensures var path := OutlinePath(e);
            path != [] && Connected(path) && path[0] == (0, e.b) && path[|path| - 1] == (e.a, 0)
  {
    OutlineStart(e);
    BlocksLinked(e, 0, e.b, 0, e.b);
    BlocksBounded(e, 0, e.b, 0, e.b);
    NoGaps(e, Blocks(e, 0, e.b, 0, e.b));
  }

  lemma NoGaps(e: Ellipse, bs: seq<Block>)
    requires Linked(bs, 0, e.b) && forall k :: 0 <= k < |bs| ==> bs[k].Valid()
    requires var f := EndOf(bs, 0, e.b); f.0 <= e.a && (f.1 == 0 || f.0 == e.a)
    ensures var f := EndOf(bs, 0, e.b);
            var path := BlocksCells(bs) + SideCells(e, f.0, f.1);
            path != [] && Connected(path) && path[0] == (0, e.b) && path[|path| - 1] == (e.a, 0)
  {
    var f := EndOf(bs, 0, e.b);
    SideConnected(e, f.0, f.1);
    BlocksConnected(bs, 0, e.b, SideCells(e, f.0, f.1));
  }

  // ----- the path follows the ellipse -----

  /** Every cell the walk has visited in the current block is near the exact ellipse. */
  ghost predicate NearState(e: Ellipse, x: nat, y: nat, ox: nat, oy: nat) {
    && (forall t: nat :: ox <= t <= x ==> Near(e, t, oy))
    && (forall t: nat :: y <= t <= oy ==> Near(e, x, t))
  }

  ghost predicate NearCells(e: Ellipse, cs: seq<Cell>) {
    forall k :: 0 <= k < |cs| ==> Near(e, cs[k].0, cs[k].1)
  }

  lemma NearNext(e: Ellipse, x: nat, y: nat, ox: nat, oy: nat, x': nat, y': nat)
    requires OutlineState(e, x, y, ox, oy) && NearState(e, x, y, ox, oy) && y > 0 && Next(e, x, y) == (x', y')
    ensures x' > x && y' < y ==> NearState(e, x', y', x', y')
    ensures !(x' > x && y' < y) ==> NearState(e, x', y', ox, oy)
  {
    NextStaysNear(e, x, y);
    if e.Column(x + 1, y) < 0 { OutlineRight(e, x, y, ox, oy); }
  }

  lemma {:induction false} BlocksNear(e: Ellipse, x: nat, y: nat, ox: nat, oy: nat)
    requires OutlineState(e, x, y, ox, oy) && NearState(e, x, y, ox, oy)
    ensures NearCells(e, BlocksCells(Blocks(e, x, y, ox, oy)))
    decreases e.a - x + y
  {
    if y > 0 {
      NextInBox(e, x, y);
      var (x', y') := Next(e, x, y);
      OutlineNext(e, x, y, ox, oy, x', y');
      NearNext(e, x, y, ox, oy, x', y');
      if x' > x && y' < y {
        BlockIsThin(e, x, y, ox, oy);
        var b := Block(ox, oy, x', y');
        assert NearCells(e, BlockCells(b));
        BlocksNear(e, x', y', x', y');
        assert Blocks(e, x, y, ox, oy) == [b] + Blocks(e, x', y', x', y');
        assert BlocksCells([b] + Blocks(e, x', y', x', y')) == BlockCells(b) + BlocksCells(Blocks(e, x', y', x', y'));
      } else {
        BlocksNear(e, x', y', ox, oy);
      }
    }
  }

  lemma {:induction false} EndIsNear(e: Ellipse, x: nat, y: nat, ox: nat, oy: nat)
    requires OutlineState(e, x, y, ox, oy) && NearState(e, x, y, ox, oy)
    ensures var f := EndOf(Blocks(e, x, y, ox, oy), ox, oy); Near(e, f.0, f.1)
    decreases e.a - x + y
  {
    if y > 0 {
      NextInBox(e, x, y);
      var (x', y') := Next(e, x, y);
      OutlineNext(e, x, y, ox, oy, x', y');
      NearNext(e, x, y, ox, oy, x', y');
      var turned := x' > x && y' < y;
      EndIsNear(e, x', y', if turned then x' else ox, if turned then y' else oy);
    }
  }

  /** The last column, down from a cell near the ellipse. */
  lemma ColumnIsNear(e: Ellipse, y: nat, t: nat)
    requires e.a >= 1 && t <= y && Near(e, e.a, y)
    ensures Near(e, e.a, t)
  {
    FGrowsY(e, e.a - 1, Less(t), Less(y));
    FAtRim(e, t + 1);
    FGrowsX(e, e.a, e.a + 1, t + 1);
  }

  /** The middle row, outwards from a cell near the ellipse. */
  lemma RowIsNear(e: Ellipse, x: nat, t: nat)
    requires e.a >= 1 && e.b >= 1 && x <= t <= e.a && Near(e, x, 0)
    ensures Near(e, t, 0)
  {
    FGrowsX(e, x + 1, t + 1, 1);
    FGrowsX(e, Less(t), e.a - 1, 0);
    FNextX(e, e.a - 1, 0);
    FAtRim(e, 0);
    MulMonotone(1, e.b, e.b);
    MulMonotone(e.BB(), 1, 2 * e.a - 1);
  }

  lemma SideIsNear(e: Ellipse, ox: nat, oy: nat)
    requires e.a >= 1 && e.b >= 1 && ox <= e.a && (oy == 0 || ox == e.a) && Near(e, ox, oy)
    ensures NearCells(e, SideCells(e, ox, oy))
  {
    forall k | 0 <= k < |SideCells(e, ox, oy)|
      ensures Near(e, SideCells(e, ox, oy)[k].0, SideCells(e, ox, oy)[k].1)
    {
      if oy > 0 { ColumnIsNear(e, oy, oy - k); } else { RowIsNear(e, ox, ox + k); }
    }
  }

  /** The exact ellipse passes within one diagonal step of every cell of the outline. */
  lemma OutlineIsNear(e: Ellipse)
    requires e.a >= 1 && e.b >= 1
    ensures NearCells(e, OutlinePath(e))
  {
    var bs := Blocks(e, 0, e.b, 0, e.b);
    OutlineStart(e);
    StartIsNear(e);
    BlocksNear(e, 0, e.b, 0, e.b);
    EndIsNear(e, 0, e.b, 0, e.b);
    BlocksLinked(e, 0, e.b, 0, e.b);
    SideIsNear(e, EndOf(bs, 0, e.b).0, EndOf(bs, 0, e.b).1);
  }

  // ----- the path is painted -----

  /** Column 0 exists only in a box of odd width, row 0 only in one of odd height. */
  predicate Visible(c: Centre, p: Cell) { (p.0 >= 1 || c.wod == 1) && (p.1 >= 1 || c.hod == 1) }

  ghost predicate PaintsAll(rs: seq<Rect>, c: Centre, cs: seq<Cell>) {
    forall k :: 0 <= k < |cs| && Visible(c, cs[k]) ==> Painted(rs, c.cx - cs[k].0, c.cy - cs[k].1)
  }

  /** The upper left copy is painted, as far as it does not reach beyond its own mirror image. */
  lemma QuadsPaint(c: Centre, x: int, y: int, w: int, h: int, px: int, py: int)
    requires c.cx - x <= px < c.cx - x + w && px < c.cx + x + c.wod
    requires c.cy - y <= py < c.cy - y + h
    ensures Painted(Quads(c, x, y, w, h), px, py)
  {
  }

  lemma CellPainted(b: Block, c: Centre, k: nat)
    requires b.Valid() && b.Thin() && k < b.Length() && Visible(c, (b.CellX(k), b.CellY(k)))
    ensures Painted(b.Rects(c), c.cx - b.CellX(k), c.cy - b.CellY(k))
  {
    var px, py := c.cx - b.CellX(k), c.cy - b.CellY(k);
    if b.W() == 2 && b.H() == 2 {
      SmoothedPainted(b, c, k);
    } else {
      ThinIsNotSmoothed(b);
      QuadsPaint(c, b.nx - 1, b.oy, b.W(), b.H(), px, py);
    }
  }

  lemma SmoothedPainted(b: Block, c: Centre, k: nat)
    requires b.Valid() && b.W() == 2 && b.H() == 2 && k < 2 && Visible(c, (b.CellX(k), b.CellY(k)))
    ensures Painted(b.Rects(c), c.cx - b.CellX(k), c.cy - b.CellY(k))
  {
    var px, py := c.cx - b.CellX(k), c.cy - b.CellY(k);
    HitsConcat(Quads(c, b.nx - 2, b.ny + 2, 1, 1), Quads(c, b.nx - 1, b.ny + 1, 1, 1), px, py);
    QuadsPaint(c, b.nx - 2 + k, b.ny + 2 - k, 1, 1, px, py);
  }

  /** Among thin blocks only the two by two ones are painted as two single cells. */
  lemma ThinIsNotSmoothed(b: Block)
    requires b.Valid() && b.Thin()
    ensures b.W() / 2 % 2 == 1 && b.H() / 2 % 2 == 1 <==> b.W() == 2 && b.H() == 2
  {
  }

  lemma BlockPainted(b: Block, c: Centre)
    requires b.Valid() && b.Thin()
    ensures PaintsAll(b.Rects(c), c, BlockCells(b))
  {
    forall k | 0 <= k < b.Length() && Visible(c, BlockCells(b)[k])
      ensures Painted(b.Rects(c), c.cx - b.CellX(k), c.cy - b.CellY(k))
    {
      CellPainted(b, c, k);
    }
  }

  lemma PaintsConcat(rs: seq<Rect>, ts: seq<Rect>, c: Centre, cs: seq<Cell>, ds: seq<Cell>)
    requires PaintsAll(rs, c, cs) && PaintsAll(ts, c, ds)
    ensures PaintsAll(rs + ts, c, cs + ds)
  {
    var all := cs + ds;
    forall k | 0 <= k < |all| && Visible(c, all[k])
      ensures Painted(rs + ts, c.cx - all[k].0, c.cy - all[k].1)
    {
      HitsConcat(rs, ts, c.cx - all[k].0, c.cy - all[k].1);
      if k < |cs| { assert all[k] == cs[k]; } else { assert all[k] == ds[k - |cs|]; }
    }
  }

  lemma {:induction false} BlocksPainted(bs: seq<Block>, ox: nat, oy: nat, c: Centre)
    requires Linked(bs, ox, oy) && forall k :: 0 <= k < |bs| ==> bs[k].Valid()
    ensures PaintsAll(BlockRects(bs, c), c, BlocksCells(bs))
  {
    if bs != [] {
      BlockPainted(bs[0], c);
      BlocksPainted(bs[1..], bs[0].nx, bs[0].ny, c);
      PaintsConcat(bs[0].Rects(c), BlockRects(bs[1..], c), c, BlockCells(bs[0]), BlocksCells(bs[1..]));
    }
  }

  lemma SidesPainted(e: Ellipse, c: Centre, ox: nat, oy: nat)
    requires ox <= e.a && (oy == 0 || ox == e.a)
    ensures PaintsAll(Sides(e, c, ox, oy), c, SideCells(e, ox, oy))
  {
    var s, cs := Sides(e, c, ox, oy), SideCells(e, ox, oy);
    forall k | 0 <= k < |cs| && Visible(c, cs[k]) ensures Painted(s, c.cx - cs[k].0, c.cy - cs[k].1) {
      HitsOfTwo(s[0], s[1], c.cx - cs[k].0, c.cy - cs[k].1);
    }
  }

  /** Every visible cell of the path is painted; by symmetry so are its three mirror images. */
  lemma OutlinePathPainted(e: Ellipse, c: Centre)
    ensures PaintsAll(OutlineRects(e, c), c, OutlinePath(e))
  {
    OutlineStart(e);
    BlocksLinked(e, 0, e.b, 0, e.b);
    BlocksBounded(e, 0, e.b, 0, e.b);
    var bs := Blocks(e, 0, e.b, 0, e.b);
    var f := EndOf(bs, 0, e.b);
    BlocksPainted(bs, 0, e.b, c);
    SidesPainted(e, c, f.0, f.1);
    PaintsConcat(BlockRects(bs, c), Sides(e, c, f.0, f.1), c, BlocksCells(bs), SideCells(e, f.0, f.1));
  }

  // ----- and nothing else is painted -----

  predicate UpperLeft(c: Centre, px: int, py: int) { px < c.cx + c.wod && py < c.cy + c.hod }

  /** In the upper left quarter only the upper left copy shows. */
  lemma QuadsOnly(c: Centre, x: int, y: int, w: int, h: int, px: int, py: int)
    requires c.wod <= 1 && x - w >= -1 && y - h >= 0 && x >= 0
    requires UpperLeft(c, px, py) && Painted(Quads(c, x, y, w, h), px, py)
    ensures x - w < c.cx - px <= x && y - h < c.cy - py <= y
  {
    QuadsHits(c, x, y, w, h, px, py);
  }

  lemma BlockOnly(b: Block, c: Centre, px: int, py: int)
    requires b.Valid() && b.Thin() && c.wod <= 1
    requires UpperLeft(c, px, py) && Painted(b.Rects(c), px, py)
    ensures exists k :: 0 <= k < b.Length() && b.CellX(k) == c.cx - px && b.CellY(k) == c.cy - py
  {
    if b.W() == 2 && b.H() == 2 {
      HitsConcat(Quads(c, b.nx - 2, b.ny + 2, 1, 1), Quads(c, b.nx - 1, b.ny + 1, 1, 1), px, py);
      if Painted(Quads(c, b.nx - 2, b.ny + 2, 1, 1), px, py) {
        QuadsOnly(c, b.nx - 2, b.ny + 2, 1, 1, px, py);
        assert b.CellX(0) == c.cx - px && b.CellY(0) == c.cy - py;
      } else {
        QuadsOnly(c, b.nx - 1, b.ny + 1, 1, 1, px, py);
        assert b.CellX(1) == c.cx - px && b.CellY(1) == c.cy - py;
      }
    } else {
      ThinIsNotSmoothed(b);
      QuadsOnly(c, b.nx - 1, b.oy, b.W(), b.H(), px, py);
      var k := if b.W() == 1 then b.oy - (c.cy - py) else c.cx - px - b.ox;
      assert b.CellX(k) == c.cx - px && b.CellY(k) == c.cy - py;
    }
  }

  /** The cell is one of the list, counted from the centre. */
  ghost predicate Listed(cs: seq<Cell>, c: Centre, px: int, py: int) {
    exists k :: 0 <= k < |cs| && cs[k].0 == c.cx - px && cs[k].1 == c.cy - py
  }

  lemma ListedConcat(cs: seq<Cell>, ds: seq<Cell>, c: Centre, px: int, py: int)
    requires Listed(cs, c, px, py) || Listed(ds, c, px, py)
    ensures Listed(cs + ds, c, px, py)
  {
    var all := cs + ds;
    if Listed(cs, c, px, py) {
      var k :| 0 <= k < |cs| && cs[k].0 == c.cx - px && cs[k].1 == c.cy - py;
      assert all[k] == cs[k];
    } else {
      var k :| 0 <= k < |ds| && ds[k].0 == c.cx - px && ds[k].1 == c.cy - py;
      assert all[|cs| + k] == ds[k];
    }
  }

  lemma {:induction false} BlocksOnly(bs: seq<Block>, ox: nat, oy: nat, c: Centre, px: int, py: int)
    requires Linked(bs, ox, oy) && c.wod <= 1 && forall k :: 0 <= k < |bs| ==> bs[k].Valid()
    requires UpperLeft(c, px, py) && Painted(BlockRects(bs, c), px, py)
    ensures Listed(BlocksCells(bs), c, px, py)
  {
    if bs != [] {
      HitsConcat(bs[0].Rects(c), BlockRects(bs[1..], c), px, py);
      if Painted(bs[0].Rects(c), px, py) {
        BlockOnly(bs[0], c, px, py);
        var k :| 0 <= k < bs[0].Length() && bs[0].CellX(k) == c.cx - px && bs[0].CellY(k) == c.cy - py;
        assert BlockCells(bs[0])[k] == (bs[0].CellX(k), bs[0].CellY(k));
      } else {
        BlocksOnly(bs[1..], bs[0].nx, bs[0].ny, c, px, py);
      }
      ListedConcat(BlockCells(bs[0]), BlocksCells(bs[1..]), c, px, py);
    }
  }

  lemma SidesOnly(e: Ellipse, c: Centre, ox: nat, oy: nat, px: int, py: int)
    requires ox <= e.a && (oy == 0 || ox == e.a) && c.wod <= 1 && e.a + c.wod >= 1
    requires UpperLeft(c, px, py) && Painted(Sides(e, c, ox, oy), px, py) && c.hod <= 1
    ensures Listed(SideCells(e, ox, oy), c, px, py)
  {
    var s, cs := Sides(e, c, ox, oy), SideCells(e, ox, oy);
    HitsOfTwo(s[0], s[1], px, py);
    var k := if oy > 0 then oy - (c.cy - py) else c.cx - px - ox;
    assert cs[k].0 == c.cx - px && cs[k].1 == c.cy - py;
  }

  lemma OutlineOnly(e: Ellipse, c: Centre, px: int, py: int)
    requires c.wod <= 1 && c.hod <= 1 && e.a + c.wod >= 1
    requires UpperLeft(c, px, py) && Painted(OutlineRects(e, c), px, py)
    ensures Listed(OutlinePath(e), c, px, py)
  {
    OutlineStart(e);
    BlocksLinked(e, 0, e.b, 0, e.b);
    BlocksBounded(e, 0, e.b, 0, e.b);
    var bs := Blocks(e, 0, e.b, 0, e.b);
    var f := EndOf(bs, 0, e.b);
    HitsConcat(BlockRects(bs, c), Sides(e, c, f.0, f.1), px, py);
    if Painted(BlockRects(bs, c), px, py) {
      BlocksOnly(bs, 0, e.b, c, px, py);
    } else {
      SidesOnly(e, c, f.0, f.1, px, py);
    }
    ListedConcat(BlocksCells(bs), SideCells(e, f.0, f.1), c, px, py);
  }

  /** The image of a cell in the upper left quarter. */
  function FoldX(c: Centre, px: int): int { if px < c.cx + c.wod then px else 2 * c.cx + c.wod - 1 - px }
  function FoldY(c: Centre, py: int): int { if py < c.cy + c.hod then py else 2 * c.cy + c.hod - 1 - py }

  lemma FoldedHits(rs: seq<Rect>, c: Centre, px: int, py: int)
    requires Symmetric(rs, c)
    ensures Hits(rs, px, py) == Hits(rs, FoldX(c, px), FoldY(c, py))
  {
  }

  lemma ListedIsPainted(rs: seq<Rect>, c: Centre, cs: seq<Cell>, qx: int, qy: int)
    requires PaintsAll(rs, c, cs) && UpperLeft(c, qx, qy) && c.wod <= 1 && c.hod <= 1 && Listed(cs, c, qx, qy)
    ensures Painted(rs, qx, qy)
  {
  }

  /** drawEllipse paints exactly the path and its mirror images. */
  lemma OutlineExact(e: Ellipse, c: Centre, px: int, py: int)
    requires c.wod <= 1 && c.hod <= 1 && e.a + c.wod >= 1
    ensures Painted(OutlineRects(e, c), px, py) <==> Listed(OutlinePath(e), c, FoldX(c, px), FoldY(c, py))
  {
    var rs, qx, qy := OutlineRects(e, c), FoldX(c, px), FoldY(c, py);
    OutlineSymmetric(e, c);
    FoldedHits(rs, c, px, py);
    if Painted(rs, qx, qy) {
      OutlineOnly(e, c, qx, qy);
    } else {
      OutlinePathPainted(e, c);
      if Listed(OutlinePath(e), c, qx, qy) { ListedIsPainted(rs, c, OutlinePath(e), qx, qy); }
    }
  }

  /** So the exact ellipse passes within one diagonal step of every cell that drawEllipse paints. */
  lemma PaintedIsNear(e: Ellipse, c: Centre, px: int, py: int)
    requires e.a >= 1 && e.b >= 1 && c.wod <= 1 && c.hod <= 1 && Painted(OutlineRects(e, c), px, py)
    ensures var x, y := c.cx - FoldX(c, px), c.cy - FoldY(c, py); x >= 0 && y >= 0 && Near(e, x, y)
  {
    OutlineExact(e, c, px, py);
    OutlineIsNear(e);
  }

  /** A painted cell that is x columns left of the middle and y rows above it. */
  lemma CellIsNear(e: Ellipse, c: Centre, x: nat, y: nat, px: int, py: int)
    requires e.a >= 1 && e.b >= 1 && c.wod <= 1 && c.hod <= 1 && Painted(OutlineRects(e, c), px, py)
    requires Visible(c, (x, y)) && px == c.cx - x && py == c.cy - y
    ensures Near(e, x, y)
  {
    PaintedIsNear(e, c, px, py);
  }

  // ----- how far the outline reaches to the sides -----

  /** The last block ends above row 0 exactly when row 1 reaches the far column. */
  lemma {:induction false} EndRow(e: Ellipse, x: nat, y: nat, ox: nat, oy: nat)
    requires ox <= x <= e.a && 1 <= y <= oy && y <= e.b
    ensures EndOf(Blocks(e, x, y, ox, oy), ox, oy).1 > 0 <==> LeaveAt(e, x, y, 1) == e.a
    decreases e.a - x + y
  {
    NextInBox(e, x, y);
    var (x', y') := Next(e, x, y);
    if y' == 0 {
      if x' == x { LandsAtRim(e, x); }
    } else if x' > x && y' < y {
      EndRow(e, x', y', x', y');
    } else {
      EndRow(e, x', y', ox, oy);
    }
  }

  lemma {:induction false} BlocksShortOfSide(e: Ellipse, bs: seq<Block>, k: nat)
    requires Bounded(bs, e) && k < |BlocksCells(bs)|
    ensures BlocksCells(bs)[k].0 < e.a
  {
    if k >= bs[0].Length() { BlocksShortOfSide(e, bs[1..], k - bs[0].Length()); }
  }

  lemma PathCellPainted(e: Ellipse, c: Centre, k: nat)
    requires k < |OutlinePath(e)| && Visible(c, OutlinePath(e)[k])
    ensures Painted(OutlineRects(e, c), c.cx - OutlinePath(e)[k].0, c.cy - OutlinePath(e)[k].1)
  {
    OutlinePathPainted(e, c);
  }

  lemma SideStarts(e: Ellipse, cs: seq<Cell>, f: Cell)
    requires f.0 <= e.a && (f.1 == 0 || f.0 == e.a)
    ensures var path := cs + SideCells(e, f.0, f.1); |cs| < |path| && path[|cs|] == f
  {
    assert SideCells(e, f.0, f.1)[0] == f;
  }

  /** Where the path turns down the far column. */
  lemma TurnOnPath(e: Ellipse) returns (k: nat)
    requires e.b >= 1 && HalfWidth(e, 1) == e.a
    ensures k < |OutlinePath(e)| && OutlinePath(e)[k].0 == e.a && OutlinePath(e)[k].1 >= 1
  {
    var bs := Blocks(e, 0, e.b, 0, e.b);
    OutlineStart(e);
    BlocksLinked(e, 0, e.b, 0, e.b);
    EndRow(e, 0, e.b, 0, e.b);
    SideStarts(e, BlocksCells(bs), EndOf(bs, 0, e.b));
    k := |BlocksCells(bs)|;
  }

  lemma SideCellPainted(e: Ellipse, c: Centre, px: int)
    requires c.wod <= 1 && e.a + c.wod >= 1 && px == c.cx - e.a && e.b >= 1 && HalfWidth(e, 1) == e.a
    ensures ColumnPainted(OutlineRects(e, c), px)
  {
    var k := TurnOnPath(e);
    PathCellPainted(e, c, k);
  }

  lemma MiddleCellPainted(e: Ellipse, c: Centre, px: int, py: int)
    requires c.wod <= 1 && e.a + c.wod >= 1 && c.hod == 1 && px == c.cx - e.a && py == c.cy
    ensures Painted(OutlineRects(e, c), px, py)
  {
    OutlineHasNoGaps(e);
    PathCellPainted(e, c, |OutlinePath(e)| - 1);
  }

  lemma TopCellPainted(e: Ellipse, c: Centre, px: int, py: int)
    requires c.wod == 1 && c.hod <= 1 && e.b + c.hod >= 1 && px == c.cx && py == c.cy - e.b
    ensures Painted(OutlineRects(e, c), px, py)
  {
    OutlineHasNoGaps(e);
    PathCellPainted(e, c, 0);
  }

  lemma MirrorPainted(rs: seq<Rect>, c: Centre, px: int, py: int, qx: int, qy: int)
    requires Symmetric(rs, c) && Painted(rs, px, py)
    requires qx == 2 * c.cx + c.wod - 1 - px && qy == 2 * c.cy + c.hod - 1 - py
    ensures Painted(rs, qx, py) && Painted(rs, px, qy)
  {
  }

  /** The middle row is met at both ends. */
  lemma OutlineMeetsSides(e: Ellipse, c: Centre, lx: int, rx: int, y: int)
    requires c.wod <= 1 && e.a + c.wod >= 1 && c.hod == 1
    requires lx == c.cx - e.a && rx == c.cx + e.a + c.wod - 1 && y == c.cy
    ensures Painted(OutlineRects(e, c), lx, y) && Painted(OutlineRects(e, c), rx, y)
  {
    MiddleCellPainted(e, c, lx, y);
    OutlineSymmetric(e, c);
    MirrorPainted(OutlineRects(e, c), c, lx, y, rx, y);
  }

  /** So is the middle column. */
  lemma OutlineMeetsEnds(e: Ellipse, c: Centre, x: int, upper: int, lower: int)
    requires c.wod == 1 && c.hod <= 1 && e.b + c.hod >= 1
    requires x == c.cx && upper == c.cy - e.b && lower == c.cy + e.b + c.hod - 1
    ensures Painted(OutlineRects(e, c), x, upper) && Painted(OutlineRects(e, c), x, lower)
  {
    TopCellPainted(e, c, x, upper);
    OutlineSymmetric(e, c);
    MirrorPainted(OutlineRects(e, c), c, x, upper, x, lower);
  }

  lemma PathShortOfSide(e: Ellipse, k: nat)
    requires e.b >= 1 && HalfWidth(e, 1) != e.a && k < |OutlinePath(e)| && OutlinePath(e)[k].0 == e.a
    ensures OutlinePath(e)[k].1 == 0
  {
    var bs := Blocks(e, 0, e.b, 0, e.b);
    var f := EndOf(bs, 0, e.b);
    EndRow(e, 0, e.b, 0, e.b);
    BlocksBounded(e, 0, e.b, 0, e.b);
    if k < |BlocksCells(bs)| {
      BlocksShortOfSide(e, bs, k);
    } else {
      assert OutlinePath(e)[k] == SideCells(e, f.0, f.1)[k - |BlocksCells(bs)|];
    }
  }

  lemma SideCellOnPath(e: Ellipse, c: Centre, px: int, py: int) returns (k: nat)
    requires c.wod <= 1 && c.hod == 0 && e.a + c.wod >= 1 && px == c.cx - e.a
    requires Painted(OutlineRects(e, c), px, py)
    ensures k < |OutlinePath(e)| && OutlinePath(e)[k].0 == e.a && OutlinePath(e)[k].1 >= 1
  {
    OutlineExact(e, c, px, py);
    k :| 0 <= k < |OutlinePath(e)| && OutlinePath(e)[k].0 == e.a && OutlinePath(e)[k].1 == c.cy - FoldY(c, py);
  }

  lemma SideColumnEmpty(e: Ellipse, c: Centre, px: int)
    requires c.wod <= 1 && c.hod == 0 && e.a + c.wod >= 1 && px == c.cx - e.a && e.b >= 1 && HalfWidth(e, 1) != e.a
    ensures !ColumnPainted(OutlineRects(e, c), px)
  {
    var rs := OutlineRects(e, c);
    if py :| Painted(rs, px, py) {
      var k := SideCellOnPath(e, c, px, py);
      PathShortOfSide(e, k);
    }
  }

  /** The outline reaches the side of its box exactly when the height is odd, so that row 0 is there,
      or the row next to the middle reaches it. */
  lemma ReachesSideIff(e: Ellipse, c: Centre, px: int)
    requires c.wod <= 1 && c.hod <= 1 && e.a + c.wod >= 1 && e.b + c.hod >= 1 && px == c.cx - e.a
    ensures ColumnPainted(OutlineRects(e, c), px) <==> c.hod == 1 || HalfWidth(e, 1) == e.a
  {
    if c.hod == 1 {
      MiddleCellPainted(e, c, px, c.cy);
    } else if HalfWidth(e, 1) == e.a {
      SideCellPainted(e, c, px);
    } else {
      SideColumnEmpty(e, c, px);
    }
  }
}

/** The outline of an ellipse: the walk cut into blocks at its diagonal moves, and what the blocks
    paint. */
module EllipseOutline {
  import opened Raster
  import opened EllipseWalk

  // ----- four mirrored rectangles -----

  /** The point the quadrants are mirrored about. */
  datatype Centre = Centre(cx: int, cy: int, wod: nat, hod: nat)

  function Quads(c: Centre, x: int, y: int, w: int, h: int): seq<Rect> {
    var xl, xr, yt, yb := c.cx - x, c.cx + x + c.wod - w, c.cy - y, c.cy + y + c.hod - h;
    if xr > xl + w then [Rect(xr, yt, w, h), Rect(xr, yb, w, h), Rect(xl, yt, w, h), Rect(xl, yb, w, h)]
    else [Rect(xl, yt, xr - xl + w, h), Rect(xl, yb, xr - xl + w, h)]
  }

  /** Every cell is covered as often as its mirror images. */
  ghost predicate Symmetric(rs: seq<Rect>, c: Centre) {
    forall px, py ::
      && Hits(rs, px, py) == Hits(rs, 2 * c.cx + c.wod - 1 - px, py)
      && Hits(rs, px, py) == Hits(rs, px, 2 * c.cy + c.hod - 1 - py)
  }

  lemma SymmetricConcat(rs: seq<Rect>, ts: seq<Rect>, c: Centre)
    requires Symmetric(rs, c) && Symmetric(ts, c)
    ensures Symmetric(rs + ts, c)
  {
    forall px, py
      ensures Hits(rs + ts, px, py) == Hits(rs + ts, 2 * c.cx + c.wod - 1 - px, py)
      ensures Hits(rs + ts, px, py) == Hits(rs + ts, px, 2 * c.cy + c.hod - 1 - py)
    {
      HitsConcat(rs, ts, px, py);
      HitsConcat(rs, ts, 2 * c.cx + c.wod - 1 - px, py);
      HitsConcat(rs, ts, px, 2 * c.cy + c.hod - 1 - py);
    }
  }

  lemma HitsOfTwo(r: Rect, s: Rect, px: int, py: int)
    ensures Hits([r, s], px, py) == (if Covers(r, px, py) then 1 else 0) + (if Covers(s, px, py) then 1 else 0)
  {
    HitsSnoc([r], s, px, py);
    HitsSnoc([], r, px, py);
    assert [r] + [s] == [r, s] && [] + [r] == [r];
  }

  lemma HitsOfFour(r: Rect, s: Rect, t: Rect, u: Rect, px: int, py: int)
    ensures Hits([r, s, t, u], px, py) == Hits([r, s], px, py) + Hits([t, u], px, py)
  {
    HitsConcat([r, s], [t, u], px, py);
    assert [r, s] + [t, u] == [r, s, t, u];
  }

  lemma QuadsHits(c: Centre, x: int, y: int, w: int, h: int, px: int, py: int)
    ensures var xl, xr, yt, yb := c.cx - x, c.cx + x + c.wod - w, c.cy - y, c.cy + y + c.hod - h;
            var columns := if xr > xl + w
                           then (if xr <= px < xr + w then 1 else 0) + (if xl <= px < xl + w then 1 else 0)
                           else if xl <= px < xr + w then 1 else 0;
            var rows := (if yt <= py < yt + h then 1 else 0) + (if yb <= py < yb + h then 1 else 0);
            Hits(Quads(c, x, y, w, h), px, py) == columns * rows
  {
    var xl, xr, yt, yb := c.cx - x, c.cx + x + c.wod - w, c.cy - y, c.cy + y + c.hod - h;
    if xr > xl + w {
      HitsOfFour(Rect(xr, yt, w, h), Rect(xr, yb, w, h), Rect(xl, yt, w, h), Rect(xl, yb, w, h), px, py);
      HitsOfTwo(Rect(xr, yt, w, h), Rect(xr, yb, w, h), px, py);
      HitsOfTwo(Rect(xl, yt, w, h), Rect(xl, yb, w, h), px, py);
    } else {
      HitsOfTwo(Rect(xl, yt, xr - xl + w, h), Rect(xl, yb, xr - xl + w, h), px, py);
    }
  }

  /** Whatever its arguments, the mirrored emission is symmetric about both centre lines. */
  lemma QuadsSymmetric(c: Centre, x: int, y: int, w: int, h: int)
    ensures Symmetric(Quads(c, x, y, w, h), c)
  {
    forall px, py
      ensures Hits(Quads(c, x, y, w, h), px, py) == Hits(Quads(c, x, y, w, h), 2 * c.cx + c.wod - 1 - px, py)
      ensures Hits(Quads(c, x, y, w, h), px, py) == Hits(Quads(c, x, y, w, h), px, 2 * c.cy + c.hod - 1 - py)
    {
      QuadsHits(c, x, y, w, h, px, py);
      QuadsHits(c, x, y, w, h, 2 * c.cx + c.wod - 1 - px, py);
      QuadsHits(c, x, y, w, h, px, 2 * c.cy + c.hod - 1 - py);
    }
  }

  // ----- blocks -----

  /** The walk between two diagonal moves: it starts at column ox in row oy, and the diagonal move
      that ends it leads to (nx, ny). */
  datatype Block = Block(ox: nat, oy: nat, nx: nat, ny: nat) {
    predicate Valid() { ox < nx && ny < oy }
    function W(): nat requires Valid() { nx - ox }
    function H(): nat requires Valid() { oy - ny }

    /** The rectangles emitted for it: two single cells when both extents have the bit 2 set. */
    function Rects(c: Centre): seq<Rect>
      requires Valid()
    {
      if W() / 2 % 2 == 1 && H() / 2 % 2 == 1 then Quads(c, nx - 2, ny + 2, 1, 1) + Quads(c, nx - 1, ny + 1, 1, 1)
      else Quads(c, nx - 1, oy, W(), H())
    }

    predicate Thin() requires Valid() { W() == 1 || H() == 1 || (W() == 2 && H() == 2) }

    /** The cells of the quarter outline it stands for, as (column, row) counted from the centre. */
    function Length(): nat requires Valid() { if W() > H() then W() else H() }
    function CellX(k: nat): nat requires Valid() && k < Length() { if k < W() then ox + k else nx - 1 }
    function CellY(k: nat): nat requires Valid() && k < Length() { if k < H() then oy - k else ny + 1 }
  }

  /** The blocks of the walk from (x, y), the current block having started at (ox, oy). */
  function Blocks(e: Ellipse, x: nat, y: nat, ox: nat, oy: nat): (bs: seq<Block>)
    requires ox <= x <= e.a && y <= oy && y <= e.b
    ensures forall k :: 0 <= k < |bs| ==> bs[k].Valid()
    decreases e.a - x + y
  {
    if y == 0 then [] else
    NextInBox(e, x, y);
    var (x', y') := Next(e, x, y);
    if x' > x && y' < y then [Block(ox, oy, x', y')] + Blocks(e, x', y', x', y')
    else Blocks(e, x', y', ox, oy)
  }

  function BlockRects(bs: seq<Block>, c: Centre): seq<Rect>
    requires forall k :: 0 <= k < |bs| ==> bs[k].Valid()
  {
    if bs == [] then [] else bs[0].Rects(c) + BlockRects(bs[1..], c)
  }

  /** The two rectangles at the far sides, after the last block has ended in (ox, oy). */
  function Sides(e: Ellipse, c: Centre, ox: nat, oy: nat): seq<Rect> {
    var w, h, y := e.a - ox + 1, 2 * oy + c.hod, c.cy - oy;
    [Rect(c.cx - e.a, y, w, h), Rect(c.cx + ox + c.wod - 1, y, w, h)]
  }

  function EndOf(bs: seq<Block>, ox: nat, oy: nat): (nat, nat) {
    if bs == [] then (ox, oy) else (bs[|bs| - 1].nx, bs[|bs| - 1].ny)
  }

  function OutlineRects(e: Ellipse, c: Centre): seq<Rect> {
    var bs := Blocks(e, 0, e.b, 0, e.b);
    BlockRects(bs, c) + Sides(e, c, EndOf(bs, 0, e.b).0, EndOf(bs, 0, e.b).1)
  }

  // ----- symmetry -----

  lemma SidesSymmetric(e: Ellipse, c: Centre, ox: nat, oy: nat)
    ensures Symmetric(Sides(e, c, ox, oy), c)
  {
    var s := Sides(e, c, ox, oy);
    forall px, py
      ensures Hits(s, px, py) == Hits(s, 2 * c.cx + c.wod - 1 - px, py)
      ensures Hits(s, px, py) == Hits(s, px, 2 * c.cy + c.hod - 1 - py)
    {
      HitsOfTwo(s[0], s[1], px, py);
      HitsOfTwo(s[0], s[1], 2 * c.cx + c.wod - 1 - px, py);
      HitsOfTwo(s[0], s[1], px, 2 * c.cy + c.hod - 1 - py);
    }
  }

  lemma {:induction false} BlocksSymmetric(bs: seq<Block>, c: Centre)
    requires forall k :: 0 <= k < |bs| ==> bs[k].Valid()
    ensures Symmetric(BlockRects(bs, c), c)
  {
    if bs != [] {
      var b := bs[0];
      QuadsSymmetric(c, b.nx - 2, b.ny + 2, 1, 1);
      QuadsSymmetric(c, b.nx - 1, b.ny + 1, 1, 1);
      SymmetricConcat(Quads(c, b.nx - 2, b.ny + 2, 1, 1), Quads(c, b.nx - 1, b.ny + 1, 1, 1), c);
      QuadsSymmetric(c, b.nx - 1, b.oy, b.W(), b.H());
      BlocksSymmetric(bs[1..], c);
      SymmetricConcat(b.Rects(c), BlockRects(bs[1..], c), c);
    }
  }

  /** The outline is symmetric about both centre lines. */
  lemma OutlineSymmetric(e: Ellipse, c: Centre)
    ensures Symmetric(OutlineRects(e, c), c)
  {
    var bs := Blocks(e, 0, e.b, 0, e.b);
    BlocksSymmetric(bs, c);
    SidesSymmetric(e, c, EndOf(bs, 0, e.b).0, EndOf(bs, 0, e.b).1);
    SymmetricConcat(BlockRects(bs, c), Sides(e, c, EndOf(bs, 0, e.b).0, EndOf(bs, 0, e.b).1), c);
  }

  // ----- the outline stays in its box -----

  ghost predicate InBox(rs: seq<Rect>, e: Ellipse, c: Centre) {
    forall px, py :: Painted(rs, px, py) ==>
      c.cx - e.a <= px < c.cx + e.a + c.wod && c.cy - e.b <= py < c.cy + e.b + c.hod
  }

  lemma QuadsInBox(e: Ellipse, c: Centre, x: int, y: int, w: int, h: int)
    requires x <= e.a && y <= e.b && w - x <= e.a + c.wod && h - y <= e.b + c.hod
    ensures InBox(Quads(c, x, y, w, h), e, c)
  {
    forall px, py | Painted(Quads(c, x, y, w, h), px, py)
      ensures c.cx - e.a <= px < c.cx + e.a + c.wod && c.cy - e.b <= py < c.cy + e.b + c.hod
    {
      QuadsHits(c, x, y, w, h, px, py);
    }
  }

  lemma InBoxConcat(rs: seq<Rect>, ts: seq<Rect>, e: Ellipse, c: Centre)
    requires InBox(rs, e, c) && InBox(ts, e, c)
    ensures InBox(rs + ts, e, c)
  {
    forall px, py | Painted(rs + ts, px, py)
      ensures c.cx - e.a <= px < c.cx + e.a + c.wod && c.cy - e.b <= py < c.cy + e.b + c.hod
    {
      HitsConcat(rs, ts, px, py);
      assert Painted(rs, px, py) || Painted(ts, px, py);
    }
  }

  ghost predicate Bounded(bs: seq<Block>, e: Ellipse) {
    forall k :: 0 <= k < |bs| ==> bs[k].Valid() && bs[k].nx <= e.a && bs[k].oy <= e.b
  }

  lemma {:induction false} BlocksInBox(bs: seq<Block>, e: Ellipse, c: Centre)
    requires Bounded(bs, e)
    ensures InBox(BlockRects(bs, c), e, c)
  {
    if bs != [] {
      var b := bs[0];
      BlockInBox(b, e, c);
      BlocksInBox(bs[1..], e, c);
      InBoxConcat(b.Rects(c), BlockRects(bs[1..], c), e, c);
    }
  }

  lemma BlockInBox(b: Block, e: Ellipse, c: Centre)
    requires b.Valid() && b.nx <= e.a && b.oy <= e.b
    ensures InBox(b.Rects(c), e, c)
  {
    if b.W() / 2 % 2 == 1 && b.H() / 2 % 2 == 1 {
      QuadsInBox(e, c, b.nx - 2, b.ny + 2, 1, 1);
      QuadsInBox(e, c, b.nx - 1, b.ny + 1, 1, 1);
      InBoxConcat(Quads(c, b.nx - 2, b.ny + 2, 1, 1), Quads(c, b.nx - 1, b.ny + 1, 1, 1), e, c);
    } else {
      QuadsInBox(e, c, b.nx - 1, b.oy, b.W(), b.H());
    }
  }

  lemma SidesInBox(e: Ellipse, c: Centre, ox: nat, oy: nat)
    requires ox <= e.a && oy <= e.b && e.a + c.wod >= 1
    ensures InBox(Sides(e, c, ox, oy), e, c)
  {
    var s := Sides(e, c, ox, oy);
    forall px, py | Painted(s, px, py)
      ensures c.cx - e.a <= px < c.cx + e.a + c.wod && c.cy - e.b <= py < c.cy + e.b + c.hod
    {
      HitsOfTwo(s[0], s[1], px, py);
    }
  }

  lemma {:induction false} BlocksBounded(e: Ellipse, x: nat, y: nat, ox: nat, oy: nat)
    requires ox <= x <= e.a && y <= oy <= e.b
    ensures Bounded(Blocks(e, x, y, ox, oy), e)
    ensures var f := EndOf(Blocks(e, x, y, ox, oy), ox, oy); f.0 <= e.a && f.1 <= e.b
    decreases e.a - x + y
  {
    if y > 0 {
      NextInBox(e, x, y);
      var (x', y') := Next(e, x, y);
      if x' > x && y' < y {
        BlocksBounded(e, x', y', x', y');
      } else {
        BlocksBounded(e, x', y', ox, oy);
      }
    }
  }

  /** Nothing is painted outside the box of width 2 a + wod and height 2 b + hod. */
  lemma OutlineInBox(e: Ellipse, c: Centre)
    requires e.a + c.wod >= 1
    ensures InBox(OutlineRects(e, c), e, c)
  {
    var bs := Blocks(e, 0, e.b, 0, e.b);
    BlocksBounded(e, 0, e.b, 0, e.b);
    BlocksInBox(bs, e, c);
    SidesInBox(e, c, EndOf(bs, 0, e.b).0, EndOf(bs, 0, e.b).1);
    InBoxConcat(BlockRects(bs, c), Sides(e, c, EndOf(bs, 0, e.b).0, EndOf(bs, 0, e.b).1), e, c);
  }

  // ----- the drawing loop -----

  /** One round: a diagonal move ends a block, any other move continues it. */
  lemma BlocksNext(e: Ellipse, x: nat, y: nat, ox: nat, oy: nat, x': nat, y': nat, c: Centre)
    requires ox <= x <= e.a && y <= oy && y <= e.b && y > 0 && Next(e, x, y) == (x', y')
    ensures x' <= e.a
    ensures x' > x && y' < y ==>
      && BlockRects(Blocks(e, x, y, ox, oy), c) ==
         Block(ox, oy, x', y').Rects(c) + BlockRects(Blocks(e, x', y', x', y'), c)
      && EndOf(Blocks(e, x, y, ox, oy), ox, oy) == EndOf(Blocks(e, x', y', x', y'), x', y')
    ensures !(x' > x && y' < y) ==> Blocks(e, x, y, ox, oy) == Blocks(e, x', y', ox, oy)
  {
    NextInBox(e, x, y);
    if x' > x && y' < y {
      var b, rest := Block(ox, oy, x', y'), Blocks(e, x', y', x', y');
      assert Blocks(e, x, y, ox, oy) == [b] + rest;
      assert ([b] + rest)[1..] == rest;
    }
  }

  // ----- the dotted outline -----

  /** Every second visited cell, mirrored, starting with the first if drw is set; row 0 only where
      the height is odd. */
  function Dots(trail: seq<(nat, nat)>, drw: bool, c: Centre): seq<Rect> {
    if trail == [] then []
    else
      var (x, y) := trail[0];
      (if drw && y >= 1 - c.hod then Quads(c, x, y, 1, 1) else []) + Dots(trail[1..], !drw, c)
  }

  /** Cell k of the trail is drawn as a dot that covers (px, py). */
  predicate DotCovers(trail: seq<(nat, nat)>, drw: bool, c: Centre, k: nat, px: int, py: int) {
    && k < |trail| && (k % 2 == 0) == drw && trail[k].1 >= 1 - c.hod
    && Painted(Quads(c, trail[k].0, trail[k].1, 1, 1), px, py)
  }

  lemma DotCoversTail(trail: seq<(nat, nat)>, drw: bool, c: Centre, k: nat, px: int, py: int)
    requires trail != []
    ensures DotCovers(trail, drw, c, k + 1, px, py) <==> DotCovers(trail[1..], !drw, c, k, px, py)
  {
  }

  lemma {:induction false} DotsCovered(trail: seq<(nat, nat)>, drw: bool, c: Centre, px: int, py: int)
    ensures Painted(Dots(trail, drw, c), px, py) <==> exists k: nat :: DotCovers(trail, drw, c, k, px, py)
  {
    if trail != [] {
      var (x, y) := trail[0];
      var head := if drw && y >= 1 - c.hod then Quads(c, x, y, 1, 1) else [];
      DotsCovered(trail[1..], !drw, c, px, py);
      HitsConcat(head, Dots(trail[1..], !drw, c), px, py);
      assert Painted(head, px, py) <==> DotCovers(trail, drw, c, 0, px, py);
      var rest, flipped := trail[1..], !drw;
      if k: nat :| DotCovers(rest, flipped, c, k, px, py) {
        DotCoversTail(trail, drw, c, k, px, py);
      }
      if k: nat :| DotCovers(trail, drw, c, k, px, py) {
        if k > 0 { DotCoversTail(trail, drw, c, k - 1, px, py); }
      }
    }
  }

  /** The dots are exactly the mirror images of the visited cells with even numbers. */
  lemma DotsExact(trail: seq<(nat, nat)>, drw: bool, c: Centre, px: int, py: int)
    ensures Painted(Dots(trail, drw, c), px, py) <==>
            exists k :: 0 <= k < |trail| && (k % 2 == 0) == drw && trail[k].1 >= 1 - c.hod
              && Painted(Quads(c, trail[k].0, trail[k].1, 1, 1), px, py)
  {
    DotsCovered(trail, drw, c, px, py);
    if k :| 0 <= k < |trail| && (k % 2 == 0) == drw && trail[k].1 >= 1 - c.hod
            && Painted(Quads(c, trail[k].0, trail[k].1, 1, 1), px, py)
    {
      assert DotCovers(trail, drw, c, k, px, py);
    }
  }

  lemma {:induction false} DotsSymmetric(trail: seq<(nat, nat)>, drw: bool, c: Centre)
    ensures Symmetric(Dots(trail, drw, c), c)
  {
    if trail != [] {
      var (x, y) := trail[0];
      var head := if drw && y >= 1 - c.hod then Quads(c, x, y, 1, 1) else [];
      QuadsSymmetric(c, x, y, 1, 1);
      DotsSymmetric(trail[1..], !drw, c);
      SymmetricConcat(head, Dots(trail[1..], !drw, c), c);
    }
  }

  lemma {:induction false} DotsInBox(trail: seq<(nat, nat)>, drw: bool, e: Ellipse, c: Centre)
    requires forall k :: 0 <= k < |trail| ==> trail[k].0 <= e.a && trail[k].1 <= e.b
    requires e.a + c.wod >= 1 && e.b + c.hod >= 1
    ensures InBox(Dots(trail, drw, c), e, c)
  {
    if trail != [] {
      var (x, y) := trail[0];
      var head := if drw && y >= 1 - c.hod then Quads(c, x, y, 1, 1) else [];
      QuadsInBox(e, c, x, y, 1, 1);
      DotsInBox(trail[1..], !drw, e, c);
      InBoxConcat(head, Dots(trail[1..], !drw, c), e, c);
    }
  }
}

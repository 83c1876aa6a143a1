/** The drawing object: it appends one div after the other to its HTML text. The text is modelled
    as the sequence of rectangles those divs show. */
module JsGraphicsCanvas {
  import opened Sequences
  import opened Raster
  import opened BresenhamLine
  import opened PolygonScan
  import opened EllipseWalk
  import opened EllipseFill
  import opened EllipseOutline
  import opened EllipsePath

  class JsGraphics {
    var htm: seq<Rect>

    constructor ()
      ensures htm == []
    {
      htm := [];
    }

    method MkDiv(x: int, y: int, w: int, h: int)
      modifies this
      ensures htm == old(htm) + [Rect(x, y, w, h)]
    {
      htm := htm + [Rect(x, y, w, h)];
    }

    // ----- lines -----

    /** Paints every cell of the path exactly once, run by run, and no other cell. */
    method MkLin(xa: int, ya: int, xb: int, yb: int)
      modifies this
      ensures old(htm) <= htm
      ensures forall px, py ::
        Hits(htm[|old(htm)|..], px, py) == if LeftToRight(xa, ya, xb, yb).On(px, py) then 1 else 0
    {
      var x1, y1, x2, y2 := xa, ya, xb, yb;
      if x1 > x2 {
        x1, y1, x2, y2 := x2, y2, x1, y1;
      }
      ghost var s := LeftToRight(xa, ya, xb, yb);
      var dx, dy := x2 - x1, Abs(y2 - y1);
      if dx >= dy {
        MkLinShallow(s, x1, y1, x2, y2);
      } else if y2 <= y1 {
        MkLinUp(s, x1, y1, x2, y2);
      } else {
        MkLinDown(s, x1, y1, x2, y2);
      }
      PaintsPath(htm[|old(htm)|..], s);
    }

    method MkLinShallow(ghost s: Segment, x1: int, y1: int, x2: int, y2: int)
      requires s == Segment(x1, y1, x2, y2) && s.Valid() && s.Shallow()
      modifies this
      ensures old(htm) <= htm && PaintsFirst(htm[|old(htm)|..], s, s.Steps() + 1)
    {
      var dx, dy := x2 - x1, Abs(y2 - y1);
      var x, y, yIncr := x1, y1, if y1 > y2 then -1 else 1;
      var pr := 2 * dy;
      var pru, p, ox := pr - 2 * dx, pr - dx, x;
      ghost var rs: seq<Rect>, k: nat, m: nat := [], 0, 0;
      PathEnds(s);
      while dx > 0
        invariant 0 <= dx && k == s.Steps() - dx && m <= k && x == x1 + k && ox == x1 + m
        invariant y == s.CellY(m) == s.CellY(k)
        invariant p == Decision(s.Steps(), s.Across(), k, s.At(k))
        invariant htm == old(htm) + rs && PaintsFirst(rs, s, m)
      {
        DecisionSteers(s.Steps(), s.Across(), k);
        dx := dx - 1;
        x, k := x + 1, k + 1;
        if p > 0 {
          HorizontalRun(rs, s, m, k, y);
          Regroup(old(htm), rs, [Rect(ox, y, x - ox, 1)]);
          rs := rs + [Rect(ox, y, x - ox, 1)];
          MkDiv(ox, y, x - ox, 1);
          y := y + yIncr;
          p := p + pru;
          ox, m := x, k;
        } else {
          p := p + pr;
        }
      }
      HorizontalRun(rs, s, m, k + 1, y);
      Regroup(old(htm), rs, [Rect(ox, y, x2 - ox + 1, 1)]);
      MkDiv(ox, y, x2 - ox + 1, 1);
      assert htm[|old(htm)|..] == rs + [Rect(ox, y, x2 - ox + 1, 1)];
    }

    method MkLinUp(ghost s: Segment, x1: int, y1: int, x2: int, y2: int)
      requires s == Segment(x1, y1, x2, y2) && s.Valid() && !s.Shallow() && y2 <= y1
      modifies this
      ensures old(htm) <= htm && PaintsFirst(htm[|old(htm)|..], s, s.Steps() + 1)
    {
      var dx, dy := x2 - x1, Abs(y2 - y1);
      var x, y, yIncr := x1, y1, if y1 > y2 then -1 else 1;
      var pr := 2 * dx;
      var pru, p, oy := pr - 2 * dy, pr - dy, y;
      ghost var rs: seq<Rect> := [];
      PathEnds(s);
      while dy > 0
        invariant 0 <= dy <= s.Dy() && y == y2 + dy && y <= oy <= y1
        invariant x == s.CellX(y1 - oy) == s.CellX(y1 - y)
        invariant p == Decision(s.Steps(), s.Across(), y1 - y, s.At(y1 - y))
        invariant htm == old(htm) + rs && PaintsFirst(rs, s, y1 - oy)
      {
        DecisionSteers(s.Steps(), s.Across(), y1 - y);
        dy := dy - 1;
        if p > 0 {
          VerticalRun(rs, s, y1 - oy, y1 - y + 1, x, y);
          rs := rs + [Rect(x, y, 1, oy - y + 1)];
          MkDiv(x, y, 1, oy - y + 1);
          x := x + 1;
          y := y + yIncr;
          p := p + pru;
          oy := y;
        } else {
          y := y + yIncr;
          p := p + pr;
        }
      }
      VerticalRun(rs, s, y1 - oy, y1 - y2 + 1, x2, y2);
      MkDiv(x2, y2, 1, oy - y2 + 1);
      assert htm[|old(htm)|..] == rs + [Rect(x2, y2, 1, oy - y2 + 1)];
    }

    method MkLinDown(ghost s: Segment, x1: int, y1: int, x2: int, y2: int)
      requires s == Segment(x1, y1, x2, y2) && s.Valid() && !s.Shallow() && y2 > y1
      modifies this
      ensures old(htm) <= htm && PaintsFirst(htm[|old(htm)|..], s, s.Steps() + 1)
    {
      var dx, dy := x2 - x1, Abs(y2 - y1);
      var x, y, yIncr := x1, y1, if y1 > y2 then -1 else 1;
      var pr := 2 * dx;
      var pru, p, oy := pr - 2 * dy, pr - dy, y;
      ghost var rs: seq<Rect> := [];
      PathEnds(s);
      while dy > 0
        invariant 0 <= dy <= s.Dy() && y == y2 - dy && y1 <= oy <= y
        invariant x == s.CellX(oy - y1) == s.CellX(y - y1)
        invariant p == Decision(s.Steps(), s.Across(), y - y1, s.At(y - y1))
        invariant htm == old(htm) + rs && PaintsFirst(rs, s, oy - y1)
      {
        DecisionSteers(s.Steps(), s.Across(), y - y1);
        dy := dy - 1;
        y := y + yIncr;
        if p > 0 {
          VerticalRun(rs, s, oy - y1, y - y1, x, oy);
          rs := rs + [Rect(x, oy, 1, y - oy)];
          MkDiv(x, oy, 1, y - oy);
          x := x + 1;
          p := p + pru;
          oy := y;
        } else {
          p := p + pr;
        }
      }
      VerticalRun(rs, s, oy - y1, y2 - y1 + 1, x2, oy);
      MkDiv(x2, oy, 1, y2 - oy + 1);
      assert htm[|old(htm)|..] == rs + [Rect(x2, oy, 1, y2 - oy + 1)];
    }

    /** Paints, as unit squares in path order, exactly the cells of even step. */
    method MkLinDott(xa: int, ya: int, xb: int, yb: int)
      modifies this
      ensures htm == old(htm) + EvenCells(LeftToRight(xa, ya, xb, yb), LeftToRight(xa, ya, xb, yb).Steps() + 1)
    {
      var x1, y1, x2, y2 := xa, ya, xb, yb;
      if x1 > x2 {
        x1, y1, x2, y2 := x2, y2, x1, y1;
      }
      ghost var s := LeftToRight(xa, ya, xb, yb);
      var dx, dy := x2 - x1, Abs(y2 - y1);
      if dx >= dy {
        MkLinDottShallow(s, x1, y1, x2, y2);
      } else {
        MkLinDottSteep(s, x1, y1, x2, y2);
      }
    }

    method MkLinDottShallow(ghost s: Segment, x1: int, y1: int, x2: int, y2: int)
      requires s == Segment(x1, y1, x2, y2) && s.Valid() && s.Shallow()
      modifies this
      ensures htm == old(htm) + EvenCells(s, s.Steps() + 1)
    {
      var dx, dy := x2 - x1, Abs(y2 - y1);
      var x, y, yIncr, drw := x1, y1, if y1 > y2 then -1 else 1, true;
      var pr := 2 * dy;
      var pru, p := pr - 2 * dx, pr - dx;
      ghost var k := 0;
      PathEnds(s);
      while dx > 0
        invariant 0 <= dx && k == s.Dx() - dx && x == s.CellX(k) && y == s.CellY(k)
        invariant p == Decision(s.Steps(), s.Across(), k, s.At(k))
        invariant drw == (k % 2 == 0) && htm == old(htm) + EvenCells(s, k)
      {
        DecisionSteers(s.Steps(), s.Across(), k);
        dx := dx - 1;
        if drw { MkDiv(x, y, 1, 1); }
        drw := !drw;
        NextParity(k);
        assert htm == old(htm) + EvenCells(s, k + 1);
        if p > 0 {
          y := y + yIncr;
          p := p + pru;
        } else {
          p := p + pr;
        }
        x := x + 1;
        k := k + 1;
      }
      if drw { MkDiv(x, y, 1, 1); }
    }

    method MkLinDottSteep(ghost s: Segment, x1: int, y1: int, x2: int, y2: int)
      requires s == Segment(x1, y1, x2, y2) && s.Valid() && !s.Shallow()
      modifies this
      ensures htm == old(htm) + EvenCells(s, s.Steps() + 1)
    {
      var dx, dy := x2 - x1, Abs(y2 - y1);
      var x, y, yIncr, drw := x1, y1, if y1 > y2 then -1 else 1, true;
      var pr := 2 * dx;
      var pru, p := pr - 2 * dy, pr - dy;
      ghost var k := 0;
      PathEnds(s);
      while dy > 0
        invariant 0 <= dy && k == s.Dy() - dy && x == s.CellX(k) && y == s.CellY(k)
        invariant p == Decision(s.Steps(), s.Across(), k, s.At(k))
        invariant drw == (k % 2 == 0) && htm == old(htm) + EvenCells(s, k)
      {
        DecisionSteers(s.Steps(), s.Across(), k);
        dy := dy - 1;
        if drw { MkDiv(x, y, 1, 1); }
        drw := !drw;
        NextParity(k);
        assert htm == old(htm) + EvenCells(s, k + 1);
        y := y + yIncr;
        if p > 0 {
          x := x + 1;
          p := p + pru;
        } else {
          p := p + pr;
        }
        k := k + 1;
      }
      if drw { MkDiv(x, y, 1, 1); }
    }

    // ----- ellipses -----

    /** Paints every cell of the filled ellipse exactly once and no other cell. */
    method FillEllipse(left: int, top: int, w: nat, h: nat)
      modifies this
      ensures old(htm) <= htm
      ensures forall px, py :: Hits(htm[|old(htm)|..], px, py) == if Box(left, top, w, h).Filled(px, py) then 1 else 0
    {
      ghost var box := Box(left, top, w, h);
      var a, b, hod := w / 2, h / 2, h % 2;
      var cx, cy := left + a, top + b;
      var oy: nat := b;
      ghost var rs: seq<Rect> := [];
      if w != 0 {
        oy, rs := FillBands(left, top, w, h);
      } else {
        FillNothing(box.E());
      }
      MiddleBand(rs, box, Reaches(box.E()), oy);
      MkDiv(cx - a, cy - oy, w, 2 * oy + hod);
      assert htm[|old(htm)|..] == rs + [Rect(cx - a, cy - oy, w, 2 * oy + hod)];
    }

    /** The walking loop: it ends after at most a + b rounds, and paints all rows but those that
        reach the full width. */
    method FillBands(left: int, top: int, w: nat, h: nat) returns (oy: nat, ghost rs: seq<Rect>)
      modifies this
      ensures htm == old(htm) + rs && oy <= h / 2
      ensures FillsBeyond(rs, Box(left, top, w, h), Reaches(Ellipse(w / 2, h / 2)), oy)
      ensures forall r :: 0 <= r <= oy ==> Reaches(Ellipse(w / 2, h / 2))[r] == w / 2
    {
      var a, b, wod, hod := w / 2, h / 2, w % 2, h % 2;
      var cx, cy := left + a, top + b;
      ghost var box, e := Box(left, top, w, h), Ellipse(a, b);
      var f, st, tt := StartWalk(Ellipse(a, b));
      var x: nat, y: nat := 0, b;
      ghost var reach, rounds := Reaches(e), 0;
      oy, rs := b, [];
      FillStart(e);
      while y > 0
        invariant x <= a && y <= oy <= b
        invariant FillState(e, reach, x, y, oy) && Tracks(e, x, y, st, tt)
        invariant htm == old(htm) + rs && FillsBeyond(rs, box, reach, oy)
        invariant rounds + (a - x) + y <= a + b
        decreases a - x + y
      {
        rounds := rounds + 1;
        NextInBox(e, x, y);
        var x', y';
        x', y', st, tt := Advance(e, f, x, y, st, tt);
        FillNext(e, reach, x, y, oy, x', y');
        if x' > x && y' < y {
          var xl, dw, dh := cx - x, 2 * x + wod, oy - y';
          TwoBands(rs, box, reach, oy, y', x);
          MkDiv(xl, cy - oy, dw, dh);
          MkDiv(xl, cy + y' + hod, dw, dh);
          rs := rs + [Rect(xl, cy - oy, dw, dh)] + [Rect(xl, cy + y' + hod, dw, dh)];
          oy := y';
        }
        x, y := x', y';
      }
      FillEnd(e, reach, x, oy);
    }

    method MkOvQds(cx: int, cy: int, x: int, y: int, w0: int, h: int, wod: nat, hod: nat)
      modifies this
      ensures htm == old(htm) + Quads(Centre(cx, cy, wod, hod), x, y, w0, h)
    {
      var w := w0;
      var xl, xr, yt, yb := cx - x, cx + x + wod - w, cy - y, cy + y + hod - h;
      if xr > xl + w {
        MkDiv(xr, yt, w, h);
        MkDiv(xr, yb, w, h);
      } else {
        w := xr - xl + w;
      }
      MkDiv(xl, yt, w, h);
      MkDiv(xl, yb, w, h);
    }

    /** drawEllipse with stroke 1. */
    method MkOv(left: int, top: int, width: nat, height: nat)
      modifies this
      ensures htm == old(htm) + OvalRects(left, top, width, height)
    {
      var w1, h1 := width + 1, height + 1;
      var a, b, wod, hod := w1 / 2, h1 / 2, w1 % 2, h1 % 2;
      var cx, cy := left + a, top + b;
      ghost var c, e := Centre(cx, cy, wod, hod), Ellipse(a, b);
      var ox, oy := WalkOutline(a, b, cx, cy, wod, hod);
      Regroup(old(htm), BlockRects(Blocks(e, 0, b, 0, b), c), Sides(e, c, ox, oy));
      EmitSides(a, b, ox, oy, cx, cy, wod, hod);
    }

    method EmitSides(a: nat, b: nat, ox: nat, oy: nat, cx: int, cy: int, wod: nat, hod: nat)
      modifies this
      ensures htm == old(htm) + Sides(Ellipse(a, b), Centre(cx, cy, wod, hod), ox, oy)
    {
      var w, h, y := a - ox + 1, 2 * oy + hod, cy - oy;
      MkDiv(cx - a, y, w, h);
      MkDiv(cx + ox + wod - 1, y, w, h);
    }

    /** The walking loop: it emits one block at every diagonal move. */
    method WalkOutline(a: nat, b: nat, cx: int, cy: int, wod: nat, hod: nat) returns (ox: nat, oy: nat)
      modifies this
      ensures htm == old(htm) + BlockRects(Blocks(Ellipse(a, b), 0, b, 0, b), Centre(cx, cy, wod, hod))
      ensures (ox, oy) == EndOf(Blocks(Ellipse(a, b), 0, b, 0, b), 0, b)
    {
      ghost var c, e := Centre(cx, cy, wod, hod), Ellipse(a, b);
      var f, st, tt := StartWalk(Ellipse(a, b));
      var x: nat, y: nat := 0, b;
      ox, oy := 0, b;
      ghost var all := Blocks(e, 0, b, 0, b);
      ghost var rs: seq<Rect> := [];
      while y > 0
        invariant ox <= x <= a && y <= oy <= b
        invariant Tracks(e, x, y, st, tt)
        invariant htm == old(htm) + rs
        invariant BlockRects(all, c) == rs + BlockRects(Blocks(e, x, y, ox, oy), c)
        invariant EndOf(all, 0, b) == EndOf(Blocks(e, x, y, ox, oy), ox, oy)
        decreases a - x + y
      {
        NextInBox(e, x, y);
        var x', y';
        x', y', st, tt := Advance(e, f, x, y, st, tt);
        BlocksNext(e, x, y, ox, oy, x', y', c);
        if x' > x && y' < y {
          ghost var block := Block(ox, oy, x', y');
          Regroup(rs, block.Rects(c), BlockRects(Blocks(e, x', y', x', y'), c));
          Regroup(old(htm), rs, block.Rects(c));
          EmitBlock(ox, oy, x', y', cx, cy, wod, hod);
          rs := rs + block.Rects(c);
          ox, oy := x', y';
        }
        x, y := x', y';
      }
      assert BlockRects(all, c) == rs;
    }

    /** What a diagonal move emits: two single cells where both extents have bit 2 set. */
    method EmitBlock(ox: nat, oy: nat, x: nat, y: nat, cx: int, cy: int, wod: nat, hod: nat)
      requires Block(ox, oy, x, y).Valid()
      modifies this
      ensures htm == old(htm) + Block(ox, oy, x, y).Rects(Centre(cx, cy, wod, hod))
    {
      var w, h := x - ox, oy - y;
      if w / 2 % 2 == 1 && h / 2 % 2 == 1 {
        MkOvQds(cx, cy, x - 2, y + 2, 1, 1, wod, hod);
        MkOvQds(cx, cy, x - 1, y + 1, 1, 1, wod, hod);
      } else {
        MkOvQds(cx, cy, x - 1, oy, w, h, wod, hod);
      }
    }

    /** drawEllipse with the dotted stroke. */
    method MkOvDott(left: int, top: int, width: nat, height: nat)
      modifies this
      ensures var trail := Trail(OvalIn(width, height), 0, (height + 1) / 2);
              htm == old(htm) + Dots(trail, true, OvalCentre(left, top, width, height))
    {
      var w1, h1 := width + 1, height + 1;
      var a, b, wod, hod := w1 / 2, h1 / 2, w1 % 2, h1 % 2;
      WalkDots(a, b, left + a, top + b, wod, hod);
    }

    method WalkDots(a: nat, b: nat, cx: int, cy: int, wod: nat, hod: nat)
      modifies this
      ensures htm == old(htm) + Dots(Trail(Ellipse(a, b), 0, b), true, Centre(cx, cy, wod, hod))
    {
      var hodu := 1 - hod;
      ghost var c, e := Centre(cx, cy, wod, hod), Ellipse(a, b);
      var f, st, tt := StartWalk(Ellipse(a, b));
      var x: nat, y: nat, drw := 0, b, true;
      ghost var rs: seq<Rect> := [];
      while y > 0
        invariant x <= a && y <= b
        invariant Tracks(e, x, y, st, tt)
        invariant htm == old(htm) + rs
        invariant Dots(Trail(e, 0, b), true, c) == rs + Dots(Trail(e, x, y), drw, c)
        decreases a - x + y
      {
        NextInBox(e, x, y);
        DotsNext(e, x, y, drw, c);
        x, y, st, tt := Advance(e, f, x, y, st, tt);
        ghost var dot := if drw && y >= hodu then Quads(c, x, y, 1, 1) else [];
        Regroup(rs, dot, Dots(Trail(e, x, y), !drw, c));
        Regroup(old(htm), rs, dot);
        if drw && y >= hodu { MkOvQds(cx, cy, x, y, 1, 1, wod, hod); }
        rs := rs + dot;
        drw := !drw;
      }
    }

    // ----- polygons -----

    method FillPolygon(xs: seq<int>, ys: seq<int>)
      requires |xs| <= |ys|
      modifies this
      ensures htm == old(htm) + PolygonRects(xs, ys)
    {
      var n := |xs|;
      if n == 0 { return; }
      var miny, maxy := Extremes(ys, n);
      MinBelowMax(ys[..n]);
      forall y | miny <= y <= maxy { CrossingsEven(xs, ys, y); }
      FillRows(xs, ys, miny, maxy);
    }

    method FillRows(xs: seq<int>, ys: seq<int>, miny: int, maxy: int)
      requires 0 < |xs| <= |ys| && miny <= maxy
      requires forall y :: miny <= y <= maxy ==> |Crossings(Edges(xs, ys), y, maxy)| % 2 == 0
      modifies this
      ensures htm == old(htm) + RowsBefore(Edges(xs, ys), miny, maxy + 1, maxy)
    {
      ghost var es := Edges(xs, ys);
      for y := miny to maxy + 1
        invariant htm == old(htm) + RowsBefore(es, miny, y, maxy)
      {
        Regroup(old(htm), RowsBefore(es, miny, y, maxy), RowRects(es, y, maxy));
        FillRow(xs, ys, y, maxy);
      }
    }

    method FillRow(xs: seq<int>, ys: seq<int>, y: int, maxy: int)
      requires 0 < |xs| <= |ys|
      requires |Crossings(Edges(xs, ys), y, maxy)| % 2 == 0
      modifies this
      ensures htm == old(htm) + RowRects(Edges(xs, ys), y, maxy)
    {
      var polyInts := ScanRow(xs, ys, y, maxy);
      polyInts := SortInts(polyInts);
      EmitSpans(polyInts, y);
    }

    /** The pairing loop: it never reads past an even number of crossings. */
    method EmitSpans(polyInts: seq<int>, y: int)
      requires |polyInts| % 2 == 0
      modifies this
      ensures htm == old(htm) + Spans(polyInts, y)
    {
      var i := 0;
      ghost var done: seq<Rect> := [];
      while i < |polyInts|
        invariant 0 <= i <= |polyInts| && i % 2 == 0
        invariant htm == old(htm) + done
        invariant Spans(polyInts, y) == done + Spans(polyInts[i..], y)
      {
        ghost var rest, r := polyInts[i..], Rect(polyInts[i], y, polyInts[i + 1] - polyInts[i] + 1, 1);
        assert rest[2..] == polyInts[i + 2..];
        assert done + ([r] + Spans(rest[2..], y)) == (done + [r]) + Spans(rest[2..], y);
        MkDiv(polyInts[i], y, polyInts[i + 1] - polyInts[i] + 1, 1);
        done := done + [r];
        i := i + 2;
      }
    }
  }

  /** The quarter ellipse of drawEllipse: its box is one cell wider and higher than asked for. */
  function OvalIn(width: nat, height: nat): Ellipse { Ellipse((width + 1) / 2, (height + 1) / 2) }

  function OvalCentre(left: int, top: int, width: nat, height: nat): Centre {
    Centre(left + (width + 1) / 2, top + (height + 1) / 2, (width + 1) % 2, (height + 1) % 2)
  }

  /** The divs of drawEllipse. */
  function OvalRects(left: int, top: int, width: nat, height: nat): seq<Rect> {
    OutlineRects(OvalIn(width, height), OvalCentre(left, top, width, height))
  }

  /** drawEllipse as called: every painted cell lies in the box one wider and one higher than asked
      for, and the picture is its own mirror image both ways. */
  lemma DrawnOval(left: int, top: int, width: nat, height: nat, px: int, py: int)
    ensures var rs := OvalRects(left, top, width, height);
            && (Painted(rs, px, py) ==> left <= px <= left + width && top <= py <= top + height)
            && (Painted(rs, px, py) <==> Painted(rs, 2 * left + width - px, py))
            && (Painted(rs, px, py) <==> Painted(rs, px, 2 * top + height - py))
  {
    var e, c := OvalIn(width, height), OvalCentre(left, top, width, height);
    OutlineInBox(e, c);
    OutlineSymmetric(e, c);
    var rs := OutlineRects(e, c);
    assert Hits(rs, px, py) == Hits(rs, 2 * c.cx + c.wod - 1 - px, py);
    assert Hits(rs, px, py) == Hits(rs, px, 2 * c.cy + c.hod - 1 - py);
  }

  /** The box is the one asked for: the quarter ellipse and its centre column or row make up its width
      and height. */
  lemma OvalSize(left: int, top: int, width: nat, height: nat)
    ensures 2 * OvalIn(width, height).a + OvalCentre(left, top, width, height).wod == width + 1
    ensures 2 * OvalIn(width, height).b + OvalCentre(left, top, width, height).hod == height + 1
  {
  }

  /** The middle row of the box, where there is one, is met at both ends. */
  lemma OvalMeetsSides(left: int, top: int, width: nat, height: nat, y: int)
    requires height % 2 == 0 && y == top + height / 2
    ensures Painted(OvalRects(left, top, width, height), left, y)
    ensures Painted(OvalRects(left, top, width, height), left + width, y)
  {
    OutlineMeetsSides(OvalIn(width, height), OvalCentre(left, top, width, height), left, left + width, y);
  }

  /** So is the middle column. */
  lemma OvalMeetsEnds(left: int, top: int, width: nat, height: nat, x: int)
    requires width % 2 == 0 && x == left + width / 2
    ensures Painted(OvalRects(left, top, width, height), x, top)
    ensures Painted(OvalRects(left, top, width, height), x, top + height)
  {
    OutlineMeetsEnds(OvalIn(width, height), OvalCentre(left, top, width, height), x, top, top + height);
  }

  /** The side columns of the box are met exactly when the height is even or the row next to the middle
      reaches them. */
  lemma OvalReachesSidesIff(left: int, top: int, width: nat, height: nat)
    ensures ColumnPainted(OvalRects(left, top, width, height), left) <==>
            height % 2 == 0 || HalfWidth(OvalIn(width, height), 1) == (width + 1) / 2
  {
    NextParity(height);
    ReachesSideIff(OvalIn(width, height), OvalCentre(left, top, width, height), left);
  }

  /** A flat one does not: of the four columns of this box the outer two stay empty. */
  lemma FlatOvalStopsShort()
    ensures !ColumnPainted(OvalRects(0, 0, 3, 1), 0)
  {
    var e := OvalIn(3, 1);
    assert Next(e, 0, 1) == (1, 1) && Next(e, 1, 1) == (2, 0);
    assert HalfWidth(e, 1) == 1;
    SideColumnEmpty(e, OvalCentre(0, 0, 3, 1), 0);
  }

  lemma SmallWalk()
    ensures Blocks(Ellipse(2, 2), 0, 2, 0, 2) == [Block(0, 2, 2, 1)]
  {
    var e := Ellipse(2, 2);
    assert Next(e, 0, 2) == (1, 2) && Next(e, 1, 2) == (2, 1) && Next(e, 2, 1) == (2, 0);
    assert Blocks(e, 2, 0, 2, 1) == [];
    assert Blocks(e, 2, 1, 2, 1) == [];
    assert Blocks(e, 1, 2, 0, 2) == [Block(0, 2, 2, 1)];
  }

  lemma SmallBlock(c: Centre)
    requires c == Centre(2, 2, 1, 1)
    ensures Block(0, 2, 2, 1).Valid() && Block(0, 2, 2, 1).Rects(c) == [Rect(1, 0, 3, 1), Rect(1, 4, 3, 1)]
  {
  }

  lemma OneBlock(b: Block, c: Centre)
    requires b.Valid()
    ensures BlockRects([b], c) == b.Rects(c) && EndOf([b], 0, b.oy) == (b.nx, b.ny)
  {
    assert [b][1..] == [];
    EmptyIsNeutral(b.Rects(c));
  }

  /** One drawn in full: the divs of drawEllipse(0, 0, 4, 4). */
  lemma SmallOval()
    ensures OvalRects(0, 0, 4, 4) ==
            [Rect(1, 0, 3, 1), Rect(1, 4, 3, 1)] + [Rect(0, 1, 1, 3), Rect(4, 1, 1, 3)]
  {
    var e, c := Ellipse(2, 2), Centre(2, 2, 1, 1);
    assert OvalIn(4, 4) == e && OvalCentre(0, 0, 4, 4) == c;
    SmallWalk();
    SmallBlock(c);
    OneBlock(Block(0, 2, 2, 1), c);
    assert Sides(e, c, 2, 1) == [Rect(0, 1, 1, 3), Rect(4, 1, 1, 3)];
  }

  lemma NearInNumbers(e: Ellipse, x: nat, y: nat)
    requires Near(e, x, y)
    ensures var x', y' := if x == 0 then 0 else x - 1, if y == 0 then 0 else y - 1;
            && e.b * e.b * (x' * x') + e.a * e.a * (y' * y') < e.a * e.a * (e.b * e.b)
            && e.b * e.b * ((x + 1) * (x + 1)) + e.a * e.a * ((y + 1) * (y + 1)) >= e.a * e.a * (e.b * e.b)
  {
  }

  lemma OvalCellIsNear(left: int, top: int, width: nat, height: nat, x: nat, y: nat, px: int, py: int)
    requires width >= 1 && height >= 1 && Visible(OvalCentre(left, top, width, height), (x, y))
    requires px == left + (width + 1) / 2 - x && py == top + (height + 1) / 2 - y
    requires Painted(OvalRects(left, top, width, height), px, py)
    ensures Near(OvalIn(width, height), x, y)
  {
    CellIsNear(OvalIn(width, height), OvalCentre(left, top, width, height), x, y, px, py);
  }

  /** In the numbers of the call: a painted cell that is x columns left of the middle and y rows above it
      has the exact ellipse within one diagonal step. */
  lemma OvalIsNear(left: int, top: int, width: nat, height: nat, a: nat, b: nat, x: nat, y: nat)
    requires width >= 1 && height >= 1 && a == (width + 1) / 2 && b == (height + 1) / 2
    requires Visible(OvalCentre(left, top, width, height), (x, y))
    requires Painted(OvalRects(left, top, width, height), left + a - x, top + b - y)
    ensures var x', y' := if x == 0 then 0 else x - 1, if y == 0 then 0 else y - 1;
            && b * b * (x' * x') + a * a * (y' * y') < a * a * (b * b)
            && b * b * ((x + 1) * (x + 1)) + a * a * ((y + 1) * (y + 1)) >= a * a * (b * b)
  {
    OvalCellIsNear(left, top, width, height, x, y, left + a - x, top + b - y);
    NearInNumbers(Ellipse(a, b), x, y);
  }

  lemma DotsNext(e: Ellipse, x: nat, y: nat, drw: bool, c: Centre)
    requires x <= e.a && 0 < y <= e.b
    ensures var (x', y') := Next(e, x, y);
            && x' <= e.a
            && Dots(Trail(e, x, y), drw, c)
            == (if drw && y' >= 1 - c.hod then Quads(c, x', y', 1, 1) else []) + Dots(Trail(e, x', y'), !drw, c)
  {
    NextInBox(e, x, y);
    var (x', y') := Next(e, x, y);
    assert ([(x', y')] + Trail(e, x', y'))[1..] == Trail(e, x', y');
  }

  /** The script engine's sort with a numeric comparison. */
  method SortInts(s: seq<int>) returns (r: seq<int>)
    ensures r == Sort(s) && |r| == |s|
  {
    r := Sort(s);
    SortSorts(s);
  }

  method Extremes(ys: seq<int>, n: nat) returns (miny: int, maxy: int)
    requires 0 < n <= |ys|
    ensures miny == MinOf(ys[..n]) && maxy == MaxOf(ys[..n])
  {
    miny, maxy := ys[0], ys[0];
    var i := 1;
    assert ys[..1] == [ys[0]];
    while i < n
      invariant 1 <= i <= n
      invariant miny == MinOf(ys[..i]) && maxy == MaxOf(ys[..i])
    {
      assert ys[..i + 1][..i] == ys[..i];
      if ys[i] < miny { miny := ys[i]; }
      if ys[i] > maxy { maxy := ys[i]; }
      i := i + 1;
    }
  }

  /** The crossings of one row, in edge order. */
  method ScanRow(xs: seq<int>, ys: seq<int>, y: int, maxy: int) returns (polyInts: seq<int>)
    requires 0 < |xs| <= |ys|
    ensures polyInts == Crossings(Edges(xs, ys), y, maxy)
  {
    var n := |xs|;
    ghost var es := Edges(xs, ys);
    polyInts := [];
    var i := 0;
    while i < n
      invariant 0 <= i <= n
      invariant polyInts == Crossings(es[..i], y, maxy)
    {
      assert es[..i + 1][..i] == es[..i];
      var ind1, ind2;
      if i == 0 {
        ind1, ind2 := n - 1, 0;
      } else {
        ind1, ind2 := i - 1, i;
      }
      i := i + 1;
      var x1, y1, x2, y2 := 0, ys[ind1], 0, ys[ind2];
      if y1 < y2 {
        x1, x2 := xs[ind1], xs[ind2];
      } else if y1 > y2 {
        y2, y1 := ys[ind1], ys[ind2];
        x2, x1 := xs[ind1], xs[ind2];
      } else {
        continue;
      }
      if y >= y1 && y < y2 {
        polyInts := polyInts + [Round((y - y1) * (x2 - x1), y2 - y1) + x1];
      } else if y == maxy && y > y1 && y <= y2 {
        polyInts := polyInts + [Round((y - y1) * (x2 - x1), y2 - y1) + x1];
      }
    }
    assert es[..n] == es;
  }

  lemma PaintsPath(rs: seq<Rect>, s: Segment)
    requires s.Valid() && PaintsFirst(rs, s, s.Steps() + 1)
    ensures forall px, py :: Hits(rs, px, py) == if s.On(px, py) then 1 else 0
  {
  }
}

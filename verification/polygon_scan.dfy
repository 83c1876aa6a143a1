/** What the polygon filler must paint: on every scan row, the even-odd rule over the points where
    the edges cross the row. */
module PolygonScan {
  import opened Arithmetic
  import opened Raster

  /** An edge, from the vertex before to the vertex itself. */
  datatype Edge = Edge(xa: int, ya: int, xb: int, yb: int) {
    function X1(): int { if ya < yb then xa else xb }
    function Y1(): int { if ya < yb then ya else yb }
    function X2(): int { if ya < yb then xb else xa }
    function Y2(): int { if ya < yb then yb else ya }
    function Reversed(): Edge { Edge(xb, yb, xa, ya) }
  }

  /** The closed edge list: the edge into vertex 0 comes from the last vertex. */
  function EdgeAt(xs: seq<int>, ys: seq<int>, i: nat): Edge
    requires i < |xs| <= |ys|
  {
    var j := if i == 0 then |xs| - 1 else i - 1;
    Edge(xs[j], ys[j], xs[i], ys[i])
  }

  function Edges(xs: seq<int>, ys: seq<int>): (es: seq<Edge>)
    requires |xs| <= |ys|
    ensures |es| == |xs| && forall i :: 0 <= i < |es| ==> es[i] == EdgeAt(xs, ys, i)
  {
    seq(|xs|, i requires 0 <= i < |xs| <= |ys| => EdgeAt(xs, ys, i))
  }

  /** Math.round(p / q). */
  function Round(p: int, q: int): int
    requires q > 0
  {
    (2 * p + q) / (2 * q)
  }

  /** Whether the filler counts the edge on row y: half open, except on the lowest row. */
  predicate Crosses(e: Edge, y: int, maxy: int) {
    || e.ya <= y < e.yb || e.yb <= y < e.ya
    || (y == maxy && (e.ya < y <= e.yb || e.yb < y <= e.ya))
  }

  /** The cell in which the edge crosses the row. */
  function CrossingCell(e: Edge, y: int): int
    requires e.ya != e.yb
  {
    Round((y - e.Y1()) * (e.X2() - e.X1()), e.Y2() - e.Y1()) + e.X1()
  }

  function Crossings(es: seq<Edge>, y: int, maxy: int): seq<int> {
    if es == [] then []
    else
      var e := es[|es| - 1];
      Crossings(es[..|es| - 1], y, maxy) + if Crosses(e, y, maxy) then [CrossingCell(e, y)] else []
  }

  function MinOf(s: seq<int>): int
    requires s != []
  {
    if |s| == 1 then s[0] else
    var m := MinOf(s[..|s| - 1]); if s[|s| - 1] < m then s[|s| - 1] else m
  }

  function MaxOf(s: seq<int>): int
    requires s != []
  {
    if |s| == 1 then s[0] else
    var m := MaxOf(s[..|s| - 1]); if s[|s| - 1] > m then s[|s| - 1] else m
  }

  lemma {:induction false} ExtremesBound(s: seq<int>)
    requires s != []
    ensures MinOf(s) in s && MaxOf(s) in s
    ensures forall k :: 0 <= k < |s| ==> MinOf(s) <= s[k] <= MaxOf(s)
  {
    if |s| > 1 { ExtremesBound(s[..|s| - 1]); }
  }

  lemma MinBelowMax(s: seq<int>)
    requires s != []
    ensures MinOf(s) <= MaxOf(s)
  {
  }

  // ----- sorting -----

  predicate Ordered(s: seq<int>) { forall i, j :: 0 <= i < j < |s| ==> s[i] <= s[j] }

  function Insert(s: seq<int>, x: int): seq<int> {
    if s == [] || s[|s| - 1] <= x then s + [x] else Insert(s[..|s| - 1], x) + [s[|s| - 1]]
  }

  /** The numeric sort. */
  function Sort(s: seq<int>): seq<int> {
    if s == [] then [] else Insert(Sort(s[..|s| - 1]), s[|s| - 1])
  }

  lemma {:induction false} InsertKeepsAll(s: seq<int>, x: int)
    ensures multiset(Insert(s, x)) == multiset(s) + multiset{x}
  {
    if s != [] && s[|s| - 1] > x {
      InsertKeepsAll(s[..|s| - 1], x);
      assert s == s[..|s| - 1] + [s[|s| - 1]];
    }
  }

  lemma {:induction false} InsertKeepsOrder(s: seq<int>, x: int)
    requires Ordered(s)
    ensures Ordered(Insert(s, x))
  {
    if s != [] && s[|s| - 1] > x {
      var init, last := s[..|s| - 1], s[|s| - 1];
      InsertKeepsOrder(init, x);
      InsertKeepsAll(init, x);
      Bounded(Insert(init, x), init, x, last);
    }
  }

  lemma Bounded(r: seq<int>, s: seq<int>, x: int, top: int)
    requires multiset(r) == multiset(s) + multiset{x}
    requires x <= top && forall k :: 0 <= k < |s| ==> s[k] <= top
    ensures forall k :: 0 <= k < |r| ==> r[k] <= top
  {
    forall k | 0 <= k < |r| ensures r[k] <= top {
      assert r[k] in multiset(r);
    }
  }

  lemma {:induction false} SortSorts(s: seq<int>)
    ensures Ordered(Sort(s)) && multiset(Sort(s)) == multiset(s) && |Sort(s)| == |s|
  {
    if s != [] {
      SortSorts(s[..|s| - 1]);
      InsertKeepsOrder(Sort(s[..|s| - 1]), s[|s| - 1]);
      InsertKeepsAll(Sort(s[..|s| - 1]), s[|s| - 1]);
      assert s == s[..|s| - 1] + [s[|s| - 1]];
    }
    assert |multiset(Sort(s))| == |Sort(s)| && |multiset(s)| == |s|;
  }

  lemma LastIsMost(s: seq<int>, t: seq<int>)
    requires s != [] && t != [] && Ordered(t) && multiset(s) == multiset(t)
    ensures s[|s| - 1] <= t[|t| - 1]
  {
    assert s[|s| - 1] in multiset(t);
  }

  lemma MultisetOfInit(s: seq<int>)
    requires s != []
    ensures multiset(s[..|s| - 1]) == multiset(s) - multiset{s[|s| - 1]}
  {
    assert s == s[..|s| - 1] + [s[|s| - 1]];
  }

  lemma OrderedStep(s: seq<int>, t: seq<int>)
    requires s != [] && t != [] && Ordered(s) && Ordered(t) && multiset(s) == multiset(t)
    ensures s[|s| - 1] == t[|t| - 1]
    ensures multiset(s[..|s| - 1]) == multiset(t[..|t| - 1])
  {
    LastIsMost(s, t);
    LastIsMost(t, s);
    MultisetOfInit(s);
    MultisetOfInit(t);
  }

  /** There is only one ordered arrangement of given numbers. */
  lemma {:induction false} OrderedUnique(s: seq<int>, t: seq<int>)
    requires Ordered(s) && Ordered(t) && multiset(s) == multiset(t)
    ensures s == t
  {
    assert |multiset(s)| == |s| && |multiset(t)| == |t|;
    if s != [] {
      OrderedStep(s, t);
      OrderedUnique(s[..|s| - 1], t[..|t| - 1]);
      assert s == s[..|s| - 1] + [s[|s| - 1]] && t == t[..|t| - 1] + [t[|t| - 1]];
    }
  }

  // ----- the rectangles -----

  /** The spans of one row: the first crossing to the second, the third to the fourth, ... */
  function Spans(s: seq<int>, y: int): seq<Rect> {
    if |s| < 2 then [] else [Rect(s[0], y, s[1] - s[0] + 1, 1)] + Spans(s[2..], y)
  }

  function RowRects(es: seq<Edge>, y: int, maxy: int): seq<Rect> {
    Spans(Sort(Crossings(es, y, maxy)), y)
  }

  /** The rows from miny up to, but not including, y. */
  function RowsBefore(es: seq<Edge>, miny: int, y: int, maxy: int): seq<Rect>
    requires miny <= y
    decreases y - miny
  {
    if y == miny then [] else RowsBefore(es, miny, y - 1, maxy) + RowRects(es, y - 1, maxy)
  }

  function AllRows(es: seq<Edge>, ys: seq<int>): seq<Rect>
    requires ys != []
  {
    MinBelowMax(ys);
    RowsBefore(es, MinOf(ys), MaxOf(ys) + 1, MaxOf(ys))
  }

  function PolygonRects(xs: seq<int>, ys: seq<int>): seq<Rect>
    requires |xs| <= |ys|
  {
    if xs == [] then [] else AllRows(Edges(xs, ys), ys[..|xs|])
  }

  // ----- crossing parity -----

  /** Whether a vertex counts as above the row. */
  predicate Above(v: int, y: int, maxy: int) { if y < maxy then v <= y else v < maxy }

  /** An edge is counted exactly when its ends lie on different sides. */
  lemma CrossesIffSidesDiffer(e: Edge, y: int, maxy: int)
    requires e.ya <= maxy && e.yb <= maxy && y <= maxy
    ensures Crosses(e, y, maxy) <==> Above(e.ya, y, maxy) != Above(e.yb, y, maxy)
  {
  }

  ghost predicate Chained(es: seq<Edge>) {
    forall i :: 0 <= i < |es| - 1 ==> es[i].yb == es[i + 1].ya
  }

  lemma {:induction false} ChainParity(es: seq<Edge>, y: int, maxy: int)
    requires es != [] && Chained(es) && y <= maxy
    requires forall i :: 0 <= i < |es| ==> es[i].ya <= maxy && es[i].yb <= maxy
    ensures |Crossings(es, y, maxy)| % 2 == if Above(es[0].ya, y, maxy) != Above(es[|es| - 1].yb, y, maxy) then 1 else 0
  {
    var init, last := es[..|es| - 1], es[|es| - 1];
    CrossesIffSidesDiffer(last, y, maxy);
    if init == [] {
      assert Crossings(init, y, maxy) == [];
    } else {
      ChainParity(init, y, maxy);
    }
  }

  /** On every row the closed edge list is crossed an even number of times. */
  lemma CrossingsEven(xs: seq<int>, ys: seq<int>, y: int)
    requires 0 < |xs| <= |ys| && y <= MaxOf(ys[..|xs|])
    ensures |Crossings(Edges(xs, ys), y, MaxOf(ys[..|xs|]))| % 2 == 0
  {
    var es, maxy := Edges(xs, ys), MaxOf(ys[..|xs|]);
    ExtremesBound(ys[..|xs|]);
    assert forall i :: 0 <= i < |xs| ==> ys[i] == ys[..|xs|][i] <= maxy;
    ChainParity(es, y, maxy);
  }

  // ----- the even-odd rule -----

  /** How many of the numbers lie strictly left of px. */
  function CountLeft(s: seq<int>, px: int): nat {
    if s == [] then 0 else CountLeft(s[..|s| - 1], px) + if s[|s| - 1] < px then 1 else 0
  }

  lemma {:induction false} CountLeftConcat(s: seq<int>, t: seq<int>, px: int)
    ensures CountLeft(s + t, px) == CountLeft(s, px) + CountLeft(t, px)
  {
    if t == [] {
      assert s + t == s;
    } else {
      CountLeftConcat(s, t[..|t| - 1], px);
      assert (s + t)[..|s + t| - 1] == s + t[..|t| - 1];
    }
  }

  lemma {:induction false} CountLeftInsert(s: seq<int>, x: int, px: int)
    requires Ordered(s)
    ensures CountLeft(Insert(s, x), px) == CountLeft(s, px) + if x < px then 1 else 0
  {
    if s == [] || s[|s| - 1] <= x {
      assert (s + [x])[..|s|] == s;
    } else {
      var r := Insert(s[..|s| - 1], x);
      CountLeftInsert(s[..|s| - 1], x, px);
      assert Insert(s, x) == r + [s[|s| - 1]];
      assert (r + [s[|s| - 1]])[..|r|] == r;
    }
  }

  lemma {:induction false} CountLeftSort(s: seq<int>, px: int)
    ensures CountLeft(Sort(s), px) == CountLeft(s, px)
  {
    if s != [] {
      CountLeftSort(s[..|s| - 1], px);
      SortSorts(s[..|s| - 1]);
      CountLeftInsert(Sort(s[..|s| - 1]), s[|s| - 1], px);
    }
  }

  lemma CountLeftPair(a: int, b: int, px: int)
    ensures CountLeft([a, b], px) == (if a < px then 1 else 0) + (if b < px then 1 else 0)
  {
    assert [a, b][..1] == [a];
    assert CountLeft([a], px) == CountLeft([a][..0], px) + if a < px then 1 else 0;
  }

  lemma {:induction false} NoneLeft(s: seq<int>, px: int)
    requires forall k :: 0 <= k < |s| ==> px <= s[k]
    ensures CountLeft(s, px) == 0
  {
    if s != [] { NoneLeft(s[..|s| - 1], px); }
  }

  lemma OneSpan(a: int, b: int, y: int, rest: seq<Rect>, px: int, py: int)
    ensures Hits([Rect(a, y, b - a + 1, 1)] + rest, px, py)
         == (if a <= px <= b && py == y then 1 else 0) + Hits(rest, px, py)
  {
    var r := Rect(a, y, b - a + 1, 1);
    HitsConcat([r], rest, px, py);
    HitsSnoc([], r, px, py);
    assert [] + [r] == [r];
  }

  lemma CountLeftFirstTwo(s: seq<int>, px: int)
    requires |s| >= 2
    ensures CountLeft(s, px) == (if s[0] < px then 1 else 0) + (if s[1] < px then 1 else 0) + CountLeft(s[2..], px)
  {
    assert s == [s[0], s[1]] + s[2..];
    CountLeftConcat([s[0], s[1]], s[2..], px);
    CountLeftPair(s[0], s[1], px);
  }

  lemma PairLogic(a: int, b: int, px: int, inRest: bool, left: nat)
    requires a <= b && (inRest ==> px >= b) && (px <= b ==> left == 0)
    ensures a <= px <= b || inRest || left % 2 == 1 <==>
            px == a || px == b || inRest || ((if a < px then 1 else 0) + (if b < px then 1 else 0) + left) % 2 == 1
  {
  }

  lemma InFirstTwoOrRest(s: seq<int>, px: int)
    requires |s| >= 2
    ensures px in s <==> px == s[0] || px == s[1] || px in s[2..]
  {
  }

  /** A paired list paints a cell iff the cell is in the list or an odd number of entries lie to
      its left. */
  lemma {:induction false} SpansEvenOdd(s: seq<int>, y: int, px: int, py: int)
    requires Ordered(s) && |s| % 2 == 0
    ensures Painted(Spans(s, y), px, py) <==> py == y && (px in s || CountLeft(s, px) % 2 == 1)
  {
    if s != [] {
      var rest := s[2..];
      SpansEvenOdd(rest, y, px, py);
      OneSpan(s[0], s[1], y, Spans(rest, y), px, py);
      CountLeftFirstTwo(s, px);
      InFirstTwoOrRest(s, px);
      if px <= s[1] { NoneLeft(rest, px); }
      PairLogic(s[0], s[1], px, px in rest, CountLeft(rest, px));
    }
  }

  // ----- the exact geometry behind the rounded crossings -----

  /** The exact crossing lies left of px - 1/2, the left border of the cell px. */
  predicate CrossesLeftOf(e: Edge, y: int, px: int) {
    var n := 2 * ((y - e.ya) * (e.xb - e.xa)) - (2 * (px - e.xa) - 1) * (e.yb - e.ya);
    if e.ya < e.yb then n < 0 else n > 0
  }

  /** It does not matter from which end the edge is looked at. */
  lemma SeenFromOtherEnd(e: Edge, y: int, px: int)
    requires e.ya != e.yb
    ensures CrossesLeftOf(e, y, px) <==>
            2 * ((y - e.Y1()) * (e.X2() - e.X1())) < (2 * (px - e.X1()) - 1) * (e.Y2() - e.Y1())
  {
    if e.ya > e.yb {
      var d, w, t, s := e.yb - e.ya, e.xb - e.xa, y - e.ya, 2 * (px - e.xa) - 1;
      assert (y - e.yb) * (e.xa - e.xb) == (t - d) * -w == d * w - t * w;
      assert (2 * (px - e.xb) - 1) * (e.ya - e.yb) == (s - 2 * w) * -d == 2 * (d * w) - s * d;
    }
  }

  lemma QuotientBelow(n: int, m: int, t: int)
    requires m > 0
    ensures n / m < t <==> n < m * t
  {
    var q := n / m;
    assert m * q <= n < m * q + m == m * (q + 1);
    if q < t { MulMonotone(m, q + 1, t); } else { MulMonotone(m, t, q); }
  }

  lemma RoundBelow(p: int, q: int, t: int)
    requires q > 0
    ensures Round(p, q) < t <==> 2 * p < (2 * t - 1) * q
  {
    QuotientBelow(2 * p + q, 2 * q, t);
    assert (2 * q) * t == (2 * t - 1) * q + q;
  }

  lemma CrossingCellLeftOf(e: Edge, y: int, px: int)
    requires e.ya != e.yb
    ensures CrossingCell(e, y) < px <==> CrossesLeftOf(e, y, px)
  {
    RoundBelow((y - e.Y1()) * (e.X2() - e.X1()), e.Y2() - e.Y1(), px - e.X1());
    SeenFromOtherEnd(e, y, px);
  }

  /** How many counted edges cross the row, exactly, left of the cell px. */
  function CrossedLeft(es: seq<Edge>, y: int, maxy: int, px: int): nat {
    if es == [] then 0
    else
      var e := es[|es| - 1];
      CrossedLeft(es[..|es| - 1], y, maxy, px) + if Crosses(e, y, maxy) && CrossesLeftOf(e, y, px) then 1 else 0
  }

  /** Some counted edge crosses the row, exactly, within the cell px: not left of its left border
      but left of its right border. */
  ghost predicate CrossedWithin(es: seq<Edge>, y: int, maxy: int, px: int) {
    exists i :: 0 <= i < |es| && Crosses(es[i], y, maxy)
      && !CrossesLeftOf(es[i], y, px) && CrossesLeftOf(es[i], y, px + 1)
  }

  lemma CountLeftSnoc(s: seq<int>, x: int, px: int)
    ensures CountLeft(s + [x], px) == CountLeft(s, px) + if x < px then 1 else 0
  {
  }

  lemma {:induction false} CountLeftExact(es: seq<Edge>, y: int, maxy: int, px: int)
    ensures CountLeft(Crossings(es, y, maxy), px) == CrossedLeft(es, y, maxy, px)
  {
    if es != [] {
      var init, e := es[..|es| - 1], es[|es| - 1];
      CountLeftExact(init, y, maxy, px);
      if Crosses(e, y, maxy) {
        CrossingCellLeftOf(e, y, px);
        CountLeftSnoc(Crossings(init, y, maxy), CrossingCell(e, y), px);
      } else {
        assert Crossings(es, y, maxy) == Crossings(init, y, maxy);
      }
    }
  }

  lemma CrossedWithinSnoc(es: seq<Edge>, e: Edge, y: int, maxy: int, px: int)
    ensures CrossedWithin(es + [e], y, maxy, px) <==>
            CrossedWithin(es, y, maxy, px) || (Crosses(e, y, maxy) && CrossingCell(e, y) == px)
  {
    var all := es + [e];
    if Crosses(e, y, maxy) {
      CrossingCellLeftOf(e, y, px);
      CrossingCellLeftOf(e, y, px + 1);
    }
    assert forall i :: 0 <= i < |es| ==> all[i] == es[i];
    assert all[|es|] == e;
  }

  lemma {:induction false} CrossingsExact(es: seq<Edge>, y: int, maxy: int, px: int)
    ensures px in Crossings(es, y, maxy) <==> CrossedWithin(es, y, maxy, px)
  {
    if es != [] {
      var init, e := es[..|es| - 1], es[|es| - 1];
      CrossingsExact(init, y, maxy, px);
      CrossedWithinSnoc(init, e, y, maxy, px);
      assert es == init + [e];
    }
  }

  // ----- the whole polygon -----

  lemma {:induction false} SpansStayInRow(s: seq<int>, y: int, px: int, py: int)
    requires py != y
    ensures !Painted(Spans(s, y), px, py)
  {
    if |s| >= 2 {
      var r := Rect(s[0], y, s[1] - s[0] + 1, 1);
      SpansStayInRow(s[2..], y, px, py);
      HitsConcat([r], Spans(s[2..], y), px, py);
      HitsSnoc([], r, px, py);
      assert [] + [r] == [r];
    }
  }

  lemma {:induction false} RowsPaint(es: seq<Edge>, miny: int, y: int, maxy: int, px: int, py: int)
    requires miny <= y
    ensures Painted(RowsBefore(es, miny, y, maxy), px, py) <==>
      miny <= py < y && Painted(RowRects(es, py, maxy), px, py)
    decreases y - miny
  {
    if y > miny {
      RowsPaint(es, miny, y - 1, maxy, px, py);
      HitsConcat(RowsBefore(es, miny, y - 1, maxy), RowRects(es, y - 1, maxy), px, py);
      if py != y - 1 { SpansStayInRow(Sort(Crossings(es, y - 1, maxy)), y - 1, px, py); }
    }
  }

  lemma RowEvenOdd(es: seq<Edge>, y: int, maxy: int, px: int)
    requires |Crossings(es, y, maxy)| % 2 == 0
    ensures Painted(RowRects(es, y, maxy), px, y) <==>
            CrossedWithin(es, y, maxy, px) || CrossedLeft(es, y, maxy, px) % 2 == 1
  {
    var cs := Crossings(es, y, maxy);
    SortSorts(cs);
    SpansEvenOdd(Sort(cs), y, px, y);
    CountLeftSort(cs, px);
    CountLeftExact(es, y, maxy, px);
    CrossingsExact(es, y, maxy, px);
    assert px in Sort(cs) <==> px in multiset(Sort(cs));
    assert px in cs <==> px in multiset(cs);
  }

  /** The even-odd rule, without any rounding: between the top and the bottom row, a cell is painted
      iff an edge crosses the row within the cell or an odd number of edges cross it left of the cell. */
  lemma PolygonEvenOdd(xs: seq<int>, ys: seq<int>, px: int, py: int)
    requires 0 < |xs| <= |ys|
    ensures var es, miny, maxy := Edges(xs, ys), MinOf(ys[..|xs|]), MaxOf(ys[..|xs|]);
            Painted(PolygonRects(xs, ys), px, py) <==>
            miny <= py <= maxy && (CrossedWithin(es, py, maxy, px) || CrossedLeft(es, py, maxy, px) % 2 == 1)
  {
    var es, miny, maxy := Edges(xs, ys), MinOf(ys[..|xs|]), MaxOf(ys[..|xs|]);
    MinBelowMax(ys[..|xs|]);
    RowsPaint(es, miny, maxy + 1, maxy, px, py);
    if py <= maxy {
      CrossingsEven(xs, ys, py);
      RowEvenOdd(es, py, maxy, px);
    }
  }

  // ----- by the vertices alone -----

  /** An edge passes through its own ends, without any rounding. */
  lemma CrossingAtEnds(e: Edge)
    requires e.ya != e.yb
    ensures CrossingCell(e, e.ya) == e.xa && CrossingCell(e, e.yb) == e.xb
  {
    RoundAtEnds(e.Y2() - e.Y1(), e.X2() - e.X1());
    assert CrossingCell(e, e.Y1()) == e.X1() && CrossingCell(e, e.Y2()) == e.X2();
  }

  lemma RoundAtEnds(q: int, w: int)
    requires q > 0
    ensures Round(0 * w, q) == 0 && Round(q * w, q) == w
  {
    RoundInRange(0, q, 0, 0);
    RoundInRange(q * w, q, w, w);
  }

  /** Every cell that an edge passes is painted: between the rows of its ends, and down to its lower end
      where that is the last row, the cell whose centre is at most half a cell away from the edge. */
  lemma EdgePainted(xs: seq<int>, ys: seq<int>, i: nat, px: int, py: int)
    requires i < |xs| <= |ys|
    requires var j := if i == 0 then |xs| - 1 else i - 1;
             var xa, ya, xb, yb := xs[j], ys[j], xs[i], ys[i];
             var off := 2 * ((py - ya) * (xb - xa) - (px - xa) * (yb - ya));
             if ya < yb
             then ya - yb <= off < yb - ya && ya <= py && (py < yb || py == yb == MaxOf(ys[..|xs|]))
             else yb - ya <= -off < ya - yb && yb <= py && (py < ya || py == ya == MaxOf(ys[..|xs|]))
    ensures Painted(PolygonRects(xs, ys), px, py)
  {
    var top, e := ys[..|xs|], Edges(xs, ys)[i];
    ExtremesBound(top);
    assert forall k :: 0 <= k < |xs| ==> top[k] == ys[k];
    var off := 2 * ((py - e.ya) * (e.xb - e.xa) - (px - e.xa) * (e.yb - e.ya));
    assert 2 * ((py - e.ya) * (e.xb - e.xa)) - (2 * (px - e.xa) - 1) * (e.yb - e.ya) == off + (e.yb - e.ya);
    assert 2 * ((py - e.ya) * (e.xb - e.xa)) - (2 * (px + 1 - e.xa) - 1) * (e.yb - e.ya) == off - (e.yb - e.ya);
    assert CrossedWithin(Edges(xs, ys), py, MaxOf(top), px);
    PolygonEvenOdd(xs, ys, px, py);
  }

  /** Hence the upper end of every edge that is not horizontal is painted, and on the last row the lower
      end. */
  lemma VerticesPainted(xs: seq<int>, ys: seq<int>, i: nat)
    requires i < |xs| <= |ys|
    ensures var j := if i == 0 then |xs| - 1 else i - 1;
            && (ys[j] < ys[i] || ys[i] < ys[j] == MaxOf(ys[..|xs|]) ==> Painted(PolygonRects(xs, ys), xs[j], ys[j]))
            && (ys[i] < ys[j] || ys[j] < ys[i] == MaxOf(ys[..|xs|]) ==> Painted(PolygonRects(xs, ys), xs[i], ys[i]))
  {
    var j := if i == 0 then |xs| - 1 else i - 1;
    var last := MaxOf(ys[..|xs|]);
    if ys[j] < ys[i] || ys[i] < ys[j] == last { EdgePainted(xs, ys, i, xs[j], ys[j]); }
    if ys[i] < ys[j] || ys[j] < ys[i] == last {
      assert (ys[i] - ys[j]) * (xs[i] - xs[j]) == (xs[i] - xs[j]) * (ys[i] - ys[j]);
      EdgePainted(xs, ys, i, xs[i], ys[i]);
    }
  }

  lemma CrossedLeftSnoc(es: seq<Edge>, e: Edge, y: int, maxy: int, px: int)
    ensures CrossedLeft(es + [e], y, maxy, px) ==
            CrossedLeft(es, y, maxy, px) + if Crosses(e, y, maxy) && CrossesLeftOf(e, y, px) then 1 else 0
  {
  }

  /** A rectangle given by its corners is filled, last row and last column included, and nothing else. */
  lemma RectangleFilled(l: int, t: int, r: int, b: int, px: int, py: int)
    requires l <= r && t < b
    ensures Painted(PolygonRects([l, r, r, l], [t, t, b, b]), px, py) <==> l <= px <= r && t <= py <= b
  {
    var xs, ys := [l, r, r, l], [t, t, b, b];
    PolygonEvenOdd(xs, ys, px, py);
    RectangleRows(ys, t, b);
    RectangleEdges(l, t, r, b);
    RectangleRow(l, t, r, b, px, py);
  }

  function RectangleSides(l: int, t: int, r: int, b: int): seq<Edge> {
    [] + [Edge(l, b, l, t)] + [Edge(l, t, r, t)] + [Edge(r, t, r, b)] + [Edge(r, b, l, b)]
  }

  lemma RectangleEdges(l: int, t: int, r: int, b: int)
    ensures Edges([l, r, r, l], [t, t, b, b]) == RectangleSides(l, t, r, b)
  {
  }

  lemma RectangleRow(l: int, t: int, r: int, b: int, px: int, py: int)
    requires l <= r && t < b
    ensures var es := RectangleSides(l, t, r, b);
            t <= py <= b && (CrossedWithin(es, py, b, px) || CrossedLeft(es, py, b, px) % 2 == 1) <==>
            l <= px <= r && t <= py <= b
  {
    var left, right := Edge(l, b, l, t), Edge(r, t, r, b);
    RectangleCrossings(left, Edge(l, t, r, t), right, Edge(r, b, l, b), py, b, px);
    UprightEdge(left, py, px);
    UprightEdge(right, py, px);
  }

  lemma RectangleCrossings(e: Edge, e': Edge, f: Edge, f': Edge, y: int, maxy: int, px: int)
    requires e'.ya == e'.yb && f'.ya == f'.yb
    ensures var es := [] + [e] + [e'] + [f] + [f'];
            && (CrossedWithin(es, y, maxy, px) <==>
                (Crosses(e, y, maxy) && CrossingCell(e, y) == px) || (Crosses(f, y, maxy) && CrossingCell(f, y) == px))
            && CrossedLeft(es, y, maxy, px) ==
               (if Crosses(e, y, maxy) && CrossesLeftOf(e, y, px) then 1 else 0)
               + (if Crosses(f, y, maxy) && CrossesLeftOf(f, y, px) then 1 else 0)
  {
    CrossedWithinSnoc([], e, y, maxy, px);
    CrossedWithinSnoc([] + [e], e', y, maxy, px);
    CrossedWithinSnoc([] + [e] + [e'], f, y, maxy, px);
    CrossedWithinSnoc([] + [e] + [e'] + [f], f', y, maxy, px);
    CrossedLeftSnoc([], e, y, maxy, px);
    CrossedLeftSnoc([] + [e], e', y, maxy, px);
    CrossedLeftSnoc([] + [e] + [e'], f, y, maxy, px);
    CrossedLeftSnoc([] + [e] + [e'] + [f], f', y, maxy, px);
  }

  lemma RectangleRows(ys: seq<int>, t: int, b: int)
    requires ys == [t, t, b, b] && t < b
    ensures MinOf(ys[..4]) == t && MaxOf(ys[..4]) == b
  {
    assert ys[..4] == ys;
    ExtremesBound(ys);
    assert MinOf(ys) <= ys[0] && MaxOf(ys) >= ys[2];
    assert forall v :: v in ys ==> v == t || v == b;
  }

  lemma UprightEdge(e: Edge, y: int, px: int)
    requires e.ya != e.yb && e.xa == e.xb
    ensures CrossesLeftOf(e, y, px) <==> e.xa < px
    ensures CrossingCell(e, y) == e.xa
  {
    CrossingCellLeftOf(e, y, px);
    CrossingCellLeftOf(e, y, e.xa);
    CrossingCellLeftOf(e, y, e.xa + 1);
    UprightSide(e.yb - e.ya, 2 * (px - e.xa) - 1);
  }

  lemma UprightSide(d: int, s: int)
    requires d != 0
    ensures (if d > 0 then -(s * d) < 0 else -(s * d) > 0) <==> s > 0
  {
  }

  // ----- the spans stay inside the polygon's box -----

  lemma CrossingBetween(e: Edge, y: int, lo: int, hi: int)
    requires e.ya != e.yb && e.Y1() <= y <= e.Y2()
    requires lo <= e.xa <= hi && lo <= e.xb <= hi
    ensures lo <= CrossingCell(e, y) <= hi
  {
    RoundBetween(y - e.Y1(), e.Y2() - e.Y1(), e.X2() - e.X1());
  }

  /** Rounding t / q of the way from 0 to w stays between 0 and w. */
  lemma RoundBetween(t: int, q: int, w: int)
    requires 0 <= t <= q && q > 0
    ensures if w >= 0 then 0 <= Round(t * w, q) <= w else w <= Round(t * w, q) <= 0
  {
    if w >= 0 {
      ProductBetween(t, q, w);
      RoundInRange(t * w, q, 0, w);
    } else {
      ProductBetween(t, q, -w);
      assert t * -w == -(t * w) && q * -w == -(q * w);
      RoundInRange(t * w, q, w, 0);
    }
  }

  lemma RoundInRange(p: int, q: int, lo: int, hi: int)
    requires q > 0 && q * lo <= p <= q * hi
    ensures lo <= Round(p, q) <= hi
  {
    RoundBelow(p, q, lo);
    RoundBelow(p, q, hi + 1);
    assert (2 * lo - 1) * q == 2 * (q * lo) - q;
    assert (2 * (hi + 1) - 1) * q == 2 * (q * hi) + q;
  }

  lemma ProductBetween(t: int, q: int, w: int)
    requires 0 <= t <= q && q > 0 && w >= 0
    ensures 0 <= t * w <= q * w
  {
  }

  ghost predicate Within(s: seq<int>, lo: int, hi: int) { forall k :: 0 <= k < |s| ==> lo <= s[k] <= hi }

  lemma {:induction false} CrossingsWithin(es: seq<Edge>, y: int, maxy: int, lo: int, hi: int)
    requires forall i :: 0 <= i < |es| ==> lo <= es[i].xa <= hi && lo <= es[i].xb <= hi
    ensures Within(Crossings(es, y, maxy), lo, hi)
  {
    if es != [] {
      CrossingsWithin(es[..|es| - 1], y, maxy, lo, hi);
      var e := es[|es| - 1];
      if Crosses(e, y, maxy) { CrossingBetween(e, y, lo, hi); }
    }
  }

  /** One cell high, at least one wide, and inside the columns lo .. hi. */
  predicate GoodSpan(r: Rect, y: int, lo: int, hi: int) {
    r.y == y && r.h == 1 && r.w >= 1 && lo <= r.x && r.x + r.w - 1 <= hi
  }

  lemma {:induction false} SpansGood(s: seq<int>, y: int, lo: int, hi: int)
    requires Ordered(s) && Within(s, lo, hi)
    ensures forall k :: 0 <= k < |Spans(s, y)| ==> GoodSpan(Spans(s, y)[k], y, lo, hi)
  {
    if |s| >= 2 { SpansGood(s[2..], y, lo, hi); }
  }

  lemma RowGood(es: seq<Edge>, y: int, maxy: int, lo: int, hi: int)
    requires forall i :: 0 <= i < |es| ==> lo <= es[i].xa <= hi && lo <= es[i].xb <= hi
    ensures forall k :: 0 <= k < |RowRects(es, y, maxy)| ==> GoodSpan(RowRects(es, y, maxy)[k], y, lo, hi)
  {
    var cs := Crossings(es, y, maxy);
    CrossingsWithin(es, y, maxy, lo, hi);
    SortSorts(cs);
    forall k | 0 <= k < |Sort(cs)| ensures lo <= Sort(cs)[k] <= hi {
      assert Sort(cs)[k] in multiset(cs);
    }
    SpansGood(Sort(cs), y, lo, hi);
  }

  ghost predicate GoodSpans(rs: seq<Rect>, miny: int, y: int, lo: int, hi: int) {
    forall k :: 0 <= k < |rs| ==> miny <= rs[k].y < y && GoodSpan(rs[k], rs[k].y, lo, hi)
  }

  lemma {:induction false} RowsGood(es: seq<Edge>, miny: int, y: int, maxy: int, lo: int, hi: int)
    requires miny <= y
    requires forall i :: 0 <= i < |es| ==> lo <= es[i].xa <= hi && lo <= es[i].xb <= hi
    ensures GoodSpans(RowsBefore(es, miny, y, maxy), miny, y, lo, hi)
    decreases y - miny
  {
    if y > miny {
      RowsGood(es, miny, y - 1, maxy, lo, hi);
      RowGood(es, y - 1, maxy, lo, hi);
      GoodConcat(RowsBefore(es, miny, y - 1, maxy), RowRects(es, y - 1, maxy), miny, y, lo, hi);
    }
  }

  lemma GoodConcat(rs: seq<Rect>, ts: seq<Rect>, miny: int, y: int, lo: int, hi: int)
    requires miny < y && GoodSpans(rs, miny, y - 1, lo, hi)
    requires forall k :: 0 <= k < |ts| ==> GoodSpan(ts[k], y - 1, lo, hi)
    ensures GoodSpans(rs + ts, miny, y, lo, hi)
  {
  }

  lemma AllRowsGood(es: seq<Edge>, ys: seq<int>, lo: int, hi: int)
    requires ys != []
    requires forall i :: 0 <= i < |es| ==> lo <= es[i].xa <= hi && lo <= es[i].xb <= hi
    ensures GoodSpans(AllRows(es, ys), MinOf(ys), MaxOf(ys) + 1, lo, hi)
  {
    MinBelowMax(ys);
    RowsGood(es, MinOf(ys), MaxOf(ys) + 1, MaxOf(ys), lo, hi);
  }

  /** Every emitted span is a non-empty part of one row of the polygon's bounding box. */
  lemma PolygonSpansInBox(xs: seq<int>, ys: seq<int>)
    requires 0 < |xs| <= |ys|
    ensures var top := ys[..|xs|];
            GoodSpans(PolygonRects(xs, ys), MinOf(top), MaxOf(top) + 1, MinOf(xs), MaxOf(xs))
  {
    ExtremesBound(xs);
    AllRowsGood(Edges(xs, ys), ys[..|xs|], MinOf(xs), MaxOf(xs));
  }

  // ----- the vertex list may be rotated or reversed -----

  lemma {:induction false} CrossingsConcat(es: seq<Edge>, fs: seq<Edge>, y: int, maxy: int)
    ensures Crossings(es + fs, y, maxy) == Crossings(es, y, maxy) + Crossings(fs, y, maxy)
  {
    if fs == [] {
      assert es + fs == es;
    } else {
      CrossingsConcat(es, fs[..|fs| - 1], y, maxy);
      assert (es + fs)[..|es + fs| - 1] == es + fs[..|fs| - 1];
    }
  }

  ghost predicate SameCrossings(es: seq<Edge>, fs: seq<Edge>) {
    forall y, maxy :: multiset(Crossings(es, y, maxy)) == multiset(Crossings(fs, y, maxy))
  }

  lemma {:induction false} SameRows(es: seq<Edge>, fs: seq<Edge>, miny: int, y: int, maxy: int)
    requires miny <= y && SameCrossings(es, fs)
    ensures RowsBefore(es, miny, y, maxy) == RowsBefore(fs, miny, y, maxy)
    decreases y - miny
  {
    if y > miny {
      SameRows(es, fs, miny, y - 1, maxy);
      SortSorts(Crossings(es, y - 1, maxy));
      SortSorts(Crossings(fs, y - 1, maxy));
      OrderedUnique(Sort(Crossings(es, y - 1, maxy)), Sort(Crossings(fs, y - 1, maxy)));
    }
  }

  lemma SameExtremes(s: seq<int>, t: seq<int>)
    requires s != [] && t != [] && forall x :: x in s <==> x in t
    ensures MinOf(s) == MinOf(t) && MaxOf(s) == MaxOf(t)
  {
    ExtremesBound(s);
    ExtremesBound(t);
    assert MinOf(s) in t && MinOf(t) in s && MaxOf(s) in t && MaxOf(t) in s;
  }

  lemma SameAllRows(es: seq<Edge>, ys: seq<int>, fs: seq<Edge>, zs: seq<int>)
    requires ys != [] && zs != [] && SameCrossings(es, fs) && forall y :: y in ys <==> y in zs
    ensures AllRows(es, ys) == AllRows(fs, zs)
  {
    MinBelowMax(ys);
    SameExtremes(ys, zs);
    SameRows(es, fs, MinOf(ys), MaxOf(ys) + 1, MaxOf(ys));
  }

  lemma SamePolygon(xs: seq<int>, ys: seq<int>, xs': seq<int>, ys': seq<int>)
    requires 0 < |xs| == |ys| && 0 < |xs'| == |ys'|
    requires SameCrossings(Edges(xs, ys), Edges(xs', ys'))
    requires forall y :: y in ys <==> y in ys'
    ensures PolygonRects(xs, ys) == PolygonRects(xs', ys')
  {
    var top, top' := ys[..|xs|], ys'[..|xs'|];
    assert top == ys;
    assert top' == ys';
    SameAllRows(Edges(xs, ys), top, Edges(xs', ys'), top');
  }

  function Rotated<T>(s: seq<T>, k: nat): (r: seq<T>)
    requires k <= |s|
    ensures |r| == |s|
  {
    s[k..] + s[..k]
  }

  lemma RotatedEdges(xs: seq<int>, ys: seq<int>, k: nat)
    requires 0 < |xs| == |ys| && k <= |xs|
    ensures Edges(Rotated(xs, k), Rotated(ys, k)) == Rotated(Edges(xs, ys), k)
  {
  }

  lemma RotatedCrossings(es: seq<Edge>, k: nat)
    requires k <= |es|
    ensures SameCrossings(Rotated(es, k), es)
  {
    assert es == es[..k] + es[k..];
    forall y, maxy ensures multiset(Crossings(Rotated(es, k), y, maxy)) == multiset(Crossings(es, y, maxy)) {
      CrossingsConcat(es[k..], es[..k], y, maxy);
      CrossingsConcat(es[..k], es[k..], y, maxy);
    }
  }

  /** Starting the closed vertex list elsewhere emits the same spans in the same order. */
  lemma RotationEmitsSame(xs: seq<int>, ys: seq<int>, k: nat)
    requires 0 < |xs| == |ys| && k <= |xs|
    ensures PolygonRects(Rotated(xs, k), Rotated(ys, k)) == PolygonRects(xs, ys)
  {
    RotatedEdges(xs, ys, k);
    RotatedCrossings(Edges(xs, ys), k);
    assert ys == ys[..k] + ys[k..];
    SamePolygon(Rotated(xs, k), Rotated(ys, k), xs, ys);
  }

  function Reverse<T>(s: seq<T>): (r: seq<T>)
    ensures |r| == |s| && forall i :: 0 <= i < |s| ==> r[i] == s[|s| - 1 - i]
  {
    seq(|s|, i requires 0 <= i < |s| => s[|s| - 1 - i])
  }

  function Flipped(es: seq<Edge>): (r: seq<Edge>)
    ensures |r| == |es| && forall i :: 0 <= i < |es| ==> r[i] == es[i].Reversed()
  {
    seq(|es|, i requires 0 <= i < |es| => es[i].Reversed())
  }

  lemma ReverseSnoc(es: seq<Edge>, e: Edge)
    ensures Reverse(Flipped(es + [e])) == [e.Reversed()] + Reverse(Flipped(es))
  {
  }

  lemma {:induction false} CrossingsOfReverse(es: seq<Edge>, y: int, maxy: int)
    ensures multiset(Crossings(Reverse(Flipped(es)), y, maxy)) == multiset(Crossings(es, y, maxy))
  {
    if es != [] {
      var init, e := es[..|es| - 1], es[|es| - 1];
      var back := Reverse(Flipped(init));
      CrossingsOfReverse(init, y, maxy);
      assert es == init + [e];
      ReverseSnoc(init, e);
      CrossingsConcat([e.Reversed()], back, y, maxy);
      CrossingsConcat(init, [e], y, maxy);
      CrossingsOfOne(e, y, maxy);
      assert multiset(Crossings([e], y, maxy) + Crossings(back, y, maxy))
          == multiset(Crossings(init, y, maxy) + Crossings([e], y, maxy));
    }
  }

  lemma CrossingsOfOne(e: Edge, y: int, maxy: int)
    ensures Crossings([e.Reversed()], y, maxy) == Crossings([e], y, maxy)
  {
  }

  /** So does running through it backwards. */
  lemma ReversalEmitsSame(xs: seq<int>, ys: seq<int>)
    requires 0 < |xs| == |ys|
    ensures PolygonRects(Reverse(xs), Reverse(ys)) == PolygonRects(xs, ys)
  {
    var es, fs := Edges(xs, ys), Edges(Reverse(xs), Reverse(ys));
    var first, rest := es[0], es[1..];
    assert fs == [first.Reversed()] + Reverse(Flipped(rest));
    assert es == [first] + rest;
    forall y, maxy ensures multiset(Crossings(fs, y, maxy)) == multiset(Crossings(es, y, maxy)) {
      CrossingsConcat([first.Reversed()], Reverse(Flipped(rest)), y, maxy);
      CrossingsConcat([first], rest, y, maxy);
      CrossingsOfReverse(rest, y, maxy);
      CrossingsOfOne(first, y, maxy);
    }
    ReverseMembers(ys);
    SamePolygon(Reverse(xs), Reverse(ys), xs, ys);
  }

  lemma ReverseMembers(s: seq<int>)
    ensures forall x :: x in s <==> x in Reverse(s)
  {
    forall x ensures x in s <==> x in Reverse(s) {
      if x in s {
        var i :| 0 <= i < |s| && s[i] == x;
        assert Reverse(s)[|s| - 1 - i] == x;
      }
    }
  }
}

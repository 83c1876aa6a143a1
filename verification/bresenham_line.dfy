/** What the line routines must paint: for every step along the longer axis the one cell nearest
    to the ideal line. */
module BresenhamLine {
  import opened Arithmetic
  import opened Raster

  function Abs(x: int): nat { if x < 0 then -x else x }

  // ----- offsets across the line -----

  /** j is the offset nearest to d * k / major; a tie goes to the smaller offset. */
  predicate Nearest(major: nat, d: nat, k: nat, j: nat) {
    if major == 0 then j == 0 else 0 < 2 * (d * k - major * j) + major <= 2 * major
  }

  function Offset(major: nat, d: nat, k: nat): nat {
    if major == 0 then 0 else (2 * (d * k) + major - 1) / (2 * major)
  }

  lemma OffsetNearest(major: nat, d: nat, k: nat)
    ensures Nearest(major, d, k, Offset(major, d, k))
  {
  }

  lemma NearestUnique(major: nat, d: nat, k: nat, i: nat, j: nat)
    requires Nearest(major, d, k, i) && Nearest(major, d, k, j)
    ensures i == j
  {
    if i < j {
      MulStep(major, i, j);
    } else if j < i {
      MulStep(major, j, i);
    }
  }

  /** The offset is the nearest one, and it is the only one. */
  lemma OffsetIff(major: nat, d: nat, k: nat, j: nat)
    ensures j == Offset(major, d, k) <==>
            if major == 0 then j == 0 else 0 < 2 * (d * k - major * j) + major <= 2 * major
  {
    OffsetNearest(major, d, k);
    if j != Offset(major, d, k) && Nearest(major, d, k, j) { NearestUnique(major, d, k, j, Offset(major, d, k)); }
  }

  lemma OffsetEnds(major: nat, d: nat)
    requires d <= major
    ensures Offset(major, d, 0) == 0 && Offset(major, d, major) == d
  {
    OffsetIff(major, d, 0, 0);
    assert major * d == d * major;
    OffsetIff(major, d, major, d);
  }

  /** The decision value before step k + 1: its sign says whether the offset grows. */
  function Decision(major: nat, d: nat, k: nat, j: nat): int { 2 * (d * (k + 1) - major * j) - major }

  lemma DecisionSteers(major: nat, d: nat, k: nat)
    requires d <= major && k < major
    ensures var j := Offset(major, d, k);
            var p := Decision(major, d, k, j);
            && Offset(major, d, k + 1) == (if p > 0 then j + 1 else j)
            && Decision(major, d, k + 1, Offset(major, d, k + 1)) == p + 2 * d - (if p > 0 then 2 * major else 0)
  {
    var j := Offset(major, d, k);
    OffsetNearest(major, d, k);
    assert d * (k + 1) == d * k + d && d * (k + 2) == d * (k + 1) + d;
    assert major * (j + 1) == major * j + major;
    OffsetIff(major, d, k + 1, if Decision(major, d, k, j) > 0 then j + 1 else j);
  }

  lemma {:induction false} OffsetMonotone(major: nat, d: nat, k: nat, l: nat)
    requires d <= major && k <= l <= major
    ensures Offset(major, d, k) <= Offset(major, d, l) <= Offset(major, d, k) + (l - k)
    decreases l - k
  {
    if k < l {
      DecisionSteers(major, d, k);
      OffsetMonotone(major, d, k + 1, l);
    }
  }

  // ----- segments -----

  /** A segment that runs left to right, as the routines arrange it. */
  datatype Segment = Segment(x1: int, y1: int, x2: int, y2: int) {
    predicate Valid() { x1 <= x2 }
    function Dx(): nat requires Valid() { x2 - x1 }
    function Dy(): nat { Abs(y2 - y1) }
    predicate Shallow() requires Valid() { Dx() >= Dy() }
    /** The number of steps along the longer axis. */
    function Steps(): nat requires Valid() { if Shallow() then Dx() else Dy() }
    function Across(): nat requires Valid() { if Shallow() then Dy() else Dx() }
    function At(k: nat): nat requires Valid() { Offset(Steps(), Across(), k) }

    /** Cell k of the path. */
    function CellX(k: nat): int requires Valid() { if Shallow() then x1 + k else x1 + At(k) }
    function CellY(k: nat): int requires Valid() {
      var n := if Shallow() then At(k) else k; if y1 > y2 then y1 - n else y1 + n
    }

    /** The only step whose cell can be (px, py). */
    function StepOf(px: int, py: int): int requires Valid() {
      if Shallow() then px - x1 else if y1 > y2 then y1 - py else py - y1
    }

    predicate On(px: int, py: int) requires Valid() {
      var k := StepOf(px, py);
      0 <= k <= Steps() && CellX(k) == px && CellY(k) == py
    }
  }

  function LeftToRight(x1: int, y1: int, x2: int, y2: int): (s: Segment)
    ensures s.Valid()
  {
    if x1 > x2 then Segment(x2, y2, x1, y1) else Segment(x1, y1, x2, y2)
  }

  /** On is membership in the path. */
  lemma OnIffCell(s: Segment, px: int, py: int)
    requires s.Valid()
    ensures s.On(px, py) <==> exists k :: 0 <= k <= s.Steps() && s.CellX(k) == px && s.CellY(k) == py
  {
  }

  /** The path starts at one endpoint and ends at the other. */
  lemma PathEnds(s: Segment)
    requires s.Valid()
    ensures s.CellX(0) == s.x1 && s.CellY(0) == s.y1
    ensures s.CellX(s.Steps()) == s.x2 && s.CellY(s.Steps()) == s.y2
  {
    OffsetEnds(s.Steps(), s.Across());
  }

  /** Consecutive cells touch, along a side or a corner. */
  lemma PathConnected(s: Segment, k: nat)
    requires s.Valid() && k < s.Steps()
    ensures Abs(s.CellX(k + 1) - s.CellX(k)) <= 1 && Abs(s.CellY(k + 1) - s.CellY(k)) <= 1
  {
    OffsetMonotone(s.Steps(), s.Across(), k, k + 1);
  }

  /** Swapping the endpoints does not change the cells, vertical segments included. */
  lemma SwapEndpoints(x1: int, y1: int, x2: int, y2: int, px: int, py: int)
    ensures LeftToRight(x1, y1, x2, y2).On(px, py) <==> LeftToRight(x2, y2, x1, y1).On(px, py)
  {
  }

  /** The line as it is asked for passes through both of its endpoints. */
  lemma LineMeetsEnds(xa: int, ya: int, xb: int, yb: int)
    ensures LeftToRight(xa, ya, xb, yb).On(xa, ya) && LeftToRight(xa, ya, xb, yb).On(xb, yb)
  {
    PathEnds(LeftToRight(xa, ya, xb, yb));
  }

  /** Which cells those are, by the endpoints alone: in every column (or, of a steep line, in every row)
      between the ends the one cell whose centre is at most half a cell away from the ideal line. A tie
      goes to the cell that is less far across from the left end. */
  lemma LineCells(xa: int, ya: int, xb: int, yb: int, px: int, py: int)
    requires xa <= xb
    ensures var dx, dy, k := xb - xa, Abs(yb - ya), if ya > yb then ya - py else py - ya;
            LeftToRight(xa, ya, xb, yb).On(px, py) <==>
            if dx < dy then 0 <= k <= dy && 0 < 2 * (dx * k - dy * (px - xa)) + dy <= 2 * dy
            else if dx > 0 then xa <= px <= xb && 0 < 2 * (dy * (px - xa) - dx * k) + dx <= 2 * dx
            else px == xa && py == ya
  {
    var s := Segment(xa, ya, xb, yb);
    var k := if ya > yb then ya - py else py - ya;
    if s.Shallow() {
      if xa <= px <= xb { OffsetIffSigned(s.Dx(), s.Dy(), px - xa, k); }
    } else if 0 <= k <= s.Dy() {
      OffsetIffSigned(s.Dy(), s.Dx(), k, px - xa);
    }
  }

  /** No offset on the far side is nearest. */
  lemma OffsetIffSigned(major: nat, d: nat, k: nat, j: int)
    ensures j == Offset(major, d, k) <==>
            if major == 0 then j == 0 else 0 < 2 * (d * k - major * j) + major <= 2 * major
  {
    if j >= 0 {
      OffsetIff(major, d, k, j);
    } else {
      MulMonotone(major, 1, -j);
      MulNonneg(d, k);
    }
  }

  // ----- painting the path run by run -----

  /** The rectangles cover each of the first m cells once, and nothing else. */
  ghost predicate PaintsFirst(rs: seq<Rect>, s: Segment, m: int)
    requires s.Valid()
  {
    forall px, py :: Hits(rs, px, py) == if s.On(px, py) && s.StepOf(px, py) < m then 1 else 0
  }

  /** A run of cells in one row of a shallow path. */
  lemma HorizontalRun(rs: seq<Rect>, s: Segment, m: nat, n: nat, y: int)
    requires s.Valid() && s.Shallow() && PaintsFirst(rs, s, m) && m < n <= s.Steps() + 1
    requires s.CellY(m) == y == s.CellY(n - 1)
    ensures PaintsFirst(rs + [Rect(s.x1 + m, y, n - m, 1)], s, n)
  {
    var r := Rect(s.x1 + m, y, n - m, 1);
    forall px, py ensures Hits(rs + [r], px, py) == if s.On(px, py) && s.StepOf(px, py) < n then 1 else 0 {
      HitsSnoc(rs, r, px, py);
      var k := s.StepOf(px, py);
      if m <= k < n {
        OffsetMonotone(s.Steps(), s.Across(), m, k);
        OffsetMonotone(s.Steps(), s.Across(), k, n - 1);
        assert s.CellY(k) == y;
      }
    }
  }

  /** A run of cells in one column of a steep path, painted from its topmost cell. */
  lemma VerticalRun(rs: seq<Rect>, s: Segment, m: nat, n: nat, x: int, top: int)
    requires s.Valid() && !s.Shallow() && PaintsFirst(rs, s, m) && m < n <= s.Steps() + 1
    requires s.CellX(m) == x == s.CellX(n - 1)
    requires top == if s.y1 > s.y2 then s.CellY(n - 1) else s.CellY(m)
    ensures PaintsFirst(rs + [Rect(x, top, 1, n - m)], s, n)
  {
    var r := Rect(x, top, 1, n - m);
    forall px, py ensures Hits(rs + [r], px, py) == if s.On(px, py) && s.StepOf(px, py) < n then 1 else 0 {
      HitsSnoc(rs, r, px, py);
      VerticalCover(s, m, n, x, top, px, py);
    }
  }

  lemma VerticalCover(s: Segment, m: nat, n: nat, x: int, top: int, px: int, py: int)
    requires s.Valid() && !s.Shallow() && m < n <= s.Steps() + 1
    requires s.CellX(m) == x == s.CellX(n - 1)
    requires top == if s.y1 > s.y2 then s.CellY(n - 1) else s.CellY(m)
    ensures Covers(Rect(x, top, 1, n - m), px, py) <==> s.On(px, py) && m <= s.StepOf(px, py) < n
  {
    var k := s.StepOf(px, py);
    assert Covers(Rect(x, top, 1, n - m), px, py) <==> px == x && m <= k < n;
    if m <= k < n {
      OffsetMonotone(s.Steps(), s.Across(), m, k);
      OffsetMonotone(s.Steps(), s.Across(), k, n - 1);
      assert s.CellX(k) == x && s.CellY(k) == py;
    }
  }

  // ----- the dotted line -----

  /** The cells of even step among the first m, as unit squares in path order. */
  function EvenCells(s: Segment, m: nat): seq<Rect>
    requires s.Valid()
  {
    if m == 0 then []
    else EvenCells(s, m - 1) + if (m - 1) % 2 == 0 then [Rect(s.CellX(m - 1), s.CellY(m - 1), 1, 1)] else []
  }

  lemma UnitCover(s: Segment, k: nat, px: int, py: int)
    requires s.Valid() && k <= s.Steps()
    ensures Covers(Rect(s.CellX(k), s.CellY(k), 1, 1), px, py) <==> s.On(px, py) && s.StepOf(px, py) == k
  {
  }

  lemma {:induction false} EvenCellsCover(s: Segment, m: nat, px: int, py: int)
    requires s.Valid() && m <= s.Steps() + 1
    ensures Hits(EvenCells(s, m), px, py) ==
            if s.On(px, py) && s.StepOf(px, py) < m && s.StepOf(px, py) % 2 == 0 then 1 else 0
  {
    if m > 0 {
      var k := m - 1;
      EvenCellsCover(s, k, px, py);
      UnitCover(s, k, px, py);
      if k % 2 == 0 {
        HitsSnoc(EvenCells(s, k), Rect(s.CellX(k), s.CellY(k), 1, 1), px, py);
      } else {
        assert EvenCells(s, m) == EvenCells(s, k);
      }
    }
  }

  /** The dotted line covers exactly the cells of the solid line at even steps, once each. */
  lemma DottedIsEvenHalf(s: Segment, px: int, py: int)
    requires s.Valid()
    ensures Hits(EvenCells(s, s.Steps() + 1), px, py) ==
            if s.On(px, py) && s.StepOf(px, py) % 2 == 0 then 1 else 0
  {
    EvenCellsCover(s, s.Steps() + 1, px, py);
  }

  /** It starts with a dot at the left end, the first end of a vertical line, and has one at the other
      end exactly when the number of steps is even. */
  lemma DottedEnds(xa: int, ya: int, xb: int, yb: int)
    requires xa <= xb
    ensures var s := LeftToRight(xa, ya, xb, yb);
            var n := if xb - xa >= Abs(yb - ya) then xb - xa else Abs(yb - ya);
            && Hits(EvenCells(s, s.Steps() + 1), xa, ya) == 1
            && Hits(EvenCells(s, s.Steps() + 1), xb, yb) == if n % 2 == 0 then 1 else 0
  {
    var s := LeftToRight(xa, ya, xb, yb);
    LineMeetsEnds(xa, ya, xb, yb);
    DottedIsEvenHalf(s, xa, ya);
    DottedIsEvenHalf(s, xb, yb);
  }
}

/** The boundary columns of a line: for every row the column at which the line leaves it. */
module LineVirt {
  import opened Arithmetic
  import opened BresenhamLine

  /** A script array: storing at its end makes it grow. */
  class JsArray {
    var items: seq<int>

    constructor (values: seq<int>)
      ensures items == values
    {
      items := values;
    }

    method Put(i: nat, v: int)
      requires i <= |items|
      modifies this
      ensures items == if i < |old(items)| then old(items)[i := v] else old(items) + [v]
    {
      items := if i < |items| then items[i := v] else items + [v];
    }
  }

  // ----- the path, from (x1, y1) to (x2, y2) -----

  datatype Ray = Ray(x1: int, y1: int, x2: int, y2: int) {
    function Dx(): nat { Abs(x2 - x1) }
    function Dy(): nat { Abs(y2 - y1) }
    predicate Shallow() { Dx() >= Dy() }
    function Steps(): nat { if Shallow() then Dx() else Dy() }
    function Across(): nat { if Shallow() then Dy() else Dx() }
    /** How many columns, and how many rows, step k is away from the start. */
    function Columns(k: nat): nat { if Shallow() then k else Offset(Steps(), Across(), k) }
    function Row(k: nat): nat { if Shallow() then Offset(Steps(), Across(), k) else k }
    function CellX(k: nat): int { if x1 > x2 then x1 - Columns(k) else x1 + Columns(k) }

    /** The last step in row j, for a row that the path leaves. */
    function LeaveStep(j: nat): nat
      requires j < Dy()
    {
      if Shallow() then (2 * (Dx() * j) + Dx()) / (2 * Dy()) else j
    }

    function LeaveColumn(j: nat): int
      requires j < Dy()
    {
      CellX(LeaveStep(j))
    }
  }

  lemma Quotient(n: nat, m: nat, k: nat)
    requires m > 0
    ensures k == n / m <==> m * k <= n < m * k + m
  {
    var q := n / m;
    assert n == m * q + n % m;
    if k < q {
      MulStep(m, k, q);
    } else if q < k {
      MulStep(m, q, k);
    }
  }

  /** LeaveStep is the one step in row j that is followed by a step in row j + 1. */
  lemma LeaveStepIff(r: Ray, j: nat, k: nat)
    requires j < r.Dy()
    ensures k == r.LeaveStep(j) <==> k < r.Steps() && r.Row(k) == j && r.Row(k + 1) == j + 1
  {
    if r.Shallow() {
      LeaveIff(r.Dx(), r.Dy(), j, k);
    }
  }

  /** The last step of row j comes before the last step of the line. */
  lemma LeaveBeforeEnd(major: nat, d: nat, j: nat, k: nat)
    requires j < d <= major && d * k <= major * j + major / 2
    ensures k < major
  {
    if k >= major {
      MulStep(major, j, d);
    }
  }

  lemma LeaveIff(major: nat, d: nat, j: nat, k: nat)
    requires j < d <= major
    ensures k == (2 * (major * j) + major) / (2 * d) <==>
            k < major && Offset(major, d, k) == j && Offset(major, d, k + 1) == j + 1
  {
    var n := 2 * (major * j) + major;
    Quotient(n, 2 * d, k);
    assert (2 * d) * k == 2 * (d * k);
    if 2 * (d * k) <= n { LeaveBeforeEnd(major, d, j, k); }
    if k < major {
      LeaveWithin(major, d, j, k);
    }
  }

  lemma LeaveWithin(major: nat, d: nat, j: nat, k: nat)
    requires j < d <= major && k < major
    ensures Offset(major, d, k) == j && Offset(major, d, k + 1) == j + 1 <==>
            2 * (d * k) <= 2 * (major * j) + major < 2 * (d * k) + 2 * d
  {
    OffsetIff(major, d, k, j);
    DecisionSteers(major, d, k);
    assert d * (k + 1) == d * k + d;
  }

  /** The entry for a row is the column of the cell after which the path goes on in the next row. */
  lemma LeaveColumnIsCell(r: Ray, j: nat, k: nat)
    requires j < r.Dy() && k < r.Steps() && r.Row(k) == j && r.Row(k + 1) == j + 1
    ensures r.LeaveColumn(j) == r.CellX(k)
  {
    LeaveStepIff(r, j, k);
  }

  /** The same by the endpoints alone, for the column that lies n columns from x1 towards x2: a shallow
      line is in its last column in which it is at most half a row beyond row j, a steep one in the
      column nearest to it. */
  lemma LeaveColumnIff(r: Ray, j: nat, n: int)
    requires j < Abs(r.y2 - r.y1)
    ensures var dx, dy, x := Abs(r.x2 - r.x1), Abs(r.y2 - r.y1), if r.x1 > r.x2 then r.x1 - n else r.x1 + n;
            x == r.LeaveColumn(j) <==>
            if dx >= dy then 2 * (dy * n) <= 2 * (dx * j) + dx < 2 * (dy * n) + 2 * dy
            else 0 < 2 * (dx * j - dy * n) + dy <= 2 * dy
  {
    var dx, dy := Abs(r.x2 - r.x1), Abs(r.y2 - r.y1);
    if dx < dy {
      OffsetIffSigned(dy, dx, j, n);
    } else if n >= 0 {
      Quotient(2 * (dx * j) + dx, 2 * dy, n);
      assert (2 * dy) * n == 2 * (dy * n);
    } else {
      MulMonotone(dy, 1, -n);
    }
  }

  /** The columns move steadily from x1 towards x2. */
  lemma LeaveColumnsMonotone(r: Ray, i: nat, j: nat)
    requires i <= j < r.Dy()
    ensures if r.x1 > r.x2 then r.x1 >= r.LeaveColumn(i) >= r.LeaveColumn(j) >= r.x2
            else r.x1 <= r.LeaveColumn(i) <= r.LeaveColumn(j) <= r.x2
  {
    LeaveStepIff(r, i, r.LeaveStep(i));
    LeaveStepIff(r, j, r.LeaveStep(j));
    var k, l := r.LeaveStep(i), r.LeaveStep(j);
    if l < k { OffsetMonotone(r.Steps(), r.Across(), l + 1, k); }
    OffsetMonotone(r.Steps(), r.Across(), k, l);
    OffsetMonotone(r.Steps(), r.Across(), l, r.Steps());
    OffsetEnds(r.Steps(), r.Across());
  }

  method MkLinVirt(aLin: JsArray, x1: int, y1: int, x2: int, y2: int)
    modifies aLin
    ensures var r := Ray(x1, y1, x2, y2);
            && |aLin.items| == (if |old(aLin.items)| >= r.Dy() then |old(aLin.items)| else r.Dy())
            && (forall j :: 0 <= j < r.Dy() ==> aLin.items[j] == r.LeaveColumn(j))
            && (forall j :: r.Dy() <= j < |aLin.items| ==> aLin.items[j] == x2)
  {
    ghost var r := Ray(x1, y1, x2, y2);
    var i, x;
    if Abs(x2 - x1) >= Abs(y2 - y1) {
      i, x := FillShallow(aLin, x1, y1, x2, y2);
    } else {
      i, x := FillSteep(aLin, x1, y1, x2, y2);
    }
    var len := |aLin.items|;
    i := len - i;
    while i != 0
      invariant 0 <= i <= len - r.Dy() && |aLin.items| == len
      invariant forall j :: 0 <= j < r.Dy() ==> aLin.items[j] == r.LeaveColumn(j)
      invariant forall j :: r.Dy() <= j < len - i ==> aLin.items[j] == x2
      decreases i
    {
      aLin.Put(len - i, x);
      i := i - 1;
    }
  }

  method FillShallow(aLin: JsArray, x1: int, y1: int, x2: int, y2: int) returns (i: nat, x: int)
    requires Ray(x1, y1, x2, y2).Shallow()
    modifies aLin
    ensures var r := Ray(x1, y1, x2, y2);
            && i == r.Dy() && x == x2
            && |aLin.items| == (if |old(aLin.items)| >= r.Dy() then |old(aLin.items)| else r.Dy())
            && (forall j :: 0 <= j < r.Dy() ==> aLin.items[j] == r.LeaveColumn(j))
  {
    var dx, dy := Abs(x2 - x1), Abs(y2 - y1);
    var xIncr := if x1 > x2 then -1 else 1;
    ghost var r := Ray(x1, y1, x2, y2);
    var pr: int := 2 * dy;
    var pru, p := pr - 2 * dx, pr - dx;
    ghost var k := 0;
    i, x := 0, x1;
    OffsetEnds(r.Steps(), r.Across());
    while dx > 0
      invariant 0 <= dx && k == r.Dx() - dx && x == r.CellX(k) && i == r.Row(k) <= r.Dy()
      invariant p == Decision(r.Dx(), r.Dy(), k, i)
      invariant i <= |aLin.items| == (if |old(aLin.items)| >= i then |old(aLin.items)| else i)
      invariant forall j :: 0 <= j < i ==> aLin.items[j] == r.LeaveColumn(j)
    {
      DecisionSteers(r.Dx(), r.Dy(), k);
      OffsetMonotone(r.Dx(), r.Dy(), k + 1, r.Dx());
      dx := dx - 1;
      if p > 0 {
        LeaveStepIff(r, i, k);
        aLin.Put(i, x);
        i := i + 1;
        p := p + pru;
      } else {
        p := p + pr;
      }
      x := x + xIncr;
      k := k + 1;
    }
  }

  method FillSteep(aLin: JsArray, x1: int, y1: int, x2: int, y2: int) returns (i: nat, x: int)
    requires !Ray(x1, y1, x2, y2).Shallow()
    modifies aLin
    ensures var r := Ray(x1, y1, x2, y2);
            && i == r.Dy() && x == x2
            && |aLin.items| == (if |old(aLin.items)| >= r.Dy() then |old(aLin.items)| else r.Dy())
            && (forall j :: 0 <= j < r.Dy() ==> aLin.items[j] == r.LeaveColumn(j))
  {
    var dx, dy := Abs(x2 - x1), Abs(y2 - y1);
    var xIncr := if x1 > x2 then -1 else 1;
    ghost var r := Ray(x1, y1, x2, y2);
    var pr: int := 2 * dx;
    var pru, p := pr - 2 * dy, pr - dy;
    i, x := 0, x1;
    OffsetEnds(r.Steps(), r.Across());
    while dy > 0
      invariant 0 <= dy && i == r.Dy() - dy && x == r.CellX(i)
      invariant p == Decision(r.Dy(), r.Dx(), i, Offset(r.Dy(), r.Dx(), i))
      invariant i <= |aLin.items| == (if |old(aLin.items)| >= i then |old(aLin.items)| else i)
      invariant forall j :: 0 <= j < i ==> aLin.items[j] == r.LeaveColumn(j)
    {
      DecisionSteers(r.Dy(), r.Dx(), i);
      dy := dy - 1;
      aLin.Put(i, x);
      i := i + 1;
      if p > 0 {
        x := x + xIncr;
        p := p + pru;
      } else {
        p := p + pr;
      }
    }
  }
}

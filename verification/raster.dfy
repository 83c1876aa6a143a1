/** The emitted rectangles and the cells they cover. */
module Raster {

  /** The div of position (x, y), width w and height h. */
  datatype Rect = Rect(x: int, y: int, w: int, h: int)

  predicate Covers(r: Rect, px: int, py: int) {
    r.x <= px < r.x + r.w && r.y <= py < r.y + r.h
  }

  /** How many of the rectangles cover the cell (px, py). */
  function Hits(rs: seq<Rect>, px: int, py: int): nat {
    if rs == [] then 0
    else Hits(rs[..|rs| - 1], px, py) + if Covers(rs[|rs| - 1], px, py) then 1 else 0
  }

  predicate Painted(rs: seq<Rect>, px: int, py: int) { Hits(rs, px, py) > 0 }

  ghost predicate ColumnPainted(rs: seq<Rect>, px: int) { exists py :: Painted(rs, px, py) }

  lemma HitsSnoc(rs: seq<Rect>, r: Rect, px: int, py: int)
    ensures Hits(rs + [r], px, py) == Hits(rs, px, py) + if Covers(r, px, py) then 1 else 0
  {
  }

  lemma {:induction false} HitsConcat(rs: seq<Rect>, ts: seq<Rect>, px: int, py: int)
    ensures Hits(rs + ts, px, py) == Hits(rs, px, py) + Hits(ts, px, py)
  {
    if ts == [] {
      assert rs + ts == rs;
    } else {
      HitsConcat(rs, ts[..|ts| - 1], px, py);
      assert (rs + ts)[..|rs + ts| - 1] == rs + ts[..|ts| - 1];
    }
  }

  lemma {:induction false} PaintedByMember(rs: seq<Rect>, px: int, py: int)
    ensures Painted(rs, px, py) <==> exists r :: r in rs && Covers(r, px, py)
  {
    if rs != [] {
      var init, last := rs[..|rs| - 1], rs[|rs| - 1];
      PaintedByMember(init, px, py);
      assert rs == init + [last];
    }
  }
}

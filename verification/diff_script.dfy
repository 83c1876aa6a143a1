/** The edit script of the line diff: the walk that decides which lines are removed and which
    are added, the order in which they are printed, and what applying the script does. */
module DiffScript {
  import opened Sequences
  import opened LineDiff

  /** One line of the diff; `at` is the zero-based line index, printed as at + 1. */
  datatype Edit = Del(at: nat, text: Line) | Add(at: nat, text: Line)

  // ----- the walk -----

  datatype Move = Keep | Remove | Insert | Replace

  const LOOK_AHEAD := 10.0

  function Decide(c: Comparison, i: nat, j: nat): Move
    requires i < |c.ar1| && j < |c.ar2|
  {
    if c.Same(i, j) then Keep
    else
      var c1 := Score(c, i + 1, j, LOOK_AHEAD);
      var c2 := Score(c, i, j + 1, LOOK_AHEAD);
      if c1 > c2 then Remove else if c2 > 0 then Insert else Replace
  }

  /** What the walk from (i, j) decides: the indices removed, the indices added, and where it
      stopped on either side. */
  datatype Walked = Walked(dels: seq<nat>, adds: seq<nat>, end1: nat, end2: nat)

  function Walk(c: Comparison, i: nat, j: nat): (s: Walked)
    requires i <= |c.ar1| && j <= |c.ar2|
    ensures i <= s.end1 <= |c.ar1| && j <= s.end2 <= |c.ar2|
    ensures s.end1 == |c.ar1| || s.end2 == |c.ar2|
    decreases |c.ar1| - i + |c.ar2| - j
  {
    if i == |c.ar1| || j == |c.ar2| then Walked([], [], i, j) else
    match Decide(c, i, j)
    case Keep => Walk(c, i + 1, j + 1)
    case Remove => var s := Walk(c, i + 1, j); s.(dels := [i] + s.dels)
    case Insert => var s := Walk(c, i, j + 1); s.(adds := [j] + s.adds)
    case Replace => var s := Walk(c, i + 1, j + 1); s.(dels := [i] + s.dels, adds := [j] + s.adds)
  }

  /** lo, lo + 1, ..., hi - 1. */
  function Range(lo: nat, hi: nat): (r: seq<nat>)
    requires lo <= hi
    ensures |r| == hi - lo && forall k :: 0 <= k < |r| ==> r[k] == lo + k
  {
    seq(hi - lo, k requires 0 <= k < hi - lo => lo + k)
  }

  /** All removed indices, the tail the walk does not reach included. */
  function Removals(c: Comparison, i: nat, j: nat): seq<nat>
    requires i <= |c.ar1| && j <= |c.ar2|
  {
    Walk(c, i, j).dels + Range(Walk(c, i, j).end1, |c.ar1|)
  }

  /** All added indices, the tail included. */
  function Additions(c: Comparison, i: nat, j: nat): seq<nat>
    requires i <= |c.ar1| && j <= |c.ar2|
  {
    Walk(c, i, j).adds + Range(Walk(c, i, j).end2, |c.ar2|)
  }

  /** What one move adds to the removed and to the added lines. */
  lemma WalkStep(c: Comparison, i: nat, j: nat)
    requires i < |c.ar1| && j < |c.ar2|
    ensures match Decide(c, i, j)
            case Keep => Removals(c, i, j) == Removals(c, i + 1, j + 1)
            case Remove => Removals(c, i, j) == [i] + Removals(c, i + 1, j)
            case Insert => Removals(c, i, j) == Removals(c, i, j + 1)
            case Replace => Removals(c, i, j) == [i] + Removals(c, i + 1, j + 1)
    ensures match Decide(c, i, j)
            case Keep => Additions(c, i, j) == Additions(c, i + 1, j + 1)
            case Remove => Additions(c, i, j) == Additions(c, i + 1, j)
            case Insert => Additions(c, i, j) == [j] + Additions(c, i, j + 1)
            case Replace => Additions(c, i, j) == [j] + Additions(c, i + 1, j + 1)
  {
    match Decide(c, i, j)
    case Keep =>
    case Remove => ListGrows(i, Walk(c, i + 1, j).dels, Walk(c, i + 1, j).end1, |c.ar1|);
    case Insert => ListGrows(j, Walk(c, i, j + 1).adds, Walk(c, i, j + 1).end2, |c.ar2|);
    case Replace =>
      ListGrows(i, Walk(c, i + 1, j + 1).dels, Walk(c, i + 1, j + 1).end1, |c.ar1|);
      ListGrows(j, Walk(c, i + 1, j + 1).adds, Walk(c, i + 1, j + 1).end2, |c.ar2|);
  }

  lemma ListGrows(x: nat, s: seq<nat>, end: nat, hi: nat)
    requires end <= hi
    ensures [x] + s + Range(end, hi) == [x] + (s + Range(end, hi))
  {
    Regroup([x], s, Range(end, hi));
  }

  ghost predicate IncreasingWithin(s: seq<nat>, lo: nat, hi: nat) {
    && (forall k :: 0 <= k < |s| ==> lo <= s[k] < hi)
    && (forall k, l :: 0 <= k < l < |s| ==> s[k] < s[l])
  }

  lemma TailIncreasing(s: seq<nat>, lo: nat, hi: nat)
    requires s != [] && IncreasingWithin(s, lo, hi)
    ensures IncreasingWithin(s[1..], s[0] + 1, hi)
  {
  }

  lemma HeadIncreasing(s: seq<nat>, lo: nat, hi: nat)
    requires IncreasingWithin(s, lo, hi) && (s != [] ==> s[0] != lo)
    ensures IncreasingWithin(s, lo + 1, hi)
  {
  }

  lemma ConsIncreasing(x: nat, s: seq<nat>, hi: nat)
    requires x < hi && IncreasingWithin(s, x + 1, hi)
    ensures IncreasingWithin([x] + s, x, hi) && IncreasingWithin(s, x, hi)
  {
  }

  lemma {:induction false} DelsIncrease(c: Comparison, i: nat, j: nat)
    requires i <= |c.ar1| && j <= |c.ar2|
    ensures IncreasingWithin(Walk(c, i, j).dels, i, Walk(c, i, j).end1)
    decreases |c.ar1| - i + |c.ar2| - j
  {
    if i < |c.ar1| && j < |c.ar2| {
      match Decide(c, i, j)
      case Keep => DelsIncrease(c, i + 1, j + 1);
      case Remove =>
        DelsIncrease(c, i + 1, j);
        ConsIncreasing(i, Walk(c, i + 1, j).dels, Walk(c, i + 1, j).end1);
      case Insert => DelsIncrease(c, i, j + 1);
      case Replace =>
        DelsIncrease(c, i + 1, j + 1);
        ConsIncreasing(i, Walk(c, i + 1, j + 1).dels, Walk(c, i + 1, j + 1).end1);
    }
  }

  lemma {:induction false} AddsIncrease(c: Comparison, i: nat, j: nat)
    requires i <= |c.ar1| && j <= |c.ar2|
    ensures IncreasingWithin(Walk(c, i, j).adds, j, Walk(c, i, j).end2)
    decreases |c.ar1| - i + |c.ar2| - j
  {
    if i < |c.ar1| && j < |c.ar2| {
      match Decide(c, i, j)
      case Keep => AddsIncrease(c, i + 1, j + 1);
      case Remove => AddsIncrease(c, i + 1, j);
      case Insert =>
        AddsIncrease(c, i, j + 1);
        ConsIncreasing(j, Walk(c, i, j + 1).adds, Walk(c, i, j + 1).end2);
      case Replace =>
        AddsIncrease(c, i + 1, j + 1);
        ConsIncreasing(j, Walk(c, i + 1, j + 1).adds, Walk(c, i + 1, j + 1).end2);
    }
  }

  lemma RangeBehind(s: seq<nat>, lo: nat, mid: nat, hi: nat)
    requires lo <= mid <= hi && IncreasingWithin(s, lo, mid)
    ensures IncreasingWithin(s + Range(mid, hi), lo, hi)
  {
  }

  lemma RemovalsIncrease(c: Comparison, i: nat, j: nat)
    requires i <= |c.ar1| && j <= |c.ar2|
    ensures IncreasingWithin(Removals(c, i, j), i, |c.ar1|)
  {
    DelsIncrease(c, i, j);
    RangeBehind(Walk(c, i, j).dels, i, Walk(c, i, j).end1, |c.ar1|);
  }

  lemma AdditionsIncrease(c: Comparison, i: nat, j: nat)
    requires i <= |c.ar1| && j <= |c.ar2|
    ensures IncreasingWithin(Additions(c, i, j), j, |c.ar2|)
  {
    AddsIncrease(c, i, j);
    RangeBehind(Walk(c, i, j).adds, j, Walk(c, i, j).end2, |c.ar2|);
  }

  /** The indices in [lo, hi) that are not listed in `out`. */
  function Kept(lo: nat, hi: nat, out: seq<nat>): (ks: seq<nat>)
    requires lo <= hi
    ensures forall k :: 0 <= k < |ks| ==> lo <= ks[k] < hi
    decreases hi - lo
  {
    if lo == hi then [] else if lo in out then Kept(lo + 1, hi, out) else [lo] + Kept(lo + 1, hi, out)
  }

  lemma {:induction false} KeptIgnoresSmall(lo: nat, hi: nat, x: nat, out: seq<nat>)
    requires x < lo <= hi
    ensures Kept(lo, hi, [x] + out) == Kept(lo, hi, out)
    decreases hi - lo
  {
    if lo < hi { KeptIgnoresSmall(lo + 1, hi, x, out); }
  }

  lemma KeptCons(lo: nat, hi: nat, out: seq<nat>)
    requires lo < hi && IncreasingWithin(out, lo + 1, hi)
    ensures Kept(lo, hi, out) == [lo] + Kept(lo + 1, hi, out)
    ensures Kept(lo, hi, [lo] + out) == Kept(lo + 1, hi, out)
  {
    KeptIgnoresSmall(lo + 1, hi, lo, out);
  }

  lemma {:induction false} KeptOfRange(lo: nat, hi: nat)
    requires lo <= hi
    ensures Kept(lo, hi, Range(lo, hi)) == [] && Kept(lo, hi, []) == Range(lo, hi)
    decreases hi - lo
  {
    if lo < hi {
      KeptOfRange(lo + 1, hi);
      assert Range(lo, hi) == [lo] + Range(lo + 1, hi);
      KeptIgnoresSmall(lo + 1, hi, lo, Range(lo + 1, hi));
    }
  }

  ghost predicate MatchPairwise(c: Comparison, ks: seq<nat>, ls: seq<nat>) {
    && |ks| == |ls|
    && forall k :: 0 <= k < |ks| ==> ks[k] < |c.ar1| && ls[k] < |c.ar2| && c.Same(ks[k], ls[k])
  }

  lemma MatchCons(c: Comparison, i: nat, j: nat, ks: seq<nat>, ls: seq<nat>)
    requires i < |c.ar1| && j < |c.ar2| && c.Same(i, j) && MatchPairwise(c, ks, ls)
    ensures MatchPairwise(c, [i] + ks, [j] + ls)
  {
  }

  function Kept1(c: Comparison, i: nat, j: nat): seq<nat>
    requires i <= |c.ar1| && j <= |c.ar2|
  {
    Kept(i, |c.ar1|, Removals(c, i, j))
  }

  function Kept2(c: Comparison, i: nat, j: nat): seq<nat>
    requires i <= |c.ar1| && j <= |c.ar2|
  {
    Kept(j, |c.ar2|, Additions(c, i, j))
  }

  lemma KeptAtEnd(c: Comparison, i: nat, j: nat)
    requires i <= |c.ar1| && j <= |c.ar2| && (i == |c.ar1| || j == |c.ar2|)
    ensures Kept1(c, i, j) == [] && Kept2(c, i, j) == []
  {
    KeptOfRange(i, |c.ar1|);
    KeptOfRange(j, |c.ar2|);
    EmptyIsNeutral(Range(i, |c.ar1|));
    EmptyIsNeutral(Range(j, |c.ar2|));
  }

  /** A move keeps a line on both sides or on neither. */
  lemma KeptStep(c: Comparison, i: nat, j: nat)
    requires i < |c.ar1| && j < |c.ar2|
    ensures match Decide(c, i, j)
            case Keep => Kept1(c, i, j) == [i] + Kept1(c, i + 1, j + 1)
                         && Kept2(c, i, j) == [j] + Kept2(c, i + 1, j + 1)
            case Remove => Kept1(c, i, j) == Kept1(c, i + 1, j) && Kept2(c, i, j) == Kept2(c, i + 1, j)
            case Insert => Kept1(c, i, j) == Kept1(c, i, j + 1) && Kept2(c, i, j) == Kept2(c, i, j + 1)
            case Replace => Kept1(c, i, j) == Kept1(c, i + 1, j + 1) && Kept2(c, i, j) == Kept2(c, i + 1, j + 1)
  {
    WalkStep(c, i, j);
    match Decide(c, i, j)
    case Remove =>
      RemovalsIncrease(c, i + 1, j);
      KeptCons(i, |c.ar1|, Removals(c, i + 1, j));
    case Insert =>
      AdditionsIncrease(c, i, j + 1);
      KeptCons(j, |c.ar2|, Additions(c, i, j + 1));
    case _ =>
      RemovalsIncrease(c, i + 1, j + 1);
      AdditionsIncrease(c, i + 1, j + 1);
      KeptCons(i, |c.ar1|, Removals(c, i + 1, j + 1));
      KeptCons(j, |c.ar2|, Additions(c, i + 1, j + 1));
  }

  /** The lines kept on the two sides are equally many and match pairwise, in order. */
  lemma {:induction false} KeptLinesMatch(c: Comparison, i: nat, j: nat)
    requires i <= |c.ar1| && j <= |c.ar2|
    ensures MatchPairwise(c, Kept1(c, i, j), Kept2(c, i, j))
    decreases |c.ar1| - i + |c.ar2| - j
  {
    if i == |c.ar1| || j == |c.ar2| {
      KeptAtEnd(c, i, j);
    } else {
      KeptStep(c, i, j);
      match Decide(c, i, j)
      case Keep =>
        KeptLinesMatch(c, i + 1, j + 1);
        MatchCons(c, i, j, Kept1(c, i + 1, j + 1), Kept2(c, i + 1, j + 1));
      case Remove => KeptLinesMatch(c, i + 1, j);
      case Insert => KeptLinesMatch(c, i, j + 1);
      case Replace => KeptLinesMatch(c, i + 1, j + 1);
    }
  }

  // ----- the printed order -----

  function LineAt(ls: seq<Line>, k: nat): Line { if k < |ls| then ls[k] else "" }

  function Dels(ks: seq<nat>, w: seq<Line>): (es: seq<Edit>)
    ensures |es| == |ks| && forall k :: 0 <= k < |es| ==> es[k] == Del(ks[k], LineAt(w, ks[k]))
  {
    seq(|ks|, k requires 0 <= k < |ks| => Del(ks[k], LineAt(w, ks[k])))
  }

  function Adds(ks: seq<nat>, o: seq<Line>): (es: seq<Edit>)
    ensures |es| == |ks| && forall k :: 0 <= k < |es| ==> es[k] == Add(ks[k], LineAt(o, ks[k]))
  {
    seq(|ks|, k requires 0 <= k < |ks| => Add(ks[k], LineAt(o, ks[k])))
  }

  /** Two edit lists merged: a run of consecutive indices is continued first, then the smaller
      index goes first. l1 and l2 are the indices last taken from either list. */
  function Merge(old1: seq<Edit>, old2: seq<Edit>, l1: int, l2: int): seq<Edit>
    decreases |old1| + |old2|
  {
    if old1 == [] then old2
    else if old2 == [] then old1
    else if old1[0].at == l1 + 1 then [old1[0]] + Merge(old1[1..], old2, old1[0].at, l2)
    else if old2[0].at == l2 + 1 then [old2[0]] + Merge(old1, old2[1..], l1, old2[0].at)
    else if old1[0].at < old2[0].at then [old1[0]] + Merge(old1[1..], old2, old1[0].at, l2)
    else [old2[0]] + Merge(old1, old2[1..], l1, old2[0].at)
  }

  predicate Takes1(old1: seq<Edit>, old2: seq<Edit>, l1: int, l2: int)
    requires old1 != [] && old2 != []
  {
    old1[0].at == l1 + 1 || (old2[0].at != l2 + 1 && old1[0].at < old2[0].at)
  }

  /** The removed lines (del) or the added lines (!del) among the edits, in printed order. */
  function OfKind(es: seq<Edit>, del: bool): seq<Edit> {
    if es == [] then [] else (if es[0].Del? == del then [es[0]] else []) + OfKind(es[1..], del)
  }

  function Removed(es: seq<Edit>): seq<Edit> { OfKind(es, true) }

  function Added(es: seq<Edit>): seq<Edit> { OfKind(es, false) }

  lemma {:induction false} OfKindConcat(s: seq<Edit>, t: seq<Edit>, del: bool)
    ensures OfKind(s + t, del) == OfKind(s, del) + OfKind(t, del)
  {
    if s == [] {
      assert s + t == t;
    } else {
      var head := if s[0].Del? == del then [s[0]] else [];
      OfKindConcat(s[1..], t, del);
      assert (s + t)[1..] == s[1..] + t;
      assert head + (OfKind(s[1..], del) + OfKind(t, del)) == head + OfKind(s[1..], del) + OfKind(t, del);
    }
  }

  lemma {:induction false} OfKindUniform(s: seq<Edit>, kind: bool, del: bool)
    requires forall k :: 0 <= k < |s| ==> s[k].Del? == kind
    ensures OfKind(s, del) == if kind == del then s else []
  {
    if s != [] { OfKindUniform(s[1..], kind, del); }
  }

  /** Merging loses nothing, repeats nothing and keeps each list in order. */
  lemma {:induction false} OfKindMerge(old1: seq<Edit>, old2: seq<Edit>, l1: int, l2: int, del: bool)
    requires forall k :: 0 <= k < |old1| ==> old1[k].Del?
    requires forall k :: 0 <= k < |old2| ==> old2[k].Add?
    ensures OfKind(Merge(old1, old2, l1, l2), del) == if del then old1 else old2
    decreases |old1| + |old2|
  {
    OfKindUniform(old1, true, del);
    OfKindUniform(old2, false, del);
    if old1 != [] && old2 != [] {
      var m := Merge(old1, old2, l1, l2);
      if Takes1(old1, old2, l1, l2) {
        OfKindMerge(old1[1..], old2, old1[0].at, l2, del);
        assert m[1..] == Merge(old1[1..], old2, old1[0].at, l2);
      } else {
        OfKindMerge(old1, old2[1..], l1, old2[0].at, del);
        assert m[1..] == Merge(old1, old2[1..], l1, old2[0].at);
      }
    }
  }

  lemma {:induction false} MergeMembers(old1: seq<Edit>, old2: seq<Edit>, l1: int, l2: int, e: Edit)
    requires e in Merge(old1, old2, l1, l2)
    ensures e in old1 || e in old2
    decreases |old1| + |old2|
  {
    if old1 != [] && old2 != [] && e != Merge(old1, old2, l1, l2)[0] {
      if Takes1(old1, old2, l1, l2) {
        MergeMembers(old1[1..], old2, old1[0].at, l2, e);
      } else {
        MergeMembers(old1, old2[1..], l1, old2[0].at, e);
      }
    }
  }

  /** The indices of each kind increase down the list, and consecutive indices of one kind stand
      on consecutive lines. */
  ghost predicate OrderedRuns(m: seq<Edit>) {
    forall p, q :: 0 <= p < q < |m| && m[p].Del? == m[q].Del? ==>
      m[p].at < m[q].at && (m[q].at == m[p].at + 1 ==> q == p + 1)
  }

  lemma ConsRuns(h: Edit, m: seq<Edit>)
    requires OrderedRuns(m)
    requires forall q :: 0 <= q < |m| && m[q].Del? == h.Del? ==> h.at < m[q].at && (m[q].at == h.at + 1 ==> q == 0)
    ensures OrderedRuns([h] + m)
  {
  }

  ghost predicate Ascending(es: seq<Edit>, del: bool) {
    && (forall k :: 0 <= k < |es| ==> es[k].Del? == del)
    && (forall k, l :: 0 <= k < l < |es| ==> es[k].at < es[l].at)
  }

  /** What follows the head of an ascending list that is being merged. */
  lemma NextOfRun(t: seq<Edit>, del: bool, e: Edit)
    requires t != [] && Ascending(t, del) && e in t[1..]
    ensures t[0].at < e.at && (e.at == t[0].at + 1 ==> e == t[1])
  {
  }

  lemma AscendingRuns(t: seq<Edit>, del: bool)
    requires Ascending(t, del)
    ensures OrderedRuns(t)
  {
    forall p, q | 0 <= p < q < |t| && t[q].at == t[p].at + 1
      ensures q == p + 1
    {
      assert t[p].at < t[p + 1].at;
    }
  }

  lemma AscendingTail(t: seq<Edit>, del: bool)
    requires t != [] && Ascending(t, del)
    ensures Ascending(t[1..], del)
  {
  }

  /** A run of consecutive removed lines, or of consecutive added lines, is printed in one piece. */
  lemma {:induction false} MergeKeepsRuns(old1: seq<Edit>, old2: seq<Edit>, l1: int, l2: int)
    requires Ascending(old1, true) && Ascending(old2, false)
    ensures OrderedRuns(Merge(old1, old2, l1, l2))
    decreases |old1| + |old2|
  {
    if old1 == [] || old2 == [] {
      AscendingRuns(old1, true);
      AscendingRuns(old2, false);
    } else if Takes1(old1, old2, l1, l2) {
      var h, m := old1[0], Merge(old1[1..], old2, old1[0].at, l2);
      AscendingTail(old1, true);
      MergeKeepsRuns(old1[1..], old2, h.at, l2);
      forall q | 0 <= q < |m| && m[q].Del? == h.Del?
        ensures h.at < m[q].at && (m[q].at == h.at + 1 ==> q == 0)
      {
        MergeMembers(old1[1..], old2, h.at, l2, m[q]);
        NextOfRun(old1, true, m[q]);
        if m[q].at == h.at + 1 {
          assert m[0] == old1[1] == m[q];
        }
      }
      ConsRuns(h, m);
    } else {
      var h, m := old2[0], Merge(old1, old2[1..], l1, old2[0].at);
      AscendingTail(old2, false);
      MergeKeepsRuns(old1, old2[1..], l1, h.at);
      forall q | 0 <= q < |m| && m[q].Del? == h.Del?
        ensures h.at < m[q].at && (m[q].at == h.at + 1 ==> q == 0)
      {
        MergeMembers(old1, old2[1..], l1, h.at, m[q]);
        NextOfRun(old2, false, m[q]);
        if m[q].at == h.at + 1 {
          assert m[0] == old2[1] == m[q];
        }
      }
      ConsRuns(h, m);
    }
  }

  function WithKey(e: Edit, d: nat): Edit {
    if e.Del? then Del(e.at + d, e.text) else Add(e.at + d, e.text)
  }

  /** The edits keyed by at + d instead of at. */
  function Rekeyed(es: seq<Edit>, d: nat): seq<Edit> {
    if es == [] then [] else [WithKey(es[0], d)] + Rekeyed(es[1..], d)
  }

  predicate SameMark(l: int, m: int, d: nat) { m == l + d || (l == -2 && m == -2) }

  lemma RekeyedCons(e: Edit, es: seq<Edit>, d: nat)
    ensures Rekeyed([e] + es, d) == [WithKey(e, d)] + Rekeyed(es, d)
  {
  }

  /** Whether an entry is keyed by its index before or after the increment in the same statement
      does not change the printed order. */
  lemma {:induction false} MergeIgnoresKeyShift(old1: seq<Edit>, old2: seq<Edit>, l1: int, l2: int,
                                               m1: int, m2: int, d: nat)
    requires SameMark(l1, m1, d) && SameMark(l2, m2, d)
    ensures Merge(Rekeyed(old1, d), Rekeyed(old2, d), m1, m2) == Rekeyed(Merge(old1, old2, l1, l2), d)
    decreases |old1| + |old2|
  {
    if old1 != [] && old2 != [] {
      var e1, r1, e2, r2 := old1[0], old1[1..], old2[0], old2[1..];
      var s1, s2 := Rekeyed(r1, d), Rekeyed(r2, d);
      assert Rekeyed(old1, d) == [WithKey(e1, d)] + s1 && Rekeyed(old2, d) == [WithKey(e2, d)] + s2;
      if Takes1(old1, old2, l1, l2) {
        MergeIgnoresKeyShift(r1, old2, e1.at, l2, e1.at + d, m2, d);
        RekeyedCons(e1, Merge(r1, old2, e1.at, l2), d);
        MergeTakes(WithKey(e1, d), s1, Rekeyed(old2, d), m1, m2);
      } else {
        MergeIgnoresKeyShift(old1, r2, l1, e2.at, m1, e2.at + d, d);
        RekeyedCons(e2, Merge(old1, r2, l1, e2.at), d);
        MergeTakesSecond(Rekeyed(old1, d), WithKey(e2, d), s2, m1, m2);
      }
    }
  }

  lemma MergeTakes(e: Edit, r: seq<Edit>, old2: seq<Edit>, l1: int, l2: int)
    requires old2 != [] && Takes1([e] + r, old2, l1, l2)
    ensures Merge([e] + r, old2, l1, l2) == [e] + Merge(r, old2, e.at, l2)
  {
  }

  lemma MergeTakesSecond(old1: seq<Edit>, e: Edit, r: seq<Edit>, l1: int, l2: int)
    requires old1 != [] && !Takes1(old1, [e] + r, l1, l2)
    ensures Merge(old1, [e] + r, l1, l2) == [e] + Merge(old1, r, l1, e.at)
  {
  }
}

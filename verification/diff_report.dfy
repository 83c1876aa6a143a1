/** The diff as the test runner reports it: the list of edits, its printed text, and what a
    reader can recover from it. */
module DiffReport {
  import opened Sequences
  import opened LineDiff
  import opened DiffScript

  /** The edits generate_array_diff returns, w being the lines printed for the pattern lines. */
  function DiffOf(c: Comparison, w: seq<Line>): seq<Edit> {
    var s := Walk(c, 0, 0);
    Merge(Dels(s.dels, w), Adds(s.adds, c.ar2), -2, -2)
    + Dels(Range(s.end1, |c.ar1|), w) + Adds(Range(s.end2, |c.ar2|), c.ar2)
  }

  method GenerateArrayDiff(c: Comparison, w: seq<Line>) returns (diff: seq<Edit>)
    ensures diff == DiffOf(c, w)
  {
    var old1, old2, idx1, idx2 := WalkLines(c, w);
    diff := MergeLists(old1, old2);
    ghost var start1, merged := idx1, diff;
    while idx1 < |c.ar1|
      invariant start1 <= idx1 <= |c.ar1|
      invariant diff == merged + Dels(Range(start1, idx1), w)
    {
      diff := diff + [Del(idx1, LineAt(w, idx1))];
      idx1 := idx1 + 1;
    }
    ghost var start2, withDels := idx2, diff;
    while idx2 < |c.ar2|
      invariant start2 <= idx2 <= |c.ar2|
      invariant diff == withDels + Adds(Range(start2, idx2), c.ar2)
    {
      diff := diff + [Add(idx2, c.ar2[idx2])];
      idx2 := idx2 + 1;
    }
  }

  /** The loop that fills the two lists of edits. */
  method WalkLines(c: Comparison, w: seq<Line>)
    returns (old1: seq<Edit>, old2: seq<Edit>, idx1: nat, idx2: nat)
    ensures idx1 == Walk(c, 0, 0).end1 && idx2 == Walk(c, 0, 0).end2
    ensures old1 == Dels(Walk(c, 0, 0).dels, w) && old2 == Adds(Walk(c, 0, 0).adds, c.ar2)
  {
    idx1, idx2, old1, old2 := 0, 0, [], [];
    ghost var dels: seq<nat>, adds: seq<nat> := [], [];
    while idx1 < |c.ar1| && idx2 < |c.ar2|
      invariant idx1 <= |c.ar1| && idx2 <= |c.ar2|
      invariant old1 == Dels(dels, w) && old2 == Adds(adds, c.ar2)
      invariant Walk(c, 0, 0) == After(dels, adds, Walk(c, idx1, idx2))
      decreases |c.ar1| - idx1 + |c.ar2| - idx2
    {
      AfterStep(c, idx1, idx2, dels, adds);
      DelsSnoc(dels, idx1, w);
      DelsSnoc(adds, idx2, c.ar2);
      if CompLine(c.ar1[idx1], c.ar2[idx2], c.mode) {
        idx1, idx2 := idx1 + 1, idx2 + 1;
      } else {
        var move := ChooseSide(c, idx1, idx2);
        if move == Remove {
          old1, dels := old1 + [Del(idx1, LineAt(w, idx1))], dels + [idx1];
          idx1 := idx1 + 1;
        } else if move == Insert {
          old2, adds := old2 + [Add(idx2, c.ar2[idx2])], adds + [idx2];
          idx2 := idx2 + 1;
        } else {
          old1, dels := old1 + [Del(idx1, LineAt(w, idx1))], dels + [idx1];
          old2, adds := old2 + [Add(idx2, c.ar2[idx2])], adds + [idx2];
          idx1, idx2 := idx1 + 1, idx2 + 1;
        }
      }
    }
    EmptyIsNeutral(dels);
    EmptyIsNeutral(adds);
  }

  lemma DelsSnoc(ks: seq<nat>, k: nat, w: seq<Line>)
    ensures Dels(ks + [k], w) == Dels(ks, w) + [Del(k, LineAt(w, k))]
    ensures Adds(ks + [k], w) == Adds(ks, w) + [Add(k, LineAt(w, k))]
  {
  }

  /** At a mismatch: the scores after skipping one line on either side decide. */
  method ChooseSide(c: Comparison, idx1: nat, idx2: nat) returns (move: Move)
    requires idx1 < |c.ar1| && idx2 < |c.ar2| && !c.Same(idx1, idx2)
    ensures move == Decide(c, idx1, idx2) && move != Keep
  {
    var c1 := CountArrayDiff(c, idx1 + 1, idx2, LOOK_AHEAD);
    var c2 := CountArrayDiff(c, idx1, idx2 + 1, LOOK_AHEAD);
    if c1 > c2 {
      move := Remove;
    } else if c2 > 0 {
      move := Insert;
    } else {
      move := Replace;
    }
  }

  /** A walk with the edits decided before it put in front. */
  function After(dels: seq<nat>, adds: seq<nat>, s: Walked): Walked {
    s.(dels := dels + s.dels, adds := adds + s.adds)
  }

  lemma AfterStep(c: Comparison, i: nat, j: nat, dels: seq<nat>, adds: seq<nat>)
    requires i < |c.ar1| && j < |c.ar2|
    ensures After(dels, adds, Walk(c, i, j)) ==
      match Decide(c, i, j)
      case Keep => After(dels, adds, Walk(c, i + 1, j + 1))
      case Remove => After(dels + [i], adds, Walk(c, i + 1, j))
      case Insert => After(dels, adds + [j], Walk(c, i, j + 1))
      case Replace => After(dels + [i], adds + [j], Walk(c, i + 1, j + 1))
  {
    match Decide(c, i, j)
    case Keep =>
    case Remove => Regroup(dels, [i], Walk(c, i + 1, j).dels);
    case Insert => Regroup(adds, [j], Walk(c, i, j + 1).adds);
    case Replace =>
      Regroup(dels, [i], Walk(c, i + 1, j + 1).dels);
      Regroup(adds, [j], Walk(c, i + 1, j + 1).adds);
  }

  /** The loop that interleaves the two lists; k1 and k2 are the indices of the pending entries,
      None when a list is exhausted. */
  method MergeLists(old1: seq<Edit>, old2: seq<Edit>) returns (diff: seq<Edit>)
    ensures diff == Merge(old1, old2, -2, -2)
  {
    var p1, p2, l1: int, l2: int := 0, 0, -2, -2;
    diff := [];
    while p1 < |old1| || p2 < |old2|
      invariant p1 <= |old1| && p2 <= |old2|
      invariant Merge(old1, old2, -2, -2) == diff + Merge(old1[p1..], old2[p2..], l1, l2)
      decreases |old1| - p1 + |old2| - p2
    {
      MergeStep(old1[p1..], old2[p2..], l1, l2, diff);
      if (p1 < |old1| && old1[p1].at == l1 + 1) || p2 == |old2| {
        l1 := old1[p1].at;
        diff := diff + [old1[p1]];
        p1 := p1 + 1;
      } else if (p2 < |old2| && old2[p2].at == l2 + 1) || p1 == |old1| {
        l2 := old2[p2].at;
        diff := diff + [old2[p2]];
        p2 := p2 + 1;
      } else if old1[p1].at < old2[p2].at {
        l1 := old1[p1].at;
        diff := diff + [old1[p1]];
        p1 := p1 + 1;
      } else {
        l2 := old2[p2].at;
        diff := diff + [old2[p2]];
        p2 := p2 + 1;
      }
    }
  }

  /** One round of the interleaving, with what has been printed before it. */
  lemma MergeStep(r1: seq<Edit>, r2: seq<Edit>, l1: int, l2: int, done: seq<Edit>)
    requires r1 != [] || r2 != []
    ensures done + Merge(r1, r2, l1, l2) ==
      if (r1 != [] && r1[0].at == l1 + 1) || r2 == [] then done + [r1[0]] + Merge(r1[1..], r2, r1[0].at, l2)
      else if r2[0].at == l2 + 1 || r1 == [] then done + [r2[0]] + Merge(r1, r2[1..], l1, r2[0].at)
      else if r1[0].at < r2[0].at then done + [r1[0]] + Merge(r1[1..], r2, r1[0].at, l2)
      else done + [r2[0]] + Merge(r1, r2[1..], l1, r2[0].at)
  {
  }

  // ----- what the list of edits says -----

  lemma DelsConcat(s: seq<nat>, t: seq<nat>, w: seq<Line>)
    ensures Dels(s + t, w) == Dels(s, w) + Dels(t, w)
    ensures Adds(s + t, w) == Adds(s, w) + Adds(t, w)
  {
  }

  lemma KindWithTails(m: seq<Edit>, t1: seq<Edit>, t2: seq<Edit>, del: bool)
    requires forall k :: 0 <= k < |t1| ==> t1[k].Del?
    requires forall k :: 0 <= k < |t2| ==> t2[k].Add?
    ensures OfKind(m + t1 + t2, del) == OfKind(m, del) + if del then t1 else t2
  {
    OfKindConcat(m + t1, t2, del);
    OfKindConcat(m, t1, del);
    OfKindUniform(t1, true, del);
    OfKindUniform(t2, false, del);
    EmptyIsNeutral(OfKind(m, del));
    EmptyIsNeutral(OfKind(m, del) + t1);
  }

  /** The list holds each removed line and each added line exactly once, in increasing order. */
  lemma DiffHoldsEachEditOnce(c: Comparison, w: seq<Line>)
    ensures Removed(DiffOf(c, w)) == Dels(Removals(c, 0, 0), w)
    ensures Added(DiffOf(c, w)) == Adds(Additions(c, 0, 0), c.ar2)
  {
    var s := Walk(c, 0, 0);
    var old1, old2 := Dels(s.dels, w), Adds(s.adds, c.ar2);
    var t1, t2 := Range(s.end1, |c.ar1|), Range(s.end2, |c.ar2|);
    DelsConcat(s.dels, t1, w);
    DelsConcat(s.adds, t2, c.ar2);
    forall del: bool ensures OfKind(DiffOf(c, w), del) == if del then old1 + Dels(t1, w) else old2 + Adds(t2, c.ar2) {
      OfKindMerge(old1, old2, -2, -2, del);
      KindWithTails(Merge(old1, old2, -2, -2), Dels(t1, w), Adds(t2, c.ar2), del);
    }
  }

  /** All remaining lines match position by position. */
  ghost predicate SameLines(c: Comparison) {
    |c.ar1| == |c.ar2| && forall k :: 0 <= k < |c.ar1| ==> c.Same(k, k)
  }

  lemma {:induction false} NothingToEdit(c: Comparison, i: nat)
    requires SameLines(c) && i <= |c.ar1|
    ensures Walk(c, i, i) == Walked([], [], |c.ar1|, |c.ar2|)
    decreases |c.ar1| - i
  {
    if i < |c.ar1| { NothingToEdit(c, i + 1); }
  }

  lemma NoEditsKeepAll(c: Comparison)
    requires Removals(c, 0, 0) == [] && Additions(c, 0, 0) == []
    ensures SameLines(c)
  {
    KeptOfRange(0, |c.ar1|);
    KeptOfRange(0, |c.ar2|);
    KeptLinesMatch(c, 0, 0);
    var ks, ls := Range(0, |c.ar1|), Range(0, |c.ar2|);
    assert Kept1(c, 0, 0) == ks && Kept2(c, 0, 0) == ls;
    forall k | 0 <= k < |c.ar1| ensures k < |c.ar2| && c.Same(k, k) {
      assert ks[k] == k && ls[k] == k;
    }
  }

  /** The diff is empty exactly when the inputs match line by line. */
  lemma EmptyDiffIffSameLines(c: Comparison, w: seq<Line>)
    ensures DiffOf(c, w) == [] <==> SameLines(c)
  {
    if SameLines(c) {
      NothingToEdit(c, 0);
    } else if DiffOf(c, w) == [] {
      DiffHoldsEachEditOnce(c, w);
      NoEditsKeepAll(c);
    }
  }

  /** Written out for patterns: line k of the output matches the pattern in line k. */
  lemma EmptyDiffIffAllMatch(ar1: seq<Line>, ar2: seq<Line>, m: (Line, Line) -> bool, w: seq<Line>)
    ensures DiffOf(Comparison(ar1, ar2, Regex(m)), w) == [] <==>
            |ar1| == |ar2| && forall k :: 0 <= k < |ar1| ==> m(ar1[k], ar2[k])
  {
    var c := Comparison(ar1, ar2, Regex(m));
    EmptyDiffIffSameLines(c, w);
    assert forall k :: 0 <= k < |ar1| && k < |ar2| ==> c.Same(k, k) == m(ar1[k], ar2[k]);
  }

  /** And for literal texts: the two are equal. */
  lemma EmptyDiffIffEqual(ar1: seq<Line>, ar2: seq<Line>, w: seq<Line>)
    ensures DiffOf(Comparison(ar1, ar2, Literal), w) == [] <==> ar1 == ar2
  {
    var c := Comparison(ar1, ar2, Literal);
    EmptyDiffIffSameLines(c, w);
    assert forall k :: 0 <= k < |ar1| && k < |ar2| ==> c.Same(k, k) == (ar1[k] == ar2[k]);
  }

  /** Every kept output line matches the pattern it is kept with. */
  lemma KeptLinesMatchPatterns(ar1: seq<Line>, ar2: seq<Line>, m: (Line, Line) -> bool)
    ensures var c := Comparison(ar1, ar2, Regex(m));
            var ks, ls := Kept1(c, 0, 0), Kept2(c, 0, 0);
            && |ks| == |ls|
            && forall k :: 0 <= k < |ks| ==> ks[k] < |ar1| && ls[k] < |ar2| && m(ar1[ks[k]], ar2[ls[k]])
  {
    KeptLinesMatch(Comparison(ar1, ar2, Regex(m)), 0, 0);
  }

  /** The interleaved part of the list keeps every run of consecutive lines of one kind together. */
  lemma WalkedEditsKeepRuns(c: Comparison, w: seq<Line>)
    ensures var s := Walk(c, 0, 0); OrderedRuns(Merge(Dels(s.dels, w), Adds(s.adds, c.ar2), -2, -2))
  {
    var s := Walk(c, 0, 0);
    DelsIncrease(c, 0, 0);
    AddsIncrease(c, 0, 0);
    MergeKeepsRuns(Dels(s.dels, w), Adds(s.adds, c.ar2), -2, -2);
  }
}

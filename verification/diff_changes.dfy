/** The diff edit by edit, for texts that differ in one place: which lines it lists, and in which order. */
module DiffChanges {
  import opened Sequences
  import opened Text
  import opened LineDiff
  import opened DiffScript
  import opened DiffReport
  import opened DiffApply
  import opened DiffMinimal

  // ----- two runs merged -----

  lemma RangeTail(lo: nat, hi: nat)
    requires lo < hi
    ensures Range(lo, hi) == [lo] + Range(lo + 1, hi)
  {
  }

  /** The rest of a run that has begun is not interrupted. */
  lemma {:induction false} RunOfDels(lo: nat, hi: nat, w: seq<Line>, adds: seq<Edit>, l2: int)
    requires lo <= hi
    ensures Merge(Dels(Range(lo, hi), w), adds, lo - 1, l2) == Dels(Range(lo, hi), w) + adds
    decreases hi - lo
  {
    var old1 := Dels(Range(lo, hi), w);
    if lo < hi && adds != [] {
      RangeTail(lo, hi);
      RunOfDels(lo + 1, hi, w, adds, l2);
      assert old1[1..] == Dels(Range(lo + 1, hi), w);
      HeadAndTail(old1);
      Regroup([old1[0]], old1[1..], adds);
    } else {
      EmptyIsNeutral(old1);
      EmptyIsNeutral(adds);
    }
  }

  lemma {:induction false} RunOfAdds(lo: nat, hi: nat, o: seq<Line>, dels: seq<Edit>, l1: int)
    requires lo <= hi && (dels != [] ==> dels[0].at != l1 + 1)
    ensures Merge(dels, Adds(Range(lo, hi), o), l1, lo - 1) == Adds(Range(lo, hi), o) + dels
    decreases hi - lo
  {
    var old2 := Adds(Range(lo, hi), o);
    if lo < hi && dels != [] {
      RangeTail(lo, hi);
      RunOfAdds(lo + 1, hi, o, dels, l1);
      assert old2[1..] == Adds(Range(lo + 1, hi), o);
      HeadAndTail(old2);
      Regroup([old2[0]], old2[1..], dels);
    } else {
      EmptyIsNeutral(old2);
      EmptyIsNeutral(dels);
    }
  }

  lemma DelsFirst(p: nat, p': nat, q: nat, q': nat, w: seq<Line>, o: seq<Line>)
    requires p < p' && q < q' && p < q
    ensures Merge(Dels(Range(p, p'), w), Adds(Range(q, q'), o), -2, -2) == Dels(Range(p, p'), w) + Adds(Range(q, q'), o)
  {
    var dels, adds := Dels(Range(p, p'), w), Adds(Range(q, q'), o);
    RangeTail(p, p');
    RunOfDels(p + 1, p', w, adds, -2);
    assert dels[1..] == Dels(Range(p + 1, p'), w);
    HeadAndTail(dels);
    Regroup([dels[0]], dels[1..], adds);
  }

  lemma AddsFirst(p: nat, p': nat, q: nat, q': nat, w: seq<Line>, o: seq<Line>)
    requires p < p' && q < q' && p >= q
    ensures Merge(Dels(Range(p, p'), w), Adds(Range(q, q'), o), -2, -2) == Adds(Range(q, q'), o) + Dels(Range(p, p'), w)
  {
    var dels, adds := Dels(Range(p, p'), w), Adds(Range(q, q'), o);
    RangeTail(q, q');
    RunOfAdds(q + 1, q', o, dels, -2);
    assert adds[1..] == Adds(Range(q + 1, q'), o);
    HeadAndTail(adds);
    Regroup([adds[0]], adds[1..], dels);
  }

  /** Of two runs the one that starts earlier is printed first, and of two that start on the same line
      the added one. */
  lemma TwoRuns(p: nat, p': nat, q: nat, q': nat, w: seq<Line>, o: seq<Line>)
    requires p <= p' && q <= q'
    ensures var dels, adds := Dels(Range(p, p'), w), Adds(Range(q, q'), o);
            Merge(dels, adds, -2, -2) == if p < q then dels + adds else adds + dels
  {
    if p == p' || q == q' {
      EmptyIsNeutral(Dels(Range(p, p'), w));
      EmptyIsNeutral(Adds(Range(q, q'), o));
    } else if p < q {
      DelsFirst(p, p', q, q', w, o);
    } else {
      AddsFirst(p, p', q, q', w, o);
    }
  }

  // ----- one block exchanged for another -----

  /** Where the rest is the same on both sides, the walk lists nothing. */
  lemma {:induction false} SameRestWalk(c: Comparison, i: nat, j: nat)
    requires i <= |c.ar1| && |c.ar1| - i == |c.ar2| - j == Run(c, i, j)
    ensures Walk(c, i, j) == Walked([], [], |c.ar1|, |c.ar2|)
    decreases |c.ar1| - i
  {
    if i < |c.ar1| {
      assert c.Same(i, j);
      SameRestWalk(c, i + 1, j + 1);
    }
  }

  lemma MatchIsPassed(c: Comparison, i: nat, j: nat)
    requires i < |c.ar1| && j < |c.ar2| && c.Same(i, j)
    ensures Walk(c, i, j) == Walk(c, i + 1, j + 1)
  {
  }

  /** Where both sides begin the same, the walk passes. */
  lemma {:induction false} SameStartWalk(c: Comparison, i: nat, j: nat, n: nat)
    requires i <= |c.ar1| && j <= |c.ar2| && n <= Run(c, i, j)
    ensures Walk(c, i, j) == Walk(c, i + n, j + n)
    decreases n
  {
    if n > 0 {
      MatchIsPassed(c, i, j);
      SameStartWalk(c, i + 1, j + 1, n - 1);
    }
  }

  lemma {:induction false} InsertionWalk(c: Comparison, i: nat, j: nat, b: nat)
    requires Exchanged(c, i, j, 0, b) && b <= 10 && i < |c.ar1|
    ensures Walk(c, i, j) == Walked([], Range(j, j + b), |c.ar1|, |c.ar2|)
    decreases b
  {
    if b == 0 {
      SameRestWalk(c, i, j);
    } else {
      assert !c.Same(i, j);
      NearInsertionSeen(c, i, j, b);
      InsertionWalk(c, i, j + 1, b - 1);
      InsertListed(c, i, j, j + b);
    }
  }

  lemma {:induction false} RemovalWalk(c: Comparison, i: nat, j: nat, a: nat)
    requires Exchanged(c, i, j, a, 0) && a <= 6 && j < |c.ar2|
    ensures Walk(c, i, j) == Walked(Range(i, i + a), [], |c.ar1|, |c.ar2|)
    decreases a
  {
    if a == 0 {
      SameRestWalk(c, i, j);
    } else {
      assert !c.Same(i, j);
      NearRemovalSeen(c, i, j, a);
      RemovalWalk(c, i + 1, j, a - 1);
      RemoveListed(c, i, j, i + a);
    }
  }

  lemma RemoveListed(c: Comparison, i: nat, j: nat, hi: nat)
    requires i < hi && i < |c.ar1| && j < |c.ar2| && Decide(c, i, j) == Remove
    requires Walk(c, i + 1, j).dels == Range(i + 1, hi)
    ensures Walk(c, i, j) == Walk(c, i + 1, j).(dels := Range(i, hi))
  {
    RangeTail(i, hi);
  }

  lemma InsertListed(c: Comparison, i: nat, j: nat, hi: nat)
    requires j < hi && i < |c.ar1| && j < |c.ar2| && Decide(c, i, j) == Insert
    requires Walk(c, i, j + 1).adds == Range(j + 1, hi)
    ensures Walk(c, i, j) == Walk(c, i, j + 1).(adds := Range(j, hi))
  {
    RangeTail(j, hi);
  }

  lemma ReplaceListed(c: Comparison, i: nat, j: nat, hi1: nat, hi2: nat)
    requires i < hi1 && j < hi2 && i < |c.ar1| && j < |c.ar2| && Decide(c, i, j) == Replace
    requires Walk(c, i + 1, j + 1).dels == Range(i + 1, hi1) && Walk(c, i + 1, j + 1).adds == Range(j + 1, hi2)
    ensures Walk(c, i, j) == Walk(c, i + 1, j + 1).(dels := Range(i, hi1), adds := Range(j, hi2))
  {
    RangeTail(i, hi1);
    RangeTail(j, hi2);
  }

  ghost predicate SidesListed(c: Comparison, i: nat, j: nat, i': nat, j': nat)
    requires i' <= |c.ar1| && j' <= |c.ar2|
  {
    && (forall q :: j <= q <= j' && j' - q <= 10 ==> Walk(c, i', q) == Walked([], Range(q, j'), |c.ar1|, |c.ar2|))
    && (forall p :: i <= p <= i' && i' - p <= 6 ==> Walk(c, p, j') == Walked(Range(p, i'), [], |c.ar1|, |c.ar2|))
  }

  lemma ExchangeListsSides(c: Comparison, i: nat, j: nat, a: nat, b: nat)
    requires Exchanged(c, i, j, a, b) && i + a < |c.ar1|
    ensures SidesListed(c, i, j, i + a, j + b)
  {
    var i', j' := i + a, j + b;
    forall q | j <= q <= j' && j' - q <= 10
      ensures Walk(c, i', q) == Walked([], Range(q, j'), |c.ar1|, |c.ar2|)
    {
      InsertionWalk(c, i', q, j' - q);
    }
    forall p | i <= p <= i' && i' - p <= 6
      ensures Walk(c, p, j') == Walked(Range(p, i'), [], |c.ar1|, |c.ar2|)
    {
      RemovalWalk(c, p, j', i' - p);
    }
  }

  lemma {:induction false} BlockWalk(c: Comparison, i: nat, j: nat, i': nat, j': nat)
    requires i <= i' <= |c.ar1| && j <= j' <= |c.ar2| && Balanced(i' - i, j' - j)
    requires DropsBlock(c, i, j, i', j') && SidesListed(c, i, j, i', j')
    ensures Walk(c, i, j) == Walked(Range(i, i'), Range(j, j'), |c.ar1|, |c.ar2|)
    decreases i' - i + j' - j
  {
    if i < i' && j < j' {
      BlockMove(c, i, j, i', j');
      match Decide(c, i, j)
      case Remove =>
        BlockWalk(c, i + 1, j, i', j');
        RemoveListed(c, i, j, i');
      case Insert =>
        BlockWalk(c, i, j + 1, i', j');
        InsertListed(c, i, j, j');
      case Replace =>
        BlockWalk(c, i + 1, j + 1, i', j');
        ReplaceListed(c, i, j, i', j');
    }
  }

  lemma ExchangeWalk(c: Comparison, i: nat, j: nat, a: nat, b: nat)
    requires Exchanged(c, i, j, a, b) && Balanced(a, b) && i + a < |c.ar1|
    ensures Walk(c, i, j) == Walked(Range(i, i + a), Range(j, j + b), |c.ar1|, |c.ar2|)
  {
    ExchangeDrops(c, i, j, a, b);
    ExchangeListsSides(c, i, j, a, b);
    BlockWalk(c, i, j, i + a, j + b);
  }

  /** A block exchanged for another, as far as it is recognised: the new lines first, then the old. */
  lemma ExchangedBlockEdits(c: Comparison, w: seq<Line>, start: nat, a: nat, b: nat)
    requires start <= Run(c, 0, 0) && Exchanged(c, start, start, a, b) && Balanced(a, b) && start + a < |c.ar1|
    ensures DiffOf(c, w) == Adds(Range(start, start + b), c.ar2) + Dels(Range(start, start + a), w)
  {
    SameStartWalk(c, 0, 0, start);
    ExchangeWalk(c, start, start, a, b);
    NoTails(c, w);
    TwoRuns(start, start + a, start, start + b, w, c.ar2);
  }

  lemma NoTails(c: Comparison, w: seq<Line>)
    requires Walk(c, 0, 0).end1 == |c.ar1| && Walk(c, 0, 0).end2 == |c.ar2|
    ensures DiffOf(c, w) == Merge(Dels(Walk(c, 0, 0).dels, w), Adds(Walk(c, 0, 0).adds, c.ar2), -2, -2)
  {
  }

  /** In a literal text. */
  lemma ExchangedLinesEdits(before: seq<Line>, xs: seq<Line>, ys: seq<Line>, after: seq<Line>, w: seq<Line>)
    requires Apart(xs, ys) && Apart(xs, after) && Apart(ys, after) && after != []
    requires |xs| <= |ys| + 6 && |ys| <= |xs| + 10
    ensures var c, n := Comparison(Longer(before, xs, after), Longer(before, ys, after), Literal), |before|;
            DiffOf(c, w) == Adds(Range(n, n + |ys|), c.ar2) + Dels(Range(n, n + |xs|), w)
  {
    var c := Comparison(Longer(before, xs, after), Longer(before, ys, after), Literal);
    CommonRun(c, 0, 0, |before|);
    LinesExchanged(c, before, xs, ys, after);
    ExchangedBlockEdits(c, w, |before|, |xs|, |ys|);
  }

  // ----- two neighbours exchanged -----

  /** Lines n and n + 1 have changed places, and the rest is the same. */
  ghost predicate Swapped(c: Comparison, n: nat) {
    && n + 2 <= |c.ar1| == |c.ar2| && Run(c, n + 2, n + 2) == |c.ar1| - (n + 2)
    && !c.Same(n, n) && c.Same(n + 1, n) && c.Same(n, n + 1)
  }

  /** The line that comes after them matches the one that has moved up. */
  ghost predicate NextMatches(c: Comparison, n: nat) {
    n + 2 < |c.ar1| && n + 2 < |c.ar2| && c.Same(n + 1, n + 2)
  }

  lemma SwapScore(c: Comparison, n: nat)
    requires Swapped(c, n) && !NextMatches(c, n)
    ensures Score(c, n, n + 1, LOOK_AHEAD) >= |c.ar1| - n - 1
  {
    assert Run(c, n + 1, n + 2) == 0;
    assert Run(c, n, n + 1) == 1;
    if n + 2 < |c.ar1| {
      var budget := LOOK_AHEAD - 1.0 - 1.0;
      Skip1Reaches(c, n + 2, n + 2, budget / 2.0, n + 2);
      assert LookAhead(c, n + 1, n + 2, budget) >= BestSkip1(c, n + 2, n + 2, budget / 2.0);
    }
  }

  /** Dropping either of the two is worth the same then, as far as both are seen, and a tie goes to the
      added line. */
  lemma SwapDecided(c: Comparison, n: nat)
    requires Swapped(c, n) && !NextMatches(c, n)
    ensures Score(c, n + 1, n, LOOK_AHEAD) <= Score(c, n, n + 1, LOOK_AHEAD) && Decide(c, n, n) == Insert
  {
    SwapScore(c, n);
    ScoreSound(c, n + 1, n, LOOK_AHEAD);
    LcsWithin(c, n + 1, n);
  }

  lemma SwapWalk(c: Comparison, n: nat)
    requires Swapped(c, n) && !NextMatches(c, n)
    ensures Walk(c, n, n) == if n + 2 == |c.ar1| then Walked([], [n], n + 1, n + 2)
                             else Walked([n + 1], [n], |c.ar1|, |c.ar2|)
  {
    SwapDecided(c, n);
    assert Walk(c, n, n + 1) == Walk(c, n + 1, n + 2);
    if n + 2 < |c.ar1| {
      NearRemovalSeen(c, n + 1, n + 2, 1);
      SameRestWalk(c, n + 2, n + 2);
    }
  }

  lemma SwapEdits(c: Comparison, w: seq<Line>, n: nat)
    requires n <= Run(c, 0, 0) && Swapped(c, n) && !NextMatches(c, n)
    ensures DiffOf(c, w) == [Add(n, c.ar2[n]), Del(n + 1, LineAt(w, n + 1))]
  {
    SameStartWalk(c, 0, 0, n);
    SwapWalk(c, n);
    if n + 2 < |c.ar1| {
      assert [n + 1] == Range(n + 1, n + 2) && [n] == Range(n, n + 1);
      TwoRuns(n + 1, n + 2, n, n + 1, w, c.ar2);
      NoTails(c, w);
    } else {
      assert Merge(Dels([], w), Adds([n], c.ar2), -2, -2) == Adds([n], c.ar2);
    }
  }

  /** Otherwise line n + 1 of the first list is kept, or line n of it is not. */
  lemma SwapSeenDifferently(c: Comparison, w: seq<Line>, n: nat)
    requires n <= Run(c, 0, 0) && Swapped(c, n) && NextMatches(c, n)
    ensures DiffOf(c, w) != [Add(n, c.ar2[n]), Del(n + 1, LineAt(w, n + 1))]
  {
    SameStartWalk(c, 0, 0, n);
    DiffHoldsEachEditOnce(c, w);
    RemovedOfPair(Add(n, c.ar2[n]), Del(n + 1, LineAt(w, n + 1)));
    SwapRemovals(c, n);
  }

  lemma SwapRemovals(c: Comparison, n: nat)
    requires Swapped(c, n) && NextMatches(c, n)
    ensures Removals(c, n, n) == [] || Removals(c, n, n)[0] != n + 1
  {
    if Decide(c, n, n) == Insert {
      assert Walk(c, n, n + 1) == Walk(c, n + 1, n + 2) == Walk(c, n + 2, n + 3);
      RemovalsIncrease(c, n + 2, n + 3);
    }
  }

  lemma RemovedOfPair(e: Edit, f: Edit)
    requires e.Add? && f.Del?
    ensures Removed([e, f]) == [f]
  {
    OfKindConcat([e], [f], true);
    OfKindUniform([e], false, true);
    OfKindUniform([f], true, true);
    assert [e] + [f] == [e, f] && [] + [f] == [f];
  }

  /** Two neighbouring lines that have changed places, in texts of any length. The upper one of the new
      text is shown as added and the lower one of the old text as removed if and only if the line after
      them does not match the one that has moved up. */
  lemma SwappedLinesIff(c: Comparison, w: seq<Line>, n: nat)
    requires n <= Run(c, 0, 0) && Swapped(c, n)
    ensures DiffOf(c, w) == [Add(n, c.ar2[n]), Del(n + 1, LineAt(w, n + 1))] <==> !NextMatches(c, n)
  {
    if NextMatches(c, n) { SwapSeenDifferently(c, w, n); } else { SwapEdits(c, w, n); }
  }

  /** In literal texts. */
  lemma SwappedLinesEdits(before: seq<Line>, x: Line, y: Line, after: seq<Line>, w: seq<Line>)
    requires x != y
    ensures var c, n := Comparison(before + [x, y] + after, before + [y, x] + after, Literal), |before|;
            DiffOf(c, w) == [Add(n, y), Del(n + 1, LineAt(w, n + 1))] <==> after == [] || after[0] != y
  {
    var c, n := Comparison(before + [x, y] + after, before + [y, x] + after, Literal), |before|;
    CommonRun(c, 0, 0, n);
    CommonRun(c, n + 2, n + 2, |after|);
    SwappedLinesIff(c, w, n);
  }

  lemma TwoLines(x: Line, y: Line)
    requires '\n' !in x && '\n' !in y
    ensures Explode(x + "\n" + y) == [x, y]
  {
    ExplodeImplode([x, y]);
    assert [x, y][1..] == [y];
  }

  lemma TwoEditsShown()
    ensures Printed([Add(0, "b"), Del(1, "b")]) == "001+ b\r\n002- b"
  {
    var es := [Add(0, "b"), Del(1, "b")];
    assert Decimal(1) == "1" && Decimal(2) == "2";
    assert Fill('0', 2) == "00";
    assert Show(es[0]) == "001+ b" && Show(es[1]) == "002- b";
    assert ShowAll(es)[1..] == ["002- b"];
    assert "001+ b" + "\r\n" + "002- b" == "001+ b\r\n002- b";
  }

  lemma TwoLinesSwapped(x: Line, y: Line, w: seq<Line>)
    requires x != y
    ensures DiffOf(Comparison([x, y], [y, x], Literal), w) == [Add(0, y), Del(1, LineAt(w, 1))]
  {
    assert [] + [x, y] + [] == [x, y] && [] + [y, x] + [] == [y, x];
    SwappedLinesEdits([], x, y, [], w);
  }

  lemma SmallestComparison()
    ensures Explode("a\nb") == ["a", "b"]
    ensures ComparisonOf("a\nb", Plain, "b\na") == Comparison(["a", "b"], ["b", "a"], Literal)
  {
    TwoLines("a", "b");
    TwoLines("b", "a");
    assert "a" + "\n" + "b" == "a\nb" && "b" + "\n" + "a" == "b\na";
  }

  /** As it is printed, for the smallest such texts. */
  lemma SwappedTextPrinted()
    ensures Printed(DiffOf(ComparisonOf("a\nb", Plain, "b\na"), Explode("a\nb"))) == "001+ b\r\n002- b"
  {
    SmallestComparison();
    TwoLinesSwapped("a", "b", ["a", "b"]);
    TwoEditsShown();
  }

  /** One line that has changed: the new line is printed before the old one. */
  lemma ChangedLineEdits(before: seq<Line>, x: Line, y: Line, after: seq<Line>, w: seq<Line>)
    requires x != y && x !in after && y !in after
    ensures var n := |before|;
            DiffOf(Comparison(before + [x] + after, before + [y] + after, Literal), w)
            == [Add(n, y), Del(n, LineAt(w, n))]
  {
    var c, n := Comparison(before + [x] + after, before + [y] + after, Literal), |before|;
    CommonRun(c, 0, 0, n);
    SameStartWalk(c, 0, 0, n);
    ChangedLineIsExchanged(c, before, x, y, after);
    ChangedLineWalk(c, n);
    TwoRuns(n, n + 1, n, n + 1, w, c.ar2);
    NoTails(c, w);
  }

  lemma ChangedLineIsExchanged(c: Comparison, before: seq<Line>, x: Line, y: Line, after: seq<Line>)
    requires c == Comparison(before + [x] + after, before + [y] + after, Literal)
    requires x != y && x !in after && y !in after
    ensures Exchanged(c, |before|, |before|, 1, 1)
  {
    LinesExchanged(c, before, [x], [y], after);
  }

  lemma ChangedLineWalk(c: Comparison, n: nat)
    requires Exchanged(c, n, n, 1, 1)
    ensures Walk(c, n, n) == Walked(Range(n, n + 1), Range(n, n + 1), |c.ar1|, |c.ar2|)
    ensures Range(n, n + 1) == [n]
  {
    if n + 1 == |c.ar1| {
      LastLineChanged(c, n);
    } else {
      ExchangeWalk(c, n, n, 1, 1);
    }
  }

  lemma LastLineChanged(c: Comparison, n: nat)
    requires |c.ar1| == |c.ar2| == n + 1 && !c.Same(n, n)
    ensures Walk(c, n, n) == Walked([n], [n], n + 1, n + 1)
  {
    ScoreSound(c, n + 1, n, LOOK_AHEAD);
    ScoreSound(c, n, n + 1, LOOK_AHEAD);
    assert Decide(c, n, n) == Replace;
  }
}

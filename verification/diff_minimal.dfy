/** How long the diff is: what it loses against the shortest, and how far the walk can see. */
module DiffMinimal {
  import opened Sequences
  import opened LineDiff
  import opened DiffScript
  import opened DiffReport

  // ----- the length of a diff -----

  lemma {:induction false} KindsPartition(es: seq<Edit>)
    ensures |Removed(es)| + |Added(es)| == |es|
  {
    if es != [] { KindsPartition(es[1..]); }
  }

  /** How many lines the walk from (i, j) on keeps. */
  function Keeps(c: Comparison, i: nat, j: nat): nat
    requires i <= |c.ar1| && j <= |c.ar2|
    decreases |c.ar1| - i + |c.ar2| - j
  {
    if i == |c.ar1| || j == |c.ar2| then 0 else
    match Decide(c, i, j)
    case Keep => Keeps(c, i + 1, j + 1) + 1
    case Remove => Keeps(c, i + 1, j)
    case Insert => Keeps(c, i, j + 1)
    case Replace => Keeps(c, i + 1, j + 1)
  }

  lemma {:induction false} KeptOrRemoved(c: Comparison, i: nat, j: nat)
    requires i <= |c.ar1| && j <= |c.ar2|
    ensures Keeps(c, i, j) + |Walk(c, i, j).dels| == Walk(c, i, j).end1 - i
    decreases |c.ar1| - i + |c.ar2| - j
  {
    if i < |c.ar1| && j < |c.ar2| {
      match Decide(c, i, j)
      case Remove => KeptOrRemoved(c, i + 1, j);
      case Insert => KeptOrRemoved(c, i, j + 1);
      case _ => KeptOrRemoved(c, i + 1, j + 1);
    }
  }

  lemma {:induction false} KeptOrAdded(c: Comparison, i: nat, j: nat)
    requires i <= |c.ar1| && j <= |c.ar2|
    ensures Keeps(c, i, j) + |Walk(c, i, j).adds| == Walk(c, i, j).end2 - j
    decreases |c.ar1| - i + |c.ar2| - j
  {
    if i < |c.ar1| && j < |c.ar2| {
      match Decide(c, i, j)
      case Remove => KeptOrAdded(c, i + 1, j);
      case Insert => KeptOrAdded(c, i, j + 1);
      case _ => KeptOrAdded(c, i + 1, j + 1);
    }
  }

  /** Every line not kept is printed. */
  lemma PrintedOrKept(c: Comparison, w: seq<Line>)
    ensures |DiffOf(c, w)| == |c.ar1| + |c.ar2| - 2 * Keeps(c, 0, 0)
  {
    DiffHoldsEachEditOnce(c, w);
    KindsPartition(DiffOf(c, w));
    KeptOrRemoved(c, 0, 0);
    KeptOrAdded(c, 0, 0);
  }

  /** By how much a move shortens the longest common subsequence of the lines that remain; keeping a
      match never costs anything. */
  ghost function StepLoss(c: Comparison, i: nat, j: nat): nat
    requires i < |c.ar1| && j < |c.ar2|
  {
    LcsSkip(c, i, j);
    LcsSkip(c, i + 1, j);
    match Decide(c, i, j)
    case Keep => 0
    case Remove => Lcs(c, i, j) - Lcs(c, i + 1, j)
    case Insert => Lcs(c, i, j) - Lcs(c, i, j + 1)
    case Replace => Lcs(c, i, j) - Lcs(c, i + 1, j + 1)
  }

  /** The same for the whole walk from (i, j) on. */
  ghost function Loss(c: Comparison, i: nat, j: nat): nat
    requires i <= |c.ar1| && j <= |c.ar2|
    decreases |c.ar1| - i + |c.ar2| - j
  {
    if i == |c.ar1| || j == |c.ar2| then 0 else
    match Decide(c, i, j)
    case Keep => Loss(c, i + 1, j + 1)
    case Remove => StepLoss(c, i, j) + Loss(c, i + 1, j)
    case Insert => StepLoss(c, i, j) + Loss(c, i, j + 1)
    case Replace => StepLoss(c, i, j) + Loss(c, i + 1, j + 1)
  }

  lemma {:induction false} KeptAndLost(c: Comparison, i: nat, j: nat)
    requires i <= |c.ar1| && j <= |c.ar2|
    ensures Keeps(c, i, j) + Loss(c, i, j) == Lcs(c, i, j)
    decreases |c.ar1| - i + |c.ar2| - j
  {
    if i < |c.ar1| && j < |c.ar2| {
      match Decide(c, i, j)
      case Keep =>
        KeptAndLost(c, i + 1, j + 1);
        LcsMatch(c, i, j);
      case Remove => KeptAndLost(c, i + 1, j);
      case Insert => KeptAndLost(c, i, j + 1);
      case Replace => KeptAndLost(c, i + 1, j + 1);
    }
  }

  /** The diff is longer than the one a longest common subsequence would give by exactly twice what the
      moves of the walk have lost. */
  lemma DiffLength(c: Comparison, w: seq<Line>)
    ensures |DiffOf(c, w)| == |c.ar1| + |c.ar2| - 2 * Lcs(c, 0, 0) + 2 * Loss(c, 0, 0)
  {
    PrintedOrKept(c, w);
    KeptAndLost(c, 0, 0);
  }

  /** At every mismatch the walk comes to, the two scores it asks for are the true ones. */
  ghost predicate SeesClearly(c: Comparison, i: nat, j: nat)
    requires i <= |c.ar1| && j <= |c.ar2|
    decreases |c.ar1| - i + |c.ar2| - j
  {
    i < |c.ar1| && j < |c.ar2| ==>
      && (Decide(c, i, j) != Keep ==> Score(c, i + 1, j, LOOK_AHEAD) == Lcs(c, i + 1, j)
                                      && Score(c, i, j + 1, LOOK_AHEAD) == Lcs(c, i, j + 1))
      && match Decide(c, i, j)
         case Remove => SeesClearly(c, i + 1, j)
         case Insert => SeesClearly(c, i, j + 1)
         case _ => SeesClearly(c, i + 1, j + 1)
  }

  lemma SeeingStep(c: Comparison, i: nat, j: nat)
    requires i < |c.ar1| && j < |c.ar2| && SeesClearly(c, i, j)
    ensures StepLoss(c, i, j) == 0
  {
    LcsSkip(c, i + 1, j);
  }

  /** Where the walk sees clearly, nothing is lost: the diff is as short as any. */
  lemma {:induction false} SeeingLosesNothing(c: Comparison, i: nat, j: nat)
    requires i <= |c.ar1| && j <= |c.ar2| && SeesClearly(c, i, j)
    ensures Loss(c, i, j) == 0
    decreases |c.ar1| - i + |c.ar2| - j
  {
    if i < |c.ar1| && j < |c.ar2| {
      SeeingStep(c, i, j);
      match Decide(c, i, j)
      case Remove => SeeingLosesNothing(c, i + 1, j);
      case Insert => SeeingLosesNothing(c, i, j + 1);
      case _ => SeeingLosesNothing(c, i + 1, j + 1);
    }
  }

  // ----- how far a score sees -----

  /** No line of ar1 from i on matches a line of ar2 from j on, as far as the budget reaches: half as
      far in ar1 as in ar2. */
  ghost predicate NoMatchInSight(c: Comparison, i: nat, j: nat, steps: real) {
    forall p: nat, q: nat ::
      && i <= p < |c.ar1| && (p == i || (p - i) as real < (steps + 1.0) / 2.0)
      && j <= q < |c.ar2| && (q == j || (q - j) as real < steps)
      ==> !c.Same(p, q)
  }

  /** What is out of sight does not count. */
  lemma {:induction false} BlindOutOfSight(c: Comparison, i: nat, j: nat, steps: real)
    requires i <= |c.ar1| && j <= |c.ar2| && NoMatchInSight(c, i, j, steps)
    ensures Score(c, i, j, steps) == 0
    decreases |c.ar1| - i + |c.ar2| - j, 1, 0
  {
    if steps - 1.0 > 0.0 {
      BlindSkip1(c, i, j, steps, i + 1, (steps - 1.0) / 2.0);
      BlindSkip2(c, i, j, steps, j + 1, steps - 1.0);
    }
  }

  lemma {:induction false} BlindSkip1(c: Comparison, i: nat, j: nat, steps: real, ofs: nat, st: real)
    requires i < ofs <= |c.ar1| + 1 && j <= |c.ar2| && NoMatchInSight(c, i, j, steps)
    requires steps > 1.0 && st == (steps - 1.0) / 2.0 - (ofs - i - 1) as real
    ensures BestSkip1(c, ofs, j, st) == 0
    decreases |c.ar1| - ofs + |c.ar2| - j, 2, |c.ar1| + 1 - ofs
  {
    if ofs < |c.ar1| && st > 0.0 {
      BlindOutOfSight(c, ofs, j, st - 1.0);
      BlindSkip1(c, i, j, steps, ofs + 1, st - 1.0);
    }
  }

  lemma {:induction false} BlindSkip2(c: Comparison, i: nat, j: nat, steps: real, ofs: nat, st: real)
    requires i <= |c.ar1| && j < ofs <= |c.ar2| + 1 && NoMatchInSight(c, i, j, steps)
    requires st == steps - (ofs - j) as real
    ensures BestSkip2(c, i, ofs, st) == 0
    decreases |c.ar1| - i + |c.ar2| - ofs, 2, |c.ar2| + 1 - ofs
  {
    if ofs < |c.ar2| && st > 0.0 {
      BlindOutOfSight(c, i, ofs, st - 1.0);
      BlindSkip2(c, i, j, steps, ofs + 1, st - 1.0);
    }
  }

  /** Skipping lines of ar1 reaches every line that is nearer than the budget. */
  lemma {:induction false} Skip1Reaches(c: Comparison, ofs: nat, j: nat, st: real, target: nat)
    requires ofs <= target < |c.ar1| && j <= |c.ar2| && (target - ofs) as real < st
    ensures BestSkip1(c, ofs, j, st) >= Run(c, target, j)
    decreases target - ofs
  {
    if ofs < target { Skip1Reaches(c, ofs + 1, j, st - 1.0, target); }
  }

  lemma {:induction false} Skip2Reaches(c: Comparison, i: nat, ofs: nat, st: real, target: nat)
    requires i <= |c.ar1| && ofs <= target < |c.ar2| && (target - ofs) as real < st
    ensures BestSkip2(c, i, ofs, st) >= Run(c, i, target)
    decreases target - ofs
  {
    if ofs < target { Skip2Reaches(c, i, ofs + 1, st - 1.0, target); }
  }

  lemma ScoreReaches1(c: Comparison, i: nat, j: nat, target: nat)
    requires i <= target < |c.ar1| && target <= i + 5 && j <= |c.ar2|
    requires i < target ==> Run(c, i, j) == 0
    ensures Score(c, i, j, LOOK_AHEAD) >= Run(c, target, j)
  {
    if i < target { Skip1Reaches(c, i + 1, j, (LOOK_AHEAD - 1.0) / 2.0, target); }
  }

  lemma ScoreReaches2(c: Comparison, i: nat, j: nat, target: nat)
    requires i <= |c.ar1| && j <= target < |c.ar2| && target <= j + 9
    requires j < target ==> Run(c, i, j) == 0
    ensures Score(c, i, j, LOOK_AHEAD) >= Run(c, i, target)
  {
    if j < target { Skip2Reaches(c, i, j + 1, LOOK_AHEAD - 1.0, target); }
  }

  lemma {:induction false} LcsWithin(c: Comparison, i: nat, j: nat)
    requires i <= |c.ar1| && j <= |c.ar2|
    ensures Lcs(c, i, j) <= |c.ar1| - i && Lcs(c, i, j) <= |c.ar2| - j
    decreases |c.ar1| - i + |c.ar2| - j
  {
    if i < |c.ar1| && j < |c.ar2| {
      LcsWithin(c, i + 1, j);
      LcsWithin(c, i, j + 1);
      LcsSkip(c, i, j);
    }
  }

  // ----- one block of lines put in, or taken out -----

  /** No line of ar1 in [i, i') matches a line of ar2 in [j, j'). */
  ghost predicate NoneMatch(c: Comparison, i: nat, i': nat, j: nat, j': nat)
    requires i' <= |c.ar1| && j' <= |c.ar2|
  {
    forall p, q :: i <= p < i' && j <= q < j' ==> !c.Same(p, q)
  }

  /** The walk keeps everything two equal beginnings have in common. */
  lemma MatchIsKept(c: Comparison, i: nat, j: nat)
    requires i < |c.ar1| && j < |c.ar2| && c.Same(i, j)
    ensures Keeps(c, i, j) == Keeps(c, i + 1, j + 1) + 1
  {
  }

  lemma {:induction false} RunIsKept(c: Comparison, i: nat, j: nat, n: nat)
    requires i <= |c.ar1| && j <= |c.ar2| && n <= Run(c, i, j)
    ensures Keeps(c, i, j) == n + Keeps(c, i + n, j + n)
    decreases n
  {
    if n > 0 {
      MatchIsKept(c, i, j);
      RunIsKept(c, i + 1, j + 1, n - 1);
    }
  }

  lemma PrintedBehindStart(c: Comparison, w: seq<Line>, start: nat)
    requires start <= Run(c, 0, 0)
    ensures |DiffOf(c, w)| == |c.ar1| + |c.ar2| - 2 * start - 2 * Keeps(c, start, start)
  {
    PrintedOrKept(c, w);
    RunIsKept(c, 0, 0, start);
  }

  /** The rest of ar1 is found in ar2 behind k more lines; if there are several of them, none
      matches a line of that rest. */
  ghost predicate PutIn(c: Comparison, i: nat, j: nat, k: nat) {
    && i <= |c.ar1| && |c.ar1| - i == |c.ar2| - (j + k) == Run(c, i, j + k)
    && (k >= 2 ==> NoneMatch(c, i, |c.ar1|, j, j + k))
  }

  lemma NearInsertionSeen(c: Comparison, i: nat, j: nat, k: nat)
    requires PutIn(c, i, j, k) && i < |c.ar1| && 1 <= k <= 10 && !c.Same(i, j)
    ensures Decide(c, i, j) == Insert
  {
    ScoreReaches2(c, i, j + 1, j + k);
    ScoreSound(c, i + 1, j, LOOK_AHEAD);
    LcsWithin(c, i + 1, j);
  }

  lemma {:induction false} NearInsertionKept(c: Comparison, i: nat, j: nat, k: nat)
    requires PutIn(c, i, j, k) && k <= 10
    ensures Keeps(c, i, j) == |c.ar1| - i
    decreases |c.ar1| - i + k
  {
    if i == |c.ar1| {
    } else if c.Same(i, j) {
      NearInsertionKept(c, i + 1, j + 1, k);
    } else {
      NearInsertionSeen(c, i, j, k);
      NearInsertionKept(c, i, j + 1, k - 1);
    }
  }

  lemma FarInsertionMissed(c: Comparison, i: nat, j: nat, k: nat)
    requires PutIn(c, i, j, k) && i < |c.ar1| && k > 10
    ensures Keeps(c, i, j) < |c.ar1| - i
  {
    BlindOutOfSight(c, i + 1, j, LOOK_AHEAD);
    BlindOutOfSight(c, i, j + 1, LOOK_AHEAD);
    assert Decide(c, i, j) == Replace;
    KeptAndLost(c, i + 1, j + 1);
    LcsWithin(c, i + 1, j + 1);
  }

  lemma InsertionKeptIff(c: Comparison, i: nat, j: nat, k: nat)
    requires PutIn(c, i, j, k)
    ensures Keeps(c, i, j) == |c.ar1| - i <==> k <= 10 || i == |c.ar1|
  {
    if k <= 10 {
      NearInsertionKept(c, i, j, k);
    } else if i < |c.ar1| {
      FarInsertionMissed(c, i, j, k);
    }
  }

  /** A block of k lines put in shows as exactly these k lines if it has at most 10 lines or nothing
      follows it, and only then. */
  lemma InsertedBlockIff(c: Comparison, w: seq<Line>, start: nat, k: nat)
    requires start <= Run(c, 0, 0) && PutIn(c, start, start, k)
    ensures |DiffOf(c, w)| == k <==> k <= 10 || start == |c.ar1|
  {
    PrintedBehindStart(c, w, start);
    InsertionKeptIff(c, start, start, k);
  }

  // ----- what matches and skips cost -----

  /** Every match of the initial run costs one step, and looking ahead one more: a line put in behind a
      run is seen exactly when the run leaves more than one step. */
  lemma RunSpendsBudget(c: Comparison, i: nat, j: nat, steps: real)
    requires i <= |c.ar1| && j <= |c.ar2|
    requires var e := Run(c, i, j); i + e < |c.ar1| && PutIn(c, i + e, j + e, 1)
    ensures Score(c, i, j, steps) == |c.ar1| - i <==> Run(c, i, j) as real < steps - 1.0
  {
    var e := Run(c, i, j);
    ScoreSound(c, i, j, steps);
    LcsWithin(c, i, j);
    if e as real < steps - 1.0 { Skip2Reaches(c, i + e, j + e + 1, steps - e as real - 1.0, j + e + 1); }
  }

  /** A line that matches nothing is missing from every common subsequence. */
  lemma {:induction false} LcsWithout(c: Comparison, i: nat, j: nat)
    requires i < |c.ar1| && j <= |c.ar2| && NoneMatch(c, i, i + 1, j, |c.ar2|)
    ensures Lcs(c, i, j) <= |c.ar1| - i - 1
    decreases |c.ar2| - j
  {
    if j < |c.ar2| {
      LcsWithout(c, i, j + 1);
      LcsWithin(c, i + 1, j);
    }
  }

  lemma {:induction false} LcsSkipsUnmatched(c: Comparison, i: nat, j: nat)
    requires i < |c.ar1| && j <= |c.ar2| && NoneMatch(c, i, i + 1, j, |c.ar2|)
    ensures Lcs(c, i, j) == Lcs(c, i + 1, j)
    decreases |c.ar2| - j
  {
    if j < |c.ar2| {
      LcsSkipsUnmatched(c, i, j + 1);
      LcsSkip(c, i + 1, j);
    }
  }

  lemma OtherSkips2(c: Comparison, i: nat, j: nat, st1: real, st2: real)
    requires i < |c.ar1| && j < |c.ar2| && NoneMatch(c, i, i + 1, j + 2, |c.ar2|)
    ensures BestSkip1(c, i + 1, j, st1) < |c.ar1| - i && BestSkip2(c, i, j + 2, st2) < |c.ar1| - i
  {
    BestSkip1Sound(c, i + 1, j, st1);
    LcsWithin(c, i + 1, j);
    BestSkip2Sound(c, i, j + 2, st2);
    if j + 2 <= |c.ar2| { LcsWithout(c, i, j + 2); }
  }

  lemma OtherSkips1(c: Comparison, i: nat, j: nat, st1: real, st2: real)
    requires i + 1 < |c.ar1| && j < |c.ar2| && NoneMatch(c, i, i + 2, j + 1, |c.ar2|)
    ensures BestSkip1(c, i + 2, j, st1) < |c.ar1| - i - 1 && BestSkip2(c, i, j + 1, st2) < |c.ar1| - i - 1
  {
    BestSkip1Sound(c, i + 2, j, st1);
    LcsWithin(c, i + 2, j);
    BestSkip2Sound(c, i, j + 1, st2);
    LcsSkipsUnmatched(c, i, j + 1);
    LcsWithout(c, i + 1, j + 1);
  }

  lemma ScoreAtMismatch(c: Comparison, i: nat, j: nat, steps: real)
    requires i < |c.ar1| && j < |c.ar2| && !c.Same(i, j)
    ensures var st := steps - 1.0;
            Score(c, i, j, steps) ==
            if st > 0.0 then Max(BestSkip1(c, i + 1, j, st / 2.0), BestSkip2(c, i, j + 1, st)) else 0
  {
    assert steps - Run(c, i, j) as real - 1.0 == steps - 1.0;
  }

  /** Where only the shortest skip can be worth n, it decides. */
  lemma OnlyFirstSkip2(c: Comparison, i: nat, j: nat, steps: real, n: nat)
    requires i < |c.ar1| && j < |c.ar2| && !c.Same(i, j)
    requires var st := steps - 1.0; BestSkip1(c, i + 1, j, st / 2.0) < n && BestSkip2(c, i, j + 2, st - 1.0) < n
    ensures var st := steps - 1.0;
            Score(c, i, j, steps) == n <==> st > 0.0 && j + 1 < |c.ar2| && Score(c, i, j + 1, st - 1.0) == n
  {
    ScoreAtMismatch(c, i, j, steps);
  }

  lemma OnlyFirstSkip1(c: Comparison, i: nat, j: nat, steps: real, n: nat)
    requires i < |c.ar1| && j < |c.ar2| && !c.Same(i, j)
    requires var st := (steps - 1.0) / 2.0;
             BestSkip1(c, i + 2, j, st - 1.0) < n && BestSkip2(c, i, j + 1, steps - 1.0) < n
    ensures var st := (steps - 1.0) / 2.0;
            Score(c, i, j, steps) == n <==> st > 0.0 && i + 1 < |c.ar1| && Score(c, i + 1, j, st - 1.0) == n
  {
    ScoreAtMismatch(c, i, j, steps);
  }

  /** Skipping one line of ar2 costs two steps, of the whole budget: with one line put in at once and
      another behind the run that follows, both are seen exactly when the run leaves more than three. */
  lemma SkipSpendsBudget2(c: Comparison, i: nat, j: nat, steps: real)
    requires i < |c.ar1| && j < |c.ar2| && !c.Same(i, j) && NoneMatch(c, i, i + 1, j + 2, |c.ar2|)
    requires var e := Run(c, i, j + 1); i + e < |c.ar1| && PutIn(c, i + e, j + 1 + e, 1)
    ensures Score(c, i, j, steps) == |c.ar1| - i <==> Run(c, i, j + 1) as real < steps - 3.0
  {
    var st := steps - 1.0;
    OtherSkips2(c, i, j, st / 2.0, st - 1.0);
    OnlyFirstSkip2(c, i, j, steps, |c.ar1| - i);
    RunSpendsBudget(c, i, j + 1, st - 1.0);
  }

  /** Skipping one line of ar1 leaves half of what is left: both lines are seen exactly when twice the
      run that follows leaves more than five steps. */
  lemma SkipSpendsBudget1(c: Comparison, i: nat, j: nat, steps: real)
    requires i + 1 < |c.ar1| && j < |c.ar2| && !c.Same(i, j) && NoneMatch(c, i, i + 2, j + 1, |c.ar2|)
    requires var e := Run(c, i + 1, j); i + 1 + e < |c.ar1| && PutIn(c, i + 1 + e, j + e, 1)
    ensures Score(c, i, j, steps) == |c.ar1| - i - 1 <==> 2.0 * Run(c, i + 1, j) as real < steps - 5.0
  {
    var st := (steps - 1.0) / 2.0;
    OtherSkips1(c, i, j, st - 1.0, steps - 1.0);
    OnlyFirstSkip1(c, i, j, steps, |c.ar1| - i - 1);
    RunSpendsBudget(c, i + 1, j, st - 1.0);
  }

  /** The rest of ar2 is found in ar1 behind k more lines. */
  ghost predicate TakenOut(c: Comparison, i: nat, j: nat, k: nat) {
    && j <= |c.ar2| && |c.ar2| - j == |c.ar1| - (i + k) == Run(c, i + k, j)
    && (k >= 2 ==> NoneMatch(c, i, i + k, j, |c.ar2|))
  }

  lemma NearRemovalSeen(c: Comparison, i: nat, j: nat, k: nat)
    requires TakenOut(c, i, j, k) && j < |c.ar2| && 1 <= k <= 6 && !c.Same(i, j)
    ensures Decide(c, i, j) == Remove
  {
    ScoreReaches1(c, i + 1, j, i + k);
    ScoreSound(c, i, j + 1, LOOK_AHEAD);
    LcsWithin(c, i, j + 1);
  }

  lemma {:induction false} NearRemovalKept(c: Comparison, i: nat, j: nat, k: nat)
    requires TakenOut(c, i, j, k) && k <= 6
    ensures Keeps(c, i, j) == |c.ar2| - j
    decreases |c.ar2| - j + k
  {
    if j == |c.ar2| {
    } else if c.Same(i, j) {
      NearRemovalKept(c, i + 1, j + 1, k);
    } else {
      NearRemovalSeen(c, i, j, k);
      NearRemovalKept(c, i + 1, j, k - 1);
    }
  }

  lemma FarRemovalMissed(c: Comparison, i: nat, j: nat, k: nat)
    requires TakenOut(c, i, j, k) && j < |c.ar2| && k > 6
    ensures Keeps(c, i, j) < |c.ar2| - j
  {
    BlindOutOfSight(c, i + 1, j, LOOK_AHEAD);
    BlindOutOfSight(c, i, j + 1, LOOK_AHEAD);
    assert Decide(c, i, j) == Replace;
    KeptAndLost(c, i + 1, j + 1);
    LcsWithin(c, i + 1, j + 1);
  }

  lemma RemovalKeptIff(c: Comparison, i: nat, j: nat, k: nat)
    requires TakenOut(c, i, j, k)
    ensures Keeps(c, i, j) == |c.ar2| - j <==> k <= 6 || j == |c.ar2|
  {
    if k <= 6 {
      NearRemovalKept(c, i, j, k);
    } else if j < |c.ar2| {
      FarRemovalMissed(c, i, j, k);
    }
  }

  /** A block taken out is recognised up to 6 lines only: the look-ahead in the first list has half
      the budget. */
  lemma RemovedBlockIff(c: Comparison, w: seq<Line>, start: nat, k: nat)
    requires start <= Run(c, 0, 0) && TakenOut(c, start, start, k)
    ensures |DiffOf(c, w)| == k <==> k <= 6 || start == |c.ar2|
  {
    PrintedBehindStart(c, w, start);
    RemovalKeptIff(c, start, start, k);
  }

  /** a lines of ar1 stand where ar2 has b others, none of them matching anything further on, and
      the rest is the same. */
  ghost predicate Exchanged(c: Comparison, i: nat, j: nat, a: nat, b: nat) {
    && i + a <= |c.ar1| && j + b <= |c.ar2|
    && |c.ar1| - (i + a) == |c.ar2| - (j + b) == Run(c, i + a, j + b)
    && NoneMatch(c, i, i + a, j, |c.ar2|) && NoneMatch(c, i + a, |c.ar1|, j, j + b)
  }

  /** More than 6 lines, or more than 10, hide what follows them. */
  lemma FarExchangeMissed(c: Comparison, i: nat, j: nat, a: nat, b: nat)
    requires Exchanged(c, i, j, a, b) && a >= 1 && b >= 1 && (a > 6 || b > 10)
    ensures Decide(c, i, j) == Replace
  {
    BlindOutOfSight(c, i + 1, j, LOOK_AHEAD);
    BlindOutOfSight(c, i, j + 1, LOOK_AHEAD);
    assert !c.Same(i, j);
  }

  /** Blind moves drop lines in pairs, so what counts is how much longer one side is. */
  predicate Balanced(a: nat, b: nat) { a <= b + 6 && b <= a + 10 }

  /** From (i, j) up to (i', j') the walk keeps nothing, and where much is left it drops lines in pairs. */
  ghost predicate DropsBlock(c: Comparison, i: nat, j: nat, i': nat, j': nat)
    requires i' <= |c.ar1| && j' <= |c.ar2|
  {
    forall p, q :: i <= p < i' && j <= q < j' ==>
      Decide(c, p, q) != Keep && (Decide(c, p, q) == Replace || (i' - p <= 6 && j' - q <= 10))
  }

  lemma ExchangeMove(c: Comparison, i: nat, j: nat, a: nat, b: nat)
    requires Exchanged(c, i, j, a, b) && a >= 1 && b >= 1
    ensures Decide(c, i, j) != Keep && (Decide(c, i, j) == Replace || (a <= 6 && b <= 10))
  {
    assert !c.Same(i, j);
    if a > 6 || b > 10 { FarExchangeMissed(c, i, j, a, b); }
  }

  lemma ExchangeDrops(c: Comparison, i: nat, j: nat, a: nat, b: nat)
    requires Exchanged(c, i, j, a, b)
    ensures DropsBlock(c, i, j, i + a, j + b)
  {
    forall p, q | i <= p < i + a && j <= q < j + b
      ensures Decide(c, p, q) != Keep && (Decide(c, p, q) == Replace || (i + a - p <= 6 && j + b - q <= 10))
    {
      ExchangeMove(c, p, q, i + a - p, j + b - q);
    }
  }

  /** Once one side of the block is done, the other decides. */
  ghost predicate SidesKept(c: Comparison, i: nat, j: nat, i': nat, j': nat)
    requires i' <= |c.ar1| && j' <= |c.ar2|
  {
    && (forall q :: j <= q <= j' ==> (Keeps(c, i', q) == |c.ar1| - i' <==> j' - q <= 10 || i' == |c.ar1|))
    && (forall p :: i <= p <= i' ==> (Keeps(c, p, j') == |c.ar1| - i' <==> i' - p <= 6 || i' == |c.ar1|))
  }

  lemma ExchangeSides(c: Comparison, i: nat, j: nat, a: nat, b: nat)
    requires Exchanged(c, i, j, a, b)
    ensures SidesKept(c, i, j, i + a, j + b)
  {
    var i', j' := i + a, j + b;
    forall q | j <= q <= j' ensures Keeps(c, i', q) == |c.ar1| - i' <==> j' - q <= 10 || i' == |c.ar1| {
      InsertionKeptIff(c, i', q, j' - q);
    }
    forall p | i <= p <= i' ensures Keeps(c, p, j') == |c.ar1| - i' <==> i' - p <= 6 || i' == |c.ar1| {
      RemovalKeptIff(c, p, j', i' - p);
    }
  }

  lemma BlockMove(c: Comparison, i: nat, j: nat, i': nat, j': nat)
    requires i < i' <= |c.ar1| && j < j' <= |c.ar2| && DropsBlock(c, i, j, i', j')
    ensures Decide(c, i, j) != Keep && (Decide(c, i, j) == Replace || (i' - i <= 6 && j' - j <= 10))
  {
  }

  lemma SideKeptIff(c: Comparison, i: nat, j: nat, i': nat, j': nat)
    requires i <= i' <= |c.ar1| && j <= j' <= |c.ar2| && (i == i' || j == j') && SidesKept(c, i, j, i', j')
    ensures Keeps(c, i, j) == |c.ar1| - i' <==> Balanced(i' - i, j' - j) || i' == |c.ar1|
  {
  }

  lemma {:induction false} BlockKeptIff(c: Comparison, i: nat, j: nat, i': nat, j': nat)
    requires i <= i' <= |c.ar1| && j <= j' <= |c.ar2| && DropsBlock(c, i, j, i', j') && SidesKept(c, i, j, i', j')
    ensures Keeps(c, i, j) == |c.ar1| - i' <==> Balanced(i' - i, j' - j) || i' == |c.ar1|
    decreases i' - i + j' - j
  {
    if i == i' || j == j' {
      SideKeptIff(c, i, j, i', j');
    } else {
      BlockMove(c, i, j, i', j');
      match Decide(c, i, j)
      case Remove => BlockKeptIff(c, i + 1, j, i', j');
      case Insert => BlockKeptIff(c, i, j + 1, i', j');
      case Replace => BlockKeptIff(c, i + 1, j + 1, i', j');
    }
  }

  lemma ExchangeKeptIff(c: Comparison, i: nat, j: nat, a: nat, b: nat)
    requires Exchanged(c, i, j, a, b)
    ensures Keeps(c, i, j) == |c.ar1| - (i + a) <==> Balanced(a, b) || i + a == |c.ar1|
  {
    ExchangeDrops(c, i, j, a, b);
    ExchangeSides(c, i, j, a, b);
    BlockKeptIff(c, i, j, i + a, j + b);
  }

  /** Lines exchanged for others show as exactly these lines if neither side is much longer than the
      other or nothing follows them, and only then. */
  lemma ExchangedBlockIff(c: Comparison, w: seq<Line>, start: nat, a: nat, b: nat)
    requires start <= Run(c, 0, 0) && Exchanged(c, start, start, a, b)
    ensures |DiffOf(c, w)| == a + b <==> Balanced(a, b) || start + a == |c.ar1|
  {
    PrintedBehindStart(c, w, start);
    ExchangeKeptIff(c, start, start, a, b);
  }

  // ----- the same for literal texts -----

  lemma {:induction false} CommonRun(c: Comparison, i: nat, j: nat, n: nat)
    requires c.mode.Literal? && i + n <= |c.ar1| && j + n <= |c.ar2|
    requires c.ar1[i..i + n] == c.ar2[j..j + n]
    ensures Run(c, i, j) >= n
    decreases n
  {
    if n > 0 {
      assert c.ar1[i] == c.ar1[i..i + n][0] == c.ar2[j..j + n][0] == c.ar2[j];
      assert c.ar1[i + 1..i + n] == c.ar1[i..i + n][1..];
      assert c.ar2[j + 1..j + n] == c.ar2[j..j + n][1..];
      CommonRun(c, i + 1, j + 1, n - 1);
    }
  }

  function Longer(before: seq<Line>, lines: seq<Line>, after: seq<Line>): seq<Line> { before + lines + after }

  /** No line of xs is a line of ys. */
  ghost predicate Apart(xs: seq<Line>, ys: seq<Line>) { forall x :: x in xs ==> x !in ys }

  lemma ApartAt(xs: seq<Line>, ys: seq<Line>, p: nat, q: nat)
    requires Apart(xs, ys) && p < |xs| && q < |ys|
    ensures xs[p] != ys[q]
  {
    assert xs[p] in xs && ys[q] in ys;
  }

  lemma LinesPutIn(c: Comparison, before: seq<Line>, lines: seq<Line>, after: seq<Line>)
    requires c == Comparison(before + after, Longer(before, lines, after), Literal)
    requires |lines| >= 2 ==> Apart(lines, after)
    ensures PutIn(c, |before|, |before|, |lines|)
  {
    var n, m := |before|, |before| + |lines|;
    CommonRun(c, n, m, |after|);
    forall p, q | |lines| >= 2 && n <= p < |c.ar1| && n <= q < m ensures !c.Same(p, q) {
      ApartAt(lines, after, q - n, p - n);
    }
  }

  lemma LinesTakenOut(c: Comparison, before: seq<Line>, lines: seq<Line>, after: seq<Line>)
    requires c == Comparison(Longer(before, lines, after), before + after, Literal)
    requires |lines| >= 2 ==> Apart(lines, after)
    ensures TakenOut(c, |before|, |before|, |lines|)
  {
    var n, m := |before|, |before| + |lines|;
    CommonRun(c, m, n, |after|);
    forall p, q | |lines| >= 2 && n <= p < m && n <= q < |c.ar2| ensures !c.Same(p, q) {
      ApartAt(lines, after, p - n, q - n);
    }
  }

  /** Lines put in anywhere: a single line whatever it says, several if none of them occurs again
      further down. */
  lemma InsertedLinesDiff(before: seq<Line>, lines: seq<Line>, after: seq<Line>, w: seq<Line>)
    requires |lines| >= 2 ==> Apart(lines, after)
    ensures |DiffOf(Comparison(before + after, Longer(before, lines, after), Literal), w)| == |lines|
            <==> |lines| <= 10 || after == []
  {
    var c := Comparison(before + after, Longer(before, lines, after), Literal);
    CommonRun(c, 0, 0, |before|);
    LinesPutIn(c, before, lines, after);
    InsertedBlockIff(c, w, |before|, |lines|);
  }

  /** Lines taken out anywhere. */
  lemma RemovedLinesDiff(before: seq<Line>, lines: seq<Line>, after: seq<Line>, w: seq<Line>)
    requires |lines| >= 2 ==> Apart(lines, after)
    ensures |DiffOf(Comparison(Longer(before, lines, after), before + after, Literal), w)| == |lines|
            <==> |lines| <= 6 || after == []
  {
    var c := Comparison(Longer(before, lines, after), before + after, Literal);
    CommonRun(c, 0, 0, |before|);
    LinesTakenOut(c, before, lines, after);
    RemovedBlockIff(c, w, |before|, |lines|);
  }

  lemma LinesExchanged(c: Comparison, before: seq<Line>, xs: seq<Line>, ys: seq<Line>, after: seq<Line>)
    requires c == Comparison(Longer(before, xs, after), Longer(before, ys, after), Literal)
    requires Apart(xs, ys) && Apart(xs, after) && Apart(ys, after)
    ensures Exchanged(c, |before|, |before|, |xs|, |ys|)
  {
    var n, m1, m2 := |before|, |before| + |xs|, |before| + |ys|;
    CommonRun(c, m1, m2, |after|);
    forall p, q | n <= p < m1 && n <= q < |c.ar2| ensures !c.Same(p, q) {
      if q < m2 { ApartAt(xs, ys, p - n, q - n); } else { ApartAt(xs, after, p - n, q - m2); }
    }
    forall p, q | m1 <= p < |c.ar1| && n <= q < m2 ensures !c.Same(p, q) {
      ApartAt(ys, after, q - n, p - m1);
    }
  }

  /** Lines exchanged for others anywhere. */
  lemma ExchangedLinesDiff(before: seq<Line>, xs: seq<Line>, ys: seq<Line>, after: seq<Line>, w: seq<Line>)
    requires Apart(xs, ys) && Apart(xs, after) && Apart(ys, after)
    ensures |DiffOf(Comparison(Longer(before, xs, after), Longer(before, ys, after), Literal), w)| == |xs| + |ys|
            <==> Balanced(|xs|, |ys|) || after == []
  {
    var c := Comparison(Longer(before, xs, after), Longer(before, ys, after), Literal);
    CommonRun(c, 0, 0, |before|);
    LinesExchanged(c, before, xs, ys, after);
    ExchangedBlockIff(c, w, |before|, |xs|, |ys|);
  }

  /** After seven or more unrelated lines the one common line is missed, and everything is replaced. */
  lemma OneLineMissed(xs: seq<Line>, k: Line, w: seq<Line>)
    requires |xs| > 6 && k !in xs
    ensures var c := Comparison(xs + [k], [k], Literal);
            |DiffOf(c, w)| == |xs| + 2 && |c.ar1| + |c.ar2| - 2 * Lcs(c, 0, 0) == |xs|
  {
    var c := Comparison(xs + [k], [k], Literal);
    assert NoneMatch(c, 0, |xs|, 0, 1);
    assert c.ar1[|xs|] == k && Run(c, |xs|, 0) == 1;
    RemovedBlockIff(c, w, 0, |xs|);
    PrintedOrKept(c, w);
    KeptAndLost(c, 0, 0);
    LcsWithin(c, 0, 0);
    LcsIsUpperBound(c, 0, 0, [(|xs|, 0)]);
  }

  /** So the diff is not always as short as possible. */
  lemma DiffNotAlwaysMinimal()
    ensures var c := Comparison(seq(7, _ => "x") + ["k"], ["k"], Literal);
            |DiffOf(c, c.ar1)| == 9 && |c.ar1| + |c.ar2| - 2 * Lcs(c, 0, 0) == 7
  {
    OneLineMissed(seq(7, _ => "x"), "k", seq(7, _ => "x") + ["k"]);
  }
}

/** The line diff of the test runner: the bounded look-ahead score, the greedy walk it
    steers, and the merge of the two ordered lists of edits. */
module LineDiff {

  type Line = string

  /** How a pattern line is compared with an output line: literally, or by an arbitrary
      relation standing for the regular-expression engine. */
  datatype Mode = Literal | Regex(matches: (Line, Line) -> bool)

  predicate CompLine(l1: Line, l2: Line, mode: Mode) {
    match mode
    case Literal => l1 == l2
    case Regex(matches) => matches(l1, l2)
  }

  /** What one comparison works on: the pattern lines, the output lines and the mode. */
  datatype Comparison = Comparison(ar1: seq<Line>, ar2: seq<Line>, mode: Mode) {
    predicate Same(i: nat, j: nat)
      requires i < |ar1| && j < |ar2|
    {
      CompLine(ar1[i], ar2[j], mode)
    }
  }

  function Max(x: nat, y: nat): nat { if x > y then x else y }

  // ----- the look-ahead score -----

  /** Length of the run of matching pairs that starts at (i, j). */
  function Run(c: Comparison, i: nat, j: nat): (e: nat)
    requires i <= |c.ar1| && j <= |c.ar2|
    ensures i + e <= |c.ar1| && j + e <= |c.ar2|
    ensures i + e < |c.ar1| && j + e < |c.ar2| ==> !c.Same(i + e, j + e)
    decreases |c.ar1| - i
  {
    if i < |c.ar1| && j < |c.ar2| && c.Same(i, j) then Run(c, i + 1, j + 1) + 1 else 0
  }

  /** The score of the suffixes a[i..] and b[j..] under a step budget: the initial run, then what
      the look-ahead finds beyond the first mismatch. */
  function Score(c: Comparison, i: nat, j: nat, steps: real): nat
    requires i <= |c.ar1| && j <= |c.ar2|
    decreases |c.ar1| - i + |c.ar2| - j, 2, 0
  {
    var e := Run(c, i, j);
    e + LookAhead(c, i + e, j + e, steps - e as real - 1.0)
  }

  /** The better of the best score after skipping lines of a, on half the budget, and the best
      after skipping lines of b, on all of it. */
  function LookAhead(c: Comparison, i: nat, j: nat, budget: real): nat
    requires i <= |c.ar1| && j <= |c.ar2|
    decreases |c.ar1| - i + |c.ar2| - j, 1, 0
  {
    if budget > 0.0 then
      Max(BestSkip1(c, i + 1, j, budget / 2.0), BestSkip2(c, i, j + 1, budget))
    else 0
  }

  /** Best score over the positions ofs, ofs + 1, ... of a, the budget falling by one each time. */
  function BestSkip1(c: Comparison, ofs: nat, j: nat, st: real): nat
    requires ofs <= |c.ar1| + 1 && j <= |c.ar2|
    decreases |c.ar1| - ofs + |c.ar2| - j, 3, |c.ar1| + 1 - ofs
  {
    if ofs < |c.ar1| && st > 0.0 then
      Max(Score(c, ofs, j, st - 1.0), BestSkip1(c, ofs + 1, j, st - 1.0))
    else 0
  }

  /** Best score over the positions ofs, ofs + 1, ... of b. */
  function BestSkip2(c: Comparison, i: nat, ofs: nat, st: real): nat
    requires i <= |c.ar1| && ofs <= |c.ar2| + 1
    decreases |c.ar1| - i + |c.ar2| - ofs, 3, |c.ar2| + 1 - ofs
  {
    if ofs < |c.ar2| && st > 0.0 then
      Max(Score(c, i, ofs, st - 1.0), BestSkip2(c, i, ofs + 1, st - 1.0))
    else 0
  }

  method CountArrayDiff(c: Comparison, i: nat, j: nat, steps: real) returns (equal: nat)
    requires i <= |c.ar1| && j <= |c.ar2|
    ensures equal == Score(c, i, j, steps)
    decreases |c.ar1| - i + |c.ar2| - j, 1
  {
    var idx1, idx2, left := i, j, steps;
    equal := 0;
    while idx1 < |c.ar1| && idx2 < |c.ar2| && c.Same(idx1, idx2)
      invariant idx1 == i + equal <= |c.ar1| && idx2 == j + equal <= |c.ar2|
      invariant left == steps - equal as real
      invariant Run(c, i, j) == equal + Run(c, idx1, idx2)
      decreases |c.ar1| - idx1
    {
      idx1, idx2, equal, left := idx1 + 1, idx2 + 1, equal + 1, left - 1.0;
    }
    assert equal == Run(c, i, j);
    left := left - 1.0;
    if left > 0.0 {
      var eq1 := TrySkipping1(c, idx1, idx2, left / 2.0);
      var eq2 := TrySkipping2(c, idx1, idx2, left);
      if eq1 > eq2 {
        equal := equal + eq1;
      } else if eq2 > 0 {
        equal := equal + eq2;
      }
    }
  }

  /** The first inner loop: skip more and more lines of ar1. */
  method TrySkipping1(c: Comparison, idx1: nat, idx2: nat, budget: real) returns (eq1: nat)
    requires idx1 <= |c.ar1| && idx2 <= |c.ar2|
    ensures eq1 == BestSkip1(c, idx1 + 1, idx2, budget)
    decreases |c.ar1| - idx1 + |c.ar2| - idx2, 0
  {
    eq1 := 0;
    var st, ofs1 := budget, idx1 + 1;
    while ofs1 < |c.ar1| && st > 0.0
      invariant idx1 < ofs1 <= |c.ar1| + 1
      invariant BestSkip1(c, idx1 + 1, idx2, budget) == Max(eq1, BestSkip1(c, ofs1, idx2, st))
      decreases |c.ar1| - ofs1
    {
      st := st - 1.0;
      var eq := CountArrayDiff(c, ofs1, idx2, st);
      if eq > eq1 { eq1 := eq; }
      ofs1 := ofs1 + 1;
    }
  }

  /** The second inner loop: skip more and more lines of ar2. */
  method TrySkipping2(c: Comparison, idx1: nat, idx2: nat, budget: real) returns (eq2: nat)
    requires idx1 <= |c.ar1| && idx2 <= |c.ar2|
    ensures eq2 == BestSkip2(c, idx1, idx2 + 1, budget)
    decreases |c.ar1| - idx1 + |c.ar2| - idx2, 0
  {
    eq2 := 0;
    var st, ofs2 := budget, idx2 + 1;
    while ofs2 < |c.ar2| && st > 0.0
      invariant idx2 < ofs2 <= |c.ar2| + 1
      invariant BestSkip2(c, idx1, idx2 + 1, budget) == Max(eq2, BestSkip2(c, idx1, ofs2, st))
      decreases |c.ar2| - ofs2
    {
      st := st - 1.0;
      var eq := CountArrayDiff(c, idx1, ofs2, st);
      if eq > eq2 { eq2 := eq; }
      ofs2 := ofs2 + 1;
    }
  }

  // ----- common subsequences -----

  /** ps lists matching positions of a[i..] and b[j..], strictly increasing on both sides. */
  ghost predicate CommonSubsequence(c: Comparison, i: nat, j: nat, ps: seq<(nat, nat)>) {
    && (forall k :: 0 <= k < |ps| ==> i <= ps[k].0 < |c.ar1| && j <= ps[k].1 < |c.ar2| && c.Same(ps[k].0, ps[k].1))
    && (forall k, l :: 0 <= k < l < |ps| ==> ps[k].0 < ps[l].0 && ps[k].1 < ps[l].1)
  }

  /** Length of the longest common subsequence of a[i..] and b[j..]. */
  function Lcs(c: Comparison, i: nat, j: nat): nat
    requires i <= |c.ar1| && j <= |c.ar2|
    decreases |c.ar1| - i + |c.ar2| - j
  {
    if i == |c.ar1| || j == |c.ar2| then 0
    else
      var skip := Max(Lcs(c, i + 1, j), Lcs(c, i, j + 1));
      if c.Same(i, j) then Max(1 + Lcs(c, i + 1, j + 1), skip) else skip
  }

  lemma {:induction false} LcsIsUpperBound(c: Comparison, i: nat, j: nat, ps: seq<(nat, nat)>)
    requires i <= |c.ar1| && j <= |c.ar2| && CommonSubsequence(c, i, j, ps)
    ensures |ps| <= Lcs(c, i, j)
    decreases |c.ar1| - i + |c.ar2| - j
  {
    if ps == [] {
    } else if ps[0].0 > i {
      LcsIsUpperBound(c, i + 1, j, ps);
    } else if ps[0].1 > j {
      LcsIsUpperBound(c, i, j + 1, ps);
    } else {
      LcsIsUpperBound(c, i + 1, j + 1, ps[1..]);
    }
  }

  lemma {:induction false} LcsIsAttained(c: Comparison, i: nat, j: nat) returns (ps: seq<(nat, nat)>)
    requires i <= |c.ar1| && j <= |c.ar2|
    ensures CommonSubsequence(c, i, j, ps) && |ps| == Lcs(c, i, j)
    decreases |c.ar1| - i + |c.ar2| - j
  {
    if i == |c.ar1| || j == |c.ar2| {
      ps := [];
    } else if Lcs(c, i, j) == Lcs(c, i + 1, j) {
      ps := LcsIsAttained(c, i + 1, j);
    } else if Lcs(c, i, j) == Lcs(c, i, j + 1) {
      ps := LcsIsAttained(c, i, j + 1);
    } else {
      ps := LcsIsAttained(c, i + 1, j + 1);
      ps := [(i, j)] + ps;
    }
  }

  /** Skipping a line never helps, and costs at most one. */
  lemma {:induction false} LcsSkip(c: Comparison, i: nat, j: nat)
    requires i <= |c.ar1| && j <= |c.ar2|
    ensures i < |c.ar1| ==> Lcs(c, i + 1, j) <= Lcs(c, i, j) <= 1 + Lcs(c, i + 1, j)
    ensures j < |c.ar2| ==> Lcs(c, i, j + 1) <= Lcs(c, i, j) <= 1 + Lcs(c, i, j + 1)
    decreases |c.ar1| - i + |c.ar2| - j
  {
    if i < |c.ar1| && j < |c.ar2| {
      LcsSkip(c, i + 1, j);
      LcsSkip(c, i, j + 1);
      LcsSkip(c, i + 1, j + 1);
    }
  }

  /** Taking a match at the head loses nothing, whatever the relation. */
  lemma LcsMatch(c: Comparison, i: nat, j: nat)
    requires i < |c.ar1| && j < |c.ar2| && c.Same(i, j)
    ensures Lcs(c, i, j) == 1 + Lcs(c, i + 1, j + 1)
  {
    LcsSkip(c, i + 1, j);
    LcsSkip(c, i, j + 1);
  }

  /** Hence neither does matching greedily along a run. */
  lemma {:induction false} LcsAfterRun(c: Comparison, i: nat, j: nat)
    requires i <= |c.ar1| && j <= |c.ar2|
    ensures var e := Run(c, i, j); Lcs(c, i, j) == e + Lcs(c, i + e, j + e)
    decreases |c.ar1| - i
  {
    if Run(c, i, j) > 0 {
      LcsMatch(c, i, j);
      LcsAfterRun(c, i + 1, j + 1);
    }
  }

  /** Soundness: the score never exceeds the longest common subsequence. */
  lemma {:induction false} ScoreSound(c: Comparison, i: nat, j: nat, steps: real)
    requires i <= |c.ar1| && j <= |c.ar2|
    ensures Run(c, i, j) <= Score(c, i, j, steps) <= Lcs(c, i, j)
    decreases |c.ar1| - i + |c.ar2| - j, 2, 0
  {
    LcsAfterRun(c, i, j);
    var e := Run(c, i, j);
    LookAheadSound(c, i + e, j + e, steps - e as real - 1.0);
  }

  lemma {:induction false} LookAheadSound(c: Comparison, i: nat, j: nat, budget: real)
    requires i <= |c.ar1| && j <= |c.ar2|
    ensures LookAhead(c, i, j, budget) <= Lcs(c, i, j)
    decreases |c.ar1| - i + |c.ar2| - j, 1, 0
  {
    LcsSkip(c, i, j);
    if budget > 0.0 {
      BestSkip1Sound(c, i + 1, j, budget / 2.0);
      BestSkip2Sound(c, i, j + 1, budget);
    }
  }

  lemma {:induction false} BestSkip1Sound(c: Comparison, ofs: nat, j: nat, st: real)
    requires ofs <= |c.ar1| + 1 && j <= |c.ar2|
    ensures BestSkip1(c, ofs, j, st) <= if ofs <= |c.ar1| then Lcs(c, ofs, j) else 0
    decreases |c.ar1| - ofs + |c.ar2| - j, 3, |c.ar1| + 1 - ofs
  {
    if ofs < |c.ar1| && st > 0.0 {
      ScoreSound(c, ofs, j, st - 1.0);
      BestSkip1Sound(c, ofs + 1, j, st - 1.0);
      LcsSkip(c, ofs, j);
    }
  }

  lemma {:induction false} BestSkip2Sound(c: Comparison, i: nat, ofs: nat, st: real)
    requires i <= |c.ar1| && ofs <= |c.ar2| + 1
    ensures BestSkip2(c, i, ofs, st) <= if ofs <= |c.ar2| then Lcs(c, i, ofs) else 0
    decreases |c.ar1| - i + |c.ar2| - ofs, 3, |c.ar2| + 1 - ofs
  {
    if ofs < |c.ar2| && st > 0.0 {
      ScoreSound(c, i, ofs, st - 1.0);
      BestSkip2Sound(c, i, ofs + 1, st - 1.0);
      LcsSkip(c, i, ofs);
    }
  }

  /** The score is the length of an actual common subsequence. */
  lemma {:induction false} ScoreIsWitnessed(c: Comparison, i: nat, j: nat, steps: real)
    returns (ps: seq<(nat, nat)>)
    requires i <= |c.ar1| && j <= |c.ar2|
    ensures CommonSubsequence(c, i, j, ps) && |ps| == Score(c, i, j, steps)
  {
    ScoreSound(c, i, j, steps);
    ps := LcsIsAttained(c, i, j);
    ps := ps[..Score(c, i, j, steps)];
  }

  /** A budget that is ample for r remaining lines. */
  function Ample(r: nat): nat { if r == 0 then 0 else 2 * Ample(r - 1) + 3 }

  lemma {:induction false} AmpleGrows(r: nat, e: nat)
    requires e <= r
    ensures Ample(r) >= Ample(r - e) + e
  {
    if e > 0 { AmpleGrows(r - 1, e - 1); }
  }

  /** Completeness: under an ample budget the score is the longest common subsequence. */
  lemma {:induction false} ScoreExactWhenAmple(c: Comparison, i: nat, j: nat, steps: real)
    requires i <= |c.ar1| && j <= |c.ar2|
    requires steps >= Ample(|c.ar1| - i + |c.ar2| - j) as real
    ensures Score(c, i, j, steps) == Lcs(c, i, j)
    decreases |c.ar1| - i + |c.ar2| - j, 2
  {
    LcsAfterRun(c, i, j);
    var e := Run(c, i, j);
    AmpleGrows(|c.ar1| - i + |c.ar2| - j, 2 * e);
    LookAheadExactWhenAmple(c, i + e, j + e, steps - e as real - 1.0);
  }

  lemma HalfIsStillAmple(r: nat, budget: real)
    requires r >= 1 && budget >= Ample(r) as real - 1.0
    ensures budget > 0.0 && budget / 2.0 - 1.0 >= Ample(r - 1) as real && budget - 1.0 >= Ample(r - 1) as real
  {
  }

  lemma {:induction false} LookAheadExactWhenAmple(c: Comparison, i: nat, j: nat, budget: real)
    requires i <= |c.ar1| && j <= |c.ar2|
    requires i < |c.ar1| && j < |c.ar2| ==> !c.Same(i, j)
    requires budget >= Ample(|c.ar1| - i + |c.ar2| - j) as real - 1.0
    ensures LookAhead(c, i, j, budget) == Lcs(c, i, j)
    decreases |c.ar1| - i + |c.ar2| - j, 1
  {
    LookAheadSound(c, i, j, budget);
    if i < |c.ar1| && j < |c.ar2| {
      HalfIsStillAmple(|c.ar1| - i + |c.ar2| - j, budget);
      ScoreExactWhenAmple(c, i + 1, j, budget / 2.0 - 1.0);
      ScoreExactWhenAmple(c, i, j + 1, budget - 1.0);
      FirstSkips(c, i, j, budget);
    }
  }

  /** The best skip is at least as good as skipping one line. */
  lemma FirstSkips(c: Comparison, i: nat, j: nat, budget: real)
    requires i < |c.ar1| && j < |c.ar2| && budget > 0.0
    ensures i + 1 < |c.ar1| ==> BestSkip1(c, i + 1, j, budget / 2.0) >= Score(c, i + 1, j, budget / 2.0 - 1.0)
    ensures j + 1 < |c.ar2| ==> BestSkip2(c, i, j + 1, budget) >= Score(c, i, j + 1, budget - 1.0)
  {
  }
}

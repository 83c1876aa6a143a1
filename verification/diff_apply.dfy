/** What the printed diff is worth to its reader: with the wanted text it determines the output. */
module DiffApply {
  import opened Sequences
  import opened Text
  import opened LineDiff
  import opened DiffScript
  import opened DiffReport

  // ----- applying a list of edits -----

  function Indices(es: seq<Edit>): (ks: seq<nat>)
    ensures |ks| == |es| && forall k :: 0 <= k < |es| ==> ks[k] == es[k].at
  {
    seq(|es|, k requires 0 <= k < |es| => es[k].at)
  }

  function Select(ls: seq<Line>, ks: seq<nat>): (r: seq<Line>)
    ensures |r| == |ks| && forall k :: 0 <= k < |r| ==> r[k] == LineAt(ls, ks[k])
  {
    seq(|ks|, k requires 0 <= k < |ks| => LineAt(ls, ks[k]))
  }

  /** Puts each added line at its own index, from index j on, and the kept lines around them. */
  function Patch(kept: seq<Line>, adds: seq<Edit>, j: nat): seq<Line>
    decreases |kept| + |adds|
  {
    if adds != [] && adds[0].at == j then [adds[0].text] + Patch(kept, adds[1..], j + 1)
    else if kept != [] then [kept[0]] + Patch(kept[1..], adds, j + 1)
    else []
  }

  /** Drops the removed lines from `wanted` and puts the added ones in. */
  function ApplyDiff(wanted: seq<Line>, es: seq<Edit>): seq<Line> {
    Patch(Select(wanted, Kept(0, |wanted|, Indices(Removed(es)))), Added(es), 0)
  }

  lemma {:induction false} PatchRebuilds(o: seq<Line>, adds: seq<nat>, j: nat)
    requires j <= |o| && IncreasingWithin(adds, j, |o|)
    ensures Patch(Select(o, Kept(j, |o|, adds)), Adds(adds, o), j) == o[j..]
    decreases |o| - j
  {
    if j == |o| {
    } else if adds != [] && adds[0] == j {
      HeadAndTail(adds);
      TailIncreasing(adds, j, |o|);
      KeptCons(j, |o|, adds[1..]);
      PatchRebuilds(o, adds[1..], j + 1);
      RebuildAdded(o, adds[1..], Kept(j + 1, |o|, adds[1..]), j);
    } else {
      HeadIncreasing(adds, j, |o|);
      KeptCons(j, |o|, adds);
      PatchRebuilds(o, adds, j + 1);
      RebuildKept(o, adds, Kept(j + 1, |o|, adds), j);
    }
  }

  lemma RebuildAdded(o: seq<Line>, later: seq<nat>, kept: seq<nat>, j: nat)
    requires j < |o| && Patch(Select(o, kept), Adds(later, o), j + 1) == o[j + 1..]
    ensures Patch(Select(o, kept), Adds([j] + later, o), j) == o[j..]
  {
    PatchAdds(Select(o, kept), o[j], Adds(later, o), j);
    assert Adds([j] + later, o) == [Add(j, o[j])] + Adds(later, o);
    HeadAndTail(o[j..]);
  }

  lemma SelectCons(o: seq<Line>, j: nat, kept: seq<nat>)
    requires j < |o|
    ensures Select(o, [j] + kept) == [o[j]] + Select(o, kept)
  {
  }

  lemma RebuildKept(o: seq<Line>, adds: seq<nat>, kept: seq<nat>, j: nat)
    requires j < |o| && (adds != [] ==> adds[0] != j)
    requires Patch(Select(o, kept), Adds(adds, o), j + 1) == o[j + 1..]
    ensures Patch(Select(o, [j] + kept), Adds(adds, o), j) == o[j..]
  {
    SelectCons(o, j, kept);
    PatchKeeps(o[j], Select(o, kept), Adds(adds, o), j);
    HeadAndTail(o[j..]);
  }

  lemma PatchAdds(kept: seq<Line>, line: Line, adds: seq<Edit>, j: nat)
    ensures Patch(kept, [Add(j, line)] + adds, j) == [line] + Patch(kept, adds, j + 1)
  {
  }

  lemma PatchKeeps(line: Line, kept: seq<Line>, adds: seq<Edit>, j: nat)
    requires adds != [] ==> adds[0].at != j
    ensures Patch([line] + kept, adds, j) == [line] + Patch(kept, adds, j + 1)
  {
  }

  /** In the literal mode the edits turn the wanted lines into the output lines. */
  lemma ApplyingGivesOutput(c: Comparison)
    requires c.mode.Literal?
    ensures ApplyDiff(c.ar1, DiffOf(c, c.ar1)) == c.ar2
  {
    DiffHoldsEachEditOnce(c, c.ar1);
    assert Indices(Dels(Removals(c, 0, 0), c.ar1)) == Removals(c, 0, 0);
    KeptLinesMatch(c, 0, 0);
    assert Select(c.ar1, Kept1(c, 0, 0)) == Select(c.ar2, Kept2(c, 0, 0));
    AdditionsIncrease(c, 0, 0);
    PatchRebuilds(c.ar2, Additions(c, 0, 0), 0);
  }

  // ----- the printed text -----

  function Show(e: Edit): Line {
    PadLeft('0', 3, Decimal(e.at + 1)) + (if e.Del? then "- " else "+ ") + e.text
  }

  function ShowAll(es: seq<Edit>): (ls: seq<Line>)
    ensures |ls| == |es| && forall k :: 0 <= k < |es| ==> ls[k] == Show(es[k])
  {
    seq(|es|, k requires 0 <= k < |es| => Show(es[k]))
  }

  /** The printed text of a list of edits. */
  function Printed(es: seq<Edit>): string { Implode("\r\n", ShowAll(es)) }

  /** What a printed line consists of: the line number counted from 1, in three digits or as many as it
      takes, a sign and a space, and the text of the line. */
  lemma ShowLayout(e: Edit)
    ensures var s := Show(e);
            var k: int := |s| - |e.text| - 2;
            && k >= 3 && AllDigits(s[..k]) && Value(s[..k]) == e.at + 1 && (k > 3 ==> s[0] != '0')
            && s[k..k + 2] == (if e.Del? then "- " else "+ ") && s[k + 2..] == e.text
  {
    var num := PadLeft('0', 3, Decimal(e.at + 1));
    NumberReads(e.at + 1);
    DecimalHead(e.at + 1);
    assert Show(e) == num + (if e.Del? then "- " else "+ ") + e.text;
    assert Show(e)[..|num|] == num;
  }

  /** The reader's side: a line number, a sign, a space and the text. */
  function ReadEdit(s: Line): Edit {
    var k := LeadDigits(s);
    var number := Value(s[..k]);
    if number == 0 || k + 2 > |s| then Add(0, s)
    else if s[k] == '-' then Del(number - 1, s[k + 2..])
    else Add(number - 1, s[k + 2..])
  }

  /** A numeral, a sign, a space and a text. */
  lemma ReadParts(num: string, sign: char, text: Line)
    requires AllDigits(num) && Value(num) >= 1 && !IsDigit(sign)
    ensures ReadEdit(num + ([sign, ' '] + text)) ==
      if sign == '-' then Del(Value(num) - 1, text) else Add(Value(num) - 1, text)
  {
    var rest := [sign, ' '] + text;
    LeadDigitsOf(num, rest);
    assert (num + rest)[|num|] == rest[0] == sign;
    assert (num + rest)[|num| + 2..] == rest[2..] == text;
  }

  lemma NumberReads(n: nat)
    ensures AllDigits(PadLeft('0', 3, Decimal(n))) && Value(PadLeft('0', 3, Decimal(n))) == n
  {
    var num := Decimal(n);
    ValueDecimal(n);
    if |num| < 3 { ValueZeros(3 - |num|, num); }
  }

  lemma ReadShow(e: Edit)
    ensures ReadEdit(Show(e)) == e
  {
    var num := PadLeft('0', 3, Decimal(e.at + 1));
    NumberReads(e.at + 1);
    if e.Del? {
      ReadParts(num, '-', e.text);
      Regroup(num, ['-', ' '], e.text);
    } else {
      ReadParts(num, '+', e.text);
      Regroup(num, ['+', ' '], e.text);
    }
  }

  /** Splits at line feeds and drops the carriage return that ends every line but the last. */
  function ReadLines(ls: seq<Line>): seq<Edit> {
    if ls == [] then []
    else if |ls| == 1 then [ReadEdit(ls[0])]
    else (if ls[0] == "" then [] else [ReadEdit(ls[0][..|ls[0]| - 1])]) + ReadLines(ls[1..])
  }

  function ReadDiff(text: string): seq<Edit> {
    if text == "" then [] else ReadLines(Explode(text))
  }

  function WithReturns(ls: seq<Line>): (r: seq<Line>)
    ensures |r| == |ls|
  {
    if |ls| <= 1 then ls else [ls[0] + "\r"] + WithReturns(ls[1..])
  }

  lemma {:induction false} ImplodeWithReturns(ls: seq<Line>)
    requires forall k :: 0 <= k < |ls| ==> '\n' !in ls[k]
    ensures Implode("\r\n", ls) == Implode("\n", WithReturns(ls))
    ensures forall k :: 0 <= k < |ls| ==> '\n' !in WithReturns(ls)[k]
  {
    if |ls| > 1 {
      ImplodeWithReturns(ls[1..]);
      var r := WithReturns(ls);
      assert r[1..] == WithReturns(ls[1..]);
      var rest := Implode("\r\n", ls[1..]);
      assert ls[0] + "\r\n" + rest == (ls[0] + "\r") + "\n" + rest;
    }
  }

  lemma {:induction false} ReadShown(es: seq<Edit>)
    ensures ReadLines(WithReturns(ShowAll(es))) == es
  {
    if es != [] {
      var ls := ShowAll(es);
      ReadShow(es[0]);
      if |es| > 1 {
        assert ls[1..] == ShowAll(es[1..]);
        ReadShown(es[1..]);
        var r := WithReturns(ls);
        assert r[0] == ls[0] + "\r" && r[1..] == WithReturns(ls[1..]);
        assert r[0][..|r[0]| - 1] == ls[0];
      }
    }
  }

  ghost predicate OneLiners(ls: seq<Line>) { forall k :: 0 <= k < |ls| ==> '\n' !in ls[k] }

  lemma ShownOnOneLine(es: seq<Edit>)
    requires forall k :: 0 <= k < |es| ==> '\n' !in es[k].text
    ensures OneLiners(ShowAll(es))
  {
  }

  /** The printed text can be read back into the edits it was printed from. */
  lemma ReadPrinted(es: seq<Edit>)
    requires forall k :: 0 <= k < |es| ==> '\n' !in es[k].text
    ensures ReadDiff(Printed(es)) == es
  {
    if es != [] {
      var ls := ShowAll(es);
      ShownOnOneLine(es);
      ImplodeWithReturns(ls);
      ExplodeImplode(WithReturns(ls));
      ReadShown(es);
      assert |Show(es[0])| >= 2;
    }
  }

  lemma PlainTexts(ks: seq<nat>, ls: seq<Line>)
    requires OneLiners(ls)
    ensures forall k :: 0 <= k < |ks| ==> '\n' !in Dels(ks, ls)[k].text && '\n' !in Adds(ks, ls)[k].text
  {
  }

  lemma EditsOnOneLine(c: Comparison, w: seq<Line>, e: Edit)
    requires OneLiners(w) && OneLiners(c.ar2) && e in DiffOf(c, w)
    ensures '\n' !in e.text
  {
    var s := Walk(c, 0, 0);
    var t1, t2 := Range(s.end1, |c.ar1|), Range(s.end2, |c.ar2|);
    var old1, old2 := Dels(s.dels, w), Adds(s.adds, c.ar2);
    PlainTexts(s.dels, w);
    PlainTexts(s.adds, c.ar2);
    PlainTexts(t1, w);
    PlainTexts(t2, c.ar2);
    if e in Merge(old1, old2, -2, -2) { MergeMembers(old1, old2, -2, -2, e); }
    assert e in old1 || e in old2 || e in Dels(t1, w) || e in Adds(t2, c.ar2);
  }

  // ----- generate_diff -----

  /** The expected text as regular expressions, with the engine that matches them, if any. */
  datatype Wanted = Plain | Patterns(text: string, matches: (Line, Line) -> bool)

  function ComparisonOf(wanted: string, re: Wanted, output: string): Comparison {
    match re
    case Plain => Comparison(Explode(wanted), Explode(output), Literal)
    case Patterns(text, matches) => Comparison(Explode(text), Explode(output), Regex(matches))
  }

  method GenerateDiff(wanted: string, re: Wanted, output: string) returns (text: string)
    ensures text == Printed(DiffOf(ComparisonOf(wanted, re, output), Explode(wanted)))
  {
    var w := Explode(wanted);
    var diff := GenerateArrayDiff(ComparisonOf(wanted, re, output), w);
    text := Implode("\r\n", ShowAll(diff));
  }

  /** The printed diff, whatever the mode, can be read back. */
  lemma PrintedDiffReadsBack(wanted: string, re: Wanted, output: string)
    ensures var es := DiffOf(ComparisonOf(wanted, re, output), Explode(wanted));
            ReadDiff(Printed(es)) == es
  {
    var c := ComparisonOf(wanted, re, output);
    var es := DiffOf(c, Explode(wanted));
    forall k | 0 <= k < |es| ensures '\n' !in es[k].text {
      EditsOnOneLine(c, Explode(wanted), es[k]);
    }
    ReadPrinted(es);
  }

  /** From the wanted text and the printed diff alone the output is recovered, byte for byte. */
  lemma OutputFromPrintedDiff(wanted: string, output: string)
    ensures var printed := Printed(DiffOf(ComparisonOf(wanted, Plain, output), Explode(wanted)));
            Implode("\n", ApplyDiff(Explode(wanted), ReadDiff(printed))) == output
  {
    PrintedDiffReadsBack(wanted, Plain, output);
    ApplyingGivesOutput(ComparisonOf(wanted, Plain, output));
    ImplodeExplode(output);
  }
}

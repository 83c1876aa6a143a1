# octopusd: verified models of its rasteriser, line diff and rotating log

Three self-contained parts of the repository, with proofs.

**The rasteriser** (`web/js/wz_jsgraphics.js`). `JsGraphicsCanvas.JsGraphics` is the drawing object; its
`htm` text is the sequence of rectangles its divs show, and a cell counts as painted when some rectangle
covers it. Lines (`bresenham_line.dfy`, `line_virt.dfy`), ellipses (`ellipse_walk.dfy`, `ellipse_fill.dfy`,
`ellipse_outline.dfy`, `ellipse_thin.dfy`, `ellipse_path.dfy`, `ellipse_limits.dfy`) and polygons
(`polygon_scan.dfy`) are the loops of the source, proved against a geometric description that does not
mention the incremental variables. The three ellipse routines repeat one three-branch update; it is the
method `EllipseWalk.Advance`, called by all three loops.

**The line diff** (`octopusd_phpext/run-tests.php`). `line_diff.dfy` has the bounded look-ahead score,
`diff_script.dfy` the walk and the merge, `diff_report.dfy` the methods, `diff_apply.dfy` what a reader of
the printed diff can recover, `diff_minimal.dfy` how long the diff is and `diff_changes.dfy` which edits it
lists for texts that differ in one place. The regular-expression engine is an arbitrary relation between a
pattern line and an output line; the halved step budget is a real number. The two edit arrays are kept as
sequences of entries in insertion order; `MergeIgnoresKeyShift` shows that it does not matter whether an
entry is keyed before or after the increment in the same statement. A wanted line missing from a shorter
`$w` prints as empty text, as it does in the source.

**The rotating log** (`api/Trace.cpp`). `trace_log.dfy` has the logger over a directory in which opening,
reading the status, removing and each single rename may fail without effect; `hex_dump.dfy` the binary
dump. Failures and the time text are parameters of the write.

`arithmetic.dfy`, `sequences.dfy`, `text.dfy` and `raster.dfy` hold what the parts share. Coordinates are
unbounded integers and a shift is a doubling; `EllipseLimits` says exactly when that is what the 32-bit
shifts compute. `Math.round(p / q)` is the floor of `p / q + 1/2`.

Four things the proofs bring out about the code.

- With a single log slot no file is ever renamed, so a write can report success and leave the live file at
  or over the limit (`SingleSlotOutgrowsLimit`). Success means a live file below the limit if and only if
  there is a second slot or the file still had room for the entry (`SuccessBoundsLiveIff`).
- In the hex dump byte 127 is printed as itself (`Byte127IsNotPrintable`). The text column is printable if
  and only if the dumped bytes hold no 127 (`CharsPrintableIff`).
- An ellipse of odd height need not reach the sides of its box (`FlatOvalStopsShort`): it does if and only if
  the row next to the middle reaches them (`OvalReachesSidesIff`).
- The diff is not always as short as possible (`DiffNotAlwaysMinimal`). What it loses is counted exactly
  (`DiffLength`), and for one changed block of lines the limit is exact: up to 10 lines put in and up to 6
  taken out are recognised, and of lines exchanged for others the first list may be longer by at most 6,
  the second by at most 10 (`InsertedBlockIff`, `RemovedBlockIff`, `ExchangedBlockIff`).

## Model

| member | source | states |
|---|---|---|
| JsGraphicsCanvas.JsGraphics.MkDiv | web/js/wz_jsgraphics.js:88-99 | a div is one rectangle appended to the text; everything emitted before stays |
| Raster.PaintedByMember | web/js/wz_jsgraphics.js:88-99 | a cell is painted if and only if one of the emitted divs covers it |
| JsGraphicsCanvas.JsGraphics.MkLin | web/js/wz_jsgraphics.js:137-214 | the run-merging loops, in all three branches, cover every cell of the nearest-cell path exactly once and no other cell |
| JsGraphicsCanvas.JsGraphics.MkLinShallow | web/js/wz_jsgraphics.js:152-171 | the shallow branch covers the first steps of the path once each, run by run, and after its last div all of them |
| JsGraphicsCanvas.JsGraphics.MkLinUp | web/js/wz_jsgraphics.js:175-197 | so does the steep branch that goes up, painting each run from its topmost cell |
| JsGraphicsCanvas.JsGraphics.MkLinDown | web/js/wz_jsgraphics.js:198-212 | and the steep branch that goes down |
| BresenhamLine.OffsetIff | web/js/wz_jsgraphics.js:152-171 | the cell of step k is the only one whose offset j satisfies -D < 2(dk - Dj) <= D |
| BresenhamLine.DecisionSteers | web/js/wz_jsgraphics.js:152-171 | the sign of the incremental decision value says whether the nearest offset grows, and its two updates keep it equal to the distance it stands for |
| BresenhamLine.OnIffCell | web/js/wz_jsgraphics.js:137-214 | the painted set is the set of the path's cells, steps 0 to max(dx, dy), one cell a step |
| BresenhamLine.LineMeetsEnds | web/js/wz_jsgraphics.js:139-153 | the line as it is asked for passes through both of its endpoints |
| BresenhamLine.LineCells | web/js/wz_jsgraphics.js:137-214 | its cells by the endpoints alone: in each column, of a steep line in each row, the one cell at most half a cell off, a tie going to the smaller offset |
| BresenhamLine.PathEnds | web/js/wz_jsgraphics.js:139-153 | the path starts exactly at one endpoint and ends exactly at the other |
| BresenhamLine.PathConnected | web/js/wz_jsgraphics.js:152-213 | consecutive cells of the path touch along a side or a corner |
| BresenhamLine.SwapEndpoints | web/js/wz_jsgraphics.js:139-153 | exchanging the endpoints paints the same cells, vertical lines included |
| JsGraphicsCanvas.JsGraphics.MkLinDott | web/js/wz_jsgraphics.js:313-365 | the dotted line emits unit squares at the even steps of the path, in path order |
| JsGraphicsCanvas.JsGraphics.MkLinDottShallow | web/js/wz_jsgraphics.js:328-345 | the shallow loop and the last dot together emit the even steps |
| JsGraphicsCanvas.JsGraphics.MkLinDottSteep | web/js/wz_jsgraphics.js:346-364 | the steep loop and the last dot together emit the even steps |
| BresenhamLine.DottedIsEvenHalf | web/js/wz_jsgraphics.js:313-365 | the dotted line covers, once each, exactly the cells of the solid line whose step is even |
| BresenhamLine.DottedEnds | web/js/wz_jsgraphics.js:313-365 | it starts with a dot at the left end and has one at the other end if and only if the number of steps is even |
| LineVirt.MkLinVirt | web/js/wz_jsgraphics.js:1054-1098 | the array grows if it is too short; entry j holds the column at which the line leaves row j, all further entries hold x2 |
| LineVirt.LeaveStepIff | web/js/wz_jsgraphics.js:1062-1095 | that column belongs to the one step in row j that is followed by a step in row j + 1 |
| LineVirt.LeaveColumnIsCell | web/js/wz_jsgraphics.js:1071-1087 | the stored column is that of the cell itself, before the step in x |
| LineVirt.LeaveColumnIff | web/js/wz_jsgraphics.js:1062-1095 | the stored column by the endpoints alone, in both branches |
| LineVirt.LeaveColumnsMonotone | web/js/wz_jsgraphics.js:1062-1095 | the entries move steadily from x1 towards x2 and never past it |
| EllipseWalk.StartWalk | web/js/wz_jsgraphics.js:704-706 | the initial decision values are the sums of the ellipse equation they stand for |
| EllipseWalk.Advance | web/js/wz_jsgraphics.js:378-405 | each of the three incremental branches makes the move that the signs of the ellipse equation ask for, and keeps both decision values equal to their sums |
| EllipseWalk.TracksDiagonal | web/js/wz_jsgraphics.js:385-388 | the update of the diagonal branch keeps st = f(x+1,y) + f(x+1,y-1) and tt = f(x,y-1) + f(x+1,y-1) |
| EllipseWalk.NextInBox | web/js/wz_jsgraphics.js:378-405 | a move keeps 0 <= x <= a and 0 <= y <= b and comes strictly closer to the end |
| EllipseWalk.TrailInBox | web/js/wz_jsgraphics.js:378-405 | the loop ends after at most a + b rounds, in row 0, without leaving the box |
| EllipseWalk.WalkIsNear | web/js/wz_jsgraphics.js:378-405 | the exact ellipse passes within one diagonal step of every visited cell |
| EllipseWalk.HalfWidthExact | web/js/wz_jsgraphics.js:708-731 | in every row all columns short of the half width lie inside the ellipse and all beyond it outside, by the mean of the equation over the row |
| EllipseWalk.HalfWidthGrows | web/js/wz_jsgraphics.js:708-731 | rows widen towards the middle and never exceed a |
| EllipseWalk.FirstMoveDownIsSteep | web/js/wz_jsgraphics.js:400-404 | a move straight down is made only where the ellipse is steep |
| EllipseWalk.SteepMovesDown | web/js/wz_jsgraphics.js:378-404 | where it is steep the walk does not move straight right |
| EllipseWalk.LandsAtRim | web/js/wz_jsgraphics.js:400-409 | a walk that reaches row 0 straight down has reached column a |
| EllipseLimits.ShiftsExactIff | web/js/wz_jsgraphics.js:374 | the 32-bit shifts yield 2a^2, 4a^2, 2b^2 and 4b^2 if and only if a and b are at most 23170 |
| EllipseLimits.WalkIsExact | web/js/wz_jsgraphics.js:374-405 | within these limits both decision values stay below 2^53 in size at the start cell and at every visited cell above row 0 |
| JsGraphicsCanvas.JsGraphics.FillEllipse | web/js/wz_jsgraphics.js:698-733 | the bands and the last rectangle cover every cell of the filled shape exactly once and nothing else, boxes of width or height 0 or 1 included |
| JsGraphicsCanvas.JsGraphics.FillBands | web/js/wz_jsgraphics.js:708-731 | when the loop ends every row beyond oy is painted exactly and every row up to oy reaches the full width |
| EllipseFill.FillNext | web/js/wz_jsgraphics.js:708-731 | rows left by moves straight down are pending at one common column, so a diagonal move may paint them as one band |
| EllipseFill.TwoBands | web/js/wz_jsgraphics.js:718-724 | the two mirrored bands extend the exact cover from the rows beyond oy to the rows beyond y, with no gap and no overlap |
| EllipseFill.FilledMirrors | web/js/wz_jsgraphics.js:698-733 | the filled shape is its own mirror image left to right and top to bottom |
| EllipseFill.FilledWidens | web/js/wz_jsgraphics.js:698-733 | it stays between left and left + w, and rows nearer to the middle contain the rows further out |
| EllipseFill.FilledCell | web/js/wz_jsgraphics.js:698-733 | a cell of a quarter is painted only if its inner corner satisfies the equation of the ellipse strictly, and left out only if its outer corner does not |
| EllipseFill.FilledSpansBox | web/js/wz_jsgraphics.js:698-733 | the middle row of an odd height is filled from side to side, the middle column of an odd width from top to bottom |
| JsGraphicsCanvas.JsGraphics.MkOvQds | web/js/wz_jsgraphics.js:925-937 | four mirrored rectangles, or two when the left and the right copy meet |
| EllipseOutline.QuadsSymmetric | web/js/wz_jsgraphics.js:925-937 | whatever the arguments, merge branch included, every cell is covered as often as each of its mirror images |
| JsGraphicsCanvas.JsGraphics.MkOv | web/js/wz_jsgraphics.js:367-411 | the loop emits the blocks of the walk in order, then the two rectangles at the sides |
| JsGraphicsCanvas.JsGraphics.WalkOutline | web/js/wz_jsgraphics.js:378-405 | the loop emits the rectangles of every block between two diagonal moves and ends where the last one ends |
| JsGraphicsCanvas.JsGraphics.EmitBlock | web/js/wz_jsgraphics.js:389-396 | two mirrored single cells when both extents have bit 2 set, else one mirrored rectangle |
| EllipseThin.BlockIsThin | web/js/wz_jsgraphics.js:385-399 | between two diagonal moves the walk covers one row, one column, or two cells by two, so the two-cell branch replaces exactly the 2 by 2 blocks |
| EllipseThin.NotThreeWide | web/js/wz_jsgraphics.js:378-404 | no block three columns wide turns down, for any integer half axes |
| EllipseThin.NotThreeHigh | web/js/wz_jsgraphics.js:378-404 | no block that has moved right is three rows high |
| EllipsePath.OutlineHasNoGaps | web/js/wz_jsgraphics.js:378-410 | the quarter outline is a path of touching cells from the top of the middle column to the end of the middle row |
| EllipsePath.OutlineExact | web/js/wz_jsgraphics.js:378-410 | drawEllipse paints a cell if and only if its image in the upper left quarter is on that path |
| EllipsePath.OutlineIsNear | web/js/wz_jsgraphics.js:378-410 | the exact ellipse passes within one diagonal step of every cell of that path, the two side rectangles included |
| EllipsePath.PaintedIsNear | web/js/wz_jsgraphics.js:367-411 | so it does for every cell drawEllipse paints, in all four quarters |
| EllipseOutline.OutlineSymmetric | web/js/wz_jsgraphics.js:386-410 | the outline is symmetric about both centre lines |
| JsGraphicsCanvas.DrawnOval | web/js/wz_jsgraphics.js:369-371 | drawEllipse stays in the box one wider and one higher than asked for and mirrors onto itself both ways |
| JsGraphicsCanvas.OvalSize | web/js/wz_jsgraphics.js:369-371 | the half axes and the middle column and row of drawEllipse make up the box asked for |
| JsGraphicsCanvas.OvalMeetsSides | web/js/wz_jsgraphics.js:369-410 | for an even height the middle row is painted at both sides of that box |
| JsGraphicsCanvas.OvalMeetsEnds | web/js/wz_jsgraphics.js:369-410 | for an even width the middle column is painted at the top and at the bottom of it |
| JsGraphicsCanvas.OvalReachesSidesIff | web/js/wz_jsgraphics.js:369-410 | the side columns of the box hold a painted cell if and only if the height is even or the row next to the middle reaches that far |
| JsGraphicsCanvas.FlatOvalStopsShort | web/js/wz_jsgraphics.js:369-410 | the box of width 3 and height 1 is an instance whose side columns stay empty |
| JsGraphicsCanvas.SmallOval | web/js/wz_jsgraphics.js:367-411 | the four divs of drawEllipse(0, 0, 4, 4), in order |
| JsGraphicsCanvas.OvalIsNear | web/js/wz_jsgraphics.js:367-411 | for the half axes of the call, every painted cell has the ellipse within one diagonal step, by the equation written out |
| JsGraphicsCanvas.JsGraphics.MkOvDott | web/js/wz_jsgraphics.js:561-591 | the dotted outline emits every second visited cell, row 0 only for an odd height |
| EllipseOutline.DotsExact | web/js/wz_jsgraphics.js:588-589 | a cell is painted if and only if it belongs to the mirrored dot of a visited cell with an even number |
| EllipseOutline.DotsSymmetric | web/js/wz_jsgraphics.js:588 | the dotted outline is symmetric about both centre lines |
| EllipseOutline.DotsInBox | web/js/wz_jsgraphics.js:588 | the dots stay in the same box |
| JsGraphicsCanvas.JsGraphics.FillPolygon | web/js/wz_jsgraphics.js:811-877 | the scan loop emits the paired crossings of every row from the top to the bottom, and never reads past the crossings |
| JsGraphicsCanvas.JsGraphics.EmitSpans | web/js/wz_jsgraphics.js:874-875 | an even list is consumed in pairs without reading past its end |
| JsGraphicsCanvas.Extremes | web/js/wz_jsgraphics.js:824-833 | the first loop finds the smallest and the largest row |
| JsGraphicsCanvas.ScanRow | web/js/wz_jsgraphics.js:836-872 | the edge loop collects the crossings of one row in edge order |
| PolygonScan.CrossingsEven | web/js/wz_jsgraphics.js:838-872 | every row of a closed vertex list is crossed an even number of times, the lowest row and horizontal edges included |
| PolygonScan.SpansEvenOdd | web/js/wz_jsgraphics.js:873-875 | a cell is painted if and only if it is a crossing or an odd number of crossings lie strictly to its left |
| PolygonScan.PolygonEvenOdd | web/js/wz_jsgraphics.js:834-876 | the same rule without rounding: an edge crosses the row within the cell, or an odd number cross it left of the cell, by exact rational comparison |
| PolygonScan.EdgePainted | web/js/wz_jsgraphics.js:838-875 | every edge of the vertex list paints, in every row it is counted in, the cell whose centre is at most half a cell off, by the vertices alone |
| PolygonScan.VerticesPainted | web/js/wz_jsgraphics.js:852-871 | the upper end of every edge that is not horizontal is painted, and on the last row the lower end |
| PolygonScan.CrossingAtEnds | web/js/wz_jsgraphics.js:852-871 | an edge passes exactly through both of its ends |
| PolygonScan.RectangleFilled | web/js/wz_jsgraphics.js:811-877 | a rectangle given by its corners is filled, last row and column included, and nothing else |
| PolygonScan.PolygonSpansInBox | web/js/wz_jsgraphics.js:834-875 | every span is one high, at least one wide and inside the polygon's bounding box |
| PolygonScan.RotationEmitsSame | web/js/wz_jsgraphics.js:838-875 | starting the vertex list elsewhere emits the same spans in the same order |
| PolygonScan.ReversalEmitsSame | web/js/wz_jsgraphics.js:838-875 | running through the vertex list backwards emits the same spans in the same order |
| PolygonScan.OrderedUnique | web/js/wz_jsgraphics.js:873 | there is only one ordered arrangement of the crossings, so the result does not depend on the sorting algorithm |
| LineDiff.CountArrayDiff | octopusd_phpext/run-tests.php:2003-2043 | the recursive loops end and return the score: the initial run plus the better of the two look-aheads, the first on half the budget |
| LineDiff.TrySkipping1 | octopusd_phpext/run-tests.php:2014-2023 | the first inner loop returns the best score over the positions its falling budget reaches |
| LineDiff.TrySkipping2 | octopusd_phpext/run-tests.php:2025-2033 | so does the second, on the other side |
| LineDiff.ScoreSound | octopusd_phpext/run-tests.php:2003-2043 | the score is at least the initial run and never exceeds the longest common subsequence, for any match relation |
| LineDiff.ScoreIsWitnessed | octopusd_phpext/run-tests.php:2003-2043 | the score is the length of an actual common subsequence of the two suffixes |
| LineDiff.ScoreExactWhenAmple | octopusd_phpext/run-tests.php:2013-2040 | with an ample budget the score is the length of the longest common subsequence |
| DiffMinimal.RunSpendsBudget | octopusd_phpext/run-tests.php:2007-2013 | a match costs one step: a line put in behind a run is seen if and only if the run leaves more than one |
| DiffMinimal.SkipSpendsBudget2 | octopusd_phpext/run-tests.php:2025-2033 | a line skipped in the second list costs two steps of the whole budget: a second one behind the run that follows is seen if and only if the run leaves more than three |
| DiffMinimal.SkipSpendsBudget1 | octopusd_phpext/run-tests.php:2014-2023 | a line skipped in the first list leaves half of the budget, less two: the condition with twice the run and five |
| LineDiff.LcsMatch | octopusd_phpext/run-tests.php:2007-2012 | taking a match at the head loses nothing, whatever the relation |
| LineDiff.LcsIsUpperBound | octopusd_phpext/run-tests.php:2003-2043 | no common subsequence is longer than the recursive definition says |
| LineDiff.LcsIsAttained | octopusd_phpext/run-tests.php:2003-2043 | and one is as long |
| DiffScript.KeptLinesMatch | octopusd_phpext/run-tests.php:2053-2075 | whatever the look-ahead says, the lines neither removed nor added are equally many on both sides and match pairwise in order |
| DiffScript.RemovalsIncrease | octopusd_phpext/run-tests.php:2065-2103 | the removed indices, tail included, increase strictly |
| DiffScript.AdditionsIncrease | octopusd_phpext/run-tests.php:2068-2107 | so do the added indices |
| DiffScript.OfKindMerge | octopusd_phpext/run-tests.php:2077-2099 | the merge loses nothing, repeats nothing and keeps both lists in order |
| DiffScript.MergeKeepsRuns | octopusd_phpext/run-tests.php:2082-2088 | lines of one kind with consecutive numbers are printed on consecutive lines |
| DiffScript.MergeIgnoresKeyShift | octopusd_phpext/run-tests.php:2064-2099 | the printed order does not depend on whether entries are keyed before or after the increment |
| DiffReport.GenerateArrayDiff | octopusd_phpext/run-tests.php:2045-2110 | the loops return the merged edits followed by the removed tail and the added tail |
| DiffReport.WalkLines | octopusd_phpext/run-tests.php:2053-2075 | the walking loop collects exactly the removed and the added entries of the walk and stops where it stops |
| DiffReport.MergeLists | octopusd_phpext/run-tests.php:2077-2099 | the interleaving loop with its two pending keys computes the merge |
| DiffReport.DiffHoldsEachEditOnce | octopusd_phpext/run-tests.php:2077-2109 | the list holds every removed line and every added line exactly once, each kind in increasing order, with its text |
| DiffReport.WalkedEditsKeepRuns | octopusd_phpext/run-tests.php:2053-2099 | the interleaved part of a diff keeps every run together |
| DiffReport.EmptyDiffIffSameLines | octopusd_phpext/run-tests.php:2045-2110 | the diff is empty if and only if the inputs match line by line |
| DiffReport.EmptyDiffIffAllMatch | octopusd_phpext/run-tests.php:1994-2001 | for patterns: if and only if as many lines, and every output line matches the pattern in its place, pattern first |
| DiffReport.EmptyDiffIffEqual | octopusd_phpext/run-tests.php:1994-2001 | in literal mode: if and only if the two are equal |
| DiffReport.KeptLinesMatchPatterns | octopusd_phpext/run-tests.php:2053-2075 | every kept output line matches the pattern it is kept with |
| DiffApply.ApplyingGivesOutput | octopusd_phpext/run-tests.php:2045-2110 | in the literal mode applying the edits to the wanted lines gives the output lines |
| DiffMinimal.PrintedOrKept | octopusd_phpext/run-tests.php:2045-2110 | every line of either input is printed or kept: the diff has as many lines as both inputs less two for every line kept |
| DiffMinimal.DiffLength | octopusd_phpext/run-tests.php:2045-2110 | the diff is longer than the shortest possible by exactly twice what the moves of the walk take from the longest common subsequence |
| DiffMinimal.SeeingLosesNothing | octopusd_phpext/run-tests.php:2061-2074 | if the two scores are true at the mismatches the walk comes to, nothing is lost |
| DiffMinimal.BlindOutOfSight | octopusd_phpext/run-tests.php:2013-2040 | a score is 0 if no match lies nearer than half the budget in the first list and the budget in the second |
| DiffMinimal.InsertedBlockIff | octopusd_phpext/run-tests.php:2053-2075 | k unmatched lines put in before a rest that matches, or any single line, give a diff of k lines if and only if k is at most 10 or nothing follows, for any match relation |
| DiffMinimal.RemovedBlockIff | octopusd_phpext/run-tests.php:2053-2075 | the same for k lines taken out, with the limit 6 |
| DiffMinimal.ExchangedBlockIff | octopusd_phpext/run-tests.php:2053-2075 | a unmatched lines exchanged for b others give a diff of a + b lines if and only if a is at most b + 6 and b at most a + 10, or nothing follows |
| DiffMinimal.InsertedLinesDiff | octopusd_phpext/run-tests.php:2045-2110 | in literal mode: lines put in anywhere, none of them found again below unless it is one line, show as exactly themselves if and only if they are at most 10 or the last |
| DiffMinimal.RemovedLinesDiff | octopusd_phpext/run-tests.php:2045-2110 | likewise lines taken out, at most 6 |
| DiffMinimal.ExchangedLinesDiff | octopusd_phpext/run-tests.php:2045-2110 | likewise lines exchanged for others |
| DiffMinimal.OneLineMissed | octopusd_phpext/run-tests.php:2061-2074 | after any seven or more unrelated lines the one common line is missed and replaced by itself: two lines more than needed |
| DiffMinimal.DiffNotAlwaysMinimal | octopusd_phpext/run-tests.php:2061-2074 | an instance: 9 printed lines where 7 would do |
| DiffChanges.TwoRuns | octopusd_phpext/run-tests.php:2077-2099 | of two runs the one that starts earlier is printed first, and of two that start on the same line the added one |
| DiffChanges.ExchangedBlockEdits | octopusd_phpext/run-tests.php:2045-2110 | a recognised block exchanged for another is listed as exactly its new lines followed by exactly its old lines |
| DiffChanges.ExchangedLinesEdits | octopusd_phpext/run-tests.php:2045-2110 | the same in literal texts |
| DiffChanges.SwappedLinesIff | octopusd_phpext/run-tests.php:2061-2074 | two neighbouring lines exchanged: equal scores go to the added line, so the upper new line and the lower old one are listed, if and only if the next line does not match the one that moved up |
| DiffChanges.SwappedLinesEdits | octopusd_phpext/run-tests.php:2061-2074 | the same in literal texts of any length |
| DiffChanges.TwoLinesSwapped | octopusd_phpext/run-tests.php:2061-2074 | for two lines alone: line 1 added, then line 2 removed |
| DiffChanges.SwappedTextPrinted | octopusd_phpext/run-tests.php:2061-2120 | the text printed for a and b exchanged |
| DiffChanges.ChangedLineEdits | octopusd_phpext/run-tests.php:2045-2110 | one changed line is listed as added, then as removed |
| DiffApply.GenerateDiff | octopusd_phpext/run-tests.php:2112-2120 | splits both texts at line feeds, diffs them and joins the printed edits |
| DiffApply.ShowLayout | octopusd_phpext/run-tests.php:2065-2068 | a printed line is the line number counted from 1 in at least three digits, a sign, a space and the text |
| DiffApply.PrintedDiffReadsBack | octopusd_phpext/run-tests.php:2101-2120 | the printed text determines kind, number and text of every edit, in both modes |
| DiffApply.OutputFromPrintedDiff | octopusd_phpext/run-tests.php:2112-2120 | from the wanted text and the printed diff alone the output is recovered byte for byte |
| Text.ImplodeExplode | octopusd_phpext/run-tests.php:2114-2116 | joining the pieces of a text with line feeds gives the text back |
| TraceLog.MagicTrace.Init | api/Trace.cpp:36-50 | fails, changing nothing, exactly when the size or the number is below 1 |
| TraceLog.MagicTrace.ShiftFiles | api/Trace.cpp:68-127 | the new directory and the return code, for any failing operation; no rename replaces an existing file |
| TraceLog.MagicTrace.WriteMsg | api/Trace.cpp:129-155 | appends one formatted line, then rotates; a failed open changes nothing |
| TraceLog.LineLayout | api/Trace.cpp:146-150 | the line written is the time in brackets, a space, the message and a line feed |
| TraceLog.WriteSucceedsIff | api/Trace.cpp:68-155 | a write returns 0 if and only if opening and reading the status succeed and the entry fits or nothing fails that the rotation removes or renames; otherwise -1 |
| TraceLog.ShiftDownKeepsEntries | api/Trace.cpp:106-125 | wherever the renaming stops, no entry is lost, repeated or reordered |
| TraceLog.ShiftDownMovesSlot | api/Trace.cpp:106-125 | every slot above the failing rename moves exactly one up, every other slot stays |
| TraceLog.ShiftDropsOldest | api/Trace.cpp:68-127 | a rotation removes the oldest archive and nothing else from what can be read |
| TraceLog.RunConserves | api/Trace.cpp:68-155 | over any run, from any directory and with any failures, what rotations removed followed by what can be read back is everything there was and everything accepted, in order |
| TraceLog.RotationMovesEverySlot | api/Trace.cpp:90-126 | a failure-free rotation moves slot j to j + 1, drops slot n - 1 and leaves the live slot empty |
| TraceLog.SuccessBoundsLive | api/Trace.cpp:82-126 | with two slots or more a write that reports success leaves the live file below the limit, whatever failed |
| TraceLog.SuccessBoundsLiveIff | api/Trace.cpp:68-155 | after a write that reports success the live file is below the limit if and only if there are two slots or more or the entry still fitted |
| TraceLog.SingleSlotOutgrowsLimit | api/Trace.cpp:82-126 | with one slot a failure-free write reports success for any entry and any file size; an entry as long as the limit leaves a live file at or over it |
| TraceLog.SingleSlotNeverRotates | api/Trace.cpp:106 | with one slot every accepted entry is appended to the live file and nothing ever leaves it |
| TraceLog.RunCutsChunks | api/Trace.cpp:68-155 | from a fresh start and without failures the directory is at every point exactly the greedy chunks of the entries, newest first |
| TraceLog.ChunksPartition | api/Trace.cpp:82-85 | the chunks are the entries in order; every closed one has just reached the limit, the open one has not |
| TraceLog.RotationsCloseChunks | api/Trace.cpp:82-126 | the writes of a failure-free run that leave no live file are as many as the closed chunks |
| TraceLog.RotationBound | api/Trace.cpp:82-126 | the live file is below the limit, the archives are exactly 1 to min(rotations, n - 1), each at least the limit and less than the limit plus its last entry |
| TraceLog.MagicTrace.WriteBinTrace | api/Trace.cpp:157-201 | the directory afterwards is the one that a run of single writes leaves: the header, then one message for every 12 bytes begun; only the header for a length that is not positive |
| TraceLog.DumpSurvives | api/Trace.cpp:157-201 | over rotations and failures after the appends, what was removed followed by what can be read back is what was there, a header, and lines whose hex columns decode to exactly the bytes dumped |
| HexDump.FormatRow | api/Trace.cpp:172-197 | the inner loop formats one row of at most 12 bytes |
| HexDump.RowLayout | api/Trace.cpp:162-200 | there are ceil(len / 12) rows, and row k shows the bytes from offset 12 k on |
| HexDump.RowColumns | api/Trace.cpp:197 | a row is the offset right-aligned in two, the hex text left-aligned in at least 24 and the text column in at least 16, set off by bars |
| HexDump.OffsetReads | api/Trace.cpp:197 | the number in front of the first bar is the offset of the row's first byte |
| HexDump.HexLayout | api/Trace.cpp:183-184 | byte k stands as two hex digits, the high one first, and a space |
| HexDump.CharsIff | api/Trace.cpp:185-193 | in the text column a byte from 32 to 127 stands as itself and any other as a dot |
| HexDump.HeaderLayout | api/Trace.cpp:159 | the header holds the file and the line number in brackets and the fixed text |
| HexDump.DumpReadsBack | api/Trace.cpp:183-197 | decoding the hex columns of all rows in order gives back exactly the bytes dumped |
| HexDump.CharsPrintableIff | api/Trace.cpp:185-193 | the text column, one character a byte, is printable if and only if the bytes hold no 127 |
| HexDump.Byte127IsNotPrintable | api/Trace.cpp:185 | byte 127 is the counterexample: it is printed as itself |

## Left out

- Strokes above 1 (`_mkLin2D`, `_mkOv2D`), `fillArc` and `_mkArcDiv`: square roots, trigonometric functions and packed sector bits; the ellipse loop inside them is the one modelled.
- drawPolyline, drawPolygon, drawRect, fillRect: sequences of calls of the modelled routines.
- The HTML text of a div, the two other div variants, the regex that expands them, the DOM and browser detection: user interface.
- Negative widths and heights of ellipses, and coordinates that are not integers.
- Shifts of coordinates beyond 32 bits: EllipseLimits covers the four constants of the ellipse walk; line coordinates are taken as exact integers.
- FillEllipse: the order in which the bands are emitted is not part of its contract, only what they cover.
- MkLin: likewise; the contract fixes the cells and how often each is covered, not how they are grouped into runs.
- The engine behind the regular expressions, and the rest of run-tests.php: processes, files, mail, command line and summaries.
- Time stamps, printf formatting of the message, the MAGIC_STDERR copy and the singleton in Trace.cpp: the time text and the message are parameters.
- A partial write to the live file, and an `access` call that fails although the file exists: an append happens whole or not at all, and looking for a file is reliable.
- WriteTrace: formats into a buffer of fixed size and sends one message.
- The fields of the logger before Init has succeeded hold no particular values in the source; the model starts them at 0, which Valid excludes.
- api/Connector.cpp, api/SocketAddr.cpp, sharelib, the PHP extension and web/js/prototype.js: wrappers, field copying and DOM code.

# Proofs about the algorithms of mprmpr

A Dafny 4.11 model of the two parts of the repository that have something hard to get right, with the proofs that they
do: the algorithm library behind the metrics page (`www/d3.v2.js`) and the bit and integer utilities under
`src/mprmpr/base`. `dafny verify dfyconfig.toml` checks the whole project.

**Algorithms of the page.**

- `Dsv.dfy`: the printer and the stateful tokenizer of delimiter-separated text, and the exact set of tables that survive
  a round trip.
- `Hull.dfy`, on `ConvexChain.dfy` and `Plane.dfy`: the Graham scan, with the exact inputs on which it fails and on which
  its answer has a doubled corner.
- `Clip.dfy`, `ClipRegion.dfy` and `ClipWinding.dfy`: clipping a polygon in place by half-planes, the region that is left
  of a convex one, and how often what is left of any winds around each point.
- `QuadTree.dfy`, `QuadTreeEnds.dfy`, `QuadTreePairs.dfy` and `QuadTreeNodes.dfy`: insertion into a point quadtree,
  exactly when it ends, which points inner nodes keep, the same on mutable nodes, and the visit.
- `ForceAccumulate.dfy`: the charges that a force layout gathers up that tree.
- `Treemap.dfy`, on `TreemapRows.dfy`, `Strips.dfy`, `Tiling.dfy` and `TreemapThrows.dfy`: the squarified treemap as an exact
  tiling, in the rows that its scores ask for, and when it throws instead.
- `TimerQueue.dfy`, `TimerTimes.dfy` and `TimerList.dfy`: the timer queue as a list of entries, what a pass calls and when,
  and the linked list that is walked while callbacks change it.
- `TransitionLock.dfy`, `TransitionEnds.dfy`, `TransitionOrder.dfy` and `TransitionNodes.dfy`: the lock that lets a newer
  transition of a node supersede older ones, as a state machine over all runs, when transitions end, the exact runs that
  keep the order across locks, and the objects that refine the machine.
- `DataJoin.dfy`: the data join of a selection, by key and by index.
- `Bundle.dfy`: the path between two nodes of a tree through their common ancestor.

**Machine arithmetic.** `Bitwise.dfy` defines AND, OR and XOR on integers in two's complement without a fixed width and
relates them to powers of two; `Bytes.dfy` relates numbers and their bytes. On these stand

- `Swar.dfy`: predicates on all bytes of a word at once, with C++'s integer promotions;
- `Uint128.dfy`: the 128-bit integer and its operators in place, which may be given their own object;
- `Endian.dfy`: loads and stores in either byte order, on hosts of either byte order;
- `EnumCasts.dfy`: the range tests of enumerations (section 7.2 of ISO/IEC 14882);
- `BitSearch.dfy`, `BitCount.dfy` and `SidewaysAddition.dfy`: logarithms, lowest bits and bit counts.

`Wrappers.dfy`, `Sequences.dfy` and `Reals.dfy` are shared helpers. Classes and loops stand where the source has loops and
objects that it updates; each such method is proved against a function of the inputs or of the old state, and the
theorems are about that function.

**Where the code falls short of what it promises**, the exact condition is proved and a concrete input is given:

- `operator>>=` clears the high half before it reads it, so for amounts from 64 to 127 it differs from `operator>>`
  (`Uint128.RightShiftsAgree`, `Uint128.RightShiftsDiffer`).
- `BytesAllInRange` on a one- or two-byte type calls its helper with an `int`, since the argument has been promoted, and
  denies every range of 129 to 255 values (`Swar.AllInRangeIs`, `Swar.NarrowWordDenied`).
- The little-endian variable load reads through `char`; without unsigned chars, which `src/mprmpr/base/integral_types.h:21`
  promises and `src/Makefile:1-2` does not ask for, a byte of 128 or more spoils the bytes above it
  (`Endian.SignedLoadIsSum`, `Endian.SignedByteSpoils`).
- The comment on the big-endian variable load (`src/mprmpr/base/endian.h:255-264`) describes the little-endian one: the
  load takes the last bytes of eight, not the first (`Endian.LoadBig64Variable`, `Endian.BigLoadIsSum`,
  `Endian.BigLoadMissesByte`).
- The parser drops a last empty field and never yields an empty row, and the printer does not quote a carriage return
  (`Dsv.RoundTrip`, `Dsv.TablesLost`).
- The hull reads past its candidates when all points are seen at one angle, and doubles its first corner when the anchor
  occurs twice and nothing else is level with it
  (`Hull.Hull`, `Hull.LineFails`, `Hull.TwinIsDoubled`).
- The clipper's strict test drops a convex subject that only touches the clip region, and nothing else that the two share
  (`ClipRegion.ClipIsIntersection`, `ClipRegion.TouchingIsLost`).
- An insertion into a quadtree with a given extent need not end for points outside it
  (`QuadTreeEnds.InsertEndsIff`, `QuadTreeEnds.OutsideNeverEnds`).
- The treemap throws when values of both signs cancel out in a box that has an area
  (`Treemap.Layout`, `Treemap.CancelledValues`, `TreemapThrows.ThrowsIff`).
- The keyed join loses or repeats a node whose key another node has (`DataJoin.NodesConserved`, `DataJoin.DuplicateLost`,
  `DataJoin.DuplicateTwice`).
- A transition lock remembers nothing once its last holder has stopped, so a lower id can run after a higher one
  (`TransitionOrder.InOrderIffFresh`, `TransitionLock.LowerAfterHigherOnNewLock`).
- A quadtree node without charge has no finite centre, and spoils those above it
  (`ForceAccumulate.ForceNode.Accumulate`, `ForceAccumulate.ZeroSpreads`, `ForceAccumulate.OppositeCharges`).

## Model

| member | source | states |
|---|---|---|
| `Dsv.RoundTrip` | www/d3.v2.js:5149-5226 | Parsing what was printed gives back the rows if and only if every row is nonempty, the very last field is nonempty, and every field with a carriage return is quoted for another reason; for every delimiter without a meaning inside the pattern |
| `Dsv.AnyBreaks` | www/d3.v2.js:5150-5226 | The same when the rows are written with carriage returns, with line feeds or with both between them |
| `Dsv.TokenOfText` | www/d3.v2.js:5172-5204 | Of any text: a field without a quote in front goes to the next delimiter or line break, or to the end; with a quote in front it is what the printer would have escaped up to the quote that stands alone, or to the end; one character behind is skipped, or both of a carriage return and a line feed, and a line break is to be reported exactly if it is one |
| `Dsv.OrdinaryFile` | www/d3.v2.js:5150-5215 | Two rows of one field with a carriage return and a line feed between them are read as two rows |
| `Dsv.QuotedIff` | www/d3.v2.js:5223-5225 | A field is printed between quotes, its quotes doubled, if and only if it has a quote, a delimiter or a line feed |
| `Dsv.CloseQuoteIs` | www/d3.v2.js:5180-5186 | In any text the scan passes over doubled quotes and stops at the first quote that stands alone |
| `Dsv.PrintedRowsAreRead` | www/d3.v2.js:5205-5222 | The equivalence, for each of the three line breaks, for the rows still ahead, from any position of the text at which they begin |
| `Dsv.PrintedRowIsRead` | www/d3.v2.js:5205-5210 | A printed row of surviving fields is read back, but for a last empty field at the end of the text, and the tokenizer stops just behind it with the right pending end of line |
| `Dsv.PrintedFieldIsRead` | www/d3.v2.js:5178-5203 | A printed field, quoted or not, comes back as one token with its exact text, and the state after it fits what follows |
| `Dsv.BareReturnCutsField` | www/d3.v2.js:5150 | A carriage return in a field that is not quoted makes the token strictly shorter than the field |
| `Dsv.SpoiledRow` | www/d3.v2.js:5150 | A row with such a field is never read back |
| `Dsv.TablesLost` | www/d3.v2.js:5149-5226 | Two tables that do not come back: one with a last empty field, one with a carriage return in a plain field |
| `Dsv.ParsedRowsNonempty` | www/d3.v2.js:5205-5213 | The parser yields no empty row |
| `Dsv.UnescapeEscape` | www/d3.v2.js:5195-5223 | Undoubling quotes undoes doubling them |
| `Dsv.CloseQuoteFindsIt` | www/d3.v2.js:5180-5186 | The scan stops exactly at the closing quote of an escaped field |
| `Dsv.NextToken` | www/d3.v2.js:5172-5204 | End of file exactly past the end, end of line exactly when one is pending, and otherwise a field that moves lastIndex forward |
| `Dsv.ScanQuoted` | www/d3.v2.js:5180-5186 | The loop stops where the specification of the closing quote says |
| `Dsv.Parser.constructor` | www/d3.v2.js:5170-5171 | lastIndex starts at zero with no end of line pending |
| `Dsv.Parser.Token` | www/d3.v2.js:5172-5204 | Every call of token() returns the next token and leaves lastIndex and eol as the tokenizer function says |
| `Dsv.Parser.Rows` | www/d3.v2.js:5205-5214 | The row loop collects exactly the rows from the current state on |
| `Dsv.Parse` | www/d3.v2.js:5169-5215 | parseRows as a whole |
| `Hull.Hull` | www/d3.v2.js:5877-5943 | Fewer than three points give the empty polygon; otherwise a TypeError exactly when all points are seen from the anchor at one angle, and else a polygon of input points around all of them that is strictly convex exactly when the anchor has no twin left alone at angle zero; with such a twin it begins with the anchor twice and is strictly convex without one of the two |
| `Hull.HullOfDistinctPoints` | www/d3.v2.js:5877-5943 | Distinct points that are not all collinear get a strictly convex polygon, wrap-around corners included, with every input point on or left of every edge |
| `Hull.OneAngleIffCollinear` | www/d3.v2.js:5923-5929 | Without a second copy of the anchor, one angle means collinear points |
| `Hull.LineFails` | www/d3.v2.js:5924-5929 | Three points on a line, for which the source reads past its candidates |
| `Hull.TwinIsDoubled` | www/d3.v2.js:5923-5929 | A lowest point that is given twice, with two others above it: the answer begins with it twice, and only without one of the two is it strictly convex |
| `Hull.FindAnchor` | www/d3.v2.js:5880-5886 | The lowest point, leftmost among the lowest, at its first position |
| `Hull.PolarPoints` | www/d3.v2.js:5887-5895 | Each other point becomes a candidate once, under its own angle |
| `Hull.SortByAngle` | www/d3.v2.js:5896-5898 | A permutation in order of angle; nothing else about the sort is used |
| `Hull.DropNearer` | www/d3.v2.js:5899-5922 | One survivor for each angle, the farthest one, and every dropped point lies between the anchor and a survivor |
| `Hull.PushFirstTwo` | www/d3.v2.js:5923-5929 | The anchor and the first two survivors, or failure exactly when there is no second survivor |
| `Hull.Scan` | www/d3.v2.js:5923-5943 | The stack is a chain of left turns around the anchor that encloses every survivor, and the scan fails only for want of two survivors |
| `Hull.ScanPoint` | www/d3.v2.js:5932-5937 | Popping what is not a left turn and pushing the next candidate leaves a chain of left turns that encloses one survivor more |
| `Hull.Pop` | www/d3.v2.js:5933-5935 | A pop never goes below the base edge and loses no enclosed point |
| `Hull.AngleTransitive` | www/d3.v2.js:5896-5898 | The order of the angles around the anchor is transitive |
| `Hull.FirstSurvivorIsTwin` | www/d3.v2.js:5899-5929 | The first survivor lies on the anchor exactly when the anchor occurs twice with nothing else level with it |
| `Hull.OneSurvivorIffOneAngle` | www/d3.v2.js:5899-5929 | At most one survivor exactly when there is one angle |
| `ConvexChain.LeftTurnAcross` | www/d3.v2.js:5931-5937 | Left turns of consecutive points around the anchor are left turns of any three points in order |
| `ConvexChain.ChainIsStrictlyConvex` | www/d3.v2.js:5931-5937 | A chain of local left turns is strictly convex as a closed polygon |
| `ConvexChain.InsideIsLeftOfEdges` | www/d3.v2.js:5931-5937 | What the chain encloses is on or left of every edge |
| `ConvexChain.PopKeepsInside` | www/d3.v2.js:5933-5935 | Dropping a vertex that is not a left turn keeps every enclosed point enclosed |
| `Clip.Subject.Clip` | www/d3.v2.js:5978-6001 | The loop that empties and refills the subject for every clip edge leaves what clipping edge by edge gives |
| `Clip.ClipIsInside` | www/d3.v2.js:5978-6010 | Every vertex of the result is in the closed half-plane of every edge of the clip polygon |
| `Clip.ClipKeepsHalfPlanes` | www/d3.v2.js:5978-6010 | Every half-plane that holds the whole subject holds the whole result |
| `Clip.ClipStaysConvex` | www/d3.v2.js:5978-6001 | A convex subject of either orientation stays convex |
| `ClipRegion.ClipIsIntersection` | www/d3.v2.js:5978-6010 | For a convex subject of either orientation and any clip polygon, a point is in the hull of the result if and only if it is in the hull of the subject and in the closed half-plane of every clip edge, and some point of the subject is strictly inside all of these |
| `ClipRegion.ClipIsEmptyIff` | www/d3.v2.js:5978-6005 | Nothing is left of a convex subject if and only if none of its points is strictly inside every clip edge |
| `ClipRegion.ClipLosesNothing` | www/d3.v2.js:5978-6010 | A point of a convex subject strictly inside every clip edge is in the hull of the result, which is not empty and is convex |
| `ClipRegion.TouchingIsLost` | www/d3.v2.js:6003-6005 | A triangle that stands on a clip edge from outside: the shared side is in both closed regions, and the result is empty |
| `ClipRegion.HullShrinks` | www/d3.v2.js:5978-6010 | For any subject, the hull of the result is within the hull of the subject and within the half-plane of every clip edge |
| `ClipRegion.ClipKeeps` | www/d3.v2.js:5978-6010 | When some point of a convex subject is strictly inside every clip edge, each of its points in the closed clip region is in the hull of the result |
| `ClipRegion.Interior` | www/d3.v2.js:5978-6005 | What is left of a convex subject has a point strictly inside every clip edge |
| `ClipRegion.HalfPlaneKept` | www/d3.v2.js:5981-5998 | One clip edge that has a vertex of a convex subject strictly inside keeps every point of the subject in its closed half-plane |
| `ClipRegion.ChordIsBounded` | www/d3.v2.js:5981-5998 | Where a chord between any two vertices crosses the clip line, it stays within the hull of what is put out |
| `ClipWinding.ClippedWinding` | www/d3.v2.js:5978-6010 | For any subject and clip polygon, convex or not: off the lines of the clip edges, the result winds around a point as often as the subject if the point is inside every clip edge, and otherwise not at all |
| `ClipWinding.ClipKeepsWinding` | www/d3.v2.js:5978-6001 | Around a point strictly inside every clip edge, the result winds as often as the subject |
| `ClipWinding.ClipDropsWinding` | www/d3.v2.js:5978-6001 | Around a point strictly outside some clip edge, the result does not wind |
| `ClipWinding.EdgeKeepsWinding` | www/d3.v2.js:5981-5998 | One clip edge keeps the winding number around every point strictly inside it |
| `ClipWinding.EdgesBalance` | www/d3.v2.js:5986-5998 | After any number of edges of the subject, the crossings so far of a ray from the point are those of what has been put out and of the ways beyond the clip line that it cuts short |
| `ClipWinding.TurnFar` | www/d3.v2.js:5988-5996 | Beyond the clip line only the ends of a way count for its crossings, so the chord along the line may stand for it |
| `Clip.ClipKeepsInnerSubject` | www/d3.v2.js:5988-5996 | A subject strictly inside every clip edge is returned unchanged |
| `Clip.Crossing` | www/d3.v2.js:6007-6010 | The new vertex is a convex combination of the two old ones and lies on the clip line; the denominator is not zero |
| `Clip.ClipEdgeConvex` | www/d3.v2.js:5981-5998 | One clip edge keeps a convex polygon convex |
| `Clip.KeptStaysInRegion` | www/d3.v2.js:5981-5998 | A point of a convex subject inside the clip edge is on the inner side of every edge of what is left |
| `Clip.ChordOnSide` | www/d3.v2.js:6007-6010 | The edge along the clip line, from where the boundary leaves to where it comes back, has the kept points on its inner side |
| `QuadTree.Insert` | www/d3.v2.js:6367-6385 | Insertion ends for every point in the cell, by the height of the subtree and the halvings until two points are close, stores the point once more and nothing else, and keeps every point in its cell and quadrant |
| `QuadTree.InsertChild` | www/d3.v2.js:6386-6393 | The same for the step into a quadrant |
| `QuadTree.HalvingsShrink` | www/d3.v2.js:6372-6391 | A cell that holds two points that are not close can be halved less often after a split |
| `QuadTree.SplitShrinks` | www/d3.v2.js:6374-6377 | The split of a leaf makes progress though both points go down again |
| `QuadTreeEnds.InsertEndsIff` | www/d3.v2.js:6367-6393 | For any point, cell and tree, the insertion ends if and only if the leaf that the point comes to is free, or its point is taken for the same, or the two have different places in its cell: between the corners, at or beyond one of them, or, with corners out of order, on one side of the middle |
| `QuadTreeEnds.Attempt` | www/d3.v2.js:6367-6393 | Wherever the point lies, an insertion that ends stores it once more and nothing else |
| `QuadTreeEnds.AttemptAll` | www/d3.v2.js:6394-6401 | After any list of points whose insertions end, the tree holds exactly these, each as often as it was given |
| `QuadTreeEnds.InseparableNeverEnds` | www/d3.v2.js:6372-6391 | At whatever depth the recursion is cut off, two points without different places in the cell of a leaf are still together |
| `QuadTreeEnds.SeparableEnds` | www/d3.v2.js:6372-6391 | Two points with different places are parted at some depth |
| `QuadTreeEnds.SeparableBelow` | www/d3.v2.js:6386-6391 | Two points are parted by a split, or have different places in the quadrant exactly when they have in the cell |
| `QuadTreeEnds.OutsideNeverEnds` | www/d3.v2.js:6386-6393 | Two points beyond the first corner of the root that are not taken for the same: inserting the second never ends |
| `QuadTreeEnds.InsertIsAttempt` | www/d3.v2.js:6367-6393 | For a point in the cell the insertion ends, and is the one that needs no limit |
| `QuadTreeEnds.InsertAllIsAttempt` | www/d3.v2.js:6394-6401 | Points in the root cell can all be added |
| `QuadTreePairs.LeafKeepsIffNear` | www/d3.v2.js:6368-6381 | A leaf with a point to which another one comes becomes an inner node, which keeps its point if and only if the differences of the coordinates add up to less than 0.01 |
| `QuadTreePairs.InsertKeepsIffNear` | www/d3.v2.js:6368-6381 | The same for the insertion of a point in the cell |
| `QuadTreePairs.AllPaired` | www/d3.v2.js:6367-6402 | In every tree that insertions make, an inner node that has a point has one below it that near |
| `QuadTreePairs.InsertedArePaired` | www/d3.v2.js:6367-6402 | The same for points in the root cell |
| `QuadTreePairs.AttemptPairs` | www/d3.v2.js:6367-6393 | Every insertion keeps that |
| `QuadTreePairs.ColumnIsSplit` | www/d3.v2.js:6372-6378 | Two points of one column, 100 apart: the node gives both to leaves |
| `QuadTree.BoundingSquare` | www/d3.v2.js:6354-6364 | The square is as wide as high, holds every point, starts at the least coordinates and ends at a greatest one |
| `QuadTree.VisitReachesAll` | www/d3.v2.js:6411-6419 | A callback that never prunes is called once for each node and sees each stored point once |
| `QuadTree.VisitedInCell` | www/d3.v2.js:6411-6419 | Whatever is pruned, the point of a visited node lies in the cell handed over with it |
| `QuadTree.VisitFinds` | www/d3.v2.js:6411-6419 | A callback that prunes no cell around a stored point reaches its node |
| `QuadTreeNodes.QuadNode.Insert` | www/d3.v2.js:6367-6385 | For any point and cell, whenever it ends, the mutable insertion leaves the tree that the insertion on values gives |
| `QuadTreeNodes.QuadNode.InsertChild` | www/d3.v2.js:6386-6393 | The same for the step into a quadrant, with the child made when it is missing |
| `QuadTreeNodes.QuadNode.MakeChild` | www/d3.v2.js:6388-6389 | The node stops being a leaf and has the child, new only if it was missing |
| `QuadTreeNodes.Build` | www/d3.v2.js:6394-6402 | Adding any points one by one, whenever the insertions end, stores exactly them, and an inner node keeps a point only above one near it |
| `QuadTreeNodes.Quadtree` | www/d3.v2.js:6348-6402 | Without a given extent the insertions end for every list of points, and the tree stores exactly these, each in its cell |
| `ForceAccumulate.ForceNode.Accumulate` | www/d3.v2.js:4192-4218 | After the walk every node holds alpha times the sum of the charges below it and the centre of charge of the points where the jitter left them, finite exactly when no node below has charge zero; leaves keep their points, inner points move by at most one half |
| `ForceAccumulate.ForceNode.AccumulateChildren` | www/d3.v2.js:4195-4205 | The loop over the children adds up their charges and moments and settles each of them |
| `ForceAccumulate.ForceNode.AddPoint` | www/d3.v2.js:4206-4217 | The own point adds its charge, records it, and moves only in an inner node |
| `ForceAccumulate.CentreOfAll` | www/d3.v2.js:4192-4218 | For the quadtree of any nonempty list of points the root gathers the sum of all charges, and with charges of one strict sign every node has the charge-weighted mean of its points, whatever the jitter |
| `ForceAccumulate.OneSignIsCharged` | www/d3.v2.js:4216-4217 | Charges of one strict sign give every node a charge that is not zero |
| `ForceAccumulate.AllGained` | www/d3.v2.js:4192-4218 | The tree that insertion makes holds all charges and has no node without points |
| `ForceAccumulate.InsertGains` | www/d3.v2.js:4192-4218 | An insertion adds exactly the charge of its point to the total |
| `ForceAccumulate.MovedKeepsCharges` | www/d3.v2.js:4207-4210 | The jitter changes no total |
| `ForceAccumulate.ZeroSpreads` | www/d3.v2.js:4200-4217 | A node without charge has no finite centre, and neither has its parent |
| `ForceAccumulate.OppositeCharges` | www/d3.v2.js:4214-4217 | Two points anywhere with the charges 1 and -1: the root has no charge and no finite centre |
| `ForceAccumulate.ChildStep` | www/d3.v2.js:4200-4203 | Charge times centre of a settled child is its moment, and not a number exactly when its centre is not |
| `Treemap.Layout` | www/d3.v2.js:5076-5087 | The layout throws if and only if some node of value 0, reached with a padded box that has an area, has a child of positive value, which values that are not negative rule out; otherwise the root takes the whole size and below it the children of every node tile its padded box, in proportion to their values when nothing is rounded, wherever these are not negative and add up to the positive value of the node |
| `Treemap.Squarify` | www/d3.v2.js:4991-5017 | The same from any node downwards, for values of either sign and every rounding function that is not negative |
| `Treemap.CancelledValues` | www/d3.v2.js:4995-5005 | Children of the values 1 and -1 under a node of value 0, in a unit square: the layout throws |
| `TreemapThrows.ScoreIsDeviation` | www/d3.v2.js:5035-5045 | In the numbers of JavaScript, with its divisions by zero, the score of areas that are finite and not negative is how far the row is from the wanted ratio, and Infinity exactly for a row without area or a side of length zero |
| `TreemapThrows.ThrowsIff` | www/d3.v2.js:4996-5016 | In the numbers of JavaScript, the loop asks position for the last cell of an empty row if and only if some area is infinite, for sides that are finite |
| `TreemapThrows.InfinityThrows` | www/d3.v2.js:4996-5016 | With an infinite area ahead it comes to that whatever position makes of the free rectangle |
| `TreemapThrows.InfiniteScore` | www/d3.v2.js:5035-5045 | A row with an infinite area scores NaN on a side of any length |
| `Treemap.LayOut` | www/d3.v2.js:4994-5014 | The backtracking loop ends and tiles the rectangle, and there are rows, from the last child to the first, such that no cell made its row deviate more, the next cell would have made every row but the last do so, and each row fills a strip along the shorter side of what was free, as deep and in boxes as long as rounded areas need; without rounding each child keeps its area |
| `TreemapRows.TwoSquares` | www/d3.v2.js:5000-5009 | Two cells of area 1 in a box of 2 by 1 are put in rows of their own |
| `TreemapRows.WorstIsDeviation` | www/d3.v2.js:5035-5045 | The score that worst computes is the greatest ratio of length to depth or of depth to length, over the wanted one, of a cell of the row |
| `TreemapRows.ScoreIsAspect` | www/d3.v2.js:5043-5044 | The two terms of the score of a cell are these ratios |
| `TreemapRows.RowAdded` | www/d3.v2.js:5004-5013 | A row that ends where the next cell would make it worse, in a strip of what was free, continues the layout in rows |
| `TreemapRows.WholeLayout` | www/d3.v2.js:5046-5075 | With a rounding to whole numbers, the boxes of a rectangle of whole numbers are of whole numbers |
| `TreemapRows.MathRound` | www/d3.v2.js:4983 | Math.round is such a rounding |
| `Treemap.WholeTreemap` | www/d3.v2.js:4991-5075 | Without padding, and with such a rounding, every node at every depth has a box of whole numbers |
| `Treemap.RowInStrip` | www/d3.v2.js:5046-5075 | What position leaves is a row side by side in a strip along the shorter side, and the rest |
| `Treemap.CloseRow` | www/d3.v2.js:5004-5009 | A row that the next child would make worse is laid out, and the others go on in what is left |
| `Treemap.FlushRow` | www/d3.v2.js:5012-5015 | The last row takes all that is left |
| `Treemap.SquarifyLevel` | www/d3.v2.js:4994-5014 | One level: areas, then rows, which throw exactly when a total of 0 makes an area infinite |
| `Treemap.PlaceRow` | www/d3.v2.js:5004-5013 | A placed row takes its part of the free rectangle and leaves the rest tiled |
| `Treemap.Position` | www/d3.v2.js:5046-5075 | The row and what is left tile the rectangle; with flush nothing is left |
| `Treemap.Place` | www/d3.v2.js:5050-5074 | The boxes of the row stand side by side in a strip, with the lengths that the sharing gives, and the last one remembers the direction |
| `Treemap.Worst` | www/d3.v2.js:5035-5045 | The deviation of the row from the wanted ratio of the sides of its cells: Infinity exactly for a row without area or a side of no length; otherwise a deviation that one cell has and none exceeds |
| `Treemap.Scale` | www/d3.v2.js:4984-4990 | Each area is the value scaled, infinite exactly for a positive value and an infinite factor, and zero for what is not positive or not a number |
| `Treemap.ScaleChildren` | www/d3.v2.js:4995 | No area is negative, and one is infinite exactly when a total of 0 is divided up among children of which one is positive; where the values are not negative and add up to that of the parent, the areas are proportional to them and sum to the area of the rectangle |
| `Treemap.Padded` | www/d3.v2.js:5132-5148 | The padded box keeps exactly the margins where they fit, and collapses to the middle between them where they do not |
| `Treemap.LeavesTile` | www/d3.v2.js:4991-5017 | Without padding the boxes of the leaves tile the box of the root |
| `Treemap.LeavesProportional` | www/d3.v2.js:4984-5017 | Without padding and rounding the area of every leaf, at any depth, is to the area of the root as its value is to the value of the root |
| `TreemapRows.Monotone` | www/d3.v2.js:5037-5044 | The deviation of a row is reached at its largest or smallest cell |
| `Treemap.DepthFits` | www/d3.v2.js:5047-5062 | The depth of a strip fits the rectangle, and is exact when nothing is rounded |
| `Strips.LengthsFill` | www/d3.v2.js:5050-5058 | The lengths of a row are not negative and fill the side exactly, for every rounding function that is not negative |
| `Strips.LengthsExact` | www/d3.v2.js:5050-5058 | Without rounding every cell gets its own area |
| `Tiling.Refine` | www/d3.v2.js:4997-5014 | Tiling one of the tiles again gives a tiling |
| `Tiling.StripTiles` | www/d3.v2.js:5048-5074 | A filled strip and the rest tile the rectangle |
| `TimerQueue.PassDropsTheDone` | www/d3.v2.js:2134-2161 | After a pass the queue has exactly the callbacks that were in it or that a called callback requested, but for those that were called and said that they were done; each once and unflagged |
| `TimerTimes.PassCallsTheRipe` | www/d3.v2.js:2134-2161 | A pass calls, in the order of the queue, each entry whose time has come at its turn, and no other, with the time since its start: the start and delay last requested for it by the callbacks called before, or else its own; in a step by now >= start + delay, in a flush by a delay of 0 |
| `TimerTimes.CalledIffRipe` | www/d3.v2.js:2134-2140 | An entry is called, with the time since its start, if and only if its time has come when the entries before it are through |
| `TimerTimes.QuietPass` | www/d3.v2.js:2134-2161 | Callbacks that request nothing: exactly the entries whose time has come are called, in their order |
| `TimerTimes.NotBeforeItsTime` | www/d3.v2.js:2138 | A delay of 100: nothing is called at time 50, and the callback at time 150 |
| `TimerTimes.AddAllTimes` | www/d3.v2.js:2113-2127 | The last request for a callback sets its start and delay, whether it is in the queue or new |
| `TimerTimes.RunTimes` | www/d3.v2.js:2113-2140 | After a run the start and delay of each callback are those last requested for it, or those that it had |
| `TimerQueue.NewcomersStay` | www/d3.v2.js:2106-2140 | A callback that was not in the queue is in it after the pass if and only if a called callback requested it |
| `TimerQueue.RunHas` | www/d3.v2.js:2134-2140 | A run adds exactly the callbacks that a called one requested |
| `TimerQueue.RunUnique` | www/d3.v2.js:2134-2140 | Every callback stays in the queue at most once, whatever the callbacks request |
| `TimerQueue.RunKeepsOrder` | www/d3.v2.js:2134-2140 | A run keeps the entries and their order behind the new ones |
| `TimerQueue.RunFlags` | www/d3.v2.js:2136-2139 | After a run the flagged callbacks are those flagged before and those that are done |
| `TimerQueue.CallsInOrder` | www/d3.v2.js:2136-2140 | A run calls callbacks of its entries in their order, each at most once, and none that is requested meanwhile |
| `TimerQueue.FlushKeepsOrder` | www/d3.v2.js:2162-2173 | Flushing keeps the order of what stays |
| `TimerQueue.FlushUnique` | www/d3.v2.js:2162-2173 | Flushing removes exactly the flagged entries |
| `TimerQueue.EarliestIsMinimum` | www/d3.v2.js:2163-2172 | The result is the least due time over what stays, reached by one entry, and infinity exactly when nothing stays |
| `TimerQueue.AddAllUnique` | www/d3.v2.js:2106-2127 | Requests never put a callback into the queue twice |
| `TimerQueue.AddGrows` | www/d3.v2.js:2106-2127 | A request never removes, moves or unflags an entry |
| `TimerList.Timers.Timer` | www/d3.v2.js:2113-2127 | The walk along the list reschedules the entry of the callback or puts a new one in front, and the list stays acyclic |
| `TimerList.Timers.Flush` | www/d3.v2.js:2162-2173 | One walk unlinks exactly the flagged nodes, keeps the list acyclic, and returns the earliest due time |
| `TimerList.Timers.Unlink` | www/d3.v2.js:2166 | The pointer assignment takes one node out and nothing else |
| `TimerList.Timers.CallNode` | www/d3.v2.js:2138 | The requests of a callback come before its flag |
| `TimerList.Timers.RunAll` | www/d3.v2.js:2135-2159 | The loop of either pass runs every entry as the specification says, though callbacks change the list under it |
| `TimerList.Timers.MakePass` | www/d3.v2.js:2134-2161 | A pass on the list is a pass on the queue |
| `TransitionLock.LocksCountTransitions` | www/d3.v2.js:1900-1939 | In every state of every run the count of a lock is the number of its unstopped transitions, it is attached exactly while that is positive, and each transition stops at most once |
| `TransitionLock.NoLowerAfterHigher` | www/d3.v2.js:1908-1925 | In every run no lower id applies its tweens after a higher one has started on the same lock |
| `TransitionLock.ActiveNeverDecreases` | www/d3.v2.js:1908-1910 | In every run the active id of a lock never decreases |
| `TransitionLock.LowerAfterHigherOnNewLock` | www/d3.v2.js:1902-1905 | A run in which a lower id applies after a higher one, because the lock was removed between them |
| `TransitionOrder.InOrderIffFresh` | www/d3.v2.js:1900-1939 | In every run, no transition of the node applies its tweens after one with a higher id has started, on whichever lock, if and only if no step starts a transition with an id lower than the active id of some lock that the node has had |
| `TransitionOrder.StaleBreaksOrder` | www/d3.v2.js:1908-1919 | A step that lets such a transition start breaks the order at once |
| `TransitionOrder.FreshSettles` | www/d3.v2.js:1900-1939 | Every other step keeps the order, and the lock of a running transition the highest |
| `TransitionLock.NextKeeps` | www/d3.v2.js:1900-1939 | Every step keeps the invariant |
| `TransitionLock.RunKeepsInv` | www/d3.v2.js:1900-1939 | Every state of a run satisfies the invariant |
| `TransitionLock.HolderIsAttached` | www/d3.v2.js:1902-1906 | The lock of a transition that has not stopped is the one on the node |
| `TransitionEnds.StepIs` | www/d3.v2.js:1900-1937 | What every step logs, and which transitions it stops: a start takes the lock unless its active id is higher, a tick goes on exactly if the two ids agree, and what does not go on or is finished stops |
| `TransitionEnds.StopsOnceIffEnded` | www/d3.v2.js:1900-1937 | In every run a transition stops exactly once if it starts or ticks when it is finished or superseded, and otherwise not at all |
| `TransitionEnds.LockGoesIffAllEnded` | www/d3.v2.js:1934-1937 | A run leaves no lock on the node if and only if each of its transitions was ended so |
| `TransitionEnds.SupersededStops` | www/d3.v2.js:1920-1925 | A superseded transition stops at its next tick, and the count of the lock falls |
| `TransitionNodes.Element.Schedule` | www/d3.v2.js:1900-1907 | Finding or making the lock, counting, and starting at once when due is the schedule step |
| `TransitionNodes.Element.Start` | www/d3.v2.js:1908-1919 | start is the start step |
| `TransitionNodes.Element.Tick` | www/d3.v2.js:1920-1933 | tick is the tick step |
| `TransitionNodes.Element.Stop` | www/d3.v2.js:1934-1937 | stop is the stop step: the lock leaves the node with its last holder |
| `TransitionNodes.Element.Take` | www/d3.v2.js:1910 | The lock remembers the id |
| `TransitionNodes.Element.Join` | www/d3.v2.js:1902-1906 | A lock is made only when the node has none, and counts the new holder |
| `DataJoin.NodesConserved` | www/d3.v2.js:1637-1664 | Every node is in exactly one slot of update and exit if and only if every node with a repeated key has a datum for its key exactly when the slot it is put into is not taken over by a leaving node |
| `DataJoin.DistinctKeysConserveNodes` | www/d3.v2.js:1637-1664 | With distinct node keys, and data keys of any kind, each node is in exactly one slot |
| `DataJoin.DuplicateLost` | www/d3.v2.js:1642-1662 | Two nodes of one matched key, and a leaving node behind the data: the second one is in no slot |
| `DataJoin.DuplicateTwice` | www/d3.v2.js:1642-1662 | Two nodes of one key and three data without it: the second node is in two slots of exit |
| `DataJoin.DuplicateOnce` | www/d3.v2.js:1641-1662 | The condition for one node with a repeated key |
| `DataJoin.FirstNodeOnce` | www/d3.v2.js:1643-1664 | A node with a new key is in exactly one slot, of update exactly when a datum has its key |
| `DataJoin.UpdatesMatchKeys` | www/d3.v2.js:1648-1652 | An updated node has the key of its datum, and no node is updated twice |
| `DataJoin.BindKeyed` | www/d3.v2.js:1637-1664 | The three loops fill update, enter and exit as specified: each datum is in exactly one of update and enter, updated nodes carry their datum, and no other node is touched |
| `DataJoin.IndexByKey` | www/d3.v2.js:1638-1647 | The first node of each key is indexed, the others stand behind the data in order |
| `DataJoin.JoinData` | www/d3.v2.js:1648-1659 | Each datum takes the node of its key once, and later data of that key enter |
| `DataJoin.ExitUnmatched` | www/d3.v2.js:1660-1664 | Exactly the nodes whose key is left go to exit at their own index |
| `DataJoin.BindByIndex` | www/d3.v2.js:1665-1687 | Each node is in exactly one of update and exit, each datum in exactly one of update and enter, by index; places without a node let their datum enter |
| `Bundle.BundlePath` | www/d3.v2.js:3819-3831 | The path goes up from the source to the deepest common ancestor and down to the target by single parent steps and meets no node twice; it fails exactly for nodes of different trees |
| `Bundle.LeastCommonAncestor` | www/d3.v2.js:3842-3851 | The shared node is an ancestor of both and below every other one; there is none exactly for nodes of different trees |
| `Bundle.LastShared` | www/d3.v2.js:3844-3850 | Popping both chains stops after their longest common end, and never runs on with both exhausted |
| `Bundle.Ancestors` | www/d3.v2.js:3832-3841 | The chain from the node to its root |
| `Bundle.LongestSuffix` | www/d3.v2.js:3844-3850 | The longest common end of two chains begins at the deepest common ancestor |
| `Bundle.UpAndDown` | www/d3.v2.js:3820-3830 | The two parts make a path without repetition |
| `Bundle.Aside` | www/d3.v2.js:3819-3831 | Below the deepest common ancestor the two chains share no node |
| `Swar.LessThanIsExact` | src/mprmpr/base/bits.h:242-251 | True for every word and c if and only if some byte is less than c, despite borrows between bytes, for words of one byte or an even number |
| `Swar.ContainByteIsExact` | src/mprmpr/base/bits.h:253-256 | True if and only if some byte equals c |
| `Swar.AllInRangeIs` | src/mprmpr/base/bits.h:258-273 | True if and only if all bytes are in the range and, for words of one or two bytes, the range is empty, has at most 128 values or is complete |
| `Swar.NarrowWordDenied` | src/mprmpr/base/bits.h:258-273 | The byte 5 in the range from 0 to 200, which the uint8 instance denies |
| `Swar.NarrowRange` | src/mprmpr/base/bits.h:266-270 | The two-sided test is exact for ranges of at most 128 values |
| `Swar.WideRange` | src/mprmpr/base/bits.h:271-272 | The shifted test is exact for words of four bytes and more |
| `Swar.WideRangeOfInt` | src/mprmpr/base/bits.h:271-272 | For narrow words the deduced template argument is int, and the answer is true only for the complete range |
| `Swar.PatternsAre` | src/mprmpr/base/bits.h:129-134 | l is the sum of the powers of 256 and h the high bit of every byte |
| `Swar.AddToAll` | src/mprmpr/base/bits.h:246-272 | A byte of a sum comes out right when no byte below it overflows |
| `Swar.LessDigit` | src/mprmpr/base/bits.h:249-250 | The same for bytes - l * c in the arithmetic of the type, promotions included |
| `Swar.AndHighs` | src/mprmpr/base/bits.h:249 | The masked AND is zero exactly when no byte has both high bits |
| `Uint128.Uint128.Multiply` | src/mprmpr/base/int128.h:287-308 | Multiplication modulo 2^128 for all operands, also when both are the same object |
| `Uint128.Uint128.Accumulate` | src/mprmpr/base/int128.h:300-307 | The second half of the product: high terms without carries, the others one at a time |
| `Uint128.ProductByParts` | src/mprmpr/base/int128.h:287-308 | What the method adds up from 32-bit parts is the product modulo 2^128 |
| `Uint128.Uint128.Add` | src/mprmpr/base/int128.h:270-277 | Addition modulo 2^128, also to itself |
| `Uint128.Uint128.Subtract` | src/mprmpr/base/int128.h:279-285 | Subtraction modulo 2^128, also from itself |
| `Uint128.Uint128.Negated` | src/mprmpr/base/int128.h:143-151 | The negative modulo 2^128 |
| `Uint128.Uint128.Complemented` | src/mprmpr/base/int128.h:159-161 | 2^128 - 1 minus the value |
| `Uint128.Uint128.FromInt` | src/mprmpr/base/int128.h:114-118 | The int modulo 2^128, so a negative one is extended with its sign |
| `Uint128.Uint128.Copy` | src/mprmpr/base/int128.h:109 | The same value |
| `Uint128.Uint128.Logic` | src/mprmpr/base/int128.h:175-184 | The bitwise operator on the whole 128 bits |
| `Uint128.Uint128.ShiftLeft` | src/mprmpr/base/int128.h:224-239 | Multiplication by 2^amount modulo 2^128 for every amount |
| `Uint128.Uint128.ShiftedLeft` | src/mprmpr/base/int128.h:190-205 | The same value from the operator that leaves its operand alone |
| `Uint128.Uint128.ShiftedRight` | src/mprmpr/base/int128.h:207-222 | Division by 2^amount for every amount |
| `Uint128.Uint128.ShiftRight` | src/mprmpr/base/int128.h:241-256 | Division by 2^amount below 64 and from 128 on, and zero in between |
| `Uint128.RightShiftsAgree` | src/mprmpr/base/int128.h:241-256 | The two right shifts agree if and only if the amount is below 64 or at least 128, or the value is less than 2^amount |
| `Uint128.RightShiftsDiffer` | src/mprmpr/base/int128.h:248-250 | 2^64 shifted right by 64, which is 1 and becomes 0 in place |
| `Uint128.Uint128.Increment` | src/mprmpr/base/int128.h:322-325 | Adds one modulo 2^128 |
| `Uint128.Uint128.PostIncrement` | src/mprmpr/base/int128.h:310-314 | Adds one and returns the value before |
| `Uint128.Uint128.Decrement` | src/mprmpr/base/int128.h:327-330 | Subtracts one modulo 2^128 |
| `Uint128.Uint128.PostDecrement` | src/mprmpr/base/int128.h:316-320 | Subtracts one and returns the value before |
| `Uint128.Compare` | src/mprmpr/base/int128.h:127-137 | The four comparisons by halves are those of the values |
| `Uint128.Equal` | src/mprmpr/base/int128.h:94-97 | Equality of the values |
| `Uint128.IsZero` | src/mprmpr/base/int128.h:153-155 | True exactly for zero |
| `Endian.LoadLittle64Variable` | src/mprmpr/base/endian.h:141-153 | The do-while loop gives the sum of its chars, whether char is signed or not |
| `Endian.UnsignedLoadIsSum` | src/mprmpr/base/endian.h:124-153 | With unsigned chars that sum is the promised sum of p[i] * 256^i |
| `Endian.SignedLoadIsSum` | src/mprmpr/base/endian.h:141-153 | With signed chars it is, if and only if the load has eight bytes and ones above every byte of 128 or more, or there is no such byte |
| `Endian.SignedByteSpoils` | src/mprmpr/base/endian.h:141-153 | The byte 200 alone, which a signed char turns into a word of ones above it |
| `Endian.LoadLittle128Variable` | src/mprmpr/base/endian.h:175-183 | The same for up to sixteen bytes: with unsigned chars the sum of the bytes; with signed ones if and only if, among the chars that are read one by one, a byte of 128 or more has eight of them and only ones above it |
| `Endian.LoadBig64Variable` | src/mprmpr/base/endian.h:271-281 | The 64-bit load modulo 256^len, which is the number of the last len of the eight bytes |
| `Endian.BigLoadIsSum` | src/mprmpr/base/endian.h:255-281 | It is the sum that its comment promises if and only if the first len bytes are the last len of the eight in reverse |
| `Endian.BigLoadMissesByte` | src/mprmpr/base/endian.h:255-281 | A byte of 1 and seven of 0: the promised sum of the first byte is 1, the load gives 0 |
| `Endian.LoadBig128Variable` | src/mprmpr/base/endian.h:303-312 | The 128-bit load modulo 256^len, which is the number of the last len of the sixteen bytes |
| `Endian.Load64Is` | src/mprmpr/base/endian.h:121-123 | On a host of either byte order, the number that the bytes are in the order of the class |
| `Endian.Load128Is` | src/mprmpr/base/endian.h:159-163 | The same for sixteen bytes, in both classes |
| `Endian.Store64` | src/mprmpr/base/endian.h:155-157 | The eight bytes of the number in the order of the class, on every host, and no other byte changes |
| `Endian.Store128` | src/mprmpr/base/endian.h:165-169 | The same for sixteen bytes |
| `Endian.LoadInvertsStore` | src/mprmpr/base/endian.h:287-297 | What Store128 wrote, Load128 of the same class reads |
| `Endian.StoreInvertsLoad` | src/mprmpr/base/endian.h:159-169 | What Load128 read, Store128 of the same class writes back |
| `Endian.Swap64Reverses` | src/mprmpr/base/endian.h:27-28 | The swap reverses the eight bytes |
| `Endian.Swap64Involutive` | src/mprmpr/base/endian.h:51-52 | The swap is its own inverse |
| `Endian.Swap32Reverses` | src/mprmpr/base/port.h:128-133 | The masks and shifts reverse four bytes |
| `EnumCasts.LooseEnumTest` | src/mprmpr/base/casts.h:286-337 | Accepts exactly the numbers from 0, or from -2^k when an enumerator is negative, to 2^k - 1, for ints of 32 and of 64 bits |
| `EnumCasts.ValueBitsAreLeast` | src/mprmpr/base/casts.h:260-281 | k covers both enumerators and is the least such number |
| `EnumCasts.TightIsLoose` | src/mprmpr/base/casts.h:340-345 | Every number between the enumerators passes the loose test |
| `EnumCasts.LooseEnumTestCast` | src/mprmpr/base/casts.h:348-355 | Assigns the number exactly when it passes the loose test |
| `EnumCasts.TightEnumTestCast` | src/mprmpr/base/casts.h:358-365 | Assigns the number exactly when it lies between the enumerators |
| `EnumCasts.SmearRight` | src/mprmpr/base/casts.h:323-333 | Setting all bits right of the highest one gives 2^k - 1 |
| `EnumCasts.ClearRight` | src/mprmpr/base/casts.h:303-313 | Clearing all bits right of the highest clear one gives -2^k for a negative number and zero otherwise |
| `EnumCasts.TopDoubles` | src/mprmpr/base/casts.h:324-333 | A step with a shift by n doubles the n top bits that are set |
| `BitSearch.Log2FloorPortable` | src/mprmpr/base/bits.cc:57-72 | -1 for zero and otherwise the r with 2^r <= n < 2^(r+1) |
| `BitSearch.FloorLogIsUnique` | src/mprmpr/base/bits.cc:57-72 | There is one such r |
| `BitSearch.Log2Floor64Portable` | src/mprmpr/base/bits.h:210-218 | The same for 64 bits, from the half that counts |
| `BitSearch.Log2Ceiling` | src/mprmpr/base/bits.cc:74-80 | -1 for zero and otherwise the r with 2^(r-1) < n <= 2^r |
| `BitSearch.Log2Ceiling64` | src/mprmpr/base/bits.cc:82-88 | The same for 64 bits |
| `BitSearch.CeilingLogIsLeast` | src/mprmpr/base/bits.cc:74-88 | That r is the least with n <= 2^r |
| `BitSearch.CeilingFromFloor` | src/mprmpr/base/bits.cc:76-79 | n equals n & ~(n - 1) exactly when the floor is the ceiling, zero included |
| `BitSearch.LowestBitIs` | src/mprmpr/base/bits.cc:76 | n & ~(n - 1) is the lowest set bit of n |
| `BitSearch.FindLSBSetNonZeroPortable` | src/mprmpr/base/bits.cc:90-101 | The index of the lowest set bit of a number that is not zero |
| `BitSearch.FindLSBSetNonZero64Portable` | src/mprmpr/base/bits.h:232-240 | The same for 64 bits |
| `BitSearch.LowestSetIsUnique` | src/mprmpr/base/bits.cc:90-101 | There is one such index |
| `BitCount.TableIsRight` | src/mprmpr/base/bits.cc:12-28 | Every entry of the table is the number of bits of its index |
| `BitCount.Count` | src/mprmpr/base/bits.cc:30-36 | The number of one bits in the bytes |
| `BitCount.Difference` | src/mprmpr/base/bits.cc:38-45 | The number of positions at which the bytes differ |
| `BitCount.CappedDifference` | src/mprmpr/base/bits.cc:47-55 | The difference when it is at most the cap; otherwise a number above the cap and not above the difference |
| `BitCount.XorMarksDifferences` | src/mprmpr/base/bits.cc:43 | The one bits of an exclusive or are the differing positions |
| `SidewaysAddition.CountOnesIsRight` | src/mprmpr/base/bits.h:28-32 | CountOnes is the number of one bits, for every 32-bit number |
| `SidewaysAddition.CountOnes64IsRight` | src/mprmpr/base/bits.h:35-40 | CountOnes64 is the number of one bits, for every 64-bit number |
| `SidewaysAddition.SidewaysIsRight` | src/mprmpr/base/bits.h:28-40 | The same for words of any number of bytes whose bits can be counted in one |
| `SidewaysAddition.Pairs` | src/mprmpr/base/bits.h:29 | After the first step every pair of bits holds its count |
| `SidewaysAddition.Nibbles` | src/mprmpr/base/bits.h:30 | After the second step every nibble holds its count |
| `SidewaysAddition.ByteCounts` | src/mprmpr/base/bits.h:31 | After the third step every byte holds its count, and no sum has overflowed |
| `SidewaysAddition.ProductIsTotals` | src/mprmpr/base/bits.h:31 | The multiplication turns the byte counts into running totals |
| `SidewaysAddition.TopTotal` | src/mprmpr/base/bits.h:31 | The top byte of the totals is the number of all bits |

## Left out

What the whole model idealises:

- Double arithmetic: coordinates, charges and times are real numbers, so rounding, NaN inputs and -0 do not occur; a
  quotient by zero is modelled as a missing number in the force layout, and as JavaScript has it in the treemap.
- `Math.atan2` is represented by the direction of its arguments, ordered by cross product around the anchor, which is the
  order of the angles in exact arithmetic.
- `Array.prototype.sort` is represented by its contract; the insertion sort in `Hull.SortByAngle` only shows that the
  contract can be met.
- Strings are sequences of Unicode characters, where JavaScript counts in UTF-16 code units; no step of the printer or the
  parser takes a pair of surrogates apart.

What single modules leave out:

- Dsv.RoundTrip: delimiters that mean something inside a pattern's brackets (`^`, `]`, `\`, `-`), or that are longer than one
  character, are not covered; quotes and line breaks as delimiters make the format ambiguous.
- `dsv.parse` with its header row, the callback of `parseRows`, and loading over the network.
- Clip.Subject.Clip: the subject and the clip polygon are different arrays.
- `area` and `centroid` of polygons: sums without branches.
- QuadTree.Insert: is for points inside the root cell; `QuadTreeEnds.Attempt` is the same without that restriction, where a
  recursion that does not end stands for the overflow of the stack. NaN coordinates, which the insertion ignores, and
  points given as pairs are not modelled.
- ForceAccumulate.ForceNode.Accumulate: every point's index is in the list of charges, as the layout fills it.
- The force tick itself, links, gravity and drag: the tick's cooling and forces have no exact law to prove.
- Treemap.Layout: what the boxes hold when it throws is not said; the wanted ratio is positive; the sticky mode, which places
  rows remembered from an earlier layout, is not modelled.
- TimerList.Timers.MakePass: the clock, animation frames, timeouts and the check that a delay is finite are not modelled,
  and a callback does not itself flush the queue.
- TransitionNodes.Element.Schedule: event listeners, easing and tween functions are left out, and no listener flushes the
  timer queue while a step is going on.
- DataJoin.BindKeyed: the nodes of a group are different objects and none is missing, since the source reads the data of
  each; keys are strings and depend on datum and index.
- Entering nodes of the join are represented by their datum, and the DOM operations on the three selections are left out.
- Bundle.BundlePath: parents do not change during the walk; a failure stands for the TypeError on the parent of an undefined
  node.
- Endian: loads and stores of 16 and 32 bits and of machine words add only easy members; an unaligned access is its bytes in
  the order of the host.
- `uint128` output to streams, and conversions that only copy.
- BitSearch.Log2FloorPortable: stands also for the variants for numbers that are not zero and for the compiler's builtins,
  which are defined to give the same number.
- CountOnes64 by halves on machines other than x86-64, and by the popcnt instruction.
- `ReverseBits8`, `ReverseBits32`, `ReverseBits64`: fixed permutations of the bits of one word.
- EnumCasts.LooseEnumTest: the compile-time assertions are its preconditions; the casts that log a bad value are left out.
- `d3.bisector` and the histogram layout: textbook loops that would only add easy members.
- Colours, projections, Voronoi diagrams, circle packing, dates, axes, brushes, zoom and all drawing: approximate
  arithmetic, the host's calendar, or user interface.
- Callbacks, smart pointers, atomics, assembly and system calls under `src/mprmpr/base`: their content is in C++ types or
  in the platform.
- The servers, the RPC layer, the file system and the general utilities in the other directories of `src/mprmpr` are not
  part of this model.

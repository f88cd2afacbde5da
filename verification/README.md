# Models of OpenVoxDB's algorithms, verified in Dafny

This project models two groups of code of the OpenVoxDB repository and proves what they guarantee.

The first group is the copy of d3 behind the dashboard (`resources/public/dashboard/d3.v2.js`): the convex hull, the
squarified treemap, the quadtree, string interpolation, the CSV reader and printer, the date templates, the keyed data
join, the timer queue, and the lock by which transitions preempt each other. The second group is what talks to the
database: the HTTP client of the Puppet terminus with its failover, broadcast and ejection of hosts, the synthesis of
catalog edges, the fact filter, the coercion of payloads to UTF-8, and the throttled command pipe of the load simulator.

`dafny verify dfyconfig.toml` checks everything. There is one module for each component:

| file | module | what it models |
|---|---|---|
| `Hull.dfy` | `ConvexHull` | `d3.geom.hull` |
| `Treemap.dfy` | `Treemap` | `d3.layout.treemap` without stickiness |
| `Quadtree.dfy` | `Quadtree` | `d3.geom.quadtree` and its visits |
| `Interpolate.dfy` | `InterpolateString` | `d3.interpolateString` |
| `Csv.dfy` | `Csv` | `d3.csv.parseRows` and `d3.csv.format` |
| `Calendar.dfy` | `Calendar` | the `Date` setters that `format.parse` uses |
| `DateFormat.dfy` | `DateFormat` | `d3.time.format` and `d3_time_parse`, numeric directives |
| `DataJoin.dfy` | `DataJoin` | `bind` of `selection.data` |
| `Timer.dfy` | `TimerQueue` | `d3.timer` and its queue |
| `Transition.dfy` | `TransitionLock` | the lock in `d3_transition` |
| `Http.dfy` | `Http` | `Http.action` and the settings it relies on |
| `Edges.dfy` | `CatalogEdges` | `synthesize_edges` |
| `Facts.dfy` | `FactFilter` | `filter_facts` and the payload of `save` |
| `Utf8.dfy` | `Utf8` | `coerce_to_utf8` and `coerce_payload` |
| `Throttle.dfy` | `Throttle` | `CommandPipe` |
| `Options.dfy`, `Decimals.dfy` | `Options`, `Decimals` | an option type, and decimal notation |

Code that changes things step by step is a method or a class here, proved equal to a function of its inputs or of the
old state; the lemmas say what that function promises. Protocols (transitions, workers of the command pipe, runs of
HTTP requests) are state machines, and the results hold in every reachable state of every interleaving.

## What the code does differently from what one may expect

These are results of the models: each has its exact condition, and an input that shows it.

- The hull of three or more points is not always a hull. If the lowest, leftmost point occurs again and nothing lies
  due right of it, the polygon starts with that point twice (`ConvexHull.RepeatedReferenceExample`); and the program
  throws exactly when all other points are seen from it under one angle, which for distinct points means that all are
  on one line (`ConvexHull.CollinearExample`). `ConvexHull.HullOutcome` has both conditions.
- A CSV file reads back as the printed rows exactly when every row has a field, the very last field is not empty, and a
  field with a carriage return also has a quote, a comma or a line feed (`Csv.Faithful`): `\r` alone does not make the
  printer quote (`Csv.CarriageReturnExample`).
- Padding of a treemap node can leave the node (`Treemap.PadOutsideExample`): where two sides use up all the room, the
  empty rectangle lies inside exactly if they do not differ by more than the room there was (`Treemap.PadInside`).
- What a date template prints does not always parse. A `%%` prints a percent sign but never parses it again
  (`DateFormat.PercentIsNotRead`), and a year that is printed with a minus sign is not read. Where parsing succeeds,
  the date has every field the template mentions, the year modulo 10000, except that 29 February comes back as 1 March
  when the template has month and day but no year (`DateFormat.LeapDayOf2012`, `DateFormat.RoundTrip`).
- In a data join with repeated node keys, a node can be lost (`DataJoin.LostNode`) or leave twice
  (`DataJoin.NodeTwice`); `DataJoin.SplitsNodes` says exactly when neither happens.
- A timer that is added again after its callback returned true, in the same step, is dropped all the same
  (`TimerQueue.ReaddedInStep`). `TimerQueue.StepFlags` says which timers are flagged at the end of a step, and
  `TimerQueue.StepKeeps` which stay.
- A smaller transition can take over a node after a larger one (`TransitionLock.SmallerAfterLarger`): exactly if it was
  scheduled when every run that shares the larger one's lock had stopped (`TransitionLock.StartsIff`).
- A quadtree with bounds that the caller gives can split for ever (`Quadtree.NeverEndsExample`): exactly if a point
  comes to a leaf whose point is not close to it and from which no splitting separates it (`Quadtree.EndsIff`), which
  in bounds with an inside is to say that both are nearest to the same point of the bounds (`Quadtree.StuckIs`).
  Points that could not be built alone can be with another one between them (`Quadtree.InBetweenExample`).
- The index named after the last good query server is also written by command failovers, for a longer list. A sticky
  query can so start at a server that failed last (`Http.CommandMovesSticky`); `Http.StickyStartsWhereItSucceeded` says
  exactly where it starts, and a rotation by any index still visits every server once.
- A `File` resource whose own title ends in a slash is not found under its own name
  (`CatalogEdges.TrailingSlashExample`), unless no other resource has the title without the slash and it is itself the
  last to declare that as an alias (`CatalogEdges.OwnNameResolves`, `CatalogEdges.AliasWithoutSlashExample`).
- A payload string in another encoding than UTF-8 is reported as lossy when it has a byte above 127, even if no byte of
  it changes (`Utf8.OtherTagExample`, `Utf8.Lossy`).
- The command pipe's documentation promises access in order of the update time. Two workers can stamp in one order and
  append in the other (`Throttle.OrderCanBreak`); the queue stays in order exactly as long as no record is appended
  behind a later one (`Throttle.OrderOfRun`), as with one worker always (`Throttle.OneWorkerKeepsOrder`). Its
  constructor spreads the hosts over the interval in seconds, taken as milliseconds.

## Model

| member | source | states |
|---|---|---|
| ConvexHull.Hull | resources/public/dashboard/d3.v2.js:7966-8045 | For fewer than three vertices the result is empty; otherwise the scan throws iff all other vertices are seen from the lowest, leftmost one under one angle, and the polygon is the convex hull (sublist, strictly convex including the wrap-around, all vertices left of every edge) iff that vertex is not repeated or has another one due right of it |
| ConvexHull.OneDirectionIsCollinear | resources/public/dashboard/d3.v2.js:8020-8027 | For distinct vertices the case in which the scan throws is that all lie on one line |
| ConvexHull.AngleIsTurn | resources/public/dashboard/d3.v2.js:7984-7991 | Around the reference vertex, the order of the angles is the sign of the cross product, and equal angles are a zero cross product |
| ConvexHull.FindReference | resources/public/dashboard/d3.v2.js:7975-7982 | The reference is the first of the lowest, then leftmost vertices |
| ConvexHull.Bearings | resources/public/dashboard/d3.v2.js:7984-7991 | Every other vertex is listed once with its angle, in order of angle |
| ConvexHull.TossDuplicateAngles | resources/public/dashboard/d3.v2.js:7993-8018 | One entry survives for each angle, and no vertex under that angle is farther from the reference |
| ConvexHull.TossedSurvivors | resources/public/dashboard/d3.v2.js:7993-8018 | Successive survivors turn strictly left around the reference, except that the first may be a copy of it |
| ConvexHull.TossedInHull | resources/public/dashboard/d3.v2.js:8003-8012 | A vertex that is tossed lies in every closed half plane that holds the reference and the vertex kept instead |
| ConvexHull.PushKeepsConvex | resources/public/dashboard/d3.v2.js:8030-8037 | A vertex that turns left of the last edge and comes later in angle keeps the whole chain strictly convex |
| ConvexHull.PopKeepsHull | resources/public/dashboard/d3.v2.js:8033-8035 | A popped vertex lies in the hull of the reference, its predecessor and the new vertex |
| ConvexHull.Scan | resources/public/dashboard/d3.v2.js:8020-8044 | The stack never drops below two entries; the result is strictly convex after a possible copy of the reference, and every survivor is in its hull |
| ConvexHull.FirstSurvivorCopies | resources/public/dashboard/d3.v2.js:8020-8027 | The first stacked survivor equals the reference iff the reference is repeated and no vertex lies due right of it |
| ConvexHull.RepeatedReferenceExample | resources/public/dashboard/d3.v2.js:8020-8044 | A square corner given twice with nothing due right of it makes a polygon that is no hull |
| ConvexHull.CollinearExample | resources/public/dashboard/d3.v2.js:8020-8027 | Three points on a line make the scan throw |
| ConvexHull.ScanOutcome | resources/public/dashboard/d3.v2.js:7966-8045 | From the scan's result to the exact condition for a convex hull |
| ConvexHull.ConvexCoverIsHull | resources/public/dashboard/d3.v2.js:8039-8044 | A strictly convex polygon of vertices whose half planes cover all vertices has every vertex on or left of every edge |
| Treemap.Layout | resources/public/dashboard/d3.v2.js:6773-6785 | The root gets the whole size, and throughout the tree the children of a node tile its padded rectangle in squarified rows; without rounding they share it in proportion to their values |
| Treemap.Squarify | resources/public/dashboard/d3.v2.js:6658-6691 | The recursion ends, and below the node every level tiles its padded parent in squarified rows, for any rounding that is not negative on non-negative input |
| Treemap.SquarifyChildren | resources/public/dashboard/d3.v2.js:6658-6688 | The greedy loop ends, and returns the rows, which are the children from the last to the first: each lies along the shorter side of what was free and takes its strip of that; adding a child to its row never raised the elongation of the longest tile there, and adding the first child of the next row would have; the boxes tile the padded node, and without rounding each has its share |
| Treemap.SquarifyEach | resources/public/dashboard/d3.v2.js:6689 | Laying out the children's children moves no child |
| Treemap.Position | resources/public/dashboard/d3.v2.js:6737-6771 | A row lies along the shorter side, takes a strip as thick as its rounded area calls for and tiles it, and the rest stays free; a flushed row takes all; without rounding each tile has its area and the rest loses exactly the area of the row |
| Treemap.PositionAcross | resources/public/dashboard/d3.v2.js:6744-6756 | A horizontal row puts its tiles side by side in order, each as wide as its rounded share calls for, and the last one takes what is left of the strip |
| Treemap.PositionDown | resources/public/dashboard/d3.v2.js:6757-6770 | A vertical column puts its tiles one below the other in order, each as high as its rounded share calls for, and the last one takes what is left of the strip |
| Treemap.Worst | resources/public/dashboard/d3.v2.js:6717-6734 | The score is finite iff row area and side are positive, and then it is the largest elongation of a tile that has an area |
| Treemap.KeepsIff | resources/public/dashboard/d3.v2.js:6674-6676 | Comparing the scores with and without the child decides exactly whether some tile of the row with the child is longer than every tile without it |
| Treemap.ElongationIsAspect | resources/public/dashboard/d3.v2.js:6717-6734 | The elongation of a tile that fills its area in a row is its aspect ratio measured in the target ratio, or the reciprocal, whichever is larger |
| Treemap.InRowTiles | resources/public/dashboard/d3.v2.js:6737-6771 | Tiles put in a row so leave no gap and no overlap in their strip, and without rounding each has its area |
| Treemap.Scale | resources/public/dashboard/d3.v2.js:6646-6655 | Every child's area is its share of the rectangle, 0 where the quotient is not a number |
| Treemap.SharesAddUp | resources/public/dashboard/d3.v2.js:6669 | The shares of the children add up to the rectangle in proportion to their total value |
| Treemap.TilesAreDisjoint | resources/public/dashboard/d3.v2.js:6737-6771 | Two tiles of a tiling share no point |
| Treemap.TilesReversed | resources/public/dashboard/d3.v2.js:6671-6675 | That children are taken from the end does not matter for the tiling |
| Treemap.GreedyFinish | resources/public/dashboard/d3.v2.js:6685-6688 | Flushing the last row into the rest completes the tiling by all children |
| Treemap.RowHeight | resources/public/dashboard/d3.v2.js:6742-6745 | Without rounding, clamped or not, the row is as high as its area calls for |
| Treemap.CutRestByRow | resources/public/dashboard/d3.v2.js:6755-6756 | Cutting a tiled strip off the free rectangle keeps the tiling of the whole |
| Treemap.PadInside | resources/public/dashboard/d3.v2.js:6841-6849 | For any padding, also a negative one: the padded rectangle is inside its node iff on each axis the sides leave room and neither is negative, or they use it up and differ by no more than there was |
| Treemap.PadMargins | resources/public/dashboard/d3.v2.js:6841-6849 | On each axis the margins are the two sides, and where these leave no room they differ as the sides do around an empty rectangle |
| Treemap.PadOutsideExample | resources/public/dashboard/d3.v2.js:6841-6849 | Padding by 3 on the left of a node of width 1 puts the empty rectangle beyond it |
| Quadtree.QuadNode.Insert | resources/public/dashboard/d3.v2.js:8626-8648 | Insertion ends and turns the node's tree into the tree the specification gives, for any cell and any point that is not stuck, which is where the original ends |
| Quadtree.QuadNode.InsertChild | resources/public/dashboard/d3.v2.js:8652-8668 | The point goes down into the quadrant that comparing with the middle picks, whose node is made if needed |
| Quadtree.Inserted | resources/public/dashboard/d3.v2.js:8626-8648 | Where insertion ends, exactly the given point is added to the stored points; a point with a NaN coordinate changes nothing |
| Quadtree.InsertedBelow | resources/public/dashboard/d3.v2.js:8652-8668 | The same for insertion below a node, which is a leaf no more |
| Quadtree.EndsIff | resources/public/dashboard/d3.v2.js:8626-8668 | For any tree, cell and point: some number of nested calls is enough iff the leaf that the point comes to has no point that is neither close nor separable from it, and then the result is the specified tree |
| Quadtree.EndsIf | resources/public/dashboard/d3.v2.js:8653-8667 | An insertion that is not stuck ends within a number of nested calls that is computed from tree, point and cell |
| Quadtree.StuckIs | resources/public/dashboard/d3.v2.js:8635-8641 | In bounds with an inside, a point is stuck iff the leaf it comes to has a point that is not close but nearest to the same point of the bounds |
| Quadtree.NeverEndsExample | resources/public/dashboard/d3.v2.js:8635-8667 | In the unit square, a point at (3, 3) that comes to a leaf with one at (2, 2) is not inserted by any number of nested calls |
| Quadtree.NeverSeparated | resources/public/dashboard/d3.v2.js:8653-8667 | Two points go into the same quadrants at any number of splits iff they are inseparable, for any bounds, also without width or upside down |
| Quadtree.SplitsFall | resources/public/dashboard/d3.v2.js:8653-8667 | While two separable points share a quadrant, the bound on the splits still needed falls |
| Quadtree.InsertedFits | resources/public/dashboard/d3.v2.js:8652-8668 | Insertion keeps every stored point below the child that is chosen for it |
| Quadtree.WayHolds | resources/public/dashboard/d3.v2.js:8653-8667 | The cells on a point's way down contain it or, out of bounds, the nearest point of the bounds |
| Quadtree.PointsAreIn | resources/public/dashboard/d3.v2.js:8586-8587 | Whatever is stored below a cell has that cell on its way down, so the cell contains it or, out of bounds, the nearest point to it |
| Quadtree.BuildingEndsIff | resources/public/dashboard/d3.v2.js:8682 | Inserting a list of points ends iff none is stuck when its turn comes, and then gives the specified tree |
| Quadtree.CloseNeighboursBuild | resources/public/dashboard/d3.v2.js:8682 | That is so if, of the inseparable points of the list, each is close to the one before it |
| Quadtree.FarNeighboursStop | resources/public/dashboard/d3.v2.js:8682 | It is not if two such points in a row are not close and no point between them in the list is close to the first |
| Quadtree.InBetweenExample | resources/public/dashboard/d3.v2.js:8626-8682 | Of three points in a row beyond a corner, the first and the last alone cannot be built, and with the middle one they can |
| Quadtree.InsideBuilds | resources/public/dashboard/d3.v2.js:8604-8621 | Any points within the bounds can be built |
| Quadtree.BuildStores | resources/public/dashboard/d3.v2.js:8682 | Every valid point is stored as often as it was given where it belongs, and nothing else is, for every list on which building ends |
| Quadtree.FoundIsScan | resources/public/dashboard/d3.v2.js:8694-8704 | A visit that prunes only cells without wanted points finds every wanted stored point as often as it is stored |
| Quadtree.PrunesOutside | resources/public/dashboard/d3.v2.js:8694-8704 | It is safe to prune cells that contain no wanted point nor the nearest point of the bounds to one |
| Quadtree.QueryIsScan | resources/public/dashboard/d3.v2.js:8590-8704 | Building the index and visiting it finds exactly what a linear scan of the points finds, each as often |
| Quadtree.Visit | resources/public/dashboard/d3.v2.js:8694-8704 | The recursive visit appends what the specification of a pruned visit finds |
| Quadtree.Bounds | resources/public/dashboard/d3.v2.js:8604-8621 | The computed bounds are the square, from the lower corner, over the least box that contains every valid point |
| Quadtree.Index | resources/public/dashboard/d3.v2.js:8590-8684 | The root holds the tree of all points within the computed bounds, and building it ends for every list |
| Quadtree.IndexWithin | resources/public/dashboard/d3.v2.js:8597-8603 | With any bounds given by the caller, the root holds the tree of all points, those outside included, whenever building ends |
| InterpolateString.Interpolate | resources/public/dashboard/d3.v2.js:964-1040 | For every way to show a number, the interpolator renders the literals of `b` and its numbers in turn, a number being interpolated iff its counterpart in `a` exists and differs; every remaining entry points at a placeholder |
| InterpolateString.Split | resources/public/dashboard/d3.v2.js:978-985 | The slots alternate between the text around the numbers and placeholders, and entry `j` points at placeholder `j` |
| InterpolateString.PairUp | resources/public/dashboard/d3.v2.js:987-1016 | Through all splices the slots keep that shape, the indexes keep pointing at the placeholders, and the meaning becomes the expected one, which `AtTime` says at every time |
| InterpolateString.Coalesce | resources/public/dashboard/d3.v2.js:990-1009 | Merging one number with its neighbours gives the shape for the merged literals and shifts the later indexes to match |
| InterpolateString.JoinHole | resources/public/dashboard/d3.v2.js:991-1008 | The text of a placeholder and its neighbouring strings become one string; the reported shift is what the splice removed |
| InterpolateString.GapsAndTexts | resources/public/dashboard/d3.v2.js:978-985 | The text around the matches and the matches themselves concatenate back to `b` |
| InterpolateString.ExpectedIsText | resources/public/dashboard/d3.v2.js:1030-1033 | With nothing to interpolate the meaning is `b` |
| InterpolateString.JoinShape | resources/public/dashboard/d3.v2.js:1036-1039 | Filling the placeholders and joining renders the literals and values in turn |
| InterpolateString.PairedMerge | resources/public/dashboard/d3.v2.js:990-1012 | Coalescing an entry keeps the meaning of the prefix dealt with and of the rest |
| InterpolateString.UnwindStep | resources/public/dashboard/d3.v2.js:1018-1028 | Turning the last entry back into text keeps the meaning; a string after it exists iff the slots end in one or one was made before |
| InterpolateString.UnwoundRenders | resources/public/dashboard/d3.v2.js:1030-1040 | After unwinding, the template, the lone number and the constant `b` each render the expected meaning in their case |
| InterpolateString.AtOne | resources/public/dashboard/d3.v2.js:1036-1039 | At `t = 1` the result is `b` with every interpolated number respelled |
| InterpolateString.AtOneIsTarget | resources/public/dashboard/d3.v2.js:1036-1039 | If numbers print as they were spelled, the result at `t = 1` is `b` |
| InterpolateString.AtTime | resources/public/dashboard/d3.v2.js:987-1039 | At any time, within 0 to 1 or not, the result is `b` with every number that has a counterpart in `a` at its share `1 - t` of that and `t` of its own and every other as spelled, if numbers spelled alike in both print as spelled |
| InterpolateString.AtZero | resources/public/dashboard/d3.v2.js:987-1039 | At `t = 0`, if the numbers of `a` print as spelled, the result is `b` with the numbers of `a` in the place of its own, as far as `a` has any |
| InterpolateString.Apply | resources/public/dashboard/d3.v2.js:1036-1039 | The returned closure renders the template |
| Csv.Reader.Next | resources/public/dashboard/d3.v2.js:6881-6914 | A token is the end of file iff no text is left, before a pending end of line, before the next field of the text that is left |
| Csv.Reader.NextQuoted | resources/public/dashboard/d3.v2.js:6886-6904 | A quoted token is the text up to the closing quote with doubled quotes undone, and consumes the separator after it |
| Csv.Reader.NextPlain | resources/public/dashboard/d3.v2.js:6906-6913 | A plain token is the text up to the first separator or the end, and consumes the separator |
| Csv.ReadRow | resources/public/dashboard/d3.v2.js:6917-6921 | The inner loop reads one row of what is left |
| Csv.ParseRows | resources/public/dashboard/d3.v2.js:6916-6926 | The two loops with their flag compute the recursive meaning of the text |
| Csv.RoundTrip | resources/public/dashboard/d3.v2.js:6869-6940 | Reading what was printed gives the same rows iff every row has a field, the very last field is not empty, and a field with a carriage return has a quote, comma or line feed |
| Csv.LinesReadBack | resources/public/dashboard/d3.v2.js:6869-6929 | Rows joined by line feeds, carriage returns or both are read back under the same exact condition |
| Csv.FormatIsLines | resources/public/dashboard/d3.v2.js:6932-6934 | Printing joins the rows by line feeds |
| Csv.PrintedAsIs | resources/public/dashboard/d3.v2.js:6936-6940 | A field is printed as it stands iff it has no quote, comma or line feed |
| Csv.RowReadsBack | resources/public/dashboard/d3.v2.js:6932-6934 | A printed row before any end of line is read back and exactly that end of line consumed, and at the end of the text up to an empty last field |
| Csv.UnsafeRowIsCut | resources/public/dashboard/d3.v2.js:6936-6940 | A row with an unquoted carriage return is never read back |
| Csv.CarriageReturnExample | resources/public/dashboard/d3.v2.js:6936-6940 | A field with a carriage return alone is printed unquoted and read as two rows |
| Csv.SafeFieldReadsBack | resources/public/dashboard/d3.v2.js:6936-6940 | A field is read back before a comma, a line feed, a carriage return with or without a line feed, and the end of the text; exactly that is consumed, and whether it ends the line is reported |
| Csv.QuotedFieldReadsBack | resources/public/dashboard/d3.v2.js:6887-6903 | An escaped and quoted field is read back before any of these |
| Csv.PlainFieldReadsBack | resources/public/dashboard/d3.v2.js:6906-6913 | A field without separators is read back before any of these, a carriage return and its line feed being one end of line |
| Csv.JunkIsSkipped | resources/public/dashboard/d3.v2.js:6895-6903 | One character that stands between the closing quote and the rest is lost, and the line goes on |
| Csv.UnclosedTakesAll | resources/public/dashboard/d3.v2.js:6888-6903 | A field whose quote is never closed goes to the end of the text |
| Csv.ScanEscaped | resources/public/dashboard/d3.v2.js:6888-6894 | The search for the closing quote passes over doubled quotes and stops behind the escaped text |
| Csv.UnescapeEscaped | resources/public/dashboard/d3.v2.js:6903 | Undoing doubled quotes inverts doubling them |
| DateFormat.Format | resources/public/dashboard/d3.v2.js:8749-8766 | The copying loop prints each template item in order, a stray percent sign as nothing and an unknown directive as its letter |
| DateFormat.DateFields.ParseTemplate | resources/public/dashboard/d3.v2.js:8789-8806 | The loop returns the position after the last item and the fields set on the way, or -1 as soon as the string has ended, a character differs or a directive cannot be parsed |
| DateFormat.DateFields.Parser | resources/public/dashboard/d3.v2.js:8954-9005 | A numeric parser sets one field to the first number within its width and advances by the length of that number |
| DateFormat.Parse | resources/public/dashboard/d3.v2.js:8768-8780 | A date is returned iff the template consumes the whole string: the one that the setters make of the fields, from the defaults 1900-01-01 and whatever the time was |
| DateFormat.RoundTrip | resources/public/dashboard/d3.v2.js:8746-8787 | Parsing what was printed gives a date iff the template has no stray percent sign, unknown directive or negative year; the date shows every mentioned field (the year modulo 10000) and the default of every other iff it is not a 29 February printed without its year, which becomes 1 March |
| DateFormat.DateRecovered | resources/public/dashboard/d3.v2.js:8776-8779 | The date made of the recovered fields shows them, iff it is not a leap day whose year the template does not mention |
| DateFormat.LeapDayOf2012 | resources/public/dashboard/d3.v2.js:8768-8780 | 29 February 2012 through month and day alone comes back as 1 March 1900 |
| DateFormat.PercentIsNotRead | resources/public/dashboard/d3.v2.js:8789-8806 | A doubled percent sign prints one and parses nothing |
| DateFormat.YearIsCut | resources/public/dashboard/d3.v2.js:8835 | No template with the year reads back what it printed of a negative one |
| Calendar.DateObject.SetFullYear | resources/public/dashboard/d3.v2.js:8777 | Setting year, month and day leaves the time and makes the day they name, carrying days and months that are out of range |
| Calendar.Carried | resources/public/dashboard/d3.v2.js:8777 | The day made of one that its month does not have is the proper day with the same number |
| Calendar.SerialIsUnique | resources/public/dashboard/d3.v2.js:8777 | Two proper days with the same number are the same day |
| Calendar.InRangeKept | resources/public/dashboard/d3.v2.js:8776-8779 | Values that are in range are what the getters show |
| Calendar.DayOfCounts | resources/public/dashboard/d3.v2.js:8777 | Twelve months more are a year more, and days more are as many days later |
| Calendar.InstantKept | resources/public/dashboard/d3.v2.js:8778 | Setting a time out of range keeps the instant in milliseconds |
| Calendar.KnownDays | resources/public/dashboard/d3.v2.js:8777 | The days from the start of 1970 to the leap day of 2000 and to the last days of February 1900 and 2100 |
| Calendar.MonthLengths | resources/public/dashboard/d3.v2.js:8777 | The lengths of the months, with the leap years of the Gregorian rule |
| DateFormat.PrintedReadsBack | resources/public/dashboard/d3.v2.js:8789-8806 | The same for any template behind any text, as to the fields: all printed characters are consumed |
| DateFormat.PaddedReadsBack | resources/public/dashboard/d3.v2.js:8808-8811 | A number padded with zeros or spaces to a width it fits has that width, matches the unanchored number expression as a whole, and reads back as its value |
| DateFormat.FieldReadsBack | resources/public/dashboard/d3.v2.js:8813-8838 | Each numeric directive prints as many characters as its parser looks at, and they read back as the field, except for a negative year |
| DateFormat.DirectivesMean | resources/public/dashboard/d3.v2.js:8813-8833 | Each directive prints the decimal digits of its field at its width, months from 1, `%e` with a space, a negative year with its sign |
| DateFormat.FirstNumberIs | resources/public/dashboard/d3.v2.js:9007-9008 | In any text the number found is the first run of digits with the spaces just before it |
| DateFormat.ParsedIff | resources/public/dashboard/d3.v2.js:8789-8806 | Parsing succeeds iff the string can be cut into one piece for each item, equal to a literal and up to the end of the first number within the width for a directive, and it stops at the last cut |
| DataJoin.BindByKey | resources/public/dashboard/d3.v2.js:1853-1886 | Update, enter and exit hold slot by slot what the keys say; each updated node carries the datum of its last slot, and no other node's datum changes |
| DataJoin.OwnDatum | resources/public/dashboard/d3.v2.js:1853-1886 | With different nodes in the group each updated node carries the datum of its own slot |
| DataJoin.Register | resources/public/dashboard/d3.v2.js:1854-1867 | Each key leads to its first node, and later nodes with the same key stand behind the slots of the data in exit |
| DataJoin.ExitRest | resources/public/dashboard/d3.v2.js:1882-1886 | Exactly the nodes whose keys are still registered are put at their own index, over what stood there |
| DataJoin.DataSplit | resources/public/dashboard/d3.v2.js:1869-1880 | Every datum is in exactly one of update and enter: in update iff a node has its key and no earlier datum does, and then with such a node |
| DataJoin.KeyedPartition | resources/public/dashboard/d3.v2.js:1853-1886 | With different nodes and different node keys, a node is once in update and not in exit if some datum has its key, and once in exit and not in update otherwise |
| DataJoin.SplitsNodes | resources/public/dashboard/d3.v2.js:1854-1886 | For any keys, every node is in exactly one slot of update and exit iff every duplicate with a key among the data keeps its exit slot and every other duplicate's slot is overwritten |
| DataJoin.DistinctKeysSplit | resources/public/dashboard/d3.v2.js:1854-1886 | Pairwise distinct node keys leave no duplicate, and every node is in exactly one slot whatever the data keys |
| DataJoin.LostNode | resources/public/dashboard/d3.v2.js:1861-1885 | With node keys a, b, a and the datum a, the third node is in no slot |
| DataJoin.NodeTwice | resources/public/dashboard/d3.v2.js:1861-1885 | With node keys a, a and data without a, the second node is in two exit slots |
| DataJoin.BindByIndex | resources/public/dashboard/d3.v2.js:1887-1908 | Slot by slot: nodes with a datum update, data without a node enter, nodes without a datum exit; an updated node carries the last datum it was given and no other node changes |
| TimerQueue.Queue.Add | resources/public/dashboard/d3.v2.js:2413-2450 | A timer for the callback is reset in place or a new one is linked in front; callbacks stay pairwise distinct and the old timers stay the tail of the list |
| TimerQueue.AddedMeans | resources/public/dashboard/d3.v2.js:2423-2441 | After a call the callback has a timer with the times of the call, in its old place and with its old flag or new in front; all other timers are as they were |
| TimerQueue.Queue.Walk | resources/public/dashboard/d3.v2.js:2457-2461 | Walking the links while callbacks add and reset timers makes the calls, and leaves the entries, that the walk over the old queue specifies |
| TimerQueue.Queue.Flush | resources/public/dashboard/d3.v2.js:2491-2504 | Exactly the flagged timers are unlinked, the others keep their order and contents, and the result is the earliest due time among them |
| TimerQueue.Queue.Step | resources/public/dashboard/d3.v2.js:2452-2474 | After a step the unflagged timers of the walk remain; a frame stays requested iff one of them is due within 24 ms, and otherwise the wake-up delay is that of the earliest, if any |
| TimerQueue.StepFlags | resources/public/dashboard/d3.v2.js:2452-2461 | Whatever callbacks add or reset, at the end of the walk a timer that was called carries what its one call returned, any other keeps its flag, and an added one has none |
| TimerQueue.StepKeeps | resources/public/dashboard/d3.v2.js:2452-2474 | After a step a timer is in the queue iff it was there or was added, its one call in the step did not return true, and it was called if it was flagged; nothing that stays is flagged |
| TimerQueue.StaysUntilTrue | resources/public/dashboard/d3.v2.js:2412-2504 | Over any run of steps and of calls of `d3.timer` between them, a timer is in the queue after an event iff it was there or was added and its callback did not return true in it |
| TimerQueue.StepCallsOnce | resources/public/dashboard/d3.v2.js:2452-2461 | Whatever callbacks do, a step calls no timer twice and none that was added during the step |
| TimerQueue.WalkCallsEachOnce | resources/public/dashboard/d3.v2.js:2457-2461 | The calls are a sublist of the timers there were, in their order; the queue only grows in front and callbacks stay distinct |
| TimerQueue.QuietWalk | resources/public/dashboard/d3.v2.js:2457-2461 | When callbacks add nothing, exactly the due timers are called, in order, with their elapsed times |
| TimerQueue.SurvivorsAre | resources/public/dashboard/d3.v2.js:2495-2502 | An entry survives a flush iff it was there and not flagged, and callbacks stay distinct |
| TimerQueue.ReaddedIsDropped | resources/public/dashboard/d3.v2.js:2426-2431 | A timer that is added again is in the queue after the flush iff it was not flagged |
| TimerQueue.ReaddedInStep | resources/public/dashboard/d3.v2.js:2426-2461 | The first of two timers returns true, the second adds it again, and it is gone after the step |
| TimerQueue.EarliestIs | resources/public/dashboard/d3.v2.js:2499-2503 | The time returned is attained by an entry and is a lower bound for all, and infinite iff there is none |
| TimerQueue.AddedAllExtends | resources/public/dashboard/d3.v2.js:2413-2441 | Any number of calls of `d3.timer` only add timers in front and keep callbacks distinct |
| TransitionLock.Node.Schedule | resources/public/dashboard/d3.v2.js:2180-2190 | A run takes the lock on the node or puts a new one there, and counts itself |
| TransitionLock.Node.Start | resources/public/dashboard/d3.v2.js:2192-2205 | `start` refines its step: stop under a larger active id, else take over, log the start and tick |
| TransitionLock.Node.Tick | resources/public/dashboard/d3.v2.js:2207-2225 | `tick` refines its step, which stops the run or calls its tweens and, once the duration is over, logs its end and stops it; it reports true iff the run has stopped |
| TransitionLock.TickActs | resources/public/dashboard/d3.v2.js:2207-2225 | In every reachable state, a tick of a running run logs one call of its tweens, and its end after that iff it has finished, if the last start in the log among the runs of its lock was of its id; otherwise it logs nothing and the run stops |
| TransitionLock.StartActs | resources/public/dashboard/d3.v2.js:2192-2205 | A waiting run logs its start, its tweens and, if it has finished, its end, unless the last start in the log on its lock was of a larger id: then it logs nothing and stops |
| TransitionLock.Node.Stop | resources/public/dashboard/d3.v2.js:2227-2230 | `stop` lowers the count of the run's lock and clears the node when it reaches 0 |
| TransitionLock.ActiveNeverDecreases | resources/public/dashboard/d3.v2.js:2193-2194 | In every interleaving, the active id of a lock never decreases |
| TransitionLock.SupersededIsSilent | resources/public/dashboard/d3.v2.js:2192-2225 | Once a run has started, no run of the same lock with a smaller id starts, tweens or ends any more |
| TransitionLock.LockIsShared | resources/public/dashboard/d3.v2.js:2185-2190 | A scheduled run gets the lock of an earlier one iff some holder of that lock has not stopped |
| TransitionLock.OnlyAfterAllStopped | resources/public/dashboard/d3.v2.js:2185-2230 | On the whole node, a run that acts after one with a larger id has started was scheduled later, when every holder of that one's lock had stopped |
| TransitionLock.StartsIff | resources/public/dashboard/d3.v2.js:2185-2205 | A waiting run starts when its turn comes iff, for every run with a larger id that has started, it was scheduled after every holder of that one's lock had stopped |
| TransitionLock.StoppedIsSilent | resources/public/dashboard/d3.v2.js:2207-2230 | A run that has stopped logs nothing more |
| TransitionLock.SmallerAfterLarger | resources/public/dashboard/d3.v2.js:2185-2230 | There is a run in which id 2 starts and ends and id 1 starts after it |
| TransitionLock.PresentWhileHeld | resources/public/dashboard/d3.v2.js:2185-2230 | `__transition__` is on the node iff some run has not stopped; it is the lock of all such runs, and its count is their number |
| TransitionLock.ExecutionKeeps | resources/public/dashboard/d3.v2.js:2180-2232 | Every reachable state has exact counts and in each lock the id of the last run of it to start, respects preemption, and gives every run one start before its other events and at most one end after them |
| TransitionLock.NextKeeps | resources/public/dashboard/d3.v2.js:2185-2230 | Every enabled step keeps those invariants |
| TransitionLock.StopCounts | resources/public/dashboard/d3.v2.js:2227-2230 | Deleting the node's lock when a count reaches 0 never deletes a lock that another run holds |
| Http.Client.Failover | puppet/lib/puppet/util/puppetdb/http.rb:146-198 | The loop returns the first success or the error of the last answer, has attempted the rotation up to there, applies each outcome to the hosts, and writes the index iff a server after the first succeeded |
| Http.Client.Broadcast | puppet/lib/puppet/util/puppetdb/http.rb:200-243 | All URLs are attempted in order up to a fatal error, and the result is the last success if there are enough |
| Http.Client.Try | puppet/lib/puppet/util/puppetdb/http.rb:41-89 | One attempt yields a response iff the callback or a response error gave one, and raises again exactly a fatal error; a return clears the host's flag and a timeout counts |
| Http.Client.CheckForRepeatedTimeout | puppet/lib/puppet/util/puppetdb/http.rb:98-109 | A first timeout of a submit-only URL flags it, a second one drops it and clears the flag, and no other URL matters |
| Http.Client.Query | puppet/lib/puppet/util/puppetdb/http.rb:279-280 | A query is a failover over the server URLs, sticky if so configured |
| Http.Client.Command | puppet/lib/puppet/util/puppetdb/http.rb:281-287 | A command goes to the server URLs and the live submit-only URLs, by broadcast or by failover from the start |
| Http.OrderIsRotation | puppet/lib/puppet/util/puppetdb/http.rb:156-157 | For any index, even one written for a longer list, the try order visits every server exactly once, each after its neighbour |
| Http.FailoverReturns | puppet/lib/puppet/util/puppetdb/http.rb:159-197 | Failover returns iff some attempt succeeds with no fatal error before it, and then the first success |
| Http.SucceedsIff | puppet/lib/puppet/util/puppetdb/http.rb:114-134 | An attempt succeeds iff it has a response, with a code under 500 other than 404 |
| Http.ErrorReported | puppet/lib/puppet/util/puppetdb/http.rb:190-242 | A failover, and a broadcast, that fails without a fatal error reports "not found" iff the last response it got is a 404 with a JSON body, and a failed request otherwise |
| Http.AskedInOrder | puppet/lib/puppet/util/puppetdb/http.rb:277-287 | A command, and a query that is not sticky, asks the URLs from the first one on: the server URLs and, for a command alone, after them the submit-only ones |
| Http.StickyStartsWhereItSucceeded | puppet/lib/puppet/util/puppetdb/http.rb:152-187 | After a sticky query answered by server `j` and any requests, the next sticky query starts at `j` iff none of them wrote the index or the last one that did wrote `j` up to a multiple of the number of servers |
| Http.IndexIsKept | puppet/lib/puppet/util/puppetdb/http.rb:184-187 | Only a failover that succeeds past its first server changes the index |
| Http.IndexWritten | puppet/lib/puppet/util/puppetdb/http.rb:152-187 | When no fatal error comes first, a failover leaves the index of the server that answered, unless that was the first one tried; a broadcast and a failed request leave it as it was |
| Http.IndexIsLastWritten | puppet/lib/puppet/util/puppetdb/http.rb:184-187 | Over any run of requests the index is the one written last |
| Http.CommandMovesSticky | puppet/lib/puppet/util/puppetdb/http.rb:152-187 | With the submit-only host last, a command that it alone accepts sends the next sticky query to a server that has only failed |
| Http.Ejection | puppet/lib/puppet/util/puppetdb/http.rb:98-109 | Over every run of requests, a submit-only URL is in the list iff it never had two timeouts with no return in between, and its flag says whether it had one since |
| Http.TwoTimeoutsExample | puppet/lib/puppet/util/puppetdb/http.rb:98-109 | Two timeouts drop a URL, and a return between them takes the first one back |
| Http.DroppedIsNotAttempted | puppet/lib/puppet/util/puppetdb/http.rb:281-287 | No later request attempts a dropped URL that is not a server URL |
| Http.ListsStayApart | puppet/lib/puppet/util/puppetdb/http.rb:103 | Over every run the submit-only list only loses URLs, so it stays disjoint from the server URLs |
| Http.BroadcastQuorum | puppet/lib/puppet/util/puppetdb/http.rb:207-242 | Without fatal errors every URL is attempted once, and the call returns iff the successes reach the larger of 1 and the required number, with the last success in list order |
| Http.ServersSuffice | puppet/lib/puppet/util/puppetdb/config.rb:103-121 | Under accepted settings with a server URL, success of all server URLs is enough whatever the submit-only hosts do |
| Http.Validate | puppet/lib/puppet/util/puppetdb/config.rb:103-121 | Settings are accepted iff the quorum is feasible and goes with broadcast and without soft failure and the two lists are disjoint; each reason for a rejection is given iff its condition holds and none before it |
| CatalogEdges.CatalogHash.SynthesizeEdges | puppet/lib/puppet/indirector/catalog/puppetdb.rb:392-508 | The pass ends as the specified run does: all edges without duplicates, or the first error with the edges made so far left behind |
| CatalogEdges.SynthesisIsSpec | puppet/lib/puppet/indirector/catalog/puppetdb.rb:405-504 | It succeeds iff every reference asked for by a non-virtual resource can become an edge; then the edges are exactly the old ones and one for each such reference, without duplicates; otherwise the error is that of such a reference |
| CatalogEdges.EdgesRelate | puppet/lib/puppet/indirector/catalog/puppetdb.rb:141-146 | After a successful pass an edge is there iff it was before or some resource that is not virtual has a usable reference at any depth of `before` or `notify` and the edge goes from the resource to what it stands for, named `before` or `notifies`, or of `require` or `subscribe` and it goes the other way, named `required-by` or `subscription-of` |
| CatalogEdges.SynthesisFails | puppet/lib/puppet/indirector/catalog/puppetdb.rb:426-485 | The pass fails iff some resource that is not virtual has, at any depth of one of the four metaparameters, a reference that is malformed, stands for nothing in the catalog or for a virtual resource; the error names such a one and its reason |
| CatalogEdges.FlattenIs | puppet/lib/puppet/indirector/catalog/puppetdb.rb:424-425 | Flattening a value gives exactly the references that occur in it at some depth |
| CatalogEdges.CatalogHash.MakeEdge | puppet/lib/puppet/indirector/catalog/puppetdb.rb:426-494 | Table and aliases together decide a reference as the declarative resolution does, with the errors in the same order |
| CatalogEdges.CatalogHash.MapAliases | puppet/lib/puppet/indirector/catalog/puppetdb.rb:373-390 | The map holds for each alias the last resource of the type that declares it |
| CatalogEdges.CatalogHash.AddEdges | puppet/lib/puppet/indirector/catalog/puppetdb.rb:425-495 | The references of one metaparameter append their edges up to the first error |
| CatalogEdges.CatalogHash.SynthesizeFrom | puppet/lib/puppet/indirector/catalog/puppetdb.rb:424-497 | The four metaparameters of one resource append theirs in turn |
| CatalogEdges.CatalogHash.BuildTable | puppet/lib/puppet/indirector/catalog/puppetdb.rb:397-403 | The table has exactly the declared names, each with a resource of that name |
| CatalogEdges.MakeUnique | puppet/lib/puppet/indirector/catalog/puppetdb.rb:503 | Removing duplicates keeps the first of each, in order |
| CatalogEdges.UniqueIs | puppet/lib/puppet/indirector/catalog/puppetdb.rb:503 | The same edges remain, pairwise different |
| CatalogEdges.ParsePrint | puppet/lib/puppet/indirector/catalog/puppetdb.rb:526-533 | A printed reference parses back, whatever brackets and line feeds its title has |
| CatalogEdges.ParseSound | puppet/lib/puppet/indirector/catalog/puppetdb.rb:526-533 | Whatever is parsed is a printed reference, with neither part empty and no bracket in the type, that fills lines of the text |
| CatalogEdges.StripsTrailing | puppet/lib/puppet/indirector/catalog/puppetdb.rb:458-460 | On a title of one line, exactly the trailing slashes are removed |
| CatalogEdges.OwnNameResolves | puppet/lib/puppet/indirector/catalog/puppetdb.rb:448-469 | A declared resource is found under its own name iff it is no file with trailing slashes, or the title without them is not declared and it owns that as an alias; such a file's name finds what the title without the slashes stands for |
| CatalogEdges.TrailingSlashExample | puppet/lib/puppet/indirector/catalog/puppetdb.rb:448-469 | A file declared with a trailing slash is not found under its own name |
| CatalogEdges.AliasWithoutSlashExample | puppet/lib/puppet/indirector/catalog/puppetdb.rb:458-469 | With the title without the slash as an alias it is found |
| CatalogEdges.ResolvedIsDeclared | puppet/lib/puppet/indirector/catalog/puppetdb.rb:464-471 | A resolved reference names a declared resource by its canonical title |
| CatalogEdges.AliasOwnerIs | puppet/lib/puppet/indirector/catalog/puppetdb.rb:467-469 | An alias resolves to the last resource of the type that declares it, and fails only if none does |
| FactFilter.FilterFacts | puppet/lib/puppet/indirector/facts/puppetdb.rb:28-60 | The recursion returns fresh containers only, which represent the filtered value |
| FactFilter.BlockedIff | puppet/lib/puppet/indirector/facts/puppetdb.rb:32-37 | A path is blocked by an entry whose parts between its dots are the names on the path, and otherwise iff a pattern matches the text that has those parts |
| FactFilter.PartsOfJoined | puppet/lib/puppet/indirector/facts/puppetdb.rb:33 | Joining the names of a path by dots and cutting at the dots gives the names back, those with dots cut too |
| FactFilter.IndexInPath | puppet/lib/puppet/indirector/facts/puppetdb.rb:46-56 | A fact below an array has the decimal index in its path |
| FactFilter.FilterHash | puppet/lib/puppet/indirector/facts/puppetdb.rb:30-46 | A hash is rebuilt with exactly the entries that are not blocked, their values filtered and in the order they were in |
| FactFilter.OrderKept | puppet/lib/puppet/indirector/facts/puppetdb.rb:32-45 | A key comes before another in the filtered hash iff it did before and neither is blocked |
| FactFilter.FilterArray | puppet/lib/puppet/indirector/facts/puppetdb.rb:46-56 | An array is rebuilt element by element under its index |
| FactFilter.GetFiltered | puppet/lib/puppet/indirector/facts/puppetdb.rb:28-60 | What some steps lead to survives iff it was there and no part of the way that ends at a hash key is blocked, and then it is itself filtered |
| FactFilter.ShapeKept | puppet/lib/puppet/indirector/facts/puppetdb.rb:46-59 | Arrays keep their length, scalars stay, hashes get no new keys |
| FactFilter.FilterUnion | puppet/lib/puppet/indirector/facts/puppetdb.rb:34-37 | Filtering by one list and then by another is filtering by both together |
| FactFilter.FilterIdempotent | puppet/lib/puppet/indirector/facts/puppetdb.rb:28-60 | Filtering twice is filtering once |
| FactFilter.NothingBlocked | puppet/lib/puppet/indirector/facts/puppetdb.rb:81 | With empty lists the filter is the identity, so leaving it out changes nothing |
| FactFilter.Save | puppet/lib/puppet/indirector/facts/puppetdb.rb:69-106 | The payload is the specified one; no container that was there before changes, and with a blocklist none of them is shared |
| FactFilter.SentIsFiltered | puppet/lib/puppet/indirector/facts/puppetdb.rb:71-106 | A fact is sent iff it is not the inventory, was there or is the trusted data, and nothing on its way is blocked; a part of the packages is sent in the package inventory iff it was there and nothing on its full way is blocked |
| FactFilter.TrustedIsSent | puppet/lib/puppet/indirector/facts/puppetdb.rb:71-74 | The trusted data are sent under their own key, filtered, unless that key is blocked |
| FactFilter.PackagesAreSent | puppet/lib/puppet/indirector/facts/puppetdb.rb:88-106 | The packages are sent, filtered, iff they were there, are not blocked on their way, and are neither nil nor false |
| FactFilter.InventoryCannotBypass | puppet/lib/puppet/indirector/facts/puppetdb.rb:88-91 | Blocking the inventory or its packages keeps the package inventory back |
| FactFilter.PackagesOf | puppet/lib/puppet/indirector/facts/puppetdb.rb:90-106 | The packages are taken iff the inventory is a hash that has them and they are neither nil nor false |
| Utf8.CoercePayload | puppet/lib/puppet/util/puppetdb/command.rb:20-57 | The result is the coerced payload, and the flag is true iff some string in a key or value, at any depth, is lossy |
| Utf8.CoercedIsClean | puppet/lib/puppet/util/puppetdb/command.rb:20-57 | Every key and value string of the result is valid UTF-8 and tagged so, and every hash has each key once |
| Utf8.CleanUnchanged | puppet/lib/puppet/util/puppetdb/command.rb:40-52 | A payload of valid UTF-8 strings is unchanged and has no lossy string |
| Utf8.SecondPass | puppet/lib/puppet/util/puppetdb/command.rb:20-57 | A second pass is the identity and reports no loss |
| Utf8.EntriesAre | puppet/lib/puppet/util/puppetdb/command.rb:25-32 | When keys collide after coercion, each coerced key has the value of the last entry with it, once |
| Utf8.InsertedIs | puppet/lib/puppet/util/puppetdb/command.rb:31 | Assigning a key leaves all other entries and this one, and keys distinct |
| Utf8.InsertAt | puppet/lib/puppet/util/puppetdb/command.rb:31 | A key that is there keeps its place and gets the new value |
| Utf8.TextCoerced | puppet/lib/puppet/util/puppetdb/char_encoding.rb:66-82 | A coerced string is valid UTF-8, keeps its bytes if they were valid, and differs from the original iff the original was invalid or not tagged UTF-8 with a byte above 127 |
| Utf8.OtherTagExample | puppet/lib/puppet/util/puppetdb/char_encoding.rb:66-82 | Valid bytes of an accented letter under another encoding keep their bytes and count as lossy |
| Utf8.ReplacedIs | puppet/lib/puppet/util/puppetdb/char_encoding.rb:75-80 | Each byte of an invalid string becomes one character: itself if ASCII, the replacement character U+FFFD otherwise |
| Utf8.ReplacementExample | puppet/lib/puppet/util/puppetdb/char_encoding.rb:75-80 | A byte that no character has comes back as the three bytes of U+FFFD |
| Utf8.ReplacedLength | puppet/lib/puppet/util/puppetdb/char_encoding.rb:75-80 | Exactly the strings without a byte above 127 stay as they are, and any other gets longer |
| Utf8.ValidIsEncoded | puppet/lib/puppet/util/puppetdb/char_encoding.rb:69 | The byte strings of the grammar in section 4 of RFC 3629 are exactly the encodings of sequences of code points that are not surrogates |
| Throttle.CommandPipe.constructor | util/pdb/commands.py:71-85 | The hosts are queued in order with first updates one interval in the past, apart by the interval in seconds over their number, in milliseconds |
| Throttle.CommandPipe.Next | util/pdb/commands.py:90-114 | A call that is not interrupted moves the front host to the end with a stamp after the sleep it asked for; with an empty deque nothing changes |
| Throttle.CallTurns | util/pdb/commands.py:90-114 | The steps of such a call, taken one after the other, turn the ring as the method does |
| Throttle.Turned | util/pdb/commands.py:92-113 | The host put back is the one taken, stamped not before the clock and not before its last update plus the interval |
| Throttle.HostsStayPlaced | util/pdb/commands.py:91-113 | In every interleaving of workers, each host is queued once or held by exactly one worker |
| Throttle.StampsAreSpaced | util/pdb/commands.py:92-112 | Any two stamps of a host, its first update included, are at least the run interval apart |
| Throttle.RateIsBounded | util/pdb/commands.py:65-69 | Any half-open window of one interval holds at most as many stamps as there are hosts |
| Throttle.RunKeeps | util/pdb/commands.py:90-114 | Every reachable state has each host in one place, every record up to date with the log, and every worker that is to stamp past its host's interval |
| Throttle.OrderKept | util/pdb/commands.py:112-113 | A step keeps the queue in order of the stamps iff it does not append a record behind a later one |
| Throttle.OrderOfRun | util/pdb/commands.py:90-114 | In every run the queue is in order of the stamps at all times iff no step appends a record behind a later one |
| Throttle.InOrderIsSorted | util/pdb/commands.py:90-114 | If appends happen in the order of their stamps, the queue is in order in every state |
| Throttle.OneWorkerKeepsOrder | util/pdb/commands.py:90-114 | With one worker the queue is in order in every state |
| Throttle.OrderCanHold | util/pdb/commands.py:90-114 | There is a run whose queue is always in order although appends are not in the order of their stamps |
| Throttle.OrderCanBreak | util/pdb/commands.py:66-67 | Two hosts and two workers at one run a minute: a run from the constructor's state leaves the queue out of order |

## Left out

- Floating point: coordinates of the hull are integers and its angles an exact number of the same order as `atan2`;
  areas, interpolated numbers and times are reals, so that rounding is only that of the treemap's rounding function.
- `d3.layout.treemap`: `stickify` and sticky layouts, and the hierarchy that adds up the values; the rounding function
  is any one that is not negative on non-negative input.
- `d3.geom.quadtree`: points given as pairs. A point with one NaN coordinate counts as wholly invalid when the bounds
  are computed.
- `d3.interpolateString`: the number expression and `parseFloat` are parameters, the matches found in each string and
  what numbers print as.
- `d3.csv.parse`: the header row and the row callback.
- `d3.time.format`: names of days and months, `%I`, `%p`, two-digit years and locale formats. Dates are in one time
  zone without daylight saving, where every time of day exists, and are not bounded as those of a `Date` are.
- `d3.selection.data`: data given as a function of the group, several groups, and `null` nodes under a key function,
  where the original throws. Holes and `null` are the same empty slot.
- `d3.timer`: calls without a time, `d3.timer.flush`, frames and timeouts of the browser; a callback that steps or
  flushes the queue itself.
- `d3_transition`: delays, easing and the tweens; when `start` and `tick` are called is left to the interleaving, which
  allows more than the timer queue does. Callbacks that call a run's `start` or `tick` themselves.
- `Http`: the HTTP client, TLS, headers, JSON, logging and path building; an attempt is one of its possible outcomes.
  Whether a 404 body looks like JSON is part of the response. Threads that share the client.
- `Config`: reading the settings file, defaults and the URL syntax.
- `synthesize_edges`: the catalog class (a reference is virtual or not), the format expression for references, and the
  stages around it (`munge_edges`, renaming, removal of keys).
- `filter_facts`: matching of regular expressions is a parameter.
- `save`: certname, environment and timestamps of the payload, and sending it.
- `coerce_payload`: log texts and the context of an error; encodings that are not supersets of ASCII. A hash that is a
  key of another hash is compared with its order.
- `CommandPipe`: the sample commands the records refer to, which workers change without a lock, and the random choices;
  a worker that finds the deque empty stays idle here, where the original raises.
- The rest of the dashboard (drawing, geography, layouts, scales), the other terminuses, the database server, the
  acceptance tests and the build.

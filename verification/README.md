# PureGame: verified models of its data structures, protocols and codecs

PureGame is a framework for game servers. This project models, in Dafny, the parts of it whose
correctness is least obvious from reading the code, and proves what each of them is for.

* **Timers.** A hierarchical timing wheel (`TWTimer`), with its 32-bit slot offset, cascades and
  overflow list, and the sorted container it replaces (`RBTimer`). Each is proved to do what one
  specification of a timer container says, so that the two cannot be told apart by any run of calls
  within the reach of the 32-bit offset; where that offset cuts a deadline, it is shown exactly when.
* **Spatial indexes.** The R-tree and the quadtree on the heap, with insertion, splitting, removal with
  its backtracking walk, merging, and queries with their shortcuts and limits. Over every run a query
  answers like a scan of the live objects.
* **Hash table.** The chained table of hiredis with power-of-two rehashing and its iterator refines a
  finite map.
* **Lists and streams.** The intrusive list with two sentinels, the write pipeline of a TCP link over
  buffers that are split, left in flight and recycled, and the hand-over of requests and responses between
  the logic thread and the network thread under every interleaving.
* **Codecs.** MessagePack (shortest integers, reading across widths, skipping, trees), XXTEA, the six
  conversions between UTF-8, UTF-16 and UTF-32, Base64 in arbitrary chunks, and the formatting of Redis
  commands with the walker over their arguments.

What the code changes in place is a class with those fields, or an array; its methods are proved against
specification functions, and what the source is for is proved of those. Each class on the heap has an
abstract value that is all a caller needs: `view` (timers, trees, table), `Nodes()`, `Stream()`, `data`.

How the files are layered:

| files | subject |
|---|---|
| `Arithmetic`, `Bits`, `Octets`, `Sequences` | division with remainder, numbers by their bits, bytes, sequences without repetition |
| `TimerNodes`, `TimerLaws`, `RBTimer`, `Placement`, `WheelQueues`, `WheelTicks`, `TWTimer`, `TimerRuns` | timers: specification, what it comes to for a timer, sorted container, where a deadline belongs, what one tick does, the wheel, whole runs |
| `Geometry`, `SpatialIndex` | boxes; what an index has to answer |
| `RectShape`, `RectQuery`, `RectEdit`, `RectSplit`, `RectGrow`, `RectMeasure`, `RectPrune`, `RectWalk`, `RectTree`, `RectRuns` | R-tree: shape, searching, box changes, splits, insertion, choosing a split, removal, the walk, the class, whole runs |
| `QuadShape`, `QuadEnds`, `QuadQuery`, `QuadTree`, `QuadRuns` | quadtree: shape, when an insertion ends, searching, the classes, whole runs |
| `Dict`, `NodeList`, `LinkTcp`, `NetThread` | hash table, list, write pipeline, thread hand-over |
| `MsgPackInts`, `MsgPack`, `MsgBuffers`, `Xxtea`, `Utf`, `Base64`, `Base64Digits`, `Redis` | codecs |

The specification functions do not stand by themselves. What the results rest on is determined by statements of another
kind: what a timer is owed by its deadlines, its count and the answers of its callback (`TimerLaws.OwedIff`); whether boxes meet by
the points they have in common, and what they measure by the unit squares in them (`Geometry.IntersectIff`,
`Geometry.AreasCount`); the cipher by the bits of its words (`Xxtea.MxBits`, `Xxtea.EncodedIs`); and what goes over the
wire by digits and by the tables of the formats (`MsgPackInts.PackedIs`, `MsgPack.CountHeadIs`, `Utf.Utf8To32Iff`,
`Base64Digits.EncodedAt`, `Redis.CommandIs`).

Things the code does that its purpose would not suggest, each with its exact condition:

* A deadline 2^32 steps or more ahead can be filed in a wheel as if it were near. `Placement.FiledGoodIff`
  says for all deadlines exactly when it goes to the right place, and `TWTimers.TWTimer.AddTimer` says the
  same of the call; `Placement.FarDeadlineMisfiled` is one that does not.
* An insertion into the quadtree need not end. Boxes are halved in 32 bits, which gives their middle if and only
  if no side is longer than 2^31 - 1 (`QuadShape.HalvedIff`). Under a root like that, `QuadEnds.AddingEndsIff` says,
  an insertion ends if and only if no box of at most one unit by one within the root meets more objects than a leaf
  takes; `QuadEnds.CrowdWitness` is an input that fails it, one object more than a leaf takes, all at one point.
  Under a root with longer sides that is not enough: where it is as wide as the coordinates go, a full leaf takes no
  further object wherever the objects are (`QuadEnds.PlaneNeverEnds`), and `QuadEnds.RowWitness` has them far
  enough from each other. `QuadTrees.QuadTree.Insert` asks for a root that can be halved and sparse objects, or for so
  few objects that nothing has to be split.
* Skipping a packed value stops too early in maps of 2^31 entries and more, because twice their count is cut to
  32 bits. `MsgPack.SkippedIffCountable` says of whole trees that they are skipped as they were packed if and only
  if they have no such map in them, `MsgPack.MapSkippedIff` says it of one map, and
  `MsgPack.LargestMapsNotSkipped` says what happens at 2^31 entries.
* The hash table hands its indices out as 32-bit signed numbers. A new key gets its bucket from
  `Dicts.Dict.KeyIndex` if and only if that is below 2^31 (`Dicts.Dict.IndexIsBucket`), and an iteration comes to the
  entries if and only if there are fewer than 2^31 buckets (`Dicts.DictIterator.Next`).
* The walker over the arguments of a Redis command gives an argument if and only if it has fewer than 2^31 bytes
  (`Redis.ArgumentIs`).
* XXTEA gives texts of one to three bytes back with their filling. `Xxtea.TextRoundTrip` says so with an
  if-and-only-if; likewise `Utf.Utf32Via8Identity` and `Utf.Utf32Via16Identity` for NULs and high surrogates.

## Model

| member | source | states |
|---|---|---|
| Placement.FiledGoodIff | PureCore/src/TWTimer.cpp:68-84 | offered to synchronised wheels in turn, a deadline ends in the one slot or overflow list where it belongs exactly when no wheel takes its 32-bit offset for a near one |
| Placement.NearIsHarmless | PureCore/src/TWTimer.cpp:75 | a deadline less than 2^32 ticks ahead is never cut, whatever the number of wheels and steps |
| Placement.FarDeadlineMisfiled | PureCore/src/TWTimer.cpp:74-83 | with four wheels of 256 steps a deadline 2^32 ticks ahead is filed as due now |
| Placement.SlotOf | PureCore/src/TWTimer.cpp:73-83 | the slot of an accepted deadline is its own step modulo the number of steps, free of the 32-bit cut |
| Placement.Tick | PureCore/src/TWTimer.cpp:143-153 | after one tick every well placed timer is still well placed, or in the slot to be fired, or due to cascade |
| TWTimers.TimerWheel.AddTimer | PureCore/src/TWTimer.cpp:68-84 | a wheel takes a timer just if its offset is below the number of steps, at the back of the slot the offset dictates, and changes nothing otherwise |
| TWTimers.TWTimer.AddTimerNode | PureCore/src/TWTimer.cpp:240-247 | the timer goes to the first wheel that takes it, or to the overflow list, and no other list changes |
| TWTimers.TWTimer.AddTimer | PureCore/src/TWTimer.cpp:155-174 | adds the timer with the next id as the specification says, error cases included; every timer is still well placed exactly when the cut does the new one no harm |
| TWTimers.TWTimer.RemoveTimer | PureCore/src/TWTimer.cpp:176-187 | removes the timer with the id, if any, and keeps all others where they belong |
| WheelQueues.StepLoosened | PureCore/src/TWTimer.cpp:217-227 | emptying the step a wheel has reached takes out all timers due in that wheel and only those |
| TWTimers.TWTimer.StepWheel | PureCore/src/TWTimer.cpp:217-236 | a coarser wheel's clock steps to the leaf clock and its timers, with the overflow list on a full turn, are filed anew, so that nothing of that wheel is due any more |
| TWTimers.TWTimer.TryTurnWheel | PureCore/src/TWTimer.cpp:214-238 | all clocks are synchronised again, and every timer is where it belongs or in the slot left behind |
| TWTimers.TWTimer.TryTrigger | PureCore/src/TWTimer.cpp:196-212 | the loop ends, and every timer is well placed afterwards |
| TWTimers.TWTimer.Update | PureCore/src/TWTimer.cpp:138-153 | with all timers well placed, deadlines that the 32-bit cut does no harm during the update, and the next ones of timers that are due and go on less than 2^32 ticks beyond its start, every timer is called as often as it is owed, none is lost, all are well placed and none is left with its deadline behind it; without that still nothing fires early or twice; the loops end |
| RBTimers.RBTimer.Update | PureCore/src/RBTimer.cpp:45-64 | the sorted container does to every timer exactly what the specification says it is owed |
| RBTimers.RBTimer.AddTimer | PureCore/src/RBTimer.cpp:66-85 | adds a timer as the specification says, error cases included |
| RBTimers.RBTimer.RemoveTimer | PureCore/src/RBTimer.cpp:87-107 | removes the timer from both containers, also while an update has it out of the sorted one |
| TimerNodes.TimerNode.Init | PureCore/src/TimerNode.cpp:34-46 | a zero count or a period that is not positive is refused without a change |
| TimerNodes.TimerNode.TimeOut | PureCore/src/TimerNode.cpp:59-71 | counts down unless unlimited, and a callback that refuses ends the timer |
| TimerRuns.Lockstep | PureCore/src/TWTimer.cpp:138-187 | over every run of calls within reach of the 32-bit offset, which does the deadlines no harm when they are filed, the wheel and the sorted container return the same results, keep the same timers with the same deadlines and counts, and call each timer with the same values in the same order |
| TimerRuns.ShortReach | PureCore/src/TWTimer.cpp:75 | calls are within reach, whatever the wheels, when deadlines, and the next ones of timers that are due and go on, are less than 2^32 ticks ahead |
| TimerRuns.NeverLate | PureCore/src/TWTimer.cpp:143-152 | after an update every timer left has its deadline ahead |
| TimerRuns.AddIs | PureCore/src/TWTimer.cpp:155-174 | a timer is added if and only if it can be called, has a count and a period, its first deadline is not too early and the next id is free; it has that id, the count asked for and the deadline that many ticks from now, and nothing else changes |
| TimerRuns.AddThenAdvance | PureCore/src/TWTimer.cpp:138-174 | after the next update the timer has been called just as it owes, and is there if and only if that was not all, with the deadline and count that follow |
| TimerRuns.AddThenCount | PureCore/src/TWTimer.cpp:138-174 | with a count, at a fixed rate and never refused, that is the lesser of its count and how often it was due |
| TimerRuns.RemoveThenAdvance | PureCore/src/TWTimer.cpp:176-187 | a removal says whether there was such a timer, leaves the others alone, and no later update calls it |
| TimerLaws.OwedIff | PureCore/src/TWTimer.cpp:196-212 | the calls of a timer in an update are the one sequence that counts down (or repeats), in which all but the last were accepted, no deadline was ahead when it fired, and the next one is unless the count ran out or the callback refused |
| TimerLaws.UpdateOwes | PureCore/src/TWTimer.cpp:196-212 | every timer is called so in an update, and is dropped if and only if its count ran out or the last call was refused |
| TimerLaws.UpdateKeeps | PureCore/src/TWTimer.cpp:138-153 | nothing else changes but the clock, and an update of no time or less changes nothing |
| TimerLaws.RefusalEnds | PureCore/src/TimerNode.cpp:59-71 | a due timer whose callback refuses is called once and ends, whatever is left of its count |
| TimerLaws.UpdateTwice | PureCore/src/TWTimer.cpp:138-153 | at fixed rates two updates come to the same as one over both their times |
| TimerLaws.FixedRate | PureCore/src/RBTimer.cpp:50-63 | at a fixed rate a timer fires once for every deadline reached, up to its count, and its next deadline is that many intervals on |
| TimerLaws.OncePerUpdate | PureCore/src/RBTimer.cpp:55-60 | counting from now, a due timer fires exactly once in an update however late it is |
| Geometry.Extend | PureCore/src/Geometry.cpp:321-326 | the extension is the least box that contains both |
| Geometry.IntersectIff | PureCore/src/Geometry.cpp:228-230 | boxes that are not inside out intersect if and only if they have a point in common |
| Geometry.ContainIff | PureCore/src/Geometry.cpp:232-232 | a box contains another if and only if it has all its points |
| Geometry.AreasCount | PureCore/src/Geometry.cpp:305-319 | an area is the number of unit squares in a box, that of an intersection of those in both, that of an enlargement of those in the least box around both |
| Geometry.MarginCounts | PureCore/src/Geometry.cpp:311-311 | a margin is the number of unit squares along two sides |
| SpatialIndex.LiveIff | PureCore/src/RectTree.cpp:272-317 | an object is live with a box if and only if the last operation that concerns it put it there |
| SpatialIndex.AnswersByPoints | PureCore/src/RectTree.cpp:319-355 | a complete answer is the live objects that pass the test and have a point in common with the query |
| Geometry.PruneIsSafe | PureCore/src/Geometry.cpp:228-232 | what misses a box misses everything inside it, and what contains a box meets every proper box inside it |
| Geometry.PairwiseMeet | PureCore/src/Geometry.cpp:228-230 | three boxes that meet pairwise have a point in common, all three |
| Geometry.AreasFit | PureCore/src/Geometry.cpp:305-319 | the areas of boxes below 2^30 stay within their 64 bits |
| RectNodes.RectNode.SplitChildren | PureCore/src/RectTree.cpp:188-198 | moves the children from the index on, in order, and refuses bad arguments without a change |
| RectShape.UnionIsLeast | PureCore/src/RectTree.cpp:126-132 | the box around some children is the least box that contains each of theirs |
| RectShape.BoxContains | PureCore/src/RectTree.cpp:124 | a node's box contains that of every node below it, at any depth |
| RectMeasure.DistMargin | PureCore/src/RectTree.cpp:144-159 | sorts the children by one axis and sums the margins the loops come to: those of the left group as it grows, and that of the right group, which the code does not make smaller, once for each division |
| RectMeasure.ChooseSplitAxis | PureCore/src/RectTree.cpp:136-142 | the children end up sorted along the axis with the smaller sum, a permutation of what they were |
| RectMeasure.ChooseSplitIndex | PureCore/src/RectTree.cpp:161-186 | the division leaves at least the minimum on both sides and overlaps least of all; among equal overlaps it is decided by area just as the code's running minimum does, which keeps the least area of earlier overlaps |
| RectMeasure.LeastEnlarged | PureCore/src/RectTree.cpp:90-113 | the child whose box grows least, ties decided as the code's running minimum does |
| RectMeasure.BoxesProper | PureCore/src/RectTree.cpp:272-304 | all boxes of a whole tree stay within the coordinate bounds, so no area overflows |
| RectTrees.RectTree.constructor | PureCore/src/RectTree.cpp:203-207 | an empty tree; the fan-out is at least four, the minimum at least two and the least number that is four tenths of the one asked for |
| RectTrees.RectTree.ChooseSubtree | PureCore/src/RectTree.cpp:83-115 | a path from the root to a leaf, on each level to a child that grows least, ties decided by area as the code's running minimum does |
| RectTrees.RectTree.Divide | PureCore/src/RectTree.cpp:376-384 | both parts have at least the minimum, together they are the old children, and their boxes are exact |
| RectTrees.RectTree.SplitBelow | PureCore/src/RectTree.cpp:375-386 | splitting an overfull node of the path keeps the tree whole but for the parent, and the minimum fill |
| RectTrees.RectTree.SplitTop | PureCore/src/RectTree.cpp:387-396 | splitting the root puts a new root on top and makes the tree whole |
| RectTrees.RectTree.CheckObjs | PureCore/src/RectTree.cpp:53-81 | collects every object below a contained node that passes the test, once, or stops just at the limit |
| RectTrees.RectTree.Collide | PureCore/src/RectTree.cpp:319-355 | returns exactly the objects that meet the box and pass the test, each once, through the containment shortcut as well; with a limit no more than that many, and all if there are fewer |
| RectTrees.RectTree.IsCollide | PureCore/src/RectTree.cpp:255-270 | with limit one the answer is non-empty if and only if some live object matches |
| RectTrees.RectTree.AllObjs | PureCore/src/RectTree.cpp:232-236 | all objects, each once |
| RectTrees.RectTree.Insert | PureCore/src/RectTree.cpp:272-304 | the live objects with this one added or replaced; all leaves equally deep, boxes exact, fan-out bounded, no empty inner node; a new id keeps the minimum fill |
| RectTrees.RectTree.Remove | PureCore/src/RectTree.cpp:306-317 | the live objects without this one, and the same invariant |
| RectTrees.RectTree.FindLeaf | PureCore/src/RectTree.cpp:399-461 | the backtracking walk ends at the leaf that holds the object, along its path from the root |
| RectTrees.RectTree.Visit | PureCore/src/RectTree.cpp:412-456 | each round sees a node never seen before or gets nearer the root, and loses no way to the object |
| RectWalk.TurnsAway | PureCore/src/RectTree.cpp:436-456 | a node the walk turns away from is no ancestor of the object, so the pruning by boxes is safe |
| RectWalk.WalkBack | PureCore/src/RectTree.cpp:412-418 | the path stack does not run out at the root: when the walk goes up there is always a parent below the top |
| RectTrees.RectTree.MergeNode | PureCore/src/RectTree.cpp:463-486 | emptied nodes go, the boxes on the path become exact again, an empty root is started afresh, and no object is lost |
| RectTrees.RectTree.RemoveNode | PureCore/src/RectTree.cpp:399-461 | removing an object that is in the tree always succeeds and removes only that object |
| RectRuns.Run | PureCore/src/RectTree.cpp:272-355 | over every run every query answers like a scan of the objects inserted and not removed since, and runs without removals keep the minimum fill |
| QuadShape.Quadrant | PureCore/src/QuadTree.cpp:130-140 | the quadrants of a box without a side longer than 2^31 - 1 lie within it, and are such boxes, not inside out |
| QuadShape.QuadrantPoints | PureCore/src/QuadTree.cpp:130-140 | the points of a quadrant are those of the box on its side of the middle, the middle included |
| QuadShape.QuadrantsCover | PureCore/src/QuadTree.cpp:130-140 | every point of a box without a side longer than 2^31 - 1 is in one of its quadrants |
| QuadShape.HalvedIff | PureCore/src/Geometry.cpp:340-340 | halving in 32 bits gives the middle of a box if and only if no side is longer than 2^31 - 1 |
| QuadShape.RepeatsIff | PureCore/src/QuadTree.cpp:130-140 | a box is its own first quadrant if and only if each side is one at most, or the whole range of coordinates |
| QuadShape.HoldsStill | PureCore/src/QuadTree.cpp:55-60 | a change of an object concerns only the nodes it meets |
| QuadShape.FullIsNotTiny | PureCore/src/QuadTree.cpp:48-53 | where no tiny box meets more objects than a leaf takes, a full leaf that has to split is not tiny |
| QuadShape.TinySplitRepeats | PureCore/src/QuadTree.cpp:109-129 | splitting a tiny leaf gives a quadrant with the same box and the same objects |
| QuadEnds.RepeatsNeverEnds | PureCore/src/QuadTree.cpp:43-62 | adding to a full leaf, whose box is its own first quadrant, an object that meets it does not end, however deep the recursion may go |
| QuadEnds.TinyNeverEnds | PureCore/src/QuadTree.cpp:43-62 | so it is with every full tiny leaf |
| QuadEnds.SparseEnds | PureCore/src/QuadTree.cpp:43-62 | where no tiny box meets more objects than a leaf takes, and the box can be halved in 32 bits or need not be, adding an object ends at some depth |
| QuadEnds.AddingEndsIff | PureCore/src/QuadTree.cpp:43-62 | adding an object to any correct tree under a root without a side longer than 2^31 - 1 ends if and only if afterwards no tiny box within the root meets more objects than a leaf takes |
| QuadEnds.CrowdNeverEnds | PureCore/src/QuadTree.cpp:43-62 | one object more than a leaf takes, all at the same point within the root, is never added |
| QuadEnds.CrowdWitness | PureCore/src/QuadTree.cpp:43-62 | under every such root around the point there is a tree of the objects before it |
| QuadEnds.PlaneNeverEnds | PureCore/src/QuadTree.cpp:109-140 | under the root as wide as the coordinates go no object is ever added to a full leaf, wherever the objects are |
| QuadEnds.RowWitness | PureCore/src/QuadTree.cpp:109-140 | there is such a tree whose objects are sparse |
| QuadShape.HoldsOnlySparse | PureCore/src/QuadTree.cpp:43-62 | in every tree that can exist no tiny box within the root meets more objects than a leaf takes |
| QuadShape.SplitHolds | PureCore/src/QuadTree.cpp:109-129 | after a split every quadrant holds exactly the objects that meet it |
| QuadShape.MergeHolds | PureCore/src/QuadTree.cpp:90-107 | merging four empty leaves early, before all of them were visited, loses nothing |
| QuadTrees.QuadNode.AddObj | PureCore/src/QuadTree.cpp:43-62 | in a tree that can be halved in 32 bits, or need not be, the recursion ends, having added the object as the specification does |
| QuadTrees.QuadNode.RemoveObj | PureCore/src/QuadTree.cpp:64-88 | every copy of the object goes and every leaf holds exactly what is left |
| QuadTrees.QuadNode.TryMerge | PureCore/src/QuadTree.cpp:90-107 | a node becomes a leaf just if its four children are empty leaves |
| QuadTrees.QuadTree.Insert | PureCore/src/QuadTree.cpp:246-263 | the live objects with this one added or replaced, and the leaf invariant, when the root can be halved in 32 bits and adding it ends, or all objects fit in one leaf |
| QuadTrees.QuadTree.OnlySparse | PureCore/src/QuadTree.cpp:48-53 | the precondition of an insertion holds of the objects of every tree, so it is necessary |
| QuadTrees.QuadTree.Remove | PureCore/src/QuadTree.cpp:265-276 | the live objects without this one, and the leaf invariant |
| QuadTrees.QuadTree.Collide | PureCore/src/QuadTree.cpp:278-315 | whatever is returned meets the box and passes the test, each once; without a limit, or with fewer than that many, every such object that meets the root is among them and the shared worklist is empty afterwards; a box that misses the root finds nothing |
| QuadTrees.QuadTree.IsCollide | PureCore/src/QuadTree.cpp:229-244 | for a box that meets the root, true only if some object matches, and true if one that meets the root does |
| QuadTrees.QuadTree.Reset | PureCore/src/QuadTree.cpp:190-204 | an empty tree and an empty worklist |
| QuadQuery.Lighter | PureCore/src/QuadTree.cpp:299-312 | the worklist gets lighter with every node, so a query ends |
| QuadRuns.Run | PureCore/src/QuadTree.cpp:246-315 | over every run within the root box whose insertions end, under a root that can be halved in 32 bits or with so few objects that it need not be, every complete query answers like a scan of the live objects |
| Bits.BitAnd | ThirdParty/hiredis/dict.c:122-122 | a bit of a masked number is set if and only if it is in both |
| Bits.MaskIsMod | ThirdParty/hiredis/dict.c:122-122 | masking by a power of two less one is the remainder |
| Dicts.NextPower | ThirdParty/hiredis/dict.c:311-320 | the least power of two from 4 on that is not below the size |
| Dicts.Dict.MaskedHash | ThirdParty/hiredis/dict.c:325-342 | a key's bucket is its hash modulo the size |
| Dicts.Dict.Expand | ThirdParty/hiredis/dict.c:92-138 | relinking keeps every entry once and in its new bucket, the map is the same, and a size below the number of entries is refused |
| Dicts.Dict.ExpandIfNeeded | ThirdParty/hiredis/dict.c:300-308 | afterwards there is room for one more, and the map is the same, in tables of any size that can be doubled; with fewer than 2^31 entries there are no more than 2^31 buckets |
| Dicts.Dict.KeyIndex | ThirdParty/hiredis/dict.c:325-342 | -1 for a key in the map; its bucket, as a 32-bit signed number, for one that is not, in tables of any size that can be doubled |
| Arithmetic.AsIntIff | ThirdParty/hiredis/dict.c:325-342 | a number as a 32-bit signed one is the only one in range that differs from it by a multiple of 2^32 |
| Dicts.Dict.IndexIsBucket | ThirdParty/hiredis/dict.c:325-342 | that number is the bucket if and only if the bucket is below 2^31, and it is -1 if and only if it is the last of 2^32 |
| Dicts.Dict.Add | ThirdParty/hiredis/dict.c:141-163 | adds a key that is not there, refuses one that is |
| Dicts.Dict.Replace | ThirdParty/hiredis/dict.c:169-191 | the map updated, and whether the key is new |
| Dicts.Dict.Delete | ThirdParty/hiredis/dict.c:194-222 | the map without the key, no other entry touched but the one before it |
| Dicts.Dict.Find | ThirdParty/hiredis/dict.c:255-268 | the entry of a key in the map, null for one that is not |
| Dicts.Dict.IteratesAll | ThirdParty/hiredis/dict.c:270-275 | what an iteration has ahead at its start is the entry of every key, once |
| Dicts.DictIterator.Next | ThirdParty/hiredis/dict.c:277-296 | the first of the entries ahead; null when there are none, and always in tables of 2^31 buckets and more |
| Dicts.DictIterator.DeleteReturned | ThirdParty/hiredis/dict.c:287-292 | deleting the entry just returned leaves what is ahead as it was |
| NodeLists.Node.Leave | PureCore/src/NodeList.cpp:34-43 | the neighbours are joined and keep their other links |
| NodeLists.NodeList.Take | PureCore/src/NodeList.cpp:34-43 | a node that leaves a list closes it up |
| NodeLists.NodeList.PopFront | PureCore/src/NodeList.cpp:164-171 | the first node, which is in the list no more; null if there is none |
| NodeLists.NodeList.PopBack | PureCore/src/NodeList.cpp:180-187 | the last node, which is in the list no more; null if there is none |
| NodeLists.NodeList.PushFront | PureCore/src/NodeList.cpp:189-197 | the node in front of the others |
| NodeLists.NodeList.PushBack | PureCore/src/NodeList.cpp:199-207 | the node behind the others |
| NodeLists.NodeList.PushFrontList | PureCore/src/NodeList.cpp:209-228 | the other list's nodes in front of these, and the other list empty |
| NodeLists.NodeList.PushBackList | PureCore/src/NodeList.cpp:230-248 | the other list's nodes behind these, and the other list empty |
| NodeLists.NodeList.Clear | PureCore/src/NodeList.cpp:133-138 | an empty list, and the nodes still linked with each other |
| LinkTcps.LinkTcp.FlushData | PureNet/src/LinkTcp.cpp:79-126 | the stream is the same, the writer has nothing pending and room again, nothing in flight was touched |
| LinkTcps.LinkTcp.Complete | PureNet/src/LinkTcp.cpp:104-121 | the oldest write's bytes have arrived, no buffer still in use was given back, the rest is as before |
| LinkTcps.LinkTcp.PushData | PureNet/src/LinkTcp.cpp:128-152 | the stream grows by the message, through as many buffers as it takes; the recursion ends |
| LinkTcps.LinkTcp.SwapWriter | PureNet/src/Link.cpp:215-222 | the fresh writer is in no write, and the old one belongs only to the write handed over next |
| LinkTcps.LinkTcp.FinishWritingSize | PureNet/src/Link.cpp:231-237 | the size goes down by the length but not below zero |
| LinkTcps.Run | PureNet/src/LinkTcp.cpp:79-152 | over every run of pushes, flushes and completions what has arrived, is in flight and waits in the writer is all that was pushed, in order, and what has arrived is its beginning |
| LinkTcps.Quiesce | PureNet/src/LinkTcp.cpp:104-121 | flushed and with all writes completed everything has arrived and the writing size is zero |
| NetThread.PureNetThread.Ask | PureNet/src/PureNetThread.cpp:93-138 | the request is queued and waits under the next id |
| NetThread.PureNetThread.LogicReq | PureNet/src/PureNetThread.cpp:242-249 | the logic thread's requests go behind those handed over already |
| NetThread.PureNetThread.LogicOne | PureNet/src/PureNetThread.cpp:256-322 | the callback runs if the request still waits, which it then does no more; otherwise none runs |
| NetThread.PureNetThread.WorkReq | PureNet/src/PureNetThread.cpp:325-365 | everything handed over is worked on, in order |
| NetThread.PureNetThread.WorkResp | PureNet/src/PureNetThread.cpp:367-374 | the network thread's responses go behind those handed over already |
| NetThread.PureNetThread.Expire | PureNet/src/PureNetThread.cpp:81-90 | exactly the requests made too long ago are dropped, though the scan stops at the first that is not |
| NetThread.FreshFromFirst | PureNet/src/PureNetThread.cpp:86-88 | in the order of ids and times nothing behind the first fresh request is too old |
| NetThread.ScanStopsEarly | PureNet/src/PureNetThread.cpp:86-88 | without that order the scan leaves an old request behind |
| NetThread.PureNetThread.Update | PureNet/src/PureNetThread.cpp:78-91 | all responses handed over are handled, all requests are handed over, and just the requests that are not answered and not older than the timeout are still waiting |
| NetThread.PureNetThread.RoundTrip | PureNet/src/PureNetThread.cpp:242-374 | a round of each thread and another of the first bring everything over |
| NetThread.Run | PureNet/src/PureNetThread.cpp:242-374 | under every interleaving each side has got a beginning of what the other sent, in order; no callback runs twice, none of a request that still waits or has expired |
| MsgPackInts.StoreDigit | PureMsg/src/Packer.cpp:112-112 | the bytes of a number are its digits to the base 256, the highest first |
| MsgPackInts.LoadDigit | PureMsg/src/Unpacker.cpp:33-51 | bytes are read as the number they are the digits of, the highest first |
| MsgPackInts.StoreLoad | PureMsg/src/Unpacker.cpp:33-51 | storing undoes loading |
| MsgPackInts.PackedIs | PureMsg/src/Packer.cpp:85-335 | the header byte and length of the packed form by the value, and its digits behind the header |
| MsgPackInts.CastIff | PureMsg/src/Unpacker.cpp:64-124 | a cast gives the one number in range that differs by a multiple of the number of values |
| MsgPackInts.AnyFormRead | PureMsg/src/Unpacker.cpp:64-194 | which types a reader of each width takes, in any form a number can have, and that it makes of them what a cast does |
| MsgPackInts.OthersRefused | PureMsg/src/Unpacker.cpp:64-194 | every other header is refused, and a number cut short |
| MsgPackInts.PackedIsShortest | PureMsg/src/Packer.cpp:85-335 | no form of the integer family that holds the value is shorter |
| MsgPackInts.CrossWidth | PureMsg/src/Unpacker.cpp:64-194 | a packed value is read back by a width if and only if the width's range contains it |
| MsgBuffers.MsgBuffer.PackUint64 | PureMsg/src/Packer.cpp:147-179 | appends the shortest form |
| MsgBuffers.MsgBuffer.PackInt8 | PureMsg/src/Packer.cpp:182-192 | appends the shortest form |
| MsgBuffers.MsgBuffer.PackInt64 | PureMsg/src/Packer.cpp:273-335 | appends the shortest form, through all eleven branches |
| MsgBuffers.MsgBuffer.UnpackInt | PureMsg/src/Unpacker.cpp:127-194 | the value, error code and position the reader of that width comes to, on any bytes |
| MsgBuffers.MsgBuffer.UnpackCheckInt | PureMsg/src/Unpacker.cpp:64-124 | the same, behind a header of another width |
| MsgPack.CountHeadIs | PureMsg/src/Packer.cpp:709-847 | the header byte and length by the count, for arrays, maps, strings, binaries and objects, and the digits of the count |
| MsgPack.AnyCountRead | PureMsg/src/Unpacker.cpp:801-1025 | a count is read from any of its headers, also from a longer one than it needs |
| MsgPack.OtherKindsRefused | PureMsg/src/Unpacker.cpp:801-1025 | headers of other kinds are refused, and counts cut short |
| MsgPack.PlainIs | PureMsg/src/Packer.cpp:661-707 | nil, truth values and floats byte by byte, and strings behind their counts |
| MsgPack.HeaderClasses | PureMsg/include/PureMsg/MsgHead.h:25-82 | what every first byte says: a value of its own, a number of so many bytes, a count of some kind, or nothing |
| MsgPack.CountReadsBack | PureMsg/src/Packer.cpp:709-847 | every count of an array, map, string, binary or object is read back, whatever follows |
| MsgBuffers.MsgBuffer.UnpackCount | PureMsg/src/Unpacker.cpp:801-1025 | the count, error code and position, on any bytes |
| MsgBuffers.MsgBuffer.PackValue | PureMsg/src/Packer.cpp:661-847 | appends the packed form of a whole tree |
| MsgPack.SkipPacked | PureMsg/src/Unpacker.cpp:668-784 | skipping a packed tree without maps of 2^31 entries or more, followed by anything, consumes just the tree |
| MsgPack.SkippedIffCountable | PureMsg/src/Unpacker.cpp:668-784 | a packed tree is skipped whole if and only if there is no such map in it |
| MsgPack.MapSkippedIff | PureMsg/src/Unpacker.cpp:761-784 | a map of skippable entries is skipped whole if and only if it has fewer than 2^31 of them |
| MsgPack.SkipAgreesWithUnpack | PureMsg/src/Unpacker.cpp:668-1025 | of fewer than 2^32 bytes, packed or not, whatever can be unpacked is skipped with success up to the same place |
| MsgBuffers.MsgBuffer.UnpackSkip | PureMsg/src/Unpacker.cpp:668-784 | the recursive reader skips as specified, on any bytes |
| MsgPack.UnpackPacked | PureMsg/src/Unpacker.cpp:786-1025 | unpacking a packed tree as its headers say gives the tree back, whatever follows |
| MsgPack.LargestMapsNotSkipped | PureMsg/src/Unpacker.cpp:761-784 | at 2^31 entries the header alone is skipped |
| MsgPack.TruncatedNumberSkipped | PureMsg/src/Unpacker.cpp:668-700 | a number cut short is skipped with success |
| Xxtea.MxBits | PureEncrypt/src/PureXxtea.cpp:31-31 | every bit of the mixing function, from the bits of the neighbours, the sum and the key, with signed right shifts and sums that wrap around |
| Xxtea.MxTellsKeys | PureEncrypt/src/PureXxtea.cpp:31-31 | different key words never mix alike |
| Xxtea.KeyIndexBits | PureEncrypt/src/PureXxtea.cpp:31-46 | which key word: the two low bits of the place, crossed with two bits of the sum |
| Xxtea.RoundCountIs | PureEncrypt/src/PureXxtea.cpp:43-43 | six rounds and as many as 52 contains the number of words |
| Xxtea.GoldenStep | PureEncrypt/src/PureXxtea.cpp:30-30 | the step of the sum is 2^32 divided in the golden section, rounded down |
| Xxtea.RoundIs | PureEncrypt/src/PureXxtea.cpp:44-53 | a round mixes every word with the new one on its left and the old one on its right, in a ring |
| Xxtea.SameRound | PureEncrypt/src/PureXxtea.cpp:44-53 | there is just one such round |
| Xxtea.EncodedIs | PureEncrypt/src/PureXxtea.cpp:37-54 | the code is what any run of as many such rounds ends with, the r-th with r times the step as its sum |
| Xxtea.WordsAt | PureEncrypt/src/PureXxtea.cpp:110-124 | the bytes of a text are the digits of its words, the lowest first, word after word |
| Xxtea.EncodedTextIs | PureEncrypt/src/PureXxtea.cpp:99-130 | the code of a text is that of its whole words, and the rest filled up to four bytes with how many are missing |
| Xxtea.DecodeEncode | PureEncrypt/src/PureXxtea.cpp:37-73 | for every key and all words decoding undoes encoding, and encoding decoding |
| Xxtea.SumNotZero | PureEncrypt/src/PureXxtea.cpp:56-73 | the decoder's running sum is not zero before the last round |
| Xxtea.XxteaEncode | PureEncrypt/src/PureXxtea.cpp:37-54 | the loops over the array with running neighbours compute the cipher |
| Xxtea.XxteaDecode | PureEncrypt/src/PureXxtea.cpp:56-73 | the loop ends after as many rounds as the encoder made and computes the inverse |
| Xxtea.TextRoundTrip | PureEncrypt/src/PureXxtea.cpp:82-179 | a text is given back if and only if its length is zero or at least four |
| Xxtea.PureXxtea.Encode | PureEncrypt/src/PureXxtea.cpp:82-130 | refuses keys that are not of 16 bytes; otherwise the enciphered words and the trailer |
| Xxtea.PureXxtea.Decode | PureEncrypt/src/PureXxtea.cpp:132-179 | refuses bad keys and lengths without output; otherwise the deciphered words cut by the trailer |
| Utf.Char8Iff | PureCore/src/UtfHelper.cpp:87-130 | a character is read if and only if the bytes are its shortest spelling by digits to the base 64 (section 3 of RFC 3629, up to 2^21) |
| Utf.Bytes8Spell | PureCore/src/UtfHelper.cpp:172-199 | the bytes written for a character are that spelling |
| Utf.Utf8To32Iff | PureCore/src/UtfHelper.cpp:242-262 | a text is decoded to a string if and only if it is the spellings of its characters one after another |
| Utf.Char16Iff | PureCore/src/UtfHelper.cpp:152-170 | a unit, or a pair of surrogates by their ten bits each (section 2.1 of RFC 2781), is read as a character if and only if it spells it; low surrogates by themselves are taken |
| Utf.Units16Spell | PureCore/src/UtfHelper.cpp:331-346 | the units written for a character spell it |
| Utf.Utf16To32Iff | PureCore/src/UtfHelper.cpp:291-312 | so it is with whole texts |
| Utf.CharOfBytes | PureCore/src/UtfHelper.cpp:87-138 | the bytes of a character are read as that character (section 3 of RFC 3629) |
| Utf.BytesOfChar | PureCore/src/UtfHelper.cpp:87-138 | what is read as a character of Unicode is its shortest form |
| Utf.Utf32Via8Identity | PureCore/src/UtfHelper.cpp:242-262 | UTF-32 to UTF-8 and back is the identity if and only if there is no NUL |
| Utf.Utf8Via32 | PureCore/src/UtfHelper.cpp:314-329 | every accepted UTF-8 text within Unicode and without NUL is encoded as the same bytes |
| Utf.Utf8Injective | PureCore/src/UtfHelper.cpp:242-262 | two such texts read as the same string are the same |
| Utf.Utf32Via16Identity | PureCore/src/UtfHelper.cpp:291-312 | UTF-32 to UTF-16 and back is the identity if and only if there is no NUL and no high surrogate |
| Utf.CharUtf32ToUtf8 | PureCore/src/UtfHelper.cpp:172-199 | fills four slots with the bytes of the character and then zeros, refuses what is beyond Unicode |
| Utf.ConvertUtf8To32 | PureCore/src/UtfHelper.cpp:242-262 | the loop computes the decoding; on an error its code and what was converted before it |
| Utf.ConvertUtf32To8 | PureCore/src/UtfHelper.cpp:314-329 | the loop computes the encoding; on an error its code and what was converted before it |
| Utf.ConvertUtf8To16 | PureCore/src/UtfHelper.cpp:216-240 | the direct conversion is the one by way of UTF-32: text, error code and what was converted before the error |
| Utf.ConvertUtf16To8 | PureCore/src/UtfHelper.cpp:264-289 | the direct conversion is the one by way of UTF-32: text, error code and what was converted before the error |
| Utf.ConvertUtf16To32 | PureCore/src/UtfHelper.cpp:291-312 | the loop computes the decoding; on an error its code and what was converted before it |
| Utf.ConvertUtf32To16 | PureCore/src/UtfHelper.cpp:331-346 | the loop computes the encoding; on an error its code and what was converted before it |
| Base64Digits.EncodedAt | PureEncrypt/src/PureBase64.cpp:70-112 | which character stands at every place of a code: by the alphabet, the digits to the base 64 of three bytes, or a pad where all of a digit's bytes are missing |
| Base64Digits.SextetsIff | PureEncrypt/src/PureBase64.cpp:114-155 | the decoder takes the values of the letters up to the first pad, if and only if they are all in the alphabet |
| Base64Digits.FromSextetsAt | PureEncrypt/src/PureBase64.cpp:114-155 | every three bytes are those of the number four values are the digits of |
| Base64Digits.LetterIs | PureEncrypt/src/PureBase64.cpp:36-36 | the letters are those of table 1 of RFC 4648, in its order |
| Base64.DecodedEncoded | PureEncrypt/src/PureBase64.cpp:70-155 | decoding undoes encoding for all bytes (section 4 of RFC 4648) |
| Base64.EncodedLength | PureEncrypt/src/PureBase64.cpp:30-30 | the size computed beforehand is the size of the code |
| Base64.Base64Encode | PureEncrypt/src/PureBase64.cpp:70-112 | the loop with its phase variable computes the code and its padding, or refuses a buffer too small |
| Base64.Base64Decode | PureEncrypt/src/PureBase64.cpp:114-155 | the loop with its phase variable computes the bytes, on any text |
| Base64.PureBase64.UpdateEncode | PureEncrypt/src/PureBase64.cpp:196-229 | output and cache stand for all that was fed, wherever it was cut |
| Base64.PureBase64.FinishEncode | PureEncrypt/src/PureBase64.cpp:231-244 | the output is the code of all that was fed |
| Base64.PureBase64.UpdateDecode | PureEncrypt/src/PureBase64.cpp:251-284 | what is held and put out after a chunk of any text, valid code or not |
| Base64.UpdatedUncodes | PureEncrypt/src/PureBase64.cpp:251-284 | after any chunk of a code the output is a beginning of what was coded and the rest of what was fed is held, wherever it was cut |
| Base64.EncodeChunks | PureEncrypt/src/PureBase64.cpp:196-244 | for all non-empty chunks the output is the code of the whole text |
| Base64.DecodeChunks | PureEncrypt/src/PureBase64.cpp:251-295 | the code of a text cut into any non-empty chunks is decoded to the text |
| Redis.DecimalAt | ThirdParty/hiredis/hiredis.c:664-667 | the digits of a number to the base ten, the highest first |
| Redis.DecimalSize | ThirdParty/hiredis/hiredis.c:301-310 | and no more of them than it takes |
| Redis.HeadingIs | ThirdParty/hiredis/hiredis.c:664-664 | a star, the number of arguments, the end of the line |
| Redis.BulkIs | ThirdParty/hiredis/hiredis.c:667-671 | a dollar sign, the length, the end of the line, the argument, the end of the line |
| Redis.CommandIs | ThirdParty/hiredis/hiredis.c:647-678 | these follow one another in order, and there is nothing else |
| Redis.CountDigits | ThirdParty/hiredis/hiredis.c:301-310 | the length of the number in decimal |
| Redis.TotalLength | ThirdParty/hiredis/hiredis.c:653-658 | the length computed beforehand is that of the command |
| Redis.FormatCommandArgv | ThirdParty/hiredis/hiredis.c:647-678 | the command and a NUL, in just the memory computed beforehand, so the assertion holds |
| Redis.NextArgument | ThirdParty/hiredis/async.c:817-829 | the next argument's place, length and successor, on any text |
| Redis.ArgumentFound | ThirdParty/hiredis/async.c:817-829 | at an argument of any bytes the walker finds its place, and its length as far as that survives in 32 bits |
| Redis.ArgumentIs | ThirdParty/hiredis/async.c:817-829 | at an argument the walker gives it and goes on behind it if and only if it has fewer than 2^31 bytes |
| Redis.Walk | ThirdParty/hiredis/async.c:817-829 | walking through a formatted command gives its arguments, in order, and stops |

## Left out

- Integer widths of times and ids: the 64-bit sums of timers do not overflow; timer and request ids stay below 2^63, as preconditions say.
- Timer callbacks are a function of id, kind and remaining count that cannot call the timer again; a null callback is the flag `callable`; an empty callable object is not modelled.
- In which order an update calls different timers; of each timer the order of its calls is specified.
- `clear_timer` of both containers and `release`: `TWTimer`'s clears its table only, and adds no harder property.
- Slot lists of the wheel are sequences of timer ids; that linked lists with sentinels behave like sequences is proved in `NodeLists`.
- `RBTimer`'s multimap is a sorted sequence; its `find` is taken to give the first of equal keys.
- Timing wheels are modelled for two wheels or more and any number of steps below 2^32; the source has a fixed number of wheels, and an interval of S^i ticks that fits its 64 bits.
- Allocation failures and object pools: a pool gives a new node, and a freed one is not used again.
- Worklists of the R-tree are fresh local ones on every call, so what is proved of queries is about the algorithm with worklists that stay where they are. In the source they come from a vector of vectors (`PureCore/include/PureCore/RectTree.h:107`); `collide` holds a reference to one of them (`PureCore/src/RectTree.cpp:325`) while the containment shortcut takes another from the same vector (`PureCore/src/RectTree.cpp:54`), which may move them. Where an insertion reads the map entry after erasing it, the model reads it before.
- `std::sort` is an insertion sort; only that the result is a sorted permutation is used.
- Coordinates of R-tree objects are below 2^30 in absolute value and boxes are not inside out, so that differences stay within 32 bits.
- `remove_node`'s flag for going up is folded into the step back, which goes right at once; its last branch, for a node without a parent, is proved to be out of reach.
- Circles, sectors and oriented boxes: a query gets their test as an arbitrary function of the box.
- QuadTree: the parent merges after its child has returned, not from within the child's call; `all_objs` is not modelled; what a limited query leaves on the worklist is modelled for further queries (`CacheInTree`), not across changes of the tree.
- QuadTrees.QuadTree.Insert: has as its precondition the condition under which it ends (`QuadEnds.AddingEndsIff`); an insertion that does not end has no state afterwards. Of roots with a side longer than 2^31 - 1, whose length overflows an `int32_t` in the source, it takes only what fits in the leaf at the root.
- QuadTrees.QuadTree.Collide: does not say whether objects that miss the root box are returned, because that depends on the tree: a leaf at the root holds all objects, quadrants only those they meet.
- Dicts.Dict.Add: takes tables in which the indices survive (`Dicts.Dict.IndexIsBucket`), as `Dicts.Dict.Replace` does; with another index the code writes outside the table.
- Hash table: sizes that can be doubled in 63 bits; duplication and destruction callbacks for keys and values, and a failing allocation in `dictExpand`, are not modelled.
- `NodeList::swap` and the iterators of lists.
- Closing a link, failing writes and the reading side; writes complete in the order they were handed over.
- What network requests do on sockets and what messages contain; a thread's work between two uses of a shared queue is one step.
- MessagePack: floats are their bits; the forms of fixed size, and the overloads for C's own integer types; a buffer is a sequence that does not run full.
- Xxtea.TextRoundTrip: leaves out that the source counts words in an `int32_t`, which texts of 2^33 bytes and more do not fit.
- XXTEA: words are loaded in little-endian order; the block encoder and decoder are not modelled.
- UTF: the platform's wide strings and counting words.
- Base64: its loop counters have 32 bits, and texts are taken to be shorter than 2^32 bytes; the NUL behind the encoder's output; the encoder's phase and output for text decoded after an error.
- Redis: the number of arguments is an `int`; printf-style formatting, connections, replies and subscriptions; the walker's text has no blanks or signs in front of a number, and `long` has 64 bits.

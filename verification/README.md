# Advent of Code 2022 solvers, modelled in Dafny

This project models the pure kernels of a set of Rust puzzle solvers for
Advent of Code 2022 and proves properties about them. Each day is one module.

- **Calories** (day 1): sums each elf's calories and picks the largest sum and the top-n sums, using a bounded min-heap.
- **Rucksack** (day 3): values items by letter, finds the item shared by a rucksack's two compartments, and finds the badge shared by each group of three rucksacks.
- **Ranges** (day 4): checks inclusive section ranges for containment and overlap, and parses "a-b,c-d" lines.
- **Crates** (day 5): parses a drawing of crate piles and "move n from a to b" actions, then runs the moves with two cranes. One crane moves crates one at a time, so the block lands reversed. The other moves the whole block in order.
- **Marker** (day 6, written twice in the repository): searches for the first window of distinct letters, using a bit-mask popcount.
- **FileTree** (day 7): parses a shell transcript of `cd`/`ls` commands and builds an arena-based directory tree.
- **Trees** (day 8): builds a tree-height grid, decides visibility from outside the grid, and computes viewing-distance scores.
- **Rope** (day 9): runs rope physics in which each knot follows its leader on a grid, for a two-knot rope and a long rope, and counts the cells the tail visits.
- **Cpu** (day 10): a cycle-accurate register machine with `noop` (one cycle) and `addx v` (two cycles) instructions.
- **Monkeys** (day 11): parses monkey descriptions, evaluates worry operations, routes items by a divisibility test, runs rounds of item passing and ranks monkeys by activity.

Shared modules:

- **Wrappers** holds `Option`/`Result` and `TryMap`, the model of collecting an iterator of `Result`s.
- **Text** models the standard-library string operations the solvers use:
  - `str::split`, `str::lines`, `split_ascii_whitespace`, `split_once`, `trim`, `strip_prefix` and `strip_suffix`;
  - white space means ASCII white space only, so `trim` and `split_whitespace` are modelled by their ASCII counterparts;
  - integer parsing for `i32`, `u32` and `usize`.

Conventions:

- A Rust panic (`unwrap`, `expect`, `assert!`, an index out of range, a `u8`/`usize` subtraction that underflows, a `RefCell` double borrow) becomes an `Err` value naming the cause.
- Integers are unbounded. Where the source's integer width decides the outcome (`u32` sums, `i32`/`u32`/`usize` parsing, the `u32` bit mask) the bound is written out.
- Text is a sequence of `char`, one character per byte. Byte-level code is modelled on `seq<byte>`.

## Model

| member | source | states |
|---|---|---|
| Calories.ParseCalories | day1/src/main.rs:17 | a line is accepted exactly when it parses as a `u32`, and the value is that number |
| Calories.SumU32 | day1/src/main.rs:18 | summing a group succeeds exactly when the total fits in `u32`, and then gives the total |
| Calories.GroupCalories | day1/src/main.rs:14-19 | a group's value is the sum of its lines' parsed values and is at most `u32::MAX` |
| Calories.ElfCalories | day1/src/main.rs:11-21 | one value per blank-line-separated group, in input order, with at least one group |
| Calories.MaxOf | day1/src/main.rs:25 | the result is an element of the list and no element exceeds it |
| Calories.MostCalories | day1/src/main.rs:24-26 | succeeds exactly when the groups parse, and is the largest group sum |
| Calories.Push | day1/src/main.rs:40-44 | pushing keeps the heap ascending, adds exactly the pushed value, and puts the new minimum first |
| Calories.PushPop | day1/src/main.rs:43-46 | a push followed by a pop keeps the heap ascending and its size unchanged |
| Calories.PushPopKeeps | day1/src/main.rs:43-46 | after a push and a pop the heap plus the popped minimum holds the old heap plus the new value |
| Calories.PushPopFloor | day1/src/main.rs:43-46 | every value the heap keeps is at least every value it has dropped |
| Calories.Fill | day1/src/main.rs:39-41 | filling adds every value and keeps the heap ascending |
| Calories.FillHoldsPrefix | day1/src/main.rs:39-41 | after filling, the heap holds exactly the first n group sums |
| Calories.Drain | day1/src/main.rs:43-46 | the push/pop loop keeps the heap ascending and its size at n |
| Calories.DrainKeeps | day1/src/main.rs:43-46 | the loop loses no value: what it keeps and what it drops together make up the heap and the remaining sums |
| Calories.DrainFloor | day1/src/main.rs:43-46 | after the loop, every kept value is at least every dropped value |
| Calories.TopHeap | day1/src/main.rs:36-46 | the final heap is ascending and has exactly n elements |
| Calories.TopHeapIsTop | day1/src/main.rs:36-48 | the heap is a sub-multiset of the sums, and none of the sums left out beats a kept one, so these are the n largest |
| Calories.TopCalories | day1/src/main.rs:29-49 | the result is `None` exactly when there are fewer than n groups |
| Calories.TopCaloriesIsTop | day1/src/main.rs:29-49 | with at least n groups, the answer is the sum of n group totals that no left-out total beats, failing only when that sum overflows `u32` |
| Calories.TopOneIsMost | day1/src/main.rs:24-48 | a heap of size one holds exactly the maximum |
| Calories.TopCaloriesOne | day1/src/main.rs:24-49 | the top-1 total equals the most calories |
| Rucksack.ItemValue | day03/src/main.rs:5-15 | 'a'..'z' give 1..26 and 'A'..'Z' give 27..52; a byte below 'A' underflows |
| Rucksack.LetterValues | day03/src/main.rs:5-15 | every letter has a value in 1..52, and the value identifies the letter |
| Rucksack.ValueOfLetter | day03/src/main.rs:5-15 | every value in 1..52 belongs to a letter |
| Rucksack.ItemValueInjective | day03/src/main.rs:5-15 | two letters with the same value are the same letter |
| Rucksack.FindFirst | day03/src/main.rs:22-25 | the index found is the first whose character satisfies the test; none is found exactly when no character does |
| Rucksack.Compartments | day03/src/main.rs:20 | the two halves concatenate to the line, and the first is half the length, rounded down |
| Rucksack.CommonItem | day03/src/main.rs:21-26 | succeeds exactly when an item of the first compartment is in the second; the result is the first such item |
| Rucksack.Duplicate | day03/src/main.rs:20-26 | a found item lies in both compartments |
| Rucksack.BadgeItem | day03/src/main.rs:42-45 | succeeds exactly when an item of the first line is in both others; the result is the first such item |
| Rucksack.SumBounds | day03/src/main.rs:29-32 | a sum of letter values lies between the item count and 52 times the item count |
| Rucksack.GetAnswerA | day03/src/main.rs:17-33 | the answer exists only if every rucksack has a shared item |
| Rucksack.AnswerABounds | day03/src/main.rs:17-33 | with letter items, the first answer lies between the line count and 52 times the line count |
| Rucksack.Chunks | day03/src/main.rs:39 | runs of three lines; only the last run may be shorter, and it is shorter exactly when the line count is not a multiple of 3 |
| Rucksack.ChunksConcat | day03/src/main.rs:39 | the chunks concatenate back to the lines |
| Rucksack.GroupValue | day03/src/main.rs:40-47 | a group that is not exactly three lines fails (the assertion), and a value comes from the group's badge |
| Rucksack.GetAnswerB | day03/src/main.rs:35-49 | the answer exists only if every group has a value |
| Rucksack.AnswerBBounds | day03/src/main.rs:35-49 | with letter badges, the second answer lies between the group count and 52 times the group count |
| Rucksack.AnswerBNeedsWholeGroups | day03/src/main.rs:39-41 | a line count that is not a multiple of three makes the second answer fail |
| Ranges.ContainsRange | day4/src/main.rs:16-18 | containment implies the outer range is non-empty and encloses both end points |
| Ranges.ContainsRangeIsSubset | day4/src/main.rs:16-18 | for a non-empty inner range, containment holds exactly when every value of it lies in the outer range |
| Ranges.OverlapsRange | day4/src/main.rs:20-25 | two empty ranges never overlap |
| Ranges.OverlapsRangeSymmetric | day4/src/main.rs:20-25 | overlap does not depend on argument order |
| Ranges.OverlapsRangeMeans | day4/src/main.rs:20-25 | non-empty ranges overlap exactly when max(starts) <= min(ends), that is when they share a value |
| Ranges.ContainsImpliesOverlaps | day4/src/main.rs:16-25 | containment in either direction implies overlap |
| Ranges.ParseRange | day4/src/main.rs:28-39 | succeeds exactly when the text splits at '-' into two `i32`s, and gives those end points |
| Ranges.ParseFormatRange | day4/src/main.rs:28-39 | a range with non-negative end points is read back from its "a-b" rendering |
| Ranges.NegativeStartRejected | day4/src/main.rs:28-39 | "-1-2" fails, because the '-' split gives three pieces |
| Ranges.ParseLine | day4/src/main.rs:41-47 | succeeds exactly when the line splits at ',' into two parsable ranges, and gives that pair |
| Ranges.ParseFormatLine | day4/src/main.rs:41-47 | a pair of ranges is read back from its "a-b,c-d" rendering |
| Ranges.CountWhere | day4/src/main.rs:49-65 | the count is at most the number of pairs; it is 0 exactly when no pair qualifies, and the full length exactly when all do |
| Ranges.CountParsed | day4/src/main.rs:49-65 | succeeds exactly when every line parses, stopping at the first bad one; the count is at most the number of lines, 0 exactly when no parsed pair passes the test, and the number of lines exactly when all do |
| Ranges.GetAnswerA | day4/src/main.rs:49-57 | fails exactly when some line does not parse; otherwise counts the pairs where one range contains the other: 0 exactly when no pair does, all lines exactly when every pair does |
| Ranges.GetAnswerB | day4/src/main.rs:59-65 | fails exactly when some line does not parse; otherwise counts the overlapping pairs: 0 exactly when no pair overlaps, all lines exactly when every pair does |
| Ranges.AnswerAAtMostB | day4/src/main.rs:49-65 | every pair counted by the first answer is also counted by the second |
| Crates.ParseConfigLine | day05/src/main.rs:38-47 | succeeds exactly when the line is long enough; the crate of pile i is the character at 4i+1 |
| Crates.UpToBlank | day05/src/main.rs:75-86 | the pile is the longest blank-free prefix of its column, read bottom-up |
| Crates.ParseInitPiles | day05/src/main.rs:49-89 | no lines is a missing-configuration error, and a label line whose length plus one is not a multiple of 4 is a bad-label error; otherwise it succeeds exactly when every crate row reaches the last pile's column; then there are (len+1)/4 piles, and pile i holds the characters at column 4i+1 of the crate rows, read bottom-up and stopping at the first blank |
| Crates.ParseRows | day05/src/main.rs:56-74 | every row is cut into crates, one per pile |
| Crates.BuildPiles | day05/src/main.rs:75-86 | pile i is the blank-free bottom of column i |
| Crates.ParseAction | day05/src/main.rs:91-104 | splitting the line at single spaces, succeeds exactly when fields 1, 3 and 5 exist and parse as `usize` with the pile numbers at least 1; the action holds field 1 as the count and fields 3 and 5 minus one as the piles |
| Crates.ParseActionFields | day05/src/main.rs:91-104 | "move a from b to c" gives count a and zero-based piles b-1 and c-1; it fails unless all three parse and b, c >= 1 |
| Crates.ParseFormatAction | day05/src/main.rs:91-104 | an action is read back from its "move a from b to c" rendering |
| Crates.Reverse | day05/src/main.rs:123-125 | the result is the input backwards |
| Crates.MoveOne | day05/src/main.rs:113-124 | one pop-and-push succeeds exactly when both piles exist and the source is not empty (a missing pile or an empty source is the matching error); it moves the source's top crate onto the target, changes no other pile, and changes nothing when source and target are the same |
| Crates.ExecuteA | day05/src/main.rs:112-126 | a zero count changes nothing; success keeps the number of piles; the only failures are a missing pile or an empty source |
| Crates.MovedBlock | day05/src/main.rs:112-146 | a move shrinks the source by the count, puts the block on the target, and leaves every other pile unchanged |
| Crates.ExecuteAMoves | day05/src/main.rs:112-126 | crane A fails exactly when the source has too few crates; otherwise the top block lands reversed |
| Crates.ExecuteB | day05/src/main.rs:128-146 | a zero count changes nothing; success keeps the number of piles; the only failures are a missing pile or an empty source |
| Crates.ExecuteASamePile | day05/src/main.rs:112-126 | moving from a pile onto itself leaves the piles unchanged; it fails only if the pile is empty and the count is positive |
| Crates.PopMany | day05/src/main.rs:129-138 | n pops succeed exactly when the pile has n crates; the rest plus the reversed popped crates make up the pile |
| Crates.ExecuteBMoves | day05/src/main.rs:128-146 | crane B fails exactly when the source has too few crates; otherwise the top block lands in its original order |
| Crates.ExecuteBSamePile | day05/src/main.rs:128-146 | moving from a pile onto itself leaves the piles unchanged |
| Crates.ExecuteOutOfRange | day05/src/main.rs:112-146 | a pile index out of range fails, unless the count is zero |
| Crates.ExecuteConserves | day05/src/main.rs:112-146 | both cranes conserve the total crate count |
| Crates.GetTopCrates | day05/src/main.rs:148-154 | one character per pile, the top of each; fails exactly when some pile is empty |
| Crates.RunMoves | day05/src/main.rs:159-163 | running the move lines keeps the number of piles |
| Crates.RunMovesParsesAll | day05/src/main.rs:159-163 | a run that succeeds has read every move line as a valid action |
| Crates.RunMovesConserves | day05/src/main.rs:159-175 | running all moves keeps the pile count and conserves the crates |
| Crates.Solve | day05/src/main.rs:106-110 | an input without a blank line fails; a drawing that cannot be read gives that drawing's error; an answer has one letter per pile of the drawing |
| Crates.GetAnswerA | day05/src/main.rs:156-166 | the same promises, with the crane that moves one crate at a time |
| Crates.GetAnswerB | day05/src/main.rs:168-178 | the same promises, with the crane that moves the whole block |
| CratesExample.DrawingExample | day05/src/main.rs:49-89 | the example drawing reads as the piles "ZN", "MCD" and "P", bottom first |
| CratesExample.CraneAExample | day05/src/main.rs:156-166 | on the sample, crane A's four moves give the tops "CMZ" |
| CratesExample.CraneBExample | day05/src/main.rs:168-178 | on the sample, crane B's four moves give the tops "MCD" |
| CratesExample.TopCratesExample | day05/src/main.rs:148-154 | the final piles of the two example runs show the tops "CMZ" and "MCD" |
| Marker.Bit | day6/src/main.rs:15 | a byte has a bit exactly when it is at least 'a' and below 'a'+32; the bit is its offset from 'a' |
| Marker.WindowMask | day6/src/main.rs:15-16 | the mask exists exactly when every byte of the window has a bit |
| Marker.WindowHit | day6/src/main.rs:15-18 | the test is defined exactly when the mask is |
| Marker.MaskCountsDistinct | day6/src/main.rs:11-18 | for lowercase windows, the popcount is at most the size, and equals it exactly when the letters are pairwise distinct |
| Marker.WindowHitMeans | day6/src/main.rs:15-18 | for a lowercase window, a hit means exactly that the window is distinct |
| Marker.SearchForMarkerAsWritten | day6/src/main.rs:5-24 | input shorter than the marker underflows; any hit r satisfies size <= r < len |
| Marker.SearchFrom | day6/src/main.rs:8-23 | a hit r found from start i satisfies i + size <= r < end + size, so it ends a window that starts in the range; the search never fails because the input is shorter than the marker |
| Marker.AsWrittenMissesLastWindow | day6/src/main.rs:8 | the code as written agrees with the corrected search except when the only marker ends at the last byte, where it reports `None` |
| Marker.LastWindowExample | day6/src/main.rs:8 | "abcd" with size 4 gives `None` as written, but 4 when corrected |
| Marker.SearchForMarker | day6/src/main.rs:5-24 | any hit r satisfies size <= r <= len; input shorter than the marker gives `None` |
| Marker.SearchForMarkerFirst | day6/src/main.rs:8-20 | a hit r ends a distinct window, and no earlier window is distinct |
| Marker.SearchForMarkerNone | day6/src/main.rs:23 | the search gives `None` exactly when no window is distinct |
| Marker.FindMarker | day06/src/main.rs:5-24 | the loop computes the corrected search |
| Marker.OpensWithBvwbj | day6/src/main.rs:26-29 | an input opening "bvwbj" has its size-4 marker at 5; the code as written gives 5 when there is at least one more byte, and `None` when the input is exactly "bvwbj" |
| Marker.OpensWithBvwbjAsWritten | day6/src/main.rs:8-23 | as written: 5 when a sixth byte follows "bvwbj", `None` for the five bytes alone |
| Marker.PacketExample | day6/src/main.rs:51-53 | "bvwbjplbgvbhsrlpgdmjqwftvncz" gives 5 |
| Marker.GetAnswerA | day6/src/main.rs:26-29 | with the size-4 marker: input shorter than the marker gives `None`; a hit r satisfies 4 <= r <= len; lowercase input never fails, and the answer agrees with the code as written unless it is the last window |
| Marker.GetAnswerB | day6/src/main.rs:31-34 | the same promises for the size-14 marker |
| FileTree.ParseListType | day07/src/main.rs:21-39 | "dir NAME" gives a directory and "SIZE NAME" a file of that `u32` size; a missing name or bad size fails |
| FileTree.ParseCommandLines | day07/src/main.rs:43-64 | the first word must be "$"; "cd" takes an optional path; "ls" collects the following lines and succeeds exactly when each entry parses |
| FileTree.RunLength | day07/src/main.rs:74-82 | the run of lines before the next "$" line |
| FileTree.Groups | day07/src/main.rs:66-87 | each group starts with its command line; no later line of a group starts with '$' |
| FileTree.GroupsConcat | day07/src/main.rs:66-87 | the groups concatenate back to the input lines |
| FileTree.ParseInput | day07/src/main.rs:66-87 | one command per group, in input order; empty input gives no commands |
| FileTree.ParseFormatInput | day07/src/main.rs:43-87 | a list of well-named commands is read back from its transcript |
| FileTree.AddEntry | day07/src/main.rs:136-146 | appends a node under the current directory and records it in the parent's children; well-formedness is kept |
| FileTree.AddEntries | day07/src/main.rs:136-146 | appends one node per entry and keeps the tree well formed |
| FileTree.AddEntriesChildren | day07/src/main.rs:141-145 | the directory's children gain exactly the listed names, all pointing at new nodes |
| FileTree.Step | day07/src/main.rs:117-147 | "cd /" changes nothing; "cd .." goes to the parent (fails at the root); "cd NAME" goes to that child (fails if unknown); "cd" without a path fails; "ls" appends the entries |
| FileTree.Run | day07/src/main.rs:115-149 | the commands keep the tree well formed, adding one node per listed entry |
| FileTree.BuildFileTree | day07/src/main.rs:111-151 | the tree starts from root "/" at index 0, stays well formed, and has one node per listed entry plus the root |
| FileTree.Ancestors | day07/src/main.rs:141-145 | every node reaches the root through parents with strictly smaller indices |
| FileTree.ListThenCd | day07/src/main.rs:121-145 | after "ls", "cd" into a listed name reaches that name's new node |
| FileTree.RelistLeavesOrphan | day07/src/main.rs:136-146 | listing the same directory twice makes the name point at the second node, so the first node is no longer anyone's child |
| FileTree.UpFromRootPanics | day07/src/main.rs:120-125 | "cd /" then "cd .." fails, because the root has no parent |
| FileTree.UnknownDirectoryPanics | day07/src/main.rs:126-131 | "cd" into a name never listed fails |
| Trees.BuildTree | day08/src/main.rs:77-83 | the tree for a digit at (x, y) has coordinates (x, y) and the digit's height |
| Trees.BuildRow | day08/src/main.rs:76-85 | a row builds exactly when every character is a digit |
| Trees.BuildRows | day08/src/main.rs:73-87 | the grid has one row per line, each built from its line |
| Trees.BuildGrid | day08/src/main.rs:73-87 | the grid builds exactly when every character of every line is a digit; it has one row per line, each built from its line |
| Trees.BuildGridPlaces | day08/src/main.rs:73-87 | every tree in a built grid sits at its own row and column |
| Trees.HeightAt | day08/src/main.rs:28-41 | a height is read exactly when the position is on the grid |
| Trees.LookOut | day08/src/main.rs:28-41 | looking along a run fails only by reading outside the grid |
| Trees.IsVisible | day08/src/main.rs:13-43 | border trees are always visible; an empty grid fails |
| Trees.LookOutMeans | day08/src/main.rs:28-41 | looking along a line says whether every tree on it is strictly lower |
| Trees.LookAround | day08/src/main.rs:28-41 | trying the directions in turn fails only by reading outside the grid |
| Trees.LookAroundMeans | day08/src/main.rs:21-41 | for an interior tree, trying directions `cardinal` to 3 reports exactly whether one of them is lower all the way to the edge |
| Trees.IsVisibleMeans | day08/src/main.rs:13-43 | for a tree on the grid, visibility holds exactly when it is on the border or some direction is strictly lower all the way to the edge |
| Trees.ViewingDistance | day08/src/main.rs:57-67 | the distance is at most the number of trees in that direction |
| Trees.ViewingDistanceMeans | day08/src/main.rs:57-67 | the distance counts the trees up to and including the first one at least as tall, or all of them if none is |
| Trees.VisibilityScore | day08/src/main.rs:45-70 | an empty grid fails; any other failure is a read outside the grid |
| Trees.BorderScoresZero | day08/src/main.rs:45-70 | a border tree scores 0 |
| Trees.ScoreOfDistances | day08/src/main.rs:49-69 | the score is the product of the four viewing distances |
| Trees.CountVisible | day08/src/main.rs:96-108 | the count succeeds exactly when every visibility test does, and is then the number of trees, in row order, whose test reports visible |
| Trees.CountVisibleInRow | day08/src/main.rs:100-108 | the same for one row, and a failure is the error of the first failing test |
| Trees.GetAnswerA | day08/src/main.rs:91-116 | a grid that does not build gives its error; an answer is the number of trees whose visibility test reports visible |
| Trees.AnswerACountsVisibleTrees | day08/src/main.rs:91-116 | on a rectangular grid, part one never fails and counts exactly the trees with a clear view to some edge, border trees included |
| Trees.MaxScore | day08/src/main.rs:118-129 | the result is at least every tree's score and is one of them, or the starting value 0 |
| Trees.GetAnswerB | day08/src/main.rs:118-129 | a grid that does not build gives its error; an answer bounds every tree's score and is 0 or one of them |
| Rope.AreTouching | day9/src/main.rs:26-28 | touching holds exactly when both coordinate differences are at most 1 |
| Rope.Translate | day9/src/main.rs:30-37 | U/D change only y by +1/-1, and R/L change only x by +1/-1 |
| Rope.TranslateOpposite | day9/src/main.rs:30-37 | a step followed by the opposite step returns to the start |
| Rope.RunPlanckPhysics | day9/src/main.rs:39-73 | a touching tail stays put; in the same column or row it moves one cell behind the head; otherwise it steps diagonally toward the head |
| Rope.PhysicsIsSignStep | day9/src/main.rs:39-73 | when the tail is within distance 2 of the head, the case every reachable rope is in, the physics is a sign step: a touching tail stays put, and otherwise each tail coordinate moves by the sign of its difference from the head |
| Rope.FollowKeepsTouching | day9/src/main.rs:39-73 | if the tail touched the head and the head moved at most one cell per axis, the tail touches again and itself moved at most one cell per axis |
| Rope.NewShortRope | day9/src/main.rs:82-87 | a new rope touches |
| Rope.MoveShortRope | day9/src/main.rs:89-92 | the head takes the step, and a touching rope stays touching with the tail moving at most one cell |
| Rope.NewLongRope | day9/src/main.rs:122-126 | len knots, all at the start, all touching |
| Rope.MoveLongRope | day9/src/main.rs:128-134 | the knot count is kept and knot 0 takes the step |
| Rope.Follow | day9/src/main.rs:128-134 | one new position per follower; the first follows the leader, and each later one follows the already-moved knot in front of it |
| Rope.FollowUsesUpdatedLeader | day9/src/main.rs:128-134 | knot i+1 follows knot i's already-updated position |
| Rope.MoveLongRopeOrder | day9/src/main.rs:128-134 | each knot after the first is the physics of its updated leader and its old position |
| Rope.MoveLongRopeKeepsTouching | day9/src/main.rs:128-134 | every adjacent pair stays touching, and each knot moves at most one cell per axis |
| Rope.TwoKnotRopeIsShortRope | day9/src/main.rs:89-134 | a two-knot long rope moves exactly like the short rope |
| Rope.ParseLine | day9/src/main.rs:161-188 | "U/D/L/R n" gives the matching direction and n units; any other letter fails |
| Rope.ParseFormatAction | day9/src/main.rs:161-188 | an action is read back from its rendering |
| Rope.ParseMoves | day9/src/main.rs:190-192 | succeeds exactly when every line parses, giving one action per line in order; a failure is the first bad line's error |
| Rope.ParseFormatMoves | day9/src/main.rs:190-192 | a list of actions is read back from its lines |
| Rope.Step | day9/src/main.rs:201-206 | each step records the tail's new position among the visited cells |
| Rope.Repeat | day9/src/main.rs:201-206 | the knot count is kept; zero or negative repeats change nothing; the visited set only grows, and after at least one step it holds the tail's position |
| Rope.RepeatInvariant | day9/src/main.rs:201-206 | repeating a step keeps the rope touching, only adds visited cells, and adds at most one per step |
| Rope.RunActions | day9/src/main.rs:199-207 | the knot count is kept and the visited set only grows |
| Rope.RunActionsInvariant | day9/src/main.rs:199-207 | running all actions keeps the rope touching and visits at most one new cell per step |
| Rope.TailVisits | day9/src/main.rs:194-228 | the visit count is at most the number of steps, and at least one when there is a step |
| Rope.AnswerA | day9/src/main.rs:194-210 | the two-knot answer is at most the number of steps |
| Rope.AnswerB | day9/src/main.rs:212-228 | the ten-knot answer, from (11, 5), is at most the number of steps |
| RopeExamples.SampleAAnswer | day9/src/main.rs:194-210 | the part-A answer on the eight-line example log is 13 |
| RopeExamples.SampleATailVisits | day9/src/main.rs:243-255 | the sample moves make a two-knot tail visit 13 cells |
| Cpu.New | day10/src/main.rs:18-28 | a new device has x = 1, cycle 0, pointer 0 and the current instruction done |
| Cpu.LoadNext | day10/src/main.rs:30-37 | loads only when the current instruction is done and the pointer is in range, then advances the pointer by one; the pointer never passes the program's end |
| Cpu.RunInstruction | day10/src/main.rs:39-54 | the count rises by one; the instruction is done when the count reaches its cost; `addx` changes x only on its second cycle |
| Cpu.RunCycle | day10/src/main.rs:56-67 | a finished device returns (x, true) unchanged; otherwise it returns the x held during the cycle, read before the instruction's effect, and counts one cycle |
| Cpu.NoopTick | day10/src/main.rs:39-67 | a `noop` takes one cycle and leaves x unchanged |
| Cpu.AddxTicks | day10/src/main.rs:39-67 | an `addx v` takes two cycles, shows the old x on both, and adds v at the end of the second |
| Cpu.RunMatchesExpected | day10/src/main.rs:56-67 | running a program shows the x of the reference trace cycle by cycle, then reports finished |
| Cpu.RunEndsFinished | day10/src/main.rs:39-67 | after #noop + 2*#addx cycles the device is finished with x raised by the sum of the `addx` values |
| Cpu.FullRun | day10/src/main.rs:18-67 | from a new device: the trace matches the reference, and the run ends finished at 1 + the sum of the `addx` values |
| Cpu.MiniTrace | day10/src/main.rs:178-196 | the 5-instruction sample shows 1,1,1,4,4,-1,-1,-1 and then finished at 0 |
| Cpu.ParseLine | day10/src/main.rs:105-118 | "noop" gives `Noop` and "addx k" gives `Addx(k)`; a missing or bad operand or an unknown word fails |
| Cpu.ParseFormatInstruction | day10/src/main.rs:105-118 | an instruction is read back from its rendering |
| Cpu.ParseProgram | day10/src/main.rs:120-122 | one instruction per line, each the parse of its line |
| Monkeys.Evaluate | day11/src/main.rs:11-17 | the test passes exactly when the divider divides the worry; the target is the true or false monkey accordingly |
| Monkeys.EvaluateMultiples | day11/src/main.rs:11-17 | a worry of k*d + r is routed by whether r is 0 |
| Monkeys.VarValue | day11/src/main.rs:107-112 | `old` gives the input and a constant gives itself |
| Monkeys.EvaluateOperation | day11/src/main.rs:123-128 | the new worry is the sum or the product of the two operand values, with `old` read as the current worry |
| Monkeys.EvaluateSymmetric | day11/src/main.rs:123-128 | swapping the operands changes nothing; "old * old" squares and "old + old" doubles |
| Monkeys.ParseVar | day11/src/main.rs:98-105 | "old" gives `Old`; any other word must parse as an `i32` constant |
| Monkeys.ParseOperator | day11/src/main.rs:80-88 | accepts exactly "+" and "*" |
| Monkeys.ParseOperation | day11/src/main.rs:130-151 | needs the "Operation: new =" prefix (otherwise a starting-items error) and exactly three tokens, then parses operand, operator and operand |
| Monkeys.ParseFormatOperation | day11/src/main.rs:130-151 | an operation is read back from its rendering |
| Monkeys.ParseTestField | day11/src/main.rs:20-33 | a field succeeds exactly when the trimmed line has the prefix and the trimmed rest is an `i32` |
| Monkeys.ParseTest | day11/src/main.rs:19-70 | the test parses exactly when all three of its lines do |
| Monkeys.ParseFormatTest | day11/src/main.rs:19-70 | a test is read back from its three lines |
| Monkeys.ParseIdLine | day11/src/main.rs:187-207 | succeeds exactly when the line ends with ':' and, before it, the first white-space-separated word is "Monkey" and the second parses as an `i32`, which is the id; any further words are ignored; every failure is an id error |
| Monkeys.ParseFormatIdLine | day11/src/main.rs:187-207 | an id is read back from "Monkey N:" |
| Monkeys.ParseItem | day11/src/main.rs:216-222 | an item succeeds exactly when the trimmed field parses as an `i32`, and is that number; otherwise a starting-items error |
| Monkeys.IdLineExamples | day11/src/main.rs:375-385 | "Monkey 0:" gives 0 and "Monkey 24:" gives 24 |
| Monkeys.ParseStartingItems | day11/src/main.rs:209-224 | needs the prefix; the items are the comma-separated `i32`s in input order |
| Monkeys.ParseFormatStartingItems | day11/src/main.rs:209-224 | a non-empty item list is read back from its line |
| Monkeys.ParseMonkeyLines | day11/src/main.rs:235-267 | a monkey comes from six lines, each parsed by its parser, starting with zero inspections; fewer lines fail |
| Monkeys.ParseMonkey | day11/src/main.rs:235-267 | a parsed monkey comes from the first six lines of its text, each read by its own parser, with zero inspections; a missing-line error means fewer than six lines |
| Monkeys.DivTrunc3 | day11/src/main.rs:287 | division by 3 truncates toward zero |
| Monkeys.Inspect | day11/src/main.rs:284-288 | without boredom the worry is the operation's result; with boredom it is that result divided by 3, truncated toward zero |
| Monkeys.ThrowItems | day11/src/main.rs:283-305 | throwing keeps the number of monkeys and does not change the thrower |
| Monkeys.ThrowItemsCount | day11/src/main.rs:283-293 | throwing a list of items adds exactly that many items to the other monkeys |
| Monkeys.Turn | day11/src/main.rs:278-309 | a turn succeeds exactly when every item goes to another monkey in range; the thrower ends empty with its count raised by its item count; each other monkey receives its items in order at the back; the item total is conserved |
| Monkeys.Round | day11/src/main.rs:277-309 | a round keeps the monkeys, conserves the items and never lowers an inspection count |
| Monkeys.RoundFrom | day11/src/main.rs:278-309 | the turns from monkey i on keep the monkeys, conserve the items and never lower an inspection count |
| Monkeys.Insert | day11/src/main.rs:335 | insertion keeps the list sorted by count, non-increasing, and adds exactly the new pair |
| Monkeys.SortDescending | day11/src/main.rs:335 | the result is a non-increasing permutation of the input |
| Monkeys.Activity | day11/src/main.rs:330-334 | one (id, count) pair per monkey, in order |
| Monkeys.GetMostActive | day11/src/main.rs:329-337 | returns min(len, n) pairs, non-increasing, drawn from the monkeys, none beaten by a pair left out |

## Left out

- File reading, `main`, and all `println!` output, including the verbose traces in `run_round` and the `Command:` line in `build_file_tree`. These are I/O.
- day02: it only reads a file and prints constants.
- `print_on_grid` in day 9: debug rendering.
- Day 10 `run_all`, `draw_crt`, `get_answer_a` and `get_answer_b`: the CRT drawing is marked buggy in the source. The part-A test depends on `test_input.txt`, which is not part of this model. The cycle semantics these build on are modelled (`Cpu.RunCycle`, `Cpu.FullRun`).
- Day 7 `get_answer_a` and `main`: they are `todo!()`, so there is nothing to model.
- Day 7 directory sizes: the tree builder stores sizes but never totals them.
- Day 9 part-B sample (36 cells): proving it would take a 10-knot run over many steps. The 13-cell part-A sample is proved from the text of the log (`RopeExamples.SampleAAnswer`).
- Day 8 sample (21 visible trees): evaluating it for all 25 trees is too costly for the solver. The visibility meaning is proved for every grid instead (`Trees.IsVisibleMeans`).
- Day 6 examples other than "bvwbjplbgvbhsrlpgdmjqwftvncz": the search is proved correct for all lowercase inputs (`Marker.SearchForMarkerFirst`, `Marker.SearchForMarkerNone`).
- Day 11 multi-round driving and the product of the two highest counts in `main`: this is plain I/O glue around `run_round` and `get_most_active`.
- `Monkeys.GetMostActive`: Rust's `sort_by` is stable, so monkeys with equal counts keep their index order. The model proves only a non-increasing order of the selected pairs.
- `Monkeys.Turn`: a monkey throwing to itself would panic on the `RefCell` double borrow. The model reports it as an error rather than modelling borrows.
- Integer overflow in `i32` worry arithmetic (`old * old`) and in day 9 coordinates: integers are unbounded. Parsed values are bounded to `i32`/`u32`/`usize` as the source's parsers are.
- `BinaryHeap` internals in day 1: the heap is modelled as an ascending sequence of the current top-n totals, with the minimum first.
- Day 5 `parse_action` with a pile number 0: `b - 1` underflows in `usize`, which the model reports as an error.
- `Trees.IsVisible`: rows of different lengths are not rejected. Like the source, the model reads the width from the first row.
- `Rucksack.Compartments`: `split_at` panics on a non-ASCII boundary, but text here is one character per byte.
- `Marker.Bit`: window sizes of 2^32 or more, where the source's `as u32` cast wraps, are excluded from the lemmas about window hits.
- Monkeys.ParseIdLine, Monkeys.ParseItem, Monkeys.ParseTestField, Monkeys.ParseStartingItems, Monkeys.ParseOperation: day 11 uses `str::trim` and `split_whitespace`, which also treat Unicode white space (such as U+000B, U+0085 and U+00A0) as separators. The model treats only ASCII white space that way, so a line padded with other Unicode white space is rejected here but accepted by the source.
- Marker.GetAnswerA, Marker.GetAnswerB: both answers use the corrected search (every window examined, no underflow on short input), not the code as written. They agree with the code as written except when the only marker ends at the last byte, and on input shorter than the marker, where the source's `len - size` underflows; see "## Findings".
- Crates.RunMoves: the pile contents after the moves are stated by the per-move lemmas (`Crates.ExecuteAMoves`, `Crates.ExecuteBMoves`) and `Crates.RunMovesConserves`, not by a closed form for the whole run.
- Standard-library integer parsing is modelled as a decimal reader with an optional sign and the type's range. Rust's exact `FromStr` grammar is not modelled character by character.

## Findings

| source | as written | input that shows it | evidently intended | confidence | as-written member | corrected member |
|---|---|---|---|---|---|---|
| day6/src/main.rs:8 (also day06/src/main.rs:8) | the loop runs over `0..bytes.len() - marker_size`, so the last window is never examined | "abcd" with marker size 4 gives `None`; the whole input is a marker, so it should give 4 | examine starts `0..=bytes.len() - marker_size` | not executed | Marker.SearchForMarkerAsWritten (see Marker.LastWindowExample, Marker.AsWrittenMissesLastWindow) | Marker.SearchForMarker (see Marker.SearchForMarkerFirst, Marker.SearchForMarkerNone) |

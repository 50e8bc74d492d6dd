# Advent of Code 2022 puzzle kernels, in Dafny

This project models the puzzle kernels of graham-riches/advent-of-code-2022, a set of independent,
single-threaded Rust programs plus one C++ program (day 20). Each day reads a puzzle input and computes
two answers. The model keeps the computation and drops the file reading and printing. Inputs become
sequences, strings, sets and maps. Where the original would panic on an `unwrap` of `None`, an
out-of-range index or a division by zero, the model returns `None`. Integer overflow is a `None` result
only on the days that model a fixed width; "## Left out" lists them, and the other days compute on
unbounded integers.

One module per day, or per source file where a day has several:

| module | file | models |
|---|---|---|
| `Calories` | `day01.dfy` | day 1: elf calorie groups, maximum and top-three sum |
| `RockPaperScissors` | `day02.dfy` | day 2: the two score tables and the totals |
| `Rucksacks` | `day03.dfy` | day 3: item priorities, the shared item of a rucksack, the group badge |
| `CampCleanup` | `day04.dfy` | day 4: section ranges, `contains` / `overlaps`, the two pair counts |
| `SupplyStacks` | `day05.dfy` | day 5: instruction parsing, the one-at-a-time and the block crane |
| `FrameScanning` | `day06.dfy` | day 6: the sliding window of distinct characters |
| `FileTree`, `DeviceCommands` | `day07_fs.dfy`, `day07_main.dfy` | day 7: the index-based directory tree, sizes and the terminal replay |
| `TreeHouse` | `day08.dfy` | day 8: the visibility scans and the scenic score |
| `RopeBridge` | `day09.dfy` | day 9: the rope knots |
| `Handheld`, `Display` | `day10_cpu.dfy`, `day10_crt.dfy` | day 10: the CPU cycle machine and the CRT |
| `MonkeyBusiness` | `day11.dfy` | day 11: monkeys throwing items, worry reduction |
| `HillClimbing` | `day12.dfy` | day 12: elevations and Dijkstra's search |
| `Packets`, `PacketParse`, `DistressSignal` | `day13_packet.dfy`, `day13_parse.dfy`, `day13_signal.dfy` | day 13: packet ordering, the bracket parser and the divider ranking |
| `Regolith` | `day14.dfy` | day 14: rock paths and falling sand |
| `BeaconZone` | `day15.dfy` | day 15: sensor intervals on a row |
| `Surface`, `RockFall`, `CycleSim` | `day17_surface.dfy`, `day17_fall.dfy`, `day17_cycle.dfy` | day 17: surface pruning, a rock's fall, and the cached simulation with cycle skipping |
| `Droplet` | `day18.dfy` | day 18: cube faces and the exterior search |
| `Geodes` | `day19.dfy` | day 19: the robot-building search |
| `Mixer` | `day20.dfy` | day 20: the circular doubly linked list mixer |
| `MonkeyMath` | `day21.dfy` | day 21: the monkey expression parser and evaluator |
| `MonkeyMap` | `day22.dfy` | day 22: the wrapping walker on the map and the route parser |
| `Diffusion` | `day23.dfy` | day 23: the elf diffusion rounds and the empty-tile count |
| `Util`, `Text`, `Ranking` | `util.dfy`, `text.dfy`, `ranking.dfy` | shared: `Option`, truncating division, sums; Rust's `split`, `parse` and number rendering; sorting and top-k |

Integer types are modelled as unbounded `int`. Where the model does keep a fixed width (an `i32` or
`i64` sum, a `u64` worry level, a `usize` subtraction), it says so explicitly, either as a `None` result
where the original would overflow or as a range precondition. Rust's and C++'s `/` and `%` truncate
toward zero. `Util.TruncDiv` and `Util.TruncRem` model them, because Dafny's own operators are
Euclidean.

The Rust programs iterate over `HashSet` and `HashMap` in an unspecified order. Where the answer does
not depend on that order, it is modelled on sets, and for day 23 the independence is proved
(`Diffusion.OrderIrrelevant`). Where it could matter (the day-3 badge when a group shares several
items), the contract only says "some shared item".

## Model

| member | source | states |
|---|---|---|
| Calories.ParseLines | day-1/src/main.rs:13 | every line is read as an `i32`; the result exists exactly when every line parses, and holds each line's value in order |
| Calories.ElfTotal | day-1/src/main.rs:8-13 | an elf's total is the sum of its lines' values, and exists exactly when every line parses and no running `i32` sum overflows |
| Calories.ElfTotals | day-1/src/main.rs:12-14 | one total per elf, in input order, and none at all when any elf's fold fails |
| Calories.Totals | day-1/src/main.rs:7-14 | splitting the input on blank lines always gives at least one elf |
| Calories.MaxCalories | day-1/src/main.rs:16 | part one is a total some elf carries and no elf carries more; it exists exactly when the totals do |
| Calories.TopThreeOf | day-1/src/main.rs:18-21 | the three largest totals: min(3, n) of them, drawn from the totals, and for every threshold as many of them reach it as the totals allow |
| Calories.TopThree | day-1/src/main.rs:18-22 | part two is the sum of the three largest totals; it exists exactly when the totals do and every running `i32` sum of the three fits, so an overflow gives `None` |
| Calories.SplitJoinBlank | day-1/src/main.rs:7 | splitting on blank lines undoes joining elves with blank lines |
| Calories.ElfTotalOfRender | day-1/src/main.rs:8-13 | an elf written out one number per line reads back as the exact sum of its numbers |
| Calories.TotalsOfRender | day-1/src/main.rs:7-14 | a whole input written out from elves' numbers reads back as each elf's exact total, in order |
| RockPaperScissors.ParseRound | day-2/src/main.rs:9 | a line yields its first two space-separated pieces exactly when it holds a space |
| RockPaperScissors.ParseRoundOf | day-2/src/main.rs:9 | a line of two space-free words reads back as exactly those words |
| RockPaperScissors.ScoreOne | day-2/src/main.rs:23-36 | each table entry is the score of the shape played plus the score of the outcome against the opponent's shape; unknown letters score 0; every score lies in 0..=9 |
| RockPaperScissors.ShapeFor | day-2/src/main.rs:38-51 | against each opponent shape exactly one shape reaches each wanted outcome |
| RockPaperScissors.ScoreTwo | day-2/src/main.rs:38-51 | each table entry plays the one shape that reaches the wanted outcome and scores it as in part one; unknown letters score 0 |
| RockPaperScissors.Rounds | day-2/src/main.rs:7-10 | one round per line, in order, and none when some line has no space (the `unwrap` panic) |
| RockPaperScissors.TotalOne | day-2/src/main.rs:12-13 | part one is the sum of the rounds' part-one scores; it is `None` exactly when a line does not parse or a running `i32` sum overflows, and always exists when nine points per line fit an `i32` |
| RockPaperScissors.TotalTwo | day-2/src/main.rs:15-16 | part two is the sum of the rounds' part-two scores; it is `None` exactly when a line does not parse or a running `i32` sum overflows, and always exists when nine points per line fit an `i32` |
| RockPaperScissors.TotalBounds | day-2/src/main.rs:12-16 | each part's total lies between 0 and nine points per line |
| Rucksacks.Priority | day-3/src/main.rs:34-40 | lower-case letters score 1..=26 and upper-case 27..=52 by their offset from `a`/`A`, and exactly the non-letters score 0 |
| Rucksacks.PriorityInverse | day-3/src/main.rs:34-40 | priorities name letters one to one |
| Rucksacks.FirstIn | day-3/src/main.rs:25-29 | the scan stops at the first character of the second half that lies in the first half's set, or at the end |
| Rucksacks.PriorityScore | day-3/src/main.rs:22-31 | a line's score is the priority of the first item of its second half that the first half also holds, 0 when the halves share nothing, and always in 0..=52 |
| Rucksacks.SampleScore1 | day-3/src/main.rs:70 | the first sample line scores 16 |
| Rucksacks.SampleScore2 | day-3/src/main.rs:71 | the second sample line scores 38 |
| Rucksacks.SampleScore3 | day-3/src/main.rs:72 | the third sample line scores 42 |
| Rucksacks.SampleScore4 | day-3/src/main.rs:73 | the fourth sample line scores 22 |
| Rucksacks.SampleScore5 | day-3/src/main.rs:74 | the fifth sample line scores 20 |
| Rucksacks.SampleScore6 | day-3/src/main.rs:75 | the sixth sample line scores 19 |
| Rucksacks.PartOne | day-3/src/main.rs:6-8 | the part-one sum lies between 0 and 52 per line |
| Rucksacks.PartOneAppend | day-3/src/main.rs:6-8 | part one adds up line by line: no lines score 0, one line scores its line score, and two inputs joined score the sum of their scores |
| Rucksacks.Common | day-3/src/main.rs:44-50 | the folded set intersection holds exactly the items every rucksack of the group holds |
| Rucksacks.BadgePriority | day-3/src/main.rs:43-55 | the badge priority is missing (the `vec[0]` panic) exactly when the group shares no item, is the priority of a shared item otherwise, and of the single shared item when there is one |
| Rucksacks.Chunks | day-3/src/main.rs:12 | groups of one to three lines, ceil(n / 3) of them |
| Rucksacks.ChunksConcat | day-3/src/main.rs:12 | chunking keeps every line, in order |
| Rucksacks.PartTwo | day-3/src/main.rs:11-17 | the part-two sum exists exactly when every group has a badge, and lies between 0 and 52 per group |
| Rucksacks.PartTwoOneGroup | day-3/src/main.rs:11-17 | one to three lines form a single group, and part two is that group's badge priority |
| Rucksacks.PartTwoAppend | day-3/src/main.rs:11-17 | part two adds up group by group: after a whole number of groups, the answer for both inputs is the sum of their answers, and `None` when either is |
| CampCleanup.ContainsMeaning | day-4/src/range.rs:32-34 | for a non-empty `other`, `contains` holds exactly when every section of `other` is a section of this range |
| CampCleanup.OverlapsMeaning | day-4/src/range.rs:37-41 | for two non-empty ranges, the two-clause `overlaps` formula holds exactly when some section lies in both, and is symmetric |
| CampCleanup.OverlapsEmptyRange | day-4/src/range.rs:37-41 | the formula also accepts an empty range (5-3 against 4-6) that shares no section |
| CampCleanup.ContainsOverlaps | day-4/src/range.rs:32-41 | a range that contains a non-empty range overlaps it, both ways round |
| CampCleanup.ParseRange | day-4/src/range.rs:23-29 | a parsed range has `i32` bounds; `None` stands for the `unwrap` panics |
| CampCleanup.ParseRenderRange | day-4/src/range.rs:23-29 | a range of non-negative `i32` bounds written as `a-b` reads back as itself |
| CampCleanup.ParseLineOf | day-4/src/main.rs:29-34 | a line of two comma-free pieces splits into exactly those pieces |
| CampCleanup.ParseRenderLine | day-4/src/main.rs:29-34 | a line `a-b,c-d` reads back as its two ranges |
| CampCleanup.ParseAll | day-4/src/main.rs:7-11 | one pair per line, in order, and none when some line fails to parse |
| CampCleanup.CountNested | day-4/src/main.rs:13-16 | part one counts at most one per pair |
| CampCleanup.CountOverlapping | day-4/src/main.rs:20-23 | part two counts at most one per pair |
| CampCleanup.NestedAtMostOverlapping | day-4/src/main.rs:13-23 | for non-empty ranges part one never exceeds part two |
| CampCleanup.CountsAppend | day-4/src/main.rs:13-23 | both counts add up over a split of the list |
| SupplyStacks.ParseInstruction | day-5/src/main.rs:53-57 | a parsed instruction is the `i32` value of the second, fourth and sixth space-separated words; `None` stands for the `unwrap` panics |
| SupplyStacks.ParseInstructionOf | day-5/src/main.rs:53-57 | a line written as `move n from a to b` parses back to `(n, a, b)` for every `i32`-sized triple |
| SupplyStacks.MoveOneMoves | day-5/src/main.rs:22-27 | between two different stacks the part one crane takes the top `count` crates off `from` and puts them on `to` in reverse order, leaving every other stack alone |
| SupplyStacks.MoveOneSameStack | day-5/src/main.rs:22-27 | moving from a non-empty stack onto itself leaves every stack as it was |
| SupplyStacks.MoveOneTooMany | day-5/src/main.rs:24 | asking for more crates than the source stack holds hits the `pop().unwrap()` panic |
| SupplyStacks.PopIntoTakes | day-5/src/main.rs:36-39 | the part two pick-up loop removes the top `count` crates and holds them topmost-first |
| SupplyStacks.PushFromPuts | day-5/src/main.rs:40-42 | the part two put-down loop appends the last `count` held crates, last-held first |
| SupplyStacks.MoveBlockMoves | day-5/src/main.rs:34-44 | between two different stacks the part two crane moves the top `count` crates onto `to` keeping their order, leaving every other stack alone |
| SupplyStacks.MoveBlockSameStack | day-5/src/main.rs:34-44 | moving a block from a stack onto itself leaves every stack as it was |
| SupplyStacks.PopIntoNeeds | day-5/src/main.rs:37-39 | a pick-up that succeeds names an existing stack holding at least `count` crates |
| SupplyStacks.StepKeepsCrates | day-5/src/main.rs:24-25 | a single pop and push keeps the multiset of all crates |
| SupplyStacks.MoveOneKeepsCrates | day-5/src/main.rs:22-27 | a whole part one move keeps the multiset of all crates |
| SupplyStacks.MoveBlockKeepsCrates | day-5/src/main.rs:35-44 | a whole part two move keeps the multiset of all crates |
| SupplyStacks.Run | day-5/src/main.rs:21-27 | running a program with either crane keeps the number of stacks, or panics (`None`) |
| SupplyStacks.RunKeepsCrates | day-5/src/main.rs:21-44 | running a whole program with either crane keeps the multiset of all crates |
| SupplyStacks.Tops | day-5/src/main.rs:28-30 | the answer has one letter per stack, each the top crate; it is defined exactly when no stack is empty |
| FrameScanning.IsMarkerMeaning | day-6/src/main.rs:46-60 | position `n` ends a marker exactly when the `size` characters before it are pairwise different |
| FrameScanning.New | day-6/src/main.rs:16-22 | a new scanner has an empty window that agrees with its member set, and the given capacity |
| FrameScanning.Reset | day-6/src/main.rs:63-66 | resetting empties the window and the set and keeps the capacity |
| FrameScanning.FlushUntil | day-6/src/main.rs:25-30 | flushing only drops characters from the front of the window and keeps the capacity |
| FrameScanning.FlushUntilDrops | day-6/src/main.rs:25-30 | in a window of distinct characters, flushing up to `c` drops exactly the prefix through `c`'s position and keeps the set in step with the window |
| FrameScanning.Insert | day-6/src/main.rs:33-44 | below capacity the character is appended and the new length returned; at capacity the oldest character is dropped and the new one is not stored; a zero-capacity scanner is the `unwrap` panic |
| FrameScanning.MarkerWhenFull | day-6/src/main.rs:54-55 | while the window is the longest distinct run ending at the current position, it is full exactly when a marker ends there |
| FrameScanning.Step | day-6/src/main.rs:49-57 | one loop turn keeps the window equal to the longest distinct run ending at the next position, and reports a full window exactly at a marker |
| FrameScanning.Scan | day-6/src/main.rs:47-60 | from a fresh scanner, a returned count is a marker position with no earlier marker, and `None` means the buffer holds no marker; a zero-capacity scanner panics on a non-empty buffer |
| FrameScanning.FirstMarker | day-6/src/main.rs:46-60 | the reference answer: the first position from `n` on that ends a marker, or none at all |
| FrameScanning.FindStart | day-6/src/main.rs:79-87 | `find_start_of_frame` and `find_start_of_message` return the first marker position for their window size, and are `None` (the panic) exactly when there is none |
| FileTree.NewFile | day-7/src/fs/file.rs:9-19 | a new file reports the size it was created with |
| FileTree.NewDirectory | day-7/src/fs/directory.rs:14-21 | a new directory has no parent, no children, no files, and answers `has_name` for its own name only |
| FileTree.WithParent | day-7/src/fs/directory.rs:24-36 | a directory made with a parent records that parent, starts empty, and answers `has_name` for its own name only |
| FileTree.Cmp | day-7/src/fs/directory_info.rs:21-25 | directory infos are ordered by size alone |
| FileTree.CmpOrder | day-7/src/fs/directory_info.rs:21-25 | the size ordering is antisymmetric and transitive |
| FileTree.PartialCmp | day-7/src/fs/directory_info.rs:28-32 | the partial ordering is always defined and agrees with the size ordering |
| FileTree.HashAndOrder | day-7/src/fs/directory_info.rs:10-25 | equal infos hash alike, and two infos of the same size with different names compare `Equal` without being equal |
| FileTree.New | day-7/src/fs.rs:27-33 | a new file system is a valid tree holding only the root `/`, which is current |
| FileTree.GoUpOne | day-7/src/fs.rs:36-41 | `cd ..` moves to the parent, or to the root when there is none, and stays in a valid tree |
| FileTree.GoToRoot | day-7/src/fs.rs:44-46 | `cd /` makes the root current and changes nothing else |
| FileTree.FirstNamed | day-7/src/fs.rs:50-55 | the scan finds the first child with the name, or reports that no child has it |
| FileTree.GoDownTo | day-7/src/fs.rs:49-56 | `cd name` moves exactly when the current directory has a child of that name, and then to such a child; otherwise it stays put |
| FileTree.DownThenUp | day-7/src/fs.rs:36-56 | going down into a child and back up returns to the same state |
| FileTree.Extend | day-7/src/fs.rs:59-63 | adding a directory appends it with the current directory as parent and registers it as the current directory's last child, leaving every other directory alone |
| FileTree.ExtendTree | day-7/src/fs.rs:59-63 | adding a directory keeps the directories a tree rooted at the root |
| FileTree.Append | day-7/src/fs.rs:66-68 | adding a file appends it to the current directory only |
| FileTree.AddValid | day-7/src/fs.rs:59-68 | both additions keep the file system valid |
| FileTree.RootReaches | day-7/src/fs.rs:59-63 | in a tree built by these operations every directory lies below the root |
| FileTree.AppendSize | day-7/src/fs.rs:71-80 | adding a file grows the size of exactly the directories on the path from the root to the current directory, by the file's size |
| FileTree.ExtendSize | day-7/src/fs.rs:71-80 | adding an empty directory changes no directory's size |
| FileTree.AddFileUsed | day-7/src/fs.rs:95-97 | the used size grows by the size of each added file |
| FileTree.AddDirectoryUsed | day-7/src/fs.rs:95-97 | adding a directory does not change the used size |
| FileTree.Infos | day-7/src/fs.rs:85-90 | the `DirectoryInfo` of every directory is its name and its recursive size |
| FileTree.SizesBelow | day-7/src/fs.rs:83-92 | the set holds exactly the infos of the directories whose size is at most the limit |
| FileTree.DistinctTotalIsSetTotal | day-7/src/main.rs:31-33 | summing the infos once each, as the hash set does, is the total of the set |
| FileTree.PartOneTotal | day-7/src/main.rs:31-33 | part one is the sum of sizes over the set of directories at most the limit |
| FileTree.Smallest | day-7/src/fs.rs:100-110 | the chosen entry is a smallest one among those at least the limit, and the first such one in directory order |
| FileTree.FirstBiggerThan | day-7/src/fs.rs:100-110 | the answer is the info of some directory, at least the limit, no bigger than any other directory at least the limit; it is `None` (the `dirs[0]` panic) exactly when no directory reaches the limit |
| DeviceCommands.ParseAction | day-7/src/main.rs:55-65 | `ls` lists, `cd /` and `cd ..` go to the root and up, any other `cd` argument goes down to that name; missing words are the indexing panic |
| DeviceCommands.ParseLine | day-7/src/main.rs:45-52 | a `$` line is a command, a `dir` line a listed directory with its name, anything else a file whose size parses as a `usize` |
| DeviceCommands.ParseRender | day-7/src/main.rs:45-65 | every line as the terminal prints it parses back to what it describes |
| DeviceCommands.Apply | day-7/src/main.rs:17-28 | replaying one line keeps the file system valid; commands never change the directories, and `ls` changes nothing |
| DeviceCommands.ReplayUsed | day-7/src/main.rs:15-28 | after replaying a session the used size is the total size of the files it listed |
| DeviceCommands.PartTwo | day-7/src/main.rs:36-40 | the directory chosen frees enough space to reach 30000000 of 70000000 and is the smallest such; it exists exactly when the used size lies between 40000000 and 70000000, outside which the `usize` subtractions underflow |
| DeviceCommands.ParseAll | day-7/src/main.rs:13-18 | a session parses exactly when every line does, line by line |
| DeviceCommands.Solve | day-7/src/main.rs:12-42 | both answers are defined when the session parses, and part two exactly when the listed files total between 40000000 and 70000000 |
| TreeHouse.ParseGrid | day-8/src/main.rs:4-9 | the grid holds the digit value of every character, and parsing fails (the `to_digit` panic) exactly when some character is not a digit |
| TreeHouse.Line | day-8/src/main.rs:28-29 | line `i` of a scan is row `i` when scanning rows and column `i` otherwise |
| TreeHouse.AboveRunMax | day-8/src/main.rs:26-34 | a height beats the running maximum (started at -1) exactly when it is taller than every tree before it |
| TreeHouse.AboveRunMaxFrom | day-8/src/main.rs:37-45 | the same for the reverse scan: taller than every tree after it |
| TreeHouse.ScanForward | day-8/src/main.rs:26-34 | the forward scan marks exactly the trees of the line visible from its start and touches no other line |
| TreeHouse.ScanBackward | day-8/src/main.rs:37-45 | the reverse scan marks exactly the trees of the line visible from its end and touches no other line |
| TreeHouse.ScanLine | day-8/src/main.rs:24-46 | both scans of one line mark exactly its trees visible from either end |
| TreeHouse.ScanVisible | day-8/src/main.rs:23-47 | scanning every row (or every column) marks exactly the trees visible along rows (or columns) |
| TreeHouse.MarkVisible | day-8/src/main.rs:20-50 | after both passes a cell is marked exactly when its tree is visible from some edge |
| TreeHouse.CountMarks | day-8/src/main.rs:52-54 | counting the marks gives the number of visible trees |
| TreeHouse.CountVisibleTrees | day-8/src/main.rs:19-55 | part one is the number of trees visible from outside, scanning the first `|g|` columns of each of the `|g|` rows, at most `|g|` squared; `None` exactly when there is no row or some row is shorter than the number of rows |
| TreeHouse.EdgesVisible | day-8/src/main.rs:19-55 | every tree on the edge of the grid is visible |
| TreeHouse.ViewScan | day-8/src/main.rs:79-92 | the count is one more than the number of shorter trees passed before the first tree at least as tall, or one more than the whole range when there is none |
| TreeHouse.ViewRight | day-8/src/main.rs:65 | the view to the right stops at the first tree at least as tall, or at the last column, and passes only shorter trees |
| TreeHouse.ViewLeft | day-8/src/main.rs:66 | the view to the left stops at the first tree at least as tall, or at the first column, and passes only shorter trees |
| TreeHouse.ViewUp | day-8/src/main.rs:67 | the view upward stops at the first tree at least as tall, or at the top row, and passes only shorter trees |
| TreeHouse.ViewDown | day-8/src/main.rs:68 | the view downward stops at the first tree at least as tall, or at the bottom row, and passes only shorter trees |
| TreeHouse.Scenic | day-8/src/main.rs:65-69 | the scenic score of an interior tree is at least 1 |
| TreeHouse.MaxScenicScore | day-8/src/main.rs:58-76 | part two is the largest scenic score over the interior trees, reached by one of them, and -1 exactly when there is no interior; `None` when a score overflows `i32` or the grid is not rectangular |
| RopeBridge.UpdateTail | day-9/src/main.rs:61-72 | a touching tail stays; a tail two king steps away moves one king step to touch the head; a tail further away stays; the tail never moves away from the head on either axis |
| RopeBridge.FollowKingMove | day-9/src/main.rs:61-72 | when the head makes one king step away from a touching tail, the updated tail touches it again after at most one king step of its own |
| RopeBridge.Step | day-9/src/main.rs:25-31 | `R`, `L`, `U` and `D` move the head one square; any other letter leaves it in place |
| RopeBridge.StepRope | day-9/src/main.rs:44-53 | one step of a rope moves its head as the letter says and keeps the number of knots |
| RopeBridge.PullTaut | day-9/src/main.rs:51-53 | pulling a taut rope after a king step of its head keeps it taut, and every knot moves at most one king step |
| RopeBridge.StepTaut | day-9/src/main.rs:42-56 | one step keeps a rope taut (every knot touching the next), each knot moving at most one king step |
| RopeBridge.TautSpan | day-9/src/main.rs:51-53 | in a taut rope knot `i` is at most `i` king steps from the head |
| RopeBridge.Repeat | day-9/src/main.rs:43-55 | repeating a move keeps the knot count, records the final tail, and records no more squares than steps taken |
| RopeBridge.SimulateTaut | day-9/src/main.rs:42-56 | a whole list of moves keeps a taut rope taut |
| RopeBridge.SimulateSpan | day-9/src/main.rs:39-56 | after any moves the ten-knot tail is at most nine king steps from the head |
| RopeBridge.PairIsRope | day-9/src/main.rs:19-35 | part one's head-and-tail loop is the rope simulation with two knots, square for square |
| RopeBridge.PartOneIsTwoKnots | day-9/src/main.rs:19-36 | part one counts the squares visited by the tail of a two-knot rope |
| RopeBridge.ParseMove | day-9/src/main.rs:11-16 | a parsed move is the line's first character and an `i32` distance; `None` stands for the `unwrap` panics |
| RopeBridge.ParseRenderMove | day-9/src/main.rs:11-16 | a move written as `D n` parses back to the letter and the distance |
| Handheld.SetBreakpoints | day-10/src/cpu.rs:40-43 | the breakpoints become the given cycles sorted ascending, as a permutation, and nothing else of the CPU changes |
| Handheld.SortedKept | day-10/src/cpu.rs:40-43 | already increasing breakpoints are kept as given |
| Handheld.Cycle | day-10/src/cpu.rs:57-79 | one cycle of the inner loop keeps the display well formed and its size unchanged |
| Handheld.Drain | day-10/src/cpu.rs:57-79 | finishing the pending cycles keeps the display well formed and its size unchanged |
| Handheld.RunProgram | day-10/src/cpu.rs:52-92 | running a program keeps the display well formed and its size unchanged, or panics (`None`) |
| Handheld.RunCycles | day-10/src/cpu.rs:57-79 | running a list of register changes advances the tick by one per cycle and the register by their sum |
| Handheld.CycleIsTick | day-10/src/cpu.rs:57-79 | a CPU cycle is one machine tick that adds the pending value only on the last cycle of an instruction |
| Handheld.DrainIsRun | day-10/src/cpu.rs:57-79 | draining the pending cycles is running the machine over the register changes still owed by the current instruction |
| Handheld.RunFromIsRun | day-10/src/cpu.rs:56-92 | running a program only executes the cycles of every instruction but the last, which is issued and never drained |
| Handheld.RunCyclesDraws | day-10/src/cpu.rs:72-73 | the display after running is the display drawn with the register value of each cycle, and running fails exactly when drawing does |
| Handheld.RunCyclesTrace | day-10/src/cpu.rs:62-70 | with increasing breakpoints the trace log gains `tick * x` for exactly the breakpoints the run passes, in order |
| Handheld.RunOn | day-10/src/main.rs:10-13 | a run on a new display keeps its width and height |
| Handheld.RunScreen | day-10/src/cpu.rs:52-92 | after a run from a blank screen, a pixel is lit exactly when the sprite covered its column on the cycle that drew it |
| Handheld.RunTrace | day-10/src/cpu.rs:52-92 | after a run the trace log holds the signal strengths at the breakpoints reached, and none past the last cycle |
| Handheld.SignalSumSpec | day-10/src/main.rs:14-15 | the sum of the trace log is the sum of the signal strengths at the breakpoints reached, and is defined exactly when drawing is |
| Handheld.BreakpointsIncreasing | day-10/src/main.rs:12 | the breakpoints 20, 60, 100, 140, 180 and 220 are positive and increasing |
| Handheld.PartOneSpec | day-10/src/main.rs:4-17 | part one is the sum of the signal strengths at the breakpoints the program reaches on a 40 by 6 display |
| Handheld.ParseOp | day-10/src/main.rs:20-26 | a line whose first word is not `addx` is a no-op; an `addx` carries an `i32` taken from the second word |
| Handheld.ParseRenderOp | day-10/src/main.rs:20-26 | `noop` and `addx v` parse back to the instruction they write |
| Display.New | day-10/src/cpu/crt.rs:15-22 | a new display has the given size, draw position 0 and every pixel dark |
| Display.FlatDivMod | day-10/src/cpu/crt.rs:27-28 | the row and column of a draw position are recovered by division and remainder by the width |
| Display.Draw | day-10/src/cpu/crt.rs:26-34 | a draw lights the pixel at the draw position when the sprite covers its column, changes no other pixel and advances the position; it panics exactly when the width is zero or a pixel to light lies below the last row |
| Display.Draws | day-10/src/cpu/crt.rs:26-34 | a sequence of draws lights exactly the pixels covered by their sprites and fails exactly when one of the draws would |
| Display.DrawnCompose | day-10/src/cpu/crt.rs:26-34 | two runs of draws compose into one run over their concatenation |
| Display.DrawsFromNew | day-10/src/cpu/crt.rs:15-34 | from a new display, a pixel is lit exactly when the draw at its position had the sprite over its column |
| Display.Render | day-10/src/cpu/crt.rs:39-47 | the printout has one `#` or `,` per pixel, row by row, each row ended by a newline |
| MonkeyBusiness.ApplyOp | day-11/src/main.rs:22 | applying the operation gives its value, and fails exactly when the result would overflow a `u64` |
| MonkeyBusiness.OperationOf | day-11/src/main.rs:105-117 | `old + old` doubles, `old * old` squares, `+ n` and `* n` add and multiply a constant, any other operator is the identity; a non-`old` operand that is not a `u64` is the `unwrap` panic |
| MonkeyBusiness.OperationRoundTrip | day-11/src/main.rs:105-117 | every operation written as the puzzle writes it parses back to itself, and computes what its text says |
| MonkeyBusiness.NewWorry | day-11/src/main.rs:22-26 | the new worry is the operation's value reduced by the modulus when there is one, divided by 3 otherwise; a zero modulus or an overflow panics |
| MonkeyBusiness.Throw | day-11/src/main.rs:22-32 | an item goes to monkey `a` when its new worry is divisible by the divisor and to `b` otherwise, carrying the new worry |
| MonkeyBusiness.TakeTurn | day-11/src/main.rs:18-35 | a turn empties the queue, raises the activity by the number of items, changes nothing else, and throws the items in queue order |
| MonkeyBusiness.Deliver | day-11/src/main.rs:65-67 | delivering appends each thrown item to its target's queue in order, and fails exactly when a target is not a monkey |
| MonkeyBusiness.DeliverTotal | day-11/src/main.rs:65-67 | delivering adds exactly the thrown items to the total held |
| MonkeyBusiness.Turn | day-11/src/main.rs:63-68 | one monkey's turn keeps the total number of items, raises its own activity by its queue length, and no other monkey's |
| MonkeyBusiness.RoundFrom | day-11/src/main.rs:63-68 | the turns of a round keep the number of monkeys and the total number of items |
| MonkeyBusiness.Rounds | day-11/src/main.rs:62-69 | any number of rounds keeps the number of monkeys and the total number of items |
| MonkeyBusiness.Activities | day-11/src/main.rs:70-72 | the activities are read off the monkeys in order |
| MonkeyBusiness.TopTwo | day-11/src/main.rs:73-74 | the two values taken after sorting descending are a largest value and a largest value of the rest |
| MonkeyBusiness.Business | day-11/src/main.rs:73-74 | monkey business is the product of the two largest activities, defined for two or more monkeys when it fits a `u64` |
| MonkeyBusiness.GetMonkeyBusiness | day-11/src/main.rs:61-75 | the answer is the monkey business after the rounds, and needs at least two monkeys |
| MonkeyBusiness.DivisorProductMultiple | day-11/src/main.rs:48-50 | the product of all divisors is a multiple of each divisor |
| MonkeyBusiness.ReduceKeepsTest | day-11/src/main.rs:23-28 | reducing by a multiple of the divisor keeps the divisibility test |
| MonkeyBusiness.EvalCongruent | day-11/src/main.rs:22-24 | every operation maps values congruent modulo `m` to values congruent modulo `m` |
| MonkeyBusiness.ReducedThrowAgrees | day-11/src/main.rs:22-32 | with the modulus a multiple of the divisor, a reduced item is thrown where the unreduced item would go, with its worry reduced |
| MonkeyBusiness.WithModulus | day-11/src/main.rs:51-53 | every monkey gets the same modulus and nothing else changes |
| MonkeyBusiness.PartTwo | day-11/src/main.rs:48-54 | part two only runs when the product of the divisors fits a `u64` |
| MonkeyBusiness.PartTwoModulusFits | day-11/src/main.rs:48-53 | the part two modulus is a multiple of every monkey's divisor |
| MonkeyBusiness.ParseTrailingNumber | day-11/src/main.rs:79-87 | a parsed trailing number fits a `u64` |
| MonkeyBusiness.ParseTrailingRoundTrip | day-11/src/main.rs:79-87 | after leading whitespace and the prefix, the number written is the number parsed |
| MonkeyBusiness.ParseTrailingMissing | day-11/src/main.rs:84 | a line that does not start with the prefix after its whitespace gives `None` |
| HillClimbing.ConvertChar | day-12/src/main.rs:82-89 | `a`..`z` map to 1..26, `S` to 1, `E` to 26, anything else to -1 |
| HillClimbing.ConvertCharRoundTrip | day-12/src/main.rs:82-89 | every height is -1 or within 1..26, lower-case letters and heights correspond one to one, and `S` and `E` stand at the heights of `a` and `z` |
| HillClimbing.MatchesSpec | day-12/src/main.rs:39-49 | the matches of the first `i` rows are exactly the cells holding the letter, listed in row-major order |
| HillClimbing.FindAllPointsWithElevation | day-12/src/main.rs:39-49 | the loop returns the reference list of all matching cells |
| HillClimbing.AllMatchesSpec | day-12/src/main.rs:39-49 | the list holds exactly the cells holding the letter, in row-major order |
| HillClimbing.FindUniquePoint | day-12/src/main.rs:27-36 | the point found holds the letter and no cell before it in row-major order does; `None` exactly when no cell holds it |
| HillClimbing.FirstMatchIsHead | day-12/src/main.rs:27-49 | the point `find_unique_point` returns is the first entry of `find_all_points_with_elevation` |
| HillClimbing.WalkExtend | day-12/src/main.rs:62-68 | a walk followed by one allowed step (a grid neighbour at most one higher) is a walk |
| HillClimbing.PopMin | day-12/src/main.rs:57 | the entry popped is least in the order of `(cost, x, y)`, which is the order the reversed binary heap pops in |
| HillClimbing.RelaxOne | day-12/src/main.rs:62-75 | trying one neighbour lowers only costs it can reach in one allowed step, pushes only such entries, and leaves everything as it was when the step is not allowed |
| HillClimbing.Relax | day-12/src/main.rs:62-75 | trying all four neighbours keeps the costs well shaped, only lowers them, and pays for every push with a lowered cost |
| HillClimbing.InitialCosts | day-12/src/main.rs:53-54 | every cost starts at `i32::MAX` except the start's, which is 0 |
| HillClimbing.TrackedPush | day-12/src/main.rs:69-73 | every entry pushed from a cell reached by a walk of `cost` steps is reached by a walk of `cost + 1` steps |
| HillClimbing.FindShortestPath | day-12/src/main.rs:52-78 | the result is `i32::MAX` or the length of a real walk from start to end, and 0 when start and end coincide |
| Packets.EqIsEquality | day-13/src/packet.rs:32-50 | the custom `eq` holds exactly when the two packets are identical: an integer never equals a list, and lists are equal element by element |
| Packets.PartialCmpTotal | day-13/src/packet.rs:56-60 | `partial_cmp` is always defined and agrees with `cmp`, and `<` means `cmp` is `Less` |
| Packets.CmpInts | day-13/src/packet.rs:66-67 | two integers compare numerically |
| Packets.CmpWrapsInt | day-13/src/packet.rs:67-72 | an integer against a list compares as the one-element list holding it, on either side |
| Packets.CmpAllFirstDifference | day-13/src/packet.rs:72-81 | two lists compare as their first pair of elements that does not compare `Equal` |
| Packets.CmpAllLengths | day-13/src/packet.rs:82-84 | when every shared position compares `Equal`, the shorter list is `Less`, the longer `Greater`, and equal lengths `Equal` |
| Packets.CmpRefl | day-13/src/packet.rs:63-91 | every packet compares `Equal` to itself |
| Packets.CmpFlip | day-13/src/packet.rs:63-91 | swapping the operands reverses the result |
| Packets.CmpTrans | day-13/src/packet.rs:63-91 | the ordering is transitive, so sorting by it is well defined |
| Packets.IntAgainstWrappedInt | day-13/src/packet.rs:33-72 | `1` and `[1]` compare `Equal` while `eq` says they differ |
| Packets.EqThenCmpEqual | day-13/src/packet.rs:32-91 | packets that are `eq` compare `Equal` |
| Packets.SampleComparisons | day-13/src/packet.rs:105-117 | `[7,7]` is not less than `[7]`, and `[[1],[2,3,4]]` is less than `[[1],4]` |
| Packets.ShowShape | day-13/src/packet.rs:11-29 | the printed form is non-empty, starts with `[` exactly for a list, and a list's ends with `]` |
| PacketParse.NextPacketStringSpec | day-13/src/main.rs:41-60 | the string returned is a prefix of the input; with the depth counter started at 1, it ends at the first `]` that brings the counter to 0, or is the whole input when there is none |
| PacketParse.NextFromPrefix | day-13/src/main.rs:44-59 | the collected characters are always a prefix of the input |
| PacketParse.ParsePacket | day-13/src/main.rs:64-71 | a packet is parsed exactly when `parse_inner` yields at least one element; otherwise `p[0]` panics |
| PacketParse.ParsePacketWraps | day-13/src/main.rs:64-71 | a single parsed element is returned as it is, and two or more are wrapped in a list |
| PacketParse.TrailingInt | day-13/src/main.rs:108-118 | a trailing run holding the decimal form of an `i32` yields exactly that integer |
| PacketParse.ParseInnerInt | day-13/src/main.rs:74-120 | parsing the decimal form of an `i32` counts all its characters and yields that integer |
| PacketParse.NextPacketOfShowAll | day-13/src/main.rs:41-60 | after the `[` of a printed list, the next packet string is the rest of that list through its closing `]` |
| PacketParse.ParseItems | day-13/src/main.rs:79-106 | the loop over the printed elements of a list followed by `]` collects exactly those elements |
| PacketParse.ParseList | day-13/src/main.rs:74-120 | the printed elements of a list followed by `]` parse back to the elements, counting every character |
| PacketParse.ParseShow | day-13/src/main.rs:64-71 | every packet with `i32` integers, printed as the Debug form writes it, parses back to itself |
| DistressSignal.IndexSumAppend | day-13/src/main.rs:17-21 | a pair added at the end adds its 1-based index exactly when its left packet is less than its right |
| DistressSignal.PartOne | day-13/src/main.rs:17-21 | part one is the sum of the 1-based indices of the pairs in the right order |
| DistressSignal.IndexSumSwapped | day-13/src/main.rs:17-21 | when no pair compares `Equal`, the pairs in order and the pairs swapped share out all the indices between them |
| DistressSignal.IndexSumBound | day-13/src/main.rs:17-21 | the sum is at most the sum of all indices, and equals it when every pair is in order |
| DistressSignal.Sort | day-13/src/main.rs:34 | sorting keeps the packets as a multiset |
| DistressSignal.SortSorted | day-13/src/main.rs:34 | the sorted packets are in the packet order |
| DistressSignal.PositionSpec | day-13/src/main.rs:35-36 | the position found is the 1-based index of the first packet equal to the divider |
| DistressSignal.CountLessPermutation | day-13/src/main.rs:34 | the number of packets below a divider does not depend on their order |
| DistressSignal.RankInSorted | day-13/src/main.rs:34-36 | in sorted packets, a divider that no other packet ties sits right after the packets less than it |
| DistressSignal.DecoderKeyRank | day-13/src/main.rs:25-37 | when no packet ties a divider, the key is (packets below `[[2]]` + 1) times (packets below `[[6]]` + 2) |
| DistressSignal.DecoderKeyDefined | day-13/src/main.rs:35-36 | both dividers are always found, so the `unwrap`s never panic |
| Regolith.SegmentSpec | day-14/src/main.rs:17-29 | a vertical segment holds exactly the cells of its column between the two ends, a horizontal one exactly the cells of its row between the ends, both ends included |
| Regolith.PathCellsSpec | day-14/src/main.rs:13-31 | a path's rock is exactly the union of the segments between consecutive points, and includes every point of a path of two or more points |
| Regolith.PathSegmentIn | day-14/src/main.rs:16-30 | every segment of a path is part of its rock |
| Regolith.Rocks | day-14/src/main.rs:32 | the folded scan holds the rock of every path |
| Regolith.RocksSpec | day-14/src/main.rs:7-32 | a cell is in the scan exactly when it lies on one of the paths |
| Regolith.Next | day-14/src/main.rs:52-59 | a grain tries straight down, then down-left, then down-right, and moves to the first cell that is empty and above the bottom; it has nowhere to go exactly when none of the three is |
| Regolith.Fall | day-14/src/main.rs:51-70 | a falling grain rests where it has nowhere to go, or stops the pour where the exit condition holds; it only passes empty cells, going down one row per step and sideways at most one column |
| Regolith.Pour | day-14/src/main.rs:47-75 | pouring only adds sand, inside the cone below the source; with the source as the exit, the source ends up filled |
| Regolith.Simulate | day-14/src/main.rs:44-77 | the answer is the number of cells filled beyond the scan when the pour ends |
| Regolith.Deepest | day-14/src/main.rs:34-37 | the bottom is the largest `y` of any rock |
| BeaconZone.DistanceMetric | day-15/src/main.rs:39-41 | the taxicab distance is symmetric, zero exactly between equal points, and obeys the triangle inequality |
| BeaconZone.FromVec | day-15/src/main.rs:13-27 | fewer than four values give `None`; otherwise the sensor and beacon are the first two pairs and `db` is their distance |
| BeaconZone.IntersectAtRow | day-15/src/main.rs:30-36 | a row further from the sensor than `db` gives `None`; otherwise the interval is non-empty |
| BeaconZone.IntersectCovers | day-15/src/main.rs:30-36 | a cell of the row lies in the returned interval exactly when it is within `db` of the sensor |
| BeaconZone.Interval | day-15/src/main.rs:107-113 | the cells of an inclusive run, and how many there are |
| BeaconZone.CoveredSpec | day-15/src/main.rs:97-99 | a cell is covered by a list of runs exactly when some run contains it |
| BeaconZone.RangesCover | day-15/src/main.rs:68-70 | the row's runs cover exactly the cells within range of some sensor |
| BeaconZone.BeaconsWithin | day-15/src/main.rs:80-83 | the beacons inside a run, sorted increasing |
| BeaconZone.SplitSpec | day-15/src/main.rs:84-94 | splitting a run at its sorted beacons keeps exactly the cells of the pieces the loop pushes, a one-cell piece left of a beacon being dropped by the `left.1 > p.0` test |
| BeaconZone.PiecesSpec | day-15/src/main.rs:78-95 | the split pieces cover exactly the cells kept from some run, and never a beacon |
| BeaconZone.SortPairs | day-15/src/main.rs:98 | sorting the pieces keeps them as a multiset and orders them by start, then end |
| BeaconZone.GetSpacesCoveredInRow | day-15/src/main.rs:66-100 | the result is sorted, each piece is non-empty, and together they cover what the split pieces cover |
| BeaconZone.SpacesSpec | day-15/src/main.rs:66-100 | a covered cell is within range of a sensor and is not a beacon of the row |
| BeaconZone.CountAsWrittenMissesCell | day-15/src/main.rs:108-112 | on the runs 0-5 and 3-6 the source's count is 6 while seven cells are covered, and the corrected count gives 7 |
| BeaconZone.PartOneAsWritten | day-15/src/main.rs:103-115 | part one as the source counts is never negative and never more than the cells the row's pieces cover |
| BeaconZone.CountAsWrittenCounts | day-15/src/main.rs:107-113 | the source's count adds exactly as many as the cells it counts, all beyond the running maximum it starts from |
| BeaconZone.CountedCovered | day-15/src/main.rs:107-113 | every cell the source's count counts lies in one of the runs |
| BeaconZone.CountCorrectedSpec | day-15/src/main.rs:103-115 | with `<=` in place of `<`, the count over sorted runs is the number of cells they cover |
| BeaconZone.PartOne | day-15/src/main.rs:103-115 | part one, with the corrected count, is the number of cells the row's pieces cover |
| BeaconZone.FirstFree | day-15/src/main.rs:134-139 | the scan of a gap returns its first cell without a beacon, or reports that every cell holds one |
| BeaconZone.GapScan | day-15/src/main.rs:132-148 | a reported cell lies right of the runs so far, holds no beacon and no later run covers it |
| BeaconZone.RowAsWrittenMissesEdge | day-15/src/main.rs:127-131 | with one run 1-5 and `min` 0, the source's row scan reports nothing although cell 0 is free, and the corrected scan reports it |
| BeaconZone.RowAsWritten | day-15/src/main.rs:124-148 | a row with no runs panics (`None`), and a reported cell holds no beacon and is not covered |
| BeaconZone.Row | day-15/src/main.rs:124-148 | the corrected row scan reports `min` first when it lies before the first run and holds no beacon; any cell it reports is free |
| BeaconZone.PartTwoAsWritten | day-15/src/main.rs:118-151 | the answer is `(0, 0)` or a cell of a scanned row that holds no beacon and that no piece covers |
| BeaconZone.PartTwo | day-15/src/main.rs:118-151 | the same for the corrected row scan |
| Surface.Floor | day-17/src/main.rs:71 | the starting surface is row `-1` filled across the seven columns and nothing else |
| Surface.MaxY | day-17/src/main.rs:192-197 | the highest row of a surface: reached by some cell and above none, 0 for the empty surface |
| Surface.MinY | day-17/src/main.rs:202 | the lowest row of a surface: reached by some cell and below none, 0 for the empty surface |
| Surface.Normalize | day-17/src/main.rs:201-206 | a cell is in the normalised surface exactly when raising it by the lowest row gives a cell of the surface; the size is kept and the lowest row becomes 0 |
| Surface.NormalizeIdempotent | day-17/src/main.rs:201-206 | normalising a normalised surface changes nothing |
| Surface.Visit | day-17/src/main.rs:227-236 | a neighbour in the chamber and not yet explored is marked explored, and is searched further only when it is not a surface cell |
| Surface.Expand | day-17/src/main.rs:224-238 | exploring from a cell marks only its in-chamber neighbours below, left and right, and schedules exactly the new ones that are open |
| Surface.Flood | day-17/src/main.rs:224-238 | the recursive exploration only grows the explored set and stays inside the chamber |
| Surface.FloodClosed | day-17/src/main.rs:216-218 | when the exploration ends, every explored open cell has had all its in-chamber neighbours explored |
| Surface.FloodLeast | day-17/src/main.rs:216-218 | the explored set is the least set closed under that step that contains the seeds: nothing is explored that the rule does not reach |
| Surface.Topology | day-17/src/main.rs:210-220 | the topology exists exactly when the exploration cannot escape below the surface's lowest row |
| Surface.TopologyKeepsSurfaceCells | day-17/src/main.rs:232-233 | every cell of the topology is a surface cell reached from above, lowered by a fixed amount, inside the seven columns |
| Surface.TopologySizeAndBaseline | day-17/src/main.rs:219 | the topology has no more cells than the surface and its lowest row is 0 |
| Surface.FullRowStopsFlood | day-17/src/main.rs:210-220 | a surface whose lowest row is full never lets the exploration escape, so its topology exists |
| Surface.AddNoLeak | day-17/src/main.rs:175-179 | adding cells no lower than the lowest surface row keeps that row the lowest, and a surface the exploration could not escape stays so |
| Surface.PruneKeepsTop | day-17/src/main.rs:210-220 | keeping only the surface cells the exploration reaches keeps the highest row |
| Surface.PruneExploresLess | day-17/src/main.rs:210-220 | the pruned surface is non-empty, its lowest row is no lower, and its own exploration stays within the original's |
| Surface.NormalizeExploresLess | day-17/src/main.rs:201-206 | every cell explored in the normalised surface, raised back by the lowest row, was explored in the surface itself |
| Surface.NormalizeNoLeak | day-17/src/main.rs:201-206 | a surface whose explored cells in its lowest row are all surface cells does not leak once normalised |
| Surface.TopologyNoLeak | day-17/src/main.rs:210-220 | the topology of a surface inside the chamber that does not leak exists, is non-empty, lies inside the chamber and does not leak either |
| RockFall.HitsIff | day-17/src/main.rs:161-162 | a placed shape collides exactly when one of its shifted cells is in the surface |
| RockFall.FitsIff | day-17/src/main.rs:163 | a placed shape is in bounds exactly when every shifted cell lies in columns 0 to 6 |
| RockFall.CellsIff | day-17/src/main.rs:177-179 | a cell is added by a resting rock exactly when it is one of the rock's shifted cells |
| RockFall.CatalogueShapes | day-17/src/main.rs:51-57 | each of the five rock shapes is non-empty, has its lowest cell in row 0 and fits at column 2 |
| RockFall.SpawnProperties | day-17/src/main.rs:141-144 | a spawned rock is in bounds, clear of the surface, and its lowest row is three empty rows above the highest surface row |
| RockFall.PushShift | day-17/src/main.rs:150-165 | a jet moves the rock by its own shift or not at all |
| RockFall.PushProperties | day-17/src/main.rs:150-165 | a jet moves the rock exactly when the moved rock is clear and in bounds, and a clear rock stays clear |
| RockFall.Fall | day-17/src/main.rs:149-186 | a landing has consumed at least one jet and rests one row lower per jet consumed after the first |
| RockFall.FallStep | day-17/src/main.rs:167-184 | when the cells below are clear the rock moves down and the fall continues with the next jet |
| RockFall.FallStop | day-17/src/main.rs:174-181 | when the cells below are blocked the rock rests and its cells join the surface |
| RockFall.FallWind | day-17/src/main.rs:157-158 | the jet index after a landing is the start index plus the jets consumed, modulo the number of jets |
| RockFall.FallLands | day-17/src/main.rs:175-179 | the new surface is the old one plus the resting rock's cells, and the rock is blocked directly below |
| RockFall.FallStaysClear | day-17/src/main.rs:163-165 | a rock that starts clear and in bounds rests clear and in bounds |
| RockFall.FullRowStopsFall | day-17/src/main.rs:149-186 | above a full row the fall always ends |
| RockFall.SpawnOpen | day-17/src/main.rs:141-144 | a spawned catalogue rock occupies only cells above the row the exploration starts from |
| RockFall.FallOpen | day-17/src/main.rs:149-186 | a rock in bounds whose cells are all open on a surface that does not leak always comes to rest, and rests on open cells |
| RockFall.OpenCells | day-17/src/main.rs:177-179 | the cells of a rock resting on open cells lie inside the chamber and no lower than the lowest surface row |
| RockFall.DropSealed | day-17/src/main.rs:137-188 | a catalogue rock dropped on a surface inside the chamber that does not leak always lands and adds exactly its own cells; the new surface keeps the lowest row, stays inside the chamber and does not leak |
| RockFall.DropOnBarrier | day-17/src/main.rs:137-188 | on a surface whose lowest row is full, every shape lands clear and in bounds, adds exactly its own cells, and never lowers the highest row |
| CycleSim.FirstDrop | day-17/src/main.rs:137-188 | the flat bar dropped on the flat floor rests in row 0 |
| CycleSim.KeyEq | day-17/src/main.rs:17-41 | the custom key equality is exactly equality of the keys, and equal keys hash alike |
| CycleSim.Init | day-17/src/main.rs:71-76 | the loop starts with no rocks, height 0, jet 0, an empty cache and the full floor row |
| CycleSim.JumpAsWrittenOvershoots | day-17/src/main.rs:88-99 | the source's counter after a skip exceeds `cycles` exactly when the remaining rocks are a whole number of cycles, and then by one |
| CycleSim.JumpAsWrittenExample | day-17/src/main.rs:88-99 | rock 5 repeating rock 3 with 7 rocks in all leaves the counter at 8 |
| CycleSim.Jump | day-17/src/main.rs:88-99 | the corrected counter stays within `cycles`, takes the extra rock only when rocks remain, and leaves fewer than one cycle |
| CycleSim.JumpAgrees | day-17/src/main.rs:88-99 | where the source's counter stays within `cycles`, the corrected jump gives the same counter |
| CycleSim.JumpKeepsRock | day-17/src/main.rs:79-93 | a skip whose ends fall the same shape lands on a rock of that shape |
| CycleSim.Skip | day-17/src/main.rs:86-101 | the corrected cache hit advances the counter within `cycles` without lowering the height and keeps the cache consistent |
| CycleSim.SkipAsWritten | day-17/src/main.rs:86-101 | the source's cache hit leaves the counter at most one past `cycles`, always adds the cached rock's `dh`, and takes the surface and jet index from the cache entry |
| CycleSim.CacheInsert | day-17/src/main.rs:120-125 | recording the current drop keeps every cache entry earlier than the counter, below the height, and keyed on its own shape |
| CycleSim.Record | day-17/src/main.rs:109-130 | after a drop the counter goes up by one, the height rises by the rise of the highest row, and the drop is cached under the key of the state before it |
| CycleSim.Fresh | day-17/src/main.rs:104-130 | a drop without a cache hit advances one rock, never lowers the height and records the state it started from |
| CycleSim.FreshGrowth | day-17/src/main.rs:112-128 | the height added by a drop is the rise of the surface's highest row |
| CycleSim.Step | day-17/src/main.rs:77-131 | one pass of the corrected loop advances the counter within `cycles` and never lowers the height |
| CycleSim.StepAsWritten | day-17/src/main.rs:77-131 | one pass of the source's loop advances the counter to at most `cycles + 1` and never lowers the height |
| CycleSim.StepAsWrittenVsStep | day-17/src/main.rs:86-101 | the source's pass and the corrected pass finish together; they agree, or the source's counter is `cycles + 1` where the corrected one is `cycles` and its height is one cached `dh` higher |
| CycleSim.StepJumpKeepsRock | day-17/src/main.rs:79-93 | a cache hit found by the loop always lands on a rock of the same shape |
| CycleSim.Run | day-17/src/main.rs:77-131 | the corrected loop ends with exactly `cycles` rocks accounted for and a height no lower than at the start |
| CycleSim.RunAsWritten | day-17/src/main.rs:77-131 | the source's loop ends with the counter at `cycles` or `cycles + 1`, and never lowers the height |
| CycleSim.RunAsWrittenVsRun | day-17/src/main.rs:77-131 | the source's loop and the corrected loop finish together; they end in the same state, or the source's ends one rock past `cycles` with one cached `dh` more, and never lower |
| CycleSim.Simulate | day-17/src/main.rs:67-133 | the corrected height is never negative; zero rocks give 0 whatever the inputs, and rocks to drop with no shapes or no jets give `None`, where the source panics on `% 0` or on the jet index |
| CycleSim.SimulateAsWritten | day-17/src/main.rs:67-133 | the source's height, with the same cases: never negative, 0 for zero rocks, `None` without shapes or jets |
| CycleSim.SimulateAsWrittenVsSimulate | day-17/src/main.rs:67-133 | the source's answer exists exactly when the corrected one does, and is never below it |
| CycleSim.InitSealed | day-17/src/main.rs:71 | the starting floor lies inside the chamber and the exploration cannot escape below it |
| CycleSim.FreshSealed | day-17/src/main.rs:104-130 | from a sealed state (surface and cached surfaces inside the chamber and not leaking), a drop without a cache hit always lands, its topology exists, and the state stays sealed |
| CycleSim.StepSealed | day-17/src/main.rs:77-131 | from a sealed state one pass of the corrected loop and one of the source's loop both always finish, and keep the state sealed |
| CycleSim.RunSealed | day-17/src/main.rs:77-131 | from a sealed state the corrected loop always finishes |
| CycleSim.SimulateDefined | day-17/src/main.rs:67-133 | with the five source shapes and any non-empty jet list, both the corrected and the source's simulation give an answer for every number of rocks |
| CycleSim.FirstRock | day-17/src/main.rs:59 | one rock of the source's shape list on the floor gives a tower of height 1, whatever the jets |
| Droplet.FromVec | day-18/src/main.rs:12-14 | fewer than three values give `None` (the source panics); otherwise the point's coordinates are the first three values |
| Droplet.OffsetSpec | day-18/src/main.rs:19-24 | the six offsets are pairwise distinct and reach exactly the face-adjacent points |
| Droplet.AdjacentSymmetric | day-18/src/main.rs:19-24 | face adjacency is symmetric |
| Droplet.NeighboursFrom | day-18/src/main.rs:19-29 | the offsets from the `d`-th on that stay in the padded box, without repeats |
| Droplet.Neighbours | day-18/src/main.rs:17-30 | the neighbours in bounds are exactly the face-adjacent points inside the box padded by one, without repeats, at most six |
| Droplet.Least | day-18/src/main.rs:52-54 | the minimum of one coordinate over the cubes: attained by a cube and below all of them |
| Droplet.Greatest | day-18/src/main.rs:55-57 | the maximum of one coordinate over the cubes: attained by a cube and above all of them |
| Droplet.GetBounds | day-18/src/main.rs:51-59 | no cubes give `None` (the source panics); otherwise every cube lies within the bounds and the bounds are attained |
| Droplet.CountAllSides | day-18/src/main.rs:90-101 | no cubes give `None`; otherwise at most six sides per cube are counted |
| Droplet.SidesBound | day-18/src/main.rs:93-99 | the count over any list of cubes is at most six per cube |
| Droplet.CubeFaces | day-18/src/main.rs:94-98 | the open faces of one cube: the pairs of the cube with an adjacent point that is not a cube, as many as the loop counts |
| Droplet.KeysFacesSpec | day-18/src/main.rs:93-98 | a pair is an open face exactly when its first point is a cube and its second is an adjacent point that is not |
| Droplet.OutsideIsOpen | day-18/src/main.rs:94-98 | filtering to the padded box loses no open face of a cube inside the bounds |
| Droplet.SidesAreFaces | day-18/src/main.rs:93-99 | for distinct cubes inside the bounds, the count is the number of open faces |
| Droplet.AllSidesAreFaces | day-18/src/main.rs:90-101 | part one is the number of (cube, adjacent non-cube) pairs: the surface area of the droplet |
| Droplet.VisitAir | day-18/src/main.rs:80-83 | enqueueing an unvisited non-cube point in the box keeps the queue made of visited air cells |
| Droplet.CountFace | day-18/src/main.rs:78-79 | each cube face touched from an air cell is counted once: the pair was not counted before |
| Droplet.Expand | day-18/src/main.rs:77-84 | scanning the neighbours of a popped air cell keeps every visited cell air inside the box and the count equal to the number of distinct faces touched |
| Droplet.TouchedAreFaces | day-18/src/main.rs:75-86 | the faces touched from outside are open faces of the droplet |
| Droplet.CountExteriorFaces | day-18/src/main.rs:62-87 | no cubes give `None`; otherwise the exterior count never exceeds the total surface area of part one |
| Geodes.Bump | day-19/src/main.rs:70-77 | building a robot adds one robot of that kind and leaves the other counts alone |
| Geodes.New | day-19/src/main.rs:17-25 | a new factory has no robots, saves for an ore robot, and holds ore equal to the ore robot's cost and nothing else |
| Geodes.Increment | day-19/src/main.rs:27-32 | each resource grows by the number of robots of its kind, and the robots are unchanged |
| Geodes.FromVec | day-19/src/main.rs:112-122 | fewer than six values give `None` (the source panics); otherwise the costs are taken in order and the largest ore cost is the largest of the four ore prices |
| Geodes.Pay | day-19/src/main.rs:38-66 | paying never touches geodes, and an affordable robot leaves no resource negative |
| Geodes.Minute | day-19/src/main.rs:38-77 | a minute builds exactly when the resources afford the robot, gathers with the robots from the start of the minute, then adds the robot |
| Geodes.Wait | day-19/src/main.rs:36-78 | the build loop stops within the time left, adds at most one geode robot and gathers one geode per geode robot for each minute spent |
| Geodes.TriMonotone | day-19/src/main.rs:35-100 | the bound on geodes from new robots never shrinks with more time |
| Geodes.BoundStep | day-19/src/main.rs:36-78 | the geodes gathered while waiting plus the bound from there stay within the bound from before |
| Geodes.WaitBound | day-19/src/main.rs:36-80 | the geodes after the build loop are no fewer than before and within the bound |
| Geodes.GetMaxGeodes | day-19/src/main.rs:35-100 | the search returns at least the geodes held after the build and at most what one new geode robot per minute could add |
| Geodes.Explore | day-19/src/main.rs:81-98 | the loop over the unpruned robots keeps the best count so far and never exceeds the bound |
| Geodes.SimulateMaxPossibleGeodes | day-19/src/main.rs:124-127 | from a new factory the answer lies between 0 and `t (t - 1) / 2` |
| Mixer.Walk | day-20/main.cpp:30-32 | following `k` links from a node of a closed list stays on a node of the list |
| Mixer.Link | day-20/main.cpp:52-62 | the nodes are linked into one ring in file order: each node's successor is the next index, wrapping at the end, and its predecessor the one before |
| Mixer.WalkInOrder | day-20/main.cpp:52-62 | in the ring as first linked, `k` steps from node `j` reach node `(j + k) mod n` |
| Mixer.Unlink | day-20/main.cpp:25-26 | removing a node that is not alone splices its neighbours together and keeps every other link consistent |
| Mixer.Relink | day-20/main.cpp:33-36 | inserting the node after `head` restores a consistent doubly linked list |
| Mixer.Rotation | day-20/main.cpp:21-22 | the rotation is C++'s truncating remainder by `n - 1`: smaller than `n - 1` in size, with the sign of the value, and zero exactly when `n - 1` divides the value |
| Mixer.ZeroRemIff | day-20/main.cpp:21-22 | the truncating remainder of a value is zero exactly when its floored remainder is |
| Mixer.Move | day-20/main.cpp:18-36 | moving one node keeps the list consistent, leaves it alone when the rotation is zero, and otherwise reinserts the node just after the node reached by walking `abs(rotate)` steps from its old predecessor, backwards for negative values |
| Mixer.Seek | day-20/main.cpp:29-32 | the walk ends on the node `count` steps away in the chosen direction, never on the removed node |
| Mixer.Decrypt | day-20/main.cpp:15-39 | mixing keeps the list consistent, and changes nothing when every value is a multiple of `n - 1` |
| Mixer.FindZero | day-20/main.cpp:66 | the index of the first node whose value is zero, `None` when there is none |
| Mixer.GroveSum | day-20/main.cpp:66-74 | the sum of the values 1000, 2000 and 3000 steps after the zero (modulo the length), `None` when there is no zero |
| Mixer.WalkSucc | day-20/main.cpp:69-72 | one more step of the readout follows one more link |
| Mixer.GroveInFileOrder | day-20/main.cpp:64-74 | on the unmixed ring the three readout values are taken at file positions counted from the zero |
| MonkeyMath.OpOf | day-21/src/main.rs:87-92 | `+`, `-` and `*` select their operators and every other symbol selects division |
| MonkeyMath.ParseLine | day-21/src/main.rs:79-95 | a line parses exactly when its first piece ends in `:` and it is either a name with an `i64` or has at least four pieces; the name is the first piece without the colon |
| MonkeyMath.ParseRender | day-21/src/main.rs:79-95 | parsing a rendered line gives back its name and entry, for names without spaces and numbers in `i64` range |
| MonkeyMath.Apply | day-21/src/main.rs:104-109 | each operator gives its `i64` result or `None` on overflow; division is by a non-zero divisor and truncates toward zero, its remainder taking the dividend's sign |
| MonkeyMath.Eval | day-21/src/main.rs:98-112 | a missing monkey gives `None`, a number is its own value, and an operation's value is always within `i64` |
| MonkeyMath.OverrideRanked | day-21/src/main.rs:116-117 | replacing a monkey by a number keeps the monkeys free of cycles |
| MonkeyMath.OverrideUnreached | day-21/src/main.rs:98-117 | replacing `humn` leaves the value of every monkey that does not depend on it unchanged |
| MonkeyMath.CheckRootEquality | day-21/src/main.rs:115-125 | a missing `root` gives `None`, a numeric `root` gives `(false, i64::MIN, i64::MAX)`, and otherwise the flag holds exactly when the two operands are equal |
| MonkeyMath.CheckRootConstantSide | day-21/src/main.rs:115-125 | an operand of `root` that does not depend on `humn` has its original value whatever the input |
| MonkeyMap.LineTiles | day-22/src/main.rs:41-48 | a cell of a line is a tile exactly when its character is `.` or `#`, with 1-based column, and it is blocked exactly for `#` |
| MonkeyMap.GridTiles | day-22/src/main.rs:39-55 | the tile map holds exactly the `.` and `#` cells of all lines at 1-based row and column, blocked exactly for `#` |
| MonkeyMap.FirstTile | day-22/src/main.rs:58-62 | the 1-based column of the first tile of a line, `None` when it has none |
| MonkeyMap.FromStr | day-22/src/main.rs:38-65 | a map parses exactly when its first line holds a tile (the source panics otherwise); the walker starts facing right on the leftmost tile of row 1 |
| MonkeyMap.RotateCycles | day-22/src/main.rs:127-134 | four turns the same way, or a turn and its opposite, restore the heading; two turns the same way never do |
| MonkeyMap.Least | day-22/src/main.rs:81-95 | the first element of the sorted coordinates of the line: attained by a tile and below all of them |
| MonkeyMap.Greatest | day-22/src/main.rs:81-95 | the last element of the sorted coordinates of the line: attained by a tile and above all of them |
| MonkeyMap.Wrap | day-22/src/main.rs:105-110 | a coordinate past the last tile of the line wraps to the first, one before the first wraps to the last, and any other is kept |
| MonkeyMap.Ahead | day-22/src/main.rs:98-117 | the next cell is in the walker's row facing left or right, in its column otherwise, and within the line's range |
| MonkeyMap.Steps | day-22/src/main.rs:97-123 | walking keeps the row or column fixed, ends on an open tile whenever it moves, and takes no step for a non-positive distance |
| MonkeyMap.ApplyMove | day-22/src/main.rs:80-124 | a move keeps the map and heading, changes only the coordinate along the heading, never leaves open ground, and panics (`None`) when the line holds no tile |
| MonkeyMap.ApplyInstructions | day-22/src/main.rs:70-77 | the instructions in order keep the map and a walker on open ground stays on open ground |
| MonkeyMap.Facing | day-22/src/main.rs:138-143 | the facing value is 0 for right, 1 down, 2 left and 3 up |
| MonkeyMap.PasswordDecodes | day-22/src/main.rs:137-146 | for columns below 250 the password determines the row, the column and the facing |
| MonkeyMap.ReplaceConcat | day-22/src/main.rs:163-164 | replacing a letter distributes over concatenation |
| MonkeyMap.ParsePieces | day-22/src/main.rs:166-171 | each piece is parsed on its own, in order; one unparsable piece gives `None` (the source panics) |
| MonkeyMap.InstructionsFromString | day-22/src/main.rs:162-172 | one instruction per piece between the colons inserted around each letter |
| MonkeyMap.ExpandRender | day-22/src/main.rs:163-165 | surrounding the letters of a rendered route with colons gives its pieces joined by colons |
| MonkeyMap.InstructionsRoundTrip | day-22/src/main.rs:162-172 | parsing a rendered route of alternating moves and turns gives back the same instructions |
| Diffusion.LineElves | day-23/src/main.rs:29-34 | the elves of one line are exactly its `#` characters, at 1-based column and the given row |
| Diffusion.Elves | day-23/src/main.rs:27-36 | the elves of a map are exactly the `#` cells of all lines at 1-based column and row |
| Diffusion.FromStr | day-23/src/main.rs:26-38 | parsing a map gives exactly the `#` cells of its newline-separated lines |
| Diffusion.NextPosition | day-23/src/main.rs:106-113 | each direction moves one cell orthogonally |
| Diffusion.SideCells | day-23/src/main.rs:96-101 | the three cells checked for a direction are the cell straight ahead and its two diagonal neighbours |
| Diffusion.CheckDirectionSpec | day-23/src/main.rs:95-103 | a direction is free exactly when no elf occupies any of its three cells |
| Diffusion.NextPositionOnSide | day-23/src/main.rs:106-113 | the proposed cell is the middle one of the three cells checked |
| Diffusion.IsolatedSpec | day-23/src/main.rs:52-58 | an elf stays put exactly when none of its eight neighbours holds an elf |
| Diffusion.FirstFree | day-23/src/main.rs:60-68 | the first free direction in the rotated order from position `i`, or none when all remaining ones are blocked |
| Diffusion.Choice | day-23/src/main.rs:52-68 | an isolated elf chooses nothing, and a chosen direction is free |
| Diffusion.ChoiceOrder | day-23/src/main.rs:60-68 | the chosen direction is the first free one in the order starting at the round number, and a crowded elf without a choice has all four blocked |
| Diffusion.Propose | day-23/src/main.rs:63-66 | an elf proposes exactly when it chose a direction, the cell one step that way, which no elf occupies |
| Diffusion.Opposite | day-23/src/main.rs:63-66 | two elves proposing the same cell stand on opposite sides of it |
| Diffusion.Plan | day-23/src/main.rs:50-69 | the proposals of a round: every proposing elf and no other, with its proposed cell, never onto an elf |
| Diffusion.AtMostTwo | day-23/src/main.rs:50-69 | at most two elves propose any one cell |
| Diffusion.Proposals | day-23/src/main.rs:51-69 | the proposals listed in iteration order are the plan's pairs for elves in that order |
| Diffusion.ResolveSpec | day-23/src/main.rs:72-79 | the toggling map keeps a cell exactly when an odd number of proposals name it, and then with one of its proposers |
| Diffusion.CountProposers | day-23/src/main.rs:72-79 | the number of proposals naming a cell is the number of elves that propose it |
| Diffusion.MovesSpec | day-23/src/main.rs:72-79 | with at most two proposers, a cell survives the toggling exactly when one elf alone proposes it, and it keeps that elf |
| Diffusion.MovesExactly | day-23/src/main.rs:50-79 | a cell is a move target exactly when one elf alone proposes it, and it is moved to by that elf |
| Diffusion.OrderIrrelevant | day-23/src/main.rs:51-79 | the moves do not depend on the order the elves are visited in |
| Diffusion.InjectiveValues | day-23/src/main.rs:81-84 | a map whose values are all distinct has as many values as keys |
| Diffusion.Movers | day-23/src/main.rs:81-84 | the elves that move are elves |
| Diffusion.Targets | day-23/src/main.rs:81-84 | the cells moved to are not occupied before the move |
| Diffusion.ResolveIsStep | day-23/src/main.rs:72-84 | applying the resolved moves gives the order-free step: movers leave, targets fill |
| Diffusion.ResolveTargets | day-23/src/main.rs:72-84 | the resolved map's keys are exactly the cells proposed by a single elf |
| Diffusion.ResolveMovers | day-23/src/main.rs:72-84 | the resolved map's values are exactly the elves that move |
| Diffusion.StepKeepsCount | day-23/src/main.rs:81-84 | a round never changes the number of elves |
| Diffusion.TargetsSize | day-23/src/main.rs:81-84 | as many cells are filled as elves leave |
| Diffusion.Round | day-23/src/main.rs:48-85 | a round keeps the number of elves |
| Diffusion.Rounds | day-23/src/main.rs:48-89 | any number of rounds keeps the number of elves |
| Diffusion.StillKeepsElves | day-23/src/main.rs:88 | a round in which no elf moves leaves the elves where they are |
| Diffusion.Settle | day-23/src/main.rs:48-89 | the search from a round ends on the first round from there on in which no elf moves, holding the elves the rounds before it reach from the input; `None` only when no round within the fuel is still |
| Diffusion.SettleFromStart | day-23/src/main.rs:48-92 | from the first round: the first still round counted from 1 and the elves then, or `None` only when no round within the fuel is still |
| Diffusion.MotionSim | day-23/src/main.rs:43-92 | with a round count, the elves after that many rounds and the count (`None` for zero, where the source underflows); without one, the first round in which no elf moves, counted from 1, with the elves the rounds before it reach; the number of elves never changes |
| Diffusion.Row | day-23/src/main.rs:123-127 | the cells of one row between two columns, as many as the columns |
| Diffusion.Box | day-23/src/main.rs:122-128 | the cells of the rectangle, width times height of them |
| Diffusion.EmptyTiles | day-23/src/main.rs:116-130 | no elves give `None`, where the source panics on the empty minimum |
| Diffusion.Container | day-23/src/main.rs:117-120 | the smallest rectangle from the coordinate extremes contains every elf and has the rectangle's area |
| Diffusion.Within | day-23/src/main.rs:117-120 | elves inside given bounds lie in the rectangle of those bounds |
| Diffusion.EmptyTilesArea | day-23/src/main.rs:116-130 | the empty tiles are the container's area minus the number of elves |

## Left out

- The `utilities` crate: it only reads files into lines.
- Day 16: `search` is an empty stub (day-16/src/main.rs:49-51), so that crate does not build, and the rest is a parser and a debug print.
- Every `main` function's file reading and printing, including the print inside `run_program` (day-10/src/cpu.rs:94). The inputs are parameters of the modelled functions.
- Parsers built on regular expressions or on helpers that are not part of this model: the day-15 line regex (day-15/src/main.rs:57-63), `utilities::parse_pair` on day 14, the day-19 blueprint line splitting (day-19/src/main.rs:132-142), and the day-11 `parse_monkey` (day-11/src/main.rs:90-133). Only its operation parser and `parse_trailing_number` are modelled.
- The answer aggregation in `main` for day 12 (the minimum over every `a` start), day 19 (the quality sum and the product of the first three), and day 21 (the doubling and bisection search of day-21/src/main.rs:42-74). The search's termination depends on the input being monotone.
- Day 20 `main` below line 77: it redeclares `it`, `node`, `values` and `sum` and does not compile. Only `decrypt`, the linking and one read-out are modelled.
- Closures become datatypes: the day-11 operation (`Arc<dyn Fn>`) is `MonkeyBusiness.Operation`, and the day-14 exit condition is `Regolith.Exit`.
- `BinaryHeap` internals (day 12): the heap is a sequence, and `HillClimbing.PopMin` removes its least `(cost, x, y)` entry, which is the order the reversed max-heap pops in.
- Hash iteration order (day-23/src/main.rs:51 and 73, the day-7 `HashSet` of directory sizes, the day-3 badge set): modelled at the level of sets.
- Integer widths: `i32`, `i64`, `u64` and `usize` are unbounded `int`. Arithmetic overflow is a `None` result only in day 1 (`i32` sums), day 2 (the checked `i32` fold of the totals), day 8 (the scenic score), day 11 (`u64` worry and modulus) and day 21 (`i64` arithmetic). The other days do not model arithmetic overflow and compute on unbounded integers. Among them are the day-3 priority sums, the day-9 knot coordinates, the day-10 register and `i32` signal strengths, the day-12 path costs, the day-13 packet integers, the day-14 and day-15 coordinates and counts, the day-17 heights and coordinates, the day-18 coordinates and face counts, the day-19 resource counts, the day-20 values and the day-22 and day-23 coordinates.
- CycleSim.Simulate: it proves that the simulation always gives an answer and how the source's loop differs from the corrected one, but not that cycle skipping gives the same height as dropping every rock. That would rest on the unstated claim that pruning the surface keeps all future falls the same.
- Day 17 is modelled with ghost functions (`CycleSim.Simulate`, `RockFall.Fall`, `Surface.Topology`): the set minimum and maximum over a surface are defined by choice (`:|`), so they cannot be compiled.
- HillClimbing.FindShortestPath: it proves soundness (a finite answer is the length of a real walk), 0 when start and end coincide, and costs that only decrease, but not that the answer is the shortest walk. It requires a rectangular grid, because the source sizes `min_costs` from the first row.
- Mixer.Decrypt: it proves that every move keeps `next` and `prev` mutually inverse, but not that the list stays one single cycle through all nodes. The single cycle is proved for the initial linking only (`Mixer.WalkInOrder`). Lists of fewer than two nodes are excluded, because `% (n - 1)` divides by zero there.
- Droplet.CountExteriorFaces: it proves that every counted face is a distinct open face of the droplet, so the count is at most part one, but not that every face reachable from outside is counted.
- Geodes.GetMaxGeodes: it bounds the result between the geodes held after the build and the geodes one new geode robot per minute could add. It does not prove that the pruned search finds the true maximum.
- Rucksacks.PriorityScore: the line is cut in half at a character index, whereas `split_at` cuts at a byte offset, so a line with non-ASCII characters can split differently (or panic) in the source.
- Rucksacks.BadgePriority: it states the priority of some item common to the three rucksacks, not which one the hash-set iteration yields first when several are shared.
- MonkeyMath.CheckRootEquality and MonkeyMath.Eval: absence of cycles is a ranking witness passed as a parameter (`WellRanked`), because the source simply recurses. A cyclic input makes the source overflow its stack.
- Diffusion.MotionSim: without a round count the source loops until no elf moves. The model searches with a fuel bound, and `None` also covers running out of fuel. `motion_sim(Some(0))` underflows `r - 1` and is modelled as `None`.
- Regolith.Pour: a pour that would never end (a grain resting on the filled source with an exit that never holds) is `None`.
- FrameScanning.Insert: at capacity the source pops the oldest character and does not push the new one. `scan` never reaches this on a scanner of capacity one or more, and a zero-capacity scanner panics on its first insert (`None`).
- TreeHouse.CountVisibleTrees: both scan axes use the row count, as the source does. A grid with no row, or with a row shorter than the number of rows, is `None`; a wider grid scans only its first `|g|` columns.
- DistressSignal.DecoderKeyRank: it assumes no input packet compares equal to a divider packet. `DistressSignal.Sort` is an insertion sort, standing in for the stable `sort`, and is proved sorted and a permutation.
- Day 22 moves are ghost functions (`MonkeyMap.ApplyMove`, `MonkeyMap.ApplyInstructions`), because the line's first and last tile come from a set minimum and maximum.

## Findings

| source | as written | input that shows it | evidently intended | confidence | as-written member | corrected member |
|---|---|---|---|---|---|---|
| day-17/src/main.rs:88-99 | after skipping the repeats, one more rock is always taken from the cache (`i += 1`, `height += dh`), so the loop can end one rock past `cycles` | a repeat of rock 3 found at rock 5 with 7 rocks in all: the skip lands on rock 7 and the counter ends at 8, one rock too many, whose height is added | take the extra cached rock only while rocks remain | not executed | CycleSim.RunAsWrittenVsRun | CycleSim.Run |
| day-15/src/main.rs:107-113 | a run is counted only when the running maximum `m < range.1` | the sorted runs 0-5 and 3-6: the count is 6, but seven cells are covered | count with `m <= range.1` | not executed | BeaconZone.CountAsWrittenMissesCell | BeaconZone.CountCorrectedSpec |
| day-15/src/main.rs:126-131 | the cells before the first run are scanned with `for i in *left..=min`, which is empty whenever `left > min` | one run 1-5 on a row with `min` 0: cell 0 is not covered and holds no beacon, but it is never reported | scan `min..left` for the first cell without a beacon | not executed | BeaconZone.RowAsWrittenMissesEdge | BeaconZone.Row |

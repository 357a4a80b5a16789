# SortApp sort-animation engine, modelled in Dafny

SortApp is a Swing demo. The user enters a count between 1 and 1000, and the
program draws that many random integers, each shown on a button. Pressing
**Sort** plans a Lomuto quicksort of a hidden copy (`planningArray`). The plan
records every swap as an index pair in a deque. A Swing timer then replays the
pairs one per tick on the shown numbers and on the buttons. Each press flips
the direction, so the first sort is descending. Clicking a value of at most 30
regenerates that many numbers. **Reset** stops the animation and returns to
the entry screen.

This project models that engine in four modules:

- `Steps` (steps.dfy): the recorded step, the no-op-on-equal-indices swap, and
  `Replay`, which applies a log head first.
- `Generator` (generator.dfy): random generation with its single repair pass.
  The draws of `java.util.Random` are an input record. A loop method mirrors
  the program's array loop.
- `Planner` (planner.dfy): the recorded Lomuto partition and quicksort.
  - `Partition` and `QuickSort` are reference functions.
  - `ScanLoop`, `PartitionPlan` and `QuickSortPlan` are the loop-and-recursion
    form the program runs. They are proved to produce the same arrays and the
    same logs.
  - The properties: the log replays the input to the result; it stays inside
    the window; the window is permuted and ends sorted.
- `Controller` (controller.dfy): the state the Swing handlers share.
  - Enter, sort, tick, reset and number-click are pure transitions on an `App`
    record.
  - A dispatcher delivers an event only to a control the user can currently
    reach.
  - An invariant (`Valid`) is kept by every event. Among other things, it
    guarantees that whenever sort can be pressed, the shown numbers equal the
    planning array, which is why the next plan may start from that array.
  - A full playback sorts the board.

Three facts from the program's code shape the model:

- Reset only stops the timer and shows the entry card. It clears neither the
  numbers nor the deque. The stale deque is harmless, because the next sort
  replaces it and the entry screen can only go forward through a fresh
  generation.
- The direction is flipped only by a sort press. It is never reset, so it
  carries over from one entered count to the next.
- The pivot-placement pair is logged after every partition, even when it swaps
  a cell with itself. In-loop pairs are logged only when their two indices
  differ.

## Model

| member | source | states |
|---|---|---|
| Steps.Swap | src/main/java/io/invokegs/SortApp.java:326-331 | cells i and j trade values, every other cell keeps its value, and equal indices leave the array unchanged |
| Steps.SwapPermutes | src/main/java/io/invokegs/SortApp.java:326-331 | a swap only rearranges the array: its multiset of values is unchanged |
| Steps.SwapTwice | src/main/java/io/invokegs/SortApp.java:326-331 | applying the same swap twice restores the array |
| Steps.Replay | src/main/java/io/invokegs/SortApp.java:286-292 | applying a log of in-range steps head first keeps the array's length |
| Steps.ReplayAppend | src/main/java/io/invokegs/SortApp.java:272-278 | a log appended to the deque in two runs replays as the first run followed by the second |
| Steps.ReplayCons | src/main/java/io/invokegs/SortApp.java:286-292 | replaying a log whose head is st is swapping st first, then replaying the rest |
| Steps.ReplaySnoc | src/main/java/io/invokegs/SortApp.java:278-279 | appending one step to a log applies that swap after everything logged before it |
| Steps.ReplayWithin | src/main/java/io/invokegs/SortApp.java:268-279 | a log whose steps lie in [lo, hi] leaves cells outside the window untouched and keeps the window's multiset |
| Steps.ReplayPermutes | src/main/java/io/invokegs/SortApp.java:284-306 | replaying any in-range log permutes the array |
| Steps.ExtendLogs | src/main/java/io/invokegs/SortApp.java:255-262 | a log from a to b in a window, followed by a log from b to c in a sub-window, is a log from a to c in the window |
| Steps.ReplayPrefix | src/main/java/io/invokegs/SortApp.java:286-287 | the first n steps of a log replay as the head swap followed by steps 1 to n |
| Generator.Generate | src/main/java/io/invokegs/SortApp.java:178-191 | count values, all in [1, 1000], at least one at most 30 whatever the draws; only the chosen slot may differ from its draw plus one, and then it holds the special draw plus one; the repair runs exactly when no drawn value was at most 30 |
| Generator.GenerateRandomNumbers | src/main/java/io/invokegs/SortApp.java:178-191 | the array loop with its small-value flag and the repair pass yields the reference numbers, and the planning copy equals them |
| Planner.LeIsComparator | src/main/java/io/invokegs/SortApp.java:137-138 | the order chosen for the direction is total, reflexive and transitive, descending is ascending reversed, and a value that does not compare <= the pivot is strictly on the other side |
| Planner.LoopBody | src/main/java/io/invokegs/SortApp.java:269-275 | an iteration advances the boundary exactly when a[j] compares <= pivot, and logs at most one step, the pair (i+1, j) with i+1 < j |
| Planner.LoopBodyReplays | src/main/java/io/invokegs/SortApp.java:269-275 | replaying an iteration's log reproduces the iteration's array |
| Planner.Scan | src/main/java/io/invokegs/SortApp.java:268-276 | the partition loop's steps all lie in [low, high-1] with distinct indices, and its final boundary lies in [i, high) |
| Planner.ScanReplays | src/main/java/io/invokegs/SortApp.java:268-276 | replaying the loop's log on its input reproduces the loop's array |
| Planner.ScanSplits | src/main/java/io/invokegs/SortApp.java:268-276 | the loop keeps its invariant to the end: [low, i] compares <= pivot and (i, high) compares > pivot |
| Planner.Partition | src/main/java/io/invokegs/SortApp.java:264-282 | the partition keeps the length and returns an index in [low, high] |
| Planner.PlaceAfterLoop | src/main/java/io/invokegs/SortApp.java:278-281 | after the loop the pivot trades places with the cell just past the boundary, that index is returned, and exactly the pair (p, high) is appended to the loop's log, even when p == high |
| Planner.PartitionReplays | src/main/java/io/invokegs/SortApp.java:264-282 | the partition's log stays in [low, high] and replays its input to its result |
| Planner.PartitionLogged | src/main/java/io/invokegs/SortApp.java:271-279 | the log is in-loop pairs with distinct indices below high, followed by exactly one pivot pair (p, high), recorded even when p == high |
| Planner.PartitionSplits | src/main/java/io/invokegs/SortApp.java:264-282 | the old a[high] ends at p, [low, p) compares <= it, (p, high] compares > it, and cells outside [low, high] are unchanged |
| Planner.PivotSplits | src/main/java/io/invokegs/SortApp.java:278-281 | swapping the pivot to i+1 after the loop splits the window around it |
| Planner.QuickSort | src/main/java/io/invokegs/SortApp.java:255-262 | the recorded quicksort keeps the array's length; with its two halves `SortWindow` (partition, then both sides) and `SortSides` (left side before right side, logs in that order) it is the reference the lemmas below are about |
| Planner.QuickSortReplays | src/main/java/io/invokegs/SortApp.java:255-282 | the whole recorded log lies in [low, high] and replaying it on the input yields the sorted array |
| Planner.QuickSortConfined | src/main/java/io/invokegs/SortApp.java:255-282 | the sort permutes [low, high] and leaves every other cell alone |
| Planner.QuickSortSorted | src/main/java/io/invokegs/SortApp.java:255-282 | the sort leaves [low, high] non-decreasing, or non-increasing when descending |
| Planner.SortSidesSorted | src/main/java/io/invokegs/SortApp.java:257-260 | sorting both sides of a split window leaves the window sorted |
| Planner.CombineSorted | src/main/java/io/invokegs/SortApp.java:257-260 | a sorted left side of values <= pivot, the pivot, and a sorted right side of values > pivot form a sorted window |
| Planner.ResumesStep | src/main/java/io/invokegs/SortApp.java:268-276 | one loop iteration keeps "the rest of the loop finishes as the whole loop does" |
| Planner.ScanLoop | src/main/java/io/invokegs/SortApp.java:264-276 | the imperative loop yields the reference loop's array, boundary and log |
| Planner.PartitionPlan | src/main/java/io/invokegs/SortApp.java:264-282 | the imperative partition yields the reference partition's array, pivot index and log |
| Planner.QuickSortPlan | src/main/java/io/invokegs/SortApp.java:255-262 | the recursive sort yields the reference sort's array and its log in deque order |
| Controller.Init | src/main/java/io/invokegs/SortApp.java:50-59 | the program starts on the entry card with no numbers, no timer and the ascending flag, and satisfies the invariant |
| Controller.Regenerate | src/main/java/io/invokegs/SortApp.java:178-213 | fresh in-range numbers with a small value, the planning copy equal to them, and one button per slot that passes its own number; nothing else changes |
| Controller.ShowSortScreen | src/main/java/io/invokegs/SortApp.java:169-176 | the sort card shows count fresh numbers equal to the planning copy, with sort enabled; the timer, deque and direction are untouched |
| Controller.Enter | src/main/java/io/invokegs/SortApp.java:99-110 | an unparsable entry changes nothing; a parsed count is stored even when rejected; only a count in [1, 1000] opens the sort card with that many numbers |
| Controller.Sort | src/main/java/io/invokegs/SortApp.java:131-141 | with no numbers or a running timer nothing happens; otherwise the direction flips, sort is disabled, the timer starts, and only the planning array and the deque change |
| Controller.Tick | src/main/java/io/invokegs/SortApp.java:284-312 | a firing with steps left pops exactly the head step and changes only the numbers and buttons; on an empty deque it only stops the timer and re-enables sort |
| Controller.Reset | src/main/java/io/invokegs/SortApp.java:144-150 | reset stops the timer and shows the entry card, and changes nothing else |
| Controller.OnNumberClick | src/main/java/io/invokegs/SortApp.java:215-229 | while sorting a click changes nothing and asks to wait; a value above 30 changes nothing and asks for a smaller one; otherwise the count becomes the value and that many numbers are regenerated |
| Controller.Handle | src/main/java/io/invokegs/SortApp.java:99-150 | with no timer only a sort press can start one; a tick without a timer, and a sort press while sort cannot be pressed, change nothing |
| Controller.PressedShowsValue | src/main/java/io/invokegs/SortApp.java:205-206 | on the sort card the button at position k passes the number shown at k, which lies in [1, 1000] |
| Controller.SortStartsFromShown | src/main/java/io/invokegs/SortApp.java:131-138 | whenever sort can be pressed no playback is running and the shown numbers equal the planning array |
| Controller.EnterPreservesValid | src/main/java/io/invokegs/SortApp.java:99-110 | the enter handler keeps the invariant |
| Controller.SortPreservesValid | src/main/java/io/invokegs/SortApp.java:131-141 | after a sort press the deque replays the shown numbers into the new planning array, sorted in the new direction |
| Controller.ResetPreservesValid | src/main/java/io/invokegs/SortApp.java:144-150 | reset keeps the invariant although it leaves the numbers and the deque as they were |
| Controller.ClickPreservesValid | src/main/java/io/invokegs/SortApp.java:215-229 | every number click keeps the invariant |
| Controller.SwapKeepsLockstep | src/main/java/io/invokegs/SortApp.java:291-292 | swapping numbers and buttons at the same pair keeps the buttons a permutation of slots, each passing the number it shows |
| Controller.TickPreservesValid | src/main/java/io/invokegs/SortApp.java:284-312 | each firing stays in bounds and keeps the invariant: the rest of the deque still replays the shown numbers into the planning array |
| Controller.HandlePreservesValid | src/main/java/io/invokegs/SortApp.java:99-150 | every event the dispatcher delivers keeps the invariant |
| Controller.Ticks | src/main/java/io/invokegs/SortApp.java:284-297 | n firings consume exactly the first n steps of the deque and leave the planning array and direction alone |
| Controller.TicksReplay | src/main/java/io/invokegs/SortApp.java:284-297 | n firings apply the deque's first n steps to the shown numbers in recording order (first in, first out) |
| Controller.PlaybackSorts | src/main/java/io/invokegs/SortApp.java:131-306 | after a sort press and one firing per step, the shown numbers equal the plan, are sorted in the new direction and are a permutation of the numbers before; the next firing stops the timer and re-enables sort |
| Controller.Playback | src/main/java/io/invokegs/SortApp.java:131-306 | a complete playback returns to rest, sorted in the flipped direction, as a permutation of the board, ready for the next press to sort the other way |
| Controller.FirstSortDescends | src/main/java/io/invokegs/SortApp.java:54 | the first sort after entering a valid count sorts in descending order |

## Left out

- Swing layout, colours, the `CardLayout` calls and `GridBagConstraints` placement (`updateButtonsInPanel`) are left out. They hold no logic beyond which card is shown; that card is the `Screen` field.
- The dialog texts are left out. Each `JOptionPane` message is a `Notice` value.
- `updateNumbersOnScreen` is left out. It only writes `numbers[k]` into button k's label. The model keeps the value each button passes on a click instead (`captured`), which is what the click handler reads.
- Clearing the text field on the entry card is left out. It is display only.
- `highlightSwap` and its second timer are left out. They only recolour two buttons.
- The Swing `Timer`, its 300 ms delay and the event thread are left out. Each firing is one `Tick` transition. The dispatcher delivers a firing only while a timer exists, which models `timer.stop()`.
- `java.util.Random` becomes a `Draws` input. The input holds the `nextInt(1000)` results, the `nextInt(count)` slot and the `nextInt(30)` value, and `Fits` limits each to the range `nextInt` can return.
- `Integer.parseInt` and `trim()` become an `Option<int>` argument to `Enter`: `None` when parsing throws.
- Arrays become sequences. In-place mutation becomes returned values, and `Integer[]` becomes `seq<int>`. `Generator.GenerateRandomNumbers` keeps the program's array loop.
- Generic `T[]` with a `Comparator` is left out. The sort is over integers ordered naturally or in reverse (`Le`), which is the only way the program calls it.
- Java `int` overflow is not modelled. No computation here comes close: values are at most 1000, and indices are below the count, which is at most 1000.
- Construction and `main` (window setup, `setupIntroScreen`, `setupSortScreen`) are left out, apart from the initial field values in `Init`.
- Controller.Tick requires the head step to lie inside the arrays. The program would throw there instead, and `Valid` guarantees that it never does.
- Controller.OnNumberClick requires a value of at least 1 when it regenerates. The program would throw instead: at `new Integer[numberCount]` (SortApp.java line 180) for a negative value, and in `nextInt(0)` (line 187) for zero. `PressedShowsValue` shows that every clicked value is at least 1.
- Controller.Ticks covers only as many firings as there are steps left. The firing that finds the deque empty is a separate `Tick`, which `PlaybackSorts` and `Playback` take.
- Steps.Replay: its own contract states only that the length is kept. What a replay does is stated by `ReplayCons`, `ReplayAppend`, `ReplayWithin` and `ReplayPermutes`.
- Planner.Partition: its own contract bounds only the pivot index. The split, the log and the frame are `PartitionSplits`, `PartitionLogged` and `PartitionReplays`.
- Planner.QuickSort: its own contract, like those of its halves `SortWindow` and `SortSides`, states only that the length is kept. Sortedness, permutation and replay are `QuickSortSorted`, `QuickSortConfined` and `QuickSortReplays`.
- Controller.Handle: its own contract covers only the guard cases. That every delivered event keeps the invariant is `HandlePreservesValid`.

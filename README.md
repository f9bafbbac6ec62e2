# Algorithm visualiser: step traces and playback

The visualiser shows an algorithm as a sequence of animation steps. Each
step holds a full snapshot of the data: an array, an index-linked list or
an index-linked binary tree. It also carries the indices to highlight,
compare or mark as sorted, and, optionally, a current index. The steps are
produced ahead of time by generators. One copy of the generators lives in
the editor's parser (`src/utils/pythonParser.ts`). The other lives in the
built-in table of algorithms (`src/data/algorithms.ts`). The parser's
classifier `parsePythonCode` picks a generator from fixed fragments of the
user's code. The player (`src/App.tsx`) keeps a cursor into the steps and a
play flag. The controls (`src/components/AnimationControls.tsx`) step the
player, toggle playback and seek with a slider.

What the project contains:

- `step_model.dfy` (module `StepModel`): the step record. It holds the
  snapshot as a three-case datatype, `id` as `step-<k>` or `step-final`, and
  the description as a tag (`Note`). It also holds the predicates shared by
  all traces: ids numbered in order and every index in bounds.
- `bubble_sort.dfy`, `binary_search.dfy`, `linear_search.dfy`,
  `list_traversal.dfy`, `tree_traversal.dfy`, `generic_steps.dfy`: the
  generators. Each has a recursive trace function that serves as its
  reference definition. Each also has an imperative method that follows
  the source's loops, proved to return exactly that trace. The
  properties of the traces are lemmas about the reference functions.
  Binary and linear search differ between the two copies, so each is
  parameterised by a `Generator` (`FromParser` or `FromTable`). Bubble sort
  and the list walk are the same code in both copies, apart from the
  description texts.
- `text.dfy` (module `Text`): `String.prototype.includes` as a
  contiguous-occurrence predicate.
- `classifier.dfy` (module `PythonParser`): `parsePythonCode`, including
  its resolution order, its defaults and the ascending sort it applies
  before binary search.
- `algorithms_table.dfy` (module `Algorithms`): the five entries of
  `algorithms`, their fixed inputs and what their traces contain.
- `player.dfy` (module `Playback`): the player's transitions as functions
  on a state value, and the class `Player` whose methods perform them on
  its fields.
- `controls.dfy` (module `Controls`): the button guards, the toggle, the
  label, the slider range and the seek loop.

Behaviour of the source worth noting:

- **Binary-search halving steps in the parser.** They write the new window
  `[mid+1, right]` or `[left, mid-1]` as the `comparing` pair even when it
  is empty. For example, searching 3 in `[5]` gives `[0, -1]`, an index
  that is out of range (`BinarySearch.ParserPairOutOfRange`).
- **Tree-traversal highlights.** They are node indices, namely a prefix of
  the traversal order, not positions.
- **Empty linked list.** The first step of a list walk says
  `currentIndex = 0` even when the list is empty. That step is the only
  one whose index can be out of bounds (`ListTraversal.ListTraceInBounds`).
- **End of automatic playback.** The timer stops being armed once the
  cursor reaches the last step. The tick branch that would clear
  `isPlaying` therefore never runs, and the flag stays set
  (`Playback.PlaybackReachesEnd`).

## Model

| member | source | states |
|---|---|---|
| BubbleSort.BubbleSortSteps | src/utils/pythonParser.ts:137-180 | the nested-loop generator with its in-place swap on an array returns exactly the reference trace `BubbleTrace` |
| BubbleSort.BubbleTraceSorts | src/utils/pythonParser.ts:149-177 | the trace starts with the input and has at least two steps; its final snapshot is ascending and a permutation of the input; the final step is the sorted step and marks every index sorted |
| BubbleSort.BubbleTraceSortedAreFinal | src/utils/pythonParser.ts:156-166 | in every step, each index listed as sorted already holds the value it has at the end |
| BubbleSort.BubbleTraceArrays | src/utils/pythonParser.ts:145-175 | every snapshot is an array of the input's length |
| BubbleSort.BubbleTraceIds | src/utils/pythonParser.ts:143-173 | the steps carry ids `step-0`, `step-1`, ... in order |
| BubbleSort.BubbleTraceCompareCount | src/utils/pythonParser.ts:149-157 | there are exactly n(n-1)/2 comparing steps |
| BubbleSort.BubbleTraceWellPlaced | src/utils/pythonParser.ts:150-168 | every comparing step names a pair `[j, j+1]` with `j+1 < n`; a swapped step comes right after the compare of the same pair, exactly when the compared snapshot had `data[j] > data[j+1]` |
| BubbleSort.BubbleTraceSmall | src/utils/pythonParser.ts:149-177 | an empty or one-element input gives exactly the initial step and the final step, with no comparison |
| BubbleSort.BubbleTraceInBounds | src/utils/pythonParser.ts:142-177 | every index a step names is a valid index of its snapshot |
| BubbleSort.SortFromSorts | src/utils/pythonParser.ts:149-170 | the loops' array ends ascending from any state that meets the pass invariant |
| BubbleSort.SortFromPermutes | src/utils/pythonParser.ts:159-160 | the swaps keep the array's length and its multiset of values |
| BubbleSort.SortFromKeepsTail | src/utils/pythonParser.ts:149-150 | pass i and later leave the last i positions untouched |
| BinarySearch.ParserSearchSteps | src/utils/pythonParser.ts:182-244 | the parser's `while` loop over `left` and `right` returns exactly the reference trace `SearchTrace(FromParser, …)` |
| BinarySearch.TableSearchSteps | src/data/algorithms.ts:48-109 | the table's loop, which returns on a find, returns exactly `SearchTrace(FromTable, …)` |
| BinarySearch.SearchTraceOutcome | src/utils/pythonParser.ts:195-241 | the trace starts with the initial step and has at least two; the last step is found or not found; a found step highlights one index holding the target; on a sorted array the last step is found if and only if the target occurs |
| BinarySearch.SearchTraceEndsOnce | src/utils/pythonParser.ts:206-241 | no step before the last is a found or not-found step, so nothing follows a found step and at most one outcome is reported |
| BinarySearch.EventsFromEndsOnce | src/utils/pythonParser.ts:195-232 | every event of the loop but the last lets the search go on |
| BinarySearch.SearchTraceSteps | src/utils/pythonParser.ts:195-230 | every probe names `mid` inside a non-empty window within `[0, n)` and decides by comparing `arr[mid]` with the target; the probe's step is followed by a found, right or left step exactly as `arr[mid]` equals, is below or is above the target; in the parser the halving step's pair is exactly `[mid+1, right]` or `[left, mid-1]` and is the window the next probe shows (or is empty before not found); in the table the probe sets `currentIndex` to `mid` and the halving highlights lie on the side searched next |
| BinarySearch.TableHalvingHighlights | src/data/algorithms.ts:61-98 | the table's trace has the parser's steps note for note and probes the same indices, and each table halving step highlights exactly the indices of the window the parser names, i.e. `mid+1..right` when searching right and `left..mid-1` when searching left |
| BinarySearch.StepsAgree | src/data/algorithms.ts:64-96 | the two generators render each event with the same id, note and data; a halving step's highlights in the table are the interval of the parser's comparing pair |
| BinarySearch.SearchTraceProbes | src/utils/pythonParser.ts:195-196 | the number of probes is at most the bit length of n |
| BinarySearch.SearchTraceIds | src/utils/pythonParser.ts:189-236 | ids are `step-0`, `step-1`, ... in order |
| BinarySearch.ParserPairOutOfRange | src/utils/pythonParser.ts:221-229 | the parser's halving pair can be out of range: searching 3 in `[5]` gives `[0, -1]` |
| BinarySearch.EventsFromFoundIff | src/utils/pythonParser.ts:206-216 | on a sorted array, the search of a window ends with a find exactly when the target occurs in the window |
| BinarySearch.EventsFromLast | src/utils/pythonParser.ts:206-241 | the search ends with a find at an index holding the target, or with the window empty |
| BinarySearch.WindowNarrows | src/utils/pythonParser.ts:215-230 | on a sorted array, moving to the right or left half loses no occurrence of the target |
| BinarySearch.MidIsFloor | src/utils/pythonParser.ts:196 | the middle index is `Math.floor((left + right) / 2)` |
| LinearSearch.ParserLinearSteps | src/utils/pythonParser.ts:246-287 | the parser's loop, with its `some(… 'Found')` test, returns exactly the reference trace |
| LinearSearch.TableLinearSteps | src/data/algorithms.ts:111-150 | the table's loop, which returns at the first match, returns exactly the reference trace |
| LinearSearch.LinearTraceOutcome | src/utils/pythonParser.ts:257-284 | the final step is found exactly when the target occurs and not found exactly when it does not; a found step highlights the first index holding the target |
| LinearSearch.LinearTraceChecks | src/utils/pythonParser.ts:257-263 | the checking steps visit indices 0, 1, ... in order up to the first match, and none of the skipped indices holds the target; the table's checking steps also set `currentIndex` |
| LinearSearch.LinearTraceCheckCount | src/utils/pythonParser.ts:257-275 | there are k+1 checking steps when the first match is at k, and n when there is none |
| LinearSearch.FirstFrom | src/utils/pythonParser.ts:257-274 | the first index at or after i holding the target, or none, and no earlier index holds it |
| LinearSearch.FirstIsLeast | src/utils/pythonParser.ts:265-273 | an index holding the target before which no index does is the one the search reports |
| LinearSearch.MentionsFound | src/utils/pythonParser.ts:277 | the test holds exactly when some step is a found step |
| ListTraversal.ListSteps | src/utils/pythonParser.ts:341-371 | the walk over the list returns exactly the reference trace |
| ListTraversal.ListTraceShape | src/utils/pythonParser.ts:345-368 | n+2 steps, numbered in order; visit k is at node k-1 and highlights exactly `0..k-2`; the last step highlights every node; each step's highlights extend the previous ones; every snapshot is the list |
| ListTraversal.ListTraceInBounds | src/utils/pythonParser.ts:345-368 | every step after the first is in bounds; the first is in bounds exactly when the list is not empty |
| ListTraversal.Chain | src/utils/pythonParser.ts:65-68 | one node per value, holding that value in order |
| ListTraversal.ChainWalk | src/utils/pythonParser.ts:65-68 | following `next` from the head k times reaches node k, and falls off the end after n hops |
| TreeTraversal.BuildTree | src/utils/pythonParser.ts:322-339 | the loop builds exactly the heap-layout tree `HeapTree` |
| TreeTraversal.HeapTree | src/utils/pythonParser.ts:322-339 | one node per value, with every child index greater than its parent |
| TreeTraversal.HeapTreeShaped | src/utils/pythonParser.ts:328-334 | node i's children are `2i+1` and `2i+2` when those are below n, and absent otherwise |
| TreeTraversal.Traverse | src/utils/pythonParser.ts:379-387 | the recursive walk appends exactly the left-root-right order of the subtree at `index` to the output |
| TreeTraversal.HeapInOrderPermutes | src/utils/pythonParser.ts:379-387 | on a heap-layout tree the in-order walk visits every index below n exactly once |
| TreeTraversal.EmitSteps | src/utils/pythonParser.ts:389-411 | the step loop returns exactly the reference trace over the order |
| TreeTraversal.TreeSteps | src/utils/pythonParser.ts:373-414 | the generator returns exactly the reference trace over the in-order walk |
| TreeTraversal.TraversalTraceShape | src/utils/pythonParser.ts:396-411 | for an order without repeats: |order|+2 steps, numbered in order; visit k is at `order[k-1]` and highlights the first k-1 entries of the order; the last step highlights the whole order |
| TreeTraversal.TraversalTraceCovers | src/utils/pythonParser.ts:396-411 | every index a step names is in bounds, and visit p is at node `order[p]` |
| TreeTraversal.HeapTreeTrace | src/utils/pythonParser.ts:322-414 | on a built tree every node is visited by some step and every step is in bounds |
| TreeTraversal.IndexOf | src/utils/pythonParser.ts:402 | `indexOf`: the first position holding x |
| GenericSteps.GenericStepsOf | src/utils/pythonParser.ts:289-321 | the `forEach` generator returns exactly the reference trace |
| GenericSteps.GenericTraceShape | src/utils/pythonParser.ts:292-318 | an initial step, then one processing step per index highlighting that index only when the code contains `for` or `while`, then `step-final` marking every index sorted |
| GenericSteps.GenericTraceIdsDistinct | src/utils/pythonParser.ts:293-314 | no two steps share an id |
| Text.Contains | src/utils/pythonParser.ts:14-21 | `includes` holds exactly when the fragment occurs at some offset |
| PythonParser.ListFirst | src/utils/pythonParser.ts:64-77 | with a current algorithm, list code is shown as the chain over `values` (default `[10,20,30,40]`) and its walk, keeping the current entry's id |
| PythonParser.ListBranchChain | src/utils/pythonParser.ts:65-74 | the chain has one node per value, `next = i+1` and the last `next` null, and its walk has n+2 steps |
| PythonParser.TreeSecond | src/utils/pythonParser.ts:80-90 | with a current algorithm, tree code that is not list code is shown as the heap-layout tree over `tree_values` (default `[50,…,80]`) and its traversal |
| PythonParser.NoCurrentIsArray | src/utils/pythonParser.ts:55-64 | without a current algorithm, list and tree code is not recognised; the result is an array view with id `custom-code` |
| PythonParser.SearchExclusions | src/utils/pythonParser.ts:20-21 | tree code is never classified as binary search, and list code never as linear search |
| PythonParser.BubbleBeforeSearches | src/utils/pythonParser.ts:92-100 | bubble-sort code gets the bubble trace of its `arr` literal (default `[64,34,25,12,22,11,90]`) |
| PythonParser.BinaryBranchSorted | src/utils/pythonParser.ts:101-110 | binary search runs on an ascending copy of the array; the trace ends found exactly when the target (default 25) occurs, and not found exactly when it does not |
| PythonParser.LinearBranchOutcome | src/utils/pythonParser.ts:111-119 | linear search runs on the array as written and ends found exactly when the target occurs |
| PythonParser.Fallback | src/utils/pythonParser.ts:120-134 | otherwise, the current algorithm comes back unchanged when there is no `arr` literal or it is not an array view; else the generic trace of the array |
| PythonParser.ResultStartsFromData | src/utils/pythonParser.ts:63-134 | every rebuilt result has steps, and its first step shows its initial data |
| PythonParser.SortAscending | src/utils/pythonParser.ts:102 | `sort((a, b) => a - b)`: ascending and a permutation |
| PythonParser.Rebuild | src/utils/pythonParser.ts:70-76 | `{ ...base, code, initialData, steps, visualizerType }` keeps the base's labels and replaces the rest |
| Algorithms.TableBubbleResult | src/data/algorithms.ts:250-251 | the bubble entry ends with `[11,12,22,25,34,64,90]`, every index sorted |
| Algorithms.TableBinaryTrace | src/data/algorithms.ts:272-273 | searching 25 gives exactly initial, probe at 3 (`currentIndex` 3), found at 3 |
| Algorithms.TableLinearTrace | src/data/algorithms.ts:289-290 | searching 22 gives 5 checking steps at indices 0..4, then found at 4 |
| Algorithms.TableListTrace | src/data/algorithms.ts:152-189 | the fixed list gives 6 steps, the last highlighting all 4 nodes |
| Algorithms.TableTreeTrace | src/data/algorithms.ts:191-232 | the fixed tree gives 9 steps, visit k at the k-th node of the order |
| Algorithms.TableListSteps | src/data/algorithms.ts:152-189 | the table's list generator returns the walk over the chain 10, 20, 30, 40 |
| Algorithms.TableTreeSteps | src/data/algorithms.ts:191-232 | the table's steps over the hard-coded order equal the parser's steps over the computed in-order walk |
| Algorithms.FixedListIsChain | src/data/algorithms.ts:156-161 | the fixed list is the chain over 10, 20, 30, 40 |
| Algorithms.FixedTreeIsHeap | src/data/algorithms.ts:195-203 | the fixed tree is the heap-layout tree over 50, 30, 70, 20, 40, 60, 80 |
| Algorithms.FixedOrderIsInOrder | src/data/algorithms.ts:195-205 | `[3,1,4,0,5,2,6]` is the left-root-right traversal of the fixed tree |
| Algorithms.FixedOrderAscending | src/data/algorithms.ts:195-205 | the values visited along that order are strictly ascending |
| Algorithms.BubbleEntryWellFormed | src/data/algorithms.ts:235-253 | non-empty steps starting from the entry's data, a view that fits the data, ids in order, every index in bounds |
| Algorithms.BinaryEntryWellFormed | src/data/algorithms.ts:254-275 | as above, for the binary-search entry |
| Algorithms.LinearEntryWellFormed | src/data/algorithms.ts:276-292 | as above, for the linear-search entry |
| Algorithms.ListEntryWellFormed | src/data/algorithms.ts:293-314 | as above, for the linked-list entry |
| Algorithms.TreeEntryWellFormed | src/data/algorithms.ts:315-339 | as above, for the tree entry |
| Algorithms.TableWellFormed | src/data/algorithms.ts:234-339 | every entry of `algorithms` is well formed in the sense above |
| Playback.Player.constructor | src/App.tsx:13-16 | starts on the given algorithm at step 0, paused, at 1000 ms per step |
| Playback.Player.ChangeAlgorithm | src/App.tsx:38-42 | replaces the algorithm, rewinds to step 0 and stops playback; the shown step is the new algorithm's first |
| Playback.Player.Reset | src/App.tsx:44-47 | rewinds to step 0 and stops playback; the shown step is the first |
| Playback.Player.CurrentStep | src/App.tsx:61 | the shown step is the step at the cursor, one of the selected algorithm's steps |
| Playback.Player.StepForward | src/App.tsx:49-53 | advances the cursor unless it is on the last step |
| Playback.Player.StepBackward | src/App.tsx:55-59 | moves the cursor back unless it is on step 0 |
| Playback.Player.Play | src/App.tsx:117 | sets the play flag |
| Playback.Player.Pause | src/App.tsx:118 | clears the play flag |
| Playback.Player.SetSpeed | src/App.tsx:122 | sets the speed |
| Playback.Player.Tick | src/App.tsx:23-29 | the interval callback: at or past the last step it stops playback, else it advances |
| Playback.InvPreserved | src/App.tsx:14-61 | every handler keeps the cursor on a step, so `steps[currentStepIndex]` is defined |
| Playback.ForwardedSpec | src/App.tsx:49-53 | stepping forward is a no-op exactly on the last step, and adds one otherwise |
| Playback.BackwardedSpec | src/App.tsx:55-59 | stepping backward is a no-op exactly on step 0, and subtracts one otherwise |
| Playback.StepsInverse | src/App.tsx:49-59 | a step back undoes a step forward that moved, and the other way round |
| Playback.RewindsSpec | src/App.tsx:38-47 | reset and algorithm change give cursor 0 and paused from any state; reset keeps the algorithm, both keep the speed; both are idempotent |
| Playback.PlayPauseOnlyFlag | src/App.tsx:117-118 | play and pause change only the flag, and each undoes the other |
| Playback.TickSpec | src/App.tsx:21-29 | while armed, a tick is a step forward and playback continues; on the last step a tick stops playback and keeps the cursor |
| Playback.PlaybackReachesEnd | src/App.tsx:18-36 | from a playing state, ticking once per remaining step lands on the last step with the flag still set and the timer no longer armed |
| Playback.ForwardedTimesClamps | src/App.tsx:49-53 | n steps forward move the cursor by n, stopping at the last step |
| Playback.BackwardedTimesClamps | src/App.tsx:55-59 | n steps backward move the cursor by n, stopping at step 0 |
| Controls.GuardsMatchNoOps | src/components/AnimationControls.tsx:43-60 | the back button is disabled exactly when stepping back is a no-op, and the forward button exactly when stepping forward is |
| Controls.ToggleFlips | src/components/AnimationControls.tsx:51 | the toggle calls pause when playing and play otherwise, flipping only the flag |
| Controls.LabelOneBased | src/components/AnimationControls.tsx:71 | the label shows 1 on the first step and the total on the last, and never exceeds the total |
| Controls.SliderMatchesInv | src/components/AnimationControls.tsx:75-76 | the slider's range `0..totalSteps-1` is exactly the set of valid cursors |
| Controls.Seek | src/components/AnimationControls.tsx:78-89 | calls the forward handler `step - currentStep` times when the new position is larger, else the backward handler `currentStep - step` times, with the player ending in the state those calls produce |
| Controls.SeekLands | src/components/AnimationControls.tsx:78-89 | a seek leaves the cursor at the requested position when that is on the slider, else at the nearer end, and changes nothing else |
| Controls.InitialSpeedOffered | src/components/AnimationControls.tsx:102-105 | the player's initial speed is one of the selector's options |

## Left out

- Literal extraction: the regular expressions and `parseInt` semantics (`src/utils/pythonParser.ts:23-52`) are not modelled. The integer lists and the target they extract are inputs (`PythonParser.Literals`), and `None` stands for "no match".
- Dead code such as `PythonExecutionTrace`, `isQuickSort`, `lines` and the unused `steps` of `parsePythonCode`: none of it affects a result.
- Description and id strings: descriptions are tags (`Note`), and ids are `step-<k>` numbers or `step-final`. The linear-search "not found" test, which checks whether some description contains `Found`, becomes a test for a found tag (`LinearSearch.MentionsFound`).
- `console.log` calls: no effect on any result.
- The sample `code` strings of the table entries: presentation text, left empty.
- Timing: `setInterval`, the millisecond delay, and the effect's cleanup and re-arming. The timer callback is the method `Player.Tick`, and whether a timer runs is the predicate `Armed`.
- `Controls.Seek`: the handlers here read the live cursor. In React, `handleStepForward` and `handleStepBackward` compute from the value captured at render time, so repeated calls within one slider event move the cursor by one step only. React's batching is not modelled.
- `visualizerType` is optional in the source's type; the model always gives one. An entry without one would be kept unchanged by the parser's fallback whether or not the code has an `arr` literal.
- `TreeTraversal.Traverse` and `TreeTraversal.TreeSteps` require every child index to exceed its parent's (`Forward`). The recursive `traverse` of the source follows the stored links and stops on any tree whose links have no cycle; `Forward` is a sufficient condition for that, the one the `decreases` clause uses. The source's only call site (src/utils/pythonParser.ts:81-87) passes a tree built by `generateTreeFromArray`, which meets it. Trees whose links go from a higher index to a lower one without a cycle are not covered.
- The distinctness of the five table entries' `id` strings is not stated; every entry is well formed (`Algorithms.TableWellFormed`) and within each entry the step ids are distinct.
- Rendering components (`ArrayVisualizer`, `LinkedListVisualizer`, `TreeVisualizer`, `CodePanel`, `AlgorithmSelector`, `PythonEditor`) are pure presentation: bar heights, SVG coordinates, DOM and file download.
- `src/utils/geminiAnalyzer.ts` is a network client whose answers are untyped JSON; it is not part of this model.
- JavaScript numbers are taken as unbounded integers; array lengths and indices here are far below 2^53.

# Nesting engine of the TOOD to-do app, in Dafny

This project models the core of the to-do application's `Model` class (`model.py`). It states and proves the properties that class is built to keep.

## The class

Tasks and shelves live in two tables.

The nesting matrix relates each shelf to each task by a signed number:
- `k > 0`: the task is the shelf's k-th child;
- `-k`: the shelf is the task's k-th child;
- `0`: no relation.

The containment graph these signs describe must stay acyclic. Every container numbers its children densely from 1.

Every node keeps a `seen` count: its own roots plus the seen counts of its parents. A shelf's own roots are its occurrences in the rack; a task's are 1 when it is on the stage.

Filters hold the tasks whose data passes them. Sorters keep their children ordered by a key.

## The model

- **Model.** An immutable `Model` datatype (module `State`) holds:
  - the two id lists and the two data tables;
  - the matrix, as a sparse `map<(ShelfId, TaskId), int>` read as 0 when a cell is missing;
  - the seen counts, the rack and the stage.
- **Operations.** Every operation is a pure function, or a short method, returning the new model. The position functions return `Reply(model, ok, msg)`, which is the source's `(success, message)` pair.
- **Invariant.** `State.Inv` is the class's invariant: well-formed tables, dense positions in every row and column, an acyclic graph, and the local seen equation. Every mutating operation is proved to keep it.
- **One engine for both directions.** `Positions` works on a *line*: a shelf's row read as is, or a task's column read negated. So one engine serves `position_task_in_shelf` and its mirror `position_shelf_in_task`.
- **Graph searches.** `Graph` models `check_tree_for` as reachability with a fuel bound equal to the node count. It proves that bound exact on an acyclic graph.
- **Walks.** `Walks` models `run_on_tree` with `increment_seen`. It proves the walk adds the amount once for every path from the start.
- **Placeholders.** The filter test (`run_filter_on`: "not completed") and the sort key (`run_sorter_on`: the `value` column) are modelled as the source defines them today. The key (`Sorting.Key`) is an integer, or missing when the value is not a number, which pandas holds as NaN.

Modules, in dependency order:
- `Sums`, `Ids`, `Values`, `Positions`;
- `Graph`, `State`, `Walks`, `Sorting`;
- `Nesting`, `Outcomes`, `Views`, `Create`, `Rack`;
- `Sorters`, `Filters`, `Edits`.

## Model

| member | source | states |
|---|---|---|
| Ids.GenerateNextLabel | model.py:11-18 | the new label carries the prefix, its number exceeds every existing label's number, so it is not among them |
| Ids.MaxSuffix | model.py:17-18 | the result is an upper bound of the existing suffixes and is one of them |
| Ids.ParseDigitsRoundTrip | model.py:17-18 | reading back the decimal digits written for n gives n, so `int(str(n)) == n` |
| Values.KindOf | model.py:38-49 | a key has a column type exactly when the schema lists it, and the type is the listed one |
| Graph.ReachReverse | model.py:65-82 | searching up from a to b succeeds exactly when searching down from b to a succeeds |
| Graph.CheckUpMirrorsDown | model.py:183-184 | the second cycle test of an insertion (shelf up to task) answers the same as the first (task down to shelf) |
| Graph.ReachStable | model.py:65-82 | on an acyclic graph, any search depth at least the number of descendants gives the same answer, so the unbounded recursion is captured by a node-count bound |
| Graph.ReachWithin | model.py:65-82 | whatever is reachable at any depth is found by `check_tree_for` |
| Graph.AddEdgeAcyclicIff | model.py:183-185 | adding parent→child keeps the graph acyclic exactly when the child does not already reach the parent |
| Graph.ReachFromUnaffected | model.py:65-82 | changing only the edges out of p does not change searches from nodes that cannot reach p |
| Graph.ReachIntoUnaffected | model.py:65-82 | changing only the edges out of p does not change whether a node reaches p |
| Graph.ReachAvoiding | model.py:65-82 | changing only the edges into c does not change searches that never pass through c |
| Graph.ReachFromTarget | model.py:65-82 | on acyclic graphs, changing only the edges into c does not change what c reaches |
| State.Nodes | model.py:52-58 | the graph's nodes are exactly the tasks and shelves of the tables |
| State.EdgesOf | model.py:55-57 | an edge runs from a container to a child exactly when the matrix cell holds the corresponding sign |
| State.GraphFromSigns | model.py:55-57 | two matrices with the same signs have the same graph |
| State.EmptyInv | model.py:34-62 | a freshly constructed model satisfies the invariant |
| Walks.RunOnTreeEffect | model.py:84-104 | after the walk every node's seen count has grown by the amount times the number of downward paths from the start to it; no node is added or dropped |
| Walks.PathsStable | model.py:84-98 | on an acyclic graph the path count does not depend on the recursion depth once it covers the descendants |
| Walks.PathsBalanced | model.py:84-98 | the paths from a to x are the empty path when a = x, plus the paths to each parent of x extended by one edge |
| Walks.RootWalkDefect | model.py:240-272 | walking from a root with amount d while that root's own count grows by d keeps every node's seen equation |
| Walks.EdgeWalkDefect | model.py:186-188 | adding edge p→c and walking c's subtree with p's seen count keeps every node's seen equation |
| Walks.RemoveWalkDefect | model.py:168-170 | removing edge p→c and walking c's subtree with minus p's seen count keeps every node's seen equation, whichever graph the walk runs on |
| Positions.Tail | model.py:141 | the tail bounds every position in the line and is one of them, or 0 for an empty line |
| Positions.Shift | model.py:168-176 | exactly the line's positions inside the band move by delta; every other cell is untouched |
| Positions.Reposition | model.py:163-190 | the cell gets the new index; the other cells of the line shift as the branch for (prev, index) requires; cells off the line are untouched |
| Positions.InsertKeepsDense | model.py:178-190 | inserting an absent child at 1..n+1 into positions {1..n} gives {1..n+1} |
| Positions.RemoveKeepsDense | model.py:164-170 | removing a present child from positions {1..n} gives {1..n-1} |
| Positions.MoveKeepsDense | model.py:172-176 | moving a present child to 1..n keeps positions {1..n} |
| Positions.MoveInPlace | model.py:163-190 | moving a child to its own position changes no cell |
| Positions.OthersKeepSigns | model.py:163-190 | repositioning one cell changes no other cell's sign |
| Positions.OwnLineKeepsDense | model.py:156-190 | any index the corrected bound accepts leaves the container dense |
| Positions.MoveToTailGap | model.py:153-157 | moving a present child to tail+1 leaves position tail empty, so no dense numbering fits the line |
| Nesting.Commit | model.py:163-190 | an accepted change repositions the cell in its line and touches neither the tables, the rack nor the stage |
| Nesting.PositionTaskInShelf | model.py:139-192 | a refusal leaves the model unchanged; a success changes only the matrix and the seen counts, with an empty message |
| Nesting.PositionShelfInTask | model.py:197-237 | a refusal leaves the model unchanged; a success changes only the matrix and the seen counts, with an empty message |
| Nesting.CommitAcyclic | model.py:182-186 | an accepted change keeps the graph acyclic when an insertion's cycle check passed |
| Nesting.CommitSeen | model.py:169-188 | an accepted change keeps every node's seen count equal to its roots plus its parents' counts |
| Nesting.CommitDense | model.py:163-190 | an accepted change keeps every row and column densely numbered |
| Nesting.CommitInv | model.py:163-190 | an accepted change keeps the invariant |
| Nesting.TaskInShelfAccepted | model.py:139-192 | a successful call asked for an allowed index on a non-negative cell, passed the cycle test when inserting, and committed exactly that index |
| Nesting.PositionTaskInShelfInv | model.py:139-192 | every call, accepted or refused, keeps the invariant |
| Nesting.ShelfInTaskAccepted | model.py:197-237 | the mirror of TaskInShelfAccepted for a shelf in a task's column |
| Nesting.PositionShelfInTaskInv | model.py:197-237 | every call keeps the invariant |
| Outcomes.SearchIsCycleTest | model.py:183-185 | the two `check_tree_for` calls report a hit exactly when the new edge would close a cycle |
| Outcomes.TaskInShelfOkIff | model.py:143-192 | the call succeeds exactly when no refusal rule applies (sorter index, bound, opposite sign, filter, cycle); a success is the commit; the cycle message appears exactly when the edge would close a cycle |
| Outcomes.ShelfInTaskOkIff | model.py:198-237 | the same for a shelf in a task, which has no filter or sorter rules |
| Outcomes.CommitInsert | model.py:178-190 | inserting at i shifts the siblings at i or above up by one, puts the child at i, and numbers the container 1..n+1; other lines are unchanged |
| Outcomes.CommitRemove | model.py:164-170 | removing a child drops the siblings above it by one, clears its cell, and numbers the container 1..n-1 |
| Outcomes.CommitMove | model.py:172-176 | a move changes only siblings between the old and new position, each by one toward the vacated slot; the container stays 1..n; seen counts are untouched |
| Outcomes.TaskInShelfInPlace | model.py:163-190 | moving a task to its current position succeeds and changes nothing |
| Outcomes.ShelfInTaskInPlace | model.py:212-235 | moving a shelf to its current position succeeds and changes nothing |
| Outcomes.AsWrittenMoveToEnd | model.py:153-173 | the source's bound accepts tail+1 for a task already in the shelf while the corrected bound refuses it, and the row that move writes has the task past the end and a gap at the tail, so it is dense for no count |
| Outcomes.MoveToEndRefused | model.py:153-157 | in the corrected model, a present task moved by `idx=None` or to tail+1 is refused with the bound message and the model is unchanged |
| Outcomes.AsWrittenShelfMoveToEnd | model.py:201-218 | the same for a shelf already in a task: the source's bound accepts tail+1 of the task's column, the corrected bound refuses it, and the column that move writes is dense for no count |
| Outcomes.ShelfMoveToEndRefused | model.py:201-205 | in the corrected model, a shelf already in a task moved by `idx=None` or to tail+1 is refused with the bound message and the model is unchanged |
| Views.SubtasksInOrder | model.py:463-467 | the i-th subtask holds position i+1, there are tail many, and they are exactly the shelf's children |
| Views.SubshelvesInOrder | model.py:445-450 | the i-th subshelf holds position i+1 in the task's column (cell -(i+1)), and they are exactly the task's child shelves |
| Create.CreateEmptyTask | model.py:108-117 | the new id is fresh, prefixed "t", numbered above every existing task; the task is appended with the default row and seen 0; nothing else changes |
| Create.CreateEmptyShelf | model.py:121-134 | the same for shelves, with prefix "s" and the default shelf row |
| Create.CreateEmptyTaskInv | model.py:108-117 | creating a task keeps the invariant |
| Create.CreateEmptyShelfInv | model.py:121-134 | creating a shelf keeps the invariant |
| Create.CreatedTaskIsolated | model.py:116 | the new task has no edges in or out |
| Create.CreatedShelfIsolated | model.py:130-133 | the new shelf has no edges in or out |
| Rack.AddShelfToRack | model.py:240-249 | the rack grows by one with the shelf at the requested slot (Python `insert` clamping); the shelves before that slot stay where they were and the ones from it on move up by one in the same order; as a multiset it gains the shelf; the rest of the model except seen is unchanged |
| Rack.RemoveShelfFromRack | model.py:258-261 | the rack becomes the old rack without the slot at the index (negative indices count from the end), the other shelves in their order; nothing else but seen changes |
| Rack.MoveShelfInRack | model.py:252-255 | the rack keeps its length and multiset, the shelf lands at the clamped index, and the rack without that slot is the old rack without the shelf's first occurrence (the others keep their order); seen is unchanged |
| Rack.ReplaceTaskInStage | model.py:264-272 | the stage becomes the new task and only seen also changes |
| Rack.AddShelfToRackInv | model.py:240-249 | adding a shelf to the rack keeps the invariant |
| Rack.RemoveShelfFromRackInv | model.py:258-261 | removing a shelf from the rack keeps the invariant |
| Rack.MoveShelfInRackInv | model.py:252-255 | moving a shelf in the rack keeps the invariant |
| Rack.ReplaceTaskInStageInv | model.py:264-272 | changing the stage keeps the invariant |
| Rack.AddThenRemove | model.py:240-261 | removing the shelf just inserted at k gives back the model |
| Rack.StageRoundTrip | model.py:264-272 | putting the previous stage task back gives back the model |
| Rack.WalkUndone | model.py:84-104 | a walk with minus the amount undoes a walk with the amount |
| Sorting.SortTaskIntoShelf | model.py:427-434 | the index is 1 plus the number of children that `searchsorted` ranks above the task's key: for a numeric key, every child with a greater number or a missing key (NaN sorts after every number); for a missing key, none, so it goes first. It lies in 1..children+1 and goes before equal keys |
| Sorting.SearchSortedRight | model.py:434 | `searchsorted(side="right")`: everything before the result is at most the key, everything from it on is greater |
| Sorting.SortBy | model.py:423 | the result is sorted by the key and is a permutation of the input |
| Sorters.SortIndexInRange | model.py:413-415 | for a task already in the shelf, the sort index is a valid move target, 1..tail |
| Sorters.CheckParentSortersPlaces | model.py:407-415 | afterwards the task sits at its sort index in every sorter holding it; only those rows change; no sign and no seen count changes; the invariant holds |
| Sorters.CheckParentSortersIdempotent | model.py:407-415 | running the check twice is the same as once |
| Sorters.MoveIsReposition | model.py:415 | a sorter-override move of a present task to 1..tail succeeds, repositions it and walks nothing |
| Sorters.Ascending | model.py:421-424 | the order in which `resort_shelf` places the children (the reverse of the descending sort, NaN last) is a permutation of the shelf's children with missing keys first and numbers ascending |
| Sorters.ResortShelf | model.py:418-425 | the shelf keeps its child set (no sign changes), other rows and the seen counts are unchanged, the invariant holds, and keys do not increase with position, a missing key coming after every number |
| Filters.StepShape | model.py:395-400 | one filter step commits an absent passing task at the requested index (the end, or the sort index in a sorter) unless that would close a cycle, commits the removal of a present failing task, and otherwise changes nothing |
| Filters.FilterStepCell | model.py:395-400 | after one filter step a passing task is in the shelf (unless adding it would close a cycle) and a failing task is not; no negative cell and no other row is written |
| Filters.RefilterShelfEffect | model.py:391-400 | after refiltering, every task of the table shows that outcome in the shelf, other rows are unchanged and the invariant holds |
| Filters.RefilterShelfIdempotent | model.py:391-400 | refiltering twice is the same as once |
| Filters.CheckAgainstFiltersEffect | model.py:378-389 | after the check, the task shows that outcome in every filter, rows of non-filters are unchanged, every other task's cell keeps its sign, and the invariant holds |
| Filters.CheckAgainstFiltersIdempotent | model.py:378-389 | checking twice is the same as once |
| Filters.AsWrittenFiltersRaise | model.py:385-388 | with a filter present, the code as written raises instead of filtering, whereas the corrected check adds a passing task to the filter |
| Edits.MisfitIndex | model.py:283-287 | the key loop stops at the first argument whose key is unknown or whose non-None value has the wrong type, after only fitting ones |
| Edits.FirstMisfit | model.py:283-287 | there is a message exactly when some argument does not fit, and it is the message for the first misfit |
| Edits.Refusal | model.py:283-291 | an edit is refused exactly when some argument does not fit or `seen` is among the keys, always with a non-empty message |
| Edits.Write | model.py:294 | the written row has exactly the old fields plus the given keys |
| Edits.WriteFields | model.py:294 | each given key holds its value afterwards and every other field keeps its value |
| Edits.Coerce | model.py:279-280 | only a non-None `due` is converted to a timestamp; keys and all other values are kept |
| Edits.EditTask | model.py:276-302 | accepted exactly when every coerced argument fits and `seen` is not set; a refusal changes nothing and has a message; an acceptance writes the row and leaves the tables' ids and the shelf table alone |
| Edits.EditTaskEffect | model.py:276-302 | every edit keeps the invariant; after an accepted one the task shows the filter outcome in every filter, sits at its sort index in every sorter holding it, rows of shelves that are neither filters nor sorters are unchanged, and every cell keeps its sign except the task's own cells in filters |
| Edits.EditShelf | model.py:306-336 | accepted exactly when every argument fits and `seen` is not set; a refusal changes nothing; an acceptance writes the row, refilters a filter, resorts a sorter and changes no other row; a shelf that is no filter keeps every cell's sign and `seen`, and one that is neither keeps the whole nesting; the invariant holds |

## Left out

- `erase_task` and `erase_shelf` (model.py:339-370): they drop the row before cascading, remove one rack occurrence without a seen decrement and drop matrix rows and columns without adjusting counts, so they do not keep the seen equation; their detach step is `position_task_in_shelf`/`position_shelf_in_task` with index 0, which is modelled.
- `get_task_info`, `get_shelf_info`, `get_supershelves`, `get_supertasks` (model.py:437-477): plain table reads with no logic of their own.
- `write_to_file` and `read_from_file` (model.py:479-581): file I/O through pandas XML and regular expressions.
- Qt signals (`emit`): no observable effect on the model.
- `randint` in `generate_next_label`: the draw is the parameter `offset`, constrained to 1..25.
- `pd.Timestamp(...)` in `edit_task`: the conversion is the parameter `stamp`, a total function; a string it cannot parse raises in the source and is not modelled.
- Floats and timestamps are integers (`Values.VNum`, `Values.VTime`); the sort key is an integer or missing (NaN), and no other float value (infinities, fractions) is modelled.
- Python exceptions for unknown ids (`nestmat.at`, `shelfdf.at`), for `rack.pop` out of range and `rack.remove` of an absent shelf are preconditions of the corresponding members.
- Rack.ReplaceTaskInStage: requires a new task that is in the table; the source sets the stage and walks the old task before the walk of an unknown new task raises `KeyError` (model.py:266-270, 102), and that half-done state is not modelled.
- Nesting.PositionShelfInTask: uses the corrected bound, which refuses `idx=None` or tail+1 for a shelf already in the task; the source moves it there and leaves a gap in the column (model.py:201-205, 217-218, see Findings), so the model does not promise the source's result for that input.
- Nesting.PositionTaskInShelf: uses the same corrected bound for a task already in the shelf (model.py:153-157, 172-173, see Findings).
- Chained assignment: `position_shelf_in_task` shifts the column with `self.nestmat[task][mask] += 1` (model.py:213, 218, 221, 231). The model follows the reading in which that writes through to the matrix, as it does in pandas without copy-on-write; under copy-on-write (the default from pandas 3) the shift would be lost.
- Edits.EditTask: a shelf whose `is_filter` or `is_sorter` cell holds None (which `edit_shelf` accepts, model.py:311) counts as neither a filter nor a sorter. In the source the masks `shelfdf["is_filter"]` and `shelfdf["is_sorter"]` (model.py:380, 410) then hold a missing value, and `check_against_filters`/`check_parent_sorters` raise `ValueError` after the task's row has been written. The model accepts such an edit and does not promise that half-done state.
- Edits.EditShelf: writing None into `is_filter` or `is_sorter` is accepted and reads as False here, as the `if` at model.py:329-334 does; the column dtype change pandas may refuse at model.py:326 is not modelled.
- Pandas enlargement when `edit_task`/`edit_shelf` receive an unknown id: they require the id to be in the table.
- Sorters.ResortShelf: the order among children with equal keys is whatever the sort produced; pandas' default quicksort is not stable, so the contract states only that keys do not increase with position.
- The commented-out "Subshelves can't become filters" and "Can't add filter shelf to task" checks (model.py:225-226, 314-319) are inactive code and are not modelled.
- Graph searches and walks use a fuel bound equal to the number of nodes; `Graph.ReachStable` and `Walks.PathsStable` show this equals the unbounded recursion on an acyclic graph, which the invariant guarantees.

## Findings

| source | as written | input that shows it | evidently intended | confidence | as-written member | corrected member |
|---|---|---|---|---|---|---|
| model.py:153-157, 172-173 | the bound accepts `index == tail + 1` also for a task already in the shelf, and the move-right branch then leaves position `tail` empty | a shelf with tasks at 1 and 2; `position_task_in_shelf(t1, shelf)` (idx=None, not a sorter) gives positions 3 and 1 | a present child may move only to 1..tail | not executed | Outcomes.AsWrittenMoveToEnd | Outcomes.MoveToEndRefused |
| model.py:201-205, 217-218 | the same bound in `position_shelf_in_task` accepts `index == tail + 1` for a shelf already in the task, and the move-right branch then leaves position `tail` of the column empty | a task with shelves at -1 and -2; `position_shelf_in_task(s1, task)` (idx=None) gives cells -3 and -1 | a present child may move only to 1..tail | not executed | Outcomes.AsWrittenShelfMoveToEnd | Outcomes.ShelfMoveToEndRefused |
| model.py:385, 388 | `check_against_filters` reads `nestmat.at[id, task]` with the builtin `id`, not the loop variable `dfid`, which raises `KeyError` whenever a filter exists | any model with one filter shelf; `edit_task(t, label="x")` | read the filter's own cell, as `refilter_shelf` does | not executed | Filters.AsWrittenFiltersRaise | Filters.CheckAgainstFiltersEffect |

The rest of the model uses the corrected behaviour: `Nesting.IndexAllowed` refuses `tail + 1` for a present child, and `Filters.CheckAgainstFilters` reads each filter's own cell.

Two behaviours of the code worth knowing:
- `sort_task_into_shelf` (model.py:428-434) places a task before the children with an equal key: the index is 1 plus the count of children ranked above it (a greater number, or a missing key). A task whose key is missing therefore goes first, while `resort_shelf` (model.py:423) puts children with a missing key last.
- The tables have no user-defined columns; only the fixed schemas of model.py:38-49 are accepted.

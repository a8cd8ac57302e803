# 8-puzzle utilities, modelled in Dafny

This project models the utility layer of an 8-puzzle solver (`utils.py`):

- `PriorityQueue`, the A* frontier. It is a list of `(f(x), x)` entries kept in
  binary-heap order by Python's `heapq`. It pops the item with the least stored
  priority, or with order `"max"` the item with the largest `f(x)`, because
  `-f(x)` is stored. It also answers dict-like lookups by item.
- The three heuristics `manhattan`, `linear` and `max_heuristic`.
- The action complement `rev_map` and the row concatenation `itertools_flatten`.

Modules:

- `Results` (results.dfy): `Result` and `Outcome`. These stand for a Python
  exception being raised or not.
- `Heapq` (heapq.dfy): the heapq algorithms the queue relies on (`heappush`,
  `heappop`, `heapify` and the two sift loops). They are written as methods on
  a sequence of entries and proved to keep heap order and the multiset of
  entries.
- `PriorityQueues` (priority_queue.dfy): the `PriorityQueue` class. Its `heap`
  field is reassigned by each mutating method. The priority function `f` is a
  constant fixed by the constructor, and so is `eq`, the items' own `==`.
  The class invariant `Valid()` says the heap is in heap order and every
  stored priority is `f` of its item. `eq` may equate items that `f` tells
  apart, so one key can be stored several times with different priorities;
  lookup and deletion act on the first such entry in the list.
- `Puzzle` (puzzle.dfy): the state (nine values, row-major, 0 the blank), the
  goal `(1, 2, 3, 4, 5, 6, 7, 8, 0)` and `itertools_flatten`.
- `Paths` (paths.dfy): `rev_map`.
- `Heuristics` (heuristics.dfy): `manhattan` as a method with the source's
  loops, proved equal to the function `ManhattanDistance`; `linear`;
  `max_heuristic`.

`manhattan` is modelled as the code computes it, which is not the textbook
Manhattan distance. Its loop `for i in range(8)` sums the distances of the
values 0..7. So the blank (value 0, goal cell `[2, 2]`) is counted and tile 8
is left out. A textbook description of the heuristic sums over the eight
non-blank tiles; where the two differ the model follows the code. Two lemmas
show the consequences:

- `ManhattanCountsBlank`: the state one blank move from the goal gets 2.
- `MaxHeuristicCanExceedManhattan`: a state in which `linear` (2) exceeds
  `manhattan` (1), so `max_heuristic` takes `linear`'s value.

## Model

| member | source | states |
|---|---|---|
| Heapq.SiftUp | utils.py:26 | heappush's sift toward the root: from a heap broken only at `pos`, the result is in heap order from `lo` down, with the same length and the same multiset of entries |
| Heapq.SiftDown | utils.py:37 | heappop's sift from the root: if both subtrees of `lo` are heaps, the result is a heap from `lo` down, with the same multiset of entries |
| Heapq.HeapPush | utils.py:26 | heappush: a heap plus one entry is again a heap, one longer, holding exactly the old entries and the new one |
| Heapq.HeapPop | utils.py:37 | heappop: returns the root, whose priority is no greater than any entry's; the rest is a heap holding every other entry |
| Heapq.Heapify | utils.py:63 | heapify: any sequence becomes a heap with the same multiset of entries |
| Heapq.RootIsMinimum | utils.py:33-37 | the root of a heap has a least priority |
| Heapq.EveryIndexUnderRoot | utils.py:26 | every index lies in the root's subtree, so a push may sift all the way to index 0 |
| PriorityQueues.ParseOrder | utils.py:17-22 | "min" gives Min, "max" gives Max, anything else gives ValueError (both directions) |
| PriorityQueues.PriorityQueue.constructor | utils.py:15-20 | an empty, valid queue whose `f` is `g` for Min and `x => -g(x)` for Max, comparing items with the given equality |
| PriorityQueues.PriorityQueue.Create | utils.py:15-22 | construction fails with ValueError exactly when the order is neither "min" nor "max"; otherwise the queue is fresh, empty and valid with `f` set as above |
| PriorityQueues.PriorityQueue.Append | utils.py:24-26 | keeps the invariant and adds exactly the entry `(f(item), item)`; the length grows by one |
| PriorityQueues.PriorityQueue.Extend | utils.py:28-31 | keeps the invariant and adds exactly the entries of the items, in turn; the length grows by the number of items |
| PriorityQueues.PriorityQueue.Pop | utils.py:33-39 | an empty queue gives EmptyQueue and stays empty; otherwise returns the item of an entry with least priority and removes exactly that entry |
| PriorityQueues.PriorityQueue.Len | utils.py:41-43 | the number of stored entries; 0 exactly when the queue is empty |
| PriorityQueues.PriorityQueue.Contains | utils.py:45-47 | true exactly when some stored entry's item equals the key under the items' equality |
| PriorityQueues.PriorityQueue.Get | utils.py:49-55 | KeyError exactly when the key is absent; otherwise the priority stored with the first entry whose item equals the key, even when later equal items carry other priorities |
| PriorityQueues.PriorityQueue.Delete | utils.py:57-63 | KeyError with nothing changed exactly when the key is absent; otherwise removes exactly the first entry whose item equals the key, keeps the rest (other equal items included) and restores heap order |
| PriorityQueues.MaxOrderPopsLargest | utils.py:19-20 | with order "max", the entry at the front has the largest `g` of all stored items |
| PriorityQueues.Matches | utils.py:47 | the list `[item == key for _, item in heap]`, position by position, under the items' equality |
| PriorityQueues.Any | utils.py:47 | `any(...)`: true exactly when some element is true |
| PriorityQueues.IndexOfTrue | utils.py:60 | `.index(True)`: the first true position, or ValueError exactly when none is true |
| PriorityQueues.RemoveAt | utils.py:60 | `del heap[i]`: one shorter, with exactly the entry at `i` removed from the multiset |
| PriorityQueues.EntriesFor | utils.py:30-31 | the entries `extend` stores: `(f(x), x)` for each item, in order |
| Puzzle.GoalIsState | utils.py:139 | the goal is a permutation of 0..8 |
| Puzzle.Flatten | utils.py:94-95 | every element of the result comes from some row, and every element of every row is in the result |
| Puzzle.FlattenAppend | utils.py:94-95 | flattening distributes over concatenating lists of rows |
| Puzzle.FlattenRowMajor | utils.py:94-95 | rows of three flatten row-major: row i, column j lands at position 3i + j |
| Paths.ComplementIsInvolution | utils.py:99 | each action's complement is an action other than itself and maps back to it |
| Paths.RevMap | utils.py:98-100 | succeeds exactly on paths of actions, with the same length and each action complemented; otherwise KeyError names the first non-action |
| Paths.RevMapInvolution | utils.py:98-100 | mapping a path of actions twice gives it back |
| Heuristics.IndexIsRowMajor | utils.py:122 | the `index` table puts position p at row p / 3, column p % 3 |
| Heuristics.GoalPosition | utils.py:139 | the position of each value in the goal |
| Heuristics.GoalTableMatchesGoal | utils.py:110-120 | the `index_goal` table gives each value the cell of its goal position |
| Heuristics.CellMap | utils.py:121-126 | `index_state` holds exactly the values of the state, each at a grid cell |
| Heuristics.CellMapStep | utils.py:125-126 | one pass of the first loop adds the cell of one more position |
| Heuristics.CellMapAt | utils.py:125-126 | a value that does not occur later in the state keeps the cell of its own position |
| Heuristics.TileDistance | utils.py:131-132 | the two-coordinate distance is 0 exactly when the cells coincide |
| Heuristics.SumDistances | utils.py:130-132 | the double loop's sum over values 0..n-1 is 0 exactly when each of them is in its goal cell |
| Heuristics.SumDistancesBound | utils.py:130-132 | each value adds at most 4 to the sum |
| Heuristics.IndexState | utils.py:121-126 | the first loop builds exactly `CellMap(state)`: the cell of each value's last position |
| Heuristics.Manhattan | utils.py:108-134 | the loops compute the sum of distances of the values 0..7 from their goal cells, which lies in [0, 32] |
| Heuristics.ManhattanDistance | utils.py:108-134 | the manhattan value, the summed distances of values 0..7, lies in [0, 32] |
| Heuristics.ManhattanZeroIffGoal | utils.py:108-134 | on a permutation of 0..8, manhattan is 0 exactly at the goal |
| Heuristics.GoalCellsPlaced | utils.py:110-126 | in the goal, every value 0..7 is in its goal cell |
| Heuristics.PlacedAtGoalCell | utils.py:110-126 | a value at its goal position is in its goal cell |
| Heuristics.PlacedCellsAtGoal | utils.py:110-126 | values in their goal cells stand at their goal positions |
| Heuristics.PlacedBelowEightIsGoal | utils.py:139 | a permutation with 1..7 and 0 in place is the goal, since 8 has only one position left |
| Heuristics.ManhattanCountsBlank | utils.py:130-132 | BLANK_UP `(1,2,3,4,5,0,7,8,6)`, one move from the goal, has manhattan 2: the blank is counted |
| Heuristics.Misplaced | utils.py:140 | the count of the first n positions that differ from the goal: at most n, and 0 exactly when none differs |
| Heuristics.Linear | utils.py:137-140 | at most 8, and 0 exactly when positions 0..7 match the goal |
| Heuristics.LinearZeroIffGoal | utils.py:137-140 | on a permutation of 0..8, linear is 0 exactly at the goal |
| Heuristics.MaxHeuristic | utils.py:143-148 | at least linear and at least manhattan, and equal to one of them: their maximum |
| Heuristics.MaxHeuristicRange | utils.py:143-148 | lies in [0, 32] and, on a permutation of 0..8, is 0 exactly at the goal |
| Heuristics.MaxHeuristicCanExceedManhattan | utils.py:130 | SWAPPED `(1,2,3,4,5,6,8,7,0)` has linear 2 and manhattan 1, so max_heuristic is 2: tile 8 is never measured by manhattan |

## Left out

- Ties between equal priorities: Python compares `(priority, item)` tuples, so an equal priority is broken by comparing the items (and raises TypeError for items that do not compare). The model compares priorities only. Every result stated above holds whichever item wins a tie, but the exact position of equal-priority entries in the list is not modelled.
- Heapq.SiftUp, Heapq.SiftDown: heapq moves a hole and writes the moving entry once, while the model swaps entries. The resulting list is the same.
- Item equality: `item == key` is the items' own `__eq__`, modelled as the relation `eq` given at construction. It need not agree with `f`, so two equal items may be stored with different priorities. Nothing is assumed of `eq` (not even that it is an equivalence), and the default `f = lambda x: x` is not modelled: the caller supplies `f`.
- In-place mutation of the list: the heap is a `seq` field that each method reassigns. Aliasing of the underlying Python list is not modelled.
- PriorityQueues.PriorityQueue.Pop: an empty queue raises a bare `Exception`. It is modelled as the error value `EmptyQueue`.
- The messages of the raised exceptions (`str(key) + " is not in the priority queue"`) are not modelled; only the error kind is.
- `f` is any total function to integers. Python allows any comparable priority; floats and other orders are not modelled.
- The heuristics take a search node and read `node.state`. The model takes the state. A state of more than nine positions (IndexError in `manhattan`) or fewer than eight (IndexError in `linear`) is excluded by a precondition. So is a state missing one of 0..7, which raises KeyError in `manhattan`.
- Admissibility of `manhattan` is not claimed. The coded sum counts the blank, so it can exceed the true number of moves (see Heuristics.ManhattanCountsBlank).
- Actions are modelled as the characters `U`, `D`, `L`, `R`. `rev_map` on any other element raises KeyError, modelled as an error value.
- `itertools_flatten` returns a tuple; the model returns a sequence.
- `is_in` (utils.py:66-68) compares objects by identity, which a value model has no counterpart for.
- `memoize` (utils.py:71-91): it wraps `functools.lru_cache`, whose behaviour is not visible, or uses dynamic attributes. A cache changes no result.
- `print_puzzle` and `parse_text_file` are console output and file input.
- The search strategies and the puzzle problem come from a `search` module. `search.py` is not part of this model.
- main.py's solve/run supervisor (a separate process, a time limit, printing) and the performance scripts are process control, wall-clock timing and I/O.

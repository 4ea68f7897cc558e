# Data-structure widgets, modelled in Dafny

Three small interactive widgets that teach elementary data structures, with the logic behind
each one modelled and proved correct. The JSX, timers and random draws are stripped away.

- **Hash-table collision visualizer** (`hash_table.dfy`, module `HashTable`). This is a table
  of 8 buckets. A key's bucket is the sum of its character codes modulo 8.
  - Each bucket holds a chain of key/value entries.
  - Inserting a key that is already in its chain overwrites the value in place.
  - Inserting a new key appends it to its chain.
  - An insert into an occupied bucket raises a collision notice.
  - Deleting filters a key out of its chain, and a bucket whose chain becomes empty is dropped.
  - The component is the class `HashTableVisualizer`. Its bucket map is a field, and the two
    handlers reassign it.
- **Array-indexing game** (`sushi_game.dfy`, module `SushiGame`). The player places a target
  item at a target index of a six-slot array.
  - The state has a cursor, a score, three lives and a streak.
  - From the third success in a row on, each success earns 10 bonus points per full three
    of the streak.
  - A 30-second countdown runs per target.
  - The class `Game` keeps the component's fields and the slot `array`. Each handler is a
    method whose new state is given by a pure transition on the whole `Status` value, and the
    game's rules are proved about those transitions.
- **Galactic maze** (`galactic_maze.dfy`, module `GalacticMaze`). This is a fixed 4×4 grid of
  cell kinds.
  - A walker steps greedily to the heaviest passable neighbour.
  - The grid is drawn as a graph with edges to each cell's right and lower open neighbours.
  - After a step, the edge to the best candidate turns green and the edge to the worst turns red.
  - The loops are methods: `FindValidMoves` and `CreateEdges` are proved against recursive
    specification functions, `CalculateWeights` against its quantified postconditions. The selection and the restyling are pure functions.
  - The component is the class `Navigator`. A move is split into the request (`MoveThorne`)
    and the delayed completion (`CompleteMove`).

Random draws are parameters:

- the game's target slot and item (`idx`, `kind`);
- the maze's weights, as a `draw: Pos -> real` function.

`wrappers.dfy` holds the `Option` type that the three modules share.

An update of an existing key also raises the collision notice, because
`src/components/matrix.js:39` decides the collision from the bucket's occupancy before it looks
for the key; see `HashTableVisualizer.Add` and the third insert in `CatThenAct`.

## Model

| member | source | states |
|---|---|---|
| HashTable.Bucket | src/components/matrix.js:24 | The bucket index always lies in [0, 8). |
| HashTable.Hash | src/components/matrix.js:14-31 | The accumulating loop returns the character-code sum of the key modulo 8, which is below 8. |
| HashTable.CharSumConcat | src/components/matrix.js:18-22 | The summing loop is additive: the sum over a concatenation is the sum of the two parts' sums. |
| HashTable.CharSumPermutation | src/components/matrix.js:18-24 | Two keys with the same multiset of characters have the same sum and so the same bucket. |
| HashTable.BucketOfCatAndAct | src/components/matrix.js:18-24 | "cat" sums to 312 and lands in bucket 0, as does its anagram "act". |
| HashTable.FindIndex | src/components/matrix.js:45-47 | Returns -1 exactly when no entry has the key; otherwise the position of the first entry with the key. |
| HashTable.Upsert | src/components/matrix.js:44-54 | Insert-or-update never leaves the chain empty and grows it by at most one entry. |
| HashTable.UpsertAbsent | src/components/matrix.js:41-54 | Inserting a key absent from the chain appends exactly one entry at its end. |
| HashTable.UpsertPresent | src/components/matrix.js:44-50 | Inserting a key present at position k replaces only that entry's value; length and order are unchanged. |
| HashTable.UpsertKeepsUnique | src/components/matrix.js:41-54 | Insert-or-update keeps keys unique in the chain, leaves it non-empty and adds no entry other than the new one. |
| HashTable.UpsertEntryPresent | src/components/matrix.js:41-54 | After insert-or-update the chain holds the new key/value entry. |
| HashTable.Without | src/components/matrix.js:86 | The filter never lengthens the chain. |
| HashTable.WithoutMembers | src/components/matrix.js:86 | The filter keeps exactly the entries whose key differs from the deleted key. |
| HashTable.WithoutAbsent | src/components/matrix.js:86 | Deleting a key the chain does not hold leaves the chain as it was. |
| HashTable.WithoutUnique | src/components/matrix.js:86 | In a chain with unique keys, deleting the key at position k removes exactly that entry and keeps the survivors in order. |
| HashTable.WithoutKeepsUnique | src/components/matrix.js:86 | Deleting keeps the keys of a chain unique. |
| HashTable.InsertItem | src/components/matrix.js:33-56 | An empty key or value leaves the map unchanged. Otherwise the key's bucket exists and holds the new entry, and every other bucket is unchanged. |
| HashTable.DeleteItem | src/components/matrix.js:84-88 | The bucket's chain becomes the filtered chain, and the bucket is present exactly when that chain is non-empty. Every other bucket is unchanged. |
| HashTable.InsertPreservesWellFormed | src/components/matrix.js:39-56 | Insert preserves the invariant: no empty chains, unique keys per chain, non-empty keys and values, and every key in the bucket it hashes to. |
| HashTable.DeletePreservesWellFormed | src/components/matrix.js:84-88 | Delete preserves the same invariant. |
| HashTable.HashTableVisualizer.constructor | src/components/matrix.js:5-11 | The widget starts with an empty bucket map and no operation, notice or highlight, and the invariant holds. |
| HashTable.HashTableVisualizer.Add | src/components/matrix.js:33-82 | An empty key or value changes nothing. Otherwise: the map becomes the insert-or-update result, the bucket is highlighted, the collision notice is raised exactly when the bucket was occupied before (updates included), and an insert operation is recorded otherwise. The invariant is kept. |
| HashTable.HashTableVisualizer.Delete | src/components/matrix.js:84-91 | A bucket that is not in the map fails with nothing changed. Otherwise the map becomes the delete result, the delete is recorded and the collision notice is cleared. The invariant is kept. |
| HashTable.CatThenAct | src/components/matrix.js:33-74 | Inserting "cat" raises no notice. Then "act" appends after "cat" in bucket 0 and raises the notice for bucket 0. Re-inserting "cat" overwrites in place and raises the notice again. |
| SushiGame.Initial | src/components/sushigame.js:13-23 | The mount state is consistent, not playing, not over, with all six slots empty. |
| SushiGame.Retargeted | src/components/sushigame.js:51-58 | Sets the drawn target slot and item and restarts the countdown at 30; every other field is unchanged. |
| SushiGame.Award | src/components/sushigame.js:94-97 | A success earns at least the item's points; with a new streak below 3 exactly those points, from 3 to 5 plus 10, from 6 to 8 plus 20. |
| SushiGame.Started | src/components/sushigame.js:39-49 | Playing and not over; score 0, lives 3, streak 0, countdown 30, all slots empty, the drawn target, the cursor unchanged; the state stays consistent. |
| SushiGame.LifeLost | src/components/sushigame.js:60-72 | The streak resets. With more than one life, one life is taken and a new target is drawn. With the last life, the game ends with lives left at 1 and the target and countdown unchanged. Slots, score and cursor are untouched. |
| SushiGame.MovedLeft | src/components/sushigame.js:74-78 | The cursor moves one slot left and stops at 0; nothing else changes. |
| SushiGame.MovedRight | src/components/sushigame.js:80-84 | The cursor moves one slot right and stops at 5; nothing else changes. |
| SushiGame.Placed | src/components/sushigame.js:86-108 | Outside a running game, or on an occupied slot, nothing changes. A correct placement writes the target item into the cursor slot only, extends the streak, adds the item's points plus 10 per full three of the streak, keeps the lives and draws a new target. A wrong placement is a lost life. The score never drops. |
| SushiGame.Removed | src/components/sushigame.js:110-118 | In a running game the cursor slot is cleared; no other slot, the score, the lives and the streak never change. |
| SushiGame.Ticked | src/components/sushigame.js:26-37 | While playing, the countdown drops by one; reaching 0 loses a life. Outside a running game nothing changes. Score, slots and cursor are untouched. |
| SushiGame.EffectRerunAfterGameOverIsIdle | src/components/sushigame.js:26-37 | When the timer effect calls loseLife again after the game has ended, nothing changes. |
| SushiGame.GameOverIsTerminal | src/components/sushigame.js:86-118 | A finished game ignores placements, removals and ticks. |
| SushiGame.ThirdHitEarnsBonus | src/components/sushigame.js:94-97 | The third correct placement in a row earns the item's points plus 10; the first and second earn the points alone. |
| SushiGame.ThreeMissesEndTheGame | src/components/sushigame.js:60-106 | From three lives, three wrong placements end the game with one life left and score and slots unchanged. |
| SushiGame.Game.constructor | src/components/sushigame.js:13-23 | The component's fields start in the mount state. |
| SushiGame.Game.GenerateNewTarget | src/components/sushigame.js:51-58 | The new state is the retargeted state, and only the three target fields change. |
| SushiGame.Game.StartGame | src/components/sushigame.js:39-49 | The new state is the started state, with a fresh empty array. |
| SushiGame.Game.LoseLife | src/components/sushigame.js:60-72 | The new state is the lost-life state. |
| SushiGame.Game.MoveLeft | src/components/sushigame.js:74-78 | The new state is the cursor moved left. |
| SushiGame.Game.MoveRight | src/components/sushigame.js:80-84 | The new state is the cursor moved right. |
| SushiGame.Game.PlaceSushi | src/components/sushigame.js:86-108 | The new state is the placed state, writing at most one slot of the same array. |
| SushiGame.Game.RemoveSushi | src/components/sushigame.js:110-118 | The new state is the removed state, changing only the array. |
| SushiGame.Game.Tick | src/components/sushigame.js:26-37 | The new state is the ticked state. |
| SushiGame.StreakRun | src/components/sushigame.js:86-108 | Three correct placements of the 10-point item score 10, 10 and 20, for 40 with a streak of 3 and all lives. |
| GalacticMaze.MazeIsGrid | src/components/thornegalatic.js:77-82 | The maze is 4 rows of 4 cells. |
| GalacticMaze.PassableIsNotAsteroid | src/components/thornegalatic.js:170-175 | A cell is passable exactly when it is inside the grid and not an asteroid field. |
| GalacticMaze.StartCell | src/components/thornegalatic.js:77-85 | The start position (x 0, y 1) is the maze's start cell and is passable. |
| GalacticMaze.MovesAlong | src/components/thornegalatic.js:167-179 | The directions tried so far yield at most as many moves as directions. |
| GalacticMaze.ValidMoves | src/components/thornegalatic.js:158-182 | There are at most four valid moves. |
| GalacticMaze.MovesAlongSpec | src/components/thornegalatic.js:167-179 | The moves along the first n directions are at most n, each passable and adjacent, strictly in direction order, and include every passable neighbour in those directions. |
| GalacticMaze.PassableAt | src/components/thornegalatic.js:170-175 | The loop's bounds-and-kind test on coordinates is exactly passability. |
| GalacticMaze.FindValidMoves | src/components/thornegalatic.js:158-182 | Returns the valid moves: at most 4, each passable and adjacent, every passable neighbour included, in the order y+1, x+1, y-1, x-1. |
| GalacticMaze.MovesFromStart | src/components/thornegalatic.js:158-182 | From the start cell the moves are (1, 1) and then (0, 0). |
| GalacticMaze.WalledInStarGate | src/components/thornegalatic.js:77-179 | The lower star gate is walled in by asteroids and has no valid move. |
| GalacticMaze.CalculateWeights | src/components/thornegalatic.js:90-100 | Weights are assigned to exactly the non-asteroid cells, each the drawn value for that cell. |
| GalacticMaze.WeightOf | src/components/thornegalatic.js:189 | A cell without a weight reads as weight 0. |
| GalacticMaze.InsertByWeight | src/components/thornegalatic.js:186-191 | Insertion adds one element and puts the new move first exactly when it is at least as heavy as the current head. |
| GalacticMaze.InsertByWeightPermutes | src/components/thornegalatic.js:186-191 | Insertion adds the move and loses nothing. |
| GalacticMaze.InsertByWeightSorted | src/components/thornegalatic.js:186-191 | Inserting into a sequence sorted by descending weight keeps it sorted. |
| GalacticMaze.SortByWeight | src/components/thornegalatic.js:186-191 | Sorting keeps the number of moves. |
| GalacticMaze.SortByWeightPermutes | src/components/thornegalatic.js:186-191 | The sorted moves are a permutation of the moves. |
| GalacticMaze.SortByWeightSorted | src/components/thornegalatic.js:186-191 | The sorted moves are in non-increasing weight order. |
| GalacticMaze.BestIndex | src/components/thornegalatic.js:184-195 | The reference choice: the first move of greatest weight, with missing weights read as 0. |
| GalacticMaze.WorstIndex | src/components/thornegalatic.js:206-208 | The reference worst move: the last move of least weight. |
| GalacticMaze.SortHeadIsBest | src/components/thornegalatic.js:186-195 | The head of the stable descending sort is the earliest move of greatest weight. |
| GalacticMaze.SortLastIsWorst | src/components/thornegalatic.js:186-208 | The last of the sorted moves is the latest move of least weight. |
| GalacticMaze.NextMoveIsBest | src/components/thornegalatic.js:184-198 | With a valid move, the next cell is passable, adjacent, at least as heavy as every valid move, and the earliest such move in enumeration order. |
| GalacticMaze.NodeIdInjective | src/components/thornegalatic.js:214-224 | Two cells share a node id exactly when they are the same cell, so the restyling's id comparisons compare cells. |
| GalacticMaze.EdgeIdInjective | src/components/thornegalatic.js:136-145 | Two edges share an id exactly when they have the same source and target. |
| GalacticMaze.IdsAreRowFirst | src/components/thornegalatic.js:136-147 | Node and edge ids write the row before the column: the cell at x 2, y 1 is node "1-2", and the start cell's right edge is "e1-0-1-1". |
| GalacticMaze.CellEdgesShape | src/components/thornegalatic.js:133-151 | A cell's edges go to an open right or lower neighbour, with the derived id and the plain style. |
| GalacticMaze.EdgesUpToShape | src/components/thornegalatic.js:132-153 | Every edge built so far is well shaped. |
| GalacticMaze.EdgesUpToRanked | src/components/thornegalatic.js:132-153 | Edges are built in row-major order of their source cell, right before down. |
| GalacticMaze.EdgesUpToCount | src/components/thornegalatic.js:132-153 | Each cell visited adds at most two edges, one right and one down. |
| GalacticMaze.CellEdgesComplete | src/components/thornegalatic.js:134-143 | A cell gets the edge to each open right or lower neighbour. |
| GalacticMaze.EdgesUpToHasRight | src/components/thornegalatic.js:134-142 | Every cell visited so far has its edge to an open right neighbour. |
| GalacticMaze.EdgesUpToHasDown | src/components/thornegalatic.js:143-151 | Every cell visited so far has its edge to an open lower neighbour. |
| GalacticMaze.RightEdgeTarget | src/components/thornegalatic.js:134 | A right edge is well shaped only when its neighbour is open. |
| GalacticMaze.DownEdgeTarget | src/components/thornegalatic.js:143 | A down edge is well shaped only when its neighbour is open. |
| GalacticMaze.EdgesExact | src/components/thornegalatic.js:130-156 | For every cell there is a right edge exactly when the right neighbour is open, and a down edge exactly when the lower neighbour is open. There are no other edges, and ids are unique. |
| GalacticMaze.CreateEdges | src/components/thornegalatic.js:130-156 | The nested loops build exactly the specified edge list, in row-major order. |
| GalacticMaze.UpdateEdgeStyles | src/components/thornegalatic.js:206-231 | Count, order, ids and endpoints are kept. An edge joining the source cell and the best move turns green; otherwise, one joining it and the worst move turns red; every other edge is unchanged. Best wins when they coincide. |
| GalacticMaze.EdgeBetween | src/components/thornegalatic.js:130-156 | When the edge list holds the edge to every open right and lower neighbour, two adjacent open cells are joined by some edge. |
| GalacticMaze.AtMostOneEdgeBetween | src/components/thornegalatic.js:130-156 | Among well-shaped edges with unique ids, at most one joins any two cells. |
| GalacticMaze.GreenExactlyJoining | src/components/thornegalatic.js:206-231 | Over plain edges, the restyle turns green exactly the edges joining the current cell and the best move. |
| GalacticMaze.OneGreenEdgeAmong | src/components/thornegalatic.js:206-231 | Over edges built as the graph builds them, a step to an adjacent open cell turns exactly one edge green. |
| GalacticMaze.OneGreenEdge | src/components/thornegalatic.js:197-231 | After a step to an adjacent open cell, the freshly rebuilt edge list has exactly one green edge after restyling. |
| GalacticMaze.Navigator.constructor | src/components/thornegalatic.js:239-242 | On mount the walker stands on the start cell, not moving, with a drawn weight for exactly the passable cells and the built edge list. |
| GalacticMaze.Navigator.MoveThorne | src/components/thornegalatic.js:184-196 | With a valid move and no step in flight, the sorted moves are captured and a step is pending. Otherwise nothing changes. Position, weights and edges are untouched. |
| GalacticMaze.Navigator.CompleteMove | src/components/thornegalatic.js:197-202 | The walker moves to the head of the sorted moves, which is adjacent to where it was. The step ends, and the edges are rebuilt and restyled around the cell the step started from. |
| GalacticMaze.Navigator.ResetMaze | src/components/thornegalatic.js:233-237 | The walker returns to the start cell, weights are redrawn for exactly the passable cells, and the edges are rebuilt. |

## Left out

- Rendering: the JSX, node colours and labels, emoji and messages, and the hash's
  human-readable calculation trace. Only the numeric index is kept.
- The graph library's node list (`initializeGraph`'s nodes) and its layout and change
  handlers. Only the edge list is modelled.
- Timers are explicit transitions instead of scheduled callbacks:
  - the countdown interval and its effect are `Tick`;
  - the move delay is `CompleteMove`;
  - the highlight and collision-notice expiry are not modelled, so the notice and the
    highlight stay until the next handler changes them.
- React's batched state updates run as one sequential state per component. The stale closure
  in the delayed move is captured explicitly: the pending step records its source cell and
  its sorted moves.
- The collision notice's list of existing keys is left out. It is display-only, and because
  the chain is shared with the old map it reads the chain after the push.
- The in-place mutation of chain entries shared between the old and new bucket maps is left
  out. The model replaces the map as a value, which gives the same new map.
- Character codes: `charCodeAt` yields UTF-16 code units, and the model sums Dafny character
  values. They differ only for characters outside the Basic Multilingual Plane.
- Weights are abstract reals given by `draw`. Their range [0, 0.5) and the random source are
  not modelled.
- Clearing the text inputs after an insert is left out: the inputs are the parameters of
  `Add`.
- SushiGame.LifeLost: requires that a game has begun (playing or over). The component only
  loses a life during a game or in the timer effect right after one.
- SushiGame.Game.LoseLife: the same requirement as `LifeLost`.
- GalacticMaze.CreateEdges: takes the grid as a parameter, where the component reads its fixed
  maze. The component always passes the maze.
- GalacticMaze.EdgeRank: the row-major rank is written for the 4-column grid.

# Grid path finder

A model of the core of a Unity tile path finder. The map is a dictionary
from integer grid positions to `TileNav` cells. Each cell has a position
that never changes after construction. It also has a walkable flag and a
movement cost, which may both be reassigned. Two cells are equal exactly
when they sit at the same position.

`PathFinder` runs an A*-style search over that map:

- It keeps a frontier (OPEN) of g/h records, a closed set (CLOSED) and a
  parent map (DIRECTIONS).
- Each iteration expands the frontier entry with the least f = g + h.
- It relaxes the walkable cells among the eight around the expanded cell.
  A straight step costs 1.0 and a diagonal one 1.41421.
- When the goal is expanded, it follows the parent links back to the start.
- It gives up after `calculatorPatience` (1000) iterations, or when the
  frontier runs dry.

Module `Tiles` (`tile_nav.dfy`) holds:

- positions and the table of eight moves;
- the `TileNav` class, with its constructor defaults, its position-only
  `Equals` and its position-derived hash.

Module `PathFinding` (`path_finder.dfy`) holds the `PathFinder` class:

- the tile lookup and the neighbour enumeration;
- frontier selection and the pass over the neighbours;
- the traceback;
- the search itself.

The search is proved against an invariant over OPEN, CLOSED and
DIRECTIONS:

- Every parent is closed and one move away.
- Parents were closed before their children, which numbers the closed
  cells and makes the traceback terminate.
- The frontier and the closed set stay disjoint.
- Every walkable stored cell next to a closed cell is on the frontier or
  closed, and the goal is never closed before it is reached. So a frontier
  that runs dry means the goal cannot be reached at all.
- Each iteration closes a new cell, and only stored cells and the start
  are ever touched. So with a budget above the number of stored cells plus
  one, the search finds a path exactly when a walk to the goal exists.

As written, the source stores the heuristic distance as the g of every
neighbour it writes (see Findings). `GeneratePath` reproduces this.
`GeneratePathCorrected` is a separate, clearly marked variant in which g is
the distance from the start. For that variant the model also proves that
the goal's g is the cost of the path returned.

A start tile that is not stored in the map does not make the search fail.
Its position is expanded like any other: the start node object itself is
the current node there, and only its position is looked at.

## Model

| member | source | states |
|---|---|---|
| Tiles.TileNav.constructor | Scripts/TileNav.cs:21-26 | a new cell has the given position, walkability and movement cost; by default it is walkable with cost 1.0 |
| Tiles.EqualsIsPositionEquality | Scripts/TileNav.cs:29-36 | a cell equals an object exactly when that object is a non-null cell at the same position; walkability and cost play no part |
| Tiles.EqualsIsEquivalence | Scripts/TileNav.cs:29-36 | cell equality is reflexive, symmetric and transitive |
| Tiles.EqualTilesHashAlike | Scripts/TileNav.cs:29-42 | equal cells have equal hash codes, for any hash of positions |
| Tiles.DirectionsAreDistinct | Scripts/PathFinder.cs:48-57 | the move table has eight entries, no two alike, so no neighbour is added twice |
| Tiles.AdjacentIffDirection | Scripts/PathFinder.cs:48-57 | the eight moves reach exactly the other cells of the same layer at most one step away along x and along y |
| Tiles.StepCosts | Scripts/PathFinder.cs:48-65 | the four straight moves cost 1.0 and the four diagonal moves cost 1.41421 |
| PathFinding.PathFinder.constructor | Scripts/PathFinder.cs:14-32 | the finder keeps the given map and starts with an iteration budget of 1000 |
| PathFinding.PathFinder.GetTileAtPosition | Scripts/PathFinder.cs:35-42 | returns null exactly when no tile is stored at the position, otherwise the stored tile, which sits at that position |
| PathFinding.PathFinder.GetNeighboursAndStepCosts | Scripts/PathFinder.cs:45-70 | the result holds exactly the walkable stored cells among the eight around the tile, each with the cost of its move; at most eight of them |
| PathFinding.SelectMinimal | Scripts/PathFinder.cs:91 | the selected entry is in the frontier and no entry has a smaller f |
| PathFinding.PathFinder.NeighbourStepsUnique | Scripts/PathFinder.cs:45-70 | the neighbour map is determined by its contents: any map holding exactly the walkable stored cells around a cell, each with its move's cost, is the one the search expands with |
| PathFinding.PathFinder.HeuristicOfEqualTiles | Scripts/PathFinder.cs:73-76 | the heuristic looks only at the two tiles' positions: tiles equal to the given ones give the same distance, whatever their walkability and cost |
| PathFinding.PathFinder.RelaxNeighbour | Scripts/PathFinder.cs:114-131 | a closed neighbour is left alone; otherwise its record and parent are rewritten exactly when it has no record or its g exceeds the expanded node's g plus the step, the parent becoming the expanded node and g, h both the heuristic distance |
| PathFinding.PathFinder.RelaxNeighbours | Scripts/PathFinder.cs:112-133 | the pass over the neighbours, in whatever order the dictionary yields them, gives the frontier and parent map that rewrite each neighbour as the single-neighbour rule says, judged against its record before the pass |
| PathFinding.PathFinder.RelaxedOpenStep | Scripts/PathFinder.cs:112-133 | taking one more neighbour into the pass changes only that neighbour's record, and only when the step improves on it |
| PathFinding.RelaxedDirsStep | Scripts/PathFinder.cs:112-133 | taking one more neighbour into the pass changes only that neighbour's parent, to the expanded node, and only when the step improves on its record |
| PathFinding.PathFinder.CloseKeepsLinks | Scripts/PathFinder.cs:91-94 | moving the selected entry from the frontier to the closed set keeps frontier and closed set disjoint and every parent closed |
| PathFinding.PathFinder.RelaxKeepsParentLinks | Scripts/PathFinder.cs:112-133 | after the pass every parent is still a closed cell one move away, and a closed cell keeps the parent it had |
| PathFinding.PathFinder.RelaxKeepsOpenLinks | Scripts/PathFinder.cs:112-133 | after the pass the frontier is still disjoint from the closed set and every frontier entry but the start's has a closed parent |
| PathFinding.PathFinder.ExpandKeepsFrontier | Scripts/PathFinder.cs:91-133 | one expansion preserves the whole search invariant |
| PathFinding.PathFinder.ExpandKeepsExplored | Scripts/PathFinder.cs:93-133 | after an expansion every walkable stored cell next to a closed cell, the newly closed one included, is on the frontier or closed |
| PathFinding.PathFinder.Expand | Scripts/PathFinder.cs:91-133 | expanding a frontier entry that is not the goal gives exactly the frontier and parent map of one pass over that cell's walkable neighbours, judged against the frontier without the entry and the closed set with it; the search invariant is kept, nothing next to the closed cells is overlooked, and one new stored cell or the start is closed |
| PathFinding.PathFinder.ExploredWalk | Scripts/PathFinder.cs:89 | once the frontier is empty, a walk over walkable cells that starts at a closed cell stays among closed cells |
| PathFinding.PathFinder.NoWalkOut | Scripts/PathFinder.cs:89 | a frontier that runs dry with the start closed and the goal not closed means no walk leads from the start to the goal |
| PathFinding.PathFinder.CellsBound | Scripts/PathFinder.cs:86-94 | the search never closes more cells than the map stores, plus the start |
| PathFinding.Reverse | Scripts/PathFinder.cs:106 | the reversed list has the same length and holds the elements back to front |
| PathFinding.ReverseSnoc | Scripts/PathFinder.cs:101-106 | reversing a list with one more element appended puts that element first |
| PathFinding.PathFinder.TraceStep | Scripts/PathFinder.cs:100-104 | one step back along the parent links reaches a cell closed strictly earlier, so the traceback loop ends, and keeps the collected tiles a walk to the goal |
| PathFinding.PathFinder.TraceComplete | Scripts/PathFinder.cs:97-108 | a traceback that has reached the start has collected a valid path, shorter than the number of closed cells |
| PathFinding.DistinctPositionsBound | Scripts/PathFinder.cs:97-108 | a path with no repeated position, drawn from a set of positions, is no longer than that set |
| PathFinding.PathFinder.TracePath | Scripts/PathFinder.cs:97-108 | the tiles collected from the goal back to the start, reversed, run from a neighbour of the start to the goal, each a walkable stored tile one move from the previous one, none at the start and none twice |
| PathFinding.PathFinder.ReturnedPathWalks | Scripts/PathFinder.cs:97-108 | a returned path to a goal other than the start is a walk to the goal over walkable stored cells |
| PathFinding.PathFinder.Search | Scripts/PathFinder.cs:79-138 | the loop runs at most calculatorPatience times; with no budget it fails; failure gives an empty path; success gives a valid path; with a budget above the number of stored cells plus one, failure means start and goal differ and no walk joins them |
| PathFinding.PathFinder.GeneratePath | Scripts/PathFinder.cs:79-138 | no budget means no path; no path found means an empty path; equal start and goal succeed with an empty path exactly when the budget is positive; a found path ends at the goal, leaves out the start, moves one cell at a time through walkable stored tiles, repeats no position and is shorter than the number of iterations run; with a budget above the number of stored cells plus one, a path is found exactly when start and goal coincide or a walk over walkable stored cells leads from one to the other |
| PathFinding.PathFinder.GeneratePathCorrected | Scripts/PathFinder.cs:112-131 | all of GeneratePath's guarantees, completeness included, and with g kept as the distance from the start the goal's g equals the summed step costs of the path returned |
| PathFinding.PathFinder.FirstStepG | Scripts/PathFinder.cs:118-131 | on the first expansion from the start, the source records the heuristic distance as the neighbour's g, which differs from the step cost whenever the two differ; the corrected bookkeeping records the step cost |
| PathFinding.PathFinder.FirstStepGExample | Scripts/PathFinder.cs:118-131 | start (0,0,0), neighbour (1,0,0), goal (5,0,0) at distance 4: the source records g = 4.0 for a neighbour whose step from the start costs 1.0; the corrected bookkeeping records 1.0 |

## Left out

- TileMapManager.cs is not part of this model. It is the Unity glue that builds the map from a Tilemap, toggles walkability on mouse clicks and draws the path.
- PathFinding.PathFinder.GeneratePath: requires the map to store every tile under its own position, as TileMapManager.cs:39-40 builds it; a map breaking this is not modelled.
- Floating point: `float` values are modelled as exact reals, so 1.41421f is the exact decimal 1.41421 and sums do not round.
- `Vector3Int.Distance` is not modelled: it is the `distance` function given to the PathFinder constructor, an argument the source's constructor does not have.
- `Vector3Int.GetHashCode` is not modelled: it is the `positionHash` argument of `GetHashCode`.
- Dictionary and HashSet internals are not modelled: OPEN, CLOSED and DIRECTIONS are keyed by position, which is what the tiles' equality and hash make them. Enumeration order is left unspecified wherever the source iterates a dictionary.
- PathFinding.SelectMinimal: the source's left fold keeps the entry met later on ties; the model loops over the entries in an unspecified order with that same tie rule, so it states only that the choice is minimal, not which of several minimal entries is picked.
- MovementCost is stored and reassignable but never read by the search; the model keeps the field and nothing more.
- PathFinding.PathFinder.GeneratePath: states no optimality. The straight-line heuristic is slightly larger than a diagonal step (1.41421 < √2), and the g bookkeeping described under Findings breaks the A* argument anyway.
- PathFinding.PathFinder.GeneratePath: ties a failure to the absence of any walk only when the budget exceeds the number of stored cells plus one. With a smaller budget it does not say whether the budget or the map caused a failure. The iteration count that would tell them apart is not returned by the source.
- Null start or goal tiles are not modelled: the model's tile parameters are non-null.
- The exceptions the source could raise are not modelled: `Dictionary.Add` on a repeated key and `DIRECTIONS[...]` on a missing key. The model proves that neither case arises.
- The z coordinate is carried but no move changes it.

## Findings

| source | as written | input that shows it | evidently intended | confidence | as-written member | corrected member |
|---|---|---|---|---|---|---|
| Scripts/PathFinder.cs:118-131 | a neighbour's new record gets g = h = heuristic distance to the goal, although g is documented as the distance from the start (line 19), and the comparison at line 120 weighs it against the distance from the start built at line 118 | start (0,0,0), neighbour (1,0,0), goal (5,0,0): the first expansion stores g = 4.0 for the neighbour, whose distance from the start is 1.0 | g = startToNeighbourDistance, the distance from the start through the expanded node | not executed | PathFinding.PathFinder.FirstStepGExample | PathFinding.PathFinder.GeneratePathCorrected |

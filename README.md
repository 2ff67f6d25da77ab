# Path grid of AdvPartySim, in Dafny

This project models the traversal grid of the game's pathfinding code
(`Assets/Scripts/Pathfinding/PathManager.cs`) and proves properties of it:

- `PathNode`, the value stored in each grid cell. It holds an index pair, a
  local position, a traversal cost, a walkable flag and an occupant map
  (module `PathNodes`, file `path_node.dfy`).
- `PathGrid`, a fixed `width x height` array of `PathNode`s. Its constructor
  stamps every cell with its own index and position. `GetCell` is a
  bounds-checked read. `UpdateCell` replaces a whole cell, and it ignores an
  index out of range (module `PathGrids`, file `path_grid.dfy`). The class
  keeps the C# two-dimensional array as an `array2`, and its methods update it
  in place.
- The grid-owning part of `PathManager` (module `PathManagers`, file
  `path_manager.dfy`):
  - `BuildPathGrid` clears the `_pathNodes` dictionary, builds a new grid,
    mirrors every cell into the dictionary and then re-reads walkability.
  - `ReadTileWalkability` copies each node the tile source names, sets its
    walkable flag from the source and writes it back to both the dictionary
    and the grid.

The model's main invariant is `PathManager.Mirrored()`: the dictionary holds
exactly the grid's cells, each under its own position. A rebuild that does
not throw on a negative dimension establishes it, and a walkability refresh
keeps it, even when the refresh stops early. A rebuild that throws on a
negative dimension leaves the dictionary empty while the previous grid stays
in place, so the invariant no longer holds unless the previous grid had no
cells.
`Refresh` describes the refresh as a function of the old dictionary. The
lemmas about it say that the dictionary's enumeration order does not matter
(`RefreshInOrderIsRefresh`), that re-reading the same source twice changes
nothing more (`RefreshIdempotent`), and that a node's index never changes
(`RefreshKeepsIndices`).

Modelling choices:

- Unity's `Vector3` is a datatype with real components. `Grid.CellToLocal` is
  a function value `(int, int) -> Vector3` supplied to the constructors.
- `Vector2Int` dictionary keys are a datatype `Vector2Int(x, y)`. The node's
  own `_index` stays an `(int, int)` pair.
- `default(PathNode)` is `Default()`: index `(0, 0)`, zero position, cost 0,
  not walkable, and occupant map `None` (a null reference in C#).
- The tile walkability source (`TileBehaviorManager.GetTileData` together with
  each `TileBehavior.IsWalkable`) is a `map<Vector2Int, bool>` parameter.
- The C# code throws exceptions in two data-dependent places that the model
  captures, and the model returns them as values (the other ways it can
  throw are listed under "Left out"):
  - `ReadTileWalkability` returns `ok == false` when a source key has no node,
    because the dictionary indexer throws there. The ghost set `applied` then
    says which keys were written back before the throw.
  - `BuildPathGrid` reports `SizeOverflow` for a negative width or height,
    because the array allocation throws there after the dictionary was
    cleared. It reports `KeyNotFound` when the refresh threw.
- C# dictionaries enumerate in an unspecified order. The refresh loop
  therefore picks its next key with `:|`, so the proof covers every order.

Out of range, `GetCell` returns `default(PathNode)` instead of raising an
error, and `UpdateCell` ignores the call; both only log. Walkability is read
once for each key the tile source holds, not once for each grid cell, and a
key with no node throws.

A rebuild with outcome `Built` gives the same dictionary every time for the
same parameters and the same source answers. This follows from
`BuildPathGrid`'s postcondition, which then fixes `applied` to all the
source's keys and so fixes `pathNodes` as a function of those inputs. With
outcome `KeyNotFound` the postcondition allows any subset of keys to have
been written back, so two such rebuilds need not agree.

## Model

| member | source | states |
|---|---|---|
| `PathNodes.NewNode` | Assets/Scripts/Pathfinding/PathManager.cs:26-33 | The `PathNode(bool)` constructor gives index (-1,-1), zero position, cost 0, walkable equal to the argument and an empty occupant map, so it never equals `default(PathNode)` |
| `PathGrids.FreshCells` | Assets/Scripts/Pathfinding/PathManager.cs:54-70 | A freshly built grid has a cell at exactly each position in `[0,width) x [0,height)`; each cell's index is its position, its cost is 0, it is not walkable and its occupant map is null |
| `PathGrids.PathGrid.constructor` | Assets/Scripts/Pathfinding/PathManager.cs:47-71 | The new grid's dimensions are the arguments, and the nested loops leave every cell as the fresh cell for its position (`Snapshot() == FreshCells(...)`) |
| `PathGrids.PathGrid.Width` | Assets/Scripts/Pathfinding/PathManager.cs:73 | The width is the extent of the cell array's first dimension |
| `PathGrids.PathGrid.Height` | Assets/Scripts/Pathfinding/PathManager.cs:75 | The height is the extent of the cell array's second dimension |
| `PathGrids.PathGrid.GetCell` | Assets/Scripts/Pathfinding/PathManager.cs:77-96 | In range, the result is exactly the stored cell. Out of range (x or y), it is `default(PathNode)`, with index (0,0) and not walkable. It is a function, so the grid is unchanged |
| `PathGrids.PathGrid.GetCellByPair` | Assets/Scripts/Pathfinding/PathManager.cs:98-101 | The tuple overload returns what `GetCell(Item1, Item2)` returns |
| `PathGrids.GetCellIndexed` | Assets/Scripts/Pathfinding/PathManager.cs:56-96 | On a grid whose cells carry their own indices, `GetCell(x, y)` reports index (x,y) in range and (0,0) out of range |
| `PathGrids.PathGrid.UpdateCell` | Assets/Scripts/Pathfinding/PathManager.cs:103-120 | In range, `GetCell(x, y)` afterwards is the new node and every other cell is unchanged. Out of range, the whole grid is unchanged. The dimensions are constant |
| `PathGrids.PathGrid.UpdateCellByPair` | Assets/Scripts/Pathfinding/PathManager.cs:122-125 | The tuple overload has the same effect as `UpdateCell(Item1, Item2, node)` on the whole grid |
| `PathGrids.PathGrid.UpdateCellByVector` | Assets/Scripts/Pathfinding/PathManager.cs:127-130 | The `Vector2Int` overload has the same effect as `UpdateCell(x, y, node)` on the whole grid |
| `PathManagers.Refresh` | Assets/Scripts/Pathfinding/PathManager.cs:411-432 | Refreshing keeps the dictionary's keys and each node's index, position, cost and occupants. Only at keys that were refreshed and that the source supplies does walkability become the source's answer |
| `PathManagers.RefreshInOrder` | Assets/Scripts/Pathfinding/PathManager.cs:415-432 | The copy-modify-write-back loop over the keys in one given order never adds or drops a dictionary key |
| `PathManagers.RefreshStep` | Assets/Scripts/Pathfinding/PathManager.cs:417-426 | Writing back one more node with its new walkability extends the refreshed key set by exactly that key |
| `PathManagers.RefreshFrom` | Assets/Scripts/Pathfinding/PathManager.cs:415-432 | Refreshing the keys `done` and then the keys `rest` equals refreshing `done + rest` at once |
| `PathManagers.RefreshNothing` | Assets/Scripts/Pathfinding/PathManager.cs:415-432 | A refresh over no keys leaves the dictionary as it was |
| `PathManagers.RefreshInOrderIsRefresh` | Assets/Scripts/Pathfinding/PathManager.cs:415-432 | Every enumeration order of the source's keys gives the same dictionary, namely the set-wise `Refresh` |
| `PathManagers.RefreshIdempotent` | Assets/Scripts/Pathfinding/PathManager.cs:411-432 | Re-reading the same walkability source a second time changes nothing more |
| `PathManagers.RefreshKeepsIndices` | Assets/Scripts/Pathfinding/PathManager.cs:417-426 | If every node's index names its key before a refresh, the same holds after it |
| `PathManagers.PathManager.constructor` | Assets/Scripts/Pathfinding/PathManager.cs:176-215 | A new manager has the configured dimensions and offset (the serialized field's initialiser gives (0, 1.5, 0)), no grid and an empty node dictionary |
| `PathManagers.PathManager.MirrorGrid` | Assets/Scripts/Pathfinding/PathManager.cs:380-394 | The nested `Add` loops never add a key twice. Afterwards the dictionary equals the grid's contents, keyed by position |
| `PathManagers.PathManager.ReadTileWalkability` | Assets/Scripts/Pathfinding/PathManager.cs:411-432 | It succeeds exactly when every source key is in the dictionary, and then it has refreshed all of them. On the throw, the dictionary shows the refresh of some subset of keys. The dictionary always ends as `Refresh(old dictionary, source, applied)` and still mirrors the grid, which is the same grid object |
| `PathManagers.PathManager.BuildPathGrid` | Assets/Scripts/Pathfinding/PathManager.cs:367-404 | With a negative dimension it throws after clearing the dictionary. Otherwise it builds a fresh grid, with a freshly allocated cell array, of the configured size, and the dictionary mirrors it and has exactly the fresh grid's keys, with no entry from the previous build. Each node is the fresh cell refreshed from the source, and each index equals its key. The rebuild completes exactly when every source key lies inside the grid |

## Left out

- The A* search, the octile cost model and path reconstruction are not
  modelled. None of them appears in `PathManager.cs`.
- `GenerateDebugGrid`, `DestroyDebugGrid` and the `DebugNode` constructors are
  not modelled. They create and destroy Unity game objects for display
  (`PathManager.cs:135-167`, `244-361`). `BuildPathGrid`'s final call to
  `GenerateDebugGrid` is therefore not modelled either.
- `GetLocalCellPosition` and `GetWorldCellPositon` are not modelled. They are
  Unity coordinate conversions.
- Position arithmetic uses reals. Floating-point rounding of `Vector3`
  addition is not modelled.
- `_tileBehaviorManager.UpdateTileData` is not modelled. It matches tiles to
  nodes by position inside Unity. Only its result is modelled, as the
  `tileWalkability` map.
- Logging (`Debug.Log*`, `QuickLogger`) is not modelled, and neither are the
  debugging accessors `GetScriptID` and `GetScriptName`.
- `GetPathNodes` (`PathManager.cs:477-480`) is not modelled as a member. It
  hands the live `_pathNodes` dictionary to the tile manager, which reads it
  to pair tiles with nodes (`TileBehaviorManager.cs:78`). The model replaces
  that shared reference with the `tileWalkability` parameter, so it does not
  capture the tile manager seeing the dictionary the rebuild has just filled.
- `PathNodes.NewNode` takes its argument explicitly. The C# constructor's
  default `defaultWalkability = true` (`PathManager.cs:26`) is not modelled,
  because `new PathNode()` on a struct gives `default(PathNode)` without
  running that constructor.
- `IPathAgent` is a stand-in datatype `AgentId`. The `_occupants` dictionary
  is kept as a field, but nothing populates or reads it.
- C# `int` is 32 bits wide. Grid sizes are not bounded by memory or by
  `int.MaxValue`, and indices are unbounded integers.
- `PathGrids.PathGrid.constructor`: its requires excludes negative
  dimensions, because the C# array allocation throws on them.
  `BuildPathGrid` models that exception as the `SizeOverflow` outcome.
- `PathManagers.PathManager.ReadTileWalkability`: its requires asks that the
  dictionary already mirrors a built grid. That is the only state in which
  its sole caller, `BuildPathGrid`, calls it.
- `PathManagers.PathManager.BuildPathGrid`: the model allows a
  `KeyNotFound` outcome that the program does not reach from this call.
  `TileBehaviorManager.UpdateTileData` collects its tiles under keys taken
  from `_pathNodes` (`TileBehaviorManager.cs:78-96`), so every source key has
  a node. That file is from a version in which `GetPathNodes` returns
  `GridNode` values rather than `PathNode`s; the key link is taken from it.
  The model takes the source as an arbitrary map and does not capture that
  link.
- `PathManagers.PathManager.ReadTileWalkability`: a null `TileBehavior` in
  the source dictionary makes `IsWalkable()` throw part-way through the loop
  (`PathManager.cs:420`), because `CollectChildrenTiles` adds tiles without a
  null check (`TileBehaviorManager.cs:93-96`). The model's source map holds
  plain walkability answers and so has no null entries. Such a throw would
  leave a partial refresh, as the `KeyNotFound` path does.
- `PathManagers.PathManager.BuildPathGrid`: a null `_unityGrid` makes the
  grid constructor throw at `CellToLocal` (`PathManager.cs:64`), and a null
  `_tileBehaviorManager` makes the call at `PathManager.cs:397` throw. Both
  references are set in the inspector; the model takes `cellToLocal` and the
  walkability source as values and does not model them being missing.
- `PathManagers.PathManager.MirrorGrid` is the nested loop of `BuildPathGrid`
  (`PathManager.cs:380-394`) written as a method of its own. The source
  inlines it.
- `Assets/Scripts/Managers/AudioManager.cs` and
  `Assets/Scripts/Inspector/OdinColors.cs` are not part of this model. They
  are sound playback and editor tooling.

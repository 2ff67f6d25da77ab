/** The grid-owning part of `PathManager`: rebuilding the grid together with
    its node dictionary, and re-reading walkability from the tile source. */
module PathManagers {
  import opened PathNodes
  import opened PathGrids

  /** The dictionary after the walkability of the nodes at `keys` has been
      replaced by the tile source's answer; every other field and every
      other node is left as it was. */
  function Refresh(nodes: map<Vector2Int, PathNode>, tileWalkability: map<Vector2Int, bool>, keys: set<Vector2Int>)
    : (r: map<Vector2Int, PathNode>)
    ensures r.Keys == nodes.Keys
    ensures forall k :: k in r ==>
      && r[k].index == nodes[k].index
      && r[k].localPosition == nodes[k].localPosition
      && r[k].traversalCost == nodes[k].traversalCost
      && r[k].occupants == nodes[k].occupants
    ensures forall k :: k in r ==>
      r[k].isWalkable == if k in keys && k in tileWalkability then tileWalkability[k] else nodes[k].isWalkable
  {
    map k | k in nodes :: if k in keys && k in tileWalkability then nodes[k].(isWalkable := tileWalkability[k]) else nodes[k]
  }

  /** The copy-modify-write-back loop of `ReadTileWalkability` run over the
      source's keys in the order `order` (one possible enumeration order of
      the C# dictionary). */
  function RefreshInOrder(nodes: map<Vector2Int, PathNode>, tileWalkability: map<Vector2Int, bool>, order: seq<Vector2Int>)
    : (r: map<Vector2Int, PathNode>)
    requires forall k <- order :: k in nodes && k in tileWalkability
    ensures r.Keys == nodes.Keys
    decreases |order|
  {
    if order == [] then nodes
    else
      var key := order[0];
      RefreshInOrder(nodes[key := nodes[key].(isWalkable := tileWalkability[key])], tileWalkability, order[1..])
  }

  /** Writing back one more key extends the refreshed set by that key. */
  lemma RefreshStep(nodes: map<Vector2Int, PathNode>, tileWalkability: map<Vector2Int, bool>, done: set<Vector2Int>, key: Vector2Int)
    requires key in nodes && key in tileWalkability
    ensures var before := Refresh(nodes, tileWalkability, done);
      before[key := before[key].(isWalkable := tileWalkability[key])] == Refresh(nodes, tileWalkability, done + {key})
  {
  }

  /** Refreshing the keys `done` and then the keys `rest` is the same as
      refreshing `done + rest` at once. */
  lemma RefreshFrom(nodes: map<Vector2Int, PathNode>, tileWalkability: map<Vector2Int, bool>, done: set<Vector2Int>, rest: set<Vector2Int>)
    ensures Refresh(Refresh(nodes, tileWalkability, done), tileWalkability, rest) == Refresh(nodes, tileWalkability, done + rest)
  {
  }

  /** Refreshing no key changes nothing. */
  lemma RefreshNothing(nodes: map<Vector2Int, PathNode>, tileWalkability: map<Vector2Int, bool>)
    ensures Refresh(nodes, tileWalkability, {}) == nodes
  {
  }

  /** The dictionary's enumeration order does not matter: whatever order the
      keys are visited in, the result is the set-wise refresh. */
  lemma {:induction false} RefreshInOrderIsRefresh(nodes: map<Vector2Int, PathNode>, tileWalkability: map<Vector2Int, bool>, order: seq<Vector2Int>)
    requires forall k <- order :: k in nodes && k in tileWalkability
    ensures RefreshInOrder(nodes, tileWalkability, order) == Refresh(nodes, tileWalkability, set k <- order)
  {
    if order == [] {
      RefreshNothing(nodes, tileWalkability);
      assert (set k <- order) == {};
    } else {
      var key := order[0];
      var stepped := nodes[key := nodes[key].(isWalkable := tileWalkability[key])];
      var rest := set k <- order[1..];
      assert (set k <- order) == {key} + rest by {
        assert order == [key] + order[1..];
      }
      calc {
        RefreshInOrder(nodes, tileWalkability, order);
        RefreshInOrder(stepped, tileWalkability, order[1..]);
        { RefreshInOrderIsRefresh(stepped, tileWalkability, order[1..]); }
        Refresh(stepped, tileWalkability, rest);
        { RefreshNothing(nodes, tileWalkability);
          RefreshStep(nodes, tileWalkability, {}, key);
          assert {} + {key} == {key}; }
        Refresh(Refresh(nodes, tileWalkability, {key}), tileWalkability, rest);
        { RefreshFrom(nodes, tileWalkability, {key}, rest); }
        Refresh(nodes, tileWalkability, {key} + rest);
      }
    }
  }

  /** Re-reading the same source twice leaves the dictionary as after once. */
  lemma RefreshIdempotent(nodes: map<Vector2Int, PathNode>, tileWalkability: map<Vector2Int, bool>, keys: set<Vector2Int>)
    ensures Refresh(Refresh(nodes, tileWalkability, keys), tileWalkability, keys) == Refresh(nodes, tileWalkability, keys)
  {
  }

  /** Refreshing walkability never moves a node away from its own key. */
  lemma RefreshKeepsIndices(nodes: map<Vector2Int, PathNode>, tileWalkability: map<Vector2Int, bool>, keys: set<Vector2Int>)
    requires IndexCoherent(nodes)
    ensures IndexCoherent(Refresh(nodes, tileWalkability, keys))
  {
  }

  /** How a grid rebuild ended: the C# code completes, or throws out of the
      array allocation (negative size) or out of the dictionary indexer
      (a tile key with no node). */
  datatype BuildOutcome = Built | SizeOverflow | KeyNotFound

  class PathManager {
    var gridWidth: int
    var gridHeight: int
    var gridOffset: Vector3
    /** Unity's `Grid.CellToLocal`, restricted to the z = 0 layer. */
    const cellToLocal: (int, int) -> Vector3
    var pathGrid: PathGrid?
    var pathNodes: map<Vector2Int, PathNode>

    /** The dictionary holds exactly the grid's cells, under their positions. */
    ghost predicate Mirrored()
      reads this, if pathGrid == null then {} else {pathGrid.grid}
    {
      pathGrid != null && pathGrid.Valid() && pathNodes == pathGrid.Snapshot()
    }

    /** The serialized parameters as the inspector sets them (the field
        initialiser's offset is (0, 1.5, 0), and a scene may override it);
        no grid is built yet and the node dictionary is empty. */
    constructor (gridWidth: int, gridHeight: int, gridOffset: Vector3, cellToLocal: (int, int) -> Vector3)
      ensures this.gridWidth == gridWidth && this.gridHeight == gridHeight
      ensures this.gridOffset == gridOffset && this.cellToLocal == cellToLocal
      ensures pathGrid == null && pathNodes == map[]
    {
      this.gridWidth := gridWidth;
      this.gridHeight := gridHeight;
      this.gridOffset := gridOffset;
      this.cellToLocal := cellToLocal;
      pathGrid := null;
      pathNodes := map[];
    }

    /** Copies each node named by the tile source, sets its walkability to the
        source's answer and writes it back to the dictionary and the grid.
        A key with no node makes the dictionary indexer throw: `ok` is false
        and only the keys in `applied` were written back. */
    method ReadTileWalkability(tileWalkability: map<Vector2Int, bool>) returns (ok: bool, ghost applied: set<Vector2Int>)
      requires Mirrored()
      modifies this`pathNodes, pathGrid.grid
      ensures Mirrored() && pathGrid == old(pathGrid)
      ensures ok <==> tileWalkability.Keys <= old(pathNodes).Keys
      ensures applied <= tileWalkability.Keys && applied <= old(pathNodes).Keys
      ensures ok ==> applied == tileWalkability.Keys
      ensures pathNodes == Refresh(old(pathNodes), tileWalkability, applied)
    {
      var remaining := tileWalkability.Keys;
      applied := {};
      RefreshNothing(pathNodes, tileWalkability);
      while remaining != {}
        invariant remaining <= tileWalkability.Keys
        invariant applied == tileWalkability.Keys - remaining
        invariant applied <= old(pathNodes).Keys
        invariant pathNodes == Refresh(old(pathNodes), tileWalkability, applied)
        invariant pathGrid == old(pathGrid) && pathGrid.Valid()
        invariant pathNodes == pathGrid.Snapshot()
        decreases remaining
      {
        var key :| key in remaining;
        if key !in pathNodes {
          // the dictionary indexer throws KeyNotFoundException
          ok := false;
          return;
        }
        assert pathGrid.InRange(key.x, key.y);
        var node := pathNodes[key];
        node := node.(isWalkable := tileWalkability[key]);
        pathNodes := pathNodes[key := node];
        pathGrid.UpdateCellByVector(key, node);
        RefreshStep(old(pathNodes), tileWalkability, applied, key);
        remaining := remaining - {key};
        applied := applied + {key};
      }
      ok := true;
    }

    /** The nested loops of `BuildPathGrid` that add every cell of a freshly
        built grid to the (cleared) node dictionary under its position. */
    method MirrorGrid(grid: PathGrid)
      requires grid.Valid() && pathNodes == map[]
      modifies this`pathNodes
      ensures pathNodes == grid.Snapshot()
    {
      ghost var cells := grid.Snapshot();
      var i := 0;
      while i < grid.width
        invariant 0 <= i <= grid.width
        invariant forall k :: k in pathNodes <==> 0 <= k.x < i && 0 <= k.y < grid.height
        invariant forall k :: k in pathNodes ==> k in cells && pathNodes[k] == cells[k]
      {
        var j := 0;
        while j < grid.height
          invariant 0 <= j <= grid.height
          invariant forall k :: k in pathNodes <==> (0 <= k.x < i && 0 <= k.y < grid.height) || (k.x == i && 0 <= k.y < j)
          invariant forall k :: k in pathNodes ==> k in cells && pathNodes[k] == cells[k]
        {
          var currentNode := grid.GetCell(i, j);
          var dictionaryIndex := Vector2Int(i, j);
          // `Add` would throw on a key already present
          assert dictionaryIndex !in pathNodes;
          ghost var before := pathNodes;
          pathNodes := pathNodes[dictionaryIndex := currentNode];
          forall k ensures k in pathNodes <==> (0 <= k.x < i && 0 <= k.y < grid.height) || (k.x == i && 0 <= k.y < j + 1) {
            assert k in pathNodes <==> k in before || k == dictionaryIndex;
          }
          j := j + 1;
        }
        i := i + 1;
      }
      assert pathNodes.Keys == cells.Keys;
    }

    /** Clears the dictionary, builds a fresh grid, mirrors every cell into the
        dictionary and then re-reads walkability from the tile source. */
    method BuildPathGrid(tileWalkability: map<Vector2Int, bool>) returns (outcome: BuildOutcome, ghost applied: set<Vector2Int>)
      modifies this`pathNodes, this`pathGrid
      ensures outcome == SizeOverflow <==> gridWidth < 0 || gridHeight < 0
      ensures outcome == SizeOverflow ==> pathNodes == map[] && pathGrid == old(pathGrid)
      ensures outcome != SizeOverflow ==>
        fresh(pathGrid) && fresh(pathGrid.grid) && pathGrid.width == gridWidth && pathGrid.height == gridHeight && Mirrored()
      ensures outcome != SizeOverflow ==>
        (outcome == Built <==> forall k :: k in tileWalkability ==> pathGrid.InRange(k.x, k.y))
      ensures applied <= tileWalkability.Keys && (outcome == Built ==> applied == tileWalkability.Keys)
      ensures outcome != SizeOverflow ==>
        pathNodes == Refresh(FreshCells(gridWidth, gridHeight, cellToLocal, gridOffset), tileWalkability, applied)
      ensures outcome != SizeOverflow ==> IndexCoherent(pathNodes)
    {
      if |pathNodes| > 0 {
        pathNodes := map[];
      }
      if gridWidth < 0 || gridHeight < 0 {
        // allocating the array throws OverflowException
        outcome, applied := SizeOverflow, {};
        return;
      }
      var grid := new PathGrid(gridWidth, gridHeight, cellToLocal, gridOffset);
      pathGrid := grid;
      MirrorGrid(grid);

      var ok;
      ok, applied := ReadTileWalkability(tileWalkability);
      outcome := if ok then Built else KeyNotFound;
      RefreshKeepsIndices(FreshCells(gridWidth, gridHeight, cellToLocal, gridOffset), tileWalkability, applied);
    }
  }
}

/** The `PathGrid` class: a fixed width x height array of `PathNode`s with
    bounds-checked reads and whole-cell updates. */
module PathGrids {
  import opened PathNodes

  /** The cell the constructor leaves at `(i, j)`: a default node stamped with
      its own index and with the mapped position shifted by the grid offset. */
  function FreshCell(i: int, j: int, cellToLocal: (int, int) -> Vector3, offset: Vector3): PathNode
  {
    Default().(index := (i, j), localPosition := cellToLocal(i, j).Plus(offset))
  }

  /** All cells of a freshly built `width` x `height` grid, keyed by position. */
  function FreshCells(width: int, height: int, cellToLocal: (int, int) -> Vector3, offset: Vector3)
    : (m: map<Vector2Int, PathNode>)
    ensures forall k :: k in m <==> 0 <= k.x < width && 0 <= k.y < height
    ensures forall k :: k in m ==> m[k].index == (k.x, k.y)
    ensures forall k :: k in m ==> m[k].traversalCost == 0 && !m[k].isWalkable && m[k].occupants == None
  {
    map i, j | 0 <= i < width && 0 <= j < height :: Vector2Int(i, j) := FreshCell(i, j, cellToLocal, offset)
  }

  /** Every node's index names the position it is stored under. */
  ghost predicate IndexCoherent(nodes: map<Vector2Int, PathNode>)
  {
    forall k :: k in nodes ==> nodes[k].index == (k.x, k.y)
  }

  /** On a grid whose cells carry their own indices, `GetCell(x, y)` reports
      index (x, y) in range and (0, 0) out of range. */
  lemma GetCellIndexed(g: PathGrid, x: int, y: int)
    requires g.Valid() && IndexCoherent(g.Snapshot())
    ensures g.GetCell(x, y).index == if g.InRange(x, y) then (x, y) else (0, 0)
  {
  }

  class PathGrid {
    const grid: array2<PathNode>
    /** Unity's `Grid.CellToLocal`, restricted to the z = 0 layer. */
    const cellToLocal: (int, int) -> Vector3
    const gridOffset: Vector3
    const width: int
    const height: int

    ghost predicate Valid()
    {
      grid.Length0 == width && grid.Length1 == height
    }

    predicate InRange(x: int, y: int)
    {
      0 <= x < width && 0 <= y < height
    }

    /** The whole grid as a map from position to cell. */
    ghost function Snapshot(): (s: map<Vector2Int, PathNode>)
      requires Valid()
      reads grid
      ensures forall k: Vector2Int :: k in s <==> InRange(k.x, k.y)
      ensures forall k: Vector2Int :: InRange(k.x, k.y) ==> k in s && s[k] == grid[k.x, k.y]
    {
      map i, j | 0 <= i < width && 0 <= j < height :: Vector2Int(i, j) := grid[i, j]
    }

    /** Allocates the array (every element `default(PathNode)`) and stamps
        each cell with its index and position, column by column. */
    constructor (width: int, height: int, cellToLocal: (int, int) -> Vector3, offset: Vector3)
      requires 0 <= width && 0 <= height
      ensures Valid() && fresh(grid)
      ensures this.width == width && this.height == height
      ensures this.cellToLocal == cellToLocal && this.gridOffset == offset
      ensures Snapshot() == FreshCells(width, height, cellToLocal, offset)
    {
      this.width := width;
      this.height := height;
      this.cellToLocal := cellToLocal;
      this.gridOffset := offset;
      grid := new PathNode[width, height]((_, _) => Default());
      new;
      var i := 0;
      while i < width
        invariant 0 <= i <= width
        invariant forall a, b :: 0 <= a < i && 0 <= b < height ==> grid[a, b] == FreshCell(a, b, cellToLocal, offset)
        invariant forall a, b :: i <= a < width && 0 <= b < height ==> grid[a, b] == Default()
      {
        var j := 0;
        while j < height
          invariant 0 <= j <= height
          invariant forall a, b :: 0 <= a < i && 0 <= b < height ==> grid[a, b] == FreshCell(a, b, cellToLocal, offset)
          invariant forall b :: 0 <= b < j ==> grid[i, b] == FreshCell(i, b, cellToLocal, offset)
          invariant forall a, b :: i < a < width && 0 <= b < height ==> grid[a, b] == Default()
          invariant forall b :: j <= b < height ==> grid[i, b] == Default()
        {
          grid[i, j] := grid[i, j].(index := (i, j));
          grid[i, j] := grid[i, j].(localPosition := cellToLocal(i, j));
          grid[i, j] := grid[i, j].(localPosition := grid[i, j].localPosition.Plus(offset));
          j := j + 1;
        }
        i := i + 1;
      }
      assert Snapshot().Keys == FreshCells(width, height, cellToLocal, offset).Keys;
    }

    /** The number of columns: the extent of the array's first dimension. */
    function Width(): (w: int)
      requires Valid()
      ensures w == grid.Length0
    {
      width
    }

    /** The number of rows: the extent of the array's second dimension. */
    function Height(): (h: int)
      requires Valid()
      ensures h == grid.Length1
    {
      height
    }

    /** The stored cell at `(x, y)`; out of range (x is checked before y),
        `default(PathNode)`, which claims index (0,0) and is not walkable. */
    function GetCell(x: int, y: int): (n: PathNode)
      requires Valid()
      reads grid
      ensures InRange(x, y) ==> n == grid[x, y] && n == Snapshot()[Vector2Int(x, y)]
      ensures !InRange(x, y) ==> n == Default() && n.index == (0, 0) && !n.isWalkable
    {
      var xPositionValid := 0 <= x < width;
      var yPositionValid := 0 <= y < height;
      if !xPositionValid then Default()
      else if !yPositionValid then Default()
      else grid[x, y]
    }

    /** The `(int, int)` overload of `GetCell`. */
    function GetCellByPair(xyPair: (int, int)): (n: PathNode)
      requires Valid()
      reads grid
      ensures n == GetCell(xyPair.0, xyPair.1)
    {
      GetCell(xyPair.0, xyPair.1)
    }

    /** Replaces the whole cell at `(x, y)`; an out-of-range request is ignored. */
    method UpdateCell(x: int, y: int, updatedNode: PathNode)
      requires Valid()
      modifies grid
      ensures InRange(x, y) ==> GetCell(x, y) == updatedNode
      ensures forall i, j :: 0 <= i < width && 0 <= j < height && (i, j) != (x, y) ==> grid[i, j] == old(grid[i, j])
      ensures Snapshot() == if InRange(x, y) then old(Snapshot())[Vector2Int(x, y) := updatedNode] else old(Snapshot())
    {
      var xPositionValid := 0 <= x < width;
      var yPositionValid := 0 <= y < height;
      if !xPositionValid {
        // logged and ignored
      } else if !yPositionValid {
        // logged and ignored
      } else {
        grid[x, y] := updatedNode;
      }
      ghost var before := old(Snapshot());
      assert Snapshot() == if InRange(x, y) then before[Vector2Int(x, y) := updatedNode] else before;
    }

    /** The `(int, int)` overload of `UpdateCell`. */
    method UpdateCellByPair(xyPair: (int, int), updatedNode: PathNode)
      requires Valid()
      modifies grid
      ensures InRange(xyPair.0, xyPair.1) ==> GetCellByPair(xyPair) == updatedNode
      ensures Snapshot() == if InRange(xyPair.0, xyPair.1)
        then old(Snapshot())[Vector2Int(xyPair.0, xyPair.1) := updatedNode] else old(Snapshot())
    {
      UpdateCell(xyPair.0, xyPair.1, updatedNode);
    }

    /** The `Vector2Int` overload of `UpdateCell`. */
    method UpdateCellByVector(xyPair: Vector2Int, updatedNode: PathNode)
      requires Valid()
      modifies grid
      ensures InRange(xyPair.x, xyPair.y) ==> GetCell(xyPair.x, xyPair.y) == updatedNode
      ensures Snapshot() == if InRange(xyPair.x, xyPair.y)
        then old(Snapshot())[xyPair := updatedNode] else old(Snapshot())
    {
      UpdateCell(xyPair.x, xyPair.y, updatedNode);
    }
  }
}

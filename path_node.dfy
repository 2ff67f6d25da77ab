/** Value types of the path grid: positions, dictionary keys and the
    `PathNode` struct stored in every grid cell. */
module PathNodes {

  datatype Option<T> = None | Some(value: T)

  /** Unity's `Vector3`, with real components (rounding is not modelled). */
  datatype Vector3 = Vector3(x: real, y: real, z: real)
  {
    function Plus(other: Vector3): Vector3
    {
      Vector3(x + other.x, y + other.y, z + other.z)
    }
  }

  const Zero: Vector3 := Vector3(0.0, 0.0, 0.0)

  /** Unity's `Vector2Int`: the key type of the manager's node dictionary
      and of the tile walkability source. */
  datatype Vector2Int = Vector2Int(x: int, y: int)

  /** Stands for an `IPathAgent` reference (an interface with no members). */
  datatype AgentId = AgentId(id: int)

  /** The `PathNode` struct. `occupants` is `None` where the C# dictionary
      reference is null, as it is in `default(PathNode)`. */
  datatype PathNode = PathNode(
    index: (int, int),
    localPosition: Vector3,
    traversalCost: int,
    isWalkable: bool,
    occupants: Option<map<int, AgentId>>)

  /** `default(PathNode)`: every field zeroed, the occupant map null. */
  function Default(): PathNode
  {
    PathNode((0, 0), Zero, 0, false, None)
  }

  /** The `PathNode(bool defaultWalkability = true)` constructor, called with
      its argument. For a struct, `new PathNode()` gives `Default()` rather than
      running this constructor, so the declared default is not modelled. Its
      index (-1,-1) lies outside every grid, so such a node is never a default
      one. */
  function NewNode(defaultWalkability: bool): (n: PathNode)
    ensures n.index == (-1, -1) && n.localPosition == Zero && n.traversalCost == 0
    ensures n.isWalkable == defaultWalkability
    ensures n.occupants == Some(map[])
    ensures n != Default()
  {
    PathNode((-1, -1), Zero, 0, defaultWalkability, Some(map[]))
  }
}

/** Grid cells of the path finder: integer positions, the eight unit
    moves between them, and the TileNav cell whose identity is its
    position alone. */
module Tiles {

  /** An integer grid coordinate (Unity's Vector3Int). */
  datatype Pos = Pos(x: int, y: int, z: int)

  function Add(a: Pos, d: Pos): (p: Pos)
  {
    Pos(a.x + d.x, a.y + d.y, a.z + d.z)
  }

  /** The offset that leads from `a` to `b`. */
  function Delta(a: Pos, b: Pos): (d: Pos)
    ensures Add(a, d) == b
  {
    Pos(b.x - a.x, b.y - a.y, b.z - a.z)
  }

  /** The eight moves the search tries, in the order it tries them:
      up, down, left, right, then the four diagonals. All keep z. */
  const Directions: seq<Pos> :=
    [Pos(0, 1, 0), Pos(0, -1, 0), Pos(-1, 0, 0), Pos(1, 0, 0),
     Pos(-1, 1, 0), Pos(1, 1, 0), Pos(-1, -1, 0), Pos(1, -1, 0)]

  /** `b` is one of the eight neighbours of `a`: another cell on the same
      layer, at most one step away along x and along y. */
  predicate Adjacent(a: Pos, b: Pos)
  {
    a != b && a.z == b.z && -1 <= b.x - a.x <= 1 && -1 <= b.y - a.y <= 1
  }

  /** Cost of one move: a diagonal move (both x and y change) costs the
      single-precision literal 1.41421, any other move 1.0. */
  function StepCost(d: Pos): (c: real)
    ensures c == 1.0 || c == 1.41421
  {
    if d.x != 0 && d.y != 0 then 1.41421 else 1.0
  }

  lemma DirectionsAreDistinct()
    ensures |Directions| == 8
    ensures forall j, k :: 0 <= j < k < |Directions| ==> Directions[j] != Directions[k]
  {
  }

  /** Where `d` stands in Directions, or |Directions| when it is none of
      the eight moves. */
  function DirectionIndex(d: Pos): (k: nat)
    ensures k <= |Directions|
    ensures k < |Directions| ==> Directions[k] == d
    ensures k == |Directions| ==> d !in Directions
  {
    if d == Directions[0] then 0
    else if d == Directions[1] then 1
    else if d == Directions[2] then 2
    else if d == Directions[3] then 3
    else if d == Directions[4] then 4
    else if d == Directions[5] then 5
    else if d == Directions[6] then 6
    else if d == Directions[7] then 7
    else 8
  }

  /** Each move's index is its place in the table. */
  lemma DirectionIndexOfDirection(i: nat)
    requires i < |Directions|
    ensures DirectionIndex(Directions[i]) == i
  {
    DirectionsAreDistinct();
  }

  /** The first four moves are the cardinal ones and cost 1.0, the last
      four the diagonal ones and cost 1.41421. */
  lemma StepCosts(i: nat)
    requires i < |Directions|
    ensures i < 4 ==> StepCost(Directions[i]) == 1.0
    ensures 4 <= i ==> StepCost(Directions[i]) == 1.41421
  {
  }

  /** The eight moves of the table are exactly the ways to reach a
      neighbour. */
  lemma AdjacentIffDirection(a: Pos, b: Pos)
    ensures Adjacent(a, b) <==> Delta(a, b) in Directions
  {
    var d := Delta(a, b);
    if Adjacent(a, b) {
      if d.x == 0 {
        assert d == Directions[0] || d == Directions[1];
      } else if d.x == -1 {
        assert d == Directions[2] || d == Directions[4] || d == Directions[6];
      } else {
        assert d == Directions[3] || d == Directions[5] || d == Directions[7];
      }
    }
  }

  /** A navigable cell. Its position is fixed when it is built; whether it
      can be walked on and its movement cost may be reassigned later. */
  class TileNav {
    const position: Pos
    var isWalkable: bool
    var movementCost: real

    constructor (position: Pos, isWalkable: bool := true, movementCost: real := 1.0)
      ensures this.position == position
      ensures this.isWalkable == isWalkable && this.movementCost == movementCost
    {
      this.position := position;
      this.isWalkable := isWalkable;
      this.movementCost := movementCost;
    }

    /** Only another TileNav can be equal to a tile, and then exactly
        when it sits at the same position. Equals reads no mutable
        field: walkability and movement cost play no part. */
    predicate Equals(obj: object?)
    {
      obj != null && obj is TileNav && position == (obj as TileNav).position
    }

    /** The hash of a tile is the hash of its position; the position hash
        (Vector3Int's) is a parameter of the model. */
    function GetHashCode(positionHash: Pos -> int): (hash: int)
    {
      positionHash(position)
    }
  }

  lemma EqualsIsPositionEquality(a: TileNav, b: TileNav?)
    ensures a.Equals(b) <==> b != null && a.position == b.position
  {
  }

  lemma EqualsIsEquivalence(a: TileNav, b: TileNav, c: TileNav)
    ensures a.Equals(a)
    ensures a.Equals(b) ==> b.Equals(a)
    ensures a.Equals(b) && b.Equals(c) ==> a.Equals(c)
  {
  }

  lemma EqualTilesHashAlike(a: TileNav, b: TileNav, positionHash: Pos -> int)
    requires a.Equals(b)
    ensures a.GetHashCode(positionHash) == b.GetHashCode(positionHash)
  {
  }
}

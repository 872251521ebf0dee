/** The hexagonal grid the searches run over. Its implementation is not part of
    this model: every query the searches make of it is a field of HexGrid, so a
    search is verified for every grid that satisfies Valid(). */
module Grid {

  /** A tile coordinate (FIntPoint). */
  datatype Coord = Coord(x: int, y: int)

  /** The terrain element of a tile. The five named elements are the ones the
      colour masks know; every other enumerator is an OtherElement. */
  datatype ElementType =
    | Stone
    | Water
    | Vine
    | Fire
    | Lightning
    | OtherElement(tag: nat)

  /** What the grid stores per tile and the searches read (FTileData). */
  datatype TileData = TileData(topType: ElementType, height: int, blocked: bool)

  /** Step costs are positive; the searches assert this after every step. */
  type PosInt = n: int | n > 0 witness 1

  datatype HexGrid = HexGrid(
    tiles: set<Coord>,                                // the in-bounds coordinates
    tileData: Coord -> TileData,                      // GetTileData
    neighbors: Coord -> seq<Coord>,                   // GetNeighbors
    cost: (Coord, Coord) -> PosInt,                   // GetCost
    distance: (Coord, Coord) -> nat,                  // Distance (the A* heuristic)
    isPassable: (Coord, Coord) -> bool,               // IsPassable (the height rule)
    testTileElement: (Coord, ElementType) -> bool)    // TestTileElement
  {
    /** Neighbour enumeration only ever yields in-bounds coordinates. */
    ghost predicate Valid()
    {
      forall c, n :: n in neighbors(c) ==> n in tiles
    }
  }
}

/**
 * Tiles of the edge-matching puzzle.
 *
 * A tile is its four stored edge labels. The rotation a tile is placed under
 * lives in the placement (a board cell or a `Location`), never on the tile:
 * `Rotate` computes the rotated view as a pure function of the stored labels
 * and the requested rotation, so no search branch can observe the rotation
 * chosen by another one.
 */
module Tiles {

  /** The blank edge label: an edge that carries no connector. */
  const Pasture: string := "pasture"

  /** The stored labels of a tile, as read from the input, in the order N, E, S, W. */
  datatype Tile = Tile(north: string, east: string, south: string, west: string)

  /** The right-angle rotations a placement may carry, in degrees. */
  type Rotation = r: int | r == 0 || r == 90 || r == 180 || r == 270

  /** The order in which rotation search tries the rotations at one cell. */
  const AllRotations: seq<Rotation> := [0, 90, 180, 270]

  datatype Dir = North | East | South | West

  /** The label `t` shows on side `d`. */
  function Edge(t: Tile, d: Dir): string
  {
    match d
    case North => t.north
    case East => t.east
    case South => t.south
    case West => t.west
  }

  /** The side of a neighbour that faces side `d` of a tile. */
  function Opposite(d: Dir): Dir
  {
    match d
    case North => South
    case East => West
    case South => North
    case West => East
  }

  /** The side a label moves to when its tile turns a quarter clockwise. */
  function Clockwise(d: Dir): Dir
  {
    match d
    case North => East
    case East => South
    case South => West
    case West => North
  }

  /** `q` quarter turns clockwise applied to a side. */
  function ClockwiseBy(d: Dir, q: nat): Dir
    decreases q
  {
    if q == 0 then d else Clockwise(ClockwiseBy(d, q - 1))
  }

  /** The tile turned a quarter clockwise: the label that faced `d` faces `Clockwise(d)`. */
  function QuarterTurn(t: Tile): (u: Tile)
    ensures forall d :: Edge(u, Clockwise(d)) == Edge(t, d)
  {
    Tile(t.west, t.north, t.east, t.south)
  }

  /** The tile turned `q` quarters clockwise. */
  function Turns(t: Tile, q: nat): Tile
    decreases q
  {
    if q == 0 then t else QuarterTurn(Turns(t, q - 1))
  }

  /** The labels a tile shows when it is placed under rotation `r` (clockwise). */
  function Rotate(t: Tile, r: Rotation): Tile
  {
    Turns(t, r / 90)
  }

  /** Turning a tile moves each label by the same number of sides. */
  lemma {:induction false} TurnsMovesEdges(t: Tile, q: nat, d: Dir)
    ensures Edge(Turns(t, q), ClockwiseBy(d, q)) == Edge(t, d)
    decreases q
  {
    if q > 0 {
      TurnsMovesEdges(t, q - 1, d);
    }
  }

  /** Turning a tile `a` quarters and then `b` quarters turns it `a + b` quarters. */
  lemma {:induction false} TurnsAdd(t: Tile, a: nat, b: nat)
    ensures Turns(Turns(t, a), b) == Turns(t, a + b)
    decreases b
  {
    if b > 0 {
      TurnsAdd(t, a, b - 1);
    }
  }

  /** Four quarter turns give the tile back; the calculation unfolds `Turns` step by step for the reader. */
  lemma FullTurn(t: Tile)
    ensures Turns(t, 4) == t
  {
    calc {
      Turns(t, 4);
      QuarterTurn(QuarterTurn(Turns(t, 2)));
      QuarterTurn(QuarterTurn(QuarterTurn(QuarterTurn(t))));
    }
  }

  /** Only the number of quarter turns modulo four matters. */
  lemma {:induction false} TurnsModFour(t: Tile, q: nat)
    ensures Turns(t, q) == Turns(t, q % 4)
    decreases q
  {
    if q >= 4 {
      calc {
        Turns(t, q);
        { TurnsAdd(t, 4, q - 4); }
        Turns(Turns(t, 4), q - 4);
        { FullTurn(t); }
        Turns(t, q - 4);
        { TurnsModFour(t, q - 4); }
        Turns(t, (q - 4) % 4);
      }
    }
  }

  /** Rotating a rotated view composes the rotations, modulo a full turn. */
  lemma RotateCompose(t: Tile, a: Rotation, b: Rotation)
    ensures Rotate(Rotate(t, a), b) == Rotate(t, (a + b) % 360)
  {
    TurnsAdd(t, a / 90, b / 90);
    TurnsModFour(t, a / 90 + b / 90);
  }

  /** Every rotation can be undone by the complementary one. */
  lemma RotateInverse(t: Tile, r: Rotation)
    ensures Rotate(Rotate(t, r), (360 - r) % 360) == t
  {
    RotateCompose(t, r, (360 - r) % 360);
  }

  /** The label shown on side `ClockwiseBy(d, r / 90)` of the rotated view is the stored label of side `d`. */
  lemma RotateMovesEdges(t: Tile, r: Rotation, d: Dir)
    ensures Edge(Rotate(t, r), ClockwiseBy(d, r / 90)) == Edge(t, d)
  {
    TurnsMovesEdges(t, r / 90, d);
  }

  /** A neighbour's facing side is the side two quarter turns away. */
  lemma OppositeIsHalfTurn(d: Dir)
    ensures Opposite(d) == ClockwiseBy(d, 2) && Opposite(Opposite(d)) == d
  {
  }
}

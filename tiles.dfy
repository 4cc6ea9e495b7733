/** A single tile of the board: its grid coordinates, its colour and the icon
    segment (tier) it currently shows, together with the index of its sprite
    in the sprite sheet that holds `IconCount` icons per colour. */
module Tiles {

  /** Integer grid coordinates (Unity's Vector2Int): `x` is the column, `y` the row. */
  datatype Coord = Coord(x: int, y: int)

  /** The four icons drawn for each colour, in sprite-sheet order. */
  datatype TileSegment = DefaultIcon | FirstIcon | SecondIcon | ThirdIcon
  {
    /** The enum's integer value. */
    function Index(): (n: nat)
      ensures n < IconCount
    {
      match this
      case DefaultIcon => 0
      case FirstIcon => 1
      case SecondIcon => 2
      case ThirdIcon => 3
    }
  }

  /** Number of icons in the sprite sheet for each colour. */
  const IconCount := 4

  /** The value of a tile at one moment: what the board rules look at. */
  datatype TileState = TileState(coordinates: Coord, color: nat, segment: TileSegment)

  /** Position of the sprite for `color` drawn with `segment` in the whole sprite list. */
  function SpriteIndex(color: nat, segment: TileSegment): nat
  {
    color * IconCount + segment.Index()
  }

  /** The sprite index splits back into its colour and its segment. */
  lemma SpriteIndexDecodes(color: nat, segment: TileSegment)
    ensures SpriteIndex(color, segment) / IconCount == color
    ensures SpriteIndex(color, segment) % IconCount == segment.Index()
  {
  }

  /** The four segments have four different indices. */
  lemma SegmentIndexInjective(s: TileSegment, t: TileSegment)
    ensures s.Index() == t.Index() <==> s == t
  {
  }

  /** Distinct (colour, segment) pairs never share a sprite. */
  lemma {:induction false} SpriteIndexInjective(c1: nat, s1: TileSegment, c2: nat, s2: TileSegment)
    ensures SpriteIndex(c1, s1) == SpriteIndex(c2, s2) <==> c1 == c2 && s1 == s2
  {
    SpriteIndexDecodes(c1, s1);
    SpriteIndexDecodes(c2, s2);
    SegmentIndexInjective(s1, s2);
  }

  /** A colour below `colorCount` selects a sprite inside a sheet of `colorCount * IconCount` sprites. */
  lemma SpriteIndexBound(color: nat, segment: TileSegment, colorCount: nat)
    requires color < colorCount
    ensures SpriteIndex(color, segment) < colorCount * IconCount
  {
  }

  class Tile {
    /** Fixed at construction: nothing in this model moves a tile. */
    const coordinates: Coord
    var color: nat
    var segment: TileSegment

    /** The colour the tile was created with. Nothing in the game reads it; it lets a
        contract name the board just after a spawn once a later shuffle has recoloured it. */
    ghost const spawnColor: nat

    /** A tile at `coordinates` with a random colour below `colorCount` and the default icon.
        The body is `RandomColor` with its draw kept as `spawnColor`. */
    constructor (coordinates: Coord, colorCount: int)
      requires colorCount >= 1
      ensures this.coordinates == coordinates
      ensures color == spawnColor && color < colorCount && segment == DefaultIcon
    {
      this.coordinates := coordinates;
      segment := DefaultIcon;
      var rnd := RandomRange(colorCount);
      color := rnd;
      spawnColor := rnd;
    }

    function State(): TileState
      reads this
    {
      TileState(coordinates, color, segment)
    }

    /** Index of this tile's sprite in the whole sprite list. */
    function TileIndex(): (n: nat)
      reads this
      ensures n / IconCount == color && n % IconCount == segment.Index()
    {
      SpriteIndexDecodes(color, segment);
      SpriteIndex(color, segment)
    }

    /** Gives the tile a random colour in [0, colorCount) and resets its icon to the default one. */
    method RandomColor(colorCount: int)
      requires colorCount >= 1
      modifies this
      ensures segment == DefaultIcon && color < colorCount
    {
      segment := DefaultIcon;
      color := RandomRange(colorCount);
    }

    /** Random.Range(0, n) on integers: any value in [0, n), the upper bound excluded. */
    static method RandomRange(n: int) returns (rnd: nat)
      requires n >= 1
      ensures rnd < n
    {
      rnd :| 0 <= rnd < n;
    }
  }
}

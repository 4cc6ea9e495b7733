/** The board engine: the list of tiles on the board, the flood fill that finds a
    tile's same-colour group, the deadlock test, the shuffle, the icon tiers and
    the removal and refill that follow a click. Every step runs at once and in
    order; the frame delays between them belong to the animation. */
module Manager {
  import opened Tiles
  import opened Lists
  import opened Board

  /** The manager keeps a fixed array of this many column spawn points. */
  const SpawnPointCount := 10

  /** What a click did: nothing (a group of one), or cleared and refilled a group, leaving
      the board `settled` (not deadlocked) unless the shuffle ran out of rounds. */
  datatype ClickOutcome = NoOp | Cleared(settled: bool)

  /** The states of the tiles `ts`, in order. */
  ghost function States(ts: seq<Tile>): (b: seq<TileState>)
    reads ts
    ensures |b| == |ts|
    ensures forall i {:trigger b[i]} :: 0 <= i < |ts| ==> b[i] == ts[i].State()
  {
    if ts == [] then [] else [ts[0].State()] + States(ts[1..])
  }

  /** The coordinates of the tiles `ts`, in order (coordinates never change, so this reads nothing). */
  function Places(ts: seq<Tile>): (r: seq<Coord>)
    ensures |r| == |ts| && forall i :: 0 <= i < |ts| ==> r[i] == ts[i].coordinates
  {
    seq(|ts|, i requires 0 <= i < |ts| => ts[i].coordinates)
  }

  /** The places of two runs of tiles, one after the other. */
  lemma PlacesConcat(a: seq<Tile>, b: seq<Tile>)
    ensures Places(a + b) == Places(a) + Places(b)
  {
  }

  /** Appending the tile spawned at `coordinates[i]` extends the places by it. */
  lemma PlacesAppend(ts: seq<Tile>, t: Tile, coordinates: seq<Coord>, i: nat)
    requires i < |coordinates| && Places(ts) == coordinates[..i] && t.coordinates == coordinates[i]
    ensures Places(ts + [t]) == coordinates[..i + 1]
  {
    assert coordinates[..i + 1] == coordinates[..i] + [coordinates[i]];
    assert Places(ts + [t]) == Places(ts) + [t.coordinates];
  }

  /** Each of the tiles `ts` as it stood when spawned: its place, its first colour and the
      default icon (places and first colours never change, so this reads nothing). */
  ghost function Spawned(ts: seq<Tile>): (r: seq<TileState>)
    ensures |r| == |ts|
  {
    if ts == [] then [] else Spawned(ts[..|ts| - 1]) + [TileState(ts[|ts| - 1].coordinates, ts[|ts| - 1].spawnColor, DefaultIcon)]
  }

  /** Entry i of `Spawned(ts)` is tile i in its place and first colour, with the default icon. */
  lemma {:induction false} SpawnedAt(ts: seq<Tile>, i: nat)
    requires i < |ts|
    ensures Spawned(ts)[i] == TileState(ts[i].coordinates, ts[i].spawnColor, DefaultIcon)
  {
    if i < |ts| - 1 {
      SpawnedAt(ts[..|ts| - 1], i);
    }
  }

  /** One more spawned tile extends the trace of a run of spawns by the board it was
      appended to. */
  lemma SpawnedStep(start: seq<TileState>, added: seq<Tile>, boards: seq<seq<TileState>>, cur: seq<TileState>,
                    tile: Tile, appended: seq<TileState>, next: seq<TileState>)
    requires SpawnTrace(start, Spawned(added), boards, cur)
    requires appended == cur + [TileState(tile.coordinates, tile.spawnColor, DefaultIcon)]
    requires |next| == |appended| && (!Deadlocked(appended) ==> SameLayout(next, appended))
    ensures SpawnTrace(start, Spawned(added + [tile]), boards + [appended], next)
  {
    SpawnStep(start, Spawned(added), boards, cur, TileState(tile.coordinates, tile.spawnColor, DefaultIcon), appended, next);
    assert (added + [tile])[..|added|] == added;
  }

  class TileManager {
    /** The tiles on the board (each stands for its tile controller). */
    var tiles: seq<Tile>

    const row: int
    const column: int
    const colorCount: int
    const conditionA: int
    const conditionB: int
    const conditionC: int

    /** The configuration is usable, no tile is listed twice, every colour is one of the
        `colorCount` colours and every tile stands in a column that has a spawn point. */
    ghost predicate Valid()
      reads this, tiles
    {
      && 0 <= row && 0 <= column <= SpawnPointCount && 1 <= colorCount
      && Distinct(tiles)
      && forall i :: 0 <= i < |tiles| ==> tiles[i].color < colorCount && 0 <= tiles[i].coordinates.x < column
    }

    /** The board as values. */
    ghost function Snapshot(): (b: seq<TileState>)
      reads this, tiles
      ensures |b| == |tiles|
    {
      States(tiles)
    }

    /** The board after tiles were spawned: `settled` says whether some group can be
        cleared (false only when the shuffle gave up), and every tile shows its tier. */
    ghost predicate Settled(settled: bool)
      reads this, tiles
    {
      (settled <==> !Deadlocked(Snapshot())) && Tiered(Snapshot(), conditionA, conditionB, conditionC)
    }

    /** The last `count` tiles were spawned, as `spawned`, by a run of spawns that went
        through `boards` from the board `survivors` to the board as it is now. */
    ghost predicate Respawned(survivors: seq<TileState>, count: nat, spawned: seq<TileState>,
                              boards: seq<seq<TileState>>)
      reads this, tiles
    {
      && count <= |tiles| && spawned == Spawned(tiles[|tiles| - count..])
      && SpawnTrace(survivors, spawned, boards, Snapshot())
    }

    /** The board once the tiles at the positions `group` of `before` were removed and as
        many new ones spawned: the other tiles in their order, then one tile at the place of
        each removed tile, in the order of `group`. */
    ghost predicate Refilled(before: seq<Tile>, group: seq<nat>)
      reads this
      requires forall p :: 0 <= p < |group| ==> group[p] < |before|
    {
      && |tiles| == |before| && |group| <= |tiles|
      && Extended(Without(before, Pick(before, group)), Places(Pick(before, group)))
    }

    /** The board is `before` followed by one new tile at each of `coordinates`, in order. */
    ghost predicate Extended(before: seq<Tile>, coordinates: seq<Coord>)
      reads this
    {
      && |tiles| == |before| + |coordinates|
      && tiles[..|before|] == before && Places(tiles[|before|..]) == coordinates
    }

    /** An empty board with the given size, colour count and tier thresholds
        (the defaults are 10 rows, 10 columns, 6 colours and thresholds 4, 7 and 9). */
    constructor (row: int, column: int, colorCount: int, conditionA: int, conditionB: int, conditionC: int)
      requires 0 <= row && 0 <= column <= SpawnPointCount && 1 <= colorCount
      ensures Valid() && tiles == []
      ensures this.row == row && this.column == column && this.colorCount == colorCount
      ensures this.conditionA == conditionA && this.conditionB == conditionB && this.conditionC == conditionC
    {
      this.row := row;
      this.column := column;
      this.colorCount := colorCount;
      this.conditionA := conditionA;
      this.conditionB := conditionB;
      this.conditionC := conditionC;
      tiles := [];
    }

    /** Fills the board row by row, one new tile for every (column j, row i) with j < column
        and i < row, then shuffles if it is deadlocked and assigns the icons. */
    method GenearateTiles(maxRounds: nat) returns (settled: bool)
      requires Valid() && maxRounds >= 1
      modifies this, tiles
      ensures Valid()
      ensures |tiles| == old(|tiles|) + row * column && tiles[..old(|tiles|)] == old(tiles)
      ensures Places(tiles[old(|tiles|)..]) == GridCoords(row, column)
      ensures forall q :: old(|tiles|) <= q < |tiles| ==> fresh(tiles[q])
      ensures Settled(settled)
    {
      ghost var added: seq<Tile> := [];
      for i := 0 to row
        invariant Valid() && tiles == old(tiles) + added
        invariant Places(added) == GridCoords(i, column) && forall q :: 0 <= q < |added| ==> fresh(added[q])
      {
        ghost var before := tiles;
        FillRow(i);
        ghost var addedRow := tiles[|before|..];
        PlacesConcat(added, addedRow);
        assert GridCoords(i + 1, column) == GridCoords(i, column) + RowCoords(i, column);
        added := added + addedRow;
        assert tiles == before + addedRow;
      }
      assert tiles[old(|tiles|)..] == added;
      settled := Settle(maxRounds);
    }

    /** The inner loop of the first fill: one new random tile in every column j of row `y`,
        from left to right. */
    method FillRow(y: int)
      requires Valid()
      modifies this
      ensures Valid() && |tiles| == old(|tiles|) + column && tiles[..old(|tiles|)] == old(tiles)
      ensures Places(tiles[old(|tiles|)..]) == RowCoords(y, column)
      ensures forall q :: old(|tiles|) <= q < |tiles| ==> fresh(tiles[q])
    {
      ghost var added: seq<Tile> := [];
      for j := 0 to column
        invariant Valid() && tiles == old(tiles) + added
        invariant Places(added) == RowCoords(y, column)[..j]
        invariant forall q :: 0 <= q < |added| ==> fresh(added[q])
      {
        var tile := new Tile(Coord(j, y), colorCount);
        tiles := tiles + [tile];
        added := added + [tile];
        assert Places(added) == Places(added[..|added| - 1]) + [Coord(j, y)];
      }
      assert tiles[old(|tiles|)..] == added;
    }

    /** Flood fill from tile `current`: appends to `found`, in board order, every same-colour
        orthogonal neighbour of `current` not yet listed, each followed at once by the fill
        from it. Only appends, never lists a tile twice, and stops because every recursive
        call starts with one more tile listed. */
    method GetSameColorTiles(current: nat, found: seq<nat>) returns (r: seq<nat>)
      requires Valid() && current < |tiles|
      ensures Filled(Snapshot(), current, found, r)
      decreases Unlisted(|tiles|, found)
    {
      ghost var b := Snapshot();
      r := found;
      var tc := tiles[current];
      for k := 0 to |tiles|
        invariant FillProgress(b, current, found, r, k)
      {
        var t := tiles[k];
        assert b[k] == t.State() && b[current] == tc.State();
        OffsetMatchIsAdjacent(t.coordinates, tc.coordinates);
        if OffsetMatch(t.coordinates, tc.coordinates) && t.color == tc.color {
          if k in r {
            FillSkip(b, current, found, r, k);
            continue;
          }
          UnlistedShrinks(|tiles|, found, r, k);
          ghost var before := r;
          r := r + [k];
          r := GetSameColorTiles(k, r);
          FillAppend(b, current, found, before, k, r);
        } else {
          FillSkip(b, current, found, r, k);
        }
      }
      FillDone(b, current, found, r);
    }

    /** The group of tile `k`: a list seeded with `k` and grown by the flood fill from it. */
    method SameColorGroup(k: nat) returns (group: seq<nat>)
      requires Valid() && k < |tiles|
      ensures ListsGroup(Snapshot(), k, group)
      ensures |group| == |Component(Snapshot(), k)|
    {
      group := GetSameColorTiles(k, [k]);
      SeededFillIsComponent(Snapshot(), k, group);
    }

    /** True exactly when no tile's group has more than one tile. */
    method IsDeadlock() returns (deadlocked: bool)
      requires Valid()
      ensures deadlocked <==> forall i :: 0 <= i < |tiles| ==> |Component(Snapshot(), i)| == 1
      ensures deadlocked <==> Deadlocked(Snapshot())
    {
      ghost var b := Snapshot();
      DeadlockIffSingletons(b);
      for k := 0 to |tiles|
        invariant forall i :: 0 <= i < k ==> |Component(b, i)| == 1
      {
        var sameColorNeighborTiles := SameColorGroup(k);
        if |sameColorNeighborTiles| > 1 {
          return false;
        }
      }
      return true;
    }

    /** One pass of the shuffle: every tile gets a new random colour and the default icon. */
    method RecolorAll()
      requires Valid()
      modifies tiles
      ensures Valid()
      ensures forall i :: 0 <= i < |tiles| ==>
        tiles[i].segment == DefaultIcon
    {
      for k := 0 to |tiles|
        invariant forall i :: 0 <= i < k ==>
          tiles[i].segment == DefaultIcon && tiles[i].color < colorCount
        invariant forall i :: k <= i < |tiles| ==> tiles[i].State() == old(tiles[i].State())
      {
        tiles[k].RandomColor(colorCount);
      }
    }

    /** Recolours every tile, again and again until the board is not deadlocked. Each round
        overwrites only colours and icons: the list of tiles and their places stay. */
    method ShuffleBoard(maxRounds: nat) returns (solved: bool)
      requires Valid() && maxRounds >= 1
      modifies tiles
      ensures Valid()
      ensures forall i :: 0 <= i < |tiles| ==>
        tiles[i].segment == DefaultIcon
      ensures solved <==> !Deadlocked(Snapshot())
      ensures SamePlaces(Snapshot(), old(Snapshot()))
      ensures Isolated(old(Snapshot())) ==> !solved
    {
      var deadlocked := true;
      var round := 0;
      while deadlocked && round < maxRounds
        invariant Valid() && round <= maxRounds
        invariant round == 0 ==> deadlocked
        invariant round > 0 ==> (forall i :: 0 <= i < |tiles| ==> tiles[i].segment == DefaultIcon)
        invariant round > 0 ==> (deadlocked <==> Deadlocked(Snapshot()))
        decreases maxRounds - round
      {
        RecolorAll();
        deadlocked := IsDeadlock();
        round := round + 1;
      }
      solved := !deadlocked;
      if Isolated(old(Snapshot())) {
        IsolatedStaysDeadlocked(old(Snapshot()), Snapshot());
      }
    }

    /** Gives every tile listed in `group` the icon `segment`; nothing else changes. */
    method SetIconsBySegment(group: seq<nat>, segment: TileSegment)
      requires Valid() && forall p :: 0 <= p < |group| ==> group[p] < |tiles|
      modifies tiles
      ensures Valid() && SameLayout(Snapshot(), old(Snapshot()))
      ensures forall i :: 0 <= i < |tiles| ==>
        Snapshot()[i].segment == if i in group then segment else old(Snapshot()[i].segment)
    {
      for p := 0 to |group|
        invariant forall i :: 0 <= i < |tiles| ==>
          tiles[i].color == old(tiles[i].color)
        invariant forall i :: 0 <= i < |tiles| ==>
          tiles[i].segment == if i in group[..p] then segment else old(tiles[i].segment)
      {
        tiles[group[p]].segment := segment;
        assert group[..p + 1] == group[..p] + [group[p]];
      }
      assert group[..|group|] == group;
    }

    /** Gives every tile the icon for the size of its group, computing each group once:
        the tiles of a group already handled are skipped. */
    method ReassignIcons()
      requires Valid()
      modifies tiles
      ensures Valid() && SameLayout(Snapshot(), old(Snapshot()))
      ensures Tiered(Snapshot(), conditionA, conditionB, conditionC)
    {
      ghost var b0 := Snapshot();
      var checkedTiles: seq<nat> := [];
      for k := 0 to |tiles|
        invariant Valid() && IconsProgress(Snapshot(), b0, checkedTiles, k, conditionA, conditionB, conditionC)
      {
        if k in checkedTiles {
          IconsSkip(Snapshot(), b0, checkedTiles, k, conditionA, conditionB, conditionC);
          continue;
        }
        ghost var b := Snapshot();
        var sameColorNeighborTiles := SameColorGroup(k);
        SetIconsBySegment(sameColorNeighborTiles, SegmentFor(|sameColorNeighborTiles|, conditionA, conditionB, conditionC));
        IconsStep(b0, b, Snapshot(), checkedTiles, sameColorNeighborTiles, k, conditionA, conditionB, conditionC);
        checkedTiles := checkedTiles + sameColorNeighborTiles;
      }
      IconsMatchTiered(Snapshot(), b0, checkedTiles, conditionA, conditionB, conditionC);
    }

    /** What both ways of spawning tiles do once the tiles are in place: recolour the whole
        board while it is deadlocked, then give every tile the icon of its group's tier. */
    method Settle(maxRounds: nat) returns (settled: bool)
      requires Valid() && maxRounds >= 1
      modifies tiles
      ensures Valid()
      ensures Settled(settled)
      ensures !old(Deadlocked(Snapshot())) ==> settled && SameLayout(Snapshot(), old(Snapshot()))
      ensures Isolated(old(Snapshot())) ==> !settled
    {
      var deadlocked := IsDeadlock();
      settled := !deadlocked;
      if deadlocked {
        settled := ShuffleBoard(maxRounds);
      }
      label BeforeIcons:
      ReassignIcons();
      LayoutDeadlocked(Snapshot(), old@BeforeIcons(Snapshot()));
    }

    /** Spawns a new random tile at `coordinates` (at the top of its column), then shuffles
        if the board is deadlocked and reassigns the icons. */
    method GenearateTileAtColumn(coordinates: Coord, maxRounds: nat)
      returns (settled: bool, ghost tile: Tile, ghost appended: seq<TileState>)
      requires Valid() && maxRounds >= 1 && 0 <= coordinates.x < column
      modifies this, tiles
      ensures Valid() && Settled(settled)
      ensures tiles == old(tiles) + [tile] && fresh(tile) && tile.coordinates == coordinates
      ensures tile.spawnColor < colorCount
      ensures appended == old(Snapshot()) + [TileState(coordinates, tile.spawnColor, DefaultIcon)]
      ensures !Deadlocked(appended) ==> settled && SameLayout(Snapshot(), appended)
    {
      var t := new Tile(coordinates, colorCount);
      tile := t;
      tiles := tiles + [t];
      appended := Snapshot();
      assert appended == old(Snapshot()) + [t.State()];
      settled := Settle(maxRounds);
    }

    /** List.Remove for every tile of `group`, in turn: the board keeps the other tiles,
        in their order. */
    method RemoveGroup(group: seq<nat>)
      requires Valid()
      requires Distinct(group) && forall p :: 0 <= p < |group| ==> group[p] < |tiles|
      modifies this
      ensures Valid() && tiles == Without(old(tiles), Pick(old(tiles), group))
      ensures |tiles| == old(|tiles|) - |group| && forall q :: 0 <= q < |tiles| ==> tiles[q] in old(tiles)
    {
      var groupTiles := Pick(tiles, group);
      PickDistinct(tiles, group);
      ghost var t0 := tiles;
      WithoutNothing(t0);
      for i := 0 to |groupTiles|
        invariant forall j :: 0 <= j < |t0| ==> t0[j].color < colorCount && 0 <= t0[j].coordinates.x < column
        invariant tiles == Without(t0, groupTiles[..i]) && |tiles| == |t0| - i
      {
        assert groupTiles[i] == t0[group[i]];
        RemoveNext(t0, groupTiles, i);
        tiles := RemoveFirst(tiles, groupTiles[i]);
      }
      assert groupTiles[..|groupTiles|] == groupTiles;
      forall q | 0 <= q < |tiles| ensures tiles[q].color < colorCount && 0 <= tiles[q].coordinates.x < column {
        assert tiles[q] in t0;
      }
    }

    /** GenearateTileAtColumn for each of `coordinates`, in order: the board keeps its
        tiles, none of which moves, and gains one fresh tile per entry, at that entry. */
    method SpawnTiles(coordinates: seq<Coord>, maxRounds: nat)
      returns (settled: bool, ghost spawned: seq<TileState>, ghost boards: seq<seq<TileState>>)
      requires Valid() && maxRounds >= 1
      requires forall p :: 0 <= p < |coordinates| ==> 0 <= coordinates[p].x < column
      modifies this, tiles
      ensures Valid()
      ensures Extended(old(tiles), coordinates)
      ensures forall q :: old(|tiles|) <= q < |tiles| ==> fresh(tiles[q])
      ensures |coordinates| > 0 ==> Settled(settled)
      ensures Respawned(old(Snapshot()), |coordinates|, spawned, boards)
    {
      settled := true;
      ghost var b0 := Snapshot();
      ghost var added: seq<Tile> := [];
      boards := [];
      for i := 0 to |coordinates|
        invariant Valid() && tiles == old(tiles) + added
        invariant Places(added) == coordinates[..i] && fresh(added)
        invariant i > 0 ==> Settled(settled)
        invariant SpawnTrace(b0, Spawned(added), boards, Snapshot()) && |boards| == i
      {
        ghost var cur := Snapshot();
        ghost var tile, appended;
        settled, tile, appended := GenearateTileAtColumn(coordinates[i], maxRounds);
        SpawnedStep(b0, added, boards, cur, tile, appended, Snapshot());
        boards := boards + [appended];
        PlacesAppend(added, tile, coordinates, i);
        AppendLast(old(tiles), added, tile);
        added := added + [tile];
      }
      assert tiles[old(|tiles|)..] == added;
      spawned := Spawned(added);
    }

    /** Removes the tiles of `group` and spawns one new tile at each removed tile's
        coordinates, in the order of `group`. The coordinates are copied before anything is
        removed; the surviving tiles keep their order. `survivors` names the states of the
        tiles that stay. */
    method ClearAndGenerateTiles(group: seq<nat>, maxRounds: nat, ghost survivors: seq<TileState>)
      returns (settled: bool, ghost spawned: seq<TileState>, ghost boards: seq<seq<TileState>>)
      requires Valid() && maxRounds >= 1
      requires Distinct(group) && forall p :: 0 <= p < |group| ==> group[p] < |tiles|
      requires survivors == States(Without(tiles, Pick(tiles, group)))
      modifies this, tiles
      ensures Valid() && Refilled(old(tiles), group)
      ensures forall q :: |tiles| - |group| <= q < |tiles| ==> fresh(tiles[q])
      ensures |group| > 0 ==> Settled(settled)
      ensures Respawned(survivors, |group|, spawned, boards)
    {
      var newTilesCoordinates := GroupCoordinates(group);
      var places := newTilesCoordinates[..];
      RemoveGroup(group);
      assert Snapshot() == survivors;
      settled, spawned, boards := SpawnTiles(places, maxRounds);
    }

    /** The coordinates of the tiles of `group`, copied into a new array in the order of `group`. */
    method GroupCoordinates(group: seq<nat>) returns (coords: array<Coord>)
      requires forall p :: 0 <= p < |group| ==> group[p] < |tiles|
      ensures fresh(coords) && coords[..] == Places(Pick(tiles, group))
    {
      coords := new Coord[|group|];
      for i := 0 to |group|
        modifies coords
        invariant forall p :: 0 <= p < i ==> coords[p] == tiles[group[p]].coordinates
      {
        coords[i] := tiles[group[i]].coordinates;
      }
    }

    /** A click on tile `tileController`: its same-colour group is flood-filled from it and,
        when the group holds more than the clicked tile, cleared and refilled; a lone tile
        leaves the board as it is. `group` is the group the fill found. */
    method TileClicked(tileController: nat, maxRounds: nat)
      returns (outcome: ClickOutcome, ghost group: seq<nat>, ghost spawned: seq<TileState>, ghost boards: seq<seq<TileState>>)
      requires Valid() && tileController < |tiles| && maxRounds >= 1
      modifies this, tiles
      ensures Valid() && |tiles| == old(|tiles|)
      ensures ListsGroup(old(Snapshot()), tileController, group)
      ensures outcome == NoOp <==> |group| == 1
      ensures outcome == NoOp ==> tiles == old(tiles) && unchanged(tiles)
      ensures outcome.Cleared? ==> Refilled(old(tiles), group)
      ensures outcome.Cleared? ==> forall q :: |tiles| - |group| <= q < |tiles| ==> fresh(tiles[q])
      ensures outcome.Cleared? ==> Settled(outcome.settled)
      ensures outcome == NoOp ==> spawned == [] && boards == []
      ensures outcome.Cleared? ==> Respawned(old(States(Without(tiles, Pick(tiles, group)))), |group|, spawned, boards)
    {
      ghost var b := Snapshot();
      var sameColorNeighborTiles := SameColorGroup(tileController);
      assert tiles == old(tiles) && Snapshot() == b;
      group := sameColorNeighborTiles;
      if |sameColorNeighborTiles| > 1 {
        ghost var survivors := States(Without(tiles, Pick(tiles, group)));
        assert survivors == old(States(Without(tiles, Pick(tiles, group))));
        var settled;
        settled, spawned, boards := ClearAndGenerateTiles(sameColorNeighborTiles, maxRounds, survivors);
        outcome := Cleared(settled);
      } else {
        outcome := NoOp;
        spawned, boards := [], [];
      }
    }
  }
}

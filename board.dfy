/** The rules of the board, on values: which tiles touch, the same-colour groups
    (4-connected components), the deadlock condition, the icon tier of a group and
    the order in which the board is first filled. A board is a sequence of tile
    states; a tile is named by its position in that sequence. */
module Board {
  import opened Tiles
  import opened Lists

  function Abs(n: int): nat
  {
    if n < 0 then -n else n
  }

  /** One step up, down, left or right; diagonal neighbours and the cell itself are not adjacent. */
  predicate Adjacent(a: Coord, b: Coord)
  {
    Abs(a.x - b.x) + Abs(a.y - b.y) == 1
  }

  /** The neighbour test of the flood fill: some offset (i, j) in {-1, 0, 1} x {-1, 0, 1},
      other than (0, 0) and the four diagonal ones, moves `t` (row by i, column by j) onto `tc`. */
  predicate OffsetMatch(t: Coord, tc: Coord)
  {
    exists i, j | -1 <= i <= 1 && -1 <= j <= 1 ::
      !(i == 0 && j == 0) && !(Abs(i) == 1 && Abs(j) == 1) && t.y + i == tc.y && t.x + j == tc.x
  }

  /** The offset loops find exactly the orthogonal neighbours. */
  lemma OffsetMatchIsAdjacent(t: Coord, tc: Coord)
    ensures OffsetMatch(t, tc) <==> Adjacent(t, tc)
  {
    if Adjacent(t, tc) {
      var i, j := tc.y - t.y, tc.x - t.x;
      assert Abs(t.x - tc.x) == Abs(j) && Abs(t.y - tc.y) == Abs(i);
      assert !(i == 0 && j == 0) && !(Abs(i) == 1 && Abs(j) == 1) && t.y + i == tc.y && t.x + j == tc.x;
    }
    if OffsetMatch(t, tc) {
      var i, j :| -1 <= i <= 1 && -1 <= j <= 1 &&
        !(i == 0 && j == 0) && !(Abs(i) == 1 && Abs(j) == 1) && t.y + i == tc.y && t.x + j == tc.x;
      assert Abs(t.x - tc.x) == Abs(j) && Abs(t.y - tc.y) == Abs(i);
    }
  }

  /** Tiles `i` and `j` are on the board, have one colour and are orthogonal neighbours. */
  predicate Linked(b: seq<TileState>, i: int, j: int)
  {
    0 <= i < |b| && 0 <= j < |b| && b[i].color == b[j].color
    && Adjacent(b[i].coordinates, b[j].coordinates)
  }

  lemma LinkedSymmetric(b: seq<TileState>, i: int, j: int)
    ensures Linked(b, i, j) <==> Linked(b, j, i)
  {
  }

  /** A walk over the board that only steps between linked tiles. */
  ghost predicate IsPath(b: seq<TileState>, p: seq<nat>)
  {
    && |p| >= 1
    && (forall k :: 0 <= k < |p| ==> p[k] < |b|)
    && (forall k :: 0 <= k < |p| - 1 ==> Linked(b, p[k], p[k + 1]))
  }

  ghost predicate Reachable(b: seq<TileState>, i: nat, j: nat)
  {
    exists p :: IsPath(b, p) && p[0] == i && p[|p| - 1] == j
  }

  /** The group of tile `i`: every tile a same-colour orthogonal walk reaches from it. */
  ghost function Component(b: seq<TileState>, i: nat): set<nat>
  {
    set j: nat | j < |b| && Reachable(b, i, j)
  }

  /** `group` lists the group of tile `k` on board `b`: `k` first, then the other members,
      each once. */
  ghost predicate ListsGroup(b: seq<TileState>, k: nat, group: seq<nat>)
  {
    && |group| > 0 && group[0] == k && Distinct(group)
    && (forall p :: 0 <= p < |group| ==> group[p] < |b|)
    && (forall j :: j in group <==> j in Component(b, k))
  }

  /** No tile of `s` has a same-colour neighbour outside `s`. */
  ghost predicate Closed(b: seq<TileState>, s: set<nat>)
  {
    forall a: nat, m: nat :: a in s && Linked(b, a, m) ==> m in s
  }

  lemma SeedInComponent(b: seq<TileState>, i: nat)
    requires i < |b|
    ensures i in Component(b, i)
  {
    assert IsPath(b, [i]);
  }

  /** A group holds every same-colour neighbour of its members. */
  lemma ComponentClosed(b: seq<TileState>, i: nat)
    ensures Closed(b, Component(b, i))
  {
    forall a: nat, m: nat | a in Component(b, i) && Linked(b, a, m)
      ensures m in Component(b, i)
    {
      var p :| IsPath(b, p) && p[0] == i && p[|p| - 1] == a;
      var q := p + [m];
      forall k | 0 <= k < |q| - 1 ensures Linked(b, q[k], q[k + 1]) {
        if k + 1 < |p| {
          assert q[k] == p[k] && q[k + 1] == p[k + 1];
        }
      }
      assert IsPath(b, q);
    }
  }

  lemma {:induction false} PathEndInClosed(b: seq<TileState>, s: set<nat>, p: seq<nat>)
    requires Closed(b, s) && IsPath(b, p) && p[0] in s
    ensures p[|p| - 1] in s
  {
    if |p| > 1 {
      var p' := p[..|p| - 1];
      assert IsPath(b, p');
      PathEndInClosed(b, s, p');
      assert Linked(b, p[|p| - 2], p[|p| - 1]);
    }
  }

  /** A group lies inside every closed set that holds its tile. */
  lemma ComponentLeast(b: seq<TileState>, s: set<nat>, i: nat)
    requires i in s && Closed(b, s)
    ensures Component(b, i) <= s
  {
    forall j | j in Component(b, i) ensures j in s {
      var p :| IsPath(b, p) && p[0] == i && p[|p| - 1] == j;
      PathEndInClosed(b, s, p);
    }
  }

  lemma {:induction false} PathBackwards(b: seq<TileState>, p: seq<nat>)
    requires IsPath(b, p)
    ensures Reachable(b, p[|p| - 1], p[0])
  {
    if |p| == 1 {
      assert IsPath(b, [p[0]]);
    } else {
      var p' := p[..|p| - 1];
      assert IsPath(b, p');
      PathBackwards(b, p');
      var q :| IsPath(b, q) && q[0] == p'[|p'| - 1] && q[|q| - 1] == p'[0];
      var last := p[|p| - 1];
      assert Linked(b, p[|p| - 2], last);
      LinkedSymmetric(b, p[|p| - 2], last);
      var r := [last] + q;
      assert forall k :: 1 <= k < |r| ==> r[k] == q[k - 1];
      assert IsPath(b, r);
      assert r[|r| - 1] == p[0];
    }
  }

  /** Tiles of one group all have that group: the groups partition the board. */
  lemma ComponentOfMember(b: seq<TileState>, i: nat, j: nat)
    requires j in Component(b, i)
    ensures Component(b, j) == Component(b, i)
  {
    ComponentClosed(b, i);
    ComponentLeast(b, Component(b, i), j);
    var p :| IsPath(b, p) && p[0] == i && p[|p| - 1] == j;
    PathBackwards(b, p);
    assert i < |b|;
    assert i in Component(b, j);
    ComponentClosed(b, j);
    ComponentLeast(b, Component(b, j), i);
  }

  lemma SubsetCard(s: set<nat>, t: set<nat>)
    requires s <= t
    ensures |s| <= |t|
  {
    assert t == s + (t - s);
    assert s * (t - s) == {};
  }

  /** No two orthogonal neighbours share a colour: no move is possible. */
  ghost predicate Deadlocked(b: seq<TileState>)
  {
    forall i, j :: !Linked(b, i, j)
  }

  lemma FirstStepLinked(b: seq<TileState>, p: seq<nat>)
    requires IsPath(b, p) && |p| > 1
    ensures Linked(b, p[0], p[1])
  {
  }

  lemma DeadlockedPathsStay(b: seq<TileState>, p: seq<nat>)
    requires Deadlocked(b) && IsPath(b, p)
    ensures |p| == 1
  {
    if |p| > 1 {
      FirstStepLinked(b, p);
      assert false;
    }
  }

  /** Deadlock depends only on places and colours. */
  lemma LayoutDeadlocked(b1: seq<TileState>, b2: seq<TileState>)
    requires SameLayout(b1, b2)
    ensures Deadlocked(b1) <==> Deadlocked(b2)
  {
    assert forall i, j :: Linked(b1, i, j) <==> Linked(b2, i, j);
  }

  /** A board is deadlocked exactly when every tile's group is the tile alone. */
  lemma DeadlockIffSingletons(b: seq<TileState>)
    ensures Deadlocked(b) <==> forall i :: 0 <= i < |b| ==> |Component(b, i)| == 1
  {
    if Deadlocked(b) {
      forall i | 0 <= i < |b| ensures |Component(b, i)| == 1 {
        SeedInComponent(b, i);
        forall j | j in Component(b, i) ensures j == i {
          var p :| IsPath(b, p) && p[0] == i && p[|p| - 1] == j;
          DeadlockedPathsStay(b, p);
        }
        assert Component(b, i) == {i};
      }
    } else {
      var i, j :| Linked(b, i, j);
      assert i != j;
      SeedInComponent(b, i);
      ComponentClosed(b, i);
      assert j in Component(b, i);
      SubsetCard({i, j}, Component(b, i));
    }
  }

  /** No two tiles of the board are orthogonal neighbours, whatever their colours. */
  ghost predicate Isolated(b: seq<TileState>)
  {
    forall i, j :: 0 <= i < |b| && 0 <= j < |b| ==> !Adjacent(b[i].coordinates, b[j].coordinates)
  }

  /** Boards with the same tiles at the same places, in any colours. */
  predicate SamePlaces(b1: seq<TileState>, b2: seq<TileState>)
  {
    |b1| == |b2| && forall i :: 0 <= i < |b1| ==> b1[i].coordinates == b2[i].coordinates
  }

  /** On a board without neighbours every colouring is deadlocked: recolouring the tiles,
      as the shuffle does, can never end the deadlock. */
  lemma {:induction false} IsolatedStaysDeadlocked(b: seq<TileState>, recoloured: seq<TileState>)
    requires Isolated(b) && SamePlaces(b, recoloured)
    ensures Isolated(recoloured) && Deadlocked(recoloured)
  {
    forall i, j | 0 <= i < |recoloured| && 0 <= j < |recoloured|
      ensures !Adjacent(recoloured[i].coordinates, recoloured[j].coordinates)
    {
      assert recoloured[i].coordinates == b[i].coordinates && recoloured[j].coordinates == b[j].coordinates;
    }
  }

  /** The smallest boards the engine can reach are isolated: the empty board, and a board of
      one tile (a 1 x 1 board, or a 1 x 2 board right after its pair was cleared and the
      first new tile spawned). */
  lemma SmallBoardsIsolated(t: TileState)
    ensures Isolated([]) && Isolated([t])
  {
    assert Abs(t.coordinates.x - t.coordinates.x) + Abs(t.coordinates.y - t.coordinates.y) == 0;
  }

  /** The icon for a group of `size` tiles: thresholds are tested from the highest down, each with a strict `>`. */
  function SegmentFor(size: int, conditionA: int, conditionB: int, conditionC: int): TileSegment
  {
    if size > conditionC then ThirdIcon
    else if size > conditionB then SecondIcon
    else if size > conditionA then FirstIcon
    else DefaultIcon
  }

  /** With increasing thresholds a < b < c the tiers are the ranges (c, ..), (b, c], (a, b] and (.., a]. */
  lemma SegmentForRanges(size: int, a: int, b: int, c: int)
    requires a < b < c
    ensures SegmentFor(size, a, b, c) == ThirdIcon <==> size > c
    ensures SegmentFor(size, a, b, c) == SecondIcon <==> b < size <= c
    ensures SegmentFor(size, a, b, c) == FirstIcon <==> a < size <= b
    ensures SegmentFor(size, a, b, c) == DefaultIcon <==> size <= a
  {
  }

  /** A larger group never gets a lower tier. */
  lemma SegmentForMonotone(s1: int, s2: int, a: int, b: int, c: int)
    requires s1 <= s2
    ensures SegmentFor(s1, a, b, c).Index() <= SegmentFor(s2, a, b, c).Index()
  {
  }

  /** The tiers under the default thresholds 4, 7 and 9; a size equal to a threshold stays below it. */
  lemma DefaultThresholdTiers()
    ensures SegmentFor(1, 4, 7, 9) == DefaultIcon && SegmentFor(4, 4, 7, 9) == DefaultIcon
    ensures SegmentFor(5, 4, 7, 9) == FirstIcon && SegmentFor(7, 4, 7, 9) == FirstIcon
    ensures SegmentFor(8, 4, 7, 9) == SecondIcon && SegmentFor(9, 4, 7, 9) == SecondIcon
    ensures SegmentFor(10, 4, 7, 9) == ThirdIcon
  {
  }

  /** Every tile shows the icon for the size of its own group. */
  ghost predicate Tiered(b: seq<TileState>, conditionA: int, conditionB: int, conditionC: int)
  {
    forall i: nat {:trigger Component(b, i)} :: i < |b| ==> b[i].segment == SegmentFor(|Component(b, i)|, conditionA, conditionB, conditionC)
  }

  /** On a tiered board all tiles of one group show the same icon. */
  lemma TieredGroupsUniform(b: seq<TileState>, conditionA: int, conditionB: int, conditionC: int, i: nat, j: nat)
    requires Tiered(b, conditionA, conditionB, conditionC) && i < |b|
    requires j in Component(b, i)
    ensures b[j].segment == b[i].segment
  {
    ComponentOfMember(b, i, j);
  }

  /** Every tile listed in `checked` shows, on `b`, the icon for the size of its group on `b0`. */
  ghost predicate IconsMatch(b: seq<TileState>, b0: seq<TileState>, checked: seq<nat>, conditionA: int, conditionB: int, conditionC: int)
  {
    forall m :: m in checked ==> m < |b| && b[m].segment == SegmentFor(|Component(b0, m)|, conditionA, conditionB, conditionC)
  }

  /** What the icon pass has achieved once it has looked at the tiles below `k`: the layout
      of `b0` is kept and every checked tile, among them all tiles below `k`, shows its tier. */
  ghost predicate IconsProgress(b: seq<TileState>, b0: seq<TileState>, checked: seq<nat>, k: nat,
                                conditionA: int, conditionB: int, conditionC: int)
  {
    && SameLayout(b, b0)
    && (forall m :: 0 <= m < k ==> m in checked)
    && IconsMatch(b, b0, checked, conditionA, conditionB, conditionC)
  }

  /** A tile already checked as part of an earlier group is skipped. */
  lemma IconsSkip(b: seq<TileState>, b0: seq<TileState>, checked: seq<nat>, k: nat,
                  conditionA: int, conditionB: int, conditionC: int)
    requires IconsProgress(b, b0, checked, k, conditionA, conditionB, conditionC) && k in checked
    ensures IconsProgress(b, b0, checked, k + 1, conditionA, conditionB, conditionC)
  {
  }

  /** Giving the whole group of `k` the icon for its size keeps the checked tiles right and adds the group. */
  lemma IconsStep(b0: seq<TileState>, b: seq<TileState>, b': seq<TileState>, checked: seq<nat>, group: seq<nat>, k: nat,
                  conditionA: int, conditionB: int, conditionC: int)
    requires IconsProgress(b, b0, checked, k, conditionA, conditionB, conditionC)
    requires SameLayout(b', b) && k < |b|
    requires (forall j :: j in group <==> j in Component(b, k)) && |group| == |Component(b, k)|
    requires forall i :: 0 <= i < |b'| ==>
      b'[i].segment == if i in group then SegmentFor(|group|, conditionA, conditionB, conditionC) else b[i].segment
    ensures IconsProgress(b', b0, checked + group, k + 1, conditionA, conditionB, conditionC)
  {
    SeedInComponent(b, k);
    LayoutComponent(b, b0, k);
    forall m | m in group ensures Component(b0, m) == Component(b0, k) {
      ComponentOfMember(b0, k, m);
    }
  }

  /** Once every tile is checked, the board is tiered. */
  lemma IconsMatchTiered(b: seq<TileState>, b0: seq<TileState>, checked: seq<nat>, conditionA: int, conditionB: int, conditionC: int)
    requires IconsProgress(b, b0, checked, |b|, conditionA, conditionB, conditionC)
    ensures Tiered(b, conditionA, conditionB, conditionC)
  {
    forall i: nat | i < |b| ensures b[i].segment == SegmentFor(|Component(b, i)|, conditionA, conditionB, conditionC) {
      LayoutComponent(b, b0, i);
    }
  }

  /** Two boards with the same tiles at the same places in the same colours (icons may differ). */
  predicate SameLayout(b1: seq<TileState>, b2: seq<TileState>)
  {
    && |b1| == |b2|
    && forall i :: 0 <= i < |b1| ==> b1[i].coordinates == b2[i].coordinates && b1[i].color == b2[i].color
  }

  lemma LayoutPath(b1: seq<TileState>, b2: seq<TileState>, p: seq<nat>)
    requires SameLayout(b1, b2) && IsPath(b1, p)
    ensures IsPath(b2, p)
  {
    forall k | 0 <= k < |p| - 1 ensures Linked(b2, p[k], p[k + 1]) {
      assert Linked(b1, p[k], p[k + 1]);
    }
  }

  /** Groups depend only on places and colours, not on the icons shown. */
  lemma LayoutComponent(b1: seq<TileState>, b2: seq<TileState>, i: nat)
    requires SameLayout(b1, b2)
    ensures Component(b1, i) == Component(b2, i)
  {
    forall j | j in Component(b1, i) ensures j in Component(b2, i) {
      var p :| IsPath(b1, p) && p[0] == i && p[|p| - 1] == j;
      LayoutPath(b1, b2, p);
    }
    forall j | j in Component(b2, i) ensures j in Component(b1, i) {
      var p :| IsPath(b2, p) && p[0] == i && p[|p| - 1] == j;
      LayoutPath(b2, b1, p);
    }
  }

  /** Same colour as the start tile, both on the board. */
  predicate SameColor(b: seq<TileState>, i: int, j: int)
  {
    0 <= i < |b| && 0 <= j < |b| && b[i].color == b[j].color
  }

  /** The positions of a board of `n` tiles not listed in `found`. */
  ghost function Unlisted(n: nat, found: seq<nat>): set<nat>
  {
    set k: nat | k < n && k !in found
  }

  /** Listing one more tile shrinks the unlisted positions: the fill terminates. */
  lemma UnlistedShrinks(n: nat, found: seq<nat>, cur: seq<nat>, k: nat)
    requires found <= cur && k < n && k !in cur
    ensures Unlisted(n, cur + [k]) < Unlisted(n, found)
  {
    assert cur[..|found|] == found;
    assert k in Unlisted(n, found) && k !in Unlisted(n, cur + [k]);
  }

  /** The flood fill from `acc` to `r` only appended, and appended board tiles not listed before. */
  ghost predicate FreshEntries(b: seq<TileState>, acc: seq<nat>, r: seq<nat>)
  {
    && acc <= r
    && forall p :: |acc| <= p < |r| ==> r[p] < |b| && r[p] !in r[..p]
  }

  /** Every appended tile has the start tile's colour and is linked to the start tile or to a tile listed before it. */
  ghost predicate GrownFrom(b: seq<TileState>, start: nat, acc: seq<nat>, r: seq<nat>)
  {
    forall p :: |acc| <= p < |r| ==>
      && SameColor(b, start, r[p])
      && (Linked(b, start, r[p]) || exists q :: 0 <= q < p && Linked(b, r[q], r[p]))
  }

  /** Every same-colour neighbour of the start tile is listed. */
  ghost predicate NeighboursListed(b: seq<TileState>, start: nat, r: seq<nat>)
  {
    forall m: nat :: Linked(b, start, m) ==> m in r
  }

  /** Every same-colour neighbour of every appended tile is listed. */
  ghost predicate AppendedClosed(b: seq<TileState>, acc: seq<nat>, r: seq<nat>)
  {
    forall p, m: nat :: |acc| <= p < |r| && Linked(b, r[p], m) ==> m in r
  }

  /** What a fill from `start` that began with the list `acc` promises of its result `r`. */
  ghost predicate Filled(b: seq<TileState>, start: nat, acc: seq<nat>, r: seq<nat>)
  {
    && FreshEntries(b, acc, r) && GrownFrom(b, start, acc, r)
    && NeighboursListed(b, start, r) && AppendedClosed(b, acc, r)
  }

  /** One step of the fill: `k`, a same-colour neighbour of `start` not yet listed, is appended
      and the recursive fill from `k` returns `r`; what held of `cur` holds of `r`. */
  lemma FillStep(b: seq<TileState>, start: nat, acc: seq<nat>, cur: seq<nat>, k: nat, r: seq<nat>)
    requires FreshEntries(b, acc, cur) && GrownFrom(b, start, acc, cur) && AppendedClosed(b, acc, cur)
    requires Linked(b, start, k) && k !in cur
    requires FreshEntries(b, cur + [k], r) && GrownFrom(b, k, cur + [k], r)
    requires NeighboursListed(b, k, r) && AppendedClosed(b, cur + [k], r)
    ensures FreshEntries(b, acc, r) && GrownFrom(b, start, acc, r) && AppendedClosed(b, acc, r)
    ensures cur + [k] <= r
  {
    var n := |cur|;
    assert r[..n] == cur && r[n] == k;
    forall p | |acc| <= p < |r|
      ensures r[p] < |b| && r[p] !in r[..p]
      ensures SameColor(b, start, r[p])
      ensures Linked(b, start, r[p]) || exists q :: 0 <= q < p && Linked(b, r[q], r[p])
    {
      if p < n {
        assert r[p] == cur[p] && r[..p] == cur[..p];
      } else if p > n {
        if Linked(b, k, r[p]) {
          assert Linked(b, r[n], r[p]);
        }
      }
    }
    forall p, m: nat | |acc| <= p < |r| && Linked(b, r[p], m) ensures m in r {
      if p < n {
        assert r[p] == cur[p];
        assert m in cur;
      }
    }
  }

  /** What the fill from `start` has achieved once it has looked at the tiles below `k`. */
  ghost predicate FillProgress(b: seq<TileState>, start: nat, acc: seq<nat>, r: seq<nat>, k: nat)
  {
    && FreshEntries(b, acc, r) && GrownFrom(b, start, acc, r) && AppendedClosed(b, acc, r)
    && forall m: nat :: m < k && Linked(b, start, m) ==> m in r
  }

  /** Looking at tile `k` when it is already listed or not a same-colour neighbour changes nothing. */
  lemma FillSkip(b: seq<TileState>, start: nat, acc: seq<nat>, r: seq<nat>, k: nat)
    requires FillProgress(b, start, acc, r, k)
    requires k in r || !Linked(b, start, k)
    ensures FillProgress(b, start, acc, r, k + 1)
  {
  }

  /** Looking at tile `k`, a same-colour neighbour not yet listed: it is appended and the fill
      from it returns `r`. */
  lemma FillAppend(b: seq<TileState>, start: nat, acc: seq<nat>, cur: seq<nat>, k: nat, r: seq<nat>)
    requires FillProgress(b, start, acc, cur, k)
    requires Linked(b, start, k) && k !in cur
    requires Filled(b, k, cur + [k], r)
    ensures FillProgress(b, start, acc, r, k + 1)
  {
    FillStep(b, start, acc, cur, k, r);
    assert forall m :: m in cur + [k] ==> m in r;
  }

  /** Once every tile was looked at, the fill from `start` has listed all its neighbours. */
  lemma FillDone(b: seq<TileState>, start: nat, acc: seq<nat>, r: seq<nat>)
    requires FillProgress(b, start, acc, r, |b|)
    ensures Filled(b, start, acc, r)
  {
  }

  /** A fill seeded with the single tile `i` lists exactly the group of `i`, each tile once, `i` first. */
  lemma SeededFillIsComponent(b: seq<TileState>, i: nat, r: seq<nat>)
    requires i < |b|
    requires Filled(b, i, [i], r)
    ensures r != [] && r[0] == i && Distinct(r)
    ensures forall j :: j in r <==> j in Component(b, i)
    ensures |r| == |Component(b, i)|
  {
    assert r[0] == i;
    forall p, q | 0 <= p < q < |r| ensures r[p] != r[q] {
      assert r[p] in r[..q];
    }
    var s := set j | j in r;
    assert Closed(b, s) by {
      forall a: nat, m: nat | a in s && Linked(b, a, m) ensures m in s {
        var p :| 0 <= p < |r| && r[p] == a;
      }
    }
    ComponentLeast(b, s, i);
    SeedInComponent(b, i);
    ComponentClosed(b, i);
    for p := 1 to |r|
      invariant forall q :: 0 <= q < p ==> r[q] in Component(b, i)
    {
      if !Linked(b, i, r[p]) {
        var q :| 0 <= q < p && Linked(b, r[q], r[p]);
      }
    }
    assert s == Component(b, i);
    DistinctCard(r);
  }

  /** The boards a run of spawns goes through from `start` to `final`: `boards[i]` is the
      board just after the i-th new tile, `spawned[i]`, was appended. A board that was not
      deadlocked is not shuffled, so the next board (or `final`) shows it in the same colours
      and places, followed by the next new tile. */
  ghost predicate SpawnTrace(start: seq<TileState>, spawned: seq<TileState>, boards: seq<seq<TileState>>,
                             final: seq<TileState>)
  {
    && |final| == |start| + |boards| && |spawned| == |boards|
    && (forall i {:trigger boards[i]} :: 0 <= i < |boards| ==> |boards[i]| == |start| + i + 1 && boards[i][|start| + i] == spawned[i])
    && (|boards| == 0 ==> SameLayout(final, start))
    && (|boards| > 0 ==> SameLayout(boards[0][..|start|], start))
    && (forall i :: 0 < i < |boards| && !Deadlocked(boards[i - 1]) ==>
          SameLayout(boards[i][..|start| + i], boards[i - 1]))
    && (|boards| > 0 && !Deadlocked(boards[|boards| - 1]) ==> SameLayout(final, boards[|boards| - 1]))
  }

  /** One more spawn: the tile `s` is appended to the current board `cur`, and the board is
      settled into `next`, keeping its layout when the appended board was not deadlocked. */
  lemma SpawnStep(start: seq<TileState>, spawned: seq<TileState>, boards: seq<seq<TileState>>,
                  cur: seq<TileState>, s: TileState, appended: seq<TileState>, next: seq<TileState>)
    requires SpawnTrace(start, spawned, boards, cur)
    requires appended == cur + [s]
    requires |next| == |appended| && (!Deadlocked(appended) ==> SameLayout(next, appended))
    ensures SpawnTrace(start, spawned + [s], boards + [appended], next)
  {
    var bs := boards + [appended];
    assert forall i :: 0 <= i < |boards| ==> bs[i] == boards[i];
    if |boards| == 0 {
      assert appended[..|start|] == cur;
    } else {
      assert appended[..|start| + |boards|] == cur;
    }
  }

  /** When no board of the run was deadlocked, no shuffle ran: the board ends as `start`
      followed by the new tiles, each in the colour and place it was spawned with. */
  lemma SpawnTraceKeepsLayout(start: seq<TileState>, spawned: seq<TileState>, boards: seq<seq<TileState>>,
                              final: seq<TileState>)
    requires SpawnTrace(start, spawned, boards, final)
    requires forall i :: 0 <= i < |boards| ==> !Deadlocked(boards[i])
    ensures SameLayout(final, start + spawned)
  {
    if |boards| == 0 {
      assert start + spawned == start;
    } else {
      assert SameLayout(boards[0], start + spawned[..1]);
      for i := 1 to |boards|
        invariant SameLayout(boards[i - 1], start + spawned[..i])
      {
        assert SameLayout(boards[i][..|start| + i], boards[i - 1]);
        assert start + spawned[..i + 1] == (start + spawned[..i]) + [spawned[i]];
        assert boards[i] == boards[i][..|start| + i] + [spawned[i]];
      }
      assert spawned[..|boards|] == spawned;
    }
  }

  /** The cells of row `y` from column 0 to column `width - 1`. */
  function RowCoords(y: int, width: nat): seq<Coord>
  {
    seq(width, j => Coord(j, y))
  }

  /** The order in which the board is first filled: row by row from row 0, each row from column 0. */
  function GridCoords(rows: nat, columns: nat): (r: seq<Coord>)
    ensures |r| == rows * columns
  {
    if rows == 0 then [] else GridCoords(rows - 1, columns) + RowCoords(rows - 1, columns)
  }

  /** The fill order visits exactly the cells (x, y) with x < columns and y < rows. */
  lemma {:induction false} GridCoordsCover(rows: nat, columns: nat, c: Coord)
    ensures c in GridCoords(rows, columns) <==> 0 <= c.x < columns && 0 <= c.y < rows
  {
    if rows > 0 {
      GridCoordsCover(rows - 1, columns, c);
      if c.y == rows - 1 && 0 <= c.x < columns {
        assert RowCoords(rows - 1, columns)[c.x] == c;
      }
    }
  }

  /** The fill order visits no cell twice. */
  lemma {:induction false} GridCoordsDistinct(rows: nat, columns: nat)
    ensures Distinct(GridCoords(rows, columns))
  {
    if rows > 0 {
      GridCoordsDistinct(rows - 1, columns);
      var g := GridCoords(rows - 1, columns);
      var row := RowCoords(rows - 1, columns);
      forall k | 0 <= k < |g| ensures g[k].y < rows - 1 {
        GridCoordsCover(rows - 1, columns, g[k]);
      }
      var all := g + row;
      forall i, j | 0 <= i < j < |all| ensures all[i] != all[j] {
        if j >= |g| && i < |g| {
          assert all[i] == g[i] && all[j] == row[j - |g|];
        }
      }
    }
  }
}

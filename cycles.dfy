/**
 * HexTile.adjacents: a sequence of tile ids forms a cycle when each tile is
 * adjacent to the next and the last is adjacent to the first. The pairs are
 * the sequence zipped with its left rotation tiles[1:] + tiles[:1], which
 * rotate reuses to pick the tile each strand moves to.
 */
module Cycles {
  import opened Wrappers
  import opened Geometry
  import opened Sizing
  import opened Spiral
  import opened TileField

  /** The position after i in a cycle of n positions: i + 1, or 0 after the last. */
  function Succ(i: nat, n: nat): (j: nat)
    requires i < n
    ensures j < n
    ensures j == 0 <==> i == n - 1
  {
    if i + 1 < n then i + 1 else 0
  }

  /** xs[1:] + xs[:1]: position i now holds the element that followed it, cyclically. */
  function RotateLeft<T>(xs: seq<T>): (ys: seq<T>)
    ensures |ys| == |xs|
    ensures forall i {:trigger ys[i]} :: 0 <= i < |xs| ==> ys[i] == xs[Succ(i, |xs|)]
  {
    if |xs| == 0 then [] else xs[1..] + xs[..1]
  }

  /** No element occurs twice. */
  predicate Distinct<T(==)>(xs: seq<T>) {
    forall i, j :: 0 <= i < j < |xs| ==> xs[i] != xs[j]
  }

  /** The rotation is a permutation: it keeps every element and its multiplicity. */
  lemma RotateLeftPermutes<T>(xs: seq<T>)
    ensures multiset(RotateLeft(xs)) == multiset(xs)
    ensures forall x :: x in RotateLeft(xs) <==> x in xs
    ensures Distinct(xs) ==> Distinct(RotateLeft(xs))
  {
    var ys := RotateLeft(xs);
    assert multiset(ys) == multiset(xs) by {
      if |xs| > 0 {
        assert xs == xs[..1] + xs[1..];
        assert ys == xs[1..] + xs[..1];
      }
    }
    forall x
      ensures x in ys <==> x in xs
    {
      assert x in ys <==> x in multiset(ys);
      assert x in xs <==> x in multiset(xs);
    }
    if Distinct(xs) && |xs| > 0 {
      forall i, j | 0 <= i < j < |ys|
        ensures ys[i] != ys[j]
      {
        assert ys[i] == xs[Succ(i, |xs|)] && ys[j] == xs[Succ(j, |xs|)];
      }
    }
  }

  /** xs in reverse order: the group supplied backwards, which rotates the other way. */
  function Reverse<T>(xs: seq<T>): (ys: seq<T>)
    ensures |ys| == |xs|
    ensures forall i {:trigger ys[i]} :: 0 <= i < |xs| ==> ys[i] == xs[|xs| - 1 - i]
  {
    if |xs| == 0 then [] else Reverse(xs[1..]) + [xs[0]]
  }

  /** Reversal keeps the elements and keeps distinct elements distinct. */
  lemma ReversePermutes<T>(xs: seq<T>)
    ensures forall x :: x in Reverse(xs) <==> x in xs
    ensures Distinct(xs) ==> Distinct(Reverse(xs))
  {
    var ys := Reverse(xs);
    forall x | x in ys
      ensures x in xs
    {
      var i :| 0 <= i < |ys| && ys[i] == x;
      assert xs[|xs| - 1 - i] == x;
    }
    forall x | x in xs
      ensures x in ys
    {
      var i :| 0 <= i < |xs| && xs[i] == x;
      assert ys[|xs| - 1 - i] == x;
    }
    if Distinct(xs) {
      forall i, j | 0 <= i < j < |ys|
        ensures ys[i] != ys[j]
      {
        assert ys[i] == xs[|xs| - 1 - i] && ys[j] == xs[|xs| - 1 - j];
      }
    }
  }

  /** The position k steps after i in a cycle of n positions. */
  function Advance(i: nat, k: nat, n: nat): (j: nat)
    requires i < n
    ensures j < n
  {
    if k == 0 then i else Succ(Advance(i, k - 1, n), n)
  }

  /** Stepping first and then advancing k equals advancing k and then stepping. */
  lemma {:induction false} AdvanceSucc(i: nat, k: nat, n: nat)
    requires i < n
    ensures Advance(Succ(i, n), k, n) == Succ(Advance(i, k, n), n)
  {
    if k > 0 {
      AdvanceSucc(i, k - 1, n);
    }
  }

  /** Advancing k > 0 steps is one step and then k - 1 more. */
  lemma AdvanceFirstStep(i: nat, k: nat, n: nat)
    requires i < n && k > 0
    ensures Advance(Succ(i, n), k - 1, n) == Advance(i, k, n)
  {
    AdvanceSucc(i, k - 1, n);
  }

  /** Advancing without passing the last position just adds. */
  lemma {:induction false} AdvanceAdds(i: nat, k: nat, n: nat)
    requires i + k < n
    ensures Advance(i, k, n) == i + k
  {
    if k > 0 {
      AdvanceAdds(i, k - 1, n);
    }
  }

  /** Advancing a then b steps is advancing a + b steps. */
  lemma {:induction false} AdvanceSplit(i: nat, a: nat, b: nat, n: nat)
    requires i < n
    ensures Advance(i, a + b, n) == Advance(Advance(i, a, n), b, n)
  {
    if b > 0 {
      AdvanceSplit(i, a, b - 1, n);
    }
  }

  /** n steps around a cycle of n positions come back to the start. */
  lemma AdvanceFull(i: nat, n: nat)
    requires i < n
    ensures Advance(i, n, n) == i
  {
    AdvanceAdds(i, n - 1 - i, n);
    AdvanceSplit(i, n - 1 - i, 1, n);
    AdvanceSplit(i, n - i, i, n);
    if i > 0 {
      AdvanceAdds(0, i, n);
    }
  }

  /** Both tiles of pair i (group[i] with the next one) are tile records. */
  predicate PairInField(tiles: map<int, Tile>, group: seq<int>, i: int)
    requires 0 <= i < |group|
  {
    group[i] in tiles && RotateLeft(group)[i] in tiles
  }

  /** Pair i is made of two tile records whose tiles are adjacent. */
  predicate PairAdjacent(tiles: map<int, Tile>, group: seq<int>, i: int)
    requires 0 <= i < |group|
  {
    PairInField(tiles, group, i) && Adjacent(tiles[group[i]].pos, tiles[RotateLeft(group)[i]].pos)
  }

  /** Every tile of the group is adjacent to the next one, the last to the first. */
  predicate IsCycle(tiles: map<int, Tile>, group: seq<int>) {
    forall i :: 0 <= i < |group| ==> PairAdjacent(tiles, group, i)
  }

  /** The loop started at pair i gets as far as pair k: every pair before k passed. */
  predicate Reaches(tiles: map<int, Tile>, group: seq<int>, i: nat, k: int) {
    i <= k < |group| && forall j :: i <= j < k ==> PairAdjacent(tiles, group, j)
  }

  /** Past an adjacent pair i, the loop from i reaches k exactly when k is i or the loop from i + 1 reaches it. */
  lemma ReachesStep(tiles: map<int, Tile>, group: seq<int>, i: nat)
    requires i < |group| && PairAdjacent(tiles, group, i)
    ensures forall k :: Reaches(tiles, group, i, k) <==> k == i || Reaches(tiles, group, i + 1, k)
  {
  }

  /** A loop stopped at pair i reaches no later pair. */
  lemma ReachesBlocked(tiles: map<int, Tile>, group: seq<int>, i: nat)
    requires i < |group| && !PairAdjacent(tiles, group, i)
    ensures forall k :: Reaches(tiles, group, i, k) ==> k == i
  {
  }

  /**
   * The loop of adjacents from pair i on: None where a lookup fails (a member
   * that is not a tile record raises), Some(false) at the first pair that is
   * not adjacent, Some(true) when every remaining pair is. Pairs after the
   * one the loop stops at are never looked at.
   */
  function AdjacentsFrom(tiles: map<int, Tile>, group: seq<int>, i: nat): (r: Option<bool>)
    requires i <= |group|
    ensures r == Some(true) <==> forall k :: i <= k < |group| ==> PairAdjacent(tiles, group, k)
    ensures r.None? ==> exists k :: i <= k < |group| && !PairInField(tiles, group, k)
    decreases |group| - i
  {
    if i == |group| then Some(true)
    else
      var t1, t2 := group[i], RotateLeft(group)[i];
      if t1 !in tiles || t2 !in tiles then
        assert !PairInField(tiles, group, i) && !PairAdjacent(tiles, group, i);
        None
      else if !Adjacent(tiles[t1].pos, tiles[t2].pos) then
        assert PairInField(tiles, group, i) && !PairAdjacent(tiles, group, i);
        Some(false)
      else
        assert PairAdjacent(tiles, group, i);
        AdjacentsFrom(tiles, group, i + 1)
  }

  /**
   * The answer of the loop from pair i is decided by the first pair that does
   * not pass: None when one of its members is not a tile record, Some(false)
   * when its tiles are not adjacent. Pairs after it are never looked at.
   */
  lemma {:induction false} AdjacentsFromFirst(tiles: map<int, Tile>, group: seq<int>, i: nat)
    requires i <= |group|
    ensures AdjacentsFrom(tiles, group, i).None? <==>
      exists k :: Reaches(tiles, group, i, k) && !PairInField(tiles, group, k)
    ensures AdjacentsFrom(tiles, group, i) == Some(false) <==>
      exists k :: Reaches(tiles, group, i, k) && PairInField(tiles, group, k) && !PairAdjacent(tiles, group, k)
    decreases |group| - i
  {
    if i < |group| {
      if PairAdjacent(tiles, group, i) {
        ReachesStep(tiles, group, i);
        AdjacentsFromFirst(tiles, group, i + 1);
      } else {
        ReachesBlocked(tiles, group, i);
        assert Reaches(tiles, group, i, i);
      }
    }
  }

  /**
   * adjacents: Some(true) exactly on a cycle; otherwise the first pair, in
   * group order, that does not pass decides: None when one of its members is
   * not a tile record (a failed lookup), Some(false) when its tiles are not
   * adjacent.
   */
  function Adjacents(tiles: map<int, Tile>, group: seq<int>): (r: Option<bool>)
    ensures r == Some(true) <==> IsCycle(tiles, group)
    ensures (forall m :: m in group ==> m in tiles) ==> r.Some?
    ensures r.None? ==> exists m :: m in group && m !in tiles
    ensures r.None? <==> exists k :: Reaches(tiles, group, 0, k) && !PairInField(tiles, group, k)
    ensures r == Some(false) <==>
      exists k :: Reaches(tiles, group, 0, k) && PairInField(tiles, group, k) && !PairAdjacent(tiles, group, k)
  {
    PairsInField(tiles, group);
    CycleHasPairs(tiles, group);
    AdjacentsFromFirst(tiles, group, 0);
    AdjacentsFrom(tiles, group, 0)
  }

  /** A non-adjacent first pair answers false even when a later member is not a tile. */
  lemma EarlyNotAdjacent(tiles: map<int, Tile>, a: int, b: int, c: int)
    requires a in tiles && b in tiles && c !in tiles && !Adjacent(tiles[a].pos, tiles[b].pos)
    ensures Adjacents(tiles, [a, b, c]) == Some(false)
  {
    assert RotateLeft([a, b, c])[0] == b;
  }

  /** On a cycle every pair is made of tile records. */
  lemma CycleHasPairs(tiles: map<int, Tile>, group: seq<int>)
    ensures IsCycle(tiles, group) ==> forall k :: 0 <= k < |group| ==> PairInField(tiles, group, k)
  {
    if IsCycle(tiles, group) {
      forall k | 0 <= k < |group|
        ensures PairInField(tiles, group, k)
      {
        assert PairAdjacent(tiles, group, k);
      }
    }
  }

  /** Every pair has both tiles exactly when every member is a tile. */
  lemma PairsInField(tiles: map<int, Tile>, group: seq<int>)
    ensures (forall k :: 0 <= k < |group| ==> PairInField(tiles, group, k)) <==> (forall m :: m in group ==> m in tiles)
  {
    RotateLeftPermutes(group);
    if forall k :: 0 <= k < |group| ==> PairInField(tiles, group, k) {
      forall m | m in group
        ensures m in tiles
      {
        var k :| 0 <= k < |group| && group[k] == m;
        assert PairInField(tiles, group, k);
      }
    }
    if forall m :: m in group ==> m in tiles {
      forall k | 0 <= k < |group|
        ensures PairInField(tiles, group, k)
      {
        assert RotateLeft(group)[k] in RotateLeft(group);
      }
    }
  }

  /** The zero difference is admitted: a single tile is a cycle. */
  lemma SingleIsCycle(tiles: map<int, Tile>, t: int)
    requires t in tiles
    ensures Adjacents(tiles, [t]) == Some(true)
  {
    assert RotateLeft([t]) == [t];
    AdjacentSymmetric(tiles[t].pos, tiles[t].pos);
  }

  /** Consecutive ids of ring k >= 1 are one direction step apart, so the ring is a cycle. */
  lemma {:induction false} RingIsCycle(tiles: map<int, Tile>, n: int, k: nat)
    requires Layout(tiles, n) && 1 <= k && FullRings(k) <= n
    ensures Adjacents(tiles, RingIds(k)) == Some(true)
  {
    RingIdsOfRing(k);
    forall i | 0 <= i < 6 * k
      ensures PairAdjacent(tiles, RingIds(k), i)
    {
      RingPairAdjacent(tiles, n, k, i);
    }
  }

  /** Pair i of ring k: the next id is one step on, and the last id steps back to the first. */
  lemma {:induction false} RingPairAdjacent(tiles: map<int, Tile>, n: int, k: nat, i: nat)
    requires Layout(tiles, n) && 1 <= k && FullRings(k) <= n && i < 6 * k
    ensures |RingIds(k)| == 6 * k && PairAdjacent(tiles, RingIds(k), i)
  {
    var ids := RingIds(k);
    RingIdsOfRing(k);
    FullRingsMonotone(0, k);
    var next := if i + 1 < 6 * k then i + 1 else 0;
    assert RotateLeft(ids)[i] == ids[next];
    RingNeighbours(k, i);
    assert ids[i] in tiles && ids[next] in tiles;
  }

  /** On ring k >= 1 the tile at offset i is adjacent to the one at the next offset, cyclically. */
  lemma {:induction false} RingNeighbours(k: nat, i: nat)
    requires 1 <= k && i < 6 * k
    ensures Adjacent(Position(RingId(k, i)), Position(RingId(k, if i + 1 < 6 * k then i + 1 else 0)))
  {
    if i + 1 < 6 * k {
      RingStepInside(k, i);
    } else {
      RingStepWrap(k);
    }
  }

  /** Consecutive ids within ring k are adjacent. */
  lemma RingStepInside(k: nat, i: nat)
    requires 1 <= k && i + 1 < 6 * k
    ensures Adjacent(Position(RingId(k, i)), Position(RingId(k, i + 1)))
  {
    SuccessorAdjacent(RingId(k, i), RingId(k, i + 1));
  }

  /** Tile u = t + 1 is adjacent to tile t. */
  lemma SuccessorAdjacent(t: int, u: int)
    requires t >= 1 && u == t + 1
    ensures Adjacent(Position(t), Position(u))
  {
    ConsecutiveAdjacent(t);
  }

  /** Tiles 1..upto exist and carry the coordinates of the numbered diagram (upto <= 19). */
  ghost predicate DiagramNumbered(tiles: map<int, Tile>, upto: int) {
    forall t :: 1 <= t <= upto && t <= 19 ==> t in tiles && tiles[t].pos == DiagramCoord(t)
  }

  /** A layout of n tiles is numbered as the diagram shows, as far as both go. */
  lemma DiagramLayout(tiles: map<int, Tile>, n: int)
    requires Layout(tiles, n)
    ensures DiagramNumbered(tiles, n)
  {
    forall t | 1 <= t <= n && t <= 19
      ensures t in tiles && tiles[t].pos == DiagramCoord(t)
    {
      DiagramPosition(t);
    }
  }

  /** The hand-made group [1, 2, 3] (the centre and the first two tiles of ring 1) is a cycle. */
  lemma TriangleIsCycle(tiles: map<int, Tile>, group: seq<int>)
    requires DiagramNumbered(tiles, 3)
    requires |group| == 3 && group[0] == 1 && group[1] == 2 && group[2] == 3
    ensures Adjacents(tiles, group) == Some(true)
  {
    var next := RotateLeft(group);
    assert next[0] == 2 && next[1] == 3 && next[2] == 1;
  }

  /** The hand-made group [4, 5, 14] bridges rings 1 and 2 and is a cycle. */
  lemma BridgeIsCycle(tiles: map<int, Tile>, group: seq<int>)
    requires DiagramNumbered(tiles, 14)
    requires |group| == 3 && group[0] == 4 && group[1] == 5 && group[2] == 14
    ensures Adjacents(tiles, group) == Some(true)
  {
    var next := RotateLeft(group);
    assert next[0] == 5 && next[1] == 14 && next[2] == 4;
  }

  /** The hand-made group [6, 7, 18, 17, 16] is a cycle of five tiles. */
  lemma PentagonIsCycle(tiles: map<int, Tile>, group: seq<int>)
    requires DiagramNumbered(tiles, 18)
    requires |group| == 5 && group[0] == 6 && group[1] == 7 && group[2] == 18 && group[3] == 17 && group[4] == 16
    ensures Adjacents(tiles, group) == Some(true)
  {
    var next := RotateLeft(group);
    assert next[0] == 7 && next[1] == 18 && next[2] == 17 && next[3] == 16 && next[4] == 6;
  }

  /** The hand-made groups range(20, 38) and range(38, 62) are rings 3 and 4, hence cycles. */
  lemma OuterRingsAreCycles(tiles: map<int, Tile>, n: int)
    requires Layout(tiles, n) && n >= 61
    ensures Adjacents(tiles, Range(20, 38)) == Some(true)
    ensures Adjacents(tiles, Range(38, 62)) == Some(true)
  {
    FullRingsValues();
    assert RingIds(3) == Range(20, 38);
    assert RingIds(4) == Range(38, 62);
    RingIsCycle(tiles, n, 3);
    RingIsCycle(tiles, n, 4);
  }
}

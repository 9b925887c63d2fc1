/**
 * Three-axis (R, G, B) hexagonal coordinates, the six edge directions of
 * HexTile.neighbor and the adjacency test of HexTile.adjacent.
 */
module Geometry {

  /** A tile position along three axes 120 degrees apart. */
  datatype Coord = Coord(r: int, g: int, b: int)

  function Add(p: Coord, q: Coord): Coord {
    Coord(p.r + q.r, p.g + q.g, p.b + q.b)
  }

  function Diff(p: Coord, q: Coord): Coord {
    Coord(q.r - p.r, q.g - p.g, q.b - p.b)
  }

  function Abs(x: int): nat { if x < 0 then -x else x }

  /** The coordinates sum to zero: the invariant every tile position keeps. */
  predicate Balanced(p: Coord) {
    p.r + p.g + p.b == 0
  }

  /** The largest magnitude of the three components: the ring a position lies on. */
  function Chebyshev(p: Coord): nat {
    var m := if Abs(p.r) < Abs(p.g) then Abs(p.g) else Abs(p.r);
    if m < Abs(p.b) then Abs(p.b) else m
  }

  /** The six unit edge directions, in the fixed order the spiral walks them. */
  const Neighbor: seq<Coord> :=
    [Coord(1, 0, -1), Coord(0, 1, -1), Coord(-1, 1, 0),
     Coord(-1, 0, 1), Coord(0, -1, 1), Coord(1, -1, 0)]

  /** The displacement after `steps` unit steps along direction j (no multiplication). */
  function Along(j: nat, steps: int): Coord
    requires j < 6
  {
    match j
    case 0 => Coord(steps, 0, -steps)
    case 1 => Coord(0, steps, -steps)
    case 2 => Coord(-steps, steps, 0)
    case 3 => Coord(-steps, 0, steps)
    case 4 => Coord(0, -steps, steps)
    case 5 => Coord(steps, -steps, 0)
  }

  /** The position reached from `from` after `steps` unit steps by d, one step at a time. */
  function Walk(from: Coord, d: Coord, steps: nat): Coord
    decreases steps
  {
    if steps == 0 then from else Add(Walk(from, d, steps - 1), d)
  }

  /** Walking `steps` steps along direction j moves by Along(j, steps). */
  lemma {:induction false} WalkAlong(from: Coord, j: nat, steps: nat)
    requires j < 6
    ensures Walk(from, Neighbor[j], steps) == Add(from, Along(j, steps))
    decreases steps
  {
    if steps > 0 {
      WalkAlong(from, j, steps - 1);
      AlongStep(j, steps - 1);
    }
  }

  /**
   * Two positions are adjacent when their difference sums to zero and each
   * component has magnitude at most 1 (the zero difference is admitted too).
   */
  predicate Adjacent(p: Coord, q: Coord) {
    var dr, dg, db := q.r - p.r, q.g - p.g, q.b - p.b;
    dr + dg + db == 0 && Abs(dr) <= 1 && Abs(dg) <= 1 && Abs(db) <= 1
  }

  /** Every direction vector sums to zero and one more step extends a straight walk. */
  lemma AlongStep(j: nat, steps: int)
    requires j < 6
    ensures Balanced(Neighbor[j]) && Balanced(Along(j, steps))
    ensures Along(j, steps + 1) == Add(Along(j, steps), Neighbor[j])
    ensures Along(j, 1) == Neighbor[j]
  {
  }

  /**
   * The adjacency test admits exactly the six neighbours and the position
   * itself: an independent description of Adjacent by the direction table.
   */
  lemma AdjacentIffNeighbor(p: Coord, q: Coord)
    ensures Adjacent(p, q) <==> (q == p || exists j :: 0 <= j < 6 && q == Add(p, Neighbor[j]))
  {
    var d := Diff(p, q);
    if Adjacent(p, q) && q != p {
      var j := if d == Neighbor[0] then 0 else if d == Neighbor[1] then 1
               else if d == Neighbor[2] then 2 else if d == Neighbor[3] then 3
               else if d == Neighbor[4] then 4 else 5;
      assert q == Add(p, Neighbor[j]);
    }
    if exists j :: 0 <= j < 6 && q == Add(p, Neighbor[j]) {
      var j :| 0 <= j < 6 && q == Add(p, Neighbor[j]);
      assert d == Neighbor[j];
    }
  }

  /** A step along any direction reaches an adjacent position. */
  lemma NeighborAdjacent(p: Coord, j: nat)
    requires j < 6
    ensures Adjacent(p, Add(p, Neighbor[j]))
  {
  }

  /** Adjacency is symmetric and holds on the zero difference. */
  lemma AdjacentSymmetric(p: Coord, q: Coord)
    ensures Adjacent(p, q) == Adjacent(q, p)
    ensures Adjacent(p, p)
  {
  }

  /** Adjacency of balanced positions preserves balance of the step between them. */
  lemma AdjacentBalanced(p: Coord, q: Coord)
    requires Balanced(p) && Adjacent(p, q)
    ensures Balanced(q)
  {
  }
}

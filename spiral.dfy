/**
 * The spiral numbering of generateRings. Tile 1 is the centre; ring k >= 1
 * starts from (0, -k, k) and takes k steps along each of the six directions
 * of Geometry.Neighbor in turn, numbering each tile it reaches with the next
 * id. Slot(k, j, s) is the tile reached by step s + 1 of side j of ring k.
 *
 * Locate and Position follow the walk one id at a time, as the generator
 * does; SlotId and SlotPosition are the closed forms, and LocateSlot ties the
 * two descriptions together.
 */
module Spiral {
  import opened Geometry
  import opened Sizing

  /** Where an id lies on the spiral: its ring, the side it is on and its step along that side. */
  datatype Slot = Slot(ring: nat, side: nat, step: nat)

  /** Ring 0 holds only the centre slot; a slot of ring k >= 1 has side < 6 and step < k. */
  predicate WellFormed(slot: Slot) {
    if slot.ring == 0 then slot.side == 0 && slot.step == 0
    else slot.side < 6 && slot.step < slot.ring
  }

  /**
   * The slot generateRings fills right after `slot`: the next step along the
   * side, the first step of the next side, or the first slot of the next ring.
   */
  function Next(slot: Slot): (next: Slot)
    requires WellFormed(slot)
    ensures WellFormed(next) && next.ring >= 1
  {
    if slot.ring == 0 then Slot(1, 0, 0)
    else if slot.step + 1 < slot.ring then Slot(slot.ring, slot.side, slot.step + 1)
    else if slot.side < 5 then Slot(slot.ring, slot.side + 1, 0)
    else Slot(slot.ring + 1, 0, 0)
  }

  /** The slot of spiral id t >= 1: the centre for tile 1, then one Next per id. */
  function Locate(t: int): (slot: Slot)
    requires t >= 1
    ensures WellFormed(slot)
    decreases t
  {
    if t == 1 then Slot(0, 0, 0) else Next(Locate(t - 1))
  }

  /**
   * The direction of the step that reaches a slot of ring k >= 1: the side's
   * own direction, except that the first slot of a ring is entered from the
   * end of the ring inside it, one step along Neighbor[5].
   */
  function Heading(slot: Slot): (d: nat)
    requires WellFormed(slot) && slot.ring >= 1
    ensures d < 6
  {
    if slot.side == 0 && slot.step == 0 then 5 else slot.side
  }

  /** The coordinate generateRings records for tile t. */
  function Position(t: int): Coord
    requires t >= 1
  {
    SlotCoord(Locate(t))
  }

  /** The ring index generateRings records for tile t. */
  function RingIndex(t: int): nat
    requires t >= 1
  {
    Locate(t).ring
  }

  /** Where side j of ring k begins: the walk's start, then the end of each side before j. */
  function Corner(k: int, j: nat): Coord
    requires j < 6
  {
    match j
    case 0 => Coord(0, -k, k)
    case 1 => Coord(k, -k, 0)
    case 2 => Coord(k, 0, -k)
    case 3 => Coord(0, k, -k)
    case 4 => Coord(-k, k, 0)
    case 5 => Coord(-k, 0, k)
  }

  /**
   * The position of the tile reached by step s + 1 along side j of ring k,
   * Corner(k, j) + Along(j, s + 1) written out per side (SlotPositionFromCorner).
   */
  function SlotPosition(k: nat, j: nat, s: nat): Coord
    requires j < 6
  {
    match j
    case 0 => Coord(s + 1, 0 - k, k - s - 1)
    case 1 => Coord(k, s + 1 - k, 0 - s - 1)
    case 2 => Coord(k - s - 1, s + 1, 0 - k)
    case 3 => Coord(0 - s - 1, k, s + 1 - k)
    case 4 => Coord(0 - k, k - s - 1, s + 1)
    case 5 => Coord(s + 1 - k, 0 - s - 1, k)
  }

  /** A slot lies s + 1 steps along side j from the corner where side j begins. */
  lemma {:induction false} SlotPositionFromCorner(k: nat, j: nat, s: nat)
    requires j < 6
    ensures SlotPosition(k, j, s) == Add(Corner(k, j), Along(j, s + 1))
  {
  }

  /** The coordinate of a slot in closed form. */
  function SlotCoord(slot: Slot): Coord
    requires WellFormed(slot)
  {
    if slot.ring == 0 then Coord(0, 0, 0) else SlotPosition(slot.ring, slot.side, slot.step)
  }

  /** The number of tiles on the sides before side j of ring k (j * k, written out). */
  function SideOffset(j: nat, k: nat): nat
    requires j < 6
  {
    match j
    case 0 => 0
    case 1 => k
    case 2 => 2 * k
    case 3 => 3 * k
    case 4 => 4 * k
    case 5 => 5 * k
  }

  /** Splits an offset o < 6k within ring k into (side, step). */
  function SplitSide(o: nat, k: nat): (js: (nat, nat))
    requires k >= 1 && o < 6 * k
    ensures js.0 < 6 && js.1 < k && SideOffset(js.0, k) + js.1 == o
  {
    if o < k then (0, o)
    else if o < 2 * k then (1, o - k)
    else if o < 3 * k then (2, o - 2 * k)
    else if o < 4 * k then (3, o - 3 * k)
    else if o < 5 * k then (4, o - 4 * k)
    else (5, o - 5 * k)
  }

  /** The id of the tile in slot (k, j, s), k >= 1: FullRings(k - 1) + j * k + s + 1. */
  function SlotId(k: nat, j: nat, s: nat): int
    requires k >= 1 && j < 6
  {
    FullRings(k - 1) + SideOffset(j, k) + s + 1
  }

  /** The id of the tile in a slot (the centre is tile 1). */
  function IdOf(slot: Slot): int
    requires WellFormed(slot)
  {
    if slot.ring == 0 then 1 else SlotId(slot.ring, slot.side, slot.step)
  }

  /** The ids of ring k >= 1 are the 6k ids after FullRings(k - 1). */
  lemma {:induction false} SlotIdRange(k: nat, j: nat, s: nat)
    requires 1 <= k && j < 6 && s < k
    ensures FullRings(k - 1) < SlotId(k, j, s) <= FullRings(k)
    ensures SlotId(k, j, s) >= 2
  {
    FullRingsStep(k);
    FullRingsValues();
    if k > 1 {
      FullRingsMonotone(0, k - 1);
    }
  }

  /** Next numbers the following tile. */
  lemma {:induction false} IdOfNext(slot: Slot)
    requires WellFormed(slot)
    ensures IdOf(Next(slot)) == IdOf(slot) + 1
  {
    if slot.ring == 0 {
      FullRingsValues();
    } else if slot.step + 1 >= slot.ring && slot.side == 5 {
      FullRingsStep(slot.ring);
    }
  }

  /** Locate(t) is the slot that holds id t. */
  lemma {:induction false} IdOfLocate(t: int)
    requires t >= 1
    ensures IdOf(Locate(t)) == t
    decreases t
  {
    if t > 1 {
      IdOfLocate(t - 1);
      IdOfNext(Locate(t - 1));
    }
  }

  /** Splitting the offset of (j, s) gives back (j, s). */
  lemma {:induction false} SplitSideOf(j: nat, s: nat, k: nat)
    requires k >= 1 && j < 6 && s < k
    ensures SideOffset(j, k) + s < 6 * k
    ensures SplitSide(SideOffset(j, k) + s, k) == (j, s)
  {
  }

  /** A slot on an inner ring holds a smaller id than one on an outer ring. */
  lemma {:induction false} RingsApart(a: Slot, b: Slot)
    requires WellFormed(a) && WellFormed(b) && a.ring < b.ring
    ensures IdOf(a) < IdOf(b)
  {
    SlotIdRange(b.ring, b.side, b.step);
    if a.ring >= 1 {
      SlotIdRange(a.ring, a.side, a.step);
      if a.ring < b.ring - 1 {
        FullRingsMonotone(a.ring, b.ring - 1);
      }
    }
  }

  /** Different slots hold different ids. */
  lemma {:induction false} IdOfInjective(a: Slot, b: Slot)
    requires WellFormed(a) && WellFormed(b) && IdOf(a) == IdOf(b)
    ensures a == b
  {
    if a.ring < b.ring {
      RingsApart(a, b);
    } else if b.ring < a.ring {
      RingsApart(b, a);
    } else if a.ring >= 1 {
      SplitSideOf(a.side, a.step, a.ring);
      SplitSideOf(b.side, b.step, b.ring);
    }
  }

  /** One more step along side j moves the slot position by Neighbor[j]. */
  lemma {:induction false} SlotPositionStep(k: nat, j: nat, s: nat)
    requires j < 6
    ensures SlotPosition(k, j, s + 1) == Add(SlotPosition(k, j, s), Neighbor[j])
  {
  }

  /** The last step of a side ends where the next side's first step leaves from. */
  lemma {:induction false} SlotPositionCorner(k: nat, j: nat)
    requires 1 <= k && j < 5
    ensures SlotPosition(k, j + 1, 0) == Add(SlotPosition(k, j, k - 1), Neighbor[j + 1])
  {
  }

  /** The last slot of ring k is one Neighbor[5] step inside the first slot of ring k + 1. */
  lemma {:induction false} SlotPositionNextRing(k: nat)
    requires 1 <= k
    ensures SlotPosition(k + 1, 0, 0) == Add(SlotPosition(k, 5, k - 1), Neighbor[5])
  {
  }

  /** The last step of the ring leads back to its first slot. */
  lemma {:induction false} SlotPositionClosing(k: nat)
    requires 1 <= k
    ensures SlotPosition(k, 0, 0) == Add(SlotPosition(k, 5, k - 1), Neighbor[0])
  {
  }

  /** The closed form takes the step Heading(Next(slot)) from each slot to the next. */
  lemma {:induction false} SlotCoordNext(slot: Slot)
    requires WellFormed(slot)
    ensures SlotCoord(Next(slot)) == Add(SlotCoord(slot), Neighbor[Heading(Next(slot))])
  {
    var k, j, s := slot.ring, slot.side, slot.step;
    assert slot == Slot(k, j, s);
    if k == 0 {
      SlotCoordCentre();
    } else if s + 1 < k {
      SlotCoordAlong(k, j, s);
    } else if j < 5 {
      SlotCoordCorner(k, j);
    } else {
      SlotCoordNextRing(k);
    }
  }

  lemma {:induction false} SlotCoordCentre()
    ensures Next(Slot(0, 0, 0)) == Slot(1, 0, 0)
    ensures SlotCoord(Slot(1, 0, 0)) == Add(SlotCoord(Slot(0, 0, 0)), Neighbor[Heading(Slot(1, 0, 0))])
  {
  }

  lemma {:induction false} SlotCoordAlong(k: nat, j: nat, s: nat)
    requires 1 <= k && j < 6 && s + 1 < k
    ensures Next(Slot(k, j, s)) == Slot(k, j, s + 1)
    ensures SlotCoord(Slot(k, j, s + 1)) == Add(SlotCoord(Slot(k, j, s)), Neighbor[Heading(Slot(k, j, s + 1))])
  {
    SlotPositionStep(k, j, s);
  }

  lemma {:induction false} SlotCoordCorner(k: nat, j: nat)
    requires 1 <= k && j < 5
    ensures Next(Slot(k, j, k - 1)) == Slot(k, j + 1, 0)
    ensures SlotCoord(Slot(k, j + 1, 0)) == Add(SlotCoord(Slot(k, j, k - 1)), Neighbor[Heading(Slot(k, j + 1, 0))])
  {
    SlotPositionCorner(k, j);
  }

  lemma {:induction false} SlotCoordNextRing(k: nat)
    requires 1 <= k
    ensures Next(Slot(k, 5, k - 1)) == Slot(k + 1, 0, 0)
    ensures SlotCoord(Slot(k + 1, 0, 0)) == Add(SlotCoord(Slot(k, 5, k - 1)), Neighbor[Heading(Slot(k + 1, 0, 0))])
  {
    SlotPositionNextRing(k);
  }

  /** Slot (k, j, s) is where the id SlotId(k, j, s) lies, with its closed-form coordinate. */
  lemma {:induction false} LocateSlot(k: nat, j: nat, s: nat)
    requires 1 <= k && j < 6 && s < k
    ensures SlotId(k, j, s) >= 2
    ensures Locate(SlotId(k, j, s)) == Slot(k, j, s)
    ensures Position(SlotId(k, j, s)) == SlotPosition(k, j, s)
    ensures RingIndex(SlotId(k, j, s)) == k
  {
    var t := SlotId(k, j, s);
    SlotIdRange(k, j, s);
    IdOfLocate(t);
    IdOfInjective(Locate(t), Slot(k, j, s));
  }

  /** Every slot position sums to zero and lies on ring k in the max-magnitude sense. */
  lemma {:induction false} SlotPositionFacts(k: nat, j: nat, s: nat)
    requires 1 <= k && j < 6 && s < k
    ensures Balanced(SlotPosition(k, j, s))
    ensures Chebyshev(SlotPosition(k, j, s)) == k
  {
  }

  /** R + G + B == 0 for every generated tile. */
  lemma {:induction false} PositionBalanced(t: int)
    requires t >= 1
    ensures Balanced(Position(t))
  {
    var slot := Locate(t);
    if slot.ring >= 1 {
      SlotPositionFacts(slot.ring, slot.side, slot.step);
    }
  }

  /** Every tile of ring k has max(|R|, |G|, |B|) == k. */
  lemma {:induction false} PositionOnRing(t: int)
    requires t >= 1
    ensures Chebyshev(Position(t)) == RingIndex(t)
  {
    var slot := Locate(t);
    if slot.ring >= 1 {
      SlotPositionFacts(slot.ring, slot.side, slot.step);
    }
  }

  /** Each tile is one neighbour step past the tile numbered before it. */
  lemma {:induction false} PositionStep(t: int)
    requires t >= 1
    ensures Position(t + 1) == Add(Position(t), Neighbor[Heading(Locate(t + 1))])
  {
    SlotCoordNext(Locate(t));
  }

  /** Consecutive ids are adjacent tiles. */
  lemma {:induction false} ConsecutiveAdjacent(t: int)
    requires t >= 1
    ensures Adjacent(Position(t), Position(t + 1))
  {
    SlotCoordNext(Locate(t));
    NeighborAdjacent(Position(t), Heading(Locate(t + 1)));
  }

  /** Ring 0 is the centre alone; ring k >= 1 is the 6k ids after FullRings(k - 1). */
  lemma {:induction false} RingIndexRange(t: int, k: nat)
    requires t >= 1
    ensures k == 0 ==> (RingIndex(t) == 0 <==> t == 1)
    ensures k >= 1 ==> (RingIndex(t) == k <==> FullRings(k - 1) < t <= FullRings(k))
  {
    var slot := Locate(t);
    IdOfLocate(t);
    if slot.ring >= 1 {
      SlotIdRange(slot.ring, slot.side, slot.step);
    }
    if k >= 1 && FullRings(k - 1) < t <= FullRings(k) {
      var o := t - FullRings(k - 1) - 1;
      FullRingsStep(k);
      var js := SplitSide(o, k);
      assert t == SlotId(k, js.0, js.1);
      LocateSlot(k, js.0, js.1);
    }
  }

  /** The ring of tile t is the least radius whose full hexagon holds t tiles. */
  lemma {:induction false} RingIndexIsRadius(t: int)
    requires t >= 1
    ensures IsLeastRadius(t, RingIndex(t))
    ensures RingIndex(t) == RadiusOf(t)
  {
    var k := RingIndex(t);
    RingIndexRange(t, k);
    if k == 0 {
      FullRingsValues();
    }
    LeastRadiusUnique(t, k, RadiusOf(t));
  }

  /** The id of the tile at offset i of ring k >= 1 (offset 0 is the ring's first tile). */
  function RingId(k: nat, i: nat): int
    requires k >= 1
  {
    FullRings(k - 1) + 1 + i
  }

  /** Where the offsets of ring k >= 1 lie, side by side. */
  lemma {:induction false} RingPosition(k: nat, i: nat) returns (j: nat, s: nat)
    requires 1 <= k && i < 6 * k
    ensures j < 6 && s < k && i == SideOffset(j, k) + s
    ensures RingId(k, i) == SlotId(k, j, s) && RingId(k, i) >= 2
    ensures Position(RingId(k, i)) == SlotPosition(k, j, s)
  {
    var js := SplitSide(i, k);
    j, s := js.0, js.1;
    LocateSlot(k, j, s);
  }

  /** The walk of ring k >= 1 ends back on its start (0, -k, k). */
  lemma {:induction false} RingWalkCloses(k: nat)
    requires k >= 1
    ensures RingId(k, 6 * k - 1) == FullRings(k)
    ensures Position(FullRings(k)) == Coord(0, 0 - k, k)
  {
    FullRingsStep(k);
    var j, s := RingPosition(k, 6 * k - 1);
  }

  /** The last id of ring k >= 1 is one direction step before its first id. */
  lemma {:induction false} RingStepWrap(k: nat)
    requires 1 <= k
    ensures RingId(k, 6 * k - 1) == FullRings(k)
    ensures Adjacent(Position(RingId(k, 6 * k - 1)), Position(RingId(k, 0)))
  {
    FullRingsStep(k);
    assert RingId(k, 6 * k - 1) == SlotId(k, 5, k - 1) && RingId(k, 0) == SlotId(k, 0, 0);
    LocateSlot(k, 5, k - 1);
    LocateSlot(k, 0, 0);
    SlotPositionClosing(k);
    NeighborAdjacent(SlotPosition(k, 5, k - 1), 0);
  }

  /** The coordinates printed on tiles 1..19 of the numbered diagram of the first test's docstring. */
  function DiagramCoord(t: int): Coord
    requires 1 <= t <= 19
  {
    match t
    case 1 => Coord(0, 0, 0)
    case 2 => Coord(1, -1, 0)
    case 3 => Coord(1, 0, -1)
    case 4 => Coord(0, 1, -1)
    case 5 => Coord(-1, 1, 0)
    case 6 => Coord(-1, 0, 1)
    case 7 => Coord(0, -1, 1)
    case 8 => Coord(1, -2, 1)
    case 9 => Coord(2, -2, 0)
    case 10 => Coord(2, -1, -1)
    case 11 => Coord(2, 0, -2)
    case 12 => Coord(1, 1, -2)
    case 13 => Coord(0, 2, -2)
    case 14 => Coord(-1, 2, -1)
    case 15 => Coord(-2, 2, 0)
    case 16 => Coord(-2, 1, 1)
    case 17 => Coord(-2, 0, 2)
    case 18 => Coord(-1, -1, 2)
    case 19 => Coord(0, -2, 2)
  }

  /** The slots of rings 1 and 2 hold the coordinates printed in the diagram. */
  lemma {:induction false} DiagramSlotOne(j: nat)
    requires j < 6
    ensures SlotPosition(1, j, 0) == DiagramCoord(j + 2)
  {
  }

  lemma {:induction false} DiagramSlotTwoFirst(j: nat)
    requires j < 6
    ensures SlotPosition(2, j, 0) == DiagramCoord(2 * j + 8)
  {
  }

  lemma {:induction false} DiagramSlotTwoSecond(j: nat)
    requires j < 6
    ensures SlotPosition(2, j, 1) == DiagramCoord(2 * j + 9)
  {
  }

  /** Ring 1 of the numbered diagram. */
  lemma {:induction false} DiagramRingOne(i: nat)
    requires i < 6
    ensures RingId(1, i) == i + 2
    ensures Position(RingId(1, i)) == DiagramCoord(i + 2)
  {
    var j, s := RingPosition(1, i);
    DiagramSlotOne(j);
  }

  /** Ring 2 of the numbered diagram. */
  lemma {:induction false} DiagramRingTwo(i: nat)
    requires i < 12
    ensures RingId(2, i) == i + 8
    ensures Position(RingId(2, i)) == DiagramCoord(i + 8)
  {
    FullRingsValues();
    var j, s := RingPosition(2, i);
    if s == 0 {
      DiagramSlotTwoFirst(j);
    } else {
      DiagramSlotTwoSecond(j);
    }
  }

  /** The spiral reproduces the numbered diagram: tile t sits at DiagramCoord(t). */
  lemma {:induction false} DiagramPosition(t: int)
    requires 1 <= t <= 19
    ensures Position(t) == DiagramCoord(t)
  {
    if 2 <= t <= 7 {
      DiagramRingOne(t - 2);
    } else if 8 <= t {
      DiagramRingTwo(t - 8);
    }
  }
}

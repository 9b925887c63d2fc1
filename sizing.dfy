/**
 * Sizing of a tile field: the table of complete-ring totals, the choice of
 * tile count, the clamp on the strand count and the radius search `needed`.
 */
module Sizing {
  import opened Wrappers

  /** fullRings is built for ring counts 0..29, so its keys are exactly these. */
  const TabledRings: nat := 30

  /** 0 + 1 + ... + n, the sum inside the fullRings comprehension. */
  function RingSum(n: nat): nat {
    if n == 0 then 0 else RingSum(n - 1) + n
  }

  /** The number of tiles in a centre tile plus n complete rings. */
  function FullRings(n: nat): nat {
    1 + 6 * RingSum(n)
  }

  /** The class-level table fullRings, keyed by ring count. */
  function FullRingsTable(): map<int, nat> {
    map n | 0 <= n < TabledRings :: FullRings(n)
  }

  /** Ring n adds 6n tiles to the n - 1 rings inside it. */
  lemma FullRingsStep(n: nat)
    requires n >= 1
    ensures FullRings(n) == FullRings(n - 1) + 6 * n
  {
  }

  /** The closed form of the table: fullRings[n] == 1 + 3n(n+1). */
  lemma {:induction false} FullRingsClosedForm(n: nat)
    ensures FullRings(n) == 1 + 3 * n * (n + 1)
  {
    if n > 0 {
      FullRingsClosedForm(n - 1);
      assert 3 * n * (n + 1) == 3 * (n - 1) * n + 6 * n;
    }
  }

  /** The totals grow strictly with the ring count. */
  lemma {:induction false} FullRingsMonotone(m: nat, n: nat)
    requires m < n
    ensures FullRings(m) < FullRings(n)
  {
    if m < n - 1 {
      FullRingsMonotone(m, n - 1);
    }
  }

  /** The first totals of the table. */
  lemma FullRingsValues()
    ensures FullRings(0) == 1 && FullRings(1) == 7 && FullRings(2) == 19
    ensures FullRings(3) == 37 && FullRings(4) == 61 && FullRings(5) == 91
  {
    FullRingsClosedForm(5);
    FullRingsClosedForm(4);
    FullRingsClosedForm(3);
    FullRingsClosedForm(2);
  }

  /**
   * The tile count __init__ chooses: the table entry for a nonzero ring count
   * that is a key of fullRings, the requested tile count otherwise.
   */
  function TileCount(rings: int, tiles: int): (count: int)
    ensures 1 <= rings < TabledRings ==> count == 1 + 3 * rings * (rings + 1)
    ensures !(1 <= rings < TabledRings) ==> count == tiles
  {
    if rings != 0 && rings in FullRingsTable() then
      FullRingsClosedForm(rings);
      FullRingsTable()[rings]
    else
      tiles
  }

  /** The strand count after __init__: never more strands than tiles, no error. */
  function ClampStrands(tubulins: int, tiles: int): (strands: int)
    ensures strands <= tiles
    ensures tubulins <= tiles ==> strands == tubulins
    ensures tubulins > tiles ==> strands == tiles
  {
    if tubulins > tiles then tiles else tubulins
  }

  /**
   * r is the least ring count whose complete-ring total holds `area` tiles:
   * r rings hold it and r - 1 rings do not (the totals grow with r).
   */
  predicate IsLeastRadius(area: int, r: nat) {
    area <= FullRings(r) && (r > 0 ==> FullRings(r - 1) < area)
  }

  /** No smaller ring count holds the area. */
  lemma LeastRadiusIsLeast(area: int, r: nat, s: nat)
    requires IsLeastRadius(area, r) && s < r
    ensures FullRings(s) < area
  {
    if s < r - 1 {
      FullRingsMonotone(s, r - 1);
    }
  }

  /** At most one radius is the least one. */
  lemma LeastRadiusUnique(area: int, r1: nat, r2: nat)
    requires IsLeastRadius(area, r1) && IsLeastRadius(area, r2)
    ensures r1 == r2
  {
    if r1 < r2 {
      LeastRadiusIsLeast(area, r2, r1);
    } else if r2 < r1 {
      LeastRadiusIsLeast(area, r1, r2);
    }
  }

  /** A complete-ring total needs exactly its own ring count. */
  lemma LeastRadiusOfFullRings(n: nat)
    ensures IsLeastRadius(FullRings(n), n)
  {
    if n > 0 {
      FullRingsMonotone(n - 1, n);
    }
  }

  /** The least radius for `area`, searched upward from `from`. */
  function RadiusFrom(area: int, from: nat): (r: nat)
    requires from > 0 ==> FullRings(from - 1) < area
    ensures IsLeastRadius(area, r) && from <= r
    decreases area - FullRings(from)
  {
    if area <= FullRings(from) then from
    else
      assert FullRings(from + 1) == FullRings(from) + 6 * (from + 1);
      RadiusFrom(area, from + 1)
  }

  /** The least radius for `area`; the centre tile alone needs radius 0. */
  function RadiusOf(area: int): (r: nat)
    ensures IsLeastRadius(area, r)
  {
    RadiusFrom(area, 0)
  }

  /**
   * sys.maxint of a 64-bit CPython 2. `int` of a larger (or a more negative)
   * value is a `long`, so a tile count outside this range fails the type
   * assertion of `needed`.
   */
  const MaxInt: int := 0x7FFF_FFFF_FFFF_FFFF

  /** x is a Python 2 `int`, not a `long`. */
  predicate IsPlainInt(x: int) {
    -MaxInt - 1 <= x <= MaxInt
  }

  /**
   * The errors `needed` raises: the area is a `long` (its type assertion),
   * or it is not positive (its range assertion).
   */
  datatype SizingError = LongArea | NonPositiveArea

  /**
   * needed: subtract the ring capacities 6, 12, 18, ... from area - 1 (the
   * centre is free) until nothing is left, counting the rings used.
   */
  method Needed(area: int) returns (result: Result<nat, SizingError>)
    ensures result == Failure(LongArea) <==> !IsPlainInt(area)
    ensures result == Failure(NonPositiveArea) <==> IsPlainInt(area) && area <= 0
    ensures result.Success? <==> 0 < area <= MaxInt
    ensures result.Success? ==> IsLeastRadius(area, result.value)
  {
    if !IsPlainInt(area) {
      return Failure(LongArea);
    }
    if area <= 0 {
      return Failure(NonPositiveArea);
    }
    var ring, n, radius := 6, 1, 0;
    var a := area - 1;
    while a > 0
      invariant ring == 6 * (radius + 1)
      invariant n == FullRings(radius) && a == area - n
      invariant radius > 0 ==> FullRings(radius - 1) < area
      decreases a
    {
      n := n + ring;
      a := a - ring;
      ring := ring + 6;
      radius := radius + 1;
    }
    return Success(radius);
  }

  /** Needed returns RadiusOf: the loop and the search agree. */
  lemma NeededIsRadiusOf(area: int, r: nat)
    requires IsLeastRadius(area, r)
    ensures r == RadiusOf(area)
  {
    LeastRadiusUnique(area, r, RadiusOf(area));
  }

  /**
   * The default options (no ring count, 91 tiles, 91 strands) and a request
   * for 5 rings both give 91 tiles on radius 5; 200 strands are clamped to 91.
   */
  lemma FiveRingsScenario()
    ensures TileCount(0, 91) == 91 && TileCount(5, 91) == 91 && RadiusOf(91) == 5
    ensures ClampStrands(91, 91) == 91 && ClampStrands(200, 91) == 91
  {
    FullRingsValues();
    LeastRadiusOfFullRings(5);
    NeededIsRadiusOf(91, 5);
  }
}

/**
 * The HexTile object: its dictionary (split into tile records and the strand
 * index), its ring lists and its sizes, built by __init__ and generateRings
 * and changed in place by rotate.
 */
module HexTiles {
  import opened Wrappers
  import opened Geometry
  import opened Sizing
  import opened Spiral
  import opened TileField
  import opened Cycles
  import opened Rotation

  /** The options __init__ reads: --Rings, --Tiles, --tubulin, --rotate and rotates. */
  datatype Options = Options(rings: int, tiles: int, tubulin: int, rotate: bool, rotates: seq<seq<int>>)

  /**
   * Why __init__ raises: `needed` rejects a tile count that is a `long` or
   * is not positive, rotate's assertion rejects a shared id, and a member of
   * group `group` that is not a tile or not an indexed strand fails its lookup.
   */
  datatype InitError = LongTiles | NoTiles | SharedTile | MissingTile(group: nat)

  /** The tiles one side of ring k has walked after j sides (6k once the ring is closed). */
  function Walked(k: nat, j: nat): nat
    requires j <= 6
  {
    if j == 6 then 6 * k else SideOffset(j, k)
  }

  /** The generator's first records: tile 1 at the centre holding strand 1, indexed to itself, alone in ring 0. */
  lemma CentreRecords(tubulins: int)
    ensures Seeded(map[1 := Tile(Coord(0, 0, 0), 0, -1, 0, 0)], 1, tubulins)
    ensures IdentityHosts(1) == map[1 := 1]
    ensures RingTable(0) == map[0 := [1]]
  {
    CentreTile(1, tubulins);
  }

  /** Appending hi to range(lo, hi) gives range(lo, hi + 1). */
  lemma RangeGrows(lo: int, hi: int)
    requires lo <= hi
    ensures Range(lo, hi) + [hi] == Range(lo, hi + 1)
  {
  }

  /** Closing ring k >= 1 adds its id list to the ring table. */
  lemma RingTableGrows(k: nat)
    requires k >= 1
    ensures RingTable(k) == RingTable(k - 1)[k := Range(FullRings(k - 1) + 1, FullRings(k) + 1)]
  {
  }

  /**
   * Step s of side j of ring k reaches the tile the spiral numbers next:
   * the record generateRings writes there is that tile's fresh record.
   */
  lemma SpiralStep(k: nat, j: nat, s: nat, tubulins: int)
    requires 1 <= k && j < 6 && s < k
    ensures SlotId(k, j, s) >= 2
    ensures FreshTile(SlotId(k, j, s), tubulins) ==
      Tile(Walk(Corner(k, j), Neighbor[j], s + 1), k,
           -(if SlotId(k, j, s) <= tubulins then SlotId(k, j, s) else 0), 0, 0)
  {
    LocateSlot(k, j, s);
    SlotPositionFromCorner(k, j, s);
    WalkAlong(Corner(k, j), j, s + 1);
  }

  /** Step s of side j of ring k writes the record generateRings writes for tile t + 1. */
  lemma SideStep(k: nat, j: nat, s: nat, tubulins: int, t: int, pos: Coord, record: Tile)
    requires 1 <= k && j < 6 && s < k
    requires t == FullRings(k - 1) + SideOffset(j, k) + s && pos == Walk(Corner(k, j), Neighbor[j], s + 1)
    requires record == Tile(pos, k, -(if t + 1 <= tubulins then t + 1 else 0), 0, 0)
    ensures t >= 1 && FreshTile(t + 1, tubulins) == record
  {
    SpiralStep(k, j, s, tubulins);
    assert SlotId(k, j, s) == t + 1;
  }

  /** The end of side j < 5 of ring k is where side j + 1 begins. */
  lemma SideEnds(k: nat, j: nat)
    requires j < 6
    ensures j < 5 ==> Add(Corner(k, j), Along(j, k)) == Corner(k, j + 1)
    ensures Walked(k, j + 1) == SideOffset(j, k) + k
  {
  }

  /**
   * The records one side walk writes over `records`: step i (1 <= i <= s)
   * numbers tile `tile + i` at i steps from `from` along direction j, on
   * ring k, holding strand tile + i when that is at most `tubulins`.
   */
  function SideRecords(records: map<int, Tile>, k: nat, j: nat, tubulins: int, tile: int, from: Coord, s: nat): map<int, Tile>
    requires j < 6
    decreases s
  {
    if s == 0 then records
    else SideRecords(records, k, j, tubulins, tile, from, s - 1)[tile + s :=
      Tile(Walk(from, Neighbor[j], s), k, -(if tile + s <= tubulins then tile + s else 0), 0, 0)]
  }

  /** Walking s steps of side j of ring k from its corner numbers the next s tiles of the spiral. */
  lemma {:induction false} SideRecordsSeeded(records: map<int, Tile>, k: nat, j: nat, tubulins: int, tile: int, s: nat)
    requires 1 <= k && j < 6 && s <= k && tile == FullRings(k - 1) + SideOffset(j, k)
    requires Seeded(records, tile, tubulins)
    ensures Seeded(SideRecords(records, k, j, tubulins, tile, Corner(k, j), s), tile + s, tubulins)
    decreases s
  {
    if s > 0 {
      var t := tile + s - 1;
      var pos := Walk(Corner(k, j), Neighbor[j], s);
      var record := Tile(pos, k, -(if t + 1 <= tubulins then t + 1 else 0), 0, 0);
      var prev := SideRecords(records, k, j, tubulins, tile, Corner(k, j), s - 1);
      assert SideRecords(records, k, j, tubulins, tile, Corner(k, j), s) == prev[t + 1 := record];
      assert Seeded(prev, t, tubulins) by {
        SideRecordsSeeded(records, k, j, tubulins, tile, s - 1);
      }
      assert t >= 1 && FreshTile(t + 1, tubulins) == record by {
        SideStep(k, j, s - 1, tubulins, t, pos, record);
      }
      SeededGrows(prev, t, tubulins, record);
    }
  }

  /**
   * generateRings on values: the centre tile, then ring after ring walked
   * by WalkRing, giving the tile records, the strand index and the ring table.
   */
  method GenerateRecords(rings: nat, tubulins: int) returns (records: map<int, Tile>, index: map<int, int>,
                                                              table: map<int, seq<int>>)
    ensures records == Generated(FullRings(rings), tubulins) && index == IdentityHosts(FullRings(rings))
    ensures Seeded(records, FullRings(rings), tubulins)
    ensures table == RingTable(rings)
  {
    var tile := 1;
    table := map[0 := [tile]];
    records := map[tile := Tile(Coord(0, 0, 0), 0, -tile, 0, 0)];
    index := map[tile := tile];
    CentreRecords(tubulins);
    var k: nat := 1;
    while k <= rings
      invariant 1 <= k <= rings + 1
      invariant tile == FullRings(k - 1)
      invariant Seeded(records, tile, tubulins) && index == IdentityHosts(tile)
      invariant table == RingTable(k - 1)
    {
      var ids;
      tile, records, index, ids := WalkRing(k, tubulins, tile, records, index);
      RingTableGrows(k);
      table := table[k := ids];
      k := k + 1;
    }
    assert tile == FullRings(rings) && table == RingTable(rings);
    SeededIsGenerated(records, tile, tubulins);
  }

  /**
   * The walk of ring k >= 1 in generateRings: from (0, -k, k), k steps along
   * each of the six neighbor directions in turn, numbering the tiles after
   * `tile` and collecting their ids in the ring's list.
   */
  method WalkRing(k: nat, tubulins: int, tile: int, records: map<int, Tile>, index: map<int, int>)
    returns (last: int, records': map<int, Tile>, index': map<int, int>, ids: seq<int>)
    requires 1 <= k && tile == FullRings(k - 1)
    requires Seeded(records, tile, tubulins) && index == IdentityHosts(tile)
    ensures last == FullRings(k) && ids == RingIds(k)
    ensures Seeded(records', last, tubulins) && index' == IdentityHosts(last)
  {
    last, records', index', ids := tile, records, index, [];
    var pos := Coord(0, 0 - k, k);
    var j := 0;
    while j < 6
      invariant 0 <= j <= 6
      invariant last == FullRings(k - 1) + Walked(k, j)
      invariant j < 6 ==> pos == Corner(k, j)
      invariant Seeded(records', last, tubulins) && index' == IdentityHosts(last)
      invariant ids == Range(tile + 1, last + 1)
    {
      ghost var start, corner, before := last, pos, records';
      last, pos, records', index', ids := WalkSide(k, j, tubulins, tile + 1, last, pos, records', index', ids);
      assert Seeded(records', last, tubulins) by {
        SideRecordsSeeded(before, k, j, tubulins, start, k);
      }
      assert j < 5 ==> pos == Corner(k, j + 1) by {
        WalkAlong(corner, j, k);
        SideEnds(k, j);
      }
      SideEnds(k, j);
      j := j + 1;
    }
    FullRingsStep(k);
  }

  /**
   * One side of the ring walk: k steps from `pos` along neighbor direction
   * j, numbering the next k tiles, seeding and indexing their strands and
   * appending their ids to the ring's list.
   */
  method WalkSide(k: nat, j: nat, tubulins: int, first: int, tile: int, pos: Coord,
                  records: map<int, Tile>, index: map<int, int>, ids: seq<int>)
    returns (last: int, pos': Coord, records': map<int, Tile>, index': map<int, int>, ids': seq<int>)
    requires j < 6 && 0 <= tile && first <= tile + 1
    requires index == IdentityHosts(tile) && ids == Range(first, tile + 1)
    ensures last == tile + k && pos' == Walk(pos, Neighbor[j], k)
    ensures records' == SideRecords(records, k, j, tubulins, tile, pos, k) && index' == IdentityHosts(last)
    ensures ids' == Range(first, last + 1)
  {
    last, pos', records', index', ids' := tile, pos, records, index, ids;
    var s := 0;
    while s < k
      invariant 0 <= s <= k
      invariant last == tile + s
      invariant pos' == Walk(pos, Neighbor[j], s)
      invariant records' == SideRecords(records, k, j, tubulins, tile, pos, s) && index' == IdentityHosts(last)
      invariant ids' == Range(first, last + 1)
    {
      RangeGrows(first, last + 1);
      last := last + 1;
      var p := -(if last <= tubulins then last else 0);
      pos' := Add(pos', Neighbor[j]);
      ids' := ids' + [last];
      records' := records'[last := Tile(pos', k, p, 0, 0)];
      index' := index'[last := last];
      s := s + 1;
    }
  }

  class HexTile {
    /** The positive keys of the dictionary: tile id -> record. */
    var tiles: map<int, Tile>
    /** The negative keys of the dictionary: strand s -> id of its host tile (self[-s]). */
    var hosts: map<int, int>
    /** self.ring: ring index -> ids of its tiles, in spiral order. */
    var ring: map<int, seq<int>>
    /** self.radius: the rings around the centre. */
    var radius: nat
    /** self.tubes: the tile count __init__ chose. */
    var tubes: int
    /** The strand count after clamping (kw['--tubulin']). */
    var strands: int
    /** The --rotate option. */
    var rotating: bool

    /**
     * The object as __init__ leaves it and rotate keeps it: the radius is the
     * least one holding the tile count, rings 0..radius are all generated,
     * every tile keeps its spiral position, and the two views of the
     * dictionary agree.
     */
    ghost predicate Valid()
      reads this
    {
      IsLeastRadius(tubes, radius) && strands <= tubes &&
      Consistent(tiles, hosts, FullRings(radius)) && Layout(tiles, FullRings(radius)) &&
      ring == RingTable(radius)
    }

    /** The rotating part of the dictionary. */
    function Snapshot(): Field
      reads this
    {
      Field(tiles, hosts)
    }

    /**
     * __init__ for a positive tile count that is a plain `int`: clamp the
     * strands, size the radius with `needed` and generate the rings.
     */
    constructor (count: int, tubulins: int, rotate: bool)
      requires 0 < count <= MaxInt
      ensures tubes == count && strands == ClampStrands(tubulins, count) && rotating == rotate
      ensures IsLeastRadius(count, radius)
      ensures tiles == Generated(FullRings(radius), strands) && hosts == IdentityHosts(FullRings(radius))
      ensures ring == RingTable(radius)
      ensures Valid()
    {
      tubes := count;
      strands := ClampStrands(tubulins, count);
      rotating := rotate;
      tiles, hosts, ring := map[], map[], map[];
      var sized := Needed(count);
      radius := sized.value;
      new;
      GenerateRings();
      assert Valid() by {
        SeededConsistent(tiles, FullRings(radius), strands);
        SeededLayout(tiles, FullRings(radius), strands);
      }
    }

    /**
     * generateRings: tile 1 at the centre, then ring by ring from (0, -k, k)
     * k steps along each neighbor direction, numbering every tile reached,
     * seeding strand t on tile t while t <= strands (empty otherwise) and
     * indexing strand t to tile t.
     */
    method GenerateRings()
      modifies this
      ensures tiles == Generated(FullRings(radius), strands) && hosts == IdentityHosts(FullRings(radius))
      ensures Seeded(tiles, FullRings(radius), strands)
      ensures ring == RingTable(radius)
      ensures unchanged(this`radius, this`strands, this`tubes, this`rotating)
    {
      tiles, hosts, ring := GenerateRecords(radius, strands);
    }

    /**
     * adjacents: walk the pairs of the group and its left rotation; a member
     * that is not a tile fails the lookup (None), the first pair of tiles
     * that are not adjacent answers false, and true once every pair passed.
     */
    method Adjacents(group: seq<int>) returns (r: Option<bool>)
      ensures r == Cycles.Adjacents(tiles, group)
      ensures r == Some(true) <==> IsCycle(tiles, group)
    {
      var shifted := RotateLeft(group);
      var i := 0;
      while i < |group|
        invariant 0 <= i <= |group|
        invariant AdjacentsFrom(tiles, group, i) == AdjacentsFrom(tiles, group, 0)
      {
        var t1, t2 := group[i], shifted[i];
        if t1 !in tiles || t2 !in tiles {
          return None;
        }
        if !Adjacent(tiles[t1].pos, tiles[t2].pos) {
          return Some(false);
        }
        i := i + 1;
      }
      return Some(true);
    }

    /**
     * rotate: with the option on, refuse groups that share an id; then, group
     * by group, check adjacency (reporting only), look up the host of every
     * strand and move strand group[i] into the host of the strand after it,
     * marking that tile with the group and the position i.
     */
    method Rotate(groups: seq<seq<int>>) returns (outcome: Outcome)
      requires Valid()
      modifies this
      ensures (Snapshot(), outcome) == RotateAll(old(Snapshot()), rotating, groups)
      ensures Valid()
      ensures unchanged(this`ring, this`radius, this`tubes, this`strands, this`rotating)
    {
      ghost var start, n := Snapshot(), FullRings(radius);
      if !rotating {
        return Skipped;
      }
      if |groups| > 0 {
        var flat := Flatten(groups);
        DistinctIffNoRepeats(flat);
        if |Elements(flat)| != |flat| {
          return Overlap;
        }
      }
      outcome := RotateGroups(groups);
      assert (Snapshot(), outcome) == RotateAll(start, rotating, groups);
      assert Valid() by {
        RotateAllPreserves(start, n, rotating, groups);
      }
    }

    /**
     * The inner loop of rotate for group g, in place: move i writes strand
     * group[i] into tile targets[i], marking it with the group and i, and
     * indexes strand group[i] to that tile.
     */
    method MoveGroup(g: int, group: seq<int>, targets: seq<int>)
      requires |targets| == |group|
      modifies this
      ensures tiles == MoveTiles(old(tiles), g, group, targets, |group|)
      ensures hosts == MoveHosts(old(hosts), group, targets, |group|)
      ensures unchanged(this`ring, this`radius, this`tubes, this`strands, this`rotating)
    {
      var moved := 0;
      while moved < |group|
        invariant 0 <= moved <= |group|
        invariant tiles == MoveTiles(old(tiles), g, group, targets, moved)
        invariant hosts == MoveHosts(old(hosts), group, targets, moved)
        invariant unchanged(this`ring, this`radius, this`tubes, this`strands, this`rotating)
      {
        var strand, target := group[moved], targets[moved];
        if target in tiles {
          tiles := tiles[target := MovedIn(tiles[target], strand, g, moved)];
        }
        hosts := hosts[strand := target];
        moved := moved + 1;
      }
    }

    /**
     * The loop of rotate over the groups: check a group's adjacency, stop
     * at a member that is not a tile or not an indexed strand, and otherwise
     * move each strand of the group to the host of the next one.
     */
    method RotateGroups(groups: seq<seq<int>>) returns (outcome: Outcome)
      modifies this
      ensures (Snapshot(), outcome) == Sweep(old(Snapshot()), groups, 0, [])
      ensures unchanged(this`ring, this`radius, this`tubes, this`strands, this`rotating)
    {
      ghost var start := Snapshot();
      var g := 0;
      var flags: seq<bool> := [];
      while g < |groups|
        invariant 0 <= g <= |groups|
        invariant Sweep(Snapshot(), groups, g, flags) == Sweep(start, groups, 0, [])
        invariant unchanged(this`ring, this`radius, this`tubes, this`strands, this`rotating)
      {
        var group := groups[g];
        ghost var before := Snapshot();
        var adjacent := Adjacents(group);
        if adjacent.None? || !Indexed(hosts, group) {
          SweepHalts(before, groups, g, flags);
          return Missing(g);
        }
        var indices := HostsOf(hosts, group);
        var targets := RotateLeft(indices);
        MoveGroup(g, group, targets);
        SweepMoves(before, Snapshot(), groups, g, flags);
        flags := flags + [adjacent.value];
        g := g + 1;
      }
      return Rotated(flags);
    }
  }

  /** The rotating part of the dictionary right after generateRings, for a positive tile count. */
  function Initial(count: int, tubulins: int): Field {
    var n := FullRings(RadiusOf(count));
    Field(Generated(n, ClampStrands(tubulins, count)), IdentityHosts(n))
  }

  /**
   * __init__: choose the tile count from --Rings or --Tiles, clamp the
   * strands, size and generate the rings, and rotate when the option is on.
   * Every exception __init__ can raise on these paths is an error result.
   */
  method Create(opts: Options) returns (r: Result<HexTile, InitError>)
    ensures !IsPlainInt(TileCount(opts.rings, opts.tiles)) <==> r == Failure(LongTiles)
    ensures IsPlainInt(TileCount(opts.rings, opts.tiles)) && TileCount(opts.rings, opts.tiles) <= 0 <==>
      r == Failure(NoTiles)
    ensures 0 < TileCount(opts.rings, opts.tiles) <= MaxInt ==>
      var count := TileCount(opts.rings, opts.tiles);
      var (field, outcome) := RotateAll(Initial(count, opts.tubulin), opts.rotate, opts.rotates);
      match outcome
      case Overlap => r == Failure(SharedTile)
      case Missing(g) => r == Failure(MissingTile(g))
      case _ => (r.Success? && fresh(r.value) && r.value.Valid() && r.value.Snapshot() == field &&
        r.value.tubes == count && r.value.strands == ClampStrands(opts.tubulin, count) &&
        r.value.radius == RadiusOf(count) && r.value.rotating == opts.rotate)
  {
    var count := TileCount(opts.rings, opts.tiles);
    if !IsPlainInt(count) {
      return Failure(LongTiles);
    }
    if count <= 0 {
      return Failure(NoTiles);
    }
    var h := new HexTile(count, opts.tubulin, opts.rotate);
    NeededIsRadiusOf(count, h.radius);
    if opts.rotate {
      var outcome := h.Rotate(opts.rotates);
      if outcome == Overlap {
        return Failure(SharedTile);
      }
      if outcome.Missing? {
        return Failure(MissingTile(outcome.group));
      }
    } else {
      RotateAllGuards(h.Snapshot(), FullRings(h.radius), false, opts.rotates);
    }
    return Success(h);
  }
}

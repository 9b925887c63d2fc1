/**
 * The records HexTile keeps for its tiles and the field generateRings builds.
 *
 * The source keeps one dictionary with two kinds of keys: a positive key t
 * maps to the record of tile t, a negative key -s maps to the id of the tile
 * hosting strand s. Here the two halves are two maps: `tiles` (t -> record)
 * and `hosts` (s -> tile id, standing for the entry under key -s).
 */
module TileField {
  import opened Geometry
  import opened Sizing
  import opened Spiral

  /** A tile record: position (R, G, B), ring, strand (-s or 0), group and moved. */
  datatype Tile = Tile(pos: Coord, ring: nat, strand: int, group: int, moved: int)

  /**
   * The strand generateRings seeds on tile t: the centre always holds
   * strand 1 (-1); tile t > 1 holds strand t when t <= tubulins and is
   * empty (0) otherwise.
   */
  function SeedStrand(t: int, tubulins: int): int {
    if t == 1 then -1 else -(if t <= tubulins then t else 0)
  }

  /** The record generateRings writes for tile t: spiral position, ring, seeded strand, group and moved 0. */
  function FreshTile(t: int, tubulins: int): Tile
    requires t >= 1
  {
    Tile(Position(t), RingIndex(t), SeedStrand(t, tubulins), 0, 0)
  }

  /** The tile records after generateRings has numbered tiles 1..n, one record per tile in numbering order. */
  function Generated(n: int, tubulins: int): map<int, Tile>
    decreases n
  {
    if n < 1 then map[] else Generated(n - 1, tubulins)[n := FreshTile(n, tubulins)]
  }

  /** Exactly the tiles 1..n have records, and each holds the record generateRings writes for it. */
  ghost predicate Seeded(records: map<int, Tile>, n: int, tubulins: int) {
    (forall t :: t in records <==> 1 <= t <= n) &&
    (forall t :: t in records ==> records[t] == FreshTile(t, tubulins))
  }

  /** The generated records are exactly the tiles 1..n, each with its fresh record. */
  lemma {:induction false} GeneratedRecords(n: int, tubulins: int)
    ensures Seeded(Generated(n, tubulins), n, tubulins)
    decreases n
  {
    if n >= 1 {
      GeneratedRecords(n - 1, tubulins);
    }
  }

  /** Seeded describes Generated completely: any map numbered up to n is the generated one. */
  lemma SeededIsGenerated(records: map<int, Tile>, n: int, tubulins: int)
    requires Seeded(records, n, tubulins)
    ensures records == Generated(n, tubulins)
  {
    var generated := Generated(n, tubulins);
    GeneratedRecords(n, tubulins);
    forall t
      ensures t in records <==> t in generated
      ensures t in records ==> records[t] == generated[t]
    {
    }
  }

  /** Numbering tile n + 1 with its fresh record extends the numbering. */
  lemma SeededGrows(records: map<int, Tile>, n: int, tubulins: int, record: Tile)
    requires n >= 0 && Seeded(records, n, tubulins) && record == FreshTile(n + 1, tubulins)
    ensures Seeded(records[n + 1 := record], n + 1, tubulins)
  {
  }

  /** The strand index after generateRings numbered tiles 1..n, one entry per tile in numbering order. */
  function IdentityHosts(n: int): map<int, int>
    decreases n
  {
    if n < 1 then map[] else IdentityHosts(n - 1)[n := n]
  }

  /** The index holds exactly the strands 1..n, strand s on tile s. */
  lemma {:induction false} IdentityRecords(n: int)
    ensures forall s :: s in IdentityHosts(n) <==> 1 <= s <= n
    ensures forall s {:trigger IdentityHosts(n)[s]} :: s in IdentityHosts(n) ==> IdentityHosts(n)[s] == s
    decreases n
  {
    if n >= 1 {
      IdentityRecords(n - 1);
    }
  }

  /** The ids lo, lo + 1, ..., hi - 1 (Python's range(lo, hi)). */
  function Range(lo: int, hi: int): seq<int>
    decreases hi - lo
  {
    if lo < hi then Range(lo, hi - 1) + [hi - 1] else []
  }

  /** range(lo, hi) holds hi - lo ids, the i-th of them lo + i. */
  lemma {:induction false} RangeValues(lo: int, hi: int)
    ensures lo <= hi ==> |Range(lo, hi)| == hi - lo
    ensures forall i :: 0 <= i < |Range(lo, hi)| ==> Range(lo, hi)[i] == lo + i
    decreases hi - lo
  {
    if lo < hi {
      RangeValues(lo, hi - 1);
    }
  }

  /** The ids self.ring[k] lists, in the order generateRings appends them. */
  function RingIds(k: nat): seq<int> {
    if k == 0 then [1] else Range(FullRings(k - 1) + 1, FullRings(k) + 1)
  }

  /** self.ring after generateRings: rings 0..radius and their ids. */
  function RingTable(radius: nat): map<int, seq<int>> {
    map k | 0 <= k <= radius :: RingIds(k)
  }

  /** Exactly the tiles 1..n exist and each keeps its generated position and ring. */
  ghost predicate Layout(tiles: map<int, Tile>, n: int) {
    (forall t :: t in tiles <==> 1 <= t <= n) &&
    (forall t :: t in tiles ==> tiles[t].pos == Position(t) && tiles[t].ring == RingIndex(t))
  }

  /** Every indexed strand has a host tile that shows it or is marked empty. */
  ghost predicate HostsShow(tiles: map<int, Tile>, hosts: map<int, int>) {
    forall s :: s in hosts ==> hosts[s] in tiles && (tiles[hosts[s]].strand == -s || tiles[hosts[s]].strand == 0)
  }

  /** No two strands share a host tile. */
  ghost predicate HostsInjective(hosts: map<int, int>) {
    forall s1, s2 :: s1 in hosts && s2 in hosts && s1 != s2 ==> hosts[s1] != hosts[s2]
  }

  /** Every strand a tile shows is indexed to that tile. */
  ghost predicate ShownIndexed(tiles: map<int, Tile>, hosts: map<int, int>) {
    forall t :: t in tiles && tiles[t].strand != 0 ==> -tiles[t].strand in hosts && hosts[-tiles[t].strand] == t
  }

  /**
   * The two views of the dictionary agree: tiles and strands are both
   * numbered 1..n, every strand has one host of its own, that host either
   * shows the strand or is marked empty, and every strand a tile shows is
   * indexed to that tile.
   */
  ghost predicate Consistent(tiles: map<int, Tile>, hosts: map<int, int>, n: int) {
    (forall t :: t in tiles <==> 1 <= t <= n) &&
    (forall s :: s in hosts <==> 1 <= s <= n) &&
    HostsShow(tiles, hosts) && HostsInjective(hosts) && ShownIndexed(tiles, hosts)
  }

  /** Seeded records keep their spiral positions and rings. */
  lemma SeededLayout(records: map<int, Tile>, n: int, tubulins: int)
    requires Seeded(records, n, tubulins)
    ensures Layout(records, n)
  {
  }

  /** Every generated tile keeps its spiral position, balanced and on its own ring. */
  lemma GeneratedLayout(n: int, tubulins: int)
    ensures Layout(Generated(n, tubulins), n)
    ensures forall t :: t in Generated(n, tubulins) ==>
      Balanced(Generated(n, tubulins)[t].pos) && Chebyshev(Generated(n, tubulins)[t].pos) == Generated(n, tubulins)[t].ring
  {
    var tiles := Generated(n, tubulins);
    GeneratedRecords(n, tubulins);
    SeededLayout(tiles, n, tubulins);
    forall t | t in tiles
      ensures Balanced(tiles[t].pos) && Chebyshev(tiles[t].pos) == tiles[t].ring
    {
      PositionBalanced(t);
      PositionOnRing(t);
    }
  }

  /** Seeded records and the identity strand index are consistent. */
  lemma SeededConsistent(tiles: map<int, Tile>, n: int, tubulins: int)
    requires Seeded(tiles, n, tubulins)
    ensures Consistent(tiles, IdentityHosts(n), n)
  {
    var hosts := IdentityHosts(n);
    IdentityRecords(n);
    forall s | s in hosts
      ensures hosts[s] in tiles && (tiles[hosts[s]].strand == -s || tiles[hosts[s]].strand == 0)
    {
      assert hosts[s] == s && tiles[s].strand == SeedStrand(s, tubulins);
    }
    forall t | t in tiles && tiles[t].strand != 0
      ensures -tiles[t].strand in hosts && hosts[-tiles[t].strand] == t
    {
      assert tiles[t].strand == SeedStrand(t, tubulins);
    }
  }

  /** The generated records and the identity strand index are consistent. */
  lemma GeneratedConsistent(n: int, tubulins: int)
    ensures Consistent(Generated(n, tubulins), IdentityHosts(n), n)
  {
    GeneratedRecords(n, tubulins);
    SeededConsistent(Generated(n, tubulins), n, tubulins);
  }

  /** Tile 1 is the centre of ring 0 and holds strand 1 whatever the strand count. */
  lemma CentreTile(n: int, tubulins: int)
    requires n >= 1
    ensures 1 in Generated(n, tubulins) && Generated(n, tubulins)[1] == Tile(Coord(0, 0, 0), 0, -1, 0, 0)
    ensures RingIds(0) == [1] && 1 in IdentityHosts(n) && IdentityHosts(n)[1] == 1
  {
    GeneratedRecords(n, tubulins);
    IdentityRecords(n);
    assert Locate(1) == Slot(0, 0, 0);
  }

  /** Ring k's list holds the centre (k = 0) or exactly the ids after the inner rings and up to ring k. */
  lemma InRingIds(k: nat, t: int)
    ensures k == 0 ==> (t in RingIds(k) <==> t == 1)
    ensures k >= 1 ==> (t in RingIds(k) <==> FullRings(k - 1) < t <= FullRings(k))
  {
    if k >= 1 {
      var lo, hi := FullRings(k - 1) + 1, FullRings(k) + 1;
      FullRingsStep(k);
      RangeValues(lo, hi);
      if lo <= t < hi {
        assert Range(lo, hi)[t - lo] == t;
      }
    }
  }

  /**
   * Ring k >= 1 lists 6k consecutive ids, from FullRings(k - 1) + 1 to
   * FullRings(k), and every one of them lies on ring k.
   */
  lemma {:induction false} RingIdsOfRing(k: nat)
    requires k >= 1
    ensures |RingIds(k)| == 6 * k
    ensures RingIds(k)[0] == FullRings(k - 1) + 1 && RingIds(k)[6 * k - 1] == FullRings(k)
    ensures forall i :: 0 <= i < 6 * k ==> RingIds(k)[i] == RingId(k, i)
    ensures forall t :: t in RingIds(k) ==> t >= 1 && RingIndex(t) == k
  {
    var ids := RingIds(k);
    assert |ids| == 6 * k && forall i :: 0 <= i < 6 * k ==> ids[i] == RingId(k, i) by {
      FullRingsStep(k);
      RangeValues(FullRings(k - 1) + 1, FullRings(k) + 1);
    }
    forall t | t in ids
      ensures t >= 1 && RingIndex(t) == k
    {
      InRingIds(k, t);
      RingIndexRange(t, k);
    }
  }

  /**
   * The rings partition the generated ids: tile t of 1..FullRings(radius)
   * appears in ring RingIndex(t) <= radius and in no other ring.
   */
  lemma {:induction false} RingsPartition(radius: nat, t: int)
    requires 1 <= t <= FullRings(radius)
    ensures RingIndex(t) <= radius && t in RingTable(radius)[RingIndex(t)]
    ensures forall k :: 0 <= k <= radius && t in RingTable(radius)[k] ==> k == RingIndex(t)
  {
    var r := RingIndex(t);
    assert r <= radius by {
      RingIndexIsRadius(t);
      if r > radius {
        LeastRadiusIsLeast(t, r, radius);
      }
    }
    assert t in RingIds(r) by {
      RingIndexRange(t, r);
      InRingIds(r, t);
    }
    forall k | 0 <= k <= radius && t in RingTable(radius)[k]
      ensures k == r
    {
      assert t in RingIds(k);
      InRingIds(k, t);
      RingIndexRange(t, k);
    }
  }

  /**
   * Tiles 1..19 of a generated field sit where the numbered diagram puts
   * them (tile 2 at (1, -1, 0), tile 3 at (1, 0, -1), tile 7 at (0, -1, 1), ...).
   */
  lemma DiagramTiles(n: int, tubulins: int)
    requires n >= 19
    ensures forall t :: 1 <= t <= 19 ==> t in Generated(n, tubulins) && Generated(n, tubulins)[t].pos == DiagramCoord(t)
  {
    var tiles := Generated(n, tubulins);
    assert Layout(tiles, n) by {
      GeneratedRecords(n, tubulins);
      SeededLayout(tiles, n, tubulins);
    }
    forall t | 1 <= t <= 19
      ensures t in tiles && tiles[t].pos == DiagramCoord(t)
    {
      DiagramPosition(t);
    }
  }
}

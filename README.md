# HexTile in Dafny

A model of the core of `HexTile.py`.

`HexTile` is a dictionary of hexagonal tiles laid out in concentric rings around a centre tile. Tiles are addressed by three-axis (R, G, B) coordinates. Each tile may hold one numbered tubulin strand, and `rotate` moves the strands of each group of tiles one step around that group.

The model covers:

- the ring-size table `fullRings`;
- the tile-count choice and strand clamp in `__init__`;
- the radius search `needed`;
- the spiral numbering of `generateRings`;
- the adjacency test `adjacent` and the cycle test `adjacents`;
- the displacement `rotate`.

Modules (one per concern, each file one module):

- `wrappers.dfy` (`Wrappers`): `Option` and `Result`.
- `geometry.dfy` (`Geometry`): coordinates, the six `neighbor` directions and the adjacency test.
- `sizing.dfy` (`Sizing`): `fullRings`, the tile count chosen from `--Rings`/`--Tiles`, the strand clamp and the `needed` loop.
- `spiral.dfy` (`Spiral`): the spiral order of `generateRings` as a closed form. Every tile id has a (ring, side, step) slot and a position, and the diagram coordinates of tiles 1..19 are included.
- `tilefield.dfy` (`TileField`): tile records, the freshly generated dictionary, the ring lists, and the invariant that ties tiles to strands.
- `cycles.dfy` (`Cycles`): `adjacents` over a group and its left rotation, and the hand-made test groups.
- `rotation.dfy` (`Rotation`): `rotate` on values. This covers the overlap check, the per-group move, the sweep over groups and the properties of all three.
- `hextile.dfy` (`HexTiles`): the `HexTile` class. It holds the fields that `__init__`, `generateRings` and `rotate` update in place, the loops of those methods, and the `__init__` entry point `Create` with its error cases.

The Python object is one dictionary with two kinds of key. The model splits it into two fields:

- `tiles: map<int, Tile>` holds the positive keys, from tile id to the tile's record.
- `hosts: map<int, int>` holds the negative keys: `hosts[s]` is `self[-s]`, the id of the tile that hosts strand `s`.

The invariant `Consistent` ties the two views together:

- every indexed strand is hosted by a tile that shows that strand or is empty;
- no two strands share a host;
- every strand shown on a tile is indexed to that tile.

`generateRings` establishes it and every rotation keeps it.

Where the code does less than its docstrings say, the model follows the code. The docstring of `needed` promises to "ensure that everything fits" (`HexTile.py:128`). The docstring of `rotate` says that tile numbers are expected to be unique over all groups and that adjacent tile numbers are expected to be neighbors (`HexTile.py:188-189`). Only uniqueness is enforced:

- `needed` asserts `0 < area <= HexTile.fullRings.values()`. The second comparison is between an `int` and a `list`, which Python 2 always answers `True`. The range assertion therefore only rejects a tile count that is not positive (`HexTile.py:131`). The type assertion before it, `type(area) == type(1)` (`HexTile.py:130`), rejects a tile count that Python 2 holds as a `long`, one outside -sys.maxint - 1 .. sys.maxint. The model takes sys.maxint to be that of a 64-bit CPython 2, 2^63 - 1 (`Sizing.MaxInt`).
- `rotate` calls `self.adjacents(tiles)` and discards the answer (`HexTile.py:200`). A group that is not a cycle is still rotated. The model reports each group's verdict in `Rotated(flags)` and rotates anyway.
- `adjacents` looks group members up as tile ids (`self[t1]`), but the move looks them up as strand numbers (`self[-tile]`, `HexTile.py:201`). The model does both, as the code does.
- Overlapping groups fail before any tile is changed. A group member that is not a tile, or not an indexed strand, makes the batch fail partway through. The groups before it stay rotated, and the exception leaves `__init__`. The failure happens in one of three places:
  - in `adjacents`, when the loop reaches a pair with such a member before any non-adjacent pair (`KeyError`, or `TypeError` for a negative id, whose entry is an `int`);
  - in building `indices` (`KeyError` on `self[-tile]`, `HexTile.py:201`);
  - inside the move loop, for a negative member -m with m a tile, placed after a non-adjacent pair. Then `adjacents` stops early, `self[-tile]` yields tile m's record, and that record, a `dict`, becomes a key at `self[index]` (`TypeError`, `HexTile.py:209`). The moves before the one that targets that record have already happened.

  In every case the model reports `Missing(g)` for that group and leaves it unmoved.

## Model

| member | source | states |
|---|---|---|
| Sizing.FullRings | HexTile.py:94 | definition: 1 + 6(0 + 1 + ... + n), the tiles in n complete rings around the centre |
| Sizing.FullRingsTable | HexTile.py:94 | definition: the dictionary fullRings, keys 0..29 |
| Sizing.FullRingsClosedForm | HexTile.py:94 | fullRings[n] = 1 + 6(0 + 1 + ... + n) equals 1 + 3n(n + 1) |
| Sizing.FullRingsStep | HexTile.py:94 | ring n adds 6n tiles to the n - 1 rings inside it |
| Sizing.FullRingsMonotone | HexTile.py:94 | the table grows strictly with the ring count |
| Sizing.FullRingsValues | HexTile.py:94 | the first entries are 1, 7, 19, 37, 61, 91 |
| Sizing.TileCount | HexTile.py:107-112 | a ring count r in 1..29 (a non-zero key of fullRings) gives 1 + 3r(r + 1) tiles; any other ring count gives the --Tiles value |
| Sizing.ClampStrands | HexTile.py:113-116 | the strand count never exceeds the tile count; it is kept when it fits and becomes the tile count otherwise, with no error |
| Sizing.Needed | HexTile.py:126-138 | fails with LongArea exactly when the area is a Python 2 `long`, with NonPositiveArea exactly when it is an `int` that is not positive; otherwise returns the least radius whose complete rings hold the area |
| Sizing.RadiusFrom | HexTile.py:134-138 | counting rings upward from one that is still too small ends at the least radius |
| Sizing.RadiusOf | HexTile.py:126-138 | every area has a least radius: the fewest complete rings whose tile total reaches it |
| Sizing.LeastRadiusIsLeast | HexTile.py:134-138 | every radius below the least one holds fewer tiles than the area |
| Sizing.LeastRadiusUnique | HexTile.py:126-138 | the least radius is unique, so the loop and the search agree |
| Sizing.NeededIsRadiusOf | HexTile.py:126-138 | any least radius is RadiusOf(area) |
| Sizing.LeastRadiusOfFullRings | HexTile.py:126-138 | a complete-ring total needs exactly its own ring count |
| Sizing.FiveRingsScenario | HexTile.py:107-116 | the default options (ring count 0, 91 tiles, 91 strands) and a request for 5 rings both give 91 tiles and radius 5; 200 requested strands are clamped to 91 |
| Geometry.Adjacent | HexTile.py:155-165 | definition: the coordinate differences sum to zero and each is at most 1 in magnitude |
| Geometry.Along | HexTile.py:91 | definition: `steps` times the neighbor vector j. The six vectors of `neighbor` are the constant `Geometry.Neighbor`, in the same order |
| Geometry.Walk | HexTile.py:247-250 | definition: the position update `(r, g, b) += delta[j]` repeated `steps` times |
| Geometry.AdjacentIffNeighbor | HexTile.py:155-165 | two positions are adjacent exactly when they are equal or differ by one of the six neighbor vectors |
| Geometry.NeighborAdjacent | HexTile.py:91 | one step along any neighbor direction reaches an adjacent position |
| Geometry.AdjacentSymmetric | HexTile.py:155-165 | the adjacency test is symmetric and admits a tile paired with itself |
| Geometry.AdjacentBalanced | HexTile.py:155-165 | an adjacent step keeps R + G + B = 0 |
| Geometry.AlongStep | HexTile.py:91 | every neighbor vector sums to zero, and a straight walk extends by one vector per step |
| Geometry.WalkAlong | HexTile.py:247-250 | k unit steps along direction j add k times that direction |
| Spiral.Next | HexTile.py:241-243 | the slot filled after a slot is the next step of its side, the first step of the next side, or the first slot of the next ring; it is well formed and not the centre |
| Spiral.Locate | HexTile.py:237-243 | the slot of id t: the centre for t = 1, then one Next per id; always well formed (a ring, a side below 6 and a step below the ring) |
| Spiral.Position | HexTile.py:240-252 | definition: the coordinates recorded for tile t, read off its slot |
| Spiral.RingIndex | HexTile.py:251-252 | definition: the `ring` recorded for tile t, the ring of its slot |
| Spiral.IdOfLocate | HexTile.py:237-243 | numbering the slots ring by ring, side by side, step by step gives each tile id its own slot |
| Spiral.IdOfNext | HexTile.py:241-243 | the next slot of the walk gets the next id |
| Spiral.IdOfInjective | HexTile.py:237-243 | distinct slots get distinct ids |
| Spiral.SlotIdRange | HexTile.py:237-243 | the ids of ring k are FullRings(k - 1) + 1 .. FullRings(k) |
| Spiral.LocateSlot | HexTile.py:237-252 | the id of slot (k, j, s) locates back to that slot, sits at the slot's walked position and has ring index k |
| Spiral.SlotPositionFromCorner | HexTile.py:240-250 | step s of side j sits s + 1 steps along direction j from the side's corner |
| Spiral.PositionStep | HexTile.py:247-250 | each id's position is its predecessor's plus one neighbor vector. Within a side that is delta[j] (`HexTile.py:247-250`). The first tile of ring k is delta[0] from the ring's start (0, -k, k) (`HexTile.py:240`), which is the same point as one Neighbor[5] step from the last tile of ring k - 1 |
| Spiral.PositionBalanced | HexTile.py:247-250 | every generated position has R + G + B = 0 |
| Spiral.PositionOnRing | HexTile.py:240-252 | the ring recorded for a tile is the largest magnitude of its coordinates |
| Spiral.ConsecutiveAdjacent | HexTile.py:241-250 | consecutive ids are adjacent tiles |
| Spiral.RingIndexRange | HexTile.py:237-243 | the ring of tile t is k exactly when FullRings(k - 1) < t <= FullRings(k) |
| Spiral.RingIndexIsRadius | HexTile.py:126-138 | the ring of tile t is the least radius holding t tiles |
| Spiral.RingWalkCloses | HexTile.py:240-250 | the walk of ring k ends where it started, at (0, -k, k), on id FullRings(k) |
| Spiral.RingStepWrap | HexTile.py:240-250 | the last and first tiles of a ring are adjacent |
| Spiral.DiagramPosition | HexTile.py:541-567 | tiles 1..19 sit at the coordinates printed in the numbered diagram |
| TileField.FreshTile | HexTile.py:243-252 | definition: the record generateRings writes for tile t, with its position, ring, seeded strand, group 0 and moved 0 |
| TileField.Generated | HexTile.py:215-255 | definition: the tile records for ids 1..n, added in numbering order |
| TileField.IdentityHosts | HexTile.py:255 | definition: the strand index self[-s] = s for s in 1..n |
| TileField.RingIds | HexTile.py:237-253 | definition: the ids self.ring[k] lists, in append order ([1] for the centre) |
| TileField.RingTable | HexTile.py:237-253 | definition: self.ring after generation, rings 0..radius |
| TileField.Layout | HexTile.py:251-254 | definition: exactly the tiles 1..n exist, each at its spiral position on its ring |
| TileField.Consistent | HexTile.py:254-255 | definition: the tile records and the strand index agree (tiles and strands both 1..n, one host per strand, the host shows the strand or is empty, a shown strand is indexed to its tile) |
| TileField.SeedStrand | HexTile.py:244 | definition: tile 1 holds strand 1; tile t > 1 holds strand t while t <= strands and no strand (0) otherwise; strands are stored negated |
| TileField.GeneratedRecords | HexTile.py:215-255 | the generated dictionary has exactly tiles 1..n, each with its fresh record |
| TileField.SeededIsGenerated | HexTile.py:215-255 | any such dictionary is the generated one |
| TileField.SeededLayout | HexTile.py:215-255 | records built as generateRings builds them keep the spiral layout |
| TileField.GeneratedLayout | HexTile.py:215-255 | every generated tile keeps its spiral position and ring, has R + G + B = 0, and lies on the ring its coordinates give |
| TileField.SeededConsistent | HexTile.py:215-255 | such records with the identity strand index satisfy the tile/strand invariant |
| TileField.GeneratedConsistent | HexTile.py:215-255 | after generation, tiles and strand index agree (each strand t indexed to tile t) |
| TileField.IdentityRecords | HexTile.py:255 | the strand index of generateRings maps strand s to tile s for s in 1..n |
| TileField.CentreTile | HexTile.py:222-232 | tile 1 is at (0, 0, 0) in ring 0 with strand 1, strand 1 is indexed to it, and ring 0 lists only it |
| TileField.InRingIds | HexTile.py:237-253 | ring k's list holds exactly the ids FullRings(k - 1) + 1 .. FullRings(k) (the centre for k = 0) |
| TileField.RingIdsOfRing | HexTile.py:237-253 | ring k >= 1 lists 6k ids, in spiral order, each on ring k |
| TileField.RingsPartition | HexTile.py:237-253 | each tile 1..FullRings(radius) is listed in exactly one ring, its own |
| TileField.DiagramTiles | HexTile.py:541-567 | a generated field of at least 19 tiles puts tiles 1..19 where the diagram shows them |
| Cycles.RotateLeft | HexTile.py:171 | shifted = tiles[1:] + tiles[:1]: element i of the shift is element i + 1, cyclically |
| Cycles.RotateLeftPermutes | HexTile.py:171 | the shift is a permutation and keeps distinct elements distinct |
| Cycles.PairInField | HexTile.py:172-173 | definition: both tiles of pair i (member i and the next one) are tile records, so `self[t1]`, `self[t2]` succeed |
| Cycles.PairAdjacent | HexTile.py:172-176 | definition: pair i is in the field and its tiles pass the adjacency test |
| Cycles.IsCycle | HexTile.py:167-179 | definition: every pair, the last member with the first, is adjacent |
| Cycles.Reaches | HexTile.py:172-176 | definition: the loop started at pair i gets as far as pair k, because every pair before k passed |
| Cycles.AdjacentsFrom | HexTile.py:172-179 | the loop from pair i answers true exactly when every remaining pair passes; None implies some pair cannot be looked up |
| Cycles.AdjacentsFromFirst | HexTile.py:172-179 | the first pair that does not pass decides, both ways: None exactly when that pair cannot be looked up, false exactly when its tiles are not adjacent; later pairs are never looked at |
| Cycles.Adjacents | HexTile.py:167-179 | true exactly for a cycle; otherwise the first pair that does not pass decides, both ways: None exactly when that pair has a member that is not a tile, false exactly when its tiles are not adjacent |
| Cycles.EarlyNotAdjacent | HexTile.py:172-176 | a non-adjacent first pair answers false even if a later member is not a tile |
| Cycles.PairsInField | HexTile.py:172-179 | every pair can be looked up exactly when every member is a tile |
| Cycles.SingleIsCycle | HexTile.py:167-179 | a one-tile group pairs with itself and passes |
| Cycles.RingIsCycle | HexTile.py:441-444 | the list of every complete ring k >= 1 is a cycle |
| Cycles.OuterRingsAreCycles | HexTile.py:441-444 | the test groups range(20, 38) and range(38, 62) are cycles |
| Cycles.PentagonIsCycle | HexTile.py:445-446 | the test group [6, 7, 18, 17, 16] is a cycle |
| Cycles.BridgeIsCycle | HexTile.py:447-448 | the test group [4, 5, 14] is a cycle |
| Cycles.TriangleIsCycle | HexTile.py:449-450 | the test group [1, 2, 3] is a cycle |
| Cycles.DiagramLayout | HexTile.py:541-567 | any dictionary keeping the spiral layout numbers its first tiles as the diagram does |
| Rotation.Flatten | HexTile.py:195 | definition: reduce(add, groups), the groups concatenated |
| Rotation.Elements | HexTile.py:196 | definition: set(A), the ids of a list |
| Rotation.Indexed | HexTile.py:201 | definition: every member is an indexed strand, so `self[-tile]` succeeds |
| Rotation.Targets | HexTile.py:205-206 | definition: indices[1:] + indices[:1] |
| Rotation.MoveTiles | HexTile.py:205-211 | definition: the record writes of the first n moves of the move loop |
| Rotation.MoveHosts | HexTile.py:205-212 | definition: the strand index writes `self[-tile] = index` of the first n moves |
| Rotation.RotateGroup | HexTile.py:201-212 | definition: one group's indices, targets and all its moves |
| Rotation.HostsRotated | HexTile.py:212 | definition: strand group[i] is indexed where next[i] was, and every other strand keeps its host |
| Rotation.TilesRotated | HexTile.py:209-211 | definition: the former host of next[i] shows strand group[i], and tiles that hosted no member are unchanged |
| Rotation.Sweep | HexTile.py:199-212 | definition: the loop over the groups from group g, stopping with Missing(g) at the first group whose lookups fail and ending with Rotated(verdicts) |
| Rotation.RotateAll | HexTile.py:181-213 | definition: rotate, which does nothing when the option is off, fails on overlap before any change, and otherwise runs the sweep |
| Rotation.DistinctIffNoRepeats | HexTile.py:194-197 | sorted(A) == sorted(set(A)) holds exactly when no id repeats |
| Rotation.FlattenMembers | HexTile.py:195 | reduce(add, groups) holds exactly the members of the groups |
| Rotation.DistinctGroups | HexTile.py:194-197 | no shared id across groups means no repeat within a group |
| Rotation.HostsOf | HexTile.py:201 | definition: indices[i] is self[-tiles[i]] (0 where the strand is not indexed, a case the sweep never reaches) |
| Rotation.TargetsAreNextHosts | HexTile.py:205-206 | indices[1:] + indices[:1] are the hosts of the next members |
| Rotation.MovedIn | HexTile.py:209-211 | definition: a moved tile shows strand tile, group and moved, and keeps its place and ring |
| Rotation.MoveTilesEffect | HexTile.py:205-211 | the moves write each target once with its moved record and leave every other tile alone |
| Rotation.MoveHostsEffect | HexTile.py:212 | each member strand is indexed to its target, and no other strand changes |
| Rotation.RotateGroupHosts | HexTile.py:199-212 | after a group's rotation, strand group[i] is hosted where group[i + 1] was |
| Rotation.RotateGroupTiles | HexTile.py:199-212 | the host of group[i + 1] now shows strand group[i]; tiles hosting no member are unchanged |
| Rotation.RotatedConsistent | HexTile.py:199-212 | a rotation of distinct strands keeps tiles and strand index consistent |
| Rotation.RotateGroupConsistent | HexTile.py:199-212 | rotating a group keeps the dictionary consistent and every tile in its place |
| Rotation.AdjacentsSamePlaces | HexTile.py:199-200 | moving strands never changes any group's adjacency verdict |
| Rotation.LookupsSucceed | HexTile.py:200-201 | in a consistent field the lookups of a group succeed exactly when its members are 1..n |
| Rotation.AdjacencyFlags | HexTile.py:199-200 | definition: verdict i is whether group g + i is a cycle |
| Rotation.SweepStep | HexTile.py:199-212 | a group of tile ids is rotated and its verdict recorded |
| Rotation.SweepStops | HexTile.py:200-201 | a group with a member outside 1..n stops the loop at that group |
| Rotation.SweepPreserves | HexTile.py:199-212 | the loop keeps the dictionary consistent and every tile in its place |
| Rotation.SweepEnds | HexTile.py:199-212 | the loop ends Rotated when every group is 1..n, and otherwise Missing at the first group that is not |
| Rotation.SweepFlags | HexTile.py:199-212 | a loop over groups of tile ids reports every group's cycle verdict |
| Rotation.RotateAllGuards | HexTile.py:193-197 | nothing happens when the option is off; an overlap fails before any change |
| Rotation.RotateAllPreserves | HexTile.py:181-213 | rotate keeps the dictionary consistent and the spiral layout intact |
| Rotation.RotateAllReports | HexTile.py:181-213 | with disjoint groups, rotate ends Rotated with every verdict, or Missing at the first group with a member outside 1..n |
| Rotation.SingleGroupRotates | HexTile.py:199-212 | a single group of tile ids is rotated whether or not it is a cycle |
| Rotation.RotateGroupTimesHosts | HexTile.py:199-212 | after k rotations strand group[i] is hosted where group[i + k] (cyclically) was |
| Rotation.ReverseUndoesHosts | HexTile.py:199-212 | rotating a group and then the same group in reverse order gives every strand its original host back |
| Rotation.FullTurnRestoresHosts | HexTile.py:199-212 | rotating a group as many times as it has members restores the strand index |
| Rotation.SevenTileRotation | HexTile.py:635-636 | rotating [1, 2, 3] in the first ring gives tile 1 strand 3, tile 2 strand 1 and tile 3 strand 2, and leaves tiles 4..7 alone |
| Rotation.GeneratedSevenTileRotation | HexTile.py:694-703 | the 7-tile, 7-strand field with --rotate passes [1, 2, 3] as a cycle and moves strands 1, 2, 3 as in the figure |
| HexTiles.HexTile.Valid | HexTile.py:96-124 | definition: the object invariant __init__ leaves and rotate keeps. It holds the least radius for the tile count, strands at most tiles, tiles and strand index consistent, the spiral layout, and self.ring generated |
| HexTiles.HexTile.constructor | HexTile.py:95-124 | __init__ for a positive tile count up to sys.maxint: clamped strands, least radius, generated rings and the object invariant |
| HexTiles.HexTile.GenerateRings | HexTile.py:215-255 | the fields become the generated records, the identity strand index and the ring lists |
| HexTiles.GenerateRecords | HexTile.py:215-255 | the generator's loops produce exactly the generated records, identity index and ring table |
| HexTiles.WalkRing | HexTile.py:237-255 | the walk of ring k numbers FullRings(k - 1) + 1 .. FullRings(k) and lists them as ring k |
| HexTiles.WalkSide | HexTile.py:242-255 | k steps along one direction number k more tiles at the walked positions |
| HexTiles.SideRecordsSeeded | HexTile.py:242-254 | each record written along a side is the fresh record of its id |
| HexTiles.SpiralStep | HexTile.py:243-252 | step s of side j of ring k writes the fresh record of id FullRings(k - 1) + jk + s + 1 |
| HexTiles.CentreRecords | HexTile.py:222-232 | the first records are tile 1 at the centre with strand 1, indexed to itself, alone in ring 0 |
| HexTiles.HexTile.Adjacents | HexTile.py:167-179 | the loop answers what adjacents answers: true exactly for a cycle |
| HexTiles.HexTile.MoveGroup | HexTile.py:205-212 | the move loop writes, in place, the moved records and the new strand index of one group, and touches no other field |
| HexTiles.HexTile.RotateGroups | HexTile.py:199-212 | the loop over the groups changes the fields as the sweep specifies and returns its outcome |
| HexTiles.HexTile.Rotate | HexTile.py:181-213 | rotate changes the dictionary as specified, returns the outcome and keeps the object invariant |
| HexTiles.Create | HexTile.py:95-124 | __init__ fails with LongTiles exactly for a tile count above sys.maxint (or below -sys.maxint - 1) and with NoTiles exactly for a non-positive `int` count; otherwise sharing or a missing lookup fails, and any other outcome yields the rotated object |

## Left out

- Text rendering (`__str__`, `putNumber`), `xy` planar coordinates (floating point), verbose printing, `tag`, `validate`, the command line, `SelfDoc`, the `Test` class and `main`: presentation, I/O and command-line handling.
- `sibling`: inheriting another object's option dictionary is not modelled. The options are a parameter of `Create`.
- `autonumber` (`HexTile.py:233-234`): it repeats an assignment already made, so it has no effect.
- `Dictionary`: a tile record is the datatype `Tile`.
- `self.ring` holds, in Python, the very record objects stored under the tile ids. The model keeps the ids in ring order. Together with `tiles` that carries the same information, but the sharing of record objects is not modelled.
- HexTiles.HexTile.GenerateRings: builds the records in local maps and writes the fields once at the end. The Python code writes each key as it goes; only the final state is modelled.
- HexTiles.Create: every mid-batch failure becomes `MissingTile(g)`. That covers a `KeyError` or `TypeError` in `adjacents`, a `KeyError` in building `indices`, and the `TypeError` inside the move loop for a negative member placed after a non-adjacent pair. The partially rotated object is not returned, since the exception leaves `__init__`. In the last case part of group g has already moved in Python; the model leaves group g unmoved, which nothing outside `__init__` can observe.
- Rotation.MoveTiles: writes a record only when the target is a tile. In a consistent field every target is one, so the Python code never takes the other path either.
- Rotation.ReverseUndoesHosts: the reverse rotation restores the strand index only. Nothing is stated about the `strand` fields of the tiles afterwards, and their `group` and `moved` fields keep the values of the reverse rotation.
- Rotation.FullTurnRestoresHosts: a full turn restores the strand index only. The `strand`, `group` and `moved` fields of the moved tiles keep the values of the last move.

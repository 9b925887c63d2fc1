/**
 * HexTile.rotate as a function of the state it reads and writes.
 *
 * rotate first checks that no id occurs twice across all groups; then, group
 * by group, it runs the adjacency check (reporting only), reads the hosts
 * `indices` of the group's strands and moves strand group[i] into the tile
 * indices[i + 1] (the last strand into indices[0]), marking that tile with
 * the group number and the position i.
 */
module Rotation {
  import opened Wrappers
  import opened Geometry
  import opened Sizing
  import opened Spiral
  import opened TileField
  import opened Cycles

  /** The part of the dictionary rotate changes: tile records and the strand index. */
  datatype Field = Field(tiles: map<int, Tile>, hosts: map<int, int>)

  /**
   * What rotate does: nothing when the rotate option is off, an assertion
   * failure when an id is shared, a failed lookup in group `group`, or the
   * adjacency verdict of every group after all of them were moved.
   */
  datatype Outcome = Skipped | Overlap | Missing(group: nat) | Rotated(adjacent: seq<bool>)

  /** reduce(add, groups): the members of all groups, group after group. */
  function Flatten(groups: seq<seq<int>>): seq<int> {
    if |groups| == 0 then [] else groups[0] + Flatten(groups[1..])
  }

  /** The elements of a sequence as a set (Python's set(A)). */
  function Elements(xs: seq<int>): set<int> {
    set x | x in xs
  }

  /**
   * The overlap check sorted(A) == sorted(set(A)) holds exactly when A loses
   * nothing by dropping repeats, i.e. when no id occurs twice.
   */
  lemma {:induction false} DistinctIffNoRepeats(xs: seq<int>)
    ensures |Elements(xs)| <= |xs|
    ensures Distinct(xs) <==> |Elements(xs)| == |xs|
    decreases |xs|
  {
    if |xs| > 0 {
      var rest := xs[1..];
      DistinctIffNoRepeats(rest);
      assert Elements(xs) == {xs[0]} + Elements(rest);
      assert Distinct(xs) <==> xs[0] !in rest && Distinct(rest) by {
        if Distinct(xs) {
          forall i, j | 0 <= i < j < |rest|
            ensures rest[i] != rest[j]
          {
            assert rest[i] == xs[i + 1] && rest[j] == xs[j + 1];
          }
        }
        if xs[0] !in rest && Distinct(rest) {
          forall i, j | 0 <= i < j < |xs|
            ensures xs[i] != xs[j]
          {
            if i == 0 {
              assert xs[j] == rest[j - 1];
            } else {
              assert xs[i] == rest[i - 1] && xs[j] == rest[j - 1];
            }
          }
        }
      }
      if xs[0] in rest {
        assert Elements(xs) == Elements(rest);
      }
    }
  }

  /** Every member of every group is in the flattened sequence, and nothing else is. */
  lemma {:induction false} FlattenMembers(groups: seq<seq<int>>)
    ensures forall g, m :: 0 <= g < |groups| && m in groups[g] ==> m in Flatten(groups)
    ensures forall m :: m in Flatten(groups) ==> exists g :: 0 <= g < |groups| && m in groups[g]
    decreases |groups|
  {
    if |groups| > 0 {
      FlattenMembers(groups[1..]);
      forall g, m | 0 <= g < |groups| && m in groups[g]
        ensures m in Flatten(groups)
      {
        if g > 0 {
          assert groups[g] == groups[1..][g - 1];
        }
      }
      forall m | m in Flatten(groups)
        ensures exists g :: 0 <= g < |groups| && m in groups[g]
      {
        if m !in groups[0] {
          assert m in Flatten(groups[1..]);
          var g :| 0 <= g < |groups[1..]| && m in groups[1..][g];
          assert m in groups[g + 1];
        }
      }
    }
  }

  /** With no shared id, every single group is free of repeats too. */
  lemma {:induction false} DistinctGroups(groups: seq<seq<int>>)
    requires Distinct(Flatten(groups))
    ensures forall g :: 0 <= g < |groups| ==> Distinct(groups[g])
    decreases |groups|
  {
    if |groups| > 0 {
      var flat, rest := Flatten(groups), Flatten(groups[1..]);
      assert flat == groups[0] + rest;
      assert Distinct(groups[0]) by {
        forall i, j | 0 <= i < j < |groups[0]|
          ensures groups[0][i] != groups[0][j]
        {
          assert flat[i] == groups[0][i] && flat[j] == groups[0][j];
        }
      }
      assert Distinct(rest) by {
        forall i, j | 0 <= i < j < |rest|
          ensures rest[i] != rest[j]
        {
          assert flat[|groups[0]| + i] == rest[i] && flat[|groups[0]| + j] == rest[j];
        }
      }
      DistinctGroups(groups[1..]);
      forall g | 0 < g < |groups|
        ensures Distinct(groups[g])
      {
        assert groups[g] == groups[1..][g - 1];
      }
    }
  }

  /** indices = [self[-s] for s in group]: the tile hosting each strand (0 where none is indexed). */
  function HostsOf(hosts: map<int, int>, group: seq<int>): seq<int> {
    seq(|group|, i requires 0 <= i < |group| => if group[i] in hosts then hosts[group[i]] else 0)
  }

  /** The tile each strand of the group moves to: indices[1:] + indices[:1]. */
  function Targets(hosts: map<int, int>, group: seq<int>): seq<int> {
    RotateLeft(HostsOf(hosts, group))
  }

  /** A tile record once strand s, the member `moved` of group g, has moved in. */
  function MovedIn(tile: Tile, s: int, g: int, moved: int): Tile {
    tile.(strand := -s, group := g, moved := moved)
  }

  /**
   * The tile records after the first n moves of group g, in order: move i
   * writes strand group[i] into tile targets[i]. A target that is not a tile
   * is skipped; under Consistent every target is one.
   */
  function MoveTiles(tiles: map<int, Tile>, g: int, group: seq<int>, targets: seq<int>, n: nat): map<int, Tile>
    requires n <= |group| && n <= |targets|
  {
    if n == 0 then tiles
    else
      var m := MoveTiles(tiles, g, group, targets, n - 1);
      var t := targets[n - 1];
      if t in m then m[t := MovedIn(m[t], group[n - 1], g, n - 1)] else m
  }

  /** The strand index after the first n moves: self[-group[i]] = targets[i]. */
  function MoveHosts(hosts: map<int, int>, group: seq<int>, targets: seq<int>, n: nat): map<int, int>
    requires n <= |group| && n <= |targets|
  {
    if n == 0 then hosts else MoveHosts(hosts, group, targets, n - 1)[group[n - 1] := targets[n - 1]]
  }

  /** The whole inner loop of rotate for group g. */
  function RotateGroup(f: Field, g: int, group: seq<int>): Field {
    var targets := Targets(f.hosts, group);
    Field(MoveTiles(f.tiles, g, group, targets, |group|), MoveHosts(f.hosts, group, targets, |group|))
  }

  /** Every member of the group is an indexed strand (self[-s] exists). */
  predicate Indexed(hosts: map<int, int>, group: seq<int>) {
    forall i :: 0 <= i < |group| ==> group[i] in hosts
  }

  /**
   * The outer loop of rotate from group g on, with the adjacency verdicts
   * of the groups before g in `flags`. A group whose adjacency check or
   * strand lookup fails stops the loop; the groups before it stay moved.
   */
  function Sweep(f: Field, groups: seq<seq<int>>, g: nat, flags: seq<bool>): (Field, Outcome)
    requires g <= |groups|
    decreases |groups| - g
  {
    if g == |groups| then (f, Rotated(flags))
    else
      var adjacent := Adjacents(f.tiles, groups[g]);
      if adjacent.None? || !Indexed(f.hosts, groups[g]) then (f, Missing(g))
      else Sweep(RotateGroup(f, g, groups[g]), groups, g + 1, flags + [adjacent.value])
  }

  /** rotate(groups) on field f, with `rotating` the value of the rotate option. */
  function RotateAll(f: Field, rotating: bool, groups: seq<seq<int>>): (Field, Outcome) {
    if !rotating then (f, Skipped)
    else if |groups| > 0 && !Distinct(Flatten(groups)) then (f, Overlap)
    else Sweep(f, groups, 0, [])
  }

  /** The first n moves write exactly the targets among the first n, each once, and keep the keys. */
  lemma {:induction false} MoveTilesEffect(tiles: map<int, Tile>, g: int, group: seq<int>, targets: seq<int>, n: nat)
    requires n <= |group| && n <= |targets| && Distinct(targets)
    ensures MoveTiles(tiles, g, group, targets, n).Keys == tiles.Keys
    ensures forall i :: 0 <= i < n && targets[i] in tiles ==>
      MoveTiles(tiles, g, group, targets, n)[targets[i]] == MovedIn(tiles[targets[i]], group[i], g, i)
    ensures forall t {:trigger MoveTiles(tiles, g, group, targets, n)[t]} :: t in tiles && t !in targets[..n] ==> MoveTiles(tiles, g, group, targets, n)[t] == tiles[t]
  {
    if n > 0 {
      MoveTilesEffect(tiles, g, group, targets, n - 1);
      var m := MoveTiles(tiles, g, group, targets, n - 1);
      assert targets[..n] == targets[..n - 1] + [targets[n - 1]];
      forall i | 0 <= i < n - 1
        ensures targets[i] != targets[n - 1]
      {
      }
    }
  }

  /** The first n moves index strand group[i] to targets[i] and leave every other strand alone. */
  lemma {:induction false} MoveHostsEffect(hosts: map<int, int>, group: seq<int>, targets: seq<int>, n: nat)
    requires n <= |group| && n <= |targets| && Distinct(group)
    ensures MoveHosts(hosts, group, targets, n).Keys == hosts.Keys + set i | 0 <= i < n :: group[i]
    ensures forall i :: 0 <= i < n ==> MoveHosts(hosts, group, targets, n)[group[i]] == targets[i]
    ensures forall s {:trigger MoveHosts(hosts, group, targets, n)[s]} :: s in hosts && s !in group[..n] ==> MoveHosts(hosts, group, targets, n)[s] == hosts[s]
  {
    if n > 0 {
      MoveHostsEffect(hosts, group, targets, n - 1);
      assert group[..n] == group[..n - 1] + [group[n - 1]];
      forall i | 0 <= i < n - 1
        ensures group[i] != group[n - 1]
      {
      }
    }
  }

  /** The targets are the hosts of the rotated group: strand group[i] goes where group[i + 1] was. */
  lemma TargetsAreNextHosts(hosts: map<int, int>, group: seq<int>)
    ensures Targets(hosts, group) == HostsOf(hosts, RotateLeft(group))
  {
  }

  /** Under Consistent every indexed strand is hosted by a tile. */
  lemma ConsistentHost(tiles: map<int, Tile>, hosts: map<int, int>, n: int, s: int)
    requires Consistent(tiles, hosts, n) && s in hosts
    ensures hosts[s] in tiles
  {
  }

  /** Under Consistent the hosts of an indexed, repeat-free group are distinct tiles. */
  lemma HostsOfConsistent(tiles: map<int, Tile>, hosts: map<int, int>, n: int, group: seq<int>)
    requires Consistent(tiles, hosts, n) && Distinct(group) && Indexed(hosts, group)
    ensures forall i :: 0 <= i < |group| ==> HostsOf(hosts, group)[i] in tiles
    ensures Distinct(HostsOf(hosts, group)) && Distinct(Targets(hosts, group))
  {
    var indices := HostsOf(hosts, group);
    forall i | 0 <= i < |group|
      ensures indices[i] in tiles
    {
      ConsistentHost(tiles, hosts, n, group[i]);
      assert indices[i] == hosts[group[i]];
    }
    forall i, j | 0 <= i < j < |indices|
      ensures indices[i] != indices[j]
    {
      assert group[i] != group[j];
    }
    RotateLeftPermutes(indices);
  }

  /**
   * A strand index changed by rotating a group, with `next` the group
   * rotated left (next[i] is the member after group[i]): every member takes
   * the host of the member after it and every other strand keeps its host.
   */
  ghost predicate HostsRotated(hosts: map<int, int>, after: map<int, int>, group: seq<int>, next: seq<int>) {
    |next| == |group| && Indexed(hosts, group) && Indexed(hosts, next) && after.Keys == hosts.Keys &&
    (forall i {:trigger after[group[i]]} :: 0 <= i < |group| ==> after[group[i]] == hosts[next[i]]) &&
    (forall s {:trigger after[s]} :: s in hosts && s !in group ==> after[s] == hosts[s])
  }

  /**
   * Tile records changed by rotating a group: the host of the member after
   * group[i] shows strand group[i], and every tile that hosted no member is
   * unchanged.
   */
  ghost predicate TilesRotated(tiles: map<int, Tile>, hosts: map<int, int>, after: map<int, Tile>,
                               group: seq<int>, next: seq<int>) {
    |next| == |group| && Indexed(hosts, next) && after.Keys == tiles.Keys &&
    (forall i :: 0 <= i < |next| ==> hosts[next[i]] in tiles) &&
    (forall i {:trigger after[hosts[next[i]]]} :: 0 <= i < |group| ==> after[hosts[next[i]]].strand == -group[i]) &&
    (forall t {:trigger after[t]} :: t in tiles && t !in HostsOf(hosts, next) ==> after[t] == tiles[t])
  }

  /** No tile record moves or changes ring. */
  ghost predicate SamePlaces(tiles: map<int, Tile>, after: map<int, Tile>) {
    after.Keys == tiles.Keys &&
    forall t :: t in tiles ==> after[t].pos == tiles[t].pos && after[t].ring == tiles[t].ring
  }

  /**
   * How rotating a group changes the strand index: strand group[i] is now
   * hosted by the tile that hosted the next strand of the group (the last
   * strand by the first one's), and every other strand keeps its host.
   */
  lemma RotateGroupHosts(f: Field, g: int, group: seq<int>)
    requires Distinct(group) && Indexed(f.hosts, group)
    ensures HostsRotated(f.hosts, RotateGroup(f, g, group).hosts, group, RotateLeft(group))
  {
    var next := RotateLeft(group);
    var targets := Targets(f.hosts, group);
    MoveHostsEffect(f.hosts, group, targets, |group|);
    assert group[..|group|] == group;
    RotateLeftPermutes(group);
    TargetsAreNextHosts(f.hosts, group);
    forall i | 0 <= i < |next|
      ensures next[i] in f.hosts
    {
      assert next[i] in group;
    }
  }

  /**
   * The records after the group's moves: target i holds MovedIn of its old
   * record for group[i], every other record is unchanged.
   */
  ghost predicate MovedBy(tiles: map<int, Tile>, after: map<int, Tile>, g: int, group: seq<int>, targets: seq<int>) {
    |targets| == |group| && after.Keys == tiles.Keys &&
    (forall i :: 0 <= i < |targets| && targets[i] in tiles ==>
      after[targets[i]] == MovedIn(tiles[targets[i]], group[i], g, i)) &&
    (forall t {:trigger after[t]} :: t in tiles && t !in targets ==> after[t] == tiles[t])
  }

  /** Target i is the tile hosting strand next[i]. */
  ghost predicate HostedBy(tiles: map<int, Tile>, hosts: map<int, int>, next: seq<int>, targets: seq<int>) {
    |next| == |targets| && Indexed(hosts, next) &&
    forall i :: 0 <= i < |next| ==> targets[i] == hosts[next[i]] && targets[i] in tiles
  }

  /** All moves of a group, with distinct targets, give MovedBy. */
  lemma MoveTilesAll(tiles: map<int, Tile>, g: int, group: seq<int>, targets: seq<int>)
    requires |targets| == |group| && Distinct(targets)
    ensures MovedBy(tiles, MoveTiles(tiles, g, group, targets, |group|), g, group, targets)
  {
    MoveTilesEffect(tiles, g, group, targets, |group|);
    assert targets[..|group|] == targets;
  }

  /**
   * Records updated move by move into the hosts of the rotated group are a
   * rotation of the records.
   */
  lemma MovedRecords(tiles: map<int, Tile>, hosts: map<int, int>, after: map<int, Tile>, g: int,
                     group: seq<int>, next: seq<int>, targets: seq<int>)
    requires MovedBy(tiles, after, g, group, targets) && HostedBy(tiles, hosts, next, targets)
    ensures TilesRotated(tiles, hosts, after, group, next)
    ensures forall i :: 0 <= i < |group| ==> after[hosts[next[i]]] == MovedIn(tiles[hosts[next[i]]], group[i], g, i)
    ensures SamePlaces(tiles, after)
  {
    assert HostsOf(hosts, next) == targets;
    forall t | t in tiles
      ensures after[t].pos == tiles[t].pos && after[t].ring == tiles[t].ring
    {
      if t in targets {
        var i :| 0 <= i < |targets| && targets[i] == t;
        assert after[t] == MovedIn(tiles[t], group[i], g, i);
      }
    }
  }

  /**
   * How rotating a group changes the tile records: the tile that hosted the
   * strand after group[i] now shows strand group[i], with group g and
   * position i; every tile that hosted no strand of the group is unchanged;
   * no record moves.
   */
  lemma RotateGroupTiles(f: Field, n: int, g: int, group: seq<int>)
    requires Consistent(f.tiles, f.hosts, n) && Distinct(group) && Indexed(f.hosts, group)
    ensures TilesRotated(f.tiles, f.hosts, RotateGroup(f, g, group).tiles, group, RotateLeft(group))
    ensures forall i :: 0 <= i < |group| ==>
      RotateGroup(f, g, group).tiles[f.hosts[RotateLeft(group)[i]]] ==
      MovedIn(f.tiles[f.hosts[RotateLeft(group)[i]]], group[i], g, i)
    ensures SamePlaces(f.tiles, RotateGroup(f, g, group).tiles)
  {
    var targets := Targets(f.hosts, group);
    TargetsOfConsistent(f.tiles, f.hosts, n, group);
    MoveTilesAll(f.tiles, g, group, targets);
    MovedRecords(f.tiles, f.hosts, MoveTiles(f.tiles, g, group, targets, |group|), g, group, RotateLeft(group), targets);
  }

  /** Under Consistent the targets are distinct tiles, the hosts of the rotated group. */
  lemma TargetsOfConsistent(tiles: map<int, Tile>, hosts: map<int, int>, n: int, group: seq<int>)
    requires Consistent(tiles, hosts, n) && Distinct(group) && Indexed(hosts, group)
    ensures |Targets(hosts, group)| == |group| && Distinct(Targets(hosts, group))
    ensures HostedBy(tiles, hosts, RotateLeft(group), Targets(hosts, group))
  {
    var next := RotateLeft(group);
    var targets := Targets(hosts, group);
    HostsOfConsistent(tiles, hosts, n, group);
    RotateLeftPermutes(group);
    TargetsAreNextHosts(hosts, group);
    forall i | 0 <= i < |next|
      ensures next[i] in hosts && targets[i] == hosts[next[i]] && targets[i] in tiles
    {
      assert next[i] in group;
      ConsistentHost(tiles, hosts, n, next[i]);
    }
  }

  /** A rotated index still keeps distinct strands on distinct tiles. */
  lemma RotatedInjective(hosts: map<int, int>, after: map<int, int>, group: seq<int>, next: seq<int>)
    requires HostsInjective(hosts) && Distinct(next) && HostsRotated(hosts, after, group, next)
    requires forall x :: x in next <==> x in group
    ensures HostsInjective(after)
  {
    forall s1, s2 | s1 in after && s2 in after && s1 != s2
      ensures after[s1] != after[s2]
    {
      var o1 := s1;
      if s1 in group {
        var i :| 0 <= i < |group| && group[i] == s1;
        o1 := next[i];
      }
      var o2 := s2;
      if s2 in group {
        var i :| 0 <= i < |group| && group[i] == s2;
        o2 := next[i];
      }
      assert after[s1] == hosts[o1] && after[s2] == hosts[o2];
    }
  }

  /** After a rotation every strand's host shows that strand or is empty. */
  lemma RotatedHostsShow(tiles: map<int, Tile>, hosts: map<int, int>,
                         tilesAfter: map<int, Tile>, hostsAfter: map<int, int>, group: seq<int>, next: seq<int>)
    requires HostsShow(tiles, hosts) && HostsInjective(hosts)
    requires forall x :: x in next <==> x in group
    requires HostsRotated(hosts, hostsAfter, group, next) && TilesRotated(tiles, hosts, tilesAfter, group, next)
    ensures HostsShow(tilesAfter, hostsAfter)
  {
    var indices := HostsOf(hosts, next);
    forall s | s in hostsAfter
      ensures hostsAfter[s] in tilesAfter
      ensures tilesAfter[hostsAfter[s]].strand == -s || tilesAfter[hostsAfter[s]].strand == 0
    {
      if s in group {
        var i :| 0 <= i < |group| && group[i] == s;
        assert hostsAfter[s] == hosts[next[i]];
      } else {
        assert hosts[s] !in indices by {
          forall j | 0 <= j < |next|
            ensures indices[j] != hosts[s]
          {
            assert indices[j] == hosts[next[j]] && next[j] != s;
          }
        }
      }
    }
  }

  /** A tile that hosted no member keeps showing its strand, whose host is unchanged. */
  lemma UnmovedShown(tiles: map<int, Tile>, hosts: map<int, int>,
                     tilesAfter: map<int, Tile>, hostsAfter: map<int, int>, group: seq<int>, next: seq<int>, t: int)
    requires t in tiles && tiles[t].strand != 0 && t !in HostsOf(hosts, next)
    requires -tiles[t].strand in hosts && hosts[-tiles[t].strand] == t
    requires forall x :: x in next <==> x in group
    requires HostsRotated(hosts, hostsAfter, group, next) && TilesRotated(tiles, hosts, tilesAfter, group, next)
    ensures -tilesAfter[t].strand in hostsAfter && hostsAfter[-tilesAfter[t].strand] == t
  {
    var indices := HostsOf(hosts, next);
    var s := -tiles[t].strand;
    assert tilesAfter[t] == tiles[t];
    assert s !in next by {
      forall j | 0 <= j < |next|
        ensures next[j] != s
      {
        assert indices[j] == hosts[next[j]];
      }
    }
    assert hostsAfter[s] == hosts[s];
  }

  /** After a rotation every strand a tile shows is indexed to that tile. */
  lemma RotatedShownIndexed(tiles: map<int, Tile>, hosts: map<int, int>,
                            tilesAfter: map<int, Tile>, hostsAfter: map<int, int>, group: seq<int>, next: seq<int>)
    requires ShownIndexed(tiles, hosts)
    requires forall x :: x in next <==> x in group
    requires HostsRotated(hosts, hostsAfter, group, next) && TilesRotated(tiles, hosts, tilesAfter, group, next)
    ensures ShownIndexed(tilesAfter, hostsAfter)
  {
    var indices := HostsOf(hosts, next);
    forall t | t in tilesAfter && tilesAfter[t].strand != 0
      ensures -tilesAfter[t].strand in hostsAfter && hostsAfter[-tilesAfter[t].strand] == t
    {
      if t in indices {
        var i :| 0 <= i < |next| && indices[i] == t;
        assert t == hosts[next[i]];
        assert tilesAfter[t].strand == -group[i];
        assert hostsAfter[group[i]] == t;
      } else {
        assert tilesAfter[t] == tiles[t];
        UnmovedShown(tiles, hosts, tilesAfter, hostsAfter, group, next, t);
      }
    }
  }


  /** A rotation of consistent views gives consistent views. */
  lemma RotatedConsistent(tiles: map<int, Tile>, hosts: map<int, int>, n: int,
                          tilesAfter: map<int, Tile>, hostsAfter: map<int, int>, group: seq<int>, next: seq<int>)
    requires Consistent(tiles, hosts, n) && Distinct(next)
    requires forall x :: x in next <==> x in group
    requires HostsRotated(hosts, hostsAfter, group, next) && TilesRotated(tiles, hosts, tilesAfter, group, next)
    ensures Consistent(tilesAfter, hostsAfter, n)
  {
    RotatedInjective(hosts, hostsAfter, group, next);
    RotatedHostsShow(tiles, hosts, tilesAfter, hostsAfter, group, next);
    RotatedShownIndexed(tiles, hosts, tilesAfter, hostsAfter, group, next);
  }

  /** Records that keep their places keep the spiral layout. */
  lemma SamePlacesLayout(tiles: map<int, Tile>, after: map<int, Tile>, n: int)
    requires Layout(tiles, n) && SamePlaces(tiles, after)
    ensures Layout(after, n)
  {
  }

  /** Rotating a group keeps the two views consistent and every tile where the spiral put it. */
  lemma RotateGroupConsistent(f: Field, n: int, g: int, group: seq<int>)
    requires Consistent(f.tiles, f.hosts, n) && Distinct(group) && Indexed(f.hosts, group)
    ensures Consistent(RotateGroup(f, g, group).tiles, RotateGroup(f, g, group).hosts, n)
    ensures SamePlaces(f.tiles, RotateGroup(f, g, group).tiles)
    ensures Layout(f.tiles, n) ==> Layout(RotateGroup(f, g, group).tiles, n)
  {
    var after := RotateGroup(f, g, group);
    RotateGroupHosts(f, g, group);
    RotateGroupTiles(f, n, g, group);
    RotateLeftPermutes(group);
    RotatedConsistent(f.tiles, f.hosts, n, after.tiles, after.hosts, group, RotateLeft(group));
    if Layout(f.tiles, n) {
      SamePlacesLayout(f.tiles, after.tiles, n);
    }
  }

  /** Records that keep their places give the same adjacency verdicts from pair i on. */
  lemma {:induction false} AdjacentsFromSamePlaces(tiles: map<int, Tile>, after: map<int, Tile>, group: seq<int>, i: nat)
    requires i <= |group| && SamePlaces(tiles, after)
    ensures AdjacentsFrom(after, group, i) == AdjacentsFrom(tiles, group, i)
    decreases |group| - i
  {
    if i < |group| {
      AdjacentsFromSamePlaces(tiles, after, group, i + 1);
    }
  }

  /** Rotation never changes a verdict of adjacents: it moves strands, not tiles. */
  lemma AdjacentsSamePlaces(tiles: map<int, Tile>, after: map<int, Tile>, group: seq<int>)
    requires SamePlaces(tiles, after)
    ensures Adjacents(after, group) == Adjacents(tiles, group)
    ensures IsCycle(after, group) <==> IsCycle(tiles, group)
  {
    AdjacentsFromSamePlaces(tiles, after, group, 0);
  }

  /** Every member of the group is one of the ids 1..n. */
  predicate Numbered(group: seq<int>, n: int) {
    forall i :: 0 <= i < |group| ==> 1 <= group[i] <= n
  }

  /** The adjacency verdicts of groups g, g + 1, ... on the given records. */
  function AdjacencyFlags(tiles: map<int, Tile>, groups: seq<seq<int>>, g: nat): seq<bool>
    requires g <= |groups|
  {
    seq(|groups| - g, i requires 0 <= i < |groups| - g => IsCycle(tiles, groups[g + i]))
  }

  /** Under Consistent a group can be looked up exactly when its members are numbered 1..n. */
  lemma LookupsSucceed(f: Field, n: int, group: seq<int>)
    requires Consistent(f.tiles, f.hosts, n)
    ensures Numbered(group, n) <==> Indexed(f.hosts, group)
    ensures Numbered(group, n) ==> Adjacents(f.tiles, group) == Some(IsCycle(f.tiles, group))
  {
    if Numbered(group, n) {
      assert forall m :: m in group ==> m in f.tiles;
      var r := Adjacents(f.tiles, group);
      assert r.Some?;
      assert r.value <==> IsCycle(f.tiles, group);
    }
    if Indexed(f.hosts, group) {
      forall i | 0 <= i < |group|
        ensures 1 <= group[i] <= n
      {
        assert group[i] in f.hosts;
      }
    }
  }

  /** The sweep from group g keeps the views consistent and every record in its place. */
  lemma {:induction false} SweepPreserves(f: Field, n: int, groups: seq<seq<int>>, g: nat, flags: seq<bool>)
    requires g <= |groups| && Consistent(f.tiles, f.hosts, n) && Distinct(Flatten(groups))
    ensures Consistent(Sweep(f, groups, g, flags).0.tiles, Sweep(f, groups, g, flags).0.hosts, n)
    ensures SamePlaces(f.tiles, Sweep(f, groups, g, flags).0.tiles)
    decreases |groups| - g
  {
    if g < |groups| {
      var adjacent := Adjacents(f.tiles, groups[g]);
      if !(adjacent.None? || !Indexed(f.hosts, groups[g])) {
        var next := RotateGroup(f, g, groups[g]);
        DistinctGroups(groups);
        RotateGroupConsistent(f, n, g, groups[g]);
        SweepPreserves(next, n, groups, g + 1, flags + [adjacent.value]);
      }
    }
  }

  /** One step of the sweep: a group whose lookups succeed is rotated and its verdict recorded. */
  lemma SweepStep(f: Field, n: int, groups: seq<seq<int>>, g: nat, flags: seq<bool>)
    requires g < |groups| && Consistent(f.tiles, f.hosts, n) && Numbered(groups[g], n)
    ensures Sweep(f, groups, g, flags) ==
      Sweep(RotateGroup(f, g, groups[g]), groups, g + 1, flags + [IsCycle(f.tiles, groups[g])])
  {
    LookupsSucceed(f, n, groups[g]);
  }

  /** A group whose lookups fail stops the sweep there, with Missing(g). */
  lemma SweepHalts(f: Field, groups: seq<seq<int>>, g: nat, flags: seq<bool>)
    requires g < |groups|
    requires Adjacents(f.tiles, groups[g]).None? || !Indexed(f.hosts, groups[g])
    ensures Sweep(f, groups, g, flags) == (f, Missing(g))
  {
  }

  /** A group whose lookups succeed is rotated and its verdict recorded. */
  lemma SweepMoves(f: Field, after: Field, groups: seq<seq<int>>, g: nat, flags: seq<bool>)
    requires g < |groups| && Adjacents(f.tiles, groups[g]).Some? && Indexed(f.hosts, groups[g])
    requires after == RotateGroup(f, g, groups[g])
    ensures Sweep(f, groups, g, flags) ==
      Sweep(after, groups, g + 1, flags + [Adjacents(f.tiles, groups[g]).value])
  {
  }

  /** The sweep stops, with Missing(g), at a group with a member outside 1..n. */
  lemma SweepStops(f: Field, n: int, groups: seq<seq<int>>, g: nat, flags: seq<bool>)
    requires g < |groups| && Consistent(f.tiles, f.hosts, n) && !Numbered(groups[g], n)
    ensures Sweep(f, groups, g, flags) == (f, Missing(g))
  {
    LookupsSucceed(f, n, groups[g]);
  }

  /** Groups g + 1 .. k - 1 in 1..n, and group g too, make groups g .. k - 1 in 1..n. */
  lemma NumberedFrom(groups: seq<seq<int>>, n: int, g: nat, k: int)
    requires g < |groups| && k <= |groups| && Numbered(groups[g], n)
    requires forall j :: g + 1 <= j < k ==> Numbered(groups[j], n)
    ensures forall j :: g <= j < k ==> Numbered(groups[j], n)
  {
  }

  /**
   * The sweep from group g ends in Rotated or Missing, and stops with
   * Missing(k) exactly at the first group k with a member outside 1..n.
   */
  lemma {:induction false} SweepEnds(f: Field, n: int, groups: seq<seq<int>>, g: nat, flags: seq<bool>)
    requires g <= |groups| && Consistent(f.tiles, f.hosts, n) && Distinct(Flatten(groups))
    ensures Sweep(f, groups, g, flags).1.Rotated? || Sweep(f, groups, g, flags).1.Missing?
    ensures Sweep(f, groups, g, flags).1.Rotated? ==> forall k :: g <= k < |groups| ==> Numbered(groups[k], n)
    ensures Sweep(f, groups, g, flags).1.Missing? ==>
      var k := Sweep(f, groups, g, flags).1.group;
      g <= k < |groups| && !Numbered(groups[k], n) && forall j :: g <= j < k ==> Numbered(groups[j], n)
    decreases |groups| - g
  {
    if g < |groups| {
      if Numbered(groups[g], n) {
        var next, flags' := RotateGroup(f, g, groups[g]), flags + [IsCycle(f.tiles, groups[g])];
        assert Consistent(next.tiles, next.hosts, n) by {
          DistinctGroups(groups);
          RotateGroupConsistent(f, n, g, groups[g]);
        }
        var rest := Sweep(next, groups, g + 1, flags');
        SweepEnds(next, n, groups, g + 1, flags');
        SweepStep(f, n, groups, g, flags);
        if rest.1.Rotated? {
          NumberedFrom(groups, n, g, |groups|);
        } else {
          NumberedFrom(groups, n, g, rest.1.group);
        }
      } else {
        SweepStops(f, n, groups, g, flags);
      }
    }
  }

  /** The verdicts from group g on are the verdict of group g followed by those from g + 1 on. */
  lemma AdjacencyFlagsCons(tiles: map<int, Tile>, groups: seq<seq<int>>, g: nat)
    requires g < |groups|
    ensures AdjacencyFlags(tiles, groups, g) == [IsCycle(tiles, groups[g])] + AdjacencyFlags(tiles, groups, g + 1)
  {
  }

  /** Records that keep their places give the same verdicts. */
  lemma AdjacencyFlagsSamePlaces(tiles: map<int, Tile>, after: map<int, Tile>, groups: seq<seq<int>>, g: nat)
    requires g <= |groups| && SamePlaces(tiles, after)
    ensures AdjacencyFlags(after, groups, g) == AdjacencyFlags(tiles, groups, g)
  {
    var flags, flags' := AdjacencyFlags(after, groups, g), AdjacencyFlags(tiles, groups, g);
    forall i | 0 <= i < |flags|
      ensures flags[i] == flags'[i]
    {
      AdjacentsSamePlaces(tiles, after, groups[g + i]);
    }
  }

  /** Recording a verdict and then the rest is recording the verdict followed by the rest. */
  lemma AppendVerdict(flags: seq<bool>, verdict: bool, rest: seq<bool>, all: seq<bool>)
    requires all == [verdict] + rest
    ensures flags + [verdict] + rest == flags + all
  {
  }

  /**
   * When every group from g on is numbered 1..n, the sweep reports the
   * adjacency verdict of every group on the records as they were before it.
   */
  lemma {:induction false} SweepFlags(f: Field, n: int, groups: seq<seq<int>>, g: nat, flags: seq<bool>)
    requires g <= |groups| && Consistent(f.tiles, f.hosts, n) && Distinct(Flatten(groups))
    requires forall k :: g <= k < |groups| ==> Numbered(groups[k], n)
    ensures Sweep(f, groups, g, flags).1 == Rotated(flags + AdjacencyFlags(f.tiles, groups, g))
    decreases |groups| - g
  {
    if g < |groups| {
      var next := RotateGroup(f, g, groups[g]);
      var verdict := IsCycle(f.tiles, groups[g]);
      SweepStep(f, n, groups, g, flags);
      DistinctGroups(groups);
      RotateGroupConsistent(f, n, g, groups[g]);
      SweepFlags(next, n, groups, g + 1, flags + [verdict]);
      AdjacencyFlagsSamePlaces(f.tiles, next.tiles, groups, g + 1);
      AdjacencyFlagsCons(f.tiles, groups, g);
      AppendVerdict(flags, verdict, AdjacencyFlags(f.tiles, groups, g + 1), AdjacencyFlags(f.tiles, groups, g));
    } else {
      assert AdjacencyFlags(f.tiles, groups, g) == [];
    }
  }

  /**
   * rotate with the option off changes nothing; with it on, it stops on a
   * shared id before touching anything; and only those two cases leave the
   * field as it was.
   */
  lemma RotateAllGuards(f: Field, n: int, rotating: bool, groups: seq<seq<int>>)
    requires Consistent(f.tiles, f.hosts, n)
    ensures RotateAll(f, rotating, groups).1 == Skipped <==> !rotating
    ensures RotateAll(f, rotating, groups).1 == Overlap <==> rotating && !Distinct(Flatten(groups))
    ensures RotateAll(f, rotating, groups).1 in {Skipped, Overlap} ==> RotateAll(f, rotating, groups).0 == f
  {
    if rotating && Distinct(Flatten(groups)) {
      SweepEnds(f, n, groups, 0, []);
    }
  }

  /** Whatever rotate does, the two views stay consistent and no tile moves. */
  lemma RotateAllPreserves(f: Field, n: int, rotating: bool, groups: seq<seq<int>>)
    requires Consistent(f.tiles, f.hosts, n)
    ensures Consistent(RotateAll(f, rotating, groups).0.tiles, RotateAll(f, rotating, groups).0.hosts, n)
    ensures SamePlaces(f.tiles, RotateAll(f, rotating, groups).0.tiles)
    ensures Layout(f.tiles, n) ==> Layout(RotateAll(f, rotating, groups).0.tiles, n)
  {
    if rotating && Distinct(Flatten(groups)) {
      SweepPreserves(f, n, groups, 0, []);
    }
    if Layout(f.tiles, n) {
      SamePlacesLayout(f.tiles, RotateAll(f, rotating, groups).0.tiles, n);
    }
  }

  /**
   * With the option on and no shared id, rotate fails on a lookup exactly at
   * the first group with a member outside 1..n, and otherwise reports the
   * adjacency of every group on the original layout.
   */
  lemma RotateAllReports(f: Field, n: int, groups: seq<seq<int>>)
    requires Consistent(f.tiles, f.hosts, n) && Distinct(Flatten(groups))
    ensures (forall k :: 0 <= k < |groups| ==> Numbered(groups[k], n)) ==>
      RotateAll(f, true, groups).1 == Rotated(AdjacencyFlags(f.tiles, groups, 0))
    ensures RotateAll(f, true, groups).1.Missing? ==>
      var k := RotateAll(f, true, groups).1.group;
      k < |groups| && !Numbered(groups[k], n) && forall j :: 0 <= j < k ==> Numbered(groups[j], n)
    ensures RotateAll(f, true, groups).1.Rotated? || RotateAll(f, true, groups).1.Missing?
  {
    assert RotateAll(f, true, groups) == Sweep(f, groups, 0, []);
    SweepEnds(f, n, groups, 0, []);
    if forall k :: 0 <= k < |groups| ==> Numbered(groups[k], n) {
      SweepFlags(f, n, groups, 0, []);
      assert [] + AdjacencyFlags(f.tiles, groups, 0) == AdjacencyFlags(f.tiles, groups, 0);
    }
  }

  /**
   * A single group is rotated whether or not it is a cycle: non-adjacency is
   * only reported, in the verdict.
   */
  lemma SingleGroupRotates(f: Field, n: int, group: seq<int>)
    requires Consistent(f.tiles, f.hosts, n) && Distinct(group) && Numbered(group, n)
    ensures RotateAll(f, true, [group]) == (RotateGroup(f, 0, group), Rotated([IsCycle(f.tiles, group)]))
  {
    assert [group][1..] == [];
    assert Flatten([group]) == group;
    SweepStep(f, n, [group], 0, []);
    assert [] + [IsCycle(f.tiles, group)] == [IsCycle(f.tiles, group)];
  }

  /** k rotations of the same group in a row. */
  function RotateGroupTimes(f: Field, g: int, group: seq<int>, k: nat): Field {
    if k == 0 then f else RotateGroup(RotateGroupTimes(f, g, group, k - 1), g, group)
  }

  /** After k rotations strand group[i] is hosted where strand group[i + k] (cyclically) was. */
  lemma {:induction false} RotateGroupTimesHosts(f: Field, g: int, group: seq<int>, k: nat)
    requires Distinct(group) && Indexed(f.hosts, group)
    ensures RotateGroupTimes(f, g, group, k).hosts.Keys == f.hosts.Keys
    ensures forall i {:trigger RotateGroupTimes(f, g, group, k).hosts[group[i]]} :: 0 <= i < |group| ==>
      RotateGroupTimes(f, g, group, k).hosts[group[i]] == f.hosts[group[Advance(i, k, |group|)]]
    ensures forall s {:trigger RotateGroupTimes(f, g, group, k).hosts[s]} :: s in f.hosts && s !in group ==> RotateGroupTimes(f, g, group, k).hosts[s] == f.hosts[s]
  {
    if k > 0 {
      var prev, cur := RotateGroupTimes(f, g, group, k - 1), RotateGroupTimes(f, g, group, k);
      RotateGroupTimesHosts(f, g, group, k - 1);
      RotateGroupTimesStep(f, g, group, k);
      HostsStep(f.hosts, prev.hosts, cur.hosts, group, k);
    }
  }

  /** The k-th rotation rotates the index left by the (k - 1)-th one. */
  lemma RotateGroupTimesStep(f: Field, g: int, group: seq<int>, k: nat)
    requires k > 0 && Distinct(group) && Indexed(f.hosts, group)
    requires RotateGroupTimes(f, g, group, k - 1).hosts.Keys == f.hosts.Keys
    ensures HostsRotated(RotateGroupTimes(f, g, group, k - 1).hosts, RotateGroupTimes(f, g, group, k).hosts,
                         group, RotateLeft(group))
  {
    var prev := RotateGroupTimes(f, g, group, k - 1);
    assert Indexed(prev.hosts, group);
    RotateGroupHosts(prev, g, group);
  }

  /** One more rotation, from an index that is the (k - 1)-th rotation of the original one. */
  lemma HostsStep(hosts: map<int, int>, prev: map<int, int>, after: map<int, int>, group: seq<int>, k: nat)
    requires k > 0 && Indexed(hosts, group) && prev.Keys == hosts.Keys
    requires forall i {:trigger prev[group[i]]} :: 0 <= i < |group| ==>
      prev[group[i]] == hosts[group[Advance(i, k - 1, |group|)]]
    requires forall s {:trigger prev[s]} :: s in hosts && s !in group ==> prev[s] == hosts[s]
    requires HostsRotated(prev, after, group, RotateLeft(group))
    ensures after.Keys == hosts.Keys
    ensures forall i {:trigger after[group[i]]} :: 0 <= i < |group| ==>
      after[group[i]] == hosts[group[Advance(i, k, |group|)]]
    ensures forall s {:trigger after[s]} :: s in hosts && s !in group ==> after[s] == hosts[s]
  {
    var n := |group|;
    forall i | 0 <= i < n
      ensures after[group[i]] == hosts[group[Advance(i, k, n)]]
    {
      var j := Succ(i, n);
      assert RotateLeft(group)[i] == group[j];
      AdvanceFirstStep(i, k, n);
      assert after[group[i]] == prev[group[j]];
    }
  }

  /** An index moved a full turn along the group (Advance by |group|) is the original index. */
  lemma IndexRestored(hosts: map<int, int>, after: map<int, int>, group: seq<int>)
    requires Indexed(hosts, group) && after.Keys == hosts.Keys
    requires forall i {:trigger after[group[i]]} :: 0 <= i < |group| ==>
      after[group[i]] == hosts[group[Advance(i, |group|, |group|)]]
    requires forall s {:trigger after[s]} :: s in hosts && s !in group ==> after[s] == hosts[s]
    ensures after == hosts
  {
    forall s | s in hosts
      ensures after[s] == hosts[s]
    {
      if s in group {
        var i :| 0 <= i < |group| && group[i] == s;
        AdvanceFull(i, |group|);
      }
    }
  }

  /** Rotating a group as many times as it has members restores the strand index. */
  lemma FullTurnRestoresHosts(f: Field, g: int, group: seq<int>)
    requires Distinct(group) && Indexed(f.hosts, group)
    ensures RotateGroupTimes(f, g, group, |group|).hosts == f.hosts
  {
    RotateGroupTimesHosts(f, g, group, |group|);
    IndexRestored(f.hosts, RotateGroupTimes(f, g, group, |group|).hosts, group);
  }

  /**
   * Rotating a group and then the same group in reverse order gives every
   * strand back its original host: strand group[j] first moves to the host
   * of group[j + 1], then to the host that group[j - 1] had after the first
   * move, which is the original host of group[j].
   */
  lemma ReverseUndoesHosts(f: Field, g: int, g2: int, group: seq<int>)
    requires Distinct(group) && Indexed(f.hosts, group)
    ensures RotateGroup(RotateGroup(f, g, group), g2, Reverse(group)).hosts == f.hosts
  {
    var n := |group|;
    var mid := RotateGroup(f, g, group);
    var rev := Reverse(group);
    ReversePermutes(group);
    assert HostsRotated(f.hosts, mid.hosts, group, RotateLeft(group)) by {
      RotateGroupHosts(f, g, group);
    }
    assert Indexed(mid.hosts, rev) by {
      forall i | 0 <= i < n
        ensures rev[i] in mid.hosts
      {
        assert rev[i] == group[n - 1 - i];
      }
    }
    var after := RotateGroup(mid, g2, rev).hosts;
    assert HostsRotated(mid.hosts, after, rev, RotateLeft(rev)) by {
      RotateGroupHosts(mid, g2, rev);
    }
    ShiftedHosts(f.hosts, mid.hosts, group);
    ShiftedHosts(mid.hosts, after, rev);
    forall j | 0 <= j < n
      ensures after[group[j]] == f.hosts[group[j]]
    {
      ReverseStep(f.hosts, mid.hosts, after, group, rev, j);
    }
    IndexBack(f.hosts, mid.hosts, after, group, rev);
  }

  /** A rotation of the index moves member i to the old host of member i + 1, cyclically. */
  lemma ShiftedHosts(hosts: map<int, int>, after: map<int, int>, group: seq<int>)
    requires HostsRotated(hosts, after, group, RotateLeft(group))
    ensures Indexed(after, group)
    ensures forall i {:trigger after[group[i]]} :: 0 <= i < |group| ==>
      after[group[i]] == hosts[group[Succ(i, |group|)]]
  {
    forall i | 0 <= i < |group|
      ensures after[group[i]] == hosts[group[Succ(i, |group|)]]
    {
      assert RotateLeft(group)[i] == group[Succ(i, |group|)];
    }
  }

  /** The member at position j is back on its original host after the forward and the reverse rotation. */
  lemma ReverseStep(hosts: map<int, int>, mid: map<int, int>, after: map<int, int>, group: seq<int>, rev: seq<int>, j: nat)
    requires |rev| == |group| && j < |group|
    requires Indexed(hosts, group) && Indexed(mid, group) && Indexed(mid, rev) && Indexed(after, rev)
    requires forall i {:trigger rev[i]} :: 0 <= i < |group| ==> rev[i] == group[|group| - 1 - i]
    requires forall i {:trigger mid[group[i]]} :: 0 <= i < |group| ==> mid[group[i]] == hosts[group[Succ(i, |group|)]]
    requires forall i {:trigger after[rev[i]]} :: 0 <= i < |rev| ==> after[rev[i]] == mid[rev[Succ(i, |rev|)]]
    ensures group[j] in after && after[group[j]] == hosts[group[j]]
  {
    var n := |group|;
    var i := n - 1 - j;
    var p := if j == 0 then n - 1 else j - 1;
    assert rev[i] == group[j];
    assert rev[Succ(i, n)] == group[p];
    assert after[group[j]] == mid[group[p]];
    assert Succ(p, n) == j;
  }

  /**
   * Two rotations of the same members, the second of them in some order rev:
   * when every member is back on its host, the whole index is as it was.
   */
  lemma IndexBack(hosts: map<int, int>, mid: map<int, int>, after: map<int, int>, group: seq<int>, rev: seq<int>)
    requires HostsRotated(hosts, mid, group, RotateLeft(group))
    requires HostsRotated(mid, after, rev, RotateLeft(rev))
    requires forall x :: x in rev <==> x in group
    requires forall j {:trigger group[j]} :: 0 <= j < |group| ==> after[group[j]] == hosts[group[j]]
    ensures after == hosts
  {
    forall s | s in hosts
      ensures after[s] == hosts[s]
    {
      if s in group {
        var j :| 0 <= j < |group| && group[j] == s;
      } else {
        assert s !in rev;
      }
    }
  }

  /**
   * Seven tiles, seven strands, one rotation of strands 1, 2 and 3: tile 1
   * then holds strand 3, tile 2 strand 1 and tile 3 strand 2, the index
   * follows, the other tiles keep their records, and the triangle is
   * reported adjacent.
   */
  lemma SevenTileRotation(f: Field, group: seq<int>)
    requires Consistent(f.tiles, f.hosts, 7) && Layout(f.tiles, 7)
    requires forall s :: 1 <= s <= 7 ==> f.hosts[s] == s
    requires |group| == 3 && group[0] == 1 && group[1] == 2 && group[2] == 3
    ensures RotateAll(f, true, [group]) == (RotateGroup(f, 0, group), Rotated([true]))
    ensures RotateGroup(f, 0, group).tiles.Keys == f.tiles.Keys && RotateGroup(f, 0, group).hosts.Keys == f.hosts.Keys
    ensures var after := RotateGroup(f, 0, group);
      after.tiles[1].strand == -3 && after.tiles[2].strand == -1 && after.tiles[3].strand == -2 &&
      after.tiles[2].moved == 0 && after.tiles[3].moved == 1 && after.tiles[1].moved == 2 &&
      after.hosts[1] == 2 && after.hosts[2] == 3 && after.hosts[3] == 1 &&
      (forall t :: 4 <= t <= 7 ==> after.tiles[t] == f.tiles[t])
  {
    var after := RotateGroup(f, 0, group);
    var next := RotateLeft(group);
    TriangleGroup(group);
    assert IsCycle(f.tiles, group) by {
      DiagramLayout(f.tiles, 7);
      TriangleIsCycle(f.tiles, group);
      LookupsSucceed(f, 7, group);
    }
    SingleGroupRotates(f, 7, group);
    RotateGroupHosts(f, 0, group);
    RotateGroupTiles(f, 7, 0, group);
    TriangleMoves(f.tiles, f.hosts, after.tiles, after.hosts, group, next);
  }

  /** The group 1, 2, 3: numbered within seven tiles, free of repeats, and 2, 3, 1 once rotated. */
  lemma TriangleGroup(group: seq<int>)
    requires |group| == 3 && group[0] == 1 && group[1] == 2 && group[2] == 3
    ensures Numbered(group, 7) && Distinct(group) && group == [1, 2, 3]
    ensures RotateLeft(group)[0] == 2 && RotateLeft(group)[1] == 3 && RotateLeft(group)[2] == 1
  {
  }

  /** The triangle 1, 2, 3 rotated once from the identity index. */
  lemma TriangleMoves(tiles: map<int, Tile>, hosts: map<int, int>, tilesAfter: map<int, Tile>, hostsAfter: map<int, int>,
                      group: seq<int>, next: seq<int>)
    requires |group| == 3 && group[0] == 1 && group[1] == 2 && group[2] == 3
    requires |next| == 3 && next[0] == 2 && next[1] == 3 && next[2] == 1
    requires forall t :: t in tiles <==> 1 <= t <= 7
    requires forall s :: s in hosts <==> 1 <= s <= 7
    requires forall s :: 1 <= s <= 7 ==> hosts[s] == s
    requires HostsRotated(hosts, hostsAfter, group, next) && TilesRotated(tiles, hosts, tilesAfter, group, next)
    requires forall i :: 0 <= i < |group| ==> tilesAfter[hosts[next[i]]] == MovedIn(tiles[hosts[next[i]]], group[i], 0, i)
    ensures tilesAfter[1].strand == -3 && tilesAfter[2].strand == -1 && tilesAfter[3].strand == -2
    ensures tilesAfter[2].moved == 0 && tilesAfter[3].moved == 1 && tilesAfter[1].moved == 2
    ensures hostsAfter[1] == 2 && hostsAfter[2] == 3 && hostsAfter[3] == 1
    ensures forall t :: 4 <= t <= 7 ==> tilesAfter[t] == tiles[t]
  {
    assert tilesAfter[hosts[next[0]]] == MovedIn(tiles[2], 1, 0, 0);
    assert tilesAfter[hosts[next[1]]] == MovedIn(tiles[3], 2, 0, 1);
    assert tilesAfter[hosts[next[2]]] == MovedIn(tiles[1], 3, 0, 2);
    assert hostsAfter[group[0]] == hosts[next[0]];
    assert hostsAfter[group[1]] == hosts[next[1]];
    assert hostsAfter[group[2]] == hosts[next[2]];
    forall t | 4 <= t <= 7
      ensures tilesAfter[t] == tiles[t]
    {
      assert HostsOf(hosts, next)[0] == 2 && HostsOf(hosts, next)[1] == 3 && HostsOf(hosts, next)[2] == 1;
      assert t !in HostsOf(hosts, next);
    }
  }

  /**
   * SevenTileRotation on the field generateRings builds for n = 7 tiles and
   * as many strands, rotating [1, 2, 3].
   */
  lemma GeneratedSevenTileRotation(n: int, group: seq<int>)
    requires n == 7 && |group| == 3 && group[0] == 1 && group[1] == 2 && group[2] == 3
    ensures RotateAll(Field(Generated(n, n), IdentityHosts(n)), true, [group]).1 == Rotated([true])
    ensures var after := RotateAll(Field(Generated(n, n), IdentityHosts(n)), true, [group]).0;
      after.tiles.Keys == Generated(n, n).Keys &&
      after.tiles[1].strand == -3 && after.tiles[2].strand == -1 && after.tiles[3].strand == -2
  {
    GeneratedConsistent(n, n);
    GeneratedLayout(n, n);
    IdentityRecords(n);
    SevenTileRotation(Field(Generated(n, n), IdentityHosts(n)), group);
  }
}

/**
 The prefetch planner: from tiles and a level range to a map of quad-tree queries.

 A query `Entry(tile, depth)` asks the backend for `tile` and everything up to `depth` levels below it.
 The theorem is that a plan asks for exactly the wanted tiles, whatever the levels are.
 */
module PrefetchTiles {
  import opened TileKeys

  const MAX_QUAD_TREE_INDEX_DEPTH: nat := 4

  datatype Entry = Entry(tile: TileKey, depth: nat)

  /** A query per map key, the key being the tile's name. */
  type Plan = map<string, Entry>

  // `std::max` on the pair of tile and depth.

  predicate TileLess(a: TileKey, b: TileKey) {
    if a.level != b.level then a.level < b.level
    else if a.row != b.row then a.row < b.row
    else a.column < b.column
  }

  function MaxEntry(a: Entry, b: Entry): Entry {
    if TileLess(a.tile, b.tile) || (!TileLess(b.tile, a.tile) && a.depth < b.depth) then b else a
  }

  // What a plan asks for.

  predicate Covers(e: Entry, s: TileKey) {
    Under(s, e.tile) && s.level <= e.tile.level + e.depth
  }

  ghost predicate Covered(p: Plan, s: TileKey) {
    exists k :: k in p && Covers(p[k], s)
  }

  ghost predicate WellKeyed(p: Plan) {
    forall k :: k in p ==> InGrid(p[k].tile) && k == ToHereTile(p[k].tile)
  }

  /** How deep a query for the tile goes: to the last level, but at most 4 levels down. */
  function FullDepth(tile: TileKey, maxLevel: nat): int {
    if maxLevel - tile.level < 4 then maxLevel - tile.level else 4
  }

  predicate ProperAncestor(a: TileKey, t: TileKey) {
    a.level < t.level && Under(t, a)
  }

  /** Proper ancestors of `t` are asked for alone, all other tiles as deep as a query goes. */
  ghost predicate FullQueries(p: Plan, t: TileKey, maxLevel: nat) {
    forall k :: k in p ==>
      p[k].depth == if ProperAncestor(p[k].tile, t) then 0 else FullDepth(p[k].tile, maxLevel)
  }

  /** No tile is asked for by two entries. */
  ghost predicate Disjoint(p: Plan) {
    forall k, l, s :: k in p && l in p && Covers(p[k], s) && Covers(p[l], s) ==> k == l
  }

  // What should be asked for.

  predicate InRange(s: TileKey, minLevel: nat, maxLevel: nat) {
    minLevel <= s.level <= maxLevel
  }

  /** The tiles of the range on `t`'s branch: its descendants, itself, and, if asked for, its ancestors. */
  predicate Wanted(t: TileKey, minLevel: nat, maxLevel: nat, addAncestors: bool, s: TileKey) {
    && InRange(s, minLevel, maxLevel)
    && (Under(s, t) || ((addAncestors || t.level > maxLevel) && Under(t, s)))
  }

  ghost predicate Exact(p: Plan, t: TileKey, minLevel: nat, maxLevel: nat, addAncestors: bool) {
    forall s :: Covered(p, s) <==> Wanted(t, minLevel, maxLevel, addAncestors, s)
  }

  // Merging plans.

  function Merge(p: Plan, q: Plan): Plan {
    map k | k in p.Keys + q.Keys ::
      if k in p && k in q then MaxEntry(p[k], q[k]) else if k in p then p[k] else q[k]
  }

  lemma MergeEntry(p: Plan, q: Plan, k: string, s: TileKey)
    requires WellKeyed(p) && WellKeyed(q) && k in Merge(p, q)
    ensures InGrid(Merge(p, q)[k].tile) && k == ToHereTile(Merge(p, q)[k].tile)
    ensures Covers(Merge(p, q)[k], s) <==> (k in p && Covers(p[k], s)) || (k in q && Covers(q[k], s))
  {
    if k in p && k in q {
      HereTileInjective(p[k].tile, q[k].tile);
      assert p[k].tile == q[k].tile;
    }
  }

  /** Merging by the greater depth neither loses nor adds a tile. */
  lemma MergeCovers(p: Plan, q: Plan, s: TileKey)
    requires WellKeyed(p) && WellKeyed(q)
    ensures WellKeyed(Merge(p, q))
    ensures Covered(Merge(p, q), s) <==> Covered(p, s) || Covered(q, s)
  {
    forall k | k in Merge(p, q)
      ensures InGrid(Merge(p, q)[k].tile) && k == ToHereTile(Merge(p, q)[k].tile)
      ensures Covers(Merge(p, q)[k], s) <==> (k in p && Covers(p[k], s)) || (k in q && Covers(q[k], s))
    {
      MergeEntry(p, q, k, s);
    }
    assert forall k :: k in p || k in q ==> k in Merge(p, q);
  }

  /** Two entries of one name cover their common tile. */
  lemma SharedKeyOverlaps(p: Plan, q: Plan, k: string)
    requires WellKeyed(p) && WellKeyed(q) && k in p && k in q
    ensures Covered(p, p[k].tile) && Covered(q, p[k].tile)
  {
    HereTileInjective(p[k].tile, q[k].tile);
    assert Covers(p[k], p[k].tile) && Covers(q[k], p[k].tile);
  }

  lemma MergeDisjoint(p: Plan, q: Plan)
    requires WellKeyed(p) && WellKeyed(q) && Disjoint(p) && Disjoint(q)
    requires forall s :: !(Covered(p, s) && Covered(q, s))
    ensures Disjoint(Merge(p, q))
  {
    var m := Merge(p, q);
    assert p.Keys !! q.Keys by {
      if k :| k in p && k in q {
        SharedKeyOverlaps(p, q, k);
      }
    }
    forall k, l, s | k in m && l in m && Covers(m[k], s) && Covers(m[l], s)
      ensures k == l
    {
      assert k in p ==> Covered(p, s);
      assert l in p ==> Covered(p, s);
      assert k in q ==> Covered(q, s);
      assert l in q ==> Covered(q, s);
    }
  }

  method MergeInto(ret: Plan, childTiles: Plan) returns (r: Plan)
    ensures r == Merge(ret, childTiles)
  {
    r := ret;
    var todo := childTiles.Keys;
    ghost var done: set<string> := {};
    while todo != {}
      invariant todo + done == childTiles.Keys && todo !! done
      invariant r == Merge(ret, map k | k in done :: childTiles[k])
      decreases todo
    {
      var k :| k in todo;
      if k in r {
        r := r[k := MaxEntry(r[k], childTiles[k])];
      } else {
        r := r[k := childTiles[k]];
      }
      todo := todo - {k};
      done := done + {k};
    }
    assert childTiles == map k | k in done :: childTiles[k];
  }

  // Children at a level.

  ghost predicate Distinct(tiles: seq<TileKey>) {
    forall i, j :: 0 <= i < j < |tiles| ==> tiles[i] != tiles[j]
  }

  lemma SiblingsApart(s: TileKey, t: TileKey, i: nat, j: nat)
    requires i < 4 && j < 4 && Under(s, GetChild(t, i)) && Under(s, GetChild(t, j))
    ensures i == j
  {
    hide Up, InGrid;
    ParentOfChild(t, i);
    ParentOfChild(t, j);
  }

  /** Below one of the first `n` children of `t`. */
  ghost predicate UnderChild(s: TileKey, t: TileKey, n: nat)
    requires n <= 4
  {
    exists j: nat :: j < n && Under(s, GetChild(t, j))
  }

  /** The tiles on `level` below the first `n` children of `t`, each once. */
  ghost predicate ChildrenOnLevel(r: seq<TileKey>, t: TileKey, n: nat, level: nat)
    requires n <= 4
  {
    Distinct(r) && forall s :: s in r <==> s.level == level && UnderChild(s, t, n)
  }

  lemma NextChild(r: seq<TileKey>, child: seq<TileKey>, t: TileKey, n: nat, level: nat)
    requires n < 4 && ChildrenOnLevel(r, t, n, level) && Distinct(child)
    requires forall s :: s in child <==> Under(s, GetChild(t, n)) && s.level == level
    ensures ChildrenOnLevel(r + child, t, n + 1, level)
  {
    forall s
      ensures UnderChild(s, t, n + 1) <==> UnderChild(s, t, n) || Under(s, GetChild(t, n))
      ensures !(UnderChild(s, t, n) && Under(s, GetChild(t, n)))
    {
      NotUnderEarlier(s, t, n);
    }
    AppendDistinct(r, child);
  }

  lemma NotUnderEarlier(s: TileKey, t: TileKey, n: nat)
    requires n < 4
    ensures Under(s, GetChild(t, n)) ==> !UnderChild(s, t, n)
  {
    forall j: nat | j < n && Under(s, GetChild(t, j)) && Under(s, GetChild(t, n))
      ensures false
    {
      SiblingsApart(s, t, j, n);
    }
  }

  lemma AllChildren(r: seq<TileKey>, t: TileKey, level: nat)
    requires InGrid(t) && t.level < level && ChildrenOnLevel(r, t, 4, level)
    ensures forall s :: s in r <==> Under(s, t) && s.level == level
  {
    forall s: TileKey
      ensures s.level == level ==> (UnderChild(s, t, 4) <==> Under(s, t))
    {
      UnderChildren(s, t);
    }
  }

  /** All descendants on `minLevel`, each once: 4^k of them, k levels down. */
  method GetChildAtLevel(t: TileKey, minLevel: nat) returns (r: seq<TileKey>)
    requires InGrid(t)
    ensures t.level >= minLevel ==> r == [t]
    ensures t.level < minLevel ==> forall s :: s in r <==> Under(s, t) && s.level == minLevel
    ensures t.level < minLevel ==> |r| == Pow(4, minLevel - t.level)
    ensures Distinct(r)
    decreases minLevel - t.level
  {
    hide Under, UnderChild, InGrid;
    r := [];
    if t.level >= minLevel {
      return [t];
    }
    ghost var each := Pow(4, minLevel - t.level - 1);
    NoChildren(t);
    for i := 0 to 4
      invariant ChildrenOnLevel(r, t, i, minLevel)
      invariant |r| == i * each
    {
      ParentOfChild(t, i);
      var child := GetChildAtLevel(GetChild(t, i), minLevel);
      if t.level + 1 == minLevel {
        OnlyItself(GetChild(t, i));
      }
      NextChild(r, child, t, i, minLevel);
      r := r + child;
    }
    AllChildren(r, t, minLevel);
  }

  lemma NoChildren(t: TileKey)
    ensures forall s :: !UnderChild(s, t, 0)
  {
  }

  lemma OnlyItself(t: TileKey)
    ensures forall s :: Under(s, t) && s.level == t.level <==> s == t
  {
  }

  lemma AppendDistinct(a: seq<TileKey>, b: seq<TileKey>)
    requires Distinct(a) && Distinct(b) && forall s :: s in a ==> s !in b
    ensures Distinct(a + b)
  {
    forall i, j | 0 <= i < j < |a + b|
      ensures (a + b)[i] != (a + b)[j]
    {
      if i < |a| <= j {
        assert a[i] in a && b[j - |a|] in b;
      }
    }
  }

  // Ancestors.

  lemma PutCovers(p: Plan, e: Entry, s: TileKey)
    requires WellKeyed(p) && InGrid(e.tile) && !Covered(p, e.tile)
    ensures WellKeyed(p[ToHereTile(e.tile) := e])
    ensures Covered(p[ToHereTile(e.tile) := e], s) <==> Covered(p, s) || Covers(e, s)
  {
    var q := map[ToHereTile(e.tile) := e];
    assert Covered(q, s) <==> Covers(e, s) by {
      assert ToHereTile(e.tile) in q;
    }
    if ToHereTile(e.tile) in p {
      SharedKeyOverlaps(p, q, ToHereTile(e.tile));
      HereTileInjective(p[ToHereTile(e.tile)].tile, e.tile);
    }
    assert p[ToHereTile(e.tile) := e] == Merge(p, q);
    MergeCovers(p, q, s);
  }

  lemma PutDisjoint(p: Plan, e: Entry)
    requires WellKeyed(p) && InGrid(e.tile) && Disjoint(p)
    requires forall s :: !(Covered(p, s) && Covers(e, s))
    ensures Disjoint(p[ToHereTile(e.tile) := e])
  {
    var q := map[ToHereTile(e.tile) := e];
    forall s
      ensures !(Covered(p, s) && Covered(q, s))
    {
    }
    if ToHereTile(e.tile) in p {
      SharedKeyOverlaps(p, q, ToHereTile(e.tile));
    }
    MergeDisjoint(p, q);
    assert p[ToHereTile(e.tile) := e] == Merge(p, q);
  }

  ghost predicate AllAlone(p: Plan) {
    forall k :: k in p ==> p[k].depth == 0
  }

  /** The entries of the ancestors of `t` above `level` in the range, each with depth 0. */
  ghost predicate ParentsAbove(r: Plan, t: TileKey, level: int, minLevel: nat, maxLevel: nat) {
    && WellKeyed(r) && Disjoint(r) && AllAlone(r)
    && forall s :: Covered(r, s) <==> InRange(s, minLevel, maxLevel) && Under(t, s) && level < s.level < t.level
  }

  lemma NextParent(r: Plan, t: TileKey, n: nat, minLevel: nat, maxLevel: nat)
    requires InGrid(t) && n < t.level && minLevel <= n && ParentsAbove(r, t, n, minLevel, maxLevel)
    ensures n > maxLevel ==> ParentsAbove(r, t, n - 1, minLevel, maxLevel)
    ensures n <= maxLevel ==>
              var tile := Up(t, t.level - n);
              ParentsAbove(r[ToHereTile(tile) := Entry(tile, 0)], t, n - 1, minLevel, maxLevel)
  {
    hide Covered, Disjoint, WellKeyed, InGrid;
    var tile := Up(t, t.level - n);
    if n <= maxLevel {
      UpGrid(t, t.level - n);
      PutTile(r, tile);
    }
  }

  lemma PutTile(r: Plan, tile: TileKey)
    requires WellKeyed(r) && Disjoint(r) && InGrid(tile) && !Covered(r, tile)
    ensures var p := r[ToHereTile(tile) := Entry(tile, 0)];
            WellKeyed(p) && Disjoint(p) && forall s :: Covered(p, s) <==> Covered(r, s) || s == tile
  {
    hide Covered, Disjoint, WellKeyed, Covers, InGrid;
    var e := Entry(tile, 0);
    OnlyTile(e);
    PutDisjoint(r, e);
    PutCovers(r, e, tile);
    forall s
      ensures Covered(r[ToHereTile(tile) := e], s) <==> Covered(r, s) || s == tile
    {
      PutCovers(r, e, s);
    }
  }

  lemma OnlyTile(e: Entry)
    requires e.depth == 0
    ensures forall s :: Covers(e, s) <==> s == e.tile
  {
  }

  /** The ancestors in the range, each with depth 0. The loop ends because `minLevel` is not 0. */
  method AddParents(t: TileKey, minLevel: nat, maxLevel: nat) returns (r: Plan)
    requires InGrid(t) && 1 <= minLevel && 1 <= t.level
    ensures WellKeyed(r) && Disjoint(r) && AllAlone(r)
    ensures forall s :: Covered(r, s) <==> InRange(s, minLevel, maxLevel) && Under(t, s) && s != t
  {
    hide Covered, Disjoint, InGrid, WellKeyed, ParentsAbove, Under;
    r := map[];
    var tile := Parent(t);
    assert Up(t, 1) == tile;
    NoParents(t, t.level - 1, minLevel, maxLevel);
    while tile.level >= minLevel
      invariant tile.level < t.level && tile == Up(t, t.level - tile.level)
      invariant ParentsAbove(r, t, tile.level, minLevel, maxLevel)
    {
      NextParent(r, t, tile.level, minLevel, maxLevel);
      if tile.level <= maxLevel {
        r := r[ToHereTile(tile) := Entry(tile, 0)];
      }
      UpUp(t, t.level - tile.level, 1);
      assert Up(tile, 1) == Up(Parent(tile), 0) == Parent(tile);
      tile := Parent(tile);
    }
    AllParents(r, t, tile.level, minLevel, maxLevel);
  }

  lemma AllParents(r: Plan, t: TileKey, level: nat, minLevel: nat, maxLevel: nat)
    requires ParentsAbove(r, t, level, minLevel, maxLevel) && level < minLevel
    ensures WellKeyed(r) && Disjoint(r) && AllAlone(r)
    ensures forall s :: Covered(r, s) <==> InRange(s, minLevel, maxLevel) && Under(t, s) && s != t
  {
    hide Covered, Disjoint, WellKeyed;
  }

  lemma NoParents(t: TileKey, level: int, minLevel: nat, maxLevel: nat)
    requires level == t.level - 1
    ensures ParentsAbove(map[], t, level, minLevel, maxLevel)
  {
  }

  // The planner.

  ghost predicate Siblings(tiles: seq<TileKey>, level: nat) {
    Distinct(tiles) && forall i :: 0 <= i < |tiles| ==> InGrid(tiles[i]) && tiles[i].level == level
  }

  ghost predicate UnderSome(tiles: seq<TileKey>, n: nat, s: TileKey)
    requires n <= |tiles|
  {
    exists j :: 0 <= j < n && Under(s, tiles[j])
  }

  /** The entries of `r` are those of `ret` and full queries from the level down. */
  ghost predicate AddsFull(ret: Plan, r: Plan, level: nat, maxLevel: nat) {
    forall k :: k in r ==>
      (k in ret && r[k] == ret[k]) || (r[k].tile.level >= level && r[k].depth == FullDepth(r[k].tile, maxLevel))
  }

  lemma MergeFull(ret: Plan, r: Plan, child: Plan, level: nat, maxLevel: nat)
    requires AddsFull(ret, r, level, maxLevel) && AddsFull(map[], child, level, maxLevel)
    ensures AddsFull(ret, Merge(r, child), level, maxLevel)
  {
  }

  /** In a plan without ancestors all queries are full. */
  lemma ChildIsFull(p: Plan, t: TileKey, minLevel: nat, maxLevel: nat)
    requires FullQueries(p, t, maxLevel) && Exact(p, t, minLevel, maxLevel, false)
    requires t.level <= maxLevel || maxLevel < minLevel
    ensures AddsFull(map[], p, t.level, maxLevel)
  {
    forall k | k in p
      ensures p[k].tile.level >= t.level && p[k].depth == FullDepth(p[k].tile, maxLevel)
    {
      assert Covers(p[k], p[k].tile);
      assert Covered(p, p[k].tile);
    }
  }

  /** The plans of tiles on one level, merged into `ret`. */
  method AddChildren(ret: Plan, children: seq<TileKey>, minLevel: nat, maxLevel: nat, ghost level: nat)
    returns (r: Plan)
    requires 1 <= minLevel <= level && (level <= maxLevel || maxLevel < minLevel)
    requires Siblings(children, level)
    requires WellKeyed(ret) && Disjoint(ret)
    requires forall s :: Covered(ret, s) ==> !UnderSome(children, |children|, s)
    ensures WellKeyed(r) && Disjoint(r) && AddsFull(ret, r, level, maxLevel)
    ensures forall s :: Covered(r, s) <==>
              Covered(ret, s) || (InRange(s, minLevel, maxLevel) && UnderSome(children, |children|, s))
    decreases 0, if level <= maxLevel then maxLevel - level else 0, 2
  {
    hide Covered, WellKeyed, Disjoint, UnderSome, InGrid, Exact, FullQueries, AddsFull, Under;
    NoneUnder(children);
    NothingAdded(ret, level, maxLevel);
    r := ret;
    for i := 0 to |children|
      invariant WellKeyed(r) && Disjoint(r) && AddsFull(ret, r, level, maxLevel)
      invariant forall s :: Covered(r, s) <==>
                  Covered(ret, s) || (InRange(s, minLevel, maxLevel) && UnderSome(children, i, s))
    {
      var child := EffectiveTileKeys(children[i], minLevel, maxLevel, false);
      ChildIsFull(child, children[i], minLevel, maxLevel);
      MergeFull(ret, r, child, level, maxLevel);
      MergeChild(ret, r, child, children, i, minLevel, maxLevel);
      r := MergeInto(r, child);
    }
  }

  lemma NoneUnder(children: seq<TileKey>)
    ensures forall s :: !UnderSome(children, 0, s)
  {
  }

  lemma NothingAdded(ret: Plan, level: nat, maxLevel: nat)
    ensures AddsFull(ret, ret, level, maxLevel)
  {
  }

  lemma MergeChild(ret: Plan, r: Plan, child: Plan, children: seq<TileKey>, i: nat, minLevel: nat, maxLevel: nat)
    requires i < |children| && WellKeyed(r) && Disjoint(r) && WellKeyed(child) && Disjoint(child)
    requires Distinct(children) && forall j :: 0 <= j < |children| ==> children[j].level == children[i].level
    requires children[i].level <= maxLevel || maxLevel < minLevel
    requires Exact(child, children[i], minLevel, maxLevel, false)
    requires forall s :: Covered(ret, s) ==> !UnderSome(children, |children|, s)
    requires forall s :: Covered(r, s) <==>
               Covered(ret, s) || (InRange(s, minLevel, maxLevel) && UnderSome(children, i, s))
    ensures WellKeyed(Merge(r, child)) && Disjoint(Merge(r, child))
    ensures forall s :: Covered(Merge(r, child), s) <==>
              Covered(ret, s) || (InRange(s, minLevel, maxLevel) && UnderSome(children, i + 1, s))
  {
    hide Covered, WellKeyed, Disjoint, Up;
    forall s
      ensures !(Covered(r, s) && Covered(child, s))
      ensures UnderSome(children, i + 1, s) <==> UnderSome(children, i, s) || Under(s, children[i])
    {
      assert Under(s, children[i]) ==> UnderSome(children, |children|, s);
    }
    MergeDisjoint(r, child);
    forall s
      ensures WellKeyed(Merge(r, child))
      ensures Covered(Merge(r, child), s) <==> Covered(r, s) || Covered(child, s)
    {
      MergeCovers(r, child, s);
    }
    MergeCovers(r, child, ROOT);
  }

  /** The plan for one tile: exactly the wanted tiles, none twice, no query deeper than the backend takes. */
  method EffectiveTileKeys(t: TileKey, minLevel: nat, maxLevel: nat, addAncestors: bool) returns (r: Plan)
    requires InGrid(t) && 1 <= minLevel
    ensures WellKeyed(r) && Disjoint(r) && FullQueries(r, t, maxLevel)
    ensures Exact(r, t, minLevel, maxLevel, addAncestors)
    decreases if t.level < minLevel then 1 else 0, if t.level <= maxLevel then maxLevel - t.level else 0, 1
  {
    hide Covered, Covers, WellKeyed, Disjoint, Exact, FullQueries, AddsFull, AllAlone, Ancestors, Siblings, UnderSome,
         InGrid, Under;
    if t.level > maxLevel {
      r := AddParents(t, minLevel, maxLevel);
      ParentsAreFull(r, t, minLevel, maxLevel);
    } else if t.level < minLevel {
      var children := GetChildAtLevel(t, minLevel);
      OnOneLevel(t, minLevel, children);
      EmptyPlan(t, minLevel, maxLevel);
      r := AddChildren(map[], children, minLevel, maxLevel, minLevel);
      ChildrenCoverAll(t, minLevel, children);
      FromChildren(r, t, children, minLevel, maxLevel, addAncestors);
    } else {
      r := map[];
      EmptyPlan(t, minLevel, maxLevel);
      if addAncestors {
        r := AddParents(t, minLevel, maxLevel);
        ParentsAreFull(r, t, minLevel, maxLevel);
      }
      ghost var parents := r;
      if maxLevel - t.level <= MAX_QUAD_TREE_INDEX_DEPTH {
        PutSelf(parents, Entry(t, maxLevel - t.level), t);
        r := r[ToHereTile(t) := Entry(t, maxLevel - t.level)];
        ShallowExact(parents, r, t, minLevel, maxLevel, addAncestors);
        OwnQuery(parents, r, t, maxLevel);
      } else {
        PutSelf(parents, Entry(t, MAX_QUAD_TREE_INDEX_DEPTH), t);
        r := r[ToHereTile(t) := Entry(t, MAX_QUAD_TREE_INDEX_DEPTH)];
        var below := t.level + MAX_QUAD_TREE_INDEX_DEPTH + 1;
        var children := GetChildAtLevel(t, below);
        OnOneLevel(t, below, children);
        ChildrenCoverAll(t, below, children);
        ghost var top := r;
        TopApart(parents, top, t, children);
        r := AddChildren(r, children, minLevel, maxLevel, below);
        DeepExact(parents, top, r, t, children, minLevel, maxLevel, addAncestors);
        OwnQuery(parents, top, t, maxLevel);
        BelowQueries(top, r, t, below, maxLevel);
      }
    }
  }

  lemma EmptyPlan(t: TileKey, minLevel: nat, maxLevel: nat)
    ensures WellKeyed(map[]) && Disjoint(map[]) && FullQueries(map[], t, maxLevel)
    ensures (forall s :: !Covered(map[], s)) && Ancestors(map[], t, minLevel, maxLevel, false)
  {
  }

  lemma FromChildren(r: Plan, t: TileKey, children: seq<TileKey>, minLevel: nat, maxLevel: nat, addAncestors: bool)
    requires t.level < minLevel && t.level <= maxLevel && AddsFull(map[], r, minLevel, maxLevel)
    requires forall s :: UnderSome(children, |children|, s) <==> Under(s, t) && s.level >= minLevel
    requires forall s :: Covered(r, s) <==>
               Covered(map[], s) || (InRange(s, minLevel, maxLevel) && UnderSome(children, |children|, s))
    ensures Exact(r, t, minLevel, maxLevel, addAncestors) && FullQueries(r, t, maxLevel)
  {
    EmptyPlan(t, minLevel, maxLevel);
    hide Covered, UnderSome;
  }

  /** The entries of the ancestors, each alone; past the range there is nothing else to ask for. */
  lemma ParentsAreFull(r: Plan, t: TileKey, minLevel: nat, maxLevel: nat)
    requires AllAlone(r)
    requires forall s :: Covered(r, s) <==> InRange(s, minLevel, maxLevel) && Under(t, s) && s != t
    ensures FullQueries(r, t, maxLevel) && Ancestors(r, t, minLevel, maxLevel, true)
    ensures forall s :: Covered(r, s) ==> s.level < t.level
    ensures t.level > maxLevel ==> forall add :: Exact(r, t, minLevel, maxLevel, add)
  {
    forall k | k in r
      ensures ProperAncestor(r[k].tile, t)
    {
      assert Covers(r[k], r[k].tile);
      assert Covered(r, r[k].tile);
    }
    hide Covered;
  }

  lemma OwnQuery(parents: Plan, r: Plan, t: TileKey, maxLevel: nat)
    requires FullQueries(parents, t, maxLevel) && t.level <= maxLevel
    requires r == parents[ToHereTile(t) := Entry(t, FullDepth(t, maxLevel))]
    ensures FullQueries(r, t, maxLevel)
  {
    hide ToHereTile, Up;
  }

  lemma BelowQueries(top: Plan, r: Plan, t: TileKey, level: nat, maxLevel: nat)
    requires FullQueries(top, t, maxLevel) && AddsFull(top, r, level, maxLevel) && t.level < level
    ensures FullQueries(r, t, maxLevel)
  {
    hide Up;
  }

  /** A tile of the range that reaches at most 4 levels down is asked for in one query, if without its ancestors. */
  lemma SingleQuery(p: Plan, t: TileKey, minLevel: nat, maxLevel: nat)
    requires WellKeyed(p) && Disjoint(p) && FullQueries(p, t, maxLevel)
    requires Exact(p, t, minLevel, maxLevel, false) && minLevel <= t.level <= maxLevel <= t.level + 4
    ensures p == map[ToHereTile(t) := Entry(t, maxLevel - t.level)]
  {
    assert Covered(p, t);
    var l :| l in p && Covers(p[l], t);
    forall k | k in p
      ensures Under(p[k].tile, t) && p[k].depth == FullDepth(p[k].tile, maxLevel)
    {
      assert Covers(p[k], p[k].tile);
      assert Covered(p, p[k].tile);
    }
    assert p[l].tile == t;
    forall k | k in p
      ensures k == l
    {
      assert Covers(p[l], p[k].tile) && Covers(p[k], p[k].tile);
    }
    assert p.Keys == {l};
  }

  /** The entries of the tile's ancestors, as far as they are asked for. */
  ghost predicate Ancestors(p: Plan, t: TileKey, minLevel: nat, maxLevel: nat, addAncestors: bool) {
    forall s :: Covered(p, s) <==> addAncestors && InRange(s, minLevel, maxLevel) && Under(t, s) && s != t
  }

  lemma ShallowExact(parents: Plan, r: Plan, t: TileKey, minLevel: nat, maxLevel: nat, addAncestors: bool)
    requires minLevel <= t.level <= maxLevel && Ancestors(parents, t, minLevel, maxLevel, addAncestors)
    requires forall s :: Covered(r, s) <==> Covered(parents, s) || Covers(Entry(t, maxLevel - t.level), s)
    ensures Exact(r, t, minLevel, maxLevel, addAncestors)
  {
    hide Covered;
  }

  ghost predicate BelowTop(t: TileKey, children: seq<TileKey>) {
    forall s :: UnderSome(children, |children|, s) <==>
                Under(s, t) && s.level > t.level + MAX_QUAD_TREE_INDEX_DEPTH
  }

  lemma TopApart(parents: Plan, top: Plan, t: TileKey, children: seq<TileKey>)
    requires BelowTop(t, children) && forall s :: Covered(parents, s) ==> s.level < t.level
    requires forall s :: Covered(top, s) <==> Covered(parents, s) || Covers(Entry(t, MAX_QUAD_TREE_INDEX_DEPTH), s)
    ensures forall s :: Covered(top, s) ==> !UnderSome(children, |children|, s)
  {
    hide Covered, UnderSome;
  }

  lemma DeepExact(parents: Plan, top: Plan, r: Plan, t: TileKey, children: seq<TileKey>,
                  minLevel: nat, maxLevel: nat, addAncestors: bool)
    requires minLevel <= t.level && t.level + MAX_QUAD_TREE_INDEX_DEPTH < maxLevel && BelowTop(t, children)
    requires Ancestors(parents, t, minLevel, maxLevel, addAncestors)
    requires forall s :: Covered(top, s) <==> Covered(parents, s) || Covers(Entry(t, MAX_QUAD_TREE_INDEX_DEPTH), s)
    requires forall s :: Covered(r, s) <==>
               Covered(top, s) || (InRange(s, minLevel, maxLevel) && UnderSome(children, |children|, s))
    ensures Exact(r, t, minLevel, maxLevel, addAncestors)
  {
    hide Covered, UnderSome;
  }

  lemma ChildrenCoverAll(t: TileKey, level: nat, children: seq<TileKey>)
    requires InGrid(t) && t.level < level
    requires forall c :: c in children <==> Under(c, t) && c.level == level
    ensures forall s :: UnderSome(children, |children|, s) <==> Under(s, t) && s.level >= level
  {
    forall s
      ensures UnderSome(children, |children|, s) <==> Under(s, t) && s.level >= level
    {
      ChildrenCover(t, level, children, s);
    }
  }

  lemma OnOneLevel(t: TileKey, level: nat, children: seq<TileKey>)
    requires InGrid(t) && t.level < level && Distinct(children)
    requires forall c :: c in children <==> Under(c, t) && c.level == level
    ensures Siblings(children, level)
  {
    forall i | 0 <= i < |children|
      ensures InGrid(children[i]) && children[i].level == level
    {
      assert children[i] in children;
      UpGrid(children[i], level - t.level);
    }
  }

  /** What lies at or below `level` under `t` lies under one of the descendants on that level. */
  lemma ChildrenCover(t: TileKey, level: nat, children: seq<TileKey>, s: TileKey)
    requires InGrid(t) && t.level < level
    requires forall c :: c in children <==> Under(c, t) && c.level == level
    ensures UnderSome(children, |children|, s) <==> Under(s, t) && s.level >= level
  {
    if UnderSome(children, |children|, s) {
      var j :| 0 <= j < |children| && Under(s, children[j]);
      assert children[j] in children;
      UnderTransitive(s, children[j], t);
    }
    if Under(s, t) && s.level >= level {
      var c := Up(s, s.level - level);
      AncestorsNest(s, t, c);
      assert c in children;
    }
  }

  /** Adding the tile's own entry to its ancestors' entries. */
  lemma PutSelf(parents: Plan, e: Entry, t: TileKey)
    requires WellKeyed(parents) && Disjoint(parents) && InGrid(t) && e.tile == t
    requires forall s :: Covered(parents, s) ==> s.level < t.level
    ensures var r := parents[ToHereTile(t) := e];
            WellKeyed(r) && Disjoint(r) && forall s :: Covered(r, s) <==> Covered(parents, s) || Covers(e, s)
  {
    PutDisjoint(parents, e);
    forall s
      ensures Covered(parents[ToHereTile(t) := e], s) <==> Covered(parents, s) || Covers(e, s)
    {
      PutCovers(parents, e, s);
    }
    PutCovers(parents, e, t);
  }

  // Several tiles.

  /** The promise of the public planner: the tiles of the range on the branch of some given tile. */
  ghost predicate Related(tiles: seq<TileKey>, n: nat, minLevel: nat, maxLevel: nat, s: TileKey)
    requires n <= |tiles|
  {
    InRange(s, minLevel, maxLevel) && exists i :: 0 <= i < n && (Under(s, tiles[i]) || Under(tiles[i], s))
  }

  lemma RelatedNext(tiles: seq<TileKey>, n: nat, minLevel: nat, maxLevel: nat, s: TileKey)
    requires n < |tiles|
    ensures Related(tiles, n + 1, minLevel, maxLevel, s) <==>
            Related(tiles, n, minLevel, maxLevel, s) || Wanted(tiles[n], minLevel, maxLevel, true, s)
  {
  }

  /** Rows, columns and names of the plan's tiles fit the original's 32-bit and 64-bit fields. */
  ghost predicate FitsWords(p: Plan) {
    forall k :: k in p ==>
      p[k].tile.row < 0x1_0000_0000 && p[k].tile.column < 0x1_0000_0000 &&
      QuadKey64(p[k].tile) < 0x1_0000_0000_0000_0000
  }

  /** A plan does not ask for tiles past its range, so for maximum levels up to 31 nothing in it overflows. */
  lemma PlanFitsWords(p: Plan, maxLevel: nat)
    requires WellKeyed(p) && maxLevel <= 31 && forall s :: Covered(p, s) ==> s.level <= maxLevel
    ensures FitsWords(p)
  {
    forall k | k in p
      ensures p[k].tile.row < 0x1_0000_0000 && p[k].tile.column < 0x1_0000_0000 &&
              QuadKey64(p[k].tile) < 0x1_0000_0000_0000_0000
    {
      assert Covers(p[k], p[k].tile);
      assert Covered(p, p[k].tile);
      FitsMachineWords(p[k].tile);
    }
  }

  /** For every list of tiles: the plan asks for exactly the related tiles, and is empty only if it must be. */
  method EffectiveTileKeysOf(tiles: seq<TileKey>, minLevel: nat, maxLevel: nat) returns (r: Plan)
    requires 1 <= minLevel && forall i :: 0 <= i < |tiles| ==> InGrid(tiles[i])
    ensures WellKeyed(r) && (maxLevel <= 31 ==> FitsWords(r))
    ensures forall k :: k in r ==> r[k].depth == 0 || r[k].depth == FullDepth(r[k].tile, maxLevel)
    ensures forall s :: Covered(r, s) <==> Related(tiles, |tiles|, minLevel, maxLevel, s)
    ensures r == map[] <==> tiles == [] || maxLevel < minLevel
  {
    r := map[];
    for i := 0 to |tiles|
      invariant WellKeyed(r)
      invariant forall k :: k in r ==> r[k].depth == 0 || r[k].depth == FullDepth(r[k].tile, maxLevel)
      invariant forall s :: Covered(r, s) <==> Related(tiles, i, minLevel, maxLevel, s)
    {
      var childTiles := EffectiveTileKeys(tiles[i], minLevel, maxLevel, true);
      MergeRelated(r, childTiles, tiles, i, minLevel, maxLevel);
      r := MergeInto(r, childTiles);
    }
    ListPlanEmpty(r, tiles, minLevel, maxLevel);
    if maxLevel <= 31 {
      PlanFitsWords(r, maxLevel);
    }
  }

  lemma MergeRelated(r: Plan, childTiles: Plan, tiles: seq<TileKey>, i: nat, minLevel: nat, maxLevel: nat)
    requires i < |tiles| && WellKeyed(r) && WellKeyed(childTiles)
    requires forall s :: Covered(r, s) <==> Related(tiles, i, minLevel, maxLevel, s)
    requires Exact(childTiles, tiles[i], minLevel, maxLevel, true)
    ensures WellKeyed(Merge(r, childTiles))
    ensures forall s :: Covered(Merge(r, childTiles), s) <==> Related(tiles, i + 1, minLevel, maxLevel, s)
  {
    MergeCovers(r, childTiles, ROOT);
    forall s
      ensures Covered(Merge(r, childTiles), s) <==> Related(tiles, i + 1, minLevel, maxLevel, s)
    {
      MergeCovers(r, childTiles, s);
      RelatedNext(tiles, i, minLevel, maxLevel, s);
    }
  }

  lemma ListPlanEmpty(r: Plan, tiles: seq<TileKey>, minLevel: nat, maxLevel: nat)
    requires forall s :: Covered(r, s) <==> Related(tiles, |tiles|, minLevel, maxLevel, s)
    ensures r == map[] <==> tiles == [] || maxLevel < minLevel
  {
    if tiles != [] && minLevel <= maxLevel {
      var s := SomeWanted(tiles[0], minLevel, maxLevel, true);
      assert Related(tiles, |tiles|, minLevel, maxLevel, s);
    } else if r != map[] {
      EntryCovered(r);
    }
  }

  lemma EntryCovered(p: Plan)
    requires p != map[]
    ensures exists s :: Covered(p, s)
  {
    var k :| k in p;
    assert Covers(p[k], p[k].tile);
    assert Covered(p, p[k].tile);
  }

  /** The first descendant `n` levels down. */
  ghost function Down(t: TileKey, n: nat): (s: TileKey)
    ensures s.level == t.level + n && Under(s, t)
    decreases n
  {
    if n == 0 then t else
    var s := Down(GetChild(t, 0), n - 1);
    ParentOfChild(t, 0);
    assert Up(GetChild(t, 0), 1) == Up(t, 0);
    UnderTransitive(s, GetChild(t, 0), t);
    s
  }

  ghost function SomeWanted(t: TileKey, minLevel: nat, maxLevel: nat, addAncestors: bool): (s: TileKey)
    requires minLevel <= maxLevel
    ensures Wanted(t, minLevel, maxLevel, addAncestors, s)
  {
    if t.level > maxLevel then Up(t, t.level - maxLevel)
    else if t.level < minLevel then Down(t, minLevel - t.level)
    else t
  }

  /** A plan that asks for exactly the wanted tiles is empty exactly when the range is. */
  lemma EmptyExactlyOnEmptyRange(p: Plan, t: TileKey, minLevel: nat, maxLevel: nat, addAncestors: bool)
    requires Exact(p, t, minLevel, maxLevel, addAncestors)
    ensures p == map[] <==> maxLevel < minLevel
  {
    if minLevel <= maxLevel {
      var s := SomeWanted(t, minLevel, maxLevel, addAncestors);
      assert Covered(p, s);
    } else if p != map[] {
      EntryCovered(p);
    }
  }
}

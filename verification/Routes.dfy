/** The way `map` takes from a root to the entry it writes, on tables alone. */
module Routes {
  import opened PageEntries
  import opened Addresses
  import opened PageTables
  import opened PhysicalMemory

  /** What stands in the way of `map` between the root and its target level. */
  datatype Obstacle =
    | Clear  // tables, then perhaps an invalid entry
    | Leaf   // a larger page
    | Dead   // a valid entry that is neither a leaf nor a branch

  function ObstacleOf(m: Tables, table: nat, level: nat, va: Word, target: Level): Obstacle
    requires level <= 5
    decreases level
  {
    if level <= target || table !in m then Clear else
      var e := m[table][Index(va, level)];
      if e.IsBranch() then ObstacleOf(m, e.ppn, level - 1, va, target)
      else if e.IsLeaf() then Leaf
      else if e.valid then Dead
      else Clear
  }

  lemma ObstacleStep(m: Tables, table: nat, level: Level, va: Word, target: Level)
    requires level > target && table in m
    ensures var e := m[table][Index(va, level)];
      ObstacleOf(m, table, level, va, target) ==
        if e.IsBranch() then ObstacleOf(m, e.ppn, level - 1, va, target)
        else if e.IsLeaf() then Leaf else if e.valid then Dead else Clear
  {
  }

  /** The table whose entry `map` writes, whether a leaf stops it before, and how many tables it has to make. */
  datatype Route = Route(path: Path, blocked: bool, made: nat)

  /** The indices from `level` down to the level above `target`. */
  function Steps(va: Word, level: nat, target: Level): (p: Path)
    requires level <= 5
    ensures |p| == if level > target then level - target else 0
    decreases level
  {
    if level <= target then [] else [Index(va, level)] + Steps(va, level - 1, target)
  }

  /** At a valid entry that is neither a leaf nor a branch, `map` goes a level down and stays in the same table. */
  function RouteOf(m: Tables, table: nat, path: Path, level: nat, va: Word, target: Level): (r: Route)
    requires level <= 5
    ensures path <= r.path && |r.path| <= |path| + if level > target then level - target else 0
    ensures r.blocked ==> r.made == 0
    decreases level
  {
    if level <= target || table !in m then Route(path, false, 0) else
      var e := m[table][Index(va, level)];
      if e.IsBranch() then RouteOf(m, e.ppn, path + [Index(va, level)], level - 1, va, target)
      else if e.IsLeaf() then Route(path, true, 0)
      else if e.valid then RouteOf(m, table, path, level - 1, va, target)
      else Route(path + Steps(va, level, target), false, level - target)
  }

  /** The same route after `n` tables more. */
  function Further(r: Route, n: nat): Route { r.(made := r.made + n) }

  /** One step of a route. */
  lemma RouteStep(m: Tables, table: nat, path: Path, level: Level, va: Word, target: Level)
    requires level > target && table in m
    ensures var e := m[table][Index(va, level)];
      RouteOf(m, table, path, level, va, target) ==
        if e.IsBranch() then RouteOf(m, e.ppn, path + [Index(va, level)], level - 1, va, target)
        else if e.IsLeaf() then Route(path, true, 0)
        else if e.valid then RouteOf(m, table, path, level - 1, va, target)
        else Route(path + Steps(va, level, target), false, level - target)
  {
  }

  lemma RouteEnd(m: Tables, table: nat, path: Path, va: Word, target: Level)
    ensures RouteOf(m, table, path, target, va, target) == Route(path, false, 0)
  {
  }

  /** Under a cleared table the route goes straight down. */
  lemma RouteCleared(m: Frames, table: nat, path: Path, level: nat, va: Word, target: Level)
    requires target <= level <= 5 && table in m && m[table] == seq(512, j => 0)
    ensures RouteOf(View(m), table, path, level, va, target) ==
      Route(path + Steps(va, level, target), false, level - target)
  {
    hide View;
    DecodeZero();
    if level > target { assert View(m)[table][Index(va, level)] == ZERO_PTE; }
  }

  lemma StepsDown(path: Path, va: Word, level: Level, target: Level)
    requires level > target
    ensures path + Steps(va, level, target) == path + [Index(va, level)] + Steps(va, level - 1, target)
  {
  }

  lemma {:induction false} StepsOfWalk(root: nat, va: Word, top: Level, level: Level, target: Level)
    requires target <= level <= top
    ensures WalkPath(root, va, top, top - level) + Steps(va, level, target) == WalkPath(root, va, top, top - target)
    decreases level
  {
    hide Index;
    if level > target {
      WalkPathStep(root, va, top, top - level);
      StepsDown(WalkPath(root, va, top, top - level), va, level, target);
      StepsOfWalk(root, va, top, level - 1, target);
    }
  }

  /** With a clear way the route is that of the walk. */
  lemma {:induction false} RouteClear(m: Tables, table: nat, root: nat, va: Word, top: Level, level: Level,
                                      target: Level)
    requires target <= level <= top && ObstacleOf(m, table, level, va, target) == Clear && NoFault(m, table, level, va)
    ensures var r := RouteOf(m, table, WalkPath(root, va, top, top - level), level, va, target);
      !r.blocked && r.path == WalkPath(root, va, top, top - target)
    decreases level
  {
    hide Index, WalkPath, Steps;
    if level > target {
      WalkPathStep(root, va, top, top - level);
      StepsOfWalk(root, va, top, level, target);
      var e := m[table][Index(va, level)];
      if e.IsBranch() { RouteClear(m, e.ppn, root, va, top, level - 1, target); }
    }
  }

  /** The walk from here stays in memory. */
  ghost predicate NoFault(m: Tables, table: nat, level: nat, va: Word)
    requires level <= 5
  {
    !Walk(m, table, level, va).Fault?
  }

  /** A larger page on the way stops the route; with a dead entry on the way it ends in a table higher up. */
  lemma {:induction false} RouteObstructed(m: Tables, table: nat, path: Path, level: nat, va: Word, target: Level)
    requires target <= level <= 5
    ensures var o, r := ObstacleOf(m, table, level, va, target), RouteOf(m, table, path, level, va, target);
      && (o == Leaf ==> r.blocked)
      && (o == Dead ==> |r.path| < |path| + level - target)
      && (o == Clear ==> !r.blocked)
    decreases level
  {
    hide Index, Steps;
    if level > target && table in m {
      var e := m[table][Index(va, level)];
      if e.IsBranch() { RouteObstructed(m, e.ppn, path + [Index(va, level)], level - 1, va, target); }
    }
  }

  /** Nothing is found beyond a dead entry. */
  lemma {:induction false} DeadMissing(m: Tables, table: nat, level: nat, va: Word, target: Level)
    requires level <= 5 && ObstacleOf(m, table, level, va, target) == Dead
    ensures Walk(m, table, level, va) == Missing
    decreases level
  {
    hide Index;
    var e := m[table][Index(va, level)];
    if e.IsBranch() { DeadMissing(m, e.ppn, level - 1, va, target); }
  }

  /** With no dead entries, what stands in the way of `map` shows in what a walk finds. */
  lemma {:induction false} ObstacleFromFind(m: Tables, top: Level, roots: set<nat>, tabs: map<Path, nat>,
                                            root: nat, va: Word, target: Level, depth: nat)
    requires Forest(m, top, roots, tabs) && Alive(m, tabs) && depth < top && target <= top
    requires WalkPath(root, va, top, depth) in tabs
    ensures var t := tabs[WalkPath(root, va, top, depth)];
      var f := Walk(m, t, top - depth, va);
      ObstacleOf(m, t, top - depth, va, target) == if f.Hit? && f.level > target then Leaf else Clear
    decreases top - depth
  {
    hide Index, Forest;
    var q := WalkPath(root, va, top, depth);
    var j := Index(va, top - depth);
    assert WalkPath(root, va, top, depth + 1) == q + [j];
    assert AliveTable(m[tabs[q]]);
    if m[tabs[q]][j].IsBranch() {
      Child(m, top, roots, tabs, q, j);
      ObstacleFromFind(m, top, roots, tabs, root, va, target, depth + 1);
    }
  }

  /** A table of the walk's path, at or above the target: the way to it is clear and the route leads to it. */
  lemma {:induction false} RouteBelow(m: Tables, top: Level, roots: set<nat>, tabs: map<Path, nat>,
                                      root: nat, va: Word, target: Level, depth: nat)
    requires Forest(m, top, roots, tabs) && target <= top - depth && depth < top
    requires WalkPath(root, va, top, depth) in tabs
    ensures var p := WalkPath(root, va, top, depth);
      && root in roots
      && ObstacleOf(m, root, top, va, target) == ObstacleOf(m, tabs[p], top - depth, va, target)
      && RouteOf(m, root, [root], top, va, target) == RouteOf(m, tabs[p], p, top - depth, va, target)
    decreases depth
  {
    hide Index, Steps;
    var p := WalkPath(root, va, top, depth);
    if depth > 0 {
      WalkPathStep(root, va, top, depth - 1);
      var q := WalkPath(root, va, top, depth - 1);
      assert Parent(p) == q && Last(p) == Index(va, top - depth + 1) && Linked(m, tabs, p);
      RouteBelow(m, top, roots, tabs, root, va, target, depth - 1);
    }
  }

  /** A walk that is stopped above the target finds a larger page there. */
  lemma {:induction false} LeafFound(m: Tables, table: nat, level: nat, va: Word, target: Level)
    requires level <= 5
    ensures var f := Walk(m, table, level, va);
      ObstacleOf(m, table, level, va, target) == Leaf <==> f.Hit? && f.level > target
    decreases level
  {
    hide Index;
    if level > target && table in m {
      var e := m[table][Index(va, level)];
      if e.IsBranch() && !e.IsLeaf() { LeafFound(m, e.ppn, level - 1, va, target); }
    }
  }
}

/** Page tables as values: what a walk finds, and the forest of tables under a set of roots. */
module PageTables {
  import opened PageEntries
  import opened Addresses

  type Table = t: seq<Pte> | |t| == 512 witness seq(512, i => ZERO_PTE)
  type Tables = map<nat, Table>

  /** A table is named by its root followed by the entry indices that lead to it. */
  type Path = seq<nat>

  /** What a walk finds; `Fault` is a walk that leaves memory or falls below level 1. */
  datatype Found = Hit(entry: Pte, level: Level) | Missing | Fault

  /** The walk of `virt_to_phys` and `unmap`, from `table` at `level` downwards. */
  function Walk(m: Tables, table: nat, level: nat, va: Word): (f: Found)
    requires level <= 5
    ensures f.Hit? ==> f.level <= level && f.entry.IsLeaf()
    decreases level
  {
    if level == 0 || table !in m then Fault else
      var e := m[table][Index(va, level)];
      if e.IsLeaf() then Hit(e, level)
      else if e.IsBranch() then Walk(m, e.ppn, level - 1, va)
      else Missing
  }

  /** One step of a walk. */
  lemma WalkStep(m: Tables, table: nat, level: Level, va: Word)
    requires table in m
    ensures var e := m[table][Index(va, level)];
      Walk(m, table, level, va) ==
        if e.IsLeaf() then Hit(e, level) else if e.IsBranch() then Walk(m, e.ppn, level - 1, va) else Missing
  {
  }

  function Parent(p: Path): Path
    requires p != []
  {
    p[..|p| - 1]
  }

  function Last(p: Path): nat
    requires p != []
  {
    p[|p| - 1]
  }

  /** The path of the table a walk for `va` reads after `depth` steps. */
  function WalkPath(root: nat, va: Word, top: Level, depth: nat): (p: Path)
    requires depth <= top
    ensures |p| == depth + 1 && p[0] == root
    decreases depth
  {
    if depth == 0 then [root] else WalkPath(root, va, top, depth - 1) + [Index(va, top - depth + 1)]
  }

  lemma WalkPathStep(root: nat, va: Word, top: Level, depth: nat)
    requires depth < top
    ensures WalkPath(root, va, top, depth + 1) == WalkPath(root, va, top, depth) + [Index(va, top - depth)]
  {
  }

  /** The entry of the parent table that names the table at `p`. */
  ghost predicate Linked(m: Tables, tabs: map<Path, nat>, p: Path)
    requires p in tabs && |p| > 1
  {
    && Parent(p) in tabs
    && tabs[Parent(p)] in m
    && Last(p) < 512
    && m[tabs[Parent(p)]][Last(p)].IsBranch()
    && m[tabs[Parent(p)]][Last(p)].ppn == tabs[p]
  }

  /** Every branch entry of the table at `p` names a table of the forest; every invalid entry is clean. */
  ghost predicate GoodTable(m: Tables, tabs: map<Path, nat>, p: Path)
    requires p in tabs && tabs[p] in m
  {
    forall i {:trigger GoodEntry(m[tabs[p]][i], tabs, p + [i])} | 0 <= i < 512 ::
      GoodEntry(m[tabs[p]][i], tabs, p + [i])
  }

  ghost predicate GoodEntry(e: Pte, tabs: map<Path, nat>, child: Path) {
    e.Clean() && (e.IsBranch() ==> child in tabs)
  }

  /**
   * `tabs` lists exactly the tables reachable from `roots`. Every table has one parent entry and one
   * path: the tables form trees, no two trees share a table, and no level 1 table has a branch.
   */
  ghost predicate Forest(m: Tables, top: Level, roots: set<nat>, tabs: map<Path, nat>) {
    && (forall r | r in roots :: [r] in tabs)
    && (forall p | p in tabs :: 1 <= |p| <= top && tabs[p] in m)
    && (forall p | p in tabs && |p| == 1 :: tabs[p] == p[0] && p[0] in roots)
    && (forall p {:trigger Linked(m, tabs, p)} | p in tabs && |p| > 1 :: Linked(m, tabs, p))
    && (forall p {:trigger GoodTable(m, tabs, p)} | p in tabs :: GoodTable(m, tabs, p))
    && (forall p, q | p in tabs && q in tabs && tabs[p] == tabs[q] :: p == q)
  }

  /** A walk that has come down to a table of the forest goes on from there. */
  lemma {:induction false} Descend(m: Tables, top: Level, roots: set<nat>, tabs: map<Path, nat>, root: nat, va: Word,
                                   depth: nat)
    requires Forest(m, top, roots, tabs) && depth < top
    requires WalkPath(root, va, top, depth) in tabs
    ensures root in roots
    ensures Walk(m, root, top, va) == Walk(m, tabs[WalkPath(root, va, top, depth)], top - depth, va)
    ensures forall d | 0 <= d <= depth :: WalkPath(root, va, top, d) in tabs
    decreases depth
  {
    hide Index, GoodTable;
    if depth > 0 {
      var p := WalkPath(root, va, top, depth);
      assert Linked(m, tabs, p);
      assert Parent(p) == WalkPath(root, va, top, depth - 1);
      Descend(m, top, roots, tabs, root, va, depth - 1);
    }
  }

  lemma RootTable(m: Tables, top: Level, roots: set<nat>, tabs: map<Path, nat>, root: nat, va: Word)
    requires Forest(m, top, roots, tabs) && root in roots
    ensures WalkPath(root, va, top, 0) == [root] && [root] in tabs && tabs[[root]] == root && root in m
  {
  }

  /** A branch entry leads to the forest's table at the longer path. */
  lemma Child(m: Tables, top: Level, roots: set<nat>, tabs: map<Path, nat>, p: Path, i: nat)
    requires Forest(m, top, roots, tabs) && p in tabs && i < 512 && m[tabs[p]][i].IsBranch()
    ensures p + [i] in tabs && |p| < top && tabs[p + [i]] == m[tabs[p]][i].ppn && tabs[p + [i]] in m
  {
    assert GoodTable(m, tabs, p) && GoodEntry(m[tabs[p]][i], tabs, p + [i]);
    assert Parent(p + [i]) == p && Linked(m, tabs, p + [i]);
  }

  /** A walk in the forest stays in memory and never falls below level 1. */
  lemma {:induction false} NeverFaults(m: Tables, top: Level, roots: set<nat>, tabs: map<Path, nat>, root: nat,
                                       va: Word, depth: nat)
    requires Forest(m, top, roots, tabs) && depth < top
    requires WalkPath(root, va, top, depth) in tabs
    ensures !Walk(m, tabs[WalkPath(root, va, top, depth)], top - depth, va).Fault?
    decreases top - depth
  {
    hide Index;
    var p := WalkPath(root, va, top, depth);
    var i := Index(va, top - depth);
    assert WalkPath(root, va, top, depth + 1) == p + [i];
    if m[tabs[p]][i].IsBranch() {
      Child(m, top, roots, tabs, p, i);
      NeverFaults(m, top, roots, tabs, root, va, depth + 1);
    }
  }

  lemma {:induction false} PrefixClosed(m: Tables, top: Level, roots: set<nat>, tabs: map<Path, nat>, q: Path, d: nat)
    requires Forest(m, top, roots, tabs) && q in tabs && 1 <= d <= |q|
    ensures q[..d] in tabs
    decreases |q|
  {
    if d < |q| {
      assert Linked(m, tabs, q);
      PrefixClosed(m, top, roots, tabs, Parent(q), d);
      assert Parent(q)[..d] == q[..d];
    } else {
      assert q[..d] == q;
    }
  }

  /** The walk for `va` from `root` passes the slot of `table` at `child`. */
  ghost predicate Passes(root: nat, va: Word, top: Level, child: Path) {
    1 < |child| <= top + 1 && WalkPath(root, va, top, |child| - 1) == child
  }

  /** Changing one entry of the forest leaves every walk that does not pass it as it was. */
  lemma {:induction false} WalkAvoids(m: Tables, m': Tables, top: Level, roots: set<nat>, tabs: map<Path, nat>,
                                      p: Path, i: nat, root: nat, va: Word, depth: nat)
    requires Forest(m, top, roots, tabs)
    requires p in tabs && i < 512
    requires forall f | f in m && f in tabs.Values :: f in m' && (f != tabs[p] ==> m'[f] == m[f])
    requires forall j | 0 <= j < 512 && j != i :: m'[tabs[p]][j] == m[tabs[p]][j]
    requires !Passes(root, va, top, p + [i])
    requires depth < top && WalkPath(root, va, top, depth) in tabs
    ensures var t := tabs[WalkPath(root, va, top, depth)]; Walk(m', t, top - depth, va) == Walk(m, t, top - depth, va)
    decreases top - depth
  {
    hide Index, GoodTable, Linked;
    var q := WalkPath(root, va, top, depth);
    var t := tabs[q];
    assert t in tabs.Values;
    var j := Index(va, top - depth);
    assert WalkPath(root, va, top, depth + 1) == q + [j];
    assert q == p ==> j != i;
    assert m'[t][j] == m[t][j];
    if m[t][j].IsBranch() {
      Child(m, top, roots, tabs, q, j);
      WalkAvoids(m, m', top, roots, tabs, p, i, root, va, depth + 1);
    }
  }

  /** The forest, and every walk in it, depends on the forest's own tables only. */
  lemma ForestFrame(m: Tables, m': Tables, top: Level, roots: set<nat>, tabs: map<Path, nat>)
    requires Forest(m, top, roots, tabs)
    requires forall p | p in tabs :: tabs[p] in m' && m'[tabs[p]] == m[tabs[p]]
    ensures Forest(m', top, roots, tabs)
  {
    forall p | p in tabs
      ensures GoodTable(m', tabs, p)
    {
      assert GoodTable(m, tabs, p);
      forall i | 0 <= i < 512
        ensures GoodEntry(m'[tabs[p]][i], tabs, p + [i])
      {
        assert GoodEntry(m[tabs[p]][i], tabs, p + [i]);
      }
    }
    forall p | p in tabs && |p| > 1
      ensures Linked(m', tabs, p)
    {
      assert Linked(m, tabs, p);
    }
  }

  lemma {:induction false} WalkFrame(m: Tables, m': Tables, top: Level, roots: set<nat>, tabs: map<Path, nat>,
                                     root: nat, va: Word, depth: nat)
    requires Forest(m, top, roots, tabs)
    requires forall p | p in tabs :: tabs[p] in m' && m'[tabs[p]] == m[tabs[p]]
    requires depth < top && WalkPath(root, va, top, depth) in tabs
    ensures var t := tabs[WalkPath(root, va, top, depth)]; Walk(m', t, top - depth, va) == Walk(m, t, top - depth, va)
    decreases top - depth
  {
    hide Index, GoodTable, Linked;
    var q := WalkPath(root, va, top, depth);
    var j := Index(va, top - depth);
    assert WalkPath(root, va, top, depth + 1) == q + [j];
    if m[tabs[q]][j].IsBranch() {
      Child(m, top, roots, tabs, q, j);
      WalkFrame(m, m', top, roots, tabs, root, va, depth + 1);
    }
  }

  /** The tables that are still reachable when the entry that leads to `child` is overwritten. */
  ghost function Prune(tabs: map<Path, nat>, child: Path): map<Path, nat> {
    map q | q in tabs && !(child <= q) :: tabs[q]
  }

  /** Overwriting an entry of the table at `p` with a leaf, or clearing it. */
  lemma WriteEnd(m: Tables, m': Tables, top: Level, roots: set<nat>, tabs: map<Path, nat>, p: Path, i: nat, e: Pte)
    requires Forest(m, top, roots, tabs)
    requires p in tabs && i < 512 && !e.IsBranch() && e.Clean()
    requires m' == m[tabs[p] := m[tabs[p]][i := e]]
    ensures Forest(m', top, roots, Prune(tabs, p + [i]))
  {
    var rest := Prune(tabs, p + [i]);
    forall q | q in rest
      ensures GoodTable(m', rest, q)
    {
      assert GoodTable(m, tabs, q);
      forall j | 0 <= j < 512
        ensures GoodEntry(m'[rest[q]][j], rest, q + [j])
      {
        assert GoodEntry(m[tabs[q]][j], tabs, q + [j]);
        if q == p && j == i {
        } else {
          assert m'[rest[q]][j] == m[tabs[q]][j];
          NoPrefix(p, i, q, j);
        }
      }
    }
    forall q | q in rest && |q| > 1
      ensures Linked(m', rest, q)
    {
      assert Linked(m, tabs, q);
      assert Parent(q) + [Last(q)] == q;
      assert p + [i] <= Parent(q) ==> p + [i] <= q;
      assert Parent(q) in rest;
      assert Parent(q) != p || Last(q) != i;
    }
    forall r | r in roots
      ensures [r] in rest
    {
      assert [r] in tabs;
    }
  }

  /** No table hangs under an entry that is not a branch. */
  lemma PruneNothing(m: Tables, top: Level, roots: set<nat>, tabs: map<Path, nat>, p: Path, i: nat)
    requires Forest(m, top, roots, tabs) && p in tabs && i < 512 && !m[tabs[p]][i].IsBranch()
    ensures Prune(tabs, p + [i]) == tabs
  {
    assert Parent(p + [i]) == p && Last(p + [i]) == i;
    assert p + [i] in tabs ==> Linked(m, tabs, p + [i]);
    forall q | q in tabs
      ensures !(p + [i] <= q)
    {
      if |p| < |q| {
        PrefixClosed(m, top, roots, tabs, q, |p| + 1);
        assert q[..|p| + 1] != p + [i];
      }
    }
  }

  lemma NoPrefix(p: Path, i: nat, q: Path, j: nat)
    requires !(p + [i] <= q) && (q != p || j != i)
    ensures !(p + [i] <= q + [j])
  {
    if |p| + 1 == |q| + 1 {
      assert (q + [j])[..|p|] == q;
      assert (p + [i])[..|p|] == p && (p + [i])[|p|] == i && (q + [j])[|p|] == j;
    } else if |p| + 1 <= |q| {
      assert (q + [j])[..|p| + 1] == q[..|p| + 1];
    }
  }

  /** Pointing an unused entry of the table at `p` to a fresh, empty table. */
  lemma WriteBranch(m: Tables, m': Tables, top: Level, roots: set<nat>, tabs: map<Path, nat>, p: Path, i: nat, e: Pte,
                    f: nat)
    requires Forest(m, top, roots, tabs)
    requires p in tabs && i < 512 && |p| < top && !m[tabs[p]][i].IsBranch()
    requires e.IsBranch() && e.ppn == f && f in m && f !in tabs.Values
    requires forall j | 0 <= j < 512 :: m[f][j] == ZERO_PTE
    requires m' == m[tabs[p] := m[tabs[p]][i := e]]
    ensures p + [i] !in tabs && Forest(m', top, roots, tabs[p + [i] := f])
  {
    var more := tabs[p + [i] := f];
    assert Parent(p + [i]) == p && Last(p + [i]) == i;
    assert p + [i] in tabs ==> Linked(m, tabs, p + [i]);
    assert tabs[p] in tabs.Values;
    forall q | q in more
      ensures more[q] in m' && GoodTable(m', more, q)
    {
      if q in tabs {
        assert GoodTable(m, tabs, q);
        assert tabs[q] in tabs.Values;
      }
      forall j | 0 <= j < 512
        ensures GoodEntry(m'[more[q]][j], more, q + [j])
      {
        if q in tabs && q != p + [i] {
          assert GoodEntry(m[tabs[q]][j], tabs, q + [j]);
        }
      }
    }
    forall q | q in more && |q| > 1
      ensures Linked(m', more, q)
    {
      if q == p + [i] {
        assert Parent(q) == p;
      } else {
        assert Linked(m, tabs, q);
        assert Parent(q) + [Last(q)] == q;
        assert tabs[Parent(q)] in tabs.Values;
      }
    }
    forall q, s | q in more && s in more && more[q] == more[s]
      ensures q == s
    {
      if q in tabs { assert tabs[q] in tabs.Values; }
      if s in tabs { assert tabs[s] in tabs.Values; }
    }
    assert |p + [i]| > 1 by { assert 1 <= |p|; }
  }

  lemma SameAppend(p: Path, i: nat, q: Path, j: nat)
    ensures p + [i] == q + [j] <==> p == q && i == j
  {
    assert Parent(p + [i]) == p && Last(p + [i]) == i;
    assert Parent(q + [j]) == q && Last(q + [j]) == j;
  }

  lemma PassedTable(root: nat, va: Word, top: Level, p: Path, i: nat)
    requires 1 <= |p| <= top && Passes(root, va, top, p + [i])
    ensures WalkPath(root, va, top, |p| - 1) == p && Index(va, top + 1 - |p|) == i
  {
    var d := |p| - 1;
    assert WalkPath(root, va, top, d + 1) == p + [i];
    SameAppend(WalkPath(root, va, top, d), Index(va, top - d), p, i);
  }

  /** What a walk finds at an entry it does not go beyond. */
  function Stop(e: Pte, level: Level): Found {
    if e.IsLeaf() then Hit(e, level) else Missing
  }

  /** Overwriting one entry with a leaf, or clearing it, changes exactly the walks that pass the entry. */
  lemma EndEffect(m: Tables, m': Tables, top: Level, roots: set<nat>, tabs: map<Path, nat>, p: Path, i: nat, e: Pte,
                  root: nat, va: Word)
    requires Forest(m, top, roots, tabs) && root in roots
    requires p in tabs && i < 512 && !e.IsBranch() && e.Clean()
    requires m' == m[tabs[p] := m[tabs[p]][i := e]]
    ensures Walk(m', root, top, va) ==
      if Passes(root, va, top, p + [i]) then Stop(e, top + 1 - |p|) else Walk(m, root, top, va)
  {
    var d := |p| - 1;
    if Passes(root, va, top, p + [i]) {
      PassedTable(root, va, top, p, i);
      WriteEnd(m, m', top, roots, tabs, p, i, e);
      assert !(p + [i] <= p);
      Descend(m', top, roots, Prune(tabs, p + [i]), root, va, d);
    } else {
      assert WalkPath(root, va, top, 0) == [root] && tabs[[root]] == root;
      WalkAvoids(m, m', top, roots, tabs, p, i, root, va, 0);
    }
  }

  lemma ForestTable(m: Tables, top: Level, roots: set<nat>, tabs: map<Path, nat>, p: Path)
    requires Forest(m, top, roots, tabs) && p in tabs
    ensures tabs[p] in m && 1 <= |p| <= top
  {
  }

  /** Hanging an empty table under an unused entry changes no walk. */
  lemma BranchEffect(m: Tables, m': Tables, top: Level, roots: set<nat>, tabs: map<Path, nat>, p: Path, i: nat, e: Pte,
                     f: nat, root: nat, va: Word)
    requires Forest(m, top, roots, tabs) && root in roots
    requires p in tabs && i < 512 && |p| < top && !m[tabs[p]][i].IsBranch() && !m[tabs[p]][i].IsLeaf()
    requires e.IsBranch() && e.ppn == f && f in m && f !in tabs.Values
    requires forall j | 0 <= j < 512 :: m[f][j] == ZERO_PTE
    requires m' == m[tabs[p] := m[tabs[p]][i := e]]
    ensures Walk(m', root, top, va) == Walk(m, root, top, va)
  {
    hide Forest, Index, Walk;
    var d := |p| - 1;
    ForestTable(m, top, roots, tabs, p);
    if Passes(root, va, top, p + [i]) {
      PassedTable(root, va, top, p, i);
      Descend(m, top, roots, tabs, root, va, d);
      WriteBranch(m, m', top, roots, tabs, p, i, e, f);
      Descend(m', top, roots, tabs[p + [i] := f], root, va, d + 1);
      WalkStep(m, tabs[p], top - d, va);
      assert tabs[p] in tabs.Values;
      WalkStep(m', f, top - d - 1, va);
    } else {
      RootTable(m, top, roots, tabs, root, va);
      WalkAvoids(m, m', top, roots, tabs, p, i, root, va, 0);
    }
  }

  /** Two walks pass the same entry at `level` iff they start at one root and the addresses share a page there. */
  lemma {:induction false} SameWalk(root: nat, va: Word, root': nat, va': Word, top: Level, level: Level)
    requires level <= top
    ensures WalkPath(root, va, top, top + 1 - level) == WalkPath(root', va', top, top + 1 - level) <==>
      root == root' && SamePage(va, va', top, level)
    decreases top - level
  {
    var d := top - level;
    if level < top {
      SameWalk(root, va, root', va', top, level + 1);
      assert SamePage(va, va', top, level) <==>
        SamePage(va, va', top, level + 1) && Index(va, level) == Index(va', level);
    } else {
      assert [root] == [root'] <==> root == root';
    }
    SameAppend(WalkPath(root, va, top, d), Index(va, level), WalkPath(root', va', top, d), Index(va', level));
  }

  /** The walks that pass the entry for `virt` at level `target` are those of its page. */
  lemma PassesSamePage(root: nat, virt: Word, top: Level, target: Level, r: nat, va: Word)
    requires target <= top
    ensures var child := WalkPath(root, virt, top, top - target) + [Index(virt, target)];
      Passes(r, va, top, child) <==> r == root && SamePage(va, virt, top, target)
  {
    hide SamePage, Index;
    SameWalk(r, va, root, virt, top, target);
  }

  /** No valid entry of the table is neither a leaf nor a branch. */
  ghost predicate AliveTable(t: Table) {
    forall i | 0 <= i < 512 :: t[i].valid ==> t[i].IsLeaf() || t[i].IsBranch()
  }

  ghost predicate Alive(m: Tables, tabs: map<Path, nat>) {
    forall p | p in tabs :: tabs[p] in m && AliveTable(m[tabs[p]])
  }

  lemma AliveFrame(m: Tables, m': Tables, tabs: map<Path, nat>)
    requires Alive(m, tabs) && forall g | g in tabs.Values :: g in m' && m'[g] == m[g]
    ensures Alive(m', tabs)
  {
    hide AliveTable;
    forall p | p in tabs
      ensures tabs[p] in m' && AliveTable(m'[tabs[p]])
    {
      assert tabs[p] in tabs.Values;
    }
  }

  /** Writing a live entry, and perhaps adding a live table or dropping some, leaves all tables alive. */
  lemma AliveWrite(m: Tables, tabs: map<Path, nat>, tabs': map<Path, nat>, t: nat, i: nat, e: Pte)
    requires Alive(m, tabs) && t in m && i < 512 && AliveTable(m[t])
    requires e.valid ==> e.IsLeaf() || e.IsBranch()
    requires forall p | p in tabs' :: (p in tabs && tabs'[p] == tabs[p]) || (tabs'[p] in m && AliveTable(m[tabs'[p]]))
    ensures Alive(m[t := m[t][i := e]], tabs')
  {
  }
}

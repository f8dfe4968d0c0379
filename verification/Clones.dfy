/** Copies of table trees: what `clone_table_range` builds, and why source and copy are independent. */
module Clones {
  import opened PageEntries
  import opened Addresses
  import opened PageTables

  /** `q` lies below the table at `p`, through one of its entries `lo..hi`. */
  ghost predicate Under(q: Path, p: Path, lo: nat, hi: nat) {
    |p| < |q| && q[..|p|] == p && lo <= q[|p|] < hi
  }

  /** The copy of an entry: a branch leads to the copy of its table, a leaf is the same, anything else is empty. */
  ghost predicate CopiedEntry(e: Pte, e': Pte, child: Path, copies: map<Path, nat>) {
    if e.IsBranch() then child in copies && e' == e.(ppn := copies[child])
    else e' == if e.IsLeaf() then e else ZERO_PTE
  }

  ghost predicate CopiedTable(m: Tables, source: nat, dest: nat, p: Path, lo: nat, hi: nat, copies: map<Path, nat>)
    requires lo <= hi <= 512
  {
    source in m && dest in m
    && forall i | lo <= i < hi :: CopiedEntry(m[source][i], m[dest][i], p + [i], copies)
  }

  ghost predicate Injective(copies: map<Path, nat>) {
    forall p, q | p in copies && q in copies && copies[p] == copies[q] :: p == q
  }

  /** `copies` gives for each source table under `p` through `lo..hi` its own copy, and `dest` copies `p`'s entries. */
  ghost predicate Copied(m: Tables, tabs: map<Path, nat>, copies: map<Path, nat>, p: Path, dest: nat, lo: nat, hi: nat)
    requires lo <= hi <= 512
  {
    && p in tabs
    && (forall q :: q in copies <==> q in tabs && Under(q, p, lo, hi))
    && Injective(copies) && dest !in copies.Values
    && CopiedTable(m, tabs[p], dest, p, lo, hi, copies)
    && (forall q | q in copies :: CopiedTable(m, tabs[q], copies[q], q, 0, 512, copies))
  }

  lemma CopiedEmpty(m: Tables, tabs: map<Path, nat>, p: Path, dest: nat, lo: nat)
    requires p in tabs && tabs[p] in m && dest in m && lo <= 512
    ensures Copied(m, tabs, map[], p, dest, lo, lo)
  {
  }

  /** Copied tables stay copied while neither they nor their sources are written and further copies are added. */
  lemma CopiedTableFrame(m: Tables, m': Tables, source: nat, dest: nat, p: Path, lo: nat, hi: nat,
                         copies: map<Path, nat>, copies': map<Path, nat>)
    requires lo <= hi <= 512 && CopiedTable(m, source, dest, p, lo, hi, copies)
    requires source in m' && m'[source] == m[source]
    requires dest in m' && forall i | lo <= i < hi :: m'[dest][i] == m[dest][i]
    requires forall q | q in copies :: q in copies' && copies'[q] == copies[q]
    ensures CopiedTable(m', source, dest, p, lo, hi, copies')
  {
    forall i | lo <= i < hi
      ensures CopiedEntry(m'[source][i], m'[dest][i], p + [i], copies')
    {
      assert CopiedEntry(m[source][i], m[dest][i], p + [i], copies);
    }
  }

  lemma UnderStep(q: Path, p: Path, lo: nat, i: nat)
    requires lo <= i
    ensures Under(q, p, lo, i + 1) <==> Under(q, p, lo, i) || p + [i] <= q
    ensures !(Under(q, p, lo, i) && p + [i] <= q)
  {
    if |p| < |q| {
      assert q[..|p| + 1] == q[..|p|] + [q[|p|]];
      SameAppend(q[..|p|], q[|p|], p, i);
    }
  }

  lemma UnderChild(q: Path, p: Path, i: nat)
    requires |q| > |p| + 1 ==> q[|p| + 1] < 512
    ensures p + [i] <= q <==> q == p + [i] || Under(q, p + [i], 0, 512)
  {
  }

  /** A further entry that is not a branch is copied. */
  lemma CopiedLeaf(m: Tables, m': Tables, top: Level, roots: set<nat>, tabs: map<Path, nat>, copies: map<Path, nat>,
                   p: Path, dest: nat, lo: nat, i: nat)
    requires lo <= i < 512 && Copied(m, tabs, copies, p, dest, lo, i)
    requires Forest(m, top, roots, tabs) && !m[tabs[p]][i].IsBranch()
    requires dest !in tabs.Values
    requires m' == m[dest := m[dest][i := if m[tabs[p]][i].IsLeaf() then m[tabs[p]][i] else ZERO_PTE]]
    ensures Copied(m', tabs, copies, p, dest, lo, i + 1)
  {
    hide Forest, Under, Injective;
    NothingUnder(m, top, roots, tabs, p, lo, i);
    assert tabs[p] in tabs.Values;
    CopiedTableFrame(m, m', tabs[p], dest, p, lo, i, copies, copies);
    forall q | q in copies
      ensures CopiedTable(m', tabs[q], copies[q], q, 0, 512, copies)
    {
      assert tabs[q] in tabs.Values && copies[q] in copies.Values;
      CopiedTableFrame(m, m', tabs[q], copies[q], q, 0, 512, copies, copies);
    }
    forall j | lo <= j < i + 1
      ensures CopiedEntry(m'[tabs[p]][j], m'[dest][j], p + [j], copies)
    {
    }
  }

  lemma NothingUnder(m: Tables, top: Level, roots: set<nat>, tabs: map<Path, nat>, p: Path, lo: nat, i: nat)
    requires Forest(m, top, roots, tabs) && p in tabs && lo <= i < 512 && !m[tabs[p]][i].IsBranch()
    ensures forall q | q in tabs :: Under(q, p, lo, i + 1) <==> Under(q, p, lo, i)
  {
    hide Forest, Under;
    PruneNothing(m, top, roots, tabs, p, i);
    forall q | q in tabs
      ensures Under(q, p, lo, i + 1) <==> Under(q, p, lo, i)
    {
      UnderStep(q, p, lo, i);
      assert q in Prune(tabs, p + [i]);
    }
  }

  /** Every index on a path of the forest is below 512. */
  lemma {:induction false} SmallIndices(m: Tables, top: Level, roots: set<nat>, tabs: map<Path, nat>, q: Path)
    requires Forest(m, top, roots, tabs) && q in tabs
    ensures forall k | 1 <= k < |q| :: q[k] < 512
    decreases |q|
  {
    if |q| > 1 {
      assert Linked(m, tabs, q);
      SmallIndices(m, top, roots, tabs, Parent(q));
    }
  }

  /** The copies made before entry `i`, the copy `f` at `child`, and the copies below it. */
  ghost function Merge(copies: map<Path, nat>, child: Path, f: nat, below: map<Path, nat>): map<Path, nat> {
    copies[child := f] + below
  }

  lemma MergeInjective(copies: map<Path, nat>, child: Path, f: nat, below: map<Path, nat>)
    requires Injective(copies) && Injective(below)
    requires child !in copies && child !in below && forall q | q in copies :: q !in below
    requires f !in copies.Values && f !in below.Values && forall g | g in below.Values :: g !in copies.Values
    ensures Injective(Merge(copies, child, f, below))
    ensures forall q | q in copies :: Merge(copies, child, f, below)[q] == copies[q]
    ensures Merge(copies, child, f, below).Values == copies.Values + {f} + below.Values
  {
    var all := Merge(copies, child, f, below);
    assert all[child] == f;
    assert forall q | q in copies :: all[q] == copies[q];
    assert forall q | q in below :: all[q] == below[q];
    forall q, r | q in all && r in all && all[q] == all[r]
      ensures q == r
    {
      assert q in copies ==> copies[q] in copies.Values;
      assert r in copies ==> copies[r] in copies.Values;
      assert q in below ==> below[q] in below.Values;
      assert r in below ==> below[r] in below.Values;
    }
  }

  lemma MergeKeys(m: Tables, top: Level, roots: set<nat>, tabs: map<Path, nat>, copies: map<Path, nat>,
                  below: map<Path, nat>, p: Path, lo: nat, i: nat, f: nat)
    requires lo <= i < 512 && Forest(m, top, roots, tabs) && p + [i] in tabs
    requires forall q :: q in copies <==> q in tabs && Under(q, p, lo, i)
    requires forall q :: q in below <==> q in tabs && Under(q, p + [i], 0, 512)
    ensures forall q :: q in Merge(copies, p + [i], f, below) <==> q in tabs && Under(q, p, lo, i + 1)
    ensures p + [i] !in copies && p + [i] !in below && forall q | q in copies :: q !in below
  {
    forall q
      ensures q in Merge(copies, p + [i], f, below) <==> q in tabs && Under(q, p, lo, i + 1)
      ensures q in copies ==> q !in below && q != p + [i]
    {
      UnderStep(q, p, lo, i);
      if q in tabs {
        SmallIndices(m, top, roots, tabs, q);
        UnderChild(q, p, i);
      }
    }
  }

  /** A table copied before, the new one, or one below it: each is still copied once the three are put together. */
  lemma MergedTable(m: Tables, m': Tables, tabs: map<Path, nat>, copies: map<Path, nat>, below: map<Path, nat>,
                    child: Path, f: nat, q: Path)
    requires child in tabs && (forall r | r in copies || r in below :: r in tabs) && child !in copies && child !in below
    requires forall r | r in copies :: r !in below
    requires forall r | r in copies :: CopiedTable(m, tabs[r], copies[r], r, 0, 512, copies)
    requires forall r | r in below :: CopiedTable(m', tabs[r], below[r], r, 0, 512, below)
    requires CopiedTable(m', tabs[child], f, child, 0, 512, below)
    requires q in copies ==> Same(m, m', tabs[q]) && Same(m, m', copies[q])
    requires q in Merge(copies, child, f, below)
    ensures CopiedTable(m', tabs[q], Merge(copies, child, f, below)[q], q, 0, 512, Merge(copies, child, f, below))
  {
    hide CopiedEntry;
    var all := Merge(copies, child, f, below);
    if q in below {
      CopiedTableFrame(m', m', tabs[q], below[q], q, 0, 512, below, all);
    } else if q == child {
      CopiedTableFrame(m', m', tabs[q], f, q, 0, 512, below, all);
    } else {
      CopiedTableFrame(m, m', tabs[q], copies[q], q, 0, 512, copies, all);
    }
  }

  /** The row of `dest` grows by a branch that leads to the copy `f`. */
  lemma RowExtended(m: Tables, m': Tables, source: nat, dest: nat, p: Path, lo: nat, i: nat,
                    copies: map<Path, nat>, all: map<Path, nat>, f: nat)
    requires lo <= i < 512 && CopiedTable(m, source, dest, p, lo, i, copies) && Same(m, m', source) && dest in m'
    requires m[source][i].IsBranch() && m'[dest] == m[dest][i := m[source][i].(ppn := f)]
    requires p + [i] in all && all[p + [i]] == f && forall q | q in copies :: q in all && all[q] == copies[q]
    ensures CopiedTable(m', source, dest, p, lo, i + 1, all)
  {
    CopiedTableFrame(m, m', source, dest, p, lo, i, copies, all);
    forall j | lo <= j < i + 1
      ensures CopiedEntry(m'[source][j], m'[dest][j], p + [j], all)
    {
    }
  }

  ghost predicate Same(m: Tables, m': Tables, g: nat) { g in m' && (g in m ==> m'[g] == m[g]) }

  /** A further branch entry is copied once the table it leads to is. */
  lemma CopiedBranch(m: Tables, m': Tables, top: Level, roots: set<nat>, tabs: map<Path, nat>, copies: map<Path, nat>,
                     below: map<Path, nat>, p: Path, dest: nat, lo: nat, i: nat, f: nat)
    requires lo <= i < 512 && Copied(m, tabs, copies, p, dest, lo, i)
    requires Forest(m, top, roots, tabs) && m[tabs[p]][i].IsBranch()
    requires Copied(m', tabs, below, p + [i], f, 0, 512)
    requires dest !in tabs.Values && dest != f && dest !in below.Values && dest in m'
    requires f !in copies.Values && forall g | g in below.Values :: g !in copies.Values
    requires forall g | g in tabs.Values || g in copies.Values :: g in m' && m'[g] == m[g]
    requires m'[dest] == m[dest][i := m[tabs[p]][i].(ppn := f)]
    ensures Copied(m', tabs, Merge(copies, p + [i], f, below), p, dest, lo, i + 1)
    ensures Merge(copies, p + [i], f, below).Values == copies.Values + {f} + below.Values
  {
    hide Forest, Under, Injective, CopiedTable;
    var all := Merge(copies, p + [i], f, below);
    Child(m, top, roots, tabs, p, i);
    MergeKeys(m, top, roots, tabs, copies, below, p, lo, i, f);
    MergeInjective(copies, p + [i], f, below);
    assert all[p + [i]] == f;
    assert tabs[p] in tabs.Values;
    RowExtended(m, m', tabs[p], dest, p, lo, i, copies, all, f);
    forall q | q in all
      ensures CopiedTable(m', tabs[q], all[q], q, 0, 512, all)
    {
      assert q in copies ==> tabs[q] in tabs.Values && copies[q] in copies.Values;
      MergedTable(m, m', tabs, copies, below, p + [i], f, q);
    }
  }

  /** The copies together with the table the copying started at. */
  ghost function WithStart(copies: map<Path, nat>, p: Path, dest: nat): map<Path, nat> {
    copies[p := dest]
  }

  /** What one entry of a copy holds. */
  lemma CopiedAt(m: Tables, tabs: map<Path, nat>, copies: map<Path, nat>, p: Path, dest: nat, lo: nat, hi: nat,
                 q: Path, j: nat)
    requires lo <= hi <= 512 && Copied(m, tabs, copies, p, dest, lo, hi)
    requires q in WithStart(copies, p, dest) && j < 512 && (q == p ==> lo <= j < hi)
    ensures q in tabs && tabs[q] in m && WithStart(copies, p, dest)[q] in m
    ensures var e, e' := m[tabs[q]][j], m[WithStart(copies, p, dest)[q]][j];
      && CopiedEntry(e, e', q + [j], copies)
      && e'.Clean() && e'.IsBranch() == e.IsBranch() && e'.IsLeaf() == e.IsLeaf()
      && (e.IsLeaf() ==> e' == e)
      && (e.IsBranch() ==>
            q + [j] in copies && q + [j] in WithStart(copies, p, dest) && e'.ppn == WithStart(copies, p, dest)[q + [j]])
  {
    hide Injective;
    var e, e' := m[tabs[q]][j], m[WithStart(copies, p, dest)[q]][j];
    if q == p {
      assert CopiedEntry(e, e', q + [j], copies);
    } else {
      assert CopiedTable(m, tabs[q], copies[q], q, 0, 512, copies);
      assert CopiedEntry(e, e', q + [j], copies);
    }
    assert q + [j] == p ==> !Under(q, p, lo, hi);
  }

  /** Below the copied range, the walk from a copy finds what the walk from its source finds. */
  lemma {:induction false} CopiedWalk(m: Tables, top: Level, roots: set<nat>, tabs: map<Path, nat>,
                                      copies: map<Path, nat>,
                                      source: nat, dest: nat, lo: nat, hi: nat, va: Word, depth: nat)
    requires Forest(m, top, roots, tabs) && lo <= hi <= 512 && Copied(m, tabs, copies, [source], dest, lo, hi)
    requires lo <= Index(va, top) < hi && depth < top
    requires WalkPath(source, va, top, depth) in WithStart(copies, [source], dest)
    ensures var q := WalkPath(source, va, top, depth);
      q in tabs && Walk(m, WithStart(copies, [source], dest)[q], top - depth, va) == Walk(m, tabs[q], top - depth, va)
    decreases top - depth
  {
    hide Index, Forest, Copied, CopiedEntry, WithStart;
    var q := WalkPath(source, va, top, depth);
    var j := Index(va, top - depth);
    assert |q| == |[source]| ==> depth == 0;
    CopiedAt(m, tabs, copies, [source], dest, lo, hi, q, j);
    assert WalkPath(source, va, top, depth + 1) == q + [j];
    if m[tabs[q]][j].IsBranch() {
      Child(m, top, roots, tabs, q, j);
      CopiedWalk(m, top, roots, tabs, copies, source, dest, lo, hi, va, depth + 1);
    }
  }

  /** The path of a copy: the source path under another root. */
  function Moved(q: Path, root: nat): Path
    requires q != []
  {
    [root] + q[1..]
  }

  /** Whole source paths from `source`, as `Copied` with start `[source]` has them. */
  ghost predicate From(full: map<Path, nat>, source: nat) {
    forall q | q in full :: q != [] && q[0] == source
  }

  ghost function MovedTabs(full: map<Path, nat>, source: nat, dest: nat): map<Path, nat>
    requires From(full, source)
  {
    map q: Path | q in (set p | p in full :: Moved(p, dest)) && q != [] && Moved(q, source) in full ::
      full[Moved(q, source)]
  }

  lemma MovedPath(full: map<Path, nat>, source: nat, dest: nat, q: Path)
    requires From(full, source)
    ensures q in full ==> q != [] && Moved(q, dest) in MovedTabs(full, source, dest)
    ensures q in full ==> MovedTabs(full, source, dest)[Moved(q, dest)] == full[q]
    ensures q in MovedTabs(full, source, dest) ==>
      q != [] && q == Moved(Moved(q, source), dest) && Moved(q, source) in full
    ensures q in MovedTabs(full, source, dest) ==> MovedTabs(full, source, dest)[q] == full[Moved(q, source)]
  {
    if q in full {
      assert Moved(Moved(q, dest), source) == q;
    }
    if q in MovedTabs(full, source, dest) {
      var p :| p in full && q == Moved(p, dest);
      assert Moved(q, source) == p;
    }
  }

  lemma MovedValues(full: map<Path, nat>, source: nat, dest: nat)
    requires From(full, source)
    ensures MovedTabs(full, source, dest).Values == full.Values
  {
    hide From, MovedTabs, Moved;
    var moved := MovedTabs(full, source, dest);
    forall g | g in moved.Values
      ensures g in full.Values
    {
      var q :| q in moved && moved[q] == g;
      MovedPath(full, source, dest, q);
    }
    forall g | g in full.Values
      ensures g in moved.Values
    {
      var q :| q in full && full[q] == g;
      MovedPath(full, source, dest, q);
    }
  }

  lemma StartValues(copies: map<Path, nat>, p: Path, dest: nat)
    requires p !in copies
    ensures WithStart(copies, p, dest).Values == copies.Values + {dest}
  {
    assert WithStart(copies, p, dest)[p] == dest;
    assert forall q | q in copies :: WithStart(copies, p, dest)[q] == copies[q];
  }

  /** The entries of the new root outside the copied range lead nowhere. */
  ghost predicate Childless(t: Table, lo: nat, hi: nat) {
    forall i | 0 <= i < 512 && !(lo <= i < hi) :: t[i].Clean() && !t[i].IsBranch()
  }

  lemma CopiesFrom(tabs: map<Path, nat>, m: Tables, copies: map<Path, nat>, source: nat, dest: nat, lo: nat, hi: nat)
    requires lo <= hi <= 512 && Copied(m, tabs, copies, [source], dest, lo, hi)
    ensures From(WithStart(copies, [source], dest), source)
  {
    forall q | q in WithStart(copies, [source], dest)
      ensures q != [] && q[0] == source
    {
      if q in copies {
        assert Under(q, [source], lo, hi) && q[..1][0] == q[0];
      }
    }
  }

  /** The parent of a copied table is copied, and the copied entry there leads to the copy. */
  lemma CopyLinked(m: Tables, top: Level, roots: set<nat>, tabs: map<Path, nat>, copies: map<Path, nat>,
                   source: nat, dest: nat, lo: nat, hi: nat, q: Path)
    requires Forest(m, top, roots, tabs) && lo <= hi <= 512 && Copied(m, tabs, copies, [source], dest, lo, hi)
    requires q in copies
    ensures |q| > 1 && Parent(q) in WithStart(copies, [source], dest) && Last(q) < 512
    ensures WithStart(copies, [source], dest)[Parent(q)] in m
    ensures var e := m[WithStart(copies, [source], dest)[Parent(q)]][Last(q)];
      e.IsBranch() && e.ppn == WithStart(copies, [source], dest)[q]
  {
    hide CopiedTable, Injective, CopiedEntry;
    assert Under(q, [source], lo, hi) && Linked(m, tabs, q);
    assert Parent(q) + [Last(q)] == q;
    var p := Parent(q);
    if |p| == 1 {
      assert p == q[..1] == [source];
    } else {
      assert p[..1] == q[..1] && p[1] == q[1];
      assert Under(p, [source], lo, hi);
    }
    CopiedAt(m, tabs, copies, [source], dest, lo, hi, p, Last(q));
  }

  /** A complete copy is a tree of its own. */
  lemma CopiedTree(m: Tables, top: Level, roots: set<nat>, tabs: map<Path, nat>, copies: map<Path, nat>,
                   source: nat, dest: nat, lo: nat, hi: nat)
    requires Forest(m, top, roots, tabs) && lo <= hi <= 512 && Copied(m, tabs, copies, [source], dest, lo, hi)
    requires dest in m && Childless(m[dest], lo, hi)
    ensures From(WithStart(copies, [source], dest), source)
    ensures Forest(m, top, {dest}, MovedTabs(WithStart(copies, [source], dest), source, dest))
  {
    hide CopiedTable, CopiedEntry, MovedTabs, Under;
    CopiesFrom(tabs, m, copies, source, dest, lo, hi);
    var full := WithStart(copies, [source], dest);
    var moved := MovedTabs(full, source, dest);
    MovedPath(full, source, dest, [source]);
    assert Moved([source], dest) == [dest];
    forall q | q in moved
      ensures 1 <= |q| <= top && moved[q] in m && (|q| == 1 ==> moved[q] == q[0] == dest)
      ensures |q| > 1 ==> Linked(m, moved, q)
      ensures GoodTable(m, moved, q)
    {
      MovedPath(full, source, dest, q);
      var p := Moved(q, source);
      CopiedTreeTable(m, top, roots, tabs, copies, source, dest, lo, hi, p);
      assert q == Moved(p, dest);
    }
    MovedInjective(copies, source, dest);
  }

  /** The paths of the copy start at its root, and through that only the copied range goes on. */
  lemma MovedStart(tabs: map<Path, nat>, m: Tables, copies: map<Path, nat>, source: nat, dest: nat, lo: nat, hi: nat,
                   q: Path)
    requires lo <= hi <= 512 && Copied(m, tabs, copies, [source], dest, lo, hi)
    requires From(WithStart(copies, [source], dest), source)
    requires q in MovedTabs(WithStart(copies, [source], dest), source, dest)
    ensures q != [] && q[0] == dest && (|q| > 1 ==> lo <= q[1] < hi)
  {
    hide CopiedTable, Injective, MovedTabs;
    var full := WithStart(copies, [source], dest);
    MovedPath(full, source, dest, q);
    var p := Moved(q, source);
    assert p in copies ==> Under(p, [source], lo, hi);
  }

  /** Without a clean, childless rest of the root the copy is no tree of this kind. */
  lemma OnlyIfChildless(m: Tables, top: Level, roots: set<nat>, tabs: map<Path, nat>, roots': set<nat>,
                        copies: map<Path, nat>, source: nat, dest: nat, lo: nat, hi: nat)
    requires Forest(m, top, roots, tabs) && lo <= hi <= 512 && Copied(m, tabs, copies, [source], dest, lo, hi)
    requires From(WithStart(copies, [source], dest), source) && dest !in tabs.Values && dest in m
    requires Forest(m, top, roots', tabs + MovedTabs(WithStart(copies, [source], dest), source, dest))
    ensures Childless(m[dest], lo, hi)
  {
    hide Copied, MovedTabs, Linked;
    var full := WithStart(copies, [source], dest);
    var moved := MovedTabs(full, source, dest);
    var all := tabs + moved;
    MovedPath(full, source, dest, [source]);
    assert [source] in full && Moved([source], dest) == [dest] && [dest] in moved && moved[[dest]] == dest;
    assert all[[dest]] == dest && GoodTable(m, all, [dest]);
    forall i | 0 <= i < 512 && !(lo <= i < hi)
      ensures m[dest][i].Clean() && !m[dest][i].IsBranch()
    {
      assert GoodEntry(m[all[[dest]]][i], all, [dest] + [i]);
      var child := [dest] + [i];
      if child in moved { MovedStart(tabs, m, copies, source, dest, lo, hi, child); }
      TableRoot(m, top, roots, tabs, child);
    }
  }

  lemma MovedInjective(copies: map<Path, nat>, source: nat, dest: nat)
    requires Injective(copies) && dest !in copies.Values && From(WithStart(copies, [source], dest), source)
    ensures Injective(MovedTabs(WithStart(copies, [source], dest), source, dest))
  {
    hide MovedTabs;
    var full := WithStart(copies, [source], dest);
    var moved := MovedTabs(full, source, dest);
    forall q, r | q in moved && r in moved && moved[q] == moved[r]
      ensures q == r
    {
      MovedPath(full, source, dest, q);
      MovedPath(full, source, dest, r);
      assert Moved(q, source) in copies ==> copies[Moved(q, source)] in copies.Values;
      assert Moved(r, source) in copies ==> copies[Moved(r, source)] in copies.Values;
    }
  }

  lemma CopiedTreeTable(m: Tables, top: Level, roots: set<nat>, tabs: map<Path, nat>, copies: map<Path, nat>,
                        source: nat, dest: nat, lo: nat, hi: nat, p: Path)
    requires Forest(m, top, roots, tabs) && lo <= hi <= 512 && Copied(m, tabs, copies, [source], dest, lo, hi)
    requires dest in m && Childless(m[dest], lo, hi)
    requires From(WithStart(copies, [source], dest), source) && p in WithStart(copies, [source], dest)
    ensures var moved := MovedTabs(WithStart(copies, [source], dest), source, dest);
      var q := Moved(p, dest);
      && q in moved && 1 <= |q| <= top && moved[q] in m && (|q| == 1 ==> moved[q] == q[0] == dest)
      && (|q| > 1 ==> Linked(m, moved, q))
      && GoodTable(m, moved, q)
  {
    hide CopiedTable, CopiedEntry, MovedTabs, Injective, Under;
    var full := WithStart(copies, [source], dest);
    var moved := MovedTabs(full, source, dest);
    var q := Moved(p, dest);
    MovedPath(full, source, dest, p);
    if p in copies {
      CopyLinked(m, top, roots, tabs, copies, source, dest, lo, hi, p);
      MovedPath(full, source, dest, Parent(p));
      assert Moved(Parent(p), dest) == Parent(q) && Last(p) == Last(q);
      assert |p| > 1 && p != [source];
      CopiedAt(m, tabs, copies, [source], dest, lo, hi, p, 0);
    } else {
      assert p == [source] && moved[q] == dest;
    }
    assert p in tabs;
    forall j | 0 <= j < 512
      ensures GoodEntry(m[moved[q]][j], moved, q + [j])
    {
      if p == [source] && !(lo <= j < hi) {
        assert m[dest][j].Clean() && !m[dest][j].IsBranch();
      } else {
        CopiedAt(m, tabs, copies, [source], dest, lo, hi, p, j);
        MovedPath(full, source, dest, p + [j]);
        assert Moved(p + [j], dest) == q + [j];
      }
    }
  }

  lemma TableRoot(m: Tables, top: Level, roots: set<nat>, tabs: map<Path, nat>, q: Path)
    requires Forest(m, top, roots, tabs)
    ensures q in tabs ==> q != [] && q[0] in tabs.Values
  {
    hide GoodTable, Linked;
    if q in tabs {
      PrefixClosed(m, top, roots, tabs, q, 1);
      assert tabs[q[..1]] in tabs.Values;
    }
  }

  /** Two forests without a common table or root are one forest. */
  lemma ForestUnion(m: Tables, top: Level, roots: set<nat>, tabs: map<Path, nat>, roots': set<nat>,
                    tabs': map<Path, nat>)
    requires Forest(m, top, roots, tabs) && Forest(m, top, roots', tabs')
    requires forall g | g in tabs'.Values :: g !in tabs.Values
    ensures forall q | q in tabs' :: q !in tabs
    ensures Forest(m, top, roots + roots', tabs + tabs')
  {
    hide GoodTable, Linked;
    forall q | q in tabs'
      ensures q !in tabs
    {
      TableRoot(m, top, roots, tabs, q);
      TableRoot(m, top, roots', tabs', q);
    }
    var all := tabs + tabs';
    forall q | q in all
      ensures GoodTable(m, all, q) && (|q| > 1 ==> Linked(m, all, q))
    {
      if q in tabs {
        UnionTable(m, top, roots, tabs, all, q);
      } else {
        UnionTable(m, top, roots', tabs', all, q);
      }
    }
    forall q, r | q in all && r in all && all[q] == all[r]
      ensures q == r
    {
      assert q in tabs ==> tabs[q] in tabs.Values;
      assert r in tabs ==> tabs[r] in tabs.Values;
      assert q in tabs' ==> tabs'[q] in tabs'.Values;
      assert r in tabs' ==> tabs'[r] in tabs'.Values;
    }
  }

  lemma UnionTable(m: Tables, top: Level, roots: set<nat>, tabs: map<Path, nat>, all: map<Path, nat>, q: Path)
    requires Forest(m, top, roots, tabs) && q in tabs && forall p | p in tabs :: p in all && all[p] == tabs[p]
    ensures GoodTable(m, all, q) && (|q| > 1 ==> Linked(m, all, q))
  {
    assert GoodTable(m, tabs, q);
    forall j | 0 <= j < 512
      ensures GoodEntry(m[all[q]][j], all, q + [j])
    {
      assert GoodEntry(m[tabs[q]][j], tabs, q + [j]);
    }
    assert |q| > 1 ==> Linked(m, tabs, q);
  }

  /** Outside the copied range no valid entry is neither a leaf nor a branch. */
  ghost predicate AliveOutside(t: Table, lo: nat, hi: nat) {
    forall i | 0 <= i < 512 && !(lo <= i < hi) && t[i].valid :: t[i].IsLeaf() || t[i].IsBranch()
  }

  /** Copies of live tables are live. */
  lemma AliveCopies(m: Tables, top: Level, tabs: map<Path, nat>, copies: map<Path, nat>, source: nat, dest: nat,
                    lo: nat, hi: nat)
    requires Alive(m, tabs) && lo <= hi <= 512 && Copied(m, tabs, copies, [source], dest, lo, hi)
    requires dest in m && AliveOutside(m[dest], lo, hi)
    requires From(WithStart(copies, [source], dest), source)
    ensures Alive(m, tabs + MovedTabs(WithStart(copies, [source], dest), source, dest))
  {
    hide Copied, MovedTabs, WithStart, CopiedEntry;
    var full := WithStart(copies, [source], dest);
    var moved := MovedTabs(full, source, dest);
    forall q | q in moved
      ensures moved[q] in m && AliveTable(m[moved[q]])
    {
      MovedPath(full, source, dest, q);
      AliveCopy(m, tabs, copies, source, dest, lo, hi, Moved(q, source));
    }
  }

  lemma AliveCopy(m: Tables, tabs: map<Path, nat>, copies: map<Path, nat>, source: nat, dest: nat, lo: nat, hi: nat,
                  q: Path)
    requires Alive(m, tabs) && lo <= hi <= 512 && Copied(m, tabs, copies, [source], dest, lo, hi)
    requires dest in m && AliveOutside(m[dest], lo, hi)
    requires q in WithStart(copies, [source], dest)
    ensures var t := WithStart(copies, [source], dest)[q]; t in m && AliveTable(m[t])
  {
    hide Copied;
    var full := WithStart(copies, [source], dest);
    if q != [source] { CopiedAt(m, tabs, copies, [source], dest, lo, hi, q, 0); }
    forall i | 0 <= i < 512
      ensures m[full[q]][i].valid ==> m[full[q]][i].IsLeaf() || m[full[q]][i].IsBranch()
    {
      if q != [source] || lo <= i < hi {
        CopiedAt(m, tabs, copies, [source], dest, lo, hi, q, i);
      }
    }
  }
}

/**
 * Cloning a table range between two states, taking the copy up as a new address space, and why the two are
 * independent.
 */
module SpaceClones {
  import opened PageEntries
  import opened Addresses
  import opened PageTables
  import opened PhysicalMemory
  import opened Clones
  import opened Spaces

  /**
   * Since `a`, entries `lo..i` of the table at `p` were copied into the claimed frame `dest`: the copies of the
   * tables below came from the free list, and nothing but `dest` in that range and formerly free frames was written.
   */
  ghost predicate Cloning(a: State, b: State, top: Level, copies: map<Path, nat>, p: Path, dest: nat, lo: nat, i: nat)
    requires lo <= i <= 512
  {
    && ClaimedFrames(a, b, {dest}) && SameFinds(a, b, top)
    && p in a.tabs && a.tabs[p] in a.frames && dest in a.data && dest in a.frames && dest in b.frames
    && b.data == a.data + copies.Values && (forall g | g in copies.Values :: g in a.free)
    && (forall j | 0 <= j < 512 && !(lo <= j < i) :: b.frames[dest][j] == a.frames[dest][j])
    && Copied(View(b.frames), a.tabs, copies, p, dest, lo, i)
  }

  lemma CloneStart(s: State, top: Level, p: Path, dest: nat, lo: nat)
    requires s.Ok(top) && p in s.tabs && dest in s.data && lo <= 512
    ensures dest in s.frames && s.tabs[p] in s.frames
    ensures Cloning(s, s, top, map[], p, dest, lo, lo)
  {
    assert s.tabs[p] in s.tabs.Values;
    CopiedEmpty(View(s.frames), s.tabs, p, dest, lo);
  }

  lemma ClaimedFacts(a: State, b: State, w: set<nat>)
    requires ClaimedFrames(a, b, w)
    ensures b.frames.Keys == a.frames.Keys && b.tabs == a.tabs && a.data <= b.data
  {
  }

  lemma FlatCopied(a: State, top: Level, copies: map<Path, nat>, p: Path, dest: nat, lo: nat, i: nat, w: Word)
    requires a.Ok(top) && lo <= i < 512 && Copied(View(a.frames), a.tabs, copies, p, dest, lo, i)
    requires p in a.tabs && a.tabs[p] in a.frames && dest in a.data && dest in a.frames
    requires var e := Decode(a.frames[a.tabs[p]][i]);
      !e.IsBranch() && w == if e.IsLeaf() then a.frames[a.tabs[p]][i] else 0
    ensures Copied(View(Poke(a.frames, dest, i, w)), a.tabs, copies, p, dest, lo, i + 1)
  {
    hide Decode, Forest, Copied, View, Pte.IsLeaf, Pte.IsBranch;
    ViewWrite(a.frames, dest, i, w);
    DecodeZero();
    CopiedLeaf(View(a.frames), View(Poke(a.frames, dest, i, w)), top, a.roots, a.tabs, copies, p, dest, lo, i);
  }

  /** One turn of the copying loop at an entry that is not a branch. */
  lemma CloneFlat(s: State, a: State, b: State, top: Level, copies: map<Path, nat>, p: Path, dest: nat, lo: nat,
                  i: nat, w: Word)
    requires a.Ok(top) && lo <= i < 512 && Cloning(s, a, top, copies, p, dest, lo, i) && a.tabs[p] in a.frames
    requires !Decode(a.frames[a.tabs[p]][i]).IsBranch()
    requires w == if Decode(a.frames[a.tabs[p]][i]).IsLeaf() then a.frames[a.tabs[p]][i] else 0
    requires b == a.(frames := Poke(a.frames, dest, i, w)) && ClaimedFrames(a, b, {dest}) && SameFinds(a, b, top)
    ensures Cloning(s, b, top, copies, p, dest, lo, i + 1)
  {
    hide State.Ok, Decode, Copied, View, SameFinds, Pte.IsLeaf, Pte.IsBranch, ClaimedFrames;
    ClaimedFacts(s, a, {dest});
    FlatCopied(a, top, copies, p, dest, lo, i, w);
    ClaimedFramesTrans(s, a, b, {dest}, {dest});
    SameFindsTrans(s, a, b, top);
  }

  /** One turn at a branch: the entry is copied with the new table's frame, the table below it by the recursion. */
  lemma CloneBranch(a: State, b: State, top: Level, copies: map<Path, nat>, below: map<Path, nat>,
                    p: Path, dest: nat, lo: nat, i: nat, f: nat)
    requires a.Ok(top) && p in a.tabs && dest in a.data && lo <= i < 512 && dest in a.frames && dest in b.frames
    requires Copied(View(a.frames), a.tabs, copies, p, dest, lo, i) && copies.Values <= a.data
    requires a.tabs[p] in a.frames && Decode(a.frames[a.tabs[p]][i]).IsBranch()
    requires Copied(View(b.frames), a.tabs, below, p + [i], f, 0, 512)
    requires f in a.free && f < TWO_44 && forall g | g in below.Values :: g in a.free
    requires ClaimedFrames(a, b, {dest})
    requires var e := Decode(a.frames[a.tabs[p]][i]).(ppn := f);
      Encode(e) < TWO_64 && b.frames[dest] == a.frames[dest][i := Encode(e)]
    ensures Copied(View(b.frames), a.tabs, Merge(copies, p + [i], f, below), p, dest, lo, i + 1)
    ensures Merge(copies, p + [i], f, below).Values == copies.Values + {f} + below.Values
  {
    hide Decode, Encode, Forest, Copied, View;
    var e := Decode(a.frames[a.tabs[p]][i]).(ppn := f);
    EncodeDecode(a.frames[a.tabs[p]][i]);
    DecodeEncode(e);
    ViewRow(a.frames, b.frames, dest, i, Encode(e));
    CopiedDest(View(a.frames), a.tabs, copies, p, dest, lo, i);
    ViewAgree(a.frames, b.frames, a.tabs.Values + copies.Values);
    CopiedBranch(View(a.frames), View(b.frames), top, a.roots, a.tabs, copies, below, p, dest, lo, i, f);
  }

  lemma CloningFacts(s: State, b: State, top: Level, copies: map<Path, nat>, p: Path, dest: nat, lo: nat, i: nat)
    requires lo <= i <= 512 && Cloning(s, b, top, copies, p, dest, lo, i)
    ensures p in s.tabs && s.tabs[p] in b.frames && dest in b.data && dest in b.frames && b.tabs == s.tabs
    ensures ClaimedFrames(s, b, {dest}) && SameFinds(s, b, top)
  {
  }

  lemma CloneDeepFrames(s: State, a: State, mid: State, b: State, top: Level, dest: nat, f: nat)
    requires a.Ok(top) && dest in a.data && f in a.free && f !in mid.free && dest in mid.frames
    requires ClaimedFrames(s, a, {dest}) && ClaimedFrames(a, mid, {dest}) && ClaimedFrames(mid, b, {f})
    ensures ClaimedFrames(a, b, {dest}) && ClaimedFrames(s, b, {dest})
    ensures dest in b.frames && b.frames[dest] == mid.frames[dest]
    ensures a.tabs == s.tabs == mid.tabs && s.frames.Keys == a.frames.Keys
    ensures (forall g | g in mid.free :: g in a.free) && (forall g | g in a.free :: g in s.free)
  {
    hide Forest, View;
    ClaimedFramesTrans(a, mid, b, {dest}, {f});
    ClaimedFramesTrans(s, a, b, {dest}, {dest});
  }

  /** The same turn, from the state `a` at its start over `mid`, where the new table is claimed and entered, to `b`. */
  lemma CloneDeep(s: State, a: State, mid: State, b: State, top: Level, copies: map<Path, nat>, below: map<Path, nat>,
                  p: Path, dest: nat, lo: nat, i: nat, f: nat)
    requires a.Ok(top) && lo <= i < 512 && Cloning(s, a, top, copies, p, dest, lo, i) && a.tabs[p] in a.frames
    requires Decode(a.frames[a.tabs[p]][i]).IsBranch() && f in a.free && f !in mid.free && f < TWO_44
    requires ClaimedFrames(a, mid, {dest}) && SameFinds(a, mid, top) && mid.data == a.data + {f} && dest in mid.frames
    requires var e := Decode(a.frames[a.tabs[p]][i]).(ppn := f);
      Encode(e) < TWO_64 && mid.frames[dest] == a.frames[dest][i := Encode(e)]
    requires Cloning(mid, b, top, below, p + [i], f, 0, 512)
    ensures Cloning(s, b, top, Merge(copies, p + [i], f, below), p, dest, lo, i + 1)
  {
    hide Decode, Encode, Forest, Copied, View, SameFinds, ClaimedFrames, Separate;
    CloneDeepFrames(s, a, mid, b, top, dest, f);
    SameFindsTrans(s, a, mid, top);
    SameFindsTrans(s, mid, b, top);
    CloneBranch(a, b, top, copies, below, p, dest, lo, i, f);
  }

  /** The state once a copy is taken up as an address space of its own. */
  ghost function Adopt(b: State, copies: map<Path, nat>, source: nat, dest: nat): State
    requires From(WithStart(copies, [source], dest), source)
  {
    b.(roots := b.roots + {dest}, tabs := b.tabs + MovedTabs(WithStart(copies, [source], dest), source, dest),
       data := b.data - copies.Values - {dest})
  }

  lemma CloningParts(s: State, b: State, top: Level, copies: map<Path, nat>, p: Path, dest: nat, lo: nat, i: nat)
    requires lo <= i <= 512 && Cloning(s, b, top, copies, p, dest, lo, i)
    requires Separate(s.frames, s.tabs.Values, s.free, s.data, s.orphans)
    ensures b.tabs == s.tabs && b.roots == s.roots && b.data == s.data + copies.Values
    ensures dest in s.data && dest in b.frames
    ensures Copied(View(b.frames), b.tabs, copies, p, dest, lo, i) && p !in copies
    ensures SameFinds(s, b, top) && dest !in copies.Values
    ensures forall g | g in copies.Values :: g !in s.data
  {
    hide View, SameFinds, CopiedTable;
    assert !Under(p, p, lo, i);
  }

  lemma AdoptSeparate(b: State, c: State, moved: map<Path, nat>, claimed: set<nat>)
    requires Separate(b.frames, b.tabs.Values, b.free, b.data, b.orphans)
    requires moved.Values == claimed <= b.data && forall q | q in moved :: q !in b.tabs
    requires c == b.(roots := c.roots, tabs := b.tabs + moved, data := b.data - claimed)
    ensures Separate(c.frames, c.tabs.Values, c.free, c.data, c.orphans) && c.Pool() == b.Pool()
  {
    UnionValues(b.tabs, moved);
  }

  lemma AdoptFrames(s: State, b: State, top: Level, copies: map<Path, nat>, source: nat, dest: nat, lo: nat, hi: nat)
    requires s.Ok(top) && b.Ok(top) && source in s.roots && lo <= hi <= 512
    requires dest in b.frames && Cloning(s, b, top, copies, [source], dest, lo, hi)
    ensures From(WithStart(copies, [source], dest), source)
    ensures var c := Adopt(b, copies, source, dest);
      && Separate(c.frames, c.tabs.Values, c.free, c.data, c.orphans)
      && c.Pool() == b.Pool() && c.data == s.data - {dest} && dest !in s.roots
    ensures forall p | p in b.tabs :: var c := Adopt(b, copies, source, dest); p in c.tabs && c.tabs[p] == b.tabs[p]
  {
    hide View, Copied, SameFinds, Cloning, Forest, From, MovedTabs, WithStart;
    CloningParts(s, b, top, copies, [source], dest, lo, hi);
    var m := View(b.frames);
    assert forall g | g in copies.Values + {dest} :: g !in b.tabs.Values;
    CopiesFrom(b.tabs, m, copies, source, dest, lo, hi);
    var full := WithStart(copies, [source], dest);
    StartValues(copies, [source], dest);
    MovedValues(full, source, dest);
    var moved := MovedTabs(full, source, dest);
    TableRoots(m, top, b.roots, b.tabs);
    forall q | q in moved
      ensures q !in b.tabs
    {
      MovedStart(b.tabs, m, copies, source, dest, lo, hi, q);
      TableRoot(m, top, b.roots, b.tabs, q);
    }
    var c := Adopt(b, copies, source, dest);
    assert c.data == b.data - (copies.Values + {dest});
    AdoptSeparate(b, c, moved, copies.Values + {dest});
  }

  /**
   * The copy under `dest` is a tree like any other, and shares no frame with the trees that were there before,
   * exactly if the entries of `dest` outside the copied range are clean and lead to no table.
   */
  lemma AdoptCopy(s: State, b: State, top: Level, copies: map<Path, nat>, source: nat, dest: nat, lo: nat, hi: nat)
    requires s.Ok(top) && b.Ok(top) && source in s.roots && lo <= hi <= 512
    requires dest in b.frames && Cloning(s, b, top, copies, [source], dest, lo, hi)
    ensures From(WithStart(copies, [source], dest), source)
    ensures Adopt(b, copies, source, dest).Ok(top) <==> Childless(View(b.frames)[dest], lo, hi)
  {
    hide View, Copied, SameFinds, Cloning, Forest, From, MovedTabs, WithStart, Childless;
    AdoptFrames(s, b, top, copies, source, dest, lo, hi);
    CloningParts(s, b, top, copies, [source], dest, lo, hi);
    var m := View(b.frames);
    assert forall g | g in copies.Values + {dest} :: g !in b.tabs.Values;
    if Childless(m[dest], lo, hi) {
      CopiedTree(m, top, b.roots, b.tabs, copies, source, dest, lo, hi);
      var full := WithStart(copies, [source], dest);
      StartValues(copies, [source], dest);
      MovedValues(full, source, dest);
      ForestUnion(m, top, b.roots, b.tabs, {dest}, MovedTabs(full, source, dest));
    }
    if Adopt(b, copies, source, dest).Ok(top) {
      OnlyIfChildless(m, top, b.roots, b.tabs, b.roots + {dest}, copies, source, dest, lo, hi);
    }
  }

  lemma UnionValues(tabs: map<Path, nat>, tabs': map<Path, nat>)
    requires forall q | q in tabs' :: q !in tabs
    ensures (tabs + tabs').Values == tabs.Values + tabs'.Values
  {
    var all := tabs + tabs';
    assert forall q | q in tabs :: all[q] == tabs[q];
    assert forall q | q in tabs' :: all[q] == tabs'[q];
  }

  lemma TableRoots(m: Tables, top: Level, roots: set<nat>, tabs: map<Path, nat>)
    requires Forest(m, top, roots, tabs)
    ensures forall r | r in roots :: r in tabs.Values
  {
    forall r | r in roots
      ensures r in tabs.Values
    {
      assert tabs[[r]] == r;
    }
  }

  /**
   * What is found after a copy is taken up: in the copied range what its source finds, elsewhere what the entries of
   * the claimed frame say, unless they lead on.
   */
  lemma AdoptFinds(s: State, b: State, top: Level, copies: map<Path, nat>, source: nat, dest: nat, lo: nat, hi: nat,
                   va: Word)
    requires s.Ok(top) && b.Ok(top) && source in s.roots && lo <= hi <= 512
    requires dest in b.frames && Cloning(s, b, top, copies, [source], dest, lo, hi)
    ensures var i := Index(va, top);
      && (lo <= i < hi ==> b.Find(top, dest, va) == s.Find(top, source, va))
      && (!(lo <= i < hi) && !View(b.frames)[dest][i].IsBranch() ==>
            b.Find(top, dest, va) == Stop(View(b.frames)[dest][i], top))
  {
    hide View, Copied, Index, Cloning, Forest, Walk, WalkPath, Separate, Stop;
    CloningParts(s, b, top, copies, [source], dest, lo, hi);
    RootTable(View(b.frames), top, b.roots, b.tabs, source, va);
    if lo <= Index(va, top) < hi {
      CopiedWalk(View(b.frames), top, b.roots, b.tabs, copies, source, dest, lo, hi, va, 0);
      assert b.Find(top, source, va) == s.Find(top, source, va);
    } else if !View(b.frames)[dest][Index(va, top)].IsBranch() {
      StopsHere(View(b.frames), dest, top, va);
    }
  }

  lemma StopsHere(m: Tables, table: nat, level: Level, va: Word)
    requires table in m && !m[table][Index(va, level)].IsBranch()
    ensures Walk(m, table, level, va) == Stop(m[table][Index(va, level)], level)
  {
    hide Index;
  }

  // The lower half of a frame taken for a root, from entry `from` on

  /** Clean entries that lead to no table. */
  ghost predicate Childfree(f: Frame, from: nat) {
    forall i | from <= i < 256 :: var e := Decode(f[i]); e.Clean() && !e.IsBranch()
  }

  /** Clean entries that are neither branches nor leaves. */
  ghost predicate Inert(f: Frame, from: nat) {
    forall i | from <= i < 256 :: var e := Decode(f[i]); e.Clean() && !e.IsBranch() && !e.IsLeaf()
  }

  /** No valid entry that is neither a leaf nor a branch. */
  ghost predicate Lively(f: Frame, from: nat) {
    forall i | from <= i < 256 :: var e := Decode(f[i]); e.valid ==> e.IsLeaf() || e.IsBranch()
  }

  /**
   * Between `a` and `b` the frame `root` was made a root that finds in the upper half what `source` finds. Its lower
   * half is that of the frame as it was: the address spaces are in order exactly if it has clean entries that lead
   * to no table, and what it maps stays mapped.
   */
  ghost predicate SpaceAdded(a: State, b: State, top: Level, source: nat, root: nat) {
    && b.frames.Keys == a.frames.Keys && b.Pool() == a.Pool() && b.orphans == a.orphans && b.data == a.data
    && root in a.frames && root in a.free && root !in a.roots && b.roots == a.roots + {root}
    && (forall p | p in a.tabs :: p in b.tabs && b.tabs[p] == a.tabs[p])
    && (forall g | g in a.frames && g !in a.free :: b.frames[g] == a.frames[g])
    && (forall r, va | r in a.roots :: b.Find(top, r, va) == a.Find(top, r, va))
    && (forall va | Index(va, top) >= 256 :: b.Find(top, root, va) == a.Find(top, source, va))
    && (forall va | Index(va, top) < 256 && !Decode(a.frames[root][Index(va, top)]).IsBranch() ::
          b.Find(top, root, va) == Stop(Decode(a.frames[root][Index(va, top)]), top))
    && (b.Ok(top) <==> Childfree(a.frames[root], 0))
    && (a.Alive() && Lively(a.frames[root], 0) ==> b.Alive())
  }

  /** The new space finds nothing in its lower half. */
  ghost predicate NothingBelow(s: State, top: Level, root: nat) {
    forall va | Index(va, top) < 256 :: s.Find(top, root, va) == Missing
  }

  lemma AddressAt(i: nat, top: Level) returns (va: Word)
    requires i < 256
    ensures Index(va, top) == i
  {
    match top {
      case 1 => va := 0x1000 * i;
      case 2 => va := 0x20_0000 * i;
      case 3 => va := 0x4000_0000 * i;
      case 4 => va := 0x80_0000_0000 * i;
      case 5 => va := 0x1_0000_0000_0000 * i;
    }
  }

  /** The new space is in order and finds nothing in its lower half exactly if the claimed frame held nothing there. */
  lemma NothingBelowIff(a: State, b: State, top: Level, source: nat, root: nat)
    requires SpaceAdded(a, b, top, source, root)
    ensures b.Ok(top) && NothingBelow(b, top, root) <==> Inert(a.frames[root], 0)
  {
    hide State.Find, State.Ok, State.Alive, State.Pool, Decode, Index;
    if b.Ok(top) && NothingBelow(b, top, root) {
      forall i | 0 <= i < 256
        ensures var e := Decode(a.frames[root][i]); e.Clean() && !e.IsBranch() && !e.IsLeaf()
      {
        var va := AddressAt(i, top);
        assert b.Find(top, root, va) == Stop(Decode(a.frames[root][i]), top);
      }
    }
  }

  lemma SpaceInOrder(a: State, b: State, top: Level, source: nat, root: nat)
    requires SpaceAdded(a, b, top, source, root)
    ensures b.Ok(top) <==> Childfree(a.frames[root], 0)
  {
    hide State.Ok, State.Find, State.Alive, Childfree, Lively;
  }

  /** The lower half of the root is still what the frame held. */
  lemma LowerHalfKept(a: State, b: State, top: Level, copies: map<Path, nat>, p: Path, root: nat)
    requires Cloning(a, b, top, copies, p, root, 256, 512) && root in a.frames
    ensures root in b.frames && (Childless(View(b.frames)[root], 256, 512) <==> Childfree(a.frames[root], 0))
    ensures Lively(a.frames[root], 0) ==> AliveOutside(View(b.frames)[root], 256, 512)
    ensures forall i | 0 <= i < 256 :: View(b.frames)[root][i] == Decode(a.frames[root][i])
  {
    hide Decode, Copied, SameFinds, Pte.IsLeaf, Pte.IsBranch, Pte.Clean;
    var t := View(b.frames)[root];
    assert forall i | 0 <= i < 256 :: t[i] == Decode(a.frames[root][i]);
    assert forall i | 0 <= i < 512 && !(256 <= i < 512) :: t[i] == Decode(a.frames[root][i]);
  }

  lemma NewSpace(a: State, m: State, b: State, top: Level, copies: map<Path, nat>, source: nat, root: nat)
    requires a.Ok(top) && m.Ok(top) && b.Ok(top) && source in a.roots && root in a.free && root !in a.data
    requires ClaimedFrames(a, m, {}) && SameFinds(a, m, top) && m.data == a.data + {root}
    requires root in a.frames && m.frames[root] == a.frames[root]
    requires Cloning(m, b, top, copies, [source], root, 256, 512)
    ensures From(WithStart(copies, [source], root), source)
    ensures SpaceAdded(a, Adopt(b, copies, source, root), top, source, root)
  {
    hide View, Copied, Index, Cloning, Forest, Childless, Separate, From, MovedTabs, WithStart, State.Find, Childfree,
      Lively, ClaimedFrames, SameFinds, State.Alive, State.Ok, Decode, Pte.IsBranch, Stop;
    CloningFacts(m, b, top, copies, [source], root, 256, 512);
    NewSpaceFrames(a, m, b, root);
    LowerHalfKept(m, b, top, copies, [source], root);
    AdoptFrames(m, b, top, copies, source, root, 256, 512);
    AdoptCopy(m, b, top, copies, source, root, 256, 512);
    var c := Adopt(b, copies, source, root);
    assert c.data == a.data;
    NewSpaceAlive(a, m, b, top, copies, source, root);
    forall va
      ensures Index(va, top) >= 256 ==> c.Find(top, root, va) == a.Find(top, source, va)
      ensures Index(va, top) < 256 && !Decode(a.frames[root][Index(va, top)]).IsBranch() ==>
        c.Find(top, root, va) == Stop(Decode(a.frames[root][Index(va, top)]), top)
    {
      SameFind(b, c, top, root, va);
      AdoptFinds(m, b, top, copies, source, root, 256, 512, va);
      SameFindsAt(a, m, top, source, va);
    }
    forall r, va | r in a.roots
      ensures c.Find(top, r, va) == a.Find(top, r, va)
    {
      SameFind(b, c, top, r, va);
      SameFindsAt(a, m, top, r, va);
      SameFindsAt(m, b, top, r, va);
    }
  }

  lemma NewSpaceAlive(a: State, m: State, b: State, top: Level, copies: map<Path, nat>, source: nat, root: nat)
    requires a.Ok(top) && root in a.free && root !in a.data
    requires ClaimedFrames(a, m, {}) && m.data == a.data + {root}
    requires Cloning(m, b, top, copies, [source], root, 256, 512) && root in b.frames
    requires root in m.frames && (Lively(m.frames[root], 0) ==> AliveOutside(View(b.frames)[root], 256, 512))
    requires From(WithStart(copies, [source], root), source)
    ensures a.Alive() && Lively(m.frames[root], 0) ==> Adopt(b, copies, source, root).Alive()
  {
    hide View, Copied, Forest, From, MovedTabs, WithStart, AliveTable, AliveOutside, Lively;
    if a.Alive() && Lively(m.frames[root], 0) {
      ViewAgree(a.frames, b.frames, a.tabs.Values);
      AliveFrame(View(a.frames), View(b.frames), a.tabs);
      AliveCopies(View(b.frames), top, b.tabs, copies, source, root, 256, 512);
    }
  }

  lemma SameFind(a: State, b: State, top: Level, r: nat, va: Word)
    requires a.frames == b.frames
    ensures a.Find(top, r, va) == b.Find(top, r, va)
  {
  }

  lemma SameFindsAt(a: State, b: State, top: Level, r: nat, va: Word)
    requires SameFinds(a, b, top) && r in a.roots
    ensures b.roots == a.roots && b.Find(top, r, va) == a.Find(top, r, va)
  {
  }

  lemma NewSpaceFrames(a: State, m: State, b: State, root: nat)
    requires ClaimedFrames(a, m, {}) && ClaimedFrames(m, b, {root}) && root in a.free
    ensures b.frames.Keys == a.frames.Keys && b.Pool() == a.Pool() && b.orphans == a.orphans
    ensures b.tabs == a.tabs && b.roots == a.roots
    ensures m.roots == a.roots
    ensures forall g | g in a.frames && g !in a.free :: b.frames[g] == a.frames[g]
  {
    assert forall g | g in m.free :: g in a.free;
  }

  lemma CopiedDest(m: Tables, tabs: map<Path, nat>, copies: map<Path, nat>, p: Path, dest: nat, lo: nat, hi: nat)
    requires lo <= hi <= 512 && Copied(m, tabs, copies, p, dest, lo, hi)
    ensures dest !in copies.Values
  {
  }
}

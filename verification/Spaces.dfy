/**
 * What the address spaces own at one moment, and how one step changes it: all proofs about states, none about
 * objects.
 */
module Spaces {
  import opened PageEntries
  import opened Addresses
  import opened PageTables
  import opened PhysicalMemory
  import opened Pmm
  import opened Routes

  /** The entry `map` writes at its target level. */
  function LeafEntry(ppn: nat, flags: PageFlags): Pte {
    ZERO_PTE.(ppn := ppn).OrFlags(flags).(valid := true)
  }

  lemma EntryKinds(e: Pte)
    ensures e.IsLeaf() || e.IsBranch() ==> e.valid && e.Clean()
    ensures !(e.IsLeaf() && e.IsBranch())
  {
  }

  lemma LeafEntryKind(f: nat, flags: PageFlags)
    requires f < TWO_44
    ensures var e := LeafEntry(f, flags);
      && e.Fits() && e.Clean() && e.ppn == f
      && (e.IsLeaf() <==> flags.Accessible())
      && (e.IsBranch() <==> !flags.Accessible() && !flags.user)
  {
    ZeroBits(2);
    var two := [flags.nc, flags.io];
    FromBitsBound(two);
    Widths();
  }

  /** The fields of the entry `map` writes. */
  lemma LeafFields(f: nat, flags: PageFlags)
    ensures LeafEntry(f, flags) ==
      Pte(true, flags.read, flags.write, flags.execute, flags.user, flags.global, false, false, 0, f, 0,
          Bit(flags.nc) + 2 * Bit(flags.io), false)
    ensures ToBits(LeafEntry(f, flags).pbmt, 2) == [flags.nc, flags.io]
  {
    ZeroBits(2);
    var two := [flags.nc, flags.io];
    ToFromBits(two);
    OneMoreBit(flags.nc, [flags.io]);
    LastBit(flags.io);
    assert [flags.nc] + [flags.io] == two;
  }

  /** The entry `map` writes, as a number. */
  lemma LeafNumber(f: nat, flags: PageFlags)
    requires f < TWO_44
    ensures Encode(LeafEntry(f, flags)) ==
      1 + 2 * Bit(flags.read) + 4 * Bit(flags.write) + 8 * Bit(flags.execute) + 16 * Bit(flags.user)
      + 32 * Bit(flags.global) + 0x400 * f + 0x2000_0000_0000_0000 * Bit(flags.nc)
      + 0x4000_0000_0000_0000 * Bit(flags.io)
  {
    hide Encode, FromBits, ToBits, Pow2, LeafEntry;
    LeafFields(f, flags);
    EntryNumber(LeafEntry(f, flags));
  }

  /** The bits of the entry `map` writes. */
  lemma LeafBits(f: nat, flags: PageFlags)
    requires f < TWO_44
    ensures var e := LeafEntry(f, flags);
      && Encode(e) < TWO_64
      && ToBits(Encode(e), 64) ==
         [true, flags.read, flags.write, flags.execute, flags.user, flags.global, false, false]
         + ToBits(0, 2) + ToBits(f, 44) + ToBits(0, 7) + [flags.nc, flags.io] + [false]
  {
    LeafEntryKind(f, flags);
    LeafFields(f, flags);
    var e := LeafEntry(f, flags);
    DecodeEncode(e);
    ToFromBits(EntryBits(e));
    hide FromBits, ToBits, Pow2, LeafEntry, Pte.Fits;
    assert ToBits(Encode(e), 64) == EntryBits(e);
  }

  /** The word `map` writes is the one its flags and its physical address ask for. */
  lemma LeafWord(phys: Word, flags: PageFlags)
    ensures var w := Encode(LeafEntry(PpnOf(phys), flags)); w < TWO_64 && MapWord(w, phys, flags)
  {
    hide FromBits, ToBits, Pow2, LeafEntry, Encode;
    var f := PpnOf(phys);
    LeafNumber(f, flags);
    LeafBits(f, flags);
    ZeroBits(2);
    ZeroBits(7);
    var low := [true, flags.read, flags.write, flags.execute, flags.user, flags.global, false, false];
    var bits := low + ToBits(0, 2) + ToBits(f, 44) + ToBits(0, 7) + [flags.nc, flags.io] + [false];
    Seams(low, ToBits(0, 2), ToBits(f, 44), ToBits(0, 7), [flags.nc, flags.io], [false]);
    assert bits[..8] == low && bits[8..10] == ToBits(0, 2) && bits[54..61] == ToBits(0, 7);
    assert bits[61..63] == [flags.nc, flags.io] && bits[63..] == [false];
    assert forall k | 0 <= k < 8 :: bits[k] == bits[..8][k];
  }

  /** `Ok` with the physical address, or the error "Table not found". */
  datatype Translation = Ok(addr: nat) | Err

  function AddressOf(f: Found, va: Word): Translation {
    if f.Hit? then Ok(LeafAddress(f.entry.ppn, f.level, va)) else Err
  }

  /** All frames a list holds. */
  ghost function Members(s: seq<nat>): set<nat> {
    set f | f in s
  }

  /** Two memories that agree on the tables of a forest have the same forest and the same walks. */
  lemma SameTables(m: Frames, m': Frames, top: Level, roots: set<nat>, tabs: map<Path, nat>)
    requires Forest(View(m), top, roots, tabs)
    requires forall f | f in tabs.Values :: f in m && f in m' && m'[f] == m[f]
    ensures Forest(View(m'), top, roots, tabs)
    ensures forall r, va | r in roots :: Walk(View(m'), r, top, va) == Walk(View(m), r, top, va)
  {
    hide Decode, Walk, GoodTable, Linked;
    forall p | p in tabs
      ensures tabs[p] in View(m') && View(m')[tabs[p]] == View(m)[tabs[p]]
    {
      assert tabs[p] in tabs.Values;
      ViewSame(m, m', tabs[p]);
    }
    ForestFrame(View(m), View(m'), top, roots, tabs);
    forall r, va | r in roots
      ensures Walk(View(m'), r, top, va) == Walk(View(m), r, top, va)
    {
      assert WalkPath(r, va, top, 0) == [r] && tabs[[r]] == r;
      WalkFrame(View(m), View(m'), top, roots, tabs, r, va, 0);
    }
  }

  /** Writing a leaf or an empty entry in the forest changes the walks that pass it, and no other. */
  lemma SetEntry(m: Frames, top: Level, roots: set<nat>, tabs: map<Path, nat>, p: Path, i: nat, e: Pte)
    requires Forest(View(m), top, roots, tabs)
    requires p in tabs && i < 512 && !e.IsBranch() && e.Clean() && e.Fits() && Encode(e) < TWO_64
    ensures |p| <= top && tabs[p] in m
    ensures var m' := Poke(m, tabs[p], i, Encode(e));
      && Forest(View(m'), top, roots, Prune(tabs, p + [i]))
      && forall r, va | r in roots :: Walk(View(m'), r, top, va) ==
           (if Passes(r, va, top, p + [i]) then Stop(e, top + 1 - |p|) else Walk(View(m), r, top, va))
  {
    hide Decode, Encode, Walk, Passes, Stop;
    assert tabs[p] in View(m);
    var m' := Poke(m, tabs[p], i, Encode(e));
    ViewWrite(m, tabs[p], i, Encode(e));
    DecodeEncode(e);
    WriteEnd(View(m), View(m'), top, roots, tabs, p, i, e);
    forall r, va | r in roots
      ensures Walk(View(m'), r, top, va) ==
           (if Passes(r, va, top, p + [i]) then Stop(e, top + 1 - |p|) else Walk(View(m), r, top, va))
    {
      EndEffect(View(m), View(m'), top, roots, tabs, p, i, e, r, va);
    }
  }

  /** Hanging the cleared frame `f` under an unused entry keeps the forest and all walks. */
  lemma HangTable(m: Frames, top: Level, roots: set<nat>, tabs: map<Path, nat>, p: Path, i: nat, e: Pte, f: nat)
    requires Forest(View(m), top, roots, tabs)
    requires p in tabs && |p| < top && i < 512 && f in m && f !in tabs.Values && f < TWO_44
    requires m[f] == seq(512, j => 0)
    requires tabs[p] in m && e == Decode(m[tabs[p]][i]) && !e.valid
    ensures p + [i] !in tabs && e.Clean()
    ensures
      var w := Encode(e.(ppn := f, valid := true));
      && w < TWO_64
      && var m' := Poke(m, tabs[p], i, w);
      && Forest(View(m'), top, roots, tabs[p + [i] := f])
      && forall r, va | r in roots :: Walk(View(m'), r, top, va) == Walk(View(m), r, top, va)
  {
    hide Decode, Encode, Walk, View, Linked;
    EncodeDecode(m[tabs[p]][i]);
    var e' := e.(ppn := f, valid := true);
    DecodeEncode(e');
    var m' := Poke(m, tabs[p], i, Encode(e'));
    ViewWrite(m, tabs[p], i, Encode(e'));
    assert GoodTable(View(m), tabs, p) && GoodEntry(View(m)[tabs[p]][i], tabs, p + [i]);
    DecodeZero();
    assert forall j | 0 <= j < 512 :: View(m)[f][j] == ZERO_PTE;
    WriteBranch(View(m), View(m'), top, roots, tabs, p, i, e', f);
    forall r, va | r in roots
      ensures Walk(View(m'), r, top, va) == Walk(View(m), r, top, va)
    {
      BranchEffect(View(m), View(m'), top, roots, tabs, p, i, e', f, r, va);
    }
  }

  lemma AliveSet(m: Frames, tabs: map<Path, nat>, p: Path, i: nat, e: Pte)
    requires p in tabs && tabs[p] in m && i < 512 && e.Fits() && Encode(e) < TWO_64
    ensures Alive(View(m), tabs) && (e.valid ==> e.IsLeaf()) ==>
      Alive(View(Poke(m, tabs[p], i, Encode(e))), Prune(tabs, p + [i]))
  {
    hide Decode, Encode, View;
    DecodeEncode(e);
    ViewWrite(m, tabs[p], i, Encode(e));
    if Alive(View(m), tabs) && (e.valid ==> e.IsLeaf()) {
      AliveWrite(View(m), tabs, Prune(tabs, p + [i]), tabs[p], i, e);
    }
  }

  /** Hanging a cleared table: `m0` is memory before the claim, `m` after the clearing. */
  lemma AliveHang(m0: Frames, m: Frames, tabs: map<Path, nat>, p: Path, i: nat, f: nat)
    requires p in tabs && i < 512 && f in m && f < TWO_44 && m[f] == seq(512, j => 0)
    requires forall g | g in tabs.Values :: g in m && g in m0 && m[g] == m0[g]
    requires tabs[p] in m && !Decode(m[tabs[p]][i]).valid && Decode(m[tabs[p]][i]).Clean()
    ensures var w := Encode(Decode(m[tabs[p]][i]).(ppn := f, valid := true));
      w < TWO_64 && (Alive(View(m0), tabs) ==> Alive(View(Poke(m, tabs[p], i, w)), tabs[p + [i] := f]))
  {
    hide Decode, Encode, View;
    EncodeDecode(m[tabs[p]][i]);
    var e := Decode(m[tabs[p]][i]).(ppn := f, valid := true);
    DecodeEncode(e);
    ViewWrite(m, tabs[p], i, Encode(e));
    DecodeZero();
    if Alive(View(m0), tabs) {
      ViewAgree(m0, m, tabs.Values);
      AliveFrame(View(m0), View(m), tabs);
      AliveWrite(View(m), tabs, tabs[p + [i] := f], tabs[p], i, e);
    }
  }

  /** Tables, free frames, claimed frames and lost tables never overlap and all lie in memory. */
  ghost predicate Separate(m: Frames, tables: set<nat>, free: seq<nat>, data: set<nat>, orphans: set<nat>) {
    && (forall f | f in tables :: f in m && f !in free && f !in data && f !in orphans)
    && (forall f | f in free :: f in m && f !in data && f !in orphans)
    && (forall f | f in data :: f in m && f !in orphans)
    && (forall f | f in orphans :: f in m)
  }

  /** The head of the free list becomes the table at `child`. */
  lemma SeparateTake(m: Frames, tabs: map<Path, nat>, free: seq<nat>, data: set<nat>, orphans: set<nat>, child: Path)
    requires Separate(m, tabs.Values, free, data, orphans) && |free| > 0 && free[0] !in free[1..] && child !in tabs
    ensures var tabs' := tabs[child := free[0]];
      && tabs'.Values == tabs.Values + {free[0]}
      && Separate(m, tabs'.Values, free[1..], data, orphans)
  {
    var tabs' := tabs[child := free[0]];
    assert tabs'[child] == free[0];
    forall p | p in tabs
      ensures tabs[p] in tabs'.Values
    {
      assert tabs'[p] == tabs[p];
    }
  }

  /** Tables cut off by an overwritten entry become orphans. */
  lemma SeparateLose(m: Frames, m': Frames, tabs: map<Path, nat>, free: seq<nat>, data: set<nat>, orphans: set<nat>,
                     child: Path)
    requires Separate(m, tabs.Values, free, data, orphans) && m.Keys == m'.Keys
    ensures var rest := Prune(tabs, child);
      && rest.Values <= tabs.Values
      && Separate(m', rest.Values, free, data, orphans + (tabs.Values - rest.Values))
  {
  }

  /** Everything the address spaces own, at one moment. */
  datatype State = State(frames: Frames, free: seq<nat>, roots: set<nat>, tabs: map<Path, nat>,
                         data: set<nat>, orphans: set<nat>)
  {
    ghost predicate Ok(top: Level) {
      Forest(View(frames), top, roots, tabs) && Separate(frames, tabs.Values, free, data, orphans)
    }

    /** Every frame under management. */
    ghost function Pool(): set<nat> {
      tabs.Values + Members(free) + data + orphans
    }

    /** No table has a valid entry that is neither a leaf nor a branch. */
    ghost predicate Alive() {
      PageTables.Alive(View(frames), tabs)
    }

    ghost function Find(top: Level, root: nat, va: Word): Found {
      Walk(View(frames), root, top, va)
    }

    /** What stands in the way of a page of size `target` at `va`. */
    ghost function InTheWay(top: Level, root: nat, va: Word, target: Level): Obstacle {
      ObstacleOf(View(frames), root, top, va, target)
    }

    ghost function RouteTo(top: Level, root: nat, va: Word, target: Level): (r: Route)
      ensures 1 <= |r.path| && r.path[0] == root && (target <= top ==> |r.path| <= top)
    {
      RouteOf(View(frames), root, [root], top, va, target)
    }
  }

  /**
   * Memory changed in tables and formerly free frames only, in frames still free only their links; the frames under
   * management are the same ones.
   */
  ghost predicate Accounted(a: State, b: State) {
    && b.frames.Keys == a.frames.Keys && b.roots == a.roots && b.data == a.data && b.Pool() == a.Pool()
    && a.orphans <= b.orphans
    && |b.free| <= |a.free| && b.free == a.free[|a.free| - |b.free|..]
    && (forall g | g in b.tabs.Values || g in b.free :: g in a.tabs.Values || g in a.free)
    && (forall g | g in a.frames && g !in a.tabs.Values && g !in a.free :: b.frames[g] == a.frames[g])
    && LinksOnly(a.frames, b.frames, b.free)
  }

  ghost predicate SameFinds(a: State, b: State, top: Level) {
    b.roots == a.roots && forall r, va | r in a.roots :: b.Find(top, r, va) == a.Find(top, r, va)
  }

  /** Every address space but `root` finds what it found. */
  ghost predicate OthersSame(a: State, b: State, top: Level, root: nat) {
    b.roots == a.roots && forall r, va | r in a.roots && r != root :: b.Find(top, r, va) == a.Find(top, r, va)
  }

  /** Tables were added, none removed. */
  ghost predicate MoreTables(a: State, b: State) {
    b.orphans == a.orphans && forall p | p in a.tabs :: p in b.tabs && b.tabs[p] == a.tabs[p]
  }

  /** The walks that pass entry `index` of the table at `path` now end at `e`; every other walk is as it was. */
  ghost predicate EntrySet(a: State, b: State, top: Level, path: Path, index: nat, e: Pte)
    requires |path| <= top
  {
    b.roots == a.roots && forall r, va | r in a.roots ::
      b.Find(top, r, va) == (if Passes(r, va, top, path + [index]) then Stop(e, top + 1 - |path|)
        else a.Find(top, r, va))
  }

  /** `virt`'s page of size `target` under `root` now ends at `e`; every other address finds what it found. */
  ghost predicate PageSet(a: State, b: State, top: Level, root: nat, virt: Word, target: Level, e: Pte) {
    forall r, va | r in a.roots ::
      b.Find(top, r, va) == (if r == root && SamePage(va, virt, top, target) then Stop(e, target)
        else a.Find(top, r, va))
  }

  /** The head of the free list becomes the table at `child`. */
  lemma TableAdded(a: State, b: State, child: Path)
    requires Separate(a.frames, a.tabs.Values, a.free, a.data, a.orphans) && child !in a.tabs
    requires |a.free| >= 2 && a.free[0] !in a.free[1..]
    requires b == State(b.frames, a.free[1..], a.roots, a.tabs[child := a.free[0]], a.data, a.orphans)
    requires b.frames.Keys == a.frames.Keys
    requires forall g | g in a.frames && g !in a.tabs.Values && g !in a.free :: b.frames[g] == a.frames[g]
    requires LinksOnly(a.frames, b.frames, b.free)
    ensures Accounted(a, b) && MoreTables(a, b)
    ensures Separate(b.frames, b.tabs.Values, b.free, b.data, b.orphans)
  {
    SeparateTake(b.frames, a.tabs, a.free, a.data, a.orphans, child);
    assert Members(a.free) == {a.free[0]} + Members(b.free);
  }

  /** Frames went from the free list to `data`; memory changed in `written` and formerly free frames only. */
  ghost predicate ClaimedFrames(a: State, b: State, written: set<nat>) {
    && b.frames.Keys == a.frames.Keys && b.roots == a.roots && b.tabs == a.tabs && b.orphans == a.orphans
    && b.Pool() == a.Pool() && a.data <= b.data
    && |b.free| <= |a.free| && b.free == a.free[|a.free| - |b.free|..]
    && (forall g | g in b.data && g !in a.data :: g in a.free)
    && (forall g | g in a.frames && g !in written && g !in a.free :: b.frames[g] == a.frames[g])
  }

  lemma ClaimedFramesTrans(a: State, b: State, c: State, w: set<nat>, v: set<nat>)
    requires ClaimedFrames(a, b, w) && ClaimedFrames(b, c, v)
    requires forall g | g in v :: g in w || g in a.free
    ensures ClaimedFrames(a, c, w)
  {
    assert c.free == a.free[|a.free| - |c.free|..];
  }

  lemma AccountedRefl(a: State)
    ensures Accounted(a, a) && MoreTables(a, a)
  {
  }

  lemma SameFindsRefl(a: State, top: Level)
    ensures SameFinds(a, a, top)
  {
  }

  lemma AccountedTrans(a: State, b: State, c: State)
    requires Accounted(a, b) && Accounted(b, c)
    ensures Accounted(a, c)
  {
    assert c.free == a.free[|a.free| - |c.free|..];
  }

  lemma SameTablesTrans(a: State, b: State, c: State)
    requires MoreTables(a, b) && c.tabs == b.tabs && c.orphans == b.orphans
    ensures MoreTables(a, c)
  {
  }

  lemma MoreTablesTrans(a: State, b: State, c: State)
    requires MoreTables(a, b) && MoreTables(b, c)
    ensures MoreTables(a, c)
  {
  }

  lemma SameFindsTrans(a: State, b: State, c: State, top: Level)
    requires SameFinds(a, b, top) && SameFinds(b, c, top)
    ensures SameFinds(a, c, top)
  {
    hide State.Find;
  }

  /** What changed for the walks that pass one entry, said for the addresses of its page. */
  lemma PageSetBy(a: State, b: State, c: State, top: Level, root: nat, virt: Word, target: Level, e: Pte, path: Path)
    requires SameFinds(a, b, top) && target <= top
    requires path == WalkPath(root, virt, top, top - target)
    requires EntrySet(b, c, top, path, Index(virt, target), e)
    ensures PageSet(a, c, top, root, virt, target, e)
  {
    hide State.Find, Passes, SamePage, Stop, Index;
    forall r, va | r in a.roots
      ensures c.Find(top, r, va) ==
        (if r == root && SamePage(va, virt, top, target) then Stop(e, target) else a.Find(top, r, va))
    {
      PassesSamePage(root, virt, top, target, r, va);
    }
  }

  lemma OthersSameBy(a: State, b: State, top: Level, root: nat)
    requires SameFinds(a, b, top)
    ensures OthersSame(a, b, top, root)
  {
  }

  /** An entry of one root's tables is on no walk from another root. */
  lemma OthersSameEntry(a: State, b: State, c: State, top: Level, root: nat, path: Path, index: nat, e: Pte)
    requires SameFinds(a, b, top) && 1 <= |path| <= top && path[0] == root && EntrySet(b, c, top, path, index, e)
    ensures OthersSame(a, c, top, root)
  {
    hide State.Find, Index;
    forall r, va | r in a.roots && r != root
      ensures c.Find(top, r, va) == a.Find(top, r, va)
    {
      assert !Passes(r, va, top, path + [index]);
    }
  }

  /**
   * Where `map` stands: on the table at `path`, with only `made` tables added since `start`, and with the rest of
   * its route before it.
   */
  ghost predicate Reached(start: State, now: State, top: Level, root: nat, virt: Word, target: Level,
                          level: Level, table: nat, path: Path, made: nat)
  {
    && target <= level <= top && Accounted(start, now) && MoreTables(start, now) && SameFinds(start, now, top)
    && (start.Alive() ==> now.Alive())
    && path in now.tabs && now.tabs[path] == table && table in now.frames
    && 1 <= |path| <= top - level + 1 && path[0] == root
    && |now.free| + made == |start.free|
    && start.RouteTo(top, root, virt, target) ==
       Further(RouteOf(View(now.frames), table, path, level, virt, target), made)
  }

  lemma ReachedRoot(s: State, top: Level, root: nat, virt: Word, target: Level)
    requires s.Ok(top) && root in s.roots && target <= top
    ensures Reached(s, s, top, root, virt, target, top, root, [root], 0)
  {
    hide Forest, View, Accounted, SameFinds, RouteOf, State.Alive;
    RootTable(View(s.frames), top, s.roots, s.tabs, root, virt);
    AccountedRefl(s);
    SameFindsRefl(s, top);
  }

  /** One turn of the loop that makes no table. */
  lemma ReachedNext(start: State, now: State, top: Level, root: nat, virt: Word, target: Level,
                    level: Level, table: nat, path: Path, made: nat, e: Pte)
    requires now.Ok(top) && level > target
    requires Reached(start, now, top, root, virt, target, level, table, path, made)
    requires e == Decode(now.frames[table][Index(virt, level)]) && e.valid && !e.IsLeaf()
    ensures e.IsBranch() ==>
      Reached(start, now, top, root, virt, target, level - 1, e.ppn, path + [Index(virt, level)], made)
    ensures !e.IsBranch() ==> Reached(start, now, top, root, virt, target, level - 1, table, path, made)
  {
    hide Decode, Forest, View, Index, Accounted, MoreTables, SameFinds, State.Alive, RouteOf, State.RouteTo;
    RouteStep(View(now.frames), table, path, level, virt, target);
    if e.IsBranch() { Child(View(now.frames), top, now.roots, now.tabs, path, Index(virt, level)); }
  }

  /** One turn of the loop that hangs a new table. */
  lemma ReachedNew(start: State, before: State, now: State, top: Level, root: nat, virt: Word, target: Level,
                   level: Level, table: nat, path: Path, made: nat, t: nat)
    requires level > target && Reached(start, before, top, root, virt, target, level, table, path, made)
    requires !Decode(before.frames[table][Index(virt, level)]).valid
    requires Accounted(before, now) && MoreTables(before, now) && SameFinds(before, now, top)
    requires (before.Alive() ==> now.Alive()) && |now.free| == |before.free| - 1
    requires path + [Index(virt, level)] in now.tabs && now.tabs[path + [Index(virt, level)]] == t
    requires t in now.frames && now.frames[t] == seq(512, j => 0)
    ensures Reached(start, now, top, root, virt, target, level - 1, t, path + [Index(virt, level)], made + 1)
  {
    hide Decode, View, Index, Accounted, MoreTables, SameFinds, State.Alive, RouteOf, State.RouteTo, Steps;
    RouteStep(View(before.frames), table, path, level, virt, target);
    StepsDown(path, virt, level, target);
    RouteCleared(now.frames, t, path + [Index(virt, level)], level - 1, virt, target);
    AccountedTrans(start, before, now);
    MoreTablesTrans(start, before, now);
    SameFindsTrans(start, before, now, top);
  }

  /** What stopping on the way means: the route is blocked here, or wants at least one table more. */
  lemma ReachedStop(start: State, now: State, top: Level, root: nat, virt: Word, target: Level,
                    level: Level, table: nat, path: Path, made: nat)
    requires Reached(start, now, top, root, virt, target, level, table, path, made)
    ensures Accounted(start, now) && MoreTables(start, now) && SameFinds(start, now, top)
    ensures OthersSame(start, now, top, root)
    ensures start.Alive() ==> now.Alive()
    ensures path in now.tabs && now.tabs[path] == table && table in now.frames && |path| <= top - level + 1
    ensures level > target ==>
      var e, r := Decode(now.frames[table][Index(virt, level)]), start.RouteTo(top, root, virt, target);
      && (e.IsLeaf() ==> r.blocked)
      && (!e.valid ==> !r.blocked && r.made > made && |now.free| + made == |start.free|)
    ensures level == target ==>
      start.RouteTo(top, root, virt, target) == Route(path, false, made) && |now.free| + made == |start.free|
  {
    hide Decode, View, Index, Accounted, MoreTables, State.Alive, RouteOf, State.RouteTo, SameFinds, OthersSame, Steps;
    OthersSameBy(start, now, top, root);
    if level == target {
      RouteEnd(View(now.frames), table, path, virt, target);
    } else {
      RouteStep(View(now.frames), table, path, level, virt, target);
    }
  }

  /** What writing the entry at the end of the route means. */
  lemma ReachedWritten(start: State, before: State, now: State, top: Level, root: nat, virt: Word, target: Level,
                       table: nat, path: Path, made: nat, e: Pte)
    requires start.Ok(top) && root in start.roots
    requires Reached(start, before, top, root, virt, target, target, table, path, made)
    requires Accounted(before, now) && |path| <= top && EntrySet(before, now, top, path, Index(virt, target), e)
    requires |path| == top ==> now.tabs == before.tabs && now.orphans == before.orphans
    ensures Accounted(start, now) && OthersSame(start, now, top, root)
    ensures EntrySet(start, now, top, path, Index(virt, target), e)
    ensures start.InTheWay(top, root, virt, target) == Clear ==>
      PageSet(start, now, top, root, virt, target, e) && (target == 1 ==> MoreTables(start, now))
    ensures e.IsLeaf() ==>
      (PageSet(start, now, top, root, virt, target, e) <==> start.InTheWay(top, root, virt, target) == Clear)
  {
    ReachedStop(start, before, top, root, virt, target, target, table, path, made);
    hide View, Index, Accounted, MoreTables, State.Alive, EntrySet, PageSet, OthersSame, SameFinds, State.RouteTo,
      State.InTheWay;
    AccountedTrans(start, before, now);
    OthersSameEntry(start, before, now, top, root, path, Index(virt, target), e);
    EntrySetAfter(start, before, now, top, path, Index(virt, target), e);
    WayKinds(start, top, root, virt, target);
    match start.InTheWay(top, root, virt, target)
    case Clear =>
      PageSetBy(start, before, now, top, root, virt, target, e, path);
      if target == 1 { SameTablesTrans(start, before, now); }
    case Dead =>
      if e.IsLeaf() { PageNotSet(start, now, top, root, virt, target, path, e); }
    case Leaf =>
  }

  /** What the kind of obstacle says about the route. */
  lemma WayKinds(s: State, top: Level, root: nat, virt: Word, target: Level)
    requires s.Ok(top) && root in s.roots && target <= top
    ensures var o, r := s.InTheWay(top, root, virt, target), s.RouteTo(top, root, virt, target);
      && (o == Leaf ==> r.blocked)
      && (o == Clear ==> !r.blocked && r.path == WalkPath(root, virt, top, top - target))
      && (o == Dead ==> |r.path| <= top - target && s.Find(top, root, virt) == Missing)
  {
    hide Forest, View, ObstacleOf, RouteOf, Walk, Index;
    var m := View(s.frames);
    RootTable(m, top, s.roots, s.tabs, root, virt);
    NeverFaults(m, top, s.roots, s.tabs, root, virt, 0);
    RouteObstructed(m, root, [root], top, virt, target);
    if s.InTheWay(top, root, virt, target) == Clear { RouteClear(m, root, root, virt, top, top, target); }
    if s.InTheWay(top, root, virt, target) == Dead { DeadMissing(m, root, top, virt, target); }
  }

  lemma EntrySetAfter(a: State, b: State, c: State, top: Level, path: Path, index: nat, e: Pte)
    requires |path| <= top && SameFinds(a, b, top) && EntrySet(b, c, top, path, index, e)
    ensures EntrySet(a, c, top, path, index, e)
  {
    hide State.Find;
  }

  /** A leaf written in a table too high up is not the page asked for. */
  lemma PageNotSet(a: State, b: State, top: Level, root: nat, virt: Word, target: Level, path: Path, e: Pte)
    requires root in a.roots && |path| <= top - target && a.Find(top, root, virt) == Missing && e.IsLeaf()
    requires EntrySet(a, b, top, path, Index(virt, target), e)
    ensures !PageSet(a, b, top, root, virt, target, e)
  {
    hide State.Find, Index;
    assert SamePage(virt, virt, top, target);
  }

  /** Entry `index` of the table at `path` is `e`. */
  ghost predicate EntryAt(a: State, path: Path, index: nat, e: Pte) {
    path in a.tabs && a.tabs[path] in a.frames && index < 512 && Decode(a.frames[a.tabs[path]][index]) == e
  }

  /** Entry `index` of the table at `path` holds the word asked for, bit for bit. */
  ghost predicate WordAt(a: State, path: Path, index: nat, phys: Word, flags: PageFlags) {
    path in a.tabs && a.tabs[path] in a.frames && index < 512 && MapWord(a.frames[a.tabs[path]][index], phys, flags)
  }

  lemma EntryWord(a: State, path: Path, index: nat, phys: Word, flags: PageFlags)
    requires EntryAt(a, path, index, LeafEntry(PpnOf(phys), flags))
    ensures WordAt(a, path, index, phys, flags)
  {
    hide Decode, Encode, LeafEntry, MapWord;
    EncodeDecode(a.frames[a.tabs[path]][index]);
    LeafWord(phys, flags);
  }

  /** The state after entry `index` of the table at `path` is overwritten; the tables it led to are lost. */
  ghost function WithSlot(a: State, path: Path, index: nat, e: Pte): State
    requires path in a.tabs && a.tabs[path] in a.frames && index < 512 && Encode(e) < TWO_64
  {
    var rest := Prune(a.tabs, path + [index]);
    a.(frames := Poke(a.frames, a.tabs[path], index, Encode(e)), tabs := rest,
       orphans := a.orphans + (a.tabs.Values - rest.Values))
  }

  /** A valid entry that is neither a leaf nor a branch: a page one size smaller ends up in the same table. */
  lemma DeadRoute(s: State, top: Level, root: nat, virt: Word, level: Level, e: Pte)
    requires s.Ok(top) && 2 <= level <= top && e.valid && !e.IsLeaf() && !e.IsBranch()
    requires EntryAt(s, WalkPath(root, virt, top, top - level), Index(virt, level), e)
    ensures root in s.roots && s.InTheWay(top, root, virt, level - 1) == Dead
    ensures s.RouteTo(top, root, virt, level - 1) == Route(WalkPath(root, virt, top, top - level), false, 0)
    ensures s.Find(top, root, virt) == Missing
  {
    hide Decode, Forest, View, ObstacleOf, RouteOf, Index, Walk, WalkPath;
    var p := WalkPath(root, virt, top, top - level);
    var m, t := View(s.frames), s.tabs[p];
    RouteBelow(m, top, s.roots, s.tabs, root, virt, level - 1, top - level);
    ObstacleStep(m, t, level, virt, level - 1);
    RouteStep(m, t, p, level, virt, level - 1);
    RouteEnd(m, t, p, virt, level - 1);
    WayKinds(s, top, root, virt, level - 1);
  }

  /** Entry `index` of the table at `path` was written, and no other word of memory. */
  ghost predicate SlotPoked(a: State, b: State, path: Path, index: nat, e: Pte) {
    && path in a.tabs && a.tabs[path] in a.frames && index < 512
    && var w := Encode(e); w < TWO_64 && b.frames == Poke(a.frames, a.tabs[path], index, w)
  }

  lemma SlotCleared(a: State, b: State, path: Path, index: nat)
    requires SlotPoked(a, b, path, index, ZERO_PTE)
    ensures path in a.tabs && a.tabs[path] in a.frames && index < 512
    ensures b.frames == Poke(a.frames, a.tabs[path], index, 0)
  {
    DecodeZero();
    EncodeDecode(0);
  }

  lemma PruneKeeps(tabs: map<Path, nat>, p: Path, i: nat)
    requires p in tabs
    ensures p in Prune(tabs, p + [i]) && Prune(tabs, p + [i])[p] == tabs[p]
  {
  }

  lemma SlotWritten(a: State, top: Level, path: Path, index: nat, e: Pte)
    requires a.Ok(top) && path in a.tabs && index < 512 && !e.IsBranch() && e.Clean() && e.Fits()
    ensures a.tabs[path] in a.frames && a.tabs[path] !in a.free && Encode(e) < TWO_64 && |path| <= top
    ensures var b := WithSlot(a, path, index, e);
      && b.Ok(top) && Accounted(a, b) && EntrySet(a, b, top, path, index, e) && EntryAt(b, path, index, e)
      && (a.Alive() && (e.valid ==> e.IsLeaf()) ==> b.Alive())
      && (|path| == top || !Decode(a.frames[a.tabs[path]][index]).IsBranch() ==>
         b.tabs == a.tabs && b.orphans == a.orphans)
  {
    hide Decode, Encode, Forest, Walk, View, Passes, Stop, Prune, Alive;
    assert a.tabs[path] in a.tabs.Values;
    DecodeEncode(e);
    SetEntry(a.frames, top, a.roots, a.tabs, path, index, e);
    AliveSet(a.frames, a.tabs, path, index, e);
    PruneKeeps(a.tabs, path, index);
    var frames := Poke(a.frames, a.tabs[path], index, Encode(e));
    SeparateLose(a.frames, frames, a.tabs, a.free, a.data, a.orphans, path + [index]);
    var old' := Decode(a.frames[a.tabs[path]][index]);
    if |path| == top || !old'.IsBranch() {
      if old'.IsBranch() { Child(View(a.frames), top, a.roots, a.tabs, path, index); }
      PruneNothing(View(a.frames), top, a.roots, a.tabs, path, index);
    }
  }

  /** The head of the free list goes to `data`. */
  lemma FrameClaimed(a: State, b: State)
    requires Separate(a.frames, a.tabs.Values, a.free, a.data, a.orphans)
    requires |a.free| >= 2 && a.free[0] !in a.free[1..]
    requires b == State(b.frames, a.free[1..], a.roots, a.tabs, a.data + {a.free[0]}, a.orphans)
    requires b.frames.Keys == a.frames.Keys
    requires forall g | g in a.frames && g !in a.free :: b.frames[g] == a.frames[g]
    ensures ClaimedFrames(a, b, {})
    ensures Separate(b.frames, b.tabs.Values, b.free, b.data, b.orphans)
  {
    assert Members(a.free) == {a.free[0]} + Members(b.free);
  }

  /**
   * `unmap` undoes `map`: after both at one page size, the page found by `unmap` is the mapped one, and every
   * address of every space finds what it found before exactly if nothing was found in that page before.
   */
  lemma UnmapUndoesMap(a: State, b: State, c: State, top: Level, root: nat, virt: Word, target: Level, phys: Word,
                       flags: PageFlags)
    requires root in a.roots && b.roots == a.roots && c.roots == a.roots && target <= top && flags.Accessible()
    requires PageSet(a, b, top, root, virt, target, LeafEntry(PpnOf(phys), flags))
    requires PageSet(b, c, top, root, virt, target, ZERO_PTE)
    ensures b.Find(top, root, virt) == Hit(LeafEntry(PpnOf(phys), flags), target)
    ensures LeafEntry(PpnOf(phys), flags).ppn == PpnOf(phys)
    ensures SameFinds(a, c, top) <==> forall va | SamePage(va, virt, top, target) :: a.Find(top, root, va) == Missing
  {
    LeafEntryKind(PpnOf(phys), flags);
    hide State.Find, Index, LeafEntry;
    assert SamePage(virt, virt, top, target);
  }

  /** With flags that leave out R, W and X the page is written, and nothing can be found in it. */
  lemma InaccessiblePage(a: State, b: State, top: Level, root: nat, virt: Word, target: Level, phys: Word,
                         flags: PageFlags)
    requires root in a.roots && target <= top && (flags.Accessible() || flags.user)
    requires PageSet(a, b, top, root, virt, target, LeafEntry(PpnOf(phys), flags))
    ensures b.Find(top, root, virt).Hit? <==> flags.Accessible()
    ensures flags.Accessible() ==>
      AddressOf(b.Find(top, root, virt), virt) == Ok(LeafAddress(PpnOf(phys), target, virt))
    ensures flags.Accessible() && phys < 0x100_0000_0000_0000 ==>
      var found := AddressOf(b.Find(top, root, virt), virt);
      && found.Ok? && found.addr / PageSpan(target) == phys / PageSpan(target)
      && found.addr % PageSpan(target) == virt % PageSpan(target)
  {
    LeafEntryKind(PpnOf(phys), flags);
    if phys < 0x100_0000_0000_0000 { LeafAddressOf(phys, target, virt); }
    hide State.Find, Index, LeafEntry, PageSpan, LeafAddress, PpnOf;
    assert SamePage(virt, virt, top, target);
  }

  /** States that agree on the tables find the same. */
  lemma SameTablesState(a: State, b: State, top: Level)
    requires Forest(View(a.frames), top, a.roots, a.tabs) && b.roots == a.roots && b.tabs == a.tabs
    requires forall f | f in a.tabs.Values :: f in a.frames && f in b.frames && b.frames[f] == a.frames[f]
    ensures Forest(View(b.frames), top, b.roots, b.tabs) && SameFinds(a, b, top)
    ensures a.Alive() ==> b.Alive()
  {
    hide Forest, View, Walk, AliveTable;
    SameTables(a.frames, b.frames, top, a.roots, a.tabs);
    ViewAgree(a.frames, b.frames, a.tabs.Values);
    if a.Alive() { AliveFrame(View(a.frames), View(b.frames), a.tabs); }
  }
}

/** Mapping, unmapping and cloning: the radix trees, the free list and the claimed frames in one memory. */
module Vmm {
  import opened PageEntries
  import opened Addresses
  import opened PageTables
  import opened PhysicalMemory
  import opened Pmm
  import opened Clones
  import opened Routes
  import opened Spaces
  import opened SpaceClones
  import opened Ranges
  import opened Ownership
  import opened Runs

  datatype UnmapResult = Unmapped(addr: nat) | Panic

  datatype MapResult =
    | Mapped
    | LeafAbove    // the panic on a leaf above the target level
    | OutOfFrames  // a table is needed and the free list is down to one frame

  /** The links of a free frame read as empty entries, so they do no harm in a frame taken for a root as it is. */
  lemma HeadEmpty(m: Frames, hhdm: Word, head: Word, tail: Word, s: seq<nat>)
    requires Links(m, hhdm, head, tail, |s|, s) && hhdm % PAGE_SIZE == 0
    ensures s[0] in m
    ensures Childfree(m[s[0]], 0) <==> Childfree(m[s[0]], 2)
    ensures Inert(m[s[0]], 0) <==> Inert(m[s[0]], 2)
    ensures Lively(m[s[0]], 0) <==> Lively(m[s[0]], 2)
  {
    hide Decode, Pte.Clean;
    assert NodeAt(m, hhdm, s, 0);
    var f := m[s[0]];
    assert f[0] % PAGE_SIZE == 0 && f[1] % PAGE_SIZE == 0;
    PointerIsClean(f[0]);
    PointerIsClean(f[1]);
  }

  /** All address spaces that share one memory and one frame allocator. */
  class AddressSpaces {
    const ram: Ram
    const pmm: FreeList
    const top: Level
    ghost var roots: set<nat>
    ghost var tabs: map<Path, nat>
    ghost var data: set<nat>     // frames claimed and handed out
    ghost var orphans: set<nat>  // tables whose entry was overwritten by a leaf

    ghost predicate Valid()
      reads this, ram, pmm, pmm.ram
    {
      && pmm.ram == ram && pmm.Valid()
      && Now().Ok(top)
    }

    ghost function Now(): State
      reads this, ram, pmm
    {
      State(ram.frames, pmm.free, roots, tabs, data, orphans)
    }

    /** Takes over a memory with a free list and some table trees in it. */
    constructor (ram: Ram, pmm: FreeList, top: Level, ghost roots: set<nat>, ghost tabs: map<Path, nat>,
                 ghost data: set<nat>)
      requires pmm.ram == ram && pmm.Valid() && Forest(View(ram.frames), top, roots, tabs)
      requires Separate(ram.frames, tabs.Values, pmm.free, data, {})
      ensures Valid() && this.ram == ram && this.pmm == pmm && this.top == top
      ensures this.roots == roots && this.tabs == tabs && this.data == data && orphans == {}
    {
      this.ram, this.pmm, this.top := ram, pmm, top;
      this.roots, this.tabs, this.data, orphans := roots, tabs, data, {};
    }

    /** The frame behind the pointer that `claim` returns. */
    method ClaimNext() returns (f: nat)
      requires pmm.ram == ram && pmm.Valid() && |pmm.free| >= 2
      modifies pmm, ram
      ensures pmm.Valid() && ram.frames.Keys == old(ram.frames).Keys
      ensures f == old(pmm.free)[0] && pmm.free == old(pmm.free)[1..] && f !in pmm.free && f in ram.frames
      ensures forall g | g in ram.frames && g !in pmm.free :: ram.frames[g] == old(ram.frames)[g]
      ensures LinksOnly(old(ram.frames), ram.frames, pmm.free)
    {
      assert NodeAt(ram.frames, ram.hhdm, pmm.free, 0);
      var ptr := pmm.Claim();
      FrameOfPtr(ram.hhdm, old(pmm.free)[0]);
      f := FrameOf(ram.hhdm, ptr);
    }

    /** Claims a frame for a new table and clears its entries. */
    method ClaimCleared() returns (f: nat)
      requires pmm.ram == ram && pmm.Valid() && |pmm.free| >= 2
      modifies pmm, ram
      ensures pmm.Valid() && ram.frames.Keys == old(ram.frames).Keys
      ensures f == old(pmm.free)[0] && pmm.free == old(pmm.free)[1..] && f !in pmm.free
      ensures f in ram.frames && ram.frames[f] == seq(512, j => 0)
      ensures forall g | g in ram.frames && g !in old(pmm.free) :: ram.frames[g] == old(ram.frames)[g]
      ensures LinksOnly(old(ram.frames), ram.frames, pmm.free)
    {
      hide Links;
      f := ClaimNext();
      ghost var claimed := ram.frames;
      ram.ZeroFrame(f);
      LinksFrame(claimed, ram.frames, ram.hhdm, pmm.head, pmm.tail, pmm.len, pmm.free);
    }

    /** The branch of `map` that makes a table: copy the parent table, claim and clear, write the copy back. */
    method HangNewTable(table: nat, index: nat, ghost path: Path) returns (newTable: nat)
      requires Valid() && |pmm.free| >= 2
      requires path in tabs && tabs[path] == table && |path| < top && index < 512
      requires !Decode(ram.frames[table][index]).valid
      modifies this, ram, pmm
      ensures Valid() && Accounted(old(Now()), Now()) && MoreTables(old(Now()), Now())
      ensures SameFinds(old(Now()), Now(), top)
      ensures path + [index] in tabs && tabs[path + [index]] == newTable && (old(Now()).Alive() ==> Now().Alive())
      ensures newTable in ram.frames && ram.frames[newTable] == seq(512, j => 0) && |pmm.free| == |old(pmm.free)| - 1
    {
      hide Decode, Encode, Forest, Walk, Links, View, Accounted, MoreTables, Alive;
      var tableCopy := ram.frames[table];
      var entry := Decode(tableCopy[index]);
      newTable := ClaimCleared();
      assert forall f | f in tabs.Values :: f in ram.frames && ram.frames[f] == old(ram.frames)[f];
      SameTables(old(ram.frames), ram.frames, top, roots, tabs);
      HangTable(ram.frames, top, roots, tabs, path, index, entry, newTable);
      ghost var cleared := ram.frames;
      tableCopy := tableCopy[index := Encode(entry.(ppn := newTable, valid := true))];
      ram.frames := ram.frames[table := tableCopy];
      LinksFrame(cleared, ram.frames, ram.hhdm, pmm.head, pmm.tail, pmm.len, pmm.free);
      AliveHang(old(ram.frames), cleared, tabs, path, index, newTable);
      TableAdded(old(Now()), Now().(tabs := tabs[path + [index] := newTable]), path + [index]);
      tabs := tabs[path + [index] := newTable];
    }

    /** Writes a leaf or an empty entry back with the rest of its table. */
    method WriteSlot(table: nat, index: nat, entry: Pte, ghost path: Path)
      requires Valid() && path in tabs && tabs[path] == table && index < 512
      requires !entry.IsBranch() && entry.Clean() && entry.Fits()
      modifies this, ram
      ensures Valid() && Accounted(old(Now()), Now()) && |path| <= top
      ensures data == old(data) && roots == old(roots) && ram.frames.Keys == old(ram.frames).Keys
      ensures EntrySet(old(Now()), Now(), top, path, index, entry)
      ensures EntryAt(Now(), path, index, entry)
      ensures SlotPoked(old(Now()), Now(), path, index, entry)
      ensures |path| == top || !Decode(old(ram.frames)[table][index]).IsBranch() ==>
        tabs == old(tabs) && orphans == old(orphans)
      ensures old(Now()).Alive() && (entry.valid ==> entry.IsLeaf()) ==> Now().Alive()
    {
      hide Decode, Encode, Forest, Walk, Links, View, Passes, Stop, Prune, Alive, Accounted, EntrySet, Separate;
      ghost var start := Now();
      SlotWritten(start, top, path, index, entry);
      ghost var after := WithSlot(start, path, index, entry);
      var tableCopy := ram.frames[table];
      tableCopy := tableCopy[index := Encode(entry)];
      ram.frames := ram.frames[table := tableCopy];
      tabs, orphans := after.tabs, after.orphans;
      LinksFrame(start.frames, ram.frames, ram.hhdm, pmm.head, pmm.tail, pmm.len, pmm.free);
    }

    /**
     * Maps the page of size `target` that holds `virt` to the frame of `phys`, hanging new tables where the route
     * finds none. It writes the entry at the end of the route; that is the page of `virt` exactly if no valid entry
     * on the way is neither a leaf nor a branch. With none of R, W, X and U the entry written would be a branch.
     */
    method Map(root: nat, virt: Word, phys: Word, target: Level, flags: PageFlags) returns (res: MapResult)
      requires Valid() && root in roots && target <= top && (flags.Accessible() || flags.user)
      modifies this, ram, pmm
      ensures Valid() && Accounted(old(Now()), Now()) && OthersSame(old(Now()), Now(), top, root)
      ensures old(Now()).Alive() && flags.Accessible() ==> Now().Alive()
      ensures var r := old(Now()).RouteTo(top, root, virt, target);
        && (res == if r.blocked then LeafAbove else if r.made >= |old(pmm.free)| then OutOfFrames else Mapped)
        && (res.Mapped? ==> EntrySet(old(Now()), Now(), top, r.path, Index(virt, target),
           LeafEntry(PpnOf(phys), flags)))
        && (res.Mapped? ==> EntryAt(Now(), r.path, Index(virt, target), LeafEntry(PpnOf(phys), flags)))
      ensures res.Mapped? ==>
        WordAt(Now(), old(Now()).RouteTo(top, root, virt, target).path, Index(virt, target), phys, flags)
      ensures res.OutOfFrames? ==> |pmm.free| == 1
      ensures !res.Mapped? ==> SameFinds(old(Now()), Now(), top)
      ensures var o, e := old(Now()).InTheWay(top, root, virt, target), LeafEntry(PpnOf(phys), flags);
        && (o == Leaf ==> res.LeafAbove?)
        && (o == Clear ==> !res.LeafAbove?)
        && (o == Clear && target == 1 ==> MoreTables(old(Now()), Now()))
        && (o == Clear && res.Mapped? ==> PageSet(old(Now()), Now(), top, root, virt, target, e))
        && (res.Mapped? && flags.Accessible() ==>
           (PageSet(old(Now()), Now(), top, root, virt, target, e) <==> o == Clear))
      ensures Step(old(Now()), MapOp(root, virt, phys, target, flags), Now(), top)
    {
      hide Decode, Links, LeafEntry, PageFlags.Accessible, Index, PageSet, EntrySet, View, Reached, State.Ok, EntryAt,
        SameFinds, Accounted, MoreTables, OthersSame, State.Alive, State.InTheWay, State.RouteTo, Pte.IsLeaf,
        Pte.IsBranch, Pte.Clean, Pte.Fits, Step, SlotPoked, PpnOf, WalkPath, SamePage, Ram.Valid, WordAt;
      var table, level := root, top;
      ghost var start := Now();
      ghost var path, made := [root], 0;
      ReachedRoot(start, top, root, virt, target);
      WayKinds(start, top, root, virt, target);
      ReachedStop(start, Now(), top, root, virt, target, level, table, path, made);
      while level != target
        invariant target <= level <= top && Valid()
        invariant Reached(start, Now(), top, root, virt, target, level, table, path, made)
        decreases level
      {
        ReachedStop(start, Now(), top, root, virt, target, level, table, path, made);
        var index := Index(virt, level);
        var tableCopy := ram.frames[table];
        var entry := Decode(tableCopy[index]);
        EntryKinds(entry);
        ghost var before := Now();
        if entry.IsBranch() {
          ReachedNext(start, before, top, root, virt, target, level, table, path, made, entry);
          path := path + [index];
          table := entry.ppn;
        } else if entry.IsLeaf() {
          MapIsStep(start, before, top, root, virt, phys, target, flags, false);
          return LeafAbove;
        } else if !entry.valid {
          if pmm.len < 2 {
            MapIsStep(start, before, top, root, virt, phys, target, flags, false);
            return OutOfFrames;
          }
          ghost var parent := table;
          table := HangNewTable(table, index, path);
          ReachedNew(start, before, Now(), top, root, virt, target, level, parent, path, made, table);
          path, made := path + [index], made + 1;
        } else {
          ReachedNext(start, before, top, root, virt, target, level, table, path, made, entry);
        }
        level := level - 1;
      }
      ReachedStop(start, Now(), top, root, virt, target, level, table, path, made);
      LeafEntryKind(PpnOf(phys), flags);
      ghost var before := Now();
      WriteSlot(table, Index(virt, level), LeafEntry(PpnOf(phys), flags), path);
      ReachedWritten(start, before, Now(), top, root, virt, target, table, path, made, LeafEntry(PpnOf(phys), flags));
      EntryWord(Now(), path, Index(virt, target), phys, flags);
      MapIsStep(start, Now(), top, root, virt, phys, target, flags, true);
      return Mapped;
    }

    /** `virt_to_phys`: `Err` is a walk that ends at neither a leaf nor a branch. */
    method VirtToPhys(root: nat, virt: Word) returns (pa: Translation)
      requires Valid() && root in roots
      ensures pa == AddressOf(Now().Find(top, root, virt), virt)
      ensures var f := Now().Find(top, root, virt);
        && (pa.Ok? <==> f.Hit?)
        && (pa.Ok? ==>
            && pa.addr % PageSpan(f.level) == virt % PageSpan(f.level)
            && pa.addr / PageSpan(f.level) == f.entry.ppn * 4096 / PageSpan(f.level))
      ensures !Now().Find(top, root, virt).Fault?
    {
      hide Decode, Forest, Links, Index, LeafAddress, View, Walk, WalkPath, Separate, PageSpan;
      var table, level := root, top;
      ghost var path := [root];
      RootTable(View(ram.frames), top, roots, tabs, root, virt);
      NeverFaults(View(ram.frames), top, roots, tabs, root, virt, 0);
      while true
        invariant 1 <= level <= top && table in ram.frames
        invariant path == WalkPath(root, virt, top, top - level) && path in tabs && tabs[path] == table
        invariant Walk(View(ram.frames), table, level, virt) == Now().Find(top, root, virt)
        decreases level
      {
        var index := Index(virt, level);
        var entry := Decode(ram.frames[table][index]);
        WalkStep(View(ram.frames), table, level, virt);
        WalkPathStep(root, virt, top, top - level);
        if entry.IsLeaf() {
          LeafAddressParts(entry.ppn, level, virt);
          return Ok(LeafAddress(entry.ppn, level, virt));
        } else if entry.IsBranch() {
          Child(View(ram.frames), top, roots, tabs, path, index);
          path := path + [index];
          table := entry.ppn;
        } else {
          return Err;
        }
        level := level - 1;
      }
    }

    /** `unmap`: `Panic` leaves everything as it was. */
    method Unmap(root: nat, virt: Word, target: Level) returns (res: UnmapResult)
      requires Valid() && root in roots && target <= top
      modifies this, ram
      ensures Valid() && Accounted(old(Now()), Now()) && Now() == old(Now()).(frames := ram.frames)
      ensures ram.frames.Keys == old(ram.frames).Keys
      ensures var f := old(Now()).Find(top, root, virt);
        res == if f.Hit? && f.level == target then Unmapped(f.entry.ppn * PAGE_SIZE) else Panic
      ensures res.Panic? ==> ram.frames == old(ram.frames)
      ensures forall g | g in ram.frames && g !in tabs.Values :: ram.frames[g] == old(ram.frames)[g]
      ensures OthersSame(old(Now()), Now(), top, root) && (old(Now()).Alive() ==> Now().Alive())
      ensures res.Unmapped? ==> PageSet(old(Now()), Now(), top, root, virt, target, ZERO_PTE)
      ensures Step(old(Now()), UnmapOp(root, virt, target), Now(), top)
    {
      hide Decode, Forest, Links, Index, Accounted, Separate, PageSet, EntrySet, OthersSame, SameFinds, State.Alive,
        Walk, View, WalkPath, Step, SlotPoked, EntryAt;
      var table, level := root, top;
      ghost var path := [root];
      ghost var op := UnmapOp(root, virt, target);
      RootTable(View(ram.frames), top, roots, tabs, root, virt);
      AccountedRefl(Now());
      SameFindsRefl(Now(), top);
      OthersSameBy(Now(), Now(), top, root);
      while true
        invariant Now() == old(Now()) && Valid()
        invariant target <= level <= top && table in ram.frames
        invariant path == WalkPath(root, virt, top, top - level) && path in tabs && tabs[path] == table
        invariant Walk(View(ram.frames), table, level, virt) == Now().Find(top, root, virt)
        decreases level
      {
        var index := Index(virt, level);
        var entry := Decode(ram.frames[table][index]);
        WalkStep(View(ram.frames), table, level, virt);
        WalkPathStep(root, virt, top, top - level);
        if level == target {
          if !entry.IsLeaf() {
            assert entry.IsBranch() ==> level > 1 by {
              if entry.IsBranch() { Child(View(ram.frames), top, roots, tabs, path, index); }
            }
            UnmapIsStep(old(Now()), op, Now(), top);
            return Panic;
          }
          WriteSlot(table, index, ZERO_PTE, path);
          PageSetBy(old(Now()), old(Now()), Now(), top, root, virt, target, ZERO_PTE, path);
          OthersSameEntry(old(Now()), old(Now()), Now(), top, root, path, index, ZERO_PTE);
          SlotCleared(old(Now()), Now(), path, index);
          assert table in tabs.Values;
          UnmapIsStep(old(Now()), op, Now(), top);
          return Unmapped(entry.ppn * PAGE_SIZE);
        }
        if entry.IsLeaf() {
          UnmapIsStep(old(Now()), op, Now(), top);
          return Panic;
        } else if entry.IsBranch() {
          Child(View(ram.frames), top, roots, tabs, path, index);
          path := path + [index];
          table := entry.ppn;
        } else {
          UnmapIsStep(old(Now()), op, Now(), top);
          return Panic;
        }
        level := level - 1;
      }
    }

    /** Claims one frame for the caller. */
    method ClaimFrame() returns (f: nat)
      requires Valid() && |pmm.free| >= 2
      modifies this, pmm, ram
      ensures Valid() && ClaimedFrames(old(Now()), Now(), {}) && SameFinds(old(Now()), Now(), top)
      ensures TookFrames(old(Now()), Now(), [f]) && f == old(pmm.free)[0] && f !in pmm.free && f < TWO_44
      ensures data == old(data) + {f} && f !in old(data) && tabs == old(tabs)
      ensures f in ram.frames && ram.frames[f] == old(ram.frames)[f]
      ensures forall g | g in old(data) :: g in ram.frames && ram.frames[g] == old(ram.frames)[g]
      ensures Step(old(Now()), ClaimOp([f]), Now(), top)
    {
      hide State.Ok, Links, TookFrames, SameFinds, ClaimedFrames, Step;
      f := ClaimNext();
      FrameTaken(old(Now()), Now().(data := data + {f}), top, f);
      data := data + {f};
      ClaimIsStep(old(Now()), Now(), top, [f]);
    }

    /** Writes a word of a claimed frame. */
    method WriteData(f: nat, i: nat, w: Word)
      requires Valid() && f in data && i < 512
      modifies ram
      ensures Valid() && Now() == old(Now()).(frames := Poke(old(ram.frames), f, i, w))
      ensures ClaimedFrames(old(Now()), Now(), {f}) && SameFinds(old(Now()), Now(), top)
      ensures Step(old(Now()), StoreOp(f, i, w), Now(), top)
    {
      hide Step, Forest, Walk, View, Links;
      ram.frames := Poke(ram.frames, f, i, w);
      SameTables(old(ram.frames), ram.frames, top, roots, tabs);
      StoreIsStep(old(Now()), Now(), top, f, i, w);
      LinksFrame(old(ram.frames), ram.frames, ram.hhdm, pmm.head, pmm.tail, pmm.len, pmm.free);
    }

    /** Copies a branch entry, claims a frame for the copy of its table, and puts that frame in the copied entry. */
    method CopyBranch(src: nat, dest: nat, index: nat, ghost p: Path) returns (newTable: nat, ok: bool)
      requires Valid() && p in tabs && tabs[p] == src && src in ram.frames && dest in ram.frames
      requires dest in data && index < 512
      requires Decode(ram.frames[src][index]).IsBranch()
      modifies this, pmm, ram
      ensures Valid() && ClaimedFrames(old(Now()), Now(), {dest}) && SameFinds(old(Now()), Now(), top)
      ensures dest in ram.frames && tabs == old(tabs)
      ensures !ok ==> |pmm.free| == 1
      ensures ok ==> newTable in old(pmm.free) && newTable !in pmm.free && newTable < TWO_44
      ensures ok ==> data == old(data) + {newTable}
      ensures ok ==> var e := Decode(old(ram.frames)[src][index]);
        && p + [index] in tabs && |p| < top && tabs[p + [index]] == e.ppn
        && Encode(e.(ppn := newTable)) < TWO_64
        && ram.frames[dest] == old(ram.frames)[dest][index := Encode(e.(ppn := newTable))]
    {
      hide Decode, Encode, Forest, Walk, View, Links, SameFinds, ClaimedFrames, Separate, TookFrames, Step;
      ghost var before := Now();
      var e := Decode(ram.frames[src][index]);
      EncodeDecode(ram.frames[src][index]);
      Child(View(ram.frames), top, roots, tabs, p, index);
      WriteData(dest, index, ram.frames[src][index]);
      if pmm.len < 2 {
        return 0, false;
      }
      ghost var copied := Now();
      newTable := ClaimFrame();
      ClaimedFramesTrans(before, copied, Now(), {dest}, {});
      SameFindsTrans(before, copied, Now(), top);
      ghost var claimed := Now();
      var destEntry := Decode(ram.frames[dest][index]);
      DecodeEncode(e.(ppn := newTable));
      WriteData(dest, index, Encode(destEntry.(ppn := newTable)));
      ClaimedFramesTrans(before, claimed, Now(), {dest}, {dest});
      SameFindsTrans(before, claimed, Now(), top);
      ok := true;
    }

    /**
     * Copies entries `lo..hi` of the table `src`, with all tables below, into the claimed frame `dest`;
     * false when the free list is down to one frame.
     */
    method CloneTableRange(src: nat, dest: nat, lo: nat, hi: nat, ghost p: Path)
      returns (ok: bool, ghost copies: map<Path, nat>)
      requires Valid() && p in tabs && tabs[p] == src && dest in data && lo <= hi <= 512
      modifies this, pmm, ram
      ensures Valid() && ClaimedFrames(old(Now()), Now(), {dest}) && SameFinds(old(Now()), Now(), top)
      ensures if ok then Cloning(old(Now()), Now(), top, copies, p, dest, lo, hi) else |pmm.free| == 1
      decreases top - |p|
    {
      hide Decode, Encode, Forest, Walk, View, Links, Cloning, ClaimedFrames, SameFinds, Separate, Step;
      ghost var start := Now();
      copies := map[];
      CloneStart(start, top, p, dest, lo);
      for index := lo to hi
        invariant Valid() && Cloning(start, Now(), top, copies, p, dest, lo, index)
      {
        ghost var before := Now();
        CloningFacts(start, before, top, copies, p, dest, lo, index);
        var entry := Decode(ram.frames[src][index]);
        if entry.IsBranch() {
          var newTable, entered := CopyBranch(src, dest, index, p);
          ClaimedFramesTrans(start, before, Now(), {dest}, {dest});
          SameFindsTrans(start, before, Now(), top);
          if !entered {
            return false, copies;
          }
          ghost var mid := Now();
          var done;
          ghost var below;
          done, below := CloneTableRange(entry.ppn, newTable, 0, 512, p + [index]);
          CloneDeepFrames(start, before, mid, Now(), top, dest, newTable);
          SameFindsTrans(start, mid, Now(), top);
          if !done {
            return false, copies;
          }
          CloneDeep(start, before, mid, Now(), top, copies, below, p, dest, lo, index, newTable);
          copies := Merge(copies, p + [index], newTable, below);
        } else {
          var w := if entry.IsLeaf() then ram.frames[src][index] else 0;
          WriteData(dest, index, w);
          CloneFlat(start, before, Now(), top, copies, p, dest, lo, index, w);
        }
      }
      CloningFacts(start, Now(), top, copies, p, dest, lo, hi);
      ok := true;
    }

    /**
     * `new_with_upperhalf`: a new root whose upper half copies that of `current`. The lower half of the claimed
     * frame is used as it is: the spaces stay in order exactly if it holds clean entries that lead to no table, and
     * the new space finds nothing there exactly if it holds no leaf either. The first two words, the links of the
     * free list, never matter.
     */
    method NewWithUpperhalf(current: nat) returns (root: nat, ok: bool)
      requires Valid() && current in roots && |pmm.free| >= 2
      modifies this, pmm, ram
      ensures !ok ==> Valid() && |pmm.free| == 1 && SameFinds(old(Now()), Now(), top)
      ensures ok ==> root == old(pmm.free)[0] && SpaceAdded(old(Now()), Now(), top, current, root)
      ensures ok ==> (Valid() <==> Childfree(old(ram.frames)[root], 2))
      ensures ok ==> (Valid() && NothingBelow(Now(), top, root) <==> Inert(old(ram.frames)[root], 2))
      ensures ok ==> Step(old(Now()), CloneOp(current, root), Now(), top)
    {
      hide Step, Decode, Encode, Forest, Walk, View, Links, Cloning, ClaimedFrames, SameFinds, Separate, Index, Copied,
        SpaceAdded, Childfree, Inert, Lively, NothingBelow, From, TookFrames;
      ghost var start := Now();
      HeadEmpty(ram.frames, ram.hhdm, pmm.head, pmm.tail, pmm.free);
      RootTable(View(ram.frames), top, roots, tabs, current, 0);
      root := ClaimFrame();
      ghost var claimed := Now();
      ghost var copies;
      ok, copies := CloneTableRange(current, root, 256, 512, [current]);
      SameFindsTrans(start, claimed, Now(), top);
      if ok {
        NewSpace(start, claimed, Now(), top, copies, current, root);
        ghost var after := Adopt(Now(), copies, current, root);
        roots, tabs, data := after.roots, after.tabs, after.data;
        NothingBelowIff(start, Now(), top, current, root);
        SpaceInOrder(start, Now(), top, current, root);
        CloneIsStep(start, Now(), top, current, root);
      }
    }

    /** Claims `n` physically consecutive frames for the caller; the last free frame is not one of them. */
    method ClaimFrames(n: nat) returns (res: ClaimResult, ghost fs: seq<nat>)
      requires Valid()
      modifies this, pmm, ram
      ensures res.NoRun? <==> NoGoodRun(ram.hhdm, old(pmm.free), n)
      ensures res.NoRun? ==> Valid() && Now() == old(Now())
      ensures res.NullWrite? <==> n != 1 && RunAtTail(ram.hhdm, old(pmm.free), n)
      ensures res.Claimed? ==> (Valid() <==> !RunAtTail(ram.hhdm, old(pmm.free), n))
      ensures res.Claimed? && Valid() ==> TookFrames(old(Now()), Now(), fs) && SameFinds(old(Now()), Now(), top)
      ensures res.Claimed? && Valid() ==> |fs| == n > 0 && res.ptr == Ptr(ram.hhdm, fs[0]) && Consecutive(fs)
      ensures res.Claimed? && Valid() ==> old(pmm.free)[|old(pmm.free)| - 1] !in fs
      ensures res.Claimed? && Valid() ==> Step(old(Now()), ClaimOp(fs), Now(), top)
    {
      hide Step, Forest, Walk, View, Distinct, Without, FirstRun, GoodRun, LinksOnly;
      ghost var b: nat;
      ghost var start := Now();
      res, b := pmm.ClaimContinuous(n);
      fs := [];
      if res.NoRun? { NoneAtTail(ram.hhdm, start.free, n); } else { FirstAtTail(ram.hhdm, start.free, b, n); }
      if res.Claimed? && b + n < |start.free| {
        fs := start.free[b..b + n];
        RunTaken(ram.hhdm, start.free, b, n);
        hide Links;
        SameTables(start.frames, ram.frames, top, roots, tabs);
        data := data + Members(fs);
        TookSeparate(start, Now(), fs);
        ClaimIsStep(start, Now(), top, fs);
      }
    }

    /** Gives a claimed frame back to the front of the free list. */
    method GiveBack(f: nat)
      requires Valid() && f in data
      modifies this, pmm, ram
      ensures Valid()
      ensures Now() == old(Now()).(frames := ram.frames, free := [f] + old(pmm.free), data := old(data) - {f})
      ensures SameFinds(old(Now()), Now(), top) && ram.frames.Keys == old(ram.frames).Keys
      ensures forall g | g in ram.frames && g !in pmm.free :: ram.frames[g] == old(ram.frames)[g]
      ensures LinksOnly(old(ram.frames), ram.frames, pmm.free)
      ensures Step(old(Now()), GiveBackOp(f), Now(), top)
    {
      hide Step, Forest, Walk, View, Links, LinksOnly;
      FrameOfPtr(ram.hhdm, f);
      assert Ptr(ram.hhdm, f) < TWO_64 && Ptr(ram.hhdm, f) % PAGE_SIZE == 0;
      var ok := pmm.Pull(Ptr(ram.hhdm, f));
      SameTables(old(ram.frames), ram.frames, top, roots, tabs);
      data := data - {f};
      GiveBackIsStep(old(Now()), f, Now(), top);
    }

    /** One turn of the loops over a range: maps page `k` to frame `f`, the `k`-th taken since `start`. */
    method MapNext(root: nat, base: Word, k: nat, f: nat, flags: PageFlags, ghost start: State, ghost n: nat,
                   ghost taken: seq<nat>)
      returns (ok: bool)
      requires Valid() && root in start.roots && flags.Accessible()
      requires GoodRange(base, n, top) && k < n && k < |taken| && f == taken[k]
      requires NothingMapped(start, top, root, base, n)
      requires Mapping(start, Now(), top, root, base, k, taken, flags)
      modifies this, pmm, ram
      ensures Valid() && Grown(old(Now()), Now())
      ensures if ok then Mapping(start, Now(), top, root, base, k + 1, taken, flags)
        else |pmm.free| == 1 && Grown(start, Now()) && Now().Alive()
    {
      hide Forest, State.Alive, State.Pool, Separate, Links, NothingMapped, Mapping, SameFinds, Accounted, MoreTables,
        Grown, MappedRange, Step, LeafEntry, PageSet, OthersSame, State.InTheWay, State.RouteTo, EntryAt, EntrySet,
        View, PageFlags.Accessible, TookFrames, ClaimedFrames;
      ghost var before := Now();
      MappingGrown(start, before, top, root, base, k, taken, flags);
      GrownRoots(start, before);
      NextPage(start, before, top, root, base, n, taken[..k], flags);
      DataInMemory(before, top);
      assert taken[k] in taken && f in ram.frames;
      PpnOfFrame(f);
      var res := Map(root, PageAt(base, k), PAGE_SIZE * f, 1, flags);
      GrownByMap(before, Now());
      ok := res.Mapped?;
      if ok {
        MappingMapped(start, before, Now(), top, root, base, n, k, taken, flags);
      } else {
        GrownTrans(start, before, Now());
      }
    }
  }

  /**
   * Where the page is not set: `map` with the user flag alone, then `map` one size smaller below it. The second call
   * writes into the table of the first, so `virt` is found at a page of the wrong size, or not at all.
   */
  method MapBelowDeadEntry(spaces: AddressSpaces, root: nat, virt: Word, level: Level, phys: Word, phys2: Word,
                           flags: PageFlags)
    returns (first: MapResult, second: MapResult)
    requires spaces.Valid() && root in spaces.roots && 2 <= level <= spaces.top && flags.Accessible()
    requires spaces.Now().InTheWay(spaces.top, root, virt, level) == Clear
    modifies spaces, spaces.ram, spaces.pmm
    ensures first.Mapped? ==> second.Mapped?
    ensures first.Mapped? ==>
      var e := LeafEntry(PpnOf(phys2), flags);
      spaces.Now().Find(spaces.top, root, virt) == if Index(virt, level - 1) == Index(virt, level) then Hit(e, level)
        else Missing
    ensures !first.Mapped? ==> first.OutOfFrames?
  {
    hide Links, State.Ok, State.Alive, State.Find, State.RouteTo, State.InTheWay, Index, LeafEntry, PpnOf, Accounted,
      MoreTables,
      OthersSame, PageSet, EntrySet, EntryAt, Step, SameFinds, WalkPath;
    ghost var start := spaces.Now();
    var user := PageFlags(false, false, false, true, false, false, false);
    second := OutOfFrames;
    WayKinds(start, spaces.top, root, virt, level);
    first := spaces.Map(root, virt, phys, level, user);
    if first.Mapped? {
      ghost var before := spaces.Now();
      DeadEntry(PpnOf(phys), user);
      DeadRoute(before, spaces.top, root, virt, level, LeafEntry(PpnOf(phys), user));
      second := spaces.Map(root, virt, phys2, level - 1, flags);
      LeafEntryKind(PpnOf(phys2), flags);
      SlotBelow(before, spaces.Now(), spaces.top, root, virt, level, LeafEntry(PpnOf(phys2), flags));
    }
  }

  lemma DeadEntry(f: nat, user: PageFlags)
    requires f < TWO_44 && !user.Accessible() && user.user
    ensures var e := LeafEntry(f, user); e.valid && !e.IsLeaf() && !e.IsBranch()
  {
    LeafEntryKind(f, user);
  }

  /** Writing entry `Index(virt, level - 1)` of the table at `level`. */
  lemma SlotBelow(a: State, b: State, top: Level, root: nat, virt: Word, level: Level, e: Pte)
    requires root in a.roots && 2 <= level <= top && a.Find(top, root, virt) == Missing && e.IsLeaf()
    requires EntrySet(a, b, top, WalkPath(root, virt, top, top - level), Index(virt, level - 1), e)
    ensures b.Find(top, root, virt) == if Index(virt, level - 1) == Index(virt, level) then Hit(e, level) else Missing
  {
    hide State.Find, Index, WalkPath;
    var p := WalkPath(root, virt, top, top - level);
    WalkPathStep(root, virt, top, top - level);
    SameAppend(p, Index(virt, level), p, Index(virt, level - 1));
  }

  /**
   * Where a new space is not empty below: an entry stored in a claimed frame, which is given back and becomes the next
   * root. If it is a branch or unclean the spaces are out of order; if it is a leaf the new space finds it.
   */
  method StaleRoot(spaces: AddressSpaces, current: nat, f: nat, e: Pte) returns (root: nat, ok: bool)
    requires spaces.Valid() && current in spaces.roots && f in spaces.data && e.Fits()
    requires f in spaces.ram.frames && Childfree(spaces.ram.frames[f], 3)
    modifies spaces, spaces.pmm, spaces.ram
    ensures ok ==> root == f && (spaces.Valid() <==> e.Clean() && !e.IsBranch())
    ensures ok && e.IsLeaf() ==>
      spaces.Valid() && forall va | Index(va, spaces.top) == 2 ::
        spaces.Now().Find(spaces.top, root, va) == Hit(e, spaces.top)
    ensures ok && e.IsLeaf() && e.ppn == f ==> !Owned(spaces.Now(), spaces.top)
    ensures !ok ==> |spaces.pmm.free| == 1
  {
    hide Links, State.Ok, Decode, Encode, Step, SpaceAdded, Childfree, Inert, Owned, State.Find, LinksOnly, Index,
      NothingBelow, SameFinds, ClaimedFrames, Pte.Fits, Pte.Clean, Pte.IsBranch, Pte.IsLeaf;
    DecodeEncode(e);
    EntryKinds(e);
    ghost var words := spaces.ram.frames[f];
    spaces.WriteData(f, 2, Encode(e));
    ghost var stored := spaces.ram.frames;
    spaces.GiveBack(f);
    ghost var start := spaces.Now();
    StaleWords(words, stored, spaces.ram.frames, spaces.pmm.free, f, e);
    root, ok := spaces.NewWithUpperhalf(current);
    if ok { StaleFinds(start, spaces.Now(), spaces.top, current, f, e); }
  }

  lemma StaleWords(words: Frame, stored: Frames, m: Frames, free: seq<nat>, f: nat, e: Pte)
    requires f in stored && f in m && f in free && LinksOnly(stored, m, free) && e.Fits() && Encode(e) < TWO_64
    requires stored[f] == words[2 := Encode(e)] && Childfree(words, 3)
    ensures Decode(m[f][2]) == e && (Childfree(m[f], 2) <==> e.Clean() && !e.IsBranch())
  {
    DecodeEncode(e);
    hide Decode, Encode, Pte.Clean, Pte.IsBranch;
    assert forall i | 2 <= i < 512 :: m[f][i] == stored[f][i];
    assert forall i | 3 <= i < 512 :: m[f][i] == words[i];
    assert m[f][2] == Encode(e);
  }

  lemma StaleFinds(a: State, b: State, top: Level, current: nat, f: nat, e: Pte)
    requires SpaceAdded(a, b, top, current, f) && Decode(a.frames[f][2]) == e
    ensures e.IsLeaf() ==> forall va | Index(va, top) == 2 :: b.Find(top, f, va) == Hit(e, top)
    ensures e.IsLeaf() && b.Ok(top) && e.ppn == f ==> !Owned(b, top)
  {
    hide State.Find, State.Ok, State.Pool, Decode, Childfree, Lively, State.Alive, Index, Owned;
    if e.IsLeaf() {
      assert forall va | Index(va, top) == 2 :: b.Find(top, f, va) == Hit(e, top);
      if b.Ok(top) && e.ppn == f { LeadsToItself(b, top, f, e); }
    }
  }

  lemma LeadsToItself(s: State, top: Level, f: nat, e: Pte)
    requires s.Ok(top) && f in s.roots && e.ppn == f
    requires forall va | Index(va, top) == 2 :: s.Find(top, f, va) == Hit(e, top)
    ensures !Owned(s, top)
  {
    hide State.Find, State.Ok, Index, Held, Passes, WalkPath;
    OwnPage(s, top, f);
    var off := PageOffset(f, top);
    var va := AddressOn([f, 2], top, off);
    assert WalkPath(f, va, top, 1) == [f, 2] by { PassesFirst(f, va, top, 2); }
    FirstIndex(f, va, top, 2);
    assert s.Find(top, f, va) == Hit(e, top);
    assert LeafAddress(f, top, va) == LeafAddress(f, top, off);
  }

  lemma PassesFirst(f: nat, va: Word, top: Level, i: nat)
    requires Passes(f, va, top, [f, i])
    ensures WalkPath(f, va, top, 1) == [f, i]
  {
  }

  /** A root is a table, so no space may lead to it. */
  lemma OwnPage(s: State, top: Level, f: nat)
    requires s.Ok(top) && f in s.roots
    ensures !Held(s, f)
  {
    hide View, GoodTable, Linked;
    assert s.tabs[[f]] == f;
  }

  lemma PageOffset(f: nat, level: Level) returns (off: Word)
    ensures LeafAddress(f, level, off) / PAGE_SIZE == f
  {
    off := f * PAGE_SIZE % PageSpan(level);
    WithinSpan(f * PAGE_SIZE, level);
  }

  lemma WithinSpan(x: nat, level: Level)
    ensures x % PageSpan(level) < TWO_64 && x % PageSpan(level) % PageSpan(level) == x % PageSpan(level)
  {
  }
}

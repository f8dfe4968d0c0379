/** `Vmm::alloc` and `Vmm::free`: a virtual range backed by frames, and its release. */
module VirtualAlloc {
  import opened PageEntries
  import opened Addresses
  import opened PhysicalMemory
  import opened Pmm
  import opened Spaces
  import opened Ranges
  import opened SpaceClones
  import opened Ownership
  import opened Runs
  import opened Vmm

  datatype AllocResult =
    | Backed(base: Word, phys: Translation)  // the physical base when contiguous frames were asked for
    | NoContiguous                            // the panic on a failed contiguous claim
    | Exhausted                               // the free list is down to one frame
    | NullWritten                             // the contiguous claim wrote through a null pointer

  class VmmArena {
    const spaces: AddressSpaces

    constructor (spaces: AddressSpaces)
      ensures this.spaces == spaces
    {
      this.spaces := spaces;
    }

    /** The contiguous claim at the start of `alloc`, with the first of its frames. */
    method ClaimAll(root: nat, base: Word, n: nat, flags: PageFlags)
      returns (claim: ClaimResult, frame: nat, ghost fs: seq<nat>)
      requires spaces.Valid() && spaces.Now().Alive() && root in spaces.roots
      requires n == 1 ==> |spaces.pmm.free| >= 2
      modifies spaces, spaces.pmm, spaces.ram
      ensures claim.NoRun? ==>
        spaces.Valid() && spaces.Now() == old(spaces.Now()) && NoGoodRun(spaces.ram.hhdm, spaces.pmm.free, n)
      ensures claim.NullWrite? ==> RunAtTail(spaces.ram.hhdm, old(spaces.pmm.free), n)
      ensures claim.Claimed? ==> spaces.Valid() && |fs| == n > 0 && Consecutive(fs) && frame == fs[0]
      ensures claim.Claimed? ==> Mapping(old(spaces.Now()), spaces.Now(), spaces.top, root, base, 0, fs, flags)
    {
      hide State.Ok, State.Alive, Links, Mapping, SameFinds, TookFrames, View, NoGoodRun, RunAtTail, Step, Distinct;
      ghost var start := spaces.Now();
      MappingStart(start, spaces.top, root, base, flags);
      OneAtTail(spaces.ram.hhdm, spaces.pmm.free);
      frame := 0;
      claim, fs := spaces.ClaimFrames(n);
      if claim.Claimed? {
        FrameOfPtr(spaces.ram.hhdm, fs[0]);
        frame := FrameOf(spaces.ram.hhdm, claim.ptr);
        ConsecutiveDistinct(fs);
        MappingTook(start, start, spaces.Now(), spaces.top, root, base, 0, [], fs, flags);
        assert [] + fs == fs;
      }
    }

    /**
     * `Vmm::alloc` in the space `root`: `base` is the range the address allocator handed out. The pages get frames
     * that were free, consecutive ones if `contiguous`.
     */
    method Alloc(root: nat, base: Word, size: nat, contiguous: bool, flags: PageFlags)
      returns (res: AllocResult, ghost fs: seq<nat>)
      requires spaces.Valid() && root in spaces.roots && flags.Accessible() && spaces.Now().Alive()
      requires GoodRange(base, PagesIn(size), spaces.top)
      requires NothingMapped(spaces.Now(), spaces.top, root, base, PagesIn(size))
      modifies spaces, spaces.pmm, spaces.ram
      ensures !res.NullWritten? ==> spaces.Valid() && spaces.Now().Alive() && Grown(old(spaces.Now()), spaces.Now())
      ensures res.Exhausted? ==> |spaces.pmm.free| == 1
      ensures res.NoContiguous? ==>
        contiguous && spaces.Now() == old(spaces.Now()) && NoGoodRun(spaces.ram.hhdm, spaces.pmm.free, PagesIn(size))
      ensures res.NullWritten? ==> contiguous && RunAtTail(spaces.ram.hhdm, old(spaces.pmm.free), PagesIn(size))
      ensures res.Backed? ==> res.base == base && |fs| == PagesIn(size) && spaces.data == old(spaces.data) + Members(fs)
      ensures res.Backed? ==> forall k | 0 <= k < |fs| :: fs[k] in old(spaces.pmm.free) && fs[k] !in spaces.pmm.free
      ensures res.Backed? ==> Distinct(fs)
      ensures res.Backed? ==> MappedRange(old(spaces.Now()), spaces.Now(), spaces.top, root, base, fs, flags)
      ensures res.Backed? && contiguous ==> |fs| > 0 && res.phys == Ok(PAGE_SIZE * fs[0]) && Consecutive(fs)
      ensures res.Backed? && !contiguous ==> res.phys == Err
      ensures res.Backed? && Owned(old(spaces.Now()), spaces.top) ==>
        Owned(spaces.Now(), spaces.top) && UnreachedElsewhere(spaces.Now(), spaces.top, root, base, |fs|, fs)
    {
      hide State.Ok, State.Alive, State.Pool, Separate, Links, NothingMapped, GoodRange, Mapping, SameFinds, Accounted,
        MoreTables, TookFrames, LeafEntry, PageSet, OthersSame, State.InTheWay, View, PageFlags.Accessible, NoGoodRun,
        RunAtTail, Owned, UnreachedElsewhere, Step, MappedRange, Grown;
      ghost var start := spaces.Now();
      var n := PagesIn(size);
      var frame := 0;
      var phys := Err;
      fs := [];
      MappingStart(start, spaces.top, root, base, flags);
      if contiguous {
        if n == 1 && spaces.pmm.len < 2 {
          GrownStart(start, spaces.top);
          return Exhausted, [];
        }
        var claim;
        claim, frame, fs := ClaimAll(root, base, n, flags);
        if claim.NoRun? {
          GrownStart(start, spaces.top);
          return NoContiguous, [];
        } else if claim.NullWrite? {
          return NullWritten, [];
        }
        phys := Ok(PAGE_SIZE * frame);
      }
      for k := 0 to n
        invariant spaces.Valid() && Mapping(start, spaces.Now(), spaces.top, root, base, k, fs, flags)
        invariant contiguous ==> |fs| == n && Consecutive(fs)
        invariant contiguous && k < n ==> frame == fs[k]
        invariant if contiguous then n > 0 && phys == Ok(PAGE_SIZE * fs[0]) else phys == Err && |fs| == k
      {
        ghost var before := spaces.Now();
        if !contiguous {
          if spaces.pmm.len < 2 {
            MappingGrown(start, before, spaces.top, root, base, k, fs, flags);
            return Exhausted, fs;
          }
          frame := spaces.ClaimFrame();
          MappingTook(start, before, spaces.Now(), spaces.top, root, base, k, fs, [frame], flags);
          fs := fs + [frame];
        }
        var ok := spaces.MapNext(root, base, k, frame, flags, start, n, fs);
        if !ok {
          return Exhausted, fs;
        }
        if contiguous {
          frame := frame + 1;
        }
      }
      MappingGrown(start, spaces.Now(), spaces.top, root, base, n, fs, flags);
      assert fs[..n] == fs;
      AllocOwnership(start, spaces.Now(), spaces.top, root, base, fs, flags);
      return Backed(base, phys), fs;
    }

    /**
     * `Vmm::free` of a range: `fs` are the claimed frames its pages are mapped to, up to the first page that is not
     * found. There `unmap` panics, with the pages before it freed.
     */
    method Free(root: nat, base: Word, size: nat, ghost fs: seq<nat>) returns (ok: bool)
      requires spaces.Valid() && root in spaces.roots && |fs| <= PagesIn(size)
      requires GoodRange(base, PagesIn(size), spaces.top)
      requires Distinct(fs) && forall g | g in fs :: g in spaces.data
      requires FoundRange(spaces.Now(), spaces.top, root, base, fs)
      requires |fs| < PagesIn(size) ==> !SmallPageAt(spaces.Now(), spaces.top, root, PageAt(base, |fs|))
      modifies spaces, spaces.pmm, spaces.ram
      ensures spaces.Valid() && (ok <==> |fs| == PagesIn(size))
      ensures Freeing(old(spaces.Now()), spaces.Now(), spaces.top, root, base, |fs|, fs)
      ensures Owned(old(spaces.Now()), spaces.top) ==>
        (Owned(spaces.Now(), spaces.top) <==>
         UnreachedElsewhere(old(spaces.Now()), spaces.top, root, base, |fs|, fs))
    {
      hide State.Ok, Links, GoodRange, Accounted, SameFinds, PageSet, OthersSame, View, Freeing, FoundRange, Distinct,
        State.Find, State.Alive, Owned, UnreachedElsewhere, Step, LinksOnly;
      ghost var start := spaces.Now();
      var n := PagesIn(size);
      FreeingStart(start, spaces.top, root, base, fs);
      for k := 0 to n
        invariant k <= |fs|
        invariant spaces.Valid() && Freeing(start, spaces.Now(), spaces.top, root, base, k, fs)
      {
        ghost var before := spaces.Now();
        FreeingSame(start, before, spaces.top, root, base, n, k, fs);
        if k < |fs| { FreeingNext(start, before, spaces.top, root, base, n, k, fs); }
        var res := spaces.Unmap(root, PageAt(base, k), 1);
        if res.Panic? {
          if Owned(start, spaces.top) { FreeOwned(start, spaces.Now(), spaces.top, root, base, fs); }
          return false;
        }
        ghost var unmapped := spaces.Now();
        spaces.GiveBack(res.addr / PAGE_SIZE);
        FreeingStep(start, before, unmapped, spaces.Now(), spaces.top, root, base, n, k, fs);
      }
      if Owned(start, spaces.top) { FreeOwned(start, spaces.Now(), spaces.top, root, base, fs); }
      ok := true;
    }
  }

  lemma AllocOwnership(a: State, b: State, top: Level, root: nat, base: Word, fs: seq<nat>, flags: PageFlags)
    requires base + PAGE_SIZE * |fs| <= TWO_64 && root in a.roots && flags.Accessible() && a.Ok(top)
    requires Grown(a, b) && MappedRange(a, b, top, root, base, fs, flags) && b.data == a.data + Members(fs)
    requires forall k | 0 <= k < |fs| :: fs[k] in a.free
    ensures Owned(a, top) ==> Owned(b, top) && UnreachedElsewhere(b, top, root, base, |fs|, fs)
  {
    hide Owned, MappedRange, State.Ok, UnreachedElsewhere;
    if Owned(a, top) {
      AllocOwned(a, b, top, root, base, fs, flags);
      AllocFreeOwned(a, b, top, root, base, fs, flags);
    }
  }

  /**
   * `free` unmaps in one space only. A page of the upper half that was cloned into a new space is still found there
   * when its frame is back on the free list.
   */
  method FreeAfterClone(arena: VmmArena, current: nat, base: Word, ghost f: nat) returns (root: nat, ok: bool)
    requires arena.spaces.Valid() && current in arena.spaces.roots && |arena.spaces.pmm.free| >= 2
    requires arena.spaces.pmm.free[0] in arena.spaces.ram.frames
    requires Childfree(arena.spaces.ram.frames[arena.spaces.pmm.free[0]], 2)
    requires GoodRange(base, 1, arena.spaces.top) && Index(base, arena.spaces.top) >= 256 && f in arena.spaces.data
    requires FoundRange(arena.spaces.Now(), arena.spaces.top, current, base, [f])
    modifies arena.spaces, arena.spaces.pmm, arena.spaces.ram
    ensures ok ==> arena.spaces.Valid() && root in arena.spaces.roots && arena.spaces.pmm.free[0] == f
    ensures ok ==> FoundRange(arena.spaces.Now(), arena.spaces.top, root, base, [f])
    ensures ok ==> !Owned(arena.spaces.Now(), arena.spaces.top)
    ensures !ok ==> |arena.spaces.pmm.free| == 1
  {
    hide Links, State.Ok, GoodRange, Index, SpaceAdded, FoundRange, Freeing, Owned, Childfree, Inert, NothingBelow,
      Step;
    ghost var start := arena.spaces.Now();
    root, ok := arena.spaces.NewWithUpperhalf(current);
    if !ok {
      return;
    }
    ghost var cloned := arena.spaces.Now();
    assert base + PAGE_SIZE <= TWO_64 by { RangeFits(base, 1, arena.spaces.top); }
    ClonedRange(start, cloned, arena.spaces.top, current, root, base, f);
    ok := arena.Free(current, base, PAGE_SIZE, [f]);
    StillFound(cloned, arena.spaces.Now(), arena.spaces.top, current, root, base, f);
  }

  lemma RangeFits(base: Word, n: nat, top: Level)
    requires GoodRange(base, n, top)
    ensures base + PAGE_SIZE * n <= TWO_64
  {
  }

  lemma ClonedRange(a: State, b: State, top: Level, current: nat, root: nat, base: Word, f: nat)
    requires current in a.roots && SpaceAdded(a, b, top, current, root) && GoodRange(base, 1, top) && f in a.data
    requires Index(base, top) >= 256 && FoundRange(a, top, current, base, [f])
    ensures current in b.roots && root in b.roots && root != current && f in b.data
    ensures FoundRange(b, top, current, base, [f]) && FoundRange(b, top, root, base, [f])
  {
    hide State.Find, Index, State.Alive, State.Ok, Childfree, Lively, Decode;
    assert PageAt(base, 0) == base;
  }

  lemma StillFound(a: State, b: State, top: Level, current: nat, root: nat, base: Word, f: nat)
    requires current in a.roots && root in a.roots && root != current && base + PAGE_SIZE <= TWO_64 && f in a.data
    requires FoundRange(a, top, root, base, [f]) && Freeing(a, b, top, current, base, 1, [f])
    ensures b.free == [f] + a.free && root in b.roots && FoundRange(b, top, root, base, [f]) && !Owned(b, top)
  {
    hide State.Find;
    assert [f][..1] == [f] && Reversed([f]) == [f];
    assert PageAt(base, 0) == base;
    var found := b.Find(top, root, base);
    assert found == a.Find(top, root, base);
    assert FrameFound(found, base) == f;
    assert f in Members(b.free) && !Held(b, f);
  }
}

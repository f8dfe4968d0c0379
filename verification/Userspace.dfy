/** The segment loop of the program loader: claim frames, copy the segment's bytes, map the pages. */
module Userspace {
  import opened PageEntries
  import opened Addresses
  import opened PageTables
  import opened PhysicalMemory
  import opened Pmm
  import opened FrameBytes
  import opened Spaces
  import opened SpaceClones
  import opened Ranges
  import opened Ownership
  import opened Runs
  import opened Vmm

  const PT_LOAD := 1

  /** The program header fields the loader reads. */
  datatype Segment = Segment(ptype: nat, flags: nat, offset: nat, vaddr: Word, filesz: nat, memsz: nat)
  {
    predicate IsLoad() { ptype == PT_LOAD }

    function Pages(): nat { if IsLoad() then PagesIn(memsz) else 0 }

    /** `to_pageflags`, with the user bit the loader adds: bit 0 is execute, bit 1 write, bit 2 read. */
    function PageFlagsOf(): PageFlags {
      PageFlags(flags / 4 % 2 == 1, flags / 2 % 2 == 1, flags % 2 == 1, true, false, false, false)
    }

    /** How many bytes from its start the loader writes. */
    function Written(): nat { if filesz == 0 then memsz else filesz }

    /** Within the address space, no longer in the file than in memory, and accessible at all. */
    ghost predicate Good(top: Level) {
      IsLoad() ==> GoodRange(vaddr, Pages(), top) && filesz <= memsz && flags % 8 != 0
    }
  }

  datatype LoadResult =
    | Loaded
    | NoRun        // the panic on a failed contiguous claim
    | ShortFile    // the panic on an index behind the end of the file
    | NoFrames     // the free list is down to one frame
    | NullPointer  // the contiguous claim wrote through a null pointer

  /** Memory changed in the claimed frames `fs` only. */
  ghost predicate Filled(a: State, b: State, fs: seq<nat>) {
    b == a.(frames := b.frames) && b.frames.Keys == a.frames.Keys
    && forall g | g in a.frames && g !in fs :: b.frames[g] == a.frames[g]
  }

  /** Filling frames of a range changes nothing the range loop relies on. */
  lemma MappingFilled(a: State, m: State, b: State, top: Level, root: nat, base: Word, taken: seq<nat>,
                      flags: PageFlags)
    requires root in a.roots && Mapping(a, m, top, root, base, 0, taken, flags) && Filled(m, b, taken) && m.Ok(top)
    ensures Mapping(a, b, top, root, base, 0, taken, flags) && SameFinds(m, b, top)
  {
    hide Forest, View, State.Find, State.Alive, LeafEntry, SameFinds, MappedRange, Grown;
    assert forall g | g in taken :: g in m.data;
    assert forall g | g in m.tabs.Values :: g in m.frames && g !in taken;
    SameTablesState(m, b, top);
    MappedRangeSame(a, m, b, top, root, base, taken[..0], flags);
    GrownFilled(a, m, b, taken);
  }

  lemma GrownFilled(a: State, m: State, b: State, taken: seq<nat>)
    requires Grown(a, m) && Filled(m, b, taken) && forall g | g in taken :: g !in a.data && g !in m.free
    ensures Grown(a, b)
  {
  }

  /**
   * The copying loops: `bytes` from `offset`, or zeros, into the run of frames from `first`; false when `bytes` is
   * too short.
   */
  method CopyIn(spaces: AddressSpaces, first: nat, bytes: seq<Byte>, offset: nat, count: nat, ghost fs: seq<nat>)
    returns (ok: bool)
    requires spaces.Valid() && Distinct(fs) && (forall g | g in fs :: g in spaces.data) && count <= PAGE_SIZE * |fs|
    requires forall k | 0 <= k < |fs| :: fs[k] == first + k
    modifies spaces.ram
    ensures spaces.Valid() && Filled(old(spaces.Now()), spaces.Now(), fs)
    ensures SameFinds(old(spaces.Now()), spaces.Now(), spaces.top)
    ensures Kept(old(spaces.ram.frames), spaces.ram.frames, fs, count, 0)
    ensures count == 0 ==> spaces.Now() == old(spaces.Now())
    ensures if ok then Holds(spaces.ram.frames, fs, bytes, offset, count) else count > 0 && offset + count > |bytes|
  {
    hide Links, SameFinds, State.Ok, FrameByte, Distinct, ByteIn, ClaimedFrames, SetByte, Step;
    ghost var start := spaces.Now();
    DataInMemory(start, spaces.top);
    SameFindsRefl(start, spaces.top);
    for i := 0 to count
      invariant spaces.Valid() && Filled(start, spaces.Now(), fs) && SameFinds(start, spaces.Now(), spaces.top)
      invariant i > 0 ==> offset + i <= |bytes|
      invariant i == 0 ==> spaces.Now() == start
      invariant forall g | g in fs :: g in spaces.ram.frames
      invariant forall j | 0 <= j < i :: ByteIn(spaces.ram.frames, fs, j) == bytes[offset + j]
      invariant Kept(start.frames, spaces.ram.frames, fs, i, 0)
    {
      if i + offset >= |bytes| {
        return false;
      }
      var f, o := first + i / PAGE_SIZE, i % PAGE_SIZE;
      assert f == fs[i / PAGE_SIZE] && f in fs;
      ghost var before := spaces.Now();
      var word := spaces.ram.frames[f][o / 8];
      SetByteEffect(word, o % 8, bytes[i + offset], 0);
      spaces.WriteData(f, o / 8, SetByte(word, o % 8, bytes[i + offset]));
      SameFindsTrans(start, before, spaces.Now(), spaces.top);
      forall j | 0 <= j < PAGE_SIZE * |fs|
        ensures ByteIn(spaces.ram.frames, fs, j) == if j == i then bytes[offset + i] else ByteIn(before.frames, fs, j)
      {
        ByteInStep(before.frames, fs, i, bytes[i + offset], j);
      }
    }
    ok := true;
  }

  function Zeros(n: nat): (z: seq<Byte>)
    ensures |z| == n
  {
    seq(n, i => 0)
  }

  /**
   * The segment's pages are found at the claimed frames `fs`, with its flags, and its bytes are in them. Behind these
   * the frames hold what they held in `m0`, when they were free, but for their links.
   */
  ghost predicate Placed(m0: Frames, b: State, top: Level, root: nat, s: Segment, fs: seq<nat>, bytes: seq<Byte>) {
    && |fs| == s.Pages() && |fs| > 0 && s.vaddr + PAGE_SIZE * |fs| <= TWO_64 && (forall g | g in fs :: g in b.data)
    && PagesAt(b, top, root, s.vaddr, fs, s.PageFlagsOf())
    && Contents(b.frames, s, fs, bytes) && Kept(m0, b.frames, fs, s.Written(), LINK_BYTES)
  }

  /** A segment with nothing in the file is cleared; otherwise only its file part is written. */
  ghost predicate Contents(m: Frames, s: Segment, fs: seq<nat>, bytes: seq<Byte>) {
    Holds(m, fs, bytes, s.offset, s.filesz) && (s.filesz == 0 ==> Holds(m, fs, Zeros(s.memsz), 0, s.memsz))
  }

  ghost predicate PagesAt(b: State, top: Level, root: nat, base: Word, fs: seq<nat>, flags: PageFlags)
    requires base + PAGE_SIZE * |fs| <= TWO_64
  {
    forall k, va | 0 <= k < |fs| && SamePage(va, PageAt(base, k), top, 1) ::
      b.Find(top, root, va) == Stop(LeafEntry(fs[k], flags), 1)
  }

  lemma ClaimedSame(a: State, b: State, fs: seq<nat>)
    requires Grown(a, b) && forall g | g in fs :: g in a.data
    ensures SameFrames(a.frames, b.frames, fs)
  {
  }

  lemma ContentsKept(a: State, b: State, s: Segment, fs: seq<nat>, bytes: seq<Byte>)
    requires Contents(a.frames, s, fs, bytes) && SameFrames(a.frames, b.frames, fs)
    ensures Contents(b.frames, s, fs, bytes)
  {
    hide Holds;
    HoldsSame(a.frames, b.frames, fs, bytes, s.offset, s.filesz);
    if s.filesz == 0 { HoldsSame(a.frames, b.frames, fs, Zeros(s.memsz), 0, s.memsz); }
  }

  lemma PlacedNow(a: State, b: State, top: Level, root: nat, s: Segment, fs: seq<nat>, bytes: seq<Byte>)
    requires |fs| == s.Pages() > 0 && Mapping(a, b, top, root, s.vaddr, |fs|, fs, s.PageFlagsOf())
    requires Contents(b.frames, s, fs, bytes) && Kept(a.frames, b.frames, fs, s.Written(), 0)
    ensures b.Alive() && Grown(a, b) && b.data == a.data + Members(fs)
    ensures s.vaddr + PAGE_SIZE * |fs| <= TWO_64 && MappedRange(a, b, top, root, s.vaddr, fs, s.PageFlagsOf())
    ensures Placed(a.frames, b, top, root, s, fs, bytes)
    ensures forall g | g in fs :: g in a.free
  {
    hide State.Find, State.Ok, State.Alive, SamePage, Contents, LeafEntry, Kept;
    assert fs[..|fs|] == fs;
    KeptLess(a.frames, b.frames, fs, s.Written());
  }

  /**
   * One turn of the loader's segment loop. The memory part behind the file part is zero exactly if the segment has no
   * file part or the frames happened to hold zeros there.
   */
  method LoadSegment(spaces: AddressSpaces, root: nat, s: Segment, bytes: seq<Byte>)
    returns (res: LoadResult, ghost fs: seq<nat>)
    requires spaces.Valid() && spaces.Now().Alive() && root in spaces.roots && s.IsLoad() && s.Good(spaces.top)
    requires NothingMapped(spaces.Now(), spaces.top, root, s.vaddr, s.Pages())
    modifies spaces, spaces.pmm, spaces.ram
    ensures res.Loaded? ==> spaces.Valid() && spaces.Now().Alive() && Grown(old(spaces.Now()), spaces.Now())
    ensures res.Loaded? ==> |fs| == s.Pages() && forall g | g in fs :: g in old(spaces.pmm.free)
    ensures res.Loaded? ==>
      MappedRange(old(spaces.Now()), spaces.Now(), spaces.top, root, s.vaddr, fs, s.PageFlagsOf())
    ensures res.Loaded? ==> Placed(old(spaces.ram.frames), spaces.Now(), spaces.top, root, s, fs, bytes)
    ensures res.Loaded? ==> Kept(old(spaces.ram.frames), spaces.ram.frames, fs, s.Written(), 0)
    ensures res.Loaded? ==>
      (Zeroed(spaces.ram.frames, fs, s.filesz, s.memsz) <==>
       s.filesz == 0 || Zeroed(old(spaces.ram.frames), fs, s.filesz, s.memsz))
    ensures res.Loaded? && 0 < s.filesz <= 8 && s.memsz >= 16 ==>
      LinkLeft(spaces.ram.hhdm, old(spaces.pmm.free), spaces.ram.frames, fs)
      && !Zeroed(spaces.ram.frames, fs, s.filesz, s.memsz)
    ensures res.NoFrames? ==> |spaces.pmm.free| == 1
    ensures res.NoRun? ==>
      spaces.Valid() && spaces.Now() == old(spaces.Now()) && NoGoodRun(spaces.ram.hhdm, spaces.pmm.free, s.Pages())
    ensures res.ShortFile? ==> s.filesz > 0 && s.offset + s.filesz > |bytes|
    ensures res.NullPointer? ==> RunAtTail(spaces.ram.hhdm, old(spaces.pmm.free), s.Pages())
  {
    hide Links, State.Ok, State.Alive, NothingMapped, GoodRange, Mapping, MappedRange, SameFinds, TookFrames, Grown,
      Contents, Placed, Holds, Distinct, PageFlags.Accessible, Filled, NoGoodRun, RunAtTail, Kept, Zeroed, LinkLeft,
      SameFrames;
    ghost var start := spaces.Now();
    var n := s.Pages();
    var flags := s.PageFlagsOf();
    assert flags.Accessible() by { SegmentAccessible(s); }
    if n == 1 && spaces.pmm.len < 2 {
      return NoFrames, [];
    }
    MappingStart(start, spaces.top, root, s.vaddr, flags);
    OneAtTail(spaces.ram.hhdm, spaces.pmm.free);
    ghost var head, tail := spaces.pmm.head, spaces.pmm.tail;
    var claim;
    claim, fs := spaces.ClaimFrames(n);
    if claim.NoRun? {
      return LoadResult.NoRun, [];
    } else if claim.NullWrite? {
      return NullPointer, [];
    }
    FrameOfPtr(spaces.ram.hhdm, fs[0]);
    var first := FrameOf(spaces.ram.hhdm, claim.ptr);
    assert Distinct(fs) by { ConsecutiveDistinct(fs); }
    MappingTook(start, start, spaces.Now(), spaces.top, root, s.vaddr, 0, [], fs, flags);
    assert [] + fs == fs;
    ghost var claimed := spaces.Now();
    MappingGrown(start, claimed, spaces.top, root, s.vaddr, 0, fs, flags);
    TookSame(start, claimed, spaces.top, fs);
    var fits := FillSegment(spaces, first, s, bytes, fs);
    if !fits {
      return ShortFile, fs;
    }
    ghost var filled := spaces.Now();
    MappingFilled(start, claimed, filled, spaces.top, root, s.vaddr, fs, flags);
    KeptFrames(claimed.frames, filled.frames, fs, s.Written(), 0);
    var mapped := MapPages(spaces, root, s.vaddr, n, first, flags, start, fs);
    if !mapped {
      return NoFrames, fs;
    }
    ContentsKept(filled, spaces.Now(), s, fs, bytes);
    KeptSame(start.frames, claimed.frames, filled.frames, spaces.ram.frames, fs, s.Written(), 0);
    PlacedNow(start, spaces.Now(), spaces.top, root, s, fs, bytes);
    MemoryPart(start.frames, spaces.ram.frames, s, fs, bytes);
    LinkStays(start, spaces.ram.frames, spaces.ram.hhdm, head, tail, s, fs);
    res := Loaded;
  }

  /** Maps the pages from `base` to the frames from `first`; false when the free list is down to one frame. */
  method MapPages(spaces: AddressSpaces, root: nat, base: Word, n: nat, first: nat, flags: PageFlags,
                  ghost start: State, ghost fs: seq<nat>)
    returns (ok: bool)
    requires n == |fs| && spaces.Valid() && root in start.roots && flags.Accessible()
    requires GoodRange(base, |fs|, spaces.top)
    requires NothingMapped(start, spaces.top, root, base, |fs|)
    requires Mapping(start, spaces.Now(), spaces.top, root, base, 0, fs, flags)
    requires SameFrames(spaces.ram.frames, spaces.ram.frames, fs) && forall k | 0 <= k < |fs| :: fs[k] == first + k
    modifies spaces, spaces.pmm, spaces.ram
    ensures ok ==> spaces.Valid() && Mapping(start, spaces.Now(), spaces.top, root, base, |fs|, fs, flags)
    ensures ok ==> SameFrames(old(spaces.ram.frames), spaces.ram.frames, fs)
    ensures !ok ==> |spaces.pmm.free| == 1
  {
    hide Links, State.Ok, State.Alive, NothingMapped, GoodRange, Mapping, MappedRange, Grown, Distinct,
      PageFlags.Accessible, SameFrames;
    for k := 0 to n
      invariant spaces.Valid() && Mapping(start, spaces.Now(), spaces.top, root, base, k, fs, flags)
      invariant SameFrames(old(spaces.ram.frames), spaces.ram.frames, fs)
    {
      ghost var before := spaces.Now();
      MappingGrown(start, before, spaces.top, root, base, k, fs, flags);
      ok := spaces.MapNext(root, base, k, first + k, flags, start, n, fs);
      if !ok {
        return;
      }
      ClaimedSame(before, spaces.Now(), fs);
      SameFramesTrans(old(spaces.ram.frames), before.frames, spaces.ram.frames, fs);
    }
    ok := true;
  }

  lemma SameFramesTrans(m0: Frames, m1: Frames, m2: Frames, fs: seq<nat>)
    requires SameFrames(m0, m1, fs) && SameFrames(m1, m2, fs)
    ensures SameFrames(m0, m2, fs)
  {
  }

  lemma TookSame(a: State, b: State, top: Level, fs: seq<nat>)
    requires TookFrames(a, b, fs) && a.Ok(top)
    ensures SameFrames(a.frames, b.frames, fs) && forall g | g in fs :: g in a.free
  {
    hide Forest, View;
  }

  /** The memory part behind the file part is zero exactly if there is no file part, or it was. */
  lemma MemoryPart(m0: Frames, m: Frames, s: Segment, fs: seq<nat>, bytes: seq<Byte>)
    requires |fs| == s.Pages() && s.IsLoad() && Contents(m, s, fs, bytes) && Kept(m0, m, fs, s.Written(), 0)
    ensures Zeroed(m, fs, s.filesz, s.memsz) <==> s.filesz == 0 || Zeroed(m0, fs, s.filesz, s.memsz)
  {
    hide ByteIn;
    if s.filesz > 0 { ZeroedKept(m0, m, fs, s.filesz, s.memsz); }
  }

  /** Bytes 8 to 15 of the first frame are a pointer the kernel had there: the direct-map pointer of a free frame. */
  ghost predicate LinkLeft(hhdm: Word, free: seq<nat>, m: Frames, fs: seq<nat>) {
    exists g | g in free :: 0 < Ptr(hhdm, g) < TWO_64 && SecondWord(m, fs, Ptr(hhdm, g))
  }

  /** Behind a file part of at most 8 bytes the `next` link of the first frame stays, and it is not null. */
  lemma LinkStays(a: State, m: Frames, hhdm: Word, head: Word, tail: Word, s: Segment, fs: seq<nat>)
    requires Links(a.frames, hhdm, head, tail, |a.free|, a.free) && hhdm > 0 && fs != []
    requires fs[0] in a.free && fs[0] != a.free[|a.free| - 1]
    requires Kept(a.frames, m, fs, s.Written(), 0)
    ensures 0 < s.filesz <= 8 && s.memsz >= 16 ==> LinkLeft(hhdm, a.free, m, fs) && !Zeroed(m, fs, s.filesz, s.memsz)
  {
    hide Links, Kept, Zeroed, SecondWord;
    if 0 < s.filesz <= 8 && s.memsz >= 16 {
      var g := NextLink(a.frames, hhdm, head, tail, a.free, fs[0]);
      SecondWordKept(a.frames, m, fs, s.filesz);
      SecondWordNotZero(m, fs, Ptr(hhdm, g), s.filesz, s.memsz);
    }
  }

  /** Clears a segment that has nothing in the file, then copies what it has. */
  method FillSegment(spaces: AddressSpaces, first: nat, s: Segment, bytes: seq<Byte>, ghost fs: seq<nat>)
    returns (ok: bool)
    requires spaces.Valid() && Distinct(fs) && (forall g | g in fs :: g in spaces.data)
    requires |fs| == s.Pages() && s.IsLoad() && s.filesz <= s.memsz
    requires forall k | 0 <= k < |fs| :: fs[k] == first + k
    modifies spaces.ram
    ensures spaces.Valid() && Filled(old(spaces.Now()), spaces.Now(), fs)
    ensures Kept(old(spaces.ram.frames), spaces.ram.frames, fs, s.Written(), 0)
    ensures if ok then Contents(spaces.ram.frames, s, fs, bytes) else s.filesz > 0 && s.offset + s.filesz > |bytes|
  {
    hide Links, State.Ok, SameFinds, Distinct, ByteIn;
    if s.filesz == 0 {
      var cleared := CopyIn(spaces, first, Zeros(s.memsz), 0, s.memsz, fs);
      assert cleared;
    }
    ok := CopyIn(spaces, first, bytes, s.offset, s.filesz, fs);
  }

  lemma HalfOf(a: nat, r: nat)
    ensures (2 * a + r) / 2 == a + r / 2 && (2 * a + r) % 2 == r % 2
  {
  }

  lemma QuarterOf(n: nat)
    ensures n / 4 == n / 2 / 2
  {
  }

  /** The low three bits of a number are those of its remainder. */
  lemma ThreeBits(a: nat, r: nat)
    ensures (8 * a + r) % 2 == r % 2 && (8 * a + r) / 2 % 2 == r / 2 % 2 && (8 * a + r) / 4 % 2 == r / 2 / 2 % 2
  {
    HalfOf(4 * a, r);
    HalfOf(2 * a, r / 2);
    HalfOf(a, r / 2 / 2);
    QuarterOf(8 * a + r);
  }

  lemma SegmentAccessible(s: Segment)
    requires s.flags % 8 != 0
    ensures s.PageFlagsOf().Accessible()
  {
    var r := s.flags % 8;
    ThreeBits(s.flags / 8, r);
    assert s.flags == 8 * (s.flags / 8) + r;
    assert r in {1, 3, 5, 7} || r in {2, 6} || r == 4;
  }

  /** Every segment is good, and no two share a page. */
  ghost predicate GoodSegments(segs: seq<Segment>, top: Level) {
    && (forall i | 0 <= i < |segs| :: segs[i].Good(top))
    && (forall i, j | 0 <= i < j < |segs| && segs[i].IsLoad() && segs[j].IsLoad() :: Apart(segs[i], segs[j], top))
  }

  ghost predicate Apart(s: Segment, t: Segment, top: Level)
    requires s.Good(top) && t.Good(top) && s.IsLoad() && t.IsLoad()
  {
    forall k, l | 0 <= k < s.Pages() && 0 <= l < t.Pages() :: !SamePage(PageAt(s.vaddr, k), PageAt(t.vaddr, l), top, 1)
  }

  ghost predicate OffSegment(va: Word, s: Segment, top: Level)
    requires s.Good(top)
  {
    s.IsLoad() ==> OffRange(va, s.vaddr, s.Pages(), top)
  }

  ghost predicate OffSegments(va: Word, segs: seq<Segment>, j: nat, top: Level)
    requires j <= |segs| && GoodSegments(segs, top)
  {
    forall i | 0 <= i < j :: OffSegment(va, segs[i], top)
  }

  /** After `j` segments: each is placed, and no other address finds anything else than at the start. */
  ghost predicate Loading(a: State, b: State, top: Level, root: nat, segs: seq<Segment>, j: nat,
                          placed: seq<seq<nat>>, bytes: seq<Byte>)
    requires j <= |segs| && GoodSegments(segs, top)
  {
    && b.Ok(top) && b.Alive() && Grown(a, b) && |placed| == j
    && (forall i | 0 <= i < j && segs[i].IsLoad() :: Placed(a.frames, b, top, root, segs[i], placed[i], bytes))
    && (forall r, va | r in a.roots && (r != root || OffSegments(va, segs, j, top)) ::
       b.Find(top, r, va) == a.Find(top, r, va))
  }

  /** An address on a page of one of two segments is on no page of the other. */
  lemma ApartPages(s: Segment, t: Segment, top: Level, k: nat, va: Word)
    requires s.Good(top) && t.Good(top) && s.IsLoad() && t.IsLoad() && (Apart(s, t, top) || Apart(t, s, top))
    requires k < s.Pages() && SamePage(va, PageAt(s.vaddr, k), top, 1)
    ensures OffSegment(va, t, top)
  {
    hide SamePage, PageCount;
    forall l | 0 <= l < t.Pages()
      ensures !SamePage(va, PageAt(t.vaddr, l), top, 1)
    {
      SamePageFlip(PageAt(t.vaddr, l), PageAt(s.vaddr, k), top, 1);
      if SamePage(va, PageAt(t.vaddr, l), top, 1) {
        SamePageTrans(va, PageAt(s.vaddr, k), PageAt(t.vaddr, l), top, 1);
        SamePageTrans(va, PageAt(t.vaddr, l), PageAt(s.vaddr, k), top, 1);
      }
    }
  }

  /** A segment stays placed while another one is loaded. */
  lemma PlacedKept(m0: Frames, m: State, b: State, top: Level, root: nat, s: Segment, fs: seq<nat>, t: Segment,
                   gs: seq<nat>, bytes: seq<Byte>)
    requires s.Good(top) && t.Good(top) && s.IsLoad() && t.IsLoad() && Apart(s, t, top) && root in m.roots
    requires Placed(m0, m, top, root, s, fs, bytes) && Grown(m, b)
    requires |gs| == t.Pages() && MappedRange(m, b, top, root, t.vaddr, gs, t.PageFlagsOf())
    ensures Placed(m0, b, top, root, s, fs, bytes)
  {
    hide SamePage, State.Find, Contents, LeafEntry, GoodRange, Apart, Kept;
    ClaimedSame(m, b, fs);
    ContentsKept(m, b, s, fs, bytes);
    KeptFrames(m0, m.frames, fs, s.Written(), LINK_BYTES);
    KeptSame(m0, m0, m.frames, b.frames, fs, s.Written(), LINK_BYTES);
    forall k, va | 0 <= k < |fs| && SamePage(va, PageAt(s.vaddr, k), top, 1)
      ensures b.Find(top, root, va) == Stop(LeafEntry(fs[k], s.PageFlagsOf()), 1)
    {
      ApartPages(s, t, top, k, va);
    }
  }

  /** The next segment still has nothing on its pages. */
  lemma NextSegment(a: State, m: State, top: Level, root: nat, segs: seq<Segment>, j: nat, placed: seq<seq<nat>>,
                    bytes: seq<Byte>)
    requires j < |segs| && GoodSegments(segs, top) && segs[j].IsLoad() && root in a.roots
    requires Loading(a, m, top, root, segs, j, placed, bytes)
    requires NothingMapped(a, top, root, segs[j].vaddr, segs[j].Pages())
    ensures NothingMapped(m, top, root, segs[j].vaddr, segs[j].Pages())
  {
    hide SamePage, State.Find, Placed, PageCount, Apart, State.Ok, State.Alive, Grown;
    var s := segs[j];
    forall k, va | 0 <= k < s.Pages() && SamePage(va, PageAt(s.vaddr, k), top, 1)
      ensures m.Find(top, root, va) == Missing
    {
      forall i | 0 <= i < j
        ensures OffSegment(va, segs[i], top)
      {
        if segs[i].IsLoad() { ApartPages(s, segs[i], top, k, va); }
      }
      assert OffSegments(va, segs, j, top);
    }
  }

  lemma KeptSinceStart(a: State, m: State, b: State, fs: seq<nat>, from: nat)
    requires Grown(a, m) && (forall g | g in fs :: g in m.free) && Kept(m.frames, b.frames, fs, from, 0)
    ensures Kept(a.frames, b.frames, fs, from, LINK_BYTES)
  {
    KeptSince(a.frames, m.frames, b.frames, m.free, fs, from);
  }

  lemma PlacedSince(m0: Frames, m1: Frames, b: State, top: Level, root: nat, s: Segment, fs: seq<nat>, bytes: seq<Byte>)
    requires Placed(m1, b, top, root, s, fs, bytes) && Kept(m0, b.frames, fs, s.Written(), LINK_BYTES)
    ensures Placed(m0, b, top, root, s, fs, bytes)
  {
    hide State.Find, SamePage, Contents, Kept;
  }

  lemma LoadingStep(a: State, m: State, b: State, top: Level, root: nat, segs: seq<Segment>, j: nat,
                    placed: seq<seq<nat>>, fs: seq<nat>, bytes: seq<Byte>)
    requires j < |segs| && GoodSegments(segs, top) && segs[j].IsLoad() && root in a.roots
    requires Loading(a, m, top, root, segs, j, placed, bytes) && b.Ok(top) && b.Alive() && Grown(m, b)
    requires |fs| == segs[j].Pages() && MappedRange(m, b, top, root, segs[j].vaddr, fs, segs[j].PageFlagsOf())
    requires Placed(m.frames, b, top, root, segs[j], fs, bytes) && Kept(m.frames, b.frames, fs, segs[j].Written(), 0)
    requires forall g | g in fs :: g in m.free
    ensures Loading(a, b, top, root, segs, j + 1, placed + [fs], bytes)
  {
    hide SamePage, State.Find, Placed, GoodRange, Apart, State.Ok, State.Alive, LeafEntry, Grown, Kept;
    GrownTrans(a, m, b);
    GrownRoots(a, m);
    forall i | 0 <= i < j + 1 && segs[i].IsLoad()
      ensures Placed(a.frames, b, top, root, segs[i], (placed + [fs])[i], bytes)
    {
      if i < j {
        PlacedKept(a.frames, m, b, top, root, segs[i], placed[i], segs[j], fs, bytes);
      } else {
        KeptSinceStart(a, m, b, fs, segs[j].Written());
        PlacedSince(a.frames, m.frames, b, top, root, segs[j], fs, bytes);
      }
    }
    forall r, va | r in a.roots && (r != root || OffSegments(va, segs, j + 1, top))
      ensures b.Find(top, r, va) == a.Find(top, r, va)
    {
      if r == root {
        assert OffSegments(va, segs, j, top);
        assert OffSegment(va, segs[j], top);
      }
    }
  }

  /** Why the loader can stop at a segment, with the free list it found there. */
  ghost predicate LoadFails(res: LoadResult, hhdm: Word, free: seq<nat>, s: Segment, bytes: seq<Byte>) {
    match res
    case NoRun => NoGoodRun(hhdm, free, s.Pages())
    case ShortFile => s.filesz > 0 && s.offset + s.filesz > |bytes|
    case NullPointer => RunAtTail(hhdm, free, s.Pages())
    case _ => true
  }

  /** All segments before one that fails were loaded by the state `at`. */
  ghost predicate Stopped(res: LoadResult, hhdm: Word, a: State, at: State, top: Level, root: nat, segs: seq<Segment>,
                          placed: seq<seq<nat>>, bytes: seq<Byte>)
    requires GoodSegments(segs, top)
  {
    exists j | 0 <= j < |segs| ::
      segs[j].IsLoad() && Loading(a, at, top, root, segs, j, placed, bytes)
        && LoadFails(res, hhdm, at.free, segs[j], bytes)
  }

  /** The loader's segment loop: segments of other types are passed over. */
  method LoadSegments(spaces: AddressSpaces, root: nat, segs: seq<Segment>, bytes: seq<Byte>)
    returns (res: LoadResult, ghost placed: seq<seq<nat>>, ghost at: State)
    requires spaces.Valid() && spaces.Now().Alive() && root in spaces.roots && GoodSegments(segs, spaces.top)
    requires forall i | 0 <= i < |segs| && segs[i].IsLoad() ::
      NothingMapped(spaces.Now(), spaces.top, root, segs[i].vaddr, segs[i].Pages())
    modifies spaces, spaces.pmm, spaces.ram
    ensures res.Loaded? ==>
      spaces.Valid() && Loading(old(spaces.Now()), spaces.Now(), spaces.top, root, segs, |segs|, placed, bytes)
    ensures res.Loaded? && Owned(old(spaces.Now()), spaces.top) ==> Owned(spaces.Now(), spaces.top)
    ensures res.Loaded? ==> ProgramAccess(spaces.Now(), spaces.top, root, segs) && Loadable(segs, bytes)
    ensures !res.Loaded? ==> Stopped(res, spaces.ram.hhdm, old(spaces.Now()), at, spaces.top, root, segs, placed, bytes)
    ensures res.NoFrames? ==> |spaces.pmm.free| == 1
  {
    hide Links, State.Ok, State.Alive, NothingMapped, MappedRange, Grown, Contents, Placed, Segment.Good, Apart,
      State.Find, GoodSegments, Loading, Owned, ProgramAccess, Loadable;
    ghost var start := spaces.Now();
    placed := [];
    LoadingStart(start, spaces.top, root, segs, bytes);
    for j := 0 to |segs|
      invariant spaces.Valid() && Loading(start, spaces.Now(), spaces.top, root, segs, j, placed, bytes)
    {
      ghost var before := spaces.Now();
      LoadingFacts(start, before, spaces.top, root, segs, j, placed, bytes);
      if segs[j].IsLoad() {
        NextSegment(start, before, spaces.top, root, segs, j, placed, bytes);
        ghost var fs;
        res, fs := LoadSegment(spaces, root, segs[j], bytes);
        if !res.Loaded? {
          assert LoadFails(res, spaces.ram.hhdm, before.free, segs[j], bytes);
          return res, placed, before;
        }
        LoadingStep(start, before, spaces.Now(), spaces.top, root, segs, j, placed, fs, bytes);
        placed := placed + [fs];
      } else {
        LoadingSkip(start, before, spaces.top, root, segs, j, placed, bytes);
        placed := placed + [[]];
      }
    }
    LoadingOwned(start, spaces.Now(), spaces.top, root, segs, placed, bytes);
    LoadedAccess(start, spaces.Now(), spaces.top, root, segs, placed, bytes);
    LoadedLoadable(start, spaces.Now(), spaces.top, root, segs, placed, bytes);
    res, at := Loaded, spaces.Now();
  }

  /** Loading keeps every address on claimed memory. */
  lemma LoadingOwned(a: State, b: State, top: Level, root: nat, segs: seq<Segment>, placed: seq<seq<nat>>,
                     bytes: seq<Byte>)
    requires GoodSegments(segs, top) && root in a.roots && Loading(a, b, top, root, segs, |segs|, placed, bytes)
    ensures Owned(a, top) ==> Owned(b, top)
  {
    hide State.Find, State.Ok, State.Alive, Held, Kept, Contents, SamePage, LeafEntry, FrameFound, Segment.Good, Apart;
    if Owned(a, top) {
      assert Keeping(a, b);
      forall r, va | r in b.roots && b.Find(top, r, va).Hit?
        ensures Held(b, FrameFound(b.Find(top, r, va), va))
      {
        if r == root && !OffSegments(va, segs, |segs|, top) {
          var i :| 0 <= i < |segs| && !OffSegment(va, segs[i], top);
          SegmentHeld(a.frames, b, top, root, segs[i], placed[i], bytes, va);
        } else {
          HeldKept(a, b, FrameFound(a.Find(top, r, va), va));
        }
      }
    }
  }

  lemma SegmentHeld(m0: Frames, b: State, top: Level, root: nat, s: Segment, fs: seq<nat>, bytes: seq<Byte>, va: Word)
    requires s.Good(top) && s.IsLoad() && Placed(m0, b, top, root, s, fs, bytes) && !OffSegment(va, s, top)
    ensures b.Find(top, root, va).Hit? ==> Held(b, FrameFound(b.Find(top, root, va), va))
  {
    hide State.Find, Kept, Contents, SamePage, LeafEntry, PageFlags.Accessible;
    var k :| 0 <= k < |fs| && SamePage(va, PageAt(s.vaddr, k), top, 1);
    SegmentAccessible(s);
    LeafOfFrame(fs[k], s.PageFlagsOf(), va);
    HeldData(b, fs[k]);
  }

  lemma LoadingStart(a: State, top: Level, root: nat, segs: seq<Segment>, bytes: seq<Byte>)
    requires a.Ok(top) && a.Alive() && GoodSegments(segs, top)
    ensures Loading(a, a, top, root, segs, 0, [], bytes)
  {
    GrownStart(a, top);
  }

  lemma LoadingFacts(a: State, b: State, top: Level, root: nat, segs: seq<Segment>, j: nat, placed: seq<seq<nat>>,
                     bytes: seq<Byte>)
    requires j <= |segs| && GoodSegments(segs, top) && Loading(a, b, top, root, segs, j, placed, bytes)
    ensures b.Alive() && b.roots == a.roots && |placed| == j && (j < |segs| ==> segs[j].Good(top))
  {
  }

  lemma LoadingSkip(a: State, b: State, top: Level, root: nat, segs: seq<Segment>, j: nat, placed: seq<seq<nat>>,
                    bytes: seq<Byte>)
    requires j < |segs| && GoodSegments(segs, top)
    requires Loading(a, b, top, root, segs, j, placed, bytes) && !segs[j].IsLoad()
    ensures Loading(a, b, top, root, segs, j + 1, placed + [[]], bytes)
  {
    hide SamePage, State.Find, Placed, GoodRange, Apart, State.Ok, State.Alive, Grown, OffRange;
    forall r, va | r in a.roots && (r != root || OffSegments(va, segs, j + 1, top))
      ensures b.Find(top, r, va) == a.Find(top, r, va)
    {
      if r == root { assert OffSegments(va, segs, j, top); }
    }
  }

  /** An address in a range is on the page it is in, counted from the page the range starts in. */
  lemma InPage(base: Word, n: nat, top: Level, i: nat)
    requires GoodRange(base, n, top) && base % PAGE_SIZE + i < PAGE_SIZE * n
    ensures SamePage(base + i, PageAt(base, (base % PAGE_SIZE + i) / PAGE_SIZE), top, 1)
  {
    var a, b := base + i, PageAt(base, (base % PAGE_SIZE + i) / PAGE_SIZE);
    SamePageNumber(a, b, top, 1);
    PageNumberArith(a, top, 1);
    PageNumberArith(b, top, 1);
    hide PageNumber, SamePage;
    SamePageIndex(base, i);
  }

  lemma SamePageIndex(base: nat, i: nat)
    ensures (base + i) / PAGE_SIZE == (base + PAGE_SIZE * ((base % PAGE_SIZE + i) / PAGE_SIZE)) / PAGE_SIZE
  {
    var q, x := base / PAGE_SIZE, base % PAGE_SIZE + i;
    assert base + i == PAGE_SIZE * q + x;
    assert (base + i) / PAGE_SIZE == q + x / PAGE_SIZE;
  }

  /** The physical address of byte `i` of the frames. */
  function Place(fs: seq<nat>, i: nat): nat
    requires i < PAGE_SIZE * |fs|
  {
    PAGE_SIZE * fs[i / PAGE_SIZE] + i % PAGE_SIZE
  }

  /**
   * What a placed segment's addresses translate to, with the access bits of the segment and the user bit: the address
   * `i` bytes into the segment is found at byte `i` of the frames plus the offset of the segment in its first page.
   * Bit 0 of the segment's flags is execute, bit 1 write and bit 2 read.
   */
  lemma LoadedAt(m0: Frames, b: State, top: Level, root: nat, s: Segment, fs: seq<nat>, bytes: seq<Byte>, i: nat)
    requires s.Good(top) && s.ptype == 1 && Placed(m0, b, top, root, s, fs, bytes)
    requires s.vaddr % PAGE_SIZE + i < PAGE_SIZE * |fs|
    ensures s.vaddr + i < TWO_64
    ensures var f, x := b.Find(top, root, s.vaddr + i), s.vaddr % PAGE_SIZE + i;
      && f.Hit? && f.level == 1 && AddressOf(f, s.vaddr + i) == Ok(Place(fs, x))
      && f.entry.ppn == fs[x / PAGE_SIZE] && AccessOf(f.entry, s.flags)
  {
    hide State.Find, SamePage, LeafAddress, PagesIn, Kept, Contents, LeafEntry;
    var k := (s.vaddr % PAGE_SIZE + i) / PAGE_SIZE;
    InPage(s.vaddr, s.Pages(), top, i);
    SegmentAccessible(s);
    EntryIsLeaf(fs[k], s.PageFlagsOf());
    SegmentAccess(s, fs[k]);
    ByteAddress(fs[k], s.vaddr, i);
  }

  /** The access bits of an entry for a segment with these flags: bit 0 executes, bit 1 writes and bit 2 reads. */
  ghost predicate AccessOf(e: Pte, flags: nat) {
    && e.valid && e.user && (e.exec <==> flags % 2 == 1) && (e.write <==> flags / 2 % 2 == 1)
    && (e.read <==> flags / 4 % 2 == 1) && !e.global && e.pbmt == 0
  }

  lemma SegmentAccess(s: Segment, f: nat)
    ensures AccessOf(LeafEntry(f, s.PageFlagsOf()), s.flags)
  {
    LeafFields(f, s.PageFlagsOf());
  }

  /** Every address on the pages of a loadable segment is found, with the access the segment asks for. */
  ghost predicate ProgramAccess(b: State, top: Level, root: nat, segs: seq<Segment>) {
    forall j, va: Word |
      0 <= j < |segs| && segs[j].ptype == 1 && segs[j].vaddr <= va
      && va - segs[j].vaddr + segs[j].vaddr % 4096 < 4096 * PagesIn(segs[j].memsz) ::
      var f := b.Find(top, root, va); f.Hit? && f.level == 1 && AccessOf(f.entry, segs[j].flags)
  }

  /** No loadable segment is empty in memory or longer than the file. */
  ghost predicate Loadable(segs: seq<Segment>, bytes: seq<Byte>) {
    forall j | 0 <= j < |segs| && segs[j].ptype == 1 ::
      segs[j].memsz > 0 && (segs[j].filesz > 0 ==> segs[j].offset + segs[j].filesz <= |bytes|)
  }

  lemma LoadedAccess(a: State, b: State, top: Level, root: nat, segs: seq<Segment>, placed: seq<seq<nat>>,
                     bytes: seq<Byte>)
    requires GoodSegments(segs, top) && Loading(a, b, top, root, segs, |segs|, placed, bytes)
    ensures ProgramAccess(b, top, root, segs)
  {
    hide State.Find, State.Ok, State.Alive, SamePage, PagesIn, Kept, Contents, PagesAt, AccessOf, Place, Grown, Apart;
    forall j, va: Word |
      0 <= j < |segs| && segs[j].ptype == 1 && segs[j].vaddr <= va
      && va - segs[j].vaddr + segs[j].vaddr % 4096 < 4096 * PagesIn(segs[j].memsz)
      ensures var f := b.Find(top, root, va); f.Hit? && f.level == 1 && AccessOf(f.entry, segs[j].flags)
    {
      assert segs[j].IsLoad() && segs[j].Good(top);
      LoadedAt(a.frames, b, top, root, segs[j], placed[j], bytes, va - segs[j].vaddr);
    }
  }

  lemma LoadedLoadable(a: State, b: State, top: Level, root: nat, segs: seq<Segment>, placed: seq<seq<nat>>,
                       bytes: seq<Byte>)
    requires GoodSegments(segs, top) && Loading(a, b, top, root, segs, |segs|, placed, bytes)
    ensures Loadable(segs, bytes)
  {
    hide State.Find, State.Ok, State.Alive, Placed, Grown, Segment.Good, Apart;
    forall j | 0 <= j < |segs| && segs[j].ptype == 1
      ensures segs[j].memsz > 0 && (segs[j].filesz > 0 ==> segs[j].offset + segs[j].filesz <= |bytes|)
    {
      PlacedLoadable(a.frames, b, top, root, segs[j], placed[j], bytes);
    }
  }

  lemma PlacedLoadable(m0: Frames, b: State, top: Level, root: nat, s: Segment, fs: seq<nat>, bytes: seq<Byte>)
    requires s.IsLoad() && Placed(m0, b, top, root, s, fs, bytes)
    ensures s.memsz > 0 && (s.filesz > 0 ==> s.offset + s.filesz <= |bytes|)
  {
    hide State.Find, SamePage, Kept, PagesAt;
  }

  lemma ByteAddress(f: nat, base: Word, i: nat)
    requires base + i < TWO_64
    ensures LeafAddress(f, 1, base + i) == PAGE_SIZE * f + (base % PAGE_SIZE + i) % PAGE_SIZE
  {
    assert (base + i) % PAGE_SIZE == (base % PAGE_SIZE + i) % PAGE_SIZE;
  }

  /** The file's byte `i` lies at byte `i` of the frames. */
  lemma ByteInPlace(m0: Frames, b: State, top: Level, root: nat, s: Segment, fs: seq<nat>, bytes: seq<Byte>, i: nat)
    requires s.Good(top) && s.IsLoad() && Placed(m0, b, top, root, s, fs, bytes) && i < s.filesz
    ensures s.offset + i < |bytes| && i < PAGE_SIZE * |fs|
    ensures Place(fs, i) / PAGE_SIZE in b.frames
    ensures FrameByte(b.frames[Place(fs, i) / PAGE_SIZE], Place(fs, i) % PAGE_SIZE) == bytes[s.offset + i]
  {
    hide State.Find, SamePage, FrameByte, Kept, PagesAt;
    assert fs[i / PAGE_SIZE] in fs && ByteIn(b.frames, fs, i) == bytes[s.offset + i];
    assert Place(fs, i) / PAGE_SIZE == fs[i / PAGE_SIZE] && Place(fs, i) % PAGE_SIZE == i % PAGE_SIZE;
  }

  lemma Misplaced(fs: seq<nat>, i: nat, d: nat)
    requires 0 < d < PAGE_SIZE && d + i < PAGE_SIZE * |fs|
    ensures Place(fs, d + i) != Place(fs, i)
  {
    assert (d + i) % PAGE_SIZE != i % PAGE_SIZE;
  }

  /**
   * Loader correctness: every byte of the segment's file part is found, through the new table, at the address it was
   * loaded for, exactly if that address is page aligned.
   */
  lemma LoadedByte(m0: Frames, b: State, top: Level, root: nat, s: Segment, fs: seq<nat>, bytes: seq<Byte>)
    requires s.Good(top) && s.ptype == 1 && Placed(m0, b, top, root, s, fs, bytes) && s.filesz > 0
    ensures s.filesz <= PAGE_SIZE * |fs| && s.vaddr + PAGE_SIZE * |fs| <= TWO_64
    ensures (forall i | 0 <= i < s.filesz ::
               AddressOf(b.Find(top, root, s.vaddr + i), s.vaddr + i) == Ok(Place(fs, i))) <==>
            s.vaddr % PAGE_SIZE == 0
  {
    hide State.Find, Place, Contents, Kept, PagesAt;
    var d := s.vaddr % PAGE_SIZE;
    FilePart(m0, b, top, root, s, fs, bytes);
    if d == 0 {
      forall i | 0 <= i < s.filesz
        ensures AddressOf(b.Find(top, root, s.vaddr + i), s.vaddr + i) == Ok(Place(fs, i))
      {
        LoadedAt(m0, b, top, root, s, fs, bytes, i);
      }
    } else {
      LoadedAt(m0, b, top, root, s, fs, bytes, 0);
      Misplaced(fs, 0, d);
    }
  }

  lemma FilePart(m0: Frames, b: State, top: Level, root: nat, s: Segment, fs: seq<nat>, bytes: seq<Byte>)
    requires Placed(m0, b, top, root, s, fs, bytes) && s.filesz > 0
    ensures |fs| > 0 && s.filesz <= PAGE_SIZE * |fs| && s.vaddr + PAGE_SIZE * |fs| <= TWO_64
  {
    hide State.Find, SamePage, Kept, PagesAt;
  }

  lemma EntryIsLeaf(f: nat, flags: PageFlags)
    requires flags.Accessible()
    ensures LeafEntry(f, flags).IsLeaf() && LeafEntry(f, flags).ppn == f
  {
  }

  /** The segment lies below the half that all spaces share. */
  ghost predicate InLowerHalf(s: Segment, top: Level)
    requires s.Good(top)
  {
    s.IsLoad() ==> forall k | 0 <= k < s.Pages() :: Index(PageAt(s.vaddr, k), top) < 256
  }

  lemma LowerHalfUnmapped(b: State, top: Level, root: nat, s: Segment)
    requires NothingBelow(b, top, root) && s.Good(top) && s.IsLoad() && InLowerHalf(s, top)
    ensures NothingMapped(b, top, root, s.vaddr, s.Pages())
  {
    hide State.Find, State.Alive, PageCount, Index;
    forall k, va | 0 <= k < s.Pages() && SamePage(va, PageAt(s.vaddr, k), top, 1)
      ensures b.Find(top, root, va) == Missing
    {
      assert Index(va, top) == Index(PageAt(s.vaddr, k), top);
    }
  }

  /**
   * The memory part of `load`: a new table with the current one's upper half, and the program's segments below.
   * `empty` is the state between the two.
   */
  method Load(spaces: AddressSpaces, current: nat, segs: seq<Segment>, bytes: seq<Byte>)
    returns (res: LoadResult, root: nat, ghost empty: State, ghost placed: seq<seq<nat>>, ghost at: State)
    requires spaces.Valid() && spaces.Now().Alive() && current in spaces.roots && |spaces.pmm.free| >= 2
    requires spaces.pmm.free[0] in spaces.ram.frames
    requires Inert(spaces.ram.frames[spaces.pmm.free[0]], 2) && Lively(spaces.ram.frames[spaces.pmm.free[0]], 2)
    requires GoodSegments(segs, spaces.top) && forall i | 0 <= i < |segs| :: InLowerHalf(segs[i], spaces.top)
    modifies spaces, spaces.pmm, spaces.ram
    ensures res.Loaded? ==> spaces.Valid() && SpaceAdded(old(spaces.Now()), empty, spaces.top, current, root)
    ensures res.Loaded? && Owned(old(spaces.Now()), spaces.top) ==> Owned(spaces.Now(), spaces.top)
    ensures res.Loaded? ==> Loading(empty, spaces.Now(), spaces.top, root, segs, |segs|, placed, bytes)
    ensures res.Loaded? ==> ProgramAccess(spaces.Now(), spaces.top, root, segs) && Loadable(segs, bytes)
    ensures res.NoFrames? ==> |spaces.pmm.free| == 1
    ensures !res.Loaded? && !res.NoFrames? ==>
      Stopped(res, spaces.ram.hhdm, empty, at, spaces.top, root, segs, placed, bytes)
  {
    hide Links, State.Ok, State.Alive, NothingMapped, Inert, Lively, Childfree, GoodSegments, InLowerHalf, Loading,
      SpaceAdded, SameFinds, Owned, NothingBelow, State.Find, ProgramAccess,
      Loadable;
    placed := [];
    HeadEmpty(spaces.ram.frames, spaces.ram.hhdm, spaces.pmm.head, spaces.pmm.tail, spaces.pmm.free);
    var ok;
    root, ok := spaces.NewWithUpperhalf(current);
    empty := spaces.Now();
    if !ok {
      return NoFrames, root, empty, placed, empty;
    }
    EmptySpace(old(spaces.Now()), empty, spaces.top, current, root);
    forall i | 0 <= i < |segs| && segs[i].IsLoad()
      ensures segs[i].Good(spaces.top) && NothingMapped(empty, spaces.top, root, segs[i].vaddr, segs[i].Pages())
    {
      GoodAt(segs, spaces.top, i);
      LowerHalfUnmapped(empty, spaces.top, root, segs[i]);
    }
    res, placed, at := LoadSegments(spaces, root, segs, bytes);
  }

  /** A root from an empty frame is in order, live and owned if the spaces were. */
  lemma EmptySpace(a: State, b: State, top: Level, source: nat, root: nat)
    requires SpaceAdded(a, b, top, source, root) && source in a.roots && a.Alive() && root in a.frames
    requires Inert(a.frames[root], 0) && Lively(a.frames[root], 0)
    ensures b.Ok(top) && b.Alive() && root in b.roots && NothingBelow(b, top, root)
    ensures Owned(a, top) ==> Owned(b, top)
  {
    NothingBelowIff(a, b, top, source, root);
    hide State.Find, State.Ok, State.Alive, Decode, Owned, NothingBelow, Childfree, Lively, PageHeld;
    if Owned(a, top) { AddedOwned(a, b, top, source, root); }
  }

  lemma GoodAt(segs: seq<Segment>, top: Level, i: nat)
    requires GoodSegments(segs, top) && i < |segs|
    ensures segs[i].Good(top)
  {
  }
}

/** Runs of consecutive pages: what `Vmm::alloc`, `Vmm::free` and the program loader do to a whole range. */
module Ranges {
  import opened PageEntries
  import opened Addresses
  import opened PageTables
  import opened PhysicalMemory
  import opened Pmm
  import opened Routes
  import opened Spaces

  /** Page `k` of a range from `base`. */
  function PageAt(base: Word, k: nat): Word
    requires base + PAGE_SIZE * k < TWO_64
  {
    base + PAGE_SIZE * k
  }

  /** A range that neither wraps nor comes back to the same table entries; it need not be page aligned. */
  ghost predicate GoodRange(base: Word, n: nat, top: Level) {
    base + PAGE_SIZE * n <= TWO_64 && n <= PageCount(top, 1)
  }

  lemma DistinctPages(base: Word, n: nat, top: Level, j: nat, k: nat)
    requires GoodRange(base, n, top) && j < k < n
    ensures !SamePage(PageAt(base, j), PageAt(base, k), top, 1)
  {
    var a, b := PageAt(base, j), PageAt(base, k);
    SamePageNumber(a, b, top, 1);
    PageNumberArith(a, top, 1);
    PageNumberArith(b, top, 1);
    hide PageNumber, SamePage;
    assert a / PAGE_SIZE == base / PAGE_SIZE + j && b / PAGE_SIZE == base / PAGE_SIZE + k;
    SmallGap(base / PAGE_SIZE + j, k - j, top);
  }

  lemma SmallGap(x: nat, d: nat, top: Level)
    requires 0 < d < PageCount(top, 1)
    ensures x % PageCount(top, 1) != (x + d) % PageCount(top, 1)
  {
  }

  /** Being on one page is an equivalence. */
  lemma SamePageTrans(a: Word, b: Word, c: Word, top: Level, target: Level)
    requires SamePage(a, b, top, target) && SamePage(a, c, top, target)
    ensures SamePage(b, c, top, target)
  {
    hide Index;
  }

  /** The frames `fs` are mapped one page each from `base` on; nothing else changed for any address. */
  ghost predicate MappedRange(a: State, b: State, top: Level, root: nat, base: Word, fs: seq<nat>, flags: PageFlags)
    requires base + PAGE_SIZE * |fs| <= TWO_64
  {
    && b.roots == a.roots
    && (forall k, va | 0 <= k < |fs| && SamePage(va, PageAt(base, k), top, 1) ::
          b.Find(top, root, va) == Stop(LeafEntry(fs[k], flags), 1))
    && (forall r, va | r in a.roots && (r != root || OffRange(va, base, |fs|, top)) ::
       b.Find(top, r, va) == a.Find(top, r, va))
  }

  ghost predicate OffRange(va: Word, base: Word, n: nat, top: Level)
    requires base + PAGE_SIZE * n <= TWO_64
  {
    forall k | 0 <= k < n :: !SamePage(va, PageAt(base, k), top, 1)
  }

  lemma PpnOfFrame(f: nat)
    requires f < TWO_44
    ensures PAGE_SIZE * f < TWO_64 && PpnOf(PAGE_SIZE * f) == f
  {
  }

  lemma MappedRangeEmpty(a: State, top: Level, root: nat, base: Word, flags: PageFlags)
    ensures MappedRange(a, a, top, root, base, [], flags)
  {
  }

  lemma MappedRangeSame(a: State, m: State, b: State, top: Level, root: nat, base: Word, fs: seq<nat>, flags: PageFlags)
    requires base + PAGE_SIZE * |fs| <= TWO_64 && root in a.roots
    requires MappedRange(a, m, top, root, base, fs, flags) && SameFinds(m, b, top)
    ensures MappedRange(a, b, top, root, base, fs, flags)
  {
    hide State.Find, SamePage, LeafEntry, OffRange;
  }

  /** One more page of the range is mapped. */
  lemma MappedRangeStep(a: State, m: State, b: State, top: Level, root: nat, base: Word, n: nat, fs: seq<nat>, f: nat,
                        flags: PageFlags)
    requires GoodRange(base, n, top) && |fs| < n
    requires MappedRange(a, m, top, root, base, fs, flags) && b.roots == m.roots && root in a.roots
    requires PageSet(m, b, top, root, PageAt(base, |fs|), 1, LeafEntry(f, flags))
    ensures MappedRange(a, b, top, root, base, fs + [f], flags)
  {
    hide State.Find, SamePage, LeafEntry;
    var k := |fs|;
    forall j, va | 0 <= j < k + 1 && SamePage(va, PageAt(base, j), top, 1)
      ensures b.Find(top, root, va) == Stop(LeafEntry((fs + [f])[j], flags), 1)
    {
      if j < k {
        DistinctPages(base, n, top, j, k);
        if SamePage(va, PageAt(base, k), top, 1) { SamePageTrans(va, PageAt(base, j), PageAt(base, k), top, 1); }
      }
    }
    forall r, va | r in a.roots && (r != root || OffRange(va, base, k + 1, top))
      ensures b.Find(top, r, va) == a.Find(top, r, va)
    {
      if r == root {
        assert OffRange(va, base, k, top);
      }
    }
  }

  /** Frames `fs` went from the free list to `data`; only links of frames still free were written. */
  ghost predicate TookFrames(a: State, b: State, fs: seq<nat>) {
    && b.frames.Keys == a.frames.Keys && b.roots == a.roots && b.tabs == a.tabs && b.orphans == a.orphans
    && b.data == a.data + Members(fs) && (forall g | g in fs :: g in a.free && g !in b.free)
    && (forall g | g in b.free :: g in a.free) && (forall g | g in a.free :: g in b.free || g in fs)
    && (forall g | g in a.frames && g !in b.free :: b.frames[g] == a.frames[g])
    && LinksOnly(a.frames, b.frames, b.free)
  }

  /**
   * Frames only went from the free list to `data` or became tables; no claimed frame was written, and of those
   * still free only the links.
   */
  ghost predicate Grown(a: State, b: State) {
    && b.frames.Keys == a.frames.Keys && b.roots == a.roots && b.orphans == a.orphans && b.Pool() == a.Pool()
    && a.data <= b.data && (forall p | p in a.tabs :: p in b.tabs && b.tabs[p] == a.tabs[p])
    && (forall g | g in b.free :: g in a.free)
    && (forall g | g in a.data :: g in b.frames && g in a.frames && b.frames[g] == a.frames[g])
    && LinksOnly(a.frames, b.frames, b.free)
  }

  lemma GrownTrans(a: State, b: State, c: State)
    requires Grown(a, b) && Grown(b, c)
    ensures Grown(a, c)
  {
  }

  lemma GrownRefl(a: State)
    requires Separate(a.frames, a.tabs.Values, a.free, a.data, a.orphans)
    ensures Grown(a, a)
  {
  }

  lemma GrownRoots(a: State, b: State)
    requires Grown(a, b)
    ensures b.roots == a.roots
  {
  }

  lemma GrownStart(a: State, top: Level)
    requires a.Ok(top)
    ensures Grown(a, a)
  {
    GrownRefl(a);
  }

  lemma GrownByClaim(a: State, b: State, fs: seq<nat>)
    requires Separate(a.frames, a.tabs.Values, a.free, a.data, a.orphans) && TookFrames(a, b, fs)
    ensures Grown(a, b)
  {
    assert forall g | g in a.data :: g !in b.free;
  }

  lemma GrownByMap(a: State, b: State)
    requires Separate(a.frames, a.tabs.Values, a.free, a.data, a.orphans)
    requires Accounted(a, b) && MoreTables(a, b)
    ensures Grown(a, b) && b.data == a.data
  {
  }

  /** The head of the free list goes to the caller. */
  lemma FrameTaken(a: State, b: State, top: Level, f: nat)
    requires a.Ok(top) && |a.free| >= 2 && f == a.free[0] && f !in a.free[1..]
    requires b == State(b.frames, a.free[1..], a.roots, a.tabs, a.data + {f}, a.orphans)
    requires b.frames.Keys == a.frames.Keys
    requires forall g | g in a.frames && g !in b.free :: b.frames[g] == a.frames[g]
    requires LinksOnly(a.frames, b.frames, b.free)
    ensures b.Ok(top) && SameFinds(a, b, top) && ClaimedFrames(a, b, {}) && TookFrames(a, b, [f])
    ensures f in a.frames && f !in a.data
    ensures forall g | g in a.data :: g in b.frames && b.frames[g] == a.frames[g]
  {
    hide Forest, View, Walk;
    FrameClaimed(a, b);
    MembersOne(f);
    assert a.free == [f] + b.free;
    SameTables(a.frames, b.frames, top, a.roots, a.tabs);
  }

  /** Taking a stretch out of the free list keeps frames separate. */
  lemma TookSeparate(a: State, b: State, fs: seq<nat>)
    requires Separate(a.frames, a.tabs.Values, a.free, a.data, a.orphans) && TookFrames(a, b, fs)
    ensures Separate(b.frames, b.tabs.Values, b.free, b.data, b.orphans) && b.Pool() == a.Pool()
    ensures forall g | g in fs :: g !in a.data
  {
  }

  /** Nothing is found on any page of the range. */
  ghost predicate NothingMapped(a: State, top: Level, root: nat, base: Word, n: nat)
    requires base + PAGE_SIZE * n <= TWO_64
  {
    forall k, va | 0 <= k < n && SamePage(va, PageAt(base, k), top, 1) :: a.Find(top, root, va) == Missing
  }

  lemma NextPage(a: State, m: State, top: Level, root: nat, base: Word, n: nat, fs: seq<nat>, flags: PageFlags)
    requires m.Ok(top) && m.Alive() && root in a.roots && GoodRange(base, n, top) && |fs| < n
    requires NothingMapped(a, top, root, base, n) && MappedRange(a, m, top, root, base, fs, flags)
    ensures m.InTheWay(top, root, PageAt(base, |fs|), 1) == Clear
  {
    hide SamePage, Index, Forest, View, ObstacleOf, Walk;
    var va := PageAt(base, |fs|);
    assert SamePage(va, va, top, 1) by { SamePageRefl(va, top, 1); }
    forall k | 0 <= k < |fs|
      ensures !SamePage(va, PageAt(base, k), top, 1)
    {
      DistinctPages(base, n, top, k, |fs|);
      SamePageFlip(va, PageAt(base, k), top, 1);
    }
    assert OffRange(va, base, |fs|, top);
    assert m.Find(top, root, va) == Missing;
    RootTable(View(m.frames), top, m.roots, m.tabs, root, va);
    ObstacleFromFind(View(m.frames), top, m.roots, m.tabs, root, va, 1, 0);
    assert Walk(View(m.frames), root, top, va) == m.Find(top, root, va);
  }

  lemma SamePageRefl(va: Word, top: Level, target: Level)
    ensures SamePage(va, va, top, target)
  {
    hide Index;
  }

  lemma SamePageFlip(a: Word, b: Word, top: Level, target: Level)
    ensures SamePage(a, b, top, target) ==> SamePage(b, a, top, target)
  {
    hide Index;
  }

  /**
   * On the way through a range since `a`: `taken` are the frames claimed for it so far, and its first
   * `mapped` pages are mapped to the first of them.
   */
  ghost predicate Mapping(a: State, b: State, top: Level, root: nat, base: Word, mapped: nat, taken: seq<nat>,
                          flags: PageFlags)
  {
    && b.Ok(top) && b.Alive() && Grown(a, b)
    && mapped <= |taken| && base + PAGE_SIZE * mapped <= TWO_64
    && MappedRange(a, b, top, root, base, taken[..mapped], flags)
    && b.data == a.data + Members(taken) && Distinct(taken)
    && (forall g | g in taken :: g in a.free && g !in b.free && g !in a.data)
  }

  lemma MappingStart(a: State, top: Level, root: nat, base: Word, flags: PageFlags)
    requires a.Ok(top) && a.Alive()
    ensures Mapping(a, a, top, root, base, 0, [], flags)
  {
    GrownRefl(a);
    MappedRangeEmpty(a, top, root, base, flags);
  }

  lemma TookAlive(a: State, b: State, fs: seq<nat>, top: Level)
    requires a.Ok(top) && a.Alive() && TookFrames(a, b, fs)
    ensures b.Alive()
  {
    hide View, Forest;
    ViewAgree(a.frames, b.frames, a.tabs.Values);
    AliveFrame(View(a.frames), View(b.frames), a.tabs);
  }

  /** More frames are claimed for the range. */
  lemma MappingTook(a: State, m: State, b: State, top: Level, root: nat, base: Word, mapped: nat, taken: seq<nat>,
                    fs: seq<nat>, flags: PageFlags)
    requires root in a.roots && Mapping(a, m, top, root, base, mapped, taken, flags)
    requires b.Ok(top) && TookFrames(m, b, fs) && SameFinds(m, b, top) && Distinct(fs)
    ensures Mapping(a, b, top, root, base, mapped, taken + fs, flags)
  {
    hide Forest, View, SameFinds, MappedRange, State.Alive, TookFrames, Grown, Separate, Distinct, State.Pool;
    TookAlive(m, b, fs, top);
    GrownByClaim(m, b, fs);
    TakenTogether(a, m, b, taken, fs);
    GrownTrans(a, m, b);
    MappedRangeSame(a, m, b, top, root, base, taken[..mapped], flags);
    assert (taken + fs)[..mapped] == taken[..mapped];
  }

  lemma TakenTogether(a: State, m: State, b: State, taken: seq<nat>, fs: seq<nat>)
    requires Grown(a, m) && TookFrames(m, b, fs) && Separate(m.frames, m.tabs.Values, m.free, m.data, m.orphans)
    requires m.data == a.data + Members(taken) && Distinct(taken) && Distinct(fs)
    requires forall g | g in taken :: g in a.free && g !in m.free && g !in a.data
    ensures b.data == a.data + Members(taken + fs) && Distinct(taken + fs)
    ensures forall g | g in taken + fs :: g in a.free && g !in b.free && g !in a.data
  {
    assert forall g | g in fs :: g in m.free && g !in m.data;
    assert forall g | g in taken :: g in m.data;
    assert Members(taken + fs) == Members(taken) + Members(fs);
    DistinctAppend(taken, fs);
  }

  lemma DistinctAppend(s: seq<nat>, t: seq<nat>)
    requires Distinct(s) && Distinct(t) && forall g | g in t :: g !in s
    ensures Distinct(s + t)
  {
    forall j, k | 0 <= j < k < |s + t|
      ensures (s + t)[j] != (s + t)[k]
    {
      if j < |s| <= k { assert t[k - |s|] in t; }
    }
  }

  /** The next page is mapped to the next frame. */
  lemma MappingMapped(a: State, m: State, b: State, top: Level, root: nat, base: Word, n: nat, mapped: nat,
                      taken: seq<nat>, flags: PageFlags)
    requires root in a.roots && GoodRange(base, n, top) && mapped < n && mapped < |taken|
    requires Mapping(a, m, top, root, base, mapped, taken, flags)
    requires b.Ok(top) && b.Alive() && Accounted(m, b) && MoreTables(m, b)
    requires PageSet(m, b, top, root, PageAt(base, mapped), 1, LeafEntry(taken[mapped], flags))
    ensures Mapping(a, b, top, root, base, mapped + 1, taken, flags)
  {
    hide Forest, View, MappedRange, Alive, LeafEntry, PageSet;
    GrownByMap(m, b);
    GrownTrans(a, m, b);
    MappedRangeStep(a, m, b, top, root, base, n, taken[..mapped], taken[mapped], flags);
    assert taken[..mapped] + [taken[mapped]] == taken[..mapped + 1];
  }

  /** What `Mapping` says about the state reached. */
  lemma MappingGrown(a: State, b: State, top: Level, root: nat, base: Word, mapped: nat, taken: seq<nat>,
                     flags: PageFlags)
    requires Mapping(a, b, top, root, base, mapped, taken, flags)
    ensures b.Alive() && Grown(a, b) && b.data == a.data + Members(taken) && Distinct(taken)
    ensures mapped <= |taken| && base + PAGE_SIZE * mapped <= TWO_64
    ensures MappedRange(a, b, top, root, base, taken[..mapped], flags)
    ensures forall g | g in taken :: g in a.free && g !in b.free && g in b.data
  {
  }

  lemma DataInMemory(a: State, top: Level)
    requires a.Ok(top)
    ensures forall g | g in a.data :: g in a.frames
  {
  }

  /** Page `k` of the range is found at frame `fs[k]`. */
  ghost predicate FoundRange(a: State, top: Level, root: nat, base: Word, fs: seq<nat>)
    requires base + PAGE_SIZE * |fs| <= TWO_64
  {
    forall k | 0 <= k < |fs| ::
      var f := a.Find(top, root, PageAt(base, k)); f.Hit? && f.level == 1 && f.entry.ppn == fs[k]
  }

  /** Nothing is found in the range any more; nothing else changed for any address. */
  ghost predicate ClearedRange(a: State, b: State, top: Level, root: nat, base: Word, n: nat)
    requires base + PAGE_SIZE * n <= TWO_64
  {
    && b.roots == a.roots
    && (forall k, va | 0 <= k < n && SamePage(va, PageAt(base, k), top, 1) :: b.Find(top, root, va) == Missing)
    && (forall r, va | r in a.roots && (r != root || OffRange(va, base, n, top)) ::
       b.Find(top, r, va) == a.Find(top, r, va))
  }

  function Reversed(s: seq<nat>): seq<nat> {
    if s == [] then [] else Reversed(s[1..]) + [s[0]]
  }

  lemma {:induction false} ReversedAppend(s: seq<nat>, x: nat)
    ensures Reversed(s + [x]) == [x] + Reversed(s)
  {
    if s != [] {
      assert (s + [x])[1..] == s[1..] + [x];
      ReversedAppend(s[1..], x);
    }
  }

  lemma MembersAppend(s: seq<nat>, t: seq<nat>)
    ensures Members(s + t) == Members(s) + Members(t)
  {
  }

  lemma {:induction false} ReversedMembers(s: seq<nat>)
    ensures Members(Reversed(s)) == Members(s)
  {
    if s != [] {
      ReversedMembers(s[1..]);
      MembersAppend(Reversed(s[1..]), [s[0]]);
      MembersAppend([s[0]], s[1..]);
      assert s == [s[0]] + s[1..];
    }
  }

  /**
   * The first `k` pages of the range are gone and their frames are back, the last one in front. Free frames, those
   * among them, hold what they held but for their links.
   */
  ghost predicate Freeing(a: State, b: State, top: Level, root: nat, base: Word, k: nat, fs: seq<nat>) {
    && k <= |fs| && base + PAGE_SIZE * k <= TWO_64
    && ClearedRange(a, b, top, root, base, k)
    && b.free == Reversed(fs[..k]) + a.free && b.data == a.data - Members(fs[..k])
    && b.tabs == a.tabs && b.orphans == a.orphans && FreeWords(a, b)
  }

  lemma FreeingStart(a: State, top: Level, root: nat, base: Word, fs: seq<nat>)
    ensures Freeing(a, a, top, root, base, 0, fs)
  {
    assert Reversed([]) == [];
    assert Members(fs[..0]) == {};
  }

  /** Page `k` is still found where it was, or not found, when the pages before it are gone. */
  lemma FreeingSame(a: State, m: State, top: Level, root: nat, base: Word, n: nat, k: nat, fs: seq<nat>)
    requires GoodRange(base, n, top) && k < n && root in a.roots && Freeing(a, m, top, root, base, k, fs)
    ensures m.Find(top, root, PageAt(base, k)) == a.Find(top, root, PageAt(base, k)) && m.roots == a.roots
  {
    hide State.Find, SamePage, FreeWords;
    forall j | 0 <= j < k
      ensures !SamePage(PageAt(base, k), PageAt(base, j), top, 1)
    {
      DistinctPages(base, n, top, j, k);
      SamePageFlip(PageAt(base, k), PageAt(base, j), top, 1);
    }
    assert OffRange(PageAt(base, k), base, k, top);
  }

  lemma FreeingNext(a: State, m: State, top: Level, root: nat, base: Word, n: nat, k: nat, fs: seq<nat>)
    requires GoodRange(base, n, top) && k < |fs| <= n && root in a.roots && Distinct(fs)
    requires FoundRange(a, top, root, base, fs) && Freeing(a, m, top, root, base, k, fs) && fs[k] in a.data
    ensures SmallPageAt(m, top, root, PageAt(base, k)) && m.Find(top, root, PageAt(base, k)).entry.ppn == fs[k]
    ensures m.roots == a.roots && fs[k] in m.data
  {
    hide State.Find, SamePage, FreeWords, ClearedRange;
    FreeingSame(a, m, top, root, base, n, k, fs);
  }

  /** A 4 KiB page is found at the address. */
  ghost predicate SmallPageAt(s: State, top: Level, root: nat, va: Word) {
    s.Find(top, root, va).Hit? && s.Find(top, root, va).level == 1
  }

  lemma ClearedStep(a: State, m: State, u: State, b: State, top: Level, root: nat, base: Word, k: nat)
    requires base + PAGE_SIZE * (k + 1) <= TWO_64 && root in a.roots
    requires ClearedRange(a, m, top, root, base, k) && u.roots == m.roots
    requires PageSet(m, u, top, root, PageAt(base, k), 1, ZERO_PTE) && SameFinds(u, b, top)
    ensures ClearedRange(a, b, top, root, base, k + 1)
  {
    hide State.Find, SamePage;
    forall j, va | 0 <= j < k + 1 && SamePage(va, PageAt(base, j), top, 1)
      ensures b.Find(top, root, va) == Missing
    {
      assert Stop(ZERO_PTE, 1) == Missing;
    }
    forall r, va | r in a.roots && (r != root || OffRange(va, base, k + 1, top))
      ensures b.Find(top, r, va) == a.Find(top, r, va)
    {
      if r == root { assert OffRange(va, base, k, top); }
    }
  }

  /** Memory changed in tables only, and nothing else. */
  ghost predicate OnlyTables(m: State, u: State) {
    && u == m.(frames := u.frames) && u.frames.Keys == m.frames.Keys
    && forall g | g in m.frames && g !in m.tabs.Values :: u.frames[g] == m.frames[g]
  }

  /** The claimed frame `f` went to the front of the free list; memory changed in links of free frames only. */
  ghost predicate GivenBack(u: State, b: State, f: nat) {
    && b == u.(frames := b.frames, free := [f] + u.free, data := u.data - {f}) && b.frames.Keys == u.frames.Keys
    && LinksOnly(u.frames, b.frames, b.free)
    && forall g | g in u.frames && g !in b.free :: b.frames[g] == u.frames[g]
  }

  /** Free frames hold what they held in `a` but for their links, and other frames but tables hold all of it. */
  ghost predicate FreeWords(a: State, b: State) {
    && b.frames.Keys == a.frames.Keys && b.tabs == a.tabs && LinksOnly(a.frames, b.frames, b.free)
    && forall g | g in a.frames && g !in a.tabs.Values && g !in b.free :: b.frames[g] == a.frames[g]
  }

  lemma FreedWords(a: State, m: State, u: State, b: State, f: nat)
    requires Separate(m.frames, m.tabs.Values, m.free, m.data, m.orphans) && f in m.data
    requires FreeWords(a, m) && OnlyTables(m, u) && GivenBack(u, b, f)
    ensures FreeWords(a, b)
  {
    forall g, i | g in b.free && g in a.frames && g in b.frames && 2 <= i < 512
      ensures b.frames[g][i] == a.frames[g][i]
    {
      assert g in m.frames && g !in m.tabs.Values;
      assert b.frames[g][i] == u.frames[g][i] == m.frames[g][i];
    }
  }

  /** One more page is unmapped (`m` to `u`) and its frame given back (`u` to `b`). */
  lemma FreeingStep(a: State, m: State, u: State, b: State, top: Level, root: nat, base: Word, n: nat, k: nat,
                    fs: seq<nat>)
    requires GoodRange(base, n, top) && k < |fs| <= n && root in a.roots
    requires Freeing(a, m, top, root, base, k, fs) && m.Ok(top) && fs[k] in m.data
    requires PageSet(m, u, top, root, PageAt(base, k), 1, ZERO_PTE)
    requires OnlyTables(m, u) && GivenBack(u, b, fs[k]) && SameFinds(u, b, top)
    ensures Freeing(a, b, top, root, base, k + 1, fs)
  {
    hide PageSet, ClearedRange, SameFinds, State.Ok, FreeWords, LinksOnly, Reversed, Members;
    ClearedStep(a, m, u, b, top, root, base, k);
    OkSeparate(m, top);
    FreedWords(a, m, u, b, fs[k]);
    OneMoreFreed(fs, k, a.free, a.data);
  }

  lemma OneMoreFreed(fs: seq<nat>, k: nat, free: seq<nat>, data: set<nat>)
    requires k < |fs|
    ensures [fs[k]] + (Reversed(fs[..k]) + free) == Reversed(fs[..k + 1]) + free
    ensures data - Members(fs[..k]) - {fs[k]} == data - Members(fs[..k + 1])
  {
    hide Reversed, Members;
    assert fs[..k + 1] == fs[..k] + [fs[k]];
    ReversedAppend(fs[..k], fs[k]);
    MembersAppend(fs[..k], [fs[k]]);
    MembersOne(fs[k]);
  }

  lemma OkSeparate(s: State, top: Level)
    requires s.Ok(top)
    ensures Separate(s.frames, s.tabs.Values, s.free, s.data, s.orphans)
  {
  }

  lemma MembersOne(x: nat)
    ensures Members([x]) == {x}
  {
  }

  lemma MappedFound(a: State, b: State, top: Level, root: nat, base: Word, fs: seq<nat>, flags: PageFlags)
    requires base + PAGE_SIZE * |fs| <= TWO_64 && flags.Accessible()
    requires MappedRange(a, b, top, root, base, fs, flags)
    ensures FoundRange(b, top, root, base, fs)
  {
    hide State.Find, SamePage;
    forall k | 0 <= k < |fs|
      ensures var f := b.Find(top, root, PageAt(base, k)); f.Hit? && f.level == 1 && f.entry.ppn == fs[k]
    {
      SamePageRefl(PageAt(base, k), top, 1);
    }
  }

  /**
   * `Vmm::alloc` then `Vmm::free` on a range where nothing was mapped: every address of every space finds what it
   * found before, every claimed frame is back, and the free list lacks exactly the tables `map` had to add.
   */
  lemma AllocThenFree(a: State, b: State, c: State, top: Level, root: nat, base: Word, fs: seq<nat>, flags: PageFlags)
    requires a.Ok(top) && b.Ok(top) && root in a.roots && base + PAGE_SIZE * |fs| <= TWO_64
    requires NothingMapped(a, top, root, base, |fs|)
    requires Grown(a, b) && MappedRange(a, b, top, root, base, fs, flags)
    requires b.data == a.data + Members(fs) && forall g | g in fs :: g in a.free
    requires Freeing(b, c, top, root, base, |fs|, fs)
    ensures SameFinds(a, c, top) && c.data == a.data
    ensures Members(c.free) == Members(a.free) - (c.tabs.Values - a.tabs.Values)
  {
    hide State.Find, SamePage, LeafEntry, Forest, View;
    assert fs[..|fs|] == fs;
    FreeSets(a, b, c, fs);
    forall r, va | r in a.roots
      ensures c.Find(top, r, va) == a.Find(top, r, va)
    {
      if r == root && !OffRange(va, base, |fs|, top) {
        var k :| 0 <= k < |fs| && SamePage(va, PageAt(base, k), top, 1);
      }
    }
  }

  lemma FreeSets(a: State, b: State, c: State, fs: seq<nat>)
    requires Separate(a.frames, a.tabs.Values, a.free, a.data, a.orphans)
    requires Separate(b.frames, b.tabs.Values, b.free, b.data, b.orphans)
    requires Grown(a, b) && b.data == a.data + Members(fs) && forall g | g in fs :: g in a.free
    requires c.free == Reversed(fs) + b.free && c.data == b.data - Members(fs) && c.tabs == b.tabs
    ensures c.data == a.data
    ensures Members(c.free) == Members(a.free) - (c.tabs.Values - a.tabs.Values)
  {
    ReversedMembers(fs);
    assert Members(c.free) == Members(fs) + Members(b.free) by {
      assert forall g :: g in Reversed(fs) <==> g in Members(Reversed(fs));
    }
    forall g
      ensures g in Members(c.free) <==> g in Members(a.free) - (c.tabs.Values - a.tabs.Values)
    {
      assert g in a.Pool() <==> g in b.Pool();
    }
  }
}

/** Which frames the address spaces lead to: claimed ones, or memory that is not under management at all. */
module Ownership {
  import opened Numbers
  import opened PageEntries
  import opened Addresses
  import opened PageTables
  import opened PhysicalMemory
  import opened Spaces
  import opened SpaceClones
  import opened Ranges

  /** The frame behind an address at which a leaf is found. */
  function FrameFound(f: Found, va: Word): nat
    requires f.Hit?
  {
    LeafAddress(f.entry.ppn, f.level, va) / PAGE_SIZE
  }

  /** Neither free nor a table nor lost: claimed, or not under management. */
  ghost predicate Held(s: State, f: nat) { f in s.data || f !in s.Pool() }

  /** No address of any space leads to a free frame, a table or a lost table. */
  ghost predicate Owned(s: State, top: Level) {
    forall r, va | r in s.roots && s.Find(top, r, va).Hit? :: Held(s, FrameFound(s.Find(top, r, va), va))
  }

  /** All frames of the page of size `level` that holds frame `ppn`. */
  ghost predicate PageHeld(s: State, ppn: nat, level: Level) {
    forall va: Word :: Held(s, LeafAddress(ppn, level, va) / PAGE_SIZE)
  }

  lemma SmallPageHeld(s: State, ppn: nat)
    ensures PageHeld(s, ppn, 1) <==> Held(s, ppn)
  {
    forall va: Word
      ensures LeafAddress(ppn, 1, va) / PAGE_SIZE == ppn
    {
    }
    assert LeafAddress(ppn, 1, 0) / PAGE_SIZE == ppn;
  }

  // An address for every entry

  /** The page number whose digits are the indices of a path. */
  function NumberOf(child: Path): nat
    requires |child| >= 2
  {
    if |child| == 2 then child[1] else Last(child) + 512 * NumberOf(Parent(child))
  }

  lemma {:induction false} NumberBound(child: Path, top: Level)
    requires 2 <= |child| <= top + 1 && forall k | 1 <= k < |child| :: child[k] < 512
    ensures NumberOf(child) < PageCount(top, top + 2 - |child|)
  {
    if |child| > 2 { NumberBound(Parent(child), top); }
  }

  lemma {:induction false} PathOfNumber(child: Path, top: Level, va: Word)
    requires 2 <= |child| <= top + 1 && forall k | 1 <= k < |child| :: child[k] < 512
    requires PageNumber(va, top, top + 2 - |child|) == NumberOf(child)
    ensures WalkPath(child[0], va, top, |child| - 1) == child
  {
    hide Index;
    var level := top + 2 - |child|;
    assert Parent(child) + [Last(child)] == child;
    if |child| > 2 {
      assert Index(va, level) == Last(child);
      PathOfNumber(Parent(child), top, va);
    } else {
      assert WalkPath(child[0], va, top, 0) == [child[0]];
    }
  }

  /** Some address passes the entry, with any offset into its page. */
  lemma AddressOn(child: Path, top: Level, off: Word) returns (va: Word)
    requires 2 <= |child| <= top + 1 && forall k | 1 <= k < |child| :: child[k] < 512
    ensures Passes(child[0], va, top, child)
    ensures va % PageSpan(top + 2 - |child|) == off % PageSpan(top + 2 - |child|)
  {
    var level := top + 2 - |child|;
    NumberBound(child, top);
    var n := NumberOf(child);
    WithinSpace(n, top, level, off % PageSpan(level));
    va := n * PageSpan(level) + off % PageSpan(level);
    PageNumberArith(va, top, level);
    Below(n, PageCount(top, level));
    PathOfNumber(child, top, va);
  }

  lemma WithinSpace(n: nat, top: Level, level: Level, o: nat)
    requires level <= top && n < PageCount(top, level) && o < PageSpan(level)
    ensures n * PageSpan(level) + o < TWO_64
    ensures (n * PageSpan(level) + o) / PageSpan(level) == n && (n * PageSpan(level) + o) % PageSpan(level) == o
  {
  }

  // What each operation does to it

  /** The frames under management are the same and no claimed one was given up. */
  ghost predicate Keeping(a: State, b: State) { b.Pool() == a.Pool() && a.data <= b.data }

  lemma HeldKept(a: State, b: State, f: nat)
    requires Keeping(a, b) && Held(a, f)
    ensures Held(b, f)
  {
  }

  /** What changes no translation keeps it: claiming frames, adding tables, cloning into a claimed frame. */
  lemma SameOwned(a: State, b: State, top: Level)
    requires Keeping(a, b) && SameFinds(a, b, top) && Owned(a, top)
    ensures Owned(b, top)
  {
    hide State.Find, Held;
    forall r, va | r in b.roots && b.Find(top, r, va).Hit?
      ensures Held(b, FrameFound(b.Find(top, r, va), va))
    {
      HeldKept(a, b, FrameFound(a.Find(top, r, va), va));
    }
  }

  /** Clearing an entry keeps it. */
  lemma ClearedOwned(a: State, b: State, top: Level, path: Path, index: nat, e: Pte)
    requires Keeping(a, b) && |path| <= top && EntrySet(a, b, top, path, index, e) && !e.IsLeaf() && Owned(a, top)
    ensures Owned(b, top)
  {
    hide State.Find, Held, Passes;
    forall r, va | r in b.roots && b.Find(top, r, va).Hit?
      ensures Held(b, FrameFound(b.Find(top, r, va), va))
    {
      HeldKept(a, b, FrameFound(a.Find(top, r, va), va));
    }
  }

  /** A leaf keeps it exactly if the whole page it maps is held. */
  lemma LeafOwned(a: State, b: State, top: Level, path: Path, index: nat, e: Pte)
    requires b.Pool() == a.Pool() && b.data == a.data && Owned(a, top) && e.IsLeaf()
    requires 1 <= |path| <= top && path[0] in a.roots && index < 512 && forall k | 1 <= k < |path| :: path[k] < 512
    requires EntrySet(a, b, top, path, index, e)
    ensures Owned(b, top) <==> PageHeld(a, e.ppn, top + 1 - |path|)
  {
    hide State.Find, Held, Passes;
    var level := top + 1 - |path|;
    assert forall f :: Held(a, f) <==> Held(b, f) by { SameHeld(a, b); }
    if PageHeld(a, e.ppn, level) {
      forall r, va | r in b.roots && b.Find(top, r, va).Hit?
        ensures Held(b, FrameFound(b.Find(top, r, va), va))
      {
      }
    }
    if Owned(b, top) {
      forall off: Word
        ensures Held(a, LeafAddress(e.ppn, level, off) / PAGE_SIZE)
      {
        var va := AddressOn(path + [index], top, off);
        assert b.Find(top, path[0], va) == Hit(e, level);
        assert LeafAddress(e.ppn, level, va) == LeafAddress(e.ppn, level, off);
      }
    }
  }

  lemma SameHeld(a: State, b: State)
    requires b.Pool() == a.Pool() && b.data == a.data
    ensures forall f :: Held(a, f) <==> Held(b, f)
  {
  }

  /** The leaves in the lower half of a frame lead to held pages. */
  ghost predicate LeavesHeld(s: State, f: Frame, top: Level) {
    forall i | 0 <= i < 256 && Decode(f[i]).IsLeaf() :: PageHeld(s, Decode(f[i]).ppn, top)
  }

  /** A new space keeps it exactly if the lower half the frame held before leads to held pages only. */
  lemma AddedOwned(a: State, b: State, top: Level, source: nat, root: nat)
    requires SpaceAdded(a, b, top, source, root) && source in a.roots && Owned(a, top) && b.Ok(top)
    ensures Owned(b, top) <==> LeavesHeld(a, a.frames[root], top)
  {
    hide State.Find, State.Ok, State.Alive, State.Pool, Held, Index, Decode, Lively, PageHeld, Pte.Clean;
    var f := a.frames[root];
    assert forall g :: Held(a, g) <==> Held(b, g) by { SameHeld(a, b); }
    if LeavesHeld(a, f, top) {
      forall r, va | r in b.roots && b.Find(top, r, va).Hit?
        ensures Held(b, FrameFound(b.Find(top, r, va), va))
      {
        if r == root && Index(va, top) < 256 {
          var e := Decode(f[Index(va, top)]);
          assert b.Find(top, r, va) == Stop(e, top);
          HeldInPage(a, e.ppn, top, va);
        } else {
          assert b.Find(top, r, va) == a.Find(top, if r == root then source else r, va);
        }
      }
    }
    if Owned(b, top) {
      forall i | 0 <= i < 256 && Decode(f[i]).IsLeaf()
        ensures PageHeld(a, Decode(f[i]).ppn, top)
      {
        RootLeafHeld(a, b, top, root, i, Decode(f[i]));
      }
    }
  }

  lemma HeldInPage(s: State, ppn: nat, level: Level, va: Word)
    requires PageHeld(s, ppn, level)
    ensures Held(s, LeafAddress(ppn, level, va) / PAGE_SIZE)
  {
  }

  lemma RootLeafHeld(a: State, b: State, top: Level, root: nat, i: nat, e: Pte)
    requires Owned(b, top) && root in b.roots && i < 256 && e.IsLeaf() && (forall g :: Held(a, g) <==> Held(b, g))
    requires forall va | Index(va, top) == i :: b.Find(top, root, va) == Stop(e, top)
    ensures PageHeld(a, e.ppn, top)
  {
    hide State.Find, Held, Index, WalkPath;
    forall off: Word
      ensures Held(a, LeafAddress(e.ppn, top, off) / PAGE_SIZE)
    {
      var va := AddressOn([root, i], top, off);
      assert WalkPath(root, va, top, 1) == [root, i];
      FirstIndex(root, va, top, i);
      assert b.Find(top, root, va) == Hit(e, top);
      assert LeafAddress(e.ppn, top, va) == LeafAddress(e.ppn, top, off);
    }
  }

  lemma FirstIndex(root: nat, va: Word, top: Level, i: nat)
    requires WalkPath(root, va, top, 1) == [root, i]
    ensures Index(va, top) == i
  {
    assert WalkPath(root, va, top, 1)[1] == Index(va, top);
  }

  /** No address of any space leads to one of the frames `fs`. */
  ghost predicate Unreached(s: State, top: Level, fs: set<nat>) {
    forall r, va | r in s.roots && s.Find(top, r, va).Hit? :: FrameFound(s.Find(top, r, va), va) !in fs
  }

  /** Giving claimed frames up keeps it exactly if no address leads to one of them any more. */
  lemma GivenOwned(a: State, b: State, top: Level, fs: set<nat>)
    requires b.Pool() == a.Pool() && fs <= a.data && b.data == a.data - fs && SameFinds(a, b, top) && Owned(a, top)
    ensures Owned(b, top) <==> Unreached(a, top, fs)
  {
    hide State.Find, FrameFound;
    assert forall f | f !in fs :: Held(a, f) <==> Held(b, f);
    assert forall f | f in fs :: !Held(b, f);
  }

  /** Backing a range with claimed frames keeps it. */
  lemma AllocOwned(a: State, b: State, top: Level, root: nat, base: Word, fs: seq<nat>, flags: PageFlags)
    requires base + PAGE_SIZE * |fs| <= TWO_64 && root in a.roots && flags.Accessible()
    requires Grown(a, b) && MappedRange(a, b, top, root, base, fs, flags) && (forall f | f in fs :: f in b.data)
    requires Owned(a, top)
    ensures Owned(b, top)
  {
    hide State.Find, Held, SamePage, LeafEntry, PageFlags.Accessible;
    assert Keeping(a, b);
    forall r, va | r in b.roots && b.Find(top, r, va).Hit?
      ensures Held(b, FrameFound(b.Find(top, r, va), va))
    {
      if r == root && !OffRange(va, base, |fs|, top) {
        var k :| 0 <= k < |fs| && SamePage(va, PageAt(base, k), top, 1);
        LeafOfFrame(fs[k], flags, va);
        HeldData(b, fs[k]);
      } else {
        HeldKept(a, b, FrameFound(a.Find(top, r, va), va));
      }
    }
  }

  lemma LeafOfFrame(f: nat, flags: PageFlags, va: Word)
    requires flags.Accessible()
    ensures Stop(LeafEntry(f, flags), 1).Hit? && FrameFound(Stop(LeafEntry(f, flags), 1), va) == f
  {
  }

  lemma HeldData(s: State, f: nat)
    requires f in s.data
    ensures Held(s, f)
  {
  }

  /** No address leads to one of the frames `fs`, but for those of the range in the space `root`. */
  ghost predicate UnreachedElsewhere(s: State, top: Level, root: nat, base: Word, n: nat, fs: seq<nat>)
    requires base + PAGE_SIZE * n <= TWO_64
  {
    forall r, va | r in s.roots && (r != root || OffRange(va, base, n, top)) && s.Find(top, r, va).Hit? ::
      FrameFound(s.Find(top, r, va), va) !in fs
  }

  /** Freeing a range keeps it exactly if no other address of any space leads to the freed frames. */
  lemma FreeOwned(a: State, b: State, top: Level, root: nat, base: Word, fs: seq<nat>)
    requires Freeing(a, b, top, root, base, |fs|, fs)
    requires root in a.roots && (forall f | f in fs :: f in a.data) && Owned(a, top)
    ensures Owned(b, top) <==> UnreachedElsewhere(a, top, root, base, |fs|, fs)
  {
    hide State.Find, SamePage, FrameFound;
    FreedHeld(a, b, top, root, base, fs);
    hide Held;
    assert forall r, va | r in a.roots && r == root && !OffRange(va, base, |fs|, top) :: b.Find(top, r, va) == Missing;
  }

  lemma FreedHeld(a: State, b: State, top: Level, root: nat, base: Word, fs: seq<nat>)
    requires Freeing(a, b, top, root, base, |fs|, fs) && forall f | f in fs :: f in a.data
    ensures forall f | f !in fs :: Held(a, f) <==> Held(b, f)
    ensures forall f | f in fs :: !Held(b, f)
  {
    hide ClearedRange;
    assert fs[..|fs|] == fs;
    ReversedMembers(fs);
    assert forall f :: f in Reversed(fs) <==> f in Members(Reversed(fs));
    assert forall f :: f in fs <==> f in Members(fs);
    assert forall f :: f in Members(b.free) <==> f in fs || f in Members(a.free);
  }

  /** An allocated range can be freed at once: nothing else leads to its frames. */
  lemma AllocFreeOwned(a: State, b: State, top: Level, root: nat, base: Word, fs: seq<nat>, flags: PageFlags)
    requires base + PAGE_SIZE * |fs| <= TWO_64 && root in a.roots && flags.Accessible()
    requires a.Ok(top) && Grown(a, b) && MappedRange(a, b, top, root, base, fs, flags)
    requires (forall f | f in fs :: f in a.free) && Owned(a, top)
    ensures UnreachedElsewhere(b, top, root, base, |fs|, fs)
  {
    hide State.Find, SamePage, Forest;
    assert forall f | f in fs :: !Held(a, f);
    hide Held, FrameFound;
    forall r, va | r in b.roots && (r != root || OffRange(va, base, |fs|, top)) && b.Find(top, r, va).Hit?
      ensures FrameFound(b.Find(top, r, va), va) !in fs
    {
      assert b.Find(top, r, va) == a.Find(top, r, va);
    }
  }
}

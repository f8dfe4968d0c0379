/** Runs of memory operations on any mix of address spaces: ownership of frames, and isolation of the spaces. */
module Runs {
  import opened PageEntries
  import opened Addresses
  import opened PageTables
  import opened PhysicalMemory
  import opened Pmm
  import opened Clones
  import opened Routes
  import opened Spaces
  import opened SpaceClones
  import opened Ranges
  import opened Ownership

  datatype Op =
    | MapOp(root: nat, virt: Word, phys: Word, target: Level, flags: PageFlags)
    | UnmapOp(root: nat, virt: Word, target: Level)
    | ClaimOp(taken: seq<nat>)             // frames claimed for the caller
    | GiveBackOp(frame: nat)               // and given back
    | StoreOp(frame: nat, i: nat, w: Word) // a word written to a claimed frame
    | CloneOp(source: nat, root: nat)      // a new space over the upper half of an old one

  /** The operation is one on the space `r`. */
  predicate On(op: Op, r: nat) { (op.MapOp? || op.UnmapOp?) && op.root == r }

  /** `map` neither meets a larger page nor runs out of frames. */
  ghost predicate MapGoes(s: State, op: Op, top: Level)
    requires op.MapOp?
  {
    var way := s.RouteTo(top, op.root, op.virt, op.target);
    !way.blocked && way.made < |s.free|
  }

  /** `unmap` finds a leaf of the size it is asked for. */
  ghost predicate UnmapGoes(s: State, op: Op, top: Level)
    requires op.UnmapOp?
  {
    var f := s.Find(top, op.root, op.virt);
    f.Hit? && f.level == op.target
  }

  ghost predicate MapStep(a: State, op: Op, b: State, top: Level)
    requires op.MapOp?
  {
    && op.root in a.roots && op.target <= top && (op.flags.Accessible() || op.flags.user) && Accounted(a, b)
    && var path, e := a.RouteTo(top, op.root, op.virt, op.target).path, LeafEntry(PpnOf(op.phys), op.flags);
    if MapGoes(a, op, top) then
      EntrySet(a, b, top, path, Index(op.virt, op.target), e) && EntryAt(b, path, Index(op.virt, op.target), e)
    else SameFinds(a, b, top)
  }

  /** `unmap` clears one entry, or changes nothing at all. */
  ghost predicate UnmapStep(a: State, op: Op, b: State, top: Level)
    requires op.UnmapOp?
  {
    && op.root in a.roots && op.target <= top
    && if UnmapGoes(a, op, top) then
         var path := WalkPath(op.root, op.virt, top, top - op.target);
         && path in a.tabs && a.tabs[path] in a.frames
         && b == a.(frames := Poke(a.frames, a.tabs[path], Index(op.virt, op.target), 0))
         && PageSet(a, b, top, op.root, op.virt, op.target, ZERO_PTE)
       else b == a
  }

  /** Only links are written, in free frames: the frame given back keeps all else it held. */
  ghost predicate GiveBackStep(a: State, op: Op, b: State, top: Level)
    requires op.GiveBackOp?
  {
    && op.frame in a.data && SameFinds(a, b, top) && b.frames.Keys == a.frames.Keys
    && b == a.(frames := b.frames, free := [op.frame] + a.free, data := a.data - {op.frame})
    && LinksOnly(a.frames, b.frames, b.free) && forall g | g in a.frames && g !in b.free :: b.frames[g] == a.frames[g]
  }

  ghost predicate StoreStep(a: State, op: Op, b: State, top: Level)
    requires op.StoreOp?
  {
    && op.frame in a.data && op.frame in a.frames && op.i < 512 && SameFinds(a, b, top)
    && b == a.(frames := Poke(a.frames, op.frame, op.i, op.w))
  }

  /** The root of a new space is the frame at the head of the free list, with what it happens to hold. */
  ghost predicate CloneStep(a: State, op: Op, b: State, top: Level)
    requires op.CloneOp?
  {
    op.source in a.roots && a.free != [] && op.root == a.free[0] && SpaceAdded(a, b, top, op.source, op.root)
  }

  /** The operation makes no entry that is neither a leaf nor a branch. */
  ghost predicate Live(a: State, op: Op) {
    && (op.MapOp? ==> op.flags.Accessible())
    && (op.CloneOp? ==> op.root in a.frames && Lively(a.frames[op.root], 0))
  }

  /** What the methods of `AddressSpaces` promise of one call each. Only a clone can leave the spaces out of order. */
  ghost predicate Step(a: State, op: Op, b: State, top: Level) {
    && (!op.CloneOp? ==> b.Ok(top)) && (a.Alive() && Live(a, op) ==> b.Alive())
    && match op
       case MapOp(_, _, _, _, _) => MapStep(a, op, b, top)
       case UnmapOp(_, _, _) => UnmapStep(a, op, b, top)
       case ClaimOp(fs) => TookFrames(a, b, fs) && SameFinds(a, b, top)
       case GiveBackOp(_) => GiveBackStep(a, op, b, top)
       case StoreOp(_, _, _) => StoreStep(a, op, b, top)
       case CloneOp(_, _) => CloneStep(a, op, b, top)
  }

  /** `Map` and `Unmap` make their steps. */
  lemma MapIsStep(a: State, b: State, top: Level, root: nat, virt: Word, phys: Word, target: Level, flags: PageFlags,
                  mapped: bool)
    requires b.Ok(top) && (a.Alive() && flags.Accessible() ==> b.Alive())
    requires root in a.roots && target <= top && (flags.Accessible() || flags.user) && Accounted(a, b)
    requires var r := a.RouteTo(top, root, virt, target); mapped <==> !r.blocked && r.made < |a.free|
    requires !mapped ==> SameFinds(a, b, top)
    requires mapped ==>
      var path, e := a.RouteTo(top, root, virt, target).path, LeafEntry(PpnOf(phys), flags);
      EntrySet(a, b, top, path, Index(virt, target), e) && EntryAt(b, path, Index(virt, target), e)
    ensures Step(a, MapOp(root, virt, phys, target, flags), b, top)
  {
    hide State.Ok, State.Alive, EntrySet, EntryAt, SameFinds, Accounted, State.RouteTo, LeafEntry, Index, PpnOf;
  }

  lemma UnmapIsStep(a: State, op: Op, b: State, top: Level)
    requires op.UnmapOp? && b.Ok(top) && (a.Alive() ==> b.Alive()) && op.root in a.roots && op.target <= top
    requires UnmapGoes(a, op, top) ==>
      var path := WalkPath(op.root, op.virt, top, top - op.target);
      && path in a.tabs && a.tabs[path] in a.frames
      && b == a.(frames := Poke(a.frames, a.tabs[path], Index(op.virt, op.target), 0))
      && PageSet(a, b, top, op.root, op.virt, op.target, ZERO_PTE)
    requires !UnmapGoes(a, op, top) ==> b == a
    ensures Step(a, op, b, top)
  {
    hide State.Ok, State.Alive, PageSet, UnmapGoes, WalkPath, Index;
  }

  lemma ClaimIsStep(a: State, b: State, top: Level, fs: seq<nat>)
    requires a.Ok(top) && b.Ok(top) && TookFrames(a, b, fs) && SameFinds(a, b, top)
    ensures Step(a, ClaimOp(fs), b, top)
  {
    hide State.Ok, State.Alive, SameFinds;
    if a.Alive() { TookAlive(a, b, fs, top); }
  }

  lemma GiveBackIsStep(a: State, f: nat, b: State, top: Level)
    requires a.Ok(top) && b.Ok(top) && f in a.data && b.frames.Keys == a.frames.Keys
    requires b == a.(frames := b.frames, free := [f] + a.free, data := a.data - {f})
    requires LinksOnly(a.frames, b.frames, b.free)
    requires forall g | g in a.frames && g !in b.free :: b.frames[g] == a.frames[g]
    ensures Step(a, GiveBackOp(f), b, top)
  {
    hide Forest, View, Walk, State.Alive, SameFinds, LinksOnly;
    SameTablesState(a, b, top);
  }

  lemma StoreIsStep(a: State, b: State, top: Level, f: nat, i: nat, w: Word)
    requires a.Ok(top) && b.Ok(top) && f in a.data && f in a.frames && i < 512
    requires b == a.(frames := Poke(a.frames, f, i, w))
    ensures Step(a, StoreOp(f, i, w), b, top)
  {
    hide Forest, View, Walk, State.Alive, SameFinds;
    SameTablesState(a, b, top);
  }

  lemma CloneIsStep(a: State, b: State, top: Level, source: nat, root: nat)
    requires source in a.roots && a.free != [] && root == a.free[0] && SpaceAdded(a, b, top, source, root)
    ensures Step(a, CloneOp(source, root), b, top)
  {
    hide State.Ok, State.Alive, State.Find, Index, Lively, Childfree;
  }

  /** Calls one after the other, each made while the spaces are in order. */
  ghost predicate Run(states: seq<State>, ops: seq<Op>, top: Level) {
    && |states| == |ops| + 1 && states[0].Ok(top)
    && forall k | 0 <= k < |ops| :: states[k].Ok(top) && Step(states[k], ops[k], states[k + 1], top)
  }

  /** Over every run the frames under management are the same ones: none is lost, none comes in. */
  lemma {:induction false} RunPool(states: seq<State>, ops: seq<Op>, top: Level, k: nat)
    requires Run(states, ops, top) && k < |states|
    ensures states[k].Pool() == states[0].Pool() && states[0].roots <= states[k].roots
  {
    hide State.Ok, Step, State.Pool;
    if k > 0 {
      RunPool(states, ops, top, k - 1);
      StepPool(states[k - 1], ops[k - 1], states[k], top);
    }
  }

  lemma StepPool(a: State, op: Op, b: State, top: Level)
    requires a.Ok(top) && Step(a, op, b, top)
    ensures b.Pool() == a.Pool() && a.roots <= b.roots
  {
    hide State.Find, Forest, View, MapGoes, UnmapGoes, Childfree, Lively, State.Alive;
    match op
    case ClaimOp(fs) => TookSeparate(a, b, fs);
    case GiveBackOp(f) => assert Members(b.free) == {f} + Members(a.free);
    case _ =>
  }

  // Ownership

  /**
   * What a caller has to see to: the page mapped is claimed memory or none of the kernel's, a frame given back is one
   * that no address of any space leads to, and the frame about to become a root holds clean entries in its lower half
   * that lead to no table, and to such memory only.
   */
  ghost predicate Safe(s: State, op: Op, top: Level) {
    match op
    case MapOp(root, virt, phys, target, flags) =>
      target <= top && MapGoes(s, op, top) && flags.Accessible() ==>
        PageHeld(s, PpnOf(phys), top + 1 - |s.RouteTo(top, root, virt, target).path|)
    case GiveBackOp(f) => Unreached(s, top, {f})
    case CloneOp(_, root) =>
      root in s.frames && Childfree(s.frames[root], 0) && LeavesHeld(s, s.frames[root], top)
    case _ => true
  }

  lemma MapOwned(a: State, op: Op, b: State, top: Level)
    requires op.MapOp? && a.Ok(top) && b.Ok(top) && MapStep(a, op, b, top) && Owned(a, top)
    ensures Owned(b, top) <==> Safe(a, op, top)
  {
    hide Forest, View, Owned, EntrySet, SameFinds, PageHeld, Separate, Index, LeafEntry, PageFlags.Accessible, PpnOf;
    LeafEntryKind(PpnOf(op.phys), op.flags);
    assert Keeping(a, b);
    if MapGoes(a, op, top) {
      var path := a.RouteTo(top, op.root, op.virt, op.target).path;
      var e := LeafEntry(PpnOf(op.phys), op.flags);
      SmallIndices(View(b.frames), top, b.roots, b.tabs, path);
      if op.flags.Accessible() {
        LeafOwned(a, b, top, path, Index(op.virt, op.target), e);
      } else {
        ClearedOwned(a, b, top, path, Index(op.virt, op.target), e);
      }
    } else {
      SameOwned(a, b, top);
    }
  }

  lemma UnmapOwned(a: State, op: Op, b: State, top: Level)
    requires op.UnmapOp? && UnmapStep(a, op, b, top) && Owned(a, top)
    ensures Owned(b, top)
  {
    hide Owned, SameFinds, State.Find, SamePage;
    if UnmapGoes(a, op, top) { PageCleared(a, b, top, op.root, op.virt, op.target); }
  }

  lemma PageCleared(a: State, b: State, top: Level, root: nat, virt: Word, target: Level)
    requires b == a.(frames := b.frames) && PageSet(a, b, top, root, virt, target, ZERO_PTE) && Owned(a, top)
    ensures Owned(b, top)
  {
    hide State.Find, SamePage, Held;
    SameHeld(a, b);
  }

  /** One step keeps the spaces in order and ownership exactly if it is safe. */
  lemma StepOwned(a: State, op: Op, b: State, top: Level)
    requires a.Ok(top) && Step(a, op, b, top) && Owned(a, top)
    ensures b.Ok(top) && Owned(b, top) <==> Safe(a, op, top)
  {
    hide Forest, View, Owned, MapStep, UnmapStep, SameFinds, MapGoes, PageHeld, Unreached, LeavesHeld, Childfree,
      State.Alive;
    match op
    case MapOp(_, _, _, _, _) => MapOwned(a, op, b, top);
    case UnmapOp(_, _, _) => UnmapOwned(a, op, b, top);
    case ClaimOp(fs) =>
      TookSeparate(a, b, fs);
      SameOwned(a, b, top);
    case GiveBackOp(f) =>
      assert Members(b.free) == {f} + Members(a.free);
      GivenOwned(a, b, top, {f});
    case StoreOp(_, _, _) => SameOwned(a, b, top);
    case CloneOp(source, root) => CloneOwned(a, b, top, source, root);
  }

  lemma CloneOwned(a: State, b: State, top: Level, source: nat, root: nat)
    requires SpaceAdded(a, b, top, source, root) && source in a.roots && Owned(a, top)
    ensures b.Ok(top) && Owned(b, top) <==>
      root in a.frames && Childfree(a.frames[root], 0) && LeavesHeld(a, a.frames[root], top)
  {
    hide State.Find, State.Ok, State.Alive, Owned, Childfree, LeavesHeld, Lively, Index;
    if b.Ok(top) { AddedOwned(a, b, top, source, root); }
  }

  /**
   * Over every run: the spaces stay in order, and no address ever leads to a free frame or a table, exactly if every
   * operation was safe.
   */
  lemma {:induction false} RunOwned(states: seq<State>, ops: seq<Op>, top: Level)
    requires Run(states, ops, top) && Owned(states[0], top)
    ensures (forall k | 0 <= k < |states| :: states[k].Ok(top) && Owned(states[k], top)) <==>
            (forall k | 0 <= k < |ops| :: Safe(states[k], ops[k], top))
    decreases |ops|
  {
    hide Owned, Safe, Step, State.Ok;
    if |ops| > 0 {
      var last := |ops| - 1;
      var ss, os := states[..last + 1], ops[..last];
      RunOwned(ss, os, top);
      assert forall k | 0 <= k < last :: ss[k] == states[k] && os[k] == ops[k];
      if Owned(states[last], top) { StepOwned(states[last], ops[last], states[last + 1], top); }
      assert forall k | 0 <= k < |states| :: k == last + 1 || (k < |ss| && ss[k] == states[k]);
    }
  }

  // Isolation

  /** Everything the space `r` finds. */
  ghost function Finds(s: State, top: Level, r: nat): (f: Word -> Found)
    ensures forall va: Word :: f(va) == s.Find(top, r, va)
  {
    (va: Word) => s.Find(top, r, va)
  }

  /** The address an operation names. */
  function AddressIn(op: Op): Word { if op.MapOp? || op.UnmapOp? then op.virt else 0 }

  /**
   * What an operation on a space makes of what was found at `va`, where `there` is what was found at the address it
   * names: `map` replaces the page unless a larger one is there, `unmap` removes a page of its size.
   */
  ghost function Effect(op: Op, there: Found, was: Found, top: Level, va: Word): Found {
    match op
    case MapOp(_, virt, phys, target, flags) =>
      if SamePage(va, virt, top, target) && !(there.Hit? && there.level > target)
      then Stop(LeafEntry(PpnOf(phys), flags), target)
      else was
    case UnmapOp(_, virt, target) =>
      if SamePage(va, virt, top, target) && there.Hit? && there.level == target then Missing else was
    case _ => was
  }

  /** What is found at `va` in a space where `f` was found, after operations on that space and nothing else. */
  ghost function FoundAfter(f: Word -> Found, ops: seq<Op>, top: Level, va: Word): Found {
    if ops == [] then f(va) else
      var most, op := ops[..|ops| - 1], ops[|ops| - 1];
      Effect(op, FoundAfter(f, most, top, AddressIn(op)), FoundAfter(f, most, top, va), top, va)
  }

  lemma FoundAfterStep(f: Word -> Found, most: seq<Op>, op: Op, top: Level, va: Word)
    ensures FoundAfter(f, most + [op], top, va) ==
            Effect(op, FoundAfter(f, most, top, AddressIn(op)), FoundAfter(f, most, top, va), top, va)
  {
    hide Effect;
    assert (most + [op])[..|most|] == most;
  }

  lemma {:induction false} FoundAfterSame(f: Word -> Found, g: Word -> Found, ops: seq<Op>, top: Level, va: Word)
    requires forall w :: f(w) == g(w)
    ensures FoundAfter(f, ops, top, va) == FoundAfter(g, ops, top, va)
    decreases |ops|
  {
    hide Effect;
    if ops != [] {
      var most, op := ops[..|ops| - 1], ops[|ops| - 1];
      FoundAfterSame(f, g, most, top, va);
      FoundAfterSame(f, g, most, top, AddressIn(op));
    }
  }

  /** A `map` for which there are frames enough. */
  ghost predicate Enough(s: State, op: Op, top: Level) {
    op.MapOp? ==> s.RouteTo(top, op.root, op.virt, op.target).made < |s.free|
  }

  /** The first `k` operations, less those on other spaces and those that ran out of frames. */
  ghost function OwnOps(states: seq<State>, ops: seq<Op>, top: Level, r: nat, k: nat): seq<Op>
    requires k <= |ops| <= |states|
  {
    if k == 0 then [] else
      var most := OwnOps(states, ops, top, r, k - 1);
      if On(ops[k - 1], r) && Enough(states[k - 1], ops[k - 1], top) then most + [ops[k - 1]] else most
  }

  /** No `map` on the space meets a valid entry that is neither a leaf nor a branch. */
  ghost predicate Straight(s: State, op: Op, top: Level) {
    op.MapOp? ==> s.InTheWay(top, op.root, op.virt, op.target) != Dead
  }

  lemma WayFinds(s: State, top: Level, root: nat, virt: Word, target: Level)
    ensures var f := s.Find(top, root, virt);
      s.InTheWay(top, root, virt, target) == Leaf <==> f.Hit? && f.level > target
  {
    hide View;
    LeafFound(View(s.frames), root, top, virt, target);
  }

  /** What one operation does to what a space finds. */
  lemma StepFinds(a: State, op: Op, b: State, top: Level, r: nat, va: Word)
    requires a.Ok(top) && Step(a, op, b, top) && r in a.roots && (On(op, r) ==> Straight(a, op, top))
    ensures !On(op, r) || !Enough(a, op, top) ==> b.Find(top, r, va) == a.Find(top, r, va)
    ensures On(op, r) && Enough(a, op, top) ==>
      b.Find(top, r, va) == Effect(op, a.Find(top, r, op.virt), a.Find(top, r, va), top, va)
  {
    hide State.Find, State.Ok, SamePage, Index, LeafEntry, EntrySet, Accounted, State.RouteTo, State.InTheWay,
      TookFrames, PpnOf;
    if op.MapOp? {
      WayKinds(a, top, op.root, op.virt, op.target);
      WayFinds(a, top, op.root, op.virt, op.target);
      if MapGoes(a, op, top) {
        var path, e := a.RouteTo(top, op.root, op.virt, op.target).path, LeafEntry(PpnOf(op.phys), op.flags);
        SameFindsRefl(a, top);
        OthersSameEntry(a, a, b, top, op.root, path, Index(op.virt, op.target), e);
        if On(op, r) { PageSetBy(a, a, b, top, r, op.virt, op.target, e, path); }
      }
    }
  }

  /** Isolation: over every run, a space finds what it would find after its own operations alone. */
  lemma {:induction false} Isolation(states: seq<State>, ops: seq<Op>, top: Level, r: nat, k: nat, va: Word)
    requires Run(states, ops, top) && k <= |ops| && r in states[0].roots
    requires forall i | 0 <= i < k && On(ops[i], r) :: Straight(states[i], ops[i], top)
    ensures states[k].Find(top, r, va) == FoundAfter(Finds(states[0], top, r), OwnOps(states, ops, top, r, k), top, va)
    decreases k
  {
    hide State.Find, State.Ok, Step, FoundAfter, Straight, Enough, Effect;
    var f := Finds(states[0], top, r);
    if k == 0 {
      NoOps(f, top, va);
    } else {
      var op := ops[k - 1];
      var own := OwnOps(states, ops, top, r, k - 1);
      Isolation(states, ops, top, r, k - 1, va);
      Isolation(states, ops, top, r, k - 1, AddressIn(op));
      RunPool(states, ops, top, k - 1);
      StepFinds(states[k - 1], op, states[k], top, r, va);
      FoundAfterStep(f, own, op, top, va);
    }
  }

  lemma NoOps(f: Word -> Found, top: Level, va: Word)
    ensures FoundAfter(f, [], top, va) == f(va)
  {
  }

  /** What the copy of a space finds when it is made: what the frame held in the lower half, the same in the upper. */
  ghost function MadeFrom(a: State, top: Level, source: nat, root: nat): (f: Word -> Found)
    requires root in a.frames
    ensures forall va: Word | Index(va, top) < 256 :: f(va) == Stop(Decode(a.frames[root][Index(va, top)]), top)
    ensures forall va: Word | Index(va, top) >= 256 :: f(va) == a.Find(top, source, va)
  {
    (va: Word) =>
      if Index(va, top) < 256 then Stop(Decode(a.frames[root][Index(va, top)]), top) else a.Find(top, source, va)
  }

  /**
   * Clone isolation: whatever any spaces do after a copy was made, every older space finds what it found then,
   * changed by its own operations alone, and so does the copy.
   */
  lemma CloneIsolation(a: State, states: seq<State>, ops: seq<Op>, top: Level, source: nat, root: nat, r: nat, va: Word)
    requires Run(states, ops, top) && source in a.roots && SpaceAdded(a, states[0], top, source, root)
    requires r in a.roots || r == root
    requires forall i | 0 <= i < |ops| && On(ops[i], r) :: Straight(states[i], ops[i], top)
    ensures states[|ops|].Find(top, r, va) ==
      FoundAfter(if r == root then MadeFrom(a, top, source, root) else Finds(a, top, r),
                 OwnOps(states, ops, top, r, |ops|), top, va)
  {
    hide State.Find, State.Ok, State.Alive, Index, Step, FoundAfter, Straight, OwnOps, Decode, Lively, Pte.IsLeaf,
      Pte.Clean;
    Isolation(states, ops, top, r, |ops|, va);
    var f := if r == root then MadeFrom(a, top, source, root) else Finds(a, top, r);
    assert forall w: Word :: f(w) == states[0].Find(top, r, w);
    FoundAfterSame(Finds(states[0], top, r), f, OwnOps(states, ops, top, r, |ops|), top, va);
  }

  /** With accessible pages only, and no such entry in a frame made a root, no such entry ever comes about. */
  lemma {:induction false} RunStraight(states: seq<State>, ops: seq<Op>, top: Level, k: nat)
    requires Run(states, ops, top) && states[0].Alive() && k < |states|
    requires forall i | 0 <= i < |ops| :: Live(states[i], ops[i])
    ensures states[k].Alive()
    ensures k < |ops| ==> Straight(states[k], ops[k], top)
  {
    hide State.Ok, State.Alive, Straight, Live, MapStep, UnmapStep, GiveBackStep, StoreStep, CloneStep, TookFrames,
      SameFinds;
    if k > 0 {
      RunStraight(states, ops, top, k - 1);
      assert Step(states[k - 1], ops[k - 1], states[k], top);
    }
    if k < |ops| {
      assert Step(states[k], ops[k], states[k + 1], top);
      AliveStraight(states[k], ops[k], states[k + 1], top);
    }
  }

  lemma AliveStraight(a: State, op: Op, b: State, top: Level)
    requires a.Ok(top) && a.Alive() && Step(a, op, b, top)
    ensures Straight(a, op, top)
  {
    hide Forest, View, Walk, ObstacleOf, PageTables.Alive, Index, State.Find;
    if op.MapOp? {
      RootTable(View(a.frames), top, a.roots, a.tabs, op.root, op.virt);
      ObstacleFromFind(View(a.frames), top, a.roots, a.tabs, op.root, op.virt, op.target, 0);
    }
  }
}

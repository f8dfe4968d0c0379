/** The physical frame allocator: a doubly linked list threaded through the free frames themselves. */
module Pmm {
  import opened PageEntries
  import opened Addresses
  import opened PhysicalMemory

  /** The pointer to a frame of the list, null outside it. */
  function Link(hhdm: Word, s: seq<nat>, k: int): nat {
    if 0 <= k < |s| then Ptr(hhdm, s[k]) else 0
  }

  ghost predicate Distinct(s: seq<nat>) {
    forall j, k | 0 <= j < k < |s| :: s[j] != s[k]
  }

  /** Frame `s[k]` is in memory and holds the `prev` and `next` pointers of the list `s`. */
  ghost predicate NodeAt(m: Frames, hhdm: Word, s: seq<nat>, k: int)
    requires 0 <= k < |s|
  {
    s[k] in m && m[s[k]][0] == Link(hhdm, s, k - 1) && m[s[k]][1] == Link(hhdm, s, k + 1)
  }

  /** Head, tail, length and all links describe one non-empty sequence without repetition. */
  ghost predicate Links(m: Frames, hhdm: Word, head: Word, tail: Word, len: nat, s: seq<nat>) {
    && |s| == len >= 1
    && head == Link(hhdm, s, 0)
    && tail == Link(hhdm, s, |s| - 1)
    && (forall k | 0 <= k < |s| :: NodeAt(m, hhdm, s, k))
    && Distinct(s)
  }

  lemma HeadNode(m: Frames, hhdm: Word, head: Word, tail: Word, s: seq<nat>)
    requires Links(m, hhdm, head, tail, |s|, s)
    ensures head == Ptr(hhdm, s[0]) && s[0] in m && NodeAt(m, hhdm, s, 0)
  {
    assert NodeAt(m, hhdm, s, 0);
  }

  /** Free frames keep all their words but the two links. */
  ghost predicate LinksOnly(m: Frames, m': Frames, s: seq<nat>) {
    forall g, i | g in s && g in m && g in m' && 2 <= i < 512 :: m'[g][i] == m[g][i]
  }

  lemma LinksPush(m: Frames, hhdm: Word, head: Word, tail: Word, s: seq<nat>, f: nat)
    requires Links(m, hhdm, head, tail, |s|, s) && f in m && f !in s && Ptr(hhdm, f) < TWO_64
    ensures s[|s| - 1] in m
    ensures var m' := Poke(Poke(Poke(m, f, 1, 0), f, 0, tail), s[|s| - 1], 1, Ptr(hhdm, f));
      Links(m', hhdm, head, Ptr(hhdm, f), |s| + 1, s + [f])
  {
    assert NodeAt(m, hhdm, s, |s| - 1);
    var m' := Poke(Poke(Poke(m, f, 1, 0), f, 0, tail), s[|s| - 1], 1, Ptr(hhdm, f));
    forall k | 0 <= k < |s| + 1
      ensures NodeAt(m', hhdm, s + [f], k)
    {
      if k < |s| { assert NodeAt(m, hhdm, s, k); }
    }
  }

  lemma LinksPull(m: Frames, hhdm: Word, head: Word, tail: Word, s: seq<nat>, f: nat)
    requires Links(m, hhdm, head, tail, |s|, s) && f in m && f !in s && Ptr(hhdm, f) < TWO_64
    ensures s[0] in m
    ensures var m' := Poke(Poke(Poke(m, f, 0, 0), f, 1, head), s[0], 0, Ptr(hhdm, f));
      Links(m', hhdm, Ptr(hhdm, f), tail, |s| + 1, [f] + s)
  {
    assert NodeAt(m, hhdm, s, 0);
    var m' := Poke(Poke(Poke(m, f, 0, 0), f, 1, head), s[0], 0, Ptr(hhdm, f));
    forall k | 0 <= k < |s| + 1
      ensures NodeAt(m', hhdm, [f] + s, k)
    {
      if k > 0 { assert NodeAt(m, hhdm, s, k - 1); }
    }
  }

  /** The list without the `n` entries from position `b`. */
  function Without(s: seq<nat>, b: nat, n: nat): seq<nat>
    requires b + n <= |s|
  {
    s[..b] + s[b + n..]
  }

  /** Stitching the neighbours of a stretch that does not reach the tail takes exactly that stretch out. */
  lemma LinksCut(m: Frames, hhdm: Word, head: Word, tail: Word, s: seq<nat>, b: nat, n: nat)
    requires Links(m, hhdm, head, tail, |s|, s) && b + n < |s| && n > 0
    requires forall f | f in m :: Ptr(hhdm, f) < TWO_64
    ensures s[b + n] in m && (b > 0 ==> s[b - 1] in m)
    ensures Link(hhdm, s, b - 1) < TWO_64 && Link(hhdm, s, b + n) < TWO_64
    ensures
      var m1 := if b == 0 then m else Poke(m, s[b - 1], 1, Link(hhdm, s, b + n));
      var m2 := Poke(m1, s[b + n], 0, Link(hhdm, s, b - 1));
      var head' := if b == 0 then Link(hhdm, s, b + n) else head;
      Links(m2, hhdm, head', tail, |s| - n, Without(s, b, n))
  {
    assert NodeAt(m, hhdm, s, b + n);
    if b > 0 { assert NodeAt(m, hhdm, s, b - 1); }
    var m1 := if b == 0 then m else Poke(m, s[b - 1], 1, Link(hhdm, s, b + n));
    var m2 := Poke(m1, s[b + n], 0, Link(hhdm, s, b - 1));
    var t := Without(s, b, n);
    forall k | 0 <= k < |t|
      ensures NodeAt(m2, hhdm, t, k)
    {
      assert NodeAt(m, hhdm, s, if k < b then k else k + n);
      CutNode(m, m2, hhdm, s, b, n, k);
    }
  }

  lemma CutNode(m: Frames, m2: Frames, hhdm: Word, s: seq<nat>, b: nat, n: nat, k: nat)
    requires b + n < |s| && n > 0 && k < |s| - n && Distinct(s)
    requires var j := if k < b then k else k + n; NodeAt(m, hhdm, s, j) && s[j] in m2
    requires Link(hhdm, s, b - 1) < TWO_64 && Link(hhdm, s, b + n) < TWO_64
    requires forall j, i | 0 <= j < |s| && s[j] in m && s[j] in m2 && 0 <= i < 2 ::
      m2[s[j]][i] == (if j == b - 1 && i == 1 then Link(hhdm, s, b + n)
        else if j == b + n && i == 0 then Link(hhdm, s, b - 1) else m[s[j]][i])
    ensures NodeAt(m2, hhdm, Without(s, b, n), k)
  {
  }

  /** On two or more frames the second becomes the head. */
  lemma HeadTaken(m: Frames, hhdm: Word, head: Word, tail: Word, s: seq<nat>)
    requires Links(m, hhdm, head, tail, |s|, s) && |s| >= 2 && forall f | f in m :: Ptr(hhdm, f) < TWO_64
    ensures s[0] in m && s[1] in m && s[0] !in s[1..] && m[s[0]][1] == Ptr(hhdm, s[1])
    ensures Links(Poke(m, s[1], 0, 0), hhdm, m[s[0]][1], tail, |s| - 1, s[1..])
  {
    assert NodeAt(m, hhdm, s, 0) && NodeAt(m, hhdm, s, 1);
    LinksCut(m, hhdm, head, tail, s, 0, 1);
    assert Without(s, 0, 1) == s[1..];
  }

  /** Memory after stitching the neighbours of `n` entries from position `b`. */
  function Stitched(m: Frames, hhdm: Word, s: seq<nat>, b: nat, n: nat): Frames
    requires b + n < |s| && s[b + n] in m && (b > 0 ==> s[b - 1] in m)
    requires Link(hhdm, s, b - 1) < TWO_64 && Link(hhdm, s, b + n) < TWO_64
  {
    Poke(if b == 0 then m else Poke(m, s[b - 1], 1, Link(hhdm, s, b + n)), s[b + n], 0, Link(hhdm, s, b - 1))
  }

  lemma StitchedRest(m: Frames, hhdm: Word, s: seq<nat>, b: nat, n: nat)
    requires b + n < |s| && s[b + n] in m && (b > 0 ==> s[b - 1] in m)
    requires Link(hhdm, s, b - 1) < TWO_64 && Link(hhdm, s, b + n) < TWO_64
    ensures var m', t := Stitched(m, hhdm, s, b, n), Without(s, b, n);
      LinksOnly(m, m', t) && m'.Keys == m.Keys && forall f | f in m && f !in t :: m'[f] == m[f]
  {
    var t := Without(s, b, n);
    assert t[b] == s[b + n] && (b > 0 ==> t[b - 1] == s[b - 1]);
  }

  lemma PokeLinksOnly(m: Frames, m': Frames, s: seq<nat>, f: nat, i: nat, w: Word)
    requires LinksOnly(m, m', s) && f in m' && i < 2
    ensures LinksOnly(m, Poke(m', f, i, w), s)
  {
  }

  /** `frames` list-consecutive, ascending adjacent frames from position `b`, the first of them aligned. */
  ghost predicate GoodRun(hhdm: Word, s: seq<nat>, b: nat, frames: nat, align: nat)
    requires align > 0
  {
    && b + frames <= |s|
    && (forall k | b <= k < b + frames - 1 :: s[k + 1] == s[k] + 1)
    && Link(hhdm, s, b) % align == 0
  }

  ghost predicate FirstRun(hhdm: Word, s: seq<nat>, b: nat, frames: nat, align: nat)
    requires align > 0
  {
    GoodRun(hhdm, s, b, frames, align) && forall c: nat | c < b :: !GoodRun(hhdm, s, c, frames, align)
  }

  /** The list has `frames` frames from position `b` that follow each other in memory. */
  ghost predicate AdjacentFrom(s: seq<nat>, b: nat, frames: nat) {
    b + frames <= |s| && forall j | b <= j < b + frames :: s[j] == s[b] + (j - b)
  }

  /** A run that serves is one of adjacent frames, the first at an aligned address of the direct map. */
  lemma {:induction false} GoodRunMeans(hhdm: Word, s: seq<nat>, b: nat, frames: nat, align: nat)
    requires align > 0 && frames > 0
    ensures GoodRun(hhdm, s, b, frames, align) <==>
            AdjacentFrom(s, b, frames) && (hhdm + 4096 * s[b]) % align == 0
    decreases frames
  {
    if frames > 1 && b + frames <= |s| {
      GoodRunMeans(hhdm, s, b, frames - 1, align);
      var last := b + frames - 2;
      if GoodRun(hhdm, s, b, frames, align) {
        assert s[last + 1] == s[last] + 1;
      }
    }
  }

  lemma FirstRunMeans(hhdm: Word, s: seq<nat>, b: nat, frames: nat, align: nat)
    requires align > 0 && frames > 0 && FirstRun(hhdm, s, b, frames, align)
    ensures b + frames <= |s| && AdjacentFrom(s, b, frames) && Ptr(hhdm, s[b]) % align == 0
  {
    hide GoodRun;
    GoodRunMeans(hhdm, s, b, frames, align);
  }

  /** What makes the contiguous search fail. */
  ghost predicate NoGoodRun(hhdm: Word, s: seq<nat>, frames: nat) {
    frames == 0 || forall c: nat :: !GoodRun(hhdm, s, c, frames, 1)
  }

  /** The first run of that many frames ends with the last frame of the list. */
  ghost predicate RunAtTail(hhdm: Word, s: seq<nat>, frames: nat) {
    frames <= |s| && FirstRun(hhdm, s, |s| - frames, frames, 1)
  }

  lemma WithoutMembers(s: seq<nat>, b: nat, n: nat)
    requires b + n <= |s| && Distinct(s)
    ensures forall f :: f in Without(s, b, n) <==> f in s && f !in s[b..b + n]
  {
    forall f
      ensures f in Without(s, b, n) <==> f in s && f !in s[b..b + n]
    {
      if f in s {
        var k :| 0 <= k < |s| && s[k] == f;
        if b <= k < b + n {
          assert s[b..b + n][k - b] == f;
        } else {
          assert Without(s, b, n)[if k < b then k else k - n] == f;
        }
      }
    }
  }

  /** The frames of a good run count up from its first. */
  lemma {:induction false} RunFrames(hhdm: Word, s: seq<nat>, b: nat, n: nat, align: nat, k: nat)
    requires align > 0 && GoodRun(hhdm, s, b, n, align) && k < n
    ensures s[b + k] == s[b] + k
  {
    if k > 0 { RunFrames(hhdm, s, b, n, align, k - 1); }
  }

  ghost predicate Consecutive(fs: seq<nat>) {
    forall k | 0 <= k < |fs| :: fs[k] == fs[0] + k
  }

  lemma ConsecutiveDistinct(fs: seq<nat>)
    requires Consecutive(fs)
    ensures Distinct(fs)
  {
  }

  /** The frames of the first run are consecutive, and they are what the list loses. */
  lemma RunTaken(hhdm: Word, s: seq<nat>, b: nat, n: nat)
    requires Distinct(s) && FirstRun(hhdm, s, b, n, 1) && n > 0
    ensures b + n <= |s| && Consecutive(s[b..b + n])
    ensures forall f :: f in Without(s, b, n) <==> f in s && f !in s[b..b + n]
    ensures b + n < |s| ==> s[|s| - 1] !in s[b..b + n]
  {
    WithoutMembers(s, b, n);
    hide Without;
    var fs := s[b..b + n];
    forall k | 0 <= k < n
      ensures fs[k] == fs[0] + k
    {
      RunFrames(hhdm, s, b, n, 1, k);
    }
  }

  /** A free frame other than the last holds a pointer to another one. */
  lemma NextLink(m: Frames, hhdm: Word, head: Word, tail: Word, s: seq<nat>, f: nat) returns (g: nat)
    requires Links(m, hhdm, head, tail, |s|, s) && hhdm > 0 && f in s && f != s[|s| - 1]
    ensures f in m && g in s && m[f][1] == Ptr(hhdm, g) > 0
  {
    var k :| 0 <= k < |s| && s[k] == f;
    assert NodeAt(m, hhdm, s, k);
    g := s[k + 1];
  }

  lemma FirstAtTail(hhdm: Word, s: seq<nat>, b: nat, n: nat)
    requires FirstRun(hhdm, s, b, n, 1)
    ensures b + n <= |s| && (RunAtTail(hhdm, s, n) <==> b + n == |s|)
  {
  }

  lemma NoneAtTail(hhdm: Word, s: seq<nat>, n: nat)
    requires NoGoodRun(hhdm, s, n) && |s| > 0
    ensures !RunAtTail(hhdm, s, n)
  {
    if n == 0 { assert GoodRun(hhdm, s, 0, 0, 1); }
  }

  lemma OneAtTail(hhdm: Word, s: seq<nat>)
    requires |s| > 0
    ensures RunAtTail(hhdm, s, 1) <==> |s| == 1
  {
    assert GoodRun(hhdm, s, 0, 1, 1);
  }

  /** The list depends on its own frames only. */
  lemma LinksFrame(m: Frames, m': Frames, hhdm: Word, head: Word, tail: Word, len: nat, s: seq<nat>)
    requires Links(m, hhdm, head, tail, len, s)
    requires forall f | f in m && f in s :: f in m' && m'[f] == m[f]
    ensures Links(m', hhdm, head, tail, len, s)
  {
    forall k | 0 <= k < |s|
      ensures NodeAt(m', hhdm, s, k)
    {
      assert NodeAt(m, hhdm, s, k);
    }
  }

  /** A run that breaks after position `i`, short of `frames`, holds no start of a good run. */
  lemma RunBroken(hhdm: Word, s: seq<nat>, b: nat, i: nat, frames: nat, align: nat)
    requires align > 0 && b <= i < |s|
    requires frames > 0 ==> i - b + 1 < frames
    requires Link(hhdm, s, b) % align == 0 ==> i + 1 == |s| || s[i + 1] != s[i] + 1
    requires Link(hhdm, s, b) % align != 0 ==> i == b
    ensures frames > 0 ==> forall c: nat | b <= c <= i :: !GoodRun(hhdm, s, c, frames, align)
  {
    forall c: nat | b <= c <= i && frames > 0
      ensures !GoodRun(hhdm, s, c, frames, align)
    {
      assert i < c + frames - 1;
    }
  }

  datatype ClaimResult =
    | Claimed(ptr: Word)
    | NoRun      // `Err`: no run is long enough
    | NullWrite  // the write through a null `next` when the run found reaches the tail

  class FreeList {
    const ram: Ram
    var head: Word
    var tail: Word
    var len: nat
    ghost var free: seq<nat>

    ghost predicate Valid()
      reads this, ram
    {
      ram.Valid() && len == |free| >= 1 && Links(ram.frames, ram.hhdm, head, tail, len, free)
    }

    /** `FreeList::null` */
    constructor (ram: Ram)
      ensures this.ram == ram && head == 0 && tail == 0 && len == 0 && free == []
    {
      this.ram := ram;
      head, tail, len, free := 0, 0, 0, [];
    }

    /** Writes one pointer field of the list entry at `ptr`: 0 is `prev`, 1 is `next`. */
    method Store(ptr: Word, field: nat, value: Word)
      requires ptr >= ram.hhdm && FrameOf(ram.hhdm, ptr) in ram.frames && field < 512
      modifies ram
      ensures ram.frames == Poke(old(ram.frames), FrameOf(ram.hhdm, ptr), field, value)
    {
      var f := FrameOf(ram.hhdm, ptr);
      ram.frames := Poke(ram.frames, f, field, value);
    }

    method Init(ptr: Word)
      requires ram.Valid() && ptr >= ram.hhdm && FrameOf(ram.hhdm, ptr) in ram.frames && ptr % PAGE_SIZE == 0
      modifies this, ram
      ensures Valid() && free == [FrameOf(ram.hhdm, ptr)]
      ensures ram.frames.Keys == old(ram.frames).Keys && LinksOnly(old(ram.frames), ram.frames, free)
      ensures forall f | f in ram.frames && f !in free :: ram.frames[f] == old(ram.frames)[f]
    {
      Store(ptr, 0, 0);
      Store(ptr, 1, 0);
      head, tail, len := ptr, ptr, 1;
      free := [FrameOf(ram.hhdm, ptr)];
    }

    /** Appends a frame; false is the panic on a pointer below the direct map or not page aligned. */
    method Push(ptr: Word) returns (ok: bool)
      requires Valid()
      requires ptr >= ram.hhdm ==> FrameOf(ram.hhdm, ptr) in ram.frames && FrameOf(ram.hhdm, ptr) !in free
      modifies this, ram
      ensures ok <==> ptr >= ram.hhdm && ptr % PAGE_SIZE == 0
      ensures Valid() && free == if ok then old(free) + [FrameOf(ram.hhdm, ptr)] else old(free)
      ensures ram.frames.Keys == old(ram.frames).Keys && LinksOnly(old(ram.frames), ram.frames, free)
      ensures forall f | f in ram.frames && f !in free :: ram.frames[f] == old(ram.frames)[f]
    {
      if ptr < ram.hhdm || ptr % PAGE_SIZE != 0 {
        return false;
      }
      ghost var f := FrameOf(ram.hhdm, ptr);
      PtrOfFrame(ram.hhdm, ptr);
      LinksPush(ram.frames, ram.hhdm, head, tail, free, f);
      FrameOfPtr(ram.hhdm, free[|free| - 1]);
      Store(ptr, 1, 0);
      Store(ptr, 0, tail);
      Store(tail, 1, ptr);
      tail := ptr;
      len := len + 1;
      free := free + [f];
      ok := true;
    }

    /** Puts a frame in front; false is the panic on a pointer below the direct map or not page aligned. */
    method Pull(ptr: Word) returns (ok: bool)
      requires Valid()
      requires ptr >= ram.hhdm ==> FrameOf(ram.hhdm, ptr) in ram.frames && FrameOf(ram.hhdm, ptr) !in free
      modifies this, ram
      ensures ok <==> ptr >= ram.hhdm && ptr % PAGE_SIZE == 0
      ensures Valid() && free == if ok then [FrameOf(ram.hhdm, ptr)] + old(free) else old(free)
      ensures ram.frames.Keys == old(ram.frames).Keys && LinksOnly(old(ram.frames), ram.frames, free)
      ensures forall f | f in ram.frames && f !in free :: ram.frames[f] == old(ram.frames)[f]
    {
      if ptr < ram.hhdm || ptr % PAGE_SIZE != 0 {
        return false;
      }
      ghost var f := FrameOf(ram.hhdm, ptr);
      PtrOfFrame(ram.hhdm, ptr);
      LinksPull(ram.frames, ram.hhdm, head, tail, free, f);
      FrameOfPtr(ram.hhdm, free[0]);
      Store(ptr, 0, 0);
      Store(ptr, 1, head);
      Store(head, 0, ptr);
      head := ptr;
      len := len + 1;
      free := [f] + free;
      ok := true;
    }

    /**
     * Takes the head frame. On a list of one frame the null `next` is taken for a damaged link and the
     * frame behind the head becomes the new head, free or not.
     */
    method Claim() returns (ptr: Word)
      requires Valid()
      modifies this, ram
      ensures ptr == old(head) && ram.frames.Keys == old(ram.frames).Keys && tail == old(tail)
      ensures |old(free)| >= 2 ==> free == old(free)[1..]
      ensures |old(free)| >= 2 ==> forall f | f in ram.frames && f !in free :: ram.frames[f] == old(ram.frames)[f]
      ensures |old(free)| >= 2 ==> LinksOnly(old(ram.frames), ram.frames, free)
      ensures |old(free)| == 1 ==> head == old(head) + PAGE_SIZE && len == 0
      ensures Valid() <==> |old(free)| >= 2
    {
      ghost var s := free;
      HeadNode(ram.frames, ram.hhdm, head, tail, s);
      FrameOfPtr(ram.hhdm, s[0]);
      if |s| >= 2 {
        HeadTaken(ram.frames, ram.hhdm, head, tail, s);
        FrameOfPtr(ram.hhdm, s[1]);
        PokeLinksOnly(ram.frames, ram.frames, s[1..], s[1], 0, 0);
      }
      hide Links, LinksOnly;
      var ogHead := head;
      var next := ram.frames[FrameOf(ram.hhdm, ogHead)][1];
      if next < ram.hhdm {
        Store(ogHead, 1, ogHead + PAGE_SIZE);
        next := ogHead + PAGE_SIZE;
      }
      if FrameOf(ram.hhdm, next) in ram.frames {
        Store(next, 0, 0);
      }
      head := next;
      len := len - 1;
      ptr := ogHead;
      if |s| >= 2 { free := s[1..]; }
    }

    /** Stitches the neighbours of the run from `baseEntry` to `current`; false is the write through a null `next`. */
    method Unlink(baseEntry: Word, current: Word, frames: nat, ghost b: nat) returns (linked: bool)
      requires Valid() && frames > 0 && b + frames <= |free|
      requires baseEntry == Link(ram.hhdm, free, b) && current == Link(ram.hhdm, free, b + frames - 1)
      modifies this, ram
      ensures ram.frames.Keys == old(ram.frames).Keys && tail == old(tail)
      ensures linked <==> b + frames < |old(free)|
      ensures linked ==> Valid() && free == Without(old(free), b, frames)
      ensures linked ==> forall f | f in ram.frames && f !in free :: ram.frames[f] == old(ram.frames)[f]
      ensures linked ==> LinksOnly(old(ram.frames), ram.frames, free)
    {
      ghost var s := free;
      assert NodeAt(ram.frames, ram.hhdm, s, b) && NodeAt(ram.frames, ram.hhdm, s, b + frames - 1);
      FrameOfPtr(ram.hhdm, s[b]);
      FrameOfPtr(ram.hhdm, s[b + frames - 1]);
      var previous := ram.frames[FrameOf(ram.hhdm, baseEntry)][0];
      var next := ram.frames[FrameOf(ram.hhdm, current)][1];
      if next == 0 {
        return false;
      }
      LinksCut(ram.frames, ram.hhdm, head, tail, s, b, frames);
      FrameOfPtr(ram.hhdm, s[b + frames]);
      if b > 0 { FrameOfPtr(ram.hhdm, s[b - 1]); }
      StitchedRest(ram.frames, ram.hhdm, s, b, frames);
      hide Links, NodeAt, LinksOnly, Without;
      if previous == 0 {
        head := next;
        Store(next, 0, 0);
      } else {
        Store(previous, 1, next);
        Store(next, 0, previous);
      }
      len := len - frames;
      free := Without(s, b, frames);
      linked := true;
    }

    /**
     * The pass of `claim_continuous` (with `align` 1) and `claim_aligned` over the list: it grows a run of
     * adjacent frames, restarts it where it breaks, and stops at the first run that is long enough.
     */
    method FindRun(frames: nat, align: nat) returns (found: bool, baseEntry: Word, current: Word, ghost b: nat)
      requires Valid() && frames != 1 && align > 0
      ensures frames == 0 ==> !found
      ensures found ==> FirstRun(ram.hhdm, free, b, frames, align)
      ensures found ==> baseEntry == Link(ram.hhdm, free, b) && current == Link(ram.hhdm, free, b + frames - 1)
      ensures !found && frames > 0 ==> forall c: nat :: !GoodRun(ram.hhdm, free, c, frames, align)
    {
      baseEntry, current, b := head, head, 0;
      var run := 1;
      for i := 0 to len
        invariant b <= i <= |free| && run == (if i < |free| then i - b + 1 else 1) && (i == |free| ==> b == i)
        invariant baseEntry == Link(ram.hhdm, free, b) && current == Link(ram.hhdm, free, i)
        invariant frames > 0 ==> run <= frames
        invariant run > 1 ==> baseEntry % align == 0
        invariant forall k | b <= k < i && i < |free| :: free[k + 1] == free[k] + 1
        invariant frames > 0 ==> forall c: nat | c < b :: !GoodRun(ram.hhdm, free, c, frames, align)
      {
        if run == frames {
          return true, baseEntry, current, b;
        }
        assert NodeAt(ram.frames, ram.hhdm, free, i);
        FrameOfPtr(ram.hhdm, free[i]);
        var next := ram.frames[FrameOf(ram.hhdm, current)][1];
        if current + PAGE_SIZE == next && baseEntry % align == 0 {
          current := next;
          run := run + 1;
        } else {
          RunBroken(ram.hhdm, free, b, i, frames, align);
          current := next;
          baseEntry := current;
          run := 1;
          b := i + 1;
        }
      }
      found := false;
    }

    /** `claim_continuous` (with `align` 1) and `claim_aligned`, for other than one frame. */
    method ClaimRun(frames: nat, align: nat) returns (r: ClaimResult, ghost b: nat)
      requires Valid() && frames != 1 && align > 0
      modifies this, ram
      ensures ram.frames.Keys == old(ram.frames).Keys && tail == old(tail)
      ensures r.NoRun? <==> frames == 0 || forall c: nat :: !GoodRun(ram.hhdm, old(free), c, frames, align)
      ensures r.NoRun? ==> Valid() && free == old(free) && ram.frames == old(ram.frames) && head == old(head)
      ensures !r.NoRun? ==> FirstRun(ram.hhdm, old(free), b, frames, align)
      ensures r.NullWrite? <==> !r.NoRun? && b + frames == |old(free)|
      ensures r.Claimed? ==> r.ptr == Ptr(ram.hhdm, old(free)[b])
      ensures r.Claimed? ==> Valid() && free == Without(old(free), b, frames)
      ensures r.Claimed? ==> forall f | f in ram.frames && f !in free :: ram.frames[f] == old(ram.frames)[f]
      ensures r.Claimed? ==> LinksOnly(old(ram.frames), ram.frames, free)
    {
      var found, baseEntry, current;
      found, baseEntry, current, b := FindRun(frames, align);
      if !found {
        return NoRun, 0;
      }
      var linked := Unlink(baseEntry, current, frames, b);
      r := if linked then Claimed(baseEntry) else NullWrite;
    }

    /** One frame is taken from the head, also from a list of one. */
    method ClaimContinuous(frames: nat) returns (r: ClaimResult, ghost b: nat)
      requires Valid()
      modifies this, ram
      ensures ram.frames.Keys == old(ram.frames).Keys
      ensures r.NoRun? <==> NoGoodRun(ram.hhdm, old(free), frames)
      ensures r.NoRun? ==> Valid() && free == old(free) && ram.frames == old(ram.frames)
      ensures !r.NoRun? ==> FirstRun(ram.hhdm, old(free), b, frames, 1)
      ensures r.NullWrite? <==> !r.NoRun? && b + frames == |old(free)| && frames != 1
      ensures r.Claimed? ==> r.ptr == Ptr(ram.hhdm, old(free)[b])
      ensures r.Claimed? ==> (Valid() <==> b + frames < |old(free)|)
      ensures r.Claimed? && Valid() ==>
        free == Without(old(free), b, frames) && LinksOnly(old(ram.frames), ram.frames, free)
      ensures r.Claimed? && Valid() ==> forall f | f in ram.frames && f !in free :: ram.frames[f] == old(ram.frames)[f]
    {
      HeadNode(ram.frames, ram.hhdm, head, tail, free);
      if frames == 1 {
        var p := Claim();
        b := 0;
        assert GoodRun(ram.hhdm, old(free), 0, 1, 1);
        assert Without(old(free), 0, 1) == old(free)[1..];
        return Claimed(p), 0;
      }
      r, b := ClaimRun(frames, 1);
    }

    /** With one frame the alignment is not looked at. */
    method ClaimAligned(frames: nat, align: Level) returns (r: ClaimResult, ghost b: nat)
      requires Valid()
      modifies this, ram
      ensures ram.frames.Keys == old(ram.frames).Keys
      ensures frames != 1 ==>
        (r.NoRun? <==> frames == 0 || forall c: nat :: !GoodRun(ram.hhdm, old(free), c, frames, PageSpan(align)))
      ensures r.NoRun? ==> Valid() && free == old(free) && ram.frames == old(ram.frames)
      ensures !r.NoRun? && frames != 1 ==> FirstRun(ram.hhdm, old(free), b, frames, PageSpan(align))
      ensures r.NullWrite? <==> !r.NoRun? && b + frames == |old(free)| && frames != 1
      ensures r.Claimed? ==> b + frames <= |old(free)| && r.ptr == Ptr(ram.hhdm, old(free)[b])
      ensures r.Claimed? && frames != 1 ==>
        r.ptr % PageSpan(align) == 0 && AdjacentFrom(old(free), b, frames)
      ensures frames == 1 ==> r == Claimed(Ptr(ram.hhdm, old(free)[0])) && b == 0
      ensures r.Claimed? ==> (Valid() <==> b + frames < |old(free)|)
      ensures r.Claimed? && Valid() ==>
        free == Without(old(free), b, frames) && LinksOnly(old(ram.frames), ram.frames, free)
      ensures r.Claimed? && Valid() ==> forall f | f in ram.frames && f !in free :: ram.frames[f] == old(ram.frames)[f]
    {
      hide GoodRun, AdjacentFrom, LinksOnly;
      HeadNode(ram.frames, ram.hhdm, head, tail, free);
      if frames == 1 {
        var p := Claim();
        assert Without(old(free), 0, 1) == old(free)[1..];
        return Claimed(p), 0;
      }
      r, b := ClaimRun(frames, PageSpan(align));
      if r.Claimed? { FirstRunMeans(ram.hhdm, old(free), b, frames, PageSpan(align)); }
    }
  }

  /** One line of the boot loader's memory map. */
  datatype MapEntry = MapEntry(base: nat, size: nat, usable: bool)
  {
    function Frames(): seq<nat> {
      if usable then seq(PagesIn(size), k requires 0 <= k => base / PAGE_SIZE + k) else []
    }
  }

  /** All frames of the usable entries, in map order. */
  function UsableFrames(entries: seq<MapEntry>): seq<nat> {
    if entries == [] then [] else UsableFrames(entries[..|entries| - 1]) + entries[|entries| - 1].Frames()
  }

  /** The usable frames are those whose first byte lies in a usable entry, counted from the page the entry is in. */
  lemma {:induction false} UsableMeans(entries: seq<MapEntry>, f: nat)
    ensures f in UsableFrames(entries) <==>
            exists e | e in entries && e.usable ::
              e.base - e.base % 4096 <= 4096 * f < e.base - e.base % 4096 + e.size
    decreases |entries|
  {
    if entries != [] {
      var last := entries[|entries| - 1];
      UsableMeans(entries[..|entries| - 1], f);
      InFrames(last, f);
      assert entries == entries[..|entries| - 1] + [last];
    }
  }

  lemma InFrames(e: MapEntry, f: nat)
    ensures f in e.Frames() <==>
            e.usable && e.base - e.base % 4096 <= 4096 * f < e.base - e.base % 4096 + e.size
  {
    var first := e.base / PAGE_SIZE;
    assert e.base - e.base % 4096 == 4096 * first;
    if e.usable && first <= f < first + PagesIn(e.size) { assert e.Frames()[f - first] == f; }
  }

  lemma {:induction false} UsablePrefix(entries: seq<MapEntry>, j: nat, k: nat)
    requires j < |entries| && k <= |entries[j].Frames()|
    ensures UsableFrames(entries[..j]) + entries[j].Frames()[..k] <= UsableFrames(entries)
    decreases |entries|
  {
    var last := |entries| - 1;
    if j < last {
      UsablePrefix(entries[..last], j, k);
      assert UsableFrames(entries[..last]) <= UsableFrames(entries);
      assert entries[..last][..j] == entries[..j];
    } else {
      assert entries[last].Frames()[..k] <= entries[last].Frames();
    }
  }

  /** The next frame of entry `j` is one of the usable frames and comes for the first time. */
  lemma NextUsable(entries: seq<MapEntry>, j: nat, k: nat)
    requires j < |entries| && k < |entries[j].Frames()| && Distinct(UsableFrames(entries))
    ensures var done, f := UsableFrames(entries[..j]) + entries[j].Frames()[..k], entries[j].Frames()[k];
      && f in UsableFrames(entries) && f !in done
      && done + [f] == UsableFrames(entries[..j]) + entries[j].Frames()[..k + 1]
  {
    hide UsableFrames, MapEntry.Frames;
    UsablePrefix(entries, j, k + 1);
    var all := UsableFrames(entries);
    var done, f := UsableFrames(entries[..j]) + entries[j].Frames()[..k], entries[j].Frames()[k];
    assert entries[j].Frames()[..k + 1] == entries[j].Frames()[..k] + [f];
    assert done + [f] <= all;
    assert all[|done|] == f && forall i | 0 <= i < |done| :: done[i] == all[i];
  }

  /** `pmm::init`: the first usable frame starts the list, every other one is appended. */
  method InitFromMap(pmm: FreeList, entries: seq<MapEntry>)
    requires pmm.ram.Valid() && pmm.free == []
    requires forall e | e in entries && e.usable :: e.base % PAGE_SIZE == 0
    requires forall f | f in UsableFrames(entries) :: f in pmm.ram.frames
    requires Distinct(UsableFrames(entries))
    modifies pmm, pmm.ram
    ensures pmm.free == UsableFrames(entries) && pmm.ram.Valid() && (pmm.free != [] ==> pmm.Valid())
    ensures pmm.ram.frames.Keys == old(pmm.ram.frames).Keys
    ensures forall f | f in pmm.ram.frames && f !in pmm.free :: pmm.ram.frames[f] == old(pmm.ram.frames)[f]
    ensures LinksOnly(old(pmm.ram.frames), pmm.ram.frames, pmm.free)
  {
    hide Links, Distinct, UsableFrames, MapEntry.Frames, LinksOnly, RestKept;
    UsableNone();
    RestKeptRefl(pmm.ram.frames);
    var uninit := true;
    for j := 0 to |entries|
      invariant pmm.free == UsableFrames(entries[..j]) && pmm.ram.Valid()
      invariant (uninit <==> pmm.free == []) && (pmm.free != [] ==> pmm.Valid())
      invariant RestKept(old(pmm.ram.frames), pmm.ram.frames, pmm.free)
    {
      UsableNext(entries, j);
      if entries[j].usable {
        assert entries[j] in entries;
        for k := 0 to PagesIn(entries[j].size)
          invariant pmm.free == UsableFrames(entries[..j]) + entries[j].Frames()[..k]
          invariant pmm.ram.Valid() && (uninit <==> pmm.free == []) && (pmm.free != [] ==> pmm.Valid())
          invariant RestKept(old(pmm.ram.frames), pmm.ram.frames, pmm.free)
        {
          NextUsable(entries, j, k);
          ghost var before, was := pmm.ram.frames, pmm.free;
          RestKeptMeans(old(pmm.ram.frames), before, was);
          AddFrame(pmm, entries[j].base + pmm.ram.hhdm + PAGE_SIZE * k, uninit, entries[j].base / PAGE_SIZE + k);
          RestKeptNext(old(pmm.ram.frames), before, pmm.ram.frames, was, entries[j].base / PAGE_SIZE + k);
          uninit := false;
        }
      }
    }
    assert entries[..|entries|] == entries;
    RestKeptMeans(old(pmm.ram.frames), pmm.ram.frames, pmm.free);
  }

  /** Free frames keep all but their links, other frames everything. */
  ghost predicate RestKept(m0: Frames, m: Frames, free: seq<nat>) {
    m.Keys == m0.Keys && LinksOnly(m0, m, free) && forall f | f in m && f !in free :: m[f] == m0[f]
  }

  lemma RestKeptNext(m0: Frames, m1: Frames, m2: Frames, free: seq<nat>, f: nat)
    requires RestKept(m0, m1, free) && RestKept(m1, m2, free + [f])
    ensures RestKept(m0, m2, free + [f])
  {
    forall g, i | g in free + [f] && g in m0 && g in m2 && 2 <= i < 512
      ensures m2[g][i] == m0[g][i]
    {
      assert m1[g][i] == m0[g][i];
    }
  }

  lemma RestKeptRefl(m: Frames)
    ensures RestKept(m, m, [])
  {
  }

  lemma RestKeptMeans(m0: Frames, m: Frames, free: seq<nat>)
    requires RestKept(m0, m, free)
    ensures m.Keys == m0.Keys && LinksOnly(m0, m, free) && forall f | f in m && f !in free :: m[f] == m0[f]
  {
  }

  lemma UsableNone()
    ensures UsableFrames([]) == []
  {
  }

  lemma UsableNext(entries: seq<MapEntry>, j: nat)
    requires j < |entries|
    ensures UsableFrames(entries[..j + 1]) == UsableFrames(entries[..j]) + entries[j].Frames()
    ensures entries[j].Frames()[..0] == [] && entries[j].Frames()[..|entries[j].Frames()|] == entries[j].Frames()
    ensures |entries[j].Frames()| == if entries[j].usable then PagesIn(entries[j].size) else 0
    ensures forall k | 0 <= k < |entries[j].Frames()| :: entries[j].Frames()[k] == entries[j].base / PAGE_SIZE + k
  {
    assert entries[..j + 1][..j] == entries[..j];
  }

  /** One usable frame, at the pointer the direct map gives it. */
  method AddFrame(pmm: FreeList, ptr: nat, uninit: bool, ghost f: nat)
    requires (uninit <==> pmm.free == []) && pmm.ram.Valid() && (pmm.free != [] ==> pmm.Valid())
    requires f in pmm.ram.frames && f !in pmm.free
    requires ptr == Ptr(pmm.ram.hhdm, f)
    modifies pmm, pmm.ram
    ensures pmm.Valid() && pmm.free == old(pmm.free) + [f]
    ensures RestKept(old(pmm.ram.frames), pmm.ram.frames, old(pmm.free) + [f])
  {
    hide Links;
    FrameOfPtr(pmm.ram.hhdm, f);
    assert ptr % PAGE_SIZE == 0;
    if uninit {
      pmm.Init(ptr);
    } else {
      var ok := pmm.Push(ptr);
    }
  }

  /** A list of two adjacent frames from which two are claimed: the run ends with the last free frame. */
  method TailClaim() returns (r: ClaimResult)
    ensures r.NullWrite?
  {
    var zero: Frame := seq(512, i => 0);
    var ram := new Ram(PAGE_SIZE, map[1 := zero, 2 := zero]);
    var pmm := new FreeList(ram);
    pmm.Init(Ptr(PAGE_SIZE, 1));
    var pushed := pmm.Push(Ptr(PAGE_SIZE, 2));
    assert pmm.free == [1, 2];
    ghost var b;
    assert GoodRun(PAGE_SIZE, [1, 2], 0, 2, 1);
    r, b := pmm.ClaimContinuous(2);
    assert b + 2 <= 2;
  }
}

/** The kernel heap on values: first fit over a list of free regions, and what every run of it keeps. */
module HeapModel {
  import opened Numbers

  const USIZE := 0x1_0000_0000_0000_0000
  const ISIZE_MAX := 0x7fff_ffff_ffff_ffff
  const NODE_SIZE := 16
  const NODE_ALIGN := 8

  /** A free region: the address of its list node, which is its start, and its size. */
  datatype Region = Region(addr: nat, size: nat)
  {
    function End(): nat { addr + size }
  }

  /** A request, as Rust's `Layout` admits it: the size rounded up to the alignment fits an `isize`. */
  datatype Layout = Layout(size: nat, align: nat)
  {
    predicate Ok() { PowerOfTwo(align) && size + align - 1 <= ISIZE_MAX }
  }

  /** `align_up` in 64-bit arithmetic that wraps; `& !(align - 1)` clears the remainder for a power of two. */
  function AlignUp(addr: nat, align: nat): nat
    requires align > 0
  {
    var x := (addr + align - 1) % USIZE;
    x - x % align
  }

  /** `size_align`: `None` is the panic when the size does not fit after raising the alignment. */
  function SizeAlign(l: Layout): Option<(nat, nat)>
    requires l.Ok()
  {
    var align := if l.align < NODE_ALIGN then NODE_ALIGN else l.align;
    var up := l.size + align - 1;
    if up > ISIZE_MAX then None
    else
      var size := up - up % align;
      Some((if size < NODE_SIZE then NODE_SIZE else size, align))
  }

  /** `alloc_from_region`: where in the region the allocation would start. */
  function AllocFromRegion(r: Region, size: nat, align: nat): Option<nat>
    requires align > 0
  {
    var start := AlignUp(r.addr, align);
    var end := start + size;
    if end >= USIZE || end > r.End() then None
    else if 0 < r.End() - end < NODE_SIZE then None
    else Some(start)
  }

  /** A block handed out. */
  datatype Block = Block(addr: nat, size: nat, align: nat)
  {
    function End(): nat { addr + size }
  }

  /** The free list in list order, the blocks handed out, and the bytes lost in front of aligned blocks. */
  datatype Heap = Heap(regions: seq<Region>, live: seq<Block>, gaps: nat)

  ghost predicate Fits(rs: seq<Region>, i: nat, size: nat, align: nat)
    requires align > 0
  {
    i < |rs| && AllocFromRegion(rs[i], size, align).Some?
  }

  /** The first region that passes `alloc_from_region`. */
  function FirstFit(rs: seq<Region>, size: nat, align: nat): (i: Option<nat>)
    requires align > 0
    ensures i.Some? ==> Fits(rs, i.value, size, align) && forall j: nat | j < i.value :: !Fits(rs, j, size, align)
    ensures i.None? ==> forall j: nat :: !Fits(rs, j, size, align)
  {
    if rs == [] then None
    else if AllocFromRegion(rs[0], size, align).Some? then Some(0)
    else
      var rest := FirstFit(rs[1..], size, align);
      assert forall j: nat | 0 < j < |rs| :: Fits(rs, j, size, align) <==> Fits(rs[1..], j - 1, size, align);
      if rest.Some? then Some(rest.value + 1) else None
  }

  function Remove<T>(s: seq<T>, i: nat): seq<T>
    requires i < |s|
  {
    s[..i] + s[i + 1..]
  }

  /** `alloc` for an adjusted size and alignment. */
  function Alloc(h: Heap, size: nat, align: nat): (Heap, Option<nat>)
    requires align > 0
  {
    match FirstFit(h.regions, size, align)
    case None => (h, None)
    case Some(i) =>
      var r := h.regions[i];
      var start := AllocFromRegion(r, size, align).value;
      var excess := r.End() - (start + size);
      var rest := Remove(h.regions, i);
      (Heap(if excess > 0 then [Region(start + size, excess)] + rest else rest,
            [Block(start, size, align)] + h.live,
            h.gaps + if start > r.addr then start - r.addr else 0),
       Some(start))
  }

  /** `dealloc` of the `i`-th block handed out. */
  function Dealloc(h: Heap, i: nat): Heap
    requires i < |h.live|
  {
    var b := h.live[i];
    Heap([Region(b.addr, b.size)] + h.regions, Remove(h.live, i), h.gaps)
  }

  // ---------- alignment ----------

  lemma {:induction false} MultipleOfEight(a: nat)
    requires PowerOfTwo(a) && a >= NODE_ALIGN
    ensures a % NODE_ALIGN == 0
  {
    if a / 2 >= 8 {
      MultipleOfEight(a / 2);
    } else {
      assert PowerOfTwo(a / 2) && PowerOfTwo(a / 2 / 2);
    }
  }

  lemma RoundDown(x: nat, a: nat)
    requires a > 0
    ensures x % a <= x && (x - x % a) % a == 0 && x - x % a > x - a
    ensures x % a == 0 ==> x - x % a == x
  {
    assert x == a * (x / a) + x % a;
    MultipleOf(x / a, a);
  }

  lemma EightDivides(x: nat, a: nat)
    requires Aligned(x, a) && a % 8 == 0
    ensures x % 8 == 0
  {
    var q, c := x / a, a / 8;
    assert x == a * q && a == 8 * c;
    assert x == 8 * (c * q);
  }

  lemma NextMultiple(x: nat, a: nat)
    requires a > 0 && x % a == 0
    ensures (x + a - 1) - (x + a - 1) % a == x
  {
    var y := x + a - 1;
    assert x == a * (x / a);
    assert y == a * (y / a) + y % a;
    var d := y / a - x / a;
    assert a * d == a - 1 - y % a;
    FarMultiple(a, d);
  }

  lemma AlignUpLow(addr: nat, align: nat)
    requires 0 < align && addr + align - 1 < USIZE
    ensures AlignUp(addr, align) == addr + align - 1 - (addr + align - 1) % align
  {
    Below(addr + align - 1, USIZE);
  }

  lemma AlignUpHigh(addr: nat, align: nat)
    requires 0 < align <= ISIZE_MAX + 1 && addr < USIZE <= addr + align - 1
    ensures AlignUp(addr, align) == 0
  {
    var y := addr + align - 1 - USIZE;
    Wrapped(y);
    Below(y, align);
  }

  lemma Wrapped(y: nat)
    requires y < USIZE
    ensures (y + USIZE) % USIZE == y
  {
  }

  /** Without overflow the result is the next multiple; with overflow it is 0. */
  lemma AlignUpIs(addr: nat, align: nat)
    requires 0 < align <= ISIZE_MAX + 1 && addr < USIZE
    ensures addr + align - 1 < USIZE ==> addr <= AlignUp(addr, align) < addr + align
    ensures addr + align - 1 < USIZE ==> Aligned(AlignUp(addr, align), align)
    ensures addr + align - 1 < USIZE && Aligned(addr, align) ==> AlignUp(addr, align) == addr
    ensures addr + align - 1 >= USIZE ==> AlignUp(addr, align) == 0
  {
    hide AlignUp;
    if addr + align - 1 < USIZE {
      AlignUpLow(addr, align);
      RoundDown(addr + align - 1, align);
      if addr % align == 0 { NextMultiple(addr, align); }
    } else {
      AlignUpHigh(addr, align);
    }
  }

  /**
   * A region passes with a start inside it exactly if rounding its address up does not overflow. When it does
   * overflow, a region that passes gives address 0.
   */
  lemma StartInside(r: Region, size: nat, align: nat)
    requires 0 < r.addr < USIZE && 0 < align <= ISIZE_MAX + 1 && AllocFromRegion(r, size, align).Some?
    ensures r.addr <= AllocFromRegion(r, size, align).value <==> r.addr + align - 1 < USIZE
    ensures r.addr + align - 1 >= USIZE ==> AllocFromRegion(r, size, align).value == 0
  {
    AlignUpIs(r.addr, align);
  }

  /**
   * A request aligned to 4 GiB against a region near the top of the address space: address 0, and a region never
   * owned.
   */
  lemma OverflowExample()
    ensures var h := Heap([Region(0xffff_ffff_8000_0000, 16384)], [], 0);
      Alloc(h, 0x1_0000_0000, 0x1_0000_0000) ==
        (Heap([Region(0x1_0000_0000, 0xffff_fffe_8000_4000)], [Block(0, 0x1_0000_0000, 0x1_0000_0000)], 0), Some(0))
  {
    var rs := [Region(0xffff_ffff_8000_0000, 16384)];
    assert AlignUp(rs[0].addr, 0x1_0000_0000) == 0;
    assert FirstFit(rs, 0x1_0000_0000, 0x1_0000_0000) == Some(0);
    assert Remove(rs, 0) == [];
    var piece, k := Region(0x1_0000_0000, 0xffff_fffe_8000_4000), Block(0, 0x1_0000_0000, 0x1_0000_0000);
    assert [piece] + [] == [piece] && [k] + [] == [k];
  }

  lemma RoundedSize(size: nat, align: nat)
    requires align > 0 && align % NODE_ALIGN == 0
    ensures var up := size + align - 1; size <= up - up % align <= up && (up - up % align) % NODE_ALIGN == 0
  {
    var up := size + align - 1;
    RoundDown(up, align);
    EightDivides(up - up % align, align);
  }

  /** The adjusted request covers the original one and keeps the list's granularity. */
  lemma SizeAlignCovers(l: Layout)
    requires l.Ok() && SizeAlign(l).Some?
    ensures var (size, align) := SizeAlign(l).value;
      && size >= l.size && size >= NODE_SIZE && size % NODE_ALIGN == 0 && size <= ISIZE_MAX
      && align >= NODE_ALIGN && align % NODE_ALIGN == 0 && align <= ISIZE_MAX + 1 && align <= l.align + NODE_ALIGN
      && forall x: nat :: x % align == 0 ==> x % l.align == 0
  {
    hide PowerOfTwo;
    AlignCovers(l.align);
    RoundedSize(l.size, SizeAlign(l).value.1);
  }

  lemma AlignCovers(a: nat)
    requires PowerOfTwo(a)
    ensures var align := if a < NODE_ALIGN then NODE_ALIGN else a;
      align % NODE_ALIGN == 0 && forall x: nat :: x % align == 0 ==> x % a == 0
  {
    if a < NODE_ALIGN { SmallPower(a); } else { MultipleOfEight(a); }
  }

  lemma SmallPower(a: nat)
    requires PowerOfTwo(a) && a < NODE_ALIGN
    ensures forall x: nat :: x % NODE_ALIGN == 0 ==> x % a == 0
  {
    assert !PowerOfTwo(3) && !PowerOfTwo(5) && !PowerOfTwo(6) && !PowerOfTwo(7);
    forall x: nat | x % NODE_ALIGN == 0
      ensures x % a == 0
    {
      var q := x / NODE_ALIGN;
      assert x == 8 * q;
      if a == 4 { MultipleOf(2 * q, 4); } else if a == 2 { MultipleOf(4 * q, 2); }
    }
  }

  // ---------- the invariant ----------

  /** Two stretches of memory without a common byte. */
  ghost predicate Apart(a: nat, aEnd: nat, b: nat, bEnd: nat) {
    aEnd <= b || bEnd <= a
  }

  function Total(rs: seq<Region>): nat {
    if rs == [] then 0 else rs[0].size + Total(rs[1..])
  }

  function TotalLive(bs: seq<Block>): nat {
    if bs == [] then 0 else bs[0].size + TotalLive(bs[1..])
  }

  /** The bounds the heap was initialised with. */
  datatype Bounds = Bounds(start: nat, size: nat)
  {
    ghost predicate Ok() {
      0 < start && start % NODE_ALIGN == 0 && size >= NODE_SIZE && size % NODE_ALIGN == 0 && start + size < USIZE
    }

    function End(): nat { start + size }
  }

  /** What the asserts in `add_free_region` check, and that the region lies in the heap. */
  ghost predicate GoodRegion(r: Region, b: Bounds) {
    r.addr % NODE_ALIGN == 0 && r.size >= NODE_SIZE && r.size % NODE_ALIGN == 0 && b.start <= r.addr
      && r.End() <= b.End()
  }

  /** An adjusted request: what `size_align` gives. */
  ghost predicate GoodRequest(size: nat, align: nat) {
    size >= NODE_SIZE && size % NODE_ALIGN == 0 && align >= NODE_ALIGN && align % NODE_ALIGN == 0
      && align <= ISIZE_MAX + 1
  }

  ghost predicate GoodBlock(k: Block, b: Bounds) {
    Aligned(k.addr, k.align) && k.addr % NODE_ALIGN == 0 && GoodRequest(k.size, k.align) && b.start <= k.addr
      && k.End() <= b.End()
  }

  ghost predicate RegionApart(r: Region, rs: seq<Region>, ls: seq<Block>) {
    && (forall i | 0 <= i < |rs| :: Apart(r.addr, r.End(), rs[i].addr, rs[i].End()))
    && (forall i | 0 <= i < |ls| :: Apart(r.addr, r.End(), ls[i].addr, ls[i].End()))
  }

  ghost predicate BlockApart(k: Block, rs: seq<Region>, ls: seq<Block>) {
    RegionApart(Region(k.addr, k.size), rs, ls)
  }

  /** Free regions and blocks are well formed, inside the heap and pairwise apart. */
  ghost predicate Tidy(rs: seq<Region>, ls: seq<Block>, b: Bounds) {
    && (forall i | 0 <= i < |rs| :: GoodRegion(rs[i], b))
    && (forall i | 0 <= i < |ls| :: GoodBlock(ls[i], b))
    && (forall i, j | 0 <= i < j < |rs| :: Apart(rs[i].addr, rs[i].End(), rs[j].addr, rs[j].End()))
    && (forall i, j | 0 <= i < j < |ls| :: Apart(ls[i].addr, ls[i].End(), ls[j].addr, ls[j].End()))
    && (forall i, j | 0 <= i < |rs| && 0 <= j < |ls| :: Apart(rs[i].addr, rs[i].End(), ls[j].addr, ls[j].End()))
  }

  /** The heap is tidy and every byte is free, live or lost in a gap. */
  ghost predicate Inv(h: Heap, b: Bounds) {
    b.Ok() && Tidy(h.regions, h.live, b) && Total(h.regions) + TotalLive(h.live) + h.gaps == b.size
  }

  lemma {:induction false} TotalRemove(rs: seq<Region>, i: nat)
    requires i < |rs|
    ensures Total(Remove(rs, i)) == Total(rs) - rs[i].size
  {
    if i > 0 {
      TotalRemove(rs[1..], i - 1);
      assert Remove(rs, i)[1..] == Remove(rs[1..], i - 1);
    } else {
      assert Remove(rs, 0) == rs[1..];
    }
  }

  lemma {:induction false} TotalLiveRemove(bs: seq<Block>, i: nat)
    requires i < |bs|
    ensures TotalLive(Remove(bs, i)) == TotalLive(bs) - bs[i].size
  {
    if i > 0 {
      TotalLiveRemove(bs[1..], i - 1);
      assert Remove(bs, i)[1..] == Remove(bs[1..], i - 1);
    } else {
      assert Remove(bs, 0) == bs[1..];
    }
  }

  lemma RemoveAt<T>(s: seq<T>, i: nat)
    requires i < |s|
    ensures |Remove(s, i)| == |s| - 1
    ensures forall j | 0 <= j < |s| - 1 :: Remove(s, i)[j] == s[if j < i then j else j + 1]
  {
  }

  lemma TakeRegion(rs: seq<Region>, ls: seq<Block>, b: Bounds, i: nat)
    requires Tidy(rs, ls, b) && i < |rs|
    ensures Tidy(Remove(rs, i), ls, b) && RegionApart(rs[i], Remove(rs, i), ls)
  {
    hide GoodRegion, GoodBlock, Remove;
    RemoveAt(rs, i);
  }

  lemma TakeBlock(rs: seq<Region>, ls: seq<Block>, b: Bounds, i: nat)
    requires Tidy(rs, ls, b) && i < |ls|
    ensures Tidy(rs, Remove(ls, i), b) && BlockApart(ls[i], rs, Remove(ls, i))
  {
    hide GoodRegion, GoodBlock, Remove;
    RemoveAt(ls, i);
  }

  lemma PutRegion(rs: seq<Region>, ls: seq<Block>, b: Bounds, r: Region)
    requires Tidy(rs, ls, b) && GoodRegion(r, b) && RegionApart(r, rs, ls)
    ensures Tidy([r] + rs, ls, b)
  {
    hide GoodRegion, GoodBlock;
  }

  lemma PutBlock(rs: seq<Region>, ls: seq<Block>, b: Bounds, k: Block)
    requires Tidy(rs, ls, b) && GoodBlock(k, b) && BlockApart(k, rs, ls)
    ensures Tidy(rs, [k] + ls, b)
  {
    hide GoodRegion, GoodBlock;
  }

  /** `init`: one region, the whole heap. */
  lemma InitKeeps(b: Bounds)
    requires b.Ok()
    ensures Inv(Heap([Region(b.start, b.size)], [], 0), b)
  {
  }

  lemma EightAligned(x: nat)
    ensures Aligned(x, NODE_ALIGN) <==> x % NODE_ALIGN == 0
  {
  }

  lemma EightParts(start: nat, size: nat, addr: nat, length: nat)
    requires start % 8 == 0 && size % 8 == 0 && addr % 8 == 0 && length % 8 == 0
    ensures (start + size) % 8 == 0 && (addr + length - (start + size)) % 8 == 0
    ensures addr + length > start + size ==> addr + length - (start + size) >= 8
  {
  }

  /** The pieces a region is cut into are well formed and lie in it, one after the other. */
  lemma Pieces(r: Region, size: nat, align: nat, b: Bounds)
    requires b.Ok() && GoodRegion(r, b) && r.addr + align - 1 < USIZE && GoodRequest(size, align)
    requires AllocFromRegion(r, size, align).Some?
    ensures var start := AllocFromRegion(r, size, align).value;
      && r.addr <= start && start + size <= r.End()
      && GoodBlock(Block(start, size, align), b)
      && (start + size < r.End() ==> GoodRegion(Region(start + size, r.End() - (start + size)), b))
      && (align == NODE_ALIGN ==> start == r.addr)
  {
    hide AlignUp, Aligned;
    AlignUpIs(r.addr, align);
    var start := AlignUp(r.addr, align);
    EightDivides(start, align);
    EightParts(start, size, r.addr, r.size);
    assert align == NODE_ALIGN ==> Aligned(r.addr, align) by { EightAligned(r.addr); }
  }

  /** The region the request is served from, if any, does not round up past the address space. */
  ghost predicate Serves(h: Heap, size: nat, align: nat)
    requires align > 0
  {
    var i := FirstFit(h.regions, size, align);
    i.Some? ==> h.regions[i.value].addr + align - 1 < USIZE
  }

  lemma FirstFitGood(h: Heap, size: nat, align: nat, b: Bounds)
    requires Inv(h, b) && GoodRequest(size, align)
    ensures var i := FirstFit(h.regions, size, align);
      i.Some? ==>
        && i.value < |h.regions| && GoodRegion(h.regions[i.value], b)
        && AllocFromRegion(h.regions[i.value], size, align).Some?
        && 0 < h.regions[i.value].addr < USIZE - NODE_ALIGN
  {
    hide AllocFromRegion;
  }

  /** Alignments that end with the heap below the end of the address space are always served. */
  lemma ServesLow(h: Heap, size: nat, align: nat, b: Bounds)
    requires Inv(h, b) && GoodRequest(size, align) && (b.End() + align <= USIZE || align == NODE_ALIGN)
    ensures Serves(h, size, align)
  {
    hide AllocFromRegion, FirstFit, Inv;
    FirstFitGood(h, size, align, b);
  }

  lemma AllocTotals(rest: seq<Region>, piece: Region, k: Block, ls: seq<Block>)
    ensures Total([piece] + rest) == piece.size + Total(rest) && TotalLive([k] + ls) == k.size + TotalLive(ls)
  {
    assert ([piece] + rest)[1..] == rest && ([k] + ls)[1..] == ls;
  }

  /** Cutting a block out of region `i`, its rest going back to the front of the list. */
  lemma CutRegion(rs: seq<Region>, ls: seq<Block>, b: Bounds, i: nat, k: Block, excess: nat)
    requires Tidy(rs, ls, b) && i < |rs| && GoodBlock(k, b) && rs[i].addr <= k.addr && k.End() + excess == rs[i].End()
    requires excess > 0 ==> GoodRegion(Region(k.End(), excess), b)
    ensures var rest := Remove(rs, i); Tidy(if excess > 0 then [Region(k.End(), excess)] + rest else rest, [k] + ls, b)
  {
    hide GoodRegion, GoodBlock, Tidy, Remove;
    TakeRegion(rs, ls, b, i);
    var rest := Remove(rs, i);
    PutBlock(rest, ls, b, k);
    if excess > 0 {
      PutRegion(rest, [k] + ls, b, Region(k.End(), excess));
    }
  }

  lemma AllocAt(h: Heap, size: nat, align: nat, b: Bounds, i: nat, start: nat)
    requires Inv(h, b) && i < |h.regions| && GoodBlock(Block(start, size, align), b)
    requires h.regions[i].addr <= start && start + size <= h.regions[i].End()
    requires var excess := h.regions[i].End() - (start + size);
      excess > 0 ==> GoodRegion(Region(start + size, excess), b)
    ensures var r := h.regions[i];
      var excess := r.End() - (start + size);
      var rest := Remove(h.regions, i);
      Inv(Heap(if excess > 0 then [Region(start + size, excess)] + rest else rest, [Block(start, size, align)] + h.live,
               h.gaps + (start - r.addr)), b)
  {
    hide GoodRegion, GoodBlock, Tidy, Total, TotalLive, Remove;
    var r := h.regions[i];
    var k, excess := Block(start, size, align), r.End() - (start + size);
    TotalRemove(h.regions, i);
    AllocTotals(Remove(h.regions, i), Region(start + size, excess), k, h.live);
    CutRegion(h.regions, h.live, b, i, k, excess);
  }

  lemma AllocServed(h: Heap, size: nat, align: nat, b: Bounds)
    requires Inv(h, b) && GoodRequest(size, align) && Serves(h, size, align)
    ensures Inv(Alloc(h, size, align).0, b)
    ensures align == NODE_ALIGN ==> Alloc(h, size, align).0.gaps == h.gaps
  {
    hide AllocFromRegion, GoodRegion, GoodBlock, FirstFit, Tidy, Total, TotalLive, Remove, Fits;
    FirstFitGood(h, size, align, b);
    var i := FirstFit(h.regions, size, align);
    if i.Some? {
      var r := h.regions[i.value];
      Pieces(r, size, align, b);
      var start := AllocFromRegion(r, size, align).value;
      AllocAt(h, size, align, b, i.value, start);
    }
  }

  /** Otherwise the block handed out is at address 0, outside the heap. */
  lemma AllocOverflows(h: Heap, size: nat, align: nat, b: Bounds)
    requires Inv(h, b) && GoodRequest(size, align) && !Serves(h, size, align)
    ensures Alloc(h, size, align).1 == Some(0) && !Inv(Alloc(h, size, align).0, b)
  {
    hide AllocFromRegion, GoodRegion, FirstFit, Total, TotalLive, Remove, Fits;
    FirstFitGood(h, size, align, b);
    StartInside(h.regions[FirstFit(h.regions, size, align).value], size, align);
    assert !GoodBlock(Alloc(h, size, align).0.live[0], b);
  }

  /** `alloc` keeps the invariant exactly if it does not round up past the address space; alignment 8 loses no byte. */
  lemma AllocKeeps(h: Heap, size: nat, align: nat, b: Bounds)
    requires Inv(h, b) && GoodRequest(size, align)
    ensures Inv(Alloc(h, size, align).0, b) <==> Serves(h, size, align)
    ensures align == NODE_ALIGN ==> Serves(h, size, align) && Alloc(h, size, align).0.gaps == h.gaps
  {
    hide Inv, Serves, Alloc;
    if align == NODE_ALIGN { ServesLow(h, size, align, b); }
    if Serves(h, size, align) {
      AllocServed(h, size, align, b);
    } else {
      AllocOverflows(h, size, align, b);
    }
  }

  /** `dealloc` of a live block keeps the invariant. */
  lemma DeallocKeeps(h: Heap, i: nat, b: Bounds)
    requires Inv(h, b) && i < |h.live|
    ensures Inv(Dealloc(h, i), b) && Dealloc(h, i).gaps == h.gaps
  {
    hide GoodRequest, Aligned;
    var k := h.live[i];
    assert GoodBlock(k, b) && GoodRegion(Region(k.addr, k.size), b) by { BlockAsRegion(k, b); }
    hide GoodRegion, GoodBlock, Tidy;
    TotalLiveRemove(h.live, i);
    TakeBlock(h.regions, h.live, b, i);
    PutRegion(h.regions, Remove(h.live, i), b, Region(k.addr, k.size));
  }

  lemma BlockAsRegion(k: Block, b: Bounds)
    requires GoodBlock(k, b)
    ensures GoodRegion(Region(k.addr, k.size), b)
  {
  }

  // ---------- runs ----------

  datatype Op = AllocOp(layout: Layout) | DeallocOp(block: nat)

  /** One call: a request whose size cannot be adjusted panics and changes nothing. */
  function Step(h: Heap, op: Op): Heap
    requires op.AllocOp? ==> op.layout.Ok()
  {
    match op
    case AllocOp(l) => if SizeAlign(l).Some? then Alloc(h, SizeAlign(l).value.0, SizeAlign(l).value.1).0 else h
    case DeallocOp(i) => if i < |h.live| then Dealloc(h, i) else h
  }

  function Run(h: Heap, ops: seq<Op>): Heap
    requires forall op | op in ops && op.AllocOp? :: op.layout.Ok()
  {
    if ops == [] then h else Step(Run(h, ops[..|ops| - 1]), ops[|ops| - 1])
  }

  ghost function Start(b: Bounds): Heap { Heap([Region(b.start, b.size)], [], 0) }

  /**
   * A call that is no request, a request `size_align` refuses, or one that does not round up past the address space.
   */
  ghost predicate Served(h: Heap, op: Op)
    requires op.AllocOp? ==> op.layout.Ok()
  {
    op.AllocOp? && SizeAlign(op.layout).Some? ==> Serves(h, SizeAlign(op.layout).value.0, SizeAlign(op.layout).value.1)
  }

  lemma StepServed(h: Heap, op: Op, b: Bounds)
    requires Inv(h, b) && (op.AllocOp? ==> op.layout.Ok())
    ensures Inv(Step(h, op), b) <==> Served(h, op)
    ensures (op.AllocOp? ==> op.layout.align <= NODE_ALIGN) ==> Served(h, op) && Step(h, op).gaps == h.gaps
  {
    hide Inv, Alloc, Dealloc, Serves;
    match op {
      case AllocOp(l) =>
        if SizeAlign(l).Some? {
          SizeAlignCovers(l);
          AllocKeeps(h, SizeAlign(l).value.0, SizeAlign(l).value.1, b);
        }
      case DeallocOp(i) =>
        if i < |h.live| { DeallocKeeps(h, i, b); }
    }
  }

  /**
   * Heap safety and conservation over every run: blocks and free regions never overlap, and free, live and lost bytes
   * add up to the heap, all the way exactly if every request is served without rounding up past the address space.
   */
  lemma {:induction false} RunSafe(b: Bounds, ops: seq<Op>)
    requires b.Ok() && forall op | op in ops && op.AllocOp? :: op.layout.Ok()
    ensures (forall k | 0 <= k <= |ops| :: Inv(Run(Start(b), ops[..k]), b)) <==>
            (forall k | 0 <= k < |ops| :: Served(Run(Start(b), ops[..k]), ops[k]))
    decreases |ops|
  {
    hide Inv, Run, Served, Step;
    if ops == [] {
      InitKeeps(b);
      RunNone(Start(b));
    } else {
      var last := |ops| - 1;
      var most := ops[..last];
      RunSafe(b, most);
      assert forall k | 0 <= k <= last :: most[..k] == ops[..k];
      assert ops[..|ops|] == ops;
      if Inv(Run(Start(b), most), b) { StepServed(Run(Start(b), most), ops[last], b); }
      RunLast(Start(b), ops);
    }
  }

  /** With alignments of at most 8 every request is served, and no byte is ever lost. */
  lemma {:induction false} RunSmall(b: Bounds, ops: seq<Op>)
    requires b.Ok() && forall op | op in ops && op.AllocOp? :: op.layout.Ok() && op.layout.align <= NODE_ALIGN
    ensures Inv(Run(Start(b), ops), b) && Run(Start(b), ops).gaps == 0
    decreases |ops|
  {
    hide Inv, Step, Served;
    if ops == [] {
      InitKeeps(b);
    } else {
      RunSmall(b, ops[..|ops| - 1]);
      StepServed(Run(Start(b), ops[..|ops| - 1]), ops[|ops| - 1], b);
    }
  }

  lemma RunNone(h: Heap)
    ensures Run(h, []) == h
  {
  }

  lemma RunLast(h: Heap, ops: seq<Op>)
    requires ops != [] && forall op | op in ops && op.AllocOp? :: op.layout.Ok()
    ensures Run(h, ops) == Step(Run(h, ops[..|ops| - 1]), ops[|ops| - 1])
  {
  }

  /** The pointer `alloc` returns; the null pointer is address 0. */
  function Pointer(p: Option<nat>): nat { if p.Some? then p.value else 0 }

  // ---------- what is found, from addresses and sizes alone ----------

  /**
   * The request has room in the region, from address `x`: the first multiple of the alignment in the region, or 0 if
   * rounding up wraps, with nothing left behind the block or enough for a list node.
   */
  ghost predicate Room(r: Region, size: nat, align: nat, x: nat) {
    && (if r.addr + align <= USIZE then r.addr <= x < r.addr + align && Aligned(x, align) else x == 0)
    && (x + size == r.addr + r.size || x + size + 16 <= r.addr + r.size)
  }

  ghost predicate NoRoom(rs: seq<Region>, j: nat, size: nat, align: nat) {
    forall i, x: nat | 0 <= i < |rs| && i < j :: !Room(rs[i], size, align, x)
  }

  /** Region `i` is the first with room, and that room is at `x`. */
  ghost predicate FirstRoom(rs: seq<Region>, i: nat, size: nat, align: nat, x: nat) {
    i < |rs| && Room(rs[i], size, align, x) && NoRoom(rs, i, size, align)
  }

  /** The heap after a block at `x` is cut from region `i`; what is left behind the block goes to the front. */
  ghost predicate CutAt(a: Heap, b: Heap, i: nat, size: nat, align: nat, x: nat) {
    && i < |a.regions| && b.live == [Block(x, size, align)] + a.live
    && (if x + size < a.regions[i].End()
        then b.regions == [Region(x + size, a.regions[i].End() - (x + size))] + a.regions[..i] + a.regions[i + 1..]
        else b.regions == a.regions[..i] + a.regions[i + 1..])
    && b.gaps == a.gaps + if x > a.regions[i].addr then x - a.regions[i].addr else 0
  }

  /** First fit: the first region with room is cut at its room, or nothing happens and the pointer is null. */
  ghost predicate FirstFitted(a: Heap, b: Heap, size: nat, align: nat, ptr: nat) {
    if NoRoom(a.regions, |a.regions|, size, align) then ptr == 0 && b == a
    else exists i: nat :: FirstRoom(a.regions, i, size, align, ptr) && CutAt(a, b, i, size, align, ptr)
  }

  lemma RoomIs(r: Region, size: nat, align: nat, x: nat)
    requires 0 < r.addr && r.End() < USIZE && 0 < align <= ISIZE_MAX + 1
    ensures Room(r, size, align, x) <==> AllocFromRegion(r, size, align) == Some(x)
  {
    AlignUpIs(r.addr, align);
    var start := AlignUp(r.addr, align);
    hide AlignUp;
    if r.addr + align <= USIZE && Room(r, size, align, x) {
      if x < start { CloseRemainders(x, start, align); } else if start < x { CloseRemainders(start, x, align); }
    }
  }

  lemma NoRoomIs(rs: seq<Region>, j: nat, size: nat, align: nat)
    requires forall i | 0 <= i < |rs| :: 0 < rs[i].addr && rs[i].End() < USIZE
    requires 0 < align <= ISIZE_MAX + 1
    ensures NoRoom(rs, j, size, align) <==> forall i: nat | i < j :: !Fits(rs, i, size, align)
  {
    hide AllocFromRegion, Room;
    if NoRoom(rs, j, size, align) {
      forall i: nat | i < j
        ensures !Fits(rs, i, size, align)
      {
        if i < |rs| && AllocFromRegion(rs[i], size, align).Some? {
          RoomIs(rs[i], size, align, AllocFromRegion(rs[i], size, align).value);
        }
      }
    } else {
      var i, x: nat :| 0 <= i < |rs| && i < j && Room(rs[i], size, align, x);
      RoomIs(rs[i], size, align, x);
      assert Fits(rs, i, size, align);
    }
  }

  lemma RegionBounds(h: Heap, b: Bounds)
    requires Inv(h, b)
    ensures forall i | 0 <= i < |h.regions| :: 0 < h.regions[i].addr && h.regions[i].End() < USIZE
  {
    hide Total, TotalLive, GoodBlock;
    assert forall i | 0 <= i < |h.regions| :: GoodRegion(h.regions[i], b);
  }

  /**
   * `alloc` is first fit, and the regions with room are all it looks at: without wrapping the pointer is null exactly
   * if no region has room.
   */
  lemma AllocExact(h: Heap, size: nat, align: nat, b: Bounds)
    requires Inv(h, b) && GoodRequest(size, align)
    ensures var (h', p) := Alloc(h, size, align);
      && FirstFitted(h, h', size, align, Pointer(p))
      && (p.None? <==> NoRoom(h.regions, |h.regions|, size, align))
    ensures (forall r | r in h.regions :: r.addr + align <= USIZE) ==>
      (Pointer(Alloc(h, size, align).1) == 0 <==> NoRoom(h.regions, |h.regions|, size, align))
  {
    hide AllocFromRegion, Room, NoRoom, Inv, FirstFit;
    RegionBounds(h, b);
    NoRoomIs(h.regions, |h.regions|, size, align);
    var i, rs := FirstFit(h.regions, size, align), h.regions;
    if i.Some? {
      assert Fits(rs, i.value, size, align);
      NoRoomIs(rs, i.value, size, align);
      var x := AllocFromRegion(rs[i.value], size, align).value;
      RoomIs(rs[i.value], size, align, x);
      assert FirstRoom(rs, i.value, size, align, x);
      CutIs(h, size, align);
      if rs[i.value].addr + align <= USIZE { RoomInside(rs[i.value], size, align, x); }
    }
  }

  lemma RoomInside(r: Region, size: nat, align: nat, x: nat)
    requires Room(r, size, align, x) && r.addr + align <= USIZE
    ensures r.addr <= x
  {
  }

  lemma CutIs(h: Heap, size: nat, align: nat)
    requires align > 0 && FirstFit(h.regions, size, align).Some?
    ensures var i := FirstFit(h.regions, size, align).value;
      && i < |h.regions| && AllocFromRegion(h.regions[i], size, align).Some?
      && CutAt(h, Alloc(h, size, align).0, i, size, align, AllocFromRegion(h.regions[i], size, align).value)
  {
    hide FirstFit;
    var i := FirstFit(h.regions, size, align).value;
    assert Fits(h.regions, i, size, align);
    var r := h.regions[i];
    var end := AllocFromRegion(r, size, align).value + size;
    assert end <= r.End();
    hide AllocFromRegion;
    var piece := Region(end, r.End() - end);
    assert [piece] + (h.regions[..i] + h.regions[i + 1..]) == [piece] + h.regions[..i] + h.regions[i + 1..];
  }

  /** An exact fit is room, and so is a fit that leaves a node's length; in between there is none. */
  lemma ExactFit(start: nat, size: nat, spare: nat)
    requires 0 < start && start + size + spare < USIZE && start % 8 == 0 && size >= NODE_SIZE
    ensures var rs := [Region(start, size + spare)];
      FirstFit(rs, size, 8) == if spare == 0 || spare >= 16 then Some(0) else None
  {
    var rs := [Region(start, size + spare)];
    hide AlignUp;
    AlignUpIs(start, 8);
    assert rs[0] == Region(start, size + spare) && rs[1..] == [];
    assert AllocFromRegion(rs[0], size, 8) == if spare == 0 || spare >= 16 then Some(start) else None;
  }

  /** The request as adjusted: an alignment of at least 8, and the size rounded up to it, at least 16. */
  ghost predicate Adjusted(l: Layout, size: nat, align: nat) {
    && align == (if l.align < 8 then 8 else l.align)
    && exists up: nat :: Aligned(up, align) && l.size <= up < l.size + align && size == if up < 16 then 16 else up
  }

  /** `size_align` panics exactly if the size, rounded up to the alignment, does not fit an `isize`. */
  lemma SizeAlignExact(l: Layout)
    requires l.Ok()
    ensures SizeAlign(l).None? <==> l.size + (if l.align < 8 then 8 else l.align) - 1 > 0x7fff_ffff_ffff_ffff
    ensures SizeAlign(l).Some? ==> Adjusted(l, SizeAlign(l).value.0, SizeAlign(l).value.1)
  {
    hide PowerOfTwo;
    if SizeAlign(l).Some? {
      var align := SizeAlign(l).value.1;
      var up := l.size + align - 1;
      RoundDown(up, align);
      assert Aligned(up - up % align, align);
    }
  }

  /** What the caller of `alloc` gets: null, or a block as aligned and as long as asked that overlaps nothing else. */
  lemma AllocGives(h: Heap, l: Layout, b: Bounds)
    requires Inv(h, b) && l.Ok() && SizeAlign(l).Some?
    ensures var (size, align) := SizeAlign(l).value;
      var (h', p) := Alloc(h, size, align);
      && (p.None? <==> NoRoom(h.regions, |h.regions|, size, align))
      && FirstFitted(h, h', size, align, Pointer(p))
      && (p.Some? && Serves(h, size, align) ==>
            && h'.live == [Block(p.value, size, align)] + h.live
            && p.value % l.align == 0 && size >= l.size && b.start <= p.value && p.value + size <= b.End()
            && BlockApart(h'.live[0], h'.regions, h.live))
      && (p == Some(0) <==> !Serves(h, size, align))
      && (Pointer(p) == 0 <==> p.None? || !Serves(h, size, align))
  {
    SizeAlignCovers(l);
    var (size, align) := SizeAlign(l).value;
    hide SizeAlign, Tidy, AllocFromRegion, Serves, Total, TotalLive, BlockApart, NoRoom, FirstFitted;
    AllocExact(h, size, align, b);
    AllocKeeps(h, size, align, b);
    var (h', p) := Alloc(h, size, align);
    if !Serves(h, size, align) {
      AllocOverflows(h, size, align, b);
    } else if p.Some? {
      NewBlock(h'.regions, h.live, b, Block(p.value, size, align));
    }
  }

  lemma NewBlock(rs: seq<Region>, ls: seq<Block>, b: Bounds, k: Block)
    requires Tidy(rs, [k] + ls, b)
    ensures GoodBlock(k, b) && BlockApart(k, rs, ls)
  {
    hide GoodRegion;
    TakeBlock(rs, [k] + ls, b, 0);
    assert Remove([k] + ls, 0) == ls && ([k] + ls)[0] == k;
  }
}

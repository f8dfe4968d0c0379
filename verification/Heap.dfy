/** The kernel heap in place: list nodes written at the start of the free regions themselves. */
module Heap {
  import opened HeapModel
  import opened Numbers

  /** What is stored at the start of a free region. */
  datatype ListNode = ListNode(size: nat, next: Option<nat>)

  /** The address of region `k` of the list. */
  function AddrOf(rs: seq<Region>, k: nat): Option<nat> {
    if k < |rs| then Some(rs[k].addr) else None
  }

  ghost predicate NodeOf(nodes: map<nat, ListNode>, rs: seq<Region>, k: nat)
    requires k < |rs|
  {
    rs[k].addr in nodes && nodes[rs[k].addr] == ListNode(rs[k].size, AddrOf(rs, k + 1))
  }

  /** The nodes reached from `head` are those of the regions `rs`, in order. */
  ghost predicate Chain(nodes: map<nat, ListNode>, head: Option<nat>, rs: seq<Region>) {
    && head == AddrOf(rs, 0)
    && (forall k | 0 <= k < |rs| :: NodeOf(nodes, rs, k))
    && (forall j, k | 0 <= j < k < |rs| :: rs[j].addr != rs[k].addr)
  }

  lemma ChainPush(nodes: map<nat, ListNode>, head: Option<nat>, rs: seq<Region>, r: Region)
    requires Chain(nodes, head, rs) && forall k | 0 <= k < |rs| :: rs[k].addr != r.addr
    ensures Chain(nodes[r.addr := ListNode(r.size, head)], Some(r.addr), [r] + rs)
  {
    var nodes', rs' := nodes[r.addr := ListNode(r.size, head)], [r] + rs;
    forall k | 0 <= k < |rs'|
      ensures NodeOf(nodes', rs', k)
    {
      if k > 0 { assert NodeOf(nodes, rs, k - 1); }
    }
  }

  /** Pointing the predecessor past region `i` takes exactly that region out of the list. */
  lemma ChainUnlink(nodes: map<nat, ListNode>, head: Option<nat>, rs: seq<Region>, i: nat)
    requires Chain(nodes, head, rs) && i < |rs|
    ensures NodeOf(nodes, rs, i) && (i > 0 ==> NodeOf(nodes, rs, i - 1))
    ensures
      var cut := nodes[rs[i].addr := ListNode(rs[i].size, None)];
      var nodes' := if i == 0 then cut else cut[rs[i - 1].addr := ListNode(rs[i - 1].size, AddrOf(rs, i + 1))];
      Chain(nodes', if i == 0 then AddrOf(rs, 1) else head, Remove(rs, i))
  {
    assert NodeOf(nodes, rs, i) && (i > 0 ==> NodeOf(nodes, rs, i - 1));
    var cut := nodes[rs[i].addr := ListNode(rs[i].size, None)];
    var nodes' := if i == 0 then cut else cut[rs[i - 1].addr := ListNode(rs[i - 1].size, AddrOf(rs, i + 1))];
    var rs' := Remove(rs, i);
    forall k | 0 <= k < |rs'|
      ensures NodeOf(nodes', rs', k)
    {
      assert NodeOf(nodes, rs, if k < i then k else k + 1);
    }
  }

  /** The front region of a tidy heap starts where no other region does. */
  lemma FrontStart(r: Region, rs: seq<Region>, ls: seq<Block>, b: Bounds)
    requires Tidy([r] + rs, ls, b)
    ensures forall k | 0 <= k < |rs| :: rs[k].addr != r.addr
    ensures GoodRegion(r, b)
  {
    var all := [r] + rs;
    assert GoodRegion(all[0], b);
    forall k | 0 <= k < |rs|
      ensures rs[k].addr != r.addr
    {
      assert all[k + 1] == rs[k] && GoodRegion(all[k + 1], b);
      assert Apart(all[0].addr, all[0].End(), all[k + 1].addr, all[k + 1].End());
    }
  }

  class LinkedListAllocator {
    var nodes: map<nat, ListNode>
    var head: Option<nat>
    ghost var heap: HeapModel.Heap
    ghost var bounds: Bounds

    ghost predicate Valid()
      reads this
    {
      Chain(nodes, head, heap.regions) && Inv(heap, bounds)
    }

    /** `new` and `init`. */
    constructor (start: nat, size: nat)
      requires Bounds(start, size).Ok()
      ensures Valid() && bounds == Bounds(start, size) && heap == HeapModel.Heap([Region(start, size)], [], 0)
    {
      nodes, head := map[], None;
      bounds := Bounds(start, size);
      heap := HeapModel.Heap([Region(start, size)], [], 0);
      new;
      InitKeeps(bounds);
      ChainPush(nodes, head, [], Region(start, size));
      assert [Region(start, size)] + [] == [Region(start, size)];
      var ok := AddFreeRegion(start, size, []);
    }

    /** Puts a region in front; false is a failed assertion on alignment or size. */
    method AddFreeRegion(addr: nat, size: nat, ghost rs: seq<Region>) returns (ok: bool)
      requires Chain(nodes, head, rs) && addr < USIZE - NODE_ALIGN
      modifies this`nodes, this`head
      ensures ok <==> addr % NODE_ALIGN == 0 && size >= NODE_SIZE
      ensures ok && (forall k | 0 <= k < |rs| :: rs[k].addr != addr) ==> Chain(nodes, head, [Region(addr, size)] + rs)
      ensures !ok ==> nodes == old(nodes) && head == old(head)
    {
      EightAligned(addr);
      AlignUpIs(addr, NODE_ALIGN);
      if AlignUp(addr, NODE_ALIGN) != addr || size < NODE_SIZE {
        return false;
      }
      if forall k | 0 <= k < |rs| :: rs[k].addr != addr { ChainPush(nodes, head, rs, Region(addr, size)); }
      nodes := nodes[addr := ListNode(size, head)];
      head := Some(addr);
      ok := true;
    }

    /** Walks the list to the first region that passes `alloc_from_region` and unlinks it. */
    method FindRegion(size: nat, align: nat) returns (found: Option<(Region, nat)>)
      requires Chain(nodes, head, heap.regions) && align > 0
      modifies this`nodes, this`head
      ensures var rs := heap.regions;
        match FirstFit(rs, size, align)
        case None => found.None? && nodes == old(nodes) && head == old(head)
        case Some(i) =>
          && found == Some((rs[i], AllocFromRegion(rs[i], size, align).value))
          && Chain(nodes, head, Remove(rs, i))
    {
      hide AllocFromRegion;
      var current: Option<nat> := None;
      var next := head;
      ghost var i := 0;
      while next.Some?
        invariant nodes == old(nodes) && head == old(head) && Chain(nodes, head, heap.regions)
        invariant i <= |heap.regions| && next == AddrOf(heap.regions, i)
        invariant current == if i == 0 then None else Some(heap.regions[i - 1].addr)
        invariant forall j: nat | j < i :: !Fits(heap.regions, j, size, align)
        decreases |heap.regions| - i
      {
        assert NodeOf(nodes, heap.regions, i);
        var region := Region(next.value, nodes[next.value].size);
        var start := AllocFromRegion(region, size, align);
        if start.Some? {
          FirstFitIs(heap.regions, size, align, i);
          ChainUnlink(nodes, head, heap.regions, i);
          var after := nodes[next.value].next;
          nodes := nodes[next.value := ListNode(region.size, None)];
          if current.None? {
            head := after;
          } else {
            nodes := nodes[current.value := nodes[current.value].(next := after)];
          }
          return Some((region, start.value));
        }
        current := next;
        next := nodes[next.value].next;
        i := i + 1;
      }
      found := None;
    }

    /**
     * `alloc`: the first room there is for the adjusted request, or 0 when there is none; false is the panic in
     * `size_align`. The heap stays in order exactly if the region found does not round up past the address space.
     */
    method Alloc(layout: Layout) returns (ptr: nat, ok: bool)
      requires Valid() && layout.Ok()
      modifies this
      ensures Valid() <==> Served(old(heap), AllocOp(layout))
      ensures bounds == old(bounds) && heap == Step(old(heap), AllocOp(layout))
      ensures ok <==> SizeAlign(layout).Some?
      ensures ok <==> layout.size + (if layout.align < 8 then 8 else layout.align) - 1 <= 0x7fff_ffff_ffff_ffff
      ensures !ok ==> heap == old(heap)
      ensures ok ==> var (size, align) := SizeAlign(layout).value;
        && Adjusted(layout, size, align)
        && FirstFitted(old(heap), heap, size, align, ptr)
        && ptr == Pointer(HeapModel.Alloc(old(heap), size, align).1)
        && (ptr == 0 <==>
            NoRoom(old(heap).regions, |old(heap).regions|, size, align) || !Serves(old(heap), size, align))
    {
      hide Inv, Chain, AllocFromRegion, GoodRegion, GoodBlock, FirstFit, SizeAlign, Serves, FirstFitted, NoRoom,
        Adjusted;
      SizeAlignExact(layout);
      var adjusted := SizeAlign(layout);
      if adjusted.None? {
        return 0, false;
      }
      var (size, align) := adjusted.value;
      SizeAlignCovers(layout);
      AllocKeeps(heap, size, align, bounds);
      AllocGives(heap, layout, bounds);
      ghost var after := HeapModel.Alloc(heap, size, align).0;
      var found := FindRegion(size, align);
      if found.None? {
        return 0, true;
      }
      var (region, allocStart) := found.value;
      ghost var rest := Remove(heap.regions, FirstFit(heap.regions, size, align).value);
      var allocEnd := allocStart + size;
      var excess := region.End() - allocEnd;
      if excess > 0 {
        ExcessParts(heap, bounds, size, align);
        if Serves(heap, size, align) { AfterParts(after, bounds, Region(allocEnd, excess), rest); }
        var added := AddFreeRegion(allocEnd, excess, rest);
        assert added;
      }
      heap := after;
      return allocStart, true;
    }

    /** `dealloc` of the `i`-th live block, with a layout that adjusts to the block's size. */
    method Dealloc(ptr: nat, layout: Layout, ghost i: nat)
      requires Valid() && layout.Ok() && i < |heap.live|
      requires SizeAlign(layout).Some?
      requires heap.live[i] == Block(ptr, SizeAlign(layout).value.0, SizeAlign(layout).value.1)
      modifies this
      ensures Valid() && bounds == old(bounds) && heap == Step(old(heap), DeallocOp(i))
      ensures heap.regions == [Region(ptr, old(heap).live[i].size)] + old(heap).regions
      ensures heap.live == old(heap).live[..i] + old(heap).live[i + 1..] && heap.gaps == old(heap).gaps
    {
      hide Inv, Chain, SizeAlign;
      var (size, align) := SizeAlign(layout).value;
      DeallocKeeps(heap, i, bounds);
      ghost var after := HeapModel.Dealloc(heap, i);
      AfterParts(after, bounds, Region(ptr, size), heap.regions);
      var added := AddFreeRegion(ptr, size, heap.regions);
      assert added;
      heap := after;
    }
  }

  /** The rest of a region passes the asserts of `add_free_region`, wherever the allocation starts. */
  lemma ExcessParts(h: HeapModel.Heap, b: Bounds, size: nat, align: nat)
    requires Inv(h, b) && GoodRequest(size, align) && FirstFit(h.regions, size, align).Some?
    ensures var r := h.regions[FirstFit(h.regions, size, align).value];
      var end := AllocFromRegion(r, size, align).value + size;
      r.End() > end ==> end % NODE_ALIGN == 0 && r.End() - end >= NODE_SIZE && end < USIZE - NODE_ALIGN
  {
    hide AllocFromRegion;
    FirstFitGood(h, size, align, b);
    CutParts(h.regions[FirstFit(h.regions, size, align).value], size, align);
  }

  lemma CutParts(r: Region, size: nat, align: nat)
    requires 0 < r.addr < USIZE && r.End() < USIZE && GoodRequest(size, align) && AllocFromRegion(r, size, align).Some?
    ensures var end := AllocFromRegion(r, size, align).value + size;
      r.End() > end ==> end % NODE_ALIGN == 0 && r.End() - end >= NODE_SIZE && end < USIZE - NODE_ALIGN
  {
    hide AlignUp, Aligned;
    var start := AlignUp(r.addr, align);
    EightStart(r.addr, align);
    SumOfEights(start, size);
    assert AllocFromRegion(r, size, align) == Some(start);
  }

  lemma EightStart(addr: nat, align: nat)
    requires 0 < addr < USIZE && align % NODE_ALIGN == 0 && 0 < align <= ISIZE_MAX + 1
    ensures AlignUp(addr, align) % NODE_ALIGN == 0
  {
    hide AlignUp;
    AlignUpIs(addr, align);
    if addr + align - 1 < USIZE { EightDivides(AlignUp(addr, align), align); }
  }

  lemma SumOfEights(x: nat, y: nat)
    requires x % NODE_ALIGN == 0 && y % NODE_ALIGN == 0
    ensures (x + y) % NODE_ALIGN == 0
  {
  }

  /** The asserts of `add_free_region` hold for the region that comes back, and its node overwrites no other. */
  lemma AfterParts(h: HeapModel.Heap, b: Bounds, r: Region, rest: seq<Region>)
    requires Inv(h, b) && h.regions == [r] + rest
    ensures r.addr % NODE_ALIGN == 0 && r.size >= NODE_SIZE && r.addr < USIZE - NODE_ALIGN
    ensures forall k | 0 <= k < |rest| :: rest[k].addr != r.addr
  {
    FrontStart(r, rest, h.live, b);
  }

  lemma FirstFitIs(rs: seq<Region>, size: nat, align: nat, i: nat)
    requires align > 0 && Fits(rs, i, size, align) && forall j: nat | j < i :: !Fits(rs, j, size, align)
    ensures FirstFit(rs, size, align) == Some(i)
  {
    hide AllocFromRegion;
  }
}

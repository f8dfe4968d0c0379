/** Virtual and physical addresses: page sizes, table indices and page numbers. */
module Addresses {
  import opened Numbers
  import opened PageEntries

  const PAGE_SIZE := 4096

  /** Page table levels, by number: 1 holds 4 KiB pages, 5 is the root under Sv57. */
  type Level = l: int | 1 <= l <= 5 witness 1

  /** Bytes one entry of a table at `level` covers. */
  function PageSpan(level: Level): (s: nat)
    ensures s > 0
  {
    match level
    case 1 => 0x1000
    case 2 => 0x20_0000
    case 3 => 0x4000_0000
    case 4 => 0x80_0000_0000
    case 5 => 0x1_0000_0000_0000
  }

  /** `VirtualAddress::index`: the nine address bits that select an entry at `level`. */
  function Index(va: Word, level: Level): (i: nat)
    ensures i < 512
  {
    match level
    case 1 => va / 0x1000 % 512
    case 2 => va / 0x20_0000 % 512
    case 3 => va / 0x4000_0000 % 512
    case 4 => va / 0x80_0000_0000 % 512
    case 5 => va / 0x1_0000_0000_0000 % 512
  }

  /** `PhysicalAddress::get_ppn` */
  function PpnOf(pa: Word): (p: nat)
    ensures p < TWO_44
  {
    pa / PAGE_SIZE % TWO_44
  }

  /** The address a leaf at `level` gives: page number with the in-page bits taken from `va`. */
  function LeafAddress(ppn: nat, level: Level, va: Word): nat {
    var base := ppn * PAGE_SIZE;
    base - base % PageSpan(level) + va % PageSpan(level)
  }

  /** Page sizes grow by 512 from 4 KiB, and an index is the digit of the address above the page size. */
  lemma SpanPowers(va: Word, level: Level)
    ensures PageSpan(1) == 4096 && (level < 5 ==> PageSpan(level + 1) == 512 * PageSpan(level))
    ensures Index(va, level) == va / PageSpan(level) % 512
  {
  }

  lemma MiddleOf(span: nat, q: nat, r: nat)
    requires r < span
    ensures (span * q + r) / span == q && (span * q + r) % span == r
  {
    AddMultiple(r, q, span);
    Below(r, span);
    var x := span * q + r;
    assert x == span * (x / span) + x % span;
    assert span * (x / span - q) == 0;
    FarMultiple(span, x / span - q);
  }

  /**
   * The address a leaf gives lies in the page of the frame, of whatever size, and as far into it as `va` lies into its
   * page.
   */
  lemma LeafAddressParts(ppn: nat, level: Level, va: Word)
    ensures LeafAddress(ppn, level, va) % PageSpan(level) == va % PageSpan(level)
    ensures LeafAddress(ppn, level, va) / PageSpan(level) == ppn * 4096 / PageSpan(level)
  {
    var span, base := PageSpan(level), ppn * 4096;
    assert base == span * (base / span) + base % span;
    MiddleOf(span, base / span, va % span);
  }

  /** For the page number of a physical address that has one, the page is that of the physical address. */
  lemma LeafAddressOf(phys: Word, level: Level, va: Word)
    requires phys < 0x100_0000_0000_0000
    ensures LeafAddress(PpnOf(phys), level, va) / PageSpan(level) == phys / PageSpan(level)
    ensures LeafAddress(PpnOf(phys), level, va) % PageSpan(level) == va % PageSpan(level)
  {
    LeafAddressParts(PpnOf(phys), level, va);
    SmallPages(phys, level);
  }

  lemma SmallPages(phys: Word, level: Level)
    requires phys < 0x100_0000_0000_0000
    ensures PpnOf(phys) * 4096 / PageSpan(level) == phys / PageSpan(level)
  {
    var ppn, rest, n := phys / 4096, phys % 4096, PageSpan(level) / 4096;
    assert PpnOf(phys) == ppn && phys == 4096 * ppn + rest;
    assert PageSpan(level) == 4096 * n && n > 0;
    SmallerFirst(ppn, rest, n);
  }

  /** Cutting to 4 KiB first does not change the number of a larger page. */
  lemma SmallerFirst(ppn: nat, rest: nat, n: nat)
    requires rest < 4096 && n > 0
    ensures ppn * 4096 / (4096 * n) == (4096 * ppn + rest) / (4096 * n)
  {
    var q, r := ppn / n, ppn % n;
    var span := 4096 * n;
    assert ppn == n * q + r;
    assert ppn * 4096 == span * q + 4096 * r;
    MiddleOf(span, q, 4096 * r);
    MiddleOf(span, q, 4096 * r + rest);
  }

  /** Pages in `size` bytes. */
  function PagesIn(size: nat): (n: nat)
    ensures size <= PAGE_SIZE * n < size + PAGE_SIZE
  {
    size / PAGE_SIZE + (if size % PAGE_SIZE != 0 then 1 else 0)
  }

  /** The two addresses select the same entry in every table from the root down to `target`. */
  ghost predicate SamePage(a: Word, b: Word, top: Level, target: Level) {
    forall l: Level | target <= l <= top :: Index(a, l) == Index(b, l)
  }

  /** The part of an address that translation with `top` levels looks at above page size `target`. */
  function PageNumber(va: Word, top: Level, target: Level): nat
    requires target <= top
    decreases top - target
  {
    if target == top then Index(va, top) else Index(va, target) + 512 * PageNumber(va, top, target + 1)
  }

  lemma {:induction false} SamePageNumber(a: Word, b: Word, top: Level, target: Level)
    requires target <= top
    ensures SamePage(a, b, top, target) <==> PageNumber(a, top, target) == PageNumber(b, top, target)
    decreases top - target
  {
    if target < top {
      SamePageNumber(a, b, top, target + 1);
    }
  }

  /** How many pages of size `target` fit under the root. */
  function PageCount(top: Level, target: Level): nat
    requires target <= top
  {
    match top - target
    case 0 => 512
    case 1 => 0x4_0000
    case 2 => 0x800_0000
    case 3 => 0x10_0000_0000
    case _ => 0x2000_0000_0000
  }

  lemma SpanStep(va: Word, level: Level)
    requires level < 5
    ensures va / PageSpan(level + 1) == va / PageSpan(level) / 512
  {
  }

  lemma DigitStep(x: nat, top: Level, target: Level)
    requires target < top
    ensures x % PageCount(top, target) == x % 512 + 512 * (x / 512 % PageCount(top, target + 1))
  {
    assert PageCount(top, target) == 512 * PageCount(top, target + 1);
    LowDigit(x, PageCount(top, target + 1));
  }

  lemma LowDigit(x: nat, c: nat)
    requires c > 0
    ensures x % (512 * c) == x % 512 + 512 * (x / 512 % c)
  {
    assert x / 512 == c * (x / 512 / c) + x / 512 % c;
    SplitDigit(x / 512 / c, x / 512 % c, x % 512, c);
  }

  lemma SplitDigit(q: nat, s: nat, d: nat, c: nat)
    requires s < c && d < 512
    ensures (512 * (c * q + s) + d) % (512 * c) == 512 * s + d
  {
    var n := 512 * c;
    AddMultiple(512 * s + d, q, n);
    assert 512 * (c * q + s) + d == n * q + (512 * s + d);
    Below(512 * s + d, n);
  }

  /** Indices are digits: the page number is the address divided by the page size, less the ignored top bits. */
  lemma {:induction false} PageNumberArith(va: Word, top: Level, target: Level)
    requires target <= top
    ensures PageNumber(va, top, target) == va / PageSpan(target) % PageCount(top, target)
    decreases top - target
  {
    if target < top {
      PageNumberArith(va, top, target + 1);
      SpanStep(va, target);
      DigitStep(va / PageSpan(target), top, target);
    }
  }
}

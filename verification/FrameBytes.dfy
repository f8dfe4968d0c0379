/** Runs of frames as one stretch of bytes: what is written there and what stays. */
module FrameBytes {
  import opened PageEntries
  import opened Addresses
  import opened PhysicalMemory
  import opened Pmm

  /** The bytes of the two links at the start of a free frame. */
  const LINK_BYTES := 16

  ghost function ByteIn(m: Frames, fs: seq<nat>, i: nat): nat
    requires i < PAGE_SIZE * |fs| && forall g | g in fs :: g in m
  {
    FrameByte(m[fs[i / PAGE_SIZE]], i % PAGE_SIZE)
  }

  lemma ByteInStep(m: Frames, fs: seq<nat>, i: nat, b: Byte, j: nat)
    requires Distinct(fs) && i < PAGE_SIZE * |fs| && j < PAGE_SIZE * |fs| && forall g | g in fs :: g in m
    ensures var f := fs[i / PAGE_SIZE];
      ByteIn(m[f := PokeByte(m[f], i % PAGE_SIZE, b)], fs, j) == if j == i then b else ByteIn(m, fs, j)
  {
    hide FrameByte, PokeByte;
    var f := fs[i / PAGE_SIZE];
    PokeByteEffect(m[f], i % PAGE_SIZE, b, j % PAGE_SIZE);
    assert i == PAGE_SIZE * (i / PAGE_SIZE) + i % PAGE_SIZE && j == PAGE_SIZE * (j / PAGE_SIZE) + j % PAGE_SIZE;
  }

  /** The first `count` bytes in the frames `fs`, one after the other, are those of `bytes` from `offset`. */
  ghost predicate Holds(m: Frames, fs: seq<nat>, bytes: seq<Byte>, offset: nat, count: nat) {
    && count <= PAGE_SIZE * |fs| && (count > 0 ==> offset + count <= |bytes|) && (forall g | g in fs :: g in m)
    && forall i | 0 <= i < count :: ByteIn(m, fs, i) == bytes[offset + i]
  }

  /** From byte `from` on, the frames hold what they held in `m0`, but for the first `skip` bytes of every frame. */
  ghost predicate Kept(m0: Frames, m: Frames, fs: seq<nat>, from: nat, skip: nat) {
    && (forall g | g in fs :: g in m0 && g in m)
    && forall i | from <= i < PAGE_SIZE * |fs| && i % PAGE_SIZE >= skip :: ByteIn(m, fs, i) == ByteIn(m0, fs, i)
  }

  ghost predicate Zeroed(m: Frames, fs: seq<nat>, lo: nat, hi: nat) {
    && hi <= PAGE_SIZE * |fs| && (forall g | g in fs :: g in m)
    && forall i | lo <= i < hi :: ByteIn(m, fs, i) == 0
  }

  ghost predicate SameFrames(m0: Frames, m: Frames, fs: seq<nat>) {
    forall g | g in fs :: g in m0 && g in m && m[g] == m0[g]
  }

  lemma SameBytes(m0: Frames, m: Frames, fs: seq<nat>)
    requires SameFrames(m0, m, fs)
    ensures forall i | 0 <= i < PAGE_SIZE * |fs| :: ByteIn(m, fs, i) == ByteIn(m0, fs, i)
  {
    hide FrameByte;
    forall i | 0 <= i < PAGE_SIZE * |fs|
      ensures ByteIn(m, fs, i) == ByteIn(m0, fs, i)
    {
      assert fs[i / PAGE_SIZE] in fs;
    }
  }

  lemma HoldsSame(m0: Frames, m: Frames, fs: seq<nat>, bytes: seq<Byte>, offset: nat, count: nat)
    requires Holds(m0, fs, bytes, offset, count) && SameFrames(m0, m, fs)
    ensures Holds(m, fs, bytes, offset, count)
  {
    hide ByteIn;
    SameBytes(m0, m, fs);
  }

  lemma KeptLess(m0: Frames, m: Frames, fs: seq<nat>, from: nat)
    requires Kept(m0, m, fs, from, 0)
    ensures Kept(m0, m, fs, from, LINK_BYTES)
  {
    hide ByteIn;
  }

  lemma KeptFrames(m0: Frames, m: Frames, fs: seq<nat>, from: nat, skip: nat)
    requires Kept(m0, m, fs, from, skip)
    ensures SameFrames(m0, m0, fs) && SameFrames(m, m, fs)
  {
  }

  lemma KeptSame(m0: Frames, m1: Frames, m2: Frames, m3: Frames, fs: seq<nat>, from: nat, skip: nat)
    requires SameFrames(m0, m1, fs) && Kept(m1, m2, fs, from, skip) && SameFrames(m2, m3, fs)
    ensures Kept(m0, m3, fs, from, skip)
  {
    hide ByteIn;
    SameBytes(m0, m1, fs);
    SameBytes(m2, m3, fs);
  }

  /** What a free frame held at an earlier moment, while it was already free, is what it holds, but for its links. */
  lemma KeptSince(m0: Frames, m1: Frames, m: Frames, s: seq<nat>, fs: seq<nat>, from: nat)
    requires LinksOnly(m0, m1, s) && m0.Keys == m1.Keys && (forall g | g in fs :: g in s) && Kept(m1, m, fs, from, 0)
    ensures Kept(m0, m, fs, from, LINK_BYTES)
  {
    hide ByteOf;
    forall i | from <= i < PAGE_SIZE * |fs| && i % PAGE_SIZE >= LINK_BYTES
      ensures ByteIn(m, fs, i) == ByteIn(m0, fs, i)
    {
      var f := fs[i / PAGE_SIZE];
      assert f in fs;
      assert ByteIn(m1, fs, i) == ByteOf(m1[f][i % PAGE_SIZE / 8], i % PAGE_SIZE % 8);
      assert m1[f][i % PAGE_SIZE / 8] == m0[f][i % PAGE_SIZE / 8];
    }
  }

  /** Behind the written part a stretch is zero exactly if it was. */
  lemma ZeroedKept(m0: Frames, m: Frames, fs: seq<nat>, lo: nat, hi: nat)
    requires Kept(m0, m, fs, lo, 0) && hi <= PAGE_SIZE * |fs|
    ensures Zeroed(m, fs, lo, hi) <==> Zeroed(m0, fs, lo, hi)
  {
    hide ByteIn;
  }

  lemma {:induction false} SomeBit(x: nat, n: nat)
    requires 0 < x < Pow2(n)
    ensures exists k | 0 <= k < n :: ToBits(x, n)[k]
  {
    if x % 2 == 1 {
      assert ToBits(x, n)[0];
    } else {
      SomeBit(x / 2, n - 1);
      var k :| 0 <= k < n - 1 && ToBits(x / 2, n - 1)[k];
      assert ToBits(x, n)[k + 1];
    }
  }

  lemma {:induction false} BitCounts(bs: seq<bool>, k: nat)
    requires k < |bs| && bs[k]
    ensures FromBits(bs) > 0
  {
    if !bs[0] { BitCounts(bs[1..], k - 1); }
  }

  /** A word that is not null has a byte that is not 0. */
  lemma SomeByte(w: Word)
    requires w != 0
    ensures exists j | 0 <= j < 8 :: ByteOf(w, j) != 0
  {
    hide ToBits, FromBits, Pow2;
    Widths();
    SomeBit(w, 64);
    var bits := ToBits(w, 64);
    var k :| 0 <= k < 64 && bits[k];
    var j := k / 8;
    var part := bits[8 * j..8 * j + 8];
    assert part[k % 8] == bits[k];
    BitCounts(part, k % 8);
    assert ByteOf(w, j) != 0;
  }

  /** The bytes 8 to 15 of the first frame are those of the word `w`. */
  ghost predicate SecondWord(m: Frames, fs: seq<nat>, w: Word) {
    && fs != [] && (forall g | g in fs :: g in m)
    && forall j | 0 <= j < 8 :: ByteIn(m, fs, 8 + j) == ByteOf(w, j)
  }

  lemma SecondWordKept(m0: Frames, m: Frames, fs: seq<nat>, from: nat)
    requires Kept(m0, m, fs, from, 0) && fs != [] && from <= 8
    ensures fs[0] in m0 && SecondWord(m, fs, m0[fs[0]][1])
  {
    hide ByteOf;
    forall j | 0 <= j < 8
      ensures ByteIn(m, fs, 8 + j) == ByteOf(m0[fs[0]][1], j)
    {
      assert ByteIn(m0, fs, 8 + j) == ByteOf(m0[fs[0]][1], j);
    }
  }

  lemma SecondWordNotZero(m: Frames, fs: seq<nat>, w: Word, lo: nat, hi: nat)
    requires SecondWord(m, fs, w) && w != 0 && lo <= 8 && hi >= 16
    ensures !Zeroed(m, fs, lo, hi)
  {
    hide ByteOf, ByteIn;
    SomeByte(w);
    var j :| 0 <= j < 8 && ByteOf(w, j) != 0;
    assert ByteIn(m, fs, 8 + j) != 0;
  }
}

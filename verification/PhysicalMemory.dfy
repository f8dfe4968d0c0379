/** Physical memory as 4 KiB frames of 64-bit words, reached through the higher-half direct map. */
module PhysicalMemory {
  import opened PageEntries
  import opened Addresses
  import opened PageTables

  type Frame = f: seq<Word> | |f| == 512 witness seq(512, i => 0)
  type Frames = map<nat, Frame>

  class Ram {
    const hhdm: Word
    var frames: Frames

    /** The direct map is page aligned, is not at 0, and reaches every frame without wrapping. */
    ghost predicate Valid()
      reads this
    {
      && hhdm > 0 && hhdm % PAGE_SIZE == 0
      && forall f | f in frames :: f < TWO_44 && hhdm + PAGE_SIZE * (f + 1) < TWO_64
    }

    constructor (hhdm: Word, frames: Frames)
      requires hhdm > 0 && hhdm % PAGE_SIZE == 0
      requires forall f | f in frames :: f < TWO_44 && hhdm + PAGE_SIZE * (f + 1) < TWO_64
      ensures Valid() && this.hhdm == hhdm && this.frames == frames
    {
      this.hhdm := hhdm;
      this.frames := frames;
    }

    /** Clears the 512 words of a frame. */
    method ZeroFrame(f: nat)
      requires f in frames
      modifies this
      ensures frames == old(frames)[f := seq(512, j => 0)]
    {
      for i := 0 to 512
        invariant f in frames && frames == old(frames)[f := frames[f]]
        invariant forall j | 0 <= j < i :: frames[f][j] == 0
      {
        frames := Poke(frames, f, i, 0);
      }
      assert frames[f] == seq(512, j => 0);
    }
  }

  /** The pointer to a frame. */
  function Ptr(hhdm: Word, f: nat): nat {
    hhdm + PAGE_SIZE * f
  }

  /** The frame a pointer points into. */
  function FrameOf(hhdm: Word, p: nat): nat
    requires p >= hhdm
  {
    (p - hhdm) / PAGE_SIZE
  }

  lemma FrameOfPtr(hhdm: Word, f: nat)
    ensures FrameOf(hhdm, Ptr(hhdm, f)) == f
  {
  }

  /** Page-aligned pointers and frames correspond one to one. */
  lemma PtrOfFrame(hhdm: Word, p: nat)
    requires p >= hhdm && hhdm % PAGE_SIZE == 0 && p % PAGE_SIZE == 0
    ensures Ptr(hhdm, FrameOf(hhdm, p)) == p
  {
  }

  /** Memory after a write of one word. */
  function Poke(m: Frames, f: nat, i: nat, w: Word): (m': Frames)
    requires f in m && i < 512
  {
    m[f := m[f][i := w]]
  }

  /** The same memory with every word read as a page table entry. */
  ghost function View(m: Frames): (v: Tables)
    ensures v.Keys == m.Keys
    ensures forall f, i | f in m && 0 <= i < 512 :: v[f][i] == Decode(m[f][i])
  {
    map f | f in m :: seq(512, i requires 0 <= i < 512 => Decode(m[f][i]))
  }

  /** Writing a word is writing the entry it decodes to. */
  lemma ViewWrite(m: Frames, f: nat, i: nat, w: Word)
    requires f in m && i < 512
    ensures View(Poke(m, f, i, w)) == View(m)[f := View(m)[f][i := Decode(w)]]
  {
    var v, v' := View(Poke(m, f, i, w)), View(m)[f := View(m)[f][i := Decode(w)]];
    forall g | g in m
      ensures v[g] == v'[g]
    {
    }
  }

  lemma ViewSame(m: Frames, m': Frames, f: nat)
    requires f in m && f in m' && m[f] == m'[f]
    ensures View(m)[f] == View(m')[f]
  {
  }

  lemma ViewRow(m: Frames, m': Frames, f: nat, i: nat, w: Word)
    requires f in m && f in m' && i < 512 && m'[f] == m[f][i := w]
    ensures View(m')[f] == View(m)[f][i := Decode(w)]
  {
    hide Decode;
  }

  lemma ViewAgree(m: Frames, m': Frames, fs: set<nat>)
    requires forall f | f in fs :: f in m && f in m' && m[f] == m'[f]
    ensures forall f | f in fs :: View(m)[f] == View(m')[f]
  {
    hide View;
    forall f | f in fs
      ensures View(m)[f] == View(m')[f]
    {
      ViewSame(m, m', f);
    }
  }

  type Byte = b: int | 0 <= b < 256

  /** Byte `j` of a word, lowest first. */
  function ByteOf(w: Word, j: nat): nat
    requires j < 8
  {
    Field(ToBits(w, 64), 8 * j + 7, 8 * j)
  }

  function SetByte(w: Word, j: nat, b: Byte): (w': nat)
    requires j < 8
  {
    var bits := ToBits(w, 64);
    FromBits(bits[..8 * j] + ToBits(b, 8) + bits[8 * j + 8..])
  }

  /** Byte `j` is the digit of weight 256 to the `j`: words lie in memory lowest byte first. */
  lemma ByteDigit(w: Word, j: nat)
    requires j < 8
    ensures ByteOf(w, j) == w / Pow2(8 * j) % 256
  {
    assert Pow2(8) == 256;
    hide ToBits, FromBits, Pow2;
    FieldDigit(w, 64, 8 * j + 7, 8 * j);
  }

  lemma SetByteBits(w: Word, j: nat, b: Byte)
    requires j < 8
    ensures SetByte(w, j, b) < TWO_64
    ensures var bits := ToBits(w, 64);
      ToBits(SetByte(w, j, b), 64) == bits[..8 * j] + ToBits(b, 8) + bits[8 * j + 8..]
  {
    Widths();
    hide ToBits, Pow2;
    var bits := ToBits(w, 64);
    var bits' := bits[..8 * j] + ToBits(b, 8) + bits[8 * j + 8..];
    FromBitsBound(bits');
    ToFromBits(bits');
  }

  lemma ByteBits(b: Byte)
    ensures FromBits(ToBits(b, 8)) == b
  {
    assert Pow2(8) == 256;
    FromToBits(b, 8);
  }

  /** Storing a byte in a word: that byte is read back, the other seven stay. */
  lemma SetByteEffect(w: Word, j: nat, b: Byte, k: nat)
    requires j < 8 && k < 8
    ensures SetByte(w, j, b) < TWO_64
    ensures ByteOf(SetByte(w, j, b), k) == if k == j then b else ByteOf(w, k)
  {
    hide ToBits, FromBits, Pow2, SetByte;
    SetByteBits(w, j, b);
    ByteBits(b);
    Spliced(ToBits(w, 64), 8 * j, ToBits(b, 8), 8 * k, 8);
  }

  /** Putting other items in place of `n` leaves every stretch of `n` behind or before them. */
  lemma Spliced<T>(s: seq<T>, a: nat, new': seq<T>, b: nat, n: nat)
    requires a + n <= |s| && b + n <= |s| && |new'| == n && (b + n <= a || a + n <= b || a == b)
    ensures (s[..a] + new' + s[a + n..])[b..b + n] == if a == b then new' else s[b..b + n]
  {
    var t := s[..a] + new' + s[a + n..];
    assert |t| == |s|;
    assert forall i | 0 <= i < |s| && (i < a || a + n <= i) :: t[i] == s[i];
    assert forall i | a <= i < a + n :: t[i] == new'[i - a];
    var r := if a == b then new' else s[b..b + n];
    assert forall i | 0 <= i < n :: t[b..b + n][i] == r[i];
  }

  /** Byte `o` of a frame. */
  function FrameByte(f: Frame, o: nat): nat
    requires o < PAGE_SIZE
  {
    ByteOf(f[o / 8], o % 8)
  }

  function PokeByte(f: Frame, o: nat, b: Byte): (f': Frame)
    requires o < PAGE_SIZE
  {
    SetByteEffect(f[o / 8], o % 8, b, 0);
    f[o / 8 := SetByte(f[o / 8], o % 8, b)]
  }

  lemma PokeByteEffect(f: Frame, o: nat, b: Byte, p: nat)
    requires o < PAGE_SIZE && p < PAGE_SIZE
    ensures FrameByte(PokeByte(f, o, b), p) == if p == o then b else FrameByte(f, p)
  {
    hide ByteOf, SetByte;
    SetByteEffect(f[o / 8], o % 8, b, p % 8);
    assert p == 8 * (p / 8) + p % 8 && o == 8 * (o / 8) + o % 8;
  }
}

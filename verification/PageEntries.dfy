/** Sv39/Sv48/Sv57 page table entries: the 64-bit layout and the tests the walkers make on it. */
module PageEntries {
  import opened Numbers

  const TWO_64 := 0x1_0000_0000_0000_0000
  const TWO_44 := 0x1000_0000_0000

  /** A 64-bit machine word, as an integer. */
  type Word = w: int | 0 <= w < TWO_64

  /** The attribute bits a caller of `map` chooses: bits 1 to 5, and 61 (NC) and 62 (IO). */
  datatype PageFlags = PageFlags(read: bool, write: bool, execute: bool, user: bool, global: bool, nc: bool, io: bool)
  {
    predicate Accessible() { read || write || execute }
  }

  /** A decoded page table entry, low bit first. */
  datatype Pte = Pte(valid: bool, read: bool, write: bool, exec: bool, user: bool, global: bool,
                     accessed: bool, dirty: bool, rsw: nat, ppn: nat, reserved: nat, pbmt: nat, n: bool)
  {
    ghost predicate Fits() {
      rsw < 4 && ppn < TWO_44 && reserved < 128 && pbmt < 4
    }

    predicate IsBranch() {
      valid && !read && !write && !exec && !user && !accessed && !dirty
    }

    predicate IsLeaf() {
      valid && (read || write || exec)
    }

    /** An invalid entry that `map` can turn into a branch by writing only PPN and V. */
    ghost predicate Clean() {
      valid || (!read && !write && !exec && !user && !accessed && !dirty)
    }

    /** `entry.0 |= flags.bits()` */
    function OrFlags(f: PageFlags): Pte {
      var pb := ToBits(pbmt, 2);
      this.(read := read || f.read, write := write || f.write, exec := exec || f.execute, user := user || f.user,
            global := global || f.global, pbmt := FromBits([pb[0] || f.nc, pb[1] || f.io]))
    }
  }

  const ZERO_PTE := Pte(false, false, false, false, false, false, false, false, 0, 0, 0, 0, false)

  function Bit(b: bool): nat { if b then 1 else 0 }

  function Pow2(n: nat): (p: nat)
    ensures p > 0
  {
    if n == 0 then 1 else 2 * Pow2(n - 1)
  }

  /** The number whose bits are `bs`, lowest first. */
  function FromBits(bs: seq<bool>): nat {
    if bs == [] then 0 else Bit(bs[0]) + 2 * FromBits(bs[1..])
  }

  /** The low `n` bits of `x`, lowest first. */
  function ToBits(x: nat, n: nat): (bs: seq<bool>)
    ensures |bs| == n
  {
    if n == 0 then [] else [x % 2 == 1] + ToBits(x / 2, n - 1)
  }

  lemma {:induction false} FromBitsBound(bs: seq<bool>)
    ensures FromBits(bs) < Pow2(|bs|)
  {
    if bs != [] { FromBitsBound(bs[1..]); }
  }

  lemma {:induction false} ToFromBits(bs: seq<bool>)
    ensures ToBits(FromBits(bs), |bs|) == bs
  {
    if bs != [] {
      var rest := FromBits(bs[1..]);
      ToFromBits(bs[1..]);
      assert (Bit(bs[0]) + 2 * rest) / 2 == rest;
    }
  }

  lemma {:induction false} FromToBits(x: nat, n: nat)
    requires x < Pow2(n)
    ensures FromBits(ToBits(x, n)) == x
  {
    if n > 0 {
      FromToBits(x / 2, n - 1);
      assert ToBits(x, n)[1..] == ToBits(x / 2, n - 1);
    }
  }

  lemma Widths()
    ensures Pow2(2) == 4 && Pow2(7) == 128 && Pow2(44) == TWO_44 && Pow2(64) == TWO_64
  {
    assert Pow2(12) == 4096 && Pow2(22) == 1024 * 4096;
    assert Pow2(33) == 2048 * 1024 * 4096;
    assert Pow2(44) == TWO_44;
    assert Pow2(54) == 1024 * TWO_44;
  }

  /** The bit field `hi..lo` of a word, bounds inclusive. */
  function Field(bits: seq<bool>, hi: nat, lo: nat): nat
    requires lo <= hi < |bits|
  {
    FromBits(bits[lo..hi + 1])
  }

  function EntryBits(e: Pte): (bits: seq<bool>)
    ensures |bits| == 64
  {
    [e.valid, e.read, e.write, e.exec, e.user, e.global, e.accessed, e.dirty]
    + ToBits(e.rsw, 2) + ToBits(e.ppn, 44) + ToBits(e.reserved, 7) + ToBits(e.pbmt, 2) + [e.n]
  }

  function BitsEntry(bits: seq<bool>): Pte
    requires |bits| == 64
  {
    Pte(bits[0], bits[1], bits[2], bits[3], bits[4], bits[5], bits[6], bits[7], Field(bits, 9, 8),
        Field(bits, 53, 10), Field(bits, 60, 54), Field(bits, 62, 61), bits[63])
  }

  function Encode(e: Pte): nat {
    FromBits(EntryBits(e))
  }

  function Decode(w: Word): (e: Pte) {
    BitsEntry(ToBits(w, 64))
  }

  /** Cutting a concatenation at its seams. */
  lemma Seams<T>(a: seq<T>, b: seq<T>, c: seq<T>, d: seq<T>, e: seq<T>, f: seq<T>)
    ensures var s, i := a + b + c + d + e + f, |a|;
      var j := i + |b|; var k := j + |c|; var l := k + |d|; var m := l + |e|;
      s[..i] == a && s[i..j] == b && s[j..k] == c && s[k..l] == d && s[l..m] == e && s[m..] == f
  {
  }

  lemma Rejoin<T>(s: seq<T>, i: nat, j: nat, k: nat, l: nat, m: nat)
    requires i <= j <= k <= l <= m <= |s|
    ensures s == s[..i] + s[i..j] + s[j..k] + s[k..l] + s[l..m] + s[m..]
  {
  }

  lemma BitsOfFields(e: Pte)
    requires e.Fits()
    ensures BitsEntry(EntryBits(e)) == e
  {
    Widths();
    var bits := EntryBits(e);
    var flags := [e.valid, e.read, e.write, e.exec, e.user, e.global, e.accessed, e.dirty];
    Seams(flags, ToBits(e.rsw, 2), ToBits(e.ppn, 44), ToBits(e.reserved, 7), ToBits(e.pbmt, 2), [e.n]);
    assert bits[..8] == flags && bits[63..] == [e.n];
    assert flags == bits[..8] && forall k | 0 <= k < 8 :: bits[k] == flags[k];
    FromToBits(e.rsw, 2);
    FromToBits(e.ppn, 44);
    FromToBits(e.reserved, 7);
    FromToBits(e.pbmt, 2);
  }

  lemma FieldBits(bits: seq<bool>, hi: nat, lo: nat)
    requires lo <= hi < |bits|
    ensures Field(bits, hi, lo) < Pow2(hi + 1 - lo)
    ensures ToBits(Field(bits, hi, lo), hi + 1 - lo) == bits[lo..hi + 1]
  {
    FromBitsBound(bits[lo..hi + 1]);
    ToFromBits(bits[lo..hi + 1]);
  }

  lemma Assemble(bits: seq<bool>, r: seq<bool>, p: seq<bool>, v: seq<bool>, b: seq<bool>)
    requires |bits| == 64
    requires r == bits[8..10] && p == bits[10..54] && v == bits[54..61] && b == bits[61..63]
    ensures [bits[0], bits[1], bits[2], bits[3], bits[4], bits[5], bits[6], bits[7]] + r + p + v + b + [bits[63]] ==
            bits
  {
    Rejoin(bits, 8, 10, 54, 61, 63);
    assert bits[63..] == [bits[63]];
    assert bits[..8] == [bits[0], bits[1], bits[2], bits[3], bits[4], bits[5], bits[6], bits[7]];
  }

  lemma FieldsOfBits(bits: seq<bool>)
    requires |bits| == 64
    ensures BitsEntry(bits).Fits() && EntryBits(BitsEntry(bits)) == bits
  {
    hide ToBits, FromBits, Pow2, Field;
    Widths();
    FieldBits(bits, 9, 8);
    FieldBits(bits, 53, 10);
    FieldBits(bits, 60, 54);
    FieldBits(bits, 62, 61);
    var e := BitsEntry(bits);
    Assemble(bits, ToBits(e.rsw, 2), ToBits(e.ppn, 44), ToBits(e.reserved, 7), ToBits(e.pbmt, 2));
  }

  /** Every entry whose fields fit is one 64-bit word, and decoding that word gives all fields back. */
  lemma DecodeEncode(e: Pte)
    requires e.Fits()
    ensures Encode(e) < TWO_64 && Decode(Encode(e)) == e
  {
    Widths();
    FromBitsBound(EntryBits(e));
    ToFromBits(EntryBits(e));
    BitsOfFields(e);
  }

  /** Decoding loses no bit: encoding the fields of a word gives the word. */
  lemma EncodeDecode(w: Word)
    ensures Decode(w).Fits() && Encode(Decode(w)) == w
  {
    Widths();
    FieldsOfBits(ToBits(w, 64));
    FromToBits(w, 64);
  }

  lemma {:induction false} FromBitsConcat(a: seq<bool>, b: seq<bool>)
    ensures FromBits(a + b) == FromBits(a) + Pow2(|a|) * FromBits(b)
  {
    if a == [] {
      assert a + b == b;
    } else {
      FromBitsConcat(a[1..], b);
      assert (a + b)[1..] == a[1..] + b;
      TwiceProduct(Pow2(|a| - 1), FromBits(b));
    }
  }

  lemma TwiceProduct(p: nat, x: nat)
    ensures 2 * (p * x) == 2 * p * x
  {
  }

  lemma {:induction false} OneMoreBit(a: bool, bs: seq<bool>)
    ensures FromBits([a] + bs) == Bit(a) + 2 * FromBits(bs)
  {
    assert ([a] + bs)[1..] == bs;
  }

  lemma FourBits(a: bool, b: bool, c: bool, d: bool)
    ensures FromBits([a, b, c, d]) == Bit(a) + 2 * Bit(b) + 4 * Bit(c) + 8 * Bit(d)
  {
    assert FromBits([]) == 0;
    hide FromBits;
    OneMoreBit(d, []);
    OneMoreBit(c, [d]);
    OneMoreBit(b, [c, d]);
    OneMoreBit(a, [b, c, d]);
    assert [d] + [] == [d] && [c] + [d] == [c, d] && [b] + [c, d] == [b, c, d];
    assert [a] + [b, c, d] == [a, b, c, d];
  }

  lemma Nested<T>(a: seq<T>, b: seq<T>, c: seq<T>, d: seq<T>, e: seq<T>, f: seq<T>, g: seq<T>)
    ensures (a + b) + c + d + e + f + g == a + (b + (c + (d + (e + (f + g)))))
  {
  }

  lemma OnTop(a: seq<bool>, b: seq<bool>, p: nat)
    requires Pow2(|a|) == p
    ensures FromBits(a + b) == FromBits(a) + p * FromBits(b)
  {
    FromBitsConcat(a, b);
  }

  /** The number of seven fields in a row. */
  lemma FieldSum(low: seq<bool>, high: seq<bool>, r: seq<bool>, p: seq<bool>, v: seq<bool>, b: seq<bool>, n: seq<bool>)
    requires |low| == 4 && |high| == 4 && |r| == 2 && |p| == 44 && |v| == 7 && |b| == 2
    ensures FromBits(low + high + r + p + v + b + n) ==
      FromBits(low) + 0x10 * FromBits(high) + 0x100 * FromBits(r) + 0x400 * FromBits(p)
      + 0x40_0000_0000_0000 * FromBits(v) + 0x2000_0000_0000_0000 * FromBits(b) + 0x8000_0000_0000_0000 * FromBits(n)
  {
    Widths();
    assert Pow2(4) == 16;
    hide FromBits, Pow2;
    OnTop(b, n, 4);
    OnTop(v, b + n, 128);
    OnTop(p, v + (b + n), TWO_44);
    OnTop(r, p + (v + (b + n)), 4);
    OnTop(high, r + (p + (v + (b + n))), 16);
    OnTop(low, high + (r + (p + (v + (b + n)))), 16);
    Nested(low, high, r, p, v, b, n);
    Weights(FromBits(low), FromBits(high), FromBits(r), FromBits(p), FromBits(v), FromBits(b), FromBits(n));
  }

  lemma Weights(low: nat, high: nat, r: nat, p: nat, v: nat, b: nat, n: nat)
    ensures low + 16 * (high + 16 * (r + 4 * (p + TWO_44 * (v + 128 * (b + 4 * n))))) ==
      low + 0x10 * high + 0x100 * r + 0x400 * p + 0x40_0000_0000_0000 * v + 0x2000_0000_0000_0000 * b
      + 0x8000_0000_0000_0000 * n
  {
  }

  lemma EntrySum(e: Pte)
    ensures Encode(e) ==
      FromBits([e.valid, e.read, e.write, e.exec]) + 0x10 * FromBits([e.user, e.global, e.accessed, e.dirty])
      + 0x100 * FromBits(ToBits(e.rsw, 2)) + 0x400 * FromBits(ToBits(e.ppn, 44))
      + 0x40_0000_0000_0000 * FromBits(ToBits(e.reserved, 7))
      + 0x2000_0000_0000_0000 * FromBits(ToBits(e.pbmt, 2)) + 0x8000_0000_0000_0000 * FromBits([e.n])
  {
    hide ToBits, FromBits;
    var low, high := [e.valid, e.read, e.write, e.exec], [e.user, e.global, e.accessed, e.dirty];
    assert low + high == [e.valid, e.read, e.write, e.exec, e.user, e.global, e.accessed, e.dirty];
    FieldSum(low, high, ToBits(e.rsw, 2), ToBits(e.ppn, 44), ToBits(e.reserved, 7), ToBits(e.pbmt, 2), [e.n]);
  }

  /** The word of an entry as a number: which field has which weight. */
  lemma EntryNumber(e: Pte)
    requires e.Fits()
    ensures Encode(e) ==
      Bit(e.valid) + 2 * Bit(e.read) + 4 * Bit(e.write) + 8 * Bit(e.exec) + 16 * Bit(e.user) + 32 * Bit(e.global)
      + 64 * Bit(e.accessed) + 128 * Bit(e.dirty) + 0x100 * e.rsw + 0x400 * e.ppn + 0x40_0000_0000_0000 * e.reserved
      + 0x2000_0000_0000_0000 * e.pbmt + 0x8000_0000_0000_0000 * Bit(e.n)
  {
    hide *;
    FieldNumbers(e);
    EntrySum(e);
    LowByte(e);
    LastBit(e.n);
  }

  lemma LowByte(e: Pte)
    ensures FromBits([e.valid, e.read, e.write, e.exec]) + 0x10 * FromBits([e.user, e.global, e.accessed, e.dirty]) ==
      Bit(e.valid) + 2 * Bit(e.read) + 4 * Bit(e.write) + 8 * Bit(e.exec) + 16 * Bit(e.user) + 32 * Bit(e.global)
      + 64 * Bit(e.accessed) + 128 * Bit(e.dirty)
  {
    FourBits(e.valid, e.read, e.write, e.exec);
    FourBits(e.user, e.global, e.accessed, e.dirty);
  }

  lemma FieldNumbers(e: Pte)
    requires e.Fits()
    ensures FromBits(ToBits(e.rsw, 2)) == e.rsw && FromBits(ToBits(e.ppn, 44)) == e.ppn
    ensures FromBits(ToBits(e.reserved, 7)) == e.reserved && FromBits(ToBits(e.pbmt, 2)) == e.pbmt
  {
    Widths();
    FromToBits(e.rsw, 2);
    FromToBits(e.ppn, 44);
    FromToBits(e.reserved, 7);
    FromToBits(e.pbmt, 2);
  }

  lemma LastBit(b: bool)
    ensures FromBits([b]) == Bit(b)
  {
    assert [b][1..] == [];
  }

  lemma {:induction false} BitAt(x: nat, n: nat, k: nat)
    requires k < n
    ensures ToBits(x, n)[k] <==> x / Pow2(k) % 2 == 1
  {
    if k > 0 {
      BitAt(x / 2, n - 1, k - 1);
      HalfThen(x, Pow2(k - 1));
    }
  }

  lemma HalfThen(x: nat, p: nat)
    requires p > 0
    ensures x / 2 / p == x / (2 * p)
  {
    var q, r := x / (2 * p), x % (2 * p);
    assert x == 2 * p * q + r;
    assert 2 * p * q == 2 * (p * q);
    assert x / 2 == p * q + r / 2;
    Quotient(p, q, r / 2);
  }

  lemma Quotient(p: nat, q: nat, r: nat)
    requires r < p
    ensures (p * q + r) / p == q
  {
    var x := p * q + r;
    assert x == p * (x / p) + x % p;
    assert p * (x / p - q) == r - x % p;
    FarMultiple(p, x / p - q);
  }

  lemma MiddleField(low: nat, p: nat, high: nat)
    requires low < 0x400 && p < TWO_44
    ensures (low + 0x400 * p + 0x40_0000_0000_0000 * high) / 0x400 % TWO_44 == p
  {
    assert low + 0x400 * p + 0x40_0000_0000_0000 * high == 0x400 * (p + TWO_44 * high) + low;
    AddMultiple(p, high, TWO_44);
  }

  lemma LowPowers()
    ensures Pow2(0) == 1 && Pow2(1) == 2 && Pow2(2) == 4 && Pow2(3) == 8 && Pow2(4) == 16 && Pow2(5) == 32
    ensures Pow2(6) == 64 && Pow2(7) == 128
  {
  }

  /** The fields of a word as numbers: which bits `Decode` looks at. */
  lemma DecodedBits(w: Word)
    ensures var e := Decode(w);
      && (e.valid <==> w % 2 == 1) && (e.read <==> w / 2 % 2 == 1) && (e.write <==> w / 4 % 2 == 1)
      && (e.exec <==> w / 8 % 2 == 1) && (e.user <==> w / 16 % 2 == 1) && (e.global <==> w / 32 % 2 == 1)
      && (e.accessed <==> w / 64 % 2 == 1) && (e.dirty <==> w / 128 % 2 == 1)
      && e.ppn == w / 0x400 % TWO_44
  {
    hide ToBits, FromBits, Pow2, Field, Encode, Pte.Fits, EntryBits;
    LowPowers();
    BitAt(w, 64, 0);
    BitAt(w, 64, 1);
    BitAt(w, 64, 2);
    BitAt(w, 64, 3);
    BitAt(w, 64, 4);
    BitAt(w, 64, 5);
    BitAt(w, 64, 6);
    BitAt(w, 64, 7);
    DecodedPpn(w);
  }

  /** Which words are branches and which are leaves. */
  lemma WordKinds(w: Word)
    ensures Decode(w).IsLeaf() <==> w % 2 == 1 && (w / 2 % 2 == 1 || w / 4 % 2 == 1 || w / 8 % 2 == 1)
    ensures Decode(w).IsBranch() <==>
      && w % 2 == 1 && w / 2 % 2 == 0 && w / 4 % 2 == 0 && w / 8 % 2 == 0 && w / 16 % 2 == 0
      && w / 64 % 2 == 0 && w / 128 % 2 == 0
  {
    DecodedBits(w);
    hide Decode;
  }

  lemma DecodedPpn(w: Word)
    ensures Decode(w).ppn == w / 0x400 % TWO_44
  {
    hide Decode, Encode;
    EncodeDecode(w);
    var e := Decode(w);
    EntryNumber(e);
    var low := Bit(e.valid) + 2 * Bit(e.read) + 4 * Bit(e.write) + 8 * Bit(e.exec) + 16 * Bit(e.user)
      + 32 * Bit(e.global) + 64 * Bit(e.accessed) + 128 * Bit(e.dirty) + 0x100 * e.rsw;
    var high := e.reserved + 128 * e.pbmt + 512 * Bit(e.n);
    MiddleField(low, e.ppn, high);
  }

  /**
   * The word `map` writes for the frame of `phys`, as a number and bit by bit: V, then R, W, X, U and G as the flags
   * say, the page number from bit 10, and the two memory types at bits 61 and 62; every other bit is clear.
   */
  ghost predicate MapWord(w: Word, phys: Word, f: PageFlags) {
    && w == 1 + 2 * Bit(f.read) + 4 * Bit(f.write) + 8 * Bit(f.execute) + 16 * Bit(f.user) + 32 * Bit(f.global)
         + 0x400 * (phys / 4096 % 0x1000_0000_0000) + 0x2000_0000_0000_0000 * Bit(f.nc)
         + 0x4000_0000_0000_0000 * Bit(f.io)
    && var bits := ToBits(w, 64);
    && bits[0] && bits[1] == f.read && bits[2] == f.write && bits[3] == f.execute && bits[4] == f.user
    && bits[5] == f.global && (forall k | 6 <= k < 10 :: !bits[k])
    && bits[10..54] == ToBits(phys / 4096 % 0x1000_0000_0000, 44)
    && (forall k | 54 <= k < 61 :: !bits[k]) && bits[61] == f.nc && bits[62] == f.io && !bits[63]
  }

  lemma {:induction false} ZeroBits(n: nat)
    ensures forall k | 0 <= k < n :: !ToBits(0, n)[k]
  {
    if n > 0 { ZeroBits(n - 1); }
  }

  lemma {:induction false} FromZeroBits(bs: seq<bool>)
    requires forall k | 0 <= k < |bs| :: !bs[k]
    ensures FromBits(bs) == 0
  {
    if bs != [] { FromZeroBits(bs[1..]); }
  }

  /** A zero word is the empty entry. */
  lemma DecodeZero()
    ensures Decode(0) == ZERO_PTE
  {
    var bits := ToBits(0, 64);
    ZeroBits(64);
    FromZeroBits(bits[8..10]);
    FromZeroBits(bits[10..54]);
    FromZeroBits(bits[54..61]);
    FromZeroBits(bits[61..63]);
  }

  lemma {:induction false} LowBits(x: nat, n: nat, k: nat)
    requires k <= n && x % Pow2(k) == 0
    ensures forall j | 0 <= j < k :: !ToBits(x, n)[j]
  {
    if k > 0 {
      var p := Pow2(k - 1);
      var q := x / (2 * p);
      assert x == 2 * (p * q);
      assert x / 2 % p == 0 by { MultipleOf(q, p); }
      LowBits(x / 2, n - 1, k - 1);
    }
  }

  /** The low `m` bits are the remainder. */
  lemma {:induction false} LowField(x: nat, n: nat, m: nat)
    requires m <= n
    ensures FromBits(ToBits(x, n)[..m]) == x % Pow2(m)
  {
    if m > 0 {
      LowField(x / 2, n - 1, m - 1);
      assert ToBits(x, n)[..m] == [x % 2 == 1] + ToBits(x / 2, n - 1)[..m - 1];
      OneMoreBit(x % 2 == 1, ToBits(x / 2, n - 1)[..m - 1]);
      TwiceRemainder(x, Pow2(m - 1));
    }
  }

  lemma TwiceRemainder(x: nat, p: nat)
    requires p > 0
    ensures x % (2 * p) == x % 2 + 2 * (x / 2 % p)
  {
    var h := x / 2;
    assert h == p * (h / p) + h % p;
    var r := x % 2 + 2 * (h % p);
    assert x == 2 * p * (h / p) + r;
    AddMultiple(r, h / p, 2 * p);
    Below(r, 2 * p);
  }

  /** A bit field is the digit of the number between its bounds. */
  lemma {:induction false} FieldDigit(x: nat, n: nat, hi: nat, lo: nat)
    requires lo <= hi < n
    ensures Field(ToBits(x, n), hi, lo) == x / Pow2(lo) % Pow2(hi + 1 - lo)
  {
    if lo == 0 {
      LowField(x, n, hi + 1);
      assert ToBits(x, n)[0..hi + 1] == ToBits(x, n)[..hi + 1];
    } else {
      FieldDigit(x / 2, n - 1, hi - 1, lo - 1);
      HalfThen(x, Pow2(lo - 1));
      assert ToBits(x, n)[lo..hi + 1] == ToBits(x / 2, n - 1)[lo - 1..hi];
    }
  }

  /** A power of two is a number with a single bit. */
  lemma {:induction false} PowersOfTwo(n: nat)
    ensures PowerOfTwo(n) <==> exists k: nat :: n == Pow2(k)
  {
    if n == 1 {
      assert Pow2(0) == 1;
    } else if n > 1 {
      PowersOfTwo(n / 2);
      if PowerOfTwo(n) {
        var k: nat :| n / 2 == Pow2(k);
        assert n == Pow2(k + 1);
      }
      if k: nat :| n == Pow2(k) {
        assert n / 2 == Pow2(k - 1);
      }
    }
  }

  /** A page-aligned pointer, read as an entry, is an invalid one that `map` can turn into a branch. */
  lemma PointerIsClean(w: Word)
    requires w % 4096 == 0
    ensures !Decode(w).valid && Decode(w).Clean()
  {
    assert Pow2(12) == 4096;
    LowBits(w, 64, 12);
  }
}

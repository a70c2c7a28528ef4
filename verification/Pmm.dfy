/** The bits of the buddy bitmaps as they lie in memory: seven bitmaps of bytes, one behind the other. */
module BitStore {
  import opened Buddy

  function Shift(k: nat): bv8
    requires k < 8
  {
    k as bv8
  }

  predicate BitOf(b: bv8, k: nat)
    requires k < 8
  {
    (b >> Shift(k)) & 1 == 1
  }

  /** A byte with one bit set or cleared through a mask. */
  function ByteWith(b: bv8, k: nat, v: bool): bv8
    requires k < 8
  {
    if v then b | (1 << Shift(k)) else b & !(1 << Shift(k))
  }

  lemma ShiftDistinct(k: nat, j: nat)
    requires k < 8 && j < 8
    ensures Shift(k) < 8 && (Shift(k) == Shift(j) ==> k == j)
  {
  }

  lemma MaskBits(b: bv8, k: bv8, j: bv8)
    requires k < 8 && j < 8
    ensures (((b | (1 << k)) >> j) & 1 == 1) == (j == k || ((b >> j) & 1 == 1))
    ensures (((b & !(1 << k)) >> j) & 1 == 1) == (j != k && ((b >> j) & 1 == 1))
  {
  }

  lemma ByteWithOne(b: bv8, k: nat, j: nat)
    requires k < 8 && j < 8
    ensures BitOf(b | (1 << Shift(k)), j) == (j == k || BitOf(b, j))
  {
    ShiftDistinct(k, j);
    ShiftDistinct(j, k);
    MaskBits(b, Shift(k), Shift(j));
  }

  lemma ByteWithZero(b: bv8, k: nat, j: nat)
    requires k < 8 && j < 8
    ensures BitOf(b & !(1 << Shift(k)), j) == (j != k && BitOf(b, j))
  {
    ShiftDistinct(k, j);
    ShiftDistinct(j, k);
    MaskBits(b, Shift(k), Shift(j));
  }

  lemma ByteWithBit(b: bv8, k: nat, v: bool, j: nat)
    requires k < 8 && j < 8
    ensures BitOf(ByteWith(b, k, v), j) == if j == k then v else BitOf(b, j)
  {
    if v {
      ByteWithOne(b, k, j);
    } else {
      ByteWithZero(b, k, j);
    }
  }

  lemma OnesMask(j: bv8)
    requires j < 8
    ensures ((0xFF as bv8) >> j) & 1 == 1
  {
  }

  lemma OnesByte(j: nat)
    requires j < 8
    ensures BitOf(0xFF, j)
  {
    ShiftDistinct(j, j);
    OnesMask(Shift(j));
  }

  /** The size in bytes of the bitmap of level l: half that of the level below, rounded down. */
  function SizeAt(size: nat, l: nat): nat {
    if l == 0 then size else SizeAt(size, l - 1) / 2
  }

  /** Where the bitmap of level l begins: right behind the one below it. */
  function BaseAt(size: nat, l: nat): nat {
    if l == 0 then 0 else BaseAt(size, l - 1) + SizeAt(size, l - 1)
  }

  lemma {:induction false} BaseOrder(size: nat, l: nat, k: nat)
    requires l < k
    ensures BaseAt(size, l) + SizeAt(size, l) <= BaseAt(size, k)
  {
    if k > l + 1 {
      BaseOrder(size, l, k - 1);
    }
  }

  /** Byte and bit number of the bit (l, j). */
  function ByteOf(size: nat, l: nat, j: nat): nat {
    BaseAt(size, l) + j / 8
  }

  /** The stored bytes hold the rows g. */
  ghost predicate Stored(st: seq<bv8>, size: nat, g: Bits) {
    && |g| == LEVELS && |st| == BaseAt(size, LEVELS)
    && (forall l {:trigger g[l]} :: 0 <= l < LEVELS ==> |g[l]| == 8 * SizeAt(size, l))
    && (forall l: nat, j: nat {:trigger Holds(st, size, g, l, j)} :: l < LEVELS && j < |g[l]| ==>
        Holds(st, size, g, l, j))
  }

  ghost predicate Holds(st: seq<bv8>, size: nat, g: Bits, l: nat, j: nat)
    requires l < |g| && j < |g[l]|
  {
    ByteOf(size, l, j) < |st| && g[l][j] == BitOf(st[ByteOf(size, l, j)], j % 8)
  }

  lemma ByteInStore(st: seq<bv8>, size: nat, g: Bits, l: nat, j: nat)
    requires Stored(st, size, g) && l < LEVELS && j < |g[l]|
    ensures ByteOf(size, l, j) < |st|
  {
    BaseOrder(size, l, LEVELS);
  }

  /** Different bits lie in different bytes, or at different places of one byte. */
  lemma BitsApart(size: nat, l: nat, j: nat, k: nat, q: nat)
    requires j < 8 * SizeAt(size, l) && q < 8 * SizeAt(size, k)
    requires ByteOf(size, l, j) == ByteOf(size, k, q) && j % 8 == q % 8
    ensures l == k && j == q
  {
    if l < k {
      BaseOrder(size, l, k);
    } else if k < l {
      BaseOrder(size, k, l);
    }
  }

  lemma StoreBit(st: seq<bv8>, size: nat, g: Bits, l: nat, j: nat, v: bool)
    requires Stored(st, size, g) && l < LEVELS && j < |g[l]|
    ensures ByteOf(size, l, j) < |st|
    ensures Stored(st[ByteOf(size, l, j) := ByteWith(st[ByteOf(size, l, j)], j % 8, v)], size, WithBit(g, l, j, v))
  {
    ByteInStore(st, size, g, l, j);
    var a := ByteOf(size, l, j);
    var st', g' := st[a := ByteWith(st[a], j % 8, v)], WithBit(g, l, j, v);
    forall k: nat, q: nat | k < LEVELS && q < |g'[k]|
      ensures Holds(st', size, g', k, q)
    {
      StoredBit(st, size, g, l, j, v, k, q);
    }
  }

  lemma StoredBit(st: seq<bv8>, size: nat, g: Bits, l: nat, j: nat, v: bool, k: nat, q: nat)
    requires Stored(st, size, g) && l < LEVELS && j < |g[l]| && k < LEVELS && q < |g[k]|
    ensures ByteOf(size, l, j) < |st|
    ensures Holds(st[ByteOf(size, l, j) := ByteWith(st[ByteOf(size, l, j)], j % 8, v)], size, WithBit(g, l, j, v), k, q)
  {
    ByteInStore(st, size, g, l, j);
    assert Holds(st, size, g, k, q);
    var a := ByteOf(size, l, j);
    if ByteOf(size, k, q) == a {
      ByteWithBit(st[a], j % 8, v, q % 8);
      if q % 8 == j % 8 {
        BitsApart(size, l, j, k, q);
      }
    }
  }
}

/** The level computation of pmalloc: the least level whose blocks hold n pages, by clearing low bits. */
module PageLevel {
  import opened Machine
  import opened Buddy

  /** Bitwise and. */
  function And(x: nat, y: nat): nat
    decreases x
  {
    if x == 0 || y == 0 then 0 else (if x % 2 == 1 && y % 2 == 1 then 1 else 0) + 2 * And(x / 2, y / 2)
  }

  /** x - 1 in size_t arithmetic. */
  function Pred(x: nat): nat {
    if x == 0 then TWO64 - 1 else x - 1
  }

  /** The greatest power of two that is at most x. */
  function HighBit(x: nat): nat {
    if x <= 1 then x else 2 * HighBit(x / 2)
  }

  lemma {:induction false} AndSelf(x: nat)
    ensures And(x, x) == x
  {
    if x != 0 {
      AndSelf(x / 2);
    }
  }

  /** Clearing the lowest bit keeps the highest one, unless they are the same. */
  lemma {:induction false} AndPred(x: nat)
    requires x > 0
    ensures And(x, x - 1) < x
    ensures And(x, x - 1) == 0 <==> x == HighBit(x)
    ensures And(x, x - 1) != 0 ==> HighBit(And(x, x - 1)) == HighBit(x)
  {
    var h := x / 2;
    if x % 2 == 1 {
      assert (x - 1) / 2 == h;
      AndSelf(h);
      if h > 0 {
        HighBitPositive(h);
        assert x != HighBit(x);
      }
    } else {
      assert (x - 1) / 2 == h - 1;
      AndPred(h);
      assert And(x, x - 1) == 2 * And(h, h - 1);
    }
  }

  lemma {:induction false} HighBitPositive(x: nat)
    requires x > 0
    ensures 0 < HighBit(x) <= x < 2 * HighBit(x)
  {
    if x > 1 {
      HighBitPositive(x / 2);
    }
  }

  /** The highest bit as a power of two. */
  lemma {:induction false} HighBitPower(x: nat) returns (k: nat)
    requires x > 0
    ensures HighBit(x) == Pow2(k) && Pow2(k) <= x < Pow2(k + 1)
  {
    if x == 1 {
      k := 0;
    } else {
      k := HighBitPower(x / 2);
      k := k + 1;
    }
  }

  lemma {:induction false} PowerOrder(k: nat, l: nat)
    requires k <= l
    ensures Pow2(k) <= Pow2(l)
    decreases l - k
  {
    if k < l {
      PowerOrder(k, l - 1);
    }
  }

  /** l is ceil(log2 n). */
  ghost predicate LeastLevel(n: nat, l: nat) {
    n <= Pow2(l) && (l > 0 ==> Pow2(l - 1) < n)
  }

  /** Clear low bits until only the highest is left. */
  method TopBit(x: nat) returns (tmp: nat)
    requires x < TWO64
    ensures tmp == HighBit(x)
  {
    tmp := x;
    while And(tmp, Pred(tmp)) != 0
      invariant HighBit(tmp) == HighBit(x)
      decreases tmp
    {
      AndPred(tmp);
      tmp := And(tmp, Pred(tmp));
    }
    if tmp > 0 {
      AndPred(tmp);
    }
  }

  /** Count the shifts that bring a power of two down to one. */
  method ShiftCount(x: nat, ghost k: nat) returns (level: nat)
    requires x == 0 || x == Pow2(k)
    ensures level == if x == 0 then 0 else k
  {
    level := 0;
    var tmp := x / 2;
    while tmp != 0
      invariant x == 0 ==> tmp == 0 && level == 0
      invariant x != 0 ==> level <= k && tmp == (if level == k then 0 else Pow2(k - level - 1))
    {
      level := level + 1;
      tmp := tmp / 2;
    }
  }

  /** pmalloc's level for n pages.  It refuses exactly the requests above 64 pages, except that for more than 2^63
      pages the shift wraps to zero and the answer is level 0. */
  method LevelFor(n: nat) returns (refused: bool, level: nat)
    requires 0 < n < TWO64
    ensures refused <==> 64 < n <= TWO63
    ensures n <= 64 ==> level < LEVELS && LeastLevel(n, level)
    ensures n > TWO63 ==> level == 0
  {
    var tmp := TopBit(n - 1);
    ghost var k := 0;
    if n > 1 {
      k := HighBitPower(n - 1);
      ShiftFits(k, n);
    }
    tmp := 2 * tmp % TWO64;
    if 64 < tmp {
      return true, 0;
    }
    level := ShiftCount(tmp, k + 1);
    refused := false;
  }

  lemma ShiftFits(k: nat, n: nat)
    requires 1 < n < TWO64 && Pow2(k) <= n - 1 < Pow2(k + 1)
    ensures n > TWO63 <==> k == 63
    ensures k == 63 ==> Pow2(k) == TWO63
    ensures k < 63 ==> 2 * Pow2(k) < TWO64
    ensures 64 < n <==> 64 < 2 * Pow2(k)
    ensures n <= 64 ==> k < TOP
  {
    Pow2Values();
    if k > 63 {
      PowerOrder(64, k);
    } else if k < 63 {
      PowerOrder(k + 1, 63);
    }
    if k >= 6 {
      PowerOrder(6, k);
    } else {
      PowerOrder(k + 1, 6);
    }
  }

  lemma Pow2Values()
    ensures Pow2(6) == 64 && Pow2(63) == TWO63 && Pow2(64) == TWO64
  {
    assert Pow2(4) == 0x10;
    assert Pow2(8) == 0x100;
    assert Pow2(12) == 0x1000;
    assert Pow2(16) == 0x10000;
    assert Pow2(20) == 0x100000;
    assert Pow2(24) == 0x1000000;
    assert Pow2(28) == 0x10000000;
    assert Pow2(32) == 0x100000000;
    assert Pow2(36) == 0x1000000000;
    assert Pow2(40) == 0x10000000000;
    assert Pow2(44) == 0x100000000000;
    assert Pow2(48) == 0x1000000000000;
    assert Pow2(52) == 0x10000000000000;
    assert Pow2(56) == 0x100000000000000;
    assert Pow2(60) == 0x1000000000000000;
  }
}

/** The physical page allocator of kernel/mm/pmm/pmm.c. */
module Pmm {
  import opened Machine
  import opened Buddy
  import opened BitStore
  import opened PageLevel

  /** A bitmap size that is a multiple of 64 halves evenly from level to level. */
  lemma SizeHalves(size: nat, l: nat)
    requires size % 64 == 0 && l < TOP
    ensures SizeAt(size, l) == 2 * SizeAt(size, l + 1)
  {
    var m := size / 64;
    assert SizeAt(size, 1) == 32 * m;
    assert SizeAt(size, 2) == 16 * m;
    assert SizeAt(size, 3) == 8 * m;
    assert SizeAt(size, 4) == 4 * m;
    assert SizeAt(size, 5) == 2 * m;
    assert SizeAt(size, 6) == m;
  }

  /** The byte of the bitmaps at which initPMM looks for the parent of bit `j` of level `l`. */
  function ParentByte(size: nat, l: nat, j: nat): nat {
    BaseAt(size, l + 1) + j / 2 / 8
  }

  /** The parents of all bits of level `l` are looked up in the bitmap above it. */
  ghost predicate ParentsInside(size: nat, l: nat) {
    forall j: nat {:trigger ParentByte(size, l, j)} ::
      j < 8 * SizeAt(size, l) ==> ParentByte(size, l, j) < BaseAt(size, l + 2)
  }

  /**
    They are unless the bitmap has an odd size. Then those of its last byte are the first bits two
    levels up; for level 5 there is no such level, and they lie behind all bitmaps.
  */
  lemma OddSize(size: nat, l: nat)
    ensures ParentsInside(size, l) <==> SizeAt(size, l) % 2 == 0
    ensures SizeAt(size, l) % 2 == 1 ==>
              forall j: nat {:trigger ParentByte(size, l, j)} ::
                8 * (SizeAt(size, l) - 1) <= j < 8 * SizeAt(size, l) ==> ParentByte(size, l, j) == BaseAt(size, l + 2)
    ensures l == TOP - 1 ==> BaseAt(size, l + 2) == BaseAt(size, LEVELS)
  {
    var n := SizeAt(size, l);
    assert SizeAt(size, l + 1) == n / 2;
    if n % 2 == 1 {
      assert ParentByte(size, l, 8 * (n - 1)) == BaseAt(size, l + 2);
    }
  }

  /** The rows that the first pass of initPMM leaves: the blocks that are usable as a whole are marked free. */
  ghost predicate Built(g: Bits, u: seq<bool>) {
    forall l: nat, j: nat {:trigger Holes(g, l, j)} :: l < |g| && j < |g[l]| ==> (Holes(g, l, j) <==> Whole(u, l, j))
  }

  ghost predicate Holes(g: Bits, l: nat, j: nat)
    requires l < |g| && j < |g[l]|
  {
    !g[l][j]
  }

  /**
    A first bitmap of odd size: for a page of its last byte the second pass of initPMM takes for the
    parent a block of four pages at the start of memory, and marks the page as used if and only if
    those four pages are usable. No block of two pages covers it, so a usable page is then lost.
  */
  lemma LostPage(st: seq<bv8>, size: nat, g: Bits, u: seq<bool>, k: nat)
    requires Stored(st, size, g) && Built(g, u) && size % 2 == 1 && size >= 5 && k < 8
    ensures var p := 8 * (size - 1) + k;
            && p / 2 >= |g[1]| && ParentByte(size, 0, p) < |st|
            && (!BitOf(st[ParentByte(size, 0, p)], p / 2 % 8) <==> Whole(u, 2, k / 2))
  {
    var p := 8 * (size - 1) + k;
    assert SizeAt(size, 1) == size / 2 && SizeAt(size, 2) == size / 2 / 2 && |g[1]| == 8 * (size / 2);
    OddSize(size, 0);
    assert ParentByte(size, 0, p) == BaseAt(size, 2) == ByteOf(size, 2, k / 2);
    assert p / 2 % 8 == k / 2;
    assert |g[2]| == 8 * SizeAt(size, 2);
    assert Holds(st, size, g, 2, k / 2);
    assert Holes(g, 2, k / 2) <==> Whole(u, 2, k / 2);
  }

  /** With all of 40 pages usable the last eight are lost. */
  lemma LastPagesLost(st: seq<bv8>, g: Bits, u: seq<bool>, k: nat)
    requires Stored(st, 5, g) && Built(g, u) && |u| == 40 && (forall p :: 0 <= p < 40 ==> u[p]) && k < 8
    ensures u[32 + k] && (32 + k) / 2 >= |g[1]| && ParentByte(5, 0, 32 + k) < |st|
    ensures !BitOf(st[ParentByte(5, 0, 32 + k)], (32 + k) / 2 % 8)
  {
    LostPage(st, 5, g, u, k);
    var j := k / 2;
    FourPages(u, j);
  }

  lemma FourPages(u: seq<bool>, j: nat)
    requires 4 * j + 3 < |u| && u[4 * j] && u[4 * j + 1] && u[4 * j + 2] && u[4 * j + 3]
    ensures Whole(u, 2, j)
  {
    var i := 2 * j;
    assert Whole(u, 0, 2 * i) && Whole(u, 0, 2 * i + 1);
    assert Whole(u, 1, i);
    assert Whole(u, 0, 2 * (i + 1)) && Whole(u, 0, 2 * (i + 1) + 1);
    assert Whole(u, 1, i + 1);
  }

  /** All parents are looked up where they are if and only if the size of the first bitmap is a multiple of 64. */
  lemma ParentsInsideExactly(size: nat)
    ensures (forall l: nat {:trigger ParentsInside(size, l)} :: l < TOP ==> ParentsInside(size, l)) <==> size % 64 == 0
  {
    forall l: nat ensures ParentsInside(size, l) <==> SizeAt(size, l) % 2 == 0 { OddSize(size, l); }
    if size % 64 == 0 {
      forall l: nat | l < TOP ensures ParentsInside(size, l) { SizeHalves(size, l); }
    } else {
      OddLevel(size);
    }
  }

  lemma OddLevel(size: nat)
    requires size % 64 != 0
    ensures exists l: nat {:trigger ParentsInside(size, l)} :: l < TOP && !ParentsInside(size, l)
  {
    assert SizeAt(size, 0) == size && SizeAt(size, 1) == size / 2 && SizeAt(size, 2) == size / 2 / 2;
    assert SizeAt(size, 3) == size / 2 / 2 / 2 && SizeAt(size, 4) == size / 2 / 2 / 2 / 2;
    assert SizeAt(size, 5) == size / 2 / 2 / 2 / 2 / 2;
    var l: nat :| l < TOP && SizeAt(size, l) % 2 == 1;
    OddSize(size, l);
    assert !ParentsInside(size, l);
  }

  /** The rows with every bit set. */
  ghost function AllSet(size: nat): (g: Bits)
    ensures |g| == LEVELS
    ensures forall l :: 0 <= l < LEVELS ==>
              |g[l]| == 8 * SizeAt(size, l) && forall j :: 0 <= j < |g[l]| ==> g[l][j]
  {
    seq(LEVELS, l requires 0 <= l < LEVELS => seq(8 * SizeAt(size, l), _ => true))
  }

  lemma AllSetHeld(st: seq<bv8>, size: nat)
    requires size % 64 == 0 && |st| == BaseAt(size, LEVELS) && forall a :: 0 <= a < |st| ==> st[a] == 0xFF
    ensures Stored(st, size, AllSet(size)) && Shape(AllSet(size)) && Counted(AllSet(size), [0, 0, 0, 0, 0, 0, 0])
  {
    var g := AllSet(size);
    forall l | 0 <= l < TOP
      ensures Halves(g, l)
    {
      SizeHalves(size, l);
    }
    forall l: nat, j: nat | l < LEVELS && j < |g[l]|
      ensures Holds(st, size, g, l, j)
    {
      BaseOrder(size, l, LEVELS);
      OnesByte(j % 8);
    }
    forall l | 0 <= l < LEVELS
      ensures Count(g[l]) == 0
    {
      CountOnes(g[l]);
    }
  }

  lemma StartAddress(l: nat, j: nat)
    ensures j * (PAGE_SIZE * Pow2(l)) == PAGE_SIZE * Start(l, j)
  {
    StartIsMultiple(l, j);
    var q := Pow2(l);
    assert j * (PAGE_SIZE * q) == PAGE_SIZE * (j * q);
  }

  /** A difference of 64-bit numbers, which wraps. */
  function Less64(x: nat, y: nat): nat {
    var d := x - y % TWO64;
    if d >= 0 then d else d + TWO64
  }

  function Min(a: nat, b: nat): nat {
    if a < b then a else b
  }

  /** No free block has n pages. */
  ghost predicate NoBlock(g: Bits, n: nat) {
    forall k: nat, q: nat {:trigger Clear(g, k, q)} :: n <= Pow2(k) ==> !Clear(g, k, q)
  }

  /** The requests that pmalloc refuses. */
  ghost predicate Refuses(g: Bits, n: nat) {
    n == 0 || 64 < n <= TWO63 || NoBlock(g, if n <= TWO63 then n else 1)
  }

  lemma {:induction false} LevelEnough(n: nat, level: nat, k: nat)
    requires LeastLevel(n, level)
    ensures n <= Pow2(k) <==> level <= k
  {
    if level <= k {
      PowerOrder(level, k);
    } else {
      PowerOrder(k, level - 1);
    }
  }

  lemma RefusedExactly(g: Bits, n: nat, level: nat)
    requires 0 < n < TWO64 && !(64 < n <= TWO63)
    requires if n <= 64 then LeastLevel(n, level) else level == 0
    ensures Refuses(g, n) <==> forall k: nat, q: nat {:trigger Clear(g, k, q)} :: level <= k ==> !Clear(g, k, q)
  {
    var m := if n <= 64 then n else 1;
    assert LeastLevel(m, level);
    forall k: nat ensures m <= Pow2(k) <==> level <= k { LevelEnough(m, level, k); }
  }

  lemma TakenBytes(pages: nat, i: nat, was: nat, weight: nat)
    requires i < LEVELS && pages <= Pow2(i) && weight + Min(pages, Pow2(i)) == was
    ensures Less64(PAGE_SIZE * was, PAGE_SIZE * pages) == PAGE_SIZE * weight == PAGE_SIZE * was - PAGE_SIZE * pages
  {
    PowerOrder(i, TOP);
    assert Pow2(TOP) == 64;
  }

  class Pmm {
    /** The bytes of the seven bitmaps, one behind the other. */
    const store: array<bv8>
    /** init_size: the bytes of the lowest bitmap. */
    const size: nat
    /** bitmaps[i].free */
    var free: seq<nat>
    /** free_mem, in bytes. */
    var freeMem: nat
    ghost var g: Bits

    /** initPMM, given which pages the memory map calls usable. */
    constructor (bytes: nat, usable: seq<bool>)
      requires bytes % 64 == 0 && |usable| == 8 * bytes
      ensures Valid() && size == bytes && fresh(store) && |g[0]| == |usable| && Canonical(g, usable)
      ensures freeMem == PAGE_SIZE * CoverSum(g, 0, |usable|)
      ensures forall p: nat {:trigger Cover(g, 0, p)} :: Cover(g, 0, p) == One(p < |usable| && usable[p])
    {
      size := bytes;
      store := new bv8[BaseAt(bytes, LEVELS)];
      free := [0, 0, 0, 0, 0, 0, 0];
      freeMem := 0;
      g := AllSet(bytes);
      new;
      SetAllBytes();
      AllSetHeld(store[..], size);
      BuildPages(usable);
      BuildBlocks(usable);
      PruneBlocks(usable);
      RowsAreCanonical(g, usable);
      CountersWeighCovers(g, free, 0);
      freeMem := FreeBytes();
      forall p: nat
        ensures Cover(g, 0, p) == One(p < |usable| && usable[p])
      {
        CanonicalCover(g, usable, 0, p);
      }
    }

    /** The bytes hold the rows g, and the counters count them. */
    ghost predicate Held()
      reads this, store
    {
      Stored(store[..], size, g) && Shape(g) && Counted(g, free)
    }

    ghost predicate Valid()
      reads this, store
    {
      Held() && Partition(g) && freeMem == PAGE_SIZE * Weigh(free, 0)
    }

    // -------------------------------------------------------------- initPMM

    /** Every byte of every bitmap becomes 0xFF. */
    method SetAllBytes()
      requires store.Length == BaseAt(size, LEVELS)
      modifies store
      ensures forall a :: 0 <= a < store.Length ==> store[a] == 0xFF
    {
      for i := 0 to LEVELS
        invariant forall a :: 0 <= a < BaseAt(size, i) && a < store.Length ==> store[a] == 0xFF
      {
        BaseOrder(size, i, LEVELS);
        for j := 0 to SizeAt(size, i)
          invariant forall a :: 0 <= a < BaseAt(size, i) + j && a < store.Length ==> store[a] == 0xFF
        {
          store[BaseAt(size, i) + j] := 0xFF;
        }
      }
    }

    /** Rows from l on are still empty. */
    ghost predicate EmptyFrom(u: seq<bool>, l: nat)
      reads this
    {
      forall k: nat {:trigger BuiltRow(g, u, k, 0)} :: l <= k < LEVELS ==> BuiltRow(g, u, k, 0)
    }

    /** The first row: usable pages are free. */
    method BuildPages(u: seq<bool>)
      requires Held() && |g[0]| == |u| && EmptyFrom(u, 0)
      modifies this`g, this`free, store
      ensures Held() && |g[0]| == |u| && PrunedRow(g, u, 0, 0) && EmptyFrom(u, 1)
    {
      assert BuiltRow(g, u, 0, 0);
      var i := 0;
      while i < 8 * SizeAt(size, 0)
        invariant Held() && i <= |g[0]| == |u| && BuiltRow(g, u, 0, i) && EmptyFrom(u, 1)
      {
        BuildOne(g, u, 0, i);
        OthersEmpty(u, 0, i);
        if u[i] {
          MarkFree(0, i);
        }
        i := i + 1;
      }
      BuiltIsWhole(u, g, 0);
    }

    lemma OthersEmpty(u: seq<bool>, l: nat, j: nat)
      requires |g| == LEVELS && l < LEVELS && j < |g[l]| && EmptyFrom(u, l + 1)
      ensures forall k: nat {:trigger BuiltRow(WithBit(g, l, j, false), u, k, 0)} :: l < k < LEVELS ==>
                BuiltRow(WithBit(g, l, j, false), u, k, 0)
    {
      forall k: nat | l < k < LEVELS
        ensures BuiltRow(WithBit(g, l, j, false), u, k, 0)
      {
        assert BuiltRow(g, u, k, 0);
        OtherRow(g, u, l, j, false, k, 0);
      }
    }

    /** Rows below l mark exactly the whole blocks. */
    ghost predicate WholeBelow(u: seq<bool>, l: nat)
      reads this
    {
      forall k: nat {:trigger PrunedRow(g, u, k, 0)} :: k < l ==> PrunedRow(g, u, k, 0)
    }

    /** One row above the first: a block is free if both its halves are. */
    method BuildRow(u: seq<bool>, i: nat)
      requires Held() && |g[0]| == |u| && 0 < i < LEVELS && WholeBelow(u, i) && EmptyFrom(u, i)
      modifies this`g, this`free, store
      ensures Held() && |g[0]| == |u| && WholeBelow(u, i + 1) && EmptyFrom(u, i + 1)
    {
      assert BuiltRow(g, u, i, 0);
      var j := 0;
      while j < 8 * SizeAt(size, i)
        invariant Held() && |g[0]| == |u| && j <= |g[i]| && BuiltRow(g, u, i, j) && WholeBelow(u, i) &&
                  EmptyFrom(u, i + 1)
      {
        assert Halves(g, i - 1);
        assert PrunedRow(g, u, i - 1, 0);
        BuildOne(g, u, i, j);
        OthersEmpty(u, i, j);
        OthersWhole(u, i, j);
        var left := IsClear(i - 1, 2 * j);
        var right := IsClear(i - 1, 2 * j + 1);
        if left && right {
          MarkFree(i, j);
        }
        j := j + 1;
      }
      BuiltIsWhole(u, g, i);
    }

    lemma OthersWhole(u: seq<bool>, l: nat, j: nat)
      requires |g| == LEVELS && l < LEVELS && j < |g[l]| && WholeBelow(u, l)
      ensures forall k: nat {:trigger PrunedRow(WithBit(g, l, j, false), u, k, 0)} :: k < l ==>
                PrunedRow(WithBit(g, l, j, false), u, k, 0)
    {
      forall k: nat | k < l
        ensures PrunedRow(WithBit(g, l, j, false), u, k, 0)
      {
        assert PrunedRow(g, u, k, 0);
        OtherRow(g, u, l, j, false, k, 0);
      }
    }

    method BuildBlocks(u: seq<bool>)
      requires Held() && |g[0]| == |u| && PrunedRow(g, u, 0, 0) && EmptyFrom(u, 1)
      modifies this`g, this`free, store
      ensures Held() && |g[0]| == |u| && WholeBelow(u, LEVELS)
    {
      for i := 1 to LEVELS
        invariant Held() && |g[0]| == |u| && WholeBelow(u, i) && EmptyFrom(u, i)
      {
        BuildRow(u, i);
      }
    }

    /** Rows below l are pruned, the others still mark the whole blocks. */
    ghost predicate PrunedBelow(u: seq<bool>, l: nat)
      requires |g| == LEVELS
      reads this
    {
      && (forall k: nat {:trigger PrunedRow(g, u, k, |g[k]|)} :: k < l && k < TOP ==> PrunedRow(g, u, k, |g[k]|))
      && (forall k: nat {:trigger PrunedRow(g, u, k, 0)} :: l <= k < LEVELS ==> PrunedRow(g, u, k, 0))
    }

    /** One row: a block whose parent is free as a whole is no longer marked itself. */
    method PruneRow(u: seq<bool>, i: nat)
      requires Held() && |g[0]| == |u| && i < TOP && PrunedBelow(u, i)
      modifies this`g, this`free, store
      ensures Held() && |g[0]| == |u| && PrunedBelow(u, i + 1)
    {
      ghost var g0 := g;
      assert PrunedRow(g, u, i, 0) && PrunedRow(g, u, i + 1, 0);
      var j := 0;
      while j < 8 * SizeAt(size, i)
        invariant Held() && SameOtherRows(g0, i) && j <= |g[i]| && PrunedRow(g, u, i, j) && PrunedRow(g, u, i + 1, 0)
      {
        assert Halves(g, i);
        PruneOne(g, u, i, j);
        OtherRow(g, u, i, j, true, i + 1, 0);
        var c := IsClear(i + 1, j / 2);
        if c {
          MarkUsed(i, j);
        }
        j := j + 1;
      }
      RowsKept(u, g0, i);
    }

    /** Only row l differs from g0. */
    ghost predicate SameOtherRows(g0: Bits, l: nat)
      reads this
    {
      && |g0| == |g| == LEVELS && |g[0]| == |g0[0]|
      && forall k {:trigger g[k]} {:trigger g0[k]} :: 0 <= k < LEVELS && k != l ==> g[k] == g0[k]
    }

    lemma RowsKept(u: seq<bool>, g0: Bits, i: nat)
      requires SameOtherRows(g0, i) && i < TOP && PrunedRow(g, u, i, |g[i]|)
      requires forall k: nat {:trigger PrunedRow(g0, u, k, |g0[k]|)} :: k < i ==> PrunedRow(g0, u, k, |g0[k]|)
      requires forall k: nat {:trigger PrunedRow(g0, u, k, 0)} :: i <= k < LEVELS ==> PrunedRow(g0, u, k, 0)
      ensures PrunedBelow(u, i + 1)
    {
      forall k: nat | k < i
        ensures PrunedRow(g, u, k, |g[k]|)
      {
        RowKept(u, g0, i, k, |g[k]|);
      }
      forall k: nat | i < k < LEVELS
        ensures PrunedRow(g, u, k, 0)
      {
        RowKept(u, g0, i, k, 0);
      }
    }

    lemma RowKept(u: seq<bool>, g0: Bits, i: nat, k: nat, n: nat)
      requires SameOtherRows(g0, i) && k < LEVELS && k != i && PrunedRow(g0, u, k, n)
      ensures PrunedRow(g, u, k, n)
    {
      assert g[k] == g0[k];
      forall j: nat
        ensures Clear(g, k, j) == Clear(g0, k, j)
      {
      }
    }

    method PruneBlocks(u: seq<bool>)
      requires Held() && |g[0]| == |u| && WholeBelow(u, LEVELS)
      modifies this`g, this`free, store
      ensures Held() && |g[0]| == |u| && PrunedBelow(u, TOP)
    {
      for i := 0 to TOP
        invariant Held() && |g[0]| == |u| && PrunedBelow(u, i)
      {
        PruneRow(u, i);
      }
    }

    /** The last loop of initPMM: the bytes that the counters stand for. */
    method FreeBytes() returns (bytes: nat)
      requires |free| == LEVELS
      ensures bytes == PAGE_SIZE * Weigh(free, 0)
    {
      bytes := 0;
      for i := 0 to LEVELS
        invariant bytes + PAGE_SIZE * (Pow2(i) * Weigh(free, i)) == PAGE_SIZE * Weigh(free, 0)
      {
        WeighBytes(free, i);
        bytes := bytes + free[i] * (PAGE_SIZE * Pow2(i));
      }
    }

    lemma WeighBytes(f: seq<nat>, i: nat)
      requires |f| == LEVELS && i < LEVELS
      ensures PAGE_SIZE * (Pow2(i) * Weigh(f, i)) ==
                f[i] * (PAGE_SIZE * Pow2(i)) + PAGE_SIZE * (Pow2(i + 1) * Weigh(f, i + 1))
    {
      var p, w := Pow2(i), Weigh(f, i + 1);
      assert p * (f[i] + 2 * w) == p * f[i] + 2 * p * w;
      assert f[i] * (PAGE_SIZE * p) == PAGE_SIZE * (p * f[i]);
    }

    /** pmmGetFreeMem: the bytes of all free pages. */
    method GetFreeMem() returns (bytes: nat)
      requires Valid()
      ensures bytes == PAGE_SIZE * CoverSum(g, 0, |g[0]|)
    {
      CountersWeighCovers(g, free, 0);
      bytes := freeMem;
    }

    // -------------------------------------------------------------- bits

    /** pmmSetBit or pmmClearBit on the bitmap of level l. */
    method PutBit(l: nat, j: nat, v: bool)
      requires Stored(store[..], size, g) && l < LEVELS && j < |g[l]|
      modifies this`g, store
      ensures Stored(store[..], size, g) && g == WithBit(old(g), l, j, v)
    {
      StoreBit(store[..], size, g, l, j, v);
      g := WithBit(g, l, j, v);
      var a := BaseAt(size, l) + j / 8;
      store[a] := ByteWith(store[a], j % 8, v);
    }

    /** pmmCheckBit, negated. */
    method IsClear(l: nat, j: nat) returns (c: bool)
      requires Stored(store[..], size, g) && l < LEVELS && j < |g[l]|
      ensures c == Clear(g, l, j)
    {
      assert Holds(store[..], size, g, l, j);
      c := !BitOf(store[BaseAt(size, l) + j / 8], j % 8);
    }

    /** Mark block (l, j) free and count it. */
    method MarkFree(l: nat, j: nat)
      requires Held() && l < LEVELS && j < |g[l]| && !Clear(g, l, j)
      modifies this`g, this`free, store
      ensures Held() && g == WithBit(old(g), l, j, false) && Weigh(free, 0) == Weigh(old(free), 0) + Pow2(l)
    {
      CountedUpdate(g, free, l, j, false);
      WithBitShape(g, l, j, false);
      WeighMore(free, l, 0);
      PutBit(l, j, false);
      free := free[l := free[l] + 1];
    }

    /** Mark block (l, j) used and count it out. */
    method MarkUsed(l: nat, j: nat)
      requires Held() && l < LEVELS && j < |g[l]| && Clear(g, l, j)
      modifies this`g, this`free, store
      ensures Held() && g == WithBit(old(g), l, j, true) && Weigh(free, 0) == Weigh(old(free), 0) - Pow2(l)
    {
      CountedUpdate(g, free, l, j, true);
      WithBitShape(g, l, j, true);
      WeighLess(free, l, 0);
      PutBit(l, j, true);
      free := free[l := free[l] - 1];
    }

    // -------------------------------------------------------------- pmalloc

    /** pmmPropagateDown */
    method PropagateDown(pages: nat, level: nat, index: nat)
      requires Held() && level < LEVELS && index < |g[level]| && Solid(g, level, index) && 1 <= pages
      modifies this`g, this`free, store
      ensures Held() && g == Carved(old(g), pages, level, index)
      ensures Weigh(free, 0) == Weigh(old(free), 0) + if pages <= Pow2(level) then Pow2(level) - pages else 0
      decreases level, 1
    {
      if level == 0 || pages == Pow2(level) {
        return;
      }
      assert Halves(g, level - 1);
      if pages <= Pow2(level - 1) {
        PropagateLeft(pages, level, index);
      } else {
        PropagateRight(pages, level, index);
      }
    }

    /** The left half is not enough: the right half is carved further. */
    method PropagateRight(pages: nat, level: nat, index: nat)
      requires Held() && 0 < level < LEVELS && index < |g[level]| && Solid(g, level, index)
      requires pages > Pow2(level - 1) && pages != Pow2(level)
      modifies this`g, this`free, store
      ensures Held() && g == Carved(old(g), pages, level, index)
      ensures Weigh(free, 0) == Weigh(old(free), 0) + if pages <= Pow2(level) then Pow2(level) - pages else 0
      decreases level, 0
    {
      assert Halves(g, level - 1);
      SolidChildren(g, level, index);
      var rest := pages - Pow2(level - 1);
      CarvedRight(g, pages, rest, level, index);
      PropagateDown(rest, level - 1, 2 * index + 1);
    }

    /** Half the block is enough: the right half is marked free. */
    method PropagateLeft(pages: nat, level: nat, index: nat)
      requires Held() && 0 < level < LEVELS && index < |g[level]| && Solid(g, level, index)
      requires 1 <= pages <= Pow2(level - 1)
      modifies this`g, this`free, store
      ensures Held() && g == Carved(old(g), pages, level, index)
      ensures Weigh(free, 0) == Weigh(old(free), 0) + Pow2(level) - pages
      decreases level, 0
    {
      assert Halves(g, level - 1);
      SolidChildren(g, level, index);
      RightChildSet(g, pages, level, index);
      PropagateDown(pages, level - 1, 2 * index);
      MarkFree(level - 1, 2 * index + 1);
      CarvedLeft(old(g), pages, level, index);
    }

    /** The block (i, j) that the search found is marked used and what it has too much is freed. */
    method Split(pages: nat, i: nat, j: nat)
      requires Valid() && i < LEVELS && j < |g[i]| && Clear(g, i, j) && 1 <= pages
      modifies this`g, this`free, store
      ensures Held() && g == Taken(old(g), pages, i, j)
      ensures Weigh(free, 0) + Min(pages, Pow2(i)) == Weigh(old(free), 0)
    {
      ClearIsSolid(g, i, j);
      SolidAfterSet(g, i, j);
      ParentIsSet(g, i, j);
      MarkUsed(i, j);
      WithBitClear(old(g), i, j, true, i + 1, j / 2);
      if i != TOP {
        assert Halves(g, i);
        var c := IsClear(i + 1, j / 2);
        if c {
          // The code would undo a parent block that is marked free as well; no block is marked twice.
          assert false;
        }
      }
      PropagateDown(pages, i, j);
    }

    /** pmalloc of the free block (i, j) that the search found. */
    method Take(pages: nat, i: nat, j: nat)
      requires Valid() && i < LEVELS && j < |g[i]| && Clear(g, i, j) && 1 <= pages
      modifies this`g, this`free, this`freeMem, store
      ensures Held() && g == Taken(old(g), pages, i, j) && freeMem == Less64(old(freeMem), PAGE_SIZE * pages)
      ensures pages <= Pow2(i) ==> Valid() && freeMem == old(freeMem) - PAGE_SIZE * pages
    {
      ghost var g0, w := g, Weigh(free, 0);
      Split(pages, i, j);
      if pages <= Pow2(i) {
        TakenPartition(g0, pages, i, j);
        TakenBytes(pages, i, w, Weigh(free, 0));
      }
      freeMem := Less64(freeMem, PAGE_SIZE * pages);
    }

    /** The first block marked free on the lowest of the levels from level on. */
    ghost predicate FirstClear(level: nat, i: nat, j: nat)
      reads this
    {
      && level <= i < LEVELS && Clear(g, i, j)
      && (forall k: nat, q: nat {:trigger Clear(g, k, q)} :: (level <= k < i || (k == i && q < j)) ==> !Clear(g, k, q))
    }

    /** The search loops of pmalloc. */
    method Search(level: nat) returns (found: bool, i: nat, j: nat)
      requires Held() && level <= TOP
      ensures found ==> FirstClear(level, i, j) && j < |g[i]|
      ensures !found ==> forall k: nat, q: nat {:trigger Clear(g, k, q)} :: level <= k ==> !Clear(g, k, q)
    {
      i := level;
      while i < LEVELS
        invariant level <= i <= LEVELS
        invariant forall k: nat, q: nat {:trigger Clear(g, k, q)} :: level <= k < i ==> !Clear(g, k, q)
      {
        j := 0;
        while j < 8 * SizeAt(size, i)
          invariant j <= |g[i]| == 8 * SizeAt(size, i)
          invariant forall q: nat {:trigger Clear(g, i, q)} :: q < j ==> !Clear(g, i, q)
        {
          var c := IsClear(i, j);
          if c {
            return true, i, j;
          }
          j := j + 1;
        }
        i := i + 1;
      }
      return false, 0, 0;
    }

    /**
      pmalloc: the physical address of the first page, or 0; with the block the pages were taken
      from. Requests of more than 2^63 pages get some free block, whatever its size.
    */
    method Pmalloc(pages: nat) returns (addr: nat, taken: bool, ghost level: nat, ghost i: nat, ghost j: nat)
      requires Valid() && pages < TWO64
      modifies this`g, this`free, this`freeMem, store
      ensures Held() && (pages <= TWO63 ==> Valid())
      ensures taken <==> !old(Refuses(g, pages))
      ensures !taken ==> addr == 0 && g == old(g) && free == old(free) && freeMem == old(freeMem)
      ensures taken ==>
                && old(FirstClear(level, i, j)) && g == Taken(old(g), pages, i, j)
                && addr == PAGE_SIZE * Start(i, j)
      ensures taken && pages <= TWO63 ==>
                && LeastLevel(pages, level) && TookPages(old(g), g, Start(i, j), pages)
                && freeMem == old(freeMem) - PAGE_SIZE * pages
      ensures taken && pages > TWO63 ==>
                && level == 0 && TookPages(old(g), g, Start(i, j), Pow2(i))
                && freeMem == Less64(old(freeMem), PAGE_SIZE * pages)
    {
      level, i, j := 0, 0, 0;
      if pages == 0 {
        return 0, false, 0, 0, 0;
      }
      var refused, lvl := LevelFor(pages);
      if refused {
        return 0, false, 0, 0, 0;
      }
      level := lvl;
      var found, bi, bj := Search(lvl);
      RefusedExactly(g, pages, lvl);
      if !found {
        return 0, false, lvl, 0, 0;
      }
      i, j := bi, bj;
      TakenEither(g, pages, lvl, bi, bj);
      Take(pages, bi, bj);
      StartAddress(bi, bj);
      addr, taken := bj * (PAGE_SIZE * Pow2(bi)), true;
    }

    lemma TakenEither(g: Bits, pages: nat, level: nat, i: nat, j: nat)
      requires Shape(g) && Partition(g) && level <= i < LEVELS && Clear(g, i, j) && pages > 0
      requires pages <= 64 ==> LeastLevel(pages, level)
      requires pages > 64 ==> pages > TWO63
      ensures pages <= 64 ==> pages <= Pow2(i) && TookPages(g, Taken(g, pages, i, j), Start(i, j), pages)
      ensures pages > 64 ==> TookPages(g, Taken(g, pages, i, j), Start(i, j), Pow2(i))
    {
      if pages <= 64 {
        PowerOrder(level, i);
        TakenAll(g, pages, i, j);
      } else {
        PowerOrder(i, TOP);
        assert Pow2(TOP) == 64;
        CarvedTooMany(WithBit(g, i, j, true), pages, i, j);
        TakenAll(g, Pow2(i), i, j);
      }
    }

    // -------------------------------------------------------------- pfree

    /** The body of coalesce's loops: merge the pair e, e + 1 of a level if both are free. */
    method MergePair(level: nat, e: nat, ghost i: nat)
      requires Held() && Partition(g) && level < TOP && e == EvenOf(i) && i < |g[level]|
      modifies this`g, this`free, store
      ensures Held() && g == MergedIf(old(g), level, i) && Weigh(free, 0) == Weigh(old(free), 0)
    {
      EvenOfIs(i);
      MergedIfPartition(g, level, i);
      var left := IsClear(level, e);
      var right := IsClear(level, e + 1);
      if left && right {
        MergeBits(level, e);
      }
    }

    /** The parent's bit is cleared and the two children's bits are set. */
    method MergeBits(level: nat, e: nat)
      requires Held() && Partition(g) && level < TOP && e % 2 == 0 && e + 1 < |g[level]|
      requires Clear(g, level, e) && Clear(g, level, e + 1)
      modifies this`g, this`free, store
      ensures Held() && e / 2 < |old(g)[level + 1]| && g == Merged(old(g), level, e) &&
                Weigh(free, 0) == Weigh(old(free), 0)
    {
      assert Halves(g, level);
      MergedPartition(g, level, e);
      ghost var g1 := WithBit(g, level + 1, e / 2, false);
      WithBitClear(g, level + 1, e / 2, false, level, e);
      WithBitClear(g, level + 1, e / 2, false, level, e + 1);
      WithBitClear(g1, level, e, true, level, e + 1);
      MarkFree(level + 1, e / 2);
      MarkUsed(level, e);
      MarkUsed(level, e + 1);
    }

    /** The pair of a block: to the right of an even block, to the left of an odd one. */
    method FirstOfPair(i: nat) returns (e: nat)
      ensures e == EvenOf(i)
    {
      EvenOfIs(i);
      e := if i % 2 == 0 then i else i - 1;
    }

    /** One round of coalesce's loops, which step by two. */
    method MergeAt(level: nat, i: nat)
      requires Held() && Partition(g) && level < TOP && i < |g[level]|
      modifies this`g, this`free, store
      ensures Held() && Partition(g) && g == MergedIf(old(g), level, i) && |g[level]| == old(|g[level]|)
      ensures Weigh(free, 0) == Weigh(old(free), 0)
    {
      MergedIfPartition(g, level, i);
      var e := FirstOfPair(i);
      MergePair(level, e, i);
    }

    /** The loop of coalesce on one level: pairs to the right of an even block, to the left of an odd one. */
    method MergeLevel(pages: nat, level: nat, index: nat)
      requires Held() && Partition(g) && level < TOP && index + pages <= |g[level]|
      modifies this`g, this`free, store
      ensures Held() && Partition(g) && g == MergedRange(old(g), level, index, index + pages) &&
                Weigh(free, 0) == Weigh(old(free), 0)
    {
      ghost var g0 := g;
      var i := index;
      while i < index + pages
        invariant index <= i
        invariant Held() && Partition(g) && |g[level]| == |g0[level]|
        invariant MergedRange(g, level, i, index + pages) == MergedRange(g0, level, index, index + pages)
        invariant Weigh(free, 0) == Weigh(old(free), 0)
      {
        MergeAt(level, i);
        i := i + 2;
      }
    }

    /** coalesce */
    method Coalesce(pages: nat, level: nat, index: nat)
      requires Held() && Partition(g) && level < TOP && index + pages <= |g[level]|
      modifies this`g, this`free, store
      ensures Held() && g == Coalesced(old(g), pages, level, index) && Weigh(free, 0) == Weigh(old(free), 0)
      decreases TOP - level
    {
      assert Halves(g, level);
      MergeLevel(pages, level, index);
      if level + 1 != TOP {
        Coalesce(pages / 2, level + 1, index / 2);
      }
    }

    /** The first loop of pfree. */
    method Release(index: nat, pages: nat)
      requires Held() && index + pages <= |g[0]| && Allocated(g, index, pages)
      modifies this`g, this`free, store
      ensures Held() && g == Released(old(g), index, pages) && Weigh(free, 0) == Weigh(old(free), 0) + pages
    {
      ghost var g0, w0 := g, Weigh(free, 0);
      var i := index;
      while i < index + pages
        invariant index <= i <= index + pages && Held() && g == Released(g0, index, i - index)
        invariant Weigh(free, 0) == w0 + (i - index)
      {
        ReleasedCover(g0, index, i - index, 0, i);
        assert Cover(g0, 0, i) == 0;
        MarkFree(0, i);
        i := i + 1;
      }
    }

    /** pfree of pages at a physical address. */
    method Pfree(addr: nat, pages: nat)
      requires Valid()
      requires addr != 0 && pages != 0 ==> addr / PAGE_SIZE + pages <= |g[0]| && Allocated(g, addr / PAGE_SIZE, pages)
      modifies this`g, this`free, this`freeMem, store
      ensures Valid()
      ensures addr == 0 || pages == 0 ==> g == old(g) && freeMem == old(freeMem)
      ensures addr != 0 && pages != 0 ==>
                && TookPages(g, old(g), addr / PAGE_SIZE, pages)
                && g == Coalesced(Released(old(g), addr / PAGE_SIZE, pages), pages, 0, addr / PAGE_SIZE)
                && freeMem == old(freeMem) + PAGE_SIZE * pages
    {
      if addr == 0 || pages == 0 {
        return;
      }
      var index := addr / PAGE_SIZE;
      ghost var g0 := g;
      Release(index, pages);
      ReleasedPartition(g0, index, pages);
      CoalescedPages(g, pages, 0, index);
      FreedAll(g0, index, pages);
      Coalesce(pages, 0, index);
      freeMem := freeMem + pages * PAGE_SIZE;
    }
  }
}

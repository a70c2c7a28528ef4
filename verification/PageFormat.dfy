/**
  The two formats of 4-level paging: how a virtual address splits into four
  table indices, and how a 64-bit table entry holds a frame and flags.
*/
module PageFormat {
  import opened Machine
  import opened PageTree

  /** The number of virtual pages. */
  const SPAN: nat := 0x10_0000_0000

  // ---------- Virtual addresses ----------

  /** PAGE_P4E to PAGE_P1E. */
  function PageOf(a: nat): Page {
    Page(a / 0x80_0000_0000 % 512, a / 0x4000_0000 % 512, a / 0x20_0000 % 512, a / 0x1000 % 512)
  }

  /** The address of the i-th page from `vptr` on, as pointer arithmetic computes it. */
  function AddrAt(vptr: nat, i: nat): nat {
    (vptr + i * 0x1000) % TWO64
  }

  function PageAt(vptr: nat, i: nat): (v: Page)
    ensures v.p4 < ENTRIES && v.p3 < ENTRIES && v.p2 < ENTRIES && v.p1 < ENTRIES
  {
    PageOf(AddrAt(vptr, i))
  }

  /** The number of a page: its indices read as the digits of a number in base 512. */
  function Number(v: Page): nat {
    ((v.p4 * 512 + v.p3) * 512 + v.p2) * 512 + v.p1
  }

  lemma QuotientIs(a: nat, d: nat, q: nat, r: nat)
    requires d > 0 && a == q * d + r && r < d
    ensures a / d == q && a % d == r
  {
    var k := a / d - q;
    assert a == (a / d) * d + a % d;
    assert k * d == r - a % d;
    assert 0 - d < k * d < d;
  }

  /** The four indices together are the low 36 bits of the page number of the address. */
  lemma NumberOf(a: nat)
    ensures Number(PageOf(a)) == a / 0x1000 % SPAN
  {
    var n := a / 0x1000;
    var i, j, k, l := a / 0x20_0000, a / 0x4000_0000, a / 0x80_0000_0000, a / 0x1_0000_0000_0000;
    assert i == n / 512 && j == i / 512 && k == j / 512 && l == k / 512;
    QuotientIs(n, SPAN, l, ((k % 512 * 512 + j % 512) * 512 + i % 512) * 512 + n % 512);
  }

  /** Consecutive addresses lie in consecutive pages, around the end of the address space. */
  lemma NumberAt(vptr: nat, i: nat)
    ensures Number(PageAt(vptr, i)) == (vptr / 0x1000 + i) % SPAN
  {
    var a := vptr + i * 0x1000;
    NumberOf(AddrAt(vptr, i));
    assert a / 0x1000 == vptr / 0x1000 + i;
    var q, r := a / TWO64, a % TWO64;
    assert a == q * TWO64 + r;
    var m, s := r / 0x1000, r % 0x1000;
    QuotientIs(a, 0x1000, q * (TWO64 / 0x1000) + m, s);
    var x := vptr / 0x1000 + i;
    assert x == q * (TWO64 / 0x1000) + m;
    QuotientIs(x, SPAN, q * (TWO64 / 0x1000 / SPAN) + m / SPAN, m % SPAN);
  }

  /** Fewer pages than there are in the address space are all different. */
  lemma PagesDiffer(vptr: nat, i: nat, j: nat)
    requires i < j < i + SPAN
    ensures PageAt(vptr, i) != PageAt(vptr, j)
  {
    NumberAt(vptr, i);
    NumberAt(vptr, j);
    RemaindersDiffer(vptr / 0x1000 + i, vptr / 0x1000 + j);
  }

  lemma RemaindersDiffer(x: nat, y: nat)
    requires x < y < x + SPAN
    ensures x % SPAN != y % SPAN
  {
    assert y - x == (y / SPAN - x / SPAN) * SPAN + (y % SPAN - x % SPAN);
  }

  // ---------- Table entries ----------

  /** The bits of the frame, and the others. An entry of the model is the two parts of a 64-bit word. */
  const FRAME_BITS: bv64 := 0x000F_FFFF_FFFF_F000
  const FLAG_BITS: bv64 := 0xFFF0_0000_0000_0FFF

  /** What pagingAddEntry stores for a physical address and flags. */
  function Stored(pptr: bv64, flags: bv64): bv64 {
    (pptr & 0xFFFF_FFFF_FFFF_F000) | flags
  }

  /** A stored entry reads back as the frame of the address and the flags. */
  lemma StoredReadsBack(pptr: bv64, flags: bv64)
    requires pptr & 0xFFF0_0000_0000_0000 == 0 && flags & FRAME_BITS == 0
    ensures Stored(pptr, flags) & FRAME_BITS == pptr & 0xFFFF_FFFF_FFFF_F000
    ensures Stored(pptr, flags) & FLAG_BITS == flags
    ensures Stored(pptr, flags) & 1 == flags & 1
  {
  }

  /** Flags are no part of an address. */
  predicate FlagsOnly(flags: bv64) {
    flags & FRAME_BITS == 0
  }

  /** Flags with which pages and tables are mapped. */
  predicate MapFlags(flags: bv64) {
    FlagsOnly(flags) && flags & 1 == 1
  }

  /** The frames that an entry can name. */
  const MAX_FRAMES: nat := 0x100_0000_0000

  /** A stored entry names the frame of the address where that has all address bits of the flags. */
  lemma StoredFrame(pptr: bv64, flags: bv64)
    requires pptr & (flags & FRAME_BITS) == flags & FRAME_BITS
    ensures Stored(pptr, flags) & FRAME_BITS == pptr & FRAME_BITS
  {
  }

  /** And only there. */
  lemma StoredFrameOnly(pptr: bv64, flags: bv64)
    requires Stored(pptr, flags) & FRAME_BITS == pptr & FRAME_BITS
    ensures pptr & (flags & FRAME_BITS) == flags & FRAME_BITS
  {
  }

  /** Flags with the address bit 0x1000 turn frame 2 into frame 3, in vmalloc and in vflags. */
  lemma AddressBitsMove()
    ensures Stored(0x2000, 0x1001) & FRAME_BITS == 0x3000 && ReflaggedWord(0x2001, 0x1001) & FRAME_BITS == 0x3000
  {
  }

  function Joined(frame: bv64, flags: bv64): bv64 {
    frame | flags
  }

  lemma WordOfParts(w: bv64)
    ensures Joined(w & FRAME_BITS, w & FLAG_BITS) == w
  {
  }

  /** Words with the same parts are the same; so only the word 0 has both parts 0. */
  lemma PartsDetermineWord(w: bv64, x: bv64)
    requires w & FRAME_BITS == x & FRAME_BITS && w & FLAG_BITS == x & FLAG_BITS
    ensures w == x
  {
    WordOfParts(w);
    WordOfParts(x);
  }

  // ---------- Changing flags ----------

  /** The bits that vflags keeps of a word: the frame, and some of the flags. */
  const KEPT_BITS: bv64 := 0x8FFF_FFFF_FFFF_FFE0
  const EXECUTE_DISABLE: bv64 := 0x8000_0000_0000_0000

  /** What vflags stores over the word w. */
  function ReflaggedWord(w: bv64, flags: bv64): bv64 {
    (w & KEPT_BITS) | flags
  }

  /** The flags that vflags leaves in place of the flags x. */
  function NewFlags(x: bv64, flags: bv64): bv64 {
    (x & 0x8FF0_0000_0000_0FE0) | flags
  }

  /** The same on the two parts of a word: the frame stays, the flags are masked and joined. */
  lemma ReflaggedParts(w: bv64, flags: bv64)
    requires flags & FRAME_BITS == 0
    ensures ReflaggedWord(w, flags) & FRAME_BITS == w & FRAME_BITS
    ensures ReflaggedWord(w, flags) & FLAG_BITS == NewFlags(w & FLAG_BITS, flags)
  {
  }

  /** vflags keeps the frame of an entry where that has all address bits of the flags. */
  lemma ReflaggedFrame(w: bv64, flags: bv64)
    requires w & (flags & FRAME_BITS) == flags & FRAME_BITS
    ensures ReflaggedWord(w, flags) & FRAME_BITS == w & FRAME_BITS
  {
  }

  /** And only there. */
  lemma ReflaggedFrameOnly(w: bv64, flags: bv64)
    requires ReflaggedWord(w, flags) & FRAME_BITS == w & FRAME_BITS
    ensures w & (flags & FRAME_BITS) == flags & FRAME_BITS
  {
  }

  /** An entry whose flags vflags changes. */
  function Reflagged(e: Entry, flags: bv64): Entry {
    Entry(e.ppn, NewFlags(e.flags, flags))
  }

  /** Whether an entry is present afterwards depends on the new flags alone; twice is as once. */
  lemma ReflaggedPresent(e: Entry, flags: bv64)
    ensures Present(Reflagged(e, flags)) <==> flags & 1 == 1
    ensures Reflagged(Reflagged(e, flags), flags) == Reflagged(e, flags)
    ensures Reflagged(ZERO, flags) == Entry(0, flags)
  {
    NewFlagsTwice(e.flags, flags);
  }

  lemma NewFlagsTwice(x: bv64, flags: bv64)
    ensures NewFlags(NewFlags(x, flags), flags) == NewFlags(x, flags)
    ensures NewFlags(x, flags) & 1 == flags & 1
    ensures NewFlags(0, flags) == flags
  {
  }

  /** The flags come out as asked for where none of the flags kept is missing from them. */
  lemma FlagsAsAsked(x: bv64, flags: bv64)
    requires (x & 0x8FF0_0000_0000_0FE0) & flags == x & 0x8FF0_0000_0000_0FE0
    ensures NewFlags(x, flags) == flags
  {
  }

  /** And only there: a flag that is kept stays set, execute-disable for one. */
  lemma FlagsAsAskedOnly(x: bv64, flags: bv64)
    requires NewFlags(x, flags) == flags
    ensures (x & 0x8FF0_0000_0000_0FE0) & flags == x & 0x8FF0_0000_0000_0FE0
  {
  }

  lemma ExecuteDisableStays(x: bv64, flags: bv64)
    requires x & EXECUTE_DISABLE != 0
    ensures NewFlags(x, flags) & EXECUTE_DISABLE != 0
  {
  }
}

/**
 The block layout of the kernel heap: which blocks tile the words between the two fences,
 how the boundary tags in memory record them, and how the free lists record the free ones.

 Quantifiers over blocks are triggered by named predicates only, so that a proof unfolds
 what it mentions and nothing else.
 */
module HeapLayout {
  import opened Machine
  import opened Words
  import opened FreeLists

  const MIN_BLOCK: nat := 8
  /** heap_listp: the first block header, just above the front fence. */
  const FIRST: nat := 3

  /** A block of n words, header and footer included. */
  datatype Blk = Blk(n: nat, used: bool)

  /** The blocks by the word index of their header. */
  type Blocks = map<nat, Blk>

  /** get_seg_index: the free list that holds blocks of the given size. */
  function Seg(words: nat): (i: nat)
    ensures i < NUM_LISTS
  {
    if words <= 8 then 0
    else if words <= 16 then 1
    else if words <= 32 then 2
    else if words <= 64 then 3
    else if words <= 128 then 4
    else if words <= 256 then 5
    else if words <= 512 then 6
    else if words <= 1024 then 7
    else if words <= 2048 then 8
    else if words <= 4096 then 9
    else if words <= 8192 then 10
    else 11
  }

  /** It is the first of the lists of up to 8, 16, 32, ... words that can hold the size, and else the last. */
  lemma SegIs(words: nat)
    ensures Seg(words) <= 11 && (Seg(words) < 11 ==> words <= 8 * Pow2(Seg(words)))
    ensures forall j: nat {:trigger Pow2(j)} :: j < Seg(words) ==> 8 * Pow2(j) < words
  {
    assert Pow2(1) == 2 && Pow2(2) == 4 && Pow2(3) == 8 && Pow2(4) == 16 && Pow2(5) == 32;
    assert Pow2(6) == 64 && Pow2(7) == 128 && Pow2(8) == 256 && Pow2(9) == 512 && Pow2(10) == 1024;
  }

  ghost predicate FreeAt(b: Blocks, s: nat) {
    s in b && !b[s].used
  }

  ghost predicate UsedAt(b: Blocks, s: nat) {
    s in b && b[s].used
  }

  // ---------------------------------------------------------------- layout

  /** The block at s has at least eight words and lies before the end fence. */
  ghost predicate Sized(b: Blocks, end: nat, s: nat)
    requires s in b
  {
    FIRST <= s && MIN_BLOCK <= b[s].n && s + b[s].n <= end
  }

  /** The block at s ends where another block or the end fence begins. */
  ghost predicate Followed(b: Blocks, end: nat, s: nat)
    requires s in b
  {
    s + b[s].n == end || s + b[s].n in b
  }

  /** The block at s ends before t. */
  ghost predicate Before(b: Blocks, s: nat, t: nat)
    requires s in b
  {
    s + b[s].n <= t
  }

  /** The block at s ends at t. */
  ghost predicate Adjacent(b: Blocks, s: nat, t: nat)
    requires s in b
  {
    s + b[s].n == t
  }

  /** Blocks of at least eight words each tile the words from FIRST up to the end fence. */
  ghost predicate Layout(b: Blocks, end: nat) {
    && FIRST <= end < MAX_WORDS && (FIRST in b || end == FIRST)
    && (forall s {:trigger Sized(b, end, s)} :: s in b ==> Sized(b, end, s))
    && (forall s {:trigger Followed(b, end, s)} :: s in b ==> Followed(b, end, s))
    && (forall s, t {:trigger Before(b, s, t)} :: s in b && t in b && s < t ==> Before(b, s, t))
  }

  /** The block at s has an odd header and an even size, so that its payload is 16-byte aligned. */
  ghost predicate AlignedAt(b: Blocks, s: nat)
    requires s in b
  {
    s % 2 == 1 && b[s].n % 2 == 0
  }

  ghost predicate Aligned(b: Blocks, end: nat) {
    end % 2 == 1 && forall s {:trigger AlignedAt(b, s)} :: s in b ==> AlignedAt(b, s)
  }

  /** Coalescing is eager: of two neighbours at least one is in use. */
  ghost predicate NoFreeNeighbours(b: Blocks) {
    forall s, t {:trigger Adjacent(b, s, t)} :: s in b && t in b && Adjacent(b, s, t) ==> b[s].used || b[t].used
  }

  /** All free neighbours meet at block s. */
  ghost predicate FreeNeighboursOnlyAt(b: Blocks, s: nat) {
    forall p, q {:trigger Adjacent(b, p, q)} ::
      p in b && q in b && Adjacent(b, p, q) && !b[p].used && !b[q].used ==> p == s || q == s
  }

  // ---------------------------------------------------------------- tags

  function TagOf(k: Blk): Word
    requires k.n < MAX_WORDS
  {
    Tag(k.n, k.used)
  }

  /** The header and the footer of block k at s both hold its tag. */
  ghost predicate TagPair(m: Mem, s: nat, k: Blk) {
    && 0 < k.n < MAX_WORDS && s + k.n < MAX_WORDS
    && m[s] == TagOf(k) && m[s + k.n - 1] == TagOf(k)
  }

  /** Header and footer of every block hold its tag, and a fence stands at either end. */
  ghost predicate Tagged(m: Mem, b: Blocks, end: nat) {
    && end < MAX_WORDS && m[FIRST - 1] == FENCE && m[end] == FENCE
    && (forall s {:trigger TagPair(m, s, b[s])} :: s in b ==> TagPair(m, s, b[s]))
  }

  // ---------------------------------------------------------------- free lists

  /** The lists hold exactly the free blocks, each on the list of its size; those in x are for now on none. */
  ghost predicate Listed(b: Blocks, c: seq<seq<nat>>, x: set<nat>) {
    && |c| == NUM_LISTS
    && (forall i: nat, s: nat {:trigger OnList(c, i, s)} ::
          i < NUM_LISTS && OnList(c, i, s) ==> FreeAt(b, s) && s !in x && Seg(b[s].n) == i)
    && (forall s: nat {:trigger FreeAt(b, s)} :: FreeAt(b, s) && s !in x ==> OnList(c, Seg(b[s].n), s))
  }

  /** The heap is well formed, except that the free blocks in x are on no list. */
  ghost predicate Inv(m: Mem, end: nat, b: Blocks, c: seq<seq<nat>>, x: set<nat>) {
    Layout(b, end) && Aligned(b, end) && Tagged(m, b, end) && Chains(m, c) && Listed(b, c, x)
  }

  // ---------------------------------------------------------------- live contents

  ghost predicate SameWords(m: Mem, m': Mem, lo: int, hi: int) {
    forall a :: lo <= a < hi && 0 <= a < MEM_WORDS ==> m'[a] == m[a]
  }

  /** Every block in use, except those in x, stays in use at the same place with the same payload. */
  ghost predicate LiveKept(m: Mem, b: Blocks, m': Mem, b': Blocks, x: set<nat>) {
    forall s: nat {:trigger UsedAt(b, s)} :: UsedAt(b, s) && s !in x
                                        ==> UsedAt(b', s) && b'[s] == b[s] && SameWords(m, m', s + 1, s + b[s].n - 1)
  }

  // ---------------------------------------------------------------- list steps

  /** An address that belongs to a link word: static, or one of the two first payload words of a free block. */
  ghost predicate LinkAddress(b: Blocks, a: nat) {
    a >= MAX_WORDS || (a >= 1 && FreeAt(b, a - 1)) || (a >= 2 && FreeAt(b, a - 2))
  }

  /** The words of a listed element are link words. */
  lemma LinkWordsInside(m: Mem, b: Blocks, c: seq<seq<nat>>, x: set<nat>, i: nat, k: nat)
    requires Chains(m, c) && Listed(b, c, x) && i < NUM_LISTS && k < |c[i]|
    ensures LinkAddress(b, c[i][k]) && LinkAddress(b, c[i][k] + 1)
  {
    var e := c[i][k];
    assert Chain(m, c[i]);
    if e < MAX_WORDS {
      assert OnList(c, i, e - 1);
    }
  }

  /** Inside a block, only the two first payload words of a free block are link words. */
  lemma LinkAddressInBlock(b: Blocks, end: nat, s: nat, a: nat)
    requires Layout(b, end) && s in b && s <= a < s + b[s].n && LinkAddress(b, a)
    ensures !b[s].used && (a == s + 1 || a == s + 2)
  {
    assert Sized(b, end, s);
    var t: nat := if a >= 1 && FreeAt(b, a - 1) then a - 1 else a - 2;
    assert Sized(b, end, t) && (s < t ==> Before(b, s, t)) && (t < s ==> Before(b, t, s));
  }

  /** Stores to link words touch neither tags nor live payloads. */
  lemma LinkStores(m: Mem, m': Mem, end: nat, b: Blocks, d: set<nat>)
    requires Layout(b, end) && Tagged(m, b, end)
    requires forall a :: a in d ==> LinkAddress(b, a)
    requires forall a: nat :: a < MEM_WORDS && a !in d ==> m'[a] == m[a]
    ensures Tagged(m', b, end) && LiveKept(m, b, m', b, {})
  {
    forall s | s in b
      ensures TagPair(m', s, b[s]) && (b[s].used ==> SameWords(m, m', s + 1, s + b[s].n - 1))
    {
      assert Sized(b, end, s) && TagPair(m, s, b[s]);
      forall a: nat | s <= a < s + b[s].n && a in d
        ensures !b[s].used && (a == s + 1 || a == s + 2)
      {
        LinkAddressInBlock(b, end, s, a);
      }
    }
    FencesAreNoLinks(b, end);
  }

  lemma FencesAreNoLinks(b: Blocks, end: nat)
    requires Layout(b, end)
    ensures !LinkAddress(b, FIRST - 1) && !LinkAddress(b, end)
  {
    forall s | s in b
      ensures FIRST <= s && s + MIN_BLOCK <= end
    {
      assert Sized(b, end, s);
    }
  }

  lemma PositionOf(m: Mem, b: Blocks, c: seq<seq<nat>>, x: set<nat>, s: nat) returns (k: nat)
    requires Chains(m, c) && Listed(b, c, x) && FreeAt(b, s) && s !in x
    ensures 0 < k < |c[Seg(b[s].n)]| - 1 && c[Seg(b[s].n)][k] == s + 1
  {
    var i := Seg(b[s].n);
    assert OnList(c, i, s);
    k :| 0 <= k < |c[i]| && c[i][k] == s + 1;
    assert Ends(c[i], i);
  }

  /** list_remove takes a free block off its list and disturbs nothing else. */
  lemma UnlinkStep(m: Mem, end: nat, b: Blocks, c: seq<seq<nat>>, x: set<nat>, s: nat, k: nat)
    requires Inv(m, end, b, c, x) && FreeAt(b, s) && s !in x
    requires 0 < k < |c[Seg(b[s].n)]| - 1 && c[Seg(b[s].n)][k] == s + 1
    ensures s + 2 < MAX_WORDS && m[s + 1] + 1 < MEM_WORDS && m[s + 2] < MEM_WORDS
    ensures Inv(Unlinked(m, s + 1), end, b, Without(c, Seg(b[s].n), k), x + {s})
    ensures LiveKept(m, b, Unlinked(m, s + 1), b, {})
  {
    var i := Seg(b[s].n);
    assert Sized(b, end, s);
    UnlinkKeepsChains(m, c, i, k);
    LinkWordsInside(m, b, c, x, i, k - 1);
    LinkWordsInside(m, b, c, x, i, k + 1);
    UnlinkStores(m, end, b, s + 1, c[i][k - 1], c[i][k + 1]);
    WithoutListed(m, b, c, x, i, k);
  }

  lemma UnlinkStores(m: Mem, end: nat, b: Blocks, e: nat, p: nat, q: nat)
    requires Layout(b, end) && Tagged(m, b, end) && e + 1 < MEM_WORDS && p + 1 < MEM_WORDS && q < MEM_WORDS
    requires m[e] == p && m[e + 1] == q && LinkAddress(b, p + 1) && LinkAddress(b, q)
    ensures Tagged(Unlinked(m, e), b, end) && LiveKept(m, b, Unlinked(m, e), b, {})
  {
    LinkStores(m, Unlinked(m, e), end, b, {p + 1, q});
  }

  lemma WithoutListed(m: Mem, b: Blocks, c: seq<seq<nat>>, x: set<nat>, i: nat, k: nat)
    requires Listed(b, c, x) && i < NUM_LISTS && k < |c[i]| && 0 < c[i][k] < MAX_WORDS && Chain(m, c[i])
    ensures Listed(b, Without(c, i, k), x + {c[i][k] - 1})
  {
    var t, e, c' := c[i], c[i][k], Without(c, i, k);
    RemovedElement(t, k);
    assert OnList(c, i, e - 1);
    forall j: nat, s: nat | j < NUM_LISTS
      ensures OnList(c', j, s) <==> OnList(c, j, s) && (j != i || s != e - 1)
    {
      assert c'[i] == t[..k] + t[k + 1..];
    }
  }

  lemma RemovedElement(t: seq<nat>, k: nat)
    requires k < |t| && forall l, l' :: 0 <= l < l' < |t| ==> t[l] != t[l']
    ensures forall a :: a in t[..k] + t[k + 1..] <==> a in t && a != t[k]
  {
    assert t == t[..k] + [t[k]] + t[k + 1..];
  }

  /** list_push_back puts the one free block that is on no list on the list of its size. */
  lemma AppendStep(m: Mem, end: nat, b: Blocks, c: seq<seq<nat>>, s: nat)
    requires Inv(m, end, b, c, {s}) && FreeAt(b, s)
    ensures s + 2 < MAX_WORDS && |c[Seg(b[s].n)]| >= 2 && m[Tail(Seg(b[s].n))] + 1 < MEM_WORDS
    ensures Inv(Appended(m, Seg(b[s].n), s + 1), end, b, With(c, Seg(b[s].n), s + 1), {})
    ensures LiveKept(m, b, Appended(m, Seg(b[s].n), s + 1), b, {})
  {
    var i, e := Seg(b[s].n), s + 1;
    assert Sized(b, end, s) && AlignedAt(b, s);
    assert Ends(c[i], i);
    forall j | 0 <= j < NUM_LISTS
      ensures e !in c[j]
    {
      assert !OnList(c, j, s);
    }
    AppendKeepsChains(m, c, i, e);
    LinkWordsInside(m, b, c, {s}, i, |c[i]| - 2);
    AppendStores(m, end, b, s, m[Tail(i)]);
    WithListed(b, c, s);
  }

  lemma AppendStores(m: Mem, end: nat, b: Blocks, s: nat, p: nat)
    requires Layout(b, end) && Tagged(m, b, end) && FreeAt(b, s) && s + 2 < MAX_WORDS && p + 1 < MEM_WORDS
    requires m[Tail(Seg(b[s].n))] == p && LinkAddress(b, p + 1)
    ensures Tagged(Appended(m, Seg(b[s].n), s + 1), b, end)
    ensures LiveKept(m, b, Appended(m, Seg(b[s].n), s + 1), b, {})
  {
    var i := Seg(b[s].n);
    LinkStores(m, Appended(m, i, s + 1), end, b, {s + 1, s + 2, p + 1, Tail(i)});
  }

  lemma WithListed(b: Blocks, c: seq<seq<nat>>, s: nat)
    requires Listed(b, c, {s}) && FreeAt(b, s) && s + 1 < MAX_WORDS && |c[Seg(b[s].n)]| >= 1
    ensures Listed(b, With(c, Seg(b[s].n), s + 1), {})
  {
    var i := Seg(b[s].n);
    var t, c' := c[i], With(c, i, s + 1);
    assert t == t[..|t| - 1] + [t[|t| - 1]];
    assert c'[i] == t[..|t| - 1] + [s + 1, t[|t| - 1]];
    forall j: nat, r: nat | j < NUM_LISTS
      ensures OnList(c', j, r) <==> OnList(c, j, r) || (j == i && r == s)
    {
    }
  }

  // ---------------------------------------------------------------- regions

  /** The blocks outside the words lo up to hi. */
  ghost function Carve(b: Blocks, lo: nat, hi: nat): Blocks {
    map t | t in b && (t < lo || hi <= t) :: b[t]
  }

  /** The words lo up to hi become one block. */
  ghost function One(b: Blocks, lo: nat, hi: nat, used: bool): Blocks
    requires lo < hi
  {
    Carve(b, lo, hi)[lo := Blk(hi - lo, used)]
  }

  /** The words lo up to hi become a block in use up to mid and a free block after it. */
  ghost function Two(b: Blocks, lo: nat, mid: nat, hi: nat): Blocks
    requires lo < mid < hi
  {
    Carve(b, lo, hi)[lo := Blk(mid - lo, true)][mid := Blk(hi - mid, false)]
  }

  /** The words lo up to hi are a run of whole blocks. */
  ghost predicate Region(b: Blocks, end: nat, lo: nat, hi: nat) {
    lo in b && lo < hi && (hi in b || hi == end)
  }

  lemma RegionSize(b: Blocks, end: nat, lo: nat, hi: nat)
    requires Layout(b, end) && Region(b, end, lo, hi)
    ensures FIRST <= lo && lo + MIN_BLOCK <= hi <= end < MAX_WORDS
  {
    assert Sized(b, end, lo);
    if hi in b {
      assert Before(b, lo, hi) && Sized(b, end, hi);
    }
  }

  lemma OneAligned(b: Blocks, end: nat, lo: nat, hi: nat, used: bool)
    requires Aligned(b, end) && Region(b, end, lo, hi)
    ensures Aligned(One(b, lo, hi, used), end)
  {
    var b' := One(b, lo, hi, used);
    assert AlignedAt(b, lo) && (hi in b ==> AlignedAt(b, hi));
    forall s | s in b'
      ensures AlignedAt(b', s)
    {
      assert s in b && AlignedAt(b, s);
    }
  }

  lemma TwoAligned(b: Blocks, end: nat, lo: nat, mid: nat, hi: nat)
    requires Aligned(b, end) && Region(b, end, lo, hi) && lo < mid < hi && mid % 2 == 1
    ensures Aligned(Two(b, lo, mid, hi), end)
  {
    var b' := Two(b, lo, mid, hi);
    assert AlignedAt(b, lo) && (hi in b ==> AlignedAt(b, hi));
    forall s | s in b'
      ensures AlignedAt(b', s)
    {
      if s != mid {
        assert s in b && AlignedAt(b, s);
      }
    }
  }

  /** A block outside the region is wholly outside it, and what follows it is outside it or at its start. */
  lemma OutsideRegion(b: Blocks, end: nat, lo: nat, hi: nat, s: nat)
    requires Layout(b, end) && Region(b, end, lo, hi) && s in b && (s < lo || hi <= s)
    ensures s + b[s].n <= lo || hi <= s
    ensures s + b[s].n == end || (s + b[s].n in b && (s + b[s].n <= lo || hi <= s + b[s].n))
  {
    assert Followed(b, end, s);
    assert s < lo ==> Before(b, s, lo);
  }

  /** Replacing a region by one block, or by two, is again a layout. */
  lemma OneLayout(b: Blocks, end: nat, lo: nat, hi: nat, used: bool)
    requires Layout(b, end) && Region(b, end, lo, hi)
    ensures Layout(One(b, lo, hi, used), end)
  {
    var b' := One(b, lo, hi, used);
    RegionSize(b, end, lo, hi);
    forall s {:trigger Sized(b', end, s)} {:trigger Followed(b', end, s)} | s in b'
      ensures Sized(b', end, s) && Followed(b', end, s)
    {
      OneBlocks(b, end, lo, hi, used, s);
    }
    forall s, t {:trigger Before(b', s, t)} | s in b' && t in b' && s < t
      ensures Before(b', s, t)
    {
      OneOrder(b, end, lo, hi, used, s, t);
    }
  }

  lemma OneBlocks(b: Blocks, end: nat, lo: nat, hi: nat, used: bool, s: nat)
    requires Layout(b, end) && Region(b, end, lo, hi) && s in One(b, lo, hi, used)
    ensures Sized(One(b, lo, hi, used), end, s) && Followed(One(b, lo, hi, used), end, s)
  {
    RegionSize(b, end, lo, hi);
    if s != lo {
      assert Sized(b, end, s);
      OutsideRegion(b, end, lo, hi, s);
    }
  }

  lemma OneOrder(b: Blocks, end: nat, lo: nat, hi: nat, used: bool, s: nat, t: nat)
    requires Layout(b, end) && Region(b, end, lo, hi)
    requires s in One(b, lo, hi, used) && t in One(b, lo, hi, used) && s < t
    ensures Before(One(b, lo, hi, used), s, t)
  {
    if s != lo {
      OutsideRegion(b, end, lo, hi, s);
      assert Before(b, s, t);
    }
  }

  lemma TwoLayout(b: Blocks, end: nat, lo: nat, mid: nat, hi: nat)
    requires Layout(b, end) && Region(b, end, lo, hi)
    requires lo + MIN_BLOCK <= mid && mid + MIN_BLOCK <= hi
    ensures Layout(Two(b, lo, mid, hi), end)
  {
    var b' := Two(b, lo, mid, hi);
    RegionSize(b, end, lo, hi);
    forall s {:trigger Sized(b', end, s)} {:trigger Followed(b', end, s)} | s in b'
      ensures Sized(b', end, s) && Followed(b', end, s)
    {
      TwoBlocks(b, end, lo, mid, hi, s);
    }
    forall s, t {:trigger Before(b', s, t)} | s in b' && t in b' && s < t
      ensures Before(b', s, t)
    {
      TwoOrder(b, end, lo, mid, hi, s, t);
    }
  }

  lemma TwoBlocks(b: Blocks, end: nat, lo: nat, mid: nat, hi: nat, s: nat)
    requires Layout(b, end) && Region(b, end, lo, hi)
    requires lo + MIN_BLOCK <= mid && mid + MIN_BLOCK <= hi && s in Two(b, lo, mid, hi)
    ensures Sized(Two(b, lo, mid, hi), end, s) && Followed(Two(b, lo, mid, hi), end, s)
  {
    RegionSize(b, end, lo, hi);
    if s != lo && s != mid {
      assert Sized(b, end, s);
      OutsideRegion(b, end, lo, hi, s);
    }
  }

  lemma TwoOrder(b: Blocks, end: nat, lo: nat, mid: nat, hi: nat, s: nat, t: nat)
    requires Layout(b, end) && Region(b, end, lo, hi) && lo < mid < hi
    requires s in Two(b, lo, mid, hi) && t in Two(b, lo, mid, hi) && s < t
    ensures Before(Two(b, lo, mid, hi), s, t)
  {
    if s != lo && s != mid {
      OutsideRegion(b, end, lo, hi, s);
      if t != mid {
        assert Before(b, s, t);
      }
    }
  }

  /** What a rewrite of the words lo up to hi leaves alone. */
  ghost predicate SameOutside(m: Mem, m': Mem, lo: int, hi: int) {
    forall a :: 0 <= a < MEM_WORDS && !(lo <= a < hi) ==> m'[a] == m[a]
  }

  /** The free blocks of the region are off the lists, and no other block is. */
  ghost predicate Detached(b: Blocks, x: set<nat>, lo: nat, hi: nat) {
    && (forall t: nat {:trigger FreeAt(b, t)} :: FreeAt(b, t) && lo <= t < hi ==> t in x)
    && (forall t :: t in x ==> lo <= t < hi)
  }

  lemma RewriteChains(m: Mem, m': Mem, end: nat, b: Blocks, c: seq<seq<nat>>, x: set<nat>, lo: nat, hi: nat)
    requires Inv(m, end, b, c, x) && Region(b, end, lo, hi) && Detached(b, x, lo, hi) && SameOutside(m, m', lo, hi)
    ensures Chains(m', c)
  {
    forall i | 0 <= i < NUM_LISTS
      ensures Chain(m', c[i])
    {
      assert Chain(m, c[i]);
      forall k | 0 <= k < |c[i]|
        ensures m'[c[i][k]] == m[c[i][k]] && m'[c[i][k] + 1] == m[c[i][k] + 1]
      {
        ListedOutside(m, end, b, c, x, lo, hi, i, k);
      }
    }
  }

  lemma ListedOutside(m: Mem, end: nat, b: Blocks, c: seq<seq<nat>>, x: set<nat>, lo: nat, hi: nat, i: nat, k: nat)
    requires Inv(m, end, b, c, x) && Region(b, end, lo, hi) && Detached(b, x, lo, hi) && i < NUM_LISTS && k < |c[i]|
    ensures c[i][k] + 1 < lo || hi <= c[i][k]
  {
    var e := c[i][k];
    assert Chain(m, c[i]);
    RegionSize(b, end, lo, hi);
    if e < MAX_WORDS {
      assert OnList(c, i, e - 1);
      assert Sized(b, end, e - 1);
      OutsideRegion(b, end, lo, hi, e - 1);
    }
  }

  lemma TagsOutside(m: Mem, m': Mem, end: nat, b: Blocks, lo: nat, hi: nat, s: nat)
    requires Layout(b, end) && Tagged(m, b, end) && Region(b, end, lo, hi) && SameOutside(m, m', lo, hi)
    requires s in b && (s < lo || hi <= s)
    ensures TagPair(m', s, b[s])
  {
    assert TagPair(m, s, b[s]);
    OutsideRegion(b, end, lo, hi, s);
  }

  lemma OneTagged(m: Mem, m': Mem, end: nat, b: Blocks, lo: nat, hi: nat, used: bool)
    requires Layout(b, end) && Tagged(m, b, end) && Region(b, end, lo, hi) && SameOutside(m, m', lo, hi)
    requires hi < MAX_WORDS && m'[lo] == Tag(hi - lo, used) && m'[hi - 1] == Tag(hi - lo, used)
    ensures Tagged(m', One(b, lo, hi, used), end)
  {
    var b' := One(b, lo, hi, used);
    RegionSize(b, end, lo, hi);
    forall s | s in b'
      ensures TagPair(m', s, b'[s])
    {
      if s != lo {
        TagsOutside(m, m', end, b, lo, hi, s);
      }
    }
  }

  lemma TwoTagged(m: Mem, m': Mem, end: nat, b: Blocks, lo: nat, mid: nat, hi: nat)
    requires Layout(b, end) && Tagged(m, b, end) && Region(b, end, lo, hi) && SameOutside(m, m', lo, hi)
    requires lo < mid < hi < MAX_WORDS && m'[lo] == Tag(mid - lo, true) && m'[mid - 1] == Tag(mid - lo, true)
    requires m'[mid] == Tag(hi - mid, false) && m'[hi - 1] == Tag(hi - mid, false)
    ensures Tagged(m', Two(b, lo, mid, hi), end)
  {
    var b' := Two(b, lo, mid, hi);
    RegionSize(b, end, lo, hi);
    forall s | s in b'
      ensures TagPair(m', s, b'[s])
    {
      if s != lo && s != mid {
        TagsOutside(m, m', end, b, lo, hi, s);
      }
    }
  }

  /** The used blocks of the region are among those in live. */
  ghost predicate UsedWithin(b: Blocks, lo: nat, hi: nat, live: set<nat>) {
    forall t: nat {:trigger UsedAt(b, t)} :: UsedAt(b, t) && lo <= t < hi ==> t in live
  }

  lemma RewriteLive(m: Mem, m': Mem, end: nat, b: Blocks, b': Blocks, lo: nat, hi: nat, live: set<nat>)
    requires Layout(b, end) && Region(b, end, lo, hi) && SameOutside(m, m', lo, hi) && UsedWithin(b, lo, hi, live)
    requires forall t :: t in b && (t < lo || hi <= t) ==> t in b' && b'[t] == b[t]
    ensures LiveKept(m, b, m', b', live)
  {
    forall s: nat | UsedAt(b, s) && s !in live
      ensures UsedAt(b', s) && b'[s] == b[s] && SameWords(m, m', s + 1, s + b[s].n - 1)
    {
      OutsideRegion(b, end, lo, hi, s);
    }
  }

  lemma OneListed(b: Blocks, c: seq<seq<nat>>, x: set<nat>, lo: nat, hi: nat, used: bool)
    requires Listed(b, c, x) && lo < hi && Detached(b, x, lo, hi)
    ensures Listed(One(b, lo, hi, used), c, if used then {} else {lo})
  {
    var b' := One(b, lo, hi, used);
    forall s: nat | FreeAt(b', s) && s != lo
      ensures FreeAt(b, s) && s !in x && b'[s] == b[s]
    {
    }
    forall s: nat | FreeAt(b, s) && s !in x
      ensures FreeAt(b', s) && s != lo && b'[s] == b[s]
    {
    }
  }

  lemma TwoListed(b: Blocks, c: seq<seq<nat>>, x: set<nat>, lo: nat, mid: nat, hi: nat)
    requires Listed(b, c, x) && lo < mid < hi && Detached(b, x, lo, hi)
    ensures Listed(Two(b, lo, mid, hi), c, {mid})
  {
    var b' := Two(b, lo, mid, hi);
    forall s: nat | FreeAt(b', s) && s != mid
      ensures FreeAt(b, s) && s !in x && b'[s] == b[s]
    {
    }
    forall s: nat | FreeAt(b, s) && s !in x
      ensures FreeAt(b', s) && s != mid && b'[s] == b[s]
    {
    }
  }

  /** Rewriting a detached region as one block keeps the heap; a free result is still off the lists. */
  lemma RewriteOne(m: Mem, m': Mem, end: nat, b: Blocks, c: seq<seq<nat>>, x: set<nat>, lo: nat, hi: nat, used: bool,
                   live: set<nat>)
    requires Inv(m, end, b, c, x) && Region(b, end, lo, hi) && Detached(b, x, lo, hi) && SameOutside(m, m', lo, hi)
    requires hi < MAX_WORDS && m'[lo] == Tag(hi - lo, used) && m'[hi - 1] == Tag(hi - lo, used) &&
              UsedWithin(b, lo, hi, live)
    ensures Inv(m', end, One(b, lo, hi, used), c, if used then {} else {lo})
    ensures LiveKept(m, b, m', One(b, lo, hi, used), live)
  {
    OneLayout(b, end, lo, hi, used);
    OneAligned(b, end, lo, hi, used);
    OneTagged(m, m', end, b, lo, hi, used);
    RewriteChains(m, m', end, b, c, x, lo, hi);
    OneListed(b, c, x, lo, hi, used);
    RewriteLive(m, m', end, b, One(b, lo, hi, used), lo, hi, live);
  }

  /** Rewriting a detached region as a block in use and a free block, which is still off the lists. */
  lemma RewriteTwo(m: Mem, m': Mem, end: nat, b: Blocks, c: seq<seq<nat>>, x: set<nat>, lo: nat, mid: nat, hi: nat,
                   live: set<nat>)
    requires Inv(m, end, b, c, x) && Region(b, end, lo, hi) && Detached(b, x, lo, hi) && SameOutside(m, m', lo, hi)
    requires lo + MIN_BLOCK <= mid && mid + MIN_BLOCK <= hi < MAX_WORDS && mid % 2 == 1 && UsedWithin(b, lo, hi, live)
    requires m'[lo] == Tag(mid - lo, true) && m'[mid - 1] == Tag(mid - lo, true)
    requires m'[mid] == Tag(hi - mid, false) && m'[hi - 1] == Tag(hi - mid, false)
    ensures Inv(m', end, Two(b, lo, mid, hi), c, {mid})
    ensures LiveKept(m, b, m', Two(b, lo, mid, hi), live)
  {
    TwoLayout(b, end, lo, mid, hi);
    TwoAligned(b, end, lo, mid, hi);
    TwoTagged(m, m', end, b, lo, mid, hi);
    RewriteChains(m, m', end, b, c, x, lo, hi);
    TwoListed(b, c, x, lo, mid, hi);
    RewriteLive(m, m', end, b, Two(b, lo, mid, hi), lo, hi, live);
  }

  // ---------------------------------------------------------------- neighbours

  /** Walking forward from a block below t by sizes meets the block that ends at t. */
  lemma {:induction false} BlockEndingAt(b: Blocks, end: nat, from: nat, t: nat) returns (p: nat)
    requires Layout(b, end) && from in b && from < t && (t in b || t == end)
    ensures p in b && Adjacent(b, p, t)
    decreases t - from
  {
    assert Sized(b, end, from) && Followed(b, end, from);
    assert t in b ==> Before(b, from, t) && Sized(b, end, t);
    if from + b[from].n == t {
      p := from;
    } else {
      p := BlockEndingAt(b, end, from + b[from].n, t);
    }
  }

  lemma OnlyOneBelow(b: Blocks, end: nat, p: nat, q: nat, t: nat)
    requires Layout(b, end) && p in b && q in b && Adjacent(b, p, t) && Adjacent(b, q, t)
    ensures p == q
  {
    assert Sized(b, end, p) && Sized(b, end, q);
    assert (p < q ==> Before(b, p, q)) && (q < p ==> Before(b, q, p));
  }

  /** The block ending at s is free. */
  ghost predicate FreeBelow(b: Blocks, s: nat) {
    exists p {:trigger Adjacent(b, p, s)} :: p in b && Adjacent(b, p, s) && FreeAt(b, p)
  }

  /** The first word of the free run around s. */
  ghost function Lo(b: Blocks, s: nat): nat {
    if FreeBelow(b, s) then var p :| p in b && Adjacent(b, p, s) && FreeAt(b, p); p else s
  }

  /** The end of the free run around block s. */
  ghost function Hi(b: Blocks, s: nat): nat
    requires s in b
  {
    var t := s + b[s].n;
    if FreeAt(b, t) then t + b[t].n else t
  }

  /** Coalescing: the free block s becomes one block with its free neighbours. */
  ghost function Coalesced(b: Blocks, s: nat): Blocks
    requires s in b && Lo(b, s) < Hi(b, s)
  {
    One(b, Lo(b, s), Hi(b, s), false)
  }

  /** The word below a header is the front fence or the footer of the block below. */
  lemma TagBelow(m: Mem, end: nat, b: Blocks, s: nat)
    requires Layout(b, end) && Tagged(m, b, end) && s in b
    ensures FIRST <= s < MAX_WORDS && TagUsed(m[s - 1]) == !FreeBelow(b, s)
    ensures FreeBelow(b, s) ==> Lo(b, s) in b && TagSize(m[s - 1]) == s - Lo(b, s) == b[Lo(b, s)].n
  {
    assert Sized(b, end, s);
    if s == FIRST {
      forall p | p in b
        ensures !Adjacent(b, p, s)
      {
        assert Sized(b, end, p);
      }
    } else {
      var p := BlockEndingAt(b, end, FIRST, s);
      assert TagPair(m, p, b[p]);
      forall q | q in b && Adjacent(b, q, s)
        ensures q == p
      {
        OnlyOneBelow(b, end, p, q, s);
      }
      assert FreeAt(b, p) ==> FreeBelow(b, s);
    }
  }

  /** The word above a footer is the end fence or the header of the block above. */
  lemma TagAbove(m: Mem, end: nat, b: Blocks, s: nat)
    requires Layout(b, end) && Tagged(m, b, end) && s in b
    ensures s + b[s].n <= end < MAX_WORDS
    ensures TagUsed(m[s + b[s].n]) == !FreeAt(b, s + b[s].n)
    ensures TagSize(m[s + b[s].n]) == if s + b[s].n in b then b[s + b[s].n].n else 0
    ensures (m[s + b[s].n] == FENCE) == (s + b[s].n == end)
  {
    assert Sized(b, end, s) && Followed(b, end, s);
    var t := s + b[s].n;
    if t in b {
      assert Sized(b, end, t) && TagPair(m, t, b[t]);
    }
  }

  /** The free run around a free block is a region of at most three blocks. */
  lemma RunIsRegion(b: Blocks, end: nat, s: nat)
    requires Layout(b, end) && s in b
    ensures Lo(b, s) <= s < s + b[s].n <= Hi(b, s) && Region(b, end, Lo(b, s), Hi(b, s))
    ensures forall t :: t in b && Lo(b, s) <= t < Hi(b, s) ==> t == s || t == Lo(b, s) || t == s + b[s].n
    ensures s + b[s].n in b && s + b[s].n < Hi(b, s) ==> FreeAt(b, s + b[s].n)
    ensures Lo(b, s) != s ==> FreeAt(b, Lo(b, s)) && Adjacent(b, Lo(b, s), s)
  {
    var u := s + b[s].n;
    assert Sized(b, end, s) && Followed(b, end, s);
    if FreeAt(b, u) {
      assert Followed(b, end, u) && Sized(b, end, u);
    }
    forall t | t in b && Lo(b, s) <= t < Hi(b, s)
      ensures t == s || t == Lo(b, s) || t == u
    {
      assert s < t ==> Before(b, s, t);
      assert FreeAt(b, u) && u < t ==> Before(b, u, t);
      assert Lo(b, s) != s && Lo(b, s) < t ==> Before(b, Lo(b, s), t);
    }
  }

  /** The headers of the free run around s. */
  ghost function Run(b: Blocks, s: nat): set<nat>
    requires s in b
  {
    {s} + (if FreeBelow(b, s) then {Lo(b, s)} else {}) + (if FreeAt(b, s + b[s].n) then {s + b[s].n} else {})
  }

  lemma RunDetached(b: Blocks, end: nat, s: nat)
    requires Layout(b, end) && FreeAt(b, s)
    ensures Detached(b, Run(b, s), Lo(b, s), Hi(b, s)) && UsedWithin(b, Lo(b, s), Hi(b, s), {})
  {
    RunIsRegion(b, end, s);
    assert FreeAt(b, s + b[s].n) ==> Sized(b, end, s + b[s].n);
  }

  /** Rewriting a block as itself changes nothing. */
  lemma OneSame(b: Blocks, end: nat, s: nat)
    requires Layout(b, end) && s in b
    ensures b[s].n > 0 && One(b, s, s + b[s].n, b[s].used) == b
  {
    assert Sized(b, end, s);
    forall t | t in b && s < t
      ensures s + b[s].n <= t
    {
      assert Before(b, s, t);
    }
  }

  /** Once the run around s is one block, no two neighbours are free. */
  lemma CoalescedNoFreeNeighbours(b: Blocks, end: nat, s: nat)
    requires Layout(b, end) && FreeAt(b, s) && FreeNeighboursOnlyAt(b, s)
    ensures Lo(b, s) < Hi(b, s) && NoFreeNeighbours(Coalesced(b, s))
  {
    RunIsRegion(b, end, s);
    var lo, hi, b' := Lo(b, s), Hi(b, s), Coalesced(b, s);
    forall p, q | p in b' && q in b' && Adjacent(b', p, q)
      ensures b'[p].used || b'[q].used
    {
      if p == lo {
        AboveRun(b, end, s);
      } else {
        OutsideRegion(b, end, lo, hi, p);
        assert Adjacent(b, p, q);
        if q == lo {
          BelowRun(b, end, s, p);
        }
      }
    }
  }

  lemma AboveRun(b: Blocks, end: nat, s: nat)
    requires Layout(b, end) && FreeAt(b, s) && FreeNeighboursOnlyAt(b, s)
    ensures !FreeAt(b, Hi(b, s))
  {
    var u := s + b[s].n;
    assert Sized(b, end, s);
    if FreeAt(b, u) {
      assert Sized(b, end, u) && Adjacent(b, u, u + b[u].n);
    }
  }

  lemma BelowRun(b: Blocks, end: nat, s: nat, p: nat)
    requires Layout(b, end) && FreeAt(b, s) && FreeNeighboursOnlyAt(b, s) && p in b && Adjacent(b, p, Lo(b, s))
    ensures b[p].used
  {
    var lo := Lo(b, s);
    assert Sized(b, end, p) && Sized(b, end, lo);
    if lo == s {
      assert FreeAt(b, p) ==> FreeBelow(b, s);
    } else {
      RunIsRegion(b, end, s);
    }
  }

  // ---------------------------------------------------------------- extension

  ghost function Extended(b: Blocks, end: nat, n: nat): Blocks {
    b[end := Blk(n, false)]
  }

  lemma ExtendLayout(b: Blocks, end: nat, n: nat)
    requires Layout(b, end) && MIN_BLOCK <= n && end + n < MAX_WORDS
    ensures end !in b && Layout(Extended(b, end, n), end + n)
  {
    var b' := Extended(b, end, n);
    EndIsNoBlock(b, end);
    forall s | s in b'
      ensures Sized(b', end + n, s) && Followed(b', end + n, s)
    {
      ExtendBlocks(b, end, n, s);
    }
    forall s, t | s in b' && t in b' && s < t
      ensures Before(b', s, t)
    {
      ExtendOrder(b, end, n, s, t);
    }
  }

  lemma ExtendBlocks(b: Blocks, end: nat, n: nat, s: nat)
    requires Layout(b, end) && MIN_BLOCK <= n && s in Extended(b, end, n)
    ensures Sized(Extended(b, end, n), end + n, s) && Followed(Extended(b, end, n), end + n, s)
  {
    if s != end {
      assert Sized(b, end, s) && Followed(b, end, s);
    }
  }

  lemma ExtendAligned(b: Blocks, end: nat, n: nat)
    requires Aligned(b, end) && n % 2 == 0
    ensures Aligned(Extended(b, end, n), end + n)
  {
    var b' := Extended(b, end, n);
    forall s | s in b'
      ensures AlignedAt(b', s)
    {
      if s != end {
        assert AlignedAt(b, s);
      }
    }
  }

  lemma ExtendOrder(b: Blocks, end: nat, n: nat, s: nat, t: nat)
    requires Layout(b, end) && s in Extended(b, end, n) && t in Extended(b, end, n) && s < t
    ensures Before(Extended(b, end, n), s, t)
  {
    assert t in b ==> Sized(b, end, t);
    if s != end {
      assert Sized(b, end, s);
      assert t != end ==> Before(b, s, t);
    }
  }

  /** The old end fence becomes the header of a free block of n words, with a new fence behind it. */
  lemma ExtendStep(m: Mem, m': Mem, end: nat, b: Blocks, c: seq<seq<nat>>, n: nat)
    requires Inv(m, end, b, c, {}) && MIN_BLOCK <= n && n % 2 == 0 && end + n < MAX_WORDS
    requires SameOutside(m, m', end, end + n + 1)
    requires m'[end] == Tag(n, false) && m'[end + n - 1] == Tag(n, false) && m'[end + n] == FENCE
    ensures Inv(m', end + n, Extended(b, end, n), c, {end})
    ensures LiveKept(m, b, m', Extended(b, end, n), {})
  {
    var b' := Extended(b, end, n);
    ExtendLayout(b, end, n);
    ExtendAligned(b, end, n);
    forall s | s in b'
      ensures TagPair(m', s, b'[s])
    {
      if s != end {
        assert TagPair(m, s, b[s]) && Sized(b, end, s);
      }
    }
    forall s: nat | UsedAt(b, s)
      ensures UsedAt(b', s) && SameWords(m, m', s + 1, s + b[s].n - 1)
    {
      assert Sized(b, end, s);
    }
    ExtendChains(m, m', end, b, c, n);
    ExtendListed(b, c, end, n);
  }

  lemma ExtendListed(b: Blocks, c: seq<seq<nat>>, end: nat, n: nat)
    requires Listed(b, c, {}) && end !in b
    ensures Listed(Extended(b, end, n), c, {end})
  {
    var b' := Extended(b, end, n);
    forall s: nat | s != end
      ensures FreeAt(b', s) <==> FreeAt(b, s)
    {
    }
    assert !FreeAt(b, end);
  }

  lemma ExtendChains(m: Mem, m': Mem, end: nat, b: Blocks, c: seq<seq<nat>>, n: nat)
    requires Inv(m, end, b, c, {}) && end + n < MAX_WORDS && SameOutside(m, m', end, end + n + 1)
    ensures Chains(m', c)
  {
    forall i | 0 <= i < NUM_LISTS
      ensures Chain(m', c[i])
    {
      assert Chain(m, c[i]);
      forall k | 0 <= k < |c[i]|
        ensures m'[c[i][k]] == m[c[i][k]] && m'[c[i][k] + 1] == m[c[i][k] + 1]
      {
        if c[i][k] < MAX_WORDS {
          assert OnList(c, i, c[i][k] - 1);
          assert Sized(b, end, c[i][k] - 1);
        }
      }
    }
  }

  // ---------------------------------------------------------------- stores

  /** set_header_and_footer */
  function WithTags(m: Mem, s: nat, n: nat, used: bool): Mem
    requires 0 < n && s + n <= MAX_WORDS
  {
    m[s := Tag(n, used)][s + n - 1 := Tag(n, used)]
  }

  /** mark_block_free: tags, and null links in the payload. */
  function MarkedFree(m: Mem, s: nat, n: nat): Mem
    requires 4 <= n && s + n <= MAX_WORDS
  {
    WithTags(m, s, n, false)[s + 1 := NULL][s + 2 := NULL]
  }

  /** mark_block_free over a run of blocks that are in use or off the lists. */
  lemma MergeStep(m: Mem, end: nat, b: Blocks, c: seq<seq<nat>>, x: set<nat>, lo: nat, n: nat, live: set<nat>)
    requires Inv(m, end, b, c, x) && Region(b, end, lo, lo + n) && Detached(b, x, lo, lo + n) &&
              UsedWithin(b, lo, lo + n, live)
    ensures MIN_BLOCK <= n && lo + n < MAX_WORDS
    ensures Inv(MarkedFree(m, lo, n), end, One(b, lo, lo + n, false), c, {lo})
    ensures LiveKept(m, b, MarkedFree(m, lo, n), One(b, lo, lo + n, false), live)
  {
    RegionSize(b, end, lo, lo + n);
    RewriteOne(m, MarkedFree(m, lo, n), end, b, c, x, lo, lo + n, false, live);
  }

  /** mark_block_free of a merged block leaves the footer of the block below s in place: a block has eight words. */
  lemma StaleFooter(m: Mem, end: nat, b: Blocks, s: nat, n: nat)
    requires Layout(b, end) && s in b && FreeBelow(b, s) && Lo(b, s) + n <= MAX_WORDS && s < Lo(b, s) + n
    ensures Lo(b, s) in b && 4 <= n && 1 <= s && MarkedFree(m, Lo(b, s), n)[s - 1] == m[s - 1]
  {
    assert Sized(b, end, Lo(b, s));
  }

  /** Once the blocks of the free run around s are off their lists, mark_block_free makes them one block. */
  lemma JoinStep(m: Mem, end: nat, b: Blocks, c: seq<seq<nat>>, s: nat)
    requires FreeAt(b, s) && Inv(m, end, b, c, Run(b, s))
    ensures Lo(b, s) + MIN_BLOCK <= Hi(b, s) < MAX_WORDS
    ensures Inv(MarkedFree(m, Lo(b, s), Hi(b, s) - Lo(b, s)), end, Coalesced(b, s), c, {Lo(b, s)})
    ensures LiveKept(m, b, MarkedFree(m, Lo(b, s), Hi(b, s) - Lo(b, s)), Coalesced(b, s), {})
    ensures FreeBelow(b, s) ==> 1 <= s && MarkedFree(m, Lo(b, s), Hi(b, s) - Lo(b, s))[s - 1] == m[s - 1]
  {
    var lo, hi := Lo(b, s), Hi(b, s);
    RunIsRegion(b, end, s);
    RunDetached(b, end, s);
    RegionSize(b, end, lo, hi);
    MergeStep(m, end, b, c, Run(b, s), lo, hi - lo, {});
    if FreeBelow(b, s) {
      StaleFooter(m, end, b, s, hi - lo);
    }
  }

  // ---------------------------------------------------------------- kfree

  /** Between a header and the end of its block there is no other header. */
  lemma SingleBlock(b: Blocks, end: nat, s: nat)
    requires Layout(b, end) && s in b
    ensures s < s + b[s].n && Region(b, end, s, s + b[s].n)
    ensures forall t :: t in b && s <= t < s + b[s].n ==> t == s
  {
    assert Sized(b, end, s) && Followed(b, end, s);
    forall t | t in b && s < t
      ensures s + b[s].n <= t
    {
      assert Before(b, s, t);
    }
  }

  /** mark_block_free of a block in use. */
  lemma FreeStep(m: Mem, end: nat, b: Blocks, c: seq<seq<nat>>, s: nat)
    requires Inv(m, end, b, c, {}) && UsedAt(b, s)
    ensures MIN_BLOCK <= b[s].n && s + b[s].n < MAX_WORDS
    ensures Inv(MarkedFree(m, s, b[s].n), end, Released(b, s), c, {s})
    ensures LiveKept(m, b, MarkedFree(m, s, b[s].n), Released(b, s), {s})
  {
    SingleBlock(b, end, s);
    assert Sized(b, end, s);
    MergeStep(m, end, b, c, {}, s, b[s].n, {s});
    SameBlocks(b, end, s);
  }

  /** The block s is no longer in use. */
  ghost function Released(b: Blocks, s: nat): Blocks
    requires s in b
  {
    b[s := Blk(b[s].n, false)]
  }

  lemma SameBlocks(b: Blocks, end: nat, s: nat)
    requires Layout(b, end) && s in b
    ensures b[s].n > 0 && One(b, s, s + b[s].n, false) == Released(b, s)
  {
    SingleBlock(b, end, s);
  }

  lemma ReleasedNeighbours(b: Blocks, s: nat)
    requires s in b && NoFreeNeighbours(b)
    ensures FreeNeighboursOnlyAt(Released(b, s), s)
  {
    var b' := Released(b, s);
    forall p, q | p in b' && q in b' && Adjacent(b', p, q) && !b'[p].used && !b'[q].used
      ensures p == s || q == s
    {
      assert Adjacent(b, p, q);
    }
  }

  /** kfree of the block s turns the layout b into b'. */
  ghost predicate FreedFrom(b: Blocks, s: nat, b': Blocks) {
    s in b && var r := Released(b, s); Lo(r, s) < Hi(r, s) && b' == Coalesced(r, s)
  }

  // ---------------------------------------------------------------- place

  /** The layout after a block of a words is placed in the free block s. */
  ghost function Placed(b: Blocks, s: nat, a: nat): Blocks
    requires s in b && 0 < a <= b[s].n
  {
    if b[s].n - a >= MIN_BLOCK then Two(b, s, s + a, s + b[s].n) else One(b, s, s + b[s].n, true)
  }

  /** Storing the tags of a block in use up to mid and of a free block up to hi. */
  function Carved(m: Mem, lo: nat, mid: nat, hi: nat): Mem
    requires lo < mid && mid + 4 <= hi <= MAX_WORDS
  {
    MarkedFree(WithTags(m, lo, mid - lo, true), mid, hi - mid)
  }

  /** Re-tagging a detached region, whose words may have been moved, as a block in use and a free one. */
  lemma CarveStep(m: Mem, m1: Mem, end: nat, b: Blocks, c: seq<seq<nat>>, x: set<nat>, lo: nat, mid: nat, hi: nat,
                  live: set<nat>)
    requires Inv(m, end, b, c, x) && Region(b, end, lo, hi) && Detached(b, x, lo, hi) && SameOutside(m, m1, lo, hi)
    requires lo + MIN_BLOCK <= mid && mid + MIN_BLOCK <= hi && mid % 2 == 1 && UsedWithin(b, lo, hi, live)
    ensures hi < MAX_WORDS && Inv(Carved(m1, lo, mid, hi), end, Two(b, lo, mid, hi), c, {mid})
    ensures LiveKept(m, b, Carved(m1, lo, mid, hi), Two(b, lo, mid, hi), live)
  {
    RegionSize(b, end, lo, hi);
    RewriteTwo(m, Carved(m1, lo, mid, hi), end, b, c, x, lo, mid, hi, live);
  }

  lemma BlockDetached(b: Blocks, end: nat, s: nat)
    requires Layout(b, end) && FreeAt(b, s)
    ensures Region(b, end, s, s + b[s].n) && Detached(b, {s}, s, s + b[s].n) && UsedWithin(b, s, s + b[s].n, {})
  {
    SingleBlock(b, end, s);
  }

  lemma PlaceStep(m: Mem, end: nat, b: Blocks, c: seq<seq<nat>>, s: nat, a: nat)
    requires Inv(m, end, b, c, {s}) && FreeAt(b, s) && MIN_BLOCK <= a <= b[s].n && a % 2 == 0
    ensures s + b[s].n < MAX_WORDS
    ensures b[s].n - a >= MIN_BLOCK ==>
              && Inv(Carved(m, s, s + a, s + b[s].n), end, Placed(b, s, a), c, {s + a})
              && LiveKept(m, b, Carved(m, s, s + a, s + b[s].n), Placed(b, s, a), {})
    ensures b[s].n - a < MIN_BLOCK ==>
              && Inv(WithTags(m, s, b[s].n, true), end, Placed(b, s, a), c, {})
              && LiveKept(m, b, WithTags(m, s, b[s].n, true), Placed(b, s, a), {})
  {
    var hi := s + b[s].n;
    assert Sized(b, end, s) && AlignedAt(b, s);
    BlockDetached(b, end, s);
    if b[s].n - a >= MIN_BLOCK {
      CarveStep(m, m, end, b, c, {s}, s, s + a, hi, {});
    } else {
      RewriteOne(m, WithTags(m, s, b[s].n, true), end, b, c, {s}, s, hi, true, {});
    }
  }

  lemma PlacedNeighbours(b: Blocks, end: nat, s: nat, a: nat)
    requires Layout(b, end) && FreeAt(b, s) && NoFreeNeighbours(b) && 0 < a <= b[s].n
    ensures NoFreeNeighbours(Placed(b, s, a))
  {
    var b', hi := Placed(b, s, a), s + b[s].n;
    SingleBlock(b, end, s);
    forall p, q | p in b' && q in b' && Adjacent(b', p, q)
      ensures b'[p].used || b'[q].used
    {
      if p == s + a && p != hi {
        assert Adjacent(b, s, q);
      } else if p != s {
        assert Adjacent(b, p, q);
        OutsideRegion(b, end, s, hi, p);
      }
    }
  }

  // ---------------------------------------------------------------- extend_heap

  /** extend_heap's stores: a free block over the old end fence, and a new fence. */
  function Grown(m: Mem, end: nat, n: nat): Mem
    requires 4 <= n && end + n < MAX_WORDS
  {
    MarkedFree(m, end, n)[end + n := FENCE]
  }

  lemma GrowStep(m: Mem, end: nat, b: Blocks, c: seq<seq<nat>>, n: nat)
    requires Inv(m, end, b, c, {}) && MIN_BLOCK <= n && n % 2 == 0 && end + n < MAX_WORDS
    ensures end !in b && Inv(Grown(m, end, n), end + n, Extended(b, end, n), c, {end})
    ensures LiveKept(m, b, Grown(m, end, n), Extended(b, end, n), {})
  {
    ExtendLayout(b, end, n);
    ExtendStep(m, Grown(m, end, n), end, b, c, n);
  }

  lemma ExtendedNeighbours(b: Blocks, end: nat, n: nat)
    requires Layout(b, end) && NoFreeNeighbours(b) && n > 0
    ensures end !in b && FreeNeighboursOnlyAt(Extended(b, end, n), end)
  {
    var b' := Extended(b, end, n);
    EndIsNoBlock(b, end);
    forall p, q | p in b' && q in b' && Adjacent(b', p, q) && !b'[p].used && !b'[q].used
      ensures p == end || q == end
    {
      if p != end && q != end {
        assert Adjacent(b, p, q);
      }
    }
  }

  lemma EndIsNoBlock(b: Blocks, end: nat)
    requires Layout(b, end)
    ensures end !in b
  {
    forall s | s in b
      ensures s < end
    {
      assert Sized(b, end, s);
    }
  }

  /** extend_heap by n words turns the layout b into b', with the new free block at r. */
  ghost predicate GrownTo(b: Blocks, end: nat, n: nat, b': Blocks, r: nat) {
    var e := Extended(b, end, n);
    Lo(e, end) < Hi(e, end) && b' == Coalesced(e, end) && r == Lo(e, end)
  }

  /** The block that extend_heap returns is free and has at least n words. */
  lemma GrownBlock(b: Blocks, end: nat, n: nat)
    requires Layout(b, end) && MIN_BLOCK <= n && end + n < MAX_WORDS
    ensures var e := Extended(b, end, n);
            && Lo(e, end) <= end && Hi(e, end) == end + n
            && FreeAt(Coalesced(e, end), Lo(e, end)) && Coalesced(e, end)[Lo(e, end)].n >= n
  {
    var e := Extended(b, end, n);
    ExtendLayout(b, end, n);
    RunIsRegion(e, end + n, end);
    EndIsNoBlock(e, end + n);
  }

  // ---------------------------------------------------------------- find_fit

  lemma SegMonotone(x: nat, y: nat)
    requires Seg(x) < Seg(y)
    ensures x < y
  {
  }

  /**
    find_fit's answer is NULL: no list of a larger class has a block, and the first 13 of its own
    class are too small.
  */
  ghost predicate NoFit(b: Blocks, c: seq<seq<nat>>, a: nat)
    requires |c| == NUM_LISTS
  {
    && (forall i :: Seg(a) < i < NUM_LISTS ==> |c[i]| == 2)
    && (forall k :: 1 <= k <= 13 && k < |c[Seg(a)]| - 1 ==> !BigEnough(b, c[Seg(a)][k], a))
  }

  /** The block with list element e has at least a words. */
  ghost predicate BigEnough(b: Blocks, e: nat, a: nat) {
    e >= 1 && e - 1 in b && b[e - 1].n >= a
  }

  /** The k-th element of list i belongs to a free block of that class. */
  lemma ElementBlock(m: Mem, end: nat, b: Blocks, c: seq<seq<nat>>, i: nat, k: nat)
    requires Inv(m, end, b, c, {}) && i < NUM_LISTS && 0 < k < |c[i]| - 1
    ensures c[i][k] >= 1 && FreeAt(b, c[i][k] - 1) && Seg(b[c[i][k] - 1].n) == i
    ensures c[i][k] < MAX_WORDS && m[c[i][k] + 1] == c[i][k + 1]
    ensures b[c[i][k] - 1].n < MAX_WORDS && m[c[i][k] - 1] == TagOf(b[c[i][k] - 1])
  {
    assert Chain(m, c[i]) && Ends(c[i], i);
    assert m[c[i][k] + 1] == c[i][k + 1];
    var s := c[i][k] - 1;
    assert OnList(c, i, s);
    assert TagPair(m, s, b[s]);
  }

  /** The first element of list i, or its tail. */
  lemma FirstElement(m: Mem, c: seq<seq<nat>>, i: nat)
    requires Chains(m, c) && i < NUM_LISTS
    ensures |c[i]| >= 2 && m[Head(i) + 1] == c[i][1] && c[i][|c[i]| - 1] == Tail(i)
    ensures forall k :: 0 < k < |c[i]| - 1 ==> c[i][k] < MAX_WORDS
  {
    assert Chain(m, c[i]) && Ends(c[i], i);
    assert m[c[i][0] + 1] == c[i][1];
  }

  // ---------------------------------------------------------------- results

  /** Two blocks do not overlap. */
  lemma BlocksDisjoint(b: Blocks, end: nat, s: nat, t: nat)
    requires Layout(b, end) && s in b && t in b && s != t
    ensures s + b[s].n <= t || t + b[t].n <= s
  {
    assert (s < t ==> Before(b, s, t)) && (t < s ==> Before(b, t, s));
  }

  /** The blocks tile the heap: every word between the fences lies in exactly one of them. */
  lemma {:induction false} BlockCovering(b: Blocks, end: nat, from: nat, a: nat) returns (s: nat)
    requires Layout(b, end) && from in b && from <= a < end
    ensures s in b && s <= a < s + b[s].n
    ensures forall t :: t in b && t <= a < t + b[t].n ==> t == s
    decreases a - from
  {
    assert Sized(b, end, from) && Followed(b, end, from);
    if a < from + b[from].n {
      s := from;
      forall t | t in b && t <= a < t + b[t].n
        ensures t == s
      {
        if t != s {
          BlocksDisjoint(b, end, s, t);
        }
      }
    } else {
      s := BlockCovering(b, end, from + b[from].n, a);
    }
  }

  /** kfree right after place restores the layout: the split remainder is always merged back. */
  lemma PlaceThenFree(b: Blocks, end: nat, s: nat, a: nat)
    requires Layout(b, end) && NoFreeNeighbours(b) && FreeAt(b, s) && MIN_BLOCK <= a <= b[s].n
    ensures FreedFrom(Placed(b, s, a), s, b)
  {
    var p := Placed(b, s, a);
    var r := Released(p, s);
    SingleBlock(b, end, s);
    assert !FreeBelow(r, s) by {
      forall q | q in r && Adjacent(r, q, s)
        ensures !FreeAt(r, q)
      {
        assert q in b && Adjacent(b, q, s);
      }
    }
    var hi := s + b[s].n;
    assert FreeAt(r, hi) ==> hi in b && Adjacent(b, s, hi);
    assert Hi(r, s) == hi;
    assert Coalesced(r, s) == b;
  }

  // ---------------------------------------------------------------- krealloc

  /** Cutting a region makes free neighbours at the cut only, and none if the block above the region is in use. */
  lemma TwoNeighbours(b: Blocks, end: nat, lo: nat, mid: nat, hi: nat)
    requires Layout(b, end) && NoFreeNeighbours(b) && Region(b, end, lo, hi) && lo < mid < hi
    ensures FreeNeighboursOnlyAt(Two(b, lo, mid, hi), mid)
    ensures !FreeAt(b, hi) ==> NoFreeNeighbours(Two(b, lo, mid, hi))
  {
    var b' := Two(b, lo, mid, hi);
    forall p, q | p in b' && q in b' && Adjacent(b', p, q) && !b'[p].used && !b'[q].used
      ensures p == mid || q == mid
      ensures FreeAt(b, hi)
    {
      if p != mid {
        OutsideRegion(b, end, lo, hi, p);
        assert Adjacent(b, p, q);
      }
    }
  }

  /** A block in use is a region of its own. */
  lemma UsedRegion(b: Blocks, end: nat, s: nat)
    requires Layout(b, end) && UsedAt(b, s)
    ensures Region(b, end, s, s + b[s].n) && Detached(b, {}, s, s + b[s].n) && UsedWithin(b, s, s + b[s].n, {s})
  {
    SingleBlock(b, end, s);
  }

  /** A block in use and the free block above it. */
  lemma UsedThenFree(b: Blocks, end: nat, s: nat)
    requires Layout(b, end) && UsedAt(b, s) && FreeAt(b, s + b[s].n)
    ensures var u := s + b[s].n; var hi := u + b[u].n;
            Region(b, end, s, hi) && Detached(b, {u}, s, hi) && UsedWithin(b, s, hi, {s}) && u < hi
  {
    SingleBlock(b, end, s);
    SingleBlock(b, end, s + b[s].n);
  }

  /** A free block and the block in use above it. */
  lemma FreeThenUsed(b: Blocks, end: nat, p: nat)
    requires Layout(b, end) && FreeAt(b, p) && UsedAt(b, p + b[p].n)
    ensures var s := p + b[p].n; var hi := s + b[s].n;
            Region(b, end, p, hi) && Detached(b, {p}, p, hi) && UsedWithin(b, p, hi, {s}) && p < s < hi
  {
    SingleBlock(b, end, p);
    SingleBlock(b, end, p + b[p].n);
  }

  /** A block in use between two free blocks. */
  lemma FreeUsedFree(b: Blocks, end: nat, p: nat, s: nat)
    requires Layout(b, end) && FreeAt(b, p) && Adjacent(b, p, s) && UsedAt(b, s) && FreeAt(b, s + b[s].n)
    ensures var u := s + b[s].n; var hi := u + b[u].n;
            Region(b, end, p, hi) && Detached(b, {p, u}, p, hi) && UsedWithin(b, p, hi, {s}) && p < s < u < hi
  {
    SingleBlock(b, end, p);
    SingleBlock(b, end, s);
    SingleBlock(b, end, s + b[s].n);
  }

  /** Coalescing puts no block in use. */
  lemma CoalescedUsed(b: Blocks, s: nat, t: nat)
    requires s in b && Lo(b, s) < Hi(b, s) && UsedAt(Coalesced(b, s), t)
    ensures UsedAt(b, t)
  {
  }

  /** Where krealloc puts block s, resized to a words, in the room of its free neighbours; 0 if there is not enough. */
  ghost function Roomy(b: Blocks, s: nat, a: nat): nat
    requires s in b
  {
    var n, lo, u := b[s].n, Lo(b, s), s + b[s].n;
    var below := if FreeBelow(b, s) && lo in b then b[lo].n else 0;
    var above := if FreeAt(b, u) then b[u].n else 0;
    if !FreeBelow(b, s) then (if FreeAt(b, u) && a + MIN_BLOCK <= n + above then s else 0)
    else if FreeAt(b, u) && a + MIN_BLOCK <= below + n + above then lo
    else if a + MIN_BLOCK <= below + n then lo
    else 0
  }

  /** Where krealloc puts block s, resized to a words, without allocating; 0 if it has to allocate. */
  ghost function InPlace(b: Blocks, s: nat, a: nat): nat
    requires s in b
  {
    if a == b[s].n || a + MIN_BLOCK <= b[s].n then s else Roomy(b, s, a)
  }

  /** There is room if and only if a neighbour is free and the run of the block with its neighbours is long enough. */
  lemma RoomyIs(b: Blocks, s: nat, a: nat)
    requires s in b
    ensures Roomy(b, s, a) ==
            if (FreeBelow(b, s) || FreeAt(b, s + b[s].n)) && Lo(b, s) + a + MIN_BLOCK <= Hi(b, s) then Lo(b, s) else 0
  {
    if FreeBelow(b, s) {
      var p := Lo(b, s);
      assert p in b && Adjacent(b, p, s) && FreeAt(b, p);
    }
  }

  lemma InPlaceIs(b: Blocks, s: nat, a: nat, below: bool, above: bool)
    requires s in b && below == FreeBelow(b, s) && above == FreeAt(b, s + b[s].n)
    ensures InPlace(b, s, a) ==
            if a == b[s].n || a + MIN_BLOCK <= b[s].n then s else if below || above then Roomy(b, s, a) else 0
  {
  }

  lemma GrowRightFacts(b: Blocks, end: nat, s: nat, a: nat)
    requires Layout(b, end) && Aligned(b, end) && NoFreeNeighbours(b) && UsedAt(b, s) && FreeAt(b, s + b[s].n)
    requires a % 2 == 0 && 0 < a < b[s].n + b[s + b[s].n].n
    ensures var u := s + b[s].n; var hi := u + b[u].n;
            && Region(b, end, s, hi) && Detached(b, {u}, s, hi) && UsedWithin(b, s, hi, {s})
            && NoFreeNeighbours(Two(b, s, s + a, hi)) && (s + a) % 2 == 1
            && MIN_BLOCK <= b[s].n && s < u < hi < MAX_WORDS
  {
    var u := s + b[s].n;
    assert Sized(b, end, s) && Sized(b, end, u) && AlignedAt(b, s);
    UsedThenFree(b, end, s);
    assert Adjacent(b, u, u + b[u].n);
    TwoNeighbours(b, end, s, s + a, u + b[u].n);
  }

  lemma SlideFacts(b: Blocks, end: nat, p: nat, s: nat, a: nat)
    requires Layout(b, end) && Aligned(b, end) && NoFreeNeighbours(b) && FreeAt(b, p) && Adjacent(b, p, s) &&
              UsedAt(b, s)
    requires a % 2 == 0 && 0 < a < b[p].n + b[s].n
    ensures var hi := s + b[s].n;
            && Region(b, end, p, hi) && Detached(b, {p}, p, hi) && UsedWithin(b, p, hi, {s})
            && FreeNeighboursOnlyAt(Two(b, p, p + a, hi), p + a) && (p + a) % 2 == 1
            && MIN_BLOCK <= b[s].n && p < s < hi < MAX_WORDS
  {
    assert Sized(b, end, s) && Sized(b, end, p) && AlignedAt(b, p);
    FreeThenUsed(b, end, p);
    TwoNeighbours(b, end, p, p + a, s + b[s].n);
  }

  lemma SlideBothFacts(b: Blocks, end: nat, p: nat, s: nat, a: nat)
    requires Layout(b, end) && Aligned(b, end) && NoFreeNeighbours(b) && FreeAt(b, p) && Adjacent(b, p, s) &&
              UsedAt(b, s)
    requires FreeAt(b, s + b[s].n) && a % 2 == 0 && 0 < a < b[p].n + b[s].n + b[s + b[s].n].n
    ensures var u := s + b[s].n; var hi := u + b[u].n;
            && Region(b, end, p, hi) && Detached(b, {p, u}, p, hi) && UsedWithin(b, p, hi, {s})
            && NoFreeNeighbours(Two(b, p, p + a, hi)) && (p + a) % 2 == 1
            && MIN_BLOCK <= b[s].n && p < s < u < hi < MAX_WORDS
  {
    var u := s + b[s].n;
    assert Sized(b, end, s) && Sized(b, end, p) && Sized(b, end, u) && AlignedAt(b, p);
    FreeUsedFree(b, end, p, s);
    assert Adjacent(b, u, u + b[u].n);
    TwoNeighbours(b, end, p, p + a, u + b[u].n);
  }

  /** A freed block is not in use. */
  lemma FreedNotUsed(b: Blocks, s: nat, b': Blocks)
    requires FreedFrom(b, s, b')
    ensures !UsedAt(b', s)
  {
    if UsedAt(b', s) {
      CoalescedUsed(Released(b, s), s, s);
    }
  }

  // ---------------------------------------------------------------- initKernelHeap

  lemma InitialHeap(m: Mem)
    requires forall i {:trigger EmptyChain(i)} :: 0 <= i < NUM_LISTS ==> Chain(m, EmptyChain(i))
    requires m[FIRST - 1] == FENCE && m[FIRST] == FENCE
    ensures Inv(m, FIRST, map[], EmptyChains(), {}) && NoFreeNeighbours(map[])
  {
    var c := EmptyChains();
    forall i | 0 <= i < NUM_LISTS
      ensures Chain(m, c[i]) && Ends(c[i], i)
    {
      assert c[i] == EmptyChain(i);
    }
    forall i: nat, s: nat | i < NUM_LISTS
      ensures !OnList(c, i, s)
    {
      assert c[i] == EmptyChain(i);
    }
    forall i, j | 0 <= i < j < NUM_LISTS
      ensures Apart(c[i], c[j])
    {
      assert c[i] == EmptyChain(i) && c[j] == EmptyChain(j);
    }
  }

  lemma InitialLayout(b: Blocks, r: nat)
    requires GrownTo(map[], FIRST, 36, b, r)
    ensures b == map[FIRST := Blk(36, false)]
  {
    var e := Extended(map[], FIRST, 36);
    assert !FreeBelow(e, FIRST);
    assert b == e;
  }
}

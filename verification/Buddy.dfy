/**
 The buddy bitmaps of kernel/mm/pmm/pmm.c as values: seven rows of bits, each half as long as the
 row below it, where a clear bit marks a free block of 2^level pages.
 */
module Buddy {
  import opened Machine

  const LEVELS: nat := 7
  const TOP: nat := 6

  /** A set bit is true. */
  type Bits = seq<seq<bool>>

  ghost predicate Shape(g: Bits) {
    |g| == LEVELS && forall l {:trigger Halves(g, l)} :: 0 <= l < TOP ==> Halves(g, l)
  }

  ghost predicate Halves(g: Bits, l: nat)
    requires l + 1 < |g|
  {
    |g[l]| == 2 * |g[l + 1]|
  }

  /** The bit (l, j) is clear: block j of level l is free as a whole. */
  predicate Clear(g: Bits, l: nat, j: nat) {
    l < |g| && j < |g[l]| && !g[l][j]
  }

  function One(b: bool): nat {
    if b then 1 else 0
  }

  /** How many of the blocks that cover block j of level l, itself included, are marked free. */
  ghost function Cover(g: Bits, l: nat, j: nat): nat
    decreases LEVELS - l, j
  {
    if l >= LEVELS then 0 else One(Clear(g, l, j)) + Cover(g, l + 1, j / 2)
  }

  /** No block is marked free twice. */
  ghost predicate Partition(g: Bits) {
    forall l: nat, j: nat {:trigger Cover(g, l, j)} :: Cover(g, l, j) <= 1
  }

  /** The block d levels up that covers block j. */
  function Up(j: nat, d: nat): nat
    decreases d
  {
    if d == 0 then j else Up(j / 2, d - 1)
  }

  lemma {:induction false} UpStep(j: nat, d: nat)
    ensures Up(j, d + 1) == Up(j, d) / 2
  {
    if d != 0 {
      UpStep(j / 2, d - 1);
    }
  }

  /** The first page of block j of level l. */
  function Start(l: nat, j: nat): nat {
    if l == 0 then j else Start(l - 1, 2 * j)
  }

  lemma {:induction false} StartNext(l: nat, j: nat)
    ensures Start(l, j + 1) == Start(l, j) + Pow2(l)
  {
    if l != 0 {
      StartNext(l - 1, 2 * j);
      StartNext(l - 1, 2 * j + 1);
    }
  }

  lemma {:induction false} StartIsMultiple(l: nat, j: nat)
    ensures Start(l, j) == j * Pow2(l)
  {
    if l != 0 {
      StartIsMultiple(l - 1, 2 * j);
      var q := Pow2(l - 1);
      assert (2 * j) * q == j * (2 * q);
    }
  }

  /** Block j of level l covers exactly the 2^l pages from its start on. */
  lemma {:induction false} UpRange(p: nat, l: nat, j: nat)
    ensures Up(p, l) == j <==> Start(l, j) <= p < Start(l, j) + Pow2(l)
  {
    if l != 0 {
      UpStep(p, l - 1);
      UpRange(p, l - 1, 2 * j);
      UpRange(p, l - 1, 2 * j + 1);
      StartNext(l - 1, 2 * j);
    }
  }

  // ---------------------------------------------------------------- changing a bit

  function WithBit(g: Bits, l: nat, j: nat, v: bool): Bits
    requires l < |g| && j < |g[l]|
  {
    g[l := g[l][j := v]]
  }

  lemma WithBitShape(g: Bits, l: nat, j: nat, v: bool)
    requires Shape(g) && l < LEVELS && j < |g[l]|
    ensures Shape(WithBit(g, l, j, v)) && forall i :: 0 <= i < LEVELS ==> |WithBit(g, l, j, v)[i]| == |g[i]|
  {
    var g' := WithBit(g, l, j, v);
    forall i | 0 <= i < TOP
      ensures Halves(g', i)
    {
      assert Halves(g, i);
    }
  }

  lemma WithBitClear(g: Bits, l: nat, j: nat, v: bool, i: nat, k: nat)
    requires l < |g| && j < |g[l]|
    ensures Clear(WithBit(g, l, j, v), i, k) == if i == l && k == j then !v else Clear(g, i, k)
  {
  }

  /** Changing the bit (l, j) changes the cover of exactly the blocks below it, by one. */
  lemma {:induction false} WithBitCover(g: Bits, l: nat, j: nat, v: bool, i: nat, k: nat)
    requires l < |g| == LEVELS && j < |g[l]|
    ensures i <= l && Up(k, l - i) == j ==>
              Cover(WithBit(g, l, j, v), i, k) == Cover(g, i, k) + One(!v) - One(Clear(g, l, j))
    ensures !(i <= l && Up(k, l - i) == j) ==> Cover(WithBit(g, l, j, v), i, k) == Cover(g, i, k)
    decreases LEVELS - i
  {
    if i < LEVELS {
      WithBitClear(g, l, j, v, i, k);
      WithBitCover(g, l, j, v, i + 1, k / 2);
    }
  }

  // ---------------------------------------------------------------- counting

  /** The number of clear bits in a row. */
  ghost function Count(s: seq<bool>): nat {
    if s == [] then 0 else Count(s[..|s| - 1]) + One(!s[|s| - 1])
  }

  lemma {:induction false} CountUpdate(s: seq<bool>, j: nat, v: bool)
    requires j < |s|
    ensures Count(s[j := v]) == Count(s) + One(!v) - One(!s[j])
  {
    var t := s[j := v];
    if j == |s| - 1 {
      assert t[..|s| - 1] == s[..|s| - 1];
    } else {
      assert t[..|s| - 1] == s[..|s| - 1][j := v];
      CountUpdate(s[..|s| - 1], j, v);
    }
  }

  /** The pages marked free, counted by levels: row l counts 2^l for each clear bit. */
  function Weigh(f: seq<nat>, l: nat): nat
    requires |f| == LEVELS
    decreases LEVELS - l, f
  {
    if l >= LEVELS then 0 else f[l] + 2 * Weigh(f, l + 1)
  }

  /** One more clear bit at level l weighs 2^l pages more. */
  lemma {:induction false} WeighMore(f: seq<nat>, l: nat, i: nat)
    requires |f| == LEVELS && i <= l < LEVELS
    ensures Weigh(f[l := f[l] + 1], i) == Weigh(f, i) + Pow2(l - i)
    decreases LEVELS - i
  {
    var f': seq<nat> := f[l := f[l] + 1];
    if i == l {
      WeighAbove(f, l, f[l] + 1, l + 1);
    } else {
      WeighMore(f, l, i + 1);
      assert Weigh(f', i) == f[i] + 2 * Weigh(f', i + 1);
    }
  }

  lemma WeighLess(f: seq<nat>, l: nat, i: nat)
    requires |f| == LEVELS && i <= l < LEVELS && f[l] > 0
    ensures Weigh(f[l := f[l] - 1], i) == Weigh(f, i) - Pow2(l - i)
  {
    var f': seq<nat> := f[l := f[l] - 1];
    assert f'[l := f'[l] + 1] == f;
    WeighMore(f', l, i);
  }

  lemma {:induction false} WeighAbove(f: seq<nat>, l: nat, x: nat, i: nat)
    requires |f| == LEVELS && l < i && l < LEVELS
    ensures Weigh(f[l := x], i) == Weigh(f, i)
    decreases LEVELS - i
  {
    if i < LEVELS {
      WeighAbove(f, l, x, i + 1);
    }
  }

  /** Each counter is the number of clear bits in its row. */
  ghost predicate Counted(g: Bits, f: seq<nat>) {
    |g| == LEVELS && |f| == LEVELS && forall l {:trigger f[l]} :: 0 <= l < LEVELS ==> f[l] == Count(g[l])
  }

  lemma CountedUpdate(g: Bits, f: seq<nat>, l: nat, j: nat, v: bool)
    requires Counted(g, f) && l < LEVELS && j < |g[l]|
    ensures f[l] + One(!v) >= One(Clear(g, l, j))
    ensures Counted(WithBit(g, l, j, v), f[l := f[l] + One(!v) - One(Clear(g, l, j))])
  {
    CountUpdate(g[l], j, v);
  }

  /** The sum of the covers of the first n blocks of level l. */
  ghost function CoverSum(g: Bits, l: nat, n: nat): nat {
    if n == 0 then 0 else CoverSum(g, l, n - 1) + Cover(g, l, n - 1)
  }

  lemma {:induction false} CoverSumStep(g: Bits, l: nat, n: nat)
    requires |g| == LEVELS && l < LEVELS && n <= |g[l]|
    ensures CoverSum(g, l, n) == Count(g[l][..n]) + PairSum(g, l + 1, n)
  {
    if n != 0 {
      CoverSumStep(g, l, n - 1);
      assert g[l][..n][..n - 1] == g[l][..n - 1];
    }
  }

  /** The covers of the parents of the first n blocks of the level below l. */
  ghost function PairSum(g: Bits, l: nat, n: nat): nat {
    if n == 0 then 0 else PairSum(g, l, n - 1) + Cover(g, l, (n - 1) / 2)
  }

  lemma {:induction false} PairSumHalf(g: Bits, l: nat, n: nat)
    ensures PairSum(g, l, 2 * n) == 2 * CoverSum(g, l, n)
  {
    if n != 0 {
      PairSumHalf(g, l, n - 1);
      var h := 2 * n - 2;
      assert h / 2 == n - 1 && (h + 1) / 2 == n - 1;
      assert PairSum(g, l, h + 2) == PairSum(g, l, h + 1) + Cover(g, l, n - 1);
    }
  }

  lemma {:induction false} TopSum(g: Bits, n: nat)
    ensures PairSum(g, LEVELS, n) == 0
  {
    if n != 0 {
      TopSum(g, n - 1);
    }
  }

  /** Conservation: the counters weigh exactly the covers of all blocks, level by level. */
  lemma {:induction false} CountersWeighCovers(g: Bits, f: seq<nat>, l: nat)
    requires Shape(g) && Counted(g, f) && l < LEVELS
    ensures Weigh(f, l) == CoverSum(g, l, |g[l]|)
    decreases LEVELS - l
  {
    CoverSumStep(g, l, |g[l]|);
    assert g[l][..|g[l]|] == g[l];
    if l == TOP {
      TopSum(g, |g[l]|);
    } else {
      assert Halves(g, l);
      CountersWeighCovers(g, f, l + 1);
      PairSumHalf(g, l + 1, |g[l + 1]|);
    }
  }

  // ---------------------------------------------------------------- merging

  /** The buddies i and i + 1 of level l become one block of level l + 1. */
  function Merged(g: Bits, l: nat, i: nat): Bits
    requires l + 1 < |g| && i + 1 < |g[l]| && i / 2 < |g[l + 1]|
  {
    WithBit(WithBit(WithBit(g, l + 1, i / 2, false), l, i, true), l, i + 1, true)
  }

  /** Merging two free buddies marks no page differently, at any level below. */
  lemma MergedCover(g: Bits, l: nat, i: nat, k: nat, q: nat)
    requires |g| == LEVELS && l < TOP && i % 2 == 0 && i + 1 < |g[l]| && i / 2 < |g[l + 1]|
    requires Clear(g, l, i) && Clear(g, l, i + 1) && !Clear(g, l + 1, i / 2)
    ensures Cover(Merged(g, l, i), k, q) == if k == l + 1 && q == i / 2 then Cover(g, k, q) + 1 else Cover(g, k, q)
  {
    var g1 := WithBit(g, l + 1, i / 2, false);
    var g2 := WithBit(g1, l, i, true);
    WithBitCover(g, l + 1, i / 2, false, k, q);
    WithBitCover(g1, l, i, true, k, q);
    WithBitCover(g2, l, i + 1, true, k, q);
    if k <= l {
      UpStep(q, l - k);
    }
  }

  lemma {:induction false} MergedPartition(g: Bits, l: nat, i: nat)
    requires Shape(g) && Partition(g) && l < TOP && i % 2 == 0 && Clear(g, l, i) && Clear(g, l, i + 1)
    ensures Halves(g, l) && !Clear(g, l + 1, i / 2)
    ensures Shape(Merged(g, l, i)) && Partition(Merged(g, l, i)) && SamePages(g, Merged(g, l, i))
  {
    assert Halves(g, l);
    assert Cover(g, l, i) <= 1;
    var g' := Merged(g, l, i);
    var g1 := WithBit(g, l + 1, i / 2, false);
    WithBitShape(g, l + 1, i / 2, false);
    WithBitShape(g1, l, i, true);
    WithBitShape(WithBit(g1, l, i, true), l, i + 1, true);
    forall k: nat, q: nat
      ensures Cover(g', k, q) <= 1 && (k == 0 ==> Cover(g', k, q) == Cover(g, k, q))
    {
      MergedCover(g, l, i, k, q);
      assert Cover(g, k, q) <= 1;
    }
  }

  /** The same pages are free. */
  ghost predicate SamePages(g: Bits, g': Bits) {
    forall p: nat {:trigger Cover(g', 0, p)} :: Cover(g', 0, p) == Cover(g, 0, p)
  }

  // ---------------------------------------------------------------- splitting

  /** Block q of level k lies strictly below block j of level l. */
  ghost predicate Under(k: nat, q: nat, l: nat, j: nat) {
    k < l && Up(q, l - k) == j
  }

  /** Every block strictly below block j of level l has its bit set. */
  ghost predicate Solid(g: Bits, l: nat, j: nat) {
    forall k: nat, q: nat {:trigger Under(k, q, l, j)} :: Under(k, q, l, j) ==> !Clear(g, k, q)
  }

  /** A free block is solid below. */
  lemma ClearIsSolid(g: Bits, l: nat, j: nat)
    requires Partition(g) && l < LEVELS && Clear(g, l, j)
    ensures Solid(g, l, j) && Cover(g, l, j) == 1
  {
    assert Cover(g, l, j) <= 1;
    forall k: nat, q: nat | Under(k, q, l, j)
      ensures !Clear(g, k, q)
    {
      CoverAtLeast(g, k + 1, q / 2, l, j);
      assert Cover(g, k, q) <= 1;
    }
  }

  lemma {:induction false} CoverAtLeast(g: Bits, k: nat, q: nat, l: nat, j: nat)
    requires k <= l < LEVELS && Up(q, l - k) == j && Clear(g, l, j)
    ensures Cover(g, k, q) >= 1
    decreases l - k
  {
    if k < l {
      CoverAtLeast(g, k + 1, q / 2, l, j);
    }
  }

  /** pmmPropagateDown: free all but the first n pages of block j of level l. */
  function Carved(g: Bits, n: nat, l: nat, j: nat): (r: Bits)
    requires |g| == LEVELS && l < LEVELS
    ensures |r| == LEVELS && forall i :: 0 <= i < LEVELS ==> |r[i]| == |g[i]|
    decreases l
  {
    if l == 0 || n == Pow2(l) then g
    else if n <= Pow2(l - 1) then
      var r := Carved(g, n, l - 1, 2 * j);
      if 2 * j + 1 < |r[l - 1]| then WithBit(r, l - 1, 2 * j + 1, false) else r
    else Carved(g, n - Pow2(l - 1), l - 1, 2 * j + 1)
  }

  /** Where half the block is enough the other half is left over. */
  lemma CarvedLeft(g: Bits, n: nat, l: nat, j: nat)
    requires |g| == LEVELS && 0 < l < LEVELS && 2 * j + 1 < |g[l - 1]| && n <= Pow2(l - 1)
    ensures Carved(g, n, l, j) == WithBit(Carved(g, n, l - 1, 2 * j), l - 1, 2 * j + 1, false)
  {
  }

  lemma CarvedRight(g: Bits, n: nat, rest: nat, l: nat, j: nat)
    requires |g| == LEVELS && 0 < l < LEVELS && n == Pow2(l - 1) + rest && 0 < rest && n != Pow2(l)
    ensures Carved(g, n, l, j) == Carved(g, rest, l - 1, 2 * j + 1)
    ensures rest <= Pow2(l - 1) <==> n <= Pow2(l)
    ensures Pow2(l) - n == Pow2(l - 1) - rest
  {
  }

  /** More pages than the block has: nothing is left over. */
  lemma {:induction false} CarvedTooMany(g: Bits, n: nat, l: nat, j: nat)
    requires |g| == LEVELS && l < LEVELS && n > Pow2(l)
    ensures Carved(g, n, l, j) == g
  {
    if l > 0 { CarvedTooMany(g, n - Pow2(l - 1), l - 1, 2 * j + 1); }
  }

  /** A block below (l, j) is one of its children or below one of them. */
  lemma UnderChild(k: nat, q: nat, l: nat, j: nat)
    requires 0 < l
    ensures Under(k, q, l, j) <==>
              || (k == l - 1 && (q == 2 * j || q == 2 * j + 1))
              || Under(k, q, l - 1, 2 * j) || Under(k, q, l - 1, 2 * j + 1)
  {
    if k < l {
      UpStep(q, l - 1 - k);
    }
  }

  lemma SolidChildren(g: Bits, l: nat, j: nat)
    requires l > 0 && Solid(g, l, j)
    ensures Solid(g, l - 1, 2 * j) && Solid(g, l - 1, 2 * j + 1)
    ensures !Clear(g, l - 1, 2 * j) && !Clear(g, l - 1, 2 * j + 1)
  {
    forall k: nat, q: nat | Under(k, q, l - 1, 2 * j) || Under(k, q, l - 1, 2 * j + 1) ||
                            (k == l - 1 && (q == 2 * j || q == 2 * j + 1))
      ensures !Clear(g, k, q)
    {
      UnderChild(k, q, l, j);
    }
  }

  /** What a carving of (l, j) from g to r does to block (k, q). */
  ghost predicate CarveEffect(g: Bits, r: Bits, l: nat, j: nat, k: nat, q: nat) {
    && (!Under(k, q, l, j) ==> Cover(r, k, q) == Cover(g, k, q) && Clear(r, k, q) == Clear(g, k, q))
    && Cover(g, k, q) <= Cover(r, k, q) <= Cover(g, k, q) + 1
  }

  /** Freeing the right child after carving the left one. */
  lemma CarveLeft(g: Bits, r: Bits, l: nat, j: nat, k: nat, q: nat)
    requires |g| == |r| == LEVELS && 0 < l < LEVELS && 2 * j + 1 < |r[l - 1]| && !Clear(g, l - 1, 2 * j + 1)
    requires CarveEffect(g, r, l - 1, 2 * j, k, q) && CarveEffect(g, r, l - 1, 2 * j, l - 1, 2 * j + 1)
    ensures CarveEffect(g, WithBit(r, l - 1, 2 * j + 1, false), l, j, k, q)
  {
    UnderChild(k, q, l, j);
    WithBitCover(r, l - 1, 2 * j + 1, false, k, q);
    WithBitClear(r, l - 1, 2 * j + 1, false, k, q);
  }

  /** Carving touches only blocks strictly below (l, j), and covers each of them at most once more. */
  lemma {:induction false} CarvedCover(g: Bits, n: nat, l: nat, j: nat, k: nat, q: nat)
    requires Shape(g) && l < LEVELS && j < |g[l]| && Solid(g, l, j) && 1 <= n <= Pow2(l)
    ensures CarveEffect(g, Carved(g, n, l, j), l, j, k, q)
    decreases l
  {
    if l != 0 && n != Pow2(l) {
      assert Halves(g, l - 1);
      SolidChildren(g, l, j);
      if n <= Pow2(l - 1) {
        CarvedCover(g, n, l - 1, 2 * j, k, q);
        CarvedCover(g, n, l - 1, 2 * j, l - 1, 2 * j + 1);
        CarveLeft(g, Carved(g, n, l - 1, 2 * j), l, j, k, q);
      } else {
        CarvedCover(g, n - Pow2(l - 1), l - 1, 2 * j + 1, k, q);
        UnderChild(k, q, l, j);
      }
    }
  }

  /** From g to r, exactly the pages of block (l, j) from the n-th on are covered once more. */
  ghost predicate CoversRest(g: Bits, r: Bits, n: nat, l: nat, j: nat, p: nat) {
    Cover(r, 0, p) == Cover(g, 0, p) + One(Start(l, j) + n <= p < Start(l, j) + Pow2(l))
  }

  /** After carving n pages off a block, exactly the rest of the block is covered. */
  lemma {:induction false} CarvedPages(g: Bits, n: nat, l: nat, j: nat, p: nat)
    requires Shape(g) && l < LEVELS && j < |g[l]| && Solid(g, l, j) && 1 <= n <= Pow2(l)
    ensures CoversRest(g, Carved(g, n, l, j), n, l, j, p)
    decreases l
  {
    if l != 0 && n != Pow2(l) {
      assert Halves(g, l - 1);
      SolidChildren(g, l, j);
      if n <= Pow2(l - 1) {
        CarvedPages(g, n, l - 1, 2 * j, p);
        RightChildSet(g, n, l, j);
        LeftCarvedPages(g, Carved(g, n, l - 1, 2 * j), n, l, j, p);
      } else {
        var h := Pow2(l - 1);
        CarvedPages(g, n - h, l - 1, 2 * j + 1, p);
        RightCarvedPages(g, Carved(g, n - h, l - 1, 2 * j + 1), n, l, j, p);
      }
    }
  }

  /** Carving the left child leaves the right one unmarked. */
  lemma RightChildSet(g: Bits, n: nat, l: nat, j: nat)
    requires Shape(g) && 0 < l < LEVELS && 2 * j + 1 < |g[l - 1]| && Solid(g, l - 1, 2 * j) && 1 <= n <= Pow2(l - 1)
    requires !Clear(g, l - 1, 2 * j + 1)
    ensures !Clear(Carved(g, n, l - 1, 2 * j), l - 1, 2 * j + 1)
  {
    CarvedCover(g, n, l - 1, 2 * j, l - 1, 2 * j + 1);
  }

  lemma RightCarvedPages(g: Bits, r: Bits, n: nat, l: nat, j: nat, p: nat)
    requires 0 < l && Pow2(l - 1) < n && CoversRest(g, r, n - Pow2(l - 1), l - 1, 2 * j + 1, p)
    ensures CoversRest(g, r, n, l, j, p)
  {
    StartNext(l - 1, 2 * j);
  }

  lemma LeftCarvedPages(g: Bits, r: Bits, n: nat, l: nat, j: nat, p: nat)
    requires |r| == LEVELS && 0 < l < LEVELS && 2 * j + 1 < |r[l - 1]|
    requires !Clear(r, l - 1, 2 * j + 1) && n <= Pow2(l - 1)
    requires CoversRest(g, r, n, l - 1, 2 * j, p)
    ensures CoversRest(g, WithBit(r, l - 1, 2 * j + 1, false), n, l, j, p)
  {
    StartNext(l - 1, 2 * j);
    RightChildPages(r, l, j, p);
  }

  lemma RightChildPages(r: Bits, l: nat, j: nat, p: nat)
    requires |r| == LEVELS && 0 < l < LEVELS && 2 * j + 1 < |r[l - 1]| && !Clear(r, l - 1, 2 * j + 1)
    ensures Cover(WithBit(r, l - 1, 2 * j + 1, false), 0, p) ==
            Cover(r, 0, p) + One(Start(l - 1, 2 * j + 1) <= p < Start(l - 1, 2 * j + 1) + Pow2(l - 1))
  {
    WithBitCover(r, l - 1, 2 * j + 1, false, 0, p);
    UpRange(p, l - 1, 2 * j + 1);
  }

  /** The even one of the two blocks i and its buddy. */
  function EvenOf(i: nat): (e: nat)
    ensures e <= i <= e + 1
  {
    if i < 2 then 0 else 2 + EvenOf(i - 2)
  }

  lemma {:induction false} EvenOfIs(i: nat)
    ensures EvenOf(i) % 2 == 0 && EvenOf(i) == i - i % 2
  {
    if i >= 2 { EvenOfIs(i - 2); }
  }

  /** Not both of the buddies q and q + 1 of level k are free. */
  ghost predicate NotBothClear(g: Bits, k: nat, q: nat) {
    !(Clear(g, k, q) && Clear(g, k, q + 1))
  }

  /** Below a carved block no two buddies are both free: what is left over is already merged. */
  lemma {:induction false} CarvedSiblings(g: Bits, n: nat, l: nat, j: nat, k: nat, q: nat)
    requires Shape(g) && l < LEVELS && j < |g[l]| && Solid(g, l, j) && 1 <= n <= Pow2(l)
    requires Under(k, q, l, j) && EvenOf(q) == q
    ensures NotBothClear(Carved(g, n, l, j), k, q)
    decreases l
  {
    if l == 0 || n == Pow2(l) {
      SolidSiblings(g, l, j, k, q);
    } else {
      assert Halves(g, l - 1);
      SolidChildren(g, l, j);
      if n <= Pow2(l - 1) {
        if Under(k, q, l - 1, 2 * j) {
          CarvedSiblings(g, n, l - 1, 2 * j, k, q);
        }
        LeftSiblings(g, n, l, j, k, q);
      } else {
        if Under(k, q, l - 1, 2 * j + 1) {
          CarvedSiblings(g, n - Pow2(l - 1), l - 1, 2 * j + 1, k, q);
        }
        RightSiblings(g, n - Pow2(l - 1), l, j, k, q);
      }
    }
  }

  lemma SolidSiblings(g: Bits, l: nat, j: nat, k: nat, q: nat)
    requires Solid(g, l, j) && Under(k, q, l, j)
    ensures NotBothClear(g, k, q)
  {
    assert !Clear(g, k, q);
  }

  /** Carving the right child alone makes no two buddies free. */
  lemma RightSiblings(g: Bits, n: nat, l: nat, j: nat, k: nat, q: nat)
    requires Shape(g) && 0 < l < LEVELS && 2 * j + 1 < |g[l - 1]| && Solid(g, l, j) && Solid(g, l - 1, 2 * j + 1)
    requires 1 <= n <= Pow2(l - 1) && Under(k, q, l, j)
    requires Under(k, q, l - 1, 2 * j + 1) ==> NotBothClear(Carved(g, n, l - 1, 2 * j + 1), k, q)
    ensures NotBothClear(Carved(g, n, l - 1, 2 * j + 1), k, q)
  {
    if !Under(k, q, l - 1, 2 * j + 1) {
      CarvedCover(g, n, l - 1, 2 * j + 1, k, q);
      assert !Clear(g, k, q);
    }
  }

  /** Carving the left child and freeing the right one makes no two buddies free that were not. */
  lemma LeftSiblings(g: Bits, n: nat, l: nat, j: nat, k: nat, q: nat)
    requires Shape(g) && 0 < l < LEVELS && j < |g[l]|
    requires Solid(g, l, j) && Solid(g, l - 1, 2 * j) && 1 <= n <= Pow2(l - 1)
    requires 2 * j + 1 < |g[l - 1]| && Under(k, q, l, j) && EvenOf(q) == q
    requires Under(k, q, l - 1, 2 * j) ==> NotBothClear(Carved(g, n, l - 1, 2 * j), k, q)
    ensures NotBothClear(WithBit(Carved(g, n, l - 1, 2 * j), l - 1, 2 * j + 1, false), k, q)
  {
    var r := Carved(g, n, l - 1, 2 * j);
    if !Under(k, q, l - 1, 2 * j) {
      CarvedCover(g, n, l - 1, 2 * j, k, q);
      assert !Clear(g, k, q);
    }
    EvenOfIs(q);
    WithBitClear(r, l - 1, 2 * j + 1, false, k, q);
    WithBitClear(r, l - 1, 2 * j + 1, false, k, q + 1);
  }

  // ---------------------------------------------------------------- pmalloc

  /** pmalloc of n pages in the free block j of level l. */
  function Taken(g: Bits, n: nat, l: nat, j: nat): (r: Bits)
    requires |g| == LEVELS && l < LEVELS && j < |g[l]|
    ensures |r| == LEVELS && forall i :: 0 <= i < LEVELS ==> |r[i]| == |g[i]|
  {
    Carved(WithBit(g, l, j, true), n, l, j)
  }

  lemma SolidAfterSet(g: Bits, l: nat, j: nat)
    requires l < |g| && j < |g[l]| && Solid(g, l, j)
    ensures Solid(WithBit(g, l, j, true), l, j)
  {
    forall k: nat, q: nat | Under(k, q, l, j)
      ensures !Clear(WithBit(g, l, j, true), k, q)
    {
      WithBitClear(g, l, j, true, k, q);
    }
  }

  /** The parent of a free block is not marked free. */
  lemma ParentIsSet(g: Bits, l: nat, j: nat)
    requires Partition(g) && l < |g| == LEVELS && Clear(g, l, j)
    ensures !Clear(g, l + 1, j / 2)
  {
    assert Cover(g, l, j) <= 1;
    assert Cover(g, l, j) == 1 + Cover(g, l + 1, j / 2);
  }

  /** pmalloc takes exactly the first n pages of the block it found, which were free, and no page is marked twice. */
  lemma TakenPages(g: Bits, n: nat, l: nat, j: nat, p: nat)
    requires Shape(g) && Partition(g) && l < LEVELS && Clear(g, l, j) && 1 <= n <= Pow2(l)
    ensures Start(l, j) <= p < Start(l, j) + n ==> Cover(g, 0, p) == 1 && Cover(Taken(g, n, l, j), 0, p) == 0
    ensures !(Start(l, j) <= p < Start(l, j) + n) ==> Cover(Taken(g, n, l, j), 0, p) == Cover(g, 0, p)
  {
    var g1 := WithBit(g, l, j, true);
    ClearIsSolid(g, l, j);
    SolidAfterSet(g, l, j);
    WithBitShape(g, l, j, true);
    WithBitCover(g, l, j, true, 0, p);
    CarvedPages(g1, n, l, j, p);
    UpRange(p, l, j);
    assert Cover(g, 0, p) <= 1;
  }

  /** From g to g', the n pages from first on stop being free; they were free, and no other page changes. */
  ghost predicate TookPages(g: Bits, g': Bits, first: nat, n: nat) {
    forall p: nat {:trigger Cover(g', 0, p)} ::
      && (first <= p < first + n ==> Cover(g, 0, p) == 1 && Cover(g', 0, p) == 0)
      && (!(first <= p < first + n) ==> Cover(g', 0, p) == Cover(g, 0, p))
  }

  lemma TakenAll(g: Bits, n: nat, l: nat, j: nat)
    requires Shape(g) && Partition(g) && l < LEVELS && Clear(g, l, j) && 1 <= n <= Pow2(l)
    ensures TookPages(g, Taken(g, n, l, j), Start(l, j), n)
  {
    forall p: nat
      ensures Start(l, j) <= p < Start(l, j) + n ==> Cover(g, 0, p) == 1 && Cover(Taken(g, n, l, j), 0, p) == 0
      ensures !(Start(l, j) <= p < Start(l, j) + n) ==> Cover(Taken(g, n, l, j), 0, p) == Cover(g, 0, p)
    {
      TakenPages(g, n, l, j, p);
    }
  }

  lemma TakenPartition(g: Bits, n: nat, l: nat, j: nat)
    requires Shape(g) && Partition(g) && l < LEVELS && Clear(g, l, j) && 1 <= n <= Pow2(l)
    ensures Shape(Taken(g, n, l, j)) && Partition(Taken(g, n, l, j))
  {
    var g1, r := WithBit(g, l, j, true), Taken(g, n, l, j);
    ClearIsSolid(g, l, j);
    SolidAfterSet(g, l, j);
    WithBitShape(g, l, j, true);
    forall k: nat, q: nat
      ensures Cover(r, k, q) <= 1
    {
      assert Cover(g, k, q) <= 1;
      WithBitCover(g, l, j, true, k, q);
      CarvedCover(g1, n, l, j, k, q);
    }
    forall i | 0 <= i < TOP
      ensures Halves(r, i)
    {
      assert Halves(g, i);
    }
  }

  // ---------------------------------------------------------------- pfree

  /** The first loop of pfree: the bits of n pages from i on become clear. */
  ghost function Released(g: Bits, i: nat, n: nat): (r: Bits)
    requires Shape(g) && i + n <= |g[0]|
    ensures Shape(r) && forall k :: 0 <= k < LEVELS ==> |r[k]| == |g[k]|
  {
    if n == 0 then g
    else
      var r := Released(g, i, n - 1);
      WithBitShape(r, 0, i + n - 1, false);
      WithBit(r, 0, i + n - 1, false)
  }

  /** None of the n pages from i on is free. */
  ghost predicate Allocated(g: Bits, i: nat, n: nat) {
    forall p: nat {:trigger Cover(g, 0, p)} :: i <= p < i + n ==> Cover(g, 0, p) == 0
  }

  lemma {:induction false} ReleasedCover(g: Bits, i: nat, n: nat, k: nat, q: nat)
    requires Shape(g) && i + n <= |g[0]| && Allocated(g, i, n)
    ensures Cover(Released(g, i, n), k, q) == Cover(g, k, q) + One(k == 0 && i <= q < i + n)
  {
    if n != 0 {
      ReleasedCover(g, i, n - 1, k, q);
      ReleasedNext(g, i, n - 1);
      PageCover(Released(g, i, n - 1), i + n - 1, k, q);
    }
  }

  /** The page after those released is still allocated. */
  lemma ReleasedNext(g: Bits, i: nat, n: nat)
    requires Shape(g) && i + n < |g[0]| && Allocated(g, i, n + 1)
    ensures Cover(Released(g, i, n), 0, i + n) == 0
  {
    assert Cover(g, 0, i + n) == 0;
    ReleasedElsewhere(g, i, n, i + n);
  }

  lemma {:induction false} ReleasedElsewhere(g: Bits, i: nat, n: nat, q: nat)
    requires Shape(g) && i + n <= |g[0]| && !(i <= q < i + n)
    ensures Cover(Released(g, i, n), 0, q) == Cover(g, 0, q)
  {
    if n != 0 {
      ReleasedElsewhere(g, i, n - 1, q);
      ReleasedOne(g, i, n, q);
    }
  }

  lemma ReleasedOne(g: Bits, i: nat, n: nat, q: nat)
    requires Shape(g) && 0 < n && i + n <= |g[0]| && q != i + n - 1
    ensures Cover(Released(g, i, n), 0, q) == Cover(Released(g, i, n - 1), 0, q)
  {
    WithBitCover(Released(g, i, n - 1), 0, i + n - 1, false, 0, q);
  }

  /** Marking one page free covers that page once more. */
  lemma PageCover(r: Bits, p: nat, k: nat, q: nat)
    requires |r| == LEVELS && p < |r[0]| && Cover(r, 0, p) == 0
    ensures Cover(WithBit(r, 0, p, false), k, q) == Cover(r, k, q) + One(k == 0 && q == p)
  {
    WithBitCover(r, 0, p, false, k, q);
  }

  lemma ReleasedPartition(g: Bits, i: nat, n: nat)
    requires Shape(g) && Partition(g) && i + n <= |g[0]| && Allocated(g, i, n)
    ensures Partition(Released(g, i, n))
  {
    var r := Released(g, i, n);
    forall k: nat, q: nat
      ensures Cover(r, k, q) <= 1
    {
      assert Cover(g, k, q) <= 1;
      ReleasedCover(g, i, n, k, q);
    }
  }

  /** One step of coalesce: merge the pair that block i belongs to, if both are free. */
  ghost function MergedIf(g: Bits, l: nat, i: nat): (r: Bits)
    requires Shape(g) && l < TOP && i < |g[l]|
    ensures Shape(r) && forall k :: 0 <= k < LEVELS ==> |r[k]| == |g[k]|
  {
    var e := EvenOf(i);
    EvenOfIs(i);
    assert Halves(g, l);
    if Clear(g, l, e) && Clear(g, l, e + 1) then
      assert Shape(Merged(g, l, e)) by {
        WithBitShape(g, l + 1, e / 2, false);
        WithBitShape(WithBit(g, l + 1, e / 2, false), l, e, true);
        WithBitShape(WithBit(WithBit(g, l + 1, e / 2, false), l, e, true), l, e + 1, true);
      }
      Merged(g, l, e)
    else g
  }

  /** The loop of coalesce on one level: every second block from i up to stop. */
  ghost function MergedRange(g: Bits, l: nat, i: nat, stop: nat): (r: Bits)
    requires Shape(g) && l < TOP && stop <= |g[l]|
    ensures Shape(r) && forall k :: 0 <= k < LEVELS ==> |r[k]| == |g[k]|
    decreases stop - i
  {
    if i >= stop then g else MergedRange(MergedIf(g, l, i), l, i + 2, stop)
  }

  /** coalesce: the level, and then half as many blocks on the level above. */
  ghost function Coalesced(g: Bits, n: nat, l: nat, i: nat): (r: Bits)
    requires Shape(g) && l < TOP && i + n <= |g[l]|
    ensures Shape(r) && forall k :: 0 <= k < LEVELS ==> |r[k]| == |g[k]|
    decreases TOP - l
  {
    assert Halves(g, l);
    var r := MergedRange(g, l, i, i + n);
    if l + 1 == TOP then r else Coalesced(r, n / 2, l + 1, i / 2)
  }

  lemma {:induction false} MergedRangePages(g: Bits, l: nat, i: nat, stop: nat)
    requires Shape(g) && Partition(g) && l < TOP && stop <= |g[l]|
    ensures Partition(MergedRange(g, l, i, stop)) && SamePages(g, MergedRange(g, l, i, stop))
    decreases stop - i
  {
    if i < stop {
      MergedIfPartition(g, l, i);
      MergedRangePages(MergedIf(g, l, i), l, i + 2, stop);
    }
  }

  /** Merging never changes which pages are free. */
  lemma {:induction false} CoalescedPages(g: Bits, n: nat, l: nat, i: nat)
    requires Shape(g) && Partition(g) && l < TOP && i + n <= |g[l]|
    ensures Partition(Coalesced(g, n, l, i)) && SamePages(g, Coalesced(g, n, l, i))
    decreases TOP - l
  {
    assert Halves(g, l);
    MergedRangePages(g, l, i, i + n);
    if l + 1 != TOP {
      CoalescedPages(MergedRange(g, l, i, i + n), n / 2, l + 1, i / 2);
    }
  }

  lemma MergedIfPartition(g: Bits, l: nat, i: nat)
    requires Shape(g) && Partition(g) && l < TOP && i < |g[l]|
    ensures Partition(MergedIf(g, l, i)) && SamePages(g, MergedIf(g, l, i)) && EvenOf(i) + 1 < |g[l]|
  {
    assert Halves(g, l);
    EvenOfIs(i);
    var e := EvenOf(i);
    if Clear(g, l, e) && Clear(g, l, e + 1) {
      MergedPartition(g, l, e);
    }
  }

  /** pfree frees exactly its pages. */
  lemma FreedAll(g: Bits, i: nat, n: nat)
    requires Shape(g) && Partition(g) && i + n <= |g[0]| && Allocated(g, i, n)
    ensures TookPages(Coalesced(Released(g, i, n), n, 0, i), g, i, n)
  {
    var r := Released(g, i, n);
    ReleasedPartition(g, i, n);
    CoalescedPages(r, n, 0, i);
    var c := Coalesced(r, n, 0, i);
    forall p: nat
      ensures Cover(c, 0, p) == Cover(g, 0, p) + One(i <= p < i + n)
    {
      assert Cover(c, 0, p) == Cover(r, 0, p);
      ReleasedCover(g, i, n, 0, p);
    }
  }

  // ---------------------------------------------------------------- initPMM

  /** Every page of block j of level l is usable. */
  ghost predicate Whole(u: seq<bool>, l: nat, j: nat) {
    if l == 0 then j < |u| && u[j] else Whole(u, l - 1, 2 * j) && Whole(u, l - 1, 2 * j + 1)
  }

  /** The canonical form: a block is marked free exactly if it is usable as a whole and its parent is not. */
  ghost predicate Canonical(g: Bits, u: seq<bool>) {
    forall l: nat, j: nat {:trigger Clear(g, l, j)} ::
      l < LEVELS ==> Clear(g, l, j) == (Whole(u, l, j) && (l == TOP || !Whole(u, l + 1, j / 2)))
  }

  lemma WholeParent(u: seq<bool>, l: nat, j: nat)
    requires Whole(u, l + 1, j / 2)
    ensures Whole(u, l, j)
  {
    assert j == 2 * (j / 2) || j == 2 * (j / 2) + 1;
  }

  /** In canonical form every usable block is covered exactly once, and no other block is. */
  lemma {:induction false} CanonicalCover(g: Bits, u: seq<bool>, l: nat, j: nat)
    requires Canonical(g, u) && l < LEVELS
    ensures Cover(g, l, j) == One(Whole(u, l, j))
    decreases LEVELS - l
  {
    assert Clear(g, l, j) == (Whole(u, l, j) && (l == TOP || !Whole(u, l + 1, j / 2)));
    if l != TOP {
      CanonicalCover(g, u, l + 1, j / 2);
      if Whole(u, l + 1, j / 2) {
        WholeParent(u, l, j);
      }
    }
  }

  /** The rows with every bit set, row l having n / 2^l bits. */
  lemma {:induction false} CountOnes(s: seq<bool>)
    requires forall j :: 0 <= j < |s| ==> s[j]
    ensures Count(s) == 0
  {
    if s != [] {
      CountOnes(s[..|s| - 1]);
    }
  }

  /** Row l holds the whole blocks among the first n, marked free. */
  ghost predicate BuiltRow(g: Bits, u: seq<bool>, l: nat, n: nat) {
    forall j: nat {:trigger Clear(g, l, j)} :: Clear(g, l, j) == (j < n && Whole(u, l, j))
  }

  /** Row l holds the whole blocks marked free, except those among the first n whose parent is whole. */
  ghost predicate PrunedRow(g: Bits, u: seq<bool>, l: nat, n: nat) {
    forall j: nat {:trigger Clear(g, l, j)} :: Clear(g, l, j) == (Whole(u, l, j) && !(j < n && Whole(u, l + 1, j / 2)))
  }

  lemma {:induction false} WholeInRange(u: seq<bool>, g: Bits, l: nat, j: nat)
    requires Shape(g) && |g[0]| == |u| && l < LEVELS && Whole(u, l, j)
    ensures j < |g[l]|
  {
    if l > 0 {
      assert Halves(g, l - 1);
      WholeInRange(u, g, l - 1, 2 * j + 1);
    }
  }

  /** A row built to its end marks exactly the whole blocks. */
  lemma BuiltIsWhole(u: seq<bool>, g: Bits, l: nat)
    requires Shape(g) && |g[0]| == |u| && l < LEVELS && BuiltRow(g, u, l, |g[l]|)
    ensures PrunedRow(g, u, l, 0)
  {
    forall j: nat
      ensures Clear(g, l, j) == Whole(u, l, j)
    {
      if Whole(u, l, j) {
        WholeInRange(u, g, l, j);
      }
    }
  }

  /** One bit more of a row, or one bit of another row, keeps what the row says. */
  lemma BuildOne(g: Bits, u: seq<bool>, l: nat, j: nat)
    requires l < |g| && j < |g[l]| && BuiltRow(g, u, l, j)
    ensures Whole(u, l, j) ==> BuiltRow(WithBit(g, l, j, false), u, l, j + 1)
    ensures !Whole(u, l, j) ==> BuiltRow(g, u, l, j + 1)
  {
    var g' := WithBit(g, l, j, false);
    forall k: nat
      ensures Clear(g', l, k) == (k == j || Clear(g, l, k))
    {
      WithBitClear(g, l, j, false, l, k);
    }
  }

  lemma PruneOne(g: Bits, u: seq<bool>, l: nat, j: nat)
    requires l < |g| && j < |g[l]| && PrunedRow(g, u, l, j)
    ensures Whole(u, l + 1, j / 2) ==> Clear(g, l, j) && PrunedRow(WithBit(g, l, j, true), u, l, j + 1)
    ensures !Whole(u, l + 1, j / 2) ==> PrunedRow(g, u, l, j + 1)
  {
    var g' := WithBit(g, l, j, true);
    if Whole(u, l + 1, j / 2) {
      WholeParent(u, l, j);
    }
    forall k: nat
      ensures Clear(g', l, k) == (k != j && Clear(g, l, k))
    {
      WithBitClear(g, l, j, true, l, k);
    }
  }

  lemma OtherRow(g: Bits, u: seq<bool>, l: nat, j: nat, v: bool, k: nat, n: nat)
    requires l < |g| && j < |g[l]| && k != l
    ensures BuiltRow(g, u, k, n) ==> BuiltRow(WithBit(g, l, j, v), u, k, n)
    ensures PrunedRow(g, u, k, n) ==> PrunedRow(WithBit(g, l, j, v), u, k, n)
  {
    var g' := WithBit(g, l, j, v);
    forall i: nat
      ensures Clear(g', k, i) == Clear(g, k, i)
    {
      WithBitClear(g, l, j, v, k, i);
    }
  }

  /** With all rows below the top pruned, the bitmaps are in canonical form. */
  lemma RowsAreCanonical(g: Bits, u: seq<bool>)
    requires Shape(g) && |g[0]| == |u| && PrunedRow(g, u, TOP, 0)
    requires forall l: nat {:trigger PrunedRow(g, u, l, |g[l]|)} :: l < TOP ==> PrunedRow(g, u, l, |g[l]|)
    ensures Canonical(g, u) && Partition(g)
  {
    forall l: nat, j: nat | l < LEVELS
      ensures Clear(g, l, j) == (Whole(u, l, j) && (l == TOP || !Whole(u, l + 1, j / 2)))
    {
      if l < TOP {
        assert PrunedRow(g, u, l, |g[l]|);
        if Whole(u, l, j) {
          WholeInRange(u, g, l, j);
        }
      }
    }
    forall l: nat, j: nat
      ensures Cover(g, l, j) <= 1
    {
      if l < LEVELS {
        CanonicalCover(g, u, l, j);
      }
    }
  }
}

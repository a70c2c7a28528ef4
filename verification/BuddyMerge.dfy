/**
  When pfree merges all that can be merged. coalesce halves the number of pages
  it looks at from level to level and steps by pairs from where it starts, so
  it can stop short of free buddies. Here is exactly for which ranges of pages
  it never does.
*/
module BuddyMerge {
  import opened Machine
  import opened Buddy

  /** The two blocks of pair p of level l are both free. */
  ghost predicate Both(g: Bits, l: nat, p: nat) {
    Clear(g, l, 2 * p) && Clear(g, l, 2 * p + 1)
  }

  /** No two buddies are free: all that can be merged is merged. */
  ghost predicate FullyMerged(g: Bits) {
    forall l: nat, p: nat {:trigger Both(g, l, p)} :: l < TOP ==> !Both(g, l, p)
  }

  // ---------------------------------------------------------------- the one fully merged form

  /** The free pages of g as a row. */
  ghost function FreeRow(g: Bits): (u: seq<bool>)
    requires |g| == LEVELS
    ensures |u| == |g[0]|
  {
    seq(|g[0]|, (p: int) => p >= 0 && Cover(g, 0, p) == 1)
  }

  lemma {:induction false} CoverOutside(g: Bits, l: nat, j: nat)
    requires Shape(g) && l < LEVELS && j >= |g[l]|
    ensures Cover(g, l, j) == 0
    decreases LEVELS - l
  {
    if l + 1 < LEVELS {
      assert Halves(g, l);
      CoverOutside(g, l + 1, j / 2);
    }
  }

  lemma CoverStep(g: Bits, l: nat, p: nat)
    requires l < TOP
    ensures Cover(g, l, 2 * p) == One(Clear(g, l, 2 * p)) + Cover(g, l + 1, p)
    ensures Cover(g, l, 2 * p + 1) == One(Clear(g, l, 2 * p + 1)) + Cover(g, l + 1, p)
  {
    assert 2 * p / 2 == p && (2 * p + 1) / 2 == p;
  }

  /** In a fully merged state a block is covered exactly if all its pages are free. */
  lemma {:induction false} MergedCoverIsWhole(g: Bits, l: nat, j: nat)
    requires Shape(g) && Partition(g) && FullyMerged(g) && l < LEVELS
    ensures Cover(g, l, j) == One(Whole(FreeRow(g), l, j))
    decreases l
  {
    assert Cover(g, l, j) <= 1;
    if l == 0 {
      if j >= |g[0]| { CoverOutside(g, 0, j); }
    } else {
      MergedCoverIsWhole(g, l - 1, 2 * j);
      MergedCoverIsWhole(g, l - 1, 2 * j + 1);
      CoverStep(g, l - 1, j);
      assert !Both(g, l - 1, j);
    }
  }

  lemma MergedClear(g: Bits, l: nat, j: nat)
    requires Shape(g) && Partition(g) && FullyMerged(g) && l < LEVELS
    ensures var u := FreeRow(g); Clear(g, l, j) == (Whole(u, l, j) && (l == TOP || !Whole(u, l + 1, j / 2)))
  {
    MergedCoverIsWhole(g, l, j);
    assert Cover(g, l, j) == One(Clear(g, l, j)) + Cover(g, l + 1, j / 2);
    if l != TOP { MergedCoverIsWhole(g, l + 1, j / 2); }
  }

  /** A fully merged state is the canonical form of its free pages. */
  lemma MergedIsCanonical(g: Bits)
    requires Shape(g) && Partition(g) && FullyMerged(g)
    ensures Canonical(g, FreeRow(g))
  {
    forall l: nat, j: nat {:trigger Clear(g, l, j)} | l < LEVELS
      ensures var u := FreeRow(g); Clear(g, l, j) == (Whole(u, l, j) && (l == TOP || !Whole(u, l + 1, j / 2)))
    {
      MergedClear(g, l, j);
    }
  }

  /** The canonical form is fully merged. */
  lemma CanonicalIsMerged(g: Bits, u: seq<bool>)
    requires Canonical(g, u)
    ensures FullyMerged(g)
  {
    forall l: nat, p: nat | l < TOP ensures !Both(g, l, p) {
      assert (2 * p) / 2 == p;
      assert Clear(g, l, 2 * p) == (Whole(u, l, 2 * p) && !Whole(u, l + 1, p));
      assert Clear(g, l, 2 * p + 1) ==> Whole(u, l, 2 * p + 1);
    }
  }

  // ---------------------------------------------------------------- what one level merges

  /** Clear bits after the pairs from a up to z of level l are merged where both are free. */
  ghost predicate MergedPairs(g: Bits, r: Bits, l: nat, a: nat, z: nat) {
    && (forall p: nat {:trigger Both(r, l, p)} {:trigger Both(g, l, p)} ::
          Clear(r, l, 2 * p) == (Clear(g, l, 2 * p) && !(a <= p < z && Both(g, l, p))) &&
          Clear(r, l, 2 * p + 1) == (Clear(g, l, 2 * p + 1) && !(a <= p < z && Both(g, l, p))))
    && (forall p: nat {:trigger Clear(r, l + 1, p)} ::
          Clear(r, l + 1, p) == (Clear(g, l + 1, p) || (a <= p < z && Both(g, l, p))))
    && (forall k: nat, q: nat {:trigger Clear(r, k, q)} :: k != l && k != l + 1 ==> Clear(r, k, q) == Clear(g, k, q))
  }

  lemma MergedIfPairs(g: Bits, l: nat, i: nat, a: nat)
    requires Shape(g) && l < TOP && i < |g[l]| && 2 * a <= i <= 2 * a + 1
    ensures MergedPairs(g, MergedIf(g, l, i), l, a, a + 1)
  {
    EvenOfIs(i);
    assert Halves(g, l);
    var r := MergedIf(g, l, i);
    assert EvenOf(i) == 2 * a;
    if Both(g, l, a) {
      var g1 := WithBit(g, l + 1, a, false);
      var g2 := WithBit(g1, l, 2 * a, true);
      assert r == WithBit(g2, l, 2 * a + 1, true);
      forall k: nat, q: nat
        ensures Clear(r, k, q) ==
                if k == l && (q == 2 * a || q == 2 * a + 1) then false
                else if k == l + 1 && q == a then true else Clear(g, k, q)
      {
        WithBitClear(g, l + 1, a, false, k, q);
        WithBitClear(g1, l, 2 * a, true, k, q);
        WithBitClear(g2, l, 2 * a + 1, true, k, q);
      }
    }
  }

  lemma MergedPairsJoin(g: Bits, h: Bits, r: Bits, l: nat, a: nat, z: nat)
    requires MergedPairs(g, h, l, a, a + 1) && MergedPairs(h, r, l, a + 1, z) && a < z
    ensures MergedPairs(g, r, l, a, z)
  {
    forall p: nat
      ensures Clear(r, l, 2 * p) == (Clear(g, l, 2 * p) && !(a <= p < z && Both(g, l, p)))
      ensures Clear(r, l, 2 * p + 1) == (Clear(g, l, 2 * p + 1) && !(a <= p < z && Both(g, l, p)))
      ensures Clear(r, l + 1, p) == (Clear(g, l + 1, p) || (a <= p < z && Both(g, l, p)))
    {
      assert Both(h, l, p) == (Both(g, l, p) && p != a);
      assert Both(r, l, p) ==> Both(h, l, p);
      assert Clear(h, l + 1, p) == (Clear(g, l + 1, p) || (p == a && Both(g, l, p)));
    }
    forall k: nat, q: nat | k != l && k != l + 1 ensures Clear(r, k, q) == Clear(g, k, q) {
      assert Clear(h, k, q) == Clear(g, k, q);
    }
  }

  /** The pairs that the loop of coalesce looks at: from that of i on, one for every two blocks. */
  lemma {:induction false} MergedRangePairs(g: Bits, l: nat, i: nat, n: nat)
    requires Shape(g) && l < TOP && i + n <= |g[l]|
    ensures MergedPairs(g, MergedRange(g, l, i, i + n), l, i / 2, i / 2 + (n + 1) / 2)
  {
    PairsFrom(g, l, i, i + n, i / 2, i / 2 + (n + 1) / 2);
  }

  lemma {:induction false} PairsFrom(g: Bits, l: nat, i: nat, stop: nat, a: nat, z: nat)
    requires Shape(g) && l < TOP && stop <= |g[l]| && 2 * a <= i <= 2 * a + 1
    requires if i < stop then a < z && 2 * (z - a) - 1 <= stop - i <= 2 * (z - a) else z <= a
    ensures MergedPairs(g, MergedRange(g, l, i, stop), l, a, z)
    decreases z - a
  {
    if i < stop {
      MergedIfPairs(g, l, i, a);
      PairsFrom(MergedIf(g, l, i), l, i + 2, stop, a + 1, z);
      MergedPairsJoin(g, MergedIf(g, l, i), MergedRange(g, l, i, stop), l, a, z);
    }
  }

  // ---------------------------------------------------------------- from level to level

  /** Every page of u is a page of v. */
  ghost predicate Within(u: seq<bool>, v: seq<bool>) {
    |u| == |v| && forall p {:trigger u[p]} {:trigger v[p]} :: 0 <= p < |u| && u[p] ==> v[p]
  }

  lemma {:induction false} WholeWithin(u: seq<bool>, v: seq<bool>, l: nat, j: nat)
    requires Within(u, v) && Whole(u, l, j)
    ensures Whole(v, l, j)
  {
    if l > 0 {
      WholeWithin(u, v, l - 1, 2 * j);
      WholeWithin(u, v, l - 1, 2 * j + 1);
    }
  }

  /** The parent block is free as a whole in u; the top level has none. */
  ghost predicate ParentWhole(u: seq<bool>, l: nat, p: nat) {
    l < TOP && Whole(u, l + 1, p)
  }

  /**
    The bit of child q of pair p at level k, when the pages of u were free, those of v are, and
    the levels below l are merged.
  */
  ghost predicate StageClear(u: seq<bool>, v: seq<bool>, l: nat, k: nat, p: nat, q: nat) {
    if k < l then Whole(v, k, q) && !ParentWhole(v, k, p)
    else if k == l then Whole(v, k, q) && !ParentWhole(u, k, p)
    else Whole(u, k, q) && !ParentWhole(u, k, p)
  }

  ghost predicate StageAt(g: Bits, u: seq<bool>, v: seq<bool>, l: nat, k: nat, p: nat) {
    && Clear(g, k, 2 * p) == StageClear(u, v, l, k, p, 2 * p)
    && Clear(g, k, 2 * p + 1) == StageClear(u, v, l, k, p, 2 * p + 1)
  }

  ghost predicate Stage(g: Bits, u: seq<bool>, v: seq<bool>, l: nat) {
    forall k: nat, p: nat {:trigger StageAt(g, u, v, l, k, p)} :: k < LEVELS ==> StageAt(g, u, v, l, k, p)
  }

  /** The blocks of level l that v has and u has not lie from a to z. */
  ghost predicate NewBetween(u: seq<bool>, v: seq<bool>, l: nat, a: nat, z: nat) {
    forall j: nat {:trigger Whole(v, l, j)} {:trigger Whole(u, l, j)} ::
      Whole(v, l, j) && !Whole(u, l, j) ==> a <= j <= z
  }

  /** h is half of a, rounded down. */
  predicate Half(h: nat, a: nat) {
    2 * h <= a <= 2 * h + 1
  }

  lemma NewBetweenUp(u: seq<bool>, v: seq<bool>, l: nat, a: nat, z: nat, b: nat, y: nat)
    requires Within(u, v) && NewBetween(u, v, l, a, z) && Half(b, a) && Half(y, z)
    ensures NewBetween(u, v, l + 1, b, y)
  {
    forall p: nat {:trigger Whole(v, l + 1, p)} | Whole(v, l + 1, p) && !Whole(u, l + 1, p)
      ensures b <= p <= y
    {
      var c := if Whole(u, l, 2 * p) then 2 * p + 1 else 2 * p;
      assert Whole(v, l, c) && !Whole(u, l, c);
    }
  }

  /** Merging the pairs from a up to z, among them all that have become free, takes the state one level up. */
  lemma StageUpAt(g: Bits, r: Bits, u: seq<bool>, v: seq<bool>, l: nat, a: nat, z: nat, k: nat, p: nat)
    requires Within(u, v) && l < TOP && k < LEVELS && StageAt(g, u, v, l, k, p) && MergedPairs(g, r, l, a, z)
    requires k == l + 1 ==> StageAt(g, u, v, l, l, 2 * p) && StageAt(g, u, v, l, l, 2 * p + 1)
    requires forall q: nat {:trigger Whole(v, l + 1, q)} :: Whole(v, l + 1, q) && !Whole(u, l + 1, q) ==> a <= q < z
    ensures StageAt(r, u, v, l + 1, k, p)
  {
    if k == l {
      assert Both(g, l, p) == (Whole(v, l + 1, p) && !Whole(u, l + 1, p));
      if Whole(u, l + 1, p) { WholeWithin(u, v, l + 1, p); }
      assert Both(r, l, p) || !Both(r, l, p);
    } else if k == l + 1 {
      StageUpParent(g, r, u, v, l, a, z, p, 2 * p);
      StageUpParent(g, r, u, v, l, a, z, p, 2 * p + 1);
    } else {
      assert Clear(r, k, 2 * p) == Clear(g, k, 2 * p);
      assert Clear(r, k, 2 * p + 1) == Clear(g, k, 2 * p + 1);
    }
  }

  lemma StageUpParent(g: Bits, r: Bits, u: seq<bool>, v: seq<bool>, l: nat, a: nat, z: nat, p: nat, q: nat)
    requires Within(u, v) && l < TOP && MergedPairs(g, r, l, a, z) && (q == 2 * p || q == 2 * p + 1)
    requires StageAt(g, u, v, l, l, q) && Clear(g, l + 1, q) == StageClear(u, v, l, l + 1, p, q)
    requires Whole(v, l + 1, q) && !Whole(u, l + 1, q) ==> a <= q < z
    ensures Clear(r, l + 1, q) == StageClear(u, v, l + 1, l + 1, p, q)
  {
    assert Both(g, l, q) == (Whole(v, l + 1, q) && !Whole(u, l + 1, q));
    if Whole(u, l + 1, q) { WholeWithin(u, v, l + 1, q); }
    if ParentWhole(u, l + 1, p) { assert Whole(u, l + 1, 2 * p) && Whole(u, l + 1, 2 * p + 1); }
  }

  lemma StageUp(g: Bits, r: Bits, u: seq<bool>, v: seq<bool>, l: nat, a: nat, z: nat)
    requires Within(u, v) && l < TOP && Stage(g, u, v, l) && MergedPairs(g, r, l, a, z)
    requires forall q: nat {:trigger Whole(v, l + 1, q)} :: Whole(v, l + 1, q) && !Whole(u, l + 1, q) ==> a <= q < z
    ensures Stage(r, u, v, l + 1)
  {
    var m := l + 1;
    forall k: nat, p: nat | k < LEVELS ensures StageAt(r, u, v, m, k, p) {
      assert StageAt(g, u, v, l, k, p);
      assert StageAt(g, u, v, l, l, 2 * p) && StageAt(g, u, v, l, l, 2 * p + 1);
      StageUpAt(g, r, u, v, l, a, z, k, p);
    }
  }

  // ---------------------------------------------------------------- the exact condition

  /**
    The n blocks of level l from a to z, and their ancestors, are all looked at: on every level
    there are at least as many pairs in n blocks as there are parents.
  */
  predicate Reaches(a: nat, z: nat, n: nat, l: nat)
    requires l <= TOP
    decreases TOP - l, a
  {
    l == TOP || (z / 2 < a / 2 + (n + 1) / 2 && Reaches(a / 2, z / 2, n / 2, l + 1))
  }

  /** One level of coalesce that looks at all the pairs it should. */
  lemma LevelStage(g: Bits, u: seq<bool>, v: seq<bool>, n: nat, l: nat, a: nat, z: nat, b: nat, y: nat, c: nat)
    requires Shape(g) && l < TOP && a + n <= |g[l]| && Within(u, v) && Half(b, a) && Half(y, z) && Half(c, n + 1)
    requires Stage(g, u, v, l) && NewBetween(u, v, l, a, z) && y < b + c
    ensures Stage(MergedRange(g, l, a, a + n), u, v, l + 1) && NewBetween(u, v, l + 1, b, y)
  {
    PairsFrom(g, l, a, a + n, b, b + c);
    NewBetweenUp(u, v, l, a, z, b, y);
    StageUp(g, MergedRange(g, l, a, a + n), u, v, l, b, b + c);
  }

  lemma {:induction false} CoalescedStage(g: Bits, u: seq<bool>, v: seq<bool>, n: nat, l: nat, a: nat, z: nat)
    requires Shape(g) && l < TOP && a + n <= |g[l]| && Within(u, v)
    requires Stage(g, u, v, l) && NewBetween(u, v, l, a, z) && Reaches(a, z, n, l)
    ensures Stage(Coalesced(g, n, l, a), u, v, TOP)
    decreases TOP - l
  {
    LevelStage(g, u, v, n, l, a, z, a / 2, z / 2, (n + 1) / 2);
    if l + 1 < TOP {
      assert Halves(g, l);
      CoalescedStage(MergedRange(g, l, a, a + n), u, v, n / 2, l + 1, a / 2, z / 2);
    }
  }

  lemma StageIsCanonical(g: Bits, u: seq<bool>, v: seq<bool>)
    requires Stage(g, u, v, TOP)
    ensures Canonical(g, v)
  {
    forall l: nat, j: nat {:trigger Clear(g, l, j)} | l < LEVELS
      ensures Clear(g, l, j) == (Whole(v, l, j) && (l == TOP || !Whole(v, l + 1, j / 2)))
    {
      assert StageAt(g, u, v, TOP, l, j / 2);
      assert j == 2 * (j / 2) || j == 2 * (j / 2) + 1;
    }
  }

  lemma CanonicalIsStage(g: Bits, u: seq<bool>, k: nat, p: nat)
    requires Canonical(g, u) && k < LEVELS
    ensures StageAt(g, u, u, 0, k, p)
  {
    assert (2 * p) / 2 == p && (2 * p + 1) / 2 == p;
    assert Clear(g, k, 2 * p) == (Whole(u, k, 2 * p) && (k == TOP || !Whole(u, k + 1, p)));
    assert Clear(g, k, 2 * p + 1) == (Whole(u, k, 2 * p + 1) && (k == TOP || !Whole(u, k + 1, p)));
  }

  /** The pages of u and those from i on. */
  ghost function WithPages(u: seq<bool>, i: nat, n: nat): (v: seq<bool>)
    ensures Within(u, v) && forall p {:trigger v[p]} :: 0 <= p < |u| ==> v[p] == (u[p] || i <= p < i + n)
  {
    seq(|u|, p requires 0 <= p < |u| => u[p] || i <= p < i + n)
  }

  lemma {:induction false} ReleasedClear(g: Bits, i: nat, n: nat, k: nat, q: nat)
    requires Shape(g) && i + n <= |g[0]|
    ensures Clear(Released(g, i, n), k, q) == (Clear(g, k, q) || (k == 0 && i <= q < i + n))
  {
    if n > 0 {
      ReleasedClear(g, i, n - 1, k, q);
      WithBitClear(Released(g, i, n - 1), 0, i + n - 1, false, k, q);
    }
  }

  lemma ReleasedStageAt(g: Bits, u: seq<bool>, i: nat, n: nat, k: nat, p: nat, q: nat)
    requires Shape(g) && Canonical(g, u) && |u| == |g[0]| && i + n <= |u| && k < LEVELS
    requires (q == 2 * p || q == 2 * p + 1) && forall x :: i <= x < i + n ==> !u[x]
    ensures Clear(Released(g, i, n), k, q) == StageClear(u, WithPages(u, i, n), 0, k, p, q)
  {
    var v := WithPages(u, i, n);
    CanonicalIsStage(g, u, k, p);
    ReleasedClear(g, i, n, k, q);
    if k == 0 && i <= q < i + n {
      assert v[q] && !u[q];
      assert !Whole(u, 0, q);
      assert !Whole(u, 1, p);
    }
  }

  /** The first loop of pfree puts the pages on the lowest level. */
  lemma ReleasedStage(g: Bits, u: seq<bool>, i: nat, n: nat)
    requires Shape(g) && Canonical(g, u) && |u| == |g[0]| && i + n <= |u|
    requires forall p :: i <= p < i + n ==> !u[p]
    ensures Stage(Released(g, i, n), u, WithPages(u, i, n), 0)
  {
    var r, v := Released(g, i, n), WithPages(u, i, n);
    forall k: nat, p: nat | k < LEVELS ensures StageAt(r, u, v, 0, k, p) {
      ReleasedStageAt(g, u, i, n, k, p, 2 * p);
      ReleasedStageAt(g, u, i, n, k, p, 2 * p + 1);
    }
  }

  /** The state after pfree of the n pages from i on has got past its test for NULL and for no pages. */
  ghost function Freed(g: Bits, i: nat, n: nat): Bits
    requires Shape(g) && i + n <= |g[0]|
  {
    Coalesced(Released(g, i, n), n, 0, i)
  }

  /** The state after pfree of the n pages from i on; the address of page 0 is NULL. */
  ghost function Pfreed(g: Bits, i: nat, n: nat): Bits
    requires Shape(g) && i + n <= |g[0]|
  {
    if i == 0 || n == 0 then g else Freed(g, i, n)
  }

  /** What pfree demands of a fully merged state. */
  ghost predicate Freeable(g: Bits, i: nat, n: nat) {
    Shape(g) && Partition(g) && FullyMerged(g) && i + n <= |g[0]| && Allocated(g, i, n)
  }

  /** Where every level is reached, pfree merges all that can be merged. */
  lemma PfreeMergesAll(g: Bits, i: nat, n: nat)
    requires n > 0 && Freeable(g, i, n) && Reaches(i, i + n - 1, n, 0)
    ensures FullyMerged(Freed(g, i, n))
  {
    var u := FreeRow(g);
    var v := WithPages(u, i, n);
    MergedIsCanonical(g);
    forall p | i <= p < i + n ensures !u[p] { assert Cover(g, 0, p) == 0; }
    ReleasedStage(g, u, i, n);
    assert NewBetween(u, v, 0, i, i + n - 1);
    CoalescedStage(Released(g, i, n), u, v, n, 0, i, i + n - 1);
    StageIsCanonical(Freed(g, i, n), u, v);
    CanonicalIsMerged(Freed(g, i, n), v);
  }

  // ---------------------------------------------------------------- and no other

  lemma {:induction false} CoalescedLower(g: Bits, n: nat, l: nat, i: nat, k: nat, q: nat)
    requires Shape(g) && k < l < TOP && i + n <= |g[l]|
    ensures Clear(Coalesced(g, n, l, i), k, q) == Clear(g, k, q)
    decreases TOP - l
  {
    assert Halves(g, l);
    var r := MergedRange(g, l, i, i + n);
    MergedRangePairs(g, l, i, n);
    assert Clear(r, k, q) == Clear(g, k, q);
    if l + 1 < TOP { CoalescedLower(r, n / 2, l + 1, i / 2, k, q); }
  }

  /** Where a level is not reached and all pages are free, two buddies stay free. */
  lemma {:induction false} CoalescedStuck(g: Bits, u: seq<bool>, v: seq<bool>, n: nat, l: nat, a: nat, z: nat)
    returns (k: nat, p: nat)
    requires Shape(g) && l < TOP && a + n <= |g[l]| && a <= z < |g[l]| && Within(u, v)
    requires Stage(g, u, v, l) && NewBetween(u, v, l, a, z) && !Reaches(a, z, n, l)
    requires forall j: nat {:trigger Whole(v, l, j)} :: j < |g[l]| ==> Whole(v, l, j)
    requires forall j: nat {:trigger Whole(u, l, j)} :: a <= j <= z ==> !Whole(u, l, j)
    ensures k < TOP && Both(Coalesced(g, n, l, a), k, p)
    decreases TOP - l
  {
    var r, b, y, c := MergedRange(g, l, a, a + n), a / 2, z / 2, (n + 1) / 2;
    assert Halves(g, l);
    if b + c <= y {
      k, p := l, b + c;
      MissedPair(g, u, v, n, l, a, z, b, y, c);
      if l + 1 < TOP {
        CoalescedLower(r, n / 2, l + 1, b, l, 2 * p);
        CoalescedLower(r, n / 2, l + 1, b, l, 2 * p + 1);
      }
    } else {
      LevelStage(g, u, v, n, l, a, z, b, y, c);
      OldUp(g, u, v, l, a, z, b, y);
      k, p := CoalescedStuck(r, u, v, n / 2, l + 1, b, y);
    }
  }

  lemma OldUp(g: Bits, u: seq<bool>, v: seq<bool>, l: nat, a: nat, z: nat, b: nat, y: nat)
    requires Shape(g) && l < TOP && Half(b, a) && Half(y, z) && a <= z
    requires forall j: nat {:trigger Whole(v, l, j)} :: j < |g[l]| ==> Whole(v, l, j)
    requires forall j: nat {:trigger Whole(u, l, j)} :: a <= j <= z ==> !Whole(u, l, j)
    ensures forall j: nat {:trigger Whole(v, l + 1, j)} :: j < |g[l + 1]| ==> Whole(v, l + 1, j)
    ensures forall j: nat {:trigger Whole(u, l + 1, j)} :: b <= j <= y ==> !Whole(u, l + 1, j)
  {
    assert Halves(g, l);
    forall j: nat {:trigger Whole(v, l + 1, j)} | j < |g[l + 1]| ensures Whole(v, l + 1, j) {
      assert Whole(v, l, 2 * j) && Whole(v, l, 2 * j + 1);
    }
    forall j: nat {:trigger Whole(u, l + 1, j)} | b <= j <= y ensures !Whole(u, l + 1, j) {
      assert a <= 2 * j <= z || a <= 2 * j + 1 <= z;
      assert !Whole(u, l, 2 * j) || !Whole(u, l, 2 * j + 1);
    }
  }

  /** The pair after the last one looked at keeps its two free blocks. */
  lemma MissedPair(g: Bits, u: seq<bool>, v: seq<bool>, n: nat, l: nat, a: nat, z: nat, b: nat, y: nat, c: nat)
    requires Shape(g) && l < TOP && a + n <= |g[l]| && a <= z < |g[l]| && Half(b, a) && Half(y, z) && Half(c, n + 1)
    requires Stage(g, u, v, l) && b + c <= y
    requires forall j: nat {:trigger Whole(v, l, j)} :: j < |g[l]| ==> Whole(v, l, j)
    requires forall j: nat {:trigger Whole(u, l, j)} :: a <= j <= z ==> !Whole(u, l, j)
    ensures Both(MergedRange(g, l, a, a + n), l, b + c)
  {
    var p := b + c;
    PairsFrom(g, l, a, a + n, b, b + c);
    OldUp(g, u, v, l, a, z, b, y);
    assert Halves(g, l);
    assert StageAt(g, u, v, l, l, p);
    assert !Whole(u, l + 1, p);
    assert Both(g, l, p);
  }

  function RowLength(m: nat, l: nat): nat
    decreases TOP - l
  {
    if l >= TOP then m else 2 * RowLength(m, l + 1)
  }

  /** The canonical form of u, which has 64 m pages. */
  ghost function CanonicalBits(u: seq<bool>, m: nat): Bits {
    seq(LEVELS, l requires 0 <= l < LEVELS => CanonicalRow(u, m, l))
  }

  ghost function CanonicalRow(u: seq<bool>, m: nat, l: nat): seq<bool> {
    seq(RowLength(m, l), j requires j >= 0 => !(Whole(u, l, j) && (l == TOP || !Whole(u, l + 1, j / 2))))
  }

  lemma {:induction false} WholeShort(u: seq<bool>, m: nat, l: nat, j: nat)
    requires |u| == RowLength(m, 0) && l < LEVELS && Whole(u, l, j)
    ensures j < RowLength(m, l)
  {
    if l > 0 {
      WholeShort(u, m, l - 1, 2 * j + 1);
      assert RowLength(m, l - 1) == 2 * RowLength(m, l);
    }
  }

  lemma CanonicalBitsAre(u: seq<bool>, m: nat)
    requires |u| == RowLength(m, 0)
    ensures var g := CanonicalBits(u, m); Shape(g) && Canonical(g, u) && Partition(g) && |g[0]| == |u|
  {
    var g := CanonicalBits(u, m);
    forall l | 0 <= l < TOP ensures Halves(g, l) { assert RowLength(m, l) == 2 * RowLength(m, l + 1); }
    forall l: nat, j: nat {:trigger Clear(g, l, j)} | l < LEVELS
      ensures Clear(g, l, j) == (Whole(u, l, j) && (l == TOP || !Whole(u, l + 1, j / 2)))
    {
      if Whole(u, l, j) { WholeShort(u, m, l, j); }
    }
    forall l: nat, j: nat ensures Cover(g, l, j) <= 1 {
      if l < LEVELS { CanonicalCover(g, u, l, j); }
    }
  }

  /** All pages but the n from i on. */
  ghost function AllBut(i: nat, n: nat): (u: seq<bool>) {
    seq(RowLength(i + n, 0), x => !(i <= x < i + n))
  }

  lemma AllButFreeable(i: nat, n: nat)
    requires n > 0
    ensures var u := AllBut(i, n);
            var g := CanonicalBits(u, i + n);
            Freeable(g, i, n) && Canonical(g, u) && |u| == |g[0]| && i + n <= |u|
  {
    var u := AllBut(i, n);
    var g := CanonicalBits(u, i + n);
    assert RowLength(i + n, 0) == 64 * (i + n);
    CanonicalBitsAre(u, i + n);
    CanonicalIsMerged(g, u);
    forall x: nat {:trigger Cover(g, 0, x)} | i <= x < i + n ensures Cover(g, 0, x) == 0 {
      CanonicalCover(g, u, 0, x);
    }
  }

  lemma AllButStuck(g: Bits, u: seq<bool>, i: nat, n: nat) returns (k: nat, p: nat)
    requires Shape(g) && u == AllBut(i, n) && Canonical(g, u) && |u| == |g[0]| && i + n <= |u| && n > 0
    requires !Reaches(i, i + n - 1, n, 0)
    ensures k < TOP && Both(Freed(g, i, n), k, p)
  {
    ReleasedStage(g, u, i, n);
    var v := WithPages(u, i, n);
    assert NewBetween(u, v, 0, i, i + n - 1);
    k, p := CoalescedStuck(Released(g, i, n), u, v, n, 0, i, i + n - 1);
  }

  /**
    Where some level is not reached there is a fully merged state that pfree leaves with two free
    buddies: the one in which all other pages are free.
  */
  lemma PfreeLeavesBuddies(i: nat, n: nat) returns (g: Bits)
    requires i > 0 && n > 0 && !Reaches(i, i + n - 1, n, 0)
    ensures Freeable(g, i, n) && !FullyMerged(Pfreed(g, i, n))
  {
    var u := AllBut(i, n);
    g := CanonicalBits(u, i + n);
    AllButFreeable(i, n);
    var k, p := AllButStuck(g, u, i, n);
  }

  /**
    pfree of the n pages from i on keeps every fully merged state fully merged if and only if
    its levels are all reached, or it does nothing.
  */
  lemma PfreeMergesExactly(i: nat, n: nat)
    ensures i == 0 || n == 0 || Reaches(i, i + n - 1, n, 0) <==>
            forall g {:trigger Freeable(g, i, n)} :: Freeable(g, i, n) ==> FullyMerged(Pfreed(g, i, n))
  {
    if i == 0 || n == 0 || Reaches(i, i + n - 1, n, 0) {
      forall g | Freeable(g, i, n) ensures FullyMerged(Pfreed(g, i, n)) {
        if i != 0 && n != 0 { PfreeMergesAll(g, i, n); }
      }
    } else {
      var g := PfreeLeavesBuddies(i, n);
    }
  }

  lemma {:induction false} CoalescedNone(g: Bits, l: nat, i: nat)
    requires Shape(g) && l < TOP && i <= |g[l]|
    ensures Coalesced(g, 0, l, i) == g
    decreases TOP - l
  {
    assert Halves(g, l);
    if l + 1 < TOP { CoalescedNone(g, l + 1, i / 2); }
  }

  /**
    Pages 0 and 1 are free as a block and page 2 alone; page 3 is given back. Pages 2 and 3 become
    a block, and there are then two free buddies of level 1 that nobody merges.
  */
  lemma PageThreeAlone(g: Bits)
    requires Shape(g) && 3 < |g[0]| && Clear(g, 1, 0) && Clear(g, 0, 2)
    ensures Both(Freed(g, 3, 1), 1, 0)
  {
    var h := Released(g, 3, 1);
    ReleasedClear(g, 3, 1, 0, 2);
    ReleasedClear(g, 3, 1, 0, 3);
    ReleasedClear(g, 3, 1, 1, 0);
    assert Halves(g, 0);
    PairsFrom(h, 0, 3, 4, 1, 2);
    assert Both(h, 0, 1);
    var r := MergedRange(h, 0, 3, 4);
    assert Clear(r, 1, 1) && Clear(r, 1, 0);
    CoalescedNone(r, 1, 1);
  }

  /** Fewer than 32 pages never reach the top: a page table given back alone may stay unmerged. */
  lemma FewPagesDoNotReach(i: nat, n: nat)
    requires 0 < n < 32
    ensures !Reaches(i, i + n - 1, n, 0)
  {
    assert n / 2 / 2 / 2 / 2 / 2 == 0;
    var a1, z1, n1 := i / 2, (i + n - 1) / 2, n / 2;
    var a2, z2, n2 := a1 / 2, z1 / 2, n1 / 2;
    var a3, z3, n3 := a2 / 2, z2 / 2, n2 / 2;
    var a4, z4, n4 := a3 / 2, z3 / 2, n3 / 2;
    var a5, z5, n5 := a4 / 2, z4 / 2, n4 / 2;
    assert !Reaches(a5, z5, n5, 5);
    assert !Reaches(a4, z4, n4, 4);
    assert !Reaches(a3, z3, n3, 3);
    assert !Reaches(a2, z2, n2, 2);
    assert !Reaches(a1, z1, n1, 1);
  }

  /** Half blocks of the top level from a block's start on reach it. */
  lemma HalfBlocksReach(i: nat, n: nat)
    requires i % 64 == 0 && n % 32 == 0 && n > 0
    ensures Reaches(i, i + n - 1, n, 0)
  {
    HalfBlocks(i / 64, n / 32);
  }

  lemma HalfBlocks(b: nat, c: nat)
    requires c > 0
    ensures Reaches(64 * b, 64 * b + 32 * c - 1, 32 * c, 0)
  {
    HalfBlocksAtFive(b, c, 5);
    ReachesFromZero(2 * b, c, 5);
    StartOfFive(2 * b);
    StartOfFive(c);
  }

  lemma HalfBlocksAtFive(b: nat, c: nat, l: nat)
    requires c > 0 && l == 5
    ensures Reaches(2 * b, 2 * b + c - 1, c, l)
  {
    assert (2 * b) / 2 == b;
    assert Reaches(b, (2 * b + c - 1) / 2, c / 2, l + 1);
  }

  lemma StartOfFive(j: nat)
    ensures Start(5, j) == 32 * j
  {
    assert Start(4, 2 * j) == Start(3, 4 * j);
    assert Start(3, 4 * j) == Start(2, 8 * j);
    assert Start(2, 8 * j) == Start(1, 16 * j);
  }

  lemma {:induction false} ReachesFromZero(a: nat, n: nat, l: nat)
    requires n > 0 && l <= TOP && Reaches(a, a + n - 1, n, l)
    ensures Start(l, n) > 0 && Reaches(Start(l, a), Start(l, a) + Start(l, n) - 1, Start(l, n), 0)
    decreases l
  {
    if l > 0 {
      TwiceReaches(a, n, l);
      ReachesFromZero(2 * a, 2 * n, l - 1);
    }
  }

  lemma TwiceReaches(a: nat, n: nat, l: nat)
    requires n > 0 && 0 < l <= TOP && Reaches(a, a + n - 1, n, l)
    ensures Reaches(2 * a, 2 * a + 2 * n - 1, 2 * n, l - 1)
  {
    assert (2 * a) / 2 == a && (2 * a + 2 * n - 1) / 2 == a + n - 1 && (2 * n) / 2 == n;
  }

  /** An odd half block and an even number of them do not; nor is every range that reaches aligned. */
  lemma ReachingIsDelicate()
    ensures !Reaches(32, 32 + 63, 64, 0) && Reaches(32, 32 + 95, 96, 0) && Reaches(1, 63, 63, 0)
  {
    assert Reaches(32, 95, 64, 0) == Reaches(1, 2, 2, 5);
    assert Reaches(32, 127, 96, 0) == Reaches(1, 3, 3, 5);
    assert Reaches(1, 63, 63, 0) == Reaches(0, 1, 1, 5);
  }

  // ---------------------------------------------------------------- pmalloc

  /** pmalloc keeps a fully merged state fully merged. */
  lemma PmallocKeepsMerged(g: Bits, n: nat, l: nat, j: nat)
    requires Shape(g) && Partition(g) && FullyMerged(g) && l < LEVELS && Clear(g, l, j) && 1 <= n <= Pow2(l)
    ensures FullyMerged(Taken(g, n, l, j))
  {
    var g1, r := WithBit(g, l, j, true), Taken(g, n, l, j);
    ClearIsSolid(g, l, j);
    SolidAfterSet(g, l, j);
    WithBitShape(g, l, j, true);
    forall k: nat, p: nat | k < TOP ensures !Both(r, k, p) {
      if Under(k, 2 * p, l, j) {
        PairBelow(g1, n, l, j, k, p);
      } else {
        PairElsewhere(g, n, l, j, k, p);
      }
    }
  }

  lemma PairBelow(g: Bits, n: nat, l: nat, j: nat, k: nat, p: nat)
    requires Shape(g) && l < LEVELS && j < |g[l]| && Solid(g, l, j) && 1 <= n <= Pow2(l) && Under(k, 2 * p, l, j)
    ensures !Both(Carved(g, n, l, j), k, p)
  {
    EvenOfIs(2 * p);
    CarvedSiblings(g, n, l, j, k, 2 * p);
    assert NotBothClear(Carved(g, n, l, j), k, 2 * p);
  }

  lemma PairElsewhere(g: Bits, n: nat, l: nat, j: nat, k: nat, p: nat)
    requires Shape(g) && FullyMerged(g) && l < LEVELS && j < |g[l]| && 1 <= n <= Pow2(l) && k < TOP
    requires Shape(WithBit(g, l, j, true)) && Solid(WithBit(g, l, j, true), l, j) && !Under(k, 2 * p, l, j)
    ensures !Both(Taken(g, n, l, j), k, p)
  {
    NotUnderBuddy(k, p, l, j);
    TakenElsewhere(g, n, l, j, k, 2 * p);
    TakenElsewhere(g, n, l, j, k, 2 * p + 1);
    assert !Both(g, k, p);
  }

  lemma TakenElsewhere(g: Bits, n: nat, l: nat, j: nat, k: nat, q: nat)
    requires Shape(g) && l < LEVELS && j < |g[l]| && 1 <= n <= Pow2(l) && !Under(k, q, l, j)
    requires Shape(WithBit(g, l, j, true)) && Solid(WithBit(g, l, j, true), l, j)
    ensures Clear(Taken(g, n, l, j), k, q) ==> Clear(g, k, q)
  {
    CarvedCover(WithBit(g, l, j, true), n, l, j, k, q);
    WithBitClear(g, l, j, true, k, q);
  }

  lemma NotUnderBuddy(k: nat, p: nat, l: nat, j: nat)
    requires !Under(k, 2 * p, l, j)
    ensures !Under(k, 2 * p + 1, l, j)
  {
    assert (2 * p) / 2 == p && (2 * p + 1) / 2 == p;
  }

  // ---------- The top level ----------

  lemma {:induction false} MergedRangeTop(g: Bits, l: nat, i: nat, stop: nat)
    requires Shape(g) && l + 1 < TOP && stop <= |g[l]|
    ensures MergedRange(g, l, i, stop)[TOP] == g[TOP]
    decreases stop - i
  {
    if i < stop { MergedRangeTop(MergedIf(g, l, i), l, i + 2, stop); }
  }

  lemma {:induction false} CoalescedTop(g: Bits, n: nat, l: nat, i: nat)
    requires Shape(g) && l < TOP && i + n <= |g[l]| && n < Pow2(TOP - 1 - l)
    ensures Coalesced(g, n, l, i)[TOP] == g[TOP]
    decreases TOP - l
  {
    assert Halves(g, l);
    if l + 1 < TOP {
      MergedRangeTop(g, l, i, i + n);
      CoalescedTop(MergedRange(g, l, i, i + n), n / 2, l + 1, i / 2);
    }
  }

  lemma {:induction false} ReleasedTop(g: Bits, i: nat, n: nat)
    requires Shape(g) && i + n <= |g[0]|
    ensures Released(g, i, n)[TOP] == g[TOP]
  {
    if n > 0 { ReleasedTop(g, i, n - 1); }
  }

  /** pfree of fewer than 32 pages never makes a block of the top level free. */
  lemma FewPagesMakeNoBlock(g: Bits, i: nat, n: nat)
    requires Shape(g) && i + n <= |g[0]| && n < 32
    ensures Freed(g, i, n)[TOP] == g[TOP]
  {
    assert Pow2(5) == 32;
    ReleasedTop(g, i, n);
    CoalescedTop(Released(g, i, n), n, 0, i);
  }
}

/**
  The page allocator as its callers see it: a set of free page frames. The set
  is what the seven bitmaps of the allocator stand for.
*/
module PagePool {
  import opened Machine
  import opened Buddy
  import opened Pmm
  import opened PageLevel
  import BuddyMerge

  ghost function Range(first: nat, n: nat): (r: set<nat>)
    ensures forall x: nat :: x in r <==> first <= x < first + n
  {
    if n == 0 then {} else Range(first, n - 1) + {first + n - 1}
  }

  ghost predicate StandsFor(g: Bits, free: set<nat>) {
    forall p: nat {:trigger Cover(g, 0, p)} :: p in free <==> Cover(g, 0, p) == 1
  }

  lemma {:induction false} CoverInRange(g: Bits, l: nat, j: nat)
    requires Shape(g) && Cover(g, l, j) > 0
    ensures l < LEVELS && j < |g[l]|
    decreases LEVELS - l
  {
    if !Clear(g, l, j) {
      CoverInRange(g, l + 1, j / 2);
      assert Halves(g, l);
    }
  }

  /** Taking pages takes them out of the set. */
  lemma TookFromSet(g: Bits, g': Bits, first: nat, n: nat, free: set<nat>)
    requires TookPages(g, g', first, n) && StandsFor(g, free)
    ensures StandsFor(g', free - Range(first, n)) && Range(first, n) <= free
  {
    forall p: nat ensures p in free - Range(first, n) <==> Cover(g', 0, p) == 1 {
      assert first <= p < first + n ==> Cover(g, 0, p) == 1 && Cover(g', 0, p) == 0;
    }
    forall p | p in Range(first, n) ensures p in free { assert Cover(g', 0, p) == 0; }
  }

  /** Giving pages back puts them into the set. */
  lemma GaveToSet(g: Bits, g': Bits, first: nat, n: nat, free: set<nat>)
    requires TookPages(g', g, first, n) && StandsFor(g, free)
    ensures StandsFor(g', free + Range(first, n)) && Range(first, n) !! free
  {
    forall p: nat ensures p in free + Range(first, n) <==> Cover(g', 0, p) == 1 {
      assert p in free <==> Cover(g, 0, p) == 1;
    }
    forall p | p in Range(first, n) ensures p !in free { assert Cover(g, 0, p) == 0; }
  }

  lemma {:induction false} NoneCounted(s: seq<bool>)
    ensures Count(s) == 0 <==> forall j {:trigger s[j]} :: 0 <= j < |s| ==> s[j]
  {
    if s != [] {
      NoneCounted(s[..|s| - 1]);
      assert forall j {:trigger s[j]} :: 0 <= j < |s| - 1 ==> s[..|s| - 1][j] == s[j];
    }
  }

  /** pmalloc refuses 64 pages exactly if no block of the top level is free. */
  lemma TopRefused(g: Bits)
    requires Shape(g)
    ensures Refuses(g, 64) <==> Count(g[TOP]) == 0
  {
    NoneCounted(g[TOP]);
    assert Pow2(TOP) == 64;
    forall k: nat ensures 64 <= Pow2(k) <==> TOP <= k { LevelEnough(64, TOP, k); }
    if Count(g[TOP]) == 0 {
      forall k: nat, q: nat {:trigger Clear(g, k, q)} | 64 <= Pow2(k) ensures !Clear(g, k, q) {}
    } else {
      var j :| 0 <= j < |g[TOP]| && !g[TOP][j];
      assert Clear(g, TOP, j);
    }
  }

  /** And otherwise takes one of them whole. */
  lemma TopTaken(g: Bits, level: nat, i: nat, j: nat)
    requires Shape(g) && LeastLevel(64, level) && level <= i < LEVELS && Clear(g, i, j)
    ensures Count(Taken(g, 64, i, j)[TOP]) == Count(g[TOP]) - 1
  {
    LevelEnough(64, level, TOP);
    LevelEnough(64, level, level);
    LevelEnough(64, TOP, level);
    assert Pow2(TOP) == 64 && i == TOP;
    CountUpdate(g[TOP], j, true);
  }

  lemma TakenFacts(g: Bits, n: nat, level: nat, i: nat, j: nat)
    requires Shape(g) && Partition(g) && LeastLevel(n, level) && 0 < n <= 64 && level <= i < LEVELS && Clear(g, i, j)
    ensures BuddyMerge.FullyMerged(g) ==> BuddyMerge.FullyMerged(Taken(g, n, i, j))
    ensures n == 64 ==> Count(Taken(g, n, i, j)[TOP]) == Count(g[TOP]) - 1
  {
    LevelEnough(n, level, i);
    if BuddyMerge.FullyMerged(g) { BuddyMerge.PmallocKeepsMerged(g, n, i, j); }
    if n == 64 { TopTaken(g, level, i, j); }
  }

  lemma GaveMerged(g: Bits, f: nat, n: nat)
    requires Shape(g) && Partition(g) && f + n <= |g[0]| && Allocated(g, f, n)
    ensures BuddyMerge.FullyMerged(g) && Reaching(f, n) ==> BuddyMerge.FullyMerged(BuddyMerge.Freed(g, f, n))
  {
    if BuddyMerge.FullyMerged(g) && Reaching(f, n) { BuddyMerge.PfreeMergesAll(g, f, n); }
  }

  /** The pages whose pfree merges all that can be merged. */
  ghost predicate Reaching(first: nat, n: nat) {
    n > 0 && BuddyMerge.Reaches(first, first + n - 1, n, 0)
  }

  class PagePool {
    const pmm: Pmm
    ghost var free: set<nat>

    ghost function Pages(): nat {
      8 * BitStore.SizeAt(pmm.size, 0)
    }

    /** The number of free blocks of the top level, 64 pages each. */
    ghost function TopBlocks(): nat
      requires |pmm.g| == LEVELS
      reads pmm
    {
      Count(pmm.g[TOP])
    }

    ghost predicate Valid()
      reads this, pmm, pmm.store
    {
      pmm.Valid() && StandsFor(pmm.g, free)
    }

    /** The pool of a machine, given which of its pages are usable. */
    constructor (bytes: nat, usable: seq<bool>)
      requires bytes % 64 == 0 && |usable| == 8 * bytes
      ensures Valid() && fresh(pmm) && fresh(pmm.store)
      ensures forall p: nat :: p in free <==> p < |usable| && usable[p]
      ensures BuddyMerge.FullyMerged(pmm.g)
    {
      pmm := new Pmm(bytes, usable);
      new;
      free := set p | 0 <= p < |usable| && usable[p];
      forall p: nat ensures p in free <==> Cover(pmm.g, 0, p) == 1 {
        CanonicalCover(pmm.g, usable, 0, p);
      }
      BuddyMerge.CanonicalIsMerged(pmm.g, usable);
    }

    /** pmalloc of `n` pages: consecutive free pages leave the set. */
    method Take(n: nat) returns (addr: nat, taken: bool)
      requires Valid() && n <= TWO63
      modifies this, pmm, pmm.store
      ensures Valid() && (taken <==> !old(Refuses(pmm.g, n))) && (taken ==> 0 < n <= 64)
      ensures old(BuddyMerge.FullyMerged(pmm.g)) ==> BuddyMerge.FullyMerged(pmm.g)
      ensures n == 64 ==> (taken <==> old(TopBlocks()) > 0) && TopBlocks() == old(TopBlocks()) - if taken then 1 else 0
      ensures !taken ==> addr == 0 && free == old(free)
      ensures taken ==> addr % PAGE_SIZE == 0 && free == old(free) - Range(addr / PAGE_SIZE, n)
      ensures taken ==> Range(addr / PAGE_SIZE, n) <= old(free)
      ensures taken ==> forall p :: p in Range(addr / PAGE_SIZE, n) ==> p < Pages()
    {
      ghost var level, i, j;
      TopRefused(pmm.g);
      addr, taken, level, i, j := pmm.Pmalloc(n);
      if taken {
        TakenFacts(old(pmm.g), n, level, i, j);
        ghost var first := Start(i, j);
        TookFromSet(old(pmm.g), pmm.g, first, n, free);
        forall p | p in Range(first, n) ensures p < Pages() {
          assert Cover(old(pmm.g), 0, p) == 1;
          CoverInRange(old(pmm.g), 0, p);
        }
        assert addr / PAGE_SIZE == first;
        free := free - Range(first, n);
      }
    }

    /**
      pfree of pages that are not free, such as any part of what was taken:
      they join the set. Page 0 cannot be told from NULL and stays out.
    */
    method Give(addr: nat, n: nat)
      requires Valid() && addr / PAGE_SIZE + n <= Pages() && Range(addr / PAGE_SIZE, n) !! free
      modifies this, pmm, pmm.store
      ensures Valid()
      ensures free == if addr == 0 then old(free) else old(free) + Range(addr / PAGE_SIZE, n)
      ensures n < 32 ==> TopBlocks() == old(TopBlocks())
      ensures old(BuddyMerge.FullyMerged(pmm.g)) && (addr != 0 && n != 0 ==> Reaching(addr / PAGE_SIZE, n)) ==>
                BuddyMerge.FullyMerged(pmm.g)
    {
      ghost var f := addr / PAGE_SIZE;
      forall p: nat | f <= p < f + n ensures Cover(pmm.g, 0, p) == 0 {
        assert p in Range(f, n);
        assert Cover(pmm.g, 0, p) <= 1;
      }
      GaveMerged(pmm.g, f, n);
      if n < 32 { BuddyMerge.FewPagesMakeNoBlock(pmm.g, f, n); }
      pmm.Pfree(addr, n);
      if addr != 0 && n != 0 {
        GaveToSet(old(pmm.g), pmm.g, f, n, free);
        free := free + Range(f, n);
      }
    }
  }
}

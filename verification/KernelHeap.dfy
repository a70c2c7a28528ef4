/** The allocator of kernel/mm/heap/heap.c on the break of kernel/mm/heap/memlib.c. */
module KernelHeap {
  import opened Machine
  import opened Words
  import opened FreeLists
  import opened HeapLayout
  import opened HeapSpec
  import opened HeapBytes

  /** The conversion of a size_t argument to the int parameter of mem_sbrk. */
  function ToInt(x: nat): int {
    var low := x % TWO32;
    if low < TWO31 then low else low - TWO32
  }

  /** The break moves by the amount asked for exactly when that amount fits in an int. */
  lemma IncrementFits(x: nat)
    requires x < TWO64
    ensures ToInt(x) == x <==> x < TWO31
    ensures ToInt(TWO32 + 288) == 288
  {
  }

  /**
    mem_sbrk is deceived: the increment does not fit in an int, and what arrives is one it grants.
    All other increments are granted, or refused, as they were meant.
  */
  predicate Deceived(words: nat, brk: nat) {
    8 * words >= TWO31 && ToInt(8 * words) >= 0 && 8 * brk + ToInt(8 * words) <= 8 * MAX_WORDS
  }

  /** An increment of 2^32 + 288 bytes on the heap that initKernelHeap leaves is granted, as one of 288 bytes. */
  lemma DeceivedOnce()
    ensures Deceived((TWO32 + 288) / 8, FIRST + CHUNK + 1) && ToInt(TWO32 + 288) == 288
  {
  }

  /** What is granted is what was asked for if and only if mem_sbrk is not deceived. */
  lemma GrantedExactly(words: nat, brk: nat)
    requires 8 * words < TWO64 && brk <= MAX_WORDS
    ensures var granted := ToInt(8 * words) >= 0 && 8 * brk + ToInt(8 * words) <= 8 * MAX_WORDS;
            (granted <==> brk + words <= MAX_WORDS) <==> !Deceived(words, brk)
  {
    IncrementFits(8 * words);
  }

  lemma WordMultiple(words: nat)
    ensures ToInt(8 * words) % 8 == 0
  {
    var low := 8 * words % TWO32;
    assert low == 8 * (words % 0x2000_0000);
  }

  /** The sum of two 64-bit numbers, which wraps. */
  function Sum64(x: nat, y: nat): nat {
    if x + y < TWO64 then x + y else x + y - TWO64
  }

  /** The block size in bytes for a request, in size_t arithmetic: 16 bytes of tags, rounded up to a multiple of 16. */
  function BlockBytes(size: nat): nat {
    Sum64(Sum64(size, 16), 15) / 16 * 16
  }

  /** The size computation of a request wraps around. */
  predicate Overflows(size: nat) {
    BlockBytes(size) < size
  }

  /** The block size in words for a request. */
  function BlockWords(size: nat): nat {
    var w := BlockBytes(size) / 8;
    if w > MIN_BLOCK then w else MIN_BLOCK
  }

  /** The overflow test catches exactly the requests that wrap; for all others the block has room for the request. */
  lemma BlockWordsFit(size: nat)
    requires size < TWO64
    ensures Overflows(size) <==> size + 31 >= TWO64
    ensures BlockWords(size) % 2 == 0 && BlockWords(size) >= MIN_BLOCK
    ensures !Overflows(size) ==> 8 * BlockWords(size) >= size + 16
    ensures !Overflows(size) && 8 * BlockWords(size) < TWO31 <==> size + 31 < TWO31
  {
    BlockBytesAre(size);
    if size + 31 < TWO31 {
      assert 16 * ((size + 31) / 16) < TWO31;
    }
  }

  /** The block for a request is the smallest even number of words, 8 or more, with room for it and its two tags. */
  lemma BlockWordsLeast(size: nat, w: nat)
    requires size < TWO64 && size + 31 < TWO64
    ensures BlockWords(size) % 2 == 0 && BlockWords(size) >= 8 && 8 * BlockWords(size) >= size + 16
    ensures w % 2 == 0 && w >= 8 && 8 * w >= size + 16 ==> BlockWords(size) <= w
    ensures 8 * BlockWords(size) <= if size < 33 then 64 else size + 31
  {
    BlockBytesAre(size);
    BlockWordsFit(size);
    var q := (size + 31) / 16;
    assert BlockWords(size) == if 2 * q > 8 then 2 * q else 8;
    if w % 2 == 0 && 8 * w >= size + 16 {
      var v := w / 2;
      assert w == 2 * v && 16 * v >= size + 16;
      assert q <= v;
    }
  }

  lemma BlockBytesAre(size: nat)
    requires size < TWO64
    ensures size + 31 < TWO64 ==> BlockBytes(size) == 16 * ((size + 31) / 16)
    ensures size + 31 >= TWO64 ==> BlockBytes(size) % 16 == 0 && BlockBytes(size) < 48
  {
  }

  /** The request cannot be met: it is empty, or too large, or there is neither a fit nor room to extend. */
  ghost predicate RefusedIn(b: Blocks, c: seq<seq<nat>>, brk: nat, size: nat)
    requires |c| == NUM_LISTS
  {
    || size == 0
    || Overflows(size)
    || (NoFit(b, c, BlockWords(size)) && brk + Max(BlockWords(size), CHUNK) > MAX_WORDS)
  }

  class KernelHeap {
    /** The memory: the words of the heap segment, then the static list heads and tails. */
    const mem: array<Word>
    /** mem_brk, in words from the start of the segment. */
    var brk: nat
    ghost var b: Blocks
    ghost var c: seq<seq<nat>>
    /** The lists again, as the specification has them. */
    ghost var lists: seq<seq<nat>>

    /** initKernelHeap: empty lists, two adjacent fences, and a first free block of CHUNK words. */
    constructor ()
      ensures Valid() && fresh(mem) && brk == 40 && b == map[3 := Blk(36, false)]
      ensures Does(Grow(CHUNK), Heap(map[], EmptyChains(), FIRST + 1), Value(), FIRST)
    {
      mem := new Word[MEM_WORDS];
      brk := 0;
      b := map[];
      c, lists := [], [];
      new;
      var ok := SbrkWords(4);
      InitLists();
      mem[FIRST - 1] := FENCE;
      mem[FIRST] := FENCE;
      InitialHeap(mem[..]);
      c, lists := EmptyChains(), EmptyChains();
      var r := ExtendHeap(CHUNK);
      InitialLayout(b, r);
    }

    /** list_init of the twelve lists. */
    method InitLists()
      requires mem.Length == MEM_WORDS
      modifies mem
      ensures forall i {:trigger EmptyChain(i)} :: 0 <= i < NUM_LISTS ==> Chain(mem[..], EmptyChain(i))
    {
      for i := 0 to NUM_LISTS
        invariant forall j {:trigger EmptyChain(j)} :: 0 <= j < i ==> Chain(mem[..], EmptyChain(j))
      {
        mem[Head(i)] := NULL;
        mem[Head(i) + 1] := Tail(i);
        mem[Tail(i)] := Head(i);
        mem[Tail(i) + 1] := NULL;
      }
    }

    /** The heap is well formed, except that the free blocks in x are on no list. */
    ghost predicate Ok(x: set<nat>)
      reads this, mem
    {
      mem.Length == MEM_WORDS && 4 <= brk && Inv(mem[..], brk - 1, b, c, x) && SameLists(c, lists)
    }

    ghost predicate Valid()
      reads this, mem
    {
      Ok({}) && NoFreeNeighbours(b)
    }

    /** The heap without its memory. */
    ghost function Value(): Heap
      reads this
    {
      Heap(b, lists, brk)
    }

    // -------------------------------------------------------------- tags

    /** set_header_and_footer */
    method SetTags(s: nat, n: nat, used: bool)
      requires mem.Length == MEM_WORDS && 0 < n && s + n <= MAX_WORDS
      modifies mem
      ensures mem[..] == WithTags(old(mem[..]), s, n, used)
    {
      mem[s] := Tag(n, used);
      mem[s + TagSize(mem[s]) - 1] := mem[s];
    }

    /** mark_block_free */
    method MarkFree(s: nat, n: nat)
      requires mem.Length == MEM_WORDS && 4 <= n && s + n <= MAX_WORDS
      modifies mem
      ensures mem[..] == MarkedFree(old(mem[..]), s, n)
    {
      SetTags(s, n, false);
      mem[s + 1] := NULL;
      mem[s + 2] := NULL;
    }

    /** blk_size */
    method SizeOf(s: nat, ghost x: set<nat>) returns (n: nat)
      requires Ok(x) && s in b
      ensures n == b[s].n
    {
      assert TagPair(mem[..], s, b[s]);
      n := TagSize(mem[s]);
    }

    // -------------------------------------------------------------- lists

    /** list_remove of the element in the payload of block s. */
    method Unlink(s: nat, ghost x: set<nat>, ghost x': set<nat>)
      requires Ok(x) && FreeAt(b, s) && s !in x && x' == x + {s}
      modifies this`c, this`lists, mem
      ensures Ok(x') && lists == Off(b, old(lists), s)
      ensures LiveKept(old(mem[..]), b, mem[..], b, {})
    {
      ghost var m := mem[..];
      ghost var k := PositionOf(m, b, c, x, s);
      UnlinkStep(m, brk - 1, b, c, x, s, k);
      OffIsWithout(m, b, c, lists, s, k);
      c, lists := Without(c, Seg(b[s].n), k), Off(b, lists, s);
      var p, q := mem[s + 1], mem[s + 2];
      mem[p + 1] := q;
      mem[q] := p;
      assert mem[..] == Unlinked(m, s + 1);
    }

    /** list_push_back of block s on the list that its size selects. */
    method Append(s: nat)
      requires Ok({s}) && FreeAt(b, s)
      modifies this`c, this`lists, mem
      ensures Ok({}) && lists == On(b, old(lists), s)
      ensures LiveKept(old(mem[..]), b, mem[..], b, {})
    {
      ghost var m := mem[..];
      var n := SizeOf(s, {s});
      var i := Seg(n);
      AppendStep(m, brk - 1, b, c, s);
      OnIsWith(m, b, c, lists, s);
      c, lists := With(c, i, s + 1), On(b, lists, s);
      var p := mem[Tail(i)];
      mem[s + 1] := p;
      mem[s + 2] := Tail(i);
      mem[p + 1] := s + 1;
      mem[Tail(i)] := s + 1;
      assert mem[..] == Appended(m, i, s + 1);
    }

    // -------------------------------------------------------------- coalescing

    /** blk_size and the in-use bit of the block above s. */
    method Above(s: nat, ghost x: set<nat>) returns (n: nat, used: bool)
      requires Ok(x) && s in b
      ensures used == !FreeAt(b, s + b[s].n) && n == if s + b[s].n in b then b[s + b[s].n].n else 0
    {
      TagAbove(mem[..], brk - 1, b, s);
      var size := SizeOf(s, x);
      n, used := TagSize(mem[s + size]), TagUsed(mem[s + size]);
    }

    /** The in-use bit of prev_blk_footer and, when it is clear, prev_blk. */
    method Below(s: nat, ghost x: set<nat>) returns (p: nat, used: bool)
      requires Ok(x) && s in b
      ensures used == !FreeBelow(b, s)
      ensures !used ==>
                && p == Lo(b, s) && FreeAt(b, p) && p + b[p].n == s
                && 1 <= s < MEM_WORDS && TagSize(mem[s - 1]) == s - p
    {
      TagBelow(mem[..], brk - 1, b, s);
      used := TagUsed(mem[s - 1]);
      p := if used then s else s - TagSize(mem[s - 1]);
    }

    /** mark_block_free over the free run around s, once its blocks are off the lists. */
    method MarkRun(s: nat, lo: nat, n: nat)
      requires FreeAt(b, s) && Ok(Run(b, s)) && lo == Lo(b, s) && lo + n == Hi(b, s)
      modifies this`b, mem
      ensures Lo(old(b), s) < Hi(old(b), s) && b == Coalesced(old(b), s) && Ok({lo})
      ensures lo != s ==> 1 <= s < MEM_WORDS && mem[s - 1] == old(mem[..])[s - 1]
      ensures LiveKept(old(mem[..]), old(b), mem[..], b, {})
    {
      JoinStep(mem[..], brk - 1, b, c, s);
      b := Coalesced(b, s);
      MarkFree(lo, n);
    }

    /** list_remove of two free blocks. */
    method UnlinkTwo(s: nat, t: nat)
      requires Ok({}) && FreeAt(b, s) && FreeAt(b, t) && s != t
      modifies this`c, this`lists, mem
      ensures Ok({s, t}) && lists == Off(b, Off(b, old(lists), s), t)
      ensures LiveKept(old(mem[..]), b, mem[..], b, {})
    {
      Unlink(s, {}, {s});
      Unlink(t, {s}, {s, t});
    }

    /** coalesce, when only the block above s is free. */
    method JoinAbove(s: nat, size: nat)
      requires Ok({}) && FreeAt(b, s) && size == b[s].n && !FreeBelow(b, s) && FreeAt(b, s + size)
      modifies this`b, this`c, this`lists, mem
      ensures Lo(old(b), s) < Hi(old(b), s) && b == Coalesced(old(b), s) && Ok({s})
      ensures lists == JoinedLists(old(b), old(lists), s)
      ensures LiveKept(old(mem[..]), old(b), mem[..], b, {})
    {
      assert Sized(b, brk - 1, s);
      UnlinkTwo(s, s + size);
      var above := SizeOf(s + size, {s, s + size});
      assert Run(b, s) == {s, s + size};
      MarkRun(s, s, size + above);
    }

    /** coalesce, when the block below s is free: take it and s off their lists. */
    method UnlinkBelow(s: nat) returns (p: nat)
      requires Ok({}) && FreeAt(b, s) && FreeBelow(b, s)
      modifies this`c, this`lists, mem
      ensures p == Lo(b, s) && p < s && FreeAt(b, p) && p + b[p].n == s && Ok({s, p})
      ensures lists == Off(b, Off(b, old(lists), s), p)
      ensures LiveKept(old(mem[..]), b, mem[..], b, {})
    {
      var below, _ := Below(s, {});
      p := below;
      assert Sized(b, brk - 1, p);
      UnlinkTwo(s, p);
    }

    /** coalesce, when only the block below s is free. */
    method JoinBelow(s: nat, size: nat) returns (r: nat)
      requires Ok({}) && FreeAt(b, s) && size == b[s].n && FreeBelow(b, s) && !FreeAt(b, s + size)
      modifies this`b, this`c, this`lists, mem
      ensures Lo(old(b), s) < Hi(old(b), s) && b == Coalesced(old(b), s) && r == Lo(old(b), s) && Ok({r})
      ensures lists == JoinedLists(old(b), old(lists), s)
      ensures LiveKept(old(mem[..]), old(b), mem[..], b, {})
    {
      r := UnlinkBelow(s);
      ghost var p := r;
      var below := SizeOf(r, {s, p});
      assert Run(b, s) == {s, p};
      MarkRun(s, r, size + below);
    }

    /** coalesce, when both neighbours of s are free: take the three blocks off their lists. */
    method UnlinkBoth(s: nat, size: nat)
      requires Ok({}) && FreeAt(b, s) && size == b[s].n && FreeBelow(b, s) && FreeAt(b, s + size)
      modifies this`c, this`lists, mem
      ensures Ok(Run(b, s)) && lists == JoinedLists(b, old(lists), s)
      ensures LiveKept(old(mem[..]), b, mem[..], b, {})
    {
      assert Sized(b, brk - 1, s);
      var p := UnlinkBelow(s);
      assert Run(b, s) == {s, p, s + size};
      Unlink(s + size, {s, p}, Run(b, s));
    }

    /** coalesce, when both neighbours of s are free: make the three blocks one. */
    method JoinBoth(s: nat, size: nat) returns (r: nat)
      requires Ok({}) && FreeAt(b, s) && size == b[s].n && FreeBelow(b, s) && FreeAt(b, s + size)
      modifies this`b, this`c, this`lists, mem
      ensures Lo(old(b), s) < Hi(old(b), s) && b == Coalesced(old(b), s) && r == Lo(old(b), s) && Ok({r})
      ensures lists == JoinedLists(old(b), old(lists), s)
      ensures LiveKept(old(mem[..]), old(b), mem[..], b, {})
    {
      UnlinkBoth(s, size);
      r := MarkBoth(s, size);
    }

    /** coalesce, when both neighbours of s are free and the three blocks off their lists. */
    method MarkBoth(s: nat, size: nat) returns (r: nat)
      requires FreeAt(b, s) && Ok(Run(b, s)) && size == b[s].n && FreeBelow(b, s) && FreeAt(b, s + size)
      modifies this`b, mem
      ensures Lo(old(b), s) < Hi(old(b), s) && b == Coalesced(old(b), s) && r == Lo(old(b), s) && Ok({r})
      ensures LiveKept(old(mem[..]), old(b), mem[..], b, {})
    {
      var above := SizeOf(s + size, Run(b, s));
      var p, _ := Below(s, Run(b, s));
      var below := SizeOf(p, Run(b, s));
      assert Sized(b, brk - 1, p);
      MarkRun(s, p, size + above + below);
      r := s - TagSize(mem[s - 1]);  // the old footer below s is now payload, and still intact
    }

    /** coalesce, when at least one neighbour of s is free: the joined block, still on no list. */
    method JoinRun(s: nat, size: nat, prevAlloc: bool, nextAlloc: bool) returns (r: nat)
      requires Ok({}) && FreeAt(b, s) && size == b[s].n
      requires prevAlloc == !FreeBelow(b, s) && nextAlloc == !FreeAt(b, s + size) && !(prevAlloc && nextAlloc)
      modifies this`b, this`c, this`lists, mem
      ensures Lo(old(b), s) < Hi(old(b), s) && b == Coalesced(old(b), s) && r == Lo(old(b), s) && Ok({r})
      ensures lists == JoinedLists(old(b), old(lists), s)
      ensures LiveKept(old(mem[..]), old(b), mem[..], b, {})
    {
      if prevAlloc {
        r := s;
        JoinAbove(s, size);
      } else if nextAlloc {
        r := JoinBelow(s, size);
      } else {
        r := JoinBoth(s, size);
      }
    }

    /** coalesce: join the free block s with its free neighbours; r is the joined block. */
    method Coalesce(s: nat) returns (r: nat)
      requires Ok({}) && FreeAt(b, s) && FreeNeighboursOnlyAt(b, s)
      modifies this`b, this`c, this`lists, mem
      ensures Ok({}) && NoFreeNeighbours(b) && Does(Join(s), old(Value()), Value(), r)
      ensures Lo(old(b), s) < Hi(old(b), s) && b == Coalesced(old(b), s) && r == Lo(old(b), s)
      ensures LiveKept(old(mem[..]), old(b), mem[..], b, {})
    {
      CoalescedNoFreeNeighbours(b, brk - 1, s);
      var size := SizeOf(s, {});
      var _, prevAlloc := Below(s, {});
      var _, nextAlloc := Above(s, {});
      if prevAlloc && nextAlloc {
        OneSame(b, brk - 1, s);
        JoinAlone(Value(), s);
        r := s;
      } else {
        r := JoinAndList(s, size, prevAlloc, nextAlloc);
      }
    }

    /** coalesce, when at least one neighbour of s is free: the joined block, on its list. */
    method JoinAndList(s: nat, size: nat, prevAlloc: bool, nextAlloc: bool) returns (r: nat)
      requires Ok({}) && FreeAt(b, s) && size == b[s].n
      requires prevAlloc == !FreeBelow(b, s) && nextAlloc == !FreeAt(b, s + size) && !(prevAlloc && nextAlloc)
      modifies this`b, this`c, this`lists, mem
      ensures Lo(old(b), s) < Hi(old(b), s) && b == Coalesced(old(b), s) && r == Lo(old(b), s) && Ok({})
      ensures Does(Join(s), old(Value()), Value(), r)
      ensures LiveKept(old(mem[..]), old(b), mem[..], b, {})
    {
      r := JoinRun(s, size, prevAlloc, nextAlloc);
      ghost var c1 := lists;
      Append(r);
      JoinDoes(old(Value()), s, c1, Value());
    }

    // -------------------------------------------------------------- kfree

    /** _kfree of the payload at word p; the null pointer is 0. */
    method Kfree(p: nat)
      requires Valid() && (p != 0 ==> UsedAt(b, p - 1))
      modifies this`b, this`c, this`lists, mem
      ensures Valid()
      ensures p == 0 ==> Value() == old(Value()) && mem[..] == old(mem[..])
      ensures p != 0 ==> FreedFrom(old(b), p - 1, b) && Does(Free(p - 1), old(Value()), Value(), 0)
      ensures LiveKept(old(mem[..]), old(b), mem[..], b, if p == 0 then {} else {p - 1})
    {
      if p == 0 {
        return;
      }
      var s := p - 1;
      var n := SizeOf(s, {});
      FreeStep(mem[..], brk - 1, b, c, s);
      ReleasedNeighbours(b, s);
      b := Released(b, s);
      MarkFree(s, n);
      ghost var h1 := Value();
      var r := ListAndJoin(s);
      FreeDoes(old(Value()), s, h1, Value(), r);
    }

    /** list_push_back of the free block s, and coalesce. */
    method ListAndJoin(s: nat) returns (r: nat)
      requires Ok({s}) && FreeAt(b, s) && FreeNeighboursOnlyAt(b, s)
      modifies this`b, this`c, this`lists, mem
      ensures Valid() && Does(Enlist(s), old(Value()), Value(), r)
      ensures Lo(old(b), s) < Hi(old(b), s) && b == Coalesced(old(b), s) && r == Lo(old(b), s)
      ensures LiveKept(old(mem[..]), old(b), mem[..], b, {})
    {
      Append(s);
      ghost var h1 := Value();
      r := Coalesce(s);
      EnlistDoes(old(Value()), s, h1, Value(), r);
    }

    // -------------------------------------------------------------- place

    /** mark_block_used up to mid, then mark_block_free of the rest up to hi. */
    method CarveTags(lo: nat, mid: nat, hi: nat)
      requires mem.Length == MEM_WORDS && lo < mid && mid + 4 <= hi <= MAX_WORDS
      modifies mem
      ensures mem[..] == Carved(old(mem[..]), lo, mid, hi)
    {
      SetTags(lo, mid - lo, true);
      var blk := lo + TagSize(mem[lo]);
      MarkFree(blk, hi - mid);
    }

    /** place, once the free block s is off its list. */
    method PlaceDetached(s: nat, a: nat, csize: nat)
      requires Ok({s}) && FreeAt(b, s) && MIN_BLOCK <= a <= b[s].n == csize && a % 2 == 0
      modifies this`b, this`c, this`lists, mem
      ensures Ok({}) && b == Placed(old(b), s, a)
      ensures lists == if csize - a >= MIN_BLOCK then On(b, old(lists), s + a) else old(lists)
      ensures LiveKept(old(mem[..]), old(b), mem[..], b, {})
    {
      PlaceStep(mem[..], brk - 1, b, c, s, a);
      b := Placed(b, s, a);
      if csize - a >= MIN_BLOCK {
        CarveTags(s, s + a, s + csize);
        Append(s + a);
      } else {
        SetTags(s, csize, true);
      }
    }

    /** place a block of a words in the free block s. */
    method Place(s: nat, a: nat)
      requires Valid() && FreeAt(b, s) && MIN_BLOCK <= a <= b[s].n && a % 2 == 0
      modifies this`b, this`c, this`lists, mem
      ensures Valid() && b == Placed(old(b), s, a) && Does(Op.Place(s, a), old(Value()), Value(), s + 1)
      ensures LiveKept(old(mem[..]), old(b), mem[..], b, {})
    {
      var csize := SizeOf(s, {});
      PlacedNeighbours(b, brk - 1, s, a);
      Unlink(s, {}, {s});
      ghost var c1 := lists;
      PlaceDetached(s, a, csize);
      PlaceDoes(old(Value()), s, a, c1, Value());
    }

    // -------------------------------------------------------------- find_fit

    /** find_fit: a free block of at least a words, or 0. */
    method FindFit(a: nat) returns (s: nat)
      requires Ok({})
      ensures s != 0 ==> FreeAt(b, s) && b[s].n >= a
      ensures s == 0 <==> NoFit(b, c, a)
      ensures Does(Find(a), Value(), Value(), s)
    {
      var idx := Seg(a);
      var i := idx;
      while i < NUM_LISTS
        invariant idx <= i <= NUM_LISTS
        invariant idx < i ==> forall k :: 1 <= k <= 13 && k < |c[idx]| - 1 ==> !BigEnough(b, c[idx][k], a)
        invariant forall l :: idx < l < i ==> |c[l]| == 2
      {
        FirstElement(mem[..], c, i);
        var j := 0;
        ghost var k := 1;
        var elem := mem[Head(i) + 1];
        while elem != Tail(i)
          invariant k == j + 1 && 1 <= k < |c[i]| && elem == c[i][k]
          invariant j <= 12 - (i - idx)
          invariant forall l :: 1 <= l < k ==> !BigEnough(b, c[i][l], a)
          invariant idx < i ==> k == 1
          decreases |c[i]| - k
        {
          ElementBlock(mem[..], brk - 1, b, c, i, k);
          if idx < i {
            SegMonotone(a, b[elem - 1].n);
          }
          if TagSize(mem[elem - 1]) >= a {
            assert BigEnough(b, c[i][k], a);
            if idx < i { FindHigher(Value(), c, a, i); } else { FindOwn(Value(), c, a, k); }
            return elem - 1;
          }
          if j > 11 - (i - idx) {
            break;
          }
          j := j + 1;
          elem := mem[elem + 1];
          k := k + 1;
        }
        i := i + 1;
      }
      FindNone(Value(), c, a);
      s := 0;
    }

    // -------------------------------------------------------------- the break

    /** mem_sbrk: advance the break by incr bytes, unless incr is negative or the limit is passed. */
    method MemSbrk(incr: int) returns (ok: bool)
      requires incr % 8 == 0
      modifies this`brk
      ensures ok <==> 0 <= incr && old(brk) + incr / 8 <= MAX_WORDS
      ensures brk == if ok then old(brk) + incr / 8 else old(brk)
    {
      if incr < 0 || 8 * brk + incr > 8 * MAX_WORDS {
        return false;
      }
      brk := brk + incr / 8;
      return true;
    }

    /** mem_sbrk of a size in words, converted to int: it moves the break by that size unless it is deceived. */
    method SbrkWords(words: nat) returns (ok: bool)
      requires 8 * words < TWO64 && brk <= MAX_WORDS && !Deceived(words, brk)
      modifies this`brk
      ensures ok <==> old(brk) + words <= MAX_WORDS
      ensures brk == if ok then old(brk) + words else old(brk)
    {
      IncrementFits(8 * words);
      GrantedExactly(words, brk);
      WordMultiple(words);
      ok := MemSbrk(ToInt(8 * words));
    }

    /** extend_heap, once the break has moved: the new block, still on no list. */
    method NewBlock(blk: nat, words: nat)
      requires mem.Length == MEM_WORDS && Inv(mem[..], blk, b, c, {}) && SameLists(c, lists)
      requires brk == blk + words + 1 <= MAX_WORDS
      requires MIN_BLOCK <= words && words % 2 == 0
      modifies this`b, mem
      ensures Ok({blk}) && b == Extended(old(b), blk, words)
      ensures LiveKept(old(mem[..]), old(b), mem[..], b, {})
    {
      GrowStep(mem[..], blk, b, c, words);
      b := Extended(b, blk, words);
      MarkFree(blk, words);
      mem[blk + TagSize(mem[blk])] := FENCE;
      assert mem[..] == Grown(old(mem[..]), blk, words);
    }

    /** extend_heap, once the break has moved: the new block on its list, joined with a free block below it. */
    method AddBlock(blk: nat, words: nat) returns (r: nat)
      requires mem.Length == MEM_WORDS && Inv(mem[..], blk, b, c, {}) && SameLists(c, lists) && NoFreeNeighbours(b)
      requires brk == blk + words + 1 <= MAX_WORDS && MIN_BLOCK <= words && words % 2 == 0
      modifies this`b, this`c, this`lists, mem
      ensures Valid() && GrownTo(old(b), blk, words, b, r) && LiveKept(old(mem[..]), old(b), mem[..], b, {})
      ensures Does(Enlist(blk), Heap(Extended(old(b), blk, words), old(lists), brk), Value(), r)
    {
      ExtendedNeighbours(b, blk, words);
      NewBlock(blk, words);
      r := ListAndJoin(blk);
    }

    /** extend_heap: r is the free block at the end of the heap, or 0. */
    method ExtendHeap(words: nat) returns (r: nat)
      requires Valid() && MIN_BLOCK <= words && words % 2 == 0 && 8 * words < TWO64 && !Deceived(words, brk)
      modifies this, mem
      ensures Valid()
      ensures r != 0 <==> old(brk) + words <= MAX_WORDS
      ensures r == 0 ==> Value() == old(Value()) && c == old(c) && mem[..] == old(mem[..])
      ensures r != 0 ==>
                && brk == old(brk) + words && GrownTo(old(b), old(brk) - 1, words, b, r)
                && FreeAt(b, r) && b[r].n >= words
      ensures r != 0 ==> Does(Grow(words), old(Value()), Value(), r)
      ensures LiveKept(old(mem[..]), old(b), mem[..], b, {})
    {
      var blk := brk - 1;
      var ok := SbrkWords(words);
      if !ok {
        return 0;
      }
      GrownBlock(b, blk, words);
      ghost var h1 := Heap(Extended(b, blk, words), lists, brk);
      r := AddBlock(blk, words);
      GrowDoes(old(Value()), words, h1, Value(), r);
    }

    // -------------------------------------------------------------- kmalloc

    /** Block s of the layout b1, of at least a words, was cut out of the free block s of the layout b0. */
    ghost predicate CutFrom(b0: Blocks, end: nat, s: nat, a: nat, b1: Blocks) {
      Layout(b0, end) && FreeAt(b0, s) && NoFreeNeighbours(b0) && MIN_BLOCK <= a <= b0[s].n && b1 == Placed(b0, s, a)
    }

    /** The layout b1 is b0, or b0 extended by w words with the new free block at s. */
    ghost predicate Base(b0: Blocks, brk0: nat, w: nat, b1: Blocks, brk1: nat, s: nat)
      requires brk0 >= 1
    {
      (b1 == b0 && brk1 == brk0) || (brk1 == brk0 + w && GrownTo(b0, brk0 - 1, w, b1, s))
    }

    /** The request cannot be met. */
    ghost predicate Refused(size: nat)
      requires |c| == NUM_LISTS
      reads this
    {
      RefusedIn(b, c, brk, size)
    }

    /** A free block of at least a words, found on the lists or at the end of an extended heap, or 0. */
    method Obtain(size: nat, a: nat) returns (s: nat)
      requires Valid() && MIN_BLOCK <= a && a % 2 == 0 && 8 * a < TWO64 && !Deceived(a, brk)
      requires a == BlockWords(size) && size != 0 && !Overflows(size)
      modifies this, mem
      ensures Valid() && LiveKept(old(mem[..]), old(b), mem[..], b, {})
      ensures s == 0 <==> old(Refused(size))
      ensures s == 0 ==> Value() == old(Value()) && c == old(c) && mem[..] == old(mem[..])
      ensures s != 0 ==> FreeAt(b, s) && b[s].n >= a && Base(old(b), old(brk), Max(a, CHUNK), b, brk, s)
      ensures s == 0 ==> Does(Alloc(a), old(Value()), Value(), 0)
      ensures s != 0 ==> Obtained(old(Value()), a, s, Value())
    {
      s := FindFit(a);
      if s == 0 {
        s := ExtendHeap(Max(a, CHUNK));
        if s == 0 { AllocRefused(Value(), a); }
      }
    }

    /** The size computation at the head of _kmalloc and _krealloc. */
    method RequestWords(size: nat) returns (overflow: bool, awords: nat)
      requires size < TWO64
      ensures overflow == Overflows(size) && awords == BlockWords(size) && MIN_BLOCK <= awords && awords % 2 == 0
      ensures 8 * awords < TWO64 && (!overflow ==> 8 * awords >= size + 16)
      ensures !overflow ==> 8 * awords <= if size < 33 then 64 else size + 31
    {
      BlockWordsFit(size);
      if size + 31 < TWO64 { BlockWordsLeast(size, 0); }
      var bsize := BlockBytes(size);
      overflow := bsize < size;
      awords := Max(MIN_BLOCK, bsize / 8);
    }

    /** The rest of _kmalloc: a new block of at least a words, or 0; base is the layout just before placement. */
    method TakeBlock(size: nat, a: nat) returns (p: nat, ghost base: Blocks)
      requires Valid() && MIN_BLOCK <= a && a % 2 == 0 && 8 * a < TWO64 && !Deceived(a, brk)
      requires a == BlockWords(size) && size != 0 && !Overflows(size)
      modifies this, mem
      ensures Valid() && LiveKept(old(mem[..]), old(b), mem[..], b, {})
      ensures p == 0 <==> old(Refused(size))
      ensures p == 0 ==> Value() == old(Value()) && c == old(c) && mem[..] == old(mem[..])
      ensures p != 0 ==> CutFrom(base, brk - 1, p - 1, a, b) && Base(old(b), old(brk), Max(a, CHUNK), base, brk, p - 1)
      ensures p != 0 ==> UsedAt(b, p - 1) && a <= b[p - 1].n <= a + 7 && !UsedAt(old(b), p - 1)
      ensures Does(Alloc(a), old(Value()), Value(), p)
    {
      ghost var m0, b0, h0 := mem[..], b, Value();
      p := Obtain(size, a);
      base := b;
      if p != 0 {
        p := PlaceIn(p, a, m0, b0, h0);
      }
    }

    /** The payload of a block of a words placed in the free block s, as it was obtained in the heap h0. */
    method PlaceIn(s: nat, a: nat, ghost m0: Mem, ghost b0: Blocks, ghost h0: Heap) returns (p: nat)
      requires Valid() && FreeAt(b, s) && MIN_BLOCK <= a <= b[s].n && a % 2 == 0 && s != 0
      requires LiveKept(m0, b0, mem[..], b, {}) && Obtained(h0, a, s, Value())
      modifies this`b, this`c, this`lists, mem
      ensures Valid() && LiveKept(m0, b0, mem[..], b, {})
      ensures p == s + 1 && CutFrom(old(b), brk - 1, p - 1, a, b)
      ensures UsedAt(b, p - 1) && a <= b[p - 1].n <= a + 7 && !UsedAt(b0, p - 1)
      ensures Does(Alloc(a), h0, Value(), p)
    {
      ghost var h1 := Value();
      PlacedAtMost(b, s, a);
      Place(s, a);
      p := s + 1;
      AllocObtained(h0, a, s, h1, Value());
    }

    /** _kmalloc: the payload of a new block, or 0. */
    method Kmalloc(size: nat) returns (p: nat, ghost base: Blocks)
      requires Valid() && size < TWO64 && (Overflows(size) || !Deceived(BlockWords(size), brk))
      modifies this, mem
      ensures Valid() && LiveKept(old(mem[..]), old(b), mem[..], b, {})
      ensures p == 0 <==> old(Refused(size))
      ensures p == 0 ==> Value() == old(Value()) && c == old(c) && mem[..] == old(mem[..])
      ensures size != 0 && !Overflows(size) ==> Does(Alloc(BlockWords(size)), old(Value()), Value(), p)
      ensures p != 0 ==> CutFrom(base, brk - 1, p - 1, BlockWords(size), b)
      ensures p != 0 ==> Base(old(b), old(brk), Max(BlockWords(size), CHUNK), base, brk, p - 1)
      ensures p != 0 ==> !Overflows(size) && !UsedAt(old(b), p - 1)
      ensures p != 0 ==> UsedAt(b, p - 1) && b[p - 1].n >= BlockWords(size)
      ensures p != 0 ==> size + 16 <= 8 * b[p - 1].n <= (if size < 33 then 64 else size + 31) + 56
    {
      if size == 0 {
        return 0, b;
      }
      var overflow, awords := RequestWords(size);
      if overflow {
        return 0, b;
      }
      p, base := TakeBlock(size, awords);
    }

    /** A block is placed with less than a block too much. */
    lemma PlacedAtMost(b: Blocks, s: nat, a: nat)
      requires s in b && 0 < a <= b[s].n
      ensures s in Placed(b, s, a) && a <= Placed(b, s, a)[s].n < a + MIN_BLOCK
    {
    }

    /** A kmalloc and a kfree at once leave the layout that was before the placement. */
    method MallocThenFree(size: nat) returns (p: nat, ghost base: Blocks)
      requires Valid() && size < TWO64 && (Overflows(size) || !Deceived(BlockWords(size), brk))
      modifies this, mem
      ensures Valid() && (p == 0 <==> old(Refused(size))) && (p == 0 ==> b == old(b))
      ensures p != 0 ==> b == base && Base(old(b), old(brk), Max(BlockWords(size), CHUNK), base, brk, p - 1)
    {
      p, base := Kmalloc(size);
      if p != 0 {
        PlaceThenFree(base, brk - 1, p - 1, BlockWords(size));
        Kfree(p);
      }
    }

    // -------------------------------------------------------------- krealloc

    /**
      mark_block_used, mark_block_free and list_push_back over a region that holds block s, its
      payload already at lo.
    */
    method Recut(s: nat, lo: nat, mid: nat, hi: nat, ghost m0: Mem, ghost x: set<nat>, ghost k: nat)
      requires mem.Length == MEM_WORDS && 4 <= brk && Inv(m0, brk - 1, b, c, x) && SameLists(c, lists) && UsedAt(b, s)
      requires Region(b, brk - 1, lo, hi) && Detached(b, x, lo, hi) && UsedWithin(b, lo, hi, {s}) && lo <= s < hi
      requires SameOutside(m0, mem[..], lo, hi) && KeptBytes(m0, s + 1, mem[..], lo + 1, k)
      requires lo + MIN_BLOCK <= mid && mid + MIN_BLOCK <= hi && mid % 2 == 1 && k <= 8 * (mid - lo - 2)
      modifies this`b, this`c, this`lists, mem
      ensures Ok({}) && b == Two(old(b), lo, mid, hi)
      ensures Value() == Cut(old(Value()), lo, hi, mid - lo)
      ensures Resized(m0, old(b), mem[..], b, s, lo, mid - lo, k)
    {
      ghost var b0 := b;
      ResizeStep(m0, mem[..], brk - 1, b, c, x, s, lo, mid, hi, k);
      b := Two(b, lo, mid, hi);
      CarveTags(lo, mid, hi);
      ghost var m1 := mem[..];
      Append(mid);
      ResizedThen(m0, b0, m1, b, mem[..], b, brk - 1, s, lo, mid - lo, k);
      CutIs(old(Value()), old(lists), lo, hi, mid - lo, Value());
    }

    /** coalesce the remainder of a resized block. */
    method CoalesceRest(mid: nat, ghost m0: Mem, ghost b0: Blocks, ghost s: nat, ghost r: nat, ghost a: nat,
                        ghost k: nat) returns (ghost j: nat)
      requires Ok({}) && FreeAt(b, mid) && FreeNeighboursOnlyAt(b, mid)
      requires Resized(m0, b0, mem[..], b, s, r, a, k) && 2 <= a && k <= 8 * (a - 2)
      modifies this`b, this`c, this`lists, mem
      ensures Valid() && Resized(m0, b0, mem[..], b, s, r, a, k) && r in old(b) && b[r] == old(b)[r]
      ensures Does(Join(mid), old(Value()), Value(), j)
    {
      ghost var m1, b1 := mem[..], b;
      var joined := Coalesce(mid);
      j := joined;
      if UsedAt(b, s) {
        CoalescedUsed(b1, mid, s);
      }
      ResizedThen(m0, b0, m1, b1, mem[..], b, brk - 1, s, r, a, k);
    }

    /** krealloc in place: shrink block s, of n words, to a words. */
    method Shrink(s: nat, n: nat, a: nat, ghost k: nat)
      requires Valid() && UsedAt(b, s) && n == b[s].n && MIN_BLOCK <= a && a + MIN_BLOCK <= n && a % 2 == 0 &&
                k <= 8 * (a - 2)
      modifies this`b, this`c, this`lists, mem
      ensures Valid() && Resized(old(mem[..]), old(b), mem[..], b, s, s, a, k) && b[s].n == a
      ensures Does(Narrow(s, a), old(Value()), Value(), s + 1)
    {
      ghost var m0, b0 := mem[..], b;
      assert Sized(b, brk - 1, s) && AlignedAt(b, s);
      UsedRegion(b, brk - 1, s);
      TwoNeighbours(b, brk - 1, s, s + a, s + n);
      SameWordsKeepBytes(m0, m0, s + 1, n - 2, k);
      Recut(s, s, s + a, s + n, m0, {}, k);
      ghost var h1 := Value();
      ghost var j := CoalesceRest(s + a, m0, b0, s, s, a, k);
      NarrowDoes(old(Value()), s, a, h1, Value(), j);
    }

    /** krealloc in place: cut the region from s up to hi, its free block off the lists. */
    method CutInPlace(s: nat, n: nat, hi: nat, a: nat, ghost m0: Mem, ghost x: set<nat>, ghost k: nat)
      requires Ok(x) && UsedAt(b, s) && 2 <= n == b[s].n && s + n <= hi <= MAX_WORDS
      requires Region(b, brk - 1, s, hi) && Detached(b, x, s, hi) && UsedWithin(b, s, hi, {s}) && (s + a) % 2 == 1
      requires MIN_BLOCK <= a && s + a + MIN_BLOCK <= hi && k <= 8 * (a - 2) && k <= 8 * (n - 2)
      requires LiveKept(m0, b, mem[..], b, {})
      modifies this`b, this`c, this`lists, mem
      ensures Ok({}) && b == Two(old(b), s, s + a, hi) && Value() == Cut(old(Value()), s, hi, a)
      ensures Resized(m0, old(b), mem[..], b, s, s, a, k)
    {
      ghost var m1 := mem[..];
      LiveBytes(m0, b, m1, b, {}, s, k);
      SameWordsKeepBytes(m1, m1, s + 1, n - 2, k);
      Recut(s, s, s + a, hi, m1, x, k);
      ResizedAfter(m0, old(b), m1, old(b), mem[..], b, s, s, a, k);
    }

    /** krealloc in place: take the free block above s, of nn words, and give back what is left. */
    method GrowRight(s: nat, n: nat, nn: nat, a: nat, ghost k: nat)
      requires Valid() && UsedAt(b, s) && n == b[s].n && FreeAt(b, s + n) && nn == b[s + n].n && !FreeBelow(b, s)
      requires MIN_BLOCK <= a && a + MIN_BLOCK <= n + nn && a % 2 == 0 && k <= 8 * (a - 2) && k <= 8 * (n - 2)
      modifies this`b, this`c, this`lists, mem
      ensures Valid() && Resized(old(mem[..]), old(b), mem[..], b, s, s, a, k) && b[s].n == a
      ensures Does(Widen(s, a), old(Value()), Value(), s + 1)
    {
      ghost var m0 := mem[..];
      GrowRightFacts(b, brk - 1, s, a);
      Unlink(s + n, {}, {s + n});
      CutInPlace(s, n, s + n + nn, a, m0, {s + n}, k);
      WidenRight(old(Value()), s, a, s + n, s + n + nn, Value());
    }

    /** krealloc: move the payload of s down to p and cut the region from p up to hi, its free blocks off the lists. */
    method SlideCut(s: nat, n: nat, p: nat, hi: nat, a: nat, ghost m0: Mem, ghost x: set<nat>, ghost k: nat)
      requires Ok(x) && UsedAt(b, s) && 2 <= n == b[s].n && p < s && s + n <= hi <= MAX_WORDS
      requires Region(b, brk - 1, p, hi) && Detached(b, x, p, hi) && UsedWithin(b, p, hi, {s}) && (p + a) % 2 == 1
      requires MIN_BLOCK <= a && p + a + MIN_BLOCK <= hi && k <= 8 * (a - 2) && k <= 8 * (n - 2)
      requires LiveKept(m0, b, mem[..], b, {})
      modifies this`b, this`c, this`lists, mem
      ensures Ok({}) && b == Two(old(b), p, p + a, hi) && Value() == Cut(old(Value()), p, hi, a)
      ensures Resized(m0, old(b), mem[..], b, s, p, a, k)
    {
      ghost var m1 := mem[..];
      Memmove(mem, 8 * (p + 1), 8 * (s + 1), 8 * (n - 2));
      SlideMoves(m1, mem[..], p, s, n, hi, k);
      Recut(s, p, p + a, hi, m1, x, k);
      ResizedAfter(m0, old(b), m1, old(b), mem[..], b, s, p, a, k);
    }

    /** krealloc: slide the payload of s down into the free block below, taking the free block above as well. */
    method SlideBoth(s: nat, n: nat, p: nat, a: nat, ghost k: nat)
      requires Valid() && UsedAt(b, s) && n == b[s].n && FreeAt(b, p) && Adjacent(b, p, s) && FreeAt(b, s + n)
      requires p == Lo(b, s) && p < s
      requires MIN_BLOCK <= a && a + MIN_BLOCK <= b[p].n + n + b[s + n].n && a % 2 == 0 && k <= 8 * (a - 2) &&
                k <= 8 * (n - 2)
      modifies this`b, this`c, this`lists, mem
      ensures Valid() && Resized(old(mem[..]), old(b), mem[..], b, s, p, a, k) && b[p].n == a
      ensures Does(Widen(s, a), old(Value()), Value(), p + 1)
    {
      ghost var m0 := mem[..];
      var nn := SizeOf(s + n, {});
      SlideBothFacts(b, brk - 1, p, s, a);
      UnlinkTwo(p, s + n);
      SlideBothCut(s, n, p, nn, a, m0, old(Value()), k);
    }

    /** The same with both free blocks off their lists. */
    method SlideBothCut(s: nat, n: nat, p: nat, nn: nat, a: nat, ghost m0: Mem, ghost h: Heap, ghost k: nat)
      requires Ok({p, s + n}) && UsedAt(b, s) && 2 <= n == b[s].n && p < s && FreeAt(b, s + n) && nn == b[s + n].n
      requires MIN_BLOCK <= a && p + a + MIN_BLOCK <= s + n + nn <= MAX_WORDS && k <= 8 * (a - 2) && k <= 8 * (n - 2)
      requires Region(b, brk - 1, p, s + n + nn) && Detached(b, {p, s + n}, p, s + n + nn)
      requires UsedWithin(b, p, s + n + nn, {s}) && NoFreeNeighbours(Two(b, p, p + a, s + n + nn)) && (p + a) % 2 == 1
      requires LiveKept(m0, b, mem[..], b, {}) && h.b == b && p == Lo(b, s)
      requires Value() == h.(c := Off(h.b, Off(h.b, h.c, p), s + n))
      modifies this`b, this`c, this`lists, mem
      ensures Valid() && Resized(m0, old(b), mem[..], b, s, p, a, k) && b[p].n == a
      ensures Does(Widen(s, a), h, Value(), p + 1)
    {
      SlideCut(s, n, p, s + n + nn, a, m0, {p, s + n}, k);
      WidenBoth(h, s, a, p, s + n, s + n + nn, Value());
    }

    /** krealloc: slide the payload of s down into the free block below, and give back what is left. */
    method SlideLeft(s: nat, n: nat, p: nat, a: nat, ghost k: nat)
      requires Valid() && UsedAt(b, s) && n == b[s].n && FreeAt(b, p) && Adjacent(b, p, s) && p == Lo(b, s) && p < s
      requires !(FreeAt(b, s + n) && p + a + MIN_BLOCK <= s + n + b[s + n].n)
      requires MIN_BLOCK <= a && a + MIN_BLOCK <= b[p].n + n && a % 2 == 0 && k <= 8 * (a - 2) && k <= 8 * (n - 2)
      modifies this`b, this`c, this`lists, mem
      ensures Valid() && Resized(old(mem[..]), old(b), mem[..], b, s, p, a, k) && b[p].n == a
      ensures Does(Widen(s, a), old(Value()), Value(), p + 1)
    {
      ghost var m0 := mem[..];
      SlideFacts(b, brk - 1, p, s, a);
      Unlink(p, {}, {p});
      SlideCut(s, n, p, s + n, a, m0, {p}, k);
      ghost var h1 := Value();
      ghost var j := CoalesceRest(p + a, m0, old(b), s, p, a, k);
      WidenLeft(old(Value()), s, a, p, s + n, h1, Value(), j);
    }

    /** krealloc's memmove of k bytes from the payload at ptr to the payload at q. */
    method CopyInto(ptr: nat, q: nat, k: nat)
      requires Valid() && ptr != 0 && q != 0 && UsedAt(b, ptr - 1) && UsedAt(b, q - 1)
      requires k <= 8 * (b[ptr - 1].n - 2) && k <= 8 * (b[q - 1].n - 2)
      modifies mem
      ensures Valid() && LiveKept(old(mem[..]), b, mem[..], b, {q - 1}) && KeptBytes(old(mem[..]), ptr, mem[..], q, k)
    {
      ghost var m1 := mem[..];
      assert Sized(b, brk - 1, ptr - 1) && Sized(b, brk - 1, q - 1);
      Memmove(mem, 8 * q, 8 * ptr, k);
      MovedKeepsBytes(m1, mem[..], q, ptr, k);
      CopyStaysInside(m1, mem[..], q - 1, b[q - 1].n, 8 * ptr, k);
      PayloadStores(m1, mem[..], brk - 1, b, c, q - 1);
    }

    /** krealloc's move: copy k bytes of the payload at ptr to the new payload at q, and free ptr. */
    method MoveTo(ptr: nat, q: nat, k: nat, ghost m0: Mem, ghost b0: Blocks, ghost a: nat)
      requires Valid() && ptr != 0 && q != 0 && UsedAt(b0, ptr - 1) && !UsedAt(b0, q - 1) && UsedAt(b, q - 1)
      requires LiveKept(m0, b0, mem[..], b, {}) && b[q - 1].n >= a >= 2
      requires k <= 8 * (b0[ptr - 1].n - 2) && k <= 8 * (a - 2)
      modifies this`b, this`c, this`lists, mem
      ensures Valid() && Resized(m0, b0, mem[..], b, ptr - 1, q - 1, a, k)
      ensures Does(Free(ptr - 1), old(Value()), Value(), 0)
    {
      ghost var m1, b1 := mem[..], b;
      assert UsedAt(b, ptr - 1);
      assert Sized(b, brk - 1, q - 1) && Sized(b, brk - 1, ptr - 1);
      CopyInto(ptr, q, k);
      ghost var m2 := mem[..];
      Kfree(ptr);
      MoveOutcome(m0, b0, m1, b1, m2, mem[..], b, ptr - 1, q - 1, a, k);
    }

    /** _kmalloc, as krealloc uses it. */
    method Allocate(size: nat, ghost a: nat) returns (p: nat)
      requires Valid() && size < TWO64 && (Overflows(size) || !Deceived(BlockWords(size), brk)) && a == BlockWords(size)
      modifies this, mem
      ensures Valid() && LiveKept(old(mem[..]), old(b), mem[..], b, {})
      ensures p == 0 <==> old(Refused(size))
      ensures p == 0 ==> Value() == old(Value()) && c == old(c) && mem[..] == old(mem[..])
      ensures size != 0 && !Overflows(size) ==> Does(Alloc(a), old(Value()), Value(), p)
      ensures p != 0 ==> size != 0 && !Overflows(size) && UsedAt(b, p - 1) && b[p - 1].n >= a && !UsedAt(old(b), p - 1)
    {
      var q, _ := Kmalloc(size);
      p := q;
    }

    /** krealloc: allocate, copy and free. */
    method Relocate(ptr: nat, size: nat) returns (q: nat)
      requires Valid() && ptr != 0 && UsedAt(b, ptr - 1) && b[ptr - 1].n >= 2
      requires 0 < size < TWO64 && !Overflows(size) && !Deceived(BlockWords(size), brk)
      modifies this, mem
      ensures Valid()
      ensures q == 0 ==> Value() == old(Value()) && c == old(c) && mem[..] == old(mem[..])
      ensures q == 0 <==> old(Refused(size))
      ensures Does(Move(ptr - 1, BlockWords(size)), old(Value()), Value(), q)
      ensures q != 0 ==> Resized(old(mem[..]), old(b), mem[..], b, ptr - 1, q - 1, BlockWords(size),
                Kept(old(b), ptr - 1, size))
    {
      BlockWordsFit(size);
      ghost var m0, b0 := mem[..], b;
      q := Allocate(size, BlockWords(size));
      ghost var h1 := Value();
      if q == 0 {
        MoveDoes(old(Value()), ptr - 1, BlockWords(size), 0, h1, h1);
        return;
      }
      assert UsedAt(b, ptr - 1);
      var n := SizeOf(ptr - 1, {});
      var k := if size < 8 * n - 16 then size else 8 * n - 16;
      MoveTo(ptr, q, k, m0, b0, BlockWords(size));
      MoveDoes(old(Value()), ptr - 1, BlockWords(size), q, h1, Value());
    }

    /** krealloc, with the in-use bits of the neighbours: extend the heap if block s ends it and has to grow. */
    method ExtendForGrowth(s: nat, n: nat, a: nat, prevAlloc: bool, nextAlloc: bool)
      requires Valid() && UsedAt(b, s) && n == b[s].n && a % 2 == 0 && 8 * a < TWO64
      requires !Deceived(a, brk) && (a > n ==> !Deceived(Max(a - n, CHUNK), brk))
      requires prevAlloc == !FreeBelow(b, s) && nextAlloc == !FreeAt(b, s + n)
      modifies this, mem
      ensures Valid() && LiveKept(old(mem[..]), old(b), mem[..], b, {})
      ensures (Value() == old(Value()) && mem[..] == old(mem[..])) || (prevAlloc && nextAlloc && a > n)
      ensures !Deceived(a, brk) && Does(Extend(s, a), old(Value()), Value(), 0)
    {
      assert AlignedAt(b, s);
      TagAbove(mem[..], brk - 1, b, s);
      var r := 0;
      if mem[s + n] == FENCE && prevAlloc && a > n {
        r := ExtendHeap(Max(a - n, CHUNK));
      }
      if r != 0 {
        ExtendDoes(old(Value()), s, a, Value(), r);
      } else {
        ExtendNothing(Value(), s, a);
      }
    }

    /**
      krealloc with a free neighbour: resize into its room if there is enough; r is the block, or 0
      if there is not.
    */
    method ResizeInto(s: nat, n: nat, a: nat, prevAlloc: bool, nextAlloc: bool, ghost k: nat) returns (r: nat)
      requires Valid() && UsedAt(b, s) && n == b[s].n && MIN_BLOCK <= a && a % 2 == 0 && k <= 8 * (a - 2) &&
                k <= 8 * (n - 2)
      requires (prevAlloc && nextAlloc) || (prevAlloc == !FreeBelow(b, s) && nextAlloc == !FreeAt(b, s + n))
      modifies this`b, this`c, this`lists, mem
      ensures Valid() && r == if prevAlloc && nextAlloc then 0 else Roomy(old(b), s, a)
      ensures r == 0 ==> Value() == old(Value()) && c == old(c) && mem[..] == old(mem[..])
      ensures r != 0 ==> Resized(old(mem[..]), old(b), mem[..], b, s, r, a, k) && b[r].n == a
      ensures r != 0 ==> Does(Widen(s, a), old(Value()), Value(), r + 1)
    {
      assert Sized(b, brk - 1, s);
      var nn, _ := Above(s, {});
      if !nextAlloc && prevAlloc {
        if a < nn + n && n + nn - a >= MIN_BLOCK {
          GrowRight(s, n, nn, a, k);
          return s;
        }
      }
      if !prevAlloc {
        var p, _ := Below(s, {});
        assert Adjacent(b, p, s) && Sized(b, brk - 1, p);
        var pp := SizeOf(p, {});
        if a < pp + n + nn && n + pp + nn - a >= MIN_BLOCK && !nextAlloc {
          SlideBoth(s, n, p, a, k);
          return p;
        }
        if a < pp + n && n + pp - a >= MIN_BLOCK {
          SlideLeft(s, n, p, a, k);
          return p;
        }
      }
      return 0;
    }

    /** krealloc into the room of free neighbours, or else by moving. */
    method ResizeOrMove(ptr: nat, size: nat, n: nat, a: nat, prevAlloc: bool, nextAlloc: bool, ghost k: nat)
      returns (q: nat)
      requires Valid() && ptr != 0 && UsedAt(b, ptr - 1) && 2 <= n == b[ptr - 1].n && 0 < size < TWO64 &&
                !Overflows(size) && !Deceived(BlockWords(size), brk)
      requires a == BlockWords(size) && MIN_BLOCK <= a && a % 2 == 0 && k == Kept(b, ptr - 1, size) <= 8 * (a - 2)
      requires (prevAlloc && nextAlloc) || (prevAlloc == !FreeBelow(b, ptr - 1) && nextAlloc == !FreeAt(b, ptr - 1 + n))
      modifies this, mem
      ensures Valid()
      ensures q == 0 ==> Value() == old(Value()) && mem[..] == old(mem[..]) && Refused(size)
      ensures q != 0 ==> Resized(old(mem[..]), old(b), mem[..], b, ptr - 1, q - 1, a, k)
      ensures !(prevAlloc && nextAlloc) && Roomy(old(b), ptr - 1, a) != 0 ==>
                q == Roomy(old(b), ptr - 1, a) + 1 && b[q - 1].n == a
      ensures Does(if !(prevAlloc && nextAlloc) && Roomy(old(b), ptr - 1, a) != 0 then Widen(ptr - 1, a)
                   else Move(ptr - 1, a), old(Value()), Value(), q)
    {
      q := ResizeInto(ptr - 1, n, a, prevAlloc, nextAlloc, k);
      if q != 0 {
        q := q + 1;
      } else {
        q := Relocate(ptr, size);
      }
    }

    /** The head of krealloc: the size of block s, the in-use bits of its neighbours, and the extension of the heap. */
    method LookAround(s: nat, a: nat) returns (n: nat, prevAlloc: bool, nextAlloc: bool)
      requires Valid() && UsedAt(b, s) && a % 2 == 0 && 8 * a < TWO64
      requires !Deceived(a, brk) && (a > b[s].n ==> !Deceived(Max(a - b[s].n, CHUNK), brk))
      modifies this, mem
      ensures Valid() && LiveKept(old(mem[..]), old(b), mem[..], b, {})
      ensures n == old(b)[s].n && prevAlloc == !FreeBelow(old(b), s) && nextAlloc == !FreeAt(old(b), s + n)
      ensures s + n <= MEM_WORDS
      ensures (Value() == old(Value()) && mem[..] == old(mem[..])) || (prevAlloc && nextAlloc && a > n)
      ensures !Deceived(a, brk) && Does(Extend(s, a), old(Value()), Value(), 0)
    {
      assert Sized(b, brk - 1, s);
      n := SizeOf(s, {});
      var p, below := Below(s, {});
      var nn, above := Above(s, {});
      prevAlloc, nextAlloc := below, above;
      ExtendForGrowth(s, n, a, prevAlloc, nextAlloc);
    }

    /** krealloc of the block s to size bytes: all paths for a live block and a request that does not wrap. */
    method Resize(ptr: nat, size: nat, a: nat, ghost k: nat) returns (q: nat)
      requires Valid() && ptr != 0 && UsedAt(b, ptr - 1) && b[ptr - 1].n >= 2
      requires 0 < size < TWO64 && !Overflows(size) && !Deceived(BlockWords(size), brk)
      requires a == BlockWords(size) && MIN_BLOCK <= a && a % 2 == 0 && 8 * a < TWO64
      requires k == Kept(b, ptr - 1, size) <= 8 * (a - 2)
      requires a > b[ptr - 1].n ==> !Deceived(Max(a - b[ptr - 1].n, CHUNK), brk)
      modifies this, mem
      ensures Valid()
      ensures q == 0 ==> LiveKept(old(mem[..]), old(b), mem[..], b, {}) && Refused(size)
      ensures q != 0 ==> Resized(old(mem[..]), old(b), mem[..], b, ptr - 1, q - 1, a, k)
      ensures InPlace(old(b), ptr - 1, a) != 0 ==> q == InPlace(old(b), ptr - 1, a) + 1 && b[q - 1].n == a
      ensures Does(Realloc(ptr - 1, a), old(Value()), Value(), q)
    {
      var s := ptr - 1;
      ghost var m0, b0 := mem[..], b;
      var n, prevAlloc, nextAlloc := LookAround(s, a);
      InPlaceIs(b0, s, a, !prevAlloc, !nextAlloc);
      ghost var m1, b1, h1 := mem[..], b, Value();
      assert UsedAt(b, s);
      q := ResizeFrom(ptr, size, n, a, prevAlloc, nextAlloc, k);
      if q != 0 {
        ResizedAfter(m0, b0, m1, b1, mem[..], b, s, q - 1, a, k);
      }
      ReallocPath(old(Value()), s, a, !prevAlloc, !nextAlloc, h1, Value(), q);
    }

    /** krealloc once the heap has been extended, or not. */
    method ResizeFrom(ptr: nat, size: nat, n: nat, a: nat, prevAlloc: bool, nextAlloc: bool, ghost k: nat)
      returns (q: nat)
      requires Valid() && ptr != 0 && UsedAt(b, ptr - 1) && 2 <= n == b[ptr - 1].n
      requires 0 < size < TWO64 && !Overflows(size) && !Deceived(BlockWords(size), brk)
      requires a == BlockWords(size) && MIN_BLOCK <= a && a % 2 == 0 && k == Kept(b, ptr - 1, size) <= 8 * (a - 2)
      requires (prevAlloc && nextAlloc) || (prevAlloc == !FreeBelow(b, ptr - 1) && nextAlloc == !FreeAt(b, ptr - 1 + n))
      modifies this, mem
      ensures Valid()
      ensures q == 0 ==> Value() == old(Value()) && mem[..] == old(mem[..]) && Refused(size)
      ensures q != 0 ==> Resized(old(mem[..]), old(b), mem[..], b, ptr - 1, q - 1, a, k)
      ensures if a == n then Value() == old(Value()) && q == ptr
              else Does(if a + MIN_BLOCK <= n then Narrow(ptr - 1, a)
                        else if !(prevAlloc && nextAlloc) && Roomy(old(b), ptr - 1, a) != 0 then Widen(ptr - 1, a)
                        else Move(ptr - 1, a), old(Value()), Value(), q)
      ensures a == n || (a < n && n - a >= MIN_BLOCK) ==> q == ptr && b[q - 1].n == a
      ensures !(a == n || (a < n && n - a >= MIN_BLOCK)) && !(prevAlloc && nextAlloc) &&
                Roomy(old(b), ptr - 1, a) != 0 ==>
                q == Roomy(old(b), ptr - 1, a) + 1 && b[q - 1].n == a
    {
      var s := ptr - 1;
      if a == n {
        assert Sized(b, brk - 1, s);
        SameWordsKeepBytes(mem[..], mem[..], s + 1, n - 2, k);
        q := ptr;
      } else if a < n && n - a >= MIN_BLOCK {
        Shrink(s, n, a, k);
        q := ptr;
      } else {
        q := ResizeOrMove(ptr, size, n, a, prevAlloc, nextAlloc, k);
      }
    }

    /** _krealloc */
    method Krealloc(ptr: nat, size: nat) returns (q: nat)
      requires Valid() && (ptr != 0 ==> UsedAt(b, ptr - 1)) && size < TWO64
      requires Overflows(size) || !Deceived(BlockWords(size), brk)
      requires ptr != 0 && BlockWords(size) > b[ptr - 1].n && !Overflows(size) ==>
                 !Deceived(Max(BlockWords(size) - b[ptr - 1].n, CHUNK), brk)
      modifies this, mem
      ensures Valid()
      ensures ptr == 0 ==> LiveKept(old(mem[..]), old(b), mem[..], b, {}) && (q == 0 <==> old(Refused(size)))
      ensures ptr == 0 && q == 0 ==> Value() == old(Value()) && mem[..] == old(mem[..])
      ensures ptr == 0 && size != 0 && !Overflows(size) ==> Does(Alloc(BlockWords(size)), old(Value()), Value(), q)
      ensures ptr != 0 && size == 0 ==> Does(Free(ptr - 1), old(Value()), Value(), q)
      ensures size != 0 && Overflows(size) ==> q == 0 && Value() == old(Value()) && mem[..] == old(mem[..])
      ensures ptr != 0 && size != 0 && !Overflows(size) ==>
                Does(Realloc(ptr - 1, BlockWords(size)), old(Value()), Value(), q)
      ensures ptr == 0 && q != 0 ==> UsedAt(b, q - 1) && b[q - 1].n >= BlockWords(size) && !UsedAt(old(b), q - 1)
      ensures ptr != 0 && size == 0 ==>
                q == 0 && FreedFrom(old(b), ptr - 1, b) && LiveKept(old(mem[..]), old(b), mem[..], b, {ptr - 1})
      ensures ptr != 0 && size != 0 && q == 0 ==> LiveKept(old(mem[..]), old(b), mem[..], b, {}) && Refused(size)
      ensures ptr != 0 && size != 0 && !Overflows(size) && InPlace(old(b), ptr - 1, BlockWords(size)) != 0 ==>
                q == InPlace(old(b), ptr - 1, BlockWords(size)) + 1 && q - 1 in b && b[q - 1].n == BlockWords(size)
      ensures ptr != 0 && size != 0 && !Overflows(size) ==>
                var s, n, a := ptr - 1, old(b)[ptr - 1].n, BlockWords(size);
                a == n || a + 8 <= n
                || (brk == old(brk) && q == Lo(old(b), s) + 1 && SizeAt(b, Lo(old(b), s)) == a <==>
                      (FreeBelow(old(b), s) || FreeAt(old(b), s + n)) && Lo(old(b), s) + a + 8 <= Hi(old(b), s))
      ensures ptr != 0 && q != 0 ==>
                && size != 0 && old(b)[ptr - 1].n >= 2 && !Overflows(size)
                && Resized(old(mem[..]), old(b), mem[..], b, ptr - 1, q - 1, BlockWords(size),
                    Kept(old(b), ptr - 1, size))
    {
      if ptr == 0 {
        q := Allocate(size, BlockWords(size));
        return;
      }
      if size == 0 {
        Kfree(ptr);
        return 0;
      }
      assert Sized(b, brk - 1, ptr - 1);
      var overflow, awords := RequestWords(size);
      if overflow {
        return 0;
      }
      ghost var s, m0, c0, h0 := ptr - 1, mem[..], c, Value();
      q := Resize(ptr, size, awords, Kept(b, ptr - 1, size));
      StaysOrNot(m0, c0, h0, s, awords, Value(), q);
    }

    lemma StaysOrNot(m: Mem, c: seq<seq<nat>>, h: Heap, s: nat, a: nat, h': Heap, q: nat)
      requires h.brk > 0 && Inv(m, h.brk - 1, h.b, c, {}) && SameLists(c, h.c) && UsedAt(h.b, s)
      requires Does(Realloc(s, a), h, h', q)
      requires InPlace(h.b, s, a) != 0 ==> q == InPlace(h.b, s, a) + 1 && q - 1 in h'.b && h'.b[q - 1].n == a
      ensures a == h.b[s].n || a + 8 <= h.b[s].n
              || (h'.brk == h.brk && q == Lo(h.b, s) + 1 && SizeAt(h'.b, Lo(h.b, s)) == a <==>
                    (FreeBelow(h.b, s) || FreeAt(h.b, s + h.b[s].n)) && Lo(h.b, s) + a + 8 <= Hi(h.b, s))
    {
      if a != h.b[s].n && a + MIN_BLOCK > h.b[s].n {
        StaysExactly(m, c, h, s, a);
        RoomyIs(h.b, s, a);
        LoIsBlock(h, s);
      }
    }

    /** The owner of a block in use stores a byte in its payload. */
    method Poke(p: nat, i: nat, v: nat)
      requires Valid() && p != 0 && UsedAt(b, p - 1) && i < 8 * (b[p - 1].n - 2) && v < 256
      modifies mem
      ensures Valid() && 8 * p + i < MEM_BYTES && mem[..] == WithByteAt(old(mem[..]), 8 * p + i, v)
      ensures LiveKept(old(mem[..]), b, mem[..], b, {p - 1})
    {
      ghost var m := mem[..];
      assert Sized(b, brk - 1, p - 1);
      WithByteIsWord(mem[p + i / 8], i % 8, v);
      mem[p + i / 8] := WithByte(mem[p + i / 8], i % 8, v);
      assert mem[..] == WithByteAt(m, 8 * p + i, v);
      PayloadStores(m, mem[..], brk - 1, b, c, p - 1);
    }
  }
}

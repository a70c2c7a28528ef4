/**
  The kernel heap without its memory: which blocks there are, in which order the free ones are on the
  lists, and where the break is. Every operation of the heap is a function of these.
*/
module HeapSpec {
  import opened Words
  import opened FreeLists
  import opened HeapLayout

  const CHUNK: nat := 36

  function Max(x: nat, y: nat): nat {
    if x > y then x else y
  }

  datatype Heap = Heap(b: Blocks, c: seq<seq<nat>>, brk: nat)

  /** What an allocation leaves, and the payload it returns; 0 is NULL. */
  datatype Outcome = Outcome(heap: Heap, ptr: nat)

  // ---------- Lists ----------

  /** A list without the element `e`. */
  function Drop(l: seq<nat>, e: nat): seq<nat> {
    if l == [] then [] else if l[0] == e then l[1..] else [l[0]] + Drop(l[1..], e)
  }

  lemma {:induction false} DropIs(l: seq<nat>, k: nat)
    requires k < |l| && forall j :: 0 <= j < k ==> l[j] != l[k]
    ensures Drop(l, l[k]) == l[..k] + l[k + 1..]
  {
    if k > 0 {
      DropIs(l[1..], k - 1);
      assert l[..k] + l[k + 1..] == [l[0]] + (l[1..][..k - 1] + l[1..][k..]);
    }
  }

  ghost function SizeAt(b: Blocks, s: nat): nat {
    if s in b then b[s].n else 0
  }

  /** The lists after list_remove of block `s`. */
  ghost function Off(b: Blocks, c: seq<seq<nat>>, s: nat): seq<seq<nat>> {
    var i := Seg(SizeAt(b, s));
    if i < |c| then c[i := Drop(c[i], s + 1)] else c
  }

  /** The lists after list_push_back of block `s`. */
  ghost function On(b: Blocks, c: seq<seq<nat>>, s: nat): seq<seq<nat>> {
    var i := Seg(SizeAt(b, s));
    if i < |c| && |c[i]| >= 1 then With(c, i, s + 1) else c
  }

  ghost function ListAt(c: seq<seq<nat>>, i: nat): seq<nat> {
    if i < |c| then c[i] else []
  }

  /** The same lists, compared one by one. */
  ghost predicate SameLists(c: seq<seq<nat>>, d: seq<seq<nat>>) {
    |c| == |d| && forall i: nat {:trigger ListAt(c, i)} :: ListAt(c, i) == ListAt(d, i)
  }

  lemma SameListsEqual(c: seq<seq<nat>>, d: seq<seq<nat>>)
    requires SameLists(c, d)
    ensures c == d
  {
    forall i: nat | i < |c| ensures c[i] == d[i] { assert ListAt(c, i) == ListAt(d, i); }
  }

  lemma OffIsWithout(m: Mem, b: Blocks, c: seq<seq<nat>>, d: seq<seq<nat>>, s: nat, k: nat)
    requires Chains(m, c) && SameLists(c, d) && s in b && k < |c[Seg(b[s].n)]| && c[Seg(b[s].n)][k] == s + 1
    ensures SameLists(FreeLists.Without(c, Seg(b[s].n), k), Off(b, d, s))
  {
    SameListsEqual(c, d);
    assert Chain(m, c[Seg(b[s].n)]);
    DropIs(c[Seg(b[s].n)], k);
  }

  lemma OnIsWith(m: Mem, b: Blocks, c: seq<seq<nat>>, d: seq<seq<nat>>, s: nat)
    requires Chains(m, c) && SameLists(c, d) && s in b
    ensures |c[Seg(b[s].n)]| >= 1 && SameLists(With(c, Seg(b[s].n), s + 1), On(b, d, s))
  {
    SameListsEqual(c, d);
    assert Ends(c[Seg(b[s].n)], Seg(b[s].n));
  }

  // ---------- Freeing ----------

  /** The lists after the free run around `s` has become one block. */
  ghost function JoinedLists(b: Blocks, c: seq<seq<nat>>, s: nat): seq<seq<nat>>
    requires s in b
  {
    var c1 := Off(b, c, s);
    var c2 := if FreeBelow(b, s) then Off(b, c1, Lo(b, s)) else c1;
    if FreeAt(b, s + b[s].n) then Off(b, c2, s + b[s].n) else c2
  }

  /** The free run around `s`, off the lists, as one listed block. */
  ghost function JoinedRun(h: Heap, s: nat): Heap
    requires s in h.b && Lo(h.b, s) < Hi(h.b, s)
  {
    h.(b := Coalesced(h.b, s), c := On(Coalesced(h.b, s), JoinedLists(h.b, h.c, s), Lo(h.b, s)))
  }

  // ---------- Allocating ----------

  /** The heap with a block of `a` words in use at the start of the free block `s`. */
  ghost function PlacedIn(h: Heap, s: nat, a: nat): Heap {
    if !(s in h.b && 0 < a <= h.b[s].n) then h else
      var b := Placed(h.b, s, a);
      h.(b := b, c := if h.b[s].n - a >= MIN_BLOCK then On(b, Off(h.b, h.c, s), s + a) else Off(h.b, h.c, s))
  }

  /** The first of the list elements from `k` up to `stop` whose block has `a` words; 0 if there is none. */
  ghost function FirstFit(b: Blocks, l: seq<nat>, a: nat, k: nat, stop: nat): nat
    requires stop <= |l|
    decreases stop - k
  {
    if k >= stop then 0 else if BigEnough(b, l[k], a) then l[k] - 1 else FirstFit(b, l, a, k + 1, stop)
  }

  /** The first block on the lists from `i` on. */
  ghost function FirstListed(c: seq<seq<nat>>, i: nat): nat
    decreases |c| - i
  {
    if i >= |c| then 0 else if |c[i]| > 2 && c[i][1] > 0 then c[i][1] - 1 else FirstListed(c, i + 1)
  }

  /** How far find_fit looks on the list of the request's own size: at 13 blocks. */
  ghost function LookedAt(l: seq<nat>): (stop: nat)
    ensures stop <= |l|
  {
    if |l| == 0 then 0 else if |l| - 1 < 14 then |l| - 1 else 14
  }

  /** find_fit; 0 is NULL. */
  ghost function Fit(b: Blocks, c: seq<seq<nat>>, a: nat): nat {
    var l := ListAt(c, Seg(a));
    var s := FirstFit(b, l, a, 1, LookedAt(l));
    if s != 0 then s else FirstListed(c, Seg(a) + 1)
  }

  // ---------- Resizing ----------

  /** The words from `lo` up to `hi`, their free blocks off the lists, become `a` words in use and a free block. */
  ghost function Cut(h: Heap, lo: nat, hi: nat, a: nat): Heap {
    if !(lo < lo + a < hi) then h else
      var b := Two(h.b, lo, lo + a, hi);
      h.(b := b, c := On(b, h.c, lo + a))
  }

  /** Block `s` ends the heap, cannot slide and is to grow to `a` words, and the heap can be extended for it. */
  ghost predicate HasToGrow(h: Heap, s: nat, a: nat) {
    var n := SizeAt(h.b, s);
    s + n + 1 == h.brk && !FreeBelow(h.b, s) && a > n && h.brk + Max(a - n, CHUNK) <= MAX_WORDS
  }

  // ---------- Operations ----------

  datatype Op =
    | Join(s: nat)             // coalesce
    | Enlist(s: nat)           // list_push_back and coalesce
    | Free(s: nat)             // kfree
    | Place(s: nat, a: nat)    // place
    | Grow(w: nat)             // extend_heap
    | Find(a: nat)             // find_fit
    | Alloc(a: nat)            // kmalloc
    | Narrow(s: nat, a: nat)   // krealloc to fewer words, in place
    | Widen(s: nat, a: nat)    // krealloc into the room of free neighbours
    | Extend(s: nat, a: nat)   // krealloc's extension of the heap
    | Move(s: nat, a: nat)     // krealloc by kmalloc and kfree
    | Realloc(s: nat, a: nat)  // krealloc

  function Rank(op: Op): nat {
    match op
    case Realloc(_, _) => 5
    case Move(_, _) => 4
    case Alloc(_) => 3
    case Extend(_, _) => 3
    case Free(_) => 2
    case Grow(_) => 2
    case Enlist(_) => 1
    case Narrow(_, _) => 1
    case Widen(_, _) => 1
    case _ => 0
  }

  /** What an operation leaves and returns: a block for coalesce, extend_heap and find_fit, else a payload. */
  ghost function Effect(op: Op, h: Heap): Outcome
    decreases Rank(op), 0
  {
    match op
    case Join(s) =>
      if !(s in h.b && Lo(h.b, s) < Hi(h.b, s)) || (!FreeBelow(h.b, s) && !FreeAt(h.b, s + h.b[s].n))
      then Outcome(h, s)
      else Outcome(JoinedRun(h, s), Lo(h.b, s))
    case Enlist(s) => Apply(Join(s), h.(c := On(h.b, h.c, s)))
    case Free(s) =>
      if s in h.b then Outcome(Apply(Enlist(s), h.(b := Released(h.b, s))).heap, 0) else Outcome(h, 0)
    case Place(s, a) => Outcome(PlacedIn(h, s, a), s + 1)
    case Grow(w) =>
      if h.brk == 0 then Outcome(h, 0)
      else Apply(Enlist(h.brk - 1), h.(b := Extended(h.b, h.brk - 1, w), brk := h.brk + w))
    case Find(a) => Outcome(h, Fit(h.b, h.c, a))
    case Alloc(a) =>
      var s, w := Apply(Find(a), h).ptr, Max(a, CHUNK);
      if s != 0 then Apply(Place(s, a), h)
      else if h.brk + w > MAX_WORDS then Outcome(h, 0)
      else var o := Apply(Grow(w), h); Apply(Place(o.ptr, a), o.heap)
    case Narrow(s, a) =>
      Outcome(Apply(Join(s + a), Cut(h, s, s + SizeAt(h.b, s), a)).heap, s + 1)
    case Widen(s, a) =>
      var p, u := Lo(h.b, s), s + SizeAt(h.b, s);
      var hi := u + SizeAt(h.b, u);
      if !FreeBelow(h.b, s) then Outcome(Cut(h.(c := Off(h.b, h.c, u)), s, hi, a), s + 1)
      else if FreeAt(h.b, u) && p + a + MIN_BLOCK <= hi then
        Outcome(Cut(h.(c := Off(h.b, Off(h.b, h.c, p), u)), p, hi, a), p + 1)
      else Outcome(Apply(Join(p + a), Cut(h.(c := Off(h.b, h.c, p)), p, u, a)).heap, p + 1)
    case Extend(s, a) =>
      if HasToGrow(h, s, a) then Outcome(Apply(Grow(Max(a - SizeAt(h.b, s), CHUNK)), h).heap, 0) else Outcome(h, 0)
    case Move(s, a) =>
      var o := Apply(Alloc(a), h);
      if o.ptr == 0 then o else Outcome(Apply(Free(s), o.heap).heap, o.ptr)
    case Realloc(s, a) =>
      if s !in h.b then Outcome(h, 0)
      else if a == h.b[s].n then Outcome(h, s + 1)
      else if a + MIN_BLOCK <= h.b[s].n then Apply(Narrow(s, a), h)
      else if Roomy(h.b, s, a) != 0 then Apply(Widen(s, a), h)
      else Apply(Move(s, a), Apply(Extend(s, a), h).heap)
  }

  predicate Looked(op: Op) {
    true
  }

  /** The outcome is the operation's effect; its definition stays folded until a proof looks at the operation. */
  ghost predicate IsEffect(op: Op, h: Heap, o: Outcome)
    decreases Rank(op), 1
  {
    forall p {:trigger Looked(p)} :: p == op && Looked(p) ==> o == Effect(op, h)
  }

  /** The operations as functions, folded. */
  ghost function Apply(op: Op, h: Heap): Outcome
    decreases Rank(op), 2
  {
    assert IsEffect(op, h, Effect(op, h));
    var o :| IsEffect(op, h, o);
    o
  }

  lemma Look(op: Op, h: Heap)
    ensures Apply(op, h) == Effect(op, h)
  {
    assert Looked(op);
    assert IsEffect(op, h, Apply(op, h));
  }

  /** The heap `h'` and the pointer `r` are what `op` makes of `h`. */
  ghost predicate Does(op: Op, h: Heap, h': Heap, r: nat) {
    Outcome(h', r) == Apply(op, h)
  }

  lemma JoinDoes(h: Heap, s: nat, c: seq<seq<nat>>, h': Heap)
    requires s in h.b && Lo(h.b, s) < Hi(h.b, s) && (FreeBelow(h.b, s) || FreeAt(h.b, s + h.b[s].n))
    requires c == JoinedLists(h.b, h.c, s)
    requires h' == h.(b := Coalesced(h.b, s), c := On(Coalesced(h.b, s), c, Lo(h.b, s)))
    ensures Does(Join(s), h, h', Lo(h.b, s))
  {
    Look(Join(s), h);
  }

  lemma JoinAlone(h: Heap, s: nat)
    requires s in h.b && !FreeBelow(h.b, s) && !FreeAt(h.b, s + h.b[s].n)
    ensures Does(Join(s), h, h, s)
  {
    Look(Join(s), h);
  }

  lemma EnlistDoes(h: Heap, s: nat, h1: Heap, h': Heap, r: nat)
    requires h1 == h.(c := On(h.b, h.c, s)) && Does(Join(s), h1, h', r)
    ensures Does(Enlist(s), h, h', r)
  {
    Look(Enlist(s), h);
  }

  lemma FreeDoes(h: Heap, s: nat, h1: Heap, h': Heap, r: nat)
    requires s in h.b && h1 == h.(b := Released(h.b, s)) && Does(Enlist(s), h1, h', r)
    ensures Does(Free(s), h, h', 0)
  {
    Look(Free(s), h);
  }

  lemma PlaceDoes(h: Heap, s: nat, a: nat, c: seq<seq<nat>>, h': Heap)
    requires s in h.b && 0 < a <= h.b[s].n && c == Off(h.b, h.c, s) && h'.b == Placed(h.b, s, a) && h'.brk == h.brk
    requires h'.c == if h.b[s].n - a >= MIN_BLOCK then On(h'.b, c, s + a) else c
    ensures Does(Place(s, a), h, h', s + 1)
  {
    Look(Place(s, a), h);
  }

  lemma GrowDoes(h: Heap, w: nat, h1: Heap, h': Heap, r: nat)
    requires h.brk > 0 && h1 == h.(b := Extended(h.b, h.brk - 1, w), brk := h.brk + w)
    requires Does(Enlist(h.brk - 1), h1, h', r)
    ensures Does(Grow(w), h, h', r)
  {
    Look(Grow(w), h);
  }

  lemma {:induction false} FirstFitIs(b: Blocks, l: seq<nat>, a: nat, j: nat, k: nat, stop: nat)
    requires j <= k <= stop <= |l| && forall i :: j <= i < k ==> !BigEnough(b, l[i], a)
    ensures FirstFit(b, l, a, j, stop) == FirstFit(b, l, a, k, stop)
    decreases k - j
  {
    if j < k { FirstFitIs(b, l, a, j + 1, k, stop); }
  }

  lemma {:induction false} FirstListedIs(c: seq<seq<nat>>, j: nat, k: nat)
    requires j <= k <= |c| && forall i :: j <= i < k ==> |c[i]| == 2
    ensures FirstListed(c, j) == FirstListed(c, k)
    decreases k - j
  {
    if j < k { FirstListedIs(c, j + 1, k); }
  }

  /** find_fit stops at the k-th block of its own list. */
  lemma FindOwn(h: Heap, c: seq<seq<nat>>, a: nat, k: nat)
    requires SameLists(c, h.c) && |c| == NUM_LISTS && 1 <= k <= 13 && k < |c[Seg(a)]| - 1
    requires BigEnough(h.b, c[Seg(a)][k], a) && c[Seg(a)][k] > 1
    requires forall j :: 1 <= j < k ==> !BigEnough(h.b, c[Seg(a)][j], a)
    ensures Does(Find(a), h, h, c[Seg(a)][k] - 1)
  {
    SameListsEqual(c, h.c);
    var l := c[Seg(a)];
    FirstFitIs(h.b, l, a, 1, k, LookedAt(l));
    Look(Find(a), h);
  }

  /** find_fit stops at the first block of a higher list. */
  lemma FindHigher(h: Heap, c: seq<seq<nat>>, a: nat, i: nat)
    requires SameLists(c, h.c) && |c| == NUM_LISTS && Seg(a) < i < NUM_LISTS && |c[i]| > 2 && c[i][1] > 0
    requires forall j :: 1 <= j <= 13 && j < |c[Seg(a)]| - 1 ==> !BigEnough(h.b, c[Seg(a)][j], a)
    requires forall l :: Seg(a) < l < i ==> |c[l]| == 2
    ensures Does(Find(a), h, h, c[i][1] - 1)
  {
    SameListsEqual(c, h.c);
    NoneOwn(h.b, c[Seg(a)], a);
    FirstListedIs(c, Seg(a) + 1, i);
    Look(Find(a), h);
  }

  lemma NoneOwn(b: Blocks, l: seq<nat>, a: nat)
    requires forall j :: 1 <= j <= 13 && j < |l| - 1 ==> !BigEnough(b, l[j], a)
    ensures FirstFit(b, l, a, 1, LookedAt(l)) == 0
  {
    if 1 <= LookedAt(l) { FirstFitIs(b, l, a, 1, LookedAt(l), LookedAt(l)); }
  }

  lemma FindNone(h: Heap, c: seq<seq<nat>>, a: nat)
    requires SameLists(c, h.c) && |c| == NUM_LISTS && NoFit(h.b, c, a)
    ensures Does(Find(a), h, h, 0)
  {
    SameListsEqual(c, h.c);
    NoneOwn(h.b, c[Seg(a)], a);
    FirstListedIs(c, Seg(a) + 1, NUM_LISTS);
    Look(Find(a), h);
  }

  /** kmalloc: a block found is placed in, or none is and the heap is extended, or neither can be. */
  lemma AllocFound(h: Heap, a: nat, s: nat, h': Heap)
    requires s != 0 && Does(Find(a), h, h, s) && Does(Place(s, a), h, h', s + 1)
    ensures Does(Alloc(a), h, h', s + 1)
  {
    Look(Alloc(a), h);
  }

  lemma AllocExtended(h: Heap, a: nat, s: nat, h1: Heap, h': Heap)
    requires Does(Find(a), h, h, 0) && h.brk + Max(a, CHUNK) <= MAX_WORDS
    requires Does(Grow(Max(a, CHUNK)), h, h1, s) && Does(Place(s, a), h1, h', s + 1)
    ensures Does(Alloc(a), h, h', s + 1)
  {
    Look(Alloc(a), h);
  }

  /** The block `s` of `h1` is found on the lists of `h`, or new at the end of `h`. */
  ghost predicate Obtained(h: Heap, a: nat, s: nat, h1: Heap) {
    || (h1 == h && Does(Find(a), h, h, s))
    || (h.brk + Max(a, CHUNK) <= MAX_WORDS && Does(Find(a), h, h, 0) && Does(Grow(Max(a, CHUNK)), h, h1, s))
  }

  lemma AllocObtained(h: Heap, a: nat, s: nat, h1: Heap, h': Heap)
    requires s != 0 && Obtained(h, a, s, h1) && Does(Place(s, a), h1, h', s + 1)
    ensures Does(Alloc(a), h, h', s + 1)
  {
    if h1 == h && Does(Find(a), h, h, s) {
      AllocFound(h, a, s, h');
    } else {
      AllocExtended(h, a, s, h1, h');
    }
  }

  lemma AllocRefused(h: Heap, a: nat)
    requires Does(Find(a), h, h, 0) && h.brk + Max(a, CHUNK) > MAX_WORDS
    ensures Does(Alloc(a), h, h, 0)
  {
    Look(Alloc(a), h);
  }

  // ---------- krealloc, path by path ----------

  lemma CutIs(h: Heap, c: seq<seq<nat>>, lo: nat, hi: nat, a: nat, h1: Heap)
    requires lo < lo + a < hi && h1.b == Two(h.b, lo, lo + a, hi) && h1.c == On(h1.b, c, lo + a) && h1.brk == h.brk
    ensures h1 == Cut(h.(c := c), lo, hi, a)
    ensures c == h.c ==> h1 == Cut(h, lo, hi, a)
  {
    if c == h.c { assert h.(c := c) == h; }
  }

  lemma NarrowDoes(h: Heap, s: nat, a: nat, h1: Heap, h': Heap, r: nat)
    requires s in h.b && h1 == Cut(h, s, s + h.b[s].n, a) && Does(Join(s + a), h1, h', r)
    ensures Does(Narrow(s, a), h, h', s + 1)
  {
    Look(Narrow(s, a), h);
  }

  lemma WidenRight(h: Heap, s: nat, a: nat, u: nat, hi: nat, h': Heap)
    requires s in h.b && u == s + h.b[s].n && u in h.b && hi == u + h.b[u].n && !FreeBelow(h.b, s)
    requires h' == Cut(h.(c := Off(h.b, h.c, u)), s, hi, a)
    ensures Does(Widen(s, a), h, h', s + 1)
  {
    Look(Widen(s, a), h);
  }

  lemma WidenBoth(h: Heap, s: nat, a: nat, p: nat, u: nat, hi: nat, h': Heap)
    requires s in h.b && u == s + h.b[s].n && FreeAt(h.b, u) && hi == u + h.b[u].n && p == Lo(h.b, s) && p != s
    requires p + a + MIN_BLOCK <= hi && h' == Cut(h.(c := Off(h.b, Off(h.b, h.c, p), u)), p, hi, a)
    ensures Does(Widen(s, a), h, h', p + 1)
  {
    Look(Widen(s, a), h);
  }

  lemma WidenLeft(h: Heap, s: nat, a: nat, p: nat, u: nat, h1: Heap, h': Heap, r: nat)
    requires s in h.b && u == s + h.b[s].n && p == Lo(h.b, s) && p != s
    requires !(FreeAt(h.b, u) && p + a + MIN_BLOCK <= u + h.b[u].n)
    requires h1 == Cut(h.(c := Off(h.b, h.c, p)), p, u, a) && Does(Join(p + a), h1, h', r)
    ensures Does(Widen(s, a), h, h', p + 1)
  {
    Look(Widen(s, a), h);
  }

  lemma ExtendDoes(h: Heap, s: nat, a: nat, h': Heap, r: nat)
    requires s in h.b && HasToGrow(h, s, a) && Does(Grow(Max(a - h.b[s].n, CHUNK)), h, h', r)
    ensures Does(Extend(s, a), h, h', 0)
  {
    Look(Extend(s, a), h);
  }

  lemma ExtendNothing(h: Heap, s: nat, a: nat)
    requires !HasToGrow(h, s, a)
    ensures Does(Extend(s, a), h, h, 0)
  {
    Look(Extend(s, a), h);
  }

  lemma MoveDoes(h: Heap, s: nat, a: nat, q: nat, h1: Heap, h': Heap)
    requires Does(Alloc(a), h, h1, q) && if q == 0 then h' == h1 else Does(Free(s), h1, h', 0)
    ensures Does(Move(s, a), h, h', q)
  {
    Look(Move(s, a), h);
  }

  /** Which path krealloc takes. */
  lemma ReallocDoes(h: Heap, s: nat, a: nat, h1: Heap, h': Heap, q: nat)
    requires s in h.b && Does(Extend(s, a), h, h1, 0)
    requires if a == h.b[s].n then h' == h1 && q == s + 1
             else if a + MIN_BLOCK <= h.b[s].n then Does(Narrow(s, a), h1, h', q)
             else if Roomy(h.b, s, a) != 0 then Does(Widen(s, a), h1, h', q)
             else Does(Move(s, a), h1, h', q)
    requires a <= h.b[s].n || Roomy(h.b, s, a) != 0 ==> h1 == h
    ensures Does(Realloc(s, a), h, h', q)
  {
    Look(Realloc(s, a), h);
  }

  /** The same, from what krealloc does after it has looked at the neighbours and extended the heap, or not. */
  lemma ReallocPath(h: Heap, s: nat, a: nat, below: bool, above: bool, h1: Heap, h': Heap, q: nat)
    requires s in h.b && s in h1.b && h1.b[s].n == h.b[s].n && below == FreeBelow(h.b, s)
    requires above == FreeAt(h.b, s + h.b[s].n) && Does(Extend(s, a), h, h1, 0)
    requires h1 == h || (!below && !above && a > h.b[s].n)
    requires if a == h.b[s].n then h' == h1 && q == s + 1
             else Does(if a + MIN_BLOCK <= h.b[s].n then Narrow(s, a)
                       else if (below || above) && Roomy(h1.b, s, a) != 0 then Widen(s, a)
                       else Move(s, a), h1, h', q)
    ensures Does(Realloc(s, a), h, h', q)
  {
    ReallocDoes(h, s, a, h1, h', q);
  }

  // ---------- Failure ----------

  /** kmalloc returns NULL if and only if find_fit does and the heap cannot be extended. */
  lemma AllocFails(h: Heap, a: nat)
    ensures Apply(Alloc(a), h).ptr == 0 <==> Fit(h.b, h.c, a) == 0 && h.brk + Max(a, CHUNK) > MAX_WORDS
    ensures Apply(Alloc(a), h).ptr == 0 ==> Apply(Alloc(a), h).heap == h
  {
    Look(Alloc(a), h);
    Look(Find(a), h);
    var s, o := Fit(h.b, h.c, a), Apply(Grow(Max(a, CHUNK)), h);
    Look(Place(s, a), h);
    Look(Place(o.ptr, a), o.heap);
  }

  /** find_fit returns NULL if and only if the blocks it looks at are too small. */
  lemma FitFails(b: Blocks, c: seq<seq<nat>>, a: nat)
    requires |c| == NUM_LISTS
    requires forall i, k {:trigger c[i][k]} :: 0 <= i < |c| && 1 <= k < |c[i]| ==> c[i][k] > 1
    requires forall i {:trigger c[i]} :: 0 <= i < |c| ==> |c[i]| >= 2
    ensures Fit(b, c, a) == 0 <==> NoFit(b, c, a)
  {
    var l := c[Seg(a)];
    OwnFails(b, l, a);
    HigherFails(c, Seg(a) + 1);
  }

  lemma OwnFails(b: Blocks, l: seq<nat>, a: nat)
    requires |l| >= 2 && forall k :: 1 <= k < |l| ==> l[k] > 1
    ensures FirstFit(b, l, a, 1, LookedAt(l)) == 0 <==>
              forall k :: 1 <= k <= 13 && k < |l| - 1 ==> !BigEnough(b, l[k], a)
  {
    FirstFitFails(b, l, a, 1, LookedAt(l));
  }

  lemma {:induction false} FirstFitFails(b: Blocks, l: seq<nat>, a: nat, j: nat, stop: nat)
    requires 1 <= j && stop <= |l| && forall k :: 1 <= k < |l| ==> l[k] > 1
    ensures FirstFit(b, l, a, j, stop) == 0 <==> forall k :: j <= k < stop ==> !BigEnough(b, l[k], a)
    decreases stop - j
  {
    if j < stop && !BigEnough(b, l[j], a) { FirstFitFails(b, l, a, j + 1, stop); }
  }

  lemma {:induction false} HigherFails(c: seq<seq<nat>>, j: nat)
    requires forall i, k {:trigger c[i][k]} :: 0 <= i < |c| && 1 <= k < |c[i]| ==> c[i][k] > 1
    requires forall i {:trigger c[i]} :: 0 <= i < |c| ==> |c[i]| >= 2
    ensures FirstListed(c, j) == 0 <==> forall i :: j <= i < |c| ==> |c[i]| == 2
    decreases |c| - j
  {
    if j < |c| { HigherFails(c, j + 1); }
  }

  /**
    The block that find_fit returns is free and large enough. It is the first such of the first 13 on
    the list of the request's size, or if there is none the first of the next list that is not empty.
  */
  lemma FitFound(m: Mem, end: nat, b: Blocks, c: seq<seq<nat>>, a: nat) returns (i: nat, k: nat)
    requires Inv(m, end, b, c, {}) && Fit(b, c, a) != 0
    ensures Seg(a) <= i < NUM_LISTS && 1 <= k < |c[i]| - 1 && Fit(b, c, a) + 1 == c[i][k]
    ensures FreeAt(b, Fit(b, c, a)) && b[Fit(b, c, a)].n >= a
    ensures i == Seg(a) ==> k <= 13 && forall j :: 1 <= j < k ==> !BigEnough(b, c[i][j], a)
    ensures i > Seg(a) ==>
              && k == 1 && (forall l :: Seg(a) < l < i ==> |c[l]| == 2)
              && forall j :: 1 <= j <= 13 && j < |c[Seg(a)]| - 1 ==> !BigEnough(b, c[Seg(a)][j], a)
  {
    var l := c[Seg(a)];
    if FirstFit(b, l, a, 1, LookedAt(l)) != 0 {
      i := Seg(a);
      k := OwnFound(m, end, b, c, a);
    } else {
      k := 1;
      i := HigherFound(m, end, b, c, a);
    }
  }

  lemma OwnFound(m: Mem, end: nat, b: Blocks, c: seq<seq<nat>>, a: nat) returns (k: nat)
    requires Inv(m, end, b, c, {}) && FirstFit(b, c[Seg(a)], a, 1, LookedAt(c[Seg(a)])) != 0
    ensures 1 <= k < |c[Seg(a)]| - 1 && k <= 13 && Fit(b, c, a) + 1 == c[Seg(a)][k]
    ensures FreeAt(b, Fit(b, c, a)) && b[Fit(b, c, a)].n >= a
    ensures forall j :: 1 <= j < k ==> !BigEnough(b, c[Seg(a)][j], a)
  {
    var l := c[Seg(a)];
    assert Ends(l, Seg(a));
    k := FirstFitAt(b, l, a, 1, LookedAt(l));
    ElementBlock(m, end, b, c, Seg(a), k);
  }

  lemma HigherFound(m: Mem, end: nat, b: Blocks, c: seq<seq<nat>>, a: nat) returns (i: nat)
    requires Inv(m, end, b, c, {}) && Fit(b, c, a) != 0 && FirstFit(b, c[Seg(a)], a, 1, LookedAt(c[Seg(a)])) == 0
    ensures Seg(a) < i < NUM_LISTS && |c[i]| > 2 && Fit(b, c, a) + 1 == c[i][1]
    ensures FreeAt(b, Fit(b, c, a)) && b[Fit(b, c, a)].n >= a
    ensures forall l :: Seg(a) < l < i ==> |c[l]| == 2
    ensures forall j :: 1 <= j <= 13 && j < |c[Seg(a)]| - 1 ==> !BigEnough(b, c[Seg(a)][j], a)
  {
    assert Ends(c[Seg(a)], Seg(a));
    ElementsAbove(m, end, b, c);
    OwnFails(b, c[Seg(a)], a);
    i := FirstListedAt(m, c, Seg(a) + 1);
    ElementBlock(m, end, b, c, i, 1);
    SegMonotone(a, b[c[i][1] - 1].n);
  }

  lemma {:induction false} FirstFitAt(b: Blocks, l: seq<nat>, a: nat, j: nat, stop: nat) returns (k: nat)
    requires stop <= |l| && FirstFit(b, l, a, j, stop) != 0
    ensures j <= k < stop && BigEnough(b, l[k], a) && FirstFit(b, l, a, j, stop) == l[k] - 1
    ensures forall i :: j <= i < k ==> !BigEnough(b, l[i], a)
    decreases stop - j
  {
    if BigEnough(b, l[j], a) { k := j; } else { k := FirstFitAt(b, l, a, j + 1, stop); }
  }

  lemma {:induction false} FirstListedAt(m: Mem, c: seq<seq<nat>>, j: nat) returns (i: nat)
    requires Chains(m, c) && FirstListed(c, j) != 0
    ensures j <= i < |c| && |c[i]| > 2 && FirstListed(c, j) + 1 == c[i][1] && forall l :: j <= l < i ==> |c[l]| == 2
    decreases |c| - j
  {
    assert Ends(c[j], j) && Chain(m, c[j]);
    if |c[j]| > 2 { i := j; } else { i := FirstListedAt(m, c, j + 1); }
  }

  /** The elements of a list are not at the start of memory. */
  lemma ElementsAbove(m: Mem, end: nat, b: Blocks, c: seq<seq<nat>>)
    requires Inv(m, end, b, c, {})
    ensures forall i, k {:trigger c[i][k]} :: 0 <= i < |c| && 1 <= k < |c[i]| ==> c[i][k] > 1
    ensures forall i {:trigger c[i]} :: 0 <= i < |c| ==> |c[i]| >= 2
  {
    forall i, k {:trigger c[i][k]} | 0 <= i < |c| && 1 <= k < |c[i]| ensures c[i][k] > 1 {
      assert Chain(m, c[i]);
    }
    forall i | 0 <= i < |c| ensures |c[i]| >= 2 { assert Ends(c[i], i); }
  }

  /**
    krealloc returns NULL if and only if the block cannot stay or slide to `a` words and kmalloc fails
    in the heap as krealloc has extended it, or not.
  */
  lemma ReallocFails(h: Heap, s: nat, a: nat)
    requires s in h.b && s > 0
    ensures Apply(Realloc(s, a), h).ptr == 0 <==>
              InPlace(h.b, s, a) == 0 && Apply(Alloc(a), Apply(Extend(s, a), h).heap).ptr == 0
    ensures Apply(Realloc(s, a), h).ptr == 0 ==> Apply(Realloc(s, a), h).heap == Apply(Extend(s, a), h).heap
  {
    Look(Realloc(s, a), h);
    Look(Narrow(s, a), h);
    Look(Widen(s, a), h);
    var h1 := Apply(Extend(s, a), h).heap;
    Look(Move(s, a), h1);
    AllocFails(h1, a);
  }

  // ---------- The break ----------

  lemma JoinBreak(h: Heap, s: nat)
    ensures Apply(Join(s), h).heap.brk == h.brk
  {
    Look(Join(s), h);
  }

  lemma GrowBreak(h: Heap, w: nat)
    requires h.brk > 0
    ensures Apply(Grow(w), h).heap.brk == h.brk + w
  {
    var h1 := h.(b := Extended(h.b, h.brk - 1, w), brk := h.brk + w);
    Look(Grow(w), h);
    Look(Enlist(h.brk - 1), h1);
    JoinBreak(h1.(c := On(h1.b, h1.c, h.brk - 1)), h.brk - 1);
  }

  lemma FreeBreak(h: Heap, s: nat)
    ensures Apply(Free(s), h).heap.brk == h.brk
  {
    Look(Free(s), h);
    if s in h.b {
      var h1 := h.(b := Released(h.b, s));
      Look(Enlist(s), h1);
      JoinBreak(h1.(c := On(h1.b, h1.c, s)), s);
    }
  }

  lemma PlaceBreak(h: Heap, s: nat, a: nat)
    ensures Apply(Place(s, a), h).heap.brk == h.brk && Apply(Place(s, a), h).ptr == s + 1
  {
    Look(Place(s, a), h);
  }

  /** kmalloc moves the break, by the block or 36 words, if and only if nothing fits and there is room. */
  lemma AllocBreak(h: Heap, a: nat)
    requires h.brk > 0
    ensures var w := if a > 36 then a else 36;
            Apply(Alloc(a), h).heap.brk ==
            h.brk + if Fit(h.b, h.c, a) == 0 && h.brk + w <= MAX_WORDS then w else 0
  {
    var w := Max(a, CHUNK);
    Look(Alloc(a), h);
    Look(Find(a), h);
    PlaceBreak(h, Fit(h.b, h.c, a), a);
    GrowBreak(h, w);
    var o := Apply(Grow(w), h);
    PlaceBreak(o.heap, o.ptr, a);
  }

  /**
    krealloc extends the heap, by what the block lacks or 36 words, if and only if the block is the
    last, the block below it is in use, it has to grow and there is room.
  */
  lemma ExtendBreak(h: Heap, s: nat, a: nat)
    requires h.brk > 0 && s in h.b
    ensures var n := h.b[s].n;
            var w := if a > n + 36 then a - n else 36;
            Apply(Extend(s, a), h).heap.brk ==
            h.brk + if s + n == h.brk - 1 && !FreeBelow(h.b, s) && a > n && h.brk + w <= MAX_WORDS then w else 0
  {
    Look(Extend(s, a), h);
    if a > h.b[s].n { GrowBreak(h, Max(a - h.b[s].n, CHUNK)); }
  }

  lemma WidenBreak(h: Heap, s: nat, a: nat)
    ensures Apply(Widen(s, a), h).heap.brk == h.brk && Apply(Widen(s, a), h).ptr == Lo(h.b, s) + 1
  {
    var p, u := Lo(h.b, s), s + SizeAt(h.b, s);
    var hi := u + SizeAt(h.b, u);
    if !FreeBelow(h.b, s) {
      WidenKeeps(h, s, a, s, hi, Off(h.b, h.c, u));
    } else if FreeAt(h.b, u) && p + a + MIN_BLOCK <= hi {
      WidenKeeps(h, s, a, p, hi, Off(h.b, Off(h.b, h.c, p), u));
    } else {
      Look(Widen(s, a), h);
      var h1 := Cut(h.(c := Off(h.b, h.c, p)), p, u, a);
      CutBreak(h.(c := Off(h.b, h.c, p)), p, u, a);
      JoinBreak(h1, p + a);
    }
  }

  /** The room of the right neighbour, or of both, is cut in two. */
  lemma WidenKeeps(h: Heap, s: nat, a: nat, p: nat, hi: nat, c: seq<seq<nat>>)
    requires Effect(Widen(s, a), h) == Outcome(Cut(h.(c := c), p, hi, a), p + 1)
    ensures Apply(Widen(s, a), h).heap.brk == h.brk && Apply(Widen(s, a), h).ptr == p + 1
  {
    Look(Widen(s, a), h);
    CutBreak(h.(c := c), p, hi, a);
  }

  lemma CutBreak(h: Heap, lo: nat, hi: nat, a: nat)
    ensures Cut(h, lo, hi, a).brk == h.brk
  {
  }

  lemma NarrowBreak(h: Heap, s: nat, a: nat)
    ensures Apply(Narrow(s, a), h).heap.brk == h.brk && Apply(Narrow(s, a), h).ptr == s + 1
  {
    Look(Narrow(s, a), h);
    JoinBreak(Cut(h, s, s + SizeAt(h.b, s), a), s + a);
  }

  lemma MoveBreak(h: Heap, s: nat, a: nat)
    requires h.brk > 0
    ensures Apply(Move(s, a), h).heap.brk == Apply(Alloc(a), h).heap.brk
    ensures Apply(Move(s, a), h).ptr == Apply(Alloc(a), h).ptr
  {
    Look(Move(s, a), h);
    FreeBreak(Apply(Alloc(a), h).heap, s);
  }

  /** The break after krealloc: unmoved in place, and else as the two extensions move it. */
  lemma ReallocBreak(h: Heap, s: nat, a: nat)
    requires h.brk > 0 && s in h.b
    ensures var n, h1 := h.b[s].n, Apply(Extend(s, a), h).heap;
            Apply(Realloc(s, a), h).heap.brk ==
            if a == n || a + 8 <= n
               || ((FreeBelow(h.b, s) || FreeAt(h.b, s + n)) && 0 < Lo(h.b, s) && Lo(h.b, s) + a + 8 <= Hi(h.b, s))
            then h.brk
            else Apply(Alloc(a), h1).heap.brk
  {
    var h1 := Apply(Extend(s, a), h).heap;
    Look(Realloc(s, a), h);
    RoomyIs(h.b, s, a);
    NarrowBreak(h, s, a);
    WidenBreak(h, s, a);
    ExtendBreak(h, s, a);
    MoveBreak(h1, s, a);
  }

  // ---------- Staying in place ----------

  /** A block found where block `s` would slide to is large enough for it, and in the run of `s`. */
  lemma FoundInRun(m: Mem, c: seq<seq<nat>>, h: Heap, s: nat, a: nat)
    requires h.brk > 0 && Inv(m, h.brk - 1, h.b, c, {}) && SameLists(c, h.c) && UsedAt(h.b, s)
    requires Fit(h.b, h.c, a) != 0 && Fit(h.b, h.c, a) == Lo(h.b, s)
    ensures FreeBelow(h.b, s) && Lo(h.b, s) + a + MIN_BLOCK <= Hi(h.b, s)
  {
    SameListsEqual(c, h.c);
    var i, k := FitFound(m, h.brk - 1, h.b, c, a);
    var p := Lo(h.b, s);
    assert FreeBelow(h.b, s);
    assert p in h.b && Adjacent(h.b, p, s);
    assert Sized(h.b, h.brk - 1, s);
  }

  /**
    A block that neither keeps its size nor shrinks stays in the run with its free neighbours, at
    the start of it and with the break unmoved, if and only if a neighbour is free and the run is long
    enough.
  */
  lemma StaysExactly(m: Mem, c: seq<seq<nat>>, h: Heap, s: nat, a: nat)
    requires h.brk > 0 && Inv(m, h.brk - 1, h.b, c, {}) && SameLists(c, h.c) && UsedAt(h.b, s)
    requires a != h.b[s].n && a + MIN_BLOCK > h.b[s].n
    ensures var o := Apply(Realloc(s, a), h);
            o.heap.brk == h.brk && o.ptr == Lo(h.b, s) + 1 <==>
              (FreeBelow(h.b, s) || FreeAt(h.b, s + h.b[s].n)) && Lo(h.b, s) + a + MIN_BLOCK <= Hi(h.b, s)
  {
    Look(Realloc(s, a), h);
    RoomyIs(h.b, s, a);
    WidenBreak(h, s, a);
    LoIsBlock(h, s);
    if Roomy(h.b, s, a) == 0 {
      var h1 := Apply(Extend(s, a), h).heap;
      ExtendBreak(h, s, a);
      MoveBreak(h1, s, a);
      AllocBreak(h1, a);
      AllocFails(h1, a);
      if h1.brk == h.brk && Fit(h1.b, h1.c, a) != 0 {
        NotExtended(h, s, a);
        FoundAt(h, a);
        if Fit(h.b, h.c, a) == Lo(h.b, s) { FoundInRun(m, c, h, s, a); }
      }
    }
  }

  lemma LoIsBlock(h: Heap, s: nat)
    requires h.brk > 0 && Layout(h.b, h.brk - 1) && s in h.b
    ensures Lo(h.b, s) in h.b && Lo(h.b, s) > 0
  {
    var p := Lo(h.b, s);
    assert p in h.b;
    assert Sized(h.b, h.brk - 1, p);
  }

  lemma NotExtended(h: Heap, s: nat, a: nat)
    requires h.brk > 0 && s in h.b && Apply(Extend(s, a), h).heap.brk == h.brk
    ensures Apply(Extend(s, a), h).heap == h
  {
    Look(Extend(s, a), h);
    if HasToGrow(h, s, a) { GrowBreak(h, Max(a - h.b[s].n, CHUNK)); }
  }

  lemma FoundAt(h: Heap, a: nat)
    requires Fit(h.b, h.c, a) != 0
    ensures Apply(Alloc(a), h).ptr == Fit(h.b, h.c, a) + 1
  {
    Look(Alloc(a), h);
    Look(Find(a), h);
    PlaceBreak(h, Fit(h.b, h.c, a), a);
  }
}

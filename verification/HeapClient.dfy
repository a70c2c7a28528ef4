/**
 What the kernel heap is for: seen from its callers, every run of kmalloc, kfree, krealloc and
 stores into live payloads is a run of a plain table of independent byte strings.
 */
module HeapClient {
  import opened Machine
  import opened Words
  import opened FreeLists
  import opened HeapLayout
  import opened HeapBytes
  import opened HeapSpec
  import opened KernelHeap

  datatype Request =
    | Malloc(id: nat, size: nat)
    | Free(id: nat)
    | Realloc(id: nat, size: nat)
    | Write(id: nat, at: nat, value: nat)

  /** The byte strings the callers hold, by the name they gave each of them. */
  type Table = map<nat, seq<int>>

  /** t' is t with a string of the given length under id. */
  ghost predicate Holding(t: Table, id: nat, size: nat, t': Table) {
    id in t' && |t'[id]| == size && t' == t[id := t'[id]]
  }

  /** What a run passes through: the table, the callers' pointers, and the heap without its memory. */
  datatype Shot = Shot(table: Table, ptr: map<nat, nat>, heap: Heap)

  /** kmalloc on the heap without its memory. */
  ghost function Malloced(h: Heap, size: nat): Outcome {
    if size == 0 || Overflows(size) then Outcome(h, 0) else Apply(Alloc(BlockWords(size)), h)
  }

  /** krealloc of a live block, for a size that is not 0. */
  ghost function Realloced(h: Heap, p: nat, size: nat): Outcome {
    if p == 0 || Overflows(size) then Outcome(h, 0) else Apply(Op.Realloc(p - 1, BlockWords(size)), h)
  }

  /** An allocation for id came out as `o`: it failed and the strings are as they were, or id has one of that size. */
  ghost predicate Served(s: Shot, id: nat, size: nat, o: Outcome, s': Shot) {
    && s'.heap == o.heap
    && if o.ptr == 0 then s'.table == s.table && s'.ptr == s.ptr
       else s'.ptr == s.ptr[id := o.ptr] && Holding(s.table, id, size, s'.table)
  }

  ghost predicate Dropped(s: Shot, id: nat, s': Shot) {
    && s'.table == s.table - {id} && s'.ptr == s.ptr - {id}
    && s'.heap == if id in s.ptr && s.ptr[id] > 0 then Apply(Op.Free(s.ptr[id] - 1), s.heap).heap else s.heap
  }

  /**
    The specification of one request. The blocks, the lists, the break and the pointers are functions
    of what they were; the bytes of a new string are any, and a string resized keeps what fits.
  */
  ghost predicate Step(r: Request, s: Shot, s': Shot) {
    var t, t' := s.table, s'.table;
    match r
    case Malloc(id, size) =>
      if id in t then s' == s else Served(s, id, size, Malloced(s.heap, size), s')
    case Free(id) =>
      Dropped(s, id, s')
    case Realloc(id, size) =>
      if id !in t || id !in s.ptr then s' == s
      else if size == 0 then Dropped(s, id, s')
      else
        && Served(s, id, size, Realloced(s.heap, s.ptr[id], size), s')
        && (id in t' ==> Agree(t[id], t'[id]))
    case Write(id, at, value) =>
      s' == if id in t && at < |t[id]| && value < 256 then s.(table := t[id := t[id][at := value]]) else s
  }

  /** u and v agree as far as both go. */
  ghost predicate Agree(u: seq<int>, v: seq<int>) {
    forall i :: 0 <= i < |u| && i < |v| ==> u[i] == v[i]
  }

  /** The trace is a run of the first `n` requests. */
  ghost predicate IsRun(rs: seq<Request>, trace: seq<Shot>, n: nat) {
    && |trace| == n + 1 && n <= |rs|
    && forall i: nat {:trigger StepAt(rs, trace, i)} :: i < n ==> StepAt(rs, trace, i)
  }

  ghost predicate StepAt(rs: seq<Request>, trace: seq<Shot>, i: nat) {
    i < |rs| && i + 1 < |trace| && Step(rs[i], trace[i], trace[i + 1])
  }

  lemma RunMore(rs: seq<Request>, trace: seq<Shot>, n: nat, s: Shot)
    requires IsRun(rs, trace, n) && n < |rs| && Step(rs[n], trace[n], s)
    ensures IsRun(rs, trace + [s], n + 1)
  {
    var more := trace + [s];
    forall i: nat {:trigger StepAt(rs, more, i)} | i < n + 1 ensures StepAt(rs, more, i) {
      if i < n { assert StepAt(rs, trace, i); }
      assert more[n] == trace[n] && more[n + 1] == s;
    }
  }

  /** The same but for the bytes of the strings. */
  ghost predicate Alike(s: Shot, u: Shot) {
    && s.ptr == u.ptr && s.heap == u.heap && s.table.Keys == u.table.Keys
    && forall id {:trigger s.table[id]} {:trigger u.table[id]} :: id in s.table ==> |s.table[id]| == |u.table[id]|
  }

  /** A request's success, and all it does but for bytes, is determined. */
  lemma StepAlike(r: Request, s: Shot, u: Shot, s': Shot, u': Shot)
    requires Alike(s, u) && Step(r, s, s') && Step(r, u, u')
    ensures Alike(s', u')
  {
  }

  /** Two runs of the same requests from the same start serve and refuse the same ones, at the same addresses. */
  lemma {:induction false} RunsAlike(rs: seq<Request>, trace: seq<Shot>, other: seq<Shot>, k: nat)
    requires IsRun(rs, trace, |rs|) && IsRun(rs, other, |rs|) && k <= |rs| && Alike(trace[0], other[0])
    ensures Alike(trace[k], other[k])
  {
    if k > 0 {
      RunsAlike(rs, trace, other, k - 1);
      assert StepAt(rs, trace, k - 1) && StepAt(rs, other, k - 1);
      StepAlike(rs[k - 1], trace[k - 1], other[k - 1], trace[k], other[k]);
    }
  }

  /**
    A size the allocator can take: it wraps and is refused, or the rounded request fits in an int,
    or what is left of it in an int is refused like the whole.
  */
  predicate Sizable(size: nat) {
    size < TWO64 && (Overflows(size) || size + 31 < TWO31 || 8 * BlockWords(size) % TWO32 > 16 * MAX_WORDS)
  }

  lemma SizableMeant(size: nat, brk: nat)
    requires Sizable(size) && !Overflows(size)
    ensures !Deceived(BlockWords(size), brk)
  {
    BlockWordsFit(size);
  }

  /** Nor does krealloc deceive mem_sbrk with the words that a block of n words lacks. */
  lemma SizableGrowth(size: nat, brk: nat, n: nat)
    requires Sizable(size) && !Overflows(size) && n < MAX_WORDS && BlockWords(size) > n
    ensures !Deceived(Max(BlockWords(size) - n, CHUNK), brk)
  {
    BlockWordsFit(size);
    if size + 31 >= TWO31 { LowerWords(BlockWords(size), n); }
  }

  lemma LowerWords(w: nat, n: nat)
    requires n < MAX_WORDS && w > n && 8 * w % TWO32 > 16 * MAX_WORDS
    ensures 8 * (w - n) % TWO32 > 8 * MAX_WORDS
  {
    var q, low := 8 * w / TWO32, 8 * w % TWO32;
    assert 8 * (w - n) == q * TWO32 + (low - 8 * n);
  }

  predicate Fair(r: Request) {
    match r
    case Malloc(_, size) => Sizable(size)
    case Realloc(_, size) => Sizable(size)
    case _ => true
  }

  /** The payload at p is live and holds the string v. */
  ghost predicate Holds(m: Mem, b: Blocks, p: nat, v: seq<int>) {
    && p != 0 && UsedAt(b, p - 1) && 2 <= b[p - 1].n && p - 1 + b[p - 1].n <= MEM_WORDS
    && |v| <= 8 * (b[p - 1].n - 2) && Bytes(m, p, |v|) == v
  }

  lemma HoldsKept(m: Mem, b: Blocks, m': Mem, b': Blocks, x: set<nat>, p: nat, v: seq<int>)
    requires Holds(m, b, p, v) && LiveKept(m, b, m', b', x) && p - 1 !in x
    ensures Holds(m', b', p, v)
  {
    LiveBytes(m, b, m', b', x, p - 1, |v|);
  }

  /** The payload at p is as long as v and holds some string of v's length. */
  lemma HoldsWhatItHolds(m: Mem, b: Blocks, end: nat, p: nat, k: nat)
    requires Layout(b, end) && p != 0 && UsedAt(b, p - 1) && k <= 8 * (b[p - 1].n - 2)
    ensures 8 * p + k <= MEM_BYTES && |Bytes(m, p, k)| == k && Holds(m, b, p, Bytes(m, p, k))
  {
    assert Sized(b, end, p - 1);
  }

  lemma KeptAgrees(m: Mem, p: nat, m': Mem, q: nat, k: nat, i: nat, j: nat)
    requires KeptBytes(m, p, m', q, k) && 8 * p + i <= MEM_BYTES && 8 * q + j <= MEM_BYTES && (i <= k || j <= k)
    ensures Agree(Bytes(m, p, i), Bytes(m', q, j))
  {
    forall l | 0 <= l < i && l < j
      ensures Bytes(m, p, i)[l] == Bytes(m', q, j)[l]
    {
      assert Bytes(m, p, k)[l] == Bytes(m', q, k)[l];
    }
  }

  lemma PokedBytes(m: Mem, p: nat, k: nat, i: nat, v: nat)
    requires i < k && 8 * p + k <= MEM_BYTES && v < 256
    ensures Bytes(WithByteAt(m, 8 * p + i, v), p, k) == Bytes(m, p, k)[i := v]
  {
    var u, w := Bytes(WithByteAt(m, 8 * p + i, v), p, k), Bytes(m, p, k)[i := v];
    forall l | 0 <= l < k
      ensures u[l] == w[l]
    {
      StoredByte(m, 8 * p + i, v, 8 * p + l);
    }
  }

  /** The table t is laid out in the heap, each string in a block of its own. */
  ghost predicate Represents(m: Mem, b: Blocks, ptr: map<nat, nat>, t: Table) {
    && ptr.Keys == t.Keys
    && (forall id {:trigger ptr[id]} :: id in t ==> Holds(m, b, ptr[id], t[id]))
    && (forall id, jd {:trigger ptr[id], ptr[jd]} :: id in t && jd in t && id != jd ==> ptr[id] != ptr[jd])
  }

  /** Steps that keep the blocks of all strings but id keep what represents them. */
  lemma OthersRepresented(m: Mem, b: Blocks, m': Mem, b': Blocks, x: set<nat>, ptr: map<nat, nat>, t: Table, id: nat)
    requires Represents(m, b, ptr, t) && LiveKept(m, b, m', b', x)
    requires forall s :: s in x ==> id in ptr && s == ptr[id] - 1
    ensures Represents(m', b', ptr - {id}, t - {id})
    ensures x == {} ==> Represents(m', b', ptr, t)
  {
    forall jd | jd in t && (jd != id || x == {})
      ensures Holds(m', b', ptr[jd], t[jd])
    {
      HoldsKept(m, b, m', b', x, ptr[jd], t[jd]);
    }
  }

  /** Adding a string under a new name, in a block that no other string uses. */
  lemma OneMore(m: Mem, b: Blocks, ptr: map<nat, nat>, t: Table, id: nat, p: nat, v: seq<int>)
    requires Represents(m, b, ptr, t) && id !in t && Holds(m, b, p, v)
    requires forall jd {:trigger ptr[jd]} :: jd in t ==> ptr[jd] != p
    ensures Represents(m, b, ptr[id := p], t[id := v])
  {
  }

  /** A pointer to a block that was not in use is none of the callers' pointers. */
  lemma NewPointer(m: Mem, b: Blocks, ptr: map<nat, nat>, t: Table, p: nat)
    requires Represents(m, b, ptr, t) && p != 0 && !UsedAt(b, p - 1)
    ensures forall jd {:trigger ptr[jd]} :: jd in t ==> ptr[jd] != p
  {
    forall jd | jd in t
      ensures ptr[jd] != p
    {
      assert Holds(m, b, ptr[jd], t[jd]);
    }
  }

  /** A successful kmalloc adds a string of the size asked for. */
  lemma NewRepresented(m: Mem, b: Blocks, m': Mem, b': Blocks, end: nat, ptr: map<nat, nat>, t: Table, id: nat, p: nat,
                       size: nat)
    requires Represents(m, b, ptr, t) && Represents(m', b', ptr, t) && id !in t && Layout(b', end)
    requires p != 0 && !UsedAt(b, p - 1) && UsedAt(b', p - 1) && size <= 8 * (b'[p - 1].n - 2)
    ensures 8 * p + size <= MEM_BYTES && Represents(m', b', ptr[id := p], t[id := Bytes(m', p, size)])
  {
    HoldsWhatItHolds(m', b', end, p, size);
    NewPointer(m, b, ptr, t, p);
    OneMore(m', b', ptr, t, id, p, Bytes(m', p, size));
  }

  /** A store into one string changes that string at that place, and no other. */
  lemma PokedRepresented(m: Mem, m': Mem, b: Blocks, ptr: map<nat, nat>, t: Table, id: nat, at: nat, value: nat)
    requires Represents(m, b, ptr, t) && id in t && at < |t[id]| && value < 256
    requires LiveKept(m, b, m', b, {ptr[id] - 1}) && 8 * ptr[id] + at < MEM_BYTES &&
              m' == WithByteAt(m, 8 * ptr[id] + at, value)
    ensures Represents(m', b, ptr, t[id := t[id][at := value]])
  {
    var p, v := ptr[id], t[id];
    assert Holds(m, b, p, v);
    OthersRepresented(m, b, m', b, {p - 1}, ptr, t, id);
    PokedBytes(m, p, |v|, at, value);
    OneMore(m', b, ptr - {id}, t - {id}, id, p, v[at := value]);
    assert ptr == (ptr - {id})[id := p];
    assert t[id := v[at := value]] == (t - {id})[id := v[at := value]];
  }

  /** A successful krealloc leaves the string under id with its new size, and agreeing with the old one. */
  lemma ResizedRepresented(m: Mem, b: Blocks, m': Mem, b': Blocks, end: nat, ptr: map<nat, nat>, t: Table, id: nat,
                           q: nat, size: nat, a: nat)
    requires Represents(m, b, ptr, t) && id in t && Layout(b', end) && q != 0 && 8 * a >= size + 16
    requires ptr[id] != 0 && ptr[id] - 1 in b && b[ptr[id] - 1].n >= 2
    requires Resized(m, b, m', b', ptr[id] - 1, q - 1, a, Kept(b, ptr[id] - 1, size))
    ensures 8 * q + size <= MEM_BYTES && Agree(t[id], Bytes(m', q, size))
    ensures Represents(m', b', ptr[id := q], t[id := Bytes(m', q, size)])
  {
    var p := ptr[id];
    var k := Kept(b, p - 1, size);
    assert Holds(m, b, p, t[id]);
    HoldsWhatItHolds(m', b', end, q, size);
    KeptAgrees(m, p, m', q, k, |t[id]|, size);
    OthersRepresented(m, b, m', b', {p - 1}, ptr, t, id);
    forall jd | jd in t - {id}
      ensures ptr[jd] != q
    {
      assert Holds(m, b, ptr[jd], t[jd]) && ptr[jd] != ptr[id];
    }
    var ptr1, t1 := ptr - {id}, t - {id};
    OneMore(m', b', ptr1, t1, id, q, Bytes(m', q, size));
    assert ptr[id := q] == ptr1[id := q];
    assert t[id := Bytes(m', q, size)] == t1[id := Bytes(m', q, size)];
  }

  class Client {
    const heap: KernelHeap
    /** The pointers the callers hold. */
    var ptr: map<nat, nat>
    /** The sizes they asked for. */
    var len: map<nat, nat>
    ghost var table: Table

    ghost predicate Valid()
      reads this, heap, heap.mem
    {
      && heap.Valid() && Represents(heap.mem[..], heap.b, ptr, table)
      && len.Keys == table.Keys && (forall id :: id in table ==> len[id] == |table[id]|)
    }

    constructor ()
      ensures Valid() && fresh(heap) && fresh(heap.mem) && table == map[]
    {
      heap := new KernelHeap();
      ptr, len := map[], map[];
      table := map[];
    }

    /** The caller notes a new or moved string of the given size. */
    method Record(id: nat, p: nat, size: nat, ghost v: seq<int>)
      requires heap.Valid() && |v| == size && Represents(heap.mem[..], heap.b, ptr[id := p], table[id := v])
      requires len.Keys == table.Keys && forall jd :: jd in table && jd != id ==> len[jd] == |table[jd]|
      modifies this`ptr, this`len, this`table
      ensures Valid() && table == old(table)[id := v] && ptr == old(ptr)[id := p]
    {
      ptr, len := ptr[id := p], len[id := size];
      table := table[id := v];
    }

    /** The caller drops its string. */
    method Forget(id: nat)
      requires heap.Valid() && Represents(heap.mem[..], heap.b, ptr - {id}, table - {id})
      requires len.Keys == table.Keys && forall jd :: jd in table ==> len[jd] == |table[jd]|
      modifies this`ptr, this`len, this`table
      ensures Valid() && table == old(table) - {id} && ptr == old(ptr) - {id}
    {
      ptr, len := ptr - {id}, len - {id};
      table := table - {id};
    }

    ghost function Now(): Shot
      reads this, heap
    {
      Shot(table, ptr, heap.Value())
    }

    /** A new string of the given size, if the allocator finds room. */
    method DoMalloc(id: nat, size: nat)
      requires Valid() && Sizable(size) && id !in ptr
      modifies this, heap, heap.mem
      ensures Valid() && Step(Malloc(id, size), old(Now()), Now())
    {
      ghost var m, b := heap.mem[..], heap.b;
      if !Overflows(size) { SizableMeant(size, heap.brk); }
      var p := heap.Allocate(size, BlockWords(size));
      OthersRepresented(m, b, heap.mem[..], heap.b, {}, ptr, table, id);
      if p != 0 {
        BlockWordsFit(size);
        NewRepresented(m, b, heap.mem[..], heap.b, heap.brk - 1, ptr, table, id, p, size);
        Record(id, p, size, Bytes(heap.mem[..], p, size));
      }
    }

    method DoFree(id: nat)
      requires Valid() && id in ptr
      modifies this, heap, heap.mem
      ensures Valid() && Dropped(old(Now()), id, Now())
    {
      ghost var m, b := heap.mem[..], heap.b;
      heap.Kfree(ptr[id]);
      OthersRepresented(m, b, heap.mem[..], heap.b, {ptr[id] - 1}, ptr, table, id);
      Forget(id);
    }

    method DoWrite(id: nat, at: nat, value: nat)
      requires Valid() && id in ptr && at < |table[id]| && value < 256
      modifies this, heap.mem
      ensures Valid() && Now() == old(Now()).(table := old(table)[id := old(table)[id][at := value]])
    {
      ghost var m := heap.mem[..];
      heap.Poke(ptr[id], at, value);
      PokedRepresented(m, heap.mem[..], heap.b, ptr, table, id, at, value);
      table := table[id := table[id][at := value]];
    }

    /** krealloc to a size that is not 0. */
    method DoResize(id: nat, size: nat)
      requires Valid() && Sizable(size) && id in ptr && size != 0
      modifies this, heap, heap.mem
      ensures Valid() && Step(Request.Realloc(id, size), old(Now()), Now())
    {
      ghost var m, b := heap.mem[..], heap.b;
      var q := KreallocAt(id, size);
      if q == 0 {
        OthersRepresented(m, b, heap.mem[..], heap.b, {}, ptr, table, id);
      } else {
        BlockWordsFit(size);
        ResizedRepresented(m, b, heap.mem[..], heap.b, heap.brk - 1, ptr, table, id, q, size, BlockWords(size));
        Record(id, q, size, Bytes(heap.mem[..], q, size));
      }
    }

    method KreallocAt(id: nat, size: nat) returns (q: nat)
      requires Valid() && Sizable(size) && id in ptr && size != 0
      modifies heap, heap.mem
      ensures heap.Valid() && ptr[id] != 0 && ptr[id] - 1 in old(heap.b) && old(heap.b)[ptr[id] - 1].n >= 2
      ensures q == 0 ==> LiveKept(old(heap.mem[..]), old(heap.b), heap.mem[..], heap.b, {})
      ensures Outcome(heap.Value(), q) == Realloced(old(heap.Value()), ptr[id], size)
      ensures q != 0 ==> !Overflows(size)
      ensures q != 0 ==>
                Resized(old(heap.mem[..]), old(heap.b), heap.mem[..], heap.b, ptr[id] - 1, q - 1, BlockWords(size),
                        Kept(old(heap.b), ptr[id] - 1, size))
    {
      ghost var s := ptr[id] - 1;
      assert Holds(heap.mem[..], heap.b, ptr[id], table[id]);
      assert Sized(heap.b, heap.brk - 1, s);
      if !Overflows(size) {
        SizableMeant(size, heap.brk);
        if BlockWords(size) > heap.b[s].n { SizableGrowth(size, heap.brk, heap.b[s].n); }
      }
      q := heap.Krealloc(ptr[id], size);
    }

    /** krealloc to size 0 is kfree. */
    method DoRealloc(id: nat, size: nat)
      requires Valid() && Sizable(size) && id in ptr
      modifies this, heap, heap.mem
      ensures Valid() && Step(Request.Realloc(id, size), old(Now()), Now())
    {
      if size == 0 {
        ReallocNone(id);
      } else {
        DoResize(id, size);
      }
    }

    method ReallocNone(id: nat)
      requires Valid() && id in ptr
      modifies this, heap, heap.mem
      ensures Valid() && Dropped(old(Now()), id, Now())
    {
      ghost var m, b := heap.mem[..], heap.b;
      assert Holds(m, b, ptr[id], table[id]);
      var q := heap.Krealloc(ptr[id], 0);
      OthersRepresented(m, b, heap.mem[..], heap.b, {ptr[id] - 1}, ptr, table, id);
      Forget(id);
    }

    /** One request; a request that its caller may not make is skipped. */
    method Do(r: Request)
      requires Valid() && Fair(r)
      modifies this, heap, heap.mem
      ensures Valid() && Step(r, old(Now()), Now())
    {
      match r
      case Malloc(id, size) =>
        if id !in ptr {
          DoMalloc(id, size);
        }
      case Free(id) =>
        if id in ptr {
          DoFree(id);
        } else {
          assert table - {id} == table && ptr - {id} == ptr;
        }
      case Realloc(id, size) =>
        if id in ptr {
          DoRealloc(id, size);
        }
      case Write(id, at, value) =>
        if id in ptr && at < len[id] && value < 256 {
          DoWrite(id, at, value);
        }
    }

    /** Every run of the heap is a run of the table: trace lists what is seen between the requests. */
    method Run(rs: seq<Request>) returns (ghost trace: seq<Shot>)
      requires Valid() && forall i :: 0 <= i < |rs| ==> Fair(rs[i])
      modifies this, heap, heap.mem
      ensures Valid() && IsRun(rs, trace, |rs|) && trace[0] == old(Now()) && trace[|rs|] == Now()
    {
      trace := [Now()];
      for k := 0 to |rs|
        invariant Valid() && IsRun(rs, trace, k) && trace[0] == old(Now()) && trace[k] == Now()
      {
        Do(rs[k]);
        RunMore(rs, trace, k, Now());
        trace := trace + [Now()];
      }
    }
  }
}

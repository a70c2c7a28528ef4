/** The heap as bytes: memmove of kernel/libc/string.c, and the contents of blocks in use. */
module HeapBytes {
  import opened Words
  import opened FreeLists
  import opened HeapLayout

  const MEM_BYTES: nat := 8 * MEM_WORDS

  /** The byte at byte address a. */
  function ByteAt(m: Mem, a: nat): nat
    requires a < MEM_BYTES
  {
    Byte(m[a / 8], a % 8)
  }

  /** The memory with the byte at address a replaced. */
  function WithByteAt(m: Mem, a: nat, v: nat): Mem
    requires a < MEM_BYTES && v < 256
  {
    WithByteIsWord(m[a / 8], a % 8, v);
    m[a / 8 := WithByte(m[a / 8], a % 8, v)]
  }

  lemma StoredByte(m: Mem, a: nat, v: nat, x: nat)
    requires a < MEM_BYTES && v < 256 && x < MEM_BYTES
    ensures ByteAt(WithByteAt(m, a, v), x) == if x == a then v else ByteAt(m, x)
  {
    if x / 8 == a / 8 {
      ByteOfWithByte(m[a / 8], a % 8, v, x % 8);
    }
  }

  /** The bytes of m from lo up to hi are those of m0, shifted by src - dst. */
  ghost predicate Copied(m0: Mem, m: Mem, dst: nat, src: nat, lo: nat, hi: nat) {
    forall x: nat {:trigger ByteAt(m, x)} ::
      lo <= x < hi && x < MEM_BYTES && 0 <= x - dst + src < MEM_BYTES ==> ByteAt(m, x) == ByteAt(m0, x - dst + src)
  }

  /** The bytes of m outside lo up to hi are those of m0. */
  ghost predicate BytesOutside(m0: Mem, m: Mem, lo: nat, hi: nat) {
    forall x: nat {:trigger ByteAt(m, x)} :: x < MEM_BYTES && !(lo <= x < hi) ==> ByteAt(m, x) == ByteAt(m0, x)
  }

  /** The words that do not meet the bytes lo up to hi are unchanged. */
  ghost predicate WordsOutside(m0: Mem, m: Mem, lo: nat, hi: nat) {
    forall w {:trigger m[w]} :: 0 <= w < MEM_WORDS && (8 * w + 8 <= lo || hi <= 8 * w) ==> m[w] == m0[w]
  }

  /** m is m0 with n bytes copied from src to dst, as if through a buffer. */
  ghost predicate Moved(m0: Mem, m: Mem, dst: nat, src: nat, n: nat) {
    && Copied(m0, m, dst, src, dst, dst + n)
    && BytesOutside(m0, m, dst, dst + n)
    && WordsOutside(m0, m, dst, dst + n)
  }

  /** m' is m with the byte at src copied to dst. */
  ghost predicate OneByte(m: Mem, m': Mem, dst: nat, src: nat) {
    && dst < MEM_BYTES && src < MEM_BYTES
    && (forall x: nat {:trigger ByteAt(m', x)} :: x < MEM_BYTES ==>
        ByteAt(m', x) == ByteAt(m, if x == dst then src else x))
    && (forall w {:trigger m'[w]} :: 0 <= w < MEM_WORDS && w != dst / 8 ==> m'[w] == m[w])
  }

  /** With the bytes lo up to hi done and byte i next to them copied from an untouched source, one more is done. */
  lemma CopyStep(m0: Mem, m: Mem, m': Mem, dst: nat, src: nat, i: nat, n: nat, lo: nat, hi: nat)
    requires i < n && dst + n <= MEM_BYTES && src + n <= MEM_BYTES && OneByte(m, m', dst + i, src + i)
    requires Copied(m0, m, dst, src, dst + lo, dst + hi) && BytesOutside(m0, m, dst + lo, dst + hi)
    requires !(dst + lo <= src + i < dst + hi) && (lo == i + 1 || hi == i) && lo <= hi <= n
    ensures Copied(m0, m', dst, src, dst + (if lo == i + 1 then i else lo), dst + (if lo == i + 1 then hi else i + 1))
    ensures BytesOutside(m0, m', dst + (if lo == i + 1 then i else lo), dst + (if lo == i + 1 then hi else i + 1))
  {
    assert ByteAt(m, src + i) == ByteAt(m0, src + i);
    forall x: nat | x < MEM_BYTES && x != dst + i
      ensures ByteAt(m', x) == ByteAt(m, x)
    {
    }
    assert ByteAt(m', dst + i) == ByteAt(m0, src + i);
  }

  lemma WordStep(m0: Mem, m: Mem, m': Mem, dst: nat, i: nat, n: nat)
    requires i < n && WordsOutside(m0, m, dst, dst + n)
    requires forall w {:trigger m'[w]} :: 0 <= w < MEM_WORDS && w != (dst + i) / 8 ==> m'[w] == m[w]
    ensures WordsOutside(m0, m', dst, dst + n)
  {
  }

  /** memmove: backward when the source lies below the destination, else forward. */
  method Memmove(mem: array<Word>, dst: nat, src: nat, n: nat)
    requires mem.Length == MEM_WORDS && dst + n <= MEM_BYTES && src + n <= MEM_BYTES
    modifies mem
    ensures Moved(old(mem[..]), mem[..], dst, src, n)
  {
    if src < dst {
      MoveBackward(mem, dst, src, n);
    } else {
      MoveForward(mem, dst, src, n);
    }
  }

  method MoveBackward(mem: array<Word>, dst: nat, src: nat, n: nat)
    requires mem.Length == MEM_WORDS && dst + n <= MEM_BYTES && src < dst
    modifies mem
    ensures Moved(old(mem[..]), mem[..], dst, src, n)
  {
    ghost var m0 := mem[..];
    var i := n;
    while i > 0
      invariant 0 <= i <= n
      invariant Copied(m0, mem[..], dst, src, dst + i, dst + n)
      invariant BytesOutside(m0, mem[..], dst + i, dst + n)
      invariant WordsOutside(m0, mem[..], dst, dst + n)
    {
      i := i - 1;
      ghost var m := mem[..];
      CopyByte(mem, dst + i, src + i);
      CopyStep(m0, m, mem[..], dst, src, i, n, i + 1, n);
      WordStep(m0, m, mem[..], dst, i, n);
    }
  }

  method MoveForward(mem: array<Word>, dst: nat, src: nat, n: nat)
    requires mem.Length == MEM_WORDS && dst <= src && src + n <= MEM_BYTES
    modifies mem
    ensures Moved(old(mem[..]), mem[..], dst, src, n)
  {
    ghost var m0 := mem[..];
    var i := 0;
    while i < n
      invariant 0 <= i <= n
      invariant Copied(m0, mem[..], dst, src, dst, dst + i)
      invariant BytesOutside(m0, mem[..], dst, dst + i)
      invariant WordsOutside(m0, mem[..], dst, dst + n)
    {
      ghost var m := mem[..];
      CopyByte(mem, dst + i, src + i);
      CopyStep(m0, m, mem[..], dst, src, i, n, 0, i);
      WordStep(m0, m, mem[..], dst, i, n);
      i := i + 1;
    }
  }

  method CopyByte(mem: array<Word>, dst: nat, src: nat)
    requires mem.Length == MEM_WORDS && dst < MEM_BYTES && src < MEM_BYTES
    modifies mem
    ensures OneByte(old(mem[..]), mem[..], dst, src)
  {
    ghost var m := mem[..];
    var v := Byte(mem[src / 8], src % 8);
    ByteBound(mem[src / 8], src % 8);
    WithByteIsWord(mem[dst / 8], dst % 8, v);
    mem[dst / 8] := WithByte(mem[dst / 8], dst % 8, v);
    assert mem[..] == WithByteAt(m, dst, v);
    forall x: nat | x < MEM_BYTES
      ensures ByteAt(mem[..], x) == ByteAt(m, if x == dst then src else x)
    {
      StoredByte(m, dst, v, x);
    }
  }

  // ---------------------------------------------------------------- contents of blocks

  /** The first k bytes of the payload at word p. */
  ghost function Bytes(m: Mem, p: nat, k: nat): seq<int>
    requires 8 * p + k <= MEM_BYTES
  {
    seq(k, i requires 0 <= i < k => ByteAt(m, 8 * p + i))
  }

  /** The first k bytes of the payload at word q of m' are those of the payload at word p of m. */
  ghost predicate KeptBytes(m: Mem, p: nat, m': Mem, q: nat, k: nat) {
    8 * p + k <= MEM_BYTES && 8 * q + k <= MEM_BYTES && Bytes(m', q, k) == Bytes(m, p, k)
  }

  /** Unchanged words have unchanged bytes. */
  lemma SameWordsKeepBytes(m: Mem, m': Mem, p: nat, n: nat, k: nat)
    requires SameWords(m, m', p, p + n) && p + n <= MEM_WORDS && k <= 8 * n
    ensures KeptBytes(m, p, m', p, k)
  {
    forall i: nat | i < k
      ensures Bytes(m', p, k)[i] == Bytes(m, p, k)[i]
    {
      var w := (8 * p + i) / 8;
      assert p <= w < p + n;
      assert m'[w] == m[w];
    }
  }

  lemma MovedKeepsBytes(m: Mem, m': Mem, q: nat, p: nat, k: nat)
    requires Moved(m, m', 8 * q, 8 * p, k) && 8 * p + k <= MEM_BYTES && 8 * q + k <= MEM_BYTES
    ensures KeptBytes(m, p, m', q, k)
  {
    forall i: nat | i < k
      ensures Bytes(m', q, k)[i] == Bytes(m, p, k)[i]
    {
      assert ByteAt(m', 8 * q + i) == ByteAt(m, 8 * q + i - 8 * q + 8 * p);
    }
  }

  /** A shorter prefix is kept as well. */
  lemma KeptPrefix(m: Mem, p: nat, m': Mem, q: nat, k: nat, j: nat)
    requires KeptBytes(m, p, m', q, k) && j <= k
    ensures KeptBytes(m, p, m', q, j)
  {
    forall i: nat | i < j
      ensures Bytes(m', q, j)[i] == Bytes(m, p, j)[i]
    {
      assert Bytes(m', q, k)[i] == Bytes(m, p, k)[i];
    }
  }

  /** A block in use that is kept keeps its bytes. */
  lemma LiveBytes(m: Mem, b: Blocks, m': Mem, b': Blocks, x: set<nat>, s: nat, k: nat)
    requires LiveKept(m, b, m', b', x) && UsedAt(b, s) && s !in x
    requires 2 <= b[s].n && s + b[s].n <= MEM_WORDS && k <= 8 * (b[s].n - 2)
    ensures UsedAt(b', s) && b'[s] == b[s] && KeptBytes(m, s + 1, m', s + 1, k)
  {
    SameWordsKeepBytes(m, m', s + 1, b[s].n - 2, k);
  }

  /** Tagging lo up to mid as a block leaves the bytes of its payload alone. */
  lemma CarvedKeepsBytes(m: Mem, lo: nat, mid: nat, hi: nat, k: nat)
    requires lo + 2 <= mid && mid + 4 <= hi <= MAX_WORDS && k <= 8 * (mid - lo - 2)
    ensures KeptBytes(m, lo + 1, Carved(m, lo, mid, hi), lo + 1, k)
  {
    SameWordsKeepBytes(m, Carved(m, lo, mid, hi), lo + 1, mid - lo - 2, k);
  }

  /** Stores inside the payload of a block in use disturb nothing else. */
  lemma PayloadStores(m: Mem, m': Mem, end: nat, b: Blocks, c: seq<seq<nat>>, s: nat)
    requires Inv(m, end, b, c, {}) && UsedAt(b, s) && SameOutside(m, m', s + 1, s + b[s].n - 1)
    ensures Inv(m', end, b, c, {}) && LiveKept(m, b, m', b, {s})
  {
    assert Sized(b, end, s) && TagPair(m, s, b[s]);
    SingleBlock(b, end, s);
    RewriteOne(m, m', end, b, c, {}, s, s + b[s].n, true, {s});
    OneSame(b, end, s);
  }

  /** The outcome of resizing block s to at least a words: block r holds the first k bytes, all other blocks are kept,
      and a block other than s was not in use before. */
  ghost predicate Resized(m: Mem, b: Blocks, m': Mem, b': Blocks, s: nat, r: nat, a: nat, k: nat) {
    && UsedAt(b', r) && b'[r].n >= a && (r != s ==> !UsedAt(b', s) && !UsedAt(b, r))
    && LiveKept(m, b, m', b', {s}) && KeptBytes(m, s + 1, m', r + 1, k)
  }

  /**
    Re-tagging a region that holds block s and otherwise only free blocks off the lists, its
    payload already moved to lo.
  */
  lemma ResizeStep(m: Mem, m1: Mem, end: nat, b: Blocks, c: seq<seq<nat>>, x: set<nat>, s: nat, lo: nat, mid: nat,
                   hi: nat, k: nat)
    requires Inv(m, end, b, c, x) && UsedAt(b, s) && Region(b, end, lo, hi) && Detached(b, x, lo, hi) &&
              UsedWithin(b, lo, hi, {s})
    requires SameOutside(m, m1, lo, hi) && KeptBytes(m, s + 1, m1, lo + 1, k) && lo <= s < hi
    requires lo + MIN_BLOCK <= mid && mid + MIN_BLOCK <= hi && mid % 2 == 1 && k <= 8 * (mid - lo - 2)
    ensures hi < MAX_WORDS && Inv(Carved(m1, lo, mid, hi), end, Two(b, lo, mid, hi), c, {mid})
    ensures Resized(m, b, Carved(m1, lo, mid, hi), Two(b, lo, mid, hi), s, lo, mid - lo, k)
  {
    CarveStep(m, m1, end, b, c, x, lo, mid, hi, {s});
    CarvedKeepsBytes(m1, lo, mid, hi, k);
  }

  /** Steps that keep every block in use and make none new keep a resizing. */
  lemma ResizedThen(m: Mem, b: Blocks, m1: Mem, b1: Blocks, m2: Mem, b2: Blocks, end: nat, s: nat, r: nat, a: nat,
                    k: nat)
    requires Resized(m, b, m1, b1, s, r, a, k) && LiveKept(m1, b1, m2, b2, {})
    requires Layout(b1, end) && k <= 8 * (a - 2) && 2 <= a
    requires r != s ==> !UsedAt(b2, s)
    ensures Resized(m, b, m2, b2, s, r, a, k)
  {
    assert Sized(b1, end, r);
    LiveBytes(m1, b1, m2, b2, {}, r, k);
  }

  /** Steps before a resizing that keep every block in use do not show in its outcome. */
  lemma ResizedAfter(m: Mem, b: Blocks, m1: Mem, b1: Blocks, m2: Mem, b2: Blocks, s: nat, r: nat, a: nat, k: nat)
    requires LiveKept(m, b, m1, b1, {}) && UsedAt(b, s) && Resized(m1, b1, m2, b2, s, r, a, k)
    requires 2 <= b[s].n && s + b[s].n <= MEM_WORDS && k <= 8 * (b[s].n - 2)
    ensures Resized(m, b, m2, b2, s, r, a, k)
  {
    LiveBytes(m, b, m1, b1, {}, s, k);
  }

  /** Sliding the payload of n - 2 words from block s down to block p stays within the words p up to s + n. */
  lemma SlideMoves(m: Mem, m': Mem, p: nat, s: nat, n: nat, hi: nat, k: nat)
    requires 2 <= n && p < s && s + n <= hi <= MAX_WORDS && Moved(m, m', 8 * (p + 1), 8 * (s + 1), 8 * (n - 2)) &&
              k <= 8 * (n - 2)
    ensures SameOutside(m, m', p, hi) && KeptBytes(m, s + 1, m', p + 1, k)
  {
    MovedKeepsBytes(m, m', p + 1, s + 1, 8 * (n - 2));
    KeptPrefix(m, s + 1, m', p + 1, 8 * (n - 2), k);
  }

  /** Copying k bytes into the payload of block r, of n words, stays within that payload. */
  lemma CopyStaysInside(m: Mem, m': Mem, r: nat, n: nat, src: nat, k: nat)
    requires 2 <= n && k <= 8 * (n - 2) && Moved(m, m', 8 * (r + 1), src, k)
    ensures SameOutside(m, m', r + 1, r + n - 1)
  {
  }

  lemma MoveKeepsLive(m0: Mem, b0: Blocks, m1: Mem, b1: Blocks, m2: Mem, m3: Mem, b3: Blocks, s: nat, r: nat)
    requires LiveKept(m0, b0, m1, b1, {}) && LiveKept(m1, b1, m2, b1, {r}) && LiveKept(m2, b1, m3, b3, {s}) &&
              !UsedAt(b0, r)
    ensures LiveKept(m0, b0, m3, b3, {s})
  {
  }

  /** Copying to block r and then freeing block s resizes s, as seen from before r was allocated. */
  lemma MoveOutcome(m0: Mem, b0: Blocks, m1: Mem, b1: Blocks, m2: Mem, m3: Mem, b3: Blocks, s: nat, r: nat, a: nat,
                    k: nat)
    requires LiveKept(m0, b0, m1, b1, {}) && LiveKept(m1, b1, m2, b1, {r}) && LiveKept(m2, b1, m3, b3, {s})
    requires UsedAt(b0, s) && !UsedAt(b0, r) && UsedAt(b1, r) && b1[r].n >= a && FreedFrom(b1, s, b3)
    requires 2 <= b0[s].n && s + b0[s].n <= MEM_WORDS && k <= 8 * (b0[s].n - 2) && KeptBytes(m1, s + 1, m2, r + 1, k)
    requires 2 <= a && r + b1[r].n <= MEM_WORDS && k <= 8 * (a - 2)
    ensures Resized(m0, b0, m3, b3, s, r, a, k)
  {
    FreedNotUsed(b1, s, b3);
    MoveKeepsLive(m0, b0, m1, b1, m2, m3, b3, s, r);
    LiveBytes(m0, b0, m1, b1, {}, s, k);
    LiveBytes(m2, b1, m3, b3, {s}, r, k);
  }

  /** How many bytes of block s a resizing to size bytes has to keep. */
  ghost function Kept(b: Blocks, s: nat, size: nat): nat
    requires s in b && b[s].n >= 2
  {
    if size < 8 * b[s].n - 16 then size else 8 * b[s].n - 16
  }
}

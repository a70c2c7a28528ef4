/** Words of the modelled memory, their bytes, and the boundary tags of kernel/mm/heap/heap.c. */
module Words {
  import opened Machine

  /** A 64-bit memory word. */
  type Word = w: nat | w < TWO64

  /** A boundary tag packs a 63-bit block size (in words) below the in-use bit. */
  function Tag(size: nat, used: bool): Word
    requires size < TWO63
  {
    if used then size + TWO63 else size
  }

  function TagSize(w: Word): nat {
    w % TWO63
  }

  predicate TagUsed(w: Word) {
    w >= TWO63
  }

  /** The tag of the two fences that end the heap on either side. */
  const FENCE: Word := Tag(0, true)

  lemma TagRoundTrip(size: nat, used: bool)
    requires size < TWO63
    ensures TagSize(Tag(size, used)) == size
    ensures TagUsed(Tag(size, used)) == used
  {
  }

  /** Byte k of a word, little end first. */
  function Byte(w: nat, k: nat): nat {
    if k == 0 then w % 256 else Byte(w / 256, k - 1)
  }

  /** The word w with byte k replaced. */
  function WithByte(w: nat, k: nat, b: nat): nat
    requires b < 256
  {
    if k == 0 then w / 256 * 256 + b else w % 256 + 256 * WithByte(w / 256, k - 1, b)
  }

  lemma {:induction false} ByteOfWithByte(w: nat, k: nat, b: nat, j: nat)
    requires b < 256
    ensures Byte(WithByte(w, k, b), j) == if j == k then b else Byte(w, j)
  {
    var r := WithByte(w, k, b);
    if k == 0 {
      assert r / 256 == w / 256;
    } else {
      assert r % 256 == w % 256 && r / 256 == WithByte(w / 256, k - 1, b);
      if j != 0 {
        ByteOfWithByte(w / 256, k - 1, b, j - 1);
      }
    }
  }

  lemma ByteBound(w: nat, k: nat)
    ensures Byte(w, k) < 256
  {
  }

  function Pow256(n: nat): nat {
    if n == 0 then 1 else 256 * Pow256(n - 1)
  }

  lemma {:induction false} WithByteBound(w: nat, k: nat, b: nat, n: nat)
    requires b < 256 && k < n && w < Pow256(n)
    ensures WithByte(w, k, b) < Pow256(n)
  {
    var p := Pow256(n - 1);
    assert w / 256 < p;
    if k != 0 {
      WithByteBound(w / 256, k - 1, b, n - 1);
    }
  }

  lemma WithByteIsWord(w: Word, k: nat, b: nat)
    requires b < 256 && k < 8
    ensures WithByte(w, k, b) < TWO64
  {
    assert Pow256(8) == TWO64 by {
      assert Pow256(2) == 0x1_0000;
      assert Pow256(4) == 0x1_0000_0000;
      assert Pow256(6) == 0x1_0000_0000_0000;
    }
    WithByteBound(w, k, b, 8);
  }
}

/**
 The twelve segregated free lists as they are stored: an element is the address of its
 `prev` word and its `next` word follows it.  Elements of free blocks lie in the payload of
 the block, the head and tail elements of each list lie in static memory above the heap.
 */
module FreeLists {
  import opened Words

  const NUM_LISTS: nat := 12
  /** MAX_HEAP is 2^25 bytes. */
  const MAX_WORDS: nat := 0x40_0000
  const MEM_WORDS: nat := MAX_WORDS + 4 * NUM_LISTS
  const NULL: Word := 0

  type Mem = m: seq<Word> | |m| == MEM_WORDS witness seq(MEM_WORDS, _ => 0)

  function Head(i: nat): nat {
    MAX_WORDS + 4 * i
  }

  function Tail(i: nat): nat {
    MAX_WORDS + 4 * i + 2
  }

  /** A chain runs over distinct, even addresses and consecutive elements point at each other. */
  ghost predicate Chain(m: Mem, s: seq<nat>) {
    && (forall k :: 0 <= k < |s| ==> s[k] % 2 == 0 && 0 < s[k] && s[k] + 1 < MEM_WORDS)
    && (forall k, l :: 0 <= k < l < |s| ==> s[k] != s[l])
    && (forall k, l :: 0 <= k < l < |s| && l == k + 1 ==> m[s[k] + 1] == s[l] && m[s[l]] == s[k])
  }

  /** Chain s belongs to list i: it runs from the list's head to its tail and otherwise stays in the heap. */
  ghost predicate Ends(s: seq<nat>, i: nat) {
    && |s| >= 2 && s[0] == Head(i) && s[|s| - 1] == Tail(i)
    && (forall k :: 0 < k < |s| - 1 ==> s[k] < MAX_WORDS)
  }

  ghost predicate Apart(s: seq<nat>, t: seq<nat>) {
    forall e :: e in s ==> e !in t
  }

  /** All twelve lists are well linked and share no element. */
  ghost predicate Chains(m: Mem, c: seq<seq<nat>>) {
    && |c| == NUM_LISTS
    && (forall i {:trigger Chain(m, c[i])} {:trigger Ends(c[i], i)} :: 0 <= i < NUM_LISTS ==>
        Chain(m, c[i]) && Ends(c[i], i))
    && (forall i, j {:trigger Apart(c[i], c[j])} :: 0 <= i < j < NUM_LISTS ==> Apart(c[i], c[j]))
  }

  /** The block with header s is on list i, through the element at the start of its payload. */
  ghost predicate OnList(c: seq<seq<nat>>, i: nat, s: nat)
    requires i < |c|
  {
    s + 1 < MAX_WORDS && s + 1 in c[i]
  }

  /** list_remove: two stores. */
  function Unlinked(m: Mem, e: nat): (r: Mem)
    requires e + 1 < MEM_WORDS && m[e] + 1 < MEM_WORDS && m[e + 1] < MEM_WORDS
  {
    m[m[e] + 1 := m[e + 1]][m[e + 1] := m[e]]
  }

  ghost function Without(c: seq<seq<nat>>, i: nat, k: nat): seq<seq<nat>>
    requires i < |c| && k < |c[i]|
  {
    c[i := c[i][..k] + c[i][k + 1..]]
  }

  lemma UnlinkOwnChain(m: Mem, s: seq<nat>, k: nat)
    requires Chain(m, s) && 0 < k < |s| - 1
    ensures m[s[k]] == s[k - 1] && m[s[k] + 1] == s[k + 1]
    ensures Chain(Unlinked(m, s[k]), s[..k] + s[k + 1..])
  {
    var p, e, q := s[k - 1], s[k], s[k + 1];
    assert m[e] == p && m[e + 1] == q;
    var m' := Unlinked(m, e);
    assert m'[p + 1] == q && m'[q] == p;
    assert forall a :: 0 <= a < MEM_WORDS && a != p + 1 && a != q ==> m'[a] == m[a];
    UnlinkedChain(m, m', s, k, s[..k] + s[k + 1..]);
  }

  lemma UnlinkedChain(m: Mem, m': Mem, s: seq<nat>, k: nat, t: seq<nat>)
    requires Chain(m, s) && 0 < k < |s| - 1
    requires |t| == |s| - 1 && forall l {:trigger t[l]} :: 0 <= l < |t| ==> t[l] == if l < k then s[l] else s[l + 1]
    requires m'[s[k - 1] + 1] == s[k + 1] && m'[s[k + 1]] == s[k - 1]
    requires forall a :: 0 <= a < MEM_WORDS && a != s[k - 1] + 1 && a != s[k + 1] ==> m'[a] == m[a]
    ensures Chain(m', t)
  {
    forall a, b | 0 <= a < b < |t| && b == a + 1
      ensures m'[t[a] + 1] == t[b] && m'[t[b]] == t[a]
    {
      if a != k - 1 {
        assert t[a] != s[k - 1] && t[b] != s[k + 1];
      }
    }
  }

  /** The two words of an element. */
  predicate LinkWord(s: seq<nat>, a: int) {
    a in s || a - 1 in s
  }

  /** Stores to the link words of even elements outside a chain do not disturb it. */
  lemma ChainFrame(m: Mem, m': Mem, s: seq<nat>, t: seq<nat>)
    requires Chain(m, t) && Apart(s, t)
    requires forall e :: e in s ==> e % 2 == 0
    requires forall a :: 0 <= a < MEM_WORDS && !LinkWord(s, a) ==> m'[a] == m[a]
    ensures Chain(m', t)
  {
    forall k | 0 <= k < |t|
      ensures m'[t[k]] == m[t[k]] && m'[t[k] + 1] == m[t[k] + 1]
    {
      assert t[k] in t;
      assert !LinkWord(s, t[k]) && !LinkWord(s, t[k] + 1);
    }
  }

  /** Rewriting one chain, touching only its own link words, keeps all twelve. */
  lemma ReplaceChain(m: Mem, m': Mem, c: seq<seq<nat>>, i: nat, s: seq<nat>, touched: seq<nat>)
    requires Chains(m, c) && i < NUM_LISTS && Chain(m', s) && Ends(s, i)
    requires forall j :: 0 <= j < NUM_LISTS && j != i ==> Apart(touched, c[j])
    requires forall e :: e in touched ==> e % 2 == 0
    requires forall e :: e in s ==> e in touched
    requires forall a :: 0 <= a < MEM_WORDS && !LinkWord(touched, a) ==> m'[a] == m[a]
    ensures Chains(m', c[i := s])
  {
    forall j | 0 <= j < NUM_LISTS && j != i
      ensures Chain(m', c[j])
    {
      ChainFrame(m, m', touched, c[j]);
    }
  }

  lemma ApartOthers(m: Mem, c: seq<seq<nat>>, i: nat, j: nat)
    requires Chains(m, c) && i < NUM_LISTS && j < NUM_LISTS && i != j
    ensures Apart(c[i], c[j])
  {
    if j < i {
      assert Apart(c[j], c[i]);
    }
  }

  lemma UnlinkKeepsChains(m: Mem, c: seq<seq<nat>>, i: nat, k: nat)
    requires Chains(m, c) && i < NUM_LISTS && 0 < k < |c[i]| - 1
    ensures Chain(m, c[i])
    ensures m[c[i][k]] == c[i][k - 1] && m[c[i][k] + 1] == c[i][k + 1]
    ensures Chains(Unlinked(m, c[i][k]), Without(c, i, k))
  {
    var s := c[i];
    UnlinkOwnChain(m, s, k);
    forall j | 0 <= j < NUM_LISTS && j != i
      ensures Apart(s, c[j])
    {
      ApartOthers(m, c, i, j);
    }
    var t := s[..k] + s[k + 1..];
    assert s[k - 1] in s && s[k + 1] in s;
    ReplaceChain(m, Unlinked(m, s[k]), c, i, t, s);
  }

  /** list_push_back on list i: list_insert before the tail, four stores. */
  function Appended(m: Mem, i: nat, e: nat): (r: Mem)
    requires i < NUM_LISTS && e + 1 < MAX_WORDS && m[Tail(i)] + 1 < MEM_WORDS
  {
    var p := m[Tail(i)];
    m[e := p][e + 1 := Tail(i)][p + 1 := e][Tail(i) := e]
  }

  ghost function With(c: seq<seq<nat>>, i: nat, e: nat): seq<seq<nat>>
    requires i < |c| && |c[i]| >= 1
  {
    var n := |c[i]|;
    c[i := c[i][..n - 1] + [e, c[i][n - 1]]]
  }

  lemma AppendOwnChain(m: Mem, s: seq<nat>, i: nat, e: nat)
    requires Chain(m, s) && i < NUM_LISTS && Ends(s, i)
    requires e % 2 == 0 && 0 < e && e + 1 < MAX_WORDS && e !in s
    ensures m[Tail(i)] == s[|s| - 2]
    ensures Chain(Appended(m, i, e), s[..|s| - 1] + [e, Tail(i)])
  {
    var n := |s|;
    assert m[s[n - 1]] == s[n - 2];
    var m' := Appended(m, i, e);
    var t := s[..n - 1] + [e, Tail(i)];
    forall a, b | 0 <= a < b < |t| && b == a + 1
      ensures m'[t[a] + 1] == t[b] && m'[t[b]] == t[a]
    {
      if b < n - 1 {
        assert t[a] == s[a] && s[a] != s[n - 2] && s[a] != e;
        assert t[b] == s[b] && s[b] != s[n - 1] && s[b] != e;
      }
    }
  }

  lemma AppendKeepsChains(m: Mem, c: seq<seq<nat>>, i: nat, e: nat)
    requires Chains(m, c) && i < NUM_LISTS && e % 2 == 0 && 0 < e && e + 1 < MAX_WORDS
    requires forall j :: 0 <= j < NUM_LISTS ==> e !in c[j]
    ensures Chain(m, c[i]) && Ends(c[i], i) && m[Tail(i)] == c[i][|c[i]| - 2]
    ensures Chains(Appended(m, i, e), With(c, i, e))
  {
    var s := c[i];
    AppendOwnChain(m, s, i, e);
    var touched := s + [e];
    forall j | 0 <= j < NUM_LISTS && j != i
      ensures Apart(touched, c[j])
    {
      ApartOthers(m, c, i, j);
    }
    var t := s[..|s| - 1] + [e, Tail(i)];
    assert s[|s| - 1] in touched && s[|s| - 2] in touched && e in touched;
    ReplaceChain(m, Appended(m, i, e), c, i, t, touched);
  }

  /** list_init: head and tail point at each other. */
  ghost function EmptyChain(i: nat): seq<nat> {
    [Head(i), Tail(i)]
  }

  ghost function EmptyChains(): (c: seq<seq<nat>>)
    ensures |c| == NUM_LISTS && forall i :: 0 <= i < NUM_LISTS ==> c[i] == EmptyChain(i)
  {
    seq(NUM_LISTS, i requires 0 <= i < NUM_LISTS => EmptyChain(i))
  }
}
